/** computeChecksum of pkg/probers/icmp.go and its place in the echo request (section 1 of RFC 1071). */
module Checksum {
  import opened Bytes

  const TWO32 := 0x1_0000_0000

  /** The 16-bit words of data, an odd last octet padded with zero, added up without a bound. */
  function Words(data: bytes): nat {
    if |data| == 0 then 0
    else if |data| == 1 then (data[0] as int) * 256
    else U16(data, 0) + Words(data[2..])
  }

  /** The folding loop. */
  function Fold(sum: nat): nat {
    if sum <= 0xffff then sum else Fold(sum / 0x10000 + sum % 0x10000)
  }

  /** computeChecksum, whose accumulator is 32 bits wide. */
  function Compute(data: bytes): nat
    ensures Compute(data) <= 0xffff
  {
    FoldRange(Words(data) % TWO32);
    0xffff - Fold(Words(data) % TWO32)
  }

  lemma {:induction false} FoldRange(sum: nat)
    ensures Fold(sum) <= 0xffff
    decreases sum
  {
    if sum > 0xffff {
      FoldRange(sum / 0x10000 + sum % 0x10000);
    }
  }

  /** The words are high octet first, and an odd octet at the end counts as if zero stood behind it. */
  lemma {:induction false} WordsAre(data: bytes, a: byte, b: byte)
    ensures Words([]) == 0 && Words([a, b] + data) == (a as int) * 256 + b + Words(data)
    ensures |data| % 2 == 1 ==> Words(data) == Words(data + [0])
    decreases |data|
  {
    assert ([a, b] + data)[2..] == data;
    if |data| > 2 {
      WordsAre(data[2..], a, b);
      assert (data + [0])[2..] == data[2..] + [0];
    } else if |data| == 1 {
      assert (data + [0])[2..] == [];
    }
  }

  lemma MultipleVanishes(q: nat, r: nat)
    ensures (65535 * q + r) % 65535 == r % 65535
  {
    assert (65535 * q + r) / 65535 == q + r / 65535;
  }

  /** Folding keeps the residue modulo 65535 and takes only zero to zero. */
  lemma {:induction false} FoldResidue(sum: nat)
    ensures Fold(sum) % 65535 == sum % 65535
    ensures Fold(sum) == 0 <==> sum == 0
    decreases sum
  {
    if sum > 0xffff {
      var q, r := sum / 0x10000, sum % 0x10000;
      FoldResidue(q + r);
      MultipleVanishes(q, q + r);
    }
  }

  method ComputeChecksum(data: array<byte>) returns (csum: nat)
    ensures csum == Compute(data[..])
  {
    var sum := AddWords(data);
    ghost var all := Words(data[..]) % TWO32;
    FoldRange(sum);
    hide Words;
    while sum > 0xffff
      invariant Fold(sum) == Fold(all)
    {
      sum := sum / 0x10000 + sum % 0x10000;
    }
    csum := 0xffff - sum;
  }

  /** The two loops' first half: the words, added up in 32 bits. */
  method AddWords(data: array<byte>) returns (sum: nat)
    ensures sum == Words(data[..]) % TWO32
  {
    hide Fold, Compute, Words;
    sum := 0;
    var i := 0;
    ghost var all := data[..];
    while i < data.Length - 1
      invariant 0 <= i <= data.Length && i % 2 == 0
      invariant (sum + Words(all[i..])) % TWO32 == Words(all) % TWO32
      invariant sum < TWO32
    {
      var word := (data[i] as int) * 256 + data[i + 1];
      NextWord(all, i);
      CarryOut(sum + word, Words(all[i + 2..]));
      sum := (sum + word) % TWO32;
      i := i + 2;
    }
    assert data.Length % 2 == 1 ==> i == data.Length - 1;
    LastWord(all, i);
    if data.Length % 2 == 1 {
      sum := (sum + (data[data.Length - 1] as int) * 256) % TWO32;
    }
  }

  lemma NextWord(all: bytes, i: nat)
    requires i + 2 <= |all|
    ensures Words(all[i..]) == (all[i] as int) * 256 + all[i + 1] + Words(all[i + 2..])
  {
    assert all[i..][2..] == all[i + 2..];
  }

  lemma LastWord(all: bytes, i: nat)
    requires |all| - 1 <= i <= |all|
    ensures Words(all[i..]) == if i < |all| then (all[i] as int) * 256 else 0
  {
  }

  lemma CarryOut(a: nat, b: nat)
    ensures (a % TWO32 + b) % TWO32 == (a + b) % TWO32
  {
  }

  /** The packet with the checksum in octets 2 and 3, high octet first. */
  function Sealed(packet: bytes): bytes
    requires |packet| >= 4
  {
    packet[2 := Compute(packet) / 256][3 := Compute(packet) % 256]
  }

  /** The three lines of Ping that seal an IPv4 echo request. */
  method InsertChecksum(packet: array<byte>)
    requires packet.Length >= 4
    modifies packet
    ensures packet[..] == Sealed(old(packet[..]))
  {
    var csum := ComputeChecksum(packet);
    packet[2] := csum / 256;
    packet[3] := csum % 256;
  }

  lemma SealAddsChecksum(packet: bytes)
    requires |packet| >= 4 && packet[2] == 0 && packet[3] == 0
    ensures Words(Sealed(packet)) == Words(packet) + Compute(packet)
  {
    var s := Sealed(packet);
    assert s[2..][2..] == packet[2..][2..];
    assert s[..2] == packet[..2];
  }

  /** A sealed packet checks to zero, whatever its length: even where the 32-bit accumulator
      wraps, adding the checksum cannot make it wrap once more. */
  lemma {:induction false} SealedVerifies(packet: bytes)
    requires |packet| >= 4 && packet[2] == 0 && packet[3] == 0
    ensures Compute(Sealed(packet)) == 0
  {
    var w, c := Words(packet), Compute(packet);
    var s := w % TWO32;
    SealAddsChecksum(packet);
    hide Words;
    ChecksumFillsUp(s, c);
    hide Sealed;
    assert (w + c) % TWO32 == s + c by { assert w + c == TWO32 * (w / TWO32) + (s + c); }
    FoldResidue(s + c);
    FoldRange(s + c);
  }

  /** s plus its checksum is a positive multiple of 65535 and still fits 32 bits. */
  lemma ChecksumFillsUp(s: nat, c: nat)
    requires s < TWO32 && c == 0xffff - Fold(s)
    ensures 0 < s + c < TWO32 && (s + c) % 65535 == 0
  {
    FoldResidue(s);
    FoldRange(s);
    var q, r := s / 65535, s % 65535;
    assert s == 65535 * q + r;
    assert q < 65538 && (q == 65537 ==> r == 0);
    if Fold(s) == 65535 {
      assert r == 0;
    } else {
      assert Fold(s) == r;
      assert s + c == 65535 * (q + 1);
    }
    MultipleVanishes((s + c) / 65535, 0);
  }

  // ---------------------------------------------------------------- RFC 1071

  /** The one's complement sum of two words: addition with end-around carry. */
  function AddCarry(a: nat, b: nat): nat {
    if a + b > 0xffff then a + b - 0xffff else a + b
  }

  function OnesSum(data: bytes): nat {
    if |data| == 0 then 0
    else if |data| == 1 then (data[0] as int) * 256
    else AddCarry(U16(data, 0), OnesSum(data[2..]))
  }

  lemma {:induction false} OnesSumIsFold(data: bytes)
    ensures OnesSum(data) == Fold(Words(data))
    ensures OnesSum(data) <= 0xffff
  {
    FoldResidue(Words(data));
    FoldRange(Words(data));
    if |data| >= 2 {
      OnesSumIsFold(data[2..]);
      FoldResidue(Words(data[2..]));
      SumResidue(U16(data, 0), OnesSum(data[2..]), Words(data[2..]));
    }
  }

  lemma SumResidue(a: nat, b: nat, w: nat)
    requires a <= 0xffff && b <= 0xffff && b % 65535 == w % 65535 && (b == 0 <==> w == 0)
    ensures AddCarry(a, b) == Fold(a + w)
  {
    FoldResidue(a + w);
    FoldRange(a + w);
    hide Fold;
    SameResidue(a, b, w);
    AddCarryResidue(a, b);
    OneOfEach(AddCarry(a, b), Fold(a + w));
  }

  lemma SameResidue(a: nat, b: nat, w: nat)
    requires b % 65535 == w % 65535
    ensures (a + w) % 65535 == (a + b) % 65535
  {
    var r := b % 65535;
    assert a + w == 65535 * (w / 65535) + (a + r);
    assert a + b == 65535 * (b / 65535) + (a + r);
    MultipleVanishes(w / 65535, a + r);
    MultipleVanishes(b / 65535, a + r);
  }

  lemma AddCarryResidue(a: nat, b: nat)
    requires a <= 0xffff && b <= 0xffff
    ensures AddCarry(a, b) % 65535 == (a + b) % 65535
    ensures AddCarry(a, b) <= 0xffff && (AddCarry(a, b) == 0 <==> a + b == 0)
  {
    if a + b > 0xffff {
      MultipleVanishes(1, a + b - 0xffff);
    }
  }

  /** Of the numbers from 1 to 65535 there is one to each residue. */
  lemma OneOfEach(x: nat, y: nat)
    requires x <= 65535 && y <= 65535 && x % 65535 == y % 65535 && (x == 0 <==> y == 0)
    ensures x == y
  {
  }

  /** computeChecksum is the complement of the standard's sum while the words add up to less
      than 2^32, in particular for every packet of up to 131074 octets. */
  lemma {:induction false} ComputesRfc1071(data: bytes)
    ensures Words(data) < TWO32 ==> Compute(data) == 0xffff - OnesSum(data)
    ensures |data| <= 131074 ==> Words(data) < TWO32
  {
    OnesSumIsFold(data);
    WordsBound(data);
    hide Fold, OnesSum, Words;
  }

  lemma {:induction false} WordsBound(data: bytes)
    ensures 2 * Words(data) <= 0xffff * (|data| + |data| % 2)
  {
    if |data| >= 2 {
      WordsBound(data[2..]);
    }
  }

  lemma ResidueShift(k: nat, s: nat)
    ensures (k + s) % 65535 == s % 65535 <==> k % 65535 == 0
  {
    var p, x, q, y := k / 65535, k % 65535, s / 65535, s % 65535;
    assert k + s == 65535 * (p + q) + (x + y);
    MultipleVanishes(p + q, x + y);
    assert (x + y) % 65535 == if x + y < 65535 then x + y else x + y - 65535;
  }

  /** Two folded sums agree when their residues do and zero is not mistaken for 65535. */
  lemma FoldsAgree(v: nat, w: nat)
    ensures Fold(v) == Fold(w) <==> v % 65535 == w % 65535 && (v == 0 <==> w == 0)
  {
    FoldResidue(v);
    FoldRange(v);
    FoldResidue(w);
    FoldRange(w);
    hide Fold;
  }

  /** Once the accumulator has wrapped k times the two agree exactly when k is a multiple of
      65535 and zero is not mistaken for 65535. */
  lemma {:induction false} WrapBreaksRfc1071(data: bytes)
    ensures Compute(data) == 0xffff - OnesSum(data)
            <==> (Words(data) / TWO32) % 65535 == 0 && (Words(data) % TWO32 == 0 ==> Words(data) == 0)
  {
    OnesSumIsFold(data);
    hide Fold, OnesSum, Words;
    var w := Words(data);
    var k, s := w / TWO32, w % TWO32;
    FoldsAgree(s, w);
    assert w == 65535 * (65537 * k) + (k + s);
    MultipleVanishes(65537 * k, k + s);
    ResidueShift(k, s);
  }

  lemma {:induction false} AllOnesWords(n: nat)
    ensures Words(seq(2 * n, _ => 0xff)) == 65535 * n
  {
    if n > 0 {
      var data: bytes := seq(2 * n, _ => 0xff);
      assert data[2..] == seq(2 * (n - 1), _ => 0xff);
      AllOnesWords(n - 1);
    }
  }

  /** 131076 octets of ones are two too many. */
  lemma LongPacketDiffers()
    ensures var data: bytes := seq(131076, _ => 0xff); Compute(data) != 0xffff - OnesSum(data)
  {
    AllOnesWords(65538);
    assert seq(2 * 65538, _ => 0xff) == seq(131076, _ => 0xff);
    WrapBreaksRfc1071(seq(131076, _ => 0xff));
    hide Compute, OnesSum, Words;
  }

  /** The numerical example of section 3 of RFC 1071: 00 01 f2 03 f4 f5 f6 f7 sum to ddf2. */
  lemma Rfc1071Example()
    ensures Compute([0x00, 0x01, 0xf2, 0x03, 0xf4, 0xf5, 0xf6, 0xf7]) == 0xffff - 0xddf2
  {
    var fourth: bytes := [0xf6, 0xf7];
    var third: bytes := [0xf4, 0xf5] + fourth;
    var second: bytes := [0xf2, 0x03] + third;
    WordsAre([], 0xf6, 0xf7);
    WordsAre(fourth, 0xf4, 0xf5);
    WordsAre(third, 0xf2, 0x03);
    WordsAre(second, 0x00, 0x01);
    hide Words;
    assert fourth == [0xf6, 0xf7] + [];
    assert [0x00, 0x01, 0xf2, 0x03, 0xf4, 0xf5, 0xf6, 0xf7] == [0x00, 0x01] + second;
    assert Words([0x00, 0x01] + second) == 0x2ddf0;
    assert Fold(0x2ddf0) == 0xddf2;
  }

  /** What Ping writes: the checksum of the packet, high octet first, and no other octet. */
  lemma SealedIs(packet: bytes)
    requires |packet| >= 4
    ensures |Sealed(packet)| == |packet| && U16(Sealed(packet), 2) == Compute(packet)
    ensures forall i | 0 <= i < |packet| && i != 2 && i != 3 :: Sealed(packet)[i] == packet[i]
  {
  }
}
