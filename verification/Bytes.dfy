/** Octets, octet strings and the few byte-level readers every wire codec shares. */
module Bytes {

  type byte = b: int | 0 <= b < 256

  /** A Go string or byte slice. */
  type bytes = seq<byte>

  /** binary.BigEndian.Uint16 */
  function U16(s: bytes, i: nat): nat
    requires i + 2 <= |s|
  {
    (s[i] as int) * 256 + s[i + 1]
  }

  /** binary.BigEndian.Uint32 */
  function U32(s: bytes, i: nat): nat
    requires i + 4 <= |s|
  {
    U16(s, i) * 65536 + U16(s, i + 2)
  }

  /** The octets of an ASCII text. */
  function Ascii(s: string): bytes {
    seq(|s|, i requires 0 <= i < |s| => (s[i] as int) % 256)
  }

  /** What a sender writes as two or four octets, high octet first, is what is read. */
  lemma WrittenWord(s: bytes, i: nat, n: nat)
    requires n < 65536 && Stands(s, i, [n / 256, n % 256])
    ensures i + 2 <= |s| && U16(s, i) == n
  {
    StandsOctet(s, i, [n / 256, n % 256], 0);
    StandsOctet(s, i, [n / 256, n % 256], 1);
  }

  function LongOctets(n: nat): bytes {
    [n / 0x100_0000 % 256, n / 65536 % 256, n / 256 % 256, n % 256]
  }

  lemma WrittenLong(s: bytes, i: nat, n: nat)
    requires n < 0x1_0000_0000 && Stands(s, i, LongOctets(n))
    ensures i + 4 <= |s| && U32(s, i) == n
  {
    var t := LongOctets(n);
    StandsOctet(s, i, t, 0);
    StandsOctet(s, i, t, 1);
    StandsOctet(s, i, t, 2);
    StandsOctet(s, i, t, 3);
    var a, d := n / 256, n % 256;
    var b, c := a / 256, a % 256;
    assert n / 65536 == b && n / 0x100_0000 == b / 256;
  }

  /** strings.Split(s, sep) for a one-byte separator */
  function Split(s: bytes, sep: byte): (parts: seq<bytes>)
    ensures |parts| > 0
  {
    if |s| == 0 then [[]]
    else
      var rest := Split(s[1..], sep);
      if s[0] == sep then [[]] + rest else [[s[0]] + rest[0]] + rest[1..]
  }

  /** strings.Join(parts, sep) for a one-byte separator */
  function Join(parts: seq<bytes>, sep: byte): bytes {
    if |parts| == 0 then []
    else if |parts| == 1 then parts[0]
    else parts[0] + [sep] + Join(parts[1..], sep)
  }

  lemma {:induction false} SplitJoins(s: bytes, sep: byte)
    ensures Join(Split(s, sep), sep) == s
  {
    if |s| > 0 {
      SplitJoins(s[1..], sep);
    }
  }

  lemma {:induction false} SplitAtFirst(a: bytes, s: bytes, sep: byte)
    requires sep !in a
    ensures Split(a + s, sep) == [a + Split(s, sep)[0]] + Split(s, sep)[1..]
  {
    if |a| == 0 {
      assert a + s == s;
      assert a + Split(s, sep)[0] == Split(s, sep)[0];
    } else {
      SplitAtFirst(a[1..], s, sep);
      assert (a + s)[1..] == a[1..] + s && (a + s)[0] == a[0];
      var rest := Split(a[1..] + s, sep);
      assert rest[0] == a[1..] + Split(s, sep)[0] && rest[1..] == Split(s, sep)[1..];
      assert [a[0]] + (a[1..] + Split(s, sep)[0]) == a + Split(s, sep)[0];
    }
  }

  /** Splitting takes apart what joining put together, if no part holds the separator. */
  lemma {:induction false} JoinSplits(parts: seq<bytes>, sep: byte)
    requires |parts| > 0 && forall p | p in parts :: sep !in p
    ensures Split(Join(parts, sep), sep) == parts
  {
    var a := parts[0];
    if |parts| == 1 {
      SplitAtFirst(a, [], sep);
      assert a + [] == a;
      assert Split([], sep) == [[]];
    } else {
      var rest := Join(parts[1..], sep);
      JoinSplits(parts[1..], sep);
      assert ([sep] + rest)[1..] == rest;
      assert Split([sep] + rest, sep) == [[]] + Split(rest, sep);
      SplitAtFirst(a, [sep] + rest, sep);
      assert a + [sep] + rest == a + ([sep] + rest);
      assert a + [] == a;
    }
  }

  /** The parts hold no separator. */
  lemma {:induction false} SplitParts(s: bytes, sep: byte)
    ensures forall p | p in Split(s, sep) :: sep !in p
  {
    if |s| > 0 {
      SplitParts(s[1..], sep);
      var rest := Split(s[1..], sep);
      assert rest[0] in rest && forall p | p in rest[1..] :: p in rest;
    }
  }

  /** t stands in s at offset i. */
  predicate Stands(s: bytes, i: nat, t: bytes) {
    i + |t| <= |s| && s[i..i + |t|] == t
  }

  lemma StandsOctet(s: bytes, i: nat, t: bytes, k: nat)
    requires Stands(s, i, t) && k < |t|
    ensures i + k < |s| && s[i + k] == t[k]
  {
    assert s[i..i + |t|][k] == s[i + k];
  }

  /** What stands somewhere, stands there part by part. */
  lemma StandsParts(s: bytes, i: nat, t: bytes, u: bytes)
    ensures Stands(s, i, t + u) <==> Stands(s, i, t) && Stands(s, i + |t|, u)
    ensures Stands(s, i, t + u) ==> i + |t| + |u| <= |s|
  {
    if i + |t| + |u| <= |s| {
      var whole := s[i..i + |t + u|];
      assert s[i..i + |t|] == whole[..|t|] && s[i + |t|..i + |t| + |u|] == whole[|t|..];
      assert whole[..|t|] + whole[|t|..] == whole;
      assert (t + u)[..|t|] == t && (t + u)[|t|..] == u;
    }
  }
}
