/** The DER layer of pkg/probers/kerberos.go: wrapASN1 and readASN1Length against the length
    octets of section 8.1.3 of X.690. */
module Der {
  import opened Bytes
  import opened Wrappers

  // ---------------------------------------------------------------- the standard

  /** The minimal big-endian octets of n. */
  function BigEndian(n: nat): bytes {
    if n == 0 then [] else BigEndian(n / 256) + [n % 256]
  }

  function FromBigEndian(s: bytes): nat {
    if |s| == 0 then 0 else FromBigEndian(s[..|s| - 1]) * 256 + s[|s| - 1]
  }

  /** Section 8.1.3.4 (short form) and 8.1.3.5 (long form, which no length of 2^1008 or more has). */
  function LengthOctets(n: nat): bytes {
    if n < 128 then [n]
    else [if |BigEndian(n)| < 127 then 128 + |BigEndian(n)| else 255] + BigEndian(n)
  }

  function Tlv(tag: byte, content: bytes): bytes {
    [tag] + LengthOctets(|content|) + content
  }

  /** A DER value: primitive content, or nested values. */
  datatype Tree = Leaf(tag: byte, content: bytes) | Node(tag: byte, kids: seq<Tree>)

  predicate Constructed(tag: byte) {
    tag / 32 % 2 == 1
  }

  ghost predicate WellTagged(t: Tree) {
    match t
    case Leaf(tag, _) => !Constructed(tag)
    case Node(tag, kids) => Constructed(tag) && forall i | 0 <= i < |kids| :: WellTagged(kids[i])
  }

  function Encode(t: Tree): bytes
    decreases t, 0
  {
    match t
    case Leaf(tag, content) => Tlv(tag, content)
    case Node(tag, kids) => Tlv(tag, EncodeAll(kids))
  }

  function EncodeAll(ts: seq<Tree>): bytes
    decreases ts, 1
  {
    if |ts| == 0 then [] else Encode(ts[0]) + EncodeAll(ts[1..])
  }

  lemma {:induction false} BigEndianValue(n: nat)
    ensures FromBigEndian(BigEndian(n)) == n
  {
    if n > 0 {
      BigEndianValue(n / 256);
      var s := BigEndian(n);
      assert s[..|s| - 1] == BigEndian(n / 256);
    }
  }

  lemma BigEndianSize(n: nat)
    ensures n == 0 ==> BigEndian(n) == []
    ensures 0 < n < 256 ==> BigEndian(n) == [n]
    ensures 256 <= n < 65536 ==> BigEndian(n) == [n / 256, n % 256]
    ensures 65536 <= n ==> |BigEndian(n)| >= 3
    ensures n < 0x1_0000_0000 ==> |BigEndian(n)| <= 4
  {
    var a := n / 256;
    var b := a / 256;
    var c := b / 256;
    assert BigEndian(0) == [];
    assert n > 0 ==> BigEndian(n) == BigEndian(a) + [n % 256];
    assert a > 0 ==> BigEndian(a) == BigEndian(b) + [a % 256];
    assert b > 0 ==> BigEndian(b) == BigEndian(c) + [b % 256];
    assert c > 0 ==> BigEndian(c) == BigEndian(c / 256) + [c % 256];
  }

  // ---------------------------------------------------------------- wrapASN1

  function Wrap(tag: byte, content: bytes): bytes {
    var l := |content|;
    [tag]
    + (if l < 128 then [l] else if l < 256 then [0x81, l] else [0x82, l / 256 % 256, l % 256])
    + content
  }

  method WrapASN1(tag: byte, content: bytes) returns (buf: bytes)
    ensures buf == Wrap(tag, content)
    ensures |content| < 65536 ==> buf == Tlv(tag, content)
  {
    buf := [tag];
    var l := |content|;
    if l < 128 {
      buf := buf + [l];
    } else if l < 256 {
      buf := buf + [0x81, l];
    } else {
      buf := buf + [0x82, l / 256 % 256, l % 256];
    }
    buf := buf + content;
    WrapIsDer(tag, content);
  }

  /** wrapASN1 writes DER exactly up to 65535 octets of content. */
  lemma {:induction false} WrapIsDer(tag: byte, content: bytes)
    ensures Wrap(tag, content) == Tlv(tag, content) <==> |content| < 65536
    ensures |content| >= 65536 ==> |Wrap(tag, content)| < |Tlv(tag, content)|
  {
    BigEndianSize(|content|);
    hide BigEndian;
  }

  // ---------------------------------------------------------------- readASN1Length

  /** readASN1Length: the length and the offset behind it; (0, _) also when it cannot be read. */
  function ReadLength(data: bytes, offset: nat): (r: (nat, nat))
    ensures offset <= r.1
    ensures offset < |data| ==> offset < r.1 <= |data|
  {
    if offset >= |data| then (0, offset)
    else if data[offset] < 128 then (data[offset], offset + 1)
    else
      var numBytes := data[offset] - 128;
      if offset + 1 + numBytes > |data| || numBytes > 4 then (0, offset + 1)
      else (FromBigEndian(data[offset + 1..offset + 1 + numBytes]), offset + 1 + numBytes)
  }

  method ReadASN1Length(data: bytes, start: nat) returns (length: nat, offset: nat)
    ensures (length, offset) == ReadLength(data, start)
  {
    offset := start;
    if offset >= |data| {
      return 0, offset;
    }
    var b := data[offset];
    offset := offset + 1;
    if b < 128 {
      return b, offset;
    }
    var numBytes := b - 128;
    if offset + numBytes > |data| || numBytes > 4 {
      return 0, offset;
    }
    length := 0;
    for i := 0 to numBytes
      invariant offset == start + 1 + i
      invariant length == FromBigEndian(data[start + 1..offset])
    {
      var s := data[start + 1..offset + 1];
      assert s[..|s| - 1] == data[start + 1..offset];
      length := length * 256 + data[offset];
      offset := offset + 1;
    }
  }

  /** The reader inverts the standard's length octets, wherever they stand, below 2^32. */
  lemma {:induction false} ReadLengthOctets(data: bytes, offset: nat, n: nat)
    requires n < 0x1_0000_0000 && Stands(data, offset, LengthOctets(n))
    ensures ReadLength(data, offset) == (n, offset + |LengthOctets(n)|)
  {
    BigEndianSize(n);
    BigEndianValue(n);
    hide BigEndian, FromBigEndian;
    var s := LengthOctets(n);
    StandsOctet(data, offset, s, 0);
    if n >= 128 {
      StandsParts(data, offset, [s[0]], BigEndian(n));
    }
  }

  /** What the reader makes of any octets: the short form; up to four octets behind their number, be
      they minimal or not; and 0 when there is nothing, more are announced, or not enough are there. */
  lemma {:induction false} LengthReads(data: bytes, offset: nat, s: bytes)
    ensures offset >= |data| ==> ReadLength(data, offset) == (0, offset)
    ensures offset < |data| && data[offset] < 0x80 ==> ReadLength(data, offset) == (data[offset], offset + 1)
    ensures |s| <= 4 && Stands(data, offset, [0x80 + |s|] + s) ==>
              ReadLength(data, offset) == (FromBigEndian(s), offset + 1 + |s|)
    ensures offset < |data| && data[offset] > 0x84 ==> ReadLength(data, offset) == (0, offset + 1)
    ensures offset < |data| && data[offset] >= 0x80 && offset + 1 + (data[offset] - 0x80) > |data| ==>
              ReadLength(data, offset) == (0, offset + 1)
  {
    if |s| <= 4 && Stands(data, offset, [0x80 + |s|] + s) {
      StandsParts(data, offset, [0x80 + |s|], s);
      StandsOctet(data, offset, [0x80 + |s|], 0);
      hide FromBigEndian;
    }
  }

  /** A value where it stands: the reader finds its content. */
  lemma {:induction false} ReadTlv(data: bytes, offset: nat, tag: byte, content: bytes)
    requires |content| < 0x1_0000_0000 && Stands(data, offset, Tlv(tag, content))
    ensures data[offset] == tag
    ensures var (n, o) := ReadLength(data, offset + 1);
            && n == |content|
            && o + n == offset + |Tlv(tag, content)| <= |data|
            && Stands(data, o, content)
  {
    hide LengthOctets, Stands, ReadLength;
    var s := LengthOctets(|content|);
    assert Tlv(tag, content) == [tag] + (s + content);
    StandsOctet(data, offset, Tlv(tag, content), 0);
    StandsParts(data, offset, [tag], s + content);
    StandsParts(data, offset + 1, s, content);
    ReadLengthOctets(data, offset + 1, |content|);
  }

  // ---------------------------------------------------------------- nested values

  /** Reads nested values with readASN1Length alone; None unless lengths tile their parents exactly. */
  function DecodeAll(data: bytes): Option<seq<Tree>>
    decreases |data|
  {
    if |data| == 0 then Some([])
    else
      var (n, o) := ReadLength(data, 1);
      if o == 1 || o + n > |data| then None
      else
        match DecodeAll(data[o + n..])
        case None => None
        case Some(rest) =>
          if !Constructed(data[0]) then Some([Leaf(data[0], data[o..o + n])] + rest)
          else
            match DecodeAll(data[o..o + n])
            case None => None
            case Some(kids) => Some([Node(data[0], kids)] + rest)
  }

  /** Every length of an encoded forest tiles its parent, and the reader gets the forest back. */
  lemma {:induction false} DecodesForest(ts: seq<Tree>)
    requires forall i | 0 <= i < |ts| :: WellTagged(ts[i])
    requires |EncodeAll(ts)| < 0x1_0000_0000
    ensures DecodeAll(EncodeAll(ts)) == Some(ts)
    decreases ts
  {
    if |ts| > 0 {
      var t, rest := ts[0], ts[1..];
      var content := if t.Leaf? then t.content else EncodeAll(t.kids);
      var data := EncodeAll(ts);
      assert Encode(t) == Tlv(t.tag, content);
      assert data == Tlv(t.tag, content) + EncodeAll(rest);
      assert data[|Tlv(t.tag, content)|..] == EncodeAll(rest);
      assert Stands(data, 0, Tlv(t.tag, content));
      hide Encode, Tlv, ReadLength;
      ReadTlv(data, 0, t.tag, content);
      DecodesForest(rest);
      assert [t] + rest == ts;
      if t.Node? {
        DecodesForest(t.kids);
      }
    }
  }

  // ---------------------------------------------------------------- INTEGERs

  /** The minimal DER content of a non-negative INTEGER. */
  function IntegerContent(v: nat): bytes {
    if v == 0 then [0]
    else if |BigEndian(v)| > 0 && BigEndian(v)[0] >= 0x80 then [0] + BigEndian(v)
    else BigEndian(v)
  }

  lemma {:induction false} LeadingZero(s: bytes)
    ensures FromBigEndian([0] + s) == FromBigEndian(s)
  {
    if |s| == 0 {
      assert [0] + s == [0];
      assert FromBigEndian([0][..0]) == 0;
    } else {
      LeadingZero(s[..|s| - 1]);
      assert ([0] + s)[..|s|] == [0] + s[..|s| - 1];
    }
  }

  lemma {:induction false} IntegerContentValue(v: nat)
    requires v < 0x8000_0000
    ensures 1 <= |IntegerContent(v)| <= 4
    ensures FromBigEndian(IntegerContent(v)) == v
  {
    BigEndianSize(v);
    BigEndianValue(v);
    LeadingZero(BigEndian(v));
    if v > 0 {
      TopOctet(v);
    }
    assert FromBigEndian([0]) == 0 by { assert ([0])[..0] == []; }
  }

  lemma TopOctet(v: nat)
    requires 0 < v < 0x8000_0000
    ensures |BigEndian(v)| > 0
    ensures |BigEndian(v)| == 4 ==> BigEndian(v)[0] < 0x80
  {
    var a := v / 256;
    var b := a / 256;
    var c := b / 256;
    assert c < 0x80;
    assert BigEndian(v) == BigEndian(a) + [v % 256];
    assert a > 0 ==> BigEndian(a) == BigEndian(b) + [a % 256];
    assert b > 0 ==> BigEndian(b) == BigEndian(c) + [b % 256];
    assert c > 0 ==> BigEndian(c) == BigEndian(0) + [c];
    assert BigEndian(0) == [];
  }

  function Power256(n: nat): nat {
    if n == 0 then 1 else 256 * Power256(n - 1)
  }

  /** What the content octets of an INTEGER mean, in two's complement (section 8.3.3 of X.690). */
  function IntegerValue(c: bytes): int
    requires |c| > 0
  {
    if c[0] >= 0x80 then FromBigEndian(c) - Power256(|c|) else FromBigEndian(c)
  }

  /** The first nine bits are neither all ones nor all zero (section 8.3.2). */
  predicate Minimal(c: bytes) {
    && |c| > 0
    && (|c| > 1 ==> !(c[0] == 0 && c[1] < 0x80) && !(c[0] == 0xff && c[1] >= 0x80))
  }

  lemma {:induction false} BigEndianTop(n: nat)
    requires n > 0
    ensures |BigEndian(n)| > 0 && BigEndian(n)[0] > 0
  {
    if n / 256 > 0 {
      BigEndianTop(n / 256);
    } else {
      assert BigEndian(0) == [];
    }
  }

  /** IntegerContent is how DER writes v. */
  lemma {:induction false} IntegerContentMeans(v: nat)
    ensures Minimal(IntegerContent(v)) && IntegerValue(IntegerContent(v)) == v
  {
    if v == 0 {
      assert ([0])[..0] == [];
      assert FromBigEndian([]) == 0 && FromBigEndian([0]) == 0;
    } else {
      BigEndianTop(v);
      BigEndianValue(v);
      LeadingZero(BigEndian(v));
      hide BigEndian, FromBigEndian;
    }
  }

  lemma {:induction false} BelowPower(c: bytes)
    ensures FromBigEndian(c) < Power256(|c|)
  {
    if |c| > 0 {
      BelowPower(c[..|c| - 1]);
    }
  }

  lemma {:induction false} PrefixIsLess(c: bytes, n: nat)
    requires n <= |c|
    ensures FromBigEndian(c[..n]) <= FromBigEndian(c)
    decreases |c|
  {
    if n < |c| {
      PrefixIsLess(c[..|c| - 1], n);
      assert c[..|c| - 1][..n] == c[..n];
    } else {
      assert c[..n] == c;
    }
  }

  lemma ShortValue(c: bytes)
    requires 1 <= |c| <= 4 && c[0] < 0x80
    ensures FromBigEndian(c) < 0x8000_0000
  {
    assert c[..0] == [] && FromBigEndian(c[..0]) == 0;
    assert FromBigEndian(c[..1]) == c[0] by { assert c[..1][..0] == c[..0]; }
    if |c| > 1 {
      ValueStep(c, 1);
    }
    if |c| > 2 {
      ValueStep(c, 2);
    }
    if |c| > 3 {
      ValueStep(c, 3);
    }
    assert c[..|c|] == c;
    hide FromBigEndian;
  }

  lemma ValueStep(c: bytes, n: nat)
    requires n < |c|
    ensures FromBigEndian(c[..n + 1]) == FromBigEndian(c[..n]) * 256 + c[n]
  {
    assert c[..n + 1][..n] == c[..n];
  }

  lemma LongValue(c: bytes)
    requires Minimal(c) && |c| > 4 && c[0] < 0x80
    ensures FromBigEndian(c) >= 0x8000_0000
  {
    PrefixIsLess(c, 5);
    assert c[..0] == [] && FromBigEndian(c[..0]) == 0;
    ValueStep(c, 0);
    ValueStep(c, 1);
    ValueStep(c, 2);
    ValueStep(c, 3);
    ValueStep(c, 4);
    hide FromBigEndian;
  }

  // ---------------------------------------------------------------- the values of a forest

  /** The primitive values of a forest, in order. */
  function Leaves(ts: seq<Tree>): seq<Tree>
    decreases ts
  {
    if |ts| == 0 then [] else Below(ts[0]) + Leaves(ts[1..])
  }

  function Below(t: Tree): seq<Tree>
    decreases t
  {
    match t
    case Leaf(_, _) => [t]
    case Node(_, kids) => Leaves(kids)
  }

  lemma LeavesCons(t: Tree, ts: seq<Tree>)
    ensures Leaves([t] + ts) == Below(t) + Leaves(ts)
  {
    assert ([t] + ts)[1..] == ts;
  }

  lemma FieldLeaves(tag: byte, t: Tree)
    ensures Below(Node(tag, [t])) == Below(t)
  {
    assert [t] == [t] + [];
    LeavesCons(t, []);
  }

  lemma {:induction false} LeavesOfLeaves(ts: seq<Tree>)
    requires forall i | 0 <= i < |ts| :: ts[i].Leaf?
    ensures Leaves(ts) == ts
    decreases |ts|
  {
    if |ts| > 0 {
      LeavesOfLeaves(ts[1..]);
      assert ts == [ts[0]] + ts[1..];
    }
  }
}
