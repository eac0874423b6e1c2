/** parseEDataPAData of pkg/probers/kerberos.go: the scan of a KRB-ERROR's e-data for types. A type
    stands for the name the source lists for it, which is distinct and ends in its number. */
module EData {
  import opened Bytes
  import opened Der
  import opened Wrappers

  predicate IsPreauth(v: byte) {
    v in {2, 11, 16, 19, 136}
  }

  /** krbETypeName has a name for it. */
  predicate IsEtype(v: byte) {
    v in {1, 3, 16, 17, 18, 19, 20, 23, 24, 25, 26}
  }

  /** The octets behind 02 01 where this stands at an offset below n, in order. */
  function Marked(data: bytes, n: nat): (r: bytes)
    requires n == 0 || n + 2 <= |data|
    ensures |r| <= n
  {
    if n == 0 then []
    else Marked(data, n - 1) + if data[n - 1] == 0x02 && data[n] == 0x01 then [data[n + 1]] else []
  }

  function Scanned(data: bytes): bytes {
    Marked(data, if |data| < 3 then 0 else |data| - 2)
  }

  /** The wanted ones, each where it comes first. */
  function Collect(s: bytes, wanted: byte -> bool): (r: bytes)
    ensures |r| <= |s|
  {
    if |s| == 0 then []
    else
      var front, v := Collect(s[..|s| - 1], wanted), s[|s| - 1];
      if wanted(v) && v !in front then front + [v] else front
  }

  function Etypes(data: bytes): bytes {
    Collect(Scanned(data), IsEtype)
  }

  function Preauth(data: bytes): bytes {
    Collect(Scanned(data), IsPreauth)
  }

  method ParseEDataPAData(data: bytes) returns (etypes: bytes, preauth: bytes)
    ensures etypes == Etypes(data) && preauth == Preauth(data)
  {
    hide IsEtype, IsPreauth;
    etypes, preauth := [], [];
    var seenEtypes: set<byte>, seenPreauth: set<byte> := {}, {};
    var i := 0;
    while i <= |data| - 3
      invariant 0 <= i && (i == 0 || i + 2 <= |data|)
      invariant etypes == Collect(Marked(data, i), IsEtype) && preauth == Collect(Marked(data, i), IsPreauth)
      invariant forall v :: v in seenEtypes <==> v in etypes
      invariant forall v :: v in seenPreauth <==> v in preauth
    {
      if data[i] == 0x02 && data[i + 1] == 0x01 {
        var val := data[i + 2];
        ghost var more := Marked(data, i + 1);
        assert more[..|more| - 1] == Marked(data, i);
        if IsPreauth(val) && val !in seenPreauth {
          seenPreauth := seenPreauth + {val};
          preauth := preauth + [val];
        }
        if IsEtype(val) && val !in seenEtypes {
          seenEtypes := seenEtypes + {val};
          etypes := etypes + [val];
        }
      } else {
        assert Marked(data, i) + [] == Marked(data, i);
      }
      i := i + 1;
    }
  }

  lemma {:induction false} CollectMeaning(s: bytes, wanted: byte -> bool)
    ensures forall v :: v in Collect(s, wanted) <==> wanted(v) && v in s
    ensures forall i, j | 0 <= i < j < |Collect(s, wanted)| :: Collect(s, wanted)[i] != Collect(s, wanted)[j]
  {
    if |s| > 0 {
      CollectMeaning(s[..|s| - 1], wanted);
      assert s == s[..|s| - 1] + [s[|s| - 1]];
    }
  }

  /** Entry i came in at its first occurrence, behind just what is listed before it. */
  lemma {:induction false} CollectOrder(s: bytes, wanted: byte -> bool, i: nat) returns (k: nat)
    requires i < |Collect(s, wanted)|
    ensures k < |s| && s[k] == Collect(s, wanted)[i] && s[k] !in s[..k]
    ensures Collect(s[..k], wanted) == Collect(s, wanted)[..i]
  {
    var front, n := s[..|s| - 1], |s| - 1;
    var was := Collect(front, wanted);
    CollectMeaning(front, wanted);
    if i < |was| {
      k := CollectOrder(front, wanted, i);
      assert s[..k] == front[..k] && Collect(s, wanted)[..i] == was[..i];
    } else {
      k := n;
      assert Collect(s, wanted)[..i] == was;
    }
  }

  /** 02 01 v stands at i. */
  ghost predicate Shows(data: bytes, i: nat, v: byte) {
    Stands(data, i, [0x02, 0x01, v])
  }

  lemma {:induction false} MarkedMeaning(data: bytes, n: nat, v: byte)
    requires n == 0 || n + 2 <= |data|
    ensures v in Marked(data, n) <==> exists i: nat :: i < n && Shows(data, i, v)
  {
    if n > 0 {
      MarkedMeaning(data, n - 1, v);
      assert data[n - 1..n + 2] == [data[n - 1], data[n], data[n + 1]];
      assert Shows(data, n - 1, v) <==> data[n - 1] == 0x02 && data[n] == 0x01 && data[n + 1] == v;
    }
  }

  /** A type is reported iff it is known and 02 01 and its octet stand somewhere; once, and in the
      order of first occurrences. */
  lemma ReportedWhen(data: bytes, v: byte)
    ensures v in Etypes(data) <==> IsEtype(v) && exists i: nat :: Shows(data, i, v)
    ensures v in Preauth(data) <==> IsPreauth(v) && exists i: nat :: Shows(data, i, v)
  {
    var n := if |data| < 3 then 0 else |data| - 2;
    MarkedMeaning(data, n, v);
    assert forall i: nat | Shows(data, i, v) :: i < n;
    CollectMeaning(Scanned(data), IsEtype);
    CollectMeaning(Scanned(data), IsPreauth);
    hide IsEtype, IsPreauth, Collect, Marked, Stands;
  }

  // ---------------------------------------------------------------- the INTEGERs of a forest

  /** No element is tagged INTEGER but primitive ones. Octet strings may hold elements of their own. */
  ghost predicate Proper(ts: seq<Tree>)
    decreases ts
  {
    |ts| > 0 ==> ProperTree(ts[0]) && Proper(ts[1..])
  }

  ghost predicate ProperTree(t: Tree)
    decreases t
  {
    t.Node? ==> t.tag != 0x02 && Proper(t.kids)
  }

  /** Where the contents of a constructed element begin. */
  function Inside(t: Tree, at: nat): nat
    requires t.Node?
  {
    at + 1 + |LengthOctets(|EncodeAll(t.kids)|)|
  }

  /** The offsets at which an identifier octet stands, when the forest stands at `at`. */
  function TagOffsets(ts: seq<Tree>, at: nat): set<nat>
    decreases ts
  {
    if |ts| == 0 then {} else TagsOf(ts[0], at) + TagOffsets(ts[1..], at + |Encode(ts[0])|)
  }

  function TagsOf(t: Tree, at: nat): set<nat>
    decreases t
  {
    {at} + if t.Node? then TagOffsets(t.kids, Inside(t, at)) else {}
  }

  /** At an identifier octet only the INTEGER v shows 02 01 v. */
  lemma {:induction false} TaggedIsInteger(data: bytes, ts: seq<Tree>, at: nat, i: nat, v: byte)
    requires Proper(ts) && Stands(data, at, EncodeAll(ts))
    requires i in TagOffsets(ts, at) && Shows(data, i, v)
    ensures Leaf(0x02, [v]) in Leaves(ts)
    decreases ts
  {
    var t := ts[0];
    StandsParts(data, at, Encode(t), EncodeAll(ts[1..]));
    if i in TagsOf(t, at) {
      ElementIsInteger(data, t, at, i, v);
    } else {
      TaggedIsInteger(data, ts[1..], at + |Encode(t)|, i, v);
    }
  }

  lemma {:induction false} ElementIsInteger(data: bytes, t: Tree, at: nat, i: nat, v: byte)
    requires ProperTree(t) && Stands(data, at, Encode(t))
    requires i in TagsOf(t, at) && Shows(data, i, v)
    ensures Leaf(0x02, [v]) in Below(t)
    decreases t
  {
    if t.Node? {
      var content := EncodeAll(t.kids);
      HeaderStands(data, at, t.tag, content);
      if i == at {
        StandsOctet(data, i, [0x02, 0x01, v], 0);
        assert false;
      }
      TaggedIsInteger(data, t.kids, Inside(t, at), i, v);
    } else {
      OctetIsContent(data, at, t.tag, t.content, v);
    }
  }

  lemma HeaderStands(data: bytes, at: nat, tag: byte, content: bytes)
    requires Stands(data, at, Tlv(tag, content))
    ensures at < |data| && data[at] == tag
    ensures Stands(data, at + 1, LengthOctets(|content|))
    ensures Stands(data, at + 1 + |LengthOctets(|content|)|, content)
  {
    var l := LengthOctets(|content|);
    assert Tlv(tag, content) == [tag] + (l + content);
    hide Tlv, LengthOctets, Stands;
    StandsParts(data, at, [tag], l + content);
    StandsParts(data, at + 1, l, content);
    StandsOctet(data, at, [tag], 0);
  }

  lemma LengthIsOne(n: nat)
    ensures |LengthOctets(n)| > 0
    ensures LengthOctets(n)[0] == 1 ==> n == 1 && |LengthOctets(n)| == 1
  {
  }

  lemma OctetIsContent(data: bytes, at: nat, tag: byte, content: bytes, v: byte)
    requires Stands(data, at, Tlv(tag, content)) && Shows(data, at, v)
    ensures tag == 0x02 && content == [v]
  {
    HeaderStands(data, at, tag, content);
    var l := LengthOctets(|content|);
    LengthIsOne(|content|);
    hide Tlv, LengthOctets, Stands;
    StandsOctet(data, at, [0x02, 0x01, v], 0);
    StandsOctet(data, at, [0x02, 0x01, v], 1);
    StandsOctet(data, at, [0x02, 0x01, v], 2);
    StandsOctet(data, at + 1, l, 0);
    StandsOctet(data, at + 2, content, 0);
  }

  lemma {:induction false} IntegerStands(data: bytes, ts: seq<Tree>, at: nat, v: byte) returns (i: nat)
    requires Stands(data, at, EncodeAll(ts)) && Leaf(0x02, [v]) in Leaves(ts)
    ensures Shows(data, i, v)
    decreases ts
  {
    var t, rest := ts[0], ts[1..];
    assert Leaf(0x02, [v]) in Below(t) || Leaf(0x02, [v]) in Leaves(rest);
    StandsParts(data, at, Encode(t), EncodeAll(rest));
    if Leaf(0x02, [v]) in Below(t) {
      i := ElementStands(data, t, at, v);
    } else {
      i := IntegerStands(data, rest, at + |Encode(t)|, v);
    }
  }

  lemma {:induction false} ElementStands(data: bytes, t: Tree, at: nat, v: byte) returns (i: nat)
    requires Stands(data, at, Encode(t)) && Leaf(0x02, [v]) in Below(t)
    ensures Shows(data, i, v)
    decreases t
  {
    match t
    case Leaf(tag, content) =>
      assert Below(t) == [t];
      assert Tlv(0x02, [v]) == [0x02, 0x01, v];
      i := at;
    case Node(tag, kids) =>
      hide Stands, Tlv, LengthOctets;
      HeaderStands(data, at, tag, EncodeAll(kids));
      i := IntegerStands(data, kids, Inside(t, at), v);
  }

  /** 02 01 v stands in the encoding where no element begins. */
  ghost predicate Stray(ts: seq<Tree>, v: byte) {
    exists i: nat :: i !in TagOffsets(ts, 0) && Shows(EncodeAll(ts), i, v)
  }

  /** v, as an INTEGER of one octet, is among the values of the forest. */
  ghost predicate HasInteger(ts: seq<Tree>, v: byte) {
    Leaf(0x02, [v]) in Leaves(ts)
  }

  lemma StandsSomewhere(ts: seq<Tree>, data: bytes, v: byte)
    requires Proper(ts) && data == EncodeAll(ts)
    ensures (exists i: nat :: Shows(data, i, v)) <==> HasInteger(ts, v) || Stray(ts, v)
  {
    assert Stands(data, 0, data);
    hide Stands;
    if i: nat :| Shows(data, i, v) {
      if i in TagOffsets(ts, 0) {
        TaggedIsInteger(data, ts, 0, i, v);
      } else {
        assert Stray(ts, v);
      }
    }
    if HasInteger(ts, v) {
      var i := IntegerStands(data, ts, 0, v);
      assert Shows(data, i, v);
    } else if Stray(ts, v) {
      var i: nat :| i !in TagOffsets(ts, 0) && Shows(EncodeAll(ts), i, v);
      assert Shows(data, i, v);
    }
  }

  /** On the encoding of any elements: a known type is reported iff an INTEGER of that one octet is
      among them, or 02 01 and the octet stand where none of them begins. */
  lemma ReportedOfForest(ts: seq<Tree>, v: byte)
    requires Proper(ts)
    ensures v in Etypes(EncodeAll(ts)) <==> IsEtype(v) && (HasInteger(ts, v) || Stray(ts, v))
    ensures v in Preauth(EncodeAll(ts)) <==> IsPreauth(v) && (HasInteger(ts, v) || Stray(ts, v))
  {
    ReportedWhen(EncodeAll(ts), v);
    StandsSomewhere(ts, EncodeAll(ts), v);
    hide IsEtype, IsPreauth, Etypes, Preauth, EncodeAll, Stray, HasInteger;
  }

  /** So the report is of the INTEGERs that are there, and no others, exactly if every stray 02 01 v
      of a known type happens to name one of them. */
  lemma ReportIsRightWhen(ts: seq<Tree>)
    requires Proper(ts)
    ensures (forall v: byte :: v in Etypes(EncodeAll(ts)) <==> IsEtype(v) && HasInteger(ts, v))
            <==> forall v: byte | IsEtype(v) && Stray(ts, v) :: HasInteger(ts, v)
    ensures (forall v: byte :: v in Preauth(EncodeAll(ts)) <==> IsPreauth(v) && HasInteger(ts, v))
            <==> forall v: byte | IsPreauth(v) && Stray(ts, v) :: HasInteger(ts, v)
  {
    forall v: byte
      ensures v in Etypes(EncodeAll(ts)) <==> IsEtype(v) && (HasInteger(ts, v) || Stray(ts, v))
      ensures v in Preauth(EncodeAll(ts)) <==> IsPreauth(v) && (HasInteger(ts, v) || Stray(ts, v))
    {
      ReportedOfForest(ts, v);
    }
    hide IsEtype, IsPreauth, Etypes, Preauth, EncodeAll, Stray, HasInteger;
  }

  /** Any encoding as DER has it is of this kind. */
  lemma {:induction false} WellTaggedIsProper(ts: seq<Tree>)
    requires forall i | 0 <= i < |ts| :: WellTagged(ts[i])
    ensures Proper(ts)
    decreases ts
  {
    if |ts| > 0 {
      if ts[0].Node? {
        WellTaggedIsProper(ts[0].kids);
      }
      WellTaggedIsProper(ts[1..]);
    }
  }

  /** Stray octets do occur: any SEQUENCE of 513 octets reports the tag of its first element. */
  lemma LengthMistaken(ts: seq<Tree>)
    requires |ts| > 0 && |EncodeAll(ts)| == 513
    ensures var data, v := EncodeAll([Node(0x30, ts)]), ts[0].tag;
            && (IsEtype(v) ==> v in Etypes(data))
            && (IsPreauth(v) ==> v in Preauth(data))
  {
    var content, v := EncodeAll(ts), ts[0].tag;
    assert content[0] == v;
    BigEndianSize(513);
    var t := Node(0x30, ts);
    var data := EncodeAll([t]);
    assert data == [0x30, 0x82, 0x02, 0x01] + content by {
      assert EncodeAll(([t])[1..]) == [];
      assert data == Encode(t) + [];
    }
    assert data[2..5] == [0x02, 0x01, v];
    assert Shows(data, 2, v);
    ReportedWhen(data, v);
  }

  /** For instance one that holds a BIT STRING: type 3 is reported, and there is no INTEGER. */
  lemma BitStringMistaken()
    ensures var ts := [Node(0x30, [Leaf(0x03, seq(509, _ => 0))])];
            3 in Etypes(EncodeAll(ts)) && !HasInteger(ts, 3) && forall i | 0 <= i < |ts| :: WellTagged(ts[i])
  {
    var t := Leaf(0x03, seq(509, _ => 0));
    assert [t] == [t] + [];
    BigEndianSize(509);
    assert EncodeAll([t]) == Encode(t) + [];
    LengthMistaken([t]);
    FieldLeaves(0x30, t);
    LeavesCons(Node(0x30, [t]), []);
    assert [Node(0x30, [t])] == [Node(0x30, [t])] + [];
  }

  // ---------------------------------------------------------------- one INTEGER

  /** The octet that the scan takes from the lone DER INTEGER v, if any. */
  function TakenFrom(v: nat): Option<byte> {
    if v < 128 then Some(v)
    else if v / 256 == 1 then Some(v % 256)
    else if v / 256 % 65536 == 0x0201 then Some(v % 256)
    else if v / 65536 == 0x0201 then Some(v / 256 % 256)
    else None
  }

  lemma ShortContent(v: nat)
    requires v < 0x8000_0000
    ensures var c := IntegerContent(v);
            && 1 <= |c| <= 4
            && c == (if v < 0x80 then [v]
                     else if v < 0x8000 then [v / 256, v % 256]
                     else if v < 0x80_0000 then [v / 65536, v / 256 % 256, v % 256]
                     else [v / 0x100_0000, v / 65536 % 256, v / 256 % 256, v % 256])
  {
    var a := v / 256;
    var b := a / 256;
    var c := b / 256;
    assert b == v / 65536 && c == v / 0x100_0000;
    assert BigEndian(0) == [];
    assert v > 0 ==> BigEndian(v) == BigEndian(a) + [v % 256];
    assert a > 0 ==> BigEndian(a) == BigEndian(b) + [a % 256];
    assert b > 0 ==> BigEndian(b) == BigEndian(c) + [b % 256];
    assert c > 0 ==> BigEndian(c) == BigEndian(0) + [c];
  }

  /** The same of its content octets. */
  function TakenFromOctets(c: bytes): bytes {
    if |c| == 1 then [c[0]]
    else if |c| == 2 then (if c[0] == 0x01 then [c[1]] else [])
    else if |c| == 3 then (if c[0] == 0x02 && c[1] == 0x01 then [c[2]] else [])
    else if |c| == 4 then
      (if c[0] == 0x02 && c[1] == 0x01 then [c[2]] else if c[1] == 0x02 && c[2] == 0x01 then [c[3]] else [])
    else []
  }

  lemma OctetsScan(c: bytes)
    requires 1 <= |c| <= 4
    ensures Scanned([0x02, |c|] + c) == TakenFromOctets(c)
  {
    var data := [0x02, |c|] + c;
    assert forall i | 0 <= i < |c| :: data[i + 2] == c[i];
    assert Marked(data, 0) == [];
    assert Marked(data, 1) == if |c| == 1 then [data[2]] else [];
    if |c| >= 2 {
      assert Marked(data, 2) == Marked(data, 1) + if |c| == 2 && data[2] == 0x01 then [data[3]] else [];
    }
    if |c| >= 3 {
      assert Marked(data, 3) == Marked(data, 2) + if data[2] == 0x02 && data[3] == 0x01 then [data[4]] else [];
    }
    if |c| >= 4 {
      assert Marked(data, 4) == Marked(data, 3) + if data[3] == 0x02 && data[4] == 0x01 then [data[5]] else [];
    }
    hide Marked;
  }

  lemma TakenFromEither(v: nat)
    requires v < 0x8000_0000
    ensures TakenFromOctets(IntegerContent(v)) == if TakenFrom(v).Some? then [TakenFrom(v).value] else []
  {
    ShortContent(v);
    hide IntegerContent;
    var a, z := v / 256, v % 256;
    var b, y := a / 256, a % 256;
    var c, x := b / 256, b % 256;
    assert v / 65536 == b && v / 0x100_0000 == c;
    assert a % 65536 == x * 256 + y;
  }

  /** The scan of a lone INTEGER takes its value below 128, the last octet from 256 to 511, and
      otherwise only what follows 02 01 among its own octets. */
  lemma LoneInteger(v: nat)
    requires v < 0x8000_0000
    ensures Scanned(Tlv(0x02, IntegerContent(v))) == if TakenFrom(v).Some? then [TakenFrom(v).value] else []
  {
    ShortContent(v);
    var c := IntegerContent(v);
    hide IntegerContent, Scanned, TakenFrom, TakenFromOctets;
    TakenFromEither(v);
    OctetsScan(c);
    assert Tlv(0x02, c) == [0x02, |c|] + c;
  }

  /** Hence, for one INTEGER on its own: an encryption type is reported as itself always, a
      pre-authentication type unless it is 136; and what is reported of any other number is another
      type, as of 274 the type 18. */
  lemma LoneIntegerReported(v: nat)
    requires v < 0x8000_0000
    ensures var data, w := Tlv(0x02, IntegerContent(v)), TakenFrom(v);
            && Etypes(data) == (if w.Some? && IsEtype(w.value) then [w.value] else [])
            && Preauth(data) == (if w.Some? && IsPreauth(w.value) then [w.value] else [])
    ensures var data := Tlv(0x02, IntegerContent(v));
            && (v < 256 ==> (Etypes(data) == [v] <==> IsEtype(v)))
            && (v < 256 ==> (Preauth(data) == [v] <==> IsPreauth(v) && v != 136))
            && (128 <= v < 256 ==> Etypes(data) == Preauth(data) == [])
  {
    hide Scanned, Tlv, IntegerContent, Collect;
    LoneInteger(v);
    var w := TakenFrom(v);
    CollectOne(IsEtype, if w.Some? then w.value else 0);
    CollectOne(IsPreauth, if w.Some? then w.value else 0);
  }

  lemma CollectOne(wanted: byte -> bool, v: byte)
    ensures Collect([], wanted) == []
    ensures Collect([v], wanted) == if wanted(v) then [v] else []
  {
    assert ([v])[..0] == [];
  }

  /** PA-FX-FAST is 136, whose INTEGER is 02 02 00 88; 274 is 02 02 01 12. */
  lemma OtherReports()
    ensures Preauth(Tlv(0x02, IntegerContent(136))) == []
    ensures Etypes(Tlv(0x02, IntegerContent(274))) == [18]
  {
    LoneIntegerReported(136);
    LoneIntegerReported(274);
    hide Tlv, IntegerContent;
  }

  // ---------------------------------------------------------------- a list of types

  /** INTEGERs one after the other, as the builder writes its encryption types. */
  function IntegerList(vs: seq<nat>): seq<Tree> {
    seq(|vs|, i requires 0 <= i < |vs| => Leaf(0x02, IntegerContent(vs[i])))
  }

  function Triples(vs: bytes): (r: bytes)
    ensures |r| == 3 * |vs|
  {
    if |vs| == 0 then [] else Triples(vs[..|vs| - 1]) + [0x02, 0x01, vs[|vs| - 1]]
  }

  lemma {:induction false} MarkedPrefix(data: bytes, more: bytes, n: nat)
    requires n == 0 || n + 2 <= |data|
    ensures Marked(data + more, n) == Marked(data, n)
  {
    if n > 0 {
      MarkedPrefix(data, more, n - 1);
    }
  }

  lemma OneMoreTriple(data: bytes, v: byte)
    requires data == [] || (|data| > 2 && data[|data| - 2] == 0x01)
    ensures Scanned(data + [0x02, 0x01, v]) == Scanned(data) + [v]
  {
    var n, more := |data|, data + [0x02, 0x01, v];
    assert more[n] == 0x02 && more[n + 1] == 0x01 && more[n + 2] == v;
    assert Marked(more, n + 1) == Marked(more, n) + [v];
    if n > 0 {
      assert more[n - 2] == 0x01;
      MarkedPrefix(data, [0x02, 0x01, v], n - 2);
      assert Marked(more, n - 1) == Marked(more, n - 2) + [];
      assert Marked(more, n) == Marked(more, n - 1) + [];
      hide Marked;
      assert Marked(more, n) == Marked(data, n - 2);
    }
  }

  /** No tag and no length is taken for part of another triple. */
  lemma {:induction false} TriplesScan(vs: bytes)
    ensures Scanned(Triples(vs)) == vs
  {
    hide Scanned;
    if |vs| > 0 {
      var front, v := vs[..|vs| - 1], vs[|vs| - 1];
      TriplesScan(front);
      OneMoreTriple(Triples(front), v);
      assert vs == front + [v];
    } else {
      NothingScanned();
    }
  }

  lemma NothingScanned()
    ensures Scanned([]) == []
  {
  }

  lemma {:induction false} ListIsTriples(vs: bytes)
    requires forall v | v in vs :: v < 128
    ensures EncodeAll(IntegerList(vs)) == Triples(vs)
  {
    if |vs| > 0 {
      var front, v := vs[..|vs| - 1], vs[|vs| - 1];
      hide IntegerContent, Tlv;
      assert forall u | u in front :: u in vs;
      assert v in vs;
      ListIsTriples(front);
      ListSnoc(front, v);
      assert vs == front + [v];
      hide IntegerList;
      EncodeAllSnoc(IntegerList(front), Leaf(0x02, IntegerContent(v)));
      TripleIs(v);
    }
  }

  lemma ListSnoc(vs: bytes, v: byte)
    ensures IntegerList(vs + [v]) == IntegerList(vs) + [Leaf(0x02, IntegerContent(v))]
  {
  }

  lemma TripleIs(v: byte)
    requires v < 128
    ensures Encode(Leaf(0x02, IntegerContent(v))) == [0x02, 0x01, v]
  {
    ShortContent(v);
    hide IntegerContent;
    assert Tlv(0x02, [v]) == [0x02, 0x01, v];
  }

  lemma {:induction false} EncodeAllSnoc(ts: seq<Tree>, t: Tree)
    ensures EncodeAll(ts + [t]) == EncodeAll(ts) + Encode(t)
  {
    if |ts| == 0 {
      assert EncodeAll(([t])[1..]) == [];
      assert ts + [t] == [t];
      assert EncodeAll([t]) == Encode(t) + [];
    } else {
      assert (ts + [t])[1..] == ts[1..] + [t];
      EncodeAllSnoc(ts[1..], t);
    }
  }

  /** The types that are known, and reported of an INTEGER of their number: eleven encryption types,
      and all five pre-authentication types but 136. */
  lemma KnownTypes(v: byte)
    ensures Etypes(Tlv(0x02, IntegerContent(v)))
            == if v in {1, 3, 16, 17, 18, 19, 20, 23, 24, 25, 26} then [v] else []
    ensures Preauth(Tlv(0x02, IntegerContent(v))) == if v in {2, 11, 16, 19} then [v] else []
    ensures IsPreauth(136)
  {
    LoneIntegerReported(v);
    hide Tlv, IntegerContent, Etypes, Preauth;
  }

  /** Of a list of INTEGERs below 128, in DER, the known ones are reported, each where it comes first. */
  lemma IntegersReported(vs: bytes)
    requires forall v | v in vs :: v < 128
    ensures var data := EncodeAll(IntegerList(vs));
            Etypes(data) == Collect(vs, IsEtype) && Preauth(data) == Collect(vs, IsPreauth)
  {
    ListIsTriples(vs);
    TriplesScan(vs);
    hide Collect, Scanned, Triples, IntegerList, EncodeAll;
  }
}
