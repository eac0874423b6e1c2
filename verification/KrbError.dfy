/** The KRB-ERROR decoder of pkg/probers/kerberos.go (section 5.9.1 of RFC 4120). */
module KrbError {
  import opened Bytes
  import opened Wrappers
  import opened Der
  import EData
  import Kerberos

  // ---------------------------------------------------------------- field values

  /** Where a reader starts: behind the header of a context or application tag, if there is one. */
  function Inner(data: bytes): nat {
    if |data| > 0 && data[0] >= 0x40 then ReadLength(data, 1).1 else 0
  }

  /** parseASN1Integer (no sign is read: see IntegerReadsWhen) */
  function ParseInteger(data: bytes): Option<nat> {
    var o := Inner(data);
    if o >= |data| || data[o] != 0x02 then None
    else
      var (length, p) := ReadLength(data, o + 1);
      if p + length > |data| || length == 0 || length > 4 then None
      else Some(FromBigEndian(data[p..p + length]))
  }

  method SkipOuterHeader(data: bytes) returns (offset: nat)
    ensures offset == Inner(data)
  {
    offset := 0;
    if offset < |data| && data[offset] >= 0x40 {
      offset := offset + 1;
      var _, next := ReadASN1Length(data, offset);
      offset := next;
    }
  }

  method ParseASN1Integer(data: bytes) returns (val: nat, ok: bool)
    ensures ok <==> ParseInteger(data).Some?
    ensures ok ==> ParseInteger(data) == Some(val)
  {
    hide ReadLength, Inner;
    val := 0;
    var offset := SkipOuterHeader(data);
    if offset >= |data| || data[offset] != 0x02 {
      return 0, false;
    }
    offset := offset + 1;
    var length, p := ReadASN1Length(data, offset);
    if p + length > |data| || length == 0 || length > 4 {
      return 0, false;
    }
    assert ParseInteger(data) == Some(FromBigEndian(data[p..p + length]));
    val := ReadOctets(data, p, length);
    ok := true;
  }

  method ReadOctets(data: bytes, offset: nat, length: nat) returns (val: nat)
    requires offset + length <= |data|
    ensures val == FromBigEndian(data[offset..offset + length])
  {
    val := 0;
    for i := 0 to length
      invariant val == FromBigEndian(data[offset..offset + i])
    {
      var s := data[offset..offset + i + 1];
      assert s[..|s| - 1] == data[offset..offset + i];
      val := val * 256 + data[offset + i];
    }
  }

  predicate StringTag(tag: byte) {
    tag == 0x1b || tag == 0x0c || tag == 0x13 || tag == 0x16 || tag == 0x04
  }

  /** parseASN1String */
  function ParseString(data: bytes): bytes {
    var o := Inner(data);
    if o >= |data| || !StringTag(data[o]) then []
    else
      var (length, p) := ReadLength(data, o + 1);
      if p + length > |data| then [] else data[p..p + length]
  }

  /** parseASN1GeneralizedTime up to time.Parse: the text handed to it. */
  function ParseTimeText(data: bytes): Option<bytes> {
    var o := Inner(data);
    if o >= |data| || data[o] != 0x18 then None
    else
      var (length, p) := ReadLength(data, o + 1);
      if p + length > |data| then None else Some(data[p..p + length])
  }

  /** A value's own header ends where Inner and one more octet say. */
  lemma {:induction false} PlainValue(tag: byte, content: bytes)
    requires tag < 0x40 && |content| < 0x1_0000_0000
    ensures var data := Tlv(tag, content);
            && Inner(data) == 0 && |data| > 0 && data[0] == tag
            && var (length, p) := ReadLength(data, 1);
               length == |content| && p + length == |data| && data[p..p + length] == content
  {
    var data := Tlv(tag, content);
    assert Stands(data, 0, data);
    ReadTlv(data, 0, tag, content);
  }

  /** The readers return what DER values of their types hold. */
  lemma {:induction false} IntegerReads(v: nat)
    requires v < 0x8000_0000
    ensures ParseInteger(Tlv(0x02, IntegerContent(v))) == Some(v)
  {
    IntegerContentValue(v);
    PlainValue(0x02, IntegerContent(v));
    hide Tlv, IntegerContent, FromBigEndian, ReadLength, Inner;
  }

  lemma IntegerOctets(c: bytes)
    requires 0 < |c| < 0x1_0000_0000
    ensures ParseInteger(Tlv(0x02, c)) == if |c| <= 4 then Some(FromBigEndian(c)) else None
  {
    hide Tlv, FromBigEndian, ReadLength, Inner;
    PlainValue(0x02, c);
    var data := Tlv(0x02, c);
    var (length, p) := ReadLength(data, 1);
    assert length == |c| && p + length == |data| && data[p..p + length] == c;
  }

  /** Put to any DER INTEGER the reader returns its octets as an unsigned number, or nothing when they
      are more than four: that is its value exactly from 0 to 2^31 - 1, and a negative one comes back
      too large by 256 to the number of octets. */
  lemma {:induction false} IntegerReadsWhen(c: bytes)
    requires Minimal(c) && |c| < 0x1_0000_0000
    ensures ParseInteger(Tlv(0x02, c)) == if |c| <= 4 then Some(FromBigEndian(c)) else None
    ensures ParseInteger(Tlv(0x02, c)).Some? && ParseInteger(Tlv(0x02, c)).value == IntegerValue(c)
            <==> 0 <= IntegerValue(c) < 0x8000_0000
    ensures |c| <= 4 && IntegerValue(c) < 0 ==>
              ParseInteger(Tlv(0x02, c)) == Some(IntegerValue(c) + Power256(|c|))
  {
    hide Tlv, FromBigEndian, ParseInteger, Power256;
    IntegerOctets(c);
    BelowPower(c);
    if c[0] < 0x80 {
      if |c| <= 4 {
        ShortValue(c);
      } else {
        LongValue(c);
      }
    } else {
      Power256Positive(|c|);
    }
  }

  lemma {:induction false} Power256Positive(n: nat)
    ensures Power256(n) > 0
  {
    if n > 0 {
      Power256Positive(n - 1);
    }
  }

  lemma {:induction false} StringReads(tag: byte, s: bytes)
    requires |s| < 0x1_0000_0000 && tag in {0x1b, 0x0c, 0x13, 0x16, 0x04}
    ensures ParseString(Tlv(tag, s)) == s
  {
    PlainValue(tag, s);
    hide Tlv, ReadLength, Inner;
  }

  lemma {:induction false} TimeReads(s: bytes)
    requires |s| < 0x1_0000_0000
    ensures ParseTimeText(Tlv(0x18, s)) == Some(s)
  {
    PlainValue(0x18, s);
    hide Tlv, ReadLength, Inner;
  }

  /** A value of any other type is refused. */
  lemma {:induction false} OthersRefused(tag: byte, s: bytes)
    requires tag < 0x40 && |s| < 0x1_0000_0000
    ensures tag != 0x02 ==> ParseInteger(Tlv(tag, s)) == None
    ensures tag !in {0x1b, 0x0c, 0x13, 0x16, 0x04} ==> ParseString(Tlv(tag, s)) == []
    ensures tag != 0x18 ==> ParseTimeText(Tlv(tag, s)) == None
  {
    hide Tlv, ReadLength, Inner, FromBigEndian;
    PlainValue(tag, s);
  }

  /** A reader that starts at o finds the value tag, s, up to the end of the data. */
  ghost predicate HoldsValue(data: bytes, o: nat, tag: byte, s: bytes) {
    var (length, p) := ReadLength(data, o + 1);
    Inner(data) == o < |data| && data[o] == tag && length == |s| && p + length == |data| && data[p..p + length] == s
  }

  lemma ReadsAs(data: bytes, o: nat, tag: byte, s: bytes)
    requires HoldsValue(data, o, tag, s)
    ensures ParseInteger(data) == if tag == 0x02 && 0 < |s| <= 4 then Some(FromBigEndian(s)) else None
    ensures ParseString(data) == if tag in {0x1b, 0x0c, 0x13, 0x16, 0x04} then s else []
    ensures ParseTimeText(data) == if tag == 0x18 then Some(s) else None
  {
    hide ReadLength, Inner, FromBigEndian;
  }

  /** A value inside a context or application tag is read as the value is. */
  lemma {:induction false} OuterHeaderSkipped(outer: byte, tag: byte, s: bytes)
    requires outer >= 0x40 && tag < 0x40 && |Tlv(tag, s)| < 0x1_0000_0000
    ensures var plain := Tlv(tag, s);
            && ParseInteger(Tlv(outer, plain)) == ParseInteger(plain)
            && ParseString(Tlv(outer, plain)) == ParseString(plain)
            && ParseTimeText(Tlv(outer, plain)) == ParseTimeText(plain)
  {
    hide HoldsValue, ParseInteger, ParseString, ParseTimeText;
    var o := ValueInside(outer, tag, s);
    PlainHolds(tag, s);
    ReadsAs(Tlv(outer, Tlv(tag, s)), o, tag, s);
    ReadsAs(Tlv(tag, s), 0, tag, s);
    hide Tlv, FromBigEndian;
  }

  lemma PlainHolds(tag: byte, s: bytes)
    requires tag < 0x40 && |Tlv(tag, s)| < 0x1_0000_0000
    ensures HoldsValue(Tlv(tag, s), 0, tag, s)
  {
    assert |s| < |Tlv(tag, s)|;
    hide Tlv, ReadLength, Inner;
    PlainValue(tag, s);
  }

  lemma ValueInside(outer: byte, tag: byte, s: bytes) returns (o: nat)
    requires outer >= 0x40 && |Tlv(tag, s)| < 0x1_0000_0000
    ensures HoldsValue(Tlv(outer, Tlv(tag, s)), o, tag, s)
  {
    var plain := Tlv(tag, s);
    var data := Tlv(outer, plain);
    assert Stands(data, 0, data);
    assert |s| < |plain| && data[0] == outer && |data| > 0;
    o := ReadLength(data, 1).1;
    assert Inner(data) == o;
    hide Tlv, ReadLength, Inner, Stands;
    ReadTlv(data, 0, outer, plain);
    ReadTlv(data, o, tag, s);
    StandsSlice(data, ReadLength(data, o + 1).1, s);
  }

  lemma StandsSlice(data: bytes, i: nat, s: bytes)
    requires Stands(data, i, s)
    ensures i + |s| <= |data| && data[i..i + |s|] == s
  {
  }

  // ---------------------------------------------------------------- parsePrincipalName

  predicate NameTag(b: byte) {
    b == 0x1b || b == 0x0c || b == 0x13
  }

  /** A string tag at i with a length that fits. */
  predicate TokenAt(data: bytes, i: nat) {
    i + 2 < |data| && NameTag(data[i]) && data[i + 1] > 0 && i + 2 + data[i + 1] <= |data|
  }

  /** The byte scan of parsePrincipalName from i. */
  function Scan(data: bytes, i: nat): seq<bytes>
    decreases |data| - i
  {
    if i + 2 >= |data| then []
    else if TokenAt(data, i) then [data[i + 2..i + 2 + data[i + 1]]] + Scan(data, i + 2 + data[i + 1])
    else Scan(data, i + 1)
  }

  method ParsePrincipalName(data: bytes) returns (name: bytes)
    ensures name == Join(Scan(data, 0), Kerberos.SLASH)
  {
    var parts: seq<bytes> := [];
    var i := 0;
    while i < |data| - 2
      invariant 0 <= i
      invariant Scan(data, 0) == parts + Scan(data, i)
    {
      ghost var before, was := parts, i;
      if data[i] == 0x1b || data[i] == 0x0c || data[i] == 0x13 {
        var length := data[i + 1];
        if length > 0 && i + 2 + length <= |data| {
          var val := data[i + 2..i + 2 + length];
          if |val| > 0 {
            parts := parts + [val];
          }
          assert before + ([val] + Scan(data, i + 2 + length)) == parts + Scan(data, i + 2 + length);
          i := i + 1 + length;
        }
      }
      i := i + 1;
    }
    assert parts + [] == parts;
    if |parts| == 0 {
      return [];
    }
    name := Join(parts, Kerberos.SLASH);
  }

  lemma {:induction false} ScanSkips(data: bytes, i: nat, j: nat)
    requires i <= j && forall k | i <= k < j :: !TokenAt(data, k)
    ensures Scan(data, i) == Scan(data, j)
    decreases j - i
  {
    if i < j {
      ScanSkips(data, i + 1, j);
    }
  }

  /** A string under any of the three tags, with its length in one octet, is taken whole. */
  lemma ScanTakes(data: bytes, i: nat, tag: byte, s: bytes)
    requires tag in {0x1b, 0x0c, 0x13} && 0 < |s| < 256 && Stands(data, i, [tag, |s|] + s)
    ensures Scan(data, i) == [s] + Scan(data, i + 2 + |s|)
  {
    StandsOctet(data, i, [tag, |s|] + s, 0);
    StandsOctet(data, i, [tag, |s|] + s, 1);
    StandsParts(data, i, [tag, |s|], s);
  }

  /** Any other octet is passed over, and so is a tag without a length, with length 0, or with one
      that runs past the end. */
  lemma ScanPasses(data: bytes, i: nat)
    requires i < |data|
    requires data[i] !in {0x1b, 0x0c, 0x13} || i + 2 >= |data| || data[i + 1] == 0 || i + 2 + data[i + 1] > |data|
    ensures Scan(data, i) == Scan(data, i + 1)
  {
  }

  lemma ScanTakesBoth(data: bytes, i: nat, s: bytes, t: bytes)
    requires 0 < |s| < 256 && 0 < |t| < 256
    requires Stands(data, i, [0x1b, |s|] + s + ([0x1b, |t|] + t)) && i + 4 + |s| + |t| == |data|
    ensures Scan(data, i) == [s, t]
  {
    StandsParts(data, i, [0x1b, |s|] + s, [0x1b, |t|] + t);
    ScanTakes(data, i, 0x1b, s);
    ScanTakes(data, i + 2 + |s|, 0x1b, t);
    assert Scan(data, |data|) == [];
    hide Scan, Stands;
    assert [s] + ([t] + []) == [s, t];
  }

  /** The octets in front of the two strings of the builder's service name. */
  function SnamePrefix(realm: bytes): bytes
    requires 1 <= |realm| <= 115
  {
    (if |realm| <= 108 then [0x30, 19 + |realm|] else [0x30, 0x81, 19 + |realm|])
    + [0xa0, 0x03, 0x02, 0x01, 0x02, 0xa1, 12 + |realm|, 0x30, 10 + |realm|]
  }

  /** No length or tag among them is a string tag whose successor is a length that fits. */
  lemma PrefixHasNoToken(realm: bytes, data: bytes, k: nat)
    requires 1 <= |realm| <= 115 && k < |SnamePrefix(realm)|
    requires |data| == |SnamePrefix(realm)| + 10 + |realm|
    requires Stands(data, 0, SnamePrefix(realm) + [0x1b])
    ensures !TokenAt(data, k)
  {
    var pre := SnamePrefix(realm) + [0x1b];
    StandsOctet(data, 0, pre, k);
    StandsOctet(data, 0, pre, k + 1);
    hide Stands;
  }

  lemma SnameOctets(realm: bytes)
    requires 1 <= |realm| <= 115
    ensures Kerberos.SnameSeq(realm)
            == SnamePrefix(realm) + ([0x1b, 6] + Kerberos.KRBTGT + ([0x1b, |realm|] + realm))
  {
    var strings := Kerberos.ShortString(Kerberos.KRBTGT) + Kerberos.ShortString(realm);
    assert strings == [0x1b, 6] + Kerberos.KRBTGT + ([0x1b, |realm|] + realm) && |strings| == 10 + |realm|;
    hide Kerberos.ShortString, Kerberos.KRBTGT;
    var head: bytes := [0xa0, 0x03, 0x02, 0x01, 0x02] + [0xa1, 12 + |realm|, 0x30, 10 + |realm|];
    var content := Kerberos.NameField(2, strings);
    assert content == head + strings && |content| == 19 + |realm|;
    hide Kerberos.NameField;
    var header: bytes := if |realm| <= 108 then [0x30, 19 + |realm|] else [0x30, 0x81, 19 + |realm|];
    assert Wrap(0x30, content) == header + content;
    assert header + (head + strings) == header + head + strings;
    assert SnamePrefix(realm) == header + head;
  }

  /** The scan of the service name the AS-REQ builder encodes gives back krbtgt/REALM,
      whatever octets the realm is made of. */
  lemma {:induction false} SnameScansBack(realm: bytes)
    requires 1 <= |realm| <= 115
    ensures Join(Scan(Kerberos.SnameSeq(realm), 0), Kerberos.SLASH) == Ascii("krbtgt/") + realm
  {
    assert Ascii("krbtgt/") == Kerberos.KRBTGT + [Kerberos.SLASH] by {
      assert |Ascii("krbtgt/")| == 7;
    }
    var data, pre := Kerberos.SnameSeq(realm), SnamePrefix(realm);
    var strings := [0x1b, 6] + Kerberos.KRBTGT + ([0x1b, |realm|] + realm);
    SnameOctets(realm);
    assert Stands(data, 0, pre + [0x1b]) && Stands(data, |pre|, strings);
    hide Kerberos.SnameSeq, SnamePrefix, TokenAt;
    forall k | 0 <= k < |pre| ensures !TokenAt(data, k) {
      PrefixHasNoToken(realm, data, k);
    }
    ScanSkips(data, 0, |pre|);
    ScanTakesBoth(data, |pre|, Kerberos.KRBTGT, realm);
    assert ([Kerberos.KRBTGT, realm])[1..] == [realm];
  }

  // ---------------------------------------------------------------- dissectKRBError

  /** parsedKRBError, with the server time as the moment time.Parse makes of its text. */
  datatype Parsed = Parsed(
    errorCode: Option<nat>, realm: bytes, sname: bytes, serverTime: Option<int>, etext: bytes,
    etypes: bytes, preauth: bytes)

  const NOTHING := Parsed(None, [], [], None, [], [], [])

  datatype Field = Field(num: nat, content: bytes)

  /** time.Parse on the GeneralizedTime layout */
  type TimeParser = bytes -> Option<int>

  function TimeOf(parse: TimeParser, content: bytes): Option<int> {
    match ParseTimeText(content)
    case None => None
    case Some(text) => parse(text)
  }

  /** The switch on the tag number. */
  function Apply(parse: TimeParser, f: Field, res: Parsed): Parsed {
    match f.num
    case 4 =>
      var t := TimeOf(parse, f.content);
      if t.Some? then res.(serverTime := t) else res
    case 6 =>
      var v := ParseInteger(f.content);
      if v.Some? then res.(errorCode := v) else res
    case 7 => if ParseString(f.content) != [] then res.(realm := ParseString(f.content)) else res
    case 9 => if ParseString(f.content) != [] then res.(realm := ParseString(f.content)) else res
    case 10 =>
      var s := Join(Scan(f.content, 0), Kerberos.SLASH);
      if s != [] then res.(sname := s) else res
    case 11 => if ParseString(f.content) != [] then res.(etext := ParseString(f.content)) else res
    case 12 =>
      var etypes, preauth := EData.Etypes(f.content), EData.Preauth(f.content);
      res.(etypes := if etypes != [] then etypes else res.etypes,
           preauth := if preauth != [] then preauth else res.preauth)
    case _ => res
  }

  /** The field loop from `offset`. */
  function Walk(parse: TimeParser, data: bytes, offset: nat, res: Parsed): Parsed
    decreases |data| - offset
  {
    if offset >= |data| || !(0x80 <= data[offset] < 0xc0) then res
    else
      var (tagLen, o) := ReadLength(data, offset + 1);
      if o + tagLen > |data| then res
      else Walk(parse, data, o + tagLen, Apply(parse, Field(data[offset] % 32, data[o..o + tagLen]), res))
  }

  /** Behind an expected header octet and its length, if it is there. */
  function Skip(data: bytes, offset: nat, tag: byte): nat {
    if offset < |data| && data[offset] == tag then ReadLength(data, offset + 1).1 else offset
  }

  function Dissect(parse: TimeParser, data: bytes): Parsed {
    Walk(parse, data, Skip(data, Skip(data, 0, 0x7e), 0x30), NOTHING)
  }

  method SkipHeader(data: bytes, start: nat, tag: byte) returns (offset: nat)
    ensures offset == Skip(data, start, tag)
  {
    offset := start;
    if offset < |data| && data[offset] == tag {
      offset := offset + 1;
      var _, newOffset := ReadASN1Length(data, offset);
      offset := newOffset;
    }
  }

  /** (b & 0xc0) is never 0xa0: the second half of the source's test always holds. */
  lemma TagClass(b: byte)
    ensures b / 64 * 64 == 0x80 || b / 64 * 64 == 0xa0 <==> 0x80 <= b < 0xc0
  {
  }

  /** dissectKRBError. All reads are in bounds and the offset grows, on every octet string. */
  method DissectKRBError(parse: TimeParser, data: bytes) returns (res: Parsed)
    ensures res == Dissect(parse, data)
  {
    hide Apply, ReadLength;
    res := NOTHING;
    var offset := SkipHeader(data, 0, 0x7e);
    offset := SkipHeader(data, offset, 0x30);
    while offset < |data|
      invariant Dissect(parse, data) == Walk(parse, data, offset, res)
      decreases |data| - offset
    {
      hide Dissect, Skip;
      var tagClass := data[offset] / 64 * 64;
      TagClass(data[offset]);
      if tagClass != 0x80 && tagClass != 0xa0 {
        break;
      }
      var tagNum := data[offset] % 32;
      offset := offset + 1;
      var tagLen, newOffset := ReadASN1Length(data, offset);
      if newOffset + tagLen > |data| {
        break;
      }
      var tagContent := data[newOffset..newOffset + tagLen];
      offset := newOffset + tagLen;
      res := ApplyField(parse, tagNum, tagContent, res);
    }
  }

  method ApplyField(parse: TimeParser, tagNum: nat, tagContent: bytes, before: Parsed) returns (res: Parsed)
    ensures res == Apply(parse, Field(tagNum, tagContent), before)
  {
    res := before;
    match tagNum {
      case 4 =>
        var t := TimeOf(parse, tagContent);
        if t.Some? {
          res := res.(serverTime := t);
        }
      case 6 =>
        var val, ok := ParseASN1Integer(tagContent);
        if ok {
          res := res.(errorCode := Some(val));
        }
      case 7 =>
        var str := ParseString(tagContent);
        if str != [] {
          res := res.(realm := str);
        }
      case 9 =>
        var str := ParseString(tagContent);
        if str != [] {
          res := res.(realm := str);
        }
      case 10 =>
        var sname := ParsePrincipalName(tagContent);
        if sname != [] {
          res := res.(sname := sname);
        }
      case 11 =>
        var str := ParseString(tagContent);
        if str != [] {
          res := res.(etext := str);
        }
      case 12 =>
        var etypes, preauth := EData.ParseEDataPAData(tagContent);
        if |etypes| > 0 {
          res := res.(etypes := etypes);
        }
        if |preauth| > 0 {
          res := res.(preauth := preauth);
        }
      case _ =>
    }
  }

  // ---------------------------------------------------------------- what a message says

  /** The context fields one after the other, as wrapASN1 writes them. */
  function FieldBytes(fs: seq<Field>): bytes {
    if |fs| == 0 then [] else Tlv((0xa0 + fs[0].num) % 256, fs[0].content) + FieldBytes(fs[1..])
  }

  function Message(fs: seq<Field>): bytes {
    Tlv(0x7e, Tlv(0x30, FieldBytes(fs)))
  }

  ghost predicate Numbered(fs: seq<Field>) {
    forall i | 0 <= i < |fs| :: fs[i].num < 32
  }

  function ApplyAll(parse: TimeParser, fs: seq<Field>, res: Parsed): Parsed
    decreases |fs|
  {
    if |fs| == 0 then res else ApplyAll(parse, fs[1..], Apply(parse, fs[0], res))
  }

  lemma {:induction false} WalksFields(parse: TimeParser, data: bytes, offset: nat, fs: seq<Field>, res: Parsed)
    requires Numbered(fs) && |data| < 0x1_0000_0000
    requires Stands(data, offset, FieldBytes(fs)) && offset + |FieldBytes(fs)| == |data|
    ensures Walk(parse, data, offset, res) == ApplyAll(parse, fs, res)
    decreases |fs|
  {
    hide Apply, ReadLength, LengthOctets;
    if |fs| > 0 {
      var f := fs[0];
      var tag: byte := 0xa0 + f.num;
      var v := Tlv(tag, f.content);
      StandsParts(data, offset, v, FieldBytes(fs[1..]));
      assert |f.content| < |v|;
      ReadTlv(data, offset, tag, f.content);
      assert tag % 32 == f.num;
      WalksFields(parse, data, offset + |v|, fs[1..], Apply(parse, f, res));
    }
  }

  /** On a KRB-ERROR of context fields, in whatever order, the decoder acts on each once. */
  lemma {:induction false} MessageDissects(parse: TimeParser, fs: seq<Field>)
    requires Numbered(fs) && |Message(fs)| < 0x1_0000_0000
    ensures Dissect(parse, Message(fs)) == ApplyAll(parse, fs, NOTHING)
  {
    var data := Message(fs);
    var inner, fields := Tlv(0x30, FieldBytes(fs)), FieldBytes(fs);
    assert |inner| < |data| && |fields| < |inner|;
    assert Stands(data, 0, data);
    ReadTlv(data, 0, 0x7e, inner);
    var o := ReadLength(data, 1).1;
    ReadTlv(data, o, 0x30, fields);
    hide Walk, Tlv, FieldBytes;
    WalksFields(parse, data, ReadLength(data, o + 1).1, fs, NOTHING);
  }

  /** The two headers before the fields may be missing, from the outside in. */
  lemma {:induction false} HeadersOptional(parse: TimeParser, fs: seq<Field>)
    requires Numbered(fs) && |Message(fs)| < 0x1_0000_0000
    ensures Dissect(parse, Tlv(0x30, FieldBytes(fs))) == ApplyAll(parse, fs, NOTHING)
    ensures Dissect(parse, FieldBytes(fs)) == ApplyAll(parse, fs, NOTHING)
  {
    assert |FieldBytes(fs)| < |Tlv(0x30, FieldBytes(fs))| < |Message(fs)|;
    SequenceAlone(parse, fs);
    FieldsAlone(parse, fs);
    hide Dissect, ApplyAll, Tlv, FieldBytes;
  }

  lemma SequenceAlone(parse: TimeParser, fs: seq<Field>)
    requires Numbered(fs) && |Tlv(0x30, FieldBytes(fs))| < 0x1_0000_0000
    ensures Dissect(parse, Tlv(0x30, FieldBytes(fs))) == ApplyAll(parse, fs, NOTHING)
  {
    var fields := FieldBytes(fs);
    var data := Tlv(0x30, fields);
    assert Stands(data, 0, data) && |fields| < |data| && data[0] == 0x30;
    hide Walk, Tlv, FieldBytes, ReadLength;
    ReadTlv(data, 0, 0x30, fields);
    assert Skip(data, Skip(data, 0, 0x7e), 0x30) == ReadLength(data, 1).1;
    hide Skip;
    WalksFields(parse, data, ReadLength(data, 1).1, fs, NOTHING);
  }

  lemma FieldsAlone(parse: TimeParser, fs: seq<Field>)
    requires Numbered(fs) && |FieldBytes(fs)| < 0x1_0000_0000
    ensures Dissect(parse, FieldBytes(fs)) == ApplyAll(parse, fs, NOTHING)
  {
    var data := FieldBytes(fs);
    assert Stands(data, 0, data);
    assert |fs| > 0 ==> |data| > 0 && data[0] == 0xa0 + fs[0].num;
    hide Walk, Tlv, FieldBytes, ReadLength;
    assert Skip(data, Skip(data, 0, 0x7e), 0x30) == 0;
    hide Skip;
    WalksFields(parse, data, 0, fs, NOTHING);
  }

  /** One turn of the field loop, whatever the octets: a field in any context class tag is applied
      under its number, which is the tag's last five bits; the loop ends at any other octet, at the
      end, and at a field that announces more than there is. */
  lemma {:induction false} WalkTurn(parse: TimeParser, data: bytes, offset: nat, tag: byte, content: bytes, res: Parsed)
    requires |content| < 0x1_0000_0000
    ensures 0x80 <= tag < 0xc0 && Stands(data, offset, Tlv(tag, content)) ==>
              Walk(parse, data, offset, res)
              == Walk(parse, data, offset + |Tlv(tag, content)|, Apply(parse, Field(tag % 32, content), res))
    ensures offset < |data| && !(0x80 <= data[offset] < 0xc0) ==> Walk(parse, data, offset, res) == res
    ensures offset >= |data| ==> Walk(parse, data, offset, res) == res
    ensures Stands(data, offset, [tag] + LengthOctets(|content|)) ==>
              offset + |Tlv(tag, content)| > |data| ==> Walk(parse, data, offset, res) == res
  {
    hide Apply, ReadLength;
    if Stands(data, offset, Tlv(tag, content)) {
      ReadTlv(data, offset, tag, content);
    } else if Stands(data, offset, [tag] + LengthOctets(|content|)) {
      StandsParts(data, offset, [tag], LengthOctets(|content|));
      ReadLengthOctets(data, offset + 1, |content|);
    }
  }

  /** What a field contributes to one component of the result. */
  function CodeIn(f: Field): Option<nat> {
    if f.num == 6 then ParseInteger(f.content) else None
  }

  function TimeIn(parse: TimeParser, f: Field): Option<int> {
    if f.num == 4 then TimeOf(parse, f.content) else None
  }

  function RealmIn(f: Field): bytes {
    if f.num == 7 || f.num == 9 then ParseString(f.content) else []
  }

  function NameIn(f: Field): bytes {
    if f.num == 10 then Join(Scan(f.content, 0), Kerberos.SLASH) else []
  }

  function TextIn(f: Field): bytes {
    if f.num == 11 then ParseString(f.content) else []
  }

  function EtypesIn(f: Field): bytes {
    if f.num == 12 then EData.Etypes(f.content) else []
  }

  function PreauthIn(f: Field): bytes {
    if f.num == 12 then EData.Preauth(f.content) else []
  }

  /** The last member with a value, or the default. */
  function LastSome<T>(fs: seq<Field>, pick: Field -> Option<T>, default: Option<T>): Option<T> {
    if |fs| == 0 then default
    else if pick(fs[|fs| - 1]).Some? then pick(fs[|fs| - 1])
    else LastSome(fs[..|fs| - 1], pick, default)
  }

  function LastText(fs: seq<Field>, pick: Field -> bytes): bytes {
    if |fs| == 0 then []
    else if pick(fs[|fs| - 1]) != [] then pick(fs[|fs| - 1])
    else LastText(fs[..|fs| - 1], pick)
  }

  lemma {:induction false} ApplyAllSnoc(parse: TimeParser, fs: seq<Field>, f: Field, res: Parsed)
    ensures ApplyAll(parse, fs + [f], res) == Apply(parse, f, ApplyAll(parse, fs, res))
    decreases |fs|
  {
    hide Apply;
    if |fs| == 0 {
      assert (fs + [f])[1..] == [];
    } else {
      assert (fs + [f])[1..] == fs[1..] + [f];
      ApplyAllSnoc(parse, fs[1..], f, Apply(parse, fs[0], res));
    }
  }

  /** Each component is the last value any field gives it; other fields are skipped. */
  lemma {:induction false} LastValueWins(parse: TimeParser, fs: seq<Field>)
    ensures ApplyAll(parse, fs, NOTHING)
            == Parsed(LastSome(fs, CodeIn, None), LastText(fs, RealmIn), LastText(fs, NameIn),
                      LastSome(fs, f => TimeIn(parse, f), None), LastText(fs, TextIn),
                      LastText(fs, EtypesIn), LastText(fs, PreauthIn))
    decreases |fs|
  {
    if |fs| > 0 {
      var front, f := fs[..|fs| - 1], fs[|fs| - 1];
      assert fs == front + [f];
      ApplyAllSnoc(parse, front, f, NOTHING);
      LastValueWins(parse, front);
    }
  }

  lemma {:induction false} LastSomeAgrees<T>(fs: seq<Field>, pick: Field -> Option<T>, x: Option<T>)
    requires forall i | 0 <= i < |fs| :: pick(fs[i]) == None || pick(fs[i]) == x
    requires exists i :: 0 <= i < |fs| && pick(fs[i]) == x
    ensures LastSome(fs, pick, None) == x
    decreases |fs|
  {
    var front, f := fs[..|fs| - 1], fs[|fs| - 1];
    var i :| 0 <= i < |fs| && pick(fs[i]) == x;
    if pick(f).None? {
      if i < |front| {
        assert front[i] == fs[i];
        LastSomeAgrees(front, pick, x);
      } else {
        NoneEverywhere(front, pick);
      }
    }
  }

  lemma {:induction false} NoneEverywhere<T>(fs: seq<Field>, pick: Field -> Option<T>)
    requires forall i | 0 <= i < |fs| :: pick(fs[i]) == None
    ensures LastSome(fs, pick, None) == None
    decreases |fs|
  {
    if |fs| > 0 {
      NoneEverywhere(fs[..|fs| - 1], pick);
    }
  }

  /** A field whose text no later field replaces decides. */
  lemma {:induction false} LastTextDecides(fs: seq<Field>, pick: Field -> bytes, i: nat)
    requires i < |fs| && pick(fs[i]) != []
    requires forall j | i < j < |fs| :: pick(fs[j]) == [] || pick(fs[j]) == pick(fs[i])
    ensures LastText(fs, pick) == pick(fs[i])
    decreases |fs|
  {
    if pick(fs[|fs| - 1]) == [] {
      LastTextDecides(fs[..|fs| - 1], pick, i);
    }
  }

  lemma {:induction false} NoText(fs: seq<Field>, pick: Field -> bytes)
    requires forall i | 0 <= i < |fs| :: pick(fs[i]) == []
    ensures LastText(fs, pick) == []
    decreases |fs|
  {
    if |fs| > 0 {
      NoText(fs[..|fs| - 1], pick);
    }
  }

  /** The values a sender puts into the fields the decoder looks at. */
  datatype Report = Report(stime: bytes, errorCode: nat, crealm: bytes, realm: bytes, etext: bytes)

  ghost predicate Present(fs: seq<Field>, num: nat) {
    exists i :: 0 <= i < |fs| && fs[i].num == num
  }

  /** fs holds the report: server time, error code and realm for certain, client realm (never
      behind the realm) and text perhaps, among any other fields and otherwise in any order. */
  ghost predicate Carries(fs: seq<Field>, r: Report) {
    && Numbered(fs) && Present(fs, 4) && Present(fs, 6) && Present(fs, 9)
    && (forall i | 0 <= i < |fs| ::
          && (fs[i].num == 4 ==> fs[i].content == Tlv(0x18, r.stime))
          && (fs[i].num == 6 ==> fs[i].content == Tlv(0x02, IntegerContent(r.errorCode)))
          && (fs[i].num == 7 ==> fs[i].content == Tlv(0x1b, r.crealm))
          && (fs[i].num == 9 ==> fs[i].content == Tlv(0x1b, r.realm))
          && (fs[i].num == 11 ==> fs[i].content == Tlv(0x1b, r.etext)))
    && (forall i, j | 0 <= i < j < |fs| :: fs[i].num == 9 ==> fs[j].num != 7)
    && r.errorCode < 0x8000_0000
    && |r.stime| < 65536 && |r.crealm| < 65536 && |r.realm| < 65536 && |r.etext| < 65536
  }

  lemma {:induction false} RealmDecided(fs: seq<Field>, r: Report)
    requires Carries(fs, r)
    ensures LastText(fs, RealmIn) == if r.realm != [] then r.realm else if Present(fs, 7) then r.crealm else []
  {
    StringReads(0x1b, r.realm);
    StringReads(0x1b, r.crealm);
    hide Tlv, ParseString, IntegerContent;
    if r.realm != [] {
      var i :| 0 <= i < |fs| && fs[i].num == 9;
      LastTextDecides(fs, RealmIn, i);
    } else if Present(fs, 7) && r.crealm != [] {
      var i :| 0 <= i < |fs| && fs[i].num == 7;
      LastTextDecides(fs, RealmIn, i);
    } else {
      NoText(fs, RealmIn);
    }
  }

  /** There is a field of this number, and each such field has this content. */
  ghost predicate Holds(fs: seq<Field>, num: nat, content: bytes) {
    Present(fs, num) && forall i | 0 <= i < |fs| :: fs[i].num == num ==> fs[i].content == content
  }

  lemma TextHeld(fs: seq<Field>, num: nat, content: bytes, pick: Field -> bytes)
    requires Holds(fs, num, content)
    requires forall f: Field :: f.num != num ==> pick(f) == []
    ensures LastText(fs, pick) == pick(Field(num, content))
  {
    assert forall i | 0 <= i < |fs| && fs[i].num == num :: fs[i] == Field(num, content);
    if pick(Field(num, content)) == [] {
      NoText(fs, pick);
    } else {
      var i :| 0 <= i < |fs| && fs[i].num == num;
      LastTextDecides(fs, pick, i);
    }
  }

  lemma SomeHeld<T>(fs: seq<Field>, num: nat, content: bytes, pick: Field -> Option<T>)
    requires Holds(fs, num, content)
    requires forall f: Field :: f.num != num ==> pick(f) == None
    ensures LastSome(fs, pick, None) == pick(Field(num, content))
  {
    assert forall i | 0 <= i < |fs| && fs[i].num == num :: fs[i] == Field(num, content);
    if pick(Field(num, content)) == None {
      NoneEverywhere(fs, pick);
    } else {
      LastSomeAgrees(fs, pick, pick(Field(num, content)));
    }
  }

  lemma CodeReported(fs: seq<Field>, r: Report)
    requires Carries(fs, r)
    ensures LastSome(fs, CodeIn, None) == Some(r.errorCode)
  {
    IntegerReads(r.errorCode);
    hide Tlv, IntegerContent, ParseInteger, LastSome;
    SomeHeld(fs, 6, Tlv(0x02, IntegerContent(r.errorCode)), CodeIn);
  }

  lemma TimeReported(parse: TimeParser, fs: seq<Field>, r: Report, timeIn: Field -> Option<int>)
    requires Carries(fs, r) && timeIn == (f => TimeIn(parse, f))
    ensures LastSome(fs, timeIn, None) == parse(r.stime)
  {
    TimeReads(r.stime);
    hide Tlv, ParseTimeText, LastSome;
    SomeHeld(fs, 4, Tlv(0x18, r.stime), timeIn);
  }

  lemma TextReported(fs: seq<Field>, r: Report)
    requires Carries(fs, r)
    ensures LastText(fs, TextIn) == if Present(fs, 11) then r.etext else []
  {
    StringReads(0x1b, r.etext);
    hide Tlv, ParseString, LastText;
    if Present(fs, 11) {
      TextHeld(fs, 11, Tlv(0x1b, r.etext), TextIn);
    } else {
      NoText(fs, TextIn);
    }
  }

  /** What a sender reports is what the decoder returns. */
  lemma {:induction false} KrbErrorRoundTrip(parse: TimeParser, fs: seq<Field>, r: Report)
    requires Carries(fs, r) && |Message(fs)| < 0x1_0000_0000
    ensures var res := Dissect(parse, Message(fs));
            && res.errorCode == Some(r.errorCode)
            && res.serverTime == parse(r.stime)
            && res.realm == (if r.realm != [] then r.realm else if Present(fs, 7) then r.crealm else [])
            && res.etext == (if Present(fs, 11) then r.etext else [])
  {
    MessageDissects(parse, fs);
    LastValueWins(parse, fs);
    RealmDecided(fs, r);
    CodeReported(fs, r);
    TimeReported(parse, fs, r, f => TimeIn(parse, f));
    TextReported(fs, r);
    hide Message, Dissect, ApplyAll, LastSome, LastText, Carries, Present;
  }

  /** The service krbtgt of a realm, encoded as the request does, comes back as its name. */
  lemma {:induction false} SnameRoundTrip(parse: TimeParser, fs: seq<Field>, realm: bytes)
    requires Numbered(fs) && |Message(fs)| < 0x1_0000_0000
    requires Holds(fs, 10, Kerberos.SnameSeq(realm)) && 1 <= |realm| <= 115
    ensures Dissect(parse, Message(fs)).sname == Ascii("krbtgt/") + realm
  {
    MessageDissects(parse, fs);
    LastValueWins(parse, fs);
    SnameScansBack(realm);
    hide Message, Dissect, ApplyAll, LastSome, LastText, Scan, Join, Kerberos.SnameSeq, Ascii;
    TextHeld(fs, 10, Kerberos.SnameSeq(realm), NameIn);
  }

  /** What is reported of the e-data is what its scan finds. */
  lemma {:induction false} EDataRoundTrip(parse: TimeParser, fs: seq<Field>, edata: bytes)
    requires Numbered(fs) && |Message(fs)| < 0x1_0000_0000 && Holds(fs, 12, edata)
    ensures Dissect(parse, Message(fs)).etypes == EData.Etypes(edata)
    ensures Dissect(parse, Message(fs)).preauth == EData.Preauth(edata)
  {
    MessageDissects(parse, fs);
    LastValueWins(parse, fs);
    hide Message, Dissect, ApplyAll, LastSome, LastText, EData.Etypes, EData.Preauth;
    TextHeld(fs, 12, edata, EtypesIn);
    TextHeld(fs, 12, edata, PreauthIn);
  }

  function WrappedFields(fs: seq<Field>): bytes {
    if |fs| == 0 then [] else Wrap((0xa0 + fs[0].num) % 256, fs[0].content) + WrappedFields(fs[1..])
  }

  /** Up to 65535 octets in all, wrapASN1 writes just this message. */
  lemma {:induction false} WrappedMessage(fs: seq<Field>)
    requires |Message(fs)| < 65536
    ensures Wrap(0x7e, Wrap(0x30, WrappedFields(fs))) == Message(fs)
  {
    assert |FieldBytes(fs)| <= |Tlv(0x30, FieldBytes(fs))| <= |Message(fs)|;
    FieldsWrapped(fs);
    WrapIsDer(0x30, FieldBytes(fs));
    WrapIsDer(0x7e, Tlv(0x30, FieldBytes(fs)));
  }

  lemma {:induction false} FieldsWrapped(fs: seq<Field>)
    requires |FieldBytes(fs)| < 65536
    ensures WrappedFields(fs) == FieldBytes(fs)
  {
    if |fs| > 0 {
      var v := Tlv((0xa0 + fs[0].num) % 256, fs[0].content);
      assert |FieldBytes(fs)| == |v| + |FieldBytes(fs[1..])| && |fs[0].content| <= |v|;
      FieldsWrapped(fs[1..]);
      WrapIsDer((0xa0 + fs[0].num) % 256, fs[0].content);
    }
  }
}
