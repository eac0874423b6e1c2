/** The readers of pkg/probers/kerberos.go on the values of the AS-REQ that its builder writes. */
module AsReqReads {
  import opened Bytes
  import opened Wrappers
  import opened Der
  import opened Kerberos
  import opened KrbError

  lemma NameLeaves(nameType: byte, strings: seq<Tree>)
    requires forall i | 0 <= i < |strings| :: strings[i].Leaf?
    ensures Below(NameTree(nameType, strings)) == [Int([nameType])] + strings
  {
    var a, b := Node(0xa0, [Int([nameType])]), Node(0xa1, [Node(0x30, strings)]);
    assert [a, b] == [a] + [b] && [b] == [b] + [];
    LeavesCons(a, [b]);
    LeavesCons(b, []);
    FieldLeaves(0xa0, Int([nameType]));
    FieldLeaves(0xa1, Node(0x30, strings));
    LeavesOfLeaves(strings);
  }

  lemma Three(ts: seq<Tree>)
    requires |ts| >= 3
    ensures Leaves(ts) == Below(ts[0]) + (Below(ts[1]) + (Below(ts[2]) + Leaves(ts[3..])))
  {
    assert ts[1..][1..] == ts[2..] && ts[2..][1..] == ts[3..];
    assert Leaves(ts) == Below(ts[0]) + Leaves(ts[1..]);
    assert Leaves(ts[1..]) == Below(ts[1]) + Leaves(ts[2..]);
    hide Below;
  }

  /** The kdc-options, the name of the client, and the realm. */
  function Client(realm: bytes, principal: bytes): seq<Tree> {
    [Leaf(0x03, [0x00, 0x40, 0x81, 0x00, 0x10]), Int([1]), Leaf(0x1b, principal), Leaf(0x1b, realm)]
  }

  /** The name of the service, and till. */
  function Service(realm: bytes, till: bytes): seq<Tree> {
    [Int([2]), Leaf(0x1b, KRBTGT), Leaf(0x1b, realm), Leaf(0x18, till)]
  }

  /** The nonce and the encryption types. */
  function Etypes(): seq<Tree> {
    [Int([0x00, 0xbc, 0x61, 0x4e]), Int([18]), Int([17]), Int([23])]
  }

  lemma ClientLeaves(realm: bytes, principal: bytes, rest: seq<Tree>)
    ensures Leaves([Node(0xa0, [Leaf(0x03, [0x00, 0x40, 0x81, 0x00, 0x10])]), Node(0xa1, [CnameTree(principal)]),
                    Node(0xa2, [Leaf(0x1b, realm)])] + rest)
            == Client(realm, principal) + Leaves(rest)
  {
    var a := Node(0xa0, [Leaf(0x03, [0x00, 0x40, 0x81, 0x00, 0x10])]);
    var b, c := Node(0xa1, [CnameTree(principal)]), Node(0xa2, [Leaf(0x1b, realm)]);
    Three([a, b, c] + rest);
    assert ([a, b, c] + rest)[3..] == rest;
    FieldLeaves(0xa0, Leaf(0x03, [0x00, 0x40, 0x81, 0x00, 0x10]));
    NameLeaves(1, [Leaf(0x1b, principal)]);
    FieldLeaves(0xa1, CnameTree(principal));
    FieldLeaves(0xa2, Leaf(0x1b, realm));
    hide Leaves;
  }

  lemma ServiceLeaves(realm: bytes, till: bytes, rest: seq<Tree>)
    ensures Leaves([Node(0xa3, [SnameTree(realm)]), Node(0xa5, [Leaf(0x18, till)])] + rest)
            == Service(realm, till) + Leaves(rest)
  {
    var a, b := Node(0xa3, [SnameTree(realm)]), Node(0xa5, [Leaf(0x18, till)]);
    assert [a, b] + rest == [a] + ([b] + rest);
    LeavesCons(a, [b] + rest);
    LeavesCons(b, rest);
    NameLeaves(2, [Leaf(0x1b, KRBTGT), Leaf(0x1b, realm)]);
    FieldLeaves(0xa3, SnameTree(realm));
    FieldLeaves(0xa5, Leaf(0x18, till));
    hide Leaves;
  }

  lemma EtypeLeaves()
    ensures Leaves([Node(0xa7, [Int([0x00, 0xbc, 0x61, 0x4e])]),
                    Node(0xa8, [Node(0x30, [Int([18]), Int([17]), Int([23])])])])
            == Etypes()
  {
    var etypes := [Int([18]), Int([17]), Int([23])];
    var a, b := Node(0xa7, [Int([0x00, 0xbc, 0x61, 0x4e])]), Node(0xa8, [Node(0x30, etypes)]);
    assert [a, b] == [a] + [b] && [b] == [b] + [];
    LeavesCons(a, [b]);
    LeavesCons(b, []);
    FieldLeaves(0xa7, Int([0x00, 0xbc, 0x61, 0x4e]));
    FieldLeaves(0xa8, Node(0x30, etypes));
    LeavesOfLeaves(etypes);
    hide Leaves;
  }

  lemma BodyLeaves(realm: bytes, principal: bytes, till: bytes)
    ensures Leaves(BodyTrees(realm, principal, till)) == Client(realm, principal) + (Service(realm, till) + Etypes())
  {
    var ts := BodyTrees(realm, principal, till);
    assert ts == ts[..3] + (ts[3..5] + ts[5..]);
    assert ts[..3] == [ts[0], ts[1], ts[2]] && ts[3..5] == [ts[3], ts[4]] && ts[5..] == [ts[5], ts[6]];
    ClientLeaves(realm, principal, ts[3..5] + ts[5..]);
    ServiceLeaves(realm, till, ts[5..]);
    EtypeLeaves();
    hide Leaves, Client, Service, Etypes;
  }

  lemma AsReqValues(realm: bytes, principal: bytes, till: bytes)
    ensures Leaves([AsReqTree(realm, principal, till)])
            == [Int([5])] + ([Int([10])] + (Client(realm, principal) + (Service(realm, till) + Etypes())))
  {
    var body := Node(0x30, BodyTrees(realm, principal, till));
    var ts := [Node(0xa1, [Int([5])]), Node(0xa2, [Int([10])]), Node(0xa4, [body])];
    var t := AsReqTree(realm, principal, till);
    assert [t] == [t] + [];
    LeavesCons(t, []);
    FieldLeaves(0x6a, Node(0x30, ts));
    FieldLeaves(0xa1, Int([5]));
    FieldLeaves(0xa2, Int([10]));
    FieldLeaves(0xa4, body);
    Three(ts);
    BodyLeaves(realm, principal, till);
    assert ts[3..] == [];
    hide Leaves, Client, Service, Etypes, BodyTrees;
  }

  // ---------------------------------------------------------------- the readers

  ghost predicate ReadsInteger(t: Tree, v: nat) {
    ParseInteger(Encode(t)) == Some(v)
  }

  ghost predicate ReadsString(t: Tree, s: bytes) {
    ParseString(Encode(t)) == s
  }

  ghost predicate ReadsTime(t: Tree, s: bytes) {
    ParseTimeText(Encode(t)) == Some(s)
  }

  lemma IntReads(content: bytes, v: nat)
    requires v < 0x8000_0000 && content == IntegerContent(v)
    ensures ReadsInteger(Int(content), v)
  {
    IntegerReads(v);
    hide ParseInteger, IntegerContent, Tlv;
  }

  lemma SmallReads(v: byte)
    requires v < 0x80
    ensures ReadsInteger(Int([v]), v)
  {
    assert BigEndian(0) == [];
    assert v > 0 ==> BigEndian(v) == BigEndian(v / 256) + [v % 256];
    assert IntegerContent(v) == [v];
    hide BigEndian, IntegerContent;
    IntReads([v], v);
  }

  lemma NonceReads()
    ensures ReadsInteger(Int([0x00, 0xbc, 0x61, 0x4e]), 12345678)
  {
    BigEndianSteps(0xbc, 0x61, 0x4e);
    assert IntegerContent(12345678) == [0x00, 0xbc, 0x61, 0x4e];
    hide BigEndian, IntegerContent;
    IntReads([0x00, 0xbc, 0x61, 0x4e], 12345678);
  }

  lemma BigEndianSteps(a: byte, b: byte, c: byte)
    requires a > 0
    ensures BigEndian((a * 256 + b) * 256 + c) == [a, b, c]
  {
    BigEndianStep(a * 256 + b, c);
    BigEndianStep(a, b);
    BigEndianStep(0, a);
    assert BigEndian(0) == [];
    hide BigEndian;
  }

  lemma BigEndianStep(n: nat, b: byte)
    requires n > 0 || b > 0
    ensures BigEndian(n * 256 + b) == BigEndian(n) + [b]
  {
  }

  lemma TextReads(s: bytes)
    requires |s| < 0x1_0000_0000
    ensures ReadsString(Leaf(0x1b, s), s) && ReadsTime(Leaf(0x18, s), s)
  {
    StringReads(0x1b, s);
    TimeReads(s);
    hide ParseString, ParseTimeText, Tlv;
  }

  /** What the readers find in the values of a request, in their order. */
  ghost predicate ReadsRequest(vs: seq<Tree>, realm: bytes, principal: bytes, till: bytes) {
    && |vs| == 14
    && ReadsInteger(vs[0], 5)                                    // pvno
    && ReadsInteger(vs[1], 10)                                   // msg-type
    && ReadsInteger(vs[3], 1) && ReadsString(vs[4], principal)   // cname
    && ReadsString(vs[5], realm)
    && ReadsInteger(vs[6], 2) && ReadsString(vs[7], Ascii("krbtgt")) && ReadsString(vs[8], realm)
    && ReadsTime(vs[9], till)
    && ReadsInteger(vs[10], 12345678)                            // nonce
    && ReadsInteger(vs[11], 18) && ReadsInteger(vs[12], 17) && ReadsInteger(vs[13], 23)
  }

  /** All of them. */
  function Values(realm: bytes, principal: bytes, till: bytes): seq<Tree> {
    [Int([5]), Int([10])] + Client(realm, principal) + Service(realm, till) + Etypes()
  }

  lemma ValuesAre(realm: bytes, principal: bytes, till: bytes)
    ensures Leaves([AsReqTree(realm, principal, till)]) == Values(realm, principal, till)
  {
    AsReqValues(realm, principal, till);
    Regroup([Int([5])], [Int([10])], Client(realm, principal), Service(realm, till), Etypes());
    assert [Int([5])] + [Int([10])] == [Int([5]), Int([10])];
    hide Leaves, Client, Service, Etypes;
  }

  lemma Regroup(a: seq<Tree>, b: seq<Tree>, c: seq<Tree>, d: seq<Tree>, e: seq<Tree>)
    ensures a + (b + (c + (d + e))) == a + b + c + d + e
  {
    assert c + (d + e) == c + d + e;
    assert b + (c + d + e) == b + c + d + e;
  }

  lemma ValuesAt(realm: bytes, principal: bytes, till: bytes)
    ensures var vs := Values(realm, principal, till);
            && |vs| == 14
            && vs[0] == Int([5]) && vs[1] == Int([10]) && vs[3] == Int([1]) && vs[4] == Leaf(0x1b, principal)
            && vs[5] == vs[8] == Leaf(0x1b, realm) && vs[6] == Int([2]) && vs[7] == Leaf(0x1b, KRBTGT)
            && vs[9] == Leaf(0x18, till) && vs[10] == Int([0x00, 0xbc, 0x61, 0x4e])
            && vs[11] == Int([18]) && vs[12] == Int([17]) && vs[13] == Int([23])
  {
    hide Int;
    var a, b, c, d := [Int([5]), Int([10])], Client(realm, principal), Service(realm, till), Etypes();
    assert |a| == 2 && |b| == 4 && |c| == 4 && |d| == 4;
    Indices(a, b, c, d);
    hide Client, Service, Etypes;
    var vs := Values(realm, principal, till);
    assert vs == a + b + c + d;
  }

  lemma Indices(a: seq<Tree>, b: seq<Tree>, c: seq<Tree>, d: seq<Tree>)
    requires |a| == 2 && |b| == 4 && |c| == 4 && |d| == 4
    ensures var vs := a + b + c + d;
            && |vs| == 14 && vs[0] == a[0] && vs[1] == a[1] && vs[3] == b[1] && vs[4] == b[2] && vs[5] == b[3]
            && vs[6] == c[0] && vs[7] == c[1] && vs[8] == c[2] && vs[9] == c[3]
            && vs[10] == d[0] && vs[11] == d[1] && vs[12] == d[2] && vs[13] == d[3]
  {
  }

  lemma ValuesRead(realm: bytes, principal: bytes, till: bytes)
    requires |till| == 15 && |realm| <= 115 && |principal| <= 123
    ensures ReadsRequest(Values(realm, principal, till), realm, principal, till)
  {
    ValuesAt(realm, principal, till);
    assert Ascii("krbtgt") == KRBTGT by {
      assert |Ascii("krbtgt")| == 6;
    }
    hide Values, Int, ReadsInteger, ReadsString, ReadsTime, Ascii;
    NonceReads();
    SmallReads(5);
    SmallReads(10);
    SmallReads(1);
    SmallReads(2);
    SmallReads(18);
    SmallReads(17);
    SmallReads(23);
    TextReads(principal);
    TextReads(realm);
    TextReads(KRBTGT);
    TextReads(till);
  }

  /** The tags of section 5.4.1, of a request taken apart: APPLICATION 10; pvno [1], msg-type [2] and
      req-body [4]; in the body kdc-options [0], cname [1], realm [2], sname [3], till [5], nonce [7]
      and etype [8]; and the universal types of the values, INTEGER 2, BIT STRING 3, GeneralString 27,
      GeneralizedTime 24. */
  lemma RequestShape(realm: bytes, principal: bytes, till: bytes)
    requires |till| == 15 && |realm| <= 115 && |principal| <= 123
    ensures DecodeAll(AsReq(realm, principal, till)).Some?
    ensures var ts := DecodeAll(AsReq(realm, principal, till)).value;
            && Tags(ts) == [0x60 + 10] && ts[0].Node? && Tags(ts[0].kids) == [0x30] && ts[0].kids[0].Node?
            && var fields := ts[0].kids[0].kids;
               && Tags(fields) == [0xa0 + 1, 0xa0 + 2, 0xa0 + 4] && fields[2].Node?
               && Tags(fields[2].kids) == [0x30] && fields[2].kids[0].Node?
               && Tags(fields[2].kids[0].kids)
                  == [0xa0, 0xa0 + 1, 0xa0 + 2, 0xa0 + 3, 0xa0 + 5, 0xa0 + 7, 0xa0 + 8]
  {
    AsReqDecodes(realm, principal, till);
    hide DecodeAll, AsReq, Leaves, SnameTree, CnameTree;
    BodyTags(realm, principal, till);
    hide BodyTrees;
  }

  lemma BodyTags(realm: bytes, principal: bytes, till: bytes)
    ensures Tags(BodyTrees(realm, principal, till))
            == [0xa0, 0xa0 + 1, 0xa0 + 2, 0xa0 + 3, 0xa0 + 5, 0xa0 + 7, 0xa0 + 8]
  {
  }

  lemma ValueTags(realm: bytes, principal: bytes, till: bytes)
    requires |till| == 15 && |realm| <= 115 && |principal| <= 123
    ensures DecodeAll(AsReq(realm, principal, till)).Some?
    ensures Tags(Leaves(DecodeAll(AsReq(realm, principal, till)).value))
            == [2, 2, 3, 2, 27, 27, 2, 27, 27, 24, 2, 2, 2, 2]
  {
    hide DecodeAll, AsReq, AsReqTree, Leaves;
    AsReqDecodes(realm, principal, till);
    ValuesAre(realm, principal, till);
  }

  function Tags(ts: seq<Tree>): seq<byte> {
    seq(|ts|, i requires 0 <= i < |ts| => ts[i].tag)
  }

  /** Bit i of a BIT STRING's content, counted from the most significant; its first octet counts the
      unused bits at the end. */
  predicate BitOf(content: bytes, i: nat)
    requires 1 + i / 8 < |content|
  {
    (content[1 + i / 8] as int) / Weight(7 - i % 8) % 2 == 1
  }

  function Weight(n: nat): nat
    ensures Weight(n) > 0
  {
    if n == 0 then 1 else 2 * Weight(n - 1)
  }

  lemma OptionBits(i: nat)
    requires i < 32
    ensures BitOf([0x00, 0x40, 0x81, 0x00, 0x10], i) <==> i in {1, 8, 15, 27}
  {
    Weights();
    hide Weight;
  }

  /** The options asked for are forwardable (1), renewable (8), canonicalize (15) and renewable-ok
      (27); proxiable (3), which the source's comment names, is not. */
  lemma OptionsAre(realm: bytes, principal: bytes, till: bytes, i: nat)
    requires i < 32 && |till| == 15 && |realm| <= 115 && |principal| <= 123
    ensures DecodeAll(AsReq(realm, principal, till)).Some?
    ensures var vs := Leaves(DecodeAll(AsReq(realm, principal, till)).value);
            && |vs| > 2 && vs[2].Leaf? && |vs[2].content| == 5 && vs[2].content[0] == 0
            && (BitOf(vs[2].content, i) <==> i in {1, 8, 15, 27})
  {
    hide DecodeAll, AsReq, AsReqTree, Leaves, BitOf;
    AsReqDecodes(realm, principal, till);
    ValuesAre(realm, principal, till);
    assert Values(realm, principal, till)[2] == Leaf(0x03, [0x00, 0x40, 0x81, 0x00, 0x10]);
    OptionBits(i);
  }

  lemma Weights()
    ensures Weight(0) == 1 && Weight(1) == 2 && Weight(2) == 4 && Weight(3) == 8
    ensures Weight(4) == 16 && Weight(5) == 32 && Weight(6) == 64 && Weight(7) == 128
  {
    assert Weight(4) == 2 * Weight(3);
    assert Weight(7) == 2 * Weight(6);
  }

  /** Within the builder's bounds the file's own readers recover every value from the octets. */
  lemma RequestReads(realm: bytes, principal: bytes, till: bytes)
    requires |till| == 15 && |realm| <= 115 && |principal| <= 123
    ensures DecodeAll(AsReq(realm, principal, till)).Some?
    ensures ReadsRequest(Leaves(DecodeAll(AsReq(realm, principal, till)).value), realm, principal, till)
  {
    hide DecodeAll, AsReq, AsReqTree, Leaves, ReadsRequest, Values;
    AsReqDecodes(realm, principal, till);
    ValuesAre(realm, principal, till);
    ValuesRead(realm, principal, till);
  }
}
