/** The AS-REQ encoder and the KRB-ERROR decoder of pkg/probers/kerberos.go
    (sections 5.4.1 and 5.9.1 of RFC 4120). */
module Kerberos {
  import opened Bytes
  import opened Wrappers
  import opened Der

  const KRBTGT: bytes := [107, 114, 98, 116, 103, 116]
  const SLASH: byte := 47

  // ---------------------------------------------------------------- AS-REQ

  /** byte(n) */
  function Truncate(n: nat): byte {
    n % 256
  }

  /** name-type and name-string as the builder writes them: all four lengths are single octets. */
  function NameField(nameType: byte, strings: bytes): bytes {
    [0xa0, 0x03, 0x02, 0x01, nameType]
    + [0xa1, Truncate(|strings| + 2), 0x30, Truncate(|strings|)]
    + strings
  }

  function ShortString(s: bytes): bytes {
    [0x1b, Truncate(|s|)] + s
  }

  /** Beyond 255 octets the length octet wraps: a string of 256 is announced as empty. */
  lemma LengthWraps(s: bytes)
    ensures ShortString(s)[..2] == [0x1b, |s| % 256] && ShortString(s)[2..] == s
    ensures |s| == 256 ==> ShortString(s)[1] == 0
  {
  }

  const KDC_OPTIONS: bytes := [0xa0, 0x07, 0x03, 0x05, 0x00, 0x40, 0x81, 0x00, 0x10]
  const NONCE: bytes := [0x02, 0x04, 0x00, 0xbc, 0x61, 0x4e]
  const ETYPES: bytes := [0x02, 0x01, 0x12, 0x02, 0x01, 0x11, 0x02, 0x01, 0x17]
  const PVNO: bytes := [0xa1, 0x03, 0x02, 0x01, 0x05]
  const MSG_TYPE: bytes := [0xa2, 0x03, 0x02, 0x01, 0x0a]

  function CnameSeq(principal: bytes): bytes {
    Wrap(0x30, NameField(1, ShortString(principal)))
  }

  function SnameSeq(realm: bytes): bytes {
    Wrap(0x30, NameField(2, ShortString(KRBTGT) + ShortString(realm)))
  }

  function Body(realm: bytes, principal: bytes, till: bytes): bytes {
    KDC_OPTIONS
    + Wrap(0xa1, CnameSeq(principal))
    + Wrap(0xa2, Wrap(0x1b, realm))
    + Wrap(0xa3, SnameSeq(realm))
    + Wrap(0xa5, Wrap(0x18, till))
    + Wrap(0xa7, NONCE)
    + Wrap(0xa8, Wrap(0x30, ETYPES))
  }

  function AsReq(realm: bytes, principal: bytes, till: bytes): bytes {
    Wrap(0x6a, Wrap(0x30, PVNO + MSG_TYPE + Wrap(0xa4, Wrap(0x30, Body(realm, principal, till)))))
  }

  // The message of section 5.4.1 as a DER value.

  function Int(content: bytes): Tree {
    Leaf(0x02, content)
  }

  function NameTree(nameType: byte, strings: seq<Tree>): Tree {
    Node(0x30, [Node(0xa0, [Int([nameType])]), Node(0xa1, [Node(0x30, strings)])])
  }

  function CnameTree(principal: bytes): Tree {
    NameTree(1, [Leaf(0x1b, principal)])
  }

  function SnameTree(realm: bytes): Tree {
    NameTree(2, [Leaf(0x1b, KRBTGT), Leaf(0x1b, realm)])
  }

  function BodyTrees(realm: bytes, principal: bytes, till: bytes): seq<Tree> {
    [ Node(0xa0, [Leaf(0x03, [0x00, 0x40, 0x81, 0x00, 0x10])]),  // kdc-options
      Node(0xa1, [CnameTree(principal)]),
      Node(0xa2, [Leaf(0x1b, realm)]),
      Node(0xa3, [SnameTree(realm)]),
      Node(0xa5, [Leaf(0x18, till)]),
      Node(0xa7, [Int([0x00, 0xbc, 0x61, 0x4e])]),                // nonce 12345678
      Node(0xa8, [Node(0x30, [Int([18]), Int([17]), Int([23])])]) ]
  }

  function AsReqTree(realm: bytes, principal: bytes, till: bytes): Tree {
    Node(0x6a, [Node(0x30, [
      Node(0xa1, [Int([5])]),
      Node(0xa2, [Int([10])]),
      Node(0xa4, [Node(0x30, BodyTrees(realm, principal, till))])])])
  }

  /** buildKerberosASREQ; `till` is the formatted time of tomorrow. */
  method BuildKerberosASREQ(realm: bytes, principal: bytes, till: bytes) returns (out: bytes)
    ensures out == AsReq(realm, principal, till)
    ensures |till| == 15 ==>
              (out == Encode(AsReqTree(realm, principal, till)) <==> |realm| <= 115 && |principal| <= 123)
  {
    hide Wrap, Tlv, Encode, AsReqTree;
    var cnameBuf: bytes := [0xa0, 0x03, 0x02, 0x01, 0x01];
    var cnameStrSeq: bytes := [0x1b];
    cnameStrSeq := cnameStrSeq + [|principal| % 256];
    cnameStrSeq := cnameStrSeq + principal;
    cnameBuf := cnameBuf + [0xa1, (|cnameStrSeq| + 2) % 256, 0x30, |cnameStrSeq| % 256];
    cnameBuf := cnameBuf + cnameStrSeq;
    assert cnameStrSeq == ShortString(principal);
    var cnameSeq := WrapASN1(0x30, cnameBuf);
    var cnameWrapped := WrapASN1(0xa1, cnameSeq);

    assert cnameSeq == CnameSeq(principal);

    var realmBytes := WrapASN1(0x1b, realm);
    var realmWrapped := WrapASN1(0xa2, realmBytes);

    var snameBuf: bytes := [0xa0, 0x03, 0x02, 0x01, 0x02];
    var snameStrSeq: bytes := [0x1b];
    snameStrSeq := snameStrSeq + [6];
    snameStrSeq := snameStrSeq + KRBTGT;
    snameStrSeq := snameStrSeq + [0x1b];
    snameStrSeq := snameStrSeq + [|realm| % 256];
    snameStrSeq := snameStrSeq + realm;
    snameBuf := snameBuf + [0xa1, (|snameStrSeq| + 2) % 256, 0x30, |snameStrSeq| % 256];
    snameBuf := snameBuf + snameStrSeq;
    assert snameStrSeq == ShortString(KRBTGT) + ShortString(realm) by {
      assert ShortString(KRBTGT) == [0x1b] + [6] + KRBTGT;
      assert ShortString(realm) == [0x1b] + [|realm| % 256] + realm;
    }
    var snameSeq := WrapASN1(0x30, snameBuf);
    var snameWrapped := WrapASN1(0xa3, snameSeq);

    assert snameSeq == SnameSeq(realm);

    var tillBytes := WrapASN1(0x18, till);
    var tillWrapped := WrapASN1(0xa5, tillBytes);
    var nonceWrapped := WrapASN1(0xa7, [0x02, 0x04, 0x00, 0xbc, 0x61, 0x4e]);
    var etypeSeq := WrapASN1(0x30, [0x02, 0x01, 0x12, 0x02, 0x01, 0x11, 0x02, 0x01, 0x17]);
    var etypeWrapped := WrapASN1(0xa8, etypeSeq);

    var bodyBuf: bytes := [0xa0, 0x07, 0x03, 0x05, 0x00, 0x40, 0x81, 0x00, 0x10];
    bodyBuf := bodyBuf + cnameWrapped;
    bodyBuf := bodyBuf + realmWrapped;
    bodyBuf := bodyBuf + snameWrapped;
    bodyBuf := bodyBuf + tillWrapped;
    bodyBuf := bodyBuf + nonceWrapped;
    bodyBuf := bodyBuf + etypeWrapped;
    assert bodyBuf == Body(realm, principal, till);
    var reqBody := WrapASN1(0x30, bodyBuf);
    var reqBodyWrapped := WrapASN1(0xa4, reqBody);

    var kdcReqBuf: bytes := [0xa1, 0x03, 0x02, 0x01, 0x05];
    kdcReqBuf := kdcReqBuf + [0xa2, 0x03, 0x02, 0x01, 0x0a];
    kdcReqBuf := kdcReqBuf + reqBodyWrapped;
    var kdcReqSeq := WrapASN1(0x30, kdcReqBuf);
    out := WrapASN1(0x6a, kdcReqSeq);
    if |till| == 15 {
      AsReqIsDer(realm, principal, till);
    }
  }

  lemma EncodeAllOne(t: Tree)
    ensures EncodeAll([t]) == Encode(t)
  {
    assert ([t])[1..] == [];
    assert EncodeAll([]) == [];
  }

  lemma EncodeAllCons(t: Tree, ts: seq<Tree>)
    ensures EncodeAll([t] + ts) == Encode(t) + EncodeAll(ts)
  {
    assert ([t] + ts)[1..] == ts;
  }

  lemma {:induction false} EncodeAllConcat(ts: seq<Tree>, us: seq<Tree>)
    ensures EncodeAll(ts + us) == EncodeAll(ts) + EncodeAll(us)
  {
    hide Encode;
    if |ts| == 0 {
      assert ts + us == us;
    } else {
      EncodeAllConcat(ts[1..], us);
      assert (ts + us)[1..] == ts[1..] + us;
      assert EncodeAll(ts + us) == Encode(ts[0]) + EncodeAll(ts[1..] + us);
    }
  }

  lemma EncodeNode1(tag: byte, t: Tree)
    ensures Encode(Node(tag, [t])) == Tlv(tag, Encode(t))
  {
    EncodeAllOne(t);
  }

  lemma EncodeAll2(t: Tree, u: Tree)
    ensures EncodeAll([t, u]) == Encode(t) + Encode(u)
  {
    EncodeAllCons(t, [u]);
    EncodeAllOne(u);
    assert [t] + [u] == [t, u];
  }

  lemma EncodeAll3(t: Tree, u: Tree, v: Tree)
    ensures EncodeAll([t, u, v]) == Encode(t) + Encode(u) + Encode(v)
  {
    EncodeAllCons(t, [u, v]);
    EncodeAll2(u, v);
    assert [t] + [u, v] == [t, u, v];
  }

  /** The DER size of n content octets. */
  function TlvSize(n: nat): nat {
    1 + |LengthOctets(n)| + n
  }

  function WrapSize(n: nat): nat {
    (if n < 128 then 2 else if n < 256 then 3 else 4) + n
  }

  /** wrapASN1 never writes more than DER needs for as much content, and strictly less for less. */
  lemma SizesGrow(m: nat, n: nat)
    requires m <= n
    ensures WrapSize(m) <= TlvSize(n)
    ensures m < n ==> WrapSize(m) < TlvSize(n)
    ensures 2 + n <= TlvSize(n)
    ensures n >= 128 ==> 3 + n <= TlvSize(n)
  {
    BigEndianSize(n);
  }

  /** What the builder wrote for t is t's encoding, or too short to be. */
  predicate Fits(written: bytes, t: Tree) {
    written == Encode(t) || |written| < |Encode(t)|
  }

  /** One header around content that was written right, or too short. */
  lemma WrapFits(tag: byte, written: bytes, content: bytes)
    requires written == content || |written| < |content|
    ensures written == content && |written| < 65536 ==> Wrap(tag, written) == Tlv(tag, content)
    ensures |written| < |content| ==> |Wrap(tag, written)| < |Tlv(tag, content)|
    ensures |Wrap(tag, written)| <= |written| + 4
    ensures Wrap(tag, written) == Tlv(tag, content) || |Wrap(tag, written)| < |Tlv(tag, content)|
  {
    WrapIsDer(tag, written);
    SizesGrow(|written|, |content|);
  }

  /** One field around a value. */
  lemma FieldFits(tag: byte, written: bytes, t: Tree)
    requires Fits(written, t)
    ensures Fits(Wrap(tag, written), Node(tag, [t]))
    ensures |written| < 65536 && written == Encode(t) ==> Wrap(tag, written) == Encode(Node(tag, [t]))
    ensures |written| < |Encode(t)| ==> |Wrap(tag, written)| < |Encode(Node(tag, [t]))|
  {
    EncodeNode1(tag, t);
    hide Encode, Wrap, Tlv;
    WrapFits(tag, written, Encode(t));
  }

  /** name-type and name-string: right as long as the outer length still fits the short form. */
  lemma NameFieldFits(nameType: byte, written: bytes, strings: bytes)
    requires if |strings| < 126 then written == strings else |written| <= |strings|
    ensures var fields := Tlv(0xa0, Tlv(0x02, [nameType])) + Tlv(0xa1, Tlv(0x30, strings));
            if |strings| < 126 then NameField(nameType, written) == fields
            else |NameField(nameType, written)| < |fields|
  {
    var n := |strings|;
    assert Tlv(0xa0, Tlv(0x02, [nameType])) == [0xa0, 0x03, 0x02, 0x01, nameType];
    if n < 126 {
      assert Tlv(0xa1, Tlv(0x30, strings)) == [0xa1, n + 2] + ([0x30, n] + strings);
    } else {
      SizesGrow(n, n);
      SizesGrow(TlvSize(n), TlvSize(n));
    }
  }

  lemma NameFits(nameType: byte, strings: seq<Tree>, written: bytes)
    requires if |EncodeAll(strings)| < 126 then written == EncodeAll(strings) else |written| <= |EncodeAll(strings)|
    ensures if |EncodeAll(strings)| < 126
            then Wrap(0x30, NameField(nameType, written)) == Encode(NameTree(nameType, strings))
            else |Wrap(0x30, NameField(nameType, written))| < |Encode(NameTree(nameType, strings))|
  {
    var a, b := Node(0xa0, [Int([nameType])]), Node(0xa1, [Node(0x30, strings)]);
    var fields := Encode(a) + Encode(b);
    assert Encode(a) == Tlv(0xa0, Tlv(0x02, [nameType])) by { EncodeNode1(0xa0, Int([nameType])); }
    assert Encode(b) == Tlv(0xa1, Tlv(0x30, EncodeAll(strings))) by { EncodeNode1(0xa1, Node(0x30, strings)); }
    assert Encode(NameTree(nameType, strings)) == Tlv(0x30, fields) by { EncodeAll2(a, b); }
    NameFieldFits(nameType, written, EncodeAll(strings));
    assert |NameField(nameType, written)| == 9 + |written|;
    hide Encode, EncodeAll, Tlv, Wrap, NameField;
    WrapFits(0x30, NameField(nameType, written), fields);
  }

  lemma StringFits(s: bytes)
    ensures |ShortString(s)| <= |Encode(Leaf(0x1b, s))|
    ensures |s| < 128 ==> ShortString(s) == Encode(Leaf(0x1b, s)) && |Encode(Leaf(0x1b, s))| == |s| + 2
    ensures |s| >= 128 ==> |Encode(Leaf(0x1b, s))| > |s| + 2
  {
    SizesGrow(|s|, |s|);
  }

  lemma CnameFits(principal: bytes)
    ensures Fits(Wrap(0xa1, CnameSeq(principal)), Node(0xa1, [CnameTree(principal)]))
    ensures Wrap(0xa1, CnameSeq(principal)) == Encode(Node(0xa1, [CnameTree(principal)])) <==> |principal| <= 123
    ensures |principal| <= 123 ==> |Wrap(0xa1, CnameSeq(principal))| < 200
  {
    var strings := [Leaf(0x1b, principal)];
    EncodeAllOne(strings[0]);
    StringFits(principal);
    NameFits(1, strings, ShortString(principal));
    FieldFits(0xa1, CnameSeq(principal), CnameTree(principal));
  }

  lemma SnameFits(realm: bytes)
    ensures Fits(Wrap(0xa3, SnameSeq(realm)), Node(0xa3, [SnameTree(realm)]))
    ensures Wrap(0xa3, SnameSeq(realm)) == Encode(Node(0xa3, [SnameTree(realm)])) <==> |realm| <= 115
    ensures |realm| <= 115 ==> |Wrap(0xa3, SnameSeq(realm))| < 200
  {
    var strings := [Leaf(0x1b, KRBTGT), Leaf(0x1b, realm)];
    EncodeAll2(strings[0], strings[1]);
    StringFits(KRBTGT);
    StringFits(realm);
    NameFits(2, strings, ShortString(KRBTGT) + ShortString(realm));
    FieldFits(0xa3, SnameSeq(realm), SnameTree(realm));
  }

  lemma StringFieldFits(tag: byte, stringTag: byte, s: bytes)
    ensures Fits(Wrap(tag, Wrap(stringTag, s)), Node(tag, [Leaf(stringTag, s)]))
    ensures |s| <= 115 ==> Wrap(tag, Wrap(stringTag, s)) == Encode(Node(tag, [Leaf(stringTag, s)]))
  {
    WrapIsDer(stringTag, s);
    FieldFits(tag, Wrap(stringTag, s), Leaf(stringTag, s));
  }

  lemma EtypesFit()
    ensures Encode(Node(0xa8, [Node(0x30, [Int([18]), Int([17]), Int([23])])])) == Wrap(0xa8, Wrap(0x30, ETYPES))
  {
    var a, b, c := Int([18]), Int([17]), Int([23]);
    assert EncodeAll([a, b, c]) == ETYPES by {
      EncodeAll3(a, b, c);
      assert Encode(a) == [2, 1, 18] && Encode(b) == [2, 1, 17] && Encode(c) == [2, 1, 23];
    }
    assert Encode(Node(0x30, [a, b, c])) == Tlv(0x30, ETYPES);
    EncodeNode1(0xa8, Node(0x30, [a, b, c]));
    hide Encode, EncodeAll;
    WrapIsDer(0x30, ETYPES);
    WrapIsDer(0xa8, Wrap(0x30, ETYPES));
  }

  lemma ConstantsFit()
    ensures Encode(Node(0xa0, [Leaf(0x03, [0x00, 0x40, 0x81, 0x00, 0x10])])) == KDC_OPTIONS
    ensures Encode(Node(0xa7, [Int([0x00, 0xbc, 0x61, 0x4e])])) == Wrap(0xa7, NONCE)
    ensures Encode(Node(0xa8, [Node(0x30, [Int([18]), Int([17]), Int([23])])])) == Wrap(0xa8, Wrap(0x30, ETYPES))
    ensures Encode(Node(0xa1, [Int([5])])) == PVNO
    ensures Encode(Node(0xa2, [Int([10])])) == MSG_TYPE
  {
    assert Encode(Node(0xa0, [Leaf(0x03, [0x00, 0x40, 0x81, 0x00, 0x10])])) == KDC_OPTIONS by {
      EncodeNode1(0xa0, Leaf(0x03, [0x00, 0x40, 0x81, 0x00, 0x10]));
    }
    assert Encode(Node(0xa7, [Int([0x00, 0xbc, 0x61, 0x4e])])) == Wrap(0xa7, NONCE) by {
      EncodeNode1(0xa7, Int([0x00, 0xbc, 0x61, 0x4e]));
    }
    EtypesFit();
    EncodeNode1(0xa1, Int([5]));
    EncodeNode1(0xa2, Int([10]));
  }

  lemma BodyEncoding(ts: seq<Tree>)
    requires |ts| == 7
    ensures EncodeAll(ts) == Encode(ts[0]) + Encode(ts[1]) + Encode(ts[2]) + Encode(ts[3])
                             + Encode(ts[4]) + Encode(ts[5]) + Encode(ts[6])
  {
    hide Encode;
    var front, back := [ts[0], ts[1], ts[2]], [ts[3], ts[4], ts[5]];
    assert ts == front + (back + [ts[6]]);
    EncodeAllConcat(front, back + [ts[6]]);
    EncodeAllConcat(back, [ts[6]]);
    EncodeAll3(ts[0], ts[1], ts[2]);
    EncodeAll3(ts[3], ts[4], ts[5]);
    EncodeAllOne(ts[6]);
    hide EncodeAll;
  }

  lemma BodyFits(realm: bytes, principal: bytes, till: bytes)
    requires |till| == 15
    ensures if |realm| <= 115 && |principal| <= 123
            then Body(realm, principal, till) == EncodeAll(BodyTrees(realm, principal, till))
                 && |Body(realm, principal, till)| < 1000
            else |Body(realm, principal, till)| < |EncodeAll(BodyTrees(realm, principal, till))|
  {
    BodyEncoding(BodyTrees(realm, principal, till));
    ConstantsFit();
    CnameFits(principal);
    SnameFits(realm);
    StringFieldFits(0xa2, 0x1b, realm);
    StringFieldFits(0xa5, 0x18, till);
    assert |Wrap(0xa7, NONCE)| + |Wrap(0xa8, Wrap(0x30, ETYPES))| + |Wrap(0xa5, Wrap(0x18, till))| < 100;
    assert |realm| <= 115 ==> |Wrap(0xa2, Wrap(0x1b, realm))| < 200;
    hide Encode, EncodeAll, Wrap, CnameSeq, SnameSeq, CnameTree, SnameTree;
  }

  /** The builder's one-octet lengths are right, and so the whole message is the DER encoding of
      the AS-REQ, exactly for realms of up to 115 and principals of up to 123 octets. */
  lemma {:induction false} AsReqIsDer(realm: bytes, principal: bytes, till: bytes)
    requires |till| == 15
    ensures AsReq(realm, principal, till) == Encode(AsReqTree(realm, principal, till))
            <==> |realm| <= 115 && |principal| <= 123
    ensures |realm| <= 115 && |principal| <= 123 ==> |AsReq(realm, principal, till)| < 2000
  {
    var body, trees := Body(realm, principal, till), BodyTrees(realm, principal, till);
    var a, b, c := Node(0xa1, [Int([5])]), Node(0xa2, [Int([10])]), Node(0xa4, [Node(0x30, trees)]);
    BodyFits(realm, principal, till);
    hide Body, BodyTrees;
    ConstantsFit();
    EncodeAll3(a, b, c);
    assert Encode(Node(0x30, trees)) == Tlv(0x30, EncodeAll(trees));
    assert Encode(Node(0x30, [a, b, c])) == Tlv(0x30, EncodeAll([a, b, c]));
    hide Encode, EncodeAll, Wrap, Tlv;
    WrapFits(0x30, body, EncodeAll(trees));
    FieldFits(0xa4, Wrap(0x30, body), Node(0x30, trees));
    WrapFits(0xa4, Wrap(0x30, body), Wrap(0x30, body));
    var req := PVNO + MSG_TYPE + Wrap(0xa4, Wrap(0x30, body));
    WrapFits(0x30, req, EncodeAll([a, b, c]));
    FieldFits(0x6a, Wrap(0x30, req), Node(0x30, [a, b, c]));
    WrapFits(0x6a, Wrap(0x30, req), Wrap(0x30, req));
  }

  lemma Tagged(tag: byte, kids: seq<Tree>)
    requires Constructed(tag) && |kids| <= 3
    requires |kids| > 0 ==> WellTagged(kids[0])
    requires |kids| > 1 ==> WellTagged(kids[1])
    requires |kids| > 2 ==> WellTagged(kids[2])
    ensures WellTagged(Node(tag, kids))
  {
  }

  lemma NameTagged(nameType: byte, strings: seq<Tree>)
    requires WellTagged(Node(0x30, strings))
    ensures WellTagged(NameTree(nameType, strings))
  {
    Tagged(0xa0, [Int([nameType])]);
    Tagged(0xa1, [Node(0x30, strings)]);
    Tagged(0x30, [Node(0xa0, [Int([nameType])]), Node(0xa1, [Node(0x30, strings)])]);
  }

  lemma AsReqTreeTagged(realm: bytes, principal: bytes, till: bytes)
    ensures WellTagged(AsReqTree(realm, principal, till))
  {
    var trees := BodyTrees(realm, principal, till);
    assert forall i | 0 <= i < |trees| :: WellTagged(trees[i]) by {
      Tagged(0x30, [Leaf(0x1b, principal)]);
      NameTagged(1, [Leaf(0x1b, principal)]);
      Tagged(0x30, [Leaf(0x1b, KRBTGT), Leaf(0x1b, realm)]);
      NameTagged(2, [Leaf(0x1b, KRBTGT), Leaf(0x1b, realm)]);
      Tagged(0xa1, [CnameTree(principal)]);
      Tagged(0xa3, [SnameTree(realm)]);
      Tagged(0xa0, [Leaf(0x03, [0x00, 0x40, 0x81, 0x00, 0x10])]);
      Tagged(0xa2, [Leaf(0x1b, realm)]);
      Tagged(0xa5, [Leaf(0x18, till)]);
      Tagged(0xa7, [Int([0x00, 0xbc, 0x61, 0x4e])]);
      Tagged(0x30, [Int([18]), Int([17]), Int([23])]);
      Tagged(0xa8, [Node(0x30, [Int([18]), Int([17]), Int([23])])]);
      hide WellTagged;
    }
    assert WellTagged(Node(0x30, trees));
    hide BodyTrees;
    Tagged(0xa1, [Int([5])]);
    Tagged(0xa2, [Int([10])]);
    Tagged(0xa4, [Node(0x30, trees)]);
    Tagged(0x30, [Node(0xa1, [Int([5])]), Node(0xa2, [Int([10])]), Node(0xa4, [Node(0x30, trees)])]);
    Tagged(0x6a, [Node(0x30, [Node(0xa1, [Int([5])]), Node(0xa2, [Int([10])]), Node(0xa4, [Node(0x30, trees)])])]);
  }

  /** Within those bounds the file's own length reader takes the message apart again, down to
      pvno 5, msg-type 10, both names, the realm, the nonce and the three encryption types. */
  lemma {:induction false} AsReqDecodes(realm: bytes, principal: bytes, till: bytes)
    requires |till| == 15 && |realm| <= 115 && |principal| <= 123
    ensures DecodeAll(AsReq(realm, principal, till)) == Some([AsReqTree(realm, principal, till)])
  {
    hide AsReq, AsReqTree, Encode, DecodeAll, WellTagged;
    var t := AsReqTree(realm, principal, till);
    AsReqIsDer(realm, principal, till);
    AsReqTreeTagged(realm, principal, till);
    EncodeAllOne(t);
    DecodesForest([t]);
  }
}
