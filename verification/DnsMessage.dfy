/** buildDNSQuery and dissectDNSResponse of pkg/probers/dns_query.go
    (sections 4.1.1 to 4.1.4 of RFC 1035). */
module DnsMessage {
  import opened Bytes
  import opened Wrappers
  import opened DnsName

  // ---------------------------------------------------------------- the query

  type LabelText = l: bytes | 0 < |l| <= 63 witness [0]

  /** The parts that fit a label; the encoder silently skips the others. */
  function Kept(parts: seq<bytes>): seq<LabelText> {
    if |parts| == 0 then []
    else if 0 < |parts[0]| <= 63 then [parts[0]] + Kept(parts[1..])
    else Kept(parts[1..])
  }

  function EncodeLabels(labels: seq<LabelText>): bytes {
    if |labels| == 0 then [] else [|labels[0]|] + labels[0] + EncodeLabels(labels[1..])
  }

  const QUERY_HEADER: bytes := [0xab, 0xcd, 0x01, 0x00, 0x00, 0x01, 0x00, 0x00, 0x00, 0x00, 0x00, 0x00]
  const TYPE_A_CLASS_IN: bytes := [0x00, 0x01, 0x00, 0x01]

  function Query(domain: bytes): bytes {
    QUERY_HEADER + EncodeLabels(Kept(Split(domain, DOT))) + [0] + TYPE_A_CLASS_IN
  }

  lemma {:induction false} KeptAppend(parts: seq<bytes>, part: bytes)
    ensures Kept(parts + [part]) == Kept(parts) + (if 0 < |part| <= 63 then [part] else [])
  {
    if |parts| == 0 {
      assert (parts + [part])[1..] == [];
    } else {
      assert (parts + [part])[1..] == parts[1..] + [part];
      KeptAppend(parts[1..], part);
    }
  }

  lemma {:induction false} EncodeLabelsAppend(labels: seq<LabelText>, l: LabelText)
    ensures EncodeLabels(labels + [l]) == EncodeLabels(labels) + ([|l|] + l)
  {
    if |labels| == 0 {
      assert EncodeLabels(([l])[1..]) == [];
      assert labels + [l] == [l];
    } else {
      assert (labels + [l])[1..] == labels[1..] + [l];
      EncodeLabelsAppend(labels[1..], l);
    }
  }

  method BuildDNSQuery(domain: bytes) returns (buf: bytes)
    ensures buf == Query(domain)
  {
    buf := [0xab, 0xcd];
    buf := buf + [0x01, 0x00];
    buf := buf + [0x00, 0x01];
    buf := buf + [0x00, 0x00];
    buf := buf + [0x00, 0x00];
    buf := buf + [0x00, 0x00];
    var parts := Split(domain, DOT);
    for i := 0 to |parts|
      invariant buf == QUERY_HEADER + EncodeLabels(Kept(parts[..i]))
    {
      var part := parts[i];
      assert parts[..i + 1] == parts[..i] + [part];
      KeptAppend(parts[..i], part);
      if |part| == 0 || |part| > 63 {
        assert Kept(parts[..i]) + [] == Kept(parts[..i]);
        continue;
      }
      EncodeLabelsAppend(Kept(parts[..i]), part);
      assert buf + [|part|] + part == QUERY_HEADER + (EncodeLabels(Kept(parts[..i])) + ([|part|] + part));
      buf := buf + [|part|];
      buf := buf + part;
    }
    assert parts[..|parts|] == parts;
    buf := buf + [0x00];
    buf := buf + [0x00, 0x01];
    buf := buf + [0x00, 0x01];
  }

  /** The derivation of an uncompressed name. */
  function Plain(labels: seq<LabelText>): Derivation {
    if |labels| == 0 then Root else Label(labels[0], Plain(labels[1..]))
  }

  lemma LabelStands(msg: bytes, offset: nat, l: LabelText, rest: bytes)
    requires Stands(msg, offset, [|l|] + (l + rest))
    ensures offset < |msg| && msg[offset] == |l|
    ensures Stands(msg, offset + 1, l) && Stands(msg, offset + 1 + |l|, rest)
  {
    hide Stands;
    StandsParts(msg, offset, [|l|], l + rest);
    StandsOctet(msg, offset, [|l|], 0);
    StandsParts(msg, offset + 1, l, rest);
  }

  lemma LabelsStand(msg: bytes, offset: nat, labels: seq<LabelText>)
    requires Stands(msg, offset, EncodeLabels(labels) + [0])
    ensures |labels| == 0 ==> offset < |msg| && msg[offset] == 0
    ensures |labels| > 0 ==>
              var l := labels[0];
              && offset < |msg| && msg[offset] == |l|
              && Stands(msg, offset + 1, l)
              && Stands(msg, offset + 1 + |l|, EncodeLabels(labels[1..]) + [0])
  {
    hide Stands;
    if |labels| == 0 {
      assert EncodeLabels(labels) + [0] == [0];
      StandsOctet(msg, offset, [0], 0);
    } else {
      var l, rest := labels[0], EncodeLabels(labels[1..]) + [0];
      assert EncodeLabels(labels) + [0] == [|l|] + (l + rest);
      LabelStands(msg, offset, l, rest);
    }
  }

  lemma {:induction false} PlainEncodes(msg: bytes, offset: nat, labels: seq<LabelText>)
    requires Stands(msg, offset, EncodeLabels(labels) + [0])
    ensures Encodes(msg, offset, Plain(labels))
    decreases |labels|
  {
    hide EncodeLabels;
    LabelsStand(msg, offset, labels);
    if |labels| > 0 {
      PlainEncodes(msg, offset + 1 + |labels[0]|, labels[1..]);
    }
  }

  lemma {:induction false} PlainMeans(offset: nat, labels: seq<LabelText>)
    ensures Labels(Plain(labels)) == labels
    ensures End(offset, Plain(labels)) == offset + |EncodeLabels(labels)| + 1
    decreases |labels|
  {
    if |labels| > 0 {
      PlainMeans(offset + 1 + |labels[0]|, labels[1..]);
    }
  }

  lemma QueryEncodesName(domain: bytes)
    ensures var kept := Kept(Split(domain, DOT));
            && Encodes(Query(domain), 12, Plain(kept))
            && End(12, Plain(kept)) == |Query(domain)| - 4
            && Labels(Plain(kept)) == kept
  {
    var kept := Kept(Split(domain, DOT));
    var name := EncodeLabels(kept) + [0];
    assert Query(domain) == QUERY_HEADER + name + TYPE_A_CLASS_IN;
    assert Query(domain)[12..12 + |name|] == name;
    PlainEncodes(Query(domain), 12, kept);
    PlainMeans(12, kept);
  }

  lemma {:induction false} KeptIsShorter(parts: seq<bytes>)
    ensures |Join(Kept(parts), DOT)| <= |Join(parts, DOT)|
    ensures |Kept(parts)| <= |parts|
    ensures (forall p | p in parts :: 0 < |p| <= 63) ==> Kept(parts) == parts
    ensures |parts| > 1 && !(forall p | p in parts :: 0 < |p| <= 63)
            ==> |Join(Kept(parts), DOT)| < |Join(parts, DOT)|
  {
    if |parts| > 0 {
      KeptIsShorter(parts[1..]);
      assert forall p | p in parts :: p == parts[0] || p in parts[1..];
      assert |parts| == 2 ==> parts[1..] == [parts[1]];
      assert Kept(parts) == [parts[0]] + Kept(parts[1..]) ==> Kept(parts)[1..] == Kept(parts[1..]);
      if |parts| > 1 && |Kept(parts[1..])| == 0 && |parts[0]| > 0 {
        assert parts[1] in parts;
      }
    }
  }

  /** Every part between dots is a label. */
  predicate AllLabels(domain: bytes) {
    forall p | p in Split(domain, DOT) :: 0 < |p| <= 63
  }

  /** The walker reads back, from offset 12, the labels that were kept, and stops in front of
      type and class; the domain itself comes back exactly when no part had to be skipped. */
  lemma {:induction false} QueryNameRoundTrip(domain: bytes)
    ensures var kept := Kept(Split(domain, DOT));
            && ParseName(Query(domain), 12) == Name(kept, |Query(domain)| - 4)
            && (Join(kept, DOT) == domain <==> domain == [] || AllLabels(domain))
  {
    var parts := Split(domain, DOT);
    var kept := Kept(parts);
    QueryEncodesName(domain);
    EncodedNameParses(Query(domain), 12, Plain(kept));
    SplitJoins(domain, DOT);
    KeptIsShorter(parts);
    if |parts| == 1 {
      assert parts[0] == domain;
      assert Kept(parts[1..]) == [];
      assert forall p | p in parts :: p == domain;
      assert domain in parts;
    }
  }

  /** A domain written with full stops between its labels is asked for by these labels. */
  lemma DottedDomain(labels: seq<LabelText>)
    requires |labels| > 0 && forall l | l in labels :: Ascii(".")[0] !in l
    ensures var msg := Query(Join(labels, Ascii(".")[0]));
            ParseName(msg, 12) == Name(labels, |msg| - 4)
  {
    assert Ascii(".")[0] == DOT;
    var parts: seq<bytes> := labels;
    JoinSplits(parts, DOT);
    KeptIsShorter(parts);
    QueryNameRoundTrip(Join(labels, DOT));
    hide Query, ParseName, Join, Split, Kept;
  }

  /** The fixed fields of a query: ID, RD alone, one question, no records; type A, class IN. */
  lemma QueryFields(domain: bytes)
    ensures var msg := Query(domain);
            && |msg| >= 17
            && U16(msg, 0) == 0xabcd && U16(msg, 2) == 0x100 && U16(msg, 4) == 1
            && U16(msg, 6) == U16(msg, 8) == U16(msg, 10) == 0
            && msg[|msg| - 5] == 0 && U16(msg, |msg| - 4) == 1 && U16(msg, |msg| - 2) == 1
  {
    var msg, n := Query(domain), |Query(domain)|;
    assert forall i | 0 <= i < 12 :: msg[i] == QUERY_HEADER[i];
    assert forall i | 0 <= i < 4 :: msg[n - 4 + i] == TYPE_A_CLASS_IN[i];
  }

  // ---------------------------------------------------------------- the response

  datatype Rcode = NOERROR | FORMERR | SERVFAIL | NXDOMAIN | REFUSED | OTHER(code: nat)
  datatype Flag = AA | TC | RD | RA

  /** net.IP(rdata).String() is left abstract as the octets it prints. */
  datatype Answer = Address(ip: bytes) | Cname(name: bytes)

  datatype Reply = Reply(
    rcode: Rcode, flags: seq<Flag>, answers: seq<Answer>, minTTL: nat, questionsCnt: nat, answersCnt: nat)

  /** Hangs is a call that never returns because a name walk it makes never does. */
  datatype Dissection = TooShort | Hangs | Parsed(reply: Reply)

  function RcodeOf(flags: nat): Rcode {
    match flags % 16
    case 0 => NOERROR
    case 1 => FORMERR
    case 2 => SERVFAIL
    case 3 => NXDOMAIN
    case 5 => REFUSED
    case code => OTHER(code)
  }

  function FlagsOf(flags: nat): seq<Flag> {
    (if flags / 0x400 % 2 == 1 then [AA] else [])
    + (if flags / 0x200 % 2 == 1 then [TC] else [])
    + (if flags / 0x100 % 2 == 1 then [RD] else [])
    + (if flags / 0x80 % 2 == 1 then [RA] else [])
  }

  /** The question loop: where the answers start, or None when a walk never returns. */
  function SkipQuestions(msg: bytes, offset: nat, n: nat): Option<nat>
    decreases n
  {
    if n == 0 then Some(offset)
    else
      match ParseName(msg, offset)
      case Loops => None
      case Malformed(_) => Some(offset)
      case Name(_, next) =>
        if next + 4 > |msg| then Some(next + 4) else SkipQuestions(msg, next + 4, n - 1)
  }

  function Lower(minTTL: nat, ttl: nat): nat {
    if minTTL == 0 || (ttl > 0 && ttl < minTTL) then ttl else minTTL
  }

  datatype Gathered = Gathered(answers: seq<Answer>, minTTL: nat)

  /** What the record body at `body` adds to the answers (None: its name walk never returns). */
  function AnswerAt(msg: bytes, rrType: nat, body: nat, rdLength: nat): Option<seq<Answer>>
    requires body + rdLength <= |msg|
  {
    if (rrType == 1 && rdLength == 4) || (rrType == 28 && rdLength == 16) then
      Some([Address(msg[body..body + rdLength])])
    else if rrType == 5 then
      match ParseName(msg, body)
      case Loops => None
      case Malformed(_) => Some([])
      case Name(labels, _) => Some(if Join(labels, DOT) != [] then [Cname(Join(labels, DOT))] else [])
    else Some([])
  }

  /** One iteration of the answer loop: it leaves, hangs in a name walk, or goes on behind the record. */
  datatype Iteration = Leave(acc: Gathered) | Hang | GoOn(offset: nat, acc: Gathered)

  function ReadRecord(msg: bytes, offset: nat, acc: Gathered): Iteration {
    if offset >= |msg| then Leave(acc)
    else
      match ParseName(msg, offset)
      case Loops => Hang
      case Malformed(_) => Leave(acc)
      case Name(_, o) => if o + 10 > |msg| then Leave(acc) else ReadBody(msg, o, acc)
  }

  /** The same, behind the owner name. */
  function ReadBody(msg: bytes, o: nat, acc: Gathered): Iteration
    requires o + 10 <= |msg|
  {
    var minTTL := Lower(acc.minTTL, U32(msg, o + 4));
    var rdLength := U16(msg, o + 8);
    if o + 10 + rdLength > |msg| then Leave(Gathered(acc.answers, minTTL))
    else
      match AnswerAt(msg, U16(msg, o), o + 10, rdLength)
      case None => Hang
      case Some(more) => GoOn(o + 10 + rdLength, Gathered(acc.answers + more, minTTL))
  }

  /** The answer loop from `offset`, with n records to go. */
  function ReadAnswers(msg: bytes, offset: nat, n: nat, acc: Gathered): Option<Gathered>
    decreases n
  {
    if n == 0 then Some(acc)
    else
      match ReadRecord(msg, offset, acc)
      case Leave(acc') => Some(acc')
      case Hang => None
      case GoOn(offset', acc') => ReadAnswers(msg, offset', n - 1, acc')
  }

  function Dissect(msg: bytes): Dissection {
    if |msg| < 12 then TooShort
    else
      match SkipQuestions(msg, 12, U16(msg, 4))
      case None => Hangs
      case Some(offset) =>
        match ReadAnswers(msg, offset, U16(msg, 6), Gathered([], 0))
        case None => Hangs
        case Some(g) =>
          Parsed(Reply(RcodeOf(U16(msg, 2)), FlagsOf(U16(msg, 2)), g.answers, g.minTTL, U16(msg, 4), U16(msg, 6)))
  }

  method SkipQuestionSection(msg: bytes, qdCount: nat) returns (offset: nat)
    requires SkipQuestions(msg, 12, qdCount).Some?
    ensures SkipQuestions(msg, 12, qdCount) == Some(offset)
  {
    offset := 12;
    for i := 0 to qdCount
      invariant SkipQuestions(msg, 12, qdCount) == SkipQuestions(msg, offset, qdCount - i)
    {
      var _, newOffset, ok := ParseDNSName(msg, offset);
      if !ok {
        break;
      }
      offset := newOffset + 4;
      if offset > |msg| {
        break;
      }
    }
  }

  /** The type switch of the answer loop. */
  method AppendAnswer(msg: bytes, rrType: nat, offset: nat, rdLength: nat, before: seq<Answer>)
      returns (answers: seq<Answer>)
    requires offset + rdLength <= |msg|
    requires AnswerAt(msg, rrType, offset, rdLength).Some?
    ensures answers == before + AnswerAt(msg, rrType, offset, rdLength).value
  {
    hide ParseName, Encodes, Join;
    answers := before;
    var rdata := msg[offset..offset + rdLength];
    if rrType == 1 && rdLength == 4 {
      answers := answers + [Address(rdata)];
    } else if rrType == 28 && rdLength == 16 {
      answers := answers + [Address(rdata)];
    } else if rrType == 5 {
      var cname, _, cnameOk := ParseDNSName(msg, offset);
      if cnameOk && cname != [] {
        answers := answers + [Cname(cname)];
      }
    }
  }

  lemma AnswersStep(msg: bytes, offset: nat, n: nat, acc: Gathered)
    requires n > 0
    ensures var iteration := ReadRecord(msg, offset, acc);
            && (iteration.Leave? ==> ReadAnswers(msg, offset, n, acc) == Some(iteration.acc))
            && (iteration.Hang? ==> ReadAnswers(msg, offset, n, acc) == None)
            && (iteration.GoOn? ==>
                  ReadAnswers(msg, offset, n, acc) == ReadAnswers(msg, iteration.offset, n - 1, iteration.acc))
  {
    hide ReadRecord;
  }

  /** The answer loop's work on the ten fixed octets at `o` and the data behind them. */
  method ReadRecordBody(msg: bytes, o: nat, answers0: seq<Answer>, minTTL0: nat)
    returns (offset: nat, answers: seq<Answer>, minTTL: nat, ok: bool)
    requires o + 10 <= |msg| && !ReadBody(msg, o, Gathered(answers0, minTTL0)).Hang?
    ensures ReadBody(msg, o, Gathered(answers0, minTTL0))
            == if ok then GoOn(offset, Gathered(answers, minTTL)) else Leave(Gathered(answers, minTTL))
  {
    hide AnswerAt, U16, U32;
    offset, answers, minTTL := o, answers0, minTTL0;
    var rrType, ttl, rdLength := U16(msg, offset), U32(msg, offset + 4), U16(msg, offset + 8);
    offset := offset + 10;
    if minTTL == 0 || (ttl > 0 && ttl < minTTL) {
      minTTL := ttl;
    }
    if offset + rdLength > |msg| {
      return offset, answers, minTTL, false;
    }
    answers := AppendAnswer(msg, rrType, offset, rdLength, answers);
    offset := offset + rdLength;
    ok := true;
  }

  method ReadAnswerSection(msg: bytes, start: nat, anCount: nat) returns (answers: seq<Answer>, minTTL: nat)
    requires ReadAnswers(msg, start, anCount, Gathered([], 0)).Some?
    ensures ReadAnswers(msg, start, anCount, Gathered([], 0)) == Some(Gathered(answers, minTTL))
  {
    var offset: nat := start;
    answers, minTTL := [], 0;
    ghost var result := ReadAnswers(msg, start, anCount, Gathered([], 0));
    for i := 0 to anCount
      invariant result == ReadAnswers(msg, offset, anCount - i, Gathered(answers, minTTL))
    {
      hide ParseName, Encodes, Join, ReadAnswers, ReadBody;
      ghost var iteration := ReadRecord(msg, offset, Gathered(answers, minTTL));
      AnswersStep(msg, offset, anCount - i, Gathered(answers, minTTL));
      if offset >= |msg| {
        break;
      }
      var _, newOffset, ok := ParseDNSName(msg, offset);
      if !ok {
        break;
      }
      offset := newOffset;
      if offset + 10 > |msg| {
        break;
      }
      assert iteration == ReadBody(msg, offset, Gathered(answers, minTTL));
      offset, answers, minTTL, ok := ReadRecordBody(msg, offset, answers, minTTL);
      if !ok {
        break;
      }
    }
  }

  /** dissectDNSResponse. Every read is in bounds on every message; the requires only says
      that the call returns: see HangsWhen. */
  method DissectDNSResponse(msg: bytes) returns (r: Dissection)
    requires Returns(msg)
    ensures r == Dissect(msg) && !r.Hangs?
  {
    HangsWhen(msg);
    hide Returns;
    if |msg| < 12 {
      return TooShort;
    }
    var flags := U16(msg, 2);
    var qdCount, anCount := U16(msg, 4), U16(msg, 6);
    var flagList: seq<Flag> := [];
    if flags / 0x400 % 2 == 1 { flagList := flagList + [AA]; }
    if flags / 0x200 % 2 == 1 { flagList := flagList + [TC]; }
    if flags / 0x100 % 2 == 1 { flagList := flagList + [RD]; }
    if flags / 0x80 % 2 == 1 { flagList := flagList + [RA]; }
    assert flagList == FlagsOf(flags);
    var offset := SkipQuestionSection(msg, qdCount);
    var answers, minTTL := ReadAnswerSection(msg, offset, anCount);
    r := Parsed(Reply(RcodeOf(flags), flagList, answers, minTTL, qdCount, anCount));
  }

  // ---------------------------------------------------------------- what a message says

  /** A resource record where it stands. `cname` is the name its data encodes, if type 5. */
  datatype Record = Record(owner: Derivation, rrType: nat, ttl: nat, rdata: bytes, cname: Option<Derivation>)

  function RecordEnd(offset: nat, r: Record): nat {
    End(offset, r.owner) + 10 + |r.rdata|
  }

  /** Owner name, type, class, TTL, length and data stand at `offset`. */
  ghost predicate RecordAt(msg: bytes, offset: nat, r: Record) {
    var o := End(offset, r.owner);
    && Encodes(msg, offset, r.owner)
    && RecordEnd(offset, r) <= |msg|
    && U16(msg, o) == r.rrType
    && U32(msg, o + 4) == r.ttl
    && U16(msg, o + 8) == |r.rdata|
    && msg[o + 10..o + 10 + |r.rdata|] == r.rdata
    && (r.rrType == 5 ==>
          match r.cname
          case Some(d) => Encodes(msg, o + 10, d)
          case None => ParseName(msg, o + 10).Malformed?)
  }

  ghost predicate RecordsAt(msg: bytes, offset: nat, rs: seq<Record>)
    decreases |rs|
  {
    |rs| == 0 || (RecordAt(msg, offset, rs[0]) && RecordsAt(msg, RecordEnd(offset, rs[0]), rs[1..]))
  }

  function RecordsEnd(offset: nat, rs: seq<Record>): nat
    decreases |rs|
  {
    if |rs| == 0 then offset else RecordsEnd(RecordEnd(offset, rs[0]), rs[1..])
  }

  /** Names, each followed by type and class. */
  ghost predicate QuestionsAt(msg: bytes, offset: nat, qs: seq<Derivation>)
    decreases |qs|
  {
    |qs| == 0 ||
    (&& Encodes(msg, offset, qs[0])
     && End(offset, qs[0]) + 4 <= |msg|
     && QuestionsAt(msg, End(offset, qs[0]) + 4, qs[1..]))
  }

  function QuestionsEnd(offset: nat, qs: seq<Derivation>): nat
    decreases |qs|
  {
    if |qs| == 0 then offset else QuestionsEnd(End(offset, qs[0]) + 4, qs[1..])
  }

  function Render(r: Record): seq<Answer> {
    if (r.rrType == 1 && |r.rdata| == 4) || (r.rrType == 28 && |r.rdata| == 16) then [Address(r.rdata)]
    else if r.rrType == 5 && r.cname.Some? && Join(Labels(r.cname.value), DOT) != [] then
      [Cname(Join(Labels(r.cname.value), DOT))]
    else []
  }

  function Rendered(rs: seq<Record>): seq<Answer> {
    if |rs| == 0 then [] else Render(rs[0]) + Rendered(rs[1..])
  }

  function Ttls(rs: seq<Record>): seq<nat> {
    seq(|rs|, i requires 0 <= i < |rs| => rs[i].ttl)
  }

  /** m is the least positive member of ttls, or 0 when there is none. */
  ghost predicate IsLeastPositive(m: nat, ttls: seq<nat>) {
    if m == 0 then forall t | t in ttls :: t == 0
    else m in ttls && forall t | t in ttls :: t == 0 || m <= t
  }

  lemma LowerLeast(m: nat, seen: seq<nat>, ttl: nat)
    requires IsLeastPositive(m, seen)
    ensures IsLeastPositive(Lower(m, ttl), seen + [ttl])
  {
    assert forall t | t in seen + [ttl] :: t in seen || t == ttl;
    assert (seen + [ttl])[|seen|] == ttl;
    if m in seen {
      var k :| 0 <= k < |seen| && seen[k] == m;
      assert (seen + [ttl])[k] == m;
    }
  }

  /** The records on which the answer loop acts: all n announced, or as many as stand there. */
  ghost predicate LongestRecords(msg: bytes, offset: nat, n: nat, rs: seq<Record>) {
    && RecordsAt(msg, offset, rs)
    && |rs| <= n
    && (|rs| < n ==> forall r :: !RecordAt(msg, RecordsEnd(offset, rs), r))
  }

  /** The TTL of a record whose header stands at `offset` but whose data runs past the message. */
  function CutTtl(msg: bytes, offset: nat): seq<nat> {
    match ParseName(msg, offset)
    case Name(_, o) =>
      if o + 10 <= |msg| && o + 10 + U16(msg, o + 8) > |msg| then [U32(msg, o + 4)] else []
    case _ => []
  }

  /** What the loop has gathered once it is past r. */
  function Past(r: Record, acc: Gathered): Gathered {
    Gathered(acc.answers + Render(r), Lower(acc.minTTL, r.ttl))
  }

  /** What the type switch adds to the answers for a record that stands there: the address of an A
      record of 4 octets or an AAAA record of 16, the name in the data of a CNAME record unless it is
      malformed or empty, and nothing else. */
  lemma RecordAnswers(msg: bytes, offset: nat, r: Record)
    requires RecordAt(msg, offset, r)
    ensures AnswerAt(msg, r.rrType, End(offset, r.owner) + 10, |r.rdata|) == Some(Render(r))
    ensures Render(r)
            == if r.rrType == 1 then (if |r.rdata| == 4 then [Address(r.rdata)] else [])
               else if r.rrType == 28 then (if |r.rdata| == 16 then [Address(r.rdata)] else [])
               else if r.rrType == 5 && r.cname.Some? && Join(Labels(r.cname.value), Ascii(".")[0]) != [] then
                 [Cname(Join(Labels(r.cname.value), Ascii(".")[0]))]
               else []
  {
    if r.rrType == 5 && r.cname.Some? {
      EncodedNameParses(msg, End(offset, r.owner) + 10, r.cname.value);
    }
    assert Ascii(".")[0] == DOT;
    hide ParseName, Encodes, Labels, End, Join;
  }

  lemma {:induction false} RecordAtReads(msg: bytes, offset: nat, r: Record, acc: Gathered)
    requires RecordAt(msg, offset, r)
    ensures ReadRecord(msg, offset, acc)
            == GoOn(RecordEnd(offset, r), Past(r, acc))
    ensures offset < RecordEnd(offset, r) <= |msg|
  {
    var o := End(offset, r.owner);
    EncodedNameParses(msg, offset, r.owner);
    EndBound(msg, offset, r.owner);
    RecordAnswers(msg, offset, r);
    hide ParseName, Encodes, Labels, End, Join, AnswerAt, Render, U16, U32;
    assert ReadRecord(msg, offset, acc) == ReadBody(msg, o, acc);
  }

  /** The minTTL variable after the records rs. */
  function LowestTtl(m: nat, rs: seq<Record>): nat
    decreases |rs|
  {
    if |rs| == 0 then m else LowestTtl(Lower(m, rs[0].ttl), rs[1..])
  }

  lemma {:induction false} LowestTtlIsLeast(m: nat, seen: seq<nat>, rs: seq<Record>)
    requires IsLeastPositive(m, seen)
    ensures IsLeastPositive(LowestTtl(m, rs), seen + Ttls(rs))
    decreases |rs|
  {
    if |rs| == 0 {
      assert seen + Ttls(rs) == seen;
    } else {
      LowerLeast(m, seen, rs[0].ttl);
      LowestTtlIsLeast(Lower(m, rs[0].ttl), seen + [rs[0].ttl], rs[1..]);
      assert seen + [rs[0].ttl] + Ttls(rs[1..]) == seen + Ttls(rs);
    }
  }

  /** The loop acts once on each record that stands in its way, in order. */
  lemma {:induction false} ReadsRecords(msg: bytes, offset: nat, rs: seq<Record>, n: nat, acc: Gathered, out: Gathered)
    requires RecordsAt(msg, offset, rs) && |rs| <= n
    requires out == Gathered(acc.answers + Rendered(rs), LowestTtl(acc.minTTL, rs))
    ensures ReadAnswers(msg, offset, n, acc) == ReadAnswers(msg, RecordsEnd(offset, rs), n - |rs|, out)
    decreases |rs|
  {
    hide ReadRecord, RecordAt;
    if |rs| == 0 {
      assert out == acc;
    } else {
      var offset', acc' := RecordEnd(offset, rs[0]), Past(rs[0], acc);
      assert ReadAnswers(msg, offset, n, acc) == ReadAnswers(msg, offset', n - 1, acc') by {
        RecordAtReads(msg, offset, rs[0], acc);
      }
      ReadsRecords(msg, offset', rs[1..], n - 1, acc', out);
    }
  }

  lemma {:induction false} SkipsQuestions(msg: bytes, offset: nat, qs: seq<Derivation>)
    requires QuestionsAt(msg, offset, qs)
    ensures SkipQuestions(msg, offset, |qs|) == Some(QuestionsEnd(offset, qs))
    decreases |qs|
  {
    if |qs| > 0 {
      EncodedNameParses(msg, offset, qs[0]);
      SkipsQuestions(msg, End(offset, qs[0]) + 4, qs[1..]);
    }
  }

  /** On a message made of the questions and records its header announces, whatever the
      compression, the dissector reports each record once, in order, and the least positive TTL. */
  lemma {:induction false} WellFormedDissects(msg: bytes, qs: seq<Derivation>, rs: seq<Record>)
    requires |msg| >= 12 && U16(msg, 4) == |qs| && U16(msg, 6) == |rs|
    requires QuestionsAt(msg, 12, qs) && RecordsAt(msg, QuestionsEnd(12, qs), rs)
    ensures Dissect(msg).Parsed?
    ensures var reply := Dissect(msg).reply;
            && reply.answers == Rendered(rs)
            && IsLeastPositive(reply.minTTL, Ttls(rs))
            && reply.rcode == RcodeOf(U16(msg, 2)) && reply.flags == FlagsOf(U16(msg, 2))
            && reply.questionsCnt == |qs| && reply.answersCnt == |rs|
  {
    SkipsQuestions(msg, 12, qs);
    ReadsRecords(msg, QuestionsEnd(12, qs), rs, |rs|, Gathered([], 0), Gathered(Rendered(rs), LowestTtl(0, rs)));
    LowestTtlIsLeast(0, [], rs);
    assert [] + Ttls(rs) == Ttls(rs);
  }

  /** The record at `offset`, when the loop gets past it. */
  lemma {:induction false} StandingRecord(msg: bytes, offset: nat, acc: Gathered) returns (r: Option<Record>)
    requires !ReadRecord(msg, offset, acc).Hang?
    ensures r.Some? ==> RecordAt(msg, offset, r.value)
    ensures r.None? ==> forall x :: !RecordAt(msg, offset, x)
    ensures r.None? ==> ReadRecord(msg, offset, acc).Leave?
  {
    hide ParseName, Encodes, Labels, End, Join;
    var p := ParseName(msg, offset);
    if p.Name? && p.next + 10 <= |msg| && p.next + 10 + U16(msg, p.next + 8) <= |msg| {
      var o := p.next;
      ParseMeansDerivation(msg, offset, p.labels, o);
      var owner :| Encodes(msg, offset, owner) && Labels(owner) == p.labels && End(offset, owner) == o;
      var rdLength := U16(msg, o + 8);
      var cname := None;
      if U16(msg, o) == 5 && ParseName(msg, o + 10).Name? {
        var c := ParseName(msg, o + 10);
        ParseMeansDerivation(msg, o + 10, c.labels, c.next);
        var d :| Encodes(msg, o + 10, d) && Labels(d) == c.labels && End(o + 10, d) == c.next;
        cname := Some(d);
      }
      r := Some(Record(owner, U16(msg, o), U32(msg, o + 4), msg[o + 10..o + 10 + rdLength], cname));
    } else {
      r := None;
      forall x | RecordAt(msg, offset, x) ensures false {
        RecordAtReads(msg, offset, x, Gathered([], 0));
      }
    }
  }

  lemma LeaveCounts(msg: bytes, offset: nat, acc: Gathered)
    requires ReadRecord(msg, offset, acc).Leave?
    ensures ReadRecord(msg, offset, acc).acc.answers == acc.answers
    ensures var cut := CutTtl(msg, offset);
            ReadRecord(msg, offset, acc).acc.minTTL
            == if |cut| == 0 then acc.minTTL else Lower(acc.minTTL, cut[0])
  {
    var p := ParseName(msg, offset);
    if offset < |msg| && p.Name? && p.next + 10 <= |msg| {
      assert ReadRecord(msg, offset, acc) == ReadBody(msg, p.next, acc);
    }
  }

  lemma {:induction false} StandingRecords(msg: bytes, offset: nat, n: nat, acc: Gathered) returns (rs: seq<Record>)
    requires ReadAnswers(msg, offset, n, acc).Some?
    ensures LongestRecords(msg, offset, n, rs)
    decreases n
  {
    rs := [];
    if n > 0 {
      var r := StandingRecord(msg, offset, acc);
      if r.Some? {
        RecordAtReads(msg, offset, r.value, acc);
        var acc' := ReadRecord(msg, offset, acc).acc;
        var rest := StandingRecords(msg, RecordEnd(offset, r.value), n - 1, acc');
        rs := [r.value] + rest;
        assert rs[1..] == rest;
      }
    }
  }

  lemma {:induction false} LoopMeaning(msg: bytes, offset: nat, n: nat) returns (rs: seq<Record>)
    requires ReadAnswers(msg, offset, n, Gathered([], 0)).Some?
    ensures LongestRecords(msg, offset, n, rs)
    ensures var g := ReadAnswers(msg, offset, n, Gathered([], 0)).value;
            && g.answers == Rendered(rs)
            && IsLeastPositive(g.minTTL, Ttls(rs) + if |rs| < n then CutTtl(msg, RecordsEnd(offset, rs)) else [])
  {
    hide ParseName;
    rs := StandingRecords(msg, offset, n, Gathered([], 0));
    var end, acc := RecordsEnd(offset, rs), Gathered(Rendered(rs), LowestTtl(0, rs));
    ReadsRecords(msg, offset, rs, n, Gathered([], 0), acc);
    LowestTtlIsLeast(0, [], rs);
    assert [] + Ttls(rs) == Ttls(rs);
    if |rs| < n {
      var r := StandingRecord(msg, end, acc);
      LeaveCounts(msg, end, acc);
      var cut := CutTtl(msg, end);
      if |cut| > 0 {
        LowerLeast(acc.minTTL, Ttls(rs), cut[0]);
        assert Ttls(rs) + [cut[0]] == Ttls(rs) + cut;
      } else {
        assert Ttls(rs) + cut == Ttls(rs);
      }
    } else {
      assert Ttls(rs) + [] == Ttls(rs);
    }
  }

  lemma QueryHeaderFields(domain: bytes)
    ensures var msg := Query(domain);
            |msg| >= 12 && U16(msg, 2) == 0x100 && U16(msg, 4) == 1 && U16(msg, 6) == 0
  {
    var msg := Query(domain);
    assert forall i | 2 <= i < 8 :: msg[i] == QUERY_HEADER[i];
  }

  /** The dissector reads the builder's own queries: no error, RD set, one question, no answer. */
  lemma {:induction false} QueryDissects(domain: bytes)
    ensures Dissect(Query(domain)) == Parsed(Reply(NOERROR, [RD], [], 0, 1, 0))
  {
    hide Query, EncodeLabels, Kept, Split, Encodes, ParseName, End, RecordAt, ReadRecord;
    var msg := Query(domain);
    var kept := Kept(Split(domain, DOT));
    QueryEncodesName(domain);
    QueryHeaderFields(domain);
    var qs := [Plain(kept)];
    assert QuestionsAt(msg, 12, qs) by {
      assert QuestionsAt(msg, End(12, qs[0]) + 4, qs[1..]);
    }
    WellFormedDissects(msg, qs, []);
  }

  // ---------------------------------------------------------------- from the sender's side

  /** The second word of the header (section 4.1.1): QR, Opcode, AA, TC, RD, RA, Z and RCODE. */
  datatype Flags = Flags(qr: bool, opcode: nat, aa: bool, tc: bool, rd: bool, ra: bool, z: nat, rcode: nat)

  function Bit(b: bool): nat {
    if b then 1 else 0
  }

  function FlagsWord(f: Flags): nat {
    ((((((Bit(f.qr) * 16 + f.opcode) * 2 + Bit(f.aa)) * 2 + Bit(f.tc)) * 2 + Bit(f.rd)) * 2 + Bit(f.ra)) * 8 + f.z) * 16
    + f.rcode
  }

  ghost predicate FlagsFit(f: Flags) {
    f.opcode < 16 && f.z < 8 && f.rcode < 16
  }

  /** The number of a response code. */
  function Number(r: Rcode): nat {
    match r
    case NOERROR => 0
    case FORMERR => 1
    case SERVFAIL => 2
    case NXDOMAIN => 3
    case REFUSED => 5
    case OTHER(code) => code
  }

  /** The code is that of its name, or has none; the flags are those that are set, in this order. */
  lemma FlagsRead(f: Flags)
    requires FlagsFit(f)
    ensures FlagsWord(f) < 65536
    ensures Number(RcodeOf(FlagsWord(f))) == f.rcode
    ensures RcodeOf(FlagsWord(f)).OTHER? ==> f.rcode == 4 || f.rcode > 5
    ensures FlagsOf(FlagsWord(f))
            == (if f.aa then [AA] else []) + (if f.tc then [TC] else [])
               + (if f.rd then [RD] else []) + (if f.ra then [RA] else [])
  {
    var w, top := FlagsWord(f), Bit(f.qr) * 16 + f.opcode;
    var aa := top * 2 + Bit(f.aa);
    var tc := aa * 2 + Bit(f.tc);
    var rd := tc * 2 + Bit(f.rd);
    var ra := rd * 2 + Bit(f.ra);
    var z := ra * 8 + f.z;
    assert w == z * 16 + f.rcode;
    Halves(w, z, ra, rd, tc, aa, f.rcode, f.z);
    hide FlagsWord;
  }

  lemma Halves(w: nat, z: nat, ra: nat, rd: nat, tc: nat, aa: nat, rcode: nat, low: nat)
    requires w == z * 16 + rcode && rcode < 16 && z == ra * 8 + low && low < 8
    requires ra / 2 == rd && rd / 2 == tc && tc / 2 == aa
    ensures w % 16 == rcode && w / 0x80 == ra && w / 0x100 == rd && w / 0x200 == tc && w / 0x400 == aa
  {
    assert w / 16 == z;
    assert w / 0x80 == z / 8 == ra;
    assert w / 0x100 == ra / 2;
    assert w / 0x200 == rd / 2;
    assert w / 0x400 == tc / 2;
  }

  lemma FlagsSet(f: Flags)
    requires FlagsFit(f)
    ensures forall x :: x in FlagsOf(FlagsWord(f)) <==>
              (x == AA && f.aa) || (x == TC && f.tc) || (x == RD && f.rd) || (x == RA && f.ra)
  {
    FlagsRead(f);
    hide FlagsOf, FlagsWord, RcodeOf;
  }

  /** The record as it is sent: name, type, class, TTL, length and data, high octets first. */
  ghost predicate SentAt(msg: bytes, offset: nat, r: Record) {
    var o, n := End(offset, r.owner), |r.rdata|;
    && Encodes(msg, offset, r.owner)
    && r.rrType < 65536 && r.ttl < 0x1_0000_0000 && n < 65536
    && Stands(msg, o, [r.rrType / 256, r.rrType % 256])
    && Stands(msg, o + 4, LongOctets(r.ttl))
    && Stands(msg, o + 8, [n / 256, n % 256])
    && Stands(msg, o + 10, r.rdata)
    && (r.rrType == 5 ==>
          match r.cname
          case Some(d) => Encodes(msg, o + 10, d)
          case None => ParseName(msg, o + 10).Malformed?)
  }

  lemma SentStands(msg: bytes, offset: nat, r: Record)
    requires SentAt(msg, offset, r)
    ensures RecordAt(msg, offset, r)
  {
    var o, n := End(offset, r.owner), |r.rdata|;
    WrittenWord(msg, o, r.rrType);
    WrittenLong(msg, o + 4, r.ttl);
    WrittenWord(msg, o + 8, n);
  }

  ghost predicate SentRecords(msg: bytes, offset: nat, rs: seq<Record>)
    decreases |rs|
  {
    |rs| == 0 ||
    (SentAt(msg, offset, rs[0]) && SentRecords(msg, End(offset, rs[0].owner) + 10 + |rs[0].rdata|, rs[1..]))
  }

  lemma {:induction false} SentRecordsStand(msg: bytes, offset: nat, rs: seq<Record>)
    requires SentRecords(msg, offset, rs)
    ensures RecordsAt(msg, offset, rs)
    decreases |rs|
  {
    hide SentAt, RecordAt;
    if |rs| > 0 {
      SentStands(msg, offset, rs[0]);
      SentRecordsStand(msg, RecordEnd(offset, rs[0]), rs[1..]);
    }
  }

  /** A question as it is sent: name, type and class. */
  datatype Question = Question(name: Derivation, qtype: nat, qclass: nat)

  function QuestionOctets(q: Question): bytes {
    [q.qtype / 256 % 256, q.qtype % 256] + [q.qclass / 256 % 256, q.qclass % 256]
  }

  ghost predicate SentQuestions(msg: bytes, offset: nat, qs: seq<Question>, end: nat)
    decreases |qs|
  {
    if |qs| == 0 then offset == end
    else
      var o := End(offset, qs[0].name);
      && Encodes(msg, offset, qs[0].name) && Stands(msg, o, QuestionOctets(qs[0]))
      && SentQuestions(msg, o + |QuestionOctets(qs[0])|, qs[1..], end)
  }

  function Names(qs: seq<Question>): (r: seq<Derivation>)
    ensures |r| == |qs|
  {
    if |qs| == 0 then [] else [qs[0].name] + Names(qs[1..])
  }

  lemma {:induction false} SentQuestionsStand(msg: bytes, offset: nat, qs: seq<Question>, end: nat)
    requires SentQuestions(msg, offset, qs, end)
    ensures QuestionsAt(msg, offset, Names(qs)) && QuestionsEnd(offset, Names(qs)) == end
    decreases |qs|
  {
    if |qs| > 0 {
      assert |QuestionOctets(qs[0])| == 4;
      SentQuestionsStand(msg, End(offset, qs[0].name) + 4, qs[1..], end);
      assert Names(qs)[1..] == Names(qs[1..]);
    }
  }

  /** What a server sends is what is reported: header octets, questions, and records in any
      compression, as sections 4.1.1 to 4.1.4 lay them out. */
  lemma {:induction false} SentResponse(msg: bytes, f: Flags, qs: seq<Question>, rs: seq<Record>, answers: nat)
    requires |msg| >= 12 && FlagsFit(f) && |qs| < 65536 && |rs| < 65536
    requires Stands(msg, 2, [FlagsWord(f) / 256 % 256, FlagsWord(f) % 256])
    requires Stands(msg, 4, [|qs| / 256, |qs| % 256]) && Stands(msg, 6, [|rs| / 256, |rs| % 256])
    requires SentQuestions(msg, 12, qs, answers) && SentRecords(msg, answers, rs)
    ensures Dissect(msg).Parsed?
    ensures var reply := Dissect(msg).reply;
            && Number(reply.rcode) == f.rcode
            && (forall x :: x in reply.flags <==>
                 (x == AA && f.aa) || (x == TC && f.tc) || (x == RD && f.rd) || (x == RA && f.ra))
            && reply.answers == Rendered(rs)
            && IsLeastPositive(reply.minTTL, Ttls(rs))
            && reply.questionsCnt == |qs| && reply.answersCnt == |rs|
  {
    hide QuestionsAt, RecordsAt, SentRecords, SentQuestions, FlagsWord, U16, Stands;
    hide Dissect, RcodeOf, FlagsOf, Number, IsLeastPositive;
    FlagsRead(f);
    FlagsSet(f);
    WrittenWord(msg, 2, FlagsWord(f));
    WrittenWord(msg, 4, |qs|);
    WrittenWord(msg, 6, |rs|);
    SentQuestionsStand(msg, 12, qs, answers);
    SentRecordsStand(msg, answers, rs);
    WellFormedDissects(msg, Names(qs), rs);
  }

  // ---------------------------------------------------------------- when the call returns

  /** The question loop gets to a name whose walk never leaves: behind qs. */
  ghost predicate QuestionHangs(msg: bytes, start: nat, n: nat, qs: seq<Derivation>) {
    |qs| < n && QuestionsAt(msg, start, qs) && !Halts(msg, QuestionsEnd(start, qs))
  }

  /** The question loop hands over to the answer loop behind qs: all are read, or no name follows. */
  ghost predicate QuestionsOver(msg: bytes, start: nat, n: nat, qs: seq<Derivation>) {
    && |qs| <= n && QuestionsAt(msg, start, qs)
    && (|qs| < n ==> Halts(msg, QuestionsEnd(start, qs)) && !exists d :: Encodes(msg, QuestionsEnd(start, qs), d))
  }

  /** The owner name at `offset`, or the name in the data of the CNAME record there, is such a name. */
  ghost predicate RecordHangs(msg: bytes, offset: nat) {
    !Halts(msg, offset) || exists owner :: CnameHangs(msg, offset, owner)
  }

  /** A record of type CNAME stands there, with its data inside the message. */
  ghost predicate CnameAt(msg: bytes, offset: nat, owner: Derivation) {
    var o := End(offset, owner);
    && Encodes(msg, offset, owner)
    && o + 10 <= |msg| && o + 10 + U16(msg, o + 8) <= |msg|
    && U16(msg, o) == 5
  }

  ghost predicate CnameHangs(msg: bytes, offset: nat, owner: Derivation) {
    CnameAt(msg, offset, owner) && !Halts(msg, End(offset, owner) + 10)
  }

  /** The answer loop gets to such a record: behind rs. */
  ghost predicate AnswerHangs(msg: bytes, start: nat, n: nat, rs: seq<Record>) {
    |rs| < n && RecordsAt(msg, start, rs) && RecordHangs(msg, RecordsEnd(start, rs))
  }

  /** A question's name at `o` is read, behind qs. */
  ghost predicate QuestionName(msg: bytes, o: nat, qs: seq<Derivation>) {
    |msg| >= 12 && |qs| < U16(msg, 4) && QuestionsAt(msg, 12, qs) && o == QuestionsEnd(12, qs)
  }

  /** A record's owner name at `o` is read, behind the questions qs and the records rs. */
  ghost predicate OwnerName(msg: bytes, o: nat, qs: seq<Derivation>, rs: seq<Record>) {
    && |msg| >= 12 && QuestionsOver(msg, 12, U16(msg, 4), qs)
    && |rs| < U16(msg, 6) && RecordsAt(msg, QuestionsEnd(12, qs), rs)
    && o == RecordsEnd(QuestionsEnd(12, qs), rs)
  }

  /** The name in a CNAME record's data at `o` is read: the record's owner name stands at `at`. */
  ghost predicate DataName(msg: bytes, o: nat, at: nat, qs: seq<Derivation>, rs: seq<Record>, owner: Derivation) {
    OwnerName(msg, at, qs, rs) && CnameAt(msg, at, owner) && o == End(at, owner) + 10
  }

  /** One of the two loops reads a name at `o`, if it is not kept by an earlier one. */
  ghost predicate ReadsNameAt(msg: bytes, o: nat) {
    || (exists qs :: QuestionName(msg, o, qs))
    || (exists qs, rs :: OwnerName(msg, o, qs, rs))
    || (exists at, qs, rs, owner :: DataName(msg, o, at, qs, rs, owner))
  }

  /** No name that either loop reads keeps it for ever. */
  ghost predicate Returns(msg: bytes) {
    forall o | ReadsNameAt(msg, o) :: Halts(msg, o)
  }

  lemma {:induction false} RecordHangsWhen(msg: bytes, offset: nat, acc: Gathered)
    ensures ReadRecord(msg, offset, acc).Hang? <==> RecordHangs(msg, offset)
  {
    assert offset >= |msg| ==> ParseName(msg, offset).Malformed?;
    hide ParseName, Encodes, Halts, Labels, End, Join;
    OtherwiseMeans(msg, offset);
    var p := ParseName(msg, offset);
    if p.Name? {
      ParseMeansDerivation(msg, offset, p.labels, p.next);
      var owner :| Encodes(msg, offset, owner) && Labels(owner) == p.labels && End(offset, owner) == p.next;
      BodyHangsWhen(msg, offset, owner, acc);
    }
    forall owner | CnameHangs(msg, offset, owner) ensures ReadRecord(msg, offset, acc).Hang? {
      BodyHangsWhen(msg, offset, owner, acc);
    }
  }

  lemma BodyHangsWhen(msg: bytes, offset: nat, owner: Derivation, acc: Gathered)
    requires Encodes(msg, offset, owner)
    ensures ReadRecord(msg, offset, acc).Hang? <==> CnameHangs(msg, offset, owner)
    ensures Halts(msg, offset)
  {
    var o := End(offset, owner);
    EncodedNameParses(msg, offset, owner);
    EndBound(msg, offset, owner);
    OtherwiseMeans(msg, offset);
    OtherwiseMeans(msg, o + 10);
    hide ParseName, Encodes, Halts, Labels, End, Join, U16, U32;
    if o + 10 <= |msg| {
      assert ReadRecord(msg, offset, acc) == ReadBody(msg, o, acc);
    }
  }

  /** The answer loop hangs iff it gets past some run of records to a name that keeps it. */
  lemma {:induction false} AnswersHangWhen(msg: bytes, offset: nat, n: nat, acc: Gathered)
    ensures ReadAnswers(msg, offset, n, acc).None? <==> exists rs :: AnswerHangs(msg, offset, n, rs)
    decreases n
  {
    hide ReadRecord, RecordHangs, RecordAt;
    if ReadAnswers(msg, offset, n, acc).None? {
      var rs := AnswersHang(msg, offset, n, acc);
    }
    forall rs | AnswerHangs(msg, offset, n, rs) ensures ReadAnswers(msg, offset, n, acc).None? {
      var out := Gathered(acc.answers + Rendered(rs), LowestTtl(acc.minTTL, rs));
      ReadsRecords(msg, offset, rs, n, acc, out);
      RecordHangsWhen(msg, RecordsEnd(offset, rs), out);
    }
  }

  lemma {:induction false} AnswersHang(msg: bytes, offset: nat, n: nat, acc: Gathered) returns (rs: seq<Record>)
    requires ReadAnswers(msg, offset, n, acc).None?
    ensures AnswerHangs(msg, offset, n, rs)
    decreases n
  {
    hide ReadRecord, RecordHangs, RecordAt;
    rs := [];
    RecordHangsWhen(msg, offset, acc);
    if !ReadRecord(msg, offset, acc).Hang? {
      var r := StandingRecord(msg, offset, acc);
      RecordAtReads(msg, offset, r.value, acc);
      var rest := AnswersHang(msg, RecordEnd(offset, r.value), n - 1, Past(r.value, acc));
      rs := [r.value] + rest;
      assert rs[1..] == rest;
    }
  }

  lemma {:induction false} QuestionsHang(msg: bytes, start: nat, n: nat) returns (qs: seq<Derivation>)
    requires SkipQuestions(msg, start, n).None?
    ensures QuestionHangs(msg, start, n, qs)
    decreases n
  {
    hide ParseName, Encodes, Halts, Labels, End;
    qs := [];
    OtherwiseMeans(msg, start);
    var p := ParseName(msg, start);
    if p.Name? {
      ParseMeansDerivation(msg, start, p.labels, p.next);
      var q :| Encodes(msg, start, q) && Labels(q) == p.labels && End(start, q) == p.next;
      var rest := QuestionsHang(msg, p.next + 4, n - 1);
      qs := [q] + rest;
      assert qs[1..] == rest;
    }
  }

  /** The loop passes the questions that stand. */
  lemma {:induction false} SkipsSome(msg: bytes, start: nat, n: nat, qs: seq<Derivation>)
    requires QuestionsAt(msg, start, qs) && |qs| <= n
    ensures SkipQuestions(msg, start, n) == SkipQuestions(msg, QuestionsEnd(start, qs), n - |qs|)
    decreases |qs|
  {
    if |qs| > 0 {
      EncodedNameParses(msg, start, qs[0]);
      SkipsSome(msg, End(start, qs[0]) + 4, n - 1, qs[1..]);
    }
  }

  lemma SkipsOver(msg: bytes, start: nat, n: nat, qs: seq<Derivation>)
    ensures QuestionsOver(msg, start, n, qs) ==> SkipQuestions(msg, start, n) == Some(QuestionsEnd(start, qs))
    ensures QuestionHangs(msg, start, n, qs) ==> SkipQuestions(msg, start, n) == None
  {
    if QuestionsAt(msg, start, qs) && |qs| <= n {
      SkipsSome(msg, start, n, qs);
      OtherwiseMeans(msg, QuestionsEnd(start, qs));
    }
  }

  lemma {:induction false} QuestionsStop(msg: bytes, start: nat, n: nat) returns (qs: seq<Derivation>)
    requires SkipQuestions(msg, start, n).Some? && SkipQuestions(msg, start, n).value <= |msg|
    ensures QuestionsOver(msg, start, n, qs) && QuestionsEnd(start, qs) == SkipQuestions(msg, start, n).value
    decreases n
  {
    hide ParseName, Encodes, Halts, Labels, End;
    qs := [];
    OtherwiseMeans(msg, start);
    var p := ParseName(msg, start);
    if n > 0 && p.Malformed? {
      assert QuestionsEnd(start, qs) == start;
      assert forall d :: !Encodes(msg, start, d);
    }
    if n > 0 && p.Name? {
      ParseMeansDerivation(msg, start, p.labels, p.next);
      var q :| Encodes(msg, start, q) && Labels(q) == p.labels && End(start, q) == p.next;
      var rest := QuestionsStop(msg, p.next + 4, n - 1);
      qs := [q] + rest;
      assert qs[1..] == rest && qs[0] == q;
      assert QuestionsEnd(start, qs) == QuestionsEnd(p.next + 4, rest);
    }
  }

  /** dissectDNSResponse fails to return exactly when one of its two loops gets, behind names and
      records that stand there, to a name whose walk never leaves: a question's, a record's owner
      name, or the name in the data of a CNAME record. */
  lemma {:induction false} HangsWhen(msg: bytes)
    ensures Dissect(msg).Hangs? <==> !Returns(msg)
  {
    if Dissect(msg).Hangs? {
      var o := HangsAt(msg);
    }
    forall o | ReadsNameAt(msg, o) && !Halts(msg, o) ensures Dissect(msg).Hangs? {
      NameHangs(msg, o);
    }
  }

  /** Where. */
  lemma HangsAt(msg: bytes) returns (o: nat)
    requires Dissect(msg).Hangs?
    ensures ReadsNameAt(msg, o) && !Halts(msg, o)
  {
    var qd, an := U16(msg, 4), U16(msg, 6);
    hide QuestionsAt, SkipQuestions, ReadAnswers, QuestionsOver, RecordsAt, Halts;
    if SkipQuestions(msg, 12, qd).None? {
      var qs := QuestionsHang(msg, 12, qd);
      o := QuestionsEnd(12, qs);
      assert QuestionName(msg, o, qs);
    } else {
      var offset := SkipQuestions(msg, 12, qd).value;
      if offset > |msg| {
        PastTheEnd(msg, offset, an, Gathered([], 0));
      }
      var qs := QuestionsStop(msg, 12, qd);
      var rs := AnswersHang(msg, offset, an, Gathered([], 0));
      var at := RecordsEnd(offset, rs);
      assert OwnerName(msg, at, qs, rs);
      o := at;
      if Halts(msg, at) {
        var owner :| CnameHangs(msg, at, owner);
        o := End(at, owner) + 10;
        assert DataName(msg, o, at, qs, rs, owner);
      }
    }
  }

  lemma NameHangs(msg: bytes, o: nat)
    requires ReadsNameAt(msg, o) && !Halts(msg, o)
    ensures Dissect(msg).Hangs?
  {
    hide QuestionsAt, SkipQuestions, ReadAnswers, RecordsAt, Halts;
    if qs :| QuestionName(msg, o, qs) {
      SkipsOver(msg, 12, U16(msg, 4), qs);
    } else if qs, rs :| OwnerName(msg, o, qs, rs) {
      OwnerHangs(msg, o, qs, rs);
    } else {
      var at, qs, rs, owner :| DataName(msg, o, at, qs, rs, owner);
      assert CnameHangs(msg, at, owner);
      OwnerHangs(msg, at, qs, rs);
    }
  }

  lemma OwnerHangs(msg: bytes, o: nat, qs: seq<Derivation>, rs: seq<Record>)
    requires OwnerName(msg, o, qs, rs) && RecordHangs(msg, o)
    ensures Dissect(msg).Hangs?
  {
    hide QuestionsAt, SkipQuestions, ReadAnswers, RecordsAt, RecordHangs;
    SkipsOver(msg, 12, U16(msg, 4), qs);
    assert AnswerHangs(msg, QuestionsEnd(12, qs), U16(msg, 6), rs);
    AnswersHangWhen(msg, QuestionsEnd(12, qs), U16(msg, 6), Gathered([], 0));
  }

  lemma PastTheEnd(msg: bytes, offset: nat, n: nat, acc: Gathered)
    requires offset >= |msg|
    ensures ReadAnswers(msg, offset, n, acc) == Some(acc)
  {
  }

  /** A test on the octets alone: if the pointers of every name that the loops read, followed one
      after the other, each lead back before their own run of labels, the call returns. */
  lemma PointsBackReturns(msg: bytes)
    requires forall o | ReadsNameAt(msg, o) :: PointsBack(msg, o, o)
    ensures Returns(msg)
  {
    forall o | ReadsNameAt(msg, o) ensures Halts(msg, o) {
      PointsBackHalts(msg, o);
    }
  }

  /** One question whose name is a pointer to itself, in 14 octets. */
  lemma QuestionLoops()
    ensures var msg: bytes := [0, 0, 0, 0, 0, 1, 0, 0, 0, 0, 0, 0, 0xc0, 0x0c];
            Dissect(msg) == Hangs && !Returns(msg)
  {
    var msg: bytes := [0, 0, 0, 0, 0, 1, 0, 0, 0, 0, 0, 0, 0xc0, 0x0c];
    var s := Start(12);
    assert Step(msg, s) == At(12, true, 14, []);
    assert Walked(msg, s, 1) == Step(msg, s) by { assert Walked(msg, Step(msg, s), 0) == Step(msg, s); }
    assert RevisitsAt(msg, 12, 0, 1);
    StopsWithinLengthOrRevisits(msg, 12);
    OtherwiseMeans(msg, 12);
    hide Walked, ParseName;
    assert U16(msg, 4) == 1;
    assert SkipQuestions(msg, 12, 1) == None;
    HangsWhen(msg);
  }

  /** What a reply says about any message at all: its answers are the renderings of the longest
      run of records that stands after the questions, no more than announced, each once and in
      order; its TTL is the least positive one among them and, if the data of the next record is
      cut off, that record's. */
  lemma {:induction false} DissectMeaning(msg: bytes)
    requires |msg| >= 12 && Returns(msg)
    ensures Dissect(msg).Parsed?
    ensures exists offset: nat, rs ::
              && SkipQuestions(msg, 12, U16(msg, 4)) == Some(offset)
              && LongestRecords(msg, offset, U16(msg, 6), rs)
              && Dissect(msg).reply.answers == Rendered(rs)
              && IsLeastPositive(Dissect(msg).reply.minTTL,
                   Ttls(rs) + if |rs| < U16(msg, 6) then CutTtl(msg, RecordsEnd(offset, rs)) else [])
  {
    HangsWhen(msg);
    hide Returns, SkipQuestions, ReadAnswers, LongestRecords, IsLeastPositive, Rendered;
    var offset := SkipQuestions(msg, 12, U16(msg, 4)).value;
    var rs := LoopMeaning(msg, offset, U16(msg, 6));
  }
}
