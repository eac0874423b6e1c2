/** The compressed-name walker of pkg/probers/dns_query.go (section 4.1.4 of RFC 1035). */
module DnsName {
  import opened Bytes

  const DOT: byte := 46

  /** What the loop of parseDNSName holds at the head of an iteration, or how it left. */
  datatype Walk =
    | At(cur: nat, jumped: bool, next: nat, labels: seq<bytes>)
    | Done(labels: seq<bytes>, next: nat)
    | Failed(next: nat)

  /** The 14-bit target of the pointer at `cur`. */
  function Target(msg: bytes, cur: nat): nat
    requires cur + 1 < |msg|
  {
    U16(msg, cur) % 0x4000
  }

  /** One iteration of the loop. */
  function Step(msg: bytes, w: Walk): Walk
    requires w.At?
  {
    if w.cur >= |msg| then Failed(w.next)
    else
      var length := msg[w.cur];
      if length == 0 then Done(w.labels, if w.jumped then w.next else w.cur + 1)
      else if length >= 0xc0 then
        if w.cur + 1 >= |msg| then Failed(w.next)
        else At(Target(msg, w.cur), true, if w.jumped then w.next else w.cur + 2, w.labels)
      else if w.cur + 1 + length > |msg| then Failed(w.next)
      else At(w.cur + 1 + length, w.jumped, w.next, w.labels + [msg[w.cur + 1..w.cur + 1 + length]])
  }

  /** The loop after `n` iterations from `w` (a loop that has left stays left). */
  function Walked(msg: bytes, w: Walk, n: nat): Walk
    decreases n
  {
    if n == 0 || !w.At? then w else Walked(msg, Step(msg, w), n - 1)
  }

  function Start(offset: nat): Walk {
    At(offset, false, offset, [])
  }

  ghost predicate Halts(msg: bytes, offset: nat) {
    exists n: nat :: !Walked(msg, Start(offset), n).At?
  }

  /** What a call amounts to; Loops is a call that never returns. */
  datatype NameResult =
    | Name(labels: seq<bytes>, next: nat)
    | Malformed(next: nat)
    | Loops

  function ParseName(msg: bytes, offset: nat): NameResult {
    if offset >= |msg| then Malformed(offset)
    else
      match Walked(msg, Start(offset), |msg|)
      case At(_, _, _, _) => Loops
      case Done(labels, next) => Name(labels, next)
      case Failed(next) => Malformed(next)
  }

  // ---------------------------------------------------------------- termination

  lemma {:induction false} WalkedStep(msg: bytes, w: Walk, n: nat)
    requires Walked(msg, w, n).At?
    ensures Walked(msg, w, n + 1) == Step(msg, Walked(msg, w, n))
    decreases n
  {
    if n > 0 {
      WalkedStep(msg, Step(msg, w), n - 1);
    } else {
      assert Walked(msg, Step(msg, w), 0) == Step(msg, w);
    }
  }

  /** A walk that has left after m iterations has left, in the same way, after n >= m. */
  lemma {:induction false} WalkedStable(msg: bytes, w: Walk, m: nat, n: nat)
    requires m <= n && !Walked(msg, w, m).At?
    ensures Walked(msg, w, n) == Walked(msg, w, m)
    decreases m
  {
    if m > 0 && w.At? {
      WalkedStable(msg, Step(msg, w), m - 1, n - 1);
    }
  }

  lemma {:induction false} WalkedAdd(msg: bytes, w: Walk, m: nat, n: nat)
    ensures Walked(msg, w, m + n) == Walked(msg, Walked(msg, w, m), n)
    decreases m
  {
    if m > 0 && w.At? {
      WalkedAdd(msg, Step(msg, w), m - 1, n);
    }
  }

  /** The walk depends on `cur` alone: same offset, same sequence of offsets. */
  lemma {:induction false} SameOffsetSamePath(msg: bytes, v: Walk, w: Walk, n: nat)
    requires v.At? && w.At? && v.cur == w.cur
    ensures Walked(msg, v, n).At? <==> Walked(msg, w, n).At?
    ensures Walked(msg, v, n).At? ==> Walked(msg, v, n).cur == Walked(msg, w, n).cur
    decreases n
  {
    if n > 0 {
      var v', w' := Step(msg, v), Step(msg, w);
      if v'.At? {
        SameOffsetSamePath(msg, v', w', n - 1);
      }
    }
  }

  /** The offset examined by iteration n (n counted from 0). */
  function Visit(msg: bytes, offset: nat, n: nat): nat
    requires Walked(msg, Start(offset), n).At?
  {
    Walked(msg, Start(offset), n).cur
  }

  /** Two iterations of the same call examine the same offset. */
  ghost predicate Revisits(msg: bytes, offset: nat) {
    exists i: nat, j: nat :: i < j && RevisitsAt(msg, offset, i, j)
  }

  ghost predicate RevisitsAt(msg: bytes, offset: nat, i: nat, j: nat) {
    && Walked(msg, Start(offset), i).At?
    && Walked(msg, Start(offset), j).At?
    && Visit(msg, offset, i) == Visit(msg, offset, j)
  }

  /** Once an offset is examined twice the loop never leaves. */
  lemma {:induction false} RevisitNeverStops(msg: bytes, offset: nat, i: nat, j: nat, n: nat)
    requires i < j && RevisitsAt(msg, offset, i, j)
    ensures Walked(msg, Start(offset), n).At?
    decreases n
  {
    if !Walked(msg, Start(offset), n).At? {
      var s := Start(offset);
      if n <= j {
        WalkedStable(msg, s, n, j);
      } else {
        // from iteration j the walk repeats what it did from iteration i
        WalkedAdd(msg, s, j, n - j);
        WalkedAdd(msg, s, i, n - j);
        SameOffsetSamePath(msg, Walked(msg, s, i), Walked(msg, s, j), n - j);
        RevisitNeverStops(msg, offset, i, j, i + (n - j));
      }
    }
  }

  /** Every iteration that does not leave examines an offset below the last octet. */
  lemma ContinuesBelowLast(msg: bytes, w: Walk)
    requires w.At? && Step(msg, w).At?
    ensures w.cur + 1 < |msg|
  {
  }

  lemma {:induction false} Prefix(msg: bytes, w: Walk, m: nat, n: nat)
    requires m <= n && Walked(msg, w, n).At?
    ensures Walked(msg, w, m).At?
  {
    if !Walked(msg, w, m).At? {
      WalkedStable(msg, w, m, n);
    }
  }

  /** n numbers below b, n > b: two of them agree. */
  lemma {:induction false} Pigeonhole(s: seq<nat>, b: nat) returns (i: nat, j: nat)
    requires |s| > b && forall k :: 0 <= k < |s| ==> s[k] < b
    ensures i < j < |s| && s[i] == s[j]
    decreases b
  {
    if k :| 0 <= k < |s| - 1 && s[k] == s[|s| - 1] {
      return k, |s| - 1;
    }
    // no one agrees with the last: drop it and close the gap it leaves
    var last := s[|s| - 1];
    var t := seq(|s| - 1, k requires 0 <= k < |s| - 1 => if s[k] < last then s[k] else s[k] - 1);
    i, j := Pigeonhole(t, b - 1);
  }

  lemma {:induction false} LongWalkRevisits(msg: bytes, offset: nat) returns (i: nat, j: nat)
    requires offset < |msg| && Walked(msg, Start(offset), |msg|).At?
    ensures i < j < |msg| && RevisitsAt(msg, offset, i, j)
  {
    forall k | 0 <= k < |msg|
      ensures Walked(msg, Start(offset), k).At? && Visit(msg, offset, k) < |msg| - 1
    {
      Prefix(msg, Start(offset), k, |msg|);
      Prefix(msg, Start(offset), k + 1, |msg|);
      WalkedStep(msg, Start(offset), k);
      ContinuesBelowLast(msg, Walked(msg, Start(offset), k));
    }
    var visits := seq(|msg|, k requires 0 <= k < |msg| && Walked(msg, Start(offset), k).At?
                               => Visit(msg, offset, k));
    i, j := Pigeonhole(visits, |msg| - 1);
  }

  /** The loop has no jump limit, yet it is decided within len(msg) iterations:
      a call loops for ever exactly when it examines some offset twice. */
  lemma {:induction false} StopsWithinLengthOrRevisits(msg: bytes, offset: nat)
    requires offset < |msg|
    ensures Halts(msg, offset) <==> !Walked(msg, Start(offset), |msg|).At?
    ensures Halts(msg, offset) <==> !Revisits(msg, offset)
    ensures ParseName(msg, offset).Loops? <==> forall n: nat :: Walked(msg, Start(offset), n).At?
  {
    if Walked(msg, Start(offset), |msg|).At? {
      var i, j := LongWalkRevisits(msg, offset);
      forall n: nat ensures Walked(msg, Start(offset), n).At? {
        RevisitNeverStops(msg, offset, i, j, n);
      }
    } else {
      if i: nat, j: nat :| i < j && RevisitsAt(msg, offset, i, j) {
        RevisitNeverStops(msg, offset, i, j, |msg|);
      }
    }
  }

  /** A two-octet pointer to itself: the shortest call that never returns. */
  lemma SelfPointerLoops()
    ensures ParseName([0xc0, 0x00], 0) == Loops
    ensures !Halts([0xc0, 0x00], 0)
  {
    var msg: bytes := [0xc0, 0x00];
    var s := Start(0);
    assert Step(msg, s) == At(0, true, 2, []);
    assert Walked(msg, s, 1) == Step(msg, s) by { assert Walked(msg, Step(msg, s), 0) == Step(msg, s); }
    assert RevisitsAt(msg, 0, 0, 1);
    StopsWithinLengthOrRevisits(msg, 0);
  }

  /** Every pointer followed from `cur` targets an offset below the start of the run of
      labels it ends, as section 4.1.4's "prior occurrence" asks of a sender. */
  predicate PointsBack(msg: bytes, start: nat, cur: nat)
    requires start <= cur
    decreases start, |msg| - cur
  {
    if cur >= |msg| || msg[cur] == 0 then true
    else if msg[cur] >= 0xc0 then
      cur + 1 >= |msg| || (Target(msg, cur) < start && PointsBack(msg, Target(msg, cur), Target(msg, cur)))
    else
      cur + 1 + msg[cur] > |msg| || PointsBack(msg, start, cur + 1 + msg[cur])
  }

  lemma {:induction false} PointsBackSteps(msg: bytes, start: nat, w: Walk) returns (n: nat)
    requires w.At? && start <= w.cur && PointsBack(msg, start, w.cur)
    ensures !Walked(msg, w, n).At?
    decreases start, |msg| - w.cur
  {
    var w' := Step(msg, w);
    if w'.At? {
      var m := PointsBackSteps(msg, if msg[w.cur] >= 0xc0 then w'.cur else start, w');
      n := m + 1;
    } else {
      n := 1;
    }
  }

  /** A name whose pointers all point back is read in finitely many iterations. */
  lemma PointsBackHalts(msg: bytes, offset: nat)
    requires PointsBack(msg, offset, offset)
    ensures Halts(msg, offset) && !ParseName(msg, offset).Loops?
  {
    var n := PointsBackSteps(msg, offset, Start(offset));
    if offset < |msg| {
      StopsWithinLengthOrRevisits(msg, offset);
    }
  }

  // ---------------------------------------------------------------- meaning

  /** How section 4.1.4 derives a name: labels, then the root or a pointer to a name. */
  datatype Derivation =
    | Root
    | Label(text: bytes, rest: Derivation)
    | Pointer(target: Derivation)

  ghost predicate Encodes(msg: bytes, offset: nat, d: Derivation)
    decreases d
  {
    offset < |msg| &&
    match d
    case Root => msg[offset] == 0
    case Label(text, rest) =>
      && 0 < msg[offset] < 0xc0
      && offset + 1 + msg[offset] <= |msg|
      && text == msg[offset + 1..offset + 1 + msg[offset]]
      && Encodes(msg, offset + 1 + msg[offset], rest)
    case Pointer(target) =>
      && msg[offset] >= 0xc0
      && offset + 1 < |msg|
      && Encodes(msg, Target(msg, offset), target)
  }

  function Labels(d: Derivation): seq<bytes> {
    match d
    case Root => []
    case Label(text, rest) => [text] + Labels(rest)
    case Pointer(target) => Labels(target)
  }

  /** The offset just past the octets the name occupies where it stands. */
  function End(offset: nat, d: Derivation): nat
    decreases d
  {
    match d
    case Root => offset + 1
    case Label(text, rest) => End(offset + 1 + |text|, rest)
    case Pointer(_) => offset + 2
  }

  /** A derivation drives the loop to Done, whatever was read before. */
  lemma {:induction false} DerivationWalks(msg: bytes, w: Walk, d: Derivation) returns (n: nat)
    requires w.At? && Encodes(msg, w.cur, d)
    ensures Walked(msg, w, n) == Done(w.labels + Labels(d), if w.jumped then w.next else End(w.cur, d))
    decreases d
  {
    var w' := Step(msg, w);
    match d {
      case Root =>
        n := 1;
        assert Walked(msg, w', 0) == w';
        assert w.labels + [] == w.labels;
      case Label(text, rest) =>
        var m := DerivationWalks(msg, w', rest);
        n := m + 1;
        assert w.labels + [text] + Labels(rest) == w.labels + ([text] + Labels(rest));
      case Pointer(target) =>
        var m := DerivationWalks(msg, w', target);
        n := m + 1;
    }
  }

  /** A walk that ends in Done has a derivation. */
  lemma {:induction false} WalkDerives(msg: bytes, w: Walk, n: nat) returns (d: Derivation)
    requires w.At? && Walked(msg, w, n).Done?
    ensures Encodes(msg, w.cur, d)
    ensures Walked(msg, w, n) == Done(w.labels + Labels(d), if w.jumped then w.next else End(w.cur, d))
    decreases n
  {
    var w' := Step(msg, w);
    if w'.At? {
      var d' := WalkDerives(msg, w', n - 1);
      if msg[w.cur] >= 0xc0 {
        d := Pointer(d');
      } else {
        d := Label(msg[w.cur + 1..w.cur + 1 + msg[w.cur]], d');
        assert w.labels + [d.text] + Labels(d') == w.labels + ([d.text] + Labels(d'));
      }
    } else {
      d := Root;
      assert w.labels + [] == w.labels;
    }
  }

  lemma {:induction false} EndBound(msg: bytes, offset: nat, d: Derivation)
    requires Encodes(msg, offset, d)
    ensures offset < End(offset, d) <= |msg|
    decreases d
  {
    if d.Label? {
      EndBound(msg, offset + 1 + msg[offset], d.rest);
    }
  }

  /** The loop computes the recursive meaning of a compressed name, no more and no less;
      the returned offset is just past the name where it stands, whatever lies beyond a jump. */
  lemma {:induction false} ParseMeansDerivation(msg: bytes, offset: nat, labels: seq<bytes>, next: nat)
    ensures ParseName(msg, offset) == Name(labels, next)
            <==> exists d :: Encodes(msg, offset, d) && Labels(d) == labels && End(offset, d) == next
    ensures ParseName(msg, offset) == Name(labels, next) ==> offset < next <= |msg|
  {
    if ParseName(msg, offset) == Name(labels, next) {
      var d := WalkDerives(msg, Start(offset), |msg|);
      assert [] + Labels(d) == Labels(d);
      assert Encodes(msg, offset, d) && Labels(d) == labels && End(offset, d) == next;
      EndBound(msg, offset, d);
    }
    if d :| Encodes(msg, offset, d) && Labels(d) == labels && End(offset, d) == next {
      EncodedNameParses(msg, offset, d);
    }
  }

  lemma {:induction false} EncodedNameParses(msg: bytes, offset: nat, d: Derivation)
    requires Encodes(msg, offset, d)
    ensures ParseName(msg, offset) == Name(Labels(d), End(offset, d))
  {
    var n := DerivationWalks(msg, Start(offset), d);
    StopsWithinLengthOrRevisits(msg, offset);
    assert Halts(msg, offset);
    WalkedStable(msg, Start(offset), if n <= |msg| then n else |msg|, if n <= |msg| then |msg| else n);
    assert [] + Labels(d) == Labels(d);
  }

  /** The two other results, without the walk: a call loops iff no iteration leaves, and errs iff it
      leaves although no name is encoded there. */
  lemma {:induction false} OtherwiseMeans(msg: bytes, offset: nat)
    ensures ParseName(msg, offset).Loops? <==> !Halts(msg, offset)
    ensures ParseName(msg, offset).Malformed? <==> Halts(msg, offset) && !exists d :: Encodes(msg, offset, d)
  {
    if offset >= |msg| {
      assert !Walked(msg, Start(offset), 1).At? by {
        assert Step(msg, Start(offset)) == Failed(offset);
      }
    } else {
      StopsWithinLengthOrRevisits(msg, offset);
    }
    forall d | Encodes(msg, offset, d) ensures ParseName(msg, offset).Name? {
      EncodedNameParses(msg, offset, d);
    }
    if ParseName(msg, offset).Name? {
      ParseMeansDerivation(msg, offset, ParseName(msg, offset).labels, ParseName(msg, offset).next);
    }
  }

  // What a call returns, octet by octet, in terms of calls further on.

  lemma {:induction false} HaltsAfterStep(msg: bytes, offset: nat)
    requires Step(msg, Start(offset)).At?
    ensures Halts(msg, offset) <==> Halts(msg, Step(msg, Start(offset)).cur)
  {
    var w := Step(msg, Start(offset));
    forall n: nat ensures Walked(msg, Start(offset), n + 1).At? <==> Walked(msg, Start(w.cur), n).At? {
      SameOffsetSamePath(msg, w, Start(w.cur), n);
    }
    if n: nat :| !Walked(msg, Start(offset), n).At? {
      assert n > 0 && !Walked(msg, Start(offset), n - 1 + 1).At?;
      assert !Walked(msg, Start(w.cur), n - 1).At?;
    }
    if n: nat :| !Walked(msg, Start(w.cur), n).At? {
      assert !Walked(msg, Start(offset), n + 1).At?;
    }
  }

  /** A name that goes on elsewhere is read, errs or never ends as what it goes on with does. */
  lemma {:induction false} GoesOnAs(msg: bytes, offset: nat)
    requires Step(msg, Start(offset)).At?
    ensures ParseName(msg, offset).Loops? <==> ParseName(msg, Step(msg, Start(offset)).cur).Loops?
    ensures ParseName(msg, offset).Name? <==> ParseName(msg, Step(msg, Start(offset)).cur).Name?
  {
    var w, here := Step(msg, Start(offset)), ParseName(msg, offset);
    var there := ParseName(msg, w.cur);
    HaltsAfterStep(msg, offset);
    OtherwiseMeans(msg, offset);
    OtherwiseMeans(msg, w.cur);
    if here.Name? {
      ParseMeansDerivation(msg, offset, here.labels, here.next);
      var d :| Encodes(msg, offset, d) && Labels(d) == here.labels && End(offset, d) == here.next;
      EncodedNameParses(msg, w.cur, if d.Label? then d.rest else d.target);
    }
    if there.Name? {
      ParseMeansDerivation(msg, w.cur, there.labels, there.next);
      var d :| Encodes(msg, w.cur, d) && Labels(d) == there.labels && End(w.cur, d) == there.next;
      EncodedNameParses(msg, offset, if msg[offset] >= 0xc0 then Pointer(d) else Label(w.labels[0], d));
    }
  }

  /** A label of 1 to 191 octets, with its length before it, comes first in the name that follows. */
  lemma LabelReads(msg: bytes, offset: nat, text: bytes)
    requires 1 <= |text| <= 191 && Stands(msg, offset, [|text|] + text)
    ensures var here, rest := ParseName(msg, offset), ParseName(msg, offset + 1 + |text|);
            match rest
            case Name(labels, next) => here == Name([text] + labels, next)
            case Malformed(_) => here.Malformed?
            case Loops => here == Loops
  {
    StandsParts(msg, offset, [|text|], text);
    StandsOctet(msg, offset, [|text|], 0);
    var next := offset + 1 + |text|;
    assert Step(msg, Start(offset)).At? && Step(msg, Start(offset)).cur == next;
    GoesOnAs(msg, offset);
    var rest := ParseName(msg, next);
    if rest.Name? {
      ParseMeansDerivation(msg, next, rest.labels, rest.next);
      var d :| Encodes(msg, next, d) && Labels(d) == rest.labels && End(next, d) == rest.next;
      hide ParseName;
      assert Encodes(msg, offset, Label(text, d));
      EncodedNameParses(msg, offset, Label(text, d));
    }
  }

  /** The two octets c000 + t stand for the name at t, and the message goes on behind them. */
  lemma PointerReads(msg: bytes, offset: nat, t: nat)
    requires t < 0x4000 && Stands(msg, offset, [0xc0 + t / 256, t % 256])
    ensures match ParseName(msg, t)
            case Name(labels, _) => ParseName(msg, offset) == Name(labels, offset + 2)
            case Malformed(_) => ParseName(msg, offset).Malformed?
            case Loops => ParseName(msg, offset) == Loops
  {
    StandsOctet(msg, offset, [0xc0 + t / 256, t % 256], 0);
    StandsOctet(msg, offset, [0xc0 + t / 256, t % 256], 1);
    assert U16(msg, offset) == 0xc000 + t;
    assert Step(msg, Start(offset)).At? && Step(msg, Start(offset)).cur == t;
    GoesOnAs(msg, offset);
    var target := ParseName(msg, t);
    if target.Name? {
      ParseMeansDerivation(msg, t, target.labels, target.next);
      var d :| Encodes(msg, t, d) && Labels(d) == target.labels && End(t, d) == target.next;
      hide ParseName;
      assert Encodes(msg, offset, Pointer(d));
      EncodedNameParses(msg, offset, Pointer(d));
    }
  }

  /** Where a name ends: the zero octet; or with an error, at the end of the message. */
  lemma EndReads(msg: bytes, offset: nat)
    ensures offset < |msg| && msg[offset] == 0 ==> ParseName(msg, offset) == Name([], offset + 1)
    ensures offset >= |msg| ==> ParseName(msg, offset).Malformed?
    ensures offset < |msg| && 1 <= msg[offset] <= 191 && offset + 1 + msg[offset] > |msg| ==>
              ParseName(msg, offset).Malformed?
    ensures offset + 1 == |msg| && msg[offset] >= 192 ==> ParseName(msg, offset).Malformed?
  {
    if offset < |msg| {
      var w := Step(msg, Start(offset));
      if !w.At? {
        assert Walked(msg, Start(offset), 1) == w;
        WalkedStable(msg, Start(offset), 1, |msg|);
      }
    }
  }

  // ---------------------------------------------------------------- the loop itself

  /** parseDNSName. The requires is exactly "the call returns": see StopsWithinLengthOrRevisits. */
  method ParseDNSName(msg: bytes, offset: nat) returns (name: bytes, next: nat, ok: bool)
    requires !ParseName(msg, offset).Loops?
    ensures ok <==> exists d :: Encodes(msg, offset, d)
    ensures ok ==> offset < next <= |msg|
    ensures match ParseName(msg, offset)
            case Name(labels, after) => ok && name == Join(labels, DOT) && next == after
            case Malformed(after) => !ok && name == [] && next == after
            case Loops => false
  {
    if offset >= |msg| {
      return [], offset, false;
    }
    var labels: seq<bytes> := [];
    var cur: nat, jumped, nextOffset: nat := offset, false, offset;
    ghost var n := 0;
    while true
      invariant n <= |msg|
      invariant Walked(msg, Start(offset), n) == At(cur, jumped, nextOffset, labels)
      invariant !Walked(msg, Start(offset), |msg|).At?
      decreases |msg| - n
    {
      ghost var w := Walked(msg, Start(offset), n);
      WalkedStep(msg, Start(offset), n);
      if !Step(msg, w).At? {
        WalkedStable(msg, Start(offset), n + 1, |msg|);
        if Step(msg, w).Done? {
          ParseMeansDerivation(msg, offset, Step(msg, w).labels, Step(msg, w).next);
        } else {
          forall d | Encodes(msg, offset, d) ensures false {
            EncodedNameParses(msg, offset, d);
          }
        }
      }
      if cur >= |msg| {
        return [], nextOffset, false;
      }
      var length := msg[cur];
      if length == 0 {
        if !jumped {
          nextOffset := cur + 1;
        }
        return Join(labels, DOT), nextOffset, true;
      }
      n := n + 1;
      if length >= 0xc0 {
        if cur + 1 >= |msg| {
          return [], nextOffset, false;
        }
        var ptr := U16(msg, cur) % 0x4000;
        if !jumped {
          nextOffset := cur + 2;
          jumped := true;
        }
        cur := ptr;
        continue;
      }
      cur := cur + 1;
      if cur + length > |msg| {
        return [], nextOffset, false;
      }
      labels := labels + [msg[cur..cur + length]];
      cur := cur + length;
    }
  }
}
