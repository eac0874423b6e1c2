/** The event broadcaster of pkg/web/broadcaster.go: bounded history, paging, lossy subscriber buffers. */
module Broadcaster {
  import opened Wrappers

  /** Of web.ProbeEvent, what the broadcaster looks at or rewrites, and the sequence number. */
  datatype ProbeEvent = ProbeEvent(
    rawTime: int, timestamp: string, sequence: nat, success: bool,
    target: string, hostname: string, ip: string, diagnostics: string, error: string)

  const SLOTS := 32
  const DEFAULT_HISTORY := 1_000_000
  const TOP_HISTORY := 5_000_000

  /** A subscriber's channel: what waits in it, and what its reader has taken from it. */
  datatype Inbox = Inbox(buffer: seq<ProbeEvent>, taken: seq<ProbeEvent>, closed: bool)

  datatype Hub<K> = Hub(history: seq<ProbeEvent>, maxHistory: int, inboxes: map<K, Inbox>)

  datatype Op<K> =
    | Subscribe(who: K)
    | Unsubscribe(who: K)
    | Receive(who: K)
    | Broadcast(event: ProbeEvent)
    | SetMaxHistory(limit: int)
    | ClearHistory

  function Min(a: int, b: int): int {
    if a < b then a else b
  }

  function LastOf<T>(s: seq<T>, n: nat): seq<T> {
    if |s| > n then s[|s| - n..] else s
  }

  /** The limit in force. */
  function Limit(maxHistory: int): nat {
    if maxHistory <= 0 then DEFAULT_HISTORY else maxHistory
  }

  function Clamp(limit: int): int {
    if limit <= 0 then DEFAULT_HISTORY else Min(limit, TOP_HISTORY)
  }

  /** A send that does not wait. */
  function Offer(box: Inbox, event: ProbeEvent): Inbox {
    if box.closed || |box.buffer| >= SLOTS then box else box.(buffer := box.buffer + [event])
  }

  function Take(box: Inbox): Inbox {
    if |box.buffer| == 0 then box else box.(buffer := box.buffer[1..], taken := box.taken + [box.buffer[0]])
  }

  function OfferAll<K>(inboxes: map<K, Inbox>, event: ProbeEvent): map<K, Inbox> {
    map who | who in inboxes :: Offer(inboxes[who], event)
  }

  /** What each operation does, whoever the subscribers are. */
  ghost function Step<K>(h: Hub<K>, op: Op<K>): Hub<K> {
    match op
    case Subscribe(who) => if who in h.inboxes then h else h.(inboxes := h.inboxes[who := Inbox([], [], false)])
    case Unsubscribe(who) =>
      if who in h.inboxes then h.(inboxes := h.inboxes[who := h.inboxes[who].(closed := true)]) else h
    case Receive(who) => if who in h.inboxes then h.(inboxes := h.inboxes[who := Take(h.inboxes[who])]) else h
    case Broadcast(event) =>
      h.(history := LastOf(h.history + [event], Limit(h.maxHistory)), inboxes := OfferAll(h.inboxes, event))
    case SetMaxHistory(limit) => h.(maxHistory := Clamp(limit), history := LastOf(h.history, Clamp(limit)))
    case ClearHistory => h.(history := [])
  }

  ghost function Run<K>(ops: seq<Op<K>>): Hub<K> {
    if |ops| == 0 then Hub([], DEFAULT_HISTORY, map[])
    else Step(Run(ops[..|ops| - 1]), ops[|ops| - 1])
  }

  // ---------------------------------------------------------------- history

  /** The events broadcast since the history was last cleared. */
  ghost function SinceClear<K>(ops: seq<Op<K>>): seq<ProbeEvent> {
    if |ops| == 0 then []
    else
      var before := SinceClear(ops[..|ops| - 1]);
      match ops[|ops| - 1]
      case Broadcast(event) => before + [event]
      case ClearHistory => []
      case _ => before
  }

  /** The lowest limit in force at any moment since then. */
  ghost function LowestLimit<K>(ops: seq<Op<K>>): nat {
    if |ops| == 0 then DEFAULT_HISTORY
    else
      var before := LowestLimit(ops[..|ops| - 1]);
      match ops[|ops| - 1]
      case SetMaxHistory(limit) => Min(before, Clamp(limit))
      case ClearHistory => Limit(Run(ops).maxHistory)
      case _ => before
  }

  lemma SuffixOfSuffix(history: seq<ProbeEvent>, since: seq<ProbeEvent>, n: nat)
    requires history == LastOf(since, |history|)
    ensures LastOf(history, n) == LastOf(since, |LastOf(history, n)|)
    ensures |LastOf(history, n)| == Min(|history|, n)
  {
  }

  lemma SuffixGrows(history: seq<ProbeEvent>, since: seq<ProbeEvent>, event: ProbeEvent)
    requires history == LastOf(since, |history|)
    ensures history + [event] == LastOf(since + [event], |history + [event]|)
  {
  }

  ghost predicate Retains(history: seq<ProbeEvent>, since: seq<ProbeEvent>, lowest: nat, limit: nat) {
    && history == LastOf(since, |history|)
    && Min(|since|, lowest) <= |history| <= limit
    && lowest <= limit
  }

  /** After any operations the history is the last of the events since the clear: no more than the
      limit now in force, and no fewer than the lowest limit there was, unless there are fewer. */
  lemma {:induction false} HistoryIsSuffix<K>(ops: seq<Op<K>>)
    ensures Retains(Run(ops).history, SinceClear(ops), LowestLimit(ops), Limit(Run(ops).maxHistory))
  {
    if |ops| > 0 {
      var before, op := ops[..|ops| - 1], ops[|ops| - 1];
      HistoryIsSuffix(before);
      RetainsStep(Run(before), SinceClear(before), LowestLimit(before), op);
      hide Retains, Step, LastOf, Limit, Clamp;
    }
  }

  lemma RetainsStep<K>(h: Hub<K>, since: seq<ProbeEvent>, lowest: nat, op: Op<K>)
    requires Retains(h.history, since, lowest, Limit(h.maxHistory))
    ensures var h' := Step(h, op);
            match op
            case Broadcast(event) => Retains(h'.history, since + [event], lowest, Limit(h'.maxHistory))
            case SetMaxHistory(limit) => Retains(h'.history, since, Min(lowest, Clamp(limit)), Limit(h'.maxHistory))
            case ClearHistory => Retains(h'.history, [], Limit(h'.maxHistory), Limit(h'.maxHistory))
            case _ => h'.history == h.history && h'.maxHistory == h.maxHistory
  {
    hide LastOf;
    match op
    case Broadcast(event) =>
      SuffixGrows(h.history, since, event);
      SuffixOfSuffix(h.history + [event], since + [event], Limit(h.maxHistory));
    case SetMaxHistory(limit) =>
      SuffixOfSuffix(h.history, since, Clamp(limit));
    case ClearHistory =>
      NothingRetained(Limit(h.maxHistory), Limit(h.maxHistory));
    case _ =>
  }

  lemma NothingRetained(lowest: nat, limit: nat)
    requires lowest <= limit
    ensures Retains([], [], lowest, limit)
  {
  }

  /** In other words: the newest of them. */
  lemma HistoryIsTail<K>(ops: seq<Op<K>>)
    ensures var h, since := Run(ops).history, SinceClear(ops);
            |h| <= |since| && h == since[|since| - |h|..]
  {
    HistoryIsSuffix(ops);
    hide Run, SinceClear, LowestLimit, Limit;
  }

  /** As long as the limit is not lowered the two bounds meet: the last `limit` events, exactly. */
  lemma HistoryIsLast<K>(ops: seq<Op<K>>)
    requires LowestLimit(ops) == Limit(Run(ops).maxHistory)
    ensures Run(ops).history == LastOf(SinceClear(ops), Limit(Run(ops).maxHistory))
  {
    HistoryIsSuffix(ops);
  }

  /** How many operations there were up to and with the last clear. */
  ghost function LastClear<K>(ops: seq<Op<K>>): (k: nat)
    ensures k <= |ops|
  {
    if |ops| == 0 then 0
    else if ops[|ops| - 1].ClearHistory? then |ops|
    else LastClear(ops[..|ops| - 1])
  }

  ghost function Sent<K>(ops: seq<Op<K>>): nat {
    if |ops| == 0 then 0 else Sent(ops[..|ops| - 1]) + if ops[|ops| - 1].Broadcast? then 1 else 0
  }

  /** What the limit in force after k operations leaves room for in the end. */
  ghost function Room<K>(ops: seq<Op<K>>, k: nat): nat
    requires k <= |ops|
  {
    Limit(Run(ops[..k]).maxHistory) + Sent(ops[k..])
  }

  /** n is the least of the number of events since the clear and of every such room since. */
  ghost predicate IsLeastRoom<K>(ops: seq<Op<K>>, n: nat) {
    && n <= |SinceClear(ops)|
    && (forall k | LastClear(ops) <= k <= |ops| :: n <= Room(ops, k))
    && (n == |SinceClear(ops)| || exists k :: LastClear(ops) <= k <= |ops| && n == Room(ops, k))
  }

  lemma RoomSnoc<K>(ops: seq<Op<K>>, op: Op<K>, k: nat)
    requires k <= |ops|
    ensures Room(ops + [op], k) == Room(ops, k) + if op.Broadcast? then 1 else 0
  {
    var more := ops + [op];
    assert more[..k] == ops[..k] && more[k..] == ops[k..] + [op];
    assert more[k..][..|ops| - k] == ops[k..];
  }

  lemma RoomNow<K>(ops: seq<Op<K>>)
    ensures Room(ops, |ops|) == Limit(Run(ops).maxHistory)
  {
    assert ops[..|ops|] == ops && ops[|ops|..] == [];
  }

  /** With HistoryIsSuffix, the exact history after any operations: the last of the events since the
      clear, as many as the tightest of the limits since then has left, with the events sent since. */
  lemma {:induction false} HistoryLength<K>(ops: seq<Op<K>>)
    ensures IsLeastRoom(ops, |Run(ops).history|)
  {
    RoomNow(ops);
    HistoryIsSuffix(ops);
    if |ops| > 0 {
      var before, op := ops[..|ops| - 1], ops[|ops| - 1];
      assert ops == before + [op];
      HistoryLength(before);
      var h, n, n' := Run(before), |Run(before).history|, |Run(ops).history|;
      LengthStep(h, op);
      hide Step, Run, LastOf;
      if !op.ClearHistory? {
        forall k | LastClear(ops) <= k <= |ops| ensures n' <= Room(ops, k) {
          if k < |ops| {
            RoomSnoc(before, op, k);
          }
        }
        if n' < Room(ops, |ops|) && n < |SinceClear(before)| {
          var k :| LastClear(before) <= k <= |before| && n == Room(before, k);
          RoomSnoc(before, op, k);
        }
      }
    }
  }

  lemma LengthStep<K>(h: Hub<K>, op: Op<K>)
    ensures |Step(h, op).history| == match op
              case Broadcast(_) => Min(|h.history| + 1, Limit(Step(h, op).maxHistory))
              case SetMaxHistory(_) => Min(|h.history|, Limit(Step(h, op).maxHistory))
              case ClearHistory => 0
              case _ => |h.history|
  {
  }

  /** The limit in force: a million at first and for limits that are not positive, at most five
      million, and otherwise the one last set. */
  lemma LimitIs<K>(ops: seq<Op<K>>, limit: int)
    ensures Limit(Run<K>([]).maxHistory) == 1_000_000
    ensures Limit(Run(ops + [SetMaxHistory(limit)]).maxHistory)
            == if limit <= 0 then 1_000_000 else if limit > 5_000_000 then 5_000_000 else limit
    ensures forall op: Op<K> | !op.SetMaxHistory? :: Run(ops + [op]).maxHistory == Run(ops).maxHistory
  {
    RunSnoc(ops, SetMaxHistory(limit));
    forall op: Op<K> | !op.SetMaxHistory? ensures Run(ops + [op]).maxHistory == Run(ops).maxHistory {
      RunSnoc(ops, op);
    }
  }

  // ---------------------------------------------------------------- subscribers

  /** An event sent while a subscription was open, and whether its buffer was full just then. */
  datatype Offered = Offered(event: ProbeEvent, full: bool)

  ghost function Offers<K>(ops: seq<Op<K>>, who: K): seq<Offered> {
    if |ops| == 0 then []
    else
      var h, op := Run(ops[..|ops| - 1]), ops[|ops| - 1];
      Offers(ops[..|ops| - 1], who)
      + if op.Broadcast? && who in h.inboxes && !h.inboxes[who].closed
        then [Offered(op.event, |h.inboxes[who].buffer| == 32)] else []
  }

  ghost function Events(offers: seq<Offered>): (r: seq<ProbeEvent>)
    ensures |r| == |offers|
  {
    seq(|offers|, i requires 0 <= i < |offers| => offers[i].event)
  }

  ghost function Accepted(offers: seq<Offered>): (r: seq<ProbeEvent>)
    ensures |r| <= |offers|
  {
    if |offers| == 0 then []
    else
      var last := offers[|offers| - 1];
      Accepted(offers[..|offers| - 1]) + if last.full then [] else [last.event]
  }

  lemma AcceptedSnoc(offers: seq<Offered>, o: Offered)
    ensures Accepted(offers + [o]) == Accepted(offers) + if o.full then [] else [o.event]
  {
    assert (offers + [o])[..|offers|] == offers;
  }

  /** What a subscriber has taken and what still waits for it, in this order, are the events sent
      while it was subscribed, in order, less those that met its own buffer full. */
  lemma {:induction false} Delivery<K>(ops: seq<Op<K>>, who: K)
    ensures var h := Run(ops);
            if who in h.inboxes then
              && h.inboxes[who].taken + h.inboxes[who].buffer == Accepted(Offers(ops, who))
              && |h.inboxes[who].buffer| <= 32
            else Offers(ops, who) == []
  {
    if |ops| > 0 {
      var before, op := ops[..|ops| - 1], ops[|ops| - 1];
      Delivery(before, who);
      var h := Run(before);
      if who in h.inboxes {
        InboxStep(h, op, who);
        var box := h.inboxes[who];
        if op.Broadcast? && !box.closed {
          AcceptedSnoc(Offers(before, who), Offered(op.event, |box.buffer| == 32));
        } else {
          assert Offers(ops, who) == Offers(before, who);
        }
        hide Accepted, Offer, Take, Step;
      }
    }
  }

  /** The only step that adds to what a subscriber has is a broadcast that finds room. */
  lemma InboxStep<K>(h: Hub<K>, op: Op<K>, who: K)
    requires who in h.inboxes && |h.inboxes[who].buffer| <= SLOTS
    ensures who in Step(h, op).inboxes
    ensures var box, box' := h.inboxes[who], Step(h, op).inboxes[who];
            && |box'.buffer| <= SLOTS
            && box'.taken + box'.buffer
               == box.taken + box.buffer
                  + if op.Broadcast? && !box.closed && |box.buffer| < SLOTS then [op.event] else []
  {
    var box := h.inboxes[who];
    TakeKeeps(box);
    if op.Broadcast? {
      assert box.taken + (box.buffer + [op.event]) == box.taken + box.buffer + [op.event];
    }
    assert box.taken + box.buffer + [] == box.taken + box.buffer;
  }

  lemma TakeKeeps(box: Inbox)
    ensures Take(box).taken + Take(box).buffer == box.taken + box.buffer
  {
    if |box.buffer| > 0 {
      assert box.buffer == [box.buffer[0]] + box.buffer[1..];
    }
  }

  lemma {:induction false} AllAccepted(offers: seq<Offered>)
    ensures |Accepted(offers)| == |offers| <==> forall i | 0 <= i < |offers| :: !offers[i].full
    ensures |Accepted(offers)| == |offers| ==> Accepted(offers) == Events(offers)
  {
    if |offers| > 0 {
      var front, last := offers[..|offers| - 1], offers[|offers| - 1];
      AllAccepted(front);
      assert forall i | 0 <= i < |front| :: offers[i] == front[i];
      assert Events(offers) == Events(front) + [last.event];
    }
  }

  /** Nothing is missing exactly when no event met a full buffer. */
  lemma NothingMissing<K>(ops: seq<Op<K>>, who: K)
    requires who in Run(ops).inboxes
    ensures var box, offers := Run(ops).inboxes[who], Offers(ops, who);
            box.taken + box.buffer == Events(offers) <==> forall i | 0 <= i < |offers| :: !offers[i].full
  {
    Delivery(ops, who);
    AllAccepted(Offers(ops, who));
  }

  lemma ClosedStep<K>(ops: seq<Op<K>>, op: Op<K>, who: K)
    requires who in Run(ops).inboxes && Run(ops).inboxes[who].closed
    ensures Offers(ops + [op], who) == Offers(ops, who)
    ensures who in Run(ops + [op]).inboxes && Run(ops + [op]).inboxes[who].closed
  {
    assert (ops + [op])[..|ops|] == ops;
    assert Offers(ops, who) + [] == Offers(ops, who);
  }

  lemma UnsubscribeCloses<K>(ops: seq<Op<K>>, who: K)
    requires who in Run(ops).inboxes
    ensures Offers(ops + [Unsubscribe(who)], who) == Offers(ops, who)
    ensures var later := Run(ops + [Unsubscribe(who)]).inboxes; who in later && later[who].closed
  {
    assert (ops + [Unsubscribe(who)])[..|ops|] == ops;
    assert Offers(ops, who) + [] == Offers(ops, who);
  }

  /** Once unsubscribed, nothing more is sent to it: what it can still take is what was sent before. */
  lemma {:induction false} SilentAfterUnsubscribe<K>(ops: seq<Op<K>>, who: K, more: seq<Op<K>>)
    requires who in Run(ops).inboxes
    ensures Offers(ops + [Unsubscribe(who)] + more, who) == Offers(ops, who)
    ensures var later := Run(ops + [Unsubscribe(who)] + more).inboxes; who in later && later[who].closed
    decreases |more|
  {
    hide Offers, Run;
    var all, closed := ops + [Unsubscribe(who)] + more, ops + [Unsubscribe(who)];
    if |more| == 0 {
      assert all == closed;
      UnsubscribeCloses(ops, who);
    } else {
      var before, op := more[..|more| - 1], more[|more| - 1];
      SilentAfterUnsubscribe(ops, who, before);
      assert all == closed + before + [op];
      ClosedStep(closed + before, op, who);
    }
  }

  /** Operations that touch the channel of `who`. */
  ghost predicate Concerns<K>(op: Op<K>, who: K) {
    match op
    case Subscribe(w) => w == who
    case Unsubscribe(w) => w == who
    case Receive(w) => w == who
    case Broadcast(_) => true
    case _ => false
  }

  ghost function Project<K>(ops: seq<Op<K>>, who: K): seq<Op<K>> {
    if |ops| == 0 then []
    else
      Project(ops[..|ops| - 1], who) + if Concerns(ops[|ops| - 1], who) then [ops[|ops| - 1]] else []
  }

  lemma RunSnoc<K>(ops: seq<Op<K>>, op: Op<K>)
    ensures Run(ops + [op]) == Step(Run(ops), op)
  {
    assert (ops + [op])[..|ops|] == ops;
  }

  /** Strike out all that other subscribers do, and all changes to the history: what one subscriber
      gets is the same. */
  lemma {:induction false} NoInterference<K>(ops: seq<Op<K>>, who: K)
    ensures var all, alone := Run(ops).inboxes, Run(Project(ops, who)).inboxes;
            && (who in all <==> who in alone)
            && (who in all ==> all[who] == alone[who])
  {
    if |ops| > 0 {
      var before, op := ops[..|ops| - 1], ops[|ops| - 1];
      NoInterference(before, who);
      if Concerns(op, who) {
        RunSnoc(Project(before, who), op);
      } else {
        assert Project(ops, who) == Project(before, who);
      }
    }
  }

  // ---------------------------------------------------------------- paging

  ghost predicate Wanted(e: ProbeEvent, target: string, status: string) {
    && (target == "" || e.target == target || e.hostname == target || e.ip == target)
    && (status == "success" ==> e.success)
    && (status == "failed" ==> !e.success)
  }

  /** The wanted events, newest first. */
  ghost function Matching(history: seq<ProbeEvent>, target: string, status: string): (r: seq<ProbeEvent>)
    ensures |r| <= |history|
  {
    if |history| == 0 then []
    else
      (if Wanted(history[0], target, status) then Matching(history[1..], target, status) + [history[0]]
       else Matching(history[1..], target, status))
  }

  /** Later stretches of the history come out before earlier ones. */
  lemma {:induction false} MatchingSplits(a: seq<ProbeEvent>, b: seq<ProbeEvent>, target: string, status: string)
    ensures Matching(a + b, target, status) == Matching(b, target, status) + Matching(a, target, status)
  {
    if |a| == 0 {
      assert a + b == b;
    } else {
      MatchingSplits(a[1..], b, target, status);
      assert (a + b)[1..] == a[1..] + b && (a + b)[0] == a[0];
      var late, early := Matching(b, target, status), Matching(a[1..], target, status);
      assert (late + early) + [a[0]] == late + (early + [a[0]]);
    }
  }

  /** Each wanted event comes out as often as it is in the history, and no other. */
  lemma {:induction false} MatchingCounts(history: seq<ProbeEvent>, target: string, status: string, e: ProbeEvent)
    ensures multiset(Matching(history, target, status))[e]
            == if Wanted(e, target, status) then multiset(history)[e] else 0
  {
    if |history| > 0 {
      MatchingCounts(history[1..], target, status, e);
      assert history == [history[0]] + history[1..];
    }
  }

  /** What the two filters ask for. No status but the two narrows anything down. */
  lemma MatchingMeans(history: seq<ProbeEvent>, target: string, status: string, e: ProbeEvent)
    ensures e in Matching(history, target, status)
            <==> && e in history
                 && (target != "" ==> target in {e.target, e.hostname, e.ip})
                 && (e.success ==> status != "failed") && (!e.success ==> status != "success")
    ensures |Matching(history, target, "success")| + |Matching(history, target, "failed")|
            == |Matching(history, target, "")|
    ensures status !in {"success", "failed"} ==> Matching(history, target, status) == Matching(history, target, "")
    ensures |Matching(history, "", "")| == |history|
  {
    MatchingCounts(history, target, status, e);
    MatchingParts(history, target, status);
    assert e in Matching(history, target, status) <==> multiset(Matching(history, target, status))[e] > 0;
    assert e in history <==> multiset(history)[e] > 0;
  }

  lemma {:induction false} MatchingParts(history: seq<ProbeEvent>, target: string, status: string)
    ensures |Matching(history, target, "success")| + |Matching(history, target, "failed")|
            == |Matching(history, target, "")|
    ensures status !in {"success", "failed"} ==> Matching(history, target, status) == Matching(history, target, "")
    ensures |Matching(history, "", "")| == |history|
  {
    if |history| > 0 {
      MatchingParts(history[1..], target, status);
    }
  }

  function PageSize(limit: int): nat {
    if limit <= 0 || limit > 500 then 50 else limit
  }

  function Page(all: seq<ProbeEvent>, limit: int, offset: int): seq<ProbeEvent> {
    var from := if offset < 0 then 0 else Min(offset, |all|);
    all[from..Min(from + PageSize(limit), |all|)]
  }

  lemma PageDefaults(all: seq<ProbeEvent>, limit: int, offset: int, size: nat, skip: nat)
    requires size == PageSize(limit) && skip == if offset < 0 then 0 else offset
    ensures Page(all, limit, offset) == Page(all, size, skip) && PageSize(size) == size
  {
  }

  lemma NothingMatches(target: string, status: string, limit: int, offset: int)
    ensures Matching([], target, status) == [] && Page([], limit, offset) == []
  {
  }

  lemma MatchingStep(history: seq<ProbeEvent>, i: nat, target: string, status: string)
    requires i < |history|
    ensures Matching(history[i..], target, status)
            == var older := Matching(history[i + 1..], target, status);
               if Wanted(history[i], target, status) then older + [history[i]] else older
  {
    assert history[i..][1..] == history[i + 1..];
  }

  lemma PageGrows(all: seq<ProbeEvent>, e: ProbeEvent, limit: int, offset: nat)
    ensures Page(all + [e], limit, offset)
            == var page := Page(all, limit, offset);
               if |all| + 1 > offset && |page| < PageSize(limit) then page + [e] else page
  {
  }

  /** The pages at offsets 0, limit, 2 * limit, ... one behind the other. */
  ghost function Pages(all: seq<ProbeEvent>, limit: nat, n: nat): seq<ProbeEvent> {
    if n == 0 then [] else Pages(all, limit, n - 1) + Page(all, limit, (n - 1) * limit)
  }

  lemma PageExtends(all: seq<ProbeEvent>, limit: nat, offset: nat)
    requires 1 <= limit <= 500
    ensures all[..Min(offset, |all|)] + Page(all, limit, offset) == all[..Min(offset + limit, |all|)]
  {
  }

  lemma {:induction false} PagesTile(all: seq<ProbeEvent>, limit: nat, n: nat)
    requires 1 <= limit <= 500
    ensures Pages(all, limit, n) == all[..Min(n * limit, |all|)]
  {
    if n > 0 {
      PagesTile(all, limit, n - 1);
      PageExtends(all, limit, (n - 1) * limit);
      assert n * limit == (n - 1) * limit + limit;
      hide Page;
    }
  }

  lemma {:induction false} PagesGap(all: seq<ProbeEvent>, limit: nat, n: nat)
    requires limit > 500 && |all| > 50 && n > 0
    ensures |Pages(all, limit, n)| < Min(n * limit, |all|)
  {
    if n == 1 {
      assert Pages(all, limit, 0) == [];
    } else {
      PagesGap(all, limit, n - 1);
      assert n * limit == (n - 1) * limit + limit;
    }
  }

  lemma {:induction false} PagesOfFew(all: seq<ProbeEvent>, limit: nat, n: nat)
    requires limit > 500 && |all| <= 50 && n > 0
    ensures Pages(all, limit, n) == all
  {
    if n == 1 {
      assert Pages(all, limit, 0) == [];
    } else {
      PagesOfFew(all, limit, n - 1);
      assert (n - 1) * limit >= limit by { assert n - 1 >= 1; Grows(n - 1, limit); }
    }
  }

  lemma Grows(n: nat, limit: nat)
    requires n >= 1
    ensures n * limit >= limit
  {
    assert n * limit == (n - 1) * limit + limit;
  }

  /** A client that pages through the matches until it is past them gets each of them once, in
      order, exactly if its limit is one the broadcaster honours or one page of 50 holds them all. */
  lemma PagesCover(all: seq<ProbeEvent>, limit: nat, n: nat)
    requires limit >= 1 && n * limit >= |all| && n > 0
    ensures Pages(all, limit, n) == all <==> limit <= 500 || |all| <= 50
  {
    if limit <= 500 {
      PagesTile(all, limit, n);
    } else if |all| <= 50 {
      PagesOfFew(all, limit, n);
    } else {
      PagesGap(all, limit, n);
    }
  }

  lemma PageOfMore(all: seq<ProbeEvent>, e: ProbeEvent, limit: int, offset: nat)
    ensures Page([e] + all, limit, offset + 1) == Page(all, limit, offset)
  {
  }

  /** Between two requests, one more wanted event shifts every page by one. */
  lemma PageShifts(history: seq<ProbeEvent>, e: ProbeEvent, target: string, status: string, limit: int, offset: nat)
    requires Wanted(e, target, status)
    ensures Page(Matching(history + [e], target, status), limit, offset + 1)
            == Page(Matching(history, target, status), limit, offset)
  {
    MatchingSplits(history, [e], target, status);
    assert Matching([e], target, status) == [e] by {
      assert ([e])[1..] == [];
    }
    hide Matching, Page;
    PageOfMore(Matching(history, target, status), e, limit, offset);
  }

  // ---------------------------------------------------------------- the objects

  class Channel {
    var buffer: seq<ProbeEvent>
    var closed: bool
    ghost var taken: seq<ProbeEvent>

    constructor ()
      ensures Box() == Inbox([], [], false)
    {
      buffer, closed, taken := [], false, [];
    }

    ghost function Box(): Inbox
      reads this
    {
      Inbox(buffer, taken, closed)
    }

    /** The select with a default case. */
    method TrySend(event: ProbeEvent)
      requires !closed
      modifies `buffer
      ensures Box() == Offer(old(Box()), event)
    {
      if |buffer| < SLOTS {
        buffer := buffer + [event];
      }
    }
  }

  class Broadcaster {
    var subscribers: set<Channel>
    var history: seq<ProbeEvent>
    var maxHistory: int

    /** time.Format and SanitizeSingleLine */
    const format: int -> string
    const sanitize: string -> string

    /** Every channel ever handed out. */
    ghost var channels: set<Channel>

    ghost predicate Valid()
      reads this, channels
    {
      && subscribers <= channels
      && forall ch | ch in channels :: ch in subscribers <==> !ch.closed
    }

    ghost function View(): Hub<Channel>
      reads this, channels
    {
      Hub(history, maxHistory, map ch | ch in channels :: ch.Box())
    }

    constructor (format: int -> string, sanitize: string -> string)
      ensures Valid() && View() == Run([]) && this.format == format && this.sanitize == sanitize
    {
      subscribers, history, maxHistory := {}, [], DEFAULT_HISTORY;
      this.format, this.sanitize := format, sanitize;
      channels := {};
    }

    method SetMaxHistory(limit: int)
      requires Valid()
      modifies `history, `maxHistory
      ensures Valid() && View() == Step(old(View()), Op.SetMaxHistory(limit))
    {
      var limit := limit;
      if limit <= 0 {
        limit := 1000000;
      }
      if limit > 5000000 {
        limit := 5000000;
      }
      maxHistory := limit;
      if |history| > maxHistory {
        history := history[|history| - maxHistory..];
      }
    }

    method GetMaxHistory() returns (limit: int)
      ensures limit == Limit(maxHistory)
    {
      if maxHistory <= 0 {
        return 1000000;
      }
      return maxHistory;
    }

    method Subscribe() returns (ch: Channel)
      requires Valid()
      modifies `subscribers, `channels
      ensures Valid() && fresh(ch) && channels == old(channels) + {ch}
      ensures View() == Step(old(View()), Op.Subscribe(ch))
    {
      ch := new Channel();
      subscribers := subscribers + {ch};
      channels := channels + {ch};
    }

    method Unsubscribe(ch: Channel)
      requires Valid()
      modifies `subscribers, ch`closed
      ensures Valid() && View() == Step(old(View()), Op.Unsubscribe(ch))
      ensures subscribers == old(subscribers) - {ch} && (ch in channels ==> ch.closed)
    {
      if ch in subscribers {
        subscribers := subscribers - {ch};
        ch.closed := true;
      }
    }

    /** The reader's end of a subscription: None while there is nothing to take. */
    method Receive(ch: Channel) returns (event: Option<ProbeEvent>)
      requires Valid() && ch in channels
      modifies ch`buffer, ch`taken
      ensures Valid() && View() == Step(old(View()), Op.Receive(ch))
      ensures event == if old(ch.buffer) == [] then None else Some(old(ch.buffer)[0])
      ensures ch.taken == old(ch.taken) + if event.Some? then [event.value] else []
    {
      if |ch.buffer| == 0 {
        return None;
      }
      event := Some(ch.buffer[0]);
      ch.taken := ch.taken + [ch.buffer[0]];
      ch.buffer := ch.buffer[1..];
    }

    /** What is stored and sent of an event. */
    function Normalized(event: ProbeEvent, now: int): ProbeEvent {
      var rawTime := if event.rawTime == 0 then now else event.rawTime;
      event.(rawTime := rawTime,
             timestamp := if event.timestamp == "" then format(rawTime) else event.timestamp,
             diagnostics := sanitize(event.diagnostics),
             error := sanitize(event.error))
    }

    /** Who was probed, and how it went, is stored as it came; a time that is set is kept, one that is
        not becomes the clock's; the timestamp, if there is none, is that time's; and the texts are
        sanitized. Done twice it changes nothing, if sanitizing twice does not and the clock is set. */
    lemma NormalizedKeeps(event: ProbeEvent, now: int, later: int)
      ensures var n := Normalized(event, now);
              && n.sequence == event.sequence && n.success == event.success
              && n.target == event.target && n.hostname == event.hostname && n.ip == event.ip
              && (event.rawTime != 0 ==> n.rawTime == event.rawTime) && (event.rawTime == 0 ==> n.rawTime == now)
              && (event.timestamp != "" ==> n.timestamp == event.timestamp)
              && (event.timestamp == "" ==> n.timestamp == format(n.rawTime))
              && n.diagnostics == sanitize(event.diagnostics) && n.error == sanitize(event.error)
      ensures var n := Normalized(event, now);
              (sanitize(n.diagnostics) == n.diagnostics && sanitize(n.error) == n.error
               && n.rawTime != 0 && n.timestamp != "") ==> Normalized(n, later) == n
    {
    }

    method Normalize(raw: ProbeEvent, now: int) returns (event: ProbeEvent)
      ensures event == Normalized(raw, now)
    {
      event := raw;
      if event.rawTime == 0 {
        event := event.(rawTime := now);
      }
      if event.timestamp == "" {
        event := event.(timestamp := format(event.rawTime));
      }
      event := event.(diagnostics := sanitize(event.diagnostics));
      event := event.(error := sanitize(event.error));
    }

    method Store(event: ProbeEvent)
      modifies `history
      ensures history == LastOf(old(history) + [event], Limit(maxHistory))
    {
      history := history + [event];
      var maxCap := maxHistory;
      if maxCap <= 0 {
        maxCap := 1000000;
      }
      if |history| > maxCap {
        history := history[|history| - maxCap..];
      }
    }

    method Broadcast(raw: ProbeEvent, now: int)
      requires Valid()
      modifies `history, subscribers`buffer
      ensures Valid() && View() == Step(old(View()), Op.Broadcast(Normalized(raw, now)))
    {
      hide Normalized, Offer, LastOf, Limit;
      var event := Normalize(raw, now);
      Store(event);
      SendAll(event);
      assert View().inboxes == OfferAll(old(View()).inboxes, event);
    }

    /** The subscribers, in the order the map yields them. */
    method SendAll(event: ProbeEvent)
      requires Valid()
      modifies subscribers`buffer
      ensures forall ch | ch in channels :: ch.Box() == Offer(old(ch.Box()), event)
    {
      var rest := subscribers;
      while rest != {}
        invariant rest <= subscribers
        invariant forall ch | ch in channels && ch !in rest :: ch.Box() == Offer(old(ch.Box()), event)
        invariant forall ch | ch in rest :: ch.buffer == old(ch.buffer)
        decreases |rest|
      {
        var ch :| ch in rest;
        ch.TrySend(event);
        rest := rest - {ch};
      }
    }

    method ClearHistory()
      requires Valid()
      modifies `history
      ensures Valid() && View() == Step(old(View()), Op.ClearHistory)
    {
      history := [];
    }

    method GetProbes(target: string, status: string, limit: int, offset: int)
        returns (page: seq<ProbeEvent>, total: nat)
      ensures page == Page(Matching(history, target, status), limit, offset)
      ensures total == |Matching(history, target, status)|
    {
      var size, skip := limit, offset;
      if size <= 0 || size > 500 {
        size := 50;
      }
      if skip < 0 {
        skip := 0;
      }
      PageDefaults(Matching(history, target, status), limit, offset, size, skip);
      hide Page, Matching;
      page, total := [], 0;
      NothingMatches(target, status, size, skip);
      var i := |history| - 1;
      assert history[|history|..] == [];
      ghost var all: seq<ProbeEvent> := [];
      while i >= 0
        invariant -1 <= i < |history|
        invariant all == Matching(history[i + 1..], target, status)
        invariant total == |all| && page == Page(all, size, skip)
      {
        var ev := history[i];
        MatchingStep(history, i, target, status);
        PageGrows(all, ev, size, skip);
        all := Matching(history[i..], target, status);
        i := i - 1;
        if target != "" && ev.target != target && ev.hostname != target && ev.ip != target {
          continue;
        }
        if status == "success" && !ev.success {
          continue;
        }
        if status == "failed" && ev.success {
          continue;
        }
        total := total + 1;
        if total > skip && |page| < size {
          page := page + [ev];
        }
      }
      assert history[0..] == history;
    }
  }
}
