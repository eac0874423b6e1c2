/** MultiProber.Run of pkg/probers/multi_prober.go as interleaved steps of its workers. */
module Fleet {
  import opened Pinger
  import opened Wrappers

  datatype Options = Options(
    probeCount: nat, concurrency: nat, maxLatency: real, maxFails: nat, retries: nat, notify: bool)

  datatype Reason = Cancelled | TooManyFails | AllProbesDone

  /** The statement a worker is about to execute. */
  datatype Pc =
    | Check                      // the select at the head of the loop
    | Acquire                    // sem <- struct{}{}
    | Ping
    | Retry(attempt: nat)        // sleep, then ping again
    | Release                    // <-sem
    | Record
    | Limit                      // MaxConsecutiveFails
    | Notify                     // OnProbeEvent
    | Count                      // ProbeCount
    | Wait                       // the select at the foot of the loop
    | Finished(why: Reason)

  /** The counters of the worker's own stats.Statistics. */
  datatype Stats = Stats(successes: nat, failures: nat, ongoingSuccesses: nat, ongoingFailures: nat)

  /** What the network answered to one probe, the first ping and its retries in order, and whether the
      sleep before a further retry was interrupted. */
  datatype Exchange = Exchange(answers: seq<PingResult>, interrupted: bool)

  /** `log` is every outcome recorded so far, `events` every (sequence, success) passed to
      OnProbeEvent, `exchanges` what happened on the network, which no step looks at. */
  datatype Worker = Worker(
    pc: Pc, sent: nat, isFailure: bool, stats: Stats, log: seq<bool>, events: seq<(nat, bool)>,
    exchanges: seq<Exchange>)

  datatype Fleet = Fleet(workers: seq<Worker>, held: nat, cancelled: bool)

  /** What the environment contributes to a step. */
  datatype Action = Go | Answer(res: PingResult) | Interrupt

  function RecordOutcome(s: Stats, ok: bool): Stats {
    if ok then Stats(s.successes + 1, s.failures, s.ongoingSuccesses + 1, 0)
    else Stats(s.successes, s.failures + 1, 0, s.ongoingFailures + 1)
  }

  function Answered(es: seq<Exchange>, res: PingResult): seq<Exchange> {
    if |es| == 0 then es
    else
      var e := es[|es| - 1];
      es[..|es| - 1] + [e.(answers := e.answers + [res])]
  }

  function CutOff(es: seq<Exchange>): seq<Exchange> {
    if |es| == 0 then es else es[..|es| - 1] + [es[|es| - 1].(interrupted := true)]
  }

  /** One step of a worker, or None where it cannot move. */
  function Step(o: Options, cancelled: bool, held: nat, w: Worker, a: Action): Option<Worker> {
    match (w.pc, a)
    case (Check, Go) => Some(w.(pc := if cancelled then Finished(Cancelled) else Acquire))
    case (Acquire, Go) => if o.concurrency > 0 && held >= o.concurrency then None else Some(w.(pc := Ping))
    case (Ping, Answer(res)) =>
      Some(w.(sent := w.sent + 1, isFailure := Fails(o.maxLatency, res),
              pc := if Fails(o.maxLatency, res) && o.retries > 0 then Retry(1) else Release,
              exchanges := w.exchanges + [Exchange([res], false)]))
    case (Retry(k), Answer(res)) =>
      Some(w.(isFailure := Fails(o.maxLatency, res),
              pc := if Fails(o.maxLatency, res) && k < o.retries then Retry(k + 1) else Release,
              exchanges := Answered(w.exchanges, res)))
    case (Retry(_), Interrupt) =>
      if cancelled then Some(w.(pc := Release, exchanges := CutOff(w.exchanges))) else None
    case (Release, Go) => Some(w.(pc := Record))
    case (Record, Go) =>
      Some(w.(stats := RecordOutcome(w.stats, !w.isFailure), log := w.log + [!w.isFailure], pc := Limit))
    case (Limit, Go) =>
      Some(w.(pc := if o.maxFails > 0 && w.stats.ongoingFailures >= o.maxFails then Finished(TooManyFails) else Notify))
    case (Notify, Go) =>
      Some(w.(events := if o.notify then w.events + [(w.sent, !w.isFailure)] else w.events, pc := Count))
    case (Count, Go) =>
      Some(w.(pc := if o.probeCount > 0 && w.sent >= o.probeCount then Finished(AllProbesDone) else Wait))
    case (Wait, Go) => Some(w.(pc := Check))
    case (Wait, Interrupt) => if cancelled then Some(w.(pc := Finished(Cancelled))) else None
    case _ => None
  }

  /** Between acquire and release. */
  predicate Holding(w: Worker) {
    w.pc.Ping? || w.pc.Retry? || w.pc.Release?
  }

  /** What the step does to the semaphore. */
  function HeldAfter(o: Options, held: nat, w: Worker): nat
    requires w.pc.Release? && o.concurrency > 0 ==> held > 0
  {
    if o.concurrency == 0 then held
    else if w.pc.Acquire? then held + 1
    else if w.pc.Release? then held - 1
    else held
  }

  ghost predicate WorkerStep(o: Options, s: Fleet, s': Fleet, i: nat, a: Action) {
    && i < |s.workers|
    && (s.workers[i].pc.Release? && o.concurrency > 0 ==> s.held > 0)
    && var next := Step(o, s.cancelled, s.held, s.workers[i], a);
       && next.Some?
       && s' == Fleet(s.workers[i := next.value], HeldAfter(o, s.held, s.workers[i]), s.cancelled)
  }

  ghost predicate Cancel(s: Fleet, s': Fleet) {
    !s.cancelled && s' == s.(cancelled := true)
  }

  ghost predicate Next(o: Options, s: Fleet, s': Fleet) {
    Cancel(s, s') || exists i, a :: WorkerStep(o, s, s', i, a)
  }

  const FRESH := Worker(Check, 0, false, Stats(0, 0, 0, 0), [], [], [])

  predicate Init(s: Fleet) {
    s.held == 0 && forall i | 0 <= i < |s.workers| :: s.workers[i] == FRESH
  }

  ghost predicate IsRun(o: Options, run: seq<Fleet>) {
    && |run| > 0 && Init(run[0])
    && forall i | 0 <= i < |run| - 1 :: Next(o, run[i], run[i + 1])
  }

  function Last(run: seq<Fleet>): Fleet
    requires |run| > 0
  {
    run[|run| - 1]
  }

  // ---------------------------------------------------------------- what a log says

  function Tally(log: seq<bool>, outcome: bool): nat {
    if |log| == 0 then 0
    else Tally(log[..|log| - 1], outcome) + if log[|log| - 1] == outcome then 1 else 0
  }

  /** The length of the run of `outcome` at the end. */
  function Trailing(log: seq<bool>, outcome: bool): nat {
    if |log| == 0 || log[|log| - 1] != outcome then 0 else 1 + Trailing(log[..|log| - 1], outcome)
  }

  lemma {:induction false} TrailingMeaning(log: seq<bool>, outcome: bool)
    ensures Trailing(log, outcome) <= |log|
    ensures forall i | |log| - Trailing(log, outcome) <= i < |log| :: log[i] == outcome
    ensures Trailing(log, outcome) < |log| ==> log[|log| - 1 - Trailing(log, outcome)] != outcome
  {
    if |log| > 0 {
      TrailingMeaning(log[..|log| - 1], outcome);
    }
  }

  lemma {:induction false} TallyIsCount(log: seq<bool>, outcome: bool)
    ensures Tally(log, outcome) == multiset(log)[outcome]
  {
    if |log| > 0 {
      TallyIsCount(log[..|log| - 1], outcome);
      assert log == log[..|log| - 1] + [log[|log| - 1]];
    }
  }

  function StatsOf(log: seq<bool>): Stats {
    Stats(Tally(log, true), Tally(log, false), Trailing(log, true), Trailing(log, false))
  }

  function EventsOf(log: seq<bool>): seq<(nat, bool)> {
    seq(|log|, k requires 0 <= k < |log| => (k + 1, log[k]))
  }

  /** Event k, counted from 0, says of probe k + 1 how it went. */
  lemma EventsAre(log: seq<bool>)
    ensures |EventsOf(log)| == |log|
    ensures forall k | 0 <= k < |log| :: EventsOf(log)[k].0 == k + 1 && EventsOf(log)[k].1 == log[k]
  {
  }

  lemma LogGrows(log: seq<bool>, ok: bool)
    ensures StatsOf(log + [ok]) == RecordOutcome(StatsOf(log), ok)
  {
    var more := log + [ok];
    assert more[..|more| - 1] == log;
  }

  lemma {:induction false} TallyTotal(log: seq<bool>)
    ensures Tally(log, true) + Tally(log, false) == |log|
  {
    if |log| > 0 {
      TallyTotal(log[..|log| - 1]);
    }
  }

  // ---------------------------------------------------------------- the invariant

  /** How much of the log has been announced. */
  function Announced(w: Worker): int {
    |w.log| - if w.pc.Limit? || w.pc.Notify? || w.pc == Finished(TooManyFails) then 1 else 0
  }

  /** No failure run before this point was as long as the limit. */
  ghost predicate LimitUnreached(o: Options, log: seq<bool>, n: nat)
    requires n <= |log|
  {
    o.maxFails > 0 ==> forall k | 0 <= k <= n :: Trailing(log[..k], false) < o.maxFails
  }

  /** Where a worker stands and how far it has counted. */
  ghost predicate ControlInv(o: Options, cancelled: bool, w: Worker) {
    && |w.log| == w.sent - (if w.pc.Retry? || w.pc.Release? || w.pc.Record? then 1 else 0)
    && 0 <= Announced(w)
    && (w.pc.Limit? || w.pc.Notify? ==> w.log[|w.log| - 1] == !w.isFailure)
    && (w.pc.Retry? ==> 1 <= w.pc.attempt <= o.retries && w.isFailure)
    && (o.probeCount > 0 ==> w.sent <= o.probeCount)
    && (o.probeCount > 0 && (w.pc.Check? || w.pc.Acquire? || w.pc.Ping? || w.pc.Wait? || w.pc == Finished(Cancelled))
        ==> w.sent < o.probeCount)
    && (w.pc == Finished(AllProbesDone) ==> o.probeCount > 0 && w.sent == o.probeCount)
    && (w.pc == Finished(Cancelled) ==> cancelled)
  }

  /** Counters and announcements are those of the log, and the limit was not passed unnoticed. */
  ghost predicate LogInv(o: Options, w: Worker)
    requires 0 <= Announced(w)
  {
    && w.stats == StatsOf(w.log)
    && w.events == (if o.notify then EventsOf(w.log[..Announced(w)]) else [])
    && LimitUnreached(o, w.log, if w.pc.Limit? || w.pc == Finished(TooManyFails) then |w.log| - 1 else |w.log|)
    && (w.pc == Finished(TooManyFails) ==> o.maxFails > 0 && Trailing(w.log, false) >= o.maxFails)
  }

  /** An answer in time: no error, and no slower than a positive MaxLatency. */
  ghost predicate Timely(o: Options, res: PingResult) {
    !res.err && (o.maxLatency <= 0.0 || res.rttMs <= o.maxLatency)
  }

  /** All answers so far came too late or not at all. */
  ghost predicate NoneTimely(o: Options, answers: seq<PingResult>) {
    forall j | 0 <= j < |answers| :: !Timely(o, answers[j])
  }

  /** How an exchange ended: `ok` says of its last answer whether it was in time, as none before it
      was, and a last answer that was not is the last permitted or the last before an interruption. */
  ghost predicate Decides(o: Options, cancelled: bool, e: Exchange, ok: bool) {
    var n := |e.answers|;
    && 1 <= n <= o.retries + 1
    && NoneTimely(o, e.answers[..n - 1])
    && (ok <==> Timely(o, e.answers[n - 1]))
    && (!ok ==> n == o.retries + 1 || e.interrupted)
    && (e.interrupted ==> !ok && n <= o.retries && cancelled)
  }

  /** The log is decided by the exchanges, and so is the outcome about to be logged. */
  ghost predicate ExchangeInv(o: Options, cancelled: bool, w: Worker) {
    && |w.exchanges| == w.sent && |w.log| <= w.sent <= |w.log| + 1
    && (forall k | 0 <= k < |w.log| :: Decides(o, cancelled, w.exchanges[k], w.log[k]))
    && (|w.log| < w.sent ==>
          var e := w.exchanges[|w.log|];
          if w.pc.Retry?
          then !e.interrupted && |e.answers| == w.pc.attempt && NoneTimely(o, e.answers)
          else Decides(o, cancelled, e, !w.isFailure))
  }

  ghost predicate WorkerInv(o: Options, cancelled: bool, w: Worker) {
    ControlInv(o, cancelled, w) && LogInv(o, w) && ExchangeInv(o, cancelled, w)
  }

  function Holders(ws: seq<Worker>): nat {
    if |ws| == 0 then 0 else Holders(ws[..|ws| - 1]) + if Holding(ws[|ws| - 1]) then 1 else 0
  }

  ghost predicate Inv(o: Options, s: Fleet) {
    && (o.concurrency > 0 ==> s.held == Holders(s.workers) <= o.concurrency)
    && forall i | 0 <= i < |s.workers| :: WorkerInv(o, s.cancelled, s.workers[i])
  }

  lemma {:induction false} HoldersUpdate(ws: seq<Worker>, i: nat, w: Worker)
    requires i < |ws|
    ensures Holders(ws[i := w])
            == Holders(ws) - (if Holding(ws[i]) then 1 else 0) + if Holding(w) then 1 else 0
  {
    var front := ws[..|ws| - 1];
    if i == |front| {
      assert ws[i := w][..|front|] == front;
    } else {
      HoldersUpdate(front, i, w);
      assert ws[i := w][..|front|] == front[i := w];
    }
  }

  lemma {:induction false} HoldersNone(ws: seq<Worker>)
    requires forall i | 0 <= i < |ws| :: !Holding(ws[i])
    ensures Holders(ws) == 0
  {
    if |ws| > 0 {
      HoldersNone(ws[..|ws| - 1]);
    }
  }

  lemma {:induction false} HolderExists(ws: seq<Worker>) returns (i: nat)
    requires Holders(ws) > 0
    ensures i < |ws| && Holding(ws[i])
  {
    if Holding(ws[|ws| - 1]) {
      i := |ws| - 1;
    } else {
      i := HolderExists(ws[..|ws| - 1]);
    }
  }

  lemma {:induction false} StepKeepsControl(o: Options, cancelled: bool, held: nat, w: Worker, a: Action)
    requires ControlInv(o, cancelled, w) && Step(o, cancelled, held, w, a).Some?
    ensures ControlInv(o, cancelled, Step(o, cancelled, held, w, a).value)
  {
  }

  /** A step that neither records nor announces. */
  lemma QuietKeepsLog(o: Options, w: Worker, w': Worker)
    requires 0 <= Announced(w) && LogInv(o, w)
    requires w'.log == w.log && w'.stats == w.stats && w'.events == w.events
    requires Announced(w') == Announced(w)
    requires !w.pc.Limit? && !w.pc.Finished? && !w'.pc.Limit? && w'.pc != Finished(TooManyFails)
    ensures LogInv(o, w')
  {
  }

  lemma {:induction false} RecordKeepsLog(o: Options, w: Worker, w': Worker)
    requires 0 <= Announced(w) && LogInv(o, w) && w.pc.Record?
    requires w' == w.(stats := RecordOutcome(w.stats, !w.isFailure), log := w.log + [!w.isFailure], pc := Limit)
    ensures LogInv(o, w')
  {
    LogGrows(w.log, !w.isFailure);
    hide StatsOf, RecordOutcome, Trailing, EventsOf;
    assert w'.log[..|w.log|] == w.log == w.log[..|w.log|];
    forall k | 0 <= k <= |w.log| ensures w'.log[..k] == w.log[..k] {
    }
  }

  lemma LimitKeepsLog(o: Options, w: Worker, w': Worker)
    requires 0 <= Announced(w) && LogInv(o, w) && w.pc.Limit?
    requires w' == w.(pc := if o.maxFails > 0 && w.stats.ongoingFailures >= o.maxFails
                            then Finished(TooManyFails) else Notify)
    ensures LogInv(o, w')
  {
    hide EventsOf;
    assert w.log[..|w.log|] == w.log;
  }

  lemma NotifyKeepsLog(o: Options, w: Worker, w': Worker)
    requires 0 <= Announced(w) && LogInv(o, w) && w.pc.Notify?
    requires |w.log| == w.sent && w.log[|w.log| - 1] == !w.isFailure
    requires w' == w.(events := if o.notify then w.events + [(w.sent, !w.isFailure)] else w.events, pc := Count)
    ensures LogInv(o, w')
  {
    EventsGrow(w.log, |w.log| - 1);
    hide StatsOf, Trailing, EventsOf;
  }

  lemma EventsGrow(log: seq<bool>, n: nat)
    requires n < |log|
    ensures EventsOf(log[..n + 1]) == EventsOf(log[..n]) + [(n + 1, log[n])]
  {
  }

  lemma {:induction false} StepKeepsLog(o: Options, cancelled: bool, held: nat, w: Worker, a: Action)
    requires ControlInv(o, cancelled, w) && LogInv(o, w) && Step(o, cancelled, held, w, a).Some?
    requires ControlInv(o, cancelled, Step(o, cancelled, held, w, a).value)
    ensures LogInv(o, Step(o, cancelled, held, w, a).value)
  {
    hide LogInv, RecordOutcome, Fails;
    var w' := Step(o, cancelled, held, w, a).value;
    if w.pc.Record? {
      RecordKeepsLog(o, w, w');
    } else if w.pc.Notify? {
      NotifyKeepsLog(o, w, w');
    } else if w.pc.Limit? {
      LimitKeepsLog(o, w, w');
    } else {
      QuietKeepsLog(o, w, w');
    }
  }

  /** The first ping of a probe, which decides it or leads to the first retry. */
  lemma PingOpens(o: Options, cancelled: bool, res: PingResult)
    ensures var e := Exchange([res], false);
            if Fails(o.maxLatency, res) && o.retries > 0 then NoneTimely(o, e.answers)
            else Decides(o, cancelled, e, !Fails(o.maxLatency, res))
  {
    assert ([res])[..0] == [];
  }

  /** One more answer after failing ones, which decides the probe or leads to the next retry. */
  lemma RetryAnswers(o: Options, cancelled: bool, e: Exchange, res: PingResult)
    requires 1 <= |e.answers| <= o.retries && !e.interrupted && NoneTimely(o, e.answers)
    ensures var e' := e.(answers := e.answers + [res]);
            if Fails(o.maxLatency, res) && |e.answers| < o.retries then NoneTimely(o, e'.answers)
            else Decides(o, cancelled, e', !Fails(o.maxLatency, res))
  {
    assert (e.answers + [res])[..|e.answers|] == e.answers;
  }

  lemma RetryCutOff(o: Options, e: Exchange)
    requires 1 <= |e.answers| <= o.retries && !e.interrupted && NoneTimely(o, e.answers)
    ensures Decides(o, true, e.(interrupted := true), false)
  {
  }

  /** How the exchange that is not logged yet stands. */
  ghost predicate Open(o: Options, cancelled: bool, w: Worker, e: Exchange) {
    if w.pc.Retry?
    then !e.interrupted && |e.answers| == w.pc.attempt && NoneTimely(o, e.answers)
    else Decides(o, cancelled, e, !w.isFailure)
  }

  /** A step that changes nothing but the last exchange. */
  lemma LastExchange(o: Options, cancelled: bool, w: Worker, w': Worker, e: Exchange)
    requires ExchangeInv(o, cancelled, w)
    requires w'.log == w.log && w'.sent == |w.log| + 1 && |w.exchanges| >= |w.log|
    requires w'.exchanges == w.exchanges[..|w.log|] + [e] && Open(o, cancelled, w', e)
    ensures ExchangeInv(o, cancelled, w')
  {
    hide Decides, NoneTimely;
    assert forall k | 0 <= k < |w.log| :: w'.exchanges[k] == w.exchanges[k];
  }

  lemma {:induction false} StepKeepsExchanges(o: Options, cancelled: bool, held: nat, w: Worker, a: Action)
    requires ControlInv(o, cancelled, w) && ExchangeInv(o, cancelled, w)
    requires Step(o, cancelled, held, w, a).Some?
    ensures ExchangeInv(o, cancelled, Step(o, cancelled, held, w, a).value)
  {
    hide Decides, NoneTimely, RecordOutcome, Fails, Announced;
    var w', es, n := Step(o, cancelled, held, w, a).value, w.exchanges, |w.log|;
    if w.pc.Ping? {
      PingOpens(o, cancelled, a.res);
      assert es[..n] == es;
      LastExchange(o, cancelled, w, w', Exchange([a.res], false));
    } else if w.pc.Retry? && a.Answer? {
      RetryAnswers(o, cancelled, es[n], a.res);
      LastExchange(o, cancelled, w, w', es[n].(answers := es[n].answers + [a.res]));
    } else if w.pc.Retry? {
      RetryCutOff(o, es[n]);
      LastExchange(o, cancelled, w, w', es[n].(interrupted := true));
    } else {
      assert w'.exchanges == es && w'.sent == w.sent && !w'.pc.Retry?;
      hide Step, ControlInv;
    }
  }

  lemma {:induction false} WorkerStepKeeps(o: Options, cancelled: bool, held: nat, w: Worker, a: Action)
    requires WorkerInv(o, cancelled, w) && Step(o, cancelled, held, w, a).Some?
    ensures WorkerInv(o, cancelled, Step(o, cancelled, held, w, a).value)
  {
    StepKeepsControl(o, cancelled, held, w, a);
    StepKeepsLog(o, cancelled, held, w, a);
    StepKeepsExchanges(o, cancelled, held, w, a);
  }

  /** The semaphore counts the holders. */
  lemma {:induction false} StepKeepsHeld(o: Options, s: Fleet, s': Fleet, i: nat, a: Action)
    requires WorkerStep(o, s, s', i, a) && o.concurrency > 0 && s.held == Holders(s.workers) <= o.concurrency
    ensures s'.held == Holders(s'.workers) <= o.concurrency
  {
    HoldersUpdate(s.workers, i, s'.workers[i]);
    hide Holders, Fails;
  }

  /** The invariant is kept by every step, whoever takes it. */
  lemma {:induction false} NextKeepsInv(o: Options, s: Fleet, s': Fleet)
    requires Inv(o, s) && Next(o, s, s')
    ensures Inv(o, s')
  {
    if !Cancel(s, s') {
      var i: nat, a :| WorkerStep(o, s, s', i, a);
      WorkerStepKeeps(o, s.cancelled, s.held, s.workers[i], a);
      if o.concurrency > 0 {
        StepKeepsHeld(o, s, s', i, a);
      }
      hide WorkerInv, Holders, Step;
    } else {
      hide LogInv;
    }
  }

  lemma FreshInv(o: Options, cancelled: bool)
    ensures WorkerInv(o, cancelled, FRESH)
  {
  }

  lemma {:induction false} RunKeepsInv(o: Options, run: seq<Fleet>)
    requires IsRun(o, run)
    ensures forall k | 0 <= k < |run| :: Inv(o, run[k])
  {
    hide WorkerInv;
    var prefix := run[..|run| - 1];
    if |prefix| == 0 {
      HoldersNone(run[0].workers);
      FreshInv(o, run[0].cancelled);
    } else {
      assert IsRun(o, prefix);
      RunKeepsInv(o, prefix);
      assert Inv(o, prefix[|prefix| - 1]);
      NextKeepsInv(o, run[|run| - 2], run[|run| - 1]);
      assert forall k | 0 <= k < |prefix| :: run[k] == prefix[k];
    }
  }

  /** All answers in the exchanges, in order. */
  function Heard(es: seq<Exchange>): seq<PingResult> {
    if |es| == 0 then [] else Heard(es[..|es| - 1]) + es[|es| - 1].answers
  }

  /** The exchanges hold every answer the network gave, in order, and no other. */
  lemma {:induction false} StepHears(o: Options, cancelled: bool, held: nat, w: Worker, a: Action)
    requires ControlInv(o, cancelled, w) && ExchangeInv(o, cancelled, w)
    requires Step(o, cancelled, held, w, a).Some?
    ensures Heard(Step(o, cancelled, held, w, a).value.exchanges)
            == Heard(w.exchanges) + if a.Answer? then [a.res] else []
  {
    hide Decides, NoneTimely, RecordOutcome, Fails, Announced;
    var w', es, n := Step(o, cancelled, held, w, a).value, w.exchanges, |w.log|;
    if w.pc.Ping? {
      assert w'.exchanges[..|es|] == es;
    } else if w.pc.Retry? {
      assert w'.exchanges[..n] == es[..n];
      assert a.Answer? ==> w'.exchanges[n].answers == es[n].answers + [a.res];
      assert a.Answer? ==> Heard(es[..n]) + (es[n].answers + [a.res]) == Heard(es) + [a.res];
      assert !a.Answer? ==> w'.exchanges[n].answers == es[n].answers;
    }
    assert Heard(es) + [] == Heard(es);
  }

  // ---------------------------------------------------------------- the theorems

  /** In every interleaving at most Concurrency workers are between acquire and release. */
  lemma {:induction false} AtMostConcurrency(o: Options, run: seq<Fleet>)
    requires IsRun(o, run) && o.concurrency > 0
    ensures forall k | 0 <= k < |run| :: Holders(run[k].workers) <= o.concurrency
  {
    RunKeepsInv(o, run);
  }

  predicate AllFinished(s: Fleet) {
    forall i | 0 <= i < |s.workers| :: s.workers[i].pc.Finished?
  }

  /** A worker that holds a slot, or waits for nothing, can move. */
  function Willing(w: Worker): Action {
    if w.pc.Ping? || w.pc.Retry? then Answer(PingResult(true, 0.0)) else Go
  }

  lemma CanMove(o: Options, s: Fleet, i: nat) returns (s': Fleet)
    requires Inv(o, s) && i < |s.workers| && !s.workers[i].pc.Finished?
    requires s.workers[i].pc.Acquire? && o.concurrency > 0 ==> s.held < o.concurrency
    ensures WorkerStep(o, s, s', i, Willing(s.workers[i]))
  {
    if s.workers[i].pc.Release? && o.concurrency > 0 && s.held == 0 {
      var j := i;
      HoldersUpdate(s.workers, j, FRESH);
      assert false;
    }
    var w := Step(o, s.cancelled, s.held, s.workers[i], Willing(s.workers[i])).value;
    s' := Fleet(s.workers[i := w], HeldAfter(o, s.held, s.workers[i]), s.cancelled);
  }

  /** A worker that waits for a slot gets one exactly while fewer than Concurrency hold one. */
  lemma AcquireWhen(o: Options, run: seq<Fleet>, i: nat)
    requires IsRun(o, run) && i < |Last(run).workers| && Last(run).workers[i].pc.Acquire?
    ensures (exists a, s' :: WorkerStep(o, Last(run), s', i, a))
            <==> o.concurrency == 0 || Holders(Last(run).workers) < o.concurrency
  {
    RunKeepsInv(o, run);
    var s := Last(run);
    if o.concurrency == 0 || s.held < o.concurrency {
      var s' := CanMove(o, s, i);
    }
  }

  /** No reachable state with an unfinished worker is stuck: some worker can move. */
  lemma {:induction false} NoDeadlock(o: Options, run: seq<Fleet>)
    requires IsRun(o, run) && !AllFinished(Last(run))
    ensures exists i, a, s' :: WorkerStep(o, Last(run), s', i, a)
  {
    RunKeepsInv(o, run);
    var s := Last(run);
    var i: nat :| i < |s.workers| && !s.workers[i].pc.Finished?;
    if s.workers[i].pc.Acquire? && o.concurrency > 0 && s.held >= o.concurrency {
      i := HolderExists(s.workers);
    }
    var s' := CanMove(o, s, i);
  }

  // Every run ends: a weight that every step lowers.

  function Rank(o: Options, w: Worker): nat {
    match w.pc
    case Finished(_) => 0
    case Check => 1
    case Wait => 2
    case Count => 3
    case Notify => 4
    case Limit => 5
    case Record => 6
    case Release => 7
    case Retry(k) => if k <= o.retries then 8 + o.retries - k else 8
    case Ping => 8 + o.retries
    case Acquire => 9 + o.retries
  }

  /** Probes the worker may still begin. */
  function Rounds(o: Options, w: Worker): nat {
    var begun := w.sent + if w.pc.Acquire? || w.pc.Ping? then 1 else 0;
    if begun <= o.probeCount then o.probeCount - begun else 0
  }

  function Weight(o: Options, w: Worker): nat {
    Rounds(o, w) * (10 + o.retries) + Rank(o, w)
  }

  function TotalWeight(weight: Worker -> nat, ws: seq<Worker>): nat {
    if |ws| == 0 then 0 else TotalWeight(weight, ws[..|ws| - 1]) + weight(ws[|ws| - 1])
  }

  lemma {:induction false} TotalUpdate(weight: Worker -> nat, ws: seq<Worker>, i: nat, w: Worker)
    requires i < |ws|
    ensures TotalWeight(weight, ws[i := w]) == TotalWeight(weight, ws) - weight(ws[i]) + weight(w)
  {
    var front := ws[..|ws| - 1];
    if i == |front| {
      assert ws[i := w][..|front|] == front;
    } else {
      TotalUpdate(weight, front, i, w);
      assert ws[i := w][..|front|] == front[i := w];
    }
  }

  lemma {:induction false} TotalBound(weight: Worker -> nat, ws: seq<Worker>, b: nat)
    requires forall i | 0 <= i < |ws| :: weight(ws[i]) <= b
    ensures TotalWeight(weight, ws) <= |ws| * b
  {
    if |ws| > 0 {
      TotalBound(weight, ws[..|ws| - 1], b);
    }
  }

  lemma StepLowersWeight(o: Options, cancelled: bool, held: nat, w: Worker, a: Action)
    requires WorkerInv(o, cancelled, w) && Step(o, cancelled, held, w, a).Some?
    ensures cancelled ==> Rank(o, Step(o, cancelled, held, w, a).value) < Rank(o, w)
    ensures o.probeCount > 0 ==> Weight(o, Step(o, cancelled, held, w, a).value) < Weight(o, w)
  {
    hide LogInv, ExchangeInv, Fails, RecordOutcome, Answered, CutOff, Announced;
    var w' := Step(o, cancelled, held, w, a).value;
    if w.pc.Check? && w'.pc.Acquire? && o.probeCount > 0 {
      assert Rounds(o, w) == Rounds(o, w') + 1;
    } else {
      assert o.probeCount > 0 ==> Rounds(o, w') == Rounds(o, w);
      assert w'.pc.Acquire? || Rank(o, w') < Rank(o, w);
    }
  }

  function Measure(o: Options, s: Fleet): nat {
    TotalWeight(w => Weight(o, w), s.workers) + if s.cancelled then 0 else 1
  }

  lemma {:induction false} NextLowersMeasure(o: Options, s: Fleet, s': Fleet)
    requires Inv(o, s) && Next(o, s, s') && o.probeCount > 0
    ensures Measure(o, s') < Measure(o, s)
  {
    if !Cancel(s, s') {
      var i: nat, a :| WorkerStep(o, s, s', i, a);
      StepLowersWeight(o, s.cancelled, s.held, s.workers[i], a);
      TotalUpdate(w => Weight(o, w), s.workers, i, s'.workers[i]);
    }
  }

  lemma {:induction false} RunUsesMeasure(o: Options, run: seq<Fleet>)
    requires IsRun(o, run) && o.probeCount > 0
    ensures |run| - 1 + Measure(o, Last(run)) <= Measure(o, run[0])
  {
    var prefix := run[..|run| - 1];
    if |prefix| > 0 {
      assert IsRun(o, prefix);
      RunUsesMeasure(o, prefix);
      RunKeepsInv(o, prefix);
      assert Inv(o, prefix[|prefix| - 1]);
      NextLowersMeasure(o, run[|run| - 2], run[|run| - 1]);
    }
  }

  /** With a probe count every run ends, after a number of steps fixed in advance. */
  lemma {:induction false} RunsEnd(o: Options, run: seq<Fleet>)
    requires IsRun(o, run) && o.probeCount > 0
    ensures |run| <= |run[0].workers| * (o.probeCount * (10 + o.retries) + 1) + 2
  {
    RunUsesMeasure(o, run);
    var b := o.probeCount * (10 + o.retries) + 1;
    assert Weight(o, FRESH) == b;
    TotalBound(w => Weight(o, w), run[0].workers, b);
  }

  /** And once cancelled, every run ends even without a probe count: n steps after run[k]. */
  lemma {:induction false} CancelledRunsEnd(o: Options, run: seq<Fleet>, k: nat)
    requires IsRun(o, run) && k < |run| && run[k].cancelled
    ensures |run| - 1 - k + TotalWeight(w => Rank(o, w), Last(run).workers)
            <= TotalWeight(w => Rank(o, w), run[k].workers)
    ensures Last(run).cancelled
  {
    var prefix := run[..|run| - 1];
    if k < |prefix| {
      assert IsRun(o, prefix);
      CancelledRunsEnd(o, prefix, k);
      RunKeepsInv(o, prefix);
      var s, s' := run[|run| - 2], run[|run| - 1];
      assert Inv(o, prefix[|prefix| - 1]) && Next(o, s, s');
      var i: nat, a :| WorkerStep(o, s, s', i, a);
      StepLowersWeight(o, s.cancelled, s.held, s.workers[i], a);
      TotalUpdate(w => Rank(o, w), s.workers, i, s'.workers[i]);
    }
  }

  /** What a finished worker leaves behind, whatever happened to the others: a success or failure for
      each of ProbeCount probes, all announced; or a failure run that has just reached the limit,
      announced but for the last; or, only after a cancellation, fewer probes, all announced. Its
      counters are those of its own log in each case, and the log says of each probe whether the last
      answer to it came in time. */
  lemma {:induction false} FinalAccount(o: Options, run: seq<Fleet>, i: nat)
    requires IsRun(o, run) && i < |Last(run).workers| && Last(run).workers[i].pc.Finished?
    ensures var w := Last(run).workers[i];
            && w.stats == StatsOf(w.log)
            && w.stats.successes + w.stats.failures == |w.log| == w.sent == |w.exchanges|
            && (forall k | 0 <= k < |w.log| :: Decides(o, Last(run).cancelled, w.exchanges[k], w.log[k]))
            && match w.pc.why
               case TooManyFails =>
                 && o.maxFails > 0 && Trailing(w.log, false) == o.maxFails
                 && w.events == (if o.notify then EventsOf(w.log[..|w.log| - 1]) else [])
                 && (o.probeCount > 0 ==> |w.log| <= o.probeCount)
               case AllProbesDone =>
                 && o.probeCount > 0 && |w.log| == o.probeCount
                 && (o.maxFails > 0 ==> Trailing(w.log, false) < o.maxFails)
                 && w.events == (if o.notify then EventsOf(w.log) else [])
               case Cancelled =>
                 && Last(run).cancelled
                 && (o.probeCount > 0 ==> |w.log| < o.probeCount)
                 && (o.maxFails > 0 ==> Trailing(w.log, false) < o.maxFails)
                 && w.events == (if o.notify then EventsOf(w.log) else [])
  {
    RunKeepsInv(o, run);
    var w := Last(run).workers[i];
    assert WorkerInv(o, Last(run).cancelled, w);
    TallyTotal(w.log);
    assert w.log[..|w.log|] == w.log;
    if w.pc.why == TooManyFails {
      assert |w.log| > 0;
      var k := |w.log| - 1;
      assert Trailing(w.log[..k], false) < o.maxFails;
    }
  }

  // A worker of a fleet does what it would do alone.

  lemma {:induction false} ConcurrencyOnlyDelays(o: Options, cancelled: bool, held: nat, w: Worker, a: Action)
    requires Step(o, cancelled, held, w, a).Some?
    ensures Step(o.(concurrency := 0), cancelled, 0, w, a) == Step(o, cancelled, held, w, a)
  {
  }

  /** Projected on one worker, every run of the fleet is a run of that worker alone without a
      semaphore: the others and the semaphore decide when it moves, never what it does. */
  lemma {:induction false} FleetRefinesSolo(o: Options, run: seq<Fleet>, i: nat) returns (solo: seq<Fleet>)
    requires IsRun(o, run) && i < |run[0].workers|
    ensures |Last(run).workers| == |run[0].workers|
    ensures IsRun(o.(concurrency := 0), solo)
    ensures Last(solo) == Fleet([Last(run).workers[i]], 0, Last(run).cancelled)
  {
    var prefix := run[..|run| - 1];
    if |prefix| == 0 {
      solo := [Fleet([run[0].workers[i]], 0, run[0].cancelled)];
    } else {
      assert IsRun(o, prefix);
      var before := FleetRefinesSolo(o, prefix, i);
      var s, s' := run[|run| - 2], run[|run| - 1];
      assert s == Last(prefix) && Next(o, s, s');
      var t, t' := Last(before), Fleet([s'.workers[i]], 0, s'.cancelled);
      if t == t' {
        solo := before;
      } else {
        solo := before + [t'];
        SoloStep(o, s, s', i);
        assert forall k | 0 <= k < |before| :: solo[k] == before[k];
      }
    }
  }

  lemma {:induction false} SoloStep(o: Options, s: Fleet, s': Fleet, i: nat)
    requires Next(o, s, s') && i < |s.workers| == |s'.workers|
    requires s'.workers[i] != s.workers[i] || s'.cancelled != s.cancelled
    ensures Next(o.(concurrency := 0), Fleet([s.workers[i]], 0, s.cancelled), Fleet([s'.workers[i]], 0, s'.cancelled))
  {
    var t, t' := Fleet([s.workers[i]], 0, s.cancelled), Fleet([s'.workers[i]], 0, s'.cancelled);
    if Cancel(s, s') {
      assert Cancel(t, t');
    } else {
      var j: nat, a :| WorkerStep(o, s, s', j, a);
      ConcurrencyOnlyDelays(o, s.cancelled, s.held, s.workers[j], a);
      assert t.workers[0 := s'.workers[i]] == t'.workers;
      assert WorkerStep(o.(concurrency := 0), t, t', 0, a);
    }
  }
}
