/** Prober.Probe of pkg/probers/probers.go: one target, probed tick by tick. */
module Prober {
  import opened Pinger
  import opened Uptime
  import opened Statistics

  datatype Options = Options(probesBeforeQuit: nat, maxConsecutiveFails: nat, maxLatency: real, retries: nat)

  /** The sleep before a retry, and the ping behind it. */
  datatype Wakeup = Interrupted | Slept(res: PingResult)

  /** What the select delivers: the end of the context, or a tick with what the network answers
      to it. `now` is the reading the probe is booked under, `after` the next one. */
  datatype Event = Done(after: Time) | Tick(now: Time, first: PingResult, retries: seq<Wakeup>, after: Time)

  /** The result the retry loop settles on, with `left` retries to go. */
  function Settle(o: Options, res: PingResult, retries: seq<Wakeup>, left: nat): PingResult
    decreases left
  {
    if !Fails(o.maxLatency, res) || left == 0 || |retries| == 0 || retries[0].Interrupted? then res
    else Settle(o, retries[0].res, retries[1..], left - 1)
  }

  /** Ping number k of a tick, counting the first as 0. */
  function Answer(e: Event, k: nat): PingResult
    requires e.Tick? && k <= |e.retries| && (k > 0 ==> e.retries[k - 1].Slept?)
  {
    if k == 0 then e.first else e.retries[k - 1].res
  }

  /** The first k retries slept undisturbed after failing pings. */
  ghost predicate Pursued(o: Options, e: Event, k: nat)
    requires e.Tick?
  {
    && k <= o.retries && k <= |e.retries|
    && (forall i | 0 <= i < k :: e.retries[i].Slept?)
    && (forall i: nat | i < k :: Fails(o.maxLatency, Answer(e, i)))
  }

  /** The loop stops at the first ping that does not fail, after the last permitted retry, or when
      a sleep is interrupted, and reports that ping. */
  lemma {:induction false} RetryMeaning(o: Options, e: Event) returns (k: nat)
    requires e.Tick?
    ensures Pursued(o, e, k)
    ensures Settle(o, e.first, e.retries, o.retries) == Answer(e, k)
    ensures !Fails(o.maxLatency, Answer(e, k)) || k == o.retries || k == |e.retries| || e.retries[k].Interrupted?
  {
    k := 0;
    while Fails(o.maxLatency, Answer(e, k)) && k < o.retries && k < |e.retries| && e.retries[k].Slept?
      invariant Pursued(o, e, k)
      invariant Settle(o, e.first, e.retries, o.retries) == Settle(o, Answer(e, k), e.retries[k..], o.retries - k)
      decreases o.retries - k
    {
      assert e.retries[k..][1..] == e.retries[k + 1..];
      k := k + 1;
    }
  }

  /** How a tick is recorded. */
  function Outcome(o: Options, e: Event): ProbeRecord
    requires e.Tick?
  {
    var res := Settle(o, e.first, e.retries, o.retries);
    if Fails(o.maxLatency, res) then ProbeRecord(false, e.now, 0.0) else ProbeRecord(true, e.now, res.rttMs)
  }

  /** What OnProbeResult gets of a tick: the settled ping, with an error if it counts as a failure. */
  function Report(o: Options, e: Event): PingResult
    requires e.Tick?
  {
    var res := Settle(o, e.first, e.retries, o.retries);
    PingResult(Fails(o.maxLatency, res), res.rttMs)
  }

  /** What is recorded and reported of a tick, in terms of its pings: ping k, which no ping before it
      made needless, answered; the probe is a success exactly if that answer has no error and is no
      slower than a positive MaxLatency, and it has that answer's RTT; and a failed answer is the last
      permitted, or the last before the context ended. */
  lemma {:induction false} OutcomeMeaning(o: Options, e: Event) returns (k: nat)
    requires e.Tick?
    ensures k <= o.retries && k <= |e.retries| && (forall i | 0 <= i < k :: e.retries[i].Slept?)
    ensures forall i: nat | i < k :: Answer(e, i).err || 0.0 < o.maxLatency < Answer(e, i).rttMs
    ensures Outcome(o, e).ok <==> !Answer(e, k).err && !(0.0 < o.maxLatency < Answer(e, k).rttMs)
    ensures Outcome(o, e).at == e.now && (Outcome(o, e).ok ==> Outcome(o, e).rtt == Answer(e, k).rttMs)
    ensures Outcome(o, e).ok || k == o.retries || k == |e.retries| || e.retries[k].Interrupted?
    ensures Report(o, e) == PingResult(!Outcome(o, e).ok, Answer(e, k).rttMs)
  {
    k := RetryMeaning(o, e);
    assert forall i: nat | i < k :: Fails(o.maxLatency, Answer(e, i));
    hide Settle;
  }

  ghost predicate AllTicks(events: seq<Event>) {
    forall i | 0 <= i < |events| :: events[i].Tick?
  }

  function LogOf(o: Options, events: seq<Event>): seq<ProbeRecord>
    requires AllTicks(events)
  {
    seq(|events|, i requires 0 <= i < |events| && AllTicks(events) => Outcome(o, events[i]))
  }

  function ReportsOf(o: Options, events: seq<Event>): seq<PingResult>
    requires AllTicks(events)
  {
    seq(|events|, i requires 0 <= i < |events| && AllTicks(events) => Report(o, events[i]))
  }

  /** The failure limit is reached. */
  ghost predicate LimitReached(o: Options, log: seq<ProbeRecord>) {
    o.maxConsecutiveFails > 0 && Trailing(log, false) >= o.maxConsecutiveFails
  }

  /** What is recorded when the first n events have been handled. */
  ghost function Recorded(o: Options, earlier: seq<ProbeRecord>, events: seq<Event>, n: int): seq<ProbeRecord>
    requires 0 <= n <= |events| && AllTicks(events[..n])
  {
    earlier + LogOf(o, events[..n])
  }

  /** The first n events are ticks, and none of the loop's two limits is reached by them. */
  ghost predicate GoesOn(o: Options, earlier: seq<ProbeRecord>, events: seq<Event>, n: int)
    requires 0 <= n <= |events|
  {
    && AllTicks(events[..n])
    && !LimitReached(o, Recorded(o, earlier, events, n))
    && !(o.probesBeforeQuit > 0 && n >= o.probesBeforeQuit)
  }

  /** When the last probe with this outcome was, or `otherwise` if there was none. */
  function LastAt(log: seq<ProbeRecord>, ok: bool, otherwise: Time): Time {
    if |log| == 0 then otherwise
    else if log[|log| - 1].ok == ok then log[|log| - 1].at
    else LastAt(log[..|log| - 1], ok, otherwise)
  }

  lemma LastAtSnoc(log: seq<ProbeRecord>, p: ProbeRecord, ok: bool, otherwise: Time)
    ensures LastAt(log + [p], ok, otherwise) == if p.ok == ok then p.at else LastAt(log, ok, otherwise)
  {
    assert (log + [p])[..|log|] == log;
  }

  /** When the loop goes on: every event so far was a tick, the last MaxConsecutiveFails probes did
      not all fail, if that is limited, and there were fewer ticks than ProbesBeforeQuit, if that is. */
  lemma GoesOnMeans(o: Options, earlier: seq<ProbeRecord>, events: seq<Event>, n: nat)
    requires n <= |events| && AllTicks(events[..n])
    ensures var log, m := Recorded(o, earlier, events, n), o.maxConsecutiveFails;
            GoesOn(o, earlier, events, n)
            <==> && (o.probesBeforeQuit == 0 || n < o.probesBeforeQuit)
                 && (m == 0 || m > |log| || exists i :: |log| - m <= i < |log| && log[i].ok)
  {
    var log, m := Recorded(o, earlier, events, n), o.maxConsecutiveFails;
    TrailingMeaning(log, false);
    var t := Trailing(log, false);
    if t < m <= |log| {
      assert log[|log| - 1 - t].ok;
    }
  }

  ghost function ReplayFrom(c: Clockwork, log: seq<ProbeRecord>): Clockwork {
    if |log| == 0 then c else Advance(ReplayFrom(c, log[..|log| - 1]), log[|log| - 1])
  }

  class Prober {
    const opts: Options
    const statistics: Statistics

    constructor (opts: Options, statistics: Statistics)
      ensures this.opts == opts && this.statistics == statistics
    {
      this.opts := opts;
      this.statistics := statistics;
    }

    method PingWithRetries(e: Event) returns (isFailure: bool, rttMs: real)
      requires e.Tick?
      ensures var res := Settle(opts, e.first, e.retries, opts.retries);
              isFailure == Fails(opts.maxLatency, res) && rttMs == res.rttMs
    {
      rttMs := e.first.rttMs;
      isFailure := e.first.err;
      if !isFailure && opts.maxLatency > 0.0 && rttMs > opts.maxLatency {
        isFailure := true;
      }
      ghost var res := e.first;
      if isFailure && opts.retries > 0 {
        for attempt := 1 to opts.retries + 1
          invariant isFailure && isFailure == Fails(opts.maxLatency, res) && rttMs == res.rttMs
          invariant attempt - 1 <= |e.retries|
          invariant Settle(opts, e.first, e.retries, opts.retries)
                    == Settle(opts, res, e.retries[attempt - 1..], opts.retries - (attempt - 1))
        {
          assert e.retries[attempt - 1..] != [] ==> e.retries[attempt - 1..][1..] == e.retries[attempt..];
          if attempt - 1 == |e.retries| || e.retries[attempt - 1].Interrupted? {
            break;
          }
          var retryRes := e.retries[attempt - 1].res;
          var retryRttMs := retryRes.rttMs;
          var retryFailure := retryRes.err;
          if !retryFailure && opts.maxLatency > 0.0 && retryRttMs > opts.maxLatency {
            retryFailure := true;
          }
          res := retryRes;
          if !retryFailure {
            rttMs := retryRttMs;
            isFailure := false;
            break;
          }
          rttMs := retryRttMs;
        }
      }
    }

    /** The failure branch: counters, and the start of a downtime if the target was up. */
    method NoteFailure(pingTime: Time)
      requires statistics.Agrees()
      modifies statistics
      ensures statistics.Agrees()
      ensures statistics.log == old(statistics.log) + [ProbeRecord(false, pingTime, 0.0)]
      ensures statistics.Times() == Advance(old(statistics.Times()), ProbeRecord(false, pingTime, 0.0))
      ensures statistics.lastUnsuccessfulProbe == pingTime
      ensures statistics.lastSuccessfulProbe == old(statistics.lastSuccessfulProbe)
      ensures statistics.startTime == old(statistics.startTime)
    {
      hide Rtts, Trailing, AggregatesOf;
      CountFailure(pingTime);
      if !statistics.destWasDown {
        statistics.destWasDown := true;
        statistics.startOfDowntime := pingTime;
      }
    }

    method CountFailure(pingTime: Time)
      requires statistics.Agrees()
      modifies statistics`log, statistics`totalUnsuccessfulProbes, statistics`failed,
               statistics`ongoingSuccessfulProbes, statistics`ongoingUnsuccessfulProbes,
               statistics`lastUnsuccessfulProbe
      ensures statistics.Agrees()
      ensures statistics.log == old(statistics.log) + [ProbeRecord(false, pingTime, 0.0)]
      ensures statistics.lastUnsuccessfulProbe == pingTime
    {
      hide Rtts, Trailing, AggregatesOf;
      LogGrows(statistics.log, ProbeRecord(false, pingTime, 0.0));
      statistics.ongoingSuccessfulProbes := 0;
      statistics.ongoingUnsuccessfulProbes := statistics.ongoingUnsuccessfulProbes + 1;
      statistics.failed := statistics.failed + 1;
      statistics.totalUnsuccessfulProbes := statistics.totalUnsuccessfulProbes + 1;
      statistics.lastUnsuccessfulProbe := pingTime;
      statistics.log := statistics.log + [ProbeRecord(false, pingTime, 0.0)];
    }

    /** The success branch: aggregates, and the end of a downtime if the target was down. */
    method NoteSuccess(pingTime: Time, rttMs: real)
      requires statistics.Agrees()
      modifies statistics
      ensures statistics.Agrees()
      ensures statistics.log == old(statistics.log) + [ProbeRecord(true, pingTime, rttMs)]
      ensures statistics.Times() == Advance(old(statistics.Times()), ProbeRecord(true, pingTime, rttMs))
      ensures statistics.startTime == old(statistics.startTime)
      ensures statistics.lastSuccessfulProbe == pingTime
      ensures statistics.lastUnsuccessfulProbe == old(statistics.lastUnsuccessfulProbe)
    {
      hide Rtts, Trailing, AggregatesOf;
      statistics.RecordSuccess(rttMs, pingTime);
      EndDowntime(pingTime, rttMs);
    }

    method EndDowntime(pingTime: Time, ghost rttMs: real)
      modifies statistics`destWasDown, statistics`totalDowntime, statistics`downTime,
               statistics`longestDown, statistics`startOfUptime
      ensures statistics.Times() == Advance(old(statistics.Times()), ProbeRecord(true, pingTime, rttMs))
    {
      if statistics.destWasDown {
        statistics.destWasDown := false;
        var downDuration := Sub(pingTime, statistics.startOfDowntime);
        statistics.totalDowntime := statistics.totalDowntime + downDuration;
        statistics.downTime := downDuration;
        statistics.longestDown := SetLongestDuration(statistics.startOfDowntime, downDuration, statistics.longestDown);
        statistics.startOfUptime := pingTime;
      }
      if statistics.startOfUptime == ZERO_TIME {
        statistics.startOfUptime := pingTime;
      }
    }

    method FinalizeStatistics(now: Time)
      requires statistics.Agrees()
      modifies statistics`endTime, statistics`upTime, statistics`totalDowntime, statistics`downTime,
               statistics`longestDown, statistics`totalUptime, statistics`longestUp
      ensures statistics.Agrees()
      ensures statistics.endTime == now && statistics.upTime == Sub(now, statistics.startTime)
      ensures statistics.Times() == Finalize(old(statistics.Times()), now)
    {
      hide Rtts, Trailing, AggregatesOf;
      statistics.endTime := now;
      statistics.upTime := Sub(statistics.endTime, statistics.startTime);
      if statistics.destWasDown {
        var downDuration := Sub(statistics.endTime, statistics.startOfDowntime);
        statistics.totalDowntime := statistics.totalDowntime + downDuration;
        statistics.downTime := downDuration;
        statistics.longestDown := SetLongestDuration(statistics.startOfDowntime, downDuration, statistics.longestDown);
      } else {
        var upDuration := Sub(statistics.endTime, statistics.startOfUptime);
        statistics.totalUptime := statistics.totalUptime + upDuration;
        statistics.longestUp := SetLongestDuration(statistics.startOfUptime, upDuration, statistics.longestUp);
      }
    }

    /** One tick, up to the tests that may end the loop. */
    method HandleTick(e: Event) returns (isFailure: bool, rttMs: real)
      requires e.Tick? && statistics.Agrees()
      modifies statistics
      ensures statistics.Agrees()
      ensures statistics.log == old(statistics.log) + [Outcome(opts, e)]
      ensures statistics.Times() == Advance(old(statistics.Times()), Outcome(opts, e))
      ensures statistics.lastSuccessfulProbe == (if isFailure then old(statistics.lastSuccessfulProbe) else e.now)
      ensures statistics.lastUnsuccessfulProbe == (if isFailure then e.now else old(statistics.lastUnsuccessfulProbe))
      ensures statistics.startTime == old(statistics.startTime)
      ensures isFailure == !Outcome(opts, e).ok && PingResult(isFailure, rttMs) == Report(opts, e)
    {
      hide Advance, Rtts, Trailing, AggregatesOf, Settle;
      isFailure, rttMs := PingWithRetries(e);
      if isFailure {
        NoteFailure(e.now);
      } else {
        NoteSuccess(e.now, rttMs);
      }
    }

    /** Probe, on the events the select will deliver; `returned` is false while it still waits for
        more. `handled` ticks were recorded; `reports` is what was passed to OnProbeResult. */
    method Probe(events: seq<Event>) returns (handled: nat, reports: seq<PingResult>, returned: bool)
      requires statistics.Agrees()
      modifies statistics
      ensures statistics.Agrees()
      ensures handled <= |events| && AllTicks(events[..handled])
      ensures statistics.log == old(statistics.log) + LogOf(opts, events[..handled])
      // it returns on the first event that says so
      ensures forall i | 0 < i < handled :: GoesOn(opts, old(statistics.log), events, i)
      ensures returned <==> (handled > 0 && !GoesOn(opts, old(statistics.log), events, handled))
                            || (handled < |events| && events[handled].Done?)
      ensures !returned ==> handled == |events|
      // it reports every tick but the one that reaches the failure limit
      ensures reports == if handled > 0 && LimitReached(opts, statistics.log)
                         then ReportsOf(opts, events[..handled])[..handled - 1]
                         else ReportsOf(opts, events[..handled])
      // and leaves the clock fields finalized
      ensures var c := ReplayFrom(old(statistics.Times()), LogOf(opts, events[..handled]));
              statistics.Times() == if returned then Finalize(c, statistics.endTime) else c
      ensures returned ==> var last := if handled > 0 && !GoesOn(opts, old(statistics.log), events, handled)
                                       then events[handled - 1] else events[handled];
              statistics.endTime == last.after && statistics.upTime == Sub(last.after, statistics.startTime)
      ensures statistics.startTime == old(statistics.startTime)
      ensures statistics.lastSuccessfulProbe
              == LastAt(LogOf(opts, events[..handled]), true, old(statistics.lastSuccessfulProbe))
      ensures statistics.lastUnsuccessfulProbe
              == LastAt(LogOf(opts, events[..handled]), false, old(statistics.lastUnsuccessfulProbe))
      ensures returned && old(statistics.log) == [] && old(statistics.Times()) == AT_REST ==>
                Accounted(statistics.Times(), statistics.log, statistics.endTime)
    {
      hide Advance, Finalize, Rtts, Trailing, AggregatesOf, Settle, Accounted, LogOf, AllTicks,
           LimitReached, Outcome, Report, ReportsOf, LastAt, ReplayFrom, Recorded, Statistics.Agrees, Statistics.Times;
      ghost var earlier, clock := statistics.log, statistics.Times();
      var probeCount := 0;
      handled, reports, returned := 0, [], false;
      NothingHandled(opts, earlier, clock, events);
      while handled < |events|
        invariant handled <= |events| && AllTicks(events[..handled])
        invariant statistics.Agrees() && statistics.log == Recorded(opts, earlier, events, handled)
        invariant statistics.Times() == ReplayFrom(clock, LogOf(opts, events[..handled]))
        invariant forall i | 0 < i <= handled :: GoesOn(opts, earlier, events, i)
        invariant reports == ReportsOf(opts, events[..handled]) && |reports| == handled
        invariant statistics.startTime == old(statistics.startTime)
        invariant statistics.lastSuccessfulProbe
                  == LastAt(LogOf(opts, events[..handled]), true, old(statistics.lastSuccessfulProbe))
        invariant statistics.lastUnsuccessfulProbe
                  == LastAt(LogOf(opts, events[..handled]), false, old(statistics.lastUnsuccessfulProbe))
        invariant handled > 0 ==> !LimitReached(opts, statistics.log)
        invariant probeCount == if opts.probesBeforeQuit > 0 then handled else 0
        decreases |events| - handled
      {
        var e := events[handled];
        if e.Done? {
          FinalizeStatistics(e.after);
          returned := true;
          break;
        }
        var isFailure, rttMs := HandleTick(e);
        handled := handled + 1;
        OneMore(opts, earlier, clock, events, handled);
        LastAtSnoc(LogOf(opts, events[..handled - 1]), Outcome(opts, e), true, old(statistics.lastSuccessfulProbe));
        LastAtSnoc(LogOf(opts, events[..handled - 1]), Outcome(opts, e), false, old(statistics.lastUnsuccessfulProbe));
        LimitTest(opts, earlier, events, handled);
        assert statistics.ongoingUnsuccessfulProbes == Trailing(statistics.log, false) by {
          statistics.StreakOf();
        }
        if isFailure && opts.maxConsecutiveFails > 0
           && statistics.ongoingUnsuccessfulProbes >= opts.maxConsecutiveFails {
          FinalizeStatistics(e.after);
          returned := true;
          break;
        }
        reports := reports + [PingResult(isFailure, rttMs)];
        if opts.probesBeforeQuit > 0 {
          probeCount := probeCount + 1;
          if probeCount >= opts.probesBeforeQuit {
            FinalizeStatistics(e.after);
            returned := true;
            break;
          }
        }
      }
      RecordedIs(opts, earlier, events, handled);
      FinalAccount(LogOf(opts, events[..handled]), statistics.endTime);
    }
  }

  lemma NothingHandled(o: Options, earlier: seq<ProbeRecord>, clock: Clockwork, events: seq<Event>)
    ensures AllTicks(events[..0])
    ensures Recorded(o, earlier, events, 0) == earlier
    ensures ReplayFrom(clock, LogOf(o, events[..0])) == clock
    ensures ReportsOf(o, events[..0]) == [] && LogOf(o, events[..0]) == []
    ensures forall ok, t :: LastAt([], ok, t) == t
  {
  }

  lemma RecordedIs(o: Options, earlier: seq<ProbeRecord>, events: seq<Event>, n: nat)
    requires n <= |events| && AllTicks(events[..n])
    ensures Recorded(o, earlier, events, n) == earlier + LogOf(o, events[..n])
    ensures earlier == [] ==> Recorded(o, earlier, events, n) == LogOf(o, events[..n])
  {
  }

  lemma OneMore(o: Options, earlier: seq<ProbeRecord>, clock: Clockwork, events: seq<Event>, n: nat)
    requires 0 < n <= |events| && AllTicks(events[..n - 1]) && events[n - 1].Tick?
    ensures AllTicks(events[..n])
    ensures var p := Outcome(o, events[n - 1]);
            && Recorded(o, earlier, events, n) == Recorded(o, earlier, events, n - 1) + [p]
            && ReportsOf(o, events[..n]) == ReportsOf(o, events[..n - 1]) + [Report(o, events[n - 1])]
            && |ReportsOf(o, events[..n])| == n
            && LogOf(o, events[..n]) == LogOf(o, events[..n - 1]) + [p] && p.at == events[n - 1].now
            && ReplayFrom(clock, LogOf(o, events[..n])) == Advance(ReplayFrom(clock, LogOf(o, events[..n - 1])), p)
  {
    assert forall i | 0 <= i < n - 1 :: events[..n][i] == events[..n - 1][i];
    assert events[..n][n - 1] == events[n - 1];
    var log := LogOf(o, events[..n]);
    assert log[..n - 1] == LogOf(o, events[..n - 1]);
    assert log == log[..n - 1] + [Outcome(o, events[n - 1])];
  }

  /** A success cannot reach the limit: the source tests it in the failure branch only. */
  lemma LimitTest(o: Options, earlier: seq<ProbeRecord>, events: seq<Event>, n: nat)
    requires 0 < n <= |events| && AllTicks(events[..n])
    ensures var log := Recorded(o, earlier, events, n);
            LimitReached(o, log)
            <==> !Outcome(o, events[n - 1]).ok && o.maxConsecutiveFails > 0
                 && Trailing(log, false) >= o.maxConsecutiveFails
  {
    var log := Recorded(o, earlier, events, n);
    assert log[|log| - 1] == Outcome(o, events[n - 1]);
  }

  /** What the clock fields say of the log in the end. */
  ghost predicate Accounted(c: Clockwork, log: seq<ProbeRecord>, end: Time) {
    |log| > 0 && Timely(log, end) ==>
      && c.totalDowntime == Total(Runs(log, false, end))
      && IsLatestLongest(c.longestDown, Runs(log, false, end))
      && c.downTime == LastLength(Runs(log, false, end))
      && c.longestUp == LastUp(log, end)
      && c.totalUptime == (if log[|log| - 1].ok then end - RunStart(log) else 0)
      && c.totalUptime + c.totalDowntime == end - log[0].at - Total(Closed(log, true)) <= end - log[0].at
  }

  lemma {:induction false} FromRest(log: seq<ProbeRecord>)
    ensures ReplayFrom(AT_REST, log) == Replay(log)
  {
    if |log| > 0 {
      FromRest(log[..|log| - 1]);
    }
  }

  lemma FinalAccount(log: seq<ProbeRecord>, end: Time)
    ensures Accounted(Finalize(ReplayFrom(AT_REST, log), end), log, end)
  {
    FromRest(log);
    if |log| > 0 && Timely(log, end) {
      Account(log, end);
      DownTimeIsLast(log, end);
    }
  }
}
