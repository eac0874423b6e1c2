/** The up/down bookkeeping of Prober.Probe and finalizeStatistics (pkg/probers/probers.go) with
    SetLongestDuration (pkg/utils/utils.go), as a function of the probes so far. */
module Uptime {

  /** Nanoseconds since the zero time.Time; clock readings are positive. */
  type Time = int

  const ZERO_TIME: Time := 0
  const MAX_DURATION := 0x7fff_ffff_ffff_ffff

  /** time.Time.Sub saturates at the ends of a 64-bit duration. */
  function Sub(t: Time, u: Time): int {
    if t - u > MAX_DURATION then MAX_DURATION
    else if t - u < -MAX_DURATION - 1 then -MAX_DURATION - 1
    else t - u
  }

  /** The difference, where 64 bits hold it, and else the nearest duration they hold. */
  lemma SubSaturates(t: Time, u: Time)
    ensures -0x8000_0000_0000_0000 <= Sub(t, u) <= 0x7fff_ffff_ffff_ffff
    ensures -0x8000_0000_0000_0000 <= t - u <= 0x7fff_ffff_ffff_ffff ==> Sub(t, u) == t - u
    ensures t - u > 0x7fff_ffff_ffff_ffff ==> Sub(t, u) == 0x7fff_ffff_ffff_ffff
    ensures t - u < -0x8000_0000_0000_0000 ==> Sub(t, u) == -0x8000_0000_0000_0000
  {
  }

  /** A recorded probe: its outcome, the clock reading it is booked under, and its RTT in ms. */
  datatype ProbeRecord = ProbeRecord(ok: bool, at: Time, rtt: real)

  /** stats.LongestTime */
  datatype LongestTime = LongestTime(start: Time, end: Time, duration: int)

  const NO_TIME := LongestTime(ZERO_TIME, ZERO_TIME, 0)

  /** The fields of Statistics that keep time. */
  datatype Clockwork = Clockwork(
    destWasDown: bool, startOfDowntime: Time, startOfUptime: Time,
    totalDowntime: int, totalUptime: int, downTime: int,
    longestDown: LongestTime, longestUp: LongestTime)

  const AT_REST := Clockwork(false, ZERO_TIME, ZERO_TIME, 0, 0, 0, NO_TIME, NO_TIME)

  function SetLongestDuration(start: Time, duration: int, longest: LongestTime): LongestTime {
    if start == ZERO_TIME || duration == 0 then longest
    else if longest.end == ZERO_TIME || duration >= longest.duration then
      LongestTime(start, start + duration, duration)
    else longest
  }

  /** What one probe does to the fields. */
  function Advance(c: Clockwork, p: ProbeRecord): Clockwork {
    if !p.ok then
      if c.destWasDown then c else c.(destWasDown := true, startOfDowntime := p.at)
    else if c.destWasDown then
      var downDuration := Sub(p.at, c.startOfDowntime);
      c.(destWasDown := false,
         totalDowntime := c.totalDowntime + downDuration,
         downTime := downDuration,
         longestDown := SetLongestDuration(c.startOfDowntime, downDuration, c.longestDown),
         startOfUptime := p.at)
    else if c.startOfUptime == ZERO_TIME then c.(startOfUptime := p.at)
    else c
  }

  /** finalizeStatistics */
  function Finalize(c: Clockwork, end: Time): Clockwork {
    if c.destWasDown then
      var downDuration := Sub(end, c.startOfDowntime);
      c.(totalDowntime := c.totalDowntime + downDuration,
         downTime := downDuration,
         longestDown := SetLongestDuration(c.startOfDowntime, downDuration, c.longestDown))
    else
      var upDuration := Sub(end, c.startOfUptime);
      c.(totalUptime := c.totalUptime + upDuration,
         longestUp := SetLongestDuration(c.startOfUptime, upDuration, c.longestUp))
  }

  function Replay(log: seq<ProbeRecord>): Clockwork {
    if |log| == 0 then AT_REST else Advance(Replay(log[..|log| - 1]), log[|log| - 1])
  }

  // ---------------------------------------------------------------- maximal runs

  datatype Period = Period(start: Time, stop: Time)

  function Length(p: Period): int {
    p.stop - p.start
  }

  /** How many probes at the head of the log share the first one's outcome. */
  function RunLength(log: seq<ProbeRecord>): nat
    ensures RunLength(log) <= |log|
    ensures |log| > 0 ==> RunLength(log) > 0
  {
    if |log| == 0 then 0
    else if |log| == 1 || log[1].ok != log[0].ok then 1
    else 1 + RunLength(log[1..])
  }

  /** It is the longest such head: the probe behind it, if any, has the other outcome. */
  lemma {:induction false} RunLengthMaximal(log: seq<ProbeRecord>)
    ensures forall i | 0 <= i < RunLength(log) :: log[i].ok == log[0].ok
    ensures RunLength(log) < |log| ==> log[RunLength(log)].ok != log[0].ok
  {
    if |log| > 1 && log[1].ok == log[0].ok {
      RunLengthMaximal(log[1..]);
      assert log[1..][0] == log[1];
      assert forall i | 1 <= i < RunLength(log) :: log[i] == log[1..][i - 1];
    }
  }

  /** The maximal runs of outcome `ok`: from their first probe to the next probe of the other
      outcome, or to `end`. */
  function Runs(log: seq<ProbeRecord>, ok: bool, end: Time): seq<Period>
    decreases |log|
  {
    if |log| == 0 then []
    else
      var k := RunLength(log);
      (if log[0].ok == ok then [Period(log[0].at, if k < |log| then log[k].at else end)] else [])
      + Runs(log[k..], ok, end)
  }

  function Total(ps: seq<Period>): int {
    if |ps| == 0 then 0 else Total(ps[..|ps| - 1]) + Length(ps[|ps| - 1])
  }

  lemma {:induction false} TotalConcat(ps: seq<Period>, qs: seq<Period>)
    ensures Total(ps + qs) == Total(ps) + Total(qs)
    decreases |qs|
  {
    if |qs| == 0 {
      assert ps + qs == ps;
    } else {
      assert (ps + qs)[..|ps + qs| - 1] == ps + qs[..|qs| - 1];
      TotalConcat(ps, qs[..|qs| - 1]);
    }
  }

  lemma TotalOne(q: Period)
    ensures Total([q]) == Length(q)
  {
    assert ([q])[..0] == [];
    assert Total([]) == 0;
  }

  lemma TotalSnoc(ps: seq<Period>, q: Period)
    ensures Total(ps + [q]) == Total(ps) + Length(q)
  {
    TotalConcat(ps, [q]);
    TotalOne(q);
  }

  /** Up runs and down runs together fill the time from the first probe to the end. */
  lemma {:induction false} RunsFillTime(log: seq<ProbeRecord>, end: Time)
    ensures Total(Runs(log, true, end)) + Total(Runs(log, false, end)) == if |log| == 0 then 0 else end - log[0].at
    decreases |log|
  {
    if |log| > 0 {
      var k := RunLength(log);
      RunsFillTime(log[k..], end);
      var first := Period(log[0].at, if k < |log| then log[k].at else end);
      TotalConcat([first], Runs(log[k..], log[0].ok, end));
      TotalOne(first);
      assert [] + Runs(log[k..], !log[0].ok, end) == Runs(log[k..], !log[0].ok, end);
    }
  }

  /** The length of the run of `ok` at the foot of the log. */
  function Trailing(log: seq<ProbeRecord>, ok: bool): nat
    ensures Trailing(log, ok) <= |log|
  {
    if |log| == 0 || log[|log| - 1].ok != ok then 0 else 1 + Trailing(log[..|log| - 1], ok)
  }

  /** So many probes at the foot have the outcome, and the one before them has the other. */
  lemma {:induction false} TrailingMeaning(log: seq<ProbeRecord>, ok: bool)
    ensures forall i | |log| - Trailing(log, ok) <= i < |log| :: log[i].ok == ok
    ensures Trailing(log, ok) < |log| ==> log[|log| - 1 - Trailing(log, ok)].ok != ok
  {
    if |log| > 0 {
      TrailingMeaning(log[..|log| - 1], ok);
    }
  }

  /** When the run at the foot of the log began. */
  function RunStart(log: seq<ProbeRecord>): Time
    requires |log| > 0
  {
    if |log| == 1 || log[|log| - 2].ok != log[|log| - 1].ok then log[|log| - 1].at
    else RunStart(log[..|log| - 1])
  }

  lemma {:induction false} RunLengthSnoc(log: seq<ProbeRecord>, p: ProbeRecord)
    requires |log| > 0
    ensures RunLength(log + [p])
            == if RunLength(log) == |log| && p.ok == log[0].ok then |log| + 1 else RunLength(log)
  {
    if |log| > 1 && log[1].ok == log[0].ok {
      RunLengthSnoc(log[1..], p);
      assert (log + [p])[1..] == log[1..] + [p];
    } else if |log| == 1 {
      assert (log + [p])[1..] == [p];
    }
  }

  /** One more probe either prolongs the run at the foot of the log or closes it and opens one. */
  lemma {:induction false} RunsSnoc(log: seq<ProbeRecord>, p: ProbeRecord, ok: bool, end: Time)
    requires |log| > 0
    ensures Runs(log + [p], ok, end)
            == if p.ok == log[|log| - 1].ok then Runs(log, ok, end)
               else Runs(log, ok, p.at) + if p.ok == ok then [Period(p.at, end)] else []
    decreases |log|
  {
    var k := RunLength(log);
    RunLengthSnoc(log, p);
    if k < |log| {
      var rest, more := log[k..], log + [p];
      var head := if log[0].ok == ok then [Period(log[0].at, log[k].at)] else [];
      assert more[k..] == rest + [p] && more[k] == log[k] && more[0] == log[0];
      RunsSnoc(rest, p, ok, end);
      Regroup(head, Runs(rest, ok, p.at), if p.ok == ok then [Period(p.at, end)] else []);
      assert Runs(more, ok, end) == head + Runs(rest + [p], ok, end);
    } else {
      assert log[|log| - 1].ok == log[0].ok by { RunLengthMaximal(log); }
      assert log[k..] == [];
      if p.ok == log[0].ok {
        assert (log + [p])[k + 1..] == [];
      } else {
        assert (log + [p])[k..] == [p];
        SingleRun(p, ok, end);
      }
    }
  }

  lemma Regroup(a: seq<Period>, b: seq<Period>, c: seq<Period>)
    ensures a + (b + c) == a + b + c
  {
  }

  lemma SingleRun(p: ProbeRecord, ok: bool, end: Time)
    ensures Runs([p], ok, end) == if p.ok == ok then [Period(p.at, end)] else []
  {
    assert RunLength([p]) == 1;
    assert ([p])[1..] == [];
    assert Runs([], ok, end) == [];
  }

  /** The runs that are over: all but the one at the foot of the log. */
  function Closed(log: seq<ProbeRecord>, ok: bool): seq<Period>
    ensures |log| == 0 ==> Closed(log, ok) == []
  {
    if |log| < 2 then []
    else
      var front, p := log[..|log| - 1], log[|log| - 1];
      Closed(front, ok)
      + if front[|front| - 1].ok == ok && p.ok != ok then [Period(RunStart(front), p.at)] else []
  }

  lemma {:induction false} RunsAreClosedAndOpen(log: seq<ProbeRecord>, ok: bool, end: Time)
    requires |log| > 0
    ensures Runs(log, ok, end)
            == Closed(log, ok) + if log[|log| - 1].ok == ok then [Period(RunStart(log), end)] else []
    decreases |log|
  {
    var front, p := log[..|log| - 1], log[|log| - 1];
    assert log == front + [p];
    if |front| == 0 {
      assert log == [p];
      SingleRun(p, ok, end);
    } else {
      RunsSnoc(front, p, ok, end);
      RunsAreClosedAndOpen(front, ok, end);
      RunsAreClosedAndOpen(front, ok, p.at);
    }
  }

  // ---------------------------------------------------------------- what the fields mean

  /** Readings are positive, never go back, and span less than the 292 years a Duration holds. */
  ghost predicate Timely(log: seq<ProbeRecord>, end: Time) {
    && (forall i | 0 <= i < |log| :: 0 < log[i].at <= end)
    && (forall i, j | 0 <= i <= j < |log| :: log[i].at <= log[j].at)
    && (|log| > 0 ==> end - log[0].at <= MAX_DURATION)
  }

  /** l is the latest of the longest periods, provided one has any length. */
  ghost predicate IsLatestLongest(l: LongestTime, ps: seq<Period>) {
    || (l == NO_TIME && forall p | p in ps :: Length(p) == 0)
    || exists i :: LatestLongestAt(l, ps, i)
  }

  ghost predicate LatestLongestAt(l: LongestTime, ps: seq<Period>, i: int) {
    && 0 <= i < |ps|
    && l == LongestTime(ps[i].start, ps[i].stop, Length(ps[i]))
    && Length(ps[i]) > 0
    && (forall j | 0 <= j < |ps| :: Length(ps[j]) <= Length(ps[i]))
    && (forall j | i < j < |ps| :: Length(ps[j]) < Length(ps[i]))
  }

  lemma {:induction false} SetLongestKeeps(l: LongestTime, ps: seq<Period>, p: Period)
    requires IsLatestLongest(l, ps) && 0 < p.start <= p.stop
    requires forall q | q in ps :: 0 < q.start <= q.stop
    ensures IsLatestLongest(SetLongestDuration(p.start, Length(p), l), ps + [p])
  {
    var l', qs := SetLongestDuration(p.start, Length(p), l), ps + [p];
    assert forall q | q in qs :: q in ps || q == p;
    if l == NO_TIME && forall q | q in ps :: Length(q) == 0 {
      assert forall j | 0 <= j < |ps| :: qs[j] in ps;
      if Length(p) > 0 {
        assert LatestLongestAt(l', qs, |ps|);
      }
    } else {
      var i :| LatestLongestAt(l, ps, i);
      assert ps[i] in ps;
      assert forall j | 0 <= j < |ps| :: qs[j] == ps[j];
      if Length(p) >= Length(ps[i]) {
        assert LatestLongestAt(l', qs, |ps|);
      } else {
        assert LatestLongestAt(l', qs, i);
      }
    }
  }

  lemma {:induction false} PeriodsTimely(log: seq<ProbeRecord>, ok: bool, end: Time)
    requires Timely(log, end)
    ensures forall q | q in Closed(log, ok) :: 0 < q.start <= q.stop <= end && log[0].at <= q.start
    ensures |log| > 0 ==> log[0].at <= RunStart(log) <= log[|log| - 1].at
    decreases |log|
  {
    if |log| > 1 {
      PeriodsTimely(log[..|log| - 1], ok, end);
    }
  }

  /** Where the current run started, whether up or down. */
  ghost predicate KeepsStarts(c: Clockwork, log: seq<ProbeRecord>) {
    && (c.destWasDown <==> |log| > 0 && !log[|log| - 1].ok)
    && (c.destWasDown ==> c.startOfDowntime == RunStart(log))
    && (|log| > 0 && log[|log| - 1].ok ==> c.startOfUptime == RunStart(log))
    && (c.startOfUptime == ZERO_TIME <==> forall i | 0 <= i < |log| :: !log[i].ok)
  }

  /** What the finished runs left behind. */
  ghost predicate KeepsSums(c: Clockwork, log: seq<ProbeRecord>) {
    && c.totalDowntime == Total(Closed(log, false))
    && c.totalUptime == 0
    && c.longestUp == NO_TIME
    && IsLatestLongest(c.longestDown, Closed(log, false))
  }

  /** The state of the fields in the middle of a run of the program. */
  ghost predicate Keeps(c: Clockwork, log: seq<ProbeRecord>) {
    KeepsStarts(c, log) && KeepsSums(c, log)
  }

  lemma {:induction false} AdvanceKeepsStarts(c: Clockwork, log: seq<ProbeRecord>, p: ProbeRecord)
    requires KeepsStarts(c, log) && Timely(log + [p], p.at)
    ensures KeepsStarts(Advance(c, p), log + [p])
  {
    var log' := log + [p];
    assert log'[..|log|] == log && log'[|log|] == p;
    assert |log| > 0 ==> log'[|log| - 1] == log[|log| - 1];
    assert forall i | 0 <= i < |log| :: log'[i] == log[i];
    assert 0 < p.at;
    if !p.ok {
      assert (forall i | 0 <= i < |log'| :: !log'[i].ok) <==> forall i | 0 <= i < |log| :: !log[i].ok;
    }
  }

  lemma {:induction false} AdvanceKeepsSums(c: Clockwork, log: seq<ProbeRecord>, p: ProbeRecord)
    requires KeepsStarts(c, log) && KeepsSums(c, log) && Timely(log, p.at) && |log| > 0
    ensures KeepsSums(Advance(c, p), log + [p])
  {
    var log' := log + [p];
    assert log'[..|log|] == log && log'[|log|] == p;
    PeriodsTimely(log, false, p.at);
    var q := Period(RunStart(log), p.at);
    if !log[|log| - 1].ok && p.ok {
      assert Closed(log', false) == Closed(log, false) + [q];
      assert 0 < q.start <= q.stop && Length(q) <= MAX_DURATION;
      assert forall r | r in Closed(log, false) :: 0 < r.start <= r.stop;
      hide Closed, RunStart, IsLatestLongest, Timely, Total;
      TotalSnoc(Closed(log, false), q);
      SetLongestKeeps(c.longestDown, Closed(log, false), q);
    } else {
      assert Closed(log', false) == Closed(log, false);
    }
  }

  lemma {:induction false} AdvanceKeeps(c: Clockwork, log: seq<ProbeRecord>, p: ProbeRecord)
    requires Keeps(c, log) && Timely(log, p.at) && Timely(log + [p], p.at) && (log == [] ==> c == AT_REST)
    ensures Keeps(Advance(c, p), log + [p])
  {
    AdvanceKeepsStarts(c, log, p);
    if |log| > 0 {
      AdvanceKeepsSums(c, log, p);
    } else {
      assert Closed(log + [p], false) == [];
    }
  }

  lemma {:induction false} ReplayKeeps(log: seq<ProbeRecord>, end: Time)
    requires Timely(log, end)
    ensures Keeps(Replay(log), log)
    decreases |log|
  {
    if |log| > 0 {
      var front, p := log[..|log| - 1], log[|log| - 1];
      assert log == front + [p];
      assert Timely(front, end) && Timely(front, p.at) && Timely(log, p.at);
      hide Timely, KeepsSums, KeepsStarts, Advance;
      ReplayKeeps(front, end);
      AdvanceKeeps(Replay(front), front, p);
    }
  }

  lemma {:induction false} DowntimeAccount(log: seq<ProbeRecord>, end: Time)
    requires Timely(log, end) && |log| > 0
    ensures Finalize(Replay(log), end).totalDowntime == Total(Runs(log, false, end))
    ensures IsLatestLongest(Finalize(Replay(log), end).longestDown, Runs(log, false, end))
  {
    var c, q := Replay(log), Period(RunStart(log), end);
    ReplayKeeps(log, end);
    RunsAreClosedAndOpen(log, false, end);
    PeriodsTimely(log, false, end);
    assert 0 < RunStart(log) <= end && end - RunStart(log) <= MAX_DURATION;
    hide Runs, Closed, RunStart, Replay, IsLatestLongest, Timely, Total;
    if c.destWasDown {
      TotalSnoc(Closed(log, false), q);
      SetLongestKeeps(c.longestDown, Closed(log, false), q);
    } else {
      assert Closed(log, false) + [] == Closed(log, false);
    }
  }

  lemma {:induction false} UptimeAccount(log: seq<ProbeRecord>, end: Time)
    requires Timely(log, end) && |log| > 0
    ensures Finalize(Replay(log), end).totalUptime == if log[|log| - 1].ok then end - RunStart(log) else 0
    ensures Finalize(Replay(log), end).totalUptime == Total(Runs(log, true, end)) - Total(Closed(log, true))
  {
    var q := Period(RunStart(log), end);
    ReplayKeeps(log, end);
    RunsAreClosedAndOpen(log, true, end);
    PeriodsTimely(log, true, end);
    assert 0 < RunStart(log) <= end && end - RunStart(log) <= MAX_DURATION;
    hide Runs, Closed, RunStart, Replay, IsLatestLongest, Timely, Total;
    if log[|log| - 1].ok {
      TotalSnoc(Closed(log, true), q);
    } else {
      assert Closed(log, true) + [] == Closed(log, true);
    }
  }

  function LastLength(ps: seq<Period>): int {
    if |ps| == 0 then 0 else Length(ps[|ps| - 1])
  }

  lemma {:induction false} ReplayDownTime(log: seq<ProbeRecord>, end: Time)
    requires Timely(log, end)
    ensures Replay(log).downTime == LastLength(Closed(log, false))
    decreases |log|
  {
    if |log| > 0 {
      var front, p := log[..|log| - 1], log[|log| - 1];
      assert Timely(front, end) && Timely(front, p.at);
      ReplayDownTime(front, end);
      ReplayKeeps(front, end);
      PeriodsTimely(front, false, p.at);
      hide RunStart, Replay, IsLatestLongest, Timely, Total;
      if |front| > 0 && !front[|front| - 1].ok && p.ok {
        var q := Period(RunStart(front), p.at);
        assert Closed(log, false) == Closed(front, false) + [q];
        assert Advance(Replay(front), p).downTime == Length(q);
      } else {
        assert |front| > 0 ==> Closed(log, false) == Closed(front, false) + [];
      }
    }
  }

  /** DownTime is how long the last failure run took, whether it is over or not; 0 if there was none. */
  lemma {:induction false} DownTimeIsLast(log: seq<ProbeRecord>, end: Time)
    requires Timely(log, end) && |log| > 0
    ensures Finalize(Replay(log), end).downTime == LastLength(Runs(log, false, end))
  {
    ReplayDownTime(log, end);
    ReplayKeeps(log, end);
    RunsAreClosedAndOpen(log, false, end);
    PeriodsTimely(log, false, end);
    assert 0 < RunStart(log) <= end && end - RunStart(log) <= MAX_DURATION;
    hide Runs, Closed, RunStart, Replay, IsLatestLongest, Timely, Total;
  }

  /** What finalizing leaves in LongestUp: the up run at the foot of the log, if it took any time. */
  function LastUp(log: seq<ProbeRecord>, end: Time): LongestTime
    requires |log| > 0
  {
    if log[|log| - 1].ok && end > RunStart(log) then LongestTime(RunStart(log), end, end - RunStart(log)) else NO_TIME
  }

  lemma {:induction false} LongestUpIsLastUp(log: seq<ProbeRecord>, end: Time)
    requires Timely(log, end) && |log| > 0
    ensures Finalize(Replay(log), end).longestUp == LastUp(log, end)
  {
    ReplayKeeps(log, end);
    PeriodsTimely(log, true, end);
    assert 0 < RunStart(log) <= end && end - RunStart(log) <= MAX_DURATION;
    hide Closed, RunStart, Replay, IsLatestLongest, Timely, Total;
  }

  /** After finalizeStatistics, for any probes: TotalDowntime is the length of all maximal failure
      runs, the last one counted to the end; LongestDown is the latest of the longest of them;
      TotalUptime knows the up run at the foot of the log only, so that the two together fall
      short of the time since the first probe by the up runs that are over. */
  lemma {:induction false} Account(log: seq<ProbeRecord>, end: Time)
    requires Timely(log, end) && |log| > 0
    ensures var c := Finalize(Replay(log), end);
            var downs, ups := Runs(log, false, end), Runs(log, true, end);
            && c.totalDowntime == Total(downs)
            && IsLatestLongest(c.longestDown, downs)
            && c.longestUp == LastUp(log, end)
            && c.totalUptime == (if log[|log| - 1].ok then end - RunStart(log) else 0)
            && c.totalUptime == Total(ups) - Total(Closed(log, true))
            && c.totalUptime + c.totalDowntime == end - log[0].at - Total(Closed(log, true))
            && c.totalUptime + c.totalDowntime <= end - log[0].at
  {
    DowntimeAccount(log, end);
    UptimeAccount(log, end);
    LongestUpIsLastUp(log, end);
    RunsFillTime(log, end);
    ClosedNotNegative(log, true, end);
    hide Runs, Closed, RunStart, Total, Replay, IsLatestLongest, Timely, Finalize, LastUp;
  }

  lemma {:induction false} NotNegative(ps: seq<Period>)
    requires forall p | p in ps :: Length(p) >= 0
    ensures Total(ps) >= 0
    ensures Total(ps) == 0 <==> forall p | p in ps :: Length(p) == 0
  {
    if |ps| > 0 {
      var front, last := ps[..|ps| - 1], ps[|ps| - 1];
      NotNegative(front);
      assert ps == front + [last];
      assert forall p | p in ps :: p in front || p == last;
      assert last in ps;
    }
  }

  lemma {:induction false} ClosedNotNegative(log: seq<ProbeRecord>, ok: bool, end: Time)
    requires Timely(log, end)
    ensures Total(Closed(log, ok)) >= 0
    ensures Total(Closed(log, ok)) == 0 <==> forall p | p in Closed(log, ok) :: Length(p) == 0
  {
    PeriodsTimely(log, ok, end);
    NotNegative(Closed(log, ok));
  }

  lemma LatestAtTheEnd(ps: seq<Period>, p: Period)
    requires 0 < p.start < p.stop
    requires forall q | q in ps :: Length(q) <= Length(p)
    ensures IsLatestLongest(LongestTime(p.start, p.stop, Length(p)), ps + [p])
  {
    assert forall j | 0 <= j < |ps| :: (ps + [p])[j] in ps;
    assert LatestLongestAt(LongestTime(p.start, p.stop, Length(p)), ps + [p], |ps|);
  }

  lemma NoneIsLonger(l: LongestTime, ps: seq<Period>)
    requires IsLatestLongest(l, ps)
    ensures forall q | q in ps :: Length(q) <= l.duration
  {
    if i :| LatestLongestAt(l, ps, i) {
      forall q | q in ps ensures Length(q) <= l.duration {
        var j :| 0 <= j < |ps| && ps[j] == q;
      }
    }
  }

  /** LongestUp is printed as the longest uptime. It is the latest of the longest up runs exactly
      when no up run that a failure ended was longer than the one at the foot of the log. */
  lemma {:induction false} LongestUpWhen(log: seq<ProbeRecord>, end: Time)
    requires Timely(log, end) && |log| > 0
    ensures IsLatestLongest(Finalize(Replay(log), end).longestUp, Runs(log, true, end))
            <==> forall p | p in Closed(log, true) :: Length(p) <= LastUp(log, end).duration
  {
    var l, closed, ups, q := LastUp(log, end), Closed(log, true), Runs(log, true, end), Period(RunStart(log), end);
    LongestUpIsLastUp(log, end);
    RunsAreClosedAndOpen(log, true, end);
    PeriodsTimely(log, true, end);
    assert 0 < RunStart(log) <= end;
    assert forall p | p in closed :: p in ups;
    assert forall p | p in ups :: p in closed || (log[|log| - 1].ok && p == q);
    hide Runs, Closed, RunStart, Replay, Finalize, Timely;
    if IsLatestLongest(l, ups) {
      NoneIsLonger(l, ups);
    } else if forall p | p in closed :: Length(p) <= l.duration {
      if l != NO_TIME {
        hide IsLatestLongest;
        LatestAtTheEnd(closed, q);
        assert false;
      }
    }
  }

  /** Ten up, then down: the longest uptime is reported as none. */
  lemma LongestUpLost()
    ensures var log := [ProbeRecord(true, 1, 0.0), ProbeRecord(false, 11, 0.0)];
            Finalize(Replay(log), 12).longestUp == NO_TIME && Period(1, 11) in Runs(log, true, 12)
  {
    var log := [ProbeRecord(true, 1, 0.0), ProbeRecord(false, 11, 0.0)];
    LongestUpIsLastUp(log, 12);
    assert RunLength(log) == 1;
    assert Runs(log, true, 12) == [Period(1, 11)] + Runs(log[1..], true, 12);
  }

  /** TotalUptime is declared as the accumulated uptime. It is that exactly when no up run that
      took any time was ever ended by a failure. */
  lemma {:induction false} UptimeIsTotalWhen(log: seq<ProbeRecord>, end: Time)
    requires Timely(log, end) && |log| > 0
    ensures Finalize(Replay(log), end).totalUptime == Total(Runs(log, true, end))
            <==> forall p | p in Closed(log, true) :: Length(p) == 0
  {
    Account(log, end);
    ClosedNotNegative(log, true, end);
  }

  /** Ten up, five down, one up: the first ten are lost. */
  lemma UptimeLost()
    ensures var log := [ProbeRecord(true, 1, 0.0), ProbeRecord(false, 11, 0.0), ProbeRecord(true, 16, 0.0)];
            Finalize(Replay(log), 17).totalUptime == 1 && Total(Runs(log, true, 17)) == 11
  {
    var log := [ProbeRecord(true, 1, 0.0), ProbeRecord(false, 11, 0.0), ProbeRecord(true, 16, 0.0)];
    var front := log[..2];
    assert Closed(log, true) == [Period(1, 11)] by {
      assert front[..1] == [log[0]] && Closed(front[..1], true) == [];
      assert RunStart(front[..1]) == 1;
      assert Closed(front, true) == [Period(1, 11)];
    }
    assert RunStart(log) == 16;
    assert Timely(log, 17);
    TotalOne(Period(1, 11));
    Account(log, 17);
    hide Closed, RunStart, Runs, Replay, Finalize, Total, IsLatestLongest;
  }

  /** Finalizing before the first probe books everything since the zero time as uptime. */
  lemma NothingProbed(end: Time)
    requires end > 0
    ensures Finalize(Replay([]), end).totalUptime == if end > MAX_DURATION then MAX_DURATION else end
    ensures Finalize(Replay([]), end).totalDowntime == 0
  {
  }
}
