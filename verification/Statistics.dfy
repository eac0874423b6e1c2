/** Statistics of pkg/stats/stats.go: running aggregates against recomputation over the log. */
module Statistics {
  import opened Rtt
  import opened Uptime

  /** The RTTs of the successes, in order. */
  function Rtts(log: seq<ProbeRecord>): (r: seq<real>)
    ensures |r| <= |log|
  {
    if |log| == 0 then []
    else Rtts(log[..|log| - 1]) + if log[|log| - 1].ok then [log[|log| - 1].rtt] else []
  }

  datatype Snapshot = Snapshot(
    totalSent: nat, totalSuccess: nat, totalFailed: nat, packetLoss: real,
    latestRTT: real, minRTT: real, avgRTT: real, maxRTT: real, jitter: real)

  class Statistics {
    var totalSuccessfulProbes: nat
    var totalUnsuccessfulProbes: nat
    var successful: nat
    var failed: nat
    var ongoingSuccessfulProbes: nat
    var ongoingUnsuccessfulProbes: nat
    var lastSuccessfulProbe: Time
    var lastUnsuccessfulProbe: Time
    var hasResults: bool

    var rtt: seq<real>
    var latestRTT: real
    var minRTT: real
    var maxRTT: real
    var sumRTT: real
    var countRTT: nat
    var jitter: real

    var startTime: Time
    var endTime: Time
    var upTime: int
    var destWasDown: bool
    var startOfDowntime: Time
    var startOfUptime: Time
    var totalDowntime: int
    var totalUptime: int
    var downTime: int
    var longestDown: LongestTime
    var longestUp: LongestTime

    /** Everything recorded since creation or the last Reset. */
    ghost var log: seq<ProbeRecord>

    /** The counters are those of the log. */
    ghost predicate Counted()
      reads `log, `totalSuccessfulProbes, `totalUnsuccessfulProbes, `successful, `failed,
            `ongoingSuccessfulProbes, `ongoingUnsuccessfulProbes
    {
      && totalSuccessfulProbes == successful == |Rtts(log)|
      && totalUnsuccessfulProbes == failed == |log| - |Rtts(log)|
      && ongoingSuccessfulProbes == Trailing(log, true)
      && ongoingUnsuccessfulProbes == Trailing(log, false)
    }

    /** The O(1) aggregates are what a recomputation over all recorded RTTs gives, and the window
        holds the last 5000 of them. */
    ghost predicate Aggregated()
      reads `log, `rtt, `latestRTT, `minRTT, `maxRTT, `sumRTT, `countRTT, `jitter
    {
      AggregatesOf(Rtts(log), rtt, latestRTT, minRTT, maxRTT, sumRTT, countRTT, jitter)
    }

    ghost predicate Agrees()
      reads this
    {
      Counted() && Aggregated()
    }

    lemma StreakOf()
      requires Agrees()
      ensures ongoingSuccessfulProbes == Trailing(log, true) && ongoingUnsuccessfulProbes == Trailing(log, false)
    {
    }

    /** The time-keeping fields, as one value. */
    ghost function Times(): Clockwork
      reads this
    {
      Clockwork(destWasDown, startOfDowntime, startOfUptime, totalDowntime, totalUptime, downTime,
                longestDown, longestUp)
    }

    /** NewStatistics */
    constructor (now: Time)
      ensures Agrees() && log == [] && Times() == AT_REST && startTime == now
    {
      totalSuccessfulProbes, totalUnsuccessfulProbes, successful, failed := 0, 0, 0, 0;
      ongoingSuccessfulProbes, ongoingUnsuccessfulProbes := 0, 0;
      lastSuccessfulProbe, lastUnsuccessfulProbe, hasResults := ZERO_TIME, ZERO_TIME, false;
      rtt, latestRTT, minRTT, maxRTT, sumRTT, countRTT, jitter := [], 0.0, 0.0, 0.0, 0.0, 0, 0.0;
      startTime, endTime, upTime := now, ZERO_TIME, 0;
      destWasDown, startOfDowntime, startOfUptime := false, ZERO_TIME, ZERO_TIME;
      totalDowntime, totalUptime, downTime := 0, 0, 0;
      longestDown, longestUp := NO_TIME, NO_TIME;
      log := [];
    }

    method RecordSuccess(sample: real, now: Time)
      requires Agrees()
      modifies `log, `totalSuccessfulProbes, `successful, `hasResults, `ongoingSuccessfulProbes,
               `ongoingUnsuccessfulProbes, `lastSuccessfulProbe,
               `rtt, `latestRTT, `minRTT, `maxRTT, `sumRTT, `countRTT, `jitter
      ensures Agrees() && log == old(log) + [ProbeRecord(true, now, sample)]
      ensures lastSuccessfulProbe == now && hasResults
    {
      hide Rtts, Trailing, AggregatesOf;
      LogGrows(log, ProbeRecord(true, now, sample));
      totalSuccessfulProbes := totalSuccessfulProbes + 1;
      successful := successful + 1;
      hasResults := true;
      ongoingSuccessfulProbes := ongoingSuccessfulProbes + 1;
      ongoingUnsuccessfulProbes := 0;
      lastSuccessfulProbe := now;
      AddSample(sample);
      log := log + [ProbeRecord(true, now, sample)];
    }

    /** The RTT half of RecordSuccess. */
    method AddSample(sample: real)
      requires Aggregated()
      modifies `rtt, `latestRTT, `minRTT, `maxRTT, `sumRTT, `countRTT, `jitter
      ensures AggregatesOf(Rtts(log) + [sample], rtt, latestRTT, minRTT, maxRTT, sumRTT, countRTT, jitter)
    {
      AppendSample(Rtts(log), sample);
      if countRTT == 0 {
        minRTT := sample;
        maxRTT := sample;
        sumRTT := sample;
        countRTT := 1;
        jitter := 0.0;
      } else {
        if sample < minRTT {
          minRTT := sample;
        }
        if sample > maxRTT {
          maxRTT := sample;
        }
        sumRTT := sumRTT + sample;
        countRTT := countRTT + 1;
        var d := Abs(sample - latestRTT);
        jitter := jitter + (d - jitter) / 16.0;
      }
      latestRTT := sample;
      rtt := rtt + [sample];
      if |rtt| > 5000 {
        rtt := rtt[|rtt| - 5000..];
      }
    }

    method RecordFailure(now: Time)
      requires Agrees()
      modifies `log, `totalUnsuccessfulProbes, `failed, `ongoingSuccessfulProbes, `ongoingUnsuccessfulProbes,
               `lastUnsuccessfulProbe
      ensures Agrees() && log == old(log) + [ProbeRecord(false, now, 0.0)]
      ensures lastUnsuccessfulProbe == now
    {
      hide Rtts, Trailing, AggregatesOf;
      LogGrows(log, ProbeRecord(false, now, 0.0));
      totalUnsuccessfulProbes := totalUnsuccessfulProbes + 1;
      failed := failed + 1;
      ongoingUnsuccessfulProbes := ongoingUnsuccessfulProbes + 1;
      ongoingSuccessfulProbes := 0;
      lastUnsuccessfulProbe := now;
      log := log + [ProbeRecord(false, now, 0.0)];
    }

    /** Loss is the percentage of failures, and with at least one success the mean lies between the
        extremes and jitter within their distance. */
    method TakeSnapshot() returns (s: Snapshot)
      requires Agrees()
      ensures s.totalSent == |log| == s.totalSuccess + s.totalFailed && s.totalSuccess == |Rtts(log)|
      ensures IsLoss(s.packetLoss, s.totalFailed, s.totalSent)
      ensures s.latestRTT == latestRTT && s.minRTT == minRTT && s.maxRTT == maxRTT && s.jitter == jitter
      ensures |Rtts(log)| == 0 ==> s.avgRTT == 0.0
      ensures |Rtts(log)| > 0 ==>
                && s.avgRTT == SumOf(Rtts(log)) / (|Rtts(log)| as real)
                && s.minRTT <= s.avgRTT <= s.maxRTT
                && 0.0 <= s.jitter <= s.maxRTT - s.minRTT
    {
      hide Rtts, Trailing, MinOf, MaxOf, JitterFrom, SumOf, Window, IsLoss;
      var total := totalSuccessfulProbes + totalUnsuccessfulProbes;
      var loss := 0.0;
      LossOfNothing();
      if total > 0 {
        loss := totalUnsuccessfulProbes as real / total as real * 100.0;
        LossIs(totalUnsuccessfulProbes, total);
      }
      var avg := 0.0;
      if countRTT > 0 {
        avg := sumRTT / countRTT as real;
        MeanBounds(Rtts(log));
        JitterBounds(Rtts(log));
      }
      s := Snapshot(total, totalSuccessfulProbes, totalUnsuccessfulProbes, loss,
                    latestRTT, minRTT, avg, maxRTT, jitter);
    }

    method Reset(now: Time)
      modifies `log, `totalSuccessfulProbes, `totalUnsuccessfulProbes, `successful, `failed,
               `ongoingSuccessfulProbes, `ongoingUnsuccessfulProbes,
               `rtt, `latestRTT, `minRTT, `maxRTT, `sumRTT, `countRTT, `jitter, `startTime
      ensures Agrees() && log == [] && startTime == now
    {
      NothingLogged();
      hide Rtts, Trailing, AggregatesOf;
      ResetAggregates();
      totalSuccessfulProbes, totalUnsuccessfulProbes := 0, 0;
      successful, failed := 0, 0;
      ongoingSuccessfulProbes, ongoingUnsuccessfulProbes := 0, 0;
      startTime := now;
      log := [];
    }

    /** The RTT half of Reset. */
    method ResetAggregates()
      modifies `rtt, `latestRTT, `minRTT, `maxRTT, `sumRTT, `countRTT, `jitter
      ensures AggregatesOf([], rtt, latestRTT, minRTT, maxRTT, sumRTT, countRTT, jitter)
    {
      rtt := [];
      minRTT, maxRTT, sumRTT, countRTT, latestRTT, jitter := 0.0, 0.0, 0.0, 0, 0.0, 0.0;
    }

    /** PrintStats hands the window to CalcMinAvgMaxRttTime. Until the window slides the batch and
        the running figures are the same; after that jitter differs by what WindowJitter says. */
    method Recompute() returns (result: RTTResult)
      requires Agrees()
      ensures 0 < countRTT <= WINDOW ==>
                && result.min == minRTT && result.max == maxRTT && result.jitter == jitter
                && result.average == sumRTT / countRTT as real
      ensures countRTT > WINDOW ==>
                jitter - result.jitter == Decay(WINDOW - 1) * Jitter(Rtts(log)[..countRTT - WINDOW + 1])
      ensures countRTT > 0 ==> minRTT <= result.min && result.max <= maxRTT
    {
      hide Sorted, CalculatePercentileSorted, Rtts, Trailing, JitterFrom, MinOf, MaxOf;
      result := CalcMinAvgMaxRttTime(rtt);
      WindowJitter(Rtts(log));
      if countRTT > 0 {
        WindowExtremes(Rtts(log));
      }
    }
  }

  ghost predicate AggregatesOf(rtts: seq<real>, rtt: seq<real>, latestRTT: real, minRTT: real, maxRTT: real,
                               sumRTT: real, countRTT: nat, jitter: real)
  {
    && countRTT == |rtts|
    && rtt == Window(rtts)
    && jitter == Jitter(rtts)
    && sumRTT == SumOf(rtts)
    && (if |rtts| == 0 then latestRTT == minRTT == maxRTT == 0.0
        else latestRTT == rtts[|rtts| - 1] && minRTT == MinOf(rtts) && maxRTT == MaxOf(rtts))
  }

  lemma NothingLogged()
    ensures Rtts([]) == [] && Trailing([], true) == 0 && Trailing([], false) == 0
    ensures AggregatesOf([], [], 0.0, 0.0, 0.0, 0.0, 0, 0.0)
  {
  }

  lemma LogGrows(log: seq<ProbeRecord>, p: ProbeRecord)
    ensures var more := log + [p];
            && Rtts(more) == (if p.ok then Rtts(log) + [p.rtt] else Rtts(log))
            && Trailing(more, p.ok) == Trailing(log, p.ok) + 1
            && Trailing(more, !p.ok) == 0
  {
    var more := log + [p];
    assert more[..|more| - 1] == log;
    assert Rtts(log) + [] == Rtts(log);
  }

  /** loss is 100 * failed / total, and 0 of nothing. */
  ghost predicate IsLoss(loss: real, failed: nat, total: nat) {
    0.0 <= loss <= 100.0 && if total == 0 then loss == 0.0 else loss * total as real == 100.0 * failed as real
  }

  lemma LossOfNothing()
    ensures IsLoss(0.0, 0, 0)
  {
  }

  lemma LossIs(failed: nat, total: nat)
    requires failed <= total && total > 0
    ensures IsLoss(failed as real / total as real * 100.0, failed, total)
  {
    var q := failed as real / total as real;
    assert q * total as real == failed as real;
    QuotientBounds(0.0, failed as real, 1.0, total as real);
  }

  /** One more sample, figure by figure. */
  lemma AppendSample(rtts: seq<real>, sample: real)
    ensures var more := rtts + [sample];
            && SumOf(more) == SumOf(rtts) + sample
            && MinOf(more) == (if |rtts| > 0 && !(sample < MinOf(rtts)) then MinOf(rtts) else sample)
            && MaxOf(more) == (if |rtts| > 0 && !(sample > MaxOf(rtts)) then MaxOf(rtts) else sample)
            && Jitter(more) == (if |rtts| == 0 then 0.0
                                else Jitter(rtts) + (Abs(sample - rtts[|rtts| - 1]) - Jitter(rtts)) / 16.0)
            && Window(more) == (var w := Window(rtts) + [sample]; if |w| > 5000 then w[|w| - 5000..] else w)
  {
    var more := rtts + [sample];
    assert more[..|more| - 1] == rtts;
  }

  lemma WindowExtremes(rtts: seq<real>)
    requires |rtts| > 0
    ensures MinOf(rtts) <= MinOf(Window(rtts)) && MaxOf(Window(rtts)) <= MaxOf(rtts)
  {
    var w := Window(rtts);
    Extremes(rtts);
    Extremes(w);
    assert forall x | x in w :: x in rtts;
  }
}
