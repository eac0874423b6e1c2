/** Round-trip times: the batch computations of pkg/utils/utils.go and internal/printers/printer.go. */
module Rtt {

  function Abs(x: real): real {
    if x < 0.0 then -x else x
  }

  // ---------------------------------------------------------------- jitter (section 6.4.1 of RFC 3550)

  /** The estimator after the samples, when it stood at j on the first of them. */
  function JitterFrom(j: real, samples: seq<real>): real {
    var n := |samples|;
    if n < 2 then j
    else
      var before := JitterFrom(j, samples[..n - 1]);
      before + (Abs(samples[n - 1] - samples[n - 2]) - before) / 16.0
  }

  function Jitter(samples: seq<real>): real {
    JitterFrom(0.0, samples)
  }

  method CalculateJitter(samples: seq<real>) returns (jitter: real)
    ensures jitter == Jitter(samples)
  {
    if |samples| < 2 {
      return 0.0;
    }
    jitter := 0.0;
    for i := 1 to |samples|
      invariant jitter == Jitter(samples[..i])
    {
      var s := samples[..i + 1];
      assert s[..|s| - 1] == samples[..i];
      var d := Abs(samples[i] - samples[i - 1]);
      jitter := jitter + (d - jitter) / 16.0;
    }
    assert samples[..|samples|] == samples;
  }

  /** (15/16)^n: what remains of a difference after n updates. */
  function Decay(n: nat): real {
    if n == 0 then 1.0 else Decay(n - 1) * 15.0 / 16.0
  }

  lemma {:induction false} DecayPositive(n: nat)
    ensures 0.0 < Decay(n) <= 1.0
  {
    if n > 0 {
      DecayPositive(n - 1);
    }
  }

  /** Two estimators fed the same samples approach each other by 1/16 a sample. */
  lemma {:induction false} JittersConverge(a: real, b: real, samples: seq<real>)
    requires |samples| > 0
    ensures JitterFrom(a, samples) - JitterFrom(b, samples) == Decay(|samples| - 1) * (a - b)
    decreases |samples|
  {
    var n := |samples|;
    if n >= 2 {
      var front := samples[..n - 1];
      JittersConverge(a, b, front);
      var d := Abs(samples[n - 1] - samples[n - 2]);
      var x, y := JitterFrom(a, front), JitterFrom(b, front);
      assert JitterFrom(a, samples) - JitterFrom(b, samples) == (x - y) * 15.0 / 16.0;
      Scale(Decay(n - 2), a - b);
    }
  }

  lemma Scale(p: real, d: real)
    ensures (p * d) * 15.0 / 16.0 == (p * 15.0 / 16.0) * d
  {
  }

  /** An estimator resumed at sample k from what it held there goes on as if never stopped. */
  lemma {:induction false} JitterResumes(samples: seq<real>, k: nat)
    requires k < |samples|
    ensures Jitter(samples) == JitterFrom(Jitter(samples[..k + 1]), samples[k..])
    decreases |samples|
  {
    var n := |samples|;
    if k == n - 1 {
      assert samples[..k + 1] == samples;
    } else {
      var front, w := samples[..n - 1], samples[k..];
      JitterResumes(front, k);
      assert front[..k + 1] == samples[..k + 1] && front[k..] == w[..|w| - 1];
      assert w[|w| - 1] == samples[n - 1] && w[|w| - 2] == samples[n - 2];
      var j := Jitter(samples[..k + 1]);
      assert Jitter(front) == JitterFrom(j, w[..|w| - 1]);
    }
  }

  // What jitter is, by the distances of neighbouring samples.

  /** The distances, each the less the further back: d[k] counts (15/16)^(distance to the end) / 16. */
  function Weighted(ds: seq<real>): real {
    if |ds| == 0 then 0.0 else ds[0] * Decay(|ds| - 1) / 16.0 + Weighted(ds[1..])
  }

  lemma {:induction false} WeightedSnoc(ds: seq<real>, d: real)
    ensures Weighted(ds + [d]) == Weighted(ds) * 15.0 / 16.0 + d / 16.0
  {
    if |ds| == 0 {
      assert (ds + [d])[1..] == [];
      assert Decay(0) == 1.0;
    } else {
      assert (ds + [d])[1..] == ds[1..] + [d];
      WeightedSnoc(ds[1..], d);
      Reweigh(ds[0], Decay(|ds| - 1));
    }
  }

  lemma Reweigh(d: real, w: real)
    ensures d * (w * 15.0 / 16.0) / 16.0 == d * w / 16.0 * 15.0 / 16.0
  {
  }

  /** d is the distance of a and b: not negative, and with the square of their difference. */
  ghost predicate IsDistance(d: real, a: real, b: real) {
    d >= 0.0 && d * d == (b - a) * (b - a)
  }

  lemma DistanceIs(d: real, a: real, b: real)
    requires IsDistance(d, a, b)
    ensures Abs(b - a) == d == if b >= a then b - a else a - b
  {
    var x := Abs(b - a);
    assert x * x == d * d;
    if d != x {
      SquaresDiffer(d, x);
    }
  }

  lemma SquaresDiffer(d: real, x: real)
    requires d >= 0.0 && x >= 0.0 && d != x
    ensures d * d != x * x
  {
    if d < x {
      Positive(x - d, x + d);
      assert (x - d) * (x + d) == x * x - d * d;
    } else {
      Positive(d - x, d + x);
      assert (d - x) * (d + x) == d * d - x * x;
    }
  }

  /** The jitter of the samples is the weighted sum of their neighbours' distances. */
  lemma {:induction false} JitterIsWeighted(samples: seq<real>, ds: seq<real>)
    requires |samples| == |ds| + 1
    requires forall k | 0 <= k < |ds| :: IsDistance(ds[k], samples[k], samples[k + 1])
    ensures Jitter(samples) == Weighted(ds)
  {
    if |ds| > 0 {
      var n, front := |ds| - 1, ds[..|ds| - 1];
      JitterIsWeighted(samples[..|samples| - 1], front);
      WeightedSnoc(front, ds[n]);
      assert ds == front + [ds[n]];
      DistanceIs(ds[n], samples[n], samples[n + 1]);
      hide Weighted, Abs;
    }
  }

  /** Two samples count a sixteenth of their distance, whichever is greater. */
  lemma JitterOfTwo(a: real, b: real)
    ensures Jitter([a, b]) == if b >= a then (b - a) / 16.0 else (a - b) / 16.0
  {
    var s := [a, b];
    assert s[..1] == [a];
    assert JitterFrom(0.0, [a]) == 0.0;
    assert JitterFrom(0.0, s) == (Abs(s[1] - s[0]) - 0.0) / 16.0;
  }

  /** Rising and falling count alike: mirrored samples have the same jitter. */
  lemma {:induction false} JitterMirrored(samples: seq<real>, c: real)
    ensures Jitter(seq(|samples|, i requires 0 <= i < |samples| => c - samples[i])) == Jitter(samples)
  {
    var n := |samples|;
    var mirrored := seq(n, i requires 0 <= i < n => c - samples[i]);
    if n > 1 {
      JitterMirrored(samples[..n - 1], c);
      assert mirrored[..n - 1] == seq(n - 1, i requires 0 <= i < n - 1 => c - samples[..n - 1][i]);
    }
  }

  const WINDOW: nat := 5000

  /** The window is the last 5000 samples. */
  lemma WindowIs(samples: seq<real>)
    ensures |Window(samples)| == if |samples| < 5000 then |samples| else 5000
    ensures Window(samples) == samples[|samples| - |Window(samples)|..]
  {
  }

  /** The samples Statistics.RTT still holds. */
  function Window(samples: seq<real>): seq<real> {
    if |samples| <= WINDOW then samples else samples[|samples| - WINDOW..]
  }

  /** Once the window has slid, the running jitter and the one recomputed from the window differ
      by what the former held on the window's first sample, shrunk 4999 times by 15/16. */
  lemma {:induction false} WindowJitter(samples: seq<real>)
    ensures |samples| <= WINDOW ==> Jitter(Window(samples)) == Jitter(samples)
    ensures |samples| > WINDOW ==>
              Jitter(samples) - Jitter(Window(samples))
              == Decay(WINDOW - 1) * Jitter(samples[..|samples| - WINDOW + 1])
  {
    if |samples| > WINDOW {
      var k := |samples| - WINDOW;
      JitterResumes(samples, k);
      var a := Jitter(samples[..k + 1]);
      var w := samples[k..];
      JittersConverge(a, 0.0, w);
      assert Window(samples) == w && |w| - 1 == WINDOW - 1;
      assert Jitter(samples) - Jitter(w) == Decay(WINDOW - 1) * (a - 0.0);
    }
  }

  /** So the two agree exactly when nothing slid out or the estimator stood at zero there. */
  lemma {:induction false} WindowJitterAgrees(samples: seq<real>)
    ensures Jitter(Window(samples)) == Jitter(samples)
            <==> |samples| <= WINDOW || Jitter(samples[..|samples| - WINDOW + 1]) == 0.0
  {
    WindowJitter(samples);
    if |samples| > WINDOW {
      DecayPositive(WINDOW - 1);
      ProductZero(Decay(WINDOW - 1), Jitter(samples[..|samples| - WINDOW + 1]));
    }
  }

  lemma ProductZero(p: real, x: real)
    requires p > 0.0
    ensures p * x == 0.0 <==> x == 0.0
  {
  }

  // ---------------------------------------------------------------- extremes

  function MinOf(samples: seq<real>): real
    requires |samples| > 0
  {
    var last := samples[|samples| - 1];
    if |samples| == 1 then last
    else
      var m := MinOf(samples[..|samples| - 1]);
      if last < m then last else m
  }

  function MaxOf(samples: seq<real>): real
    requires |samples| > 0
  {
    var last := samples[|samples| - 1];
    if |samples| == 1 then last
    else
      var m := MaxOf(samples[..|samples| - 1]);
      if last > m then last else m
  }

  function SumOf(samples: seq<real>): real {
    if |samples| == 0 then 0.0 else SumOf(samples[..|samples| - 1]) + samples[|samples| - 1]
  }

  /** The sum of one sample is the sample, and sums add up: so the sum is that of all, in any split. */
  lemma {:induction false} SumsAddUp(a: seq<real>, b: seq<real>, x: real)
    ensures SumOf(a + b) == SumOf(a) + SumOf(b)
    ensures SumOf([x]) == x && SumOf([]) == 0.0
    decreases |b|
  {
    if |b| == 0 {
      assert a + b == a;
    } else {
      assert (a + b)[..|a + b| - 1] == a + b[..|b| - 1];
      SumsAddUp(a, b[..|b| - 1], x);
    }
    assert ([x])[..0] == [];
  }

  lemma {:induction false} Extremes(samples: seq<real>)
    requires |samples| > 0
    ensures MinOf(samples) in samples && MaxOf(samples) in samples
    ensures forall x | x in samples :: MinOf(samples) <= x <= MaxOf(samples)
    decreases |samples|
  {
    if |samples| > 1 {
      var front, last := samples[..|samples| - 1], samples[|samples| - 1];
      Extremes(front);
      assert samples == front + [last];
    }
  }

  /** One more sample keeps the sum within the bounds of the mean. */
  lemma LowerGrows(lo: real, lo': real, sum: real, last: real, m: real)
    requires lo' <= lo && lo' <= last && lo * m <= sum && m >= 0.0
    ensures lo' * (m + 1.0) <= sum + last
  {
    Monotone(lo', lo, m);
    Distribute(lo', m);
  }

  lemma UpperGrows(hi: real, hi': real, sum: real, last: real, m: real)
    requires hi <= hi' && last <= hi' && sum <= hi * m && m >= 0.0
    ensures sum + last <= hi' * (m + 1.0)
  {
    Monotone(hi, hi', m);
    Distribute(hi', m);
  }

  lemma ExtremesGrow(samples: seq<real>)
    requires |samples| > 1
    ensures var front, last := samples[..|samples| - 1], samples[|samples| - 1];
            && MinOf(samples) <= MinOf(front) && MinOf(samples) <= last
            && MaxOf(samples) >= MaxOf(front) && MaxOf(samples) >= last
            && SumOf(samples) == SumOf(front) + last
  {
  }

  /** The mean lies between the extremes. */
  lemma {:induction false} SumBounds(samples: seq<real>)
    requires |samples| > 0
    ensures MinOf(samples) * (|samples| as real) <= SumOf(samples)
    ensures SumOf(samples) <= MaxOf(samples) * (|samples| as real)
    decreases |samples|
  {
    var n := |samples|;
    var front, last := samples[..n - 1], samples[n - 1];
    if n == 1 {
      assert front == [] && SumOf(front) == 0.0 && SumOf(samples) == SumOf(front) + last;
      assert MinOf(samples) == last == MaxOf(samples);
      hide SumOf, MinOf, MaxOf;
    } else {
      hide SumOf, MinOf, MaxOf;
      SumBounds(front);
      ExtremesGrow(samples);
      var m := (n - 1) as real;
      assert n as real == m + 1.0;
      LowerGrows(MinOf(front), MinOf(samples), SumOf(front), last, m);
      UpperGrows(MaxOf(front), MaxOf(samples), SumOf(front), last, m);
    }
  }

  lemma Monotone(a: real, b: real, m: real)
    requires a <= b && m >= 0.0
    ensures a * m <= b * m
  {
  }

  lemma Distribute(a: real, m: real)
    ensures a * (m + 1.0) == a * m + a
  {
  }

  lemma MeanBounds(samples: seq<real>)
    requires |samples| > 0
    ensures MinOf(samples) <= SumOf(samples) / (|samples| as real) <= MaxOf(samples)
  {
    SumBounds(samples);
    QuotientBounds(MinOf(samples), SumOf(samples), MaxOf(samples), |samples| as real);
  }

  lemma QuotientBounds(lo: real, x: real, hi: real, n: real)
    requires n > 0.0 && lo * n <= x <= hi * n
    ensures lo <= x / n <= hi
  {
    assert x / n * n == x;
    Cancel(lo, x / n, n);
    Cancel(x / n, hi, n);
  }

  lemma Positive(d: real, n: real)
    requires d > 0.0 && n > 0.0
    ensures d * n > 0.0
  {
  }

  lemma Cancel(a: real, b: real, n: real)
    requires n > 0.0 && a * n <= b * n
    ensures a <= b
  {
    if b < a {
      Positive(a - b, n);
      assert false;
    }
  }

  /** Jitter is never negative and never more than the spread of the samples. */
  lemma {:induction false} JitterBounds(samples: seq<real>)
    requires |samples| > 0
    ensures 0.0 <= Jitter(samples) <= MaxOf(samples) - MinOf(samples)
    decreases |samples|
  {
    var n := |samples|;
    Extremes(samples);
    if n >= 2 {
      var front := samples[..n - 1];
      JitterBounds(front);
      assert samples[n - 1] in samples && samples[n - 2] in samples;
      assert 0.0 <= Abs(samples[n - 1] - samples[n - 2]) <= MaxOf(samples) - MinOf(samples);
    }
  }

  // ---------------------------------------------------------------- percentiles

  predicate Ascending(s: seq<real>) {
    forall i, j | 0 <= i < j < |s| :: s[i] <= s[j]
  }

  function Ceil(x: real): int {
    if x.Floor as real == x then x.Floor else x.Floor + 1
  }

  /** rank: where the percentile falls between the indices of n samples */
  function RankOf(n: nat, percentile: real): real {
    percentile / 100.0 * ((n - 1) as real)
  }

  lemma RankBounds(n: nat, percentile: real)
    requires n > 0 && 0.0 < percentile < 100.0
    ensures 0.0 <= RankOf(n, percentile) <= (n - 1) as real
    ensures 0 <= RankOf(n, percentile).Floor <= Ceil(RankOf(n, percentile)) <= n - 1
  {
    var f, m := percentile / 100.0, (n - 1) as real;
    assert 0.0 < f < 1.0;
    Monotone(0.0, f, m);
    Monotone(f, 1.0, m);
    var r := RankOf(n, percentile);
    assert (r.Floor as real) <= r <= m;
  }

  function Interpolate(sorted: seq<real>, rank: real): real
    requires 0.0 <= rank && 0 <= Ceil(rank) < |sorted|
  {
    var lower, upper := rank.Floor, Ceil(rank);
    var weight := rank - lower as real;
    if lower == upper then sorted[lower]
    else sorted[lower] * (1.0 - weight) + sorted[upper] * weight
  }

  function CalculatePercentileSorted(sorted: seq<real>, percentile: real): real {
    if |sorted| == 0 then 0.0
    else if percentile <= 0.0 then sorted[0]
    else if percentile >= 100.0 then sorted[|sorted| - 1]
    else
      RankBounds(|sorted|, percentile);
      Interpolate(sorted, RankOf(|sorted|, percentile))
  }

  lemma BlendIs(a: real, b: real, w: real)
    ensures a * (1.0 - w) + b * w == a + w * (b - a)
  {
  }

  lemma PartOf(w: real, d: real, part: real)
    requires 0.0 <= w <= 1.0 && 0.0 <= d && part == w * d
    ensures 0.0 <= part <= d
  {
    Monotone(0.0, w, d);
    Monotone(w, 1.0, d);
  }

  lemma Blend(a: real, b: real, w: real)
    requires a <= b && 0.0 <= w <= 1.0
    ensures a <= a * (1.0 - w) + b * w <= b
  {
    BlendIs(a, b, w);
    PartOf(w, b - a, w * (b - a));
  }

  lemma BlendMonotone(a: real, b: real, v: real, w: real)
    requires a <= b && v <= w
    ensures a * (1.0 - v) + b * v <= a * (1.0 - w) + b * w
  {
    BlendIs(a, b, v);
    BlendIs(a, b, w);
    Monotone(v, w, b - a);
  }

  /** The interpolated value lies between the two neighbouring samples. */
  lemma {:induction false} BetweenNeighbours(sorted: seq<real>, rank: real)
    requires Ascending(sorted) && 0.0 <= rank && 0 <= Ceil(rank) < |sorted|
    ensures 0 <= rank.Floor <= Ceil(rank) <= rank.Floor + 1
    ensures sorted[rank.Floor] <= Interpolate(sorted, rank) <= sorted[Ceil(rank)]
  {
    var lower, upper := rank.Floor, Ceil(rank);
    if lower != upper {
      Blend(sorted[lower], sorted[upper], rank - lower as real);
    }
  }

  lemma {:induction false} InterpolateMonotone(sorted: seq<real>, q: real, r: real)
    requires Ascending(sorted) && 0.0 <= q <= r && 0 <= Ceil(q) < |sorted| && 0 <= Ceil(r) < |sorted|
    ensures Interpolate(sorted, q) <= Interpolate(sorted, r)
  {
    BetweenNeighbours(sorted, q);
    BetweenNeighbours(sorted, r);
    assert q.Floor <= r.Floor;
    if q.Floor == r.Floor {
      if q.Floor != Ceil(q) {
        BlendMonotone(sorted[q.Floor], sorted[Ceil(q)], q - q.Floor as real, r - r.Floor as real);
      }
    } else {
      assert Ceil(q) <= r.Floor;
    }
  }

  lemma RankMonotone(n: nat, p: real, q: real)
    requires n > 0 && p <= q
    ensures RankOf(n, p) <= RankOf(n, q)
  {
    Monotone(p / 100.0, q / 100.0, (n - 1) as real);
  }

  /** Percentiles of a sorted sample grow with the percentile and stay within the sample. */
  lemma {:induction false} PercentileMonotone(sorted: seq<real>, p: real, q: real)
    requires Ascending(sorted) && |sorted| > 0 && p <= q
    ensures CalculatePercentileSorted(sorted, p) <= CalculatePercentileSorted(sorted, q)
    ensures sorted[0] <= CalculatePercentileSorted(sorted, p) <= sorted[|sorted| - 1]
  {
    PercentileWithin(sorted, p);
    PercentileWithin(sorted, q);
    if 0.0 < p && q < 100.0 {
      var n := |sorted|;
      RankBounds(n, p);
      RankBounds(n, q);
      RankMonotone(n, p, q);
      hide RankOf, Interpolate, Ascending;
      InterpolateMonotone(sorted, RankOf(n, p), RankOf(n, q));
    }
  }

  lemma {:induction false} PercentileWithin(sorted: seq<real>, p: real)
    requires Ascending(sorted) && |sorted| > 0
    ensures sorted[0] <= CalculatePercentileSorted(sorted, p) <= sorted[|sorted| - 1]
  {
    if 0.0 < p < 100.0 {
      RankBounds(|sorted|, p);
      BetweenNeighbours(sorted, RankOf(|sorted|, p));
    }
  }

  /** What a percentile is: for p at the k + t'th of n - 1 equal parts of 0..100, the value the t'th
      part of the way from sample k to the next. */
  lemma PercentileInterpolates(sorted: seq<real>, p: real, k: nat, t: real)
    requires k + 1 < |sorted| && 0.0 <= t <= 1.0
    requires p * ((|sorted| - 1) as real) == 100.0 * (k as real + t)
    ensures CalculatePercentileSorted(sorted, p) == sorted[k] + t * (sorted[k + 1] - sorted[k])
  {
    var m, r := (|sorted| - 1) as real, k as real + t;
    RankIs(p, m, r);
    if 0.0 < p < 100.0 {
      assert RankOf(|sorted|, p) == r;
      RankBounds(|sorted|, p);
      hide RankOf;
      if t == 1.0 {
        assert r.Floor == k + 1;
      } else {
        assert r.Floor == k;
        BlendIs(sorted[k], sorted[k + 1], t);
      }
    }
  }

  lemma RankIs(p: real, m: real, r: real)
    requires m > 0.0 && p * m == 100.0 * r
    ensures p / 100.0 * m == r
    ensures p <= 0.0 <==> r <= 0.0
    ensures p >= 100.0 <==> r >= m
  {
    assert p / 100.0 * m == p * m / 100.0;
    AtLeast(p, 100.0, m, 100.0 * r, 100.0 * m);
    AtLeast(0.0, p, m, 0.0, 100.0 * r);
  }

  lemma AtLeast(p: real, q: real, m: real, pm: real, qm: real)
    requires m > 0.0 && pm == p * m && qm == q * m
    ensures p >= q <==> pm >= qm
  {
    if p >= q {
      Monotone(q, p, m);
    } else {
      Positive(q - p, m);
      assert (q - p) * m == q * m - p * m;
    }
  }

  /** Outside 0..100, and of fewer than two samples. */
  lemma PercentileEnds(sorted: seq<real>, p: real)
    ensures |sorted| == 0 ==> CalculatePercentileSorted(sorted, p) == 0.0
    ensures |sorted| == 1 ==> CalculatePercentileSorted(sorted, p) == sorted[0]
    ensures |sorted| > 0 && p <= 0.0 ==> CalculatePercentileSorted(sorted, p) == sorted[0]
    ensures |sorted| > 0 && p >= 100.0 ==> CalculatePercentileSorted(sorted, p) == sorted[|sorted| - 1]
  {
  }

  /** Of evenly spaced samples the percentile is the point p hundredths of the way. */
  lemma PercentileOfProgression(sorted: seq<real>, a: real, b: real, p: real)
    requires |sorted| > 1 && forall i | 0 <= i < |sorted| :: sorted[i] == a + b * (i as real)
    requires 0.0 <= p <= 100.0
    ensures CalculatePercentileSorted(sorted, p) == a + b * (p * ((|sorted| - 1) as real) / 100.0)
  {
    var m := (|sorted| - 1) as real;
    var r := p * m / 100.0;
    Monotone(0.0, p, m);
    Monotone(p, 100.0, m);
    var k := if r == m then |sorted| - 2 else r.Floor;
    var t := r - k as real;
    assert (k + 1) as real == k as real + 1.0;
    PercentileInterpolates(sorted, p, k, t);
    hide CalculatePercentileSorted;
    Steps(a, b, k as real, t);
  }

  lemma Steps(a: real, b: real, k: real, t: real)
    ensures a + b * k + t * ((a + b * (k + 1.0)) - (a + b * k)) == a + b * (k + t)
  {
  }

  // slices.Sort on a clone, known by what it achieves.

  function Insert(x: real, sorted: seq<real>): (r: seq<real>)
    requires Ascending(sorted)
    ensures Ascending(r)
    ensures forall y | y in r :: y == x || y in sorted
  {
    if |sorted| == 0 || x <= sorted[0] then [x] + sorted
    else
      var rest := Insert(x, sorted[1..]);
      assert forall k | 0 <= k < |rest| :: rest[k] in rest;
      assert forall y | y in rest :: sorted[0] <= y;
      [sorted[0]] + rest
  }

  lemma {:induction false} InsertAdds(x: real, sorted: seq<real>)
    requires Ascending(sorted)
    ensures multiset(Insert(x, sorted)) == multiset(sorted) + multiset{x}
  {
    if |sorted| > 0 && x > sorted[0] {
      InsertAdds(x, sorted[1..]);
      assert sorted == [sorted[0]] + sorted[1..];
    }
  }

  function Sorted(samples: seq<real>): (r: seq<real>)
    ensures Ascending(r)
  {
    if |samples| == 0 then [] else Insert(samples[0], Sorted(samples[1..]))
  }

  lemma {:induction false} SortedPermutes(samples: seq<real>)
    ensures multiset(Sorted(samples)) == multiset(samples)
    ensures |Sorted(samples)| == |samples|
  {
    if |samples| > 0 {
      SortedPermutes(samples[1..]);
      InsertAdds(samples[0], Sorted(samples[1..]));
      assert samples == [samples[0]] + samples[1..];
    }
    assert |multiset(Sorted(samples))| == |Sorted(samples)| && |multiset(samples)| == |samples|;
  }

  lemma EndsAreExtreme(s: seq<real>, x: real)
    requires Ascending(s) && x in multiset(s)
    ensures |s| > 0 && s[0] <= x <= s[|s| - 1]
  {
    var k :| 0 <= k < |s| && s[k] == x;
  }

  lemma DropFirst(s: seq<real>)
    requires |s| > 0
    ensures multiset(s[1..]) == multiset(s) - multiset{s[0]}
    ensures s[0] in multiset(s)
  {
    assert s == [s[0]] + s[1..];
  }

  lemma SameParts(s: seq<real>, t: seq<real>)
    requires |s| > 0 && |t| > 0 && s[0] == t[0] && s[1..] == t[1..]
    ensures s == t
  {
    assert s == [s[0]] + s[1..] && t == [t[0]] + t[1..];
  }

  /** There is only one way to sort. */
  lemma {:induction false} SortedUnique(s: seq<real>, t: seq<real>)
    requires Ascending(s) && Ascending(t) && multiset(s) == multiset(t)
    ensures s == t
  {
    assert |multiset(s)| == |s| && |multiset(t)| == |t|;
    if |s| > 0 {
      assert s[0] == t[0] && multiset(s[1..]) == multiset(t[1..]) by {
        DropFirst(s);
        DropFirst(t);
        EndsAreExtreme(t, s[0]);
        EndsAreExtreme(s, t[0]);
      }
      assert Ascending(s[1..]) && Ascending(t[1..]);
      SortedUnique(s[1..], t[1..]);
      hide Ascending;
      SameParts(s, t);
    }
  }

  lemma {:induction false} SortedEnds(samples: seq<real>)
    requires |samples| > 0
    ensures var s := Sorted(samples); |s| == |samples| && s[0] == MinOf(samples) && s[|s| - 1] == MaxOf(samples)
  {
    var s := Sorted(samples);
    Extremes(samples);
    SortedPermutes(samples);
    hide Sorted, MinOf, MaxOf, Ascending;
    assert MinOf(samples) in multiset(samples) && MaxOf(samples) in multiset(samples);
    EndsAreExtreme(s, MinOf(samples));
    EndsAreExtreme(s, MaxOf(samples));
    assert s[0] in multiset(s) && s[|s| - 1] in multiset(s);
    assert s[0] in samples && s[|s| - 1] in samples;
  }

  /** The percentile of the samples in ascending order, whichever way they came to be sorted. */
  method CalculatePercentile(samples: seq<real>, percentile: real) returns (r: real)
    ensures forall t | Ascending(t) && multiset(t) == multiset(samples) ::
              r == CalculatePercentileSorted(t, percentile)
    ensures |samples| > 0 ==> MinOf(samples) <= r <= MaxOf(samples)
    ensures |samples| == 0 ==> r == 0.0
  {
    hide CalculatePercentileSorted, Sorted, MinOf, MaxOf;
    if |samples| == 0 {
      r := 0.0;
    } else {
      var sorted := Sorted(samples);
      r := CalculatePercentileSorted(sorted, percentile);
      SortedEnds(samples);
      PercentileWithin(sorted, percentile);
    }
    SortedPermutes(samples);
    NoPercentile(percentile);
    forall t | Ascending(t) && multiset(t) == multiset(samples)
      ensures r == CalculatePercentileSorted(t, percentile)
    {
      if |samples| == 0 {
        assert |multiset(t)| == |t|;
        assert t == [];
      } else {
        SortedUnique(Sorted(samples), t);
      }
    }
  }

  lemma NoPercentile(percentile: real)
    ensures CalculatePercentileSorted([], percentile) == 0.0
  {
  }

  /** The order in which the samples came does not matter. */
  lemma {:induction false} PercentileOfAnyOrder(s: seq<real>, t: seq<real>, percentile: real)
    requires multiset(s) == multiset(t)
    ensures CalculatePercentileSorted(Sorted(s), percentile) == CalculatePercentileSorted(Sorted(t), percentile)
  {
    SortedPermutes(s);
    SortedPermutes(t);
    SortedUnique(Sorted(s), Sorted(t));
  }

  method CalculatePercentilesSorted(sorted: seq<real>, percentiles: seq<real>) returns (res: seq<real>)
    ensures |res| == |percentiles|
    ensures forall i | 0 <= i < |res| :: res[i] == CalculatePercentileSorted(sorted, percentiles[i])
  {
    var a := new real[|percentiles|];
    for i := 0 to |percentiles|
      invariant forall k | 0 <= k < i :: a[k] == CalculatePercentileSorted(sorted, percentiles[k])
    {
      a[i] := CalculatePercentileSorted(sorted, percentiles[i]);
    }
    res := a[..];
  }

  // ---------------------------------------------------------------- the summary

  datatype RTTResult = RTTResult(
    min: real, max: real, average: real, jitter: real, p95: real, p99: real, hasResults: bool)

  /** CalcMinAvgMaxRttTime */
  method CalcMinAvgMaxRttTime(timeArr: seq<real>) returns (result: RTTResult)
    ensures result.hasResults <==> |timeArr| > 0
    ensures |timeArr| == 0 ==> result == RTTResult(0.0, 0.0, 0.0, 0.0, 0.0, 0.0, false)
    ensures |timeArr| > 0 ==>
              && result.min == MinOf(timeArr) && result.max == MaxOf(timeArr)
              && result.average == SumOf(timeArr) / (|timeArr| as real)
              && result.jitter == Jitter(timeArr)
              && result.p95 == CalculatePercentileSorted(Sorted(timeArr), 95.0)
              && result.p99 == CalculatePercentileSorted(Sorted(timeArr), 99.0)
              && result.min <= result.p95 <= result.p99 <= result.max
              && result.min <= result.average <= result.max
  {
    hide Sorted, MinOf, MaxOf, JitterFrom, CalculatePercentileSorted;
    result := RTTResult(0.0, 0.0, 0.0, 0.0, 0.0, 0.0, false);
    var arrLen := |timeArr|;
    if arrLen == 0 {
      return;
    }
    var sum := 0.0;
    for i := 0 to arrLen
      invariant sum == SumOf(timeArr[..i])
    {
      assert timeArr[..i + 1][..i] == timeArr[..i];
      sum := sum + timeArr[i];
    }
    assert timeArr[..arrLen] == timeArr;
    var sorted := Sorted(timeArr);
    SortedEnds(timeArr);
    MeanBounds(timeArr);
    var jitter := CalculateJitter(timeArr);
    var pcts := CalculatePercentilesSorted(sorted, [95.0, 99.0]);
    PercentileMonotone(sorted, 95.0, 99.0);
    PercentileMonotone(sorted, 99.0, 99.0);
    result := RTTResult(sorted[0], sorted[arrLen - 1], sum / (arrLen as real), jitter, pcts[0], pcts[1], true);
  }
}
