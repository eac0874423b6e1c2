/** CalculateBackoff of pkg/utils/backoff.go, with the random number as a parameter. */
module Backoff {
  import opened Wrappers

  const TWO63: int := 0x8000_0000_0000_0000

  /** time.Duration, in nanoseconds */
  type Duration = d: int | -TWO63 <= d < TWO63

  /** What crand.Int draws; without randomness the code takes the fraction of 5000. */
  type Draw = n: nat | n < 10_000

  datatype Config = Config(initialDelay: Duration, maxDelay: Duration, multiplier: real, jitter: bool)

  const DEFAULT_DELAY: Duration := 50_000_000

  function Power(base: real, n: nat): real {
    if n == 0 then 1.0 else base * Power(base, n - 1)
  }

  function Initial(cfg: Config): Duration {
    if cfg.initialDelay <= 0 then DEFAULT_DELAY else cfg.initialDelay
  }

  function Multiplier(cfg: Config): real {
    if cfg.multiplier <= 1.0 then 2.0 else cfg.multiplier
  }

  function Uncapped(attempt: int, cfg: Config): real {
    Initial(cfg) as real * Power(Multiplier(cfg), if attempt < 0 then 0 else attempt)
  }

  /** The delay before jitter. */
  function Capped(attempt: int, cfg: Config): real {
    var delay := Uncapped(attempt, cfg);
    if cfg.maxDelay > 0 && delay > cfg.maxDelay as real then cfg.maxDelay as real else delay
  }

  function Factor(draw: Draw): real {
    0.5 + 0.5 * (draw as real / 10_000.0)
  }

  /** Full jitter: between 50% and 100% of the delay. */
  function Jittered(delay: real, draw: Draw): real {
    delay * Factor(draw)
  }

  /** The delay as a real number of nanoseconds. */
  function Delay(attempt: int, cfg: Config, draw: Draw): real {
    if cfg.jitter && Capped(attempt, cfg) > 0.0 then Jittered(Capped(attempt, cfg), draw) else Capped(attempt, cfg)
  }

  /** None where the conversion to a 64-bit Duration is out of range: Go leaves its result open. */
  function CalculateBackoff(attempt: int, cfg: Config, draw: Draw): Option<int> {
    var delay := Delay(attempt, cfg, draw);
    if delay < TWO63 as real then Some(delay.Floor) else None
  }

  lemma {:induction false} PowerGrows(base: real, m: nat, n: nat)
    requires base > 1.0 && m <= n
    ensures 1.0 <= Power(base, m) <= Power(base, n)
    decreases n
  {
    if m < n {
      PowerGrows(base, m, n - 1);
    } else if n > 0 {
      PowerGrows(base, m - 1, n - 1);
    }
  }

  lemma Scales(d: real, p: real, q: real)
    requires d > 0.0 && 1.0 <= p <= q
    ensures 0.0 < d * p <= d * q
  {
    assert d * q - d * p == d * (q - p);
  }

  lemma UncappedGrows(m: int, n: int, cfg: Config)
    requires m <= n
    ensures 0.0 < Uncapped(m, cfg) <= Uncapped(n, cfg)
  {
    var m', n' := if m < 0 then 0 else m, if n < 0 then 0 else n;
    PowerGrows(Multiplier(cfg), m', n');
    Scales(Initial(cfg) as real, Power(Multiplier(cfg), m'), Power(Multiplier(cfg), n'));
    hide Power, Multiplier;
  }

  /** Without a cap the delays form a geometric sequence, which starts at the initial delay, or 50 ms,
      and grows by the multiplier, or 2; a cap cuts off what is above it. */
  lemma CappedIs(attempt: nat, cfg: Config)
    ensures var first := if cfg.initialDelay > 0 then cfg.initialDelay as real else 50_000_000.0;
            Capped(0, cfg.(maxDelay := 0)) == first
    ensures var factor := if cfg.multiplier > 1.0 then cfg.multiplier else 2.0;
            Capped(attempt + 1, cfg.(maxDelay := 0)) == factor * Capped(attempt, cfg.(maxDelay := 0))
    ensures var free := Capped(attempt, cfg.(maxDelay := 0));
            Capped(attempt, cfg)
            == if cfg.maxDelay > 0 && free > cfg.maxDelay as real then cfg.maxDelay as real else free
    ensures Capped(-1 - attempt, cfg) == Capped(0, cfg)
  {
    var free := cfg.(maxDelay := 0);
    UncappedIs(attempt, free);
    UncappedIgnoresCap(attempt, cfg);
    hide Uncapped;
  }

  lemma UncappedIs(attempt: nat, cfg: Config)
    ensures Uncapped(0, cfg) == Initial(cfg) as real
    ensures Uncapped(attempt + 1, cfg) == Multiplier(cfg) * Uncapped(attempt, cfg)
    ensures Uncapped(-1 - attempt, cfg) == Uncapped(0, cfg)
  {
    var d, m, p := Initial(cfg) as real, Multiplier(cfg), Power(Multiplier(cfg), attempt);
    PowerStep(m, attempt);
    Reorder(d, m, p);
    assert Power(m, 0) == 1.0;
    hide Power, Initial, Multiplier;
  }

  lemma UncappedIgnoresCap(attempt: nat, cfg: Config)
    ensures Uncapped(attempt, cfg.(maxDelay := 0)) == Uncapped(attempt, cfg)
    ensures Uncapped(0, cfg.(maxDelay := 0)) == Uncapped(0, cfg) == Uncapped(-1 - attempt, cfg)
  {
  }

  /** Later attempts never have a shorter delay before jitter, and the cap, once reached, stays. */
  lemma CappedGrows(m: int, n: int, cfg: Config)
    requires m <= n
    ensures 0.0 < Capped(m, cfg) <= Capped(n, cfg)
    ensures cfg.maxDelay > 0 ==> Capped(n, cfg) <= cfg.maxDelay as real
    ensures cfg.maxDelay > 0 && Capped(m, cfg) == cfg.maxDelay as real ==> Capped(n, cfg) == cfg.maxDelay as real
  {
    UncappedGrows(m, n, cfg);
    hide Uncapped;
  }

  /** The least and the greatest factor a draw gives. */
  function Shortest(attempt: int, cfg: Config): real {
    if cfg.jitter then 0.5 * Capped(attempt, cfg) else Capped(attempt, cfg)
  }

  function Longest(attempt: int, cfg: Config): real {
    if cfg.jitter then 0.99995 * Capped(attempt, cfg) else Capped(attempt, cfg)
  }

  lemma Widens(full: real, f: real, g: real)
    requires full > 0.0 && f <= g
    ensures full * f <= full * g
  {
    assert full * g - full * f == full * (g - f);
  }

  lemma JitterEnds(full: real)
    ensures Jittered(full, 0) == 0.5 * full && Jittered(full, 9999) == 0.99995 * full
  {
  }

  lemma JitterRange(full: real, draw: Draw)
    requires full > 0.0
    ensures Jittered(full, 0) == 0.5 * full <= Jittered(full, draw) <= Jittered(full, 9999) == 0.99995 * full
  {
    hide Jittered;
    JitterEnds(full);
    JitteredGrows(full, 0, draw);
    JitteredGrows(full, draw, 9999);
  }

  lemma JitteredGrows(full: real, m: Draw, n: Draw)
    requires full > 0.0 && m <= n
    ensures Jittered(full, m) <= Jittered(full, n)
  {
    assert Factor(m) <= Factor(n);
    hide Factor;
    Widens(full, Factor(m), Factor(n));
  }

  lemma DelayRange(attempt: int, cfg: Config, draw: Draw)
    ensures 0.0 < Delay(attempt, cfg, 0) == Shortest(attempt, cfg) <= Delay(attempt, cfg, draw)
    ensures Delay(attempt, cfg, draw) <= Delay(attempt, cfg, 9999) == Longest(attempt, cfg) <= Capped(attempt, cfg)
  {
    CappedGrows(attempt, attempt, cfg);
    JitterRange(Capped(attempt, cfg), draw);
    hide Capped, Jittered;
  }

  lemma FloorGrows(x: real, y: real)
    requires x <= y
    ensures x.Floor <= y.Floor
  {
  }

  /** The call returns a delay whatever is drawn exactly when the longest fits 64 bits: always with
      a cap. It is then at least half the unjittered delay, and never above that or the cap. */
  lemma BackoffBounds(attempt: int, cfg: Config)
    ensures (forall draw: Draw :: CalculateBackoff(attempt, cfg, draw).Some?) <==> Longest(attempt, cfg) < TWO63 as real
    ensures cfg.maxDelay > 0 ==> Longest(attempt, cfg) < TWO63 as real
    ensures forall draw: Draw | CalculateBackoff(attempt, cfg, draw).Some? ::
              && 0 <= Shortest(attempt, cfg).Floor <= CalculateBackoff(attempt, cfg, draw).value
              && CalculateBackoff(attempt, cfg, draw).value <= Longest(attempt, cfg).Floor
              && (cfg.maxDelay > 0 ==> CalculateBackoff(attempt, cfg, draw).value <= cfg.maxDelay)
  {
    CappedGrows(attempt, attempt, cfg);
    DelayRange(attempt, cfg, 0);
    assert CalculateBackoff(attempt, cfg, 9999).Some? <==> Longest(attempt, cfg) < TWO63 as real;
    forall draw: Draw
      ensures Delay(attempt, cfg, draw) <= Longest(attempt, cfg)
      ensures 0 <= Shortest(attempt, cfg).Floor <= Delay(attempt, cfg, draw).Floor <= Longest(attempt, cfg).Floor
    {
      DelayRange(attempt, cfg, draw);
      FloorGrows(0.0, Shortest(attempt, cfg));
      FloorGrows(Shortest(attempt, cfg), Delay(attempt, cfg, draw));
      FloorGrows(Delay(attempt, cfg, draw), Longest(attempt, cfg));
    }
    hide Delay, Longest, Shortest, Capped;
  }

  lemma PowerTen(n: nat)
    ensures Power(2.0, n + 10) == 1024.0 * Power(2.0, n)
  {
    PowerStep(2.0, n);
    PowerStep(2.0, n + 1);
    PowerStep(2.0, n + 2);
    PowerStep(2.0, n + 3);
    PowerStep(2.0, n + 4);
    PowerStep(2.0, n + 5);
    PowerStep(2.0, n + 6);
    PowerStep(2.0, n + 7);
    PowerStep(2.0, n + 8);
    PowerStep(2.0, n + 9);
    hide Power;
  }

  /** Without a cap, 50 ms doubled 40 times is more than 292 years, with jitter or not. */
  lemma DelayOverflows(jitter: bool, draw: Draw)
    ensures CalculateBackoff(40, Config(50_000_000, 0, 2.0, jitter), draw) == None
  {
    var cfg := Config(50_000_000, 0, 2.0, jitter);
    assert Power(2.0, 0) == 1.0;
    PowerTen(0);
    PowerTen(10);
    PowerTen(20);
    PowerTen(30);
    assert Capped(40, cfg) == 50_000_000.0 * 1_099_511_627_776.0;
    DelayRange(40, cfg, draw);
    hide Power, Capped, Jittered;
  }

  lemma UncappedDoubles(attempt: nat, cfg: Config)
    requires Multiplier(cfg) >= 2.0
    ensures 2.0 * Uncapped(attempt, cfg) <= Uncapped(attempt + 1, cfg)
  {
    UncappedGrows(attempt, attempt, cfg);
    PowerStep(Multiplier(cfg), attempt);
    Reorder(Initial(cfg) as real, Multiplier(cfg), Power(Multiplier(cfg), attempt));
    hide Power, Multiplier, Initial;
    Doubles(Multiplier(cfg), Uncapped(attempt, cfg));
  }

  lemma PowerStep(m: real, n: nat)
    ensures Power(m, n + 1) == m * Power(m, n)
  {
  }

  lemma Reorder(d: real, m: real, p: real)
    ensures d * (m * p) == m * (d * p)
  {
  }

  lemma Doubles(m: real, x: real)
    requires m >= 2.0 && x > 0.0
    ensures m * x >= 2.0 * x
  {
    assert m * x - 2.0 * x == (m - 2.0) * x;
  }

  ghost predicate InOrder(attempt: int, cfg: Config, m: Draw, n: Draw) {
    var here, there := CalculateBackoff(attempt, cfg, m), CalculateBackoff(attempt + 1, cfg, n);
    here.Some? && there.Some? && here.value <= there.value
  }

  /** Whatever is drawn, attempt + 1 returns a delay, and one no shorter than attempt's. */
  ghost predicate NeverShorter(attempt: int, cfg: Config) {
    forall m: Draw, n: Draw :: InOrder(attempt, cfg, m, n)
  }

  /** That is so exactly when the longer delay fits 64 bits and, with jitter, the two windows do not
      overlap by a nanosecond or more. */
  lemma NeverShorterWhen(attempt: int, cfg: Config)
    ensures NeverShorter(attempt, cfg)
            <==> && Longest(attempt + 1, cfg) < TWO63 as real
                 && (cfg.jitter ==> (0.99995 * Capped(attempt, cfg)).Floor <= (0.5 * Capped(attempt + 1, cfg)).Floor)
  {
    CappedGrows(attempt, attempt + 1, cfg);
    BackoffBounds(attempt, cfg);
    BackoffBounds(attempt + 1, cfg);
    DelayRange(attempt, cfg, 0);
    DelayRange(attempt + 1, cfg, 0);
    assert CalculateBackoff(attempt + 1, cfg, 9999).Some? <==> Longest(attempt + 1, cfg) < TWO63 as real;
    FloorGrows(Capped(attempt, cfg), Capped(attempt + 1, cfg));
    hide Capped, Delay;
    if NeverShorter(attempt, cfg) {
      assert InOrder(attempt, cfg, 9999, 0) && InOrder(attempt, cfg, 0, 9999);
    }
  }

  /** So it is whenever the delay at least doubles: with the probers' multiplier of 2, as long as the
      cap does not cut into the doubling. Without jitter it is always so. */
  lemma NoShorterWait(attempt: int, cfg: Config)
    requires Longest(attempt + 1, cfg) < TWO63 as real
    requires !cfg.jitter || 2.0 * Capped(attempt, cfg) <= Capped(attempt + 1, cfg)
    ensures NeverShorter(attempt, cfg)
  {
    NeverShorterWhen(attempt, cfg);
    CappedGrows(attempt, attempt + 1, cfg);
    if cfg.jitter {
      FloorGrows(0.99995 * Capped(attempt, cfg), 0.5 * Capped(attempt + 1, cfg));
    }
  }

  /** When the delay doubles. */
  lemma CappedDoublesWhen(attempt: nat, cfg: Config)
    requires Multiplier(cfg) >= 2.0
    ensures cfg.maxDelay <= 0 || 2.0 * Capped(attempt, cfg) <= cfg.maxDelay as real
            ==> 2.0 * Capped(attempt, cfg) <= Capped(attempt + 1, cfg)
  {
    UncappedDoubles(attempt, cfg);
    UncappedGrows(attempt, attempt, cfg);
    hide Uncapped;
  }

  /** At the cap the wait can get shorter, unless the cap is 1 or 2 ns. */
  lemma ShorterAtCap(attempt: int, cfg: Config)
    requires cfg.jitter && cfg.maxDelay > 0 && Capped(attempt, cfg) == cfg.maxDelay as real
    ensures NeverShorter(attempt, cfg) <==> cfg.maxDelay <= 2
  {
    CappedGrows(attempt, attempt + 1, cfg);
    NeverShorterWhen(attempt, cfg);
    BackoffBounds(attempt + 1, cfg);
    hide Capped, NeverShorter;
  }

  /** 2 s drawn almost in full, then halved: the defaults reach this at attempt 6. */
  lemma ShorterByDefault()
    ensures var cfg := Config(50_000_000, 2_000_000_000, 2.0, true);
            CalculateBackoff(6, cfg, 9999) == Some(1_999_900_000) && CalculateBackoff(7, cfg, 0) == Some(1_000_000_000)
  {
    var cfg := Config(50_000_000, 2_000_000_000, 2.0, true);
    assert Power(2.0, 0) == 1.0;
    PowerStep(2.0, 0);
    PowerStep(2.0, 1);
    PowerStep(2.0, 2);
    PowerStep(2.0, 3);
    PowerStep(2.0, 4);
    PowerStep(2.0, 5);
    assert Capped(6, cfg) == 2_000_000_000.0;
    CappedGrows(6, 7, cfg);
    DelayRange(6, cfg, 0);
    DelayRange(7, cfg, 0);
    hide Capped, Power;
  }
}
