/** The variable-difficulty controller, over exact reals. */
module Vardiff {
  import opened Bytes

  const MIN_ELAPSED: real := 30.0
  const MAX_ELAPSED_NO_SHARES: real := 90.0
  const MIN_SHARES: real := 3.0
  const LOWER_RATIO: real := 0.75
  const UPPER_RATIO: real := 1.25
  const MAX_STEP_UP: real := 2.0
  const MAX_STEP_DOWN: real := 0.5
  const EPSILON: real := 1.0 / 4503599627370496.0

  function Pow2(k: nat): (r: real)
    ensures r >= 1.0
  {
    if k == 0 then 1.0 else 2.0 * Pow2(k - 1)
  }

  /** Powers of two with any exponent. */
  function Exp2(e: int): (r: real)
    ensures r > 0.0
  {
    if e >= 0 then Pow2(e) else 1.0 / Pow2(-e)
  }

  function Max(a: real, b: real): real {
    if a > b then a else b
  }

  function Abs(a: real): real {
    if a < 0.0 then -a else a
  }

  /** The floating-point functions the controller calls. */
  datatype Float = Float(sqrt: real -> real, mul: (real, real) -> real, floorLog2: real -> int, ceilLog2: real -> int)

  /** What the proofs ask of them leaves room for rounding: square roots and products are only
      bounded, and a logarithm must be rounded to the right integer from a power of two
      up to 5% below, or from 5% above up to, the next one, and for the whole numbers that
      can be configured. */
  ghost predicate Sound(f: Float) {
    && (forall c: real, s: real | c >= 1.0 :: MulBounds(c, s, f.mul(c, s)))
    && (forall x: real | x >= UPPER_RATIO :: f.sqrt(x) >= 1.118)
    && (forall x: real | 0.0 < x <= LOWER_RATIO :: 0.0 < f.sqrt(x) <= 0.867)
    && (forall x: real | x >= 4.0 :: f.sqrt(x) >= 2.0)
    && (forall x: real | 0.0 < x <= 0.25 :: f.sqrt(x) <= 0.5)
    && (forall e: int, x: real :: LogBounds(f, e, x))
    && (forall e: nat, n: nat :: WholeLog(f, e, n))
  }

  predicate MulBounds(c: real, s: real, r: real) {
    && (s >= 1.118 ==> r >= 1.11 * c) && (s <= 0.867 ==> r <= 0.87 * c)
    && (s <= 2.0 ==> r <= 2.0 * c) && (s >= 0.5 ==> r >= 0.5 * c)
    && (s == 2.0 ==> r == 2.0 * c) && (s == 0.5 ==> r == 0.5 * c)
  }

  predicate LogBounds(f: Float, e: int, x: real) {
    && (Exp2(e) <= x <= 0.95 * Exp2(e + 1) ==> f.floorLog2(x) == e)
    && (1.05 * Exp2(e) <= x <= Exp2(e + 1) ==> f.ceilLog2(x) == e + 1)
  }

  predicate WholeLog(f: Float, e: nat, n: nat) {
    n < 0x1_0000_0000 && Pow2(e) <= n as real < Pow2(e + 1) ==> f.floorLog2(n as real) == e
  }

  function ClampTowards(f: Float, current: real, next: real): (r: real)
    ensures r >= 1.0
  {
    if next <= 0.0 then 1.0
    else
      var clamped := Exp2(if next >= current then f.ceilLog2(next) else f.floorLog2(next));
      if clamped < 1.0 then 1.0 else clamped
  }

  function Ratio(shares: real, elapsed: real, expected: real): real
    requires elapsed > 0.0
  {
    shares / elapsed * 60.0 / Max(expected, 1.0)
  }

  function NextDiff(f: Float, current: real, shares: real, elapsed: real, expected: real, clamp: bool): Option<real> {
    if current <= 0.0 || elapsed <= 0.0 then None
    else if shares == 0.0 && elapsed >= MAX_ELAPSED_NO_SHARES then
      var halved := Max(current * MAX_STEP_DOWN, 1.0);
      var next := if clamp then ClampTowards(f, current, halved) else halved;
      if Abs(next - current) > EPSILON then Some(next) else None
    else if elapsed < MIN_ELAPSED || shares < MIN_SHARES then None
    else
      var ratio := Ratio(shares, elapsed, expected);
      if ratio <= 0.0 || (LOWER_RATIO < ratio < UPPER_RATIO) then None
      else Adjusted(f, current, f.sqrt(ratio), clamp)
  }

  function ClampStep(root: real): real {
    if root < MAX_STEP_DOWN then MAX_STEP_DOWN else if root > MAX_STEP_UP then MAX_STEP_UP else root
  }

  /** The change for a share-rate ratio whose square root is `root`. */
  function Adjusted(f: Float, current: real, root: real, clamp: bool): Option<real> {
    Rounded(f, current, f.mul(current, ClampStep(root)), clamp)
  }

  function Rounded(f: Float, current: real, moved: real, clamp: bool): Option<real> {
    Settled(current, if clamp then ClampTowards(f, current, Max(moved, 1.0)) else Max(moved, 1.0))
  }

  /** Small changes are not worth sending. */
  function Settled(current: real, next: real): Option<real> {
    if Abs(next - current) / Max(current, 1.0) < 0.10 then None
    else if Abs(next - current) > EPSILON then Some(next) else None
  }

  lemma SettledMoves(c: real, d: real)
    requires c >= 1.0 && (d == 2.0 * c || d == 0.5 * c || d == c)
    ensures Settled(c, d) == if d == c then None else Some(d)
  {
    var a := Abs(d - c);
    assert a == c || a == 0.5 * c || a == 0.0;
    assert c / c == 1.0 && (0.5 * c) / c == 0.5 && 0.0 / c == 0.0;
  }

  // ---- Rounding to powers of two ----

  /** A target above the current power of two, up to its double, is rounded to the double. */
  lemma ClampUp(f: Float, k: nat, x: real)
    requires Sound(f) && 1.05 * Pow2(k) <= x <= 2.0 * Pow2(k)
    ensures ClampTowards(f, Pow2(k), x) == Pow2(k + 1)
  {
    assert LogBounds(f, k, x);
  }

  /** A target below it, down to its half, is rounded to the half. */
  lemma ClampDown(f: Float, k: nat, x: real)
    requires Sound(f) && k >= 1 && Pow2(k - 1) <= x <= 0.95 * Pow2(k)
    ensures ClampTowards(f, Pow2(k), x) == Pow2(k - 1)
  {
    assert LogBounds(f, k - 1, x);
  }

  lemma ClampOne(f: Float)
    requires Sound(f)
    ensures ClampTowards(f, 1.0, 1.0) == 1.0
  {
    assert Exp2(-1) == 0.5 && Exp2(0) == 1.0;
    assert LogBounds(f, -1, 1.0);
  }

  // ---- One tick ----

  lemma RatioPositive(shares: real, elapsed: real, expected: real)
    requires elapsed > 0.0 && shares > 0.0
    ensures Ratio(shares, elapsed, expected) > 0.0
  {
    assert shares / elapsed > 0.0;
  }

  /** Dividing by `y` is comparing with a multiple of `y`. */
  lemma Quotient(x: real, y: real, c: real)
    requires y > 0.0
    ensures x / y >= c <==> x >= c * y
    ensures x / y <= c <==> x <= c * y
  {
    assert x / y * y == x;
  }

  /** The ratio of shares per minute to `rate` shares per minute, without division. */
  lemma RatioBound(shares: real, elapsed: real, expected: real, rate: real, c: real)
    requires elapsed > 0.0 && rate == if expected >= 1.0 then expected else 1.0
    ensures Ratio(shares, elapsed, expected) >= c <==> 60.0 * shares >= c * rate * elapsed
    ensures Ratio(shares, elapsed, expected) <= c <==> 60.0 * shares <= c * rate * elapsed
  {
    var perMinute := shares / elapsed * 60.0;
    assert Ratio(shares, elapsed, expected) == perMinute / rate;
    Quotient(perMinute, rate, c);
    assert perMinute == (60.0 * shares) / elapsed;
    Quotient(60.0 * shares, elapsed, c * rate);
  }

  /** Many shares: at least 3 in at least 30 seconds, at 1.25 times the expected rate or more. */
  predicate Fast(shares: real, elapsed: real, rate: real) {
    elapsed >= 30.0 && shares >= 3.0 && 60.0 * shares >= 1.25 * rate * elapsed
  }

  /** Few: at 0.75 times the expected rate or less, or none in 90 seconds. */
  predicate Slow(shares: real, elapsed: real, rate: real) {
    || (shares == 0.0 && elapsed >= 90.0)
    || (elapsed >= 30.0 && shares >= 3.0 && 60.0 * shares <= 0.75 * rate * elapsed)
  }

  /** With power-of-two clamping a tick exactly doubles, exactly halves or leaves the
      difficulty, and which of the three depends on the share rate alone. */
  lemma TickExact(f: Float, k: nat, shares: real, elapsed: real, expected: real, rate: real)
    requires Sound(f) && elapsed > 0.0 && rate == if expected >= 1.0 then expected else 1.0
    ensures NextDiff(f, Pow2(k), shares, elapsed, expected, true) ==
            if elapsed >= 30.0 && shares >= 3.0 && 60.0 * shares >= 1.25 * rate * elapsed then Some(Pow2(k + 1))
            else if k > 0 && (|| (shares == 0.0 && elapsed >= 90.0)
                              || (elapsed >= 30.0 && shares >= 3.0 && 60.0 * shares <= 0.75 * rate * elapsed))
            then Some(Pow2(k - 1))
            else None
  {
    if shares == 0.0 && elapsed >= MAX_ELAPSED_NO_SHARES {
      TickIdle(f, Pow2(k), k, elapsed, expected);
    } else if elapsed >= MIN_ELAPSED && shares >= MIN_SHARES {
      RatioBound(shares, elapsed, expected, rate, 1.25);
      RatioBound(shares, elapsed, expected, rate, 0.75);
      TickActive(f, Pow2(k), k, shares, elapsed, expected);
    }
  }

  lemma TickIdle(f: Float, c: real, k: nat, elapsed: real, expected: real)
    requires Sound(f) && c == Pow2(k) && elapsed >= MAX_ELAPSED_NO_SHARES
    ensures NextDiff(f, c, 0.0, elapsed, expected, true) == if k > 0 then Some(Pow2(k - 1)) else None
  {
    HalvesTo(f, k, c * MAX_STEP_DOWN);
  }

  lemma TickActive(f: Float, c: real, k: nat, shares: real, elapsed: real, expected: real)
    requires Sound(f) && c == Pow2(k) && elapsed >= MIN_ELAPSED && shares >= MIN_SHARES
    ensures var ratio := Ratio(shares, elapsed, expected);
            NextDiff(f, c, shares, elapsed, expected, true) ==
            if ratio >= 1.25 then Some(Pow2(k + 1))
            else if k > 0 && ratio <= 0.75 then Some(Pow2(k - 1))
            else None
  {
    var ratio := Ratio(shares, elapsed, expected);
    RatioPositive(shares, elapsed, expected);
    if ratio >= UPPER_RATIO {
      AdjustedUp(f, c, k, f.sqrt(ratio));
    } else if ratio <= LOWER_RATIO {
      AdjustedDown(f, c, k, f.sqrt(ratio));
    }
  }

  lemma TickCases(f: Float, k: nat, shares: real, elapsed: real, expected: real)
    requires Sound(f) && elapsed > 0.0
    ensures var d := NextDiff(f, Pow2(k), shares, elapsed, expected, true);
            d == None || d == Some(Pow2(k + 1)) || (k > 0 && d == Some(Pow2(k - 1)))
  {
    TickExact(f, k, shares, elapsed, expected, if expected >= 1.0 then expected else 1.0);
  }

  lemma RoundedUp(f: Float, c: real, k: nat, x: real)
    requires Sound(f) && c == Pow2(k) && 1.05 * c <= x <= 2.0 * c
    ensures Rounded(f, c, x, true) == Some(Pow2(k + 1))
  {
    ClampUp(f, k, x);
    SettledMoves(c, Pow2(k + 1));
  }

  lemma RoundedDown(f: Float, c: real, k: nat, x: real)
    requires Sound(f) && c == Pow2(k) && 0.5 * c <= x <= 0.95 * c
    ensures Rounded(f, c, x, true) == if k == 0 then None else Some(Pow2(k - 1))
  {
    HalvesTo(f, k, x);
    SettledMoves(c, if k == 0 then 1.0 else Pow2(k - 1));
  }

  lemma AdjustedUp(f: Float, c: real, k: nat, root: real)
    requires Sound(f) && c == Pow2(k) && root >= 1.118
    ensures Adjusted(f, c, root, true) == Some(Pow2(k + 1))
  {
    var step := ClampStep(root);
    assert MulBounds(c, step, f.mul(c, step));
    RoundedUp(f, c, k, f.mul(c, step));
  }

  lemma AdjustedDown(f: Float, c: real, k: nat, root: real)
    requires Sound(f) && c == Pow2(k) && 0.0 < root <= 0.867
    ensures Adjusted(f, c, root, true) == if k == 0 then None else Some(Pow2(k - 1))
  {
    var step := ClampStep(root);
    assert MulBounds(c, step, f.mul(c, step));
    RoundedDown(f, c, k, f.mul(c, step));
  }

  lemma HalvesTo(f: Float, k: nat, x: real)
    requires Sound(f) && 0.5 * Pow2(k) <= x <= 0.95 * Pow2(k)
    ensures ClampTowards(f, Pow2(k), Max(x, 1.0)) == if k == 0 then 1.0 else Pow2(k - 1)
    ensures k > 0 ==> Pow2(k) - Pow2(k - 1) == 0.5 * Pow2(k) && Pow2(k) >= 2.0
  {
    if k == 0 {
      ClampOne(f);
    } else {
      assert Pow2(k) == 2.0 * Pow2(k - 1);
      ClampDown(f, k, x);
    }
  }

  // ---- Whole runs ----

  ghost predicate IsPow2(d: real) {
    exists k: nat :: d == Pow2(k)
  }

  ghost predicate UnsetOrPow2(d: real) {
    d == 0.0 || IsPow2(d)
  }

  /** The configured starting difficulty under clamping. */
  function StartDiff(f: Float, configured: nat): real {
    if configured == 0 then 4.0 else Exp2(f.floorLog2(configured as real))
  }

  lemma {:induction false} WholePow2(k: nat) returns (p: nat)
    ensures Pow2(k) == p as real
  {
    if k == 0 {
      p := 1;
    } else {
      var q := WholePow2(k - 1);
      p := 2 * q;
    }
  }

  lemma {:induction false} Pow2Above(n: nat) returns (k: nat)
    requires n >= 1
    ensures Pow2(k) <= n as real < Pow2(k + 1)
  {
    if n == 1 {
      k := 0;
    } else {
      var m := Pow2Above(n / 2);
      k := m + 1;
      var p := WholePow2(m);
      assert Pow2(m + 1) == (2 * p) as real && Pow2(m + 2) == (4 * p) as real;
      WholeBetween(n, p);
    }
  }

  lemma WholeBetween(n: nat, p: nat)
    requires p as real <= (n / 2) as real < (2 * p) as real
    ensures (2 * p) as real <= n as real < (4 * p) as real
  {
    assert p <= n / 2 < 2 * p;
  }

  /** A configured difficulty of 32 bits starts at the largest power of two that is not above
      it, and 0 at 4. */
  lemma StartExact(f: Float, configured: nat) returns (k: nat)
    requires Sound(f) && configured < 0x1_0000_0000
    ensures StartDiff(f, configured) == Pow2(k)
    ensures if configured == 0 then k == 2 else Pow2(k) <= configured as real < Pow2(k + 1)
  {
    if configured == 0 {
      k := 2;
      assert Pow2(2) == 4.0;
    } else {
      k := Pow2Above(configured);
      assert WholeLog(f, k, configured);
    }
  }

  /** A worker's difficulty in the statistics, if they exist, and in its mining state; 0 is unset. */
  datatype Worker = Worker(stats: Option<real>, stratum: real)

  datatype Step =
    | Initialize // first job: both take the starting difficulty
    | Resend     // difficulty sent again: the statistics restart from the starting one
    | PruneStats // the statistics are dropped
    | Create     // they come back, seeded from the mining state
    | Refresh    // new job: the mining state follows the statistics
    | Tick(shares: real, elapsed: real, expected: real)

  /** Statistics that do not exist are not set. */
  function SetStats(stats: Option<real>, d: real): Option<real> {
    if stats.Some? then Some(d) else None
  }

  function Next(f: Float, start: real, w: Worker, s: Step): Worker {
    match s
    case Initialize => Worker(SetStats(w.stats, start), start)
    case Resend => w.(stats := SetStats(w.stats, start))
    case PruneStats => w.(stats := None)
    case Create => if w.stats.Some? then w else w.(stats := Some(if w.stratum > 0.0 then w.stratum else 0.0))
    case Refresh =>
      if w.stratum == 0.0 || w.stats.None? then w
      else if w.stats.value <= 0.0 && w.stratum > 0.0 then w.(stats := Some(w.stratum))
      else w.(stratum := w.stats.value)
    case Tick(shares, elapsed, expected) =>
      if w.stats.None? then w
      else match NextDiff(f, w.stats.value, shares, elapsed, expected, true)
           case None => w
           case Some(d) => w.(stats := Some(d))
  }

  function Run(f: Float, start: real, w: Worker, steps: seq<Step>): Worker {
    if steps == [] then w else Next(f, start, Run(f, start, w, steps[..|steps| - 1]), steps[|steps| - 1])
  }

  ghost predicate Good(w: Worker) {
    (w.stats.Some? ==> UnsetOrPow2(w.stats.value)) && UnsetOrPow2(w.stratum)
  }

  lemma TickGood(f: Float, start: real, w: Worker, s: Step)
    requires Sound(f) && Good(w) && s.Tick? && w.stats.Some?
    ensures Good(Next(f, start, w, s)) && Next(f, start, w, s).stats.Some?
    ensures var c, d := w.stats.value, Next(f, start, w, s).stats.value; d == c || d == 2.0 * c || d == 0.5 * c
  {
    var c := w.stats.value;
    if c != 0.0 && s.elapsed > 0.0 {
      var k: nat :| c == Pow2(k);
      TickExact(f, k, s.shares, s.elapsed, s.expected, if s.expected >= 1.0 then s.expected else 1.0);
      if k > 0 { assert Pow2(k) == 2.0 * Pow2(k - 1); }
      assert Pow2(k + 1) == 2.0 * Pow2(k);
    }
  }

  /** Each event keeps both difficulties unset or powers of two; only jobs change the one in
      force, new statistics start with it, and a new job brings the two together. */
  lemma NextPow2(f: Float, start: real, w: Worker, s: Step)
    requires Sound(f) && IsPow2(start) && Good(w)
    ensures Good(Next(f, start, w, s))
    ensures !s.Initialize? && !s.Refresh? ==> Next(f, start, w, s).stratum == w.stratum
    ensures (s.Initialize? || s.Resend?) && w.stats.Some? ==> Next(f, start, w, s).stats == Some(start)
    ensures s.PruneStats? ==> Next(f, start, w, s).stats == None
    ensures s.Create? && w.stats.None? ==> Next(f, start, w, s).stats == Some(w.stratum)
    ensures s.Refresh? && w.stratum != 0.0 && w.stats.Some? ==>
              && Next(f, start, w, s).stats == Some(Next(f, start, w, s).stratum)
              && (w.stats.value > 0.0 ==> Next(f, start, w, s).stats == w.stats)
              && Next(f, start, w, s).stratum > 0.0
  {
    if s.Tick? && w.stats.Some? { TickGood(f, start, w, s); }
  }

  /** Over every run a clamped worker's difficulty is unset or a power of two, at least 1, and
      the one its shares are checked against is set from the first job on. */
  lemma {:induction false} RunPow2(f: Float, start: real, steps: seq<Step>)
    requires Sound(f) && IsPow2(start)
    ensures Good(Run(f, start, Worker(None, 0.0), steps))
    ensures Initialize in steps ==> Run(f, start, Worker(None, 0.0), steps).stratum >= 1.0
  {
    if steps != [] {
      var n := |steps| - 1;
      RunPow2(f, start, steps[..n]);
      NextPow2(f, start, Run(f, start, Worker(None, 0.0), steps[..n]), steps[n]);
      assert steps == steps[..n] + [steps[n]];
    }
  }

  // ---- Without clamping ----

  lemma Share(c: real, a: real, x: real)
    requires c > 0.0
    ensures a / c < x <==> a < x * c
  {
    assert a / c * c == a;
  }

  /** Without clamping a fast worker's difficulty grows by 11% at least and doubles at most, as
      it does from four times the expected rate on. */
  lemma FreeUp(f: Float, c: real, shares: real, elapsed: real, expected: real, rate: real) returns (d: real)
    requires Sound(f) && c >= 1.0 && rate == (if expected >= 1.0 then expected else 1.0) && Fast(shares, elapsed, rate)
    ensures NextDiff(f, c, shares, elapsed, expected, false) == Some(d) && 1.11 * c <= d <= 2.0 * c
    ensures 60.0 * shares >= 4.0 * rate * elapsed ==> d == 2.0 * c
  {
    var ratio := Ratio(shares, elapsed, expected);
    RatioPositive(shares, elapsed, expected);
    RatioBound(shares, elapsed, expected, rate, 1.25);
    RatioBound(shares, elapsed, expected, rate, 4.0);
    var step := ClampStep(f.sqrt(ratio));
    d := f.mul(c, step);
    assert MulBounds(c, step, d);
    Share(c, d - c, 0.10);
  }

  /** A slow one's falls, to half of it or to 1 at the lowest; it stays if it is so close to 1
      that the change would be less than a tenth, or, without any shares, if it is 1. */
  lemma FreeDown(f: Float, c: real, shares: real, elapsed: real, expected: real, rate: real)
    requires Sound(f) && c >= 1.0 && rate == (if expected >= 1.0 then expected else 1.0) && Slow(shares, elapsed, rate)
    ensures var next := NextDiff(f, c, shares, elapsed, expected, false);
            if shares == 0.0 then next == if c > 1.0 + EPSILON then Some(Max(0.5 * c, 1.0)) else None
            else (next.Some? <==> 0.9 * c >= 1.0) && (next.Some? ==> Max(0.5 * c, 1.0) <= next.value <= 0.9 * c)
                 && (next.Some? && 60.0 * shares <= 0.25 * rate * elapsed ==> next.value == Max(0.5 * c, 1.0))
  {
    if shares != 0.0 {
      var ratio := Ratio(shares, elapsed, expected);
      RatioPositive(shares, elapsed, expected);
      RatioBound(shares, elapsed, expected, rate, 0.75);
      RatioBound(shares, elapsed, expected, rate, 0.25);
      var step := ClampStep(f.sqrt(ratio));
      assert MulBounds(c, step, f.mul(c, step));
      var d := Max(f.mul(c, step), 1.0);
      Share(c, c - d, 0.10);
    }
  }

  /** In all other cases nothing changes, with or without clamping. */
  lemma FreeStays(f: Float, c: real, shares: real, elapsed: real, expected: real, rate: real, clamp: bool)
    requires elapsed > 0.0 && rate == if expected >= 1.0 then expected else 1.0
    requires !Fast(shares, elapsed, rate) && !Slow(shares, elapsed, rate)
    ensures NextDiff(f, c, shares, elapsed, expected, clamp) == None
  {
    RatioBound(shares, elapsed, expected, rate, 1.25);
    RatioBound(shares, elapsed, expected, rate, 0.75);
  }
}
