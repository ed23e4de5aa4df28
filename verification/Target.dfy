/** From difficulty to share target. */
module Target {
  import opened Arithmetic
  import opened Bytes
  import opened Vardiff

  /** 2^224 - 1. */
  const MAX_TARGET: nat := 0xFFFFFFFFFFFFFFFFFFFFFFFFFFFFFFFFFFFFFFFFFFFFFFFFFFFFFFFF

  const SCALE: nat := 1_000_000_000_000_000_000

  const U128_MAX: nat := 0xFFFFFFFFFFFFFFFFFFFFFFFFFFFFFFFF

  /** The target of every difficulty too large for the scaled cast. */
  const SATURATED_TARGET: nat := MAX_TARGET * SCALE / U128_MAX

  /** The float-to-integer cast truncates and saturates. */
  function ToU128(x: real): nat
    requires x >= 0.0
  {
    if x.Floor > U128_MAX then U128_MAX else x.Floor
  }

  /** `None` is the division by zero of a positive difficulty below 1e-18. */
  function DiffToTarget(diff: real): Option<nat> {
    if diff <= 0.0 then Some(MAX_TARGET)
    else
      var scaled := ToU128(diff * SCALE as real);
      if scaled == 0 then None else Some(MAX_TARGET * SCALE / scaled)
  }

  // ---- Powers of two ----

  function P2(n: nat): (r: nat)
    ensures r >= 1
  {
    if n == 0 then 1 else 2 * P2(n - 1)
  }

  lemma {:induction false} P2Add(a: nat, b: nat)
    ensures P2(a + b) == P2(a) * P2(b)
  {
    if b > 0 {
      P2Add(a, b - 1);
      calc {
        P2(a + b);
        2 * P2(a + b - 1);
        2 * (P2(a) * P2(b - 1));
        P2(a) * (2 * P2(b - 1));
        P2(a) * P2(b);
      }
    }
  }

  lemma {:induction false} P2Monotone(a: nat, b: nat)
    requires a <= b
    ensures P2(a) <= P2(b)
  {
    if a < b { P2Monotone(a, b - 1); }
  }

  lemma P2Sum(a: nat, va: nat, b: nat, vb: nat, v: nat)
    requires P2(a) == va && P2(b) == vb && va * vb == v
    ensures P2(a + b) == v
  {
    P2Add(a, b);
  }

  lemma P2Values()
    ensures P2(68) == 0x100000000000000000 && P2(155) == 0x800000000000000000000000000000000000000
    ensures P2(224) == MAX_TARGET + 1
  {
    P2Small();
    P2Sum(32, 0x100000000, 32, 0x100000000, 0x10000000000000000);
    P2Sum(64, 0x10000000000000000, 4, 0x10, 0x100000000000000000);
    P2Sum(64, 0x10000000000000000, 64, 0x10000000000000000, 0x100000000000000000000000000000000);
    P2Sum(128, 0x100000000000000000000000000000000, 64, 0x10000000000000000, 0x1000000000000000000000000000000000000000000000000);
    P2Sum(192, 0x1000000000000000000000000000000000000000000000000, 32, 0x100000000, 0x100000000000000000000000000000000000000000000000000000000);
    P2Sum(128, 0x100000000000000000000000000000000, 27, 0x8000000, 0x800000000000000000000000000000000000000);
  }

  lemma P2Small()
    ensures P2(4) == 0x10 && P2(27) == 0x8000000 && P2(32) == 0x100000000
  {
    assert P2(4) == 16 && P2(8) == 256;
    P2Sum(8, 0x100, 8, 0x100, 0x10000);
    P2Sum(16, 0x10000, 8, 0x100, 0x1000000);
    P2Sum(16, 0x10000, 16, 0x10000, 0x100000000);
    assert P2(3) == 8;
    P2Sum(24, 0x1000000, 3, 8, 0x8000000);
  }

  lemma OnesQuotient(q: nat, a: nat)
    requires q > 0 && a > 0
    ensures q * a >= 1 && (q * a - 1) / a == q - 1
  {
    assert q * a - 1 == (q - 1) * a + (a - 1);
    DivUnique(q * a - 1, a, q - 1, a - 1);
  }

  /** Dividing 2^n - 1 by 2^k keeps the leading n - k ones. */
  lemma OnesShifted(n: nat, k: nat)
    requires k <= n
    ensures (P2(n) - 1) / P2(k) == P2(n - k) - 1
  {
    P2Add(n - k, k);
    OnesQuotient(P2(n - k), P2(k));
  }

  /** A common factor cancels in integer division. */
  lemma CancelFactor(x: nat, s: nat, d: nat)
    requires s > 0 && d > 0
    ensures x * s / (d * s) == x / d
  {
    var q, r := x / d, x % d;
    assert x == q * d + r;
    assert x * s == q * (d * s) + r * s;
    assert r * s < d * s;
    DivUnique(x * s, d * s, q, r * s);
  }

  lemma ScaledPow2(k: nat)
    ensures (P2(k) as real * SCALE as real).Floor == P2(k) * SCALE
  {
    assert P2(k) as real * SCALE as real == (P2(k) * SCALE) as real;
  }

  lemma SmallDifficulty(k: nat)
    requires k <= 68
    ensures DiffToTarget(P2(k) as real) == Some(P2(224 - k) - 1)
  {
    P2Values();
    P2Monotone(k, 68);
    ScaledPow2(k);
    assert P2(k) * SCALE <= U128_MAX;
    CancelFactor(MAX_TARGET, SCALE, P2(k));
    OnesShifted(224, k);
  }

  lemma LargeDifficulty(k: nat)
    requires 69 <= k
    ensures DiffToTarget(P2(k) as real) == Some(SATURATED_TARGET)
    ensures SATURATED_TARGET >= P2(155)
  {
    P2Values();
    P2Monotone(69, k);
    ScaledPow2(k);
    assert P2(69) == 2 * P2(68);
    assert P2(k) * SCALE > U128_MAX;
    assert 0x800000000000000000000000000000000000000 * U128_MAX <= MAX_TARGET * SCALE;
  }

  lemma Saturated(k: nat)
    requires 68 < k <= 224
    ensures DiffToTarget(P2(k) as real) == Some(SATURATED_TARGET) && P2(224 - k) - 1 < SATURATED_TARGET
  {
    P2Monotone(224 - k, 155);
    LargeDifficulty(k);
  }

  /** For a power-of-two difficulty 2^k the target is exactly 2^(224-k) - 1, one bit
      less for each doubling, up to k = 68; from there on the scaled difficulty
      saturates and every larger difficulty gets one and the same easier target. */
  lemma Pow2TargetExact(k: nat)
    requires k <= 224
    ensures DiffToTarget(P2(k) as real) == Some(P2(224 - k) - 1) <==> k <= 68
    ensures k > 68 ==> DiffToTarget(P2(k) as real) == DiffToTarget(P2(69) as real)
  {
    if k <= 68 {
      SmallDifficulty(k);
    } else {
      Saturated(k);
      Saturated(69);
    }
  }

  /** For every whole difficulty that the scaled cast can hold, the target is the quotient,
      rounded down. */
  lemma WholeTarget(d: nat)
    requires 1 <= d <= 340282366920938463463
    ensures DiffToTarget(d as real) == Some(0xFFFFFFFFFFFFFFFFFFFFFFFFFFFFFFFFFFFFFFFFFFFFFFFFFFFFFFFF / d)
  {
    assert d as real * SCALE as real == (d * SCALE) as real;
    CancelFactor(MAX_TARGET, SCALE, d);
  }

  /** A harder difficulty never has an easier target. */
  lemma TargetMonotone(a: real, b: real, x: nat, y: nat)
    requires a <= b && DiffToTarget(a) == Some(x) && DiffToTarget(b) == Some(y) && b >= 1.0
    ensures y <= x
  {
    if a > 0.0 {
      var p, q := ToU128(a * SCALE as real), ToU128(b * SCALE as real);
      assert p <= q by { assert a * SCALE as real <= b * SCALE as real; }
      DivMonotone(MAX_TARGET * SCALE, p, q);
    } else {
      var q := ToU128(b * SCALE as real);
      assert q >= SCALE by { assert b * SCALE as real >= SCALE as real; }
      DivMonotone(MAX_TARGET * SCALE, SCALE, q);
    }
  }

  lemma {:induction false} RealPow2(k: nat)
    ensures Pow2(k) == P2(k) as real
  {
    if k > 0 { RealPow2(k - 1); }
  }

  lemma Pow2Target(k: nat)
    requires k <= 68
    ensures DiffToTarget(Pow2(k)) == Some(P2(224 - k) - 1)
  {
    RealPow2(k);
    SmallDifficulty(k);
  }

  /** One more bit, or one less: 2^n - 1 against 2^(n-1) - 1. */
  lemma OneBit(n: nat)
    requires n > 0
    ensures P2(n) - 1 == 2 * (P2(n - 1) - 1) + 1
  {
  }

  /** A clamped difficulty change moves the target by exactly one bit: a harder difficulty
      halves it, rounding down, and an easier one doubles it and sets the new bit. */
  lemma TickTarget(f: Float, k: nat, shares: real, elapsed: real, expected: real, d: real, before: nat, after: nat)
    requires Sound(f) && elapsed > 0.0 && k <= 68 && d <= Pow2(68)
    requires NextDiff(f, Pow2(k), shares, elapsed, expected, true) == Some(d)
    requires DiffToTarget(Pow2(k)) == Some(before) && DiffToTarget(d) == Some(after)
    ensures if d > Pow2(k) then before == 2 * after + 1 else after == 2 * before + 1
  {
    TickCases(f, k, shares, elapsed, expected);
    TargetStep(k, d, before, after);
  }

  lemma Pow2Order(k: nat)
    requires Pow2(k + 1) <= Pow2(68) && k <= 68
    ensures k <= 67
  {
    assert Pow2(k + 1) == 2.0 * Pow2(k);
  }

  /** The targets of a difficulty and its double. */
  lemma HalvedTarget(k: nat)
    requires k <= 67
    ensures DiffToTarget(Pow2(k)) == Some(P2(224 - k) - 1) && DiffToTarget(Pow2(k + 1)) == Some(P2(223 - k) - 1)
    ensures P2(224 - k) - 1 == 2 * (P2(223 - k) - 1) + 1
  {
    Pow2Target(k);
    Pow2Target(k + 1);
    OneBit(224 - k);
  }

  lemma TargetStep(k: nat, d: real, before: nat, after: nat)
    requires k <= 68 && d <= Pow2(68) && (d == Pow2(k + 1) || (k > 0 && d == Pow2(k - 1)))
    requires DiffToTarget(Pow2(k)) == Some(before) && DiffToTarget(d) == Some(after)
    ensures if d > Pow2(k) then before == 2 * after + 1 else after == 2 * before + 1
  {
    assert Pow2(k + 1) == 2.0 * Pow2(k);
    if d == Pow2(k + 1) {
      Pow2Order(k);
      HalvedTarget(k);
    } else {
      assert Pow2(k) == 2.0 * Pow2(k - 1);
      HalvedTarget(k - 1);
    }
  }
}
