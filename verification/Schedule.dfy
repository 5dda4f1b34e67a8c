/** The open-loop send schedule of the throttled benchmark: ticks per item in Q32 fixed
    point, accumulated in a `u128` and cut to a `u64` tick.
 */
module Schedule {
  import opened Words

  const Q: nat := 0x1_0000_0000
  const U64: nat := 0x1_0000_0000_0000_0000
  const U128: nat := 0x1_0000_0000_0000_0000_0000_0000_0000_0000

  /** Ticks per item, in units of `1/Q` tick. */
  function Dt(tscHz: nat, rateHz: nat): nat
    requires rateHz > 0
  {
    tscHz * Q / rateHz
  }

  /** The accumulator when item `i`, counted from 1, is scheduled. */
  function Acc(tStart: nat, dt: nat, i: nat): nat {
    tStart * Q + i * dt
  }

  /** The tick of item `i` before the cast to `u64`. */
  function Tick(tStart: nat, tscHz: nat, rateHz: nat, i: nat): nat
    requires rateHz > 0
  {
    Acc(tStart, Dt(tscHz, rateHz), i) / Q
  }

  /** The whole part of the exact time `tStart + i * tscHz / rateHz`. */
  function Ideal(tStart: nat, tscHz: nat, rateHz: nat, i: nat): nat
    requires rateHz > 0
  {
    tStart + i * tscHz / rateHz
  }

  lemma {:induction false} MulMono(a: int, b: int, c: int)
    requires a <= b && c >= 0
    ensures a * c <= b * c
  {
    assert (b - a) * c >= 0;
    assert b * c == a * c + (b - a) * c;
  }

  lemma {:induction false} MulLe(a: int, b: int, c: int)
    requires c > 0
    ensures a * c <= b * c ==> a <= b
    ensures a * c < b * c ==> a < b
  {
    MulGap(a - b, c);
    assert (a - b) * c == a * c - b * c;
  }

  lemma {:induction false} DivBounds(x: nat, d: nat, q: nat)
    requires d > 0
    ensures q * d <= x ==> q <= x / d
    ensures x / d * d <= x < x / d * d + d
  {
    assert x == x / d * d + x % d;
    if q * d <= x {
      assert (x / d + 1) * d == x / d * d + d;
      MulLe(q, x / d + 1, d);
    }
  }

  /** The rounding of `Dt` loses less than one unit an item. */
  lemma {:induction false} DtLoss(tscHz: nat, rateHz: nat, i: nat)
    requires rateHz > 0
    ensures i * Dt(tscHz, rateHz) * rateHz <= i * tscHz * Q
    ensures i > 0 ==> i * tscHz * Q < i * Dt(tscHz, rateHz) * rateHz + i * rateHz
  {
    var dt := Dt(tscHz, rateHz);
    DivBounds(tscHz * Q, rateHz, 0);
    Times(dt, rateHz, i);
    Times(tscHz, Q, i);
    hide Dt;
    LossTimes(dt * rateHz, tscHz * Q, rateHz, i);
  }

  lemma {:induction false} Times(a: int, b: int, i: int)
    ensures i * a * b == i * (a * b)
  {
  }

  lemma {:induction false} LossTimes(lo: int, x: int, d: int, i: nat)
    requires lo <= x < lo + d
    ensures i * lo <= i * x
    ensures i > 0 ==> i * x < i * lo + i * d
  {
    MulMono(lo, x, i);
    MulMono(x + 1, lo + d, i);
    assert (x + 1) * i == i * x + i && (lo + d) * i == i * lo + i * d;
  }

  lemma {:induction false} NeverEarly(tscHz: nat, rateHz: nat, i: nat)
    requires rateHz > 0
    ensures i * Dt(tscHz, rateHz) / Q <= i * tscHz / rateHz
  {
    var a := i * Dt(tscHz, rateHz);
    var s := a / Q;
    DtLoss(tscHz, rateHz, i);
    DivBounds(a, Q, 0);
    MulMono(s * Q, a, rateHz);
    assert s * Q * rateHz == s * rateHz * Q;
    MulLe(s * rateHz, i * tscHz, Q);
    DivBounds(i * tscHz, rateHz, s);
  }

  lemma {:induction false} LateByAtMost(tscHz: nat, rateHz: nat, i: nat, d: nat)
    requires rateHz > 0 && i <= d * Q
    ensures i * tscHz / rateHz <= i * Dt(tscHz, rateHz) / Q + d
  {
    var a := i * Dt(tscHz, rateHz);
    var ideal := i * tscHz / rateHz;
    if ideal > d {
      DtLoss(tscHz, rateHz, i);
      DivBounds(i * tscHz, rateHz, 0);
      MulMono(ideal * rateHz, i * tscHz, Q);
      MulMono(i, d * Q, rateHz);
      var gap := (ideal - d) * Q;
      assert gap * rateHz == ideal * rateHz * Q - d * Q * rateHz;
      MulLe(gap, a, rateHz);
      DivBounds(a, Q, ideal - d);
    }
  }

  /** Drift, for every item: the schedule is never ahead of the exact time, and behind it by
      at most one tick for each `2^32` items begun.  Up to item `2^32` it is the whole part
      of the exact time or one tick less. */
  lemma {:induction false} Drift(tStart: nat, tscHz: nat, rateHz: nat, i: nat)
    requires rateHz > 0
    ensures Tick(tStart, tscHz, rateHz, i) <= Ideal(tStart, tscHz, rateHz, i)
    ensures Ideal(tStart, tscHz, rateHz, i) <= Tick(tStart, tscHz, rateHz, i) + (i + Q - 1) / Q
    ensures i <= Q ==> Ideal(tStart, tscHz, rateHz, i) - 1 <= Tick(tStart, tscHz, rateHz, i)
  {
    var a := i * Dt(tscHz, rateHz);
    assert (tStart * Q + a) / Q == tStart + a / Q;
    NeverEarly(tscHz, rateHz, i);
    LateByAtMost(tscHz, rateHz, i, (i + Q - 1) / Q);
  }

  /** The tick, exactly: `dt` is the number of whole units of `1/Q` tick in `tscHz / rateHz`, and
      the tick is the number of whole ticks in the start time and `i` times `dt`. */
  lemma {:induction false} TickExact(tStart: nat, tscHz: nat, rateHz: nat, i: nat, dt: nat)
    requires rateHz > 0 && dt * rateHz <= tscHz * Q < dt * rateHz + rateHz
    ensures Q * Tick(tStart, tscHz, rateHz, i) <= Q * tStart + i * dt < Q * Tick(tStart, tscHz, rateHz, i) + Q
  {
    DivUnique(tscHz * Q, rateHz, dt, tscHz * Q - dt * rateHz);
    DivBounds(Acc(tStart, dt, i), Q, 0);
  }

  /** When `rateHz` divides the clock frequency in units of `1/Q` tick, no item is off. */
  lemma {:induction false} TickIdeal(tStart: nat, tscHz: nat, rateHz: nat, i: nat)
    requires rateHz > 0 && tscHz * Q % rateHz == 0
    ensures Tick(tStart, tscHz, rateHz, i) == Ideal(tStart, tscHz, rateHz, i)
  {
    var dt := tscHz * Q / rateHz;
    var a := i * dt;
    DivBounds(a, Q, 0);
    var q, r := a / Q, a % Q;
    assert a == q * Q + r;
    assert i * tscHz * Q == a * rateHz by { Times(tscHz, Q, i); Times(dt, rateHz, i); }
    Rescale(i * tscHz, rateHz, q, r);
    assert (tStart * Q + a) / Q == tStart + q by { DivUnique(tStart * Q + a, Q, tStart + q, r); }
  }

  /** Otherwise item `rateHz` is late: its exact time is a whole tick. */
  lemma {:induction false} TickLate(tStart: nat, tscHz: nat, rateHz: nat)
    requires rateHz > 0 && tscHz * Q % rateHz != 0
    ensures Tick(tStart, tscHz, rateHz, rateHz) < Ideal(tStart, tscHz, rateHz, rateHz) == tStart + tscHz
  {
    var dt := Dt(tscHz, rateHz);
    DivBounds(tscHz * Q, rateHz, 0);
    assert dt * rateHz < tscHz * Q;
    DivUnique(rateHz * tscHz, rateHz, tscHz, 0);
    TickExact(tStart, tscHz, rateHz, rateHz, dt);
    var tick := Tick(tStart, tscHz, rateHz, rateHz);
    hide Tick, Dt, Acc;
    MulLe(tick, tStart + tscHz, Q);
  }

  /** The schedule is the exact one, for every item, if and only if `rateHz` divides the clock
      frequency in units of `1/Q` tick. */
  lemma {:induction false} ExactSchedule(tStart: nat, tscHz: nat, rateHz: nat)
    requires rateHz > 0
    ensures (forall i: nat :: Tick(tStart, tscHz, rateHz, i) == Ideal(tStart, tscHz, rateHz, i))
            <==> tscHz * Q % rateHz == 0
  {
    if tscHz * Q % rateHz == 0 {
      forall i: nat
        ensures Tick(tStart, tscHz, rateHz, i) == Ideal(tStart, tscHz, rateHz, i)
      {
        TickIdeal(tStart, tscHz, rateHz, i);
      }
    } else {
      TickLate(tStart, tscHz, rateHz);
    }
  }

  /** `x` is `q + r / Q` times `d`. */
  lemma {:induction false} Rescale(x: nat, d: nat, q: nat, r: nat)
    requires d > 0 && r < Q && x * Q == (q * Q + r) * d
    ensures x / d == q
  {
    assert (q * Q + r) * d == q * d * Q + r * d;
    MulMono(r + 1, Q, d);
    var rest := x - q * d;
    assert rest * Q == r * d < Q * d;
    MulLe(rest, d, Q);
    MulLe(0, rest, Q);
    DivUnique(x, d, q, rest);
  }

  /** The rounding of `i` items loses less than `i - 1` units and one tick: the exact time is
      before `Tick + 1` by less than that.  For the first item this is the whole part. */
  lemma {:induction false} TickLoss(tStart: nat, tscHz: nat, rateHz: nat, i: nat)
    requires rateHz > 0 && i > 0
    ensures Q * (tStart * rateHz + i * tscHz)
            < rateHz * (Q * (Tick(tStart, tscHz, rateHz, i) + 1) + i - 1)
    ensures i == 1 ==> Tick(tStart, tscHz, rateHz, i) == Ideal(tStart, tscHz, rateHz, i)
  {
    var dt := Dt(tscHz, rateHz);
    DivBounds(tscHz * Q, rateHz, 0);
    TickExact(tStart, tscHz, rateHz, i, dt);
    DtLoss(tscHz, rateHz, i);
    var tick := Tick(tStart, tscHz, rateHz, i);
    var b := Q * (tick + 1) + i - 1;
    hide Tick, Dt, Acc;
    assert Q * tStart + i * dt + i <= b;
    MulMono(Q * tStart + i * dt + i, b, rateHz);
    assert (Q * tStart + i * dt + i) * rateHz == Q * (tStart * rateHz) + i * dt * rateHz + i * rateHz;
    assert Q * (tStart * rateHz + i * tscHz) == Q * (tStart * rateHz) + i * tscHz * Q;
    if i == 1 {
      FirstTick(tStart, tscHz, rateHz, tick);
      Drift(tStart, tscHz, rateHz, 1);
    }
  }

  lemma {:induction false} FirstTick(tStart: nat, tscHz: nat, rateHz: nat, tick: nat)
    requires rateHz > 0 && Q * (tStart * rateHz + tscHz) < rateHz * (Q * (tick + 1))
    ensures tStart + tscHz / rateHz <= tick
  {
    assert rateHz * (Q * (tick + 1)) == rateHz * (tick + 1) * Q;
    MulLe(tStart * rateHz + tscHz, rateHz * (tick + 1), Q);
    DivBounds(tscHz, rateHz, 0);
    assert (tStart + tscHz / rateHz) * rateHz == tStart * rateHz + tscHz / rateHz * rateHz;
    MulLe(tStart + tscHz / rateHz, tick + 1, rateHz);
  }

  /** One tick less does occur. */
  lemma {:induction false} DriftOccurs()
    ensures Tick(0, 1, 3, 3) == 0 && Ideal(0, 1, 3, 3) == 1
  {
  }

  lemma {:induction false} Nondecreasing(tStart: nat, tscHz: nat, rateHz: nat, i: nat, j: nat)
    requires rateHz > 0 && i <= j
    ensures Tick(tStart, tscHz, rateHz, i) <= Tick(tStart, tscHz, rateHz, j)
  {
    var dt := Dt(tscHz, rateHz);
    assert j * dt == i * dt + (j - i) * dt;
    assert (j - i) * dt >= 0;
  }

  /** For `u64` inputs the accumulator stays in a `u128` for every item below `2^32`. */
  lemma {:induction false} NoOverflow(tStart: nat, tscHz: nat, rateHz: nat, i: nat)
    requires tStart < U64 && tscHz < U64 && 0 < rateHz && i < Q
    ensures Acc(tStart, Dt(tscHz, rateHz), i) < U128
  {
    var dt := Dt(tscHz, rateHz);
    DtLoss(tscHz, rateHz, 1);
    MulMono(1, rateHz, dt);
    MulMono(i, Q - 1, dt);
  }

  lemma {:induction false} AccGrows(tStart: nat, dt: nat, i: nat, n: nat)
    requires i <= n
    ensures Acc(tStart, dt, i) <= Acc(tStart, dt, n)
    ensures Acc(tStart, dt, i + 1) == Acc(tStart, dt, i) + dt
  {
    MulMono(i, n, dt);
  }

  /** Item `2^32` can overflow it. */
  lemma {:induction false} OverflowAtQ()
    ensures Acc(U64 - 1, Dt(U64 - 1, 1), Q) >= U128
  {
  }

  /** An accumulator that has wrapped still yields the tick: `2^128` is a whole number of
      times `2^64` ticks. */
  lemma {:induction false} WrapKeepsTick(x: nat)
    ensures (x % U128 / Q) % U64 == (x / Q) % U64
  {
    var q, r := x / U128, x % U128;
    assert x == q * U128 + r;
    assert q * U128 == q * (U128 / Q) * Q;
    DivUnique(x, Q, q * (U128 / Q) + r / Q, r % Q);
    assert q * (U128 / Q) == q * (U128 / Q / U64) * U64;
    ModShift(r / Q, q * (U128 / Q / U64), U64);
  }

  /** One addition to a wrapped accumulator. */
  lemma {:induction false} AccStep(tStart: nat, dt: nat, i: nat, wrapped: nat)
    requires wrapped == Acc(tStart, dt, i) % U128
    ensures (wrapped + dt) % U128 == Acc(tStart, dt, i + 1) % U128
    ensures Acc(tStart, dt, i + 1) < U128 <==> Acc(tStart, dt, i) < U128 && wrapped + dt < U128
    ensures ((wrapped + dt) % U128 / Q) % U64 == (Acc(tStart, dt, i + 1) / Q) % U64
  {
    AccGrows(tStart, dt, i, i);
    hide Acc;
    ModLinear(1, Acc(tStart, dt, i), dt, U128);
    WrapKeepsTick(Acc(tStart, dt, i + 1));
  }

  /** The schedule loop on a wrapping accumulator.  Every item gets its tick, cut to a `u64`,
      however often the accumulator wraps.  `fits` says that it never did, so that a build
      that checks overflow completes as well; this is so exactly when the last item's
      accumulator fits. */
  method MakeSchedule(tStart: nat, tscHz: nat, rateHz: nat, n: nat) returns (ticks: seq<nat>, fits: bool)
    requires tStart < U64 && tscHz < U64 && 0 < rateHz < U64
    ensures |ticks| == n && forall i :: 0 <= i < n ==> ticks[i] == Tick(tStart, tscHz, rateHz, i + 1) % U64
    ensures fits <==> Acc(tStart, Dt(tscHz, rateHz), n) < U128
    ensures n < Q ==> fits
  {
    var dtQ32 := tscHz * Q / rateHz;
    assert dtQ32 == Dt(tscHz, rateHz);
    var scheduleQ32 := tStart * Q;
    assert scheduleQ32 == Acc(tStart, dtQ32, 0) == Acc(tStart, dtQ32, 0) % U128;
    ticks, fits := [], true;
    if n < Q {
      NoOverflow(tStart, tscHz, rateHz, n);
    }
    hide Acc, Dt;
    for i := 0 to n
      invariant |ticks| == i && scheduleQ32 == Acc(tStart, dtQ32, i) % U128
      invariant fits <==> Acc(tStart, dtQ32, i) < U128
      invariant forall k :: 0 <= k < i ==> ticks[k] == Tick(tStart, tscHz, rateHz, k + 1) % U64
    {
      AccStep(tStart, dtQ32, i, scheduleQ32);
      var sum := scheduleQ32 + dtQ32;
      fits := fits && sum < U128;
      scheduleQ32 := sum % U128;
      ticks := ticks + [(scheduleQ32 / Q) % U64];
    }
  }
}
