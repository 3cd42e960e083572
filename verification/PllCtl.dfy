/**
 The refresh-period adjustment of `pllctl/pllctl.cpp`: a bang-bang loop that changes the PLL clock by
 0.001 percent until the measured vblank interval is within 0.1 microseconds of the wanted one. The
 interval is inversely proportional to the clock.
 */
module PllCtl {
  import opened RealMath

  const TOLERANCE: real := 0.1
  const MAX_ITERATIONS: nat := 1000

  /** 0.001 percent */
  const STEP: real := 0.00001

  /** One change of the clock, by the sign of the difference. */
  function AdjustClock(clock: real, interval: real, wanted: real): real {
    if wanted - interval > 0.0 then clock * (1.0 - STEP) else clock * (1.0 + STEP)
  }

  /** What the change does to the interval. */
  function Adjusted(interval: real, wanted: real): real {
    if wanted - interval > 0.0 then interval / (1.0 - STEP) else interval / (1.0 + STEP)
  }

  predicate InTolerance(interval: real, wanted: real) {
    Abs(interval - wanted) <= TOLERANCE
  }

  /** The interval after `k` changes. */
  function After(interval: real, wanted: real, k: nat): real {
    if k == 0 then interval else Adjusted(After(interval, wanted, k - 1), wanted)
  }

  lemma AdjustKeepsProduct(clock: real, interval: real, wanted: real)
    ensures Adjusted(interval, wanted) * AdjustClock(clock, interval, wanted) == interval * clock
  {
  }

  // ----- no jump over the band

  /** A change from outside the band that ends outside it on the other side. */
  ghost predicate Jumps(v: real, wanted: real) {
    && v > 0.0 && !InTolerance(v, wanted) && !InTolerance(Adjusted(v, wanted), wanted)
    && (v < wanted <==> Adjusted(v, wanted) > wanted)
  }

  /** The lower end of the gap: one change from here ends on the far end of the band. */
  function Low(wanted: real): real {
    (wanted + TOLERANCE) * (1.0 - STEP)
  }

  /** The intervals below the band from which one change jumps over it. */
  predicate InGap(v: real, wanted: real) {
    Low(wanted) < v < wanted - TOLERANCE
  }

  lemma GapIff(wanted: real)
    requires wanted > 0.0
    ensures (exists v :: v > 0.0 && InGap(v, wanted)) <==> wanted > 19999.9
  {
    if wanted > 19999.9 {
      var v := (Low(wanted) + (wanted - TOLERANCE)) / 2.0;
      assert InGap(v, wanted);
    }
  }

  /** No change jumps over the band, exactly for wanted intervals up to 19999.9 microseconds. */
  lemma NoJumpIff(wanted: real)
    requires wanted > 0.0
    ensures (forall v :: !Jumps(v, wanted)) <==> wanted <= 19999.9
  {
    if wanted <= 19999.9 {
      forall v ensures !Jumps(v, wanted) {
        DivTimes(v, 1.0 - STEP);
        DivTimes(v, 1.0 + STEP);
      }
    } else {
      GapIff(wanted);
      var v :| v > 0.0 && InGap(v, wanted);
      JumpsOver(v, wanted);
      assert Jumps(v, wanted);
    }
  }

  lemma JumpsOver(v: real, wanted: real)
    requires v > 0.0 && wanted > 0.0 && InGap(v, wanted)
    ensures Adjusted(v, wanted) > wanted + TOLERANCE && !InTolerance(v, wanted)
  {
    DivTimes(v, 1.0 - STEP);
  }

  // ----- convergence

  /** Outside the band every change brings the interval strictly closer. */
  lemma ErrorShrinks(interval: real, wanted: real)
    requires 0.0 < interval && 0.0 < wanted <= 19999.9 && !InTolerance(interval, wanted)
    ensures var next := Adjusted(interval, wanted);
      next > 0.0 && Abs(next - wanted) < Abs(interval - wanted)
      && (InTolerance(next, wanted) || (interval < wanted <==> next < wanted))
  {
    DivTimes(interval, 1.0 - STEP);
    DivTimes(interval, 1.0 + STEP);
  }

  /** As long as the interval stays below the wanted one, every change divides by `1 - STEP`. */
  lemma {:induction false} Rising(interval: real, wanted: real, k: nat)
    requires 0.0 < interval && forall i: nat :: i < k ==> After(interval, wanted, i) < wanted
    ensures After(interval, wanted, k) > 0.0 && Times(After(interval, wanted, k), Power(1.0 - STEP, k)) == interval
  {
    if k > 0 {
      Rising(interval, wanted, k - 1);
      var a := After(interval, wanted, k - 1);
      assert a < wanted;
      Carried(a, 1.0 - STEP, Power(1.0 - STEP, k - 1));
    }
  }

  /** From the wanted interval up, every change divides by `1 + STEP`. */
  lemma {:induction false} Falling(interval: real, wanted: real, k: nat)
    requires 0.0 < interval && forall i: nat :: i < k ==> After(interval, wanted, i) >= wanted
    ensures After(interval, wanted, k) > 0.0 && Times(After(interval, wanted, k), Power(1.0 + STEP, k)) == interval
  {
    if k > 0 {
      Falling(interval, wanted, k - 1);
      var a := After(interval, wanted, k - 1);
      assert a >= wanted;
      Carried(a, 1.0 + STEP, Power(1.0 + STEP, k - 1));
    }
  }

  lemma Carried(a: real, x: real, p: real)
    requires x > 0.0
    ensures Times(a / x, Times(x, p)) == Times(a, p) && (a > 0.0 ==> a / x > 0.0)
  {
    DivTimes(a, x);
    assert a / x * (x * p) == (a / x * x) * p;
    if a > 0.0 && a / x <= 0.0 {
      MulMonotone(a / x, 0.0, x);
    }
  }

  lemma {:induction false} StaysOutside(interval: real, wanted: real, k: nat)
    requires 0.0 < interval && 0.0 < wanted <= 19999.9
    requires forall i: nat :: i <= k ==> !InTolerance(After(interval, wanted, i), wanted)
    ensures After(interval, wanted, k) > 0.0
    ensures interval < wanted <==> After(interval, wanted, k) < wanted
  {
    if k > 0 {
      StaysOutside(interval, wanted, k - 1);
      assert !InTolerance(After(interval, wanted, k - 1), wanted);
      assert !InTolerance(After(interval, wanted, k), wanted);
      ErrorShrinks(After(interval, wanted, k - 1), wanted);
    }
  }

  /** Some interval up to the iteration limit is in the band. */
  ghost predicate Reaches(interval: real, wanted: real, limit: nat) {
    exists k: nat :: k <= limit && InTolerance(After(interval, wanted, k), wanted)
  }

  /** `limit` changes in one direction can bring the interval to the near end of the band. */
  predicate CanReach(interval: real, wanted: real, limit: nat) {
    && Times(wanted - TOLERANCE, Power(1.0 - STEP, limit)) <= interval
    && interval <= Times(wanted + TOLERANCE, Power(1.0 + STEP, limit))
  }

  lemma {:induction false} FirstInTolerance(interval: real, wanted: real, k: nat) returns (m: nat)
    requires InTolerance(After(interval, wanted, k), wanted)
    ensures m <= k && InTolerance(After(interval, wanted, m), wanted)
    ensures forall i: nat :: i < m ==> !InTolerance(After(interval, wanted, i), wanted)
  {
    if i: nat :| i < k && InTolerance(After(interval, wanted, i), wanted) {
      m := FirstInTolerance(interval, wanted, i);
    } else {
      m := k;
    }
  }

  /** What is at least `a` at power `m` is at least `a` at a later power, when the powers fall. */
  lemma LaterPower(v: real, a: real, x: real, m: nat, n: nat)
    requires v > 0.0 && v >= a && 0.0 < x <= 1.0 && m <= n
    ensures Times(v, Power(x, m)) >= Times(a, Power(x, n))
  {
    PowerBounds(x, m);
    PowerBounds(x, n);
    PowerMonotone(x, m, n);
    TimesOrder(a, v, Power(x, n));
    TimesOrder(Power(x, n), Power(x, m), v);
  }

  lemma LaterRisingPower(v: real, b: real, x: real, m: nat, n: nat)
    requires 0.0 < v <= b && x >= 1.0 && m <= n
    ensures Times(v, Power(x, m)) <= Times(b, Power(x, n))
  {
    PowerBounds(x, m);
    PowerMonotone(x, m, n);
    TimesOrder(v, b, Power(x, m));
    TimesOrder(Power(x, m), Power(x, n), b);
  }

  /** The changes before the first hit of the band all go the same way. */
  lemma SameSide(interval: real, wanted: real, m: nat)
    requires 0.0 < interval && 0.0 < wanted <= 19999.9
    requires forall i: nat :: i < m ==> !InTolerance(After(interval, wanted, i), wanted)
    ensures forall i: nat :: i < m ==> (interval < wanted <==> After(interval, wanted, i) < wanted)
  {
    forall i: nat | i < m ensures interval < wanted <==> After(interval, wanted, i) < wanted {
      StaysOutside(interval, wanted, i);
    }
  }

  lemma HitNeedsReach(interval: real, wanted: real, m: nat, limit: nat)
    requires 0.0 < interval && 0.0 < wanted <= 19999.9 && m <= limit && InTolerance(After(interval, wanted, m), wanted)
    requires forall i: nat :: i < m ==> !InTolerance(After(interval, wanted, i), wanted)
    ensures CanReach(interval, wanted, limit)
  {
    var hit := After(interval, wanted, m);
    SameSide(interval, wanted, m);
    assert Power(1.0 - STEP, 0) == 1.0 == Power(1.0 + STEP, 0);
    if interval < wanted {
      Rising(interval, wanted, m);
      LaterPower(hit, wanted - TOLERANCE, 1.0 - STEP, m, limit);
      LaterRisingPower(interval, wanted + TOLERANCE, 1.0 + STEP, 0, limit);
    } else {
      Falling(interval, wanted, m);
      LaterPower(interval, wanted - TOLERANCE, 1.0 - STEP, 0, limit);
      LaterRisingPower(hit, wanted + TOLERANCE, 1.0 + STEP, m, limit);
    }
  }

  lemma ReachesNeedsReach(interval: real, wanted: real, limit: nat)
    requires 0.0 < interval && 0.0 < wanted <= 19999.9 && Reaches(interval, wanted, limit)
    ensures CanReach(interval, wanted, limit)
  {
    var k: nat :| k <= limit && InTolerance(After(interval, wanted, k), wanted);
    var m := FirstInTolerance(interval, wanted, k);
    HitNeedsReach(interval, wanted, m, limit);
  }

  lemma LastInTolerance(interval: real, wanted: real, limit: nat)
    requires 0.0 < interval && 0.0 < wanted <= 19999.9 && CanReach(interval, wanted, limit)
    requires forall i: nat :: i < limit ==> !InTolerance(After(interval, wanted, i), wanted)
    ensures InTolerance(After(interval, wanted, limit), wanted)
  {
    var last := After(interval, wanted, limit);
    SameSide(interval, wanted, limit);
    if interval < wanted {
      Rising(interval, wanted, limit);
      PowerBounds(1.0 - STEP, limit);
      TimesOrder(wanted - TOLERANCE, last, Power(1.0 - STEP, limit));
    } else {
      Falling(interval, wanted, limit);
      PowerBounds(1.0 + STEP, limit);
      TimesOrder(last, wanted + TOLERANCE, Power(1.0 + STEP, limit));
    }
    if !InTolerance(last, wanted) {
      StaysOutside(interval, wanted, limit);
    }
  }

  lemma ReachSuffices(interval: real, wanted: real, limit: nat)
    requires 0.0 < interval && 0.0 < wanted <= 19999.9 && CanReach(interval, wanted, limit)
    ensures Reaches(interval, wanted, limit)
  {
    if forall i: nat :: i < limit ==> !InTolerance(After(interval, wanted, i), wanted) {
      LastInTolerance(interval, wanted, limit);
    }
  }

  /**
   Up to 19999.9 microseconds the loop ends in the band exactly when changes in one direction can bring the
   start to the near end of it.
   */
  lemma ConvergesIff(interval: real, wanted: real, limit: nat)
    requires 0.0 < interval && 0.0 < wanted <= 19999.9
    ensures Reaches(interval, wanted, limit) <==> CanReach(interval, wanted, limit)
  {
    if CanReach(interval, wanted, limit) {
      ReachSuffices(interval, wanted, limit);
    }
    if Reaches(interval, wanted, limit) {
      ReachesNeedsReach(interval, wanted, limit);
    }
  }

  /** Within one percent of the wanted interval. */
  predicate WithinReach(interval: real, wanted: real) {
    wanted <= interval * 1.01 && interval <= wanted * 1.01
  }

  /** A thousand changes are enough for one percent. */
  lemma PercentCanBeReached(interval: real, wanted: real)
    requires wanted > 0.0 && WithinReach(interval, wanted)
    ensures CanReach(interval, wanted, MAX_ITERATIONS)
  {
    Shrinks(MAX_ITERATIONS);
    Bernoulli(-STEP, MAX_ITERATIONS);
    PowerBounds(1.0 - STEP, MAX_ITERATIONS);
    TimesOrder(1.01, Power(1.0 + STEP, MAX_ITERATIONS), wanted + TOLERANCE);
    TimesOrder(wanted - TOLERANCE, wanted, Power(1.0 - STEP, MAX_ITERATIONS));
    TimesOrder(Power(1.0 - STEP, MAX_ITERATIONS), 1.0 / 1.01, wanted);
  }

  /** Dividing by `1 - STEP` grows at least as fast as multiplying by `1 + STEP`. */
  lemma Shrinks(n: nat)
    ensures Power(1.0 - STEP, n) <= 1.0 / (1.0 + n as real * STEP)
  {
    InversePowers(n);
    Bernoulli(-STEP, n);
    PowerBounds(1.0 - STEP, n);
    var p, b := Power(1.0 - STEP, n), 1.0 + n as real * STEP;
    MulMonotone(b, Power(1.0 + STEP, n), p);
    DivTimes(1.0, b);
    FactorOrder(1.0 / b, p, b);
  }

  lemma Rearranged(x: real, p: real, y: real, q: real)
    ensures Times(Times(x, p), Times(y, q)) == Times(Times(x, y), Times(p, q))
    ensures p > 0.0 && q > 0.0 ==> Times(p, q) > 0.0
  {
    var pq := p * q;
    assert (x * p) * (y * q) == (x * y) * pq;
  }

  lemma {:induction false} InversePowers(n: nat)
    ensures Times(Power(1.0 - STEP, n), Power(1.0 + STEP, n)) <= 1.0
  {
    if n > 0 {
      InversePowers(n - 1);
      var p, q := Power(1.0 - STEP, n - 1), Power(1.0 + STEP, n - 1);
      PowerBounds(1.0 - STEP, n - 1);
      PowerBounds(1.0 + STEP, n - 1);
      Rearranged(1.0 - STEP, p, 1.0 + STEP, q);
      assert Times(1.0 - STEP, 1.0 + STEP) <= 1.0;
      MulMonotone(Times(1.0 - STEP, 1.0 + STEP), 1.0, Times(p, q));
    }
  }

  /**
   Within one percent of a wanted interval up to 19999.9 microseconds, one of the first thousand changes
   ends in the band.
   */
  lemma Converges(interval: real, wanted: real)
    requires 0.0 < interval && 0.0 < wanted <= 19999.9 && wanted <= interval * 1.01 && interval <= wanted * 1.01
    ensures Reaches(interval, wanted, MAX_ITERATIONS)
  {
    PercentCanBeReached(interval, wanted);
    ConvergesIff(interval, wanted, MAX_ITERATIONS);
  }

  // ----- where it does not converge

  /** The start from which the `n`-th change upwards ends at `v`. */
  function Before(v: real, n: nat): real {
    Times(v, Power(1.0 - STEP, n))
  }

  lemma {:induction false} Climbs(v: real, wanted: real, n: nat, i: nat)
    requires 0.0 < v < wanted && i <= n
    ensures After(Before(v, n), wanted, i) == Before(v, n - i) && 0.0 < Before(v, n - i) <= v
    decreases i
  {
    PowerBounds(1.0 - STEP, n - i);
    TimesOrder(Power(1.0 - STEP, n - i), 1.0, v);
    TimesOrder(0.0, v, Power(1.0 - STEP, n - i));
    if i > 0 {
      Climbs(v, wanted, n, i - 1);
      Undone(v, 1.0 - STEP, Power(1.0 - STEP, n - i));
    }
  }

  lemma Undone(v: real, x: real, p: real)
    requires x > 0.0
    ensures Times(v, Times(x, p)) / x == Times(v, p)
  {
    assert v * (x * p) == v * p * x;
    DivTimes(v * p * x, x);
    var q := v * p * x / x;
    assert (q - v * p) * x == 0.0;
  }

  lemma {:induction false} AfterAfter(interval: real, wanted: real, m: nat, k: nat)
    ensures After(interval, wanted, m + k) == After(After(interval, wanted, m), wanted, k)
  {
    if k > 0 {
      AfterAfter(interval, wanted, m, k - 1);
    }
  }

  /** A start whose last change jumps over the band. */
  lemma MissesAtLimit(wanted: real, limit: nat) returns (start: real)
    requires wanted > 19999.9 && limit > 0
    ensures start > 0.0 && CanReach(start, wanted, limit) && !Reaches(start, wanted, limit)
  {
    GapIff(wanted);
    var v :| v > 0.0 && InGap(v, wanted);
    start := Before(v, limit - 1);
    JumpsOver(v, wanted);
    forall i: nat | i <= limit ensures !InTolerance(After(start, wanted, i), wanted) {
      if i < limit {
        Climbs(v, wanted, limit - 1, i);
      } else {
        Climbs(v, wanted, limit - 1, limit - 1);
        assert Power(1.0 - STEP, 0) == 1.0;
      }
    }
    Climbs(v, wanted, limit - 1, 0);
    PowerBounds(1.0 - STEP, limit - 1);
    PowerBounds(1.0 + STEP, limit);
    MulMonotone(1.0, Power(1.0 + STEP, limit), wanted + TOLERANCE);
    JumpStart(wanted, v, Power(1.0 - STEP, limit - 1));
  }

  lemma JumpStart(wanted: real, v: real, p: real)
    requires wanted > TOLERANCE && InGap(v, wanted) && p > 0.0
    ensures Times(wanted - TOLERANCE, Times(1.0 - STEP, p)) <= Times(v, p)
  {
    var a := (wanted - TOLERANCE) * (1.0 - STEP);
    assert a <= v;
    MulMonotone(a, v, p);
    assert (wanted - TOLERANCE) * ((1.0 - STEP) * p) == a * p;
  }

  /**
   Every start that can reach the band does so in the iterations allowed, exactly for wanted intervals up to
   19999.9 microseconds.
   */
  lemma AllReachableConvergeIff(wanted: real)
    requires wanted > 0.0
    ensures (forall v :: v > 0.0 && CanReach(v, wanted, MAX_ITERATIONS) ==> Reaches(v, wanted, MAX_ITERATIONS))
       <==> wanted <= 19999.9
  {
    if wanted <= 19999.9 {
      forall v | v > 0.0 && CanReach(v, wanted, MAX_ITERATIONS) ensures Reaches(v, wanted, MAX_ITERATIONS) {
        ConvergesIff(v, wanted, MAX_ITERATIONS);
      }
    } else {
      var start := MissesAtLimit(wanted, MAX_ITERATIONS);
    }
  }

  // ----- swinging around the band

  /** A change each way divides by this. */
  const ROUND: real := (1.0 - STEP) * (1.0 + STEP)

  lemma RoundTrip(v: real, wanted: real)
    requires v > 0.0 && wanted > 0.0 && InGap(v, wanted)
    ensures var back := Adjusted(Adjusted(v, wanted), wanted);
      Times(back, ROUND) == v && back >= v
  {
    JumpsOver(v, wanted);
    DivTimes(v, 1.0 - STEP);
    var u := v / (1.0 - STEP);
    DivTimes(u, 1.0 + STEP);
    var w := u / (1.0 + STEP);
    assert w * ROUND == w * (1.0 + STEP) * (1.0 - STEP) == v;
  }

  lemma Regrouped(a: real, x: real, p: real)
    ensures Times(a, Times(x, p)) == Times(Times(a, x), p)
  {
  }

  /** After `j` round trips that all start in the gap. */
  lemma RoundTripNext(v: real, wanted: real, j: nat)
    requires j > 0 && wanted > 0.0
    requires var b := After(v, wanted, 2 * j - 2); b > 0.0 && InGap(b, wanted) && Times(b, Power(ROUND, j - 1)) == v
    ensures var a, b := After(v, wanted, 2 * j), After(v, wanted, 2 * j - 2);
      Times(a, ROUND) == b && a >= b && Times(a, Power(ROUND, j)) == v
  {
    var b := After(v, wanted, 2 * j - 2);
    RoundTrip(b, wanted);
    assert After(v, wanted, 2 * j - 1) == Adjusted(b, wanted);
    Regrouped(After(v, wanted, 2 * j), ROUND, Power(ROUND, j - 1));
  }

  /**
   From the gap the interval swings around the band until the drift of the round trips has carried it out of
   the gap.
   */
  lemma {:induction false} Swings(v: real, wanted: real, m: nat, j: nat)
    requires v > 0.0 && wanted > TOLERANCE && InGap(v, wanted) && j <= m
    requires v < Times(wanted - TOLERANCE, Power(ROUND, m))
    ensures var a := After(v, wanted, 2 * j); a > 0.0 && InGap(a, wanted) && Times(a, Power(ROUND, j)) == v
    decreases j
  {
    if j == 0 {
      assert Power(ROUND, 0) == 1.0;
    } else {
      Swings(v, wanted, m, j - 1);
      RoundTripNext(v, wanted, j);
      PowerBounds(ROUND, j);
      PowerMonotone(ROUND, j, m);
      TimesOrder(Power(ROUND, m), Power(ROUND, j), wanted - TOLERANCE);
      TimesOrder(After(v, wanted, 2 * j), wanted - TOLERANCE, Power(ROUND, j));
    }
  }

  /** Without enough drift no interval up to the limit is in the band. */
  lemma SwingsPast(v: real, wanted: real, limit: nat)
    requires v > 0.0 && wanted > TOLERANCE && InGap(v, wanted)
    requires v < Times(wanted - TOLERANCE, Power(ROUND, limit / 2))
    ensures !Reaches(v, wanted, limit)
  {
    forall k: nat | k <= limit ensures !InTolerance(After(v, wanted, k), wanted) {
      var j := k / 2;
      Swings(v, wanted, limit / 2, j);
      JumpsOver(After(v, wanted, 2 * j), wanted);
      assert k == 2 * j || k == 2 * j + 1;
    }
  }

  lemma {:induction false} FirstOutOfGap(v: real, wanted: real, n: nat) returns (j: nat)
    requires wanted > TOLERANCE && InGap(v, wanted) && v >= Times(wanted - TOLERANCE, Power(ROUND, n))
    ensures 0 < j <= n && v >= Times(wanted - TOLERANCE, Power(ROUND, j))
    ensures v < Times(wanted - TOLERANCE, Power(ROUND, j - 1))
  {
    assert Power(ROUND, 0) == 1.0;
    if v >= Times(wanted - TOLERANCE, Power(ROUND, n - 1)) {
      j := FirstOutOfGap(v, wanted, n - 1);
    } else {
      j := n;
    }
  }

  /**
   With enough drift the interval leaves the gap upwards, into the band unless a single round trip is wider
   than it.
   */
  lemma DriftsIn(v: real, wanted: real, limit: nat)
    requires v > 0.0 && TOLERANCE < wanted <= 1000000000.0 && InGap(v, wanted)
    requires v >= Times(wanted - TOLERANCE, Power(ROUND, limit / 2))
    ensures Reaches(v, wanted, limit)
  {
    var j := FirstOutOfGap(v, wanted, limit / 2);
    Swings(v, wanted, j - 1, j - 1);
    RoundTripNext(v, wanted, j);
    var a := After(v, wanted, 2 * j);
    PowerBounds(ROUND, j);
    TimesOrder(wanted - TOLERANCE, a, Power(ROUND, j));
    NarrowRoundTrip(a, After(v, wanted, 2 * j - 2), wanted);
    assert InTolerance(After(v, wanted, 2 * j), wanted);
  }

  lemma NarrowRoundTrip(a: real, b: real, wanted: real)
    requires Times(a, ROUND) == b && b < wanted - TOLERANCE && 0.0 < wanted <= 1000000000.0
    ensures a < wanted + TOLERANCE
  {
  }

  /**
   From the gap the loop ends in the band exactly when its round trips drift far enough in the iterations
   that are left.
   */
  lemma SwingsIff(v: real, wanted: real, limit: nat)
    requires v > 0.0 && TOLERANCE < wanted <= 1000000000.0 && InGap(v, wanted)
    ensures Reaches(v, wanted, limit) <==> v >= Times(wanted - TOLERANCE, Power(ROUND, limit / 2))
  {
    if v >= Times(wanted - TOLERANCE, Power(ROUND, limit / 2)) {
      DriftsIn(v, wanted, limit);
    } else {
      SwingsPast(v, wanted, limit);
    }
  }

  // ----- from any start above 19999.9

  /** Gap and band together: every start comes past here, and then stays around the band. */
  predicate InWindow(v: real, wanted: real) {
    Low(wanted) < v <= wanted + TOLERANCE
  }

  /** The first interval in the window is number `m`. */
  ghost predicate Lands(v: real, wanted: real, m: nat) {
    && InWindow(After(v, wanted, m), wanted)
    && forall i: nat :: i < m ==> !InWindow(After(v, wanted, i), wanted)
  }

  /** A hit after the first `m` changes is one after as many fewer from there. */
  lemma HitFrom(v: real, wanted: real, m: nat, k: nat)
    ensures InTolerance(After(v, wanted, m + k), wanted) <==> InTolerance(After(After(v, wanted, m), wanted, k), wanted)
  {
    AfterAfter(v, wanted, m, k);
  }

  lemma ReachesAfter(v: real, wanted: real, limit: nat, m: nat)
    requires m <= limit && forall i: nat :: i < m ==> !InTolerance(After(v, wanted, i), wanted)
    ensures Reaches(v, wanted, limit) <==> Reaches(After(v, wanted, m), wanted, limit - m)
  {
    if k: nat :| k <= limit && InTolerance(After(v, wanted, k), wanted) {
      assert !(k < m);
      HitFrom(v, wanted, m, k - m);
    }
    if k: nat :| k <= limit - m && InTolerance(After(After(v, wanted, m), wanted, k), wanted) {
      HitFrom(v, wanted, m, k);
    }
  }

  /** In the window the drift decides; inside the band it has nothing to do. */
  lemma WindowIff(v: real, wanted: real, limit: nat)
    requires 19999.9 < wanted <= 1000000000.0 && InWindow(v, wanted)
    ensures Reaches(v, wanted, limit) <==> v >= Times(wanted - TOLERANCE, Power(ROUND, limit / 2))
  {
    if InGap(v, wanted) {
      SwingsIff(v, wanted, limit);
    } else {
      assert InTolerance(After(v, wanted, 0), wanted);
      PowerBounds(ROUND, limit / 2);
      TimesOrder(Power(ROUND, limit / 2), 1.0, wanted - TOLERANCE);
    }
  }

  lemma LandedIff(v: real, wanted: real, limit: nat, m: nat)
    requires 19999.9 < wanted <= 1000000000.0 && Lands(v, wanted, m)
    ensures Reaches(v, wanted, limit)
       <==> m <= limit && After(v, wanted, m) >= Times(wanted - TOLERANCE, Power(ROUND, (limit - m) / 2))
  {
    forall i: nat | i < m ensures !InTolerance(After(v, wanted, i), wanted) {
      assert !InWindow(After(v, wanted, i), wanted);
    }
    if m <= limit {
      ReachesAfter(v, wanted, limit, m);
      WindowIff(After(v, wanted, m), wanted, limit - m);
    }
  }

  /** From below, `m` changes upwards are what it takes to get past the lower end of the window. */
  ghost predicate LandsRising(v: real, wanted: real, m: nat) {
    && Times(Low(wanted), Power(1.0 - STEP, m)) < v
    && v <= if m == 0 then wanted + TOLERANCE else Times(Low(wanted), Power(1.0 - STEP, m - 1))
  }

  /** From above, `m` changes downwards are what it takes to get to the far end of the band. */
  ghost predicate LandsFalling(v: real, wanted: real, m: nat) {
    m > 0 && Times(wanted + TOLERANCE, Power(1.0 + STEP, m - 1)) < v <= Times(wanted + TOLERANCE, Power(1.0 + STEP, m))
  }

  lemma {:induction false} BelowWindow(v: real, wanted: real, m: nat, i: nat)
    requires 19999.9 < wanted && v > 0.0 && m > 0 && LandsRising(v, wanted, m) && i < m
    ensures forall j: nat :: j <= i ==> After(v, wanted, j) <= Low(wanted)
  {
    if i > 0 {
      BelowWindow(v, wanted, m, i - 1);
    }
    Rising(v, wanted, i);
    PowerBounds(1.0 - STEP, i);
    PowerMonotone(1.0 - STEP, i, m - 1);
    TimesOrder(Power(1.0 - STEP, m - 1), Power(1.0 - STEP, i), Low(wanted));
    TimesOrder(After(v, wanted, i), Low(wanted), Power(1.0 - STEP, i));
  }

  lemma RisingLands(v: real, wanted: real, m: nat)
    requires 19999.9 < wanted && v > 0.0 && LandsRising(v, wanted, m)
    ensures Lands(v, wanted, m) && Times(After(v, wanted, m), Power(1.0 - STEP, m)) == v
  {
    assert Power(1.0 - STEP, 0) == 1.0;
    if m > 0 {
      BelowWindow(v, wanted, m, m - 1);
      Rising(v, wanted, m);
      PowerBounds(1.0 - STEP, m);
      TimesOrder(Low(wanted), After(v, wanted, m), Power(1.0 - STEP, m));
      RisesToWindow(After(v, wanted, m - 1), wanted);
    }
  }

  lemma RisesToWindow(v: real, wanted: real)
    requires wanted > 0.0 && v <= Low(wanted) < wanted
    ensures Adjusted(v, wanted) <= wanted + TOLERANCE
  {
    DivTimes(v, 1.0 - STEP);
  }

  lemma {:induction false} AboveWindow(v: real, wanted: real, m: nat, i: nat)
    requires 19999.9 < wanted && v > 0.0 && LandsFalling(v, wanted, m) && i < m
    ensures forall j: nat :: j <= i ==> After(v, wanted, j) > wanted + TOLERANCE
  {
    if i > 0 {
      AboveWindow(v, wanted, m, i - 1);
    }
    Falling(v, wanted, i);
    PowerBounds(1.0 + STEP, i);
    PowerMonotone(1.0 + STEP, i, m - 1);
    TimesOrder(Power(1.0 + STEP, i), Power(1.0 + STEP, m - 1), wanted + TOLERANCE);
    TimesOrder(wanted + TOLERANCE, After(v, wanted, i), Power(1.0 + STEP, i));
  }

  lemma FallingLands(v: real, wanted: real, m: nat)
    requires 19999.9 < wanted && v > 0.0 && LandsFalling(v, wanted, m)
    ensures Lands(v, wanted, m) && Times(After(v, wanted, m), Power(1.0 + STEP, m)) == v
  {
    AboveWindow(v, wanted, m, m - 1);
    Falling(v, wanted, m);
    PowerBounds(1.0 + STEP, m);
    TimesOrder(After(v, wanted, m), wanted + TOLERANCE, Power(1.0 + STEP, m));
    FallsToWindow(After(v, wanted, m - 1), wanted);
  }

  lemma FallsToWindow(v: real, wanted: real)
    requires wanted > 0.0 && v > wanted + TOLERANCE
    ensures Adjusted(v, wanted) > Low(wanted)
  {
    DivTimes(v, 1.0 + STEP);
  }

  /**
   Above 19999.9 microseconds, from any start: the loop ends in the band exactly when the drift of the round
   trips that are left after getting there is enough.
   */
  lemma ReachesIff(v: real, wanted: real, limit: nat, m: nat)
    requires 19999.9 < wanted <= 1000000000.0 && v > 0.0
    ensures LandsRising(v, wanted, m) ==>
      (Reaches(v, wanted, limit) <==>
        m <= limit && v >= Times(Times(wanted - TOLERANCE, Power(ROUND, (limit - m) / 2)), Power(1.0 - STEP, m)))
    ensures LandsFalling(v, wanted, m) ==>
      (Reaches(v, wanted, limit) <==>
        m <= limit && v >= Times(Times(wanted - TOLERANCE, Power(ROUND, (limit - m) / 2)), Power(1.0 + STEP, m)))
  {
    PowerBounds(1.0 - STEP, m);
    PowerBounds(1.0 + STEP, m);
    if LandsRising(v, wanted, m) {
      RisingLands(v, wanted, m);
      LandedIff(v, wanted, limit, m);
      if m <= limit {
        TimesOrder(Times(wanted - TOLERANCE, Power(ROUND, (limit - m) / 2)), After(v, wanted, m), Power(1.0 - STEP, m));
      }
    }
    if LandsFalling(v, wanted, m) {
      FallingLands(v, wanted, m);
      LandedIff(v, wanted, limit, m);
      if m <= limit {
        TimesOrder(Times(wanted - TOLERANCE, Power(ROUND, (limit - m) / 2)), After(v, wanted, m), Power(1.0 + STEP, m));
      }
    }
  }

  lemma {:induction false} FirstRising(v: real, wanted: real, n: nat) returns (m: nat)
    requires v <= wanted + TOLERANCE && Times(Low(wanted), Power(1.0 - STEP, n)) < v
    ensures LandsRising(v, wanted, m)
  {
    if n > 0 && Times(Low(wanted), Power(1.0 - STEP, n - 1)) < v {
      m := FirstRising(v, wanted, n - 1);
    } else {
      m := n;
    }
  }

  lemma {:induction false} FirstFalling(v: real, wanted: real, n: nat) returns (m: nat)
    requires v > wanted + TOLERANCE && v <= Times(wanted + TOLERANCE, Power(1.0 + STEP, n))
    ensures LandsFalling(v, wanted, m)
  {
    assert Power(1.0 + STEP, 0) == 1.0;
    if v <= Times(wanted + TOLERANCE, Power(1.0 + STEP, n - 1)) {
      m := FirstFalling(v, wanted, n - 1);
    } else {
      m := n;
    }
  }

  /** As many changes as make up the factor `y / x`. */
  lemma EnoughChanges(x: real, y: real) returns (n: nat)
    requires x > 0.0 && y > 0.0
    ensures y <= Times(x, Power(1.0 + STEP, n)) && Times(y, Power(1.0 - STEP, n)) < x
  {
    n := (y / x / STEP).Floor + 1;
    var growth := 1.0 + n as real * STEP;
    DivTimes(y / x, STEP);
    assert growth > y / x;
    Outgrown(x, y, growth);
    Bernoulli(-STEP, n);
    TimesOrder(growth, Power(1.0 + STEP, n), x);
    Shrinks(n);
    TimesOrder(Power(1.0 - STEP, n), 1.0 / growth, y);
  }

  lemma Outgrown(x: real, y: real, growth: real)
    requires x > 0.0 && y > 0.0 && growth > y / x
    ensures growth > 0.0 && y < Times(growth, x) && Times(1.0 / growth, y) < x
  {
    DivTimes(y, x);
    FactorOrder(y / x, growth, x);
    DivTimes(1.0, growth);
    assert 1.0 / growth * y * growth == y;
    FactorOrder(1.0 / growth * y, x, growth);
  }

  /** Every start is of one of the two kinds. */
  lemma EveryStartLands(v: real, wanted: real) returns (m: nat)
    requires wanted > 0.0 && v > 0.0
    ensures LandsRising(v, wanted, m) || LandsFalling(v, wanted, m)
  {
    if v <= wanted + TOLERANCE {
      var n := EnoughChanges(v, Low(wanted));
      m := FirstRising(v, wanted, n);
    } else {
      var n := EnoughChanges(wanted + TOLERANCE, v);
      m := FirstFalling(v, wanted, n);
    }
  }

  lemma DriftBound(d: real, m: nat)
    requires d == m as real * (STEP * STEP)
    ensures Power(ROUND, m) >= 1.0 - d
  {
    assert ROUND == 1.0 - STEP * STEP;
    Bernoulli(STEP * STEP, m);
  }

  lemma SomeInGap(wanted: real, d: real, m: nat) returns (v: real)
    requires wanted > TOLERANCE && d == m as real * (STEP * STEP) <= 1.0
    requires Low(wanted) < (wanted - TOLERANCE) * (1.0 - d)
    ensures v > 0.0 && InGap(v, wanted) && v < Times(wanted - TOLERANCE, Power(ROUND, m))
  {
    var low, high := Low(wanted), (wanted - TOLERANCE) * (1.0 - d);
    v := (low + high) / 2.0;
    DriftBound(d, m);
    TimesOrder(1.0 - d, Power(ROUND, m), wanted - TOLERANCE);
    TimesOrder(1.0 - d, 1.0, wanted - TOLERANCE);
  }

  /**
   For every wanted interval from 20101 microseconds there is a start next to the band from which the loop
   swings around it until the limit.
   */
  lemma SwingsForever(wanted: real) returns (v: real)
    requires wanted >= 20101.0
    ensures v > 0.0 && InGap(v, wanted) && !Reaches(v, wanted, MAX_ITERATIONS)
  {
    v := SomeInGap(wanted, 500.0 * (STEP * STEP), 500);
    SwingsPast(v, wanted, MAX_ITERATIONS);
  }

  const CLIMB: nat := 989

  /**
   For every wanted interval from 20001 microseconds there is a start within one percent from which the loop
   ends outside the band.
   */
  lemma FailsWithinPercent(wanted: real) returns (start: real)
    requires wanted >= 20001.0
    ensures start > 0.0 && WithinReach(start, wanted) && !Reaches(start, wanted, MAX_ITERATIONS)
  {
    var v := SomeInGap(wanted, 5.0 * (STEP * STEP), 5);
    start := Before(v, CLIMB);
    SwingsPast(v, wanted, MAX_ITERATIONS - CLIMB);
    forall k: nat | k <= MAX_ITERATIONS ensures !InTolerance(After(start, wanted, k), wanted) {
      if k <= CLIMB {
        Climbs(v, wanted, CLIMB, k);
      } else {
        Climbs(v, wanted, CLIMB, CLIMB);
        assert Power(1.0 - STEP, 0) == 1.0;
        AfterAfter(start, wanted, CLIMB, k - CLIMB);
      }
    }
    Climbs(v, wanted, CLIMB, 0);
    Bernoulli(STEP, CLIMB);
    MulMonotone(1.0 - CLIMB as real * STEP, Power(1.0 - STEP, CLIMB), v);
  }

  /** One such start: a tenth of a microsecond below 20200. */
  lemma OscillatesExample()
    ensures WithinReach(20199.8985, 20200.0) && !Reaches(20199.8985, 20200.0, MAX_ITERATIONS)
  {
    assert ROUND == 1.0 - STEP * STEP;
    Bernoulli(STEP * STEP, 500);
    MulMonotone(1.0 - 500.0 * (STEP * STEP), Power(ROUND, 500), 20199.9);
    SwingsPast(20199.8985, 20200.0, MAX_ITERATIONS);
  }

  // ----- the loop

  /** The interval the display shows at a clock. */
  function MeasuredInterval(product: real, clock: real): real
    requires clock != 0.0
  {
    product / clock
  }

  /** The measured interval after a change of the clock. */
  lemma Measured(clock: real, interval: real, wanted: real, product: real)
    requires clock > 0.0 && interval > 0.0 && Times(interval, clock) == product
    ensures var c, i := AdjustClock(clock, interval, wanted), Adjusted(interval, wanted);
      c > 0.0 && i > 0.0 && MeasuredInterval(product, c) == i && Times(i, c) == product
  {
    var c, i := AdjustClock(clock, interval, wanted), Adjusted(interval, wanted);
    AdjustKeepsProduct(clock, interval, wanted);
    QuotientOfProduct(i, c);
    DivTimes(interval, 1.0 - STEP);
    DivTimes(interval, 1.0 + STEP);
  }

  /**
   The loop of `main`. `clear` is how often its test finds the termination flag clear. The product of
   interval and clock never changes; unless it is interrupted the loop ends in the band or at the limit,
   and for a wanted interval up to 19999.9 microseconds it ends in the band exactly from the starts that
   can reach it.
   */
  method AdjustRefresh(clock0: real, interval0: real, wanted: real, clear: nat)
      returns (clock: real, interval: real, iteration: nat)
    requires clock0 > 0.0 && interval0 > 0.0 && wanted > 0.0
    ensures Times(interval, clock) == Times(interval0, clock0)
    ensures iteration <= MAX_ITERATIONS && interval == After(interval0, wanted, iteration)
    ensures forall k: nat :: k < iteration ==> !InTolerance(After(interval0, wanted, k), wanted)
    ensures iteration < clear ==> InTolerance(interval, wanted) || iteration == MAX_ITERATIONS
    ensures clear > MAX_ITERATIONS ==> (InTolerance(interval, wanted) <==> Reaches(interval0, wanted, MAX_ITERATIONS))
    ensures clear > MAX_ITERATIONS && wanted <= 19999.9 ==>
      (InTolerance(interval, wanted) <==> CanReach(interval0, wanted, MAX_ITERATIONS))
  {
    clock, interval, iteration := clock0, interval0, 0;
    var product := Times(interval0, clock0);
    while Abs(interval - wanted) > TOLERANCE && iteration < MAX_ITERATIONS && iteration < clear
      invariant clock > 0.0 && interval > 0.0 && Times(interval, clock) == product
      invariant iteration <= MAX_ITERATIONS && interval == After(interval0, wanted, iteration)
      invariant forall k: nat :: k < iteration ==> !InTolerance(After(interval0, wanted, k), wanted)
      decreases MAX_ITERATIONS - iteration
    {
      iteration := iteration + 1;
      var difference := wanted - interval;
      Measured(clock, interval, wanted, product);
      ghost var next := AdjustClock(clock, interval, wanted);
      if difference > 0.0 {
        clock := clock * (1.0 - STEP);
      } else {
        clock := clock * (1.0 + STEP);
      }
      assert clock == next;
      interval := MeasuredInterval(product, clock);
    }
    if wanted <= 19999.9 {
      ConvergesIff(interval0, wanted, MAX_ITERATIONS);
    }
  }

  lemma QuotientOfProduct(a: real, b: real)
    requires b != 0.0
    ensures a * b / b == a
  {
  }
}
