/**
 The frequency ramp of `phys::set_pll_clock`: how a change of the PLL clock is split into steps, and
 what the sequence of programmed clocks looks like.
 */
module Ramp {
  import opened RealMath

  /** The guard of `set_pll_clock`. */
  predicate ValidRequest(current: real, target: real, shift: real) {
    current > 0.0 && target > 0.0 && shift >= 0.0
  }

  /** The requested change in percent of the current clock, rounded to four decimals. */
  function PercentDiff(current: real, target: real): real
    requires current > 0.0
  {
    Round(Abs(target - current) / current * 100.0 * 10000.0) as real / 10000.0
  }

  predicate Stepped(current: real, target: real, shift: real)
    requires current > 0.0
  {
    PercentDiff(current, target) > shift
  }

  /** A zero shift with a change to make divides by zero in the step size. */
  predicate Defined(current: real, target: real, shift: real) {
    ValidRequest(current, target, shift) ==> shift > 0.0 || !Stepped(current, target, shift)
  }

  function StepDirection(current: real, target: real): real {
    if target > current then 1.0 else -1.0
  }

  /** The step size before it is evened out. */
  function FullStep(current: real, target: real, shift: real): real {
    current * shift / 100.0 * StepDirection(current, target)
  }

  function StepCount(current: real, target: real, shift: real): int
    requires ValidRequest(current, target, shift) && Defined(current, target, shift)
  {
    if Stepped(current, target, shift)
    then Ceil(Abs((target - current) / FullStep(current, target, shift)))
    else 1
  }

  lemma StepCountPositive(current: real, target: real, shift: real)
    requires ValidRequest(current, target, shift) && Defined(current, target, shift)
    ensures StepCount(current, target, shift) >= 1
  {
  }

  /** The change is spread evenly over the steps. */
  function StepSize(current: real, target: real, n: int): real
    requires n >= 1
  {
    (target - current) / n as real
  }

  /** The clock programmed by the `i`-th of `n` steps, counted from 1; the last one is the target itself. */
  function ClockAt(current: real, target: real, n: int, i: int): real
    requires n >= 1
  {
    if i == n then target else current + i as real * StepSize(current, target, n)
  }

  function RampClocks(current: real, target: real, shift: real): seq<real>
    requires ValidRequest(current, target, shift) && Defined(current, target, shift)
  {
    var n := StepCount(current, target, shift);
    StepCountPositive(current, target, shift);
    seq(n, i => ClockAt(current, target, n, i + 1))
  }

  lemma StepSizeTimes(current: real, target: real, n: int)
    requires n >= 1
    ensures n as real * StepSize(current, target, n) == target - current
  {
    DivTimes(target - current, n as real);
  }

  lemma StepSizeSign(current: real, target: real, n: int)
    requires n >= 1
    ensures target >= current ==> StepSize(current, target, n) >= 0.0
    ensures target <= current ==> StepSize(current, target, n) <= 0.0
    ensures target != current ==> StepSize(current, target, n) != 0.0
  {
    StepSizeTimes(current, target, n);
    SignOfFactor(n as real, StepSize(current, target, n), target - current);
  }

  lemma SignOfFactor(a: real, b: real, c: real)
    requires a > 0.0 && a * b == c
    ensures c >= 0.0 ==> b >= 0.0
    ensures c <= 0.0 ==> b <= 0.0
    ensures c != 0.0 ==> b != 0.0
  {
  }

  lemma ClockAtLinear(current: real, target: real, n: int, i: int)
    requires 0 <= i <= n && n >= 1
    ensures ClockAt(current, target, n, i) == current + i as real * StepSize(current, target, n)
  {
    StepSizeTimes(current, target, n);
  }

  lemma ClockAtNext(current: real, target: real, n: int, i: int)
    requires 0 <= i < n
    ensures ClockAt(current, target, n, i + 1) - ClockAt(current, target, n, i) == StepSize(current, target, n)
  {
    ClockAtLinear(current, target, n, i);
    ClockAtLinear(current, target, n, i + 1);
    TimesSucc(i, StepSize(current, target, n));
  }

  lemma TimesSucc(i: int, s: real)
    ensures (i + 1) as real * s == i as real * s + s
  {
    var a := i as real;
    assert (i + 1) as real == a + 1.0;
    assert (a + 1.0) * s == a * s + s;
  }

  // ----- shape

  lemma ScaledOrder(s: real, i: int, j: int, n: int)
    requires 0 <= i < j <= n
    ensures s >= 0.0 ==> 0.0 <= i as real * s <= j as real * s <= n as real * s
    ensures s <= 0.0 ==> 0.0 >= i as real * s >= j as real * s >= n as real * s
    ensures s != 0.0 ==> i as real * s != j as real * s
  {
    var a, b, c := i as real, (j - i) as real, (n - j) as real;
    assert j as real * s == a * s + b * s;
    assert n as real * s == a * s + b * s + c * s;
  }

  lemma ClockAtMonotone(current: real, target: real, n: int, i: int, j: int)
    requires 0 <= i < j <= n
    ensures current <= target ==> current <= ClockAt(current, target, n, i) <= ClockAt(current, target, n, j) <= target
    ensures current >= target ==> current >= ClockAt(current, target, n, i) >= ClockAt(current, target, n, j) >= target
    ensures current != target ==> ClockAt(current, target, n, i) != ClockAt(current, target, n, j)
  {
    ClockAtLinear(current, target, n, i);
    ClockAtLinear(current, target, n, j);
    StepSizeTimes(current, target, n);
    StepSizeSign(current, target, n);
    var s := StepSize(current, target, n);
    ScaledOrder(s, i, j, n);
    var x, y, z := i as real * s, j as real * s, n as real * s;
    assert ClockAt(current, target, n, i) == current + x;
    assert ClockAt(current, target, n, j) == current + y;
    assert z == target - current;
  }

  /**
   Every programmed clock lies between the previous one and the target: the ramp is monotone, never
   passes the target and ends on it.
   */
  lemma RampMonotone(current: real, target: real, shift: real, i: int, j: int)
    requires ValidRequest(current, target, shift) && Defined(current, target, shift)
    requires 0 <= i < j < |RampClocks(current, target, shift)|
    ensures var r := RampClocks(current, target, shift);
            && r[|r| - 1] == target
            && (current <= target ==> current <= r[i] <= r[j] <= target)
            && (current >= target ==> current >= r[i] >= r[j] >= target)
            && (current != target ==> r[i] != r[j])
  {
    var n := StepCount(current, target, shift);
    ClockAtMonotone(current, target, n, i + 1, j + 1);
  }

  // ----- the largest change, and the least number of steps

  /** The largest change `shift` allows, in the unit of the clock. */
  function Limit(current: real, shift: real): real {
    current * shift / 100.0
  }

  /** The clock in force when step `i` is programmed. */
  function Before(current: real, clocks: seq<real>, i: int): real
    requires 0 <= i < |clocks|
  {
    if i == 0 then current else clocks[i - 1]
  }

  /** A way from `current` to `target` that never changes the clock by more than `limit` at once. */
  ghost predicate Path(current: real, target: real, clocks: seq<real>, limit: real) {
    && |clocks| > 0
    && clocks[|clocks| - 1] == target
    && forall i :: 0 <= i < |clocks| ==> Near(Before(current, clocks, i), clocks[i], limit)
  }

  ghost predicate Near(a: real, b: real, limit: real) {
    Abs(b - a) <= limit
  }

  lemma NearTransitive(a: real, b: real, c: real, x: real, y: real)
    requires Near(a, b, x) && Near(b, c, y)
    ensures Near(a, c, x + y)
  {
  }

  ghost function Reach(k: nat, limit: real): real {
    if k == 0 then 0.0 else Reach(k - 1, limit) + limit
  }

  lemma ReachIsProduct(k: nat, limit: real)
    ensures Reach(k, limit) == k as real * limit
  {
    if k > 0 {
      ReachIsProduct(k - 1, limit);
      TimesSucc(k - 1, limit);
    }
  }

  lemma PathReach(current: real, clocks: seq<real>, limit: real, k: nat)
    requires 0 < k <= |clocks|
    requires forall i :: 0 <= i < |clocks| ==> Near(Before(current, clocks, i), clocks[i], limit)
    ensures Near(current, clocks[k - 1], Reach(k, limit))
  {
    assert Near(Before(current, clocks, k - 1), clocks[k - 1], limit);
    if k > 1 {
      PathReach(current, clocks, limit, k - 1);
      NearTransitive(current, clocks[k - 2], clocks[k - 1], Reach(k - 1, limit), limit);
    } else {
      assert Reach(0, limit) == 0.0;
    }
  }

  lemma LimitPositive(current: real, shift: real)
    requires current > 0.0 && shift > 0.0
    ensures Limit(current, shift) > 0.0
  {
    assert current * shift > 0.0;
  }

  lemma CancelFactor(m: real, a: real, b: real)
    requires m > 0.0 && m * a <= m * b
    ensures a <= b
  {
  }

  lemma QuotientNegated(change: real, limit: real)
    requires limit > 0.0
    ensures change / -limit == (-change) / limit
  {
    DivTimes(change, -limit);
    DivTimes(-change, limit);
    var q, r := change / -limit, (-change) / limit;
    assert (q - r) * limit == 0.0;
  }

  lemma QuotientSign(change: real, limit: real)
    requires change >= 0.0 && limit > 0.0
    ensures change / limit >= 0.0
  {
    DivMonotone(0.0, change, limit);
  }

  /** In the stepped case the quotient the source takes the ceiling of is the change measured in limits. */
  lemma StepCountIsCeil(current: real, target: real, shift: real)
    requires ValidRequest(current, target, shift) && shift > 0.0 && Stepped(current, target, shift)
    ensures Limit(current, shift) > 0.0
    ensures StepCount(current, target, shift) == Ceil(Abs(target - current) / Limit(current, shift))
  {
    var change, limit := target - current, Limit(current, shift);
    LimitPositive(current, shift);
    var step := FullStep(current, target, shift);
    if target > current {
      assert step == limit;
      QuotientSign(change, limit);
      assert Abs(change / step) == Abs(change) / limit;
    } else {
      assert step == -limit;
      QuotientNegated(change, limit);
      QuotientSign(-change, limit);
      assert Abs(change / step) == Abs(change) / limit;
    }
  }

  lemma QuotientAtMost(a: real, b: real, k: real)
    requires b > 0.0 && a <= k * b
    ensures a / b <= k
  {
    DivTimes(a, b);
    var q := a / b;
    if q > k {
      assert (q - k) * b > 0.0;
    }
  }

  lemma StepWithinLimit(current: real, target: real, limit: real, n: int)
    requires limit > 0.0 && n >= 1 && Abs(target - current) <= n as real * limit
    ensures Abs(StepSize(current, target, n)) <= limit
  {
    StepSizeTimes(current, target, n);
    var s, m := StepSize(current, target, n), n as real;
    assert m * -s == -(m * s);
    CancelFactor(m, s, limit);
    CancelFactor(m, -s, limit);
  }

  lemma StepCountCovers(change: real, limit: real, n: int)
    requires limit > 0.0 && n == Ceil(change / limit)
    ensures change <= n as real * limit
  {
    var q := change / limit;
    DivTimes(change, limit);
    CeilBounds(q);
    MulMonotone(q, n as real, limit);
  }

  lemma EvenStepsArePath(current: real, target: real, n: int, r: seq<real>, limit: real)
    requires limit > 0.0 && n >= 1 && Abs(target - current) <= n as real * limit
    requires |r| == n && forall i :: 0 <= i < n ==> r[i] == ClockAt(current, target, n, i + 1)
    ensures Path(current, target, r, limit)
  {
    StepWithinLimit(current, target, limit, n);
    ClockAtLinear(current, target, n, 0);
    forall i | 0 <= i < |r| ensures Near(Before(current, r, i), r[i], limit) {
      ClockAtNext(current, target, n, i);
      assert Before(current, r, i) == ClockAt(current, target, n, i);
    }
  }

  lemma SteppedRampIsPath(current: real, target: real, shift: real)
    requires ValidRequest(current, target, shift) && shift > 0.0 && Stepped(current, target, shift)
    ensures Path(current, target, RampClocks(current, target, shift), Limit(current, shift))
  {
    var n, limit := StepCount(current, target, shift), Limit(current, shift);
    var r := RampClocks(current, target, shift);
    StepCountIsCeil(current, target, shift);
    StepCountCovers(Abs(target - current), limit, n);
    EvenStepsArePath(current, target, n, r, limit);
  }

  lemma PathBound(current: real, target: real, clocks: seq<real>, limit: real)
    requires limit > 0.0 && Path(current, target, clocks, limit)
    ensures Near(current, target, Reach(|clocks|, limit))
  {
    PathReach(current, clocks, limit, |clocks|);
  }

  lemma CeilAtMost(change: real, limit: real, n: nat)
    requires limit > 0.0 && change <= Reach(n, limit)
    ensures Ceil(change / limit) <= n
  {
    ReachIsProduct(n, limit);
    QuotientAtMost(change, limit, n as real);
    CeilLeast(change / limit, n);
  }

  lemma PathNeedsCeil(current: real, target: real, clocks: seq<real>, limit: real)
    requires limit > 0.0 && Path(current, target, clocks, limit)
    ensures |clocks| >= Ceil(Abs(target - current) / limit)
  {
    PathBound(current, target, clocks, limit);
    CeilAtMost(Abs(target - current), limit, |clocks|);
  }

  /**
   A stepped ramp is a shortest way to the target: it never changes the clock by more than `shift`
   percent of the clock it started from, and every other sequence of changes within that limit is
   at least as long.
   */
  lemma SteppedRampIsShortestPath(current: real, target: real, shift: real, other: seq<real>)
    requires ValidRequest(current, target, shift) && shift > 0.0 && Stepped(current, target, shift)
    ensures Path(current, target, RampClocks(current, target, shift), Limit(current, shift))
    ensures Path(current, target, other, Limit(current, shift)) ==> |other| >= |RampClocks(current, target, shift)|
  {
    SteppedRampIsPath(current, target, shift);
    StepCountIsCeil(current, target, shift);
    if Path(current, target, other, Limit(current, shift)) {
      PathNeedsCeil(current, target, other, Limit(current, shift));
    }
  }

  // ----- the unstepped case

  lemma RoundUpper(x: real, y: real)
    requires Round(x * 10000.0) as real / 10000.0 <= y
    ensures x < y + 0.00005
  {
  }

  lemma UnsteppedChange(current: real, change: real, bound: real)
    requires current > 0.0 && change / current * 100.0 < bound
    ensures change < current * bound / 100.0
  {
    var q := change / current;
    DivTimes(change, current);
    assert (bound - q * 100.0) * current > 0.0;
    assert q * 100.0 * current == change * 100.0;
  }

  /**
   When the change is not stepped the whole of it is made at once, and it is below `shift` percent plus
   half of the fourth decimal the comparison keeps.
   */
  lemma UnsteppedRampBound(current: real, target: real, shift: real)
    requires ValidRequest(current, target, shift) && !Stepped(current, target, shift)
    ensures RampClocks(current, target, shift) == [target]
    ensures Abs(target - current) < Limit(current, shift + 0.00005)
  {
    var change := Abs(target - current);
    var percent := change / current * 100.0;
    assert change / current * 100.0 * 10000.0 == percent * 10000.0;
    RoundUpper(percent, shift);
    UnsteppedChange(current, change, shift + 0.00005);
  }

  /**
   The ramp keeps every change within `shift` percent exactly when it is stepped or the whole change is
   within the limit. The gap is a change just over the limit that rounds down to it.
   */
  lemma RampRespectsShiftIff(current: real, target: real, shift: real)
    requires ValidRequest(current, target, shift) && Defined(current, target, shift)
    ensures Path(current, target, RampClocks(current, target, shift), Limit(current, shift))
       <==> Stepped(current, target, shift) || Abs(target - current) <= Limit(current, shift)
  {
    if Stepped(current, target, shift) {
      SteppedRampIsPath(current, target, shift);
    } else {
      UnsteppedRampBound(current, target, shift);
      assert Before(current, [target], 0) == current;
      assert Near(current, target, Limit(current, shift)) <==> Abs(target - current) <= Limit(current, shift);
    }
  }

  /** A change of 1.00001 percent is made in one step although `shift` is 1 percent. */
  lemma RampExceedsShiftExample()
    ensures ValidRequest(10000.0, 10100.001, 1.0)
    ensures RampClocks(10000.0, 10100.001, 1.0) == [10100.001]
    ensures !Path(10000.0, 10100.001, RampClocks(10000.0, 10100.001, 1.0), Limit(10000.0, 1.0))
  {
    RampRespectsShiftIff(10000.0, 10100.001, 1.0);
  }
}
