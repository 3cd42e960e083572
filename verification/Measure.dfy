/**
 The phase measurement of `swgenlock/secondary.cpp` and `find_avg` of `swgenlock/sync_common.cpp`.
 Timestamps are microseconds.
 */
module Measure {
  import opened RealMath

  const LONG_MAX: int := 0x7FFF_FFFF_FFFF_FFFF

  /** Timestamps whose differences fit a `long`. */
  ghost predicate Stamps(va: seq<int>) {
    forall i :: 0 <= i < |va| ==> 0 <= va[i] < LONG_MAX
  }

  // ----- find_minimum_delta

  function Distance(primary: seq<int>, secondary: seq<int>, i: int, j: int): nat
    requires 0 <= i < |secondary| && 0 <= j < |primary|
  {
    AbsInt(secondary[i] - primary[j])
  }

  predicate Later(a: int, b: int, i: int, j: int) {
    a > i || (a == i && b > j)
  }

  /** The closest pair; among equally close ones the latest secondary stamp, then the latest primary stamp. */
  ghost predicate Nearest(primary: seq<int>, secondary: seq<int>, i: int, j: int) {
    && 0 <= i < |secondary| && 0 <= j < |primary|
    && forall a, b :: 0 <= a < |secondary| && 0 <= b < |primary| ==>
         && Distance(primary, secondary, i, j) <= Distance(primary, secondary, a, b)
         && (Later(a, b, i, j) ==> Distance(primary, secondary, i, j) < Distance(primary, secondary, a, b))
  }

  lemma NearestUnique(primary: seq<int>, secondary: seq<int>, i: int, j: int, a: int, b: int)
    requires Nearest(primary, secondary, i, j) && Nearest(primary, secondary, a, b)
    ensures i == a && j == b
  {
    assert Later(a, b, i, j) || Later(i, j, a, b) || (a == i && b == j);
  }

  /** What that means: no pair is closer, and an equally close one is of an earlier stamp, first of the secondary. */
  lemma NearestMeans(primary: seq<int>, secondary: seq<int>, i: int, j: int, a: int, b: int)
    requires Nearest(primary, secondary, i, j) && 0 <= a < |secondary| && 0 <= b < |primary|
    ensures AbsInt(secondary[i] - primary[j]) <= AbsInt(secondary[a] - primary[b])
    ensures AbsInt(secondary[i] - primary[j]) == AbsInt(secondary[a] - primary[b]) ==> a < i || (a == i && b <= j)
  {
    assert Distance(primary, secondary, i, j) <= Distance(primary, secondary, a, b);
  }

  /** The best pair among those the search has visited: all from `(i, j)` on, later ones first. */
  ghost predicate NearestFrom(primary: seq<int>, secondary: seq<int>, bi: int, bj: int, i: int, j: int) {
    && 0 <= bi < |secondary| && 0 <= bj < |primary| && Later(bi, bj, i, j)
    && forall a, b :: 0 <= a < |secondary| && 0 <= b < |primary| && Later(a, b, i, j) ==>
         && Distance(primary, secondary, bi, bj) <= Distance(primary, secondary, a, b)
         && (Later(a, b, bi, bj) ==> Distance(primary, secondary, bi, bj) < Distance(primary, secondary, a, b))
  }

  method FindMinimumDelta(primary: seq<int>, secondary: seq<int>, unset: int) returns (delta: int, matching: int)
    requires Stamps(primary) && Stamps(secondary)
    ensures primary == [] || secondary == [] ==> delta == 0x7FFF_FFFF_FFFF_FFFF && matching == unset
    ensures primary != [] && secondary != [] ==>
      exists i, j :: Nearest(primary, secondary, i, j) && delta == secondary[i] - primary[j] && matching == primary[j]
  {
    delta, matching := LONG_MAX, unset;
    ghost var bi, bj := 0, 0;
    ghost var found := false;
    var i := |secondary| - 1;
    while i >= 0
      invariant -1 <= i < |secondary|
      invariant found <==> primary != [] && i < |secondary| - 1
      invariant !found ==> delta == LONG_MAX && matching == unset
      invariant found ==> NearestFrom(primary, secondary, bi, bj, i, |primary| - 1)
                          && delta == secondary[bi] - primary[bj] && matching == primary[bj]
    {
      var j := |primary| - 1;
      while j >= 0
        invariant -1 <= j < |primary|
        invariant found <==> primary != [] && (i < |secondary| - 1 || j < |primary| - 1)
        invariant !found ==> delta == LONG_MAX && matching == unset
        invariant found ==> NearestFrom(primary, secondary, bi, bj, i, j)
                            && delta == secondary[bi] - primary[bj] && matching == primary[bj]
      {
        var diff := secondary[i] - primary[j];
        if AbsInt(diff) < AbsInt(delta) {
          delta := diff;
          matching := primary[j];
          bi, bj := i, j;
        }
        found := true;
        j := j - 1;
      }
      i := i - 1;
    }
    if found {
      assert Nearest(primary, secondary, bi, bj);
    }
  }

  // ----- find_avg

  /** A value stored in a 32-bit `int`. */
  function Wrap32(x: int): int {
    (x + 0x8000_0000) % 0x1_0000_0000 - 0x8000_0000
  }

  function TruncDiv(a: int, b: int): int
    requires b != 0
  {
    if a < 0 then -((-a) / b) else a / b
  }

  function Span(va: seq<int>): int {
    if va == [] then 0 else va[|va| - 1] - va[0]
  }

  function Intervals(sz: int): int {
    if sz == 1 then sz else sz - 1
  }

  lemma WrapSum(x: int, y: int)
    ensures Wrap32(Wrap32(x) + y) == Wrap32(x + y)
  {
  }

  /** The total span, kept in 32 bits, over the number of intervals. */
  function Average(va: seq<int>): int {
    TruncDiv(Wrap32(Span(va)), Intervals(|va|))
  }

  method FindAvg(va: seq<int>) returns (avg: int)
    ensures avg == Average(va)
  {
    avg := 0;
    var i := 0;
    while i < |va| - 1
      invariant 0 <= i && (va != [] ==> i <= |va| - 1)
      invariant avg == Wrap32(if va == [] then 0 else va[i] - va[0])
    {
      WrapSum(va[i] - va[0], va[i + 1] - va[i]);
      avg := Wrap32(avg + (va[i + 1] - va[i]));
      i := i + 1;
    }
    avg := TruncDiv(avg, Intervals(|va|));
  }

  /**
   For stamps of any spacing: below 2^31 microseconds the average is the span over the number of intervals,
   cut to whole microseconds; from there on the 32 bits make it negative.
   */
  lemma AverageOfSpan(va: seq<int>, span: int, n: int)
    requires |va| >= 2 && span == va[|va| - 1] - va[0] && n == |va| - 1
    ensures 0 <= span < 0x8000_0000 ==> n * Average(va) <= span < n * (Average(va) + 1)
    ensures 0x8000_0000 <= span < 0x1_0000_0000 ==>
      Average(va) <= 0 && n * (Average(va) - 1) < span - 0x1_0000_0000 <= n * Average(va)
  {
    assert Average(va) == TruncDiv(Wrap32(span), n);
    if 0 <= span < 0x8000_0000 {
      DivisionBounds(span, n);
    } else if 0x8000_0000 <= span < 0x1_0000_0000 {
      DivisionBounds(0x1_0000_0000 - span, n);
      var q := (0x1_0000_0000 - span) / n;
      assert n * (-q) == -(n * q) && n * (-q - 1) == -(n * (q + 1));
    }
  }

  /** A single stamp, or none, gives zero. */
  lemma AverageOfFew(va: seq<int>)
    requires |va| <= 1
    ensures Average(va) == 0
  {
  }

  lemma DivisionBounds(x: nat, n: int)
    requires n > 0
    ensures x / n >= 0 && n * (x / n) <= x < n * (x / n + 1)
  {
  }

  // ----- normalize_delta

  function Normalized(delta: int, avg: int): int
    requires avg > 0
  {
    var r := TruncMod(delta, avg);
    if r > avg / 2 then r - avg else r
  }

  method NormalizeDelta(delta0: int, avg: int) returns (delta: int)
    requires avg > 0
    ensures delta == Normalized(delta0, avg)
  {
    delta := delta0;
    if delta > avg || delta < avg {
      delta := TruncMod(delta, avg);
    }
    if delta > avg / 2 {
      delta := delta - avg;
    }
  }

  predicate Congruent(a: int, b: int, m: int)
    requires m > 0
  {
    (a - b) % m == 0
  }

  lemma SmallProduct(d: int, m: int, x: int)
    requires m > 0 && d * m == x && -m < x < m
    ensures d == 0
  {
  }

  lemma MultipleMod(k: int, m: int)
    requires m > 0
    ensures k * m % m == 0 && k * m / m == k
  {
    var a := k * m;
    var q, r := a / m, a % m;
    assert a == q * m + r && 0 <= r < m;
    SmallProduct(k - q, m, r);
  }

  lemma CongruentBy(a: int, b: int, k: int, m: int)
    requires m > 0 && a == b + k * m
    ensures Congruent(a, b, m)
  {
    MultipleMod(k, m);
  }

  lemma CongruentTransitive(a: int, b: int, c: int, m: int)
    requires m > 0 && Congruent(a, b, m) && Congruent(b, c, m)
    ensures Congruent(a, c, m)
  {
    var p, q := (a - b) / m, (b - c) / m;
    assert a == c + p * m + q * m == c + (p + q) * m;
    CongruentBy(a, c, p + q, m);
  }

  lemma ModParts(a: nat, m: int)
    requires m > 0
    ensures a == a / m * m + a % m && 0 <= a % m < m && (a < m ==> a % m == a)
  {
    if a < m {
      SmallProduct(a / m, m, a - a % m);
    }
  }

  lemma TruncModFacts(a: int, m: int)
    requires m > 0
    ensures -m < TruncMod(a, m) < m && Congruent(TruncMod(a, m), a, m)
    ensures a >= 0 ==> TruncMod(a, m) >= 0
    ensures AbsInt(a) < m ==> TruncMod(a, m) == a
  {
    ModParts(AbsInt(a), m);
    if a < 0 {
      CongruentBy(TruncMod(a, m), a, (-a) / m, m);
    } else {
      CongruentBy(TruncMod(a, m), a, -(a / m), m);
    }
  }

  /** The normalised delta is the same phase, lies in `(-avg, avg/2]` and is not changed by normalising again. */
  lemma NormalizedResidue(delta: int, avg: int)
    requires avg > 0
    ensures var r := Normalized(delta, avg);
      -avg < r <= avg / 2 && Congruent(r, delta, avg) && Normalized(r, avg) == r
  {
    var t, r := TruncMod(delta, avg), Normalized(delta, avg);
    TruncModFacts(delta, avg);
    CongruentBy(r, t, if t > avg / 2 then -1 else 0, avg);
    CongruentTransitive(r, t, delta, avg);
    TruncModFacts(r, avg);
  }

  lemma SmallUnchanged(delta: int, avg: int)
    requires avg > 0 && 2 * AbsInt(delta) <= avg
    ensures Normalized(delta, avg) == delta
  {
    TruncModFacts(delta, avg);
  }

  lemma OtherResidue(r: int, x: int, k: int, m: int)
    requires m > 0 && x == r + k * m && 2 * AbsInt(r) <= m
    ensures AbsInt(r) <= AbsInt(x)
  {
    if k >= 1 {
      assert k * m >= m;
    } else if k <= -1 {
      assert k * m <= -m;
    }
  }

  /**
   The result is a shortest way to a vsync of the primary exactly when the remainder of the delta is not
   below minus half a period: remainders above half a period are folded down, those below are not
   folded up.
   */
  lemma NormalizedNearestIff(delta: int, avg: int)
    requires avg > 0
    ensures (forall x :: Congruent(x, delta, avg) ==> AbsInt(Normalized(delta, avg)) <= AbsInt(x))
       <==> 2 * TruncMod(delta, avg) >= -avg
  {
    var t, r := TruncMod(delta, avg), Normalized(delta, avg);
    TruncModFacts(delta, avg);
    NormalizedResidue(delta, avg);
    if 2 * t >= -avg {
      forall x | Congruent(x, delta, avg) ensures AbsInt(r) <= AbsInt(x) {
        CongruentSymmetric(r, delta, avg);
        CongruentTransitive(x, delta, r, avg);
        OtherResidue(r, x, (x - r) / avg, avg);
      }
    } else {
      CongruentBy(t + avg, t, 1, avg);
      CongruentTransitive(t + avg, t, delta, avg);
      assert AbsInt(t + avg) < AbsInt(r);
    }
  }

  lemma CongruentSymmetric(a: int, b: int, m: int)
    requires m > 0 && Congruent(a, b, m)
    ensures Congruent(b, a, m)
  {
    CongruentBy(b, a, -((a - b) / m), m);
  }

  /** A secondary nine tenths of a period early is sent nine tenths back instead of one tenth forward. */
  lemma NotNearestExample()
    ensures Normalized(-15000, 16666) == -15000 && Congruent(1666, -15000, 16666)
  {
  }

  // ----- periodic timestamps

  /** `n` stamps from `start` with period `period`. */
  function Periodic(start: int, period: int, n: nat): seq<int> {
    seq(n, i requires 0 <= i < n => start + i * period)
  }

  /** The two stretches of time come within half a period of each other. */
  predicate Overlap(offset: int, period: int, primaries: nat, secondaries: nat) {
    -(2 * secondaries - 1) * period <= 2 * offset <= (2 * primaries - 1) * period
  }

  lemma PeriodicSpan(start: int, period: int, n: nat)
    requires n >= 2
    ensures Span(Periodic(start, period, n)) == period * (n - 1)
  {
    var va := Periodic(start, period, n);
    assert va[0] == start + 0 * period;
    assert va[n - 1] == start + (n - 1) * period;
  }

  lemma WrapSmall(x: int)
    requires 0 <= x < 0x8000_0000
    ensures Wrap32(x) == x
  {
  }

  /** Stamps of a fixed period average to it as long as they span less than 2^31 microseconds. */
  lemma PeriodicAverage(start: int, period: int, n: nat)
    requires n >= 2 && 0 <= period && period * (n - 1) < 0x8000_0000
    ensures Average(Periodic(start, period, n)) == period
  {
    var x, m := period * (n - 1), n - 1;
    assert x >= 0;
    PeriodicSpan(start, period, n);
    WrapSmall(x);
    MultipleMod(period, m);
  }

  /** The measured delta of periodic stamps is the true offset up to whole periods. */
  lemma DeltaCongruent(p: int, s: int, period: int, np: nat, ns: nat, i: int, j: int)
    requires period > 0 && 0 <= i < ns && 0 <= j < np
    ensures Congruent(Periodic(s, period, ns)[i] - Periodic(p, period, np)[j], s - p, period)
  {
    CongruentBy(s + i * period - (p + j * period), s - p, i - j, period);
  }

  lemma HalfSpanStep(n: nat, period: int)
    requires period > 0 && n > 0
    ensures (2 * n - 1) * period == (2 * (n - 1) - 1) * period + 2 * period
    ensures (2 * n - 1) * period >= period
  {
    ProductOrder(1, 2 * n - 1, period);
  }

  lemma OverlapStep(offset: int, period: int, np: nat, ns: nat)
    requires period > 0 && np > 0 && ns > 0 && Overlap(offset, period, np, ns) && 2 * AbsInt(offset) > period
    ensures offset > 0 ==> np > 1 && Overlap(offset - period, period, np - 1, ns)
    ensures offset < 0 ==> ns > 1 && Overlap(offset + period, period, np, ns - 1)
  {
    HalfSpanStep(np, period);
    HalfSpanStep(ns, period);
  }

  /** A pair at most half a period apart, when the stretches overlap: step over one stamp at a time. */
  lemma {:induction false} ClosePair(offset: int, period: int, np: nat, ns: nat) returns (i: nat, j: nat)
    requires period > 0 && np > 0 && ns > 0 && Overlap(offset, period, np, ns)
    ensures i < ns && j < np && 2 * AbsInt(offset + (i - j) * period) <= period
    decreases np + ns
  {
    if 2 * AbsInt(offset) <= period {
      i, j := 0, 0;
    } else if offset > 0 {
      OverlapStep(offset, period, np, ns);
      i, j := ClosePair(offset - period, period, np - 1, ns);
      assert offset + (i - (j + 1)) * period == offset - period + (i - j) * period;
      j := j + 1;
    } else {
      OverlapStep(offset, period, np, ns);
      i, j := ClosePair(offset + period, period, np, ns - 1);
      assert offset + (i + 1 - j) * period == offset + period + (i - j) * period;
      i := i + 1;
    }
  }

  lemma CloseImpliesOverlap(offset: int, period: int, np: nat, ns: nat, i: nat, j: nat)
    requires period > 0 && i < ns && j < np && 2 * AbsInt(offset + (i - j) * period) <= period
    ensures Overlap(offset, period, np, ns)
  {
    ProductOrder(i - j, ns - 1, period);
    ProductOrder(1 - np, i - j, period);
    assert (2 * ns - 1) * period == 2 * ((ns - 1) * period) + period;
    assert (2 * np - 1) * period == -2 * ((1 - np) * period) + period;
  }

  lemma PeriodicDifference(p: int, s: int, period: int, np: nat, ns: nat, i: int, j: int)
    requires 0 <= i < ns && 0 <= j < np
    ensures Periodic(s, period, ns)[i] - Periodic(p, period, np)[j] == s - p + (i - j) * period
  {
  }

  /**
   The search finds an offset of at most half a period exactly when the two stretches of time overlap
   within half a period. What it finds is always the true offset modulo the period, and normalising
   does not change it when it is that small.
   */
  lemma PhaseExtraction(p: int, s: int, period: int, np: nat, ns: nat, i: int, j: int)
    requires period > 0 && Nearest(Periodic(p, period, np), Periodic(s, period, ns), i, j)
    ensures var delta := Periodic(s, period, ns)[i] - Periodic(p, period, np)[j];
      && (2 * AbsInt(delta) <= period <==> Overlap(s - p, period, np, ns))
      && (2 * AbsInt(delta) <= period ==> Normalized(delta, period) == delta)
      && Congruent(Normalized(delta, period), s - p, period)
  {
    var ps, ss := Periodic(p, period, np), Periodic(s, period, ns);
    var delta := ss[i] - ps[j];
    PeriodicDifference(p, s, period, np, ns, i, j);
    DeltaCongruent(p, s, period, np, ns, i, j);
    NormalizedResidue(delta, period);
    CongruentTransitive(Normalized(delta, period), delta, s - p, period);
    if 2 * AbsInt(delta) <= period {
      SmallUnchanged(delta, period);
      CloseImpliesOverlap(s - p, period, np, ns, i, j);
    }
    if Overlap(s - p, period, np, ns) {
      var a, b := ClosePair(s - p, period, np, ns);
      PeriodicDifference(p, s, period, np, ns, a, b);
      assert Distance(ps, ss, i, j) <= Distance(ps, ss, a, b);
    }
  }
}
