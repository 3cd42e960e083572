/** Rounding functions of the C library on exact reals, and the few facts about them the proofs need. */
module RealMath {

  function Abs(x: real): real {
    if x < 0.0 then -x else x
  }

  function AbsInt(x: int): nat {
    if x < 0 then -x else x
  }

  /** `ceil` */
  function Ceil(x: real): int {
    -((-x).Floor)
  }

  /** `round` of a non-negative number: halves go up. */
  function Round(x: real): int {
    (x + 0.5).Floor
  }

  /** A cast from `double` to an integer type: truncation toward zero. */
  function Trunc(x: real): int {
    if x < 0.0 then -((-x).Floor) else x.Floor
  }

  /** The `%` operator of C on signed operands: the result has the sign of the dividend. */
  function TruncMod(a: int, b: int): int
    requires b > 0
  {
    if a < 0 then -((-a) % b) else a % b
  }

  /** Multiplication under a name, for facts that only need its arguments to be equal. */
  function Times(a: real, b: real): real {
    a * b
  }

  lemma CeilBounds(x: real)
    ensures x <= Ceil(x) as real < x + 1.0
  {
  }

  lemma CeilLeast(x: real, n: int)
    requires x <= n as real
    ensures Ceil(x) <= n
  {
  }

  lemma MulMonotone(a: real, b: real, k: real)
    requires a <= b && k >= 0.0
    ensures a * k <= b * k
  {
  }

  lemma ProductOrder(a: int, b: int, k: int)
    requires a <= b && k >= 0
    ensures a * k <= b * k
  {
  }

  lemma DivTimes(a: real, b: real)
    requires b != 0.0
    ensures a / b * b == a
  {
  }

  lemma DivMonotone(a: real, b: real, k: real)
    requires a <= b && k > 0.0
    ensures a / k <= b / k
  {
    DivTimes(a, k);
    DivTimes(b, k);
  }

  lemma FloorOfQuotient(a: int, b: int)
    requires b > 0
    ensures (a as real / b as real).Floor == a / b
  {
    var q, r := a / b, a % b;
    DivTimes(a as real, b as real);
    var x := a as real / b as real;
    assert x * b as real == a as real == q as real * b as real + r as real;
    assert (x - q as real) * b as real == r as real;
    SmallFactor(x - q as real, b as real, r as real);
  }

  lemma SmallFactor(x: real, b: real, r: real)
    requires b > 0.0 && x * b == r && 0.0 <= r < b
    ensures 0.0 <= x < 1.0
  {
  }

  lemma FactorOrder(a: real, b: real, r: real)
    requires r > 0.0
    ensures a < b <==> a * r < b * r
  {
  }

  lemma TimesOrder(a: real, b: real, p: real)
    requires p > 0.0
    ensures a <= b <==> Times(a, p) <= Times(b, p)
    ensures a < b <==> Times(a, p) < Times(b, p)
    ensures Times(a, p) == Times(p, a) && Times(b, p) == Times(p, b)
    ensures Times(1.0, p) == p && Times(0.0, p) == 0.0
  {
  }

  // ----- powers

  function Power(x: real, n: nat): real {
    if n == 0 then 1.0 else Times(x, Power(x, n - 1))
  }

  lemma {:induction false} PowerBounds(x: real, n: nat)
    requires x > 0.0
    ensures Power(x, n) > 0.0
    ensures x <= 1.0 ==> Power(x, n) <= 1.0
    ensures x >= 1.0 ==> Power(x, n) >= 1.0
  {
    if n > 0 {
      PowerBounds(x, n - 1);
      TimesOrder(x, 1.0, Power(x, n - 1));
      TimesOrder(0.0, x, Power(x, n - 1));
    }
  }

  lemma {:induction false} PowerMonotone(x: real, m: nat, n: nat)
    requires x > 0.0 && m <= n
    ensures x <= 1.0 ==> Power(x, n) <= Power(x, m)
    ensures x >= 1.0 ==> Power(x, n) >= Power(x, m)
    decreases n
  {
    if m < n {
      PowerMonotone(x, m, n - 1);
      PowerBounds(x, n - 1);
      TimesOrder(x, 1.0, Power(x, n - 1));
    }
  }

  lemma BernoulliStep(d: real, k: real)
    requires k >= 0.0
    ensures Times(1.0 - d, 1.0 - k * d) >= 1.0 - (k + 1.0) * d
  {
    assert (1.0 - d) * (1.0 - k * d) == 1.0 - (k + 1.0) * d + k * (d * d);
    assert d * d >= 0.0;
  }

  /** Bernoulli's inequality. */
  lemma {:induction false} Bernoulli(d: real, n: nat)
    requires d < 1.0
    ensures Power(1.0 - d, n) >= 1.0 - n as real * d
  {
    if n > 0 {
      Bernoulli(d, n - 1);
      var k := (n - 1) as real;
      BernoulliStep(d, k);
      TimesOrder(1.0 - k * d, Power(1.0 - d, n - 1), 1.0 - d);
    }
  }
}
