/** The divider arithmetic of `lib/c10.cpp`, on the twenty byte registers of the PLL state. */
module C10Pll {
  import opened RealMath
  import opened Codec

  type Byte = b: int | 0 <= b < 256

  const REG_COUNT: nat := 20
  const DEN_LOW: nat := 9
  const DEN_HIGH: nat := 10
  const QUOT_LOW: nat := 11
  const QUOT_HIGH: nat := 12
  const REM_LOW: nat := 13
  const REM_HIGH: nat := 14
  const TXCLKDIV: nat := 15

  const REF_KHZ: nat := 38400

  const ULONG: nat := 0x1_0000_0000_0000_0000

  type PllState = s: seq<Byte> | |s| == REG_COUNT witness seq(REG_COUNT, _ => 0)

  function Word(high: nat, low: nat): nat { high * 256 + low }

  function Denominator(s: PllState): nat { Word(s[DEN_HIGH], s[DEN_LOW]) }

  function Quotient(s: PllState): nat { Word(s[QUOT_HIGH], s[QUOT_LOW]) }

  function FractionRemainder(s: PllState): nat { Word(s[REM_HIGH], s[REM_LOW]) }

  /** The low four bits of register 3 over register 2, halved, plus 16. */
  function Multiplier(s: PllState): nat { Word(s[3] % 16, s[2]) / 2 + 16 }

  /** `10 << (div + 16)`, with the divider in the low three bits of register 15. */
  function Scale(s: PllState): (scale: nat)
    ensures scale > 0
  {
    10 * 65536 * TwoTo(s[TXCLKDIV] % 8)
  }

  function TwoTo(k: nat): (p: nat)
    ensures p > 0
  {
    if k == 0 then 1 else 2 * TwoTo(k - 1)
  }

  /** A PLL state whose fraction denominator can be divided by. */
  predicate Usable(s: PllState) { Denominator(s) != 0 }

  /** `DIV_ROUND_CLOSEST_ULL`, of the encoder: half the divisor is added, then an integer division. */
  function RoundedQuotient(n: nat, d: nat): nat
    requires d > 0
  {
    (n + d / 2) / d
  }

  /**
   `DIV_ROUND_CLOSEST`, of the decoder: the first operand is a `double`, so the division is not cut off
   before the sum is converted to an integer.
   */
  function UnroundedQuotient(n: nat, d: nat): (q: real)
    requires d > 0
    ensures q >= 0.0
  {
    DivMonotone(0.0, (n + d / 2) as real, d as real);
    (n + d / 2) as real / d as real
  }

  function FractionCorrection(s: PllState): nat
    requires Usable(s)
  {
    RoundedQuotient(REF_KHZ * FractionRemainder(s), Denominator(s))
  }

  function Numerator(s: PllState): nat
    requires Usable(s)
  {
    ((REF_KHZ * (Multiplier(s) * 65536 + Quotient(s))) as real
      + UnroundedQuotient(REF_KHZ * FractionRemainder(s), Denominator(s))).Floor
  }

  function PllClock(s: PllState): real
    requires Usable(s)
  {
    ScaledUp(Numerator(s), Scale(s))
  }

  function ScaledUp(numerator: int, scale: int): real
    requires scale > 0
  {
    numerator as real / scale as real
  }

  /** The value left in `temp` after the encoder's two subtractions and its division, modulo 2^64. */
  function EncodedQuotient(s: PllState, clock: real): nat
    requires Usable(s) && clock >= 0.0
  {
    QuotientOf(ScaledDown(clock, Scale(s)), FractionCorrection(s), Multiplier(s))
  }

  function ScaledDown(clock: real, scale: int): int {
    (clock * scale as real).Floor
  }

  function QuotientOf(scaled: int, correction: int, multiplier: int): nat {
    ((scaled - correction) % ULONG / REF_KHZ - multiplier * 65536) % ULONG
  }

  function Encode(s: PllState, clock: real): PllState
    requires Usable(s) && clock >= 0.0
  {
    Store(s, EncodedQuotient(s, clock))
  }

  /** The two bytes of the quotient. */
  function Store(s: PllState, quotient: nat): PllState {
    s[QUOT_LOW := quotient % 256][QUOT_HIGH := quotient / 256 % 256]
  }

  // ----- the two rounding macros agree

  lemma MacrosAgree(a: int, n: nat, d: nat)
    requires d > 0
    ensures (a as real + UnroundedQuotient(n, d)).Floor == a + RoundedQuotient(n, d)
  {
    FloorOfQuotient(n + d / 2, d);
  }

  /** The decoder and the encoder see the same correction, although one rounds before adding and the other after. */
  lemma NumeratorIsInteger(s: PllState)
    requires Usable(s)
    ensures Numerator(s) == REF_KHZ * (Multiplier(s) * 65536 + Quotient(s)) + FractionCorrection(s)
  {
    MacrosAgree(REF_KHZ * (Multiplier(s) * 65536 + Quotient(s)), REF_KHZ * FractionRemainder(s), Denominator(s));
  }

  lemma ScaledBack(n: nat, d: int)
    requires d > 0
    ensures ScaledUp(n, d) >= 0.0 && ScaledDown(ScaledUp(n, d), d) == n
  {
    DivTimes(n as real, d as real);
    DivMonotone(0.0, n as real, d as real);
  }

  lemma ScaledClock(s: PllState)
    requires Usable(s)
    ensures PllClock(s) >= 0.0 && ScaledDown(PllClock(s), Scale(s)) == Numerator(s)
  {
    ScaledBack(Numerator(s), Scale(s));
  }

  // ----- the clock of a register file

  lemma ClockIsQuotient(s: PllState)
    requires Usable(s)
    ensures Times(PllClock(s), Scale(s) as real) == Numerator(s) as real
  {
    ScaledUpTimes(Numerator(s), Scale(s));
  }

  lemma ScaledUpTimes(n: int, d: int)
    requires d > 0
    ensures Times(ScaledUp(n, d), d as real) == n as real
  {
    DivTimes(n as real, d as real);
  }

  lemma BytesOfNumerator(s: PllState, den: int, rem: int, mult: int, quot: int)
    requires den == s[10] as int * 256 + s[9] as int != 0 && rem == s[14] as int * 256 + s[13] as int
    requires mult == s[3] as int % 16 * 256 + s[2] as int && quot == s[12] as int * 256 + s[11] as int
    ensures Usable(s)
    ensures Numerator(s) == 38400 * ((mult / 2 + 16) * 65536 + quot) + (38400 * rem + den / 2) / den
  {
    FieldsOfBytes(s, den, rem, mult, quot);
    NumeratorIsInteger(s);
    assert FractionCorrection(s) == RoundedQuotient(38400 * rem, den);
  }

  lemma FieldsOfBytes(s: PllState, den: int, rem: int, mult: int, quot: int)
    requires den == s[10] as int * 256 + s[9] as int && rem == s[14] as int * 256 + s[13] as int
    requires mult == s[3] as int % 16 * 256 + s[2] as int && quot == s[12] as int * 256 + s[11] as int
    ensures Denominator(s) == den && FractionRemainder(s) == rem
    ensures Multiplier(s) == mult / 2 + 16 && Quotient(s) == quot
  {
  }

  /** The decoder on the bytes themselves, when the divider is zero. */
  lemma ClockOfBytes(s: PllState, den: int, rem: int, mult: int, quot: int)
    requires den == s[10] as int * 256 + s[9] as int != 0 && rem == s[14] as int * 256 + s[13] as int
    requires mult == s[3] as int % 16 * 256 + s[2] as int && quot == s[12] as int * 256 + s[11] as int
    requires s[15] % 8 == 0
    ensures Usable(s)
    ensures Times(PllClock(s), 655360.0)
         == (38400 * ((mult / 2 + 16) * 65536 + quot) + (38400 * rem + den / 2) / den) as real
  {
    BytesOfNumerator(s, den, rem, mult, quot);
    ClockIsQuotient(s);
    assert Scale(s) == 655360;
  }

  /** Each step of the divider halves the clock. */
  lemma DividerHalves(s: PllState, k: nat)
    requires s[10] != 0 || s[9] != 0
    requires k < 7
    ensures Usable(s[15 := k]) && Usable(s[15 := k + 1])
    ensures PllClock(s[15 := k]) == 2.0 * PllClock(s[15 := k + 1])
  {
    SameButDivider(s, k);
    SameButDivider(s, k + 1);
    HalfScaled(Numerator(s), k);
  }

  lemma SameButDivider(s: PllState, k: nat)
    requires Usable(s) && k < 256
    ensures var t := s[15 := k];
      Usable(t) && PllClock(t) == ScaledUp(Numerator(s), 655360 * TwoTo(k % 8))
  {
  }

  lemma HalfScaled(n: int, k: nat)
    requires k < 7
    ensures ScaledUp(n, 655360 * TwoTo(k % 8)) == 2.0 * ScaledUp(n, 655360 * TwoTo((k + 1) % 8))
  {
    assert TwoTo(k + 1) == 2 * TwoTo(k);
    HalfQuotient(n as real, (655360 * TwoTo(k)) as real, (655360 * TwoTo(k + 1)) as real);
  }

  lemma HalfQuotient(n: real, d: real, twice: real)
    requires d > 0.0 && twice == 2.0 * d
    ensures n / d == 2.0 * (n / twice)
  {
    DivTimes(n, d);
    DivTimes(n, twice);
    assert (n / d - 2.0 * (n / twice)) * d == 0.0;
  }

  /** Of register 15 only the three low bits count. */
  lemma DividerBits(s: PllState, k: nat)
    requires Usable(s) && k < 256 && k % 8 == s[15] % 8
    ensures Usable(s[15 := k]) && PllClock(s[15 := k]) == PllClock(s)
  {
    SameButDivider(s, k);
    SameButDivider(s, s[15]);
    assert s[15 := s[15]] == s;
  }

  /** Of register 3 only the four low bits count. */
  lemma MultiplierBits(s: PllState, k: nat)
    requires Usable(s) && k < 256 && k % 16 == s[3] % 16
    ensures Usable(s[3 := k]) && PllClock(s[3 := k]) == PllClock(s)
  {
    var t := s[3 := k];
    assert Denominator(t) == Denominator(s) && FractionRemainder(t) == FractionRemainder(s);
    assert Multiplier(t) == Multiplier(s) && Quotient(t) == Quotient(s) && Scale(t) == Scale(s);
  }

  /** Without multiplier, quotient and remainder. */
  lemma LeastClock(s: PllState)
    requires s[10] != 0 || s[9] != 0
    requires s[2] == s[3] == s[11] == s[12] == s[13] == s[14] == s[15] == 0
    ensures Usable(s) && PllClock(s) == 61440.0
  {
    var den := s[10] as int * 256 + s[9] as int;
    ClockOfBytes(s, den, 0, 0, 0);
    Recovered(PllClock(s), den);
  }

  lemma Recovered(clock: real, den: int)
    requires den > 0
    requires Times(clock, 655360.0) == (38400 * ((0 / 2 + 16) * 65536 + 0) + (38400 * 0 + den / 2) / den) as real
    ensures clock == 61440.0
  {
    assert (den / 2) / den == 0;
  }

  /** Two counts of the multiplier are 3840, divided as the divider says. */
  lemma TwoCounts(s: PllState)
    requires Usable(s) && s[2] < 254
    ensures Usable(s[2 := s[2] + 2]) && Raised(s, s[2 := s[2] + 2], 1)
  {
    HalfOfCounts(s[3] as int % 16, s[2] as int);
    RaisedBy(s, s[2 := s[2] + 2], 1);
  }

  /** One count of the high bits is 256 of those. */
  lemma HighCount(s: PllState)
    requires Usable(s) && s[3] % 16 < 15
    ensures Usable(s[3 := s[3] + 1]) && Raised(s, s[3 := s[3] + 1], 128)
  {
    HalfOfCounts(s[3] as int % 16, s[2] as int);
    assert (s[3] + 1) as int % 16 == s[3] as int % 16 + 1;
    RaisedBy(s, s[3 := s[3] + 1], 128);
  }

  lemma HalfOfCounts(high: int, low: int)
    ensures (high * 256 + (low + 2)) / 2 == (high * 256 + low) / 2 + 1
    ensures ((high + 1) * 256 + low) / 2 == (high * 256 + low) / 2 + 128
  {
  }

  /** The clock is up by `n` times 3840, divided as the divider says. */
  predicate Raised(s: PllState, t: PllState, n: nat)
    requires Usable(s) && Usable(t)
  {
    Times(PllClock(t) - PllClock(s), TwoTo(s[15] % 8) as real) == 3840.0 * n as real
  }

  lemma RaisedBy(s: PllState, t: PllState, n: nat)
    requires Usable(s) && forall i :: 0 <= i < REG_COUNT && i != 2 && i != 3 ==> t[i] == s[i]
    requires Multiplier(t) == Multiplier(s) + n
    ensures Usable(t) && Raised(s, t, n)
  {
    RaisedNumerator(s, t, n);
    ClockIsQuotient(s);
    ClockIsQuotient(t);
    DifferenceOfQuotients(Numerator(s), Numerator(t), Scale(s), TwoTo(s[15] % 8), n, PllClock(s), PllClock(t));
  }

  lemma RaisedNumerator(s: PllState, t: PllState, n: nat)
    requires Usable(s) && forall i :: 0 <= i < REG_COUNT && i != 2 && i != 3 ==> t[i] == s[i]
    requires Multiplier(t) == Multiplier(s) + n
    ensures Usable(t) && Scale(t) == Scale(s) && Numerator(t) == Numerator(s) + 38400 * 65536 * n
  {
    assert Denominator(t) == Denominator(s) && FractionRemainder(t) == FractionRemainder(s);
    NumeratorIsInteger(s);
    NumeratorIsInteger(t);
  }

  lemma DifferenceOfQuotients(a: int, b: int, scale: int, p: int, n: nat, x: real, y: real)
    requires p > 0 && scale == 10 * 65536 * p && b == a + 38400 * 65536 * n
    requires Times(x, scale as real) == a as real && Times(y, scale as real) == b as real
    ensures Times(y - x, p as real) == 3840.0 * n as real
  {
    var d := scale as real;
    assert d == 655360.0 * p as real;
    assert (y - x) * d == (38400 * 65536 * n) as real;
    assert ((y - x) * p as real) * 655360.0 == 3840.0 * n as real * 655360.0;
  }

  /** 65536 codes of the quotient are one step of the multiplier: after the last one it goes on with zero. */
  lemma QuotientCarries(s: PllState)
    requires Usable(s) && s[11] == s[12] == 255 && s[2] < 254
    ensures var t := s[2 := s[2] + 2][11 := 0][12 := 0];
      Usable(t) && Numerator(t) == Numerator(s) + REF_KHZ && PllClock(t) - PllClock(s) == Lsb(s)
  {
    var t := s[2 := s[2] + 2][11 := 0][12 := 0];
    assert Denominator(t) == Denominator(s) && FractionRemainder(t) == FractionRemainder(s) && Scale(t) == Scale(s);
    assert Quotient(s) == 65535 && Quotient(t) == 0 && Multiplier(t) == Multiplier(s) + 1;
    NumeratorIsInteger(s);
    NumeratorIsInteger(t);
    SumOfQuotients(Numerator(s), REF_KHZ, Scale(s));
  }

  lemma SumOfQuotients(a: int, b: int, d: int)
    requires d > 0
    ensures ScaledUp(a + b, d) - ScaledUp(a, d) == ScaledUp(b, d)
  {
    var r := d as real;
    DivTimes(a as real, r);
    DivTimes(b as real, r);
    DivTimes((a + b) as real, r);
    assert ((a + b) as real / r - a as real / r - b as real / r) * r == 0.0;
  }

  /** A register file with every field in use. */
  const EXAMPLE: PllState :=
    [0, 0, 0x31, 0x31, 0, 0, 0, 0, 0, 7, 1, 0x34, 0x12, 5, 2, 0x08, 0, 0, 0, 0]

  lemma ExampleClock()
    ensures Usable(EXAMPLE) && PllClock(EXAMPLE) * 655360.0 == 422964862686.0
    ensures PllClock(EXAMPLE[15 := 0x0A]) * 2621440.0 == 422964862686.0
  {
    ClockOfBytes(EXAMPLE, 263, 517, 305, 4660);
    assert (38400 * 517 + 263 / 2) / 263 == 75486;
    DividerHalves(EXAMPLE, 0);
    DividerHalves(EXAMPLE, 1);
    DividerBits(EXAMPLE, 0);
    DividerBits(EXAMPLE[15 := 2], 0x0A);
    assert EXAMPLE[15 := 2][15 := 0x0A] == EXAMPLE[15 := 0x0A];
  }

  lemma QuotientInBand(scaled: int, correction: nat, multiplier: nat, m: int)
    requires multiplier < 4096 && multiplier * 65536 <= m < multiplier * 65536 + 65536
    requires REF_KHZ * m <= scaled - correction < REF_KHZ * (m + 1)
    ensures QuotientOf(scaled, correction, multiplier) == m - multiplier * 65536
  {
    var c := scaled - correction;
    assert 0 <= c < ULONG;
    assert c % ULONG == c;
    assert c / REF_KHZ == m;
  }

  lemma StoredQuotient(q: nat)
    ensures q / 256 % 256 * 256 + q % 256 == q % 65536
  {
  }

  lemma StoredFields(s: PllState, q: nat)
    requires Usable(s)
    ensures var t := Store(s, q);
            && Usable(t)
            && Quotient(t) == q % 65536
            && Multiplier(t) == Multiplier(s) && Scale(t) == Scale(s)
            && FractionCorrection(t) == FractionCorrection(s)
  {
    var t := Store(s, q);
    StoredQuotient(q);
    assert forall k :: 0 <= k < REG_COUNT && k != QUOT_LOW && k != QUOT_HIGH ==> t[k] == s[k];
    assert Denominator(t) == Denominator(s) && FractionRemainder(t) == FractionRemainder(s);
  }

  lemma StoreSame(s: PllState)
    ensures Store(s, Quotient(s)) == s
  {
  }

  // ----- round trips

  /** Encoding the clock just decoded gives back every register, whatever the state. */
  lemma EncodeInvertsDecode(s: PllState)
    requires Usable(s)
    ensures PllClock(s) >= 0.0 && Encode(s, PllClock(s)) == s
  {
    ScaledClock(s);
    NumeratorIsInteger(s);
    QuotientInBand(Numerator(s), FractionCorrection(s), Multiplier(s), Multiplier(s) * 65536 + Quotient(s));
    StoreSame(s);
  }

  /** The clocks the 16-bit quotient can reach with the multiplier and the fraction the state holds. */
  ghost predicate InBand(s: PllState, clock: real)
    requires Usable(s)
  {
    Reachable(ScaledDown(clock, Scale(s)), FractionCorrection(s), Multiplier(s))
  }

  ghost predicate Reachable(scaled: int, correction: int, multiplier: int) {
    REF_KHZ * (multiplier * 65536) <= scaled - correction < REF_KHZ * (multiplier * 65536 + 65536)
  }

  /** One step of the quotient, as a clock. */
  function Lsb(s: PllState): real { ScaledUp(REF_KHZ, Scale(s)) }

  lemma ErrorScaled(clock: real, d: int, n: int, k: real)
    requires d > 0
    ensures 0.0 <= clock - n as real / d as real < k / d as real <==> 0.0 <= clock * d as real - n as real < k
  {
    var r := d as real;
    DivTimes(n as real, r);
    DivTimes(k, r);
    var x, y := clock - n as real / r, k / r;
    assert x * r == clock * r - n as real;
    FactorOrder(x, 0.0, r);
    FactorOrder(x, y, r);
  }

  lemma FloorWindow(x: real, n: int, k: int)
    ensures 0.0 <= x - n as real < k as real <==> n <= x.Floor < n + k
  {
  }

  lemma WindowOfDivision(c: int, m: int)
    ensures REF_KHZ * m <= c < REF_KHZ * (m + 1) <==> c / REF_KHZ == m
  {
  }

  /** In the band, the quotient that is stored is the one whose window contains the clock. */
  lemma BandWindow(scaled: int, correction: nat, multiplier: nat, q: nat)
    requires multiplier < 4096 && q == QuotientOf(scaled, correction, multiplier) % 65536
    ensures var n := REF_KHZ * (multiplier * 65536 + q) + correction;
      Reachable(scaled, correction, multiplier) <==> n <= scaled < n + REF_KHZ
  {
    var c, m := scaled - correction, multiplier * 65536;
    if REF_KHZ * m <= c < REF_KHZ * (m + 65536) {
      WindowOfDivision(c, c / REF_KHZ);
      QuotientInBand(scaled, correction, multiplier, c / REF_KHZ);
    }
  }

  lemma ClockWindow(clock: real, scale: int, correction: nat, multiplier: nat, q: nat, n: nat)
    requires scale > 0 && multiplier < 4096
    requires q == QuotientOf(ScaledDown(clock, scale), correction, multiplier) % 65536
    requires n == REF_KHZ * (multiplier * 65536 + q) + correction
    ensures 0.0 <= clock - ScaledUp(n, scale) < ScaledUp(REF_KHZ, scale)
       <==> Reachable(ScaledDown(clock, scale), correction, multiplier)
  {
    ErrorScaled(clock, scale, n, REF_KHZ as real);
    FloorWindow(clock * scale as real, n, REF_KHZ);
    BandWindow(ScaledDown(clock, scale), correction, multiplier, q);
  }

  lemma StoredWindow(s: PllState, t: PllState, clock: real)
    requires Usable(s) && Usable(t) && clock >= 0.0
    requires Quotient(t) == EncodedQuotient(s, clock) % 65536
    requires Multiplier(t) == Multiplier(s) && Scale(t) == Scale(s) && FractionCorrection(t) == FractionCorrection(s)
    ensures 0.0 <= clock - PllClock(t) < Lsb(s) <==> InBand(s, clock)
  {
    NumeratorIsInteger(t);
    ClockWindow(clock, Scale(s), FractionCorrection(s), Multiplier(s), Quotient(t), Numerator(t));
  }

  /**
   Writing a clock and reading it back loses less than one step of the quotient and never gains, exactly
   for the clocks in the band of the state.
   */
  lemma RoundTrip(s: PllState, clock: real)
    requires Usable(s) && clock >= 0.0
    ensures Usable(Encode(s, clock))
    ensures 0.0 <= clock - PllClock(Encode(s, clock)) < Lsb(s) <==> InBand(s, clock)
  {
    StoredFields(s, EncodedQuotient(s, clock));
    StoredWindow(s, Encode(s, clock), clock);
  }

  lemma WrapsTo16(m: int, multiplier: nat)
    requires multiplier < 4096
    ensures (m - multiplier * 65536) % 0x1_0000_0000_0000_0000 % 65536 == m % 65536
  {
    var x := m - multiplier * 65536;
    var q := x / 0x1_0000_0000_0000_0000;
    assert x % 0x1_0000_0000_0000_0000 == m - 65536 * (multiplier + 0x1_0000_0000_0000 * q);
    SameRemainder(m, multiplier + 0x1_0000_0000_0000 * q);
  }

  lemma SameRemainder(m: int, k: int)
    ensures (m - 65536 * k) % 65536 == m % 65536
  {
  }

  /**
   Whatever the clock: what is stored are the 16 low bits of the steps the clock is above zero; below the
   correction the subtraction borrows 2^64 first.
   */
  lemma StoredWraps(s: PllState, clock: real, c: int)
    requires Usable(s) && clock >= 0.0 && c == ScaledDown(clock, Scale(s)) - FractionCorrection(s)
    ensures 0 <= c < 0x1_0000_0000_0000_0000 ==> Quotient(Encode(s, clock)) == c / 38400 % 65536
    ensures -0x1_0000_0000_0000_0000 <= c < 0 ==>
      Quotient(Encode(s, clock)) == (0x1_0000_0000_0000_0000 + c) / 38400 % 65536
  {
    StoredFields(s, EncodedQuotient(s, clock));
    Borrowed(c);
    if -0x1_0000_0000_0000_0000 <= c < 0x1_0000_0000_0000_0000 {
      WrapsTo16(c % ULONG / REF_KHZ, Multiplier(s));
    }
  }

  lemma Borrowed(c: int)
    ensures 0 <= c < 0x1_0000_0000_0000_0000 ==> c % ULONG == c
    ensures -0x1_0000_0000_0000_0000 <= c < 0 ==> c % ULONG == 0x1_0000_0000_0000_0000 + c
  {
  }

  // ----- the encoder as it is written

  /**
   The working value of the encoder, rewritten step by step. In the band it is the quotient whose window
   holds the scaled clock.
   */
  method Divide(scaled: int, correction: nat, multiplier: nat) returns (temp: nat)
    ensures temp == QuotientOf(scaled, correction, multiplier)
    ensures multiplier < 4096 && Reachable(scaled, correction, multiplier) ==>
      temp < 65536
      && REF_KHZ * (multiplier * 65536 + temp) <= scaled - correction < REF_KHZ * (multiplier * 65536 + temp + 1)
  {
    temp := (scaled - correction) % ULONG;
    temp := temp / REF_KHZ;
    temp := (temp - multiplier * 65536) % ULONG;
    if multiplier < 4096 && Reachable(scaled, correction, multiplier) {
      WindowOfDivision(scaled - correction, (scaled - correction) / REF_KHZ);
      QuotientInBand(scaled, correction, multiplier, (scaled - correction) / REF_KHZ);
    }
  }

  /** `c10::calculate_feedback_dividers` */
  method CalculateFeedbackDividers(s: PllState, clock: real) returns (mod: PllState)
    requires Usable(s) && clock >= 0.0
    ensures mod == Encode(s, clock) && SameBand(s, mod)
    ensures 0.0 <= clock - PllClock(mod) < Lsb(s) <==> InBand(s, clock)
    ensures clock == PllClock(s) ==> mod == s
  {
    var temp := Divide(ScaledDown(clock, Scale(s)), FractionCorrection(s), Multiplier(s));
    mod := Store(s, temp);
    EncodeLaws(s, clock);
  }

  lemma EncodeLaws(s: PllState, clock: real)
    requires Usable(s) && clock >= 0.0
    ensures SameBand(s, Encode(s, clock))
    ensures 0.0 <= clock - PllClock(Encode(s, clock)) < Lsb(s) <==> InBand(s, clock)
    ensures clock == PllClock(s) ==> Encode(s, clock) == s
  {
    RoundTrip(s, clock);
    StoredFields(s, EncodedQuotient(s, clock));
    EncodeInvertsDecode(s);
  }

  // ----- as a codec

  function EncodeAny(s: PllState, clock: real): PllState {
    if Usable(s) && clock >= 0.0 then Encode(s, clock) else s
  }

  function DecodeAny(s: PllState): real {
    if Usable(s) then PllClock(s) else 0.0
  }

  function C10Codec(): Codec<PllState> {
    var codec: Codec<PllState> := Codec(EncodeAny, DecodeAny);
    codec
  }

  /** Only the quotient differs. */
  predicate SameBand(s: PllState, t: PllState) {
    && Usable(s) && Usable(t)
    && Multiplier(t) == Multiplier(s) && Scale(t) == Scale(s) && FractionCorrection(t) == FractionCorrection(s)
  }

  /** The clock at which the quotient would be `quotient`. */
  function BandEnd(scale: int, correction: int, multiplier: int, quotient: int): real
    requires scale > 0
  {
    ScaledUp(REF_KHZ * (multiplier * 65536 + quotient) + correction, scale)
  }

  function BandLow(s: PllState): real
    requires Usable(s)
  {
    BandEnd(Scale(s), FractionCorrection(s), Multiplier(s), 0)
  }

  function BandHigh(s: PllState): real
    requires Usable(s)
  {
    BandEnd(Scale(s), FractionCorrection(s), Multiplier(s), 65536)
  }

  lemma BandPositive(s: PllState)
    requires Usable(s)
    ensures BandLow(s) >= 0.0
  {
    EndPositive(Scale(s), FractionCorrection(s), Multiplier(s));
  }

  lemma EndPositive(scale: int, correction: nat, multiplier: nat)
    requires scale > 0
    ensures BandEnd(scale, correction, multiplier, 0) >= 0.0
  {
    DivMonotone(0.0, (REF_KHZ * (multiplier * 65536 + 0) + correction) as real, scale as real);
  }

  /** These are the ends of the band. */
  lemma BandIff(s: PllState, clock: real)
    requires Usable(s)
    ensures BandLow(s) <= clock < BandHigh(s) <==> InBand(s, clock)
  {
    EndsOfBand(clock, Scale(s), FractionCorrection(s), Multiplier(s));
  }

  lemma EndsOfBand(clock: real, scale: int, correction: int, multiplier: int)
    requires scale > 0
    ensures BandEnd(scale, correction, multiplier, 0) <= clock < BandEnd(scale, correction, multiplier, 65536)
       <==> Reachable(ScaledDown(clock, scale), correction, multiplier)
  {
    ScaledWindow(clock, scale, REF_KHZ * (multiplier * 65536 + 0) + correction,
                 REF_KHZ * (multiplier * 65536 + 65536) + correction);
  }

  lemma ScaledWindow(clock: real, scale: int, low: int, high: int)
    requires scale > 0
    ensures ScaledUp(low, scale) <= clock < ScaledUp(high, scale) <==> low <= ScaledDown(clock, scale) < high
  {
    var r := scale as real;
    DivTimes(low as real, r);
    DivTimes(high as real, r);
    FactorOrder(clock, ScaledUp(high, scale), r);
    FactorOrder(clock, ScaledUp(low, scale), r);
  }

  lemma BandRoundTrip(s: PllState, t: PllState, clock: real)
    requires SameBand(s, t) && BandLow(s) <= clock < BandHigh(s)
    ensures clock >= 0.0 && SameBand(s, Encode(t, clock))
    ensures 0.0 <= clock - PllClock(Encode(t, clock)) < Lsb(s)
  {
    BandIff(s, clock);
    BandPositive(s);
    assert InBand(t, clock);
    StoredFields(t, EncodedQuotient(t, clock));
    RoundTrip(t, clock);
  }

  lemma C10Quantises(s: PllState)
    requires Usable(s)
    ensures QuantisesBelow(C10Codec(), (t: PllState) => SameBand(s, t), BandLow(s), BandHigh(s), Lsb(s))
    ensures Quantises(C10Codec(), (t: PllState) => SameBand(s, t), BandLow(s), BandHigh(s), Lsb(s))
  {
    var c := C10Codec();
    forall t: PllState, x: real | SameBand(s, t) && BandLow(s) <= x < BandHigh(s)
      ensures SameBand(s, c.encode(t, x)) && 0.0 <= x - c.decode(c.encode(t, x)) <= Lsb(s)
    {
      BandRoundTrip(s, t, x);
    }
    BelowIsWithin(c, (t: PllState) => SameBand(s, t), BandLow(s), BandHigh(s), Lsb(s));
  }
}
