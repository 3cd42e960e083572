/** The divider arithmetic of `lib/combo.cpp`. Clocks are in MHz, registers are 32-bit words. */
module ComboPll {
  import opened RealMath
  import opened Bits
  import opened Codec

  /** `REF_COMBO_FREQ * 1000`: the reference clock in kHz. */
  const REF_KHZ: real := 19200.0

  /** One period of the 10-bit integer divider. */
  const INTEGER_RANGE: nat := 1024

  /** Clocks from here on do not fit the integer field: 1024 reference periods, in MHz. */
  const MAX_CLOCK: real := 19660.8

  /** What one write can lose, in kHz: the cut-off kilohertz and the rest of the division by 75. */
  const LOSS_KHZ: real := 1.0 + 74.0 / 64.0

  function DcoKHz(integer: nat, fraction: nat): real {
    integer as real * REF_KHZ + fraction as real * 2.0 * REF_KHZ / 32768.0
  }

  function Integer(cfgcr0: nat): nat {
    GetBitsVal(cfgcr0, 9, 0)
  }

  function Fraction(cfgcr0: nat): nat {
    GetBitsVal(cfgcr0, 24, 10)
  }

  function PllClock(cfgcr0: nat): real {
    DcoKHz(Integer(cfgcr0), Fraction(cfgcr0)) / 1000.0
  }

  function IntegerDivider(clock: real): nat
    requires clock >= 0.0
  {
    (clock * 1000.0 / REF_KHZ).Floor
  }

  /** What the integer part leaves, cut to whole kilohertz. */
  function Remainder(clock: real): nat
    requires clock >= 0.0
  {
    RemainderRange(clock);
    (clock * 1000.0 - IntegerDivider(clock) as real * REF_KHZ).Floor
  }

  function FractionDivider(clock: real): nat
    requires clock >= 0.0
  {
    Remainder(clock) * 32768 / 38400
  }

  function Pack(cfgcr0: nat, integer: nat, fraction: nat): nat {
    Or(Or(ClearBits(cfgcr0, 24, 0), integer), Shl(fraction, 10))
  }

  function Encode(cfgcr0: nat, clock: real): nat
    requires clock >= 0.0
  {
    Pack(cfgcr0, IntegerDivider(clock), FractionDivider(clock))
  }

  lemma RemainderRange(clock: real)
    requires clock >= 0.0
    ensures 0.0 <= clock * 1000.0 - (clock * 1000.0 / REF_KHZ).Floor as real * REF_KHZ < REF_KHZ
  {
  }

  // ----- arithmetic of the dividers

  /** The dividers stand for at most the clock asked for, and lose less than one kilohertz and one code. */
  lemma DividersLoss(clock: real)
    requires clock >= 0.0
    ensures FractionDivider(clock) < 16384
    ensures 0.0 <= clock * 1000.0 - DcoKHz(IntegerDivider(clock), FractionDivider(clock)) < LOSS_KHZ
  {
    RemainderRange(clock);
    var r, f := Remainder(clock), FractionDivider(clock);
    assert r < 19200;
    assert 38400 * f <= r * 32768 < 38400 * f + 38400;
    assert f as real * 2.0 * REF_KHZ / 32768.0 == f as real * 75.0 / 64.0;
  }

  /** No smaller bound will do: a clock just below 42 kHz loses almost as much. */
  lemma LossIsSharp(bound: real)
    requires 0.0 < bound < LOSS_KHZ
    ensures var clock := (42.0 - (if bound < 2.0 then 0.1 else (LOSS_KHZ - bound) / 2.0)) / 1000.0;
      clock >= 0.0 && clock * 1000.0 - DcoKHz(IntegerDivider(clock), FractionDivider(clock)) > bound
  {
    var clock := (42.0 - (if bound < 2.0 then 0.1 else (LOSS_KHZ - bound) / 2.0)) / 1000.0;
    assert 41.0 <= clock * 1000.0 < 42.0;
    assert IntegerDivider(clock) == 0 && Remainder(clock) == 41;
    assert FractionDivider(clock) == 34;
  }

  // ----- packing

  lemma PackIsWord(cfgcr0: nat, integer: nat, fraction: nat)
    ensures Pack(cfgcr0, integer, fraction) == Or(Or(Shl(Shr(cfgcr0, 25), 25), integer), Shl(fraction, 10))
  {
    GetBitsIsField(cfgcr0, 24, 0);
    LowShr(cfgcr0, 25);
  }

  lemma FieldsAt(w: nat, high: nat, integer: nat, fraction: nat, l: nat, width: nat)
    requires fraction < Pow2(width) && w == Or(Or(Shl(high, l + width), integer), Shl(fraction, l))
    requires 0 < l && 0 < width && l + width <= LONG_BITS
    ensures GetBitsVal(w, l - 1, 0) == Low(integer, l)
    ensures integer < Pow2(l) ==>
      GetBitsVal(w, l - 1, 0) == integer && GetBitsVal(w, l + width - 1, l) == fraction && Shr(w, l + width) == high
  {
    FieldsOfWord(high, integer, fraction, l, width);
    GetBitsIsField(w, l - 1, 0);
    GetBitsIsField(w, l + width - 1, l);
    SmallWord(integer, l);
  }

  lemma FieldWidths()
    ensures Pow2(10) == INTEGER_RANGE && Pow2(15) == 32768
  {
  }

  /**
   The integer field keeps the ten low bits of the integer divider. Below 1024 nothing overlaps: both
   dividers are read back and bits 31 to 25 keep their value.
   */
  lemma PackedFields(cfgcr0: nat, integer: nat, fraction: nat)
    requires fraction < 32768
    ensures var w := Pack(cfgcr0, integer, fraction);
            && Integer(w) == Low(integer, 10)
            && (integer < INTEGER_RANGE ==>
                  Integer(w) == integer && Fraction(w) == fraction && Shr(w, 25) == Shr(cfgcr0, 25))
  {
    FieldWidths();
    PackIsWord(cfgcr0, integer, fraction);
    FieldsAt(Pack(cfgcr0, integer, fraction), Shr(cfgcr0, 25), integer, fraction, 10, 15);
  }

  /** From 1024 on the bits of the integer divider above the field are or-ed into the fraction. */
  lemma OverlappingFields(cfgcr0: nat, integer: nat, fraction: nat)
    requires fraction < 32768
    ensures Fraction(Pack(cfgcr0, integer, fraction)) == Or(Low(Shr(integer, 10), 15), fraction)
  {
    FieldWidths();
    PackIsWord(cfgcr0, integer, fraction);
    GetBitsIsField(Pack(cfgcr0, integer, fraction), 24, 10);
    WordAbove(Shr(cfgcr0, 25), integer, fraction);
    LowOr(Or(Shl(Shr(cfgcr0, 25), 15), Shr(integer, 10)), fraction, 15);
    LowOr(Shl(Shr(cfgcr0, 25), 15), Shr(integer, 10), 15);
    ShlInverse(Shr(cfgcr0, 25), 15);
    OrZero(Low(Shr(integer, 10), 15));
    SmallWord(fraction, 15);
  }

  lemma WordAbove(high: nat, integer: nat, fraction: nat)
    ensures Shr(Or(Or(Shl(high, 25), integer), Shl(fraction, 10)), 10)
         == Or(Or(Shl(high, 15), Shr(integer, 10)), fraction)
  {
    ShrOr(Or(Shl(high, 25), integer), Shl(fraction, 10), 10);
    ShrOr(Shl(high, 25), integer, 10);
    ShlField(high, 25, 10);
    ShlInverse(fraction, 10);
  }

  /** The clock of a register in terms of the numbers in its two fields. */
  lemma ClockOfFields(top: nat, fraction: nat, integer: nat)
    requires fraction < 32768 && integer < 1024
    ensures PllClock((top * 32768 + fraction) * 1024 + integer)
         == 19.2 * integer as real + 38.4 * fraction as real / 32768.0
  {
    var w := (top * 32768 + fraction) * 1024 + integer;
    FieldWidths();
    FieldOfSum(top, fraction, top * 32768 + fraction, integer, 10, 15, w);
    FieldOfSum(top * 32768 + fraction, integer, w, 0, 0, 10, w);
  }

  lemma FractionRange(cfgcr0: nat)
    ensures Fraction(cfgcr0) < 32768
    ensures Integer(cfgcr0) < INTEGER_RANGE
  {
    GetBitsIsField(cfgcr0, 24, 10);
    GetBitsIsField(cfgcr0, 9, 0);
    LowShr(Shr(cfgcr0, 10), 15);
    LowShr(cfgcr0, 10);
  }

  lemma IntegerFits(clock: real)
    requires clock >= 0.0
    ensures IntegerDivider(clock) < INTEGER_RANGE <==> clock < MAX_CLOCK
    ensures REF_KHZ * IntegerDivider(clock) as real <= clock * 1000.0
  {
  }

  /**
   Writing a clock and reading it back loses at most `LOSS_KHZ` and never gains, exactly for the clocks
   the integer field can hold; those writes keep the bits above the dividers.
   */
  lemma RoundTrip(cfgcr0: nat, clock: real)
    requires clock >= 0.0
    ensures 0.0 <= clock - PllClock(Encode(cfgcr0, clock)) < LOSS_KHZ / 1000.0 <==> clock < MAX_CLOCK
    ensures clock < MAX_CLOCK ==> Shr(Encode(cfgcr0, clock), 25) == Shr(cfgcr0, 25)
  {
    var i, f := IntegerDivider(clock), FractionDivider(clock);
    DividersLoss(clock);
    PackedFields(cfgcr0, i, f);
    IntegerFits(clock);
    if clock >= MAX_CLOCK {
      LowShr(i, 10);
      SmallWord(i, 10);
      ShlAtLeast(Shr(i, 10), 10);
      FractionRange(Encode(cfgcr0, clock));
    }
  }

  // ----- reading a clock and writing it again

  /** What one read and write makes of a fraction code below one reference period. */
  function Reread(fraction: nat): nat {
    if fraction % 64 == 0 then fraction else fraction - 1
  }

  lemma FloorOfFraction(fraction: nat)
    ensures (fraction as real * 75.0 / 64.0).Floor == 75 * fraction / 64
  {
    assert fraction as real * 75.0 == (75 * fraction) as real;
    FloorOfQuotient(75 * fraction, 64);
  }

  lemma LowestTerms(n: nat)
    ensures n * 32768 / 38400 == 64 * n / 75
  {
  }

  lemma RereadFraction(fraction: nat)
    requires fraction < 16384
    ensures (fraction as real * 75.0 / 64.0).Floor * 32768 / 38400 == Reread(fraction)
  {
    FloorOfFraction(fraction);
    LowestTerms(75 * fraction / 64);
    var q, m := fraction / 64, fraction % 64;
    assert 75 * fraction / 64 == 75 * q + 75 * m / 64;
  }

  lemma CarryWholePeriods(integer: nat, fraction: nat)
    ensures DcoKHz(integer, fraction) == DcoKHz(integer + fraction / 16384, fraction % 16384)
  {
    var q, m := fraction / 16384, fraction % 16384;
    assert fraction as real == 16384.0 * q as real + m as real;
  }

  lemma RereadDividers(integer: nat, fraction: nat, clock: real)
    requires fraction < 16384 && clock >= 0.0 && clock * 1000.0 == DcoKHz(integer, fraction)
    ensures IntegerDivider(clock) == integer && FractionDivider(clock) == Reread(fraction)
  {
    var part := fraction as real * 75.0 / 64.0;
    assert clock * 1000.0 == integer as real * REF_KHZ + part;
    assert clock * 1000.0 / REF_KHZ == integer as real + part / REF_KHZ;
    RereadFraction(fraction);
  }

  lemma DividersAgain(integer: nat, fraction: nat, clock: real)
    requires clock == DcoKHz(integer, fraction) / 1000.0
    ensures clock >= 0.0 && IntegerDivider(clock) == integer + fraction / 16384
    ensures FractionDivider(clock) == Reread(fraction % 16384)
  {
    CarryWholePeriods(integer, fraction);
    RereadDividers(integer + fraction / 16384, fraction % 16384, clock);
  }

  /**
   Writing the clock just read: a fraction of a whole reference period carries into the integer divider,
   and what is left keeps its code if 64 divides it and otherwise loses one.
   */
  lemma ReadThenWrite(cfgcr0: nat)
    ensures PllClock(cfgcr0) >= 0.0
    ensures Encode(cfgcr0, PllClock(cfgcr0))
         == Pack(cfgcr0, Integer(cfgcr0) + Fraction(cfgcr0) / 16384, Reread(Fraction(cfgcr0) % 16384))
  {
    DividersAgain(Integer(cfgcr0), Fraction(cfgcr0), PllClock(cfgcr0));
  }

  /** One round, as a function of the register. */
  function ReadWrite(cfgcr0: nat): nat {
    Encode(cfgcr0, PllClock(cfgcr0))
  }

  /** The register after `n` rounds of reading the clock and writing it back. */
  function Rounds(cfgcr0: nat, n: nat): nat {
    if n == 0 then cfgcr0 else ReadWrite(Rounds(cfgcr0, n - 1))
  }

  ghost predicate SameButFraction(w: nat, cfgcr0: nat, fraction: nat) {
    Integer(w) == Integer(cfgcr0) && Shr(w, 25) == Shr(cfgcr0, 25) && Fraction(w) == fraction
  }

  lemma PackReread(cfgcr0: nat, fraction: nat)
    requires fraction < 16384
    ensures SameButFraction(Pack(cfgcr0, Integer(cfgcr0), fraction), cfgcr0, fraction)
  {
    FractionRange(cfgcr0);
    PackedFields(cfgcr0, Integer(cfgcr0), fraction);
  }

  lemma BelowOnePeriod(integer: nat, fraction: nat)
    requires fraction < 16384
    ensures integer + fraction / 16384 == integer && fraction % 16384 == fraction
  {
  }

  lemma OneRound(cfgcr0: nat)
    requires Fraction(cfgcr0) < 16384
    ensures SameButFraction(ReadWrite(cfgcr0), cfgcr0, Reread(Fraction(cfgcr0)))
  {
    ReadThenWrite(cfgcr0);
    BelowOnePeriod(Integer(cfgcr0), Fraction(cfgcr0));
    PackReread(cfgcr0, Reread(Fraction(cfgcr0)));
  }

  lemma NextRound(w: nat, cfgcr0: nat, fraction: nat)
    requires fraction < 16384 && SameButFraction(w, cfgcr0, fraction)
    ensures SameButFraction(ReadWrite(w), cfgcr0, Reread(fraction))
  {
    OneRound(w);
  }

  /** One code lost per round, down to the next multiple of 64. */
  function Drifted(fraction: nat, n: nat): nat {
    if n <= fraction % 64 then fraction - n else fraction - fraction % 64
  }

  lemma DriftedStep(fraction: nat, n: nat)
    requires n > 0
    ensures Drifted(fraction, n) == Reread(Drifted(fraction, n - 1))
  {
  }

  /**
   Repeated rounds lower the fraction by one each time down to the next multiple of 64, where they stop;
   nothing else in the register changes.
   */
  lemma {:induction false} RoundsDrift(cfgcr0: nat, n: nat)
    requires Fraction(cfgcr0) < 16384
    ensures SameButFraction(Rounds(cfgcr0, n), cfgcr0, Drifted(Fraction(cfgcr0), n))
  {
    if n == 0 {
      assert Drifted(Fraction(cfgcr0), 0) == Fraction(cfgcr0);
    } else {
      RoundsDrift(cfgcr0, n - 1);
      DriftedStep(Fraction(cfgcr0), n);
      NextRound(Rounds(cfgcr0, n - 1), cfgcr0, Drifted(Fraction(cfgcr0), n - 1));
    }
  }

  // ----- as a codec

  /** The source only calls the encoder for positive clocks. */
  function EncodeAny(cfgcr0: nat, clock: real): nat {
    if clock >= 0.0 then Encode(cfgcr0, clock) else cfgcr0
  }

  function ComboCodec(): Codec<nat> {
    var codec: Codec<nat> := Codec(EncodeAny, PllClock);
    codec
  }

  lemma ComboQuantises()
    ensures QuantisesBelow(ComboCodec(), (cfgcr0: nat) => true, 0.0, MAX_CLOCK, LOSS_KHZ / 1000.0)
    ensures Quantises(ComboCodec(), (cfgcr0: nat) => true, 0.0, MAX_CLOCK, LOSS_KHZ / 1000.0)
  {
    var c := ComboCodec();
    forall image: nat, x: real | 0.0 <= x < MAX_CLOCK
      ensures 0.0 <= x - c.decode(c.encode(image, x)) <= LOSS_KHZ / 1000.0
    {
      RoundTrip(image, x);
      assert c.encode(image, x) == Encode(image, x);
    }
    BelowIsWithin(c, (cfgcr0: nat) => true, 0.0, MAX_CLOCK, LOSS_KHZ / 1000.0);
  }

  // ----- small changes

  /** Past the end of the integer field a whole field is lost, but for what the overlap puts in the fraction. */
  lemma OverflowLoses(cfgcr0: nat, clock: real)
    requires clock >= MAX_CLOCK
    ensures PllClock(Encode(cfgcr0, clock)) <= clock - MAX_CLOCK + 2.0 * REF_KHZ / 1000.0
  {
    var i, f := IntegerDivider(clock), FractionDivider(clock);
    DividersLoss(clock);
    PackedFields(cfgcr0, i, f);
    IntegerFits(clock);
    FieldWidths();
    LowShr(i, 10);
    SmallWord(i, 10);
    ShlAtLeast(Shr(i, 10), 10);
    assert Integer(Encode(cfgcr0, clock)) <= i - INTEGER_RANGE;
    FractionRange(Encode(cfgcr0, clock));
  }

  /** A write never programs more than the clock asked for, at any clock. */
  lemma EncodeNeverAbove(cfgcr0: nat, clock: real)
    requires clock >= 0.0
    ensures PllClock(Encode(cfgcr0, clock)) <= clock
  {
    RoundTrip(cfgcr0, clock);
    if clock >= MAX_CLOCK {
      OverflowLoses(cfgcr0, clock);
    }
  }

  /** By how many kHz a code has to be raised to reach the next one: up to the first whole kilohertz of that code. */
  function ToNextCode(fraction: nat): real {
    ((75 * (fraction + 1) + 63) / 64) as real - fraction as real * 75.0 / 64.0
  }

  /** The whole kilohertz that program more than `fraction`. */
  lemma KHzOfNextCode(fraction: nat, kHz: nat)
    ensures kHz * 32768 / 38400 > fraction <==> kHz >= (75 * (fraction + 1) + 63) / 64
  {
    LowestTerms(kHz);
  }

  /** A clock within the reference period above `integer` whole ones keeps the integer divider. */
  lemma DividersWithin(integer: nat, part: real, clock: real)
    requires 0.0 <= part < REF_KHZ && clock >= 0.0 && clock * 1000.0 == integer as real * REF_KHZ + part
    ensures IntegerDivider(clock) == integer && FractionDivider(clock) == part.Floor * 32768 / 38400
  {
    assert clock * 1000.0 / REF_KHZ == integer as real + part / REF_KHZ;
  }

  lemma CodeOrder(integer: nat, f: nat, g: nat)
    ensures DcoKHz(integer, f) < DcoKHz(integer, g) <==> f < g
  {
  }

  /** What is above a code by `raise` kHz programs a higher one. */
  lemma RaisedDividers(integer: nat, fraction: nat, raise: real, clock: real)
    requires fraction < 16384 && raise >= 0.0 && clock >= 0.0 && clock * 1000.0 == DcoKHz(integer, fraction) + raise
    ensures DcoKHz(IntegerDivider(clock), FractionDivider(clock)) > DcoKHz(integer, fraction)
       <==> raise >= ToNextCode(fraction)
  {
    var part := fraction as real * 75.0 / 64.0 + raise;
    assert clock * 1000.0 == integer as real * REF_KHZ + part;
    if part < REF_KHZ {
      DividersWithin(integer, part, clock);
      FloorReachesNextCode(fraction, raise, part);
      CodeOrder(integer, fraction, FractionDivider(clock));
    } else {
      WholePeriodMore(integer, fraction, clock);
    }
  }

  lemma FloorReachesNextCode(fraction: nat, raise: real, part: real)
    requires raise >= 0.0 && part == fraction as real * 75.0 / 64.0 + raise
    ensures part.Floor * 32768 / 38400 > fraction <==> raise >= ToNextCode(fraction)
  {
    KHzOfNextCode(fraction, part.Floor);
  }

  lemma WholePeriodMore(integer: nat, fraction: nat, clock: real)
    requires fraction < 16384 && clock >= 0.0 && clock * 1000.0 >= (integer + 1) as real * REF_KHZ
    ensures DcoKHz(IntegerDivider(clock), FractionDivider(clock)) > DcoKHz(integer, fraction)
  {
    assert clock * 1000.0 / REF_KHZ >= (integer + 1) as real;
    assert IntegerDivider(clock) >= integer + 1;
  }

  lemma ClockRange(cfgcr0: nat)
    ensures 0.0 <= PllClock(cfgcr0) < 20000.0
  {
    FractionRange(cfgcr0);
  }

  /**
   A register asked for more than it holds ends above where it was exactly when the raise reaches the next
   code and the integer field holds the clock.
   */
  lemma RaisedIff(cfgcr0: nat, raise: real)
    requires 0.0 <= raise <= 1000.0
    ensures PllClock(cfgcr0) >= 0.0
    ensures PllClock(Encode(cfgcr0, PllClock(cfgcr0) + raise)) > PllClock(cfgcr0)
       <==> raise * 1000.0 >= ToNextCode(Fraction(cfgcr0) % 16384) && PllClock(cfgcr0) + raise < MAX_CLOCK
  {
    var clock := PllClock(cfgcr0) + raise;
    CarryWholePeriods(Integer(cfgcr0), Fraction(cfgcr0));
    RaisedDividers(Integer(cfgcr0) + Fraction(cfgcr0) / 16384, Fraction(cfgcr0) % 16384, raise * 1000.0, clock);
    if clock >= MAX_CLOCK {
      OverflowLoses(cfgcr0, clock);
    } else {
      DividersLoss(clock);
      IntegerFits(clock);
      PackedFields(cfgcr0, IntegerDivider(clock), FractionDivider(clock));
    }
  }

  /** The next code is more than one kilohertz away, and little more than two. */
  lemma KilohertzToNextCode(fraction: nat)
    ensures 75.0 / 64.0 <= ToNextCode(fraction) <= 138.0 / 64.0
  {
  }
}
