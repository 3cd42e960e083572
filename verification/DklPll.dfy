/** The divider arithmetic of `lib/dkl.cpp`. Clocks are in MHz, registers are 32-bit words. */
module DklPll {
  import opened RealMath
  import opened Bits
  import opened Codec

  /** `REF_CLK_FREQ` in MHz. */
  const REF_MHZ: real := 38.4

  const MAX_INT_PART: nat := 0xFF
  const MAX_FRAC_PART: nat := 0x3F_FFFF

  /** Codes of the 22-bit fraction. */
  const FRACTION_STEPS: nat := 0x40_0000

  /** The five registers `program_mmio` writes. */
  datatype Registers = Registers(pllDiv0: nat, visaSerializer: nat, bias: nat, ssc: nat, dco: nat)

  function Predivider(div0: nat): nat { GetBitsVal(div0, 11, 8) }

  function IntegerPart(div0: nat): nat { GetBitsVal(div0, 7, 0) }

  function FractionPart(bias: nat): nat { GetBitsVal(bias, 29, 8) }

  /** The feedback ratio the two fields stand for. */
  function Ratio(integer: nat, fraction: nat): real {
    integer as real + fraction as real / FRACTION_STEPS as real
  }

  /** The predivided reference clock. */
  function Reference(div0: nat): real { REF_MHZ * Predivider(div0) as real }

  function PllClock(div0: nat, bias: nat): real {
    Times(Reference(div0), Ratio(IntegerPart(div0), FractionPart(bias)))
  }

  /** The encoder's integer part of a feedback ratio: 8 bits, clamped. */
  function EncodeInteger(ratio: real): nat
    requires ratio >= 0.0
  {
    if ratio.Floor < MAX_INT_PART then ratio.Floor else MAX_INT_PART
  }

  /** The encoder's fraction: rounded to 22 bits and clamped. */
  function EncodeFraction(ratio: real): nat
    requires ratio >= 0.0
  {
    var rounded := Round((ratio - EncodeInteger(ratio) as real) * FRACTION_STEPS as real);
    if rounded > MAX_FRAC_PART then MAX_FRAC_PART else rounded
  }

  /** The ratio of a clock to the predivided reference. */
  function RatioOf(div0: nat, clock: real): real
    requires Predivider(div0) != 0
  {
    clock / Reference(div0)
  }

  /** The encoder divides by the predivider, and what it rounds must fit the cast to 32 bits. */
  predicate Encodable(r: Registers, clock: real) {
    Predivider(r.pllDiv0) != 0 && 0.0 <= RatioOf(r.pllDiv0, clock) < 1279.0 - LSB / 2.0
  }

  /** That is the case up to half a step below 255 + 1024. */
  lemma EncodableIff(r: Registers, clock: real)
    requires Predivider(r.pllDiv0) != 0 && RatioOf(r.pllDiv0, clock) >= 0.0
    ensures var ratio := RatioOf(r.pllDiv0, clock);
      Encodable(r, clock) <==> Round((ratio - EncodeInteger(ratio) as real) * 4194304.0) < 0x1_0000_0000
  {
    CastFitsIff(RatioOf(r.pllDiv0, clock));
  }

  lemma CastFitsIff(ratio: real)
    requires ratio >= 0.0
    ensures Round((ratio - EncodeInteger(ratio) as real) * 4194304.0) < 0x1_0000_0000 <==> ratio < 1279.0 - LSB / 2.0
  {
  }

  function Encode(r: Registers, clock: real): Registers
    requires Encodable(r, clock)
  {
    var ratio := RatioOf(r.pllDiv0, clock);
    Registers(
      Or(ClearBits(r.pllDiv0, 7, 0), EncodeInteger(ratio)),
      Or(ClearBits(r.visaSerializer, 2, 0), 0x200),
      Or(ClearBits(r.bias, 29, 8), Shl(EncodeFraction(ratio), 8)),
      Or(ClearBits(Or(ClearBits(r.ssc, 31, 29), 0x4000_0000), 13, 13), 0x2000),
      Or(ClearBits(r.dco, 2, 2), 0x4))
  }

  // ----- the encoder on ratios

  /** The integer and the fraction as one 30-bit number. */
  function Code(integer: nat, fraction: nat): nat {
    integer * FRACTION_STEPS + fraction
  }

  function EncodedRatio(ratio: real): real
    requires ratio >= 0.0
  {
    Ratio(EncodeInteger(ratio), EncodeFraction(ratio))
  }

  /** One step of the fraction, as a ratio. */
  const LSB: real := 1.0 / 4194304.0

  lemma EncodeInvertsRatio(integer: nat, fraction: nat)
    requires integer <= MAX_INT_PART && fraction <= MAX_FRAC_PART
    ensures Ratio(integer, fraction) >= 0.0
    ensures EncodeInteger(Ratio(integer, fraction)) == integer
    ensures EncodeFraction(Ratio(integer, fraction)) == fraction
  {
  }

  /**
   The written ratio is within a step of the one asked for exactly below 256, and it is a nearest one
   exactly up to half a step below the next integer, where the clamp of the fraction sets in.
   */
  lemma RatioError(ratio: real)
    requires 0.0 <= ratio
    ensures Abs(ratio - EncodedRatio(ratio)) < LSB <==> ratio < 256.0
    ensures ratio < 256.0 ==>
      (Abs(ratio - EncodedRatio(ratio)) <= LSB / 2.0 <==> ratio - ratio.Floor as real <= 1.0 - LSB / 2.0)
  {
  }

  lemma RatioOrder(integer: nat, fraction: nat, i: nat, f: nat)
    ensures Code(integer, fraction) <= Code(i, f) <==> Ratio(integer, fraction) <= Ratio(i, f)
  {
  }

  lemma EncodeMonotone(a: real, b: real)
    requires 0.0 <= a <= b
    ensures Code(EncodeInteger(a), EncodeFraction(a)) <= Code(EncodeInteger(b), EncodeFraction(b))
    ensures b >= 256.0 ==> EncodeInteger(b) == MAX_INT_PART && EncodeFraction(b) == MAX_FRAC_PART
  {
  }

  // ----- packing

  lemma FieldWidths()
    ensures Pow2(8) == 256 && Pow2(22) == FRACTION_STEPS
  {
    assert Pow2(11) == 2048;
    assert Pow2(20) == 0x10_0000;
  }

  lemma FieldRanges(r: Registers)
    ensures IntegerPart(r.pllDiv0) <= MAX_INT_PART && FractionPart(r.bias) <= MAX_FRAC_PART
  {
    FieldWidths();
    GetBitsIsField(r.pllDiv0, 7, 0);
    GetBitsIsField(r.bias, 29, 8);
    LowShr(r.pllDiv0, 8);
    LowShr(Shr(r.bias, 8), 22);
  }

  lemma PredividerAbove(v: nat, w: nat)
    requires Shr(v, 8) == Shr(w, 8)
    ensures Predivider(v) == Predivider(w)
  {
    GetBitsIsField(v, 11, 8);
    GetBitsIsField(w, 11, 8);
  }

  ghost predicate Around(v: nat, w: nat, h: nat, l: nat, field: nat)
    requires l <= h < LONG_BITS
  {
    GetBitsVal(v, h, l) == field && Low(v, l) == Low(w, l) && Shr(v, h + 1) == Shr(w, h + 1)
  }

  /** The two divider fields are read back as written; the predivider and every other bit of both words stay. */
  lemma EncodedFields(r: Registers, clock: real)
    requires Encodable(r, clock)
    ensures var t, ratio := Encode(r, clock), RatioOf(r.pllDiv0, clock);
            && Around(t.pllDiv0, r.pllDiv0, 7, 0, EncodeInteger(ratio))
            && Around(t.bias, r.bias, 29, 8, EncodeFraction(ratio))
            && Predivider(t.pllDiv0) == Predivider(r.pllDiv0)
  {
    var t, ratio := Encode(r, clock), RatioOf(r.pllDiv0, clock);
    FieldWidths();
    SetFieldLaw(r.pllDiv0, 7, 0, EncodeInteger(ratio));
    SetFieldLaw(r.bias, 29, 8, EncodeFraction(ratio));
    PredividerAbove(t.pllDiv0, r.pllDiv0);
  }

  /** The clock of a register pair in terms of the numbers in its three fields. */
  lemma ClockOfFields(top: nat, predivider: nat, integer: nat, above: nat, fraction: nat, below: nat)
    requires predivider < 16 && integer < 256 && fraction < 0x40_0000 && below < 256
    ensures PllClock((top * 16 + predivider) * 256 + integer, (above * 0x40_0000 + fraction) * 256 + below)
         == Times(38.4 * predivider as real, integer as real + fraction as real / 4194304.0)
  {
    var div0, bias := (top * 16 + predivider) * 256 + integer, (above * 0x40_0000 + fraction) * 256 + below;
    FieldWidths();
    FieldOfSum(top, predivider, top * 16 + predivider, integer, 8, 4, div0);
    FieldOfSum(top * 16 + predivider, integer, div0, 0, 0, 8, div0);
    FieldOfSum(above, fraction, above * 0x40_0000 + fraction, below, 8, 22, bias);
  }

  lemma ReplacedBits(w: nat, h: nat, l: nat, j: nat, one: nat, k: nat)
    requires l <= h < LONG_BITS && one == Shl(1, j)
    ensures Bit(Or(ClearBits(w, h, l), one), k) <==> k == j || (Bit(w, k) && !(l <= k <= h))
  {
    BitOfCleared(w, h, l, k);
    BitOfSet(ClearBits(w, h, l), j, k);
  }

  lemma ControlBits()
    ensures Shl(1, 9) == 0x200 && Shl(1, 30) == 0x4000_0000 && Shl(1, 13) == 0x2000 && Shl(1, 2) == 0x4
  {
    assert Shl(1, 13) == 0x2000;
    assert Shl(1, 20) == 0x10_0000;
    assert Shl(1, 25) == 0x200_0000;
  }

  /** The three control words get the bits the source gives them and keep all others. */
  lemma ControlWords(r: Registers, clock: real, k: nat)
    requires Encodable(r, clock)
    ensures Bit(Encode(r, clock).visaSerializer, k) <==> k == 9 || (Bit(r.visaSerializer, k) && k > 2)
    ensures Bit(Encode(r, clock).ssc, k) <==> k == 30 || k == 13 || (Bit(r.ssc, k) && k != 31 && k != 29)
    ensures Bit(Encode(r, clock).dco, k) <==> k == 2 || Bit(r.dco, k)
  {
    ControlBits();
    ReplacedBits(r.visaSerializer, 2, 0, 9, 0x200, k);
    ReplacedBits(r.ssc, 31, 29, 30, 0x4000_0000, k);
    ReplacedBits(Or(ClearBits(r.ssc, 31, 29), 0x4000_0000), 13, 13, 13, 0x2000, k);
    ReplacedBits(r.dco, 2, 2, 2, 0x4, k);
  }

  // ----- round trips

  lemma RatioOfProduct(scale: real, ratio: real, product: real)
    requires scale > 0.0 && product == Times(scale, ratio)
    ensures product / scale == ratio
  {
  }

  lemma RatioOfDecoded(div0: nat, bias: nat)
    requires Predivider(div0) != 0
    ensures RatioOf(div0, PllClock(div0, bias)) == Ratio(IntegerPart(div0), FractionPart(bias))
  {
    RatioOfProduct(Reference(div0), Ratio(IntegerPart(div0), FractionPart(bias)), PllClock(div0, bias));
  }

  lemma DecodedEncodable(r: Registers)
    requires Predivider(r.pllDiv0) != 0
    ensures Encodable(r, PllClock(r.pllDiv0, r.bias))
  {
    RatioOfDecoded(r.pllDiv0, r.bias);
    FieldRanges(r);
  }

  /** Writing the clock just read changes neither of the two divider registers, whatever they hold. */
  lemma EncodeInvertsDecode(r: Registers)
    requires Predivider(r.pllDiv0) != 0
    ensures var clock := PllClock(r.pllDiv0, r.bias);
            Encodable(r, clock) && Encode(r, clock).pllDiv0 == r.pllDiv0 && Encode(r, clock).bias == r.bias
  {
    var clock := PllClock(r.pllDiv0, r.bias);
    DecodedEncodable(r);
    var t := Encode(r, clock);
    RatioOfDecoded(r.pllDiv0, r.bias);
    FieldRanges(r);
    EncodeInvertsRatio(IntegerPart(r.pllDiv0), FractionPart(r.bias));
    EncodedFields(r, clock);
    SameFields(t.pllDiv0, r.pllDiv0, 7, 0);
    SameFields(t.bias, r.bias, 29, 8);
  }

  /** One step of the fraction, as a clock. */
  function Lsb(div0: nat): real { Reference(div0) * LSB }

  lemma ScaledError(scale: real, clock: real, ratio: real, other: real, product: real, step: real, scaledStep: real)
    requires scale > 0.0 && ratio == clock / scale && product == Times(scale, other) && scaledStep == scale * step
    ensures Abs(clock - product) < scaledStep <==> Abs(ratio - other) < step
  {
    DivTimes(clock, scale);
    FactorOrder(ratio - other, step, scale);
    FactorOrder(other - ratio, step, scale);
    assert clock - product == (ratio - other) * scale;
    assert product - clock == (other - ratio) * scale;
  }

  /** `t` holds the dividers for `ratio` next to the predivider of `r`. */
  ghost predicate Divides(t: Registers, r: Registers, ratio: real)
    requires ratio >= 0.0
  {
    && Predivider(t.pllDiv0) == Predivider(r.pllDiv0)
    && IntegerPart(t.pllDiv0) == EncodeInteger(ratio)
    && FractionPart(t.bias) == EncodeFraction(ratio)
  }

  lemma EncodeDivides(r: Registers, clock: real)
    requires Encodable(r, clock)
    ensures Divides(Encode(r, clock), r, RatioOf(r.pllDiv0, clock))
  {
    EncodedFields(r, clock);
  }

  lemma ClockError(div0: nat, clock: real, decoded: real)
    requires Predivider(div0) != 0 && RatioOf(div0, clock) >= 0.0
    requires decoded == Times(Reference(div0), EncodedRatio(RatioOf(div0, clock)))
    ensures Abs(clock - decoded) < Lsb(div0) <==> RatioOf(div0, clock) < 256.0
  {
    var ratio := RatioOf(div0, clock);
    ScaledError(Reference(div0), clock, ratio, EncodedRatio(ratio), decoded, LSB, Lsb(div0));
    RatioError(ratio);
  }

  lemma DividedClock(t: Registers, r: Registers, ratio: real)
    requires ratio >= 0.0 && Divides(t, r, ratio)
    ensures PllClock(t.pllDiv0, t.bias) == Times(Reference(r.pllDiv0), EncodedRatio(ratio))
  {
    assert Reference(t.pllDiv0) == Reference(r.pllDiv0);
  }

  lemma DividedClockError(t: Registers, r: Registers, clock: real)
    requires Encodable(r, clock) && Divides(t, r, RatioOf(r.pllDiv0, clock))
    ensures Abs(clock - PllClock(t.pllDiv0, t.bias)) < Lsb(r.pllDiv0) <==> RatioOf(r.pllDiv0, clock) < 256.0
  {
    DividedClock(t, r, RatioOf(r.pllDiv0, clock));
    ClockError(r.pllDiv0, clock, PllClock(t.pllDiv0, t.bias));
  }

  /** Writing a clock and reading it back is off by less than a step exactly when its ratio is below 256. */
  lemma RoundTrip(r: Registers, clock: real)
    requires Encodable(r, clock)
    ensures var t := Encode(r, clock);
      Abs(clock - PllClock(t.pllDiv0, t.bias)) < Lsb(r.pllDiv0) <==> RatioOf(r.pllDiv0, clock) < 256.0
  {
    EncodeDivides(r, clock);
    DividedClockError(Encode(r, clock), r, clock);
  }

  lemma RatioMonotone(div0: nat, a: real, b: real)
    requires Predivider(div0) != 0 && a <= b
    ensures RatioOf(div0, a) <= RatioOf(div0, b)
  {
    DivMonotone(a, b, Reference(div0));
  }

  /** A higher clock never programs a lower one, and from ratio 256 on every clock programs the largest fields. */
  lemma EncodeIsMonotone(r: Registers, a: real, b: real)
    requires Encodable(r, a) && Encodable(r, b) && a <= b
    ensures var s, t := Encode(r, a), Encode(r, b);
      && PllClock(s.pllDiv0, s.bias) <= PllClock(t.pllDiv0, t.bias)
      && (RatioOf(r.pllDiv0, b) >= 256.0 ==> IntegerPart(t.pllDiv0) == 0xFF && FractionPart(t.bias) == 0x3F_FFFF)
  {
    var x, y := RatioOf(r.pllDiv0, a), RatioOf(r.pllDiv0, b);
    RatioMonotone(r.pllDiv0, a, b);
    EncodeMonotone(x, y);
    RatioOrder(EncodeInteger(x), EncodeFraction(x), EncodeInteger(y), EncodeFraction(y));
    EncodeDivides(r, a);
    EncodeDivides(r, b);
    DividedClock(Encode(r, a), r, x);
    DividedClock(Encode(r, b), r, y);
    TimesMonotone(Reference(r.pllDiv0), EncodedRatio(x), EncodedRatio(y));
  }

  lemma TimesMonotone(scale: real, x: real, y: real)
    requires scale >= 0.0 && x <= y
    ensures Times(scale, x) <= Times(scale, y)
  {
  }

  // ----- as a codec

  function EncodeAny(r: Registers, clock: real): Registers {
    if Encodable(r, clock) then Encode(r, clock) else r
  }

  function DecodeAny(r: Registers): real {
    PllClock(r.pllDiv0, r.bias)
  }

  function DklCodec(): Codec<Registers> {
    var codec: Codec<Registers> := Codec(EncodeAny, DecodeAny);
    codec
  }

  lemma QuotientBelow(clock: real, scale: real, bound: real)
    requires scale > 0.0 && 0.0 <= clock < scale * bound
    ensures 0.0 <= clock / scale < bound
  {
    DivTimes(clock, scale);
    DivMonotone(0.0, clock, scale);
    FactorOrder(clock / scale, bound, scale);
    assert scale * bound == bound * scale;
  }

  lemma RatioBelow(div0: nat, clock: real)
    requires Predivider(div0) != 0 && 0.0 <= clock < Reference(div0) * 256.0
    ensures 0.0 <= RatioOf(div0, clock) < 256.0
  {
    QuotientBelow(clock, Reference(div0), 256.0);
  }

  lemma DklQuantises(predivider: nat)
    requires predivider != 0
    ensures Quantises(DklCodec(), (r: Registers) => Predivider(r.pllDiv0) == predivider,
                      0.0, REF_MHZ * predivider as real * 256.0, REF_MHZ * predivider as real * LSB)
  {
    var c := DklCodec();
    forall r: Registers, x: real
      | Predivider(r.pllDiv0) == predivider && 0.0 <= x < REF_MHZ * predivider as real * 256.0
      ensures Predivider(c.encode(r, x).pllDiv0) == predivider
      ensures Abs(x - c.decode(c.encode(r, x))) <= REF_MHZ * predivider as real * LSB
    {
      RatioBelow(r.pllDiv0, x);
      EncodedFields(r, x);
      RoundTrip(r, x);
      assert c.encode(r, x) == Encode(r, x);
    }
  }
}
