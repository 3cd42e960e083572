/**
 What the frequency logic of `phys` sees of a concrete PHY: a register image, a way to read a clock from
 it and a way to write a clock into it. The virtual functions of the class become the two functions of
 this datatype.
 */
module Codec {
  import opened RealMath

  /** `encode(image, clock)` is the image programmed for `clock` when the registers hold `image`. */
  datatype Codec<!Code> = Codec(encode: (Code, real) -> Code, decode: Code -> real)

  /**
   From every image of the kind `ok`, writing a clock in `[lo, hi)` gives an image of the same kind whose
   clock is within `eps` of the one asked for.
   */
  ghost predicate Quantises<Code(!new)>(c: Codec<Code>, ok: Code -> bool, lo: real, hi: real, eps: real) {
    forall image, x :: ok(image) && lo <= x < hi ==>
      ok(c.encode(image, x)) && Abs(x - c.decode(c.encode(image, x))) <= eps
  }

  /** The same for a PHY that never programs more than it is asked for. */
  ghost predicate QuantisesBelow<Code(!new)>(c: Codec<Code>, ok: Code -> bool, lo: real, hi: real, eps: real) {
    forall image, x :: ok(image) && lo <= x < hi ==>
      ok(c.encode(image, x)) && 0.0 <= x - c.decode(c.encode(image, x)) <= eps
  }

  lemma BelowIsWithin<Code(!new)>(c: Codec<Code>, ok: Code -> bool, lo: real, hi: real, eps: real)
    requires QuantisesBelow(c, ok, lo, hi, eps)
    ensures Quantises(c, ok, lo, hi, eps)
  {
  }
}
