/**
 The bit macros of `lib/macros.h` on natural numbers. Bitwise operators are defined bit by bit, shifts
 and field extraction one position at a time, so that the laws between them follow by induction.
 */
module Bits {

  const LONG_BITS: nat := 64

  function Pow2(k: nat): (p: nat)
    ensures p >= 1
  {
    if k == 0 then 1 else 2 * Pow2(k - 1)
  }

  function And(a: nat, b: nat): nat {
    if a == 0 || b == 0 then 0
    else 2 * And(a / 2, b / 2) + (if a % 2 == 1 && b % 2 == 1 then 1 else 0)
  }

  function Or(a: nat, b: nat): nat {
    if a == 0 && b == 0 then 0
    else 2 * Or(a / 2, b / 2) + (if a % 2 == 1 || b % 2 == 1 then 1 else 0)
  }

  function Shl(v: nat, k: nat): nat {
    if k == 0 then v else 2 * Shl(v, k - 1)
  }

  function Shr(v: nat, k: nat): nat {
    if k == 0 then v else Shr(v / 2, k - 1)
  }

  /** The `k` low bits. */
  function Low(v: nat, k: nat): nat {
    if k == 0 then 0 else v % 2 + 2 * Low(v / 2, k - 1)
  }

  /** All ones in a 64-bit `unsigned long`. */
  const ONES: nat := 0xFFFF_FFFF_FFFF_FFFF

  /** `GENMASK` */
  function GenMask(h: nat, l: nat): nat
    requires l <= h < LONG_BITS
  {
    OnesBound(l);
    And(ONES - Shl(1, l) + 1, Shr(ONES, LONG_BITS - 1 - h))
  }

  lemma PowByteMore(k: nat)
    ensures Pow2(k + 8) == 256 * Pow2(k)
  {
    assert Pow2(k + 2) == 4 * Pow2(k);
    assert Pow2(k + 4) == 4 * Pow2(k + 2);
    assert Pow2(k + 6) == 4 * Pow2(k + 4);
  }

  lemma PowOfBytes(n: nat, k: nat)
    requires k == 8 * n
    ensures Pow2(k) == Bytes(n)
  {
    if n > 0 {
      PowOfBytes(n - 1, k - 8);
      PowByteMore(k - 8);
    }
  }

  /** 256 to the power of `n`. */
  function Bytes(n: nat): nat {
    if n == 0 then 1 else 256 * Bytes(n - 1)
  }

  lemma OnesArePow2()
    ensures ONES == Pow2(LONG_BITS) - 1
  {
    PowOfBytes(8, LONG_BITS);
    assert Bytes(8) == ONES + 1;
  }

  lemma OnesBound(l: nat)
    requires l < LONG_BITS
    ensures Shl(1, l) <= ONES + 1
  {
    OnesArePow2();
    PowOrder(l, LONG_BITS);
  }

  function GetBitsVal(val: nat, h: nat, l: nat): nat
    requires l <= h < LONG_BITS
  {
    Shr(And(val, GenMask(h, l)), l)
  }

  /** `val & ~GENMASK(h, l)`: what is left of `val` without the bits it shares with the mask. */
  function ClearBits(val: nat, h: nat, l: nat): nat
    requires l <= h < LONG_BITS
  {
    AndAtMost(val, GenMask(h, l));
    val - And(val, GenMask(h, l))
  }

  lemma PowOrder(l: nat, k: nat)
    requires l <= k
    ensures Shl(1, l) == Pow2(l) <= Pow2(k)
    decreases k
  {
    if l < k {
      PowOrder(l, k - 1);
    } else if l > 0 {
      PowOrder(l - 1, k - 1);
    }
  }

  lemma AndAtMost(a: nat, b: nat)
    ensures And(a, b) <= a
  {
  }

  // ----- laws of the field operations

  lemma LowShr(v: nat, k: nat)
    ensures v == Low(v, k) + Shl(Shr(v, k), k)
    ensures Low(v, k) < Pow2(k)
  {
    if k > 0 {
      LowShr(v / 2, k - 1);
    }
  }

  lemma ShlAtLeast(v: nat, k: nat)
    ensures v >= 1 ==> Shl(v, k) >= Pow2(k)
    ensures v == 0 ==> Shl(v, k) == 0
  {
  }

  lemma SmallWord(v: nat, k: nat)
    ensures v < Pow2(k) <==> Shr(v, k) == 0
    ensures v < Pow2(k) ==> Low(v, k) == v
  {
    LowShr(v, k);
    ShlAtLeast(Shr(v, k), k);
  }

  lemma ShlInverse(v: nat, k: nat)
    ensures Shr(Shl(v, k), k) == v
    ensures Low(Shl(v, k), k) == 0
  {
    if k > 0 {
      ShlInverse(v, k - 1);
    }
  }

  // ----- the operators in terms of arithmetic

  /** Bit `k`, by division. */
  predicate Bit(v: nat, k: nat) {
    v / Pow2(k) % 2 == 1
  }

  lemma BitAbove(v: nat, k: nat)
    requires k > 0
    ensures Bit(v, k) <==> Bit(v / 2, k - 1)
  {
    HalvedQuotient(v, Pow2(k - 1), Pow2(k));
  }

  lemma HalvedQuotient(v: nat, d: nat, e: nat)
    requires d > 0 && e == 2 * d
    ensures v / e == v / 2 / d
  {
    Parts(v, e);
    HalfOfSum(v, v / e, d, e, v % e);
    QuotientIs(v / 2, d, v / e, v % e / 2);
  }

  lemma Parts(v: nat, e: nat)
    requires e > 0
    ensures v == v / e * e + v % e && v / e >= 0 && 0 <= v % e < e
  {
  }

  lemma HalfOfSum(v: nat, q: nat, d: nat, e: nat, r: nat)
    requires e == 2 * d && v == q * e + r
    ensures v / 2 == q * d + r / 2
  {
    var p := q * d;
    assert v == 2 * p + r;
  }

  lemma QuotientIs(v: nat, d: nat, q: nat, r: nat)
    requires r < d && v == q * d + r
    ensures v / d == q && v % d == r
  {
    var p, s := v / d, v % d;
    assert v == p * d + s;
    if p < q {
      ProductStep(p, q, d);
    } else if q < p {
      ProductStep(q, p, d);
    }
  }

  lemma ProductStep(p: nat, q: nat, d: nat)
    requires p < q
    ensures p * d + d <= q * d
  {
    var e := q - p - 1;
    assert q * d == p * d + d + e * d;
    assert e * d >= 0;
  }

  /** `&` and `|` work bit by bit. */
  lemma {:induction false} BitOfAndOr(a: nat, b: nat, k: nat)
    ensures Bit(And(a, b), k) <==> Bit(a, k) && Bit(b, k)
    ensures Bit(Or(a, b), k) <==> Bit(a, k) || Bit(b, k)
    decreases k
  {
    if k > 0 {
      BitAbove(a, k);
      BitAbove(b, k);
      BitAbove(And(a, b), k);
      BitAbove(Or(a, b), k);
      BitOfAndOr(a / 2, b / 2, k - 1);
      HalfOfAndOr(a, b);
    } else {
      HalfOfAndOr(a, b);
    }
  }

  lemma HalfOfAndOr(a: nat, b: nat)
    ensures And(a, b) / 2 == And(a / 2, b / 2) && (And(a, b) % 2 == 1 <==> a % 2 == 1 && b % 2 == 1)
    ensures Or(a, b) / 2 == Or(a / 2, b / 2) && (Or(a, b) % 2 == 1 <==> a % 2 == 1 || b % 2 == 1)
  {
  }

  /** A shift to the left multiplies. */
  lemma {:induction false} ShlIsTimes(v: nat, k: nat)
    ensures Shl(v, k) == v * Pow2(k)
  {
    if k > 0 {
      ShlIsTimes(v, k - 1);
    }
  }

  /** A shift to the right divides, and the low bits are the remainder. */
  lemma ShrIsDivision(v: nat, k: nat)
    ensures Shr(v, k) == v / Pow2(k) && Low(v, k) == v % Pow2(k)
  {
    LowShr(v, k);
    ShlIsTimes(Shr(v, k), k);
    QuotientIs(v, Pow2(k), Shr(v, k), Low(v, k));
  }

  /** Shifting left by more than is read back leaves zeros below. */
  lemma ShlField(v: nat, k: nat, j: nat)
    requires j <= k
    ensures Shr(Shl(v, k), j) == Shl(v, k - j)
    ensures Low(Shl(v, k), j) == 0
  {
    if j > 0 {
      ShlField(v, k - 1, j - 1);
    }
  }

  lemma {:induction false} OrHalf(a: nat, b: nat)
    ensures Or(a, b) / 2 == Or(a / 2, b / 2)
    ensures Or(a, b) % 2 == if a % 2 == 1 || b % 2 == 1 then 1 else 0
  {
  }

  lemma LowStep(v: nat, k: nat)
    requires k > 0
    ensures Low(v, k) / 2 == Low(v / 2, k - 1) && Low(v, k) % 2 == v % 2
  {
  }

  lemma SameHalves(v: nat, w: nat)
    requires v / 2 == w / 2 && v % 2 == w % 2
    ensures v == w
  {
  }

  lemma {:induction false} LowOr(a: nat, b: nat, k: nat)
    ensures Low(Or(a, b), k) == Or(Low(a, k), Low(b, k))
  {
    if k > 0 {
      LowOr(a / 2, b / 2, k - 1);
      OrHalf(a, b);
      OrHalf(Low(a, k), Low(b, k));
      LowStep(a, k);
      LowStep(b, k);
      LowStep(Or(a, b), k);
      SameHalves(Low(Or(a, b), k), Or(Low(a, k), Low(b, k)));
    }
  }

  lemma {:induction false} ShrOr(a: nat, b: nat, k: nat)
    ensures Shr(Or(a, b), k) == Or(Shr(a, k), Shr(b, k))
  {
    if k > 0 {
      ShrOr(a / 2, b / 2, k - 1);
      OrHalf(a, b);
    }
  }

  lemma OrZero(a: nat)
    ensures Or(a, 0) == a && Or(0, a) == a
  {
  }

  lemma ShrShr(v: nat, j: nat, k: nat)
    ensures Shr(Shr(v, j), k) == Shr(v, j + k)
  {
  }

  lemma AndOnes(v: nat, k: nat)
    ensures Pow2(k) >= 1 && And(v, Pow2(k) - 1) == Low(v, k)
  {
    if k > 0 {
      AndOnes(v / 2, k - 1);
    }
  }

  lemma ShlOnes(h: nat, l: nat)
    requires l <= h
    ensures Pow2(l) <= Pow2(h) && Shl(Pow2(h - l) - 1, l) == Pow2(h) - Pow2(l)
    decreases l
  {
    if l > 0 {
      ShlOnes(h - 1, l - 1);
    }
  }

  lemma LowShl(v: nat, h: nat, l: nat)
    requires l <= h
    ensures Low(Shl(v, l), h) == Shl(Low(v, h - l), l)
    decreases l
  {
    if l > 0 {
      LowShl(v, h - 1, l - 1);
    }
  }

  lemma {:induction false} AndDouble(a: nat, b: nat)
    ensures And(a, 2 * b) == 2 * And(a / 2, b)
  {
    assert 2 * b / 2 == b && 2 * b % 2 == 0;
  }

  lemma {:induction false} AndShl(a: nat, b: nat, l: nat)
    ensures And(a, Shl(b, l)) == Shl(And(Shr(a, l), b), l)
  {
    if l > 0 {
      AndShl(a / 2, b, l - 1);
      AndDouble(a, Shl(b, l - 1));
    }
  }

  lemma OnesShifted(n: nat, k: nat)
    requires k <= n
    ensures Shr(Pow2(n) - 1, k) == Pow2(n - k) - 1
  {
    if k > 0 {
      OnesShifted(n - 1, k - 1);
    }
  }

  lemma {:induction false} LowOfOnes(n: nat, h: nat)
    requires h <= n
    ensures Low(Pow2(n) - 1, h) == Pow2(h) - 1
  {
    if h > 0 {
      var ones := Pow2(n - 1) - 1;
      assert Pow2(n) - 1 == 2 * ones + 1;
      LowOfOnes(n - 1, h - 1);
    }
  }

  lemma LowOfTop(n: nat, h: nat, l: nat)
    requires l <= h < n
    ensures Pow2(l) <= Pow2(n) && Low(Pow2(n) - Pow2(l), h + 1) == Shl(Pow2(h + 1 - l) - 1, l)
  {
    ShlOnes(n, l);
    LowShl(Pow2(n - l) - 1, h + 1, l);
    LowOfOnes(n - l, h + 1 - l);
  }

  /** Subtracting the low power from all ones and cutting at the high bit leaves the bits in between. */
  lemma MaskIsField(n: nat, h: nat, l: nat)
    requires l <= h < n
    ensures Pow2(l) <= Pow2(n)
    ensures And(Pow2(n) - Pow2(l), Shr(Pow2(n) - 1, n - 1 - h)) == Shl(Pow2(h + 1 - l) - 1, l)
  {
    OnesShifted(n, n - 1 - h);
    LowOfTop(n, h, l);
    AndOnes(Pow2(n) - Pow2(l), h + 1);
  }

  lemma GenMaskIsField(h: nat, l: nat)
    requires l <= h < LONG_BITS
    ensures GenMask(h, l) == Shl(Pow2(h + 1 - l) - 1, l)
  {
    OnesArePow2();
    PowOrder(l, LONG_BITS);
    MaskIsField(LONG_BITS, h, l);
  }

  /** The mask macro sets exactly the bits `l` to `h`, and `GETBITS_VAL` reads exactly that field. */
  lemma GetBitsIsField(val: nat, h: nat, l: nat)
    requires l <= h < LONG_BITS
    ensures GetBitsVal(val, h, l) == Low(Shr(val, l), h + 1 - l)
    ensures And(val, GenMask(h, l)) == Shl(Low(Shr(val, l), h + 1 - l), l)
  {
    GenMaskIsField(h, l);
    AndShl(val, Pow2(h + 1 - l) - 1, l);
    AndOnes(Shr(val, l), h + 1 - l);
    ShlInverse(Low(Shr(val, l), h + 1 - l), l);
  }

  /** A field written next to a small low part and a high part on top is read back unchanged. */
  lemma FieldsOfWord(high: nat, low: nat, field: nat, l: nat, width: nat)
    requires field < Pow2(width)
    ensures var w := Or(Or(Shl(high, l + width), low), Shl(field, l));
            && Low(w, l) == Low(low, l)
            && (low < Pow2(l) ==> Low(Shr(w, l), width) == field && Shr(w, l + width) == high)
  {
    var top, f := Shl(high, l + width), Shl(field, l);
    var w := Or(Or(top, low), f);
    ShlField(high, l + width, l);
    ShlInverse(field, l);
    LowOr(Or(top, low), f, l);
    LowOr(top, low, l);
    OrZero(Low(low, l));
    if low < Pow2(l) {
      ShrOr(Or(top, low), f, l);
      ShrOr(top, low, l);
      SmallWord(low, l);
      OrZero(Shl(high, width));
      var rest := Or(Shl(high, width), field);
      assert Shr(w, l) == rest;
      ShlInverse(high, width);
      SmallWord(field, width);
      LowOr(Shl(high, width), field, width);
      ShrOr(Shl(high, width), field, width);
      OrZero(field);
      OrZero(high);
      ShrShr(w, l, width);
    }
  }

  lemma ShrOfSum(w: nat, l: nat, v: nat, low: nat)
    requires low < Pow2(l) && w == v * Pow2(l) + low
    ensures Shr(w, l) == v && Low(w, l) == low
  {
    ShrIsDivision(w, l);
    QuotientIs(w, Pow2(l), v, low);
  }

  /** The field of a word put together by addition is the one that was put there. */
  lemma FieldOfSum(high: nat, field: nat, v: nat, low: nat, l: nat, width: nat, w: nat)
    requires field < Pow2(width) && low < Pow2(l) && width > 0 && l + width <= LONG_BITS
    requires v == high * Pow2(width) + field && w == v * Pow2(l) + low
    ensures GetBitsVal(w, l + width - 1, l) == field
  {
    GetBitsIsField(w, l + width - 1, l);
    ShrOfSum(w, l, v, low);
    ShrOfSum(v, width, high, field);
  }

  // ----- clearing bits

  lemma HalfOfDifference(a: nat, b: nat)
    ensures And(a, b) <= a && And(a / 2, b / 2) <= a / 2
    ensures (a - And(a, b)) / 2 == a / 2 - And(a / 2, b / 2)
    ensures (a - And(a, b)) % 2 == 1 <==> a % 2 == 1 && b % 2 != 1
  {
    AndAtMost(a, b);
    AndAtMost(a / 2, b / 2);
    HalfOfAndOr(a, b);
  }

  lemma {:induction false} BitOfDifference(a: nat, b: nat, k: nat)
    ensures And(a, b) <= a
    ensures Bit(a - And(a, b), k) <==> Bit(a, k) && !Bit(b, k)
    decreases k
  {
    HalfOfDifference(a, b);
    if k > 0 {
      BitAbove(a, k);
      BitAbove(b, k);
      BitAbove(a - And(a, b), k);
      BitOfDifference(a / 2, b / 2, k - 1);
    }
  }

  lemma {:induction false} BitOfOnes(n: nat, k: nat)
    ensures Bit(Pow2(n) - 1, k) <==> k < n
    decreases k
  {
    if n == 0 {
      ZeroBit(k);
    } else {
      OddOnes(Pow2(n - 1), Pow2(n) - 1);
      if k == 0 {
        LowestBit(Pow2(n) - 1);
      } else {
        BitAbove(Pow2(n) - 1, k);
        BitOfOnes(n - 1, k - 1);
      }
    }
  }

  lemma OddOnes(p: nat, ones: nat)
    requires p > 0 && ones == 2 * p - 1
    ensures ones / 2 == p - 1 && ones % 2 == 1
  {
  }

  lemma ZeroBit(k: nat)
    ensures !Bit(0, k)
  {
    QuotientIs(0, Pow2(k), 0, 0);
  }

  lemma LowestBit(v: nat)
    ensures Bit(v, 0) <==> v % 2 == 1
  {
    assert Pow2(0) == 1;
  }

  lemma {:induction false} BitOfShl(v: nat, l: nat, k: nat)
    ensures Bit(Shl(v, l), k) <==> k >= l && Bit(v, k - l)
    decreases l
  {
    if l > 0 {
      if k > 0 {
        BitAbove(Shl(v, l), k);
        BitOfShl(v, l - 1, k - 1);
      } else {
        assert Shl(v, l) % 2 == 0;
      }
    }
  }

  /** `val & ~GENMASK(h, l)` clears bits `l` to `h` and keeps the others. */
  lemma BitOfCleared(w: nat, h: nat, l: nat, k: nat)
    requires l <= h < LONG_BITS
    ensures Bit(ClearBits(w, h, l), k) <==> Bit(w, k) && !(l <= k <= h)
  {
    BitOfMask(h, l, k);
    BitOfDifference(w, GenMask(h, l), k);
  }

  lemma BitOfMask(h: nat, l: nat, k: nat)
    requires l <= h < LONG_BITS
    ensures Bit(GenMask(h, l), k) <==> l <= k <= h
  {
    GenMaskIsField(h, l);
    BitOfShl(Pow2(h + 1 - l) - 1, l, k);
    if k >= l {
      BitOfOnes(h + 1 - l, k - l);
    }
  }

  /** Or-ing in `1 << j` sets bit `j`. */
  lemma BitOfSet(w: nat, j: nat, k: nat)
    ensures Bit(Or(w, Shl(1, j)), k) <==> k == j || Bit(w, k)
  {
    BitOfAndOr(w, Shl(1, j), k);
    BitOfShl(1, j, k);
    assert Pow2(1) - 1 == 1;
    if k >= j {
      BitOfOnes(1, k - j);
    }
  }

  // ----- replacing one field

  function SetField(w: nat, h: nat, l: nat, field: nat): nat
    requires l <= h < LONG_BITS
  {
    Or(ClearBits(w, h, l), Shl(field, l))
  }

  lemma ClearedAround(w: nat, n: nat, l: nat)
    ensures Shl(Low(Shr(w, l), n), l) <= w
    ensures Low(w - Shl(Low(Shr(w, l), n), l), l) == Low(w, l)
    ensures Shr(w - Shl(Low(Shr(w, l), n), l), l) == Shl(Shr(w, l + n), n)
    decreases l
  {
    if l == 0 {
      LowShr(w, n);
    } else {
      ClearedAround(w / 2, n, l - 1);
      var y := Shl(Low(Shr(w / 2, l - 1), n), l - 1);
      assert (w - 2 * y) % 2 == w % 2 && (w - 2 * y) / 2 == w / 2 - y;
    }
  }

  /** Clearing a field and writing a value that fits into it changes that field and nothing else. */
  lemma SetFieldLaw(w: nat, h: nat, l: nat, field: nat)
    requires l <= h < LONG_BITS && field < Pow2(h + 1 - l)
    ensures var v := SetField(w, h, l, field);
            && GetBitsVal(v, h, l) == field
            && Low(v, l) == Low(w, l)
            && Shr(v, h + 1) == Shr(w, h + 1)
  {
    var n := h + 1 - l;
    var cleared, v := ClearBits(w, h, l), SetField(w, h, l, field);
    GetBitsIsField(w, h, l);
    GetBitsIsField(v, h, l);
    ClearedAround(w, n, l);
    ShlInverse(field, l);
    LowOr(cleared, Shl(field, l), l);
    ShrOr(cleared, Shl(field, l), l);
    OrZero(Low(w, l));
    var high := Shr(w, l + n);
    assert Shr(v, l) == Or(Shl(high, n), field);
    ShlInverse(high, n);
    SmallWord(field, n);
    LowOr(Shl(high, n), field, n);
    ShrOr(Shl(high, n), field, n);
    OrZero(field);
    OrZero(high);
    ShrShr(v, l, n);
  }

  /** A word is determined by a field and the bits below and above it. */
  lemma SameFields(v: nat, w: nat, h: nat, l: nat)
    requires l <= h < LONG_BITS
    requires GetBitsVal(v, h, l) == GetBitsVal(w, h, l) && Low(v, l) == Low(w, l) && Shr(v, h + 1) == Shr(w, h + 1)
    ensures v == w
  {
    var n := h + 1 - l;
    GetBitsIsField(v, h, l);
    GetBitsIsField(w, h, l);
    ShrShr(v, l, n);
    ShrShr(w, l, n);
    LowShr(Shr(v, l), n);
    LowShr(Shr(w, l), n);
    LowShr(v, l);
    LowShr(w, l);
  }
}
