/** IEEE 754 single precision by bit surgery, and what it means for the number encoded.

    A finite encoding stands for a whole number of units of 2^-149, the smallest positive
    denormal; `Units` decodes it exactly (IEEE 754-2019, section 3.4). */
module FloatBits {
  import opened Basics

  type Bits = bv32

  // ---------------------------------------------------------------- fields of a bit pattern

  function Exp(f: Bits): Bits {
    (f & 0x7F800000) >> 23
  }

  function Frac(f: Bits): Bits {
    f & 0x7FFFFF
  }

  predicate Negative(f: Bits) {
    f & 0x80000000 != 0
  }

  // ---------------------------------------------------------------- the implemented functions

  function Negate(f: Bits): Bits {
    var exp := (f >> 23) & 0xFF;
    if exp == 0xFF && Frac(f) != 0 then f else f ^ 0x80000000
  }

  /** f << 1 with the sign bit put back. */
  function ShiftUp(f: Bits): Bits {
    ((f << 1) & 0x7FFFFFFF) | (f & 0x80000000)
  }

  /** f >> 1 with the second bit cleared and the sign bit put back. */
  function ShiftDown(f: Bits): Bits {
    (((f >> 1) & 0x7FFFFFFF) & 0xBFFFFFFF) | (f & 0x80000000)
  }

  function WithExp(f: Bits, exponent: Bits): Bits {
    (f & !0x7F800000) | (exponent << 23)
  }

  function Twice(f: Bits): Bits {
    var exponent := Exp(f);
    if exponent == 0 then ShiftUp(f)
    else if exponent == 0xFF then f
    else WithExp(f, exponent + 1)
  }

  function Half(f: Bits): Bits {
    var exponent := Exp(f);
    if exponent == 0 then ShiftDown(f)
    else if exponent == 0xFF then f
    else WithExp(f, exponent - 1)
  }

  predicate IsNan(f: Bits) {
    Exp(f) == 0xFF && Frac(f) != 0
  }

  // ---------------------------------------------------------------- what a bit pattern means

  predicate Finite(f: Bits) {
    Exp(f) != 0xFF
  }

  predicate Infinite(f: Bits) {
    Exp(f) == 0xFF && Frac(f) == 0
  }

  /** The number a bit pattern writes in binary. */
  function Num(x: Bits): nat
    decreases x
  {
    if x == 0 then 0 else 2 * Num(x >> 1) + if x & 1 == 1 then 1 else 0
  }

  /** The fraction, with the implicit leading 1 of a normalized number. */
  function Significand(f: Bits): Bits {
    if Exp(f) == 0 then Frac(f) else Frac(f) | 0x800000
  }

  /** The exponent of the lowest significand bit, counted from 2^-149. */
  function Scale(f: Bits): nat {
    if Exp(f) == 0 then 0 else (Exp(f) as int) - 1
  }

  function Magnitude(f: Bits): nat {
    Num(Significand(f)) * Pow2(Scale(f))
  }

  /** The value of a finite encoding, in units of 2^-149. */
  function Units(f: Bits): int
    requires Finite(f)
  {
    if Negative(f) then -(Magnitude(f) as int) else Magnitude(f)
  }

  function UnitsToReal(u: int): real {
    u as real / Pow2(149) as real
  }

  function Value(f: Bits): real
    requires Finite(f)
  {
    UnitsToReal(Units(f))
  }

  lemma RealDouble(u: int)
    ensures UnitsToReal(2 * u) == 2.0 * UnitsToReal(u)
  {
  }

  lemma RealNegate(u: int)
    ensures UnitsToReal(-u) == -UnitsToReal(u)
  {
  }

  // ---------------------------------------------------------------- bits and numbers

  lemma NumUnfold(x: Bits)
    ensures Num(x) == 2 * Num(x >> 1) + if x & 1 == 1 then 1 else 0
  {
    assert x == 0 ==> x >> 1 == 0 && x & 1 == 0;
  }

  lemma NumHalves(x: Bits, y: Bits)
    requires Num(x) == Num(y) && Num(x) != 0
    ensures Num(x >> 1) == Num(y >> 1) < Num(x)
  {
    hide Num;
    NumUnfold(x);
    NumUnfold(y);
  }

  lemma NumGlue(x: Bits, y: Bits)
    requires Num(x) == Num(y) && x >> 1 == y >> 1
    ensures x == y
  {
    hide Num;
    NumUnfold(x);
    NumUnfold(y);
    LowBit(x, y);
  }

  lemma {:induction false} NumInjective(x: Bits, y: Bits)
    requires Num(x) == Num(y)
    ensures x == y
    decreases Num(x)
  {
    hide Num;
    if Num(x) == 0 {
      NumZero(x);
      NumZero(y);
    } else {
      NumHalves(x, y);
      NumInjective(x >> 1, y >> 1);
      NumGlue(x, y);
    }
  }

  lemma LowBit(x: Bits, y: Bits)
    requires x >> 1 == y >> 1 && (x & 1 == 1 <==> y & 1 == 1)
    ensures x == y
  {
  }

  lemma {:induction false} NumZero(x: Bits)
    ensures Num(x) == 0 <==> x == 0
    decreases x
  {
    if x == 0 {
    } else {
      NumZero(x >> 1);
      assert x >> 1 == 0 ==> x & 1 == 1;
    }
  }

  // ---------------------------------------------------------------- fields of the results

  lemma SameFields(f: Bits, g: Bits)
    requires Exp(f) == Exp(g) && Frac(f) == Frac(g) && Negative(f) == Negative(g)
    ensures f == g
  {
  }

  lemma FracBound(f: Bits)
    ensures Frac(f) < 0x800000
  {
  }

  lemma ExpBound(f: Bits)
    ensures Exp(f) <= 0xFF
  {
  }

  lemma UpExpSmall(f: Bits)
    requires Exp(f) == 0 && Frac(f) < 0x400000
    ensures Exp(ShiftUp(f)) == 0
  {
  }

  lemma UpExpLarge(f: Bits)
    requires Exp(f) == 0 && Frac(f) >= 0x400000
    ensures Exp(ShiftUp(f)) == 1
  {
  }

  lemma UpFracSmall(f: Bits)
    requires Frac(f) < 0x400000
    ensures Frac(ShiftUp(f)) >> 1 == Frac(f)
  {
  }

  lemma UpFracLarge(f: Bits)
    requires Frac(f) >= 0x400000
    ensures (Frac(ShiftUp(f)) | 0x800000) >> 1 == Frac(f)
  {
  }

  lemma UpFracEven(f: Bits)
    ensures Frac(ShiftUp(f)) & 1 == 0
  {
  }

  lemma EvenUnderTop(x: Bits)
    requires x & 1 == 0
    ensures (x | 0x800000) & 1 == 0
  {
  }

  lemma UpSign(f: Bits)
    ensures Negative(ShiftUp(f)) == Negative(f)
  {
  }

  lemma DownExp(f: Bits)
    requires Exp(f) == 0
    ensures Exp(ShiftDown(f)) == 0
  {
  }

  lemma DownFracBits(f: Bits)
    requires Exp(f) == 0
    ensures Frac(ShiftDown(f)) == (f >> 1) & 0x3FFFFF
  {
  }

  lemma FracShifted(f: Bits)
    ensures (f >> 1) & 0x3FFFFF == Frac(f) >> 1
  {
  }

  lemma DownFrac(f: Bits)
    requires Exp(f) == 0
    ensures Frac(ShiftDown(f)) == Frac(f) >> 1
  {
    hide Frac, ShiftDown, Exp;
    DownFracBits(f);
    FracShifted(f);
  }

  lemma DownSign(f: Bits)
    ensures Negative(ShiftDown(f)) == Negative(f)
  {
  }

  lemma WithExpExp(f: Bits, e: Bits)
    requires e <= 0xFF
    ensures Exp(WithExp(f, e)) == e
  {
  }

  lemma WithExpFrac(f: Bits, e: Bits)
    requires e <= 0xFF
    ensures Frac(WithExp(f, e)) == Frac(f)
  {
  }

  lemma WithExpSign(f: Bits, e: Bits)
    requires e <= 0xFF
    ensures Negative(WithExp(f, e)) == Negative(f)
  {
  }

  /** Doubling a normalized number moves its exponent and nothing else. */
  lemma TwiceNormal(f: Bits)
    requires 0 < Exp(f) < 0xFF
    ensures Exp(Twice(f)) == Exp(f) + 1 && Frac(Twice(f)) == Frac(f)
  {
    hide Exp, Frac, WithExp;
    WithExpExp(f, Exp(f) + 1);
    WithExpFrac(f, Exp(f) + 1);
  }

  lemma HalfNormal(f: Bits)
    requires 0 < Exp(f) < 0xFF
    ensures Exp(Half(f)) == Exp(f) - 1 && Frac(Half(f)) == Frac(f)
  {
    hide Exp, Frac, WithExp;
    WithExpExp(f, Exp(f) - 1);
    WithExpFrac(f, Exp(f) - 1);
  }

  lemma TwiceSign(f: Bits)
    ensures Negative(Twice(f)) == Negative(f)
  {
    hide Exp, Negative, ShiftUp, WithExp;
    ExpBound(f);
    UpSign(f);
    if 0 < Exp(f) < 0xFF {
      WithExpSign(f, Exp(f) + 1);
    }
  }

  lemma HalfSign(f: Bits)
    ensures Negative(Half(f)) == Negative(f)
  {
    hide Exp, Negative, ShiftDown, WithExp;
    ExpBound(f);
    DownSign(f);
    if 0 < Exp(f) < 0xFF {
      WithExpSign(f, Exp(f) - 1);
    }
  }

  lemma ExpAsInt(e: Bits)
    requires 0 < e < 0xFF
    ensures (e + 1) as int == e as int + 1 && (e - 1) as int == e as int - 1 && e as int >= 1
  {
  }

  // ---------------------------------------------------------------- doubling

  lemma NumEven(x: Bits)
    requires x & 1 == 0
    ensures Num(x) == 2 * Num(x >> 1)
  {
    NumUnfold(x);
  }

  lemma MagnitudeTwiceSmall(f: Bits)
    requires Exp(f) == 0
    ensures Exp(Twice(f)) <= 1 && Num(Significand(Twice(f))) == 2 * Num(Frac(f))
  {
    hide Num, Exp, Frac, ShiftUp;
    UpFracEven(f);
    if Frac(f) < 0x400000 {
      UpExpSmall(f);
      UpFracSmall(f);
      NumEven(Frac(ShiftUp(f)));
    } else {
      UpExpLarge(f);
      UpFracLarge(f);
      EvenUnderTop(Frac(ShiftUp(f)));
      NumEven(Frac(ShiftUp(f)) | 0x800000);
    }
  }

  lemma MagnitudeDenormal(f: Bits)
    requires Exp(f) == 0
    ensures Magnitude(f) == Num(Frac(f))
  {
    hide Num, Exp, Frac;
  }

  lemma MagnitudeAtOne(f: Bits)
    requires Exp(f) == 1
    ensures Magnitude(f) == Num(Frac(f) | 0x800000)
  {
    hide Num, Exp, Frac;
  }

  lemma ScaleStep(f: Bits, g: Bits)
    requires 0 < Exp(f) < 0xFF && Exp(g) == Exp(f) + 1
    ensures Scale(g) == Scale(f) + 1
  {
    hide Exp;
    ExpAsInt(Exp(f));
  }

  lemma SignificandSame(f: Bits, g: Bits)
    requires Exp(f) != 0 && Exp(g) != 0 && Frac(f) == Frac(g)
    ensures Significand(f) == Significand(g)
  {
    hide Exp, Frac;
  }

  /** One more in the exponent of a normalized number doubles it. */
  lemma MagnitudeStep(f: Bits, g: Bits)
    requires 0 < Exp(f) < 0xFF && Exp(g) == Exp(f) + 1 && Frac(g) == Frac(f)
    ensures Magnitude(g) == 2 * Magnitude(f)
  {
    hide Num, Exp, Frac, Scale, Significand;
    ScaleStep(f, g);
    SignificandSame(f, g);
    DoubleScale(Num(Significand(f)), Scale(f));
  }

  lemma MagnitudeTwice(f: Bits)
    requires Exp(f) < 254
    ensures Finite(Twice(f)) && Magnitude(Twice(f)) == 2 * Magnitude(f)
  {
    hide Num, Twice, Exp, Frac, Magnitude;
    if Exp(f) == 0 {
      MagnitudeTwiceSmall(f);
      MagnitudeDenormal(f);
      if Exp(Twice(f)) == 0 {
        MagnitudeDenormal(Twice(f));
      } else {
        MagnitudeAtOne(Twice(f));
      }
    } else {
      TwiceNormal(f);
      MagnitudeStep(f, Twice(f));
    }
  }

  lemma DoubleScale(m: nat, k: nat)
    ensures m * Pow2(k + 1) == 2 * (m * Pow2(k))
  {
  }

  /** Twice is exact doubling up to stored exponent 253, through the step from denormal to
      normalized. */
  lemma TwiceDoubles(f: Bits)
    requires Exp(f) < 254
    ensures Finite(Twice(f)) && Value(Twice(f)) == 2.0 * Value(f)
    ensures Negative(Twice(f)) == Negative(f)
  {
    hide Twice, Magnitude, Exp, Negative, UnitsToReal;
    MagnitudeTwice(f);
    TwiceSign(f);
    assert Units(Twice(f)) == 2 * Units(f);
    RealDouble(Units(f));
  }

  /** At stored exponent 254 the result should overflow to infinity; it does exactly when
      the fraction is 0, and is a NaN otherwise. */
  lemma TwiceOverflow(f: Bits)
    requires Exp(f) == 254
    ensures Infinite(Twice(f)) <==> Frac(f) == 0
    ensures IsNan(Twice(f)) <==> Frac(f) != 0
    ensures Negative(Twice(f)) == Negative(f)
  {
    hide Twice, Negative;
    TwiceNormal(f);
    TwiceSign(f);
  }

  /** Infinities and NaNs are returned as they are, by both functions. */
  lemma SpecialsStay(f: Bits)
    requires Infinite(f) || IsNan(f)
    ensures Twice(f) == f && Half(f) == f
  {
    hide Exp, Frac;
  }

  function TwiceTimes(f: Bits, n: nat): Bits {
    if n == 0 then f else Twice(TwiceTimes(f, n - 1))
  }

  /** `x` shifted down `k` times by one place. */
  function Shr(x: Bits, k: nat): Bits {
    if k == 0 then x else Shr(x >> 1, k - 1)
  }

  lemma {:induction false} NumBelowPow2(x: Bits, k: nat)
    ensures Num(x) < Pow2(k) <==> Shr(x, k) == 0
    decreases k
  {
    hide Num;
    if k == 0 {
      NumZero(x);
    } else {
      NumBelowPow2(x >> 1, k - 1);
      NumUnfold(x);
      assert Pow2(k) == 2 * Pow2(k - 1);
    }
  }

  lemma ShrTwo(x: Bits, k: nat)
    ensures Shr(x, k + 2) == Shr(x >> 2, k)
  {
    assert Shr(x, k + 2) == Shr(x >> 1, k + 1) == Shr(x >> 1 >> 1, k);
    assert x >> 1 >> 1 == x >> 2;
  }

  lemma ShrFour(x: Bits, k: nat)
    ensures Shr(x, k + 4) == Shr(x >> 4, k)
  {
    hide Shr;
    ShrTwo(x, k + 2);
    ShrTwo(x >> 2, k);
    assert x >> 2 >> 2 == x >> 4;
  }

  lemma ShrEight(x: Bits, k: nat)
    ensures Shr(x, k + 8) == Shr(x >> 8, k)
  {
    hide Shr;
    ShrFour(x, k + 4);
    ShrFour(x >> 4, k);
    assert x >> 4 >> 4 == x >> 8;
  }

  lemma ShrSixteen(x: Bits, k: nat)
    ensures Shr(x, k + 16) == Shr(x >> 16, k)
  {
    hide Shr;
    ShrEight(x, k + 8);
    ShrEight(x >> 8, k);
    assert x >> 8 >> 8 == x >> 16;
  }

  lemma NumBelow24(x: Bits)
    requires x < 0x1000000
    ensures Num(x) < Pow2(24)
  {
    hide Num, Shr, Pow2;
    NumBelowPow2(x, 24);
    ShrSixteen(x, 8);
    ShrEight(x >> 16, 0);
    ShrNone(x >> 16 >> 8);
    assert x >> 16 >> 8 == 0;
  }

  lemma NumAtLeast23(x: Bits)
    requires x & 0x800000 != 0
    ensures Num(x) >= Pow2(23)
  {
    hide Num, Shr, Pow2;
    NumBelowPow2(x, 23);
    ShrSixteen(x, 7);
    ShrFour(x >> 16, 3);
    ShrTwo(x >> 16 >> 4, 1);
    ShrOne(x >> 16 >> 4 >> 2);
    TopBitStays(x);
  }

  lemma TopBitStays(x: Bits)
    requires x & 0x800000 != 0
    ensures x >> 16 >> 4 >> 2 >> 1 != 0
  {
  }

  lemma ShrNone(x: Bits)
    ensures Shr(x, 0) == x
  {
  }

  lemma ShrOne(x: Bits)
    ensures Shr(x, 1) == x >> 1
  {
  }

  lemma WithTop(x: Bits)
    requires x < 0x800000
    ensures x | 0x800000 < 0x1000000
  {
  }

  lemma HasTop(x: Bits)
    ensures (x | 0x800000) & 0x800000 != 0
  {
  }

  lemma SignificandBounds(f: Bits)
    ensures Num(Significand(f)) < Pow2(24)
    ensures Exp(f) != 0 ==> Num(Significand(f)) >= Pow2(23)
  {
    hide Num, Exp, Frac, Pow2;
    FracBound(f);
    WithTop(Frac(f));
    NumBelow24(Significand(f));
    if Exp(f) != 0 {
      HasTop(Frac(f));
      NumAtLeast23(Significand(f));
    }
  }

  lemma ScaleBounds(f: Bits)
    requires Finite(f)
    ensures Scale(f) <= 253
    ensures Exp(f) == 254 <==> Scale(f) == 253
  {
    hide Exp;
    ExpBound(f);
    var e := Exp(f);
    ExpToInt(e);
  }

  lemma ExpToInt(e: Bits)
    requires e < 0xFF
    ensures e as int <= 254 && (e as int == 254 <==> e == 254)
  {
  }

  lemma {:induction false} Pow2Monotone(j: nat, k: nat)
    requires j <= k
    ensures Pow2(j) <= Pow2(k)
  {
    if j == k {
    } else {
      Pow2Monotone(j, k - 1);
    }
  }

  lemma ScaledBound(m: nat, s: nat)
    requires m < Pow2(24)
    ensures m * Pow2(s) < Pow2(s + 24)
  {
    hide Pow2;
    Pow2Splits(s, s + 24);
    LessTimes(m, Pow2(24), Pow2(s));
  }

  lemma LessTimes(a: nat, b: nat, c: nat)
    requires a < b && c > 0
    ensures a * c < b * c
  {
  }

  /** Every finite magnitude is below 2^277, and stored exponent 254 is the top half. */
  lemma FiniteBounds(f: Bits)
    requires Finite(f)
    ensures Magnitude(f) < Pow2(277)
    ensures Exp(f) == 254 <==> Magnitude(f) >= Pow2(276)
  {
    hide Num, Exp, Significand, Scale, Pow2;
    SignificandBounds(f);
    ScaleBounds(f);
    var m, s := Num(Significand(f)), Scale(f);
    ScaledBound(m, s);
    Pow2Monotone(s + 24, 277);
    if s == 253 {
      Pow2Splits(253, 276);
      TopIsNotZero();
      AtLeast(Pow2(23), m, Pow2(253));
    } else {
      Pow2Monotone(s + 24, 276);
    }
  }

  lemma TopIsNotZero()
    ensures 254 as Bits != 0
  {
  }

  lemma AtLeast(a: nat, b: nat, c: nat)
    requires a <= b
    ensures a * c <= b * c
  {
  }

  lemma {:induction false} MagnitudeIterates(f: Bits, n: nat)
    requires Finite(f)
    ensures Finite(TwiceTimes(f, n)) <==> Magnitude(f) * Pow2(n) < Pow2(277)
    ensures Finite(TwiceTimes(f, n)) ==> Magnitude(TwiceTimes(f, n)) == Magnitude(f) * Pow2(n)
    ensures Negative(TwiceTimes(f, n)) == Negative(f)
  {
    hide Twice, Finite, Magnitude, Negative;
    if n == 0 {
      assert Pow2(0) == 1;
      hide Pow2;
      FiniteBounds(f);
    } else {
      MagnitudeIterates(f, n - 1);
      TwiceSign(TwiceTimes(f, n - 1));
      TwiceStays(TwiceTimes(f, n - 1));
      OneMoreDoubling();
      DoubleScale(Magnitude(f), n - 1);
      hide Pow2;
    }
  }

  lemma OneMoreDoubling()
    ensures Pow2(277) == 2 * Pow2(276)
  {
  }

  /** One doubling: in range it doubles the magnitude, and out of range is for ever. */
  lemma TwiceStays(g: Bits)
    ensures Finite(Twice(g)) <==> Finite(g) && Magnitude(g) < Pow2(276)
    ensures Finite(Twice(g)) ==> Magnitude(Twice(g)) == 2 * Magnitude(g)
  {
    hide Pow2, Magnitude;
    if !Finite(g) {
      StaysOut(g);
    } else {
      FiniteBounds(g);
      hide Twice, Exp;
      ExpBound(g);
      if Exp(g) == 254 {
        TwiceNormal(g);
      } else {
        MagnitudeTwice(g);
      }
    }
  }

  lemma StaysOut(g: Bits)
    requires !Finite(g)
    ensures Twice(g) == g
  {
    hide Exp;
  }

  lemma RealScale(u: int, k: nat)
    ensures UnitsToReal(k * u) == k as real * UnitsToReal(u)
  {
  }

  lemma ScaledUnits(f: Bits, g: Bits, k: nat)
    requires Finite(f) && Finite(g) && Negative(f) == Negative(g) && Magnitude(g) == Magnitude(f) * k
    ensures Units(g) == k * Units(f)
  {
    hide Finite, Negative, Magnitude;
  }

  lemma ScaledValue(f: Bits, g: Bits, k: nat)
    requires Finite(f) && Finite(g) && Negative(f) == Negative(g) && Magnitude(g) == Magnitude(f) * k
    ensures Value(g) == k as real * Value(f)
  {
    hide Finite, Negative, Magnitude, Units, UnitsToReal;
    ScaledUnits(f, g, k);
    RealScale(Units(f), k);
  }

  /** n doublings stay finite exactly while 2^n times the magnitude is below 2^277 units, and
      then multiply the value by 2^n. */
  lemma TwiceIterates(f: Bits, n: nat)
    requires Finite(f)
    ensures Finite(TwiceTimes(f, n)) <==> Magnitude(f) * Pow2(n) < Pow2(277)
    ensures Finite(TwiceTimes(f, n)) ==> Value(TwiceTimes(f, n)) == Pow2(n) as real * Value(f)
  {
    hide Finite, Magnitude, Negative, Value, TwiceTimes, Pow2;
    MagnitudeIterates(f, n);
    if Finite(TwiceTimes(f, n)) {
      ScaledValue(f, TwiceTimes(f, n), Pow2(n));
    }
  }

  // ---------------------------------------------------------------- halving

  /** Half is exact for stored exponents 2 to 254. */
  lemma HalfExact(f: Bits)
    requires 1 < Exp(f) < 0xFF
    ensures Finite(Half(f)) && Value(f) == 2.0 * Value(Half(f))
    ensures Negative(Half(f)) == Negative(f)
  {
    hide Half, Magnitude, Exp, Negative, UnitsToReal;
    MagnitudeHalf(f);
    HalfSign(f);
    assert Units(f) == 2 * Units(Half(f));
    RealDouble(Units(Half(f)));
  }

  lemma MagnitudeHalf(f: Bits)
    requires 1 < Exp(f) < 0xFF
    ensures Finite(Half(f)) && Magnitude(f) == 2 * Magnitude(Half(f))
  {
    hide Half, Exp, Frac, Magnitude;
    HalfNormal(f);
    MagnitudeStep(Half(f), f);
  }

  /** Half truncates to a whole number of units exactly when the stored exponent is not 1,
      or is 1 with an all-ones fraction.  At exponent 1 the code drops the implicit leading
      bit instead of shifting it into the fraction. */
  lemma HalfTruncates(f: Bits)
    requires Finite(f)
    ensures Finite(Half(f)) && Negative(Half(f)) == Negative(f)
    ensures Magnitude(Half(f)) == Magnitude(f) / 2 <==> Exp(f) != 1 || Frac(f) == 0x7FFFFF
  {
    hide Num, Half, Exp, Frac, Negative, Magnitude;
    HalfSign(f);
    ExpBound(f);
    if Exp(f) == 0 {
      HalfDenormal(f);
    } else if Exp(f) == 1 {
      HalfAtOne(f);
    } else {
      MagnitudeHalf(f);
    }
  }

  lemma HalfDenormal(f: Bits)
    requires Exp(f) == 0
    ensures Finite(Half(f)) && Magnitude(Half(f)) == Magnitude(f) / 2
  {
    hide Num, Exp, Frac, ShiftDown, Magnitude;
    DownExp(f);
    DownFrac(f);
    MagnitudeDenormal(f);
    MagnitudeDenormal(Half(f));
    NumUnfold(Frac(f));
  }

  lemma HalfAtOne(f: Bits)
    requires Exp(f) == 1
    ensures Finite(Half(f)) && (Magnitude(Half(f)) == Magnitude(f) / 2 <==> Frac(f) == 0x7FFFFF)
  {
    hide Num, Exp, Frac, Half, Magnitude;
    HalfNormal(f);
    MagnitudeDenormal(Half(f));
    MagnitudeAtOne(f);
    FracBound(f);
    HalfOfSignificand(Frac(f));
  }

  lemma HalfOfSignificand(x: Bits)
    requires x < 0x800000
    ensures Num(x) == Num(x | 0x800000) / 2 <==> x == 0x7FFFFF
  {
    hide Num;
    NumUnfold(x | 0x800000);
    AllOnes(x);
    if Num(x) == Num((x | 0x800000) >> 1) {
      NumInjective(x, (x | 0x800000) >> 1);
    }
  }

  lemma AllOnes(x: Bits)
    requires x < 0x800000
    ensures x == (x | 0x800000) >> 1 <==> x == 0x7FFFFF
  {
  }

  // ---------------------------------------------------------------- inverses

  /** Halving undoes doubling for exactly all encodings except denormals whose doubling
      becomes normalized, and stored exponent 254. */
  lemma HalfUndoesTwice(f: Bits)
    ensures Half(Twice(f)) == f <==> !(Exp(f) == 0 && Frac(f) >= 0x400000) && Exp(f) != 254
  {
    hide Half, Twice, Exp, Frac;
    ExpBound(f);
    if Exp(f) == 0 {
      UndoSmall(f);
    } else if Exp(f) < 254 {
      UndoNormal(f);
    } else {
      UndoTop(f);
    }
  }

  lemma UndoSmall(f: Bits)
    requires Exp(f) == 0
    ensures Half(Twice(f)) == f <==> Frac(f) < 0x400000
  {
    hide Exp, Frac, Negative, ShiftUp, ShiftDown, WithExp;
    TwiceSign(f);
    HalfSign(Twice(f));
    if Frac(f) < 0x400000 {
      UpExpSmall(f);
      UpFracSmall(f);
      DownExp(Twice(f));
      DownFrac(Twice(f));
      SameFields(Half(Twice(f)), f);
    } else {
      UpExpLarge(f);
      UpFracLarge(f);
      HalfNormal(Twice(f));
      FracBound(f);
      UpFracEven(f);
      LostBit(Frac(ShiftUp(f)), Frac(f));
    }
  }

  lemma LostBit(y: Bits, x: Bits)
    requires (y | 0x800000) >> 1 == x && x < 0x800000 && y & 1 == 0
    ensures x != y
  {
  }

  lemma UndoNormal(f: Bits)
    requires 0 < Exp(f) < 254
    ensures Half(Twice(f)) == f
  {
    hide Half, Twice, Exp, Frac, Negative;
    TwiceSign(f);
    TwiceNormal(f);
    HalfSign(Twice(f));
    HalfNormal(Twice(f));
    SameFields(Half(Twice(f)), f);
  }

  lemma UndoTop(f: Bits)
    requires Exp(f) >= 254
    ensures Half(Twice(f)) == f <==> Exp(f) != 254
  {
    hide Exp, Frac, WithExp, ShiftUp, ShiftDown;
    ExpBound(f);
    if Exp(f) == 254 {
      TwiceNormal(f);
    }
  }

  /** Negation flips the sign of every number, zeros and infinities included, keeps every NaN,
      and undoes itself. */
  lemma NegateMeaning(f: Bits)
    ensures Finite(f) ==> Finite(Negate(f)) && Value(Negate(f)) == -Value(f)
    ensures Infinite(f) ==> Infinite(Negate(f))
    ensures Negative(Negate(f)) == if IsNan(f) then Negative(f) else !Negative(f)
    ensures IsNan(f) ==> Negate(f) == f
    ensures Negate(Negate(f)) == f
  {
    hide Exp, Frac, Negative, UnitsToReal, Negate, Magnitude;
    NegateIsFlip(f);
    var g := f ^ 0x80000000;
    FlipExp(f);
    FlipFrac(f);
    FlipSign(f);
    FlipBack(f);
    NegateIsFlip(g);
    if Finite(f) {
      SameMagnitude(f, g);
      assert Units(g) == -Units(f);
      RealNegate(Units(f));
    }
  }

  lemma SameMagnitude(f: Bits, g: Bits)
    requires Exp(f) == Exp(g) && Frac(f) == Frac(g)
    ensures Magnitude(f) == Magnitude(g)
  {
    hide Num, Exp, Frac, Significand, Scale;
    SameScale(f, g);
    SameSignificand(f, g);
  }

  lemma SameScale(f: Bits, g: Bits)
    requires Exp(f) == Exp(g)
    ensures Scale(f) == Scale(g)
  {
    hide Exp;
  }

  lemma SameSignificand(f: Bits, g: Bits)
    requires Exp(f) == Exp(g) && Frac(f) == Frac(g)
    ensures Significand(f) == Significand(g)
  {
    hide Exp, Frac;
  }

  lemma NegateIsFlip(f: Bits)
    ensures Negate(f) == if IsNan(f) then f else f ^ 0x80000000
  {
    hide Exp, Frac;
    ExpForms(f);
  }

  lemma ExpForms(f: Bits)
    ensures (f >> 23) & 0xFF == Exp(f)
  {
  }

  lemma FlipExp(f: Bits)
    ensures Exp(f ^ 0x80000000) == Exp(f)
  {
  }

  lemma FlipFrac(f: Bits)
    ensures Frac(f ^ 0x80000000) == Frac(f)
  {
  }

  lemma FlipSign(f: Bits)
    ensures Negative(f ^ 0x80000000) == !Negative(f)
  {
  }

  lemma FlipBack(f: Bits)
    ensures (f ^ 0x80000000) ^ 0x80000000 == f
  {
  }
}
