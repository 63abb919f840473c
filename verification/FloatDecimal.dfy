/** From the bits of a float to a signed coefficient and exponent: decoding, exact digits, shortest form. */
module FloatDecimal {
  import opened Powers
  import opened DigitSeq
  import opened DigitView
  import opened ShiftMath
  import opened ExactShift
  import opened FloatFormat
  import opened FloatBounds
  import opened DigitWalk
  import opened MultiPrecision
  import opened Shortest

  /** A float is at most 2^(mantbits+2) times its lower half gap. */
  lemma GapRatio(mant: nat, exp: int, flt: FloatInfo)
    requires mant > 0 && IsFloat(mant, exp, flt)
    ensures FloatValue(mant, exp, flt) <=
            Pow(2, flt.mantbits + 2) as real * (FloatValue(mant, exp, flt) - Lower(mant, exp, flt))
  {
    hide MulPow2, Pow;
    var k, mb, big := exp - flt.mantbits, flt.mantbits, Pow(2, flt.mantbits + 2);
    PowNext(2, mb);
    PowNext(2, mb + 1);
    MulPow2Double(mant as real, k);
    if LowExp(mant, exp, flt) == exp {
      MulPow2Sum((mant * 2 - 1) as real, 1.0, k - 1);
      MulPow2Order(mant * 2, big, k - 1);
      MulPow2Times(big, k - 1);
    } else {
      MulPow2Double((mant * 2) as real, k - 1);
      MulPow2Sum((mant * 4 - 1) as real, 1.0, k - 2);
      MulPow2Order(mant * 4, big, k - 2);
      MulPow2Times(big, k - 2);
    }
  }

  /** Some number with n digits reads back, if 10^(n-1) exceeds 2^(mantbits+1). */
  lemma EnoughDigits(v: View, mant: nat, exp: int, flt: FloatInfo, n: nat) returns (y: real)
    requires mant > 0 && flt.mantbits > 0 && IsFloat(mant, exp, flt)
    requires v.Normal() && v.Value() == FloatValue(mant, exp, flt)
    requires n > 0 && Pow(2, flt.mantbits + 1) < Pow(10, n - 1)
    ensures HasDigits(y, n) && ReadsBackAs(y, mant, exp, flt)
  {
    hide FloatValue, IsFloat, Lower, Upper, Num, Pow, UnitsOf, MulPow2, HasDigits, ReadsBackAs;
    var x, p := v.Value(), v.dp - n;
    Bracket(mant, exp, flt);
    PositiveDigits(v);
    UnitsBound(v, p);
    UnitsBound(v, v.dp);
    UnitsBound(v, v.dp - 1);
    LeadingUnits(v);
    var d := UnitsOf(v, p);
    MoveTen(1, n - 1, p);
    MoveTen(1, n, p);
    NumLess(d, Pow(10, n), p);
    GapRatio(mant, exp, flt);
    HalfGaps(mant, exp, flt);
    PowNext(2, flt.mantbits + 1);
    NumDiff(d + 1, d, p);
    NumScaled(Pow(10, n - 1), p);
    PowPositive(2, flt.mantbits + 1);
    assert Pow(2, flt.mantbits + 2) as real == 2.0 * Pow(2, flt.mantbits + 1) as real;
    UnitBelowGap(Num(1, p), x - Lower(mant, exp, flt), Pow(10, n - 1) as real, Pow(2, flt.mantbits + 1) as real, x);
    if x - Num(d, p) <= Num(d + 1, p) - x {
      y := Num(d, p);
      FitsBy(y, n, d, p);
    } else {
      y := Num(d + 1, p);
      if d + 1 < Pow(10, n) {
        FitsBy(y, n, d + 1, p);
      } else {
        PowMonotone(10, 1, n);
        PowTen();
        FitsBy(y, n, 1, v.dp);
      }
    }
    IntervalReadsBack(y, mant, exp, flt);
  }

  lemma NumScaled(a: nat, p: int)
    ensures Num(a, p) == a as real * Num(1, p)
  {
  }

  lemma LeadingUnits(v: View)
    requires v.Normal() && v.digits != []
    ensures UnitsOf(v, v.dp) == 0 && UnitsOf(v, v.dp - 1) >= 1
    ensures Num(1, v.dp - 1) <= v.Value() < Num(1, v.dp)
  {
    UnitsStep(v, v.dp - 1);
    hide Num;
    UnitsBound(v, v.dp);
    UnitsBound(v, v.dp - 1);
    NumLess(UnitsOf(v, v.dp - 1), 1, v.dp - 1);
  }

  lemma UnitBelowGap(unit: real, h: real, ten: real, two: real, x: real)
    requires unit > 0.0 && h > 0.0 && 0.0 < two < ten && ten * unit <= x <= (2.0 * two) * h
    ensures unit < 2.0 * h
  {
    ScaledOrder(two, ten, 2.0 * h);
    ScaledOrder(unit, 2.0 * h, ten);
  }

  /** size * 10^e reads back as the float; no number with fewer digits does; of the numbers with as few digits that do,
      none is closer, and neither is any number ending at the same place; if one of these is as close, size is even. */
  ghost predicate Represents(size: nat, e: int, mant: nat, exp: int, flt: FloatInfo) {
    var gap := Dist(Num(size, e), FloatValue(mant, exp, flt));
    && ReadsBackAs(Num(size, e), mant, exp, flt)
    && (forall y: real, n: nat :: ReadsBackAs(y, mant, exp, flt) && HasDigits(y, n) ==>
          size < Pow(10, n) && (Pow(10, n) <= 10 * size ==> gap <= Dist(y, FloatValue(mant, exp, flt))))
    && (forall a: nat :: ReadsBackAs(Num(a, e), mant, exp, flt) ==> gap <= Dist(Num(a, e), FloatValue(mant, exp, flt)))
    && (forall a: nat :: ReadsBackAs(Num(a, e), mant, exp, flt) && gap == Dist(Num(a, e), FloatValue(mant, exp, flt)) ==>
          a == size || size % 2 == 0)
  }

  /** The word with sign bit s, biased exponent f and fraction m (section 3.4 of IEEE 754-2008). */
  ghost function Word(s: nat, f: nat, m: nat, flt: FloatInfo): nat {
    s * Pow(2, flt.expbits + flt.mantbits) + f * Pow(2, flt.mantbits) + m
  }

  /** The fields of a finite number; the largest biased exponent is kept for infinities and NaN. */
  ghost predicate Fields(s: nat, f: nat, m: nat, flt: FloatInfo) {
    s <= 1 && f < Pow(2, flt.expbits) - 1 && m < Pow(2, flt.mantbits)
  }

  /** What the conversion of such a word promises: zero for zero, and otherwise the sign and the best magnitude for the
      number 2^bias * (2^mantbits + m) / 2^mantbits scaled by 2^f, a subnormal one lacking the implicit bit. */
  ghost predicate Converts(coef: int, e: int, s: nat, f: nat, m: nat, flt: FloatInfo) {
    var mant, exp := if f == 0 then m else Pow(2, flt.mantbits) + m, flt.bias + if f == 0 then 1 else f;
    if mant == 0 then coef == 0 && e == 0 else
      && coef != 0 && (coef < 0 <==> s == 1)
      && Represents(if coef < 0 then -coef else coef, e, mant, exp, flt)
  }

  function ExpField(bits: nat, flt: FloatInfo): nat {
    PowPositive(2, flt.expbits);
    ShiftedDown(bits, flt.mantbits) % Pow(2, flt.expbits)
  }

  /** The significand, with the implicit bit of a normal number. */
  function Significand(bits: nat, flt: FloatInfo): nat {
    Masked(bits, flt.mantbits) + if ExpField(bits, flt) == 0 then 0 else Pow(2, flt.mantbits)
  }

  function Exponent(bits: nat, flt: FloatInfo): int {
    flt.bias + if ExpField(bits, flt) == 0 then 1 else ExpField(bits, flt)
  }

  predicate SignBit(bits: nat, flt: FloatInfo) {
    ShiftedDown(bits, flt.expbits + flt.mantbits) != 0
  }

  /** The code reads the fields off the word. */
  lemma FieldsReadOff(bits: nat, s: nat, f: nat, m: nat, flt: FloatInfo)
    requires Fields(s, f, m, flt) && bits == Word(s, f, m, flt)
    ensures ExpField(bits, flt) == f && Masked(bits, flt.mantbits) == m && (SignBit(bits, flt) <==> s == 1)
  {
    var a, b := Pow(2, flt.mantbits), Pow(2, flt.expbits);
    PowPositive(2, flt.mantbits);
    PowPositive(2, flt.expbits);
    PowAdd(2, flt.expbits, flt.mantbits);
    hide Pow;
    WordParts(bits, s, f, m, a, b);
  }

  lemma WordParts(bits: nat, s: nat, f: nat, m: nat, a: nat, b: nat)
    requires a > 0 && b > 0 && s <= 1 && f < b && m < a && bits == s * (b * a) + f * a + m
    ensures b * a > 0 && bits % a == m && (bits / a) % b == f && (bits / (b * a) != 0 <==> s == 1)
  {
    Nested(s, b, f, a);
    RemainderIs(bits, s * b + f, a, m);
    RemainderIs(s * b + f, s, b, f);
    MulLe(f + 1, b, a);
    TimesNext(f, a);
    RemainderIs(bits, s, b * a, f * a + m);
  }

  lemma Nested(s: nat, b: nat, f: nat, a: nat)
    ensures (s * b + f) * a == s * (b * a) + f * a
  {
    assert (s * b) * a == s * (b * a);
  }

  /** Every word has fields; the finite ones are those whose biased exponent is not the largest. */
  lemma EveryWord(bits: nat, flt: FloatInfo) returns (s: nat, f: nat, m: nat)
    requires bits < Pow(2, 1 + flt.expbits + flt.mantbits)
    ensures s <= 1 && f < Pow(2, flt.expbits) && m < Pow(2, flt.mantbits) && bits == Word(s, f, m, flt)
  {
    hide Pow;
    PowPositive(2, flt.mantbits);
    PowPositive(2, flt.expbits);
    PowAdd(2, flt.expbits, flt.mantbits);
    PowNext(2, flt.expbits + flt.mantbits);
    s, f, m := PartsOf(bits, Pow(2, flt.mantbits), Pow(2, flt.expbits));
  }

  lemma PartsOf(bits: nat, a: nat, b: nat) returns (s: nat, f: nat, m: nat)
    requires a > 0 && b > 0 && bits < 2 * (b * a)
    ensures s <= 1 && f < b && m < a && bits == s * (b * a) + f * a + m
  {
    var q: nat := bits / a;
    m := bits % a;
    QuotientBack(bits, a, q, m);
    f, s := q % b, q / b;
    QuotientBack(q, b, s, f);
    hide *;
    Nested(s, b, f, a);
    AtMostOne(s, b * a, bits);
  }

  lemma AtMostOne(s: nat, n: nat, bits: nat)
    requires s * n <= bits < 2 * n
    ensures s <= 1
  {
    if s >= 2 {
      MulLe(2, s, n);
    }
  }

  lemma FieldsAreFloat(f: nat, m: nat, flt: FloatInfo)
    requires Standard(flt) && Fields(0, f, m, flt)
    ensures var mant, exp := if f == 0 then m else Pow(2, flt.mantbits) + m, flt.bias + if f == 0 then 1 else f;
            && IsFloat(mant, exp, flt) && Supported(exp, flt) && mant < 0x20_0000_0000_0000 && exp >= -1022
  {
    PowPositive(2, flt.mantbits);
    PowPositive(2, flt.expbits);
    assert Pow(2, 8) == 256 && Pow(2, 11) == 2048;
    PowNext(2, flt.mantbits);
    WordSizes();
    hide Pow;
    PowMonotone(2, flt.mantbits + 1, 53);
  }

  lemma Decoded(bits: nat, s: nat, f: nat, m: nat, flt: FloatInfo)
    requires Standard(flt) && Fields(s, f, m, flt) && bits == Word(s, f, m, flt)
    ensures var mant, exp := Significand(bits, flt), Exponent(bits, flt);
            && mant == (if f == 0 then m else Pow(2, flt.mantbits) + m) && exp == flt.bias + (if f == 0 then 1 else f)
            && (SignBit(bits, flt) <==> s == 1)
            && IsFloat(mant, exp, flt) && Supported(exp, flt) && mant < 0x20_0000_0000_0000 && exp >= -1022
  {
    hide Pow, IsFloat, Masked, ExpField, SignBit, Word;
    FieldsReadOff(bits, s, f, m, flt);
    FieldsAreFloat(f, m, flt);
  }

  /** The two formats as the standard has them: precision 24 and 53, largest exponent 127 and 1023, 32 and 64 bits. */
  lemma StandardFormats()
    ensures FLOAT32.mantbits + 1 == 24 && FLOAT64.mantbits + 1 == 53
    ensures -FLOAT32.bias == 127 == Pow(2, FLOAT32.expbits - 1) - 1
    ensures -FLOAT64.bias == 1023 == Pow(2, FLOAT64.expbits - 1) - 1
    ensures 1 + FLOAT32.expbits + FLOAT32.mantbits == 32 && 1 + FLOAT64.expbits + FLOAT64.mantbits == 64
  {
    assert Pow(2, 7) == 128 && Pow(2, 10) == 1024;
  }

  /** The digits of one float, exact first and then shortest. */
  method ShortestDigits(mant: UInt64, exp: int, flt: FloatInfo) returns (d: DigitBuffer)
    requires 0 < mant < 0x20_0000_0000_0000 && exp >= -1022 && Supported(exp, flt) && IsFloat(mant, exp, flt)
    ensures fresh(d) && d.Valid() && 0 < d.nd <= 17 && IsShortest(d.Content(), mant, exp, flt)
  {
    hide IsFloat, FloatValue, MulPow2, Num, Fits, Pow, IsShortest, Shifted;
    d := new DigitBuffer();
    d.Assign(mant);
    FloatFits(mant, exp, flt);
    ShiftExact(d.Content(), exp - flt.mantbits);
    d.Shift(exp - flt.mantbits);
    ghost var exact := d.Content();
    RoundShortest(d, mant, exp, flt);
    AtMostSeventeen(exact, d.Content(), mant, exp, flt);
  }

  /** NewFromFloat and NewFromFloat32 on the finite number with these fields. */
  method FromBits(bits: UInt64, flt: FloatInfo, ghost s: nat, ghost f: nat, ghost m: nat) returns (coef: int, e: int)
    requires Standard(flt) && Fields(s, f, m, flt) && bits == Word(s, f, m, flt)
    ensures Converts(coef, e, s, f, m, flt)
  {
    hide IsFloat, Word, Fields, Exponent, Significand, SignBit, Num, IsShortest, Val, Pow, Represents;
    Decoded(bits, s, f, m, flt);
    var exp, mant := Exponent(bits, flt), Significand(bits, flt);
    if mant == 0 {
      return 0, 0;
    }
    var d := ShortestDigits(mant, exp, flt);
    d.neg := SignBit(bits, flt);
    // at most 17 digits, so the source's path for 19 or more is never taken
    var tmp := DigitsAsInt(d);
    ConvertedBy(d.Content(), mant, exp, flt, d.dp - d.nd);
    coef := if d.neg then -tmp else tmp;
    e := d.dp - d.nd;
  }

  lemma FloatFits(mant: nat, exp: int, flt: FloatInfo)
    requires mant < 0x20_0000_0000_0000 && Supported(exp, flt) && exp >= -1022
    ensures Fits(MulPow2(mant as real, exp - flt.mantbits))
    ensures FloatValue(mant, exp, flt) == MulPow2(mant as real, exp - flt.mantbits)
  {
    hide MulPow2, Fits;
    WordSizes();
    hide Pow;
    MidpointFits(mant, exp - flt.mantbits);
  }

  /** The shortest form of a double has at most 17 digits. */
  lemma AtMostSeventeen(exact: View, v: View, mant: nat, exp: int, flt: FloatInfo)
    requires mant > 0 && Supported(exp, flt) && IsFloat(mant, exp, flt) && v.Normal() && exact.Normal()
    requires IsShortest(v, mant, exp, flt) && exact.Value() == FloatValue(mant, exp, flt)
    ensures 0 < |v.digits| <= 17
    ensures flt == FLOAT32 ==> |v.digits| <= 9
  {
    SizesOfDigits();
    hide IsFloat, FloatValue, Num, Pow, MulPow2, HasDigits, ReadsBackAs;
    var y := EnoughDigits(exact, mant, exp, flt, if flt == FLOAT32 then 9 else 17);
    Bracket(mant, exp, flt);
    IntervalReadsBack(v.Value(), mant, exp, flt);
    PositiveDigits(v);
  }

  lemma SizesOfDigits()
    ensures Pow(2, 24) < Pow(10, 8) && Pow(2, 53) < Pow(10, 16)
  {
    WordSizes();
    assert Pow(2, 12) == 4096 && Pow(10, 8) == 100000000;
    PowAdd(2, 12, 12);
    PowAdd(10, 8, 8);
  }

  lemma ConvertedBy(v: View, mant: nat, exp: int, flt: FloatInfo, p: int)
    requires v.Normal() && v.digits != [] && p == v.dp - |v.digits| && IsShortest(v, mant, exp, flt)
    ensures Val(v.digits) > 0 && Represents(Val(v.digits), p, mant, exp, flt)
  {
    hide Num, Pow, Val, HasDigits, ReadsBackAs, FloatValue;
    ValLower(v.digits);
    PowPositive(10, |v.digits| - 1);
    ValBound(v.digits);
    forall y: real, n: nat | ReadsBackAs(y, mant, exp, flt) && HasDigits(y, n)
      ensures Val(v.digits) < Pow(10, n)
      ensures Pow(10, n) <= 10 * Val(v.digits) ==> Dist(v.Value(), FloatValue(mant, exp, flt)) <= Dist(y, FloatValue(mant, exp, flt))
    {
      PowMonotone(10, |v.digits|, n);
      if Pow(10, n) <= 10 * Val(v.digits) {
        AsFewDigits(Val(v.digits), |v.digits|, y, n);
      }
    }
  }

  lemma AsFewDigits(size: nat, m: nat, y: real, n: nat)
    requires size < Pow(10, m) && Pow(10, n) <= 10 * size && HasDigits(y, n)
    ensures HasDigits(y, m)
  {
    PowNext(10, m);
    hide Num, Pow;
    var c: nat, e: int :| c < Pow(10, n) && y == Num(c, e);
    if n > m {
      PowMonotone(10, m + 1, n);
      assert false;
    }
    PowMonotone(10, n, m);
    FitsBy(y, m, c, e);
  }

  type Int64 = n: int | -0x8000_0000_0000_0000 <= n < 0x8000_0000_0000_0000

  /** The digits of a short buffer as a machine integer, from right to left. */
  method DigitsAsInt(d: DigitBuffer) returns (tmp: Int64)
    requires d.Valid() && d.nd < 19
    ensures tmp == Val(d.Digs())
  {
    hide Val, Pow;
    ghost var s := d.Digs();
    tmp := 0;
    var m: Int64 := 1;
    var i: nat := d.nd;
    NothingRead(s);
    while i > 0
      invariant i <= |s| && tmp == Val(s[i..]) && m == Pow(10, |s| - i)
    {
      i := i - 1;
      TakeDigit(s, i);
      tmp := tmp + m * d.d[i];
      m := m * 10;
    }
    assert s[0..] == s;
  }

  /** One more digit still fits the machine integer. */
  lemma TakeDigit(s: seq<Digit>, i: nat)
    requires i < |s| <= 18
    ensures var m := Pow(10, |s| - i - 1);
            Val(s[i + 1..]) + m * s[i] == Val(s[i..]) < 1_000_000_000_000_000_000
    ensures Pow(10, |s| - i) == Pow(10, |s| - i - 1) * 10 <= 1_000_000_000_000_000_000
  {
    hide Val, Pow;
    EighteenPow();
    PowNext(10, |s| - i - 1);
    assert s[i..] == [s[i]] + s[i + 1..];
    ValCons(s[i], s[i + 1..]);
    ValBound(s[i..]);
    PowMonotone(10, |s| - i, 18);
    CommuteInt(s[i], Pow(10, |s| - i - 1));
  }

  lemma NothingRead(s: seq<Digit>)
    ensures Val(s[|s|..]) == 0 && Pow(10, 0) == 1
  {
  }
}
