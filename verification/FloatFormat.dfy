/** Binary floating point formats (section 3.4 of IEEE 754-2008) and reading a decimal back
    with roundTiesToEven (section 4.3.1). */
module FloatFormat {
  import opened Powers
  import opened ExactShift

  datatype FloatInfo = FloatInfo(mantbits: nat, expbits: nat, bias: int) {
    function MinExp(): int { bias + 1 }
  }

  const FLOAT32 := FloatInfo(23, 8, -127)
  const FLOAT64 := FloatInfo(52, 11, -1023)

  /** mant * 2^(exp - mantbits) is a non-negative float; exponents are not bounded above, as in the
      standard's definition of rounding. */
  ghost predicate IsFloat(mant: nat, exp: int, flt: FloatInfo) {
    && mant < Pow(2, flt.mantbits + 1)
    && exp >= flt.MinExp()
    && (exp > flt.MinExp() ==> Pow(2, flt.mantbits) <= mant)
  }

  ghost function FloatValue(mant: nat, exp: int, flt: FloatInfo): real {
    MulPow2(mant as real, exp - flt.mantbits)
  }

  ghost function Dist(x: real, y: real): real {
    if x < y then y - x else x - y
  }

  /** Rounding x to the nearest float gives this one, an exact tie going to the even significand. */
  ghost predicate ReadsBackAs(x: real, mant: nat, exp: int, flt: FloatInfo) {
    forall m: nat, e: int :: IsFloat(m, e, flt) && FloatValue(m, e, flt) != FloatValue(mant, exp, flt) ==>
      var near, far := Dist(x, FloatValue(mant, exp, flt)), Dist(x, FloatValue(m, e, flt));
      near < far || (near == far && mant % 2 == 0)
  }

  /** The significand and exponent the algorithm uses for the float below. */
  function LowMant(mant: nat, exp: int, flt: FloatInfo): int {
    if mant > Pow(2, flt.mantbits) || exp == flt.MinExp() then mant - 1 else mant * 2 - 1
  }

  function LowExp(mant: nat, exp: int, flt: FloatInfo): int {
    if mant > Pow(2, flt.mantbits) || exp == flt.MinExp() then exp else exp - 1
  }

  ghost function Upper(mant: nat, exp: int, flt: FloatInfo): real {
    MulPow2((mant * 2 + 1) as real, exp - flt.mantbits - 1)
  }

  ghost function Lower(mant: nat, exp: int, flt: FloatInfo): real {
    MulPow2((LowMant(mant, exp, flt) * 2 + 1) as real, LowExp(mant, exp, flt) - flt.mantbits - 1)
  }

  /** Between the midpoints to the neighbouring floats, endpoints included for an even significand. */
  ghost predicate InInterval(x: real, mant: nat, exp: int, flt: FloatInfo) {
    var lo, hi := Lower(mant, exp, flt), Upper(mant, exp, flt);
    lo < x < hi || (mant % 2 == 0 && lo <= x <= hi)
  }

  lemma MulPow2Double(a: real, k: int)
    ensures MulPow2(a, k) == MulPow2(2.0 * a, k - 1)
  {
    hide Scale;
    ScaleStep(2, k - 1);
    DoubleReal(a, Scale(2, k - 1));
  }

  lemma DoubleReal(a: real, s: real)
    ensures a * (2.0 * s) == (2.0 * a) * s
  {
  }

  lemma MulPow2Positive(a: real, k: int)
    requires a > 0.0
    ensures MulPow2(a, k) > 0.0
  {
    hide Scale;
    PositiveProduct(a, Scale(2, k));
  }

  lemma MulPow2Times(a: nat, k: int)
    ensures MulPow2(a as real, k) == a as real * MulPow2(1.0, k)
  {
  }

  lemma MulPow2Less(a: real, b: real, k: int)
    requires a < b
    ensures MulPow2(a, k) < MulPow2(b, k)
  {
    hide Scale;
    PositiveProduct(b - a, Scale(2, k));
    Spread(b, a, Scale(2, k));
  }

  lemma MulPow2Sum(a: real, b: real, k: int)
    ensures MulPow2(a + b, k) == MulPow2(a, k) + MulPow2(b, k)
  {
    hide Scale;
    Spread(a, b, Scale(2, k));
  }

  lemma MulPow2Up2(m: nat, j: nat, k: int)
    ensures MulPow2(m as real, k + j) == MulPow2((m * Pow(2, j)) as real, k)
  {
    hide Scale, Pow;
    ScaleAdd(2, k, j);
    ScaleNat(2, j);
    ProductReal(m, Pow(2, j));
    ThreeReals(m as real, Pow(2, j) as real, Scale(2, k));
  }

  /** The float below, as used by the algorithm. */
  ghost function Below(mant: nat, exp: int, flt: FloatInfo): real {
    MulPow2(LowMant(mant, exp, flt) as real, LowExp(mant, exp, flt) - flt.mantbits)
  }

  ghost function Above(mant: nat, exp: int, flt: FloatInfo): real {
    MulPow2((mant + 1) as real, exp - flt.mantbits)
  }

  lemma Midpoints(mant: nat, exp: int, flt: FloatInfo)
    requires mant > 0
    ensures 2.0 * Upper(mant, exp, flt) == FloatValue(mant, exp, flt) + Above(mant, exp, flt)
    ensures 2.0 * Lower(mant, exp, flt) == FloatValue(mant, exp, flt) + Below(mant, exp, flt)
    ensures Below(mant, exp, flt) < FloatValue(mant, exp, flt) < Above(mant, exp, flt)
  {
    hide MulPow2, Pow;
    var k, lm, le := exp - flt.mantbits, LowMant(mant, exp, flt), LowExp(mant, exp, flt) - flt.mantbits;
    Halve(mant, mant + 1, k);
    if le == k {
      Halve(lm, mant, k);
      MulPow2Less(lm as real, mant as real, k);
    } else {
      MulPow2Double(mant as real, k);
      Halve(lm, 2 * mant, le);
      MulPow2Less(lm as real, (2 * mant) as real, le);
    }
    MulPow2Less(mant as real, (mant + 1) as real, k);
  }

  lemma Halve(a: int, b: int, k: int)
    requires b == a + 1
    ensures 2.0 * MulPow2((a * 2 + 1) as real, k - 1) == MulPow2(a as real, k) + MulPow2(b as real, k)
  {
    hide MulPow2;
    MulPow2Sum(a as real, b as real, k);
    assert a as real + b as real == (a * 2 + 1) as real;
    MulPow2Double((a * 2 + 1) as real, k);
    var x := (a * 2 + 1) as real;
    MulPow2Sum(x, x, k - 1);
  }

  /** No float lies strictly between this one and its neighbours. */
  lemma Neighbours(mant: nat, exp: int, m: nat, e: int, flt: FloatInfo)
    requires mant > 0 && IsFloat(mant, exp, flt) && IsFloat(m, e, flt)
    ensures FloatValue(m, e, flt) > FloatValue(mant, exp, flt) ==> FloatValue(m, e, flt) >= Above(mant, exp, flt)
    ensures FloatValue(m, e, flt) < FloatValue(mant, exp, flt) ==> FloatValue(m, e, flt) <= Below(mant, exp, flt)
  {
    hide MulPow2, Pow;
    var k, mb := exp - flt.mantbits, flt.mantbits;
    PowNext(2, mb);
    if e >= exp {
      MulPow2Up2(m, e - exp, k);
      var a := m * Pow(2, e - exp);
      MulPow2Order(a, mant, k);
      MulPow2Order(a, mant + 1, k);
      MulPow2Order(a, mant - 1, k);
      MulPow2Double((mant - 1) as real, k);
      MulPow2Order(2 * (mant - 1), 2 * mant - 1, k - 1);
    } else {
      MulPow2Up2(1, exp - 1 - e, e - mb);
      var j := exp - 1 - e;
      SmallerExponent(m, j, e - mb);
      MulPow2Order(m, 2 * Pow(2, mb) - 1, k - 1);
      MulPow2Double(mant as real, k);
      MulPow2Double((mant - 1) as real, k);
      MulPow2Order(2 * Pow(2, mb) - 1, 2 * mant, k - 1);
      MulPow2Order(2 * Pow(2, mb) - 1, 2 * (mant - 1), k - 1);
      MulPow2Order(2 * Pow(2, mb) - 1, 2 * mant - 1, k - 1);
    }
  }

  lemma MulPow2Order(a: int, b: int, k: int)
    ensures a < b <==> MulPow2(a as real, k) < MulPow2(b as real, k)
    ensures a <= b <==> MulPow2(a as real, k) <= MulPow2(b as real, k)
  {
    hide MulPow2;
    if a < b {
      MulPow2Less(a as real, b as real, k);
    } else if b < a {
      MulPow2Less(b as real, a as real, k);
    }
  }

  lemma SmallerExponent(m: nat, j: nat, k: int)
    ensures MulPow2(m as real, k) <= MulPow2(m as real, k + j)
  {
    hide MulPow2, Pow;
    MulPow2Up2(m, j, k);
    PowPositive(2, j);
    MulGrows(Pow(2, j), m);
    MulPow2Order(m, m * Pow(2, j), k);
  }

  /** The interval of the algorithm is exactly the set of numbers that read back as the float. */
  lemma IntervalReadsBack(x: real, mant: nat, exp: int, flt: FloatInfo)
    requires mant > 0 && flt.mantbits > 0 && IsFloat(mant, exp, flt)
    ensures InInterval(x, mant, exp, flt) <==> ReadsBackAs(x, mant, exp, flt)
  {
    hide MulPow2, Pow, IsFloat, FloatValue, Lower, Upper, Above, Below, LowMant, LowExp;
    Midpoints(mant, exp, flt);
    if InInterval(x, mant, exp, flt) {
      forall m: nat, e: int | IsFloat(m, e, flt) && FloatValue(m, e, flt) != FloatValue(mant, exp, flt)
        ensures var near, far := Dist(x, FloatValue(mant, exp, flt)), Dist(x, FloatValue(m, e, flt));
                near < far || (near == far && mant % 2 == 0)
      {
        Neighbours(mant, exp, m, e, flt);
      }
    }
    if ReadsBackAs(x, mant, exp, flt) {
      var m, e := AboveIsFloat(mant, exp, flt);
      var m', e' := BelowIsFloat(mant, exp, flt);
    }
  }

  lemma AboveIsFloat(mant: nat, exp: int, flt: FloatInfo) returns (m: nat, e: int)
    requires IsFloat(mant, exp, flt)
    ensures IsFloat(m, e, flt) && FloatValue(m, e, flt) == Above(mant, exp, flt)
  {
    hide MulPow2, Pow;
    PowNext(2, flt.mantbits);
    PowPositive(2, flt.mantbits);
    if mant + 1 < Pow(2, flt.mantbits + 1) {
      m, e := mant + 1, exp;
    } else {
      m, e := Pow(2, flt.mantbits), exp + 1;
      MulPow2Double(m as real, e - flt.mantbits);
      assert 2.0 * m as real == (mant + 1) as real;
    }
  }

  lemma BelowIsFloat(mant: nat, exp: int, flt: FloatInfo) returns (m: nat, e: int)
    requires mant > 0 && IsFloat(mant, exp, flt)
    ensures IsFloat(m, e, flt) && FloatValue(m, e, flt) == Below(mant, exp, flt)
  {
    hide MulPow2, Pow;
    PowNext(2, flt.mantbits);
    m, e := LowMant(mant, exp, flt), LowExp(mant, exp, flt);
  }
}
