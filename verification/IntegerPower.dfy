/** Raising a decimal to an integer power by repeated squaring. */
module IntegerPower {
  import opened Powers
  import opened DigitSeq
  import opened FixedPoint

  ghost function IntPow(a: int, n: nat): int {
    if n == 0 then 1 else a * IntPow(a, n - 1)
  }

  ghost function RealPow(x: real, n: nat): real {
    if n == 0 then 1.0 else x * RealPow(x, n - 1)
  }

  /** Undefined is the reported error; DivisionByZero is where the source's division panics. */
  datatype PowResult = Power(value: Decimal) | Undefined | DivisionByZero

  lemma {:induction false} SquareStep(a: int, n: nat)
    ensures IntPow(a, n) == IntPow(a * a, n / 2) * (if n % 2 == 1 then a else 1)
  {
    if n < 2 {
    } else {
      SquareStep(a, n - 2);
      var p, b := IntPow(a * a, n / 2 - 1), if n % 2 == 1 then a else 1;
      assert IntPow(a, n) == a * (a * (p * b));
      assert IntPow(a * a, n / 2) == (a * a) * p;
      Regrouped(a, p, b);
    }
  }

  lemma Regrouped(a: int, p: int, b: int)
    ensures a * (a * (p * b)) == ((a * a) * p) * b
  {
  }

  lemma ExponentHalved(x: int, n: nat)
    ensures x * n == (x + x) * (n / 2) + (if n % 2 == 1 then x else 0)
  {
    assert n == 2 * (n / 2) + n % 2;
    DoubleHalf(x, n / 2);
    if n % 2 == 1 {
      assert x * n == x * (2 * (n / 2)) + x * 1;
    }
  }

  lemma DoubleHalf(x: int, h: int)
    ensures x * (2 * h) == (x + x) * h
  {
  }

  lemma Carried(r: int, b: int, p: int)
    ensures r * (p * b) == (r * b) * p
  {
  }

  lemma PowNonzero(a: int, n: nat)
    requires a != 0
    ensures IntPow(a, n) != 0
  {
    if n > 0 {
      PowNonzero(a, n - 1);
      NonzeroProduct(a, IntPow(a, n - 1));
    }
  }

  lemma PowOfZero(n: nat)
    ensures IntPow(0, n) == if n == 0 then 1 else 0
  {
  }

  /** The coefficient's power at the multiplied exponent denotes the number's power. */
  lemma {:induction false} PowAmount(d: Decimal, n: nat)
    ensures Num(IntPow(d.value, n), d.exp * n) == RealPow(d.Amount(), n)
  {
    if n == 0 {
      PowZeroAmount(d.exp);
    } else {
      PowAmount(d, n - 1);
      PowUnfold(d.value, d.Amount(), n);
      TimesNext(n - 1, d.exp);
      hide *;
      AmountStep(d, IntPow(d.value, n - 1), d.exp * (n - 1), d.exp * n);
    }
  }

  lemma AmountStep(d: Decimal, w: int, y: int, z: int)
    requires z == d.exp + y
    ensures Num(d.value * w, z) == d.Amount() * Num(w, y)
  {
    hide Num;
    MulExact(d, Decimal(w, y));
  }

  lemma PowUnfold(a: int, x: real, n: nat)
    requires n > 0
    ensures IntPow(a, n) == a * IntPow(a, n - 1) && RealPow(x, n) == x * RealPow(x, n - 1)
  {
  }

  lemma PowZeroAmount(x: int)
    ensures Num(1, x * 0) == 1.0
  {
    assert x * 0 == 0;
    ScaleZero(10);
  }

  /** Squares n while the bits of the exponent are consumed. */
  method RaiseTo(d: Decimal, e: nat) returns (r: Decimal)
    ensures r == Decimal(IntPow(d.value, e), d.exp * e)
  {
    var tmp: nat := e;
    var n := d;
    r := Decimal(1, 0);
    while tmp > 0
      invariant r.value * IntPow(n.value, tmp) == IntPow(d.value, e)
      invariant r.exp + n.exp * tmp == d.exp * e
    {
      var bit := tmp % 2;
      SquareStep(n.value, tmp);
      ExponentHalved(n.exp, tmp);
      hide IntPow;
      Carried(r.value, if bit == 1 then n.value else 1, IntPow(n.value * n.value, tmp / 2));
      if bit == 1 {
        r := Mul(r, n);
      }
      tmp := tmp / 2;
      if tmp > 0 {
        n := Mul(n, n);
      } else {
        PowDone(n.value * n.value);
        PowDone(n.value);
      }
    }
  }

  lemma PowDone(a: int)
    ensures IntPow(a, 0) == 1
  {
  }

  /** Exact for a non-negative exponent; for a negative one the reciprocal, correctly rounded. */
  method PowBigIntWithPrecision(d: Decimal, exp: int, precision: int) returns (r: PowResult)
    ensures r == Undefined <==> d.value == 0 && exp == 0
    ensures r == DivisionByZero <==> d.value == 0 && exp < 0
    ensures exp >= 0 && r.Power? ==> r.value.Amount() == RealPow(d.Amount(), exp)
    ensures exp < 0 && r.Power? ==>
              && RealPow(d.Amount(), -exp) != 0.0
              && NearestAway(r.value.Amount(), 1.0 / RealPow(d.Amount(), -exp), -precision)
  {
    hide Num, NearestAway, IntPow, RealPow, DivRound;
    if d.value == 0 && exp == 0 {
      return Undefined;
    }
    var result := RaiseTo(d, AbsInt(exp));
    PowAmount(d, AbsInt(exp));
    if exp < 0 {
      if result.value == 0 {
        ZeroBase(d.value, -exp);
        return DivisionByZero;
      }
      ZeroBase(d.value, -exp);
      DivRoundNearest(Decimal(1, 0), result, precision);
      PowZeroAmount(0);
      return Power(DivRound(Decimal(1, 0), result, precision));
    }
    return Power(result);
  }

  lemma ZeroBase(a: int, n: nat)
    requires n > 0
    ensures IntPow(a, n) == 0 <==> a == 0
  {
    if a == 0 {
      PowOfZero(n);
    } else {
      PowNonzero(a, n);
    }
  }
}
