/** Fixed-point decimals: a coefficient and an exponent, exact arithmetic, division and rounding. */
module FixedPoint {
  import opened Powers
  import opened DigitSeq
  import opened ExactShift
  import opened FloatFormat
  import opened DigitWalk

  /** value * 10^exp; an uninitialised coefficient of the source is 0. */
  datatype Decimal = Decimal(value: int, exp: int) {
    ghost function Amount(): real {
      Num(value, exp)
    }
  }

  function Sign(x: int): int {
    if x > 0 then 1 else if x < 0 then -1 else 0
  }

  function AbsInt(x: int): nat {
    if x < 0 then -x else x
  }

  function Shares(x: nat, y: nat): nat
    requires y > 0
  {
    x / y
  }

  /** Truncated division of big integers. */
  function Quo(a: int, b: int): int
    requires b != 0
  {
    var q := Shares(AbsInt(a), AbsInt(b));
    if (a < 0) != (b < 0) then 0 - q else q
  }

  function Rem(a: int, b: int): int
    requires b != 0
  {
    a - b * Quo(a, b)
  }

  function PowTenOf(k: nat): (p: nat)
    ensures p == Pow(10, k) && p > 0
  {
    PowPositive(10, k);
    Pow(10, k)
  }

  /** The same number at another exponent; towards a larger exponent it truncates. */
  function Rescale(d: Decimal, exp: int): Decimal {
    if exp == d.exp then d
    else if exp > d.exp then Decimal(Quo(d.value, PowTenOf(exp - d.exp)), exp)
    else Decimal(d.value * PowTenOf(d.exp - exp), exp)
  }

  function RescalePair(d: Decimal, e: Decimal): (Decimal, Decimal) {
    if d.exp < e.exp then (d, Rescale(e, d.exp))
    else if d.exp > e.exp then (Rescale(d, e.exp), e)
    else (d, e)
  }

  function Abs(d: Decimal): Decimal {
    Decimal(AbsInt(d.value), d.exp)
  }

  function Add(d: Decimal, e: Decimal): Decimal {
    var (x, y) := RescalePair(d, e);
    Decimal(x.value + y.value, x.exp)
  }

  function Sub(d: Decimal, e: Decimal): Decimal {
    var (x, y) := RescalePair(d, e);
    Decimal(x.value - y.value, x.exp)
  }

  function Mul(d: Decimal, e: Decimal): Decimal {
    Decimal(d.value * e.value, d.exp + e.exp)
  }

  function CmpInt(a: int, b: int): int {
    if a < b then -1 else if a > b then 1 else 0
  }

  function Cmp(d: Decimal, e: Decimal): int {
    if d.exp == e.exp then CmpInt(d.value, e.value) else
      var (x, y) := RescalePair(d, e);
      CmpInt(x.value, y.value)
  }

  /** Quotient to a multiple of 10^-precision, and the remainder. */
  function QuoRem(d: Decimal, e: Decimal, precision: int): (r: (Decimal, Decimal))
    requires e.value != 0
  {
    var scale := -precision;
    var shift := d.exp - e.exp - scale;
    if shift < 0 then
      var bb := e.value * PowTenOf(-shift);
      NonzeroProduct(e.value, PowTenOf(-shift));
      (Decimal(Quo(d.value, bb), scale), Decimal(Rem(d.value, bb), d.exp))
    else
      var aa := d.value * PowTenOf(shift);
      (Decimal(Quo(aa, e.value), scale), Decimal(Rem(aa, e.value), scale + e.exp))
  }

  function DivRound(d: Decimal, e: Decimal, precision: int): Decimal
    requires e.value != 0
  {
    var (q, r) := QuoRem(d, e, precision);
    var twice := Decimal(2 * AbsInt(r.value), r.exp + precision);
    if Cmp(twice, Abs(e)) < 0 then q
    else if Sign(d.value) * Sign(e.value) < 0 then Sub(q, Decimal(1, -precision))
    else Add(q, Decimal(1, -precision))
  }

  lemma NonzeroProduct(a: int, b: int)
    requires a != 0 && b != 0
    ensures a * b != 0
  {
  }

  // ---- exactness

  lemma {:induction false} RescaleExact(d: Decimal, exp: int)
    requires exp <= d.exp
    ensures Rescale(d, exp).Amount() == d.Amount() && Rescale(d, exp).exp == exp
  {
    hide Num;
    if exp < d.exp {
      MoveTen(d.value, d.exp - exp, exp);
    }
  }

  lemma RescalePairExact(d: Decimal, e: Decimal)
    ensures var (x, y) := RescalePair(d, e);
            x.exp == y.exp && x.Amount() == d.Amount() && y.Amount() == e.Amount()
  {
    hide Num, Rescale;
    RescaleExact(d, if d.exp < e.exp then d.exp else e.exp);
    RescaleExact(e, if d.exp < e.exp then d.exp else e.exp);
  }

  /** Comparing decimals compares the numbers they denote. */
  lemma CmpMeaning(d: Decimal, e: Decimal)
    ensures Cmp(d, e) < 0 <==> d.Amount() < e.Amount()
    ensures Cmp(d, e) > 0 <==> d.Amount() > e.Amount()
    ensures Cmp(d, e) == 0 <==> d.Amount() == e.Amount()
  {
    hide Num, RescalePair;
    RescalePairExact(d, e);
    var (x, y) := RescalePair(d, e);
    NumLess(x.value, y.value, x.exp);
    NumLess(y.value, x.value, x.exp);
    NumLess(d.value, e.value, d.exp);
    NumLess(e.value, d.value, d.exp);
  }

  lemma AddExact(d: Decimal, e: Decimal)
    ensures Add(d, e).Amount() == d.Amount() + e.Amount()
    ensures Sub(d, e).Amount() == d.Amount() - e.Amount()
  {
    hide Num, RescalePair;
    RescalePairExact(d, e);
    var (x, y) := RescalePair(d, e);
    NumDiff(x.value, y.value, x.exp);
    NumDiff(x.value + y.value, y.value, x.exp);
  }

  lemma MulExact(d: Decimal, e: Decimal)
    ensures Mul(d, e).Amount() == d.Amount() * e.Amount()
  {
    hide Scale;
    ScaleAdd(10, d.exp, e.exp);
    ProductReal(d.value, e.value);
    FourReals(d.value as real, e.value as real, Scale(10, d.exp), Scale(10, e.exp));
  }

  lemma FourReals(a: real, b: real, s: real, t: real)
    ensures (a * b) * (s * t) == (a * s) * (b * t)
  {
    calc {
      (a * b) * (s * t);
      a * (b * (s * t));
      a * (s * (b * t));
      (a * s) * (b * t);
    }
  }

  // ---- division

  ghost predicate Divides(a: int, b: int, q: int, r: int) {
    a == b * q + r && AbsInt(r) < AbsInt(b) && (r != 0 ==> Sign(r) == Sign(a))
  }

  lemma QuoRemInt(a: int, b: int)
    requires b != 0
    ensures Divides(a, b, Quo(a, b), Rem(a, b))
  {
    var x, y := AbsInt(a), AbsInt(b);
    hide Shares;
    var r := EuclidNat(x, y);
    SignedDivision(a, b, Shares(x, y), r, Quo(a, b));
  }

  lemma SignedDivision(a: int, b: int, q0: nat, r0: nat, q: int)
    requires AbsInt(a) == AbsInt(b) * q0 + r0 && r0 < AbsInt(b)
    requires q == if (a < 0) != (b < 0) then 0 - q0 else q0
    ensures Divides(a, b, q, a - b * q)
  {
    SignsOut(AbsInt(b), q0);
    assert b * q == if a < 0 then 0 - AbsInt(b) * q0 else AbsInt(b) * q0;
    assert a - b * q == if a < 0 then 0 - r0 else r0;
  }

  lemma EuclidNat(x: nat, y: nat) returns (r: nat)
    requires y > 0
    ensures x == y * Shares(x, y) + r && r < y
  {
    r := x % y;
  }

  lemma SignsOut(y: int, q: int)
    ensures (-y) * q == -(y * q) && y * (-q) == -(y * q) && (-y) * (-q) == y * q
  {
  }

  ghost function AbsReal(x: real): real {
    if x < 0.0 then -x else x
  }

  lemma NumAbs(a: int, e: int)
    ensures AbsReal(Num(a, e)) == Num(AbsInt(a), e)
    ensures Num(a, e) > 0.0 <==> a > 0
    ensures Num(a, e) < 0.0 <==> a < 0
  {
    hide Num;
    NumZero(e);
    NumLess(a, 0, e);
    NumLess(0, a, e);
    NumDiff(0, a, e);
  }

  lemma NumTimesUnit(b: int, e: int, scale: int)
    ensures Num(b, e + scale) == Num(b, e) * Num(1, scale)
  {
    hide Num;
    MulExact(Decimal(b, e), Decimal(1, scale));
  }

  /** The division contract: d = e * q + r, q a multiple of 10^-precision, r smaller than one unit of e
      and signed like d, for positive and negative precision alike. */
  lemma QuoRemContract(d: Decimal, e: Decimal, precision: int)
    requires e.value != 0
    ensures var (q, r) := QuoRem(d, e, precision);
            && q.exp == -precision
            && d.Amount() == e.Amount() * q.Amount() + r.Amount()
            && AbsReal(r.Amount()) < AbsReal(e.Amount()) * Num(1, -precision)
            && (r.Amount() > 0.0 ==> d.Amount() > 0.0)
            && (r.Amount() < 0.0 ==> d.Amount() < 0.0)
  {
    hide Num, Quo, Rem, Pow;
    var scale := -precision;
    var shift := d.exp - e.exp - scale;
    if shift < 0 {
      var bb := e.value * PowTenOf(-shift);
      NonzeroProduct(e.value, PowTenOf(-shift));
      MoveTen(e.value, -shift, d.exp);
      Divided10(d.value, bb, d.exp, e, scale);
    } else {
      var aa := d.value * PowTenOf(shift);
      MoveTen(d.value, shift, scale + e.exp);
      SignScaled(d.value, PowTenOf(shift));
      Divided10(aa, e.value, scale + e.exp, e, scale);
      NumAbs(d.value, d.exp);
    }
    NumAbs(d.value, d.exp);
  }

  lemma SignScaled(a: int, p: nat)
    requires p > 0
    ensures Sign(a * p) == Sign(a)
  {
  }

  /** Integer division of a by b, both counted in 10^m, where b stands for e * 10^scale. */
  lemma Divided10(a: int, b: int, m: int, e: Decimal, scale: int)
    requires b != 0 && Num(b, m) == Num(e.value, e.exp + scale)
    ensures Num(a, m) == e.Amount() * Num(Quo(a, b), scale) + Num(Rem(a, b), m)
    ensures AbsReal(Num(Rem(a, b), m)) < AbsReal(e.Amount()) * Num(1, scale)
    ensures Num(Rem(a, b), m) > 0.0 ==> a > 0
    ensures Num(Rem(a, b), m) < 0.0 ==> a < 0
  {
    hide Num, Quo, Rem, Divides, AbsReal;
    QuoRemInt(a, b);
    DividedValue(a, b, Quo(a, b), Rem(a, b), m, e, scale);
    RemainderSmall(a, b, Quo(a, b), Rem(a, b), m, e, scale);
  }

  lemma DividedValue(a: int, b: int, q: int, r: int, m: int, e: Decimal, scale: int)
    requires Divides(a, b, q, r) && Num(b, m) == Num(e.value, e.exp + scale)
    ensures Num(a, m) == e.Amount() * Num(q, scale) + Num(r, m)
  {
    hide Num;
    ProductAmount(b, q, m, e, scale);
    NumDiff(a, r, m);
    assert a - r == b * q;
  }

  lemma RemainderSmall(a: int, b: int, q: int, r: int, m: int, e: Decimal, scale: int)
    requires Divides(a, b, q, r) && Num(b, m) == Num(e.value, e.exp + scale)
    ensures AbsReal(Num(r, m)) < AbsReal(e.Amount()) * Num(1, scale)
    ensures Num(r, m) > 0.0 ==> a > 0
    ensures Num(r, m) < 0.0 ==> a < 0
  {
    hide Num;
    NumAbs(r, m);
    NumAbs(b, m);
    NumAbs(1, scale);
    NumTimesUnit(e.value, e.exp, scale);
    AbsProduct(e.Amount(), Num(1, scale));
    NumLess(AbsInt(r), AbsInt(b), m);
  }

  lemma ProductAmount(b: int, q: int, m: int, e: Decimal, scale: int)
    requires Num(b, m) == Num(e.value, e.exp + scale)
    ensures Num(b * q, m) == e.Amount() * Num(q, scale)
  {
    hide Num;
    NumTimesInt(b, q, m);
    NumTimesUnit(e.value, e.exp, scale);
    NumTimesInt(1, q, scale);
    ThreeReals(e.Amount(), Num(1, scale), q as real);
  }

  lemma NumTimesInt(b: int, q: int, m: int)
    ensures Num(b * q, m) == Num(b, m) * q as real
  {
    hide Scale;
    ProductReal(b, q);
    SwapReal(b as real, q as real, Scale(10, m));
  }

  lemma AbsProduct(x: real, y: real)
    requires y > 0.0
    ensures AbsReal(x * y) == AbsReal(x) * y
  {
    if x > 0.0 {
      PositiveProduct(x, y);
    } else if x < 0.0 {
      PositiveProduct(-x, y);
    }
  }

  // ---- what the rounding modes mean

  ghost predicate IsMultiple(r: real, p: int) {
    exists n: int :: r == Num(n, p)
  }

  /** No multiple of 10^p is nearer to x than r, and one equally near is closer to zero. */
  ghost predicate NearestAway(r: real, x: real, p: int) {
    && IsMultiple(r, p)
    && forall n: int :: Num(n, p) != r ==>
         Dist(x, r) < Dist(x, Num(n, p)) || (Dist(x, r) == Dist(x, Num(n, p)) && AbsReal(Num(n, p)) < AbsReal(r))
  }

  /** No multiple of 10^p is nearer to x than r, and if one is equally near, r has the even coefficient. */
  ghost predicate NearestEven(r: real, x: real, p: int) {
    exists k: int :: r == Num(k, p) && forall n: int :: n != k ==>
      Dist(x, r) < Dist(x, Num(n, p)) || (Dist(x, r) == Dist(x, Num(n, p)) && k % 2 == 0)
  }

  ghost predicate LeastAbove(r: real, x: real, p: int) {
    IsMultiple(r, p) && x <= r && forall n: int :: x <= Num(n, p) ==> r <= Num(n, p)
  }

  ghost predicate GreatestBelow(r: real, x: real, p: int) {
    IsMultiple(r, p) && r <= x && forall n: int :: Num(n, p) <= x ==> Num(n, p) <= r
  }

  /** Half a unit at most, and exactly half only away from zero. */
  lemma NearestAwayBy(k: int, x: real, p: int)
    requires 2.0 * Dist(x, Num(k, p)) <= Num(1, p)
    requires 2.0 * Dist(x, Num(k, p)) == Num(1, p) ==>
               (x > 0.0 && Num(k, p) > x) || (x < 0.0 && Num(k, p) < x)
    ensures NearestAway(Num(k, p), x, p)
  {
    hide Num;
    var r, u := Num(k, p), Num(1, p);
    NumAbs(1, p);
    forall n: int | Num(n, p) != r
      ensures Dist(x, r) < Dist(x, Num(n, p)) || (Dist(x, r) == Dist(x, Num(n, p)) && AbsReal(Num(n, p)) < AbsReal(r))
    {
      UnitApart(n, k, p);
    }
  }

  /** A nearest multiple is at most half a unit away. */
  lemma NearestWithinHalf(r: real, x: real, p: int)
    requires NearestAway(r, x, p)
    ensures 2.0 * Dist(x, r) <= Num(1, p)
  {
    hide Num;
    var k :| r == Num(k, p);
    NumDiff(k + 1, k, p);
    NumDiff(k, k - 1, p);
    NumAbs(1, p);
  }

  lemma UnitApart(n: int, k: int, p: int)
    requires n != k
    ensures if n < k then Num(n, p) <= Num(k, p) - Num(1, p) else Num(n, p) >= Num(k, p) + Num(1, p)
  {
    hide Num;
    NumDiff(k, 1, p);
    NumDiff(k + 1, 1, p);
    NumLess(n, k - 1, p);
    NumLess(k + 1, n, p);
  }

  lemma NearestEvenBy(k: int, x: real, p: int)
    requires 2.0 * Dist(x, Num(k, p)) <= Num(1, p)
    requires 2.0 * Dist(x, Num(k, p)) == Num(1, p) ==> k % 2 == 0
    ensures NearestEven(Num(k, p), x, p)
  {
    hide Num;
    var r, u := Num(k, p), Num(1, p);
    NumAbs(1, p);
    forall n: int | n != k
      ensures Dist(x, r) < Dist(x, Num(n, p)) || (Dist(x, r) == Dist(x, Num(n, p)) && k % 2 == 0)
    {
      UnitApart(n, k, p);
    }
  }

  lemma LeastAboveBy(k: int, x: real, p: int)
    requires x <= Num(k, p) < x + Num(1, p)
    ensures LeastAbove(Num(k, p), x, p)
  {
    hide Num;
    forall n: int | x <= Num(n, p) ensures Num(k, p) <= Num(n, p) {
      if n != k {
        UnitApart(n, k, p);
      }
    }
  }

  lemma GreatestBelowBy(k: int, x: real, p: int)
    requires Num(k, p) <= x < Num(k, p) + Num(1, p)
    ensures GreatestBelow(Num(k, p), x, p)
  {
    hide Num;
    forall n: int | Num(n, p) <= x ensures Num(n, p) <= Num(k, p) {
      if n != k {
        UnitApart(n, k, p);
      }
    }
  }

  /** DivRound is the multiple of 10^-precision nearest to the exact quotient, ties away from zero. */
  lemma DivRoundNearest(d: Decimal, e: Decimal, precision: int)
    requires e.value != 0
    ensures e.Amount() != 0.0
    ensures NearestAway(DivRound(d, e, precision).Amount(), d.Amount() / e.Amount(), -precision)
    ensures DivRound(d, e, precision).exp == -precision
  {
    hide Num, QuoRem, Cmp, Add, Sub, NearestAway;
    NumAbs(e.value, e.exp);
    assert e.Amount() != 0.0;
    var (q, r) := QuoRem(d, e, precision);
    var p := -precision;
    var u, x := Num(1, p), d.Amount() / e.Amount();
    QuoRemContract(d, e, precision);
    NumAbs(d.value, d.exp);
    NumAbs(1, p);
    var twice := Decimal(2 * AbsInt(r.value), r.exp + precision);
    CmpMeaning(twice, Abs(e));
    TwiceTest(r, e, precision, twice);
    QuotientError(d.Amount(), e.Amount(), q.Amount(), r.Amount(), u, x);
    AddSubUnit(q, p);
    NearestAwayBy(DivRound(d, e, precision).value, x, p);
  }

  lemma AddSubUnit(q: Decimal, p: int)
    requires q.exp == p
    ensures Add(q, Decimal(1, p)) == Decimal(q.value + 1, p) && Sub(q, Decimal(1, p)) == Decimal(q.value - 1, p)
    ensures Num(q.value + 1, p) == q.Amount() + Num(1, p) && Num(q.value - 1, p) == q.Amount() - Num(1, p)
  {
    hide Num;
    NumDiff(q.value + 1, 1, p);
    NumDiff(q.value, 1, p);
  }

  /** Comparing 2 * |r| * 10^precision with |e| compares 2 * |r| with one unit of e. */
  lemma TwiceTest(r: Decimal, e: Decimal, precision: int, twice: Decimal)
    requires twice == Decimal(2 * AbsInt(r.value), r.exp + precision)
    ensures twice.Amount() < Abs(e).Amount() <==> 2.0 * AbsReal(r.Amount()) < AbsReal(e.Amount()) * Num(1, -precision)
    ensures Abs(e).Amount() == AbsReal(e.Amount())
  {
    hide Num;
    NumAbs(r.value, r.exp);
    NumAbs(e.value, e.exp);
    NumTimesInt(AbsInt(r.value), 2, r.exp);
    NumTimesUnit(2 * AbsInt(r.value), r.exp, precision);
    NumTimesUnit(1, precision, -precision);
    NumAbs(1, -precision);
    assert Num(1, precision) * Num(1, -precision) == 1.0 by {
      WholeNum(1);
    }
    var big := 2.0 * AbsReal(r.Amount());
    ThreeReals(big, Num(1, precision), Num(1, -precision));
    assert twice.Amount() * Num(1, -precision) == big;
    ScaledOrder(twice.Amount(), AbsReal(e.Amount()), Num(1, -precision));
  }

  /** The exact quotient differs from q by r / e. */
  lemma QuotientError(d: real, e: real, q: real, r: real, u: real, x: real)
    requires e != 0.0 && u > 0.0 && x == d / e && d == e * q + r && AbsReal(r) < AbsReal(e) * u
    requires (r > 0.0 ==> d > 0.0) && (r < 0.0 ==> d < 0.0)
    ensures 2.0 * AbsReal(r) < AbsReal(e) * u ==> 2.0 * Dist(x, q) < u
    ensures 2.0 * AbsReal(r) >= AbsReal(e) * u ==>
              if (d < 0.0) == (e < 0.0) then x > 0.0 && q + u / 2.0 <= x < q + u else x < 0.0 && q - u < x <= q - u / 2.0
  {
    var t := x - q;
    assert x * e == d;
    assert t * e == r;
    SignedOrder(t, e, r, u);
    SignOfQuotient(x, e, d);
    PositiveProduct(AbsReal(e), u);
  }

  lemma SignOfQuotient(x: real, e: real, d: real)
    requires e != 0.0 && x * e == d
    ensures d != 0.0 ==> (x > 0.0 <==> (d < 0.0) == (e < 0.0)) && x != 0.0
  {
    if x > 0.0 {
      AbsProduct(e, x);
      if e > 0.0 {
        PositiveProduct(x, e);
      } else {
        PositiveProduct(x, -e);
      }
    } else if x < 0.0 {
      if e > 0.0 {
        PositiveProduct(-x, e);
      } else {
        PositiveProduct(-x, -e);
      }
    }
  }

  lemma SignedOrder(t: real, e: real, r: real, u: real)
    requires e != 0.0 && t * e == r && u > 0.0
    ensures AbsReal(r) == AbsReal(t) * AbsReal(e)
    ensures AbsReal(r) < AbsReal(e) * u <==> AbsReal(t) < u
    ensures 2.0 * AbsReal(r) < AbsReal(e) * u <==> 2.0 * AbsReal(t) < u
    ensures r != 0.0 ==> (t > 0.0 <==> (r < 0.0) == (e < 0.0))
  {
    SignOfQuotient(t, e, r);
    AbsReal2(t, e);
    HalfOrder(AbsReal(t), AbsReal(e), u, AbsReal(r), AbsReal(e) * u);
  }

  lemma AbsReal2(t: real, e: real)
    requires e != 0.0
    ensures AbsReal(t * e) == AbsReal(t) * AbsReal(e)
  {
    AbsProduct(t, AbsReal(e));
  }

  lemma HalfOrder(a: real, b: real, u: real, ab: real, bu: real)
    requires b > 0.0 && ab == a * b && bu == b * u
    ensures ab < bu <==> a < u
    ensures 2.0 * ab < bu <==> 2.0 * a < u
  {
    CommuteReal(b, u);
    DoubleOut(a, b);
    ScaledOrder(a, u, b);
    ScaledOrder(2.0 * a, u, b);
  }

  lemma DoubleOut(a: real, b: real)
    ensures (2.0 * a) * b == 2.0 * (a * b)
  {
  }
}
