/** The exponential of a decimal by its Taylor series, with a cache of factorials shared by all calls. */
module TaylorSeries {
  import opened Powers
  import opened DigitSeq
  import opened ExactShift
  import opened FloatFormat
  import opened DigitWalk
  import opened FixedPoint
  import opened IntegerPower
  import Rounding

  // ---- the exact series

  /** x^n / n! */
  ghost function Term(x: real, n: nat): real {
    if n == 0 then 1.0 else Term(x, n - 1) * (x / n as real)
  }

  /** The terms 0 to n added up exactly. */
  ghost function PartialSum(x: real, n: nat): real {
    if n == 0 then 1.0 else PartialSum(x, n - 1) + Term(x, n)
  }

  function Factorial(n: nat): (f: nat)
    ensures f > 0
  {
    if n == 0 then 1 else
      MulGrows(n, Factorial(n - 1));
      n * Factorial(n - 1)
  }

  lemma {:induction false} TermPositive(x: real, n: nat)
    requires x > 0.0
    ensures Term(x, n) > 0.0
  {
    if n > 0 {
      TermPositive(x, n - 1);
      PositiveProduct(Term(x, n - 1), x / n as real);
    }
  }

  lemma {:induction false} TermMonotone(x: real, y: real, n: nat)
    requires 0.0 < x <= y
    ensures Term(x, n) <= Term(y, n)
  {
    if n > 0 {
      TermMonotone(x, y, n - 1);
      TermPositive(x, n - 1);
      var a, b, s, t := Term(x, n - 1), Term(y, n - 1), x / n as real, y / n as real;
      QuotientLe(x, y, n as real);
      ProductLe(a, b, s, t);
    }
  }

  lemma ProductLe(a: real, b: real, s: real, t: real)
    requires 0.0 <= a <= b && 0.0 <= s <= t
    ensures a * s <= b * t
  {
    RealLe(a, b, s);
    RealLe(s, t, b);
  }

  lemma QuotientLe(x: real, y: real, n: real)
    requires x <= y && n > 0.0
    ensures x / n <= y / n
  {
  }

  lemma {:induction false} TermScaled(c: real, x: real, n: nat)
    ensures Term(c * x, n) == RealPow(c, n) * Term(x, n)
  {
    if n > 0 {
      TermScaled(c, x, n - 1);
      ScaledFactor(c, x, n as real, RealPow(c, n - 1), Term(x, n - 1));
    }
  }

  lemma ScaledFactor(c: real, x: real, n: real, p: real, t: real)
    requires n > 0.0
    ensures (p * t) * ((c * x) / n) == (c * p) * (t * (x / n))
  {
    var y := x / n;
    assert (c * x) / n == c * y;
    FourReals(p, t, c, y);
  }

  lemma {:induction false} Bernoulli(y: real, n: nat)
    requires y >= 0.0
    ensures RealPow(1.0 + y, n) >= 1.0 + n as real * y
  {
    if n > 0 {
      Bernoulli(y, n - 1);
      var k, p := (n - 1) as real, RealPow(1.0 + y, n - 1);
      BernoulliStep(k, y, p);
      assert n as real == k + 1.0;
    }
  }

  lemma BernoulliStep(k: real, y: real, p: real)
    requires k >= 0.0 && y >= 0.0 && p >= 1.0 + k * y
    ensures (1.0 + y) * p >= 1.0 + (k + 1.0) * y
  {
    hide *;
    Expanded(k, y);
    RealLe(1.0 + k * y, p, 1.0 + y);
  }

  lemma Expanded(k: real, y: real)
    requires k >= 0.0 && y >= 0.0
    ensures (1.0 + y) * (1.0 + k * y) >= 1.0 + (k + 1.0) * y
  {
    var z := k * y;
    assert (1.0 + y) * (1.0 + z) == 1.0 + y + z + y * z;
    RealLe(0.0, z, y);
  }

  /** (n/2)^n / n! never falls below one half. */
  lemma {:induction false} HalfTerm(n: nat)
    requires n > 0
    ensures Term(n as real / 2.0, n) >= 0.5
  {
    if n == 1 {
      assert Term(0.5, 0) == 1.0;
    } else {
      HalfTerm(n - 1);
      HalfTermStep(n, (n - 1) as real);
    }
  }

  lemma HalfTermStep(n: nat, k: real)
    requires n > 1 && k == (n - 1) as real && Term(k / 2.0, n - 1) >= 0.5
    ensures Term(n as real / 2.0, n) >= 0.5
  {
    TermUnfold(n as real / 2.0, n);
    hide *;
    GrowHalf(k, k / 2.0, 1.0 / k);
    AtLeastTwice(n - 1, 1.0 / k);
    HalfTermGrows(n - 1, n as real / 2.0, k / 2.0, 1.0 + 1.0 / k);
    HalfOf(n as real);
  }

  lemma AtLeastTwice(n: nat, y: real)
    requires y >= 0.0 && n as real * y == 1.0
    ensures RealPow(1.0 + y, n) >= 2.0
  {
    hide *;
    Bernoulli(y, n);
  }

  lemma HalfTermGrows(n: nat, z: real, x: real, c: real)
    requires z == c * x && RealPow(c, n) >= 2.0 && Term(x, n) >= 0.5
    ensures Term(z, n) >= 1.0
  {
    hide *;
    TermScaled(c, x, n);
    ProductLe(2.0, RealPow(c, n), 0.5, Term(x, n));
  }

  lemma TermUnfold(x: real, n: nat)
    requires n > 0
    ensures Term(x, n) == Term(x, n - 1) * (x / n as real)
  {
  }

  lemma GrowHalf(k: real, x: real, y: real)
    requires k > 0.0 && x == k / 2.0 && y == 1.0 / k
    ensures (1.0 + y) * x == (k + 1.0) / 2.0 && k * y == 1.0
  {
    assert k * y == 1.0;
    assert y * x == (k * y) / 2.0;
  }

  lemma HalfOf(n: real)
    requires n > 0.0
    ensures n / 2.0 / n == 0.5
  {
    assert (0.5 * n) / n == 0.5;
  }

  /** A term below one half comes after twice the argument. */
  lemma SmallTermIsLate(x: real, n: nat)
    requires x > 0.0 && n > 0 && Term(x, n) < 0.5
    ensures n as real > 2.0 * x
  {
    hide Term;
    if n as real <= 2.0 * x {
      HalfTerm(n);
      TermMonotone(n as real / 2.0, x, n);
      assert false;
    }
  }

  /** From there on every term is at most half the one before. */
  lemma TermHalves(x: real, n: nat)
    requires x > 0.0 && (n + 1) as real >= 2.0 * x
    ensures 2.0 * Term(x, n + 1) <= Term(x, n)
  {
    TermPositive(x, n);
    var s, t := x / (n + 1) as real, Term(x, n);
    assert 2.0 * s <= 1.0;
    RealLe(2.0 * s, 1.0, t);
    assert 2.0 * (t * s) == t * (2.0 * s);
  }

  /** What is left of the series after term n is at most term n. */
  lemma {:induction false} Tail(x: real, n: nat, m: nat)
    requires x > 0.0 && n as real >= 2.0 * x && m >= n
    ensures 0.0 <= PartialSum(x, m) - PartialSum(x, n) <= Term(x, n) - Term(x, m)
  {
    if m > n {
      Tail(x, n, m - 1);
      TermHalves(x, m - 1);
      TermPositive(x, m);
    }
  }

  lemma {:induction false} PartialSumAtLeastOne(x: real, n: nat)
    requires x > 0.0
    ensures PartialSum(x, n) >= 1.0
  {
    if n > 0 {
      PartialSumAtLeastOne(x, n - 1);
      TermPositive(x, n);
    }
  }

  /** (n/4)^n / n! never exceeds one. */
  lemma {:induction false} QuarterTerm(n: nat)
    ensures Term(n as real / 4.0, n) <= 1.0
  {
    if n == 1 {
      assert Term(0.25, 0) == 1.0;
    } else if n > 1 {
      QuarterTerm(n - 1);
      QuarterTermStep(n, (n - 1) as real);
    }
  }

  lemma QuarterTermStep(n: nat, k: real)
    requires n > 1 && k == (n - 1) as real && Term(k / 4.0, n - 1) <= 1.0
    ensures Term(n as real / 4.0, n) <= 1.0
  {
    var z := n as real / 4.0;
    TermUnfold(z, n);
    hide *;
    InverseTimes(k, 1.0 / k);
    QuarterGrows(k, 1.0 / k);
    AtMostFourfold(n - 1, 1.0 / k);
    QuarterTermGrows(n - 1, z, k / 4.0, 1.0 + 1.0 / k);
    QuarterOf(n as real);
  }

  lemma QuarterTermGrows(n: nat, z: real, x: real, c: real)
    requires x > 0.0 && z == c * x && 0.0 < RealPow(c, n) <= 4.0 && Term(x, n) <= 1.0
    ensures Term(z, n) <= 4.0
  {
    hide *;
    TermScaled(c, x, n);
    TermPositive(x, n);
    ProductLe(RealPow(c, n), 4.0, Term(x, n), 1.0);
  }

  lemma InverseTimes(k: real, y: real)
    requires k > 0.0 && y == 1.0 / k
    ensures k * y == 1.0 && y > 0.0
  {
  }

  lemma QuarterGrows(k: real, y: real)
    requires k * y == 1.0
    ensures (1.0 + y) * (k / 4.0) == (k + 1.0) / 4.0
  {
    assert y * (k / 4.0) == (k * y) / 4.0;
  }

  lemma QuarterOf(n: real)
    requires n > 0.0
    ensures n / 4.0 / n == 0.25
  {
    assert (0.25 * n) / n == 0.25;
  }

  lemma AtMostFourfold(n: nat, y: real)
    requires y > 0.0 && n as real * y == 1.0
    ensures 0.0 < RealPow(1.0 + y, n) <= 4.0
  {
    hide *;
    Compound(1.0 + y, y, n, 0.5);
    FourthOf(RealPow(1.0 + y, n), 0.5);
  }

  lemma FourthOf(p: real, a: real)
    requires a == 0.5 && Square(p, a) <= 1.0
    ensures p <= 4.0
  {
    assert a * a == 0.25;
  }

  /** (1 + y)^n grows at most like 1 / (1 - ny/2)^2. */
  lemma {:induction false} Compound(x: real, y: real, n: nat, a: real)
    requires x == 1.0 + y && y > 0.0 && n as real * y <= 1.0 && a == 1.0 - n as real * y / 2.0
    ensures RealPow(x, n) > 0.0 && Square(RealPow(x, n), a) <= 1.0
  {
    hide *;
    if n == 0 {
      CompoundNone(x, y, a);
    } else {
      PowUnfold(0, x, n);
      OneLess(n, y, a);
      Compound(x, y, n - 1, a + y / 2.0);
      CompoundStep(RealPow(x, n - 1), RealPow(x, n), x, a + y / 2.0, y / 2.0, a);
    }
  }

  ghost function Square(p: real, a: real): real {
    p * (a * a)
  }

  lemma CompoundNone(x: real, y: real, a: real)
    requires a == 1.0 - 0 as real * y / 2.0
    ensures RealPow(x, 0) == 1.0 && Square(1.0, a) <= 1.0
  {
    assert a == 1.0;
  }

  lemma OneLess(n: nat, y: real, a: real)
    requires n > 0 && y > 0.0 && n as real * y <= 1.0 && a == 1.0 - n as real * y / 2.0
    ensures a + y / 2.0 == 1.0 - (n - 1) as real * y / 2.0
    ensures (n - 1) as real * y <= 1.0 && y <= 1.0 && 0.5 <= a + y / 2.0 <= 1.0
  {
    var k := (n - 1) as real;
    assert n as real == k + 1.0;
    Spread(k, 1.0, y);
    RealLe(0.0, k, y);
  }

  lemma CompoundStep(p: real, q: real, x: real, a: real, b: real, c: real)
    requires q == x * p && p > 0.0 && Square(p, a) <= 1.0 && 0.0 < b <= 0.5 && 0.5 <= a <= 1.0 && x == 1.0 + 2.0 * b && c == a - b
    ensures q > 0.0 && Square(q, c) <= 1.0
  {
    CompoundSquare(x, a, b, c);
    RealLe(x * (c * c), a * a, p);
    MoveFactor(x, p, c * c);
    PositiveProduct(x, p);
  }

  lemma MoveFactor(c: real, p: real, q: real)
    ensures (c * p) * q == p * (c * q)
  {
  }

  lemma CompoundSquare(x: real, a: real, b: real, c: real)
    requires 0.0 < b <= 0.5 && 0.5 <= a <= 1.0 && x == 1.0 + 2.0 * b && c == a - b
    ensures x * (c * c) <= a * a
  {
    hide *;
    var u, v, w := a * a, a * b, b * b;
    Squares(a, b, u, v, w);
    GapNegative(a, b, u, v, w);
    var g := 2.0 * u - 2.0 * a + b - 4.0 * v + 2.0 * w;
    SquareGap(x, a, b, c, u, v, w, g);
    NegativeTimes(g, b);
  }

  lemma Squares(a: real, b: real, u: real, v: real, w: real)
    requires 0.0 < b <= 0.5 && 0.5 <= a <= 1.0 && u == a * a && v == a * b && w == b * b
    ensures u <= a && v >= 0.5 * b && w <= 0.5 * b
  {
    hide *;
    SquareAtMost(a, 1.0, u);
    SquareAtMost(b, 0.5, w);
    ProductAtLeast(2.0 * a, b);
    assert (2.0 * a) * b == 2.0 * v;
  }

  lemma SquareAtMost(c: real, d: real, u: real)
    requires 0.0 <= c <= d && u == c * c && (d == 1.0 || d == 0.5)
    ensures u <= if d == 1.0 then c else 0.5 * c
  {
    var g := d - c;
    ProductNonnegative(g, c);
    if d == 1.0 {
      assert g * c == c - u;
    } else {
      assert g * c == 0.5 * c - u;
    }
  }

  lemma ProductNonnegative(g: real, c: real)
    requires g >= 0.0 && c >= 0.0
    ensures g * c >= 0.0
  {
  }

  lemma ProductAtLeast(c: real, b: real)
    requires c >= 1.0 && b >= 0.0
    ensures c * b >= b
  {
  }

  lemma NegativeTimes(g: real, b: real)
    requires g <= 0.0 <= b
    ensures g * b <= 0.0
  {
  }

  lemma GapNegative(a: real, b: real, u: real, v: real, w: real)
    requires u <= a && v >= 0.5 * b && w <= 0.5 * b
    ensures 2.0 * u - 2.0 * a + b - 4.0 * v + 2.0 * w <= 0.0
  {
  }

  lemma SquareGap(x: real, a: real, b: real, c: real, u: real, v: real, w: real, g: real)
    requires x == 1.0 + 2.0 * b && c == a - b && u == a * a && v == a * b && w == b * b
    requires g == 2.0 * u - 2.0 * a + b - 4.0 * v + 2.0 * w
    ensures x * (c * c) - u == g * b
  {
    assert c * c == u - 2.0 * v + w;
    assert (2.0 * b) * (u - 2.0 * v + w) == 2.0 * (u * b) - 4.0 * (v * b) + 2.0 * (w * b);
    assert g * b == 2.0 * (u * b) - 2.0 * v + w - 4.0 * (v * b) + 2.0 * (w * b);
  }

  /** Past eight times the argument, term n is at most 2^-n. */
  lemma TermBelowPower(x: real, n: nat)
    requires x > 0.0 && n as real >= 8.0 * x
    ensures Term(x, n) <= RealPow(0.5, n)
  {
    hide *;
    var z := n as real / 4.0;
    TermMonotone(x, 0.5 * z, n);
    TermScaled(0.5, z, n);
    QuarterTerm(n);
    TermPositive(z, n);
    HalvesShrink(0, n);
    RealLe(Term(z, n), 1.0, RealPow(0.5, n));
  }

  lemma {:induction false} HalvesShrink(m: nat, n: nat)
    requires m <= n
    ensures 0.0 < RealPow(0.5, n) <= RealPow(0.5, m)
  {
    if m < n {
      HalvesShrink(m, n - 1);
    } else if n > 0 {
      HalvesShrink(m - 1, n - 1);
    }
  }

  /** Two digits in base four to a decimal digit and two more go below half of 10^-places. */
  lemma {:induction false} HalvesBelowUnit(places: int)
    requires places >= 0
    ensures RealPow(0.5, 4 * places + 2) < Num(1, -places) / 2.0
  {
    if places == 0 {
      assert RealPow(0.5, 0) == 1.0;
      assert RealPow(0.5, 1) == 0.5;
    } else {
      HalvesBelowUnit(places - 1);
      FourHalves(4 * places - 2);
      NumTenth(-places);
    }
  }

  lemma FourHalves(n: nat)
    ensures RealPow(0.5, n + 4) == RealPow(0.5, n) / 16.0
  {
    assert RealPow(0.5, n + 1) == 0.5 * RealPow(0.5, n);
    assert RealPow(0.5, n + 2) == 0.5 * RealPow(0.5, n + 1);
    assert RealPow(0.5, n + 3) == 0.5 * RealPow(0.5, n + 2);
    assert RealPow(0.5, n + 4) == 0.5 * RealPow(0.5, n + 3);
  }

  lemma NumTenth(e: int)
    ensures Num(1, e + 1) == 10.0 * Num(1, e) && Num(1, e) > 0.0
  {
    assert Pow(10, 1) == 10 by {
      assert Pow(10, 0) == 1;
    }
    MoveTen(1, 1, e);
    hide Num;
    NumTimesInt(1, 10, e);
    NumAbs(1, e);
  }

  /** A number of terms that is always enough for the loop at x, whatever its terms round to. */
  ghost function MostTerms(x: real, places: int): (n: nat)
    requires x >= 0.0
    ensures n >= 2
  {
    var late, small := (8.0 * x).Floor + 1, if places < 0 then 2 else 4 * places + 2;
    if late < small then small else late
  }

  /** From there on every term is below half a unit of 10^-places. */
  lemma TermsVanish(x: real, places: int, n: nat)
    requires x > 0.0 && n >= MostTerms(x, places)
    ensures Term(x, n) < Num(1, -places) / 2.0
  {
    var k := if places < 0 then 0 else places;
    assert n >= 4 * k + 2 && n as real >= 8.0 * x;
    hide *;
    TermBelowPower(x, n);
    HalvesShrink(4 * k + 2, n);
    HalvesBelowUnit(k);
    if places < 0 {
      UnitAtLeastOne(-places);
    }
  }

  lemma UnitAtLeastOne(e: nat)
    ensures Num(1, e) >= Num(1, 0)
  {
    MoveTen(1, e, 0);
    PowPositive(10, e);
    hide Num, Pow;
    NumLess(1, Pow(10, e), 0);
  }

  // ---- one step of the loop

  /** n half-units of 10^-divPrecision. */
  ghost function HalfUnits(n: nat, divPrecision: int): real {
    n as real * (Num(1, -divPrecision) / 2.0)
  }

  /** The rounded quotient is within half a unit of the term, is not negative, and stays below any bound
      of at least one unit once the term is below half a unit. */
  lemma StepNearTerm(pow: Decimal, factorial: Decimal, x: real, n: nat, divPrecision: int)
    requires x > 0.0 && factorial == Decimal(Factorial(n), 0) && pow.Amount() == Term(x, n) * factorial.Amount()
    ensures var step, u := DivRound(pow, factorial, divPrecision), Num(1, -divPrecision);
            && NearestAway(step.Amount(), Term(x, n), -divPrecision)
            && 2.0 * Dist(Term(x, n), step.Amount()) <= u
            && step.value >= 0 && step.exp == -divPrecision
  {
    hide Num, Term, DivRound, NearestAway;
    var step, p := DivRound(pow, factorial, divPrecision), -divPrecision;
    DivRoundNearest(pow, factorial, divPrecision);
    Divided(Term(x, n), factorial.Amount(), pow.Amount());
    NearestWithinHalf(step.Amount(), Term(x, n), p);
    TermPositive(x, n);
    NumAbs(1, p);
    NumDiff(0, 1, p);
    NumZero(p);
    NumLess(-1, step.value, p);
  }

  lemma Divided(t: real, f: real, w: real)
    requires f != 0.0 && w == t * f
    ensures w / f == t
  {
  }

  /** Multiplying by the argument and taking the next factorial leads to the next term. */
  lemma NextTerm(pow: Decimal, factorial: Decimal, x: Decimal, n: nat)
    requires factorial == Decimal(Factorial(n), 0) && pow.Amount() == Term(x.Amount(), n) * factorial.Amount()
    ensures Mul(pow, x).Amount() == Term(x.Amount(), n + 1) * Decimal(Factorial(n + 1), 0).Amount()
  {
    hide *;
    TermUnfold(x.Amount(), n + 1);
    FactorialAmount(n);
    MulExact(pow, x);
    TermTimes(Term(x.Amount(), n), factorial.Amount(), x.Amount(), (n + 1) as real,
              Term(x.Amount(), n + 1), Decimal(Factorial(n + 1), 0).Amount(), pow.Amount());
  }

  lemma FactorialAmount(n: nat)
    ensures Decimal(Factorial(n + 1), 0).Amount() == Decimal(Factorial(n), 0).Amount() * (n + 1) as real
  {
    var f := Factorial(n);
    assert Factorial(n + 1) == (n + 1) * f;
    hide Num, Factorial;
    NumTimesInt(f, n + 1, 0);
    CommuteInt(n + 1, f);
  }

  lemma TermTimes(t: real, f: real, x: real, k: real, t': real, f': real, w: real)
    requires k > 0.0 && w == t * f && t' == t * (x / k) && f' == f * k
    ensures w * x == t' * f'
  {
    var y := x / k;
    assert x == y * k;
    FourReals(t, f, y, k);
  }

  // ---- what the result promises

  /** s adds the terms 0 to n, each rounded to a multiple of 10^p. */
  ghost predicate IsRoundedSum(s: real, x: real, n: nat, p: int)
    decreases n
  {
    if n == 0 then s == 1.0 else
      exists step: int :: NearestAway(Num(step, p), Term(x, n), p) && IsRoundedSum(s - Num(step, p), x, n - 1, p)
  }

  /** Term n, rounded to a multiple of 10^p, is below the bound. */
  ghost predicate RoundsBelow(x: real, n: nat, p: int, bound: real) {
    exists step: int :: NearestAway(Num(step, p), Term(x, n), p) && Num(step, p) < bound
  }

  /** The loop ends at n: term n is the first that rounds to less than the bound. */
  ghost predicate EndsAt(x: real, n: nat, p: int, bound: real) {
    n >= 1 && RoundsBelow(x, n, p, bound) && NoneBelow(x, n, p, bound)
  }

  ghost predicate NoneBelow(x: real, n: nat, p: int, bound: real) {
    forall j: nat :: 1 <= j < n ==> !RoundsBelow(x, j, p, bound)
  }

  /** Each rounded term costs at most half a unit. */
  lemma {:induction false} RoundedSumClose(s: real, x: real, n: nat, places: int)
    requires IsRoundedSum(s, x, n, -places)
    ensures Dist(s, PartialSum(x, n)) <= HalfUnits(n, places)
    decreases n
  {
    hide Num, Term, NearestAway;
    var p, h := -places, Num(1, -places) / 2.0;
    if n > 0 {
      var step: int :| NearestAway(Num(step, p), Term(x, n), p) && IsRoundedSum(s - Num(step, p), x, n - 1, p);
      RoundedSumClose(s - Num(step, p), x, n - 1, places);
      NearestWithinHalf(Num(step, p), Term(x, n), p);
      Spread((n - 1) as real, 1.0, h);
    }
  }

  lemma RoundedSumStart(x: real, p: int)
    ensures IsRoundedSum(1.0, x, 0, p)
  {
  }

  lemma RoundedSumStep(s: real, step: Decimal, x: real, n: nat, p: int)
    requires IsRoundedSum(s, x, n, p) && NearestAway(step.Amount(), Term(x, n + 1), p) && step.exp == p
    ensures IsRoundedSum(s + step.Amount(), x, n + 1, p)
  {
    hide NearestAway, Term, Num;
    var k := step.value;
    assert (s + Num(k, p)) - Num(k, p) == s;
    assert NearestAway(Num(k, p), Term(x, n + 1), p) && IsRoundedSum((s + Num(k, p)) - Num(k, p), x, n, p);
  }

  lemma RoundsBelowIs(step: Decimal, x: real, n: nat, p: int, bound: real)
    requires NearestAway(step.Amount(), Term(x, n), p) && step.exp == p
    ensures RoundsBelow(x, n, p, bound) <==> step.Amount() < bound
  {
    hide NearestAway, Term, Num;
    if RoundsBelow(x, n, p, bound) {
      var k: int :| NearestAway(Num(k, p), Term(x, n), p) && Num(k, p) < bound;
      NearestUnique(Num(k, p), step.Amount(), Term(x, n), p);
    }
    assert step.Amount() == Num(step.value, p);
  }

  lemma NearestUnique(r: real, s: real, x: real, p: int)
    requires NearestAway(r, x, p) && NearestAway(s, x, p)
    ensures r == s
  {
    var j :| r == Num(j, p);
    var k :| s == Num(k, p);
  }

  function DivPrecision(precision: int): int {
    if precision < 0 then 8 else precision + 1
  }

  function Epsilon(precision: int): Decimal {
    if precision < 0 then Decimal(1, -1) else Decimal(1, -precision - 1)
  }

  /** r is the sum of the rounded terms up to n, inverted for a negative argument and rounded at the end. */
  ghost predicate FromTerms(r: real, d: Decimal, precision: int, n: nat) {
    FromRoundedSum(r, AbsReal(d.Amount()), n, d.value < 0, -DivPrecision(precision), -precision)
  }

  ghost predicate FromRoundedSum(r: real, x: real, n: nat, inverted: bool, p: int, q: int) {
    exists sum: real ::
      && IsRoundedSum(sum, x, n, p) && sum > 0.0
      && if inverted then RoundedTwice(r, 1.0 / sum, q - 1, q) else NearestAway(r, sum, q)
  }

  ghost predicate RoundedTwice(r: real, x: real, p: int, q: int) {
    exists y: real :: NearestAway(y, x, p) && NearestAway(r, y, q)
  }

  lemma Constants(precision: int)
    ensures DivPrecision(precision) == if precision < 0 then 8 else precision + 1
    ensures Epsilon(precision).Amount() == Num(1, if precision < 0 then -1 else -precision - 1)
    ensures forall r, d, n :: FromTerms(r, d, precision, n) ==
              FromRoundedSum(r, AbsReal(d.Amount()), n, d.value < 0, if precision < 0 then -8 else -precision - 1, -precision)
  {
    hide Num, FromRoundedSum;
  }

  /** The m-th approximation of the exponential: the exact partial sum, inverted for a negative argument. */
  ghost function Approximation(d: Decimal, m: nat): real {
    var s := PartialSum(AbsReal(d.Amount()), m);
    if d.value < 0 && s != 0.0 then 1.0 / s else s
  }

  /** Half a unit of the last place, half a unit of the inversion, a half-unit for each of the n terms and
      what the stopping rule leaves out. */
  ghost function Tolerance(d: Decimal, precision: int, n: nat): real {
    Num(1, -precision) / 2.0
    + (if d.value < 0 then Num(1, -(precision + 1)) / 2.0 else 0.0)
    + HalfUnits(n, DivPrecision(precision))
    + LeftOut(precision)
  }

  lemma ToleranceGrows(d: Decimal, precision: int, n: nat, m: nat)
    requires n <= m
    ensures Tolerance(d, precision, n) <= Tolerance(d, precision, m)
  {
    hide Num, LeftOut;
    NumAbs(1, -DivPrecision(precision));
    RealLe(n as real, m as real, Num(1, -DivPrecision(precision)) / 2.0);
  }

  ghost function LeftOut(precision: int): real {
    if precision < 0 then Num(1, -1) + Num(1, -8) / 2.0 else Num(1, -(precision + 1)) / 2.0
  }

  lemma EpsilonLarge(precision: int)
    ensures precision < 0 ==> Num(1, -1) >= Num(1, -8)
  {
    hide Num;
    MoveTen(1, 7, -8);
    PowPositive(10, 7);
    hide Pow;
    NumLess(1, Pow(10, 7), -8);
  }

  lemma LeftOutIs(d: Decimal, precision: int, n: nat, epsilon: Decimal)
    requires epsilon == Epsilon(precision)
    requires var u := Num(1, -DivPrecision(precision));
             var t := Term(AbsReal(d.Amount()), n);
             t < epsilon.Amount() + u / 2.0 && (epsilon.Amount() <= u ==> t <= u / 2.0)
    ensures Term(AbsReal(d.Amount()), n) <= LeftOut(precision)
  {
    hide Num, Term;
  }

  lemma LeftOutSmall(precision: int)
    ensures LeftOut(precision) < 0.5
  {
    var p := if precision < 0 then 8 else precision + 1;
    assert Num(1, -1) == 0.1 by {
      assert Pow(10, 1) == 10;
    }
    hide Num;
    MoveTen(1, p - 1, -p);
    PowPositive(10, p - 1);
    hide Pow;
    NumLess(1, Pow(10, p - 1), -p);
  }

  lemma ZeroAccuracy(d: Decimal, r: Decimal, precision: int)
    requires d.value == 0 && 2.0 * Dist(Num(1, 0), r.Amount()) <= Num(1, -precision)
    ensures forall m: nat :: Dist(r.Amount(), Approximation(d, m)) <= Tolerance(d, precision, 0)
  {
    NumZero(d.exp);
    hide Num;
    WholeNum(1);
    NumAbs(1, -1);
    NumAbs(1, -8);
    NumAbs(1, -(precision + 1));
    forall m: nat ensures Dist(r.Amount(), Approximation(d, m)) <= Tolerance(d, precision, 0) {
      SumAtZero(m);
    }
  }

  lemma {:induction false} SumAtZero(m: nat)
    ensures PartialSum(0.0, m) == 1.0
    ensures m > 0 ==> Term(0.0, m) == 0.0
  {
    if m > 0 {
      SumAtZero(m - 1);
      assert 0.0 / m as real == 0.0;
    }
  }

  lemma Accuracy(d: Decimal, precision: int, n: nat, m: nat, sum: real, y: real, r: real)
    requires d.value != 0 && 1 <= n <= m
    requires var x := AbsReal(d.Amount());
             && x > 0.0 && Dist(sum, PartialSum(x, n)) <= HalfUnits(n, DivPrecision(precision))
             && Term(x, n) <= LeftOut(precision)
    requires sum >= 1.0
    requires if d.value < 0 then 2.0 * Dist(1.0 / sum, y) <= Num(1, -(precision + 1)) else y == sum
    requires 2.0 * Dist(y, r) <= Num(1, -precision)
    ensures Dist(r, Approximation(d, m)) <= Tolerance(d, precision, n)
  {
    var x := AbsReal(d.Amount());
    hide Num, Term, PartialSum, HalfUnits, LeftOut;
    LeftOutSmall(precision);
    SmallTermIsLate(x, n);
    Tail(x, n, m);
    TermPositive(x, m);
    PartialSumAtLeastOne(x, m);
    Reciprocals(sum, PartialSum(x, m));
  }

  lemma Reciprocals(a: real, b: real)
    requires a >= 1.0 && b >= 1.0
    ensures Dist(1.0 / a, 1.0 / b) <= Dist(a, b)
  {
    var p, q := 1.0 / a, 1.0 / b;
    assert p * a == 1.0 && q * b == 1.0;
    ReciprocalAtMostOne(a, p);
    ReciprocalAtMostOne(b, q);
    assert p - q == (p * q) * (b - a) by {
      CrossProduct(a, b, p, q);
    }
    ProductLe(p, 1.0, q, 1.0);
    PositiveProduct(p, q);
    SignedGap(p * q, b - a);
  }

  lemma ReciprocalAtMostOne(a: real, p: real)
    requires a >= 1.0 && p * a == 1.0
    ensures 0.0 < p <= 1.0
  {
    if p <= 0.0 {
      RealLe(p, 0.0, a);
      assert false;
    }
    RealLe(1.0, a, p);
  }

  lemma CrossProduct(a: real, b: real, p: real, q: real)
    requires p * a == 1.0 && q * b == 1.0
    ensures p - q == (p * q) * (b - a)
  {
    Spread(b, a, p * q);
    assert b * (p * q) == p * (q * b);
    assert a * (p * q) == q * (p * a);
    CommuteReal(b - a, p * q);
  }

  lemma SignedGap(c: real, g: real)
    requires 0.0 <= c <= 1.0
    ensures AbsReal(c * g) <= AbsReal(g)
  {
    if g != 0.0 {
      AbsReal2(c, g);
      RealLe(c, 1.0, AbsReal(g));
    }
  }

  function Inverted(d: Decimal, sum: Decimal, precision: int): Decimal
    requires sum.value != 0
  {
    if d.value < 0 then DivRound(Decimal(1, 0), sum, precision + 1) else sum
  }

  /** What is left to do after the loop: inverting for a negative argument, and rounding. */
  lemma RoundedResult(d: Decimal, precision: int, n: nat, sum: Decimal)
    requires sum.Amount() >= 1.0 && sum.value != 0
    requires IsRoundedSum(sum.Amount(), AbsReal(d.Amount()), n, -DivPrecision(precision))
    ensures var y, r := Inverted(d, sum, precision).Amount(), Rounding.Round(Inverted(d, sum, precision), precision);
            && r.exp == -precision && FromTerms(r.Amount(), d, precision, n)
            && 2.0 * Dist(y, r.Amount()) <= Num(1, -precision)
            && if d.value < 0 then 2.0 * Dist(1.0 / sum.Amount(), y) <= Num(1, -(precision + 1)) else y == sum.Amount()
  {
    hide Num, IsRoundedSum, NearestAway, DivRound, Rounding.Round, Rounding.HalfAway, DivPrecision, Dist;
    var y := Inverted(d, sum, precision);
    var r := Rounding.Round(y, precision);
    Rounding.RoundHalf(y, precision);
    Rounding.RoundNearest(y, precision);
    NearestWithinHalf(r.Amount(), y.Amount(), -precision);
    if d.value < 0 {
      DivRoundNearest(Decimal(1, 0), sum, precision + 1);
      WholeNum(1);
      NearestWithinHalf(y.Amount(), 1.0 / sum.Amount(), -(precision + 1));
      assert RoundedTwice(r.Amount(), 1.0 / sum.Amount(), -precision - 1, -precision);
    }
  }

  lemma AccurateResult(d: Decimal, precision: int, n: nat, sum: Decimal)
    requires d.value != 0 && n >= 1 && sum.Amount() >= 1.0 && sum.value != 0
    requires IsRoundedSum(sum.Amount(), AbsReal(d.Amount()), n, -DivPrecision(precision))
    requires var t, e, u := Term(AbsReal(d.Amount()), n), Epsilon(precision).Amount(), Num(1, -DivPrecision(precision));
             t < e + u / 2.0 && (e <= u ==> t <= u / 2.0)
    ensures var r := Rounding.Round(Inverted(d, sum, precision), precision).Amount();
            forall m: nat :: m >= n ==> Dist(r, Approximation(d, m)) <= Tolerance(d, precision, n)
  {
    hide Num, Term, PartialSum, Approximation, Tolerance, HalfUnits, LeftOut, Dist, IsRoundedSum, Inverted, Epsilon;
    hide FromTerms, Rounding.Round;
    NumAbs(d.value, d.exp);
    RoundedResult(d, precision, n, sum);
    RoundedSumClose(sum.Amount(), AbsReal(d.Amount()), n, DivPrecision(precision));
    LeftOutIs(d, precision, n, Epsilon(precision));
    var y := Inverted(d, sum, precision).Amount();
    var r := Rounding.Round(Inverted(d, sum, precision), precision).Amount();
    forall m: nat | m >= n ensures Dist(r, Approximation(d, m)) <= Tolerance(d, precision, n) {
      Accuracy(d, precision, n, m, sum.Amount(), y, r);
    }
  }

  /** Between two rounds of the loop: i - 1 rounded terms are added, none of them below the bound. */
  ghost predicate Running(result: Decimal, pow: Decimal, factorial: Decimal, x: real, i: nat, p: int, bound: real) {
    && i >= 1 && factorial == Decimal(Factorial(i), 0)
    && pow.Amount() == Term(x, i) * factorial.Amount()
    && IsRoundedSum(result.Amount(), x, i - 1, p) && result.Amount() >= 1.0
    && NoneBelow(x, i, p, bound)
  }

  lemma RunningStart(x: Decimal, p: int, bound: real)
    ensures Running(Decimal(1, 0), x, Decimal(1, 0), x.Amount(), 1, p, bound)
  {
    hide Num;
    WholeNum(1);
    assert Term(x.Amount(), 0) == 1.0;
    assert Factorial(0) == 1;
    assert IsRoundedSum(1.0, x.Amount(), 0, p);
  }

  lemma TermAdded(result: Decimal, pow: Decimal, factorial: Decimal, x: real, i: nat, places: int, bound: real)
    requires x > 0.0 && Running(result, pow, factorial, x, i, -places, bound)
    ensures var step, u := DivRound(pow, factorial, places), Num(1, -places);
            var sum := Add(result, step).Amount();
            && IsRoundedSum(sum, x, i, -places) && sum >= 1.0
            && 2.0 * Dist(Term(x, i), step.Amount()) <= u
            && if step.Amount() < bound then
                 EndsAt(x, i, -places, bound) && Term(x, i) < bound + u / 2.0 && (bound <= u ==> Term(x, i) <= u / 2.0)
               else
                 NoneBelow(x, i + 1, -places, bound)
  {
    hide Num, Add, DivRound, NearestAway, IsRoundedSum, RoundsBelow, Term, Factorial;
    var step, p := DivRound(pow, factorial, places), -places;
    StepNearTerm(pow, factorial, x, i, places);
    RoundedSumStep(result.Amount(), step, x, i - 1, p);
    RoundsBelowIs(step, x, i, p, bound);
    AddExact(result, step);
    NumAbs(step.value, p);
    NumLess(step.value, 1, p);
    NumZero(p);
  }

  lemma RunningNext(result: Decimal, pow: Decimal, factorial: Decimal, x: Decimal, i: nat, p: int, bound: real)
    requires i >= 1 && factorial == Decimal(Factorial(i), 0) && pow.Amount() == Term(x.Amount(), i) * factorial.Amount()
    requires IsRoundedSum(result.Amount(), x.Amount(), i, p) && result.Amount() >= 1.0
    requires NoneBelow(x.Amount(), i + 1, p, bound)
    ensures Running(result, Mul(pow, x), Decimal(Factorial(i + 1), 0), x.Amount(), i + 1, p, bound)
  {
    hide Num, Mul, IsRoundedSum, NoneBelow, Term, Factorial;
    NextTerm(pow, factorial, x, i);
  }

  // ---- the cache

  class FactorialCache {
    /** Entry j holds (j+1)!. */
    var factorials: seq<Decimal>

    ghost predicate Valid()
      reads this
    {
      && |factorials| >= 1
      && forall j :: 0 <= j < |factorials| ==> factorials[j] == Decimal(Factorial(j + 1), 0)
    }

    constructor ()
      ensures Valid()
    {
      factorials := [Decimal(1, 0)];
      assert Factorial(1) == 1;
    }

    /** The factorial of i, computed from its predecessor and remembered if the cache does not hold it yet. */
    method Next(i: nat) returns (factorial: Decimal)
      requires Valid() && 2 <= i <= |factorials| + 1
      modifies this
      ensures Valid() && i <= |factorials| && old(factorials) <= factorials
      ensures factorial == Decimal(Factorial(i), 0)
    {
      if |factorials| >= i && factorials[i - 1].value != 0 {
        return factorials[i - 1];
      }
      factorial := Mul(factorials[i - 2], Decimal(i, 0));
      CommuteInt(Factorial(i - 1), i);
      factorials := factorials + [Decimal(0, 1)];
      factorials := factorials[i - 1 := factorial];
    }

    /** Adds rounded terms of the series at x up to the first below epsilon. */
    method Sum(x: Decimal, epsilon: Decimal, divPrecision: int) returns (result: Decimal, ghost n: nat)
      requires Valid() && x.value > 0 && epsilon.Amount() >= Num(1, -divPrecision)
      modifies this
      ensures Valid() && old(factorials) <= factorials
      ensures x.Amount() > 0.0 && EndsAt(x.Amount(), n, -divPrecision, epsilon.Amount())
      ensures IsRoundedSum(result.Amount(), x.Amount(), n, -divPrecision)
      ensures n >= 1 && Dist(result.Amount(), PartialSum(x.Amount(), n)) <= HalfUnits(n, divPrecision)
      ensures result.Amount() >= 1.0
      ensures n <= MostTerms(x.Amount(), divPrecision)
      ensures Term(x.Amount(), n) < epsilon.Amount() + Num(1, -divPrecision) / 2.0
      ensures epsilon.Amount() <= Num(1, -divPrecision) ==> Term(x.Amount(), n) <= Num(1, -divPrecision) / 2.0
    {
      hide Num, Add, Mul, DivRound, Cmp, IsRoundedSum, NoneBelow, EndsAt, MostTerms, Term, PartialSum, HalfUnits, Factorial;
      NumAbs(x.value, x.exp);
      ghost var t, p, bound, last := x.Amount(), -divPrecision, epsilon.Amount(), MostTerms(x.Amount(), divPrecision);
      TermsVanish(t, divPrecision, last);
      var pow := x;
      var factorial := Decimal(1, 0);
      result := Decimal(1, 0);
      RunningStart(x, p, bound);
      var i: nat := 1;
      while true
        invariant 1 <= i <= last && i <= |factorials|
        invariant Valid() && old(factorials) <= factorials
        invariant Running(result, pow, factorial, t, i, p, bound)
        decreases last - i
      {
        var step := DivRound(pow, factorial, divPrecision);
        TermAdded(result, pow, factorial, t, i, divPrecision, bound);
        CmpMeaning(step, epsilon);
        result := Add(result, step);
        if Cmp(step, epsilon) < 0 {
          break;
        }
        RunningNext(result, pow, factorial, x, i, p, bound);
        pow := Mul(pow, x);
        i := i + 1;
        factorial := Next(i);
      }
      n := i;
      RoundedSumClose(result.Amount(), t, n, divPrecision);
    }

    /** The first n rounded terms, n being where the loop has to end; from there on every approximation of the
        exponential is within the tolerance of the result. The tolerance grows with n, and n has a bound in the
        argument and the precision alone. */
    method ExpTaylor(d: Decimal, precision: int) returns (r: Decimal, ghost n: nat)
      requires Valid()
      modifies this
      ensures Valid() && old(factorials) <= factorials
      ensures r.exp == -precision
      ensures if d.value == 0 then n == 0 else
                EndsAt(AbsReal(d.Amount()), n, if precision < 0 then -8 else -precision - 1,
                       Num(1, if precision < 0 then -1 else -precision - 1))
      ensures n <= MostTerms(AbsReal(d.Amount()), DivPrecision(precision))
      ensures FromRoundedSum(r.Amount(), AbsReal(d.Amount()), n, d.value < 0, if precision < 0 then -8 else -precision - 1, -precision)
      ensures forall m: nat :: m >= n ==> Dist(r.Amount(), Approximation(d, m)) <= Tolerance(d, precision, n)
      ensures Tolerance(d, precision, n) <= Tolerance(d, precision, MostTerms(AbsReal(d.Amount()), DivPrecision(precision)))
    {
      hide Num, Approximation, Tolerance, Dist, Rounding.Round, DivRound, LeftOut, IsRoundedSum, FromTerms, EndsAt;
      hide MostTerms, Term, PartialSum, HalfUnits, DivPrecision, Epsilon, FromRoundedSum;
      Constants(precision);
      NumAbs(d.value, d.exp);
      if d.value == 0 {
        r := Rounding.Round(Decimal(1, 0), precision);
        n := 0;
        WholeNum(1);
        RoundedSumStart(AbsReal(d.Amount()), -DivPrecision(precision));
        RoundedResult(d, precision, n, Decimal(1, 0));
        ZeroAccuracy(d, r, precision);
        ToleranceGrows(d, precision, n, MostTerms(AbsReal(d.Amount()), DivPrecision(precision)));
        return;
      }
      var epsilon := Epsilon(precision);
      EpsilonLarge(precision);
      var result;
      result, n := Sum(Abs(d), epsilon, DivPrecision(precision));
      NumAbs(result.value, result.exp);
      ghost var sum := result;
      if d.value < 0 {
        result := DivRound(Decimal(1, 0), result, precision + 1);
      }
      r := Rounding.Round(result, precision);
      RoundedResult(d, precision, n, sum);
      AccurateResult(d, precision, n, sum);
      ToleranceGrows(d, precision, n, MostTerms(AbsReal(d.Amount()), DivPrecision(precision)));
    }
  }
}
