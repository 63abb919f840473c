/** The rounding modes of a decimal, each proved optimal among the multiples of 10^-places. */
module Rounding {
  import opened Powers
  import opened DigitSeq
  import opened ExactShift
  import opened FloatFormat
  import opened DigitWalk
  import opened FixedPoint

  /** Half away from zero, after truncating to one guard digit. */
  function Round(d: Decimal, places: int): Decimal {
    if d.exp == -places then d else
      var guarded := Rescale(d, -places - 1).value;
      Decimal(DropGuard(guarded), -places)
  }

  /** Adds or subtracts 5 and drops the last digit; the division is Euclidean. */
  function DropGuard(w: int): int {
    var shifted := if w < 0 then w - 5 else w + 5;
    var q, m := shifted / 10, shifted % 10;
    if q < 0 && m != 0 then q + 1 else q
  }

  function RoundBank(d: Decimal, places: int): Decimal {
    var round := Round(d, places);
    var remainder := Abs(Sub(d, round));
    if Cmp(remainder, Decimal(5, -places - 1)) == 0 && round.value % 2 != 0 then
      Decimal(if round.value < 0 then round.value + 1 else round.value - 1, round.exp)
    else round
  }

  function RoundCeil(d: Decimal, places: int): Decimal {
    if d.exp >= -places then d else
      var rescaled := Rescale(d, -places);
      if Cmp(d, rescaled) == 0 then d
      else if d.value > 0 then Decimal(rescaled.value + 1, rescaled.exp)
      else rescaled
  }

  function RoundFloor(d: Decimal, places: int): Decimal {
    if d.exp >= -places then d else
      var rescaled := Rescale(d, -places);
      if Cmp(d, rescaled) == 0 then d
      else if d.value < 0 then Decimal(rescaled.value - 1, rescaled.exp)
      else rescaled
  }

  function RoundUp(d: Decimal, places: int): Decimal {
    if d.exp >= -places then d else
      var rescaled := Rescale(d, -places);
      if Cmp(d, rescaled) == 0 then d
      else if d.value > 0 then Decimal(rescaled.value + 1, rescaled.exp)
      else if d.value < 0 then Decimal(rescaled.value - 1, rescaled.exp)
      else rescaled
  }

  function RoundDown(d: Decimal, places: int): Decimal {
    if d.exp >= -places then d else
      var rescaled := Rescale(d, -places);
      if Cmp(d, rescaled) == 0 then d else rescaled
  }

  function Floor(d: Decimal): Decimal {
    if d.exp >= 0 then d else Decimal(d.value / PowTenOf(-d.exp), 0)
  }

  function Ceil(d: Decimal): Decimal {
    if d.exp >= 0 then d else
      var p := PowTenOf(-d.exp);
      Decimal(d.value / p + (if d.value % p != 0 then 1 else 0), 0)
  }

  // ---- counting in units of 10^e

  lemma UnitsDist(a: int, b: int, e: int)
    ensures Dist(Num(a, e), Num(b, e)) == Num(AbsInt(a - b), e)
  {
    hide Num;
    NumDiff(a, b, e);
    NumAbs(a - b, e);
  }

  /** n * 10^(e+k) against v * 10^e, for an error of at most half a unit. */
  ghost predicate HalfUnit(v: int, n: int, p: int) {
    && 2 * AbsInt(v - n * p) <= p
    && (2 * AbsInt(v - n * p) == p ==> (v > 0 && n * p > v) || (v < 0 && n * p < v))
  }

  ghost predicate HalfAway(x: real, r: real, u: real) {
    && 2.0 * Dist(x, r) <= u
    && (2.0 * Dist(x, r) == u ==> (x > 0.0 && r > x) || (x < 0.0 && r < x))
  }

  lemma HalfUnitAmount(v: int, n: int, e: int, k: nat)
    requires HalfUnit(v, n, Pow(10, k))
    ensures HalfAway(Num(v, e), Num(n, e + k), Num(1, e + k))
  {
    hide Num, Pow;
    var p := Pow(10, k);
    MoveTen(n, k, e);
    MoveTen(1, k, e);
    UnitsDist(v, n * p, e);
    var c := AbsInt(v - n * p);
    NumTimesInt(c, 2, e);
    NumLess(p, c * 2, e);
    NumLess(v, n * p, e);
    NumLess(n * p, v, e);
    NumAbs(v, e);
  }

  lemma HalfAwayNearest(n: int, x: real, p: int)
    requires HalfAway(x, Num(n, p), Num(1, p))
    ensures NearestAway(Num(n, p), x, p)
  {
    NearestAwayBy(n, x, p);
  }

  /** One guard digit is enough: the dropped digits cannot reach the half unit. */
  lemma GuardDigit(v: int, q: nat, w: int, r: int)
    requires q > 0 && v == q * w + r && AbsInt(r) < q && (r != 0 ==> Sign(r) == Sign(v))
    ensures HalfUnit(v, DropGuard(w), 10 * q)
  {
    var n := DropGuard(w);
    GuardSign(v, q, w, r);
    DropGuardBounds(w);
    var z := w - 10 * n;
    assert v - n * (10 * q) == q * z + r by {
      Regroup(q, w, n, z);
    }
    ZBound(q, z, r, if w > 0 || (w == 0 && v >= 0) then 1 else -1);
    if w == 0 {
      assert n == 0;
    }
  }

  lemma Regroup(q: int, w: int, n: int, z: int)
    requires z == w - 10 * n
    ensures q * w - n * (10 * q) == q * z
  {
  }

  lemma GuardSign(v: int, q: nat, w: int, r: int)
    requires q > 0 && v == q * w + r && AbsInt(r) < q && (r != 0 ==> Sign(r) == Sign(v))
    ensures w > 0 ==> v > 0 && r >= 0
    ensures w < 0 ==> v < 0 && r <= 0
  {
    if w > 0 {
      MulLe(1, w, q);
    } else if w < 0 {
      MulLe(w, -1, q);
    }
  }

  lemma DropGuardBounds(w: int)
    ensures var z := w - 10 * DropGuard(w);
            if w > 0 then -5 <= z <= 4 else if w < 0 then -4 <= z <= 5 else z == 0
  {
  }

  lemma ZBound(q: nat, z: int, r: int, side: int)
    requires q > 0 && AbsInt(r) < q
    requires side == 1 ==> -5 <= z <= 4 && r >= 0
    requires side == -1 ==> -4 <= z <= 5 && r <= 0
    requires side == 1 || side == -1
    ensures -5 * q <= q * z + r <= 5 * q
    ensures q * z + r == 5 * q ==> side == -1
    ensures q * z + r == -5 * q ==> side == 1
  {
    if side == 1 {
      MulLe(-5, z, q);
      MulLe(z, 4, q);
    } else {
      MulLe(-4, z, q);
      MulLe(z, 5, q);
    }
  }

  /** Round stays within half a unit, and lands on a half only away from zero. */
  lemma RoundHalf(d: Decimal, places: int)
    ensures Round(d, places).exp == -places
    ensures HalfAway(d.Amount(), Round(d, places).Amount(), Num(1, -places))
  {
    hide Num, Rescale, DropGuard, HalfAway;
    var p := -places;
    if d.exp == p {
      SelfHalf(d.value, p);
    } else if d.exp > p {
      RescaleExact(d, p - 1);
      hide Pow;
      var w := Rescale(d, p - 1).value;
      RescaledUp(d, p);
      SelfHalf(DropGuard(w), p);
    } else {
      var k := p - d.exp;
      RescaledGuard(d, p);
      HalfUnitAmount(d.value, DropGuard(Rescale(d, p - 1).value), d.exp, k);
    }
  }

  lemma SelfHalf(v: int, p: int)
    ensures HalfAway(Num(v, p), Num(v, p), Num(1, p))
  {
    hide Num;
    NumAbs(1, p);
  }

  /** Rounding to a finer place is exact. */
  lemma RescaledUp(d: Decimal, p: int)
    requires d.exp > p
    ensures Num(DropGuard(Rescale(d, p - 1).value), p) == d.Amount()
  {
    hide Num;
    var k := d.exp - p;
    assert Pow(10, k + 1) == 10 * Pow(10, k);
    var n := d.value * Pow(10, k);
    assert Rescale(d, p - 1).value == 10 * n by {
      MulStep(d.value, Pow(10, k));
    }
    assert DropGuard(10 * n) == n;
    MoveTen(d.value, k, p);
  }

  lemma RescaledGuard(d: Decimal, p: int)
    requires d.exp < p
    ensures HalfUnit(d.value, DropGuard(Rescale(d, p - 1).value), Pow(10, p - d.exp))
  {
    hide DropGuard, HalfUnit;
    var k := p - 1 - d.exp;
    var q := PowTenOf(k);
    assert Pow(10, k + 1) == 10 * q;
    hide Pow;
    if k == 0 {
      GuardDigit(d.value, 1, d.value, 0);
      PowZero(10);
    } else {
      QuoRemInt(d.value, q);
      GuardDigit(d.value, q, Quo(d.value, q), Rem(d.value, q));
    }
  }

  /** Round is the nearest multiple of 10^-places, ties away from zero. */
  lemma RoundNearest(d: Decimal, places: int)
    ensures NearestAway(Round(d, places).Amount(), d.Amount(), -places)
  {
    hide Num, Round, HalfAway, NearestAway;
    RoundHalf(d, places);
    HalfAwayNearest(Round(d, places).value, d.Amount(), -places);
  }

  /** RoundBank is the nearest multiple of 10^-places, ties to the even coefficient. */
  lemma RoundBankNearest(d: Decimal, places: int)
    ensures NearestEven(RoundBank(d, places).Amount(), d.Amount(), -places)
    ensures RoundBank(d, places).exp == -places
  {
    hide Num, Round, NearestEven, Cmp, Sub;
    var p, x, r := -places, d.Amount(), Round(d, places);
    var u := Num(1, p);
    RoundHalf(d, places);
    var rem, half := Abs(Sub(d, r)), Decimal(5, p - 1);
    CmpMeaning(rem, half);
    AddExact(d, r);
    NumAbs(Sub(d, r).value, Sub(d, r).exp);
    HalfOfUnit(p);
    NumAbs(r.value, p);
    NumAbs(1, p);
    assert Cmp(rem, half) == 0 <==> 2.0 * Dist(x, r.Amount()) == u;
    if Cmp(rem, half) == 0 && r.value % 2 != 0 {
      UnitApart(r.value + 1, r.value, p);
      UnitApart(r.value - 1, r.value, p);
      NumDiff(r.value + 1, r.value, p);
      NumDiff(r.value, r.value - 1, p);
      TieSide(d, r.value, p);
      NearestEvenBy(RoundBank(d, places).value, x, p);
    } else {
      NearestEvenBy(r.value, x, p);
    }
  }

  /** A tie rounded away from zero has the sign of the number. */
  lemma TieSide(d: Decimal, n: int, p: int)
    requires (d.Amount() > 0.0 && Num(n, p) > d.Amount()) || (d.Amount() < 0.0 && Num(n, p) < d.Amount())
    ensures n < 0 <==> d.Amount() < 0.0
  {
    hide Num;
    NumAbs(n, p);
  }

  lemma HalfOfUnit(p: int)
    ensures 2.0 * Num(5, p - 1) == Num(1, p)
  {
    hide Num;
    PowTen();
    MoveTen(1, 1, p - 1);
    NumTimesInt(5, 2, p - 1);
  }

  // ---- directed modes

  /** The truncated coefficient lies within one unit, towards zero. */
  lemma Truncated(d: Decimal, p: int)
    requires d.exp < p
    ensures var r := Rescale(d, p);
            && r.exp == p
            && (Cmp(d, r) == 0 <==> d.Amount() == r.Amount())
            && (d.value > 0 ==> r.Amount() <= d.Amount() < r.Amount() + Num(1, p))
            && (d.value < 0 ==> r.Amount() - Num(1, p) < d.Amount() <= r.Amount())
            && (d.value == 0 ==> d.Amount() == r.Amount())
  {
    hide Num, Cmp, Quo, Rem;
    var k := p - d.exp;
    var t := PowTenOf(k);
    hide Pow;
    var r := Rescale(d, p);
    CmpMeaning(d, r);
    QuoRemInt(d.value, t);
    TruncatedInt(d.value, t, r.value, Rem(d.value, t));
    MoveTen(r.value, k, d.exp);
    MoveTen(1, k, d.exp);
    NumDiff(r.value * t + t, t, d.exp);
    NumDiff(r.value * t, t, d.exp);
    NumLess(r.value * t, d.value, d.exp);
    NumLess(d.value, r.value * t, d.exp);
    NumLess(d.value, r.value * t + t, d.exp);
    NumLess(r.value * t - t, d.value, d.exp);
  }

  lemma TruncatedInt(v: int, t: nat, q: int, r: int)
    requires t > 0 && Divides(v, t, q, r)
    ensures v > 0 ==> q * t <= v < q * t + t
    ensures v < 0 ==> q * t - t < v <= q * t
    ensures v == 0 ==> q * t == v
  {
    CommuteInt(q, t);
  }

  /** A number that already ends at 10^p is its own rounding in every direction. */
  lemma AlreadyRound(d: Decimal, p: int)
    requires d.exp >= p
    ensures LeastAbove(d.Amount(), d.Amount(), p) && GreatestBelow(d.Amount(), d.Amount(), p)
  {
    hide Num, Pow;
    MoveTen(d.value, d.exp - p, p);
    SelfDirected(d.value * Pow(10, d.exp - p), p);
  }

  lemma SelfDirected(n: int, p: int)
    ensures LeastAbove(Num(n, p), Num(n, p), p) && GreatestBelow(Num(n, p), Num(n, p), p)
  {
    hide Num;
    NumAbs(1, p);
    LeastAboveBy(n, Num(n, p), p);
    GreatestBelowBy(n, Num(n, p), p);
  }

  /** Between a truncated coefficient and the next one away from zero. */
  lemma Directed(n: int, x: real, p: int)
    ensures Num(n, p) < x <= Num(n + 1, p) ==> LeastAbove(Num(n + 1, p), x, p)
    ensures Num(n, p) <= x < Num(n + 1, p) ==> GreatestBelow(Num(n, p), x, p)
  {
    hide Num, LeastAbove, GreatestBelow;
    NumDiff(n + 1, n, p);
    if Num(n, p) < x <= Num(n + 1, p) {
      LeastAboveBy(n + 1, x, p);
    }
    if Num(n, p) <= x < Num(n + 1, p) {
      GreatestBelowBy(n, x, p);
    }
  }

  /** Each directed mode gives the tightest bound on its side. */
  lemma DirectedOptimal(d: Decimal, places: int)
    ensures LeastAbove(RoundCeil(d, places).Amount(), d.Amount(), -places)
    ensures GreatestBelow(RoundFloor(d, places).Amount(), d.Amount(), -places)
    ensures d.Amount() >= 0.0 ==> LeastAbove(RoundUp(d, places).Amount(), d.Amount(), -places)
    ensures d.Amount() <= 0.0 ==> GreatestBelow(RoundUp(d, places).Amount(), d.Amount(), -places)
    ensures d.Amount() >= 0.0 ==> GreatestBelow(RoundDown(d, places).Amount(), d.Amount(), -places)
    ensures d.Amount() <= 0.0 ==> LeastAbove(RoundDown(d, places).Amount(), d.Amount(), -places)
  {
    hide Num, LeastAbove, GreatestBelow, Rescale, Cmp;
    var p := -places;
    NumAbs(d.value, d.exp);
    if d.exp >= p {
      AlreadyRound(d, p);
    } else {
      Truncated(d, p);
      var r := Rescale(d, p);
      if Cmp(d, r) == 0 {
        SelfDirected(r.value, p);
      } else {
        NumDiff(r.value + 1, r.value, p);
        NumDiff(r.value, r.value - 1, p);
        Directed(r.value, d.Amount(), p);
        Directed(r.value - 1, d.Amount(), p);
      }
    }
  }

  /** Rounding twice changes nothing, in every mode. */
  lemma Idempotent(d: Decimal, places: int)
    ensures Round(Round(d, places), places) == Round(d, places)
    ensures RoundBank(RoundBank(d, places), places) == RoundBank(d, places)
    ensures RoundCeil(RoundCeil(d, places), places) == RoundCeil(d, places)
    ensures RoundFloor(RoundFloor(d, places), places) == RoundFloor(d, places)
    ensures RoundUp(RoundUp(d, places), places) == RoundUp(d, places)
    ensures RoundDown(RoundDown(d, places), places) == RoundDown(d, places)
  {
    BankTwice(d, places);
  }

  lemma BankTwice(d: Decimal, places: int)
    ensures RoundBank(RoundBank(d, places), places) == RoundBank(d, places)
  {
    hide Num, Cmp, Sub;
    var b := RoundBank(d, places);
    RoundBankNearest(d, places);
    var rem, half := Abs(Sub(b, b)), Decimal(5, -places - 1);
    CmpMeaning(rem, half);
    AddExact(b, b);
    NumAbs(Sub(b, b).value, Sub(b, b).exp);
    NumAbs(5, -places - 1);
  }

  /** Floor and Ceil are the integers next to the number. */
  lemma FloorCeilOptimal(d: Decimal)
    ensures GreatestBelow(Floor(d).Amount(), d.Amount(), 0)
    ensures LeastAbove(Ceil(d).Amount(), d.Amount(), 0)
  {
    hide Num, LeastAbove, GreatestBelow;
    if d.exp >= 0 {
      AlreadyRound(d, 0);
    } else {
      var p := PowTenOf(-d.exp);
      hide Pow;
      FloorInt(d.value, p);
      var f, c := Floor(d).value, Ceil(d).value;
      MoveTen(f, -d.exp, d.exp);
      MoveTen(f + 1, -d.exp, d.exp);
      NumLess(d.value, f * p, d.exp);
      NumLess(f * p, d.value, d.exp);
      NumLess(d.value, (f + 1) * p, d.exp);
      Directed(f, d.Amount(), 0);
      if c == f {
        SelfDirected(f, 0);
      }
    }
  }

  lemma FloorInt(v: int, p: nat)
    requires p > 0
    ensures (v / p) * p <= v < (v / p + 1) * p
    ensures v % p == 0 <==> v == (v / p) * p
  {
    var q, m := v / p, v % p;
    assert v == p * q + m;
    CommuteInt(p, q);
    TimesNext(q, p);
  }
}
