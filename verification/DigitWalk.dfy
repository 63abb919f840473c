/** Prefixes of a decimal number at a common decimal position, and what they say about an interval. */
module DigitWalk {
  import opened Powers
  import opened DigitSeq
  import opened DigitView
  import opened ShiftMath
  import opened ExactShift

  /** The number of units of 10^p in v, rounded down. */
  ghost function UnitsOf(v: View, p: int): nat {
    if v.dp - p <= 0 then 0 else Padded(v.digits, v.dp - p)
  }

  /** The digit of v worth 10^p. */
  function DigitAt(v: View, p: int): Digit {
    var i := v.dp - p - 1;
    if 0 <= i < |v.digits| then v.digits[i] else 0
  }

  lemma UnitsStep(v: View, p: int)
    ensures UnitsOf(v, p) == 10 * UnitsOf(v, p + 1) + DigitAt(v, p)
  {
    var i := v.dp - p - 1;
    if i >= 0 {
      PaddedStep(v.digits, i);
      if i == 0 {
        PaddedNone(v.digits);
      }
    }
  }

  /** v lies between its units and the next one; it is a whole number of units once its digits end. */
  lemma UnitsBound(v: View, p: int)
    requires v.Normal() && v.digits != []
    ensures Num(UnitsOf(v, p), p) <= v.Value() < Num(UnitsOf(v, p) + 1, p)
    ensures Num(UnitsOf(v, p), p) == v.Value() <==> v.dp - p >= |v.digits|
  {
    hide Val, Num, Pow;
    var s, j, n := v.digits, v.dp - p, |v.digits|;
    ValBound(s);
    if j >= n {
      MoveTen(Val(s), j - n, p);
      assert s[..n] == s;
      NothingPadded(s);
      NumLess(UnitsOf(v, p), UnitsOf(v, p) + 1, p);
    } else {
      ValLower(s);
      PowPositive(10, n - 1);
      var q := v.dp - n;
      if j <= 0 {
        PowMonotone(10, n, n - j);
        MoveTen(1, n - j, q);
        NumLess(Val(s), Pow(10, n - j), q);
        NumLess(0, Val(s), q);
        NumZero(p);
        NumZero(q);
      } else {
        ValSplit(s, j);
        var t := s[j..];
        ValBound(t);
        ValZeros(t);
        assert t[|t| - 1] != 0;
        MoveTen(Val(s[..j]), n - j, q);
        MoveTen(Val(s[..j]) + 1, n - j, q);
        TimesNext(Val(s[..j]), Pow(10, n - j));
        NumLess(Val(s[..j]) * Pow(10, n - j), Val(s), q);
        NumLess(Val(s), (Val(s[..j]) + 1) * Pow(10, n - j), q);
      }
    }
  }

  lemma NothingPadded(s: seq<Digit>)
    ensures Padded(s, |s|) == Val(s)
    ensures s == [] ==> forall j: nat :: Padded(s, j) == 0
  {
    assert s[..|s|] == s;
  }

  lemma NumLess(a: int, b: int, e: int)
    ensures a < b <==> Num(a, e) < Num(b, e)
    ensures a == b <==> Num(a, e) == Num(b, e)
  {
    hide Scale;
    ScaledOrder(a as real, b as real, Scale(10, e));
  }

  lemma NumDiff(a: int, b: int, e: int)
    ensures Num(a, e) - Num(b, e) == Num(a - b, e)
  {
    hide Scale;
    Spread(a as real, b as real, Scale(10, e));
  }

  lemma ScaledOrder(a: real, b: real, s: real)
    requires s > 0.0
    ensures a < b <==> a * s < b * s
    ensures a == b <==> a * s == b * s
  {
    if a < b {
      PositiveProduct(b - a, s);
    } else if b < a {
      PositiveProduct(a - b, s);
    }
  }

  /** A larger number has at least as many units. */
  lemma UnitsMonotone(v: View, w: View, p: int)
    requires v.Normal() && v.digits != [] && w.Normal() && w.digits != [] && v.Value() <= w.Value()
    ensures UnitsOf(v, p) <= UnitsOf(w, p)
  {
    hide Num, UnitsOf;
    UnitsBound(v, p);
    UnitsBound(w, p);
    NumLess(UnitsOf(v, p), UnitsOf(w, p) + 1, p);
  }

  /** An interval given by its ends, which belong to it when it is closed. */
  datatype Interval = Interval(lo: real, hi: real, closed: bool) {
    ghost predicate Has(x: real) {
      lo < x < hi || (closed && lo <= x <= hi)
    }
  }

  /** No multiple of 10^p lies in the interval. */
  ghost predicate NoMultiple(i: Interval, p: int) {
    forall a: nat :: !i.Has(Num(a, p))
  }

  /** The units around a member decide about all multiples. */
  lemma NoMultipleBy(i: Interval, x: real, d: nat, p: int)
    requires i.Has(x) && Num(d, p) <= x < Num(d + 1, p)
    requires !i.Has(Num(d, p)) && !i.Has(Num(d + 1, p))
    ensures NoMultiple(i, p)
  {
    hide Num;
    forall a: nat ensures !i.Has(Num(a, p)) {
      NumLess(a, d, p);
      NumLess(a, d + 1, p);
    }
  }

  /** A member that is a multiple of 10^p, where no member is a multiple of 10^(p+1), has the
      fewest digits of all members. */
  lemma FewestDigits(i: Interval, v: View, c: nat, p: int)
    requires i.lo > 0.0 && v.Normal() && v.digits != [] && i.Has(v.Value())
    requires v.Value() == Num(c, p) && NoMultiple(i, p + 1)
    ensures v.dp - |v.digits| == p
    ensures forall x: real, n: nat :: i.Has(x) && HasDigits(x, n) ==> |v.digits| <= n
  {
    hide Num, Pow;
    LastPlace(i, v, c, p);
    forall x: real, n: nat | i.Has(x) && HasDigits(x, n) ensures |v.digits| <= n {
      var a: nat, e: int :| a < Pow(10, n) && x == Num(a, e);
      if n < |v.digits| {
        ShorterIsOutside(i, v, p, a, e, n);
      }
    }
  }

  lemma LastPlace(i: Interval, v: View, c: nat, p: int)
    requires v.Normal() && v.digits != [] && i.Has(v.Value())
    requires v.Value() == Num(c, p) && NoMultiple(i, p + 1)
    ensures v.dp - |v.digits| == p
  {
    hide Num, Val;
    var q := v.dp - |v.digits|;
    if q > p {
      MoveTen(Val(v.digits), q - (p + 1), p + 1);
      assert false;
    } else if q < p {
      SameNumber(Val(v.digits), q, c, p);
      TenDivides(p - q, c);
      LastDigit(v.digits);
      assert false;
    }
  }

  /** A number with fewer digits is either a multiple of 10^(p+1), or has one between itself and v. */
  lemma ShorterIsOutside(i: Interval, v: View, p: int, a: nat, e: int, n: nat)
    requires i.lo > 0.0 && v.Normal() && v.digits != [] && i.Has(v.Value()) && v.dp - |v.digits| == p
    requires NoMultiple(i, p + 1) && a < Pow(10, n) && n < |v.digits|
    ensures !i.Has(Num(a, e))
  {
    hide Num, Val, Pow;
    var m := |v.digits|;
    if a == 0 {
      NumZero(e);
    } else if e > p {
      MoveTen(a, e - (p + 1), p + 1);
    } else {
      NoDigitsNothing(a, n);
      ValLower(v.digits);
      NumLess(Pow(10, m - 1), Val(v.digits), p);
      NumLess(a, Pow(10, n), e);
      MoveTen(1, n, e);
      MoveTen(1, m - 1 - n + p - e, n + e);
      PowPositive(10, m - 1 - n + p - e);
      NumLess(1, Pow(10, m - 1 - n + p - e), n + e);
      MoveTen(1, m - 1, p);
      MoveTen(1, m - 2, p + 1);
      assert Num(a, e) < Num(Pow(10, m - 2), p + 1) <= v.Value();
    }
  }

  lemma NoDigitsNothing(a: nat, n: nat)
    requires 0 < a < Pow(10, n)
    ensures n > 0
  {
  }
}
