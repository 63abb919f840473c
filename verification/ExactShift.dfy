/** When a shifted digit buffer holds the exact value: whenever that value fits 800 digits. */
module ExactShift {
  import opened Powers
  import opened DigitSeq
  import opened DigitView

  /** x can be written with at most n decimal digits. */
  ghost predicate HasDigits(x: real, n: nat) {
    exists c: nat, e: int :: c < Pow(10, n) && x == Num(c, e)
  }

  ghost predicate Fits(x: real) {
    HasDigits(x, MAX_DIGITS)
  }

  lemma FitsBy(x: real, n: nat, c: nat, e: int)
    requires c < Pow(10, n) && x == Num(c, e)
    ensures HasDigits(x, n)
  {
  }

  /** Comparing two decimal forms of one number. */
  lemma SameNumber(a: int, m: int, c: int, x: int)
    requires Num(a, m) == Num(c, x) && m <= x
    ensures a == c * Pow(10, x - m)
  {
    hide Scale;
    ScaleAdd(10, m, x - m);
    ScaleNat(10, x - m);
    CancelReal(Scale(10, m), a as real, c as real, Pow(10, x - m) as real);
    ProductReal(c, Pow(10, x - m));
  }

  lemma CancelReal(s: real, a: real, c: real, p: real)
    requires s > 0.0 && a * s == c * (s * p)
    ensures a == c * p
  {
    assert (a - c * p) * s == 0.0;
  }

  /** Moving a power of ten between coefficient and exponent. */
  lemma MoveTen(a: int, j: nat, m: int)
    ensures Num(a * Pow(10, j), m) == Num(a, m + j)
  {
    hide Scale;
    ScaleAdd(10, m, j);
    ScaleNat(10, j);
    ProductReal(a, Pow(10, j));
    ThreeReals(a as real, Pow(10, j) as real, Scale(10, m));
  }

  lemma StripValue(s: seq<Digit>, dp: int)
    ensures Num(Val(s), dp - |s|) == Num(Val(Strip(s)), dp - |Strip(s)|)
  {
    var t := Strip(s);
    hide Val, Strip, Num;
    ValSplit(s, |t|);
    ValZeros(s[|t|..]);
    assert s[..|t|] == t;
    MoveTen(Val(t), |s| - |t|, dp - |s|);
  }

  /** The value of what is kept, before and after the trailing zeros go. */
  lemma CutKeeps(e: seq<Digit>, dp: int, trunc: bool)
    ensures Cut(e, dp, trunc).Value() == Num(Val(Keep(e)), dp - |Keep(e)|)
  {
    hide Val, Strip, Keep, Lost;
    StripValue(Keep(e), dp);
    var t := Strip(Keep(e));
    if t == [] {
      NothingIsZero(dp);
      NothingIsZero(0);
    }
  }

  lemma CutTrunc(e: seq<Digit>, dp: int, trunc: bool)
    ensures Cut(e, dp, trunc).trunc == (trunc || !AllZero(Lost(e)))
  {
  }

  lemma NothingIsZero(m: int)
    ensures Num(Val([]), m) == 0.0
  {
  }

  /** An exact result that fits loses nothing when it is cut. */
  lemma CutExact(e: seq<Digit>, dp: int, trunc: bool)
    requires e != [] ==> e[0] != 0
    requires Fits(Num(Val(e), dp - |e|))
    ensures Cut(e, dp, trunc).Value() == Num(Val(e), dp - |e|)
    ensures Cut(e, dp, trunc).trunc == trunc
  {
    hide Pow, Val, Num, Strip, Cut;
    CutKeeps(e, dp, trunc);
    CutTrunc(e, dp, trunc);
    if |e| > MAX_DIGITS {
      var c: nat, x: int :| c < Pow(10, MAX_DIGITS) && Num(Val(e), dp - |e|) == Num(c, x);
      LongCoefficient(e, dp - |e|, c, x);
      ValSplit(e, MAX_DIGITS);
      ValZeros(e[MAX_DIGITS..]);
      MoveTen(Val(e[..MAX_DIGITS]), |e| - MAX_DIGITS, dp - |e|);
    }
  }

  /** More than 800 digits can only fit if the surplus digits are zeros. */
  lemma LongCoefficient(e: seq<Digit>, m: int, c: nat, x: int)
    requires |e| > MAX_DIGITS && e[0] != 0
    requires c < Pow(10, MAX_DIGITS) && Num(Val(e), m) == Num(c, x)
    ensures Val(e[MAX_DIGITS..]) == 0
  {
    hide Val, Pow, Num;
    var t := |e| - MAX_DIGITS;
    ValLower(e);
    PowMonotone(10, MAX_DIGITS, |e| - 1);
    if x < m {
      SameNumber(c, x, Val(e), m);
      PowPositive(10, m - x);
      MulGrows(Pow(10, m - x), Val(e));
      assert false;
    } else {
      SameNumber(Val(e), m, c, x);
      if x - m < t {
        PowPositive(10, x - m);
        MulLess(c, Pow(10, MAX_DIGITS), Pow(10, x - m));
        PowAdd(10, MAX_DIGITS, x - m);
        PowMonotone(10, MAX_DIGITS + (x - m), |e| - 1);
        assert false;
      } else {
        PowAdd(10, t, x - m - t);
        ValSplit(e, MAX_DIGITS);
        ValBound(e[MAX_DIGITS..]);
        Remainder(Val(e[..MAX_DIGITS]), Pow(10, t), Val(e[MAX_DIGITS..]), c, Pow(10, x - m - t));
      }
    }
  }

  lemma Remainder(a: nat, p: nat, b: nat, c: nat, q: nat)
    requires b < p && a * p + b == c * (p * q)
    ensures b == 0
  {
    assert p * (c * q - a) == b by {
      calc {
        p * (c * q - a);
        p * (c * q) - p * a;
        c * (p * q) - a * p;
      }
    }
    SmallMultiple(p, c * q - a);
  }

  /** Between a number that fits and its product with 2^k, every product with 2^j fits. */
  lemma {:induction false} FitsBetween(c: nat, e: int, j: nat, k: nat)
    requires 0 < c < Pow(10, MAX_DIGITS) && j <= k
    requires Fits(Num(c * Pow(2, k), e))
    ensures Fits(Num(c * Pow(2, j), e))
    decreases j
  {
    hide Num, Pow;
    if j == 0 {
      TimesOne(c);
      FitsBy(Num(c * Pow(2, j), e), MAX_DIGITS, c, e);
    } else if c % 5 == 0 {
      FiveToTen(c, e, j);
      FiveToTen(c, e, k);
      FitsBetween(c / 5, e + 1, j - 1, k - 1);
    } else {
      var c1: nat, e1: int :| c1 < Pow(10, MAX_DIGITS) && Num(c * Pow(2, k), e) == Num(c1, e1);
      LeastCoefficient(c, k, e, c1, e1);
      PowMonotone(2, j, k);
      MulLe(Pow(2, j), Pow(2, k), c);
      FitsBy(Num(c * Pow(2, j), e), MAX_DIGITS, c * Pow(2, j), e);
    }
  }

  lemma TimesOne(c: nat)
    ensures c * Pow(2, 0) == c
  {
  }

  lemma FiveToTen(c: nat, e: int, j: nat)
    requires j > 0 && c % 5 == 0
    ensures Num(c * Pow(2, j), e) == Num((c / 5) * Pow(2, j - 1), e + 1)
  {
    hide Num;
    var q, p := c / 5, Pow(2, j - 1);
    assert Pow(2, j) == 2 * p;
    assert c * (2 * p) == (q * p) * 10 by {
      assert c == 5 * q;
      TenFold(q, p);
    }
    PowTen();
    MoveTen(q * p, 1, e);
  }

  lemma TenFold(q: nat, p: nat)
    ensures (5 * q) * (2 * p) == (q * p) * 10
  {
  }

  lemma PowTen()
    ensures Pow(10, 1) == 10
  {
  }

  /** Without a factor of five, the coefficient cannot be shortened. */
  lemma LeastCoefficient(c: nat, k: nat, e: int, c1: nat, e1: int)
    requires c % 5 != 0 && Num(c * Pow(2, k), e) == Num(c1, e1)
    ensures c * Pow(2, k) <= c1
  {
    hide Num;
    var a := c * Pow(2, k);
    if e1 <= e {
      SameNumber(c1, e1, a, e);
      PowPositive(10, e - e1);
      hide Pow;
      MulGrows(Pow(10, e - e1), a);
    } else {
      SameNumber(a, e, c1, e1);
      NoFive(c, k);
      FiveDivides(c1, e1 - e);
      assert false;
    }
  }

  lemma NoFive(c: nat, k: nat)
    requires c % 5 != 0
    ensures (c * Pow(2, k)) % 5 != 0
  {
    if k > 0 {
      NoFive(c, k - 1);
      var p := Pow(2, k - 1);
      assert Pow(2, k) == 2 * p;
      hide Pow;
      TwiceNoFive(c, p);
    }
  }

  lemma TwiceNoFive(c: nat, p: nat)
    requires (c * p) % 5 != 0
    ensures (c * (2 * p)) % 5 != 0
  {
    var a := c * p;
    assert c * (2 * p) == 2 * a;
    assert (2 * a) % 5 != 0;
  }

  lemma FiveDivides(c: nat, j: nat)
    requires j > 0
    ensures (c * Pow(10, j)) % 5 == 0
  {
    var a := c * Pow(10, j - 1);
    assert c * Pow(10, j) == 5 * (2 * a);
  }

  /** x * 2^k */
  ghost function MulPow2(x: real, k: int): real {
    x * Scale(2, k)
  }

  lemma MulPow2Add(x: real, j: int, k: int)
    ensures MulPow2(MulPow2(x, j), k) == MulPow2(x, j + k)
  {
    hide Scale;
    ScaleAdd(2, j, k);
    ThreeReals(x, Scale(2, j), Scale(2, k));
  }

  lemma MulPow2Zero(x: real)
    ensures MulPow2(x, 0) == x
  {
    hide Scale;
    ScaleZero(2);
  }

  lemma MulPow2Up(c: nat, k: nat, e: int)
    ensures MulPow2(Num(c, e), k) == Num(c * Pow(2, k), e)
  {
    hide Scale, Pow;
    ScaleNat(2, k);
    ProductReal(c, Pow(2, k));
    SwapReal(c as real, Pow(2, k) as real, Scale(10, e));
  }

  lemma SwapReal(a: real, p: real, s: real)
    ensures (a * p) * s == (a * s) * p
  {
  }

  /** Dividing by 2^k is multiplying by 5^k and moving the point. */
  lemma MulPow2Down(c: nat, k: nat, e: int)
    ensures MulPow2(Num(c, e), 0 - k) == Num(c * Pow(5, k), e - k)
  {
    hide Num, MulPow2;
    PowMul(2, 5, k);
    var x := Num(c * Pow(5, k), e - k);
    MulPow2Up(c * Pow(5, k), k, e - k);
    SwapNat(c, Pow(5, k), Pow(2, k));
    MoveTen(c, k, e - k);
    assert MulPow2(x, k) == Num(c, e);
    MulPow2Add(x, k, 0 - k);
    MulPow2Zero(x);
  }

  lemma SwapNat(c: nat, five: nat, two: nat)
    ensures (c * five) * two == c * (two * five)
  {
  }

  /** A left shift is exact when its value fits. */
  lemma ShlExact(v: View, k: nat)
    requires v.Normal() && Fits(MulPow2(v.Value(), k))
    ensures Shl(v, k).Value() == MulPow2(v.Value(), k) && Shl(v, k).trunc == v.trunc
  {
    hide Num, Pow, Cut, Fits, Digits, Val, MulPow2;
    MulPow2Up(Val(v.digits), k, v.dp - |v.digits|);
    var e := Digits(Val(v.digits) * Pow(2, k));
    CutExact(e, v.dp + |e| - |v.digits|, v.trunc);
  }

  /** A right shift is exact when its value fits. */
  lemma ShrExact(v: View, k: nat)
    requires v.Normal() && Fits(MulPow2(v.Value(), 0 - k))
    ensures Shr(v, k).Value() == MulPow2(v.Value(), 0 - k) && Shr(v, k).trunc == v.trunc
  {
    hide Num, Pow, Cut, Fits, Digits, Val, MulPow2;
    MulPow2Down(Val(v.digits), k, v.dp - |v.digits|);
    var e := Digits(Val(v.digits) * Pow(5, k));
    CutExact(e, v.dp + |e| - |v.digits| - k, v.trunc);
  }

  /** Shifting by any k is exact when the value fits, although it goes through other values. */
  lemma {:induction false} ShiftExact(v: View, k: int)
    requires v.Normal() && Fits(MulPow2(v.Value(), k))
    ensures Shifted(v, k).Value() == MulPow2(v.Value(), k) && Shifted(v, k).trunc == v.trunc
    decreases if k >= 0 then k else -k
  {
    hide Num, Pow, Fits, Val, Shl, Shr, MulPow2;
    if v.digits == [] {
      ZeroStays(v.dp, k);
    } else if k == 0 {
      MulPow2Zero(v.Value());
    } else if k > MAX_SHIFT {
      StepUpFits(v, k);
      ShlExact(v, MAX_SHIFT);
      ShlNonzero(v, MAX_SHIFT);
      MulPow2Add(v.Value(), MAX_SHIFT, k - MAX_SHIFT);
      ShiftExact(Shl(v, MAX_SHIFT), k - MAX_SHIFT);
    } else if k > 0 {
      ShlExact(v, k);
    } else if k < -MAX_SHIFT {
      StepDownFits(v, k);
      ShrExact(v, MAX_SHIFT);
      ShrNonzero(v, MAX_SHIFT);
      MulPow2Add(v.Value(), -MAX_SHIFT, k + MAX_SHIFT);
      ShiftExact(Shr(v, MAX_SHIFT), k + MAX_SHIFT);
    } else {
      ShrExact(v, -k);
    }
  }

  lemma ZeroStays(m: int, k: int)
    ensures MulPow2(Num(Val([]), m), k) == Num(Val([]), m)
  {
    hide Scale;
    NothingIsZero(m);
  }

  lemma NormalCoefficient(v: View)
    requires v.Normal() && v.digits != []
    ensures 0 < Val(v.digits) < Pow(10, MAX_DIGITS)
  {
    hide Pow, Val;
    ValLower(v.digits);
    PowPositive(10, |v.digits| - 1);
    ValBound(v.digits);
    PowMonotone(10, |v.digits|, MAX_DIGITS);
  }

  lemma StepUpFits(v: View, k: int)
    requires v.Normal() && v.digits != [] && k > MAX_SHIFT && Fits(MulPow2(v.Value(), k))
    ensures Fits(MulPow2(v.Value(), MAX_SHIFT))
  {
    hide Num, Pow, Fits, Val, MulPow2;
    var c, e := Val(v.digits), v.dp - |v.digits|;
    NormalCoefficient(v);
    MulPow2Up(c, k, e);
    MulPow2Up(c, MAX_SHIFT, e);
    FitsBetween(c, e, MAX_SHIFT, k);
  }

  lemma StepDownFits(v: View, k: int)
    requires v.Normal() && v.digits != [] && k < -MAX_SHIFT && Fits(MulPow2(v.Value(), k))
    ensures Fits(MulPow2(v.Value(), -MAX_SHIFT))
  {
    hide Num, Pow, Val, MulPow2;
    var x := MulPow2(v.Value(), k);
    var c1: nat, e1: int :| c1 < Pow(10, MAX_DIGITS) && x == Num(c1, e1);
    NormalCoefficient(v);
    FitsBy(v.Value(), MAX_DIGITS, Val(v.digits), v.dp - |v.digits|);
    MulPow2Up(c1, -k, e1);
    MulPow2Up(c1, -k - MAX_SHIFT, e1);
    MulPow2Add(v.Value(), k, -k);
    MulPow2Zero(v.Value());
    MulPow2Add(v.Value(), k, -k - MAX_SHIFT);
    NumPositive(Val(v.digits), v.dp - |v.digits|);
    NonzeroForm(v.Value(), k, c1, e1);
    FitsBetween(c1, e1, -k - MAX_SHIFT, -k);
  }

  lemma NonzeroForm(x: real, k: int, c1: nat, e1: int)
    requires x > 0.0 && MulPow2(x, k) == Num(c1, e1)
    ensures c1 > 0
  {
    hide Scale, Num;
    PositiveProduct(x, Scale(2, k));
    if c1 == 0 {
      NumZero(e1);
    }
  }

  lemma NumZero(e: int)
    ensures Num(0, e) == 0.0
  {
  }

  lemma NumPositive(c: nat, e: int)
    requires c > 0
    ensures Num(c, e) > 0.0
  {
    hide Scale;
    PositiveProduct(c as real, Scale(10, e));
  }

  lemma PositiveProduct(x: real, y: real)
    requires x > 0.0 && y > 0.0
    ensures x * y > 0.0
  {
  }
}
