/** Shortest decimal for a float: soundness, minimality and closeness of the three-way digit walk. */
module Shortest {
  import opened Powers
  import opened DigitSeq
  import opened DigitView
  import opened ShiftMath
  import opened ExactShift
  import opened FloatFormat
  import opened DigitWalk
  import opened FloatBounds
  import opened MultiPrecision

  /** 0: d and upper agree so far; 1: they differ by one unit; 2: by more. */
  function NextDelta(delta: nat, m: Digit, u: Digit): nat {
    if delta == 0 && m + 1 < u then 2
    else if delta == 0 && m != u then 1
    else if delta == 1 && (m != 9 || u != 0) then 2
    else delta
  }

  ghost predicate DeltaMeans(delta: nat, d: nat, u: nat) {
    if delta == 0 then u == d else if delta == 1 then u == d + 1 else delta == 2 && u >= d + 2
  }

  lemma DeltaStep(delta: nat, d: nat, u: nat, m: Digit, c: Digit)
    requires DeltaMeans(delta, d, u) && 10 * d + m <= 10 * u + c
    ensures DeltaMeans(NextDelta(delta, m, c), 10 * d + m, 10 * u + c)
  {
  }

  /** The three numbers of the walk. */
  ghost predicate Walking(i: Interval, d: View, lower: View, upper: View) {
    && d.Normal() && lower.Normal() && upper.Normal()
    && d.digits != [] && lower.digits != [] && upper.digits != []
    && 0.0 < i.lo == lower.Value() < d.Value() < upper.Value() == i.hi
  }

  /** Nothing has been decided at the places above 10^p. */
  ghost predicate Undecided(i: Interval, d: View, lower: View, upper: View, p: int, delta: nat) {
    && UnitsOf(lower, p) == UnitsOf(d, p)
    && DeltaMeans(delta, UnitsOf(d, p), UnitsOf(upper, p))
    && !i.Has(Num(UnitsOf(d, p), p))
    && !i.Has(Num(UnitsOf(d, p) + 1, p))
  }

  lemma WalkStart(i: Interval, d: View, lower: View, upper: View)
    requires Walking(i, d, lower, upper)
    ensures Undecided(i, d, lower, upper, upper.dp, 0)
  {
    hide Num;
    var p := upper.dp;
    UnitsBound(upper, p);
    UnitsMonotone(d, upper, p);
    UnitsMonotone(lower, d, p);
    NumZero(p);
  }

  /** While undecided, d still has digits further right. */
  lemma DigitsLeft(i: Interval, d: View, lower: View, upper: View, p: int, delta: nat)
    requires Walking(i, d, lower, upper) && Undecided(i, d, lower, upper, p, delta)
    ensures d.dp - p < |d.digits|
  {
    hide Num;
    UnitsBound(d, p);
  }

  /** okdown and okup say whether d cut after the digit worth 10^p, or one unit more, is allowed. */
  lemma WalkStep(i: Interval, d: View, lower: View, upper: View, p: int, delta: nat)
    requires Walking(i, d, lower, upper) && Undecided(i, d, lower, upper, p + 1, delta)
    ensures var delta', l, m := NextDelta(delta, DigitAt(d, p), DigitAt(upper, p)), DigitAt(lower, p), DigitAt(d, p);
            && DeltaMeans(delta', UnitsOf(d, p), UnitsOf(upper, p))
            && (l == m ==> UnitsOf(lower, p) == UnitsOf(d, p))
            && (i.Has(Num(UnitsOf(d, p), p)) <==> l != m || (i.closed && lower.dp - p == |lower.digits|))
            && (i.Has(Num(UnitsOf(d, p) + 1, p)) <==> delta' > 0 && (i.closed || delta' > 1 || upper.dp - p < |upper.digits|))
  {
    hide Num, UnitsOf;
    UnitsStep(d, p);
    UnitsStep(lower, p);
    UnitsStep(upper, p);
    UnitsMonotone(d, upper, p);
    UnitsMonotone(lower, d, p);
    DeltaStep(delta, UnitsOf(d, p + 1), UnitsOf(upper, p + 1), DigitAt(d, p), DigitAt(upper, p));
    UnitsBound(d, p);
    UnitsBound(lower, p);
    UnitsBound(lower, p + 1);
    UnitsBound(upper, p);
    NumLess(UnitsOf(lower, p) + 1, UnitsOf(d, p), p);
    NumLess(UnitsOf(d, p) + 1, UnitsOf(upper, p), p);
    NumLess(UnitsOf(upper, p) + 1, UnitsOf(d, p) + 1, p);
  }

  /** What the walk has to deliver: the value r is allowed, is a multiple of 10^p, no allowed number is
      a multiple of 10^(p+1), and no allowed multiple of 10^p is closer to x; if another is as close, r is even. */
  ghost predicate Delivers(i: Interval, x: real, r: real, p: int) {
    && i.Has(r)
    && (exists c: nat :: r == Num(c, p))
    && NoMultiple(i, p + 1)
    && (forall a: nat :: i.Has(Num(a, p)) ==> Dist(r, x) <= Dist(Num(a, p), x))
    && (forall a: nat, c: nat :: r == Num(c, p) && a != c && i.Has(Num(a, p)) && Dist(Num(a, p), x) == Dist(r, x) ==>
          c % 2 == 0)
  }

  /** Cutting down, up, or to the nearer of both delivers. */
  lemma CutDelivers(i: Interval, d: View, p: int, r: real)
    requires d.Normal() && d.digits != [] && i.Has(d.Value()) && i.lo > 0.0
    requires NoMultiple(i, p + 1) && i.Has(r)
    requires r == Num(UnitsOf(d, p), p) || r == Num(UnitsOf(d, p) + 1, p)
    requires i.Has(Num(UnitsOf(d, p), p)) ==> Dist(r, d.Value()) <= d.Value() - Num(UnitsOf(d, p), p)
    requires i.Has(Num(UnitsOf(d, p) + 1, p)) ==> Dist(r, d.Value()) <= Num(UnitsOf(d, p) + 1, p) - d.Value()
    requires var u := UnitsOf(d, p);
             i.Has(Num(u, p)) && i.Has(Num(u + 1, p)) && d.Value() - Num(u, p) == Num(u + 1, p) - d.Value() ==>
               r == Num(if u % 2 == 0 then u else u + 1, p)
    ensures Delivers(i, d.Value(), r, p)
  {
    hide Num, UnitsOf;
    var x := d.Value();
    UnitsBound(d, p);
    forall a: nat, c: nat | r == Num(c, p) && a != c && i.Has(Num(a, p)) && Dist(Num(a, p), x) == Dist(r, x)
      ensures c % 2 == 0
    {
      TiedUnits(i, x, UnitsOf(d, p), p, r, a, c);
    }
    forall a: nat | i.Has(Num(a, p)) ensures Dist(r, x) <= Dist(Num(a, p), x) {
      NumLess(a, UnitsOf(d, p), p);
      NumLess(a, UnitsOf(d, p) + 1, p);
    }
  }

  /** Two allowed multiples as close as each other are the units next to x. */
  lemma TiedUnits(i: Interval, x: real, u: nat, p: int, r: real, a: nat, c: nat)
    requires Num(u, p) <= x < Num(u + 1, p) && i.Has(x) && i.Has(r) && r == Num(c, p) && a != c && i.Has(Num(a, p))
    requires Dist(Num(a, p), x) == Dist(r, x)
    requires r == Num(u, p) || r == Num(u + 1, p)
    requires i.Has(Num(u, p)) ==> Dist(r, x) <= x - Num(u, p)
    requires i.Has(Num(u + 1, p)) ==> Dist(r, x) <= Num(u + 1, p) - x
    requires i.Has(Num(u, p)) && i.Has(Num(u + 1, p)) && x - Num(u, p) == Num(u + 1, p) - x ==>
               r == Num(if u % 2 == 0 then u else u + 1, p)
    ensures c % 2 == 0
  {
    hide Num;
    NumLess(c, u, p);
    NumLess(c, u + 1, p);
    NumLess(a, u, p);
    NumLess(a, u + 1, p);
    NumLess(a, c, p);
  }

  /** Cutting a buffer after j digits, seen as units. */
  lemma CutUnits(d: View, p: int, j: int)
    requires d.Normal() && d.digits != [] && j == d.dp - p && 0 <= j < |d.digits|
    ensures d.Below(j) == Num(UnitsOf(d, p), p)
    ensures d.Above(j) == Num(UnitsOf(d, p) + 1, p)
    ensures !d.trunc ==> if RoundsUp(d, j) then Num(UnitsOf(d, p) + 1, p) - d.Value() <= d.Value() - Num(UnitsOf(d, p), p)
                         else d.Value() - Num(UnitsOf(d, p), p) <= Num(UnitsOf(d, p) + 1, p) - d.Value()
    ensures !d.trunc && Num(UnitsOf(d, p) + 1, p) - d.Value() == d.Value() - Num(UnitsOf(d, p), p) ==>
              (RoundsUp(d, j) <==> UnitsOf(d, p) % 2 == 1)
  {
    hide Num, Val, Pow;
    var s, n := d.digits, |d.digits|;
    var q, v: int, r: int, u: int := d.dp - n, Val(s[..j]), Val(s[j..]), Pow(10, n - j);
    NoDigitsUnits(s);
    assert UnitsOf(d, p) == v;
    ValSplit(s, j);
    MoveTen(v, n - j, q);
    MoveTen(v + 1, n - j, q);
    TimesNext(v, u);
    NumDiff(Val(s), v * u, q);
    NumDiff((v + 1) * u, Val(s), q);
    NumLess(u - r, r, q);
  }

  lemma NoDigitsUnits(s: seq<Digit>)
    ensures s[..0] == [] && Val(s[..0]) == 0
  {
  }

  ghost function IntervalOf(mant: nat, exp: int, flt: FloatInfo): Interval {
    Interval(Lower(mant, exp, flt), Upper(mant, exp, flt), mant % 2 == 0)
  }

  /** The upper half gap, and a bound for the lower one. */
  lemma HalfGaps(mant: nat, exp: int, flt: FloatInfo)
    requires mant > 0
    ensures var x, h := FloatValue(mant, exp, flt), MulPow2(1.0, exp - flt.mantbits - 1);
            Upper(mant, exp, flt) - x == h && 0.0 < x - Lower(mant, exp, flt) <= h
  {
    hide MulPow2, Pow;
    var k := exp - flt.mantbits;
    MulPow2Double(mant as real, k);
    MulPow2Sum((mant * 2) as real, 1.0, k - 1);
    if LowExp(mant, exp, flt) == exp {
      MulPow2Sum((mant * 2 - 1) as real, 1.0, k - 1);
      MulPow2Positive(1.0, k - 1);
    } else {
      MulPow2Double((mant * 2) as real, k - 1);
      MulPow2Sum((mant * 4 - 1) as real, 1.0, k - 2);
      MulPow2Positive(1.0, k - 2);
      MulPow2Double(1.0, k - 1);
      MulPow2Sum(1.0, 1.0, k - 2);
    }
  }

  /** The early exit is right: every shorter number is more than a half gap away. */
  lemma EarlyExit(d: View, mant: nat, exp: int, flt: FloatInfo)
    requires d.Normal() && d.digits != [] && mant > 0 && IsFloat(mant, exp, flt) && flt.mantbits <= 232
    requires d.Value() == FloatValue(mant, exp, flt)
    requires 332 * (d.dp - |d.digits|) >= 100 * (exp - flt.mantbits)
    ensures Delivers(IntervalOf(mant, exp, flt), d.Value(), d.Value(), d.dp - |d.digits|)
  {
    hide Num, Val, MulPow2, Pow, Upper, Lower;
    var i, p, c, k := IntervalOf(mant, exp, flt), d.dp - |d.digits|, Val(d.digits), exp - flt.mantbits;
    if p < 0 {
      FewFractionDigits(mant, k, c, p, flt.mantbits);
    }
    UnitBeatsHalfGap(p, k);
    HalfGaps(mant, exp, flt);
    LastDigit(d.digits);
    forall a: nat, b: nat | Num(b, p) == Num(c, p) && a != b ensures Num(a, p) != Num(c, p) {
      NumLess(a, b, p);
    }
    var q := p + 1;
    forall a: nat ensures !i.Has(Num(a, q)) {
      MoveTen(a, 1, p);
      PowTen();
      NumDiff(a * 10, c, p);
      NumDiff(c, a * 10, p);
      NumLess(a * 10 - c, 1, p);
      NumLess(c - a * 10, 1, p);
    }
  }

  /** The first place with an allowed cut: no allowed number is a multiple of the next higher unit. */
  lemma Decided(i: Interval, d: View, lower: View, upper: View, p: int, delta: nat)
    requires Walking(i, d, lower, upper) && Undecided(i, d, lower, upper, p + 1, delta)
    ensures NoMultiple(i, p + 1) && i.Has(d.Value())
  {
    hide Num;
    UnitsBound(d, p + 1);
    NoMultipleBy(i, d.Value(), UnitsOf(d, p + 1), p + 1);
  }

  lemma StillUndecided(i: Interval, d: View, lower: View, upper: View, p: int, delta: nat)
    requires UnitsOf(lower, p) == UnitsOf(d, p) && DeltaMeans(delta, UnitsOf(d, p), UnitsOf(upper, p))
    requires !i.Has(Num(UnitsOf(d, p), p)) && !i.Has(Num(UnitsOf(d, p) + 1, p))
    ensures Undecided(i, d, lower, upper, p, delta)
  {
  }

  /** An allowed cut keeps at least zero digits. */
  lemma CutInside(i: Interval, d: View, p: int)
    requires d.Normal() && d.digits != [] && i.lo > 0.0 && i.hi <= 2.0 * d.Value()
    requires i.Has(Num(UnitsOf(d, p), p)) || i.Has(Num(UnitsOf(d, p) + 1, p))
    ensures d.dp - p >= 0
  {
    hide Num;
    if d.dp - p < 0 {
      NumZero(p);
      UnitsBound(d, d.dp);
      MoveTen(1, p - d.dp, d.dp);
      PowMonotone(10, 1, p - d.dp);
      PowTen();
      NumLess(9, Pow(10, p - d.dp), d.dp);
      NineUnits(d.dp);
    }
  }

  lemma NineUnits(e: int)
    ensures Num(9, e) == 9.0 * Num(1, e)
  {
  }

  /** What the rounding methods leave in the buffer delivers. */
  lemma RoundedDelivers(i: Interval, d: View, p: int, j: int, r: real, okdown: bool, okup: bool)
    requires d.Normal() && d.digits != [] && !d.trunc && i.Has(d.Value()) && i.lo > 0.0 && i.hi <= 2.0 * d.Value()
    requires NoMultiple(i, p + 1) && j == d.dp - p <= |d.digits|
    requires okdown <==> i.Has(Num(UnitsOf(d, p), p))
    requires okup <==> i.Has(Num(UnitsOf(d, p) + 1, p))
    requires okdown || okup
    requires !(0 <= j < |d.digits|) ==> r == d.Value()
    requires 0 <= j < |d.digits| ==>
               r == if okup && (!okdown || RoundsUp(d, j)) then d.Above(j) else d.Below(j)
    ensures Delivers(i, d.Value(), r, p)
  {
    hide Num, Val, UnitsOf, RoundsUp, Delivers;
    CutInside(i, d, p);
    UnitsBound(d, p);
    if j < |d.digits| {
      CutUnits(d, p, j);
    }
    CutDelivers(i, d, p, r);
  }

  /** Walks the three digit strings down to the first place where d may be cut, down or up. */
  method FindCut(d: DigitBuffer, lower: DigitBuffer, upper: DigitBuffer, inclusive: bool, ghost i: Interval)
    returns (cut: int, okdown: bool, okup: bool, ghost p: int)
    requires d.Valid() && lower.Valid() && upper.Valid()
    requires Walking(i, d.Content(), lower.Content(), upper.Content()) && i.closed == inclusive
    ensures cut == d.dp - p <= d.nd && (okdown || okup)
    ensures okdown <==> i.Has(Num(UnitsOf(d.Content(), p), p))
    ensures okup <==> i.Has(Num(UnitsOf(d.Content(), p) + 1, p))
    ensures NoMultiple(i, p + 1)
  {
    hide Undecided, Num, UnitsOf, Val;
    ghost var dv, lv, uv := d.Content(), lower.Content(), upper.Content();
    var upperdelta: nat, ui: nat := 0, 0;
    p := upper.dp;
    WalkStart(i, dv, lv, uv);
    while true
      invariant p == upper.dp - ui
      invariant upperdelta <= 2 && Undecided(i, dv, lv, uv, p, upperdelta)
      decreases d.nd - (d.dp - p)
    {
      DigitsLeft(i, dv, lv, uv, p, upperdelta);
      p := p - 1;
      ghost var before := upperdelta;
      WalkStep(i, dv, lv, uv, p, before);
      // the source leaves the loop when mi >= d.nd, which DigitsLeft rules out
      var mi, li := ui - upper.dp + d.dp, ui - upper.dp + lower.dp;
      var l: Digit := if 0 <= li < lower.nd then lower.d[li] else 0;
      var m: Digit := if 0 <= mi then d.d[mi] else 0;
      var u: Digit := if ui < upper.nd then upper.d[ui] else 0;
      assert l == DigitAt(lv, p) && m == DigitAt(dv, p) && u == DigitAt(uv, p);
      okdown := l != m || (inclusive && li + 1 == lower.nd);
      upperdelta := NextDelta(upperdelta, m, u);
      okup := upperdelta > 0 && (inclusive || upperdelta > 1 || ui + 1 < upper.nd);
      if okdown || okup {
        Decided(i, dv, lv, uv, p, before);
        return mi + 1, okdown, okup, p;
      }
      StillUndecided(i, dv, lv, uv, p, upperdelta);
      ui := ui + 1;
    }
  }

  /** The digit walk: rewrites d as a number of the interval at the first place that allows it. */
  method Walk(d: DigitBuffer, lower: DigitBuffer, upper: DigitBuffer, inclusive: bool, ghost i: Interval)
    returns (ghost p: int)
    requires d.Valid() && lower.Valid() && upper.Valid() && !d.trunc
    requires Walking(i, d.Content(), lower.Content(), upper.Content()) && i.closed == inclusive
    requires i.hi <= 2.0 * d.Content().Value()
    modifies d, d.d
    ensures d.Valid() && !d.trunc
    ensures Delivers(i, old(d.Content().Value()), d.Content().Value(), p)
  {
    hide Delivers, Num, UnitsOf, Val, RoundsUp, NoMultiple;
    ghost var dv := d.Content();
    var cut, okdown, okup, place := FindCut(d, lower, upper, inclusive, i);
    p := place;
    if okdown && okup {
      d.Round(cut);
    } else if okdown {
      d.RoundDown(cut);
    } else {
      d.RoundUp(cut);
    }
    RoundedDelivers(i, dv, p, cut, d.Content().Value(), okdown, okup);
  }

  predicate Supported(exp: int, flt: FloatInfo) {
    (flt == FLOAT32 && exp <= 127) || (flt == FLOAT64 && exp <= 1023)
  }

  /** v reads back as the float, no number with fewer digits does, and no number ending at the same
      decimal place that reads back is closer to the float; if another one is as close, v is the even one. */
  ghost predicate ShortestThere(v: View, mant: nat, exp: int, flt: FloatInfo) {
    var x, place := FloatValue(mant, exp, flt), v.dp - |v.digits|;
    && ReadsBackAs(v.Value(), mant, exp, flt)
    && (forall y: real, n: nat :: ReadsBackAs(y, mant, exp, flt) && HasDigits(y, n) ==> |v.digits| <= n)
    && (forall a: nat :: ReadsBackAs(Num(a, place), mant, exp, flt) ==> Dist(v.Value(), x) <= Dist(Num(a, place), x))
    && (forall a: nat :: ReadsBackAs(Num(a, place), mant, exp, flt) && Dist(v.Value(), x) == Dist(Num(a, place), x) ==>
          a == Val(v.digits) || Val(v.digits) % 2 == 0)
  }

  lemma DeliversShortest(v: View, mant: nat, exp: int, flt: FloatInfo, p: int)
    requires v.Normal() && mant > 0 && flt.mantbits > 0 && IsFloat(mant, exp, flt)
    requires Delivers(IntervalOf(mant, exp, flt), FloatValue(mant, exp, flt), v.Value(), p)
    ensures ShortestThere(v, mant, exp, flt)
  {
    hide IsFloat, FloatValue, Num, Upper, Lower, ReadsBackAs, HasDigits, NoMultiple;
    var i := IntervalOf(mant, exp, flt);
    LowerPositive(mant, exp, flt);
    PositiveDigits(v);
    var c: nat :| v.Value() == Num(c, p);
    FewestDigits(i, v, c, p);
    IntervalReadsBack(v.Value(), mant, exp, flt);
    forall y: real, n: nat | ReadsBackAs(y, mant, exp, flt) && HasDigits(y, n) ensures |v.digits| <= n {
      IntervalReadsBack(y, mant, exp, flt);
    }
    assert v.Value() == Num(Val(v.digits), p);
    forall a: nat | ReadsBackAs(Num(a, p), mant, exp, flt)
      ensures Dist(v.Value(), FloatValue(mant, exp, flt)) <= Dist(Num(a, p), FloatValue(mant, exp, flt))
      ensures a != Val(v.digits) && Dist(v.Value(), FloatValue(mant, exp, flt)) == Dist(Num(a, p), FloatValue(mant, exp, flt)) ==>
                Val(v.digits) % 2 == 0
    {
      IntervalReadsBack(Num(a, p), mant, exp, flt);
    }
  }

  /** Moreover no number of as few digits that reads back is closer, wherever it ends. */
  ghost predicate IsShortest(v: View, mant: nat, exp: int, flt: FloatInfo) {
    && ShortestThere(v, mant, exp, flt)
    && forall y: real :: ReadsBackAs(y, mant, exp, flt) && HasDigits(y, |v.digits|) ==>
         Dist(v.Value(), FloatValue(mant, exp, flt)) <= Dist(y, FloatValue(mant, exp, flt))
  }

  lemma ClosestOfItsLength(v: View, mant: nat, exp: int, flt: FloatInfo)
    requires v.Normal() && mant > 0 && Standard(flt) && IsFloat(mant, exp, flt)
    requires ShortestThere(v, mant, exp, flt)
    ensures IsShortest(v, mant, exp, flt)
  {
    hide IsFloat, FloatValue, Num, ReadsBackAs, ShortestThere, Pow;
    forall y: real | ReadsBackAs(y, mant, exp, flt) && HasDigits(y, |v.digits|)
      ensures Dist(v.Value(), FloatValue(mant, exp, flt)) <= Dist(y, FloatValue(mant, exp, flt))
    {
      var c: nat, q: int :| c < Pow(10, |v.digits|) && y == Num(c, q);
      if q >= v.dp - |v.digits| {
        EndsNoFurther(v, mant, exp, flt, c, q);
      } else {
        EndsFurther(v, mant, exp, flt, c, q);
      }
    }
  }

  lemma EndsNoFurther(v: View, mant: nat, exp: int, flt: FloatInfo, c: nat, q: int)
    requires ShortestThere(v, mant, exp, flt) && q >= v.dp - |v.digits|
    requires ReadsBackAs(Num(c, q), mant, exp, flt)
    ensures Dist(v.Value(), FloatValue(mant, exp, flt)) <= Dist(Num(c, q), FloatValue(mant, exp, flt))
  {
    hide FloatValue, Num, ReadsBackAs, Pow, HasDigits;
    var p := v.dp - |v.digits|;
    MoveTen(c, q - p, p);
  }

  /** A number that ends further right has as few digits only below the leading unit of v; the leading unit then
      reads back as well, so v has one digit. */
  lemma EndsFurther(v: View, mant: nat, exp: int, flt: FloatInfo, c: nat, q: int)
    requires v.Normal() && mant > 0 && Standard(flt) && IsFloat(mant, exp, flt) && ShortestThere(v, mant, exp, flt)
    requires q < v.dp - |v.digits| && c < Pow(10, |v.digits|) && ReadsBackAs(Num(c, q), mant, exp, flt)
    ensures Dist(v.Value(), FloatValue(mant, exp, flt)) <= Dist(Num(c, q), FloatValue(mant, exp, flt))
  {
    hide IsFloat, FloatValue, Num, ReadsBackAs, Pow, HasDigits, Lower, Upper, Val;
    var n, p, y, lead := |v.digits|, v.dp - |v.digits|, Num(c, q), Num(1, v.dp - 1);
    LowerPositive(mant, exp, flt);
    IntervalReadsBack(y, mant, exp, flt);
    IntervalReadsBack(v.Value(), mant, exp, flt);
    PositiveDigits(v);
    LeadingUnit(v, c, q);
    IntervalReadsBack(lead, mant, exp, flt);
    LeadHasOneDigit(v.dp - 1);
    PowTen();
    assert n == 1 && lead == Num(1, p);
    EndsNoFurther(v, mant, exp, flt, 1, p);
    OneDigit(mant, exp, flt, p, c, q);
  }

  lemma LeadHasOneDigit(e: int)
    ensures HasDigits(Num(1, e), 1)
  {
    PowTen();
    FitsBy(Num(1, e), 1, 1, e);
  }

  lemma LeadingUnit(v: View, c: nat, q: int)
    requires v.Normal() && v.digits != [] && q < v.dp - |v.digits| && c < Pow(10, |v.digits|)
    ensures Num(c, q) < Num(1, v.dp - 1) <= v.Value()
  {
    hide Num, Pow, Val;
    var n, p := |v.digits|, v.dp - |v.digits|;
    MoveTen(1, n - 1, p);
    ValLower(v.digits);
    NumLess(Val(v.digits), Pow(10, n - 1), p);
    MoveTen(1, n, q);
    NumLess(c, Pow(10, n), q);
    MoveTen(1, p - 1 - q, q + n);
    PowPositive(10, p - 1 - q);
    NumLess(Pow(10, p - 1 - q), 1, q + n);
  }

  /** The power of ten 10^p is at least as close as any number of one digit below it. */
  lemma OneDigit(mant: nat, exp: int, flt: FloatInfo, p: int, c: nat, q: int)
    requires mant > 0 && Standard(flt) && IsFloat(mant, exp, flt) && q < p && c < 10
    requires Num(c, q) < Num(1, p) && InInterval(Num(c, q), mant, exp, flt) && InInterval(Num(1, p), mant, exp, flt)
    ensures Dist(Num(1, p), FloatValue(mant, exp, flt)) <= Dist(Num(c, q), FloatValue(mant, exp, flt))
  {
    hide FloatValue, Num, Pow, Lower, Upper, MulPow2, IsFloat;
    var x, u, h := FloatValue(mant, exp, flt), Num(1, p - 1), MulPow2(1.0, exp - flt.mantbits - 1);
    HalfGaps(mant, exp, flt);
    MulPow2Positive(1.0, exp - flt.mantbits - 1);
    TwoHalves(mant, exp, flt);
    BelowTen(p, c, q);
    if x < Num(1, p) {
      FewHalves(mant, u, h, x);
      SmallMantissa(mant, exp, flt);
      UnitApart(mant, p - 1, flt);
      assert 19.0 * u <= (4 * mant) as real * h;
      assert 19.0 * u <= 2.0 * x;
    }
  }

  lemma TwoHalves(mant: nat, exp: int, flt: FloatInfo)
    ensures FloatValue(mant, exp, flt) == (2 * mant) as real * MulPow2(1.0, exp - flt.mantbits - 1)
  {
    hide MulPow2;
    MulPow2Double(mant as real, exp - flt.mantbits);
    MulPow2Times(2 * mant, exp - flt.mantbits - 1);
  }

  lemma BelowTen(p: int, c: nat, q: int)
    requires q < p && c < 10
    ensures Num(1, p) == 10.0 * Num(1, p - 1) && Num(c, q) <= 9.0 * Num(1, p - 1) && Num(1, p - 1) > 0.0
  {
    PowTen();
    NumTimesTen(p - 1);
    NineUnits(p - 1);
    hide Num, Pow;
    MoveTen(1, 1, p - 1);
    MoveTen(9, p - 1 - q, q);
    PowPositive(10, p - 1 - q);
    MulGrows(Pow(10, p - 1 - q), 9);
    NumLess(9 * Pow(10, p - 1 - q), c, q);
    NumPositive(1, p - 1);
  }

  lemma FewHalves(m: nat, u: real, h: real, x: real)
    requires h > 0.0 && x == (2 * m) as real * h && 10.0 * u <= x + h && x - h <= 9.0 * u
    ensures m <= 9
    ensures 10.0 * u <= (2 * m + 1) as real * h && (4 * m) as real * h == 2.0 * x
  {
    hide *;
    Halves((2 * m) as real, h, x);
    assert (2 * m + 1) as real == (2 * m) as real + 1.0 && (4 * m) as real == 2.0 * (2 * m) as real;
  }

  lemma Halves(t: real, h: real, x: real)
    requires h > 0.0 && x == t * h
    ensures t >= 20.0 ==> x >= 20.0 * h
    ensures (t + 1.0) * h == x + h && (2.0 * t) * h == 2.0 * x
  {
    var g := t - 20.0;
    assert x == 20.0 * h + g * h;
    if g >= 0.0 {
      RealLe(0.0, g, h);
    }
  }

  lemma SmallMantissa(mant: nat, exp: int, flt: FloatInfo)
    requires mant <= 9 && Standard(flt) && IsFloat(mant, exp, flt)
    ensures exp == flt.MinExp()
  {
    assert Pow(2, 4) == 16;
    hide Pow;
    PowMonotone(2, 4, flt.mantbits);
  }

  lemma LowerPositive(mant: nat, exp: int, flt: FloatInfo)
    requires mant > 0
    ensures Lower(mant, exp, flt) > 0.0
  {
    hide MulPow2, Pow;
    MulPow2Positive((LowMant(mant, exp, flt) * 2 + 1) as real, LowExp(mant, exp, flt) - flt.mantbits - 1);
  }

  lemma PositiveDigits(v: View)
    requires v.Normal()
    ensures v.Value() > 0.0 <==> v.digits != []
  {
    hide Num, Val, Pow;
    if v.digits == [] {
      NothingIsZero(v.dp);
    } else {
      ValLower(v.digits);
      PowPositive(10, |v.digits| - 1);
      NumPositive(Val(v.digits), v.dp - |v.digits|);
    }
  }

  /** The midpoints bracket the float, and stay below twice its value. */
  lemma Bracket(mant: nat, exp: int, flt: FloatInfo)
    requires mant > 0
    ensures 0.0 < Lower(mant, exp, flt) < FloatValue(mant, exp, flt) < Upper(mant, exp, flt) <= 2.0 * FloatValue(mant, exp, flt)
  {
    hide MulPow2, Pow;
    var k := exp - flt.mantbits;
    HalfGaps(mant, exp, flt);
    LowerPositive(mant, exp, flt);
    MulPow2Positive(1.0, k - 1);
    MulPow2Double(mant as real, k);
    MulPow2Sum((mant * 2) as real, (mant * 2) as real, k - 1);
    MulPow2Order(mant * 2 + 1, mant * 4, k - 1);
  }

  lemma ZeroFloat(exp: int, flt: FloatInfo, v: View)
    requires v.Normal() && v.Value() == FloatValue(0, exp, flt)
    ensures v.digits == []
  {
    PositiveDigits(v);
  }

  /** Both midpoints are small enough for the machine word and for the digit buffer. */
  lemma SmallFloat(mant: nat, exp: int, flt: FloatInfo)
    requires mant > 0 && Supported(exp, flt) && IsFloat(mant, exp, flt)
    ensures mant * 2 + 1 < 0x1_0000_0000_0000_0000
    ensures 0 <= LowMant(mant, exp, flt) * 2 + 1 < 0x1_0000_0000_0000_0000
    ensures Fits(Upper(mant, exp, flt)) && Fits(Lower(mant, exp, flt))
  {
    hide MulPow2, Fits, Pow;
    WordSizes();
    PowMonotone(2, flt.mantbits + 1, 53);
    MidpointFits(mant * 2 + 1, exp - flt.mantbits - 1);
    MidpointFits(LowMant(mant, exp, flt) * 2 + 1, LowExp(mant, exp, flt) - flt.mantbits - 1);
  }

  lemma WordSizes()
    ensures Pow(2, 53) == 0x20_0000_0000_0000 && Pow(2, 60) == 0x1000_0000_0000_0000
  {
    assert Pow(2, 10) == 1024 && Pow(2, 3) == 8 && Pow(2, 7) == 128;
    PowAdd(2, 10, 10);
    PowAdd(2, 20, 20);
    PowAdd(2, 40, 10);
    PowAdd(2, 50, 3);
    PowAdd(2, 53, 7);
  }

  /** A midpoint in a digit buffer of its own. */
  method Midpoint(m: UInt64, k: int) returns (b: DigitBuffer)
    requires m > 0 && Fits(MulPow2(m as real, k))
    ensures fresh(b) && fresh(b.d) && b.Valid() && b.Content().Value() == MulPow2(m as real, k)
  {
    hide Fits, MulPow2, Num, Shifted;
    b := new DigitBuffer();
    b.Assign(m);
    ShiftExact(b.Content(), k);
    b.Shift(k);
  }

  /** Rounds d, holding exactly this float, to its shortest decimal form. */
  method RoundShortest(d: DigitBuffer, mant: UInt64, exp: int, flt: FloatInfo)
    requires d.Valid() && !d.trunc && Supported(exp, flt) && IsFloat(mant, exp, flt)
    requires d.Content().Value() == FloatValue(mant, exp, flt)
    modifies d, d.d
    ensures d.Valid() && !d.trunc
    ensures mant == 0 ==> d.nd == 0
    ensures mant > 0 ==> IsShortest(d.Content(), mant, exp, flt)
  {
    hide IsFloat, FloatValue, Delivers, Num, Pow, Upper, Lower, IsShortest, ShortestThere, Fits, LowMant, LowExp, MulPow2;
    if mant == 0 {
      ZeroFloat(exp, flt, d.Content());
      d.nd := 0;
      return;
    }
    ghost var i := IntervalOf(mant, exp, flt);
    Bracket(mant, exp, flt);
    PositiveDigits(d.Content());
    var minexp := flt.bias + 1;
    if exp > minexp && 332 * (d.dp - d.nd) >= 100 * (exp - flt.mantbits) {
      EarlyExit(d.Content(), mant, exp, flt);
      DeliversShortest(d.Content(), mant, exp, flt, d.dp - d.nd);
      ClosestOfItsLength(d.Content(), mant, exp, flt);
      return;
    }
    SmallFloat(mant, exp, flt);
    MidpointForms(mant, exp, flt);
    var upper := Midpoint(mant * 2 + 1, exp - flt.mantbits - 1);
    var mantlo, explo := LowMant(mant, exp, flt), LowExp(mant, exp, flt);
    var lower := Midpoint(mantlo * 2 + 1, explo - flt.mantbits - 1);
    PositiveDigits(upper.Content());
    PositiveDigits(lower.Content());
    var inclusive := mant % 2 == 0;
    ghost var p := Walk(d, lower, upper, inclusive, i);
    DeliversShortest(d.Content(), mant, exp, flt, p);
    ClosestOfItsLength(d.Content(), mant, exp, flt);
  }

  lemma MidpointForms(mant: nat, exp: int, flt: FloatInfo)
    ensures Upper(mant, exp, flt) == MulPow2((mant * 2 + 1) as real, exp - flt.mantbits - 1)
    ensures Lower(mant, exp, flt) == MulPow2((LowMant(mant, exp, flt) * 2 + 1) as real, LowExp(mant, exp, flt) - flt.mantbits - 1)
  {
  }
}
