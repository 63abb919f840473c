/** What a digit buffer holds, as a value: at most 800 digits, the position of the decimal point, and
    whether nonzero digits were dropped. */
module DigitView {
  import opened Powers
  import opened DigitSeq

  const MAX_DIGITS := 800
  const MAX_SHIFT := 60

  datatype View = View(digits: seq<Digit>, dp: int, trunc: bool) {
    ghost predicate Normal() {
      && |digits| <= MAX_DIGITS
      && (digits != [] ==> digits[0] != 0 && digits[|digits| - 1] != 0)
      && (digits == [] ==> dp == 0)
    }

    ghost function Value(): real {
      Num(Val(digits), dp - |digits|)
    }

    /** The two neighbours with n digits. */
    ghost function Below(n: nat): real
      requires n <= |digits|
    {
      Num(Val(digits[..n]), dp - n)
    }

    ghost function Above(n: nat): real
      requires n <= |digits|
    {
      Num(Val(digits[..n]) + 1, dp - n)
    }
  }

  /** Rounding to n digits goes up: past the half, or at the half when digits were lost or the digit is odd. */
  ghost predicate RoundsUp(v: View, n: nat)
    requires n <= |v.digits|
  {
    var r, unit := Val(v.digits[n..]), Pow(10, |v.digits| - n);
    2 * r > unit || (2 * r == unit && (v.trunc || Val(v.digits[..n]) % 2 == 1))
  }

  /** Without trailing zeros. */
  function Strip(s: seq<Digit>): (t: seq<Digit>)
    ensures t <= s
    ensures t != [] ==> t[|t| - 1] != 0
    ensures AllZero(s[|t|..])
  {
    if s != [] && s[|s| - 1] == 0 then
      var t := Strip(s[..|s| - 1]);
      assert s[|t|..] == s[..|s| - 1][|t|..] + [0];
      t
    else s
  }

  function Keep(e: seq<Digit>): seq<Digit> {
    if |e| <= MAX_DIGITS then e else e[..MAX_DIGITS]
  }

  function Lost(e: seq<Digit>): seq<Digit> {
    if |e| <= MAX_DIGITS then [] else e[MAX_DIGITS..]
  }

  /** The exact digits e with decimal point dp, cut to the capacity of the buffer. */
  function Cut(e: seq<Digit>, dp: int, trunc: bool): View {
    var s := Strip(Keep(e));
    View(s, if s == [] then 0 else dp, trunc || !AllZero(Lost(e)))
  }

  lemma StripUnique(s: seq<Digit>, n: nat)
    requires n <= |s| && AllZero(s[n..]) && (n > 0 ==> s[n - 1] != 0)
    ensures Strip(s) == s[..n]
  {
    ZerosFrom(s, |Strip(s)|);
    ZerosFrom(s, n);
  }

  lemma ZerosFrom(s: seq<Digit>, n: nat)
    requires n <= |s| && AllZero(s[n..])
    ensures forall i :: n <= i < |s| ==> s[i] == 0
  {
    forall i | n <= i < |s| ensures s[i] == 0 {
      assert s[n..][i - n] == s[i];
    }
  }

  /** Trailing zeros of the exact digits do not matter. */
  lemma CutIgnoresZeros(e: seq<Digit>, z: seq<Digit>, dp: int, trunc: bool)
    requires AllZero(z)
    ensures Cut(e + z, dp, trunc) == Cut(e, dp, trunc)
  {
    var f := e + z;
    var t := Strip(Keep(e));
    ZerosFrom(Keep(e), |t|);
    assert forall i :: |e| <= i < |f| ==> f[i] == z[i - |e|];
    StripUnique(Keep(f), |t|);
    assert Keep(f)[..|t|] == t;
    LostZero(e);
    LostZero(f);
    assert forall i :: 0 <= i < |e| ==> f[i] == e[i];
  }

  lemma LostZero(e: seq<Digit>)
    ensures AllZero(Lost(e)) <==> forall i :: MAX_DIGITS <= i < |e| ==> e[i] == 0
  {
    if AllZero(Lost(e)) && |e| > MAX_DIGITS {
      ZerosFrom(e, MAX_DIGITS);
    }
  }

  lemma CutNormal(e: seq<Digit>, dp: int, trunc: bool)
    requires e != [] ==> e[0] != 0
    ensures Cut(e, dp, trunc).Normal()
  {
  }

  /** The exact result of a left shift, cut to capacity. */
  ghost function Shl(v: View, k: nat): View {
    var e := Digits(Val(v.digits) * Pow(2, k));
    Cut(e, v.dp + |e| - |v.digits|, v.trunc)
  }

  /** The exact result of a right shift, cut to capacity: dividing by 2^k is multiplying by 5^k. */
  ghost function Shr(v: View, k: nat): View {
    var e := Digits(Val(v.digits) * Pow(5, k));
    Cut(e, v.dp + |e| - |v.digits| - k, v.trunc)
  }

  /** A shift by any integer, in steps of at most 60. */
  ghost function Shifted(v: View, k: int): View
    decreases if k >= 0 then k else -k
  {
    if v.digits == [] || k == 0 then v
    else if k > MAX_SHIFT then Shifted(Shl(v, MAX_SHIFT), k - MAX_SHIFT)
    else if k > 0 then Shl(v, k)
    else if k < -MAX_SHIFT then Shifted(Shr(v, MAX_SHIFT), k + MAX_SHIFT)
    else Shr(v, -k)
  }

  lemma CutNonzero(e: seq<Digit>, dp: int, trunc: bool)
    requires e != [] && e[0] != 0
    ensures Cut(e, dp, trunc).digits != [] && Cut(e, dp, trunc).Normal()
  {
    ZerosFrom(Keep(e), |Strip(Keep(e))|);
  }

  lemma ShlNonzero(v: View, k: nat)
    requires v.Normal() && v.digits != []
    ensures Shl(v, k).digits != [] && Shl(v, k).Normal()
  {
    hide Strip, Pow;
    ValLower(v.digits);
    PowPositive(10, |v.digits| - 1);
    PowPositive(2, k);
    ProductPositive(Val(v.digits), Pow(2, k));
    var e := Digits(Val(v.digits) * Pow(2, k));
    CutNonzero(e, v.dp + |e| - |v.digits|, v.trunc);
  }

  lemma ShrNonzero(v: View, k: nat)
    requires v.Normal() && v.digits != []
    ensures Shr(v, k).digits != [] && Shr(v, k).Normal()
  {
    hide Strip, Pow;
    ValLower(v.digits);
    PowPositive(10, |v.digits| - 1);
    PowPositive(5, k);
    ProductPositive(Val(v.digits), Pow(5, k));
    var e := Digits(Val(v.digits) * Pow(5, k));
    CutNonzero(e, v.dp + |e| - |v.digits| - k, v.trunc);
  }

  lemma ProductPositive(a: nat, b: nat)
    requires a > 0 && b > 0
    ensures a * b > 0
  {
  }
}
