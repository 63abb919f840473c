/** Decimal digit strings, most significant digit first, and the numbers they denote. */
module DigitSeq {
  import opened Powers

  type Digit = d: nat | d < 10

  function Val(s: seq<Digit>): nat {
    if s == [] then 0 else 10 * Val(s[..|s| - 1]) + s[|s| - 1]
  }

  /** The digits of n without leading zeros; zero has no digits at all. */
  function Digits(n: nat): (s: seq<Digit>)
    ensures Val(s) == n
    ensures s != [] ==> s[0] != 0
    ensures s == [] <==> n == 0
  {
    if n == 0 then [] else
      var front := Digits(n / 10);
      var s := front + [n % 10];
      assert s[..|s| - 1] == front;
      s
  }

  /** The number c * 10^e. */
  ghost function Num(c: int, e: int): real {
    c as real * Scale(10, e)
  }

  lemma WholeNum(m: nat)
    ensures Num(m, 0) == m as real
  {
    ScaleZero(10);
  }

  predicate AllZero(s: seq<Digit>) {
    forall i :: 0 <= i < |s| ==> s[i] == 0
  }

  lemma ValPush(s: seq<Digit>, d: Digit)
    ensures Val(s + [d]) == 10 * Val(s) + d
  {
    assert (s + [d])[..|s|] == s;
  }

  lemma {:induction false} ValAppend(s: seq<Digit>, t: seq<Digit>)
    ensures Val(s + t) == Val(s) * Pow(10, |t|) + Val(t)
  {
    if t == [] {
      assert s + t == s;
    } else {
      var u := t[..|t| - 1];
      assert s + t == (s + u) + [t[|t| - 1]];
      ValPush(s + u, t[|t| - 1]);
      ValAppend(s, u);
      MulStep(Val(s), Pow(10, |u|));
    }
  }

  lemma MulStep(v: int, p: int)
    ensures 10 * (v * p) == v * (10 * p)
  {
  }

  lemma ValSplit(s: seq<Digit>, i: nat)
    requires i <= |s|
    ensures Val(s) == Val(s[..i]) * Pow(10, |s| - i) + Val(s[i..])
  {
    assert s == s[..i] + s[i..];
    ValAppend(s[..i], s[i..]);
  }

  lemma ValOne(d: Digit)
    ensures Val([d]) == d
  {
    ValPush([], d);
    assert [] + [d] == [d];
  }

  lemma ValCons(d: Digit, s: seq<Digit>)
    ensures Val([d] + s) == d * Pow(10, |s|) + Val(s)
  {
    hide Pow;
    ValAppend([d], s);
    ValOne(d);
  }

  lemma {:induction false} ValBound(s: seq<Digit>)
    ensures Val(s) < Pow(10, |s|)
  {
    if s != [] {
      ValBound(s[..|s| - 1]);
    }
  }

  /** A string with a nonzero leading digit has full length. */
  lemma ValLower(s: seq<Digit>)
    requires s != [] && s[0] != 0
    ensures Pow(10, |s| - 1) <= Val(s)
  {
    assert s == [s[0]] + s[1..];
    ValCons(s[0], s[1..]);
    MulGrows(s[0], Pow(10, |s| - 1));
  }

  lemma {:induction false} ValZeros(s: seq<Digit>)
    ensures AllZero(s) <==> Val(s) == 0
  {
    if s != [] {
      var u := s[..|s| - 1];
      ValZeros(u);
      assert AllZero(s) ==> AllZero(u) && s[|s| - 1] == 0;
      if Val(s) == 0 {
        forall i | 0 <= i < |s| ensures s[i] == 0 {
          assert i < |u| ==> s[i] == u[i];
        }
      }
    }
  }

  /** The length of a string with a nonzero leading digit is fixed by its value. */
  lemma LengthByValue(s: seq<Digit>, n: nat)
    requires s != [] ==> s[0] != 0
    requires Val(s) < Pow(10, n)
    requires n > 0 ==> Pow(10, n - 1) <= Val(s)
    ensures |s| == n
  {
    ValBound(s);
    if s != [] {
      ValLower(s);
    }
    if |s| < n {
      PowMonotone(10, |s|, n - 1);
    } else if n < |s| {
      PowMonotone(10, n, |s| - 1);
    }
  }

  lemma {:induction false} ValInjective(s: seq<Digit>, t: seq<Digit>)
    requires |s| == |t| && Val(s) == Val(t)
    ensures s == t
  {
    if s != [] {
      var i := |s| - 1;
      ValInjective(s[..i], t[..i]);
      assert s == s[..i] + [s[i]] && t == t[..i] + [t[i]];
    }
  }

  /** Comparing at the first differing digit compares the fractions 0.s and 0.t. */
  lemma LexLess(s: seq<Digit>, t: seq<Digit>, i: nat)
    requires i < |s| && i < |t|
    requires s[..i] == t[..i] && s[i] < t[i]
    ensures Val(s) * Pow(10, |t|) < Val(t) * Pow(10, |s|)
  {
    hide Pow, Val;
    var j := i + 1;
    ValSplit(s, j);
    ValSplit(t, j);
    assert s[..j] == s[..i] + [s[i]] && t[..j] == t[..i] + [t[i]];
    ValPush(s[..i], s[i]);
    ValPush(t[..i], t[i]);
    ValBound(s[j..]);
    PowAdd(10, j, |s| - j);
    PowAdd(10, j, |t| - j);
    PowPositive(10, j);
    PowPositive(10, |t| - j);
    FractionLess(Val(s[..j]), Val(t[..j]), Pow(10, |s| - j), Pow(10, |t| - j), Val(s[j..]), Val(t[j..]), Pow(10, j));
  }

  lemma FractionLess(a: nat, b: nat, x: nat, y: nat, r: nat, q: nat, z: nat)
    requires a < b && r < x && y > 0 && z > 0
    ensures (a * x + r) * (z * y) < (b * y + q) * (z * x)
  {
    var u, v := a * x + r, b * y + q;
    MulLe(a + 1, b, x);
    assert u < b * x;
    MulLess(u, b * x, z * y);
    MulSwap(b, x, z, y);
    MulSwap(b, y, z, x);
    assert (b * x) * (z * y) == (b * z) * (x * y);
    MulLe(b * y, v, z * x);
  }

  lemma MulLess(a: int, b: int, k: nat)
    requires a < b && k > 0
    ensures a * k < b * k
  {
  }
}
