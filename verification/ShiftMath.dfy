/** The arithmetic behind the two binary shifts of a decimal digit string. */
module ShiftMath {
  import opened Powers
  import opened DigitSeq
  import opened DigitView
  import opened CheatTable

  /** 0.s < 0.c, the comparison made by prefixIsLessThan. */
  ghost predicate FractionBelow(s: seq<Digit>, c: seq<Digit>) {
    Val(s) * Pow(10, |c|) < Val(c) * Pow(10, |s|)
  }

  /** The table predicts the exact number of digits of Val(s) * 2^k. */
  lemma PredictedLength(s: seq<Digit>, k: nat, less: bool)
    requires s != [] && s[0] != 0 && 0 < k <= MAX_SHIFT
    requires less <==> FractionBelow(s, Digits(Row(k).cutoff))
    ensures var n := |s| + Row(k).delta - (if less then 1 else 0);
            n > 0 && Pow(10, n - 1) <= Val(s) * Pow(2, k) < Pow(10, n)
  {
    hide Row, Val, Pow, Digits;
    TableCorrect(k);
    var d, v, m := Row(k).delta, Val(s), |s|;
    var c := Digits(Pow(5, k));
    CutoffLength(k, d, c);
    ValLower(s);
    ValBound(s);
    ProductBounds(v, m, k, d);
    CutoffSplits(v, m, k, d, |c|);
  }

  /** The cutoff 5^k has k + 1 - delta digits. */
  lemma CutoffLength(k: nat, d: nat, c: seq<Digit>)
    requires k > 0 && d > 0 && Pow(10, d - 1) < Pow(2, k) < Pow(10, d)
    requires c == Digits(Pow(5, k))
    ensures d <= k && |c| == k + 1 - d
  {
    hide Pow, Digits;
    PowPositive(5, k);
    PowPositive(2, k);
    PowMul(2, 5, k);
    PowLess(k);
    if d > k {
      PowMonotone(10, k, d - 1);
    }
    PowAdd(10, d - 1, k + 1 - d);
    PowAdd(10, d, k - d);
    FactorBounds(Pow(2, k), Pow(5, k), Pow(10, d - 1), Pow(10, d), Pow(10, k + 1 - d), Pow(10, k - d));
    LengthByValue(c, k + 1 - d);
  }

  lemma PowLess(k: nat)
    ensures Pow(2, k) <= Pow(10, k)
  {
    if k > 0 {
      PowLess(k - 1);
    }
  }

  lemma FactorBounds(two: nat, five: nat, lo: nat, hi: nat, x: nat, y: nat)
    requires 0 < lo < two < hi && five > 0
    requires two * five == lo * x && two * five == hi * y
    ensures y <= five < x
  {
    if five >= x {
      MulLess(lo, two, five);
      MulLe(x, five, lo);
      assert false;
    }
    if five < y {
      MulLess(two, hi, five);
      MulLe(five, y, hi);
      assert false;
    }
  }

  lemma ProductBounds(v: nat, m: nat, k: nat, d: nat)
    requires m > 0 && d > 0 && Pow(10, m - 1) <= v < Pow(10, m)
    requires Pow(10, d - 1) < Pow(2, k) < Pow(10, d)
    ensures Pow(10, m + d - 2) <= v * Pow(2, k) < Pow(10, m + d)
  {
    hide Pow;
    PowAdd(10, m - 1, d - 1);
    PowAdd(10, m, d);
    PowPositive(10, d);
    MulBetween(Pow(10, m - 1), v, Pow(10, m), Pow(10, d - 1), Pow(2, k), Pow(10, d));
  }

  lemma MulBetween(a: nat, v: nat, b: nat, c: nat, w: nat, e: nat)
    requires a <= v < b && c < w < e
    ensures a * c <= v * w < b * e
  {
    MulLe(a, v, c);
    MulLe(c, w, v);
    MulLe(v, b, w);
    MulLess(w, e, b);
  }

  lemma CutoffSplits(v: nat, m: nat, k: nat, d: nat, len: nat)
    requires m > 0 && 0 < d <= k && len == k + 1 - d
    ensures v * Pow(10, len) < Pow(5, k) * Pow(10, m) <==> v * Pow(2, k) < Pow(10, m + d - 1)
  {
    hide Pow;
    var two, five := Pow(2, k), Pow(5, k);
    PowPositive(2, k);
    PowPositive(10, len);
    PowMul(2, 5, k);
    PowAdd(10, k, m);
    PowAdd(10, m + d - 1, len);
    assert k + m == m + d - 1 + len;
    calc {
      (five * Pow(10, m)) * two;
      { Reorder(five, Pow(10, m), two); }
      (two * five) * Pow(10, m);
      Pow(10, m + d - 1) * Pow(10, len);
    }
    Reorder(v, Pow(10, len), two);
    assert (v * Pow(10, len)) * two == (v * two) * Pow(10, len) by {
      Reorder(v, Pow(10, len), two);
      Reorder(two, v, Pow(10, len));
    }
    LessScaled(v * Pow(10, len), five * Pow(10, m), two);
    LessScaled(v * two, Pow(10, m + d - 1), Pow(10, len));
  }

  lemma Reorder(a: nat, b: nat, c: nat)
    ensures (a * b) * c == (c * a) * b == (b * a) * c
  {
  }

  lemma LessScaled(a: nat, b: nat, k: nat)
    requires k > 0
    ensures a < b <==> a * k < b * k
  {
    if a < b {
      MulLess(a, b, k);
    } else {
      MulLe(b, a, k);
    }
  }

  /** The length of the shifted digits, row 0 included. */
  lemma NewLength(s: seq<Digit>, k: nat, less: bool)
    requires s != [] && s[0] != 0 && k <= MAX_SHIFT
    requires less <==> FractionBelow(s, Digits(Row(k).cutoff))
    ensures less ==> Row(k).delta > 0
    ensures HasLength(Part(s, 0, Pow(2, k)), |s| + Row(k).delta - (if less then 1 else 0))
  {
    assert s[0..] == s;
    if k == 0 {
      ValLower(s);
      ValBound(s);
    } else {
      hide Val, Pow, Digits, Row;
      TableCorrect(k);
      PredictedLength(s, k, less);
    }
  }

  ghost predicate HasLength(v: int, len: int) {
    len > 0 && Pow(10, len - 1) <= v < Pow(10, len)
  }

  lemma CutoffTrimmed(k: nat)
    requires k <= MAX_SHIFT
    ensures var c := Digits(Row(k).cutoff); c != [] ==> c[|c| - 1] != 0
  {
    hide Row;
    TableCorrect(k);
    if k > 0 {
      PowFiveOdd(k);
    }
  }

  lemma PowFiveOdd(k: nat)
    ensures Pow(5, k) % 2 == 1
  {
    if k > 0 {
      PowFiveOdd(k - 1);
    }
  }

  lemma WordBound(p: nat, k: nat)
    requires k <= MAX_SHIFT && p == Pow(2, k)
    ensures 0 < p && 10 * p < 0x1_0000_0000_0000_0000
  {
    PowPositive(2, k);
    PowMonotone(2, k, MAX_SHIFT);
    assert Pow(2, 12) == 4096;
    PowAdd(2, 12, 12);
    PowAdd(2, 24, 12);
    PowAdd(2, 36, 12);
    PowAdd(2, 48, 12);
  }

  /** The carry of a left shift stays below ten times 2^k, so it fits the machine word. */
  lemma CarryFits(n: nat, d: Digit, p: nat, k: nat)
    requires k <= MAX_SHIFT && p == Pow(2, k) && n < p
    ensures n + d * p < 10 * p < 0x1_0000_0000_0000_0000
  {
    WordBound(p, k);
    MulLe(d, 9, p);
  }

  /** The digits from r on, times p. */
  ghost function Part(s: seq<Digit>, r: nat, p: nat): nat
    requires r <= |s|
  {
    Val(s[r..]) * p
  }

  /** total has been written out as digits, apart from the carry. */
  ghost predicate Carries(total: nat, carry: nat, out: seq<Digit>) {
    total == carry * Pow(10, |out|) + Val(out)
  }

  lemma CarriesNothing(s: seq<Digit>, p: nat)
    ensures Carries(Part(s, |s|, p), 0, [])
  {
  }

  /** One digit moves from the carry to the front of the output. */
  lemma StepCarry(total: nat, carry: nat, out: seq<Digit>)
    requires Carries(total, carry, out)
    ensures Carries(total, carry / 10, [carry % 10] + out)
  {
    hide Val;
    ValCons(carry % 10, out);
    SplitTen(carry, Pow(10, |out|));
  }

  lemma SplitTen(c: nat, x: nat)
    ensures c * x == (c / 10) * (10 * x) + (c % 10) * x
  {
    assert c == 10 * (c / 10) + c % 10;
    calc {
      c * x;
      (10 * (c / 10) + c % 10) * x;
      10 * (c / 10) * x + (c % 10) * x;
    }
  }

  /** The next digit of the old string joins the carry. */
  lemma StepDown(s: seq<Digit>, r: nat, n: nat, p: nat, out: seq<Digit>)
    requires r < |s| && |out| == |s| - r - 1
    requires Carries(Part(s, r + 1, p), n, out)
    ensures Carries(Part(s, r, p), n + s[r] * p, out)
  {
    hide Pow, Val;
    assert s[r..] == [s[r]] + s[r + 1..];
    ValCons(s[r], s[r + 1..]);
    Distribute(s[r], Pow(10, |out|), Val(s[r + 1..]), p, n, Val(out));
  }

  lemma Distribute(d: nat, x: nat, v: nat, p: nat, n: nat, o: nat)
    requires v * p == n * x + o
    ensures (d * x + v) * p == (n + d * p) * x + o
  {
    calc {
      (d * x + v) * p;
      (d * x) * p + v * p;
      (d * p) * x + n * x + o;
      (n + d * p) * x + o;
    }
  }

  lemma CarryMeansMore(total: nat, n: nat, out: seq<Digit>, len: nat)
    requires HasLength(total, len) && n > 0 && Carries(total, n, out)
    ensures |out| < len
  {
    if |out| >= len {
      PowMonotone(10, len, |out|);
      MulGrows(n, Pow(10, |out|));
      assert false;
    }
  }

  lemma AllWritten(total: nat, out: seq<Digit>, len: nat)
    requires HasLength(total, len) && Carries(total, 0, out) && |out| <= len
    ensures |out| == len && out == Digits(total)
  {
    ValBound(out);
    if |out| < len {
      PowMonotone(10, |out|, len - 1);
      assert false;
    }
    LengthByValue(Digits(total), len);
    ValInjective(out, Digits(total));
  }

  /** The first j digits as a number, with zeros after the last digit. */
  ghost function Padded(s: seq<Digit>, j: nat): nat {
    if j <= |s| then Val(s[..j]) else Val(s) * Pow(10, j - |s|)
  }

  lemma PaddedStep(s: seq<Digit>, j: nat)
    ensures Padded(s, j + 1) == 10 * Padded(s, j) + (if j < |s| then s[j] else 0)
  {
    if j < |s| {
      assert s[..j + 1] == s[..j] + [s[j]];
      ValPush(s[..j], s[j]);
    } else {
      assert s[..|s|] == s;
      MulStep(Val(s), Pow(10, j - |s|));
    }
  }

  /** Long division by p: out has been emitted, n is left over, one digit ahead. */
  ghost predicate Divided(s: seq<Digit>, j: nat, p: nat, out: seq<Digit>, n: nat) {
    Padded(s, j) == 10 * (p * Val(out)) + n
  }

  lemma DivisionStart(s: seq<Digit>, j: nat, p: nat)
    ensures Divided(s, j, p, [], Padded(s, j))
  {
  }

  /** n >> k */
  function ShiftedDown(n: nat, k: nat): nat {
    PowPositive(2, k);
    n / Pow(2, k)
  }

  /** n & (1 << k - 1) */
  function Masked(n: nat, k: nat): nat {
    PowPositive(2, k);
    n % Pow(2, k)
  }

  /** Emits the next quotient digit and takes the next digit, or a zero. */
  lemma DivisionStep(s: seq<Digit>, j: nat, k: nat, out: seq<Digit>, n: nat)
    requires n < 10 * Pow(2, k) && Divided(s, j, Pow(2, k), out, n)
    ensures ShiftedDown(n, k) < 10 && Masked(n, k) * 10 + 9 < 10 * Pow(2, k)
    ensures Divided(s, j + 1, Pow(2, k), out + [ShiftedDown(n, k)], Masked(n, k) * 10 + (if j < |s| then s[j] else 0))
    ensures n >= Pow(2, k) ==> ShiftedDown(n, k) > 0
    ensures n > 0 && Masked(n, k) == 0 ==> ShiftedDown(n, k) > 0
  {
    hide Padded, Val;
    var p, q, r := Pow(2, k), ShiftedDown(n, k), Masked(n, k);
    PowPositive(2, k);
    QuotientDigit(n, p);
    hide ShiftedDown, Masked, Pow;
    PaddedStep(s, j);
    ValPush(out, q);
    DistributeDigit(p, Val(out), q);
  }

  lemma QuotientDigit(n: nat, p: nat)
    requires p > 0 && n < 10 * p
    ensures n / p < 10 && n == p * (n / p) + n % p && 0 <= n % p < p
    ensures n >= p ==> n / p > 0
    ensures n > 0 && n % p == 0 ==> n / p > 0
  {
    SmallQuotient(n, p, n / p);
  }

  lemma SmallQuotient(n: nat, p: nat, q: nat)
    requires p * q <= n < 10 * p
    ensures q < 10
  {
    if q >= 10 {
      MulLe(10, q, p);
    }
  }

  lemma DistributeDigit(p: nat, v: nat, q: nat)
    ensures 10 * (p * v) + p * q == p * (10 * v + q)
  {
  }

  /** Each step of the tail of a right shift adds a factor of two to the remainder. */
  lemma TwosGrow(n: nat, t: nat, k: nat)
    requires Twos(n, t) && t <= k
    ensures Twos(Masked(n, k) * 10, t + 1)
    ensures t == k ==> Masked(n, k) == 0
  {
    var m: nat :| n == m * Pow(2, t);
    PowPositive(2, t);
    MaskedSplit(n, k);
    if t == k {
      MaskedMultiple(m, k);
    }
    hide Pow, ShiftedDown, Masked;
    var x, y, q, r := Pow(2, t), Pow(2, k - t), ShiftedDown(n, k), Masked(n, k);
    PowAdd(2, t, k - t);
    PowAdd(2, t, 1);
    PowOne();
    Factor(n, x, y, q, r, m);
    var z := m - y * q;
    NonnegFactor(x, z);
    TenIsTwoFive(x, z);
    assert r * 10 == (5 * z) * Pow(2, t + 1);
  }

  lemma MaskedSplit(n: nat, k: nat)
    ensures n == Pow(2, k) * ShiftedDown(n, k) + Masked(n, k)
  {
    PowPositive(2, k);
  }

  lemma MaskedMultiple(m: nat, k: nat)
    ensures Masked(m * Pow(2, k), k) == 0
  {
    PowPositive(2, k);
    ModOfMultiple(Pow(2, k), m);
  }

  lemma NonnegFactor(x: nat, z: int)
    requires x > 0 && x * z >= 0
    ensures z >= 0
  {
  }

  lemma PowOne()
    ensures Pow(2, 1) == 2
  {
  }

  lemma Factor(n: nat, x: nat, y: nat, q: nat, r: nat, m: nat)
    requires n == m * x && n == (x * y) * q + r
    ensures r == x * (m - y * q)
  {
    calc {
      x * (m - y * q);
      x * m - x * (y * q);
      x * m - (x * y) * q;
      r;
    }
  }

  lemma TenIsTwoFive(x: int, z: int)
    ensures (x * z) * 10 == (5 * z) * (x * 2)
  {
  }

  lemma ModOfMultiple(a: int, b: int)
    requires a > 0
    ensures (a * b) % a == 0
  {
    var q, r := (a * b) / a, (a * b) % a;
    assert a * b == a * q + r && 0 <= r < a;
    assert a * (b - q) == r;
    SmallMultiple(a, b - q);
  }

  /** When nothing is left, the output is D * 5^k without its trailing zeros. */
  lemma DivisionEnds(s: seq<Digit>, r0: nat, k: nat, out: seq<Digit>)
    requires s != [] && out != [] && out[|out| - 1] != 0 && out[0] != 0
    requires r0 + |out| > |s| && Divided(s, r0 + |out|, Pow(2, k), out, 0)
    ensures var m := r0 + |out| - |s| - 1;
            m <= k && Val(s) * Pow(5, k) == Val(out) * Pow(10, k - m)
  {
    hide Val;
    var m := r0 + |out| - |s| - 1;
    var v, o, two, five := Val(s), Val(out), Pow(2, k), Pow(5, k);
    assert Padded(s, r0 + |out|) == v * Pow(10, m + 1);
    MulStep(v, Pow(10, m));
    assert v * Pow(10, m) == two * o;
    hide Pow;
    PowPositive(2, k);
    PowMul(2, 5, k);
    if m <= k {
      PowAdd(10, m, k - m);
      CancelLow(v, o, two, five, Pow(10, m), Pow(10, k - m));
    } else {
      PowAdd(10, k, m - k);
      CancelHigh(v, o, two, five, Pow(10, m - k));
      TenDivides(m - k, v * five);
      LastDigit(out);
      assert false;
    }
  }

  lemma CancelLow(v: nat, o: nat, two: nat, five: nat, x: nat, y: nat)
    requires two > 0 && v * x == two * o && two * five == x * y
    ensures v * five == o * y
  {
    calc {
      two * (v * five);
      v * (two * five);
      v * (x * y);
      (v * x) * y;
      (two * o) * y;
      two * (o * y);
    }
    CancelFactor(two, v * five, o * y);
  }

  lemma CancelHigh(v: nat, o: nat, two: nat, five: nat, y: nat)
    requires two > 0 && v * ((two * five) * y) == two * o
    ensures o == (v * five) * y
  {
    calc {
      two * ((v * five) * y);
      v * ((two * five) * y);
    }
    CancelFactor(two, o, (v * five) * y);
  }

  lemma CancelFactor(t: int, a: int, b: int)
    requires t > 0 && t * a == t * b
    ensures a == b
  {
    if a < b {
      MulLess(a, b, t);
    } else if b < a {
      MulLess(b, a, t);
    }
  }

  lemma TenDivides(e: nat, a: nat)
    requires e > 0
    ensures (a * Pow(10, e)) % 10 == 0
  {
    MulStep(a, Pow(10, e - 1));
    ModOfMultiple(10, a * Pow(10, e - 1));
  }

  lemma LastDigit(s: seq<Digit>)
    requires s != []
    ensures Val(s) % 10 == s[|s| - 1]
  {
  }

  lemma PaddedNone(s: seq<Digit>)
    ensures Padded(s, 0) == 0
  {
  }

  lemma BelowDivisor(n: nat, k: nat)
    ensures ShiftedDown(n, k) == 0 <==> n < Pow(2, k)
  {
    PowPositive(2, k);
    QuotientZero(n, Pow(2, k));
  }

  lemma QuotientZero(n: nat, p: nat)
    requires p > 0
    ensures n / p == 0 <==> n < p
  {
  }

  /** n is divisible by 2^t. */
  ghost predicate Twos(n: nat, t: nat) {
    exists m: nat :: n == m * Pow(2, t)
  }

  lemma TwosStart(n: nat)
    ensures Twos(n, 0)
  {
    assert n == n * Pow(2, 0);
  }

  lemma SameDigits(s: seq<Digit>)
    requires s != [] && s[0] != 0
    ensures Digits(Val(s)) == s
  {
    hide Val, Digits, Pow;
    ValLower(s);
    ValBound(s);
    LengthByValue(Digits(Val(s)), |s|);
    ValInjective(s, Digits(Val(s)));
  }
}
