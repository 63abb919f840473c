/** Integer powers of a fixed base and their real-valued extension to negative exponents. */
module Powers {

  function Pow(b: nat, e: nat): nat {
    if e == 0 then 1 else b * Pow(b, e - 1)
  }

  lemma PowPositive(b: nat, e: nat)
    requires b > 0
    ensures Pow(b, e) > 0
  {
    if e > 0 {
      PowPositive(b, e - 1);
    }
  }

  lemma {:induction false} PowAdd(b: nat, x: nat, y: nat)
    ensures Pow(b, x + y) == Pow(b, x) * Pow(b, y)
  {
    hide Pow;
    if x == 0 {
      PowZero(b);
    } else {
      PowAdd(b, x - 1, y);
      PowNext(b, x - 1);
      PowNext(b, x - 1 + y);
      ThreeInts(b, Pow(b, x - 1), Pow(b, y));
    }
  }

  lemma PowZero(b: nat)
    ensures Pow(b, 0) == 1
  {
  }

  lemma PowNext(b: nat, e: nat)
    ensures Pow(b, e + 1) == b * Pow(b, e)
  {
  }

  lemma ThreeInts(a: int, b: int, c: int)
    ensures a * (b * c) == (a * b) * c
  {
  }

  lemma {:induction false} PowMul(a: nat, b: nat, e: nat)
    ensures Pow(a * b, e) == Pow(a, e) * Pow(b, e)
  {
    if e > 0 {
      PowMul(a, b, e - 1);
      MulSwap(a, b, Pow(a, e - 1), Pow(b, e - 1));
    }
  }

  lemma MulSwap(a: int, b: int, p: int, q: int)
    ensures (a * b) * (p * q) == (a * p) * (b * q)
  {
    calc {
      (a * b) * (p * q);
      a * (b * (p * q));
      a * (p * (b * q));
      (a * p) * (b * q);
    }
  }

  lemma {:induction false} PowMonotone(b: nat, x: nat, y: nat)
    requires b > 0 && x <= y
    ensures Pow(b, x) <= Pow(b, y)
  {
    if x < y {
      PowMonotone(b, x, y - 1);
      PowPositive(b, y - 1);
      MulGrows(b, Pow(b, y - 1));
    }
  }

  lemma MulGrows(b: nat, p: nat)
    requires b > 0
    ensures p <= b * p && p <= p * b
  {
  }

  /** b^e for every integer exponent. */
  ghost function Scale(b: nat, e: int): (r: real)
    requires b > 0
    ensures r > 0.0
  {
    PowPositive(b, if e >= 0 then e else -e);
    if e >= 0 then Pow(b, e) as real else 1.0 / (Pow(b, -e) as real)
  }

  lemma ScaleStep(b: nat, e: int)
    requires b > 0
    ensures Scale(b, e + 1) == b as real * Scale(b, e)
  {
    if e >= 0 {
      var p := Pow(b, e);
      assert Pow(b, e + 1) == b * p;
      ProductReal(b, p);
    } else {
      var p := Pow(b, -e - 1);
      PowPositive(b, -e - 1);
      assert Pow(b, -e) == b * p;
      assert Scale(b, e + 1) == 1.0 / (p as real);
      hide Pow;
      InverseStep(b, p);
    }
  }

  lemma ProductReal(b: int, p: int)
    ensures (b * p) as real == b as real * p as real
  {
  }

  lemma InverseStep(b: nat, p: nat)
    requires b > 0 && p > 0
    ensures (b * p) as real > 0.0 && b as real * (1.0 / ((b * p) as real)) == 1.0 / (p as real)
  {
    ProductReal(b, p);
    RealCancel(b as real, p as real);
  }

  lemma RealCancel(b: real, p: real)
    requires b > 0.0 && p > 0.0
    ensures b * p > 0.0
    ensures b * (1.0 / (b * p)) == 1.0 / p
  {
    assert b * p > 0.0;
    var q := 1.0 / (b * p);
    assert q * (b * p) == 1.0;
    assert (b * q) * p == 1.0;
  }

  lemma ScaleZero(b: nat)
    requires b > 0
    ensures Scale(b, 0) == 1.0
  {
  }

  lemma {:induction false} ScaleAddNat(b: nat, x: int, y: nat)
    requires b > 0
    ensures Scale(b, x + y) == Scale(b, x) * Scale(b, y)
  {
    hide Scale;
    if y == 0 {
      ScaleZero(b);
    } else {
      ScaleAddNat(b, x, y - 1);
      ScaleStep(b, x + (y - 1));
      ScaleStep(b, y - 1);
      assert x + y == x + (y - 1) + 1;
      RealAssoc(b as real, Scale(b, x), Scale(b, y - 1));
    }
  }

  lemma ScaleNeg(b: nat, e: int)
    requires b > 0
    ensures Scale(b, e) * Scale(b, -e) == 1.0
  {
    hide Scale;
    ScaleZero(b);
    if e >= 0 {
      ScaleAddNat(b, -e, e);
    } else {
      ScaleAddNat(b, e, -e);
    }
  }

  lemma ScaleAdd(b: nat, x: int, y: int)
    requires b > 0
    ensures Scale(b, x + y) == Scale(b, x) * Scale(b, y)
  {
    hide Scale;
    if y >= 0 {
      ScaleAddNat(b, x, y);
    } else {
      ScaleAddNat(b, x + y, -y);
      ScaleNeg(b, y);
      RealUndo(Scale(b, x), Scale(b, x + y), Scale(b, -y), Scale(b, y));
    }
  }

  lemma RealUndo(x: real, z: real, p: real, q: real)
    requires x == z * p && q * p == 1.0
    ensures z == x * q
  {
    assert x * q == (z * p) * q == z * (p * q);
  }

  lemma RealAssoc(b: real, x: real, y: real)
    ensures x * (b * y) == b * (x * y)
  {
  }

  lemma ScaleNat(b: nat, e: nat)
    requires b > 0
    ensures Scale(b, e) == Pow(b, e) as real
  {
  }

  lemma EighteenPow()
    ensures Pow(10, 18) == 1_000_000_000_000_000_000
  {
    assert Pow(10, 9) == 1_000_000_000;
    PowAdd(10, 9, 9);
  }

  // ---- arithmetic

  lemma MulLe(a: int, b: int, k: nat)
    requires a <= b
    ensures a * k <= b * k
  {
  }

  lemma TimesNext(q: int, n: int)
    ensures (q + 1) * n == q * n + n && n * (q + 1) == n * q + n
  {
  }

  lemma QuotientBack(x: nat, n: nat, q: nat, r: nat)
    requires n > 0 && q == x / n && r == x % n
    ensures x == q * n + r
  {
  }

  lemma RemainderIs(x: nat, q: nat, n: nat, r: nat)
    requires r < n && x == q * n + r
    ensures x % n == r && x / n == q
  {
    var d, m := x / n, x % n;
    QuotientBack(x, n, d, m);
    if d < q {
      MulLe(d + 1, q, n);
      TimesNext(d, n);
    } else if q < d {
      MulLe(q + 1, d, n);
      TimesNext(q, n);
    }
  }

  lemma SmallMultiple(a: int, c: int)
    requires 0 <= a * c < a
    ensures c == 0
  {
  }

  lemma RealLe(a: real, b: real, c: real)
    requires a <= b && c >= 0.0
    ensures a * c <= b * c && c * a <= c * b
  {
  }

  lemma Spread(k: real, r: real, t: real)
    ensures (k - r) * t == k * t - r * t && (k + r) * t == k * t + r * t
  {
  }

  lemma CommuteReal(a: real, b: real)
    ensures a * b == b * a
  {
  }

  lemma ThreeReals(a: real, b: real, c: real)
    ensures (a * b) * c == a * (b * c) && (a * b) * c == a * (c * b)
  {
  }

  lemma CommuteInt(a: int, b: int)
    ensures a * b == b * a
  {
  }
}
