/** Sizes: powers of ten against powers of two, and how many digits a float and its midpoints need. */
module FloatBounds {
  import opened Powers
  import opened DigitSeq
  import opened DigitView
  import opened ShiftMath
  import opened ExactShift
  import opened FloatFormat
  import opened DigitWalk

  lemma {:induction false} PowTower(b: nat, x: nat, y: nat)
    ensures Pow(b, x * y) == Pow(Pow(b, x), y)
  {
    if y > 0 {
      PowTower(b, x, y - 1);
      PowAdd(b, x, x * (y - 1));
      assert x + x * (y - 1) == x * y;
    }
  }

  lemma {:induction false} BaseOrder(a: nat, b: nat, e: nat)
    requires a <= b
    ensures Pow(a, e) <= Pow(b, e)
    ensures a < b && e > 0 ==> Pow(a, e) < Pow(b, e)
  {
    if e > 0 {
      BaseOrder(a, b, e - 1);
      var x, y := Pow(a, e - 1), Pow(b, e - 1);
      if b > 0 {
        PowPositive(b, e - 1);
      }
      TwoFactors(a, x, b, y);
    }
  }

  lemma TwoFactors(a: nat, x: nat, b: nat, y: nat)
    requires a <= b && x <= y && (b > 0 ==> y > 0)
    ensures a * x <= b * y
    ensures a < b ==> a * x < b * y
  {
    MulLe(x, y, a);
    MulLe(a, b, y);
    if a < b {
      MulLess(a, b, y);
    }
  }

  const TWO_166 := 93536104789177786765035829293842113257979682750464
  const TWO_332 :=
    8749002899132047697490008908470485461412677723572849745703082425639811996797503692894052708092215296

  lemma BigTwo()
    ensures Pow(2, 332) == TWO_332
  {
    PowSmall();
    hide Pow;
    PowAdd(2, 11, 11);
    assert Pow(2, 22) == 2048 * 2048 == 4194304;
    PowAdd(2, 22, 22);
    assert Pow(2, 44) == 4194304 * 4194304 == 17592186044416;
    PowAdd(2, 22, 11);
    assert Pow(2, 33) == 4194304 * 2048 == 8589934592;
    PowAdd(2, 44, 33);
    assert Pow(2, 77) == 17592186044416 * 8589934592 == 151115727451828646838272;
    PowAdd(2, 77, 6);
    assert Pow(2, 83) == 151115727451828646838272 * 64 == 9671406556917033397649408;
    PowAdd(2, 83, 83);
    assert Pow(2, 166) == 9671406556917033397649408 * 9671406556917033397649408 == TWO_166;
    PowAdd(2, 166, 166);
    assert Pow(2, 332) == TWO_166 * TWO_166 == TWO_332;
  }

  lemma BigTen()
    ensures Pow(10, 25) == 10_000_000_000_000_000_000_000_000
    ensures Pow(10, 97) == Pow(10, 25) * Pow(10, 25) * Pow(10, 25) * Pow(10, 22)
    ensures Pow(10, 22) == 10_000_000_000_000_000_000_000
    ensures Pow(10, 100) == 1000 * Pow(10, 97)
  {
    PowSmall();
    assert Pow(10, 2) == 100 && Pow(10, 3) == 1000;
    hide Pow;
    PowAdd(10, 5, 5);
    assert Pow(10, 10) == 100000 * 100000 == 10000000000;
    PowAdd(10, 10, 10);
    assert Pow(10, 20) == 10000000000 * 10000000000 == 100000000000000000000;
    PowAdd(10, 20, 2);
    PowAdd(10, 20, 5);
    PowAdd(10, 25, 25);
    PowAdd(10, 50, 25);
    PowAdd(10, 75, 22);
    PowAdd(10, 97, 3);
  }

  /** log2(10) lies between 3.32 and 3.33, and 2^332 is close below 10^100. */
  lemma LogTen()
    ensures Pow(2, 332) < Pow(10, 100) < Pow(2, 333)
    ensures 800 * Pow(10, 97) <= Pow(2, 332) <= 875 * Pow(10, 97)
  {
    PowSmall();
    hide Pow;
    BigTwo();
    BigTen();
    PowAdd(2, 332, 1);
  }

  lemma PowSmall()
    ensures Pow(2, 1) == 2 && Pow(2, 6) == 64 && Pow(2, 11) == 2048 && Pow(10, 5) == 100000
  {
  }

  /** The smallest floats against powers of ten: 2^1075 is 0.4 * 10^324, and 2^150 is 1.43 * 10^45. */
  lemma SmallestDouble()
    ensures 3 * Pow(10, 324) < 10 * Pow(2, 1075) && 19 * Pow(2, 1075) <= 8 * Pow(10, 324)
  {
    hide *;
    var t, p := Pow(2, 332), Pow(10, 97);
    LogTen();
    PowPositive(10, 97);
    ThirdOf1075();
    ThirdOf324();
    Cubes(t, p, 875);
    Cubes(800 * p, t, 1);
    CubeOut(p, 800);
    CubePositive(p);
    ScaledBounds(t * t * t, p * p * p);
  }

  lemma CubePositive(p: nat)
    requires p > 0
    ensures p * p * p > 0
  {
    ProductPositive(p, p);
    ProductPositive(p * p, p);
  }

  lemma ThirdOf1075()
    ensures Pow(2, 1075) == (Pow(2, 332) * Pow(2, 332) * Pow(2, 332)) * 604462909807314587353088
  {
    PowSmall();
    assert Pow(2, 13) == 8192;
    hide Pow;
    PowAdd(2, 11, 11);
    PowAdd(2, 22, 22);
    PowAdd(2, 44, 22);
    PowAdd(2, 66, 13);
    assert Pow(2, 79) == 604462909807314587353088;
    PowAdd(2, 332, 332);
    PowAdd(2, 664, 332);
    PowAdd(2, 996, 79);
  }

  lemma ThirdOf324()
    ensures Pow(10, 324) ==
            (Pow(10, 97) * Pow(10, 97) * Pow(10, 97)) * 1_000_000_000_000_000_000_000_000_000_000_000
  {
    assert Pow(10, 8) == 100000000;
    hide Pow;
    BigTen();
    PowAdd(10, 25, 8);
    PowAdd(10, 97, 97);
    PowAdd(10, 194, 97);
    PowAdd(10, 291, 33);
  }

  /** A cube bounded by a multiple. */
  lemma Cubes(t: nat, p: nat, c: nat)
    requires t <= c * p
    ensures t * t * t <= (c * c * c) * (p * p * p)
  {
    var w := c * p;
    TwoFactors(t, t, w, w);
    TwoFactors(t * t, t, w * w, w);
    CubeOut(p, c);
  }

  lemma CubeOut(p: nat, c: nat)
    ensures (c * p) * (c * p) * (c * p) == (c * c * c) * (p * p * p)
  {
    MulSwap(c, p, c, p);
    MulSwap(c * c, p * p, c, p);
    assert (c * p) * (c * p) == (c * c) * (p * p);
  }

  lemma ScaledBounds(a: nat, q: nat)
    requires q > 0 && 512000000 * q <= a <= 669921875 * q
    ensures 3 * (q * 1_000_000_000_000_000_000_000_000_000_000_000) < 10 * (a * 604462909807314587353088)
    ensures 19 * (a * 604462909807314587353088) <= 8 * (q * 1_000_000_000_000_000_000_000_000_000_000_000)
  {
  }

  lemma SmallestSingle()
    ensures 13 * Pow(10, 45) < 10 * Pow(2, 150) && 19 * Pow(2, 150) <= 28 * Pow(10, 45)
  {
    PowSmall();
    assert Pow(2, 7) == 128;
    hide Pow;
    BigTen();
    PowAdd(10, 5, 5);
    PowAdd(10, 10, 10);
    PowAdd(10, 25, 20);
    PowAdd(2, 11, 11);
    PowAdd(2, 22, 11);
    PowAdd(2, 33, 33);
    PowAdd(2, 66, 11);
    PowAdd(2, 77, 66);
    PowAdd(2, 143, 7);
    assert Pow(2, 66) == 73786976294838206464 && Pow(2, 77) == 151115727451828646838272;
    assert Pow(2, 143) == 73786976294838206464 * 151115727451828646838272;
  }

  lemma TenAtLeastTwo(p: nat, k: nat)
    requires 100 * k <= 332 * p
    ensures Pow(2, k) <= Pow(10, p)
  {
    LogTen();
    hide Pow;
    PowTower(2, k, 100);
    PowTower(10, p, 100);
    PowTower(10, 100, p);
    PowTower(2, 332, p);
    PowMonotone(2, k * 100, 332 * p);
    BaseOrder(Pow(2, 332), Pow(10, 100), p);
    if Pow(10, p) < Pow(2, k) {
      BaseOrder(Pow(10, p), Pow(2, k), 100);
    }
  }

  lemma TenBelowTwo(q: nat, f: nat)
    requires 100 * f >= 332 * q && 0 < q <= 100
    ensures Pow(10, q) < Pow(2, f + 1)
  {
    LogTen();
    hide Pow;
    PowTower(2, f + 1, 100);
    PowTower(10, q, 100);
    PowTower(10, 100, q);
    PowTower(2, 333, q);
    PowMonotone(2, 333 * q, (f + 1) * 100);
    BaseOrder(Pow(10, 100), Pow(2, 333), q);
    if Pow(2, f + 1) <= Pow(10, q) {
      BaseOrder(Pow(2, f + 1), Pow(10, q), 100);
    }
  }

  /** The test 332 * p >= 100 * k compares 10^p with the half gap 2^(k-1), also for negative p. */
  lemma UnitBeatsHalfGap(p: int, k: int)
    requires 332 * p >= 100 * k && p >= -100
    ensures Num(1, p) > MulPow2(1.0, k - 1)
  {
    hide Pow, MulPow2, Num;
    if p >= 0 {
      PowerOfTen(p);
      if k > 0 {
        TenAtLeastTwo(p, k);
        PowerOfTwo(k);
        MulPow2Less(1.0, 2.0, k - 1);
        MulPow2Double(1.0, k);
      } else {
        PowPositive(10, p);
        MulPow2Zero(1.0);
        SmallerExponent(1, -k, k);
        MulPow2Less(1.0, 2.0, k - 1);
        MulPow2Double(1.0, k);
      }
    } else {
      TenBelowTwo(-p, -k);
      ReciprocalOfTen(-p);
      ReciprocalOfTwo(1 - k);
      PowPositive(10, -p);
      Reciprocals(Pow(10, -p) as real, Pow(2, 1 - k) as real, Num(1, p), MulPow2(1.0, k - 1));
    }
  }

  lemma PowerOfTen(p: nat)
    ensures Num(1, p) == Pow(10, p) as real
  {
    hide Pow;
    ScaleNat(10, p);
  }

  lemma PowerOfTwo(k: nat)
    ensures MulPow2(1.0, k) == Pow(2, k) as real
  {
    hide Pow;
    ScaleNat(2, k);
  }

  lemma ReciprocalOfTen(q: nat)
    ensures Num(1, 0 - q) * Pow(10, q) as real == 1.0
  {
    hide Scale, Pow;
    ScaleNat(10, q);
    ScaleNeg(10, q);
  }

  lemma ReciprocalOfTwo(q: nat)
    ensures MulPow2(1.0, 0 - q) * Pow(2, q) as real == 1.0
  {
    hide Scale, Pow;
    ScaleNat(2, q);
    ScaleNeg(2, q);
  }

  lemma Reciprocals(a: real, b: real, x: real, y: real)
    requires 0.0 < a < b && x * a == 1.0 && y * b == 1.0
    ensures x > y
  {
    PositiveProduct(a, b);
    calc {
      x * (a * b);
      (x * a) * b;
      b;
    }
    calc {
      y * (a * b);
      (y * b) * a;
      a;
    }
    ScaledOrder(y, x, a * b);
  }

  // ---- half the smallest float among the powers of ten

  predicate Standard(flt: FloatInfo) {
    flt == FLOAT32 || flt == FLOAT64
  }

  ghost function SmallestGap(flt: FloatInfo): real {
    MulPow2(1.0, flt.MinExp() - flt.mantbits - 1)
  }

  /** The nearest power of ten, with bounds for the quotient. */
  lemma NearestTen(flt: FloatInfo) returns (k: int)
    requires Standard(flt)
    ensures var u, h := Num(1, k), SmallestGap(flt);
            && u > 0.0 && h > 0.0
            && (flt == FLOAT64 ==> 3.0 * h < 10.0 * u && 19.0 * u <= 8.0 * h)
            && (flt == FLOAT32 ==> 13.0 * h < 10.0 * u && 19.0 * u <= 28.0 * h)
  {
    hide Pow, MulPow2, Num;
    var q, f := if flt == FLOAT64 then 324 else 45, if flt == FLOAT64 then 1075 else 150;
    k := 0 - q;
    var a, b := Pow(2, f), Pow(10, q);
    PowPositive(2, f);
    PowPositive(10, q);
    ReciprocalOfTen(q);
    ReciprocalOfTwo(f);
    if flt == FLOAT64 {
      SmallestDouble();
      Inverted(a as real, b as real, Num(1, k), SmallestGap(flt), 3.0, 10.0, 8.0);
    } else {
      SmallestSingle();
      Inverted(a as real, b as real, Num(1, k), SmallestGap(flt), 13.0, 10.0, 28.0);
    }
  }

  lemma Inverted(a: real, b: real, u: real, h: real, c: real, d: real, e: real)
    requires a > 0.0 && b > 0.0 && u * b == 1.0 && h * a == 1.0
    requires c * b < d * a && 19.0 * a <= e * b
    ensures u > 0.0 && h > 0.0 && c * h < d * u && 19.0 * u <= e * h
  {
    PositiveProduct(a, b);
    assert (c * h) * (a * b) == c * b by {
      assert (c * h) * (a * b) == (c * b) * (h * a);
    }
    assert (d * u) * (a * b) == d * a by {
      assert (d * u) * (a * b) == (d * a) * (u * b);
    }
    assert (19.0 * u) * (a * b) == 19.0 * a by {
      assert (19.0 * u) * (a * b) == (19.0 * a) * (u * b);
    }
    assert (e * h) * (a * b) == e * b by {
      assert (e * h) * (a * b) == (e * b) * (h * a);
    }
    ScaledOrder(c * h, d * u, a * b);
    ScaledOrder(e * h, 19.0 * u, a * b);
    OneFactorPositive(u, b);
    OneFactorPositive(h, a);
  }

  lemma OneFactorPositive(x: real, y: real)
    requires y > 0.0 && x * y == 1.0
    ensures x > 0.0
  {
    if x <= 0.0 {
      ScaledOrder(x, 0.0, y);
    }
  }

  /** For the nine smallest floats no power of ten lies where a one-digit number below it could be nearer. */
  lemma UnitApart(m: nat, k: int, flt: FloatInfo)
    requires Standard(flt) && 1 <= m <= 9
    requires 10.0 * Num(1, k) <= (2 * m + 1) as real * SmallestGap(flt)
    ensures 19.0 * Num(1, k) <= (4 * m) as real * SmallestGap(flt)
  {
    hide *;
    var k0 := NearestTen(flt);
    if k > k0 {
      TenTimes(k0, k);
    } else if k < k0 {
      TenTimes(k, k0);
    }
    ApartBy(m, k - k0, Num(1, k), Num(1, k0), SmallestGap(flt), flt);
  }

  lemma TenTimes(k: int, k': int)
    requires k < k'
    ensures 10.0 * Num(1, k) <= Num(1, k')
  {
    MoveTen(1, 1, k);
    MoveTen(1, k' - k, k);
    PowMonotone(10, 1, k' - k);
    PowTen();
    hide Num, Pow;
    NumTimesTen(k);
    NumLess(10, Pow(10, k' - k), k);
  }

  lemma NumTimesTen(k: int)
    ensures Num(10, k) == 10.0 * Num(1, k)
  {
  }

  lemma ApartBy(m: nat, d: int, u: real, u0: real, h: real, flt: FloatInfo)
    requires Standard(flt) && 1 <= m <= 9 && h > 0.0 && u0 > 0.0
    requires flt == FLOAT64 ==> 3.0 * h < 10.0 * u0 && 19.0 * u0 <= 8.0 * h
    requires flt == FLOAT32 ==> 13.0 * h < 10.0 * u0 && 19.0 * u0 <= 28.0 * h
    requires d > 0 ==> u >= 10.0 * u0
    requires d < 0 ==> 10.0 * u <= u0
    requires d == 0 ==> u == u0
    requires 10.0 * u <= (2 * m + 1) as real * h
    ensures 19.0 * u <= (4 * m) as real * h
  {
    if m == 1 {
    } else if m == 2 {
    } else if m == 3 {
    } else if m == 4 {
    } else if m == 5 {
    } else if m == 6 {
    } else if m == 7 {
    } else if m == 8 {
    } else {
      assert m == 9;
    }
  }

  /** A power of two that divides m times an odd number is at most m. */
  lemma {:induction false} TwoPowerDivides(m: nat, o: nat, z: nat, t: nat)
    requires m > 0 && o % 2 == 1 && m * o == z * Pow(2, t)
    ensures m >= Pow(2, t)
  {
    if t > 0 {
      var h := m / 2;
      EvenProduct(m, o, z * Pow(2, t - 1));
      TwoPowerDivides(h, o, z, t - 1);
    }
  }

  lemma EvenProduct(m: nat, o: nat, w: nat)
    requires o % 2 == 1 && m * o == 2 * w
    ensures m % 2 == 0 && (m / 2) * o == w
  {
    if m % 2 == 1 {
      OddTimesOdd(m, o);
    }
    assert m == 2 * (m / 2);
    HalfProduct(m / 2, o);
  }

  lemma HalfProduct(h: nat, o: nat)
    ensures (2 * h) * o == 2 * (h * o)
  {
  }

  lemma OddTimesOdd(m: nat, o: nat)
    requires m % 2 == 1 && o % 2 == 1
    ensures (m * o) % 2 == 1
  {
    var h := m / 2;
    assert m == 2 * h + 1;
    assert m * o == 2 * (h * o) + o;
  }

  /** A float whose significand divides out few twos has few fractional digits. */
  lemma FewFractionDigits(mant: nat, k: int, c: nat, p: int, mb: nat)
    requires 0 < mant < Pow(2, mb + 1) && k < 0 && p < 0 && -p <= -k
    requires MulPow2(mant as real, k) == Num(c, p)
    ensures -k + p <= mb
  {
    var f, q := -k, -p;
    hide Num, MulPow2;
    WholeNum(mant);
    MulPow2Down(mant, f, 0);
    SameNumber(mant * Pow(5, f), k, c, p);
    PowAdd(5, q, f - q);
    PowMul(2, 5, f - q);
    PowPositive(5, f - q);
    PowFiveOdd(q);
    CancelFive(mant, Pow(5, q), Pow(5, f - q), c, Pow(2, f - q));
    TwoPowerDivides(mant, Pow(5, q), c, f - q);
    if f - q > mb {
      PowMonotone(2, mb + 1, f - q);
    }
  }

  lemma CancelFive(m: nat, x: nat, y: nat, c: nat, two: nat)
    requires y > 0 && m * (x * y) == c * (two * y)
    ensures m * x == c * two
  {
    assert y * (m * x) == y * (c * two) by {
      calc {
        y * (m * x);
        m * (x * y);
        c * (two * y);
        y * (c * two);
      }
    }
    CancelFactor(y, m * x, c * two);
  }

  /** Numbers of this size always fit the buffer exactly. */
  lemma MidpointFits(m: nat, s: int)
    requires m < Pow(2, 60) && -1100 <= s <= 1100
    ensures Fits(MulPow2(m as real, s))
  {
    hide Pow, Num, MulPow2;
    WholeNum(m);
    Sizes();
    if s >= 0 {
      MulPow2Up(m, s, 0);
      PowMonotone(2, s, 1100);
      ProductBelow(m, Pow(2, s), Pow(10, 20), Pow(10, 770));
      FitsBy(MulPow2(m as real, s), MAX_DIGITS, m * Pow(2, s), 0);
    } else {
      MulPow2Down(m, -s, 0);
      PowMonotone(5, -s, 1100);
      ProductBelow(m, Pow(5, -s), Pow(10, 20), Pow(10, 770));
      FitsBy(MulPow2(m as real, s), MAX_DIGITS, m * Pow(5, -s), s);
    }
  }

  lemma ProductBelow(a: nat, b: nat, x: nat, y: nat)
    requires a < x && b <= y && y > 0
    ensures a * b < x * y
  {
    MulLe(b, y, a);
    MulLess(a, x, y);
  }

  lemma Sizes()
    ensures Pow(2, 60) <= Pow(10, 20)
    ensures Pow(2, 1100) <= Pow(10, 770) && Pow(5, 1100) <= Pow(10, 770)
    ensures Pow(10, 20) * Pow(10, 770) <= Pow(10, MAX_DIGITS) && Pow(10, 770) > 0
  {
    hide Pow;
    TwoSizes();
    FiveSizes();
    BaseOrder(2, 5, 1100);
    PowAdd(10, 20, 770);
    PowMonotone(10, 790, MAX_DIGITS);
    PowPositive(10, 770);
  }

  lemma TwoSizes()
    ensures Pow(2, 60) <= Pow(10, 20)
  {
    assert Pow(2, 3) == 8;
    hide Pow;
    PowTower(2, 3, 20);
    BaseOrder(8, 10, 20);
  }

  lemma FiveSizes()
    ensures Pow(5, 1100) <= Pow(10, 770)
  {
    assert Pow(5, 10) == 9765625 && Pow(10, 7) == 10000000;
    hide Pow;
    PowTower(5, 10, 110);
    PowTower(10, 7, 110);
    BaseOrder(9765625, 10000000, 110);
  }
}
