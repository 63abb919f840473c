/** The multi-precision digit buffer: assignment, binary shifts in place, rounding to a number of digits. */
module MultiPrecision {
  import opened Powers
  import opened DigitSeq
  import opened DigitView
  import opened CheatTable
  import opened ShiftMath
  import opened ExactShift

  /** The machine word the shifts compute in. */
  type UInt64 = n: nat | n < 0x1_0000_0000_0000_0000

  method PrefixIsLessThan(b: seq<Digit>, s: seq<Digit>) returns (less: bool)
    requires s != [] ==> s[|s| - 1] != 0
    ensures less <==> FractionBelow(b, s)
  {
    for i := 0 to |s|
      invariant i <= |b| && b[..i] == s[..i]
    {
      if i >= |b| {
        ProperPrefix(b, s);
        return true;
      }
      if b[i] != s[i] {
        if b[i] < s[i] {
          LexLess(b, s, i);
        } else {
          LexLess(s, b, i);
        }
        return b[i] < s[i];
      }
    }
    WholePrefix(b, s);
    return false;
  }

  lemma ProperPrefix(b: seq<Digit>, s: seq<Digit>)
    requires |b| < |s| && b == s[..|b|] && s[|s| - 1] != 0
    ensures FractionBelow(b, s)
  {
    hide Pow, Val;
    var t := s[|b|..];
    ValSplit(s, |b|);
    ValZeros(t);
    assert t[|t| - 1] != 0;
    PowAdd(10, |b|, |t|);
    PowPositive(10, |b|);
    AddScaled(Val(b), Pow(10, |t|), Val(t), Pow(10, |b|));
  }

  lemma AddScaled(v: nat, x: nat, r: nat, y: nat)
    requires r > 0 && y > 0
    ensures v * (y * x) < (v * x + r) * y
  {
    calc {
      v * (y * x);
      (v * x) * y;
    }
    MulLess(v * x, v * x + r, y);
  }

  lemma WholePrefix(b: seq<Digit>, s: seq<Digit>)
    requires |s| <= |b| && b[..|s|] == s
    ensures !FractionBelow(b, s)
  {
    hide Pow, Val;
    var t := b[|s|..];
    ValSplit(b, |s|);
    PowAdd(10, |s|, |t|);
    ScaledLe(Val(s), Pow(10, |t|), Val(t), Pow(10, |s|));
  }

  lemma ScaledLe(v: nat, x: nat, r: nat, y: nat)
    ensures v * (y * x) <= (v * x + r) * y
  {
    calc {
      v * (y * x);
      (v * x) * y;
    }
    MulLe(v * x, v * x + r, y);
  }

  class DigitBuffer {
    const d: array<Digit>
    var nd: nat
    var dp: int
    var neg: bool
    var trunc: bool

    constructor ()
      ensures Valid() && fresh(d) && d.Length == 800 && nd == 0 && dp == 0 && !trunc && !neg
    {
      d := new Digit[MAX_DIGITS](_ => 0);
      nd, dp, neg, trunc := 0, 0, false, false;
    }

    ghost predicate InBounds()
      reads this
    {
      d.Length == MAX_DIGITS && nd <= MAX_DIGITS
    }

    ghost function Digs(): (s: seq<Digit>)
      requires InBounds()
      reads this, d
    {
      d[..nd]
    }

    ghost function Content(): View
      requires InBounds()
      reads this, d
    {
      View(Digs(), dp, trunc)
    }

    ghost predicate Valid()
      reads this, d
    {
      InBounds() && Content().Normal()
    }

    method Trim()
      requires InBounds()
      modifies this`nd, this`dp
      ensures InBounds() && Digs() == Strip(old(Digs()))
      ensures dp == if Digs() == [] then 0 else old(dp)
    {
      ghost var s := Digs();
      while nd > 0 && d[nd - 1] == 0
        modifies this`nd
        invariant nd <= |s| && AllZero(s[nd..])
      {
        assert s[nd - 1..] == [s[nd - 1]] + s[nd..];
        nd := nd - 1;
      }
      StripUnique(s, nd);
      if nd == 0 {
        dp := 0;
      }
    }

    /** Writes one digit if it fits, else remembers that a nonzero digit was lost. */
    method Put(w: nat, rem: Digit)
      requires InBounds()
      modifies this`trunc, d
      ensures w < MAX_DIGITS ==> d[..] == old(d[..])[w := rem] && trunc == old(trunc)
      ensures w >= MAX_DIGITS ==> d[..] == old(d[..]) && trunc == (old(trunc) || rem != 0)
    {
      if w < d.Length {
        d[w] := rem;
      } else if rem != 0 {
        trunc := true;
      }
    }

    /** Multiplies by 2^k: exact digits from right to left, first over the old digits, then the carry. */
    method LeftShift(k: nat)
      requires Valid() && nd > 0 && k <= MAX_SHIFT
      modifies this, d
      ensures Valid()
      ensures Content() == Shl(old(Content()), k)
    {
      hide Row, Pow, Val, Digits, Strip, Lost, LostNonzero, Written, Part, Carries, HasLength, Cut, Shl, FractionBelow;
      ghost var s, total := Digs(), Part(Digs(), 0, Pow(2, k));
      TableCorrect(k);
      CutoffTrimmed(k);
      var delta := Row(k).delta;
      var less := PrefixIsLessThan(d[..nd], Digits(Row(k).cutoff));
      NewLength(s, k, less);
      if less {
        delta := delta - 1;
      }
      var n, out := ShiftOldDigits(k, delta);
      out := FlushCarry(n, delta, total, out, nd + delta, old(trunc));
      Settle(nd + delta, dp + delta, out, old(trunc));
      ShlIs(s, old(dp), old(trunc), k, out);
    }

    /** Divides by 2^k: long division that writes each quotient digit over digits already read. */
    method RightShift(k: nat)
      requires Valid() && k <= MAX_SHIFT
      modifies this, d
      ensures Valid()
      ensures Content() == Shr(old(Content()), k)
    {
      hide Pow, Val, Digits, Strip, Lost, LostNonzero, Written, Divided, Padded, Cut, Shr;
      ghost var s, p := Digs(), Pow(2, k);
      var r, n := LeadingDigits(k);
      if n == 0 {
        nd := 0;
        ShrNothing(dp, trunc, k);
        return;
      }
      dp := dp - (r - 1);
      DivisionStart(s, r, p);
      ghost var r0, t0 := r, trunc;
      var w, n1, out := DivideOldDigits(k, r, n);
      w, out := DivideTail(k, s, r0, w, n1, out);
      DivisionEnds(s, r0, k, out);
      Settle(w, dp, out, t0);
      ShrIs(s, old(dp), t0, k, r0, out);
    }

    /** Reads digits, then zeros, until the first quotient digit is nonzero. */
    method LeadingDigits(k: nat) returns (r: nat, n: UInt64)
      requires Valid() && k <= MAX_SHIFT
      ensures nd == 0 ==> n == 0
      ensures nd > 0 ==> r > 0 && n == Padded(Digs(), r) && Pow(2, k) <= n < 10 * Pow(2, k)
    {
      hide Pow, Val, Padded, ShiftedDown;
      ghost var s := Digs();
      WordBound(Pow(2, k), k);
      PaddedNone(s);
      r, n := 0, 0;
      while ShiftedDown(n, k) == 0
        invariant r <= nd && n == Padded(s, r) && n < 10 * Pow(2, k)
        invariant r > 0 ==> n > 0
        decreases nd - r
      {
        BelowDivisor(n, k);
        if r >= nd {
          if n == 0 {
            return;
          }
          while ShiftedDown(n, k) == 0
            invariant r >= nd > 0 && 0 < n == Padded(s, r) && n < 10 * Pow(2, k)
            decreases 10 * Pow(2, k) - n
          {
            BelowDivisor(n, k);
            PaddedStep(s, r);
            n := n * 10;
            r := r + 1;
          }
          break;
        }
        PaddedStep(s, r);
        n := n * 10 + d[r];
        r := r + 1;
      }
      BelowDivisor(n, k);
    }

    /** Takes one digit, writes one digit. */
    method DivideOldDigits(k: nat, r0: nat, n0: UInt64) returns (w: nat, n: UInt64, ghost out: seq<Digit>)
      requires Valid() && nd > 0 && k <= MAX_SHIFT && r0 > 0
      requires Pow(2, k) <= n0 < 10 * Pow(2, k) && Divided(Digs(), r0, Pow(2, k), [], n0)
      modifies d
      ensures w == |out| <= MAX_DIGITS && Written(d[..], out, 0)
      ensures !LostNonzero(out, 0)
      ensures r0 + w >= nd && 0 < n < 10 * Pow(2, k)
      ensures Divided(old(Digs()), r0 + w, Pow(2, k), out, n)
      ensures if w == 0 then n == n0 else out[0] != 0
    {
      hide Pow, Val, LostNonzero, Written, Divided, Padded, ShiftedDown, Masked;
      ghost var s, p := Digs(), Pow(2, k);
      WordBound(p, k);
      NothingWritten(d[..]);
      var r := r0;
      w, n, out := 0, n0, [];
      while r < nd
        modifies d
        invariant w == |out| && r == r0 + w && (w > 0 ==> r <= nd)
        invariant forall i :: w <= i < nd ==> d[i] == s[i]
        invariant Written(d[..], out, 0) && !LostNonzero(out, 0)
        invariant n < 10 * p && Divided(s, r, p, out, n)
        invariant if w == 0 then n == n0 else out[0] != 0 && n >= s[r - 1]
      {
        var c := d[r];
        assert c == s[r];
        DivisionStep(s, r, k, out, n);
        var dig := ShiftedDown(n, k);
        n := Masked(n, k);
        ghost var before := d[..];
        d[w] := dig;
        WrittenAppend(before, d[..], out, dig, w);
        out := out + [dig];
        w := w + 1;
        n := n * 10 + c;
        r := r + 1;
      }
    }

    /** Writes the digits that are left, as zeros are read. */
    method DivideTail(k: nat, ghost s: seq<Digit>, ghost r0: nat, w0: nat, n0: UInt64, ghost out0: seq<Digit>)
      returns (w: nat, ghost out: seq<Digit>)
      requires InBounds() && k <= MAX_SHIFT && w0 == |out0| <= MAX_DIGITS && r0 + w0 >= |s|
      requires Written(d[..], out0, 0) && !LostNonzero(out0, 0)
      requires 0 < n0 < 10 * Pow(2, k) && Divided(s, r0 + w0, Pow(2, k), out0, n0)
      requires if w0 == 0 then n0 >= Pow(2, k) else out0[0] != 0
      modifies this`trunc, d
      ensures w == if |out| < MAX_DIGITS then |out| else MAX_DIGITS
      ensures Written(d[..], out, 0) && trunc == (old(trunc) || LostNonzero(out, 0))
      ensures |out| > w0 && out[0] != 0 && out[|out| - 1] != 0
      ensures Divided(s, r0 + |out|, Pow(2, k), out, 0)
    {
      hide Pow, Val, LostNonzero, Written, Divided, Padded, ShiftedDown, Masked;
      ghost var p, t: nat := Pow(2, k), 0;
      var n: UInt64 := n0;
      w, out := w0, out0;
      WordBound(p, k);
      TwosStart(n);
      while n > 0
        modifies this`trunc, d
        invariant w0 <= |out| && w == if |out| < MAX_DIGITS then |out| else MAX_DIGITS
        invariant Written(d[..], out, 0) && trunc == (old(trunc) || LostNonzero(out, 0))
        invariant n < 10 * p && Divided(s, r0 + |out|, p, out, n)
        invariant if |out| == 0 then n >= p else out[0] != 0
        invariant n == 0 ==> |out| > w0 && out[|out| - 1] != 0
        invariant t <= k + 1 && Twos(n, t) && (t == k + 1 ==> n == 0)
        decreases k + 1 - t
      {
        DivisionStep(s, r0 + |out|, k, out, n);
        TwosGrow(n, t, k);
        var dig := ShiftedDown(n, k);
        n := Masked(n, k);
        ghost var before := d[..];
        if w < d.Length {
          d[w] := dig;
          w := w + 1;
        } else if dig > 0 {
          trunc := true;
        }
        WrittenAppend(before, d[..], out, dig, |out|);
        out := out + [dig];
        n := n * 10;
        t := t + 1;
      }
    }

    /** The end of both shifts: the new length, capped by the capacity, the new point, and the trim. */
    method Settle(len: nat, point: int, ghost out: seq<Digit>, ghost t0: bool)
      requires InBounds() && (len == |out| || (len >= MAX_DIGITS && |out| >= MAX_DIGITS))
      requires Written(d[..], out, 0) && trunc == (t0 || LostNonzero(out, 0))
      modifies this`nd, this`dp
      ensures InBounds() && Content() == Cut(out, point, t0)
    {
      hide LostNonzero, Written, Strip, Keep, Lost;
      nd := len;
      if nd >= d.Length {
        nd := d.Length;
      }
      dp := point;
      WrittenAll(d[..], out);
      Trim();
    }

    /** The first loop of a left shift: takes a digit, writes a digit delta places further right. */
    method ShiftOldDigits(k: nat, delta: nat) returns (n: UInt64, ghost out: seq<Digit>)
      requires InBounds() && k <= MAX_SHIFT
      modifies this`trunc, d
      ensures |out| == nd && Carries(Part(old(Digs()), 0, Pow(2, k)), n, out)
      ensures Written(d[..], out, delta) && trunc == (old(trunc) || LostNonzero(out, delta))
    {
      hide Pow, Val, LostNonzero, Written, Part, Carries;
      ghost var s, p := Digs(), Pow(2, k);
      out := [];
      NothingWritten(d[..]);
      CarriesNothing(s, p);
      WordBound(p, k);
      var r: nat, w: nat := nd, nd + delta;
      n := 0;
      while r > 0
        modifies this`trunc, d
        invariant r <= |s| && w == r + delta && |out| == |s| - r
        invariant Carries(Part(s, r, p), n, out) && n < p
        invariant d[..r] == s[..r]
        invariant Written(d[..], out, w) && trunc == (old(trunc) || LostNonzero(out, w))
      {
        r := r - 1;
        assert d[..r + 1][r] == s[r];
        CarryFits(n, s[r], p, k);
        StepDown(s, r, n, p, out);
        n := n + d[r] * Pow(2, k);
        out, n, w := PutLowDigit(n, w, Part(s, r, p), out, old(trunc));
      }
    }

    /** The second loop of a left shift: writes the digits of the carry. */
    method FlushCarry(carry: UInt64, w0: nat, ghost total: nat, ghost out0: seq<Digit>, ghost len: nat, ghost t0: bool)
      returns (ghost out: seq<Digit>)
      requires InBounds() && w0 + |out0| == len && HasLength(total, len) && Carries(total, carry, out0)
      requires Written(d[..], out0, w0) && trunc == (t0 || LostNonzero(out0, w0))
      modifies this`trunc, d
      ensures out == Digits(total) && |out| == len
      ensures Written(d[..], out, 0) && trunc == (t0 || LostNonzero(out, 0))
    {
      hide LostNonzero, Written, Carries, HasLength, Digits;
      out := out0;
      var n: UInt64, w: nat := carry, w0;
      while n > 0
        modifies this`trunc, d
        invariant w + |out| == len && Carries(total, n, out)
        invariant Written(d[..], out, w) && trunc == (t0 || LostNonzero(out, w))
      {
        CarryMeansMore(total, n, out, len);
        assert w > 0;
        out, n, w := PutLowDigit(n, w, total, out, t0);
      }
      assert |out| <= len;
      AllWritten(total, out, len);
    }

    /** Multiplies by 2^k for any integer k, in steps that fit the machine word. */
    method Shift(k0: int)
      requires Valid()
      modifies this, d
      ensures Valid()
      ensures Content() == Shifted(old(Content()), k0)
    {
      hide Shl, Shr;
      var k := k0;
      if nd == 0 {
        return;
      }
      if k > 0 {
        while k > MAX_SHIFT
          invariant Valid() && nd > 0 && k > 0
          invariant Shifted(Content(), k) == Shifted(old(Content()), k0)
        {
          ShlNonzero(Content(), MAX_SHIFT);
          LeftShift(MAX_SHIFT);
          k := k - MAX_SHIFT;
        }
        LeftShift(k);
      } else if k < 0 {
        while k < -MAX_SHIFT
          invariant Valid() && nd > 0 && k < 0
          invariant Shifted(Content(), k) == Shifted(old(Content()), k0)
        {
          ShrNonzero(Content(), MAX_SHIFT);
          RightShift(MAX_SHIFT);
          k := k + MAX_SHIFT;
        }
        RightShift(-k);
      }
    }

    /** Takes over the decimal digits of v. */
    method Assign(v: UInt64)
      requires InBounds()
      modifies this, d
      ensures Valid() && Content().Value() == v as real && trunc == old(trunc)
    {
      hide Digits, Val, Strip, Num, Pow;
      var buf: array<Digit>, n: nat := DigitsBackwards(v);
      ghost var s := Digits(v);
      CopyBackwards(buf, n);
      dp := nd;
      assert Digs() == s;
      Trim();
      AssignedValue(v, dp, Digs());
    }

    method CopyBackwards(buf: array<Digit>, n0: nat)
      requires d.Length == MAX_DIGITS && n0 <= buf.Length <= MAX_DIGITS && buf != d
      modifies this`nd, d
      ensures InBounds() && nd == n0 && forall i :: 0 <= i < nd ==> d[i] == buf[n0 - 1 - i]
    {
      var n: nat := n0;
      nd := 0;
      while n > 0
        modifies this`nd, d
        invariant n + nd == n0 && InBounds()
        invariant forall i :: 0 <= i < nd ==> d[i] == buf[n0 - 1 - i]
      {
        n := n - 1;
        d[nd] := buf[n];
        nd := nd + 1;
      }
    }

    /** The digits of v, least significant first, in a fresh array. */
    method DigitsBackwards(v0: UInt64) returns (buf: array<Digit>, n: nat)
      ensures fresh(buf) && buf.Length == 24 && n == |Digits(v0)| <= 20
      ensures forall i :: 0 <= i < n ==> buf[i] == Digits(v0)[n - 1 - i]
    {
      hide Digits;
      buf := new Digit[24];
      n := 0;
      var v: UInt64 := v0;
      ghost var s := Digits(v0);
      WordDigits(v0);
      LastOfDigits(v);
      while v > 0
        modifies buf
        invariant n <= |s| && s[..|s| - n] == Digits(v)
        invariant v == 0 ==> n == |s|
        invariant forall i :: 0 <= i < n ==> buf[i] == s[|s| - 1 - i]
      {
        var v1: UInt64 := v / 10;
        DigitTaken(s, n, v, v1);
        buf[n] := v - 10 * v1;
        n := n + 1;
        v := v1;
      }
    }

    /** Whether cutting to n digits should round up: the nearest, ties to an even digit, and a tie
        that hides lost digits counts as more than a half. */
    method ShouldRoundUp(n: int) returns (up: bool)
      requires Valid()
      ensures up <==> 0 <= n < nd && RoundsUp(Content(), n)
    {
      if n < 0 || n >= nd {
        return false;
      }
      ghost var s := Digs();
      HalfDigit(s, n);
      Parity(s[..n]);
      if d[n] == 5 && n + 1 == nd {
        if trunc {
          return true;
        }
        return n > 0 && d[n - 1] % 2 != 0;
      }
      return d[n] >= 5;
    }

    method Round(n: int)
      requires Valid()
      modifies this, d
      ensures Valid() && trunc == old(trunc)
      ensures !(0 <= n < old(nd)) ==> Content() == old(Content())
      ensures 0 <= n < old(nd) ==>
                Content().Value() == if RoundsUp(old(Content()), n) then old(Content()).Above(n) else old(Content()).Below(n)
    {
      if n < 0 || n >= nd {
        return;
      }
      hide RoundsUp;
      var up := ShouldRoundUp(n);
      if up {
        RoundUp(n);
      } else {
        RoundDown(n);
      }
    }

    method RoundDown(n: int)
      requires Valid()
      modifies this, d
      ensures Valid() && trunc == old(trunc)
      ensures !(0 <= n < old(nd)) ==> Content() == old(Content())
      ensures 0 <= n < old(nd) ==> Content().Value() == old(Content()).Below(n)
    {
      if n < 0 || n >= nd {
        return;
      }
      hide Val, Num, Strip, Pow;
      ghost var s := Digs();
      nd := n;
      assert Digs() == s[..n];
      Trim();
      DroppedValue(s[..n], old(dp), dp, Digs());
    }

    method RoundUp(n: int)
      requires Valid()
      modifies this, d
      ensures Valid() && trunc == old(trunc)
      ensures !(0 <= n < old(nd)) ==> Content() == old(Content())
      ensures 0 <= n < old(nd) ==> Content().Value() == old(Content()).Above(n)
    {
      if n < 0 || n >= nd {
        return;
      }
      var i := LastBelowNine(n);
      if i >= 0 {
        Increment(i, n);
      } else {
        BecomeOne(n);
      }
    }

    /** The carry stops at digit i. */
    method Increment(i: nat, ghost n: nat)
      requires Valid() && i < n < nd && d[i] < 9 && forall j :: i < j < n ==> d[j] == 9
      modifies this`nd, d
      ensures Valid() && Content().Value() == old(Content()).Above(n)
    {
      hide Val, Num, Pow;
      ghost var s := Digs()[..n];
      RippleValue(s, i, dp);
      d[i] := d[i] + 1;
      nd := i + 1;
      assert forall j :: 0 <= j < i ==> d[j] == s[j];
      assert Digs() == s[..i] + [s[i] + 1];
    }

    /** Nothing but nines: a single one, a place further left. */
    method BecomeOne(ghost n: nat)
      requires Valid() && n < nd && forall j :: 0 <= j < n ==> d[j] == 9
      modifies this`nd, this`dp, d
      ensures Valid() && Content().Value() == old(Content()).Above(n)
    {
      hide Val, Num, Pow;
      AllNines(Digs()[..n], dp);
      d[0] := 1;
      nd := 1;
      dp := dp + 1;
      assert Digs() == [1];
    }

    /** The last of the first n digits that is not a nine, or -1. */
    method LastBelowNine(n: nat) returns (i: int)
      requires Valid() && n <= nd
      ensures -1 <= i < n && (i >= 0 ==> d[i] < 9)
      ensures forall j :: i < j < n ==> d[j] == 9
    {
      i := n - 1;
      while i >= 0 && d[i] == 9
        invariant -1 <= i < n && forall j :: i < j < n ==> d[j] == 9
      {
        i := i - 1;
      }
    }

    /** Moves the last digit of the carry to position w - 1. */
    method PutLowDigit(n: UInt64, w: nat, ghost total: nat, ghost out: seq<Digit>, ghost t0: bool)
      returns (ghost out': seq<Digit>, quo: UInt64, w': nat)
      requires InBounds() && w > 0 && Carries(total, n, out)
      requires Written(d[..], out, w) && trunc == (t0 || LostNonzero(out, w))
      modifies this`trunc, d
      ensures w' == w - 1 && quo == n / 10 && out' == [n % 10] + out && Carries(total, quo, out')
      ensures Written(d[..], out', w') && trunc == (t0 || LostNonzero(out', w'))
      ensures forall i :: 0 <= i < MAX_DIGITS && i != w' ==> d[i] == old(d[i])
    {
      hide Written, LostNonzero, Carries;
      quo := n / 10;
      var rem := n - 10 * quo;
      w' := w - 1;
      StepCarry(total, n, out);
      Put(w', rem);
      WrittenStep(old(d[..]), d[..], out, w', rem);
      out' := [rem] + out;
    }
  }

  lemma LastOfDigits(v: nat)
    ensures if v == 0 then Digits(v) == [] else Digits(v) == Digits(v / 10) + [v % 10]
  {
  }

  lemma DigitTaken(s: seq<Digit>, n: nat, v: nat, v1: nat)
    requires n <= |s| && s[..|s| - n] == Digits(v) && v > 0 && v1 == v / 10
    ensures n < |s| && s[|s| - 1 - n] == v - 10 * v1 && s[..|s| - (n + 1)] == Digits(v1)
    ensures v1 == 0 ==> n + 1 == |s|
  {
    hide Digits;
    LastOfDigits(v);
    LastOfDigits(v1);
    assert s[..|s| - n][..|Digits(v1)|] == s[..|Digits(v1)|];
  }

  lemma ShlIs(s: seq<Digit>, dp: int, trunc: bool, k: nat, out: seq<Digit>)
    requires out == Digits(Part(s, 0, Pow(2, k)))
    ensures Shl(View(s, dp, trunc), k) == Cut(out, dp + |out| - |s|, trunc)
    ensures Cut(out, dp + |out| - |s|, trunc).Normal()
  {
    hide Strip, Digits;
    assert s[0..] == s;
    CutNormal(out, dp + |out| - |s|, trunc);
  }

  lemma ShrNothing(dp: int, trunc: bool, k: nat)
    ensures Shr(View([], dp, trunc), k) == View([], 0, trunc)
  {
  }

  lemma ShrIs(s: seq<Digit>, dp: int, trunc: bool, k: nat, r0: nat, out: seq<Digit>)
    requires out != [] && out[0] != 0 && r0 + |out| > |s|
    requires var m := r0 + |out| - |s| - 1; m <= k && Val(s) * Pow(5, k) == Val(out) * Pow(10, k - m)
    ensures Shr(View(s, dp, trunc), k) == Cut(out, dp - (r0 - 1), trunc)
    ensures Cut(out, dp - (r0 - 1), trunc).Normal()
  {
    hide *;
    var z := Padding(k - (r0 + |out| - |s| - 1));
    ProductNat(Val(s), Pow(5, k));
    QuotientDigits(Val(s) * Pow(5, k), out, z);
    ShrUnfold(View(s, dp, trunc), k);
    CutIgnoresZeros(out, z, dp - (r0 - 1), trunc);
    CutNormal(out, dp - (r0 - 1), trunc);
  }

  ghost function Padding(n: nat): (z: seq<Digit>)
    ensures |z| == n && AllZero(z)
  {
    seq(n, _ => 0)
  }

  lemma ShrUnfold(v: View, k: nat)
    ensures Val(v.digits) * Pow(5, k) >= 0
    ensures var e := Digits(Val(v.digits) * Pow(5, k));
            Shr(v, k) == Cut(e, v.dp + |e| - |v.digits| - k, v.trunc)
  {
    hide Digits, Cut;
  }

  lemma ProductNat(a: nat, b: nat)
    ensures a * b >= 0
  {
  }

  lemma QuotientDigits(v: nat, out: seq<Digit>, z: seq<Digit>)
    requires out != [] && out[0] != 0 && AllZero(z)
    requires v == Val(out) * Pow(10, |z|)
    ensures Digits(v) == out + z
  {
    hide Val, Pow, Digits;
    ValZeros(z);
    ValAppend(out, z);
    SameDigits(out + z);
  }

  /** out has been written from position w on, as far as it fits. */
  ghost predicate Written(a: seq<Digit>, out: seq<Digit>, w: nat) {
    |a| == MAX_DIGITS && forall i :: 0 <= i < |out| && w + i < MAX_DIGITS ==> a[w + i] == out[i]
  }

  ghost predicate LostNonzero(out: seq<Digit>, w: nat) {
    exists i :: 0 <= i < |out| && w + i >= MAX_DIGITS && out[i] != 0
  }

  lemma NothingWritten(a: seq<Digit>)
    requires |a| == MAX_DIGITS
    ensures forall w: nat :: Written(a, [], w) && !LostNonzero([], w)
  {
  }

  lemma WrittenAppend(a: seq<Digit>, b: seq<Digit>, out: seq<Digit>, dig: Digit, w: nat)
    requires Written(a, out, 0) && |b| == MAX_DIGITS && w == |out|
    requires if w < MAX_DIGITS then b == a[w := dig] else b == a
    ensures Written(b, out + [dig], 0)
    ensures LostNonzero(out + [dig], 0) <==> LostNonzero(out, 0) || (w >= MAX_DIGITS && dig != 0)
  {
    var o := out + [dig];
    assert o[w] == dig && forall i :: 0 <= i < w ==> o[i] == out[i];
  }

  lemma WrittenAll(a: seq<Digit>, out: seq<Digit>)
    requires Written(a, out, 0)
    ensures a[..if |out| < MAX_DIGITS then |out| else MAX_DIGITS] == Keep(out)
    ensures LostNonzero(out, 0) <==> !AllZero(Lost(out))
  {
    LostZero(out);
  }

  lemma WrittenStep(a: seq<Digit>, b: seq<Digit>, out: seq<Digit>, w: nat, rem: Digit)
    requires Written(a, out, w + 1) && |b| == MAX_DIGITS
    requires if w < MAX_DIGITS then b == a[w := rem] else b == a
    ensures Written(b, [rem] + out, w)
    ensures LostNonzero([rem] + out, w) <==> LostNonzero(out, w + 1) || (w >= MAX_DIGITS && rem != 0)
  {
    var o := [rem] + out;
    assert o[0] == rem;
    assert forall i :: 0 <= i < |out| ==> o[i + 1] == out[i];
    if LostNonzero(out, w + 1) {
      var i :| 0 <= i < |out| && w + 1 + i >= MAX_DIGITS && out[i] != 0;
      assert o[i + 1] != 0;
    }
    forall i | 0 <= i < |o| && w + i < MAX_DIGITS ensures b[w + i] == o[i] {
      if i > 0 {
        assert a[w + 1 + (i - 1)] == out[i - 1];
      }
    }
    if LostNonzero(o, w) {
      var i :| 0 <= i < |o| && w + i >= MAX_DIGITS && o[i] != 0;
      if i > 0 {
        assert w + 1 + (i - 1) >= MAX_DIGITS && out[i - 1] != 0;
      }
    }
  }

  lemma WordDigits(v: UInt64)
    ensures |Digits(v)| <= 20
  {
    if |Digits(v)| > 20 {
      ValLower(Digits(v));
      PowMonotone(10, 20, |Digits(v)| - 1);
      assert Pow(10, 10) == 10000000000;
      PowAdd(10, 10, 10);
      assert false;
    }
  }

  lemma AssignedValue(v: nat, dp: int, s: seq<Digit>)
    requires s == Strip(Digits(v)) && (dp == if s == [] then 0 else |Digits(v)|)
    ensures Num(Val(s), dp - |s|) == v as real
  {
    hide Strip, Num, Digits, Val;
    StripValue(Digits(v), |Digits(v)|);
    WholeNum(v);
    if s == [] {
      NothingIsZero(0);
      NothingIsZero(|Digits(v)|);
    }
  }

  lemma DroppedValue(s: seq<Digit>, dp: int, dp': int, t: seq<Digit>)
    requires t == Strip(s) && (dp' == if t == [] then 0 else dp)
    ensures Num(Val(t), dp' - |t|) == Num(Val(s), dp - |s|)
  {
    hide Strip, Num, Val;
    StripValue(s, dp);
    if t == [] {
      NothingIsZero(0);
      NothingIsZero(dp);
    }
  }

  lemma {:induction false} NinesValue(s: seq<Digit>)
    requires forall j :: 0 <= j < |s| ==> s[j] == 9
    ensures Val(s) + 1 == Pow(10, |s|)
  {
    if s != [] {
      NinesValue(s[..|s| - 1]);
    }
  }

  lemma RippleValue(s: seq<Digit>, i: nat, dp: int)
    requires i < |s| && s[i] < 9 && forall j :: i < j < |s| ==> s[j] == 9
    ensures Num(Val(s[..i] + [s[i] + 1]), dp - (i + 1)) == Num(Val(s) + 1, dp - |s|)
  {
    hide Num, Val, Pow;
    ValSplit(s, i + 1);
    assert s[..i + 1] == s[..i] + [s[i]];
    ValPush(s[..i], s[i]);
    ValPush(s[..i], s[i] + 1);
    NinesValue(s[i + 1..]);
    var v, p := Val(s[..i + 1]), Pow(10, |s| - (i + 1));
    assert Val(s) + 1 == v * p + p;
    TimesNext(v, p);
    MoveTen(v + 1, |s| - (i + 1), dp - |s|);
  }

  lemma AllNines(s: seq<Digit>, dp: int)
    requires forall j :: 0 <= j < |s| ==> s[j] == 9
    ensures Num(Val([1]), (dp + 1) - 1) == Num(Val(s) + 1, dp - |s|)
  {
    hide Num, Val, Pow;
    NinesValue(s);
    ValOne(1);
    MoveTen(1, |s|, dp - |s|);
  }

  /** Whether the digits from n on are above, at or below one half, read off digit n. */
  lemma HalfDigit(s: seq<Digit>, n: nat)
    requires n < |s| && s[|s| - 1] != 0
    ensures var r, u := Val(s[n..]), Pow(10, |s| - n);
            if s[n] == 5 && n + 1 == |s| then 2 * r == u else if s[n] >= 5 then 2 * r > u else 2 * r < u
  {
    hide Val, Pow;
    var t := s[n + 1..];
    assert s[n..] == [s[n]] + t;
    ValCons(s[n], t);
    ValBound(t);
    ValZeros(t);
    if t != [] {
      assert t[|t| - 1] != 0;
    }
    HalfArithmetic(s[n], Pow(10, |t|), Val(t));
    PowNext(10, |t|);
    PowZero(10);
    NothingVal();
  }

  lemma Parity(s: seq<Digit>)
    ensures Val(s) % 2 == if s != [] then s[|s| - 1] % 2 else 0
  {
    if s != [] {
      var v: nat, d: nat := Val(s[..|s| - 1]), s[|s| - 1];
      hide Val;
      TensAreEven(v, d);
    }
  }

  lemma TensAreEven(v: int, d: int)
    ensures (10 * v + d) % 2 == d % 2
  {
    assert 10 * v + d == 2 * (5 * v) + d;
  }

  lemma NothingVal()
    ensures Val([]) == 0
  {
  }

  lemma HalfArithmetic(d: nat, p: nat, r: nat)
    requires d < 10 && r < p
    ensures d < 5 ==> 2 * (d * p + r) < 10 * p
    ensures d == 5 ==> 2 * (d * p + r) == 10 * p + 2 * r
    ensures d > 5 ==> 2 * (d * p + r) > 10 * p
  {
    if d < 5 {
      MulLe(d, 4, p);
    } else if d > 5 {
      MulLe(6, d, p);
    }
  }
}
