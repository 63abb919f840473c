/** Printing a decimal and reading it back. */
module DecimalText {
  import opened Powers
  import opened DigitSeq
  import opened DigitView
  import opened ShiftMath
  import opened ExactShift
  import opened DigitWalk
  import opened FixedPoint
  import opened Strconv

  // ---- digits

  /** The digits of a big integer's magnitude: zero prints as one digit. */
  function IntDigits(n: nat): (s: seq<Digit>)
    ensures s != [] && Val(s) == n && (s == [0] || s[0] != 0)
  {
    if n == 0 then
      ValOne(0);
      [0]
    else Digits(n)
  }

  // ---- printing

  function Zeros(n: nat): (s: seq<Digit>)
    ensures |s| == n && AllZero(s)
  {
    seq(n, _ => 0)
  }

  /** Integer digits and all fractional digits, before trailing zeros are trimmed. */
  function RawParts(d: Decimal): (seq<Digit>, seq<Digit>) {
    if d.exp >= 0 then (IntDigits(AbsInt(d.value) * PowTenOf(d.exp)), []) else
      var str, n := IntDigits(AbsInt(d.value)), -d.exp;
      if |str| > n then (str[..|str| - n], str[|str| - n..]) else ([0], Zeros(n - |str|) + str)
  }

  /** Sign, digits, and perhaps a point and a fraction: what the printer writes. */
  function Shown(negative: bool, whole: seq<Digit>, fraction: seq<Digit>): string {
    (if negative then "-" else "") + Chars(whole) + (if fraction == [] then "" else "." + Chars(fraction))
  }

  /** The canonical text: no trailing fractional zeros, no point without a fraction. */
  function Text(d: Decimal): string {
    var (whole, raw) := RawParts(d);
    Shown(d.value < 0, whole, Strip(raw))
  }

  /** big.Int's own decimal text. */
  function BigText(v: int): string {
    (if v < 0 then "-" else "") + Chars(IntDigits(AbsInt(v)))
  }

  method String(d: Decimal) returns (s: string)
    ensures s == Text(d)
    ensures exists w: seq<Digit>, f: seq<Digit> ::
              && Canonical(w, f, AbsReal(d.Amount()))
              && s == (if d.value < 0 then "-" else "") + Chars(w) + if f == [] then "" else "." + Chars(f)
  {
    TextForm(d);
    hide Val, Digits, Pow, Strip, RawParts, IntDigits, BigText, Rescale, Chars, AbsInt, Text, Shown;
    if d.exp >= 0 {
      WholeText(d);
      return BigText(Rescale(d, 0).value);
    }
    var intPart, fraction := SplitText(d);
    fraction := TrimZeros(fraction, RawParts(d).1);
    s := Assembled(d.value < 0, intPart, fraction, RawParts(d).0, Strip(RawParts(d).1));
    ShownText(d);
  }

  /** Puts the sign, the integer digits and a non-empty fraction together. */
  method Assembled(negative: bool, intPart: string, fraction: string, ghost whole: seq<Digit>, ghost rest: seq<Digit>)
    returns (s: string)
    requires intPart == Chars(whole) && fraction == Chars(rest)
    ensures s == Shown(negative, whole, rest)
  {
    var number := intPart;
    if |fraction| > 0 {
      number := number + "." + fraction;
    }
    if negative {
      number := "-" + number;
    }
    return number;
  }

  /** The digits before and after the point, padded with zeros where the coefficient is short. */
  method SplitText(d: Decimal) returns (intPart: string, fraction: string)
    requires d.exp < 0
    ensures intPart == Chars(RawParts(d).0) && fraction == Chars(RawParts(d).1)
  {
    hide Val, Digits, Pow;
    var str := Chars(IntDigits(AbsInt(d.value)));
    if |str| > -d.exp {
      intPart, fraction := str[..|str| + d.exp], str[|str| + d.exp..];
    } else {
      intPart, fraction := "0", Chars(Zeros(-d.exp - |str|)) + str;
    }
  }

  method TrimZeros(t: string, ghost raw: seq<Digit>) returns (r: string)
    requires t == Chars(raw)
    ensures r == Chars(Strip(raw))
  {
    var i := |t| - 1;
    while i >= 0 && t[i] == '0'
      invariant -1 <= i < |t|
      invariant forall j :: i < j < |t| ==> raw[j] == 0
    {
      i := i - 1;
    }
    StripUnique(raw, i + 1);
    r := t[..i + 1];
  }

  lemma WholeText(d: Decimal)
    requires d.exp >= 0
    ensures BigText(Rescale(d, 0).value) == Text(d)
  {
    var p := PowTenOf(d.exp);
    StripNothing();
    WholeValue(d);
    hide Pow, IntDigits, Chars, Strip, Rescale, AbsInt;
    AbsScaled(d.value, p);
  }

  lemma StripNothing()
    ensures Strip([]) == []
  {
  }

  lemma WholeValue(d: Decimal)
    requires d.exp >= 0
    ensures Rescale(d, 0).value == d.value * PowTenOf(d.exp)
  {
    if d.exp == 0 {
      PowZero(10);
    }
  }

  lemma AbsScaled(v: int, p: nat)
    requires p > 0
    ensures AbsInt(v * p) == AbsInt(v) * p && (v * p < 0 <==> v < 0)
  {
    if v < 0 {
      MulLe(v, -1, p);
    }
  }

  // ---- canonical parts

  lemma WholePart(d: Decimal)
    ensures var (whole, raw) := RawParts(d);
            && whole != [] && (whole == [0] || whole[0] != 0)
            && Num(Val(whole + raw), -|raw|) == AbsReal(d.Amount())
  {
    hide Num;
    NumAbs(d.value, d.exp);
    var (whole, raw) := RawParts(d);
    var v := AbsInt(d.value);
    if d.exp >= 0 {
      assert whole + raw == whole;
      MoveTen(v, d.exp, 0);
    } else {
      var str := IntDigits(v);
      if |str| > -d.exp {
        assert whole + raw == str;
      } else {
        var z := [0] + Zeros(-d.exp - |str|);
        assert whole + raw == z + str;
        ValZeros(z);
        ValAppend(z, str);
      }
    }
  }

  /** The printed digits denote the magnitude, in the only form without surplus zeros. */
  ghost predicate Canonical(whole: seq<Digit>, fraction: seq<Digit>, x: real) {
    && whole != [] && (whole == [0] || whole[0] != 0)
    && (fraction != [] ==> fraction[|fraction| - 1] != 0)
    && Num(Val(whole + fraction), -|fraction|) == x
  }

  lemma PartsCanonical(d: Decimal)
    ensures var (whole, raw) := RawParts(d);
            Canonical(whole, Strip(raw), AbsReal(d.Amount()))
  {
    hide Num, Val, Strip, RawParts;
    WholePart(d);
    var (whole, raw) := RawParts(d);
    var f := Strip(raw);
    var z := raw[|f|..];
    assert whole + raw == (whole + f) + z;
    ValAppend(whole + f, z);
    ValZeros(z);
    MoveTen(Val(whole + f), |z|, -|raw|);
  }

  /** A minus sign for negative numbers only, the canonical digits, and a point only before a fraction. */
  lemma TextForm(d: Decimal)
    ensures exists w: seq<Digit>, f: seq<Digit> ::
              && Canonical(w, f, AbsReal(d.Amount()))
              && Text(d) == (if d.value < 0 then "-" else "") + Chars(w) + if f == [] then "" else "." + Chars(f)
  {
    hide Canonical, RawParts, Strip, Chars;
    PartsCanonical(d);
    var w, f := RawParts(d).0, Strip(RawParts(d).1);
    assert Canonical(w, f, AbsReal(d.Amount()));
    assert Text(d) == (if d.value < 0 then "-" else "") + Chars(w) + if f == [] then "" else "." + Chars(f);
  }

  /** The text has a point exactly if the number is not an integer, a minus sign exactly if it is negative, and never a
      plus sign. */
  lemma PointExactly(d: Decimal)
    ensures '.' in Text(d) <==> d.Amount() != d.Amount().Floor as real
    ensures '-' in Text(d) <==> d.Amount() < 0.0
    ensures '+' !in Text(d)
  {
    TextForm(d);
    hide Text, Canonical, Num;
    var w: seq<Digit>, f: seq<Digit> :|
      && Canonical(w, f, AbsReal(d.Amount()))
      && Text(d) == (if d.value < 0 then "-" else "") + Chars(w) + if f == [] then "" else "." + Chars(f);
    CharsBack(w);
    CharsBack(f);
    NumAbs(d.value, d.exp);
    if f == [] {
      WholeOnly(w, AbsReal(d.Amount()));
      var n: int := if d.value < 0 then 0 - Val(w) else Val(w);
      assert d.Amount() == n as real;
    } else {
      var n := d.Amount().Floor;
      assert AbsReal(n as real) == AbsInt(n) as real;
      NotWhole(w, f, AbsReal(d.Amount()), AbsInt(n));
    }
    assert f != [] ==> ("." + Chars(f))[0] == '.' && '.' in "." + Chars(f);
  }

  lemma WholeOnly(w: seq<Digit>, x: real)
    requires Canonical(w, [], x)
    ensures x == Val(w) as real
  {
    hide Num, Val;
    assert w + [] == w;
    WholeNum(Val(w));
  }

  lemma NotWhole(w: seq<Digit>, f: seq<Digit>, x: real, n: nat)
    requires Canonical(w, f, x) && f != []
    ensures x != n as real
  {
    hide Num, Val, Pow;
    if x == n as real {
      WholeNum(n);
      SameNumber(Val(w + f), -|f|, n, 0);
      TenDivides(|f|, n);
      LastDigit(w + f);
      assert false;
    }
  }

  /** Canonical digits are determined by the number. */
  lemma CanonicalUnique(w: seq<Digit>, f: seq<Digit>, w': seq<Digit>, f': seq<Digit>, x: real)
    requires Canonical(w, f, x) && Canonical(w', f', x)
    ensures w == w' && f == f'
  {
    hide Num, Val, Pow;
    SameScale(w, f, w', f', x);
    SameScale(w', f', w, f, x);
    SameNumber(Val(w + f), -|f|, Val(w' + f'), -|f'|);
    PowZero(10);
    ValAppend(w, f);
    ValAppend(w', f');
    ValBound(f);
    ValBound(f');
    SplitUnique(Val(w), Val(f), Val(w'), Val(f'), Pow(10, |f|));
    ValInjective(f, f');
    SameWhole(w);
    SameWhole(w');
  }

  lemma SameScale(w: seq<Digit>, f: seq<Digit>, w': seq<Digit>, f': seq<Digit>, x: real)
    requires Canonical(w, f, x) && Canonical(w', f', x)
    ensures |f'| <= |f|
  {
    hide Num, Val, Pow;
    if |f| < |f'| {
      SameNumber(Val(w' + f'), -|f'|, Val(w + f), -|f|);
      TenDivides(|f'| - |f|, Val(w + f));
      LastDigit(w' + f');
      assert false;
    }
  }

  lemma SplitUnique(a: nat, r: nat, b: nat, s: nat, p: nat)
    requires r < p && s < p && a * p + r == b * p + s
    ensures a == b && r == s
  {
    if a < b {
      MulLe(a + 1, b, p);
    } else if b < a {
      MulLe(b + 1, a, p);
    }
  }

  lemma SameWhole(w: seq<Digit>)
    requires w != [] && (w == [0] || w[0] != 0)
    ensures w == IntDigits(Val(w))
  {
    hide Val, Digits;
    if w == [0] {
      ValOne(0);
    } else {
      SameDigits(w);
      ValLower(w);
      PowPositive(10, |w| - 1);
    }
  }

  // ---- reading

  datatype ParseError = ExponentNotNumeric | ExponentTooLong | TooManyDots | NotANumber | FractionTooLong

  datatype ParseResult = Ok(value: Decimal) | Err(error: ParseError)

  /** The position of the first character that is one of cs, or -1. */
  function IndexAny(s: string, cs: set<char>): (i: int)
    ensures -1 <= i < |s|
    ensures forall j :: 0 <= j < (if i < 0 then |s| else i) ==> s[j] !in cs
    ensures i >= 0 ==> s[i] in cs
  {
    if s == "" then -1 else if s[0] in cs then 0 else
      var i := IndexAny(s[1..], cs);
      assert forall j :: 1 <= j < |s| ==> s[j] == s[1..][j - 1];
      if i < 0 then -1 else i + 1
  }

  ghost predicate TwoDots(s: string) {
    exists i, j :: 0 <= i < j < |s| && s[i] == '.' && s[j] == '.'
  }

  /** What a mantissa and a decimal exponent denote. */
  ghost function ParseMantissa(s: string, exp: int): ParseResult {
    if TwoDots(s) then Err(TooManyDots) else
      var p := IndexAny(s, {'.'});
      var digits := if p < 0 then s else s[..p] + s[p + 1..];
      var scale := if p < 0 then exp else exp - (|s| - p - 1);
      var r := ParseSigned(digits);
      if !r.Int? then Err(NotANumber)
      else if scale < MIN_INT32 || scale > MAX_INT32 then Err(FractionTooLong)
      else Ok(Decimal(r.value, scale))
  }

  ghost function Parse(s: string): ParseResult {
    var e := IndexAny(s, {'E', 'e'});
    if e < 0 then ParseMantissa(s, 0) else
      match ParseInt(s[e + 1..], MAX_INT32)
      case Range => Err(ExponentTooLong)
      case Syntax => Err(ExponentNotNumeric)
      case Int(x) => ParseMantissa(s[..e], x)
  }

  method NewFromString(s: string) returns (r: ParseResult)
    ensures r == Parse(s)
    ensures forall d :: r == Ok(d) <==> IsNumeral(s, d)
  {
    forall d ensures Parse(s) == Ok(d) <==> IsNumeral(s, d) {
      ParseExactly(s, d);
    }
    hide Val, ParseMantissa, IsNumeral;
    var value, exp := s, 0;
    var eIndex := IndexAny(value, {'E', 'e'});
    if eIndex != -1 {
      match ParseInt(value[eIndex + 1..], MAX_INT32) {
        case Range => return Err(ExponentTooLong);
        case Syntax => return Err(ExponentNotNumeric);
        case Int(x) => exp := x;
      }
      value := value[..eIndex];
    }
    r := ReadMantissa(value, exp);
  }

  method ReadMantissa(value: string, exp0: int) returns (r: ParseResult)
    ensures r == ParseMantissa(value, exp0)
  {
    hide Val, ParseSigned, ParseInt, DigitPrefix, IndexAny, TwoDots, ParseMantissa;
    var exp, pIndex := exp0, -1;
    for i := 0 to |value|
      invariant -1 <= pIndex < i
      invariant forall j :: 0 <= j < i ==> (value[j] == '.' <==> j == pIndex)
    {
      if value[i] == '.' {
        if pIndex > -1 {
          SecondDot(value, pIndex, i, exp0);
          return Err(TooManyDots);
        }
        pIndex := i;
      }
    }
    var intString := value;
    if pIndex != -1 {
      intString := if pIndex + 1 < |value| then value[..pIndex] + value[pIndex + 1..] else value[..pIndex];
      exp := exp - |value[pIndex + 1..]|;
      assert intString == value[..pIndex] + value[pIndex + 1..];
    }
    OnlyDot(value, pIndex);
    MantissaIs(value, exp0, pIndex, intString, exp);
    // short strings take the machine-integer path, which cannot overflow; long ones the big-integer path
    var parsed;
    if |intString| <= 18 {
      parsed := ParseInt(intString, MAX_INT64);
      ShortFits(intString);
    } else {
      parsed := ParseSigned(intString);
    }
    if !parsed.Int? {
      return Err(NotANumber);
    }
    if exp < MIN_INT32 || exp > MAX_INT32 {
      return Err(FractionTooLong);
    }
    return Ok(Decimal(parsed.value, exp));
  }

  lemma SecondDot(s: string, p: nat, i: nat, exp: int)
    requires p < i < |s| && s[p] == '.' && s[i] == '.'
    ensures TwoDots(s) && ParseMantissa(s, exp) == Err(TooManyDots)
  {
  }

  lemma MantissaIs(s: string, exp: int, p: int, digits: string, scale: int)
    requires !TwoDots(s) && IndexAny(s, {'.'}) == p
    requires digits == if p < 0 then s else s[..p] + s[p + 1..]
    requires scale == if p < 0 then exp else exp - (|s| - p - 1)
    ensures ParseMantissa(s, exp) ==
            if !ParseSigned(digits).Int? then Err(NotANumber)
            else if scale < MIN_INT32 || scale > MAX_INT32 then Err(FractionTooLong)
            else Ok(Decimal(ParseSigned(digits).value, scale))
  {
    hide ParseSigned, TwoDots;
  }

  lemma OnlyDot(s: string, p: int)
    requires -1 <= p < |s| && forall j :: 0 <= j < |s| ==> (s[j] == '.' <==> j == p)
    ensures !TwoDots(s) && IndexAny(s, {'.'}) == p
  {
    var i := IndexAny(s, {'.'});
    assert i >= 0 ==> s[i] == '.';
    assert p >= 0 ==> s[p] == '.';
  }

  // ---- what is read

  predicate InInt32(x: int) {
    -0x8000_0000 <= x < 0x8000_0000
  }

  function Pointed(a: string, b: string): string {
    a + "." + b
  }

  function WithExponent(m: string, c: char, x: string): string {
    m + [c] + x
  }

  /** An integer with perhaps one point somewhere in it, even before the sign: every character behind the point
      counts as a place. */
  ghost predicate IsMantissa(t: string, e: int, d: Decimal) {
    && InInt32(d.exp)
    && ((IsSigned(t, d.value) && d.exp == e)
        || exists a: string, b: string :: t == Pointed(a, b) && IsSigned(a + b, d.value) && d.exp == e - |b|)
  }

  /** A mantissa, or one with the text of a 32-bit integer as its exponent. */
  ghost predicate IsNumeral(s: string, d: Decimal) {
    || IsMantissa(s, 0, d)
    || exists m: string, c: char, x: string, e: int ::
         c in {'E', 'e'} && s == WithExponent(m, c, x) && IsSigned(x, e) && InInt32(e) && IsMantissa(m, e, d)
  }

  lemma MantissaChars(t: string, e: int, d: Decimal)
    requires IsMantissa(t, e, d)
    ensures forall i :: 0 <= i < |t| ==> t[i] !in {'E', 'e'}
  {
    if IsSigned(t, d.value) {
      SignedChars(t, d.value);
    } else {
      var a: string, b: string :| t == Pointed(a, b) && IsSigned(a + b, d.value) && d.exp == e - |b|;
      SignedChars(a + b, d.value);
      PointedChars(a, b);
    }
  }

  lemma PointedChars(a: string, b: string)
    ensures forall i :: 0 <= i < |Pointed(a, b)| ==> Pointed(a, b)[i] == '.' || Pointed(a, b)[i] in a + b
    ensures '.' !in a + b ==> forall i :: 0 <= i < |Pointed(a, b)| ==> (Pointed(a, b)[i] == '.' <==> i == |a|)
  {
    var t := Pointed(a, b);
    forall i | 0 <= i < |t| && i != |a| ensures t[i] in a + b {
      if i < |a| {
        assert (a + b)[i] == t[i];
      } else {
        assert (a + b)[i - 1] == t[i];
      }
    }
  }

  lemma MantissaExactly(t: string, e: int, d: Decimal)
    ensures ParseMantissa(t, e) == Ok(d) <==> IsMantissa(t, e, d)
  {
    hide ParseSigned, IsSigned, IndexAny, TwoDots;
    if ParseMantissa(t, e) == Ok(d) {
      MantissaAccepted(t, e, d);
    }
    if IsMantissa(t, e, d) {
      MantissaRead(t, e, d);
    }
  }

  lemma MantissaAccepted(t: string, e: int, d: Decimal)
    requires ParseMantissa(t, e) == Ok(d)
    ensures IsMantissa(t, e, d)
  {
    hide ParseSigned, IsSigned, TwoDots;
    var p := IndexAny(t, {'.'});
    if p < 0 {
      SignedExactly(t, d.value);
    } else {
      var a, b := t[..p], t[p + 1..];
      SignedExactly(a + b, d.value);
      assert t == Pointed(a, b);
    }
  }

  lemma MantissaRead(t: string, e: int, d: Decimal)
    requires IsMantissa(t, e, d)
    ensures ParseMantissa(t, e) == Ok(d)
  {
    hide ParseSigned, IsSigned, IndexAny, TwoDots;
    if IsSigned(t, d.value) && d.exp == e {
      SignedChars(t, d.value);
      assert forall j :: 0 <= j < |t| ==> t[j] in t;
      OnlyDot(t, -1);
      SignedExactly(t, d.value);
    } else {
      var a: string, b: string :| t == Pointed(a, b) && IsSigned(a + b, d.value) && d.exp == e - |b|;
      SignedChars(a + b, d.value);
      PointedChars(a, b);
      OnlyDot(t, |a|);
      SignedExactly(a + b, d.value);
      assert t[..|a|] == a && t[|a| + 1..] == b;
    }
  }

  /** Which texts are read, and as which decimal: a mantissa with at most one point and an optional exponent, as long
      as the exponent fits 32 bits, written and in the result. */
  lemma ParseExactly(s: string, d: Decimal)
    ensures Parse(s) == Ok(d) <==> IsNumeral(s, d)
  {
    hide ParseMantissa, IsMantissa, ParseInt, IsSigned;
    var p := IndexAny(s, {'E', 'e'});
    MantissaExactly(s, 0, d);
    if p < 0 {
      NoExponentPart(s);
    } else {
      if IsMantissa(s, 0, d) {
        MantissaChars(s, 0, d);
      }
      var m, x := s[..p], s[p + 1..];
      assert s == WithExponent(m, s[p], x);
      forall e: int ensures ParseInt(x, MAX_INT32) == Int(e) <==> IsSigned(x, e) && InInt32(e) {
        IntExactly(x, MAX_INT32, e);
      }
      forall e: int ensures ParseMantissa(m, e) == Ok(d) <==> IsMantissa(m, e, d) {
        MantissaExactly(m, e, d);
      }
      forall m': string, c: char, x': string, e: int |
        c in {'E', 'e'} && s == WithExponent(m', c, x') && IsMantissa(m', e, d) ensures m' == m && x' == x {
        MantissaChars(m', e, d);
        SameSplit(s, p, m', c, x');
      }
    }
  }

  lemma NoExponentPart(s: string)
    requires IndexAny(s, {'E', 'e'}) < 0
    ensures forall m: string, c: char, x: string :: c in {'E', 'e'} ==> s != WithExponent(m, c, x)
  {
    forall m: string, c: char, x: string | c in {'E', 'e'} ensures s != WithExponent(m, c, x) {
      assert WithExponent(m, c, x)[|m|] == c;
    }
  }

  lemma SameSplit(s: string, p: nat, m: string, c: char, x: string)
    requires p < |s| && s[p] in {'E', 'e'} && forall j :: 0 <= j < p ==> s[j] !in {'E', 'e'}
    requires c in {'E', 'e'} && s == WithExponent(m, c, x) && forall j :: 0 <= j < |m| ==> m[j] !in {'E', 'e'}
    ensures m == s[..p] && x == s[p + 1..]
  {
    assert s[|m|] == c;
    assert forall j :: 0 <= j < |m| ==> s[j] == m[j];
    assert |m| == p;
  }

  /** A point before the sign is read too, and the sign then counts as a place. */
  lemma PointBeforeSign(ds: seq<Digit>)
    requires ds != [] && |ds| < 0x8000_0000
    ensures Parse(".-" + Chars(ds)) == Ok(Decimal(0 - Val(ds), -|ds| - 1))
  {
    hide *;
    var b, d := SignedText("-", ds), Decimal(0 - Val(ds), -|ds| - 1);
    PointFirst(ds);
    MinusSigned(ds);
    PointedMantissa(b, d);
    MantissaIsNumeral(Pointed("", b), d);
    ParseExactly(Pointed("", b), d);
  }

  lemma PointFirst(ds: seq<Digit>)
    ensures Pointed("", SignedText("-", ds)) == ".-" + Chars(ds) && |SignedText("-", ds)| == |ds| + 1
  {
  }

  lemma PointedMantissa(b: string, d: Decimal)
    requires IsSigned(b, d.value) && d.exp == -|b| && |b| <= 0x8000_0000
    ensures IsMantissa(Pointed("", b), 0, d)
  {
    hide IsSigned, Pointed;
    assert "" + b == b;
  }

  lemma MantissaIsNumeral(s: string, d: Decimal)
    requires IsMantissa(s, 0, d)
    ensures IsNumeral(s, d)
  {
    hide IsMantissa;
  }

  lemma MinusSigned(ds: seq<Digit>)
    requires ds != []
    ensures IsSigned(SignedText("-", ds), 0 - Val(ds))
  {
    assert IsSign("-") && 0 - Val(ds) == Negated("-", Val(ds));
  }

  // ---- the round trip

  /** Reading what the printer writes gives back the sign, the digits and the place of the point. */
  lemma ParseShown(negative: bool, whole: seq<Digit>, fraction: seq<Digit>)
    requires whole != [] && |fraction| <= 0x8000_0000
    ensures var v := Val(whole + fraction);
            Parse(Shown(negative, whole, fraction)) == Ok(Decimal(if negative then 0 - v else v, -|fraction|))
  {
    hide Val, ParseSigned, Chars, Parse, ParseMantissa, IndexAny, TwoDots;
    var t := Shown(negative, whole, fraction);
    var sign := if negative then "-" else "";
    var head := sign + Chars(whole);
    ShownChars(negative, whole, fraction);
    SignedRead(sign, whole + fraction);
    CharsAppend(whole, fraction);
    assert sign + (Chars(whole) + Chars(fraction)) == head + Chars(fraction);
    NoExponent(t);
    if fraction == [] {
      assert t == head && head + Chars(fraction) == head;
      MantissaWithoutPoint(t);
    } else {
      assert t == head + "." + Chars(fraction);
      MantissaWithPoint(t, head, Chars(fraction));
    }
  }

  lemma CharsAppend(a: seq<Digit>, b: seq<Digit>)
    ensures Chars(a + b) == Chars(a) + Chars(b)
    ensures b == [] ==> Chars(b) == ""
  {
  }

  lemma NoExponent(t: string)
    requires IndexAny(t, {'E', 'e'}) == -1
    ensures Parse(t) == ParseMantissa(t, 0)
  {
    hide ParseMantissa;
  }

  lemma MantissaWithoutPoint(t: string)
    requires !TwoDots(t) && forall i :: 0 <= i < |t| ==> t[i] != '.'
    ensures ParseSigned(t).Int? ==> ParseMantissa(t, 0) == Ok(Decimal(ParseSigned(t).value, 0))
  {
    hide ParseSigned;
  }

  lemma MantissaWithPoint(t: string, head: string, tail: string)
    requires t == head + "." + tail && !TwoDots(t) && |tail| <= 0x8000_0000
    ensures ParseSigned(head + tail).Int? ==>
              ParseMantissa(t, 0) == Ok(Decimal(ParseSigned(head + tail).value, -|tail|))
  {
    hide ParseSigned;
    var p := IndexAny(t, {'.'});
    assert t[|head|] == '.';
    assert p == |head|;
    assert t[..p] == head && t[p + 1..] == tail;
  }

  lemma ShownChars(negative: bool, whole: seq<Digit>, fraction: seq<Digit>)
    ensures var t := Shown(negative, whole, fraction);
            && IndexAny(t, {'E', 'e'}) == -1 && !TwoDots(t)
            && var n := |whole| + if negative then 1 else 0;
               forall i :: 0 <= i < |t| ==> (t[i] == '.' <==> i == n)
  {
    CharsBack(whole);
    CharsBack(fraction);
    var t := Shown(negative, whole, fraction);
    var n := |whole| + if negative then 1 else 0;
    forall i | 0 <= i < |t| ensures (t[i] == '.' <==> i == n) && t[i] !in {'E', 'e'} {
      if i < n && negative && i > 0 {
        assert t[i] == Chars(whole)[i - 1];
      }
      if i > n {
        assert t[i] == Chars(fraction)[i - n - 1];
      }
    }
  }

  /** Reading a printed decimal gives the same number, for every coefficient and exponent. */
  lemma RoundTrip(d: Decimal)
    requires d.exp >= MIN_INT32
    ensures Parse(Text(d)).Ok? && Parse(Text(d)).value.Amount() == d.Amount()
  {
    hide Num, Val, Strip, RawParts, Canonical, Parse, Shown;
    var (whole, raw) := RawParts(d);
    var f := Strip(raw);
    PartsCanonical(d);
    RawLength(d);
    CanonicalFacts(whole, f, AbsReal(d.Amount()));
    ParseShown(d.value < 0, whole, f);
    ShownText(d);
    NumAbs(d.value, d.exp);
    var v := Val(whole + f);
    NumDiff(0, v, -|f|);
    NumZero(-|f|);
  }

  lemma RawLength(d: Decimal)
    ensures |RawParts(d).1| == if d.exp >= 0 then 0 else -d.exp
  {
  }

  lemma CanonicalFacts(w: seq<Digit>, f: seq<Digit>, x: real)
    requires Canonical(w, f, x)
    ensures w != [] && Num(Val(w + f), -|f|) == x
  {
  }

  lemma ShownText(d: Decimal)
    ensures Text(d) == Shown(d.value < 0, RawParts(d).0, Strip(RawParts(d).1))
  {
  }

  /** Two decimals print alike exactly when they are numerically equal. */
  lemma CanonicalText(d: Decimal, e: Decimal)
    requires d.exp >= MIN_INT32 && e.exp >= MIN_INT32
    ensures Text(d) == Text(e) <==> Cmp(d, e) == 0
  {
    hide Num, Val, Strip, RawParts, Canonical, Parse, Shown, Text, Cmp;
    CmpMeaning(d, e);
    RoundTrip(d);
    RoundTrip(e);
    if d.Amount() == e.Amount() {
      PartsCanonical(d);
      PartsCanonical(e);
      var (w, raw) := RawParts(d);
      var (w', raw') := RawParts(e);
      CanonicalUnique(w, Strip(raw), w', Strip(raw'), AbsReal(d.Amount()));
      ShownText(d);
      ShownText(e);
      NumAbs(d.value, d.exp);
      NumAbs(e.value, e.exp);
    }
  }
}
