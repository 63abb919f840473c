/** Decimal numerals as text: characters, digits and the library parsers of signed integers. */
module Strconv {
  import opened Powers
  import opened DigitSeq

  const MIN_INT32 := -0x8000_0000
  const MAX_INT32 := 0x7FFF_FFFF
  const MAX_INT64 := 0x7FFF_FFFF_FFFF_FFFF

  // ---- digits and characters

  function Chr(d: Digit): char {
    '0' + d as char
  }

  function Chars(s: seq<Digit>): (t: string)
    ensures |t| == |s| && forall i :: 0 <= i < |s| ==> t[i] == Chr(s[i])
  {
    seq(|s|, i requires 0 <= i < |s| => Chr(s[i]))
  }

  predicate IsDigitChar(c: char) {
    '0' <= c <= '9'
  }

  predicate AllDigits(s: string) {
    forall i :: 0 <= i < |s| ==> IsDigitChar(s[i])
  }

  function FromChars(s: string): (t: seq<Digit>)
    requires AllDigits(s)
    ensures |t| == |s| && forall i :: 0 <= i < |s| ==> t[i] == s[i] as int - '0' as int
  {
    seq(|s|, i requires 0 <= i < |s| => (s[i] as int - '0' as int) as Digit)
  }

  lemma CharsBack(s: seq<Digit>)
    ensures AllDigits(Chars(s)) && FromChars(Chars(s)) == s
    ensures forall c :: c in Chars(s) ==> IsDigitChar(c)
  {
  }

  datatype IntResult = Int(value: int) | Syntax | Range

  function Unsigned(s: string): string {
    if s != "" && (s[0] == '-' || s[0] == '+') then s[1..] else s
  }

  /** An optionally signed run of decimal digits, as big.Int takes it. */
  function ParseSigned(s: string): IntResult {
    var digits := Unsigned(s);
    if digits == "" || !AllDigits(digits) then Syntax
    else if s[0] == '-' then Int(0 - Val(FromChars(digits))) else Int(Val(FromChars(digits)))
  }

  /** A run of digits behind an optional sign. */
  function SignedText(sign: string, ds: seq<Digit>): string {
    sign + Chars(ds)
  }

  function Negated(sign: string, v: int): int {
    if sign == "-" then 0 - v else v
  }

  predicate IsSign(sign: string) {
    sign == "" || sign == "-" || sign == "+"
  }

  /** The text of an integer: at least one digit, perhaps behind a sign. */
  ghost predicate IsSigned(s: string, v: int) {
    exists sign: string, ds: seq<Digit> ::
      IsSign(sign) && ds != [] && s == SignedText(sign, ds) && v == Negated(sign, Val(ds))
  }

  lemma SignedRead(sign: string, ds: seq<Digit>)
    requires IsSign(sign) && ds != []
    ensures ParseSigned(SignedText(sign, ds)) == Int(Negated(sign, Val(ds)))
  {
    hide Val;
    CharsBack(ds);
    var s := SignedText(sign, ds);
    if sign == "" {
      assert s == Chars(ds);
      assert IsDigitChar(s[0]);
    } else {
      assert s[1..] == Chars(ds);
    }
  }

  lemma SignedAccepted(s: string) returns (sign: string, ds: seq<Digit>)
    requires ParseSigned(s).Int?
    ensures IsSign(sign) && ds != [] && s == SignedText(sign, ds)
  {
    hide Val;
    var digits := Unsigned(s);
    sign, ds := s[..|s| - |digits|], FromChars(digits);
    assert Chars(ds) == digits;
  }

  /** Those texts, and no others, are read, as the integer they show. */
  lemma SignedExactly(s: string, v: int)
    ensures ParseSigned(s) == Int(v) <==> IsSigned(s, v)
  {
    hide Val, ParseSigned, SignedText, Negated, IsSign;
    if ParseSigned(s) == Int(v) {
      var sign, ds := SignedAccepted(s);
      SignedRead(sign, ds);
    }
    if IsSigned(s, v) {
      var sign: string, ds: seq<Digit> :| IsSign(sign) && ds != [] && s == SignedText(sign, ds) && v == Negated(sign, Val(ds));
      SignedRead(sign, ds);
    }
  }

  lemma SignedChars(s: string, v: int)
    requires IsSigned(s, v)
    ensures forall c :: c in s ==> IsDigitChar(c) || c == '-' || c == '+'
  {
    hide Val;
    var sign: string, ds: seq<Digit> :| IsSign(sign) && ds != [] && s == SignedText(sign, ds) && v == Negated(sign, Val(ds));
    CharsBack(ds);
  }

  function DigitPrefix(s: string): (t: string)
    ensures AllDigits(t) && |t| <= |s|
    ensures AllDigits(s) ==> t == s
  {
    if s == "" || !IsDigitChar(s[0]) then "" else
      var t := DigitPrefix(s[1..]);
      assert AllDigits(s) ==> AllDigits(s[1..]);
      [s[0]] + t
  }

  /** The machine-integer parser for min = -(max + 1): digits that exceed the unsigned width are out of
      range even when a bad character follows them. */
  function ParseInt(s: string, max: nat): IntResult {
    var r := ParseSigned(s);
    if Val(FromChars(DigitPrefix(Unsigned(s)))) > 2 * max + 1 then Range
    else if r.Int? && !(0 - max - 1 <= r.value <= max) then Range
    else r
  }

  /** The machine-integer parser reads the same texts, as long as the integer fits. */
  lemma IntExactly(s: string, max: nat, v: int)
    ensures ParseInt(s, max) == Int(v) <==> IsSigned(s, v) && 0 - max - 1 <= v <= max
  {
    hide Val, IsSigned;
    SignedExactly(s, v);
    if ParseSigned(s) == Int(v) {
      assert DigitPrefix(Unsigned(s)) == Unsigned(s);
    }
  }

  /** Eighteen characters always fit a machine integer. */
  lemma ShortFits(s: string)
    requires |s| <= 18
    ensures ParseInt(s, MAX_INT64) == ParseSigned(s)
  {
    var digits := DigitPrefix(Unsigned(s));
    ValBound(FromChars(digits));
    hide Val, Pow, DigitPrefix;
    PowMonotone(10, |digits|, 18);
    EighteenPow();
  }
}
