/** Ordering of dotted version strings. */
module Version {
  import opened DigitSeq
  import opened Strconv

  // ---- components

  predicate IsSpace(c: char) {
    || '\t' <= c <= '\r' || c == ' ' || c == '\U{85}' || c == '\U{A0}' || c == '\U{1680}'
    || '\U{2000}' <= c <= '\U{200A}' || c == '\U{2028}' || c == '\U{2029}' || c == '\U{202F}'
    || c == '\U{205F}' || c == '\U{3000}'
  }

  function TrimLeft(s: string): string {
    if s != "" && IsSpace(s[0]) then TrimLeft(s[1..]) else s
  }

  function TrimRight(s: string): string {
    if s != "" && IsSpace(s[|s| - 1]) then TrimRight(s[..|s| - 1]) else s
  }

  function TrimSpace(s: string): string {
    TrimRight(TrimLeft(s))
  }

  /** The pieces between separators: one more than there are separators. */
  function Split(s: string, sep: char): (parts: seq<string>)
    ensures |parts| >= 1
  {
    if s == "" then [""] else
      var rest := Split(s[1..], sep);
      if s[0] == sep then [""] + rest else [[s[0]] + rest[0]] + rest[1..]
  }

  function Join(parts: seq<string>, sep: char): string {
    if parts == [] then "" else if |parts| == 1 then parts[0] else parts[0] + [sep] + Join(parts[1..], sep)
  }

  /** The pieces are the text between separators: none contains one, and joined they are the text again. */
  lemma {:induction false} SplitPieces(s: string, sep: char)
    ensures Join(Split(s, sep), sep) == s
    ensures forall i :: 0 <= i < |Split(s, sep)| ==> sep !in Split(s, sep)[i]
  {
    if s != "" {
      var rest := Split(s[1..], sep);
      SplitPieces(s[1..], sep);
      assert s == [s[0]] + s[1..];
      if s[0] == sep {
        assert ([""] + rest)[1..] == rest;
      } else {
        assert ([[s[0]] + rest[0]] + rest[1..])[1..] == rest[1..];
      }
    }
  }

  /** A component that is not a 64-bit integer counts as zero. */
  function ParseVersionPart(part: string): int {
    match ParseInt(TrimSpace(part), MAX_INT64)
    case Int(v) => v
    case _ => 0
  }

  function Components(version: string): (c: seq<int>)
    ensures |c| >= 1
  {
    var parts := Split(if version == "" then "0" else version, '.');
    seq(|parts|, i requires 0 <= i < |parts| => ParseVersionPart(parts[i]))
  }

  /** A component is the 64-bit integer it shows between spaces, and zero if it shows none. */
  lemma ComponentIs(part: string, v: int)
    ensures IsSigned(TrimSpace(part), v) && -0x8000_0000_0000_0000 <= v <= MAX_INT64 ==> ParseVersionPart(part) == v
    ensures (forall w :: IsSigned(TrimSpace(part), w) ==> !(-0x8000_0000_0000_0000 <= w <= MAX_INT64)) ==>
              ParseVersionPart(part) == 0
  {
    hide IsSigned, TrimSpace, ParseInt;
    IntExactly(TrimSpace(part), MAX_INT64, v);
    var r := ParseInt(TrimSpace(part), MAX_INT64);
    if r.Int? {
      IntExactly(TrimSpace(part), MAX_INT64, r.value);
    }
  }

  // ---- dotted numbers

  predicate Numbers(ns: seq<seq<Digit>>) {
    ns != [] && forall i :: 0 <= i < |ns| ==> ns[i] != [] && Val(ns[i]) <= MAX_INT64
  }

  function Pieces(ns: seq<seq<Digit>>): (parts: seq<string>)
    ensures |parts| == |ns|
  {
    seq(|ns|, i requires 0 <= i < |ns| => Chars(ns[i]))
  }

  /** Numbers with dots between them. */
  function Dotted(ns: seq<seq<Digit>>): string {
    Join(Pieces(ns), '.')
  }

  function Values(ns: seq<seq<Digit>>): (v: seq<int>)
    ensures |v| == |ns|
  {
    seq(|ns|, i requires 0 <= i < |ns| => Val(ns[i]))
  }

  lemma {:induction false} JoinedSplits(parts: seq<string>, sep: char)
    requires parts != [] && forall i :: 0 <= i < |parts| ==> sep !in parts[i]
    ensures Split(Join(parts, sep), sep) == parts
  {
    if |parts| == 1 {
      NothingToSplit(parts[0], sep);
    } else {
      JoinedSplits(parts[1..], sep);
      SplitFirst(parts[0], Join(parts[1..], sep), sep);
      assert [parts[0]] + parts[1..] == parts;
      assert parts[0] + [sep] + Join(parts[1..], sep) == parts[0] + ([sep] + Join(parts[1..], sep));
    }
  }

  lemma {:induction false} NothingToSplit(s: string, sep: char)
    requires sep !in s
    ensures Split(s, sep) == [s]
  {
    if s != "" {
      NothingToSplit(s[1..], sep);
      assert [s[0]] + s[1..] == s;
    }
  }

  lemma {:induction false} SplitFirst(s: string, rest: string, sep: char)
    requires sep !in s
    ensures Split(s + ([sep] + rest), sep) == [s] + Split(rest, sep)
  {
    var t := s + ([sep] + rest);
    if s == "" {
      assert t == [sep] + rest && t[1..] == rest;
    } else {
      SplitFirst(s[1..], rest, sep);
      assert t[1..] == s[1..] + ([sep] + rest) && t[0] == s[0];
      assert [s[0]] + s[1..] == s;
      assert ([s[1..]] + Split(rest, sep))[1..] == Split(rest, sep);
    }
  }

  lemma DigitsPart(ds: seq<Digit>)
    requires ds != [] && Val(ds) <= MAX_INT64
    ensures ParseVersionPart(Chars(ds)) == Val(ds)
  {
    hide Val, IsSigned, ParseVersionPart;
    CharsBack(ds);
    NoSpaces(Chars(ds));
    DigitsSigned(ds);
    ComponentIs(Chars(ds), Val(ds));
  }

  lemma NoSpaces(s: string)
    requires AllDigits(s)
    ensures TrimSpace(s) == s
  {
  }

  lemma DigitsSigned(ds: seq<Digit>)
    requires ds != []
    ensures IsSigned(Chars(ds), Val(ds))
  {
    hide Val;
    assert SignedText("", ds) == Chars(ds) && IsSign("") && Val(ds) == Negated("", Val(ds));
  }

  lemma DottedComponents(ns: seq<seq<Digit>>)
    requires Numbers(ns)
    ensures Components(Dotted(ns)) == Values(ns)
  {
    hide Val, Split, ParseVersionPart, Join, Components;
    var parts := Pieces(ns);
    forall i | 0 <= i < |ns| ensures '.' !in parts[i] && ParseVersionPart(parts[i]) == Val(ns[i]) {
      CharsBack(ns[i]);
      DigitsPart(ns[i]);
    }
    JoinedSplits(parts, '.');
    EmptySplits();
    assert |parts[0]| == |ns[0]| > 0;
    assert Dotted(ns) != "";
    ComponentsOf(Dotted(ns));
    assert Components(Dotted(ns)) == Values(ns);
  }

  lemma ComponentsOf(version: string)
    requires version != ""
    ensures var (c, parts) := (Components(version), Split(version, '.'));
            |c| == |parts| && forall i :: 0 <= i < |c| ==> c[i] == ParseVersionPart(parts[i])
  {
    hide Split, ParseVersionPart;
  }

  lemma EmptySplits()
    ensures Split("", '.') == [""] && Chars([]) == ""
  {
  }

  // ---- the order

  /** Component i, with missing components read as zero. */
  function At(c: seq<int>, i: nat): int {
    if i < |c| then c[i] else 0
  }

  ghost predicate SameUpTo(a: seq<int>, b: seq<int>, n: nat) {
    forall i: nat :: i < n ==> At(a, i) == At(b, i)
  }

  /** a is ahead of b at the first component where the zero-padded sequences differ. */
  ghost predicate Newer(a: seq<int>, b: seq<int>) {
    exists n: nat :: SameUpTo(a, b, n) && At(a, n) > At(b, n)
  }

  ghost function VersionOrder(a: string, b: string): int {
    if Newer(Components(a), Components(b)) then 1
    else if Newer(Components(b), Components(a)) then -1
    else 0
  }

  /** Components are compared left to right up to the longer length. */
  method CompareVersion(a: string, b: string) returns (r: int)
    ensures r == VersionOrder(a, b)
  {
    hide Split, ParseVersionPart, Newer;
    if a == b {
      NotNewerThanItself(Components(a));
      return 0;
    }
    var a', b' := if a == "" then "0" else a, if b == "" then "0" else b;
    var partsA, partsB := Split(a', '.'), Split(b', '.');
    ghost var x, y := Components(a), Components(b);
    var n := if |partsA| > |partsB| then |partsA| else |partsB|;
    for i := 0 to n
      invariant SameUpTo(x, y, i)
    {
      var va := if i < |partsA| then ParseVersionPart(partsA[i]) else 0;
      var vb := if i < |partsB| then ParseVersionPart(partsB[i]) else 0;
      assert va == At(x, i) && vb == At(y, i);
      if va > vb {
        NewerOneWay(y, x, i);
        return 1;
      }
      if va < vb {
        NewerOneWay(x, y, i);
        return -1;
      }
    }
    SameEverywhere(x, y, n);
    return 0;
  }

  /** Dotted numbers compare as the sequences of numbers they spell, missing ones being zero. */
  lemma DottedOrder(a: seq<seq<Digit>>, b: seq<seq<Digit>>)
    requires Numbers(a) && Numbers(b)
    ensures VersionOrder(Dotted(a), Dotted(b)) in {-1, 0, 1}
    ensures VersionOrder(Dotted(a), Dotted(b)) > 0 <==>
              exists n: nat :: At(Values(a), n) > At(Values(b), n)
                               && forall i: nat :: i < n ==> At(Values(a), i) == At(Values(b), i)
    ensures VersionOrder(Dotted(a), Dotted(b)) == -VersionOrder(Dotted(b), Dotted(a))
  {
    hide Components, Values, Dotted, At;
    DottedComponents(a);
    DottedComponents(b);
    OrderIsAntisymmetric(Dotted(a), Dotted(b));
  }

  lemma NotNewerThanItself(c: seq<int>)
    ensures !Newer(c, c)
  {
  }

  lemma NewerOneWay(a: seq<int>, b: seq<int>, n: nat)
    requires SameUpTo(a, b, n) && At(a, n) < At(b, n)
    ensures Newer(b, a) && !Newer(a, b)
  {
    forall m: nat ensures !(SameUpTo(a, b, m) && At(a, m) > At(b, m)) {
      if m < n {
        assert At(a, m) == At(b, m);
      } else if m > n {
        assert At(a, n) != At(b, n);
      }
    }
    assert SameUpTo(b, a, n);
  }

  lemma SameEverywhere(a: seq<int>, b: seq<int>, n: nat)
    requires SameUpTo(a, b, n) && n >= |a| && n >= |b|
    ensures !Newer(a, b) && !Newer(b, a)
  {
    assert forall i: nat :: At(a, i) == At(b, i);
  }

  // ---- a total preorder

  lemma NewerTransitive(a: seq<int>, b: seq<int>, c: seq<int>)
    requires Newer(a, b) && !Newer(c, b)
    ensures Newer(a, c)
  {
    var n: nat :| SameUpTo(a, b, n) && At(a, n) > At(b, n);
    var m := FirstDifference(b, c, n);
    assert At(b, m) >= At(c, m);
    assert SameUpTo(a, c, m);
    assert At(a, m) > At(c, m);
  }

  /** The first place up to n where b and c differ, or n. */
  lemma FirstDifference(b: seq<int>, c: seq<int>, n: nat) returns (m: nat)
    requires !Newer(c, b)
    ensures m <= n && SameUpTo(b, c, m) && At(b, m) >= At(c, m) && (m < n ==> At(b, m) > At(c, m))
  {
    m := 0;
    while m < n && At(b, m) == At(c, m)
      invariant m <= n && SameUpTo(b, c, m)
    {
      m := m + 1;
    }
    assert SameUpTo(c, b, m);
  }

  /** Two versions are never both newer than the other, and equality is exactly equality after padding with zeros. */
  lemma OrderIsAntisymmetric(a: string, b: string)
    ensures VersionOrder(a, b) == 0 - VersionOrder(b, a)
    ensures VersionOrder(a, b) == 0 <==> forall i: nat :: At(Components(a), i) == At(Components(b), i)
  {
    var x, y := Components(a), Components(b);
    if Newer(x, y) {
      var n: nat :| SameUpTo(x, y, n) && At(x, n) > At(y, n);
      NewerOneWay(y, x, n);
    } else if Newer(y, x) {
      var n: nat :| SameUpTo(y, x, n) && At(y, n) > At(x, n);
    } else {
      forall i: nat ensures At(x, i) == At(y, i) {
        var m := FirstDifference(x, y, i);
        assert SameUpTo(x, y, m) && SameUpTo(y, x, m);
      }
    }
  }

  /** "At least as new as" is transitive, so with antisymmetry a total preorder. */
  lemma OrderIsTransitive(a: string, b: string, c: string)
    requires VersionOrder(a, b) >= 0 && VersionOrder(b, c) >= 0
    ensures VersionOrder(a, c) >= 0
    ensures VersionOrder(a, c) == 0 ==> VersionOrder(a, b) == 0 && VersionOrder(b, c) == 0
  {
    var x, y, z := Components(a), Components(b), Components(c);
    OrderIsAntisymmetric(a, b);
    OrderIsAntisymmetric(b, c);
    OrderIsAntisymmetric(a, c);
    if Newer(x, y) {
      NewerTransitive(x, y, z);
    } else if Newer(z, x) {
      NewerTransitive(z, x, y);
      assert false;
    } else if Newer(y, z) {
      if !Newer(x, z) {
        NewerTransitive(y, z, x);
        assert false;
      }
    }
  }

  /** The first of the newest versions, or nothing. */
  method MaxVersion(versions: seq<string>) returns (max: string)
    ensures versions == [] ==> max == ""
    ensures versions != [] ==>
              exists k :: 0 <= k < |versions| && max == versions[k]
                          && (forall i :: 0 <= i < |versions| ==> VersionOrder(max, versions[i]) >= 0)
                          && (forall i :: 0 <= i < k ==> VersionOrder(max, versions[i]) > 0)
  {
    hide VersionOrder;
    if |versions| == 0 {
      return "";
    }
    max := versions[0];
    ghost var k := 0;
    OrderIsAntisymmetric(max, max);
    for i := 1 to |versions|
      invariant 0 <= k < i && max == versions[k]
      invariant forall j :: 0 <= j < i ==> VersionOrder(max, versions[j]) >= 0
      invariant forall j :: 0 <= j < k ==> VersionOrder(max, versions[j]) > 0
    {
      var c := CompareVersion(versions[i], max);
      OrderIsAntisymmetric(versions[i], max);
      if c > 0 {
        forall j | 0 <= j < i ensures VersionOrder(versions[i], versions[j]) > 0 {
          OrderIsTransitive(versions[i], max, versions[j]);
        }
        max := versions[i];
        k := i;
        OrderIsAntisymmetric(max, max);
      }
    }
  }
}
