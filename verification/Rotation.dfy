/** A 64-bit counter taken modulo the number of endpoints, and when that visits each of them once. */
module Rotation {
  import opened Powers
  import opened RoundRobin

  const WRAP := 0x1_0000_0000_0000_0000

  type Word64 = x: int | 0 <= x < WRAP

  /** The counter after k steps. */
  function Turn(counter: Word64, k: nat): Word64 {
    (counter + k) % WRAP
  }

  /** Which of n endpoints the k-th turn takes. */
  function Landing(counter: Word64, n: nat, k: nat): (r: nat)
    requires n > 0
    ensures r < n
  {
    Turn(counter, k) % n
  }

  lemma TurnNothing(counter: Word64)
    ensures Turn(counter, 0) == counter
  {
  }

  lemma TurnOn(counter: Word64, k: nat, n: nat)
    ensures Turn(Turn(counter, k), 1) == Turn(counter, k + 1)
    ensures n > 0 ==> Landing(Turn(counter, k), n, 1) == Landing(counter, n, k + 1)
  {
    WrapOn(counter + k, WRAP);
  }

  lemma WrapOn(x: nat, wrap: nat)
    requires wrap > 0
    ensures (x % wrap + 1) % wrap == (x + 1) % wrap
  {
    var q, r := x / wrap, x % wrap;
    QuotientBack(x, wrap, q, r);
    NextRemainder(x, wrap, q, r);
    NextRemainder(r, wrap, 0, r);
  }

  lemma NextRemainder(x: nat, n: nat, q: nat, r: nat)
    requires r < n && x == q * n + r
    ensures (x + 1) % n == if r + 1 < n then r + 1 else 0
  {
    if r + 1 < n {
      RemainderIs(x + 1, q, n, r + 1);
    } else {
      TimesNext(q, n);
      RemainderIs(x + 1, q + 1, n, 0);
    }
  }

  /** The landings of the next m turns. */
  ghost function Turns(counter: Word64, n: nat, m: nat): (s: seq<nat>)
    requires n > 0
    ensures |s| == m
  {
    seq(m, k requires 0 <= k < m => Landing(counter, n, k + 1))
  }

  ghost predicate AllDiffer(s: seq<nat>) {
    forall i, j :: 0 <= i < j < |s| ==> s[i] != s[j]
  }

  ghost predicate EachOnce(s: seq<nat>, n: nat) {
    forall e :: 0 <= e < n ==> Count(s, e) == 1
  }

  // ---- n numbers below n

  /** They are all different exactly if each number occurs once. */
  lemma AllDifferOnce(s: seq<nat>, n: nat)
    requires |s| == n && forall k :: 0 <= k < n ==> s[k] < n
    ensures EachOnce(s, n) <==> AllDiffer(s)
  {
    if AllDiffer(s) {
      CountsTotal(s, n);
      SumOnes(n);
      forall e | 0 <= e < n ensures Counts(s, n)[e] <= 1 {
        AtMostOnce(s, e);
      }
      hide Count, Sum;
      SumAtMost(Counts(s, n), Ones(n));
      assert forall e :: 0 <= e < n ==> Count(s, e) == Counts(s, n)[e] == Ones(n)[e];
    }
    if EachOnce(s, n) {
      forall i, j | 0 <= i < j < |s| ensures s[i] != s[j] {
        if s[i] == s[j] {
          AtLeastTwice(s, i, j);
        }
      }
    }
  }

  ghost function Ones(n: nat): (s: seq<int>)
    ensures |s| == n
  {
    seq(n, _ => 1)
  }

  lemma {:induction false} SumOnes(n: nat)
    ensures Sum(Ones(n)) == n
  {
    if n > 0 {
      SumOnes(n - 1);
      assert Ones(n)[..n - 1] == Ones(n - 1);
    }
  }

  lemma {:induction false} AtMostOnce(s: seq<nat>, e: nat)
    requires AllDiffer(s)
    ensures Count(s, e) <= 1
    ensures e !in s ==> Count(s, e) == 0
  {
    if s != [] {
      var n := |s| - 1;
      AtMostOnce(s[..n], e);
      if s[n] == e {
        assert e !in s[..n];
      }
    }
  }

  lemma {:induction false} AtLeastOnce(s: seq<nat>, i: nat)
    requires i < |s|
    ensures Count(s, s[i]) >= 1
  {
    if i < |s| - 1 {
      AtLeastOnce(s[..|s| - 1], i);
    }
  }

  lemma {:induction false} AtLeastTwice(s: seq<nat>, i: nat, j: nat)
    requires i < j < |s| && s[i] == s[j]
    ensures Count(s, s[i]) >= 2
  {
    var n := |s| - 1;
    if j < n {
      AtLeastTwice(s[..n], i, j);
    } else {
      AtLeastOnce(s[..n], i);
    }
  }

  // ---- consecutive turns

  /** n turns with nothing in between take each of n endpoints once, except across a wrap of the counter when n does
      not divide 2^64. */
  lemma EveryTurnOnce(counter: Word64, n: nat)
    requires 0 < n < WRAP
    ensures AllDiffer(Turns(counter, n, n)) <==> counter + n < WRAP || counter == WRAP - 1 || WRAP % n == 0
  {
    hide Landing, Share;
    var s := Turns(counter, n, n);
    if counter == WRAP - 1 || counter + n < WRAP || WRAP % n == 0 {
      forall i, j | 0 <= i < j < n ensures s[i] != s[j] {
        if counter == WRAP - 1 {
          LandsAtWrap(counter, n, i + 1);
          LandsAtWrap(counter, n, j + 1);
        } else {
          LandsAhead(counter, n, i + 1);
          LandsAhead(counter, n, j + 1);
        }
      }
    } else {
      var i, j := TakenTwice(counter, n);
      assert s[i] == s[j];
    }
  }

  lemma LandsAtWrap(counter: Word64, n: nat, j: nat)
    requires 1 <= j <= n < WRAP && counter == WRAP - 1
    ensures Landing(counter, n, j) == j - 1
  {
    hide Landing;
    LandingAt(counter, n, j, j - 1);
    RemainderIs(j - 1, 0, n, j - 1);
  }

  /** Where a turn goes from endpoint r, when nothing disturbs the count. */
  function Ahead(r: nat, j: nat, n: nat): int {
    if r + j < n then r + j else r + j - n
  }

  lemma LandsAhead(counter: Word64, n: nat, j: nat)
    requires 1 <= j <= n < WRAP && (counter + n < WRAP || WRAP % n == 0)
    ensures Landing(counter, n, j) == Ahead(Share(counter, n), j, n)
  {
    StepAround(counter, n, j);
    WrapAround(counter + j, n);
  }

  lemma WrapAround(x: nat, n: nat)
    requires 0 < n && x < 2 * WRAP && (x < WRAP || WRAP % n == 0)
    ensures (x % WRAP) % n == x % n
  {
    if x >= WRAP {
      var y := x - WRAP;
      var q, d := y / n, WRAP / n;
      QuotientBack(y, n, q, y % n);
      QuotientBack(WRAP, n, d, 0);
      assert (q + d) * n == q * n + d * n;
      RemainderIs(x, q + d, n, y % n);
    }
  }

  lemma TakenTwice(counter: Word64, n: nat) returns (i: nat, j: nat)
    requires counter < WRAP - 1 && 0 < n < WRAP && counter + n >= WRAP && WRAP % n != 0
    ensures i < j < n && Landing(counter, n, i + 1) == Landing(counter, n, j + 1)
  {
    hide Landing;
    var m, wrapped := WRAP % n, counter + n - WRAP + 1;
    var e: nat := if m <= wrapped then m - 1 else wrapped - 1;
    var last := WRAP - m + e;
    i, j := last - counter - 1, e + WRAP - counter - 1;
    LandingAt(counter, n, i + 1, last);
    LandingAt(counter, n, j + 1, e);
    QuotientBack(WRAP, n, WRAP / n, m);
    RemainderIs(last, WRAP / n, n, e);
    RemainderIs(e, 0, n, e);
  }

  lemma LandingAt(counter: Word64, n: nat, k: nat, x: nat)
    requires n > 0 && x < WRAP && (counter + k == x || counter + k == x + WRAP)
    ensures Landing(counter, n, k) == x % n
  {
  }

  /** Of two endpoints, an even number of turns comes back to the same. */
  lemma SameSide(counter: Word64, t: nat)
    requires t % 2 == 0
    ensures Landing(counter, 2, t + 1) == Landing(counter, 2, 1)
  {
  }

  function Share(counter: nat, n: nat): (r: nat)
    requires n > 0
    ensures r < n
  {
    counter % n
  }

  lemma StepAround(counter: nat, n: nat, j: nat)
    requires 1 <= j <= n
    ensures (counter + j) % n == Ahead(Share(counter, n), j, n)
  {
    var q, r := counter / n, counter % n;
    QuotientBack(counter, n, q, r);
    if r + j < n {
      RemainderIs(counter + j, q, n, r + j);
    } else {
      TimesNext(q, n);
      RemainderIs(counter + j, q + 1, n, r + j - n);
    }
  }
}
