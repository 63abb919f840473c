/** Smooth weighted round robin on the current weights of a bucket, and its exact fairness. */
module RoundRobin {

  function Sum(s: seq<int>): int {
    if s == [] then 0 else Sum(s[..|s| - 1]) + s[|s| - 1]
  }

  /** Every current weight grows by its own weight. */
  function Bumped(c: seq<int>, w: seq<int>): (b: seq<int>)
    requires |c| == |w|
    ensures |b| == |c|
  {
    seq(|c|, i requires 0 <= i < |c| => c[i] + w[i])
  }

  /** The first largest element. */
  predicate IsWinner(b: seq<int>, k: nat) {
    && k < |b|
    && (forall i :: 0 <= i < k ==> b[i] < b[k])
    && (forall i :: k < i < |b| ==> b[i] <= b[k])
  }

  function Winner(b: seq<int>): (k: nat)
    requires b != []
    ensures k < |b| && IsWinner(b, k)
  {
    if |b| == 1 then 0 else
      var k := Winner(b[..|b| - 1]);
      if b[|b| - 1] > b[k] then |b| - 1 else k
  }

  /** One pick: the index chosen and the current weights afterwards. */
  function Pick(c: seq<int>, w: seq<int>): (r: (nat, seq<int>))
    requires |c| == |w| && c != []
    ensures r.0 < |c| && |r.1| == |c|
  {
    var b := Bumped(c, w);
    var k := Winner(b);
    (k, b[k := b[k] - Sum(w)])
  }

  /** Everybody earns the own weight; the first of those furthest ahead is chosen and pays the total. */
  lemma PickMeans(c: seq<int>, w: seq<int>)
    requires |c| == |w| && c != []
    ensures var (k, after) := Pick(c, w);
            && (forall j :: 0 <= j < k ==> c[j] + w[j] < c[k] + w[k])
            && (forall j :: k < j < |c| ==> c[j] + w[j] <= c[k] + w[k])
            && (forall j :: 0 <= j < |c| ==> after[j] == c[j] + w[j] - if j == k then Sum(w) else 0)
  {
    hide Sum;
    var b := Bumped(c, w);
    assert forall j :: 0 <= j < |c| ==> b[j] == c[j] + w[j];
  }

  /** The indices chosen by n consecutive picks, and the current weights afterwards. */
  function Run(c: seq<int>, w: seq<int>, n: nat): (r: (seq<nat>, seq<int>))
    requires |c| == |w| && c != []
    ensures |r.0| == n && |r.1| == |c|
  {
    if n == 0 then ([], c) else
      var (picks, c') := Run(c, w, n - 1);
      var (k, c'') := Pick(c', w);
      (picks + [k], c'')
  }

  function Count(picks: seq<nat>, k: nat): nat {
    if picks == [] then 0 else Count(picks[..|picks| - 1], k) + if picks[|picks| - 1] == k then 1 else 0
  }

  function Zeros(n: nat): (z: seq<int>)
    ensures |z| == n
  {
    seq(n, _ => 0)
  }

  // ---- sums

  lemma {:induction false} SumBumped(c: seq<int>, w: seq<int>)
    requires |c| == |w|
    ensures Sum(Bumped(c, w)) == Sum(c) + Sum(w)
  {
    var n := |c|;
    if n > 0 {
      SumBumped(c[..n - 1], w[..n - 1]);
      assert Bumped(c, w)[..n - 1] == Bumped(c[..n - 1], w[..n - 1]);
    }
  }

  lemma {:induction false} SumUpdate(s: seq<int>, k: nat, x: int)
    requires k < |s|
    ensures Sum(s[k := x]) == Sum(s) + x - s[k]
  {
    var n := |s|;
    if k < n - 1 {
      SumUpdate(s[..n - 1], k, x);
      assert s[k := x][..n - 1] == s[..n - 1][k := x];
    } else {
      assert s[k := x][..n - 1] == s[..n - 1];
    }
  }

  lemma {:induction false} SumAtMost(s: seq<int>, t: seq<int>)
    requires |s| == |t| && forall i :: 0 <= i < |s| ==> s[i] <= t[i]
    ensures Sum(s) <= Sum(t)
    ensures Sum(s) == Sum(t) ==> s == t
  {
    var n := |s|;
    if n > 0 {
      SumAtMost(s[..n - 1], t[..n - 1]);
      assert s == s[..n - 1] + [s[n - 1]] && t == t[..n - 1] + [t[n - 1]];
    }
  }

  lemma {:induction false} SumZeros(n: nat)
    ensures Sum(Zeros(n)) == 0
  {
    if n > 0 {
      SumZeros(n - 1);
      assert Zeros(n)[..n - 1] == Zeros(n - 1);
    }
  }

  lemma SomePositive(s: seq<int>) returns (i: nat)
    requires Sum(s) > 0
    ensures i < |s| && s[i] > 0
  {
    var n := |s|;
    if s[n - 1] > 0 {
      i := n - 1;
    } else {
      i := SomePositive(s[..n - 1]);
    }
  }

  // ---- what every pick keeps

  /** The current weights cancel out, and none has fallen a whole total behind. */
  ghost predicate Balanced(c: seq<int>, w: seq<int>) {
    |c| == |w| && Sum(c) == 0 && forall i :: 0 <= i < |c| ==> c[i] > -Sum(w)
  }

  ghost predicate FairWeights(w: seq<int>) {
    Sum(w) > 0 && forall i :: 0 <= i < |w| ==> w[i] >= 0
  }

  lemma PickKeepsBalance(c: seq<int>, w: seq<int>)
    requires FairWeights(w) && Balanced(c, w) && c != []
    ensures Balanced(Pick(c, w).1, w)
  {
    var b := Bumped(c, w);
    var k := Winner(b);
    SumBumped(c, w);
    SumUpdate(b, k, b[k] - Sum(w));
    var p := SomePositive(b);
    assert b[k] > 0;
  }

  /** Earned by n picks at weight x, minus what being chosen count times cost. */
  ghost function Credit(n: nat, x: int, total: int, count: nat): int {
    n * x - total * count
  }

  /** Bookkeeping over a run: the current weight moves by exactly the credit. */
  lemma {:induction false} Ledger(c: seq<int>, w: seq<int>, n: nat, i: nat)
    requires |c| == |w| && i < |c|
    ensures Run(c, w, n).1[i] == c[i] + Credit(n, w[i], Sum(w), Count(Run(c, w, n).0, i))
  {
    if n == 0 {
      hide Sum, Credit;
      NoCredit(w[i], Sum(w));
    } else {
      hide *;
      Ledger(c, w, n - 1, i);
      RunUnfold(c, w, n);
      var (picks, c') := Run(c, w, n - 1);
      PickEffect(c', w, i);
      LedgerStep(picks, Pick(c', w).0, i);
      Booked(n, w[i], Count(picks, i), Sum(w));
    }
  }

  lemma NoCredit(x: int, total: int)
    ensures Credit(0, x, total, Count([], 0)) == 0 && forall i :: Count([], i) == 0
  {
  }

  lemma RunUnfold(c: seq<int>, w: seq<int>, n: nat)
    requires |c| == |w| && c != [] && n > 0
    ensures var (picks, c') := Run(c, w, n - 1);
            Run(c, w, n) == (picks + [Pick(c', w).0], Pick(c', w).1)
  {
  }

  lemma PickEffect(c: seq<int>, w: seq<int>, i: nat)
    requires |c| == |w| && i < |c|
    ensures Pick(c, w).1[i] == c[i] + w[i] - if Pick(c, w).0 == i then Sum(w) else 0
  {
  }

  lemma LedgerStep(picks: seq<nat>, k: nat, i: nat)
    ensures Count(picks + [k], i) == Count(picks, i) + if k == i then 1 else 0
  {
    var p := picks + [k];
    assert p[..|p| - 1] == picks;
  }

  lemma Booked(n: nat, x: int, count: nat, total: int)
    requires n > 0
    ensures Credit(n, x, total, count) == Credit(n - 1, x, total, count) + x
    ensures Credit(n, x, total, count + 1) == Credit(n - 1, x, total, count) + x - total
  {
    assert n * x == (n - 1) * x + x;
    assert total * (count + 1) == total * count + total;
  }

  lemma {:induction false} RunKeepsBalance(c: seq<int>, w: seq<int>, n: nat)
    requires FairWeights(w) && Balanced(c, w) && c != []
    ensures Balanced(Run(c, w, n).1, w)
  {
    if n > 0 {
      RunKeepsBalance(c, w, n - 1);
      PickKeepsBalance(Run(c, w, n - 1).1, w);
    }
  }

  /** How often each index was chosen. */
  function Counts(picks: seq<nat>, m: nat): (r: seq<int>)
    ensures |r| == m
  {
    seq(m, i requires 0 <= i < m => Count(picks, i))
  }

  lemma {:induction false} CountsTotal(picks: seq<nat>, m: nat)
    requires forall j :: 0 <= j < |picks| ==> picks[j] < m
    ensures Sum(Counts(picks, m)) == |picks|
  {
    if picks == [] {
      SumZeros(m);
      assert Counts(picks, m) == Zeros(m);
    } else {
      var rest, k := picks[..|picks| - 1], picks[|picks| - 1];
      CountsTotal(rest, m);
      var r := Counts(rest, m);
      SumUpdate(r, k, r[k] + 1);
      assert Counts(picks, m) == r[k := r[k] + 1];
    }
  }

  lemma {:induction false} PicksInRange(c: seq<int>, w: seq<int>, n: nat)
    requires |c| == |w| && c != []
    ensures forall j :: 0 <= j < n ==> Run(c, w, n).0[j] < |c|
  {
    if n > 0 {
      PicksInRange(c, w, n - 1);
    }
  }

  /** As many picks as the weights add up to, from all zeros, choose every endpoint exactly weight times
      and return to all zeros. */
  lemma ExactFairness(w: seq<int>)
    requires FairWeights(w)
    ensures var (picks, c) := Run(Zeros(|w|), w, Sum(w));
            && c == Zeros(|w|)
            && forall i :: 0 <= i < |w| ==> Count(picks, i) == w[i]
  {
    var z := Zeros(|w|);
    PicksInRange(z, w, Sum(w));
    var picks := Run(z, w, Sum(w)).0;
    hide Run, Count, Sum, FairWeights;
    CountsTotal(picks, |w|);
    var counts := Counts(picks, |w|);
    forall i | 0 <= i < |w| ensures counts[i] <= w[i] {
      Earned(w, i);
    }
    SumAtMost(counts, w);
    forall i | 0 <= i < |w| ensures Run(z, w, Sum(w)).1[i] == 0 && Count(picks, i) == w[i] {
      Earned(w, i);
      assert counts[i] == Count(picks, i);
    }
  }

  lemma Earned(w: seq<int>, i: nat)
    requires FairWeights(w) && i < |w|
    ensures var (picks, c) := Run(Zeros(|w|), w, Sum(w));
            Count(picks, i) <= w[i] && (Count(picks, i) == w[i] ==> c[i] == 0)
  {
    SumZeros(|w|);
    hide Run;
    RunKeepsBalance(Zeros(|w|), w, Sum(w));
    Ledger(Zeros(|w|), w, Sum(w), i);
    NoOverdraft(Sum(w), w[i], Count(Run(Zeros(|w|), w, Sum(w)).0, i));
  }

  lemma NoOverdraft(total: int, w: int, n: int)
    requires total > 0
    ensures total * w - total * n == total * (w - n)
    ensures total * (w - n) > -total ==> n <= w
  {
    if w - n <= -1 {
      var d := n - w - 1;
      assert total * (w - n) == -total - total * d;
    }
  }

  // ---- several buckets, picks interleaved in any order

  datatype Bucket = Bucket(weights: seq<int>, currents: seq<int>) {
    ghost predicate Valid() {
      |weights| == |currents| && weights != []
    }
  }

  /** The choices made while the schedule names the buckets to pick from, and the buckets afterwards. */
  function Interleaved(buckets: seq<Bucket>, schedule: seq<nat>): (r: (seq<nat>, seq<Bucket>))
    requires forall j :: 0 <= j < |buckets| ==> buckets[j].Valid()
    requires forall t :: 0 <= t < |schedule| ==> schedule[t] < |buckets|
    ensures |r.0| == |schedule| && |r.1| == |buckets|
    ensures forall j :: 0 <= j < |buckets| ==> r.1[j].Valid() && r.1[j].weights == buckets[j].weights
  {
    if schedule == [] then ([], buckets) else
      var n := |schedule| - 1;
      var (picks, now) := Interleaved(buckets, schedule[..n]);
      var b := now[schedule[n]];
      var (k, c) := Pick(b.currents, b.weights);
      (picks + [k], now[schedule[n] := Bucket(b.weights, c)])
  }

  /** The choices that fell on bucket b. */
  function On(schedule: seq<nat>, picks: seq<nat>, b: nat): seq<nat>
    requires |schedule| == |picks|
  {
    if schedule == [] then [] else
      var n := |schedule| - 1;
      On(schedule[..n], picks[..n], b) + if schedule[n] == b then [picks[n]] else []
  }

  /** A bucket does not notice the picks of the others. */
  lemma {:induction false} Projection(buckets: seq<Bucket>, schedule: seq<nat>, b: nat)
    requires forall j :: 0 <= j < |buckets| ==> buckets[j].Valid()
    requires forall t :: 0 <= t < |schedule| ==> schedule[t] < |buckets|
    requires b < |buckets|
    ensures var (picks, now) := Interleaved(buckets, schedule);
            Run(buckets[b].currents, buckets[b].weights, Count(schedule, b)) == (On(schedule, picks, b), now[b].currents)
  {
    if schedule != [] {
      hide *;
      var n := |schedule| - 1;
      Projection(buckets, schedule[..n], b);
      InterleavedUnfold(buckets, schedule);
      var (before, now) := Interleaved(buckets, schedule[..n]);
      var turn, m := now[schedule[n]], Count(schedule[..n], b);
      OnUnfold(schedule, before, Pick(turn.currents, turn.weights).0, b);
      if schedule[n] == b {
        RunUnfold(buckets[b].currents, buckets[b].weights, m + 1);
      }
    }
  }

  lemma InterleavedUnfold(buckets: seq<Bucket>, schedule: seq<nat>)
    requires forall j :: 0 <= j < |buckets| ==> buckets[j].Valid()
    requires forall t :: 0 <= t < |schedule| ==> schedule[t] < |buckets|
    requires schedule != []
    ensures var n := |schedule| - 1;
            var (picks, now) := Interleaved(buckets, schedule[..n]);
            var turn := now[schedule[n]];
            && |turn.currents| == |turn.weights| && turn.currents != []
            && var (k, c) := Pick(turn.currents, turn.weights);
               Interleaved(buckets, schedule) == (picks + [k], now[schedule[n] := Bucket(turn.weights, c)])
  {
    hide Pick;
  }

  lemma OnUnfold(schedule: seq<nat>, picks: seq<nat>, k: nat, b: nat)
    requires schedule != [] && |picks| == |schedule| - 1
    ensures var n := |schedule| - 1;
            && (schedule[n] == b ==> On(schedule, picks + [k], b) == On(schedule[..n], picks, b) + [k])
            && (schedule[n] != b ==> On(schedule, picks + [k], b) == On(schedule[..n], picks, b))
            && Count(schedule, b) == Count(schedule[..n], b) + if schedule[n] == b then 1 else 0
  {
    assert (picks + [k])[..|picks|] == picks;
  }

  /** Exact fairness of a bucket, whatever picks of other buckets come in between. */
  lemma FairUnderInterleaving(buckets: seq<Bucket>, schedule: seq<nat>, b: nat)
    requires forall j :: 0 <= j < |buckets| ==> buckets[j].Valid()
    requires forall t :: 0 <= t < |schedule| ==> schedule[t] < |buckets|
    requires b < |buckets| && FairWeights(buckets[b].weights)
    requires buckets[b].currents == Zeros(|buckets[b].weights|)
    requires Count(schedule, b) == Sum(buckets[b].weights)
    ensures var (picks, now) := Interleaved(buckets, schedule);
            && now[b] == buckets[b]
            && forall i :: 0 <= i < |buckets[b].weights| ==> Count(On(schedule, picks, b), i) == buckets[b].weights[i]
  {
    hide Run, Interleaved;
    Projection(buckets, schedule, b);
    ExactFairness(buckets[b].weights);
  }

  /** After any schedule, the current weights of a bucket that started at zero still cancel out. */
  lemma BalancedUnderInterleaving(buckets: seq<Bucket>, schedule: seq<nat>, b: nat)
    requires forall j :: 0 <= j < |buckets| ==> buckets[j].Valid()
    requires forall t :: 0 <= t < |schedule| ==> schedule[t] < |buckets|
    requires b < |buckets| && FairWeights(buckets[b].weights) && Balanced(buckets[b].currents, buckets[b].weights)
    ensures Balanced(Interleaved(buckets, schedule).1[b].currents, buckets[b].weights)
  {
    hide Run, Interleaved;
    Projection(buckets, schedule, b);
    RunKeepsBalance(buckets[b].currents, buckets[b].weights, Count(schedule, b));
  }
}
