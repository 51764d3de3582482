/**
  The Wilcoxon signed-rank test over per-pair differences (internal/campaign/paired.go): average
  ranks with ties, the tie correction, and the two-sided p-value on its exact and its normal branch.

  Twice a rank is an `int`. The normal branch's math.Erfc and math.Sqrt stand behind a parameter:
  `tail(z, variance)` is the value of math.Erfc(z / sqrt(variance) / sqrt(2)) for the corrected
  deviation `z`.
 */
module SignedRankTest {
  import opened Samples
  import opened RankSumDistribution

  // ---------- average ranks ----------

  /** Twice the mean of the ranks that the samples equal to `x` share. */
  function TwiceRank(v: seq<real>, x: real): int {
    2 * Less(v, x) + Equal(v, x) + 1
  }

  function Permuted(v: seq<real>, order: seq<nat>): (r: seq<real>)
    requires forall k | 0 <= k < |order| :: order[k] < |v|
    ensures |r| == |order| && forall k | 0 <= k < |order| :: r[k] == v[order[k]]
  {
    seq(|order|, k requires 0 <= k < |order| => v[order[k]])
  }

  /** The indexes below `n`, each once. */
  ghost predicate IsIndexPermutation(order: seq<nat>, n: nat) {
    && |order| == n
    && (forall k | 0 <= k < n :: order[k] < n)
    && (forall i | 0 <= i < n :: i in order)
    && (forall j, k | 0 <= j < k < n :: order[j] != order[k])
  }

  ghost predicate IsSortingOrder(v: seq<real>, order: seq<nat>) {
    && IsIndexPermutation(order, |v|)
    && IsSorted(Permuted(v, order))
    && multiset(Permuted(v, order)) == multiset(v)
  }

  /** Stands for slices.SortFunc, of which callers learn only that the order sorts. */
  method SortIndexes(v: seq<real>) returns (order: seq<nat>)
    ensures IsSortingOrder(v, order)
  {
    hide IsSortingOrder, WithIndex;
    order := [];
    NothingOrdered();
    for n := 0 to |v|
      invariant |order| == n && (forall k | 0 <= k < n :: order[k] < n) && IsSortingOrder(v[..n], order)
    {
      var p := n;
      while p > 0 && v[order[p - 1]] > v[n]
        invariant 0 <= p <= n
        invariant forall k | p <= k < n :: v[order[k]] > v[n]
      {
        p := p - 1;
      }
      assert v[..n + 1] == v[..n] + [v[n]];
      InsertSorts(v[..n], v[n], order, p);
      order := WithIndex(order, p, n);
    }
    assert v[..|v|] == v;
  }

  function WithIndex(order: seq<nat>, p: nat, n: nat): seq<nat>
    requires p <= |order|
  {
    Inserted(order, p, n)
  }

  lemma NothingOrdered()
    ensures IsSortingOrder([], [])
  {
  }

  lemma InsertSorts(u: seq<real>, x: real, order: seq<nat>, p: nat)
    requires |order| == |u| && p <= |u| && forall k | 0 <= k < |order| :: order[k] < |u|
    requires IsSortingOrder(u, order)
    requires p > 0 ==> u[order[p - 1]] <= x
    requires forall k | p <= k < |u| :: u[order[k]] > x
    ensures |WithIndex(order, p, |u|)| == |u| + 1
    ensures IsSortingOrder(u + [x], WithIndex(order, p, |u|))
    ensures forall k | 0 <= k <= |u| :: WithIndex(order, p, |u|)[k] <= |u|
  {
    hide IsSorted, IsIndexPermutation;
    InsertIndex(order, |u|, p);
    InsertSorted(Permuted(u, order), p, x);
    PermutedInsert(u, x, order, p);
  }

  lemma PermutedInsert(u: seq<real>, x: real, order: seq<nat>, p: nat)
    requires |order| == |u| && p <= |u| && forall k | 0 <= k < |order| :: order[k] < |u|
    ensures forall k | 0 <= k <= |u| :: Inserted(order, p, |u|)[k] <= |u|
    ensures Permuted(u + [x], Inserted(order, p, |u|)) == Inserted(Permuted(u, order), p, x)
  {
    var next := Inserted(order, p, |u|);
    forall k | 0 <= k <= |u| ensures next[k] <= |u| && (u + [x])[next[k]] == Inserted(Permuted(u, order), p, x)[k] {
    }
  }

  lemma InsertIndex(order: seq<nat>, n: nat, p: nat)
    requires IsIndexPermutation(order, n) && p <= n
    ensures IsIndexPermutation(Inserted(order, p, n), n + 1)
  {
    var next := Inserted(order, p, n);
    forall i | 0 <= i < n + 1 ensures i in next {
      if i < n {
        KeepsIndex(order, n, p, i);
      } else {
        assert next[p] == n;
      }
    }
  }

  lemma KeepsIndex(order: seq<nat>, n: nat, p: nat, i: nat)
    requires IsIndexPermutation(order, n) && p <= n && i < n
    ensures i in Inserted(order, p, n)
  {
    var next := Inserted(order, p, n);
    assert i in order;
    var k :| 0 <= k < n && order[k] == i;
    assert next[if k < p then k else k + 1] == i;
  }

  /** In sorted samples a run of equal ones starts after the smaller ones and ends before the greater. */
  lemma {:induction false} CountsInSorted(s: seq<real>, start: nat, end: nat, x: real)
    requires start <= end <= |s|
    requires forall k | 0 <= k < start :: s[k] < x
    requires forall k | start <= k < end :: s[k] == x
    requires forall k | end <= k < |s| :: s[k] > x
    ensures Less(s, x) == start && Equal(s, x) == end - start
  {
    if s != [] {
      var front := s[..|s| - 1];
      if end == |s| {
        if start == end {
          CountsInSorted(front, start - 1, end - 1, x);
        } else {
          CountsInSorted(front, start, end - 1, x);
        }
      } else {
        CountsInSorted(front, start, end, x);
      }
    }
  }

  lemma RankOfRun(v: seq<real>, order: seq<nat>, start: nat, end: nat)
    requires IsSortingOrder(v, order) && start < end <= |v|
    requires start > 0 ==> v[order[start - 1]] < v[order[start]]
    requires forall k | start <= k < end :: v[order[k]] == v[order[start]]
    requires end < |v| ==> v[order[end]] != v[order[start]]
    ensures TwiceRank(v, v[order[start]]) == start + 1 + end
    ensures Equal(v, v[order[start]]) == end - start
    ensures end < |v| ==> v[order[end - 1]] < v[order[end]]
  {
    var s, x := Permuted(v, order), v[order[start]];
    assert x == s[start];
    forall k | 0 <= k < start ensures s[k] < x {
      assert s[k] <= s[start - 1];
    }
    if end < |v| {
      assert s[start] <= s[end];
      forall k | end <= k < |s| ensures s[k] > x {
        assert s[end] <= s[k];
      }
    }
    CountsInSorted(s, start, end, x);
    SumPermuted(s, v, LessThan(x));
    SumPermuted(s, v, EqualTo(x));
  }

  /**
    Ranks the samples from 1, ties sharing the mean of their ranks. Whatever order the sort leaves
    equal samples in, the result is the order-free rank of each sample.
   */
  method AverageRanks(v: seq<real>) returns (ranks: seq<int>, tied: bool)
    ensures |ranks| == |v|
    ensures forall i | 0 <= i < |v| :: ranks[i] == TwiceRank(v, v[i])
    ensures tied <==> HasTies(v)
  {
    hide TwiceRank, Equal, HasTies, IsSortingOrder, IsSorted, Permuted;
    var order := SortIndexes(v);
    SortingOrderOrders(v, order);
    var r := new int[|v|];
    var start := 0;
    tied := false;
    while start < |order|
      invariant 0 <= start <= |v|
      invariant forall k | 0 <= k < start :: r[order[k]] == TwiceRank(v, v[order[k]])
      invariant 0 < start < |v| ==> v[order[start - 1]] < v[order[start]]
      invariant tied <==> exists k | 0 <= k < start :: Equal(v, v[order[k]]) >= 2
    {
      var end := start + 1;
      while end < |order| && v[order[end]] == v[order[start]]
        invariant start < end <= |order|
        invariant forall k | start <= k < end :: v[order[k]] == v[order[start]]
      {
        end := end + 1;
      }
      RankOfRun(v, order, start, end);
      if end - start > 1 {
        tied := true;
        assert Equal(v, v[order[start]]) >= 2;
      }
      var twiceMean := start + 1 + end;
      for k := start to end
        invariant forall j | 0 <= j < k :: r[order[j]] == TwiceRank(v, v[order[j]])
      {
        r[order[k]] := twiceMean;
      }
      start := end;
    }
    ranks := r[..];
    forall i: nat | i < |v| ensures ranks[i] == TwiceRank(v, v[i]) {
      var k := PlaceOf(order, |v|, i);
      assert r[order[k]] == TwiceRank(v, v[order[k]]);
    }
    TiesInOrder(v, order);
  }

  lemma SortingOrderOrders(v: seq<real>, order: seq<nat>)
    requires IsSortingOrder(v, order)
    ensures IsIndexPermutation(order, |v|)
  {
  }

  lemma PlaceOf(order: seq<nat>, n: nat, i: nat) returns (k: nat)
    requires IsIndexPermutation(order, n) && i < n
    ensures k < |order| && order[k] == i
  {
    assert i in order;
    k :| 0 <= k < |order| && order[k] == i;
  }

  lemma TiesInOrder(v: seq<real>, order: seq<nat>)
    requires IsIndexPermutation(order, |v|)
    ensures HasTies(v) <==> exists k | 0 <= k < |v| :: Equal(v, v[order[k]]) >= 2
  {
    hide Equal, HasTies;
    TiesAreMultiplicities(v);
    if k :| 0 <= k < |v| && Equal(v, v[order[k]]) >= 2 {
      assert v[order[k]] in v && HasTies(v);
    }
    if HasTies(v) {
      var i := TiedSample(v);
      var k := PlaceOf(order, |v|, i);
      assert Equal(v, v[order[k]]) >= 2;
    }
  }

  // ---------- what the ranks are ----------

  function Ranker(v: seq<real>): real -> int {
    y => TwiceRank(v, y)
  }

  /** One more sample `x` raises every greater one by a rank and every equal one by half a rank. */
  lemma {:induction false} RankGains(u: seq<real>, v: seq<real>, x: real)
    ensures Sum(u, Ranker(v + [x])) == Sum(u, Ranker(v)) + 2 * Greater(u, x) + Equal(u, x)
  {
    if u != [] {
      RankGains(u[..|u| - 1], v, x);
      var y := u[|u| - 1];
      SumSnoc(v, x, LessThan(y));
      SumSnoc(v, x, EqualTo(y));
    }
  }

  /** The ranks of n samples sum to n(n+1)/2, with or without ties. */
  lemma {:induction false} RanksSum(v: seq<real>)
    ensures Sum(v, Ranker(v)) == |v| * (|v| + 1)
  {
    if v != [] {
      var rest, x := v[..|v| - 1], v[|v| - 1];
      assert v == rest + [x];
      RanksSum(rest);
      RankGains(rest, rest, x);
      CountsAddUp(rest, x);
      SumSnoc(rest, x, LessThan(x));
      SumSnoc(rest, x, EqualTo(x));
      SumOfRanksGrows(|rest|);
    }
  }

  lemma SumOfRanksGrows(n: nat)
    ensures n * (n + 1) + 2 * n + 2 == (n + 1) * (n + 2)
  {
  }

  lemma {:induction false} RankOrder(v: seq<real>, x: real, y: real)
    requires x < y && x in v
    ensures TwiceRank(v, x) < TwiceRank(v, y)
  {
    EqualCount(v, x);
    LessGrows(v, x, y);
    CountsAddUp(v, y);
  }

  /** Equal ranks mean equal samples. */
  lemma EqualRanksEqualSamples(v: seq<real>, i: nat, j: nat)
    requires i < |v| && j < |v|
    ensures TwiceRank(v, v[i]) == TwiceRank(v, v[j]) <==> v[i] == v[j]
  {
    if v[i] < v[j] {
      RankOrder(v, v[i], v[j]);
    } else if v[j] < v[i] {
      RankOrder(v, v[j], v[i]);
    }
  }

  lemma UntiedRank(v: seq<real>, x: real)
    requires !HasTies(v) && x in v
    ensures TwiceRank(v, x) == 2 * (Less(v, x) + 1) && 0 <= Less(v, x) < |v|
  {
    TiesAreMultiplicities(v);
    EqualCount(v, x);
    CountsAddUp(v, x);
  }

  lemma {:induction false} LessReaches(v: seq<real>, below: nat) returns (i: nat)
    requires !HasTies(v) && below < |v|
    ensures i < |v| && Less(v, v[i]) == below
  {
    var rest, x := v[..|v| - 1], v[|v| - 1];
    assert !HasTies(rest);
    CountsAddUp(rest, x);
    if below == Less(rest, x) {
      i := |v| - 1;
    } else {
      i := LessReaches(rest, if below < Less(rest, x) then below else below - 1);
      assert v[i] != x;
      EqualCount(rest, v[i]);
      if v[i] < x {
        LessGrows(rest, v[i], x);
      } else {
        LessGrows(rest, x, v[i]);
        CountsAddUp(rest, x);
      }
    }
  }

  /** Without ties the ranks are 1..n, each exactly once. */
  lemma {:induction false} UntiedRanksArePermutation(v: seq<real>, rank: nat)
    requires !HasTies(v) && 1 <= rank <= |v|
    ensures exists i | 0 <= i < |v| ::
              && TwiceRank(v, v[i]) == 2 * rank
              && forall j | 0 <= j < |v| && j != i :: TwiceRank(v, v[j]) != 2 * rank
  {
    var i := LessReaches(v, rank - 1);
    UntiedRank(v, v[i]);
    forall j | 0 <= j < |v| && j != i ensures TwiceRank(v, v[j]) != 2 * rank {
      EqualRanksEqualSamples(v, i, j);
      if i < j {
        assert v[i] != v[j];
      } else {
        assert v[j] != v[i];
      }
    }
  }

  // ---------- the tie correction ----------

  /** t^3 - t summed over the groups of equal ranks, as each rank's share t^2 - 1. */
  function TieShare(ranks: seq<int>): int -> int {
    r => Equal(ranks, r) * Equal(ranks, r) - 1
  }

  function TieSum(ranks: seq<int>): int {
    Sum(ranks, TieShare(ranks))
  }

  /** The shares of the ranks in one set of groups. */
  ghost function ShareOf(ranks: seq<int>, groups: set<int>): int -> int {
    r => if r in groups then Equal(ranks, r) * Equal(ranks, r) - 1 else 0
  }

  lemma OneShare(r: int, ranks: seq<int>, groups: set<int>, key: int)
    requires key !in groups
    ensures ShareOf(ranks, groups + {key})(r)
         == ShareOf(ranks, groups)(r) + if r == key then Equal(ranks, key) * Equal(ranks, key) - 1 else 0
  {
  }

  lemma OneMoreShare(count: int, more: bool, share: int)
    ensures (count + if more then 1 else 0) * share == count * share + if more then share else 0
  {
  }

  lemma {:induction false} GroupShare(u: seq<int>, ranks: seq<int>, groups: set<int>, key: int)
    requires key !in groups
    ensures Sum(u, ShareOf(ranks, groups + {key}))
         == Sum(u, ShareOf(ranks, groups)) + Equal(u, key) * (Equal(ranks, key) * Equal(ranks, key) - 1)
  {
    if u != [] {
      GroupShare(u[..|u| - 1], ranks, groups, key);
      OneShare(u[|u| - 1], ranks, groups, key);
      OneMoreShare(Equal(u[..|u| - 1], key), u[|u| - 1] == key, Equal(ranks, key) * Equal(ranks, key) - 1);
    }
  }

  method RankGroups(ranks: seq<int>) returns (groups: map<int, int>)
    ensures forall r :: r in groups <==> r in ranks
    ensures forall r | r in groups :: groups[r] == Equal(ranks, r)
  {
    groups := map[];
    for i := 0 to |ranks|
      invariant forall r :: r in groups <==> r in ranks[..i]
      invariant forall r | r in groups :: groups[r] == Equal(ranks[..i], r)
    {
      var r := ranks[i];
      assert ranks[..i + 1] == ranks[..i] + [r];
      forall x ensures Equal(ranks[..i + 1], x) == Equal(ranks[..i], x) + if x == r then 1 else 0 {
        SumSnoc(ranks[..i], r, EqualTo(x));
      }
      EqualCount(ranks[..i], r);
      groups := groups[r := (if r in groups then groups[r] else 0) + 1];
    }
    assert ranks[..|ranks|] == ranks;
  }

  /** Sums t^3 - t over the groups, in whatever order the map yields them. */
  method TieCorrection(ranks: seq<int>) returns (sum: int)
    ensures sum == TieSum(ranks)
  {
    hide TieSum, ShareOf, Equal;
    var groups := RankGroups(ranks);
    sum := 0;
    var left: set<int> := groups.Keys;
    ghost var done: set<int> := {};
    NoGroups(ranks, ranks);
    while left != {}
      invariant forall r :: r in groups <==> r in done || r in left
      invariant forall r | r in left :: r !in done
      invariant sum == Sum(ranks, ShareOf(ranks, done))
      decreases |left|
    {
      SomeGroup(left);
      var key :| key in left;
      var size: int := groups[key];
      GroupAdds(ranks, done, key, size);
      sum := sum + size * size * size - size;
      left := left - {key};
      done := done + {key};
    }
    AllGroups(ranks, done);
  }

  lemma SomeGroup(left: set<int>)
    ensures left == {} || exists key :: key in left
  {
    if forall key :: key !in left {
      assert left == {};
    }
  }

  lemma GroupAdds(ranks: seq<int>, done: set<int>, key: int, t: int)
    requires key !in done && t == Equal(ranks, key)
    ensures Sum(ranks, ShareOf(ranks, done + {key})) == Sum(ranks, ShareOf(ranks, done)) + t * t * t - t
  {
    GroupShare(ranks, ranks, done, key);
    assert t * (t * t - 1) == t * t * t - t;
  }

  lemma AllGroups(ranks: seq<int>, done: set<int>)
    requires forall r | r in ranks :: r in done
    ensures Sum(ranks, ShareOf(ranks, done)) == TieSum(ranks)
  {
    forall r | r in ranks ensures ShareOf(ranks, done)(r) == TieShare(ranks)(r) {
      assert r in done;
    }
    SumPointwise(ranks, ShareOf(ranks, done), TieShare(ranks));
  }

  lemma {:induction false} NoGroups(u: seq<int>, ranks: seq<int>)
    ensures Sum(u, ShareOf(ranks, {})) == 0
  {
    if u != [] {
      NoGroups(u[..|u| - 1], ranks);
    }
  }

  function Constant<T>(c: int): T -> int {
    _ => c
  }

  lemma SquaresOrdered(t: int, n: int)
    requires 1 <= t <= n
    ensures 1 <= t * t <= n * n
  {
    assert t * t <= t * n <= n * n;
  }

  lemma TieShareBound(ranks: seq<int>, r: int)
    requires r in ranks
    ensures 0 <= TieShare(ranks)(r) <= |ranks| * |ranks| - 1
  {
    EqualCount(ranks, r);
    SquaresOrdered(Equal(ranks, r), |ranks|);
  }

  /** However the ranks group, the cubes of the group sizes sum to at most the cube of n. */
  lemma TieSumBound(ranks: seq<int>)
    ensures 0 <= TieSum(ranks) <= (|ranks| * |ranks| - 1) * |ranks|
  {
    var bound := |ranks| * |ranks| - 1;
    forall r | r in ranks ensures 0 <= TieShare(ranks)(r) <= bound {
      TieShareBound(ranks, r);
    }
    SumMonotone(ranks, TieShare(ranks), Constant(bound));
    SumConstant(ranks, Constant(bound), bound);
    SumMonotone(ranks, Constant(0), TieShare(ranks));
    SumConstant(ranks, Constant(0), 0);
  }

  // ---------- the normal branch ----------

  type NormalTail = (real, real) -> real

  function Variance(n: nat, tieSum: int): real {
    (n * (n + 1) * (2 * n + 1)) as real / 24.0 - tieSum as real / 48.0
  }

  function ApproxP(n: nat, twicePositive: int, tieSum: int, tail: NormalTail): real {
    var variance := Variance(n, tieSum);
    var deviation := twicePositive as real / 2.0 - (n * (n + 1)) as real / 4.0;
    var z := (if deviation < 0.0 then -deviation else deviation) - 0.5;
    if variance <= 0.0 || z <= 0.0 then 1.0 else tail(z, variance)
  }

  /** For every grouping of n >= 1 ranks the corrected variance is at least n(n+1)^2/16, so it is positive. */
  lemma VarianceStaysPositive(ranks: seq<int>)
    requires |ranks| >= 1
    ensures var n := |ranks|; Variance(n, TieSum(ranks)) >= (n * (n + 1) * (n + 1)) as real / 16.0 > 0.0
  {
    var n := |ranks|;
    TieSumBound(ranks);
    VarianceArithmetic(n);
    var full, floor, t := n * (n + 1) * (2 * n + 1), n * (n + 1) * (n + 1), TieSum(ranks);
    assert (3 * floor) as real <= (2 * full - t) as real;
  }

  lemma VarianceArithmetic(n: nat)
    requires n >= 1
    ensures 3 * (n * (n + 1) * (n + 1)) == 2 * (n * (n + 1) * (2 * n + 1)) - (n * n - 1) * n
    ensures n * (n + 1) * (n + 1) >= 1
  {
    var m := n * (n + 1);
    assert m == n * n + n >= 2;
    assert (n * n - 1) * n == m * (n - 1) by {
      assert m * (n - 1) == m * n - m;
      assert m * n == n * n * n + n * n;
    }
    assert m * (n + 1) >= m;
    assert 2 * (m * (2 * n + 1)) - m * (n - 1) == 3 * (m * (n + 1));
  }

  // ---------- the test ----------

  /** Every finite nonzero difference, in order. */
  function Usable(diffs: seq<Float>): seq<real> {
    if diffs == [] then []
    else
      var d := diffs[|diffs| - 1];
      Usable(diffs[..|diffs| - 1]) + if d.Finite? && d.value != 0.0 then [d.value] else []
  }

  function Magnitude(d: real): real {
    if d < 0.0 then -d else d
  }

  function Magnitudes(d: seq<real>): seq<real> {
    Map(d, Magnitude)
  }

  /** Twice the rank of a positive difference among all magnitudes. */
  function PositiveShare(magnitudes: seq<real>): real -> int {
    d => if d > 0.0 then TwiceRank(magnitudes, Magnitude(d)) else 0
  }

  function TwicePositiveRanks(d: seq<real>): int {
    Sum(d, PositiveShare(Magnitudes(d)))
  }

  const EXACT_SIGNED_RANK_LIMIT: nat := 100

  function UsableP(d: seq<real>, tail: NormalTail): real {
    if d == [] then 1.0
    else if !HasTies(Magnitudes(d)) && |d| <= EXACT_SIGNED_RANK_LIMIT then ExactP(|d|, TwicePositiveRanks(d) / 2)
    else ApproxP(|d|, TwicePositiveRanks(d), TieSum(Map(Magnitudes(d), Ranker(Magnitudes(d)))), tail)
  }

  function SignedRankP(diffs: seq<Float>, tail: NormalTail): real {
    UsableP(Usable(diffs), tail)
  }

  method ApproxSignedRankP(n: nat, twicePositive: int, ranks: seq<int>, tail: NormalTail) returns (p: real)
    ensures p == ApproxP(n, twicePositive, TieSum(ranks), tail)
  {
    var mu := (n * (n + 1)) as real / 4.0;
    var variance := (n * (n + 1) * (2 * n + 1)) as real / 24.0;
    var correction := TieCorrection(ranks);
    variance := variance - correction as real / 48.0;
    if variance <= 0.0 {
      return 1.0;
    }
    var deviation := twicePositive as real / 2.0 - mu;
    var z := (if deviation < 0.0 then -deviation else deviation) - 0.5;
    if z <= 0.0 {
      return 1.0;
    }
    return tail(z, variance);
  }

  /** Drops the unusable differences and splits the rest into magnitudes and signs. */
  method SplitDifferences(diffs: seq<Float>) returns (magnitudes: seq<real>, signs: seq<bool>)
    ensures magnitudes == Magnitudes(Usable(diffs)) && |signs| == |magnitudes|
    ensures forall k | 0 <= k < |signs| :: signs[k] == (Usable(diffs)[k] > 0.0)
  {
    magnitudes, signs := [], [];
    for i := 0 to |diffs|
      invariant magnitudes == Magnitudes(Usable(diffs[..i])) && |signs| == |magnitudes|
      invariant forall k | 0 <= k < |signs| :: signs[k] == (Usable(diffs[..i])[k] > 0.0)
    {
      assert diffs[..i + 1][..i] == diffs[..i];
      var d := diffs[i];
      if d.Finite? && d.value != 0.0 {
        magnitudes := magnitudes + [Magnitude(d.value)];
        signs := signs + [d.value > 0.0];
      }
    }
    assert diffs[..|diffs|] == diffs;
  }

  method SumPositiveRanks(signs: seq<bool>, ranks: seq<int>, ghost d: seq<real>) returns (positive: int)
    requires |signs| == |ranks| == |d|
    requires forall k | 0 <= k < |d| ::
             signs[k] == (d[k] > 0.0) && ranks[k] == TwiceRank(Magnitudes(d), Magnitude(d[k]))
    ensures positive == TwicePositiveRanks(d)
  {
    positive := 0;
    for i := 0 to |signs|
      invariant positive == Sum(d[..i], PositiveShare(Magnitudes(d)))
    {
      assert d[..i + 1] == d[..i] + [d[i]];
      SumSnoc(d[..i], d[i], PositiveShare(Magnitudes(d)));
      if signs[i] {
        positive := positive + ranks[i];
      }
    }
    assert d[..|d|] == d;
  }

  method ComputeSignedRankP(diffs: seq<Float>, tail: NormalTail) returns (p: real)
    ensures p == SignedRankP(diffs, tail)
  {
    var magnitudes, signs := SplitDifferences(diffs);
    var n := |magnitudes|;
    if n == 0 {
      return 1.0;
    }
    var ranks, tied := AverageRanks(magnitudes);
    var positive := SumPositiveRanks(signs, ranks, Usable(diffs));
    if !tied && n <= EXACT_SIGNED_RANK_LIMIT {
      p := ExactSignedRankP(n, positive / 2);
    } else {
      assert ranks == Map(magnitudes, Ranker(magnitudes));
      p := ApproxSignedRankP(n, positive, ranks, tail);
    }
  }

  // ---------- what leaves the p-value unchanged ----------

  lemma RankerPermuted(u: seq<real>, v: seq<real>, x: real)
    requires multiset(u) == multiset(v)
    ensures TwiceRank(u, x) == TwiceRank(v, x)
  {
    SumPermuted(u, v, LessThan(x));
    SumPermuted(u, v, EqualTo(x));
  }

  lemma TieSumPermuted(u: seq<int>, v: seq<int>)
    requires multiset(u) == multiset(v)
    ensures TieSum(u) == TieSum(v)
  {
    forall r ensures Equal(u, r) == Equal(v, r) {
      SumPermuted(u, v, EqualTo(r));
    }
    SumPermuted(u, v, TieShare(u));
    SumPointwise(v, TieShare(u), TieShare(v));
  }

  /** The p-value depends on the usable differences as a multiset, on both branches. */
  lemma PairOrderDoesNotMatter(d: seq<real>, e: seq<real>, tail: NormalTail)
    requires multiset(d) == multiset(e)
    ensures UsableP(d, tail) == UsableP(e, tail)
  {
    assert |d| == |multiset(d)| == |multiset(e)| == |e|;
    var m, w := Magnitudes(d), Magnitudes(e);
    MapPermuted(d, e, Magnitude);
    TiesPermuted(m, w);
    forall x ensures TwiceRank(m, x) == TwiceRank(w, x) {
      RankerPermuted(m, w, x);
    }
    SumPermuted(d, e, PositiveShare(m));
    SumPointwise(e, PositiveShare(m), PositiveShare(w));
    MapPermuted(m, w, Ranker(m));
    assert Map(w, Ranker(m)) == Map(w, Ranker(w));
    TieSumPermuted(Map(m, Ranker(m)), Map(w, Ranker(w)));
  }

  function Negate(d: real): real {
    -d
  }

  lemma {:induction false} SignsSplitRanks(d: seq<real>, v: seq<real>)
    requires forall x | x in d :: x != 0.0
    ensures Sum(d, PositiveShare(v)) + Sum(Map(d, Negate), PositiveShare(v)) == Sum(Map(d, Magnitude), Ranker(v))
  {
    hide TwiceRank, PositiveShare, Ranker;
    if d != [] {
      var rest := d[..|d| - 1];
      assert d[|d| - 1] in d && forall x | x in rest :: x in d;
      SignsSplitRanks(rest, v);
      SumOfMapped(d, Negate, PositiveShare(v));
      SumOfMapped(d, Magnitude, Ranker(v));
      SignSplitsRank(d[|d| - 1], v);
    }
  }

  lemma SumOfMapped<T>(d: seq<real>, f: real -> T, g: T -> int)
    requires d != []
    ensures Sum(Map(d, f), g) == Sum(Map(d[..|d| - 1], f), g) + g(f(d[|d| - 1]))
  {
    assert Map(d, f)[..|d| - 1] == Map(d[..|d| - 1], f);
  }

  lemma SignSplitsRank(x: real, v: seq<real>)
    requires x != 0.0
    ensures PositiveShare(v)(x) + PositiveShare(v)(Negate(x)) == Ranker(v)(Magnitude(x))
  {
  }

  lemma {:induction false} TwiceRanksAreEven(d: seq<real>, v: seq<real>)
    requires !HasTies(v) && forall x | x in d :: Magnitude(x) in v
    ensures Sum(d, PositiveShare(v)) % 2 == 0
  {
    if d != [] {
      TwiceRanksAreEven(d[..|d| - 1], v);
      UntiedRank(v, Magnitude(d[|d| - 1]));
    }
  }

  /** Positive and negative ranks share n(n+1)/2. */
  lemma RanksShared(d: seq<real>)
    requires forall x | x in d :: x != 0.0
    ensures Magnitudes(Map(d, Negate)) == Magnitudes(d)
    ensures TwicePositiveRanks(d) + TwicePositiveRanks(Map(d, Negate)) == |d| * (|d| + 1)
  {
    assert Magnitudes(Map(d, Negate)) == Magnitudes(d);
    SignsSplitRanks(d, Magnitudes(d));
    RanksSum(Magnitudes(d));
  }

  lemma UntiedPositiveRanksAreWhole(d: seq<real>)
    requires !HasTies(Magnitudes(d))
    ensures TwicePositiveRanks(d) % 2 == 0
  {
    forall x | x in d ensures Magnitude(x) in Magnitudes(d) {
      var i :| 0 <= i < |d| && d[i] == x;
      assert Magnitudes(d)[i] == Magnitude(x);
    }
    TwiceRanksAreEven(d, Magnitudes(d));
  }

  /** The normal branch reads only the distance of the rank sum from the middle. */
  lemma ApproxPSymmetric(n: nat, v: int, w: int, tieSum: int, tail: NormalTail)
    requires v + w == n * (n + 1)
    ensures ApproxP(n, v, tieSum, tail) == ApproxP(n, w, tieSum, tail)
  {
    assert v as real / 2.0 - (n * (n + 1)) as real / 4.0 == -(w as real / 2.0 - (n * (n + 1)) as real / 4.0);
  }

  /** Swapping baseline and candidate of every pair leaves the p-value unchanged, on both branches. */
  lemma SwappingSidesDoesNotMatter(d: seq<real>, tail: NormalTail)
    requires forall x | x in d :: x != 0.0
    ensures UsableP(Map(d, Negate), tail) == UsableP(d, tail)
  {
    var m, n, v, w := Magnitudes(d), |d|, TwicePositiveRanks(d), TwicePositiveRanks(Map(d, Negate));
    RanksShared(d);
    if !HasTies(m) && n <= EXACT_SIGNED_RANK_LIMIT {
      UntiedPositiveRanksAreWhole(d);
      ExactPSymmetric(n, v / 2);
      assert Top(n) - v / 2 == w / 2;
    } else {
      ApproxPSymmetric(n, v, w, TieSum(Map(m, Ranker(m))), tail);
    }
  }

  lemma {:induction false} UsableConcat(a: seq<Float>, b: seq<Float>)
    ensures Usable(a + b) == Usable(a) + Usable(b)
  {
    if b == [] {
      assert a + b == a;
    } else {
      assert (a + b)[..|a + b| - 1] == a + b[..|b| - 1];
      UsableConcat(a, b[..|b| - 1]);
    }
  }

  lemma UsableSkips(a: seq<Float>, d: Float, b: seq<Float>)
    requires d == Finite(0.0) || !d.Finite?
    ensures Usable(a + [d] + b) == Usable(a + b)
  {
    UsableConcat(a, [d]);
    UsableConcat(a + [d], b);
    UsableConcat(a, b);
    assert [d][..0] == [] && Usable([d]) == [];
  }

  /** A pair without a difference, or with an unusable one, can be added or removed anywhere. */
  lemma ZeroDifferencesDoNotMatter(a: seq<Float>, d: Float, b: seq<Float>, tail: NormalTail)
    requires d == Finite(0.0) || !d.Finite?
    ensures SignedRankP(a + [d] + b, tail) == SignedRankP(a + b, tail)
  {
    UsableSkips(a, d, b);
  }

  lemma {:induction false} UsableIsNonzero(diffs: seq<Float>)
    ensures forall x | x in Usable(diffs) :: x != 0.0
  {
    if diffs != [] {
      UsableIsNonzero(diffs[..|diffs| - 1]);
    }
  }

  function NegateFloat(d: Float): Float {
    match d
    case Finite(v) => Finite(-v)
    case NaN => NaN
    case Infinity(positive) => Infinity(!positive)
  }

  lemma {:induction false} UsableNegated(diffs: seq<Float>)
    ensures Usable(Map(diffs, NegateFloat)) == Map(Usable(diffs), Negate)
  {
    if diffs != [] {
      UsableNegated(diffs[..|diffs| - 1]);
      assert Map(diffs, NegateFloat)[..|diffs| - 1] == Map(diffs[..|diffs| - 1], NegateFloat);
    }
  }

  lemma {:induction false} UsablePermuted(d: seq<Float>, e: seq<Float>)
    requires multiset(d) == multiset(e)
    ensures multiset(Usable(d)) == multiset(Usable(e))
    decreases |d|
  {
    if d == [] {
      assert |multiset(e)| == 0;
    } else {
      var j := FindLast(d, e);
      UsablePermuted(d[..|d| - 1], Without(e, j));
      assert e == e[..j] + [e[j]] + e[j + 1..];
      UsableConcat(e[..j], [e[j]]);
      UsableConcat(e[..j] + [e[j]], e[j + 1..]);
      UsableConcat(e[..j], e[j + 1..]);
    }
  }

  /** The symmetries of the whole test, whatever mix of usable, zero and unusable differences it gets. */
  lemma SignedRankSymmetries(diffs: seq<Float>, reordered: seq<Float>, tail: NormalTail)
    requires multiset(diffs) == multiset(reordered)
    ensures SignedRankP(reordered, tail) == SignedRankP(diffs, tail)
    ensures SignedRankP(Map(diffs, NegateFloat), tail) == SignedRankP(diffs, tail)
  {
    UsablePermuted(diffs, reordered);
    PairOrderDoesNotMatter(Usable(diffs), Usable(reordered), tail);
    UsableIsNonzero(diffs);
    UsableNegated(diffs);
    SwappingSidesDoesNotMatter(Usable(diffs), tail);
  }
}
