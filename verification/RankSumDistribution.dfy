/**
  The exact distribution of the signed-rank sum (exactSignedRankP, internal/campaign/paired.go): a
  0/1 counting table filled in place, and the two-sided p-value read from it.
 */
module RankSumDistribution {

  // ---------- counting ----------

  /** How many ways some of the ranks 1..n add up to `s`. */
  function Ways(n: nat, s: int): nat {
    if s < 0 then 0
    else if n == 0 then if s == 0 then 1 else 0
    else Ways(n - 1, s) + Ways(n - 1, s - n)
  }

  function Top(n: nat): nat {
    n * (n + 1) / 2
  }

  lemma TopStep(n: nat)
    requires n > 0
    ensures Top(n) == Top(n - 1) + n
  {
    assert n * (n + 1) == (n - 1) * n + 2 * n;
  }

  function Pow2(n: nat): (p: nat)
    ensures p > 0
  {
    if n == 0 then 1 else 2 * Pow2(n - 1)
  }

  /** How many ways the ranks 1..n add up to at most `w`. */
  function AtMost(n: nat, w: int): nat
    decreases if w < 0 then 0 else w + 1
  {
    if w < 0 then 0 else AtMost(n, w - 1) + Ways(n, w)
  }

  /** How many ways they add up to at least `w`. */
  function AtLeast(n: nat, w: int): int {
    Pow2(n) - AtMost(n, w - 1)
  }

  // ---------- the table counts sign assignments ----------

  /** Every way to give n differences a sign, true for positive. */
  function Assignments(n: nat): set<seq<bool>> {
    if n == 0 then {[]}
    else (set v | v in Assignments(n - 1) :: v + [false]) + (set v | v in Assignments(n - 1) :: v + [true])
  }

  lemma {:induction false} AllAssignments(n: nat, v: seq<bool>)
    ensures v in Assignments(n) <==> |v| == n
  {
    if n > 0 {
      if |v| == n {
        AllAssignments(n - 1, v[..n - 1]);
        if v[n - 1] {
          assert v == v[..n - 1] + [true];
        } else {
          assert v == v[..n - 1] + [false];
        }
      }
      if v in Assignments(n) {
        var u :| u in Assignments(n - 1) && (v == u + [false] || v == u + [true]);
        AllAssignments(n - 1, u);
      }
    }
  }

  /** The sum of the ranks of the positive differences; the i-th difference has rank i + 1. */
  function PositiveRanks(v: seq<bool>): nat {
    if v == [] then 0 else PositiveRanks(v[..|v| - 1]) + if v[|v| - 1] then |v| else 0
  }

  ghost function WithSum(n: nat, s: int): set<seq<bool>> {
    set v | v in Assignments(n) && PositiveRanks(v) == s
  }

  lemma ExtendedSize(a: set<seq<bool>>, b: set<seq<bool>>, c: bool)
    requires forall v | v in a :: v + [c] in b
    requires forall w | w in b :: w != [] && w[..|w| - 1] in a && w == w[..|w| - 1] + [c]
    ensures |a| == |b|
    decreases a
  {
    if a == {} {
      assert b == {};
    } else {
      var v :| v in a;
      var w := v + [c];
      forall u | u in a - {v} ensures u + [c] in b - {w} {
        assert (u + [c])[..|u|] == u && w[..|v|] == v;
      }
      forall u | u in b - {w} ensures u != [] && u[..|u| - 1] in a - {v} && u == u[..|u| - 1] + [c] {
      }
      ExtendedSize(a - {v}, b - {w}, c);
    }
  }

  /** The assignments of n signs with sum `s`, split by the last sign. */
  ghost function Ending(n: nat, s: int, c: bool): set<seq<bool>> {
    set v | v in WithSum(n, s) && v != [] && v[|v| - 1] == c
  }

  lemma EndingSize(n: nat, s: int, c: bool)
    requires n > 0
    ensures |Ending(n, s, c)| == |WithSum(n - 1, if c then s - n else s)|
  {
    var shorter := WithSum(n - 1, if c then s - n else s);
    forall v | v in shorter ensures v + [c] in Ending(n, s, c) {
      AllAssignments(n - 1, v);
      AllAssignments(n, v + [c]);
      assert (v + [c])[..n - 1] == v;
    }
    forall w | w in Ending(n, s, c) ensures w != [] && w[..|w| - 1] in shorter && w == w[..|w| - 1] + [c] {
      AllAssignments(n, w);
      AllAssignments(n - 1, w[..|w| - 1]);
    }
    ExtendedSize(shorter, Ending(n, s, c), c);
  }

  lemma LastSignSplits(n: nat, s: int)
    requires n > 0
    ensures |WithSum(n, s)| == |Ending(n, s, false)| + |Ending(n, s, true)|
  {
    forall v | v in WithSum(n, s) ensures v in Ending(n, s, false) + Ending(n, s, true) {
      AllAssignments(n, v);
    }
    assert WithSum(n, s) == Ending(n, s, false) + Ending(n, s, true);
    assert Ending(n, s, false) !! Ending(n, s, true);
  }

  /** Entry `s` of the table is the number of sign assignments whose positive ranks sum to `s`. */
  lemma {:induction false} WaysCountAssignments(n: nat, s: int)
    ensures |WithSum(n, s)| == Ways(n, s)
  {
    if n == 0 {
      NoSigns(s);
    } else {
      LastSignSplits(n, s);
      EndingSize(n, s, false);
      EndingSize(n, s, true);
      WaysCountAssignments(n - 1, s);
      WaysCountAssignments(n - 1, s - n);
      WaysStep(n, s);
    }
  }

  lemma NoSigns(s: int)
    ensures |WithSum(0, s)| == Ways(0, s)
  {
    if s == 0 {
      assert WithSum(0, s) == {[]};
    } else {
      assert WithSum(0, s) == {};
    }
  }

  lemma WaysStep(n: nat, s: int)
    requires n > 0
    ensures Ways(n, s) == Ways(n - 1, s) + Ways(n - 1, s - n)
  {
  }

  ghost function WithSumAtMost(n: nat, w: int): set<seq<bool>> {
    set v | v in Assignments(n) && PositiveRanks(v) <= w
  }

  /** The lower tail is the number of sign assignments at most as far out. */
  lemma {:induction false} AtMostCountsAssignments(n: nat, w: int)
    ensures |WithSumAtMost(n, w)| == AtMost(n, w)
    decreases if w < 0 then 0 else w + 1
  {
    if w < 0 {
      assert WithSumAtMost(n, w) == {};
    } else {
      AtMostCountsAssignments(n, w - 1);
      WaysCountAssignments(n, w);
      assert WithSumAtMost(n, w) == WithSumAtMost(n, w - 1) + WithSum(n, w);
      assert WithSumAtMost(n, w - 1) !! WithSum(n, w);
    }
  }

  // ---------- totals and symmetry ----------

  /** Turning every sign around maps the sum s to top - s. */
  lemma {:induction false} WaysSymmetric(n: nat, s: int)
    ensures Ways(n, s) == Ways(n, Top(n) - s)
  {
    if n > 0 {
      TopStep(n);
      WaysSymmetric(n - 1, s);
      WaysSymmetric(n - 1, s - n);
    }
  }

  lemma {:induction false} AtMostStep(n: nat, w: int)
    requires n > 0
    ensures AtMost(n, w) == AtMost(n - 1, w) + AtMost(n - 1, w - n)
    decreases if w < 0 then 0 else w + 1
  {
    hide AtMost, Ways;
    AtMostUnfolds(n, w);
    AtMostUnfolds(n - 1, w);
    AtMostUnfolds(n - 1, w - n);
    if w >= 0 {
      AtMostStep(n, w - 1);
      WaysStep(n, w);
      AtMostUnfolds(n - 1, w - 1 - n);
      NoWaysBelowZero(n - 1, w - n);
    }
  }

  lemma AtMostUnfolds(n: nat, w: int)
    ensures AtMost(n, w) == if w < 0 then 0 else AtMost(n, w - 1) + Ways(n, w)
  {
  }

  lemma NoWaysBelowZero(n: nat, s: int)
    ensures s < 0 ==> Ways(n, s) == 0
  {
  }

  lemma {:induction false} AtMostMonotone(n: nat, v: int, w: int)
    requires v <= w
    ensures AtMost(n, v) <= AtMost(n, w)
    decreases w - v
  {
    if v < w {
      AtMostMonotone(n, v, w - 1);
    }
  }

  /** All the ways together are the 2^n sign assignments. */
  lemma {:induction false} WaysTotal(n: nat, w: int)
    requires w >= Top(n)
    ensures AtMost(n, w) == Pow2(n)
    decreases n, w
  {
    if n == 0 {
      if w > 0 {
        WaysTotal(0, w - 1);
      } else {
        assert AtMost(0, -1) == 0;
      }
    } else {
      TopStep(n);
      AtMostStep(n, w);
      WaysTotal(n - 1, w);
      WaysTotal(n - 1, w - n);
    }
  }

  /** Both tails mirror each other. */
  lemma {:induction false} TailsMirror(n: nat, w: int)
    ensures AtLeast(n, w) == AtMost(n, Top(n) - w)
    decreases if w < 0 then 0 else w
  {
    if w <= 0 {
      WaysTotal(n, Top(n) - w);
    } else {
      TailsMirror(n, w - 1);
      WaysSymmetric(n, w - 1);
      if Top(n) - w + 1 < 0 {
        assert AtMost(n, Top(n) - w) == 0;
      }
    }
  }

  // ---------- the p-value ----------

  function Min(a: int, b: int): int {
    if a <= b then a else b
  }

  function CappedRatio(extreme: int, total: nat): real
    requires total > 0
  {
    var p := (2 * extreme) as real / total as real;
    if p < 1.0 then p else 1.0
  }

  function ExactP(n: nat, w: int): real {
    CappedRatio(Min(AtMost(n, w), AtLeast(n, w)), Pow2(n))
  }

  method ExactSignedRankP(n: nat, w: int) returns (p: real)
    ensures p == ExactP(n, w)
  {
    hide Ways, AtMost, AtLeast, LowerTail, UpperTail, CappedRatio;
    var top := n * (n + 1) / 2;
    NoRanks();
    var ways := new nat[top + 1](_ => 0);
    ways[0] := 1;
    for rank := 1 to n + 1
      invariant forall s | 0 <= s <= top :: ways[s] == Ways(rank - 1, s)
    {
      for s := top + 1 downto rank
        invariant forall k | 0 <= k < s && k <= top :: ways[k] == Ways(rank - 1, k)
        invariant forall k | s <= k <= top :: ways[k] == Ways(rank, k)
      {
        WaysStep(rank, s);
        ways[s] := ways[s] + ways[s - rank];
      }
      forall s | 0 <= s < rank && s <= top ensures Ways(rank, s) == Ways(rank - 1, s) {
        WaysStep(rank, s);
        NoWaysBelowZero(rank - 1, s - rank);
      }
    }
    var total := Pow2(n);
    var lower, upper := 0, 0;
    TailsStart(n, w);
    for s := 0 to top + 1
      invariant forall k | 0 <= k <= top :: ways[k] == Ways(n, k)
      invariant lower == LowerTail(n, s, w) && upper == UpperTail(n, s, w)
    {
      TailsStep(n, s, w);
      var count := ways[s];
      if s <= w {
        lower := lower + count;
      }
      if s >= w {
        upper := upper + count;
      }
    }
    TailsEnd(n, w);
    p := CappedRatio(Min(lower, upper), total);
  }

  lemma NoRanks()
    ensures forall s :: Ways(0, s) == if s == 0 then 1 else 0
  {
  }

  /** The counts of the sums below `s` that are at most `w`, and of those that are at least `w`. */
  function LowerTail(n: nat, s: nat, w: int): int {
    AtMost(n, Min(s - 1, w))
  }

  function UpperTail(n: nat, s: nat, w: int): int {
    if s <= w then 0 else AtMost(n, s - 1) - AtMost(n, w - 1)
  }

  lemma TailsStart(n: nat, w: int)
    ensures LowerTail(n, 0, w) == UpperTail(n, 0, w) == 0
  {
  }

  lemma TailsStep(n: nat, s: nat, w: int)
    ensures LowerTail(n, s + 1, w) == LowerTail(n, s, w) + if s <= w then Ways(n, s) else 0
    ensures UpperTail(n, s + 1, w) == UpperTail(n, s, w) + if s >= w then Ways(n, s) else 0
  {
    hide Ways, AtMost;
    AtMostUnfolds(n, s);
  }

  lemma TailsEnd(n: nat, w: int)
    ensures LowerTail(n, Top(n) + 1, w) == AtMost(n, w) && UpperTail(n, Top(n) + 1, w) == AtLeast(n, w)
  {
    hide Ways, AtMost;
    TableTotals(n, w);
  }

  lemma TableTotals(n: nat, w: int)
    ensures AtMost(n, Top(n)) == Pow2(n)
    ensures w > Top(n) ==> AtMost(n, w) == Pow2(n) && AtMost(n, w - 1) == Pow2(n)
    ensures w <= 0 ==> AtMost(n, w - 1) == 0
  {
    WaysTotal(n, Top(n));
    if w > Top(n) {
      WaysTotal(n, w);
      WaysTotal(n, w - 1);
    }
  }

  /** The smaller tail is the lower tail of the nearer end. */
  lemma {:induction false} NearerTail(n: nat, w: int)
    ensures Min(AtMost(n, w), AtLeast(n, w)) == AtMost(n, Min(w, Top(n) - w))
  {
    TailsMirror(n, w);
    if w <= Top(n) - w {
      AtMostMonotone(n, w, Top(n) - w);
    } else {
      AtMostMonotone(n, Top(n) - w, w);
    }
  }

  lemma RatioMonotone(a: int, b: int, total: nat)
    requires a <= b && total > 0
    ensures CappedRatio(a, total) <= CappedRatio(b, total)
  {
    assert (2 * a) as real / total as real <= (2 * b) as real / total as real;
  }

  /** The p-value is a probability, and positive exactly for a possible rank sum. */
  lemma {:induction false} ExactPIsAProbability(n: nat, w: int)
    ensures 0.0 <= ExactP(n, w) <= 1.0
    ensures ExactP(n, w) > 0.0 <==> 0 <= w <= Top(n)
  {
    NearerTail(n, w);
    var near := Min(w, Top(n) - w);
    if near >= 0 {
      AtMostMonotone(n, 0, near);
      SumZero(n);
      RatioMonotone(1, AtMost(n, near), Pow2(n));
      assert 2.0 / Pow2(n) as real > 0.0;
    }
    RatioMonotone(0, AtMost(n, near), Pow2(n));
  }

  lemma {:induction false} SumZero(n: nat)
    ensures AtMost(n, 0) == 1
  {
    assert AtMost(n, -1) == 0;
    WaysOfZero(n);
  }

  lemma {:induction false} WaysOfZero(n: nat)
    ensures Ways(n, 0) == 1
  {
    if n > 0 {
      WaysOfZero(n - 1);
    }
  }

  /** Swapping the sides of every pair leaves the p-value as it is. */
  lemma {:induction false} ExactPSymmetric(n: nat, w: int)
    ensures ExactP(n, w) == ExactP(n, Top(n) - w)
  {
    NearerTail(n, w);
    NearerTail(n, Top(n) - w);
  }

  /** A rank sum nearer to the middle is never more significant. */
  lemma {:induction false} ExactPGrowsTowardsTheMiddle(n: nat, v: int, w: int)
    requires Min(v, Top(n) - v) <= Min(w, Top(n) - w)
    ensures ExactP(n, v) <= ExactP(n, w)
  {
    NearerTail(n, v);
    NearerTail(n, w);
    AtMostMonotone(n, Min(v, Top(n) - v), Min(w, Top(n) - w));
    RatioMonotone(AtMost(n, Min(v, Top(n) - v)), AtMost(n, Min(w, Top(n) - w)), Pow2(n));
  }

  lemma {:induction false} AssignmentsTotal(n: nat)
    ensures |Assignments(n)| == Pow2(n)
  {
    AtMostCountsAssignments(n, Top(n));
    WaysTotal(n, Top(n));
    forall v | v in Assignments(n) ensures PositiveRanks(v) <= Top(n) {
      AllAssignments(n, v);
      PositiveRanksBound(v);
    }
    assert WithSumAtMost(n, Top(n)) == Assignments(n);
  }

  /** The p-value is twice the share of sign assignments at least as far out on the nearer side. */
  lemma {:induction false} ExactPIsAShareOfAssignments(n: nat, w: int)
    ensures |Assignments(n)| > 0
    ensures ExactP(n, w) == CappedRatio(|WithSumAtMost(n, Min(w, Top(n) - w))|, |Assignments(n)|)
  {
    AssignmentsTotal(n);
    NearerTail(n, w);
    AtMostCountsAssignments(n, Min(w, Top(n) - w));
  }

  /** The assignments whose rank sum lies at least as far from the middle as `w`, on either side. */
  ghost function FarFromMiddle(n: nat, w: int): set<seq<bool>> {
    set v | v in Assignments(n) && Distance(2 * PositiveRanks(v), Top(n)) >= Distance(2 * w, Top(n))
  }

  function Distance(a: int, b: int): nat {
    if a < b then b - a else a - b
  }

  ghost function WithSumAtLeast(n: nat, w: int): set<seq<bool>> {
    set v | v in Assignments(n) && PositiveRanks(v) >= w
  }

  lemma AtLeastCountsAssignments(n: nat, w: int)
    ensures |WithSumAtLeast(n, w)| == AtLeast(n, w)
  {
    AtMostCountsAssignments(n, w - 1);
    AssignmentsTotal(n);
    assert WithSumAtMost(n, w - 1) + WithSumAtLeast(n, w) == Assignments(n);
    assert WithSumAtMost(n, w - 1) !! WithSumAtLeast(n, w);
  }

  lemma FarIsTwoTails(n: nat, w: int)
    ensures var m := Min(w, Top(n) - w);
            FarFromMiddle(n, w) == WithSumAtMost(n, m) + WithSumAtLeast(n, Top(n) - m)
  {
    hide PositiveRanks, Assignments, Top;
  }

  lemma FarCount(n: nat, w: int)
    ensures var m := Min(w, Top(n) - w);
            if 2 * m < Top(n) then |FarFromMiddle(n, w)| == 2 * AtMost(n, m)
            else |FarFromMiddle(n, w)| == Pow2(n) <= 2 * AtMost(n, m)
  {
    hide PositiveRanks, Assignments, Top, AtMost, Pow2;
    var m := Min(w, Top(n) - w);
    var low, high := WithSumAtMost(n, m), WithSumAtLeast(n, Top(n) - m);
    FarIsTwoTails(n, w);
    AtMostCountsAssignments(n, m);
    AtLeastCountsAssignments(n, Top(n) - m);
    TailsMirror(n, Top(n) - m);
    if 2 * m < Top(n) {
      assert low !! high;
    } else {
      AssignmentsTotal(n);
      assert FarFromMiddle(n, w) == Assignments(n);
      AtMostMonotone(n, m - 1, m);
    }
  }

  /**
    The p-value is the probability, when every difference is given a random sign, of a rank sum at
    least as far from the middle as the one observed.
   */
  lemma ExactPIsTwoSided(n: nat, w: int)
    ensures |Assignments(n)| > 0
    ensures ExactP(n, w) == |FarFromMiddle(n, w)| as real / |Assignments(n)| as real
  {
    hide AtMost, FarFromMiddle, Assignments, Top, AtLeast;
    var m := Min(w, Top(n) - w);
    AssignmentsTotal(n);
    NearerTail(n, w);
    FarCount(n, w);
    FarIsSomeOfAll(n, w);
    Ratio(AtMost(n, m), |FarFromMiddle(n, w)|, Pow2(n));
  }

  lemma FarIsSomeOfAll(n: nat, w: int)
    ensures |FarFromMiddle(n, w)| <= Pow2(n)
  {
    AssignmentsTotal(n);
    SubsetIsSmaller(FarFromMiddle(n, w), Assignments(n));
  }

  lemma {:induction false} SubsetIsSmaller<T>(a: set<T>, b: set<T>)
    requires a <= b
    ensures |a| <= |b|
  {
    assert b == a + (b - a);
  }

  lemma Ratio(tail: nat, far: nat, total: nat)
    requires total > 0 && far <= total && (far == 2 * tail || (far == total && total <= 2 * tail))
    ensures CappedRatio(tail, total) == far as real / total as real
  {
    ShareBelowOne(far, total);
    ShareBelowOne(2 * tail, total);
  }

  lemma ShareBelowOne(part: nat, total: nat)
    requires total > 0
    ensures part as real / total as real < 1.0 <==> part < total
    ensures part == total ==> part as real / total as real == 1.0
  {
    var q := part as real / total as real;
    assert q * total as real == part as real;
    if q >= 1.0 {
      assert (q - 1.0) * total as real >= 0.0;
    } else {
      assert (1.0 - q) * total as real > 0.0;
    }
  }

  lemma {:induction false} PositiveRanksBound(v: seq<bool>)
    ensures PositiveRanks(v) <= Top(|v|)
  {
    if v != [] {
      TopStep(|v|);
      PositiveRanksBound(v[..|v| - 1]);
    }
  }
}
