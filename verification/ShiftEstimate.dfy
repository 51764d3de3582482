/**
  The Hodges-Lehmann shift (internal/campaign/shift.go): the median of every candidate-minus-baseline
  difference. The median is an order statistic, so everything here is stated through counts.
 */
module ShiftEstimate {
  import opened Samples

  // ---------- the median ----------

  /** Stands for slices.Sort. */
  method SortValues(v: seq<real>) returns (sorted: seq<real>)
    ensures IsSortedCopy(sorted, v)
  {
    hide IsSortedCopy;
    sorted := [];
    NothingSorted();
    for n := 0 to |v|
      invariant |sorted| == n && IsSortedCopy(sorted, v[..n])
    {
      var p := n;
      while p > 0 && sorted[p - 1] > v[n]
        invariant 0 <= p <= n
        invariant forall k | p <= k < n :: sorted[k] > v[n]
      {
        p := p - 1;
      }
      InsertedCopy(sorted, v[..n], p, v[n]);
      assert v[..n + 1] == v[..n] + [v[n]];
      sorted := Inserted(sorted, p, v[n]);
    }
    assert v[..|v|] == v;
  }

  lemma NothingSorted()
    ensures IsSortedCopy([], [])
  {
  }

  lemma InsertedCopy(sorted: seq<real>, v: seq<real>, p: nat, x: real)
    requires IsSortedCopy(sorted, v) && p <= |sorted|
    requires p > 0 ==> sorted[p - 1] <= x
    requires forall k | p <= k < |sorted| :: sorted[k] > x
    ensures IsSortedCopy(Inserted(sorted, p, x), v + [x])
  {
    hide IsSorted;
    InsertSorted(sorted, p, x);
  }

  ghost predicate IsSortedCopy(sorted: seq<real>, v: seq<real>) {
    IsSorted(sorted) && multiset(sorted) == multiset(v)
  }

  /** Exactly the samples of rank `k`, counted from 0, whatever the order of `v`. */
  ghost predicate IsKth(v: seq<real>, k: int, x: real) {
    Less(v, x) <= k < Less(v, x) + Equal(v, x)
  }

  /** The middle sample, or the mean of the two middle ones. */
  ghost predicate IsMedian(v: seq<real>, m: real) {
    exists lo, hi :: AreMiddles(v, lo, hi) && m == (lo + hi) / 2.0
  }

  ghost predicate AreMiddles(v: seq<real>, lo: real, hi: real) {
    IsKth(v, (|v| - 1) / 2, lo) && IsKth(v, |v| / 2, hi)
  }

  lemma {:induction false} AtMostFirst(v: seq<real>, k: nat, x: real)
    requires k <= |v| && forall i | k <= i < |v| :: v[i] >= x
    ensures Less(v, x) <= k
  {
    if k < |v| {
      AtMostFirst(v[..|v| - 1], k, x);
    } else {
      CountsAddUp(v, x);
    }
  }

  lemma {:induction false} AtLeastFirst(v: seq<real>, k: nat, x: real)
    requires k <= |v| && forall i | 0 <= i < k :: v[i] <= x
    ensures Less(v, x) + Equal(v, x) >= k
  {
    if k == |v| {
      if k > 0 {
        AtLeastFirst(v[..k - 1], k - 1, x);
      }
    } else {
      AtLeastFirst(v[..|v| - 1], k, x);
    }
  }

  lemma KthOfSorted(v: seq<real>, sorted: seq<real>, k: nat)
    requires IsSortedCopy(sorted, v) && k < |sorted|
    ensures |sorted| == |v| && IsKth(v, k, sorted[k])
  {
    assert |sorted| == |multiset(sorted)| == |multiset(v)| == |v|;
    var x := sorted[k];
    AtMostFirst(sorted, k, x);
    AtLeastFirst(sorted, k + 1, x);
    SumPermuted(sorted, v, LessThan(x));
    SumPermuted(sorted, v, EqualTo(x));
  }

  lemma KthUnique(v: seq<real>, k: int, x: real, y: real)
    requires IsKth(v, k, x) && IsKth(v, k, y)
    ensures x == y
  {
    if x < y {
      LessGrows(v, x, y);
    } else if y < x {
      LessGrows(v, y, x);
    }
  }

  lemma MedianUnique(v: seq<real>, m: real, n: real)
    requires IsMedian(v, m) && IsMedian(v, n)
    ensures m == n
  {
    var lo, hi :| AreMiddles(v, lo, hi) && m == (lo + hi) / 2.0;
    var lo', hi' :| AreMiddles(v, lo', hi') && n == (lo' + hi') / 2.0;
    KthUnique(v, (|v| - 1) / 2, lo, lo');
    KthUnique(v, |v| / 2, hi, hi');
  }

  method Median(values: seq<real>) returns (m: real, ok: bool)
    ensures ok <==> values != []
    ensures ok ==> IsMedian(values, m)
  {
    if |values| == 0 {
      return 0.0, false;
    }
    var sorted := SortValues(values);
    assert |sorted| == |multiset(sorted)| == |multiset(values)| == |values|;
    var middle := |sorted| / 2;
    KthOfSorted(values, sorted, middle);
    KthOfSorted(values, sorted, (|values| - 1) / 2);
    assert AreMiddles(values, sorted[(|values| - 1) / 2], sorted[middle]);
    if |sorted| % 2 == 1 {
      assert sorted[middle] == (sorted[middle] + sorted[middle]) / 2.0;
      return sorted[middle], true;
    }
    return (sorted[middle - 1] + sorted[middle]) / 2.0, true;
  }

  // ---------- the shift ----------

  function UsableSamples(values: seq<Float>): seq<real> {
    if values == [] then []
    else
      var x := values[|values| - 1];
      UsableSamples(values[..|values| - 1]) + if x.Finite? then [x.value] else []
  }

  function AsFloat(x: real): Float {
    Finite(x)
  }

  /** Every finite sample is usable. */
  lemma {:induction false} FiniteIsUsable(v: seq<real>)
    ensures UsableSamples(Map(v, AsFloat)) == v
  {
    if v != [] {
      FiniteIsUsable(v[..|v| - 1]);
      assert Map(v, AsFloat)[..|v| - 1] == Map(v[..|v| - 1], AsFloat);
    }
  }

  method DropUnusable(values: seq<Float>) returns (usable: seq<real>)
    ensures usable == UsableSamples(values)
  {
    usable := [];
    for i := 0 to |values|
      invariant usable == UsableSamples(values[..i])
    {
      assert values[..i + 1][..i] == values[..i];
      if values[i].Finite? {
        usable := usable + [values[i].value];
      }
    }
    assert values[..|values|] == values;
  }

  function Minus(c: real): real -> real {
    b => c - b
  }

  function Differences(base: seq<real>, cand: seq<real>): seq<real> {
    if cand == [] then []
    else Differences(base, cand[..|cand| - 1]) + Map(base, Minus(cand[|cand| - 1]))
  }

  lemma {:induction false} DifferencesCount(base: seq<real>, cand: seq<real>)
    ensures |Differences(base, cand)| == |cand| * |base|
  {
    if cand != [] {
      DifferencesCount(base, cand[..|cand| - 1]);
      assert (|cand| - 1) * |base| + |base| == |cand| * |base|;
    }
  }

  /** The estimate is defined from two samples a side on, and is the median of all differences. */
  ghost predicate IsShift(baseline: seq<Float>, candidate: seq<Float>, shift: real) {
    var base, cand := UsableSamples(baseline), UsableSamples(candidate);
    |base| >= 2 && |cand| >= 2 && IsMedian(Differences(base, cand), shift)
  }

  method HodgesLehmannShift(baseline: seq<Float>, candidate: seq<Float>) returns (shift: real, ok: bool)
    ensures ok <==> |UsableSamples(baseline)| >= 2 && |UsableSamples(candidate)| >= 2
    ensures ok ==> IsShift(baseline, candidate, shift)
  {
    var base := DropUnusable(baseline);
    var cand := DropUnusable(candidate);
    if |base| < 2 || |cand| < 2 {
      return 0.0, false;
    }
    var differences := [];
    for i := 0 to |cand|
      invariant differences == Differences(base, cand[..i])
    {
      var c := cand[i];
      ghost var before := differences;
      for j := 0 to |base|
        invariant differences == before + Map(base[..j], Minus(c))
      {
        differences := differences + [c - base[j]];
        assert Map(base[..j + 1], Minus(c)) == Map(base[..j], Minus(c)) + [c - base[j]];
      }
      assert base[..|base|] == base && cand[..i + 1][..i] == cand[..i];
    }
    assert cand[..|cand|] == cand;
    DifferencesCount(base, cand);
    assert |differences| > 0;
    shift, ok := Median(differences);
  }

  lemma ShiftUnique(baseline: seq<Float>, candidate: seq<Float>, s: real, t: real)
    requires IsShift(baseline, candidate, s) && IsShift(baseline, candidate, t)
    ensures s == t
  {
    MedianUnique(Differences(UsableSamples(baseline), UsableSamples(candidate)), s, t);
  }

  // ---------- swapping the sides ----------

  function Column(c: real, f: real -> int): real -> int {
    b => f(c - b)
  }

  function Row(base: seq<real>, f: real -> int): real -> int {
    c => Sum(base, Column(c, f))
  }

  function Flip(f: real -> int): real -> int {
    d => f(-d)
  }

  lemma {:induction false} SumByRows(base: seq<real>, cand: seq<real>, f: real -> int)
    ensures Sum(Differences(base, cand), f) == Sum(cand, Row(base, f))
  {
    if cand != [] {
      var rest, c := cand[..|cand| - 1], cand[|cand| - 1];
      SumByRows(base, rest, f);
      SumConcat(Differences(base, rest), Map(base, Minus(c)), f);
      MapSum(base, Minus(c), f, Column(c, f));
    }
  }

  lemma {:induction false} OneMoreColumn(base: seq<real>, b: real, cand: seq<real>, f: real -> int)
    ensures Sum(cand, Row(base + [b], f)) == Sum(cand, Row(base, f)) + Sum(cand, Column(b, Flip(f)))
  {
    if cand != [] {
      var c := cand[|cand| - 1];
      OneMoreColumn(base, b, cand[..|cand| - 1], f);
      SumSnoc(base, b, Column(c, f));
      assert -(b - c) == c - b;
    }
  }

  lemma {:induction false} RowsAreColumns(base: seq<real>, cand: seq<real>, f: real -> int)
    ensures Sum(cand, Row(base, f)) == Sum(base, Row(cand, Flip(f)))
  {
    if base == [] {
      SumConstant(cand, Row(base, f), 0);
    } else {
      var rest, b := base[..|base| - 1], base[|base| - 1];
      assert base == rest + [b];
      RowsAreColumns(rest, cand, f);
      OneMoreColumn(rest, b, cand, f);
    }
  }

  /** The swapped differences are the negated ones, in another order. */
  lemma DifferencesSwapped(base: seq<real>, cand: seq<real>, f: real -> int)
    ensures Sum(Differences(cand, base), f) == Sum(Differences(base, cand), Flip(f))
  {
    SumByRows(cand, base, f);
    RowsAreColumns(cand, base, f);
    SumByRows(base, cand, Flip(f));
  }

  lemma CountsSwapped(base: seq<real>, cand: seq<real>, x: real)
    ensures Less(Differences(cand, base), -x) == Greater(Differences(base, cand), x)
    ensures Equal(Differences(cand, base), -x) == Equal(Differences(base, cand), x)
  {
    hide Differences, Sum;
    var d := Differences(base, cand);
    DifferencesSwapped(base, cand, LessThan(-x));
    DifferencesSwapped(base, cand, EqualTo(-x));
    SumPointwise(d, Flip(LessThan(-x)), GreaterThan(x));
    SumPointwise(d, Flip(EqualTo(-x)), EqualTo(x));
  }

  lemma KthSwapped(base: seq<real>, cand: seq<real>, k: int, x: real)
    requires IsKth(Differences(base, cand), k, x)
    ensures IsKth(Differences(cand, base), |Differences(base, cand)| - 1 - k, -x)
  {
    CountsSwapped(base, cand, x);
    CountsAddUp(Differences(base, cand), x);
  }

  lemma MedianSwapped(base: seq<real>, cand: seq<real>, m: real)
    requires IsMedian(Differences(base, cand), m)
    ensures IsMedian(Differences(cand, base), -m)
  {
    var d, e := Differences(base, cand), Differences(cand, base);
    DifferencesCount(base, cand);
    DifferencesCount(cand, base);
    var lo, hi :| AreMiddles(d, lo, hi) && m == (lo + hi) / 2.0;
    KthSwapped(base, cand, (|d| - 1) / 2, lo);
    KthSwapped(base, cand, |d| / 2, hi);
    CountsAddUp(d, lo);
    assert |e| == |d|;
    assert AreMiddles(e, -hi, -lo);
    assert -m == (-hi + -lo) / 2.0;
  }

  /** Measuring candidate against baseline, or baseline against candidate, differs only in sign. */
  lemma ShiftAntisymmetric(baseline: seq<Float>, candidate: seq<Float>, shift: real)
    requires IsShift(baseline, candidate, shift)
    ensures IsShift(candidate, baseline, -shift)
  {
    MedianSwapped(UsableSamples(baseline), UsableSamples(candidate), shift);
  }

  // ---------- moving one side ----------

  function Plus(k: real): real -> real {
    x => x + k
  }

  function MoveFloat(k: real): Float -> Float {
    (x: Float) => if x.Finite? then Finite(x.value + k) else x
  }

  lemma {:induction false} UsableMoved(values: seq<Float>, k: real)
    ensures UsableSamples(Map(values, MoveFloat(k))) == Map(UsableSamples(values), Plus(k))
  {
    if values != [] {
      UsableMoved(values[..|values| - 1], k);
      assert Map(values, MoveFloat(k))[..|values| - 1] == Map(values[..|values| - 1], MoveFloat(k));
    }
  }

  lemma {:induction false} DifferencesMoved(base: seq<real>, cand: seq<real>, k: real)
    ensures Differences(base, Map(cand, Plus(k))) == Map(Differences(base, cand), Plus(k))
  {
    if cand != [] {
      var rest := cand[..|cand| - 1];
      DifferencesMoved(base, rest, k);
      assert Map(cand, Plus(k))[..|cand| - 1] == Map(rest, Plus(k));
      var row := Map(base, Minus(cand[|cand| - 1]));
      MapConcat(Differences(base, rest), row, Plus(k));
      RowMoved(base, cand[|cand| - 1], k);
    }
  }

  lemma MapConcat(a: seq<real>, b: seq<real>, f: real -> real)
    ensures Map(a + b, f) == Map(a, f) + Map(b, f)
  {
  }

  lemma RowMoved(base: seq<real>, c: real, k: real)
    ensures Map(base, Minus(c + k)) == Map(Map(base, Minus(c)), Plus(k))
  {
  }

  lemma KthMoved(v: seq<real>, i: int, x: real, k: real)
    requires IsKth(v, i, x)
    ensures IsKth(Map(v, Plus(k)), i, x + k)
  {
    MapSum(v, Plus(k), LessThan(x + k), LessThan(x));
    MapSum(v, Plus(k), EqualTo(x + k), EqualTo(x));
  }

  lemma MedianMoved(v: seq<real>, m: real, k: real)
    requires IsMedian(v, m)
    ensures IsMedian(Map(v, Plus(k)), m + k)
  {
    var lo, hi :| AreMiddles(v, lo, hi) && m == (lo + hi) / 2.0;
    KthMoved(v, (|v| - 1) / 2, lo, k);
    KthMoved(v, |v| / 2, hi, k);
    assert AreMiddles(Map(v, Plus(k)), lo + k, hi + k);
    assert m + k == ((lo + k) + (hi + k)) / 2.0;
  }

  /** When every candidate sample moves by `k`, so does the shift. */
  lemma ShiftMovesWithCandidate(baseline: seq<Float>, candidate: seq<Float>, shift: real, k: real)
    requires IsShift(baseline, candidate, shift)
    ensures IsShift(baseline, Map(candidate, MoveFloat(k)), shift + k)
  {
    UsableMoved(candidate, k);
    DifferencesMoved(UsableSamples(baseline), UsableSamples(candidate), k);
    MedianMoved(Differences(UsableSamples(baseline), UsableSamples(candidate)), shift, k);
  }

  // ---------- breakdown ----------

  /** Every difference the sample takes part in lies between `lo` and `hi`. */
  ghost predicate Within(base: seq<real>, lo: real, hi: real, c: real) {
    forall b | b in base :: lo <= c - b <= hi
  }

  ghost function OutlierRow(base: seq<real>, lo: real, hi: real): real -> int {
    c => if Within(base, lo, hi, c) then 0 else |base|
  }

  ghost function Outliers(base: seq<real>, lo: real, hi: real): real -> int {
    c => if Within(base, lo, hi, c) then 0 else 1
  }

  lemma {:induction false} OutlierRowsAreOutliers(base: seq<real>, cand: seq<real>, lo: real, hi: real)
    ensures Sum(cand, OutlierRow(base, lo, hi)) == Sum(cand, Outliers(base, lo, hi)) * |base|
  {
    if cand != [] {
      OutlierRowsAreOutliers(base, cand[..|cand| - 1], lo, hi);
      var n := Sum(cand[..|cand| - 1], Outliers(base, lo, hi));
      assert (n + 1) * |base| == n * |base| + |base|;
    }
  }

  /** A count of differences outside [lo, hi] comes from the outliers' rows alone. */
  lemma OutsideBound(base: seq<real>, cand: seq<real>, lo: real, hi: real, f: real -> int)
    requires forall d :: 0 <= f(d) <= 1 && (lo <= d <= hi ==> f(d) == 0)
    ensures Sum(Differences(base, cand), f) <= Sum(cand, Outliers(base, lo, hi)) * |base|
  {
    SumByRows(base, cand, f);
    forall c | c in cand ensures Row(base, f)(c) <= OutlierRow(base, lo, hi)(c) {
      if Within(base, lo, hi, c) {
        SumConstant(base, Column(c, f), 0);
      } else {
        SumMonotone(base, Column(c, f), Ones());
        SumConstant(base, Ones(), 1);
      }
    }
    SumMonotone(cand, Row(base, f), OutlierRow(base, lo, hi));
    OutlierRowsAreOutliers(base, cand, lo, hi);
  }

  function Ones(): real -> int {
    _ => 1
  }

  lemma MiddleStaysInside(d: seq<real>, k: int, x: real, lo: real, hi: real)
    requires IsKth(d, k, x)
    requires Less(d, lo) <= k < |d| - Greater(d, hi)
    ensures lo <= x <= hi
  {
    if x < lo {
      LessGrows(d, x, lo);
    }
    if hi < x {
      LessGrows(d, hi, x);
      CountsAddUp(d, hi);
    }
  }

  /** Fewer outliers than half the samples leave the median of the differences inside the range. */
  lemma MinorityCannotMoveShift(base: seq<real>, cand: seq<real>, lo: real, hi: real, shift: real)
    requires base != [] && 2 * Sum(cand, Outliers(base, lo, hi)) < |cand|
    requires IsMedian(Differences(base, cand), shift)
    ensures lo <= shift <= hi
  {
    var d := Differences(base, cand);
    MinorityOutside(base, cand, lo, hi);
    var x, y :| AreMiddles(d, x, y) && shift == (x + y) / 2.0;
    MiddleStaysInside(d, (|d| - 1) / 2, x, lo, hi);
    MiddleStaysInside(d, |d| / 2, y, lo, hi);
  }

  lemma MinorityOutside(base: seq<real>, cand: seq<real>, lo: real, hi: real)
    requires base != [] && 2 * Sum(cand, Outliers(base, lo, hi)) < |cand|
    ensures var d := Differences(base, cand); 2 * Less(d, lo) < |d| && 2 * Greater(d, hi) < |d|
  {
    var bad := Sum(cand, Outliers(base, lo, hi));
    DifferencesCount(base, cand);
    OutsideBound(base, cand, lo, hi, LessThan(lo));
    OutsideBound(base, cand, lo, hi, GreaterThan(hi));
    LessThanHalf(Less(Differences(base, cand), lo), bad, |base|, |cand|);
    LessThanHalf(Greater(Differences(base, cand), hi), bad, |base|, |cand|);
  }

  lemma LessThanHalf(outside: int, bad: int, columns: nat, rows: nat)
    requires outside <= bad * columns && 2 * bad < rows && columns > 0
    ensures 2 * outside < rows * columns
  {
    var gap := rows - 2 * bad - 1;
    assert gap * columns >= 0;
    assert rows * columns == 2 * (bad * columns) + columns + gap * columns;
  }

  function Untouched(mask: seq<bool>): nat {
    if mask == [] then 0 else Untouched(mask[..|mask| - 1]) + if mask[|mask| - 1] then 1 else 0
  }

  lemma {:induction false} OutliersAreTouched(base: seq<real>, candidate: seq<Float>, mask: seq<bool>, lo: real,
    hi: real)
    requires |mask| == |candidate|
    requires forall i | 0 <= i < |mask| && mask[i] :: candidate[i].Finite? && Within(base, lo, hi, candidate[i].value)
    ensures var cand := UsableSamples(candidate);
            |cand| <= |candidate| && |cand| - Sum(cand, Outliers(base, lo, hi)) >= Untouched(mask)
  {
    if candidate != [] {
      var n := |candidate| - 1;
      var f, rest := Outliers(base, lo, hi), UsableSamples(candidate[..n]);
      OutliersAreTouched(base, candidate[..n], mask[..n], lo, hi);
      assert Untouched(mask) == Untouched(mask[..n]) + if mask[n] then 1 else 0;
      if candidate[n].Finite? {
        var x := candidate[n].value;
        SumSnoc(rest, x, f);
        assert UsableSamples(candidate) == rest + [x];
        assert f(x) == if Within(base, lo, hi, x) then 0 else 1;
      } else {
        assert UsableSamples(candidate) == rest;
      }
    }
  }

  /**
    As long as more than half the candidate samples are untouched, whatever the others read (also
    nothing usable at all), the shift lies within the range of the untouched pairwise differences.
   */
  lemma ShiftBreakdown(baseline: seq<Float>, candidate: seq<Float>, mask: seq<bool>, lo: real, hi: real, shift: real)
    requires |mask| == |candidate| && 2 * Untouched(mask) > |candidate|
    requires forall i | 0 <= i < |mask| && mask[i] ::
               candidate[i].Finite? && Within(UsableSamples(baseline), lo, hi, candidate[i].value)
    requires IsShift(baseline, candidate, shift)
    ensures lo <= shift <= hi
  {
    var base, cand := UsableSamples(baseline), UsableSamples(candidate);
    OutliersAreTouched(base, candidate, mask, lo, hi);
    MinorityCannotMoveShift(base, cand, lo, hi, shift);
  }
}
