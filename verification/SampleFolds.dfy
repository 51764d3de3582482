/**
  Folding the workloads' sample series into one pooled series (commonDepth, meanPerRepetition and
  maxPerRepetition in internal/campaign/candidate_eval.go). A fold reads the series' common prefix,
  so what it drops depends on their lengths alone.

  A float64 sample is a `real`.
 */
module SampleFolds {

  // ---------- lengths ----------

  function Min(a: nat, b: nat): nat {
    if a < b then a else b
  }

  /** The depth every series reaches and some series ends at; 0 without a series. */
  ghost predicate IsCommonDepth(series: seq<seq<real>>, depth: nat) {
    && (forall s | s in series :: depth <= |s|)
    && (if series == [] then depth == 0 else exists s :: s in series && |s| == depth)
  }

  ghost predicate EquallyLong(series: seq<seq<real>>, n: nat) {
    forall s | s in series :: |s| == n
  }

  method CommonDepth(series: seq<seq<real>>) returns (depth: nat)
    ensures IsCommonDepth(series, depth)
  {
    if |series| == 0 {
      return 0;
    }
    depth := |series[0]|;
    for i := 1 to |series|
      invariant forall k | 0 <= k < i :: depth <= |series[k]|
      invariant exists k :: 0 <= k < i && |series[k]| == depth
    {
      depth := Min(depth, |series[i]|);
    }
  }

  function SampleCount(series: seq<seq<real>>): nat {
    if series == [] then 0 else SampleCount(series[..|series| - 1]) + |series[|series| - 1]|
  }

  lemma {:induction false} CountBound(series: seq<seq<real>>, depth: nat)
    requires forall s | s in series :: depth <= |s|
    ensures depth * |series| <= SampleCount(series)
    ensures depth * |series| == SampleCount(series) <==> EquallyLong(series, depth)
  {
    if series != [] {
      var front := series[..|series| - 1];
      CountBound(front, depth);
      TimesSuccessor(depth, |front|);
      assert EquallyLong(series, depth) <==> EquallyLong(front, depth) && |series[|series| - 1]| == depth by {
        assert series == front + [series[|series| - 1]];
      }
    }
  }

  lemma TimesSuccessor(a: int, n: int)
    ensures a * (n + 1) == a * n + a
  {
  }

  /** A fold over the common depth reads every sample exactly when the series are equally long. */
  lemma FoldDropsNothingIff(series: seq<seq<real>>, depth: nat)
    requires IsCommonDepth(series, depth)
    ensures depth * |series| == SampleCount(series)
            <==> forall a, b | a in series && b in series :: |a| == |b|
  {
    CountBound(series, depth);
  }

  // ---------- means ----------

  function Total(s: seq<real>): real {
    if s == [] then 0.0 else Total(s[..|s| - 1]) + s[|s| - 1]
  }

  function At(s: seq<real>, i: nat): real {
    if i < |s| then s[i] else 0.0
  }

  function ColumnTotal(series: seq<seq<real>>, i: nat): real {
    if series == [] then 0.0 else ColumnTotal(series[..|series| - 1], i) + At(series[|series| - 1], i)
  }

  ghost predicate IsShare(x: real, n: nat, sum: real) {
    x * n as real == sum
  }

  function Share(sum: real, n: nat): (x: real)
    requires n > 0
    ensures IsShare(x, n, sum)
  {
    sum / n as real
  }

  /** Each repetition's mean over the workloads. */
  ghost predicate IsMeanFold(series: seq<seq<real>>, out: seq<real>) {
    && IsCommonDepth(series, |out|)
    && forall i | 0 <= i < |out| :: IsShare(out[i], |series|, ColumnTotal(series, i))
  }

  method MeanPerRepetition(series: seq<seq<real>>) returns (out: seq<real>)
    ensures IsMeanFold(series, out)
  {
    hide Share, IsShare;
    var depth := CommonDepth(series);
    out := [];
    if depth == 0 {
      return;
    }
    for i := 0 to depth
      invariant |out| == i
      invariant forall k | 0 <= k < i :: IsShare(out[k], |series|, ColumnTotal(series, k))
    {
      var sum := 0.0;
      for k := 0 to |series|
        invariant sum == ColumnTotal(series[..k], i)
      {
        assert series[..k + 1][..k] == series[..k];
        assert series[k] in series;
        sum := sum + series[k][i];
      }
      assert series[..|series|] == series;
      out := out + [Share(sum, |series|)];
    }
  }

  function GrandTotal(series: seq<seq<real>>): real {
    if series == [] then 0.0 else GrandTotal(series[..|series| - 1]) + Total(series[|series| - 1])
  }

  /** The first columns, summed. */
  function ColumnTotals(series: seq<seq<real>>, depth: nat): real {
    if depth == 0 then 0.0 else ColumnTotals(series, depth - 1) + ColumnTotal(series, depth - 1)
  }

  lemma {:induction false} ColumnsOfSnoc(series: seq<seq<real>>, last: seq<real>, depth: nat)
    requires depth <= |last|
    ensures ColumnTotals(series + [last], depth) == ColumnTotals(series, depth) + Total(last[..depth])
  {
    if depth > 0 {
      ColumnsOfSnoc(series, last, depth - 1);
      assert (series + [last])[..|series|] == series;
      assert last[..depth][..depth - 1] == last[..depth - 1];
    }
  }

  /** Summing by columns and summing by rows agree. */
  lemma {:induction false} ColumnsAndRows(series: seq<seq<real>>, n: nat)
    requires EquallyLong(series, n)
    ensures ColumnTotals(series, n) == GrandTotal(series)
  {
    if series == [] {
      NoColumns(n);
    } else {
      var front, last := series[..|series| - 1], series[|series| - 1];
      assert series == front + [last] && last in series;
      assert forall s | s in front :: s in series;
      ColumnsOfSnoc(front, last, n);
      ColumnsAndRows(front, n);
      assert last[..n] == last;
    }
  }

  lemma {:induction false} NoColumns(n: nat)
    ensures ColumnTotals([], n) == 0.0
  {
    if n > 0 {
      NoColumns(n - 1);
    }
  }

  lemma {:induction false} ScaledTotal(series: seq<seq<real>>, out: seq<real>, depth: nat)
    requires IsMeanFold(series, out) && depth <= |out|
    ensures Total(out[..depth]) * |series| as real == ColumnTotals(series, depth)
  {
    if depth > 0 {
      ScaledTotal(series, out, depth - 1);
      assert out[..depth][..depth - 1] == out[..depth - 1];
      Distribute(Total(out[..depth - 1]), out[depth - 1], |series| as real);
    }
  }

  lemma Distribute(a: real, b: real, c: real)
    ensures (a + b) * c == a * c + b * c
  {
  }

  /** Conservation: over equally long series, the mean fold keeps the total cost of all workloads. */
  lemma MeanFoldKeepsTotal(series: seq<seq<real>>, n: nat, out: seq<real>)
    requires series != [] && EquallyLong(series, n) && IsMeanFold(series, out)
    ensures |out| == n
    ensures Total(out) * |series| as real == GrandTotal(series)
  {
    hide Total, ColumnTotals, GrandTotal, ColumnTotal;
    assert series[0] in series;
    ScaledTotal(series, out, |out|);
    assert out[..|out|] == out;
    ColumnsAndRows(series, n);
  }

  // ---------- maxima ----------

  ghost predicate IsMaximum(c: seq<real>, x: real) {
    x in c && forall y | y in c :: y <= x
  }

  /** `x` is the largest of the `i`-th samples of the series. */
  ghost predicate IsColumnMaximum(series: seq<seq<real>>, i: nat, x: real) {
    && (exists k :: 0 <= k < |series| && At(series[k], i) == x)
    && forall k | 0 <= k < |series| :: At(series[k], i) <= x
  }

  /** Each repetition's maximum over the workloads. */
  ghost predicate IsMaxFold(series: seq<seq<real>>, out: seq<real>) {
    && IsCommonDepth(series, |out|)
    && forall i | 0 <= i < |out| :: IsColumnMaximum(series, i, out[i])
  }

  method MaxPerRepetition(series: seq<seq<real>>) returns (out: seq<real>)
    ensures IsMaxFold(series, out)
  {
    var depth := CommonDepth(series);
    out := [];
    if depth == 0 {
      return;
    }
    for i := 0 to depth
      invariant |out| == i
      invariant forall k | 0 <= k < i :: IsColumnMaximum(series, k, out[k])
    {
      assert series[0] in series;
      var most := series[0][i];
      for k := 1 to |series|
        invariant exists j :: 0 <= j < k && At(series[j], i) == most
        invariant forall j | 0 <= j < k :: At(series[j], i) <= most
      {
        assert series[k] in series;
        if most < series[k][i] {
          most := series[k][i];
        }
      }
      out := out + [most];
    }
  }

  lemma PeakCoversSample(series: seq<seq<real>>, out: seq<real>, k: nat, i: nat)
    requires IsMaxFold(series, out) && k < |series| && i < |out|
    ensures i < |series[k]| && series[k][i] <= out[i]
  {
    assert series[k] in series;
  }

  lemma PeakIsASample(series: seq<seq<real>>, out: seq<real>, i: nat) returns (k: nat)
    requires IsMaxFold(series, out) && i < |out|
    ensures k < |series| && i < |series[k]| && series[k][i] == out[i]
  {
    k :| 0 <= k < |series| && At(series[k], i) == out[i];
    assert series[k] in series;
  }

  ghost predicate IsPeak(series: seq<seq<real>>, peak: real) {
    && (exists k, i :: 0 <= k < |series| && 0 <= i < |series[k]| && series[k][i] == peak)
    && forall k, i | 0 <= k < |series| && 0 <= i < |series[k]| :: series[k][i] <= peak
  }

  /** Over equally long series, the pooled high-water mark is the highest of any workload's run. */
  lemma MaxFoldKeepsPeak(series: seq<seq<real>>, n: nat, out: seq<real>, peak: real)
    requires series != [] && EquallyLong(series, n) && IsMaxFold(series, out)
    ensures |out| == n
    ensures IsMaximum(out, peak) <==> IsPeak(series, peak)
  {
    hide IsMaxFold;
    DepthIsLength(series, n, out);
    forall k, i | 0 <= k < |series| && 0 <= i < |series[k]| ensures i < |out| && series[k][i] <= out[i] {
      PeakCoversSample(series, out, k, i);
    }
    if IsMaximum(out, peak) {
      var i :| 0 <= i < |out| && out[i] == peak;
      var k := PeakIsASample(series, out, i);
      forall k, i | 0 <= k < |series| && 0 <= i < |series[k]| ensures series[k][i] <= peak {
        assert out[i] in out;
      }
    }
    if IsPeak(series, peak) {
      forall i | 0 <= i < |out| ensures out[i] <= peak {
        var k := PeakIsASample(series, out, i);
      }
      var k, i :| 0 <= k < |series| && 0 <= i < |series[k]| && series[k][i] == peak;
      assert out[i] in out && out[i] == peak;
    }
  }

  lemma DepthIsLength(series: seq<seq<real>>, n: nat, out: seq<real>)
    requires series != [] && EquallyLong(series, n) && IsMaxFold(series, out)
    ensures |out| == n && forall k | 0 <= k < |series| :: |series[k]| == n
  {
    assert series[0] in series;
  }
}
