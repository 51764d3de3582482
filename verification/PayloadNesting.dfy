/**
  When the payload balancedJSON finds (internal/agents/fence.go) is well nested. The scan compares
  the kinds of the outermost pair alone, so the pairs inside decide.
 */
module PayloadNesting {
  import opened JsonLexer
  import opened PayloadSearch

  ghost predicate ClosesAt(p: string, k: nat) {
    k < |p| && ModeAt(p, k).Outside? && IsCloser(p[k])
  }

  ghost predicate OpensAt(p: string, k: nat) {
    k < |p| && ModeAt(p, k).Outside? && IsOpener(p[k])
  }

  /** The closer at `k` brings the depth back to where the opener at `i` took it from. */
  ghost predicate ArePartners(p: string, i: nat, k: nat) {
    && i < k && OpensAt(p, i) && ClosesAt(p, k)
    && Depth(p, 0, i + 1) == Depth(p, 0, k)
    && forall j | i < j <= k :: Depth(p, 0, j) >= Depth(p, 0, k)
  }

  /** Every closer outside strings is of its opener's kind. */
  ghost predicate KindsMatch(p: string) {
    forall i: nat, k: nat | ArePartners(p, i, k) :: p[k] == CloserOf(p[i])
  }

  // ---------- nesting, closer by closer ----------

  ghost predicate ClosesTop(p: string, k: nat)
    requires k < |p|
  {
    ClosesAt(p, k) ==> StackAt(p, k) != "" && Last(StackAt(p, k)) == p[k]
  }

  lemma StepOfStack(p: string, k: nat)
    requires k < |p|
    ensures StackAt(p, k + 1) == if !ClosesAt(p, k) then Opened(ModeAt(p, k), StackAt(p, k), p[k])
                                 else if StackAt(p, k) == "" then "" else Front(StackAt(p, k))
  {
    assert p[..k + 1] == p[..k] + [p[k]];
    StackAfterConcat(Outside, "", p[..k], [p[k]]);
    assert [p[k]][1..] == "";
  }

  lemma {:induction false} ClosersDecideFrom(p: string, k: nat)
    requires k <= |p|
    ensures Nested(ModeAt(p, k), StackAt(p, k), p[k..]) <==>
            (forall j: nat | k <= j < |p| :: ClosesTop(p, j)) && ModeAt(p, |p|).Outside? && StackAt(p, |p|) == ""
    decreases |p| - k
  {
    if k < |p| {
      var rest := p[k..];
      assert rest[0] == p[k] && rest[1..] == p[k + 1..];
      StepOfStack(p, k);
      ModeStep(p, k);
      ClosersDecideFrom(p, k + 1);
      OneMoreCloser(p, k);
      NestedUnfolds(ModeAt(p, k), StackAt(p, k), rest);
    }
  }

  lemma OneMoreCloser(p: string, k: nat)
    requires k < |p|
    ensures (forall j: nat | k <= j < |p| :: ClosesTop(p, j))
            <==> ClosesTop(p, k) && forall j: nat | k + 1 <= j < |p| :: ClosesTop(p, j)
  {
  }

  lemma NestedUnfolds(m: Mode, stack: string, s: string)
    requires s != ""
    ensures Nested(m, stack, s) <==>
            if m.Outside? && IsCloser(s[0]) then stack != "" && Last(stack) == s[0]
              && Nested(Outside, Front(stack), s[1..])
            else Nested(Next(m, s[0]), Opened(m, stack, s[0]), s[1..])
  {
  }

  // ---------- what stands on the stack ----------

  /** The container opened at `i` is the one at depth `t` that is still open before byte `k`. */
  ghost predicate Holds(p: string, i: nat, k: nat, t: nat)
    requires k <= |p|
  {
    && i < k && OpensAt(p, i) && Depth(p, 0, i) == t && Depth(p, 0, i + 1) == t + 1
    && forall j | i < j <= k :: Depth(p, 0, j) > t
  }

  ghost predicate StaysOpen(p: string, k: nat)
    requires k <= |p|
  {
    forall j | 0 < j <= k :: Depth(p, 0, j) > 0
  }

  lemma DepthStep(p: string, k: nat)
    requires k < |p|
    ensures Depth(p, 0, k + 1) == Depth(p, 0, k) + if OpensAt(p, k) then 1 else if ClosesAt(p, k) then -1 else 0
  {
    assert p[0..k] == p[..k];
  }

  lemma {:induction false} StackHolds(p: string, k: nat, t: nat) returns (i: nat)
    requires k <= |p| && StaysOpen(p, k) && t < |StackAt(p, k)|
    ensures |StackAt(p, k)| == Depth(p, 0, k)
    ensures Holds(p, i, k, t) && StackAt(p, k)[t] == CloserOf(p[i])
    decreases k
  {
    hide Depth, StackAt, ModeAt, Holds;
    StackSize(p, k);
    assert p[..0] == "";
    if k == 0 {
      NothingOpen(p);
      assert false;
    } else {
      DepthStep(p, k - 1);
      StepOfStack(p, k - 1);
      StackSize(p, k - 1);
      if OpensAt(p, k - 1) && t == |StackAt(p, k)| - 1 {
        i := k - 1;
        OpenedNow(p, i);
      } else {
        assert StackAt(p, k)[t] == StackAt(p, k - 1)[t];
        i := StackHolds(p, k - 1, t);
        StillHolds(p, i, k - 1, t);
      }
    }
  }

  lemma NothingOpen(p: string)
    ensures StackAt(p, 0) == "" && Depth(p, 0, 0) == 0
  {
    assert p[..0] == "";
  }

  lemma OpenedNow(p: string, i: nat)
    requires OpensAt(p, i)
    ensures Depth(p, 0, i) >= 0 ==> Holds(p, i, i + 1, Depth(p, 0, i))
  {
    DepthStep(p, i);
  }

  lemma StillHolds(p: string, i: nat, k: nat, t: nat)
    requires k < |p| && Holds(p, i, k, t) && Depth(p, 0, k + 1) > t
    ensures Holds(p, i, k + 1, t)
  {
  }

  lemma {:induction false} StackSize(p: string, k: nat)
    requires k <= |p| && StaysOpen(p, k)
    ensures |StackAt(p, k)| == Depth(p, 0, k)
    decreases k
  {
    if k == 0 {
      NothingOpen(p);
    } else {
      DepthStep(p, k - 1);
      StepOfStack(p, k - 1);
      StackSize(p, k - 1);
    }
  }

  lemma OnePartner(p: string, i: nat, j: nat, k: nat)
    requires ArePartners(p, i, k) && ArePartners(p, j, k)
    ensures i == j
  {
    hide Depth;
    DepthStep(p, i);
    DepthStep(p, j);
  }

  /** The top of the stack at a closer is what the closer's partner asks for. */
  lemma TopIsPartner(p: string, k: nat) returns (i: nat)
    requires ClosesAt(p, k) && IsOpener(p[0]) && StaysOpen(p, k)
    ensures ArePartners(p, i, k) && StackAt(p, k) != "" && Last(StackAt(p, k)) == CloserOf(p[i])
  {
    hide Depth;
    assert k > 0;
    StackSize(p, k);
    i := StackHolds(p, k, |StackAt(p, k)| - 1);
  }

  lemma KindsMatchIffTops(p: string)
    requires p != "" && IsOpener(p[0]) && StaysOpen(p, |p| - 1)
    ensures KindsMatch(p) <==> forall k: nat | k < |p| :: ClosesTop(p, k)
  {
    hide Depth, StackAt, ModeAt;
    NothingOpen(p);
    forall k: nat | k < |p| && ClosesAt(p, k) ensures ClosesTop(p, k) <==> PartnersMatch(p, k) {
      TopDecides(p, k);
    }
    if KindsMatch(p) {
      forall k: nat | k < |p| ensures ClosesTop(p, k) {
        assert ClosesAt(p, k) ==> PartnersMatch(p, k);
      }
    }
    if forall k: nat | k < |p| :: ClosesTop(p, k) {
      forall i: nat, k: nat | ArePartners(p, i, k) ensures p[k] == CloserOf(p[i]) {
        assert ClosesTop(p, k) && PartnersMatch(p, k);
      }
    }
  }

  /** Whatever opener is the partner of the closer at `k`, it is of the same kind. */
  ghost predicate PartnersMatch(p: string, k: nat) {
    forall i: nat | ArePartners(p, i, k) :: p[k] == CloserOf(p[i])
  }

  lemma TopDecides(p: string, k: nat)
    requires p != "" && IsOpener(p[0]) && k < |p| && StaysOpen(p, k) && ClosesAt(p, k)
    ensures ClosesTop(p, k) <==> PartnersMatch(p, k)
  {
    hide Depth, StackAt, ModeAt;
    var i := TopIsPartner(p, k);
    forall j: nat | ArePartners(p, j, k) ensures j == i {
      OnePartner(p, i, j, k);
    }
  }

  // ---------- the payload found ----------

  lemma {:induction false} DepthOfSpan(s: string, start: nat, end: nat, k: nat)
    requires start + k <= end <= |s|
    ensures Depth(s, start, start + k) == Depth(s[start..end], 0, k)
    decreases k
  {
    if k > 0 {
      DepthOfSpan(s, start, end, k - 1);
      SliceOfSlice(s, start, end, k - 1);
    }
  }

  lemma SliceOfSlice(s: string, start: nat, end: nat, n: nat)
    requires start + n <= end <= |s|
    ensures s[start..end][0..n] == s[start..start + n]
    ensures forall i | start <= i < end :: s[start..end][i - start] == s[i]
  {
  }

  lemma SpanBalances(s: string, start: nat, end: nat)
    requires Balances(s, start, end)
    ensures var p := s[start..end + 1];
            IsOpener(p[0]) && |p| > 1 && StaysOpen(p, |p| - 1) && Depth(p, 0, |p|) == 0
  {
    hide Depth;
    var p := s[start..end + 1];
    forall k | 0 < k <= |p| ensures Depth(p, 0, k) == Depth(s, start, start + k) {
      DepthOfSpan(s, start, end + 1, k);
    }
  }

  /**
    The scan is right about every pair exactly when the pairs it does not look at match: the span it
    finds is well nested if and only if each closer in it is of its opener's kind.
   */
  lemma FoundPayloadIsNestedIff(s: string, start: nat, end: nat)
    requires Balances(s, start, end)
    ensures WellNested(s[start..end + 1]) <==> KindsMatch(s[start..end + 1])
  {
    hide Depth, StackAt, ModeAt, KindsMatch, Nested;
    var p := s[start..end + 1];
    SpanBalances(s, start, end);
    KindsMatchIffTops(p);
    ClosersDecideFrom(p, 0);
    AtTheStart(p);
    EndsClosed(p);
  }

  lemma AtTheStart(p: string)
    ensures ModeAt(p, 0) == Outside && StackAt(p, 0) == "" && p[0..] == p
  {
    assert p[..0] == "";
  }

  lemma EndsClosed(p: string)
    requires |p| > 1 && StaysOpen(p, |p| - 1) && Depth(p, 0, |p|) == 0
    ensures ModeAt(p, |p|).Outside? && StackAt(p, |p|) == ""
  {
    hide Depth, StackAt, ModeAt;
    var k := |p| - 1;
    DepthStep(p, k);
    assert ClosesAt(p, k);
    ModeStep(p, k);
    StepOfStack(p, k);
    StackSize(p, k);
  }

  /** Kinds crossed inside the outermost pair are not noticed: the text is found, and is not nested. */
  lemma CrossedKindsAreFound()
    ensures Balances("{[}}", 0, 3) && "{[}}"[3] == CloserOf("{[}}"[0]) && "{[}}"[0..4] == "{[}}"
    ensures !WellNested("{[}}")
  {
    var s := "{[}}";
    assert s[0..0] == "";
    assert s[0..1] == "{" && s[0..2] == "{[" && s[0..3] == "{[}";
    ModeFromStep(s, 0, 0);
    ModeFromStep(s, 0, 1);
    ModeFromStep(s, 0, 2);
    assert Depth(s, 0, 1) == 1 && Depth(s, 0, 2) == 2 && Depth(s, 0, 3) == 1 && Depth(s, 0, 4) == 0;
    assert s[1..] == "[}}" && s[1..][1..] == "}}";
  }
}
