/**
  balancedJSON (internal/agents/fence.go): the JSON payload inside a model's prose. The scan counts
  depth only; at the end it compares the kind of the outermost closer alone.
 */
module PayloadSearch {
  import opened JsonLexer

  /** Openers minus closers outside strings in the bytes from `start` up to `k`. */
  function Depth(s: string, start: nat, k: nat): int
    requires start <= k <= |s|
    decreases k
  {
    if k == start then 0
    else Depth(s, start, k - 1) + Weight(ModeFrom(s, start, k - 1), s[k - 1])
  }

  function Weight(m: Mode, c: char): int {
    if m.Outside? && IsOpener(c) then 1 else if m.Outside? && IsCloser(c) then -1 else 0
  }

  function ModeFrom(s: string, start: nat, k: nat): Mode
    requires start <= k <= |s|
  {
    Scan(Outside, s[start..k])
  }

  lemma ModeFromStep(s: string, start: nat, k: nat)
    requires start <= k < |s|
    ensures ModeFrom(s, start, k + 1) == Next(ModeFrom(s, start, k), s[k])
  {
    assert s[start..k + 1] == s[start..k] + [s[k]];
    ScanConcat(Outside, s[start..k], [s[k]]);
    assert [s[k]][1..] == "";
  }

  ghost predicate FirstOpener(s: string, start: nat) {
    start < |s| && IsOpener(s[start]) && forall k | 0 <= k < start :: !IsOpener(s[k])
  }

  /** The container opened by the first opener of `s` comes back to depth zero at `end`, not before. */
  ghost predicate Balances(s: string, start: nat, end: nat) {
    && FirstOpener(s, start) && start < end < |s|
    && Depth(s, start, end + 1) == 0
    && forall k | start < k <= end :: Depth(s, start, k) > 0
  }

  /**
    A payload comes back exactly when the first opener is balanced by a closer of its own kind, and
    it is the text between them.
   */
  method BalancedJson(s: string) returns (payload: string, ok: bool)
    ensures ok <==> exists start: nat, end: nat :: Balances(s, start, end) && s[end] == CloserOf(s[start])
    ensures ok ==> exists start: nat, end: nat :: Balances(s, start, end) && payload == s[start..end + 1]
    ensures !ok ==> payload == ""
  {
    var start, depth := -1, 0;
    var open := '{';
    var inString, escaped := false, false;
    for i := 0 to |s|
      invariant !inString ==> !escaped
      invariant depth == 0 ==> start == -1 && !inString && forall k | 0 <= k < i :: !IsOpener(s[k])
      invariant depth != 0 ==> 0 <= start < i && FirstOpener(s, start) && open == s[start]
      invariant depth != 0 ==> ModeOf(inString, escaped) == ModeFrom(s, start, i) && depth == Depth(s, start, i)
      invariant depth != 0 ==> forall k | start < k <= i :: Depth(s, start, k) > 0
      invariant depth >= 0
    {
      var c := s[i];
      if depth != 0 {
        ModeFromStep(s, start, i);
      }
      if inString {
        inString, escaped := ScanJsonString(c, escaped);
        continue;
      }
      if c == '"' {
        if depth > 0 {
          inString := true;
        }
      } else if IsOpener(c) {
        if depth == 0 {
          start := i;
          open := c;
          assert s[i..i] == "" && ModeFrom(s, i, i) == Outside;
          ModeFromStep(s, i, i);
          assert Depth(s, i, i + 1) == Depth(s, i, i) + 1;
        }
        depth := depth + 1;
      } else if IsCloser(c) {
        if depth == 0 {
          continue;
        }
        depth := depth - 1;
        if depth == 0 {
          assert Balances(s, start, i);
          if c != CloserOf(open) {
            NoOtherBalance(s, start, i);
            return "", false;
          }
          return s[start..i + 1], true;
        }
      }
    }
    if b: nat, e: nat :| Balances(s, b, e) {
      assert false;
    }
    return "", false;
  }

  lemma NoOtherBalance(s: string, start: nat, end: nat)
    requires Balances(s, start, end)
    ensures forall b: nat, e: nat :: Balances(s, b, e) ==> b == start && e == end
  {
    forall b: nat, e: nat | Balances(s, b, e) ensures b == start && e == end {
      if b != start {
        assert false;
      }
      if e != end {
        assert false;
      }
    }
  }

  // ---------- a well-nested payload inside prose ----------

  /** One container and nothing else: open from its first byte to its last. */
  ghost predicate SingleContainer(payload: string) {
    && WellNested(payload) && payload != "" && IsOpener(payload[0])
    && forall k | 0 < k < |payload| :: StackAt(payload, k) != ""
  }

  lemma {:induction false} DepthIsStackSize(prose: string, payload: string, rest: string, k: nat)
    requires WellNested(payload) && k <= |payload|
    ensures var s := prose + payload + rest; Depth(s, |prose|, |prose| + k) == |StackAt(payload, k)|
    ensures var s := prose + payload + rest; ModeFrom(s, |prose|, |prose| + k) == ModeAt(payload, k)
    decreases k
  {
    var s := prose + payload + rest;
    assert s[|prose|..|prose| + k] == payload[..k];
    if k > 0 {
      DepthIsStackSize(prose, payload, rest, k - 1);
      StackStep(payload, k - 1);
      assert s[|prose| + k - 1] == payload[k - 1];
    }
  }

  /**
    The unwrapping promise: prose without braces or brackets around one well-nested container is
    peeled off, whatever follows the container and whatever quotes stand in the prose.
   */
  lemma {:induction false} PayloadIsFoundInProse(prose: string, payload: string, rest: string)
    requires SingleContainer(payload) && forall c | c in prose :: !IsOpener(c)
    ensures var s := prose + payload + rest; var end := |prose| + |payload| - 1;
            && Balances(s, |prose|, end) && s[end] == CloserOf(s[|prose|])
            && s[|prose|..end + 1] == payload
            && forall b: nat, e: nat :: Balances(s, b, e) ==> b == |prose| && e == end
  {
    var s, start, n := prose + payload + rest, |prose|, |payload|;
    var end := start + n - 1;
    assert payload[..n] == payload && payload[..1] == [payload[0]] && payload[1..1] == "";
    assert payload + "" == payload;
    NestedSuffix(Outside, "", payload, "");
    forall k | start < k <= end ensures Depth(s, start, k) > 0 {
      DepthIsStackSize(prose, payload, rest, k - start);
    }
    DepthIsStackSize(prose, payload, rest, n);
    assert forall k | 0 <= k < start :: s[k] in prose;
    RootCloses(payload);
    assert s[start] == payload[0] && s[end] == payload[n - 1];
    assert Balances(s, start, end);
    NoOtherBalance(s, start, end);
    assert s[start..end + 1] == payload;
  }

  /** The last byte of a container is the closer its first byte asks for. */
  lemma {:induction false} RootCloses(payload: string)
    requires SingleContainer(payload)
    ensures |payload| > 1 && payload[|payload| - 1] == CloserOf(payload[0])
  {
    var n := |payload|;
    StackStep(payload, 0);
    assert payload[..0] == "" && payload[..n] == payload && payload + "" == payload;
    assert WellNested(payload + "");
    NestedSuffix(Outside, "", payload, "");
    assert StackAt(payload, n) == "";
    BottomStays(payload, n - 1);
    StackStep(payload, n - 1);
  }

  lemma {:induction false} BottomStays(payload: string, k: nat)
    requires SingleContainer(payload) && 0 < k < |payload|
    ensures StackAt(payload, k)[0] == CloserOf(payload[0])
    decreases k
  {
    StackStep(payload, k - 1);
    assert payload[..0] == "";
    if k > 1 {
      BottomStays(payload, k - 1);
    }
  }
}
