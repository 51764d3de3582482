/**
  RepairMissingClosers (internal/agents/decode.go): one greedy pass that inserts the closing braces
  and brackets a model left out. The pass is complete: whenever some insertion of closers outside
  strings makes a text well nested, this one does.
 */
module MissingClosers {
  import opened JsonLexer

  // ---------- the pass ----------

  /** How much of the stack stays once `c` has closed everything above its innermost match. */
  function KeptDepth(stack: string, c: char): (r: nat)
    ensures r <= |stack|
    ensures r > 0 ==> stack[r - 1] == c
    ensures forall j | r <= j < |stack| :: stack[j] != c
  {
    if stack == "" then 0 else if Last(stack) == c then |stack| else KeptDepth(Front(stack), c)
  }

  /** The closers that empty a stack, innermost first. */
  function Unwound(stack: string): (r: string)
    ensures |r| == |stack|
  {
    if stack == "" then "" else [Last(stack)] + Unwound(Front(stack))
  }

  function BelowMatch(stack: string, c: char): string {
    var keep := KeptDepth(stack, c);
    if keep > 0 then stack[..keep - 1] else ""
  }

  /** What the pass writes for one byte, and the stack it goes on with. */
  function Emitted(m: Mode, stack: string, c: char): string {
    if m.Outside? && IsCloser(c) then Unwound(stack[KeptDepth(stack, c)..]) + [c] else [c]
  }

  function StackNext(m: Mode, stack: string, c: char): string {
    if m.Outside? && IsCloser(c) then BelowMatch(stack, c) else Opened(m, stack, c)
  }

  /** What the pass writes for `s`, read in mode `m` with `stack` open. */
  function Repaired(m: Mode, stack: string, s: string): string
    decreases |s|
  {
    if s == "" then
      if m.Outside? then Unwound(stack) else ""
    else
      Emitted(m, stack, s[0]) + Repaired(Next(m, s[0]), StackNext(m, stack, s[0]), s[1..])
  }

  lemma {:induction false} UnwoundSplit(stack: string, k: nat)
    requires k < |stack|
    ensures Unwound(stack[k..]) == [Last(stack)] + Unwound(Front(stack)[k..])
  {
    assert Front(stack[k..]) == Front(stack)[k..];
  }

  lemma UnwoundNothing()
    ensures Unwound("") == ""
  {
  }

  lemma UnwoundTop(stack: string)
    requires stack != ""
    ensures Unwound(stack) == [Last(stack)] + Unwound(Front(stack))
  {
  }

  lemma MovesOver(out: string, c: char, rest: string)
    ensures out + ([c] + rest) == out + [c] + rest
  {
  }

  method CloseMismatched(prefix: string, open: string, c: char, before: bool)
    returns (out: string, stack: string, changed: bool)
    ensures out == prefix + Unwound(open[KeptDepth(open, c)..])
    ensures stack == BelowMatch(open, c)
    ensures changed == (before || KeptDepth(open, c) < |open|)
  {
    hide Unwound;
    out, stack, changed := prefix, open, before;
    UnwoundNothing();
    assert open[|open|..] == "";
    while |stack| > 0 && Last(stack) != c
      invariant |stack| <= |open| && stack == open[..|stack|]
      invariant KeptDepth(stack, c) == KeptDepth(open, c) <= |stack|
      invariant out + Unwound(stack[KeptDepth(open, c)..]) == prefix + Unwound(open[KeptDepth(open, c)..])
      invariant changed == (before || |stack| < |open|)
    {
      UnwoundSplit(stack, KeptDepth(open, c));
      MovesOver(out, Last(stack), Unwound(Front(stack)[KeptDepth(open, c)..]));
      out := out + [Last(stack)];
      stack := Front(stack);
      changed := true;
    }
    if |stack| > 0 {
      stack := Front(stack);
    }
  }

  method FinishClosers(text: string, stack: string, inString: bool, before: bool)
    returns (out: string, changed: bool)
    ensures out == text + if inString then "" else Unwound(stack)
    ensures changed == (before || (!inString && stack != ""))
  {
    hide Unwound;
    out, changed := text, before;
    UnwoundNothing();
    if !inString {
      var i := |stack|;
      assert stack[..i] == stack;
      while i > 0
        invariant 0 <= i <= |stack|
        invariant out + Unwound(stack[..i]) == text + Unwound(stack)
        invariant changed == (before || i < |stack|)
      {
        UnwoundTop(stack[..i]);
        assert Front(stack[..i]) == stack[..i - 1];
        MovesOver(out, stack[i - 1], Unwound(stack[..i - 1]));
        i := i - 1;
        out := out + [stack[i]];
        changed := true;
      }
    }
  }

  /** The pass writes what `Repaired` says, and reports a change exactly when it inserted something. */
  method RepairMissingClosers(text: string) returns (result: string, changed: bool)
    ensures result == Repaired(Outside, "", text)
    ensures changed <==> result != text
    ensures |text| <= |result|
  {
    hide Repaired;
    var out, stack := "", "";
    var inString, escaped := false, false;
    changed := false;
    var i := 0;
    while i < |text|
      invariant 0 <= i <= |text|
      invariant !inString ==> !escaped
      invariant out + Repaired(ModeOf(inString, escaped), stack, text[i..]) == Repaired(Outside, "", text)
      invariant |out| >= i && (changed <==> |out| > i)
      invariant !changed ==> out == text[..i]
    {
      var c := text[i];
      ghost var m, open, written := ModeOf(inString, escaped), stack, out;
      if inString {
        out := out + [c];
        inString, escaped := ScanJsonString(c, escaped);
      } else {
        if c == '"' {
          inString := true;
        } else if IsOpener(c) {
          stack := stack + [CloserOf(c)];
        } else if IsCloser(c) {
          out, stack, changed := CloseMismatched(out, stack, c, changed);
        }
        out := out + [c];
      }
      assert out == written + Emitted(m, open, c);
      assert stack == StackNext(m, open, c) && ModeOf(inString, escaped) == Next(m, c);
      RepairedStep(written, m, open, text, i);
      i := i + 1;
    }
    assert text[i..] == "" && text[..i] == text;
    RepairedAtEnd(ModeOf(inString, escaped), stack);
    out, changed := FinishClosers(out, stack, inString, changed);
    result := out;
  }

  lemma RepairedAtEnd(m: Mode, stack: string)
    ensures Repaired(m, stack, "") == if m.Outside? then Unwound(stack) else ""
  {
  }

  lemma RepairedUnfolds(m: Mode, stack: string, s: string)
    requires s != ""
    ensures Repaired(m, stack, s) == Emitted(m, stack, s[0])
            + Repaired(Next(m, s[0]), StackNext(m, stack, s[0]), s[1..])
  {
  }

  lemma RepairedStep(out: string, m: Mode, stack: string, text: string, i: nat)
    requires i < |text|
    ensures out + Repaired(m, stack, text[i..])
         == out + Emitted(m, stack, text[i]) + Repaired(Next(m, text[i]), StackNext(m, stack, text[i]), text[i + 1..])
    ensures text[..i + 1] == text[..i] + [text[i]]
  {
    hide Repaired, Emitted, StackNext, Next;
    var s := text[i..];
    assert s[0] == text[i] && s[1..] == text[i + 1..];
    var rest := Repaired(Next(m, text[i]), StackNext(m, stack, text[i]), text[i + 1..]);
    RepairedUnfolds(m, stack, s);
    assert out + (Emitted(m, stack, text[i]) + rest) == out + Emitted(m, stack, text[i]) + rest;
  }

  // ---------- what the pass may do: insert closers outside strings ----------

  /** `alt` is `s` with closers inserted at places outside its strings, and nothing else changed. */
  ghost predicate ClosersInserted(m: Mode, s: string, alt: string)
    decreases |alt|
  {
    if alt == "" then
      s == ""
    else
      || (s != "" && s[0] == alt[0] && ClosersInserted(Next(m, s[0]), s[1..], alt[1..]))
      || (m.Outside? && IsCloser(alt[0]) && ClosersInserted(m, s, alt[1..]))
  }

  lemma {:induction false} UnwoundInserts(stack: string, s: string, alt: string)
    requires AllClosers(stack) && ClosersInserted(Outside, s, alt)
    ensures ClosersInserted(Outside, s, Unwound(stack) + alt)
  {
    if stack == "" {
      assert Unwound(stack) + alt == alt;
    } else {
      assert Last(stack) in stack;
      assert forall c | c in Front(stack) :: c in stack;
      UnwoundInserts(Front(stack), s, alt);
      UnwoundStep(stack, alt);
      CloserInserted(s, Last(stack), Unwound(Front(stack)) + alt);
    }
  }

  lemma UnwoundStep(stack: string, tail: string)
    requires stack != ""
    ensures Unwound(stack) + tail == [Last(stack)] + (Unwound(Front(stack)) + tail)
  {
  }

  lemma CloserInserted(s: string, c: char, alt: string)
    requires IsCloser(c) && ClosersInserted(Outside, s, alt)
    ensures ClosersInserted(Outside, s, [c] + alt)
  {
    var more := [c] + alt;
    assert more[0] == c && more[1..] == alt;
  }

  lemma {:induction false} RepairInsertsClosers(m: Mode, stack: string, s: string)
    requires AllClosers(stack)
    ensures ClosersInserted(m, s, Repaired(m, stack, s))
    decreases |s|
  {
    if s == "" {
      if m.Outside? {
        UnwoundInserts(stack, "", "");
        assert Unwound(stack) + "" == Unwound(stack);
      }
    } else {
      var rest := Repaired(Next(m, s[0]), StackNext(m, stack, s[0]), s[1..]);
      StackNextKeeps(m, stack, s[0]);
      RepairInsertsClosers(Next(m, s[0]), StackNext(m, stack, s[0]), s[1..]);
      assert ([s[0]] + rest)[1..] == rest;
      if m.Outside? && IsCloser(s[0]) {
        UnwoundInserts(stack[KeptDepth(stack, s[0])..], s, [s[0]] + rest);
        RepairedAtCloser(stack, s);
      }
    }
  }

  lemma StackNextKeeps(m: Mode, stack: string, c: char)
    requires AllClosers(stack)
    ensures AllClosers(StackNext(m, stack, c))
  {
    forall x | x in StackNext(m, stack, c) ensures IsCloser(x) {
      if x !in stack {
        assert m.Outside? && IsOpener(c);
      }
    }
  }

  lemma RepairedAtCloser(stack: string, s: string)
    requires s != "" && IsCloser(s[0])
    ensures Repaired(Outside, stack, s)
         == Unwound(stack[KeptDepth(stack, s[0])..]) + ([s[0]] + Repaired(Outside, BelowMatch(stack, s[0]), s[1..]))
  {
  }

  // ---------- completeness ----------

  /** `a` is a subsequence of `b`. */
  ghost predicate Subsequence(a: string, b: string) {
    || a == ""
    || (b != "" && (|| (Last(a) == Last(b) && Subsequence(Front(a), Front(b)))
                    || Subsequence(a, Front(b))))
  }

  lemma {:induction false} SubsequenceFront(a: string, b: string)
    requires a != "" && Subsequence(a, b)
    ensures Subsequence(Front(a), b)
  {
    if Last(a) == Last(b) && Subsequence(Front(a), Front(b)) {
      if Front(a) != "" {
        SubsequenceFront(Front(a), Front(b));
      }
      SubsequenceGrows(Front(a), Front(b), Last(b));
    } else {
      SubsequenceFront(a, Front(b));
      SubsequenceGrows(Front(a), Front(b), Last(b));
    }
  }

  lemma {:induction false} SubsequenceGrows(a: string, b: string, c: char)
    requires Subsequence(a, b)
    ensures Subsequence(a, b + [c])
  {
    assert Front(b + [c]) == b;
  }

  lemma {:induction false} SubsequencePush(a: string, b: string, c: char)
    requires Subsequence(a, b)
    ensures Subsequence(a + [c], b + [c])
  {
    assert Front(a + [c]) == a && Front(b + [c]) == b;
  }

  /** Popping down to the innermost `c` keeps every subsequence that ends in `c`. */
  lemma {:induction false} SubsequencePop(a: string, b: string)
    requires a != "" && Subsequence(a, b)
    ensures KeptDepth(b, Last(a)) > 0
    ensures Subsequence(Front(a), BelowMatch(b, Last(a)))
  {
    if Last(b) == Last(a) {
      assert b[..|b| - 1] == Front(b);
      if !Subsequence(Front(a), Front(b)) {
        SubsequenceFront(a, Front(b));
      }
    } else {
      SubsequencePop(a, Front(b));
      assert BelowMatch(b, Last(a)) == BelowMatch(Front(b), Last(a));
    }
  }

  /** Closing the top of a stack first leaves the rest to be judged on what is below. */
  lemma {:induction false} NestedUnwound(stack: string, k: nat, s: string)
    requires k <= |stack| && AllClosers(stack)
    ensures Nested(Outside, stack, Unwound(stack[k..]) + s) <==> Nested(Outside, stack[..k], s)
    decreases |stack|
  {
    if k == |stack| {
      assert stack[..k] == stack && Unwound(stack[k..]) + s == s;
    } else {
      assert forall c | c in Front(stack) :: c in stack;
      assert Front(stack)[..k] == stack[..k];
      NestedUnwound(Front(stack), k, s);
      UnwoundSplit(stack, k);
      var t := Unwound(stack[k..]) + s;
      assert t[1..] == Unwound(Front(stack)[k..]) + s;
      assert Last(stack) in stack;
    }
  }

  lemma UnwoundNests(stack: string)
    requires AllClosers(stack)
    ensures Nested(Outside, stack, Unwound(stack))
  {
    assert stack[..0] == "" && stack[0..] == stack;
    NestedUnwound(stack, 0, "");
    assert Unwound(stack) + "" == Unwound(stack);
  }

  /** At a closer the repair goes on as well nested as below the partner, and fails without one. */
  lemma {:induction false} NestedAtCloser(stack: string, s: string)
    requires AllClosers(stack) && s != "" && IsCloser(s[0])
    ensures var below := BelowMatch(stack, s[0]);
            Nested(Outside, stack, Repaired(Outside, stack, s))
            <==> KeptDepth(stack, s[0]) > 0 && Nested(Outside, below, Repaired(Outside, below, s[1..]))
  {
    var keep := KeptDepth(stack, s[0]);
    var rest := [s[0]] + Repaired(Outside, BelowMatch(stack, s[0]), s[1..]);
    assert keep > 0 ==> Front(stack[..keep]) == BelowMatch(stack, s[0]);
    assert rest[1..] == Repaired(Outside, BelowMatch(stack, s[0]), s[1..]);
    NestedUnwound(stack, keep, rest);
    RepairedAtCloser(stack, s);
  }

  /**
    Any other way to insert closers keeps, at every byte, a stack that is a subsequence of the
    greedy one; so where it ends with nothing open and nothing mismatched, so does the greedy pass.
   */
  lemma {:induction false} GreedyClosingIsComplete(m: Mode, s: string, alt: string, other: string, stack: string)
    requires ClosersInserted(m, s, alt) && Nested(m, other, alt)
    requires Subsequence(other, stack) && AllClosers(stack)
    ensures Nested(m, stack, Repaired(m, stack, s))
    decreases |alt|
  {
    if alt == "" {
      UnwoundNests(stack);
    } else if s != "" && s[0] == alt[0] && ClosersInserted(Next(m, s[0]), s[1..], alt[1..]) {
      var c := s[0];
      if m.Outside? && IsCloser(c) {
        SubsequencePop(other, stack);
        StackNextKeeps(m, stack, c);
        GreedyClosingIsComplete(Outside, s[1..], alt[1..], Front(other), BelowMatch(stack, c));
        NestedAtCloser(stack, s);
      } else {
        if m.Outside? && IsOpener(c) {
          SubsequencePush(other, stack, CloserOf(c));
        }
        GreedyClosingIsComplete(Next(m, c), s[1..], alt[1..], Opened(m, other, c), Opened(m, stack, c));
      }
    } else {
      SubsequenceFront(other, stack);
      GreedyClosingIsComplete(m, s, alt[1..], Front(other), stack);
    }
  }

  /**
    The promise of the repair: its output is well nested exactly when some insertion of closers
    outside strings is.
   */
  lemma {:induction false} RepairWorksIffRepairable(text: string)
    ensures WellNested(Repaired(Outside, "", text)) <==>
            exists alt :: ClosersInserted(Outside, text, alt) && WellNested(alt)
  {
    RepairInsertsClosers(Outside, "", text);
    if alt :| ClosersInserted(Outside, text, alt) && WellNested(alt) {
      GreedyClosingIsComplete(Outside, text, alt, "", "");
    }
  }

  /**
    What a caller can check before the repair: the text ends outside strings, and each closer
    outside strings finds a partner on the greedy stack.
   */
  predicate NeverStray(m: Mode, stack: string, s: string)
    decreases |s|
  {
    if s == "" then
      m.Outside?
    else
      && (m.Outside? && IsCloser(s[0]) ==> KeptDepth(stack, s[0]) > 0)
      && NeverStray(Next(m, s[0]), StackNext(m, stack, s[0]), s[1..])
  }

  /** The repair is well nested exactly when the text ends outside strings and strays nowhere. */
  lemma {:induction false} RepairWorksIffNeverStray(m: Mode, stack: string, s: string)
    requires AllClosers(stack)
    ensures Nested(m, stack, Repaired(m, stack, s)) <==> NeverStray(m, stack, s)
    decreases |s|
  {
    if s == "" {
      UnwoundNests(stack);
    } else {
      StackNextKeeps(m, stack, s[0]);
      RepairWorksIffNeverStray(Next(m, s[0]), StackNext(m, stack, s[0]), s[1..]);
      if m.Outside? && IsCloser(s[0]) {
        NestedAtCloser(stack, s);
      } else {
        var t := Repaired(m, stack, s);
        assert t[0] == s[0] && t[1..] == Repaired(Next(m, s[0]), StackNext(m, stack, s[0]), s[1..]);
      }
    }
  }

  // ---------- what the output always satisfies ----------

  /**
    No closer meets an open container of the other kind, and nothing stays open unless the text
    ends inside a string. A closer with nothing open is let through.
   */
  predicate Matched(m: Mode, stack: string, s: string)
    decreases |s|
  {
    if s == "" then
      m.Outside? ==> stack == ""
    else if m.Outside? && IsCloser(s[0]) then
      && (stack == "" || Last(stack) == s[0])
      && Matched(Outside, if stack == "" then "" else Front(stack), s[1..])
    else
      Matched(Next(m, s[0]), Opened(m, stack, s[0]), s[1..])
  }

  lemma MatchedTop(stack: string, s: string)
    requires stack != "" && IsCloser(Last(stack)) && Matched(Outside, Front(stack), s)
    ensures Matched(Outside, stack, [Last(stack)] + s)
  {
    var t := [Last(stack)] + s;
    assert t[0] == Last(stack) && t[1..] == s;
  }

  lemma {:induction false} MatchedUnwound(stack: string, k: nat, s: string)
    requires k <= |stack| && AllClosers(stack) && Matched(Outside, stack[..k], s)
    ensures Matched(Outside, stack, Unwound(stack[k..]) + s)
    decreases |stack|
  {
    hide Matched, Unwound;
    if k == |stack| {
      assert stack[..k] == stack && Unwound(stack[k..]) + s == s;
    } else {
      assert forall c | c in Front(stack) :: c in stack;
      assert Front(stack)[..k] == stack[..k];
      MatchedUnwound(Front(stack), k, s);
      UnwoundSplit(stack, k);
      assert Last(stack) in stack;
      MatchedTop(stack, Unwound(Front(stack)[k..]) + s);
      assert Unwound(stack[k..]) + s == [Last(stack)] + (Unwound(Front(stack)[k..]) + s);
    }
  }

  lemma {:induction false} RepairedIsMatched(m: Mode, stack: string, s: string)
    requires AllClosers(stack)
    ensures Matched(m, stack, Repaired(m, stack, s))
    decreases |s|
  {
    if s == "" {
      if m.Outside? {
        MatchedUnwound(stack, 0, "");
        assert stack[0..] == stack && Unwound(stack) + "" == Unwound(stack);
      }
    } else {
      var rest := Repaired(Next(m, s[0]), StackNext(m, stack, s[0]), s[1..]);
      StackNextKeeps(m, stack, s[0]);
      RepairedIsMatched(Next(m, s[0]), StackNext(m, stack, s[0]), s[1..]);
      assert ([s[0]] + rest)[1..] == rest;
      if m.Outside? && IsCloser(s[0]) {
        var keep := KeptDepth(stack, s[0]);
        assert keep > 0 ==> Front(stack[..keep]) == BelowMatch(stack, s[0]);
        MatchedUnwound(stack, keep, [s[0]] + rest);
        RepairedAtCloser(stack, s);
      }
    }
  }

  lemma {:induction false} MatchedIsUntouched(m: Mode, stack: string, s: string)
    requires Matched(m, stack, s)
    ensures Repaired(m, stack, s) == s
    decreases |s|
  {
    hide Unwound, KeptDepth;
    UnwoundNothing();
    if s == "" {
    } else if m.Outside? && IsCloser(s[0]) {
      var keep := KeptDepth(stack, s[0]);
      assert keep == |stack|;
      assert stack[keep..] == "";
      MatchedIsUntouched(Outside, if stack == "" then "" else Front(stack), s[1..]);
    } else {
      MatchedIsUntouched(Next(m, s[0]), Opened(m, stack, s[0]), s[1..]);
    }
  }

  /** The repair leaves a text alone exactly when it is matched, and running it again changes nothing. */
  lemma {:induction false} RepairedIsAProjection(text: string)
    ensures Repaired(Outside, "", text) == text <==> Matched(Outside, "", text)
    ensures Repaired(Outside, "", Repaired(Outside, "", text)) == Repaired(Outside, "", text)
  {
    RepairedIsMatched(Outside, "", text);
    MatchedIsUntouched(Outside, "", Repaired(Outside, "", text));
    if Matched(Outside, "", text) {
      MatchedIsUntouched(Outside, "", text);
    }
  }

  /** A closer with nothing open passes through: the repair is matched, and not well nested. */
  lemma StrayCloserPasses()
    ensures Repaired(Outside, "", "}") == "}" && !WellNested("}") && !NeverStray(Outside, "", "}")
  {
    assert Matched(Outside, "", "}");
    MatchedIsUntouched(Outside, "", "}");
    RepairWorksIffNeverStray(Outside, "", "}");
  }
}
