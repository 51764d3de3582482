/**
  Trailing commas, unterminated strings and the list of structural repair candidates
  (internal/agents/decode.go). The main result: cut a well-nested payload anywhere, and one of the
  candidates is well nested again and extends what was left.
 */
module Truncation {
  import opened JsonLexer
  import opened MissingClosers

  // ---------- trailing commas ----------

  /** Whether a comma followed by `rest` stands before a closer. */
  predicate TrailingComma(rest: string) {
    var r := SkipSpace(rest);
    r != "" && IsCloser(r[0])
  }

  predicate Dropped(m: Mode, s: string)
    requires s != ""
  {
    m.Outside? && s[0] == ',' && TrailingComma(s[1..])
  }

  function WithoutTrailingCommas(m: Mode, s: string): string
    decreases |s|
  {
    if s == "" then ""
    else (if Dropped(m, s) then "" else [s[0]]) + WithoutTrailingCommas(Next(m, s[0]), s[1..])
  }

  method IsTrailingComma(text: string, i: nat) returns (trailing: bool)
    requires i < |text|
    ensures trailing <==> TrailingComma(text[i + 1..])
  {
    var j := SkipJsonSpace(text, i + 1);
    trailing := j < |text| && IsCloser(text[j]);
  }

  method RepairCommonMalformations(text: string) returns (result: string)
    ensures result == WithoutTrailingCommas(Outside, text)
  {
    var out := "";
    var inString, escaped := false, false;
    for i := 0 to |text|
      invariant !inString ==> !escaped
      invariant out + WithoutTrailingCommas(ModeOf(inString, escaped), text[i..])
                == WithoutTrailingCommas(Outside, text)
    {
      var c := text[i];
      CommaStep(out, ModeOf(inString, escaped), text, i);
      if inString {
        out := out + [c];
        inString, escaped := ScanJsonString(c, escaped);
        continue;
      }
      if c == '"' {
        inString := true;
      } else if c == ',' {
        var trailing := IsTrailingComma(text, i);
        if trailing {
          continue;
        }
      }
      out := out + [c];
    }
    result := out;
  }

  lemma CommaStep(out: string, m: Mode, text: string, i: nat)
    requires i < |text|
    ensures out + WithoutTrailingCommas(m, text[i..])
         == (if m.Outside? && text[i] == ',' && TrailingComma(text[i + 1..]) then out else out + [text[i]])
            + WithoutTrailingCommas(Next(m, text[i]), text[i + 1..])
  {
    assert text[i..][0] == text[i] && text[i..][1..] == text[i + 1..];
  }

  /** Removing trailing commas neither breaks nor repairs nesting. */
  lemma {:induction false} CommasDoNotNest(m: Mode, stack: string, s: string)
    ensures Nested(m, stack, WithoutTrailingCommas(m, s)) <==> Nested(m, stack, s)
    decreases |s|
  {
    if s != "" {
      var rest := WithoutTrailingCommas(Next(m, s[0]), s[1..]);
      if Dropped(m, s) {
        assert WithoutTrailingCommas(m, s) == rest;
        CommasDoNotNest(m, stack, s[1..]);
      } else {
        var t := WithoutTrailingCommas(m, s);
        assert t[0] == s[0] && t[1..] == rest;
        if m.Outside? && IsCloser(s[0]) {
          if stack != "" {
            CommasDoNotNest(Outside, Front(stack), s[1..]);
          }
        } else {
          CommasDoNotNest(Next(m, s[0]), Opened(m, stack, s[0]), s[1..]);
        }
      }
    }
  }

  /** Somewhere outside strings, a comma stands before a closer. */
  predicate HasTrailingComma(m: Mode, s: string)
    decreases |s|
  {
    s != "" && (Dropped(m, s) || HasTrailingComma(Next(m, s[0]), s[1..]))
  }

  /** Somewhere outside strings, a comma stands directly before a trailing comma. */
  predicate HasStackedCommas(m: Mode, s: string)
    decreases |s|
  {
    s != "" && (|| (m.Outside? && s[0] == ',' && BeforeTrailingComma(s[1..]))
                || HasStackedCommas(Next(m, s[0]), s[1..]))
  }

  predicate BeforeTrailingComma(rest: string) {
    var r := SkipSpace(rest);
    r != "" && r[0] == ',' && TrailingComma(r[1..])
  }

  lemma {:induction false} UntouchedWithoutTrailingComma(m: Mode, s: string)
    ensures WithoutTrailingCommas(m, s) == s <==> !HasTrailingComma(m, s)
    ensures |WithoutTrailingCommas(m, s)| <= |s|
    decreases |s|
  {
    if s != "" {
      UntouchedWithoutTrailingComma(Next(m, s[0]), s[1..]);
      assert s == [s[0]] + s[1..];
      if !Dropped(m, s) {
        assert WithoutTrailingCommas(m, s)[1..] == WithoutTrailingCommas(Next(m, s[0]), s[1..]);
      }
    }
  }

  /** A closer follows in the output where one follows in the input, or where trailing commas led to one. */
  lemma {:induction false} CloserAfterPass(s: string)
    ensures TrailingComma(WithoutTrailingCommas(Outside, s)) <==> TrailingComma(s) || BeforeTrailingComma(s)
    decreases |s|
  {
    if s != "" {
      var t := WithoutTrailingCommas(Outside, s);
      var rest := WithoutTrailingCommas(Next(Outside, s[0]), s[1..]);
      if Dropped(Outside, s) {
        assert t == rest;
        CloserAfterPass(s[1..]);
      } else {
        assert t[0] == s[0] && t[1..] == rest;
        if IsSpace(s[0]) {
          CloserAfterPass(s[1..]);
        }
      }
    }
  }

  lemma {:induction false} TrailingCommaAfterPass(m: Mode, s: string)
    ensures HasTrailingComma(m, WithoutTrailingCommas(m, s)) <==> HasStackedCommas(m, s)
    decreases |s|
  {
    if s != "" {
      var t := WithoutTrailingCommas(m, s);
      var rest := WithoutTrailingCommas(Next(m, s[0]), s[1..]);
      TrailingCommaAfterPass(Next(m, s[0]), s[1..]);
      if Dropped(m, s) {
        assert t == rest;
      } else {
        assert t[0] == s[0] && t[1..] == rest;
        if m.Outside? && s[0] == ',' {
          CloserAfterPass(s[1..]);
        }
      }
    }
  }

  /** One pass is enough exactly when no comma outside strings stands directly before a trailing comma. */
  lemma {:induction false} OnePassIsEnoughIff(text: string)
    ensures var once := WithoutTrailingCommas(Outside, text);
            WithoutTrailingCommas(Outside, once) == once <==> !HasStackedCommas(Outside, text)
  {
    TrailingCommaAfterPass(Outside, text);
    UntouchedWithoutTrailingComma(Outside, WithoutTrailingCommas(Outside, text));
  }

  /** So the pass is not idempotent: `[1,,]` becomes `[1,]`, which becomes `[1]`. */
  lemma {:induction false} TwoPassesForStackedCommas()
    ensures HasStackedCommas(Outside, "[1,,]")
    ensures WithoutTrailingCommas(Outside, "[1,,]") == "[1,]"
    ensures WithoutTrailingCommas(Outside, "[1,]") == "[1]"
  {
    Pass("[1,,]"); Pass("1,,]"); Pass(",,]"); Pass(",]"); Pass("]");
    Pass("[1,]"); Pass("1,]");
  }

  lemma Pass(s: string)
    requires s != "" && s[0] != '"'
    ensures WithoutTrailingCommas(Outside, s)
         == (if Dropped(Outside, s) then "" else [s[0]]) + WithoutTrailingCommas(Outside, s[1..])
    ensures HasStackedCommas(Outside, s)
            <==> (s[0] == ',' && BeforeTrailingComma(s[1..])) || HasStackedCommas(Outside, s[1..])
    ensures !IsSpace(s[0]) ==> SkipSpace(s) == s
  {
  }

  // ---------- a string cut off at the end ----------

  /** The text with its open string closed, after dropping a backslash the cut left dangling. */
  function Terminated(text: string): string {
    match Scan(Outside, text)
    case Outside => text
    case Inside => text + "\""
    case Escaped => (if text == "" then "" else text[..|text| - 1]) + "\""
  }

  method TerminateOpenString(text: string) returns (result: string, ok: bool)
    ensures ok <==> !Scan(Outside, text).Outside?
    ensures result == Terminated(text)
  {
    var inString, escaped := false, false;
    for i := 0 to |text|
      invariant !inString ==> !escaped
      invariant Scan(ModeOf(inString, escaped), text[i..]) == Scan(Outside, text)
    {
      var c := text[i];
      assert text[i..][0] == c && text[i..][1..] == text[i + 1..];
      if inString {
        inString, escaped := ScanJsonString(c, escaped);
        continue;
      }
      if c == '"' {
        inString, escaped := true, false;
      }
    }
    if !inString {
      return text, false;
    }
    var kept := text;
    if escaped {
      kept := if text == "" then "" else text[..|text| - 1];
    }
    return kept + "\"", true;
  }

  // ---------- the candidates ----------

  type Repair = string
  const REPAIR_ADDED_CLOSERS: Repair := "added missing closing brackets"
  const REPAIR_DROPPED_STRAY_QUOTE: Repair := "dropped a stray trailing quote"
  const REPAIR_TERMINATED_STRING: Repair := "closed a string cut off mid-value (truncated output)"
  const REPAIR_JOIN := ", then "

  datatype RepairAttempt = RepairAttempt(text: string, repair: Repair)

  function JoinRepairs(first: Repair, then_: Repair): Repair {
    if first == "" then then_ else first + REPAIR_JOIN + then_
  }

  /** The index of the last double quote, or -1. */
  function LastQuote(text: string): (r: int)
    ensures -1 <= r < |text|
    ensures r >= 0 ==> text[r] == '"'
    ensures forall j | r < j < |text| :: text[j] != '"'
  {
    if text == "" then -1
    else if text[|text| - 1] == '"' then |text| - 1
    else LastQuote(text[..|text| - 1])
  }

  function WithoutByte(text: string, i: int): string
    requires 0 <= i < |text|
  {
    text[..i] + text[i + 1..]
  }

  /** Closer completion, then the two readings of a quote that opens a string running to the end. */
  function Candidates(text: string): seq<RepairAttempt> {
    [RepairAttempt(Repaired(Outside, "", text), REPAIR_ADDED_CLOSERS)]
    + (if LastQuote(text) < 0 then []
       else [RepairAttempt(Repaired(Outside, "", WithoutByte(text, LastQuote(text))), REPAIR_DROPPED_STRAY_QUOTE)])
    + (if Scan(Outside, text).Outside? then []
       else [RepairAttempt(Repaired(Outside, "", Terminated(text)), REPAIR_TERMINATED_STRING)])
  }

  method RepairCandidates(text: string) returns (candidates: seq<RepairAttempt>)
    ensures candidates == Candidates(text)
  {
    hide Repaired, Scan, Terminated, WithoutByte;
    var first, _ := RepairMissingClosers(text);
    candidates := [RepairAttempt(first, REPAIR_ADDED_CLOSERS)];
    var last := LastQuote(text);
    if last >= 0 {
      var again, _ := RepairMissingClosers(WithoutByte(text, last));
      candidates := candidates + [RepairAttempt(again, REPAIR_DROPPED_STRAY_QUOTE)];
    }
    var terminated, ok := TerminateOpenString(text);
    if ok {
      var closed, _ := RepairMissingClosers(terminated);
      candidates := candidates + [RepairAttempt(closed, REPAIR_TERMINATED_STRING)];
    }
  }

  /** Each candidate, cleaned of trailing commas and named after the rewrite the text already carries. */
  method StructuralRepairs(text: string, prior: Repair) returns (attempts: seq<RepairAttempt>)
    ensures |attempts| == |Candidates(text)|
    ensures forall i | 0 <= i < |attempts| ::
              && attempts[i].text == WithoutTrailingCommas(Outside, Candidates(text)[i].text)
              && attempts[i].repair == JoinRepairs(prior, Candidates(text)[i].repair)
              && attempts[i].repair
                 == if prior == "" then Candidates(text)[i].repair else prior + ", then " + Candidates(text)[i].repair
  {
    attempts := RepairCandidates(text);
    for i := 0 to |attempts|
      invariant |attempts| == |Candidates(text)|
      invariant forall j | 0 <= j < i ::
                  && attempts[j].text == WithoutTrailingCommas(Outside, Candidates(text)[j].text)
                  && attempts[j].repair == JoinRepairs(prior, Candidates(text)[j].repair)
      invariant forall j | i <= j < |attempts| :: attempts[j] == Candidates(text)[j]
    {
      var cleaned := RepairCommonMalformations(attempts[i].text);
      attempts := attempts[i := RepairAttempt(cleaned, JoinRepairs(prior, attempts[i].repair))];
    }
  }

  // ---------- any cut of a well-nested payload ----------

  lemma {:induction false} CutOutsideStrings(m: Mode, stack: string, a: string, b: string)
    requires Nested(m, stack, a + b) && AllClosers(stack) && Scan(m, a).Outside?
    ensures a <= Repaired(m, stack, a)
    ensures Nested(m, stack, Repaired(m, stack, a))
    decreases |a|
  {
    if a == "" {
      UnwoundNests(stack);
    } else {
      assert (a + b)[1..] == a[1..] + b;
      StackNextKeeps(m, stack, a[0]);
      if m.Outside? && IsCloser(a[0]) {
        assert KeptDepth(stack, a[0]) == |stack| && stack[|stack|..] == "";
      }
      CutOutsideStrings(Next(m, a[0]), StackNext(m, stack, a[0]), a[1..], b);
      var t := Repaired(m, stack, a);
      assert t[0] == a[0] && t[1..] == Repaired(Next(m, a[0]), StackNext(m, stack, a[0]), a[1..]);
    }
  }

  /** A byte whose closer, if it is one, meets its partner on top is written as it is. */
  lemma NothingInserted(m: Mode, stack: string, s: string)
    requires s != "" && (m.Outside? && IsCloser(s[0]) ==> KeptDepth(stack, s[0]) == |stack|)
    ensures Repaired(m, stack, s) == [s[0]] + Repaired(Next(m, s[0]), StackNext(m, stack, s[0]), s[1..])
  {
    assert stack[|stack|..] == "";
  }

  lemma QuoteEndsString(stack: string)
    requires AllClosers(stack)
    ensures Nested(Inside, stack, Repaired(Inside, stack, "\""))
  {
    var quote := "\"";
    assert quote[1..] == "";
    UnwoundNests(stack);
    assert Repaired(Inside, stack, quote)[1..] == Repaired(Outside, stack, "");
  }

  lemma {:induction false} CutInsideString(m: Mode, stack: string, a: string, b: string)
    requires Nested(m, stack, a + b) && AllClosers(stack) && Scan(m, a).Inside?
    ensures a <= Repaired(m, stack, a + "\"")
    ensures Nested(m, stack, Repaired(m, stack, a + "\""))
    decreases |a|
  {
    hide Repaired, Emitted;
    if a == "" {
      assert a + "\"" == "\"";
      QuoteEndsString(stack);
    } else {
      assert (a + b)[1..] == a[1..] + b && (a + "\"")[1..] == a[1..] + "\"";
      StackNextKeeps(m, stack, a[0]);
      if m.Outside? && IsCloser(a[0]) {
        assert KeptDepth(stack, a[0]) == |stack| && stack[|stack|..] == "";
      }
      CutInsideString(Next(m, a[0]), StackNext(m, stack, a[0]), a[1..], b);
      NothingInserted(m, stack, a + "\"");
      var t := Repaired(m, stack, a + "\"");
      assert t[0] == a[0] && t[1..] == Repaired(Next(m, a[0]), StackNext(m, stack, a[0]), a[1..] + "\"");
    }
  }

  /** A cut that ends on a backslash has the text before the backslash inside the same string. */
  lemma {:induction false} CutAfterBackslash(a: string)
    requires Scan(Outside, a).Escaped?
    ensures a != "" && Scan(Outside, a[..|a| - 1]).Inside? && a[|a| - 1] == '\\'
  {
    if a == "" {
      assert false;
    }
    var cut := a[..|a| - 1];
    assert a == cut + [a[|a| - 1]];
    ScanConcat(Outside, cut, [a[|a| - 1]]);
  }

  /**
    Cut a well-nested payload anywhere. If the cut falls between tokens the first candidate, and
    if it falls inside a string the last one, keeps all that was left (except a backslash the cut
    left dangling) and is well nested, also after trailing commas are removed.
   */
  lemma {:induction false} AnyCutIsRepairable(payload: string, cut: nat)
    requires WellNested(payload) && cut <= |payload|
    ensures var left := payload[..cut]; var candidates := Candidates(left);
            var chosen := if Scan(Outside, left).Outside? then candidates[0] else candidates[|candidates| - 1];
            && chosen.repair == (if Scan(Outside, left).Outside? then "added missing closing brackets"
               else "closed a string cut off mid-value (truncated output)")
            && (if Scan(Outside, left).Escaped? then cut > 0 && payload[cut - 1] == '\\'
               && payload[..cut - 1] <= chosen.text
                else left <= chosen.text)
            && WellNested(chosen.text)
            && WellNested(WithoutTrailingCommas(Outside, chosen.text))
  {
    var left := payload[..cut];
    assert payload == left + payload[cut..];
    match Scan(Outside, left) {
      case Outside =>
        CutOutsideStrings(Outside, "", left, payload[cut..]);
        CommasDoNotNest(Outside, "", Repaired(Outside, "", left));
      case Inside =>
        CutInsideString(Outside, "", left, payload[cut..]);
        CommasDoNotNest(Outside, "", Repaired(Outside, "", left + "\""));
      case Escaped =>
        CutAfterBackslash(left);
        var before := payload[..cut - 1];
        assert left[..|left| - 1] == before && payload == before + payload[cut - 1..];
        CutInsideString(Outside, "", before, payload[cut - 1..]);
        CommasDoNotNest(Outside, "", Repaired(Outside, "", before + "\""));
    }
  }
}
