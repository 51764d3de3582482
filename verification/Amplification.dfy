/**
  The input amplifier (internal/discovery/amplify.go): find the widest array of a document and
  repeat its elements in place until the document is large enough.
 */
module Amplification {
  import opened JsonLexer
  import Text

  // ---------- matching square brackets ----------

  predicate SquareAt(data: string, k: nat, c: char)
    requires k < |data|
  {
    data[k] == c && ModeAt(data, k).Outside?
  }

  /** Opening minus closing square brackets, outside strings, among the first `k` bytes. */
  function Level(data: string, k: nat): int
    requires k <= |data|
  {
    if k == 0 then 0
    else Level(data, k - 1) + (if SquareAt(data, k - 1, '[') then 1 else if SquareAt(data, k - 1, ']') then -1 else 0)
  }

  /** The bracket at `open` is closed by the one at `close`. */
  ghost predicate Matching(data: string, open: nat, close: nat) {
    && open < close < |data|
    && SquareAt(data, open, '[') && SquareAt(data, close, ']')
    && Level(data, close) == Level(data, open + 1)
    && forall k | open < k <= close :: Level(data, k) >= Level(data, open + 1)
  }

  // ---------- the scan ----------

  class JsonScanState {
    var inString: bool
    var escaped: bool

    ghost predicate Valid()
      reads this
    {
      !inString ==> !escaped
    }

    ghost function Mode(): Mode
      reads this
    {
      ModeOf(inString, escaped)
    }

    constructor ()
      ensures Valid() && Mode() == Outside
    {
      inString, escaped := false, false;
    }

    /** Consumes one byte; true when it belongs to a string literal. */
    method Advance(c: char) returns (literal: bool)
      requires Valid()
      modifies this
      ensures Valid() && Mode() == Next(old(Mode()), c)
      ensures literal <==> !old(Mode()).Outside? || c == '"'
    {
      if !inString {
        if c == '"' {
          inString := true;
          return true;
        }
        return false;
      }
      if escaped {
        escaped := false;
      } else if c == '\\' {
        escaped := true;
      } else if c == '"' {
        inString := false;
      }
      return true;
    }
  }

  datatype JsonSpan = JsonSpan(start: int, end: int)

  function Widest(a: JsonSpan, b: JsonSpan): JsonSpan {
    if b.end - b.start > a.end - a.start then b else a
  }

  /** Each bracket on the stack is still open before byte `i`. */
  ghost predicate StillOpen(data: string, stack: seq<nat>, i: nat)
    requires i <= |data|
  {
    && (forall t | 0 <= t < |stack| :: stack[t] < i && SquareAt(data, stack[t], '[')
          && Level(data, i) == Level(data, stack[t] + 1) + |stack| - 1 - t)
    && (forall t, k | 0 <= t < |stack| && stack[t] < k <= i :: Level(data, k) >= Level(data, stack[t] + 1))
  }

  /** The bracket at `p` was closed before byte `i`. */
  ghost predicate Closed(data: string, p: nat, i: nat)
    requires p < i <= |data|
  {
    exists k :: p < k <= i && Level(data, k) < Level(data, p + 1)
  }

  /** `stack` holds the brackets that may yet be matched, and no other can. */
  ghost predicate OpenBrackets(data: string, stack: seq<nat>, i: nat)
    requires i <= |data|
  {
    && StillOpen(data, stack, i)
    && forall p | 0 <= p < i && SquareAt(data, p, '[') && p !in stack :: Closed(data, p, i)
  }

  lemma ClosedStays(data: string, p: nat, i: nat)
    requires p < i < |data| && Closed(data, p, i)
    ensures Closed(data, p, i + 1)
  {
    var k :| p < k <= i && Level(data, k) < Level(data, p + 1);
    assert p < k <= i + 1;
  }

  lemma PushBracket(data: string, stack: seq<nat>, i: nat)
    requires i < |data| && OpenBrackets(data, stack, i) && SquareAt(data, i, '[')
    ensures OpenBrackets(data, stack + [i], i + 1)
  {
    hide Level;
    LevelStep(data, i);
    var more := stack + [i];
    forall p | 0 <= p < i + 1 && SquareAt(data, p, '[') && p !in more ensures Closed(data, p, i + 1) {
      assert p != i by { assert more[|stack|] == i; }
      assert p !in stack by { assert forall x | x in stack :: x in more; }
      ClosedStays(data, p, i);
    }
    assert forall t | 0 <= t < |stack| :: more[t] == stack[t];
  }

  lemma PopBracket(data: string, stack: seq<nat>, i: nat)
    requires i < |data| && OpenBrackets(data, stack, i) && SquareAt(data, i, ']')
    ensures OpenBrackets(data, if stack == [] then [] else stack[..|stack| - 1], i + 1)
  {
    hide Level;
    var rest := if stack == [] then [] else stack[..|stack| - 1];
    PopKeepsOpen(data, stack, i);
    forall p | 0 <= p < i + 1 && SquareAt(data, p, '[') && p !in rest ensures Closed(data, p, i + 1) {
      if p in stack {
        assert p == stack[|stack| - 1];
        TopCloses(data, stack, i, p);
      } else {
        ClosedStays(data, p, i);
      }
    }
  }

  lemma PopKeepsOpen(data: string, stack: seq<nat>, i: nat)
    requires i < |data| && StillOpen(data, stack, i) && SquareAt(data, i, ']')
    ensures StillOpen(data, if stack == [] then [] else stack[..|stack| - 1], i + 1)
  {
    hide Level;
    var rest := if stack == [] then [] else stack[..|stack| - 1];
    LevelStep(data, i);
    forall t, k | 0 <= t < |rest| && rest[t] < k <= i + 1 ensures Level(data, k) >= Level(data, rest[t] + 1) {
      assert rest[t] == stack[t];
    }
    forall t | 0 <= t < |rest|
      ensures rest[t] < i + 1 && SquareAt(data, rest[t], '[')
              && Level(data, i + 1) == Level(data, rest[t] + 1) + |rest| - 1 - t
    {
      assert rest[t] == stack[t];
    }
  }

  lemma TopCloses(data: string, stack: seq<nat>, i: nat, p: nat)
    requires i < |data| && StillOpen(data, stack, i) && SquareAt(data, i, ']')
    requires stack != [] && p == stack[|stack| - 1]
    ensures p < i + 1 && Closed(data, p, i + 1)
  {
    hide Level;
    LevelStep(data, i);
    assert Level(data, i + 1) < Level(data, p + 1);
  }

  lemma KeepBrackets(data: string, stack: seq<nat>, i: nat)
    requires i < |data| && OpenBrackets(data, stack, i) && !SquareAt(data, i, '[') && !SquareAt(data, i, ']')
    ensures OpenBrackets(data, stack, i + 1)
  {
    forall p | 0 <= p < i + 1 && SquareAt(data, p, '[') && p !in stack ensures Closed(data, p, i + 1) {
      ClosedStays(data, p, i);
    }
  }

  lemma MatchedByTop(data: string, stack: seq<nat>, i: nat, p: nat)
    requires i < |data| && OpenBrackets(data, stack, i) && SquareAt(data, i, ']')
    ensures Matching(data, p, i) <==> stack != [] && p == stack[|stack| - 1]
  {
    if Matching(data, p, i) {
      assert p in stack;
      var t :| 0 <= t < |stack| && stack[t] == p;
      assert Level(data, i) == Level(data, p + 1) + |stack| - 1 - t;
    }
  }

  /** The span is a matched pair, no pair closing before `i` is wider, and none as wide closes earlier. */
  ghost predicate WidestSoFar(data: string, best: JsonSpan, i: nat)
  {
    if best.start < 0 then
      best == JsonSpan(-1, -1) && forall p: nat, j: nat | j < i :: !Matching(data, p, j)
    else
      && 0 <= best.end < i && Matching(data, best.start, best.end)
      && forall p: nat, j: nat | j < i && Matching(data, p, j) ::
           j - p < best.end - best.start || (j - p == best.end - best.start && j >= best.end)
  }

  /** A closing bracket matches at most the top of the stack, so only that pair is new. */
  lemma WidestStep(data: string, stack: seq<nat>, best: JsonSpan, i: nat)
    requires i < |data| && OpenBrackets(data, stack, i) && SquareAt(data, i, ']') && WidestSoFar(data, best, i)
    ensures WidestSoFar(data, if stack == [] then best else Widest(best, JsonSpan(stack[|stack| - 1], i)), i + 1)
  {
    hide OpenBrackets, SquareAt, Level;
    forall p: nat ensures Matching(data, p, i) <==> stack != [] && p == stack[|stack| - 1] {
      MatchedByTop(data, stack, i, p);
    }
  }

  lemma NoBracketStep(data: string, stack: seq<nat>, best: JsonSpan, i: nat)
    requires i < |data| && OpenBrackets(data, stack, i) && WidestSoFar(data, best, i)
    requires !SquareAt(data, i, '[') && !SquareAt(data, i, ']')
    ensures OpenBrackets(data, stack, i + 1) && WidestSoFar(data, best, i + 1)
  {
    KeepBrackets(data, stack, i);
    assert forall p: nat :: !Matching(data, p, i);
  }

  lemma OpenerStep(data: string, stack: seq<nat>, best: JsonSpan, i: nat)
    requires i < |data| && OpenBrackets(data, stack, i) && WidestSoFar(data, best, i)
    requires SquareAt(data, i, '[')
    ensures OpenBrackets(data, stack + [i], i + 1) && WidestSoFar(data, best, i + 1)
  {
    PushBracket(data, stack, i);
    assert forall p: nat :: !Matching(data, p, i);
  }

  lemma CloserStep(data: string, stack: seq<nat>, best: JsonSpan, i: nat)
    requires i < |data| && OpenBrackets(data, stack, i) && WidestSoFar(data, best, i)
    requires SquareAt(data, i, ']')
    ensures OpenBrackets(data, if stack == [] then [] else stack[..|stack| - 1], i + 1)
    ensures WidestSoFar(data, if stack == [] then best else Widest(best, JsonSpan(stack[|stack| - 1], i)), i + 1)
  {
    PopBracket(data, stack, i);
    WidestStep(data, stack, best, i);
  }

  lemma NothingScanned(data: string)
    ensures OpenBrackets(data, [], 0) && WidestSoFar(data, JsonSpan(-1, -1), 0) && ModeAt(data, 0) == Outside
  {
    assert data[..0] == "";
  }

  lemma ScannedAll(data: string, best: JsonSpan)
    requires WidestSoFar(data, best, |data|)
    ensures if best.start < 0 then forall p: nat, j: nat :: !Matching(data, p, j) else 0 <= best.end
  {
    hide Level;
  }

  /** The widest matched pair of square brackets outside strings, the one closing first among equals. */
  method LargestJsonArray(data: string) returns (start: nat, end: nat, ok: bool)
    ensures ok ==> WidestSoFar(data, JsonSpan(start, end), |data|)
    ensures !ok ==> start == end == 0 && forall p: nat, j: nat :: !Matching(data, p, j)
  {
    hide OpenBrackets, Level, ModeAt, WidestSoFar, Matching;
    NothingScanned(data);
    var stack: seq<nat> := [];
    var best := JsonSpan(-1, -1);
    var state := new JsonScanState();
    for i := 0 to |data|
      invariant state.Valid() && state.Mode() == ModeAt(data, i)
      invariant OpenBrackets(data, stack, i)
      invariant WidestSoFar(data, best, i)
    {
      ModeStep(data, i);
      var literal := state.Advance(data[i]);
      if literal {
        NoBracketStep(data, stack, best, i);
        continue;
      }
      if data[i] == '[' {
        OpenerStep(data, stack, best, i);
        stack := stack + [i];
      } else if data[i] == ']' {
        CloserStep(data, stack, best, i);
        if |stack| == 0 {
          continue;
        }
        var open := stack[|stack| - 1];
        stack := stack[..|stack| - 1];
        best := Widest(best, JsonSpan(open, i));
      } else {
        NoBracketStep(data, stack, best, i);
      }
    }
    ScannedAll(data, best);
    if best.start < 0 {
      return 0, 0, false;
    }
    return best.start, best.end, true;
  }

  // ---------- the copies ----------

  const AMPLIFICATION_TARGET: nat := 16 * 1024 * 1024

  predicate IsAsciiSpace(c: char) {
    '\t' <= c <= '\r' || c == ' '
  }

  predicate Starts(s: string, a: char, b: char) {
    |s| >= 2 && s[0] == a && s[1] == b
  }

  /** How many bytes the white space rune at the start of `s` is encoded in; 0 when there is none. */
  function SpaceRune(s: string): (n: nat)
    ensures n <= |s|
  {
    if s == "" then 0
    else if IsAsciiSpace(s[0]) then 1
    else if Starts(s, '\U{c2}', '\U{85}') || Starts(s, '\U{c2}', '\U{a0}') then 2
    else if |s| < 3 then 0
    else if Starts(s, '\U{e1}', '\U{9a}') && s[2] == '\U{80}' then 3
    else if Starts(s, '\U{e2}', '\U{80}')
         && ('\U{80}' <= s[2] <= '\U{8a}' || s[2] == '\U{a8}' || s[2] == '\U{a9}' || s[2] == '\U{af}') then 3
    else if Starts(s, '\U{e2}', '\U{81}') && s[2] == '\U{9f}' then 3
    else if Starts(s, '\U{e3}', '\U{80}') && s[2] == '\U{80}' then 3
    else 0
  }

  /** bytes.TrimSpace leaves nothing: the bytes are the UTF-8 encoding of white space. */
  predicate AllBlank(s: string)
    decreases |s|
  {
    s == "" || (SpaceRune(s) > 0 && AllBlank(s[SpaceRune(s)..]))
  }

  /** The UTF-8 bytes of a character of the basic plane (section 3 of RFC 3629). */
  function Utf8(c: char): string
    requires (c as int) < 0x1_0000
  {
    var code := c as int;
    if code < 0x80 then [c]
    else if code < 0x800 then [Byte(0xc0 + code / 0x40), Byte(0x80 + code % 0x40)]
    else [Byte(0xe0 + code / 0x1000), Byte(0x80 + code / 0x40 % 0x40), Byte(0x80 + code % 0x40)]
  }

  function Byte(n: nat): char
    requires n < 0x100
  {
    n as char
  }

  predicate IsWhiteSpace(text: string) {
    forall c | c in text :: (c as int) < 0x1_0000 && Text.IsSpace(c)
  }

  function Encoded(text: string): string
    requires IsWhiteSpace(text)
  {
    if text == "" then ""
    else
      assert text[0] in text && forall c | c in text[1..] :: c in text;
      Utf8(text[0]) + Encoded(text[1..])
  }

  lemma SpaceIsRead(c: char, rest: string)
    requires (c as int) < 0x1_0000 && Text.IsSpace(c)
    ensures var s := Utf8(c) + rest; SpaceRune(s) == |Utf8(c)| > 0 && s[SpaceRune(s)..] == rest
  {
    var s := Utf8(c) + rest;
    assert s[..|Utf8(c)|] == Utf8(c);
  }

  lemma {:induction false} WhiteSpaceIsBlank(text: string)
    requires IsWhiteSpace(text)
    ensures AllBlank(Encoded(text))
  {
    hide Utf8, SpaceRune;
    if text != "" {
      assert text[0] in text && forall c | c in text[1..] :: c in text;
      SpaceIsRead(text[0], Encoded(text[1..]));
      WhiteSpaceIsBlank(text[1..]);
    }
  }

  lemma SpaceOfRune(s: string) returns (c: char)
    requires SpaceRune(s) > 0
    ensures (c as int) < 0x1_0000 && Text.IsSpace(c) && Utf8(c) == s[..SpaceRune(s)]
  {
    var n := SpaceRune(s);
    if n == 1 {
      c := s[0];
    } else if n == 2 {
      c := s[1];
    } else {
      c := SpaceOfThree(s);
    }
    assert |Utf8(c)| == n && forall i | 0 <= i < n :: Utf8(c)[i] == s[i];
  }

  lemma SpaceOfThree(s: string) returns (c: char)
    requires SpaceRune(s) == 3
    ensures (c as int) < 0x1_0000 && Text.IsSpace(c) && |Utf8(c)| == 3
    ensures forall i | 0 <= i < 3 :: Utf8(c)[i] == s[i]
  {
    var code := (s[0] as int - 0xe0) * 0x1000 + (s[1] as int - 0x80) * 0x40 + (s[2] as int - 0x80);
    c := code as char;
    assert code / 0x1000 == s[0] as int - 0xe0;
    assert code / 0x40 == (s[0] as int - 0xe0) * 0x40 + (s[1] as int - 0x80);
  }

  lemma {:induction false} BlankIsWhiteSpace(s: string) returns (text: string)
    requires AllBlank(s)
    ensures IsWhiteSpace(text) && Encoded(text) == s
    decreases |s|
  {
    hide Utf8, SpaceRune, Text.IsSpace;
    if s == "" {
      text := "";
    } else {
      var n := SpaceRune(s);
      var c := SpaceOfRune(s);
      var rest := BlankIsWhiteSpace(s[n..]);
      text := [c] + rest;
      assert text[1..] == rest && s == s[..n] + s[n..];
    }
  }

  /** A text is blank exactly when it is the UTF-8 encoding of white space. */
  lemma AllBlankIff(s: string)
    ensures AllBlank(s) <==> exists text :: IsWhiteSpace(text) && Encoded(text) == s
  {
    if AllBlank(s) {
      var text := BlankIsWhiteSpace(s);
    }
    if text :| IsWhiteSpace(text) && Encoded(text) == s {
      WhiteSpaceIsBlank(text);
    }
  }

  /** A separating comma and one more element list, `n` times. */
  function Copies(body: string, n: nat): string {
    if n == 0 then "" else Copies(body, n - 1) + "," + body
  }

  lemma {:induction false} CopiesLength(body: string, n: nat)
    ensures |Copies(body, n)| == n * (|body| + 1)
  {
    if n > 0 {
      CopiesLength(body, n - 1);
    }
  }

  lemma NoCopies(body: string)
    ensures Copies(body, 0) == ""
  {
  }

  lemma OneMoreCopy(head: string, body: string, n: nat)
    ensures head + Copies(body, n) + "," + body == head + Copies(body, n + 1)
    ensures |head + Copies(body, n + 1)| == |head| + (n + 1) * (|body| + 1)
    ensures |head + Copies(body, n)| == |head| + n * (|body| + 1)
  {
    CopiesLength(body, n);
    CopiesLength(body, n + 1);
  }

  /** The document with the elements of one array repeated just often enough to reach the target. */
  ghost predicate Amplified(stdin: string, start: nat, end: nat, copies: nat, result: string)
    requires start < end <= |stdin|
  {
    var body := stdin[start + 1..end];
    && result == stdin[..end] + Copies(body, copies) + stdin[end..]
    && end + copies * (|body| + 1) >= AMPLIFICATION_TARGET
    && (copies > 0 ==> end + (copies - 1) * (|body| + 1) < AMPLIFICATION_TARGET)
  }

  method AmplifyJsonArray(stdin: string) returns (result: string, ok: bool)
    ensures ok ==> exists start: nat, end: nat, copies: nat ::
              && WidestSoFar(stdin, JsonSpan(start, end), |stdin|)
              && Amplified(stdin, start, end, copies, result)
              && !AllBlank(stdin[start + 1..end])
    ensures !ok ==> forall start: nat, end: nat ::
              Matching(stdin, start, end) && WidestSoFar(stdin, JsonSpan(start, end), |stdin|) ==>
                AllBlank(stdin[start + 1..end])
    ensures ok && WellNested(stdin) ==> WellNested(result)
  {
    hide Level, ModeAt, Nested, Copies, AllBlank;
    var start, end, found := LargestJsonArray(stdin);
    if !found {
      return "", false;
    }
    assert Matching(stdin, start, end);
    var body := stdin[start + 1..end];
    if AllBlank(body) {
      return "", false;
    }
    NoCopies(body);
    var amplified := stdin[..end];
    ghost var copies := 0;
    while |amplified| < AMPLIFICATION_TARGET
      invariant amplified == stdin[..end] + Copies(body, copies)
      invariant |amplified| == end + copies * (|body| + 1)
      invariant copies > 0 ==> end + (copies - 1) * (|body| + 1) < AMPLIFICATION_TARGET
      decreases AMPLIFICATION_TARGET - |amplified|
    {
      OneMoreCopy(stdin[..end], body, copies);
      amplified := amplified + [','];
      amplified := amplified + body;
      copies := copies + 1;
    }
    result := amplified + stdin[end..];
    ok := true;
    assert Amplified(stdin, start, end, copies, result);
    if WellNested(stdin) {
      CopiesKeepNesting(stdin, start, end, copies);
    }
  }

  // ---------- nesting survives any number of copies ----------

  /** What follows a prefix may be exchanged for anything that closes what the prefix left open. */
  lemma {:induction false} NestedOtherTail(m: Mode, stack: string, a: string, b: string, c: string)
    requires Nested(m, stack, a + b)
    requires Nested(Scan(m, a), StackAfter(m, stack, a), c)
    ensures Nested(m, stack, a + c)
    decreases |a|
  {
    if a == "" {
      assert a + c == c;
    } else {
      assert (a + b)[1..] == a[1..] + b && (a + c)[1..] == a[1..] + c;
      if m.Outside? && IsCloser(a[0]) {
        NestedOtherTail(Outside, Front(stack), a[1..], b, c);
      } else {
        NestedOtherTail(Next(m, a[0]), Opened(m, stack, a[0]), a[1..], b, c);
      }
    }
  }

  function Squares(stack: string): nat {
    if stack == "" then 0 else (if Last(stack) == ']' then 1 else 0) + Squares(Front(stack))
  }

  /** Inside a matched pair the stack keeps what it held after the opening bracket; `above` is the rest. */
  lemma {:induction false} StackInsidePair(data: string, open: nat, close: nat, k: nat) returns (above: string)
    requires WellNested(data) && Matching(data, open, close) && open < k <= close
    ensures StackAt(data, k) == StackAt(data, open + 1) + above
    ensures Squares(above) == Level(data, k) - Level(data, open + 1)
    decreases k
  {
    hide Level, StackAt, ModeAt, Squares, WellNested;
    NoSquares();
    if k == open + 1 {
      above := "";
    } else {
      var before := StackInsidePair(data, open, close, k - 1);
      StackStep(data, k - 1);
      LevelStep(data, k - 1);
      var c := data[k - 1];
      if ModeAt(data, k - 1).Outside? && IsCloser(c) {
        NotTheOpener(data, open, close, k - 1, before);
        above := Front(before);
        SquaresTop(before);
      } else if ModeAt(data, k - 1).Outside? && IsOpener(c) {
        above := before + [CloserOf(c)];
        assert Front(above) == before;
        SquaresTop(above);
      } else {
        above := before;
      }
    }
  }

  /** A closer inside the pair cannot close the pair's own opener. */
  lemma NotTheOpener(data: string, open: nat, close: nat, k: nat, above: string)
    requires WellNested(data) && Matching(data, open, close) && open < k < close
    requires ModeAt(data, k).Outside? && IsCloser(data[k])
    requires StackAt(data, k) == StackAt(data, open + 1) + above
    requires Squares(above) == Level(data, k) - Level(data, open + 1)
    ensures above != ""
  {
    hide Level, StackAt, ModeAt, WellNested;
    OpenOnTop(data, open);
    StackStep(data, k);
    LevelStep(data, k);
    assert Level(data, k + 1) >= Level(data, open + 1);
  }

  lemma NoSquares()
    ensures Squares("") == 0
  {
  }

  lemma SquaresTop(stack: string)
    requires stack != ""
    ensures Squares(stack) == (if Last(stack) == ']' then 1 else 0) + Squares(Front(stack))
  {
  }

  lemma LevelStep(data: string, k: nat)
    requires k < |data|
    ensures Level(data, k + 1) == Level(data, k)
            + (if SquareAt(data, k, '[') then 1 else if SquareAt(data, k, ']') then -1 else 0)
  {
  }

  lemma OpenOnTop(data: string, open: nat)
    requires open < |data| && WellNested(data) && SquareAt(data, open, '[')
    ensures StackAt(data, open + 1) != "" && Last(StackAt(data, open + 1)) == ']'
  {
    StackStep(data, open);
  }

  /** The elements of an array leave the nesting where they found it. */
  lemma {:induction false} BodyIsBalanced(data: string, open: nat, close: nat)
    requires WellNested(data) && Matching(data, open, close)
    ensures var body, stack := data[open + 1..close], StackAt(data, open + 1);
            Scan(Outside, body).Outside? && StackAfter(Outside, stack, body) == stack
  {
    var body, head := data[open + 1..close], data[..open + 1];
    assert data[..close] == head + body;
    ModeStep(data, open);
    ScanConcat(Outside, head, body);
    StackAfterConcat(Outside, "", head, body);
    var above := StackInsidePair(data, open, close, close);
    StackStep(data, close);
    if above != "" {
      assert false;
    }
  }

  lemma CommaNests(stack: string, rest: string)
    requires Nested(Outside, stack, rest)
    ensures Nested(Outside, stack, "," + rest)
  {
    var more := "," + rest;
    assert more[0] == ',' && more[1..] == rest;
  }

  lemma {:induction false} CopiesNest(stack: string, body: string, n: nat, tail: string)
    requires Scan(Outside, body).Outside? && StackAfter(Outside, stack, body) == stack
    requires Nested(Outside, stack, body + tail)
    ensures Nested(Outside, stack, Copies(body, n) + tail)
  {
    hide Nested, StackAfter, Scan;
    NestedSuffix(Outside, stack, body, tail);
    if n == 0 {
      assert Copies(body, n) + tail == tail;
    } else {
      var more := "," + body + tail;
      CommaNests(stack, body + tail);
      assert more == "," + (body + tail);
      NestedOtherTail(Outside, stack, body, tail, more);
      CopiesNest(stack, body, n - 1, more);
      assert Copies(body, n) + tail == Copies(body, n - 1) + more;
    }
  }

  lemma {:induction false} ExchangeTail(head: string, body: string, tail: string, other: string, stack: string)
    requires WellNested(head + (body + tail)) && Scan(Outside, head).Outside? && StackAfter(Outside, "", head) == stack
    requires Scan(Outside, body).Outside? && StackAfter(Outside, stack, body) == stack
    requires Nested(Outside, stack, other)
    ensures WellNested(head + (body + other))
  {
    NestedSuffix(Outside, "", head, body + tail);
    NestedOtherTail(Outside, stack, body, tail, other);
    NestedOtherTail(Outside, "", head, body + tail, body + other);
  }

  /** A well-nested document stays well nested for any number of copies of any array's elements. */
  lemma {:induction false} CopiesKeepNesting(data: string, open: nat, close: nat, n: nat)
    requires WellNested(data) && Matching(data, open, close)
    ensures WellNested(data[..close] + Copies(data[open + 1..close], n) + data[close..])
  {
    hide Nested, StackAfter, Scan, Level, Copies;
    var head, body, tail, stack := data[..open + 1], data[open + 1..close], data[close..], StackAt(data, open + 1);
    BodyIsBalanced(data, open, close);
    ModeStep(data, open);
    assert data == head + (body + tail);
    NestedSuffix(Outside, "", head, body + tail);
    CopiesNest(stack, body, n, tail);
    var copied := Copies(body, n) + tail;
    ExchangeTail(head, body, tail, copied, stack);
    assert data[..close] + Copies(body, n) + tail == head + (body + copied);
  }
}
