/**
  The byte scanner that every JSON repair in internal/agents/decode.go, the payload search in
  internal/agents/fence.go and the input amplifier in internal/discovery/amplify.go share: where a
  byte stands relative to string literals (section 7 of RFC 8259), and which containers are open.

  Text is a `string`, one char per byte. Every scanner compares bytes with ASCII constants only, so
  nothing here depends on the range of the other chars.
 */
module JsonLexer {

  // ---------- bytes ----------

  predicate IsSpace(c: char) {
    c == ' ' || c == '\t' || c == '\n' || c == '\r'
  }

  predicate IsOpener(c: char) {
    c == '{' || c == '['
  }

  predicate IsCloser(c: char) {
    c == '}' || c == ']'
  }

  function CloserOf(opener: char): char
    requires IsOpener(opener)
  {
    if opener == '{' then '}' else ']'
  }

  /** The text from its first significant byte on. */
  function SkipSpace(s: string): string {
    if s != "" && IsSpace(s[0]) then SkipSpace(s[1..]) else s
  }

  method SkipJsonSpace(s: string, from: nat) returns (i: nat)
    requires from <= |s|
    ensures from <= i <= |s| && s[i..] == SkipSpace(s[from..])
  {
    i := from;
    while i < |s| && IsSpace(s[i])
      invariant from <= i <= |s| && SkipSpace(s[i..]) == SkipSpace(s[from..])
    {
      assert s[i..][1..] == s[i + 1..];
      i := i + 1;
    }
  }

  // ---------- string literals ----------

  /** Outside every string, inside one, or just after a backslash inside one. */
  datatype Mode = Outside | Inside | Escaped

  function Next(m: Mode, c: char): Mode {
    match m
    case Outside => if c == '"' then Inside else Outside
    case Inside => if c == '\\' then Escaped else if c == '"' then Outside else Inside
    case Escaped => Inside
  }

  function Scan(m: Mode, s: string): Mode
    decreases |s|
  {
    if s == "" then m else Scan(Next(m, s[0]), s[1..])
  }

  /** The mode that the scanners' two flags stand for. */
  function ModeOf(inString: bool, escaped: bool): Mode {
    if !inString then Outside else if escaped then Escaped else Inside
  }

  /** Updates the escape state inside a string; `open` says whether the string is still open. */
  method ScanJsonString(c: char, escaped: bool) returns (open: bool, stillEscaped: bool)
    ensures ModeOf(open, stillEscaped) == Next(ModeOf(true, escaped), c)
    ensures !open ==> !stillEscaped
  {
    if escaped {
      return true, false;
    }
    if c == '\\' {
      return true, true;
    }
    return c != '"', false;
  }

  lemma {:induction false} ScanConcat(m: Mode, a: string, b: string)
    ensures Scan(m, a + b) == Scan(Scan(m, a), b)
    decreases |a|
  {
    if a == "" {
      assert a + b == b;
    } else {
      assert (a + b)[1..] == a[1..] + b;
      ScanConcat(Next(m, a[0]), a[1..], b);
    }
  }

  // ---------- open containers ----------

  /** The open containers are kept as the closers they wait for, the innermost last. */
  function Last(stack: string): char
    requires stack != ""
  {
    stack[|stack| - 1]
  }

  function Front(stack: string): string
    requires stack != ""
  {
    stack[..|stack| - 1]
  }

  function Opened(m: Mode, stack: string, c: char): string {
    if m.Outside? && IsOpener(c) then stack + [CloserOf(c)] else stack
  }

  ghost predicate AllClosers(stack: string) {
    forall c | c in stack :: IsCloser(c)
  }

  /**
    Every closer outside a string closes the innermost open container, and the text ends outside
    strings with nothing open.
   */
  predicate Nested(m: Mode, stack: string, s: string)
    decreases |s|
  {
    if s == "" then
      m.Outside? && stack == ""
    else if m.Outside? && IsCloser(s[0]) then
      stack != "" && Last(stack) == s[0] && Nested(Outside, Front(stack), s[1..])
    else
      Nested(Next(m, s[0]), Opened(m, stack, s[0]), s[1..])
  }

  predicate WellNested(s: string) {
    Nested(Outside, "", s)
  }

  /** The stack a well-nested text holds after its first bytes, when those bytes match. */
  function StackAfter(m: Mode, stack: string, s: string): (r: string)
    decreases |s|
  {
    if s == "" then
      stack
    else if m.Outside? && IsCloser(s[0]) then
      StackAfter(Outside, if stack == "" then "" else Front(stack), s[1..])
    else
      StackAfter(Next(m, s[0]), Opened(m, stack, s[0]), s[1..])
  }

  /** A well-nested text stays well nested from any point on, with what is open there. */
  lemma {:induction false} NestedSuffix(m: Mode, stack: string, a: string, b: string)
    requires Nested(m, stack, a + b)
    ensures Nested(Scan(m, a), StackAfter(m, stack, a), b)
    decreases |a|
  {
    if a == "" {
      assert a + b == b;
    } else {
      assert (a + b)[1..] == a[1..] + b;
      if m.Outside? && IsCloser(a[0]) {
        NestedSuffix(Outside, Front(stack), a[1..], b);
      } else {
        NestedSuffix(Next(m, a[0]), Opened(m, stack, a[0]), a[1..], b);
      }
    }
  }

  lemma {:induction false} StackAfterConcat(m: Mode, stack: string, a: string, b: string)
    ensures StackAfter(m, stack, a + b) == StackAfter(Scan(m, a), StackAfter(m, stack, a), b)
    decreases |a|
  {
    if a == "" {
      assert a + b == b;
    } else {
      assert (a + b)[1..] == a[1..] + b;
      if m.Outside? && IsCloser(a[0]) {
        StackAfterConcat(Outside, if stack == "" then "" else Front(stack), a[1..], b);
      } else {
        StackAfterConcat(Next(m, a[0]), Opened(m, stack, a[0]), a[1..], b);
      }
    }
  }

  // ---------- positions in a text ----------

  /** Mode and open containers before the byte at `k`. */
  function ModeAt(data: string, k: nat): Mode
    requires k <= |data|
  {
    Scan(Outside, data[..k])
  }

  function StackAt(data: string, k: nat): string
    requires k <= |data|
  {
    StackAfter(Outside, "", data[..k])
  }

  lemma StackStep(data: string, k: nat)
    requires k < |data| && WellNested(data)
    ensures ModeAt(data, k).Outside? && IsCloser(data[k]) ==>
              StackAt(data, k) != "" && Last(StackAt(data, k)) == data[k]
                && StackAt(data, k + 1) == Front(StackAt(data, k))
    ensures !(ModeAt(data, k).Outside? && IsCloser(data[k])) ==>
              StackAt(data, k + 1) == Opened(ModeAt(data, k), StackAt(data, k), data[k])
  {
    assert data == data[..k] + data[k..] && data[..k + 1] == data[..k] + [data[k]];
    NestedSuffix(Outside, "", data[..k], data[k..]);
    StackAfterConcat(Outside, "", data[..k], [data[k]]);
    assert [data[k]][1..] == "" && data[k..][0] == data[k];
  }

  lemma ModeStep(data: string, k: nat)
    requires k < |data|
    ensures ModeAt(data, k + 1) == Next(ModeAt(data, k), data[k])
  {
    assert data[..k + 1] == data[..k] + [data[k]];
    ScanConcat(Outside, data[..k], [data[k]]);
    assert [data[k]][1..] == "";
  }
}
