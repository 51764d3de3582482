/**
  EscapeRawControlChars (internal/agents/decode.go): raw control bytes inside strings become the
  escapes JSON requires. The rewrite keeps every string boundary and every reading.
 */
module ControlChars {
  import opened JsonLexer

  predicate IsControl(c: char) {
    c < ' '
  }

  function HexDigit(n: nat): (c: char)
    requires n < 16
    ensures IsHex(c) && HexValue(c) == n
  {
    "0123456789abcdef"[n]
  }

  predicate IsHex(c: char) {
    '0' <= c <= '9' || 'a' <= c <= 'f' || 'A' <= c <= 'F'
  }

  function HexValue(c: char): nat
    requires IsHex(c)
  {
    if c <= '9' then c as int - '0' as int
    else if c <= 'F' then c as int - 'A' as int + 10
    else c as int - 'a' as int + 10
  }

  function ControlEscape(c: char): (r: string)
    requires IsControl(c)
    ensures forall x | x in r :: !IsControl(x)
  {
    if c == '\n' then "\\n"
    else if c == '\r' then "\\r"
    else if c == '\t' then "\\t"
    else
      var code := c as int;
      "\\u00" + [HexDigit(code / 16), HexDigit(code % 16)]
  }

  method JsonControlEscape(c: char) returns (escape: string, ok: bool)
    ensures ok <==> IsControl(c)
    ensures ok ==> escape == ControlEscape(c)
  {
    match c
    case '\n' => return "\\n", true;
    case '\r' => return "\\r", true;
    case '\t' => return "\\t", true;
    case _ =>
      if c < ' ' {
        var code := c as int;
        return "\\u00" + [HexDigit(code / 16), HexDigit(code % 16)], true;
      }
      return "", false;
  }

  function ControlStep(m: Mode, c: char): string {
    if m.Inside? && IsControl(c) then ControlEscape(c) else [c]
  }

  function ControlsEscaped(m: Mode, s: string): string
    decreases |s|
  {
    if s == "" then "" else ControlStep(m, s[0]) + ControlsEscaped(Next(m, s[0]), s[1..])
  }

  lemma ControlsEscapedStep(out: string, m: Mode, text: string, i: nat)
    requires i < |text|
    ensures out + ControlsEscaped(m, text[i..])
         == out + ControlStep(m, text[i]) + ControlsEscaped(Next(m, text[i]), text[i + 1..])
    ensures text[..i + 1] == text[..i] + [text[i]]
  {
    hide ControlStep;
    var s := text[i..];
    assert s[0] == text[i] && s[1..] == text[i + 1..];
    var rest := ControlsEscaped(Next(m, text[i]), text[i + 1..]);
    assert ControlsEscaped(m, s) == ControlStep(m, text[i]) + rest;
    assert out + (ControlStep(m, text[i]) + rest) == out + ControlStep(m, text[i]) + rest;
  }

  method EscapeRawControlChars(text: string) returns (result: string, changed: bool)
    ensures result == ControlsEscaped(Outside, text)
    ensures changed <==> result != text
  {
    var out := "";
    var inString, escaped := false, false;
    changed := false;
    for i := 0 to |text|
      invariant !inString ==> !escaped
      invariant out + ControlsEscaped(ModeOf(inString, escaped), text[i..]) == ControlsEscaped(Outside, text)
      invariant |out| >= i && (changed <==> |out| > i)
      invariant !changed ==> out == text[..i]
    {
      var c := text[i];
      ControlsEscapedStep(out, ModeOf(inString, escaped), text, i);
      if !inString {
        if c == '"' {
          inString, escaped := true, false;
        }
        out := out + [c];
        continue;
      }
      if escaped {
        escaped := false;
        out := out + [c];
        continue;
      }
      if c == '\\' {
        escaped := true;
        out := out + [c];
        continue;
      }
      var replacement, ok := JsonControlEscape(c);
      if ok {
        out := out + replacement;
        changed := true;
        continue;
      }
      if c == '"' {
        inString := false;
      }
      out := out + [c];
    }
    assert text[|text|..] == "" && text[..|text|] == text;
    ControlsEscapedLength(Outside, text);
    result := out;
  }

  lemma {:induction false} ControlsEscapedLength(m: Mode, s: string)
    ensures |ControlsEscaped(m, s)| >= |s|
    decreases |s|
  {
    if s != "" {
      ControlsEscapedLength(Next(m, s[0]), s[1..]);
    }
  }

  lemma {:induction false} ControlsEscapedConcat(m: Mode, a: string, b: string)
    ensures ControlsEscaped(m, a + b) == ControlsEscaped(m, a) + ControlsEscaped(Scan(m, a), b)
    decreases |a|
  {
    if a == "" {
      assert a + b == b;
    } else {
      assert (a + b)[1..] == a[1..] + b;
      ControlsEscapedConcat(Next(m, a[0]), a[1..], b);
    }
  }

  lemma {:induction false} NoControlsUntouched(m: Mode, s: string)
    requires forall c | c in s :: !IsControl(c)
    ensures ControlsEscaped(m, s) == s
    decreases |s|
  {
    if s != "" {
      assert s[0] in s && forall c | c in s[1..] :: c in s;
      NoControlsUntouched(Next(m, s[0]), s[1..]);
    }
  }

  lemma {:induction false} EscapeStaysInside(c: char)
    requires IsControl(c)
    ensures Scan(Inside, ControlEscape(c)) == Inside
  {
    var e := ControlEscape(c);
    PlainBytesStayInside(e[2..]);
    assert e[1..][1..] == e[2..] && e[1..][0] == e[1];
  }

  lemma {:induction false} PlainBytesStayInside(s: string)
    requires forall c | c in s :: c != '"' && c != '\\'
    ensures Scan(Inside, s) == Inside
  {
    if s != "" {
      assert s[0] in s && forall c | c in s[1..] :: c in s;
      PlainBytesStayInside(s[1..]);
    }
  }

  /**
    Every string opens and closes at the same bytes as before: whatever prefix of the input is
    read, its rewritten form is a prefix of the output and leaves a reader in the same place.
   */
  lemma {:induction false} ControlEscapesKeepBoundaries(text: string, k: nat)
    requires k <= |text|
    ensures ControlsEscaped(Outside, text[..k]) <= ControlsEscaped(Outside, text)
    ensures Scan(Outside, ControlsEscaped(Outside, text[..k])) == Scan(Outside, text[..k])
  {
    assert text == text[..k] + text[k..];
    ControlsEscapedConcat(Outside, text[..k], text[k..]);
    ControlsEscapedScan(Outside, text[..k]);
  }

  lemma {:induction false} ControlsEscapedScan(m: Mode, s: string)
    ensures Scan(m, ControlsEscaped(m, s)) == Scan(m, s)
    decreases |s|
  {
    if s != "" {
      var step, rest := ControlStep(m, s[0]), ControlsEscaped(Next(m, s[0]), s[1..]);
      ScanConcat(m, step, rest);
      if m.Inside? && IsControl(s[0]) {
        EscapeStaysInside(s[0]);
      } else {
        assert [s[0]][1..] == "";
      }
      ControlsEscapedScan(Next(m, s[0]), s[1..]);
    }
  }

  /** Escaping twice is escaping once. */
  lemma {:induction false} ControlEscapesAreIdempotent(m: Mode, s: string)
    ensures ControlsEscaped(m, ControlsEscaped(m, s)) == ControlsEscaped(m, s)
    decreases |s|
  {
    if s != "" {
      var step, rest := ControlStep(m, s[0]), ControlsEscaped(Next(m, s[0]), s[1..]);
      ControlEscapesAreIdempotent(Next(m, s[0]), s[1..]);
      ControlsEscapedConcat(m, step, rest);
      if m.Inside? && IsControl(s[0]) {
        EscapeStaysInside(s[0]);
        NoControlsUntouched(m, step);
      } else {
        assert [s[0]][1..] == "";
        assert ControlsEscaped(m, step) == step;
      }
    }
  }

  /** A raw control byte inside a string, in any position. */
  predicate HasRawControl(m: Mode, s: string)
    decreases |s|
  {
    s != "" && ((!m.Outside? && IsControl(s[0])) || HasRawControl(Next(m, s[0]), s[1..]))
  }

  /** A raw control byte directly after a backslash that starts an escape. */
  predicate HasEscapedControl(m: Mode, s: string)
    decreases |s|
  {
    s != "" && ((m.Escaped? && IsControl(s[0])) || HasEscapedControl(Next(m, s[0]), s[1..]))
  }

  lemma {:induction false} HasRawControlConcat(m: Mode, a: string, b: string)
    requires forall c | c in a :: !IsControl(c)
    ensures HasRawControl(m, a + b) <==> HasRawControl(Scan(m, a), b)
    decreases |a|
  {
    if a == "" {
      assert a + b == b;
    } else {
      assert a[0] in a && forall c | c in a[1..] :: c in a;
      assert (a + b)[1..] == a[1..] + b;
      HasRawControlConcat(Next(m, a[0]), a[1..], b);
    }
  }

  /** The output holds no raw control byte in a string, unless the input has one right after a backslash. */
  lemma {:induction false} ControlsGoneIff(m: Mode, s: string)
    ensures HasRawControl(m, ControlsEscaped(m, s)) <==> HasEscapedControl(m, s)
    decreases |s|
  {
    if s != "" {
      var step, rest := ControlStep(m, s[0]), ControlsEscaped(Next(m, s[0]), s[1..]);
      ControlsGoneIff(Next(m, s[0]), s[1..]);
      if m.Inside? && IsControl(s[0]) {
        EscapeStaysInside(s[0]);
        HasRawControlConcat(m, step, rest);
      } else {
        assert (step + rest)[0] == s[0] && (step + rest)[1..] == rest;
      }
    }
  }

  /** A newline behind a backslash stays: the text of a quote, a backslash, a newline and a quote. */
  lemma ControlBehindBackslashStays()
    ensures HasEscapedControl(Outside, "\"\\\n\"")
    ensures ControlsEscaped(Outside, "\"\\\n\"") == "\"\\\n\""
    ensures HasRawControl(Outside, ControlsEscaped(Outside, "\"\\\n\""))
  {
    var s := "\"\\\n\"";
    assert s[1..] == "\\\n\"" && s[1..][1..] == "\n\"" && s[1..][1..][1..] == "\"" && s[1..][1..][1..][1..] == "";
    ControlsGoneIff(Outside, s);
  }

  // ---------- what a text reads as ----------

  /**
    What a lenient reader makes of a text: bytes outside strings as they are, the code of every
    character of a string, and bytes that follow a backslash without forming an escape.
   */
  datatype Reading = Syntax(c: char) | Content(code: nat) | Stray(c: char)

  predicate HexRun(n: nat, s: string)
  {
    n == 0 || (s != "" && IsHex(s[0]) && HexRun(n - 1, s[1..]))
  }

  lemma {:induction false} HexRunIndexes(n: nat, s: string)
    requires HexRun(n, s)
    ensures |s| >= n && forall i | 0 <= i < n :: IsHex(s[i])
  {
    if n > 0 {
      HexRunIndexes(n - 1, s[1..]);
      assert forall i | 1 <= i < n :: s[i] == s[1..][i - 1];
    }
  }

  function HexNumber(s: string): nat
    requires HexRun(4, s)
  {
    HexRunIndexes(4, s);
    4096 * HexValue(s[0]) + 256 * HexValue(s[1]) + 16 * HexValue(s[2]) + HexValue(s[3])
  }

  predicate IsShortEscape(c: char) {
    c == '"' || c == '\\' || c == '/' || c == 'b' || c == 'f' || c == 'n' || c == 'r' || c == 't'
  }

  function ShortEscapeCode(c: char): nat
    requires IsShortEscape(c)
  {
    match c
    case 'b' => 8
    case 'f' => 12
    case 'n' => 10
    case 'r' => 13
    case 't' => 9
    case _ => c as int
  }

  function ReadAs(inString: bool, s: string): seq<Reading>
    decreases |s|
  {
    if s == "" then []
    else if !inString then [Syntax(s[0])] + ReadAs(s[0] == '"', s[1..])
    else if s[0] == '\\' then
      if |s| == 1 then [Stray('\\')]
      else if s[1] == 'u' && HexRun(4, s[2..]) then
        HexRunIndexes(4, s[2..]);
        [Content(HexNumber(s[2..]))] + ReadAs(true, s[6..])
      else if IsShortEscape(s[1]) then [Content(ShortEscapeCode(s[1]))] + ReadAs(true, s[2..])
      else [Stray(s[1])] + ReadAs(true, s[2..])
    else if s[0] == '"' then [Syntax('"')] + ReadAs(false, s[1..])
    else [Content(s[0] as int)] + ReadAs(true, s[1..])
  }

  function Contents(s: string): seq<Reading> {
    if s == "" then [] else [Content(s[0] as int)] + Contents(s[1..])
  }

  /** A string without escapes reads as the codes of its characters, and the text behind it is read on. */
  lemma {:induction false} PlainStringReads(s: string, rest: string)
    requires '"' !in s && '\\' !in s
    ensures ReadAs(true, s + "\"" + rest) == Contents(s) + [Syntax('"')] + ReadAs(false, rest)
    decreases |s|
  {
    var text := s + "\"" + rest;
    if s == "" {
      assert text[0] == '"' && text[1..] == rest;
    } else {
      assert s[0] in s && text[0] == s[0] && text[1..] == s[1..] + "\"" + rest;
      PlainStringReads(s[1..], rest);
    }
  }

  /** The eight short escapes read as the codes RFC 8259 gives them, and any other letter but u as stray. */
  lemma ShortEscapesRead(c: char, rest: string)
    requires c != 'u'
    ensures ReadAs(true, ['\\', c] + rest)
         == [match c
             case 'n' => Content(10)
             case 't' => Content(9)
             case 'r' => Content(13)
             case 'b' => Content(8)
             case 'f' => Content(12)
             case '"' => Content(34)
             case '\\' => Content(92)
             case '/' => Content(47)
             case _ => Stray(c)]
            + ReadAs(true, rest)
  {
    var text := ['\\', c] + rest;
    assert text[0] == '\\' && text[1] == c && text[2..] == rest;
  }

  lemma {:induction false} HexRunSurvives(n: nat, s: string)
    ensures HexRun(n, ControlsEscaped(Inside, s)) <==> HexRun(n, s)
  {
    if n > 0 && s != "" {
      var t := ControlsEscaped(Inside, s);
      if IsHex(s[0]) {
        assert t[0] == s[0] && t[1..] == ControlsEscaped(Inside, s[1..]);
        HexRunSurvives(n - 1, s[1..]);
      }
    }
  }

  lemma {:induction false} TwoBytesPass(s: string)
    requires |s| >= 2 && s[0] == '\\'
    ensures ControlsEscaped(Inside, s) == s[..2] + ControlsEscaped(Inside, s[2..])
  {
    assert s[1..][1..] == s[2..];
    assert ControlsEscaped(Inside, s) == [s[0]] + ControlsEscaped(Escaped, s[1..]);
    assert ControlsEscaped(Escaped, s[1..]) == [s[1]] + ControlsEscaped(Inside, s[2..]);
  }

  lemma HexBytePasses(s: string)
    requires s != "" && IsHex(s[0])
    ensures ControlsEscaped(Inside, s) == [s[0]] + ControlsEscaped(Inside, s[1..])
  {
  }

  lemma HeadOfSlice(n: nat, s: string, rest: string)
    requires 0 < n <= |s|
    ensures s[1..][n - 1..] == s[n..]
    ensures [s[0]] + (s[1..][..n - 1] + rest) == s[..n] + rest
  {
    assert s[..n] == [s[0]] + s[1..][..n - 1];
  }

  lemma {:induction false} HexBytesPass(n: nat, s: string)
    requires HexRun(n, s)
    ensures n <= |s| && ControlsEscaped(Inside, s) == s[..n] + ControlsEscaped(Inside, s[n..])
  {
    if n > 0 {
      HexBytesPass(n - 1, s[1..]);
      HexBytePasses(s);
      HeadOfSlice(n, s, ControlsEscaped(Inside, s[n..]));
    } else {
      assert s[0..] == s;
    }
  }

  lemma {:induction false} ControlEscapeReadsBack(c: char, rest: string)
    requires IsControl(c)
    ensures ReadAs(true, ControlEscape(c) + rest) == [Content(c as int)] + ReadAs(true, rest)
  {
    var e := ControlEscape(c);
    var t := e + rest;
    if |e| == 2 {
      assert t[0] == '\\' && t[1] == e[1] && t[2..] == rest;
    } else {
      assert t[0] == '\\' && t[1] == 'u' && t[6..] == rest;
      assert t[2..] == e[2..] + rest;
      FourDigits(c, rest);
    }
  }

  /** The four digits of a long escape spell its character. */
  lemma FourDigits(c: char, rest: string)
    requires IsControl(c) && |ControlEscape(c)| == 6
    ensures var d := ControlEscape(c)[2..] + rest; HexRun(4, d) && HexNumber(d) == c as int
  {
    var e := ControlEscape(c);
    var d := e[2..] + rest;
    assert d[0] == e[2] == '0' && d[1] == e[3] == '0' && d[2] == e[4] && d[3] == e[5];
    FourHexDigits(d);
  }

  lemma FourHexDigits(d: string)
    requires |d| >= 4 && IsHex(d[0]) && IsHex(d[1]) && IsHex(d[2]) && IsHex(d[3])
    ensures HexRun(4, d)
  {
    assert d[1..][0] == d[1] && d[2..][0] == d[2] && d[3..][0] == d[3];
    assert d[1..][1..] == d[2..] && d[2..][1..] == d[3..] && d[3..][1..] == d[4..];
    assert HexRun(0, d[4..]);
    assert HexRun(1, d[3..]);
    assert HexRun(2, d[2..]);
    assert HexRun(3, d[1..]);
  }

  lemma UnicodeEscapePasses(s: string)
    requires |s| >= 2 && s[0] == '\\' && s[1] == 'u' && HexRun(4, s[2..])
    ensures |s| >= 6
    ensures ReadAs(true, ControlsEscaped(Inside, s))
            == [Content(HexNumber(s[2..]))] + ReadAs(true, ControlsEscaped(Inside, s[6..]))
  {
    hide ControlsEscaped;
    var t, u := ControlsEscaped(Inside, s), ControlsEscaped(Inside, s[2..]);
    TwoBytesPass(s);
    assert t[0] == s[0] && t[1] == s[1] && t[2..] == u;
    HexRunSurvives(4, s[2..]);
    HexBytesPass(4, s[2..]);
    HexRunIndexes(4, s[2..]);
    assert s[2..][4..] == s[6..];
    assert u[4..] == ControlsEscaped(Inside, s[6..]) && t[6..] == u[4..];
    SameHexNumber(u, s[2..]);
  }

  lemma SameHexNumber(u: string, s: string)
    requires HexRun(4, s) && |u| >= 4 && |s| >= 4 && u[..4] == s[..4]
    ensures HexRun(4, u) && HexNumber(u) == HexNumber(s)
  {
    HexRunIndexes(4, s);
    assert forall i | 0 <= i < 4 :: u[i] == u[..4][i] && s[i] == s[..4][i];
    assert HexRun(1, u[1..][1..][1..]) && HexRun(2, u[1..][1..]) && HexRun(3, u[1..]) && HexRun(4, u);
  }

  lemma OtherEscapePasses(s: string)
    requires |s| >= 2 && s[0] == '\\' && !(s[1] == 'u' && HexRun(4, s[2..]))
    ensures ReadAs(true, ControlsEscaped(Inside, s))
         == [if IsShortEscape(s[1]) then Content(ShortEscapeCode(s[1])) else Stray(s[1])]
            + ReadAs(true, ControlsEscaped(Inside, s[2..]))
  {
    hide ControlsEscaped;
    var t, u := ControlsEscaped(Inside, s), ControlsEscaped(Inside, s[2..]);
    TwoBytesPass(s);
    assert t[0] == s[0] && t[1] == s[1] && t[2..] == u;
    HexRunSurvives(4, s[2..]);
  }

  /** The rewrite changes no reading: the escaped text reads as the raw one did. */
  lemma {:induction false} ControlEscapesReadTheSame(inString: bool, s: string)
    ensures ReadAs(inString, ControlsEscaped(if inString then Inside else Outside, s)) == ReadAs(inString, s)
    decreases |s|
  {
    if s == "" {
    } else if !inString {
      var t := ControlsEscaped(Outside, s);
      assert t[0] == s[0] && t[1..] == ControlsEscaped(Next(Outside, s[0]), s[1..]);
      ControlEscapesReadTheSame(s[0] == '"', s[1..]);
    } else if s[0] == '\\' {
      ControlEscapesReadEscape(s);
    } else if IsControl(s[0]) {
      ControlEscapeReadsBack(s[0], ControlsEscaped(Inside, s[1..]));
      ControlEscapesReadTheSame(true, s[1..]);
    } else {
      var t := ControlsEscaped(Inside, s);
      assert t[0] == s[0] && t[1..] == ControlsEscaped(Next(Inside, s[0]), s[1..]);
      ControlEscapesReadTheSame(s[0] != '"', s[1..]);
    }
  }

  lemma {:induction false} ControlEscapesReadEscape(s: string)
    requires s != "" && s[0] == '\\'
    ensures ReadAs(true, ControlsEscaped(Inside, s)) == ReadAs(true, s)
    decreases |s|, 0
  {
    if |s| == 1 {
      assert s[1..] == "" && ControlsEscaped(Escaped, s[1..]) == "";
      assert ControlsEscaped(Inside, s) == [s[0]];
    } else {
      TwoBytesPass(s);
      if s[1] == 'u' && HexRun(4, s[2..]) {
        UnicodeEscapePasses(s);
        ControlEscapesReadTheSame(true, s[6..]);
      } else {
        OtherEscapePasses(s);
        ControlEscapesReadTheSame(true, s[2..]);
      }
    }
  }
}
