/**
  EscapeEmbeddedQuotes (internal/agents/decode.go): double quotes that a model left bare inside a
  string value get a backslash. A quote ends a value only when no brace or bracket is open inside
  the strings read so far and a byte that may follow a value comes next.
 */
module EmbeddedQuotes {
  import opened JsonLexer

  /** The scanner's variables: `open` holds the openers of the containers around the string. */
  datatype State = State(mode: Mode, valueString: bool, depth: nat, prev: char, open: string)

  const START := State(Outside, false, 0, '\0', "")

  function TrackContainer(open: string, c: char): string {
    if IsOpener(c) then open + [c]
    else if IsCloser(c) && open != "" then open[..|open| - 1]
    else open
  }

  predicate InnermostIsArray(open: string) {
    open != "" && open[|open| - 1] == '['
  }

  /** A string after ':' is a value, and one after '[' or ',' in an array is an element. */
  predicate OpensValue(prev: char, inArray: bool) {
    prev == ':' || (inArray && (prev == '[' || prev == ','))
  }

  function BumpDepth(c: char, depth: nat): nat {
    if IsOpener(c) then depth + 1 else if IsCloser(c) && depth > 0 then depth - 1 else depth
  }

  predicate MayFollowValue(c: char) {
    c == ',' || IsCloser(c)
  }

  predicate QuoteTerminatesValue(rest: string, depth: nat) {
    var r := SkipSpace(rest);
    r == "" || (depth == 0 && MayFollowValue(r[0]))
  }

  predicate EscapesQuote(q: State, s: string)
    requires s != ""
  {
    q.mode.Inside? && s[0] == '"' && q.valueString && !QuoteTerminatesValue(s[1..], q.depth)
  }

  function Step(q: State, s: string): State
    requires s != ""
  {
    var c := s[0];
    match q.mode
    case Outside =>
      var open := TrackContainer(q.open, c);
      State(Next(Outside, c), c == '"' && OpensValue(q.prev, InnermostIsArray(open)), q.depth,
            if IsSpace(c) then q.prev else c, open)
    case Escaped => q.(mode := Inside)
    case Inside =>
      if c == '\\' then q.(mode := Escaped)
      else if c == '"' then if EscapesQuote(q, s) then q else q.(mode := Outside)
      else q.(depth := BumpDepth(c, q.depth))
  }

  function Written(q: State, s: string): string
    requires s != ""
  {
    if EscapesQuote(q, s) then "\\\"" else [s[0]]
  }

  function Quoted(q: State, s: string): string
    decreases |s|
  {
    if s == "" then "" else Written(q, s) + Quoted(Step(q, s), s[1..])
  }

  lemma QuotedStep(out: string, q: State, text: string, i: nat)
    requires i < |text|
    ensures text[i..] != "" && text[i..][0] == text[i] && text[i..][1..] == text[i + 1..]
    ensures out + Quoted(q, text[i..]) == out + Written(q, text[i..]) + Quoted(Step(q, text[i..]), text[i + 1..])
    ensures text[..i + 1] == text[..i] + [text[i]]
  {
  }

  method QuoteTerminates(s: string, i: nat, depth: nat) returns (ends: bool)
    requires i < |s|
    ensures ends <==> QuoteTerminatesValue(s[i + 1..], depth)
  {
    var j := SkipJsonSpace(s, i + 1);
    if j >= |s| {
      return true;
    }
    if depth > 0 {
      return false;
    }
    return s[j] == ',' || s[j] == '}' || s[j] == ']';
  }

  method EscapeQuote(text: string, i: nat, depth: nat, valueString: bool, out: string)
    returns (written: string, inString: bool, extra: bool)
    requires i < |text| && text[i] == '"'
    ensures inString == extra == EscapesQuote(State(Inside, valueString, depth, '\0', ""), text[i..])
    ensures written == out + if extra then "\\\"" else "\""
  {
    assert text[i..][1..] == text[i + 1..];
    if !valueString {
      return out + "\"", false, false;
    }
    var ends := QuoteTerminates(text, i, depth);
    if ends {
      return out + "\"", false, false;
    }
    return out + "\\\"", true, true;
  }

  /** The pass writes what `Quoted` says, and reports a change exactly when it escaped something. */
  method EscapeEmbeddedQuotes(text: string) returns (result: string, changed: bool)
    ensures result == Quoted(START, text)
    ensures changed <==> result != text
  {
    var out, open := "", "";
    var inString, valueString, escaped := false, false, false;
    var depth, prev := 0, '\0';
    changed := false;
    for i := 0 to |text|
      invariant !inString ==> !escaped
      invariant out + Quoted(State(ModeOf(inString, escaped), valueString, depth, prev, open), text[i..])
                == Quoted(START, text)
      invariant |out| >= i && (changed <==> |out| > i)
      invariant !changed ==> out == text[..i]
    {
      var c := text[i];
      QuotedStep(out, State(ModeOf(inString, escaped), valueString, depth, prev, open), text, i);
      if !inString {
        open := TrackContainer(open, c);
        inString, valueString := c == '"', c == '"' && OpensValue(prev, InnermostIsArray(open));
        prev := if IsSpace(c) then prev else c;
        out := out + [c];
        continue;
      }
      if escaped {
        escaped := false;
        out := out + [c];
        continue;
      }
      if c == '\\' {
        escaped := true;
        out := out + [c];
        continue;
      }
      if c == '"' {
        var extra;
        out, inString, extra := EscapeQuote(text, i, depth, valueString, out);
        changed := changed || extra;
        continue;
      }
      depth := BumpDepth(c, depth);
      out := out + [c];
    }
    assert text[|text|..] == "" && text[..|text|] == text;
    result := out;
  }

  // ---------- what the pass may do: put backslashes before quotes ----------

  /**
    `out` is `s` with backslashes put before double quotes, each at a place that a reader of `out`
    is inside a string, and nothing else changed.
   */
  ghost predicate BackslashesInserted(m: Mode, s: string, out: string)
    decreases |out|
  {
    if out == "" then
      s == ""
    else
      || (s != "" && s[0] == out[0] && BackslashesInserted(Next(m, out[0]), s[1..], out[1..]))
      || (m.Inside? && out[0] == '\\' && |out| >= 2 && out[1] == '"' && s != "" && s[0] == '"'
          && BackslashesInserted(Inside, s[1..], out[2..]))
  }

  /** A reader of the output sees the strings the pass decided on; only backslashes before quotes were added. */
  lemma {:induction false} OnlyBackslashesInserted(q: State, s: string)
    ensures BackslashesInserted(q.mode, s, Quoted(q, s))
    ensures |Quoted(q, s)| >= |s|
    decreases |s|
  {
    if s != "" {
      OnlyBackslashesInserted(Step(q, s), s[1..]);
      var out, rest := Quoted(q, s), Quoted(Step(q, s), s[1..]);
      if EscapesQuote(q, s) {
        assert out[..2] == "\\\"" && out[2..] == rest;
      } else {
        assert out[0] == s[0] && out[1..] == rest;
      }
    }
  }

  // ---------- idempotence ----------

  /** Between strings the output shows the same next significant byte as the input. */
  lemma {:induction false} SameNextByte(q: State, s: string)
    requires q.mode.Outside?
    ensures var a, b := SkipSpace(s), SkipSpace(Quoted(q, s)); (a == "" <==> b == "") && (a != "" ==> a[0] == b[0])
    decreases |s|
  {
    if s != "" {
      var out := Quoted(q, s);
      assert out[0] == s[0] && out[1..] == Quoted(Step(q, s), s[1..]);
      if IsSpace(s[0]) {
        SameNextByte(Step(q, s), s[1..]);
      }
    }
  }

  /** Escaping twice is escaping once. */
  lemma {:induction false} QuotingIsIdempotent(q: State, s: string)
    ensures Quoted(q, Quoted(q, s)) == Quoted(q, s)
    decreases |s|
  {
    if s != "" {
      var out, q', rest := Quoted(q, s), Step(q, s), Quoted(Step(q, s), s[1..]);
      QuotingIsIdempotent(q', s[1..]);
      if EscapesQuote(q, s) {
        assert out[0] == '\\' && out[1..][0] == '"' && out[1..][1..] == rest && q' == q;
        var inEscape := q.(mode := Escaped);
        assert Step(q, out) == inEscape && Step(inEscape, out[1..]) == q;
        assert Quoted(inEscape, out[1..]) == "\"" + Quoted(q, rest);
        assert Quoted(q, out) == "\\" + ("\"" + Quoted(q, rest));
      } else {
        assert out[0] == s[0] && out[1..] == rest;
        if q.mode.Inside? && s[0] == '"' {
          SameNextByte(q', s[1..]);
        }
        assert Step(q, out) == q' && Written(q, out) == [s[0]];
      }
    }
  }

  // ---------- when nothing is rewritten ----------

  /**
    Read with plain JSON string rules, every string in value position ends where a value may end,
    with no bracket left open among the bytes of all the strings read so far.
   */
  predicate EveryValueEndsCleanly(q: State, s: string)
    decreases |s|
  {
    s == "" ||
    (var next := if s[0] == '"' && q.mode.Inside? then q.(mode := Outside) else Step(q, s);
     && (q.mode.Inside? && s[0] == '"' && q.valueString ==>
           var r := SkipSpace(s[1..]); r == "" || (q.depth == 0 && MayFollowValue(r[0])))
     && EveryValueEndsCleanly(next, s[1..]))
  }

  lemma {:induction false} UntouchedIff(q: State, s: string)
    ensures Quoted(q, s) == s <==> EveryValueEndsCleanly(q, s)
    decreases |s|
  {
    if s != "" {
      UntouchedIff(Step(q, s), s[1..]);
      OnlyBackslashesInserted(Step(q, s), s[1..]);
      var out, rest := Quoted(q, s), Quoted(Step(q, s), s[1..]);
      if EscapesQuote(q, s) {
        assert |out| == |rest| + 2;
      } else {
        assert out[0] == s[0] && out[1..] == rest;
        assert s == [s[0]] + s[1..];
      }
    }
  }

  /** Valid JSON is not always left alone: a bracket inside a string keeps the string from ending. */
  lemma {:induction false} ValidJsonMayBeRewritten()
    ensures Quoted(START, "[\"{\"]") == "[\"{\\\"]"
  {
    var s := "[\"{\"]";
    var q1 := Step(START, s);
    assert s[1..] == "\"{\"]";
    var q2 := Step(q1, s[1..]);
    assert s[1..][1..] == "{\"]";
    var q3 := Step(q2, s[1..][1..]);
    assert s[1..][1..][1..] == "\"]" && s[1..][1..][1..][1..] == "]";
    assert EscapesQuote(q3, "\"]");
    assert Quoted(q3, "]") == "]" + Quoted(Step(q3, "]"), "");
    assert Quoted(q3, "\"]") == "\\\"" + Quoted(q3, "]");
  }
}
