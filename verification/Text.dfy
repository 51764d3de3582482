/** The string operations of the Go standard library that the diff code rests on. */
module Text {

  // ---------- lines ----------

  predicate OneLine(s: string) {
    '\n' !in s
  }

  ghost predicate AllOneLine(lines: seq<string>) {
    forall l | l in lines :: OneLine(l)
  }

  /** strings.Split(s, "\n"). */
  function SplitLines(s: string): (r: seq<string>)
    ensures r != []
  {
    if s == "" then [""]
    else if s[0] == '\n' then [""] + SplitLines(s[1..])
    else
      var rest := SplitLines(s[1..]);
      [[s[0]] + rest[0]] + rest[1..]
  }

  /** strings.Join(lines, "\n"). */
  function JoinLines(lines: seq<string>): string {
    if lines == [] then ""
    else if |lines| == 1 then lines[0]
    else lines[0] + "\n" + JoinLines(lines[1..])
  }

  lemma {:induction false} SplitOneLine(l: string)
    requires OneLine(l)
    ensures SplitLines(l) == [l]
  {
    if l != "" {
      assert l[0] in l && forall c | c in l[1..] :: c in l;
      SplitOneLine(l[1..]);
      assert l == [l[0]] + l[1..];
    }
  }

  lemma {:induction false} SplitFirstLine(l: string, rest: string)
    requires OneLine(l)
    ensures SplitLines(l + "\n" + rest) == [l] + SplitLines(rest)
  {
    var s := l + "\n" + rest;
    if l == "" {
      assert s == "\n" + rest && s[1..] == rest;
    } else {
      assert l[0] in l && forall c | c in l[1..] :: c in l;
      SplitFirstLine(l[1..], rest);
      assert s[0] == l[0] && s[1..] == l[1..] + "\n" + rest;
      assert l == [l[0]] + l[1..];
      assert ([l[1..]] + SplitLines(rest))[1..] == SplitLines(rest);
    }
  }

  /** Joining lines and splitting the text again gives the lines back. */
  lemma {:induction false} SplitJoined(lines: seq<string>)
    requires lines != [] && AllOneLine(lines)
    ensures SplitLines(JoinLines(lines)) == lines
  {
    assert lines[0] in lines;
    if |lines| == 1 {
      SplitOneLine(lines[0]);
    } else {
      assert forall l | l in lines[1..] :: l in lines;
      SplitJoined(lines[1..]);
      SplitFirstLine(lines[0], JoinLines(lines[1..]));
    }
  }

  /** And splitting a text and joining its lines again gives the text back. */
  lemma {:induction false} JoinedSplit(s: string)
    ensures JoinLines(SplitLines(s)) == s
  {
    if s != "" {
      JoinedSplit(s[1..]);
      var rest := SplitLines(s[1..]);
      if s[0] == '\n' {
        assert ([""] + rest)[1..] == rest;
        assert "" + "\n" + s[1..] == s;
      } else {
        JoinedHead([s[0]], rest);
        assert [s[0]] + s[1..] == s;
      }
    }
  }

  lemma JoinedHead(head: string, lines: seq<string>)
    requires lines != []
    ensures JoinLines([head + lines[0]] + lines[1..]) == head + JoinLines(lines)
  {
    if |lines| > 1 {
      assert ([head + lines[0]] + lines[1..])[1..] == lines[1..];
      Associative(head, lines[0] + "\n", JoinLines(lines[1..]));
      Associative(head, lines[0], "\n");
    }
  }

  lemma {:induction false} JoinSnoc(lines: seq<string>)
    requires lines != []
    ensures JoinLines(lines + [""]) == JoinLines(lines) + "\n"
  {
    if |lines| > 1 {
      JoinSnoc(lines[1..]);
      assert (lines + [""])[1..] == lines[1..] + [""];
    } else {
      assert (lines + [""])[1..] == [""];
    }
  }

  lemma {:induction false} SplitIsOneLine(s: string)
    ensures AllOneLine(SplitLines(s))
  {
    if s != "" {
      SplitIsOneLine(s[1..]);
      var rest := SplitLines(s[1..]);
      forall l | l in SplitLines(s) ensures OneLine(l) {
        assert rest[0] in rest;
        if l !in rest && s[0] != '\n' {
          assert l == [s[0]] + rest[0];
        }
      }
    }
  }

  // ---------- substrings ----------

  /** strings.Index(s, "@@"). */
  function IndexOfMark(s: string): (r: int)
    ensures -1 <= r
    ensures r >= 0 ==> r + 2 <= |s| && s[r] == '@' && s[r + 1] == '@'
  {
    if |s| < 2 then -1
    else if s[0] == '@' && s[1] == '@' then 0
    else
      var r := IndexOfMark(s[1..]);
      if r < 0 then -1 else r + 1
  }

  lemma {:induction false} FirstMark(before: string, after: string)
    requires '@' !in before
    ensures IndexOfMark(before + "@@" + after) == |before|
  {
    var s := before + "@@" + after;
    if before != "" {
      assert before[0] in before && forall c | c in before[1..] :: c in before;
      FirstMark(before[1..], after);
      assert s[0] == before[0] && s[1..] == before[1..] + "@@" + after;
    }
  }

  lemma {:induction false} MarkFound(s: string, i: nat)
    requires i + 2 <= |s| && s[i] == '@' && s[i + 1] == '@'
    ensures IndexOfMark(s) >= 0
  {
    if i > 0 {
      MarkFound(s[1..], i - 1);
    }
  }

  // ---------- fields ----------

  /** unicode.IsSpace. */
  predicate IsSpace(c: char) {
    || '\t' <= c <= '\r' || c == ' ' || c == '\U{85}' || c == '\U{a0}' || c == '\U{1680}'
    || '\U{2000}' <= c <= '\U{200a}' || c == '\U{2028}' || c == '\U{2029}' || c == '\U{202f}'
    || c == '\U{205f}' || c == '\U{3000}'
  }

  predicate NoSpace(s: string) {
    forall c | c in s :: !IsSpace(c)
  }

  function Word(s: string): seq<string> {
    if s == "" then [] else [s]
  }

  /** The fields of `s` when `word` has been read of the current one. */
  function FieldsFrom(word: string, s: string): seq<string>
    decreases |s|
  {
    if s == "" then Word(word)
    else if IsSpace(s[0]) then Word(word) + FieldsFrom("", s[1..])
    else FieldsFrom(word + [s[0]], s[1..])
  }

  /** strings.Fields. */
  function Fields(s: string): seq<string> {
    FieldsFrom("", s)
  }

  lemma {:induction false} FieldsSplit(word: string, a: string, space: char, b: string)
    requires IsSpace(space)
    ensures FieldsFrom(word, a + [space] + b) == FieldsFrom(word, a) + Fields(b)
    decreases |a|
  {
    var s := a + [space] + b;
    if a == "" {
      assert s[0] == space && s[1..] == b;
    } else {
      assert s[0] == a[0] && s[1..] == a[1..] + [space] + b;
      if IsSpace(a[0]) {
        FieldsSplit("", a[1..], space, b);
        assert Word(word) + (FieldsFrom("", a[1..]) + Fields(b)) == (Word(word) + FieldsFrom("", a[1..])) + Fields(b);
      } else {
        FieldsSplit(word + [a[0]], a[1..], space, b);
      }
    }
  }

  lemma {:induction false} OneField(word: string, s: string)
    requires NoSpace(s)
    ensures FieldsFrom(word, s) == Word(word + s)
    decreases |s|
  {
    if s == "" {
      assert word + s == word;
    } else {
      assert s[0] in s && forall c | c in s[1..] :: c in s;
      OneField(word + [s[0]], s[1..]);
      assert word + [s[0]] + s[1..] == word + s;
    }
  }

  /** The first field, then those after the space behind it. */
  lemma FieldThen(word: string, rest: string)
    requires word != "" && NoSpace(word)
    ensures Fields(word + " " + rest) == [word] + Fields(rest)
  {
    FieldsSplit("", word, ' ', rest);
    OneField("", word);
    assert "" + word == word;
  }

  lemma Associative<T>(a: seq<T>, b: seq<T>, c: seq<T>)
    ensures (a + b) + c == a + (b + c)
  {
  }
}
