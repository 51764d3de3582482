/**
  Whole documents and their containers: a written document is well nested, a stray quote behind its
  last string is dropped again by one of the repair candidates of internal/agents/decode.go, and an
  array whose text internal/discovery/amplify.go copies is an array with its elements repeated.
 */
module DocumentNesting {
  import opened Options
  import opened JsonLexer
  import opened JsonDocuments
  import opened DocumentRepairs
  import MissingClosers
  import Truncation
  import Amplification
  import T = Text

  // ---------- nesting ----------

  lemma NestPass(m: Mode, stack: string, c: char, s: string)
    ensures !(m.Outside? && IsCloser(c)) ==>
              (Nested(m, stack, [c] + s) <==> Nested(Next(m, c), Opened(m, stack, c), s))
    ensures m.Outside? && IsCloser(c) ==>
              (Nested(m, stack, [c] + s) <==> stack != "" && Last(stack) == c && Nested(Outside, Front(stack), s))
  {
    assert ([c] + s)[1..] == s;
  }

  lemma {:induction false} BlanksNest(g: seq<Blank>, stack: string, rest: string)
    ensures Nested(Outside, stack, Blanks(g, rest)) <==> Nested(Outside, stack, rest)
  {
    hide Nested;
    if g != [] {
      NestPass(Outside, stack, BlankChar(g[0]), Blanks(g[1..], rest));
      BlanksNest(g[1..], stack, rest);
    }
  }

  lemma {:induction false} ScalarNests(text: string, stack: string, rest: string)
    requires forall c | c in text :: IsScalarChar(c)
    ensures Nested(Outside, stack, text + rest) <==> Nested(Outside, stack, rest)
  {
    hide Nested;
    if text == "" {
      assert text + rest == rest;
    } else {
      assert text[0] in text && text + rest == [text[0]] + (text[1..] + rest);
      NestPass(Outside, stack, text[0], text[1..] + rest);
      ScalarNests(text[1..], stack, rest);
    }
  }

  lemma {:induction false} PiecesNest(ps: seq<Piece>, stack: string, rest: string)
    requires ArePieces(ps) && Quote !in ps
    ensures Nested(Inside, stack, Pieces(ps, rest)) <==> Nested(Inside, stack, rest)
  {
    hide Nested;
    if ps != [] {
      var p, behind := ps[0], Pieces(ps[1..], rest);
      assert p in ps && forall x | x in ps[1..] :: x in ps;
      PiecesNest(ps[1..], stack, rest);
      if p.Escape? {
        assert PieceText(p) + behind == ['\\'] + ([p.c] + behind);
        NestPass(Inside, stack, '\\', [p.c] + behind);
        NestPass(Escaped, stack, p.c, behind);
      } else {
        NestPass(Inside, stack, p.c, behind);
      }
    }
  }

  lemma QuotedNests(ps: seq<Piece>, stack: string, rest: string)
    requires ArePieces(ps) && Quote !in ps
    ensures Nested(Outside, stack, InQuotes(ps, rest)) <==> Nested(Outside, stack, rest)
  {
    hide Nested;
    NestPass(Outside, stack, '"', Pieces(ps, ['"'] + rest));
    PiecesNest(ps, stack, ['"'] + rest);
    NestPass(Inside, stack, '"', rest);
  }

  lemma KeyNests(key: Option<Key>, stack: string, rest: string)
    requires key.Some? ==> IsKey(key.value)
    ensures Nested(Outside, stack, InFront(key, rest)) <==> Nested(Outside, stack, rest)
  {
    hide Nested, Blanks, InQuotes;
    if key.Some? {
      var k := key.value;
      QuotedNests(k.pieces, stack, Blanks(k.before, [':'] + Blanks(k.after, rest)));
      BlanksNest(k.before, stack, [':'] + Blanks(k.after, rest));
      NestPass(Outside, stack, ':', Blanks(k.after, rest));
      BlanksNest(k.after, stack, rest);
    }
  }

  lemma {:induction false} ValueNests(v: Json, stack: string, rest: string)
    requires IsJson(v) && NoQuotes(v)
    ensures Nested(Outside, stack, Write(v, rest)) <==> Nested(Outside, stack, rest)
    decreases v, 0
  {
    hide Nested, InQuotes, Blanks;
    match v
    case Scalar(text) => ScalarNests(text, stack, rest);
    case Text(pieces) => QuotedNests(pieces, stack, rest);
    case Container(square, parts, comma, blanks) =>
      var inside, closed := stack + [Closer(square)], [Closer(square)] + rest;
      var end := Tail(comma, blanks, closed);
      assert Front(inside) == stack;
      NestPass(Outside, stack, Opener(square), WriteParts(parts, end));
      PartsNest(square, parts, inside, end);
      NestPass(Outside, inside, ',', Blanks(blanks, closed));
      BlanksNest(blanks, inside, closed);
      NestPass(Outside, inside, Closer(square), rest);
  }

  lemma {:induction false} PartsNest(square: bool, p: Parts, stack: string, rest: string)
    requires AreParts(square, p) && NoQuotesIn(p)
    ensures Nested(Outside, stack, WriteParts(p, rest)) <==> Nested(Outside, stack, rest)
    decreases p, 0
  {
    hide Nested, Blanks, InFront;
    if p.Part? {
      var behind := if p.rest.End? then rest else [','] + WriteParts(p.rest, rest);
      BlanksNest(p.before, stack, InFront(p.key, Write(p.value, Blanks(p.after, behind))));
      KeyNests(p.key, stack, Write(p.value, Blanks(p.after, behind)));
      ValueNests(p.value, stack, Blanks(p.after, behind));
      BlanksNest(p.after, stack, behind);
      if p.rest.Part? {
        PartsNest(square, p.rest, stack, rest);
        NestPass(Outside, stack, ',', WriteParts(p.rest, rest));
      }
    }
  }

  /** Every document is well nested, whatever its strings hold, and closing it changes nothing. */
  lemma DocumentIsNested(v: Json)
    requires IsJson(v) && NoQuotes(v)
    ensures WellNested(Document(v))
    ensures MissingClosers.Repaired(Outside, "", Document(v)) == Document(v)
  {
    ValueNests(v, "", "");
    NestedIsMatched(Outside, "", Document(v));
    MissingClosers.MatchedIsUntouched(Outside, "", Document(v));
  }

  lemma {:induction false} NestedIsMatched(m: Mode, stack: string, s: string)
    requires Nested(m, stack, s)
    ensures MissingClosers.Matched(m, stack, s)
    decreases |s|
  {
    if s != "" {
      if m.Outside? && IsCloser(s[0]) {
        NestedIsMatched(Outside, Front(stack), s[1..]);
      } else {
        NestedIsMatched(Next(m, s[0]), Opened(m, stack, s[0]), s[1..]);
      }
    }
  }

  // ---------- a stray quote ----------

  /**
    A quote too many, with no other behind it: the second candidate is the text without that quote,
    so when that text is well nested it is the candidate itself.
   */
  lemma StrayQuoteIsDropped(a: string, b: string)
    requires WellNested(a + b) && '"' !in b
    ensures var candidates := Truncation.Candidates(a + "\"" + b);
            |candidates| >= 2 && candidates[1].text == a + b && candidates[1].repair == "dropped a stray trailing quote"
  {
    var text := a + "\"" + b;
    LastOfQuotes(a, b);
    assert text[..|a|] == a && text[|a| + 1..] == b;
    NestedIsMatched(Outside, "", a + b);
    MissingClosers.MatchedIsUntouched(Outside, "", a + b);
  }

  lemma LastOfQuotes(a: string, b: string)
    requires '"' !in b
    ensures Truncation.LastQuote(a + "\"" + b) == |a|
  {
    hide Truncation.LastQuote;
    var text := a + "\"" + b;
    assert text[|a|] == '"';
    forall j | |a| < j < |text| ensures text[j] != '"' {
      BehindTheQuote(a, b, j);
    }
    LastQuoteAt(text, |a|);
  }

  lemma BehindTheQuote(a: string, b: string, j: nat)
    requires |a| < j < |a + "\"" + b|
    ensures (a + "\"" + b)[j] in b
  {
    assert (a + "\"" + b)[j] == b[j - |a| - 1];
  }

  lemma LastQuoteAt(text: string, i: nat)
    requires i < |text| && text[i] == '"' && forall j | i < j < |text| :: text[j] != '"'
    ensures Truncation.LastQuote(text) == i
  {
    hide Truncation.LastQuote;
  }

  // ---------- repeated elements ----------

  /** The parts of one list behind those of another, with these blanks between the two. */
  function Append(p: Parts, blanks: seq<Blank>, more: Parts): Parts
    requires p.Part? && more.Part?
  {
    if p.rest.End? then p.(after := p.after + blanks, rest := more)
    else p.(rest := Append(p.rest, blanks, more))
  }

  /** The elements `n + 1` times over. */
  function Repeated(p: Parts, blanks: seq<Blank>, n: nat): (r: Parts)
    requires p.Part?
    ensures r.Part?
  {
    if n == 0 then p else Append(p, blanks, Repeated(p, blanks, n - 1))
  }

  lemma {:induction false} BlanksConcat(a: seq<Blank>, b: seq<Blank>, rest: string)
    ensures Blanks(a + b, rest) == Blanks(a, Blanks(b, rest))
  {
    if a == [] {
      assert a + b == b;
    } else {
      assert (a + b)[1..] == a[1..] + b;
      BlanksConcat(a[1..], b, rest);
    }
  }

  lemma {:induction false} AppendWrites(p: Parts, blanks: seq<Blank>, more: Parts, rest: string)
    requires p.Part? && more.Part?
    ensures WriteParts(Append(p, blanks, more), rest) == WriteParts(p, Blanks(blanks, [','] + WriteParts(more, rest)))
    decreases p
  {
    hide Blanks, InFront, Write;
    if p.rest.End? {
      BlanksConcat(p.after, blanks, [','] + WriteParts(more, rest));
    } else {
      AppendWrites(p.rest, blanks, more, rest);
    }
  }

  // ---------- text in front of text ----------

  lemma {:induction false} BlanksInFront(g: seq<Blank>, a: string, b: string)
    ensures Blanks(g, a + b) == Blanks(g, a) + b
  {
    if g != [] {
      BlanksInFront(g[1..], a, b);
    }
  }

  lemma {:induction false} PiecesInFront(ps: seq<Piece>, a: string, b: string)
    ensures Pieces(ps, a + b) == Pieces(ps, a) + b
  {
    if ps != [] {
      PiecesInFront(ps[1..], a, b);
      T.Associative(PieceText(ps[0]), Pieces(ps[1..], a), b);
    }
  }

  lemma CharInFront(c: char, a: string, b: string)
    ensures [c] + (a + b) == ([c] + a) + b
  {
  }

  lemma QuotedInFront(ps: seq<Piece>, a: string, b: string)
    ensures InQuotes(ps, a + b) == InQuotes(ps, a) + b
  {
    hide Pieces;
    CharInFront('"', a, b);
    PiecesInFront(ps, ['"'] + a, b);
    CharInFront('"', Pieces(ps, ['"'] + a), b);
  }

  lemma KeyInFront(key: Option<Key>, a: string, b: string)
    ensures InFront(key, a + b) == InFront(key, a) + b
  {
    hide Blanks, InQuotes;
    if key.Some? {
      var k := key.value;
      BlanksInFront(k.after, a, b);
      CharInFront(':', Blanks(k.after, a), b);
      BlanksInFront(k.before, [':'] + Blanks(k.after, a), b);
      QuotedInFront(k.pieces, Blanks(k.before, [':'] + Blanks(k.after, a)), b);
    }
  }

  lemma {:induction false} ValueInFront(v: Json, a: string, b: string)
    ensures Write(v, a + b) == Write(v, a) + b
    decreases v, 0
  {
    hide Blanks, InQuotes;
    match v
    case Scalar(text) => T.Associative(text, a, b);
    case Text(pieces) => QuotedInFront(pieces, a, b);
    case Container(square, parts, comma, blanks) =>
      var closed := [Closer(square)] + a;
      CharInFront(Closer(square), a, b);
      BlanksInFront(blanks, closed, b);
      CharInFront(',', Blanks(blanks, closed), b);
      PartsInFront(parts, Tail(comma, blanks, closed), b);
      CharInFront(Opener(square), WriteParts(parts, Tail(comma, blanks, closed)), b);
  }

  lemma {:induction false} PartsInFront(p: Parts, a: string, b: string)
    ensures WriteParts(p, a + b) == WriteParts(p, a) + b
    decreases p, 0
  {
    hide Blanks, InFront;
    if p.Part? {
      if p.rest.Part? {
        PartsInFront(p.rest, a, b);
        CharInFront(',', WriteParts(p.rest, a), b);
      }
      var behind := if p.rest.End? then a else [','] + WriteParts(p.rest, a);
      BlanksInFront(p.after, behind, b);
      ValueInFront(p.value, Blanks(p.after, behind), b);
      KeyInFront(p.key, Write(p.value, Blanks(p.after, behind)), b);
      BlanksInFront(p.before, InFront(p.key, Write(p.value, Blanks(p.after, behind))), b);
    }
  }

  // ---------- amplification ----------

  /** What stands between an array's brackets. */
  function Body(parts: Parts, blanks: seq<Blank>): string {
    WriteParts(parts, Blanks(blanks, ""))
  }

  lemma ArrayText(parts: Parts, blanks: seq<Blank>, rest: string)
    ensures Write(Container(true, parts, false, blanks), rest) == ['['] + Body(parts, blanks) + ([']'] + rest)
  {
    hide Blanks, WriteParts;
    var closed := [']'] + rest;
    BlanksInFront(blanks, "", closed);
    assert "" + closed == closed;
    PartsInFront(parts, Blanks(blanks, ""), closed);
    CharInFront('[', Body(parts, blanks), closed);
  }

  /** A comma and the elements again, `n` times, is the text of the elements repeated. */
  lemma {:induction false} CopiesRepeat(parts: Parts, blanks: seq<Blank>, n: nat)
    requires parts.Part?
    ensures Body(parts, blanks) + Amplification.Copies(Body(parts, blanks), n)
            == Body(Repeated(parts, blanks, n), blanks)
  {
    hide Body, Append, Amplification.Copies;
    var body := Body(parts, blanks);
    if n == 0 {
      Amplification.NoCopies(body);
      assert body + "" == body;
    } else {
      var copies := Amplification.Copies(body, n - 1);
      CopiesRepeat(parts, blanks, n - 1);
      BodyAppends(parts, blanks, Repeated(parts, blanks, n - 1));
      OneMoreInFront(body, n - 1);
      CommaMoves(body, copies);
    }
  }

  lemma CommaMoves(body: string, copies: string)
    ensures body + (([','] + body) + copies) == body + ([','] + (body + copies))
  {
  }

  lemma BodyAppends(parts: Parts, blanks: seq<Blank>, more: Parts)
    requires parts.Part? && more.Part?
    ensures Body(Append(parts, blanks, more), blanks) == Body(parts, blanks) + ([','] + Body(more, blanks))
  {
    hide Blanks, WriteParts, Append;
    var tail := [','] + Body(more, blanks);
    AppendWrites(parts, blanks, more, Blanks(blanks, ""));
    BlanksInFront(blanks, "", tail);
    assert "" + tail == tail;
    PartsInFront(parts, Blanks(blanks, ""), tail);
  }

  lemma {:induction false} OneMoreInFront(body: string, n: nat)
    ensures Amplification.Copies(body, n + 1) == ([','] + body) + Amplification.Copies(body, n)
  {
    if n == 0 {
      assert Amplification.Copies(body, 0) == "" && "" + "," + body == [','] + body;
    } else {
      OneMoreInFront(body, n - 1);
      var less := Amplification.Copies(body, n - 1);
      assert ([','] + body) + less + "," + body == ([','] + body) + (less + "," + body);
    }
  }

  /** The array holds nothing exactly when it has no elements. */
  lemma BlankBodyIff(parts: Parts, blanks: seq<Blank>)
    requires AreParts(true, parts)
    ensures Amplification.AllBlank(Body(parts, blanks)) <==> parts.End?
  {
    if parts.End? {
      BlanksAreBlank(blanks);
    } else {
      SomethingIsWritten(parts, blanks);
    }
  }

  lemma {:induction false} BlanksAreBlank(blanks: seq<Blank>)
    ensures Amplification.AllBlank(Blanks(blanks, ""))
  {
    if blanks != [] {
      var s := Blanks(blanks, "");
      BlanksAreBlank(blanks[1..]);
      assert s[0] == BlankChar(blanks[0]) && s[1..] == Blanks(blanks[1..], "");
    }
  }

  lemma {:induction false} BlankInFront(g: seq<Blank>, rest: string)
    ensures Amplification.AllBlank(Blanks(g, rest)) <==> Amplification.AllBlank(rest)
  {
    if g != [] {
      var s := Blanks(g, rest);
      BlankInFront(g[1..], rest);
      assert s[0] == BlankChar(g[0]) && s[1..] == Blanks(g[1..], rest);
    }
  }

  lemma SomethingIsWritten(parts: Parts, blanks: seq<Blank>)
    requires AreParts(true, parts) && parts.Part?
    ensures !Amplification.AllBlank(Body(parts, blanks))
  {
    hide Blanks, WriteParts, Write;
    var end := Blanks(blanks, "");
    var behind := Blanks(parts.after, if parts.rest.End? then end else [','] + WriteParts(parts.rest, end));
    var value := Write(parts.value, behind);
    FirstPart(parts, end);
    BlankInFront(parts.before, value);
    FirstByte(parts.value, behind);
  }

  lemma FirstPart(p: Parts, rest: string)
    requires AreParts(true, p) && p.Part?
    ensures WriteParts(p, rest) == Blanks(p.before, Write(p.value, Blanks(p.after,
              if p.rest.End? then rest else [','] + WriteParts(p.rest, rest))))
  {
  }

  lemma FirstByte(v: Json, rest: string)
    requires IsJson(v)
    ensures !Amplification.AllBlank(Write(v, rest))
  {
    var s := Write(v, rest);
    if v.Scalar? {
      assert v.text[0] in v.text && s[0] == v.text[0];
    }
    assert s != "" && ' ' < s[0] <= '~';
    assert Amplification.SpaceRune(s) == 0;
  }

  /**
    Copying the text of an array's elements amplifies the array: a document that holds an array with
    elements becomes, whatever stands around it, that document with the elements repeated.
   */
  lemma AmplifiedArrayIsAnArray(before: string, parts: Parts, blanks: seq<Blank>, after: string, copies: nat,
    result: string)
    requires AreParts(true, parts) && parts.Part?
    requires var stdin := before + Write(Container(true, parts, false, blanks), after);
             var end := |stdin| - |after| - 1;
             |before| < end && Amplification.Amplified(stdin, |before|, end, copies, result)
    ensures result == before + Write(Container(true, Repeated(parts, blanks, copies), false, blanks), after)
  {
    hide WriteParts, Blanks, Body, Repeated, Write, Amplification.Copies;
    var stdin := before + Write(Container(true, parts, false, blanks), after);
    var body, end := Body(parts, blanks), |stdin| - |after| - 1;
    var copied := Amplification.Copies(body, copies);
    ArrayText(parts, blanks, after);
    ArrayText(Repeated(parts, blanks, copies), blanks, after);
    ArraySplit(before, body, after);
    CopiesRepeat(parts, blanks, copies);
    ArrayJoined(before, body, copied, after);
  }

  lemma ArraySplit(before: string, body: string, after: string)
    ensures var stdin := before + (['['] + body + ([']'] + after));
            var end := |before| + 1 + |body|;
            && end == |stdin| - |after| - 1
            && stdin[|before| + 1..end] == body
            && stdin[..end] == before + (['['] + body) && stdin[end..] == [']'] + after
  {
  }

  lemma ArrayJoined(before: string, body: string, copied: string, after: string)
    ensures before + (['['] + body) + copied + ([']'] + after) == before + (['['] + (body + copied) + ([']'] + after))
  {
  }
}
