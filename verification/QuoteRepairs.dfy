/**
  What EscapeEmbeddedQuotes (internal/agents/decode.go) makes of a whole document whose string
  values hold bare quotes: the same document with each of them escaped, when no bare quote stands
  where a value could end and no value leaves a bracket open.
 */
module QuoteRepairs {
  import opened Options
  import opened JsonLexer
  import opened JsonDocuments
  import opened DocumentRepairs
  import opened EmbeddedQuotes

  // ---------- what can be told apart ----------

  /** Brackets a string leaves open, counted from those open before it. */
  function DepthOver(ps: seq<Piece>, depth: nat): nat {
    if ps == [] then depth
    else DepthOver(ps[1..], DepthBehind(ps[0], depth))
  }

  function DepthBehind(p: Piece, depth: nat): nat {
    if p == Plain('{') || p == Plain('[') then depth + 1
    else if (p == Plain('}') || p == Plain(']')) && depth > 0 then depth - 1
    else depth
  }

  predicate IsBlankPiece(p: Piece) {
    p == Plain(' ') || p == Raw('\t') || p == Raw('\n') || p == Raw('\r')
  }

  /** Behind blanks comes a byte that could follow a value. */
  predicate LooksEnded(ps: seq<Piece>) {
    ps != [] && if IsBlankPiece(ps[0]) then LooksEnded(ps[1..])
                else ps[0] == Plain(',') || ps[0] == Plain('}') || ps[0] == Plain(']')
  }

  /** No bare quote of the value looks like its end, and the value ends with no bracket open. */
  predicate EndsOnlyAtItsEnd(ps: seq<Piece>, depth: nat) {
    if ps == [] then depth == 0
    else
      && (ps[0] == Quote ==> depth > 0 || !LooksEnded(ps[1..]))
      && EndsOnlyAtItsEnd(ps[1..], DepthBehind(ps[0], depth))
  }

  /** The same for every value of the document, brackets counted through all of its strings. */
  predicate IsReadable(v: Json, depth: nat)
    decreases v
  {
    match v
    case Scalar(_) => true
    case Text(pieces) => EndsOnlyAtItsEnd(pieces, depth)
    case Container(_, parts, _, _) => AreReadable(parts, depth)
  }

  predicate AreReadable(p: Parts, depth: nat)
    decreases p
  {
    p.Part? ==>
      var inside := DepthOfKey(p.key, depth);
      IsReadable(p.value, inside) && AreReadable(p.rest, DepthOf(p.value, inside))
  }

  function DepthOfKey(key: Option<Key>, depth: nat): nat {
    if key.Some? then DepthOver(key.value.pieces, depth) else depth
  }

  function DepthOf(v: Json, depth: nat): nat
    decreases v
  {
    match v
    case Scalar(_) => depth
    case Text(pieces) => DepthOver(pieces, depth)
    case Container(_, parts, _, _) => DepthOfParts(parts, depth)
  }

  function DepthOfParts(p: Parts, depth: nat): nat
    decreases p
  {
    if p.End? then depth else DepthOfParts(p.rest, DepthOf(p.value, DepthOfKey(p.key, depth)))
  }

  function QuotesEscaped(ps: seq<Piece>): seq<Piece> {
    if ps == [] then [] else [if ps[0] == Quote then Escape('"') else ps[0]] + QuotesEscaped(ps[1..])
  }

  // ---------- byte by byte ----------

  lemma QuotePass(q: State, c: char, s: string)
    ensures EmbeddedQuotes.Quoted(q, [c] + s)
            == Written(q, [c] + s) + EmbeddedQuotes.Quoted(EmbeddedQuotes.Step(q, [c] + s), s)
    ensures ([c] + s)[1..] == s
  {
    assert ([c] + s)[1..] == s;
  }

  /** Between strings a byte is passed on, tracked, and remembered unless it is blank. */
  lemma OutsidePass(q: State, c: char, s: string) returns (r: State)
    requires q.mode.Outside?
    ensures r == State(if c == '"' then Inside else Outside, c == '"' && OpensValue(q.prev, InnermostIsArray(r.open)),
                       q.depth, if IsSpace(c) then q.prev else c, TrackContainer(q.open, c))
    ensures EmbeddedQuotes.Quoted(q, [c] + s) == [c] + EmbeddedQuotes.Quoted(r, s)
  {
    r := EmbeddedQuotes.Step(q, [c] + s);
    QuotePass(q, c, s);
  }

  ghost predicate SamePlace(q: State, r: State) {
    q.mode.Outside? && r.mode.Outside? && q.depth == r.depth && q.open == r.open
  }

  lemma {:induction false} QuotesPassBlanks(g: seq<Blank>, q: State, rest: string) returns (r: State)
    requires q.mode.Outside?
    ensures SamePlace(q, r) && r.prev == q.prev
    ensures EmbeddedQuotes.Quoted(q, Blanks(g, rest)) == Blanks(g, EmbeddedQuotes.Quoted(r, rest))
    decreases |g|
  {
    hide EmbeddedQuotes.Quoted;
    if g == [] {
      r := q;
    } else {
      var next := OutsidePass(q, BlankChar(g[0]), Blanks(g[1..], rest));
      r := QuotesPassBlanks(g[1..], next, rest);
    }
  }

  lemma {:induction false} QuotesPassScalar(text: string, q: State, rest: string) returns (r: State)
    requires q.mode.Outside? && forall c | c in text :: IsScalarChar(c)
    ensures SamePlace(q, r)
    ensures EmbeddedQuotes.Quoted(q, text + rest) == text + EmbeddedQuotes.Quoted(r, rest)
    decreases |text|
  {
    hide EmbeddedQuotes.Quoted;
    if text == "" {
      assert text + rest == rest;
      r := q;
    } else {
      assert text[0] in text && text + rest == [text[0]] + (text[1..] + rest);
      var next := OutsidePass(q, text[0], text[1..] + rest);
      r := QuotesPassScalar(text[1..], next, rest);
    }
  }

  // ---------- strings ----------

  /** What a scanner sees behind blanks. */
  lemma {:induction false} SeenBehind(ps: seq<Piece>, rest: string)
    requires ArePieces(ps)
    ensures var r := SkipSpace(Pieces(ps, ['"'] + rest)); r != "" && (MayFollowValue(r[0]) <==> LooksEnded(ps))
  {
    var s := Pieces(ps, ['"'] + rest);
    if ps == [] {
      assert SkipSpace(s) == s;
    } else {
      assert ps[0] in ps && forall x | x in ps[1..] :: x in ps;
      SeenBehind(ps[1..], rest);
      if IsBlankPiece(ps[0]) {
        assert s[1..] == Pieces(ps[1..], ['"'] + rest);
      } else {
        assert SkipSpace(s) == s && s[0] == PieceText(ps[0])[0];
      }
    }
  }

  lemma EscapePass(q: State, c: char, s: string)
    requires q.mode.Inside?
    ensures EmbeddedQuotes.Quoted(q, ['\\', c] + s) == ['\\', c] + EmbeddedQuotes.Quoted(q, s)
  {
    hide EmbeddedQuotes.Quoted;
    assert ['\\', c] + s == ['\\'] + ([c] + s);
    QuotePass(q, '\\', [c] + s);
    QuotePass(q.(mode := Escaped), c, s);
    assert q.(mode := Escaped).(mode := Inside) == q;
  }

  /** A piece that is no bare quote is passed on, in a key as in a value. */
  lemma PiecePass(q: State, p: Piece, s: string)
    requires q.mode.Inside? && IsPiece(p) && p != Quote
    ensures EmbeddedQuotes.Quoted(q, PieceText(p) + s)
            == PieceText(p) + EmbeddedQuotes.Quoted(q.(depth := DepthBehind(p, q.depth)), s)
  {
    hide EmbeddedQuotes.Quoted;
    if p.Escape? {
      EscapePass(q, p.c, s);
      assert q.(depth := q.depth) == q;
    } else {
      QuotePass(q, p.c, s);
    }
  }

  lemma {:induction false} QuotesPassKeyText(ps: seq<Piece>, q: State, rest: string) returns (r: State)
    requires q.mode.Inside? && !q.valueString && ArePieces(ps) && Quote !in ps
    ensures r == q.(mode := Outside, depth := DepthOver(ps, q.depth))
    ensures EmbeddedQuotes.Quoted(q, Pieces(ps, ['"'] + rest))
            == Pieces(QuotesEscaped(ps), ['"'] + EmbeddedQuotes.Quoted(r, rest))
    decreases |ps|
  {
    hide EmbeddedQuotes.Quoted, PieceText;
    if ps == [] {
      r := q.(mode := Outside);
      QuotePass(q, '"', rest);
    } else {
      assert ps[0] in ps && forall x | x in ps[1..] :: x in ps;
      PiecePass(q, ps[0], Pieces(ps[1..], ['"'] + rest));
      r := QuotesPassKeyText(ps[1..], q.(depth := DepthBehind(ps[0], q.depth)), rest);
      assert r == q.(mode := Outside, depth := DepthOver(ps, q.depth));
      assert QuotesEscaped(ps)[0] == ps[0] && QuotesEscaped(ps)[1..] == QuotesEscaped(ps[1..]);
    }
  }

  /** Behind blanks comes a byte that may follow a value. */
  ghost predicate FollowsValue(rest: string) {
    var r := SkipSpace(rest); r != "" && (r[0] == ',' || r[0] == '}' || r[0] == ']')
  }

  lemma BareQuotePass(ps: seq<Piece>, q: State, rest: string)
    requires q.mode.Inside? && q.valueString && ArePieces(ps) && (q.depth > 0 || !LooksEnded(ps))
    ensures var behind := Pieces(ps, ['"'] + rest);
            EmbeddedQuotes.Quoted(q, ['"'] + behind) == ['\\', '"'] + EmbeddedQuotes.Quoted(q, behind)
  {
    hide EmbeddedQuotes.Quoted;
    SeenBehind(ps, rest);
    QuotePass(q, '"', Pieces(ps, ['"'] + rest));
  }

  lemma {:induction false} QuotesPassValueText(ps: seq<Piece>, q: State, rest: string) returns (r: State)
    requires q.mode.Inside? && q.valueString && ArePieces(ps) && EndsOnlyAtItsEnd(ps, q.depth) && FollowsValue(rest)
    ensures r == q.(mode := Outside, depth := DepthOver(ps, q.depth))
    ensures EmbeddedQuotes.Quoted(q, Pieces(ps, ['"'] + rest))
            == Pieces(QuotesEscaped(ps), ['"'] + EmbeddedQuotes.Quoted(r, rest))
    decreases |ps|
  {
    hide EmbeddedQuotes.Quoted;
    if ps == [] {
      r := q.(mode := Outside);
      QuotePass(q, '"', rest);
    } else {
      var behind := Pieces(ps[1..], ['"'] + rest);
      assert ps[0] in ps && forall x | x in ps[1..] :: x in ps;
      r := QuotesPassValueText(ps[1..], q.(depth := DepthBehind(ps[0], q.depth)), rest);
      assert r == q.(mode := Outside, depth := DepthOver(ps, q.depth));
      assert QuotesEscaped(ps)[1..] == QuotesEscaped(ps[1..]);
      if ps[0] == Quote {
        BareQuotePass(ps[1..], q, rest);
        assert q.(depth := q.depth) == q;
      } else {
        PiecePass(q, ps[0], behind);
      }
    }
  }

  // ---------- keys, values, parts ----------

  lemma QuotesPassKey(key: Option<Key>, q: State, rest: string) returns (r: State)
    requires q.mode.Outside? && (key.Some? ==> IsKey(key.value) && !OpensValue(q.prev, InnermostIsArray(q.open)))
    ensures r.mode.Outside? && r.open == q.open && r.depth == DepthOfKey(key, q.depth)
    ensures r.prev == if key.Some? then ':' else q.prev
    ensures EmbeddedQuotes.Quoted(q, InFront(key, rest))
            == InFront(MapKey(key, QuotesEscaped), EmbeddedQuotes.Quoted(r, rest))
  {
    hide EmbeddedQuotes.Quoted, Blanks, Pieces, QuotesEscaped, DepthOver;
    r := q;
    if key.Some? {
      var k := key.value;
      var last := Blanks(k.after, rest);
      var middle := Blanks(k.before, [':'] + last);
      r := OutsidePass(r, '"', Pieces(k.pieces, ['"'] + middle));
      r := QuotesPassKeyText(k.pieces, r, middle);
      r := QuotesPassBlanks(k.before, r, [':'] + last);
      r := OutsidePass(r, ':', last);
      r := QuotesPassBlanks(k.after, r, rest);
    }
  }

  lemma {:induction false} QuotesPassValue(v: Json, q: State, rest: string) returns (r: State)
    requires IsJson(v) && IsReadable(v, q.depth) && q.mode.Outside? && FollowsValue(rest)
    requires v.Text? ==> OpensValue(q.prev, InnermostIsArray(q.open))
    ensures r.mode.Outside? && r.open == q.open && r.depth == DepthOf(v, q.depth)
    ensures EmbeddedQuotes.Quoted(q, Write(v, rest))
            == Write(MapText(v, QuotesEscaped), EmbeddedQuotes.Quoted(r, rest))
    decreases v, 0
  {
    hide EmbeddedQuotes.Quoted, Blanks, Pieces, QuotesEscaped, DepthOver, FollowsValue, EndsOnlyAtItsEnd;
    match v
    case Scalar(text) => r := QuotesPassScalar(text, q, rest);
    case Text(pieces) =>
      r := OutsidePass(q, '"', Pieces(pieces, ['"'] + rest));
      r := QuotesPassValueText(pieces, r, rest);
    case Container(square, parts, comma, blanks) =>
      var closed := [Closer(square)] + rest;
      r := OutsidePass(q, Opener(square), WriteParts(parts, Tail(comma, blanks, closed)));
      TailFollows(comma, blanks, square, rest);
      r := QuotesPassParts(square, parts, r, Tail(comma, blanks, closed));
      if comma {
        r := OutsidePass(r, ',', Blanks(blanks, closed));
      }
      r := QuotesPassBlanks(blanks, r, closed);
      r := OutsidePass(r, Closer(square), rest);
      assert r.open == q.open;
  }

  lemma TailFollows(comma: bool, blanks: seq<Blank>, square: bool, rest: string)
    ensures FollowsValue(Tail(comma, blanks, [Closer(square)] + rest))
  {
    SkipBlanks(blanks, [Closer(square)] + rest);
  }

  lemma {:induction false} QuotesPassParts(square: bool, p: Parts, q: State, rest: string) returns (r: State)
    requires AreParts(square, p) && AreReadable(p, q.depth) && q.mode.Outside? && FollowsValue(rest)
    requires q.open != "" && q.open[|q.open| - 1] == Opener(square) && (q.prev == Opener(square) || q.prev == ',')
    ensures r.mode.Outside? && r.open == q.open && r.depth == DepthOfParts(p, q.depth)
    ensures EmbeddedQuotes.Quoted(q, WriteParts(p, rest))
            == WriteParts(MapParts(p, QuotesEscaped), EmbeddedQuotes.Quoted(r, rest))
    decreases p, 0
  {
    hide EmbeddedQuotes.Quoted, Blanks, InFront, QuotesEscaped, FollowsValue;
    r := q;
    if p.Part? {
      var behind := if p.rest.End? then rest else [','] + WriteParts(p.rest, rest);
      var value := Write(p.value, Blanks(p.after, behind));
      BehindFollows(p, rest);
      r := QuotesPassBlanks(p.before, r, InFront(p.key, value));
      r := QuotesPassKey(p.key, r, value);
      r := QuotesPassValue(p.value, r, Blanks(p.after, behind));
      r := QuotesPassBlanks(p.after, r, behind);
      if p.rest.Part? {
        r := OutsidePass(r, ',', WriteParts(p.rest, rest));
        r := QuotesPassParts(square, p.rest, r, rest);
      }
    }
  }

  lemma BehindFollows(p: Parts, rest: string)
    requires p.Part? && FollowsValue(rest)
    ensures FollowsValue(Blanks(p.after, if p.rest.End? then rest else [','] + WriteParts(p.rest, rest)))
  {
    SkipBlanks(p.after, if p.rest.End? then rest else [','] + WriteParts(p.rest, rest));
  }

  /**
    A container whose string values hold bare quotes, in arrays and behind keys, comes out as the
    document with each of them escaped: every string it was meant to have, and no other.
   */
  lemma BareQuotesAreEscaped(v: Json)
    requires IsJson(v) && v.Container? && IsReadable(v, 0)
    ensures EmbeddedQuotes.Quoted(START, Document(v)) == Document(MapText(v, QuotesEscaped))
  {
    hide EmbeddedQuotes.Quoted, Blanks, QuotesEscaped, FollowsValue;
    var closed := [Closer(v.square)];
    assert closed + "" == closed;
    var parts := Tail(v.comma, v.blanks, closed);
    var r := OutsidePass(START, Opener(v.square), WriteParts(v.parts, parts));
    TailFollows(v.comma, v.blanks, v.square, "");
    r := QuotesPassParts(v.square, v.parts, r, parts);
    if v.comma {
      r := OutsidePass(r, ',', Blanks(v.blanks, closed));
    }
    r := QuotesPassBlanks(v.blanks, r, closed);
    r := OutsidePass(r, Closer(v.square), "");
    NothingQuoted(r);
  }

  lemma NothingQuoted(q: State)
    ensures EmbeddedQuotes.Quoted(q, "") == ""
  {
  }
}
