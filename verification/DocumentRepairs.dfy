/**
  What the repairs of internal/agents/decode.go make of whole documents: a document written with
  trailing commas, or with raw control characters in its strings, is turned into the same document
  written without them, and nothing else about it changes.
 */
module DocumentRepairs {
  import opened Options
  import opened JsonLexer
  import opened JsonDocuments
  import Truncation
  import ControlChars

  // ---------- first bytes ----------

  lemma {:induction false} SkipBlanks(g: seq<Blank>, rest: string)
    ensures SkipSpace(Blanks(g, rest)) == SkipSpace(rest)
  {
    if g != [] {
      SkipBlanks(g[1..], rest);
      var s := Blanks(g, rest);
      assert s[0] == BlankChar(g[0]) && s[1..] == Blanks(g[1..], rest);
    }
  }

  /** A value starts with a byte that is no blank, no comma and no closer. */
  lemma FirstOfValue(v: Json, rest: string)
    requires IsJson(v)
    ensures var s := Write(v, rest); s != "" && !IsSpace(s[0]) && s[0] != ',' && !IsCloser(s[0]) && SkipSpace(s) == s
  {
    if v.Scalar? {
      assert Write(v, rest)[0] == v.text[0] && v.text[0] in v.text;
    }
  }

  /** And so does a part, behind its blanks. */
  lemma FirstOfParts(square: bool, p: Parts, rest: string)
    requires AreParts(square, p) && p.Part?
    ensures var s := SkipSpace(WriteParts(p, rest)); s != "" && s[0] != ',' && !IsCloser(s[0])
  {
    var behind := Blanks(p.after, if p.rest.End? then rest else [','] + WriteParts(p.rest, rest));
    var value := Write(p.value, behind);
    FirstOfValue(p.value, behind);
    SkipBlanks(p.before, InFront(p.key, value));
    if p.key.Some? {
      assert KeyText(p.key.value, value)[0] == '"';
    }
  }

  // ---------- trailing commas ----------

  lemma CommaPass(m: Mode, c: char, s: string)
    ensures !(m.Outside? && c == ',') ==>
              Truncation.WithoutTrailingCommas(m, [c] + s) == [c] + Truncation.WithoutTrailingCommas(Next(m, c), s)
    ensures m.Outside? && c == ',' ==>
              Truncation.WithoutTrailingCommas(m, [c] + s)
              == (if Truncation.TrailingComma(s) then "" else [c]) + Truncation.WithoutTrailingCommas(m, s)
  {
    assert ([c] + s)[1..] == s;
  }

  lemma {:induction false} CommasPassBlanks(g: seq<Blank>, rest: string)
    ensures Truncation.WithoutTrailingCommas(Outside, Blanks(g, rest))
            == Blanks(g, Truncation.WithoutTrailingCommas(Outside, rest))
  {
    hide Truncation.WithoutTrailingCommas;
    if g != [] {
      CommaPass(Outside, BlankChar(g[0]), Blanks(g[1..], rest));
      CommasPassBlanks(g[1..], rest);
    }
  }

  lemma {:induction false} CommasPassScalar(text: string, rest: string)
    requires forall c | c in text :: IsScalarChar(c)
    ensures Truncation.WithoutTrailingCommas(Outside, text + rest)
            == text + Truncation.WithoutTrailingCommas(Outside, rest)
  {
    hide Truncation.WithoutTrailingCommas;
    if text == "" {
      assert text + rest == rest;
    } else {
      assert text[0] in text && text + rest == [text[0]] + (text[1..] + rest);
      CommaPass(Outside, text[0], text[1..] + rest);
      CommasPassScalar(text[1..], rest);
    }
  }

  lemma {:induction false} CommasPassPieces(ps: seq<Piece>, rest: string)
    requires ArePieces(ps) && Quote !in ps
    ensures Truncation.WithoutTrailingCommas(Inside, Pieces(ps, rest))
            == Pieces(ps, Truncation.WithoutTrailingCommas(Inside, rest))
  {
    hide Truncation.WithoutTrailingCommas;
    if ps != [] {
      var p, behind := ps[0], Pieces(ps[1..], rest);
      assert p in ps && forall x | x in ps[1..] :: x in ps;
      CommasPassPieces(ps[1..], rest);
      if p.Escape? {
        assert PieceText(p) + behind == ['\\'] + ([p.c] + behind);
        CommaPass(Inside, '\\', [p.c] + behind);
        CommaPass(Escaped, p.c, behind);
      } else {
        CommaPass(Inside, p.c, behind);
      }
    }
  }

  lemma CommasPassQuotes(ps: seq<Piece>, rest: string)
    requires ArePieces(ps) && Quote !in ps
    ensures Truncation.WithoutTrailingCommas(Outside, InQuotes(ps, rest))
            == InQuotes(ps, Truncation.WithoutTrailingCommas(Outside, rest))
  {
    hide Truncation.WithoutTrailingCommas;
    CommaPass(Outside, '"', Pieces(ps, ['"'] + rest));
    CommasPassPieces(ps, ['"'] + rest);
    CommaPass(Inside, '"', rest);
  }

  lemma CommasPassKey(key: Option<Key>, rest: string)
    requires key.Some? ==> IsKey(key.value)
    ensures Truncation.WithoutTrailingCommas(Outside, InFront(key, rest))
            == InFront(key, Truncation.WithoutTrailingCommas(Outside, rest))
  {
    hide Truncation.WithoutTrailingCommas, Blanks, InQuotes;
    if key.Some? {
      var k := key.value;
      CommasPassQuotes(k.pieces, Blanks(k.before, [':'] + Blanks(k.after, rest)));
      CommasPassBlanks(k.before, [':'] + Blanks(k.after, rest));
      CommaPass(Outside, ':', Blanks(k.after, rest));
      CommasPassBlanks(k.after, rest);
    }
  }

  lemma {:induction false} CommasPassValue(v: Json, rest: string)
    requires IsJson(v) && NoQuotes(v)
    ensures Truncation.WithoutTrailingCommas(Outside, Write(v, rest))
            == Write(Tidy(v), Truncation.WithoutTrailingCommas(Outside, rest))
    decreases v, 0
  {
    hide Truncation.WithoutTrailingCommas, InQuotes, Tail;
    match v
    case Scalar(text) => CommasPassScalar(text, rest);
    case Text(pieces) => CommasPassQuotes(pieces, rest);
    case Container(square, parts, comma, blanks) =>
      var end := Tail(comma, blanks, [Closer(square)] + rest);
      CommaPass(Outside, Opener(square), WriteParts(parts, end));
      CommasPassParts(square, parts, end);
      CommasPassTail(comma, blanks, square, rest);
  }

  lemma CommasPassTail(comma: bool, blanks: seq<Blank>, square: bool, rest: string)
    ensures Truncation.WithoutTrailingCommas(Outside, Tail(comma, blanks, [Closer(square)] + rest))
            == Tail(false, blanks, [Closer(square)] + Truncation.WithoutTrailingCommas(Outside, rest))
  {
    hide Truncation.WithoutTrailingCommas;
    var closed := [Closer(square)] + rest;
    CommasPassBlanks(blanks, closed);
    CommaPass(Outside, Closer(square), rest);
    if comma {
      CommaPass(Outside, ',', Blanks(blanks, closed));
      SkipBlanks(blanks, closed);
      assert SkipSpace(closed) == closed && IsCloser(closed[0]);
    }
  }

  lemma {:induction false} CommasPassParts(square: bool, p: Parts, rest: string)
    requires AreParts(square, p) && NoQuotesIn(p)
    ensures Truncation.WithoutTrailingCommas(Outside, WriteParts(p, rest))
            == WriteParts(TidyParts(p), Truncation.WithoutTrailingCommas(Outside, rest))
    decreases p, 0
  {
    hide Truncation.WithoutTrailingCommas, Blanks, InFront;
    if p.Part? {
      var behind := if p.rest.End? then rest else [','] + WriteParts(p.rest, rest);
      CommasPassBlanks(p.before, InFront(p.key, Write(p.value, Blanks(p.after, behind))));
      CommasPassKey(p.key, Write(p.value, Blanks(p.after, behind)));
      CommasPassValue(p.value, Blanks(p.after, behind));
      CommasPassBlanks(p.after, behind);
      if p.rest.Part? {
        CommasPassParts(square, p.rest, rest);
        CommaPass(Outside, ',', WriteParts(p.rest, rest));
        FirstOfParts(square, p.rest, rest);
      }
    }
  }

  /** A document written with commas in front of closers comes out as the document without them. */
  lemma TrailingCommasGo(v: Json)
    requires IsJson(v) && NoQuotes(v)
    ensures Truncation.WithoutTrailingCommas(Outside, Document(v)) == Document(Tidy(v))
  {
    CommasPassValue(v, "");
    assert Truncation.WithoutTrailingCommas(Outside, "") == "";
  }

  // ---------- raw control characters ----------

  /** The escape RFC 8259 has for a control character: a short one for three of them, four digits for the others. */
  function EscapedControl(c: char): seq<Piece>
    requires (c as int) < 0x20
  {
    if c as int == 10 then [Escape('n')]
    else if c as int == 13 then [Escape('r')]
    else if c as int == 9 then [Escape('t')]
    else
      [Escape('u'), Plain('0'), Plain('0'), Plain("0123456789abcdef"[c as int / 16]),
       Plain("0123456789abcdef"[c as int % 16])]
  }

  function EscapedControls(ps: seq<Piece>): seq<Piece> {
    if ps == [] then []
    else
      (if ps[0].Raw? && (ps[0].c as int) < 0x20 then EscapedControl(ps[0].c) else [ps[0]]) + EscapedControls(ps[1..])
  }

  lemma ControlPass(m: Mode, c: char, s: string)
    ensures ControlChars.ControlsEscaped(m, [c] + s)
            == ControlChars.ControlStep(m, c) + ControlChars.ControlsEscaped(Next(m, c), s)
  {
    assert ([c] + s)[1..] == s;
  }

  lemma {:induction false} ControlsPassBlanks(g: seq<Blank>, rest: string)
    ensures ControlChars.ControlsEscaped(Outside, Blanks(g, rest))
            == Blanks(g, ControlChars.ControlsEscaped(Outside, rest))
  {
    hide ControlChars.ControlsEscaped;
    if g != [] {
      ControlPass(Outside, BlankChar(g[0]), Blanks(g[1..], rest));
      ControlsPassBlanks(g[1..], rest);
    }
  }

  lemma {:induction false} ControlsPassScalar(text: string, rest: string)
    requires forall c | c in text :: IsScalarChar(c)
    ensures ControlChars.ControlsEscaped(Outside, text + rest)
            == text + ControlChars.ControlsEscaped(Outside, rest)
  {
    hide ControlChars.ControlsEscaped;
    if text == "" {
      assert text + rest == rest;
    } else {
      assert text[0] in text && text + rest == [text[0]] + (text[1..] + rest);
      ControlPass(Outside, text[0], text[1..] + rest);
      ControlsPassScalar(text[1..], rest);
    }
  }

  lemma {:induction false} PiecesConcat(a: seq<Piece>, b: seq<Piece>, rest: string)
    ensures Pieces(a + b, rest) == Pieces(a, Pieces(b, rest))
  {
    if a == [] {
      assert a + b == b;
    } else {
      assert (a + b)[1..] == a[1..] + b;
      PiecesConcat(a[1..], b, rest);
    }
  }

  lemma ControlIsWritten(c: char, rest: string)
    requires (c as int) < 0x20
    ensures ControlChars.IsControl(c) && ControlChars.ControlEscape(c) + rest == Pieces(EscapedControl(c), rest)
  {
    var ps := EscapedControl(c);
    if |ps| == 1 {
      assert ps[1..] == [];
    } else {
      FivePieces(ps, rest);
      var hex := "0123456789abcdef";
      assert ControlChars.ControlEscape(c) == "\\u00" + [hex[c as int / 16], hex[c as int % 16]];
    }
  }

  lemma FivePieces(ps: seq<Piece>, rest: string)
    requires |ps| == 5
    ensures Pieces(ps, rest)
            == PieceText(ps[0]) + PieceText(ps[1]) + PieceText(ps[2]) + PieceText(ps[3]) + PieceText(ps[4]) + rest
  {
    hide PieceText, Pieces;
    var a, b, c, d, e := ps[0], ps[1], ps[2], ps[3], ps[4];
    assert ps == [a] + [b, c, d, e] && [b, c, d, e] == [b] + [c, d, e];
    assert [c, d, e] == [c] + [d, e] && [d, e] == [d] + [e];
    FirstPiece(a, [b, c, d, e], rest);
    FirstPiece(b, [c, d, e], rest);
    FirstPiece(c, [d, e], rest);
    FirstPiece(d, [e], rest);
    OnePiece(e, rest);
    var last := PieceText(e) + rest;
    assert PieceText(a) + (PieceText(b) + (PieceText(c) + (PieceText(d) + last)))
        == PieceText(a) + PieceText(b) + PieceText(c) + PieceText(d) + PieceText(e) + rest;
  }

  lemma FirstPiece(p: Piece, ps: seq<Piece>, rest: string)
    ensures Pieces([p] + ps, rest) == PieceText(p) + Pieces(ps, rest)
  {
    assert ([p] + ps)[1..] == ps;
  }

  lemma {:induction false} ControlsPassPieces(ps: seq<Piece>, rest: string)
    requires ArePieces(ps) && Quote !in ps
    ensures ControlChars.ControlsEscaped(Inside, Pieces(ps, rest))
            == Pieces(EscapedControls(ps), ControlChars.ControlsEscaped(Inside, rest))
  {
    hide ControlChars.ControlsEscaped, EscapedControl, PieceText, IsPiece;
    if ps != [] {
      var p, behind := ps[0], Pieces(ps[1..], rest);
      var after := ControlChars.ControlsEscaped(Inside, rest);
      assert p in ps && forall x | x in ps[1..] :: x in ps;
      ControlsPassPieces(ps[1..], rest);
      FirstEscaped(ps);
      PiecesConcat(EscapedPiece(p), EscapedControls(ps[1..]), after);
      ControlsPassPiece(p, behind);
      assert ControlChars.ControlsEscaped(Inside, behind) == Pieces(EscapedControls(ps[1..]), after);
    }
  }

  function EscapedPiece(p: Piece): seq<Piece> {
    if p.Raw? && (p.c as int) < 0x20 then EscapedControl(p.c) else [p]
  }

  lemma FirstEscaped(ps: seq<Piece>)
    requires ps != []
    ensures EscapedControls(ps) == EscapedPiece(ps[0]) + EscapedControls(ps[1..])
  {
  }

  lemma ControlsPassPiece(p: Piece, behind: string)
    requires IsPiece(p) && p != Quote
    ensures ControlChars.ControlsEscaped(Inside, PieceText(p) + behind)
            == Pieces(EscapedPiece(p), ControlChars.ControlsEscaped(Inside, behind))
  {
    hide ControlChars.ControlsEscaped, EscapedControl, ControlChars.ControlEscape;
    var after := ControlChars.ControlsEscaped(Inside, behind);
    OnePiece(p, after);
    match p {
      case Plain(c) => ControlPass(Inside, c, behind);
      case Escape(c) =>
        assert PieceText(p) + behind == ['\\'] + ([c] + behind);
        ControlPass(Inside, '\\', [c] + behind);
        ControlPass(Escaped, c, behind);
      case Raw(c) =>
        ControlIsWritten(c, after);
        ControlPass(Inside, c, behind);
    }
  }

  lemma OnePiece(p: Piece, rest: string)
    ensures Pieces([p], rest) == PieceText(p) + rest
  {
    assert [p][1..] == [];
  }

  lemma ControlsPassQuotes(ps: seq<Piece>, rest: string)
    requires ArePieces(ps) && Quote !in ps
    ensures ControlChars.ControlsEscaped(Outside, InQuotes(ps, rest))
            == InQuotes(EscapedControls(ps), ControlChars.ControlsEscaped(Outside, rest))
  {
    hide ControlChars.ControlsEscaped;
    ControlPass(Outside, '"', Pieces(ps, ['"'] + rest));
    ControlsPassPieces(ps, ['"'] + rest);
    ControlPass(Inside, '"', rest);
  }

  lemma ControlsPassKey(key: Option<Key>, rest: string)
    requires key.Some? ==> IsKey(key.value)
    ensures ControlChars.ControlsEscaped(Outside, InFront(key, rest))
            == InFront(MapKey(key, EscapedControls), ControlChars.ControlsEscaped(Outside, rest))
  {
    hide ControlChars.ControlsEscaped, Blanks, InQuotes, EscapedControls;
    if key.Some? {
      var k := key.value;
      ControlsPassQuotes(k.pieces, Blanks(k.before, [':'] + Blanks(k.after, rest)));
      ControlsPassBlanks(k.before, [':'] + Blanks(k.after, rest));
      ControlPass(Outside, ':', Blanks(k.after, rest));
      ControlsPassBlanks(k.after, rest);
    }
  }

  lemma {:induction false} ControlsPassValue(v: Json, rest: string)
    requires IsJson(v) && NoQuotes(v)
    ensures ControlChars.ControlsEscaped(Outside, Write(v, rest))
            == Write(MapText(v, EscapedControls), ControlChars.ControlsEscaped(Outside, rest))
    decreases v, 0
  {
    hide ControlChars.ControlsEscaped, InQuotes, Blanks, EscapedControls;
    match v
    case Scalar(text) => ControlsPassScalar(text, rest);
    case Text(pieces) => ControlsPassQuotes(pieces, rest);
    case Container(square, parts, comma, blanks) =>
      var closed := [Closer(square)] + rest;
      ControlPass(Outside, Opener(square), WriteParts(parts, Tail(comma, blanks, closed)));
      ControlsPassParts(square, parts, Tail(comma, blanks, closed));
      ControlPass(Outside, ',', Blanks(blanks, closed));
      ControlsPassBlanks(blanks, closed);
      ControlPass(Outside, Closer(square), rest);
  }

  lemma {:induction false} ControlsPassParts(square: bool, p: Parts, rest: string)
    requires AreParts(square, p) && NoQuotesIn(p)
    ensures ControlChars.ControlsEscaped(Outside, WriteParts(p, rest))
            == WriteParts(MapParts(p, EscapedControls), ControlChars.ControlsEscaped(Outside, rest))
    decreases p, 0
  {
    hide ControlChars.ControlsEscaped, Blanks, InFront, EscapedControls;
    if p.Part? {
      var behind := if p.rest.End? then rest else [','] + WriteParts(p.rest, rest);
      ControlsPassBlanks(p.before, InFront(p.key, Write(p.value, Blanks(p.after, behind))));
      ControlsPassKey(p.key, Write(p.value, Blanks(p.after, behind)));
      ControlsPassValue(p.value, Blanks(p.after, behind));
      ControlsPassBlanks(p.after, behind);
      if p.rest.Part? {
        ControlsPassParts(square, p.rest, rest);
        ControlPass(Outside, ',', WriteParts(p.rest, rest));
      }
    }
  }

  /**
    A document whose strings hold raw control characters comes out as the document with each of them
    escaped, and holds none any more.
   */
  lemma RawControlsAreEscaped(v: Json)
    requires IsJson(v) && NoQuotes(v)
    ensures ControlChars.ControlsEscaped(Outside, Document(v)) == Document(MapText(v, EscapedControls))
    ensures IsStrict(MapText(v, EscapedControls))
  {
    hide EscapedControls;
    ControlsPassValue(v, "");
    EscapedIsStrict(v);
  }

  /** Every string holds plain characters and escapes alone. */
  predicate IsStrict(v: Json)
    decreases v
  {
    match v
    case Scalar(_) => true
    case Text(pieces) => AreStrict(pieces)
    case Container(_, parts, _, _) => IsStrictIn(parts)
  }

  predicate IsStrictIn(p: Parts)
    decreases p
  {
    p.Part? ==> (p.key.Some? ==> AreStrict(p.key.value.pieces)) && IsStrict(p.value) && IsStrictIn(p.rest)
  }

  predicate AreStrict(ps: seq<Piece>) {
    forall p | p in ps :: IsPiece(p) && (p.Plain? || p.Escape?)
  }

  lemma {:induction false} EscapedAreStrict(ps: seq<Piece>)
    requires ArePieces(ps) && Quote !in ps
    ensures AreStrict(EscapedControls(ps))
  {
    hide EscapedControl, EscapedPiece, IsPiece;
    if ps != [] {
      assert ps[0] in ps && forall x | x in ps[1..] :: x in ps;
      EscapedAreStrict(ps[1..]);
      FirstEscaped(ps);
      PieceIsStrict(ps[0]);
    }
  }

  lemma PieceIsStrict(p: Piece)
    requires IsPiece(p) && p != Quote
    ensures AreStrict(EscapedPiece(p))
  {
    hide EscapedControl;
    if p.Raw? {
      ControlIsStrict(p.c);
    }
  }

  lemma ControlIsStrict(c: char)
    requires (c as int) < 0x20
    ensures AreStrict(EscapedControl(c))
  {
    if |EscapedControl(c)| > 1 {
      HexIsPlain(c as int / 16);
      HexIsPlain(c as int % 16);
    }
  }

  lemma HexIsPlain(n: nat)
    requires n < 16
    ensures var c := "0123456789abcdef"[n]; c as int >= 0x20 && c != '"' && c != '\\'
  {
  }

  lemma {:induction false} EscapedIsStrict(v: Json)
    requires IsJson(v) && NoQuotes(v)
    ensures IsStrict(MapText(v, EscapedControls))
    decreases v, 0
  {
    hide EscapedControls, AreStrict;
    match v
    case Scalar(_) =>
    case Text(pieces) => EscapedAreStrict(pieces);
    case Container(square, parts, _, _) => EscapedIsStrictIn(square, parts);
  }

  lemma {:induction false} EscapedIsStrictIn(square: bool, p: Parts)
    requires AreParts(square, p) && NoQuotesIn(p)
    ensures IsStrictIn(MapParts(p, EscapedControls))
    decreases p, 0
  {
    hide EscapedControls, AreStrict;
    if p.Part? {
      if p.key.Some? {
        EscapedAreStrict(p.key.value.pieces);
      }
      EscapedIsStrict(p.value);
      EscapedIsStrictIn(square, p.rest);
    }
  }
}
