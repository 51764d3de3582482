/**
  JSON documents as they are written down (RFC 8259), with the white space and the damage a model's
  answer may have: raw control characters and bare quotes in strings, commas in front of closers.
  The scanners of internal/agents/decode.go are judged by what they make of such a text.

  Every function here writes its part in front of the text that follows it.
 */
module JsonDocuments {
  import opened Options

  datatype Blank = Space | Tab | LineFeed | Return

  /** A piece of a string: a character, a backslash and a character, a raw control, or a bare quote. */
  datatype Piece = Plain(c: char) | Escape(c: char) | Raw(c: char) | Quote

  datatype Key = Key(pieces: seq<Piece>, before: seq<Blank>, after: seq<Blank>)

  /**
    A number or literal, a string, or a container. A container is an array or an object, may have a
    comma behind its last part, and blanks in front of its closer.
   */
  datatype Json =
    | Scalar(text: string)
    | Text(pieces: seq<Piece>)
    | Container(square: bool, parts: Parts, comma: bool, blanks: seq<Blank>)

  /** Elements of an array, or members of an object, which have keys. */
  datatype Parts = End | Part(before: seq<Blank>, key: Option<Key>, value: Json, after: seq<Blank>, rest: Parts)

  // ---------- writing ----------

  function BlankChar(b: Blank): char {
    match b
    case Space => ' '
    case Tab => '\t'
    case LineFeed => '\n'
    case Return => '\r'
  }

  function Blanks(g: seq<Blank>, rest: string): string {
    if g == [] then rest else [BlankChar(g[0])] + Blanks(g[1..], rest)
  }

  function PieceText(p: Piece): string {
    match p
    case Plain(c) => [c]
    case Escape(c) => ['\\', c]
    case Raw(c) => [c]
    case Quote => ['"']
  }

  function Pieces(ps: seq<Piece>, rest: string): string {
    if ps == [] then rest else PieceText(ps[0]) + Pieces(ps[1..], rest)
  }

  function InQuotes(ps: seq<Piece>, rest: string): string {
    ['"'] + Pieces(ps, ['"'] + rest)
  }

  function KeyText(k: Key, rest: string): string {
    InQuotes(k.pieces, Blanks(k.before, [':'] + Blanks(k.after, rest)))
  }

  function InFront(key: Option<Key>, rest: string): string {
    if key.Some? then KeyText(key.value, rest) else rest
  }

  function Opener(square: bool): char {
    if square then '[' else '{'
  }

  function Closer(square: bool): char {
    if square then ']' else '}'
  }

  function Write(v: Json, rest: string): string
    decreases v
  {
    match v
    case Scalar(text) => text + rest
    case Text(pieces) => InQuotes(pieces, rest)
    case Container(square, parts, comma, blanks) =>
      [Opener(square)] + WriteParts(parts, Tail(comma, blanks, [Closer(square)] + rest))
  }

  function WriteParts(p: Parts, rest: string): string
    decreases p
  {
    match p
    case End => rest
    case Part(before, key, value, after, more) =>
      Blanks(before, InFront(key, Write(value, Blanks(after,
        if more.End? then rest else [','] + WriteParts(more, rest)))))
  }

  function Tail(comma: bool, blanks: seq<Blank>, rest: string): string {
    if comma then [','] + Blanks(blanks, rest) else Blanks(blanks, rest)
  }

  function Document(v: Json): string {
    Write(v, "")
  }

  // ---------- well-formed documents ----------

  /** A character a number or a literal may hold. */
  predicate IsScalarChar(c: char) {
    '0' <= c <= '9' || 'a' <= c <= 'z' || c == 'E' || c == '-' || c == '+' || c == '.'
  }

  predicate IsPiece(p: Piece) {
    match p
    case Plain(c) => c as int >= 0x20 && c != '"' && c != '\\'
    case Escape(c) => c as int >= 0x20
    case Raw(c) => (c as int) < 0x20
    case Quote => true
  }

  predicate ArePieces(ps: seq<Piece>) {
    forall p | p in ps :: IsPiece(p)
  }

  /** A key has no bare quote: nothing could tell it from the end of the key. */
  predicate IsKey(k: Key) {
    ArePieces(k.pieces) && Quote !in k.pieces
  }

  predicate IsJson(v: Json)
    decreases v
  {
    match v
    case Scalar(text) => text != "" && forall c | c in text :: IsScalarChar(c)
    case Text(pieces) => ArePieces(pieces)
    case Container(square, parts, _, _) => AreParts(square, parts)
  }

  predicate AreParts(square: bool, p: Parts)
    decreases p
  {
    match p
    case End => true
    case Part(_, key, value, _, more) =>
      && (if square then key.None? else key.Some? && IsKey(key.value)) && IsJson(value) && AreParts(square, more)
  }

  /** What a rewrite of strings makes of a document. */
  function MapText(v: Json, f: seq<Piece> -> seq<Piece>): Json
    decreases v
  {
    match v
    case Scalar(text) => v
    case Text(pieces) => Text(f(pieces))
    case Container(square, parts, comma, blanks) => Container(square, MapParts(parts, f), comma, blanks)
  }

  function MapParts(p: Parts, f: seq<Piece> -> seq<Piece>): Parts
    decreases p
  {
    match p
    case End => End
    case Part(before, key, value, after, more) =>
      Part(before, MapKey(key, f), MapText(value, f), after, MapParts(more, f))
  }

  function MapKey(key: Option<Key>, f: seq<Piece> -> seq<Piece>): Option<Key> {
    if key.Some? then Some(key.value.(pieces := f(key.value.pieces))) else None
  }

  /** The document without commas in front of closers. */
  function Tidy(v: Json): Json
    decreases v
  {
    match v
    case Container(square, parts, comma, blanks) => Container(square, TidyParts(parts), false, blanks)
    case _ => v
  }

  function TidyParts(p: Parts): Parts
    decreases p
  {
    match p
    case End => End
    case Part(before, key, value, after, more) => Part(before, key, Tidy(value), after, TidyParts(more))
  }

  /** No string holds a bare quote. */
  predicate NoQuotes(v: Json)
    decreases v
  {
    match v
    case Scalar(_) => true
    case Text(pieces) => Quote !in pieces
    case Container(_, parts, _, _) => NoQuotesIn(parts)
  }

  predicate NoQuotesIn(p: Parts)
    decreases p
  {
    p.Part? ==> NoQuotes(p.value) && NoQuotesIn(p.rest)
  }
}
