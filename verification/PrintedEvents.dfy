/**
  Event streams as they are written down (section 9.2.6 of the WHATWG HTML Living Standard), and
  what the filter of internal/agents/sse.go makes of them: each line may end in a newline or in a
  carriage return and a newline, and a value may stand with or without a space behind the colon.
 */
module PrintedEvents {
  import opened EventFilter
  import Text

  datatype Separator = NoColon | Colon | ColonSpace
  datatype Ending = Lf | CrLf

  datatype FieldLine = FieldLine(name: string, separator: Separator, value: string, ending: Ending)

  /** The lines of an event, and how the blank line behind them ends. */
  datatype Event = Event(fields: seq<FieldLine>, ending: Ending)

  function EndingText(ending: Ending): string {
    match ending
    case Lf => "\n"
    case CrLf => "\r\n"
  }

  function SeparatorText(separator: Separator): string {
    match separator
    case NoColon => ""
    case Colon => ":"
    case ColonSpace => ": "
  }

  function FieldText(f: FieldLine): string {
    f.name + SeparatorText(f.separator) + f.value
  }

  function PrintedField(f: FieldLine): string {
    FieldText(f) + EndingText(f.ending)
  }

  function PrintedFields(fields: seq<FieldLine>): string {
    if fields == [] then ""
    else PrintedFields(fields[..|fields| - 1]) + PrintedField(fields[|fields| - 1])
  }

  function PrintedEvent(e: Event): string {
    PrintedFields(e.fields) + EndingText(e.ending)
  }

  function PrintedBody(events: seq<Event>): string {
    if events == [] then "" else PrintedEvent(events[0]) + PrintedBody(events[1..])
  }

  /** The line says one thing only: its name ends at its colon, its value at its own ending. */
  ghost predicate IsFieldLine(f: FieldLine) {
    && FieldText(f) != "" && '\n' !in FieldText(f) && ':' !in f.name
    && (f.separator.NoColon? ==> f.value == "")
    && (f.separator.Colon? ==> !(" " <= f.value))
    && (f.ending.Lf? ==> FieldText(f)[|FieldText(f)| - 1] != '\r')
  }

  ghost predicate IsEvent(e: Event) {
    forall f | f in e.fields :: IsFieldLine(f)
  }

  ghost predicate AreEvents(events: seq<Event>) {
    forall e | e in events :: IsEvent(e)
  }

  // ---------- what an event says ----------

  predicate CarriesData(e: Event) {
    exists f :: f in e.fields && f.name == "data"
  }

  /** The values of the data lines, each with a newline. */
  function DataOf(fields: seq<FieldLine>): string {
    if fields == [] then ""
    else
      var f := fields[|fields| - 1];
      DataOf(fields[..|fields| - 1]) + if f.name == "data" then f.value + "\n" else ""
  }

  /** The value of the last event line. */
  function NameOf(fields: seq<FieldLine>): string {
    if fields == [] then ""
    else
      var f := fields[|fields| - 1];
      if f.name == "event" then f.value else NameOf(fields[..|fields| - 1])
  }

  function WithData(events: seq<Event>): seq<Event> {
    if events == [] then []
    else (if CarriesData(events[0]) then [events[0]] else []) + WithData(events[1..])
  }

  predicate IsOfKind(kind: Classifier, e: Event, wanted: Kind) {
    CarriesData(e) && kind(DataOf(e.fields), NameOf(e.fields)) == wanted
  }

  predicate SomeEvent(kind: Classifier, events: seq<Event>, wanted: Kind) {
    exists e :: e in events && IsOfKind(kind, e, wanted)
  }

  // ---------- lines read back ----------

  function Meaning(f: FieldLine): Field {
    if f.name == "data" then Data(f.value) else if f.name == "event" then Name(f.value) else Other
  }

  lemma {:induction false} ColonAt(s: string, k: nat)
    requires k < |s| && s[k] == ':' && forall j | 0 <= j < k :: s[j] != ':'
    ensures IndexOf(s, ':') == k
  {
    if k > 0 {
      ColonAt(s[1..], k - 1);
    }
  }

  lemma {:induction false} NoColonIn(s: string)
    requires ':' !in s
    ensures IndexOf(s, ':') == -1
  {
    if s != "" {
      NoColonIn(s[1..]);
    }
  }

  /** What is left of a line without its ending, whichever it is. */
  lemma EndingStripped(content: string, ending: Ending)
    requires '\n' !in content && (ending.Lf? ==> content == "" || content[|content| - 1] != '\r')
    ensures TrimSuffix(TrimSuffix(content + EndingText(ending), '\n'), '\r') == content
  {
    if ending.Lf? {
      assert (content + "\n")[..|content|] == content;
    } else {
      var s := content + "\r\n";
      assert s[..|s| - 1] == content + "\r" && (content + "\r")[..|content|] == content;
    }
  }

  /** A printed field reads as that field: with either ending, with and without the space, and without a colon. */
  lemma FieldReadsBack(f: FieldLine)
    requires IsFieldLine(f)
    ensures Parse(PrintedField(f)) == Meaning(f)
  {
    hide TrimSuffix, IndexOf;
    EndingStripped(FieldText(f), f.ending);
    ColonOfField(f);
  }

  /** Where the name of a field ends, and what value stands behind it. */
  lemma ColonOfField(f: FieldLine)
    requires IsFieldLine(f)
    ensures var content := FieldText(f); var colon := IndexOf(content, ':');
            && f.name == (if colon < 0 then content else content[..colon])
            && var rest := if colon < 0 then "" else content[colon + 1..];
               f.value == if rest != "" && rest[0] == ' ' then rest[1..] else rest
  {
    hide IndexOf;
    var content := FieldText(f);
    if f.separator.NoColon? {
      assert content == f.name;
      NoColonIn(content);
    } else {
      var rest := if f.separator.Colon? then f.value else " " + f.value;
      assert content == f.name + ":" + rest;
      ColonBehind(f.name, rest);
      assert f.separator.ColonSpace? ==> rest[1..] == f.value;
    }
  }

  lemma ColonBehind(name: string, rest: string)
    requires ':' !in name
    ensures var s := name + ":" + rest;
            IndexOf(s, ':') == |name| && s[..|name|] == name && s[|name| + 1..] == rest
  {
    var s := name + ":" + rest;
    forall j | 0 <= j < |name| ensures s[j] != ':' {
      assert s[j] == name[j] && name[j] in name;
    }
    ColonAt(s, |name|);
  }

  /** A line is blank exactly when nothing stands in front of its ending. */
  lemma BlankLineIff(content: string)
    requires '\n' !in content
    ensures Parse(content + "\n").Blank? <==> content == "" || content == "\r"
  {
    var line := content + "\n";
    assert line[..|content|] == content;
    assert TrimSuffix(content, '\r') == "" <==> content == "" || content == "\r";
  }

  lemma BlankReadsBack(ending: Ending)
    ensures Parse(EndingText(ending)) == Blank
  {
    EndingStripped("", ending);
    assert "" + EndingText(ending) == EndingText(ending);
  }

  function FieldLines(fields: seq<FieldLine>): seq<Line> {
    seq(|fields|, i requires 0 <= i < |fields| => Line(PrintedField(fields[i]), Meaning(fields[i])))
  }

  function EventLines(e: Event): seq<Line> {
    FieldLines(e.fields) + [Line(EndingText(e.ending), Blank)]
  }

  /** One line in front of any text. */
  lemma LineInFront(content: string, ending: Ending, rest: string)
    requires '\n' !in content
    ensures LinesOf(content + EndingText(ending) + rest)
            == [EventFilter.Read(content + EndingText(ending))] + LinesOf(rest)
  {
    var line, s := content + EndingText(ending), content + EndingText(ending) + rest;
    var end := |line| - 1;
    assert s[..end + 1] == line && s[end + 1..] == rest;
    forall k | 0 <= k < end ensures s[k] != '\n' {
      if k < |content| {
        assert s[k] == content[k] && content[k] in content;
      }
    }
    FirstLine(s, end);
  }

  lemma {:induction false} FieldsInFront(fields: seq<FieldLine>, rest: string)
    requires forall f | f in fields :: IsFieldLine(f)
    ensures LinesOf(PrintedFields(fields) + rest) == FieldLines(fields) + LinesOf(rest)
    decreases |fields|
  {
    hide LinesOf, Parse, IsFieldLine, Meaning;
    if fields == [] {
      assert PrintedFields(fields) + rest == rest && FieldLines(fields) == [];
    } else {
      var front, f := fields[..|fields| - 1], fields[|fields| - 1];
      assert f in fields && forall x | x in front :: x in fields;
      Text.Associative(PrintedFields(front), PrintedField(f), rest);
      FieldsInFront(front, PrintedField(f) + rest);
      FieldInFront(f, rest);
      assert FieldLines(fields) == FieldLines(front) + [Line(PrintedField(f), Meaning(f))];
    }
  }

  lemma FieldInFront(f: FieldLine, rest: string)
    requires IsFieldLine(f)
    ensures LinesOf(PrintedField(f) + rest) == [Line(PrintedField(f), Meaning(f))] + LinesOf(rest)
  {
    hide LinesOf, Parse;
    LineInFront(FieldText(f), f.ending, rest);
    FieldReadsBack(f);
  }

  lemma EventInFront(e: Event, rest: string)
    requires IsEvent(e)
    ensures LinesOf(PrintedEvent(e) + rest) == EventLines(e) + LinesOf(rest)
  {
    hide LinesOf, Parse, FieldLines, PrintedFields, IsFieldLine;
    var blank := EndingText(e.ending);
    Text.Associative(PrintedFields(e.fields), blank, rest);
    FieldsInFront(e.fields, blank + rest);
    LineInFront("", e.ending, rest);
    assert "" + blank == blank;
    BlankReadsBack(e.ending);
    Text.Associative(FieldLines(e.fields), [Line(blank, Blank)], LinesOf(rest));
  }

  // ---------- events read back ----------

  lemma {:induction false} FieldsSay(fields: seq<FieldLine>)
    ensures Concat(FieldLines(fields)) == PrintedFields(fields)
    ensures Payload(FieldLines(fields)) == DataOf(fields) && EventName(FieldLines(fields)) == NameOf(fields)
    decreases |fields|
  {
    hide PrintedField;
    if fields != [] {
      var lines := FieldLines(fields);
      FieldsSay(fields[..|fields| - 1]);
      assert lines[..|lines| - 1] == FieldLines(fields[..|fields| - 1]);
    }
  }

  lemma DataIsCarried(fields: seq<FieldLine>)
    ensures HasData(FieldLines(fields)) <==> exists f :: f in fields && f.name == "data"
  {
    hide PrintedField;
    var lines := FieldLines(fields);
    if HasData(lines) {
      var i :| 0 <= i < |lines| && lines[i].field.Data?;
      assert fields[i] in fields;
    }
    if f :| f in fields && f.name == "data" {
      var i :| 0 <= i < |fields| && fields[i] == f;
      assert lines[i].field.Data?;
    }
  }

  lemma EventSays(e: Event)
    ensures var lines := EventLines(e);
            && IsClosed(lines) && lines[..|lines| - 1] == FieldLines(e.fields)
            && (forall k | 0 <= k < |lines| - 1 :: !lines[k].field.Blank?)
            && Concat(lines) == PrintedEvent(e) && (HasData(lines) <==> CarriesData(e))
  {
    hide PrintedField, PrintedFields;
    FieldsSay(e.fields);
    DataIsCarried(e.fields);
    HasDataSnoc(EventLines(e));
  }

  lemma EventIsClassified(kind: Classifier, e: Event, wanted: Kind)
    ensures Classifies(kind, EventLines(e), wanted) <==> IsOfKind(kind, e, wanted)
  {
    hide HasData, Payload, EventName, CarriesData;
    EventSays(e);
    FieldsSay(e.fields);
  }

  lemma {:induction false} ClosedEventLength(event: seq<Line>, rest: seq<Line>)
    requires IsClosed(event) && forall k | 0 <= k < |event| - 1 :: !event[k].field.Blank?
    ensures EventLength(event + rest) == |event|
    ensures (event + rest)[..|event|] == event && (event + rest)[|event|..] == rest
    decreases |event|
  {
    if |event| > 1 {
      assert (event + rest)[1..] == event[1..] + rest;
      ClosedEventLength(event[1..], rest);
    }
  }

  lemma EventFirst(kind: Classifier, e: Event, rest: seq<Line>)
    ensures KeptEvents(EventLines(e) + rest) == (if CarriesData(e) then PrintedEvent(e) else "") + KeptEvents(rest)
    ensures forall wanted ::
              Dispatched(kind, EventLines(e) + rest, wanted)
              <==> IsOfKind(kind, e, wanted) || Dispatched(kind, rest, wanted)
  {
    hide HasData, Concat, CarriesData, IsOfKind, Classifies;
    var lines := EventLines(e) + rest;
    EventSays(e);
    ClosedEventLength(EventLines(e), rest);
    forall wanted ensures Classifies(kind, EventLines(e), wanted) <==> IsOfKind(kind, e, wanted) {
      EventIsClassified(kind, e, wanted);
    }
  }

  lemma NothingPrinted(kind: Classifier)
    ensures KeptEvents(LinesOf("")) == "" && forall wanted :: !Dispatched(kind, LinesOf(""), wanted)
  {
  }

  /**
    A printed body, however its lines end: exactly the events with a data line are kept, byte for
    byte, and each is classified by its joined data and its last name.
   */
  lemma {:induction false} PrintedBodyIsFiltered(kind: Classifier, events: seq<Event>)
    requires AreEvents(events)
    ensures KeptEvents(LinesOf(PrintedBody(events))) == PrintedBody(WithData(events))
    ensures forall wanted :: Dispatched(kind, LinesOf(PrintedBody(events)), wanted) <==> SomeEvent(kind, events, wanted)
    decreases |events|
  {
    hide LinesOf, KeptEvents, Dispatched, IsEvent, CarriesData, IsOfKind, PrintedEvent;
    if events == [] {
      NothingPrinted(kind);
    } else {
      var e, more := events[0], events[1..];
      assert e in events && forall x :: x in events <==> x == e || x in more;
      PrintedBodyIsFiltered(kind, more);
      EventInFront(e, PrintedBody(more));
      EventFirst(kind, e, LinesOf(PrintedBody(more)));
      KeptInFront(e, WithData(more));
      forall wanted ensures SomeEvent(kind, events, wanted)
        <==> IsOfKind(kind, e, wanted) || SomeEvent(kind, more, wanted) {
      }
    }
  }

  lemma KeptInFront(e: Event, kept: seq<Event>)
    ensures PrintedBody([e] + kept) == PrintedEvent(e) + PrintedBody(kept)
    ensures PrintedBody([] + kept) == "" + PrintedBody(kept)
  {
    assert ([e] + kept)[1..] == kept && [] + kept == kept;
  }

  // ---------- line endings ----------

  ghost predicate SayTheSame(a: Event, b: Event) {
    && |a.fields| == |b.fields|
    && forall i | 0 <= i < |a.fields| :: a.fields[i].name == b.fields[i].name && a.fields[i].value == b.fields[i].value
  }

  lemma {:induction false} SameFieldsSay(a: seq<FieldLine>, b: seq<FieldLine>)
    requires |a| == |b| && forall i | 0 <= i < |a| :: a[i].name == b[i].name && a[i].value == b[i].value
    ensures DataOf(a) == DataOf(b) && NameOf(a) == NameOf(b)
    decreases |a|
  {
    if a != [] {
      SameFieldsSay(a[..|a| - 1], b[..|b| - 1]);
    }
  }

  lemma SameEvents(kind: Classifier, a: Event, b: Event)
    requires SayTheSame(a, b)
    ensures CarriesData(a) <==> CarriesData(b)
    ensures forall wanted :: IsOfKind(kind, a, wanted) <==> IsOfKind(kind, b, wanted)
  {
    SameFieldsSay(a.fields, b.fields);
    if f :| f in a.fields && f.name == "data" {
      var i :| 0 <= i < |a.fields| && a.fields[i] == f;
      assert b.fields[i] in b.fields;
    }
    if f :| f in b.fields && f.name == "data" {
      var i :| 0 <= i < |b.fields| && b.fields[i] == f;
      assert a.fields[i] in a.fields;
    }
  }

  /** The same events, written with other line endings and spaces, are kept and dispatched alike. */
  lemma LineEndingsDoNotMatter(kind: Classifier, a: seq<Event>, b: seq<Event>)
    requires AreEvents(a) && AreEvents(b) && |a| == |b| && forall i | 0 <= i < |a| :: SayTheSame(a[i], b[i])
    ensures forall i | 0 <= i < |a| :: CarriesData(a[i]) <==> CarriesData(b[i])
    ensures forall wanted :: Dispatched(kind, LinesOf(PrintedBody(a)), wanted)
                        <==> Dispatched(kind, LinesOf(PrintedBody(b)), wanted)
  {
    hide LinesOf, Dispatched, SayTheSame, CarriesData, IsOfKind, PrintedBody, KeptEvents, AreEvents;
    PrintedBodyIsFiltered(kind, a);
    PrintedBodyIsFiltered(kind, b);
    forall i | 0 <= i < |a|
      ensures CarriesData(a[i]) <==> CarriesData(b[i])
      ensures forall wanted :: IsOfKind(kind, a[i], wanted) <==> IsOfKind(kind, b[i], wanted)
    {
      SameEvents(kind, a[i], b[i]);
    }
    forall wanted ensures SomeEvent(kind, a, wanted) <==> SomeEvent(kind, b, wanted) {
      SomeOfThese(kind, a, b, wanted);
      SomeOfThese(kind, b, a, wanted);
    }
  }

  lemma SomeOfThese(kind: Classifier, a: seq<Event>, b: seq<Event>, wanted: Kind)
    requires |a| == |b| && forall i | 0 <= i < |a| :: IsOfKind(kind, a[i], wanted) <==> IsOfKind(kind, b[i], wanted)
    ensures SomeEvent(kind, a, wanted) ==> SomeEvent(kind, b, wanted)
  {
    hide IsOfKind;
    if e :| e in a && IsOfKind(kind, e, wanted) {
      var i :| 0 <= i < |a| && a[i] == e;
      assert b[i] in b;
    }
  }
}
