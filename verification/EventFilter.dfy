/**
  What the event-stream filter of internal/agents/sse.go does to the lines of a text/event-stream
  body (section 9.2.6 of the WHATWG HTML Living Standard): an event without a data line disappears,
  and every other event passes byte for byte.

  The JSON payload of an event is not decoded here. `Classifier` stands for the kind of event that
  classify reads from the payload and the event field.
 */
module EventFilter {
  import Text

  datatype Kind = Terminal | Incomplete | Ordinary

  type Classifier = (string, string) -> Kind

  // ---------- lines ----------

  /** The index of the first newline, or -1. */
  function NewlineAt(s: string): (r: int)
    ensures -1 <= r < |s|
    ensures r >= 0 ==> s[r] == '\n'
    ensures forall k | 0 <= k < (if r >= 0 then r else |s|) :: s[k] != '\n'
  {
    if s == "" then -1
    else if s[0] == '\n' then 0
    else
      var r := NewlineAt(s[1..]);
      if r < 0 then -1 else r + 1
  }

  /** The complete lines of a text, each with its newline, and what follows the last one. */
  function Lines(s: string): seq<string>
    decreases |s|
  {
    var end := NewlineAt(s);
    if end < 0 then [] else [s[..end + 1]] + Lines(s[end + 1..])
  }

  function Tail(s: string): string
    decreases |s|
  {
    var end := NewlineAt(s);
    if end < 0 then s else Tail(s[end + 1..])
  }

  lemma {:induction false} FirstLine(s: string, end: nat)
    requires end < |s| && s[end] == '\n' && forall k | 0 <= k < end :: s[k] != '\n'
    ensures Lines(s) == [s[..end + 1]] + Lines(s[end + 1..]) && Tail(s) == Tail(s[end + 1..])
  {
    assert NewlineAt(s) == end;
  }

  /** Text that arrives later only continues the unfinished line. */
  lemma {:induction false} LinesConcat(a: string, b: string)
    ensures Lines(a + b) == Lines(a) + Lines(Tail(a) + b)
    ensures Tail(a + b) == Tail(Tail(a) + b)
    decreases |a|
  {
    var end := NewlineAt(a);
    if end < 0 {
      NoCompleteLine(a, b);
    } else {
      LinesConcat(a[end + 1..], b);
      OneMoreLine(a, b, end);
    }
  }

  lemma NoCompleteLine(a: string, b: string)
    requires NewlineAt(a) < 0
    ensures Lines(a) + Lines(Tail(a) + b) == Lines(a + b) && Tail(a) == a
  {
  }

  lemma OneMoreLine(a: string, b: string, end: nat)
    requires NewlineAt(a) == end
    requires var rest := a[end + 1..]; Lines(rest + b) == Lines(rest) + Lines(Tail(rest) + b)
    ensures Lines(a + b) == Lines(a) + Lines(Tail(a) + b)
    ensures Tail(a + b) == Tail(a[end + 1..] + b) && Tail(a) == Tail(a[end + 1..])
  {
    var rest := a[end + 1..];
    FirstLine(a, end);
    FirstLineOfLonger(a, b, end);
    Text.Associative([a[..end + 1]], Lines(rest), Lines(Tail(rest) + b));
  }

  lemma FirstLineOfLonger(a: string, b: string, end: nat)
    requires NewlineAt(a) == end
    ensures Lines(a + b) == [a[..end + 1]] + Lines(a[end + 1..] + b) && Tail(a + b) == Tail(a[end + 1..] + b)
  {
    var s := a + b;
    SplitAfter(a, b, end + 1);
    assert forall k | 0 <= k <= end :: s[k] == a[k];
    FirstLine(s, end);
  }

  lemma SplitAfter(a: string, b: string, k: nat)
    requires k <= |a|
    ensures (a + b)[..k] == a[..k] && (a + b)[k..] == a[k..] + b
  {
  }

  // ---------- one line ----------

  datatype Field = Blank | Data(value: string) | Name(value: string) | Other

  function TrimSuffix(s: string, c: char): string {
    if s != "" && s[|s| - 1] == c then s[..|s| - 1] else s
  }

  function IndexOf(s: string, c: char): (r: int)
    ensures -1 <= r < |s|
  {
    if s == "" then -1
    else if s[0] == c then 0
    else
      var r := IndexOf(s[1..], c);
      if r < 0 then -1 else r + 1
  }

  /** The field before the first colon, and the value after it less one leading space. */
  function Parse(line: string): Field {
    var content := TrimSuffix(TrimSuffix(line, '\n'), '\r');
    if content == "" then Blank
    else
      var colon := IndexOf(content, ':');
      var field := if colon < 0 then content else content[..colon];
      var rest := if colon < 0 then "" else content[colon + 1..];
      var value := if rest != "" && rest[0] == ' ' then rest[1..] else rest;
      if field == "data" then Data(value) else if field == "event" then Name(value) else Other
  }

  /** A line with the field it parses to. */
  datatype Line = Line(text: string, field: Field)

  function Read(text: string): Line {
    Line(text, Parse(text))
  }

  function ReadLines(lines: seq<string>): seq<Line> {
    if lines == [] then [] else [Read(lines[0])] + ReadLines(lines[1..])
  }

  /** The complete lines of a text, read. */
  function LinesOf(text: string): seq<Line> {
    ReadLines(Lines(text))
  }

  lemma {:induction false} ReadConcat(a: seq<string>, b: seq<string>)
    ensures ReadLines(a + b) == ReadLines(a) + ReadLines(b)
  {
    if a == [] {
      assert a + b == b;
    } else {
      assert (a + b)[1..] == a[1..] + b;
      ReadConcat(a[1..], b);
    }
  }

  // ---------- the filter as a state machine over lines ----------

  /**
    `held` are the lines of the current event while it has no data, `data` and `name` what it is
    classified by, `out` everything passed on, and `terminal` and `cut` whether a terminal event
    and a response.incomplete event have been dispatched.
   */
  datatype Filter = Filter(held: string, data: string, name: string, carries: bool, terminal: bool, cut: bool,
    out: string)

  const INIT := Filter("", "", "", false, false, false, "")

  function Emit(f: Filter, line: Line): Filter {
    if f.carries then f.(out := f.out + line.text) else f.(held := f.held + line.text)
  }

  function Dispatch(kind: Classifier, f: Filter, blank: Line): Filter {
    var closed := Filter("", "", "", false, f.terminal, f.cut, f.out);
    if !f.carries then closed
    else
      var passed := closed.(out := f.out + blank.text);
      match kind(f.data, f.name)
      case Terminal => passed.(terminal := true)
      case Incomplete => passed.(terminal := true, cut := true)
      case Ordinary => passed
  }

  function Step(kind: Classifier, f: Filter, line: Line): Filter {
    match line.field
    case Blank => Dispatch(kind, f, line)
    case Data(value) =>
      var g := f.(data := f.data + value + "\n");
      Emit(if f.carries then g else g.(carries := true, out := f.out + f.held, held := ""), line)
    case Name(value) => Emit(f.(name := value), line)
    case Other => Emit(f, line)
  }

  function Run(kind: Classifier, f: Filter, lines: seq<Line>): Filter {
    if lines == [] then f else Step(kind, Run(kind, f, lines[..|lines| - 1]), lines[|lines| - 1])
  }

  lemma {:induction false} RunConcat(kind: Classifier, f: Filter, a: seq<Line>, b: seq<Line>)
    ensures Run(kind, f, a + b) == Run(kind, Run(kind, f, a), b)
  {
    if b == [] {
      assert a + b == a;
    } else {
      assert (a + b)[..|a + b| - 1] == a + b[..|b| - 1];
      RunConcat(kind, f, a, b[..|b| - 1]);
    }
  }

  lemma {:induction false} OutputOnlyGrows(kind: Classifier, f: Filter, lines: seq<Line>)
    ensures f.out <= Run(kind, f, lines).out
    ensures f.terminal ==> Run(kind, f, lines).terminal
    ensures f.cut ==> Run(kind, f, lines).cut
  {
    if lines != [] {
      OutputOnlyGrows(kind, f, lines[..|lines| - 1]);
      StepGrows(kind, Run(kind, f, lines[..|lines| - 1]), lines[|lines| - 1]);
    }
  }

  lemma StepGrows(kind: Classifier, f: Filter, line: Line)
    ensures f.out <= Step(kind, f, line).out
    ensures f.terminal ==> Step(kind, f, line).terminal
    ensures f.cut ==> Step(kind, f, line).cut
  {
  }

  // ---------- the same, event by event ----------

  function Concat(lines: seq<Line>): string {
    if lines == [] then "" else Concat(lines[..|lines| - 1]) + lines[|lines| - 1].text
  }

  /** How many lines the first event has, its blank line included if it has one. */
  function EventLength(lines: seq<Line>): (n: nat)
    ensures n <= |lines|
    ensures lines != [] ==> n > 0
    ensures forall k | 0 <= k < n - 1 :: !lines[k].field.Blank?
    ensures n < |lines| ==> lines[n - 1].field.Blank?
  {
    if lines == [] then 0 else if lines[0].field.Blank? then 1 else 1 + EventLength(lines[1..])
  }

  ghost predicate HasData(event: seq<Line>) {
    exists k :: 0 <= k < |event| && event[k].field.Data?
  }

  predicate IsClosed(event: seq<Line>) {
    event != [] && event[|event| - 1].field.Blank?
  }

  /** The data lines' values, each with a newline, and the last event field. */
  function Payload(event: seq<Line>): string {
    if event == [] then ""
    else
      Payload(event[..|event| - 1])
      + match event[|event| - 1].field case Data(value) => value + "\n" case _ => ""
  }

  function EventName(event: seq<Line>): string {
    if event == [] then ""
    else
      match event[|event| - 1].field
      case Name(value) => value
      case _ => EventName(event[..|event| - 1])
  }

  /** The one-shot filter: the events with a data line, byte for byte. */
  ghost function KeptEvents(lines: seq<Line>): string
    decreases |lines|
  {
    if lines == [] then ""
    else
      var n := EventLength(lines);
      (if HasData(lines[..n]) then Concat(lines[..n]) else "") + KeptEvents(lines[n..])
  }

  /** The event carries data, is ended by its blank line and is of the given kind. */
  ghost predicate Classifies(kind: Classifier, event: seq<Line>, wanted: Kind) {
    IsClosed(event) && HasData(event) && kind(Payload(event[..|event| - 1]), EventName(event[..|event| - 1])) == wanted
  }

  /** Some event of the body is of the given kind. */
  ghost predicate Dispatched(kind: Classifier, lines: seq<Line>, wanted: Kind)
    decreases |lines|
  {
    lines != [] &&
    (|| Classifies(kind, lines[..EventLength(lines)], wanted)
     || Dispatched(kind, lines[EventLength(lines)..], wanted))
  }

  ghost predicate BetweenEvents(f: Filter) {
    f.held == "" && f.data == "" && f.name == "" && !f.carries
  }

  lemma {:induction false} HasDataSnoc(event: seq<Line>)
    requires event != []
    ensures HasData(event) <==> HasData(event[..|event| - 1]) || event[|event| - 1].field.Data?
  {
    if HasData(event[..|event| - 1]) {
      var k :| 0 <= k < |event| - 1 && event[..|event| - 1][k].field.Data?;
      assert event[k].field.Data?;
    }
    if HasData(event) {
      var k :| 0 <= k < |event| && event[k].field.Data?;
      if k < |event| - 1 {
        assert event[..|event| - 1][k].field.Data?;
      }
    }
  }

  /** The filter inside an event it entered as `f`: lines are held back until one carries data. */
  ghost function Inside(f: Filter, event: seq<Line>): Filter {
    var has := HasData(event);
    Filter(if has then "" else Concat(event), Payload(event), EventName(event), has,
           f.terminal, f.cut, if has then f.out + Concat(event) else f.out)
  }

  lemma InsideStep(kind: Classifier, f: Filter, event: seq<Line>, line: Line)
    requires !line.field.Blank?
    ensures Step(kind, Inside(f, event), line) == Inside(f, event + [line])
  {
    var longer := event + [line];
    assert longer[..|longer| - 1] == event;
    HasDataSnoc(longer);
    Text.Associative(f.out, Concat(event), line.text);
    match line.field {
      case Data(value) => Text.Associative(Payload(event), value, "\n");
      case Name(_) => assert Payload(event) + "" == Payload(event);
      case Other => assert Payload(event) + "" == Payload(event);
    }
  }

  lemma {:induction false} RunInsideEvent(kind: Classifier, f: Filter, event: seq<Line>)
    requires BetweenEvents(f) && forall k | 0 <= k < |event| :: !event[k].field.Blank?
    ensures Run(kind, f, event) == Inside(f, event)
  {
    if event != [] {
      var rest := event[..|event| - 1];
      RunInsideEvent(kind, f, rest);
      InsideStep(kind, f, rest, event[|event| - 1]);
      assert rest + [event[|event| - 1]] == event;
    }
  }

  lemma {:induction false} RunEvent(kind: Classifier, f: Filter, event: seq<Line>)
    requires BetweenEvents(f) && IsClosed(event)
    requires forall k | 0 <= k < |event| - 1 :: !event[k].field.Blank?
    ensures var g := Run(kind, f, event);
            && BetweenEvents(g)
            && g.out == f.out + (if HasData(event) then Concat(event) else "")
            && (g.terminal <==> f.terminal || Classifies(kind, event, Terminal) || Classifies(kind, event, Incomplete))
            && (g.cut <==> f.cut || Classifies(kind, event, Incomplete))
  {
    RunInsideEvent(kind, f, event[..|event| - 1]);
    HasDataSnoc(event);
    Text.Associative(f.out, Concat(event[..|event| - 1]), event[|event| - 1].text);
  }

  lemma RunOpenEvent(kind: Classifier, f: Filter, event: seq<Line>)
    requires BetweenEvents(f) && event != [] && !IsClosed(event)
    requires forall k | 0 <= k < |event| - 1 :: !event[k].field.Blank?
    ensures var g := Run(kind, f, event);
            && g.out == f.out + (if HasData(event) then Concat(event) else "")
            && g.terminal == f.terminal && g.cut == f.cut
  {
    RunInsideEvent(kind, f, event);
    assert f.out + "" == f.out;
  }

  /**
    Line by line the filter passes on exactly the events with a data line, and has seen a terminal
    event exactly when one was dispatched.
   */
  lemma {:induction false} FilterKeepsEvents(kind: Classifier, f: Filter, lines: seq<Line>)
    requires BetweenEvents(f)
    ensures var g := Run(kind, f, lines);
            && g.out == f.out + KeptEvents(lines)
            && (g.terminal <==> f.terminal || Dispatched(kind, lines, Terminal) || Dispatched(kind, lines, Incomplete))
            && (g.cut <==> f.cut || Dispatched(kind, lines, Incomplete))
    decreases |lines|
  {
    if lines == [] {
      assert f.out + "" == f.out;
    } else {
      var event, rest := lines[..EventLength(lines)], lines[EventLength(lines)..];
      assert lines == event + rest;
      RunConcat(kind, f, event, rest);
      var kept := if HasData(event) then Concat(event) else "";
      assert KeptEvents(lines) == kept + KeptEvents(rest);
      if IsClosed(event) {
        RunEvent(kind, f, event);
        FilterKeepsEvents(kind, Run(kind, f, event), rest);
        Text.Associative(f.out, kept, KeptEvents(rest));
      } else {
        assert rest == [] && kept + "" == kept;
        RunOpenEvent(kind, f, event);
      }
    }
  }
}
