/**
  When the bytes eventStreamReader delivers do not depend on how the body was chunked
  (internal/agents/sse.go). Behind a response.incomplete event it filters the chunk that completed
  the event to its end and reads no further one, so what shares the event's chunk is delivered and
  what comes later is not.
 */
module ChunkDependence {
  import opened EventFilter
  import opened EventStream
  import opened PrintedEvents
  import Text

  // ---------- the condition, on lines ----------

  /** No data line follows the first response.incomplete event. */
  ghost predicate QuietBehindIncomplete(kind: Classifier, lines: seq<Line>)
    decreases |lines|
  {
    lines != [] ==>
      var n := EventLength(lines);
      if Classifies(kind, lines[..n], Incomplete) then !HasData(lines[n..]) else QuietBehindIncomplete(kind, lines[n..])
  }

  ghost predicate AllWritten(lines: seq<Line>) {
    forall k | 0 <= k < |lines| :: lines[k].text != ""
  }

  lemma {:induction false} ConcatIsWritten(lines: seq<Line>)
    requires AllWritten(lines) && lines != []
    ensures Concat(lines) != ""
  {
    assert lines[|lines| - 1].text != "";
  }

  lemma DataInEvents(lines: seq<Line>, n: nat)
    requires n <= |lines|
    ensures HasData(lines) <==> HasData(lines[..n]) || HasData(lines[n..])
  {
    if HasData(lines) {
      var k :| 0 <= k < |lines| && lines[k].field.Data?;
      if k < n {
        assert lines[..n][k].field.Data?;
      } else {
        assert lines[n..][k - n].field.Data?;
      }
    }
    if HasData(lines[..n]) {
      var k :| 0 <= k < n && lines[..n][k].field.Data?;
      assert lines[k].field.Data?;
    }
    if HasData(lines[n..]) {
      var k :| 0 <= k < |lines| - n && lines[n..][k].field.Data?;
      assert lines[n + k].field.Data?;
    }
  }

  /** The filter keeps nothing exactly of lines without data. */
  lemma {:induction false} NothingKeptIff(lines: seq<Line>)
    requires AllWritten(lines)
    ensures KeptEvents(lines) == "" <==> !HasData(lines)
    decreases |lines|
  {
    hide HasData;
    if lines == [] {
      NoDataInNothing();
    } else {
      var n := EventLength(lines);
      DataInEvents(lines, n);
      assert AllWritten(lines[..n]) && AllWritten(lines[n..]);
      ConcatIsWritten(lines[..n]);
      NothingKeptIff(lines[n..]);
    }
  }

  lemma NoDataInNothing()
    ensures !HasData([])
  {
  }

  /** A prefix that reaches past the first event has the same first event. */
  lemma {:induction false} EventOfPrefix(lines: seq<Line>, m: nat)
    requires lines != [] && m <= |lines|
    ensures EventLength(lines[..m]) == if m < EventLength(lines) then m else EventLength(lines)
    decreases |lines|
  {
    if m > 0 {
      PrefixOfRest(lines, m);
      if !lines[0].field.Blank? && |lines| > 1 {
        EventOfPrefix(lines[1..], m - 1);
      }
    }
  }

  lemma PrefixOfRest(lines: seq<Line>, m: nat)
    requires 0 < m <= |lines|
    ensures lines[..m][0] == lines[0] && lines[..m][1..] == lines[1..][..m - 1]
  {
  }

  lemma ShortPrefix(kind: Classifier, lines: seq<Line>, m: nat)
    requires lines != [] && m < EventLength(lines)
    ensures !Dispatched(kind, lines[..m], Incomplete)
  {
    var short := lines[..m];
    if m > 0 {
      EventOfPrefix(lines, m);
      assert short[..m] == short && short[m..] == [];
      assert !short[m - 1].field.Blank?;
    }
  }

  lemma LongPrefix(kind: Classifier, lines: seq<Line>, m: nat)
    requires lines != [] && EventLength(lines) <= m <= |lines|
    ensures var n := EventLength(lines); var event, rest := lines[..n], lines[n..][..m - n];
            && (Dispatched(kind, lines[..m], Incomplete) <==>
                  Classifies(kind, event, Incomplete) || Dispatched(kind, rest, Incomplete))
            && KeptEvents(lines[..m]) == (if HasData(event) then Concat(event) else "") + KeptEvents(rest)
  {
    hide Classifies, HasData, Dispatched, KeptEvents, EventLength, Concat;
    EventOfPrefix(lines, m);
    var n := EventLength(lines);
    assert lines[..m][..n] == lines[..n] && lines[..m][n..] == lines[n..][..m - n];
    FirstEvent(kind, lines[..m]);
  }

  lemma FirstEvent(kind: Classifier, lines: seq<Line>)
    requires lines != []
    ensures var n := EventLength(lines);
            && (Dispatched(kind, lines, Incomplete) <==>
                  Classifies(kind, lines[..n], Incomplete) || Dispatched(kind, lines[n..], Incomplete))
            && KeptEvents(lines) == (if HasData(lines[..n]) then Concat(lines[..n]) else "") + KeptEvents(lines[n..])
  {
    hide Classifies, HasData, Concat;
  }

  /** Stopping behind `m` lines loses nothing if a response.incomplete event is among them. */
  ghost predicate SettledAt(kind: Classifier, lines: seq<Line>, m: nat)
    requires m <= |lines|
  {
    Dispatched(kind, lines[..m], Incomplete) ==> KeptEvents(lines[..m]) == KeptEvents(lines)
  }

  ghost predicate SettledEverywhere(kind: Classifier, lines: seq<Line>) {
    forall m: nat | m <= |lines| :: SettledAt(kind, lines, m)
  }

  lemma {:induction false} SettledIffQuiet(kind: Classifier, lines: seq<Line>)
    requires AllWritten(lines)
    ensures SettledEverywhere(kind, lines) <==> QuietBehindIncomplete(kind, lines)
    decreases |lines|
  {
    hide HasData, Classifies, KeptEvents, Dispatched;
    if lines == [] {
      assert forall m: nat | m <= 0 :: lines[..m] == lines;
    } else {
      var n := EventLength(lines);
      assert AllWritten(lines[n..]);
      if Classifies(kind, lines[..n], Incomplete) {
        SettledBehindCut(kind, lines);
      } else {
        SettledIffQuiet(kind, lines[n..]);
        SettledInRest(kind, lines);
      }
    }
  }

  lemma KeptOfWhole(kind: Classifier, lines: seq<Line>)
    requires lines != []
    ensures var n := EventLength(lines);
            KeptEvents(lines) == (if HasData(lines[..n]) then Concat(lines[..n]) else "") + KeptEvents(lines[n..])
  {
    FirstEvent(kind, lines);
  }

  lemma SettledBehindCut(kind: Classifier, lines: seq<Line>)
    requires lines != [] && AllWritten(lines) && Classifies(kind, lines[..EventLength(lines)], Incomplete)
    ensures SettledEverywhere(kind, lines) <==> !HasData(lines[EventLength(lines)..])
  {
    hide HasData, Classifies, KeptEvents, Dispatched;
    var n := EventLength(lines);
    var rest := lines[n..];
    KeptOfWhole(kind, lines);
    LongPrefix(kind, lines, n);
    NothingKept();
    NothingKeptIff(rest);
    assert rest[..0] == [];
    if SettledEverywhere(kind, lines) {
      assert SettledAt(kind, lines, n);
    }
    if !HasData(rest) {
      forall m: nat | m <= |lines| ensures SettledAt(kind, lines, m) {
        if m < n {
          ShortPrefix(kind, lines, m);
        } else {
          LongPrefix(kind, lines, m);
          DataInEvents(rest, m - n);
          NothingKeptIff(rest[..m - n]);
        }
      }
    }
  }

  lemma NothingKept()
    ensures KeptEvents([]) == ""
  {
  }

  lemma SameBehind(front: string, a: string, b: string)
    ensures front + a == front + b ==> a == b
  {
    assert (front + a)[|front|..] == a && (front + b)[|front|..] == b;
  }

  lemma SettledInRest(kind: Classifier, lines: seq<Line>)
    requires lines != [] && !Classifies(kind, lines[..EventLength(lines)], Incomplete)
    ensures SettledEverywhere(kind, lines) <==> SettledEverywhere(kind, lines[EventLength(lines)..])
  {
    hide HasData, Classifies, KeptEvents, Dispatched;
    var n := EventLength(lines);
    var rest := lines[n..];
    KeptOfWhole(kind, lines);
    if SettledEverywhere(kind, lines) {
      forall m: nat | m <= |rest| ensures SettledAt(kind, rest, m) {
        LongPrefix(kind, lines, n + m);
        assert SettledAt(kind, lines, n + m);
        SameBehind(if HasData(lines[..n]) then Concat(lines[..n]) else "", KeptEvents(rest[..m]), KeptEvents(rest));
      }
    }
    if SettledEverywhere(kind, rest) {
      forall m: nat | m <= |lines| ensures SettledAt(kind, lines, m) {
        if m < n {
          ShortPrefix(kind, lines, m);
        } else {
          LongPrefix(kind, lines, m);
          assert SettledAt(kind, rest, m - n);
        }
      }
    }
  }

  // ---------- from lines to text ----------

  lemma {:induction false} ReadLinesAre(lines: seq<string>)
    ensures |ReadLines(lines)| == |lines| && forall k | 0 <= k < |lines| ::
            ReadLines(lines)[k] == EventFilter.Read(lines[k])
  {
    if lines != [] {
      ReadLinesAre(lines[1..]);
    }
  }

  lemma {:induction false} LinesAreWritten(text: string)
    ensures AllWritten(LinesOf(text))
    decreases |text|
  {
    var end := NewlineAt(text);
    if end >= 0 {
      LinesAreWritten(text[end + 1..]);
    }
  }

  lemma LinesOfPrefix(text: string, k: nat)
    requires k <= |text|
    ensures var m := |LinesOf(text[..k])|; m <= |LinesOf(text)| && LinesOf(text[..k]) == LinesOf(text)[..m]
  {
    var a, b := text[..k], text[k..];
    assert text == a + b;
    LinesConcat(a, b);
    ReadConcat(Lines(a), Lines(Tail(a) + b));
  }

  lemma {:induction false} PrefixOfLines(text: string, m: nat) returns (k: nat)
    requires m <= |LinesOf(text)|
    ensures k <= |text| && LinesOf(text[..k]) == LinesOf(text)[..m]
    decreases |text|
  {
    hide LinesOf;
    if m == 0 {
      assert text[..0] == "";
      NoLines();
      k := 0;
    } else {
      var end := NewlineAt(text);
      SomeLine(text);
      var rest := text[end + 1..];
      FirstLineRead(text, end);
      var more := PrefixOfLines(rest, m - 1);
      k := end + 1 + more;
      FirstLineOfPrefix(text, end, more);
    }
  }

  lemma NoLines()
    ensures LinesOf("") == []
  {
  }

  lemma SomeLine(text: string)
    ensures NewlineAt(text) < 0 ==> LinesOf(text) == []
  {
  }

  lemma FirstLineRead(s: string, end: nat)
    requires end < |s| && s[end] == '\n' && forall k | 0 <= k < end :: s[k] != '\n'
    ensures LinesOf(s) == [EventFilter.Read(s[..end + 1])] + LinesOf(s[end + 1..])
  {
    FirstLine(s, end);
  }

  lemma FirstLineOfPrefix(text: string, end: nat, more: nat)
    requires end < |text| && text[end] == '\n' && forall k | 0 <= k < end :: text[k] != '\n'
    requires end + 1 + more <= |text|
    ensures LinesOf(text[..end + 1 + more]) == [EventFilter.Read(text[..end + 1])] + LinesOf(text[end + 1..][..more])
  {
    hide LinesOf;
    var short := text[..end + 1 + more];
    assert short[..end + 1] == text[..end + 1] && short[end + 1..] == text[end + 1..][..more];
    FirstLineRead(short, end);
  }

  // ---------- delivery ----------

  /** Every way to split the text into chunks delivers what the filter keeps of all of it. */
  ghost predicate ChunksDoNotMatter(kind: Classifier, text: string) {
    forall chunks, got | chunks != [] && Joined(chunks) == text && DeliversChunks(kind, chunks, got) ::
      got == KeptEvents(LinesOf(text))
  }

  /**
    The delivered bytes are independent of the chunks if and only if no data line follows the first
    response.incomplete event of the body.
   */
  lemma ChunksDoNotMatterIff(kind: Classifier, text: string)
    ensures ChunksDoNotMatter(kind, text) <==> QuietBehindIncomplete(kind, LinesOf(text))
  {
    hide LinesOf, KeptEvents, Dispatched, DeliversChunks, Joined;
    var lines := LinesOf(text);
    LinesAreWritten(text);
    SettledIffQuiet(kind, lines);
    if ChunksDoNotMatter(kind, text) {
      forall m: nat | m <= |lines| ensures SettledAt(kind, lines, m) {
        var k := PrefixOfLines(text, m);
        if Dispatched(kind, lines[..m], Incomplete) {
          DeliveryDependsOnChunks(kind, text[..k], text[k..], KeptEvents(LinesOf(text[..k])));
          assert text[..k] + text[k..] == text;
        }
      }
    }
    if SettledEverywhere(kind, lines) {
      forall chunks, got | chunks != [] && Joined(chunks) == text && DeliversChunks(kind, chunks, got)
        ensures got == KeptEvents(lines)
      {
        SettledDelivery(kind, chunks, got);
      }
    }
  }

  /**
    What the filter keeps of `b` behind a response.incomplete event is delivered when it arrives
    with the event, and is not when it comes later.
   */
  lemma DeliveryDependsOnChunks(kind: Classifier, a: string, b: string, got: string)
    requires Dispatched(kind, LinesOf(a), Incomplete)
    ensures Joined([a, b]) == Joined([a + b]) == a + b
    ensures DeliversChunks(kind, [a, b], got) <==> got == KeptEvents(LinesOf(a))
    ensures DeliversChunks(kind, [a + b], got) <==> got == KeptEvents(LinesOf(a + b))
  {
    hide Dispatched, KeptEvents, LinesOf, Joined;
    var two, one := [a, b], [a + b];
    JoinedOne(a);
    JoinedOne(a + b);
    JoinedSnoc(two, 1);
    NothingDispatched(kind);
    assert two[..0] == [] && two[..1] == [a] && two[..2] == two && one[..0] == [] && one[..1] == one;
    assert ReadsChunks(kind, two, 1) && !ReadsChunks(kind, two, 0) && !ReadsChunks(kind, two, 2);
    assert ReadsChunks(kind, one, 1) && !ReadsChunks(kind, one, 0);
  }

  lemma JoinedOne(a: string)
    ensures Joined([a]) == a
  {
    assert [a][1..] == [] && a + "" == a;
  }

  lemma NothingDispatched(kind: Classifier)
    ensures !Dispatched(kind, LinesOf(""), Incomplete) && Joined([]) == ""
  {
  }

  lemma SettledDelivery(kind: Classifier, chunks: seq<string>, got: string)
    requires SettledEverywhere(kind, LinesOf(Joined(chunks))) && DeliversChunks(kind, chunks, got)
    ensures got == KeptEvents(LinesOf(Joined(chunks)))
  {
    hide Dispatched, KeptEvents, LinesOf, Joined;
    var text := Joined(chunks);
    var n: nat :| ReadsChunks(kind, chunks, n) && got == KeptEvents(LinesOf(Joined(chunks[..n])));
    if n == |chunks| {
      assert chunks[..n] == chunks;
    } else {
      var read := Joined(chunks[..n]);
      JoinedTwo(chunks[..n], chunks[n..]);
      assert chunks[..n] + chunks[n..] == chunks;
      assert text[..|read|] == read;
      LinesOfPrefix(text, |read|);
      assert SettledAt(kind, LinesOf(text), |LinesOf(read)|);
    }
  }

  // ---------- a body on which they matter ----------

  /** Kinds as the event field alone gives them. */
  function ByName(data: string, name: string): Kind {
    if name == "response.incomplete" then Incomplete else Ordinary
  }

  /**
    Two printed events with data, the first of them incomplete: both are delivered when they come in
    one chunk, and the first alone when they come apart.
   */
  lemma TwoEvents(kind: Classifier, x: Event, y: Event)
    requires IsEvent(x) && IsEvent(y) && IsOfKind(kind, x, Incomplete) && CarriesData(y)
    ensures var a, b := PrintedEvent(x), PrintedEvent(y);
            && DeliversChunks(kind, [a + b], a + b)
            && DeliversChunks(kind, [a, b], a)
            && !DeliversChunks(kind, [a, b], a + b)
  {
    hide LinesOf, Dispatched, KeptEvents, DeliversChunks, IsEvent, IsOfKind, CarriesData, PrintedEvent;
    var a, b := PrintedEvent(x), PrintedEvent(y);
    CarriesWhatIsClassified(kind, x);
    PrintedOne(x);
    PrintedTwo(x, y);
    PrintedBodyIsFiltered(kind, [x]);
    PrintedBodyIsFiltered(kind, [x, y]);
    assert x in [x] && SomeEvent(kind, [x], Incomplete);
    DeliveryDependsOnChunks(kind, a, b, a);
    DeliveryDependsOnChunks(kind, a, b, a + b);
    EventIsWritten(y);
  }

  lemma CarriesWhatIsClassified(kind: Classifier, e: Event)
    requires IsOfKind(kind, e, Incomplete)
    ensures CarriesData(e)
  {
  }

  lemma PrintedOne(x: Event)
    requires CarriesData(x)
    ensures PrintedBody([x]) == PrintedEvent(x) && WithData([x]) == [x]
  {
    hide PrintedEvent;
    assert [x][1..] == [];
  }

  lemma PrintedTwo(x: Event, y: Event)
    requires CarriesData(x) && CarriesData(y)
    ensures PrintedBody([x, y]) == PrintedEvent(x) + PrintedEvent(y) && WithData([x, y]) == [x, y]
  {
    hide PrintedEvent;
    assert [x, y][1..] == [y];
    PrintedOne(y);
  }

  lemma EventIsWritten(e: Event)
    ensures PrintedEvent(e) != ""
  {
  }

  const CUT_EVENT := Event([FieldLine("event", ColonSpace, "response.incomplete", Lf),
                           FieldLine("data", ColonSpace, "{}", Lf)], Lf)
  const LATER_EVENT := Event([FieldLine("data", ColonSpace, "x", Lf)], Lf)

  /**
    On this body they do matter: it is delivered whole when it arrives in one chunk, and without its
    second event when that one arrives by itself.
   */
  lemma ChunksMatterHere()
    ensures var a, b := PrintedEvent(CUT_EVENT), PrintedEvent(LATER_EVENT);
            && DeliversChunks(ByName, [a + b], a + b)
            && DeliversChunks(ByName, [a, b], a)
            && !DeliversChunks(ByName, [a, b], a + b)
  {
    hide DeliversChunks, PrintedEvent, IsEvent, IsOfKind, CarriesData;
    TheseAreEvents();
    TheseCarryData();
    TwoEvents(ByName, CUT_EVENT, LATER_EVENT);
  }

  lemma TheseAreEvents()
    ensures IsEvent(CUT_EVENT) && IsEvent(LATER_EVENT)
  {
    IsLine("event", "response.incomplete");
    IsLine("data", "{}");
    IsLine("data", "x");
  }

  lemma IsLine(name: string, value: string)
    requires '\n' !in name && ':' !in name && '\n' !in value && value != "" && value[|value| - 1] != '\r'
    ensures IsFieldLine(FieldLine(name, ColonSpace, value, Lf))
  {
    var text := FieldText(FieldLine(name, ColonSpace, value, Lf));
    assert text == name + ": " + value && text[|text| - 1] == value[|value| - 1];
  }

  lemma TheseCarryData()
    ensures IsOfKind(ByName, CUT_EVENT, Incomplete) && CarriesData(LATER_EVENT)
  {
    hide DataOf;
    var fields := CUT_EVENT.fields;
    assert fields[1].name == "data" && fields[1] in fields;
    assert LATER_EVENT.fields[0] in LATER_EVENT.fields;
    assert fields[..1] == [fields[0]] && NameOf(fields) == NameOf([fields[0]]) == "response.incomplete";
  }
}
