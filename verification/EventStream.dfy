/**
  eventStreamReader (internal/agents/sse.go): an incremental reader that filters a body as its
  chunks arrive. Fed any chunks and drained through any buffers, it delivers what the one-shot
  filter keeps of the whole body.

  The body is a script: the bytes each read returns, and the error its last read returns with them.
 */
module EventStream {
  import opened Options
  import opened EventFilter
  import opened PrintedEvents

  datatype Error = Eof | StreamIncomplete | Transport(code: int)

  function Joined(chunks: seq<string>): string {
    if chunks == [] then "" else chunks[0] + Joined(chunks[1..])
  }

  /** A clean end counts as one only after a terminal event; other errors pass through. */
  function Finished(end: Error, terminal: bool): Error {
    if !end.Eof? || terminal then end else StreamIncomplete
  }

  lemma {:induction false} JoinedSnoc(chunks: seq<string>, n: nat)
    requires n < |chunks|
    ensures Joined(chunks[..n + 1]) == Joined(chunks[..n]) + chunks[n]
  {
    if n == 0 {
      assert chunks[..1] == [chunks[0]] + [];
    } else {
      JoinedSnoc(chunks[1..], n - 1);
      assert chunks[1..][..n] == chunks[..n + 1][1..] && chunks[1..][..n - 1] == chunks[..n][1..];
    }
  }

  /** No response.incomplete event is dispatched by fewer than `n` chunks. */
  ghost predicate NotCutBefore(kind: Classifier, chunks: seq<string>, n: nat)
    requires n <= |chunks|
  {
    forall j | 0 <= j < n :: !Dispatched(kind, LinesOf(Joined(chunks[..j])), Incomplete)
  }

  lemma NothingRead(kind: Classifier, chunks: seq<string>)
    ensures IsAt(kind, chunks, chunks, "")
    ensures Tail("") == "" && Run(kind, INIT, LinesOf("")) == INIT
  {
    assert chunks[0..] == chunks && chunks[..0] == [];
  }

  /** The chunks in `body` are left and the others were consumed, none of them behind a cut. */
  ghost predicate IsAt(kind: Classifier, chunks: seq<string>, body: seq<string>, consumed: string) {
    && |body| <= |chunks| && body == chunks[|chunks| - |body|..]
    && consumed == Joined(chunks[..|chunks| - |body|])
    && NotCutBefore(kind, chunks, |chunks| - |body|)
  }

  lemma NextChunk(kind: Classifier, chunks: seq<string>, body: seq<string>, consumed: string)
    requires IsAt(kind, chunks, body, consumed) && body != [] && !Run(kind, INIT, LinesOf(consumed)).cut
    ensures IsAt(kind, chunks, body[1..], consumed + body[0])
  {
    hide Run, KeptEvents, Dispatched, LinesOf, Joined;
    var n := |chunks| - |body|;
    assert chunks[n] == body[0] && chunks[n + 1..] == body[1..];
    JoinedSnoc(chunks, n);
    FilterKeepsEvents(kind, INIT, LinesOf(consumed));
  }

  /** A body read up to a cut or to its end was read as far as the reader ever reads. */
  lemma ReadToTheEnd(kind: Classifier, chunks: seq<string>, body: seq<string>, consumed: string)
    requires IsAt(kind, chunks, body, consumed)
    ensures Joined(chunks) == consumed + Joined(body)
    ensures var f := Run(kind, INIT, LinesOf(consumed));
            f.cut || body == [] ==> DeliversChunks(kind, chunks, f.out)
  {
    var n: nat := |chunks| - |body|;
    assert chunks == chunks[..n] + body;
    JoinedTwo(chunks[..n], body);
    FilterKeepsEvents(kind, INIT, LinesOf(consumed));
    if Run(kind, INIT, LinesOf(consumed)).cut || body == [] {
      assert ReadsChunks(kind, chunks, n);
    }
  }

  /** Exactly what the filter keeps of the chunks the reader reads. */
  ghost predicate DeliversChunks(kind: Classifier, chunks: seq<string>, got: string) {
    exists n: nat :: ReadsChunks(kind, chunks, n) && got == KeptEvents(LinesOf(Joined(chunks[..n])))
  }

  /** The reader reads `n` chunks: up to the one that completes a response.incomplete event, or all. */
  ghost predicate ReadsChunks(kind: Classifier, chunks: seq<string>, n: int) {
    && 0 <= n <= |chunks| && NotCutBefore(kind, chunks, n)
    && (n == |chunks| || Dispatched(kind, LinesOf(Joined(chunks[..n])), Incomplete))
  }

  /** The incomplete events that did nothing but reason, as a kind of their own. */
  function ReasonedAway(kind: Classifier, reasoningOnly: string -> bool): Classifier {
    (data, name) => if kind(data, name).Incomplete? && reasoningOnly(data) then Terminal else Ordinary
  }

  class EventStreamReader {
    const kind: Classifier
    /** Does an incomplete response hold nothing but reasoning; never asked without a budget. */
    const reasoningOnly: string -> bool
    const end: Error
    ghost const chunks: seq<string>
    // The reads the body has left; empty once it has returned its error.
    var body: seq<string>
    var input: string
    var out: string
    var held: string
    var data: string
    var name: string
    var carries: bool
    var terminal: bool
    var err: Option<Error>
    // The budget of the call has learnt that an attempt spent its output on reasoning.
    var exhausted: bool
    // A response.incomplete event has been dispatched.
    ghost var cut: bool
    // The bytes read from the body, and the bytes handed to the caller, so far.
    ghost var consumed: string
    ghost var delivered: string

    ghost function State(): Filter
      reads this
    {
      Filter(held, data, name, carries, terminal, cut, delivered + out)
    }

    /** The same filter, asked for reasoning-only events. */
    ghost function Reasoned(): Filter
      reads this
    {
      Filter(held, data, name, carries, exhausted, false, delivered + out)
    }

    ghost function Reasons(): Classifier {
      ReasonedAway(kind, reasoningOnly)
    }

    ghost predicate Valid()
      reads this
    {
      && IsAt(kind, chunks, body, consumed)
      && input == Tail(consumed)
      && State() == Run(kind, INIT, LinesOf(consumed))
      && Reasoned() == Run(Reasons(), INIT, LinesOf(consumed))
      && err == if cut then Some(StreamIncomplete) else if body == [] then Some(Finished(end, terminal)) else None
    }

    constructor (kind: Classifier, reasoningOnly: string -> bool, chunks: seq<string>, end: Error)
      requires chunks != []
      ensures Valid() && this.chunks == chunks && this.kind == kind && this.end == end
              && this.reasoningOnly == reasoningOnly
      ensures delivered == "" && err == None
    {
      this.kind, this.reasoningOnly, this.end, this.chunks := kind, reasoningOnly, end, chunks;
      body, input, out, held, data, name := chunks, "", "", "", "", "";
      carries, terminal, err, exhausted, cut, consumed, delivered := false, false, None, false, false, "", "";
      new;
      hide IsAt, Run, LinesOf, Joined, ReasonedAway;
      NothingRead(kind, chunks);
      NothingRead(Reasons(), chunks);
    }

    /** Hands out at most `size` filtered bytes, reading more of the body only when it holds none. */
    method Read(size: nat) returns (bytes: string, error: Option<Error>)
      requires Valid()
      modifies this
      ensures Valid()
      ensures |bytes| <= size && delivered == old(delivered) + bytes
      ensures error == None && size > 0 ==> bytes != ""
      ensures error != None ==> bytes == "" && out == "" && error == err
      ensures old(err) != None ==> err == old(err) && body == old(body) && consumed == old(consumed)
    {
      hide IsAt, Run;
      while |out| == 0 && err == None
        invariant Valid() && delivered == old(delivered)
        invariant old(err) != None ==> err == old(err) && body == old(body) && consumed == old(consumed)
        decreases |body|
      {
        Fill();
      }
      if |out| > 0 {
        var n := if size < |out| then size else |out|;
        bytes := out[..n];
        assert delivered + out == (delivered + bytes) + out[n..];
        delivered, out := delivered + bytes, out[n..];
        return bytes, None;
      }
      return "", err;
    }

    /** One read of the body: every complete line it finished goes through the filter. */
    method Fill()
      requires Valid() && err == None
      modifies `body, `input, `consumed, `held, `data, `name, `carries, `terminal, `out, `err, `cut, `exhausted
      ensures Valid() && |body| < |old(body)|
    {
      hide IsAt, Run;
      var chunk := body[0];
      NextChunk(kind, chunks, body, consumed);
      body := body[1..];
      Absorb(chunk);
      if body == [] {
        Fail(Finished(end, terminal));
      }
    }

    ghost predicate CaughtUp()
      reads this
    {
      && input == Tail(consumed)
      && State() == Run(kind, INIT, LinesOf(consumed))
      && Reasoned() == Run(Reasons(), INIT, LinesOf(consumed))
      && err == if cut then Some(StreamIncomplete) else None
    }

    /** Filters the lines a chunk completes and keeps the unfinished one. */
    method Absorb(chunk: string)
      requires CaughtUp()
      modifies `input, `consumed, `held, `data, `name, `carries, `terminal, `out, `err, `cut, `exhausted
      ensures CaughtUp() && consumed == old(consumed) + chunk
    {
      ChunkArrives(kind, consumed, chunk);
      ChunkArrives(Reasons(), consumed, chunk);
      consumed := consumed + chunk;
      input := input + chunk;
      input := FilterLines(input);
    }

    /** Filters every complete line of `text` and returns what follows the last one. */
    method FilterLines(text: string) returns (rest: string)
      requires err == if cut then Some(StreamIncomplete) else None
      modifies `held, `data, `name, `carries, `terminal, `out, `err, `cut, `exhausted
      ensures State() == Run(kind, old(State()), LinesOf(text)) && rest == Tail(text)
      ensures Reasoned() == Run(Reasons(), old(Reasoned()), LinesOf(text))
      ensures err == if cut then Some(StreamIncomplete) else None
    {
      rest := text;
      while true
        invariant Tail(rest) == Tail(text)
        invariant Run(kind, State(), LinesOf(rest)) == Run(kind, old(State()), LinesOf(text))
        invariant Run(Reasons(), Reasoned(), LinesOf(rest)) == Run(Reasons(), old(Reasoned()), LinesOf(text))
        invariant err == if cut then Some(StreamIncomplete) else None
        decreases |rest|
      {
        var newline := NewlineAt(rest);
        if newline < 0 {
          return;
        }
        NextLine(kind, State(), rest, newline);
        NextLine(Reasons(), Reasoned(), rest, newline);
        ProcessLine(rest[..newline + 1]);
        rest := rest[newline + 1..];
      }
    }

    /** Routes one newline-terminated line. */
    method ProcessLine(line: string)
      requires err == if cut then Some(StreamIncomplete) else None
      modifies `held, `data, `name, `carries, `terminal, `out, `err, `cut, `exhausted
      ensures State() == Step(kind, old(State()), EventFilter.Read(line))
      ensures Reasoned() == Step(Reasons(), old(Reasoned()), EventFilter.Read(line))
      ensures err == if cut then Some(StreamIncomplete) else None
    {
      hide Parse, Dispatch, Emit, ReasonedAway;
      match Parse(line) {
        case Blank =>
          DispatchEvent(line);
          return;
        case Data(value) =>
          data := data + value + "\n";
          if !carries {
            carries := true;
            assert delivered + (out + held) == delivered + out + held;
            out := out + held;
            held := "";
          }
        case Name(value) =>
          name := value;
        case Other =>
      }
      EmitLine(line);
    }

    method EmitLine(line: string)
      modifies `held, `out
      ensures State() == Emit(old(State()), EventFilter.Read(line))
      ensures Reasoned() == Emit(old(Reasoned()), EventFilter.Read(line))
    {
      if carries {
        assert delivered + (out + line) == delivered + out + line;
        out := out + line;
        return;
      }
      held := held + line;
    }

    /** Ends the current event: one that carried data is passed on and classified, another is dropped. */
    method DispatchEvent(blank: string)
      requires err == if cut then Some(StreamIncomplete) else None
      modifies `held, `data, `name, `carries, `terminal, `out, `err, `cut, `exhausted
      ensures State() == Dispatch(kind, old(State()), EventFilter.Read(blank))
      ensures Reasoned() == Dispatch(Reasons(), old(Reasoned()), EventFilter.Read(blank))
      ensures err == if cut then Some(StreamIncomplete) else None
    {
      hide Parse;
      if carries {
        assert delivered + (out + blank) == delivered + out + blank;
        out := out + blank;
        Classify();
      }
      held, data, name, carries := "", "", "", false;
    }

    method Classify()
      requires err == if cut then Some(StreamIncomplete) else None
      modifies `terminal, `err, `cut, `exhausted
      ensures exhausted == (old(exhausted) || (kind(data, name).Incomplete? && reasoningOnly(data)))
      ensures terminal == (old(terminal) || !kind(data, name).Ordinary?)
      ensures cut == (old(cut) || kind(data, name).Incomplete?)
      ensures err == if cut then Some(StreamIncomplete) else None
    {
      match kind(data, name) {
        case Terminal =>
          terminal := true;
        case Incomplete =>
          terminal := true;
          cut := true;
          if reasoningOnly(data) {
            exhausted := true;
          }
          Fail(StreamIncomplete);
        case Ordinary =>
      }
    }

    method Fail(error: Error)
      modifies `err
      ensures err == if old(err) == None then Some(error) else old(err)
    {
      if err == None {
        err := Some(error);
      }
    }
  }

  lemma ChunkArrives(kind: Classifier, before: string, chunk: string)
    ensures Tail(Tail(before) + chunk) == Tail(before + chunk)
    ensures Run(kind, Run(kind, INIT, LinesOf(before)), LinesOf(Tail(before) + chunk))
            == Run(kind, INIT, LinesOf(before + chunk))
  {
    LinesConcat(before, chunk);
    ReadConcat(Lines(before), Lines(Tail(before) + chunk));
    RunConcat(kind, INIT, LinesOf(before), LinesOf(Tail(before) + chunk));
  }

  lemma NextLine(kind: Classifier, f: Filter, text: string, newline: nat)
    requires newline < |text| && NewlineAt(text) == newline
    ensures Tail(text) == Tail(text[newline + 1..])
    ensures Run(kind, f, LinesOf(text))
            == Run(kind, Step(kind, f, EventFilter.Read(text[..newline + 1])), LinesOf(text[newline + 1..]))
  {
    var line := EventFilter.Read(text[..newline + 1]);
    assert LinesOf(text) == [line] + LinesOf(text[newline + 1..]);
    RunConcat(kind, f, [line], LinesOf(text[newline + 1..]));
    assert [line][..0] == [];
  }

  // ---------- a whole body, drained ----------

  /** What has been read of a body so far determines a prefix of what the filter keeps of all of it. */
  lemma FilteredPrefix(kind: Classifier, a: string, b: string)
    ensures var f, g := Run(kind, INIT, LinesOf(a)), Run(kind, INIT, LinesOf(a + b));
            f.out <= g.out && (f.cut ==> g.cut)
  {
    ChunkArrives(kind, a, b);
    OutputOnlyGrows(kind, Run(kind, INIT, LinesOf(a)), LinesOf(Tail(a) + b));
  }

  /**
    Draining a reader. For every body, every split into chunks and every positive buffer sizes, the
    delivered bytes are a prefix of the one-shot filter. Without a response.incomplete event they
    are all of it and the final error judges a clean end by the terminal events seen; with one the
    error is ErrStreamIncomplete, and exactly the chunks up to the one that completed that event
    have been filtered. The budget has learnt of a reasoning-only attempt exactly when one of the
    events in those chunks was an incomplete response of nothing but reasoning. Of a body that is
    written down event by event, with either line ending, it is the events with a data line that
    are delivered, and their kinds that judge its end.
   */
  method Drain(kind: Classifier, reasoningOnly: string -> bool, chunks: seq<string>, end: Error, sizes: nat -> nat)
    returns (got: string, error: Error, exhausted: bool)
    requires chunks != []
    requires forall i :: sizes(i) > 0
    ensures var lines := LinesOf(Joined(chunks));
            && got <= KeptEvents(lines)
            && DeliversChunks(kind, chunks, got)
            && LearnsFromChunks(kind, reasoningOnly, chunks, exhausted)
            && (!Dispatched(kind, lines, Incomplete) ==>
                  && got == KeptEvents(lines)
                  && error == if end.Eof? && !Dispatched(kind, lines, Terminal) then StreamIncomplete else end)
            && (Dispatched(kind, lines, Incomplete) ==>
                  && error == StreamIncomplete
                  && exists n: nat ::
                     n <= |lines| && Dispatched(kind, lines[..n], Incomplete) && KeptEvents(lines[..n]) <= got)
    ensures forall events | AreEvents(events) && Joined(chunks) == PrintedBody(events) ::
              if SomeEvent(kind, events, Incomplete) then error == StreamIncomplete
              else
                && got == PrintedBody(WithData(events))
                && error == if end.Eof? && !SomeEvent(kind, events, Terminal) then StreamIncomplete else end
  {
    hide IsAt, Run, DeliversChunks, LearnsFromChunks, ReasonedAway, Joined, KeptEvents, Dispatched, PrintedBody,
         WithData,
         SomeEvent, AreEvents;
    var reader := new EventStreamReader(kind, reasoningOnly, chunks, end);
    ghost var lines := LinesOf(Joined(chunks));
    ghost var all := Run(kind, INIT, lines);
    FilterKeepsEvents(kind, INIT, lines);
    got := "";
    var i: nat := 0;
    while true
      invariant fresh(reader) && reader.Valid()
      invariant reader.chunks == chunks && reader.kind == kind && reader.end == end
      invariant reader.reasoningOnly == reasoningOnly
      invariant got == reader.delivered
      decreases |all.out| - |got|
    {
      ghost var before := got;
      var bytes, failed := reader.Read(sizes(i));
      got := got + bytes;
      ReadToTheEnd(kind, chunks, reader.body, reader.consumed);
      FilteredPrefix(kind, reader.consumed, Joined(reader.body));
      assert got <= all.out;
      if failed != None {
        error, exhausted := failed.value, reader.exhausted;
        ReasonedToTheEnd(kind, reasoningOnly, chunks, reader.body, reader.consumed);
        assert reader.delivered + "" == got;
        DrainedReader(kind, reader.consumed, reader.body);
        PrintedBodies(kind, Joined(chunks));
        return;
      }
      i := i + 1;
    }
  }

  lemma PrintedBodies(kind: Classifier, body: string)
    ensures forall events | AreEvents(events) && body == PrintedBody(events) ::
              && KeptEvents(LinesOf(body)) == PrintedBody(WithData(events))
              && forall wanted :: Dispatched(kind, LinesOf(body), wanted) <==> SomeEvent(kind, events, wanted)
  {
    hide KeptEvents, Dispatched, LinesOf, PrintedBody, WithData, SomeEvent, AreEvents;
    forall events | AreEvents(events) && body == PrintedBody(events)
      ensures KeptEvents(LinesOf(body)) == PrintedBody(WithData(events))
      ensures forall wanted :: Dispatched(kind, LinesOf(body), wanted) <==> SomeEvent(kind, events, wanted)
    {
      PrintedBodyIsFiltered(kind, events);
    }
  }

  /** Some event in the chunks the reader reads was incomplete and did nothing but reason. */
  ghost predicate LearnsFromChunks(kind: Classifier, reasoningOnly: string -> bool, chunks: seq<string>,
    exhausted: bool) {
    exists n: nat :: ReadsChunks(kind, chunks, n)
      && exhausted == Dispatched(ReasonedAway(kind, reasoningOnly), LinesOf(Joined(chunks[..n])), Terminal)
  }

  lemma {:induction false} NeverIncomplete(kind: Classifier, reasoningOnly: string -> bool, lines: seq<Line>)
    ensures !Dispatched(ReasonedAway(kind, reasoningOnly), lines, Incomplete)
    decreases |lines|
  {
    if lines != [] {
      NeverIncomplete(kind, reasoningOnly, lines[EventLength(lines)..]);
    }
  }

  lemma ReasonedToTheEnd(kind: Classifier, reasoningOnly: string -> bool, chunks: seq<string>, body: seq<string>,
    consumed: string)
    requires IsAt(kind, chunks, body, consumed) && (Run(kind, INIT, LinesOf(consumed)).cut || body == [])
    ensures LearnsFromChunks(kind, reasoningOnly, chunks,
            Run(ReasonedAway(kind, reasoningOnly), INIT, LinesOf(consumed)).terminal)
  {
    hide Run, KeptEvents, Dispatched, LinesOf, Joined, ReasonedAway;
    var reasons, n: nat := ReasonedAway(kind, reasoningOnly), |chunks| - |body|;
    FilterKeepsEvents(kind, INIT, LinesOf(consumed));
    FilterKeepsEvents(reasons, INIT, LinesOf(consumed));
    NeverIncomplete(kind, reasoningOnly, LinesOf(consumed));
    assert ReadsChunks(kind, chunks, n);
  }

  lemma {:induction false} JoinedTwo(a: seq<string>, b: seq<string>)
    ensures Joined(a + b) == Joined(a) + Joined(b)
  {
    if a == [] {
      assert a + b == b;
    } else {
      assert (a + b)[1..] == a[1..] + b;
      JoinedTwo(a[1..], b);
    }
  }

  /** What a reader with an error has consumed settles what it has delivered. */
  lemma DrainedReader(kind: Classifier, consumed: string, left: seq<string>)
    requires Run(kind, INIT, LinesOf(consumed)).cut || left == []
    ensures var lines, f := LinesOf(consumed + Joined(left)), Run(kind, INIT, LinesOf(consumed));
            && f.out <= KeptEvents(lines)
            && (f.cut <==> Dispatched(kind, lines, Incomplete))
            && (!f.cut ==> f.out == KeptEvents(lines) && (f.terminal <==> Dispatched(kind, lines, Terminal)))
            && (f.cut ==>
               exists n: nat ::
                 n <= |lines| && Dispatched(kind, lines[..n], Incomplete) && KeptEvents(lines[..n]) <= f.out)
  {
    var rest := Joined(left);
    var read, lines := LinesOf(consumed), LinesOf(consumed + rest);
    FilterKeepsEvents(kind, INIT, read);
    FilterKeepsEvents(kind, INIT, lines);
    FilteredPrefix(kind, consumed, rest);
    LinesConcat(consumed, rest);
    ReadConcat(Lines(consumed), Lines(Tail(consumed) + rest));
    assert lines[..|read|] == read;
    if left == [] {
      assert consumed + rest == consumed;
    }
  }
}
