/**
  The retry ladder around a model call (internal/agents/fence.go). The inner model is scripted: for
  every attempt, what it would yield. The consumer is too: after which item it hangs up.
 */
module RetryLadder {
  import opened Options

  /** A response after unfencing: does it carry an answer part, and does its text parse as JSON. */
  datatype Response = Response(partial: bool, hasAnswer: bool, isJson: bool, text: string)

  /** An error of the inner model; a permanent one describes the request, the credential or the account. */
  datatype Error = Error(permanent: bool, text: string)

  datatype Event = Message(response: Response) | Failed(sent: Option<Response>, error: Error)

  /** One attempt: what it yields, and whether it reasoned through its whole output budget. */
  datatype Attempt = Attempt(events: seq<Event>, spentBudget: bool)

  datatype Failure =
    | NotRetried(error: Error)
    | Plain(error: Error)
    | Cancelled(error: Error)
    | Spent(error: Error, attempts: int)
    | NoAnswer(attempts: int)

  /** What the consumer is handed: a response, an error, or both. */
  datatype Item = Item(response: Option<Response>, error: Option<Failure>)

  /** What the observer is told when an attempt starts and when it is over. */
  datatype Report = Started(attempt: nat) | Finished(attempt: nat, error: Option<Failure>, retrying: bool)

  function Final(response: Response): Item {
    Item(Some(response), None)
  }

  predicate Usable(response: Response) {
    response.hasAnswer && response.isJson
  }

  predicate IsPartial(item: Item) {
    item.error.None? && item.response.Some? && item.response.value.partial
  }

  // ---------- one attempt ----------

  /** The attempt produced nothing deliverable, so the ladder tries again. */
  predicate Retries(events: seq<Event>) {
    events == [] ||
    match events[0]
    case Message(response) => !response.partial && !Usable(response)
    case Failed(_, error) => !error.permanent
  }

  function Handed(event: Event): Item {
    match event
    case Message(response) => Final(response)
    case Failed(sent, error) =>
      if error.permanent then Item(None, Some(NotRetried(error))) else Item(sent, Some(Plain(error)))
  }

  /** The partials an attempt starts with, and the event behind them. */
  function Stream(events: seq<Event>): seq<Item> {
    if events == [] then []
    else if IsPartial(Handed(events[0])) then [Handed(events[0])] + Stream(events[1..])
    else [Handed(events[0])]
  }

  /** How many of the items a consumer takes that hangs up where it does not want more. */
  function Taken(items: seq<Item>, wants: nat -> bool, at: nat): seq<Item>
    decreases |items|
  {
    if items == [] then []
    else if wants(at) then [items[0]] + Taken(items[1..], wants, at + 1)
    else [items[0]]
  }

  function RetryError(events: seq<Event>): (error: Option<Failure>)
    ensures error.Some? ==> error.value.Plain?
  {
    if events != [] && events[0].Failed? then Some(Plain(events[0].error)) else None
  }

  function RetryResponse(events: seq<Event>): Option<Response> {
    if events != [] && events[0].Message? then Some(events[0].response) else None
  }

  // ---------- the whole ladder ----------

  /** The call's environment: attempts, backoff, inner model, cancellation while waiting, consumer. */
  datatype Call = Call(
    attempts: int,
    waits: bool,
    inner: (nat, bool) -> Attempt,
    cancelled: nat -> Option<Error>,
    wants: nat -> bool)

  /** Attempt `k` goes out without reasoning: an earlier one spent its budget on it. */
  function Off(call: Call, k: nat): bool {
    k > 0 && (Off(call, k - 1) || call.inner(k - 1, Off(call, k - 1)).spentBudget)
  }

  function Script(call: Call, k: nat): seq<Event> {
    call.inner(k, Off(call, k)).events
  }

  /** What the last of the first `k` attempts yielded. */
  function LastScript(call: Call, k: nat): seq<Event> {
    if k == 0 then [] else Script(call, k - 1)
  }

  predicate CancelledBefore(call: Call, k: nat) {
    k > 0 && call.waits && call.cancelled(k).Some?
  }

  /** The one item a spent ladder delivers, judged by its last attempt. */
  function Exhausted(call: Call, last: seq<Event>): Item {
    if RetryResponse(last).Some? && RetryResponse(last).value.hasAnswer then Final(RetryResponse(last).value)
    else if RetryError(last).Some? then Item(None, Some(Spent(RetryError(last).value.error, call.attempts)))
    else Item(None, Some(NoAnswer(call.attempts)))
  }

  /** What the consumer hears of a call whose first `k` attempts were retried. */
  function HeardFrom(call: Call, k: nat): seq<Item>
    decreases call.attempts - k
  {
    if k >= call.attempts then [Exhausted(call, LastScript(call, k))]
    else if CancelledBefore(call, k) then [Item(None, Some(Cancelled(call.cancelled(k).value)))]
    else if Retries(Script(call, k)) then HeardFrom(call, k + 1)
    else Taken(Stream(Script(call, k)), call.wants, 0)
  }

  // ---------- what a call leaves behind ----------

  /** The observer's log of the first `k` attempts, all of them retried. */
  function RetriedReports(call: Call, k: nat): seq<Report> {
    if k == 0 then []
    else RetriedReports(call, k - 1) + [Started(k), Finished(k, RetryError(Script(call, k - 1)), k < call.attempts)]
  }

  function AsSequence<T>(value: Option<T>): seq<T> {
    match value
    case Some(x) => [x]
    case None => []
  }

  /** The responses whose usage the first `k` attempts recorded, all of them retried. */
  function RetriedResponses(call: Call, k: nat): seq<Response> {
    if k == 0 then [] else RetriedResponses(call, k - 1) + AsSequence(RetryResponse(Script(call, k - 1)))
  }

  /** The responses among the items; an item with an error is none, even if a response came with it. */
  function Answers(items: seq<Item>): seq<Response> {
    if items == [] then []
    else
      var item := items[|items| - 1];
      Answers(items[..|items| - 1]) + if item.error.None? then AsSequence(item.response) else []
  }

  /** Once an attempt spent its budget on reasoning, every later one goes out without, and only then. */
  lemma {:induction false} OffIffSpent(call: Call, k: nat)
    ensures Off(call, k) <==> exists j: nat :: j < k && call.inner(j, Off(call, j)).spentBudget
  {
    if k > 0 {
      OffIffSpent(call, k - 1);
      if j: nat :| j < k && call.inner(j, Off(call, j)).spentBudget {
        assert j == k - 1 || j < k - 1;
      }
    }
  }

  /** Every retried attempt is reported twice, and as going to be retried unless it is the last one. */
  lemma {:induction false} ReportsOfRetried(call: Call, k: nat)
    ensures |RetriedReports(call, k)| == 2 * k
    ensures forall j: nat | j < k ::
              && RetriedReports(call, k)[2 * j] == Started(j + 1)
              && RetriedReports(call, k)[2 * j + 1]
                 == Finished(j + 1, RetryError(Script(call, j)), j + 1 < call.attempts)
  {
    if k > 0 {
      ReportsOfRetried(call, k - 1);
    }
  }

  /** Exactly the complete responses the retried attempts began with are recorded. */
  lemma {:induction false} ResponsesOfRetried(call: Call, k: nat, response: Response)
    ensures response in RetriedResponses(call, k)
            <==> exists j: nat :: j < k && Script(call, j) != [] && Script(call, j)[0] == Message(response)
  {
    if k > 0 {
      ResponsesOfRetried(call, k - 1, response);
      var last := Script(call, k - 1);
      assert RetryResponse(last) == Some(response) <==> last != [] && last[0] == Message(response);
      if j: nat :| j < k && Script(call, j) != [] && Script(call, j)[0] == Message(response) {
        assert j == k - 1 || j < k - 1;
      }
    }
  }

  /** A stream is its partials in order and the first event behind them, and nothing behind that. */
  lemma {:induction false} StreamStopsBehindPartials(partials: seq<Response>, last: Event, rest: seq<Event>)
    requires forall r | r in partials :: r.partial
    requires last.Message? ==> !last.response.partial
    ensures var events := Messages(partials) + [last] + rest;
            Stream(events)
            == Delivered(partials)
               + [match last
                  case Message(response) => Item(Some(response), None)
                  case Failed(sent, error) =>
                    if error.permanent then Item(None, Some(NotRetried(error))) else Item(sent, Some(Plain(error)))]
    ensures Stream(Messages(partials)) == Delivered(partials)
    decreases |partials|
  {
    var events := Messages(partials) + [last] + rest;
    if partials == [] {
      assert events[0] == last;
    } else {
      assert partials[0] in partials && forall r | r in partials[1..] :: r in partials;
      StreamStopsBehindPartials(partials[1..], last, rest);
      assert events[0] == Message(partials[0]) && events[1..] == Messages(partials[1..]) + [last] + rest;
    }
  }

  function Messages(responses: seq<Response>): seq<Event> {
    if responses == [] then [] else [Message(responses[0])] + Messages(responses[1..])
  }

  function Delivered(responses: seq<Response>): seq<Item> {
    if responses == [] then [] else [Item(Some(responses[0]), None)] + Delivered(responses[1..])
  }

  lemma AnswersSnoc(items: seq<Item>, item: Item)
    ensures item.error.Some? ==> Answers(items + [item]) == Answers(items)
    ensures item.error.None? && item.response.Some? ==>
              Answers(items + [item]) == Answers(items) + [item.response.value]
  {
    assert (items + [item])[..|items|] == items;
  }

  // ---------- the decorator ----------

  class FenceStrippingModel {
    const call: Call

    var out: seq<Item>
    var hungUp: bool
    var reports: seq<Report>
    /** The responses whose usage was recorded. */
    var recorded: seq<Response>

    var last: Option<Response>
    var lastErr: Option<Failure>
    var partial: bool

    constructor (call: Call)
      ensures this.call == call && out == [] && !hungUp && reports == [] && recorded == []
      ensures !partial && last.None? && lastErr.None?
    {
      this.call := call;
      out, hungUp, reports, recorded, last, lastErr, partial := [], false, [], [], None, None, false;
    }

    /** Hands over an item. A consumer that hung up must not be called again. */
    method Yield(item: Item) returns (more: bool)
      requires !hungUp
      modifies this`out, this`hungUp
      ensures out == old(out) + [item]
      ensures more == call.wants(|old(out)|) && hungUp == !more
    {
      more := call.wants(|out|);
      out := out + [item];
      hungUp := !more;
    }

    method HandleAttemptErr(sent: Option<Response>, error: Error) returns (done: bool)
      requires !hungUp
      modifies this`out, this`hungUp, this`last, this`lastErr
      ensures done == (error.permanent || partial)
      ensures last == None && lastErr == Handed(Failed(sent, error)).error
      ensures done ==> out == old(out) + [Handed(Failed(sent, error))]
      ensures !done ==> out == old(out) && !hungUp
    {
      last := None;
      if error.permanent {
        lastErr := Some(NotRetried(error));
        var _ := Yield(Item(None, lastErr));
        return true;
      }
      lastErr := Some(Plain(error));
      if !partial {
        return false;
      }
      var _ := Yield(Item(sent, lastErr));
      return true;
    }

    /** Runs one attempt, and says whether the call is finished. */
    method StreamAttempt(events: seq<Event>) returns (done: bool)
      requires !hungUp && out == [] && !partial && last == None && lastErr == None
      modifies this`out, this`hungUp, this`recorded, this`last, this`lastErr, this`partial
      ensures done == !Retries(events)
      ensures done ==> out == Taken(Stream(events), call.wants, 0)
      ensures done ==> lastErr == if out == [] then None else out[|out| - 1].error
      ensures done ==> recorded == old(recorded) + Answers(out)
      ensures !done ==>
              out == [] && !hungUp && !partial && last == RetryResponse(events) && lastErr == RetryError(events)
      ensures !done ==> recorded == old(recorded) + AsSequence(RetryResponse(events))
    {
      hide Answers, AsSequence, RetryResponse, RetryError, TakenFrom, Retries, Stream, Taken, Usable;
      StreamStarts(events, call.wants);
      NoAnswers();
      for i := 0 to |events|
        invariant !hungUp && last == None && lastErr == None && |out| == i && partial == (i > 0)
        invariant i > 0 ==> !Retries(events) && out[i - 1].error == None
        invariant recorded == old(recorded) + Answers(out)
        invariant Taken(Stream(events), call.wants, 0) == out + TakenFrom(events, call.wants, i)
      {
        StreamSteps(events, call.wants, i);
        AnswersSnoc(out, Handed(events[i]));
        match events[i]
        case Failed(sent, error) =>
          done := HandleAttemptErr(sent, error);
          return;
        case Message(response) =>
          recorded := recorded + [response];
          if response.partial {
            partial := true;
            var more := Yield(Final(response));
            if !more {
              return true;
            }
            continue;
          }
          if !partial && !Usable(response) {
            last, lastErr := Some(response), None;
            return false;
          }
          var _ := Yield(Final(response));
          return true;
      }
      assert TakenFrom(events, call.wants, |events|) == [];
      return partial;
    }

    method YieldExhausted()
      requires !hungUp && out == [] && (lastErr.Some? ==> !lastErr.value.NoAnswer?)
      modifies this`out, this`hungUp
      ensures out == [if last.Some? && last.value.hasAnswer then Final(last.value)
                      else if lastErr.Some? then Item(None, Some(Spent(lastErr.value.error, call.attempts)))
                      else Item(None, Some(NoAnswer(call.attempts)))]
    {
      if last.Some? && last.value.hasAnswer {
        var _ := Yield(Final(last.value));
      } else if lastErr.Some? {
        var _ := Yield(Item(None, Some(Spent(lastErr.value.error, call.attempts))));
      } else {
        var _ := Yield(Item(None, Some(NoAnswer(call.attempts))));
      }
    }

    /**
      The whole ladder: the first attempt that does not retry decides, and it alone is heard. Every
      attempt is reported when it starts and when it is over, with its own error, and every response
      received is recorded, the retried ones too.
     */
    method GenerateContent()
      requires !hungUp && out == [] && reports == [] && recorded == [] && !partial && last == None && lastErr == None
      modifies this
      ensures out == HeardFrom(call, 0)
      ensures forall k: nat | DecidedBy(call, 0, k) ::
                && out != []
                && reports == RetriedReports(call, k) + [Started(k + 1), Finished(k + 1, out[|out| - 1].error, false)]
                && recorded == RetriedResponses(call, k) + Answers(out)
      ensures forall k: nat | GivenUpBefore(call, 0, k) ::
                reports == RetriedReports(call, k) && recorded == RetriedResponses(call, k)
      ensures LadderSpent(call, 0) ==>
                var k := if call.attempts > 0 then call.attempts else 0;
                reports == RetriedReports(call, k) && recorded == RetriedResponses(call, k)
    {
      hide Retries, Stream, Taken, RetryResponse, RetryError, Off, HeardFrom, Exhausted, CancelledBefore;
      hide Answers, AsSequence, DecidedBy, GivenUpBefore, LadderSpent;
      FirstAttempt(call);
      var off := false;
      var attempt := 0;
      while attempt < call.attempts
        invariant !hungUp && out == [] && !partial && off == Off(call, attempt)
        invariant attempt == 0 ==> last == None && lastErr == None
        invariant attempt > 0 ==>
                  last == RetryResponse(Script(call, attempt - 1)) && lastErr == RetryError(Script(call, attempt - 1))
        invariant HeardFrom(call, 0) == HeardFrom(call, attempt)
        invariant attempt == 0 || attempt <= call.attempts
        invariant forall k | 0 <= k < attempt :: !CancelledBefore(call, k) && Retries(Script(call, k))
        invariant reports == RetriedReports(call, attempt) && recorded == RetriedResponses(call, attempt)
      {
        NextAttempt(call, attempt);
        if attempt > 0 && call.waits {
          var cancelled := call.cancelled(attempt);
          if cancelled.Some? {
            var _ := Yield(Item(None, Some(Cancelled(cancelled.value))));
            OnlyEnding(call, attempt);
            return;
          }
        }
        reports := reports + [Started(attempt + 1)];
        last, lastErr := None, None;
        var script := call.inner(attempt, off);
        assert script.events == Script(call, attempt);
        var done := StreamAttempt(script.events);
        reports := reports + [Finished(attempt + 1, lastErr, !done && attempt + 1 < call.attempts)];
        if done {
          NeverSilent(script.events, call.wants);
          OnlyEnding(call, attempt);
          return;
        }
        off := off || script.spentBudget;
        attempt := attempt + 1;
      }
      LadderEnds(call, attempt);
      OnlyEnding(call, attempt);
      YieldExhausted();
    }
  }

  /** When all attempts before `k` were retried, `k` settles how the call ends. */
  lemma OnlyEnding(call: Call, k: nat)
    requires forall j | 0 <= j < k :: !CancelledBefore(call, j) && Retries(Script(call, j))
    requires k == 0 || k <= call.attempts
    ensures k < call.attempts && CancelledBefore(call, k) ==>
              && !LadderSpent(call, 0) && (forall j: nat :: !DecidedBy(call, 0, j))
              && forall j: nat :: GivenUpBefore(call, 0, j) ==> j == k
    ensures k < call.attempts && !CancelledBefore(call, k) && !Retries(Script(call, k)) ==>
              && !LadderSpent(call, 0) && (forall j: nat :: !GivenUpBefore(call, 0, j))
              && forall j: nat :: DecidedBy(call, 0, j) ==> j == k
    ensures k >= call.attempts ==>
            (forall j: nat :: !DecidedBy(call, 0, j)) && forall j: nat :: !GivenUpBefore(call, 0, j)
  {
    hide CancelledBefore, Retries, Script;
  }

  lemma NoAnswers()
    ensures Answers([]) == []
  {
  }

  /** What is taken of an attempt behind its first `i` events. */
  function TakenFrom(events: seq<Event>, wants: nat -> bool, i: nat): seq<Item>
    requires i <= |events|
  {
    Taken(Stream(events[i..]), wants, i)
  }

  lemma StreamStarts(events: seq<Event>, wants: nat -> bool)
    ensures TakenFrom(events, wants, 0) == Taken(Stream(events), wants, 0)
    ensures TakenFrom(events, wants, |events|) == []
    ensures events == [] ==> Retries(events) && RetryError(events) == None && RetryResponse(events) == None
    ensures AsSequence<Response>(None) == [] && forall response: Response :: AsSequence(Some(response)) == [response]
  {
    assert events[0..] == events;
  }

  lemma StreamSteps(events: seq<Event>, wants: nat -> bool, i: nat)
    requires i < |events|
    ensures TakenFrom(events, wants, i) ==
            if IsPartial(Handed(events[i])) && wants(i)
            then [Handed(events[i])] + TakenFrom(events, wants, i + 1)
            else [Handed(events[i])]
    ensures i == 0 && IsPartial(Handed(events[i])) ==> !Retries(events)
    ensures i == 0 && events[0].Message? && !events[0].response.partial ==>
            Retries(events) == !Usable(events[0].response)
    ensures i == 0 && events[0].Failed? ==> Retries(events) == !events[0].error.permanent
    ensures i == 0 && events[0].Message? ==>
              RetryResponse(events) == Some(events[0].response) && RetryError(events) == None
    ensures i == 0 && events[0].Failed? ==>
              RetryResponse(events) == None && RetryError(events) == Some(Plain(events[0].error))
  {
    assert events[i..][1..] == events[i + 1..];
    var items := Stream(events[i..]);
    if IsPartial(Handed(events[i])) {
      assert items[1..] == Stream(events[i + 1..]);
    } else {
      assert items[1..] == [] && Taken(items[1..], wants, i + 1) == [];
    }
  }

  lemma FirstAttempt(call: Call)
    ensures !Off(call, 0) && !CancelledBefore(call, 0)
  {
  }

  lemma NextAttempt(call: Call, k: nat)
    requires k < call.attempts
    ensures CancelledBefore(call, k) <==> k > 0 && call.waits && call.cancelled(k).Some?
    ensures Off(call, k + 1) <==> Off(call, k) || call.inner(k, Off(call, k)).spentBudget
    ensures HeardFrom(call, k) ==
            if CancelledBefore(call, k) then [Item(None, Some(Cancelled(call.cancelled(k).value)))]
            else if Retries(Script(call, k)) then HeardFrom(call, k + 1)
            else Taken(Stream(Script(call, k)), call.wants, 0)
  {
  }

  lemma LadderEnds(call: Call, k: nat)
    requires k >= call.attempts
    ensures var last := if k == 0 then [] else Script(call, k - 1);
            HeardFrom(call, k) ==
            [if RetryResponse(last).Some? && RetryResponse(last).value.hasAnswer then Final(RetryResponse(last).value)
             else if RetryError(last).Some? then Item(None, Some(Spent(RetryError(last).value.error, call.attempts)))
             else Item(None, Some(NoAnswer(call.attempts)))]
    ensures RetryResponse([]) == None && RetryError([]) == None
  {
  }

  lemma NeverSilent(events: seq<Event>, wants: nat -> bool)
    requires !Retries(events)
    ensures Taken(Stream(events), wants, 0) != []
  {
  }

  // ---------- what the ladder promises ----------

  /** Only the last item of a stream may be final. */
  lemma {:induction false} StreamEndsOnce(events: seq<Event>, i: nat)
    requires i + 1 < |Stream(events)|
    ensures IsPartial(Stream(events)[i])
  {
    if i > 0 {
      StreamEndsOnce(events[1..], i - 1);
    }
  }

  lemma {:induction false} TakenIsAPrefix(items: seq<Item>, wants: nat -> bool, at: nat)
    ensures Taken(items, wants, at) <= items
    ensures forall i | at <= i < at + |Taken(items, wants, at)| - 1 :: wants(i)
    ensures Taken(items, wants, at) == items
            || (Taken(items, wants, at) != [] && !wants(at + |Taken(items, wants, at)| - 1))
  {
    if items != [] && wants(at) {
      TakenIsAPrefix(items[1..], wants, at + 1);
    }
  }

  /** The call is decided by its attempt `k`. */
  ghost predicate DecidedBy(call: Call, from: nat, k: nat) {
    && from <= k < call.attempts && !CancelledBefore(call, k) && !Retries(Script(call, k))
    && forall j: nat | from <= j < k :: !CancelledBefore(call, j) && Retries(Script(call, j))
  }

  /** All attempts from `from` on were retried. */
  ghost predicate LadderSpent(call: Call, from: nat) {
    forall j: nat | from <= j < call.attempts :: !CancelledBefore(call, j) && Retries(Script(call, j))
  }

  /** The wait before attempt `k` was cut short, and all attempts before it were retried. */
  ghost predicate GivenUpBefore(call: Call, from: nat, k: nat) {
    && from <= k < call.attempts && CancelledBefore(call, k)
    && forall j: nat | from <= j < k :: !CancelledBefore(call, j) && Retries(Script(call, j))
  }

  /** There is no fourth way for a call to end. */
  lemma {:induction false} HowACallEnds(call: Call, from: nat)
    ensures LadderSpent(call, from) || (exists k: nat :: DecidedBy(call, from, k))
            || (exists k: nat :: GivenUpBefore(call, from, k))
    decreases call.attempts - from
  {
    if from < call.attempts && !CancelledBefore(call, from) && Retries(Script(call, from)) {
      var next := from + 1;
      HowACallEnds(call, next);
      if k: nat :| DecidedBy(call, next, k) {
        assert DecidedBy(call, from, k);
      } else if k: nat :| GivenUpBefore(call, next, k) {
        assert GivenUpBefore(call, from, k);
      }
    } else if from < call.attempts {
      assert DecidedBy(call, from, from) || GivenUpBefore(call, from, from);
    }
  }

  /** The first attempt that does not retry is heard, and nothing of any other attempt. */
  lemma {:induction false} DecidingAttemptIsHeard(call: Call, from: nat, k: nat)
    requires DecidedBy(call, from, k)
    ensures HeardFrom(call, from) == Taken(Stream(Script(call, k)), call.wants, 0)
    decreases k - from
  {
    if from < k {
      DecidingAttemptIsHeard(call, from + 1, k);
    }
  }

  lemma {:induction false} GivingUpIsHeard(call: Call, from: nat, k: nat)
    requires GivenUpBefore(call, from, k)
    ensures HeardFrom(call, from) == [Item(None, Some(Cancelled(call.cancelled(k).value)))]
    decreases k - from
  {
    if from < k {
      GivingUpIsHeard(call, from + 1, k);
    }
  }

  lemma {:induction false} SpentLadderIsHeard(call: Call, from: nat)
    requires LadderSpent(call, from) && from <= call.attempts
    ensures HeardFrom(call, from) == [Exhausted(call, LastScript(call, call.attempts))]
    decreases call.attempts - from
  {
    if from < call.attempts {
      SpentLadderIsHeard(call, from + 1);
    }
  }

  /**
    Whatever the inner model and the consumer do: the call is never silent, at most its last item
    is final, and a complete response without an answer part reaches the consumer only behind a
    partial of the same attempt.
   */
  lemma AtMostOneFinalItem(call: Call)
    ensures var heard := HeardFrom(call, 0);
            && heard != []
            && (forall i | 0 <= i < |heard| - 1 :: IsPartial(heard[i]) && call.wants(i))
            && (heard[0].error.None? && !IsPartial(heard[0]) ==>
               heard[0].response.Some? && heard[0].response.value.hasAnswer)
  {
    hide Taken, Stream, Retries;
    HowACallEnds(call, 0);
    if k: nat :| DecidedBy(call, 0, k) {
      var events := Script(call, k);
      DecidingAttemptIsHeard(call, 0, k);
      StreamIsDelivered(events, call.wants);
    } else if k: nat :| GivenUpBefore(call, 0, k) {
      GivingUpIsHeard(call, 0, k);
    } else if call.attempts >= 0 {
      SpentLadderIsHeard(call, 0);
    }
  }

  lemma StreamIsDelivered(events: seq<Event>, wants: nat -> bool)
    requires !Retries(events)
    ensures var heard := Taken(Stream(events), wants, 0);
            && heard != []
            && (forall i | 0 <= i < |heard| - 1 :: IsPartial(heard[i]) && wants(i))
            && (heard[0].error.None? && !IsPartial(heard[0]) ==>
               heard[0].response.Some? && heard[0].response.value.hasAnswer)
  {
    TakenIsAPrefix(Stream(events), wants, 0);
    var heard := Taken(Stream(events), wants, 0);
    forall i | 0 <= i < |heard| - 1 ensures IsPartial(heard[i]) && wants(i) {
      StreamEndsOnce(events, i);
    }
  }

  /** An answer that does not parse is heard whole only when every attempt was spent on it. */
  lemma UnusableAnswerMeansSpentLadder(call: Call)
    requires var heard := HeardFrom(call, 0);
             heard != [] && heard[0].error.None? && !IsPartial(heard[0]) && heard[0].response.Some?
               && !Usable(heard[0].response.value)
    ensures LadderSpent(call, 0)
  {
    AtMostOneFinalItem(call);
    HowACallEnds(call, 0);
    if k: nat :| DecidedBy(call, 0, k) {
      DecidingAttemptIsHeard(call, 0, k);
      assert false;
    } else if k: nat :| GivenUpBefore(call, 0, k) {
      GivingUpIsHeard(call, 0, k);
      assert false;
    }
  }
}
