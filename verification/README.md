# A verified model of gotorque's algorithmic core

gotorque proposes performance patches with language models, measures them and keeps the ones that
hold up. This project models the parts of it that compute: salvaging JSON from model answers,
reading event streams, normalizing diffs, confining and splicing patches, the paired statistics a
verdict rests on, the order in which series are measured again, the retry ladder around a model
call, and the order in which a verdict is made durable. Each loop of the program is a method with
its invariants, proved against a function or a relation, and what the program promises is proved
about that function for every input, every run or every crash.

| module | models |
|---|---|
| JsonLexer, MissingClosers, Truncation, ControlChars, EmbeddedQuotes | the byte scanners of internal/agents/decode.go, over one notion of string, escape and open containers (section 7 of RFC 8259) |
| JsonDocuments, DocumentRepairs, QuoteRepairs, DocumentNesting | whole JSON documents as they are written down, damaged, and what the scanners make of them |
| PayloadSearch, PayloadNesting, Amplification | the same lexer at work in internal/agents/fence.go and internal/discovery/amplify.go |
| EventFilter, PrintedEvents, EventStream, ChunkDependence | the incremental reader of internal/agents/sse.go against a one-shot filter (event streams: section 9.2.6 of the WHATWG HTML Living Standard) |
| RetryLadder | the decorator of internal/agents/fence.go, its inner model and its consumer scripted |
| Text, Options, HunkHeader, UnifiedDiff, PrintedDiffs, DroppedHunks | internal/candidate/normalize.go |
| DiffMarks, PatchConfinement, SourceEdits | internal/campaign/shape.go and internal/campaign/multi_function_source.go |
| Samples, RankSumDistribution, SignedRankTest, RankVariance, ShiftEstimate | internal/campaign/paired.go and internal/campaign/shift.go |
| SampleFolds, Measurements, Confirmation | measuring and measuring again in internal/campaign/candidate_eval.go |
| TokenUsage, Settlement | internal/campaign/adk.go, with the save step of internal/campaign/engine.go and internal/orchestrator/ledger.go |

The results a reader should look at first:

- `MissingClosers.RepairWorksIffRepairable`: greedy closing succeeds exactly when some insertion of closers does.
- `Truncation.AnyCutIsRepairable`: wherever a well-nested payload is cut, a candidate repairs it.
- `DocumentRepairs.TrailingCommasGo`, `DocumentRepairs.RawControlsAreEscaped` and `QuoteRepairs.BareQuotesAreEscaped`:
  a damaged document comes out as the document that was meant.
- `EventStream.Drain`: the delivered bytes for every body, every split into chunks and every buffer.
- `UnifiedDiff.NormalizationIsIdempotent` and `PrintedDiffs.NormalizationRecoversPrintedDiff`.
- `PatchConfinement.PassingCheckConfines` and `PatchConfinement.PassingCheckKeepsOldFunctions`: from a diff's text to
  unchanged functions.
- `SourceEdits.ApplyEdits`: back-to-front edits are a simultaneous substitution.
- `RankVariance.ExactBranch` and `RankVariance.NormalBranch`: what p is, in terms of random signs, and
  `SignedRankTest.SignedRankSymmetries`.
- `ShiftEstimate.ShiftBreakdown`.
- `Confirmation.Evaluator.SecondLook`: what the verdict rests on after every confirmation.
- `RetryLadder.DecidingAttemptIsHeard` and `RetryLadder.AtMostOneFinalItem`.
- `Settlement.Engine.Campaign`: what is on disk, whatever fails or crashes.

Claims that look natural and are false of the code are stated with the exact condition under which
they hold, and with an input that breaks them:

| claim | holds if and only if | input that breaks it |
|---|---|---|
| one pass drops all trailing commas | `Truncation.OnePassIsEnoughIff` | `Truncation.TwoPassesForStackedCommas` |
| quote escaping leaves valid JSON alone | `EmbeddedQuotes.UntouchedIff` | `EmbeddedQuotes.ValidJsonMayBeRewritten` |
| no raw control byte is left in a string | `ControlChars.ControlsGoneIff` | `ControlChars.ControlBehindBackslashStays` |
| closing makes a text well nested | `MissingClosers.RepairWorksIffNeverStray` | `MissingClosers.StrayCloserPasses` |
| a payload that is found is well nested | `PayloadNesting.FoundPayloadIsNestedIff` | `PayloadNesting.CrossedKindsAreFound` |
| the delivered bytes do not depend on the chunks | `ChunkDependence.ChunksDoNotMatterIff` | `ChunkDependence.ChunksMatterHere` |
| a hunk header reads its own starts back | `HunkHeader.StartsReadBackIff` | `HunkHeader.ZeroStartBecomesOne`, `HunkHeader.TrailMayOverrideAStart` |
| the hunks of a file are read back in full | `DiffMarks.HunksReadBackIff` | `DiffMarks.HiddenHeaderLosesMarks` |
| a diff is left alone by normalizing it | `UnifiedDiff.UnchangedIffNormal` | any diff without a final newline |
| a file's headers go only when no hunk of it is left | `DroppedHunks.HeadersStayIff` | `DroppedHunks.OrphanedHunk` |
| insertions at one place commute | `SourceEdits.EqualStartsDependOnOrder` | `SourceEdits.InsertionsMayDisagree`, which the only caller never builds |

Where the code and its comments differ the model follows the code. The comment on
`meanPerRepetition` allows series of differing length; `Confirmation` shows they never differ on a
successful path. The comment on `parseStarts` speaks of non-numeric starts; the code also replaces a
start of 0, and lets a later field of the header override a start. `approxSignedRankP` guards
against a variance that `SignedRankTest.VarianceStaysPositive` shows cannot occur.

`dafny verify dfyconfig.toml` checks the whole project.

## Model

| member | source | states |
|---|---|---|
| JsonLexer.ScanJsonString | internal/agents/decode.go:170-180 | one byte inside a string moves the shared lexer as RFC 8259 reads strings and escapes |
| MissingClosers.CloseMismatched | internal/agents/decode.go:620-631 | a closer first closes everything opened above its innermost partner, all of it when it has none, then pops the partner; changed exactly when something was closed |
| MissingClosers.FinishClosers | internal/agents/decode.go:633-641 | whatever is open is closed innermost first, unless the text ends inside a string |
| MissingClosers.RepairMissingClosers | internal/agents/decode.go:592-618 | the loop computes the greedy repair, and reports a change exactly when the text changed |
| MissingClosers.RepairInsertsClosers | internal/agents/decode.go:588-641 | for every text the repair only inserts closers, and only outside strings: the input stays a subsequence |
| MissingClosers.GreedyClosingIsComplete | internal/agents/decode.go:592-641 | from any stack that is a subsequence of the greedy one: where some way to insert closers ends well nested, so does the greedy repair |
| MissingClosers.RepairWorksIffRepairable | internal/agents/decode.go:592-641 | the repair is well nested if and only if some insertion of closers outside strings is |
| MissingClosers.RepairWorksIffNeverStray | internal/agents/decode.go:592-641 | on the input itself, from every stack: the repair is well nested if and only if the text ends outside strings and no closer is met with nothing of its kind open on the greedy stack |
| MissingClosers.RepairedIsMatched | internal/agents/decode.go:592-641 | after the repair no closer meets an open container of the other kind, and nothing is open when the text ends outside a string |
| MissingClosers.MatchedIsUntouched | internal/agents/decode.go:592-641 | a text with no mismatch and nothing open is returned as it is |
| MissingClosers.RepairedIsAProjection | internal/agents/decode.go:592-641 | the repair is idempotent, and is the identity on exactly the matched texts |
| MissingClosers.StrayCloserPasses | internal/agents/decode.go:620-631 | with nothing open a stray closer is passed through, so the repair of "}" is not well nested |
| Truncation.IsTrailingComma | internal/agents/decode.go:253-256 | true exactly when only white space stands between the comma and a closer |
| Truncation.RepairCommonMalformations | internal/agents/decode.go:367-386 | the loop drops exactly the commas outside strings that trail before a closer |
| Truncation.CommasDoNotNest | internal/agents/decode.go:367-386 | dropping them changes nothing about nesting, in either direction, from any lexer state |
| Truncation.OnePassIsEnoughIff | internal/agents/decode.go:367-386 | a second pass changes nothing if and only if no trailing comma stood in front of another trailing comma |
| Truncation.TwoPassesForStackedCommas | internal/agents/decode.go:367-386 | "[1,,]" becomes "[1,]" and only a second pass makes it "[1]" |
| Truncation.TerminateOpenString | internal/agents/decode.go:563-586 | answers exactly when the text ends inside a string, with the string closed and a dangling backslash dropped |
| Truncation.RepairCandidates | internal/agents/decode.go:540-559 | the candidates in order: closers added, the last quote dropped, an open string closed |
| Truncation.StructuralRepairs | internal/agents/decode.go:136-151 | every candidate, with trailing commas dropped and its name joined to the repair the text already carries |
| Truncation.CutOutsideStrings | internal/agents/decode.go:592-641 | any prefix of a well-nested text that ends outside strings is completed to a well-nested text by closers alone |
| Truncation.CutInsideString | internal/agents/decode.go:563-641 | any prefix that ends inside a string is completed by a quote and closers |
| Truncation.AnyCutIsRepairable | internal/agents/decode.go:136-143 | for every cut of every well-nested payload the candidate its end calls for extends the cut text, up to one dropped backslash, is well nested, and stays so after trailing commas are dropped |
| DocumentRepairs.TrailingCommasGo | internal/agents/decode.go:364-386 | every document written with commas in front of closers, of arrays and of objects and with any blanks around them, comes out as the same document without them, and no other comma goes |
| DocumentNesting.DocumentIsNested | internal/agents/decode.go:592-641 | every written document is well nested whatever its strings hold, and closing it changes nothing |
| DocumentNesting.StrayQuoteIsDropped | internal/agents/decode.go:540-552 | a well-nested text with one quote too many, and none behind it, is the second candidate, quote dropped |
| ControlChars.JsonControlEscape | internal/agents/decode.go:349-362 | exactly the bytes below 0x20 have an escape: the short one where JSON has one and a four-digit one otherwise |
| ControlChars.EscapeRawControlChars | internal/agents/decode.go:309-345 | the loop writes exactly the escaped text and reports a change exactly when there is one |
| ControlChars.ControlEscapesKeepBoundaries | internal/agents/decode.go:309-345 | at every position the escaped prefix leaves the lexer where the raw prefix left it, so no string boundary moves |
| ControlChars.ControlEscapesAreIdempotent | internal/agents/decode.go:309-345 | escaping an escaped text changes nothing |
| ControlChars.ControlsGoneIff | internal/agents/decode.go:309-345 | a raw control byte is left in a string if and only if the input has one directly behind a backslash |
| ControlChars.ControlBehindBackslashStays | internal/agents/decode.go:309-345 | a newline behind a backslash in a string is left as it is |
| ControlChars.PlainStringReads | internal/agents/decode.go:302-362 | the reading that the rewrite keeps is, of a string without escapes, the codes of its characters, and then that of the text behind it |
| ControlChars.ShortEscapesRead | internal/agents/decode.go:302-362 | and of each short escape the code RFC 8259 gives it |
| ControlChars.ControlEscapesReadTheSame | internal/agents/decode.go:302-362 | the escaped text, unescaped, reads as the raw text did, for every text |
| DocumentRepairs.RawControlsAreEscaped | internal/agents/decode.go:302-362 | every document whose strings hold raw bytes below 0x20 comes out as the document with exactly those escaped, and its strings hold plain characters and escapes alone |
| EmbeddedQuotes.QuoteTerminates | internal/agents/decode.go:216-229 | the look-ahead that decides whether a quote ends its string |
| EmbeddedQuotes.EscapeEmbeddedQuotes | internal/agents/decode.go:231-300 | the loop with its container stack, depth and previous byte computes one state machine's output; changed exactly when it inserted something |
| EmbeddedQuotes.OnlyBackslashesInserted | internal/agents/decode.go:243-300 | for every text only backslashes in front of quotes inside strings are inserted; deleting them gives the text back |
| EmbeddedQuotes.QuotingIsIdempotent | internal/agents/decode.go:263-300 | a second pass changes nothing, from every state |
| EmbeddedQuotes.UntouchedIff | internal/agents/decode.go:216-300 | a text is left alone if and only if every quote inside a string passes the look-ahead at the depth it is met at |
| EmbeddedQuotes.ValidJsonMayBeRewritten | internal/agents/decode.go:263-300 | the valid document ["{"] is rewritten, because a brace in a string counts towards the depth of the quotes after it |
| QuoteRepairs.BareQuotesAreEscaped | internal/agents/decode.go:190-300 | a container whose string values, in arrays and behind keys, hold bare quotes comes out as the document with exactly those escaped, when each stands inside brackets of its string or in front of a byte that cannot follow a value, and each value ends with no bracket open |
| PayloadSearch.BalancedJson | internal/agents/fence.go:417-468 | succeeds exactly when the depth counted from the first opener returns to zero at a closer of that opener's kind, and then returns that span |
| PayloadSearch.NoOtherBalance | internal/agents/fence.go:417-468 | there is at most one such span, so what is found does not depend on the search |
| PayloadSearch.PayloadIsFoundInProse | internal/agents/fence.go:417-468 | a well-nested container behind prose without openers is found exactly, whatever follows it |
| PayloadNesting.FoundPayloadIsNestedIff | internal/agents/fence.go:417-468 | the span found is well nested if and only if each closer in it is of the kind of the opener it brings the depth back to |
| PayloadNesting.CrossedKindsAreFound | internal/agents/fence.go:452-468 | the text {[}} is found whole and is not well nested |
| Amplification.JsonScanState.Advance | internal/discovery/amplify.go:153-170 | one byte moves the shared lexer, and is reported literal exactly inside strings and at their quotes |
| Amplification.LargestJsonArray | internal/discovery/amplify.go:118-142 | returns a matched pair of square brackets outside strings, at least as wide as every other one and first-closing among equals; fails exactly when there is none |
| Amplification.MatchedByTop | internal/discovery/amplify.go:118-142 | a closing bracket matches the top of the stack and no other opener |
| Amplification.AmplifyJsonArray | internal/discovery/amplify.go:91-109 | repeats the elements of that array, which are not all white space, the least number of times that reaches the target, and keeps a well-nested document well nested |
| Amplification.BodyIsBalanced | internal/discovery/amplify.go:91-109 | the elements of an array leave the container stack where they found it |
| Amplification.CopiesKeepNesting | internal/discovery/amplify.go:91-109 | for every well-nested document, every matched pair and every number of copies, the copied document is well nested |
| DocumentNesting.AmplifiedArrayIsAnArray | internal/discovery/amplify.go:91-109 | copying the text between the brackets of any array with elements gives, whatever stands around it, that array with its elements repeated |
| Amplification.AllBlankIff | internal/discovery/amplify.go:96-98 | a text is taken for blank exactly when it is the UTF-8 encoding of Unicode white space |
| DocumentNesting.BlankBodyIff | internal/discovery/amplify.go:96-98 | the text between the brackets of an array is white space exactly when it has no elements |
| EventFilter.LinesConcat | internal/agents/sse.go:90-99 | the complete lines and the unfinished tail of a text read in two parts are those of the whole |
| EventFilter.OutputOnlyGrows | internal/agents/sse.go:105-147 | no further line takes back what was passed on |
| EventFilter.FilterKeepsEvents | internal/agents/sse.go:105-183 | the line-by-line filter passes on exactly the events that carry a data line, byte for byte, and has seen a terminal event exactly when one was dispatched |
| PrintedEvents.FieldReadsBack | internal/agents/sse.go:107-118 | a printed line reads as its field: with a newline or a carriage return and a newline, with or without a space behind the colon, and without a colon |
| PrintedEvents.BlankLineIff | internal/agents/sse.go:107-112 | a line is blank exactly when nothing, or a carriage return alone, stands in front of its newline |
| PrintedEvents.PrintedBodyIsFiltered | internal/agents/sse.go:87-183 | of any body written event by event exactly the events with a data line are kept, byte for byte, and each is classified by its data values joined by newlines and its last name |
| PrintedEvents.LineEndingsDoNotMatter | internal/agents/sse.go:105-112 | the same events written with other line endings and spaces are kept and dispatched alike |
| EventStream.EventStreamReader.Read | internal/agents/sse.go:73-81 | hands out filtered bytes, never an empty read without an error, and a sticky error only once everything is out |
| EventStream.EventStreamReader.Fill | internal/agents/sse.go:87-103 | one read of the body brings the reader to the filter of everything read so far |
| EventStream.EventStreamReader.ProcessLine | internal/agents/sse.go:105-136 | one line moves the reader as one step of the filter |
| EventStream.EventStreamReader.DispatchEvent | internal/agents/sse.go:138-147 | a blank line passes a data-carrying event on and drops another |
| EventStream.EventStreamReader.Classify | internal/agents/sse.go:155-174 | terminal and incomplete events are noted; an incomplete one fails the stream, and tells the budget when it did nothing but reason |
| EventStream.FilteredPrefix | internal/agents/sse.go:73-147 | what was read so far settles a prefix of what the whole body yields |
| EventStream.Drain | internal/agents/sse.go:73-189 | for every body, split into chunks and positive buffer sizes: the bytes are what the filter keeps of the chunks up to the one completing a response.incomplete event, or of all; without such an event the final error is io.EOF exactly when a terminal event preceded a clean end, and ErrStreamIncomplete otherwise; the budget has learnt of a reasoning-only attempt exactly when one of the chunks read held such an event |
| ChunkDependence.DeliveryDependsOnChunks | internal/agents/sse.go:87-103 | what is kept of a text behind a response.incomplete event is delivered when it shares the event's chunk and not when it comes later |
| ChunkDependence.ChunksDoNotMatterIff | internal/agents/sse.go:87-174 | for every body: all ways to split it deliver the same bytes if and only if no data line follows its first response.incomplete event |
| ChunkDependence.ChunksMatterHere | internal/agents/sse.go:87-174 | an incomplete event and a later one, delivered together in one chunk and only in part in two |
| RetryLadder.FenceStrippingModel.HandleAttemptErr | internal/agents/fence.go:283-299 | an error ends the call exactly when it is permanent or partials are out |
| RetryLadder.FenceStrippingModel.StreamAttempt | internal/agents/fence.go:335-362 | an attempt retries exactly when its first event is missing, a transient error or an unusable answer; otherwise exactly its stream, up to where the consumer hangs up, is delivered; a consumer that hung up is never called again |
| RetryLadder.FenceStrippingModel.YieldExhausted | internal/agents/fence.go:221-231 | a spent ladder delivers one item: the last response when it has an answer part, else the last error, else that there was no answer |
| RetryLadder.FenceStrippingModel.GenerateContent | internal/agents/fence.go:116-157 | the whole call delivers what the first deciding attempt delivers; every attempt up to it is reported when it starts and when it is over, with its own error, and every response received is recorded, retried ones too |
| RetryLadder.HowACallEnds | internal/agents/fence.go:116-157 | a call is decided by one attempt, given up while waiting before one, or has retried them all; there is no fourth way |
| RetryLadder.OffIffSpent | internal/agents/fence.go:147-153 | an attempt goes out without reasoning if and only if an earlier one spent its budget on it |
| RetryLadder.ReportsOfRetried | internal/agents/fence.go:127-143 | each retried attempt is reported when it starts and when it is over, with its own number and error, and as retried unless it is the last one |
| RetryLadder.ResponsesOfRetried | internal/agents/fence.go:326-352 | exactly the complete responses that retried attempts began with are recorded for them |
| RetryLadder.StreamStopsBehindPartials | internal/agents/fence.go:326-362 | of an attempt exactly its leading partials and the one event behind them can be heard; a permanent error is handed on without a response |
| RetryLadder.DecidingAttemptIsHeard | internal/agents/fence.go:116-157 | only the deciding attempt is heard, and nothing of any other |
| RetryLadder.GivingUpIsHeard | internal/agents/fence.go:122-127 | a wait cut short yields its error and nothing else |
| RetryLadder.SpentLadderIsHeard | internal/agents/fence.go:221-231 | when every attempt was retried, exactly the exhaustion item of the last one is heard |
| RetryLadder.AtMostOneFinalItem | internal/agents/fence.go:326-362 | whatever the inner model and the consumer do, the call is never silent, only its last item may be final, and a complete response without an answer part is never heard unless a partial went before |
| RetryLadder.UnusableAnswerMeansSpentLadder | internal/agents/fence.go:205-231 | an answer that does not parse is heard whole only when every attempt was retried |
| HunkHeader.StrToPosInt | internal/candidate/normalize.go:200-209 | reads digits with the wrap-around of a 64-bit int, and any other character as -1 |
| HunkHeader.DigitsWrapAround | internal/candidate/normalize.go:200-209 | what is read of digits is the number they spell up to a multiple of 2^64, within the range of a 64-bit int |
| HunkHeader.ParseStarts | internal/candidate/normalize.go:174-198 | the last plausible number of each side among the header's fields, 1 without one |
| HunkHeader.StartsOfHeader | internal/candidate/normalize.go:163-198 | a header with any counts reads back as its plausible starts, then overridden by what its trail declares |
| HunkHeader.LastFieldsDecide | internal/candidate/normalize.go:174-198 | reading fields keeps a start if and only if the last plausible field of its sign, where there is one, repeats it |
| HunkHeader.StartsReadBackIff | internal/candidate/normalize.go:174-198 | a printed header reads its own starts back if and only if both are positive and the last plausible field of each sign in its trail, where there is one, repeats them |
| HunkHeader.ZeroStartBecomesOne | internal/candidate/normalize.go:188-190 | a start of 0 is read as 1 |
| HunkHeader.TrailMayOverrideAStart | internal/candidate/normalize.go:174-198 | the trail " -7" turns the old start into 7 |
| HunkHeader.TrailOfHeader | internal/candidate/normalize.go:163-170 | the trail of a header with any counts is read back exactly |
| HunkHeader.RewrittenHeaderIsStable | internal/candidate/normalize.go:79-92 | a header written anew from what was read of any header reads as it was written |
| UnifiedDiff.CollectHunkBody | internal/candidate/normalize.go:52-63 | the body runs to the first line that starts a file, a hunk or a fence |
| UnifiedDiff.KeepHunkLines | internal/candidate/normalize.go:94-142 | keeps the leading hunk lines, reading empty lines as blank context only when a hunk line follows them |
| UnifiedDiff.CountHunkLines | internal/candidate/normalize.go:148-161 | the number of lines of the old and of the new side of the body the lines are the text of |
| UnifiedDiff.CountsAreSides | internal/candidate/normalize.go:148-161 | for any body of context, removed, added and note lines the counts are the lengths of the stretch it replaces and of the stretch it puts there |
| UnifiedDiff.NormalizeHunk | internal/candidate/normalize.go:79-92 | the kept lines behind a header counting them, or nothing when none is kept |
| UnifiedDiff.AppendNonHunk | internal/candidate/normalize.go:36-50 | file headers and other lines outside hunks are copied, fences dropped, and the header of a file is remembered |
| UnifiedDiff.NormalizeUnifiedDiff | internal/candidate/normalize.go:12-34 | the whole pass computes the normal form, leaves a text without a hunk mark alone, and reports a change exactly when there is one |
| UnifiedDiff.NormalizationIsIdempotent | internal/candidate/normalize.go:12-34 | for every text the second pass changes nothing |
| UnifiedDiff.SurvivingHunksAreConsistent | internal/candidate/normalize.go:12-92 | every hunk of the result is the text of some body with a line on one of its sides, and its header counts exactly the two sides of that body |
| PrintedDiffs.NormalizationRecoversPrintedDiff | internal/candidate/normalize.go:12-161 | a printed diff whose headers read their own starts back, with no body line that would start a file or a hunk, and a "--- " line wherever plain text follows a hunk directly, is recovered exactly from false counts, emptied blank context lines that do not trail, appended lines that neither break a hunk nor lead to a hunk line, and code fences outside hunks |
| UnifiedDiff.UnchangedIffNormal | internal/candidate/normalize.go:12-92 | a diff with a hunk is left alone if and only if it ends in a newline, has no fence outside its hunks, and each hunk, read up to the line that ends its body, is what normalizing it gives |
| DroppedHunks.NormalizedFiles | internal/candidate/normalize.go:36-77 | what is left of a diff of files is each file's surviving hunks, under the file's two headers unless its first hunk was dropped |
| DroppedHunks.HeadersStayIff | internal/candidate/normalize.go:65-74 | every surviving hunk stands under its own file's headers if and only if no file's first hunk is dropped in front of one that survives |
| DroppedHunks.OrphanedHunk | internal/candidate/normalize.go:65-74 | a file whose first hunk holds no hunk line loses its headers although its second hunk stays |
| DiffMarks.MarkHunk | internal/campaign/shape.go:64-81 | marks the new-side lines of the header, or the line a pure deletion follows |
| DiffMarks.ParseChanges | internal/campaign/shape.go:37-62 | the loop reads a diff line by line as the reading function does |
| DiffMarks.HeaderMarks | internal/campaign/shape.go:64-81 | the header of any change, printed with or without counts, marks exactly the lines that change touches |
| DiffMarks.ChangesOfDiff | internal/campaign/shape.go:30-81 | for every zero-context diff of distinct files, whatever git prints behind each hunk's marks and whatever files have no new name or no text, each file's marks, added and removed text are exactly its script's, as long as no added line starts with "++ " |
| DiffMarks.HunksReadBackIff | internal/campaign/shape.go:37-62 | a file's hunks are read back in full if and only if no added line starts with "++ " |
| DiffMarks.HiddenHeaderLosesMarks | internal/campaign/shape.go:46-51 | behind the added line "++ x" nothing more is recorded for the file |
| DiffMarks.HiddenHeaderEndsTheReading | internal/campaign/shape.go:37-62 | in a whole file's hunks: the hunk that adds a line "++ " with any text that names no file is marked and its removed lines are recorded, and nothing of the hunks behind it is |
| PatchConfinement.UnmarkedContinues | internal/campaign/shape.go:30-81 | behind an unmarked line, unmarked lines continue the base file without a gap, because a deletion marks the line in front of it |
| PatchConfinement.UnmarkedIsVerbatim | internal/campaign/shape.go:30-81 | every unmarked range of new lines is one contiguous block of the base file, for every edit script |
| PatchConfinement.TouchedLines | internal/campaign/shape.go:508-515 | true exactly when some line of the range is marked |
| PatchConfinement.AddedFunction | internal/campaign/shape.go:517-529 | true exactly when every line is marked and no removed line declared a function of that name |
| PatchConfinement.RewrittenIsNotNew | internal/campaign/shape.go:517-529 | a function is not judged new when a removed line opens a declaration of its name, as a function or as a method with any receiver |
| PatchConfinement.CheckConfined | internal/campaign/shape.go:485-506 | passes exactly when the target is gone or no other function is touched without being new; it names every such function and no other |
| PatchConfinement.ConfinedPatchKeepsOtherFunctions | internal/campaign/shape.go:480-529 | after a passing check every other function not judged new is an unchanged block of the base file |
| PatchConfinement.PassingCheckConfines | internal/campaign/shape.go:37-529 | the same from the text of a diff in which no added line starts with "++ ": what was parsed and passed is enough |
| PatchConfinement.PassingCheckKeepsOldFunctions | internal/campaign/shape.go:37-529 | after a passing check every other function that has a line the patch leaves alone, or whose old declaration the patch removes, is an unchanged block of the base file, whatever the check takes for new |
| PatchConfinement.PatchOfTargetPasses | internal/campaign/shape.go:37-529 | a patch passes when it leaves every line of every function but the target alone, except functions it adds while it removes no declaration |
| PatchConfinement.HiddenHeaderMissesAChange | internal/campaign/shape.go:37-529 | with the added line "++ x" in the target, another function behind it is changed, is judged neither touched nor new, and is no block of the base file |
| PatchConfinement.DeletionBreaksABlock | internal/campaign/shape.go:30-36 | without the anchor of a deletion the lines around it would look like a block, and are none |
| SourceEdits.ApplyEdits | internal/campaign/multi_function_source.go:167-179 | for pairwise disjoint in-range edits with distinct starts, in any order, the result is the simultaneous left-to-right substitution, its length the original's plus every edit's growth, and it is the edits applied one by one in a sorted order |
| SourceEdits.EqualStartsDependOnOrder | internal/campaign/multi_function_source.go:167-179 | two insertions at one place of any file: both orders are sorted, and their results agree if and only if the texts commute |
| SourceEdits.InsertionsMayDisagree | internal/campaign/multi_function_source.go:167-179 | "a" and "b" inserted at one place of any file give different results in the two sorted orders; the only caller (lines 264-297) emits at most one insertion, so this input does not arise there |
| RankSumDistribution.ExactSignedRankP | internal/campaign/paired.go:139-163 | the in-place table leaves the exact two-sided probability of the counts |
| RankSumDistribution.WaysCountAssignments | internal/campaign/paired.go:142-150 | an entry of the table is the number of sign assignments of n ranks with that sum, for every n and every sum |
| RankSumDistribution.AtMostCountsAssignments | internal/campaign/paired.go:151-163 | a tail of the table is the number of assignments at most that far out |
| RankSumDistribution.WaysSymmetric | internal/campaign/paired.go:142-163 | the counts of s and of n(n+1)/2 - s are equal |
| RankSumDistribution.WaysTotal | internal/campaign/paired.go:142-163 | the counts total 2^n |
| RankSumDistribution.TailsMirror | internal/campaign/paired.go:151-163 | the upper tail at a rank sum is the lower tail at its mirror |
| RankSumDistribution.ExactPIsAProbability | internal/campaign/paired.go:139-163 | p lies in [0, 1], and is positive if and only if the rank sum can occur |
| RankSumDistribution.ExactPSymmetric | internal/campaign/paired.go:139-163 | p at w equals p at n(n+1)/2 - w |
| RankSumDistribution.ExactPGrowsTowardsTheMiddle | internal/campaign/paired.go:139-163 | p never decreases as the rank sum moves towards the middle |
| RankSumDistribution.ExactPIsAShareOfAssignments | internal/campaign/paired.go:139-163 | p is twice the share of all sign assignments at least as extreme, capped at 1 |
| RankSumDistribution.ExactPIsTwoSided | internal/campaign/paired.go:139-163 | p is the share of all sign assignments whose rank sum lies at least as far from the middle as the one observed, on either side |
| SignedRankTest.AverageRanks | internal/campaign/paired.go:105-137 | the sort-and-group loop meets the order-free rank, twice which is twice the smaller plus the equal plus one; tied exactly when a value repeats |
| SignedRankTest.RanksSum | internal/campaign/paired.go:105-137 | the ranks sum to n(n+1)/2, with and without ties |
| SignedRankTest.RankOrder | internal/campaign/paired.go:105-137 | a greater sample has a greater rank |
| SignedRankTest.EqualRanksEqualSamples | internal/campaign/paired.go:105-137 | equal ranks mean equal values |
| SignedRankTest.UntiedRanksArePermutation | internal/campaign/paired.go:105-137 | without ties every rank from 1 to n is taken exactly once |
| SignedRankTest.TieCorrection | internal/campaign/paired.go:182-193 | in whatever order the groups come, the sum of t^3 - t over them |
| SignedRankTest.TieSumBound | internal/campaign/paired.go:182-193 | that sum is at most n^3 - n, however the ranks group |
| SignedRankTest.VarianceStaysPositive | internal/campaign/paired.go:167-180 | the tie-corrected variance is at least n(n+1)^2/16 for n >= 1, so its guard never fires |
| SignedRankTest.ApproxSignedRankP | internal/campaign/paired.go:165-180 | the normal branch as a function of the rank sum's distance from its mean, with continuity correction |
| RankVariance.FartherRanksHigher | internal/campaign/paired.go:78-137 | of two differences the one farther from zero has the greater rank, whatever their signs |
| RankVariance.VarianceIsSumOfSquares | internal/campaign/paired.go:167-193 | for any samples, however they tie, the corrected variance is a quarter of the sum of the squared ranks |
| RankVariance.VarianceUnderRandomSigns | internal/campaign/paired.go:167-193 | and that is the variance of the rank sum over all ways to give the differences signs |
| SignedRankTest.ComputeSignedRankP | internal/campaign/paired.go:56-103 | the whole test: unusable and zero differences dropped, the exact branch without ties up to the limit, the normal one otherwise |
| RankVariance.ExactBranch | internal/campaign/paired.go:94-163 | without ties, up to a hundred differences, p is the probability under random signs of a rank sum at least as far from the middle as that of the positive differences |
| RankVariance.NormalBranch | internal/campaign/paired.go:94-193 | with ties, or beyond a hundred, p is the normal tail at half the difference of the two signs' rank sums less one half, over the variance of random signs; 1 when that is not positive |
| RankVariance.EveryFiniteDifferenceCounts | internal/campaign/paired.go:78-93 | of finite nonzero differences none is dropped |
| SignedRankTest.PairOrderDoesNotMatter | internal/campaign/paired.go:78-103 | permuting the pairs leaves p unchanged on both branches |
| SignedRankTest.SwappingSidesDoesNotMatter | internal/campaign/paired.go:78-163 | negating every difference leaves p unchanged on both branches |
| SignedRankTest.ZeroDifferencesDoNotMatter | internal/campaign/paired.go:78-93 | adding or removing a zero or unusable difference anywhere leaves p unchanged |
| SignedRankTest.SignedRankSymmetries | internal/campaign/paired.go:78-193 | reordering and negating, on all inputs including unusable differences |
| ShiftEstimate.Median | internal/campaign/shift.go:64-77 | the middle order statistic, or the mean of the two middle ones |
| ShiftEstimate.HodgesLehmannShift | internal/campaign/shift.go:39-62 | answers exactly with two usable samples on each side, with the median of all pairwise differences |
| ShiftEstimate.FiniteIsUsable | internal/campaign/shift.go:39-62 | of finite samples none is dropped |
| ShiftEstimate.ShiftUnique | internal/campaign/shift.go:39-77 | there is only one such number, whatever order the samples are in |
| ShiftEstimate.ShiftAntisymmetric | internal/campaign/shift.go:39-77 | swapping the sides negates the shift |
| ShiftEstimate.ShiftMovesWithCandidate | internal/campaign/shift.go:39-77 | moving every candidate sample by k moves the shift by k |
| ShiftEstimate.ShiftBreakdown | internal/campaign/shift.go:39-91 | while fewer than half the candidate samples are replaced by anything at all, the shift stays within the range of the untouched differences |
| SampleFolds.CommonDepth | internal/campaign/candidate_eval.go:1381-1390 | the depth all series reach and one ends at |
| SampleFolds.MeanPerRepetition | internal/campaign/candidate_eval.go:1346-1360 | each repetition's mean over the workloads, to the common depth |
| SampleFolds.MaxPerRepetition | internal/campaign/candidate_eval.go:1366-1379 | each repetition's maximum over the workloads, to the common depth |
| SampleFolds.FoldDropsNothingIff | internal/campaign/candidate_eval.go:1337-1390 | a fold reads every sample if and only if the series are equally long |
| SampleFolds.MeanFoldKeepsTotal | internal/campaign/candidate_eval.go:1337-1360 | over equally long series the mean fold conserves the total over all workloads |
| SampleFolds.MaxFoldKeepsPeak | internal/campaign/candidate_eval.go:1362-1379 | over equally long series the highest folded value is the highest of all samples |
| Measurements.RecordBehaviorMatch | internal/campaign/candidate_eval.go:1034-1073 | passes exactly when every pair agrees in exit code and in output, byte for byte when the baseline always printed the same and up to line order otherwise |
| Measurements.PooledReadingsKeepEveryRun | internal/campaign/candidate_eval.go:1075-1110 | with equally many pairs on every seed the pooled readings keep every run: totals of the times, the peak of the memory; and the pooled wall reading, scaled by the number of seeds, totals what the seeds' own readings do, side by side |
| Measurements.ReplicatedReads | internal/campaign/candidate_eval.go:547-576 | each breach of a guardrail is answered by the reading on the same guardrail, sample by sample that of the fresh pairs alone |
| Measurements.AllStressReads | internal/campaign/candidate_eval.go:516-535 | the readings kept of each seed that can only veto are, sample by sample and side by side, the CPU times and the peak memory of its first series |
| Confirmation.Evaluator.RunInterleaved | internal/runner/runner.go:514-548 | exactly the asked number of pairs, the baseline's runs on the one side and the candidate's on the other, the baseline first in exactly the even ones |
| Confirmation.Evaluator.RunSeries | internal/campaign/candidate_eval.go:616-639 | appends a series of runs that behaved alike, byte for byte where the output is deterministic, or fails and leaves the behaviour unverified; it does not fail when both binaries always do the same |
| Measurements.NamedReadingIsASeeds | internal/campaign/candidate_eval.go:1075-1130 | a reading that names a workload is that of a seed measured |
| Confirmation.SelectionIsASeed | internal/policy/policy.go:497-514 | the workload an accept would rest on is one of the seeds |
| Confirmation.Evaluator.Rederive | internal/campaign/candidate_eval.go:816-824 | every reading is derived from exactly the runs held and the sizes of the binaries; a workload's own holds, sample by sample, the wall times of the baseline's runs against the candidate's |
| Confirmation.Evaluator.ConfirmRegressions | internal/campaign/candidate_eval.go:641-688 | without a reading to confirm nothing changes; with one every seed holds one series more, the pooled guardrails are read from that series alone, and the readings of the seeds that can only veto stay |
| Confirmation.Evaluator.ConfirmImprovements | internal/campaign/candidate_eval.go:776-814 | the same for improvements, and never a third series |
| Confirmation.Evaluator.RemeasureSelectedWorkload | internal/campaign/candidate_eval.go:953-976 | one seed's runs are replaced by as many fresh ones and no other seed changes |
| Confirmation.Evaluator.ConfirmSelection | internal/campaign/candidate_eval.go:869-951 | terminates within the number of seeds, keeps every length, and leaves an accept resting on one workload resting on runs started after it began |
| Confirmation.Evaluator.SecondLook | internal/campaign/candidate_eval.go:399-413 | on success all seeds hold equally many pairs, one series or two, at most one extension and one re-measurement of each seed were paid for, and with two or more seeds an accept resting on one workload rests only on runs started after every extension |
| Confirmation.Evaluator.MeasureStressSeed | internal/campaign/candidate_eval.go:516-535 | one series on a seed kept out of acceptance, a second one exactly when a reading of the first asks for it; the readings stay the first series' own |
| Confirmation.Evaluator.ReplicateStressBreach | internal/campaign/candidate_eval.go:547-576 | for each breach the reading of the fresh series alone on the same guardrail is recorded |
| Confirmation.Evaluator.MeasureStressSeeds | internal/campaign/candidate_eval.go:480-514 | every such seed is measured by itself, in order |
| Confirmation.Evaluator.MeasureSeedsOnQuietMachine | internal/campaign/candidate_eval.go:415-466 | on a contended machine some moment separates the two passes: every run of the first, those of the seeds that can only veto too, started before it and is discarded, and every run kept started after it |
| Confirmation.Evaluator.MeasureAndFinalize | internal/campaign/candidate_eval.go:375-397 | a whole candidate: failure leaves the behaviour unverified; on success there was a first series on every seed, behind everything a contended machine had discarded, each seed holds that series, extended exactly when its readings ask for it, or fresh runs, an accept resting on one of several workloads rests only on runs started after every series, the readings of the seeds that can only veto survive every confirmation, and the confirmation is recorded at most once; with seeds and pairs to run, a candidate that always exits and prints as the baseline does is measured to the end |
| Confirmation.Evaluator.OneSeriesIff | internal/campaign/candidate_eval.go:641-814 | a seed is left with one series if and only if no regression, guardrail, replication, unresolved or borderline improvement of the first one calls for more samples |
| Confirmation.Evaluator.AcceptRestsOnFreshRuns | internal/campaign/candidate_eval.go:869-951 | with two seeds or more, when the policy accepts and its best improvement names a workload, that seed holds runs started when all series were over |
| TokenUsage.MergeTokenUsage | internal/campaign/adk.go:89-107 | per role and counter the sum of what was persisted and what this process spent |
| TokenUsage.SpentIsTheSum | internal/campaign/adk.go:51-107 | what the persisted table holds of a role is, counter by counter, the sum over the processes |
| Settlement.FoldTallies | internal/orchestrator/ledger.go:21-31 | folds a ledger into its tallies |
| Settlement.FailuresSinceAccepted | internal/orchestrator/ledger.go:33-52 | the failure streak counts the verdicts behind the last accepted one, or only its rejections when inconclusive verdicts have their own bound |
| Settlement.InconclusiveSuffix | internal/orchestrator/ledger.go:33-52 | the inconclusive streak is the longest run of inconclusive verdicts the ledger ends with |
| Settlement.TriedIsTheLength | internal/orchestrator/ledger.go:21-31 | attempt numbers run without gaps, so the next one repeats none |
| Settlement.NewFileHarmsNone | internal/campaign/adk.go:405-420 | a copy for a new candidate, even one cut short, overwrites no copy a record refers to |
| Settlement.Engine.RecordTokenUsage | internal/campaign/adk.go:51-75 | the state's usage is the earlier processes' plus this collector's total, however often it is recorded |
| Settlement.Engine.SaveEvent | internal/campaign/engine.go:1225-1247 | saves the state, then appends the event; success means both are on disk |
| Settlement.Engine.KeepAcceptedPatch | internal/campaign/adk.go:405-420 | success means the complete copy is on disk |
| Settlement.Engine.PersistVerdict | internal/campaign/adk.go:473-482 | the record joins the memory whether or not saving it works |
| Settlement.Engine.Settle | internal/campaign/adk.go:360-403 | success means the record, its copy, the tallies counting all records and the collector's total are on disk, even after a failed save on the way; it succeeds when every access does |
| Settlement.Engine.ApplyPolicy | internal/orchestrator/orchestrator.go:677-710 | the next attempt is settled under the number behind the last record |
| Settlement.Engine.StartGraph | internal/orchestrator/orchestrator.go:310-318 | the graph starts from the tallies of the recorded candidates |
| Settlement.Engine.Restart | internal/campaign/engine.go:594-612 | a new process continues from what is on disk, its collector at nothing |
| Settlement.Engine.Campaign | internal/campaign/adk.go:360-482 | over any sequence of settlements, other events, failing writes, crashes and resumes: every accepted record on disk with a patch path has its completed copy, the persisted tallies count a prefix of the persisted records, and the persisted usage is the sum over processes of each collector at its last successful save; when every access succeeds, what is on record is each verdict of a running graph, numbered without gaps |

## Left out

- JSON decoding: json.Unmarshal, the order in which decode.go tries texts and repairs (lines 80-132), and the fence stripping in front of the payload search are not modelled; the repairs are.
- Bytes are characters; a Go string that is not valid UTF-8 is not distinguished.
- EventStream.EventStreamReader.Classify: the kind of an event, and whether an incomplete response holds nothing but reasoning, are parameters over its data and name; the text of the incompleteness error is left out.
- EventStream.Drain: the body is a script of chunks whose last read carries its error, and the chunk size limit is left out.
- Floating point: a finite float64 is a real; rounding of sums, ratios and means is not modelled.
- SignedRankTest.ApproxSignedRankP: the square root and the complementary error function are one parameter of the squared deviation.
- Sorting: slices.Sort and slices.SortFunc are modelled by insertion; callers use only that the result is sorted and a permutation.
- robustShiftPercent, the percent forms and the significance thresholds: expressions over the results proved here.
- DiffMarks.ParseChanges: strconv.Atoi's range error, and the aliasing of a file's change through the map and the variable for the current file, are modelled on values.
- PatchConfinement.CheckConfined: Go's parser is a list of declarations with their line ranges; the error text is the list of names.
- buildFileEdits, import editing and everything that walks a Go syntax tree.
- Confirmation.Evaluator.ConfirmSelection: the policy is a parameter of the readings; it answers with the place of a reading among the eligible ones, and which place that is, is not modelled.
- Confirmation.Evaluator.MeasureAndFinalize: load averages, summaries and journal events are left out; whether the machine was contended, and the sizes of the binaries, are parameters.
- RetryLadder.FenceStrippingModel.GenerateContent: unfencing of responses, the token counts of a recorded response, durations and the length of a wait are left out; an attempt's deadline shows as the error it yields.
- Settlement.Engine.Campaign: a candidate's identifier is the pair its hash is taken of, so colliding hashes are left out; the patch file is taken to hold the text the candidate is named after; report snapshots, the campaign clock and null-candidate campaigns are left out.
- Settlement.Engine.KeepAcceptedPatch: the write of a copy may stop anywhere, which is modelled as one torn file.
- HTTP transports, providers, ADK plumbing, sandboxes, Git, the Go toolchain, the command line, reports and prompts.
