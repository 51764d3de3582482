/**
  parseChanges and markHunk (internal/campaign/shape.go): the new-side lines a zero-context diff
  touched, read from its text.
 */
module DiffMarks {
  import opened Options
  import opened HunkHeader
  import Text

  /** What a patch did to one file: the new-side lines it touched, and the text it added and removed. */
  datatype FileChange = FileChange(lines: set<nat>, added: seq<string>, removed: seq<string>)

  const NO_CHANGE := FileChange({}, [], [])

  // ---------- hunk headers ----------

  function DigitRun(s: string): (n: nat)
    ensures n <= |s| && AllDigits(s[..n]) && (n < |s| ==> !IsDigit(s[n]))
  {
    if s == "" || !IsDigit(s[0]) then 0
    else
      assert s[..1 + DigitRun(s[1..])] == [s[0]] + s[1..][..DigitRun(s[1..])];
      1 + DigitRun(s[1..])
  }

  /** A start and the count behind its comma, which is 1 when it is left out. */
  datatype Range = Range(start: nat, count: nat, rest: string)

  function ReadRange(s: string): Option<Range> {
    var n := DigitRun(s);
    if n == 0 then None
    else if n < |s| && s[n] == ',' then
      var m := DigitRun(s[n + 1..]);
      if m == 0 then None else Some(Range(Number(s[..n]), Number(s[n + 1..][..m]), s[n + 1..][m..]))
    else Some(Range(Number(s[..n]), 1, s[n..]))
  }

  /** The new side of `@@ -a[,b] +c[,d] @@`; nothing when the line has another form. */
  function NewSide(line: string): Option<Range> {
    if !("@@ -" <= line) then None
    else
      match ReadRange(line[4..])
      case None => None
      case Some(oldSide) =>
        if !(" +" <= oldSide.rest) then None
        else
          match ReadRange(oldSide.rest[2..])
          case None => None
          case Some(newSide) => if " @@" <= newSide.rest then Some(newSide) else None
  }

  function Max(a: nat, b: nat): nat {
    if a < b then b else a
  }

  function LinesFrom(start: nat, count: nat): (r: set<nat>)
    ensures forall l :: l in r <==> start <= l < start + count
  {
    if count == 0 then {} else LinesFrom(start, count - 1) + {start + count - 1}
  }

  /** A hunk's new lines, or the line a pure deletion follows. */
  function MarkedBy(start: nat, count: nat): set<nat> {
    if count == 0 then {Max(start, 1)} else LinesFrom(start, count)
  }

  method MarkHunk(change: FileChange, header: string) returns (marked: FileChange)
    ensures marked == change.(lines := change.lines + MarkedHunk(header))
  {
    hide NewSide;
    var m := NewSide(header);
    if m == None {
      assert change.lines + {} == change.lines;
      return change;
    }
    var start, count := m.value.start, m.value.count;
    marked := change;
    if count == 0 {
      return change.(lines := change.lines + {Max(start, 1)});
    }
    for l := start to start + count
      invariant marked == change.(lines := change.lines + LinesFrom(start, l - start))
    {
      marked := marked.(lines := marked.lines + {l});
    }
  }

  function MarkedHunk(header: string): set<nat> {
    match NewSide(header)
    case None => {}
    case Some(r) => MarkedBy(r.start, r.count)
  }

  // ---------- the lines of a diff ----------

  /** The changes per file, and the file the next line belongs to. */
  datatype Reading = Reading(changes: map<string, FileChange>, current: Option<string>)

  ghost predicate IsReading(r: Reading) {
    r.current.Some? ==> r.current.value in r.changes
  }

  predicate IsGitLine(l: string) {
    l != "" && l[0] == 'd' && "diff --git " <= l
  }

  /** An added line that becomes a file header behind its plus sign. */
  predicate LooksLikeHeader(l: string) {
    |l| >= 3 && l[0] == '+' && l[1] == '+' && l[2] == ' '
  }

  predicate IsMark(l: string) {
    |l| >= 2 && l[0] == '@' && l[1] == '@'
  }

  predicate IsSigned(sign: char, l: string) {
    l != "" && l[0] == sign
  }

  const NEW_FILE := "+++ b/"

  function Step(r: Reading, line: string): (n: Reading)
    requires IsReading(r)
    ensures IsReading(n)
  {
    if IsGitLine(line) then r.(current := None)
    else if IsNewFile(line) then
      if NEW_FILE <= line then Reading(r.changes[line[6..] := NO_CHANGE], Some(line[6..])) else r.(current := None)
    else if r.current.None? then r
    else
      var name := r.current.value;
      var change := r.changes[name];
      var next :=
        if IsMark(line) then change.(lines := change.lines + MarkedHunk(line))
        else if IsSigned('+', line) then change.(added := change.added + [line[1..]])
        else if IsSigned('-', line) then change.(removed := change.removed + [line[1..]])
        else change;
      r.(changes := r.changes[name := next])
  }

  function Read(r: Reading, lines: seq<string>): (n: Reading)
    requires IsReading(r)
    ensures IsReading(n)
  {
    if lines == [] then r else Step(Read(r, lines[..|lines| - 1]), lines[|lines| - 1])
  }

  const START := Reading(map[], None)

  method ParseChanges(diff: string) returns (changes: map<string, FileChange>)
    ensures changes == Read(START, Text.SplitLines(diff)).changes
  {
    var lines := Text.SplitLines(diff);
    changes := map[];
    var current: Option<string> := None;
    for i := 0 to |lines|
      invariant IsReading(Reading(changes, current))
      invariant Reading(changes, current) == Read(START, lines[..i])
    {
      assert lines[..i + 1][..i] == lines[..i];
      var line := lines[i];
      if IsGitLine(line) {
        current := None;
      } else if IsNewFile(line) {
        current := None;
        if NEW_FILE <= line {
          current := Some(line[6..]);
          changes := changes[line[6..] := NO_CHANGE];
        }
      } else if current == None {
      } else if IsMark(line) {
        var marked := MarkHunk(changes[current.value], line);
        changes := changes[current.value := marked];
      } else if IsSigned('+', line) {
        var change := changes[current.value];
        changes := changes[current.value := change.(added := change.added + [line[1..]])];
      } else if IsSigned('-', line) {
        var change := changes[current.value];
        changes := changes[current.value := change.(removed := change.removed + [line[1..]])];
      }
    }
    assert lines[..|lines|] == lines;
  }

  lemma ReadOne(r: Reading, line: string)
    requires IsReading(r)
    ensures Read(r, [line]) == Step(r, line)
  {
    var lines := [line];
    assert lines[..0] == [];
  }

  lemma {:induction false} ReadConcat(r: Reading, a: seq<string>, b: seq<string>)
    requires IsReading(r)
    ensures Read(r, a + b) == Read(Read(r, a), b)
  {
    if b == [] {
      assert a + b == a;
    } else {
      assert (a + b)[..|a + b| - 1] == a + b[..|b| - 1];
      ReadConcat(r, a, b[..|b| - 1]);
    }
  }

  // ---------- zero-context diffs ----------

  /**
    A stretch of lines the patch kept, or lines it replaced by others. The hunk of a change carries
    the line git found in front of it, and says on each side whether the file ends there without a
    newline.
   */
  datatype Segment =
    | Keep(lines: seq<string>)
    | Change(removed: seq<string>, added: seq<string>, context: string, oldUnended: bool, newUnended: bool)

  function BaseLines(script: seq<Segment>): seq<string> {
    if script == [] then []
    else (if script[0].Keep? then script[0].lines else script[0].removed) + BaseLines(script[1..])
  }

  function NewLinesOf(script: seq<Segment>): seq<string> {
    if script == [] then []
    else (if script[0].Keep? then script[0].lines else script[0].added) + NewLinesOf(script[1..])
  }

  /** A range as git writes it: the line before an empty one, no count for a single line. */
  function RangeText(before: nat, count: nat): string {
    if count == 0 then Decimal(before) + ",0"
    else if count == 1 then Decimal(before + 1)
    else Decimal(before + 1) + "," + Decimal(count)
  }

  function HunkHeaderText(oldBefore: nat, newBefore: nat, change: Segment): string
    requires change.Change?
  {
    "@@ -" + RangeText(oldBefore, |change.removed|) + " +" + RangeText(newBefore, |change.added|) + " @@"
      + change.context
  }

  function Prefixed(sign: char, lines: seq<string>): seq<string> {
    if lines == [] then [] else [[sign] + lines[0]] + Prefixed(sign, lines[1..])
  }

  function EndMark(unended: bool): seq<string> {
    if unended then ["\\ No newline at end of file"] else []
  }

  /** One side of a hunk. */
  function SideLines(sign: char, lines: seq<string>, unended: bool): seq<string> {
    Prefixed(sign, lines) + EndMark(unended)
  }

  /** One hunk: its header, the removed lines, the added ones. */
  function ChangeLines(change: Segment, oldBefore: nat, newBefore: nat): seq<string>
    requires change.Change?
  {
    [HunkHeaderText(oldBefore, newBefore, change)]
    + SideLines('-', change.removed, change.oldUnended)
    + SideLines('+', change.added, change.newUnended)
  }

  /** The diff of a script that starts after the given numbers of old and new lines. */
  function HunksOf(script: seq<Segment>, oldBefore: nat, newBefore: nat): seq<string> {
    if script == [] then []
    else
      match script[0]
      case Keep(lines) => HunksOf(script[1..], oldBefore + |lines|, newBefore + |lines|)
      case Change(removed, added, _, _, _) =>
        ChangeLines(script[0], oldBefore, newBefore)
        + HunksOf(script[1..], oldBefore + |removed|, newBefore + |added|)
  }

  /** The new-side lines a script touches; a pure deletion touches the line before it, or the first. */
  function Touched(script: seq<Segment>, newBefore: nat): set<nat> {
    if script == [] then {}
    else
      match script[0]
      case Keep(lines) => Touched(script[1..], newBefore + |lines|)
      case Change(removed, added, _, _, _) =>
        MarksOf(script[0], newBefore) + Touched(script[1..], newBefore + |added|)
  }

  function MarksOf(change: Segment, newBefore: nat): set<nat>
    requires change.Change?
  {
    if change.added == [] then {Max(newBefore, 1)} else LinesFrom(newBefore + 1, |change.added|)
  }

  function Added(script: seq<Segment>): seq<string> {
    if script == [] then []
    else (if script[0].Keep? then [] else script[0].added) + Added(script[1..])
  }

  function Removed(script: seq<Segment>): seq<string> {
    if script == [] then []
    else (if script[0].Keep? then [] else script[0].removed) + Removed(script[1..])
  }

  // ---------- headers read back ----------

  lemma {:induction false} DecimalReadsBack(n: nat)
    ensures Number(Decimal(n)) == n
  {
    var d := Decimal(n);
    if n < 10 {
      assert d[..0] == "";
    } else {
      DecimalReadsBack(n / 10);
      assert d[..|d| - 1] == Decimal(n / 10);
    }
  }

  lemma {:induction false} DigitRunOf(digits: string, rest: string)
    requires AllDigits(digits) && (rest == "" || !IsDigit(rest[0]))
    ensures DigitRun(digits + rest) == |digits|
  {
    if digits == "" {
      assert digits + rest == rest;
    } else {
      assert digits[0] in digits && forall c | c in digits[1..] :: c in digits;
      assert (digits + rest)[1..] == digits[1..] + rest;
      DigitRunOf(digits[1..], rest);
    }
  }

  lemma RangeReadsBack(before: nat, count: nat, rest: string)
    requires rest != "" && rest[0] == ' '
    ensures ReadRange(RangeText(before, count) + rest)
            == Some(Range(if count == 0 then before else before + 1, count, rest))
  {
    hide ReadRange, Number;
    var start := if count == 0 then before else before + 1;
    DecimalReadsBack(start);
    if count == 0 {
      OneDigit();
      RangeWithCount(Decimal(start), "0", rest);
      assert Decimal(start) + ",0" + rest == Decimal(start) + "," + "0" + rest;
    } else if count == 1 {
      RangeWithoutCount(Decimal(start), rest);
    } else {
      DecimalReadsBack(count);
      RangeWithCount(Decimal(start), Decimal(count), rest);
    }
  }

  lemma OneDigit()
    ensures AllDigits("0") && Number("0") == 0
  {
    assert "0"[..0] == "";
  }

  lemma RangeWithoutCount(a: string, rest: string)
    requires a != "" && AllDigits(a) && rest != "" && rest[0] == ' '
    ensures ReadRange(a + rest) == Some(Range(Number(a), 1, rest))
  {
    hide Number, DigitRun;
    DigitRunOf(a, rest);
    assert (a + rest)[..|a|] == a && (a + rest)[|a|..] == rest;
  }

  lemma SplitAt(a: string, b: string)
    ensures (a + b)[..|a|] == a && (a + b)[|a|..] == b
  {
  }

  lemma RangeWithCount(a: string, b: string, rest: string)
    requires a != "" && b != "" && AllDigits(a) && AllDigits(b) && rest != "" && rest[0] == ' '
    ensures ReadRange(a + "," + b + rest) == Some(Range(Number(a), Number(b), rest))
  {
    hide Number, DigitRun, AllDigits, ReadRange;
    var counted := "," + (b + rest);
    assert a + "," + b + rest == a + counted;
    assert counted[1..] == b + rest;
    DigitRunOf(b, rest);
    SplitAt(b, rest);
    CountedRange(a, counted);
  }

  lemma CountedRange(a: string, counted: string)
    requires a != "" && AllDigits(a) && counted != "" && counted[0] == ',' && DigitRun(counted[1..]) > 0
    ensures var m := DigitRun(counted[1..]);
            ReadRange(a + counted) == Some(Range(Number(a), Number(counted[1..][..m]), counted[1..][m..]))
  {
    hide Number, DigitRun;
    var s := a + counted;
    DigitRunOf(a, counted);
    SplitAt(a, counted);
    assert s[|a| + 1..] == counted[1..];
  }

  /** A printed header marks exactly the lines its change touches. */
  lemma HeaderMarks(oldBefore: nat, newBefore: nat, change: Segment)
    requires change.Change?
    ensures MarkedHunk(HunkHeaderText(oldBefore, newBefore, change)) == MarksOf(change, newBefore)
  {
    hide RangeText, ReadRange;
    var a, b := RangeText(oldBefore, |change.removed|), RangeText(newBefore, |change.added|);
    var tail := " @@" + change.context;
    var line := HunkHeaderText(oldBefore, newBefore, change);
    RangeReadsBack(oldBefore, |change.removed|, " +" + (b + tail));
    RangeReadsBack(newBefore, |change.added|, tail);
    assert line == "@@ -" + (a + (" +" + (b + tail)));
    HeaderPieces(a, b, tail);
  }

  lemma HeaderPieces(a: string, b: string, tail: string)
    ensures var line := "@@ -" + (a + (" +" + (b + tail))); "@@ -" <= line && line[4..] == a + (" +" + (b + tail))
    ensures var rest := " +" + (b + tail); " +" <= rest && rest[2..] == b + tail
  {
  }

  // ---------- a diff read back ----------

  /** No added line looks like a file header once its plus sign stands in front of it. */
  ghost predicate HidesNoHeader(script: seq<Segment>) {
    forall l | l in Added(script) :: !LooksLikeHeader(l)
  }

  function Result(change: FileChange, script: seq<Segment>, newBefore: nat): FileChange {
    FileChange(
      change.lines + Touched(script, newBefore),
      change.added + Added(script),
      change.removed + Removed(script))
  }

  function With(r: Reading, change: FileChange): Reading
    requires r.current.Some?
  {
    r.(changes := r.changes[r.current.value := change])
  }

  lemma {:induction false} ReadRemoved(r: Reading, removed: seq<string>)
    requires IsReading(r) && r.current.Some?
    ensures var change := r.changes[r.current.value];
            Read(r, Prefixed('-', removed)) == With(r, change.(removed := change.removed + removed))
    decreases |removed|
  {
    hide Step, IsGitLine, IsNewFile, LooksLikeHeader;
    var change := r.changes[r.current.value];
    if removed == [] {
      assert change.removed + removed == change.removed;
    } else {
      var line := ['-'] + removed[0];
      var next := change.(removed := change.removed + [removed[0]]);
      assert Prefixed('-', removed) == [line] + Prefixed('-', removed[1..]);
      ReadConcat(r, [line], Prefixed('-', removed[1..]));
      SignedLine(r, '-', removed[0]);
      ReadRemoved(With(r, next), removed[1..]);
      assert change.removed + removed == change.removed + [removed[0]] + removed[1..];
    }
  }

  lemma SignedLine(r: Reading, sign: char, l: string)
    requires IsReading(r) && r.current.Some? && (sign == '-' || (sign == '+' && !LooksLikeHeader(l)))
    ensures var change := r.changes[r.current.value];
            Read(r, [[sign] + l]) == With(r, if sign == '+' then change.(added := change.added + [l])
                                             else change.(removed := change.removed + [l]))
  {
    var line := [sign] + l;
    assert line[0] == sign && line[1..] == l;
    ReadOne(r, line);
  }

  lemma {:induction false} ReadAdded(r: Reading, added: seq<string>)
    requires IsReading(r) && r.current.Some? && forall l | l in added :: !LooksLikeHeader(l)
    ensures var change := r.changes[r.current.value];
            Read(r, Prefixed('+', added)) == With(r, change.(added := change.added + added))
    decreases |added|
  {
    hide Step, IsGitLine, IsNewFile, LooksLikeHeader;
    var change := r.changes[r.current.value];
    if added == [] {
      assert change.added + added == change.added;
    } else {
      var line := ['+'] + added[0];
      var next := change.(added := change.added + [added[0]]);
      assert added[0] in added && forall l | l in added[1..] :: l in added;
      assert Prefixed('+', added) == [line] + Prefixed('+', added[1..]);
      ReadConcat(r, [line], Prefixed('+', added[1..]));
      SignedLine(r, '+', added[0]);
      ReadAdded(With(r, next), added[1..]);
      assert change.added + added == change.added + [added[0]] + added[1..];
    }
  }

  lemma ReadEndMark(r: Reading, unended: bool)
    requires IsReading(r)
    ensures Read(r, EndMark(unended)) == r
  {
    if unended {
      var line := EndMark(true)[0];
      assert line[0] == '\\';
      ReadOne(r, line);
    }
  }

  lemma ReadHeader(r: Reading, oldBefore: nat, newBefore: nat, change: Segment)
    requires IsReading(r) && r.current.Some? && change.Change?
    ensures Read(r, [HunkHeaderText(oldBefore, newBefore, change)])
         == (var now := r.changes[r.current.value]; With(r, now.(lines := now.lines + MarksOf(change, newBefore))))
  {
    hide RangeText, MarkedHunk, MarksOf;
    var line := HunkHeaderText(oldBefore, newBefore, change);
    HeaderMarks(oldBefore, newBefore, change);
    ReadOne(r, line);
    assert line[0] == '@' && line[1] == '@';
  }

  /** The hunks of a script leave exactly its marks and its added and removed lines behind. */
  lemma {:induction false} ReadHunks(r: Reading, script: seq<Segment>, oldBefore: nat, newBefore: nat)
    requires IsReading(r) && r.current.Some? && HidesNoHeader(script)
    ensures Read(r, HunksOf(script, oldBefore, newBefore))
            == With(r, Result(r.changes[r.current.value], script, newBefore))
    decreases |script|
  {
    hide Result, Step, Read, HunksOf, Added;
    var now := r.changes[r.current.value];
    if script == [] {
      ReadNothing(r, oldBefore, newBefore);
    } else if script[0].Keep? {
      KeepAddsNothing(script, oldBefore, newBefore);
      ReadHunks(r, script[1..], oldBefore + |script[0].lines|, newBefore + |script[0].lines|);
    } else {
      var change := script[0];
      AddedSplits(script);
      var after := With(r, Result(now, [change], newBefore));
      ReadHunks(after, script[1..], oldBefore + |change.removed|, newBefore + |change.added|);
      ReadFirstChange(r, script, oldBefore, newBefore);
    }
  }

  lemma ReadNothing(r: Reading, oldBefore: nat, newBefore: nat)
    requires IsReading(r) && r.current.Some?
    ensures Read(r, HunksOf([], oldBefore, newBefore)) == r
    ensures With(r, Result(r.changes[r.current.value], [], newBefore)) == r
  {
    var now := r.changes[r.current.value];
    assert Result(now, [], newBefore) == now;
  }

  lemma KeepAddsNothing(script: seq<Segment>, oldBefore: nat, newBefore: nat)
    requires script != [] && script[0].Keep?
    ensures var n := |script[0].lines|;
            HunksOf(script, oldBefore, newBefore) == HunksOf(script[1..], oldBefore + n, newBefore + n)
    ensures Added(script) == Added(script[1..]) && Removed(script) == Removed(script[1..])
    ensures forall change ::
            Result(change, script, newBefore) == Result(change, script[1..], newBefore + |script[0].lines|)
  {
    assert Added(script) == [] + Added(script[1..]) && Removed(script) == [] + Removed(script[1..]);
  }

  lemma AddedSplits(script: seq<Segment>)
    requires script != [] && script[0].Change?
    ensures Added(script) == script[0].added + Added(script[1..])
    ensures forall l | l in script[0].added || l in Added(script[1..]) :: l in Added(script)
  {
  }

  lemma ReadFirstChange(r: Reading, script: seq<Segment>, oldBefore: nat, newBefore: nat)
    requires IsReading(r) && r.current.Some? && HidesNoHeader(script) && script != [] && script[0].Change?
    requires var after := With(r, Result(r.changes[r.current.value], [script[0]], newBefore));
             var n := newBefore + |script[0].added|;
             Read(after, HunksOf(script[1..], oldBefore + |script[0].removed|, n))
             == With(after, Result(after.changes[r.current.value], script[1..], n))
    ensures Read(r, HunksOf(script, oldBefore, newBefore))
            == With(r, Result(r.changes[r.current.value], script, newBefore))
  {
    hide MarksOf, Step, Result, HunkHeaderText;
    var now, change := r.changes[r.current.value], script[0];
    var o, n := oldBefore + |change.removed|, newBefore + |change.added|;
    AddedSplits(script);
    ReadChange(r, change, oldBefore, newBefore);
    ReadConcat(r, ChangeLines(change, oldBefore, newBefore), HunksOf(script[1..], o, n));
    ResultAddsUp(now, script, newBefore);
    WithTwice(r, Result(now, [change], newBefore), Result(now, script, newBefore));
  }

  lemma WithTwice(r: Reading, a: FileChange, b: FileChange)
    requires r.current.Some?
    ensures With(With(r, a), b) == With(r, b)
  {
  }

  lemma ResultAddsUp(now: FileChange, script: seq<Segment>, newBefore: nat)
    requires script != [] && script[0].Change?
    ensures Result(Result(now, [script[0]], newBefore), script[1..], newBefore + |script[0].added|)
            == Result(now, script, newBefore)
  {
    hide MarksOf;
    var change := script[0];
    ResultOfOne(now, change, newBefore);
    Text.Associative(now.added, change.added, Added(script[1..]));
    Text.Associative(now.removed, change.removed, Removed(script[1..]));
    var touched := Touched(script[1..], newBefore + |change.added|);
    assert now.lines + MarksOf(change, newBefore) + touched == now.lines + (MarksOf(change, newBefore) + touched);
  }

  lemma ReadChange(r: Reading, change: Segment, oldBefore: nat, newBefore: nat)
    requires IsReading(r) && r.current.Some? && change.Change? && forall l | l in change.added :: !LooksLikeHeader(l)
    ensures Read(r, ChangeLines(change, oldBefore, newBefore))
         == With(r, Result(r.changes[r.current.value], [change], newBefore))
  {
    hide MarksOf, Step, Prefixed, EndMark, HunkHeaderText, Result;
    var now := r.changes[r.current.value];
    var header := [HunkHeaderText(oldBefore, newBefore, change)];
    var minus, plus := Prefixed('-', change.removed), Prefixed('+', change.added);
    var oldEnd, newEnd := EndMark(change.oldUnended), EndMark(change.newUnended);
    var marked := now.(lines := now.lines + MarksOf(change, newBefore));
    var cut := marked.(removed := now.removed + change.removed);
    var done := cut.(added := now.added + change.added);
    ReadHeader(r, oldBefore, newBefore, change);
    ReadRemoved(With(r, marked), change.removed);
    ReadAdded(With(r, cut), change.added);
    ReadEndMark(With(r, cut), change.oldUnended);
    ReadEndMark(With(r, done), change.newUnended);
    ReadConcat(With(r, marked), minus, oldEnd);
    ReadConcat(With(r, cut), plus, newEnd);
    ReadConcat(r, header, minus + oldEnd);
    ReadConcat(r, header + (minus + oldEnd), plus + newEnd);
    WithTwice(r, marked, cut);
    WithTwice(r, cut, done);
    assert Read(r, header + (minus + oldEnd)) == With(r, cut);
    ResultOfOne(now, change, newBefore);
  }

  lemma ResultOfOne(now: FileChange, change: Segment, newBefore: nat)
    requires change.Change?
    ensures Result(now, [change], newBefore)
         == FileChange(now.lines + MarksOf(change, newBefore), now.added + change.added, now.removed + change.removed)
  {
    hide MarksOf;
    assert [change][1..] == [];
    assert Added([change]) == change.added + [] && Removed([change]) == change.removed + [];
    assert Touched([change], newBefore) == MarksOf(change, newBefore) + {};
  }

  /**
    The new side of a file's diff: its name, another text such as /dev/null or a quoted name, or no
    header at all, as for a binary file or a changed mode.
   */
  datatype NewSideHeader = Named(name: string) | Unnamed(text: string) | NoText

  /** One file's part of a diff. */
  datatype FileDiff = FileDiff(gitLine: string, extended: seq<string>, header: NewSideHeader, script: seq<Segment>)

  function FileHeaderOf(f: FileDiff): seq<string> {
    match f.header
    case Named(name) => [NEW_FILE + name]
    case Unnamed(text) => ["+++ " + text]
    case NoText => []
  }

  function FileLines(f: FileDiff): seq<string> {
    ["diff --git " + f.gitLine] + f.extended + FileHeaderOf(f) + HunksOf(f.script, 0, 0)
  }

  function DiffLines(files: seq<FileDiff>): seq<string> {
    if files == [] then [] else FileLines(files[0]) + DiffLines(files[1..])
  }

  ghost predicate IsFileDiff(f: FileDiff) {
    && (forall l | l in f.extended :: !IsNewFile(l))
    && (f.header.Unnamed? ==> !("b/" <= f.header.text))
    && HidesNoHeader(f.script)
  }

  lemma {:induction false} ReadWithoutFile(r: Reading, lines: seq<string>)
    requires IsReading(r) && r.current.None? && forall l | l in lines :: !IsNewFile(l)
    ensures Read(r, lines) == r
  {
    if lines != [] {
      ReadWithoutFile(r, lines[..|lines| - 1]);
      assert lines[|lines| - 1] in lines;
    }
  }

  lemma {:induction false} HunksWithoutFile(script: seq<Segment>, oldBefore: nat, newBefore: nat)
    requires HidesNoHeader(script)
    ensures forall l | l in HunksOf(script, oldBefore, newBefore) :: !IsNewFile(l)
    decreases |script|
  {
    hide ChangeLines, IsNewFile, LooksLikeHeader;
    if script == [] {
    } else if script[0].Keep? {
      assert Added(script) == [] + Added(script[1..]);
      HunksWithoutFile(script[1..], oldBefore + |script[0].lines|, newBefore + |script[0].lines|);
    } else {
      var change := script[0];
      AddedSplits(script);
      HunksWithoutFile(script[1..], oldBefore + |change.removed|, newBefore + |change.added|);
      ChangeWithoutFile(change, oldBefore, newBefore);
    }
  }

  lemma ChangeWithoutFile(change: Segment, oldBefore: nat, newBefore: nat)
    requires change.Change? && forall l | l in change.added :: !LooksLikeHeader(l)
    ensures forall l | l in ChangeLines(change, oldBefore, newBefore) :: !IsNewFile(l)
  {
    hide RangeText, Prefixed;
    PrefixedIsNoHeader('-', change.removed);
    PrefixedIsNoHeader('+', change.added);
    EndMarkIsNoHeader();
    assert HunkHeaderText(oldBefore, newBefore, change)[0] == '@';
  }

  lemma EndMarkIsNoHeader()
    ensures forall unended, l | l in EndMark(unended) :: !IsNewFile(l)
  {
  }

  lemma {:induction false} PrefixedIsNoHeader(sign: char, lines: seq<string>)
    requires sign == '-' || (sign == '+' && forall l | l in lines :: !LooksLikeHeader(l))
    ensures forall l | l in Prefixed(sign, lines) :: !IsNewFile(l)
  {
    if lines != [] {
      assert lines[0] in lines && forall l | l in lines[1..] :: l in lines;
      PrefixedIsNoHeader(sign, lines[1..]);
      var line := [sign] + lines[0];
      assert line[0] == sign && line[1..] == lines[0];
    }
  }

  /** What a file's part of the diff does to the reading. */
  function FileRead(r: Reading, f: FileDiff): Reading {
    if !f.header.Named? then r.(current := None)
    else Reading(r.changes[f.header.name := Result(NO_CHANGE, f.script, 0)], Some(f.header.name))
  }

  lemma ReadFile(r: Reading, f: FileDiff)
    requires IsReading(r) && IsFileDiff(f)
    ensures Read(r, FileLines(f)) == FileRead(r, f)
  {
    hide HunksOf, Result, Step, IsGitLine, FileHeaderOf;
    var git, plus := "diff --git " + f.gitLine, FileHeaderOf(f);
    var hunks := HunksOf(f.script, 0, 0);
    var r1 := r.(current := None);
    GitStep(r, f.gitLine);
    ReadOne(r, git);
    ReadWithoutFile(r1, f.extended);
    HeaderStep(r1, f);
    ReadConcat(r, [git], f.extended);
    ReadConcat(r, [git] + f.extended, plus);
    ReadConcat(r, [git] + f.extended + plus, hunks);
    if f.header.Named? {
      var name := f.header.name;
      var r2 := Reading(r.changes[name := NO_CHANGE], Some(name));
      ReadHunks(r2, f.script, 0, 0);
      assert r2.changes[name := Result(NO_CHANGE, f.script, 0)] == r.changes[name := Result(NO_CHANGE, f.script, 0)];
    } else {
      HunksWithoutFile(f.script, 0, 0);
      ReadWithoutFile(r1, hunks);
    }
  }

  lemma GitStep(r: Reading, gitLine: string)
    requires IsReading(r)
    ensures Step(r, "diff --git " + gitLine) == r.(current := None)
  {
  }

  lemma NamedOnlyBehindB(text: string)
    ensures NEW_FILE <= "+++ " + text ==> "b/" <= text
  {
    var plus := "+++ " + text;
    if NEW_FILE <= plus {
      assert text[..2] == plus[4..6] == "b/";
    }
  }

  lemma HeaderStep(r: Reading, f: FileDiff)
    requires IsReading(r) && r.current.None? && IsFileDiff(f)
    ensures Read(r, FileHeaderOf(f))
         == if f.header.Named? then Reading(r.changes[f.header.name := NO_CHANGE], Some(f.header.name)) else r
  {
    match f.header
    case Named(name) =>
      var plus := NEW_FILE + name;
      assert plus[6..] == name && NEW_FILE <= plus;
      ReadOne(r, plus);
    case Unnamed(text) =>
      NamedOnlyBehindB(text);
      ReadOne(r, "+++ " + text);
    case NoText =>
  }

  ghost predicate DistinctNames(files: seq<FileDiff>) {
    forall i, j | 0 <= i < j < |files| && files[i].header.Named? :: files[i].header != files[j].header
  }

  lemma {:induction false} ReadFiles(r: Reading, files: seq<FileDiff>, i: nat)
    requires IsReading(r) && DistinctNames(files) && forall f | f in files :: IsFileDiff(f)
    ensures var changes := Read(r, DiffLines(files)).changes;
            i < |files| && files[i].header.Named? ==>
              files[i].header.name in changes && changes[files[i].header.name] == Result(NO_CHANGE, files[i].script, 0)
    ensures forall name | name in r.changes && (forall f | f in files :: f.header != Named(name)) ::
              name in Read(r, DiffLines(files)).changes && Read(r, DiffLines(files)).changes[name] == r.changes[name]
    decreases |files|
  {
    hide Result, FileLines, IsFileDiff;
    if files != [] {
      var r1 := FileRead(r, files[0]);
      assert files[0] in files && forall f | f in files[1..] :: f in files;
      ReadFile(r, files[0]);
      ReadConcat(r, FileLines(files[0]), DiffLines(files[1..]));
      ReadFiles(r1, files[1..], if i > 0 then i - 1 else 0);
      if i == 0 && files[0].header.Named? {
        forall f | f in files[1..] ensures f.header != files[0].header {
          var k :| 0 <= k < |files| - 1 && files[1..][k] == f;
          assert files[k + 1] == f;
        }
      }
    }
  }

  /**
    Reading the text of a zero-context diff gives, for every file it names, exactly the new-side
    lines its script touches (a pure deletion touches the line it follows) and the text it added
    and removed.
   */
  lemma ChangesOfDiff(files: seq<FileDiff>, i: nat)
    requires DistinctNames(files) && forall f | f in files :: IsFileDiff(f)
    requires Text.AllOneLine(DiffLines(files)) && files != []
    requires i < |files| && files[i].header.Named?
    ensures var changes := Read(START, Text.SplitLines(Text.JoinLines(DiffLines(files)) + "\n")).changes;
            files[i].header.name in changes && changes[files[i].header.name] == Result(NO_CHANGE, files[i].script, 0)
  {
    hide Result, FileLines, DiffLines, IsFileDiff, Read, Step, DistinctNames;
    var lines := DiffLines(files);
    TrailingNewline(files);
    ReadFiles(START, files, i);
    ReadConcat(START, lines, [""]);
    ReadEmptyLine(Read(START, lines));
  }

  lemma ReadEmptyLine(r: Reading)
    requires IsReading(r)
    ensures Read(r, [""]) == r
  {
    ReadOne(r, "");
  }

  lemma TrailingNewline(files: seq<FileDiff>)
    requires files != [] && Text.AllOneLine(DiffLines(files))
    ensures Text.SplitLines(Text.JoinLines(DiffLines(files)) + "\n") == DiffLines(files) + [""]
  {
    var lines := DiffLines(files);
    assert lines != [];
    Text.SplitJoined(lines + [""]);
    Text.JoinSnoc(lines);
  }

  // ---------- the limit of the reading ----------

  /** How many lines a reading of `lines` can record as added. */
  function PlainAdditions(lines: seq<string>): nat {
    if lines == [] then 0
    else
      var l := lines[|lines| - 1];
      PlainAdditions(lines[..|lines| - 1]) + if IsSigned('+', l) && !IsNewFile(l) then 1 else 0
  }

  lemma {:induction false} AdditionsBound(r: Reading, lines: seq<string>, name: string)
    requires IsReading(r) && name in r.changes
    ensures name in Read(r, lines).changes
    ensures |Read(r, lines).changes[name].added| <= |r.changes[name].added| + PlainAdditions(lines)
  {
    hide MarkedHunk, IsGitLine;
    if lines != [] {
      AdditionsBound(r, lines[..|lines| - 1], name);
    }
  }

  lemma {:induction false} PlainAdditionsConcat(a: seq<string>, b: seq<string>)
    ensures PlainAdditions(a + b) == PlainAdditions(a) + PlainAdditions(b)
  {
    if b == [] {
      assert a + b == a;
    } else {
      assert (a + b)[..|a + b| - 1] == a + b[..|b| - 1];
      PlainAdditionsConcat(a, b[..|b| - 1]);
    }
  }

  lemma {:induction false} AdditionsOfAdded(added: seq<string>)
    ensures PlainAdditions(Prefixed('+', added)) <= |added|
    ensures (exists l :: l in added && LooksLikeHeader(l)) ==> PlainAdditions(Prefixed('+', added)) < |added|
  {
    if added != [] {
      var line, rest := ['+'] + added[0], Prefixed('+', added[1..]);
      AdditionsOfAdded(added[1..]);
      PlainAdditionsConcat([line], rest);
      OnePlainAddition(line);
      assert line[1..] == added[0];
      if l :| l in added && LooksLikeHeader(l) && l != added[0] {
        assert l in added[1..];
      }
    }
  }

  lemma OnePlainAddition(line: string)
    ensures PlainAdditions([line]) == if IsSigned('+', line) && !IsNewFile(line) then 1 else 0
  {
    var lines := [line];
    assert lines[..0] == [];
  }

  lemma {:induction false} AdditionsOfRemoved(removed: seq<string>)
    ensures PlainAdditions(Prefixed('-', removed)) == 0
  {
    if removed != [] {
      AdditionsOfRemoved(removed[1..]);
      PlainAdditionsConcat([['-'] + removed[0]], Prefixed('-', removed[1..]));
      OnePlainAddition(['-'] + removed[0]);
    }
  }

  lemma {:induction false} AdditionsOfHunks(script: seq<Segment>, oldBefore: nat, newBefore: nat)
    ensures PlainAdditions(HunksOf(script, oldBefore, newBefore)) <= |Added(script)|
    ensures !HidesNoHeader(script) ==> PlainAdditions(HunksOf(script, oldBefore, newBefore)) < |Added(script)|
    decreases |script|
  {
    hide LooksLikeHeader, ChangeLines, PlainAdditions;
    if script == [] {
      PlainAdditionsConcat([], []);
      assert [] + [] == HunksOf([], oldBefore, newBefore);
    } else if script[0].Keep? {
      assert Added(script) == [] + Added(script[1..]);
      AdditionsOfHunks(script[1..], oldBefore + |script[0].lines|, newBefore + |script[0].lines|);
    } else {
      var change := script[0];
      var rest := HunksOf(script[1..], oldBefore + |change.removed|, newBefore + |change.added|);
      AddedSplits(script);
      AdditionsOfHunks(script[1..], oldBefore + |change.removed|, newBefore + |change.added|);
      AdditionsOfChange(change, oldBefore, newBefore);
      PlainAdditionsConcat(ChangeLines(change, oldBefore, newBefore), rest);
      if l :| l in Added(script) && LooksLikeHeader(l) && l !in change.added {
        assert l in Added(script[1..]);
      }
    }
  }

  lemma AdditionsOfChange(change: Segment, oldBefore: nat, newBefore: nat)
    requires change.Change?
    ensures var n := PlainAdditions(ChangeLines(change, oldBefore, newBefore));
            n <= |change.added| && ((exists l :: l in change.added && LooksLikeHeader(l)) ==> n < |change.added|)
  {
    hide RangeText, Prefixed;
    var header := HunkHeaderText(oldBefore, newBefore, change);
    var minus, plus := Prefixed('-', change.removed), Prefixed('+', change.added);
    var oldEnd, newEnd := EndMark(change.oldUnended), EndMark(change.newUnended);
    assert header[0] == '@';
    OnePlainAddition(header);
    AdditionsOfRemoved(change.removed);
    AdditionsOfAdded(change.added);
    AdditionsOfEndMark();
    PlainAdditionsConcat(minus, oldEnd);
    PlainAdditionsConcat(plus, newEnd);
    PlainAdditionsConcat([header], minus + oldEnd);
    PlainAdditionsConcat([header] + (minus + oldEnd), plus + newEnd);
  }

  lemma AdditionsOfEndMark()
    ensures forall unended :: PlainAdditions(EndMark(unended)) == 0
  {
    OnePlainAddition(EndMark(true)[0]);
  }

  /**
    One file's hunks are read back in full exactly when no added line starts with "++ ": such a
    line becomes a "+++ " header behind its plus sign, and is never recorded as added.
   */
  lemma HunksReadBackIff(r: Reading, script: seq<Segment>)
    requires IsReading(r) && r.current.Some? && r.changes[r.current.value] == NO_CHANGE
    ensures r.current.value in Read(r, HunksOf(script, 0, 0)).changes
    ensures Read(r, HunksOf(script, 0, 0)).changes[r.current.value] == Result(NO_CHANGE, script, 0)
            <==> HidesNoHeader(script)
  {
    AdditionsBound(r, HunksOf(script, 0, 0), r.current.value);
    AdditionsOfHunks(script, 0, 0);
    if HidesNoHeader(script) {
      ReadHunks(r, script, 0, 0);
    } else {
      assert [] + Added(script) == Added(script);
    }
  }

  /** A concrete loss: after the added line "++ x" no mark of the file is recorded any more. */
  lemma HiddenHeaderLosesMarks(r: Reading, rest: seq<Segment>, oldBefore: nat, newBefore: nat)
    requires IsReading(r) && r.current.Some? && HidesNoHeader(rest)
    ensures Read(r, Prefixed('+', ["++ x"]) + HunksOf(rest, oldBefore, newBefore)).changes == r.changes
  {
    hide MarkedHunk, HunksOf, IsGitLine;
    var line := "+++ x";
    var hunks := HunksOf(rest, oldBefore, newBefore);
    PrefixOfOne('+', "++ x");
    assert ['+'] + "++ x" == line;
    assert line[0] == '+' && line[1] == '+' && line[2] == '+' && line[3] == ' ' && line[4] == 'x';
    ReadOne(r, line);
    assert Step(r, line) == r.(current := None);
    ReadConcat(r, [line], hunks);
    HunksWithoutFile(rest, oldBefore, newBefore);
    ReadWithoutFile(r.(current := None), hunks);
  }

  /**
    In a whole diff: the hunk that adds such a line is marked, its own removed lines are recorded,
    and nothing is recorded of the hunks behind it.
   */
  lemma HiddenHeaderEndsTheReading(r: Reading, first: Segment, text: string, rest: seq<Segment>, oldBefore: nat,
    newBefore: nat)
    requires IsReading(r) && r.current.Some? && HidesNoHeader(rest)
    requires first.Change? && first.added == ["++ " + text] && !("b/" <= text)
    ensures var now := r.changes[r.current.value];
            Read(r, HunksOf([first] + rest, oldBefore, newBefore))
            == With(r, FileChange(now.lines + MarksOf(first, newBefore), now.added, now.removed + first.removed))
               .(current := None)
  {
    hide MarksOf, Step, Prefixed, EndMark, HunkHeaderText, HunksOf, IsNewFile, LooksLikeHeader;
    var now := r.changes[r.current.value];
    var header, minus := [HunkHeaderText(oldBefore, newBefore, first)], Prefixed('-', first.removed);
    var oldEnd, newEnd := EndMark(first.oldUnended), EndMark(first.newUnended);
    var marked := now.(lines := now.lines + MarksOf(first, newBefore));
    var cut := marked.(removed := now.removed + first.removed);
    var o, n := oldBefore + |first.removed|, newBefore + |first.added|;
    var hunks := HunksOf(rest, o, n);
    var ended := With(r, cut).(current := None);
    ReadHeader(r, oldBefore, newBefore, first);
    ReadRemoved(With(r, marked), first.removed);
    ReadEndMark(With(r, cut), first.oldUnended);
    ReadHiddenHeader(With(r, cut), text);
    ReadEndMark(ended, first.newUnended);
    HunksWithoutFile(rest, o, n);
    ReadWithoutFile(ended, hunks);
    PrefixOfOne('+', "++ " + text);
    WithTwice(r, marked, cut);
    var plus := [['+'] + ("++ " + text)];
    ReadConcat(With(r, marked), minus, oldEnd);
    ReadConcat(r, header, minus + oldEnd);
    ReadConcat(With(r, cut), plus, newEnd);
    ReadConcat(r, header + (minus + oldEnd), plus + newEnd);
    ReadConcat(r, header + (minus + oldEnd) + (plus + newEnd), hunks);
    FirstHunk(first, rest, oldBefore, newBefore);
    assert ChangeLines(first, oldBefore, newBefore) == header + (minus + oldEnd) + (plus + newEnd);
  }

  lemma FirstHunk(first: Segment, rest: seq<Segment>, oldBefore: nat, newBefore: nat)
    requires first.Change?
    ensures HunksOf([first] + rest, oldBefore, newBefore)
            == ChangeLines(first, oldBefore, newBefore)
               + HunksOf(rest, oldBefore + |first.removed|, newBefore + |first.added|)
  {
    assert ([first] + rest)[1..] == rest;
  }

  lemma ReadHiddenHeader(r: Reading, text: string)
    requires IsReading(r) && !("b/" <= text)
    ensures Read(r, [['+'] + ("++ " + text)]) == r.(current := None)
  {
    var line := "+++ " + text;
    assert ['+'] + ("++ " + text) == line;
    assert line[0] == '+' && line[1] == '+' && line[2] == '+' && line[3] == ' ';
    NamedOnlyBehindB(text);
    ReadOne(r, line);
  }

  lemma PrefixOfOne(sign: char, l: string)
    ensures Prefixed(sign, [l]) == [[sign] + l]
  {
    assert [l][1..] == [];
  }
}
