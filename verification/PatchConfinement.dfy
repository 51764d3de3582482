/**
  checkConfined (internal/campaign/shape.go): a patch may edit only the function it was written
  for. What the check promises rests on the marks: a line range they leave alone is, line for line
  and without a gap, a stretch of the file the patch was applied to.
 */
module PatchConfinement {
  import opened Options
  import opened DiffMarks
  import Text

  // ---------- unmarked lines are verbatim ----------

  ghost predicate IsBlockAt(base: seq<string>, new_: seq<string>, first: nat, last: nat, at: nat)
    requires 1 <= first <= last <= |new_|
  {
    at + (last - first + 1) <= |base| && new_[first - 1..last] == base[at..at + (last - first + 1)]
  }

  /** The lines `first..last` of the new file, counted from 1, stand in the base file as one block. */
  ghost predicate IsVerbatim(base: seq<string>, new_: seq<string>, first: nat, last: nat)
    requires 1 <= first <= last <= |new_|
  {
    exists at: nat :: IsBlockAt(base, new_, first, last, at)
  }

  function OldSide(s: Segment): seq<string> {
    if s.Keep? then s.lines else s.removed
  }

  function NewSideOf(s: Segment): seq<string> {
    if s.Keep? then s.lines else s.added
  }

  ghost predicate Unmarked(script: seq<Segment>, before: nat, first: nat, last: nat) {
    forall l: nat | first <= l <= last :: l !in Touched(script, before)
  }

  lemma TouchedSplits(script: seq<Segment>, before: nat)
    requires script != []
    ensures Touched(script[1..], before + |NewSideOf(script[0])|) <= Touched(script, before)
    ensures script[0].Change? ==> MarksOf(script[0], before) <= Touched(script, before)
  {
    hide MarksOf;
  }

  /** A change marks each line it adds, or the line in front of it when it adds none. */
  lemma ChangeIsMarked(change: Segment, before: nat, l: nat)
    requires change.Change?
    requires before < l <= before + |change.added| || (change.added == [] && l == before >= 1)
    ensures l in MarksOf(change, before)
  {
  }

  lemma UnmarkedRest(script: seq<Segment>, before: nat, first: nat, last: nat)
    requires script != [] && Unmarked(script, before, first, last)
    ensures Unmarked(script[1..], before + |NewSideOf(script[0])|, first, last)
  {
    hide Touched;
    TouchedSplits(script, before);
    var marks := Touched(script[1..], before + |NewSideOf(script[0])|);
    forall l: nat | first <= l <= last ensures l !in marks {
      assert l !in Touched(script, before);
    }
  }

  /** An unmarked line is not one a change at this place marks. */
  lemma NoChangeAt(script: seq<Segment>, before: nat, first: nat, last: nat, l: nat)
    requires script != [] && Unmarked(script, before, first, last) && first <= l <= last
    requires before < l <= before + |NewSideOf(script[0])| || (|NewSideOf(script[0])| == 0 && l == before >= 1)
    ensures script[0].Keep?
  {
    hide Touched, MarksOf;
    assert l !in Touched(script, before);
    TouchedSplits(script, before);
    if script[0].Change? {
      ChangeIsMarked(script[0], before, l);
      assert false;
    }
  }

  /**
    Behind an unmarked line, unmarked lines continue the base file without a gap: a deletion in
    between would have marked the line in front of it.
   */
  lemma {:induction false} UnmarkedContinues(script: seq<Segment>, before: nat, n: nat)
    requires before >= 1 && n <= |NewLinesOf(script)| && Unmarked(script, before, before, before + n)
    ensures n <= |BaseLines(script)| && NewLinesOf(script)[..n] == BaseLines(script)[..n]
    decreases |script|
  {
    if script != [] && n > 0 {
      var s := script[0];
      UnmarkedRest(script, before, before, before + n);
      NoChangeAt(script, before, before, before + n, if NewSideOf(s) == [] then before else before + 1);
      var k := |s.lines|;
      if n > k {
        UnmarkedContinues(script[1..], before + k, n - k);
        ContinuedSlice(s.lines, NewLinesOf(script[1..]), BaseLines(script[1..]), n);
      }
    }
  }

  lemma ContinuedSlice(kept: seq<string>, a: seq<string>, b: seq<string>, n: nat)
    requires |kept| <= n && n - |kept| <= |a| && n - |kept| <= |b| && a[..n - |kept|] == b[..n - |kept|]
    ensures (kept + a)[..n] == kept + a[..n - |kept|] == (kept + b)[..n]
  {
  }

  /** Any unmarked range of lines is a verbatim block, wherever in the script it starts. */
  lemma {:induction false} UnmarkedIsVerbatim(script: seq<Segment>, before: nat, first: nat, last: nat)
    requires before < first <= last <= before + |NewLinesOf(script)| && Unmarked(script, before, first, last)
    ensures IsVerbatim(BaseLines(script), NewLinesOf(script), first - before, last - before)
    decreases |script|
  {
    hide IsVerbatim, Unmarked, IsBlockAt;
    var s, rest := script[0], script[1..];
    var k := |NewSideOf(s)|;
    UnmarkedRest(script, before, first, last);
    if first > before + k {
      UnmarkedIsVerbatim(rest, before + k, first, last);
      VerbatimBehind(OldSide(s), NewSideOf(s), BaseLines(rest), NewLinesOf(rest), first - before - k,
        last - before - k);
    } else {
      NoChangeAt(script, before, first, last, first);
      KeptThenContinued(script, before, first, last);
    }
  }

  lemma SliceBehind(front: seq<string>, s: seq<string>, i: nat, j: nat)
    requires i <= j <= |s|
    ensures (front + s)[|front| + i..|front| + j] == s[i..j]
  {
  }

  lemma VerbatimBehind(old_: seq<string>, new_: seq<string>, base: seq<string>, rest: seq<string>, first: nat,
    last: nat)
    requires 1 <= first <= last <= |rest| && IsVerbatim(base, rest, first, last)
    ensures IsVerbatim(old_ + base, new_ + rest, |new_| + first, |new_| + last)
  {
    var at: nat :| IsBlockAt(base, rest, first, last, at);
    var size := last - first + 1;
    SliceBehind(new_, rest, first - 1, last);
    SliceBehind(old_, base, at, at + size);
    assert IsBlockAt(old_ + base, new_ + rest, |new_| + first, |new_| + last, |old_| + at);
  }

  lemma KeptThenContinued(script: seq<Segment>, before: nat, first: nat, last: nat)
    requires before < first <= last <= before + |NewLinesOf(script)| && Unmarked(script, before, first, last)
    requires script != [] && script[0].Keep? && first <= before + |script[0].lines|
    ensures IsVerbatim(BaseLines(script), NewLinesOf(script), first - before, last - before)
  {
    hide Touched, NewLinesOf, BaseLines, IsVerbatim;
    KeptInFront(script);
    var kept, rest := script[0].lines, script[1..];
    var k := |kept|;
    var n := if last > before + k then last - before - k else 0;
    if n > 0 {
      UnmarkedRest(script, before, first, last);
      UnmarkedContinues(rest, before + k, n);
    }
    ContinuedSlice(kept, NewLinesOf(rest), BaseLines(rest), k + n);
    CommonBlock(BaseLines(script), NewLinesOf(script), k + n, first - before, last - before);
  }

  lemma KeptInFront(script: seq<Segment>)
    requires script != [] && script[0].Keep?
    ensures NewLinesOf(script) == script[0].lines + NewLinesOf(script[1..])
    ensures BaseLines(script) == script[0].lines + BaseLines(script[1..])
  {
  }

  lemma CommonBlock(base: seq<string>, new_: seq<string>, n: nat, first: nat, last: nat)
    requires n <= |base| && n <= |new_| && base[..n] == new_[..n] && 1 <= first <= last <= n
    ensures IsVerbatim(base, new_, first, last)
  {
    var at := first - 1;
    assert new_[at..last] == new_[..n][at..last] && base[at..last] == base[..n][at..last];
    assert IsBlockAt(base, new_, first, last, at);
  }

  // ---------- the check ----------

  /** A function declaration: its full name, its plain name, and the lines it spans. */
  datatype FuncDecl = FuncDecl(function_: string, name: string, first: nat, last: nat)

  ghost predicate TouchedBy(change: FileChange, first: nat, last: nat) {
    exists l :: first <= l <= last && l in change.lines
  }

  function Contains(s: string, part: string): bool
    decreases |s|
  {
    part <= s || (s != "" && Contains(s[1..], part))
  }

  predicate DeclaredBy(line: string, name: string) {
    "func " <= line && Contains(line, " " + name + "(")
  }

  /** Every line of the function was added, and no removed line declared a function of its name. */
  ghost predicate JudgedNew(change: FileChange, decl: FuncDecl) {
    && (forall l | decl.first <= l <= decl.last :: l in change.lines)
    && forall line | line in change.removed :: !DeclaredBy(line, decl.name)
  }

  /** The line opens a declaration of that name, as gofmt writes it: a function's or a method's. */
  ghost predicate Declares(line: string, name: string) {
    || (exists rest :: line == "func " + name + "(" + rest)
    || exists receiver, rest :: line == "func (" + receiver + ") " + name + "(" + rest
  }

  lemma {:induction false} ContainsMiddle(a: string, part: string, b: string)
    ensures Contains(a + part + b, part)
    decreases |a|
  {
    var s := a + part + b;
    if a == "" {
      assert s == part + b;
    } else {
      ContainsMiddle(a[1..], part, b);
      assert s[1..] == a[1..] + part + b;
    }
  }

  lemma FunctionIsNoticed(name: string, rest: string)
    ensures DeclaredBy("func " + name + "(" + rest, name)
  {
    var line := "func " + name + "(" + rest;
    ContainsMiddle("func", " " + name + "(", rest);
    assert line == "func" + (" " + name + "(") + rest;
  }

  lemma MethodIsNoticed(receiver: string, name: string, rest: string)
    ensures DeclaredBy("func (" + receiver + ") " + name + "(" + rest, name)
  {
    var line := "func (" + receiver + ") " + name + "(" + rest;
    ContainsMiddle("func (" + receiver + ")", " " + name + "(", rest);
    assert line == "func (" + receiver + ")" + (" " + name + "(") + rest;
  }

  /** A function whose old declaration was removed is not judged new. */
  lemma RewrittenIsNotNew(change: FileChange, decl: FuncDecl, line: string)
    requires line in change.removed && Declares(line, decl.name)
    ensures !JudgedNew(change, decl)
  {
    hide DeclaredBy;
    if rest :| line == "func " + decl.name + "(" + rest {
      FunctionIsNoticed(decl.name, rest);
    } else {
      var receiver, rest :| line == "func (" + receiver + ") " + decl.name + "(" + rest;
      MethodIsNoticed(receiver, decl.name, rest);
    }
  }

  method TouchedLines(change: FileChange, first: nat, last: nat) returns (touched: bool)
    ensures touched <==> TouchedBy(change, first, last)
  {
    var l := first;
    while l <= last
      invariant first <= l && forall k | first <= k < l :: k !in change.lines
    {
      if l in change.lines {
        return true;
      }
      l := l + 1;
    }
    return false;
  }

  method AddedFunction(change: FileChange, decl: FuncDecl) returns (added: bool)
    ensures added <==> JudgedNew(change, decl)
  {
    var l := decl.first;
    while l <= decl.last
      invariant decl.first <= l && forall k | decl.first <= k < l :: k in change.lines
    {
      if l !in change.lines {
        return false;
      }
      l := l + 1;
    }
    for i := 0 to |change.removed|
      invariant forall k | 0 <= k < i :: !DeclaredBy(change.removed[k], decl.name)
    {
      if DeclaredBy(change.removed[i], decl.name) {
        return false;
      }
    }
    return true;
  }

  /** An edit outside the target: a function that is not the target, touched, and not new. */
  ghost predicate StraysInto(change: FileChange, decl: FuncDecl, target: string) {
    decl.function_ != target && TouchedBy(change, decl.first, decl.last) && !JudgedNew(change, decl)
  }

  /** Names the functions a patch strays into; none when the file no longer declares the target. */
  method CheckConfined(decls: seq<FuncDecl>, change: FileChange, target: string) returns (others: seq<string>)
    ensures others == [] <==>
            || (forall d | d in decls :: d.function_ != target)
            || (forall d | d in decls :: !StraysInto(change, d, target))
    ensures forall name | name in others :: exists d ::
            d in decls && d.function_ == name && StraysInto(change, d, target)
    ensures (exists d :: d in decls && d.function_ == target) ==>
              forall d | d in decls && StraysInto(change, d, target) :: d.function_ in others
  {
    others := [];
    var found := false;
    for i := 0 to |decls|
      invariant found <==> exists k :: 0 <= k < i && decls[k].function_ == target
      invariant others == [] <==> forall k | 0 <= k < i :: !StraysInto(change, decls[k], target)
      invariant forall k | 0 <= k < i && StraysInto(change, decls[k], target) :: decls[k].function_ in others
      invariant forall name | name in others :: exists d ::
                d in decls && d.function_ == name && StraysInto(change, d, target)
    {
      var d := decls[i];
      assert d in decls;
      if d.function_ == target {
        found := true;
        continue;
      }
      var touched := TouchedLines(change, d.first, d.last);
      if touched {
        var added := AddedFunction(change, d);
        if !added {
          others := others + [d.function_];
        }
      }
    }
    if !found || others == [] {
      return [];
    }
  }

  lemma UntouchedIsUnmarked(script: seq<Segment>, first: nat, last: nat)
    requires !TouchedBy(Result(NO_CHANGE, script, 0), first, last)
    ensures Unmarked(script, 0, first, last)
  {
    hide Touched;
    var change := Result(NO_CHANGE, script, 0);
    assert change.lines == Touched(script, 0);
    forall l: nat | first <= l <= last ensures l !in Touched(script, 0) {
      assert l !in change.lines;
    }
  }

  /**
    The promise of the check. When it passes and still finds its target, every other function that
    is not judged newly added stands in the base file as one unchanged block of lines.
   */
  lemma ConfinedPatchKeepsOtherFunctions(script: seq<Segment>, decls: seq<FuncDecl>, target: string, decl: FuncDecl)
    requires var change := Result(NO_CHANGE, script, 0); forall d | d in decls :: !StraysInto(change, d, target)
    requires decl in decls && decl.function_ != target && !JudgedNew(Result(NO_CHANGE, script, 0), decl)
    requires 1 <= decl.first <= decl.last <= |NewLinesOf(script)|
    ensures IsVerbatim(BaseLines(script), NewLinesOf(script), decl.first, decl.last)
  {
    hide JudgedNew, TouchedBy, IsVerbatim, Unmarked, Result;
    var change := Result(NO_CHANGE, script, 0);
    assert !StraysInto(change, decl, target);
    UntouchedIsUnmarked(script, decl.first, decl.last);
    UnmarkedIsVerbatim(script, 0, decl.first, decl.last);
  }

  /** The same from the diff's text: what the parser read and the check passed is enough. */
  lemma PassingCheckConfines(files: seq<FileDiff>, i: nat, decls: seq<FuncDecl>, target: string, decl: FuncDecl)
    requires DistinctNames(files) && forall f | f in files :: IsFileDiff(f)
    requires files != [] && Text.AllOneLine(DiffLines(files)) && i < |files| && files[i].header.Named?
    requires 1 <= decl.first <= decl.last <= |NewLinesOf(files[i].script)|
    requires decl in decls && decl.function_ != target
    ensures var changes := Read(START, Text.SplitLines(Text.JoinLines(DiffLines(files)) + "\n")).changes;
            var name, script := files[i].header.name, files[i].script;
            && name in changes
            && ((forall d | d in decls :: !StraysInto(changes[name], d, target)) && !JudgedNew(changes[name], decl) ==>
                  IsVerbatim(BaseLines(script), NewLinesOf(script), decl.first, decl.last))
  {
    var changes := Read(START, Text.SplitLines(Text.JoinLines(DiffLines(files)) + "\n")).changes;
    var name, script := files[i].header.name, files[i].script;
    ChangesOfDiff(files, i);
    if (forall d | d in decls :: !StraysInto(changes[name], d, target)) && !JudgedNew(changes[name], decl) {
      ConfinedPatchKeepsOtherFunctions(script, decls, target, decl);
    }
  }

  /**
    And without the check's own notion of a new function: when the old file declared it, on a line
    the patch removed, or when the patch leaves one line of it alone, a passing check means that the
    patch leaves the whole of it alone.
   */
  lemma PassingCheckKeepsOldFunctions(files: seq<FileDiff>, i: nat, decls: seq<FuncDecl>, target: string,
    decl: FuncDecl)
    requires DistinctNames(files) && forall f | f in files :: IsFileDiff(f)
    requires files != [] && Text.AllOneLine(DiffLines(files)) && i < |files| && files[i].header.Named?
    requires 1 <= decl.first <= decl.last <= |NewLinesOf(files[i].script)|
    requires decl in decls && decl.function_ != target
    requires || (exists line :: line in Removed(files[i].script) && Declares(line, decl.name))
             || (exists l: nat :: decl.first <= l <= decl.last && l !in Touched(files[i].script, 0))
    ensures var changes := Read(START, Text.SplitLines(Text.JoinLines(DiffLines(files)) + "\n")).changes;
            var name, script := files[i].header.name, files[i].script;
            && name in changes
            && ((forall d | d in decls :: !StraysInto(changes[name], d, target)) ==>
                  IsVerbatim(BaseLines(script), NewLinesOf(script), decl.first, decl.last))
  {
    hide Read, DiffLines, DistinctNames, IsFileDiff, StraysInto, IsVerbatim, Declares, JudgedNew;
    var changes := Read(START, Text.SplitLines(Text.JoinLines(DiffLines(files)) + "\n")).changes;
    var name, script := files[i].header.name, files[i].script;
    ChangesOfDiff(files, i);
    PassingCheckConfines(files, i, decls, target, decl);
    ResultIs(script);
    if line :| line in Removed(script) && Declares(line, decl.name) {
      RewrittenIsNotNew(changes[name], decl, line);
    } else {
      var l: nat :| decl.first <= l <= decl.last && l !in Touched(script, 0);
      OldLineIsNotNew(changes[name], decl, l);
    }
  }

  /** Every line was added by the patch, which removed no line that opens a declaration. */
  ghost predicate IsHelper(script: seq<Segment>, decl: FuncDecl) {
    && (forall l: nat | decl.first <= l <= decl.last :: l in Touched(script, 0))
    && forall line | line in Removed(script) :: !("func " <= line)
  }

  /**
    The other way round: a patch passes when it leaves every line of every function but the target
    alone, except for functions it adds while it removes no declaration.
   */
  lemma PatchOfTargetPasses(files: seq<FileDiff>, i: nat, decls: seq<FuncDecl>, target: string)
    requires DistinctNames(files) && forall f | f in files :: IsFileDiff(f)
    requires files != [] && Text.AllOneLine(DiffLines(files)) && i < |files| && files[i].header.Named?
    requires forall d | d in decls && d.function_ != target ::
               || IsHelper(files[i].script, d)
               || (forall l: nat | d.first <= l <= d.last :: l !in Touched(files[i].script, 0))
    ensures var changes := Read(START, Text.SplitLines(Text.JoinLines(DiffLines(files)) + "\n")).changes;
            var name := files[i].header.name;
            name in changes && forall d | d in decls :: !StraysInto(changes[name], d, target)
  {
    hide Read, DiffLines, DistinctNames, IsFileDiff, Result;
    var changes := Read(START, Text.SplitLines(Text.JoinLines(DiffLines(files)) + "\n")).changes;
    ChangesOfDiff(files, i);
    ResultIs(files[i].script);
  }

  lemma ResultIs(script: seq<Segment>)
    ensures Result(NO_CHANGE, script, 0).lines == Touched(script, 0)
    ensures Result(NO_CHANGE, script, 0).removed == Removed(script)
  {
  }

  lemma OldLineIsNotNew(change: FileChange, decl: FuncDecl, l: nat)
    requires decl.first <= l <= decl.last && l !in change.lines
    ensures !JudgedNew(change, decl)
  {
  }

  /** The anchor matters: a deletion between two lines leaves neither side of it verbatim together. */
  lemma DeletionBreaksABlock()
    ensures var script := [Keep(["a"]), Change(["b"], [], "", false, false), Keep(["c"])];
            && Touched(script, 0) == {1}
            && !IsVerbatim(BaseLines(script), NewLinesOf(script), 1, 2)
  {
    var script := [Keep(["a"]), Change(["b"], [], "", false, false), Keep(["c"])];
    assert script[1..] == [Change(["b"], [], "", false, false), Keep(["c"])] && script[1..][1..] == [Keep(["c"])]
      && script[1..][1..][1..] == [];
    assert BaseLines([Keep(["c"])]) == ["c"] && BaseLines(script[1..]) == ["b", "c"]
      && BaseLines(script) == ["a", "b", "c"];
    assert NewLinesOf([Keep(["c"])]) == ["c"] && NewLinesOf(script[1..]) == ["c"] && NewLinesOf(script) == ["a", "c"];
    assert Touched([Keep(["c"])], 1) == {} && Touched(script[1..], 1) == {1};
    forall at: nat | at + 2 <= 3 ensures !IsBlockAt(["a", "b", "c"], ["a", "c"], 1, 2, at) {
      assert ["a", "c"][0..2] == ["a", "c"];
      assert ["a", "b", "c"][at..at + 2][1] == ["a", "b", "c"][at + 1]
        && ["a", "b", "c"][at..at + 2][0] == ["a", "b", "c"][at];
    }
  }

  /**
    Where the promise ends: behind an added line that reads as a file header the marks of a file are
    incomplete, so that the check passes although another function was changed.
   */
  lemma HiddenHeaderMissesAChange(r: Reading, name: string)
    requires IsReading(r) && r.current == Some(name) && r.changes[name] == NO_CHANGE
    ensures var script := [Change(["a"], ["++ x"], "", false, false), Keep(["b"]),
            Change(["c"], ["d"], "", false, false)];
            var decls := [FuncDecl("target", "target", 1, 1), FuncDecl("other", "other", 3, 3)];
            var read := Read(r, HunksOf(script, 0, 0)).changes;
            && name in read && (forall d | d in decls :: !StraysInto(read[name], d, "target"))
            && !JudgedNew(read[name], decls[1])
            && !IsVerbatim(BaseLines(script), NewLinesOf(script), 3, 3)
  {
    hide Read, HunksOf, DeclaredBy;
    var first, rest := Change(["a"], ["++ x"], "", false, false), [Keep(["b"]), Change(["c"], ["d"], "", false, false)];
    var script := [first] + rest;
    assert script == [first, rest[0], rest[1]];
    HidesNothing();
    assert "++ " + "x" == "++ x";
    HiddenHeaderEndsTheReading(r, first, "x", rest, 0, 0);
    assert MarksOf(first, 0) == {1};
    var change := Read(r, HunksOf(script, 0, 0)).changes[name];
    assert change.lines == {1};
    var other := FuncDecl("other", "other", 3, 3);
    assert other.first <= 3 <= other.last && 3 !in change.lines;
    assert !JudgedNew(change, other);
    OtherFunctionChanged();
  }

  lemma HidesNothing()
    ensures HidesNoHeader([Keep(["b"]), Change(["c"], ["d"], "", false, false)])
  {
    var rest := [Keep(["b"]), Change(["c"], ["d"], "", false, false)];
    assert rest[1..] == [rest[1]] && rest[1..][1..] == [];
    assert Added(rest[1..]) == ["d"] && Added(rest) == ["d"];
  }

  lemma OtherFunctionChanged()
    ensures var script := [Change(["a"], ["++ x"], "", false, false), Keep(["b"]),
            Change(["c"], ["d"], "", false, false)];
            && |NewLinesOf(script)| == 3 && !IsVerbatim(BaseLines(script), NewLinesOf(script), 3, 3)
  {
    var script := [Change(["a"], ["++ x"], "", false, false), Keep(["b"]), Change(["c"], ["d"], "", false, false)];
    var rest := script[1..];
    assert rest == [script[1], script[2]] && rest[1..] == [script[2]] && rest[1..][1..] == [];
    assert BaseLines(rest[1..]) == ["c"] && BaseLines(rest) == ["b", "c"] && BaseLines(script) == ["a", "b", "c"];
    assert NewLinesOf(rest[1..]) == ["d"] && NewLinesOf(rest) == ["b", "d"] && NewLinesOf(script) == ["++ x", "b", "d"];
    forall at: nat | at + 1 <= 3 ensures !IsBlockAt(["a", "b", "c"], ["++ x", "b", "d"], 3, 3, at) {
      assert ["++ x", "b", "d"][2..3] == ["d"];
      assert ["a", "b", "c"][at..at + 1][0] == ["a", "b", "c"][at];
    }
  }
}
