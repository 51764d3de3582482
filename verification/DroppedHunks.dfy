/**
  What becomes of a file's headers when the normalizer of internal/candidate/normalize.go drops
  hunks. A hunk that is dropped directly behind the headers takes them with it, and hunks of the
  same file that survive it are then left without their own.
 */
module DroppedHunks {
  import opened Text
  import opened HunkHeader
  import opened UnifiedDiff

  datatype HunkText = HunkText(header: string, body: seq<string>)

  datatype FilePatch = FilePatch(oldName: string, newName: string, hunks: seq<HunkText>)

  ghost predicate IsHunkText(h: HunkText) {
    "@@ " <= h.header && forall l | l in h.body :: !("@@ " <= l) && !("--- " <= l)
  }

  ghost predicate ArePatches(files: seq<FilePatch>) {
    forall f, h | f in files && h in f.hunks :: IsHunkText(h)
  }

  function Headers(f: FilePatch): seq<string> {
    ["--- " + f.oldName, "+++ " + f.newName]
  }

  function HunkLines(hunks: seq<HunkText>): seq<string> {
    if hunks == [] then [] else [hunks[0].header] + hunks[0].body + HunkLines(hunks[1..])
  }

  function FileLines(files: seq<FilePatch>): seq<string> {
    if files == [] then [] else Headers(files[0]) + HunkLines(files[0].hunks) + FileLines(files[1..])
  }

  // ---------- what is left of a file ----------

  function Left(h: HunkText): seq<string> {
    if IsHeader(h.header) then NormalizedHunk(h.header, h.body) else []
  }

  predicate IsDropped(h: HunkText) {
    Left(h) == []
  }

  /** The hunks that survive, one behind the other. */
  function Survivors(hunks: seq<HunkText>): seq<string> {
    if hunks == [] then [] else Left(hunks[0]) + Survivors(hunks[1..])
  }

  /** The headers go exactly when the hunk directly behind them is dropped. */
  function FileLeft(f: FilePatch): seq<string> {
    (if f.hunks != [] && IsDropped(f.hunks[0]) then [] else Headers(f)) + Survivors(f.hunks)
  }

  function FilesLeft(files: seq<FilePatch>): seq<string> {
    if files == [] then [] else FileLeft(files[0]) + FilesLeft(files[1..])
  }

  lemma HunkTests(h: HunkText)
    requires IsHunkText(h)
    ensures IsHeader(h.header) && forall l | l in h.body :: !Breaks(l)
  {
  }

  /** One hunk in front of lines that break. */
  lemma HunkStep(out: seq<string>, headers: int, h: HunkText, rest: seq<string>)
    requires headers <= |out| && IsHunkText(h) && (rest == [] || Breaks(rest[0]))
    ensures headers <= |out|
            && Normalized(out, headers, [h.header] + h.body + rest) == Normalized(Then(out, headers, h), -1, rest)
  {
    hide NormalizedHunk, Normalized;
    HunkTests(h);
    var lines := [h.header] + h.body;
    var src := lines + rest;
    assert src == [h.header] + h.body + rest;
    assert lines[1..] == h.body;
    NoBreaks(h.body);
    BodyLengthConcat(h.body, rest);
    HunkInFront(lines, rest, |h.body|);
    assert lines[1..|h.body| + 1] == h.body && lines[|h.body| + 1..] + rest == rest;
    NormalizedUnfolds(out, headers, src);
  }

  /** The output behind a hunk that is kept, or dropped with the headers it stands under. */
  function Then(out: seq<string>, headers: int, h: HunkText): seq<string>
    requires headers <= |out|
  {
    if IsDropped(h) then if headers >= 0 then out[..headers] else out else out + Left(h)
  }

  lemma {:induction false} HunksStep(out: seq<string>, hunks: seq<HunkText>, rest: seq<string>)
    requires (forall h | h in hunks :: IsHunkText(h)) && (rest == [] || Breaks(rest[0]))
    ensures Normalized(out, -1, HunkLines(hunks) + rest) == Normalized(out + Survivors(hunks), -1, rest)
    decreases |hunks|
  {
    hide Normalized, IsHunkText, Left, HunkLines, Survivors, Breaks;
    HunksUnfold(hunks, out, rest);
    if hunks != [] {
      var h, more := hunks[0], hunks[1..];
      assert h in hunks && forall x | x in more :: x in hunks;
      var tail := HunkLines(more) + rest;
      HunksBreak(more, rest);
      HunkStep(out, -1, h, tail);
      HunksStep(out + Left(h), more, rest);
      Associative(out, Left(h), Survivors(more));
    }
  }

  lemma HunksUnfold(hunks: seq<HunkText>, out: seq<string>, rest: seq<string>)
    ensures hunks == [] ==> HunkLines(hunks) + rest == rest && out + Survivors(hunks) == out
    ensures hunks != [] ==>
              var h, more := hunks[0], hunks[1..];
              && HunkLines(hunks) + rest == [h.header] + h.body + (HunkLines(more) + rest)
              && Survivors(hunks) == Left(h) + Survivors(more)
              && (IsDropped(h) ==> out + Left(h) == out)
  {
    hide Left;
  }

  lemma HunksBreak(hunks: seq<HunkText>, rest: seq<string>)
    requires (forall h | h in hunks :: IsHunkText(h)) && (rest == [] || Breaks(rest[0]))
    ensures var lines := HunkLines(hunks) + rest; lines == [] || Breaks(lines[0])
  {
    if hunks != [] {
      HunkTests(hunks[0]);
      assert Breaks(hunks[0].header);
    }
  }

  lemma HeadersStep(out: seq<string>, headers: int, f: FilePatch, rest: seq<string>)
    requires headers <= |out|
    ensures Normalized(out, headers, Headers(f) + rest) == Normalized(out + Headers(f), |out|, rest)
  {
    hide NormalizedHunk, Normalized;
    var src := Headers(f) + rest;
    assert src[0] == "--- " + f.oldName && src[1] == "+++ " + f.newName && src[2..] == rest;
    assert src[0][0] == '-' && IsOldFile(src[0]) && IsNewFile(src[1]) && !IsFence(src[0]) && !IsHeader(src[0]);
    assert out + [src[0], src[1]] == out + Headers(f);
    NormalizedUnfolds(out, headers, src);
  }

  lemma FileStep(out: seq<string>, headers: int, f: FilePatch, rest: seq<string>) returns (next: int)
    requires headers <= |out| && (forall h | h in f.hunks :: IsHunkText(h)) && (rest == [] || Breaks(rest[0]))
    ensures next <= |out + FileLeft(f)|
    ensures Normalized(out, headers, Headers(f) + HunkLines(f.hunks) + rest)
            == Normalized(out + FileLeft(f), next, rest)
  {
    hide Normalized, IsHunkText, Left;
    var hunks := f.hunks;
    Associative(Headers(f), HunkLines(hunks), rest);
    HeadersStep(out, headers, f, HunkLines(hunks) + rest);
    if hunks == [] {
      assert HunkLines(hunks) + rest == rest && FileLeft(f) == Headers(f);
      return |out|;
    }
    var h, more := hunks[0], hunks[1..];
    assert h in hunks && forall x | x in more :: x in hunks;
    HunksBreak(more, rest);
    assert HunkLines(hunks) + rest == [h.header] + h.body + (HunkLines(more) + rest);
    HunkStep(out + Headers(f), |out|, h, HunkLines(more) + rest);
    var then_ := Then(out + Headers(f), |out|, h);
    HunksStep(then_, more, rest);
    assert then_ + Survivors(more) == out + FileLeft(f);
    next := -1;
  }

  lemma {:induction false} FilesStep(out: seq<string>, headers: int, files: seq<FilePatch>)
    requires headers <= |out| && ArePatches(files)
    ensures Normalized(out, headers, FileLines(files)) == out + FilesLeft(files)
    decreases |files|
  {
    hide IsHunkText, FileLeft, HunkLines;
    if files == [] {
      assert out + [] == out;
    } else {
      var f, more := files[0], files[1..];
      assert f in files && forall x | x in more :: x in files;
      FilesBreak(more);
      var next := FileStep(out, headers, f, FileLines(more));
      FilesStep(out + FileLeft(f), next, more);
      Associative(out, FileLeft(f), FilesLeft(more));
    }
  }

  lemma FilesBreak(files: seq<FilePatch>)
    ensures FileLines(files) == [] || Breaks(FileLines(files)[0])
  {
    if files != [] {
      var first := FileLines(files)[0];
      assert first == "--- " + files[0].oldName;
      assert first[0] == '-' && first[1] == '-' && first[2] == '-' && first[3] == ' ';
    }
  }

  /**
    What normalizing leaves of a diff of files: each file's surviving hunks, under the file's headers
    unless the first hunk was dropped.
   */
  lemma NormalizedFiles(files: seq<FilePatch>)
    requires ArePatches(files) && AllOneLine(FileLines(files))
    requires exists f :: f in files && f.hunks != []
    ensures NormalizedDiff(JoinLines(FileLines(files)) + "\n") == JoinLines(FilesLeft(files)) + "\n"
  {
    hide Normalized, FilesLeft, IsHunkText, IsHeader;
    var lines := FileLines(files);
    var f :| f in files && f.hunks != [];
    assert f.hunks[0] in f.hunks;
    HunkTests(f.hunks[0]);
    HeaderInFiles(files, f);
    MarkInLines(lines, f.hunks[0].header);
    TrimmedPatch(lines);
    FilesStep([], -1, files);
    assert [] + FilesLeft(files) == FilesLeft(files);
  }

  lemma {:induction false} HeaderInFiles(files: seq<FilePatch>, f: FilePatch)
    requires f in files && f.hunks != []
    ensures f.hunks[0].header in FileLines(files)
  {
    if files[0] == f {
      assert HunkLines(f.hunks)[0] == f.hunks[0].header;
      assert FileLines(files)[2] == HunkLines(f.hunks)[0];
    } else {
      assert f in files[1..];
      HeaderInFiles(files[1..], f);
    }
  }

  // ---------- hunks without their headers ----------

  /** As the comment on the cut has it: the headers of a file go when no hunk of it is left. */
  function FileMeant(f: FilePatch): seq<string> {
    (if f.hunks != [] && Survivors(f.hunks) == [] then [] else Headers(f)) + Survivors(f.hunks)
  }

  function FilesMeant(files: seq<FilePatch>): seq<string> {
    if files == [] then [] else FileMeant(files[0]) + FilesMeant(files[1..])
  }

  /** The first hunk is dropped and another one is not. */
  predicate LosesHeaders(f: FilePatch) {
    f.hunks != [] && IsDropped(f.hunks[0]) && exists h :: h in f.hunks && !IsDropped(h)
  }

  lemma {:induction false} NoSurvivors(hunks: seq<HunkText>)
    ensures Survivors(hunks) == [] <==> forall h | h in hunks :: IsDropped(h)
  {
    hide Left;
    if hunks != [] {
      NoSurvivors(hunks[1..]);
      assert hunks[0] in hunks && forall h :: h in hunks <==> h == hunks[0] || h in hunks[1..];
      assert Survivors(hunks) == [] <==> IsDropped(hunks[0]) && Survivors(hunks[1..]) == [];
    }
  }

  lemma FileLosesHeaders(f: FilePatch)
    ensures LosesHeaders(f) ==> |FileLeft(f)| < |FileMeant(f)|
    ensures !LosesHeaders(f) ==> FileLeft(f) == FileMeant(f)
  {
    hide Left;
    NoSurvivors(f.hunks);
    if f.hunks != [] {
      assert f.hunks[0] in f.hunks;
    }
  }

  /** What is left is what was meant exactly when no file's first hunk is dropped in front of a survivor. */
  lemma {:induction false} HeadersStayIff(files: seq<FilePatch>)
    ensures FilesLeft(files) == FilesMeant(files) <==> forall f | f in files :: !LosesHeaders(f)
    ensures |FilesLeft(files)| <= |FilesMeant(files)|
    ensures (exists f :: f in files && LosesHeaders(f)) ==> |FilesLeft(files)| < |FilesMeant(files)|
    decreases |files|
  {
    hide FileLeft, FileMeant, LosesHeaders;
    if files != [] {
      var f, more := files[0], files[1..];
      HeadersStayIff(more);
      FileLosesHeaders(f);
      assert forall x :: x in files <==> x == f || x in more;
    }
  }

  /** A file whose first hunk holds no hunk line: its second hunk comes out under no header. */
  lemma OrphanedHunk()
    ensures var f := FilePatch("a/x", "b/x", [HunkText("@@ -1 +1 @@", ["x"]), HunkText("@@ -5 +5 @@", ["-y", "+z"])]);
            && IsHunkText(f.hunks[0]) && IsHunkText(f.hunks[1]) && LosesHeaders(f)
            && FilesLeft([f]) == Left(f.hunks[1]) != []
  {
    hide Left;
    var first, second := HunkText("@@ -1 +1 @@", ["x"]), HunkText("@@ -5 +5 @@", ["-y", "+z"]);
    var f := FilePatch("a/x", "b/x", [first, second]);
    FirstIsDropped();
    SecondSurvives();
    assert second in f.hunks;
    assert f.hunks[1..] == [second] && [second][1..] == [] && [f][1..] == [];
    assert Survivors([second]) == Left(second);
    assert FileLeft(f) == Left(second);
  }

  lemma FirstIsDropped()
    ensures IsDropped(HunkText("@@ -1 +1 @@", ["x"]))
  {
    assert KeptLines(["x"]) == [];
  }

  lemma SecondSurvives()
    ensures !IsDropped(HunkText("@@ -5 +5 @@", ["-y", "+z"]))
  {
    hide KeptLines, Header;
    var body := ["-y", "+z"];
    HunkLinesAreKept(body);
    assert body[..1] == ["-y"] && body[..1][..0] == [];
    assert OldLines(["-y"]) == 1 && OldLines(body) == 1;
  }
}
