/**
  NormalizeUnifiedDiff (internal/candidate/normalize.go): repairs the hunk counts, blank context
  lines and trailing garbage of a diff a model wrote. The repair is a projection, and it undoes a
  whole family of corruptions of a printed diff.
 */
module UnifiedDiff {
  import opened Text
  import opened HunkHeader

  // ---------- hunk bodies ----------

  predicate IsHunkPrefix(c: char) {
    c == ' ' || c == '+' || c == '-' || c == '\\'
  }

  predicate IsHunkLine(l: string) {
    l != "" && IsHunkPrefix(l[0])
  }

  /** A line that ends the hunk body before it. */
  predicate Breaks(l: string) {
    IsHeader(l) || IsOldFile(l)
  }

  predicate IsFence(l: string) {
    |l| >= 3 && l[0] == '`' && l[1] == '`' && l[2] == '`'
  }

  /** Whether the first line that is not empty belongs to a hunk. */
  predicate LeadsToHunkLine(body: seq<string>) {
    body != [] && if body[0] == "" then LeadsToHunkLine(body[1..]) else IsHunkLine(body[0])
  }

  /** The leading body lines that belong to the hunk; an empty one with more behind it is blank context. */
  function KeptLines(body: seq<string>): seq<string> {
    if body == [] then []
    else if body[0] == "" then if LeadsToHunkLine(body[1..]) then [" "] + KeptLines(body[1..]) else []
    else if IsHunkLine(body[0]) then [body[0]] + KeptLines(body[1..])
    else []
  }

  function BodyLength(lines: seq<string>): (n: nat)
    ensures n <= |lines|
    ensures forall k | 0 <= k < n :: !Breaks(lines[k])
    ensures n < |lines| ==> Breaks(lines[n])
  {
    if lines == [] || Breaks(lines[0]) then 0 else 1 + BodyLength(lines[1..])
  }

  method CollectHunkBody(lines: seq<string>, from: nat) returns (body: seq<string>, next: nat)
    requires from <= |lines|
    ensures next == from + BodyLength(lines[from..]) <= |lines| && body == lines[from..next]
  {
    body, next := [], from;
    while next < |lines|
      invariant from <= next <= |lines| && body == lines[from..next]
      invariant from + BodyLength(lines[from..]) == next + BodyLength(lines[next..])
    {
      var l := lines[next];
      if IsHeader(l) || IsOldFile(l) {
        break;
      }
      assert lines[next..][1..] == lines[next + 1..];
      body := body + [l];
      next := next + 1;
    }
  }

  function Blanks(n: nat): seq<string> {
    if n == 0 then [] else [" "] + Blanks(n - 1)
  }

  lemma {:induction false} LeadsPastBlanks(body: seq<string>, n: nat)
    requires n <= |body| && forall k | 0 <= k < n :: body[k] == ""
    ensures LeadsToHunkLine(body) == LeadsToHunkLine(body[n..])
  {
    if n == 0 {
      assert body[0..] == body;
    } else {
      LeadsPastBlanks(body[1..], n - 1);
      assert body[1..][n - 1..] == body[n..];
    }
  }

  lemma {:induction false} BlanksAreKept(body: seq<string>, n: nat)
    requires n <= |body| && forall k | 0 <= k < n :: body[k] == ""
    requires LeadsToHunkLine(body)
    ensures KeptLines(body) == Blanks(n) + KeptLines(body[n..])
  {
    if n == 0 {
      assert body[0..] == body;
    } else {
      var rest := body[1..];
      BlanksAreKept(rest, n - 1);
      assert rest[n - 1..] == body[n..];
      assert KeptLines(body) == [" "] + KeptLines(rest);
      Associative([" "], Blanks(n - 1), KeptLines(body[n..]));
    }
  }

  /** The run of empty lines at `i` as context lines; nothing when no hunk line follows it. */
  method BlankContextRun(body: seq<string>, i: nat) returns (run: seq<string>, end: nat, found: bool)
    requires i < |body| && body[i] == ""
    ensures i < end <= |body|
    ensures found <==> LeadsToHunkLine(body[i..])
    ensures found ==> run + KeptLines(body[end..]) == KeptLines(body[i..])
  {
    end := i;
    while end < |body| && body[end] == ""
      invariant i <= end <= |body|
      invariant forall k | i <= k < end :: body[k] == ""
    {
      end := end + 1;
    }
    LeadsPastBlanks(body[i..], end - i);
    assert body[i..][end - i..] == body[end..];
    if end >= |body| || !IsHunkPrefix(body[end][0]) {
      return [], end, false;
    }
    BlanksAreKept(body[i..], end - i);
    return Blanks(end - i), end, true;
  }

  lemma KeptAt(body: seq<string>, i: nat)
    requires i < |body|
    ensures body[i] == "" && !LeadsToHunkLine(body[i..]) ==> KeptLines(body[i..]) == []
    ensures body[i] != "" && !IsHunkPrefix(body[i][0]) ==> KeptLines(body[i..]) == []
    ensures body[i] != "" && IsHunkPrefix(body[i][0]) ==> KeptLines(body[i..]) == [body[i]] + KeptLines(body[i + 1..])
  {
    assert body[i..][1..] == body[i + 1..];
  }

  lemma KeptOfNothing()
    ensures KeptLines([]) == []
  {
  }

  method KeepHunkLines(body: seq<string>) returns (kept: seq<string>)
    ensures kept == KeptLines(body)
  {
    hide KeptLines;
    KeptOfNothing();
    assert body[0..] == body;
    kept := [];
    var i := 0;
    while i < |body|
      invariant 0 <= i <= |body|
      invariant kept + KeptLines(body[i..]) == KeptLines(body)
    {
      KeptAt(body, i);
      if body[i] == "" {
        var run, next, found := BlankContextRun(body, i);
        if !found {
          return;
        }
        Associative(kept, run, KeptLines(body[next..]));
        kept := kept + run;
        i := next;
        continue;
      }
      if !IsHunkPrefix(body[i][0]) {
        return;
      }
      Associative(kept, [body[i]], KeptLines(body[i + 1..]));
      kept := kept + [body[i]];
      i := i + 1;
    }
    assert body[i..] == [];
  }

  predicate StartsWith(l: string, c: char) {
    l != "" && l[0] == c
  }

  function OldLines(kept: seq<string>): nat {
    if kept == [] then 0
    else
      var l := kept[|kept| - 1];
      OldLines(kept[..|kept| - 1]) + (if StartsWith(l, ' ') || StartsWith(l, '-') then 1 else 0)
  }

  function NewLines(kept: seq<string>): nat {
    if kept == [] then 0
    else
      var l := kept[|kept| - 1];
      NewLines(kept[..|kept| - 1]) + (if StartsWith(l, ' ') || StartsWith(l, '+') then 1 else 0)
  }

  /** What a line of a hunk says: the sign in front of it is not part of its text. */
  datatype BodyLine = Context(text: string) | Removed(text: string) | Added(text: string) | Note(text: string)

  function LineText(l: BodyLine): string {
    match l
    case Context(text) => " " + text
    case Removed(text) => "-" + text
    case Added(text) => "+" + text
    case Note(text) => "\\" + text
  }

  function BodyText(body: seq<BodyLine>): seq<string> {
    seq(|body|, i requires 0 <= i < |body| => LineText(body[i]))
  }

  /** The stretch of the old file a hunk replaces. */
  function OldSide(body: seq<BodyLine>): seq<string> {
    if body == [] then []
    else
      OldSide(body[..|body| - 1])
      + match body[|body| - 1] case Context(text) => [text] case Removed(text) => [text] case _ => []
  }

  /** The stretch of the new file it puts there. */
  function NewSide(body: seq<BodyLine>): seq<string> {
    if body == [] then []
    else
      NewSide(body[..|body| - 1])
      + match body[|body| - 1] case Context(text) => [text] case Added(text) => [text] case _ => []
  }

  /** The two counts are the lengths of the two sides. */
  lemma {:induction false} CountsAreSides(body: seq<BodyLine>)
    ensures OldLines(BodyText(body)) == |OldSide(body)| && NewLines(BodyText(body)) == |NewSide(body)|
  {
    if body != [] {
      var front := body[..|body| - 1];
      CountsAreSides(front);
      assert BodyText(body)[..|body| - 1] == BodyText(front);
    }
  }

  function LineOf(l: string): BodyLine
    requires IsHunkLine(l)
  {
    match l[0]
    case ' ' => Context(l[1..])
    case '-' => Removed(l[1..])
    case '+' => Added(l[1..])
    case _ => Note(l[1..])
  }

  lemma TextOfLine(l: string)
    requires IsHunkLine(l)
    ensures LineText(LineOf(l)) == l
  {
    assert l == [l[0]] + l[1..];
  }

  /** Hunk lines are the text of some body. */
  lemma BodyOf(kept: seq<string>) returns (body: seq<BodyLine>)
    requires forall l | l in kept :: IsHunkLine(l)
    ensures BodyText(body) == kept && OldLines(kept) == |OldSide(body)| && NewLines(kept) == |NewSide(body)|
  {
    body := seq(|kept|, i requires 0 <= i < |kept| => LineOf(kept[i]));
    CountsAreSides(body);
    forall i | 0 <= i < |kept| ensures BodyText(body)[i] == kept[i] {
      assert kept[i] in kept;
      TextOfLine(kept[i]);
    }
    assert BodyText(body) == kept;
  }

  lemma TextIsHunkLines(body: seq<BodyLine>)
    ensures forall l | l in BodyText(body) :: IsHunkLine(l)
  {
  }

  method CountHunkLines(kept: seq<string>) returns (oldCount: nat, newCount: nat)
    requires forall l | l in kept :: l != ""
    ensures oldCount == OldLines(kept) && newCount == NewLines(kept)
    ensures forall body :: kept == BodyText(body) ==> oldCount == |OldSide(body)| && newCount == |NewSide(body)|
  {
    oldCount, newCount := 0, 0;
    for i := 0 to |kept|
      invariant oldCount == OldLines(kept[..i]) && newCount == NewLines(kept[..i])
    {
      assert kept[..i + 1][..i] == kept[..i] && kept[i] in kept;
      var c := kept[i][0];
      if c == ' ' {
        oldCount, newCount := oldCount + 1, newCount + 1;
      } else if c == '-' {
        oldCount := oldCount + 1;
      } else if c == '+' {
        newCount := newCount + 1;
      }
    }
    assert kept[..|kept|] == kept;
    forall body | kept == BodyText(body) ensures oldCount == |OldSide(body)| && newCount == |NewSide(body)| {
      CountsAreSides(body);
    }
  }

  // ---------- one hunk ----------

  /** The header of a hunk as the format asks for it: where each side starts, and how many lines it has. */
  function PrintedHeader(st: Starts, body: seq<BodyLine>, trail: string): string {
    "@@ -" + st.oldStart + "," + Decimal(|OldSide(body)|) + " +" + st.newStart + "," + Decimal(|NewSide(body)|) + " @@"
    + trail
  }

  /** A hunk that changes something or shows context, and whose header counts its own two sides. */
  ghost predicate IsConsistentHunk(header: string, text: seq<string>) {
    exists body, st: Starts, trail ::
      && text == BodyText(body) && |OldSide(body)| + |NewSide(body)| > 0
      && IsStart(st.oldStart) && IsStart(st.newStart) && header == PrintedHeader(st, body, trail)
  }

  lemma HeaderCountsSides(st: Starts, text: seq<string>, trail: string)
    requires (forall l | l in text :: IsHunkLine(l)) && OldLines(text) + NewLines(text) > 0
    requires IsStart(st.oldStart) && IsStart(st.newStart)
    ensures IsConsistentHunk(Header(st, OldLines(text), NewLines(text), trail), text)
  {
    var body := BodyOf(text);
    HeaderIsPrinted(st, body, trail);
    assert Header(st, OldLines(text), NewLines(text), trail) == PrintedHeader(st, body, trail);
  }

  lemma HeaderIsPrinted(st: Starts, body: seq<BodyLine>, trail: string)
    ensures Header(st, |OldSide(body)|, |NewSide(body)|, trail) == PrintedHeader(st, body, trail)
  {
    HeaderIsBuilt(st.oldStart, st.newStart, |OldSide(body)|, |NewSide(body)|, trail);
  }

  /** The hunk cut at its first malformed line, under a header with its own counts; empty when dropped. */
  function NormalizedHunk(header: string, body: seq<string>): seq<string>
    requires IsHeader(header)
  {
    var kept := KeptLines(body);
    if OldLines(kept) == 0 && NewLines(kept) == 0 then []
    else [Header(StartsOf(header), OldLines(kept), NewLines(kept), Trail(header))] + kept
  }

  lemma NormalizedIsConsistent(header: string, body: seq<string>)
    requires IsHeader(header)
    ensures var hunk := NormalizedHunk(header, body); hunk != [] ==> IsConsistentHunk(hunk[0], hunk[1..])
  {
    hide IsConsistentHunk, KeptLines, StartsOf, Trail;
    var kept := KeptLines(body);
    KeptAreHunkLines(body);
    TrailAlreadyRead(header);
    if OldLines(kept) + NewLines(kept) > 0 {
      HeaderCountsSides(StartsOf(header), kept, Trail(header));
      assert NormalizedHunk(header, body)[1..] == kept;
    }
  }

  lemma NormalizedUnder(header: string, body: seq<string>)
    requires IsHeader(header)
    ensures var kept := KeptLines(body);
            NormalizedHunk(header, body)
            == if OldLines(kept) == 0 && NewLines(kept) == 0 then []
               else [Header(StartsOf(header), OldLines(kept), NewLines(kept), Trail(header))] + kept
    ensures forall l | l in KeptLines(body) :: l != ""
  {
    hide Header, KeptLines;
    KeptAreHunkLines(body);
  }

  lemma HeaderIsBuilt(oldStart: string, newStart: string, oldCount: nat, newCount: nat, trail: string)
    ensures "@@ -" + oldStart + "," + Decimal(oldCount) + " +" + newStart + "," + Decimal(newCount) + " @@" + trail
         == Header(Starts(oldStart, newStart), oldCount, newCount, trail)
  {
    hide Decimal;
    var a, b := Decimal(oldCount), Decimal(newCount);
    var front := "@@ -" + oldStart;
    assert front + ("," + a) == front + "," + a;
    var middle := front + ("," + a) + " +" + newStart;
    assert middle + ("," + b) == middle + "," + b;
  }

  method NormalizeHunk(header: string, body: seq<string>) returns (out: seq<string>)
    requires IsHeader(header)
    ensures out == NormalizedHunk(header, body)
    ensures out != [] ==> IsConsistentHunk(out[0], out[1..])
  {
    hide IsConsistentHunk, NormalizedHunk, KeptLines, Header, Trail, StartsOf, OldLines, NewLines, OldSide, NewSide;
    NormalizedIsConsistent(header, body);
    NormalizedUnder(header, body);
    var kept := KeepHunkLines(body);
    KeptAreHunkLines(body);
    var oldCount, newCount := CountHunkLines(kept);
    if oldCount == 0 && newCount == 0 {
      return [];
    }
    var oldStart, newStart := ParseStarts(header);
    var newHeader := "@@ -" + oldStart + "," + Decimal(oldCount) + " +" + newStart + "," + Decimal(newCount) + " @@";
    newHeader := newHeader + Trail(header);
    HeaderIsBuilt(oldStart, newStart, oldCount, newCount, Trail(header));
    return [newHeader] + kept;
  }

  lemma {:induction false} KeptAreHunkLines(body: seq<string>)
    ensures forall l | l in KeptLines(body) :: IsHunkLine(l)
    ensures forall l | l in KeptLines(body) :: l in body || l == " "
  {
    if body != [] {
      KeptAreHunkLines(body[1..]);
    }
  }

  lemma {:induction false} HunkLinesAreKept(body: seq<string>)
    requires forall l | l in body :: IsHunkLine(l)
    ensures KeptLines(body) == body
  {
    if body != [] {
      assert body[0] in body && forall l | l in body[1..] :: l in body;
      HunkLinesAreKept(body[1..]);
    }
  }

  /** A normalized hunk is a fixed point of normalization. */
  lemma HunkIsStable(header: string, body: seq<string>)
    requires IsHeader(header) && NormalizedHunk(header, body) != []
    ensures var hunk := NormalizedHunk(header, body);
            IsHeader(hunk[0]) && NormalizedHunk(hunk[0], hunk[1..]) == hunk
  {
    var kept := KeptLines(body);
    KeptAreHunkLines(body);
    HunkLinesAreKept(kept);
    RewrittenHeaderIsStable(header, OldLines(kept), NewLines(kept));
    assert NormalizedHunk(header, body)[1..] == kept;
  }

  // ---------- the whole diff ----------

  /** `headers` is where the current file section starts in the output, or -1 once a hunk survived in it. */
  function AfterNonHunk(out: seq<string>, headers: int, lines: seq<string>): (r: (seq<string>, int, seq<string>))
    requires lines != []
    ensures |r.2| < |lines|
    ensures |r.0| >= |out| && (r.1 == headers || r.1 == |out|)
  {
    var l := lines[0];
    if IsFence(l) then (out, headers, lines[1..])
    else if IsOldFile(l) && |lines| > 1 && IsNewFile(lines[1]) then (out + [l, lines[1]], |out|, lines[2..])
    else (out + [l], headers, lines[1..])
  }

  function AfterHunk(out: seq<string>, headers: int, hunk: seq<string>): seq<string>
    requires headers <= |out|
  {
    if hunk != [] then out + hunk else if headers >= 0 then out[..headers] else out
  }

  function Normalized(out: seq<string>, headers: int, lines: seq<string>): seq<string>
    requires headers <= |out|
    decreases |lines|
  {
    if lines == [] then out
    else if !IsHeader(lines[0]) then
      var (out', headers', rest) := AfterNonHunk(out, headers, lines);
      Normalized(out', headers', rest)
    else
      var n := BodyLength(lines[1..]);
      var hunk := NormalizedHunk(lines[0], lines[1..n + 1]);
      Normalized(AfterHunk(out, headers, hunk), -1, lines[n + 1..])
  }

  function TrimNewline(s: string): string {
    if s != "" && s[|s| - 1] == '\n' then s[..|s| - 1] else s
  }

  function NormalizedDiff(patch: string): string {
    if IndexOfMark(patch) < 0 then patch
    else JoinLines(Normalized([], -1, SplitLines(TrimNewline(patch)))) + "\n"
  }

  method AppendNonHunk(out: seq<string>, lines: seq<string>, i: nat, headers: int)
    returns (result: seq<string>, newHeaders: int, next: nat)
    requires i < |lines|
    ensures i < next <= |lines|
    ensures (result, newHeaders, lines[next..]) == AfterNonHunk(out, headers, lines[i..])
  {
    var line := lines[i];
    assert lines[i..][1..] == lines[i + 1..];
    if IsFence(line) {
      return out, headers, i + 1;
    }
    result := out + [line];
    if IsOldFile(line) && i + 1 < |lines| && IsNewFile(lines[i + 1]) {
      assert lines[i..][2..] == lines[i + 2..];
      result := result + [lines[i + 1]];
      assert result == out + [line, lines[i + 1]];
      return result, |result| - 2, i + 2;
    }
    return result, headers, i + 1;
  }

  /** Repairs the diff and says whether the repair changed anything. */
  method NormalizeUnifiedDiff(patch: string) returns (result: string, changed: bool)
    ensures result == NormalizedDiff(patch)
    ensures changed <==> result != patch
    ensures (forall i | 0 <= i < |patch| - 1 :: !(patch[i] == '@' && patch[i + 1] == '@')) ==> result == patch
  {
    if IndexOfMark(patch) < 0 {
      return patch, false;
    }
    var lines := SplitLines(TrimNewline(patch));
    var out: seq<string> := [];
    var headers := -1;
    var i := 0;
    while i < |lines|
      invariant 0 <= i <= |lines| && headers <= |out|
      invariant Normalized(out, headers, lines[i..]) == Normalized([], -1, lines)
      decreases |lines| - i
    {
      if !IsHeader(lines[i]) {
        out, headers, i := AppendNonHunk(out, lines, i, headers);
        continue;
      }
      var header := lines[i];
      var body, next := CollectHunkBody(lines, i + 1);
      HunkAt(out, headers, lines, i, next);
      i := next;
      var hunk := NormalizeHunk(header, body);
      out := AfterHunk(out, headers, hunk);
      headers := -1;
    }
    result := JoinLines(out) + "\n";
    changed := result != patch;
  }

  lemma HunkAt(out: seq<string>, headers: int, lines: seq<string>, i: nat, next: nat)
    requires headers <= |out| && i < |lines| && IsHeader(lines[i])
             && next == i + 1 + BodyLength(lines[i + 1..]) <= |lines|
    ensures Normalized(out, headers, lines[i..])
         == Normalized(AfterHunk(out, headers, NormalizedHunk(lines[i], lines[i + 1..next])), -1, lines[next..])
  {
    hide NormalizedHunk, Normalized, AfterHunk;
    var rest := lines[i..];
    NormalizedUnfolds(out, headers, rest);
    assert rest[1..] == lines[i + 1..];
    var n := BodyLength(rest[1..]);
    assert rest[1..n + 1] == lines[i + 1..next] && rest[n + 1..] == lines[next..];
  }

  // ---------- diffs whose hunks all survive ----------

  /** Line by line and hunk by hunk `src` normalizes to `dst`, with no hunk dropped. */
  ghost predicate BecomesBlockwise(src: seq<string>, dst: seq<string>)
    decreases |src|
  {
    if src == [] then dst == []
    else if !IsHeader(src[0]) then
      if IsFence(src[0]) then BecomesBlockwise(src[1..], dst)
      else dst != [] && dst[0] == src[0] && BecomesBlockwise(src[1..], dst[1..])
    else
      var n := BodyLength(src[1..]);
      var hunk := NormalizedHunk(src[0], src[1..n + 1]);
      hunk != [] && hunk <= dst && BecomesBlockwise(src[n + 1..], dst[|hunk|..])
  }

  lemma {:induction false} NormalizedBlockwise(out: seq<string>, headers: int, src: seq<string>, dst: seq<string>)
    requires headers <= |out| && BecomesBlockwise(src, dst)
    ensures Normalized(out, headers, src) == out + dst
    decreases |src|
  {
    hide NormalizedHunk, BecomesBlockwise, Normalized, AfterHunk;
    BlockwiseUnfolds(src, dst);
    NormalizedUnfolds(out, headers, src);
    if src == [] {
      assert out + dst == out;
    } else if !IsHeader(src[0]) {
      if IsFence(src[0]) {
        NormalizedBlockwise(out, headers, src[1..], dst);
      } else if IsOldFile(src[0]) && |src| > 1 && IsNewFile(src[1]) {
        PlainLine(src[1..], dst[1..]);
        PairMoves(out, src, dst);
        NormalizedBlockwise(out + [src[0], src[1]], |out|, src[2..], dst[2..]);
      } else {
        NormalizedBlockwise(out + [src[0]], headers, src[1..], dst[1..]);
        Moves(out, dst, 1);
      }
    } else {
      var n := BodyLength(src[1..]);
      var hunk := NormalizedHunk(src[0], src[1..n + 1]);
      NormalizedBlockwise(out + hunk, -1, src[n + 1..], dst[|hunk|..]);
      Moves(out, dst, |hunk|);
    }
  }

  lemma NormalizedUnfolds(out: seq<string>, headers: int, src: seq<string>)
    requires headers <= |out|
    ensures src == [] ==> Normalized(out, headers, src) == out
    ensures src != [] && !IsHeader(src[0]) ==>
              var (out', headers', rest) := AfterNonHunk(out, headers, src);
              Normalized(out, headers, src) == Normalized(out', headers', rest)
    ensures src != [] && IsHeader(src[0]) ==>
              var n := BodyLength(src[1..]);
              var hunk := NormalizedHunk(src[0], src[1..n + 1]);
              Normalized(out, headers, src) == Normalized(AfterHunk(out, headers, hunk), -1, src[n + 1..])
              && (hunk != [] ==> AfterHunk(out, headers, hunk) == out + hunk)
  {
    hide NormalizedHunk;
  }

  lemma BlockwiseUnfolds(src: seq<string>, dst: seq<string>)
    requires BecomesBlockwise(src, dst)
    ensures src == [] ==> dst == []
    ensures src != [] && !IsHeader(src[0]) && IsFence(src[0]) ==> BecomesBlockwise(src[1..], dst)
    ensures src != [] && !IsHeader(src[0]) && !IsFence(src[0]) ==>
              dst != [] && dst[0] == src[0] && BecomesBlockwise(src[1..], dst[1..])
    ensures src != [] && IsHeader(src[0]) ==>
              var n := BodyLength(src[1..]);
              var hunk := NormalizedHunk(src[0], src[1..n + 1]);
              hunk != [] && hunk <= dst && BecomesBlockwise(src[n + 1..], dst[|hunk|..])
  {
    hide NormalizedHunk;
  }

  lemma Moves(out: seq<string>, dst: seq<string>, k: nat)
    requires k <= |dst|
    ensures out + dst[..k] + dst[k..] == out + dst
    ensures k == 1 ==> dst[..k] == [dst[0]]
  {
  }

  lemma PairMoves(out: seq<string>, src: seq<string>, dst: seq<string>)
    requires |src| >= 2 && |dst| >= 2 && src[0] == dst[0] && src[1] == dst[1]
    ensures src[1..][1..] == src[2..] && dst[1..][1..] == dst[2..]
    ensures out + [src[0], src[1]] + dst[2..] == out + dst
  {
  }

  lemma PlainLine(src: seq<string>, dst: seq<string>)
    requires src != [] && !IsHeader(src[0]) && !IsFence(src[0]) && BecomesBlockwise(src, dst)
    ensures dst != [] && dst[0] == src[0] && BecomesBlockwise(src[1..], dst[1..])
  {
    BlockwiseUnfolds(src, dst);
  }

  // ---------- normal diffs ----------

  /** No fence outside hunks, and every hunk normalized already. */
  ghost predicate IsNormal(lines: seq<string>)
    decreases |lines|
  {
    lines == [] ||
    (if !IsHeader(lines[0]) then !IsFence(lines[0]) && IsNormal(lines[1..])
     else
       var n := BodyLength(lines[1..]);
       NormalizedHunk(lines[0], lines[1..n + 1]) == lines[..n + 1] && IsNormal(lines[n + 1..]))
  }

  lemma {:induction false} NormalStays(lines: seq<string>)
    requires IsNormal(lines)
    ensures BecomesBlockwise(lines, lines)
    decreases |lines|
  {
    hide NormalizedHunk;
    if lines == [] {
    } else if !IsHeader(lines[0]) {
      NormalStays(lines[1..]);
    } else {
      NormalStays(lines[BodyLength(lines[1..]) + 1..]);
    }
  }

  /** Whether the last block of a normal diff is a hunk, which the next line may join. */
  ghost predicate EndsInHunk(lines: seq<string>)
    decreases |lines|
  {
    lines != [] &&
    (if !IsHeader(lines[0]) then EndsInHunk(lines[1..])
     else
       var rest := lines[BodyLength(lines[1..]) + 1..];
       rest == [] || EndsInHunk(rest))
  }

  lemma {:induction false} BodyLengthConcat(a: seq<string>, b: seq<string>)
    requires b == [] || Breaks(b[0]) || BodyLength(a) < |a|
    ensures BodyLength(a + b) == BodyLength(a)
  {
    if a == [] {
      assert a + b == b;
    } else if !Breaks(a[0]) {
      assert (a + b)[1..] == a[1..] + b;
      BodyLengthConcat(a[1..], b);
    }
  }

  /** Normal diffs may be put one behind the other unless the second would run into a hunk of the first. */
  lemma {:induction false} NormalConcat(a: seq<string>, b: seq<string>)
    requires IsNormal(a) && IsNormal(b)
    requires EndsInHunk(a) && b != [] ==> Breaks(b[0])
    ensures IsNormal(a + b)
    ensures EndsInHunk(a + b) <==> if b == [] then EndsInHunk(a) else EndsInHunk(b)
    decreases |a|
  {
    hide NormalizedHunk;
    var c := a + b;
    if a == [] {
      assert c == b;
    } else if !IsHeader(a[0]) {
      assert c[0] == a[0] && c[1..] == a[1..] + b;
      NormalConcat(a[1..], b);
    } else {
      var n := BodyLength(a[1..]);
      var rest := a[n + 1..];
      NormalConcat(rest, b);
      BodyLengthConcat(a[1..], b);
      HunkInFront(a, b, n);
      NormalHunkInFront(c, a, n, rest + b);
    }
  }

  lemma NormalHunkInFront(c: seq<string>, a: seq<string>, n: nat, rest: seq<string>)
    requires a != [] && c != [] && IsHeader(a[0]) && c[0] == a[0] && n == BodyLength(a[1..]) == BodyLength(c[1..])
    requires n + 1 <= |a| && n + 1 <= |c| && c[..n + 1] == a[..n + 1] && c[1..n + 1] == a[1..n + 1]
    requires c[n + 1..] == rest
    requires NormalizedHunk(a[0], a[1..n + 1]) == a[..n + 1] && IsNormal(rest)
    ensures IsNormal(c)
  {
    hide NormalizedHunk, BodyLength;
  }

  lemma HunkInFront(a: seq<string>, b: seq<string>, n: nat)
    requires a != [] && n + 1 <= |a|
    ensures var c := a + b; c[0] == a[0] && c[1..] == a[1..] + b && c[1..n + 1] == a[1..n + 1]
                            && c[..n + 1] == a[..n + 1] && c[n + 1..] == a[n + 1..] + b
  {
  }

  ghost predicate AllPlain(lines: seq<string>) {
    forall l | l in lines :: !IsHeader(l) && !IsFence(l)
  }

  lemma {:induction false} PlainIsNormal(lines: seq<string>)
    requires AllPlain(lines)
    ensures IsNormal(lines) && !EndsInHunk(lines)
  {
    if lines != [] {
      assert lines[0] in lines && forall l | l in lines[1..] :: l in lines;
      PlainIsNormal(lines[1..]);
    }
  }

  lemma NormalizedHunkIsNormal(header: string, body: seq<string>)
    requires IsHeader(header) && forall l | l in body :: !Breaks(l)
    requires NormalizedHunk(header, body) != []
    ensures IsNormal(NormalizedHunk(header, body)) && EndsInHunk(NormalizedHunk(header, body))
    ensures IsHeader(NormalizedHunk(header, body)[0])
  {
    var hunk := NormalizedHunk(header, body);
    HunkIsStable(header, body);
    KeptAreHunkLines(body);
    assert hunk[1..] == KeptLines(body);
    forall k | 0 <= k < |hunk[1..]| ensures !Breaks(hunk[1..][k]) {
      assert hunk[1..][k] in hunk[1..];
      assert !Breaks(" ");
    }
    NoBreaks(hunk[1..]);
    assert hunk[1..|hunk|] == hunk[1..] && hunk[..|hunk|] == hunk && hunk[|hunk|..] == [];
  }

  lemma {:induction false} NoBreaks(lines: seq<string>)
    requires forall k | 0 <= k < |lines| :: !Breaks(lines[k])
    ensures BodyLength(lines) == |lines|
  {
    if lines != [] {
      NoBreaks(lines[1..]);
    }
  }

  /** The output so far is normal, and only a line that ends a hunk body follows a hunk. */
  ghost predicate GoodOutput(out: seq<string>, headers: int, lines: seq<string>) {
    && headers <= |out|
    && IsNormal(out)
    && (EndsInHunk(out) && lines != [] ==> Breaks(lines[0]))
    && (headers >= 0 ==>
       headers < |out| && IsNormal(out[..headers]) && AllPlain(out[headers..]) && IsOldFile(out[headers]))
  }

  lemma AppendPlain(out: seq<string>, headers: int, l: string, lines: seq<string>)
    requires GoodOutput(out, headers, lines) && lines != [] && lines[0] == l && !IsHeader(l) && !IsFence(l)
    ensures IsNormal(out + [l]) && !EndsInHunk(out + [l])
    ensures headers >= 0 ==> (out + [l])[..headers] == out[..headers] && AllPlain((out + [l])[headers..])
  {
    hide NormalizedHunk;
    PlainIsNormal([l]);
    NormalConcat(out, [l]);
    if headers >= 0 {
      assert (out + [l])[headers..] == out[headers..] + [l];
    }
  }

  lemma NonHunkStep(out: seq<string>, headers: int, lines: seq<string>)
    requires lines != [] && !IsHeader(lines[0]) && GoodOutput(out, headers, lines)
    ensures var (out', headers', rest) := AfterNonHunk(out, headers, lines); GoodOutput(out', headers', rest)
  {
    hide NormalizedHunk;
    var l := lines[0];
    if IsFence(l) {
      assert !Breaks(l);
    } else {
      AppendPlain(out, headers, l, lines);
      if IsOldFile(l) && |lines| > 1 && IsNewFile(lines[1]) {
        var once, twice := out + [l], out + [l, lines[1]];
        PlainIsNormal([lines[1]]);
        NormalConcat(once, [lines[1]]);
        assert twice == once + [lines[1]];
        assert twice[..|out|] == out && twice[|out|..] == [l, lines[1]];
      }
    }
  }

  lemma HunkAppended(out: seq<string>, header: string, body: seq<string>)
    requires IsNormal(out) && IsHeader(header) && forall l | l in body :: !Breaks(l)
    requires NormalizedHunk(header, body) != []
    ensures IsNormal(out + NormalizedHunk(header, body))
  {
    hide NormalizedHunk;
    NormalizedHunkIsNormal(header, body);
    NormalConcat(out, NormalizedHunk(header, body));
  }

  lemma AfterBody(lines: seq<string>)
    requires lines != []
    ensures var n := BodyLength(lines[1..]);
            && (forall l | l in lines[1..n + 1] :: !Breaks(l))
            && (lines[n + 1..] != [] ==> Breaks(lines[n + 1..][0]))
  {
    var n := BodyLength(lines[1..]);
    assert lines[1..n + 1] == lines[1..][..n];
    assert n < |lines[1..]| ==> lines[n + 1..][0] == lines[1..][n];
  }

  lemma HunkStep(out: seq<string>, headers: int, lines: seq<string>)
    requires lines != [] && IsHeader(lines[0]) && GoodOutput(out, headers, lines)
    ensures var n := BodyLength(lines[1..]);
            GoodOutput(AfterHunk(out, headers, NormalizedHunk(lines[0], lines[1..n + 1])), -1, lines[n + 1..])
  {
    hide NormalizedHunk;
    var n := BodyLength(lines[1..]);
    AfterBody(lines);
    var hunk := NormalizedHunk(lines[0], lines[1..n + 1]);
    if hunk != [] {
      HunkAppended(out, lines[0], lines[1..n + 1]);
    }
    assert IsNormal(AfterHunk(out, headers, hunk));
  }

  lemma {:induction false} NormalizedIsNormal(out: seq<string>, headers: int, lines: seq<string>)
    requires GoodOutput(out, headers, lines)
    ensures IsNormal(Normalized(out, headers, lines))
    decreases |lines|
  {
    hide NormalizedHunk;
    if lines == [] {
    } else if !IsHeader(lines[0]) {
      NonHunkStep(out, headers, lines);
      var (out', headers', rest) := AfterNonHunk(out, headers, lines);
      NormalizedIsNormal(out', headers', rest);
    } else {
      HunkStep(out, headers, lines);
      var n := BodyLength(lines[1..]);
      NormalizedIsNormal(AfterHunk(out, headers, NormalizedHunk(lines[0], lines[1..n + 1])), -1, lines[n + 1..]);
    }
  }

  // ---------- the output stays a list of lines ----------

  lemma {:induction false} KeptAreLines(body: seq<string>)
    requires AllOneLine(body)
    ensures AllOneLine(KeptLines(body))
  {
    KeptAreHunkLines(body);
  }

  lemma {:induction false} ReadFieldsOneLine(st: Starts, fields: seq<string>)
    requires IsStart(st.oldStart) && IsStart(st.newStart)
    ensures OneLine(ReadFields(st, fields).oldStart) && OneLine(ReadFields(st, fields).newStart)
  {
    ReadFieldsKeepsStarts(st, fields);
    var r := ReadFields(st, fields);
    PositiveMeansDigits(0, r.oldStart);
    PositiveMeansDigits(0, r.newStart);
  }

  lemma HeaderIsOneLine(header: string, oldCount: nat, newCount: nat)
    requires IsHeader(header) && OneLine(header)
    ensures OneLine(Header(StartsOf(header), oldCount, newCount, Trail(header)))
  {
    TrailAlreadyRead(header);
    ReadFieldsOneLine(StartsOf(header), []);
    DigitsArePlain(Decimal(oldCount));
    DigitsArePlain(Decimal(newCount));
    forall c | c in Trail(header) ensures c != '\n' {
      assert c in header;
    }
  }

  lemma {:induction false} NormalizedIsLines(out: seq<string>, headers: int, lines: seq<string>)
    requires headers <= |out| && AllOneLine(out) && AllOneLine(lines)
    ensures AllOneLine(Normalized(out, headers, lines))
    decreases |lines|
  {
    hide NormalizedHunk, Normalized, AfterNonHunk;
    NormalizedUnfolds(out, headers, lines);
    if lines == [] {
    } else if !IsHeader(lines[0]) {
      NonHunkIsLines(out, headers, lines);
      var (out', headers', rest) := AfterNonHunk(out, headers, lines);
      NormalizedIsLines(out', headers', rest);
    } else {
      var n := BodyLength(lines[1..]);
      HunkIsLines(lines, n);
      PrefixIsLines(out, headers);
      NormalizedIsLines(AfterHunk(out, headers, NormalizedHunk(lines[0], lines[1..n + 1])), -1, lines[n + 1..]);
    }
  }

  lemma NonHunkIsLines(out: seq<string>, headers: int, lines: seq<string>)
    requires lines != [] && AllOneLine(out) && AllOneLine(lines)
    ensures var (out', _, rest) := AfterNonHunk(out, headers, lines); AllOneLine(out') && AllOneLine(rest)
  {
    assert lines[0] in lines && (|lines| > 1 ==> lines[1] in lines);
    assert (forall l | l in lines[1..] :: l in lines) && (|lines| > 1 ==> forall l | l in lines[2..] :: l in lines);
  }

  lemma PrefixIsLines(out: seq<string>, headers: int)
    requires headers <= |out| && AllOneLine(out)
    ensures headers >= 0 ==> AllOneLine(out[..headers])
  {
  }

  lemma HunkIsLines(lines: seq<string>, n: nat)
    requires lines != [] && IsHeader(lines[0]) && n + 1 <= |lines| && AllOneLine(lines)
    ensures AllOneLine(NormalizedHunk(lines[0], lines[1..n + 1])) && AllOneLine(lines[n + 1..])
  {
    var body := lines[1..n + 1];
    assert lines[0] in lines && (forall l | l in body :: l in lines) && forall l | l in lines[n + 1..] :: l in lines;
    KeptAreLines(body);
    HeaderIsOneLine(lines[0], OldLines(KeptLines(body)), NewLines(KeptLines(body)));
  }

  // ---------- the main results ----------

  lemma {:induction false} MarkInLines(lines: seq<string>, l: string)
    requires l in lines && IsHeader(l)
    ensures IndexOfMark(JoinLines(lines) + "\n") >= 0
  {
    var text := JoinLines(lines) + "\n";
    if lines[0] == l {
      assert text[0] == '@' && text[1] == '@';
      MarkFound(text, 0);
    } else {
      MarkInLines(lines[1..], l);
      var rest := JoinLines(lines[1..]) + "\n";
      assert text == lines[0] + "\n" + rest;
      var k := IndexOfMark(rest);
      MarkFound(text, |lines[0]| + 1 + k);
    }
  }

  lemma TrimmedPatch(lines: seq<string>)
    requires lines != [] && AllOneLine(lines)
    ensures SplitLines(TrimNewline(JoinLines(lines) + "\n")) == lines
  {
    var text := JoinLines(lines);
    assert (text + "\n")[..|text|] == text;
    SplitJoined(lines);
  }

  /** Normalizing twice is normalizing once: a second run reports no change. */
  lemma NormalizationIsIdempotent(patch: string)
    ensures NormalizedDiff(NormalizedDiff(patch)) == NormalizedDiff(patch)
  {
    hide NormalizedHunk;
    var result := NormalizedDiff(patch);
    if IndexOfMark(patch) >= 0 && IndexOfMark(result) >= 0 {
      var lines := SplitLines(TrimNewline(patch));
      var out := Normalized([], -1, lines);
      SplitIsOneLine(TrimNewline(patch));
      NormalizedIsLines([], -1, lines);
      NormalizedIsNormal([], -1, lines);
      if out == [] {
        assert false;
      }
      TrimmedPatch(out);
      NormalStays(out);
      NormalizedBlockwise([], -1, out, out);
      assert [] + out == out;
    }
  }

  /**
    What a run leaves alone: a diff that ends in a newline, has no fence outside its hunks, and whose
    hunks are all normalized already.
   */
  lemma UnchangedIffNormal(patch: string)
    requires IndexOfMark(patch) >= 0
    ensures NormalizedDiff(patch) == patch
            <==> patch[|patch| - 1] == '\n' && IsNormal(SplitLines(TrimNewline(patch)))
  {
    hide NormalizedHunk, Normalized, IsNormal, BecomesBlockwise, JoinLines, SplitLines, TrimNewline, NormalizedDiff;
    if NormalizedDiff(patch) == patch {
      UnchangedIsNormal(patch);
    } else if patch[|patch| - 1] == '\n' && IsNormal(SplitLines(TrimNewline(patch))) {
      NormalIsUnchanged(patch);
      assert false;
    }
  }

  lemma UnchangedIsNormal(patch: string)
    requires IndexOfMark(patch) >= 0 && NormalizedDiff(patch) == patch
    ensures patch[|patch| - 1] == '\n' && IsNormal(SplitLines(TrimNewline(patch)))
  {
    hide NormalizedHunk, Normalized, IsNormal, BecomesBlockwise, JoinLines, SplitLines, TrimNewline;
    var lines := SplitLines(TrimNewline(patch));
    var out := Normalized([], -1, lines);
    SplitIsOneLine(TrimNewline(patch));
    NothingIsGood(lines);
    NormalizedIsLines([], -1, lines);
    NormalizedIsNormal([], -1, lines);
    SomethingIsLeft(patch, out);
    TrimmedPatch(out);
  }

  lemma NormalIsUnchanged(patch: string)
    requires IndexOfMark(patch) >= 0 && patch[|patch| - 1] == '\n' && IsNormal(SplitLines(TrimNewline(patch)))
    ensures NormalizedDiff(patch) == patch
  {
    hide NormalizedHunk, Normalized, IsNormal, BecomesBlockwise, JoinLines, SplitLines;
    var lines := SplitLines(TrimNewline(patch));
    NormalStays(lines);
    NormalizedBlockwise([], -1, lines, lines);
    assert [] + lines == lines;
    JoinedSplit(TrimNewline(patch));
    assert TrimNewline(patch) + "\n" == patch;
  }

  lemma NothingIsGood(lines: seq<string>)
    ensures GoodOutput([], -1, lines) && AllOneLine([])
  {
  }

  lemma SomethingIsLeft(patch: string, out: seq<string>)
    requires IndexOfMark(patch) >= 0 && patch == JoinLines(out) + "\n"
    ensures out != []
  {
    if out == [] {
      assert false;
    }
  }

  /** The header at `i` with the body lines below it. */
  ghost predicate ConsistentAt(lines: seq<string>, i: nat)
    requires i < |lines|
  {
    IsConsistentHunk(lines[i], lines[i + 1..i + 1 + BodyLength(lines[i + 1..])])
  }

  lemma {:induction false} NormalHunksAreConsistent(lines: seq<string>, i: nat)
    requires IsNormal(lines) && i < |lines| && IsHeader(lines[i])
    ensures ConsistentAt(lines, i)
    decreases |lines|
  {
    hide ConsistentAt, NormalizedHunk;
    if i == 0 {
      FirstHunkIsConsistent(lines);
    } else {
      var k := BlockLength(lines, i);
      NormalHunksAreConsistent(lines[k..], i - k);
      ShiftedBody(lines, k, i);
    }
  }

  /** The first block of a normal diff ends at or before any later header. */
  lemma BlockLength(lines: seq<string>, i: nat) returns (k: nat)
    requires IsNormal(lines) && 0 < i < |lines| && IsHeader(lines[i])
    ensures 0 < k <= i && IsNormal(lines[k..])
  {
    if !IsHeader(lines[0]) {
      return 1;
    }
    var n := BodyLength(lines[1..]);
    forall k | 1 <= k <= n ensures !Breaks(lines[k]) {
      assert lines[k] == lines[1..][k - 1];
    }
    return n + 1;
  }

  lemma ShiftedBody(lines: seq<string>, k: nat, i: nat)
    requires k <= i < |lines|
    ensures ConsistentAt(lines[k..], i - k) <==> ConsistentAt(lines, i)
  {
    assert lines[k..][i - k + 1..] == lines[i + 1..];
    var m := BodyLength(lines[i + 1..]);
    assert lines[k..][i - k + 1..i - k + 1 + m] == lines[i + 1..i + 1 + m];
  }

  lemma FirstHunkIsConsistent(lines: seq<string>)
    requires IsNormal(lines) && lines != [] && IsHeader(lines[0])
    ensures ConsistentAt(lines, 0)
  {
    var body := lines[1..1 + BodyLength(lines[1..])];
    KeptAreHunkLines(body);
    TrailAlreadyRead(lines[0]);
    var hunk := NormalizedHunk(lines[0], body);
    assert hunk == lines[..|body| + 1];
    assert hunk[1..] == KeptLines(body) && hunk[1..] == body && hunk[0] == lines[0];
    HeaderCountsSides(StartsOf(lines[0]), body, Trail(lines[0]));
  }

  /** Every hunk that survives is non-empty, clean, and counted right. */
  lemma SurvivingHunksAreConsistent(patch: string)
    requires IndexOfMark(patch) >= 0
    ensures var out := SplitLines(TrimNewline(NormalizedDiff(patch)));
            forall i: nat | i < |out| && IsHeader(out[i]) :: ConsistentAt(out, i)
  {
    hide NormalizedHunk, ConsistentAt;
    var lines := SplitLines(TrimNewline(patch));
    var out := Normalized([], -1, lines);
    if out == [] {
      assert TrimNewline(NormalizedDiff(patch)) == "";
    } else {
      SplitIsOneLine(TrimNewline(patch));
      NormalizedIsLines([], -1, lines);
      TrimmedPatch(out);
      NormalizedIsNormal([], -1, lines);
      forall i: nat | i < |out| && IsHeader(out[i]) ensures ConsistentAt(out, i) {
        NormalHunksAreConsistent(out, i);
      }
    }
  }
}
