/**
  What the normalizer of internal/candidate/normalize.go undoes: a diff as its author meant it,
  printed, damaged on its way through a model, and read back.
 */
module PrintedDiffs {
  import opened Text
  import opened HunkHeader
  import opened UnifiedDiff

  /** A diff as its author meant it: lines outside hunks, and hunks. */
  datatype Section = Plain(text: string) | Hunk(starts: Starts, trail: string, body: seq<BodyLine>)

  /**
    What happened to a section on its way through a model: Markdown fences in front of a plain
    line; a hunk's counts replaced, some of its blank context lines emptied, garbage behind it.
   */
  datatype Damage = Fenced(fences: seq<string>) | Mangled(oldCount: string, newCount: string, emptied: seq<bool>,
    garbage: seq<string>)

  function PrintedSection(section: Section): seq<string> {
    match section
    case Plain(text) => [text]
    case Hunk(starts, trail, body) => [PrintedHeader(starts, body, trail)] + BodyText(body)
  }

  function Printed(sections: seq<Section>): seq<string> {
    if sections == [] then [] else PrintedSection(sections[0]) + Printed(sections[1..])
  }

  ghost predicate IsWellFormed(section: Section, afterHunk: bool) {
    match section
    case Plain(text) => OneLine(text) && !("@@ " <= text) && !("```" <= text) && (afterHunk ==> "--- " <= text)
    case Hunk(starts, trail, body) =>
      && IsStart(starts.oldStart) && IsStart(starts.newStart)
      && OneLine(trail) && ReadFields(starts, TrailFields(trail)) == starts
      && (forall l | l in body :: OneLine(l.text) && !(l.Removed? && "-- " <= l.text))
      && |OldSide(body)| + |NewSide(body)| > 0
  }

  /** After a hunk, the first plain line starts a new file section. */
  ghost predicate AreWellFormed(sections: seq<Section>, afterHunk: bool) {
    sections == [] || (IsWellFormed(sections[0], afterHunk) && AreWellFormed(sections[1..], sections[0].Hunk?))
  }

  function Emptied(body: seq<string>, mask: seq<bool>): seq<string>
    requires |mask| == |body|
  {
    if body == [] then [] else [if mask[0] && body[0] == " " then "" else body[0]] + Emptied(body[1..], mask[1..])
  }

  ghost predicate IsDamage(section: Section, damage: Damage, afterHunk: bool) {
    match section
    case Plain(_) =>
      damage.Fenced? && (afterHunk ==> damage.fences == []) && forall l | l in damage.fences :: "```" <= l && OneLine(l)
    case Hunk(_, _, body) =>
      && damage.Mangled? && IsCountText(damage.oldCount) && IsCountText(damage.newCount)
      && OneLine(damage.oldCount) && OneLine(damage.newCount)
      && |damage.emptied| == |body| && (body != [] ==> !damage.emptied[|body| - 1])
      && (forall l | l in damage.garbage :: !("@@ " <= l) && !("--- " <= l) && OneLine(l))
      && IsGarbage(damage.garbage)
  }

  /** Empty lines, and behind them nothing or a line without a sign of a hunk. */
  ghost predicate IsGarbage(lines: seq<string>) {
    exists n: nat :: n <= |lines| && (forall k | 0 <= k < n :: lines[k] == "")
      && (n == |lines| || (lines[n] != "" && lines[n][0] !in " -+\\"))
  }

  ghost predicate AreDamages(sections: seq<Section>, damages: seq<Damage>, afterHunk: bool) {
    |damages| == |sections| &&
    (sections == [] || (IsDamage(sections[0], damages[0], afterHunk)
      && AreDamages(sections[1..], damages[1..], sections[0].Hunk?)))
  }

  function DamagedSection(section: Section, damage: Damage): seq<string>
    requires section.Hunk? ==> damage.Mangled? && |damage.emptied| == |section.body|
  {
    match section
    case Plain(text) => (if damage.Fenced? then damage.fences else []) + [text]
    case Hunk(starts, trail, body) =>
      ["@@ -" + starts.oldStart + damage.oldCount + " +" + starts.newStart + damage.newCount + " @@" + trail]
      + Emptied(BodyText(body), damage.emptied) + damage.garbage
  }

  ghost function Damaged(sections: seq<Section>, damages: seq<Damage>, afterHunk: bool): seq<string>
    requires AreDamages(sections, damages, afterHunk)
  {
    if sections == [] then []
    else DamagedSection(sections[0], damages[0]) + Damaged(sections[1..], damages[1..], sections[0].Hunk?)
  }

  /** The scanner's tests of a line's first bytes are tests of its prefix. */
  lemma PrefixTests(l: string)
    ensures IsHeader(l) <==> "@@ " <= l
    ensures IsOldFile(l) <==> "--- " <= l
    ensures IsNewFile(l) <==> "+++ " <= l
    ensures IsFence(l) <==> "```" <= l
  {
  }

  lemma BodyIsPlain(body: seq<BodyLine>)
    requires forall l | l in body :: OneLine(l.text) && !(l.Removed? && "-- " <= l.text)
    ensures forall l | l in BodyText(body) :: IsHunkLine(l) && OneLine(l) && !Breaks(l)
  {
    forall l | l in BodyText(body) ensures IsHunkLine(l) && OneLine(l) && !Breaks(l) {
      var i :| 0 <= i < |body| && BodyText(body)[i] == l;
      assert body[i] in body;
      LinePrints(body[i]);
    }
  }

  lemma LinePrints(l: BodyLine)
    requires OneLine(l.text) && !(l.Removed? && "-- " <= l.text)
    ensures IsHunkLine(LineText(l)) && OneLine(LineText(l)) && !Breaks(LineText(l))
  {
    var t := LineText(l);
    assert t[1..] == l.text;
  }

  lemma GarbageLeadsNowhere(lines: seq<string>)
    requires IsGarbage(lines)
    ensures !LeadsToHunkLine(lines)
  {
    var n: nat :| n <= |lines| && (forall k | 0 <= k < n :: lines[k] == "")
      && (n == |lines| || (lines[n] != "" && lines[n][0] !in " -+\\"));
    LeadsPastBlanks(lines, n);
    assert " -+\\"[0] == ' ' && " -+\\"[1] == '-' && " -+\\"[2] == '+' && " -+\\"[3] == '\\';
  }

  /** A damaged hunk in the terms the normalizer reads it in. */
  lemma DamagedHunk(section: Section, damage: Damage, afterHunk: bool)
    requires section.Hunk? && IsWellFormed(section, afterHunk) && IsDamage(section, damage, afterHunk)
    ensures var body := BodyText(section.body);
            && (forall l | l in body :: IsHunkLine(l) && OneLine(l) && !Breaks(l))
            && OldLines(body) + NewLines(body) > 0
            && PrintedSection(section) == [Header(section.starts, OldLines(body), NewLines(body), section.trail)] + body
            && DamagedSection(section, damage)
               == [HeaderText(section.starts, damage.oldCount, damage.newCount, section.trail)]
                  + Emptied(body, damage.emptied) + damage.garbage
            && (forall l | l in damage.garbage :: !Breaks(l)) && !LeadsToHunkLine(damage.garbage)
  {
    hide IsHunkLine, OneLine, LeadsToHunkLine, Emptied, ReadFields, IsGarbage, Breaks;
    BodyIsPlain(section.body);
    GarbageLeadsNowhere(damage.garbage);
    CountsAreSides(section.body);
    HeaderIsPrinted(section.starts, section.body, section.trail);
    forall l | l in damage.garbage ensures !Breaks(l) {
      PrefixTests(l);
      NothingBreaks(l);
    }
  }

  lemma NothingBreaks(l: string)
    requires !IsHeader(l) && !IsOldFile(l)
    ensures !Breaks(l)
  {
  }

  lemma {:induction false} EmptiedLeads(body: seq<string>, mask: seq<bool>, garbage: seq<string>)
    requires |mask| == |body| && body != [] && !mask[|body| - 1] && forall l | l in body :: IsHunkLine(l)
    ensures LeadsToHunkLine(Emptied(body, mask) + garbage)
  {
    assert body[0] in body;
    var first := if mask[0] && body[0] == " " then "" else body[0];
    var rest := Emptied(body[1..], mask[1..]) + garbage;
    Associative([first], Emptied(body[1..], mask[1..]), garbage);
    assert ([first] + rest)[1..] == rest;
    if |body| > 1 {
      assert forall l | l in body[1..] :: l in body;
      EmptiedLeads(body[1..], mask[1..], garbage);
    }
  }

  lemma {:induction false} GarbageIsCut(garbage: seq<string>)
    requires !LeadsToHunkLine(garbage)
    ensures KeptLines(garbage) == []
  {
    if garbage != [] && garbage[0] == "" {
      GarbageIsCut(garbage[1..]);
    }
  }

  /** Emptied context lines come back, and the garbage behind the body goes. */
  lemma {:induction false} BodyRecovered(body: seq<string>, mask: seq<bool>, garbage: seq<string>)
    requires |mask| == |body| && (body != [] ==> !mask[|body| - 1]) && forall l | l in body :: IsHunkLine(l)
    requires !LeadsToHunkLine(garbage)
    ensures KeptLines(Emptied(body, mask) + garbage) == body
  {
    var d := Emptied(body, mask) + garbage;
    if body == [] {
      assert d == garbage;
      GarbageIsCut(garbage);
    } else {
      assert body[0] in body && forall l | l in body[1..] :: l in body;
      BodyRecovered(body[1..], mask[1..], garbage);
      assert d[1..] == Emptied(body[1..], mask[1..]) + garbage;
      if d[0] == "" {
        EmptiedLeads(body[1..], mask[1..], garbage);
      }
      assert body == [body[0]] + body[1..];
    }
  }

  lemma {:induction false} EmptiedKeepsLines(body: seq<string>, mask: seq<bool>)
    requires |mask| == |body| && forall l | l in body :: OneLine(l) && !Breaks(l)
    ensures forall l | l in Emptied(body, mask) :: OneLine(l) && !Breaks(l)
  {
    if body != [] {
      assert body[0] in body && forall l | l in body[1..] :: l in body;
      EmptiedKeepsLines(body[1..], mask[1..]);
      assert !Breaks("");
    }
  }

  lemma CountTexts(section: Section, damage: Damage, afterHunk: bool)
    requires section.Hunk? && IsWellFormed(section, afterHunk) && IsDamage(section, damage, afterHunk)
    ensures damage.Mangled? && IsCountText(damage.oldCount) && IsCountText(damage.newCount)
    ensures |damage.emptied| == |section.body|
    ensures section.body != [] ==> !damage.emptied[|section.body| - 1]
  {
  }

  lemma HunkRecovered(section: Section, damage: Damage, afterHunk: bool, lines: seq<string>)
    requires section.Hunk? && IsWellFormed(section, afterHunk) && IsDamage(section, damage, afterHunk)
    requires lines == DamagedSection(section, damage)
    ensures lines != [] && IsHeader(lines[0]) && NormalizedHunk(lines[0], lines[1..]) == PrintedSection(section) != []
    ensures forall l | l in lines[1..] :: !Breaks(l)
  {
    hide KeptLines, ReadFields, TrailFields, StartsOf, Header, HeaderText, PrintedHeader, IsDamage, Trail;
    hide PrintedSection, DamagedSection, OldLines, NewLines, IsHeader, Breaks;
    var starts, trail, body := section.starts, section.trail, BodyText(section.body);
    CountTexts(section, damage, afterHunk);
    var d := Emptied(body, damage.emptied);
    DamagedHunk(section, damage, afterHunk);
    assert lines[1..] == d + damage.garbage;
    EmptiedKeepsLines(body, damage.emptied);
    BodyRecovered(body, damage.emptied, damage.garbage);
    PlausibleStarts(starts);
    StartsOfHeader(starts, damage.oldCount, damage.newCount, trail);
    TrailOfHeader(starts, damage.oldCount, damage.newCount, trail);
  }

  lemma {:induction false} FencesVanish(fences: seq<string>, src: seq<string>, dst: seq<string>)
    requires BecomesBlockwise(src, dst) && forall l | l in fences :: IsFence(l)
    ensures BecomesBlockwise(fences + src, dst)
  {
    if fences == [] {
      assert fences + src == src;
    } else {
      assert fences[0] in fences && forall l | l in fences[1..] :: l in fences;
      assert fences[0][0] == '`';
      FencesVanish(fences[1..], src, dst);
      assert (fences + src)[1..] == fences[1..] + src;
    }
  }

  lemma PlainInFront(text: string, src: seq<string>, dst: seq<string>)
    requires BecomesBlockwise(src, dst) && !IsHeader(text) && !IsFence(text)
    ensures BecomesBlockwise([text] + src, [text] + dst)
  {
    assert ([text] + src)[1..] == src && ([text] + dst)[1..] == dst;
  }

  lemma MangledInFront(lines: seq<string>, hunk: seq<string>, src: seq<string>, dst: seq<string>)
    requires BecomesBlockwise(src, dst) && (src != [] ==> Breaks(src[0]))
    requires lines != [] && IsHeader(lines[0]) && NormalizedHunk(lines[0], lines[1..]) == hunk != []
    requires forall l | l in lines[1..] :: !Breaks(l)
    ensures BecomesBlockwise(lines + src, hunk + dst)
  {
    hide NormalizedHunk;
    NoBreaks(lines[1..]);
    BodyLengthConcat(lines[1..], src);
    HunkInFront(lines, src, |lines| - 1);
    assert lines[1..|lines|] == lines[1..] && lines[|lines|..] + src == src;
    PrefixOf(hunk, dst);
  }

  lemma PrefixOf(a: seq<string>, b: seq<string>)
    ensures a <= a + b && (a + b)[|a|..] == b
  {
  }

  lemma {:induction false} DamageIsUndone(sections: seq<Section>, damages: seq<Damage>, afterHunk: bool)
    requires AreWellFormed(sections, afterHunk) && AreDamages(sections, damages, afterHunk)
    ensures BecomesBlockwise(Damaged(sections, damages, afterHunk), Printed(sections))
    ensures var src := Damaged(sections, damages, afterHunk); afterHunk && src != [] ==> Breaks(src[0])
  {
    hide NormalizedHunk, DamagedSection, PrintedSection;
    if sections != [] {
      var src, dst := Damaged(sections[1..], damages[1..], sections[0].Hunk?), Printed(sections[1..]);
      var lines := DamagedSection(sections[0], damages[0]);
      DamageIsUndone(sections[1..], damages[1..], sections[0].Hunk?);
      if sections[0].Plain? {
        PlainSectionUndone(sections[0], damages[0], afterHunk, src, dst);
      } else {
        HunkRecovered(sections[0], damages[0], afterHunk, lines);
        MangledInFront(lines, PrintedSection(sections[0]), src, dst);
      }
      FirstSectionBreaks(sections[0], damages[0], afterHunk);
    }
  }

  lemma PlainSectionUndone(section: Section, damage: Damage, afterHunk: bool, src: seq<string>, dst: seq<string>)
    requires section.Plain? && IsWellFormed(section, afterHunk) && IsDamage(section, damage, afterHunk)
    requires BecomesBlockwise(src, dst)
    ensures BecomesBlockwise(DamagedSection(section, damage) + src, PrintedSection(section) + dst)
  {
    PlainInFront(section.text, src, dst);
    FencesVanish(damage.fences, [section.text] + src, [section.text] + dst);
    assert DamagedSection(section, damage) + src == damage.fences + ([section.text] + src);
  }

  lemma FirstSectionBreaks(section: Section, damage: Damage, afterHunk: bool)
    requires IsWellFormed(section, afterHunk) && IsDamage(section, damage, afterHunk)
    ensures DamagedSection(section, damage) != []
    ensures afterHunk || section.Hunk? ==> Breaks(DamagedSection(section, damage)[0])
  {
    if section.Hunk? {
      HunkRecovered(section, damage, afterHunk, DamagedSection(section, damage));
    }
  }

  lemma DamagedSectionIsLines(section: Section, damage: Damage, afterHunk: bool)
    requires IsWellFormed(section, afterHunk) && IsDamage(section, damage, afterHunk)
    ensures AllOneLine(DamagedSection(section, damage)) && DamagedSection(section, damage) != []
  {
    if section.Hunk? {
      hide PrintedSection, ReadFields, TrailFields, LeadsToHunkLine, Breaks, IsHunkLine, OldLines, NewLines, Emptied,
           BodyText;
      DamagedHunk(section, damage, afterHunk);
      EmptiedKeepsLines(BodyText(section.body), damage.emptied);
      HeaderTextIsOneLine(section.starts, damage.oldCount, damage.newCount, section.trail);
    }
  }

  lemma HeaderTextIsOneLine(starts: Starts, oldCount: string, newCount: string, trail: string)
    requires IsStart(starts.oldStart) && IsStart(starts.newStart)
    requires OneLine(oldCount) && OneLine(newCount) && OneLine(trail)
    ensures OneLine("@@ -" + starts.oldStart + oldCount + " +" + starts.newStart + newCount + " @@" + trail)
  {
    ReadFieldsOneLine(starts, []);
  }

  lemma {:induction false} DamagedIsLines(sections: seq<Section>, damages: seq<Damage>, afterHunk: bool)
    requires AreWellFormed(sections, afterHunk) && AreDamages(sections, damages, afterHunk)
    ensures AllOneLine(Damaged(sections, damages, afterHunk))
    ensures (exists s :: s in sections && s.Hunk?) ==>
            exists l :: l in Damaged(sections, damages, afterHunk) && IsHeader(l)
  {
    if sections != [] {
      DamagedIsLines(sections[1..], damages[1..], sections[0].Hunk?);
      DamagedSectionIsLines(sections[0], damages[0], afterHunk);
      if sections[0].Hunk? {
        var lines := DamagedSection(sections[0], damages[0]);
        HunkRecovered(sections[0], damages[0], afterHunk, lines);
        assert lines[0] in Damaged(sections, damages, afterHunk);
      } else if s :| s in sections && s.Hunk? {
        assert s in sections[1..];
        var l :| l in Damaged(sections[1..], damages[1..], sections[0].Hunk?) && IsHeader(l);
        assert l in Damaged(sections, damages, afterHunk);
      }
    }
  }

  /**
    Whatever happens to the counts, the blank context lines and the fences of a printed diff, and
    whatever garbage is appended to its hunks, normalizing gives the printed diff back exactly.
   */
  lemma NormalizationRecoversPrintedDiff(sections: seq<Section>, damages: seq<Damage>)
    requires AreWellFormed(sections, false) && AreDamages(sections, damages, false)
    requires exists s :: s in sections && s.Hunk?
    ensures NormalizedDiff(JoinLines(Damaged(sections, damages, false)) + "\n") == JoinLines(Printed(sections)) + "\n"
  {
    hide NormalizedHunk, Damaged, Printed;
    var src, dst := Damaged(sections, damages, false), Printed(sections);
    DamagedIsLines(sections, damages, false);
    var l :| l in src && IsHeader(l);
    MarkInLines(src, l);
    TrimmedPatch(src);
    DamageIsUndone(sections, damages, false);
    NormalizedBlockwise([], -1, src, dst);
    assert [] + dst == dst;
  }
}
