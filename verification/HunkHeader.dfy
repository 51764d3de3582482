/**
  The @@ header of a hunk (internal/candidate/normalize.go): the declared start lines are read
  leniently, the counts are written anew, and whatever trails the second @@ is kept.
 */
module HunkHeader {
  import opened Text

  const HUNK := "@@ "

  /** strings.HasPrefix(line, "@@ "). */
  predicate IsHeader(line: string) {
    |line| >= 3 && line[0] == '@' && line[1] == '@' && line[2] == ' '
  }

  /** strings.HasPrefix(l, "--- "). */
  predicate IsOldFile(l: string) {
    |l| >= 4 && l[0] == '-' && l[1] == '-' && l[2] == '-' && l[3] == ' '
  }

  /** strings.HasPrefix(l, "+++ "). */
  predicate IsNewFile(l: string) {
    |l| >= 4 && l[0] == '+' && l[1] == '+' && l[2] == '+' && l[3] == ' '
  }

  // ---------- numbers ----------

  /** Two's complement wrap-around of a Go int. */
  function Wrap64(n: int): int {
    (n + 0x8000_0000_0000_0000) % 0x1_0000_0000_0000_0000 - 0x8000_0000_0000_0000
  }

  predicate IsDigit(c: char) {
    '0' <= c <= '9'
  }

  predicate AllDigits(s: string) {
    forall c | c in s :: IsDigit(c)
  }

  function DigitsFrom(n: int, s: string): int
    decreases |s|
  {
    if s == "" then n
    else if !IsDigit(s[0]) then -1
    else DigitsFrom(Wrap64(Wrap64(n * 10) + (s[0] as int - '0' as int)), s[1..])
  }

  /** strconv.Atoi on digits, without the range check. */
  function Number(digits: string): nat
    requires AllDigits(digits)
  {
    if digits == "" then 0
    else
      var last := digits[|digits| - 1];
      assert last in digits;
      10 * Number(digits[..|digits| - 1]) + (last as int - '0' as int)
  }

  lemma {:induction false} DigitsContinue(s: string, d: char)
    requires AllDigits(s) && IsDigit(d)
    ensures forall n :: DigitsFrom(n, s + [d]) == Wrap64(Wrap64(DigitsFrom(n, s) * 10) + (d as int - '0' as int))
    decreases |s|
  {
    if s == "" {
      assert s + [d] == [d] && [d][1..] == "";
    } else {
      assert s[0] in s && (s + [d])[0] == s[0] && (s + [d])[1..] == s[1..] + [d];
      DigitsContinue(s[1..], d);
    }
  }

  /** Wrapping lands in the range of a 64-bit int and moves by a multiple of its size. */
  lemma WrapOnce(n: int, d: int)
    ensures -0x8000_0000_0000_0000 <= Wrap64(n) < 0x8000_0000_0000_0000
    ensures (Wrap64(n) - n) % 0x1_0000_0000_0000_0000 == 0
    ensures Wrap64(Wrap64(Wrap64(n) * 10) + d) == Wrap64(n * 10 + d)
  {
    hide Wrap64;
    WrapMoves(n);
    var m := Wrap64(n) * 10;
    WrapMoves(m);
    TenTimesAndMore(Wrap64(n) - n, Wrap64(m) - m);
    assert Wrap64(m) + d - (n * 10 + d) == 10 * (Wrap64(n) - n) + (Wrap64(m) - m);
    WrapSame(Wrap64(m) + d, n * 10 + d);
  }

  lemma TenTimesAndMore(a: int, b: int)
    requires a % 0x1_0000_0000_0000_0000 == 0 && b % 0x1_0000_0000_0000_0000 == 0
    ensures (10 * a + b) % 0x1_0000_0000_0000_0000 == 0
  {
  }

  lemma WrapMoves(n: int)
    ensures -0x8000_0000_0000_0000 <= Wrap64(n) < 0x8000_0000_0000_0000
    ensures (Wrap64(n) - n) % 0x1_0000_0000_0000_0000 == 0
  {
  }

  lemma WrapSame(a: int, b: int)
    requires (a - b) % 0x1_0000_0000_0000_0000 == 0
    ensures Wrap64(a) == Wrap64(b)
  {
  }

  /** What is read of digits is the number they spell, wrapped around once. */
  lemma {:induction false} DigitsWrapAround(s: string)
    requires AllDigits(s)
    ensures DigitsFrom(0, s) == Wrap64(Number(s))
    ensures var n := DigitsFrom(0, s);
            -0x8000_0000_0000_0000 <= n < 0x8000_0000_0000_0000 && (n - Number(s)) % 0x1_0000_0000_0000_0000 == 0
    decreases |s|
  {
    hide Wrap64;
    if s == "" {
      WrapOnce(0, 0);
      NoWrap();
    } else {
      var front, d := s[..|s| - 1], s[|s| - 1];
      assert s == front + [d] && d in s && forall c | c in front :: c in s;
      DigitsWrapAround(front);
      DigitsContinue(front, d);
      WrapOnce(Number(front), d as int - '0' as int);
      WrapOnce(Number(s), 0);
    }
  }

  lemma NoWrap()
    ensures Wrap64(0) == 0
  {
  }

  /** The number the digits spell, wrapped like a Go int; -1 when some character is no digit. */
  method StrToPosInt(s: string) returns (n: int)
    ensures n == DigitsFrom(0, s)
  {
    n := 0;
    for i := 0 to |s|
      invariant DigitsFrom(n, s[i..]) == DigitsFrom(0, s)
    {
      assert s[i..][0] == s[i] && s[i..][1..] == s[i + 1..];
      if s[i] < '0' || s[i] > '9' {
        return -1;
      }
      n := Wrap64(Wrap64(n * 10) + (s[i] as int - '0' as int));
    }
  }

  lemma {:induction false} PositiveMeansDigits(n: int, s: string)
    requires DigitsFrom(n, s) >= 0
    ensures AllDigits(s)
    decreases |s|
  {
    if s != "" {
      PositiveMeansDigits(Wrap64(Wrap64(n * 10) + (s[0] as int - '0' as int)), s[1..]);
      assert s == [s[0]] + s[1..];
    }
  }

  /** A start line the header may declare: decimal digits spelling a positive number. */
  predicate IsStart(s: string) {
    s != "" && DigitsFrom(0, s) > 0
  }

  /** fmt's %d of a count. */
  function Decimal(n: nat): (s: string)
    ensures s != "" && AllDigits(s)
  {
    if n < 10 then [('0' as int + n) as char] else Decimal(n / 10) + [('0' as int + n % 10) as char]
  }

  // ---------- the declared starts ----------

  datatype Starts = Starts(oldStart: string, newStart: string)

  function IndexOfComma(s: string): (r: int)
    ensures -1 <= r < |s|
    ensures r >= 0 ==> s[r] == ','
    ensures forall k | 0 <= k < (if r >= 0 then r else |s|) :: s[k] != ','
  {
    if s == "" then -1
    else if s[0] == ',' then 0
    else
      var r := IndexOfComma(s[1..]);
      if r < 0 then -1 else r + 1
  }

  function BeforeComma(s: string): string {
    var j := IndexOfComma(s);
    if j < 0 then s else s[..j]
  }

  /** One field of the header: a signed number, up to a comma, overrides the start of its side. */
  function ReadField(st: Starts, f: string): Starts {
    if "-" <= f then
      if IsStart(BeforeComma(f[1..])) then st.(oldStart := BeforeComma(f[1..])) else st
    else if "+" <= f then
      if IsStart(BeforeComma(f[1..])) then st.(newStart := BeforeComma(f[1..])) else st
    else st
  }

  function ReadFields(st: Starts, fields: seq<string>): Starts {
    if fields == [] then st else ReadField(ReadFields(st, fields[..|fields| - 1]), fields[|fields| - 1])
  }

  const DEFAULT_STARTS := Starts("1", "1")

  function StartsOf(header: string): Starts {
    ReadFields(DEFAULT_STARTS, Fields(header))
  }

  method ParseStarts(header: string) returns (oldStart: string, newStart: string)
    ensures Starts(oldStart, newStart) == StartsOf(header)
  {
    var fields := Fields(header);
    oldStart, newStart := "1", "1";
    for i := 0 to |fields|
      invariant Starts(oldStart, newStart) == ReadFields(DEFAULT_STARTS, fields[..i])
    {
      assert fields[..i + 1][..i] == fields[..i];
      var s := fields[i];
      var isOld := "-" <= s;
      var isNew := !isOld && "+" <= s;
      if !isOld && !isNew {
        continue;
      }
      s := BeforeComma(s[1..]);
      if s == "" {
        continue;
      }
      var n := StrToPosInt(s);
      if n <= 0 {
        continue;
      }
      if isOld {
        oldStart := s;
      } else {
        newStart := s;
      }
    }
    assert fields[..|fields|] == fields;
  }

  lemma {:induction false} ReadFieldsConcat(st: Starts, a: seq<string>, b: seq<string>)
    ensures ReadFields(st, a + b) == ReadFields(ReadFields(st, a), b)
  {
    if b == [] {
      assert a + b == a;
    } else {
      assert (a + b)[..|a + b| - 1] == a + b[..|b| - 1];
      ReadFieldsConcat(st, a, b[..|b| - 1]);
    }
  }

  lemma {:induction false} ReadFieldsKeepsStarts(st: Starts, fields: seq<string>)
    requires IsStart(st.oldStart) && IsStart(st.newStart)
    ensures var r := ReadFields(st, fields); IsStart(r.oldStart) && IsStart(r.newStart)
  {
    if fields != [] {
      ReadFieldsKeepsStarts(st, fields[..|fields| - 1]);
    }
  }

  /** Each side either is overridden by some field, whatever it was, or keeps what it was. */
  lemma {:induction false} OverriddenOrKept(x: Starts, y: Starts, fields: seq<string>)
    ensures var a, b := ReadFields(x, fields), ReadFields(y, fields);
            && (a.oldStart == b.oldStart || (a.oldStart == x.oldStart && b.oldStart == y.oldStart))
            && (a.newStart == b.newStart || (a.newStart == x.newStart && b.newStart == y.newStart))
  {
    if fields != [] {
      OverriddenOrKept(x, y, fields[..|fields| - 1]);
    }
  }

  lemma ReadingTwice(x: Starts, fields: seq<string>)
    ensures ReadFields(ReadFields(x, fields), fields) == ReadFields(x, fields)
  {
    OverriddenOrKept(x, ReadFields(x, fields), fields);
  }

  // ---------- what trails the header ----------

  function Trail(header: string): string
    requires IsHeader(header)
  {
    var rest := header[3..];
    var idx := IndexOfMark(rest);
    if idx < 0 then "" else rest[idx + 2..]
  }

  /** Where the first field of the trail ends; it continues the field of the closing mark. */
  function FirstWord(s: string): (n: nat)
    ensures n <= |s| && NoSpace(s[..n]) && (n < |s| ==> IsSpace(s[n]))
  {
    if s == "" || IsSpace(s[0]) then 0
    else
      var n := FirstWord(s[1..]);
      assert s[..n + 1] == [s[0]] + s[1..][..n];
      n + 1
  }

  /** The fields a trail adds to its header. */
  function TrailFields(trail: string): seq<string> {
    var n := FirstWord(trail);
    if n == |trail| then [] else Fields(trail[n + 1..])
  }

  /** The fields of a text that ends in a mark and a trail. */
  lemma FieldsWithTrail(before: string, trail: string)
    ensures exists first ::
              && Fields(before + "@@" + trail) == FieldsFrom("", before + "@@" + first) + TrailFields(trail)
              && first == trail[..FirstWord(trail)]
  {
    var n := FirstWord(trail);
    var first := trail[..n];
    if n == |trail| {
      assert first == trail;
      assert Fields(before + "@@" + trail) == FieldsFrom("", before + "@@" + first) + [];
    } else {
      assert before + "@@" + trail == (before + "@@" + first) + [trail[n]] + trail[n + 1..];
      FieldsSplit("", before + "@@" + first, trail[n], trail[n + 1..]);
    }
  }

  // ---------- the rewritten header ----------

  /** A count as some header spells it after the start: nothing, or a comma and anything unbroken. */
  predicate IsCountText(s: string) {
    s == "" || (s[0] == ',' && NoSpace(s) && '@' !in s)
  }

  function HeaderText(st: Starts, oldCount: string, newCount: string, trail: string): string {
    "@@ -" + st.oldStart + oldCount + " +" + st.newStart + newCount + " @@" + trail
  }

  function Header(st: Starts, oldCount: nat, newCount: nat, trail: string): string {
    HeaderText(st, "," + Decimal(oldCount), "," + Decimal(newCount), trail)
  }

  lemma DecimalIsCountText(n: nat)
    ensures IsCountText("," + Decimal(n))
  {
    DigitsArePlain(Decimal(n));
    var s := "," + Decimal(n);
    forall c | c in s ensures !IsSpace(c) && c != '@' {
      assert c == ',' || c in Decimal(n);
    }
  }

  lemma DigitsArePlain(s: string)
    requires AllDigits(s)
    ensures NoSpace(s) && '@' !in s && ',' !in s && '\n' !in s
  {
  }

  lemma FieldOfSide(sign: char, start: string, count: string)
    requires IsNumber(start) && IsCountText(count)
    ensures var f := [sign] + start + count;
            NoSpace(start + count) && '@' !in start + count && BeforeComma(f[1..]) == start
  {
    DigitsArePlain(start);
    var s := start + count;
    assert ([sign] + start + count)[1..] == s;
    forall c | c in s ensures !IsSpace(c) && c != '@' {
      assert c in start || c in count;
    }
    var j := IndexOfComma(s);
    assert forall k | 0 <= k < |start| :: s[k] == start[k] && s[k] in start;
    if count == "" {
      assert s == start;
      assert j < 0;
    } else {
      assert s[|start|] == ',';
      assert s[..|start|] == start;
    }
  }

  /** The fields of a header with any counts: the two marks, the two sides, and the trail's own fields. */
  lemma FieldsOfHeader(st: Starts, oldCount: string, newCount: string, trail: string)
    requires IsNumber(st.oldStart) && IsNumber(st.newStart) && IsCountText(oldCount) && IsCountText(newCount)
    ensures Fields(HeaderText(st, oldCount, newCount, trail))
         == ["@@", "-" + st.oldStart + oldCount, "+" + st.newStart + newCount, "@@" + trail[..FirstWord(trail)]]
            + TrailFields(trail)
  {
    var a, b := "-" + st.oldStart + oldCount, "+" + st.newStart + newCount;
    SideIsPlain('-', st.oldStart, oldCount);
    SideIsPlain('+', st.newStart, newCount);
    HeaderParts(st, oldCount, newCount, trail);
    FourFields(a, b, trail);
  }

  lemma HeaderParts(st: Starts, oldCount: string, newCount: string, trail: string)
    ensures HeaderText(st, oldCount, newCount, trail)
         == "@@ " + ("-" + st.oldStart + oldCount) + " " + ("+" + st.newStart + newCount) + " @@" + trail
  {
  }

  lemma SideIsPlain(sign: char, start: string, count: string)
    requires !IsSpace(sign) && IsNumber(start) && IsCountText(count)
    ensures NoSpace([sign] + start + count)
  {
    FieldOfSide(sign, start, count);
    assert [sign] + start + count == [sign] + (start + count);
  }

  lemma FourFields(a: string, b: string, trail: string)
    requires a != "" && b != "" && NoSpace(a) && NoSpace(b)
    ensures Fields("@@ " + a + " " + b + " @@" + trail)
         == ["@@", a, b, "@@" + trail[..FirstWord(trail)]] + TrailFields(trail)
  {
    var last, more := "@@" + trail[..FirstWord(trail)], TrailFields(trail);
    LastFields(trail);
    FieldThen(b, "@@" + trail);
    FieldThen(a, b + " " + ("@@" + trail));
    FieldThen("@@", a + " " + (b + " " + ("@@" + trail)));
    assert "@@ " + a + " " + b + " @@" + trail == "@@" + " " + (a + " " + (b + " " + ("@@" + trail)));
    assert ["@@"] + ([a] + ([b] + ([last] + more))) == ["@@", a, b, last] + more;
  }

  lemma LastFields(trail: string)
    ensures Fields("@@" + trail) == ["@@" + trail[..FirstWord(trail)]] + TrailFields(trail)
  {
    FieldsWithTrail("", trail);
    var first := trail[..FirstWord(trail)];
    assert "" + "@@" + trail == "@@" + trail && "" + "@@" + first == "@@" + first;
    OneField("", "@@" + first);
    assert "" + ("@@" + first) == "@@" + first;
  }

  predicate IsNumber(s: string) {
    s != "" && AllDigits(s)
  }

  /** The starts as they are read: one that is no positive number becomes 1. */
  function Plausible(st: Starts): Starts {
    Starts(if IsStart(st.oldStart) then st.oldStart else "1", if IsStart(st.newStart) then st.newStart else "1")
  }

  lemma PlausibleStarts(st: Starts)
    requires IsStart(st.oldStart) && IsStart(st.newStart)
    ensures IsNumber(st.oldStart) && IsNumber(st.newStart) && Plausible(st) == st
  {
    PositiveMeansDigits(0, st.oldStart);
    PositiveMeansDigits(0, st.newStart);
  }

  lemma OneIsAStart()
    ensures IsStart("1")
  {
    assert DigitsFrom(1, "") == 1 && "1"[1..] == "";
  }

  /** A header reads back as its plausible starts, then overridden by whatever its trail declares. */
  lemma StartsOfHeader(st: Starts, oldCount: string, newCount: string, trail: string)
    requires IsNumber(st.oldStart) && IsNumber(st.newStart) && IsCountText(oldCount) && IsCountText(newCount)
    ensures StartsOf(HeaderText(st, oldCount, newCount, trail)) == ReadFields(Plausible(st), TrailFields(trail))
  {
    var a, b := "-" + st.oldStart + oldCount, "+" + st.newStart + newCount;
    var last := "@@" + trail[..FirstWord(trail)];
    var four := ["@@", a, b, last];
    FieldsOfHeader(st, oldCount, newCount, trail);
    ReadFieldsConcat(DEFAULT_STARTS, four, TrailFields(trail));
    FieldOfSide('-', st.oldStart, oldCount);
    FieldOfSide('+', st.newStart, newCount);
    assert four[..3] == ["@@", a, b] && ["@@", a, b][..2] == ["@@", a] && ["@@", a][..1] == ["@@"] && ["@@"][..0] == [];
    assert a == ['-'] + st.oldStart + oldCount && b == ['+'] + st.newStart + newCount;
    assert ReadFields(DEFAULT_STARTS, ["@@"]) == DEFAULT_STARTS;
    assert ReadFields(DEFAULT_STARTS, ["@@", a]) == DEFAULT_STARTS.(oldStart := Plausible(st).oldStart);
    assert ReadFields(DEFAULT_STARTS, ["@@", a, b]) == Plausible(st);
    assert ReadFields(DEFAULT_STARTS, four) == Plausible(st);
  }

  /** A field that declares a start for the side of this sign. */
  predicate IsSide(f: string, sign: char) {
    f != "" && f[0] == sign && IsStart(BeforeComma(f[1..]))
  }

  ghost predicate IsLastSide(fields: seq<string>, sign: char, i: nat) {
    i < |fields| && IsSide(fields[i], sign) && forall j | i < j < |fields| :: !IsSide(fields[j], sign)
  }

  /** The last field that declares a start for this side, if there is one, declares this one. */
  ghost predicate LastRepeats(fields: seq<string>, sign: char, start: string) {
    forall i: nat | IsLastSide(fields, sign, i) :: BeforeComma(fields[i][1..]) == start
  }

  /** Taking the last field off. */
  lemma LastSideOfFront(fields: seq<string>, sign: char, start: string)
    requires fields != []
    ensures var front, f := fields[..|fields| - 1], fields[|fields| - 1];
            LastRepeats(fields, sign, start)
            <==> if IsSide(f, sign) then BeforeComma(f[1..]) == start else LastRepeats(front, sign, start)
  {
    hide IsSide;
    var front, last: nat := fields[..|fields| - 1], |fields| - 1;
    if IsSide(fields[last], sign) {
      assert IsLastSide(fields, sign, last);
    } else {
      forall i: nat ensures IsLastSide(fields, sign, i) <==> IsLastSide(front, sign, i) {
      }
    }
  }

  lemma {:induction false} LastFieldsDecide(st: Starts, fields: seq<string>)
    ensures ReadFields(st, fields).oldStart == st.oldStart <==> LastRepeats(fields, '-', st.oldStart)
    ensures ReadFields(st, fields).newStart == st.newStart <==> LastRepeats(fields, '+', st.newStart)
  {
    hide LastRepeats, BeforeComma, IsStart;
    if fields == [] {
      NoSide('-', st.oldStart);
      NoSide('+', st.newStart);
    } else {
      LastFieldsDecide(st, fields[..|fields| - 1]);
      LastSideOfFront(fields, '-', st.oldStart);
      LastSideOfFront(fields, '+', st.newStart);
    }
  }

  lemma NoSide(sign: char, start: string)
    ensures LastRepeats([], sign, start)
  {
  }

  /**
    A printed header reads back its own starts exactly when both are positive, as a wrapped Go int,
    and the last plausible field of each sign in its trail, where there is one, repeats its start.
   */
  lemma StartsReadBackIff(st: Starts, oldCount: nat, newCount: nat, trail: string)
    requires IsNumber(st.oldStart) && IsNumber(st.newStart)
    ensures StartsOf(Header(st, oldCount, newCount, trail)) == st <==>
            && IsStart(st.oldStart) && IsStart(st.newStart)
            && LastRepeats(TrailFields(trail), '-', st.oldStart) && LastRepeats(TrailFields(trail), '+', st.newStart)
  {
    hide DigitsFrom, IsNumber, HeaderText;
    DecimalIsCountText(oldCount);
    DecimalIsCountText(newCount);
    OneIsAStart();
    StartsOfHeader(st, "," + Decimal(oldCount), "," + Decimal(newCount), trail);
    ReadFieldsKeepsStarts(Plausible(st), TrailFields(trail));
    LastFieldsDecide(st, TrailFields(trail));
  }

  /** A start of 0, as git prints for an empty side, is read as 1, whatever the counts. */
  lemma ZeroStartBecomesOne(oldCount: nat, newCount: nat)
    ensures StartsOf(Header(Starts("0", "1"), oldCount, newCount, "")) == Starts("1", "1")
  {
    hide HeaderText;
    assert "0"[1..] == "" && DigitsFrom(0, "0") == 0;
    assert TrailFields("") == [];
    OneIsAStart();
    PlausibleStarts(Starts("1", "1"));
    DecimalIsCountText(oldCount);
    DecimalIsCountText(newCount);
    StartsOfHeader(Starts("0", "1"), "," + Decimal(oldCount), "," + Decimal(newCount), "");
  }

  /** A field behind the second mark that looks like a side replaces the start the header declared. */
  lemma TrailMayOverrideAStart(oldCount: nat, newCount: nat)
    ensures StartsOf(Header(Starts("1", "1"), oldCount, newCount, " -7")) == Starts("7", "1")
  {
    hide HeaderText;
    OneIsAStart();
    PlausibleStarts(Starts("1", "1"));
    DecimalIsCountText(oldCount);
    DecimalIsCountText(newCount);
    StartsOfHeader(Starts("1", "1"), "," + Decimal(oldCount), "," + Decimal(newCount), " -7");
    OverridingField();
  }

  lemma OverridingField()
    ensures TrailFields(" -7") == ["-7"] && ReadFields(Starts("1", "1"), ["-7"]) == Starts("7", "1")
  {
    var trail, f := " -7", "-7";
    assert trail[1..] == f && FirstWord(trail) == 0;
    OneField("", f);
    assert "" + f == f;
    assert f[1..] == "7" && "7"[1..] == "" && IndexOfComma("7") == -1;
    assert DigitsFrom(0, "7") == DigitsFrom(7, "") == 7;
    var fields := [f];
    assert fields[..0] == [];
  }

  lemma TrailOfHeader(st: Starts, oldCount: string, newCount: string, trail: string)
    requires IsNumber(st.oldStart) && IsNumber(st.newStart) && IsCountText(oldCount) && IsCountText(newCount)
    ensures var h := HeaderText(st, oldCount, newCount, trail); IsHeader(h) && Trail(h) == trail
  {
    hide Trail, IndexOfMark, DigitsFrom, BeforeComma;
    FieldOfSide('-', st.oldStart, oldCount);
    FieldOfSide('+', st.newStart, newCount);
    var a, b := st.oldStart + oldCount, st.newStart + newCount;
    SidesHoldNoMark(a, b);
    HeaderFromSides(st, oldCount, newCount, trail);
    TrailAfterMark("-" + a + " +" + b + " ", trail);
  }

  lemma SidesHoldNoMark(a: string, b: string)
    requires '@' !in a && '@' !in b
    ensures '@' !in "-" + a + " +" + b + " "
  {
  }

  lemma HeaderFromSides(st: Starts, oldCount: string, newCount: string, trail: string)
    ensures HeaderText(st, oldCount, newCount, trail)
         == HUNK + ("-" + (st.oldStart + oldCount) + " +" + (st.newStart + newCount) + " ") + "@@" + trail
  {
  }

  lemma TrailAfterMark(before: string, trail: string)
    requires '@' !in before
    ensures var h := HUNK + before + "@@" + trail; IsHeader(h) && Trail(h) == trail
  {
    var h := HUNK + before + "@@" + trail;
    assert h[3..] == before + "@@" + trail;
    FirstMark(before, trail);
  }

  /** The trail of a header is one whose fields the header has read already. */
  lemma TrailAlreadyRead(header: string)
    requires IsHeader(header)
    ensures ReadFields(StartsOf(header), TrailFields(Trail(header))) == StartsOf(header)
    ensures IsStart(StartsOf(header).oldStart) && IsStart(StartsOf(header).newStart)
  {
    OneIsAStart();
    ReadFieldsKeepsStarts(DEFAULT_STARTS, Fields(header));
    var rest := header[3..];
    var idx := IndexOfMark(rest);
    if idx >= 0 {
      var before, trail := "@@ " + rest[..idx], rest[idx + 2..];
      assert header == before + "@@" + trail by {
        assert header == header[..3] + rest && header[..3] == "@@ ";
        assert rest == rest[..idx] + "@@" + trail;
      }
      FieldsWithTrail(before, trail);
      var first := trail[..FirstWord(trail)];
      var own := FieldsFrom("", before + "@@" + first);
      ReadFieldsConcat(DEFAULT_STARTS, own, TrailFields(trail));
      ReadingTwice(ReadFields(DEFAULT_STARTS, own), TrailFields(trail));
    }
  }

  /** Writing a header anew from what was read of it is stable: the result reads and writes as itself. */
  lemma RewrittenHeaderIsStable(header: string, oldCount: nat, newCount: nat)
    requires IsHeader(header)
    ensures var h := Header(StartsOf(header), oldCount, newCount, Trail(header));
            IsHeader(h) && StartsOf(h) == StartsOf(header) && Trail(h) == Trail(header)
  {
    TrailAlreadyRead(header);
    PlausibleStarts(StartsOf(header));
    DecimalIsCountText(oldCount);
    DecimalIsCountText(newCount);
    StartsOfHeader(StartsOf(header), "," + Decimal(oldCount), "," + Decimal(newCount), Trail(header));
    TrailOfHeader(StartsOf(header), "," + Decimal(oldCount), "," + Decimal(newCount), Trail(header));
  }
}
