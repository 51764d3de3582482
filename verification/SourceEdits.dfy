/**
  applyEdits (internal/campaign/multi_function_source.go): byte-range replacements computed against
  the original file, applied back to front. For disjoint edits that is the simultaneous
  substitution of all of them.
 */
module SourceEdits {
  import opened Samples
  import Text

  /** A replacement of the bytes from `start` up to `end`; an insertion when they are equal. */
  datatype SourceEdit = SourceEdit(start: nat, end: nat, text: string)

  ghost predicate InRange(e: SourceEdit, n: nat) {
    e.start <= e.end <= n
  }

  ghost predicate Apart(a: SourceEdit, b: SourceEdit) {
    a.start != b.start && (a.end <= b.start || b.end <= a.start)
  }

  ghost predicate AreDisjointEdits(edits: seq<SourceEdit>, n: nat) {
    && (forall e | e in edits :: InRange(e, n))
    && !HasTies(edits)
    && (forall a, b | a in edits && b in edits && a != b :: Apart(a, b))
  }

  // ---------- simultaneous substitution ----------

  /** What an edit that starts at `p` writes there. */
  ghost function WrittenAt(edits: set<SourceEdit>, p: nat): string {
    if e :| e in edits && e.start == p then e.text else ""
  }

  ghost predicate IsCut(edits: set<SourceEdit>, p: nat) {
    exists e :: e in edits && e.start <= p < e.end
  }

  /** The original from `p` on, every byte kept unless some edit cuts it, every text at its edit's start. */
  ghost function Substituted(original: string, edits: set<SourceEdit>, p: nat): string
    requires p <= |original|
    decreases |original| - p
  {
    WrittenAt(edits, p)
    + if p == |original| then ""
      else (if IsCut(edits, p) then "" else [original[p]]) + Substituted(original, edits, p + 1)
  }

  function Members(edits: seq<SourceEdit>): set<SourceEdit> {
    set e | e in edits
  }

  function NetGrowth(e: SourceEdit): int {
    |e.text| - (e.end as int - e.start as int)
  }

  // ---------- back to front ----------

  function Splice(buf: string, e: SourceEdit): string
    requires e.start <= |buf| && e.end <= |buf|
  {
    buf[..e.start] + e.text + buf[e.end..]
  }

  /** The edits applied one after the other; the program stops at one that is out of range. */
  function BackToFront(original: string, sorted: seq<SourceEdit>): string {
    if sorted == [] then original
    else
      var buf, e := BackToFront(original, sorted[..|sorted| - 1]), sorted[|sorted| - 1];
      if e.start <= |buf| && e.end <= |buf| then Splice(buf, e) else buf
  }

  ghost predicate IsSortOf(sorted: seq<SourceEdit>, edits: seq<SourceEdit>) {
    Descending(sorted) && multiset(sorted) == multiset(edits)
  }

  ghost predicate Descending(edits: seq<SourceEdit>) {
    forall i, j | 0 <= i < j < |edits| :: edits[i].start >= edits[j].start
  }

  /** Stands for slices.SortFunc by descending start. */
  method SortByStart(edits: seq<SourceEdit>) returns (sorted: seq<SourceEdit>)
    ensures IsSortOf(sorted, edits)
  {
    hide IsSortOf;
    sorted := [];
    NothingSorted();
    for n := 0 to |edits|
      invariant |sorted| == n && IsSortOf(sorted, edits[..n])
    {
      var p := n;
      while p > 0 && sorted[p - 1].start < edits[n].start
        invariant 0 <= p <= n
        invariant forall k | p <= k < n :: sorted[k].start < edits[n].start
      {
        p := p - 1;
      }
      assert edits[..n + 1] == edits[..n] + [edits[n]];
      InsertedSorts(sorted, edits[..n], p, edits[n]);
      sorted := Inserted(sorted, p, edits[n]);
    }
    assert edits[..|edits|] == edits;
  }

  lemma NothingSorted()
    ensures IsSortOf([], [])
  {
  }

  lemma InsertedSorts(sorted: seq<SourceEdit>, edits: seq<SourceEdit>, p: nat, e: SourceEdit)
    requires IsSortOf(sorted, edits) && p <= |sorted|
    requires p > 0 ==> sorted[p - 1].start >= e.start
    requires forall k | p <= k < |sorted| :: sorted[k].start < e.start
    ensures IsSortOf(Inserted(sorted, p, e), edits + [e])
  {
    hide Descending;
    InsertDescending(sorted, p, e);
  }

  lemma InsertDescending(a: seq<SourceEdit>, p: nat, e: SourceEdit)
    requires Descending(a) && p <= |a|
    requires p > 0 ==> a[p - 1].start >= e.start
    requires forall k | p <= k < |a| :: a[k].start < e.start
    ensures Descending(Inserted(a, p, e))
  {
    var r := Inserted(a, p, e);
    assert forall k | 0 <= k < p :: a[k].start >= a[p - 1].start;
    forall i, j | 0 <= i < j < |r| ensures r[i].start >= r[j].start {
      if i != p && j != p {
        assert a[if i < p then i else i - 1].start >= a[if j < p then j else j - 1].start;
      }
    }
  }

  lemma SortingKeepsDisjoint(edits: seq<SourceEdit>, sorted: seq<SourceEdit>, n: nat)
    requires AreDisjointEdits(edits, n) && multiset(sorted) == multiset(edits)
    ensures AreDisjointEdits(sorted, n) && Members(sorted) == Members(edits)
  {
    forall e ensures e in sorted <==> e in edits {
      assert e in multiset(sorted) <==> e in multiset(edits);
    }
    TiesPermuted(sorted, edits);
  }

  lemma At(original: string, edits: set<SourceEdit>, p: nat)
    requires p < |original|
    ensures Substituted(original, edits, p)
         == WrittenAt(edits, p) + ((if IsCut(edits, p) then "" else [original[p]])
           + Substituted(original, edits, p + 1))
  {
  }

  /** Where no edit starts or cuts, the original shows through. */
  lemma {:induction false} ShowsThrough(original: string, edits: set<SourceEdit>, p: nat, q: nat)
    requires p <= q <= |original| && forall e | e in edits :: e.start >= q
    ensures Substituted(original, edits, p) == original[p..q] + Substituted(original, edits, q)
    decreases q - p
  {
    hide Substituted;
    if p < q {
      ShowsThrough(original, edits, p + 1, q);
      At(original, edits, p);
      assert WrittenAt(edits, p) == "" && !IsCut(edits, p);
      var rest := Substituted(original, edits, q);
      assert original[p..q] == [original[p]] + original[p + 1..q];
      Text.Associative([original[p]], original[p + 1..q], rest);
      assert "" + ([original[p]] + Substituted(original, edits, p + 1))
        == [original[p]] + Substituted(original, edits, p + 1);
    } else {
      assert original[p..q] == "";
    }
  }

  lemma SameWriter(edits: set<SourceEdit>, e: SourceEdit, p: nat)
    requires e.start != p && forall a, b | a in edits && b in edits && a != b :: a.start != b.start
    ensures WrittenAt(edits + {e}, p) == WrittenAt(edits, p)
  {
    if a :| a in edits && a.start == p {
      assert a in edits + {e};
    }
  }

  /** From its end on, an edit has no more say. */
  lemma {:induction false} PastTheEdit(original: string, edits: set<SourceEdit>, e: SourceEdit, p: nat)
    requires e.end <= p <= |original| && e.start < p
    requires forall a, b | a in edits && b in edits && a != b :: a.start != b.start
    ensures Substituted(original, edits + {e}, p) == Substituted(original, edits, p)
    decreases |original| - p
  {
    hide WrittenAt, IsCut;
    SameWriter(edits, e, p);
    SameCut(edits, e, p);
    if p < |original| {
      PastTheEdit(original, edits, e, p + 1);
      At(original, edits, p);
      At(original, edits + {e}, p);
    }
  }

  lemma SameCut(edits: set<SourceEdit>, e: SourceEdit, p: nat)
    requires e.end <= p
    ensures IsCut(edits + {e}, p) <==> IsCut(edits, p)
  {
    if a :| a in edits && a.start <= p < a.end {
      assert a in edits + {e};
    }
  }

  /** Inside the bytes an edit cuts, nothing is written. */
  lemma {:induction false} InsideTheEdit(original: string, edits: set<SourceEdit>, e: SourceEdit, p: nat)
    requires e.start < p <= e.end <= |original| && forall a | a in edits :: a.start >= e.end
    requires forall a, b | a in edits && b in edits && a != b :: a.start != b.start
    ensures Substituted(original, edits + {e}, p) == Substituted(original, edits, e.end)
    decreases e.end - p
  {
    hide Substituted;
    if p == e.end {
      PastTheEdit(original, edits, e, p);
    } else {
      var all := edits + {e};
      SameWriter(edits, e, p);
      assert WrittenAt(edits, p) == "";
      assert e in all && IsCut(all, p);
      InsideTheEdit(original, edits, e, p + 1);
      At(original, all, p);
      assert "" + ("" + Substituted(original, all, p + 1)) == Substituted(original, all, p + 1);
    }
  }

  ghost predicate InFront(edits: set<SourceEdit>, e: SourceEdit, n: nat) {
    && InRange(e, n)
    && (forall a | a in edits :: a.start >= e.end && a.start > e.start)
    && (forall a, b | a in edits && b in edits && a != b :: a.start != b.start)
  }

  lemma FrontWriter(edits: set<SourceEdit>, e: SourceEdit, n: nat)
    requires InFront(edits, e, n)
    ensures WrittenAt(edits + {e}, e.start) == e.text && WrittenAt(edits, e.start) == ""
  {
    assert e in edits + {e};
  }

  /** An edit in front of all others writes its text and skips what it cuts. */
  lemma FrontEdit(original: string, edits: set<SourceEdit>, e: SourceEdit)
    requires InFront(edits, e, |original|)
    ensures Substituted(original, edits + {e}, e.start) == e.text + Substituted(original, edits, e.end)
  {
    hide Substituted, WrittenAt;
    var all := edits + {e};
    FrontWriter(edits, e, |original|);
    if e.start < e.end {
      assert e in all && IsCut(all, e.start);
      InsideTheEdit(original, edits, e, e.start + 1);
      At(original, all, e.start);
      assert "" + Substituted(original, edits, e.end) == Substituted(original, edits, e.end);
    } else if e.start < |original| {
      SameCut(edits, e, e.start);
      PastTheEdit(original, edits, e, e.start + 1);
      At(original, all, e.start);
      At(original, edits, e.start);
      var rest := (if IsCut(edits, e.start) then "" else [original[e.start]])
        + Substituted(original, edits, e.start + 1);
      assert "" + rest == rest;
    } else {
      AtEnd(original, all);
      AtEnd(original, edits);
    }
  }

  lemma AtEnd(original: string, edits: set<SourceEdit>)
    ensures Substituted(original, edits, |original|) == WrittenAt(edits, |original|)
  {
  }

  /** One step of the loop: the edit with the next smaller start goes in front of those applied. */
  lemma SpliceStep(original: string, applied: set<SourceEdit>, e: SourceEdit, bound: nat, buf: string)
    requires bound <= |original| && buf == original[..bound] + Substituted(original, applied, bound)
    requires InFront(applied, e, |original|) && e.start <= bound && e.end <= bound
    requires forall a | a in applied :: a.start >= bound
    ensures Splice(buf, e) == original[..e.start] + Substituted(original, applied + {e}, e.start)
    ensures |Splice(buf, e)| == |buf| + NetGrowth(e)
  {
    hide Substituted;
    FrontEdit(original, applied, e);
    ShowsThrough(original, applied, e.end, bound);
    CutPieces(original, e, bound, buf, Substituted(original, applied, bound));
    Text.Associative(original[..e.start], e.text, Substituted(original, applied, e.end));
  }

  lemma CutPieces(original: string, e: SourceEdit, bound: nat, buf: string, tail: string)
    requires bound <= |original| && buf == original[..bound] + tail && e.start <= bound && e.end <= bound
    ensures buf[..e.start] == original[..e.start] && buf[e.end..] == original[e.end..bound] + tail
  {
  }

  /** The buffer once the first `i` edits are applied, the last of them at `bound`. */
  ghost predicate AppliedSoFar(original: string, sorted: seq<SourceEdit>, i: nat, bound: nat, buf: string)
    requires i <= |sorted|
  {
    && bound <= |original| && (forall k | 0 <= k < i :: sorted[k].start >= bound)
    && (i < |sorted| ==> sorted[i].start <= bound && sorted[i].end <= bound)
    && buf == original[..bound] + Substituted(original, Members(sorted[..i]), bound)
    && |buf| == |original| + Sum(sorted[..i], NetGrowth)
  }

  lemma ApplyNone(original: string, sorted: seq<SourceEdit>)
    requires AreDisjointEdits(sorted, |original|)
    ensures AppliedSoFar(original, sorted, 0, |original|, original)
  {
    assert Members(sorted[..0]) == {};
    assert sorted != [] ==> sorted[0] in sorted;
  }

  lemma ApplyNext(original: string, sorted: seq<SourceEdit>, i: nat, bound: nat, buf: string)
    requires Descending(sorted) && AreDisjointEdits(sorted, |original|) && i < |sorted|
    requires AppliedSoFar(original, sorted, i, bound, buf)
    ensures sorted[i].start <= |buf| && sorted[i].end <= |buf|
    ensures AppliedSoFar(original, sorted, i + 1, sorted[i].start, Splice(buf, sorted[i]))
  {
    hide Substituted, Members, Splice, Sum;
    NextEdit(sorted, i, |original|, bound);
    SpliceStep(original, Members(sorted[..i]), sorted[i], bound, buf);
    SumSnoc(sorted[..i], sorted[i], NetGrowth);
  }

  lemma ApplyAll(original: string, sorted: seq<SourceEdit>, bound: nat, buf: string)
    requires AppliedSoFar(original, sorted, |sorted|, bound, buf)
    ensures buf == Substituted(original, Members(sorted), 0) && |buf| == |original| + Sum(sorted, NetGrowth)
  {
    hide Substituted;
    assert sorted[..|sorted|] == sorted;
    ShowsThrough(original, Members(sorted), 0, bound);
    assert original[0..bound] == original[..bound];
  }

  /**
    For pairwise disjoint in-range edits with distinct starts, in whatever order the list holds
    them, the result is their simultaneous substitution.
   */
  method ApplyEdits(original: string, edits: seq<SourceEdit>) returns (buf: string)
    requires AreDisjointEdits(edits, |original|)
    ensures buf == Substituted(original, Members(edits), 0)
    ensures |buf| == |original| + Sum(edits, NetGrowth)
    ensures exists sorted :: IsSortOf(sorted, edits) && buf == BackToFront(original, sorted)
  {
    hide Substituted, AppliedSoFar, BackToFront, Splice;
    var sorted := SortByStart(edits);
    SortingKeepsDisjoint(edits, sorted, |original|);
    SumPermuted(sorted, edits, NetGrowth);
    buf := original;
    ghost var bound: nat := |original|;
    ApplyNone(original, sorted);
    AppliedNext(original, sorted, 0);
    for i := 0 to |sorted|
      invariant AppliedSoFar(original, sorted, i, bound, buf) && buf == BackToFront(original, sorted[..i])
    {
      var e := sorted[i];
      ApplyNext(original, sorted, i, bound, buf);
      AppliedNext(original, sorted, i);
      bound := e.start;
      var next := buf[..e.start];
      next := next + e.text;
      next := next + buf[e.end..];
      SplicePieces(buf, e, next);
      buf := next;
    }
    assert sorted[..|sorted|] == sorted;
    ApplyAll(original, sorted, bound, buf);
  }

  lemma NextEdit(sorted: seq<SourceEdit>, i: nat, n: nat, bound: nat)
    requires Descending(sorted) && AreDisjointEdits(sorted, n) && i < |sorted|
    requires forall k | 0 <= k < i :: sorted[k].start >= bound
    ensures sorted[..i + 1] == sorted[..i] + [sorted[i]]
            && Members(sorted[..i + 1]) == Members(sorted[..i]) + {sorted[i]}
    ensures InFront(Members(sorted[..i]), sorted[i], n)
    ensures forall a | a in Members(sorted[..i]) :: a.start >= bound
    ensures i + 1 < |sorted| ==> sorted[i + 1].start <= sorted[i].start && sorted[i + 1].end <= sorted[i].start
  {
    forall a | a in sorted[..i] ensures a.start > sorted[i].start && a.start >= sorted[i].end {
      var k :| 0 <= k < i && sorted[k] == a;
      TwoOfThem(sorted, k, i, n);
    }
    forall a, b | a in sorted[..i] && b in sorted[..i] && a != b ensures a.start != b.start {
      assert a in sorted && b in sorted;
      assert Apart(a, b);
    }
    assert sorted[i] in sorted;
    if i + 1 < |sorted| {
      TwoOfThem(sorted, i, i + 1, n);
    }
  }

  lemma TwoOfThem(sorted: seq<SourceEdit>, i: nat, j: nat, n: nat)
    requires AreDisjointEdits(sorted, n) && Descending(sorted) && i < j < |sorted|
    ensures sorted[j].start < sorted[i].start && sorted[j].end <= sorted[i].start
  {
    assert sorted[i] in sorted && sorted[j] in sorted && sorted[i] != sorted[j];
    assert Apart(sorted[i], sorted[j]) && sorted[i].start >= sorted[j].start;
  }

  lemma SplicePieces(buf: string, e: SourceEdit, next: string)
    requires e.start <= |buf| && e.end <= |buf| && next == buf[..e.start] + e.text + buf[e.end..]
    ensures next == Splice(buf, e)
  {
  }

  lemma AppliedNext(original: string, sorted: seq<SourceEdit>, i: nat)
    requires i <= |sorted|
    ensures sorted[..0] == [] && BackToFront(original, []) == original
    ensures i < |sorted| ==>
              var buf, e := BackToFront(original, sorted[..i]), sorted[i];
              e.start <= |buf| && e.end <= |buf| ==> BackToFront(original, sorted[..i + 1]) == Splice(buf, e)
  {
    if i < |sorted| {
      assert sorted[..i + 1][..i] == sorted[..i];
    }
  }

  // ---------- equal starts ----------

  /**
    Two insertions at one place. A sort by start may leave them in either order, and the results
    agree exactly when the two texts commute.
   */
  lemma EqualStartsDependOnOrder(original: string, p: nat, x: string, y: string)
    requires p <= |original|
    ensures var a, b := SourceEdit(p, p, x), SourceEdit(p, p, y);
            && IsSortOf([a, b], [a, b]) && IsSortOf([b, a], [a, b])
            && (BackToFront(original, [a, b]) == BackToFront(original, [b, a]) <==> x + y == y + x)
  {
    hide BackToFront;
    var a, b := SourceEdit(p, p, x), SourceEdit(p, p, y);
    AppliedTwice(original, p, x, y);
    AppliedTwice(original, p, y, x);
    SameMiddle(original[..p], y + x, x + y, original[p..]);
    BothOrders(a, b);
  }

  /** "a" and "b" inserted at one place come out in two ways. */
  lemma InsertionsMayDisagree(original: string, p: nat)
    requires p <= |original|
    ensures var a, b := SourceEdit(p, p, "a"), SourceEdit(p, p, "b");
            BackToFront(original, [a, b]) != BackToFront(original, [b, a])
  {
    EqualStartsDependOnOrder(original, p, "a", "b");
    assert ("a" + "b")[0] == 'a' && ("b" + "a")[0] == 'b';
  }

  lemma BothOrders(a: SourceEdit, b: SourceEdit)
    requires a.start == b.start
    ensures IsSortOf([a, b], [a, b]) && IsSortOf([b, a], [a, b])
  {
  }

  lemma SameMiddle(front: string, u: string, v: string, back: string)
    requires |u| == |v|
    ensures front + u + back == front + v + back <==> u == v
  {
    assert (front + u + back)[|front|..|front| + |u|] == u;
    assert (front + v + back)[|front|..|front| + |v|] == v;
  }

  lemma AppliedTwice(original: string, p: nat, x: string, y: string)
    requires p <= |original|
    ensures BackToFront(original, [SourceEdit(p, p, x), SourceEdit(p, p, y)]) == original[..p] + (y + x) + original[p..]
  {
    hide BackToFront, Splice;
    InsertedTwice(original, p, x, y);
    TwoEdits(original, SourceEdit(p, p, x), SourceEdit(p, p, y));
  }

  lemma TwoEdits(original: string, a: SourceEdit, b: SourceEdit)
    requires a.start <= |original| && a.end <= |original|
    requires b.start <= |Splice(original, a)| && b.end <= |Splice(original, a)|
    ensures BackToFront(original, [a, b]) == Splice(Splice(original, a), b)
  {
    hide Splice;
    var both := [a, b];
    var first := both[..1];
    assert first == [a] && first[..0] == [];
    assert BackToFront(original, first[..0]) == original;
    assert BackToFront(original, first) == Splice(original, a);
  }

  lemma InsertedTwice(original: string, p: nat, x: string, y: string)
    requires p <= |original|
    ensures var once := Splice(original, SourceEdit(p, p, x));
            p <= |once| && Splice(once, SourceEdit(p, p, y)) == original[..p] + (y + x) + original[p..]
  {
    var once := Splice(original, SourceEdit(p, p, x));
    assert once[..p] == original[..p] && once[p..] == x + original[p..];
  }
}
