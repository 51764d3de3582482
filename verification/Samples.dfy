/**
  Sums and counts over samples that do not depend on the samples' order. The statistics in
  internal/campaign read only such counts, whatever order a sort leaves equal values in.

  A finite float64 is a `real`: rounding is not part of this model.
 */
module Samples {

  datatype Float = Finite(value: real) | NaN | Infinity(positive: bool)

  // ---------- sums ----------

  function Sum<T>(s: seq<T>, f: T -> int): int {
    if s == [] then 0 else Sum(s[..|s| - 1], f) + f(s[|s| - 1])
  }

  lemma SumSnoc<T>(s: seq<T>, x: T, f: T -> int)
    ensures Sum(s + [x], f) == Sum(s, f) + f(x)
  {
    assert (s + [x])[..|s|] == s;
  }

  lemma {:induction false} SumConcat<T>(a: seq<T>, b: seq<T>, f: T -> int)
    ensures Sum(a + b, f) == Sum(a, f) + Sum(b, f)
  {
    if b == [] {
      assert a + b == a;
    } else {
      assert (a + b)[..|a + b| - 1] == a + b[..|b| - 1];
      SumConcat(a, b[..|b| - 1], f);
    }
  }

  lemma {:induction false} SumPointwise<T>(s: seq<T>, f: T -> int, g: T -> int)
    requires forall x | x in s :: f(x) == g(x)
    ensures Sum(s, f) == Sum(s, g)
  {
    if s != [] {
      SumPointwise(s[..|s| - 1], f, g);
    }
  }

  lemma {:induction false} SumMonotone<T>(s: seq<T>, f: T -> int, g: T -> int)
    requires forall x | x in s :: f(x) <= g(x)
    ensures Sum(s, f) <= Sum(s, g)
  {
    if s != [] {
      SumMonotone(s[..|s| - 1], f, g);
    }
  }

  lemma {:induction false} SumConstant<T>(s: seq<T>, f: T -> int, c: int)
    requires forall x | x in s :: f(x) == c
    ensures Sum(s, f) == c * |s|
  {
    if s != [] {
      SumConstant(s[..|s| - 1], f, c);
    }
  }

  function Without<T>(s: seq<T>, j: nat): seq<T>
    requires j < |s|
  {
    s[..j] + s[j + 1..]
  }

  /** Taking one element out of a sequence, wherever it stands. */
  lemma RemoveOne<T>(s: seq<T>, j: nat)
    requires j < |s|
    ensures multiset(s) == multiset(Without(s, j)) + multiset{s[j]}
  {
    assert s == s[..j] + [s[j]] + s[j + 1..];
  }

  lemma {:induction false} SumWithout<T>(s: seq<T>, j: nat, f: T -> int)
    requires j < |s|
    ensures Sum(s, f) == Sum(Without(s, j), f) + f(s[j])
  {
    var front := s[..|s| - 1];
    if j == |s| - 1 {
      assert Without(s, j) == front;
    } else {
      SumWithout(front, j, f);
      assert Without(s, j) == Without(front, j) + [s[|s| - 1]];
      SumSnoc(Without(front, j), s[|s| - 1], f);
    }
  }

  /** Where the last element of `a` stands in a permutation of `a`. */
  lemma FindLast<T>(a: seq<T>, b: seq<T>) returns (j: nat)
    requires a != [] && multiset(a) == multiset(b)
    ensures j < |b| && b[j] == a[|a| - 1]
    ensures multiset(a[..|a| - 1]) == multiset(Without(b, j))
  {
    var y := a[|a| - 1];
    assert a == a[..|a| - 1] + [y];
    assert y in multiset(b);
    j :| 0 <= j < |b| && b[j] == y;
    RemoveOne(b, j);
    assert multiset(a[..|a| - 1]) == multiset(a) - multiset{y};
    assert multiset(Without(b, j)) == multiset(b) - multiset{y};
  }

  lemma {:induction false} SumPermuted<T>(a: seq<T>, b: seq<T>, f: T -> int)
    requires multiset(a) == multiset(b)
    ensures Sum(a, f) == Sum(b, f)
    decreases |a|
  {
    if a == [] {
      assert |multiset(b)| == 0;
    } else {
      var j := FindLast(a, b);
      SumPermuted(a[..|a| - 1], Without(b, j), f);
      SumWithout(b, j, f);
    }
  }

  // ---------- mapping ----------

  function Map<T, U>(s: seq<T>, f: T -> U): (r: seq<U>)
    ensures |r| == |s| && forall i | 0 <= i < |s| :: r[i] == f(s[i])
  {
    seq(|s|, i requires 0 <= i < |s| => f(s[i]))
  }

  lemma {:induction false} MapSum<T, U>(s: seq<T>, g: T -> U, f: U -> int, h: T -> int)
    requires forall x | x in s :: h(x) == f(g(x))
    ensures Sum(Map(s, g), f) == Sum(s, h)
  {
    if s != [] {
      assert Map(s, g)[..|s| - 1] == Map(s[..|s| - 1], g);
      MapSum(s[..|s| - 1], g, f, h);
    }
  }

  lemma {:induction false} MapPermuted<T, U>(a: seq<T>, b: seq<T>, f: T -> U)
    requires multiset(a) == multiset(b)
    ensures multiset(Map(a, f)) == multiset(Map(b, f))
    decreases |a|
  {
    if a == [] {
      assert |multiset(b)| == 0;
    } else {
      var j := FindLast(a, b);
      MapPermuted(a[..|a| - 1], Without(b, j), f);
      assert Map(a, f) == Map(a[..|a| - 1], f) + [f(a[|a| - 1])];
      RemoveOne(Map(b, f), j);
      assert Without(Map(b, f), j) == Map(Without(b, j), f);
    }
  }

  // ---------- counts ----------

  function LessThan(x: real): real -> int {
    y => if y < x then 1 else 0
  }

  function EqualTo<T(==)>(x: T): T -> int {
    y => if y == x then 1 else 0
  }

  function GreaterThan(x: real): real -> int {
    y => if y > x then 1 else 0
  }

  /** How many samples are smaller than, equal to and greater than `x`. */
  function Less(v: seq<real>, x: real): int {
    Sum(v, LessThan(x))
  }

  function Equal<T(==)>(v: seq<T>, x: T): int {
    Sum(v, EqualTo(x))
  }

  function Greater(v: seq<real>, x: real): int {
    Sum(v, GreaterThan(x))
  }

  lemma {:induction false} CountsAddUp(v: seq<real>, x: real)
    ensures Less(v, x) + Equal(v, x) + Greater(v, x) == |v|
    ensures Less(v, x) >= 0 && Equal(v, x) >= 0 && Greater(v, x) >= 0
  {
    if v != [] {
      CountsAddUp(v[..|v| - 1], x);
    }
  }

  lemma {:induction false} LessGrows(v: seq<real>, x: real, y: real)
    requires x < y
    ensures Less(v, x) + Equal(v, x) <= Less(v, y)
  {
    if v != [] {
      LessGrows(v[..|v| - 1], x, y);
    }
  }

  lemma {:induction false} EqualCount<T>(v: seq<T>, x: T)
    ensures 0 <= Equal(v, x) <= |v|
    ensures Equal(v, x) == multiset(v)[x]
    ensures x in v <==> Equal(v, x) > 0
  {
    if v != [] {
      EqualCount(v[..|v| - 1], x);
      assert v == v[..|v| - 1] + [v[|v| - 1]];
    }
  }

  // ---------- ties ----------

  predicate HasTies<T(==)>(v: seq<T>) {
    exists i, j | 0 <= i < j < |v| :: v[i] == v[j]
  }

  lemma TiedSample<T>(v: seq<T>) returns (i: nat)
    requires HasTies(v)
    ensures i < |v| && Equal(v, v[i]) >= 2
  {
    var a, b :| 0 <= a < b < |v| && v[a] == v[b];
    SumWithout(v, a, EqualTo(v[a]));
    assert Without(v, a)[b - 1] == v[b];
    EqualCount(Without(v, a), v[a]);
    i := a;
  }

  lemma {:induction false} TiesAreMultiplicities<T>(v: seq<T>)
    ensures HasTies(v) <==> exists x | x in v :: Equal(v, x) >= 2
  {
    if HasTies(v) {
      var i := TiedSample(v);
      assert v[i] in v;
    }
    if x :| x in v && Equal(v, x) >= 2 {
      var i :| 0 <= i < |v| && v[i] == x;
      SumWithout(v, i, EqualTo(x));
      EqualCount(Without(v, i), x);
      var j :| 0 <= j < |Without(v, i)| && Without(v, i)[j] == x;
      if j < i {
        assert v[j] == v[i] && 0 <= j < i < |v|;
      } else {
        assert v[i] == v[j + 1] && 0 <= i < j + 1 < |v|;
      }
    }
  }

  lemma TiesPermuted<T>(a: seq<T>, b: seq<T>)
    requires multiset(a) == multiset(b)
    ensures HasTies(a) <==> HasTies(b)
  {
    TiesAreMultiplicities(a);
    TiesAreMultiplicities(b);
    forall x ensures Equal(a, x) == Equal(b, x) && (x in a <==> x in b) {
      SumPermuted(a, b, EqualTo(x));
      assert x in multiset(a) <==> x in multiset(b);
    }
  }

  // ---------- sorted samples ----------

  ghost predicate IsSorted(v: seq<real>) {
    forall i, j | 0 <= i < j < |v| :: v[i] <= v[j]
  }

  function Inserted<T>(s: seq<T>, p: nat, x: T): (r: seq<T>)
    requires p <= |s|
    ensures |r| == |s| + 1
    ensures forall k | 0 <= k <= |s| :: r[k] == if k < p then s[k] else if k == p then x else s[k - 1]
    ensures multiset(r) == multiset(s) + multiset{x}
  {
    assert s == s[..p] + s[p..];
    s[..p] + [x] + s[p..]
  }

  lemma InsertSorted(a: seq<real>, p: nat, x: real)
    requires IsSorted(a) && p <= |a|
    requires p > 0 ==> a[p - 1] <= x
    requires forall k | p <= k < |a| :: a[k] > x
    ensures IsSorted(Inserted(a, p, x))
  {
    forall k | 0 <= k < p ensures a[k] <= x {
      assert a[k] <= a[p - 1];
    }
  }
}
