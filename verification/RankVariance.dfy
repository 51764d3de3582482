/**
  What the formulas of the signed-rank test stand for (internal/campaign/paired.go): the
  tie-corrected variance is the variance of the rank sum when every difference is given a random
  sign, and each branch of the test reads nothing but the rank sums of the two signs.
 */
module RankVariance {
  import opened Samples
  import opened RankSumDistribution
  import opened SignedRankTest

  // ---------- the sum of the squared ranks ----------

  /** The square of twice the rank. */
  function SquareOf(v: seq<real>): real -> int {
    y => TwiceRank(v, y) * TwiceRank(v, y)
  }

  function EqualSquare(v: seq<real>): real -> int {
    y => Equal(v, y) * Equal(v, y) - 1
  }

  function Both(v: seq<real>): real -> int {
    y => 3 * (TwiceRank(v, y) * TwiceRank(v, y)) + (Equal(v, y) * Equal(v, y) - 1)
  }

  lemma {:induction false} LargestSample(v: seq<real>) returns (j: nat)
    requires v != []
    ensures j < |v| && forall y | y in v :: y <= v[j]
  {
    j := |v| - 1;
    assert v == v[..j] + [v[j]];
    if |v| > 1 {
      var k := LargestSample(v[..|v| - 1]);
      if v[k] > v[j] {
        j := k;
      }
    }
  }

  /** Taking the largest sample out changes the ranks of its equals alone. */
  lemma CountsWithoutLargest(v: seq<real>, j: nat, y: real)
    requires j < |v| && y <= v[j]
    ensures Less(v, y) == Less(Without(v, j), y)
    ensures Equal(v, y) == Equal(Without(v, j), y) + if y == v[j] then 1 else 0
  {
    SumWithout(v, j, LessThan(y));
    SumWithout(v, j, EqualTo(y));
  }

  lemma {:induction false} NothingGreater(v: seq<real>, m: real)
    requires forall y | y in v :: y <= m
    ensures Less(v, m) + Equal(v, m) == |v|
  {
    if v != [] {
      var front := v[..|v| - 1];
      assert v[|v| - 1] in v;
      forall y | y in front ensures y <= m {
        assert y in v;
      }
      NothingGreater(front, m);
    }
  }

  lemma {:induction false} SumDiffersAt(s: seq<real>, m: real, f: real -> int, g: real -> int, c: int)
    requires forall y | y in s :: f(y) == g(y) + if y == m then c else 0
    ensures Sum(s, f) == Sum(s, g) + c * Equal(s, m)
  {
    if s != [] {
      var front, x := s[..|s| - 1], s[|s| - 1];
      forall y | y in front ensures f(y) == g(y) + if y == m then c else 0 {
        assert y in s;
      }
      SumDiffersAt(front, m, f, g, c);
      assert x in s && f(x) == g(x) + if x == m then c else 0;
      assert Equal(s, m) == Equal(front, m) + if x == m then 1 else 0;
      assert c * (Equal(front, m) + 1) == c * Equal(front, m) + c;
    }
  }

  /** One of `t` largest samples, `l` being smaller: what its own term is, and what it adds to its equals'. */
  lemma LargestAdds(l: int, t: int)
    ensures var r, was := 2 * l + t + 1, 2 * l + t;
            var own, before := 3 * (r * r) + (t * t - 1), 3 * (was * was) + ((t - 1) * (t - 1) - 1);
            (own - before) * (t - 1) + own == 12 * ((l + t) * (l + t))
  {
    var a := 2 * l + t;
    assert (a + 1) * (a + 1) == a * a + 2 * a + 1;
    assert (t - 1) * (t - 1) == t * t - 2 * t + 1;
    assert a * a == 4 * (l * l) + 4 * (l * t) + t * t;
    assert (12 * l + 8 * t + 2) * (t - 1) == 12 * (l * t) - 12 * l + 8 * (t * t) - 6 * t - 2;
    assert (l + t) * (l + t) == l * l + 2 * (l * t) + t * t;
  }

  lemma CubesGrow(n: int)
    ensures 2 * (n * (n + 1) * (2 * n + 1)) == 2 * ((n - 1) * n * (2 * n - 1)) + 12 * (n * n)
  {
    assert n * (n + 1) == n * n + n && (n - 1) * n == n * n - n;
    assert (n * n + n) * (2 * n + 1) == 2 * (n * n * n) + 3 * (n * n) + n;
    assert (n * n - n) * (2 * n - 1) == 2 * (n * n * n) - 3 * (n * n) + n;
  }

  lemma TermWithoutLargest(v: seq<real>, j: nat, y: real)
    requires j < |v| && y < v[j]
    ensures Both(v)(y) == Both(Without(v, j))(y)
  {
    hide Less, Equal;
    CountsWithoutLargest(v, j, y);
  }

  lemma LargestTerm(v: seq<real>, j: nat)
    requires j < |v| && forall y | y in v :: y <= v[j]
    ensures var own, before := Both(v)(v[j]), Both(Without(v, j))(v[j]);
            (own - before) * Equal(Without(v, j), v[j]) + own == 12 * (|v| * |v|)
  {
    hide Less, Equal;
    var m := v[j];
    NothingGreater(v, m);
    CountsWithoutLargest(v, j, m);
    LargestAdds(Less(v, m), Equal(v, m));
  }

  lemma {:induction false} SquaresAndTies(v: seq<real>)
    ensures Sum(v, Both(v)) == 2 * (|v| * (|v| + 1) * (2 * |v| + 1))
    decreases |v|
  {
    hide Both, Equal, Without, Sum;
    if v == [] {
      NothingSums(v);
    } else {
      var j := LargestSample(v);
      var m, rest := v[j], WithoutOne(v, j);
      SquaresAndTies(rest);
      LargestTerm(v, j);
      var c := Both(v)(m) - Both(rest)(m);
      forall y | y in rest ensures Both(v)(y) == Both(rest)(y) + if y == m then c else 0 {
        assert y in v;
        if y != m {
          TermWithoutLargest(v, j, y);
        }
      }
      SumDiffersAt(rest, m, Both(v), Both(rest), c);
      SumWithout(v, j, Both(v));
      TermsAdd(|v|, Sum(rest, Both(rest)), c * Equal(rest, m), Both(v)(m));
    }
  }

  lemma NothingSums(v: seq<real>)
    ensures Sum([], Both(v)) == 0
  {
  }

  lemma TermsAdd(n: int, rest: int, equals: int, own: int)
    requires rest == 2 * ((n - 1) * n * (2 * (n - 1) + 1)) && equals + own == 12 * (n * n)
    ensures rest + equals + own == 2 * (n * (n + 1) * (2 * n + 1))
  {
    CubesGrow(n);
    assert 2 * (n - 1) + 1 == 2 * n - 1;
  }

  function WithoutOne(v: seq<real>, j: nat): (rest: seq<real>)
    requires j < |v|
    ensures rest == Without(v, j) && |rest| == |v| - 1 && forall y | y in rest :: y in v
  {
    Without(v, j)
  }

  lemma {:induction false} SumsAdd(s: seq<real>, f: real -> int, g: real -> int, h: real -> int)
    requires forall y | y in s :: h(y) == 3 * f(y) + g(y)
    ensures Sum(s, h) == 3 * Sum(s, f) + Sum(s, g)
  {
    if s != [] {
      var front, x := s[..|s| - 1], s[|s| - 1];
      forall y | y in front ensures h(y) == 3 * f(y) + g(y) {
        assert y in s;
      }
      SumsAdd(front, f, g, h);
      assert x in s && h(x) == 3 * f(x) + g(x);
    }
  }

  /** Equal ranks are those of equal samples, so the tie correction reads the samples' own groups. */
  lemma TiesOfRanks(v: seq<real>)
    ensures TieSum(Map(v, Ranker(v))) == Sum(v, EqualSquare(v))
  {
    var ranks := Map(v, Ranker(v));
    forall y | y in v ensures EqualSquare(v)(y) == TieShare(ranks)(Ranker(v)(y)) {
      RankCount(v, v, y);
    }
    MapSum(v, Ranker(v), TieShare(ranks), EqualSquare(v));
  }

  lemma {:induction false} RankCount(u: seq<real>, v: seq<real>, y: real)
    requires y in v && forall x | x in u :: x in v
    ensures Equal(Map(u, Ranker(v)), TwiceRank(v, y)) == Equal(u, y)
    decreases |u|
  {
    if u != [] {
      var front, x := u[..|u| - 1], u[|u| - 1];
      RankCount(front, v, y);
      assert Map(u, Ranker(v))[..|u| - 1] == Map(front, Ranker(v));
      assert x in u;
      if x < y {
        RankOrder(v, x, y);
      } else if y < x {
        RankOrder(v, y, x);
      }
    }
  }

  /** Ties or not: the corrected variance is a quarter of the sum of the squared ranks. */
  lemma VarianceIsSumOfSquares(v: seq<real>)
    ensures Variance(|v|, TieSum(Map(v, Ranker(v)))) == Sum(v, SquareOf(v)) as real / 16.0
  {
    hide TwiceRank, Equal, Sum, TieSum, Map;
    var n := |v|;
    TiesOfRanks(v);
    SquaresAndTies(v);
    SumsAdd(v, SquareOf(v), EqualSquare(v), Both(v));
    Quarter(n * (n + 1) * (2 * n + 1), Sum(v, EqualSquare(v)), Sum(v, SquareOf(v)));
  }

  lemma Quarter(full: int, ties: int, squares: int)
    requires 2 * full == 3 * squares + ties
    ensures full as real / 24.0 - ties as real / 48.0 == squares as real / 16.0
  {
    assert full as real / 24.0 - ties as real / 48.0 == (2 * full - ties) as real / 48.0;
  }

  // ---------- random signs ----------

  /** Over all ways to give these numbers signs, the squares of their sums with `start`, added up. */
  function Spread(numbers: seq<int>, start: int): int {
    if numbers == [] then start * start
    else
      var last, rest := numbers[|numbers| - 1], numbers[..|numbers| - 1];
      Spread(rest, start + last) + Spread(rest, start - last)
  }

  function Squared(): int -> int {
    x => x * x
  }

  lemma {:induction false} SpreadIsSquares(numbers: seq<int>, start: int)
    ensures Spread(numbers, start) == Pow2(|numbers|) * (start * start + Sum(numbers, Squared()))
    decreases |numbers|
  {
    hide Pow2, Sum;
    if numbers == [] {
      NothingSpread(start);
    } else {
      var last, rest := numbers[|numbers| - 1], numbers[..|numbers| - 1];
      SpreadIsSquares(rest, start + last);
      SpreadIsSquares(rest, start - last);
      OneMoreNumber(numbers);
      SquaresOfBoth(Pow2(|rest|), start, last, Sum(rest, Squared()));
    }
  }

  lemma NothingSpread(start: int)
    ensures Pow2(0) * (start * start + Sum([], Squared())) == start * start
  {
  }

  lemma OneMoreNumber(numbers: seq<int>)
    requires numbers != []
    ensures var last, rest := numbers[|numbers| - 1], numbers[..|numbers| - 1];
            Pow2(|numbers|) == 2 * Pow2(|rest|) && Sum(numbers, Squared()) == Sum(rest, Squared()) + last * last
  {
  }

  lemma SquaresOfBoth(p: int, start: int, last: int, sum: int)
    ensures p * ((start + last) * (start + last) + sum) + p * ((start - last) * (start - last) + sum)
         == 2 * p * (start * start + (sum + last * last))
  {
    var a, b := (start + last) * (start + last) + sum, (start - last) * (start - last) + sum;
    var c := start * start + (sum + last * last);
    assert a + b == 2 * c;
    Distributes(p, a, b);
    assert p * (2 * c) == 2 * p * c;
  }

  lemma Distributes(p: int, a: int, b: int)
    ensures p * a + p * b == p * (a + b)
  {
  }

  /**
    The variance the normal branch divides by is that of the rank sum of the positive differences
    under random signs: half the sum of signed ranks, so a sixteenth of the mean square of twice it.
   */
  lemma VarianceUnderRandomSigns(v: seq<real>)
    ensures Variance(|v|, TieSum(Map(v, Ranker(v))))
            == Spread(Map(v, Ranker(v)), 0) as real / (16 * Pow2(|v|)) as real
  {
    hide TwiceRank, Variance, TieSum, Spread, Pow2, Sum;
    var ranks, p := Map(v, Ranker(v)), Pow2(|v|);
    VarianceIsSumOfSquares(v);
    SpreadIsSquares(ranks, 0);
    forall y | y in v ensures SquareOf(v)(y) == Squared()(Ranker(v)(y)) {
    }
    MapSum(v, Ranker(v), Squared(), SquareOf(v));
    CommonFactor(Sum(v, SquareOf(v)), p);
  }

  lemma CommonFactor(s: int, p: nat)
    requires p > 0
    ensures s as real / 16.0 == (p * s) as real / (16 * p) as real
  {
    var q := s as real / 16.0;
    assert q * 16.0 == s as real;
    assert (p * s) as real == p as real * s as real;
    assert (16 * p) as real == 16.0 * p as real;
    assert (p * s) as real == q * (16 * p) as real;
  }

  // ---------- the two branches ----------

  /** Twice the ranks of the differences of one sign, summed. */
  function PositiveRankSum(d: seq<real>): int {
    Sum(d, PositiveShare(Magnitudes(d)))
  }

  function NegativeRankSum(d: seq<real>): int {
    Sum(Map(d, Negate), PositiveShare(Magnitudes(d)))
  }

  /** Of two differences the one farther from zero has the greater rank, whatever their signs. */
  lemma FartherRanksHigher(d: seq<real>, i: nat, j: nat)
    requires i < |d| && j < |d|
    requires (if d[i] < 0.0 then -d[i] else d[i]) < (if d[j] < 0.0 then -d[j] else d[j])
    ensures TwiceRank(Magnitudes(d), Magnitude(d[i])) < TwiceRank(Magnitudes(d), Magnitude(d[j]))
  {
    var m := Magnitudes(d);
    assert m[i] == Magnitude(d[i]) && m[i] in m;
    RankOrder(m, Magnitude(d[i]), Magnitude(d[j]));
  }

  /** Half the difference of the two rank sums, less the continuity correction of one half. */
  function Deviation(d: seq<real>): real {
    Distance(PositiveRankSum(d), NegativeRankSum(d)) as real / 4.0 - 0.5
  }

  lemma SignsShareRanks(d: seq<real>)
    requires forall x | x in d :: x != 0.0
    ensures PositiveRankSum(d) + NegativeRankSum(d) == |d| * (|d| + 1)
    ensures TwicePositiveRanks(d) == PositiveRankSum(d)
  {
    SignsSplitRanks(d, Magnitudes(d));
    RanksSum(Magnitudes(d));
  }

  /**
    With ties, or beyond a hundred differences, the test asks for the normal tail at the deviation of
    the two rank sums and at the variance of random signs; without a deviation worth a rank p is 1.
   */
  lemma NormalBranch(d: seq<real>, tail: NormalTail)
    requires (forall x | x in d :: x != 0.0) && d != [] && (HasTies(Magnitudes(d)) || |d| > 100)
    ensures UsableP(d, tail) ==
            if Deviation(d) <= 0.0 then 1.0
            else tail(Deviation(d), Spread(Map(Magnitudes(d), Ranker(Magnitudes(d))),
              0) as real / (16 * Pow2(|d|)) as real)
  {
    hide TieSum, Spread, HasTies, Sum, Pow2, PositiveRankSum, NegativeRankSum, TwicePositiveRanks, ExactP;
    var v := Magnitudes(d);
    SignsShareRanks(d);
    VarianceUnderRandomSigns(v);
    assert |Map(v, Ranker(v))| == |v| == |d|;
    VarianceStaysPositive(Map(v, Ranker(v)));
    DeviationFromMean(PositiveRankSum(d), NegativeRankSum(d), |d| * (|d| + 1));
  }

  lemma DeviationFromMean(positive: int, negative: int, total: int)
    requires positive + negative == total
    ensures var deviation := positive as real / 2.0 - total as real / 4.0;
            (if deviation < 0.0 then -deviation else deviation) == Distance(positive, negative) as real / 4.0
  {
  }

  /**
    Without ties, up to a hundred differences, p is the probability under random signs of a rank sum
    at least as far from the middle as that of the positive differences.
   */
  lemma ExactBranch(d: seq<real>, tail: NormalTail)
    requires (forall x | x in d :: x != 0.0) && d != [] && !HasTies(Magnitudes(d)) && |d| <= 100
    ensures |Assignments(|d|)| > 0
    ensures UsableP(d, tail)
            == |FarFromMiddle(|d|, PositiveRankSum(d) / 2)| as real / |Assignments(|d|)| as real
  {
    hide HasTies, Assignments, FarFromMiddle, PositiveRankSum, ExactP;
    SignsShareRanks(d);
    ExactPIsTwoSided(|d|, PositiveRankSum(d) / 2);
  }

  lemma {:induction false} FiniteIsUsable(d: seq<real>)
    requires forall x | x in d :: x != 0.0
    ensures Usable(Map(d, Finite)) == d
  {
    if d != [] {
      var front, x := d[..|d| - 1], d[|d| - 1];
      assert x in d && forall y | y in front :: y in d;
      FiniteIsUsable(front);
      assert Map(d, Finite)[..|d| - 1] == Map(front, Finite);
    }
  }

  function Finite(x: real): Float {
    Float.Finite(x)
  }

  /** The whole test reads every finite nonzero difference. */
  lemma EveryFiniteDifferenceCounts(d: seq<real>, tail: NormalTail)
    requires forall x | x in d :: x != 0.0
    ensures SignedRankP(Map(d, Finite), tail) == UsableP(d, tail)
  {
    FiniteIsUsable(d);
  }
}
