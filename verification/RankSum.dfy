/** The Mann-Whitney statistic from the ranks of the combined samples, and the Hodges-Lehmann
    estimate. Group 0 is the first sample. */
module RankSum {
  import opened Sorting

  function Equal(x: real): real -> int {
    (v: real) => if v == x then 1 else 0
  }

  // ---------------------------------------------------------------- what the statistic counts

  /** The pairs (i, j) with a[i] > b[j]. */
  function Wins(a: seq<real>, b: seq<real>): int {
    if a == [] then 0 else Wins(a[..|a| - 1], b) + CountBelow(b, a[|a| - 1])
  }

  /** The pairs (i, j) with a[i] == b[j]. */
  function Ties(a: seq<real>, b: seq<real>): int {
    if a == [] then 0 else Ties(a[..|a| - 1], b) + Sum(b, Equal(a[|a| - 1]))
  }

  /** The pairs i < k with a[i] == a[k]. */
  function TiesWithin(a: seq<real>): int {
    if a == [] then 0 else TiesWithin(a[..|a| - 1]) + Sum(a[..|a| - 1], Equal(a[|a| - 1]))
  }

  lemma {:induction false} WinsOfPrefix(a: seq<real>, b: seq<real>, p: (nat, nat) -> bool, k: nat)
    requires k <= |a| && forall i: nat, j: nat :: i < |a| && j < |b| ==> p(i, j) == (a[i] > b[j])
    ensures Wins(a[..k], b) == |IndexPairs(k, |b|, p)|
  {
    hide Sum, IndexPairs, Indices;
    if k == 0 {
      NoRows(|b|, p);
    } else {
      WinsOfPrefix(a, b, p, k - 1);
      assert a[..k][..k - 1] == a[..k - 1];
      var q := (j: nat) => p(k - 1, j);
      SumIsCardinality(b, Below(a[k - 1]), q);
      OneMoreRow(k - 1, |b|, p, q);
    }
  }

  /** Wins counts the pairs of a value of a above a value of b. */
  lemma WinsArePairs(a: seq<real>, b: seq<real>)
    ensures Wins(a, b) == |set i: nat, j: nat | i < |a| && j < |b| && a[i] > b[j] :: (i, j)|
  {
    hide Wins;
    var p := (i: nat, j: nat) => i < |a| && j < |b| && a[i] > b[j];
    WinsOfPrefix(a, b, p, |a|);
    assert a[..|a|] == a;
    assert IndexPairs(|a|, |b|, p) == set i: nat, j: nat | i < |a| && j < |b| && a[i] > b[j] :: (i, j);
  }

  lemma {:induction false} TiesOfPrefix(a: seq<real>, b: seq<real>, p: (nat, nat) -> bool, k: nat)
    requires k <= |a| && forall i: nat, j: nat :: i < |a| && j < |b| ==> p(i, j) == (a[i] == b[j])
    ensures Ties(a[..k], b) == |IndexPairs(k, |b|, p)|
  {
    hide Sum, IndexPairs, Indices;
    if k == 0 {
      NoRows(|b|, p);
    } else {
      TiesOfPrefix(a, b, p, k - 1);
      assert a[..k][..k - 1] == a[..k - 1];
      var q := (j: nat) => p(k - 1, j);
      SumIsCardinality(b, Equal(a[k - 1]), q);
      OneMoreRow(k - 1, |b|, p, q);
    }
  }

  lemma TiesArePairs(a: seq<real>, b: seq<real>)
    ensures Ties(a, b) == |set i: nat, j: nat | i < |a| && j < |b| && a[i] == b[j] :: (i, j)|
  {
    hide Ties;
    var p := (i: nat, j: nat) => i < |a| && j < |b| && a[i] == b[j];
    TiesOfPrefix(a, b, p, |a|);
    assert a[..|a|] == a;
    assert IndexPairs(|a|, |b|, p) == set i: nat, j: nat | i < |a| && j < |b| && a[i] == b[j] :: (i, j);
  }

  lemma {:induction false} TiesWithinPrefix(a: seq<real>, p: (nat, nat) -> bool, k: nat)
    requires k <= |a| && forall i: nat, j: nat :: i < |a| && j < |a| ==> p(i, j) == (j < i && a[j] == a[i])
    ensures TiesWithin(a[..k]) == |IndexPairs(k, |a|, p)|
  {
    hide Sum, IndexPairs;
    if k == 0 {
      NoRows(|a|, p);
    } else {
      TiesWithinPrefix(a, p, k - 1);
      assert a[..k][..k - 1] == a[..k - 1];
      var q := (j: nat) => j < |a| && p(k - 1, j);
      SumIsCardinality(a[..k - 1], Equal(a[k - 1]), q);
      assert Indices(k - 1, q) == Indices(|a|, q);
      OneMoreRow(k - 1, |a|, p, q);
    }
  }

  lemma TiesWithinArePairs(a: seq<real>)
    ensures TiesWithin(a) == |set i: nat, j: nat | i < |a| && j < i && a[j] == a[i] :: (i, j)|
  {
    hide TiesWithin;
    var p := (i: nat, j: nat) => j < i < |a| && a[j] == a[i];
    TiesWithinPrefix(a, p, |a|);
    assert a[..|a|] == a;
    assert IndexPairs(|a|, |a|, p) == set i: nat, j: nat | i < |a| && j < i && a[j] == a[i] :: (i, j);
  }

  // ---------------------------------------------------------------- ranks

  /** The rank of an entry of group 0: one plus the number of strictly smaller values. */
  function RankIn(all: seq<real>): Tagged -> int {
    (t: Tagged) => if t.tag == 0 then 1 + CountBelow(all, t.value) else 0
  }

  function Group(a: seq<real>, tag: nat): (r: seq<Tagged>)
    ensures |r| == |a|
  {
    seq(|a|, i requires 0 <= i < |a| => Tagged(a[i], tag))
  }

  /** The two samples as the program lays them out. */
  function Combined(a: seq<real>, b: seq<real>): seq<Tagged> {
    Group(a, 0) + Group(b, 1)
  }

  lemma {:induction false} CountBelowValues(s: seq<Tagged>, x: real)
    ensures CountBelow(Values(s), x) == Sum(s, (t: Tagged) => if t.value < x then 1 else 0)
  {
    if s != [] {
      CountBelowValues(s[..|s| - 1], x);
      assert Values(s)[..|s| - 1] == Values(s[..|s| - 1]);
    }
  }

  /** A rearrangement leaves the number of smaller values as it was. */
  lemma CountBelowPermutes(s: seq<Tagged>, t: seq<Tagged>, x: real)
    requires multiset(s) == multiset(t)
    ensures CountBelow(Values(s), x) == CountBelow(Values(t), x)
  {
    CountBelowValues(s, x);
    CountBelowValues(t, x);
    SumPermutes(s, t, (t: Tagged) => if t.value < x then 1 else 0);
  }

  lemma {:induction false} SumCongruent<T>(s: seq<T>, f: T -> int, g: T -> int)
    requires forall x :: x in s ==> f(x) == g(x)
    ensures Sum(s, f) == Sum(s, g)
  {
    if s != [] {
      SumCongruent(s[..|s| - 1], f, g);
    }
  }

  /** So the sum of the ranks of group 0 can be taken in the order of the samples. */
  lemma RankSumPermutes(s: seq<Tagged>, t: seq<Tagged>)
    requires multiset(s) == multiset(t)
    ensures Sum(s, RankIn(Values(s))) == Sum(t, RankIn(Values(t)))
  {
    hide CountBelow;
    forall x | x in s ensures RankIn(Values(s))(x) == RankIn(Values(t))(x) {
      CountBelowPermutes(s, t, x.value);
    }
    SumCongruent(s, RankIn(Values(s)), RankIn(Values(t)));
    SumPermutes(s, t, RankIn(Values(t)));
  }

  // ---------------------------------------------------------------- the rank sum in terms of pairs

  lemma {:induction false} WinsConcat(a: seq<real>, b: seq<real>, c: seq<real>)
    ensures Wins(a, b + c) == Wins(a, b) + Wins(a, c)
  {
    if a != [] {
      WinsConcat(a[..|a| - 1], b, c);
      SumConcat(b, c, Below(a[|a| - 1]));
    }
  }

  lemma {:induction false} Trichotomy(a: seq<real>, x: real)
    ensures Wins(a, [x]) + CountBelow(a, x) + Sum(a, Equal(x)) == |a|
  {
    if a != [] {
      Trichotomy(a[..|a| - 1], x);
      SumSingle(x, Below(a[|a| - 1]));
    }
  }

  /** Of the pairs inside a sample, those that do not tie are counted once. */
  lemma {:induction false} PairsWithin(a: seq<real>)
    ensures 2 * (Wins(a, a) + TiesWithin(a)) == |a| * (|a| - 1)
  {
    if a != [] {
      var c, x := a[..|a| - 1], a[|a| - 1];
      assert a == c + [x];
      PairsWithin(c);
      WinsConcat(c, c, [x]);
      Trichotomy(c, x);
      SumConcat(c, [x], Below(x));
      SumSingle(x, Below(x));
      assert |a| * (|a| - 1) == |c| * (|c| - 1) + 2 * |c|;
    }
  }

  lemma {:induction false} RanksOfFirst(c: seq<real>, a: seq<real>, b: seq<real>)
    ensures Sum(Group(c, 0), RankIn(a + b)) == |c| + Wins(c, a) + Wins(c, b)
  {
    hide CountBelow;
    if c != [] {
      var init, x := c[..|c| - 1], c[|c| - 1];
      RanksOfFirst(init, a, b);
      assert Group(c, 0)[..|c| - 1] == Group(init, 0);
      BelowSplit(a + b, x, |a|);
      assert (a + b)[..|a|] == a && (a + b)[|a|..] == b;
    }
  }

  lemma {:induction false} NoRanksOfSecond(b: seq<real>, all: seq<real>)
    ensures Sum(Group(b, 1), RankIn(all)) == 0
  {
    if b != [] {
      NoRanksOfSecond(b[..|b| - 1], all);
      assert Group(b, 1)[..|b| - 1] == Group(b[..|b| - 1], 1);
    }
  }

  /** The rank sum of the first sample, twice, in closed form. */
  lemma RankSumOfCombined(a: seq<real>, b: seq<real>)
    ensures 2 * Sum(Combined(a, b), RankIn(Values(Combined(a, b))))
         == |a| * (|a| + 1) + 2 * (Wins(a, b) - TiesWithin(a))
  {
    var s := Combined(a, b);
    assert Values(s) == a + b;
    SumConcat(Group(a, 0), Group(b, 1), RankIn(a + b));
    RanksOfFirst(a, a, b);
    NoRanksOfSecond(b, a + b);
    PairsWithin(a);
    assert |a| * (|a| + 1) == |a| * (|a| - 1) + 2 * |a|;
  }

  // ---------------------------------------------------------------- the program

  /** The rank loop on sorted pairs: r1 is the sum of the ranks of group 0. */
  method RankLoop(vals: array<real>, group: array<nat>) returns (r1: int)
    requires vals.Length == group.Length && Ascending(vals[..])
    ensures r1 == Sum(Pairs(vals, group), RankIn(vals[..]))
  {
    hide CountBelow;
    ghost var s := Pairs(vals, group);
    var total, rank := vals.Length, 1;
    r1 := 0;
    if total > 0 {
      BelowInOrder(vals[..], vals[0], 0);
    }
    for i := 0 to total
      invariant i < total ==> 1 <= rank <= i + 1 && CountBelow(vals[..], vals[i]) == rank - 1
      invariant i < total ==> vals[rank - 1] == vals[i]
      invariant r1 == Sum(s[..i], RankIn(vals[..]))
    {
      assert s[..i + 1][..i] == s[..i];
      if group[i] == 0 {
        r1 := r1 + rank;
      }
      if i < total - 1 && vals[i] < vals[i + 1] {
        rank := i + 2;
      }
      if i + 1 < total {
        BelowInOrder(vals[..], vals[i + 1], rank - 1);
      }
    }
    assert s[..total] == s;
  }

  /** stats_mann_whitney up to the normal approximation: u1 is the number of pairs won by the
      first sample less the ties inside that sample, and u the smaller of u1 and its complement. */
  method MannWhitney(a: seq<real>, b: seq<real>) returns (u1: real, u: real)
    ensures u1 == (Wins(a, b) - TiesWithin(a)) as real
    ensures u1 == (|set i: nat, j: nat | i < |a| && j < |b| && a[i] > b[j] :: (i, j)|
                 - |set i: nat, j: nat | i < |a| && j < i && a[j] == a[i] :: (i, j)|) as real
    ensures var u2 := (|a| * |b|) as real - u1; u == if u1 < u2 then u1 else u2
  {
    hide Sum, Wins, TiesWithin;
    var na, nb := |a|, |b|;
    var combined := new real[na + nb](_ => 0.0);
    var group := new nat[na + nb](_ => 0);
    for i := 0 to na
      invariant forall k :: 0 <= k < i ==> combined[k] == a[k] && group[k] == 0
    {
      combined[i], group[i] := a[i], 0;
    }
    for i := 0 to nb
      invariant forall k :: 0 <= k < na ==> combined[k] == a[k] && group[k] == 0
      invariant forall k :: na <= k < na + i ==> combined[k] == b[k - na] && group[k] == 1
    {
      combined[na + i], group[na + i] := b[i], 1;
    }
    assert Pairs(combined, group) == Combined(a, b);
    ExchangeSort(combined, group);
    ghost var s := Pairs(combined, group);
    assert Values(s) == combined[..];
    RankSumPermutes(s, Combined(a, b));
    RankSumOfCombined(a, b);
    WinsArePairs(a, b);
    TiesWithinArePairs(a);
    var r1 := RankLoop(combined, group);
    u1 := r1 as real - (na * (na + 1)) as real / 2.0;
    var u2 := (na * nb) as real - u1;
    u := if u1 < u2 then u1 else u2;
  }

  /** Twice the textbook statistic, which counts half of every tie between the samples. */
  function TwiceTextbookU(a: seq<real>, b: seq<real>): int {
    2 * Wins(a, b) + Ties(a, b)
  }

  /** Ranking ties by their smallest rank gives the textbook statistic exactly when no two
      values of the first sample tie and no value of the first ties with one of the second. */
  lemma TextbookExactly(a: seq<real>, b: seq<real>)
    ensures 2 * (Wins(a, b) - TiesWithin(a)) == TwiceTextbookU(a, b) <==>
      (forall i, k :: 0 <= i < k < |a| ==> a[i] != a[k]) && (forall x :: x in a ==> x !in b)
  {
    NoTiesWithin(a);
    NoTiesBetween(a, b);
  }

  /** Two tied values and nothing to compare them with: the statistic is -1, where the textbook
      has 0. */
  lemma TiedSample()
    ensures var a, b := [1.0, 1.0], [];
      Wins(a, b) - TiesWithin(a) == -1 && TwiceTextbookU(a, b) == 0
  {
    hide Sum;
    var one: seq<real> := [1.0];
    assert [1.0, 1.0][..1] == one && one[..0] == [];
    assert Sum(one, Equal(1.0)) == 1 by { SumSingle(1.0, Equal(1.0)); }
    assert forall f: real -> int :: Sum([], f) == 0 by { SumNothing(); }
  }

  lemma SumNothing()
    ensures forall f: real -> int :: Sum([], f) == 0
  {
  }

  lemma {:induction false} CountEqual(s: seq<real>, x: real)
    ensures Sum(s, Equal(x)) >= 0
    ensures Sum(s, Equal(x)) == 0 <==> x !in s
  {
    if s != [] {
      CountEqual(s[..|s| - 1], x);
      assert s == s[..|s| - 1] + [s[|s| - 1]];
    }
  }

  lemma {:induction false} NoTiesWithin(a: seq<real>)
    ensures TiesWithin(a) >= 0
    ensures TiesWithin(a) == 0 <==> forall i, k :: 0 <= i < k < |a| ==> a[i] != a[k]
  {
    if a != [] {
      var init, last := a[..|a| - 1], a[|a| - 1];
      NoTiesWithin(init);
      CountEqual(init, last);
      if last in init {
        var i :| 0 <= i < |init| && init[i] == last;
        assert a[i] == a[|a| - 1];
      }
      assert forall i, k :: 0 <= i < k < |init| ==> (init[i] == init[k] <==> a[i] == a[k]);
    }
  }

  lemma {:induction false} NoTiesBetween(a: seq<real>, b: seq<real>)
    ensures Ties(a, b) >= 0
    ensures Ties(a, b) == 0 <==> forall x :: x in a ==> x !in b
  {
    if a != [] {
      var init, last := a[..|a| - 1], a[|a| - 1];
      NoTiesBetween(init, b);
      CountEqual(b, last);
      assert a == init + [last];
    }
  }

  // ---------------------------------------------------------------- Hodges-Lehmann

  /** All pairwise differences, row by row. */
  function Differences(a: seq<real>, b: seq<real>): (d: seq<real>)
  {
    if a == [] then [] else Differences(a[..|a| - 1], b) + Row(a[|a| - 1], b)
  }

  /** The difference of a[i] and b[j] stands at position i * |b| + j. */
  lemma {:induction false} DifferenceAt(a: seq<real>, b: seq<real>, i: nat, j: nat)
    requires i < |a| && j < |b|
    ensures i * |b| + j < |Differences(a, b)| && Differences(a, b)[i * |b| + j] == a[i] - b[j]
  {
    var init := a[..|a| - 1];
    DifferencesLength(init, b);
    if i < |init| {
      DifferenceAt(init, b, i, j);
    } else {
      assert i * |b| == |init| * |b|;
    }
  }

  lemma DifferencesNext(a: seq<real>, b: seq<real>, k: nat)
    requires k < |a|
    ensures Differences(a[..k + 1], b) == Differences(a[..k], b) + Row(a[k], b)
  {
    hide Row;
    assert a[..k + 1][..k] == a[..k];
  }

  lemma RowCount(x: real, b: seq<real>, f: real -> int, q: nat -> bool)
    requires forall j: nat :: j < |b| ==> f(x - b[j]) == if q(j) then 1 else 0
    ensures Sum(Row(x, b), f) == |Indices(|b|, q)|
  {
    hide Sum, Indices;
    var row := Row(x, b);
    forall j | 0 <= j < |row| ensures f(row[j]) == if q(j) then 1 else 0 {
      assert row[j] == x - b[j];
    }
    SumIsCardinality(row, f, q);
  }

  lemma NoDifferences(a: seq<real>, b: seq<real>, f: real -> int)
    ensures Sum(Differences(a[..0], b), f) == 0
  {
  }

  lemma {:induction false} DifferencesOfPrefix(a: seq<real>, b: seq<real>, f: real -> int,
                                               p: (nat, nat) -> bool, k: nat)
    requires k <= |a|
    requires forall i: nat, j: nat :: i < |a| && j < |b| ==> f(a[i] - b[j]) == if p(i, j) then 1 else 0
    ensures Sum(Differences(a[..k], b), f) == |IndexPairs(k, |b|, p)|
  {
    hide IndexPairs, Indices, Sum, Differences, Row;
    if k == 0 {
      NoDifferences(a, b, f);
      NoRows(|b|, p);
    } else {
      var i: nat := k - 1;
      DifferencesOfPrefix(a, b, f, p, i);
      DifferencesNext(a, b, i);
      var q := (j: nat) => p(i, j);
      forall j: nat | j < |b| ensures f(a[i] - b[j]) == if q(j) then 1 else 0 {
        assert q(j) == p(i, j);
      }
      RowCount(a[i], b, f, q);
      SumConcat(Differences(a[..i], b), Row(a[i], b), f);
      OneMoreRow(i, |b|, p, q);
    }
  }

  /** The number of pairs whose difference is below x. */
  ghost function PairsBelow(a: seq<real>, b: seq<real>, x: real): nat {
    |set i: nat, j: nat | i < |a| && j < |b| && a[i] - b[j] < x :: (i, j)|
  }

  /** The number of pairs whose difference is at most x. */
  ghost function PairsAtMost(a: seq<real>, b: seq<real>, x: real): nat {
    |set i: nat, j: nat | i < |a| && j < |b| && a[i] - b[j] <= x :: (i, j)|
  }

  lemma DifferencesArePairs(a: seq<real>, b: seq<real>, x: real)
    ensures CountBelow(Differences(a, b), x) == PairsBelow(a, b, x)
    ensures CountAtMost(Differences(a, b), x) == PairsAtMost(a, b, x)
  {
    hide Sum, Differences;
    var p := (i: nat, j: nat) => i < |a| && j < |b| && a[i] - b[j] < x;
    var q := (i: nat, j: nat) => i < |a| && j < |b| && a[i] - b[j] <= x;
    DifferencesOfPrefix(a, b, Below(x), p, |a|);
    DifferencesOfPrefix(a, b, AtMost(x), q, |a|);
    assert a[..|a|] == a;
    assert IndexPairs(|a|, |b|, p) == set i: nat, j: nat | i < |a| && j < |b| && a[i] - b[j] < x :: (i, j);
    assert IndexPairs(|a|, |b|, q) == set i: nat, j: nat | i < |a| && j < |b| && a[i] - b[j] <= x :: (i, j);
  }

  /** x is the difference at place k, counted from zero, of all pairs in ascending order. */
  ghost predicate Ranked(a: seq<real>, b: seq<real>, k: nat, x: real) {
    PairsBelow(a, b, x) <= k < PairsAtMost(a, b, x)
  }

  /** x and y are the two middle differences, or both the one in the middle. */
  ghost predicate Middle(a: seq<real>, b: seq<real>, x: real, y: real) {
    var n := |a| * |b|;
    n >= 1 && Ranked(a, b, (n - 1) / 2, x) && Ranked(a, b, n / 2, y)
  }

  lemma SortedIsRanked(a: seq<real>, b: seq<real>, k: nat)
    requires k < |Differences(a, b)|
    ensures Ranked(a, b, k, Sorted(Differences(a, b))[k])
  {
    hide Sorted, CountBelow, CountAtMost, PairsBelow, PairsAtMost, Differences;
    var d := Differences(a, b);
    var s := Sorted(d);
    SortedAscends(d);
    CountsOfSorted(d, s[k]);
    BelowInOrder(s, s[k], k);
    CountInOrder(s, s[k], k + 1);
    DifferencesArePairs(a, b, s[k]);
  }

  function Row(x: real, b: seq<real>): (r: seq<real>)
    ensures |r| == |b|
  {
    seq(|b|, j requires 0 <= j < |b| => x - b[j])
  }

  lemma {:induction false} DifferencesLength(a: seq<real>, b: seq<real>)
    ensures |Differences(a, b)| == |a| * |b|
  {
    if a != [] {
      DifferencesLength(a[..|a| - 1], b);
      assert |a| * |b| == (|a| - 1) * |b| + |b|;
    }
  }

  datatype Estimate = Estimate(value: real) | ReadsOutside

  /** The estimate: the median of the differences. The program reads the middle of the sorted
      differences without looking whether there are any, and so outside its array if and only if
      one of the samples is empty. */
  method HodgesLehmann(a: seq<real>, b: seq<real>) returns (hl: Estimate)
    ensures hl.ReadsOutside? <==> a == [] || b == []
    ensures hl.Estimate? ==> Differences(a, b) != [] && hl.value == MedianOf(Differences(a, b))
    ensures hl.Estimate? ==> var d := Differences(a, b);
      2 * CountBelow(d, hl.value) <= |a| * |b| <= 2 * CountAtMost(d, hl.value)
    ensures hl.Estimate? ==> 2 * PairsBelow(a, b, hl.value) <= |a| * |b| <= 2 * PairsAtMost(a, b, hl.value)
    ensures hl.Estimate? ==> exists x, y :: Middle(a, b, x, y) && hl.value == (x + y) / 2.0
  {
    hide CountBelow, CountAtMost, Sorted, Row;
    var diffs: seq<real> := [];
    for i := 0 to |a|
      invariant diffs == Differences(a[..i], b)
    {
      assert a[..i + 1][..i] == a[..i];
      for j := 0 to |b|
        invariant diffs == Differences(a[..i], b) + Row(a[i], b[..j])
      {
        RowStep(a[i], b, j);
        diffs := diffs + [a[i] - b[j]];
      }
      assert b[..|b|] == b;
    }
    assert a[..|a|] == a;
    DifferencesLength(a, b);
    SomeDifferences(|a|, |b|);
    if diffs == [] {
      return ReadsOutside;
    }
    var m := Median(diffs);
    MiddleRanks(a, b);
    DifferencesArePairs(a, b, m);
    return Estimate(m);
  }

  /** The middle of the sorted values, or the mean of the two middle ones. */
  function MedianOf(d: seq<real>): real
    requires d != []
  {
    var n, s := |d|, Sorted(d);
    if n % 2 == 0 then (s[n / 2 - 1] + s[n / 2]) / 2.0 else s[n / 2]
  }

  lemma MiddleRanks(a: seq<real>, b: seq<real>)
    requires Differences(a, b) != []
    ensures exists x, y :: Middle(a, b, x, y) && MedianOf(Differences(a, b)) == (x + y) / 2.0
  {
    hide Sorted, Ranked, Differences;
    DifferencesLength(a, b);
    var n, s := |a| * |b|, Sorted(Differences(a, b));
    SortedIsRanked(a, b, (n - 1) / 2);
    SortedIsRanked(a, b, n / 2);
    assert Middle(a, b, s[(n - 1) / 2], s[n / 2]);
  }

  method Median(d: seq<real>) returns (m: real)
    requires d != []
    ensures m == MedianOf(d)
    ensures 2 * CountBelow(d, m) <= |d| <= 2 * CountAtMost(d, m)
  {
    hide CountBelow, CountAtMost, Sorted;
    var n, s := |d|, Sorted(d);
    SortedAscends(d);
    if n % 2 == 0 {
      m := (s[n / 2 - 1] + s[n / 2]) / 2.0;
    } else {
      m := s[n / 2];
    }
    MedianSplits(d, m);
  }

  lemma RowStep(x: real, b: seq<real>, j: nat)
    requires j < |b|
    ensures Row(x, b[..j + 1]) == Row(x, b[..j]) + [x - b[j]] && Row(x, b[..0]) == []
  {
  }

  lemma SomeDifferences(m: nat, n: nat)
    ensures m * n == 0 <==> m == 0 || n == 0
  {
  }

  lemma MedianSplits(d: seq<real>, m: real)
    requires d != []
    requires Sorted(d)[(|d| - 1) / 2] <= m <= Sorted(d)[|d| / 2]
    ensures 2 * CountBelow(d, m) <= |d| <= 2 * CountAtMost(d, m)
  {
    hide Sorted, CountBelow, CountAtMost;
    var n, s := |d|, Sorted(d);
    CountsOfSorted(d, m);
    SortedAscends(d);
    var h, g := n / 2, (n + 1) / 2;
    assert 2 * h <= n <= 2 * g && g - 1 == (n - 1) / 2;
    BelowInOrder(s, m, h);
    CountInOrder(s, m, g);
  }
}
