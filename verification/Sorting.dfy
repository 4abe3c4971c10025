/** Sums over rearranged sequences, and the sorts that the statistics core rests on. */
module Sorting {

  /** A value with the index or group it came from. */
  datatype Tagged = Tagged(value: real, tag: nat)

  function Sum<T>(s: seq<T>, f: T -> int): int {
    if s == [] then 0 else Sum(s[..|s| - 1], f) + f(s[|s| - 1])
  }

  lemma {:induction false} SumConcat<T>(a: seq<T>, b: seq<T>, f: T -> int)
    ensures Sum(a + b, f) == Sum(a, f) + Sum(b, f)
  {
    if b == [] {
      assert a + b == a;
    } else {
      SumConcat(a, b[..|b| - 1], f);
      assert (a + b)[..|a + b| - 1] == a + b[..|b| - 1];
    }
  }

  lemma SumSingle<T>(x: T, f: T -> int)
    ensures Sum([x], f) == f(x)
  {
    assert [x][..0] == [];
    assert Sum([x][..0], f) == 0;
  }

  /** A rearrangement has the same sum. */
  lemma {:induction false} SumPermutes<T>(a: seq<T>, b: seq<T>, f: T -> int)
    requires multiset(a) == multiset(b)
    ensures Sum(a, f) == Sum(b, f)
    decreases |a|
  {
    if a == [] {
      assert |multiset(b)| == 0;
    } else {
      hide Sum;
      var m := |a| - 1;
      var k := Occurs(a[m], a, b);
      TakeOut(a, m);
      TakeOut(b, k);
      SumPermutes(a[..m] + a[m + 1..], b[..k] + b[k + 1..], f);
      SumWithout(a, m, f);
      SumWithout(b, k, f);
    }
  }

  lemma Occurs<T>(x: T, a: seq<T>, b: seq<T>) returns (k: nat)
    requires x in a && multiset(a) == multiset(b)
    ensures k < |b| && b[k] == x
  {
    assert x in multiset(b);
    k :| 0 <= k < |b| && b[k] == x;
  }

  lemma SumWithout<T>(s: seq<T>, k: nat, f: T -> int)
    requires k < |s|
    ensures Sum(s, f) == Sum(s[..k] + s[k + 1..], f) + f(s[k])
  {
    hide Sum;
    TakeOut(s, k);
    SumConcat(s[..k], s[k + 1..], f);
    SumConcat(s[..k] + [s[k]], s[k + 1..], f);
    SumConcat(s[..k], [s[k]], f);
    SumSingle(s[k], f);
  }

  lemma TakeOut<T>(s: seq<T>, k: nat)
    requires k < |s|
    ensures s == s[..k] + [s[k]] + s[k + 1..]
    ensures multiset(s[..k] + s[k + 1..]) == multiset(s) - multiset{s[k]}
  {
    assert s == s[..k] + [s[k]] + s[k + 1..];
  }

  ghost predicate Ascending(s: seq<real>) {
    forall i, j :: 0 <= i < j < |s| ==> s[i] <= s[j]
  }

  // ---------------------------------------------------------------- counting

  function AtMost(x: real): real -> int {
    (v: real) => if v <= x then 1 else 0
  }

  function CountAtMost(s: seq<real>, x: real): int {
    Sum(s, AtMost(x))
  }

  function Below(x: real): real -> int {
    (v: real) => if v < x then 1 else 0
  }

  function CountBelow(s: seq<real>, x: real): int {
    Sum(s, Below(x))
  }

  /** The indices below n with property q. */
  ghost function Indices(n: nat, q: nat -> bool): set<nat> {
    set i: nat | i < n && q(i)
  }

  lemma OneMoreIndex(n: nat, q: nat -> bool)
    ensures |Indices(n + 1, q)| == |Indices(n, q)| + if q(n) then 1 else 0
  {
    assert Indices(n + 1, q) == Indices(n, q) + if q(n) then {n} else {};
  }

  /** A sum of ones and zeros is the number of indices that contribute. */
  lemma {:induction false} SumIsCardinality<T>(s: seq<T>, f: T -> int, q: nat -> bool)
    requires forall i :: 0 <= i < |s| ==> f(s[i]) == if q(i) then 1 else 0
    ensures Sum(s, f) == |Indices(|s|, q)|
  {
    if s == [] {
      assert Indices(0, q) == {};
    } else {
      SumIsCardinality(s[..|s| - 1], f, q);
      OneMoreIndex(|s| - 1, q);
    }
  }

  lemma CountIsCardinality(s: seq<real>, x: real)
    ensures CountAtMost(s, x) == |set i: nat | i < |s| && s[i] <= x|
    ensures CountBelow(s, x) == |set i: nat | i < |s| && s[i] < x|
  {
    var atMost, below := (i: nat) => i < |s| && s[i] <= x, (i: nat) => i < |s| && s[i] < x;
    SumIsCardinality(s, AtMost(x), atMost);
    SumIsCardinality(s, Below(x), below);
    assert Indices(|s|, atMost) == set i: nat | i < |s| && s[i] <= x;
    assert Indices(|s|, below) == set i: nat | i < |s| && s[i] < x;
  }

  /** The pairs (i, j), i < m and j < n, with property p. */
  ghost function IndexPairs(m: nat, n: nat, p: (nat, nat) -> bool): set<(nat, nat)> {
    set i: nat, j: nat | i < m && j < n && p(i, j) :: (i, j)
  }

  /** The pairs whose first index is i. */
  ghost function PairRow(i: nat, n: nat, q: nat -> bool): set<(nat, nat)> {
    set j: nat | j < n && q(j) :: (i, j)
  }

  lemma {:induction false} PairRowSize(i: nat, n: nat, q: nat -> bool)
    ensures |PairRow(i, n, q)| == |Indices(n, q)|
  {
    if n == 0 {
      assert PairRow(i, 0, q) == {} && Indices(0, q) == {};
    } else {
      PairRowSize(i, n - 1, q);
      OneMoreIndex(n - 1, q);
      assert PairRow(i, n, q) == PairRow(i, n - 1, q) + if q(n - 1) then {(i, n - 1)} else {};
    }
  }

  /** Pairs are counted row by row. */
  lemma OneMoreRow(m: nat, n: nat, p: (nat, nat) -> bool, q: nat -> bool)
    requires forall j: nat :: j < n ==> q(j) == p(m, j)
    ensures |IndexPairs(m + 1, n, p)| == |IndexPairs(m, n, p)| + |Indices(n, q)|
  {
    PairRowSize(m, n, q);
    var before, row := IndexPairs(m, n, p), PairRow(m, n, q);
    assert IndexPairs(m + 1, n, p) == before + row;
    assert before !! row;
  }

  lemma NoRows(n: nat, p: (nat, nat) -> bool)
    ensures |IndexPairs(0, n, p)| == 0
  {
    assert IndexPairs(0, n, p) == {};
  }

  lemma {:induction false} CountRange(s: seq<real>, x: real)
    ensures 0 <= CountAtMost(s, x) <= |s|
    ensures (forall v :: v in s ==> v <= x) ==> CountAtMost(s, x) == |s|
    ensures (forall v :: v in s ==> v > x) ==> CountAtMost(s, x) == 0
  {
    if s != [] {
      var init := s[..|s| - 1];
      CountRange(init, x);
      assert s[|s| - 1] in s && forall v :: v in init ==> v in s;
    }
  }

  lemma CountSplit(s: seq<real>, x: real, k: nat)
    requires k <= |s|
    ensures CountAtMost(s, x) == CountAtMost(s[..k], x) + CountAtMost(s[k..], x)
  {
    SumConcat(s[..k], s[k..], AtMost(x));
    assert s == s[..k] + s[k..];
  }

  /** In ascending order, entry k - 1 is at most x exactly when k entries are. */
  lemma CountInOrder(s: seq<real>, x: real, k: nat)
    requires Ascending(s) && 1 <= k <= |s|
    ensures s[k - 1] <= x <==> CountAtMost(s, x) >= k
    ensures k < |s| && s[k] > x ==> CountAtMost(s, x) <= k
  {
    hide CountAtMost;
    CountSplit(s, x, k);
    CountRange(s[..k], x);
    CountRange(s[k..], x);
    if s[k - 1] > x {
      CountSplit(s, x, k - 1);
      CountRange(s[..k - 1], x);
      CountRange(s[k - 1..], x);
    }
  }

  /** In ascending order, when the first k entries are below x and the rest are not, k entries
      are below x. */
  lemma BelowInOrder(s: seq<real>, x: real, k: nat)
    requires Ascending(s) && k <= |s|
    ensures k == 0 || s[k - 1] < x ==> CountBelow(s, x) >= k
    ensures k == |s| || x <= s[k] ==> CountBelow(s, x) <= k
  {
    hide CountBelow;
    BelowSplit(s, x, k);
    BelowRange(s[..k], x);
    BelowRange(s[k..], x);
  }

  lemma {:induction false} BelowRange(s: seq<real>, x: real)
    ensures 0 <= CountBelow(s, x) <= |s|
    ensures (forall v :: v in s ==> v < x) ==> CountBelow(s, x) == |s|
    ensures (forall v :: v in s ==> x <= v) ==> CountBelow(s, x) == 0
  {
    if s != [] {
      var init := s[..|s| - 1];
      BelowRange(init, x);
      assert s[|s| - 1] in s && forall v :: v in init ==> v in s;
    }
  }

  lemma BelowSplit(s: seq<real>, x: real, k: nat)
    requires k <= |s|
    ensures CountBelow(s, x) == CountBelow(s[..k], x) + CountBelow(s[k..], x)
  {
    SumConcat(s[..k], s[k..], Below(x));
    assert s == s[..k] + s[k..];
  }

  // ---------------------------------------------------------------- stats_sort

  function InsertSorted(x: real, s: seq<real>): (r: seq<real>)
    ensures |r| == |s| + 1
  {
    if s == [] || x <= s[0] then [x] + s else [s[0]] + InsertSorted(x, s[1..])
  }

  /** What qsort with the comparison of doubles leaves: the ascending rearrangement. */
  function Sorted(s: seq<real>): (r: seq<real>)
    ensures |r| == |s|
  {
    if s == [] then [] else InsertSorted(s[0], Sorted(s[1..]))
  }

  lemma {:induction false} InsertKeepsOrder(x: real, s: seq<real>)
    requires Ascending(s)
    ensures Ascending(InsertSorted(x, s))
    ensures InsertSorted(x, s)[0] == if s == [] || x <= s[0] then x else s[0]
  {
    if s != [] && x > s[0] {
      InsertKeepsOrder(x, s[1..]);
    }
  }

  lemma {:induction false} InsertPermutes(x: real, s: seq<real>)
    ensures multiset(InsertSorted(x, s)) == multiset(s) + multiset{x}
  {
    if s != [] && x > s[0] {
      InsertPermutes(x, s[1..]);
      assert s == [s[0]] + s[1..];
    }
  }

  lemma {:induction false} SortedAscends(s: seq<real>)
    ensures Ascending(Sorted(s))
  {
    if s != [] {
      SortedAscends(s[1..]);
      InsertKeepsOrder(s[0], Sorted(s[1..]));
    }
  }

  lemma {:induction false} SortedPermutes(s: seq<real>)
    ensures multiset(Sorted(s)) == multiset(s)
  {
    if s != [] {
      SortedPermutes(s[1..]);
      InsertPermutes(s[0], Sorted(s[1..]));
      assert s == [s[0]] + s[1..];
    }
  }

  lemma CountsOfSorted(s: seq<real>, x: real)
    ensures CountAtMost(Sorted(s), x) == CountAtMost(s, x)
    ensures CountBelow(Sorted(s), x) == CountBelow(s, x)
  {
    SortedPermutes(s);
    SumPermutes(Sorted(s), s, AtMost(x));
    SumPermutes(Sorted(s), s, Below(x));
  }

  // ---------------------------------------------------------------- the exchange sort

  function Zip(vals: seq<real>, tags: seq<nat>): (r: seq<Tagged>)
    requires |vals| == |tags|
    ensures |r| == |vals|
  {
    seq(|vals|, i requires 0 <= i < |vals| => Tagged(vals[i], tags[i]))
  }

  function Values(s: seq<Tagged>): (r: seq<real>)
    ensures |r| == |s|
  {
    seq(|s|, i requires 0 <= i < |s| => s[i].value)
  }

  lemma SwapPermutes<T>(s: seq<T>, i: nat, j: nat)
    requires i < j < |s|
    ensures multiset(s[i := s[j]][j := s[i]]) == multiset(s)
  {
    SetElement(s, i, s[j]);
    SetElement(s[i := s[j]], j, s[i]);
  }

  lemma SetElement<T>(s: seq<T>, i: nat, x: T)
    requires i < |s|
    ensures multiset(s[i := x]) == multiset(s) - multiset{s[i]} + multiset{x}
  {
  }

  ghost function Pairs(vals: array<real>, tags: array<nat>): seq<Tagged>
    requires vals.Length == tags.Length
    reads vals, tags
  {
    Zip(vals[..], tags[..])
  }

  /** Exchanging two positions of both arrays. */
  method Exchange(vals: array<real>, tags: array<nat>, i: nat, j: nat)
    requires vals as object != tags && i < j < vals.Length == tags.Length
    modifies vals, tags
    ensures multiset(Pairs(vals, tags)) == old(multiset(Pairs(vals, tags)))
    ensures vals[..] == old(vals[..][i := vals[j]][j := vals[i]])
  {
    ghost var before := Pairs(vals, tags);
    vals[i], vals[j] := vals[j], vals[i];
    tags[i], tags[j] := tags[j], tags[i];
    SwapPermutes(before, i, j);
    assert Pairs(vals, tags) == before[i := before[j]][j := before[i]];
  }

  /** The paired exchange sort: the values ascend, and every value keeps its tag. */
  method ExchangeSort(vals: array<real>, tags: array<nat>)
    requires vals as object != tags && vals.Length == tags.Length
    modifies vals, tags
    ensures Ascending(vals[..])
    ensures multiset(Pairs(vals, tags)) == old(multiset(Pairs(vals, tags)))
  {
    hide Zip, Pairs;
    var n, i := vals.Length, 0;
    while i < n - 1
      invariant i <= n
      invariant forall x, y :: 0 <= x < i && x < y < n ==> vals[x] <= vals[y]
      invariant multiset(Pairs(vals, tags)) == old(multiset(Pairs(vals, tags)))
      decreases n - i
    {
      for j := i + 1 to n
        invariant forall x, y :: 0 <= x < i && x < y < n ==> vals[x] <= vals[y]
        invariant forall y :: i < y < j ==> vals[i] <= vals[y]
        invariant multiset(Pairs(vals, tags)) == old(multiset(Pairs(vals, tags)))
      {
        if vals[i] > vals[j] {
          ghost var before := vals[..];
          Exchange(vals, tags, i, j);
          assert forall y :: 0 <= y < n ==> vals[y] == vals[..][y];
        }
      }
      i := i + 1;
    }
  }

  // ---------------------------------------------------------------- sequences without repetition

  ghost predicate Distinct<T>(s: seq<T>) {
    forall i, j :: 0 <= i < j < |s| ==> s[i] != s[j]
  }

  lemma {:induction false} DistinctCount<T>(s: seq<T>, x: T)
    requires Distinct(s)
    ensures multiset(s)[x] <= 1
  {
    if s != [] {
      DistinctCount(s[..|s| - 1], x);
      assert s == s[..|s| - 1] + [s[|s| - 1]];
    }
  }

  lemma DistinctPermutes<T>(s: seq<T>, t: seq<T>)
    requires Distinct(s) && multiset(s) == multiset(t)
    ensures Distinct(t)
  {
    forall i, j | 0 <= i < j < |t| ensures t[i] != t[j] {
      DistinctCount(s, t[i]);
      RepetitionCounts(t, i, j);
    }
  }

  lemma RepetitionCounts<T>(t: seq<T>, i: nat, j: nat)
    requires i < j < |t|
    ensures t[i] == t[j] ==> multiset(t)[t[i]] >= 2
  {
    TakeOut(t, j);
    var rest := t[..j] + t[j + 1..];
    assert rest[i] == t[i];
    assert rest[i] in multiset(rest);
  }
}
