/** Iterative removal of outliers: the value furthest from the mean goes while its studentised
    deviation exceeds a critical value. The critical value and the square root are parameters;
    of the root only sqrt(0) = 0 is used, and two more values in the example MaskedPair. */
module Outliers {
  import opened Arithmetic
  import opened Sorting

  const TINY := 0.0000000001

  // ---------------------------------------------------------------- mean and deviation

  function Total(s: seq<real>): real {
    if s == [] then 0.0 else Total(s[..|s| - 1]) + s[|s| - 1]
  }

  function Squares(s: seq<real>, m: real): real {
    if s == [] then 0.0 else Squares(s[..|s| - 1], m) + (s[|s| - 1] - m) * (s[|s| - 1] - m)
  }

  function Mean(s: seq<real>): real {
    if s == [] then 0.0 else Total(s) / (|s| as real)
  }

  function Stddev(s: seq<real>, sqrt: real -> real): real {
    if |s| < 2 then 0.0 else sqrt(Squares(s, Mean(s)) / ((|s| - 1) as real))
  }

  lemma NoSums(s: seq<real>, m: real)
    requires s == []
    ensures Total(s) == 0.0 && Squares(s, m) == 0.0
  {
  }

  lemma SumsGrow(s: seq<real>, x: real, m: real)
    ensures Total(s + [x]) == Total(s) + x
    ensures Squares(s + [x], m) == Squares(s, m) + (x - m) * (x - m)
  {
    assert (s + [x])[..|s|] == s;
  }

  /** stats_mean_stddev on the first count values. */
  method MeanStddev(values: array<real>, count: nat, sqrt: real -> real) returns (mean: real, stddev: real)
    requires count <= values.Length
    ensures mean == Mean(values[..count]) && stddev == Stddev(values[..count], sqrt)
    ensures mean == if count < 1 then 0.0 else Total(values[..count]) / (count as real)
    ensures stddev == if count < 2 then 0.0 else sqrt(Squares(values[..count], mean) / ((count - 1) as real))
  {
    hide Total, Squares;
    if count < 1 {
      return 0.0, 0.0;
    }
    NoSums(values[..0], 0.0);
    var sum := 0.0;
    for i := 0 to count
      invariant sum == Total(values[..i])
    {
      SumsGrow(values[..i], values[i], 0.0);
      assert values[..i + 1] == values[..i] + [values[i]];
      sum := sum + values[i];
    }
    mean := sum / (count as real);
    if count < 2 {
      return mean, 0.0;
    }
    NoSums(values[..0], mean);
    var ssq := 0.0;
    for i := 0 to count
      invariant ssq == Squares(values[..i], mean)
    {
      SumsGrow(values[..i], values[i], mean);
      assert values[..i + 1] == values[..i] + [values[i]];
      var d := values[i] - mean;
      ssq := ssq + d * d;
    }
    stddev := sqrt(ssq / ((count - 1) as real));
  }

  /** Without any deviation from the mean the standard deviation is zero, so a standard
      deviation that is not tiny means that some value deviates. */
  lemma NoDeviation(s: seq<real>, sqrt: real -> real)
    requires sqrt(0.0) == 0.0
    ensures (forall i :: 0 <= i < |s| ==> s[i] == Mean(s)) ==> Stddev(s, sqrt) == 0.0
  {
    if |s| >= 2 && forall i :: 0 <= i < |s| ==> s[i] == Mean(s) {
      NoSquares(s, Mean(s));
      assert 0.0 / ((|s| - 1) as real) == 0.0;
    }
  }

  lemma {:induction false} NoSquares(s: seq<real>, m: real)
    requires forall i :: 0 <= i < |s| ==> s[i] == m
    ensures Squares(s, m) == 0.0
  {
    if s != [] {
      NoSquares(s[..|s| - 1], m);
    }
  }

  // ---------------------------------------------------------------- the furthest value

  /** The first index with the greatest deviation from m. */
  function Furthest(s: seq<real>, m: real): (f: nat)
    requires s != []
    ensures f < |s|
  {
    if |s| == 1 then 0
    else
      var init := s[..|s| - 1];
      var g := Furthest(init, m);
      if Abs(s[|s| - 1] - m) > Abs(s[g] - m) then |s| - 1 else g
  }

  lemma {:induction false} FurthestDeviates(s: seq<real>, m: real)
    requires s != []
    ensures forall i :: 0 <= i < |s| ==> Abs(s[i] - m) <= Abs(s[Furthest(s, m)] - m)
    ensures forall i :: 0 <= i < Furthest(s, m) ==> Abs(s[i] - m) < Abs(s[Furthest(s, m)] - m)
  {
    hide Abs;
    if |s| > 1 {
      var init := s[..|s| - 1];
      FurthestDeviates(init, m);
      assert forall i :: 0 <= i < |init| ==> s[i] == init[i];
    }
  }

  lemma NextFurthest(s: seq<real>, m: real)
    requires s != []
    ensures |s| == 1 ==> Furthest(s, m) == 0
    ensures |s| > 1 ==>
      var g := Furthest(s[..|s| - 1], m);
      Furthest(s, m) == if Abs(s[|s| - 1] - m) > Abs(s[g] - m) then |s| - 1 else g
  {
    hide Abs;
    if |s| > 1 {
      var init := s[..|s| - 1];
      assert s[Furthest(init, m)] == init[Furthest(init, m)];
    }
  }

  lemma FirstDeviation(s: seq<real>, m: real)
    requires s != []
    ensures (forall i :: 0 <= i < |s| - 1 ==> s[i] == m) && s[|s| - 1] != m ==> Furthest(s, m) == |s| - 1
  {
    hide Furthest;
    FurthestDeviates(s, m);
    assert Abs(s[|s| - 1] - m) <= Abs(s[Furthest(s, m)] - m);
  }

  /** The scan of the program, which starts from a deviation of zero and no index: when some
      value deviates it ends at a valid index. */
  method FindFurthest(sorted: array<real>, r: nat, mean: real) returns (maxDev: real, maxIdx: int)
    requires 1 <= r <= sorted.Length
    ensures maxIdx == -1 <==> forall i :: 0 <= i < r ==> sorted[i] == mean
    ensures maxIdx != -1 ==> maxIdx == Furthest(sorted[..r], mean) && maxDev == Abs(sorted[maxIdx] - mean)
  {
    hide Furthest;
    maxDev, maxIdx := 0.0, -1;
    for i := 0 to r
      invariant maxIdx == -1 <==> forall k :: 0 <= k < i ==> sorted[k] == mean
      invariant maxIdx == -1 ==> maxDev == 0.0
      invariant maxIdx != -1 ==> i > 0 && maxIdx == Furthest(sorted[..i], mean) && maxDev == Abs(sorted[maxIdx] - mean)
    {
      var dev := Abs(sorted[i] - mean);
      NextFurthest(sorted[..i + 1], mean);
      FirstDeviation(sorted[..i + 1], mean);
      assert i > 0 ==> sorted[..i + 1][..i] == sorted[..i];
      if dev > maxDev {
        maxDev, maxIdx := dev, i;
      }
    }
  }

  // ---------------------------------------------------------------- what is removed

  /** The test of one round: there is spread, and the studentised deviation of the furthest
      value exceeds the critical value for this many values. */
  predicate Exceeds(s: seq<real>, sqrt: real -> real, crit: nat -> real)
    requires s != []
  {
    && Stddev(s, sqrt) >= TINY
    && Abs(s[Furthest(s, Mean(s))] - Mean(s)) / Stddev(s, sqrt) > crit(|s|)
  }

  function Without(w: seq<Tagged>, f: nat): (r: seq<Tagged>)
    requires f < |w|
    ensures |r| == |w| - 1
  {
    w[..f] + w[f + 1..]
  }

  function FurthestIndex(w: seq<Tagged>): (f: nat)
    requires w != []
    ensures f < |w|
  {
    Furthest(Values(w), Mean(Values(w)))
  }

  /** The entry of that index lies furthest from the mean of all values, and is the first to. */
  lemma FurthestIndexDeviates(w: seq<Tagged>)
    requires w != []
    ensures var m, f := Mean(Values(w)), FurthestIndex(w);
      && (forall i :: 0 <= i < |w| ==> Abs(w[i].value - m) <= Abs(w[f].value - m))
      && (forall i :: 0 <= i < f ==> Abs(w[i].value - m) < Abs(w[f].value - m))
  {
    hide Abs, Mean, Furthest;
    FurthestDeviates(Values(w), Mean(Values(w)));
    assert forall i :: 0 <= i < |w| ==> Values(w)[i] == w[i].value;
  }

  /** x is an entry of w, and none lies further from the mean. */
  ghost predicate Extreme(x: Tagged, w: seq<Tagged>) {
    x in w && forall t :: t in w ==> Abs(t.value - Mean(Values(w))) <= Abs(x.value - Mean(Values(w)))
  }

  lemma FurthestEntry(w: seq<Tagged>)
    requires w != []
    ensures Extreme(w[FurthestIndex(w)], w)
  {
    hide Abs, Mean, FurthestIndex, Values;
    FurthestIndexDeviates(w);
  }

  /** The studentised deviation of t within w exceeds the critical value. */
  predicate BeyondCritical(t: Tagged, w: seq<Tagged>, sqrt: real -> real, crit: nat -> real)
    requires Stddev(Values(w), sqrt) >= 0.0000000001
  {
    Abs(t.value - Mean(Values(w))) / Stddev(Values(w), sqrt) > crit(|w|)
  }

  ghost predicate SomeBeyond(w: seq<Tagged>, sqrt: real -> real, crit: nat -> real) {
    Stddev(Values(w), sqrt) >= 0.0000000001 && exists t :: t in w && BeyondCritical(t, w, sqrt, crit)
  }

  /** A round exceeds when there is spread and some value lies beyond the critical value. */
  lemma ExceedsWhen(w: seq<Tagged>, sqrt: real -> real, crit: nat -> real)
    requires w != []
    ensures Exceeds(Values(w), sqrt, crit) <==> SomeBeyond(w, sqrt, crit)
  {
    hide Abs, Mean, Stddev, Furthest;
    FurthestIndexDeviates(w);
    var m, d, x := Mean(Values(w)), Stddev(Values(w), sqrt), w[FurthestIndex(w)];
    assert Values(w)[FurthestIndex(w)] == x.value && x in w;
    if d >= TINY {
      forall t | t in w ensures Abs(t.value - m) / d <= Abs(x.value - m) / d {
        RatioMonotone(Abs(t.value - m), Abs(x.value - m), d);
      }
      assert Exceeds(Values(w), sqrt, crit) <==> BeyondCritical(x, w, sqrt, crit);
    }
  }

  lemma RatioMonotone(a: real, b: real, d: real)
    requires d > 0.0 && a <= b
    ensures a / d <= b / d
  {
  }

  /** The entries removed from w in at most budget rounds, in order of removal. */
  function Peel(w: seq<Tagged>, budget: nat, sqrt: real -> real, crit: nat -> real): seq<Tagged>
    decreases budget
  {
    if budget == 0 || |w| <= 2 || !Exceeds(Values(w), sqrt, crit) then []
    else
      [w[FurthestIndex(w)]] + Peel(Without(w, FurthestIndex(w)), budget - 1, sqrt, crit)
  }

  /** The count of the generalized test as its author defines it: rounds go on whether or not a
      value exceeds, and the last round that does decides. */
  function GeneralizedCount(w: seq<Tagged>, budget: nat, sqrt: real -> real, crit: nat -> real): nat
    decreases budget
  {
    if budget == 0 || |w| <= 2 || Stddev(Values(w), sqrt) < TINY then 0
    else
      var later := GeneralizedCount(Without(w, FurthestIndex(w)), budget - 1, sqrt, crit);
      if later > 0 then later + 1 else if Exceeds(Values(w), sqrt, crit) then 1 else 0
  }

  /** What is in play after j rounds that each take out the furthest value, exceeding or not. */
  function AfterRounds(w: seq<Tagged>, j: nat): (r: seq<Tagged>)
    requires j <= |w|
    ensures |r| == |w| - j
  {
    if j == 0 then w else AfterRounds(Without(w, FurthestIndex(w)), j - 1)
  }

  /** Rounds up to j are within the budget and find more than two values with some spread. */
  predicate Reached(w: seq<Tagged>, budget: nat, j: nat, sqrt: real -> real) {
    && j < budget && j + 2 < |w|
    && forall i: nat :: i <= j ==> Stddev(Values(AfterRounds(w, i)), sqrt) >= 0.0000000001
  }

  /** Round j of the input exceeds: a fact about the values alone, whatever earlier rounds found. */
  predicate RoundExceeds(w: seq<Tagged>, budget: nat, j: nat, sqrt: real -> real, crit: nat -> real) {
    Reached(w, budget, j, sqrt) && Exceeds(Values(AfterRounds(w, j)), sqrt, crit)
  }

  lemma FirstRound(w: seq<Tagged>, budget: nat, sqrt: real -> real, crit: nat -> real)
    ensures RoundExceeds(w, budget, 0, sqrt, crit) <==> budget > 0 && |w| > 2 && Exceeds(Values(w), sqrt, crit)
  {
    hide Stddev, Furthest, Mean;
    assert AfterRounds(w, 0) == w;
  }

  /** Round j + 1 is round j of what the first round leaves, provided that there is a first round. */
  lemma LaterRound(w: seq<Tagged>, budget: nat, j: nat, sqrt: real -> real, crit: nat -> real)
    requires budget > 0 && |w| > 2 && Stddev(Values(w), sqrt) >= TINY
    ensures RoundExceeds(w, budget, j + 1, sqrt, crit)
       <==> RoundExceeds(Without(w, FurthestIndex(w)), budget - 1, j, sqrt, crit)
  {
    hide Stddev, Furthest, Mean, Exceeds, Without, FurthestIndex, Values;
    var w' := Without(w, FurthestIndex(w));
    assert forall i: nat :: i < |w| ==> AfterRounds(w, i + 1) == AfterRounds(w', i);
    if Reached(w, budget, j + 1, sqrt) {
      forall i: nat | i <= j ensures Stddev(Values(AfterRounds(w', i)), sqrt) >= TINY {
        assert Stddev(Values(AfterRounds(w, i + 1)), sqrt) >= TINY;
      }
    }
    if Reached(w', budget - 1, j, sqrt) {
      forall i: nat | i <= j + 1 ensures Stddev(Values(AfterRounds(w, i)), sqrt) >= TINY {
        assert i > 0 ==> AfterRounds(w, i) == AfterRounds(w', i - 1);
      }
    }
  }

  lemma NoRounds(w: seq<Tagged>, budget: nat, sqrt: real -> real, crit: nat -> real)
    requires budget == 0 || |w| <= 2 || Stddev(Values(w), sqrt) < TINY
    ensures forall j: nat :: !RoundExceeds(w, budget, j, sqrt, crit)
  {
    hide Stddev, Values, Exceeds;
    assert AfterRounds(w, 0) == w;
  }

  /** The program removes as many values as rounds exceed before the first that does not. */
  lemma {:induction false} FirstMiss(w: seq<Tagged>, budget: nat, sqrt: real -> real, crit: nat -> real)
    ensures var p := |Peel(w, budget, sqrt, crit)|;
      && (forall j: nat :: j < p ==> RoundExceeds(w, budget, j, sqrt, crit))
      && !RoundExceeds(w, budget, p, sqrt, crit)
    decreases budget
  {
    hide FurthestIndex, Without, Values, Stddev, Mean, Furthest, RoundExceeds;
    FirstRound(w, budget, sqrt, crit);
    if budget > 0 && |w| > 2 && Exceeds(Values(w), sqrt, crit) {
      var w' := Without(w, FurthestIndex(w));
      FirstMiss(w', budget - 1, sqrt, crit);
      var p := |Peel(w', budget - 1, sqrt, crit)|;
      LaterRound(w, budget, p, sqrt, crit);
      forall j: nat | j < p + 1 ensures RoundExceeds(w, budget, j, sqrt, crit) {
        if j > 0 {
          LaterRound(w, budget, j - 1, sqrt, crit);
        }
      }
    }
  }

  /** The generalized test counts up to the last round that exceeds. */
  lemma {:induction false} LastHit(w: seq<Tagged>, budget: nat, sqrt: real -> real, crit: nat -> real)
    ensures var g := GeneralizedCount(w, budget, sqrt, crit);
      && (g > 0 ==> RoundExceeds(w, budget, g - 1, sqrt, crit))
      && (forall j: nat :: g <= j ==> !RoundExceeds(w, budget, j, sqrt, crit))
    decreases budget
  {
    hide FurthestIndex, Without, Values, Stddev, Mean, Furthest, RoundExceeds, Exceeds;
    if budget == 0 || |w| <= 2 || Stddev(Values(w), sqrt) < TINY {
      NoRounds(w, budget, sqrt, crit);
    } else {
      var w' := Without(w, FurthestIndex(w));
      var later := GeneralizedCount(w', budget - 1, sqrt, crit);
      FirstRound(w, budget, sqrt, crit);
      LastHit(w', budget - 1, sqrt, crit);
      if later > 0 {
        LaterRound(w, budget, later - 1, sqrt, crit);
      }
      forall j: nat | later < j ensures !RoundExceeds(w, budget, j, sqrt, crit) {
        LaterRound(w, budget, j - 1, sqrt, crit);
      }
    }
  }

  /** Each of those rounds takes out one entry, and none in play lies further from their mean. */
  lemma {:induction false} NextRound(w: seq<Tagged>, j: nat) returns (x: Tagged)
    requires j < |w|
    ensures Extreme(x, AfterRounds(w, j))
    ensures multiset(AfterRounds(w, j)) == multiset(AfterRounds(w, j + 1)) + multiset{x}
    decreases j
  {
    hide Extreme, FurthestIndex, Without;
    if j == 0 {
      x := w[FurthestIndex(w)];
      FurthestEntry(w);
      WithoutCounts(w, FurthestIndex(w));
      assert AfterRounds(Without(w, FurthestIndex(w)), 0) == Without(w, FurthestIndex(w));
    } else {
      x := NextRound(Without(w, FurthestIndex(w)), j - 1);
    }
  }

  lemma WithoutCounts(w: seq<Tagged>, f: nat)
    requires f < |w|
    ensures multiset(w) == multiset(Without(w, f)) + multiset{w[f]}
  {
    TakeOut(w, f);
  }

  /** A round exceeds when it is reached and some value then in play is beyond the critical value. */
  lemma RoundExceedsWhen(w: seq<Tagged>, budget: nat, j: nat, sqrt: real -> real, crit: nat -> real)
    ensures RoundExceeds(w, budget, j, sqrt, crit) <==>
      Reached(w, budget, j, sqrt) && SomeBeyond(AfterRounds(w, j), sqrt, crit)
  {
    hide Exceeds, SomeBeyond, FurthestIndex, Without;
    if j < |w| {
      ExceedsWhen(AfterRounds(w, j), sqrt, crit);
    }
  }

  /** The k-th entry that the program removes: the round exceeds, no entry in play lies further
      from the mean, and in play is everything that was not removed before. */
  lemma {:induction false} PeelEntry(w: seq<Tagged>, budget: nat, k: nat, sqrt: real -> real, crit: nat -> real)
    requires k < |Peel(w, budget, sqrt, crit)|
    ensures k + 2 < |w| && k < budget && RoundExceeds(w, budget, k, sqrt, crit)
    ensures Extreme(Peel(w, budget, sqrt, crit)[k], AfterRounds(w, k))
    ensures multiset(w) == multiset(AfterRounds(w, k)) + multiset(Peel(w, budget, sqrt, crit)[..k])
    decreases budget
  {
    hide Extreme, FurthestIndex, Without, Exceeds, RoundExceeds;
    FirstMiss(w, budget, sqrt, crit);
    var f, p := FurthestIndex(w), Peel(w, budget, sqrt, crit);
    PeelStep(w, budget, sqrt, crit);
    var w', p' := Without(w, f), Peel(Without(w, f), budget - 1, sqrt, crit);
    if k == 0 {
      FurthestEntry(w);
      assert p[..0] == [];
    } else {
      PeelEntry(w', budget - 1, k - 1, sqrt, crit);
      WithoutCounts(w, f);
      assert p[..k] == [w[f]] + p'[..k - 1];
    }
  }

  /** Every round before one that exceeds exceeds as well. */
  ghost predicate NoMasking(w: seq<Tagged>, budget: nat, sqrt: real -> real, crit: nat -> real) {
    forall i: nat, j: nat :: i < j && RoundExceeds(w, budget, j, sqrt, crit) ==> RoundExceeds(w, budget, i, sqrt, crit)
  }

  /** The program stops at the first round that does not exceed. It never removes more than the
      generalized test, and removes as many exactly when no value masks another: on inputs where
      no round that exceeds comes after one that does not. */
  lemma StopsAtFirstMiss(w: seq<Tagged>, budget: nat, sqrt: real -> real, crit: nat -> real)
    ensures var p, g := |Peel(w, budget, sqrt, crit)|, GeneralizedCount(w, budget, sqrt, crit);
      && p <= g <= budget
      && (p == g <==> NoMasking(w, budget, sqrt, crit))
  {
    hide RoundExceeds, Peel, GeneralizedCount;
    FirstMiss(w, budget, sqrt, crit);
    LastHit(w, budget, sqrt, crit);
    var p, g := |Peel(w, budget, sqrt, crit)|, GeneralizedCount(w, budget, sqrt, crit);
    if g > 0 {
      WithinBudget(w, budget, g - 1, sqrt, crit);
    }
    if p > 0 {
      assert RoundExceeds(w, budget, p - 1, sqrt, crit);
    }
    if p < g {
      assert RoundExceeds(w, budget, g - 1, sqrt, crit) && !RoundExceeds(w, budget, p, sqrt, crit);
    }
  }

  lemma WithinBudget(w: seq<Tagged>, budget: nat, j: nat, sqrt: real -> real, crit: nat -> real)
    requires RoundExceeds(w, budget, j, sqrt, crit)
    ensures j < budget
  {
  }

  /** Two equal outliers that mask each other: neither exceeds beside the other, so the program
      removes nothing, while the second round of the generalized test exceeds. */
  lemma MaskedPair(sqrt: real -> real, crit: nat -> real)
    requires sqrt(80.0 / 3.0) >= 0.0 && sqrt(80.0 / 3.0) * sqrt(80.0 / 3.0) == 80.0 / 3.0
    requires sqrt(20.0) >= 0.0 && sqrt(20.0) * sqrt(20.0) == 20.0
    requires crit(6) >= 1.3 && crit(5) <= 1.78
    ensures var values := [0.0, 0.0, 0.0, 0.0, 10.0, 10.0];
      var w := Zip(values, seq(6, i => i));
      && SortedEntries(w, values)
      && Peel(w, 2, sqrt, crit) == [] && GeneralizedCount(w, 2, sqrt, crit) == 2
  {
    hide Total, Squares, Stddev, Furthest, Mean, Exceeds;
    var values := [0.0, 0.0, 0.0, 0.0, 10.0, 10.0];
    var w := Zip(values, seq(6, i => i));
    assert Values(w) == values;
    PairTogether(sqrt, crit);
    var w' := Without(w, FurthestIndex(w));
    assert Values(w') == [0.0, 0.0, 0.0, 0.0, 10.0];
    PairApart(sqrt, crit);
    hide Without, Values, FurthestIndex;
    assert GeneralizedCount(w', 1, sqrt, crit) == 1 by {
      assert GeneralizedCount(Without(w', FurthestIndex(w')), 0, sqrt, crit) == 0;
    }
  }

  lemma MomentsOf(s: seq<real>, m: real, sqrt: real -> real)
    requires |s| >= 2 && Total(s) / (|s| as real) == m
    ensures Mean(s) == m && Stddev(s, sqrt) == sqrt(Squares(s, m) / ((|s| - 1) as real))
  {
  }

  lemma SumsOfFive(m: real)
    ensures var s := [0.0, 0.0, 0.0, 0.0, 10.0];
      Total(s) == 10.0 && Squares(s, m) == 4.0 * (m * m) + (10.0 - m) * (10.0 - m)
  {
    hide Total, Squares;
    NoSums([], m);
    var one, two := [] + [0.0], [] + [0.0] + [0.0];
    var three, four := two + [0.0], two + [0.0] + [0.0];
    SumsGrow([], 0.0, m);
    SumsGrow(one, 0.0, m);
    SumsGrow(two, 0.0, m);
    SumsGrow(three, 0.0, m);
    SumsGrow(four, 10.0, m);
    assert four + [10.0] == [0.0, 0.0, 0.0, 0.0, 10.0];
    assert (0.0 - m) * (0.0 - m) == m * m;
  }

  /** Both outliers in play: the first of them is the furthest and does not exceed. */
  lemma PairTogether(sqrt: real -> real, crit: nat -> real)
    requires sqrt(80.0 / 3.0) >= 0.0 && sqrt(80.0 / 3.0) * sqrt(80.0 / 3.0) == 80.0 / 3.0 && crit(6) >= 1.3
    ensures var s := [0.0, 0.0, 0.0, 0.0, 10.0, 10.0];
      && Furthest(s, Mean(s)) == 4 && Stddev(s, sqrt) >= TINY && !Exceeds(s, sqrt, crit)
  {
    hide Total, Squares;
    var s, m := [0.0, 0.0, 0.0, 0.0, 10.0, 10.0], 10.0 / 3.0;
    SumsOfFive(m);
    SumsGrow([0.0, 0.0, 0.0, 0.0, 10.0], 10.0, m);
    assert [0.0, 0.0, 0.0, 0.0, 10.0] + [10.0] == s;
    MomentsOf(s, m, sqrt);
    assert Stddev(s, sqrt) == sqrt(80.0 / 3.0);
    hide Stddev, Mean, Furthest;
    FurthestDeviates(s, m);
    assert Abs(s[0] - m) == m && Abs(s[4] - m) == 2.0 * m;
    RootBetween(sqrt(80.0 / 3.0), 5.15, 6.0);
    RatioAtMost(2.0 * m, sqrt(80.0 / 3.0), 1.3);
  }

  /** One of them left: it is the furthest and exceeds. */
  lemma PairApart(sqrt: real -> real, crit: nat -> real)
    requires sqrt(20.0) >= 0.0 && sqrt(20.0) * sqrt(20.0) == 20.0 && crit(5) <= 1.78
    ensures var s := [0.0, 0.0, 0.0, 0.0, 10.0]; Stddev(s, sqrt) >= TINY && Exceeds(s, sqrt, crit)
  {
    hide Total, Squares;
    var s, m := [0.0, 0.0, 0.0, 0.0, 10.0], 2.0;
    SumsOfFive(m);
    MomentsOf(s, m, sqrt);
    assert Stddev(s, sqrt) == sqrt(20.0);
    hide Stddev, Mean, Furthest;
    FurthestDeviates(s, m);
    assert Abs(s[0] - m) == 2.0 && Abs(s[4] - m) == 8.0;
    RootBetween(sqrt(20.0), 4.0, 4.49);
    RatioAbove(8.0, sqrt(20.0), 1.78);
  }

  lemma RootBetween(r: real, x: real, y: real)
    requires r >= 0.0 && x >= 0.0 && y >= 0.0 && x * x <= r * r <= y * y
    ensures x <= r <= y
  {
    SquareOrder(r, x);
    SquareOrder(y, r);
  }

  lemma SquareOrder(r: real, x: real)
    requires r >= 0.0 && x >= 0.0 && r * r >= x * x
    ensures r >= x
  {
    if r < x {
      SmallerSquare(r, x);
    }
  }

  lemma SmallerSquare(r: real, x: real)
    requires 0.0 <= r < x
    ensures r * r < x * x
  {
    var d := x - r;
    assert d * d > 0.0 && d * r >= 0.0;
    assert x * x == r * r + 2.0 * (d * r) + d * d;
  }

  lemma RatioAtMost(d: real, r: real, x: real)
    requires r > 0.0 && d <= x * r
    ensures d / r <= x
  {
    assert d / r * r == d;
  }

  lemma RatioAbove(d: real, r: real, x: real)
    requires r > 0.0 && d > x * r
    ensures d / r > x
  {
    assert d / r * r == d;
  }

  /** x lies at or outside the range of the values of w. */
  ghost predicate Outside(x: real, w: seq<Tagged>) {
    || (forall t :: t in w ==> x <= t.value)
    || (forall t :: t in w ==> t.value <= x)
  }

  /** The furthest value from any centre is an extreme one. */
  lemma FurthestIsExtreme(w: seq<Tagged>, m: real)
    requires w != []
    ensures var f := Furthest(Values(w), m); Outside(w[f].value, Without(w, f))
  {
    var s, f := Values(w), Furthest(Values(w), m);
    FurthestDeviates(s, m);
    forall t | t in Without(w, f) ensures if w[f].value >= m then t.value <= w[f].value else w[f].value <= t.value {
      var i :| 0 <= i < |w| && w[i] == t;
      assert Abs(s[i] - m) <= Abs(s[f] - m);
    }
  }

  // ---------------------------------------------------------------- the program

  function Truth(): bool -> int {
    (b: bool) => if b then 1 else 0
  }

  /** The number of masked entries. */
  function Masked(mask: seq<bool>): int {
    Sum(mask, Truth())
  }

  lemma MaskOneMore(mask: seq<bool>, i: nat)
    requires i < |mask| && !mask[i]
    ensures Masked(mask[i := true]) == Masked(mask) + 1
  {
    hide Sum;
    var marked := mask[i := true];
    assert marked[..i] == mask[..i] && marked[i + 1..] == mask[i + 1..];
    SumWithout(mask, i, Truth());
    SumWithout(marked, i, Truth());
  }

  lemma {:induction false} MaskNothing(mask: seq<bool>)
    requires forall i :: 0 <= i < |mask| ==> !mask[i]
    ensures Masked(mask) == 0
  {
    if mask != [] {
      MaskNothing(mask[..|mask| - 1]);
    }
  }

  /** The entries of w are values with their own distinct indices. */
  ghost predicate Indexed(w: seq<Tagged>, values: seq<real>) {
    && (forall t :: t in w ==> t.tag < |values| && values[t.tag] == t.value)
    && (forall i, j :: 0 <= i < j < |w| ==> w[i].tag != w[j].tag)
  }

  /** The state between two rounds: w, in ascending order, is what is still in play. */
  ghost predicate Between(values: seq<real>, mask: seq<bool>, w: seq<Tagged>, gone: seq<Tagged>)
    requires |mask| == |values|
  {
    && Indexed(w, values) && Ascending(Values(w))
    && (forall i :: 0 <= i < |values| && !mask[i] ==> Tagged(values[i], i) in w)
    && (forall t :: t in w ==> t.tag < |mask| && !mask[t.tag])
    && (forall i :: 0 <= i < |values| ==> (mask[i] <==> Tagged(values[i], i) in gone))
    && (forall i :: 0 <= i < |values| && mask[i] ==> Outside(values[i], w))
    && Masked(mask) == |gone| && |w| + |gone| == |values|
  }

  lemma RemoveKeepsBetween(values: seq<real>, mask: seq<bool>, w: seq<Tagged>, gone: seq<Tagged>, m: real)
    requires |mask| == |values| && w != [] && Between(values, mask, w, gone)
    ensures var f := Furthest(Values(w), m); w[f] in w && w[f].tag < |mask|
    ensures var f := Furthest(Values(w), m);
      Between(values, mask[w[f].tag := true], Without(w, f), gone + [w[f]])
  {
    hide Masked, Furthest, Outside;
    var f := Furthest(Values(w), m);
    WithoutAscends(w, f);
    assert w[f] in w;
    MaskOneMore(mask, w[f].tag);
    FurthestIsExtreme(w, m);
    WithoutElements(w, f, values);
    forall i | 0 <= i < |values| && mask[i] ensures Outside(values[i], Without(w, f)) {
      OutsideFewer(values[i], w, Without(w, f));
    }
  }

  lemma OutsideFewer(x: real, w: seq<Tagged>, w': seq<Tagged>)
    requires Outside(x, w) && forall t :: t in w' ==> t in w
    ensures Outside(x, w')
  {
  }

  lemma WithoutAscends(w: seq<Tagged>, f: nat)
    requires f < |w| && Ascending(Values(w))
    ensures Ascending(Values(Without(w, f)))
  {
    var s, r := Values(w), Values(Without(w, f));
    assert forall i :: 0 <= i < |r| ==> r[i] == s[if i < f then i else i + 1];
  }

  lemma WithoutElements(w: seq<Tagged>, f: nat, values: seq<real>)
    requires f < |w| && Indexed(w, values)
    ensures Indexed(Without(w, f), values)
    ensures forall x :: x in Without(w, f) <==> x in w && x.tag != w[f].tag
  {
    var w' := Without(w, f);
    assert forall i :: 0 <= i < |w'| ==> w'[i] == w[if i < f then i else i + 1];
    forall x | x in w && x.tag != w[f].tag ensures x in w' {
      var k :| 0 <= k < |w| && w[k] == x;
      assert w'[if k < f then k else k - 1] == x;
    }
  }

  lemma StartBetween(values: seq<real>, mask: seq<bool>, w: seq<Tagged>, indices: seq<nat>)
    requires |mask| == |values| == |indices| && forall i :: 0 <= i < |mask| ==> !mask[i] && indices[i] == i
    requires SortedEntries(w, values)
    ensures Between(values, mask, w, [])
  {
    var z := Zip(values, indices);
    assert indices == seq(|values|, i => i);
    DistinctPermutes(z, w);
    MaskNothing(mask);
    assert |w| == |multiset(w)| == |multiset(z)| == |z|;
    forall t | t in w ensures t in z {
      assert t in multiset(w);
    }
    forall i | 0 <= i < |values| ensures Tagged(values[i], i) in w {
      assert z[i] == Tagged(values[i], i);
      assert z[i] in multiset(z);
    }
  }

  /** w lists the values with their indices, in ascending order of the values. */
  ghost predicate SortedEntries(w: seq<Tagged>, values: seq<real>) {
    Ascending(Values(w)) && multiset(w) == multiset(Zip(values, seq(|values|, i => i)))
  }

  /** The copy of the values in ascending order, with the indices they came from. */
  method SortCopy(values: array<real>) returns (sorted: array<real>, indices: array<nat>)
    ensures fresh(sorted) && fresh(indices) && sorted as object != indices
    ensures sorted.Length == indices.Length == values.Length && Ascending(sorted[..])
    ensures SortedEntries(Pairs(sorted, indices), values[..])
  {
    var n := values.Length;
    sorted := new real[n](i requires 0 <= i < n reads values => values[i]);
    indices := new nat[n](i => i);
    assert sorted[..] == values[..] && indices[..] == seq(n, i => i);
    ExchangeSort(sorted, indices);
    assert Values(Pairs(sorted, indices)) == sorted[..];
  }

  /** Closing the gap after an entry was removed: memmove in both arrays. */
  method CloseGap(sorted: array<real>, indices: array<nat>, r: nat, f: nat)
    requires sorted as object != indices && f < r <= sorted.Length == indices.Length
    modifies sorted, indices
    ensures Zip(sorted[..r - 1], indices[..r - 1]) == Without(old(Zip(sorted[..r], indices[..r])), f)
  {
    forall i | f <= i < r - 1 {
      sorted[i] := sorted[i + 1];
    }
    forall i | f <= i < r - 1 {
      indices[i] := indices[i + 1];
    }
  }

  function Budget(maxOutliers: int): nat {
    if maxOutliers < 0 then 0 else maxOutliers
  }

  lemma MaskedIsCardinality(mask: seq<bool>)
    ensures Masked(mask) == |set i: nat | i < |mask| && mask[i]|
  {
    var q := (i: nat) => i < |mask| && mask[i];
    SumIsCardinality(mask, Truth(), q);
    assert Indices(|mask|, q) == set i: nat | i < |mask| && mask[i];
  }

  ghost predicate MaskIs(values: seq<real>, mask: seq<bool>, gone: seq<Tagged>)
    requires |mask| == |values|
  {
    forall i :: 0 <= i < |mask| ==> (mask[i] <==> Tagged(values[i], i) in gone)
  }

  /** x lies at or outside the range of the values that are not masked. */
  ghost predicate OutsideUnmasked(values: seq<real>, mask: seq<bool>, x: real)
    requires |mask| == |values|
  {
    || (forall k :: 0 <= k < |mask| && !mask[k] ==> x <= values[k])
    || (forall k :: 0 <= k < |mask| && !mask[k] ==> values[k] <= x)
  }

  lemma PeelStep(w: seq<Tagged>, budget: nat, sqrt: real -> real, crit: nat -> real)
    ensures budget == 0 || |w| <= 2 || !Exceeds(Values(w), sqrt, crit) ==> Peel(w, budget, sqrt, crit) == []
    ensures budget > 0 && |w| > 2 && Exceeds(Values(w), sqrt, crit) ==>
      var f := FurthestIndex(w);
      Peel(w, budget, sqrt, crit) == [w[f]] + Peel(Without(w, f), budget - 1, sqrt, crit)
  {
  }

  /** stats_detect_outliers on all of values: the mask is exactly the set of entries that Peel
      removes from the sorted entries. */
  method DetectOutliers(values: array<real>, maxOutliers: int, sqrt: real -> real, crit: nat -> real)
    returns (mask: array<bool>)
    requires sqrt(0.0) == 0.0
    ensures fresh(mask) && mask.Length == values.Length
    ensures values.Length < 3 ==> forall i :: 0 <= i < mask.Length ==> !mask[i]
    ensures values.Length >= 3 ==> exists w: seq<Tagged> ::
      && SortedEntries(w, values[..])
      && MaskIs(values[..], mask[..], Peel(w, if maxOutliers < 0 then 0 else maxOutliers, sqrt, crit))
    ensures |set i: nat | i < mask.Length && mask[i]| <= if maxOutliers < 0 then 0 else maxOutliers
    ensures values.Length >= 3 ==> |set i: nat | i < mask.Length && mask[i]| + 2 <= values.Length
    ensures forall i :: 0 <= i < mask.Length && mask[i] ==> OutsideUnmasked(values[..], mask[..], values[i])
  {
    hide Peel, Between, Masked, Furthest, Stddev, Mean, Without, Values, Exceeds;
    hide SortedEntries, MaskIs, OutsideUnmasked;
    var count := values.Length;
    mask := new bool[count](_ => false);
    MaskNothing(mask[..]);
    if count < 3 {
      MaskedIsCardinality(mask[..]);
      assert (set i: nat | i < mask.Length && mask[i]) == set i: nat | i < |mask[..]| && mask[..][i];
      return;
    }
    var sorted, indices := SortCopy(values);
    ghost var w0 := Pairs(sorted, indices);
    StartBetween(values[..], mask[..], w0, seq(count, i => i));
    ghost var gone := Rounds(values[..], mask, sorted, indices, maxOutliers, sqrt, crit);
    MaskedIsCardinality(mask[..]);
    assert (set i: nat | i < mask.Length && mask[i]) == set i: nat | i < |mask[..]| && mask[..][i];
    assert SortedEntries(w0, values[..]) && MaskIs(values[..], mask[..], Peel(w0, Budget(maxOutliers), sqrt, crit));
  }

  /** The main loop, from the sorted entries and an empty mask. */
  method Rounds(values: seq<real>, mask: array<bool>, sorted: array<real>, indices: array<nat>,
                maxOutliers: int, sqrt: real -> real, crit: nat -> real) returns (ghost gone: seq<Tagged>)
    requires sqrt(0.0) == 0.0
    requires sorted as object != indices && mask as object != sorted && mask as object != indices
    requires 3 <= mask.Length == |values| == sorted.Length == indices.Length
    requires Between(values, mask[..], Pairs(sorted, indices), [])
    modifies mask, sorted, indices
    ensures gone == Peel(old(Pairs(sorted, indices)), Budget(maxOutliers), sqrt, crit)
    ensures |gone| <= Budget(maxOutliers) && |gone| + 2 <= |values|
    ensures MaskIs(values, mask[..], gone) && Masked(mask[..]) == |gone|
    ensures forall i :: 0 <= i < mask.Length && mask[i] ==> OutsideUnmasked(values, mask[..], values[i])
  {
    hide Peel, Between, Masked, Stddev, Mean, Without, Values, MaskIs, OutsideUnmasked, Exceeds, FurthestIndex;
    ghost var w0 := Pairs(sorted, indices);
    var k, r := 0, |values|;
    gone := [];
    assert sorted[..r] == sorted[..] && indices[..r] == indices[..];
    while k < maxOutliers && r > 2
      invariant 0 <= k && r == |values| - k >= 2 && (k == 0 || k <= maxOutliers)
      invariant Between(values, mask[..], Zip(sorted[..r], indices[..r]), gone)
      invariant gone + Peel(Zip(sorted[..r], indices[..r]), Budget(maxOutliers) - k, sqrt, crit)
             == Peel(w0, Budget(maxOutliers), sqrt, crit)
      invariant |gone| == k
      decreases r
    {
      ghost var w := Zip(sorted[..r], indices[..r]);
      PeelStep(w, Budget(maxOutliers) - k, sqrt, crit);
      var removed := Round(values, mask, sorted, indices, r, sqrt, crit, gone);
      if !removed {
        assert gone + [] == gone;
        break;
      }
      gone := gone + [w[FurthestIndex(w)]];
      k, r := k + 1, r - 1;
    }
    PeelStep(Zip(sorted[..r], indices[..r]), Budget(maxOutliers) - k, sqrt, crit);
    assert gone == Peel(w0, Budget(maxOutliers), sqrt, crit);
    FinishedMask(values, mask[..], Zip(sorted[..r], indices[..r]), gone);
  }

  lemma FinishedMask(values: seq<real>, mask: seq<bool>, w: seq<Tagged>, gone: seq<Tagged>)
    requires |mask| == |values| && Between(values, mask, w, gone)
    ensures MaskIs(values, mask, gone) && Masked(mask) == |gone|
    ensures forall i :: 0 <= i < |mask| && mask[i] ==> OutsideUnmasked(values, mask, values[i])
  {
    hide Masked;
    forall i | 0 <= i < |mask| && mask[i] ensures OutsideUnmasked(values, mask, values[i]) {
      assert Outside(values[i], w);
      assert forall k :: 0 <= k < |mask| && !mask[k] ==> Tagged(values[k], k) in w;
    }
  }

  /** Exactly one more value is masked, and none in play lies further from their mean. */
  ghost predicate MasksExtreme(values: seq<real>, before: seq<bool>, after: seq<bool>, w: seq<Tagged>)
    requires |before| == |values|
  {
    exists i: nat :: i < |values| && !before[i] && after == before[i := true] && Extreme(Tagged(values[i], i), w)
  }

  lemma MaskFurthest(values: seq<real>, mask: seq<bool>, w: seq<Tagged>, gone: seq<Tagged>)
    requires |mask| == |values| && w != [] && Between(values, mask, w, gone)
    ensures var x := w[FurthestIndex(w)];
      x.tag < |mask| && MasksExtreme(values, mask, mask[x.tag := true], w)
  {
    hide Masked, FurthestIndex, Values, Outside;
    var x := w[FurthestIndex(w)];
    assert x in w;
    FurthestEntry(w);
    assert x == Tagged(values[x.tag], x.tag) && !mask[x.tag];
  }

  lemma InPlayAscends(values: seq<real>, mask: seq<bool>, w: seq<Tagged>, gone: seq<Tagged>)
    requires |mask| == |values| && Between(values, mask, w, gone)
    ensures Ascending(Values(w))
  {
  }

  /** Masking the furthest value and taking it out of both arrays. */
  method RemoveFurthest(values: seq<real>, mask: array<bool>, sorted: array<real>, indices: array<nat>,
                        r: nat, f: nat, ghost gone: seq<Tagged>)
    requires sorted as object != indices && mask as object != sorted && mask as object != indices
    requires mask.Length == |values| == sorted.Length == indices.Length && 1 <= r <= |values|
    requires Between(values, mask[..], Zip(sorted[..r], indices[..r]), gone)
    requires f == FurthestIndex(Zip(sorted[..r], indices[..r]))
    modifies mask, sorted, indices
    ensures Ascending(sorted[..r - 1])
    ensures var w := old(Zip(sorted[..r], indices[..r]));
      && MasksExtreme(values, old(mask[..]), mask[..], w)
      && Zip(sorted[..r - 1], indices[..r - 1]) == Without(w, f)
      && Between(values, mask[..], Without(w, f), gone + [w[f]])
  {
    hide Between, Furthest, Mean, MasksExtreme, Without;
    ghost var w, before := Zip(sorted[..r], indices[..r]), mask[..];
    RemoveKeepsBetween(values, before, w, gone, Mean(Values(w)));
    MaskFurthest(values, before, w, gone);
    assert indices[f] == w[f].tag;
    mask[indices[f]] := true;
    assert mask[..] == before[w[f].tag := true];
    CloseGap(sorted, indices, r, f);
    InPlayAscends(values, mask[..], Without(w, f), gone + [w[f]]);
    assert Values(Zip(sorted[..r - 1], indices[..r - 1])) == sorted[..r - 1];
  }

  /** One round of the loop: either nothing changes because the furthest value does not exceed,
      or that value is masked and taken out of play. */
  method Round(values: seq<real>, mask: array<bool>, sorted: array<real>, indices: array<nat>, r: nat,
               sqrt: real -> real, crit: nat -> real, ghost gone: seq<Tagged>) returns (removed: bool)
    requires sqrt(0.0) == 0.0
    requires sorted as object != indices && mask as object != sorted && mask as object != indices
    requires mask.Length == |values| == sorted.Length == indices.Length && 3 <= r <= |values|
    requires Between(values, mask[..], Zip(sorted[..r], indices[..r]), gone)
    modifies mask, sorted, indices
    ensures Ascending(sorted[..if removed then r - 1 else r])
    ensures var w := old(Zip(sorted[..r], indices[..r]));
      var f := FurthestIndex(w);
      && (removed <==> Exceeds(Values(w), sqrt, crit))
      && (removed <==> SomeBeyond(w, sqrt, crit))
      && (removed ==> MasksExtreme(values, old(mask[..]), mask[..], w))
      && (!removed ==> mask[..] == old(mask[..]) && Zip(sorted[..r], indices[..r]) == w)
      && (removed ==> Zip(sorted[..r - 1], indices[..r - 1]) == Without(w, f)
                      && Between(values, mask[..], Without(w, f), gone + [w[f]]))
  {
    hide Between, Furthest, Stddev, Mean, SomeBeyond, MasksExtreme;
    ghost var w := Zip(sorted[..r], indices[..r]);
    ExceedsWhen(w, sqrt, crit);
    InPlayAscends(values, mask[..], w, gone);
    assert Values(w) == sorted[..r];
    var mean, stddev := MeanStddev(sorted, r, sqrt);
    if stddev < TINY {
      return false;
    }
    NoDeviation(sorted[..r], sqrt);
    var maxDev, maxIdx := FindFurthest(sorted, r, mean);
    if maxDev / stddev > crit(r) {
      RemoveFurthest(values, mask, sorted, indices, r, maxIdx, gone);
      return true;
    }
    return false;
  }
}
