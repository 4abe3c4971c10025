/** The Benjamini-Hochberg step-up procedure. */
module FalseDiscovery {
  import opened Sorting

  function Crit(fdr: real, n: nat, k: nat): real
    requires n >= 1
  {
    fdr * (k as real) / (n as real)
  }

  /** The largest k <= bound for which at least k of the p-values are at most fdr * k / n. */
  function StepUpRank(p: seq<real>, fdr: real, bound: nat): (r: nat)
    requires bound <= |p|
    ensures r <= bound
    ensures r > 0 ==> CountAtMost(p, Crit(fdr, |p|, r)) >= r
    ensures forall k: nat :: r < k <= bound ==> CountAtMost(p, Crit(fdr, |p|, k)) < k
  {
    if bound == 0 then 0
    else if CountAtMost(p, Crit(fdr, |p|, bound)) >= bound then bound
    else StepUpRank(p, fdr, bound - 1)
  }

  /** The number of rejections of the procedure. */
  function Rejections(p: seq<real>, fdr: real): nat {
    StepUpRank(p, fdr, |p|)
  }

  /** The threshold the program arrives at: the sorted value at that rank, or its initial zero. */
  function Threshold(p: seq<real>, fdr: real): real {
    var r := Rejections(p, fdr);
    if r == 0 then 0.0 else Sorted(p)[r - 1]
  }

  /** The threshold after the first i sorted values have been compared. */
  ghost function PartialThreshold(p: seq<real>, fdr: real, i: nat): real
    requires i <= |p|
  {
    var r := StepUpRank(p, fdr, i);
    if r == 0 then 0.0 else Sorted(p)[r - 1]
  }

  lemma NextThreshold(p: seq<real>, fdr: real, i: nat)
    requires i < |p|
    ensures PartialThreshold(p, fdr, i + 1) ==
      if Sorted(p)[i] <= Crit(fdr, |p|, i + 1) then Sorted(p)[i] else PartialThreshold(p, fdr, i)
  {
    hide CountAtMost, Crit, Sorted;
    SortedAscends(p);
    CountInOrder(Sorted(p), Crit(fdr, |p|, i + 1), i + 1);
    CountsOfSorted(p, Crit(fdr, |p|, i + 1));
  }

  lemma StartThreshold(p: seq<real>, fdr: real)
    ensures PartialThreshold(p, fdr, 0) == 0.0
    ensures PartialThreshold(p, fdr, |p|) == Threshold(p, fdr)
  {
  }

  /** stats_benjamini_hochberg. */
  method BenjaminiHochberg(p: array<real>, fdr: real)
    modifies p
    ensures forall i :: 0 <= i < p.Length ==>
      p[i] == if old(p[i]) <= Threshold(old(p[..]), fdr) then old(p[i]) else -1.0
    ensures fdr >= 0.0 ==> exists r: nat :: StepsUpTo(old(p[..]), fdr, r) && Keeps(old(p[..]), p[..], fdr, r)
  {
    hide Sorted, StepUpRank, PartialThreshold, StepsUpTo, Keeps;
    ghost var was := p[..];
    StartThreshold(was, fdr);
    var n := p.Length;
    var sorted := Sorted(p[..]);
    var threshold := 0.0;
    for i := 0 to n
      invariant threshold == PartialThreshold(was, fdr, i) && p[..] == was
    {
      var crit := fdr * ((i + 1) as real) / (n as real);
      NextThreshold(was, fdr, i);
      if sorted[i] <= crit {
        threshold := sorted[i];
      }
    }
    for i := 0 to n
      invariant forall k :: 0 <= k < n ==>
        p[k] == if k < i && was[k] > threshold then -1.0 else was[k]
    {
      p[i] := if p[i] <= threshold then p[i] else -1.0;
    }
    if fdr >= 0.0 {
      KeepsRejections(was, p[..], fdr);
    }
  }

  /** Of the p-values was, exactly those on or below the line at r stay, and r of them do; the
      others become -1. */
  ghost predicate Keeps(was: seq<real>, now: seq<real>, fdr: real, r: nat)
    requires |was| == |now|
  {
    if r == 0 || was == [] then forall i :: 0 <= i < |was| ==> now[i] == -1.0
    else
      var c := fdr * (r as real) / (|was| as real);
      CountAtMost(was, c) == r && forall i :: 0 <= i < |was| ==> now[i] == if was[i] <= c then was[i] else -1.0
  }

  lemma KeepsRejections(was: seq<real>, now: seq<real>, fdr: real)
    requires fdr >= 0.0 && |was| == |now|
    requires forall i :: 0 <= i < |was| ==> now[i] == if was[i] <= Threshold(was, fdr) then was[i] else -1.0
    ensures StepsUpTo(was, fdr, Rejections(was, fdr)) && Keeps(was, now, fdr, Rejections(was, fdr))
  {
    hide CountAtMost, Threshold, Rejections, StepsUpTo;
    KeepsExactlyTheRejections(was, fdr);
    assert forall i :: 0 <= i < |was| ==> was[i] in was;
  }

  lemma CritMonotone(fdr: real, n: nat, k: nat)
    requires fdr >= 0.0 && n >= 1
    ensures Crit(fdr, n, k) <= Crit(fdr, n, k + 1) && Crit(fdr, n, k) >= 0.0
  {
    var d := n as real;
    assert fdr * ((k + 1) as real) == fdr * (k as real) + fdr;
    DivideMonotone(fdr * (k as real), fdr * ((k + 1) as real), d);
    DivideMonotone(0.0, fdr * (k as real), d);
  }

  lemma DivideMonotone(a: real, b: real, d: real)
    requires d > 0.0 && a <= b
    ensures a / d <= b / d
  {
  }

  /** At least k of the p-values lie on or below the line at k. */
  ghost predicate EnoughBelow(p: seq<real>, fdr: real, k: nat)
    requires p != []
  {
    CountAtMost(p, fdr * (k as real) / (|p| as real)) >= k
  }

  /** r is the largest rank with enough p-values on or below the line, or 0. */
  ghost predicate StepsUpTo(p: seq<real>, fdr: real, r: nat) {
    r <= |p| && (r > 0 ==> EnoughBelow(p, fdr, r)) && forall k: nat :: r < k <= |p| ==> !EnoughBelow(p, fdr, k)
  }

  lemma RankStepsUp(p: seq<real>, fdr: real)
    ensures StepsUpTo(p, fdr, Rejections(p, fdr))
  {
    hide CountAtMost, StepUpRank;
    forall k: nat | k <= |p| && p != [] ensures EnoughBelow(p, fdr, k) <==> CountAtMost(p, Crit(fdr, |p|, k)) >= k {
      LineAt(p, fdr, k);
    }
  }

  lemma LineAt(p: seq<real>, fdr: real, k: nat)
    requires p != []
    ensures Crit(fdr, |p|, k) == fdr * (k as real) / (|p| as real)
    ensures EnoughBelow(p, fdr, k) <==> CountAtMost(p, Crit(fdr, |p|, k)) >= k
  {
    hide CountAtMost;
    assert Crit(fdr, |p|, k) == fdr * (k as real) / (|p| as real);
  }

  /** For a non-negative rate the program keeps exactly the rejections of the procedure: as many
      as its rank R, and just those p-values that are at most fdr * R / n. */
  lemma KeepsExactlyTheRejections(p: seq<real>, fdr: real)
    requires fdr >= 0.0
    ensures var r := Rejections(p, fdr);
      && StepsUpTo(p, fdr, r)
      && CountAtMost(p, Threshold(p, fdr)) == r
      && (r > 0 ==> var c := fdr * (r as real) / (|p| as real);
            CountAtMost(p, c) == r && forall v :: v in p ==> (v <= Threshold(p, fdr) <==> v <= c))
      && (r == 0 ==> forall v :: v in p ==> v > Threshold(p, fdr))
  {
    RankStepsUp(p, fdr);
    hide Crit, CountAtMost, StepsUpTo;
    if Rejections(p, fdr) > 0 {
      RankIsCount(p, fdr);
      var c := fdr * (Rejections(p, fdr) as real) / (|p| as real);
      LineAt(p, fdr, Rejections(p, fdr));
      assert c == Crit(fdr, |p|, Rejections(p, fdr));
      assert CountAtMost(p, c) == Rejections(p, fdr);
    } else {
      NoRejections(p, fdr);
    }
  }

  lemma NoRejections(p: seq<real>, fdr: real)
    requires fdr >= 0.0 && Rejections(p, fdr) == 0
    ensures CountAtMost(p, 0.0) == 0 && forall v :: v in p ==> v > 0.0
  {
    hide Crit, CountAtMost, Sorted, StepUpRank;
    if p != [] {
      var c := Crit(fdr, |p|, 1);
      CritMonotone(fdr, |p|, 1);
      SortedAscends(p);
      CountInOrder(Sorted(p), c, 1);
      CountsOfSorted(p, c);
      forall v | v in p ensures v > 0.0 {
        var k := InSorted(p, v);
        assert Sorted(p)[0] <= Sorted(p)[k];
      }
    }
    CountRange(p, 0.0);
  }

  lemma InSorted(p: seq<real>, v: real) returns (k: nat)
    requires v in p
    ensures k < |p| && Sorted(p)[k] == v
  {
    SortedPermutes(p);
    assert v in multiset(p);
    assert v in Sorted(p);
    k :| 0 <= k < |Sorted(p)| && Sorted(p)[k] == v;
  }

  lemma RankIsCount(p: seq<real>, fdr: real)
    requires fdr >= 0.0 && Rejections(p, fdr) > 0
    ensures var r := Rejections(p, fdr);
      && CountAtMost(p, Threshold(p, fdr)) == CountAtMost(p, Crit(fdr, |p|, r)) == r
      && forall v :: v in p ==> (v <= Threshold(p, fdr) <==> v <= Crit(fdr, |p|, r))
  {
    hide Crit, CountAtMost, Sorted, StepUpRank;
    var n, r, s := |p|, Rejections(p, fdr), Sorted(p);
    var c, t := Crit(fdr, n, r), s[r - 1];
    CountsOfSorted(p, c);
    CountsOfSorted(p, t);
    SortedAscends(p);
    CountInOrder(s, c, r);
    CountInOrder(s, t, r);
    if r < n {
      var d := Crit(fdr, n, r + 1);
      CritMonotone(fdr, n, r);
      CountsOfSorted(p, d);
      CountInOrder(s, d, r + 1);
      assert s[r] > d >= c >= t;
    } else {
      CountRange(p, t);
      CountRange(p, c);
    }
    forall v | v in p ensures v <= t <==> v <= c {
      var k := InSorted(p, v);
    }
  }

  /** For p-values proper, the number kept is right exactly for a non-negative rate or when no
      p-value is zero: with a negative rate nothing should be kept, but the initial threshold
      still keeps zeros. */
  lemma KeptCountExactly(p: seq<real>, fdr: real)
    requires forall v :: v in p ==> v >= 0.0
    ensures CountAtMost(p, Threshold(p, fdr)) == Rejections(p, fdr) <==> fdr >= 0.0 || 0.0 !in p
  {
    hide Crit, CountAtMost;
    if fdr >= 0.0 {
      KeepsExactlyTheRejections(p, fdr);
    } else {
      var r := Rejections(p, fdr);
      if r > 0 {
        NegativeCrit(fdr, |p|, r);
        CountRange(p, Crit(fdr, |p|, r));
        assert false;
      }
      if 0.0 in p {
        var k :| 0 <= k < |p| && p[k] == 0.0;
        CountSplit(p, 0.0, k);
        CountSplit(p[k..], 0.0, 1);
        CountRange(p[..k], 0.0);
        CountRange(p[k..][..1], 0.0);
        CountRange(p[k..][1..], 0.0);
      } else {
        CountRange(p, 0.0);
      }
    }
  }

  /** A p-value of zero is kept at the rate -1 although nothing is rejected. */
  lemma ZeroKeptAtNegativeRate()
    ensures var p := [0.0];
      Rejections(p, -1.0) == 0 && CountAtMost(p, Threshold(p, -1.0)) == 1
  {
    hide CountAtMost, Crit;
    var p := [0.0];
    NegativeCrit(-1.0, 1, 1);
    CountRange(p, Crit(-1.0, 1, 1));
    CountRange(p, 0.0);
    assert Rejections(p, -1.0) == StepUpRank(p, -1.0, 0);
  }

  lemma NegativeCrit(fdr: real, n: nat, k: nat)
    requires fdr < 0.0 && n >= 1 && k >= 1
    ensures Crit(fdr, n, k) < 0.0
  {
    var x, d := fdr * (k as real), n as real;
    assert x < 0.0;
    assert x / d < 0.0 by {
      assert x / d * d == x;
    }
  }
}
