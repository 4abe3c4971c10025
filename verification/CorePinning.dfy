/** SMT-aware pinning: grouping CPUs into physical cores from their sibling lists, and choosing
    the CPU of each parallel instance. */
module CorePinning {
  import opened Arithmetic

  /** One item of a thread_siblings_list; a single number is the range from itself to itself. */
  datatype Range = Range(start: nat, end: nat)

  /** siblings[c] is the list read for CPU c, empty when the file cannot be read. */
  type Topology = seq<seq<Range>>

  predicate InRanges(rs: seq<Range>, s: nat) {
    exists k :: 0 <= k < |rs| && rs[k].start <= s <= rs[k].end
  }

  /** d is c or is listed for c; numbers beyond the CPUs of the machine are ignored. */
  ghost predicate Sibling(top: Topology, c: nat, d: nat)
    requires c < |top|
  {
    c == d || InRanges(top[c], d)
  }

  ghost predicate Equivalence(top: Topology) {
    && (forall c: nat, d: nat :: c < |top| && d < |top| && Sibling(top, c, d) ==> Sibling(top, d, c))
    && (forall c: nat, d: nat, e: nat ::
          c < |top| && d < |top| && e < |top| && Sibling(top, c, d) && Sibling(top, d, e) ==> Sibling(top, c, e))
  }

  /** Two CPUs have the same id exactly when they are siblings. */
  ghost predicate LabelsCores(top: Topology, ids: seq<nat>)
    requires |ids| == |top|
  {
    forall c: nat, d: nat :: c < |top| && d < |top| ==> (ids[c] == ids[d] <==> Sibling(top, c, d))
  }

  /** Exactly the ids below num occur. */
  ghost predicate WithoutGaps(ids: seq<nat>, num: nat) {
    && (forall c :: 0 <= c < |ids| ==> ids[c] < num)
    && (forall id :: 0 <= id < num ==> id in ids)
  }

  /** c is the lowest CPU of its core. */
  ghost predicate Opens(top: Topology, c: nat) {
    c < |top| && forall d: nat :: d < c ==> !Sibling(top, c, d)
  }

  /** The cores are numbered in the order of their lowest CPUs. */
  ghost predicate InOrder(top: Topology, ids: seq<nat>)
    requires |ids| == |top|
  {
    forall c: nat, d: nat :: c < d && Opens(top, c) && Opens(top, d) ==> ids[c] < ids[d]
  }

  /** x is in one of the first k ranges, or in range k below s. */
  ghost predicate Reached(rs: seq<Range>, k: nat, s: nat, x: nat)
    requires k < |rs|
  {
    InRanges(rs[..k], x) || (rs[k].start <= x < s && x <= rs[k].end)
  }

  /** The two inner loops: every listed CPU of the machine gets the id and counts as seen. */
  method MarkSiblings(physMap: array<nat>, seen: array<bool>, cpu: nat, rs: seq<Range>, id: nat)
    requires physMap as object != seen && physMap.Length == seen.Length
    modifies physMap, seen
    ensures forall s: nat :: s < seen.Length ==>
      physMap[s] == (if s != cpu && InRanges(rs, s) then id else old(physMap[s]))
    ensures forall s: nat :: s < seen.Length ==>
      seen[s] == (if s != cpu && InRanges(rs, s) then true else old(seen[s]))
    ensures forall s: nat :: InRanges(rs, s) <==> exists k :: 0 <= k < |rs| && rs[k].start <= s <= rs[k].end
  {
    for k := 0 to |rs|
      invariant forall s: nat :: s < seen.Length ==>
        physMap[s] == (if s != cpu && InRanges(rs[..k], s) then id else old(physMap[s]))
      invariant forall s: nat :: s < seen.Length ==>
        seen[s] == (if s != cpu && InRanges(rs[..k], s) then true else old(seen[s]))
    {
      var s := rs[k].start;
      while s <= rs[k].end && s < seen.Length
        invariant rs[k].start <= s
        invariant forall x: nat :: x < seen.Length ==>
          physMap[x] == (if x != cpu && Reached(rs, k, s, x) then id else old(physMap[x]))
        invariant forall x: nat :: x < seen.Length ==>
          seen[x] == (if x != cpu && Reached(rs, k, s, x) then true else old(seen[x]))
        decreases seen.Length - s
      {
        if s != cpu {
          physMap[s] := id;
          seen[s] := true;
        }
        s := s + 1;
      }
      forall x: nat ensures InRanges(rs[..k + 1], x) <==> InRanges(rs[..k], x) || rs[k].start <= x <= rs[k].end {
        OneMoreRange(rs, k, x);
      }
    }
    assert rs[..|rs|] == rs;
  }

  lemma OneMoreRange(rs: seq<Range>, k: nat, x: nat)
    requires k < |rs|
    ensures InRanges(rs[..k + 1], x) <==> InRanges(rs[..k], x) || rs[k].start <= x <= rs[k].end
  {
    if rs[k].start <= x <= rs[k].end {
      assert rs[..k + 1][k] == rs[k];
    }
    if i :| 0 <= i < k && rs[i].start <= x <= rs[i].end {
      assert rs[..k][i] == rs[i] == rs[..k + 1][i];
    }
    var longer := rs[..k + 1];
    if i :| 0 <= i < |longer| && longer[i].start <= x <= longer[i].end {
      assert i < k ==> rs[..k][i] == longer[i];
    }
  }

  /** What holds after the CPUs below cpu have been treated, when the lists are an equivalence. */
  ghost predicate Grouped(top: Topology, ids: seq<nat>, seen: seq<bool>, cpu: nat, num: nat)
    requires |top| == |ids| == |seen|
  {
    && cpu <= |top|
    && (forall c: nat :: c < cpu ==> seen[c])
    && (forall c: nat :: c < |top| && seen[c] ==> ids[c] < num)
    && (forall c: nat, d: nat :: c < |top| && d < |top| && seen[c] && seen[d] ==>
          (ids[c] == ids[d] <==> Sibling(top, c, d)))
    && (forall c: nat, d: nat :: c < |top| && d < |top| && seen[c] && !seen[d] ==> !Sibling(top, c, d))
    && (forall id: nat :: id < num ==> InUse(ids, seen, id))
    && (forall c: nat :: Opens(top, c) && seen[c] ==> c < cpu)
    && (forall c: nat, d: nat :: c < d && Opens(top, c) && Opens(top, d) && seen[c] && seen[d] ==> ids[c] < ids[d])
  }

  ghost predicate InUse(ids: seq<nat>, seen: seq<bool>, id: nat)
    requires |ids| == |seen|
  {
    exists c :: 0 <= c < |ids| && seen[c] && ids[c] == id
  }

  lemma SelfSibling(top: Topology)
    ensures forall s: nat :: s < |top| ==> Sibling(top, s, s)
  {
  }

  /** A CPU not seen so far opens a new class, which meets no earlier one. */
  lemma NewClass(top: Topology, ids: seq<nat>, seen: seq<bool>, cpu: nat, num: nat, ids': seq<nat>, seen': seq<bool>)
    requires |top| == |ids| == |seen| == |ids'| == |seen'| && cpu < |top| && Equivalence(top)
    requires Grouped(top, ids, seen, cpu, num) && !seen[cpu]
    requires forall s: nat :: s < |top| ==> ids'[s] == (if Sibling(top, cpu, s) then num else ids[s])
    requires forall s: nat :: s < |top| ==> seen'[s] == (if Sibling(top, cpu, s) then true else seen[s])
    ensures Grouped(top, ids', seen', cpu + 1, num + 1)
  {
    hide InRanges, Sibling;
    assert forall s: nat :: s < |top| ==> Sibling(top, s, s) by { SelfSibling(top); }
    assert forall s: nat :: s < |top| && Sibling(top, cpu, s) ==> Sibling(top, s, cpu);
    assert forall s: nat :: s < |top| && seen[s] ==> !Sibling(top, cpu, s);
    forall c: nat, d: nat | c < |top| && d < |top| && Sibling(top, cpu, c)
      ensures Sibling(top, c, d) <==> Sibling(top, cpu, d)
      ensures Sibling(top, d, c) <==> Sibling(top, cpu, d)
    {
      assert Sibling(top, c, cpu);
    }
    forall id: nat | id < num + 1 ensures InUse(ids', seen', id) {
      if id == num {
        assert seen'[cpu] && ids'[cpu] == num;
      } else {
        assert InUse(ids, seen, id);
        var c :| 0 <= c < |top| && seen[c] && ids[c] == id;
        assert seen'[c] && ids'[c] == id;
      }
    }
  }

  lemma NothingGrouped(top: Topology, ids: seq<nat>, seen: seq<bool>)
    requires |top| == |ids| == |seen| && forall c :: 0 <= c < |seen| ==> !seen[c]
    ensures Grouped(top, ids, seen, 0, 0)
  {
    hide Sibling;
  }

  lemma SkipSeen(top: Topology, ids: seq<nat>, seen: seq<bool>, cpu: nat, num: nat)
    requires |top| == |ids| == |seen| && cpu < |top| && seen[cpu] && Grouped(top, ids, seen, cpu, num)
    ensures Grouped(top, ids, seen, cpu + 1, num)
  {
    hide Sibling, InUse;
  }

  /** When all CPUs have been treated, the grouping is complete. */
  lemma AllGrouped(top: Topology, ids: seq<nat>, seen: seq<bool>, num: nat)
    requires |top| == |ids| == |seen| && Grouped(top, ids, seen, |top|, num)
    ensures LabelsCores(top, ids) && WithoutGaps(ids, num) && InOrder(top, ids)
  {
    hide Sibling;
    forall id: nat | id < num ensures id in ids {
      assert InUse(ids, seen, id);
    }
  }

  /** Opening the core of a CPU not seen so far: it and its siblings get the id. */
  method OpenCore(top: Topology, physMap: array<nat>, seen: array<bool>, cpu: nat, id: nat)
    requires physMap as object != seen && physMap.Length == seen.Length == |top| && cpu < |top|
    modifies physMap, seen
    ensures forall s: nat :: s < |top| ==> physMap[s] == (if Sibling(top, cpu, s) then id else old(physMap[s]))
    ensures forall s: nat :: s < |top| ==> seen[s] == (if Sibling(top, cpu, s) then true else old(seen[s]))
  {
    hide Sibling, InRanges;
    physMap[cpu] := id;
    seen[cpu] := true;
    MarkSiblings(physMap, seen, cpu, top[cpu], id);
    forall s: nat | s < |top|
      ensures physMap[s] == (if Sibling(top, cpu, s) then id else old(physMap[s]))
      ensures seen[s] == (if Sibling(top, cpu, s) then true else old(seen[s]))
    {
      SiblingOf(top, cpu, s);
    }
  }

  /** harness_get_physical_cores: the CPUs are labelled by physical core, without gaps in the
      ids, whenever the lists are an equivalence; and no labelling could be right otherwise. */
  method GetPhysicalCores(top: Topology) returns (physMap: array<nat>, num: nat)
    ensures physMap.Length == |top|
    ensures Equivalence(top) <==> LabelsCores(top, physMap[..])
    ensures Equivalence(top) ==> WithoutGaps(physMap[..], num) && InOrder(top, physMap[..])
    ensures |top| > 0 ==> num > 0
  {
    hide Sibling, InRanges, Grouped, Equivalence, LabelsCores, WithoutGaps, InOrder;
    var ncpu := |top|;
    physMap := new nat[ncpu](_ => 0);
    var seen := new bool[ncpu](_ => false);
    num := 0;
    NothingGrouped(top, physMap[..], seen[..]);
    for cpu := 0 to ncpu
      invariant Equivalence(top) ==> Grouped(top, physMap[..], seen[..], cpu, num)
      invariant num == 0 ==> cpu == 0 && forall c :: 0 <= c < ncpu ==> !seen[c]
    {
      if seen[cpu] {
        if Equivalence(top) {
          SkipSeen(top, physMap[..], seen[..], cpu, num);
        }
      } else {
        ghost var ids, was := physMap[..], seen[..];
        OpenCore(top, physMap, seen, cpu, num);
        if Equivalence(top) {
          NewClass(top, ids, was, cpu, num, physMap[..], seen[..]);
        }
        num := num + 1;
      }
    }
    if Equivalence(top) {
      AllGrouped(top, physMap[..], seen[..], num);
    } else if LabelsCores(top, physMap[..]) {
      LabelsAreEquivalence(top, physMap[..]);
    }
  }

  lemma SiblingOf(top: Topology, c: nat, s: nat)
    requires c < |top|
    ensures Sibling(top, c, s) <==> c == s || InRanges(top[c], s)
  {
  }

  lemma LabelsAreEquivalence(top: Topology, ids: seq<nat>)
    requires |ids| == |top| && LabelsCores(top, ids)
    ensures Equivalence(top)
  {
    hide InRanges, Sibling;
    forall c: nat, d: nat | c < |top| && d < |top| && Sibling(top, c, d) ensures Sibling(top, d, c) {
      assert ids[c] == ids[d];
    }
    forall c: nat, d: nat, e: nat | c < |top| && d < |top| && e < |top| && Sibling(top, c, d) && Sibling(top, d, e)
      ensures Sibling(top, c, e)
    {
      assert ids[c] == ids[d] == ids[e];
    }
  }

  // ---------------------------------------------------------------- pinning

  /** The lowest CPU of a core. */
  ghost predicate LowestOf(ids: seq<nat>, id: nat, c: nat) {
    c < |ids| && ids[c] == id && forall d :: 0 <= d < c ==> ids[d] != id
  }

  /** The pin choice of an instance: a manual list first, then the lowest CPU of its physical
      core, and its own number when there is no topology. */
  method ChoosePin(i: nat, manual: seq<nat>, physMap: array<nat>, num: nat) returns (pin: nat)
    ensures manual != [] ==> pin == manual[i % |manual|]
    ensures manual == [] && num > 0 ==>
      if i % num in physMap[..] then LowestOf(physMap[..], i % num, pin) else pin == i
    ensures manual == [] && num == 0 ==> pin == i
    ensures manual == [] && num > 0 && WithoutGaps(physMap[..], num) ==>
      && LowestOf(physMap[..], i % num, pin)
      && pin < physMap.Length && physMap[pin] == i % num && forall c :: 0 <= c < pin ==> physMap[c] != i % num
  {
    pin := i;
    if |manual| > 0 {
      pin := manual[i % |manual|];
    } else if num > 0 {
      var id := i % num;
      for c := 0 to physMap.Length
        invariant forall d :: 0 <= d < c ==> physMap[d] != id
      {
        if physMap[c] == id {
          pin := c;
          return;
        }
      }
    }
  }

  /** How many of the first m instances are pinned to a CPU of the core. */
  ghost function Load(ids: seq<nat>, pins: seq<nat>, id: nat): nat {
    if pins == [] then 0
    else Load(ids, pins[..|pins| - 1], id) + if pins[|pins| - 1] < |ids| && ids[pins[|pins| - 1]] == id then 1 else 0
  }

  /** pins[i] is the pin of instance i by the automatic rule. */
  ghost predicate AutoPins(ids: seq<nat>, num: nat, pins: seq<nat>)
    requires num > 0
  {
    forall i :: 0 <= i < |pins| ==> LowestOf(ids, i % num, pins[i])
  }

  lemma NextQuotient(m: nat, num: nat)
    requires m > 0 && num > 0
    ensures var q, r := (m - 1) / num, (m - 1) % num;
      if r + 1 < num then m / num == q && m % num == r + 1 else m / num == q + 1 && m % num == 0
  {
    var q, r := (m - 1) / num, (m - 1) % num;
    assert m - 1 == q * num + r && (q + 1) * num == q * num + num;
    if r + 1 < num {
      Quotient(m, num, q, r + 1);
    } else {
      Quotient(m, num, q + 1, 0);
    }
  }

  lemma {:induction false} LoadOfCore(ids: seq<nat>, num: nat, pins: seq<nat>, id: nat)
    requires id < num && AutoPins(ids, num, pins)
    ensures Load(ids, pins, id) == |pins| / num + if id < |pins| % num then 1 else 0
  {
    var m := |pins|;
    if m > 0 {
      LoadOfCore(ids, num, pins[..m - 1], id);
      assert LowestOf(ids, (m - 1) % num, pins[m - 1]);
      NextQuotient(m, num);
    } else {
      Quotient(0, num, 0, 0);
    }
  }

  /** The loads of any two cores differ by at most one. */
  lemma LoadsBalanced(ids: seq<nat>, num: nat, pins: seq<nat>, a: nat, b: nat)
    requires a < num && b < num && AutoPins(ids, num, pins)
    ensures -1 <= Load(ids, pins, a) - Load(ids, pins, b) <= 1
  {
    LoadOfCore(ids, num, pins, a);
    LoadOfCore(ids, num, pins, b);
  }

  /** The first num instances run on CPUs of different physical cores, so on no pair of siblings. */
  lemma FirstInstancesSpread(top: Topology, ids: seq<nat>, num: nat, pins: seq<nat>, i: nat, j: nat)
    requires num > 0 && |ids| == |top| && LabelsCores(top, ids) && AutoPins(ids, num, pins)
    requires i < j < |pins| && j < num
    ensures pins[i] < |top| && pins[j] < |top| && !Sibling(top, pins[i], pins[j])
  {
    hide Sibling;
    Quotient(i, num, 0, i);
    Quotient(j, num, 0, j);
    assert LowestOf(ids, i % num, pins[i]) && LowestOf(ids, j % num, pins[j]);
  }
}
