/** The pointer chase of the latency benchmark: slots of a byte buffer are linked into a ring in
    random order, and the ring is walked. Pointers are offsets from the start of the buffer. */
module PointerChase {
  import opened Arithmetic

  const POINTER_SIZE: nat := 8

  /** A byte is either the k-th byte of a stored pointer or something else. */
  datatype Byte = Raw(value: bv8) | PointerByte(target: nat, k: nat)

  datatype Option<T> = None | Some(value: T)

  /** The pointer whose bytes lie at offset a, if they all belong to one pointer. */
  function Load(mem: seq<Byte>, a: nat): Option<nat> {
    if a + POINTER_SIZE <= |mem| && mem[a].PointerByte?
       && forall k :: 0 <= k < POINTER_SIZE ==> mem[a + k] == PointerByte(mem[a].target, k)
    then Some(mem[a].target) else None
  }

  /** Where k loads lead from offset a. */
  function Walk(mem: seq<Byte>, a: nat, k: nat): Option<nat> {
    if k == 0 then Some(a)
    else
      match Walk(mem, a, k - 1)
      case None => None
      case Some(b) => Load(mem, b)
  }

  /** k loads from the start lead to slot s. */
  ghost predicate AtSlot(mem: seq<Byte>, k: nat, s: nat, stride: nat) {
    Walk(mem, 0, k) == Some(s * stride)
  }

  ghost predicate Visited(mem: seq<Byte>, n: nat, stride: nat, s: nat) {
    exists k: nat :: k < n && AtSlot(mem, k, s, stride)
  }

  ghost predicate OnSomeSlot(mem: seq<Byte>, n: nat, stride: nat, k: nat) {
    exists s: nat :: s < n && AtSlot(mem, k, s, stride)
  }

  /** From slot 0, n loads visit each of the n slots exactly once and return. */
  ghost predicate SingleCycle(mem: seq<Byte>, n: nat, stride: nat) {
    && (forall s: nat :: s < n ==> Visited(mem, n, stride, s))
    && (forall k: nat :: k < n ==> OnSomeSlot(mem, n, stride, k))
    && (forall j: nat, k: nat :: j < k < n ==> Walk(mem, 0, j) != Walk(mem, 0, k))
    && Walk(mem, 0, n) == Some(0)
  }

  // ---------------------------------------------------------------- permutations and rings

  /** order and place are inverse permutations of 0, ..., n-1. */
  ghost predicate Inverse(order: seq<nat>, place: seq<nat>) {
    && |order| == |place|
    && (forall i :: 0 <= i < |order| ==> order[i] < |order| && place[order[i]] == i)
    && (forall s :: 0 <= s < |place| ==> place[s] < |place| && order[place[s]] == s)
  }

  /** Every slot points to the next in the order, and the last to the first. */
  ghost predicate Linked(mem: seq<Byte>, order: seq<nat>, stride: nat) {
    forall i :: 0 <= i < |order| ==>
      Load(mem, order[i] * stride) == Some(order[if i + 1 < |order| then i + 1 else 0] * stride)
  }

  /** A walk along the ring from slot 0. */
  lemma {:induction false} WalkFollowsOrder(mem: seq<Byte>, order: seq<nat>, place: seq<nat>, stride: nat, k: nat)
    requires |order| >= 1 && Inverse(order, place) && Linked(mem, order, stride)
    ensures var n := |order|; Walk(mem, 0, k) == Some(order[(place[0] + k) % n] * stride)
  {
    hide Load;
    var n := |order|;
    if k == 0 {
      Quotient(place[0], n, 0, place[0]);
    } else {
      WalkFollowsOrder(mem, order, place, stride, k - 1);
      RingAdvance(place[0] + k - 1, 1, n);
    }
  }

  lemma VisitsSlot(mem: seq<Byte>, order: seq<nat>, place: seq<nat>, stride: nat, s: nat) returns (k: nat)
    requires s < |order| && Inverse(order, place) && Linked(mem, order, stride)
    ensures k < |order| && AtSlot(mem, k, s, stride)
  {
    hide Load, Walk, Linked;
    var n, c := |order|, place[0];
    k := if c <= place[s] then place[s] - c else place[s] + n - c;
    RingAdvance(c, k, n);
    Quotient(c, n, 0, c);
    WalkFollowsOrder(mem, order, place, stride, k);
  }

  lemma NeverRepeats(mem: seq<Byte>, order: seq<nat>, place: seq<nat>, stride: nat, j: nat, k: nat)
    requires j < k < |order| && stride >= 1 && Inverse(order, place) && Linked(mem, order, stride)
    ensures Walk(mem, 0, j) != Walk(mem, 0, k)
  {
    hide Load, Walk, Linked;
    var n, c := |order|, place[0];
    WalkFollowsOrder(mem, order, place, stride, j);
    WalkFollowsOrder(mem, order, place, stride, k);
    RingAdvance(c, j, n);
    RingAdvance(c, k, n);
    Quotient(c, n, 0, c);
    var a, b := (c + j) % n, (c + k) % n;
    assert place[order[a]] == a && place[order[b]] == b;
    SlotsApart(order[a], order[b], stride);
  }

  lemma RingIsSingleCycle(mem: seq<Byte>, order: seq<nat>, place: seq<nat>, stride: nat)
    requires |order| >= 1 && stride >= 1 && Inverse(order, place) && Linked(mem, order, stride)
    ensures SingleCycle(mem, |order|, stride)
  {
    hide Load, Walk, Linked;
    var n := |order|;
    forall s: nat | s < n ensures Visited(mem, n, stride, s) {
      var k := VisitsSlot(mem, order, place, stride, s);
    }
    forall k: nat | k < n ensures OnSomeSlot(mem, n, stride, k) {
      WalkFollowsOrder(mem, order, place, stride, k);
      var s := order[(place[0] + k) % n];
      assert s < n && AtSlot(mem, k, s, stride);
    }
    forall j: nat, k: nat | j < k < n ensures Walk(mem, 0, j) != Walk(mem, 0, k) {
      NeverRepeats(mem, order, place, stride, j, k);
    }
    ReturnsToStart(mem, order, place, stride);
  }

  lemma ReturnsToStart(mem: seq<Byte>, order: seq<nat>, place: seq<nat>, stride: nat)
    requires |order| >= 1 && Inverse(order, place) && Linked(mem, order, stride)
    ensures Walk(mem, 0, |order|) == Some(0)
  {
    hide Load, Walk, Linked;
    var n, c := |order|, place[0];
    WalkFollowsOrder(mem, order, place, stride, n);
    RingAdvance(c, n, n);
    Quotient(c, n, 0, c);
  }

  /** No contents of the buffer make a cycle of two or more slots that are closer together than a
      pointer is long: the bytes of one pointer would lie inside another. */
  lemma CycleNeedsStride(mem: seq<Byte>, n: nat, stride: nat)
    requires n >= 2 && SingleCycle(mem, n, stride)
    ensures stride >= 8
  {
    hide Load;
    assert Visited(mem, n, stride, 0) && Visited(mem, n, stride, 1);
    var k: nat :| k < n && AtSlot(mem, k, 1, stride);
    assert OnSomeSlot(mem, n, stride, 1);
    assert Walk(mem, 0, 0) != Walk(mem, 0, 1);
    LoadableSlots(mem, n, stride, 0);
    LoadableSlots(mem, n, stride, k);
    PointersApart(mem, 0, stride);
  }

  /** Every position of the cycle holds a pointer. */
  lemma LoadableSlots(mem: seq<Byte>, n: nat, stride: nat, k: nat)
    requires SingleCycle(mem, n, stride) && k < n
    ensures Walk(mem, 0, k).Some? && Load(mem, Walk(mem, 0, k).value).Some?
  {
    hide Load;
    assert OnSomeSlot(mem, n, stride, k);
    assert Walk(mem, 0, k + 1).Some? by {
      if k + 1 < n {
        assert OnSomeSlot(mem, n, stride, k + 1);
      }
    }
  }

  lemma PointersApart(mem: seq<Byte>, a: nat, b: nat)
    requires a < b && Load(mem, a).Some? && Load(mem, b).Some?
    ensures b >= a + POINTER_SIZE
  {
    hide Load;
    LoadByte(mem, b, 0);
    if b < a + POINTER_SIZE {
      LoadByte(mem, a, b - a);
    }
  }

  lemma LoadByte(mem: seq<Byte>, a: nat, k: nat)
    requires Load(mem, a).Some? && k < POINTER_SIZE
    ensures a + k < |mem| && mem[a + k] == PointerByte(Load(mem, a).value, k)
  {
  }

  /** Different slots begin at least a stride apart. */
  lemma SlotsApart(a: nat, b: nat, stride: nat)
    ensures a < b ==> a * stride + stride <= b * stride
    ensures b < a ==> b * stride + stride <= a * stride
  {
    MulMonotone(a + 1, b, stride);
    MulMonotone(b + 1, a, stride);
  }

  lemma SlotInside(s: nat, n: nat, size: nat, stride: nat)
    requires stride >= 1 && s < n == size / stride
    ensures s * stride + stride <= size
  {
    MulMonotone(s + 1, n, stride);
    assert n * stride <= size;
  }

  // ---------------------------------------------------------------- the program

  /** memcpy of a pointer into the buffer. */
  method StorePointer(buf: array<Byte>, a: nat, target: nat)
    requires a + POINTER_SIZE <= buf.Length
    modifies buf
    ensures Load(buf[..], a) == Some(target)
    ensures forall i :: 0 <= i < buf.Length && !(a <= i < a + POINTER_SIZE) ==> buf[i] == old(buf[i])
  {
    for k := 0 to POINTER_SIZE
      invariant forall x :: 0 <= x < k ==> buf[a + x] == PointerByte(target, x)
      invariant forall i :: 0 <= i < buf.Length && !(a <= i < a + k) ==> buf[i] == old(buf[i])
    {
      buf[a + k] := PointerByte(target, k);
    }
    assert buf[a + 0] == PointerByte(target, 0);
  }

  /** A load that does not overlap the changed bytes gives what it gave before. */
  lemma LoadUnaffected(before: seq<Byte>, after: seq<Byte>, a: nat, b: nat)
    requires |before| == |after|
    requires forall i :: 0 <= i < |after| && !(a <= i < a + POINTER_SIZE) ==> after[i] == before[i]
    requires b + POINTER_SIZE <= a || a + POINTER_SIZE <= b
    ensures Load(after, b) == Load(before, b)
  {
  }

  /** The Fisher-Yates shuffle of the positions up to i; rand(i) is the random number drawn when
      the loop index is i. */
  function Shuffled(order: seq<nat>, i: nat, rand: nat -> nat): (r: seq<nat>)
    requires i < |order|
    ensures |r| == |order|
    decreases i
  {
    if i == 0 then order else Shuffled(Swapped(order, i, rand(i) % (i + 1)), i - 1, rand)
  }

  function Swapped(order: seq<nat>, i: nat, j: nat): (r: seq<nat>)
    requires i < |order| && j < |order|
    ensures |r| == |order|
  {
    order[i := order[j]][j := order[i]]
  }

  /** The order in which n slots are linked. */
  function SlotOrder(n: nat, rand: nat -> nat): seq<nat>
    requires n >= 1
  {
    Shuffled(seq(n, i => i), n - 1, rand)
  }

  lemma IdentityInverse(n: nat)
    ensures Inverse(seq(n, i => i), seq(n, i => i))
  {
  }

  /** Exchanging two positions of a permutation exchanges two places of its inverse. */
  lemma SwapInverse(order: seq<nat>, place: seq<nat>, i: nat, j: nat)
    requires Inverse(order, place) && i < |order| && j < |order|
    ensures order[i] < |place| && order[j] < |place|
    ensures Inverse(Swapped(order, i, j), place[order[i] := j][order[j] := i])
  {
  }

  /** The identity order and its shuffle. The ghost result is the inverse permutation. */
  method Shuffle(n: nat, rand: nat -> nat) returns (order: array<nat>, ghost place: seq<nat>)
    requires n >= 1
    ensures fresh(order) && order.Length == n && Inverse(order[..], place)
    ensures order[..] == SlotOrder(n, rand)
  {
    hide Inverse, Shuffled, Swapped;
    order := new nat[n](i => i);
    place := seq(n, i => i);
    IdentityInverse(n);
    var i := n - 1;
    assert order[..] == seq(n, i => i);
    while i > 0
      invariant i < n && fresh(order) && order.Length == n && Inverse(order[..], place)
      invariant Shuffled(order[..], i, rand) == SlotOrder(n, rand)
    {
      var j := rand(i) % (i + 1);
      SwapInverse(order[..], place, i, j);
      ShuffledStep(order[..], i, rand);
      place := place[order[i] := j][order[j] := i];
      SwapPositions(order, i, j);
      i := i - 1;
    }
    ShuffledStep(order[..], 0, rand);
  }

  method SwapPositions(order: array<nat>, i: nat, j: nat)
    requires i < order.Length && j < order.Length
    modifies order
    ensures order[..] == Swapped(old(order[..]), i, j)
  {
    order[i], order[j] := order[j], order[i];
  }

  lemma ShuffledStep(order: seq<nat>, i: nat, rand: nat -> nat)
    requires i < |order|
    ensures i == 0 ==> Shuffled(order, i, rand) == order
    ensures i > 0 ==>
      Shuffled(order, i, rand) == Shuffled(Swapped(order, i, rand(i) % (i + 1)), i - 1, rand)
  {
  }

  // ---------------------------------------------------------------- every order, exactly once

  /** One possible outcome of the draws: for every i a number up to i. */
  ghost predicate InRange(ds: seq<nat>) {
    forall i :: 0 <= i < |ds| ==> ds[i] <= i
  }

  function Draws(ds: seq<nat>): nat -> nat {
    (i: nat) => if i < |ds| then ds[i] else 0
  }

  /** Positions above i keep what they hold, and position i gets the drawn one. */
  lemma {:induction false} ShuffledAbove(order: seq<nat>, i: nat, rand: nat -> nat)
    requires i < |order|
    ensures forall k :: i < k < |order| ==> Shuffled(order, i, rand)[k] == order[k]
    ensures i > 0 && rand(i) <= i ==> Shuffled(order, i, rand)[i] == order[rand(i)]
    decreases i
  {
    if i > 0 {
      ShuffledAbove(Swapped(order, i, rand(i) % (i + 1)), i - 1, rand);
      if rand(i) <= i {
        Quotient(rand(i), i + 1, 0, rand(i));
      }
    }
  }

  lemma {:induction false} ShuffledDraws(order: seq<nat>, i: nat, f: nat -> nat, g: nat -> nat)
    requires i < |order| && forall k: nat :: 1 <= k <= i ==> f(k) == g(k)
    ensures Shuffled(order, i, f) == Shuffled(order, i, g)
    decreases i
  {
    if i > 0 {
      ShuffledDraws(Swapped(order, i, f(i) % (i + 1)), i - 1, f, g);
    }
  }

  /** Different draws give different orders. */
  lemma {:induction false} DrawsFromOrder(order: seq<nat>, place: seq<nat>, i: nat, f: nat -> nat, g: nat -> nat)
    requires i < |order| && Inverse(order, place)
    requires forall k: nat :: 1 <= k <= i ==> f(k) <= k && g(k) <= k
    requires Shuffled(order, i, f) == Shuffled(order, i, g)
    ensures forall k: nat :: 1 <= k <= i ==> f(k) == g(k)
    decreases i
  {
    hide Swapped, Shuffled;
    if i > 0 {
      ShuffledAbove(order, i, f);
      ShuffledAbove(order, i, g);
      var j := f(i);
      assert place[order[j]] == j && place[order[g(i)]] == g(i);
      ShuffledStep(order, i, f);
      ShuffledStep(order, i, g);
      Quotient(j, i + 1, 0, j);
      SwapInverse(order, place, i, j);
      hide Inverse;
      DrawsFromOrder(Swapped(order, i, j), place[order[i] := j][order[j] := i], i - 1, f, g);
    }
  }

  /** The draw that moves the wanted slot to position i. */
  lemma DrawFor(order: seq<nat>, place: seq<nat>, i: nat, p: seq<nat>, q: seq<nat>) returns (j: nat)
    requires i < |order| == |p| && Inverse(order, place) && Inverse(p, q)
    requires forall k :: i < k < |p| ==> p[k] == order[k]
    ensures j <= i && order[j] == p[i]
    ensures i == 0 ==> order == p
    ensures forall k :: i <= k < |p| ==> p[k] == Swapped(order, i, j)[k]
  {
    j := place[p[i]];
    assert q[p[j]] == j && q[p[i]] == i;
  }

  /** Every order that agrees with the given one above i is reached. */
  lemma {:induction false} ReachOrder(order: seq<nat>, place: seq<nat>, i: nat, p: seq<nat>, q: seq<nat>)
      returns (ds: seq<nat>)
    requires i < |order| == |p| && Inverse(order, place) && Inverse(p, q)
    requires forall k :: i < k < |p| ==> p[k] == order[k]
    ensures |ds| == i + 1 && InRange(ds) && Shuffled(order, i, Draws(ds)) == p
    decreases i
  {
    hide Inverse, Shuffled, Swapped;
    var j := DrawFor(order, place, i, p, q);
    if i == 0 {
      ds := [0];
    } else {
      SwapInverse(order, place, i, j);
      var swapped := Swapped(order, i, j);
      var ds' := ReachOrder(swapped, place[order[i] := j][order[j] := i], i - 1, p, q);
      ds := ds' + [j];
      ShuffledDraws(swapped, i - 1, Draws(ds'), Draws(ds));
      Quotient(j, i + 1, 0, j);
    }
    ShuffledStep(order, i, Draws(ds));
  }

  /** The shuffle is fair: every permutation of the slots comes from exactly one sequence of
      draws in range. */
  lemma EveryOrderOnce(n: nat, p: seq<nat>, q: seq<nat>) returns (ds: seq<nat>)
    requires n >= 1 && |p| == n && Inverse(p, q)
    ensures |ds| == n && InRange(ds) && SlotOrder(n, Draws(ds)) == p
    ensures forall es :: |es| == n && InRange(es) && SlotOrder(n, Draws(es)) == p ==> es == ds
  {
    hide Shuffled, Inverse;
    IdentityInverse(n);
    var id := seq(n, i => i);
    ds := ReachOrder(id, id, n - 1, p, q);
    forall es | |es| == n && InRange(es) && SlotOrder(n, Draws(es)) == p ensures es == ds {
      DrawsFromOrder(id, id, n - 1, Draws(es), Draws(ds));
      assert forall k: nat :: k < n ==> es[k] == Draws(es)(k) && ds[k] == Draws(ds)(k);
    }
  }

  /** b is one of the first eight bytes of one of the n slots. */
  ghost predicate IsLinkByte(b: nat, n: nat, stride: nat)
    requires stride >= 1
  {
    b / stride < n && b % stride < POINTER_SIZE
  }

  lemma LinkBytes(s: nat, n: nat, stride: nat, b: nat)
    requires s < n && stride >= POINTER_SIZE && s * stride <= b < s * stride + POINTER_SIZE
    ensures IsLinkByte(b, n, stride)
  {
    Quotient(b, stride, s, b - s * stride);
  }

  /** setup_pointer_chase. The stride is at least the pointer size, so that slots do not overlap. */
  method SetupPointerChase(buf: array<Byte>, size: nat, stride: nat, rand: nat -> nat)
    requires stride >= 8 && size <= buf.Length
    modifies buf
    ensures size / stride < 2 ==> buf[..] == old(buf[..])
    ensures size / stride >= 2 ==> SingleCycle(buf[..], size / stride, stride)
    ensures size / stride >= 2 ==> Linked(buf[..], SlotOrder(size / stride, rand), stride)
    ensures forall b: nat :: b < buf.Length && !IsLinkByte(b, size / stride, stride) ==> buf[b] == old(buf[b])
  {
    hide Load, SingleCycle, SlotOrder, IsLinkByte;
    var n := size / stride;
    if n < 2 {
      return;
    }
    var order, place := Shuffle(n, rand);
    ghost var ring := order[..];
    for i := 0 to n - 1
      invariant order[..] == ring
      invariant forall b: nat :: b < buf.Length && !IsLinkByte(b, n, stride) ==> buf[b] == old(buf[b])
      invariant forall k :: 0 <= k < i ==> Load(buf[..], ring[k] * stride) == Some(ring[k + 1] * stride)
    {
      LinkSlot(buf, order, place, i, i + 1, n, size, stride);
    }
    LinkSlot(buf, order, place, n - 1, 0, n, size, stride);
    RingIsSingleCycle(buf[..], ring, place, stride);
  }

  /** One store of a link; the links of earlier slots stay. */
  method LinkSlot(buf: array<Byte>, order: array<nat>, ghost place: seq<nat>, i: nat, next: nat, n: nat, size: nat,
                  stride: nat)
    requires buf as object != order && order.Length == n && i < n && next < n && Inverse(order[..], place)
    requires stride >= POINTER_SIZE && size <= buf.Length && n == size / stride
    requires forall k :: 0 <= k < i ==> Load(buf[..], order[k] * stride) == Some(order[k + 1] * stride)
    modifies buf
    ensures forall k :: 0 <= k < i ==> Load(buf[..], order[k] * stride) == Some(order[k + 1] * stride)
    ensures Load(buf[..], order[i] * stride) == Some(order[next] * stride)
    ensures forall b: nat :: b < buf.Length && !IsLinkByte(b, n, stride) ==> buf[b] == old(buf[b])
  {
    hide Load, IsLinkByte;
    ghost var before := buf[..];
    SlotInside(order[i], n, size, stride);
    forall b: nat | order[i] * stride <= b < order[i] * stride + POINTER_SIZE ensures IsLinkByte(b, n, stride) {
      LinkBytes(order[i], n, stride, b);
    }
    StorePointer(buf, order[i] * stride, order[next] * stride);
    forall k | 0 <= k < i ensures Load(buf[..], order[k] * stride) == Load(before, order[k] * stride) {
      assert order[..][k] != order[..][i];
      SlotsApart(order[k], order[i], stride);
      LoadUnaffected(before, buf[..], order[i] * stride, order[k] * stride);
    }
  }

  /** In a single cycle, a walk of any length stays on the slots, and only its length modulo
      the number of slots matters. */
  lemma {:induction false} WalkIsPeriodic(mem: seq<Byte>, n: nat, stride: nat, k: nat)
    requires n >= 1 && SingleCycle(mem, n, stride)
    ensures Walk(mem, 0, k) == Walk(mem, 0, k % n)
    ensures OnSomeSlot(mem, n, stride, k)
  {
    hide Load, SingleCycle;
    if k < n {
      Quotient(k, n, 0, k);
      StaysOnSlots(mem, n, stride, k);
    } else {
      WalkIsPeriodic(mem, n, stride, k - 1);
      RingAdvance(k - 1, 1, n);
      StaysOnSlots(mem, n, stride, k % n);
      var s: nat :| s < n && AtSlot(mem, k % n, s, stride);
      assert AtSlot(mem, k, s, stride);
    }
  }

  lemma StaysOnSlots(mem: seq<Byte>, n: nat, stride: nat, k: nat)
    requires SingleCycle(mem, n, stride) && k < n
    ensures OnSomeSlot(mem, n, stride, k)
    ensures Walk(mem, 0, n) == Some(0) == Walk(mem, 0, 0)
  {
    hide Load;
  }

  /** The k-th load from the start reads a stored pointer within the first size bytes. */
  ghost predicate LoadsInside(mem: seq<Byte>, k: nat, size: nat) {
    match Walk(mem, 0, k)
    case None => false
    case Some(a) => a + POINTER_SIZE <= size && Load(mem, a).Some?
  }

  /** chase_latency without the clock: set up the ring and follow nc links from the start. */
  method ChaseLatency(buf: array<Byte>, size: nat, stride: nat, nc: nat, rand: nat -> nat) returns (p: nat)
    requires stride >= 8 && size <= buf.Length
    modifies buf
    ensures size / stride < 2 ==> p == 0 && buf[..] == old(buf[..])
    ensures size / stride >= 2 ==>
      && SingleCycle(buf[..], size / stride, stride) && Some(p) == Walk(buf[..], 0, nc % (size / stride))
      && forall k: nat :: k <= nc ==> LoadsInside(buf[..], k, size)
  {
    hide Load, SingleCycle;
    var n := size / stride;
    p := 0;
    if n < 2 {
      return;
    }
    SetupPointerChase(buf, size, stride, rand);
    ghost var mem := buf[..];
    forall k: nat ensures LoadsInside(mem, k, size) {
      StepInside(mem, n, size, stride, k);
    }
    for i := 0 to nc
      invariant buf[..] == mem && Walk(mem, 0, i) == Some(p)
    {
      assert LoadsInside(mem, i, size);
      var next := LoadPointer(buf, p);
      p := next;
    }
    WalkIsPeriodic(mem, n, stride, nc);
  }

  lemma StepInside(mem: seq<Byte>, n: nat, size: nat, stride: nat, k: nat)
    requires stride >= POINTER_SIZE && n == size / stride >= 1 && SingleCycle(mem, n, stride)
    ensures LoadsInside(mem, k, size)
  {
    hide Load, SingleCycle;
    WalkIsPeriodic(mem, n, stride, k);
    WalkIsPeriodic(mem, n, stride, k + 1);
    var s: nat :| s < n && AtSlot(mem, k, s, stride);
    SlotInside(s, n, size, stride);
  }

  /** memcpy of a pointer out of the buffer. */
  method LoadPointer(buf: array<Byte>, a: nat) returns (target: nat)
    requires Load(buf[..], a).Some?
    ensures Load(buf[..], a) == Some(target)
  {
    target := buf[a].target;
  }
}
