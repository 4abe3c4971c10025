/** The lock-free ring queue with one producer and one consumer, as a state machine whose steps
    are the individual atomic loads and stores, interleaved in a single total order. */
module RingQueue {
  import opened Arithmetic

  /** size is QUEUE_SIZE; work is what the producer enqueues; start is where head and tail
      stand at the beginning. */
  datatype Config = Config(size: nat, work: seq<nat>, start: nat) {
    predicate Valid() {
      size >= 2 && start < size
    }
  }

  datatype Producer =
    | PSpin                  // waiting for ready
    | PNext                  // at the test i < OPS_PER_PRODUCER
    | PLoadTail              // entering mpmc_enqueue
    | PLoadHead(t: nat)
    | PStoreItem(t: nat)
    | PStoreTail(t: nat)
    | PCount                 // enqueue returned 1; produced is still to be incremented
    | PDone

  datatype Consumer =
    | CSpin
    | CCheck                 // at the test produced < target
    | CLoadHead              // entering mpmc_dequeue
    | CLoadTail(h: nat)
    | CLoadItem(h: nat)
    | CStoreHead(h: nat, item: nat)
    | CPublish               // about to add local to consumed
    | CDone

  /** The shared words, both threads' private state, and the history of completed enqueues
      and of items taken out. */
  datatype State = State(
    items: seq<nat>, head: nat, tail: nat, ready: bool, produced: nat, consumed: nat,
    p: Producer, i: nat,
    c: Consumer, draining: bool, local: nat,
    enqueued: seq<nat>, dequeued: seq<nat>)

  ghost predicate Init(cfg: Config, s: State) {
    && |s.items| == cfg.size && s.head == s.tail == cfg.start
    && !s.ready && s.produced == 0 && s.consumed == 0
    && s.p == PSpin && s.i == 0 && s.c == CSpin && !s.draining && s.local == 0
    && s.enqueued == [] && s.dequeued == []
  }

  function Wrap(cfg: Config, k: nat): (r: nat)
    requires cfg.Valid()
    ensures r < cfg.size
  {
    k % cfg.size
  }

  /** The slot of the k-th item ever enqueued. */
  function Slot(cfg: Config, k: nat): (r: nat)
    requires cfg.Valid()
    ensures r < cfg.size
  {
    Wrap(cfg, cfg.start + k)
  }

  /** The steps stay inside the arrays; RunKeepsInv shows that every reachable state is so. */
  predicate InBounds(cfg: Config, s: State) {
    && cfg.Valid() && |s.items| == cfg.size
    && (s.p.PStoreItem? ==> s.p.t < cfg.size)
    && (s.p.PStoreItem? || s.p.PStoreTail? ==> s.i < |cfg.work|)
    && (s.c.CLoadItem? ==> s.c.h < cfg.size)
  }

  function ProducerStep(cfg: Config, s: State): State
    requires InBounds(cfg, s)
  {
    match s.p
    case PSpin => if s.ready then s.(p := PNext) else s
    case PNext => s.(p := if s.i < |cfg.work| then PLoadTail else PDone)
    case PLoadTail => s.(p := PLoadHead(s.tail))
    case PLoadHead(t) => s.(p := if Wrap(cfg, t + 1) == s.head then PLoadTail else PStoreItem(t))
    case PStoreItem(t) => s.(items := s.items[t := cfg.work[s.i]], p := PStoreTail(t))
    case PStoreTail(t) =>
      s.(tail := Wrap(cfg, t + 1), p := PCount, enqueued := s.enqueued + [cfg.work[s.i]])
    case PCount => s.(produced := s.produced + 1, i := s.i + 1, p := PNext)
    case PDone => s
  }

  /** What the consumer does with the value that mpmc_dequeue returned. */
  function Returned(s: State, v: nat): State {
    if v != 0 then s.(local := s.local + 1, c := if s.draining then CLoadHead else CCheck)
    else s.(c := if s.draining then CPublish else CCheck)
  }

  function ConsumerStep(cfg: Config, s: State): State
    requires InBounds(cfg, s)
  {
    match s.c
    case CSpin => if s.ready then s.(c := CCheck) else s
    case CCheck => s.(c := CLoadHead, draining := s.produced >= |cfg.work|)
    case CLoadHead => s.(c := CLoadTail(s.head))
    case CLoadTail(h) => if h == s.tail then Returned(s, 0) else s.(c := CLoadItem(h))
    case CLoadItem(h) => s.(c := CStoreHead(h, s.items[h]))
    case CStoreHead(h, item) =>
      Returned(s.(head := Wrap(cfg, h + 1), dequeued := s.dequeued + [item]), item)
    case CPublish => s.(consumed := s.consumed + s.local, c := CDone)
    case CDone => s
  }

  /** Main opens the gate; otherwise one of the two threads makes one step. */
  ghost predicate Next(cfg: Config, s: State, s': State) {
    && InBounds(cfg, s)
    && (s' == s.(ready := true) || s' == ProducerStep(cfg, s) || s' == ConsumerStep(cfg, s))
  }

  ghost predicate Run(cfg: Config, tr: seq<State>) {
    && |tr| >= 1 && Init(cfg, tr[0])
    && forall k :: 0 <= k < |tr| - 1 ==> Next(cfg, tr[k], tr[k + 1])
  }

  ghost predicate Completed(s: State) {
    s.p == PDone && s.c == CDone
  }

  // ---------------------------------------------------------------- the invariant

  ghost predicate InsideEnqueue(p: Producer) {
    p.PLoadTail? || p.PLoadHead? || p.PStoreItem? || p.PStoreTail?
  }

  /** The ring between head and tail holds exactly the items enqueued and not yet dequeued. */
  ghost predicate QueueInv(cfg: Config, items: seq<nat>, head: nat, tail: nat, enqueued: seq<nat>, dequeued: seq<nat>)
    requires cfg.Valid()
  {
    var e, d := |enqueued|, |dequeued|;
    && |items| == cfg.size
    && d <= e < d + cfg.size
    && tail == Slot(cfg, e) && head == Slot(cfg, d)
    && dequeued == enqueued[..d]
    && forall j :: d <= j < e ==> items[Slot(cfg, j)] == enqueued[j]
  }

  ghost predicate ProducerInv(cfg: Config, s: State) {
    && |s.enqueued| <= |cfg.work| && s.enqueued == cfg.work[..|s.enqueued|]
    && s.i <= |cfg.work|
    && |s.enqueued| == (if s.p == PCount then s.i + 1 else s.i) && s.produced == s.i
    && (InsideEnqueue(s.p) ==> s.i < |cfg.work|)
    && (s.p.PLoadHead? ==> s.p.t == s.tail)
    && (s.p.PStoreItem? || s.p.PStoreTail? ==>
          s.p.t == s.tail && |s.enqueued| + 1 < |s.dequeued| + cfg.size)
    && (s.p.PStoreTail? ==> s.tail < |s.items| && s.items[s.tail] == cfg.work[s.i])
    && (s.p == PDone ==> s.i == |cfg.work|)
  }

  ghost predicate ConsumerInv(cfg: Config, s: State) {
    && (s.c.CLoadTail? ==> s.c.h == s.head)
    && (s.c.CLoadItem? || s.c.CStoreHead? ==> s.c.h == s.head && |s.dequeued| < |s.enqueued|)
    && (s.c.CStoreHead? ==> s.c.item == s.enqueued[|s.dequeued|])
    && (s.draining ==> s.produced >= |cfg.work|)
    && (s.c == CPublish || s.c == CDone ==> s.draining)
  }

  ghost predicate Inv(cfg: Config, s: State)
    requires cfg.Valid()
  {
    QueueInv(cfg, s.items, s.head, s.tail, s.enqueued, s.dequeued) && ProducerInv(cfg, s) && ConsumerInv(cfg, s)
  }

  // ---------------------------------------------------------------- arithmetic of the ring

  lemma SlotStep(cfg: Config, k: nat)
    requires cfg.Valid()
    ensures Wrap(cfg, Slot(cfg, k) + 1) == Slot(cfg, k + 1)
  {
    RingAdvance(cfg.start + k, 1, cfg.size);
    RingAdvance(Slot(cfg, k), 1, cfg.size);
    Quotient(Slot(cfg, k), cfg.size, 0, Slot(cfg, k));
  }

  /** Up to size apart, two items share a slot only if they are the same or a full turn apart. */
  lemma SlotInjective(cfg: Config, a: nat, b: nat)
    requires cfg.Valid() && a <= b <= a + cfg.size
    ensures Slot(cfg, a) == Slot(cfg, b) <==> a == b || b == a + cfg.size
  {
    RingAdvance(cfg.start + a, b - a, cfg.size);
  }

  // ---------------------------------------------------------------- every step keeps it

  lemma InitInv(cfg: Config, s: State)
    requires cfg.Valid() && Init(cfg, s)
    ensures Inv(cfg, s)
  {
  }

  /** The item about to be written replaces none that is still to be read. */
  lemma NoOverwrite(cfg: Config, s: State)
    requires cfg.Valid() && Inv(cfg, s) && s.p.PStoreItem?
    ensures forall j :: |s.dequeued| <= j < |s.enqueued| ==> Slot(cfg, j) != s.p.t
  {
    forall j: nat | |s.dequeued| <= j < |s.enqueued| ensures Slot(cfg, j) != s.p.t {
      SlotInjective(cfg, j, |s.enqueued|);
    }
  }

  /** The test of mpmc_enqueue is true exactly when size - 1 items are inside. */
  lemma FullTest(cfg: Config, s: State)
    requires cfg.Valid() && Inv(cfg, s)
    ensures Wrap(cfg, s.tail + 1) == s.head <==> |s.enqueued| + 1 == |s.dequeued| + cfg.size
  {
    hide Wrap, Slot;
    SlotStep(cfg, |s.enqueued|);
    SlotInjective(cfg, |s.dequeued|, |s.enqueued| + 1);
  }

  /** The test of mpmc_dequeue is true exactly when nothing is inside. */
  lemma EmptyTest(cfg: Config, s: State)
    requires cfg.Valid() && Inv(cfg, s)
    ensures s.head == s.tail <==> |s.dequeued| == |s.enqueued|
    ensures |s.dequeued| <= |s.enqueued|
  {
    hide Wrap, Slot;
    SlotInjective(cfg, |s.dequeued|, |s.enqueued|);
  }

  lemma StoreItemKeepsQueue(cfg: Config, s: State)
    requires cfg.Valid() && Inv(cfg, s) && s.p.PStoreItem?
    ensures s.tail < |s.items| == cfg.size
    ensures QueueInv(cfg, s.items[s.tail := cfg.work[s.i]], s.head, s.tail, s.enqueued, s.dequeued)
  {
    hide Wrap, Slot;
    assert s.tail == Slot(cfg, |s.enqueued|);
    NoOverwrite(cfg, s);
  }

  lemma StoreTailKeepsQueue(cfg: Config, s: State)
    requires cfg.Valid() && Inv(cfg, s) && s.p.PStoreTail?
    ensures QueueInv(cfg, s.items, s.head, Wrap(cfg, s.tail + 1), s.enqueued + [cfg.work[s.i]], s.dequeued)
  {
    hide Wrap, Slot;
    SlotStep(cfg, |s.enqueued|);
  }

  lemma ProducerKeepsInv(cfg: Config, s: State)
    requires cfg.Valid() && Inv(cfg, s)
    ensures InBounds(cfg, s) && Inv(cfg, ProducerStep(cfg, s))
  {
    hide Wrap, Slot, QueueInv;
    InvInBounds(cfg, s);
    EmptyTest(cfg, s);
    if s.p.PLoadHead? {
      FullTest(cfg, s);
      StillRoom(cfg, s);
    } else if s.p.PStoreItem? {
      StoreItemKeepsQueue(cfg, s);
    } else if s.p.PStoreTail? {
      StoreTailKeepsQueue(cfg, s);
    }
  }

  lemma StillRoom(cfg: Config, s: State)
    requires cfg.Valid() && Inv(cfg, s)
    ensures |s.enqueued| < |s.dequeued| + cfg.size
  {
  }

  lemma TakeKeepsQueue(cfg: Config, s: State)
    requires cfg.Valid() && Inv(cfg, s) && s.c.CStoreHead?
    ensures QueueInv(cfg, s.items, Wrap(cfg, s.head + 1), s.tail, s.enqueued, s.dequeued + [s.c.item])
  {
    hide Wrap, Slot;
    var d := |s.dequeued|;
    SlotStep(cfg, d);
    assert s.dequeued + [s.c.item] == s.enqueued[..d + 1];
  }

  lemma NextItem(cfg: Config, s: State)
    requires cfg.Valid() && Inv(cfg, s) && |s.dequeued| < |s.enqueued|
    ensures s.head < |s.items| && s.items[s.head] == s.enqueued[|s.dequeued|]
  {
    hide Wrap, Slot;
    assert s.head == Slot(cfg, |s.dequeued|);
  }

  lemma ConsumerKeepsProducerInv(cfg: Config, s: State)
    requires InBounds(cfg, s) && ProducerInv(cfg, s)
    ensures ProducerInv(cfg, ConsumerStep(cfg, s))
  {
    hide ConsumerStep, InBounds;
    ConsumerFrame(cfg, s);
  }

  /** The consumer writes neither the slots nor anything of the producer, and only takes out. */
  lemma ConsumerFrame(cfg: Config, s: State)
    requires InBounds(cfg, s)
    ensures var s' := ConsumerStep(cfg, s);
      && s'.items == s.items && s'.tail == s.tail && s'.ready == s.ready && s'.produced == s.produced
      && s'.p == s.p && s'.i == s.i && s'.enqueued == s.enqueued && |s.dequeued| <= |s'.dequeued|
  {
    hide Wrap;
  }

  lemma ConsumerKeepsInv(cfg: Config, s: State)
    requires cfg.Valid() && Inv(cfg, s)
    ensures InBounds(cfg, s) && Inv(cfg, ConsumerStep(cfg, s))
  {
    hide Wrap, Slot, QueueInv, ProducerInv;
    InvInBounds(cfg, s);
    EmptyTest(cfg, s);
    ConsumerKeepsProducerInv(cfg, s);
    if s.c.CLoadItem? {
      NextItem(cfg, s);
    } else if s.c.CStoreHead? {
      TakeKeepsQueue(cfg, s);
    }
  }

  lemma {:induction false} RunKeepsInv(cfg: Config, tr: seq<State>, k: nat)
    requires cfg.Valid() && Run(cfg, tr) && k < |tr|
    ensures Inv(cfg, tr[k]) && InBounds(cfg, tr[k])
  {
    hide QueueInv, ProducerStep, ConsumerStep;
    if k == 0 {
      InitInv(cfg, tr[0]);
    } else {
      RunKeepsInv(cfg, tr, k - 1);
      assert Next(cfg, tr[k - 1], tr[k]);
      ProducerKeepsInv(cfg, tr[k - 1]);
      ConsumerKeepsInv(cfg, tr[k - 1]);
    }
    InvInBounds(cfg, tr[k]);
  }

  lemma InvInBounds(cfg: Config, s: State)
    requires cfg.Valid() && Inv(cfg, s)
    ensures InBounds(cfg, s)
  {
    hide Slot, Wrap;
    assert s.tail == Slot(cfg, |s.enqueued|) && s.head == Slot(cfg, |s.dequeued|);
  }

  /** FIFO order over whole runs: what came out is a prefix of what went in, which is a prefix of
      the producer's work; at most size - 1 items are inside; an item about to be stored goes to
      a slot from which everything has been read. */
  lemma FifoOrder(cfg: Config, tr: seq<State>, k: nat)
    requires cfg.Valid() && Run(cfg, tr) && k < |tr|
    ensures var s := tr[k];
      && s.dequeued <= s.enqueued <= cfg.work
      && |s.enqueued| - |s.dequeued| <= cfg.size - 1
      && (s.p.PStoreItem? ==> forall j :: |s.dequeued| <= j < |s.enqueued| ==> Slot(cfg, j) != s.p.t)
      && (s.c.CStoreHead? ==> |s.dequeued| < |s.enqueued| && s.c.item == s.enqueued[|s.dequeued|])
  {
    RunKeepsInv(cfg, tr, k);
    if tr[k].p.PStoreItem? {
      NoOverwrite(cfg, tr[k]);
    }
  }

  // ---------------------------------------------------------------- what a completed run leaves

  /** The producer of the benchmark enqueues its loop counter. */
  ghost predicate CountsUp(cfg: Config) {
    cfg.Valid() && forall k :: 0 <= k < |cfg.work| ==> cfg.work[k] == k
  }

  /** All but the first item are counted: item 0 reads like an empty queue. */
  function Counted(d: nat): nat {
    if d == 0 then 0 else d - 1
  }

  ghost predicate CountInv(cfg: Config, s: State) {
    && s.local == Counted(|s.dequeued|)
    && (s.draining ==> |s.enqueued| == |cfg.work| && (|s.dequeued| >= 1 || |cfg.work| == 1))
    && (s.c == CPublish || s.c == CDone ==> s.draining && |s.dequeued| == |s.enqueued|)
    && s.consumed == (if s.c == CDone then s.local else 0)
    && (s.c == CSpin || s.c == CCheck ==> !s.draining)
  }

  ghost predicate DrainIsSafe(cfg: Config) {
    |cfg.work| == 1 || |cfg.work| >= cfg.size
  }

  lemma ConsumerKeepsCount(cfg: Config, s: State)
    requires CountsUp(cfg) && DrainIsSafe(cfg) && Inv(cfg, s) && CountInv(cfg, s) && InBounds(cfg, s)
    ensures CountInv(cfg, ConsumerStep(cfg, s))
  {
    hide Slot, Wrap, QueueInv;
    EmptyTest(cfg, s);
    StillRoom(cfg, s);
  }

  lemma ProducerKeepsCount(cfg: Config, s: State)
    requires CountsUp(cfg) && DrainIsSafe(cfg) && Inv(cfg, s) && CountInv(cfg, s) && InBounds(cfg, s)
    ensures CountInv(cfg, ProducerStep(cfg, s))
  {
    hide Slot, Wrap, QueueInv;
  }

  lemma {:induction false} RunKeepsCount(cfg: Config, tr: seq<State>, k: nat)
    requires CountsUp(cfg) && DrainIsSafe(cfg) && Run(cfg, tr) && k < |tr|
    ensures CountInv(cfg, tr[k])
  {
    hide QueueInv, ProducerStep, ConsumerStep, Inv;
    if k > 0 {
      RunKeepsCount(cfg, tr, k - 1);
      RunKeepsInv(cfg, tr, k - 1);
      assert Next(cfg, tr[k - 1], tr[k]);
      ProducerKeepsCount(cfg, tr[k - 1]);
      ConsumerKeepsCount(cfg, tr[k - 1]);
    }
  }

  /** The outcome the benchmark reports: everything drained, and all but item 0 counted. */
  ghost predicate CleanFinish(cfg: Config, s: State) {
    && s.dequeued == s.enqueued == cfg.work && s.head == s.tail
    && s.consumed == |cfg.work| - 1
  }

  lemma CompletedRunIsClean(cfg: Config, tr: seq<State>)
    requires CountsUp(cfg) && DrainIsSafe(cfg) && Run(cfg, tr) && Completed(tr[|tr| - 1])
    ensures CleanFinish(cfg, tr[|tr| - 1])
  {
    RunKeepsInv(cfg, tr, |tr| - 1);
    RunKeepsCount(cfg, tr, |tr| - 1);
  }

  // ---------------------------------------------------------------- when the drain stops early

  lemma Extend(cfg: Config, tr: seq<State>, s: State) returns (tr': seq<State>)
    requires Run(cfg, tr) && Next(cfg, tr[|tr| - 1], s)
    ensures Run(cfg, tr') && tr <= tr' && tr'[|tr'| - 1] == s
  {
    tr' := tr + [s];
  }

  lemma ExtendProducer(cfg: Config, tr: seq<State>) returns (tr': seq<State>)
    requires cfg.Valid() && Run(cfg, tr)
    ensures Run(cfg, tr') && tr <= tr' && InBounds(cfg, tr[|tr| - 1])
    ensures tr'[|tr'| - 1] == ProducerStep(cfg, tr[|tr| - 1])
    ensures Inv(cfg, tr'[|tr'| - 1])
  {
    hide ProducerStep, ConsumerStep, QueueInv;
    RunKeepsInv(cfg, tr, |tr| - 1);
    tr' := Extend(cfg, tr, ProducerStep(cfg, tr[|tr| - 1]));
    RunKeepsInv(cfg, tr', |tr'| - 1);
  }

  lemma ExtendConsumer(cfg: Config, tr: seq<State>) returns (tr': seq<State>)
    requires cfg.Valid() && Run(cfg, tr)
    ensures Run(cfg, tr') && tr <= tr' && InBounds(cfg, tr[|tr| - 1])
    ensures tr'[|tr'| - 1] == ConsumerStep(cfg, tr[|tr| - 1])
    ensures Inv(cfg, tr'[|tr'| - 1])
  {
    hide ProducerStep, ConsumerStep, QueueInv;
    RunKeepsInv(cfg, tr, |tr| - 1);
    tr' := Extend(cfg, tr, ConsumerStep(cfg, tr[|tr| - 1]));
    RunKeepsInv(cfg, tr', |tr'| - 1);
  }

  /** The producer has finished k items and the consumer has not begun. */
  ghost predicate FilledTo(cfg: Config, s: State, k: nat) {
    && s.p == PNext && s.i == k && s.ready
    && s.c == CSpin && s.dequeued == [] && s.local == 0 && s.consumed == 0 && !s.draining
  }

  /** A work list shorter than the ring can be enqueued without any help from the consumer. */
  lemma {:induction false} FillAlone(cfg: Config, k: nat) returns (tr: seq<State>)
    requires cfg.Valid() && k <= |cfg.work| < cfg.size
    ensures Run(cfg, tr) && FilledTo(cfg, tr[|tr| - 1], k)
  {
    hide Slot, Wrap, QueueInv;
    if k == 0 {
      var s := State(seq(cfg.size, _ => 0), cfg.start, cfg.start, false, 0, 0, PSpin, 0, CSpin, false, 0, [], []);
      tr := [s];
      tr := Extend(cfg, tr, s.(ready := true));
      tr := ExtendProducer(cfg, tr);
    } else {
      tr := FillAlone(cfg, k - 1);
      tr := PassFullTest(cfg, tr, k - 1);
      tr := ExtendProducer(cfg, tr);
      tr := ExtendProducer(cfg, tr);
      tr := ExtendProducer(cfg, tr);
    }
  }

  lemma PassFullTest(cfg: Config, tr: seq<State>, k: nat) returns (tr': seq<State>)
    requires cfg.Valid() && k < |cfg.work| < cfg.size && Run(cfg, tr) && FilledTo(cfg, tr[|tr| - 1], k)
    ensures Run(cfg, tr') && tr'[|tr'| - 1].p.PStoreItem?
    ensures FilledTo(cfg, tr'[|tr'| - 1].(p := PNext), k)
  {
    hide Slot, Wrap, QueueInv;
    tr' := ExtendProducer(cfg, tr);
    tr' := ExtendProducer(cfg, tr');
    FullTest(cfg, tr'[|tr'| - 1]);
    tr' := ExtendProducer(cfg, tr');
  }

  /** After the producer alone has finished, the consumer is about to look at the ring. */
  lemma ConsumerArrives(cfg: Config) returns (tr: seq<State>)
    requires CountsUp(cfg) && |cfg.work| < cfg.size
    ensures Run(cfg, tr) && Inv(cfg, tr[|tr| - 1])
    ensures var s := tr[|tr| - 1];
      && s.p == PDone && s.c == CLoadTail(s.head) && s.draining && s.dequeued == [] && |s.enqueued| == |cfg.work|
      && s.local == 0 && s.consumed == 0
  {
    hide Slot, Wrap, QueueInv;
    tr := FillAlone(cfg, |cfg.work|);
    tr := ExtendProducer(cfg, tr);
    tr := ExtendConsumer(cfg, tr);
    tr := ExtendConsumer(cfg, tr);
    tr := ExtendConsumer(cfg, tr);
  }

  /** For every other length there is a run that completes but is not clean: the producer
      finishes first, and the drain takes item 0 for an empty queue. */
  lemma UncleanRun(cfg: Config) returns (tr: seq<State>)
    requires CountsUp(cfg) && !DrainIsSafe(cfg)
    ensures Run(cfg, tr) && Completed(tr[|tr| - 1]) && !CleanFinish(cfg, tr[|tr| - 1])
  {
    hide Slot, Wrap, QueueInv;
    tr := ConsumerArrives(cfg);
    tr := StopsAtOnce(cfg, tr);
    tr := ExtendConsumer(cfg, tr);
  }

  /** The drain ends with the first look at the ring: it is empty, or holds item 0 in front. */
  lemma StopsAtOnce(cfg: Config, tr: seq<State>) returns (tr': seq<State>)
    requires CountsUp(cfg) && Run(cfg, tr) && Inv(cfg, tr[|tr| - 1])
    requires var s := tr[|tr| - 1]; s.draining && s.dequeued == [] && s.local == 0 && s.consumed == 0
    requires var s := tr[|tr| - 1]; s.p == PDone && s.c == CLoadTail(s.head) && |s.enqueued| == |cfg.work|
    ensures Run(cfg, tr')
    ensures var s := tr'[|tr'| - 1];
      s.p == PDone && s.c == CPublish && s.local == 0 && s.consumed == 0 && |s.dequeued| <= 1
  {
    hide Slot, Wrap, QueueInv;
    EmptyTest(cfg, tr[|tr| - 1]);
    tr' := ExtendConsumer(cfg, tr);
    if cfg.work != [] {
      NextItem(cfg, tr'[|tr'| - 1]);
      tr' := ExtendConsumer(cfg, tr');
      tr' := ExtendConsumer(cfg, tr');
    }
  }

  /** Exactly when every completed run ends with an empty queue and N - 1 items counted: the
      producer makes one item, or at least as many as the ring has slots. */
  lemma CleanExactlyWhenDrainIsSafe(cfg: Config)
    requires CountsUp(cfg)
    ensures (forall tr :: Run(cfg, tr) && Completed(tr[|tr| - 1]) ==> CleanFinish(cfg, tr[|tr| - 1]))
        <==> |cfg.work| == 1 || |cfg.work| >= cfg.size
  {
    if DrainIsSafe(cfg) {
      forall tr | Run(cfg, tr) && Completed(tr[|tr| - 1]) ensures CleanFinish(cfg, tr[|tr| - 1]) {
        CompletedRunIsClean(cfg, tr);
      }
    } else {
      var tr := UncleanRun(cfg);
    }
  }

  // ---------------------------------------------------------------- every fair run completes

  datatype Actor = Opener | Producing | Consuming

  function StepBy(cfg: Config, s: State, a: Actor): State
    requires InBounds(cfg, s)
  {
    match a
    case Opener => s.(ready := true)
    case Producing => ProducerStep(cfg, s)
    case Consuming => ConsumerStep(cfg, s)
  }

  lemma StepKeepsInv(cfg: Config, s: State, a: Actor)
    requires cfg.Valid() && Inv(cfg, s)
    ensures InBounds(cfg, s) && Next(cfg, s, StepBy(cfg, s, a)) && Inv(cfg, StepBy(cfg, s, a))
  {
    hide ProducerStep, ConsumerStep, QueueInv;
    InvInBounds(cfg, s);
    ProducerKeepsInv(cfg, s);
    ConsumerKeepsInv(cfg, s);
  }

  /** The state after the actors of sched have stepped, one after another. */
  ghost function Exec(cfg: Config, s: State, sched: seq<Actor>): (s': State)
    requires cfg.Valid() && Inv(cfg, s)
    ensures Inv(cfg, s')
    decreases |sched|
  {
    if sched == [] then s
    else
      StepKeepsInv(cfg, s, sched[0]);
      Exec(cfg, StepBy(cfg, s, sched[0]), sched[1..])
  }

  /** Scheduling from the end of a run continues the run. */
  lemma {:induction false} ExecContinues(cfg: Config, tr: seq<State>, sched: seq<Actor>) returns (tr': seq<State>)
    requires cfg.Valid() && Run(cfg, tr) && Inv(cfg, Last(tr))
    ensures Run(cfg, tr') && tr <= tr' && Last(tr') == Exec(cfg, Last(tr), sched)
    decreases |sched|
  {
    hide Inv, StepBy, Next;
    if sched == [] {
      tr' := tr;
    } else {
      StepKeepsInv(cfg, Last(tr), sched[0]);
      tr' := Extend(cfg, tr, StepBy(cfg, Last(tr), sched[0]));
      tr' := ExecContinues(cfg, tr', sched[1..]);
    }
  }

  function Last(tr: seq<State>): State
    requires |tr| >= 1
  {
    tr[|tr| - 1]
  }

  function Steps(sched: seq<Actor>, a: Actor): nat {
    if sched == [] then 0 else (if sched[0] == a then 1 else 0) + Steps(sched[1..], a)
  }

  /** The producer's share of the work left. Waiting for room keeps it as it is. */
  function ProducerWork(cfg: Config, s: State): int {
    5 * (|cfg.work| - s.i) +
    match s.p
    case PSpin => 2
    case PNext => 1
    case PLoadTail => 0
    case PLoadHead(_) => 0
    case PStoreItem(_) => -1
    case PStoreTail(_) => -2
    case PCount => -3
    case PDone => 0
  }

  /** The consumer's share. Waiting for an item keeps it as it is. */
  function ConsumerWork(cfg: Config, s: State): int {
    var m := 6 * (|cfg.work| - |s.dequeued|);
    match s.c
    case CSpin => m + 7
    case CCheck => m + 6
    case CLoadHead => if s.draining then m + 3 else m + 6
    case CLoadTail(_) => if s.draining then m + 2 else m + 6
    case CLoadItem(_) => if s.draining then m + 1 else m + 5
    case CStoreHead(_, _) => if s.draining then m else m + 4
    case CPublish => 1
    case CDone => 0
  }

  function Work(cfg: Config, s: State): int {
    ProducerWork(cfg, s) + ConsumerWork(cfg, s)
  }

  ghost predicate Full(cfg: Config, s: State) {
    |s.enqueued| + 1 == |s.dequeued| + cfg.size
  }

  /** The producer, stepping, is bound to get on. */
  ghost predicate ProducerFree(cfg: Config, s: State) {
    s.p != PDone && (s.p.PLoadTail? || s.p.PLoadHead? ==> !Full(cfg, s))
  }

  /** The consumer, stepping, is bound to get on. */
  ghost predicate ConsumerFree(cfg: Config, s: State) {
    s.c != CDone && (|s.dequeued| < |s.enqueued| || s.produced >= |cfg.work|)
  }

  /** One of the two always is: a full ring frees the consumer, and an empty one the producer. */
  lemma SomeoneIsFree(cfg: Config, s: State)
    requires cfg.Valid() && Inv(cfg, s) && !Completed(s)
    ensures ProducerFree(cfg, s) || ConsumerFree(cfg, s)
  {
    hide QueueInv;
    EmptyTest(cfg, s);
  }

  lemma WorkIsNonNegative(cfg: Config, s: State)
    requires cfg.Valid() && Inv(cfg, s)
    ensures Work(cfg, s) >= 0
  {
    hide QueueInv;
    EmptyTest(cfg, s);
  }

  /** How many more of its own steps a free thread can make before the work shrinks. */
  function ProducerPatience(s: State): nat {
    if s.p.PLoadTail? then 1 else 0
  }

  function ConsumerPatience(cfg: Config, s: State): nat {
    if s.draining then 0
    else if s.produced >= |cfg.work| then (if s.c.CLoadHead? then 2 else if s.c.CLoadTail? then 1 else 0)
    else (if s.c.CCheck? then 2 else if s.c.CLoadHead? then 1 else 0)
  }

  /** What one step does to the work left and to the patience of a free thread. */
  ghost predicate GetsOn(cfg: Config, s: State, a: Actor, s': State) {
    || Work(cfg, s') < Work(cfg, s)
    || (&& Work(cfg, s') == Work(cfg, s)
        && (ProducerFree(cfg, s) ==>
              && ProducerFree(cfg, s')
              && ProducerPatience(s') + (if a == Producing then 1 else 0) == ProducerPatience(s))
        && (ConsumerFree(cfg, s) ==>
              && ConsumerFree(cfg, s')
              && ConsumerPatience(cfg, s') + (if a == Consuming then 1 else 0) == ConsumerPatience(cfg, s)))
  }

  lemma StepGetsOn(cfg: Config, s: State, a: Actor)
    requires cfg.Valid() && Inv(cfg, s) && InBounds(cfg, s) && s.ready
    ensures GetsOn(cfg, s, a, StepBy(cfg, s, a)) && StepBy(cfg, s, a).ready
  {
    hide QueueInv, Wrap, ProducerStep, ConsumerStep, GetsOn;
    match a
    case Opener =>
      assert StepBy(cfg, s, a) == s;
      StandStill(cfg, s);
    case Producing => ProducerGetsOn(cfg, s);
    case Consuming => ConsumerGetsOn(cfg, s);
  }

  lemma StandStill(cfg: Config, s: State)
    ensures GetsOn(cfg, s, Opener, s)
  {
  }

  lemma ProducerGetsOn(cfg: Config, s: State)
    requires cfg.Valid() && Inv(cfg, s) && InBounds(cfg, s) && s.ready
    ensures GetsOn(cfg, s, Producing, ProducerStep(cfg, s)) && ProducerStep(cfg, s).ready
  {
    hide QueueInv, Wrap, ConsumerInv, ProducerWork, ConsumerWork, ProducerStep;
    ProducerQuiet(cfg, s);
    assert ConsumerWork(cfg, ProducerStep(cfg, s)) == ConsumerWork(cfg, s) by { ProducerFrame(cfg, s); }
  }

  /** A step of the producer that leaves the work as it is only moves it around its wait. */
  lemma ProducerQuiet(cfg: Config, s: State)
    requires cfg.Valid() && Inv(cfg, s) && InBounds(cfg, s) && s.ready
    ensures var s' := ProducerStep(cfg, s);
      && s'.ready
      && (|| ProducerWork(cfg, s') < ProducerWork(cfg, s)
          || (&& s' == s.(p := s'.p) && ProducerWork(cfg, s') == ProducerWork(cfg, s)
              && (ProducerFree(cfg, s) ==> s.p.PLoadTail? && s'.p.PLoadHead?)))
  {
    hide QueueInv, Wrap, ConsumerInv;
    FullTest(cfg, s);
  }

  lemma ProducerFrame(cfg: Config, s: State)
    requires InBounds(cfg, s)
    ensures ConsumerWork(cfg, ProducerStep(cfg, s)) == ConsumerWork(cfg, s)
  {
    hide Wrap;
  }

  lemma ConsumerGetsOn(cfg: Config, s: State)
    requires cfg.Valid() && Inv(cfg, s) && InBounds(cfg, s) && s.ready
    ensures GetsOn(cfg, s, Consuming, ConsumerStep(cfg, s)) && ConsumerStep(cfg, s).ready
  {
    hide QueueInv, Wrap, ProducerWork, ConsumerWork, ConsumerStep;
    ConsumerQuiet(cfg, s);
    ConsumerFrame(cfg, s);
    SameProducerWork(cfg, s, ConsumerStep(cfg, s));
  }

  /** A step of the consumer that leaves the work as it is only moves it around its wait. */
  lemma ConsumerQuiet(cfg: Config, s: State)
    requires cfg.Valid() && Inv(cfg, s) && InBounds(cfg, s) && s.ready
    ensures var s' := ConsumerStep(cfg, s);
      && s'.ready
      && (|| ConsumerWork(cfg, s') < ConsumerWork(cfg, s)
          || (&& s' == s.(c := s'.c) && ConsumerWork(cfg, s') == ConsumerWork(cfg, s)
              && (ConsumerFree(cfg, s) ==>
                    s'.c != CDone && ConsumerPatience(cfg, s') + 1 == ConsumerPatience(cfg, s))))
  {
    hide QueueInv, Wrap;
    EmptyTest(cfg, s);
  }

  lemma SameProducerWork(cfg: Config, s: State, s': State)
    requires s'.p == s.p && s'.i == s.i
    ensures ProducerWork(cfg, s') == ProducerWork(cfg, s)
  {
  }

  /** No step ever adds work, and enough steps of a free thread reduce it, whatever the other
      thread does in between. */
  lemma {:induction false} WorkShrinks(cfg: Config, s: State, sched: seq<Actor>)
    requires cfg.Valid() && Inv(cfg, s) && s.ready
    ensures Work(cfg, Exec(cfg, s, sched)) <= Work(cfg, s) && Exec(cfg, s, sched).ready
    ensures ProducerFree(cfg, s) && Steps(sched, Producing) > ProducerPatience(s)
        ==> Work(cfg, Exec(cfg, s, sched)) < Work(cfg, s)
    ensures ConsumerFree(cfg, s) && Steps(sched, Consuming) > ConsumerPatience(cfg, s)
        ==> Work(cfg, Exec(cfg, s, sched)) < Work(cfg, s)
    decreases |sched|
  {
    hide Inv, InBounds, StepBy, Work, ProducerFree, ConsumerFree, ProducerPatience, ConsumerPatience;
    if sched != [] {
      StepKeepsInv(cfg, s, sched[0]);
      StepGetsOn(cfg, s, sched[0]);
      WorkShrinks(cfg, StepBy(cfg, s, sched[0]), sched[1..]);
    }
  }

  /** In a block of a fair schedule the producer gets two steps and the consumer three, in any
      order and among any others. */
  ghost predicate Fair(block: seq<Actor>) {
    Steps(block, Producing) >= 2 && Steps(block, Consuming) >= 3
  }

  lemma FairBlockShrinks(cfg: Config, s: State, block: seq<Actor>)
    requires cfg.Valid() && Inv(cfg, s) && s.ready && !Completed(s) && Fair(block)
    ensures Work(cfg, Exec(cfg, s, block)) < Work(cfg, s)
  {
    hide Inv, Work, ProducerFree, ConsumerFree, Completed;
    SomeoneIsFree(cfg, s);
    WorkShrinks(cfg, s, block);
  }

  function Flatten(blocks: seq<seq<Actor>>): seq<Actor> {
    if blocks == [] then [] else blocks[0] + Flatten(blocks[1..])
  }

  lemma {:induction false} ExecConcat(cfg: Config, s: State, a: seq<Actor>, b: seq<Actor>)
    requires cfg.Valid() && Inv(cfg, s)
    ensures Exec(cfg, s, a + b) == Exec(cfg, Exec(cfg, s, a), b)
    decreases |a|
  {
    hide Inv, StepBy;
    if a == [] {
      assert a + b == b;
    } else {
      StepKeepsInv(cfg, s, a[0]);
      ExecConcat(cfg, StepBy(cfg, s, a[0]), a[1..], b);
      assert (a + b)[1..] == a[1..] + b;
    }
  }

  lemma {:induction false} CompletedStays(cfg: Config, s: State, sched: seq<Actor>)
    requires cfg.Valid() && Inv(cfg, s) && Completed(s)
    ensures Completed(Exec(cfg, s, sched))
    decreases |sched|
  {
    hide Inv;
    if sched != [] {
      StepKeepsInv(cfg, s, sched[0]);
      CompletedStays(cfg, StepBy(cfg, s, sched[0]), sched[1..]);
    }
  }

  lemma {:induction false} FairBlocksComplete(cfg: Config, s: State, blocks: seq<seq<Actor>>)
    requires cfg.Valid() && Inv(cfg, s) && s.ready
    requires (forall b :: b in blocks ==> Fair(b)) && |blocks| >= Work(cfg, s)
    ensures Completed(Exec(cfg, s, Flatten(blocks)))
    decreases |blocks|
  {
    hide Inv, Work, Exec, Completed, Fair;
    if Completed(s) {
      CompletedStays(cfg, s, Flatten(blocks));
    } else {
      WorkIsNonNegative(cfg, s);
      if blocks == [] {
        var block := [Producing, Producing, Consuming, Consuming, Consuming];
        FairExample();
        FairBlockShrinks(cfg, s, block);
        WorkIsNonNegative(cfg, Exec(cfg, s, block));
      } else {
        FairBlockShrinks(cfg, s, blocks[0]);
        WorkShrinks(cfg, s, blocks[0]);
        ExecConcat(cfg, s, blocks[0], Flatten(blocks[1..]));
        FairBlocksComplete(cfg, Exec(cfg, s, blocks[0]), blocks[1..]);
      }
    }
  }

  lemma FairExample()
    ensures Fair([Producing, Producing, Consuming, Consuming, Consuming])
  {
  }

  lemma WorkBound(cfg: Config, s: State)
    requires cfg.Valid() && Inv(cfg, s)
    ensures Work(cfg, s) <= 11 * |cfg.work| + 9
  {
    hide QueueInv;
  }

  /** Every run in which both threads keep stepping completes: from any reachable state with the
      gate open, 11 N + 9 fair blocks bring both threads to their end. */
  lemma FairRunsComplete(cfg: Config, tr: seq<State>, blocks: seq<seq<Actor>>)
    requires cfg.Valid() && Run(cfg, tr) && Last(tr).ready
    requires (forall b :: b in blocks ==> Fair(b)) && |blocks| >= 11 * |cfg.work| + 9
    ensures Inv(cfg, Last(tr)) && Completed(Exec(cfg, Last(tr), Flatten(blocks)))
  {
    hide Inv, Exec, Completed, Fair, Work;
    RunKeepsInv(cfg, tr, |tr| - 1);
    WorkBound(cfg, Last(tr));
    FairBlocksComplete(cfg, Last(tr), blocks);
  }

  /** No reachable state is stuck: whatever the threads have done, the run can still complete. */
  lemma CompletionStaysPossible(cfg: Config, tr: seq<State>) returns (tr': seq<State>)
    requires cfg.Valid() && Run(cfg, tr)
    ensures Run(cfg, tr') && tr <= tr' && Completed(Last(tr'))
  {
    hide ProducerStep, ConsumerStep, Inv, Exec, Completed, Fair;
    RunKeepsInv(cfg, tr, |tr| - 1);
    tr' := Extend(cfg, tr, Last(tr).(ready := true));
    RunKeepsInv(cfg, tr', |tr'| - 1);
    FairExample();
    var blocks := seq(11 * |cfg.work| + 9, _ => [Producing, Producing, Consuming, Consuming, Consuming]);
    FairRunsComplete(cfg, tr', blocks);
    tr' := ExecContinues(cfg, tr', Flatten(blocks));
  }
}
