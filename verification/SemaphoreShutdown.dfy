/** The shutdown of the semaphore benchmark: main posts, sets done, posts once more per waiter
    and joins, while any number of waiters loop around sem_wait. */
module SemaphoreShutdown {

  /** waiters is the number of threads, ops is OPS_PER_ITER, and initial is the value that
      earlier measurements left in the semaphore. */
  datatype Config = Config(waiters: nat, ops: nat, initial: nat)

  datatype Waiter = WSpin | WCheck | WWait | WExit

  datatype Main = MOpen | MPost(i: nat) | MCount(i: nat) | MRelease(t: nat) | MJoin(t: nat) | MReturned

  /** late counts, per waiter, the sem_wait calls it completed after done was set. */
  datatype State = State(sem: nat, ready: bool, done: bool, wakeups: nat, main: Main, ws: seq<Waiter>,
                         taken: nat, late: seq<nat>)

  ghost predicate Init(cfg: Config, s: State) {
    && s.sem == cfg.initial && !s.ready && !s.done && s.wakeups == 0 && s.main == MOpen && s.taken == 0
    && |s.ws| == |s.late| == cfg.waiters
    && forall w :: 0 <= w < cfg.waiters ==> s.ws[w] == WSpin && s.late[w] == 0
  }

  /** Main's next step; a join of a running waiter leaves the state as it is. */
  function MainStep(cfg: Config, s: State): State {
    match s.main
    case MOpen => s.(ready := true, main := MPost(0))
    case MPost(i) =>
      if i < cfg.ops then s.(sem := s.sem + 1, main := MCount(i)) else s.(done := true, main := MRelease(0))
    case MCount(i) => s.(wakeups := s.wakeups + 1, main := MPost(i + 1))
    case MRelease(t) =>
      if t < cfg.waiters then s.(sem := s.sem + 1, main := MRelease(t + 1)) else s.(main := MJoin(0))
    case MJoin(t) =>
      if t >= |s.ws| then s.(main := MReturned)
      else if s.ws[t] == WExit then s.(main := MJoin(t + 1))
      else s
    case MReturned => s
  }

  /** The next step of waiter w; spinning, and blocking in sem_wait, leave the state as it is. */
  function WaiterStep(s: State, w: nat): State
    requires w < |s.ws| == |s.late|
  {
    match s.ws[w]
    case WSpin => if s.ready then s.(ws := s.ws[w := WCheck]) else s
    case WCheck => s.(ws := s.ws[w := if s.done then WExit else WWait])
    case WWait =>
      if s.sem == 0 then s
      else s.(sem := s.sem - 1, ws := s.ws[w := WCheck], taken := s.taken + 1,
              late := if s.done then s.late[w := s.late[w] + 1] else s.late)
    case WExit => s
  }

  ghost predicate Next(cfg: Config, s: State, s': State) {
    || s' == MainStep(cfg, s)
    || exists w: nat :: w < |s.ws| && |s.ws| == |s.late| && s' == WaiterStep(s, w)
  }

  ghost predicate Run(cfg: Config, tr: seq<State>) {
    && |tr| >= 1 && Init(cfg, tr[0])
    && forall k :: 0 <= k < |tr| - 1 ==> Next(cfg, tr[k], tr[k + 1])
  }

  // ---------------------------------------------------------------- the invariant

  /** The posts that main has still to make. */
  function PostsLeft(cfg: Config, m: Main): int {
    match m
    case MOpen => cfg.ops + cfg.waiters
    case MPost(i) => cfg.ops - i + cfg.waiters
    case MCount(i) => cfg.ops - i - 1 + cfg.waiters
    case MRelease(t) => cfg.waiters - t
    case MJoin(_) => 0
    case MReturned => 0
  }

  ghost function Blocked(s: State): nat {
    multiset(s.ws)[WWait]
  }

  ghost predicate Inv(cfg: Config, s: State) {
    && |s.ws| == |s.late| == cfg.waiters
    && s.ready == (s.main != MOpen)
    && s.done == (s.main.MRelease? || s.main.MJoin? || s.main == MReturned)
    && (s.main.MPost? ==> s.main.i <= cfg.ops) && (s.main.MCount? ==> s.main.i < cfg.ops)
    && (s.main.MRelease? ==> s.main.t <= cfg.waiters) && (s.main.MJoin? ==> s.main.t <= cfg.waiters)
    && s.wakeups == (match s.main case MOpen => 0 case MPost(i) => i case MCount(i) => i case _ => cfg.ops)
    // every post is either still in the semaphore or was taken by a waiter
    && s.sem + s.taken + PostsLeft(cfg, s.main) == cfg.initial + cfg.ops + cfg.waiters
    // once done is set, the semaphore and the coming posts cover every waiter inside sem_wait
    && (s.done ==> s.sem + PostsLeft(cfg, s.main) >= Blocked(s))
    && (forall w :: 0 <= w < cfg.waiters ==>
          && s.late[w] + (if s.done && s.ws[w] == WWait then 1 else 0) <= 1
          && (!s.done ==> s.late[w] == 0 && s.ws[w] != WExit))
    && (s.main.MJoin? ==> forall w :: 0 <= w < s.main.t ==> s.ws[w] == WExit)
    && (s.main == MReturned ==> forall w :: 0 <= w < cfg.waiters ==> s.ws[w] == WExit)
  }

  lemma AtMostAll(ws: seq<Waiter>)
    ensures multiset(ws)[WWait] <= |ws|
  {
    assert multiset(ws)[WWait] <= |multiset(ws)|;
  }

  lemma MainKeepsInv(cfg: Config, s: State)
    requires Inv(cfg, s)
    ensures Inv(cfg, MainStep(cfg, s))
  {
    AtMostAll(s.ws);
  }

  lemma WaiterKeepsInv(cfg: Config, s: State, w: nat)
    requires Inv(cfg, s) && w < |s.ws|
    ensures Inv(cfg, WaiterStep(s, w))
  {
  }

  lemma {:induction false} RunKeepsInv(cfg: Config, tr: seq<State>, k: nat)
    requires Run(cfg, tr) && k < |tr|
    ensures Inv(cfg, tr[k])
  {
    hide Inv;
    if k == 0 {
      InitInv(cfg, tr[0]);
    } else {
      RunKeepsInv(cfg, tr, k - 1);
      var s := tr[k - 1];
      assert Next(cfg, s, tr[k]);
      MainKeepsInv(cfg, s);
      if w: nat :| w < |s.ws| && |s.ws| == |s.late| && tr[k] == WaiterStep(s, w) {
        WaiterKeepsInv(cfg, s, w);
      }
    }
  }

  lemma InitInv(cfg: Config, s: State)
    requires Init(cfg, s)
    ensures Inv(cfg, s)
  {
  }

  /** Safety over whole runs: after done, no waiter completes a second sem_wait, and once the
      extra posts are made there is a unit for every waiter inside sem_wait. */
  lemma EveryWaiterIsCovered(cfg: Config, tr: seq<State>, k: nat)
    requires Run(cfg, tr) && k < |tr|
    ensures forall w :: 0 <= w < cfg.waiters ==> w < |tr[k].late| && tr[k].late[w] <= 1
    ensures tr[k].main.MJoin? ==> tr[k].sem >= Blocked(tr[k])
  {
    RunKeepsInv(cfg, tr, k);
  }

  /** When main returns, every waiter has exited, all wake-ups are counted, and the value left
      in the semaphore is what was posted and not taken. */
  lemma FinalState(cfg: Config, tr: seq<State>, k: nat)
    requires Run(cfg, tr) && k < |tr| && tr[k].main == MReturned
    ensures forall w :: 0 <= w < |tr[k].ws| ==> tr[k].ws[w] == WExit
    ensures tr[k].wakeups == cfg.ops
    ensures tr[k].sem + tr[k].taken == cfg.initial + cfg.ops + cfg.waiters
  {
    RunKeepsInv(cfg, tr, k);
  }

  // ---------------------------------------------------------------- progress

  /** No deadlock: until main has returned, some thread can make a step that changes the state. */
  lemma SomeoneCanMove(cfg: Config, tr: seq<State>, k: nat)
    requires Run(cfg, tr) && k < |tr| && tr[k].main != MReturned
    ensures exists s' :: Next(cfg, tr[k], s') && s' != tr[k]
  {
    hide Inv, Next;
    RunKeepsInv(cfg, tr, k);
    CanMove(cfg, tr[k]);
  }

  lemma CanMove(cfg: Config, s: State)
    requires Inv(cfg, s) && s.main != MReturned
    ensures exists s' :: Next(cfg, s, s') && s' != s
  {
    assert Next(cfg, s, MainStep(cfg, s));
    if s.main.MJoin? && s.main.t < |s.ws| && s.ws[s.main.t] != WExit {
      var w := s.main.t;
      assert s.ws[w] == WWait ==> Blocked(s) > 0;
      var s' := WaiterStep(s, w);
      assert Next(cfg, s, s');
      assert s'.ws[w] != s.ws[w];
    }
  }

  function MainWeight(cfg: Config, m: Main): int {
    5 * PostsLeft(cfg, m) +
    match m
    case MOpen => cfg.waiters + 4
    case MPost(_) => cfg.waiters + 3
    case MCount(_) => cfg.waiters + 4
    case MRelease(_) => cfg.waiters + 2
    case MJoin(t) => cfg.waiters - t + 1
    case MReturned => 0
  }

  function WaiterWeight(w: Waiter): nat {
    match w
    case WSpin => 3
    case WCheck => 2
    case WWait => 1
    case WExit => 0
  }

  function WaitersWeight(ws: seq<Waiter>): nat {
    if ws == [] then 0 else WaitersWeight(ws[..|ws| - 1]) + WaiterWeight(ws[|ws| - 1])
  }

  /** A bound on the number of further steps that change the state. */
  function Measure(cfg: Config, s: State): int {
    MainWeight(cfg, s.main) + 3 * s.sem + WaitersWeight(s.ws)
  }

  lemma MeasureDecreases(cfg: Config, s: State, s': State)
    requires Inv(cfg, s) && Next(cfg, s, s')
    ensures s' != s ==> Measure(cfg, s') < Measure(cfg, s)
  {
    hide Inv, Measure, MainStep, WaiterStep;
    MainMeasure(cfg, s);
    if w: nat :| w < |s.ws| && |s.ws| == |s.late| && s' == WaiterStep(s, w) {
      WaiterMeasure(cfg, s, w);
    }
  }

  lemma MainMeasure(cfg: Config, s: State)
    requires Inv(cfg, s)
    ensures MainStep(cfg, s) != s ==> Measure(cfg, MainStep(cfg, s)) < Measure(cfg, s)
  {
  }

  lemma WaiterMeasure(cfg: Config, s: State, w: nat)
    requires w < |s.ws| == |s.late|
    ensures WaiterStep(s, w) != s ==> Measure(cfg, WaiterStep(s, w)) < Measure(cfg, s)
  {
    hide MainWeight, WaitersWeight;
    WeightMoves(s.ws, w, WaiterStep(s, w).ws[w]);
  }

  /** How the weight changes when one waiter moves from its state to x. */
  lemma {:induction false} WeightMoves(ws: seq<Waiter>, w: nat, x: Waiter)
    requires w < |ws|
    ensures WaitersWeight(ws[w := x]) == WaitersWeight(ws) - WaiterWeight(ws[w]) + WaiterWeight(x)
  {
    hide WaiterWeight;
    var init := ws[..|ws| - 1];
    if w < |init| {
      WeightMoves(init, w, x);
      assert ws[w := x][..|ws| - 1] == init[w := x];
    } else {
      assert ws[w := x][..|ws| - 1] == init;
    }
  }

  /** The number of steps of a run that change the state. */
  ghost function Moves(tr: seq<State>): nat {
    if |tr| <= 1 then 0
    else Moves(tr[..|tr| - 1]) + if tr[|tr| - 1] != tr[|tr| - 2] then 1 else 0
  }

  /** Every run changes the state a bounded number of times: together with SomeoneCanMove, all
      joins return in every run in which threads that can move eventually do. */
  lemma {:induction false} MovesAreBounded(cfg: Config, tr: seq<State>)
    requires Run(cfg, tr)
    ensures Moves(tr) + Measure(cfg, tr[|tr| - 1]) <= Measure(cfg, tr[0])
    ensures Moves(tr) <= 5 * cfg.ops + 9 * cfg.waiters + 3 * cfg.initial + 4
  {
    hide Inv, Next, Measure;
    var n := |tr| - 1;
    if n > 0 {
      var init := tr[..n];
      assert Run(cfg, init) by {
        forall k | 0 <= k < n - 1 ensures Next(cfg, init[k], init[k + 1]) {
          assert Next(cfg, tr[k], tr[k + 1]);
        }
      }
      MovesAreBounded(cfg, init);
      RunKeepsInv(cfg, tr, n - 1);
      assert Next(cfg, tr[n - 1], tr[n - 1 + 1]);
      MeasureDecreases(cfg, tr[n - 1], tr[n]);
    }
    InitialMeasure(cfg, tr[0]);
    RunKeepsInv(cfg, tr, n);
    MeasureNonNegative(cfg, tr[n]);
  }

  lemma InitialMeasure(cfg: Config, s: State)
    requires Init(cfg, s)
    ensures Measure(cfg, s) <= 5 * cfg.ops + 9 * cfg.waiters + 3 * cfg.initial + 4
  {
    SpinningWeight(s.ws);
  }

  lemma {:induction false} SpinningWeight(ws: seq<Waiter>)
    requires forall w :: 0 <= w < |ws| ==> ws[w] == WSpin
    ensures WaitersWeight(ws) == 3 * |ws|
  {
    if ws != [] {
      SpinningWeight(ws[..|ws| - 1]);
    }
  }

  lemma MeasureNonNegative(cfg: Config, s: State)
    requires Inv(cfg, s)
    ensures Measure(cfg, s) >= 0
  {
  }

  ghost predicate Stuck(cfg: Config, s: State) {
    forall s' :: Next(cfg, s, s') ==> s' == s
  }

  /** A run can go no further exactly when main has returned from all joins: every run that is
      not cut short, whatever order its steps come in, ends there. */
  lemma StuckExactlyWhenReturned(cfg: Config, tr: seq<State>)
    requires Run(cfg, tr)
    ensures Stuck(cfg, tr[|tr| - 1]) <==> tr[|tr| - 1].main == MReturned
  {
    RunKeepsInv(cfg, tr, |tr| - 1);
    if tr[|tr| - 1].main != MReturned {
      CanMove(cfg, tr[|tr| - 1]);
    }
  }

  /** Whatever has happened so far, at most Measure further steps that change the state lead to
      the return of every join. */
  lemma {:induction false} JoinsReturn(cfg: Config, tr: seq<State>) returns (tr': seq<State>)
    requires Run(cfg, tr)
    ensures Run(cfg, tr') && tr <= tr' && tr'[|tr'| - 1].main == MReturned
    ensures |tr'| - |tr| <= Measure(cfg, tr[|tr| - 1])
    decreases Measure(cfg, tr[|tr| - 1])
  {
    hide Inv, Next, Measure;
    var s := tr[|tr| - 1];
    RunKeepsInv(cfg, tr, |tr| - 1);
    MeasureNonNegative(cfg, s);
    if s.main == MReturned {
      tr' := tr;
    } else {
      SomeoneCanMove(cfg, tr, |tr| - 1);
      var s' :| Next(cfg, s, s') && s' != s;
      MeasureDecreases(cfg, s, s');
      var longer := tr + [s'];
      assert Run(cfg, longer) by {
        forall k | 0 <= k < |longer| - 1 ensures Next(cfg, longer[k], longer[k + 1]) {
          assert k < |tr| - 1 ==> Next(cfg, tr[k], tr[k + 1]);
        }
      }
      RunKeepsInv(cfg, longer, |tr|);
      MeasureNonNegative(cfg, s');
      tr' := JoinsReturn(cfg, longer);
    }
  }

  // ---------------------------------------------------------------- every fair run returns

  datatype Actor = MainThread | Thread(w: nat)

  function StepBy(cfg: Config, s: State, a: Actor): State {
    match a
    case MainThread => MainStep(cfg, s)
    case Thread(w) => if w < |s.ws| == |s.late| then WaiterStep(s, w) else s
  }

  /** A step of the machine is a step of some thread, or of none. */
  lemma NextIsStep(cfg: Config, s: State, s': State) returns (a: Actor)
    requires Next(cfg, s, s')
    ensures s' == StepBy(cfg, s, a)
    ensures a.Thread? ==> a.w < |s.ws|
  {
    hide MainStep, WaiterStep;
    if s' == MainStep(cfg, s) {
      a := MainThread;
    } else {
      var w: nat :| w < |s.ws| && |s.ws| == |s.late| && s' == WaiterStep(s, w);
      a := Thread(w);
    }
  }

  lemma StepKeepsInv(cfg: Config, s: State, a: Actor)
    requires Inv(cfg, s)
    ensures Inv(cfg, StepBy(cfg, s, a))
    ensures StepBy(cfg, s, a) != s ==> Measure(cfg, StepBy(cfg, s, a)) < Measure(cfg, s)
  {
    hide Inv, Measure, MainStep, WaiterStep;
    MainKeepsInv(cfg, s);
    MainMeasure(cfg, s);
    if a.Thread? && a.w < |s.ws| == |s.late| {
      WaiterKeepsInv(cfg, s, a.w);
      WaiterMeasure(cfg, s, a.w);
    }
  }

  /** The state after the threads of sched have stepped, one after another. */
  function Exec(cfg: Config, s: State, sched: seq<Actor>): State
    decreases |sched|
  {
    if sched == [] then s else Exec(cfg, StepBy(cfg, s, sched[0]), sched[1..])
  }

  /** A sequence of steps lowers the measure unless every one of its threads was blocked. */
  lemma {:induction false} MovesOrBlocked(cfg: Config, s: State, sched: seq<Actor>)
    requires Inv(cfg, s)
    ensures Inv(cfg, Exec(cfg, s, sched))
    ensures || Measure(cfg, Exec(cfg, s, sched)) < Measure(cfg, s)
            || (Exec(cfg, s, sched) == s && forall a :: a in sched ==> StepBy(cfg, s, a) == s)
    decreases |sched|
  {
    hide Inv, Measure, StepBy;
    if sched != [] {
      StepKeepsInv(cfg, s, sched[0]);
      MovesOrBlocked(cfg, StepBy(cfg, s, sched[0]), sched[1..]);
    }
  }

  /** In a round of a fair schedule every thread steps, in any order and any number of times. */
  ghost predicate Fair(cfg: Config, round: seq<Actor>) {
    MainThread in round && forall w: nat :: w < cfg.waiters ==> Thread(w) in round
  }

  lemma FairRoundMoves(cfg: Config, s: State, round: seq<Actor>)
    requires Inv(cfg, s) && s.main != MReturned && Fair(cfg, round)
    ensures Measure(cfg, Exec(cfg, s, round)) < Measure(cfg, s)
  {
    hide Measure, Exec, StepBy, Next;
    MovesOrBlocked(cfg, s, round);
    CanMove(cfg, s);
    var s' :| Next(cfg, s, s') && s' != s;
    var a := NextIsStep(cfg, s, s');
    assert a in round by {
      assert a.Thread? ==> a == Thread(a.w) && a.w < cfg.waiters;
    }
  }

  lemma {:induction false} ReturnedStays(cfg: Config, s: State, sched: seq<Actor>)
    requires Inv(cfg, s) && s.main == MReturned
    ensures Exec(cfg, s, sched) == s
    decreases |sched|
  {
    if sched != [] {
      assert StepBy(cfg, s, sched[0]) == s;
      ReturnedStays(cfg, s, sched[1..]);
    }
  }

  function Flatten(rounds: seq<seq<Actor>>): seq<Actor> {
    if rounds == [] then [] else rounds[0] + Flatten(rounds[1..])
  }

  lemma {:induction false} ExecConcat(cfg: Config, s: State, a: seq<Actor>, b: seq<Actor>)
    ensures Exec(cfg, s, a + b) == Exec(cfg, Exec(cfg, s, a), b)
    decreases |a|
  {
    hide StepBy;
    if a == [] {
      assert a + b == b;
    } else {
      ExecConcat(cfg, StepBy(cfg, s, a[0]), a[1..], b);
      assert (a + b)[1..] == a[1..] + b;
    }
  }

  lemma {:induction false} FairRoundsReturn(cfg: Config, s: State, rounds: seq<seq<Actor>>)
    requires Inv(cfg, s) && (forall r :: r in rounds ==> Fair(cfg, r)) && |rounds| >= Measure(cfg, s)
    ensures Exec(cfg, s, Flatten(rounds)).main == MReturned
    decreases |rounds|
  {
    hide Inv, Measure, Exec, Fair;
    MeasureNonNegative(cfg, s);
    if s.main == MReturned {
      ReturnedStays(cfg, s, Flatten(rounds));
    } else if rounds == [] {
      NothingLeft(cfg, s);
    } else {
      FairRoundMoves(cfg, s, rounds[0]);
      MovesOrBlocked(cfg, s, rounds[0]);
      ExecConcat(cfg, s, rounds[0], Flatten(rounds[1..]));
      FairRoundsReturn(cfg, Exec(cfg, s, rounds[0]), rounds[1..]);
    }
  }

  lemma NothingLeft(cfg: Config, s: State)
    requires Inv(cfg, s) && Measure(cfg, s) <= 0
    ensures s.main == MReturned
  {
  }

  /** All joins return in every run in which no thread is left out for good: from any reachable
      state, as many fair rounds as the bound on moves end with main returned. */
  lemma FairRunsReturn(cfg: Config, tr: seq<State>, rounds: seq<seq<Actor>>)
    requires Run(cfg, tr) && (forall r :: r in rounds ==> Fair(cfg, r))
    requires |rounds| >= 5 * cfg.ops + 9 * cfg.waiters + 3 * cfg.initial + 4
    ensures Exec(cfg, tr[|tr| - 1], Flatten(rounds)).main == MReturned
  {
    hide Inv, Measure, Exec, Fair, Moves;
    RunKeepsInv(cfg, tr, |tr| - 1);
    MovesAreBounded(cfg, tr);
    InitialMeasure(cfg, tr[0]);
    FairRoundsReturn(cfg, tr[|tr| - 1], rounds);
  }
}
