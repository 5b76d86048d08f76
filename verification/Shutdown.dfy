/** The shutdown handshake between finalize and the update thread. */
module Shutdown {
  import opened UpdateProtocol
  import opened SnapshotSafety

  predicate HasPosted(fin: Finalizer) {
    fin == Posted || fin == Joined
  }

  ghost predicate ShutdownInv<R, P, S>(s: State<R, P, S>) {
    && LockInv(s)
    && (s.active <==> s.fin == NotCalled)
    && (HasPosted(s.fin) && s.pc == Wait ==> s.sem > 0)
    && (s.pc.Exiting? || s.pc.Exited? ==> !s.active)
    && s.exitSem + (if s.fin == Joined then 1 else 0) == (if s.pc.Exited? then 1 else 0)
    && (s.pc.Next? ==> s.pc.i <= |s.participants|)
    && (s.pc.ConvertLock? || s.pc.Converting? || SampleReady(s.pc) ==> s.pc.i < |s.participants|)
  }

  lemma ShutdownControl<R, P, S>(env: Env<R, P, S>, s: State<R, P, S>, l: Label<R>, s': State<R, P, S>)
    requires ShutdownInv(s) && LockInv(s') && ControlStep(env, s, l, s')
    ensures ShutdownInv(s')
  {}

  lemma ShutdownMutex<R, P, S>(env: Env<R, P, S>, s: State<R, P, S>, l: Label<R>, s': State<R, P, S>)
    requires ShutdownInv(s) && LockInv(s') && (TakeMutexStep(env, s, l, s') || GiveMutexStep(s, l, s'))
    ensures ShutdownInv(s')
  {}

  lemma ShutdownWork<R, P, S>(env: Env<R, P, S>, s: State<R, P, S>, l: Label<R>, s': State<R, P, S>)
    requires ShutdownInv(s) && LockInv(s') && (WorkStep(env, s, l, s') || GiveUpStep(s, l, s'))
    ensures ShutdownInv(s')
  {}

  lemma ShutdownInvStep<R, P, S>(env: Env<R, P, S>, s: State<R, P, S>, l: Label<R>, s': State<R, P, S>)
    requires ShutdownInv(s) && Step(env, s, l, s')
    ensures ShutdownInv(s')
  {
    LockInvStep(env, s, l, s');
    if ApiStep(env, s, l, s') {
    } else if FinalizerStep(s, l, s') {
    } else if ControlStep(env, s, l, s') {
      ShutdownControl(env, s, l, s');
    } else if TakeMutexStep(env, s, l, s') || GiveMutexStep(s, l, s') {
      ShutdownMutex(env, s, l, s');
    } else {
      ShutdownWork(env, s, l, s');
    }
  }

  lemma {:induction false} RunShutdownInv<R, P, S>(
      env: Env<R, P, S>, states: seq<State<R, P, S>>, labels: seq<Label<R>>, k: nat)
    requires IsRun(env, states, labels) && k < |states|
    ensures ShutdownInv(states[k])
  {
    if k > 0 {
      RunShutdownInv(env, states, labels, k - 1);
      assert StepAt(env, states, labels, k - 1);
      ShutdownInvStep(env, states[k - 1], labels[k - 1], states[k]);
    }
  }

  /** In every interleaving, API calls included: once finalize has cleared the
      flag and posted, the thread is never blocked on an empty semaphore; once
      it has signalled its exit, and in particular once finalize has gone past
      the handshake, it holds no mutex and has no further step. */
  lemma HandshakeIsSafe<R, P, S>(env: Env<R, P, S>, states: seq<State<R, P, S>>, labels: seq<Label<R>>, k: nat)
    requires IsRun(env, states, labels) && k < |states|
    ensures var s := states[k];
      && (HasPosted(s.fin) && s.pc == Wait ==> s.sem > 0)
      && (s.exitSem > 0 || s.fin == Joined ==>
        && s.Wf() && !s.lock.HeldByUpdater?
        && forall l, s' :: !UpdaterStep(env, s, l, s'))
  {
    RunShutdownInv(env, states, labels, k);
  }

  // ---- The thread exits after a bounded number of its own steps ----

  /** An upper bound on the steps left to a thread whose flag is cleared. */
  function Rank<R, P, S>(env: Env<R, P, S>, s: State<R, P, S>): int
    requires s.Wf()
  {
    var n := 5 * |env.parts(s.Current())|;
    match s.pc
    case Exited => 0
    case Exiting => 1
    case Top => 2
    case Woken(_) => 3
    case Wait => 4
    case Next(i) => 3 + 5 * (|s.participants| - i)
    case Publishing(i) => -1 + 5 * (|s.participants| - i)
    case Converted(i) => 0 + 5 * (|s.participants| - i)
    case Converting(i) => 1 + 5 * (|s.participants| - i)
    case ConvertLock(i) => 2 + 5 * (|s.participants| - i)
    case Gathered => 4 + 5 * |s.participants|
    case Gathering => 5 + n
    case GatherLock => 6 + n
    case Drain => 7 + n + s.sem
    case PollTake => 8 + n + s.sem
    case Polling(left) => 9 + n + s.sem + left
    case PollLock => 10 + n + s.sem + env.nodeCount(s.Current())
  }

  lemma RankBounds<R, P, S>(env: Env<R, P, S>, s: State<R, P, S>)
    requires ShutdownInv(s)
    ensures 0 <= Rank(env, s)
    ensures Rank(env, s) == 0 <==> s.pc.Exited?
    ensures !s.pc.Polling? ==>
      Rank(env, s) <= 10 + s.sem + env.nodeCount(s.Current()) + 5 * (|env.parts(s.Current())| + |s.participants|)
  {}

  lemma RankFallsOnControl<R, P, S>(env: Env<R, P, S>, s: State<R, P, S>, l: Label<R>, s': State<R, P, S>)
    requires ShutdownInv(s) && HasPosted(s.fin) && s'.Wf() && ControlStep(env, s, l, s')
    ensures Rank(env, s') < Rank(env, s)
  {}

  lemma RankFallsOnMutex<R, P, S>(env: Env<R, P, S>, s: State<R, P, S>, l: Label<R>, s': State<R, P, S>)
    requires ShutdownInv(s) && s'.Wf() && (TakeMutexStep(env, s, l, s') || GiveMutexStep(s, l, s'))
    ensures Rank(env, s') < Rank(env, s)
  {}

  lemma RankFallsOnWork<R, P, S>(env: Env<R, P, S>, s: State<R, P, S>, l: Label<R>, s': State<R, P, S>)
    requires ShutdownInv(s) && s'.Wf() && (WorkStep(env, s, l, s') || GiveUpStep(s, l, s'))
    ensures Rank(env, s') < Rank(env, s)
  {}

  lemma RankFalls<R, P, S>(env: Env<R, P, S>, s: State<R, P, S>, l: Label<R>, s': State<R, P, S>)
    requires ShutdownInv(s) && HasPosted(s.fin) && s'.Wf() && UpdaterStep(env, s, l, s')
    ensures Rank(env, s') < Rank(env, s)
  {
    if ControlStep(env, s, l, s') {
      RankFallsOnControl(env, s, l, s');
    } else if TakeMutexStep(env, s, l, s') || GiveMutexStep(s, l, s') {
      RankFallsOnMutex(env, s, l, s');
    } else {
      RankFallsOnWork(env, s, l, s');
    }
  }

  /** With no API call in progress the thread always has a step to take. */
  lemma ThreadIsNotBlocked<R, P, S>(env: Env<R, P, S>, s: State<R, P, S>)
    returns (l: Label<R>, s': State<R, P, S>)
    requires ShutdownInv(s) && HasPosted(s.fin) && !s.lock.HeldByApi? && !s.pc.Exited?
    ensures UpdaterStep(env, s, l, s')
  {
    match s.pc {
      case Top => l, s' := Proceed, s.(pc := Exiting);
      case Wait => l, s' := Proceed, s.(sem := s.sem - 1, pc := Woken(Token));
      case Woken(_) => l, s' := Proceed, s.(pc := Top);
      case PollLock => l, s' := Proceed, s.(lock := HeldByUpdater, pc := Polling(env.nodeCount(s.Current())));
      case Polling(left) =>
        if left > 0 {
          l, s' := PollNode(s.Current()), s.(hist := s.hist + [s.Current()], pc := Polling(left - 1));
        } else {
          l, s' := Proceed, s.(lock := Free, settled := s.settled + {s.Version()}, pc := PollTake);
        }
      case PollTake =>
        if s.sem > 0 {
          l, s' := Proceed, s.(sem := s.sem - 1, pc := Drain);
        } else {
          l, s' := TimeOut, s.(pc := Top);
        }
      case Drain =>
        if s.sem > 0 {
          l, s' := Proceed, s.(sem := s.sem - 1);
        } else {
          l, s' := TimeOut, s.(pc := GatherLock);
        }
      case GatherLock => l, s' := Proceed, s.(lock := HeldByUpdater, pc := Gathering);
      case Gathering => l, s' := Proceed, s.(participants := env.parts(s.Current()), missed := false, pc := Gathered);
      case Gathered => l, s' := Proceed, s.(lock := Free, settled := s.settled + {s.Version()}, pc := Next(0));
      case Next(i) => l, s' := Proceed, s.(pc := if i < |s.participants| then ConvertLock(i) else Top);
      case ConvertLock(i) => l, s' := Proceed, s.(lock := HeldByUpdater, pc := Converting(i));
      case Converting(i) => l, s' := Fail, s.(pc := Top, missed := true, lock := Free);
      case Converted(i) =>
        l, s' := Proceed, s.(lock := Free, settled := s.settled + {s.Version()}, pc := Publishing(i));
      case Publishing(i) => l, s' := Fail, s.(pc := Top, missed := true);
      case Exiting => l, s' := Proceed, s.(exitSem := s.exitSem + 1, pc := Exited);
    }
  }

  /** Whether step k of a run is the thread's. */
  ghost predicate IsThreadStep<R, P, S>(env: Env<R, P, S>, states: seq<State<R, P, S>>, labels: seq<Label<R>>, k: nat)
    requires |states| == |labels| + 1 && k < |labels|
  {
    states[k].Wf() && UpdaterStep(env, states[k], labels[k], states[k + 1])
  }

  /** How many of the steps from a to b are the thread's. */
  ghost function ThreadSteps<R, P, S>(
      env: Env<R, P, S>, states: seq<State<R, P, S>>, labels: seq<Label<R>>, a: nat, b: nat): nat
    requires |states| == |labels| + 1 && a <= b <= |labels|
  {
    CountTrue(seq(b - a, k requires 0 <= k < b - a => IsThreadStep(env, states, labels, a + k)))
  }

  function CountTrue(s: seq<bool>): nat {
    if s == [] then 0 else CountTrue(s[..|s| - 1]) + if s[|s| - 1] then 1 else 0
  }

  /** If every counted step lowers the rank and no step raises it, the rank
      bounds the count. */
  lemma {:induction false} RankBoundsCount(ranks: seq<int>, moved: seq<bool>)
    requires |ranks| == |moved| + 1
    requires forall k :: 0 <= k < |moved| ==> ranks[k + 1] + (if moved[k] then 1 else 0) <= ranks[k]
    ensures CountTrue(moved) + ranks[|moved|] <= ranks[0]
  {
    if moved != [] {
      RankBoundsCount(ranks[..|moved|], moved[..|moved| - 1]);
    }
  }

  /** A thread that is on its way out, with no API call to wait for. */
  ghost predicate WindingDown<R, P, S>(s: State<R, P, S>) {
    ShutdownInv(s) && HasPosted(s.fin) && !s.lock.HeldByApi?
  }

  lemma StepLowersRank<R, P, S>(env: Env<R, P, S>, s: State<R, P, S>, l: Label<R>, s': State<R, P, S>)
    requires WindingDown(s) && ShutdownInv(s') && Step(env, s, l, s') && !IsApiLabel(l)
    ensures WindingDown(s')
    ensures Rank(env, s') + (if UpdaterStep(env, s, l, s') then 1 else 0) <= Rank(env, s)
  {
    if UpdaterStep(env, s, l, s') {
      RankFalls(env, s, l, s');
      UpdaterLeavesApiAlone(env, s, l, s');
    } else {
      assert FinalizerStep(s, l, s');
    }
  }

  lemma UpdaterLeavesApiAlone<R, P, S>(env: Env<R, P, S>, s: State<R, P, S>, l: Label<R>, s': State<R, P, S>)
    requires s.Wf() && UpdaterStep(env, s, l, s')
    ensures s'.fin == s.fin && (s'.lock.HeldByApi? ==> s'.lock == s.lock)
  {}

  ghost function RankAt<R, P, S>(env: Env<R, P, S>, states: seq<State<R, P, S>>, k: nat): int
    requires k < |states|
  {
    if states[k].Wf() then Rank(env, states[k]) else 0
  }

  lemma RunStepLowersRank<R, P, S>(env: Env<R, P, S>, states: seq<State<R, P, S>>, labels: seq<Label<R>>, k: nat)
    requires IsRun(env, states, labels) && k < |labels| && !IsApiLabel(labels[k]) && WindingDown(states[k])
    ensures WindingDown(states[k + 1])
    ensures RankAt(env, states, k + 1) + (if IsThreadStep(env, states, labels, k) then 1 else 0)
         <= RankAt(env, states, k)
  {
    RunShutdownInv(env, states, labels, k + 1);
    assert StepAt(env, states, labels, k);
    StepLowersRank(env, states[k], labels[k], states[k + 1]);
  }

  lemma {:induction false} RunStaysWindingDown<R, P, S>(
      env: Env<R, P, S>, states: seq<State<R, P, S>>, labels: seq<Label<R>>, a: nat, b: nat)
    requires IsRun(env, states, labels) && a <= b <= |labels|
    requires HasPosted(states[a].fin) && !states[a].lock.HeldByApi?
    requires forall k :: a <= k < b ==> !IsApiLabel(labels[k])
    ensures WindingDown(states[b])
    decreases b - a
  {
    if a < b {
      RunStaysWindingDown(env, states, labels, a, b - 1);
      RunStepLowersRank(env, states, labels, b - 1);
    } else {
      RunShutdownInv(env, states, labels, a);
    }
  }

  lemma RunStepIsPaid<R, P, S>(
      env: Env<R, P, S>, states: seq<State<R, P, S>>, labels: seq<Label<R>>, a: nat, b: nat)
    requires IsRun(env, states, labels) && a <= b < |labels|
    requires HasPosted(states[a].fin) && !states[a].lock.HeldByApi?
    requires forall k :: a <= k <= b ==> !IsApiLabel(labels[k])
    ensures RankAt(env, states, b + 1) + (if IsThreadStep(env, states, labels, b) then 1 else 0)
         <= RankAt(env, states, b)
  {
    RunStaysWindingDown(env, states, labels, a, b);
    RunStepLowersRank(env, states, labels, b);
  }

  lemma RankAtBounds<R, P, S>(
      env: Env<R, P, S>, states: seq<State<R, P, S>>, labels: seq<Label<R>>, k: nat)
    requires IsRun(env, states, labels) && k < |states|
    ensures RankAt(env, states, k) >= 0 && (RankAt(env, states, k) == 0 <==> states[k].pc.Exited?)
  {
    RunShutdownInv(env, states, labels, k);
    RankBounds(env, states[k]);
  }

  /** From the moment finalize has posted, with no API call in progress or to
      come, every run gives the thread at most Rank steps before it exits,
      whatever it was doing: waiting, polling, draining the shutdown token,
      converting or publishing. */
  lemma ThreadExitsWithinRank<R, P, S>(
      env: Env<R, P, S>, states: seq<State<R, P, S>>, labels: seq<Label<R>>, a: nat, b: nat)
    requires IsRun(env, states, labels) && a <= b <= |labels|
    requires forall k :: a <= k < b ==> !IsApiLabel(labels[k])
    requires HasPosted(states[a].fin) && !states[a].lock.HeldByApi?
    ensures ThreadSteps(env, states, labels, a, b) <= RankAt(env, states, a)
    ensures ThreadSteps(env, states, labels, a, b) == RankAt(env, states, a) ==> states[b].pc.Exited?
  {
    var moved := seq(b - a, k requires 0 <= k < b - a => IsThreadStep(env, states, labels, a + k));
    var ranks := seq(b - a + 1, k requires 0 <= k < b - a + 1 => RankAt(env, states, a + k));
    forall k | 0 <= k < b - a
      ensures ranks[k + 1] + (if moved[k] then 1 else 0) <= ranks[k]
    {
      RunStepIsPaid(env, states, labels, a, a + k);
    }
    RankBoundsCount(ranks, moved);
    RankAtBounds(env, states, labels, b);
  }

  // ---- Finalize gets through ----

  /** Once finalize has posted and the thread has signalled its exit, finalize is
      not blocked on its last take: it goes past it, and leaves no signal behind. */
  lemma FinalizeGetsThrough<R, P, S>(
      env: Env<R, P, S>, states: seq<State<R, P, S>>, labels: seq<Label<R>>, k: nat)
    requires IsRun(env, states, labels) && k < |states| && states[k].fin == Posted && states[k].pc.Exited?
    ensures var s := states[k];
      FinalizerStep(s, FinalizeJoin, s.(fin := Joined, exitSem := 0))
    ensures forall s' :: FinalizerStep(states[k], FinalizeJoin, s') ==> s'.fin == Joined && s'.exitSem == 0
  {
    RunShutdownInv(env, states, labels, k);
  }

  /** A path from s to s' without API steps. */
  ghost predicate QuietPath<R, P, S>(env: Env<R, P, S>, states: seq<State<R, P, S>>, labels: seq<Label<R>>,
                                     s: State<R, P, S>, s': State<R, P, S>) {
    && IsPath(env, states, labels) && states[0] == s && states[|labels|] == s'
    && forall k :: 0 <= k < |labels| ==> !IsApiLabel(labels[k])
  }

  lemma QuietPathCons<R, P, S>(
      env: Env<R, P, S>, s: State<R, P, S>, l: Label<R>,
      states: seq<State<R, P, S>>, labels: seq<Label<R>>, s1: State<R, P, S>, s': State<R, P, S>)
    requires Step(env, s, l, s1) && !IsApiLabel(l) && QuietPath(env, states, labels, s1, s')
    ensures QuietPath(env, [s] + states, [l] + labels, s, s')
  {
    hide Step;
    var states', labels' := [s] + states, [l] + labels;
    forall k | 0 <= k < |labels'|
      ensures StepAt(env, states', labels', k)
    {
      if k > 0 {
        assert StepAt(env, states, labels, k - 1);
        assert states'[k] == states[k - 1] && states'[k + 1] == states[k] && labels'[k] == labels[k - 1];
      }
    }
  }

  /** A thread on its way out exits by its own steps. */
  lemma {:induction false} ThreadExits<R, P, S>(env: Env<R, P, S>, s: State<R, P, S>)
    returns (states: seq<State<R, P, S>>, labels: seq<Label<R>>, s': State<R, P, S>)
    requires WindingDown(s)
    ensures QuietPath(env, states, labels, s, s') && WindingDown(s') && s'.pc.Exited? && s'.fin == s.fin
    decreases Rank(env, s)
  {
    hide UpdaterStep, ShutdownInv;
    if s.pc.Exited? {
      states, labels, s' := [s], [], s;
    } else {
      var l, s1 := NextThreadStep(env, s);
      states, labels, s' := ThreadExits(env, s1);
      QuietPathCons(env, s, l, states, labels, s1, s');
      states, labels := [s] + states, [l] + labels;
    }
  }

  lemma NextThreadStep<R, P, S>(env: Env<R, P, S>, s: State<R, P, S>) returns (l: Label<R>, s': State<R, P, S>)
    requires WindingDown(s) && !s.pc.Exited?
    ensures Step(env, s, l, s') && !IsApiLabel(l) && WindingDown(s') && s'.fin == s.fin
    ensures 0 <= Rank(env, s') < Rank(env, s)
  {
    l, s' := ThreadIsNotBlocked(env, s);
    ThreadLabels(env, s, l, s');
    ShutdownInvStep(env, s, l, s');
    RankFalls(env, s, l, s');
    RankBounds(env, s');
    UpdaterLeavesApiAlone(env, s, l, s');
  }

  lemma ThreadLabels<R, P, S>(env: Env<R, P, S>, s: State<R, P, S>, l: Label<R>, s': State<R, P, S>)
    requires s.Wf() && UpdaterStep(env, s, l, s')
    ensures !IsApiLabel(l)
  {}

  lemma PathSnoc<R, P, S>(
      env: Env<R, P, S>, states: seq<State<R, P, S>>, labels: seq<Label<R>>, l: Label<R>, s': State<R, P, S>)
    requires IsPath(env, states, labels) && Step(env, states[|labels|], l, s')
    ensures IsPath(env, states + [s'], labels + [l])
  {
    hide Step;
    var states', labels' := states + [s'], labels + [l];
    forall k | 0 <= k < |labels'|
      ensures StepAt(env, states', labels', k)
    {
      if k < |labels| {
        assert StepAt(env, states, labels, k);
        assert states'[k] == states[k] && states'[k + 1] == states[k + 1] && labels'[k] == labels[k];
      }
    }
  }

  /** Finalize is past the handshake, and the thread is gone. */
  predicate Finalized<R, P, S>(s: State<R, P, S>) {
    s.fin == Joined && s.exitSem == 0 && s.pc.Exited? && s.lock.Free?
  }

  lemma FinalizeFrom<R, P, S>(env: Env<R, P, S>, s: State<R, P, S>)
    returns (states: seq<State<R, P, S>>, labels: seq<Label<R>>)
    requires ShutdownInv(s) && s.fin == NotCalled && !s.lock.HeldByApi?
    ensures IsPath(env, states, labels) && states[0] == s
    ensures forall j :: 0 <= j < |labels| ==> !IsApiLabel(labels[j])
    ensures Finalized(states[|labels|])
  {
    hide UpdaterStep, ApiStep;
    var s1 := s.(fin := Cleared, active := false);
    var s2 := s1.(fin := Posted, sem := s.sem + 1);
    assert Step(env, s, FinalizeClear, s1) && Step(env, s1, FinalizePost, s2);
    ShutdownInvStep(env, s, FinalizeClear, s1);
    ShutdownInvStep(env, s1, FinalizePost, s2);
    var s3;
    states, labels, s3 := ThreadExits(env, s2);
    QuietPathCons(env, s1, FinalizePost, states, labels, s2, s3);
    QuietPathCons(env, s, FinalizeClear, [s1] + states, [FinalizePost] + labels, s1, s3);
    states, labels := [s] + ([s1] + states), [FinalizeClear] + ([FinalizePost] + labels);
    var s4 := s3.(fin := Joined, exitSem := 0);
    assert Step(env, s3, FinalizeJoin, s4);
    PathSnoc(env, states, labels, FinalizeJoin, s4);
    states, labels := states + [s4], labels + [FinalizeJoin];
  }

  /** The points that a call can be at. */
  predicate CallPointOk(lock: Lock) {
    lock.HeldByApi? ==>
      && (lock.point.RolledBack? ==> lock.call == RegisterNodeCall)
      && (lock.call == UnregisterNodeCall ==> lock.point != Queued)
  }

  lemma CallPointStep<R, P, S>(env: Env<R, P, S>, s: State<R, P, S>, l: Label<R>, s': State<R, P, S>)
    requires CallPointOk(s.lock) && Step(env, s, l, s')
    ensures CallPointOk(s'.lock)
  {
    if UpdaterStep(env, s, l, s') {
      UpdaterLeavesApiAlone(env, s, l, s');
    }
  }

  lemma {:induction false} RunCallPoint<R, P, S>(
      env: Env<R, P, S>, states: seq<State<R, P, S>>, labels: seq<Label<R>>, k: nat)
    requires IsRun(env, states, labels) && k < |states|
    ensures CallPointOk(states[k].lock)
  {
    hide Step;
    if k > 0 {
      RunCallPoint(env, states, labels, k - 1);
      assert StepAt(env, states, labels, k - 1);
      CallPointStep(env, states[k - 1], labels[k - 1], states[k]);
    }
  }

  /** A call that holds the mutex can give it back, at once or after queueing. */
  lemma CallEnds<R, P, S>(env: Env<R, P, S>, s: State<R, P, S>)
    returns (states: seq<State<R, P, S>>, labels: seq<Label<R>>)
    requires s.Wf() && s.lock.HeldByApi? && CallPointOk(s.lock)
    ensures IsPath(env, states, labels) && states[0] == s
    ensures states[|labels|].lock.Free? && states[|labels|].fin == s.fin
  {
    hide UpdaterStep, FinalizerStep;
    states, labels := [s], [];
    if !MayUnlock(s.lock.call, s.lock.point) {
      var queued := s.(sem := s.sem + 1, lock := s.lock.(point := Queued));
      PathSnoc(env, states, labels, ApiQueue, queued);
      states, labels := states + [queued], labels + [ApiQueue];
    }
    var held := states[|labels|];
    var freed := held.(lock := Free, settled := held.settled + {held.Version()},
                       req := if HasQueued(held.lock.point) then held.Version() else held.req);
    PathSnoc(env, states, labels, ApiUnlock, freed);
    states, labels := states + [freed], labels + [ApiUnlock];
  }

  lemma PathsJoin<R, P, S>(
      env: Env<R, P, S>, states: seq<State<R, P, S>>, labels: seq<Label<R>>,
      more: seq<State<R, P, S>>, moreLabels: seq<Label<R>>)
    requires IsPath(env, states, labels) && IsPath(env, more, moreLabels) && more[0] == states[|labels|]
    ensures IsPath(env, states + more[1..], labels + moreLabels)
    ensures (states + more[1..])[|labels + moreLabels|] == more[|moreLabels|]
  {
    hide Step;
    var all, allLabels := states + more[1..], labels + moreLabels;
    forall k | 0 <= k < |allLabels|
      ensures StepAt(env, all, allLabels, k)
    {
      if k < |labels| {
        assert StepAt(env, states, labels, k);
        assert all[k] == states[k] && all[k + 1] == states[k + 1] && allLabels[k] == labels[k];
      } else {
        var j := k - |labels|;
        assert StepAt(env, more, moreLabels, j);
        assert all[k] == more[j] && all[k + 1] == more[j + 1] && allLabels[k] == moreLabels[j];
      }
    }
  }

  lemma {:induction false} PathKeepsInv<R, P, S>(
      env: Env<R, P, S>, states: seq<State<R, P, S>>, labels: seq<Label<R>>, k: nat)
    requires IsPath(env, states, labels) && ShutdownInv(states[0]) && k < |states|
    ensures ShutdownInv(states[k])
  {
    hide Step, ShutdownInv;
    if k > 0 {
      PathKeepsInv(env, states, labels, k - 1);
      assert StepAt(env, states, labels, k - 1);
      ShutdownInvStep(env, states[k - 1], labels[k - 1], states[k]);
    }
  }

  /** From every state of every run in which finalize has not been called,
      whatever the thread is doing and whether or not an API call holds the mutex,
      finalize can be carried out to the end: a call in progress gives the mutex
      back, finalize clears the flag and posts, the thread exits by its own steps,
      and finalize takes the signal and goes on. */
  lemma FinalizeCompletes<R, P, S>(
      env: Env<R, P, S>, states: seq<State<R, P, S>>, labels: seq<Label<R>>, k: nat)
    returns (more: seq<State<R, P, S>>, moreLabels: seq<Label<R>>)
    requires IsRun(env, states, labels) && k < |states| && states[k].fin == NotCalled
    ensures IsPath(env, more, moreLabels) && more[0] == states[k] && Finalized(more[|moreLabels|])
    ensures !states[k].lock.HeldByApi? ==> forall j :: 0 <= j < |moreLabels| ==> !IsApiLabel(moreLabels[j])
  {
    hide Step, ShutdownInv;
    RunShutdownInv(env, states, labels, k);
    if states[k].lock.HeldByApi? {
      RunCallPoint(env, states, labels, k);
      WfOfInv(states[k]);
      var first, firstLabels := CallEnds(env, states[k]);
      PathKeepsInv(env, first, firstLabels, |firstLabels|);
      more, moreLabels := FinalizeFrom(env, first[|firstLabels|]);
      PathsJoin(env, first, firstLabels, more, moreLabels);
      more, moreLabels := first + more[1..], firstLabels + moreLabels;
    } else {
      more, moreLabels := FinalizeFrom(env, states[k]);
    }
  }

  lemma WfOfInv<R, P, S>(s: State<R, P, S>)
    requires ShutdownInv(s)
    ensures s.Wf()
  {}
}
