/** The steps of the update thread over every run: when it can move, how tokens
    are accounted for, what a cycle that is given up publishes, and how what is
    published relates to the log and to the reused buffer. */
module UpdateCycle {
  import opened UpdateProtocol
  import opened SnapshotSafety
  import opened NoLostUpdate
  import opened Shutdown

  // ---- When the thread can move ----

  /** The thread is blocked exactly on its semaphore, if there is no token and it
      does not wait for a limited time, on the mutex, and after its exit. */
  predicate CanMove<R, P, S>(env: Env<R, P, S>, s: State<R, P, S>) {
    match s.pc
    case Wait => s.sem > 0 || env.poll
    case PollLock => s.lock.Free?
    case GatherLock => s.lock.Free?
    case ConvertLock(_) => s.lock.Free?
    case Exited => false
    case _ => true
  }

  lemma ThreadMovesIff<R, P, S>(env: Env<R, P, S>, states: seq<State<R, P, S>>, labels: seq<Label<R>>, k: nat)
    requires IsRun(env, states, labels) && k < |states|
    ensures states[k].Wf() && (CanMove(env, states[k]) <==> exists l, s' :: UpdaterStep(env, states[k], l, s'))
  {
    RunShutdownInv(env, states, labels, k);
    var s := states[k];
    if CanMove(env, s) {
      var l, s' := NextMove(env, s);
    }
  }

  lemma NextMove<R, P, S>(env: Env<R, P, S>, s: State<R, P, S>) returns (l: Label<R>, s': State<R, P, S>)
    requires ShutdownInv(s) && CanMove(env, s)
    ensures UpdaterStep(env, s, l, s')
  {
    match s.pc {
      case Top => l, s' := Proceed, s.(pc := if s.active then Wait else Exiting);
      case Wait =>
        if s.sem > 0 {
          l, s' := Proceed, s.(sem := s.sem - 1, pc := Woken(Token));
        } else {
          l, s' := TimeOut, s.(pc := Woken(Timeout));
        }
      case Woken(rc) =>
        l, s' := Proceed, s.(pc := if !s.active then Top else if rc == Timeout then PollLock else Drain);
      case PollTake =>
        if s.sem > 0 {
          l, s' := Proceed, s.(sem := s.sem - 1, pc := Drain);
        } else {
          l, s' := TimeOut, s.(pc := Top);
        }
      case Drain =>
        if s.sem > 0 {
          l, s' := Proceed, s.(sem := s.sem - 1);
        } else {
          l, s' := TimeOut, s.(pc := GatherLock);
        }
      case Next(i) => l, s' := Proceed, s.(pc := if i < |s.participants| then ConvertLock(i) else Top);
      case Exiting => l, s' := Proceed, s.(exitSem := s.exitSem + 1, pc := Exited);
      case _ => l, s' := NextMoveWithMutex(env, s);
    }
  }

  lemma NextMoveWithMutex<R, P, S>(env: Env<R, P, S>, s: State<R, P, S>) returns (l: Label<R>, s': State<R, P, S>)
    requires ShutdownInv(s) && CanMove(env, s)
    requires UpdaterHolds(s.pc) || s.pc.PollLock? || s.pc.GatherLock? || s.pc.ConvertLock? || s.pc.Publishing?
    ensures UpdaterStep(env, s, l, s')
  {
    match s.pc {
      case PollLock => l, s' := Proceed, s.(lock := HeldByUpdater, pc := Polling(env.nodeCount(s.Current())));
      case Polling(left) =>
        if left > 0 {
          l, s' := PollNode(s.Current()), s.(hist := s.hist + [s.Current()], pc := Polling(left - 1));
        } else {
          l, s' := Proceed, s.(lock := Free, settled := s.settled + {s.Version()}, pc := PollTake);
        }
      case GatherLock => l, s' := Proceed, s.(lock := HeldByUpdater, pc := Gathering);
      case Gathering => l, s' := Proceed, s.(participants := env.parts(s.Current()), missed := false, pc := Gathered);
      case Gathered => l, s' := Proceed, s.(lock := Free, settled := s.settled + {s.Version()}, pc := Next(0));
      case ConvertLock(i) => l, s' := Proceed, s.(lock := HeldByUpdater, pc := Converting(i));
      case Converted(i) =>
        l, s' := Proceed, s.(lock := Free, settled := s.settled + {s.Version()}, pc := Publishing(i));
      case _ => l, s' := Fail, s.(pc := Top, missed := true, lock := if s.lock.HeldByUpdater? then Free else s.lock);
    }
  }

  /** Where the thread does its work both outcomes are possible, except that a
      conversion succeeds exactly if it is one that can; nothing else fails. */
  lemma OutcomesIff<R, P, S>(env: Env<R, P, S>, states: seq<State<R, P, S>>, labels: seq<Label<R>>, k: nat)
    requires IsRun(env, states, labels) && k < |states|
    ensures var s := states[k];
      && s.Wf()
      && ((exists s' :: UpdaterStep(env, s, Fail, s')) <==> s.pc.Gathering? || s.pc.Converting? || s.pc.Publishing?)
      && (s.pc.Gathering? || s.pc.Publishing? ==> exists s' :: UpdaterStep(env, s, Proceed, s'))
      && (s.pc.Converting? ==> s.pc.i < |s.participants|)
      && (s.pc.Converting? ==> ((exists s' :: UpdaterStep(env, s, Proceed, s')) <==>
        env.ok(s.Current(), s.participants[s.pc.i], s.pinfo.sample)))
  {
    RunShutdownInv(env, states, labels, k);
    var s := states[k];
    if s.pc.Gathering? || s.pc.Converting? || s.pc.Publishing? {
      var failed := s.(pc := Top, missed := true, lock := if s.lock.HeldByUpdater? then Free else s.lock);
      assert UpdaterStep(env, s, Fail, failed);
      if s.pc.Converting? ==> env.ok(s.Current(), s.participants[s.pc.i], s.pinfo.sample) {
        WorkSucceeds(env, s);
      }
    }
  }

  /** What fails may leave anything in the buffer. */
  lemma FailureMayLeaveAnything<R, P, S>(
      env: Env<R, P, S>, states: seq<State<R, P, S>>, labels: seq<Label<R>>, k: nat, content: S)
    requires IsRun(env, states, labels) && k < |states|
    requires states[k].pc.Gathering? || states[k].pc.Converting? || states[k].pc.Publishing?
    ensures states[k].Wf() && exists s' :: UpdaterStep(env, states[k], Fail, s') && s'.pinfo.sample == content
  {
    RunShutdownInv(env, states, labels, k);
    var s := states[k];
    var s' := s.(pc := Top, missed := true, pinfo := s.pinfo.(sample := content),
                 lock := if s.lock.HeldByUpdater? then Free else s.lock);
    assert UpdaterStep(env, s, Fail, s');
  }

  lemma WorkSucceeds<R, P, S>(env: Env<R, P, S>, s: State<R, P, S>)
    requires ShutdownInv(s) && (s.pc.Gathering? || s.pc.Converting? || s.pc.Publishing?)
    requires s.pc.Converting? ==> env.ok(s.Current(), s.participants[s.pc.i], s.pinfo.sample)
    ensures exists s' :: UpdaterStep(env, s, Proceed, s')
  {
    var s' :=
      match s.pc
      case Gathering => s.(participants := env.parts(s.Current()), missed := false, pc := Gathered)
      case Converting(i) =>
        s.(pc := Converted(i),
           pinfo := Publication(s.Version(), env.conv(s.Current(), s.participants[i], s.pinfo.sample), s.pinfo.sample))
      case Publishing(i) =>
        s.(pc := Next(i + 1), last := s.last[s.participants[i] := s.pinfo],
           log := s.log + [LogEntry(s.participants[i], s.pinfo)])
      case _ => s;
    assert WorkStep(env, s, Proceed, s') && UpdaterStep(env, s, Proceed, s');
  }

  // ---- Tokens ----

  predicate Posts<R>(l: Label<R>) {
    l.ApiQueue? || l.FinalizePost?
  }

  /** The thread takes a token off the semaphore. */
  predicate Takes<R, P, S>(s: State<R, P, S>, l: Label<R>) {
    l.Proceed? && (s.pc.Wait? || s.pc.PollTake? || s.pc.Drain?)
  }

  function Posted<R>(labels: seq<Label<R>>, k: nat): nat
    requires k <= |labels|
  {
    if k == 0 then 0 else Posted(labels, k - 1) + if Posts(labels[k - 1]) then 1 else 0
  }

  function Taken<R, P, S>(states: seq<State<R, P, S>>, labels: seq<Label<R>>, k: nat): nat
    requires k <= |labels| <= |states|
  {
    if k == 0 then 0 else Taken(states, labels, k - 1) + if Takes(states[k - 1], labels[k - 1]) then 1 else 0
  }

  /** The gatherings begun by the first k steps, one per update cycle. */
  function Cycles<R, P, S>(states: seq<State<R, P, S>>, k: nat): nat
    requires k < |states|
  {
    if k == 0 then 0
    else Cycles(states, k - 1) + if states[k].pc.GatherLock? && !states[k - 1].pc.GatherLock? then 1 else 0
  }

  lemma TokenStep<R, P, S>(env: Env<R, P, S>, s: State<R, P, S>, l: Label<R>, s': State<R, P, S>)
    requires Step(env, s, l, s')
    ensures s'.sem == s.sem + (if Posts(l) then 1 else 0) - (if Takes(s, l) then 1 else 0)
  {
    if ApiStep(env, s, l, s') {
    } else if FinalizerStep(s, l, s') {
    } else if ControlStep(env, s, l, s') {
    } else if TakeMutexStep(env, s, l, s') {
    } else if GiveMutexStep(s, l, s') {
    } else if WorkStep(env, s, l, s') {
    } else {
    }
  }

  /** The thread has a token that has not led to a cycle yet. */
  predicate TokenInHand(pc: Pc) {
    pc == Woken(Token) || pc.Drain?
  }

  /** What a step does to the token in hand: it comes from the semaphore, and it
      is what starts a cycle, once the semaphore is empty. */
  ghost predicate UsesToken<R, P, S>(s: State<R, P, S>, l: Label<R>, s': State<R, P, S>) {
    && (TokenInHand(s'.pc) ==> TokenInHand(s.pc) || Takes(s, l))
    && (s'.pc.GatherLock? && !s.pc.GatherLock? ==> TokenInHand(s.pc) && s'.sem == 0)
  }

  lemma ControlUsesToken<R, P, S>(env: Env<R, P, S>, s: State<R, P, S>, l: Label<R>, s': State<R, P, S>)
    requires ControlStep(env, s, l, s')
    ensures UsesToken(s, l, s')
  {}

  lemma CycleStep<R, P, S>(env: Env<R, P, S>, s: State<R, P, S>, l: Label<R>, s': State<R, P, S>)
    requires Step(env, s, l, s')
    ensures UsesToken(s, l, s')
  {
    hide ControlStep;
    if ApiStep(env, s, l, s') {
    } else if FinalizerStep(s, l, s') {
    } else if ControlStep(env, s, l, s') {
      ControlUsesToken(env, s, l, s');
    } else if TakeMutexStep(env, s, l, s') {
    } else if GiveMutexStep(s, l, s') {
    } else if WorkStep(env, s, l, s') {
    } else {
    }
  }

  /** In every run no token is lost or made up: what is on the semaphore is what
      was posted and not taken. No cycle starts without a token of its own, and a
      cycle starts only when every token that was ever posted has been taken, so
      that one cycle serves all updates queued up to then. */
  lemma {:induction false} TokensAreAccountedFor<R, P, S>(
      env: Env<R, P, S>, states: seq<State<R, P, S>>, labels: seq<Label<R>>, k: nat)
    requires IsRun(env, states, labels) && k <= |labels|
    ensures states[k].sem + Taken(states, labels, k) == Posted(labels, k)
    ensures Cycles(states, k) + (if TokenInHand(states[k].pc) then 1 else 0) <= Taken(states, labels, k)
    ensures k > 0 && states[k].pc.GatherLock? && !states[k - 1].pc.GatherLock? ==>
      Taken(states, labels, k) == Posted(labels, k)
  {
    hide Step;
    if k > 0 {
      TokensAreAccountedFor(env, states, labels, k - 1);
      assert StepAt(env, states, labels, k - 1);
      TokenStep(env, states[k - 1], labels[k - 1], states[k]);
      CycleStep(env, states[k - 1], labels[k - 1], states[k]);
    }
  }

  // ---- A cycle that is given up ----

  /** Outside cycles and with no token in hand. */
  predicate OutsideCycle(pc: Pc) {
    match pc
    case Top => true
    case Wait => true
    case Woken(rc) => rc == Timeout
    case PollLock => true
    case Polling(_) => true
    case PollTake => true
    case Exiting => true
    case Exited => true
    case _ => false
  }

  lemma OutsideStep<R, P, S>(env: Env<R, P, S>, s: State<R, P, S>, l: Label<R>, s': State<R, P, S>)
    requires Step(env, s, l, s') && OutsideCycle(s.pc) && !Takes(s, l)
    ensures OutsideCycle(s'.pc) && s'.log == s.log && s'.last == s.last && s'.pinfo == s.pinfo
  {
    if ApiStep(env, s, l, s') {
    } else if FinalizerStep(s, l, s') {
    } else if ControlStep(env, s, l, s') {
    } else if TakeMutexStep(env, s, l, s') {
    } else if GiveMutexStep(s, l, s') {
    } else if WorkStep(env, s, l, s') {
    } else {
    }
  }

  lemma FailureStep<R, P, S>(env: Env<R, P, S>, s: State<R, P, S>, l: Label<R>, s': State<R, P, S>)
    requires Step(env, s, l, s') && l.Fail?
    ensures s'.pc == Top && s'.missed && !s'.lock.HeldByUpdater? && s'.log == s.log && s'.last == s.last
  {}

  /** In every run, whatever fails in a cycle, a gathering, a conversion or a
      publication, gives up the whole cycle: nothing more is published, for
      anyone, until the thread takes another token. */
  lemma {:induction false} GivenUpPublishesNothing<R, P, S>(
      env: Env<R, P, S>, states: seq<State<R, P, S>>, labels: seq<Label<R>>, a: nat, b: nat)
    requires IsRun(env, states, labels) && a < b <= |labels| && labels[a].Fail?
    requires forall k :: a < k < b ==> !Takes(states[k], labels[k])
    ensures states[b].log == states[a].log && states[b].last == states[a].last && OutsideCycle(states[b].pc)
    decreases b - a
  {
    hide Step;
    assert StepAt(env, states, labels, b - 1);
    if b == a + 1 {
      FailureStep(env, states[a], labels[a], states[b]);
    } else {
      GivenUpPublishesNothing(env, states, labels, a, b - 1);
      OutsideStep(env, states[b - 1], labels[b - 1], states[b]);
    }
  }

  // ---- The log ----

  /** Entry i is the latest of its participant, and what was last published. */
  predicate IsLatest<R, P(==), S(==)>(s: State<R, P, S>, i: nat) {
    i < |s.log| && s.log[i].p in s.last && s.last[s.log[i].p] == s.log[i].pub
    && forall j :: i < j < |s.log| ==> s.log[j].p != s.log[i].p
  }

  ghost predicate LogInv<R, P, S>(s: State<R, P, S>) {
    && (forall p :: p in s.last ==> exists i: nat :: IsLatest(s, i) && s.log[i].p == p)
    && (forall i :: 0 <= i < |s.log| ==> s.log[i].p in s.last)
  }

  lemma LogStep<R, P, S>(env: Env<R, P, S>, s: State<R, P, S>, l: Label<R>, s': State<R, P, S>)
    requires LogInv(s) && Step(env, s, l, s')
    ensures LogInv(s')
  {
    if WorkStep(env, s, l, s') && s.pc.Publishing? {
      PublicationStep(s, s', s.participants[s.pc.i]);
    } else if WorkStep(env, s, l, s') {
      SameLog(s, s');
    } else {
      NothingPublished(env, s, l, s');
      SameLog(s, s');
    }
  }

  lemma SameLog<R, P, S>(s: State<R, P, S>, s': State<R, P, S>)
    requires LogInv(s) && s'.log == s.log && s'.last == s.last
    ensures LogInv(s')
  {
    forall p | p in s'.last
      ensures exists i: nat :: IsLatest(s', i) && s'.log[i].p == p
    {
      var i: nat :| IsLatest(s, i) && s.log[i].p == p;
      assert IsLatest(s', i);
    }
  }

  lemma PublicationStep<R, P, S>(s: State<R, P, S>, s': State<R, P, S>, p: P)
    requires LogInv(s) && s'.log == s.log + [LogEntry(p, s.pinfo)] && s'.last == s.last[p := s.pinfo]
    ensures LogInv(s')
  {
    forall q | q in s'.last
      ensures exists i: nat :: IsLatest(s', i) && s'.log[i].p == q
    {
      if q == p {
        assert IsLatest(s', |s.log|);
      } else {
        var i: nat :| IsLatest(s, i) && s.log[i].p == q;
        assert IsLatest(s', i);
      }
    }
  }

  /** In every run what was last published for a participant is its latest entry
      in the log of everything published, and exactly the participants in the log
      have one. */
  lemma {:induction false} LastIsLatest<R, P, S>(
      env: Env<R, P, S>, states: seq<State<R, P, S>>, labels: seq<Label<R>>, k: nat)
    requires IsRun(env, states, labels) && k < |states|
    ensures LogInv(states[k])
  {
    hide Step, LogInv;
    if k > 0 {
      LastIsLatest(env, states, labels, k - 1);
      assert StepAt(env, states, labels, k - 1);
      LogStep(env, states[k - 1], labels[k - 1], states[k]);
    } else {
      NothingLogged(env, states[0]);
    }
  }

  lemma NothingLogged<R, P, S>(env: Env<R, P, S>, s: State<R, P, S>)
    requires Init(env, s)
    ensures LogInv(s)
  {}

  // ---- The reused buffer ----

  /** Since the log had n entries each was converted into what the one before it
      left in the buffer. */
  ghost predicate Chained<R, P, S>(s: State<R, P, S>, n: nat) {
    && n <= |s.log| && (s.pc.Converted? || s.pc.Publishing? ==> s.pc.i < |s.participants|)
    && (forall i :: n < i < |s.log| ==> s.log[i].pub.buffer == s.log[i - 1].pub.sample)
    && (|s.log| > n ==> var before := s.log[|s.log| - 1].pub.sample;
      if SampleReady(s.pc) then s.pinfo.buffer == before else s.pinfo.sample == before)
  }

  lemma OtherStepsKeepBuffer<R, P, S>(env: Env<R, P, S>, s: State<R, P, S>, l: Label<R>, s': State<R, P, S>)
    requires Step(env, s, l, s') && !l.Fail? && !WorkStep(env, s, l, s')
    ensures s'.log == s.log && s'.pinfo == s.pinfo && s'.participants == s.participants
    ensures SampleReady(s'.pc) == SampleReady(s.pc) && (SampleReady(s.pc) ==> s'.pc.i == s.pc.i)
  {
    if ApiStep(env, s, l, s') {
    } else if FinalizerStep(s, l, s') {
    } else if ControlStep(env, s, l, s') {
    } else if TakeMutexStep(env, s, l, s') {
    } else {
      assert GiveMutexStep(s, l, s');
    }
  }

  lemma ChainedStep<R, P, S>(env: Env<R, P, S>, s: State<R, P, S>, l: Label<R>, s': State<R, P, S>, n: nat)
    requires Chained(s, n) && Step(env, s, l, s') && !l.Fail?
    ensures Chained(s', n)
  {
    hide ApiStep, FinalizerStep, ControlStep, TakeMutexStep, GiveMutexStep;
    if WorkStep(env, s, l, s') {
      assert s.pc.Publishing? ==> s'.log == s.log + [LogEntry(s.participants[s.pc.i], s.pinfo)];
    } else {
      OtherStepsKeepBuffer(env, s, l, s');
    }
  }

  /** In every run, from any point on and as long as nothing fails, every sample
      is converted into the buffer as the sample published before it left it, for
      whatever participant that was. */
  lemma {:induction false} BufferIsReused<R, P, S>(
      env: Env<R, P, S>, states: seq<State<R, P, S>>, labels: seq<Label<R>>, a: nat, b: nat)
    requires IsRun(env, states, labels) && a <= b <= |labels|
    requires forall k :: a <= k < b ==> !labels[k].Fail?
    ensures Chained(states[b], |states[a].log|)
    decreases b - a
  {
    hide Step, Chained;
    if a == b {
      RunShutdownInv(env, states, labels, a);
      ChainStarts(states[a]);
    } else {
      BufferIsReused(env, states, labels, a, b - 1);
      assert StepAt(env, states, labels, b - 1);
      ChainedStep(env, states[b - 1], labels[b - 1], states[b], |states[a].log|);
    }
  }

  lemma ChainStarts<R, P, S>(s: State<R, P, S>)
    requires ShutdownInv(s)
    ensures Chained(s, |s.log|)
  {}
}
