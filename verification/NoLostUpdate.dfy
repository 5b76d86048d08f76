/** No update is lost: whenever the system is at rest, what was last published
    for every participant with a node is at least as new as the last call that
    queued an update. */
module NoLostUpdate {
  import opened UpdateProtocol
  import opened SnapshotSafety

  /** A token is on the semaphore, or the thread has taken one and has not yet
      gathered the participants. */
  predicate HasToken<R, P, S>(s: State<R, P, S>) {
    s.sem > 0 || s.pc == Woken(Token) || s.pc.Drain? || s.pc.GatherLock? || s.pc.Gathering?
  }

  predicate InCycle(pc: Pc) {
    pc.Gathered? || pc.Next? || pc.ConvertLock? || pc.Converting? || pc.Converted? || pc.Publishing?
  }

  /** The participants that the current cycle has dealt with. */
  function Done(pc: Pc): nat
    requires InCycle(pc)
  {
    if pc.Gathered? then 0 else pc.i
  }

  predicate Fresh<R, P, S>(s: State<R, P, S>, p: P) {
    p in s.last && s.last[p].version >= s.req
  }

  /** The participants that have a node, for everyone outside the mutex. */
  function Live<R, P, S>(env: Env<R, P, S>, s: State<R, P, S>): seq<P>
    requires s.Wf()
  {
    env.parts(s.hist[s.Base()])
  }

  ghost predicate CallInv<R, P, S>(env: Env<R, P, S>, s: State<R, P, S>)
    requires s.Wf()
  {
    s.lock.HeldByApi? ==>
      && (HasQueued(s.lock.point) && s.active ==> HasToken(s))
      && (s.lock.point == Changed && (s.lock.call == InspectCall || s.lock.call == UnregisterNodeCall) ==>
        NoNewParticipant(env, s.hist[s.lock.entry], s.Current()))
      && (s.lock.call == UnregisterNodeCall ==> s.lock.point != Queued)
  }

  /** Half-way through a cycle: everyone is on the list, and those before the
      current position are fresh. */
  ghost predicate CycleInv<R, P, S>(env: Env<R, P, S>, s: State<R, P, S>)
    requires s.Wf() && InCycle(s.pc)
  {
    && (forall p :: p in Live(env, s) ==> p in s.participants)
    && Done(s.pc) <= |s.participants|
    && (forall j :: 0 <= j < Done(s.pc) ==> Fresh(s, s.participants[j]))
    && (SampleReady(s.pc) ==> s.pinfo.version >= s.req)
  }

  ghost predicate RestInv<R, P, S>(env: Env<R, P, S>, s: State<R, P, S>)
    requires s.Wf()
  {
    forall p :: p in Live(env, s) ==> Fresh(s, p)
  }

  ghost predicate CoverageInv<R, P, S>(env: Env<R, P, S>, s: State<R, P, S>) {
    && LockInv(s) && CallInv(env, s)
    && (s.active && !s.missed && !HasToken(s) ==> if InCycle(s.pc) then CycleInv(env, s) else RestInv(env, s))
  }

  lemma SameCoverage<R, P, S>(env: Env<R, P, S>, s: State<R, P, S>, s': State<R, P, S>)
    requires s.Wf() && s'.Wf() && s'.hist == s.hist && s'.Base() == s.Base()
    requires s'.last == s.last && s'.req == s.req
    ensures Live(env, s') == Live(env, s)
    ensures forall p :: Fresh(s', p) <==> Fresh(s, p)
  {}

  lemma CoverageApi<R, P, S>(env: Env<R, P, S>, s: State<R, P, S>, l: Label<R>, s': State<R, P, S>)
    requires CoverageInv(env, s) && LockInv(s') && KeepsHistory(s, s') && ApiStep(env, s, l, s')
    ensures CoverageInv(env, s')
  {
    assert s'.last == s.last && s'.pc == s.pc && s'.participants == s.participants && s'.pinfo == s.pinfo;
    assert forall p :: p in Live(env, s') && s.active && !HasToken(s) ==> p in Live(env, s);
  }

  lemma CoverageControl<R, P, S>(env: Env<R, P, S>, s: State<R, P, S>, l: Label<R>, s': State<R, P, S>)
    requires CoverageInv(env, s) && LockInv(s') && ControlStep(env, s, l, s')
    ensures CoverageInv(env, s')
  {
    SameCoverage(env, s, s');
  }

  lemma CoverageMutex<R, P, S>(env: Env<R, P, S>, s: State<R, P, S>, l: Label<R>, s': State<R, P, S>)
    requires CoverageInv(env, s) && LockInv(s') && (TakeMutexStep(env, s, l, s') || GiveMutexStep(s, l, s'))
    ensures CoverageInv(env, s')
  {
    SameCoverage(env, s, s');
  }

  lemma CoverageWork<R, P, S>(env: Env<R, P, S>, s: State<R, P, S>, l: Label<R>, s': State<R, P, S>)
    requires CoverageInv(env, s) && LockInv(s') && WorkStep(env, s, l, s')
    ensures CoverageInv(env, s')
  {
    if s.pc.Polling? {
      assert Live(env, s') == env.parts(l.reg) == env.parts(s.Current()) == Live(env, s);
      assert forall p :: Fresh(s', p) <==> Fresh(s, p);
    } else if s.pc.Publishing? {
      assert Live(env, s') == Live(env, s);
      assert forall p :: Fresh(s, p) && s.pinfo.version >= s.req ==> Fresh(s', p);
    } else {
      SameCoverage(env, s, s');
    }
  }

  lemma CoverageInvStep<R, P, S>(env: Env<R, P, S>, s: State<R, P, S>, l: Label<R>, s': State<R, P, S>)
    requires CoverageInv(env, s) && Step(env, s, l, s')
    ensures CoverageInv(env, s')
  {
    LockInvStep(env, s, l, s');
    if ApiStep(env, s, l, s') {
      CoverageApi(env, s, l, s');
    } else if FinalizerStep(s, l, s') {
      SameCoverage(env, s, s');
    } else if ControlStep(env, s, l, s') {
      CoverageControl(env, s, l, s');
    } else if TakeMutexStep(env, s, l, s') || GiveMutexStep(s, l, s') {
      CoverageMutex(env, s, l, s');
    } else if WorkStep(env, s, l, s') {
      CoverageWork(env, s, l, s');
    }
  }

  // ---- Over every run ----

  lemma {:induction false} RunInvariants<R, P, S>(
      env: Env<R, P, S>, states: seq<State<R, P, S>>, labels: seq<Label<R>>, k: nat)
    requires IsRun(env, states, labels) && k < |states|
    ensures SnapshotInv(env, states[k]) && CoverageInv(env, states[k])
  {
    if k > 0 {
      RunInvariants(env, states, labels, k - 1);
      assert StepAt(env, states, labels, k - 1);
      SnapshotInvStep(env, states[k - 1], labels[k - 1], states[k]);
      CoverageInvStep(env, states[k - 1], labels[k - 1], states[k]);
    }
  }

  /** Everything published so far, by any run, is a successful conversion of the
      registry at a version at which no API call was part-way through, into the
      buffer as it then was, and the versions never go backwards. */
  lemma PublishedSnapshotsAreConsistentAndMonotone<R, P, S>(
      env: Env<R, P, S>, states: seq<State<R, P, S>>, labels: seq<Label<R>>, k: nat)
    requires IsRun(env, states, labels) && k < |states|
    ensures var s := states[k];
      && Monotone(s.log)
      && forall i :: 0 <= i < |s.log| ==> Consistent(env, s, s.log[i].p, s.log[i].pub)
  {
    RunInvariants(env, states, labels, k);
  }

  /** The mutex is free, no token is left and the thread waits for one. */
  predicate AtRest<R, P, S>(s: State<R, P, S>) {
    s.lock.Free? && s.sem == 0 && s.pc == Wait && s.active
  }

  /** In every run, with every kind of call, polling and failures: at rest and
      unless the last update was given up on, each participant with a node was
      last sent a snapshot at least as new as the end of the last call that
      queued an update. */
  lemma NothingQueuedIsLost<R, P, S>(
      env: Env<R, P, S>, states: seq<State<R, P, S>>, labels: seq<Label<R>>, k: nat, p: P)
    requires IsRun(env, states, labels) && k < |states|
    requires AtRest(states[k]) && !states[k].missed
    requires states[k].Wf() && p in env.parts(states[k].Current())
    ensures var s := states[k];
      && p in s.last && s.req <= s.last[p].version <= s.Version()
      && Consistent(env, s, p, s.last[p])
  {
    RunInvariants(env, states, labels, k);
    assert Fresh(states[k], p);
  }

  /** Runs in which every change is queued and nothing fails: no unregister_local_node
      that removes a node, no failed inspection that leaves endpoints behind, no
      endpoint found by polling. */
  ghost predicate OnlyQueueingCalls<R, P, S>(states: seq<State<R, P, S>>, labels: seq<Label<R>>)
    requires |states| == |labels| + 1
  {
    forall k :: 0 <= k < |labels| ==> LeavesNothingUnqueued(states[k], labels[k])
  }

  predicate LeavesNothingUnqueued<R, P, S>(s: State<R, P, S>, l: Label<R>) {
    && !l.PollNode? && !l.Fail?
    && (l.ApiUnlock? ==> s.lock.HeldByApi? && s.lock.point != Changed)
  }

  ghost predicate AllQueued<R, P, S>(s: State<R, P, S>) {
    LockInv(s) && s.req == s.Base() && !s.missed
  }

  lemma AllQueuedStep<R, P, S>(env: Env<R, P, S>, s: State<R, P, S>, l: Label<R>, s': State<R, P, S>)
    requires AllQueued(s) && Step(env, s, l, s') && LeavesNothingUnqueued(s, l)
    ensures AllQueued(s')
  {
    LockInvStep(env, s, l, s');
    if ApiStep(env, s, l, s') {
    } else if FinalizerStep(s, l, s') {
    } else if ControlStep(env, s, l, s') {
    } else if TakeMutexStep(env, s, l, s') {
    } else if GiveMutexStep(s, l, s') {
    } else {
      assert WorkStep(env, s, l, s');
    }
  }

  lemma {:induction false} AllQueuedRun<R, P, S>(
      env: Env<R, P, S>, states: seq<State<R, P, S>>, labels: seq<Label<R>>, k: nat)
    requires IsRun(env, states, labels) && OnlyQueueingCalls(states, labels) && k < |states|
    ensures AllQueued(states[k])
  {
    if k > 0 {
      AllQueuedRun(env, states, labels, k - 1);
      assert StepAt(env, states, labels, k - 1);
      AllQueuedStep(env, states[k - 1], labels[k - 1], states[k]);
    }
  }

  /** Registries that are converted the same for p. */
  ghost predicate ConvertedTheSame<R, P, S(!new)>(env: Env<R, P, S>, r: R, r': R, p: P) {
    forall b :: env.conv(r, p, b) == env.conv(r', p, b) && env.ok(r, p, b) == env.ok(r', p, b)
  }

  /** No lost update: in every run, with polling, failures and changes that are
      not queued, at rest and unless the last update was given up on, the last
      published sample of a participant that has a node is a successful
      conversion of the current registry, if what was changed since the last
      call that queued an update does not show in its conversion. */
  lemma NoUpdateIsLost<R, P, S(!new)>(
      env: Env<R, P, S>, states: seq<State<R, P, S>>, labels: seq<Label<R>>, k: nat, p: P)
    requires IsRun(env, states, labels) && k < |states|
    requires AtRest(states[k]) && !states[k].missed
    requires states[k].Wf() && p in env.parts(states[k].Current())
    requires var s := states[k];
      forall v :: s.req <= v < |s.hist| && v in s.settled ==> ConvertedTheSame(env, s.hist[v], s.Current(), p)
    ensures var s := states[k];
      && p in s.last && s.last[p].sample == env.conv(s.Current(), p, s.last[p].buffer)
      && env.ok(s.Current(), p, s.last[p].buffer)
  {
    NothingQueuedIsLost(env, states, labels, k, p);
    var s := states[k];
    assert ConvertedTheSame(env, s.hist[s.last[p].version], s.Current(), p);
  }

  /** In particular where every change is queued and nothing fails. */
  lemma QueueingCallsLoseNothing<R, P, S(!new)>(
      env: Env<R, P, S>, states: seq<State<R, P, S>>, labels: seq<Label<R>>, k: nat, p: P)
    requires IsRun(env, states, labels) && OnlyQueueingCalls(states, labels) && k < |states|
    requires AtRest(states[k]) && states[k].Wf() && p in env.parts(states[k].Current())
    ensures var s := states[k];
      && p in s.last && s.last[p].sample == env.conv(s.Current(), p, s.last[p].buffer)
      && env.ok(s.Current(), p, s.last[p].buffer)
  {
    AllQueuedRun(env, states, labels, k);
    NoUpdateIsLost(env, states, labels, k, p);
  }

  /** While the conversion of p fails for the registry of every state in which
      a conversion can take place, nothing is published for p, nor for anyone
      behind p on a gathered list: a failed conversion gives up the cycle. */
  lemma {:induction false} FailingParticipantIsNotPublished<R, P, S>(
      env: Env<R, P, S>, states: seq<State<R, P, S>>, labels: seq<Label<R>>, a: nat, b: nat, p: P)
    requires IsRun(env, states, labels) && a <= b <= |labels| && NotPast(states[a], p)
    requires forall k :: a <= k < b && states[k].pc.Converting? ==>
      states[k].Wf() && forall buffer :: !env.ok(states[k].Current(), p, buffer)
    ensures NotPast(states[b], p)
    ensures forall k :: a <= k < b ==> PublishesOnlyBefore(states[k], states[k + 1], p)
    ensures |states[a].log| <= |states[b].log|
    ensures forall i :: |states[a].log| <= i < |states[b].log| ==> states[b].log[i].p != p
    decreases b - a
  {
    hide SnapshotInv, CoverageInv, Step, NotPast;
    if a < b {
      FailingParticipantIsNotPublished(env, states, labels, a, b - 1, p);
      RunInvariants(env, states, labels, b - 1);
      assert StepAt(env, states, labels, b - 1);
      FailingParticipantStops(env, states[b - 1], labels[b - 1], states[b], p);
      assert PublishesOnlyBefore(states[b - 1], states[b], p);
    }
  }

  /** While the conversion of p fails, at most one entry for p is added, and only
      if its conversion was done before: the sample that the thread had in hand,
      and that as the first entry. */
  lemma {:induction false} OnlyTheSampleInHandIsPublished<R, P, S>(
      env: Env<R, P, S>, states: seq<State<R, P, S>>, labels: seq<Label<R>>, a: nat, b: nat, p: P)
    requires IsRun(env, states, labels) && a <= b <= |labels|
    requires forall k :: a <= k < b && states[k].pc.Converting? ==>
      states[k].Wf() && forall buffer :: !env.ok(states[k].Current(), p, buffer)
    ensures |states[a].log| <= |states[b].log|
    ensures forall i :: |states[a].log| <= i < |states[b].log| && states[b].log[i].p == p ==>
      i == |states[a].log| && InHand(states[a], p) && states[b].log[i].pub == states[a].pinfo
    ensures InHand(states[b], p) ==>
      InHand(states[a], p) && states[b].pinfo == states[a].pinfo && states[b].log == states[a].log
    decreases b - a
  {
    hide SnapshotInv, CoverageInv, Step;
    if a < b {
      OnlyTheSampleInHandIsPublished(env, states, labels, a, b - 1, p);
      RunInvariants(env, states, labels, b - 1);
      assert StepAt(env, states, labels, b - 1);
      FailingParticipantInHand(env, states[b - 1], labels[b - 1], states[b], p);
    }
  }
}
