/** Safety of the update protocol over every run: consistent and monotone
    snapshots, and no lost update. */
module SnapshotSafety {
  import opened UpdateProtocol

  // ---- Locking and versions ----

  predicate UpdaterHolds(pc: Pc) {
    pc.Polling? || pc.Gathering? || pc.Gathered? || pc.Converting? || pc.Converted?
  }

  ghost predicate LockInv<R, P, S>(s: State<R, P, S>) {
    && s.Wf() && s.req <= s.Base()
    && (UpdaterHolds(s.pc) <==> s.lock.HeldByUpdater?)
    && (forall v :: v in s.settled ==> v <= s.Base())
    && (!s.pc.Polling? ==> s.Base() in s.settled)
    && (s.lock.HeldByApi? && (s.lock.point == Entered || s.lock.point.RolledBack?) ==> s.Version() == s.lock.entry)
  }

  /** Versions up to the base survive, and the base never goes back. */
  ghost predicate KeepsHistory<R, P, S>(s: State<R, P, S>, s': State<R, P, S>)
    requires s.Wf() && s'.Wf()
  {
    && s.Base() <= s'.Base() && s.settled <= s'.settled
    && forall v :: 0 <= v <= s.Base() ==> s'.hist[v] == s.hist[v]
  }

  lemma LockInvApi<R, P, S>(env: Env<R, P, S>, s: State<R, P, S>, l: Label<R>, s': State<R, P, S>)
    requires LockInv(s) && ApiStep(env, s, l, s')
    ensures LockInv(s') && KeepsHistory(s, s')
  {}

  lemma LockInvControl<R, P, S>(env: Env<R, P, S>, s: State<R, P, S>, l: Label<R>, s': State<R, P, S>)
    requires LockInv(s) && ControlStep(env, s, l, s')
    ensures LockInv(s') && KeepsHistory(s, s')
  {}

  lemma LockInvTake<R, P, S>(env: Env<R, P, S>, s: State<R, P, S>, l: Label<R>, s': State<R, P, S>)
    requires LockInv(s) && TakeMutexStep(env, s, l, s')
    ensures LockInv(s') && KeepsHistory(s, s')
  {}

  lemma LockInvGive<R, P, S>(env: Env<R, P, S>, s: State<R, P, S>, l: Label<R>, s': State<R, P, S>)
    requires LockInv(s) && GiveMutexStep(s, l, s')
    ensures LockInv(s') && KeepsHistory(s, s')
  {}

  lemma LockInvWork<R, P, S>(env: Env<R, P, S>, s: State<R, P, S>, l: Label<R>, s': State<R, P, S>)
    requires LockInv(s) && (WorkStep(env, s, l, s') || GiveUpStep(s, l, s'))
    ensures LockInv(s') && KeepsHistory(s, s')
  {}

  lemma LockInvStep<R, P, S>(env: Env<R, P, S>, s: State<R, P, S>, l: Label<R>, s': State<R, P, S>)
    requires LockInv(s) && Step(env, s, l, s')
    ensures LockInv(s') && KeepsHistory(s, s')
  {
    if ApiStep(env, s, l, s') {
      LockInvApi(env, s, l, s');
    } else if FinalizerStep(s, l, s') {
    } else if ControlStep(env, s, l, s') {
      LockInvControl(env, s, l, s');
    } else if TakeMutexStep(env, s, l, s') {
      LockInvTake(env, s, l, s');
    } else if GiveMutexStep(s, l, s') {
      LockInvGive(env, s, l, s');
    } else {
      LockInvWork(env, s, l, s');
    }
  }

  /** A step settles nothing but the version it ends with, with the mutex free,
      and that version is what is due if an API call ends that queued an update. */
  ghost predicate SettlesOnlyLast<R, P, S>(s: State<R, P, S>, l: Label<R>, s': State<R, P, S>)
    requires s'.Wf()
  {
    && (forall v :: v in s'.settled && v !in s.settled ==> v == s'.Version() && s'.lock.Free? && !s'.pc.Polling?)
    && (s'.req != s.req || (l.ApiUnlock? && s.lock.HeldByApi? && HasQueued(s.lock.point)) ==>
      s'.req == s'.Version() && s'.lock.Free? && !s'.pc.Polling?)
  }

  lemma ApiSettlesOnlyLast<R, P, S>(env: Env<R, P, S>, s: State<R, P, S>, l: Label<R>, s': State<R, P, S>)
    requires LockInv(s) && s'.Wf() && ApiStep(env, s, l, s')
    ensures SettlesOnlyLast(s, l, s')
  {}

  lemma GiveSettlesOnlyLast<R, P, S>(s: State<R, P, S>, l: Label<R>, s': State<R, P, S>)
    requires LockInv(s) && s'.Wf() && GiveMutexStep(s, l, s')
    ensures SettlesOnlyLast(s, l, s')
  {}

  lemma OthersSettleNothing<R, P, S>(env: Env<R, P, S>, s: State<R, P, S>, l: Label<R>, s': State<R, P, S>)
    requires s.Wf() && Step(env, s, l, s') && !ApiStep(env, s, l, s') && !GiveMutexStep(s, l, s')
    ensures s'.settled == s.settled && s'.req == s.req && !l.ApiUnlock?
  {
    hide ApiStep, GiveMutexStep;
    if FinalizerStep(s, l, s') {
    } else if ControlStep(env, s, l, s') {
    } else if TakeMutexStep(env, s, l, s') {
    } else if WorkStep(env, s, l, s') {
    } else {
    }
  }

  lemma SettlesLast<R, P, S>(env: Env<R, P, S>, s: State<R, P, S>, l: Label<R>, s': State<R, P, S>)
    requires LockInv(s) && s'.Wf() && Step(env, s, l, s')
    ensures SettlesOnlyLast(s, l, s')
  {
    if ApiStep(env, s, l, s') {
      ApiSettlesOnlyLast(env, s, l, s');
    } else if GiveMutexStep(s, l, s') {
      GiveSettlesOnlyLast(s, l, s');
    } else {
      OthersSettleNothing(env, s, l, s');
    }
  }

  // ---- Consistent and monotone snapshots ----

  /** A publication is a successful conversion of the registry as it was at a
      version at which no API call was part-way through. */
  ghost predicate Consistent<R, P, S>(env: Env<R, P, S>, s: State<R, P, S>, p: P, pub: Publication<S>) {
    && pub.version < |s.hist| && pub.version in s.settled
    && env.ok(s.hist[pub.version], p, pub.buffer)
    && pub.sample == env.conv(s.hist[pub.version], p, pub.buffer)
  }

  ghost predicate Monotone<P, S>(log: seq<LogEntry<P, S>>) {
    forall i, j :: 0 <= i < j < |log| ==> log[i].pub.version <= log[j].pub.version
  }

  ghost predicate SnapshotInv<R, P, S>(env: Env<R, P, S>, s: State<R, P, S>) {
    && LockInv(s) && s.pinfo.version <= s.Base()
    && (s.pc.Converted? || s.pc.Publishing? ==>
      s.pc.i < |s.participants| && Consistent(env, s, s.participants[s.pc.i], s.pinfo))
    && (forall k :: 0 <= k < |s.log| ==>
      Consistent(env, s, s.log[k].p, s.log[k].pub) && s.log[k].pub.version <= s.pinfo.version)
    && Monotone(s.log)
    && (forall p :: p in s.last ==> Consistent(env, s, p, s.last[p]))
  }

  lemma ConsistentStep<R, P, S>(env: Env<R, P, S>, s: State<R, P, S>, s': State<R, P, S>, p: P, pub: Publication<S>)
    requires LockInv(s) && LockInv(s') && KeepsHistory(s, s') && Consistent(env, s, p, pub)
    ensures Consistent(env, s', p, pub)
  {}

  predicate SampleReady(pc: Pc) {
    pc.Converted? || pc.Publishing?
  }

  /** Steps that publish nothing and convert nothing. */
  lemma SnapshotInvFrame<R, P, S>(env: Env<R, P, S>, s: State<R, P, S>, s': State<R, P, S>)
    requires SnapshotInv(env, s) && LockInv(s') && KeepsHistory(s, s')
    requires s'.log == s.log && s'.last == s.last && s'.pinfo.version == s.pinfo.version
    requires SampleReady(s'.pc) ==>
      SampleReady(s.pc) && s'.pc.i == s.pc.i && s'.pinfo == s.pinfo && s'.participants == s.participants
    ensures SnapshotInv(env, s')
  {
    forall p, pub | Consistent(env, s, p, pub)
      ensures Consistent(env, s', p, pub)
    {
      ConsistentStep(env, s, s', p, pub);
    }
  }

  lemma SnapshotInvWork<R, P, S>(env: Env<R, P, S>, s: State<R, P, S>, l: Label<R>, s': State<R, P, S>)
    requires SnapshotInv(env, s) && LockInv(s') && KeepsHistory(s, s') && WorkStep(env, s, l, s')
    ensures SnapshotInv(env, s')
  {
    if s.pc.Polling? || s.pc.Gathering? {
      SnapshotInvFrame(env, s, s');
    } else {
      assert s'.hist == s.hist && s'.settled == s.settled;
      assert s.pc.Converting? ==> s'.log == s.log && s'.last == s.last;
    }
  }

  lemma NothingPublished<R, P, S>(env: Env<R, P, S>, s: State<R, P, S>, l: Label<R>, s': State<R, P, S>)
    requires Step(env, s, l, s') && !WorkStep(env, s, l, s')
    ensures s'.log == s.log && s'.last == s.last && s'.pinfo.version == s.pinfo.version
    ensures SampleReady(s'.pc) ==>
      SampleReady(s.pc) && s'.pc.i == s.pc.i && s'.pinfo == s.pinfo && s'.participants == s.participants
  {
    if ApiStep(env, s, l, s') {
    } else if FinalizerStep(s, l, s') {
    } else if ControlStep(env, s, l, s') {
    } else if TakeMutexStep(env, s, l, s') {
    } else if GiveMutexStep(s, l, s') {
    } else {
    }
  }

  lemma SnapshotInvStep<R, P, S>(env: Env<R, P, S>, s: State<R, P, S>, l: Label<R>, s': State<R, P, S>)
    requires SnapshotInv(env, s) && Step(env, s, l, s')
    ensures SnapshotInv(env, s')
  {
    LockInvStep(env, s, l, s');
    if WorkStep(env, s, l, s') {
      SnapshotInvWork(env, s, l, s');
    } else {
      NothingPublished(env, s, l, s');
      SnapshotInvFrame(env, s, s');
    }
  }

  // ---- A participant whose conversion fails ----

  /** How many of the gathered participants a cycle has converted. */
  function Reached(pc: Pc): nat {
    match pc
    case Next(i) => i
    case ConvertLock(i) => i
    case Converting(i) => i
    case Converted(i) => i + 1
    case Publishing(i) => i + 1
    case _ => 0
  }

  /** The current cycle, if any, has not converted p. */
  predicate NotPast<R, P(==), S>(s: State<R, P, S>, p: P) {
    Reached(s.pc) <= |s.participants| ==> p !in s.participants[..Reached(s.pc)]
  }

  /** The one entry that a step can add is of a participant before p on the
      gathered list. */
  ghost predicate PublishesOnlyBefore<R, P, S>(s: State<R, P, S>, s': State<R, P, S>, p: P) {
    s'.log == s.log || (s.pc.Publishing? && s.pc.i < |s.participants| && p !in s.participants[..s.pc.i + 1]
      && s'.log == s.log + [LogEntry(s.participants[s.pc.i], s.pinfo)])
  }

  /** As long as the conversion of p fails, no step gets past p: neither p nor
      anyone after p on the gathered list is published. */
  lemma FailingParticipantStops<R, P, S>(env: Env<R, P, S>, s: State<R, P, S>, l: Label<R>, s': State<R, P, S>, p: P)
    requires SnapshotInv(env, s) && NotPast(s, p) && Step(env, s, l, s')
    requires s.pc.Converting? ==> forall b :: !env.ok(s.Current(), p, b)
    ensures NotPast(s', p) && PublishesOnlyBefore(s, s', p)
  {
    if ControlStep(env, s, l, s') {
      ControlGetsNoFurther(env, s, l, s', p);
    } else if WorkStep(env, s, l, s') {
      FailingParticipantWork(env, s, l, s', p);
    } else {
      OthersGetNoFurther(env, s, l, s', p);
    }
  }

  lemma ControlGetsNoFurther<R, P, S>(env: Env<R, P, S>, s: State<R, P, S>, l: Label<R>, s': State<R, P, S>, p: P)
    requires NotPast(s, p) && ControlStep(env, s, l, s')
    ensures NotPast(s', p) && s'.log == s.log
  {}

  lemma OthersGetNoFurther<R, P, S>(env: Env<R, P, S>, s: State<R, P, S>, l: Label<R>, s': State<R, P, S>, p: P)
    requires NotPast(s, p) && s.Wf() && Step(env, s, l, s') && !ControlStep(env, s, l, s') && !WorkStep(env, s, l, s')
    ensures NotPast(s', p) && s'.log == s.log
  {
    hide ControlStep, WorkStep;
    if ApiStep(env, s, l, s') {
    } else if FinalizerStep(s, l, s') {
    } else if TakeMutexStep(env, s, l, s') {
    } else if GiveMutexStep(s, l, s') {
    } else {
    }
  }

  lemma FailingParticipantWork<R, P, S>(env: Env<R, P, S>, s: State<R, P, S>, l: Label<R>, s': State<R, P, S>, p: P)
    requires SnapshotInv(env, s) && NotPast(s, p) && WorkStep(env, s, l, s')
    requires s.pc.Converting? ==> forall b :: !env.ok(s.Current(), p, b)
    ensures NotPast(s', p) && PublishesOnlyBefore(s, s', p)
  {
    if s.pc.Converting? {
      var i := s.pc.i;
      assert s.participants[i] != p;
      assert s.participants[..i + 1] == s.participants[..i] + [s.participants[i]];
    } else if s.pc.Publishing? {
      assert s'.log == s.log + [LogEntry(s.participants[s.pc.i], s.pinfo)];
    }
  }

  /** The thread has converted p and not published it yet. */
  predicate InHand<R, P(==), S>(s: State<R, P, S>, p: P) {
    SampleReady(s.pc) && s.pc.i < |s.participants| && s.participants[s.pc.i] == p
  }

  /** The log is as before or has the sample in hand as one entry more. */
  ghost predicate PublishesInHand<R, P, S>(s: State<R, P, S>, s': State<R, P, S>) {
    s'.log == s.log || (SampleReady(s.pc) && s.pc.i < |s.participants| && !SampleReady(s'.pc)
      && s'.log == s.log + [LogEntry(s.participants[s.pc.i], s.pinfo)])
  }

  /** While the conversion of p fails no sample of p comes into the thread's
      hands, and what is published is what was there. */
  lemma FailingParticipantInHand<R, P, S>(env: Env<R, P, S>, s: State<R, P, S>, l: Label<R>, s': State<R, P, S>, p: P)
    requires SnapshotInv(env, s) && Step(env, s, l, s')
    requires s.pc.Converting? ==> forall b :: !env.ok(s.Current(), p, b)
    ensures InHand(s', p) ==> InHand(s, p) && s'.pinfo == s.pinfo && s'.log == s.log
    ensures PublishesInHand(s, s')
  {
    if WorkStep(env, s, l, s') {
      assert s.pc.Publishing? ==> s'.log == s.log + [LogEntry(s.participants[s.pc.i], s.pinfo)];
    } else {
      NothingPublished(env, s, l, s');
    }
  }
}
