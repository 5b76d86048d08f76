/** The update protocol as a transition system. API calls change the registry
    under the mutex and post the counting semaphore; one update thread takes a
    token, drains the rest, gathers the participants, and for each of them
    re-locks, converts, unlocks and publishes. Any number of API threads is
    covered: a thread outside its critical section has no state of its own, so
    the thread that holds the mutex is all there is to know.

    The registry R, the participants P and the sample buffer S are parameters:
    everything here holds for every list of participants and every conversion. */
module UpdateProtocol {

  /** `conv(r, p, b)` converts registry r for participant p into buffer b, and
      `ok(r, p, b)` says whether that conversion succeeds. `poll` says whether
      polling is enabled. */
  datatype Env<!R, !P, !S> =
    Env(parts: R -> seq<P>, conv: (R, P, S) -> S, ok: (R, P, S) -> bool, nodeCount: R -> nat, poll: bool)

  /** The four kinds of critical section of the C API. */
  datatype Call = EndpointCall | InspectCall | RegisterNodeCall | UnregisterNodeCall

  /** How far the call that holds the mutex has come: nothing changed yet,
      changed but nothing queued, update queued, changes undone, after an
      update was queued or before. */
  datatype Point = Entered | Changed | Queued | RolledBack(queued: bool)

  predicate HasQueued(point: Point) {
    point == Queued || point == RolledBack(true)
  }

  /** `entry` is the registry version that the call found. */
  datatype Lock = Free | HeldByApi(call: Call, point: Point, entry: nat) | HeldByUpdater

  datatype Wakeup = Token | Timeout

  /** Program points of the update thread. */
  datatype Pc =
    | Top                    // tests the active flag of the loop
    | Wait                   // blocks on the semaphore
    | Woken(rc: Wakeup)      // tests the active flag again
    | PollLock               // takes the mutex to poll
    | Polling(left: nat)     // inspects the remaining nodes
    | PollTake               // looks for a token without waiting
    | Drain                  // consumes the remaining tokens
    | GatherLock             // takes the mutex to gather
    | Gathering              // holds the mutex
    | Gathered               // still holds the mutex
    | Next(i: nat)           // tests for another participant
    | ConvertLock(i: nat)    // takes the mutex to convert
    | Converting(i: nat)     // holds the mutex
    | Converted(i: nat)      // still holds the mutex
    | Publishing(i: nat)     // writes the sample
    | Exiting                // about to signal the exit
    | Exited

  /** The thread that finalizes the graph. */
  datatype Finalizer = NotCalled | Cleared | Posted | Joined

  /** A published sample, the registry version it was converted from and the
      buffer content that it was converted into. */
  datatype Publication<S> = Publication(version: nat, sample: S, buffer: S)

  datatype LogEntry<P, S> = LogEntry(p: P, pub: Publication<S>)

  /** The history variables record `hist`, every registry value so far (the
      current one last; a rolled back call leaves none); `settled`, the versions at which
      no call was part-way through; `req`, the version at the end of the last
      call that queued an update; `missed`, whether an update was given up on
      since the last complete gathering; and `log`, everything published. */
  datatype State<!R, !P, !S> = State(
    hist: seq<R>, settled: set<nat>, req: nat, missed: bool, log: seq<LogEntry<P, S>>,
    sem: nat, lock: Lock, active: bool, fin: Finalizer, exitSem: nat,
    pc: Pc, participants: seq<P>, pinfo: Publication<S>, last: map<P, Publication<S>>)
  {
    ghost predicate Wf() { hist != [] && (lock.HeldByApi? ==> lock.entry < |hist|) }
    function Current(): R requires hist != [] { hist[|hist| - 1] }
    function Version(): nat requires hist != [] { |hist| - 1 }

    /** The version that the rest of the system can have seen. */
    function Base(): nat requires hist != [] { if lock.HeldByApi? then lock.entry else |hist| - 1 }
  }

  /** What can happen in one step, and by whom. */
  datatype Label<R> =
    | ApiLock(call: Call) | ApiChange(reg: R) | ApiQueue | ApiRollBack | ApiUnlock
    | FinalizeClear | FinalizePost | FinalizeJoin
    | Proceed | Fail | TimeOut | PollNode(reg: R)

  predicate IsApiLabel<R>(l: Label<R>) {
    l.ApiLock? || l.ApiChange? || l.ApiQueue? || l.ApiRollBack? || l.ApiUnlock?
  }

  ghost predicate Init<R, P, S>(env: Env<R, P, S>, s: State<R, P, S>) {
    && |s.hist| == 1 && env.parts(s.hist[0]) == []
    && s.settled == {0} && s.req == 0 && !s.missed && s.log == []
    && s.sem == 0 && s.lock == Free && s.active && s.fin == NotCalled && s.exitSem == 0
    && s.pc == Top && s.participants == [] && s.pinfo.version == 0 && s.last == map[]
  }

  /** A change that gives no participant its first node. */
  ghost predicate NoNewParticipant<R, P, S>(env: Env<R, P, S>, r: R, r': R) {
    forall p :: p in env.parts(r') ==> p in env.parts(r)
  }

  // ---- API calls ----

  predicate MayChange(call: Call, point: Point) {
    match call
    case EndpointCall => point == Entered
    case InspectCall => point == Entered || point == Changed
    case RegisterNodeCall => point == Entered || point == Queued
    case UnregisterNodeCall => point == Entered
  }

  predicate MayQueue(call: Call, point: Point) {
    match call
    case EndpointCall => point == Changed
    case InspectCall => point == Entered || point == Changed
    case RegisterNodeCall => point == Changed
    case UnregisterNodeCall => false
  }

  predicate MayUnlock(call: Call, point: Point) {
    match call
    case EndpointCall => point == Entered || point == Queued
    case InspectCall => point == Entered || point == Changed || point == Queued
    case RegisterNodeCall => point == Entered || point == Queued || point.RolledBack?
    case UnregisterNodeCall => point == Entered || point == Changed
  }

  ghost predicate ApiStep<R, P, S>(env: Env<R, P, S>, s: State<R, P, S>, l: Label<R>, s': State<R, P, S>)
    requires s.Wf()
  {
    match l
    case ApiLock(call) =>
      s.lock.Free? && s' == s.(lock := HeldByApi(call, Entered, s.Version()))
    case ApiChange(reg) =>
      && s.lock.HeldByApi? && MayChange(s.lock.call, s.lock.point)
      && (s.lock.call == InspectCall || s.lock.call == UnregisterNodeCall ==> NoNewParticipant(env, s.Current(), reg))
      && s' == s.(hist := s.hist + [reg],
                  lock := s.lock.(point := if s.lock.point == Queued then Queued else Changed))
    case ApiQueue =>
      && s.lock.HeldByApi? && MayQueue(s.lock.call, s.lock.point)
      && s' == s.(sem := s.sem + 1, lock := s.lock.(point := Queued))
    case ApiRollBack =>
      && s.lock.HeldByApi? && s.lock.call == RegisterNodeCall && (s.lock.point == Changed || s.lock.point == Queued)
      && s' == s.(hist := s.hist[..s.lock.entry + 1], lock := s.lock.(point := RolledBack(s.lock.point == Queued)))
    case ApiUnlock =>
      && s.lock.HeldByApi? && MayUnlock(s.lock.call, s.lock.point)
      && s' == s.(lock := Free, settled := s.settled + {s.Version()},
                  req := if HasQueued(s.lock.point) then s.Version() else s.req)
    case _ => false
  }

  // ---- The finalizer ----

  ghost predicate FinalizerStep<R, P, S>(s: State<R, P, S>, l: Label<R>, s': State<R, P, S>) {
    match l
    case FinalizeClear => s.fin == NotCalled && s' == s.(fin := Cleared, active := false)
    case FinalizePost => s.fin == Cleared && s' == s.(fin := Posted, sem := s.sem + 1)
    case FinalizeJoin => s.fin == Posted && s.exitSem > 0 && s' == s.(fin := Joined, exitSem := s.exitSem - 1)
    case _ => false
  }

  // ---- The update thread ----

  /** Steps on the semaphores and the loop tests: the registry, the mutex and
      the sample are not touched. */
  ghost predicate ControlStep<R, P, S>(env: Env<R, P, S>, s: State<R, P, S>, l: Label<R>, s': State<R, P, S>) {
    && s' == s.(pc := s'.pc, sem := s'.sem, exitSem := s'.exitSem)
    && s'.exitSem == s.exitSem + (if s.pc.Exiting? then 1 else 0)
    && s'.sem == s.sem - (if l.Proceed? && (s.pc.Wait? || s.pc.PollTake? || s.pc.Drain?) then 1 else 0)
    && match s.pc
       case Top => l.Proceed? && s'.pc == (if s.active then Wait else Exiting)
       case Wait =>
         || (l.Proceed? && s.sem > 0 && s'.pc == Woken(Token))
         || (l.TimeOut? && env.poll && s.sem == 0 && s'.pc == Woken(Timeout))
       case Woken(rc) =>
         l.Proceed? && s'.pc == (if !s.active then Top else if rc == Timeout then PollLock else Drain)
       case PollTake =>
         || (l.Proceed? && s.sem > 0 && s'.pc == Drain)
         || (l.TimeOut? && s.sem == 0 && s'.pc == Top)
       case Drain =>
         || (l.Proceed? && s.sem > 0 && s'.pc == Drain)
         || (l.TimeOut? && s.sem == 0 && s'.pc == GatherLock)
       case Next(i) => l.Proceed? && s'.pc == (if i < |s.participants| then ConvertLock(i) else Top)
       case Exiting => l.Proceed? && s'.pc == Exited
       case _ => false
  }

  /** Steps that take the mutex. */
  ghost predicate TakeMutexStep<R, P, S>(env: Env<R, P, S>, s: State<R, P, S>, l: Label<R>, s': State<R, P, S>)
    requires s.Wf()
  {
    && l.Proceed? && s.lock.Free? && s' == s.(lock := HeldByUpdater, pc := s'.pc)
    && match s.pc
       case PollLock => s'.pc == Polling(env.nodeCount(s.Current()))
       case GatherLock => s'.pc == Gathering
       case ConvertLock(i) => s'.pc == Converting(i)
       case _ => false
  }

  /** Steps that give the mutex back. */
  ghost predicate GiveMutexStep<R, P, S>(s: State<R, P, S>, l: Label<R>, s': State<R, P, S>)
    requires s.Wf()
  {
    && l.Proceed? && s' == s.(lock := Free, settled := s.settled + {s.Version()}, pc := s'.pc)
    && match s.pc
       case Polling(left) => left == 0 && s'.pc == PollTake
       case Gathered => s'.pc == Next(0)
       case Converted(i) => s'.pc == Publishing(i)
       case _ => false
  }

  /** Inspection, gathering, conversion and publication. */
  ghost predicate WorkStep<R, P, S>(env: Env<R, P, S>, s: State<R, P, S>, l: Label<R>, s': State<R, P, S>)
    requires s.Wf()
  {
    match s.pc
    case Polling(left) =>
      && l.PollNode? && left > 0 && env.parts(l.reg) == env.parts(s.Current())
      && s' == s.(hist := s.hist + [l.reg], pc := Polling(left - 1))
    case Gathering =>
      l.Proceed? && s' == s.(participants := env.parts(s.Current()), missed := false, pc := Gathered)
    case Converting(i) =>
      && l.Proceed? && i < |s.participants| && env.ok(s.Current(), s.participants[i], s.pinfo.sample)
      && s' == s.(pc := Converted(i),
           pinfo := Publication(s.Version(), env.conv(s.Current(), s.participants[i], s.pinfo.sample), s.pinfo.sample))
    case Publishing(i) =>
      && l.Proceed? && i < |s.participants|
      && s' == s.(pc := Next(i + 1), last := s.last[s.participants[i] := s.pinfo],
                  log := s.log + [LogEntry(s.participants[i], s.pinfo)])
    case _ => false
  }

  /** A gathering, conversion or publication that fails, as any may for want of
      memory, and as a conversion must that is not `ok`: the thread gives the
      cycle up and is back at its loop test without the token, and the buffer
      may hold anything. */
  ghost predicate GiveUpStep<R, P, S>(s: State<R, P, S>, l: Label<R>, s': State<R, P, S>) {
    && l.Fail? && (s.pc.Gathering? || s.pc.Converting? || s.pc.Publishing?)
    && s'.pinfo.version == s.pinfo.version
    && s' == s.(pc := Top, missed := true, pinfo := s'.pinfo, lock := if s.lock.HeldByUpdater? then Free else s.lock)
  }

  ghost predicate UpdaterStep<R, P, S>(env: Env<R, P, S>, s: State<R, P, S>, l: Label<R>, s': State<R, P, S>)
    requires s.Wf()
  {
    || ControlStep(env, s, l, s')
    || TakeMutexStep(env, s, l, s')
    || GiveMutexStep(s, l, s')
    || WorkStep(env, s, l, s')
    || GiveUpStep(s, l, s')
  }

  ghost predicate Step<R, P, S>(env: Env<R, P, S>, s: State<R, P, S>, l: Label<R>, s': State<R, P, S>) {
    s.Wf() && (ApiStep(env, s, l, s') || FinalizerStep(s, l, s') || UpdaterStep(env, s, l, s'))
  }

  ghost predicate StepAt<R, P, S>(env: Env<R, P, S>, states: seq<State<R, P, S>>, labels: seq<Label<R>>, k: nat)
    requires |states| == |labels| + 1 && k < |labels|
  {
    Step(env, states[k], labels[k], states[k + 1])
  }

  /** Consecutive steps: states[k] goes to states[k + 1] by labels[k]. */
  ghost predicate IsPath<R, P, S>(env: Env<R, P, S>, states: seq<State<R, P, S>>, labels: seq<Label<R>>) {
    |states| == |labels| + 1 && forall k :: 0 <= k < |labels| ==> StepAt(env, states, labels, k)
  }

  /** A run is a path from an initial state. */
  ghost predicate IsRun<R, P, S>(env: Env<R, P, S>, states: seq<State<R, P, S>>, labels: seq<Label<R>>) {
    IsPath(env, states, labels) && Init(env, states[0])
  }
}
