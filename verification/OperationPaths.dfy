/** That the update protocol can carry out every operation of the registry, and
    which operations leave what is published behind the registry. */
module OperationPaths {
  import opened Common
  import opened Registry
  import opened RegistryInvariants
  import opened Snapshot
  import opened UpdateProtocol
  import opened NoLostUpdate
  import opened PublishedRegistry
  import opened UpToDate
  import Handles

  /** The system can go from s, implementing g, to s', implementing g'. */
  ghost predicate Leads(poll: bool, s: Sys, g: Registry.Graph, s': Sys, g': Registry.Graph) {
    exists t: Trace :: Joins(t, poll, s, g, s', g')
  }

  ghost predicate Joins(t: Trace, poll: bool, s: Sys, g: Registry.Graph, s': Sys, g': Registry.Graph) {
    && IsPath(RegistryEnv(poll), t.states, t.labels) && Follows(t)
    && t.states[0] == s && t.graphs[0] == g && t.Last() == s' && t.LastGraph() == g'
  }

  lemma LeadsStep(poll: bool, s: Sys, g: Registry.Graph, l: Label<Registry.Graph>, s': Sys)
    requires Step(RegistryEnv(poll), s, l, s') && !Completes(s, l)
    ensures Leads(poll, s, g, s', g)
  {
    hide Step, Norm, Apply;
    var t := Trace([s, s'], [l], [g, g], [None]);
    assert FollowsAt(t, 0) && StepAt(RegistryEnv(poll), t.states, t.labels, 0);
    assert Joins(t, poll, s, g, s', g);
  }

  /** The step that completes an operation. */
  lemma LeadsCompletion(poll: bool, s: Sys, g: Registry.Graph, l: Label<Registry.Graph>, s': Sys, op: Op)
    requires Step(RegistryEnv(poll), s, l, s') && Completes(s, l) && IsSectionOf(op, s.lock)
    requires QueuesAs(s.lock, Queues(g, op))
    requires s'.Wf() && s'.Current() == Norm(Apply(g, op))
    ensures Leads(poll, s, g, s', Apply(g, op))
  {
    hide Step, Norm, Apply, IsSectionOf, QueuesAs;
    var t := Trace([s, s'], [l], [g, Apply(g, op)], [Some(op)]);
    assert FollowsAt(t, 0) && StepAt(RegistryEnv(poll), t.states, t.labels, 0);
    assert Joins(t, poll, s, g, s', Apply(g, op));
  }

  function Join(a: Trace, b: Trace): Trace
    requires a.Sized() && b.Sized()
  {
    Trace(a.states + b.states[1..], a.labels + b.labels, a.graphs + b.graphs[1..], a.ops + b.ops)
  }

  lemma JoinAt(a: Trace, b: Trace, k: nat)
    requires a.Sized() && b.Sized() && a.Last() == b.states[0] && a.LastGraph() == b.graphs[0]
    requires k < |a.labels| + |b.labels|
    ensures var t, n := Join(a, b), |a.labels|;
      && t.Sized() && t.labels[k] == (if k < n then a.labels[k] else b.labels[k - n])
      && t.ops[k] == (if k < n then a.ops[k] else b.ops[k - n])
      && t.states[k] == (if k < n then a.states[k] else b.states[k - n])
      && t.states[k + 1] == (if k < n then a.states[k + 1] else b.states[k - n + 1])
      && t.graphs[k] == (if k < n then a.graphs[k] else b.graphs[k - n])
      && t.graphs[k + 1] == (if k < n then a.graphs[k + 1] else b.graphs[k - n + 1])
  {}

  lemma JoinIsTrace(poll: bool, a: Trace, b: Trace)
    requires IsPath(RegistryEnv(poll), a.states, a.labels) && Follows(a)
    requires IsPath(RegistryEnv(poll), b.states, b.labels) && Follows(b)
    requires a.Last() == b.states[0] && a.LastGraph() == b.graphs[0]
    ensures IsPath(RegistryEnv(poll), Join(a, b).states, Join(a, b).labels) && Follows(Join(a, b))
  {
    hide Step, Norm, Apply, Completes, IsSectionOf, QueuesAs;
    var t := Join(a, b);
    forall k | 0 <= k < |t.labels|
      ensures FollowsAt(t, k) && StepAt(RegistryEnv(poll), t.states, t.labels, k)
    {
      JoinAt(a, b, k);
      if k < |a.labels| {
        assert FollowsAt(a, k) && StepAt(RegistryEnv(poll), a.states, a.labels, k);
      } else {
        var j := k - |a.labels|;
        assert FollowsAt(b, j) && StepAt(RegistryEnv(poll), b.states, b.labels, j);
      }
    }
  }

  lemma LeadsTransitive(poll: bool, s: Sys, g: Registry.Graph, s1: Sys, g1: Registry.Graph, s2: Sys, g2: Registry.Graph)
    requires Leads(poll, s, g, s1, g1) && Leads(poll, s1, g1, s2, g2)
    ensures Leads(poll, s, g, s2, g2)
  {
    hide StepAt, FollowsAt;
    var a: Trace :| Joins(a, poll, s, g, s1, g1);
    var b: Trace :| Joins(b, poll, s1, g1, s2, g2);
    JoinIsTrace(poll, a, b);
    assert Joins(Join(a, b), poll, s, g, s2, g2);
  }

  // ---- The shapes of an API call ----

  function Locked(s: Sys, call: Call): Sys
    requires s.Wf()
  {
    s.(lock := HeldByApi(call, Entered, s.Version()))
  }

  /** A call that changes nothing. */
  lemma IdleCall(poll: bool, s: Sys, g: Registry.Graph, op: Op, call: Call)
    requires s.Wf() && s.lock.Free? && s.Current() == Norm(Apply(g, op)) && Apply(g, op).tokens == g.tokens
    requires IsSectionOf(op, HeldByApi(call, Entered, s.Version()))
    ensures Leads(poll, s, g, s.(settled := s.settled + {s.Version()}), Apply(g, op))
  {
    hide Norm, Apply, UpdaterStep, FinalizerStep, Leads;
    var s1, s2 := Locked(s, call), s.(settled := s.settled + {s.Version()});
    LeadsStep(poll, s, g, ApiLock(call), s1);
    LeadsCompletion(poll, s1, g, ApiUnlock, s2, op);
    LeadsTransitive(poll, s, g, s1, g, s2, Apply(g, op));
  }

  function Grown(s: Sys, reg: Registry.Graph): Sys {
    s.(hist := s.hist + [reg], settled := s.settled + {|s.hist|})
  }

  ghost predicate MayReplace(poll: bool, call: Call, r: Registry.Graph, r': Registry.Graph) {
    call == InspectCall || call == UnregisterNodeCall ==> NoNewParticipant(RegistryEnv(poll), r, r')
  }

  lemma LeadsToChange(poll: bool, s: Sys, g: Registry.Graph, call: Call, reg: Registry.Graph)
    requires s.Wf() && s.lock.Free? && MayReplace(poll, call, s.Current(), reg)
    ensures var s1 := Locked(s, call);
      Leads(poll, s, g, s1.(hist := s.hist + [reg], lock := s1.lock.(point := Changed)), g)
  {
    hide Norm, Apply, UpdaterStep, FinalizerStep, Leads;
    var s1 := Locked(s, call);
    var s2 := s1.(hist := s.hist + [reg], lock := s1.lock.(point := Changed));
    LeadsStep(poll, s, g, ApiLock(call), s1);
    LeadsStep(poll, s1, g, ApiChange(reg), s2);
    LeadsTransitive(poll, s, g, s1, g, s2, g);
  }

  /** A call that changes the registry and queues nothing. */
  lemma UnqueuedCall(poll: bool, s: Sys, g: Registry.Graph, op: Op, call: Call)
    requires s.Wf() && s.lock.Free? && Apply(g, op).tokens == g.tokens
    requires call == InspectCall || call == UnregisterNodeCall
    requires IsSectionOf(op, HeldByApi(call, Changed, s.Version()))
    requires MayReplace(poll, call, s.Current(), Norm(Apply(g, op)))
    ensures Leads(poll, s, g, Grown(s, Norm(Apply(g, op))), Apply(g, op))
  {
    hide Norm, Apply, MayReplace, UpdaterStep, FinalizerStep, Leads;
    var reg, s1 := Norm(Apply(g, op)), Locked(s, call);
    var s2, s3 := s1.(hist := s.hist + [reg], lock := s1.lock.(point := Changed)), Grown(s, reg);
    LeadsToChange(poll, s, g, call, reg);
    LeadsCompletion(poll, s2, g, ApiUnlock, s3, op);
    LeadsTransitive(poll, s, g, s2, g, s3, Apply(g, op));
  }

  lemma LeadsToQueued(poll: bool, s: Sys, g: Registry.Graph, call: Call, reg: Registry.Graph)
    requires s.Wf() && s.lock.Free? && MayReplace(poll, call, s.Current(), reg) && call != UnregisterNodeCall
    ensures var s1 := Locked(s, call);
      Leads(poll, s, g, s1.(hist := s.hist + [reg], sem := s.sem + 1, lock := s1.lock.(point := Queued)), g)
  {
    hide MayReplace, UpdaterStep, FinalizerStep, Leads;
    var s1 := Locked(s, call);
    var s2 := s1.(hist := s.hist + [reg], lock := s1.lock.(point := Changed));
    var s3 := s2.(sem := s.sem + 1, lock := s1.lock.(point := Queued));
    LeadsToChange(poll, s, g, call, reg);
    LeadsStep(poll, s2, g, ApiQueue, s3);
    LeadsTransitive(poll, s, g, s2, g, s3, g);
  }

  function GrownAndQueued(s: Sys, reg: Registry.Graph): Sys {
    Grown(s, reg).(sem := s.sem + 1, req := |s.hist|)
  }

  /** A call that changes the registry and queues an update. */
  lemma QueuedCall(poll: bool, s: Sys, g: Registry.Graph, op: Op, call: Call)
    requires s.Wf() && s.lock.Free? && Queues(g, op) && call != UnregisterNodeCall
    requires IsSectionOf(op, HeldByApi(call, Queued, s.Version()))
    requires MayReplace(poll, call, s.Current(), Norm(Apply(g, op)))
    ensures Leads(poll, s, g, GrownAndQueued(s, Norm(Apply(g, op))), Apply(g, op))
  {
    hide Norm, Apply, MayReplace, UpdaterStep, FinalizerStep, Leads;
    var reg, s1 := Norm(Apply(g, op)), Locked(s, call);
    var s2 := s1.(hist := s.hist + [reg], sem := s.sem + 1, lock := s1.lock.(point := Queued));
    var s3 := GrownAndQueued(s, reg);
    LeadsToQueued(poll, s, g, call, reg);
    LeadsCompletion(poll, s2, g, ApiUnlock, s3, op);
    LeadsTransitive(poll, s, g, s2, g, s3, Apply(g, op));
  }

  /** A node registration that inspects: the node is listed, the update queued,
      and then the inspection changes the node. */
  lemma InspectingCall(poll: bool, s: Sys, g: Registry.Graph, op: Op, listed: Registry.Graph)
    requires s.Wf() && s.lock.Free? && op.OpRegisterNode? && Queues(g, op)
    ensures Leads(poll, s, g, GrownAndQueued(s, listed).(
      hist := s.hist + [listed, Norm(Apply(g, op))], settled := s.settled + {|s.hist| + 1}, req := |s.hist| + 1),
      Apply(g, op))
  {
    hide Norm, Apply, UpdaterStep, FinalizerStep, Leads;
    var reg, s1 := Norm(Apply(g, op)), Locked(s, RegisterNodeCall);
    var s2 := s1.(hist := s.hist + [listed], sem := s.sem + 1, lock := s1.lock.(point := Queued));
    var s3 := s2.(hist := s.hist + [listed, reg]);
    var s4 := s3.(lock := Free, settled := s.settled + {|s.hist| + 1}, req := |s.hist| + 1);
    LeadsToQueued(poll, s, g, RegisterNodeCall, listed);
    assert s3.hist == s2.hist + [reg];
    LeadsStep(poll, s2, g, ApiChange(reg), s3);
    LeadsTransitive(poll, s, g, s2, g, s3, g);
    LeadsCompletion(poll, s3, g, ApiUnlock, s4, op);
    LeadsTransitive(poll, s, g, s3, g, s4, Apply(g, op));
  }

  /** One whose inspection fails: the list is as before, the token stays. */
  lemma RolledBackCall(poll: bool, s: Sys, g: Registry.Graph, op: Op, listed: Registry.Graph)
    requires s.Wf() && s.lock.Free? && op.OpRegisterNode? && Queues(g, op)
    requires s.Current() == Norm(Apply(g, op))
    ensures Leads(poll, s, g, s.(settled := s.settled + {s.Version()}, sem := s.sem + 1, req := s.Version()),
                  Apply(g, op))
  {
    hide Norm, Apply, UpdaterStep, FinalizerStep, Leads;
    var s1 := Locked(s, RegisterNodeCall);
    var s2 := s1.(hist := s.hist + [listed], sem := s.sem + 1, lock := s1.lock.(point := Queued));
    var s3 := s2.(hist := s.hist, lock := s1.lock.(point := RolledBack(true)));
    var s4 := s.(settled := s.settled + {s.Version()}, sem := s.sem + 1, req := s.Version());
    LeadsToQueued(poll, s, g, RegisterNodeCall, listed);
    assert s2.hist[..s2.lock.entry + 1] == s.hist;
    LeadsStep(poll, s2, g, ApiRollBack, s3);
    LeadsTransitive(poll, s, g, s2, g, s3, g);
    LeadsCompletion(poll, s3, g, ApiUnlock, s4, op);
    LeadsTransitive(poll, s, g, s3, g, s4, Apply(g, op));
  }

  // ---- Every operation ----

  /** An API call changes nothing but the registry's history and, if it queues
      an update, the semaphore and what is due. */
  ghost predicate CalledIn(s: Sys, g: Registry.Graph, s': Sys, g': Registry.Graph) {
    && s' == s.(hist := s'.hist, settled := s'.settled, req := s'.req, sem := s'.sem)
    && s'.Wf() && s'.Current() == Norm(g') && s'.sem - s.sem == g'.tokens - g.tokens
  }

  lemma NormIgnores(g: Registry.Graph, g': Registry.Graph)
    requires SameShown(g.nodes, g'.nodes)
    requires g' == g.(nodes := g'.nodes, nodeHandleNext := g'.nodeHandleNext, tokens := g'.tokens)
    ensures Norm(g') == Norm(g)
  {
    assert NormNodes(g'.nodes) == NormNodes(g.nodes);
  }

  lemma NormMayReplace(poll: bool, call: Call, g: Registry.Graph, g': Registry.Graph)
    requires GraphOk(g) && GraphOk(g') && NoNewParticipant(RegistryEnv(poll), g, g')
    ensures MayReplace(poll, call, Norm(g), Norm(g'))
  {
    NormPublishesTheSame(g);
    NormPublishesTheSame(g');
    var env := RegistryEnv(poll);
    assert env.parts(Norm(g)) == env.parts(g) && env.parts(Norm(g')) == env.parts(g');
  }

  predicate IsEndpointOp(op: Op) {
    op.OpRegisterEndpoint? || op.OpUnregisterEndpoint? || op.OpUnregisterEndpointByHandle?
  }

  lemma EndpointOpEffect(g: Registry.Graph, op: Op)
    requires GraphOk(g) && IsEndpointOp(op)
    ensures var g' := Apply(g, op);
      && g.tokens <= g'.tokens <= g.tokens + 1 && (g'.tokens == g.tokens ==> Norm(g') == Norm(g))
  {
    var g' := Apply(g, op);
    assert g' == g.(nodes := g'.nodes, tokens := g'.tokens) && g.tokens <= g'.tokens <= g.tokens + 1 by {
      match op
      case OpRegisterEndpoint(_, _, _, _, _) =>
      case OpUnregisterEndpoint(_, _, _) =>
      case OpUnregisterEndpointByHandle(_, _) =>
    }
    if g'.tokens == g.tokens {
      UnqueuedOperationsShowTheSame(g, op);
      NormIgnores(g, g');
    }
  }

  lemma EndpointOpIsRealised(poll: bool, s: Sys, g: Registry.Graph, op: Op) returns (s': Sys)
    requires GraphOk(g) && s.Wf() && s.lock.Free? && s.Current() == Norm(g) && IsEndpointOp(op)
    ensures Leads(poll, s, g, s', Apply(g, op)) && CalledIn(s, g, s', Apply(g, op))
  {
    hide Norm, Apply, GraphOk, Leads;
    EndpointOpEffect(g, op);
    if Apply(g, op).tokens == g.tokens {
      IdleCall(poll, s, g, op, EndpointCall);
      s' := s.(settled := s.settled + {s.Version()});
    } else {
      QueuedCall(poll, s, g, op, EndpointCall);
      s' := GrownAndQueued(s, Norm(Apply(g, op)));
    }
  }

  lemma InspectionTokens(g: Registry.Graph, op: Op)
    requires op.OpInspectNode?
    ensures g.tokens <= Apply(g, op).tokens <= g.tokens + 1
  {}

  lemma InspectionIsRealised(poll: bool, s: Sys, g: Registry.Graph, op: Op) returns (s': Sys)
    requires GraphOk(g) && s.Wf() && s.lock.Free? && s.Current() == Norm(g) && op.OpInspectNode?
    ensures Leads(poll, s, g, s', Apply(g, op)) && CalledIn(s, g, s', Apply(g, op))
  {
    hide Norm, Apply, GraphOk, Leads, MayReplace;
    var g' := Apply(g, op);
    InspectionTokens(g, op);
    ApplyKeepsOk(g, op);
    UnqueuedOperationsAddNoParticipant(g, op);
    NormMayReplace(poll, InspectCall, g, g');
    if g'.tokens == g.tokens {
      UnqueuedCall(poll, s, g, op, InspectCall);
      s' := Grown(s, Norm(g'));
    } else {
      QueuedCall(poll, s, g, op, InspectCall);
      s' := GrownAndQueued(s, Norm(g'));
    }
  }

  lemma SilentTokens(g: Registry.Graph, op: Op)
    requires op.OpUnregisterNode? || op.OpPoll?
    ensures Apply(g, op).tokens == g.tokens
  {}

  lemma NodeRemovalIsRealised(poll: bool, s: Sys, g: Registry.Graph, op: Op) returns (s': Sys)
    requires GraphOk(g) && s.Wf() && s.lock.Free? && s.Current() == Norm(g) && op.OpUnregisterNode?
    ensures Leads(poll, s, g, s', Apply(g, op)) && CalledIn(s, g, s', Apply(g, op))
  {
    hide Norm, Apply, GraphOk, Leads, MayReplace;
    SilentTokens(g, op);
    ApplyKeepsOk(g, op);
    UnqueuedOperationsAddNoParticipant(g, op);
    NormMayReplace(poll, UnregisterNodeCall, g, Apply(g, op));
    UnqueuedCall(poll, s, g, op, UnregisterNodeCall);
    s' := Grown(s, Norm(Apply(g, op)));
  }

  /** A node registration either fails and leaves the registry as it was, or
      queues one update. */
  lemma RegistrationEffect(g: Registry.Graph, op: Op)
    requires GraphOk(g) && op.OpRegisterNode?
    ensures var g' := Apply(g, op);
      && g.tokens <= g'.tokens <= g.tokens + 1 && (g'.tokens == g.tokens ==> Norm(g') == Norm(g))
  {
    var (h, g') := RegisterNode(g, op.name, op.ns, op.participant, op.res, op.contents);
    FreshHandle(NodeHandles(g.nodes), g.nodeHandleNext);
    if h < 0 {
      FailedRegistrationRollsBack(g, op.name, op.ns, op.participant, op.res, op.contents);
      NormIgnores(g, g');
    }
  }

  /** The registry while a registration inspects: its node is listed. */
  function WhileInspecting(g: Registry.Graph, op: Op): Registry.Graph
    requires op.OpRegisterNode?
  {
    var h := Handles.Allocate(NodeHandles(g.nodes), g.nodeHandleNext, Handles.INT_MAX).0;
    if h.None? || op.name.None? then g
    else AppendNode(g, NewNode(h.value, op.name.value, op.ns,
                               if op.participant.Some? then op.participant.value else g.graphParticipant))
  }

  lemma RegistrationIsRealised(poll: bool, s: Sys, g: Registry.Graph, op: Op) returns (s': Sys)
    requires GraphOk(g) && s.Wf() && s.lock.Free? && s.Current() == Norm(g) && op.OpRegisterNode?
    ensures Leads(poll, s, g, s', Apply(g, op)) && CalledIn(s, g, s', Apply(g, op))
  {
    hide Norm, Apply, GraphOk, Leads, WhileInspecting;
    RegistrationEffect(g, op);
    var g', listed := Apply(g, op), Norm(WhileInspecting(g, op));
    if g'.tokens == g.tokens {
      IdleCall(poll, s, g, op, RegisterNodeCall);
      s' := s.(settled := s.settled + {s.Version()});
    } else if Norm(g') == Norm(g) {
      RolledBackCall(poll, s, g, op, listed);
      s' := s.(settled := s.settled + {s.Version()}, sem := s.sem + 1, req := s.Version());
    } else if g.polling {
      InspectingCall(poll, s, g, op, listed);
      s' := GrownAndQueued(s, listed).(
        hist := s.hist + [listed, Norm(g')], settled := s.settled + {|s.hist| + 1}, req := |s.hist| + 1);
    } else {
      QueuedCall(poll, s, g, op, RegisterNodeCall);
      s' := GrownAndQueued(s, Norm(g'));
    }
  }

  // ---- Polls ----

  /** The registry when the first j nodes have been polled. */
  function PolledUpTo(g: Registry.Graph, op: Op, j: nat): Registry.Graph
    requires op.OpPoll? && j <= |g.nodes|
  {
    g.(nodes := Apply(g, op).nodes[..j] + g.nodes[j..])
  }

  lemma PollKeepsParticipants(g: Registry.Graph, op: Op, j: nat)
    requires GraphOk(g) && op.OpPoll? && j <= |g.nodes|
    ensures Gather(Norm(PolledUpTo(g, op, j)).nodes) == Gather(Norm(g).nodes)
  {
    hide GraphOk, Apply;
    InspectionsKeepIdentity(g, op);
    SameParticipantsGatherTheSame([], Norm(g).nodes, Norm(PolledUpTo(g, op, j)).nodes);
  }

  lemma PolledEnds(g: Registry.Graph, op: Op)
    requires op.OpPoll?
    ensures PolledUpTo(g, op, 0) == g && PolledUpTo(g, op, |g.nodes|) == Apply(g, op)
  {
    assert |Apply(g, op).nodes| == |g.nodes|;
  }

  /** The thread's inspections, one by one, from the j-th node on. */
  lemma {:induction false} PollNodes(poll: bool, s: Sys, g: Registry.Graph, op: Op, j: nat) returns (s': Sys)
    requires GraphOk(g) && op.OpPoll? && j <= |g.nodes|
    requires s.Wf() && s.lock.HeldByUpdater? && s.pc == Polling(|g.nodes| - j)
    requires s.Current() == Norm(PolledUpTo(g, op, j))
    ensures Leads(poll, s, g, s', g) && s' == s.(hist := s'.hist, pc := Polling(0))
    ensures s'.Wf() && s'.Current() == Norm(PolledUpTo(g, op, |g.nodes|))
    decreases |g.nodes| - j
  {
    hide Norm, Leads, PolledUpTo, GraphOk;
    if j == |g.nodes| {
      s' := s;
      LeadsNowhere(poll, s, g);
    } else {
      var next := Norm(PolledUpTo(g, op, j + 1));
      var s1 := s.(hist := s.hist + [next], pc := Polling(|g.nodes| - j - 1));
      PollKeepsParticipants(g, op, j);
      PollKeepsParticipants(g, op, j + 1);
      assert RegistryEnv(poll).parts(next) == RegistryEnv(poll).parts(s.Current());
      LeadsStep(poll, s, g, PollNode(next), s1);
      s' := PollNodes(poll, s1, g, op, j + 1);
      LeadsTransitive(poll, s, g, s1, g, s', g);
    }
  }

  lemma LeadsNowhere(poll: bool, s: Sys, g: Registry.Graph)
    ensures Leads(poll, s, g, s, g)
  {
    assert Joins(Trace([s], [], [g], []), poll, s, g, s, g);
  }

  /** A poll takes the thread from its mutex to the look for a token. */
  ghost predicate PolledIn(s: Sys, s': Sys, g': Registry.Graph) {
    && s' == s.(hist := s'.hist, settled := s'.settled, pc := PollTake) && s'.Wf() && s'.Current() == Norm(g')
  }

  lemma PollIsRealised(poll: bool, s: Sys, g: Registry.Graph, op: Op) returns (s': Sys)
    requires GraphOk(g) && s.Wf() && s.lock.Free? && s.pc == PollLock && s.Current() == Norm(g) && op.OpPoll?
    ensures Leads(poll, s, g, s', Apply(g, op)) && PolledIn(s, s', Apply(g, op))
  {
    hide Leads, GraphOk, Apply, PolledUpTo, ApiStep, FinalizerStep;
    PolledEnds(g, op);
    SilentTokens(g, op);
    var s1 := s.(lock := HeldByUpdater, pc := Polling(|g.nodes|));
    LeadsStep(poll, s, g, Proceed, s1);
    var s2 := PollNodes(poll, s1, g, op, 0);
    LeadsTransitive(poll, s, g, s1, g, s2, g);
    s' := s2.(lock := Free, settled := s2.settled + {s2.Version()}, pc := PollTake);
    LeadsCompletion(poll, s2, g, Proceed, s', op);
    LeadsTransitive(poll, s, g, s2, g, s', Apply(g, op));
  }

  /** From every state in which the mutex is free, and for polls in which the
      thread is about to take it, the system can carry out every operation of
      the registry, with exactly its effect on the registry and the tokens. */
  lemma EveryOperationIsRealised(poll: bool, s: Sys, g: Registry.Graph, op: Op) returns (s': Sys)
    requires GraphOk(g) && s.Wf() && s.lock.Free? && s.Current() == Norm(g) && (op.OpPoll? ==> s.pc == PollLock)
    ensures Leads(poll, s, g, s', Apply(g, op)) && s'.lock.Free?
    ensures if op.OpPoll? then PolledIn(s, s', Apply(g, op)) else CalledIn(s, g, s', Apply(g, op))
  {
    hide Norm, Apply, GraphOk, Leads;
    match op
    case OpRegisterNode(_, _, _, _, _) => s' := RegistrationIsRealised(poll, s, g, op);
    case OpUnregisterNode(_) => s' := NodeRemovalIsRealised(poll, s, g, op);
    case OpInspectNode(_, _, _) => s' := InspectionIsRealised(poll, s, g, op);
    case OpPoll(_, _) => s' := PollIsRealised(poll, s, g, op);
    case _ => s' := EndpointOpIsRealised(poll, s, g, op);
  }

  /** So every run of API operations from such a state can be carried out. */
  lemma {:induction false} EveryRunIsRealised(poll: bool, s: Sys, g: Registry.Graph, ops: seq<Op>) returns (s': Sys)
    requires GraphOk(g) && s.Wf() && s.lock.Free? && s.Current() == Norm(g) && forall op :: op in ops ==> !op.OpPoll?
    ensures Leads(poll, s, g, s', Run(g, ops)) && CalledIn(s, g, s', Run(g, ops)) && GraphOk(Run(g, ops))
  {
    hide Norm, Apply, GraphOk, Leads;
    if ops == [] {
      s' := s;
      LeadsNowhere(poll, s, g);
    } else {
      var before, op := ops[..|ops| - 1], ops[|ops| - 1];
      var s1 := EveryRunIsRealised(poll, s, g, before);
      s' := EveryOperationIsRealised(poll, s1, Run(g, before), op);
      ApplyKeepsOk(Run(g, before), op);
      LeadsTransitive(poll, s, g, s1, Run(g, before), s', Run(g, ops));
    }
  }

  // ---- One cycle of the thread ----

  /** A step of the update thread that completes no operation. */
  lemma ThreadStep(poll: bool, s: Sys, g: Registry.Graph, l: Label<Registry.Graph>, s': Sys)
    requires s.Wf() && UpdaterStep(RegistryEnv(poll), s, l, s') && !Completes(s, l)
    ensures Leads(poll, s, g, s', g)
  {
    LeadsStep(poll, s, g, l, s');
  }

  lemma {:induction false} DrainsAll(poll: bool, s: Sys, g: Registry.Graph)
    requires s.Wf() && s.pc == Drain
    ensures Leads(poll, s, g, s.(sem := 0, pc := GatherLock), g)
    decreases s.sem
  {
    hide Leads;
    if s.sem == 0 {
      ThreadStep(poll, s, g, TimeOut, s.(pc := GatherLock));
    } else {
      var s1 := s.(sem := s.sem - 1);
      ThreadStep(poll, s, g, Proceed, s1);
      DrainsAll(poll, s1, g);
      LeadsTransitive(poll, s, g, s1, g, s.(sem := 0, pc := GatherLock), g);
    }
  }

  /** The thread takes a token and drains the rest. */
  lemma WakesUp(poll: bool, s: Sys, g: Registry.Graph)
    requires s.Wf() && s.pc == Top && s.active && s.sem > 0
    ensures Leads(poll, s, g, s.(sem := 0, pc := GatherLock), g)
  {
    hide Leads;
    var s1, s2, s3 := s.(pc := Wait), s.(sem := s.sem - 1, pc := Woken(Token)), s.(sem := s.sem - 1, pc := Drain);
    ThreadStep(poll, s, g, Proceed, s1);
    ThreadStep(poll, s1, g, Proceed, s2);
    LeadsTransitive(poll, s, g, s1, g, s2, g);
    ThreadStep(poll, s2, g, Proceed, s3);
    LeadsTransitive(poll, s, g, s2, g, s3, g);
    DrainsAll(poll, s3, g);
    LeadsTransitive(poll, s, g, s3, g, s.(sem := 0, pc := GatherLock), g);
  }

  ghost function Gathered(s: Sys): Sys
    requires s.Wf()
  {
    s.(participants := Gather(s.Current().nodes), missed := false, settled := s.settled + {s.Version()}, pc := Next(0))
  }

  lemma TakesToGather(poll: bool, s: Sys, g: Registry.Graph)
    requires s.Wf() && s.pc == GatherLock && s.lock.Free?
    ensures Leads(poll, s, g, s.(lock := HeldByUpdater, participants := Gather(s.Current().nodes), missed := false,
                                 pc := Pc.Gathered), g)
  {
    hide Leads;
    var s1 := s.(lock := HeldByUpdater, pc := Gathering);
    var s2 := s1.(participants := Gather(s.Current().nodes), missed := false, pc := Pc.Gathered);
    ThreadStep(poll, s, g, Proceed, s1);
    ThreadStep(poll, s1, g, Proceed, s2);
    LeadsTransitive(poll, s, g, s1, g, s2, g);
  }

  lemma Gathers(poll: bool, s: Sys, g: Registry.Graph)
    requires s.Wf() && s.pc == GatherLock && s.lock.Free?
    ensures Leads(poll, s, g, Gathered(s), g)
  {
    hide Leads;
    var s2 := s.(lock := HeldByUpdater, participants := Gather(s.Current().nodes), missed := false, pc := Pc.Gathered);
    TakesToGather(poll, s, g);
    ThreadStep(poll, s2, g, Proceed, Gathered(s));
    LeadsTransitive(poll, s, g, s2, g, Gathered(s), g);
  }

  /** What the thread publishes for p, and the state afterwards. */
  ghost function Published(s: Sys, p: Participant): Sys
    requires s.Wf() && s.pc.Next?
  {
    var pub := Publication(s.Version(), ConvertOrKeep(s.Current(), p, s.pinfo.sample), s.pinfo.sample);
    s.(pinfo := pub, last := s.last[p := pub], log := s.log + [LogEntry(p, pub)],
       settled := s.settled + {s.Version()}, pc := Next(s.pc.i + 1))
  }

  lemma ConvertsNext(poll: bool, s: Sys, g: Registry.Graph, p: Participant)
    requires s.Wf() && s.pc.Next? && s.pc.i < |s.participants| && s.participants[s.pc.i] == p && s.lock.Free?
    requires Converts(s.Current(), p, s.pinfo.sample)
    ensures Leads(poll, s, g, s.(lock := HeldByUpdater, pinfo := Published(s, p).pinfo, pc := Pc.Converted(s.pc.i)), g)
  {
    hide Leads, Converts, ConvertOrKeep;
    var i := s.pc.i;
    var s1, s2 := s.(pc := ConvertLock(i)), s.(lock := HeldByUpdater, pc := Converting(i));
    var s3 := s2.(pinfo := Published(s, p).pinfo, pc := Pc.Converted(i));
    ThreadStep(poll, s, g, Proceed, s1);
    ThreadStep(poll, s1, g, Proceed, s2);
    LeadsTransitive(poll, s, g, s1, g, s2, g);
    ThreadStep(poll, s2, g, Proceed, s3);
    LeadsTransitive(poll, s, g, s2, g, s3, g);
  }

  lemma Publishes(poll: bool, s: Sys, g: Registry.Graph, p: Participant)
    requires s.Wf() && s.pc.Next? && s.pc.i < |s.participants| && s.participants[s.pc.i] == p && s.lock.Free?
    requires Converts(s.Current(), p, s.pinfo.sample)
    ensures Leads(poll, s, g, Published(s, p), g)
  {
    hide Leads, Converts, ConvertOrKeep;
    var i, s5 := s.pc.i, Published(s, p);
    var s3 := s.(lock := HeldByUpdater, pinfo := s5.pinfo, pc := Pc.Converted(i));
    var s4 := s.(pinfo := s5.pinfo, settled := s5.settled, pc := Publishing(i));
    ConvertsNext(poll, s, g, p);
    ThreadStep(poll, s3, g, Proceed, s4);
    LeadsTransitive(poll, s, g, s3, g, s4, g);
    ThreadStep(poll, s4, g, Proceed, s5);
    LeadsTransitive(poll, s, g, s4, g, s5, g);
  }

  /** One whole cycle for a registry with the nodes of one participant. */
  lemma PublishesOnce(poll: bool, s: Sys, g: Registry.Graph, p: Participant) returns (s': Sys)
    requires s.Wf() && s.lock.Free? && s.pc == Top && s.active && s.sem > 0
    requires Gather(s.Current().nodes) == [p] && Converts(s.Current(), p, s.pinfo.sample)
    ensures Leads(poll, s, g, s', g)
    ensures s' == s.(pc := Wait, sem := 0, participants := [p], missed := false, settled := s'.settled,
                     pinfo := s'.pinfo, log := s'.log, last := s'.last)
    ensures p in s'.last && s'.last[p].sample == ConvertOrKeep(s.Current(), p, s.pinfo.sample)
  {
    hide Leads, Converts, ConvertOrKeep;
    var s1 := s.(sem := 0, pc := GatherLock);
    WakesUp(poll, s, g);
    Gathers(poll, s1, g);
    LeadsTransitive(poll, s, g, s1, g, Gathered(s1), g);
    var s2 := Published(Gathered(s1), p);
    Publishes(poll, Gathered(s1), g, p);
    LeadsTransitive(poll, s, g, Gathered(s1), g, s2, g);
    ThreadStep(poll, s2, g, Proceed, s2.(pc := Top));
    LeadsTransitive(poll, s, g, s2, g, s2.(pc := Top), g);
    s' := s2.(pc := Wait);
    ThreadStep(poll, s2.(pc := Top), g, Proceed, s');
    LeadsTransitive(poll, s, g, s2.(pc := Top), g, s', g);
  }

  lemma PollsAtRest(poll: bool, s: Sys, g: Registry.Graph, op: Op) returns (s': Sys)
    requires GraphOk(g) && s.Wf() && AtRest(s) && s.Current() == Norm(g) && op.OpPoll? && poll
    ensures Leads(poll, s, g, s', Apply(g, op)) && AtRest(s') && s'.last == s.last && s'.missed == s.missed
    ensures s'.Wf() && s'.Current() == Norm(Apply(g, op))
  {
    hide Leads, GraphOk, Norm, Apply;
    var s1, s2 := s.(pc := Woken(Timeout)), s.(pc := PollLock);
    ThreadStep(poll, s, g, TimeOut, s1);
    ThreadStep(poll, s1, g, Proceed, s2);
    LeadsTransitive(poll, s, g, s1, g, s2, g);
    var g' := Apply(g, op);
    var s3 := PollIsRealised(poll, s2, g, op);
    LeadsTransitive(poll, s, g, s2, g, s3, g');
    ThreadStep(poll, s3, g', TimeOut, s3.(pc := Top));
    LeadsTransitive(poll, s, g, s3, g', s3.(pc := Top), g');
    s' := s3.(pc := Wait);
    ThreadStep(poll, s3.(pc := Top), g', Proceed, s');
    LeadsTransitive(poll, s, g, s3.(pc := Top), g', s', g');
  }

  /** From every rest every operation that queues nothing can be carried out, and
      leads to a rest with everything that was published as it was; a participant
      that was up to date is so exactly if its listing is as it was. */
  lemma SilentOperationLeavesBehindIff(poll: bool, s: Sys, g: Registry.Graph, op: Op, p: Participant) returns (s': Sys)
    requires GraphOk(g) && s.Wf() && AtRest(s) && s.Current() == Norm(g)
    requires !Queues(g, op) && (op.OpPoll? ==> poll)
    requires p in s.last && Shows(s.last[p].sample, g.nodes, p)
    ensures Leads(poll, s, g, s', Apply(g, op)) && AtRest(s') && s'.last == s.last
    ensures Shows(s'.last[p].sample, Apply(g, op).nodes, p) <==> SameListing(g.nodes, Apply(g, op).nodes, p)
  {
    hide Leads, GraphOk, Norm, Apply, Reduced, Shows, SameListing;
    TokensNeverFall(g, op);
    if op.OpPoll? {
      s' := PollsAtRest(poll, s, g, op);
    } else {
      s' := EveryOperationIsRealised(poll, s, g, op);
    }
    ApplyKeepsOk(g, op);
    SilentOperationReduces(g, op, p);
    ShowsReducedIff(s.last[p].sample, g, Apply(g, op), p);
  }

  const NO_SAMPLE := Publication(0, Sample(ZERO_GID, DdsSeq(0, [])), Sample(ZERO_GID, DdsSeq(0, [])))

  function InitialState(g: Registry.Graph): Sys {
    State([g], {0}, 0, false, [], 0, Free, true, NotCalled, 0, Top, [], NO_SAMPLE, map[])
  }

  lemma InitialStateIsInitial(graphParticipant: Participant)
    ensures var g := Empty(graphParticipant, false);
      GraphOk(g) && Norm(g) == g && Init(RegistryEnv(false), InitialState(g))
  {
    assert NormNodes([]) == [];
  }

  /** A path from the initial state is a run that carries out operations. */
  lemma RunFromLead(graphParticipant: Participant, s: Sys, g: Registry.Graph) returns (t: Trace)
    requires var g0 := Empty(graphParticipant, false); Leads(false, InitialState(g0), g0, s, g)
    ensures IsOperationRun(t, graphParticipant, false) && t.Last() == s && t.LastGraph() == g
  {
    hide GraphOk, Norm, Init;
    var g0 := Empty(graphParticipant, false);
    InitialStateIsInitial(graphParticipant);
    t :| Joins(t, false, InitialState(g0), g0, s, g);
  }

  /** Any run of API operations that leaves just the nodes of p, and one cycle of
      the thread after it. */
  lemma PublishesRun(graphParticipant: Participant, p: Participant, ops: seq<Op>) returns (s: Sys)
    requires forall op :: op in ops ==> !op.OpPoll?
    requires var g := Run(Empty(graphParticipant, false), ops);
      g.tokens > 0 && Gather(Norm(g).nodes) == [p] && Converts(Norm(g), p, NO_SAMPLE.sample)
    ensures var g0 := Empty(graphParticipant, false);
      && Leads(false, InitialState(g0), g0, s, Run(g0, ops)) && GraphOk(Run(g0, ops))
      && s.Wf() && s.Current() == Norm(Run(g0, ops)) && AtRest(s) && !s.missed
      && p in s.last && s.last[p].sample == ConvertOrKeep(Norm(Run(g0, ops)), p, NO_SAMPLE.sample)
  {
    hide Leads, GraphOk, Converts, ConvertOrKeep, Norm, Run;
    var g0 := Empty(graphParticipant, false);
    InitialStateIsInitial(graphParticipant);
    var s1 := EveryRunIsRealised(false, InitialState(g0), g0, ops);
    s := PublishesOnce(false, s1, Run(g0, ops), p);
    LeadsTransitive(false, InitialState(g0), g0, s1, Run(g0, ops), s, Run(g0, ops));
  }
}
