/** The update protocol over the actual registry: runs that follow operations of
    the API, what is published at rest, and what an attached endpoint stops. */
module PublishedRegistry {
  import opened Common
  import opened Registry
  import opened RegistryInvariants
  import opened Snapshot
  import opened UpdateProtocol
  import opened SnapshotSafety
  import opened NoLostUpdate
  import AttachDrift

  /** The registry as the protocol sees it. A registry on which the conversion
      is not defined (none is reachable) leaves the buffer alone. */
  ghost function RegistryEnv(poll: bool): Env<Registry.Graph, Participant, Sample> {
    Env((g: Registry.Graph) => Gather(g.nodes),
        (g: Registry.Graph, p: Participant, s: Sample) => ConvertOrKeep(g, p, s),
        (g: Registry.Graph, p: Participant, s: Sample) => Converts(g, p, s),
        (g: Registry.Graph) => |g.nodes|,
        poll)
  }

  ghost function ConvertOrKeep(g: Registry.Graph, p: Participant, s: Sample): Sample {
    if Convertible(g) then Convert(g, p, s).1 else s
  }

  ghost predicate Converts(g: Registry.Graph, p: Participant, s: Sample) {
    Convertible(g) && Convert(g, p, s).0 == Status.Converted
  }

  lemma {:induction false} SameShownConvertsTheSame(
      nodes: seq<Node>, nodes': seq<Node>, p: Participant, infos: DdsSeq<NodeInfo>, i: nat)
    requires SameShown(nodes, nodes') && infos.Ok() && i + |nodes| <= infos.len
    requires forall n :: n in nodes ==> HasEntities(n.endpoints)
    requires forall n :: n in nodes' ==> HasEntities(n.endpoints)
    ensures ConvertNodes(nodes', p, infos, i) == ConvertNodes(nodes, p, infos, i)
    decreases |nodes|
  {
    if nodes != [] {
      assert nodes[0] in nodes && nodes'[0] in nodes';
      if nodes[0].participant != p {
        SameShownConvertsTheSame(nodes[1..], nodes'[1..], p, infos, i);
      } else {
        var (status, info) := NodeToSample(nodes[0], infos.buf[i]);
        assert NodeToSample(nodes'[0], infos.buf[i]) == (status, info);
        if status == Status.Converted {
          SameShownConvertsTheSame(nodes[1..], nodes'[1..], p, infos.(buf := infos.buf[i := info]), i + 1);
        }
      }
    }
  }

  lemma {:induction false} SameParticipantsGatherTheSame(ps: seq<Participant>, nodes: seq<Node>, nodes': seq<Node>)
    requires |nodes'| == |nodes| && forall k :: 0 <= k < |nodes| ==> nodes'[k].participant == nodes[k].participant
    ensures GatherFrom(ps, nodes') == GatherFrom(ps, nodes)
    decreases |nodes|
  {
    if nodes != [] {
      SameParticipantsGatherTheSame(AppendParticipant(ps, nodes[0].participant), nodes[1..], nodes'[1..]);
    }
  }

  /** Registries that publish the same for every participant and buffer. */
  ghost predicate PublishesTheSame(g: Registry.Graph, g': Registry.Graph) {
    && Gather(g'.nodes) == Gather(g.nodes)
    && forall p, s :: ConvertOrKeep(g', p, s) == ConvertOrKeep(g, p, s) && (Converts(g', p, s) <==> Converts(g, p, s))
  }

  lemma SameShownPublishesTheSame(g: Registry.Graph, g': Registry.Graph)
    requires GraphOk(g) && GraphOk(g') && SameShown(g.nodes, g'.nodes)
    ensures PublishesTheSame(g, g')
  {
    SameParticipantsGatherTheSame([], g.nodes, g'.nodes);
    ReachableConvertible(g);
    ReachableConvertible(g');
    forall p, s
      ensures ConvertOrKeep(g', p, s) == ConvertOrKeep(g, p, s) && (Converts(g', p, s) <==> Converts(g, p, s))
    {
      SameShownConvertsTheSame(g.nodes, g'.nodes, p, EnsureLength(s.nodes, g.nodesLen, EMPTY_INFO).value, 0);
    }
  }

  /** The operations that can change the registry without queueing an update. */
  predicate MayStayUnqueued(op: Op) {
    op.OpUnregisterNode? || op.OpInspectNode? || op.OpPoll?
  }

  /** An operation that queues nothing has changed nothing that is published,
      unless it unregisters a node, or its inspection failed half-way, or it is
      a poll of the update thread. */
  lemma UnqueuedOperationsPublishTheSame(g: Registry.Graph, op: Op)
    requires GraphOk(g) && !MayStayUnqueued(op) && Apply(g, op).tokens == g.tokens
    ensures PublishesTheSame(g, Apply(g, op))
  {
    ApplyKeepsOk(g, op);
    UnqueuedOperationsShowTheSame(g, op);
    SameShownPublishesTheSame(g, Apply(g, op));
  }

  lemma UnqueuedOperationsShowTheSame(g: Registry.Graph, op: Op)
    requires GraphOk(g) && !MayStayUnqueued(op) && Apply(g, op).tokens == g.tokens
    ensures SameShown(g.nodes, Apply(g, op).nodes)
  {
    if op.OpRegisterEndpoint? && ShapeForApi(op.kind, op.reader, op.writer) {
      var k := FindNode(g.nodes, op.node);
      if k.Some? {
        AddEndpointKeepsOk(g.nodes[k.value], op.kind, op.reader, op.writer, op.buffer);
      }
    }
  }

  /** The exceptions give no participant its first node, and a poll leaves the
      number of nodes and the gathered list as they were: what the transition
      system demands of changes that are not queued. */
  lemma UnqueuedOperationsAddNoParticipant(g: Registry.Graph, op: Op)
    requires GraphOk(g) && MayStayUnqueued(op)
    ensures forall poll :: NoNewParticipant(RegistryEnv(poll), g, Apply(g, op))
    ensures !op.OpUnregisterNode? ==> Gather(Apply(g, op).nodes) == Gather(g.nodes) && |Apply(g, op).nodes| == |g.nodes|
  {
    var g' := Apply(g, op);
    if op.OpUnregisterNode? {
      GatherMeaning(g.nodes);
      GatherMeaning(g'.nodes);
      var k := FindNode(g.nodes, op.node);
      if k.Some? {
        RemoveAtElements(g.nodes, k.value);
        assert forall n :: n in g'.nodes ==> n in g.nodes;
      }
    } else {
      InspectionsKeepIdentity(g, op);
      SameParticipantsGatherTheSame([], g.nodes, g'.nodes);
    }
  }

  /** A node registration that fails leaves every node and every counter but
      the next handle as they were; only the semaphore may have a token more,
      and only if the failure was in the inspection. */
  lemma FailedRegistrationRollsBack(g: Registry.Graph, name: Option<string>, ns: Option<string>,
                                    p: Option<Participant>, res: Resources, c: Contents)
    requires GraphOk(g) && RegisterNode(g, name, ns, p, res, c).0 < 0
    ensures var g' := RegisterNode(g, name, ns, p, res, c).1;
      && g' == g.(nodeHandleNext := g'.nodeHandleNext, tokens := g'.tokens)
      && PublishesTheSame(g, g')
      && (g'.tokens == g.tokens || (g'.tokens == g.tokens + 1 && g.polling))
  {
    RegisterNodeKeepsOk(g, name, ns, p, res, c);
    FailedRegistrationKeepsNodes(g, name, ns, p, res, c);
    SameShownPublishesTheSame(g, RegisterNode(g, name, ns, p, res, c).1);
  }

  lemma FailedRegistrationKeepsNodes(g: Registry.Graph, name: Option<string>, ns: Option<string>,
                                     p: Option<Participant>, res: Resources, c: Contents)
    requires Handles.CounterOk(g.nodeHandleNext) && RegisterNode(g, name, ns, p, res, c).0 < 0
    ensures var g' := RegisterNode(g, name, ns, p, res, c).1;
      && g' == g.(nodeHandleNext := g'.nodeHandleNext, tokens := g'.tokens)
      && (g'.tokens == g.tokens || (g'.tokens == g.tokens + 1 && g.polling))
  {
    if ValidNodeArguments(name, ns) && FindNodeByName(g.nodes, name.value, ns).None? {
      var (h, next) := Handles.Allocate(NodeHandles(g.nodes), g.nodeHandleNext, Handles.INT_MAX);
      assert h.Some? ==> h.value >= 0 by {
        Handles.AllocateMeaning(NodeHandles(g.nodes), g.nodeHandleNext, Handles.INT_MAX);
      }
      if h.Some? && res.nodeBuffer && res.nameDup && res.namespaceDup {
        var n := NewNode(h.value, name.value, ns, if p.Some? then p.value else g.graphParticipant);
        assert g.polling && Inspect(n, c, res.endpointBuffers).Failed?;
      }
    }
  }

  // ---- Runs that follow operations ----

  /** A registry without what is never published: the handle counters and the
      account of the tokens. Registries in protocol states are of this form. */
  function Norm(g: Registry.Graph): Registry.Graph {
    g.(nodes := NormNodes(g.nodes), nodeHandleNext := 0, tokens := 0)
  }

  function NormNodes(nodes: seq<Node>): (r: seq<Node>)
    ensures |r| == |nodes| && forall k :: 0 <= k < |nodes| ==> r[k] == nodes[k].(endpHandleNext := 0)
  {
    seq(|nodes|, k requires 0 <= k < |nodes| => nodes[k].(endpHandleNext := 0))
  }

  lemma NormPublishesTheSame(g: Registry.Graph)
    requires GraphOk(g)
    ensures GraphOk(Norm(g)) && PublishesTheSame(g, Norm(g))
  {
    forall k | 0 <= k < |g.nodes|
      ensures NodeOk(Norm(g).nodes[k])
    {
      assert NodeOk(g.nodes[k]);
    }
    SameShownPublishesTheSame(g, Norm(g));
  }

  type Sys = State<Registry.Graph, Participant, Sample>

  /** A path of the system together with the registry that it implements:
      ops[k] is the operation that step k completes, if it completes one, and
      graphs[k] the registry after the operations before it. */
  datatype Trace = Trace(states: seq<Sys>, labels: seq<Label<Registry.Graph>>,
                         graphs: seq<Registry.Graph>, ops: seq<Option<Op>>)
  {
    predicate Sized() { |states| == |graphs| == |labels| + 1 == |ops| + 1 }
    function Last(): Sys requires Sized() { states[|labels|] }
    function LastGraph(): Registry.Graph requires Sized() { graphs[|labels|] }
  }

  /** An operation is complete when its critical section ends. */
  predicate Completes(s: Sys, l: Label<Registry.Graph>) {
    l.ApiUnlock? || (l.Proceed? && s.pc == Polling(0))
  }

  /** The critical section in which an operation runs, at its end. */
  predicate IsSectionOf(op: Op, lock: Lock) {
    match op
    case OpRegisterNode(_, _, _, _, _) => lock.HeldByApi? && lock.call == RegisterNodeCall
    case OpUnregisterNode(_) => lock.HeldByApi? && lock.call == UnregisterNodeCall
    case OpInspectNode(_, _, _) => lock.HeldByApi? && lock.call == InspectCall
    case OpPoll(_, _) => lock.HeldByUpdater?
    case _ => lock.HeldByApi? && lock.call == EndpointCall
  }

  /** An operation that queues an update, whether or not it succeeds. */
  predicate Queues(g: Registry.Graph, op: Op) {
    Apply(g, op).tokens > g.tokens
  }

  /** The section has queued an update exactly if the operation does. */
  predicate QueuesAs(lock: Lock, queued: bool) {
    if lock.HeldByApi? then HasQueued(lock.point) <==> queued else !queued
  }

  ghost predicate FollowsAt(t: Trace, k: nat)
    requires t.Sized() && k < |t.labels|
  {
    match t.ops[k]
    case None => !Completes(t.states[k], t.labels[k]) && t.graphs[k + 1] == t.graphs[k]
    case Some(op) =>
      && Completes(t.states[k], t.labels[k]) && t.graphs[k + 1] == Apply(t.graphs[k], op)
      && IsSectionOf(op, t.states[k].lock)
      && QueuesAs(t.states[k].lock, Queues(t.graphs[k], op))
      && t.states[k + 1].Wf() && t.states[k + 1].Current() == Norm(t.graphs[k + 1])
  }

  ghost predicate Follows(t: Trace) {
    t.Sized() && forall k :: 0 <= k < |t.labels| ==> FollowsAt(t, k)
  }

  /** A run of the system in which operations are carried out from the start on. */
  ghost predicate IsOperationRun(t: Trace, graphParticipant: Participant, poll: bool) {
    && IsRun(RegistryEnv(poll), t.states, t.labels) && Follows(t)
    && t.graphs[0] == Empty(graphParticipant, poll) && t.states[0].Current() == Norm(t.graphs[0])
  }

  /** Outside critical sections the system's registry is the one that the
      operations have built, and it is what an API call has found. */
  ghost predicate Tracks(s: Sys, g: Registry.Graph) {
    s.Wf() && (!s.pc.Polling? ==> s.hist[s.Base()] == Norm(g))
  }

  lemma TracksStep(poll: bool, t: Trace, k: nat)
    requires Follows(t) && k < |t.labels| && StepAt(RegistryEnv(poll), t.states, t.labels, k)
    requires Tracks(t.states[k], t.graphs[k]) && LockInv(t.states[k])
    ensures Tracks(t.states[k + 1], t.graphs[k + 1])
  {
    hide Norm, Apply, Queues, IsSectionOf, QueuesAs;
    var env, s, l, s' := RegistryEnv(poll), t.states[k], t.labels[k], t.states[k + 1];
    assert FollowsAt(t, k);
    if ApiStep(env, s, l, s') {
    } else if FinalizerStep(s, l, s') {
    } else if ControlStep(env, s, l, s') {
    } else if TakeMutexStep(env, s, l, s') {
    } else if GiveMutexStep(s, l, s') {
    } else if WorkStep(env, s, l, s') {
    } else {
    }
  }

  lemma {:induction false} OperationRunTracks(t: Trace, graphParticipant: Participant, poll: bool, k: nat)
    requires IsOperationRun(t, graphParticipant, poll) && k < |t.states|
    ensures Tracks(t.states[k], t.graphs[k]) && GraphOk(t.graphs[k])
  {
    if k > 0 {
      OperationRunTracks(t, graphParticipant, poll, k - 1);
      assert StepAt(RegistryEnv(poll), t.states, t.labels, k - 1) && FollowsAt(t, k - 1);
      RunInvariants(RegistryEnv(poll), t.states, t.labels, k - 1);
      TracksStep(poll, t, k - 1);
      if t.ops[k - 1].Some? {
        ApplyKeepsOk(t.graphs[k - 1], t.ops[k - 1].value);
      }
    }
  }

  /** The operations that were completed, in order. */
  function Performed(ops: seq<Option<Op>>): seq<Op> {
    if ops == [] then []
    else Performed(ops[..|ops| - 1]) + (if ops[|ops| - 1].Some? then [ops[|ops| - 1].value] else [])
  }

  /** The registry of an operation run is the one that a run of the completed
      operations builds from the empty registry. */
  lemma {:induction false} OperationRunBuilds(t: Trace, graphParticipant: Participant, poll: bool, k: nat)
    requires IsOperationRun(t, graphParticipant, poll) && k < |t.states|
    ensures t.graphs[k] == Run(Empty(graphParticipant, poll), Performed(t.ops[..k]))
  {
    hide IsRun, Apply, Norm, Completes, IsSectionOf, QueuesAs;
    if k > 0 {
      OperationRunBuilds(t, graphParticipant, poll, k - 1);
      assert FollowsAt(t, k - 1);
      assert t.ops[..k][..k - 1] == t.ops[..k - 1];
      if t.ops[k - 1].Some? {
        var before, op := Performed(t.ops[..k - 1]), t.ops[k - 1].value;
        assert (before + [op])[..|before|] == before;
      } else {
        assert Performed(t.ops[..k]) == Performed(t.ops[..k - 1]);
      }
    }
  }

  // ---- What an attached endpoint stops ----

  /** No conversion of a registry succeeds for the participant of a node that
      has had an attach step. */
  lemma AttachedDoesNotConvert(g: Registry.Graph, handle: int, p: Participant)
    requires GraphOk(g) && AttachDrift.Drifted(g, handle, p)
    ensures forall buffer :: !Converts(Norm(g), p, buffer)
  {
    NormPublishesTheSame(g);
    forall buffer
      ensures !Converts(g, p, buffer)
    {
      assert Run(g, []) == g;
      AttachDrift.AttachStopsConversion(g, [], handle, p, buffer);
    }
  }

  lemma {:induction false} DriftLastsAlongTrace(
      t: Trace, graphParticipant: Participant, poll: bool, a: nat, k: nat, handle: int, p: Participant)
    requires IsOperationRun(t, graphParticipant, poll) && a <= k <= |t.labels|
    requires AttachDrift.Drifted(t.graphs[a], handle, p)
    requires forall j :: a <= j < k ==> t.ops[j] != Some(OpUnregisterNode(handle))
    ensures AttachDrift.Drifted(t.graphs[k], handle, p)
    decreases k - a
  {
    hide AttachDrift.Drifted, GraphOk, Apply, Norm, IsRun;
    if a < k {
      DriftLastsAlongTrace(t, graphParticipant, poll, a, k - 1, handle, p);
      assert FollowsAt(t, k - 1);
      if t.ops[k - 1].Some? {
        OperationRunTracks(t, graphParticipant, poll, k - 1);
        AttachDrift.ApplyKeepsDrift(t.graphs[k - 1], t.ops[k - 1].value, handle, p);
      }
    }
  }

  /** As long as a node of p that has had an attach step stays registered, no
      conversion of the thread succeeds for p. */
  lemma AttachedFailsToConvert(
      t: Trace, graphParticipant: Participant, poll: bool, a: nat, k: nat, handle: int, p: Participant)
    requires IsOperationRun(t, graphParticipant, poll) && a <= k <= |t.labels| && t.states[k].pc.Converting?
    requires AttachDrift.Drifted(t.graphs[a], handle, p)
    requires forall j :: a <= j < k ==> t.ops[j] != Some(OpUnregisterNode(handle))
    ensures t.states[k].Wf() && forall buffer :: !RegistryEnv(poll).ok(t.states[k].Current(), p, buffer)
  {
    hide Norm, GraphOk;
    OperationRunTracks(t, graphParticipant, poll, k);
    RunInvariants(RegistryEnv(poll), t.states, t.labels, k);
    DriftLastsAlongTrace(t, graphParticipant, poll, a, k, handle, p);
    AttachedDoesNotConvert(t.graphs[k], handle, p);
  }

  /** In every run, once a node of p has had an attach step and until that node
      is unregistered, at most one sample is published for p: the one that the
      thread had already converted, if any. And from any point at which the
      current cycle has not converted p, nothing is published for anyone behind
      p on a gathered list either: the failed conversion gives up the cycle. */
  lemma AttachedParticipantIsNotPublished(
      t: Trace, graphParticipant: Participant, poll: bool, a: nat, b: nat, handle: int, p: Participant)
    requires IsOperationRun(t, graphParticipant, poll) && a <= b <= |t.labels|
    requires AttachDrift.Drifted(t.graphs[a], handle, p)
    requires forall j :: a <= j < b ==> t.ops[j] != Some(OpUnregisterNode(handle))
    ensures |t.states[a].log| <= |t.states[b].log|
    ensures forall i :: |t.states[a].log| <= i < |t.states[b].log| && t.states[b].log[i].p == p ==>
      i == |t.states[a].log| && InHand(t.states[a], p) && t.states[b].log[i].pub == t.states[a].pinfo
    ensures forall m, k :: a <= m <= k < b && NotPast(t.states[m], p) ==>
      PublishesOnlyBefore(t.states[k], t.states[k + 1], p)
  {
    hide Norm, GraphOk, IsRun, NotPast, PublishesOnlyBefore;
    var env := RegistryEnv(poll);
    assert IsRun(env, t.states, t.labels);
    forall k | a <= k < b && t.states[k].pc.Converting?
      ensures t.states[k].Wf() && forall buffer :: !env.ok(t.states[k].Current(), p, buffer)
    {
      AttachedFailsToConvert(t, graphParticipant, poll, a, k, handle, p);
    }
    OnlyTheSampleInHandIsPublished(env, t.states, t.labels, a, b, p);
    forall m | a <= m < b && NotPast(t.states[m], p)
      ensures forall k :: m <= k < b ==> PublishesOnlyBefore(t.states[k], t.states[k + 1], p)
    {
      FailingParticipantIsNotPublished(env, t.states, t.labels, m, b, p);
    }
  }
}
