/** Runs from the empty registry in which the code departs from what it seems to
    intend, and what holds of all runs in the same place. */
module Departures {
  import opened AttachDrift
  import opened Common
  import opened HandleRuns
  import opened Inspection
  import opened Naming
  import opened NoLostUpdate
  import opened OperationPaths
  import opened PublishedRegistry
  import opened Registry
  import opened RegistryInvariants
  import opened Snapshot
  import opened UpdateProtocol
  import Handles

  // ---- A stale sample ----

  /** Two nodes of p. */
  function TwoRegistrations(p: Participant): seq<Op> {
    var res, nothing := Resources(true, true, true, 0), Contents(Some([]), Some([]));
    [OpRegisterNode(Some("a"), None, Some(p), res, nothing), OpRegisterNode(Some("b"), None, Some(p), res, nothing)]
  }

  lemma TwoNodes(graphParticipant: Participant, p: Participant)
    ensures Run(Empty(graphParticipant, false), TwoRegistrations(p)) ==
      Registry.Graph([NewNode(0, "a", None, p), NewNode(1, "b", None, p)], 2, 2, 2, graphParticipant, false)
  {
    var ops, g := TwoRegistrations(p), Empty(graphParticipant, false);
    assert ops[..1] == [ops[0]] && ops[..1][..0] == [];
    assert Run(g, []) == g && Run(g, ops[..1]) == Apply(Run(g, []), ops[0]);
    Handles.AllocateFirstProbe(NodeHandles([]), 0);
    var a := NewNode(0, "a", None, p);
    var g1 := Registry.Graph([a], 1, 1, 1, graphParticipant, false);
    assert Apply(g, ops[0]) == g1;
    assert !NameMatches(a, "b", None) by {
      assert "a"[0] == 'a' && "b"[0] == 'b';
    }
    assert FindNodeByName([a], "b", None).None?;
    Handles.AllocateFirstProbe(NodeHandles([a]), 1);
    assert Apply(g1, ops[1]).nodes == [a, NewNode(1, "b", None, p)];
  }

  lemma NodesOfBoth(p: Participant, nodes: seq<Node>)
    requires forall n :: n in nodes ==> n.participant == p && n.endpoints == [] && n.writersLen == 0 && n.attaches == 0
    ensures NodesOf(nodes, p) == nodes && Verdict(NodesOf(nodes, p)) == Status.Converted
    ensures nodes != [] ==> Gather(nodes) == [p]
  {
    forall n | n in nodes
      ensures OfParticipant(p)(n)
    {}
    FilterAll(nodes, OfParticipant(p));
    VerdictMeaning(nodes);
    if nodes != [] {
      assert nodes[0] in nodes && AppendParticipant([], p) == [p];
      GatherSame(nodes[1..], p);
    }
  }

  lemma {:induction false} GatherSame(nodes: seq<Node>, p: Participant)
    requires forall n :: n in nodes ==> n.participant == p
    ensures GatherFrom([p], nodes) == [p]
    decreases |nodes|
  {
    if nodes != [] {
      GatherSame(nodes[1..], p);
    }
  }

  /** The conversion of a registry with just those two nodes. */
  lemma BothConvert(g: Registry.Graph, p: Participant, buffer: Sample)
    requires GraphOk(g) && |g.nodes| == 2
    requires forall n :: n in g.nodes ==>
      n.participant == p && n.endpoints == [] && n.writersLen == 0 && n.attaches == 0
    ensures Gather(g.nodes) == [p] && Converts(g, p, buffer) && ConvertOrKeep(g, p, buffer).nodes.len == 2
  {
    hide GraphOk;
    ReachableConvertible(g);
    NodesOfBoth(p, g.nodes);
    ConvertMeaning(g, p, buffer);
  }

  function StaleRun(p: Participant): seq<Op> {
    TwoRegistrations(p) + [OpUnregisterNode(0)]
  }

  lemma StaleRunEnds(graphParticipant: Participant, p: Participant)
    ensures var g := Run(Empty(graphParticipant, false), StaleRun(p));
      && g == Apply(Run(Empty(graphParticipant, false), TwoRegistrations(p)), OpUnregisterNode(0))
      && |NodesOf(g.nodes, p)| == |NodesOf(Norm(g).nodes, p)| == 1
  {
    TwoNodes(graphParticipant, p);
    var g0 := Empty(graphParticipant, false);
    var g2, g := Run(g0, TwoRegistrations(p)), Run(g0, StaleRun(p));
    assert StaleRun(p)[..2] == TwoRegistrations(p);
    assert FindNode(g2.nodes, 0) == Some(0);
    assert g.nodes == [NewNode(1, "b", None, p)];
    NodesOfBoth(p, g.nodes);
    NodesOfBoth(p, Norm(g).nodes);
  }

  lemma BothInState(graphParticipant: Participant, p: Participant, buffer: Sample)
    ensures var g := Run(Empty(graphParticipant, false), TwoRegistrations(p));
      && g.tokens == 2 && Gather(Norm(g).nodes) == [p]
      && Converts(Norm(g), p, buffer) && ConvertOrKeep(Norm(g), p, buffer).nodes.len == 2
  {
    var g := Run(Empty(graphParticipant, false), TwoRegistrations(p));
    TwoNodes(graphParticipant, p);
    ReachableOk(graphParticipant, false, TwoRegistrations(p));
    NormPublishesTheSame(g);
    BothConvert(Norm(g), p, buffer);
  }

  lemma StaleStateIsReachable(graphParticipant: Participant, p: Participant) returns (s: Sys)
    ensures var g := Empty(graphParticipant, false);
      Leads(false, InitialState(g), g, s, Run(g, StaleRun(p)))
    ensures AtRest(s) && s.Wf() && p in s.last && s.last[p].sample.nodes.len == 2
  {
    hide Leads, GraphOk, Norm, Run, Apply;
    var g0 := Empty(graphParticipant, false);
    var s0, g2 := InitialState(g0), Run(g0, TwoRegistrations(p));
    BothInState(graphParticipant, p, NO_SAMPLE.sample);
    var s3 := PublishesRun(graphParticipant, p, TwoRegistrations(p));
    StaleRunEnds(graphParticipant, p);
    SilentTokens(g2, OpUnregisterNode(0));
    s := EveryOperationIsRealised(false, s3, g2, OpUnregisterNode(0));
    LeadsTransitive(false, s0, g0, s3, g2, s, Run(g0, StaleRun(p)));
  }

  /** Not every change is published. From an empty registry without polling:
      register two nodes of p, let the thread publish both, and unregister the
      first, which queues nothing. The system is at rest, p still has a node,
      its last sample still shows two, and the thread has no step to take until
      some other call queues an update. */
  lemma StaleSampleIsReachable(graphParticipant: Participant, p: Participant) returns (t: Trace)
    ensures IsOperationRun(t, graphParticipant, false) && AtRest(t.Last()) && t.Last().Wf()
    ensures t.LastGraph() == Run(Empty(graphParticipant, false), StaleRun(p))
    ensures p in t.Last().last && t.Last().last[p].sample.nodes.len == 2
    ensures |NodesOf(t.LastGraph().nodes, p)| == |NodesOf(t.Last().Current().nodes, p)| == 1
    ensures forall l, s' :: !UpdaterStep(RegistryEnv(false), t.Last(), l, s')
  {
    hide GraphOk, Norm, Run;
    var s := StaleStateIsReachable(graphParticipant, p);
    t := RunFromLead(graphParticipant, s, Run(Empty(graphParticipant, false), StaleRun(p)));
    StaleRunEnds(graphParticipant, p);
    OperationRunTracks(t, graphParticipant, false, |t.labels|);
  }

  // ---- A reader whose GID is not published ----

  const SOME_KEY: KeyHash := [1, 0, 0, 0, 0, 0, 0, 0, 0, 0, 0, 0, 0, 0, 0, 0]

  lemma ReplyTopic()
    ensures DetectEndpointType("rr/a", true) == Service
  {
    var topic: string := "rr/a";
    assert topic[0] == 'r' && topic[1] == 'r' && topic[2] == '/';
    assert topic[..3] == TOPIC_PREFIX_RESPONSE;
    assert TOPIC_PREFIX_DEFAULT[1] == 't';
  }

  function RequestReader(): Reader {
    Reader(0, "rq/a", SOME_KEY)
  }

  function ReplyWriter(p: Participant, id: nat): Writer {
    Writer(id, "rr/a", p.ih)
  }

  function RegisterA(p: Participant): Op {
    OpRegisterNode(Some("a"), None, Some(p), Resources(true, true, true, 0), NOTHING)
  }

  function RegisterService(p: Participant, id: nat): Op {
    OpRegisterEndpoint(0, Service, Some(RequestReader()), Some(ReplyWriter(p, id)), true)
  }

  function ServiceEndpoint(p: Participant, id: nat): Endpoint {
    Endpoint(id, Service, Some(RequestReader()), Some(ReplyWriter(p, id)))
  }

  /** The registry with node a and services 0 .. n - 1 on one request reader. */
  function Services(graphParticipant: Participant, p: Participant, n: nat): Registry.Graph {
    var es := seq(n, id requires 0 <= id => ServiceEndpoint(p, id));
    Registry.Graph([Node(0, "a", ROOT_NAMESPACE, p, es, n, n, n, n, 0)], 1, 1, n + 1, graphParticipant, false)
  }

  lemma FirstNode(graphParticipant: Participant, p: Participant)
    ensures Apply(Empty(graphParticipant, false), RegisterA(p)) == Services(graphParticipant, p, 0)
  {
    Handles.AllocateFirstProbe(NodeHandles([]), 0);
  }

  lemma NextService(graphParticipant: Participant, p: Participant, n: nat)
    requires n < Handles.INT_MAX
    ensures Apply(Services(graphParticipant, p, n), RegisterService(p, n)) == Services(graphParticipant, p, n + 1)
  {
    var node := Services(graphParticipant, p, n).nodes[0];
    RequestTopic();
    ReplyTopic();
    assert forall i :: 0 <= i < n ==> !EntitiesMatch(node.endpoints[i], Some(RequestReader()), Some(ReplyWriter(p, n)));
    assert forall h :: h in EndpointHandles(node.endpoints) ==> h < n;
    Handles.AllocateFirstProbe(EndpointHandles(node.endpoints), n);
    assert node.endpoints + [ServiceEndpoint(p, n)] == Services(graphParticipant, p, n + 1).nodes[0].endpoints;
    assert FindNode([node], 0) == Some(0);
  }

  function ServicesRun(p: Participant, n: nat): seq<Op> {
    if n == 0 then [RegisterA(p)] else ServicesRun(p, n - 1) + [RegisterService(p, n - 1)]
  }

  lemma {:induction false} ServicesRunEnds(graphParticipant: Participant, p: Participant, n: nat)
    requires n <= Handles.INT_MAX
    ensures Run(Empty(graphParticipant, false), ServicesRun(p, n)) == Services(graphParticipant, p, n)
    ensures forall op :: op in ServicesRun(p, n) ==> !op.OpPoll?
  {
    hide Apply, Services;
    var g := Empty(graphParticipant, false);
    if n == 0 {
      FirstNode(graphParticipant, p);
      assert [RegisterA(p)][..0] == [] && Run(g, []) == g;
    } else {
      ServicesRunEnds(graphParticipant, p, n - 1);
      NextService(graphParticipant, p, n - 1);
      assert ServicesRun(p, n)[..|ServicesRun(p, n - 1)|] == ServicesRun(p, n - 1);
    }
  }

  /** The check that entities are not in use lets any number of services of one
      node have the same request reader. */
  lemma OneReaderManyServices(graphParticipant: Participant, p: Participant, n: nat)
    requires n <= Handles.INT_MAX
    ensures var g := Run(Empty(graphParticipant, false), ServicesRun(p, n));
      && GraphOk(g) && |g.nodes| == 1 && |g.nodes[0].endpoints| == n
      && forall i :: 0 <= i < n ==> g.nodes[0].endpoints[i] == ServiceEndpoint(p, i)
  {
    ServicesRunEnds(graphParticipant, p, n);
    ReachableOk(graphParticipant, false, ServicesRun(p, n));
  }

  lemma ServiceConverts(graphParticipant: Participant, p: Participant, buffer: Sample)
    requires buffer.nodes.buf == []
    ensures var g := Norm(Services(graphParticipant, p, 1));
      && Gather(g.nodes) == [p] && Converts(g, p, buffer)
      && var c := ConvertOrKeep(g, p, buffer);
        c.nodes.len == 1 <= |c.nodes.buf| && VisibleReaders(c.nodes.buf[0]) == [ZERO_GID]
  {
    var g0 := Services(graphParticipant, p, 1);
    var g, n := Norm(g0), Norm(g0).nodes[0];
    ServicesRunEnds(graphParticipant, p, 1);
    ReachableOk(graphParticipant, false, ServicesRun(p, 1));
    NormPublishesTheSame(g0);
    ReachableConvertible(g);
    hide GraphOk, Convert;
    assert g.nodes == [n] && n.endpoints == [ServiceEndpoint(p, 0)];
    OnlyNodeListed(n, p);
    ConvertMeaning(g, p, buffer);
    OneServiceEndpoint(p);
    assert Describes(ConvertOrKeep(g, p, buffer).nodes.buf[0], n, EMPTY_INFO);
  }

  lemma OnlyNodeListed(n: Node, p: Participant)
    requires n.participant == p && n.endpoints == [ServiceEndpoint(p, 0)] && n.writersLen == 1
    ensures NodesOf([n], p) == [n] && Verdict([n]) == Status.Converted && Gather([n]) == [p]
  {
    assert OfParticipant(p)(n) && [n][1..] == [];
    assert Count(n.endpoints, HasWriter) == 1;
    assert AppendParticipant([], p) == [p] && GatherFrom([p], [n][1..]) == [p];
  }

  lemma OneServiceEndpoint(p: Participant)
    ensures var es := [ServiceEndpoint(p, 0)];
      && Count(es, HasReader) == 1 && ReaderSlot(es, 0, ZERO_GID) == ZERO_GID
      && ReaderGids(es) == [IhToGid(SOME_KEY)] && IhToGid(SOME_KEY) != ZERO_GID
  {
    var e := ServiceEndpoint(p, 0);
    assert HasReader(e) && [e][1..] == [];
    assert Filter([e], HasReader) == [e];
    assert IhToGid(SOME_KEY)[0] == 1 && ZERO_GID[0] == 0;
  }

  /** A node with one service is registered and published, nothing fails and
      nothing is left to be published: what every subscriber sees in the place of
      the service's request reader is a GID of zeros. */
  lemma ReaderIsNotPublished(graphParticipant: Participant, p: Participant) returns (t: Trace)
    ensures IsOperationRun(t, graphParticipant, false) && AtRest(t.Last()) && !t.Last().missed
    ensures t.LastGraph() == Services(graphParticipant, p, 1)
    ensures ReaderGids(t.LastGraph().nodes[0].endpoints) == [IhToGid(SOME_KEY)] && IhToGid(SOME_KEY) != ZERO_GID
    ensures p in t.Last().last
    ensures var sample := t.Last().last[p].sample;
      sample.nodes.len == 1 <= |sample.nodes.buf| && VisibleReaders(sample.nodes.buf[0]) == [ZERO_GID]
  {
    hide GraphOk, Norm, Run, Converts, ConvertOrKeep, VisibleReaders;
    ServicesRunEnds(graphParticipant, p, 1);
    ServiceConverts(graphParticipant, p, NO_SAMPLE.sample);
    OneServiceEndpoint(p);
    var s := PublishesRun(graphParticipant, p, ServicesRun(p, 1));
    t := RunFromLead(graphParticipant, s, Services(graphParticipant, p, 1));
    assert t.LastGraph().nodes[0].endpoints == [ServiceEndpoint(p, 0)];
  }

  // ---- Nodes that share a participant ----

  /** After a poll every node whose inspection succeeded has an endpoint for every
      ROS-named entity of its participant, and so have all nodes that share it. */
  lemma SharingNodesGetTheSameEntities(g: Registry.Graph, view: Participant -> Contents, budget: nat -> nat,
                                       j: nat, k: nat)
    requires GraphOk(g) && j < |g.nodes| && k < |g.nodes| && g.nodes[j].participant == g.nodes[k].participant
    requires Inspect(g.nodes[j], view(g.nodes[j].participant), budget(j)).Running?
    requires Inspect(g.nodes[k], view(g.nodes[k].participant), budget(k)).Running?
    ensures var nodes', c := Apply(g, OpPoll(view, budget)).nodes, view(g.nodes[j].participant);
      && CoversWriters(nodes'[j].endpoints, Events(c.publishers))
      && CoversWriters(nodes'[k].endpoints, Events(c.publishers))
      && CoversReaders(nodes'[j].endpoints, Events(c.subscribers))
      && CoversReaders(nodes'[k].endpoints, Events(c.subscribers))
  {
    hide GraphOk, Inspect, CoversWriters, CoversReaders;
    GraphNodeOk(g, j);
    GraphNodeOk(g, k);
    InspectionCoversAndIsIdempotent(g.nodes[j], view(g.nodes[j].participant), budget(j), 0);
    InspectionCoversAndIsIdempotent(g.nodes[k], view(g.nodes[k].participant), budget(k), 0);
  }

  const ONE_READER := Contents(Some([]), Some([Some([RequestReader()])]))

  function SharedRun(p: Participant): seq<Op> {
    TwoRegistrations(p) + [OpInspectNode(0, ONE_READER, 1), OpInspectNode(1, ONE_READER, 1)]
  }

  lemma InspectFresh(n: Node)
    requires NodeOk(n) && n.endpoints == []
    ensures var outcome := Inspect(n, ONE_READER, 1);
      outcome.Running? && HasReaderIn(OutcomeNode(outcome).endpoints, RequestReader())
  {
    OneEvent(RequestReader());
    RequestTopic();
    var events := [Some(RequestReader())];
    assert Events(ONE_READER.publishers) == [] && Events(ONE_READER.subscribers) == events;
    NewReadersMeaning([], events);
    NewReadersSize([], events);
    FreshInspectionIsExact(n, ONE_READER, 1);
    InspectionCoversAndIsIdempotent(n, ONE_READER, 1, 0);
    assert events[0] == Some(RequestReader()) && RosReader(RequestReader());
  }

  lemma InspectListed(g: Registry.Graph, k: nat, buffers: nat)
    requires GraphOk(g) && k < |g.nodes|
    ensures Apply(g, OpInspectNode(g.nodes[k].handle, ONE_READER, buffers)).nodes ==
      g.nodes[k := OutcomeNode(Inspect(g.nodes[k], ONE_READER, buffers))]
  {
    hide GraphOk, Inspect;
    GraphNodeOk(g, k);
  }

  lemma SharedRunEnds(graphParticipant: Participant, p: Participant)
    ensures var g0 := Empty(graphParticipant, false);
      Run(g0, SharedRun(p)) == Apply(Apply(Run(g0, TwoRegistrations(p)), SharedRun(p)[2]), SharedRun(p)[3])
  {
    hide Apply;
    var ops := SharedRun(p);
    assert ops[..3][..2] == TwoRegistrations(p) && ops[..3] + [ops[3]] == ops;
  }

  /** Two nodes of one participant are inspected one after the other: both end up
      with its reader, not just the first. */
  lemma SharedParticipantIsListedTwice(graphParticipant: Participant, p: Participant)
    ensures var g := Run(Empty(graphParticipant, false), SharedRun(p));
      && |g.nodes| == 2 && g.nodes[0].participant == g.nodes[1].participant == p
      && HasReaderIn(g.nodes[0].endpoints, RequestReader()) && HasReaderIn(g.nodes[1].endpoints, RequestReader())
  {
    hide Inspect, Run, Apply, GraphOk, HasReaderIn;
    var g2 := Run(Empty(graphParticipant, false), TwoRegistrations(p));
    TwoNodes(graphParticipant, p);
    SharedRunEnds(graphParticipant, p);
    ReachableOk(graphParticipant, false, TwoRegistrations(p));
    GraphNodeOk(g2, 0);
    GraphNodeOk(g2, 1);
    InspectFresh(g2.nodes[0]);
    InspectFresh(g2.nodes[1]);
    InspectKeepsOk(g2.nodes[0], ONE_READER, 1);
    InspectKeepsOk(g2.nodes[1], ONE_READER, 1);
    InspectListed(g2, 0, 1);
    ApplyKeepsOk(g2, SharedRun(p)[2]);
    InspectListed(Apply(g2, SharedRun(p)[2]), 1, 1);
  }

  // ---- A handle that is issued again ----

  /** n times, node a is registered and unregistered. */
  function Rounds(p: Participant, n: nat): seq<Op> {
    if n == 0 then [] else Rounds(p, n - 1) + [RegisterA(p), OpUnregisterNode(n - 1)]
  }

  function AfterRounds(graphParticipant: Participant, n: nat): Registry.Graph {
    Registry.Graph([], 0, if n > Handles.INT_MAX then Handles.INT_MIN else n, n, graphParticipant, false)
  }

  lemma OneRound(graphParticipant: Participant, p: Participant, n: nat)
    requires n <= Handles.INT_MAX
    ensures var g := AfterRounds(graphParticipant, n);
      && IssuedBy(g, RegisterA(p)) == Some(n)
      && Apply(Apply(g, RegisterA(p)), OpUnregisterNode(n)) == AfterRounds(graphParticipant, n + 1)
      && NodeOpSteps(g, RegisterA(p)) == [Issue]
      && NodeOpSteps(Apply(g, RegisterA(p)), OpUnregisterNode(n)) == [Retire(n)]
  {
    var g := AfterRounds(graphParticipant, n);
    Handles.AllocateFirstProbe(NodeHandles([]), n);
    var g1 := Apply(g, RegisterA(p));
    assert g1.nodes == [NewNode(n, "a", None, p)];
    assert FindNode(g1.nodes, n) == Some(0);
  }

  lemma RunOfTwoMore(g: Registry.Graph, ops: seq<Op>, a: Op, b: Op)
    ensures Run(g, ops + [a, b]) == Apply(Apply(Run(g, ops), a), b)
    ensures NodeSteps(g, ops + [a, b]) ==
      NodeSteps(g, ops) + NodeOpSteps(Run(g, ops), a) + NodeOpSteps(Apply(Run(g, ops), a), b)
  {
    var all := ops + [a, b];
    assert all[..|all| - 1] == ops + [a] && (ops + [a])[..|ops|] == ops;
    assert Run(g, ops + [a]) == Apply(Run(g, ops), a);
    assert NodeSteps(g, ops + [a]) == NodeSteps(g, ops) + NodeOpSteps(Run(g, ops), a);
  }

  lemma {:induction false} RoundsEnd(graphParticipant: Participant, p: Participant, n: nat)
    requires n <= Handles.INT_MAX + 1
    ensures |Rounds(p, n)| == 2 * n && (n > 0 ==> Rounds(p, n)[0] == RegisterA(p))
    ensures Run(Empty(graphParticipant, false), Rounds(p, n)) == AfterRounds(graphParticipant, n)
    ensures Searches(NodeSteps(Empty(graphParticipant, false), Rounds(p, n))) == n
  {
    hide Apply, NodeOpSteps, NodeSteps, IssuedBy;
    var g := Empty(graphParticipant, false);
    if n == 0 {
      NoNodeSteps(g);
    } else {
      RoundsEnd(graphParticipant, p, n - 1);
      OneRound(graphParticipant, p, n - 1);
      RunOfTwoMore(g, Rounds(p, n - 1), RegisterA(p), OpUnregisterNode(n - 1));
      SearchesConcat(NodeSteps(g, Rounds(p, n - 1)) + [Issue], [Retire(n - 1)]);
      SearchesConcat(NodeSteps(g, Rounds(p, n - 1)), [Issue]);
      SearchesSnoc([Issue]);
      SearchesSnoc([Retire(n - 1)]);
    }
  }

  lemma NoNodeSteps(g: Registry.Graph)
    ensures Searches(NodeSteps(g, [])) == 0 && Run(g, []) == g
  {}

  /** The bound on the search for node handles is sharp: after INT_MAX + 1
      searches the counter has wrapped, and the handle of the first node, which
      was unregistered long ago, is issued again. */
  lemma NodeHandleIsIssuedAgain(graphParticipant: Participant, p: Participant)
    ensures var g, rounds := Empty(graphParticipant, false), Rounds(p, Handles.INT_MAX + 1);
      var ops := rounds + [RegisterA(p)];
      && Searches(NodeSteps(g, rounds)) == Handles.INT_MAX + 1
      && IssuedAt(g, ops, 0) == Some(0) && IssuedAt(g, ops, |rounds|) == Some(0)
  {
    hide Apply, NodeSteps;
    var g, rounds := Empty(graphParticipant, false), Rounds(p, Handles.INT_MAX + 1);
    RoundsEnd(graphParticipant, p, Handles.INT_MAX + 1);
    OneRound(graphParticipant, p, 0);
    assert AfterRounds(graphParticipant, 0) == g;
    var ops := rounds + [RegisterA(p)];
    assert ops[..|rounds|] == rounds && ops[..0] == [] && ops[0] == RegisterA(p);
    IssuedAfterWrap(graphParticipant, p);
  }

  lemma IssuedAfterWrap(graphParticipant: Participant, p: Participant)
    ensures IssuedBy(AfterRounds(graphParticipant, Handles.INT_MAX + 1), RegisterA(p)) == Some(0)
  {
    WrapReissues(Allocator(NodeHandles([]), Handles.INT_MIN));
  }
}
