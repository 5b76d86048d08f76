/** The attach step of an inspection: exactly when it happens, that it can
    happen, and what one of them does to the rest of a run. It leaves the writer
    count of its node behind for good, so that the conversion for the node's
    participant returns an error or stores a GID through NULL until the node is
    unregistered. */
module AttachDrift {
  import opened Common
  import opened Naming
  import opened Inspection
  import opened Registry
  import opened RegistryInvariants
  import opened Snapshot
  import Handles

  // ---- When an inspection attaches ----

  /** A request or reply writer that no endpoint has, while the endpoint that
      the lookup by topic returns has no writer. */
  predicate Attachable(es: seq<Endpoint>, w: Writer) {
    OnReader(es, w) && !HasWriterIn(es, w) && es[FindByTopic(es, w.topic, false).value].writer.None?
  }

  /** The writer scan reaches event k, and finds it attachable. */
  ghost predicate AttachesAt(n: Node, buffers: nat, events: seq<Option<Writer>>, k: nat) {
    && k < |events| && ScanWriters(Scan(n, false, buffers), events[..k]).Running?
    && events[k].Some? && Attachable(n.endpoints, events[k].value)
  }

  /** A scan that has attached nothing yet has met no writer to attach. */
  lemma NothingAttached(n: Node, buffers: nat, news: seq<Writer>, s: Scan, w: Writer)
    requires WriterScan(n, buffers, news, s) && s.node.attaches == n.attaches
    ensures Attachable(n.endpoints, w) <==>
      IsNewWriter(n.endpoints, news, w) && OnReader(n.endpoints, w) && !Occupied(n.endpoints, news, w)
  {
    FilterWhole(news, OwnEndpoint(n.endpoints));
    forall v | v in news
      ensures v.topic == w.topic ==> !OnReader(n.endpoints, w)
    {
      assert OwnEndpoint(n.endpoints)(v);
    }
  }

  /** One event of a running scan. */
  lemma EventAttachesIff(n: Node, buffers: nat, before: seq<Option<Writer>>, event: Option<Writer>)
    requires NodeOk(n) && ScanWriters(Scan(n, false, buffers), before).Running?
    requires ScanWriters(Scan(n, false, buffers), before).scan.node.attaches == n.attaches
    ensures OutcomeNode(ScanWriters(Scan(n, false, buffers), before + [event])).attaches > n.attaches
       <==> event.Some? && Attachable(n.endpoints, event.value)
  {
    ScanWritersSnoc(Scan(n, false, buffers), before, event);
    if event.Some? {
      WritersRun(n, buffers, before);
      var s, news, w := ScanWriters(Scan(n, false, buffers), before).scan, NewWriters(n.endpoints, before), event.value;
      NothingAttached(n, buffers, news, s, w);
      if !IsNewWriter(n.endpoints, news, w) {
        OldWriterStep(n, buffers, news, s, w);
      } else if OnReader(n.endpoints, w) {
        AttachedWriterStep(n, buffers, news, s, w);
      } else {
        OwnWriterStep(n, buffers, news, s, w);
      }
    }
  }

  lemma AttachesAtSnoc(n: Node, buffers: nat, before: seq<Option<Writer>>, event: Option<Writer>)
    ensures (exists k :: AttachesAt(n, buffers, before + [event], k)) <==>
      || (exists k :: AttachesAt(n, buffers, before, k))
      || (ScanWriters(Scan(n, false, buffers), before).Running? && event.Some? && Attachable(n.endpoints, event.value))
  {
    var events := before + [event];
    assert events[..|before|] == before && events[|before|] == event;
    forall k: nat
      ensures k < |before| ==> (AttachesAt(n, buffers, events, k) <==> AttachesAt(n, buffers, before, k))
      ensures k == |before| ==> (AttachesAt(n, buffers, events, k) <==>
        ScanWriters(Scan(n, false, buffers), before).Running? && event.Some? && Attachable(n.endpoints, event.value))
    {
      assert k < |before| ==> events[..k] == before[..k] && events[k] == before[k];
    }
    if k :| AttachesAt(n, buffers, before, k) {
      assert AttachesAt(n, buffers, events, k);
    }
    if ScanWriters(Scan(n, false, buffers), before).Running? && event.Some? && Attachable(n.endpoints, event.value) {
      assert AttachesAt(n, buffers, events, |before|);
    }
  }

  lemma {:induction false} WriterScanAttachesIff(n: Node, buffers: nat, events: seq<Option<Writer>>)
    requires NodeOk(n)
    ensures OutcomeNode(ScanWriters(Scan(n, false, buffers), events)).attaches > n.attaches
       <==> exists k :: AttachesAt(n, buffers, events, k)
  {
    if events != [] {
      var before, event := events[..|events| - 1], events[|events| - 1];
      assert events == before + [event];
      WriterScanAttachesIff(n, buffers, before);
      AttachesAtSnoc(n, buffers, before, event);
      ScanWritersSnoc(Scan(n, false, buffers), before, event);
      ScanWritersKeepsAttaches(Scan(n, false, buffers), before);
      var o := ScanWriters(Scan(n, false, buffers), before);
      if o.Running? && event.Some? {
        ScanWriterKeepsAttaches(o.scan, event.value);
        if o.scan.node.attaches == n.attaches {
          EventAttachesIff(n, buffers, before, event);
        }
      }
    }
  }

  /** An inspection attaches exactly when its writer scan reaches a request or
      reply writer that no endpoint of the node has, while the lookup by topic
      returns an endpoint without a writer. */
  lemma InspectionAttachesIff(n: Node, c: Contents, buffers: nat)
    requires NodeOk(n)
    ensures OutcomeNode(Inspect(n, c, buffers)).attaches > n.attaches
       <==> exists k :: AttachesAt(n, buffers, Events(c.publishers), k)
  {
    hide NodeOk, AttachesAt;
    var events := Events(c.publishers);
    WriterScanAttachesIff(n, buffers, events);
    var o := ScanWriters(Scan(n, false, buffers), events);
    if o.Running? {
      ScanReadersKeepsAttaches(o.scan, Events(c.subscribers));
    }
  }

  /** Where handles do not run out, what the scan reaches can be read off the
      endpoints and the events as well. */
  lemma AttachesAtMeaning(n: Node, buffers: nat, events: seq<Option<Writer>>, k: nat)
    requires NodeOk(n) && |n.endpoints| + |events| <= Handles.INT_MAX - 2
    ensures AttachesAt(n, buffers, events, k) <==>
      && k < |events| && WritersSucceed(n.endpoints, events[..k], buffers)
      && events[k].Some? && Attachable(n.endpoints, events[k].value)
  {
    hide NodeOk, WritersSucceed, Attachable;
    if k < |events| {
      WritersVerdict(n, buffers, events[..k]);
    }
  }

  // ---- What an attach step does to a run ----

  /** Some node with this handle and participant has had an attach step. */
  ghost predicate Drifted(g: Graph, handle: int, p: Participant) {
    exists k :: 0 <= k < |g.nodes| && DriftedNode(g.nodes[k], handle, p)
  }

  /** It shows in the node's fields: its writer count is behind. */
  lemma DriftedMeansBehind(g: Graph, handle: int, p: Participant)
    requires GraphOk(g)
    ensures Drifted(g, handle, p) <==>
      exists n :: n in g.nodes && n.handle == handle && n.participant == p
        && n.writersLen < Count(n.endpoints, HasWriter)
  {
    forall k | 0 <= k < |g.nodes|
      ensures DriftedNode(g.nodes[k], handle, p) <==>
        && g.nodes[k].handle == handle && g.nodes[k].participant == p
        && g.nodes[k].writersLen < Count(g.nodes[k].endpoints, HasWriter)
    {
      BalancedMeansNeverAttached(g.nodes[k]);
    }
    if n :| n in g.nodes && n.handle == handle && n.participant == p && n.writersLen < Count(n.endpoints, HasWriter) {
      var k :| 0 <= k < |g.nodes| && g.nodes[k] == n;
      assert DriftedNode(g.nodes[k], handle, p);
    }
  }

  ghost predicate DriftedNode(n: Node, handle: int, p: Participant) {
    n.handle == handle && n.participant == p && n.attaches > 0
  }

  // ---- No operation takes an attach step back ----

  lemma ScanWriterKeepsAttaches(s: Scan, w: Writer)
    ensures s.node.attaches <= OutcomeNode(ScanWriter(s, w)).attaches
  {}

  lemma ScanReaderKeepsAttaches(s: Scan, r: Reader)
    ensures s.node.attaches == OutcomeNode(ScanReader(s, r)).attaches
  {}

  lemma {:induction false} ScanWritersKeepsAttaches(s: Scan, events: seq<Option<Writer>>)
    ensures s.node.attaches <= OutcomeNode(ScanWriters(s, events)).attaches
    decreases |events|
  {
    if events != [] && events[0].Some? {
      ScanWriterKeepsAttaches(s, events[0].value);
      var o := ScanWriter(s, events[0].value);
      if o.Running? {
        ScanWritersKeepsAttaches(o.scan, events[1..]);
      }
    }
  }

  lemma {:induction false} ScanReadersKeepsAttaches(s: Scan, events: seq<Option<Reader>>)
    ensures s.node.attaches == OutcomeNode(ScanReaders(s, events)).attaches
    decreases |events|
  {
    if events != [] && events[0].Some? {
      ScanReaderKeepsAttaches(s, events[0].value);
      var o := ScanReader(s, events[0].value);
      if o.Running? {
        ScanReadersKeepsAttaches(o.scan, events[1..]);
      }
    }
  }

  lemma InspectKeepsDrift(n: Node, c: Contents, buffers: nat, handle: int, p: Participant)
    requires NodeOk(n) && DriftedNode(n, handle, p)
    ensures DriftedNode(OutcomeNode(Inspect(n, c, buffers)), handle, p)
  {
    InspectKeepsOk(n, c, buffers);
    ScanWritersKeepsAttaches(Scan(n, false, buffers), Events(c.publishers));
    var o := ScanWriters(Scan(n, false, buffers), Events(c.publishers));
    if o.Running? {
      ScanReadersKeepsAttaches(o.scan, Events(c.subscribers));
    }
  }

  /** Node k of the graph, for the operations that keep the list as it is. */
  ghost predicate DriftedAt(g: Graph, k: nat, handle: int, p: Participant) {
    k < |g.nodes| && DriftedNode(g.nodes[k], handle, p)
  }

  lemma EndpointOperationsKeepDrift(g: Graph, op: Op, k: nat, handle: int, p: Participant)
    requires DriftedAt(g, k, handle, p)
    requires op.OpRegisterEndpoint? || op.OpUnregisterEndpoint? || op.OpUnregisterEndpointByHandle?
    ensures DriftedAt(Apply(g, op), k, handle, p)
  {
    match op
    case OpRegisterEndpoint(_, _, _, _, _) =>
    case OpUnregisterEndpoint(_, _, _) =>
    case OpUnregisterEndpointByHandle(_, _) =>
  }

  lemma InspectionsKeepDrift(g: Graph, op: Op, k: nat, handle: int, p: Participant)
    requires GraphOk(g) && DriftedAt(g, k, handle, p) && (op.OpInspectNode? || op.OpPoll?)
    ensures DriftedAt(Apply(g, op), k, handle, p)
  {
    match op
    case OpInspectNode(node, c, buffers) => InspectKeepsDrift(g.nodes[k], c, buffers, handle, p);
    case OpPoll(view, budget) => InspectKeepsDrift(g.nodes[k], view(g.nodes[k].participant), budget(k), handle, p);
  }

  lemma RegistrationsKeepDrift(g: Graph, op: Op, k: nat, handle: int, p: Participant)
    requires DriftedAt(g, k, handle, p) && op.OpRegisterNode?
    ensures DriftedAt(Apply(g, op), k, handle, p)
  {}

  lemma OtherRemovalsKeepDrift(g: Graph, node: int, k: nat, handle: int, p: Participant)
    requires GraphOk(g) && DriftedAt(g, k, handle, p) && node != handle
    ensures Drifted(UnregisterNode(g, node).1, handle, p)
  {
    var i := FindNode(g.nodes, node);
    if i.Some? {
      RemoveAtElements(g.nodes, i.value);
      assert DriftedNode(RemoveNode(g, i.value).nodes[if k < i.value then k else k - 1], handle, p);
    }
  }

  lemma ApplyKeepsDrift(g: Graph, op: Op, handle: int, p: Participant)
    requires GraphOk(g) && Drifted(g, handle, p) && op != OpUnregisterNode(handle)
    ensures Drifted(Apply(g, op), handle, p)
  {
    var k :| 0 <= k < |g.nodes| && DriftedNode(g.nodes[k], handle, p);
    match op
    case OpRegisterNode(_, _, _, _, _) => RegistrationsKeepDrift(g, op, k, handle, p);
    case OpUnregisterNode(node) => OtherRemovalsKeepDrift(g, node, k, handle, p);
    case OpInspectNode(_, _, _) => InspectionsKeepDrift(g, op, k, handle, p);
    case OpPoll(_, _) => InspectionsKeepDrift(g, op, k, handle, p);
    case _ => EndpointOperationsKeepDrift(g, op, k, handle, p);
  }

  lemma {:induction false} RunKeepsDrift(g: Graph, ops: seq<Op>, handle: int, p: Participant)
    requires GraphOk(g) && Drifted(g, handle, p) && OpUnregisterNode(handle) !in ops
    ensures GraphOk(Run(g, ops)) && Drifted(Run(g, ops), handle, p)
  {
    if ops != [] {
      var before, op := ops[..|ops| - 1], ops[|ops| - 1];
      RunKeepsDrift(g, before, handle, p);
      ApplyKeepsOk(Run(g, before), op);
      ApplyKeepsDrift(Run(g, before), op, handle, p);
    }
  }

  /** After one attach step on a node, along every run that does not unregister
      that node, no conversion for its participant succeeds, from any buffer;
      the first unbalanced node of the participant tells how it fails. */
  lemma AttachStopsConversion(g: Graph, ops: seq<Op>, handle: int, p: Participant, s: Sample)
    requires GraphOk(g) && Drifted(g, handle, p) && OpUnregisterNode(handle) !in ops
    ensures var now := Run(g, ops);
      && Convertible(now) && Convert(now, p, s).0 == Verdict(NodesOf(now.nodes, p))
      && Convert(now, p, s).0 != Converted
  {
    RunKeepsDrift(g, ops, handle, p);
    var now := Run(g, ops);
    ReachableConvertible(now);
    ConvertMeaning(now, p, s);
    VerdictMeaning(NodesOf(now.nodes, p));
    var k :| 0 <= k < |now.nodes| && DriftedNode(now.nodes[k], handle, p);
    BalancedMeansNeverAttached(now.nodes[k]);
    assert OfParticipant(p)(now.nodes[k]) && now.nodes[k] in NodesOf(now.nodes, p);
  }

  // ---- Attached states are reachable ----

  const NOTHING := Contents(Some([]), Some([]))

  /** A node of p whose participant shows a request reader at the first
      inspection, and a request writer on the same topic at the second. */
  function AttachingRun(p: Participant): seq<Op> {
    var r, w := Reader(0, "rq/a", p.ih), Writer(1, "rq/a", p.ih);
    var reader := Contents(Some([]), Some([Some([r])]));
    var both := Contents(Some([Some([w])]), Some([Some([r])]));
    [OpRegisterNode(Some("n"), None, Some(p), Resources(true, true, true, 0), NOTHING),
     OpInspectNode(0, reader, 1), OpInspectNode(0, both, 0)]
  }

  function NodeWith(p: Participant, es: seq<Endpoint>, writersLen: int, attaches: nat): Node {
    Node(0, "n", ROOT_NAMESPACE, p, es, |es|, writersLen, |es|, 1, attaches)
  }

  lemma RequestTopic()
    ensures DetectEndpointType("rq/a", false) == Service && DetectEndpointType("rq/a", true) == Client
  {
    var topic: string := "rq/a";
    assert topic[0] == 'r' && topic[1] == 'q' && topic[2] == '/';
    assert topic[..3] == TOPIC_PREFIX_REQUEST;
    assert TOPIC_PREFIX_DEFAULT[1] == 't' && TOPIC_PREFIX_RESPONSE[1] == 'r';
  }

  lemma OneEvent<T>(x: T)
    ensures Events(Some([Some([x])])) == [Some(x)]
  {
    var groups := [Some([x])];
    assert groups[1..] == [] && [x][1..] == [];
    assert Somes([x]) == [Some(x)] + Somes<T>([]);
    assert FlattenGroups(groups) == Somes([x]) + FlattenGroups<T>([]);
  }

  lemma FirstInspection(p: Participant, r: Reader)
    requires r.topic == "rq/a"
    ensures Inspect(NewNode(0, "n", None, p), Contents(Some([]), Some([Some([r])])), 1) ==
      Running(Scan(NodeWith(p, [Endpoint(0, Service, Some(r), None)], 0, 0), true, 0))
  {
    var n := NewNode(0, "n", None, p);
    var c := Contents(Some([]), Some([Some([r])]));
    Handles.AllocateFirstProbe(EndpointHandles(n.endpoints), 0);
    OneEvent(r);
    RequestTopic();
    assert Events(c.publishers) == [] && [Some(r)][1..] == [];
    assert ScanWriters(Scan(n, false, 1), Events(c.publishers)) == Running(Scan(n, false, 1));
    var s := Scan(NodeWith(p, [Endpoint(0, Service, Some(r), None)], 0, 0), true, 0);
    assert ScanReader(Scan(n, false, 1), r) == Running(s) && ScanReaders(s, []) == Running(s);
    assert ScanReaders(Scan(n, false, 1), [Some(r)]) == Running(s);
  }

  lemma SecondInspection(p: Participant, r: Reader, w: Writer)
    requires r.topic == w.topic == "rq/a"
    ensures Inspect(NodeWith(p, [Endpoint(0, Service, Some(r), None)], 0, 0),
                    Contents(Some([Some([w])]), Some([Some([r])])), 0) ==
      Failed(NodeWith(p, [Endpoint(0, Service, Some(r), Some(w))], 0, 1))
  {
    var n := NodeWith(p, [Endpoint(0, Service, Some(r), None)], 0, 0);
    var c := Contents(Some([Some([w])]), Some([Some([r])]));
    OneEvent(w);
    RequestTopic();
    assert ScanWriter(Scan(n, false, 0), w) == Failed(NodeWith(p, [Endpoint(0, Service, Some(r), Some(w))], 0, 1));
  }

  lemma RunOfThree(g: Graph, a: Op, b: Op, c: Op)
    ensures Run(g, [a, b, c]) == Apply(Apply(Apply(g, a), b), c)
  {
    assert [a, b, c][..2] == [a, b] && [a, b][..1] == [a] && [a][..0] == [];
    assert Run(g, [a]) == Apply(g, a);
    assert Run(g, [a, b]) == Apply(Run(g, [a]), b);
  }

  lemma AttachingRunEnds(graphParticipant: Participant, p: Participant)
    ensures var r, w := Reader(0, "rq/a", p.ih), Writer(1, "rq/a", p.ih);
      Run(Empty(graphParticipant, false), AttachingRun(p)).nodes
        == [NodeWith(p, [Endpoint(0, Service, Some(r), Some(w))], 0, 1)]
  {
    hide Inspect;
    var r, w := Reader(0, "rq/a", p.ih), Writer(1, "rq/a", p.ih);
    var ops, g0 := AttachingRun(p), Empty(graphParticipant, false);
    RunOfThree(g0, ops[0], ops[1], ops[2]);
    Handles.AllocateFirstProbe(NodeHandles([]), 0);
    var g1 := Apply(g0, ops[0]);
    assert g1.nodes == [NewNode(0, "n", None, p)];
    FirstInspection(p, r);
    var g2 := Apply(g1, ops[1]);
    assert g2.nodes == [NodeWith(p, [Endpoint(0, Service, Some(r), None)], 0, 0)];
    SecondInspection(p, r, w);
  }

  lemma OnlyNode(n: Node, p: Participant)
    requires n.participant == p
    ensures NodesOf([n], p) == [n] && Verdict([n]) == NodeVerdict(n)
  {
    assert OfParticipant(p)(n);
    assert [n][1..] == [];
  }

  /** From an empty registry, three operations lead to an attached endpoint:
      one endpoint with a writer and a writer count of zero, so that the next
      conversion stores through NULL. Unregistering that endpoint takes the
      count below zero, and the conversion returns an error instead. */
  lemma AttachIsReachable(graphParticipant: Participant, p: Participant)
    ensures var g := Run(Empty(graphParticipant, false), AttachingRun(p));
      && |g.nodes| == 1 && g.nodes[0].attaches == 1 && g.nodes[0].writersLen == 0
      && Count(g.nodes[0].endpoints, HasWriter) == 1
      && Drifted(g, 0, p) && Verdict(NodesOf(g.nodes, p)) == OutOfBounds
      && Verdict(NodesOf(UnregisterEndpointByHandle(g, 0, 0).1.nodes, p)) == ConversionError
  {
    AttachingRunEnds(graphParticipant, p);
    var g := Run(Empty(graphParticipant, false), AttachingRun(p));
    hide Run;
    var n := g.nodes[0];
    assert DriftedNode(n, 0, p) && n.endpoints[1..] == [];
    OnlyNode(n, p);
    OnlyNode(RemoveEndpoint(n, 0), p);
    assert UnregisterEndpointByHandle(g, 0, 0).1.nodes == [RemoveEndpoint(n, 0)];
  }
}
