/** What every operation of the registry keeps, and so what holds after every
    run: exact counters up to attach drift, unique keys, and the shapes that
    endpoints can have. */
module RegistryInvariants {
  import opened Common
  import opened Naming
  import opened Registry
  import Handles

  const HasReader := (e: Endpoint) => e.reader.Some?
  const HasWriter := (e: Endpoint) => e.writer.Some?

  predicate IsServiceRole(kind: EndpointType) {
    kind == Client || kind == Service
  }

  /** An endpoint that got its writer by the attach step: the writer is on the
      reader's own topic, and therefore has the opposite role. */
  predicate Attached(e: Endpoint) {
    && IsServiceRole(e.kind) && e.reader.Some? && e.writer.Some?
    && e.reader.value.topic == e.writer.value.topic
    && DetectEndpointType(e.writer.value.topic, true) == OppositeRole(e.kind)
  }

  /** Which entities an endpoint of a type has. */
  predicate EntityShape(kind: EndpointType, r: Option<Reader>, w: Option<Writer>) {
    match kind
    case Subscription => r.Some? && w.None?
    case Publisher => r.None? && w.Some?
    case Client => r.Some? || w.Some?
    case Service => r.Some? || w.Some?
    case Unknown => false
  }

  predicate EndpointOk(e: Endpoint) {
    && Handles.HandleOk(e.handle)
    && EntityShape(e.kind, e.reader, e.writer)
    && (e.reader.Some? ==> DetectEndpointType(e.reader.value.topic, false) == e.kind)
    && (e.writer.Some? ==> DetectEndpointType(e.writer.value.topic, true) == e.kind || Attached(e))
  }

  ghost predicate EndpointsOk(es: seq<Endpoint>) {
    && (forall i :: 0 <= i < |es| ==> EndpointOk(es[i]))
    && (forall i, j :: 0 <= i < j < |es| ==> es[i].handle != es[j].handle)
    && (forall i, j :: 0 <= i < j < |es| ==> es[i].reader != es[j].reader || es[i].writer != es[j].writer)
  }

  ghost predicate CountersOk(n: Node) {
    && n.endpointsLen == |n.endpoints|
    && n.readersLen == Count(n.endpoints, HasReader)
    && Count(n.endpoints, HasWriter) - n.writersLen == n.attaches
    && (n.attaches == 0 ==> forall e :: e in n.endpoints ==> !Attached(e))
  }

  ghost predicate NodeOk(n: Node) {
    EndpointsOk(n.endpoints) && CountersOk(n) && Handles.CounterOk(n.endpHandleNext)
  }

  /** The fields that endpoint operations leave alone. */
  predicate SameIdentity(n: Node, n': Node) {
    n'.handle == n.handle && n'.name == n.name && n'.ns == n.ns && n'.participant == n.participant
  }

  ghost predicate NodesOk(nodes: seq<Node>) {
    && (forall i :: 0 <= i < |nodes| ==>
      NodeOk(nodes[i]) && Handles.HandleOk(nodes[i].handle) && nodes[i].name != [] && nodes[i].ns != [])
    && (forall i, j :: 0 <= i < j < |nodes| ==> nodes[i].handle != nodes[j].handle)
    && (forall i, j :: 0 <= i < j < |nodes| ==> nodes[i].name != nodes[j].name || nodes[i].ns != nodes[j].ns)
  }

  ghost predicate GraphOk(g: Graph) {
    NodesOk(g.nodes) && g.nodesLen == |g.nodes| && Handles.CounterOk(g.nodeHandleNext)
  }

  // ---- Endpoint operations ----

  lemma AppendEndpointKeepsOk(es: seq<Endpoint>, e: Endpoint)
    requires EndpointsOk(es) && EndpointOk(e)
    requires e.handle !in EndpointHandles(es)
    requires FindByEntities(es, e.reader, e.writer).None?
    ensures EndpointsOk(es + [e])
  {
    forall i | 0 <= i < |es|
      ensures es[i].handle != e.handle && (es[i].reader != e.reader || es[i].writer != e.writer)
    {
      assert es[i].handle in EndpointHandles(es);
      assert !EntitiesMatch(es[i], e.reader, e.writer);
    }
  }

  lemma AppendEndpointKeepsCounters(n: Node, e: Endpoint)
    requires CountersOk(n) && !Attached(e)
    ensures CountersOk(n.(endpoints := n.endpoints + [e], endpointsLen := n.endpointsLen + 1,
                          readersLen := n.readersLen + One(e.reader), writersLen := n.writersLen + One(e.writer)))
  {
    CountConcat(n.endpoints, [e], HasReader);
    CountConcat(n.endpoints, [e], HasWriter);
    assert Count([e], HasReader) == One(e.reader) && Count([e], HasWriter) == One(e.writer);
  }

  lemma FreshHandle(live: set<int>, next: int)
    requires Handles.CounterOk(next)
    ensures var (h, next') := Handles.Allocate(live, next, Handles.INT_MAX);
      Handles.CounterOk(next') && (h.Some? ==> Handles.HandleOk(h.value) && h.value !in live)
  {
    Handles.AllocateMeaning(live, next, Handles.INT_MAX);
  }

  /** What an endpoint registration does to a node, either way. */
  ghost predicate Placed(n: Node, h: Option<int>, n': Node, kind: EndpointType, r: Option<Reader>, w: Option<Writer>) {
    && SameIdentity(n, n') && n'.attaches == n.attaches
    && (h.None? ==> n' == n.(endpHandleNext := n'.endpHandleNext))
    && (h.Some? ==> h.value >= 0 && n'.endpoints == n.endpoints + [Endpoint(h.value, kind, r, w)])
  }

  lemma PlacedEndpointOk(n: Node, h: int, next: int, kind: EndpointType, r: Option<Reader>, w: Option<Writer>)
    requires NodeOk(n) && EntityShape(kind, r, w) && AcceptsEntities(n, kind, r, w)
    requires Handles.HandleOk(h) && h !in EndpointHandles(n.endpoints) && Handles.CounterOk(next)
    ensures NodeOk(n.(endpHandleNext := next,
                      endpoints := n.endpoints + [Endpoint(h, kind, r, w)],
                      endpointsLen := n.endpointsLen + 1,
                      readersLen := n.readersLen + One(r),
                      writersLen := n.writersLen + One(w)))
  {
    AppendEndpointKeepsOk(n.endpoints, Endpoint(h, kind, r, w));
    AppendEndpointKeepsCounters(n, Endpoint(h, kind, r, w));
  }

  lemma PlaceEndpointKeepsOk(n: Node, kind: EndpointType, r: Option<Reader>, w: Option<Writer>, buffer: bool)
    requires NodeOk(n) && EntityShape(kind, r, w) && AcceptsEntities(n, kind, r, w)
    ensures NodeOk(PlaceEndpoint(n, kind, r, w, buffer).1)
  {
    var live := EndpointHandles(n.endpoints);
    var (h, next) := Handles.Allocate(live, n.endpHandleNext, Handles.INT_MAX);
    FreshHandle(live, n.endpHandleNext);
    if h.Some? && buffer {
      PlacedEndpointOk(n, h.value, next, kind, r, w);
    }
  }

  lemma AddEndpointKeepsOk(n: Node, kind: EndpointType, r: Option<Reader>, w: Option<Writer>, buffer: bool)
    requires NodeOk(n) && EntityShape(kind, r, w)
    ensures var (h, n') := AddEndpoint(n, kind, r, w, buffer);
      NodeOk(n') && Placed(n, h, n', kind, r, w) && (h.Some? ==> buffer)
  {
    if AcceptsEntities(n, kind, r, w) {
      PlaceEndpointKeepsOk(n, kind, r, w, buffer);
      assert Handles.CounterOk(n.endpHandleNext);
      FreshHandle(EndpointHandles(n.endpoints), n.endpHandleNext);
    }
  }

  lemma {:induction false} HandlesSize(es: seq<Endpoint>)
    ensures |EndpointHandles(es)| <= |es|
  {
    if es != [] {
      HandlesSize(es[1..]);
      assert es == [es[0]] + es[1..];
      assert EndpointHandles(es) == {es[0].handle} + EndpointHandles(es[1..]);
    }
  }

  /** With a buffer and handles to spare, good entities are always accepted. */
  lemma AddEndpointSucceeds(n: Node, kind: EndpointType, r: Option<Reader>, w: Option<Writer>)
    requires NodeOk(n) && |n.endpoints| <= Handles.INT_MAX - 2 && AcceptsEntities(n, kind, r, w)
    ensures AddEndpoint(n, kind, r, w, true).0.Some?
  {
    HandlesSize(n.endpoints);
    Handles.AllocateSucceeds(EndpointHandles(n.endpoints), n.endpHandleNext);
  }

  lemma RemoveEndpointKeepsOk(n: Node, i: nat)
    requires NodeOk(n) && i < |n.endpoints|
    ensures NodeOk(RemoveEndpoint(n, i)) && SameIdentity(n, RemoveEndpoint(n, i))
  {
    RemoveAtElements(n.endpoints, i);
    CountRemoveAt(n.endpoints, i, HasReader);
    CountRemoveAt(n.endpoints, i, HasWriter);
  }

  lemma AttachKeepsOk(n: Node, i: nat, w: Writer)
    requires NodeOk(n) && i < |n.endpoints|
    requires n.endpoints[i].writer.None? && TopicMatches(n.endpoints[i], w.topic, false)
    requires IsServiceRole(DetectEndpointType(w.topic, true))
    requires FindByEntities(n.endpoints, None, Some(w)).None?
    ensures NodeOk(AttachWriter(n, i, w)) && SameIdentity(n, AttachWriter(n, i, w))
    ensures Attached(AttachWriter(n, i, w).endpoints[i])
  {
    var e := n.endpoints[i].(writer := Some(w));
    RequestReplyDuality(w.topic);
    assert forall j :: 0 <= j < |n.endpoints| ==> !EntitiesMatch(n.endpoints[j], None, Some(w));
    CountUpdate(n.endpoints, i, e, HasReader);
    CountUpdate(n.endpoints, i, e, HasWriter);
  }

  // ---- Inspection ----

  lemma ScanWriterKeepsOk(s: Scan, w: Writer)
    requires NodeOk(s.node)
    ensures NodeOk(OutcomeNode(ScanWriter(s, w))) && SameIdentity(s.node, OutcomeNode(ScanWriter(s, w)))
  {
    var kind := DetectEndpointType(w.topic, true);
    if kind == Publisher || IsServiceRole(kind) {
      AddEndpointKeepsOk(s.node, kind, None, Some(w), s.buffers > 0);
    }
    var found := FindByTopic(s.node.endpoints, w.topic, false);
    if IsServiceRole(kind) && FindByEntities(s.node.endpoints, None, Some(w)).None?
      && found.Some? && s.node.endpoints[found.value].writer.None? {
      AttachKeepsOk(s.node, found.value, w);
    }
  }

  lemma ScanReaderKeepsOk(s: Scan, r: Reader)
    requires NodeOk(s.node)
    ensures NodeOk(OutcomeNode(ScanReader(s, r))) && SameIdentity(s.node, OutcomeNode(ScanReader(s, r)))
  {
    var kind := DetectEndpointType(r.topic, false);
    if kind == Subscription || IsServiceRole(kind) {
      AddEndpointKeepsOk(s.node, kind, Some(r), None, s.buffers > 0);
    }
  }

  lemma {:induction false} ScanWritersKeepsOk(s: Scan, events: seq<Option<Writer>>)
    requires NodeOk(s.node)
    ensures NodeOk(OutcomeNode(ScanWriters(s, events)))
    ensures SameIdentity(s.node, OutcomeNode(ScanWriters(s, events)))
    decreases |events|
  {
    if events != [] && events[0].Some? {
      ScanWriterKeepsOk(s, events[0].value);
      var o := ScanWriter(s, events[0].value);
      if o.Running? {
        ScanWritersKeepsOk(o.scan, events[1..]);
      }
    }
  }

  lemma {:induction false} ScanReadersKeepsOk(s: Scan, events: seq<Option<Reader>>)
    requires NodeOk(s.node)
    ensures NodeOk(OutcomeNode(ScanReaders(s, events)))
    ensures SameIdentity(s.node, OutcomeNode(ScanReaders(s, events)))
    decreases |events|
  {
    if events != [] && events[0].Some? {
      ScanReaderKeepsOk(s, events[0].value);
      var o := ScanReader(s, events[0].value);
      if o.Running? {
        ScanReadersKeepsOk(o.scan, events[1..]);
      }
    }
  }

  lemma {:induction false} ScanWritersConcat(s: Scan, a: seq<Option<Writer>>, b: seq<Option<Writer>>)
    ensures ScanWriters(s, a + b) ==
      match ScanWriters(s, a)
      case Running(s') => ScanWriters(s', b)
      case Failed(n) => Failed(n)
    decreases |a|
  {
    if a == [] {
      assert a + b == b;
    } else {
      assert (a + b)[0] == a[0] && (a + b)[1..] == a[1..] + b;
      if a[0].Some? && ScanWriter(s, a[0].value).Running? {
        ScanWritersConcat(ScanWriter(s, a[0].value).scan, a[1..], b);
      }
    }
  }

  lemma {:induction false} ScanReadersConcat(s: Scan, a: seq<Option<Reader>>, b: seq<Option<Reader>>)
    ensures ScanReaders(s, a + b) ==
      match ScanReaders(s, a)
      case Running(s') => ScanReaders(s', b)
      case Failed(n) => Failed(n)
    decreases |a|
  {
    if a == [] {
      assert a + b == b;
    } else {
      assert (a + b)[0] == a[0] && (a + b)[1..] == a[1..] + b;
      if a[0].Some? && ScanReader(s, a[0].value).Running? {
        ScanReadersConcat(ScanReader(s, a[0].value).scan, a[1..], b);
      }
    }
  }

  /** Inspection, whether it succeeds or stops half-way. */
  lemma InspectKeepsOk(n: Node, c: Contents, buffers: nat)
    requires NodeOk(n)
    ensures NodeOk(OutcomeNode(Inspect(n, c, buffers)))
    ensures SameIdentity(n, OutcomeNode(Inspect(n, c, buffers)))
  {
    ScanWritersKeepsOk(Scan(n, false, buffers), Events(c.publishers));
    var o := ScanWriters(Scan(n, false, buffers), Events(c.publishers));
    if o.Running? {
      ScanReadersKeepsOk(o.scan, Events(c.subscribers));
    }
  }

  // ---- Whole-graph operations ----

  lemma ReplaceNodeKeepsOk(nodes: seq<Node>, k: nat, n: Node)
    requires NodesOk(nodes) && k < |nodes| && NodeOk(n) && SameIdentity(nodes[k], n)
    ensures NodesOk(nodes[k := n])
  {}

  lemma ReplaceInGraphKeepsOk(g: Graph, k: nat, n: Node)
    requires GraphOk(g) && k < |g.nodes| && NodeOk(n) && SameIdentity(g.nodes[k], n)
    ensures GraphOk(g.(nodes := g.nodes[k := n]))
  {
    ReplaceNodeKeepsOk(g.nodes, k, n);
  }

  lemma RemoveNodeKeepsOk(g: Graph, k: nat)
    requires GraphOk(g) && k < |g.nodes|
    ensures GraphOk(RemoveNode(g, k))
  {
    RemoveAtElements(g.nodes, k);
  }

  /** A namespace argument with NULL read as the root namespace. */
  function Namespace(ns: Option<string>): string {
    if ns.Some? then ns.value else ROOT_NAMESPACE
  }

  /** With unique keys the lookups are the lookups of an abstract map. */
  lemma FindNodeByNameMeaning(nodes: seq<Node>, name: string, ns: Option<string>, k: nat)
    requires NodesOk(nodes)
    ensures FindNodeByName(nodes, name, ns) == Some(k)
       <==> (k < |nodes| && nodes[k].name == name && nodes[k].ns == Namespace(ns))
  {
    var p := (n: Node) => NameMatches(n, name, ns);
    assert forall i :: 0 <= i < |nodes| ==> (p(nodes[i]) <==> nodes[i].name == name && nodes[i].ns == Namespace(ns));
  }

  lemma FindNodeMeaning(nodes: seq<Node>, handle: int, k: nat)
    requires NodesOk(nodes)
    ensures FindNode(nodes, handle) == Some(k) <==> (k < |nodes| && nodes[k].handle == handle)
  {
    assert k < |nodes| ==> nodes[k].handle == handle ==> FindNode(nodes, handle).Some?;
  }

  lemma GraphNodeOk(g: Graph, k: nat)
    requires GraphOk(g) && k < |g.nodes|
    ensures NodeOk(g.nodes[k]) && FindNode(g.nodes, g.nodes[k].handle) == Some(k)
  {
    FindNodeMeaning(g.nodes, g.nodes[k].handle, k);
  }

  lemma FindEndpointMeaning(es: seq<Endpoint>, handle: int, i: nat)
    requires EndpointsOk(es)
    ensures FindEndpoint(es, handle) == Some(i) <==> (i < |es| && es[i].handle == handle)
  {
    assert i < |es| ==> es[i].handle == handle ==> FindEndpoint(es, handle).Some?;
  }

  lemma AppendNodeKeepsOk(g: Graph, name: string, ns: Option<string>, n: Node)
    requires GraphOk(g) && ValidNodeArguments(Some(name), ns)
    requires FindNodeByName(g.nodes, name, ns).None?
    requires NodeOk(n) && n.name == name && n.ns == Namespace(ns)
    requires Handles.HandleOk(n.handle) && n.handle !in NodeHandles(g.nodes)
    ensures GraphOk(AppendNode(g, n))
  {
    forall i | 0 <= i < |g.nodes|
      ensures g.nodes[i].handle != n.handle && (g.nodes[i].name != n.name || g.nodes[i].ns != n.ns)
    {
      assert g.nodes[i].handle in NodeHandles(g.nodes);
      assert !NameMatches(g.nodes[i], name, ns);
    }
  }

  lemma RegisterNodeKeepsOk(g: Graph, name: Option<string>, ns: Option<string>, p: Option<Participant>,
                            res: Resources, c: Contents)
    requires GraphOk(g)
    ensures GraphOk(RegisterNode(g, name, ns, p, res, c).1)
  {
    if ValidNodeArguments(name, ns) && FindNodeByName(g.nodes, name.value, ns).None? {
      FreshHandle(NodeHandles(g.nodes), g.nodeHandleNext);
      var (h, next) := Handles.Allocate(NodeHandles(g.nodes), g.nodeHandleNext, Handles.INT_MAX);
      if h.Some? && res.nodeBuffer && res.nameDup && res.namespaceDup {
        var g1 := QueueUpdate(g.(nodeHandleNext := next));
        var n := NewNode(h.value, name.value, ns, if p.Some? then p.value else g.graphParticipant);
        InspectKeepsOk(n, c, res.endpointBuffers);
        AppendNodeKeepsOk(g1, name.value, ns, if g.polling then OutcomeNode(Inspect(n, c, res.endpointBuffers)) else n);
      }
    }
  }

  lemma AddEndpointAtKeepsOk(g: Graph, node: int, kind: EndpointType, r: Option<Reader>, w: Option<Writer>,
                             buffer: bool)
    requires GraphOk(g) && EntityShape(kind, r, w)
    ensures GraphOk(AddEndpointAt(g, node, kind, r, w, buffer).1)
  {
    var k := FindNode(g.nodes, node);
    if k.Some? {
      AddEndpointKeepsOk(g.nodes[k.value], kind, r, w, buffer);
      ReplaceNodeKeepsOk(g.nodes, k.value, AddEndpoint(g.nodes[k.value], kind, r, w, buffer).1);
    }
  }

  lemma RemoveEndpointAtKeepsOk(g: Graph, k: nat, i: nat)
    requires GraphOk(g) && k < |g.nodes| && i < |g.nodes[k].endpoints|
    ensures GraphOk(RemoveEndpointAt(g, k, i))
  {
    RemoveEndpointKeepsOk(g.nodes[k], i);
    ReplaceNodeKeepsOk(g.nodes, k, RemoveEndpoint(g.nodes[k], i));
  }

  lemma UnregisterEndpointKeepsOk(g: Graph, node: int, r: Option<Reader>, w: Option<Writer>)
    requires GraphOk(g)
    ensures GraphOk(UnregisterEndpoint(g, node, r, w).1)
  {
    var k := FindNode(g.nodes, node);
    if k.Some? {
      var i := FindByEntities(g.nodes[k.value].endpoints, r, w);
      if i.Some? {
        RemoveEndpointAtKeepsOk(g, k.value, i.value);
      }
    }
  }

  lemma UnregisterEndpointByHandleKeepsOk(g: Graph, node: int, handle: int)
    requires GraphOk(g)
    ensures GraphOk(UnregisterEndpointByHandle(g, node, handle).1)
  {
    var k := FindNode(g.nodes, node);
    if k.Some? {
      var i := FindEndpoint(g.nodes[k.value].endpoints, handle);
      if i.Some? {
        RemoveEndpointAtKeepsOk(g, k.value, i.value);
      }
    }
  }

  lemma InspectNodeKeepsOk(g: Graph, node: int, c: Contents, buffers: nat)
    requires GraphOk(g)
    ensures GraphOk(InspectNode(g, node, c, buffers).1)
  {
    var k := FindNode(g.nodes, node);
    if k.Some? {
      InspectKeepsOk(g.nodes[k.value], c, buffers);
      ReplaceNodeKeepsOk(g.nodes, k.value, OutcomeNode(Inspect(g.nodes[k.value], c, buffers)));
    }
  }

  lemma PollKeepsOk(g: Graph, contents: Participant -> Contents, budget: nat -> nat)
    requires GraphOk(g)
    ensures GraphOk(Poll(g, contents, budget))
  {
    forall k | 0 <= k < |g.nodes|
      ensures NodeOk(Poll(g, contents, budget).nodes[k])
      ensures SameIdentity(g.nodes[k], Poll(g, contents, budget).nodes[k])
    {
      InspectKeepsOk(g.nodes[k], contents(g.nodes[k].participant), budget(k));
    }
  }

  lemma ApplyKeepsOk(g: Graph, op: Op)
    requires GraphOk(g)
    ensures GraphOk(Apply(g, op))
  {
    match op
    case OpRegisterNode(name, ns, p, res, c) => RegisterNodeKeepsOk(g, name, ns, p, res, c);
    case OpUnregisterNode(n) =>
      var k := FindNode(g.nodes, n);
      if k.Some? { RemoveNodeKeepsOk(g, k.value); }
    case OpRegisterEndpoint(n, kind, r, w, buffer) =>
      if ShapeForApi(kind, r, w) { AddEndpointAtKeepsOk(g, n, kind, r, w, buffer); }
    case OpUnregisterEndpoint(n, r, w) => UnregisterEndpointKeepsOk(g, n, r, w);
    case OpUnregisterEndpointByHandle(n, e) => UnregisterEndpointByHandleKeepsOk(g, n, e);
    case OpInspectNode(n, c, buffers) => InspectNodeKeepsOk(g, n, c, buffers);
    case OpPoll(view, budget) => PollKeepsOk(g, view, budget);
  }

  /** Counters, keys and shapes hold in every reachable state. */
  lemma {:induction false} ReachableOk(p: Participant, polling: bool, ops: seq<Op>)
    ensures GraphOk(Run(Empty(p, polling), ops))
  {
    if ops != [] {
      ReachableOk(p, polling, ops[..|ops| - 1]);
      ApplyKeepsOk(Run(Empty(p, polling), ops[..|ops| - 1]), ops[|ops| - 1]);
    }
  }

  // ---- What operations leave alone ----

  /** Nodes that differ only in what is never published. */
  ghost predicate SameShown(nodes: seq<Node>, nodes': seq<Node>) {
    && |nodes'| == |nodes|
    && forall k :: 0 <= k < |nodes| ==> nodes'[k] == nodes[k].(endpHandleNext := nodes'[k].endpHandleNext)
  }

  /** Inspections and polls change nodes in place and keep their identity. */
  lemma InspectionsKeepIdentity(g: Graph, op: Op)
    requires GraphOk(g) && (op.OpInspectNode? || op.OpPoll?)
    ensures |Apply(g, op).nodes| == |g.nodes|
    ensures forall k :: 0 <= k < |g.nodes| ==> SameIdentity(g.nodes[k], Apply(g, op).nodes[k])
  {
    match op {
      case OpInspectNode(node, c, buffers) =>
        var k := FindNode(g.nodes, node);
        if k.Some? { InspectKeepsOk(g.nodes[k.value], c, buffers); }
      case OpPoll(view, budget) =>
        forall k | 0 <= k < |g.nodes|
          ensures SameIdentity(g.nodes[k], Apply(g, op).nodes[k])
        {
          InspectKeepsOk(g.nodes[k], view(g.nodes[k].participant), budget(k));
        }
    }
  }

  // ---- Consequences ----

  /** A reader or writer of a plain topic belongs to at most one endpoint. */
  lemma PlainEntitiesAreExclusive(n: Node, i: nat, j: nat)
    requires NodeOk(n) && i < |n.endpoints| && j < |n.endpoints| && i != j
    ensures n.endpoints[i].reader.Some? && TOPIC_PREFIX_DEFAULT <= n.endpoints[i].reader.value.topic
      ==> n.endpoints[j].reader != n.endpoints[i].reader
    ensures n.endpoints[i].writer.Some? && TOPIC_PREFIX_DEFAULT <= n.endpoints[i].writer.value.topic
      ==> n.endpoints[j].writer != n.endpoints[i].writer
  {
    assert EndpointOk(n.endpoints[i]) && EndpointOk(n.endpoints[j]);
  }

  /** A writer of the opposite role is exactly one on its endpoint's reader topic. */
  lemma AttachedMeansSameTopic(e: Endpoint)
    requires EndpointOk(e) && e.writer.Some?
    ensures Attached(e) <==> DetectEndpointType(e.writer.value.topic, true) != e.kind
    ensures Attached(e) <==> (e.reader.Some? && e.reader.value.topic == e.writer.value.topic)
  {
    if e.reader.Some? && e.reader.value.topic == e.writer.value.topic
      && IsServiceRole(DetectEndpointType(e.writer.value.topic, true)) {
      RequestReplyDuality(e.writer.value.topic);
    }
  }
}
