/** When registrations succeed, in terms of what is listed, and that each
    unregistration undoes its registration. */
module RoundTrips {
  import opened Common
  import opened Naming
  import opened Registry
  import opened RegistryInvariants
  import Handles

  // ---- Endpoints ----

  /** The endpoint has each of the entities that is given. */
  predicate HasAll(e: Endpoint, r: Option<Reader>, w: Option<Writer>) {
    (r.Some? ==> e.reader == r) && (w.Some? ==> e.writer == w)
  }

  /** No endpoint of the node has all the entities given, and the topics are
      those of the type. */
  ghost predicate Acceptable(n: Node, kind: EndpointType, r: Option<Reader>, w: Option<Writer>) {
    && (forall e :: e in n.endpoints ==> !HasAll(e, r, w))
    && (r.Some? ==> DetectEndpointType(r.value.topic, false) == kind)
    && (w.Some? ==> DetectEndpointType(w.value.topic, true) == kind)
  }

  /** The node of a registration that succeeds. */
  ghost predicate TakesEndpoint(g: Graph, k: nat, node: int, kind: EndpointType, r: Option<Reader>, w: Option<Writer>) {
    k < |g.nodes| && g.nodes[k].handle == node && Acceptable(g.nodes[k], kind, r, w)
  }

  /** n' is n with one endpoint more, at the back and with a handle of its own. */
  ghost predicate NodeWith(n: Node, n': Node, e: Endpoint) {
    && e.handle >= 0 && (forall other :: other in n.endpoints ==> other.handle != e.handle)
    && n' == n.(endpoints := n.endpoints + [e], endpointsLen := n.endpointsLen + 1,
                readersLen := n.readersLen + (if e.reader.Some? then 1 else 0),
                writersLen := n.writersLen + (if e.writer.Some? then 1 else 0), endpHandleNext := n'.endpHandleNext)
  }

  /** g' lists one endpoint more, at the back of node k, and has a token more. */
  ghost predicate Listed(g: Graph, g': Graph, k: nat, e: Endpoint) {
    && k < |g.nodes| == |g'.nodes|
    && g' == g.(nodes := g.nodes[k := g'.nodes[k]], tokens := g.tokens + 1)
    && NodeWith(g.nodes[k], g'.nodes[k], e)
  }

  lemma AddedEndpoint(n: Node, kind: EndpointType, r: Option<Reader>, w: Option<Writer>, buffer: bool)
    requires Handles.CounterOk(n.endpHandleNext)
    ensures var (h, n') := AddEndpoint(n, kind, r, w, buffer);
      && (h.Some? ==> buffer && AcceptsEntities(n, kind, r, w))
      && (h.Some? ==> h.value >= 0 && NodeWith(n, n', Endpoint(h.value, kind, r, w)))
      && (h.None? ==> n' == n.(endpHandleNext := n'.endpHandleNext))
  {
    hide AcceptsEntities;
    FreshHandle(EndpointHandles(n.endpoints), n.endpHandleNext);
    assert forall e :: e in n.endpoints ==> e.handle in EndpointHandles(n.endpoints);
  }

  lemma AcceptsMeansAcceptable(n: Node, kind: EndpointType, r: Option<Reader>, w: Option<Writer>)
    ensures AcceptsEntities(n, kind, r, w) <==> Acceptable(n, kind, r, w)
  {
    var found := FindByEntities(n.endpoints, r, w);
    assert found.Some? ==> n.endpoints[found.value] in n.endpoints;
    assert forall e :: EntitiesMatch(e, r, w) <==> HasAll(e, r, w);
  }

  lemma AddEndpointVerdict(n: Node, kind: EndpointType, r: Option<Reader>, w: Option<Writer>, buffer: bool)
    requires NodeOk(n) && |n.endpoints| <= Handles.INT_MAX - 2
    ensures var (h, n') := AddEndpoint(n, kind, r, w, buffer);
      && (h.Some? <==> buffer && Acceptable(n, kind, r, w))
      && (h.Some? ==> h.value >= 0 && NodeWith(n, n', Endpoint(h.value, kind, r, w)))
      && (h.None? ==> n' == n.(endpHandleNext := n'.endpHandleNext))
  {
    hide AddEndpoint, AcceptsEntities, Acceptable, NodeWith;
    AcceptsMeansAcceptable(n, kind, r, w);
    AddedEndpoint(n, kind, r, w, buffer);
    if buffer && AcceptsEntities(n, kind, r, w) {
      AddEndpointSucceeds(n, kind, r, w);
    }
  }

  /** A registration call of the API succeeds exactly when it has the entities
      of its type (a reader for a subscription, a writer for a publisher, both for
      a client and for a service), a buffer, and a listed node that can take them;
      it then lists them at the back of that node and queues one update. Otherwise
      it returns -1 and at most the handle counter of a node has moved. */
  lemma RegisterEndpointMeaning(g: Graph, node: int, kind: EndpointType, r: Option<Reader>, w: Option<Writer>,
                                buffer: bool)
    requires GraphOk(g) && forall k :: 0 <= k < |g.nodes| ==> |g.nodes[k].endpoints| <= Handles.INT_MAX - 2
    ensures var (h, g') := RegisterEndpoint(g, node, kind, r, w, buffer);
      && (h >= 0 <==>
        && ((kind == Subscription && r.Some? && w.None?) || (kind == Publisher && r.None? && w.Some?)
          || ((kind == Client || kind == Service) && r.Some? && w.Some?))
        && buffer && exists k :: TakesEndpoint(g, k, node, kind, r, w))
      && (h >= 0 ==> exists k :: TakesEndpoint(g, k, node, kind, r, w) && Listed(g, g', k, Endpoint(h, kind, r, w)))
      && (h < 0 ==> h == -1 && g' == g.(nodes := g'.nodes) && SameShown(g.nodes, g'.nodes))
  {
    hide NodeOk, AddEndpoint, Acceptable, NodeWith;
    var (h, g') := RegisterEndpoint(g, node, kind, r, w, buffer);
    var found := FindNode(g.nodes, node);
    if ShapeForApi(kind, r, w) && found.Some? {
      var k := found.value;
      FindNodeMeaning(g.nodes, node, k);
      AddEndpointVerdict(g.nodes[k], kind, r, w, buffer);
      assert Acceptable(g.nodes[k], kind, r, w) ==> TakesEndpoint(g, k, node, kind, r, w);
      assert h >= 0 ==> TakesEndpoint(g, k, node, kind, r, w) && Listed(g, g', k, Endpoint(h, kind, r, w));
    }
    forall k: nat | TakesEndpoint(g, k, node, kind, r, w)
      ensures found == Some(k)
    {
      FindNodeMeaning(g.nodes, node, k);
    }
  }

  lemma RemoveLastEndpoint(n: Node, n': Node, h: int, kind: EndpointType, r: Option<Reader>, w: Option<Writer>)
    requires AddEndpoint(n, kind, r, w, true) == (Some(h), n')
    ensures n'.endpoints == n.endpoints + [Endpoint(h, kind, r, w)]
    ensures RemoveEndpoint(n', |n.endpoints|) == n.(endpHandleNext := n'.endpHandleNext)
  {
    assert RemoveAt(n'.endpoints, |n.endpoints|) == n.endpoints;
  }

  lemma LastEndpointIsFound(es: seq<Endpoint>, e: Endpoint)
    requires FindByEntities(es, e.reader, e.writer).None?
    ensures FindByEntities(es + [e], e.reader, e.writer) == Some(|es|)
  {
    var all := es + [e];
    assert forall i :: 0 <= i < |es| ==> all[i] == es[i] && !EntitiesMatch(es[i], e.reader, e.writer);
    assert EntitiesMatch(all[|es|], e.reader, e.writer);
  }

  /** The registry as it was, but for handle counters and two updates queued. */
  ghost predicate Undone(g: Graph, g': Graph) {
    g' == g.(nodes := g'.nodes, tokens := g.tokens + 2) && SameShown(g.nodes, g'.nodes)
  }

  /** The node and the graph right after a registration that succeeded. */
  lemma RegisteredAt(g: Graph, node: int, kind: EndpointType, r: Option<Reader>, w: Option<Writer>)
    returns (k: nat, n': Node)
    requires GraphOk(g) && RegisterEndpoint(g, node, kind, r, w, true).0 >= 0
    ensures k < |g.nodes| && FindNode(g.nodes, node) == Some(k)
    ensures var (h, g1) := RegisterEndpoint(g, node, kind, r, w, true);
      && AddEndpoint(g.nodes[k], kind, r, w, true) == (Some(h), n') && NodeOk(n')
      && n'.endpoints == g.nodes[k].endpoints + [Endpoint(h, kind, r, w)]
      && g1 == g.(nodes := g.nodes[k := n'], tokens := g.tokens + 1) && FindNode(g1.nodes, node) == Some(k)
    ensures FindByEntities(g.nodes[k].endpoints, r, w).None?
  {
    hide NodeOk, Handles.Allocate;
    k := FindNode(g.nodes, node).value;
    n' := AddEndpoint(g.nodes[k], kind, r, w, true).1;
    AddEndpointKeepsOk(g.nodes[k], kind, r, w, true);
    ReplaceNodeKeepsOk(g.nodes, k, n');
    FindNodeMeaning(g.nodes[k := n'], node, k);
  }

  lemma UndoneByRemoval(g: Graph, g1: Graph, k: nat, n': Node, i: nat)
    requires k < |g.nodes| && g1 == g.(nodes := g.nodes[k := n'], tokens := g.tokens + 1)
    requires i < |n'.endpoints| && RemoveEndpoint(n', i) == g.nodes[k].(endpHandleNext := n'.endpHandleNext)
    ensures Undone(g, QueueUpdate(RemoveEndpointAt(g1, k, i)))
  {}

  /** Unregistering an endpoint by its handle undoes its registration: the
      lookup finds exactly the endpoint that was added. */
  lemma UnregisterByHandleUndoesRegister(g: Graph, node: int, kind: EndpointType, r: Option<Reader>, w: Option<Writer>)
    requires GraphOk(g) && RegisterEndpoint(g, node, kind, r, w, true).0 >= 0
    ensures var (h, g1) := RegisterEndpoint(g, node, kind, r, w, true);
      var (rc, g2) := UnregisterEndpointByHandle(g1, node, h);
      rc == Ok && Undone(g, g2)
  {
    var (h, g1) := RegisterEndpoint(g, node, kind, r, w, true);
    var k, n' := RegisteredAt(g, node, kind, r, w);
    var last := |g.nodes[k].endpoints|;
    RemoveLastEndpoint(g.nodes[k], n', h, kind, r, w);
    FindEndpointMeaning(n'.endpoints, h, last);
    UndoneByRemoval(g, g1, k, n', last);
  }

  /** So does unregistering it by the entities that it was registered with. */
  lemma UnregisterUndoesRegister(g: Graph, node: int, kind: EndpointType, r: Option<Reader>, w: Option<Writer>)
    requires GraphOk(g) && RegisterEndpoint(g, node, kind, r, w, true).0 >= 0
    ensures var (h, g1) := RegisterEndpoint(g, node, kind, r, w, true);
      var (rc, g2) := UnregisterEndpoint(g1, node, r, w);
      rc == Ok && Undone(g, g2)
  {
    var (h, g1) := RegisterEndpoint(g, node, kind, r, w, true);
    var k, n' := RegisteredAt(g, node, kind, r, w);
    RemoveLastEndpoint(g.nodes[k], n', h, kind, r, w);
    LastEndpointIsFound(g.nodes[k].endpoints, Endpoint(h, kind, r, w));
    UndoneByRemoval(g, g1, k, n', |g.nodes[k].endpoints|);
  }

  // ---- Nodes ----

  /** The node that a registration lists and, with polling, inspects. */
  function Candidate(g: Graph, name: string, ns: Option<string>, p: Option<Participant>): Node {
    var h := Handles.Allocate(NodeHandles(g.nodes), g.nodeHandleNext, Handles.INT_MAX).0;
    NewNode(if h.Some? then h.value else Handles.INVALID, name, ns, if p.Some? then p.value else g.graphParticipant)
  }

  /** The names that a node may have: one of 1 to 256 characters that no listed
      node has in the same namespace, which is absent, and then "/", or has 1 to
      256 characters. */
  ghost predicate NamesAreFree(g: Graph, name: Option<string>, ns: Option<string>) {
    && name.Some? && 1 <= |name.value| <= 256 && (ns.Some? ==> 1 <= |ns.value| <= 256)
    && forall n :: n in g.nodes && n.name == name.value ==> n.ns != if ns.Some? then ns.value else "/"
  }

  lemma NamesAreFreeMeaning(g: Graph, name: Option<string>, ns: Option<string>)
    ensures NamesAreFree(g, name, ns)
       <==> (ValidNodeArguments(name, ns) && FindNodeByName(g.nodes, name.value, ns).None?)
  {
    if ValidNodeArguments(name, ns) {
      var found := FindNodeByName(g.nodes, name.value, ns);
      assert found.Some? ==> g.nodes[found.value] in g.nodes && NameMatches(g.nodes[found.value], name.value, ns);
      assert forall n :: NameMatches(n, name.value, ns) <==>
        n.name == name.value && n.ns == if ns.Some? then ns.value else "/";
    }
  }

  /** A node registration succeeds exactly when its names are free, every
      allocation succeeds and, with polling enabled, the inspection of the new
      node does. It returns -1 otherwise. */
  lemma RegisterNodeMeaning(g: Graph, name: Option<string>, ns: Option<string>, p: Option<Participant>,
                            res: Resources, c: Contents)
    requires GraphOk(g) && |g.nodes| <= Handles.INT_MAX - 2
    ensures var h := RegisterNode(g, name, ns, p, res, c).0;
      && (h >= 0 <==> (NamesAreFree(g, name, ns) && res.nodeBuffer && res.nameDup && res.namespaceDup
        && (g.polling ==> Inspect(Candidate(g, name.value, ns, p), c, res.endpointBuffers).Running?)))
      && (h < 0 ==> h == -1)
  {
    hide NodeOk, Inspect, NamesAreFree;
    NamesAreFreeMeaning(g, name, ns);
    if ValidNodeArguments(name, ns) {
      NodeHandlesSize(g.nodes);
      Handles.AllocateSucceeds(NodeHandles(g.nodes), g.nodeHandleNext);
      FreshHandle(NodeHandles(g.nodes), g.nodeHandleNext);
    }
  }

  lemma {:induction false} NodeHandlesSize(nodes: seq<Node>)
    ensures |NodeHandles(nodes)| <= |nodes|
  {
    if nodes == [] {
      assert NodeHandles(nodes) == {};
    } else {
      var rest := nodes[..|nodes| - 1];
      NodeHandlesSize(rest);
      assert nodes == rest + [nodes[|nodes| - 1]];
      assert NodeHandles(nodes) == NodeHandles(rest) + {nodes[|nodes| - 1].handle};
    }
  }

  /** What a successful registration leaves: node n more, at the back, and an
      update queued. */
  ghost predicate NodeListed(g: Graph, g': Graph, h: int, n: Node) {
    && g' == g.(nodes := g.nodes + [n], nodesLen := g.nodesLen + 1, nodeHandleNext := g'.nodeHandleNext,
                tokens := g.tokens + 1)
    && n.handle == h >= 0 && forall other :: other in g.nodes ==> other.handle != h
  }

  lemma LastNodeIsNew(g: Graph, g': Graph, n: Node)
    requires NodesOk(g'.nodes) && g'.nodes == g.nodes + [n]
    ensures n.handle >= 0 && forall other :: other in g.nodes ==> other.handle != n.handle
  {
    hide NodeOk;
    assert g'.nodes[|g.nodes|] == n;
    assert forall i :: 0 <= i < |g.nodes| ==> g'.nodes[i] == g.nodes[i];
  }

  /** The node has the names asked for, the root namespace if none is, and the
      participant asked for, the graph's own if none is; it has no endpoints but,
      with polling, those that an inspection finds. */
  lemma RegisteredNodeIsListed(g: Graph, name: Option<string>, ns: Option<string>, p: Option<Participant>,
                               res: Resources, c: Contents)
    requires GraphOk(g) && RegisterNode(g, name, ns, p, res, c).0 >= 0
    ensures var (h, g') := RegisterNode(g, name, ns, p, res, c);
      name.Some? && var n := Node(h, name.value, if ns.Some? then ns.value else "/",
                                  if p.Some? then p.value else g.graphParticipant, [], 0, 0, 0, 0, 0);
      if g.polling then
        var o := Inspect(n, c, res.endpointBuffers); o.Running? && NodeListed(g, g', h, o.scan.node)
      else NodeListed(g, g', h, n)
  {
    hide NodeOk, Inspect, Handles.Allocate, NameMatches;
    var (h, g') := RegisterNode(g, name, ns, p, res, c);
    var n := NewNode(h, name.value, ns, if p.Some? then p.value else g.graphParticipant);
    InspectKeepsOk(n, c, res.endpointBuffers);
    RegisterNodeKeepsOk(g, name, ns, p, res, c);
    LastNodeIsNew(g, g', if g.polling then Inspect(n, c, res.endpointBuffers).scan.node else n);
  }

  /** Unregistering a node undoes its registration, inspection included. */
  lemma UnregisterNodeUndoesRegister(g: Graph, name: Option<string>, ns: Option<string>, p: Option<Participant>,
                                     res: Resources, c: Contents)
    requires GraphOk(g) && RegisterNode(g, name, ns, p, res, c).0 >= 0
    ensures var (h, g') := RegisterNode(g, name, ns, p, res, c);
      UnregisterNode(g', h) == (Ok, g.(nodeHandleNext := g'.nodeHandleNext, tokens := g.tokens + 1))
  {
    hide RegisterNode, Inspect, NodeOk;
    var (h, g') := RegisterNode(g, name, ns, p, res, c);
    RegisterNodeKeepsOk(g, name, ns, p, res, c);
    RegisteredNodeIsListed(g, name, ns, p, res, c);
    FindNodeMeaning(g'.nodes, h, |g.nodes|);
    assert RemoveAt(g'.nodes, |g.nodes|) == g.nodes;
  }
}
