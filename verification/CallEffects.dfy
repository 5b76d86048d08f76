/** What each call on listed nodes returns and leaves behind, in terms of what is
    listed, and exactly when it queues an update. Registrations are in module
    RoundTrips. */
module CallEffects {
  import opened Common
  import opened Naming
  import opened Registry
  import opened RegistryInvariants
  import opened RoundTrips
  import Handles

  /** Node k has the handle. */
  predicate IsNodeAt(g: Graph, k: nat, node: int) {
    k < |g.nodes| && g.nodes[k].handle == node
  }

  lemma NodeIsFound(g: Graph, node: int)
    requires GraphOk(g)
    ensures forall k: nat :: FindNode(g.nodes, node) == Some(k) <==> IsNodeAt(g, k, node)
  {
    hide NodeOk;
    forall k: nat | IsNodeAt(g, k, node)
      ensures FindNode(g.nodes, node) == Some(k)
    {
      FindNodeMeaning(g.nodes, node, k);
    }
  }

  /** No other node has it. */
  ghost predicate OnlyNode(g: Graph, k: nat, node: int) {
    k < |g.nodes| && forall n :: n in g.nodes && n.handle == node ==> n == g.nodes[k]
  }

  lemma OnlyOneNode(g: Graph, k: nat, node: int)
    requires GraphOk(g) && IsNodeAt(g, k, node)
    ensures OnlyNode(g, k, node) && g.nodes[k] in g.nodes
  {
    hide NodeOk;
  }

  /** The test of the lookup by topic: of the reader's topic, or, when a writer is
      looked for, of the writer's if there is one. */
  lemma TopicMatchesMeaning(e: Endpoint, topic: string)
    ensures TopicMatches(e, topic, false) <==> e.reader.Some? && e.reader.value.topic == topic
    ensures TopicMatches(e, topic, true) <==>
      || (e.writer.Some? && e.writer.value.topic == topic)
      || (e.writer.None? && e.reader.Some? && e.reader.value.topic == topic)
  {}

  // ---- Unregistrations ----

  /** The node with the handle is taken off the list, with all its endpoints, and
      nothing is queued; an unknown handle is a bad parameter and changes nothing. */
  lemma UnregisterNodeMeaning(g: Graph, node: int)
    requires GraphOk(g)
    ensures var (rc, g') := UnregisterNode(g, node);
      && (rc == Ok <==> exists n :: n in g.nodes && n.handle == node)
      && (forall k: nat :: IsNodeAt(g, k, node) ==>
        g' == g.(nodes := g.nodes[..k] + g.nodes[k + 1..], nodesLen := g.nodesLen - 1))
      && (rc != Ok ==> rc == BadParameter && g' == g)
  {
    hide GraphOk;
    NodeIsFound(g, node);
    forall k: nat | IsNodeAt(g, k, node)
      ensures RemoveAt(g.nodes, k) == g.nodes[..k] + g.nodes[k + 1..]
    {
      RemoveAtIsConcat(g.nodes, k);
    }
  }

  /** Endpoint i of node k is gone, the counters are lower by what it had, and an
      update is queued; nothing else has changed. */
  ghost predicate EndpointGone(g: Graph, g': Graph, k: nat, i: nat)
    requires k < |g.nodes| && i < |g.nodes[k].endpoints|
  {
    && |g'.nodes| == |g.nodes| && g' == g.(nodes := g.nodes[k := g'.nodes[k]], tokens := g.tokens + 1)
    && var n, e := g.nodes[k], g.nodes[k].endpoints[i];
    g'.nodes[k] == n.(endpoints := n.endpoints[..i] + n.endpoints[i + 1..], endpointsLen := n.endpointsLen - 1,
                      readersLen := n.readersLen - (if e.reader.Some? then 1 else 0),
                      writersLen := n.writersLen - (if e.writer.Some? then 1 else 0))
  }

  lemma RemovedEndpointIsGone(g: Graph, k: nat, i: nat)
    requires k < |g.nodes| && i < |g.nodes[k].endpoints|
    ensures EndpointGone(g, QueueUpdate(RemoveEndpointAt(g, k, i)), k, i)
  {
    RemoveAtIsConcat(g.nodes[k].endpoints, i);
  }

  /** The first endpoint of the node that has each of the given entities. */
  ghost predicate IsFirstWithAll(es: seq<Endpoint>, i: nat, r: Option<Reader>, w: Option<Writer>) {
    i < |es| && HasAll(es[i], r, w) && forall j :: 0 <= j < i ==> !HasAll(es[j], r, w)
  }

  /** The node with the handle has such an endpoint. */
  ghost predicate NodeHasAll(g: Graph, node: int, r: Option<Reader>, w: Option<Writer>) {
    exists n, e :: n in g.nodes && n.handle == node && e in n.endpoints && HasAll(e, r, w)
  }

  ghost predicate NodeHasHandle(g: Graph, node: int, handle: int) {
    exists n, e :: n in g.nodes && n.handle == node && e in n.endpoints && e.handle == handle
  }

  ghost predicate NodeRunsThrough(g: Graph, node: int, c: Contents, buffers: nat) {
    exists n :: n in g.nodes && n.handle == node && Inspect(n, c, buffers).Running?
  }

  /** Unregistering by entities takes exactly the first endpoint that has all of
      them off the list; an unknown node, or one that has no such endpoint, is a
      bad parameter and changes nothing. */
  lemma UnregisterEndpointMeaning(g: Graph, node: int, r: Option<Reader>, w: Option<Writer>)
    requires GraphOk(g)
    ensures var (rc, g') := UnregisterEndpoint(g, node, r, w);
      && (rc == Ok <==> NodeHasAll(g, node, r, w))
      && (rc == Ok ==> exists k: nat, i: nat ::
        IsNodeAt(g, k, node) && IsFirstWithAll(g.nodes[k].endpoints, i, r, w) && EndpointGone(g, g', k, i))
      && (rc != Ok ==> rc == BadParameter && g' == g)
  {
    hide GraphOk, EndpointGone;
    NodeIsFound(g, node);
    var found := FindNode(g.nodes, node);
    if found.Some? {
      var k, es := found.value, g.nodes[found.value].endpoints;
      assert IsNodeAt(g, k, node) && OnlyNode(g, k, node) by { OnlyOneNode(g, k, node); }
      assert forall e :: EntitiesMatch(e, r, w) <==> HasAll(e, r, w);
      var i := FindByEntities(es, r, w);
      if i.Some? {
        assert es[i.value] in es && IsFirstWithAll(es, i.value, r, w);
        RemovedEndpointIsGone(g, k, i.value);
      }
    }
  }

  predicate HandleAt(es: seq<Endpoint>, i: nat, handle: int) {
    i < |es| && es[i].handle == handle
  }

  /** Unregistering by handle takes exactly the endpoint with that handle off the
      list, whatever its type. */
  lemma UnregisterByHandleMeaning(g: Graph, node: int, handle: int)
    requires GraphOk(g)
    ensures var (rc, g') := UnregisterEndpointByHandle(g, node, handle);
      && (rc == Ok <==> NodeHasHandle(g, node, handle))
      && (rc == Ok ==> exists k: nat, i: nat ::
        IsNodeAt(g, k, node) && HandleAt(g.nodes[k].endpoints, i, handle) && EndpointGone(g, g', k, i))
      && (rc != Ok ==> rc == BadParameter && g' == g)
  {
    hide GraphOk, EndpointGone;
    NodeIsFound(g, node);
    var found := FindNode(g.nodes, node);
    if found.Some? {
      var k, es := found.value, g.nodes[found.value].endpoints;
      assert IsNodeAt(g, k, node) && OnlyNode(g, k, node) by { OnlyOneNode(g, k, node); }
      var i := FindEndpoint(es, handle);
      if i.Some? {
        assert es[i.value] in es;
        RemovedEndpointIsGone(g, k, i.value);
      }
    }
  }

  // ---- Inspections ----

  /** An inspection of a node succeeds exactly when the node is listed and the
      inspection of its participant runs through, and exactly then an update is
      queued. Either way the node keeps what the inspection made of it, and no
      other node changes. */
  lemma InspectNodeMeaning(g: Graph, node: int, c: Contents, buffers: nat)
    requires GraphOk(g)
    ensures var (rc, g') := InspectNode(g, node, c, buffers);
      && (rc == Ok <==> NodeRunsThrough(g, node, c, buffers))
      && (rc != Ok ==> rc == Error)
      && g' == g.(nodes := g'.nodes, tokens := g.tokens + (if rc == Ok then 1 else 0))
      && |g'.nodes| == |g.nodes|
      && forall k :: 0 <= k < |g.nodes| ==>
        var n := g.nodes[k]; g'.nodes[k] == if n.handle == node then OutcomeNode(Inspect(n, c, buffers)) else n
  {
    hide GraphOk, Inspect;
    NodeIsFound(g, node);
    assert forall k: nat :: k < |g.nodes| && g.nodes[k].handle == node ==> IsNodeAt(g, k, node);
  }

  /** A poll makes of every node what its inspection makes of it, whether or not
      that succeeds, and queues nothing. */
  lemma PollMeaning(g: Graph, view: Participant -> Contents, budget: nat -> nat)
    ensures var g' := Poll(g, view, budget);
      && g' == g.(nodes := g'.nodes) && |g'.nodes| == |g.nodes|
      && forall k :: 0 <= k < |g.nodes| ==>
        g'.nodes[k] == OutcomeNode(Inspect(g.nodes[k], view(g.nodes[k].participant), budget(k)))
  {}

  // ---- Which operations queue an update ----

  /** A node registration that gets as far as listing the node. */
  ghost predicate ListsNode(g: Graph, name: Option<string>, ns: Option<string>, res: Resources) {
    NamesAreFree(g, name, ns) && res.nodeBuffer && res.nameDup && res.namespaceDup
  }

  /** What a call must meet to queue an update: a node registration must list the
      node, even if its inspection fails afterwards; an endpoint registration and
      an unregistration must succeed; an inspection must run through. Unregistering
      a node and polling never queue. */
  ghost predicate ShouldQueue(g: Graph, op: Op) {
    match op
    case OpRegisterNode(name, ns, _, res, _) => ListsNode(g, name, ns, res)
    case OpUnregisterNode(_) => false
    case OpRegisterEndpoint(node, kind, r, w, buffer) =>
      && ((kind == Subscription && r.Some? && w.None?) || (kind == Publisher && r.None? && w.Some?)
        || ((kind == Client || kind == Service) && r.Some? && w.Some?))
      && buffer && exists k :: TakesEndpoint(g, k, node, kind, r, w)
    case OpUnregisterEndpoint(node, r, w) => NodeHasAll(g, node, r, w)
    case OpUnregisterEndpointByHandle(node, handle) => NodeHasHandle(g, node, handle)
    case OpInspectNode(node, c, buffers) => NodeRunsThrough(g, node, c, buffers)
    case OpPoll(_, _) => false
  }

  /** Handles are left for a node and for an endpoint of every node. */
  ghost predicate HandlesLeft(g: Graph) {
    |g.nodes| <= Handles.INT_MAX - 2 && forall k :: 0 <= k < |g.nodes| ==> |g.nodes[k].endpoints| <= Handles.INT_MAX - 2
  }

  lemma NodeRegistrationTokens(g: Graph, name: Option<string>, ns: Option<string>, p: Option<Participant>,
                               res: Resources, c: Contents)
    requires GraphOk(g) && |g.nodes| <= Handles.INT_MAX - 2
    ensures RegisterNode(g, name, ns, p, res, c).1.tokens == g.tokens + if ListsNode(g, name, ns, res) then 1 else 0
  {
    hide Inspect, NodeOk, Handles.Allocate;
    NamesAreFreeMeaning(g, name, ns);
    if ValidNodeArguments(name, ns) {
      NodeHandlesSize(g.nodes);
      Handles.AllocateSucceeds(NodeHandles(g.nodes), g.nodeHandleNext);
    }
  }

  /** Every operation queues exactly one update if it should, and none otherwise. */
  lemma QueuesExactlyWhenItShould(g: Graph, op: Op)
    requires GraphOk(g) && HandlesLeft(g)
    ensures Apply(g, op).tokens == g.tokens + if ShouldQueue(g, op) then 1 else 0
  {
    hide GraphOk, Inspect, RegisterNode, RegisterEndpoint, UnregisterEndpoint, UnregisterEndpointByHandle, InspectNode,
      Listed, EndpointGone, NamesAreFree, TakesEndpoint, HasAll;
    match op
    case OpRegisterNode(name, ns, p, res, c) => NodeRegistrationTokens(g, name, ns, p, res, c);
    case OpUnregisterNode(_) =>
    case OpRegisterEndpoint(node, kind, r, w, buffer) =>
      RegisterEndpointMeaning(g, node, kind, r, w, buffer);
      ListedQueues(g, Apply(g, op));
    case OpUnregisterEndpoint(node, r, w) =>
      UnregisterEndpointMeaning(g, node, r, w);
      GoneQueues(g, Apply(g, op));
    case OpUnregisterEndpointByHandle(node, handle) =>
      UnregisterByHandleMeaning(g, node, handle);
      GoneQueues(g, Apply(g, op));
    case OpInspectNode(node, c, buffers) => InspectNodeMeaning(g, node, c, buffers);
    case OpPoll(_, _) =>
  }

  lemma ListedQueues(g: Graph, g': Graph)
    ensures (exists k, e :: Listed(g, g', k, e)) ==> g'.tokens == g.tokens + 1
  {}

  lemma GoneQueues(g: Graph, g': Graph)
    ensures (exists k: nat, i: nat :: k < |g.nodes| && i < |g.nodes[k].endpoints| && EndpointGone(g, g', k, i)) ==>
      g'.tokens == g.tokens + 1
  {}
}
