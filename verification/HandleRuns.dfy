/** Handles along whole runs: until its counter first wraps, an allocator issues
    0, 1, 2, ... on first probes, so that no handle is ever issued twice, not
    even after its object was removed. */
module HandleRuns {
  import opened Common
  import opened Naming
  import opened Registry
  import opened RegistryInvariants
  import Handles

  // ---- One allocator ----

  /** Waste is an allocation whose registration fails later on. */
  datatype Step = Issue | Waste | Retire(handle: int)

  datatype Allocator = Allocator(live: set<int>, next: int)

  const START := Allocator({}, 0)

  function Next(a: Allocator): (Option<int>, int) {
    Handles.Allocate(a.live, a.next, Handles.INT_MAX)
  }

  function Take(a: Allocator, s: Step): Allocator {
    match s
    case Retire(h) => a.(live := a.live - {h})
    case Waste => a.(next := Next(a).1)
    case Issue =>
      var (h, next) := Next(a);
      Allocator(if h.Some? then a.live + {h.value} else a.live, next)
  }

  /** An allocator after a run of steps, latest step last. */
  function TakeAll(a: Allocator, steps: seq<Step>): Allocator {
    if steps == [] then a else Take(TakeAll(a, steps[..|steps| - 1]), steps[|steps| - 1])
  }

  function After(steps: seq<Step>): Allocator {
    TakeAll(START, steps)
  }

  lemma {:induction false} TakeAllConcat(a: Allocator, s: seq<Step>, t: seq<Step>)
    ensures TakeAll(a, s + t) == TakeAll(TakeAll(a, s), t)
  {
    if t == [] {
      assert s + t == s;
    } else {
      assert (s + t)[..|s + t| - 1] == s + t[..|t| - 1];
      TakeAllConcat(a, s, t[..|t| - 1]);
    }
  }

  /** How many searches a run contains. */
  function Searches(steps: seq<Step>): nat {
    Count(steps, (s: Step) => !s.Retire?)
  }

  lemma SearchesSnoc(steps: seq<Step>)
    requires steps != []
    ensures var last := steps[|steps| - 1];
      Searches(steps) == Searches(steps[..|steps| - 1]) + if last.Retire? then 0 else 1
  {
    var p := (s: Step) => !s.Retire?;
    var last := steps[|steps| - 1];
    assert steps == steps[..|steps| - 1] + [last];
    CountConcat(steps[..|steps| - 1], [last], p);
    assert Count([last], p) == if p(last) then 1 else 0;
  }

  lemma {:induction false} CounterCountsSearches(steps: seq<Step>)
    requires Searches(steps) <= Handles.INT_MAX + 1
    ensures After(steps).next == if Searches(steps) > Handles.INT_MAX then Handles.INT_MIN else Searches(steps)
    ensures forall h :: h in After(steps).live ==> h < Searches(steps)
  {
    if steps != [] {
      var before := steps[..|steps| - 1];
      SearchesSnoc(steps);
      CounterCountsSearches(before);
      if !steps[|steps| - 1].Retire? {
        Handles.AllocateFirstProbe(After(before).live, After(before).next);
      }
    }
  }

  /** Until the wrap, the search at position i of a run ends on its first probe,
      with the number of searches before it as the handle. */
  lemma HandleIsSearchCount(steps: seq<Step>, i: nat)
    requires i < |steps| && !steps[i].Retire? && Searches(steps[..i]) <= Handles.INT_MAX
    ensures Next(After(steps[..i])).0 == Some(Searches(steps[..i]))
    ensures Handles.Allocate(After(steps[..i]).live, After(steps[..i]).next, 1) == Next(After(steps[..i]))
  {
    CounterCountsSearches(steps[..i]);
    Handles.AllocateFirstProbe(After(steps[..i]).live, After(steps[..i]).next);
  }

  lemma SearchesConcat(s: seq<Step>, t: seq<Step>)
    ensures Searches(s + t) == Searches(s) + Searches(t)
  {
    CountConcat(s, t, (x: Step) => !x.Retire?);
  }

  /** What is issued later is at least the number of the searches made before. */
  lemma {:induction false} NewHandlesAreLater(steps: seq<Step>, more: seq<Step>)
    requires Searches(steps + more) <= Handles.INT_MAX + 1
    ensures forall h :: h in After(steps + more).live && h !in After(steps).live ==> h >= Searches(steps)
  {
    var all := steps + more;
    if more == [] {
      assert all == steps;
    } else {
      var before, last := more[..|more| - 1], more[|more| - 1];
      assert all[..|all| - 1] == steps + before && all[|all| - 1] == last;
      SearchesSnoc(all);
      SearchesConcat(steps, before);
      NewHandlesAreLater(steps, before);
      CounterCountsSearches(steps + before);
      if last.Issue? {
        Handles.AllocateFirstProbe(After(steps + before).live, After(steps + before).next);
      }
    }
  }

  lemma {:induction false} SearchesGrow(steps: seq<Step>, i: nat, j: nat)
    requires i < j <= |steps| && !steps[i].Retire?
    ensures Searches(steps[..i]) < Searches(steps[..j])
    decreases j
  {
    assert steps[..j][..j - 1] == steps[..j - 1];
    SearchesSnoc(steps[..j]);
    if i < j - 1 {
      SearchesGrow(steps, i, j - 1);
    }
  }

  /** Every handle issued before the wrap exceeds every handle issued earlier,
      whether or not that one was retired in between. */
  lemma HandlesIncrease(steps: seq<Step>, i: nat, j: nat)
    requires i < j < |steps| && !steps[i].Retire? && !steps[j].Retire?
    requires Searches(steps[..j]) <= Handles.INT_MAX
    ensures Next(After(steps[..i])).0.Some? && Next(After(steps[..j])).0.Some?
    ensures Next(After(steps[..i])).0.value < Next(After(steps[..j])).0.value
  {
    SearchesGrow(steps, i, j);
    HandleIsSearchCount(steps, i);
    HandleIsSearchCount(steps, j);
  }

  /** The bound is sharp: right after the wrap, handle 0 is issued again as
      soon as its object is gone. */
  lemma WrapReissues(a: Allocator)
    requires a.next == Handles.INT_MIN && 0 !in a.live
    ensures Next(a) == (Some(0), 0)
  {
    Handles.ProbeMeaning(a.next);
  }

  // ---- Node handles ----

  function NodeAllocator(g: Graph): Allocator {
    Allocator(NodeHandles(g.nodes), g.nodeHandleNext)
  }

  /** The handle that an operation returns, for a successful registration. */
  function IssuedBy(g: Graph, op: Op): Option<int> {
    match op
    case OpRegisterNode(name, ns, p, res, c) =>
      var h := RegisterNode(g, name, ns, p, res, c).0;
      if h == Handles.INVALID then None else Some(h)
    case _ => None
  }

  /** What an operation does to the allocator of node handles. */
  function NodeOpSteps(g: Graph, op: Op): seq<Step> {
    match op
    case OpRegisterNode(name, ns, _, _, _) =>
      if !ValidNodeArguments(name, ns) || FindNodeByName(g.nodes, name.value, ns).Some? then []
      else if IssuedBy(g, op).Some? then [Issue] else [Waste]
    case OpUnregisterNode(node) => if FindNode(g.nodes, node).Some? then [Retire(node)] else []
    case _ => []
  }

  lemma OneStep(a: Allocator, s: Step)
    ensures TakeAll(a, [s]) == Take(a, s)
  {
    assert [s][..0] == [];
  }

  lemma NoSteps(a: Allocator)
    ensures TakeAll(a, []) == a
  {}

  lemma HandlesAfterAppend(nodes: seq<Node>, n: Node)
    ensures NodeHandles(nodes + [n]) == NodeHandles(nodes) + {n.handle}
  {
    var all := nodes + [n];
    assert all[|nodes|] == n && n in all;
    forall m | m in nodes
      ensures m in all
    {
      var i :| 0 <= i < |nodes| && nodes[i] == m;
      assert all[i] == m;
    }
    assert forall m :: m in all ==> m in nodes || m == n;
  }

  lemma HandlesAfterRemoval(nodes: seq<Node>, k: nat)
    requires NodesOk(nodes) && k < |nodes|
    ensures NodeHandles(RemoveAt(nodes, k)) == NodeHandles(nodes) - {nodes[k].handle}
  {
    hide NodeOk;
    var rest := RemoveAt(nodes, k);
    RemoveAtElements(nodes, k);
    forall m | m in nodes && m.handle != nodes[k].handle
      ensures m in rest
    {
      var i :| 0 <= i < |nodes| && nodes[i] == m;
      assert rest[if i < k then i else i - 1] == m;
    }
    forall m | m in rest
      ensures m in nodes && m.handle != nodes[k].handle
    {
      var i :| 0 <= i < |rest| && rest[i] == m;
      assert nodes[if i < k then i else i + 1] == m;
    }
  }

  lemma RegistrationTakes(g: Graph, op: Op)
    requires GraphOk(g) && op.OpRegisterNode?
    ensures NodeAllocator(Apply(g, op)) == TakeAll(NodeAllocator(g), NodeOpSteps(g, op))
    ensures IssuedBy(g, op).Some? ==> IssuedBy(g, op) == Next(NodeAllocator(g)).0 && NodeOpSteps(g, op) == [Issue]
  {
    hide NodeOk, NodeHandles, Inspect, NameMatches, Handles.Allocate, TakeAll;
    NoSteps(NodeAllocator(g));
    OneStep(NodeAllocator(g), Issue);
    OneStep(NodeAllocator(g), Waste);
    if ValidNodeArguments(op.name, op.ns) && FindNodeByName(g.nodes, op.name.value, op.ns).None? {
      var h := Next(NodeAllocator(g)).0;
      FreshHandle(NodeHandles(g.nodes), g.nodeHandleNext);
      if h.Some? {
        var n := NewNode(h.value, op.name.value, op.ns,
                         if op.participant.Some? then op.participant.value else g.graphParticipant);
        var n' := OutcomeNode(Inspect(n, op.contents, op.res.endpointBuffers));
        InspectKeepsOk(n, op.contents, op.res.endpointBuffers);
        HandlesAfterAppend(g.nodes, n);
        HandlesAfterAppend(g.nodes, n');
      }
    }
  }

  lemma SameHandles(nodes: seq<Node>, nodes': seq<Node>)
    requires |nodes'| == |nodes| && forall k :: 0 <= k < |nodes| ==> nodes'[k].handle == nodes[k].handle
    ensures NodeHandles(nodes') == NodeHandles(nodes)
  {
    assert forall h :: h in NodeHandles(nodes) <==> exists k :: 0 <= k < |nodes| && nodes[k].handle == h;
    assert forall h :: h in NodeHandles(nodes') <==> exists k :: 0 <= k < |nodes'| && nodes'[k].handle == h;
  }

  lemma EndpointOpsKeepHandles(g: Graph, op: Op)
    requires op.OpRegisterEndpoint? || op.OpUnregisterEndpoint? || op.OpUnregisterEndpointByHandle?
    ensures Apply(g, op).nodeHandleNext == g.nodeHandleNext && |Apply(g, op).nodes| == |g.nodes|
    ensures forall k :: 0 <= k < |g.nodes| ==> Apply(g, op).nodes[k].handle == g.nodes[k].handle
  {
    hide AddEndpoint, EntitiesMatch;
    match op
    case OpRegisterEndpoint(node, kind, r, w, buffer) =>
      var k := FindNode(g.nodes, node);
      if k.Some? {
        AddEndpointIdentity(g.nodes[k.value], kind, r, w, buffer);
      }
    case OpUnregisterEndpoint(_, _, _) =>
    case OpUnregisterEndpointByHandle(_, _) =>
  }

  /** The other operations do not touch the handles of nodes. */
  lemma OthersKeepHandles(g: Graph, op: Op)
    requires GraphOk(g) && !op.OpRegisterNode? && !op.OpUnregisterNode?
    ensures NodeAllocator(Apply(g, op)) == NodeAllocator(g)
  {
    hide GraphOk, NodeHandles;
    if op.OpInspectNode? || op.OpPoll? {
      InspectionsKeepIdentity(g, op);
    } else {
      EndpointOpsKeepHandles(g, op);
    }
    SameHandles(g.nodes, Apply(g, op).nodes);
  }

  lemma NodeOpTakes(g: Graph, op: Op)
    requires GraphOk(g)
    ensures NodeAllocator(Apply(g, op)) == TakeAll(NodeAllocator(g), NodeOpSteps(g, op))
  {
    match op
    case OpRegisterNode(_, _, _, _, _) => RegistrationTakes(g, op);
    case OpUnregisterNode(node) =>
      OneStep(NodeAllocator(g), Retire(node));
      if FindNode(g.nodes, node).Some? {
        HandlesAfterRemoval(g.nodes, FindNode(g.nodes, node).value);
      }
    case _ => OthersKeepHandles(g, op);
  }

  /** The allocator steps of a whole run. */
  function NodeSteps(g: Graph, ops: seq<Op>): seq<Step> {
    if ops == [] then []
    else
      var before := ops[..|ops| - 1];
      NodeSteps(g, before) + NodeOpSteps(Run(g, before), ops[|ops| - 1])
  }

  /** The registry runs its allocator of node handles through those steps. */
  lemma {:induction false} NodeRunTakes(g: Graph, ops: seq<Op>)
    requires GraphOk(g)
    ensures GraphOk(Run(g, ops)) && NodeAllocator(Run(g, ops)) == TakeAll(NodeAllocator(g), NodeSteps(g, ops))
  {
    if ops != [] {
      var before, op := ops[..|ops| - 1], ops[|ops| - 1];
      NodeRunTakes(g, before);
      NodeOpTakes(Run(g, before), op);
      ApplyKeepsOk(Run(g, before), op);
      TakeAllConcat(NodeAllocator(g), NodeSteps(g, before), NodeOpSteps(Run(g, before), op));
    }
  }

  lemma {:induction false} NodeSearchesGrow(g: Graph, ops: seq<Op>, i: nat, j: nat)
    requires i <= j <= |ops|
    ensures Searches(NodeSteps(g, ops[..i])) <= Searches(NodeSteps(g, ops[..j]))
    decreases j
  {
    hide Apply, Run, NodeOpSteps, Searches;
    if i < j {
      assert ops[..j][..j - 1] == ops[..j - 1];
      NodeSearchesGrow(g, ops, i, j - 1);
      SearchesConcat(NodeSteps(g, ops[..j - 1]), NodeOpSteps(Run(g, ops[..j - 1]), ops[j - 1]));
    }
  }

  /** The handle issued by operation i of a run. */
  function IssuedAt(g: Graph, ops: seq<Op>, i: nat): Option<int>
    requires i < |ops|
  {
    IssuedBy(Run(g, ops[..i]), ops[i])
  }

  lemma EmptyAllocator(p: Participant, polling: bool)
    ensures GraphOk(Empty(p, polling)) && NodeAllocator(Empty(p, polling)) == START
  {}

  /** Up to the wrap it is the number of node searches made before. */
  lemma IssuedIsSearchCount(p: Participant, polling: bool, ops: seq<Op>, i: nat)
    requires i < |ops| && IssuedAt(Empty(p, polling), ops, i).Some?
    requires Searches(NodeSteps(Empty(p, polling), ops[..i])) <= Handles.INT_MAX
    ensures var steps := NodeSteps(Empty(p, polling), ops[..i]);
      && IssuedAt(Empty(p, polling), ops, i) == Some(Searches(steps))
      && Searches(NodeSteps(Empty(p, polling), ops[..i + 1])) == Searches(steps) + 1
  {
    hide GraphOk, Apply, Run, RegisterNode, NodeOpSteps, NodeHandles, TakeAll, Handles.Allocate;
    var g := Empty(p, polling);
    var steps := NodeSteps(g, ops[..i]);
    EmptyAllocator(p, polling);
    NodeRunTakes(g, ops[..i]);
    RegistrationTakes(Run(g, ops[..i]), ops[i]);
    CounterCountsSearches(steps);
    Handles.AllocateFirstProbe(After(steps).live, After(steps).next);
    assert ops[..i + 1][..i] == ops[..i];
    SearchesConcat(steps, [Issue]);
    assert Searches([Issue]) == 1;
  }

  /** In every run from the empty graph, of operations of any kind and in any
      order, node handles only ever increase up to the wrap, that is, as long as
      at most INT_MAX searches for a node handle come before: no handle is
      issued again after its node was unregistered. */
  lemma NodeHandlesIncrease(p: Participant, polling: bool, ops: seq<Op>, i: nat, j: nat)
    requires i < j < |ops| && Searches(NodeSteps(Empty(p, polling), ops[..j])) <= Handles.INT_MAX
    requires IssuedAt(Empty(p, polling), ops, i).Some? && IssuedAt(Empty(p, polling), ops, j).Some?
    ensures IssuedAt(Empty(p, polling), ops, i).value < IssuedAt(Empty(p, polling), ops, j).value
  {
    var g := Empty(p, polling);
    NodeSearchesGrow(g, ops, i, j);
    NodeSearchesGrow(g, ops, i + 1, j);
    IssuedIsSearchCount(p, polling, ops, i);
    IssuedIsSearchCount(p, polling, ops, j);
  }

  // ---- Endpoint handles of one node ----

  function AllocatorOf(n: Node): Allocator {
    Allocator(EndpointHandles(n.endpoints), n.endpHandleNext)
  }

  function AddSteps(n: Node, kind: EndpointType, r: Option<Reader>, w: Option<Writer>, buffer: bool): seq<Step> {
    if !AcceptsEntities(n, kind, r, w) then [] else if buffer then [Issue] else [Waste]
  }

  lemma AddTakes(n: Node, kind: EndpointType, r: Option<Reader>, w: Option<Writer>, buffer: bool)
    ensures AllocatorOf(AddEndpoint(n, kind, r, w, buffer).1)
         == TakeAll(AllocatorOf(n), AddSteps(n, kind, r, w, buffer))
    ensures AddEndpoint(n, kind, r, w, buffer).0.Some? ==>
      AddEndpoint(n, kind, r, w, buffer).0 == Next(AllocatorOf(n)).0 && AddSteps(n, kind, r, w, buffer) == [Issue]
  {
    OneStep(AllocatorOf(n), Issue);
    OneStep(AllocatorOf(n), Waste);
    var h := Next(AllocatorOf(n)).0;
    if h.Some? {
      EndpointHandlesAfterAppend(n.endpoints, Endpoint(h.value, kind, r, w));
    }
  }

  lemma EndpointHandlesAfterAppend(es: seq<Endpoint>, e: Endpoint)
    ensures EndpointHandles(es + [e]) == EndpointHandles(es) + {e.handle}
  {
    var all := es + [e];
    assert all[|es|] == e && e in all;
    forall m | m in es
      ensures m in all
    {
      var i :| 0 <= i < |es| && es[i] == m;
      assert all[i] == m;
    }
    assert forall m :: m in all ==> m in es || m == e;
  }

  lemma RemoveTakes(n: Node, i: nat)
    requires EndpointsOk(n.endpoints) && i < |n.endpoints|
    ensures AllocatorOf(RemoveEndpoint(n, i)) == TakeAll(AllocatorOf(n), [Retire(n.endpoints[i].handle)])
  {
    hide EndpointOk, TakeAll;
    OneStep(AllocatorOf(n), Retire(n.endpoints[i].handle));
    var es, rest := n.endpoints, RemoveAt(n.endpoints, i);
    RemoveAtElements(es, i);
    forall m | m in es && m.handle != es[i].handle
      ensures m in rest
    {
      var j :| 0 <= j < |es| && es[j] == m;
      assert rest[if j < i then j else j - 1] == m;
    }
    forall m | m in rest
      ensures m in es && m.handle != es[i].handle
    {
      var j :| 0 <= j < |rest| && rest[j] == m;
      assert es[if j < i then j else j + 1] == m;
    }
  }

  lemma AttachTakesNothing(n: Node, i: nat, w: Writer)
    requires i < |n.endpoints|
    ensures AllocatorOf(AttachWriter(n, i, w)) == AllocatorOf(n)
  {
    var es, es' := n.endpoints, AttachWriter(n, i, w).endpoints;
    assert forall h :: h in EndpointHandles(es) <==> exists k :: 0 <= k < |es| && es[k].handle == h;
    assert forall h :: h in EndpointHandles(es') <==> exists k :: 0 <= k < |es'| && es'[k].handle == h;
    assert forall k :: 0 <= k < |es| ==> es'[k].handle == es[k].handle;
  }

  /** The steps of an inspection: one search per entity that it registers, the
      last of which may fail for want of a buffer. */
  function WriterSteps(s: Scan, w: Writer): seq<Step> {
    var kind := DetectEndpointType(w.topic, true);
    if FindByEntities(s.node.endpoints, None, Some(w)).Some? then []
    else if kind == Publisher || (IsServiceRole(kind) && FindByTopic(s.node.endpoints, w.topic, false).None?)
    then AddSteps(s.node, kind, None, Some(w), s.buffers > 0)
    else []
  }

  function ReaderSteps(s: Scan, r: Reader): seq<Step> {
    var kind := DetectEndpointType(r.topic, false);
    if FindByEntities(s.node.endpoints, Some(r), None).Some? then []
    else if kind == Subscription || (IsServiceRole(kind) && FindByTopic(s.node.endpoints, r.topic, false).None?)
    then AddSteps(s.node, kind, Some(r), None, s.buffers > 0)
    else []
  }

  function WritersSteps(s: Scan, events: seq<Option<Writer>>): seq<Step>
    decreases |events|
  {
    if events == [] || events[0].None? then []
    else
      WriterSteps(s, events[0].value) +
      match ScanWriter(s, events[0].value)
      case Running(s') => WritersSteps(s', events[1..])
      case Failed(_) => []
  }

  function ReadersSteps(s: Scan, events: seq<Option<Reader>>): seq<Step>
    decreases |events|
  {
    if events == [] || events[0].None? then []
    else
      ReaderSteps(s, events[0].value) +
      match ScanReader(s, events[0].value)
      case Running(s') => ReadersSteps(s', events[1..])
      case Failed(_) => []
  }

  function InspectSteps(n: Node, c: Contents, buffers: nat): seq<Step> {
    var s := Scan(n, false, buffers);
    WritersSteps(s, Events(c.publishers)) +
      match ScanWriters(s, Events(c.publishers))
      case Running(s') => ReadersSteps(s', Events(c.subscribers))
      case Failed(_) => []
  }

  lemma WriterTakes(s: Scan, w: Writer)
    ensures AllocatorOf(OutcomeNode(ScanWriter(s, w))) == TakeAll(AllocatorOf(s.node), WriterSteps(s, w))
  {
    AddTakes(s.node, DetectEndpointType(w.topic, true), None, Some(w), s.buffers > 0);
    var found := FindByTopic(s.node.endpoints, w.topic, false);
    if found.Some? {
      AttachTakesNothing(s.node, found.value, w);
    }
  }

  lemma ReaderTakes(s: Scan, r: Reader)
    ensures AllocatorOf(OutcomeNode(ScanReader(s, r))) == TakeAll(AllocatorOf(s.node), ReaderSteps(s, r))
  {
    AddTakes(s.node, DetectEndpointType(r.topic, false), Some(r), None, s.buffers > 0);
  }

  lemma {:induction false} WritersTake(s: Scan, events: seq<Option<Writer>>)
    ensures AllocatorOf(OutcomeNode(ScanWriters(s, events))) == TakeAll(AllocatorOf(s.node), WritersSteps(s, events))
    decreases |events|
  {
    if events != [] && events[0].Some? {
      var o := ScanWriter(s, events[0].value);
      WriterTakes(s, events[0].value);
      if o.Running? {
        WritersTake(o.scan, events[1..]);
        TakeAllConcat(AllocatorOf(s.node), WriterSteps(s, events[0].value), WritersSteps(o.scan, events[1..]));
      } else {
        assert WritersSteps(s, events) == WriterSteps(s, events[0].value);
      }
    }
  }

  lemma {:induction false} ReadersTake(s: Scan, events: seq<Option<Reader>>)
    ensures AllocatorOf(OutcomeNode(ScanReaders(s, events))) == TakeAll(AllocatorOf(s.node), ReadersSteps(s, events))
    decreases |events|
  {
    if events != [] && events[0].Some? {
      var o := ScanReader(s, events[0].value);
      ReaderTakes(s, events[0].value);
      if o.Running? {
        ReadersTake(o.scan, events[1..]);
        TakeAllConcat(AllocatorOf(s.node), ReaderSteps(s, events[0].value), ReadersSteps(o.scan, events[1..]));
      } else {
        assert ReadersSteps(s, events) == ReaderSteps(s, events[0].value);
      }
    }
  }

  lemma InspectTakes(n: Node, c: Contents, buffers: nat)
    ensures AllocatorOf(OutcomeNode(Inspect(n, c, buffers))) == TakeAll(AllocatorOf(n), InspectSteps(n, c, buffers))
  {
    var s := Scan(n, false, buffers);
    var o := ScanWriters(s, Events(c.publishers));
    WritersTake(s, Events(c.publishers));
    if o.Running? {
      ReadersTake(o.scan, Events(c.subscribers));
      TakeAllConcat(AllocatorOf(n), WritersSteps(s, Events(c.publishers)), ReadersSteps(o.scan, Events(c.subscribers)));
    } else {
      assert InspectSteps(n, c, buffers) == WritersSteps(s, Events(c.publishers));
    }
  }

  /** What an operation does to the allocator of node k of the list. */
  function EndpointOpSteps(g: Graph, op: Op, k: nat): seq<Step>
    requires k < |g.nodes|
  {
    var n := g.nodes[k];
    match op
    case OpRegisterEndpoint(node, kind, r, w, buffer) =>
      if node == n.handle && ShapeForApi(kind, r, w) then AddSteps(n, kind, r, w, buffer) else []
    case OpUnregisterEndpoint(node, r, w) =>
      var i := FindByEntities(n.endpoints, r, w);
      if node == n.handle && i.Some? then [Retire(n.endpoints[i.value].handle)] else []
    case OpUnregisterEndpointByHandle(node, endpoint) =>
      if node == n.handle && FindEndpoint(n.endpoints, endpoint).Some? then [Retire(endpoint)] else []
    case OpInspectNode(node, c, buffers) => if node == n.handle then InspectSteps(n, c, buffers) else []
    case OpPoll(view, budget) => InspectSteps(n, view(n.participant), budget(k))
    case _ => []
  }

  /** The operation takes those steps on node k and leaves its handle alone. */
  ghost predicate TakesSteps(g: Graph, op: Op, k: nat)
    requires k < |g.nodes|
  {
    var g' := Apply(g, op);
    && k < |g'.nodes| && g'.nodes[k].handle == g.nodes[k].handle
    && AllocatorOf(g'.nodes[k]) == TakeAll(AllocatorOf(g.nodes[k]), EndpointOpSteps(g, op, k))
  }

  lemma Targets(g: Graph, node: int, k: nat)
    requires GraphOk(g) && k < |g.nodes|
    ensures FindNode(g.nodes, node) == Some(k) <==> node == g.nodes[k].handle
  {
    FindNodeMeaning(g.nodes, node, k);
  }

  lemma EndpointRegistrationTakes(g: Graph, op: Op, k: nat)
    requires GraphOk(g) && k < |g.nodes| && op.OpRegisterEndpoint?
    ensures TakesSteps(g, op, k)
  {
    hide GraphOk, AddEndpoint, AddSteps, TakeAll;
    Targets(g, op.node, k);
    NoSteps(AllocatorOf(g.nodes[k]));
    AddTakes(g.nodes[k], op.kind, op.reader, op.writer, op.buffer);
    AddEndpointIdentity(g.nodes[k], op.kind, op.reader, op.writer, op.buffer);
  }

  lemma EndpointRemovalTakes(g: Graph, op: Op, k: nat)
    requires GraphOk(g) && k < |g.nodes| && (op.OpUnregisterEndpoint? || op.OpUnregisterEndpointByHandle?)
    ensures TakesSteps(g, op, k)
  {
    hide GraphOk, EndpointsOk, RemoveEndpoint, TakeAll;
    Targets(g, op.node, k);
    var n := g.nodes[k];
    var i := if op.OpUnregisterEndpoint? then FindByEntities(n.endpoints, op.reader, op.writer)
             else FindEndpoint(n.endpoints, op.endpoint);
    NoSteps(AllocatorOf(n));
    if i.Some? {
      assert EndpointsOk(n.endpoints) by { GraphNodeOk(g, k); }
      RemoveTakes(n, i.value);
      RemovalIdentity(n, i.value);
    }
  }

  lemma RemovalIdentity(n: Node, i: nat)
    requires i < |n.endpoints|
    ensures SameIdentity(n, RemoveEndpoint(n, i))
  {}

  lemma InspectionTakes(g: Graph, op: Op, k: nat)
    requires GraphOk(g) && k < |g.nodes| && (op.OpInspectNode? || op.OpPoll?)
    ensures TakesSteps(g, op, k)
  {
    hide GraphOk, InspectSteps, Inspect, TakeAll;
    var n := g.nodes[k];
    GraphNodeOk(g, k);
    NoSteps(AllocatorOf(n));
    match op
    case OpInspectNode(node, c, buffers) =>
      Targets(g, node, k);
      InspectTakes(n, c, buffers);
      InspectKeepsOk(n, c, buffers);
    case OpPoll(view, budget) =>
      InspectTakes(n, view(n.participant), budget(k));
      InspectKeepsOk(n, view(n.participant), budget(k));
  }

  lemma NodeRegistrationTakes(g: Graph, op: Op, k: nat)
    requires k < |g.nodes| && op.OpRegisterNode?
    ensures TakesSteps(g, op, k)
  {
    hide Inspect;
    NoSteps(AllocatorOf(g.nodes[k]));
  }

  lemma EndpointOpTakes(g: Graph, op: Op, k: nat)
    requires GraphOk(g) && k < |g.nodes| && !op.OpUnregisterNode?
    ensures TakesSteps(g, op, k)
  {
    hide GraphOk, TakesSteps;
    match op
    case OpRegisterNode(_, _, _, _, _) => NodeRegistrationTakes(g, op, k);
    case OpRegisterEndpoint(_, _, _, _, _) => EndpointRegistrationTakes(g, op, k);
    case OpUnregisterEndpoint(_, _, _) => EndpointRemovalTakes(g, op, k);
    case OpUnregisterEndpointByHandle(_, _) => EndpointRemovalTakes(g, op, k);
    case _ => InspectionTakes(g, op, k);
  }

  lemma AddEndpointIdentity(n: Node, kind: EndpointType, r: Option<Reader>, w: Option<Writer>, buffer: bool)
    ensures SameIdentity(n, AddEndpoint(n, kind, r, w, buffer).1)
  {}

  /** The node with a handle that is listed. */
  function NodeOf(g: Graph, node: int): Node
    requires FindNode(g.nodes, node).Some?
  {
    g.nodes[FindNode(g.nodes, node).value]
  }

  /** What an operation does to the allocator of the node with a handle. */
  function StepsFor(g: Graph, op: Op, node: int): seq<Step> {
    var k := FindNode(g.nodes, node);
    if k.None? then [] else EndpointOpSteps(g, op, k.value)
  }

  lemma RemovalTakesNothing(g: Graph, op: Op, k: nat)
    requires k < |g.nodes| && op.OpUnregisterNode?
    ensures EndpointOpSteps(g, op, k) == []
  {}

  lemma StepsForTake(g: Graph, op: Op, node: int)
    requires GraphOk(g) && FindNode(g.nodes, node).Some? && op != OpUnregisterNode(node)
    ensures FindNode(Apply(g, op).nodes, node).Some?
    ensures AllocatorOf(NodeOf(Apply(g, op), node)) == TakeAll(AllocatorOf(NodeOf(g, node)), StepsFor(g, op, node))
  {
    hide NodeOk, EndpointOpSteps;
    var k, g' := FindNode(g.nodes, node).value, Apply(g, op);
    ApplyKeepsOk(g, op);
    if op.OpUnregisterNode? {
      RemovalTakesNothing(g, op, k);
      var i := FindNode(g.nodes, op.node);
      var k' := if i.Some? && i.value < k then k - 1 else k;
      assert g'.nodes[k'] == g.nodes[k];
      FindNodeMeaning(g'.nodes, node, k');
    } else {
      EndpointOpTakes(g, op, k);
      FindNodeMeaning(g'.nodes, node, k);
    }
  }

  /** The allocator steps of one node along a run that leaves it listed. */
  function EndpointSteps(g: Graph, ops: seq<Op>, node: int): seq<Step> {
    if ops == [] then []
    else
      var before := ops[..|ops| - 1];
      EndpointSteps(g, before, node) + StepsFor(Run(g, before), ops[|ops| - 1], node)
  }

  /** Along every such run the node's endpoint handles are those of an allocator
      that takes these steps. */
  lemma {:induction false} EndpointRunTakes(g: Graph, ops: seq<Op>, node: int)
    requires GraphOk(g) && FindNode(g.nodes, node).Some? && OpUnregisterNode(node) !in ops
    ensures GraphOk(Run(g, ops)) && FindNode(Run(g, ops).nodes, node).Some?
    ensures AllocatorOf(NodeOf(Run(g, ops), node)) == TakeAll(AllocatorOf(NodeOf(g, node)), EndpointSteps(g, ops, node))
  {
    if ops != [] {
      var before, op := ops[..|ops| - 1], ops[|ops| - 1];
      EndpointRunTakes(g, before, node);
      ApplyKeepsOk(Run(g, before), op);
      StepsForTake(Run(g, before), op, node);
      TakeAllConcat(AllocatorOf(NodeOf(g, node)), EndpointSteps(g, before, node), StepsFor(Run(g, before), op, node));
    }
  }

  /** What a registration with polling has already done to its node's allocator. */
  function FirstSteps(g: Graph, op: Op): seq<Step>
    requires op.OpRegisterNode?
  {
    var h := Next(NodeAllocator(g)).0;
    if !g.polling || h.None? || op.name.None? then []
    else InspectSteps(NewNode(h.value, op.name.value, op.ns,
                              if op.participant.Some? then op.participant.value else g.graphParticipant),
                      op.contents, op.res.endpointBuffers)
  }

  lemma RegisteredAllocator(g: Graph, op: Op)
    requires GraphOk(g) && op.OpRegisterNode? && IssuedBy(g, op).Some?
    ensures GraphOk(Apply(g, op)) && FindNode(Apply(g, op).nodes, IssuedBy(g, op).value).Some?
    ensures AllocatorOf(NodeOf(Apply(g, op), IssuedBy(g, op).value)) == After(FirstSteps(g, op))
  {
    hide NodeOk, Inspect, InspectSteps, Handles.Allocate;
    var h, g' := IssuedBy(g, op).value, Apply(g, op);
    ApplyKeepsOk(g, op);
    RegistrationTakes(g, op);
    var n := NewNode(h, op.name.value, op.ns,
                     if op.participant.Some? then op.participant.value else g.graphParticipant);
    InspectKeepsOk(n, op.contents, op.res.endpointBuffers);
    InspectTakes(n, op.contents, op.res.endpointBuffers);
    assert AllocatorOf(n) == START;
    FindNodeMeaning(g'.nodes, h, |g.nodes|);
  }

  /** All searches for endpoint handles of a node since its registration. */
  function StepsSince(g: Graph, op: Op, ops: seq<Op>): seq<Step>
    requires op.OpRegisterNode? && IssuedBy(g, op).Some?
  {
    FirstSteps(g, op) + EndpointSteps(Apply(g, op), ops, IssuedBy(g, op).value)
  }

  lemma AllocatorSince(g: Graph, op: Op, ops: seq<Op>)
    requires GraphOk(g) && op.OpRegisterNode? && IssuedBy(g, op).Some?
    requires OpUnregisterNode(IssuedBy(g, op).value) !in ops
    ensures var g' := Run(Apply(g, op), ops);
      && GraphOk(g') && FindNode(g'.nodes, IssuedBy(g, op).value).Some?
      && AllocatorOf(NodeOf(g', IssuedBy(g, op).value)) == After(StepsSince(g, op, ops))
  {
    RegisteredAllocator(g, op);
    EndpointRunTakes(Apply(g, op), ops, IssuedBy(g, op).value);
    TakeAllConcat(START, FirstSteps(g, op), EndpointSteps(Apply(g, op), ops, IssuedBy(g, op).value));
  }

  /** The endpoint handles of the node at a point of the run. */
  function HandlesAt(g: Graph, op: Op, ops: seq<Op>, i: nat): set<int>
    requires op.OpRegisterNode? && IssuedBy(g, op).Some? && i <= |ops|
  {
    var now := Run(Apply(g, op), ops[..i]);
    var k := FindNode(now.nodes, IssuedBy(g, op).value);
    if k.None? then {} else EndpointHandles(now.nodes[k.value].endpoints)
  }

  lemma {:induction false} StepsSinceGrow(g: Graph, op: Op, ops: seq<Op>, i: nat, j: nat)
    requires op.OpRegisterNode? && IssuedBy(g, op).Some? && i <= j <= |ops|
    ensures Searches(StepsSince(g, op, ops[..i])) <= Searches(StepsSince(g, op, ops[..j]))
    decreases j
  {
    hide Apply, Run, IssuedBy, StepsSince, StepsFor, Searches;
    if i < j {
      var before := ops[..j - 1];
      StepsSinceGrow(g, op, ops, i, j - 1);
      StepsSinceSnoc(g, op, ops, j - 1);
      SearchesConcat(StepsSince(g, op, before), StepsFor(Run(Apply(g, op), before), ops[j - 1], IssuedBy(g, op).value));
    }
  }

  lemma StepsSinceSnoc(g: Graph, op: Op, ops: seq<Op>, j: nat)
    requires op.OpRegisterNode? && IssuedBy(g, op).Some? && j < |ops|
    ensures StepsSince(g, op, ops[..j + 1])
         == StepsSince(g, op, ops[..j]) + StepsFor(Run(Apply(g, op), ops[..j]), ops[j], IssuedBy(g, op).value)
  {
    hide Apply, Run, IssuedBy, StepsFor, FirstSteps;
    assert ops[..j + 1][..j] == ops[..j];
  }

  ghost predicate AllBelow(older: set<int>, newer: set<int>) {
    forall a, b :: a in older && b in newer ==> a < b
  }

  /** Along every run that follows the registration of a node and does not
      unregister it, and as long as at most INT_MAX + 1 searches for its
      endpoint handles have been made, every handle that operation j lists
      exceeds every handle that was listed at any point before: no handle is
      issued again after its endpoint was removed, by whatever mixture of
      registrations, inspections and polls. */
  lemma EndpointHandlesIncrease(g: Graph, op: Op, ops: seq<Op>, i: nat, j: nat)
    requires GraphOk(g) && op.OpRegisterNode? && IssuedBy(g, op).Some?
    requires OpUnregisterNode(IssuedBy(g, op).value) !in ops && i <= j < |ops|
    ensures Searches(StepsSince(g, op, ops[..j + 1])) <= Handles.INT_MAX + 1 ==>
      AllBelow(HandlesAt(g, op, ops, i), HandlesAt(g, op, ops, j + 1) - HandlesAt(g, op, ops, j))
  {
    hide GraphOk, Apply, Run, IssuedBy, StepsSince, StepsFor, Searches, EndpointHandles, TakeAll;
    if Searches(StepsSince(g, op, ops[..j + 1])) <= Handles.INT_MAX + 1 {
      var node, steps := IssuedBy(g, op).value, StepsSince(g, op, ops[..j]);
      AllocatorSince(g, op, ops[..i]);
      AllocatorSince(g, op, ops[..j]);
      AllocatorSince(g, op, ops[..j + 1]);
      StepsSinceGrow(g, op, ops, i, j);
      StepsSinceGrow(g, op, ops, j, j + 1);
      StepsSinceSnoc(g, op, ops, j);
      CounterCountsSearches(StepsSince(g, op, ops[..i]));
      NewHandlesAreLater(steps, StepsFor(Run(Apply(g, op), ops[..j]), ops[j], node));
    }
  }
}
