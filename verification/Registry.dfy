/** The registry of nodes and endpoints as a value, and what each operation of
    the C API does to it. The classes in module GraphObjects implement these
    functions in place. */
module Registry {
  import opened Common
  import opened Naming
  import Handles

  const MAX_NAME_LENGTH := 256
  const MAX_NAMESPACE_LENGTH := 256
  const ROOT_NAMESPACE := "/"

  datatype Endpoint = Endpoint(handle: int, kind: EndpointType, reader: Option<Reader>, writer: Option<Writer>)

  /** `writersLen` is a size_t in the source; it is unbounded here and can be
      negative where the source would wrap. `attaches` is a history variable:
      the number of attach steps ever taken on the node. */
  datatype Node = Node(handle: int, name: string, ns: string, participant: Participant,
                       endpoints: seq<Endpoint>, endpointsLen: int, writersLen: int, readersLen: int,
                       endpHandleNext: int, attaches: nat)

  /** `tokens` counts the updates queued on the semaphore. */
  datatype Graph = Graph(nodes: seq<Node>, nodesLen: int, nodeHandleNext: int, tokens: nat,
                         graphParticipant: Participant, polling: bool)

  // ---- Lookups: the first element that the cursor loop accepts ----

  /** The test that the lookup by name makes of a node's two name fields. */
  predicate NamesMatch(nodeName: string, nodeNs: string, name: string, ns: Option<string>) {
    nodeName == name
    && ((nodeNs == ROOT_NAMESPACE && (ns.None? || ns.value == ROOT_NAMESPACE))
        || (ns.Some? && nodeNs == ns.value))
  }

  predicate NameMatches(n: Node, name: string, ns: Option<string>) {
    NamesMatch(n.name, n.ns, name, ns)
  }

  predicate EntitiesMatch(e: Endpoint, r: Option<Reader>, w: Option<Writer>) {
    (r.None? || e.reader == r) && (w.None? || e.writer == w)
  }

  predicate TopicMatches(e: Endpoint, topic: string, writer: bool) {
    if writer && e.writer.Some? then e.writer.value.topic == topic
    else e.reader.Some? && e.reader.value.topic == topic
  }

  function FindNode(nodes: seq<Node>, handle: int): Option<nat> {
    FirstIndex(nodes, (n: Node) => n.handle == handle)
  }

  function FindNodeByName(nodes: seq<Node>, name: string, ns: Option<string>): Option<nat> {
    FirstIndex(nodes, (n: Node) => NameMatches(n, name, ns))
  }

  function FindEndpoint(es: seq<Endpoint>, handle: int): Option<nat> {
    FirstIndex(es, (e: Endpoint) => e.handle == handle)
  }

  function FindByEntities(es: seq<Endpoint>, r: Option<Reader>, w: Option<Writer>): Option<nat> {
    FirstIndex(es, (e: Endpoint) => EntitiesMatch(e, r, w))
  }

  function FindByTopic(es: seq<Endpoint>, topic: string, writer: bool): Option<nat> {
    FirstIndex(es, (e: Endpoint) => TopicMatches(e, topic, writer))
  }

  // ---- Endpoints of one node ----

  function EndpointHandles(es: seq<Endpoint>): set<int> {
    set e | e in es :: e.handle
  }

  function NodeHandles(nodes: seq<Node>): set<int> {
    set n | n in nodes :: n.handle
  }

  function One<T>(x: Option<T>): nat {
    if x.Some? then 1 else 0
  }

  /** Whether a node can take an endpoint with these entities: they are not in
      use, and their topics are named for the endpoint's type. */
  predicate AcceptsEntities(n: Node, kind: EndpointType, r: Option<Reader>, w: Option<Writer>) {
    && FindByEntities(n.endpoints, r, w).None?
    && (r.Some? ==> DetectEndpointType(r.value.topic, false) == kind)
    && (w.Some? ==> DetectEndpointType(w.value.topic, true) == kind)
  }

  /** Lists a new endpoint, unless the handles are exhausted or the pool has no
      buffer left (`buffer` false). */
  function PlaceEndpoint(n: Node, kind: EndpointType, r: Option<Reader>, w: Option<Writer>, buffer: bool)
    : (Option<int>, Node)
  {
    var (h, next) := Handles.Allocate(EndpointHandles(n.endpoints), n.endpHandleNext, Handles.INT_MAX);
    if h.None? || !buffer then (None, n.(endpHandleNext := next))
    else (h, n.(endpHandleNext := next,
                endpoints := n.endpoints + [Endpoint(h.value, kind, r, w)],
                endpointsLen := n.endpointsLen + 1,
                readersLen := n.readersLen + One(r),
                writersLen := n.writersLen + One(w)))
  }

  function AddEndpoint(n: Node, kind: EndpointType, r: Option<Reader>, w: Option<Writer>, buffer: bool)
    : (Option<int>, Node)
  {
    if AcceptsEntities(n, kind, r, w) then PlaceEndpoint(n, kind, r, w, buffer) else (None, n)
  }

  function RemoveEndpoint(n: Node, i: nat): Node
    requires i < |n.endpoints|
  {
    n.(endpoints := RemoveAt(n.endpoints, i),
       endpointsLen := n.endpointsLen - 1,
       readersLen := n.readersLen - One(n.endpoints[i].reader),
       writersLen := n.writersLen - One(n.endpoints[i].writer))
  }

  /** The attach step sets the writer and leaves `writersLen` alone. */
  function AttachWriter(n: Node, i: nat, w: Writer): Node
    requires i < |n.endpoints|
  {
    n.(endpoints := n.endpoints[i := n.endpoints[i].(writer := Some(w))], attaches := n.attaches + 1)
  }

  // ---- Inspection of one node's participant ----

  /** What the DDS calls report about a participant: its publishers with their
      writers and its subscribers with their readers. None is a failed call. */
  datatype Contents = Contents(publishers: Option<seq<Option<seq<Writer>>>>,
                               subscribers: Option<seq<Option<seq<Reader>>>>)

  function Somes<T>(xs: seq<T>): seq<Option<T>> {
    if xs == [] then [] else [Some(xs[0])] + Somes(xs[1..])
  }

  function FlattenGroups<T>(groups: seq<Option<seq<T>>>): seq<Option<T>> {
    if groups == [] then []
    else (match groups[0] case None => [None] case Some(xs) => Somes(xs)) + FlattenGroups(groups[1..])
  }

  /** The entities in scan order, None where a DDS call fails. */
  function Events<T>(groups: Option<seq<Option<seq<T>>>>): seq<Option<T>> {
    match groups
    case None => [None]
    case Some(gs) => FlattenGroups(gs)
  }

  /** State of a scan in progress. `handleSet` says that the local endp_handle
      variable holds a handle; `buffers` is how many more endpoint buffers the
      pool will provide. */
  datatype Scan = Scan(node: Node, handleSet: bool, buffers: nat)
  datatype Outcome = Running(scan: Scan) | Failed(node: Node)

  function ScanRegister(s: Scan, kind: EndpointType, r: Option<Reader>, w: Option<Writer>): Outcome {
    var (h, n) := AddEndpoint(s.node, kind, r, w, s.buffers > 0);
    if h.None? || s.buffers == 0 then Failed(n) else Running(Scan(n, true, s.buffers - 1))
  }

  function ScanWriter(s: Scan, w: Writer): Outcome {
    var kind := DetectEndpointType(w.topic, true);
    if FindByEntities(s.node.endpoints, None, Some(w)).Some? then Running(s)
    else if kind == Publisher then ScanRegister(s, kind, None, Some(w))
    else if kind == Client || kind == Service then
      match FindByTopic(s.node.endpoints, w.topic, false)
      case None => ScanRegister(s, kind, None, Some(w))
      case Some(i) =>
        if s.node.endpoints[i].writer.Some? then Failed(s.node)
        else
          var n := AttachWriter(s.node, i, w);
          if s.handleSet then Running(s.(node := n)) else Failed(n)
    else Running(s)
  }

  function ScanReader(s: Scan, r: Reader): Outcome {
    var kind := DetectEndpointType(r.topic, false);
    if FindByEntities(s.node.endpoints, Some(r), None).Some? then Running(s)
    else if kind == Subscription then ScanRegister(s, kind, Some(r), None)
    else if kind == Client || kind == Service then
      match FindByTopic(s.node.endpoints, r.topic, false)
      case None => ScanRegister(s, kind, Some(r), None)
      case Some(_) => Failed(s.node)
    else Running(s)
  }

  function ScanWriters(s: Scan, events: seq<Option<Writer>>): Outcome
    decreases |events|
  {
    if events == [] then Running(s)
    else match events[0]
      case None => Failed(s.node)
      case Some(w) =>
        match ScanWriter(s, w)
        case Running(s') => ScanWriters(s', events[1..])
        case Failed(n) => Failed(n)
  }

  function ScanReaders(s: Scan, events: seq<Option<Reader>>): Outcome
    decreases |events|
  {
    if events == [] then Running(s)
    else match events[0]
      case None => Failed(s.node)
      case Some(r) =>
        match ScanReader(s, r)
        case Running(s') => ScanReaders(s', events[1..])
        case Failed(n) => Failed(n)
  }

  /** Writers first, then readers. */
  function Inspect(n: Node, c: Contents, buffers: nat): Outcome {
    match ScanWriters(Scan(n, false, buffers), Events(c.publishers))
    case Failed(n') => Failed(n')
    case Running(s) => ScanReaders(s, Events(c.subscribers))
  }

  function OutcomeNode(o: Outcome): Node {
    match o case Running(s) => s.node case Failed(n) => n
  }

  // ---- Operations of the API ----

  function QueueUpdate(g: Graph): Graph {
    g.(tokens := g.tokens + 1)
  }

  function ValidNodeArguments(name: Option<string>, ns: Option<string>): bool {
    && name.Some? && name.value != [] && |name.value| <= MAX_NAME_LENGTH
    && (ns.Some? ==> ns.value != [] && |ns.value| <= MAX_NAMESPACE_LENGTH)
  }

  /** The outcome of every allocation that a node registration may attempt. */
  datatype Resources = Resources(nodeBuffer: bool, nameDup: bool, namespaceDup: bool, endpointBuffers: nat)

  function NewNode(handle: int, name: string, ns: Option<string>, p: Participant): Node {
    Node(handle, name, if ns.Some? then ns.value else ROOT_NAMESPACE, p, [], 0, 0, 0, 0, 0)
  }

  function AppendNode(g: Graph, n: Node): Graph {
    g.(nodes := g.nodes + [n], nodesLen := g.nodesLen + 1)
  }

  /** Returns the handle (INVALID on failure) and the graph afterwards. */
  function RegisterNode(g: Graph, name: Option<string>, ns: Option<string>, p: Option<Participant>,
                        res: Resources, c: Contents): (int, Graph)
  {
    if !ValidNodeArguments(name, ns) || FindNodeByName(g.nodes, name.value, ns).Some? then (Handles.INVALID, g)
    else
      var (h, next) := Handles.Allocate(NodeHandles(g.nodes), g.nodeHandleNext, Handles.INT_MAX);
      var g1 := g.(nodeHandleNext := next);
      if h.None? || !res.nodeBuffer || !res.nameDup || !res.namespaceDup then (Handles.INVALID, g1)
      else
        var n := NewNode(h.value, name.value, ns, if p.Some? then p.value else g.graphParticipant);
        if !g.polling then (h.value, AppendNode(QueueUpdate(g1), n))
        else match Inspect(n, c, res.endpointBuffers)
          case Running(s) => (h.value, AppendNode(QueueUpdate(g1), s.node))
          case Failed(_) => (Handles.INVALID, QueueUpdate(g1))
  }

  function RemoveNode(g: Graph, k: nat): Graph
    requires k < |g.nodes|
  {
    g.(nodes := RemoveAt(g.nodes, k), nodesLen := g.nodesLen - 1)
  }

  function UnregisterNode(g: Graph, node: int): (ReturnCode, Graph) {
    match FindNode(g.nodes, node)
    case None => (BadParameter, g)
    case Some(k) => (Ok, RemoveNode(g, k))
  }

  /** The internal registration, which queues nothing. */
  function AddEndpointAt(g: Graph, node: int, kind: EndpointType, r: Option<Reader>, w: Option<Writer>, buffer: bool)
    : (Option<int>, Graph)
  {
    match FindNode(g.nodes, node)
    case None => (None, g)
    case Some(k) =>
      var (h, n) := AddEndpoint(g.nodes[k], kind, r, w, buffer);
      (h, g.(nodes := g.nodes[k := n]))
  }

  /** The entities each registration function of the API passes on. */
  predicate ShapeForApi(kind: EndpointType, r: Option<Reader>, w: Option<Writer>) {
    match kind
    case Subscription => r.Some? && w.None?
    case Publisher => r.None? && w.Some?
    case Client => r.Some? && w.Some?
    case Service => r.Some? && w.Some?
    case Unknown => false
  }

  /** register_local_subscription, _publisher, _client and _service, by kind.
      A missing entity is rejected before anything happens. */
  function RegisterEndpoint(g: Graph, node: int, kind: EndpointType, r: Option<Reader>, w: Option<Writer>, buffer: bool)
    : (int, Graph)
  {
    if !ShapeForApi(kind, r, w) then (Handles.INVALID, g)
    else
      var (h, g') := AddEndpointAt(g, node, kind, r, w, buffer);
      if h.None? then (Handles.INVALID, g') else (h.value, QueueUpdate(g'))
  }

  function RemoveEndpointAt(g: Graph, k: nat, i: nat): Graph
    requires k < |g.nodes| && i < |g.nodes[k].endpoints|
  {
    g.(nodes := g.nodes[k := RemoveEndpoint(g.nodes[k], i)])
  }

  function UnregisterEndpoint(g: Graph, node: int, r: Option<Reader>, w: Option<Writer>): (ReturnCode, Graph) {
    match FindNode(g.nodes, node)
    case None => (BadParameter, g)
    case Some(k) =>
      match FindByEntities(g.nodes[k].endpoints, r, w)
      case None => (BadParameter, g)
      case Some(i) => (Ok, QueueUpdate(RemoveEndpointAt(g, k, i)))
  }

  function UnregisterEndpointByHandle(g: Graph, node: int, handle: int): (ReturnCode, Graph) {
    match FindNode(g.nodes, node)
    case None => (BadParameter, g)
    case Some(k) =>
      match FindEndpoint(g.nodes[k].endpoints, handle)
      case None => (BadParameter, g)
      case Some(i) => (Ok, QueueUpdate(RemoveEndpointAt(g, k, i)))
  }

  function InspectNode(g: Graph, node: int, c: Contents, buffers: nat): (ReturnCode, Graph) {
    match FindNode(g.nodes, node)
    case None => (Error, g)
    case Some(k) =>
      match Inspect(g.nodes[k], c, buffers)
      case Running(s) => (Ok, QueueUpdate(g.(nodes := g.nodes[k := s.node])))
      case Failed(n) => (Error, g.(nodes := g.nodes[k := n]))
  }

  /** One poll of the update thread: every node is inspected, nothing is queued.
      `budget(k)` bounds the endpoint buffers that node k can get. */
  function PollNodes(nodes: seq<Node>, contents: Participant -> Contents, budget: nat -> nat): (r: seq<Node>)
    ensures |r| == |nodes|
    ensures forall k :: 0 <= k < |nodes| ==>
      r[k] == OutcomeNode(Inspect(nodes[k], contents(nodes[k].participant), budget(k)))
  {
    seq(|nodes|, k requires 0 <= k < |nodes| =>
      OutcomeNode(Inspect(nodes[k], contents(nodes[k].participant), budget(k))))
  }

  function Poll(g: Graph, contents: Participant -> Contents, budget: nat -> nat): Graph {
    g.(nodes := PollNodes(g.nodes, contents, budget))
  }

  // ---- Runs ----

  datatype Op =
    | OpRegisterNode(name: Option<string>, ns: Option<string>, participant: Option<Participant>,
                     res: Resources, contents: Contents)
    | OpUnregisterNode(node: int)
    | OpRegisterEndpoint(node: int, kind: EndpointType, reader: Option<Reader>, writer: Option<Writer>, buffer: bool)
    | OpUnregisterEndpoint(node: int, reader: Option<Reader>, writer: Option<Writer>)
    | OpUnregisterEndpointByHandle(node: int, endpoint: int)
    | OpInspectNode(node: int, contents: Contents, buffers: nat)
    | OpPoll(view: Participant -> Contents, budget: nat -> nat)

  function Apply(g: Graph, op: Op): Graph {
    match op
    case OpRegisterNode(name, ns, p, res, c) => RegisterNode(g, name, ns, p, res, c).1
    case OpUnregisterNode(n) => UnregisterNode(g, n).1
    case OpRegisterEndpoint(n, kind, r, w, buffer) => RegisterEndpoint(g, n, kind, r, w, buffer).1
    case OpUnregisterEndpoint(n, r, w) => UnregisterEndpoint(g, n, r, w).1
    case OpUnregisterEndpointByHandle(n, e) => UnregisterEndpointByHandle(g, n, e).1
    case OpInspectNode(n, c, buffers) => InspectNode(g, n, c, buffers).1
    case OpPoll(view, budget) => Poll(g, view, budget)
  }

  function Empty(p: Participant, polling: bool): Graph {
    Graph([], 0, 0, 0, p, polling)
  }

  /** The graph after a run of operations, latest last. */
  function Run(g: Graph, ops: seq<Op>): Graph {
    if ops == [] then g else Apply(Run(g, ops[..|ops| - 1]), ops[|ops| - 1])
  }
}
