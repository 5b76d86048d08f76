/** The registry as the C code keeps it: node and endpoint buffers from two
    pools, on doubly linked lists, with redundant counters, updated in place.
    Every method is proved against module Registry. */
module GraphObjects {
  import opened Common
  import opened InlineList
  import opened Naming
  import opened RegistryInvariants
  import Registry
  import Handles

  type EndpointBuffer = ListNode<Registry.Endpoint>
  type NodeBuffer = ListNode<GraphNode>

  /** A node buffer as the source initializes it, with its participant. */
  function BlankNode(p: Participant): Registry.Node {
    Registry.Node(Handles.INVALID, "", "", p, [], 0, 0, 0, 0, 0)
  }

  const BLANK_ENDPOINT := Registry.Endpoint(Handles.INVALID, Unknown, None, None)

  lemma EndpointHandleInUse(es: seq<Registry.Endpoint>, h: int)
    ensures Registry.FindEndpoint(es, h).Some? <==> h in Registry.EndpointHandles(es)
  {
    if e :| e in es && e.handle == h {
      var i :| 0 <= i < |es| && es[i] == e;
    }
  }

  class GraphNode {
    var handle: int
    var endpointList: ListHead<Registry.Endpoint>
    var endpointsLen: int
    var writersLen: int
    var readersLen: int
    var endpHandleNext: int
    var name: string         // empty where the source has NULL
    var ns: string
    var participant: Participant
    ghost var buffers: seq<EndpointBuffer>        // what endpointList links
    ghost var endpoints: seq<Registry.Endpoint>   // what the buffers hold
    ghost var attaches: nat

    constructor (p: Participant)
      ensures View() == BlankNode(p) && ListOk() && buffers == []
    {
      handle, endpointList, name, ns, participant := Handles.INVALID, ListHead(null, null), "", "", p;
      endpointsLen, writersLen, readersLen, endpHandleNext, attaches := 0, 0, 0, 0, 0;
      buffers, endpoints := [], [];
    }

    ghost function View(): Registry.Node
      reads this
    {
      Registry.Node(handle, name, ns, participant, endpoints,
                    endpointsLen, writersLen, readersLen, endpHandleNext, attaches)
    }

    /** The endpoint list is well linked and its buffers hold the endpoints. */
    ghost predicate ListOk()
      reads this`endpointList, this`buffers, this`endpoints, buffers
    {
      && Linked(endpointList, buffers)
      && |endpoints| == |buffers| && forall i :: 0 <= i < |buffers| ==> buffers[i].data == endpoints[i]
    }

    /** What the endpoint list holds, if it is well linked. */
    ghost function Contents(): Option<seq<Registry.Endpoint>>
      reads this`endpointList, this`buffers, this`endpoints, buffers
    {
      if ListOk() then Some(endpoints) else None
    }

    twostate predicate SameList()
      reads this
    {
      unchanged(`endpointList, `buffers, `endpoints)
    }

    twostate lemma ContentsKept()
      requires SameList() && forall i :: 0 <= i < |buffers| ==> unchanged(buffers[i])
      ensures Contents() == old(Contents())
    {}

    method SetNames(h: int, name: string, ns: Option<string>, nameDup: bool, namespaceDup: bool) returns (ok: bool)
      modifies this`handle, this`name, this`ns
      ensures ok <==> nameDup && namespaceDup
      ensures ok ==> View() == old(View()).(handle := h, name := name, ns := Namespace(ns))
    {
      handle := h;
      if !nameDup {
        return false;
      }
      this.name := name;
      if !namespaceDup {
        return false;
      }
      this.ns := if ns.Some? then ns.value else Registry.ROOT_NAMESPACE;
      return true;
    }

    // The lookups walk along the links.

    method LookupLocalEndpointByHandle(endpHandle: int) returns (endp: ListNode?<Registry.Endpoint>)
      requires Contents().Some?
      ensures match Registry.FindEndpoint(endpoints, endpHandle)
        case None => endp == null
        case Some(i) => i < |buffers| && endp == buffers[i] && endp.data == endpoints[i]
    {
      ghost var i := 0;
      endp := endpointList.first;
      while endp != null
        invariant 0 <= i <= |buffers| && endp == At(buffers, i)
        invariant forall j :: 0 <= j < i ==> endpoints[j].handle != endpHandle
        decreases |buffers| - i
      {
        if endp.data.handle == endpHandle {
          return;
        }
        endp, i := endp.next, i + 1;
      }
    }

    method LookupLocalEndpointByDdsEndpoints(reader: Option<Reader>, writer: Option<Writer>)
      returns (endp: ListNode?<Registry.Endpoint>)
      requires Contents().Some?
      ensures match Registry.FindByEntities(endpoints, reader, writer)
        case None => endp == null
        case Some(i) => i < |buffers| && endp == buffers[i] && endp.data == endpoints[i]
    {
      ghost var i := 0;
      endp := endpointList.first;
      while endp != null
        invariant 0 <= i <= |buffers| && endp == At(buffers, i)
        invariant forall j :: 0 <= j < i ==> !Registry.EntitiesMatch(endpoints[j], reader, writer)
        decreases |buffers| - i
      {
        if (reader.None? || endp.data.reader == reader) && (writer.None? || endp.data.writer == writer) {
          return;
        }
        endp, i := endp.next, i + 1;
      }
    }

    method LookupLocalEndpointByTopicName(topic: string, writer: bool) returns (endp: ListNode?<Registry.Endpoint>)
      requires Contents().Some?
      ensures match Registry.FindByTopic(endpoints, topic, writer)
        case None => endp == null
        case Some(i) => i < |buffers| && endp == buffers[i] && endp.data == endpoints[i]
    {
      ghost var i := 0;
      endp := endpointList.first;
      while endp != null
        invariant 0 <= i <= |buffers| && endp == At(buffers, i)
        invariant forall j :: 0 <= j < i ==> !Registry.TopicMatches(endpoints[j], topic, writer)
        decreases |buffers| - i
      {
        var endpTopic: Option<string> := None;
        if writer && endp.data.writer.Some? {
          endpTopic := Some(endp.data.writer.value.topic);
        } else if endp.data.reader.Some? {
          endpTopic := Some(endp.data.reader.value.topic);
        }
        if endpTopic == Some(topic) {
          return;
        }
        endp, i := endp.next, i + 1;
      }
    }

    method NextEndpointHandle() returns (h: int)
      requires Contents().Some?
      modifies this`endpHandleNext
      ensures var (issued, next) := Handles.Allocate(
                Registry.EndpointHandles(endpoints), old(endpHandleNext), Handles.INT_MAX);
        endpHandleNext == next && h == if issued.Some? then issued.value else Handles.INVALID
    {
      hide GraphNode.Contents;
      ghost var live := Registry.EndpointHandles(endpoints);
      var found, tryCount := false, 0;
      h := Handles.INVALID;
      while !found && tryCount < Handles.INT_MAX
        invariant 0 <= tryCount <= Handles.INT_MAX
        invariant Handles.Allocate(live, old(endpHandleNext), Handles.INT_MAX)
          == if found then (Some(h), endpHandleNext)
             else Handles.Allocate(live, endpHandleNext, Handles.INT_MAX - tryCount)
        decreases !found, Handles.INT_MAX - tryCount
      {
        h := endpHandleNext;
        endpHandleNext := Handles.Wrap32(endpHandleNext + 1);
        if h < 0 {
          h, endpHandleNext := 0, 0;
        }
        var existing := LookupLocalEndpointByHandle(h);
        EndpointHandleInUse(endpoints, h);
        found := existing == null;
        tryCount := tryCount + 1;
      }
      if !found {
        h := Handles.INVALID;
      }
    }

    /** Whether register_local_endpoint accepts the entities and their topics. */
    method CheckEntities(kind: EndpointType, r: Option<Reader>, w: Option<Writer>) returns (ok: bool)
      requires Contents().Some?
      ensures ok <==> Registry.AcceptsEntities(View(), kind, r, w)
    {
      var existing := LookupLocalEndpointByDdsEndpoints(r, w);
      if existing != null {
        return false;
      }
      if r.Some? && DetectEndpointType(r.value.topic, false) != kind {
        return false;
      }
      if w.Some? && DetectEndpointType(w.value.topic, true) != kind {
        return false;
      }
      return true;
    }

    /** The checks of register_local_endpoint and the search for a handle;
        INVALID if either fails. */
    method AdmitEndpoint(kind: EndpointType, r: Option<Reader>, w: Option<Writer>) returns (h: int)
      requires Contents().Some?
      modifies this`endpHandleNext
      ensures var (issued, next) := Handles.Allocate(
                Registry.EndpointHandles(endpoints), old(endpHandleNext), Handles.INT_MAX);
        if Registry.AcceptsEntities(old(View()), kind, r, w)
        then endpHandleNext == next && h == (if issued.Some? then issued.value else Handles.INVALID)
        else endpHandleNext == old(endpHandleNext) && h == Handles.INVALID
    {
      var ok := CheckEntities(kind, r, w);
      if !ok {
        return Handles.INVALID;
      }
      h := NextEndpointHandle();
    }

    method LinkEndpoint(endp: EndpointBuffer)
      requires ListOk() && endp !in buffers
      modifies this`endpointList, this`buffers, this`endpoints, buffers`next, endp`next, endp`prev
      ensures ListOk() && buffers == old(buffers) + [endp] && endpoints == old(endpoints) + [endp.data]
    {
      endpointList := AddNodeToBack(endpointList, endp, buffers);
      buffers, endpoints := buffers + [endp], endpoints + [endp.data];
    }

    method UnlinkEndpoint(endp: EndpointBuffer, ghost i: nat)
      requires ListOk() && i < |buffers| && buffers[i] == endp
      modifies this`endpointList, this`buffers, this`endpoints, buffers`next, buffers`prev
      ensures ListOk() && buffers == RemoveAt(old(buffers), i) && endpoints == RemoveAt(old(endpoints), i)
    {
      endpointList := RemoveNode(endpointList, endp, buffers, i);
      buffers, endpoints := RemoveAt(buffers, i), RemoveAt(endpoints, i);
    }

    /** Overwrites what a listed endpoint holds. */
    method SetEndpoint(endp: EndpointBuffer, ghost i: nat, e: Registry.Endpoint)
      requires ListOk() && i < |buffers| && buffers[i] == endp
      modifies this`endpoints, endp`data
      ensures ListOk() && endpoints == old(endpoints)[i := e]
    {
      endp.data := e;
      endpoints := endpoints[i := e];
    }

    /** Lists a buffer from the pool, fills it in and counts its entities. */
    method InsertEndpoint(result: EndpointBuffer, h: int, kind: EndpointType, r: Option<Reader>, w: Option<Writer>)
      requires ListOk() && result !in buffers
      modifies this`endpointList, this`buffers, this`endpoints, this`endpointsLen, this`readersLen, this`writersLen
      modifies buffers`next, result
      ensures ListOk() && buffers == old(buffers) + [result]
      ensures endpoints == old(endpoints) + [Registry.Endpoint(h, kind, r, w)]
      ensures endpointsLen == old(endpointsLen) + 1
      ensures readersLen == old(readersLen) + Registry.One(r)
      ensures writersLen == old(writersLen) + Registry.One(w)
    {
      result.data := BLANK_ENDPOINT.(handle := h);
      LinkEndpoint(result);
      endpointsLen := endpointsLen + 1;
      SetEndpoint(result, |buffers| - 1, result.data.(kind := kind, reader := r, writer := w));
      if r.Some? {
        readersLen := readersLen + 1;
      }
      if w.Some? {
        writersLen := writersLen + 1;
      }
    }

    method FinalizeEndpoint(endp: EndpointBuffer, ghost i: nat)
      requires ListOk() && i < |buffers| && buffers[i] == endp
      modifies this`endpointList, this`buffers, this`endpoints, this`endpointsLen, this`readersLen, this`writersLen
      modifies buffers`next, buffers`prev
      ensures ListOk() && buffers == RemoveAt(old(buffers), i) && endpoints == RemoveAt(old(endpoints), i)
      ensures endpointsLen == old(endpointsLen) - 1
      ensures readersLen == old(readersLen) - Registry.One(old(endpoints)[i].reader)
      ensures writersLen == old(writersLen) - Registry.One(old(endpoints)[i].writer)
    {
      UnlinkEndpoint(endp, i);
      endpointsLen := endpointsLen - 1;
      if endp.data.writer.Some? {
        writersLen := writersLen - 1;
      }
      if endp.data.reader.Some? {
        readersLen := readersLen - 1;
      }
    }

    /** The attach step of an inspection. */
    method AttachWriter(endp: EndpointBuffer, ghost i: nat, w: Writer)
      requires ListOk() && i < |buffers| && buffers[i] == endp
      modifies this`endpoints, this`attaches, endp`data
      ensures ListOk()
      ensures View() == Registry.AttachWriter(old(View()), i, w)
    {
      SetEndpoint(endp, i, endp.data.(writer := Some(w)));
      attaches := attaches + 1;
    }
  }

  lemma NodeHandleInUse(ns: seq<Registry.Node>, h: int)
    ensures Registry.FindNode(ns, h).Some? <==> h in Registry.NodeHandles(ns)
  {
    if n :| n in ns && n.handle == h {
      var i :| 0 <= i < |ns| && ns[i] == n;
    }
  }

  // ---- The scans, one event at a time ----

  lemma ScanWritersStep(s: Registry.Scan, writers: seq<Writer>, j: nat)
    requires j < |writers|
    ensures Registry.ScanWriters(s, Registry.Somes(writers[j..])) ==
      match Registry.ScanWriter(s, writers[j])
      case Running(s') => Registry.ScanWriters(s', Registry.Somes(writers[j + 1..]))
      case Failed(n) => Registry.Failed(n)
  {
    assert writers[j..][1..] == writers[j + 1..];
    assert Registry.Somes(writers[j..])[1..] == Registry.Somes(writers[j + 1..]);
  }

  lemma ScanWritersEnds(s: Registry.Scan, writers: seq<Writer>)
    ensures Registry.ScanWriters(s, Registry.Somes(writers[0..])) == Registry.ScanWriters(s, Registry.Somes(writers))
    ensures Registry.ScanWriters(s, Registry.Somes(writers[|writers|..])) == Registry.Running(s)
  {
    assert writers[0..] == writers;
  }

  lemma ScanReadersStep(s: Registry.Scan, readers: seq<Reader>, j: nat)
    requires j < |readers|
    ensures Registry.ScanReaders(s, Registry.Somes(readers[j..])) ==
      match Registry.ScanReader(s, readers[j])
      case Running(s') => Registry.ScanReaders(s', Registry.Somes(readers[j + 1..]))
      case Failed(n) => Registry.Failed(n)
  {
    assert readers[j..][1..] == readers[j + 1..];
    assert Registry.Somes(readers[j..])[1..] == Registry.Somes(readers[j + 1..]);
  }

  lemma ScanReadersEnds(s: Registry.Scan, readers: seq<Reader>)
    ensures Registry.ScanReaders(s, Registry.Somes(readers[0..])) == Registry.ScanReaders(s, Registry.Somes(readers))
    ensures Registry.ScanReaders(s, Registry.Somes(readers[|readers|..])) == Registry.Running(s)
  {
    assert readers[0..] == readers;
  }

  /** Graphs that differ at most in what they say about node k. */
  ghost predicate OnlyNode(g: Registry.Graph, g': Registry.Graph, k: nat) {
    k < |g.nodes| == |g'.nodes| && g' == g.(nodes := g.nodes[k := g'.nodes[k]])
  }

  lemma OnlyNodeTransitive(a: Registry.Graph, b: Registry.Graph, c: Registry.Graph, k: nat)
    requires OnlyNode(a, b, k) && OnlyNode(b, c, k)
    ensures OnlyNode(a, c, k)
  {
    assert a.nodes[k := c.nodes[k]] == c.nodes;
  }

  /** What the DDS calls and the endpoint pool provide to one inspection. */
  datatype Inspection = Inspection(contents: Registry.Contents, buffers: nat)

  function PolledNode(n: Registry.Node, x: Inspection): Registry.Node {
    Registry.OutcomeNode(Registry.Inspect(n, x.contents, x.buffers))
  }

  /** Graph g with its first k nodes polled. */
  ghost predicate PolledUpTo(g: Registry.Graph, g': Registry.Graph, k: nat, polls: seq<Inspection>)
  {
    && k <= |g.nodes| == |g'.nodes| == |polls| && g' == g.(nodes := g'.nodes)
    && (forall j :: 0 <= j < k ==> g'.nodes[j] == PolledNode(g.nodes[j], polls[j]))
    && (forall j :: k <= j < |g.nodes| ==> g'.nodes[j] == g.nodes[j])
  }

  lemma PolledNone(g: Registry.Graph, polls: seq<Inspection>)
    requires |polls| == |g.nodes|
    ensures PolledUpTo(g, g, 0, polls)
  {}

  lemma PolledStep(g: Registry.Graph, a: Registry.Graph, b: Registry.Graph, k: nat, polls: seq<Inspection>)
    requires k < |g.nodes| && PolledUpTo(g, a, k, polls) && OnlyNode(a, b, k)
    requires b.nodes[k] == PolledNode(a.nodes[k], polls[k])
    ensures PolledUpTo(g, b, k + 1, polls)
  {}

  /** Polling the nodes one by one is the poll of the model, where the DDS
      calls give the same results for nodes of the same participant. */
  lemma PolledAll(g: Registry.Graph, g': Registry.Graph, polls: seq<Inspection>,
                  contents: Participant -> Registry.Contents, budget: nat -> nat)
    requires PolledUpTo(g, g', |g.nodes|, polls)
    requires forall j :: 0 <= j < |polls| ==> polls[j] == Inspection(contents(g.nodes[j].participant), budget(j))
    ensures g' == Registry.Poll(g, contents, budget)
  {
    assert g'.nodes == Registry.PollNodes(g.nodes, contents, budget);
  }

  /** The inspection of a new node, if polling is enabled. */
  function Inspected(g: Registry.Graph, n: Registry.Node, c: Registry.Contents, buffers: nat): (bool, Registry.Graph) {
    if !g.polling then (true, Registry.AppendNode(g, n))
    else match Registry.Inspect(n, c, buffers)
      case Running(s) => (true, Registry.AppendNode(g, s.node))
      case Failed(_) => (false, g)
  }

  /** The outcome of a registration that has a handle and a node buffer. */
  function Registered(g: Registry.Graph, n: Registry.Node, res: Registry.Resources, c: Registry.Contents)
    : (bool, Registry.Graph)
  {
    if !res.nameDup || !res.namespaceDup then (false, g)
    else Inspected(Registry.QueueUpdate(g), n, c, res.endpointBuffers)
  }

  lemma RegisterNodeOutcome(g: Registry.Graph, name: string, ns: Option<string>, p: Option<Participant>,
                            res: Registry.Resources, c: Registry.Contents)
    requires Registry.ValidNodeArguments(Some(name), ns) && Registry.FindNodeByName(g.nodes, name, ns).None?
    ensures var (h, next) := Handles.Allocate(Registry.NodeHandles(g.nodes), g.nodeHandleNext, Handles.INT_MAX);
      var g1 := g.(nodeHandleNext := next);
      Registry.RegisterNode(g, Some(name), ns, p, res, c) ==
        if h.None? || !res.nodeBuffer then (Handles.INVALID, g1)
        else
          var n := Registry.NewNode(h.value, name, ns, if p.Some? then p.value else g.graphParticipant);
          var (ok, g2) := Registered(g1, n, res, c);
          (if ok then h.value else Handles.INVALID, g2)
  {}

  /** Graphs that differ in one node that was appended. */
  ghost predicate Appended(g: Registry.Graph, g': Registry.Graph) {
    && |g'.nodes| == |g.nodes| + 1 && g'.nodes[..|g.nodes|] == g.nodes
    && g' == g.(nodes := g'.nodes, nodesLen := g.nodesLen + 1)
  }

  lemma ChangedLast(g: Registry.Graph, n: Registry.Node, g': Registry.Graph)
    requires OnlyNode(Registry.AppendNode(g, n), g', |g.nodes|)
    ensures Appended(g, g') && g' == Registry.AppendNode(g, g'.nodes[|g.nodes|])
  {
    assert g'.nodes == g.nodes + [g'.nodes[|g.nodes|]];
  }

  lemma RemoveLast<T>(s: seq<T>)
    requires s != []
    ensures RemoveAt(s, |s| - 1) == s[..|s| - 1]
  {}

  lemma AppendedIsUndone(g: Registry.Graph, g': Registry.Graph)
    requires Appended(g, g')
    ensures Registry.RemoveNode(g', |g.nodes|) == g
  {
    assert RemoveAt(g'.nodes, |g.nodes|) == g.nodes;
  }

  /** The events still to come when group i is about to be read. */
  function Remaining<T>(groups: seq<Option<seq<T>>>, i: nat): seq<Option<T>>
    requires i <= |groups|
  {
    Registry.FlattenGroups(groups[i..])
  }

  lemma RemainingStep<T>(groups: seq<Option<seq<T>>>, i: nat)
    requires i < |groups|
    ensures Remaining(groups, i) ==
      (match groups[i] case None => [None] case Some(xs) => Registry.Somes(xs)) + Remaining(groups, i + 1)
  {
    assert groups[i..][0] == groups[i] && groups[i..][1..] == groups[i + 1..];
  }

  /** One turn of the outer loop of the writer scan. */
  lemma WriterGroupStep(s: Registry.Scan, groups: seq<Option<seq<Writer>>>, i: nat)
    requires i < |groups|
    ensures Registry.ScanWriters(s, Remaining(groups, i)) ==
      match groups[i]
      case None => Registry.Failed(s.node)
      case Some(writers) =>
        match Registry.ScanWriters(s, Registry.Somes(writers))
        case Running(s') => Registry.ScanWriters(s', Remaining(groups, i + 1))
        case Failed(n) => Registry.Failed(n)
  {
    RemainingStep(groups, i);
    if groups[i].Some? {
      ScanWritersConcat(s, Registry.Somes(groups[i].value), Remaining(groups, i + 1));
    }
  }

  lemma WriterGroupEnds(s: Registry.Scan, groups: seq<Option<seq<Writer>>>)
    ensures Registry.ScanWriters(s, Remaining(groups, 0)) == Registry.ScanWriters(s, Registry.Events(Some(groups)))
    ensures Registry.ScanWriters(s, Remaining(groups, |groups|)) == Registry.Running(s)
  {
    assert groups[0..] == groups;
  }

  /** One turn of the outer loop of the reader scan. */
  lemma ReaderGroupStep(s: Registry.Scan, groups: seq<Option<seq<Reader>>>, i: nat)
    requires i < |groups|
    ensures Registry.ScanReaders(s, Remaining(groups, i)) ==
      match groups[i]
      case None => Registry.Failed(s.node)
      case Some(readers) =>
        match Registry.ScanReaders(s, Registry.Somes(readers))
        case Running(s') => Registry.ScanReaders(s', Remaining(groups, i + 1))
        case Failed(n) => Registry.Failed(n)
  {
    RemainingStep(groups, i);
    if groups[i].Some? {
      ScanReadersConcat(s, Registry.Somes(groups[i].value), Remaining(groups, i + 1));
    }
  }

  lemma ReaderGroupEnds(s: Registry.Scan, groups: seq<Option<seq<Reader>>>)
    ensures Registry.ScanReaders(s, Remaining(groups, 0)) == Registry.ScanReaders(s, Registry.Events(Some(groups)))
    ensures Registry.ScanReaders(s, Remaining(groups, |groups|)) == Registry.Running(s)
  {
    assert groups[0..] == groups;
  }

  // ---- The account of the endpoint pool ----

  ghost predicate Listed(lists: seq<seq<EndpointBuffer>>, e: EndpointBuffer) {
    exists k :: 0 <= k < |lists| && e in lists[k]
  }

  /** The endpoint buffers outstanding from the pool are exactly the listed
      ones, and each is on the list of one node only. */
  ghost predicate PoolOk(nodes: seq<GraphNode>, lists: seq<seq<EndpointBuffer>>, home: map<EndpointBuffer, GraphNode>)
  {
    && NoDup(nodes) && |lists| == |nodes|
    && (forall k, e :: 0 <= k < |lists| && e in lists[k] ==> e in home && home[e] == nodes[k])
    && (forall e :: e in home ==> Listed(lists, e))
  }

  /** No buffer of one node is on the list of another. */
  lemma PoolDisjoint(nodes: seq<GraphNode>, lists: seq<seq<EndpointBuffer>>, home: map<EndpointBuffer, GraphNode>,
                     k: nat)
    requires PoolOk(nodes, lists, home) && k < |lists|
    ensures forall j, i :: 0 <= j < |lists| && j != k && 0 <= i < |lists[j]| ==>
      lists[j][i] in home && home[lists[j][i]] != nodes[k]
  {
    forall j, i | 0 <= j < |lists| && j != k && 0 <= i < |lists[j]|
      ensures lists[j][i] in home && lists[j][i] !in lists[k]
    {
      assert lists[j][i] in lists[j];
    }
  }

  /** All listed buffers, in list order. */
  function Flatten<T>(lists: seq<seq<T>>): seq<T> {
    if lists == [] then [] else Flatten(lists[..|lists| - 1]) + lists[|lists| - 1]
  }

  lemma FlattenStep<T>(lists: seq<seq<T>>, k: nat)
    requires k < |lists|
    ensures Flatten(lists[..k + 1]) == Flatten(lists[..k]) + lists[k]
  {
    assert lists[..k + 1][..k] == lists[..k];
  }

  lemma {:induction false} FlattenElements(lists: seq<seq<EndpointBuffer>>, k: nat)
    requires k <= |lists|
    ensures forall e :: e in Flatten(lists[..k]) <==> Listed(lists[..k], e)
  {
    if k > 0 {
      FlattenStep(lists, k - 1);
      FlattenElements(lists, k - 1);
      forall e {:trigger Listed(lists[..k], e)}
        ensures Listed(lists[..k], e) <==> Listed(lists[..k - 1], e) || e in lists[k - 1]
      {
        if Listed(lists[..k], e) {
          var j :| 0 <= j < k && e in lists[..k][j];
          assert j < k - 1 ==> e in lists[..k - 1][j];
        }
        if Listed(lists[..k - 1], e) {
          var j :| 0 <= j < k - 1 && e in lists[..k - 1][j];
          assert e in lists[..k][j];
        }
        assert lists[..k][k - 1] == lists[k - 1];
      }
    }
  }

  /** In a good account no buffer is listed twice. */
  lemma {:induction false} NothingListedTwice(nodes: seq<GraphNode>, lists: seq<seq<EndpointBuffer>>,
                                              home: map<EndpointBuffer, GraphNode>, k: nat)
    requires PoolOk(nodes, lists, home) && k <= |lists| && forall j :: 0 <= j < |lists| ==> NoDup(lists[j])
    ensures NoDup(Flatten(lists[..k]))
  {
    if k > 0 {
      FlattenStep(lists, k - 1);
      FlattenElements(lists, k - 1);
      NothingListedTwice(nodes, lists, home, k - 1);
      PoolDisjoint(nodes, lists, home, k - 1);
      var last, before := lists[k - 1], lists[..k - 1];
      forall i | 0 <= i < |last|
        ensures last[i] !in Flatten(before)
      {
        assert last[i] in lists[k - 1] && home[last[i]] == nodes[k - 1];
        assert forall j :: 0 <= j < |before| ==> before[j] == lists[j] && last[i] !in lists[j];
      }
    }
  }

  /** The buffers on the list of a node are those that are out as its own. */
  lemma PoolOwner(nodes: seq<GraphNode>, lists: seq<seq<EndpointBuffer>>, home: map<EndpointBuffer, GraphNode>, k: nat)
    requires PoolOk(nodes, lists, home) && k < |lists|
    ensures forall e :: e in home ==> (e in lists[k] <==> home[e] == nodes[k])
  {
    forall e | e in home && home[e] == nodes[k]
      ensures e in lists[k]
    {
      var j :| 0 <= j < |lists| && e in lists[j];
      assert nodes[j] == nodes[k];
    }
  }

  /** If the lists of the other nodes are as long as before and no buffer that
      was out has moved, then every buffer that is new belongs to node k. */
  lemma PoolOnlyGrewAt(nodes: seq<GraphNode>, lists: seq<seq<EndpointBuffer>>, home: map<EndpointBuffer, GraphNode>,
                       lists': seq<seq<EndpointBuffer>>, home': map<EndpointBuffer, GraphNode>, k: nat)
    requires PoolOk(nodes, lists, home) && PoolOk(nodes, lists', home') && k < |nodes|
    requires forall j :: 0 <= j < |lists| ==> NoDup(lists[j]) && NoDup(lists'[j])
    requires forall j :: 0 <= j < |lists| && j != k ==> |lists'[j]| == |lists[j]|
    requires forall e :: e in home ==> e in home' && home'[e] == home[e]
    ensures forall e :: e in home' && home'[e] != nodes[k] ==> e in home
  {
    forall e | e in home' && home'[e] != nodes[k]
      ensures e in home
    {
      var j :| 0 <= j < |lists'| && e in lists'[j];
      PoolOwner(nodes, lists', home', j);
      forall i | 0 <= i < |lists[j]|
        ensures lists[j][i] in lists'[j]
      {
        assert lists[j][i] in lists[j];
      }
      Pigeonhole(lists[j], lists'[j]);
    }
  }

  lemma PoolMembers(nodes: seq<GraphNode>, lists: seq<seq<EndpointBuffer>>, home: map<EndpointBuffer, GraphNode>)
    requires PoolOk(nodes, lists, home)
    ensures forall j, i :: 0 <= j < |lists| && 0 <= i < |lists[j]| ==> lists[j][i] in home
  {
    forall j, i | 0 <= j < |lists| && 0 <= i < |lists[j]|
      ensures lists[j][i] in home
    {
      assert lists[j][i] in lists[j];
    }
  }

  lemma PoolAfterRemoval(nodes: seq<GraphNode>, lists: seq<seq<EndpointBuffer>>, home: map<EndpointBuffer, GraphNode>,
                         k: nat, i: nat)
    requires PoolOk(nodes, lists, home) && k < |lists| && i < |lists[k]| && NoDup(lists[k])
    ensures PoolOk(nodes, lists[k := RemoveAt(lists[k], i)], home - {lists[k][i]})
  {
    var e, rest := lists[k][i], RemoveAt(lists[k], i);
    var lists', home' := lists[k := rest], home - {e};
    RemoveAtNoDup(lists[k], i);
    assert e in lists[k];
    forall x | x in home'
      ensures Listed(lists', x)
    {
      assert x in home && x != e;
      var j :| 0 <= j < |lists| && x in lists[j];
      assert x in lists'[j];
    }
    forall j, x | 0 <= j < |lists'| && x in lists'[j]
      ensures x in home' && home'[x] == nodes[j]
    {
      assert x in lists[j] && home[x] == nodes[j];
      assert j != k ==> nodes[j] != home[e];
      assert j == k ==> x in rest;
    }
  }

  lemma PoolAfterNode(nodes: seq<GraphNode>, lists: seq<seq<EndpointBuffer>>, home: map<EndpointBuffer, GraphNode>,
                      n: GraphNode)
    requires PoolOk(nodes, lists, home) && n !in nodes
    ensures PoolOk(nodes + [n], lists + [[]], home)
  {
    var lists' := lists + [[]];
    forall x | x in home
      ensures Listed(lists', x)
    {
      var j :| 0 <= j < |lists| && x in lists[j];
      assert x in lists'[j];
    }
  }

  lemma PoolWithoutNode(nodes: seq<GraphNode>, lists: seq<seq<EndpointBuffer>>, home: map<EndpointBuffer, GraphNode>,
                        k: nat, home': map<EndpointBuffer, GraphNode>)
    requires PoolOk(nodes, lists, home) && k < |lists|
    requires forall e :: e in home' <==> e in home && e !in lists[k]
    requires forall e :: e in home' ==> home'[e] == home[e]
    ensures PoolOk(RemoveAt(nodes, k), RemoveAt(lists, k), home')
  {
    var nodes', lists' := RemoveAt(nodes, k), RemoveAt(lists, k);
    RemoveAtNoDup(nodes, k);
    forall j, e | 0 <= j < |lists'| && e in lists'[j]
      ensures e in home' && home'[e] == nodes'[j]
    {
      var j' := if j < k then j else j + 1;
      assert e in lists[j'] && home[e] == nodes[j'] != nodes[k];
    }
    forall x | x in home'
      ensures Listed(lists', x)
    {
      var j :| 0 <= j < |lists| && x in lists[j];
      assert x in lists'[if j < k then j else j - 1];
    }
  }

  lemma PoolAfterAppend(nodes: seq<GraphNode>, lists: seq<seq<EndpointBuffer>>, home: map<EndpointBuffer, GraphNode>,
                        k: nat, e: EndpointBuffer)
    requires PoolOk(nodes, lists, home) && k < |lists| && e !in home
    ensures PoolOk(nodes, lists[k := lists[k] + [e]], home[e := nodes[k]])
  {
    var lists' := lists[k := lists[k] + [e]];
    assert e in lists'[k];
    forall x | x in home
      ensures Listed(lists', x)
    {
      var j :| 0 <= j < |lists| && x in lists[j];
      assert x in lists'[j];
    }
  }

  lemma RestAfter<T>(s: seq<T>, k: nat)
    requires k < |s|
    ensures s[k..] != [] && s[k..][0] == s[k] && RemoveAt(s[k..], 0) == s[k + 1..]
    ensures s[..k + 1] == s[..k] + [s[k]]
    ensures NoDup(s) ==> s[k] !in s[..k]
  {
    assert RemoveAt(s[k..], 0) == s[k + 1..];
  }

  class Graph {
    var nodeList: ListHead<GraphNode>
    var nodesLen: int
    var nodeHandleNext: int
    var tokens: nat               // posted on sem_pinfo
    var graphParticipant: Participant
    var polling: bool
    ghost var nodeBuffers: seq<NodeBuffer>            // what nodeList links
    ghost var nodes: seq<GraphNode>                   // what the buffers hold
    ghost var outNodes: set<NodeBuffer>               // buffers outstanding from nodes_pool
    ghost var lists: seq<seq<EndpointBuffer>>         // what the nodes' endpoint lists link
    ghost var home: map<EndpointBuffer, GraphNode>    // buffers outstanding from endpoints_pool, and whose
    ghost var model: Registry.Graph                   // the registry as a value

    constructor (p: Participant, polling: bool)
      ensures Valid() && model == Registry.Empty(p, polling)
      ensures nodes == [] && outNodes == {} && home == map[]
    {
      nodeList, nodesLen, nodeHandleNext, tokens := ListHead(null, null), 0, 0, 0;
      graphParticipant, this.polling := p, polling;
      nodeBuffers, nodes, lists, outNodes, home, model := [], [], [], {}, map[], Registry.Empty(p, polling);
    }

    /** The node list is well linked and its buffers hold the nodes. */
    ghost predicate NodeListOk()
      reads this`nodeList, this`nodeBuffers, this`nodes, nodeBuffers
    {
      && Linked(nodeList, nodeBuffers)
      && |nodes| == |nodeBuffers| && forall k :: 0 <= k < |nodes| ==> nodeBuffers[k].data == nodes[k]
    }

    /** The listed nodes, if their list is well linked. */
    ghost function NodeContents(): Option<seq<GraphNode>>
      reads this`nodeList, this`nodeBuffers, this`nodes, nodeBuffers
    {
      if NodeListOk() then Some(nodes) else None
    }

    /** The node buffers outstanding from the pool are exactly the listed ones. */
    ghost predicate NodePoolOk()
      reads this`nodeBuffers, this`outNodes
    {
      (forall b :: b in nodeBuffers ==> b in outNodes) && (forall b :: b in outNodes ==> b in nodeBuffers)
    }

    twostate lemma NodeContentsKept()
      requires unchanged(`nodeList, `nodeBuffers, `nodes)
      requires forall i :: 0 <= i < |nodeBuffers| ==> unchanged(nodeBuffers[i])
      ensures NodeContents() == old(NodeContents())
    {}

    /** Every node has its endpoint list, well linked. */
    ghost predicate EndpointListsOk()
      requires PoolOk(nodes, lists, home)
      reads this`nodes, this`lists, this`home, nodes`buffers, nodes`endpoints, nodes`endpointList, home.Keys
    {
      && (forall k :: 0 <= k < |nodes| ==> nodes[k].buffers == lists[k])
      && (forall k :: 0 <= k < |nodes| ==> assert forall e :: e in lists[k] ==> e in home; nodes[k].Contents().Some?)
    }

    ghost predicate Structure()
      reads this`nodeList, this`nodeBuffers, this`nodes, this`outNodes, this`lists, this`home, nodeBuffers,
        nodes`buffers, nodes`endpoints, nodes`endpointList, home.Keys
    {
      NodeContents().Some? && NodePoolOk() && PoolOk(nodes, lists, home) && EndpointListsOk()
    }

    /** A change to the endpoint list of node k, and to nothing else that is
        linked, keeps the structure if it keeps that list and the pool. */
    twostate lemma StructureKept(k: nat)
      requires old(Structure()) && unchanged(`nodeList, `nodeBuffers, `nodes, `outNodes)
      requires forall i :: 0 <= i < |nodeBuffers| ==> unchanged(nodeBuffers[i])
      requires k < |nodes| && forall j :: 0 <= j < |nodes| && j != k ==> nodes[j].SameList()
      requires forall e :: e in old(home) && old(home)[e] != nodes[k] ==> unchanged(e)
      requires |lists| == |nodes| && lists == old(lists)[k := nodes[k].buffers]
      requires PoolOk(nodes, lists, home) && nodes[k].Contents().Some?
      ensures Structure()
    {
      NodeContentsKept();
      PoolDisjoint(nodes, old(lists), old(home), k);
      forall j | 0 <= j < |nodes| && j != k
        ensures nodes[j].buffers == lists[j] && nodes[j].Contents().Some?
      {
        nodes[j].ContentsKept();
      }
    }

    twostate lemma AppendKeepsStructure(k: nat, new e: EndpointBuffer)
      requires old(Structure()) && unchanged(`nodeList, `nodeBuffers, `nodes, `outNodes)
      requires forall i :: 0 <= i < |nodeBuffers| ==> unchanged(nodeBuffers[i])
      requires k < |nodes| && forall j :: 0 <= j < |nodes| && j != k ==> nodes[j].SameList()
      requires forall x :: x in old(home) && old(home)[x] != nodes[k] ==> unchanged(x)
      requires e !in old(home) && home == old(home)[e := nodes[k]]
      requires lists == old(lists)[k := old(lists)[k] + [e]]
      requires nodes[k].buffers == old(nodes[k].buffers) + [e] && nodes[k].Contents().Some?
      ensures Structure()
    {
      PoolAfterAppend(nodes, old(lists), old(home), k, e);
      StructureKept(k);
    }

    twostate lemma RemovalKeepsStructure(k: nat, new i: nat)
      requires old(Structure()) && unchanged(`nodeList, `nodeBuffers, `nodes, `outNodes)
      requires forall j :: 0 <= j < |nodeBuffers| ==> unchanged(nodeBuffers[j])
      requires k < |nodes| && forall j :: 0 <= j < |nodes| && j != k ==> nodes[j].SameList()
      requires forall x :: x in old(home) && old(home)[x] != nodes[k] ==> unchanged(x)
      requires i < |old(lists)[k]| && home == old(home) - {old(lists)[k][i]}
      requires lists == old(lists)[k := RemoveAt(old(lists)[k], i)]
      requires nodes[k].buffers == RemoveAt(old(nodes[k].buffers), i) && nodes[k].Contents().Some?
      ensures Structure()
    {
      assert NoDup(old(lists)[k]) by {
        assert old(nodes[k].Contents().Some?);
      }
      PoolAfterRemoval(nodes, old(lists), old(home), k, i);
      StructureKept(k);
    }

    twostate lemma ListKept(j: nat)
      requires old(Structure()) && j < |old(nodes)| && old(nodes)[j].SameList()
      requires forall i :: 0 <= i < |old(lists)[j]| ==> unchanged(old(lists)[j][i])
      ensures old(nodes)[j].buffers == old(lists)[j] && old(nodes)[j].Contents().Some?
    {
      old(nodes)[j].ContentsKept();
    }

    /** Taking node k and its endpoints away keeps the structure of the rest. */
    twostate lemma NodeRemovalKeepsStructure(k: nat)
      requires old(Structure()) && k < |old(nodes)| && NodeContents().Some? && NodePoolOk()
      requires nodes == RemoveAt(old(nodes), k) && lists == RemoveAt(old(lists), k)
      requires forall e :: e in home <==> e in old(home) && e !in old(lists)[k]
      requires forall e :: e in home ==> home[e] == old(home)[e]
      requires forall j :: 0 <= j < |old(nodes)| && j != k ==> old(nodes)[j].SameList()
      requires forall e :: e in old(home) && old(home)[e] != old(nodes)[k] ==> unchanged(e)
      ensures Structure()
    {
      PoolWithoutNode(old(nodes), old(lists), old(home), k, home);
      PoolDisjoint(old(nodes), old(lists), old(home), k);
      forall j | 0 <= j < |old(nodes)| && j != k
        ensures old(nodes)[j].buffers == old(lists)[j] && old(nodes)[j].Contents().Some?
      {
        ListKept(j);
      }
    }

    /** So does a new node without endpoints. */
    twostate lemma NodeKeepsStructure(new n: GraphNode)
      requires old(Structure()) && NodeContents().Some? && NodePoolOk() && n !in old(nodes)
      requires nodes == old(nodes) + [n] && lists == old(lists) + [[]] && unchanged(`home)
      requires n.buffers == [] && n.Contents().Some?
      requires forall j :: 0 <= j < |old(nodes)| ==> old(nodes)[j].SameList()
      requires forall e :: e in home ==> unchanged(e)
      ensures Structure()
    {
      PoolAfterNode(old(nodes), old(lists), home, n);
      PoolMembers(old(nodes), old(lists), old(home));
      forall j | 0 <= j < |old(nodes)|
        ensures old(nodes)[j].buffers == old(lists)[j] && old(nodes)[j].Contents().Some?
      {
        ListKept(j);
      }
    }

    /** The endpoint buffers that are out, if the structure is sound. */
    ghost function Outstanding(): Option<set<EndpointBuffer>>
      reads this`nodeList, this`nodeBuffers, this`nodes, this`outNodes, this`lists, this`home, nodeBuffers,
        nodes`buffers, nodes`endpoints, nodes`endpointList, home.Keys
    {
      if Structure() then Some(home.Keys) else None
    }

    ghost predicate NodesMatch()
      reads this`nodes, this`model, nodes
    {
      |model.nodes| == |nodes| && forall k :: 0 <= k < |nodes| ==> nodes[k].View() == model.nodes[k]
    }

    /** The fields of the graph and of its nodes hold what the model says. */
    ghost predicate Matches()
      reads this`nodes, this`nodesLen, this`nodeHandleNext, this`tokens, this`graphParticipant, this`polling,
        this`model, nodes
    {
      && model.nodesLen == nodesLen && model.nodeHandleNext == nodeHandleNext && model.tokens == tokens
      && model.graphParticipant == graphParticipant && model.polling == polling && NodesMatch()
    }

    ghost predicate Valid()
      reads this, nodeBuffers, nodes, home.Keys
    {
      Outstanding().Some? && Matches() && GraphOk(model)
    }

    lemma ListFacts(k: nat)
      requires Structure() && k < |nodes|
      ensures nodes[k].Contents().Some? && nodes[k].buffers == lists[k] && |lists| == |nodes|
      ensures forall e :: e in nodes[k].buffers ==> e in home && home[e] == nodes[k]
      ensures forall j :: 0 <= j < |nodes| && j != k ==> nodes[j] != nodes[k]
    {}

    /** Lists a buffer that was just taken from the pool and fills it in. */
    method ListEndpoint(node: GraphNode, ghost k: nat, result: EndpointBuffer,
                        h: int, kind: EndpointType, r: Option<Reader>, w: Option<Writer>)
      requires Structure() && k < |nodes| && nodes[k] == node && result !in home
      modifies this`lists, this`home, node`endpointList, node`buffers, node`endpoints, node`endpointsLen,
        node`readersLen, node`writersLen, node.buffers`next, result
      ensures Structure() && home == old(home)[result := node]
      ensures node.endpoints == old(node.endpoints) + [Registry.Endpoint(h, kind, r, w)]
      ensures node.endpointsLen == old(node.endpointsLen) + 1
      ensures node.readersLen == old(node.readersLen) + Registry.One(r)
      ensures node.writersLen == old(node.writersLen) + Registry.One(w)
    {
      hide Graph.Structure;
      ListFacts(k);
      node.InsertEndpoint(result, h, kind, r, w);
      home, lists := home[result := node], lists[k := lists[k] + [result]];
      AppendKeepsStructure(k, result);
    }

    // ---- Lookups ----

    lemma NodeListFacts()
      requires Outstanding().Some?
      ensures Linked(nodeList, nodeBuffers) && |nodes| == |nodeBuffers| && nodeList.first == At(nodeBuffers, 0)
      ensures forall k :: 0 <= k < |nodes| ==> nodeBuffers[k].data == nodes[k]
    {}

    lemma NodeListStep(k: nat)
      requires Outstanding().Some? && k < |nodes|
      ensures |nodeBuffers| == |nodes| && nodeBuffers[k].data == nodes[k]
      ensures nodeBuffers[k].next == At(nodeBuffers, k + 1)
    {}

    method LookupLocalNodeByHandle(nodeHandle: int) returns (node: ListNode?<GraphNode>)
      requires Outstanding().Some? && NodesMatch()
      ensures match Registry.FindNode(model.nodes, nodeHandle)
        case None => node == null
        case Some(k) => k < |nodes| == |nodeBuffers| && node == nodeBuffers[k] && nodes[k] == nodeBuffers[k].data
    {
      hide Graph.Outstanding;
      NodeListFacts();
      ghost var k := 0;
      node := nodeList.first;
      while node != null
        invariant 0 <= k <= |nodes| && node == At(nodeBuffers, k)
        invariant forall j :: 0 <= j < k ==> model.nodes[j].handle != nodeHandle
        decreases |nodes| - k
      {
        assert node.data == nodes[k] && nodes[k].View() == model.nodes[k];
        if node.data.handle == nodeHandle {
          return;
        }
        node, k := node.next, k + 1;
      }
    }

    method LookupLocalNodeByName(name: string, ns: Option<string>) returns (node: ListNode?<GraphNode>)
      requires Outstanding().Some? && NodesMatch()
      ensures match Registry.FindNodeByName(model.nodes, name, ns)
        case None => node == null
        case Some(k) => k < |nodes| == |nodeBuffers| && node == nodeBuffers[k] && nodes[k] == nodeBuffers[k].data
    {
      hide Graph.Outstanding;
      NodeListFacts();
      ghost var k := 0;
      node := nodeList.first;
      while node != null
        invariant 0 <= k <= |nodes| && node == At(nodeBuffers, k)
        invariant forall j :: 0 <= j < k ==> !Registry.NameMatches(model.nodes[j], name, ns)
        decreases |nodes| - k
      {
        assert node.data == nodes[k] && nodes[k].View() == model.nodes[k];
        if Registry.NamesMatch(node.data.name, node.data.ns, name, ns) {
          return;
        }
        node, k := node.next, k + 1;
      }
    }

    /** One candidate, and the post-increment of the counter. */
    method NextCandidate() returns (candidate: int)
      requires Outstanding().Some? && NodesMatch()
      modifies this`nodeHandleNext
      ensures Outstanding().Some? && NodesMatch()
      ensures Handles.Probe(candidate, nodeHandleNext) == Handles.ProbeOnce(old(nodeHandleNext))
    {
      hide Graph.Outstanding;
      candidate := nodeHandleNext;
      nodeHandleNext := Handles.Wrap32(nodeHandleNext + 1);
      if candidate < 0 {
        candidate, nodeHandleNext := 0, 0;
      }
    }

    /** The search itself, which moves nothing but the counter. */
    method SearchNodeHandle() returns (h: int)
      requires Outstanding().Some? && NodesMatch()
      modifies this`nodeHandleNext
      ensures Outstanding().Some?
      ensures var (issued, next) := Handles.Allocate(
                Registry.NodeHandles(model.nodes), old(nodeHandleNext), Handles.INT_MAX);
        nodeHandleNext == next && h == if issued.Some? then issued.value else Handles.INVALID
    {
      hide Graph.Outstanding;
      ghost var live := Registry.NodeHandles(model.nodes);
      var found, tryCount := false, 0;
      h := Handles.INVALID;
      while !found && tryCount < Handles.INT_MAX
        invariant 0 <= tryCount <= Handles.INT_MAX && Outstanding().Some? && NodesMatch()
        invariant Handles.Allocate(live, old(nodeHandleNext), Handles.INT_MAX)
          == if found then (Some(h), nodeHandleNext)
             else Handles.Allocate(live, nodeHandleNext, Handles.INT_MAX - tryCount)
        decreases !found, Handles.INT_MAX - tryCount
      {
        h := NextCandidate();
        var existing := LookupLocalNodeByHandle(h);
        NodeHandleInUse(model.nodes, h);
        found := existing == null;
        tryCount := tryCount + 1;
      }
      if !found {
        h := Handles.INVALID;
      }
    }

    method NextNodeHandle() returns (h: int)
      requires Outstanding().Some? && Matches()
      modifies this`nodeHandleNext, this`model
      ensures Outstanding().Some? && Matches()
      ensures var (issued, next) := Handles.Allocate(
                Registry.NodeHandles(old(model).nodes), old(model).nodeHandleNext, Handles.INT_MAX);
        && model == old(model).(nodeHandleNext := next)
        && h == if issued.Some? then issued.value else Handles.INVALID
    {
      hide Graph.Outstanding;
      h := SearchNodeHandle();
      model := model.(nodeHandleNext := nodeHandleNext);
    }

    // ---- Endpoints ----

    method QueueUpdate()
      requires Valid()
      modifies this`tokens, this`model
      ensures Valid() && model == Registry.QueueUpdate(old(model))
    {
      hide Graph.Outstanding;
      tokens := tokens + 1;
      model := Registry.QueueUpdate(model);
    }

    /** The graph matches its model but for node k. */
    ghost predicate OffByNode(k: nat)
      reads this`nodes, this`nodesLen, this`nodeHandleNext, this`tokens, this`graphParticipant, this`polling,
        this`model, nodes
    {
      && model.nodesLen == nodesLen && model.nodeHandleNext == nodeHandleNext && model.tokens == tokens
      && model.graphParticipant == graphParticipant && model.polling == polling
      && k < |nodes| == |model.nodes|
      && forall j :: 0 <= j < |nodes| && j != k ==> nodes[j].View() == model.nodes[j]
    }

    /** Brings the model up to date after a change to node k. */
    ghost method RecordNode(k: nat)
      requires OffByNode(k)
      modifies this`model
      ensures Matches()
      ensures model == old(model).(nodes := old(model).nodes[k := nodes[k].View()])
    {
      model := model.(nodes := model.nodes[k := nodes[k].View()]);
    }

    /** No endpoint buffer is out that was not out before, new ones aside. */
    twostate predicate PoolGrew()
      reads this`home
    {
      forall e :: e in home && e !in old(home) ==> fresh(e)
    }

    /** Nor did any buffer that was out move or go back to the pool. */
    twostate predicate PoolExtended()
      reads this`home
    {
      PoolGrew() && forall e :: e in old(home) ==> e in home && home[e] == old(home)[e]
    }

    lemma NodeListAt(k: nat)
      requires Outstanding().Some? && k < |nodes|
      ensures nodes[k].Contents().Some? && nodes[k].buffers == lists[k]
    {}

    lemma StructureIsSound()
      ensures Outstanding().Some? <==> Structure()
    {}

    /** One buffer more is out, a new one, for this node; or the account is as it was. */
    twostate predicate PoolTook(taken: bool, new node: GraphNode)
      reads this`home
    {
      if taken then exists e :: e in home && fresh(e) && home == old(home)[e := node] else home == old(home)
    }

    twostate lemma TakenExtends(taken: bool, new node: GraphNode)
      requires PoolTook(taken, node)
      ensures PoolExtended()
    {
      if taken {
        var e :| e in home && fresh(e) && home == old(home)[e := node];
      }
    }

    /** A buffer from the endpoint pool, not yet listed. */
    method GetEndpointBuffer() returns (endp: EndpointBuffer)
      requires Outstanding().Some?
      ensures Outstanding().Some? && fresh(endp) && endp !in home
    {
      hide Graph.Outstanding;
      endp := new ListNode(BLANK_ENDPOINT);
    }

    /** A buffer from the endpoint pool, listed at the back of node k. */
    method InsertEndpointAt(node: GraphNode, ghost k: nat, h: int, kind: EndpointType,
                            r: Option<Reader>, w: Option<Writer>)
      requires Outstanding().Some? && k < |nodes| && nodes[k] == node
      modifies this`lists, this`home, node`endpointList, node`buffers, node`endpoints, node`endpointsLen,
        node`readersLen, node`writersLen, node.buffers`next
      ensures Outstanding().Some? && PoolTook(true, node)
      ensures var was := old(node.View());
        node.View() == was.(endpoints := was.endpoints + [Registry.Endpoint(h, kind, r, w)],
                            endpointsLen := was.endpointsLen + 1,
                            readersLen := was.readersLen + Registry.One(r),
                            writersLen := was.writersLen + Registry.One(w))
    {
      hide Graph.Outstanding, Graph.Structure;
      var result := GetEndpointBuffer();
      StructureIsSound();
      ListEndpoint(node, k, result, h, kind, r, w);
      assert result in home && home == old(home)[result := node];
      StructureIsSound();
    }

    /** register_local_endpoint on a node that was found; `buffer` says whether
        the pool provides a buffer. Returns the handle, INVALID on failure. */
    method AddEndpointAt(node: GraphNode, ghost k: nat, kind: EndpointType,
                         r: Option<Reader>, w: Option<Writer>, buffer: bool)
      returns (h: int)
      requires Outstanding().Some? && k < |nodes| && nodes[k] == node && Handles.CounterOk(node.endpHandleNext)
      modifies this`lists, this`home, node, node.buffers
      ensures Outstanding().Some? && PoolTook(h != Handles.INVALID, node)
      ensures var (added, n) := Registry.AddEndpoint(old(node.View()), kind, r, w, buffer);
        && node.View() == n && h == (if added.Some? then added.value else Handles.INVALID) && (added.Some? ==> h >= 0)
    {
      hide Graph.Outstanding, GraphNode.Contents, Registry.AcceptsEntities, Handles.Allocate;
      NodeListAt(k);
      FreshHandle(Registry.EndpointHandles(node.endpoints), node.endpHandleNext);
      h := node.AdmitEndpoint(kind, r, w);
      if h == Handles.INVALID {
        return;
      }
      if !buffer {
        return Handles.INVALID;
      }
      InsertEndpointAt(node, k, h, kind, r, w);
    }

    lemma BuffersAreOut(k: nat)
      requires Outstanding().Some? && k < |nodes|
      ensures nodes[k].Contents().Some? && forall e :: e in nodes[k].buffers ==> e in home
      ensures forall j :: 0 <= j < |nodes| && j != k ==> nodes[j] != nodes[k]
    {
      assert nodes[k].buffers == lists[k];
    }

    method RegisterEndpointAt(node: GraphNode, ghost k: nat, kind: EndpointType,
                              r: Option<Reader>, w: Option<Writer>, buffer: bool)
      returns (h: int)
      requires Outstanding().Some? && Matches() && k < |nodes| && nodes[k] == node
      requires Handles.CounterOk(node.endpHandleNext)
      modifies this`lists, this`home, this`model, nodes, home.Keys
      ensures Outstanding().Some? && Matches() && PoolTook(h != Handles.INVALID, node)
      ensures var (added, n) := Registry.AddEndpoint(old(model).nodes[k], kind, r, w, buffer);
        && model == old(model).(nodes := old(model).nodes[k := n])
        && h == (if added.Some? then added.value else Handles.INVALID) && (added.Some? ==> h >= 0)
    {
      hide Graph.Outstanding;
      BuffersAreOut(k);
      h := AddEndpointAt(node, k, kind, r, w, buffer);
      RecordNode(k);
    }

    lemma CounterIsOk(g: Registry.Graph, k: nat)
      requires GraphOk(g) && k < |g.nodes|
      ensures Handles.CounterOk(g.nodes[k].endpHandleNext)
    {
      GraphNodeOk(g, k);
    }

    /** RTIROS2_Graph_register_local_endpoint. */
    method RegisterLocalEndpoint(nodeHandle: int, kind: EndpointType,
                                 r: Option<Reader>, w: Option<Writer>, buffer: bool)
      returns (h: int)
      requires Valid() && EntityShape(kind, r, w)
      modifies this`lists, this`home, this`model, nodes, home.Keys
      ensures Valid() && PoolExtended()
      ensures match Registry.FindNode(old(model).nodes, nodeHandle)
        case None => home == old(home)
        case Some(k) => k < |nodes| && PoolTook(h != Handles.INVALID, nodes[k])
      ensures var (added, g) := Registry.AddEndpointAt(old(model), nodeHandle, kind, r, w, buffer);
        && model == g && h == (if added.Some? then added.value else Handles.INVALID)
        && (added.Some? ==> h >= 0)
    {
      hide Graph.Outstanding, Graph.Matches, Graph.NodesMatch, GraphNode.Contents, GraphOk, EntityShape,
        Registry.AddEndpoint;
      SizesAgree();
      var node := LookupLocalNodeByHandle(nodeHandle);
      if node == null {
        return Handles.INVALID;
      }
      ghost var k := Registry.FindNode(model.nodes, nodeHandle).value;
      AddEndpointAtKeepsOk(model, nodeHandle, kind, r, w, buffer);
      CounterIsOk(model, k);
      BuffersHoldEndpoints(k);
      h := RegisterEndpointAt(node.data, k, kind, r, w, buffer);
      TakenExtends(h != Handles.INVALID, node.data);
    }

    /** The four registration functions of the API, told apart by `kind`. */
    method RegisterLocal(nodeHandle: int, kind: EndpointType, r: Option<Reader>, w: Option<Writer>, buffer: bool)
      returns (h: int)
      requires Valid()
      modifies this`lists, this`home, this`tokens, this`model, nodes, home.Keys
      ensures Valid() && PoolExtended() && (h == Handles.INVALID ==> home == old(home))
      ensures match Registry.FindNode(old(model).nodes, nodeHandle)
        case None => h == Handles.INVALID
        case Some(k) => k < |nodes| && PoolTook(h != Handles.INVALID, nodes[k])
      ensures (h, model) == Registry.RegisterEndpoint(old(model), nodeHandle, kind, r, w, buffer)
    {
      hide Graph.Outstanding, GraphOk;
      if !Registry.ShapeForApi(kind, r, w) {
        return Handles.INVALID;
      }
      h := RegisterLocalEndpoint(nodeHandle, kind, r, w, buffer);
      if h == Handles.INVALID {
        return;
      }
      QueueUpdate();
    }

    /** RTIROS2_Graph_finalize_endpoint: unlinks the endpoint, uncounts its
        entities and returns its buffer, which must be out, to the pool. */
    method FinalizeEndpoint(node: GraphNode, endp: EndpointBuffer, ghost i: nat)
      requires node.Contents().Some? && i < |node.buffers| && node.buffers[i] == endp && endp in home
      modifies this`home, node`endpointList, node`buffers, node`endpoints, node`endpointsLen, node`readersLen,
        node`writersLen, node.buffers`next, node.buffers`prev
      ensures home == old(home) - {endp}
      ensures node.Contents().Some? && node.buffers == RemoveAt(old(node.buffers), i)
      ensures i < |old(node.endpoints)| && node.View() == Registry.RemoveEndpoint(old(node.View()), i)
    {
      node.FinalizeEndpoint(endp, i);
      home := home - {endp};
    }

    /** Takes the buffer off the list of node k and gives it back; the other
        lists are left alone. */
    method ReturnEndpoint(node: GraphNode, ghost k: nat, endp: EndpointBuffer, ghost i: nat)
      requires node.Contents().Some? && i < |node.buffers| && node.buffers[i] == endp && endp in home
      requires k < |nodes| && nodes[k] == node && forall j :: 0 <= j < |nodes| && j != k ==> nodes[j] != node
      requires forall e :: e in node.buffers ==> e in home && home[e] == node
      requires |lists| == |nodes| && lists[k] == node.buffers
      modifies this`lists, this`home, node`endpointList, node`buffers, node`endpoints, node`endpointsLen,
        node`readersLen, node`writersLen, node.buffers`next, node.buffers`prev
      ensures home == old(home) - {endp} && lists == old(lists)[k := RemoveAt(old(lists)[k], i)]
      ensures node.Contents().Some? && node.buffers == RemoveAt(old(node.buffers), i)
      ensures i < |old(node.endpoints)| && node.View() == Registry.RemoveEndpoint(old(node.View()), i)
      ensures forall j :: 0 <= j < |nodeBuffers| ==> unchanged(nodeBuffers[j])
      ensures forall j :: 0 <= j < |nodes| && j != k ==> nodes[j].SameList()
      ensures forall x :: x in old(home) && old(home)[x] != node ==> unchanged(x)
    {
      FinalizeEndpoint(node, endp, i);
      lists := lists[k := RemoveAt(lists[k], i)];
    }

    method UnlistEndpoint(node: GraphNode, ghost k: nat, endp: EndpointBuffer, ghost i: nat)
      requires Structure() && k < |nodes| && nodes[k] == node && i < |node.buffers| && node.buffers[i] == endp
      modifies this`lists, this`home, node`endpointList, node`buffers, node`endpoints, node`endpointsLen,
        node`readersLen, node`writersLen, node.buffers`next, node.buffers`prev
      ensures Structure() && home == old(home) - {endp}
      ensures i < |old(node.endpoints)| && node.View() == Registry.RemoveEndpoint(old(node.View()), i)
    {
      hide Graph.Structure, GraphNode.Contents;
      ListFacts(k);
      ReturnEndpoint(node, k, endp, i);
      RemovalKeepsStructure(k, i);
    }

    /** The buffer of endpoint i of node k went back to the pool, and no other. */
    twostate predicate EndpointReturned(k: nat, i: nat)
      reads this`home
    {
      k < |old(lists)| && i < |old(lists)[k]| && home == old(home) - {old(lists)[k][i]}
    }

    method RemoveEndpointAt(node: GraphNode, ghost k: nat, endp: EndpointBuffer, ghost i: nat)
      requires Outstanding().Some? && k < |nodes| && nodes[k] == node && i < |node.buffers| && node.buffers[i] == endp
      modifies this`lists, this`home, node, node.buffers
      ensures Outstanding().Some? && EndpointReturned(k, i)
      ensures i < |old(node.endpoints)| && node.View() == Registry.RemoveEndpoint(old(node.View()), i)
    {
      hide Graph.Outstanding, Graph.Structure;
      StructureIsSound();
      ListFacts(k);
      UnlistEndpoint(node, k, endp, i);
      StructureIsSound();
    }

    method FinalizeEndpointAt(node: GraphNode, ghost k: nat, endp: EndpointBuffer, ghost i: nat)
      requires Valid() && k < |nodes| && nodes[k] == node && i < |node.buffers| && node.buffers[i] == endp
      modifies this`lists, this`home, this`model, nodes, home.Keys
      ensures Valid() && EndpointReturned(k, i)
      ensures i < |old(model).nodes[k].endpoints| && model == Registry.RemoveEndpointAt(old(model), k, i)
    {
      hide Graph.Outstanding, GraphNode.Contents, GraphOk;
      BuffersAreOut(k);
      BuffersHoldEndpoints(k);
      RemoveEndpointAtKeepsOk(model, k, i);
      RemoveEndpointAt(node, k, endp, i);
      RecordNode(k);
    }

    lemma BuffersHoldEndpoints(k: nat)
      requires Outstanding().Some? && NodesMatch() && k < |nodes|
      ensures k < |model.nodes| && nodes[k].View() == model.nodes[k] && nodes[k].Contents().Some?
      ensures |nodes[k].buffers| == |nodes[k].endpoints|
    {
      assert nodes[k].View() == model.nodes[k];
    }

    /** The common end of the unregistration functions. */
    method FinalizeAndQueue(node: GraphNode, ghost k: nat, endp: EndpointBuffer, ghost i: nat)
      requires Valid() && k < |nodes| && nodes[k] == node && i < |node.buffers| && node.buffers[i] == endp
      modifies this`lists, this`home, this`tokens, this`model, nodes, home.Keys
      ensures Valid() && EndpointReturned(k, i)
      ensures i < |old(model).nodes[k].endpoints|
      ensures model == Registry.QueueUpdate(Registry.RemoveEndpointAt(old(model), k, i))
    {
      hide Graph.Outstanding, GraphOk;
      FinalizeEndpointAt(node, k, endp, i);
      QueueUpdate();
    }

    method UnregisterLocalEndpoint(nodeHandle: int, r: Option<Reader>, w: Option<Writer>) returns (rc: ReturnCode)
      requires Valid()
      modifies this`lists, this`home, this`tokens, this`model, nodes, home.Keys
      ensures Valid()
      ensures match Registry.FindNode(old(model).nodes, nodeHandle)
        case None => home == old(home)
        case Some(k) =>
          match Registry.FindByEntities(old(model).nodes[k].endpoints, r, w)
          case None => home == old(home)
          case Some(i) => EndpointReturned(k, i)
      ensures (rc, model) == Registry.UnregisterEndpoint(old(model), nodeHandle, r, w)
    {
      hide Graph.Outstanding, Graph.Matches, Graph.NodesMatch, GraphNode.Contents, GraphOk,
        Registry.FindByEntities, Registry.FindNode;
      SizesAgree();
      var node := LookupLocalNodeByHandle(nodeHandle);
      if node == null {
        return BadParameter;
      }
      ghost var k := Registry.FindNode(model.nodes, nodeHandle).value;
      BuffersHoldEndpoints(k);
      var endp := node.data.LookupLocalEndpointByDdsEndpoints(r, w);
      if endp == null {
        return BadParameter;
      }
      FinalizeAndQueue(node.data, k, endp, Registry.FindByEntities(model.nodes[k].endpoints, r, w).value);
      return Ok;
    }

    method UnregisterLocalEndpointByHandle(nodeHandle: int, endpHandle: int) returns (rc: ReturnCode)
      requires Valid()
      modifies this`lists, this`home, this`tokens, this`model, nodes, home.Keys
      ensures Valid()
      ensures match Registry.FindNode(old(model).nodes, nodeHandle)
        case None => home == old(home)
        case Some(k) =>
          match Registry.FindEndpoint(old(model).nodes[k].endpoints, endpHandle)
          case None => home == old(home)
          case Some(i) => EndpointReturned(k, i)
      ensures (rc, model) == Registry.UnregisterEndpointByHandle(old(model), nodeHandle, endpHandle)
    {
      hide Graph.Outstanding, Graph.Matches, Graph.NodesMatch, GraphNode.Contents, GraphOk,
        Registry.FindByEntities, Registry.FindNode;
      SizesAgree();
      var node := LookupLocalNodeByHandle(nodeHandle);
      if node == null {
        return BadParameter;
      }
      ghost var k := Registry.FindNode(model.nodes, nodeHandle).value;
      BuffersHoldEndpoints(k);
      var endp := node.data.LookupLocalEndpointByHandle(endpHandle);
      if endp == null {
        return BadParameter;
      }
      FinalizeAndQueue(node.data, k, endp, Registry.FindEndpoint(model.nodes[k].endpoints, endpHandle).value);
      return Ok;
    }

    // ---- Nodes ----

    /** Unlinks a node buffer; its endpoints stay with it. */
    method UnlinkNode(node: NodeBuffer, ghost k: nat)
      requires NodeContents().Some? && |lists| == |nodes| && k < |nodes| && nodeBuffers[k] == node
      modifies this`nodeList, this`nodeBuffers, this`nodes, this`lists, this`nodesLen, nodeBuffers`next,
        nodeBuffers`prev
      ensures NodeContents().Some?
      ensures nodeBuffers == RemoveAt(old(nodeBuffers), k) && nodes == RemoveAt(old(nodes), k)
      ensures lists == RemoveAt(old(lists), k) && nodesLen == old(nodesLen) - 1
    {
      nodeList := RemoveNode(nodeList, node, nodeBuffers, k);
      nodeBuffers, nodes, lists := RemoveAt(nodeBuffers, k), RemoveAt(nodes, k), RemoveAt(lists, k);
      nodesLen := nodesLen - 1;
    }

    /** The teardown loop of finalize_node on a node that was unlinked: the
        successor is read before the endpoint is unlinked. Every endpoint goes
        back to the pool once, in list order. */
    method FinalizeEndpoints(node: GraphNode, first: ListNode?<Registry.Endpoint>)
      returns (ghost returned: seq<EndpointBuffer>)
      requires node.Contents().Some? && first == At(node.buffers, 0)
      requires forall e :: e in node.buffers ==> e in home
      modifies this`home, node`endpointList, node`buffers, node`endpoints, node`endpointsLen, node`readersLen,
        node`writersLen, node.buffers`next, node.buffers`prev
      ensures returned == old(node.buffers) && node.buffers == []
      ensures forall e :: e in home <==> e in old(home) && e !in returned
      ensures forall e :: e in home ==> home[e] == old(home)[e]
    {
      hide GraphNode.View;
      returned := [];
      var endp := first;
      ghost var all := node.buffers;
      while endp != null
        invariant 0 <= |returned| <= |all| && node.Contents().Some? && endp == At(node.buffers, 0)
        invariant returned == all[..|returned|] && node.buffers == all[|returned|..]
        invariant forall e :: e in home <==> e in old(home) && e !in returned
        invariant forall e :: e in home ==> home[e] == old(home)[e]
        decreases |all| - |returned|
      {
        var next := endp.next;
        RestAfter(all, |returned|);
        FinalizeEndpoint(node, endp, 0);
        returned := returned + [endp];
        endp := next;
      }
    }

    /** Returns the endpoints of a node that is not listed; nothing that is
        listed changes. */
    method ReturnEndpoints(node: GraphNode, first: ListNode?<Registry.Endpoint>)
      returns (ghost returned: seq<EndpointBuffer>)
      requires node !in nodes && node.Contents().Some? && first == At(node.buffers, 0) && NodeContents().Some?
      requires forall e :: e in node.buffers ==> e in home && home[e] == node
      modifies this`home, node, node.buffers`next, node.buffers`prev
      ensures returned == old(node.buffers) && NodeContents().Some?
      ensures forall e :: e in home <==> e in old(home) && e !in returned
      ensures forall e :: e in home ==> home[e] == old(home)[e]
      ensures forall n :: n in nodes ==> n.SameList()
      ensures forall e :: e in old(home) && old(home)[e] != node ==> unchanged(e)
    {
      returned := FinalizeEndpoints(node, first);
      NodeContentsKept();
    }

    /** Unlinks the node, then returns its endpoints and its own buffer. */
    method ReturnNode(node: NodeBuffer, ghost k: nat) returns (ghost returned: seq<EndpointBuffer>)
      requires Structure() && k < |nodes| && nodeBuffers[k] == node
      modifies this`nodeList, this`nodeBuffers, this`nodes, this`lists, this`nodesLen, this`outNodes, this`home,
        nodeBuffers`next, nodeBuffers`prev, nodes[k], nodes[k].buffers`next, nodes[k].buffers`prev
      ensures NodeContents().Some? && outNodes == old(outNodes) - {node}
      ensures nodeBuffers == RemoveAt(old(nodeBuffers), k) && nodes == RemoveAt(old(nodes), k)
      ensures lists == RemoveAt(old(lists), k) && nodesLen == old(nodesLen) - 1
      ensures returned == old(lists)[k]
      ensures forall e :: e in home <==> e in old(home) && e !in returned
      ensures forall e :: e in home ==> home[e] == old(home)[e]
      ensures forall j :: 0 <= j < |old(nodes)| && j != k ==> old(nodes)[j].SameList()
      ensures forall e :: e in old(home) && old(home)[e] != old(nodes)[k] ==> unchanged(e)
    {
      hide Graph.Structure, GraphNode.Contents, Graph.NodeContents;
      ListFacts(k);
      NodeFacts(k);
      RemoveAtNoDup(nodes, k);
      var first := node.data.endpointList.first;
      UnlinkNode(node, k);
      returned := ReturnEndpoints(node.data, first);
      outNodes := outNodes - {node};
    }

    lemma NodeFacts(k: nat)
      requires Structure() && k < |nodes|
      ensures NodeContents().Some? && |nodes| == |nodeBuffers| && nodeBuffers[k].data == nodes[k]
      ensures NoDup(nodes) && nodeBuffers[k] in outNodes && nodes[k].endpointList.first == At(nodes[k].buffers, 0)
    {
      assert nodes[k].Contents().Some?;
    }

    /** ReturnNode leaves a sound structure. */
    method DeleteNode(node: NodeBuffer, ghost k: nat) returns (ghost returned: seq<EndpointBuffer>)
      requires Structure() && k < |nodes| && nodeBuffers[k] == node
      modifies this`nodeList, this`nodeBuffers, this`nodes, this`lists, this`nodesLen, this`outNodes, this`home,
        nodeBuffers`next, nodeBuffers`prev, nodes[k], nodes[k].buffers`next, nodes[k].buffers`prev
      ensures Structure() && outNodes == old(outNodes) - {node}
      ensures nodeBuffers == RemoveAt(old(nodeBuffers), k) && nodes == RemoveAt(old(nodes), k)
      ensures nodesLen == old(nodesLen) - 1 && lists == RemoveAt(old(lists), k) && returned == old(lists)[k]
      ensures forall e :: e in home <==> e in old(home) && e !in returned
      ensures forall e :: e in home ==> home[e] == old(home)[e]
    {
      hide Graph.Structure, GraphNode.Contents, Graph.NodeContents;
      ListFacts(k);
      NodeFacts(k);
      NodePoolAfterRemoval(k);
      returned := ReturnNode(node, k);
      NodeRemovalKeepsStructure(k);
    }

    lemma NodePoolAfterRemoval(k: nat)
      requires Structure() && k < |nodeBuffers|
      ensures forall b :: b in RemoveAt(nodeBuffers, k) <==> b in outNodes - {nodeBuffers[k]}
    {
      RemoveAtNoDup(nodeBuffers, k);
    }

    /** RTIROS2_Graph_finalize_node. */
    method FinalizeNode(node: NodeBuffer, ghost k: nat) returns (ghost returned: seq<EndpointBuffer>)
      requires Outstanding().Some? && Matches() && k < |nodes| && nodeBuffers[k] == node
      modifies this`nodeList, this`nodeBuffers, this`nodes, this`lists, this`nodesLen, this`outNodes, this`home,
        this`model, nodeBuffers, nodes[k], nodes[k].buffers
      ensures Outstanding().Some? && Matches() && model == Registry.RemoveNode(old(model), k)
      ensures nodeBuffers == RemoveAt(old(nodeBuffers), k) && nodes == RemoveAt(old(nodes), k)
      ensures outNodes == old(outNodes) - {node}
      ensures k < |old(lists)| && lists == RemoveAt(old(lists), k) && returned == old(lists)[k]
      ensures forall e :: e in home <==> e in old(home) && e !in returned
      ensures forall e :: e in home ==> home[e] == old(home)[e]
    {
      hide Graph.Outstanding, Graph.Structure;
      StructureIsSound();
      ListFacts(k);
      returned := DeleteNode(node, k);
      StructureIsSound();
      model := Registry.RemoveNode(model, k);
    }

    /** Node k left the list and went back to its pool, with the endpoint
        buffers that were out for it and no others. */
    twostate predicate NodeReturned(k: nat)
      reads this`nodes, this`nodeBuffers, this`outNodes, this`home
    {
      && k < |old(nodes)| == |old(nodeBuffers)|
      && nodes == RemoveAt(old(nodes), k) && nodeBuffers == RemoveAt(old(nodeBuffers), k)
      && outNodes == old(outNodes) - {old(nodeBuffers)[k]}
      && (forall e :: e in home ==> e in old(home) && home[e] == old(home)[e] && home[e] != old(nodes)[k])
      && (forall e :: e in old(home) && old(home)[e] != old(nodes)[k] ==> e in home)
    }

    method UnregisterLocalNode(nodeHandle: int) returns (rc: ReturnCode)
      requires Valid()
      modifies this`nodeList, this`nodeBuffers, this`nodes, this`lists, this`nodesLen, this`outNodes, this`home,
        this`model, nodeBuffers, nodes, home.Keys
      ensures Valid()
      ensures match Registry.FindNode(old(model).nodes, nodeHandle)
        case None => StorageAfter(false)
        case Some(k) => NodeReturned(k)
      ensures (rc, model) == Registry.UnregisterNode(old(model), nodeHandle)
    {
      hide Graph.Outstanding, GraphOk;
      var node := LookupLocalNodeByHandle(nodeHandle);
      if node == null {
        return BadParameter;
      }
      ghost var k := Registry.FindNode(model.nodes, nodeHandle).value;
      RemoveNodeKeepsOk(model, k);
      BuffersAreOut(k);
      BuffersOfNode(k);
      ghost var returned := FinalizeNode(node, k);
      return Ok;
    }

    lemma ListsHaveNoDuplicates()
      requires Outstanding().Some?
      ensures |lists| == |nodes| == |nodeBuffers| && PoolOk(nodes, lists, home) && NoDup(Flatten(lists))
      ensures forall i :: 0 <= i < |Flatten(lists)| ==> Flatten(lists)[i] in home
      ensures forall e :: e in home ==> e in Flatten(lists)
    {
      forall k | 0 <= k < |lists|
        ensures NoDup(lists[k])
      {
        assert nodes[k].Contents().Some? && nodes[k].buffers == lists[k];
      }
      NothingListedTwice(nodes, lists, home, |lists|);
      assert lists[..|lists|] == lists;
      FlattenElements(lists, |lists|);
      forall i | 0 <= i < |Flatten(lists)|
        ensures Flatten(lists)[i] in home
      {
        assert Listed(lists, Flatten(lists)[i]);
      }
    }

    /** The teardown loop of RTIROS2_Graph_finalize: the successor is read
        before the node is unlinked. Every node buffer goes back to its pool
        once, in list order, and so does every endpoint buffer, node by node in
        list order; both pools end up fully returned. */
    method Finalize() returns (ghost nodesReturned: seq<NodeBuffer>, ghost endpointsReturned: seq<EndpointBuffer>)
      requires Valid()
      modifies this`nodeList, this`nodeBuffers, this`nodes, this`lists, this`nodesLen, this`outNodes, this`home,
        this`model, nodeBuffers, nodes, home.Keys
      ensures nodes == [] && outNodes == {} && home == map[]
      ensures nodesReturned == old(nodeBuffers)
      ensures endpointsReturned == Flatten(old(lists)) && NoDup(endpointsReturned)
      ensures forall i :: 0 <= i < |endpointsReturned| ==> endpointsReturned[i] in old(home)
      ensures forall e :: e in old(home) ==> e in endpointsReturned
    {
      hide Graph.Outstanding, Graph.Matches, GraphNode.Contents, GraphOk, Linked;
      ListsHaveNoDuplicates();
      nodesReturned, endpointsReturned := [], [];
      ghost var done, allBuffers, allNodes, allLists := 0, nodeBuffers, nodes, lists;
      NodeListFacts();
      var node := nodeList.first;
      while node != null
        invariant Outstanding().Some? && Matches() && node == At(nodeBuffers, 0)
        invariant 0 <= done <= |allBuffers| == |allNodes| == |allLists| && nodesReturned == allBuffers[..done]
        invariant nodeBuffers == allBuffers[done..] && nodes == allNodes[done..] && lists == allLists[done..]
        invariant endpointsReturned == Flatten(allLists[..done])
        invariant forall e :: e in home ==> e in old(home)
        decreases |allBuffers| - done
      {
        NodeListFacts();
        NodeListStep(0);
        BuffersAreOut(0);
        RestAfter(allBuffers, done);
        RestAfter(allNodes, done);
        RestAfter(allLists, done);
        FlattenStep(allLists, done);
        assert nodes[0] == allNodes[done];
        var next := node.next;
        ghost var returned := FinalizeNode(node, 0);
        done, nodesReturned, endpointsReturned := done + 1, nodesReturned + [node], endpointsReturned + returned;
        node := next;
      }
      assert allBuffers[..done] == allBuffers && allLists[..done] == allLists;
      assert endpointsReturned == Flatten(allLists);
      PoolsAreReturned();
    }

    lemma PoolsAreReturned()
      requires Outstanding().Some? && nodeBuffers == []
      ensures outNodes == {} && home == map[] && nodes == [] && lists == []
    {
      assert home.Keys == {};
    }

    // ---- Inspection ----

    lemma SizesAgree()
      requires Matches()
      ensures NodesMatch() && |model.nodes| == |nodes| && model.graphParticipant == graphParticipant
    {}

    /** The model of a scan of node k in progress: `endpHandle` is the local
        variable of that name, `buffers` what the endpoint pool still has. */
    static ghost function ScanState(g: Registry.Graph, k: nat, endpHandle: int, buffers: nat): Registry.Scan
      requires k < |g.nodes|
    {
      Registry.Scan(g.nodes[k], endpHandle != Handles.INVALID, buffers)
    }

    /** Part of a scan that started in graph `before` came out as `o`. */
    ghost predicate Scanned(before: Registry.Graph, k: nat, ok: bool, endpHandle: int, left: nat, o: Registry.Outcome)
      requires k < |before.nodes|
      reads this`model
    {
      && OnlyNode(before, model, k) && model.nodes[k] == Registry.OutcomeNode(o)
      && ok == o.Running?
      && (ok ==> o.scan == ScanState(model, k, endpHandle, left))
    }

    /** The registration of one entity in the middle of a scan of node k. The
        source passes the node's handle, and the node is looked up again. */
    method RegisterScanned(node: GraphNode, ghost k: nat, kind: EndpointType, r: Option<Reader>, w: Option<Writer>,
                           handle: int, buffers: nat)
      returns (ok: bool, endpHandle: int, left: nat)
      requires Valid() && k < |nodes| && nodes[k] == node && EntityShape(kind, r, w)
      modifies this`lists, this`home, this`model, nodes, home.Keys
      ensures Valid() && PoolExtended()
      ensures Scanned(old(model), k, ok, endpHandle, left,
        Registry.ScanRegister(ScanState(old(model), k, handle, buffers), kind, r, w))
    {
      hide Graph.Outstanding, GraphOk, Registry.AddEndpoint;
      ghost var before := model.nodes[k];
      GraphNodeOk(model, k);
      assert nodes[k].View() == before;
      endpHandle := RegisterLocalEndpoint(node.handle, kind, r, w, buffers > 0);
      ok := endpHandle != Handles.INVALID;
      left := if buffers > 0 then buffers - 1 else 0;
      AddEndpointKeepsOk(before, kind, r, w, buffers > 0);
    }

    method AttachAt(node: GraphNode, ghost k: nat, endp: EndpointBuffer, ghost i: nat, w: Writer)
      requires Structure() && k < |nodes| && nodes[k] == node && i < |node.buffers| && node.buffers[i] == endp
      modifies node`endpoints, node`attaches, endp`data
      ensures Structure() && i < |old(node.endpoints)|
      ensures node.View() == Registry.AttachWriter(old(node.View()), i, w)
    {
      hide Graph.Structure;
      ListFacts(k);
      StructureGivesPool();
      node.AttachWriter(endp, i, w);
      StructureKept(k);
    }

    lemma StructureGivesPool()
      requires Structure()
      ensures PoolOk(nodes, lists, home)
    {}

    lemma AttachKeepsGraphOk(g: Registry.Graph, k: nat, i: nat, w: Writer)
      requires GraphOk(g) && k < |g.nodes| && i < |g.nodes[k].endpoints|
      requires NodeOk(Registry.AttachWriter(g.nodes[k], i, w))
      ensures GraphOk(g.(nodes := g.nodes[k := Registry.AttachWriter(g.nodes[k], i, w)]))
    {
      ReplaceInGraphKeepsOk(g, k, Registry.AttachWriter(g.nodes[k], i, w));
    }

    /** The attach branch of the writer scan. */
    method AttachScanned(node: GraphNode, ghost k: nat, endp: EndpointBuffer, ghost i: nat, w: Writer)
      requires Valid() && k < |nodes| && nodes[k] == node && i < |node.buffers| && node.buffers[i] == endp
      requires i < |model.nodes[k].endpoints| && NodeOk(Registry.AttachWriter(model.nodes[k], i, w))
      modifies this`model, nodes, home.Keys
      ensures Valid() && PoolExtended()
      ensures OnlyNode(old(model), model, k) && model.nodes[k] == Registry.AttachWriter(old(model).nodes[k], i, w)
    {
      hide Graph.Outstanding, Graph.Structure, GraphNode.Contents, GraphOk;
      AttachKeepsGraphOk(model, k, i, w);
      BuffersAreOut(k);
      BuffersHoldEndpoints(k);
      StructureIsSound();
      AttachAt(node, k, endp, i, w);
      StructureIsSound();
      RecordNode(k);
    }

    /** The CLIENT and SERVICE cases of the writer loop. */
    method InspectServiceWriter(node: GraphNode, ghost k: nat, kind: EndpointType, w: Writer, handle: int, buffers: nat)
      returns (ok: bool, endpHandle: int, left: nat)
      requires Valid() && k < |nodes| && nodes[k] == node
      requires IsServiceRole(kind) && kind == DetectEndpointType(w.topic, true)
      requires Registry.FindByEntities(model.nodes[k].endpoints, None, Some(w)).None?
      modifies this`lists, this`home, this`model, nodes, home.Keys
      ensures Valid() && PoolExtended()
      ensures Scanned(old(model), k, ok, endpHandle, left,
        Registry.ScanWriter(ScanState(old(model), k, handle, buffers), w))
    {
      hide Graph.Outstanding, Graph.Matches, Graph.NodesMatch, GraphNode.Contents, GraphOk, NodeOk,
        Registry.EntitiesMatch, Registry.TopicMatches, Registry.ScanRegister;
      SizesAgree();
      ok, endpHandle, left := true, handle, buffers;
      BuffersHoldEndpoints(k);
      var endp := node.LookupLocalEndpointByTopicName(w.topic, false);
      if endp == null {
        ok, endpHandle, left := RegisterScanned(node, k, kind, None, Some(w), handle, buffers);
      } else if endp.data.writer.Some? {
        ok := false;
      } else {
        ghost var i := Registry.FindByTopic(model.nodes[k].endpoints, w.topic, false).value;
        GraphNodeOk(model, k);
        AttachKeepsOk(model.nodes[k], i, w);
        AttachScanned(node, k, endp, i, w);
        ok := endpHandle != Handles.INVALID;
      }
    }

    /** One turn of the writer loop. Returns false where the source jumps out. */
    method InspectWriter(node: GraphNode, ghost k: nat, w: Writer, handle: int, buffers: nat)
      returns (ok: bool, endpHandle: int, left: nat)
      requires Valid() && k < |nodes| && nodes[k] == node
      modifies this`lists, this`home, this`model, nodes, home.Keys
      ensures Valid() && PoolExtended()
      ensures Scanned(old(model), k, ok, endpHandle, left,
        Registry.ScanWriter(ScanState(old(model), k, handle, buffers), w))
    {
      hide Graph.Outstanding, Graph.Matches, Graph.NodesMatch, GraphNode.Contents, GraphOk;
      SizesAgree();
      ok, endpHandle, left := true, handle, buffers;
      BuffersHoldEndpoints(k);
      var endp := node.LookupLocalEndpointByDdsEndpoints(None, Some(w));
      if endp != null {
        return;
      }
      var kind := DetectEndpointType(w.topic, true);
      if kind == Publisher {
        ok, endpHandle, left := RegisterScanned(node, k, kind, None, Some(w), handle, buffers);
      } else if kind == Client || kind == Service {
        ok, endpHandle, left := InspectServiceWriter(node, k, kind, w, handle, buffers);
      }
    }

    /** The CLIENT and SERVICE cases of the reader loop. The endpoint found by
        topic always has a reader, so that the source's attach branch is never
        taken here. */
    method InspectServiceReader(node: GraphNode, ghost k: nat, kind: EndpointType, r: Reader, handle: int, buffers: nat)
      returns (ok: bool, endpHandle: int, left: nat)
      requires Valid() && k < |nodes| && nodes[k] == node
      requires IsServiceRole(kind) && kind == DetectEndpointType(r.topic, false)
      requires Registry.FindByEntities(model.nodes[k].endpoints, Some(r), None).None?
      modifies this`lists, this`home, this`model, nodes, home.Keys
      ensures Valid() && PoolExtended()
      ensures Scanned(old(model), k, ok, endpHandle, left,
        Registry.ScanReader(ScanState(old(model), k, handle, buffers), r))
    {
      hide Graph.Outstanding, Graph.Matches, Graph.NodesMatch, GraphNode.Contents, GraphOk;
      SizesAgree();
      ok, endpHandle, left := true, handle, buffers;
      BuffersHoldEndpoints(k);
      var endp := node.LookupLocalEndpointByTopicName(r.topic, false);
      if endp == null {
        ok, endpHandle, left := RegisterScanned(node, k, kind, Some(r), None, handle, buffers);
      } else if endp.data.reader.Some? {
        ok := false;
      } else {
        assert false;
      }
    }

    /** One turn of the reader loop. */
    method InspectReader(node: GraphNode, ghost k: nat, r: Reader, handle: int, buffers: nat)
      returns (ok: bool, endpHandle: int, left: nat)
      requires Valid() && k < |nodes| && nodes[k] == node
      modifies this`lists, this`home, this`model, nodes, home.Keys
      ensures Valid() && PoolExtended()
      ensures Scanned(old(model), k, ok, endpHandle, left,
        Registry.ScanReader(ScanState(old(model), k, handle, buffers), r))
    {
      hide Graph.Outstanding, Graph.Matches, Graph.NodesMatch, GraphNode.Contents, GraphOk;
      SizesAgree();
      ok, endpHandle, left := true, handle, buffers;
      BuffersHoldEndpoints(k);
      var endp := node.LookupLocalEndpointByDdsEndpoints(Some(r), None);
      if endp != null {
        return;
      }
      var kind := DetectEndpointType(r.topic, false);
      if kind == Subscription {
        ok, endpHandle, left := RegisterScanned(node, k, kind, Some(r), None, handle, buffers);
      } else if kind == Client || kind == Service {
        ok, endpHandle, left := InspectServiceReader(node, k, kind, r, handle, buffers);
      }
    }

    /** The inner loop of the writer scan. */
    method InspectPublisher(node: GraphNode, ghost k: nat, writers: seq<Writer>, handle: int, buffers: nat)
      returns (ok: bool, endpHandle: int, left: nat)
      requires Valid() && k < |nodes| && nodes[k] == node
      modifies this`lists, this`home, this`model, nodes, home.Keys
      ensures Valid() && PoolExtended()
      ensures Scanned(old(model), k, ok, endpHandle, left,
        Registry.ScanWriters(ScanState(old(model), k, handle, buffers), Registry.Somes(writers)))
    {
      hide Graph.Outstanding, Graph.Matches, GraphOk, Registry.ScanWriters, Registry.ScanWriter, Registry.Somes;
      SizesAgree();
      ok, endpHandle, left := true, handle, buffers;
      ghost var all := Registry.ScanWriters(ScanState(model, k, handle, buffers), Registry.Somes(writers));
      var j := 0;
      ScanWritersEnds(ScanState(model, k, handle, buffers), writers);
      while j < |writers|
        invariant 0 <= j <= |writers| && ok && Valid() && PoolExtended()
        invariant OnlyNode(old(model), model, k)
        invariant all == Registry.ScanWriters(ScanState(model, k, endpHandle, left), Registry.Somes(writers[j..]))
      {
        ScanWritersStep(ScanState(model, k, endpHandle, left), writers, j);
        ghost var before := model;
        ok, endpHandle, left := InspectWriter(node, k, writers[j], endpHandle, left);
        OnlyNodeTransitive(old(model), before, model, k);
        if !ok {
          return;
        }
        j := j + 1;
      }
      ScanWritersEnds(ScanState(model, k, endpHandle, left), writers);
    }

    method InspectWriters(node: GraphNode, ghost k: nat, publishers: seq<Option<seq<Writer>>>,
                          handle: int, buffers: nat)
      returns (ok: bool, endpHandle: int, left: nat)
      requires Valid() && k < |nodes| && nodes[k] == node
      modifies this`lists, this`home, this`model, nodes, home.Keys
      ensures Valid() && PoolExtended()
      ensures Scanned(old(model), k, ok, endpHandle, left,
        Registry.ScanWriters(ScanState(old(model), k, handle, buffers), Registry.Events(Some(publishers))))
    {
      hide Graph.Outstanding, Graph.Matches, GraphOk, Registry.ScanWriters, Registry.Somes, Registry.Events, Remaining;
      SizesAgree();
      ok, endpHandle, left := true, handle, buffers;
      ghost var all := Registry.ScanWriters(ScanState(model, k, handle, buffers), Remaining(publishers, 0));
      WriterGroupEnds(ScanState(model, k, handle, buffers), publishers);
      var i := 0;
      while i < |publishers|
        invariant 0 <= i <= |publishers| && ok && Valid() && PoolExtended()
        invariant OnlyNode(old(model), model, k)
        invariant all == Registry.ScanWriters(ScanState(model, k, endpHandle, left), Remaining(publishers, i))
      {
        WriterGroupStep(ScanState(model, k, endpHandle, left), publishers, i);
        if publishers[i].None? {
          ok := false;
          return;
        }
        var writers := publishers[i].value;
        ghost var before := model;
        ok, endpHandle, left := InspectPublisher(node, k, writers, endpHandle, left);
        OnlyNodeTransitive(old(model), before, model, k);
        if !ok {
          return;
        }
        i := i + 1;
      }
      WriterGroupEnds(ScanState(model, k, endpHandle, left), publishers);
    }

    /** The inner loop of the reader scan. */
    method InspectSubscriber(node: GraphNode, ghost k: nat, readers: seq<Reader>, handle: int, buffers: nat)
      returns (ok: bool, endpHandle: int, left: nat)
      requires Valid() && k < |nodes| && nodes[k] == node
      modifies this`lists, this`home, this`model, nodes, home.Keys
      ensures Valid() && PoolExtended()
      ensures Scanned(old(model), k, ok, endpHandle, left,
        Registry.ScanReaders(ScanState(old(model), k, handle, buffers), Registry.Somes(readers)))
    {
      hide Graph.Outstanding, Graph.Matches, GraphOk, Registry.ScanReaders, Registry.ScanReader, Registry.Somes;
      SizesAgree();
      ok, endpHandle, left := true, handle, buffers;
      ghost var all := Registry.ScanReaders(ScanState(model, k, handle, buffers), Registry.Somes(readers));
      var j := 0;
      ScanReadersEnds(ScanState(model, k, handle, buffers), readers);
      while j < |readers|
        invariant 0 <= j <= |readers| && ok && Valid() && PoolExtended()
        invariant OnlyNode(old(model), model, k)
        invariant all == Registry.ScanReaders(ScanState(model, k, endpHandle, left), Registry.Somes(readers[j..]))
      {
        ScanReadersStep(ScanState(model, k, endpHandle, left), readers, j);
        ghost var before := model;
        ok, endpHandle, left := InspectReader(node, k, readers[j], endpHandle, left);
        OnlyNodeTransitive(old(model), before, model, k);
        if !ok {
          return;
        }
        j := j + 1;
      }
      ScanReadersEnds(ScanState(model, k, endpHandle, left), readers);
    }

    method InspectReaders(node: GraphNode, ghost k: nat, subscribers: seq<Option<seq<Reader>>>,
                          handle: int, buffers: nat)
      returns (ok: bool, endpHandle: int, left: nat)
      requires Valid() && k < |nodes| && nodes[k] == node
      modifies this`lists, this`home, this`model, nodes, home.Keys
      ensures Valid() && PoolExtended()
      ensures Scanned(old(model), k, ok, endpHandle, left,
        Registry.ScanReaders(ScanState(old(model), k, handle, buffers), Registry.Events(Some(subscribers))))
    {
      hide Graph.Outstanding, Graph.Matches, GraphOk, Registry.ScanReaders, Registry.Somes, Registry.Events, Remaining;
      SizesAgree();
      ok, endpHandle, left := true, handle, buffers;
      ghost var all := Registry.ScanReaders(ScanState(model, k, handle, buffers), Remaining(subscribers, 0));
      ReaderGroupEnds(ScanState(model, k, handle, buffers), subscribers);
      var i := 0;
      while i < |subscribers|
        invariant 0 <= i <= |subscribers| && ok && Valid() && PoolExtended()
        invariant OnlyNode(old(model), model, k)
        invariant all == Registry.ScanReaders(ScanState(model, k, endpHandle, left), Remaining(subscribers, i))
      {
        ReaderGroupStep(ScanState(model, k, endpHandle, left), subscribers, i);
        if subscribers[i].None? {
          ok := false;
          return;
        }
        var readers := subscribers[i].value;
        ghost var before := model;
        ok, endpHandle, left := InspectSubscriber(node, k, readers, endpHandle, left);
        OnlyNodeTransitive(old(model), before, model, k);
        if !ok {
          return;
        }
        i := i + 1;
      }
      ReaderGroupEnds(ScanState(model, k, endpHandle, left), subscribers);
    }

    /** RTIROS2_Graph_inspect_local_nodeEA. The contents are what the DDS calls
        return; None is a failed call. */
    method InspectLocalNodeEA(node: GraphNode, ghost k: nat, c: Registry.Contents, buffers: nat) returns (ok: bool)
      requires Valid() && k < |nodes| && nodes[k] == node
      modifies this`lists, this`home, this`model, nodes, home.Keys
      ensures Valid() && PoolExtended() && OnlyNode(old(model), model, k)
      ensures var o := Registry.Inspect(old(model).nodes[k], c, buffers);
        ok == o.Running? && model.nodes[k] == Registry.OutcomeNode(o)
    {
      hide Graph.Outstanding, Graph.Matches, GraphOk;
      SizesAgree();
      ok := false;
      if c.publishers.None? {
        return;
      }
      var endpHandle, left;
      ok, endpHandle, left := InspectWriters(node, k, c.publishers.value, Handles.INVALID, buffers);
      if !ok {
        return;
      }
      if c.subscribers.None? {
        ok := false;
        return;
      }
      ghost var before := model;
      ok, endpHandle, left := InspectReaders(node, k, c.subscribers.value, endpHandle, left);
      OnlyNodeTransitive(old(model), before, model, k);
    }

    method InspectLocalNode(nodeHandle: int, c: Registry.Contents, buffers: nat) returns (rc: ReturnCode)
      requires Valid()
      modifies this`lists, this`home, this`tokens, this`model, nodes, home.Keys
      ensures Valid() && PoolExtended()
      ensures (rc, model) == Registry.InspectNode(old(model), nodeHandle, c, buffers)
    {
      hide Graph.Outstanding, GraphOk;
      var node := LookupLocalNodeByHandle(nodeHandle);
      if node == null {
        return Error;
      }
      var ok := InspectLocalNodeEA(node.data, Registry.FindNode(model.nodes, nodeHandle).value, c, buffers);
      if ok {
        QueueUpdate();
      }
      return if ok then Ok else Error;
    }

    /** The polling loop of the update thread, which ignores failures. */
    method Poll(polls: seq<Inspection>)
      requires Valid() && |polls| == |nodes|
      modifies this`lists, this`home, this`model, nodes, home.Keys
      ensures Valid() && PoolExtended()
      ensures PolledUpTo(old(model), model, |polls|, polls)
    {
      hide Graph.Outstanding, Graph.Matches, Graph.NodesMatch, GraphOk, Registry.Inspect, Registry.OutcomeNode,
        PolledUpTo, Linked;
      SizesAgree();
      ghost var start := model;
      PolledNone(model, polls);
      NodeListFacts();
      var k := 0;
      var node := nodeList.first;
      while node != null
        invariant 0 <= k <= |nodes| && node == At(nodeBuffers, k)
        invariant Valid() && PoolExtended() && PolledUpTo(start, model, k, polls)
        decreases |nodes| - k
      {
        SizesAgree();
        NodeListStep(k);
        ghost var before := model;
        var ok := InspectLocalNodeEA(node.data, k, polls[k].contents, polls[k].buffers);
        PolledStep(start, before, model, k, polls);
        NodeListStep(k);
        node, k := node.next, k + 1;
      }
    }

    // ---- Node registration ----

    /** A handle for a new node; the search moves only the counter. */
    method TakeNodeHandle() returns (h: int)
      requires Valid()
      modifies this`nodeHandleNext, this`model
      ensures Valid()
      ensures var (issued, next) := Handles.Allocate(
                Registry.NodeHandles(old(model).nodes), old(model).nodeHandleNext, Handles.INT_MAX);
        && model == old(model).(nodeHandleNext := next)
        && h == (if issued.Some? then issued.value else Handles.INVALID)
        && (issued.Some? ==> Handles.HandleOk(h) && h !in Registry.NodeHandles(model.nodes))
    {
      hide Graph.Outstanding;
      FreshHandle(Registry.NodeHandles(model.nodes), model.nodeHandleNext);
      h := NextNodeHandle();
    }

    /** The lists only gained buffers and nodes that are new. */
    twostate predicate ListGrew()
      reads this`nodes, this`nodeBuffers, this`outNodes
    {
      && |nodes| == |old(nodes)| + 1 && nodes[..|old(nodes)|] == old(nodes) && fresh(nodes[|old(nodes)|])
      && |nodeBuffers| == |old(nodeBuffers)| + 1 && nodeBuffers[..|old(nodeBuffers)|] == old(nodeBuffers)
      && fresh(nodeBuffers[|old(nodeBuffers)|]) && outNodes == old(outNodes) + {nodeBuffers[|old(nodeBuffers)|]}
    }

    /** Links a buffer from the node pool at the back. */
    method LinkNode(node: GraphNode, buffer: NodeBuffer)
      requires NodeContents().Some? && buffer !in nodeBuffers && buffer.data == node
      modifies this`nodeList, this`nodeBuffers, this`nodes, this`lists, this`nodesLen, nodeBuffers`next,
        buffer`next, buffer`prev
      ensures NodeContents().Some?
      ensures nodeBuffers == old(nodeBuffers) + [buffer] && nodes == old(nodes) + [node]
      ensures lists == old(lists) + [[]] && nodesLen == old(nodesLen) + 1
    {
      nodeList := AddNodeToBack(nodeList, buffer, nodeBuffers);
      nodeBuffers, nodes, lists := nodeBuffers + [buffer], nodes + [node], lists + [[]];
      nodesLen := nodesLen + 1;
    }

    method InsertNode(p: Participant)
      requires Structure()
      modifies this`nodeList, this`nodeBuffers, this`nodes, this`lists, this`nodesLen, this`outNodes, nodeBuffers`next
      ensures Structure() && ListGrew() && nodesLen == old(nodesLen) + 1
      ensures nodes[|old(nodes)|].View() == BlankNode(p) && nodes[|old(nodes)|].buffers == []
    {
      hide Graph.Structure, Graph.NodeContents;
      NodePools();
      var node := new GraphNode(p);
      var buffer := new ListNode(node);
      LinkNode(node, buffer);
      outNodes := outNodes + {buffer};
      NodeKeepsStructure(node);
    }

    lemma NodePools()
      requires Structure()
      ensures NodeContents().Some? && NodePoolOk() && |nodes| == |nodeBuffers| == |lists|
    {}

    /** Lists a blank buffer from the node pool. */
    method ListNewNode(p: Participant)
      requires Outstanding().Some? && Matches()
      modifies this`nodeList, this`nodeBuffers, this`nodes, this`lists, this`nodesLen, this`outNodes, this`model,
        nodeBuffers
      ensures Outstanding().Some? && Matches() && ListGrew() && nodes[|old(nodes)|].buffers == []
      ensures model == Registry.AppendNode(old(model), BlankNode(p))
    {
      hide Graph.Outstanding, Graph.Structure;
      StructureIsSound();
      InsertNode(p);
      StructureIsSound();
      model := Registry.AppendNode(model, BlankNode(p));
    }

    /** Fills in the handle and the duplicated names of node k; a duplication
        that fails leaves the rest blank. */
    method NameNode(node: GraphNode, ghost k: nat, h: int, name: string, ns: Option<string>,
                    nameDup: bool, namespaceDup: bool)
      returns (ok: bool)
      requires Outstanding().Some? && Matches() && k < |nodes| && nodes[k] == node
      modifies this`model, node`handle, node`name, node`ns
      ensures Outstanding().Some? && Matches() && OnlyNode(old(model), model, k)
      ensures ok <==> nameDup && namespaceDup
      ensures ok ==> model.nodes[k] == old(model).nodes[k].(handle := h, name := name, ns := Namespace(ns))
    {
      hide Graph.Outstanding;
      BuffersAreOut(k);
      ok := node.SetNames(h, name, ns, nameDup, namespaceDup);
      RecordNode(k);
    }

    /** Lists a node and fills it in; on failure the node stays half-filled. */
    method ListNamedNode(h: int, name: string, ns: Option<string>, p: Participant, res: Registry.Resources)
      returns (ok: bool)
      requires Outstanding().Some? && Matches()
      modifies this`nodeList, this`nodeBuffers, this`nodes, this`lists, this`nodesLen, this`outNodes, this`model,
        nodeBuffers
      ensures Outstanding().Some? && Matches() && ListGrew() && nodes[|old(nodes)|].buffers == []
      ensures Appended(old(model), model)
      ensures ok <==> res.nameDup && res.namespaceDup
      ensures ok ==> model == Registry.AppendNode(old(model), Registry.NewNode(h, name, ns, p))
    {
      hide Graph.Outstanding;
      ghost var before := model;
      ListNewNode(p);
      NodeListFacts();
      ok := NameNode(nodeList.last.data, |nodes| - 1, h, name, ns, res.nameDup, res.namespaceDup);
      ChangedLast(before, BlankNode(p), model);
    }

    lemma HomesAreListed()
      requires Outstanding().Some?
      ensures forall e :: e in home ==> home[e] in nodes
      ensures forall b :: b in nodeBuffers <==> b in outNodes
    {}

    lemma BuffersOfNode(k: nat)
      requires Outstanding().Some? && k < |nodes|
      ensures k < |lists| && forall e :: e in home ==> (e in lists[k] <==> home[e] == nodes[k])
    {
      PoolOwner(nodes, lists, home, k);
    }

    /** The rollback of a registration: the buffers listed last go back. */
    method DropLastNode(ghost before: Registry.Graph)
      requires Outstanding().Some? && Matches() && Appended(before, model) && GraphOk(before)
      modifies this`nodeList, this`nodeBuffers, this`nodes, this`lists, this`nodesLen, this`outNodes, this`home,
        this`model, nodeBuffers, nodes[|nodes| - 1], nodes[|nodes| - 1].buffers
      ensures Valid() && model == before
      ensures nodes == old(nodes)[..|old(nodes)| - 1] && nodeBuffers == old(nodeBuffers)[..|old(nodeBuffers)| - 1]
      ensures outNodes == old(outNodes) - {old(nodeBuffers)[|old(nodeBuffers)| - 1]}
      ensures forall e :: e in home <==> e in old(home) && old(home)[e] != old(nodes)[|old(nodes)| - 1]
      ensures forall e :: e in home ==> home[e] == old(home)[e]
    {
      hide Graph.Outstanding, GraphOk;
      NodeListFacts();
      ghost var last := |nodes| - 1;
      BuffersOfNode(last);
      BuffersAreOut(last);
      AppendedIsUndone(before, model);
      RemoveLast(nodes);
      RemoveLast(nodeBuffers);
      ghost var returned := FinalizeNode(nodeList.last, last);
    }

    /** The storage after a registration that kept its node, or gave it back. */
    twostate predicate StorageAfter(kept: bool)
      reads this`nodes, this`nodeBuffers, this`outNodes, this`home
    {
      if kept then ListGrew() && PoolExtended()
      else nodes == old(nodes) && nodeBuffers == old(nodeBuffers) && outNodes == old(outNodes) && home == old(home)
    }

    /** The part of a registration between the handle and the update token. */
    method SetUpNode(h: int, name: string, ns: Option<string>, p: Participant, res: Registry.Resources)
      returns (ok: bool)
      requires Valid() && Registry.ValidNodeArguments(Some(name), ns)
      requires Registry.FindNodeByName(model.nodes, name, ns).None?
      requires Handles.HandleOk(h) && h !in Registry.NodeHandles(model.nodes)
      modifies this`nodeList, this`nodeBuffers, this`nodes, this`lists, this`nodesLen, this`outNodes, this`home,
        this`model, nodeBuffers
      ensures Valid() && StorageAfter(ok) && home == old(home)
      ensures ok <==> res.nameDup && res.namespaceDup
      ensures model == if ok then Registry.AppendNode(old(model), Registry.NewNode(h, name, ns, p)) else old(model)
    {
      hide Graph.Outstanding, Graph.Matches, GraphOk;
      SizesAgree();
      HomesAreListed();
      ghost var before := model;
      ok := ListNamedNode(h, name, ns, p, res);
      if !ok {
        DropLastNode(before);
        assert nodes == old(nodes) && nodeBuffers == old(nodeBuffers);
        assert outNodes == old(outNodes) && home == old(home);
        return;
      }
      AppendNodeKeepsOk(before, name, ns, Registry.NewNode(h, name, ns, p));
    }


    lemma ListLengths()
      requires Outstanding().Some? && NodesMatch()
      ensures |lists| == |nodes| == |model.nodes| && PoolOk(nodes, lists, home)
      ensures forall j :: 0 <= j < |lists| ==> NoDup(lists[j]) && |lists[j]| == |model.nodes[j].endpoints|
    {
      forall j | 0 <= j < |lists|
        ensures NoDup(lists[j]) && |lists[j]| == |model.nodes[j].endpoints|
      {
        assert nodes[j].Contents().Some? && nodes[j].View() == model.nodes[j];
      }
    }

    /** What becomes of the node listed last: it stays with what it got, or
        goes back with everything it got. */
    twostate predicate LastNodeStays(stays: bool)
      requires old(nodes) != [] && old(nodeBuffers) != []
      reads this`nodes, this`nodeBuffers, this`outNodes, this`home
    {
      if stays then
        nodes == old(nodes) && nodeBuffers == old(nodeBuffers) && outNodes == old(outNodes) && PoolExtended()
      else
        && nodes == old(nodes)[..|old(nodes)| - 1] && nodeBuffers == old(nodeBuffers)[..|old(nodeBuffers)| - 1]
        && outNodes == old(outNodes) - {old(nodeBuffers)[|old(nodeBuffers)| - 1]} && home == old(home)
    }

    /** Inspects the node that was listed last; every endpoint buffer that is
        new is on its list. */
    method InspectLast(c: Registry.Contents, buffers: nat) returns (ok: bool)
      requires Valid() && nodes != [] && nodeBuffers != []
      modifies this`lists, this`home, this`model, nodes, home.Keys
      ensures Valid() && PoolExtended()
      ensures forall e :: e in home && e !in old(home) ==> home[e] == nodes[|nodes| - 1]
      ensures OnlyNode(old(model), model, |nodes| - 1)
      ensures model.nodes[|nodes| - 1] == PolledNode(old(model).nodes[|nodes| - 1], Inspection(c, buffers))
      ensures ok <==> Registry.Inspect(old(model).nodes[|nodes| - 1], c, buffers).Running?
    {
      hide Graph.Outstanding, GraphOk, Registry.Inspect, PoolOk;
      NodeListFacts();
      ListLengths();
      ghost var lists0 := lists;
      ok := InspectLocalNodeEA(nodeList.last.data, |nodes| - 1, c, buffers);
      ListLengths();
      PoolOnlyGrewAt(nodes, lists0, old(home), lists, home, |nodes| - 1);
    }

    /** Drops the node again. */
    method DropInspected(ghost before: Registry.Graph)
      requires Valid() && Appended(before, model) && GraphOk(before) && nodes != [] && nodeBuffers != []
      modifies this`nodeList, this`nodeBuffers, this`nodes, this`lists, this`nodesLen, this`outNodes, this`home,
        this`model, nodeBuffers, nodes, home.Keys
      ensures Valid() && model == before
      ensures nodes == old(nodes)[..|old(nodes)| - 1] && nodeBuffers == old(nodeBuffers)[..|old(nodeBuffers)| - 1]
      ensures outNodes == old(outNodes) - {old(nodeBuffers)[|old(nodeBuffers)| - 1]}
      ensures forall e :: e in home <==> e in old(home) && old(home)[e] != old(nodes)[|old(nodes)| - 1]
      ensures forall e :: e in home ==> home[e] == old(home)[e]
    {
      hide Graph.Outstanding, GraphOk;
      BuffersAreOut(|nodes| - 1);
      DropLastNode(before);
    }

    lemma NewNodeHasNoBuffers(k: nat)
      requires Outstanding().Some? && NodesMatch() && k < |nodes| && model.nodes[k].endpoints == []
      ensures forall e :: e in home ==> home[e] != nodes[k]
    {
      BuffersOfNode(k);
      ListLengths();
    }

    /** Inspects the node that was listed last, and drops it again if the
        inspection fails. */
    method InspectOrDrop(c: Registry.Contents, buffers: nat, ghost before: Registry.Graph, ghost n: Registry.Node)
      returns (ok: bool)
      requires Valid() && GraphOk(before) && model == Registry.AppendNode(before, n) && n.endpoints == []
      requires nodes != [] && nodeBuffers != []
      modifies this`nodeList, this`nodeBuffers, this`nodes, this`lists, this`nodesLen, this`outNodes, this`home,
        this`model, nodeBuffers, nodes, home.Keys
      ensures Valid() && LastNodeStays(ok)
      ensures ok <==> Registry.Inspect(n, c, buffers).Running?
      ensures model == if ok then Registry.AppendNode(before, PolledNode(n, Inspection(c, buffers))) else before
    {
      hide Graph.Outstanding, GraphOk, Registry.Inspect, Registry.OutcomeNode;
      SizesAgree();
      NewNodeHasNoBuffers(|nodes| - 1);
      ok := InspectLast(c, buffers);
      ChangedLast(before, n, model);
      if !ok {
        DropInspected(before);
        assert home == old(home);
      }
    }

    /** The inspection of a new node, if polling is enabled. */
    method InspectIfPolling(c: Registry.Contents, buffers: nat, ghost before: Registry.Graph, ghost n: Registry.Node)
      returns (ok: bool)
      requires Valid() && GraphOk(before) && model == Registry.AppendNode(before, n) && n.endpoints == []
      requires nodes != [] && nodeBuffers != []
      modifies this`nodeList, this`nodeBuffers, this`nodes, this`lists, this`nodesLen, this`outNodes, this`home,
        this`model, nodeBuffers, nodes, home.Keys
      ensures Valid() && LastNodeStays(ok)
      ensures (ok, model) == Inspected(before, n, c, buffers)
    {
      hide Graph.Outstanding, GraphOk, Registry.Inspect;
      if !polling {
        return true;
      }
      ok := InspectOrDrop(c, buffers, before, n);
    }

    /** The rest of a registration: the update token, given before the
        inspection, and the inspection if polling is enabled. */
    method InspectNewNode(c: Registry.Contents, buffers: nat, ghost before: Registry.Graph, ghost n: Registry.Node)
      returns (ok: bool)
      requires Valid() && GraphOk(before) && model == Registry.AppendNode(before, n) && n.endpoints == []
      requires nodes != [] && nodeBuffers != []
      modifies this`nodeList, this`nodeBuffers, this`nodes, this`lists, this`nodesLen, this`tokens, this`outNodes,
        this`home, this`model, nodeBuffers, nodes, home.Keys
      ensures Valid() && LastNodeStays(ok)
      ensures (ok, model) == Inspected(Registry.QueueUpdate(before), n, c, buffers)
    {
      hide Graph.Outstanding, GraphOk;
      TokensKeepOk(before);
      QueueUpdate();
      ok := InspectIfPolling(c, buffers, Registry.QueueUpdate(before), n);
    }

    lemma TokensKeepOk(g: Registry.Graph)
      requires GraphOk(g)
      ensures GraphOk(Registry.QueueUpdate(g))
    {}

    /** A registration once it has a handle and a node buffer. */
    method RegisterWithHandle(h: int, name: string, ns: Option<string>, p: Participant,
                              res: Registry.Resources, c: Registry.Contents)
      returns (ok: bool)
      requires Valid() && Registry.ValidNodeArguments(Some(name), ns)
      requires Registry.FindNodeByName(model.nodes, name, ns).None?
      requires Handles.HandleOk(h) && h !in Registry.NodeHandles(model.nodes)
      modifies this`nodeList, this`nodeBuffers, this`nodes, this`lists, this`nodesLen, this`tokens, this`outNodes,
        this`home, this`model, nodeBuffers, nodes, home.Keys
      ensures Valid() && StorageAfter(ok)
      ensures (ok, model) == Registered(old(model), Registry.NewNode(h, name, ns, p), res, c)
    {
      hide Graph.Outstanding, Graph.Matches, GraphOk, Inspected;
      NodeListFacts();
      ghost var before := model;
      ok := SetUpNode(h, name, ns, p, res);
      if !ok {
        return;
      }
      ghost var size := |nodeBuffers| - 1;
      assert nodes[..|nodes| - 1] == old(nodes) && nodeBuffers[..size] == old(nodeBuffers);
      assert outNodes - {nodeBuffers[size]} == old(outNodes);
      ok := InspectNewNode(c, res.endpointBuffers, before, Registry.NewNode(h, name, ns, p));
    }

    /** A registration whose arguments are good and whose name is not listed. */
    method RegisterUnlisted(name: string, ns: Option<string>, p: Option<Participant>,
                            res: Registry.Resources, c: Registry.Contents)
      returns (h: int)
      requires Valid() && Registry.ValidNodeArguments(Some(name), ns)
      requires Registry.FindNodeByName(model.nodes, name, ns).None?
      modifies this`nodeList, this`nodeBuffers, this`nodes, this`lists, this`nodesLen, this`nodeHandleNext, this`tokens,
        this`outNodes, this`home, this`model, nodeBuffers, nodes, home.Keys
      ensures Valid() && StorageAfter(h != Handles.INVALID)
      ensures (h, model) == Registry.RegisterNode(old(model), Some(name), ns, p, res, c)
    {
      hide Graph.Outstanding, Graph.Matches, GraphOk, Registry.RegisterNode, Registered;
      SizesAgree();
      RegisterNodeOutcome(model, name, ns, p, res, c);
      ghost var before := model;
      ghost var (issued, next) := Handles.Allocate(
        Registry.NodeHandles(model.nodes), model.nodeHandleNext, Handles.INT_MAX);
      h := TakeNodeHandle();
      assert model == before.(nodeHandleNext := next);
      if h == Handles.INVALID {
        assert issued.None?;
        return;
      }
      if !res.nodeBuffer {
        h := Handles.INVALID;
        return;
      }
      var ok := RegisterWithHandle(h, name, ns, if p.Some? then p.value else graphParticipant, res, c);
      if !ok {
        h := Handles.INVALID;
      }
    }

    /** RTIROS2_Graph_register_local_node, with the outcome of every
        allocation in `res`. A failed registration leaves the node list, the
        nodes and both pools as they were. */
    method RegisterLocalNode(name: Option<string>, ns: Option<string>, p: Option<Participant>,
                             res: Registry.Resources, c: Registry.Contents)
      returns (h: int)
      requires Valid()
      modifies this`nodeList, this`nodeBuffers, this`nodes, this`lists, this`nodesLen, this`nodeHandleNext, this`tokens,
        this`outNodes, this`home, this`model, nodeBuffers, nodes, home.Keys
      ensures Valid() && StorageAfter(h != Handles.INVALID)
      ensures (h, model) == Registry.RegisterNode(old(model), name, ns, p, res, c)
    {
      hide Graph.Outstanding, GraphOk;
      h := Handles.INVALID;
      if !Registry.ValidNodeArguments(name, ns) {
        return;
      }
      var existing := LookupLocalNodeByName(name.value, ns);
      if existing != null {
        return;
      }
      h := RegisterUnlisted(name.value, ns, p, res, c);
    }
  }
}
