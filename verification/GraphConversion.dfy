/** The conversion loops of the C adapter, which overwrite a sample that is kept
    from one update to the next, the gathering of the participants, and the
    C++ adapter's deep copy into its own reused sample. */
module GraphConversion {
  import opened Common
  import opened InlineList
  import opened RegistryInvariants
  import opened Snapshot
  import Registry
  import GraphObjects

  /** The GID sequence that the local variable gid_seq points to. */
  datatype GidSeqPointer = NoSeq | ReaderSeq | WriterSeq

  /** RTIROS2_Graph_node_to_sample, on the slot that it is given. One GID is
      stored per endpoint, where the last of the two branches left the three
      local variables. */
  method NodeToSample(node: GraphObjects.GraphNode, slot: NodeInfo) returns (status: Status, info: NodeInfo)
    requires node.Contents().Some? && HasEntities(node.endpoints)
    ensures (status, info) == Snapshot.NodeToSample(node.View(), slot)
  {
    info := slot.(name := node.name, ns := node.ns);
    var readers := EnsureLength(info.readers, node.readersLen, ZERO_GID);
    if readers.None? {
      return ConversionError, info;
    }
    info := info.(readers := readers.value);
    var writers := EnsureLength(info.writers, node.writersLen, ZERO_GID);
    if writers.None? {
      return ConversionError, info;
    }
    info := info.(writers := writers.value);

    ghost var es := node.endpoints;
    ghost var all := FillGids(es, info.readers, info.writers, 0, 0);
    var ih: KeyHash := seq(KEY_HASH_LENGTH, _ => 0);
    var readerI, writerI, endpI, gidSeq := 0, 0, 0, NoSeq;
    ghost var i := 0;
    var endp := node.endpointList.first;
    assert es[0..] == es;
    while endp != null
      invariant 0 <= i <= |es| && endp == At(node.buffers, i) && 0 <= readerI && 0 <= writerI
      invariant info.readers.Ok() && info.writers.Ok()
      invariant info == slot.(name := node.name, ns := node.ns, readers := info.readers, writers := info.writers)
      invariant all == FillGids(es[i..], info.readers, info.writers, readerI, writerI)
      decreases |es| - i
    {
      assert es[i..][0] == endp.data && es[i..][1..] == es[i + 1..];
      if endp.data.reader.Some? {
        ih, gidSeq, endpI := endp.data.reader.value.ih, ReaderSeq, readerI;
        readerI := readerI + 1;
      }
      if endp.data.writer.Some? {
        ih, gidSeq, endpI := endp.data.writer.value.ih, WriterSeq, writerI;
        writerI := writerI + 1;
      }
      if endpI >= (if gidSeq == ReaderSeq then info.readers.len else info.writers.len) {
        return OutOfBounds, info;
      }
      if gidSeq == ReaderSeq {
        info := info.(readers := info.readers.(buf := info.readers.buf[endpI := IhToGid(ih)]));
      } else {
        info := info.(writers := info.writers.(buf := info.writers.buf[endpI := IhToGid(ih)]));
      }
      endp, i := endp.next, i + 1;
    }
    return Converted, info;
  }

  /** The sample buffer that the update thread owns. */
  class SampleBuffer {
    var gid: Gid
    var nodes: DdsSeq<NodeInfo>

    constructor (s: Sample)
      ensures View() == s
    {
      gid, nodes := s.gid, s.nodes;
    }

    ghost function View(): Sample
      reads this
    {
      Sample(gid, nodes)
    }
  }

  lemma ConvertNodesStep(nodes: seq<Registry.Node>, k: nat, p: Participant, infos: DdsSeq<NodeInfo>, i: nat)
    requires k < |nodes| && infos.Ok() && i + |nodes| - k <= infos.len
    requires forall n :: n in nodes ==> HasEntities(n.endpoints)
    ensures ConvertNodes(nodes[k..], p, infos, i) ==
      if nodes[k].participant != p then ConvertNodes(nodes[k + 1..], p, infos, i)
      else
        var (status, info) := Snapshot.NodeToSample(nodes[k], infos.buf[i]);
        var infos' := infos.(buf := infos.buf[i := info]);
        if status != Converted then (status, infos', i) else ConvertNodes(nodes[k + 1..], p, infos', i + 1)
  {
    assert nodes[k..][0] == nodes[k] && nodes[k..][1..] == nodes[k + 1..];
  }

  lemma ConvertNodesEnd(nodes: seq<Registry.Node>, p: Participant, infos: DdsSeq<NodeInfo>, i: nat)
    requires infos.Ok() && i <= infos.len
    ensures ConvertNodes(nodes[|nodes|..], p, infos, i) == (Converted, infos, i)
  {}

  /** The node loop; nodeI is the next free slot. */
  method FillSlots(g: GraphObjects.Graph, p: Participant, pinfo: SampleBuffer) returns (status: Status, nodeI: nat)
    requires g.Outstanding().Some? && g.Matches() && Convertible(g.model)
    requires pinfo.nodes.Ok() && pinfo.nodes.len == |g.nodes|
    modifies pinfo`nodes
    ensures (status, pinfo.nodes, nodeI) == ConvertNodes(g.model.nodes, p, old(pinfo.nodes), 0)
  {
    hide GraphObjects.Graph.Outstanding, GraphObjects.Graph.Matches, GraphObjects.Graph.NodesMatch,
      GraphObjects.GraphNode.Contents, InlineList.Linked, ConvertNodes, Snapshot.NodeToSample;
    g.SizesAgree();
    g.NodeListFacts();
    ghost var nodes := g.model.nodes;
    ghost var all := ConvertNodes(nodes, p, pinfo.nodes, 0);
    ghost var k := 0;
    nodeI := 0;
    var node := g.nodeList.first;
    assert nodes[0..] == nodes;
    while node != null
      invariant 0 <= k <= |nodes| && nodeI <= k && node == At(g.nodeBuffers, k)
      invariant pinfo.nodes.Ok() && pinfo.nodes.len == |nodes|
      invariant all == ConvertNodes(nodes[k..], p, pinfo.nodes, nodeI)
      decreases |nodes| - k
    {
      g.NodeListStep(k);
      ConvertNodesStep(nodes, k, p, pinfo.nodes, nodeI);
      g.BuffersHoldEndpoints(k);
      if node.data.participant != p {
        node, k := node.next, k + 1;
        continue;
      }
      assert nodes[k] in nodes;
      var info;
      status, info := NodeToSample(node.data, pinfo.nodes.buf[nodeI]);
      pinfo.nodes := pinfo.nodes.(buf := pinfo.nodes.buf[nodeI := info]);
      if status != Converted {
        return;
      }
      node, k, nodeI := node.next, k + 1, nodeI + 1;
    }
    ConvertNodesEnd(nodes, p, pinfo.nodes, nodeI);
    status := Converted;
  }

  /** RTIROS2_CGraphSampleAdapter_convert_to_sample. */
  method ConvertToSample(g: GraphObjects.Graph, p: Participant, pinfo: SampleBuffer) returns (status: Status)
    requires g.Valid()
    modifies pinfo
    ensures Convertible(g.model)
    ensures (status, pinfo.View()) == Convert(g.model, p, old(pinfo.View()))
  {
    hide GraphObjects.Graph.Outstanding, ConvertNodes;
    ReachableConvertible(g.model);
    pinfo.gid := IhToGid(p.ih);
    var infos := EnsureLength(pinfo.nodes, g.nodesLen, EMPTY_INFO);
    if infos.None? {
      return ConversionError;
    }
    pinfo.nodes := infos.value;
    var nodeI;
    status, nodeI := FillSlots(g, p, pinfo);
    if status == Converted {
      pinfo.nodes := pinfo.nodes.(len := nodeI);
    }
  }

  // ---- Gathering the participants ----

  /** The participant sequence that the update thread reuses. */
  class ParticipantSeq {
    var items: seq<Participant>

    constructor ()
      ensures items == []
    {
      items := [];
    }

    method AppendParticipant(p: Participant)
      modifies this
      ensures items == Snapshot.AppendParticipant(old(items), p)
    {
      var i := 0;
      while i < |items|
        invariant 0 <= i <= |items| && items == old(items) && p !in items[..i]
      {
        if items[i] == p {
          return;
        }
        i := i + 1;
      }
      items := items + [p];
    }
  }

  method GatherDomainParticipants(g: GraphObjects.Graph, participants: ParticipantSeq)
    requires g.Outstanding().Some? && g.Matches()
    modifies participants
    ensures participants.items == Gather(g.model.nodes)
  {
    hide GraphObjects.Graph.Outstanding, GraphObjects.Graph.Matches, GraphObjects.Graph.NodesMatch;
    g.SizesAgree();
    g.NodeListFacts();
    participants.items := [];
    ghost var nodes := g.model.nodes;
    ghost var k := 0;
    var node := g.nodeList.first;
    assert nodes[0..] == nodes;
    while node != null
      invariant 0 <= k <= |nodes| && node == At(g.nodeBuffers, k)
      invariant Gather(nodes) == GatherFrom(participants.items, nodes[k..])
      decreases |nodes| - k
    {
      g.NodeListStep(k);
      g.BuffersHoldEndpoints(k);
      assert nodes[k..][0] == nodes[k] && nodes[k..][1..] == nodes[k + 1..];
      participants.AppendParticipant(node.data.participant);
      node, k := node.next, k + 1;
    }
  }

  // ---- The C++ adapter ----

  const EMPTY_LISTING := Listing("", "", [], [])

  /** std::vector::resize. */
  function Resize<T>(v: seq<T>, n: nat, zero: T): (r: seq<T>)
    ensures |r| == n && forall i :: 0 <= i < n ==> r[i] == if i < |v| then v[i] else zero
  {
    if n <= |v| then v[..n] else v + seq(n - |v|, _ => zero)
  }

  /** A C sample whose sequences all have storage for their lengths. */
  ghost predicate WellFormed(s: Sample) {
    s.nodes.Ok() && forall k :: 0 <= k < s.nodes.len ==> s.nodes.buf[k].readers.Ok() && s.nodes.buf[k].writers.Ok()
  }

  class CppSample {
    var gid: Gid
    var nodes: seq<Listing>

    constructor (gid: Gid, nodes: seq<Listing>)
      ensures this.gid == gid && this.nodes == nodes
    {
      this.gid, this.nodes := gid, nodes;
    }
  }

  /** The inner loops: one GID sequence copied into a resized vector. */
  method CopyGids(from: DdsSeq<Gid>, into: seq<Gid>) returns (v: seq<Gid>)
    requires from.Ok()
    ensures v == from.Visible()
  {
    v := Resize(into, from.len, ZERO_GID);
    var j := 0;
    while j < from.len
      invariant 0 <= j <= from.len == |v| && v[..j] == from.buf[..j]
    {
      v := v[j := from.buf[j]];
      j := j + 1;
    }
  }

  /** The copy of a converted C sample: whatever the C++ sample held before, it
      ends up with exactly the visible part of the C sample. */
  method CopySample(c: Sample, sample: CppSample)
    requires WellFormed(c)
    modifies sample
    ensures sample.gid == c.gid && |sample.nodes| == c.nodes.len
    ensures forall k :: 0 <= k < c.nodes.len ==> sample.nodes[k] == Shown(c.nodes.buf[k])
  {
    sample.gid := c.gid;
    sample.nodes := Resize(sample.nodes, c.nodes.len, EMPTY_LISTING);
    var i := 0;
    while i < c.nodes.len
      invariant 0 <= i <= c.nodes.len == |sample.nodes| && sample.gid == c.gid
      invariant forall k :: 0 <= k < i ==> sample.nodes[k] == Shown(c.nodes.buf[k])
    {
      var cNode := c.nodes.buf[i];
      var cppNode := sample.nodes[i].(name := cNode.name, ns := cNode.ns);
      var readers := CopyGids(cNode.readers, cppNode.readers);
      var writers := CopyGids(cNode.writers, cppNode.writers);
      sample.nodes := sample.nodes[i := cppNode.(readers := readers, writers := writers)];
      i := i + 1;
    }
  }

  /** A successful conversion always leaves a sample that can be copied. */
  lemma ConvertedIsWellFormed(g: Registry.Graph, p: Participant, s: Sample)
    requires GraphOk(g) && Convertible(g) && Convert(g, p, s).0 == Converted
    ensures var c := Convert(g, p, s).1;
      && WellFormed(c) && c.gid == IhToGid(p.ih) && c.nodes.len == |NodesOf(g.nodes, p)|
      && forall k :: 0 <= k < c.nodes.len ==> Lists(Shown(c.nodes.buf[k]), NodesOf(g.nodes, p)[k])
  {
    ConvertMeaning(g, p, s);
    var c := Convert(g, p, s).1;
    forall k | 0 <= k < c.nodes.len
      ensures c.nodes.buf[k].readers.Ok() && c.nodes.buf[k].writers.Ok()
      ensures Lists(Shown(c.nodes.buf[k]), NodesOf(g.nodes, p)[k])
    {
      SlotLists(c.nodes.buf[k], NodesOf(g.nodes, p)[k], SlotBefore(s, k));
    }
  }

  /** RTIROS2_CppGraphSampleAdapter_convert_to_sample, from the registry to the
      C++ sample, whatever the two reused samples held before. None is a call
      that does not return: a GID is stored through NULL. The first unbalanced
      node of the participant decides, in list order. */
  method CppConvertToSample(g: GraphObjects.Graph, p: Participant, cSample: SampleBuffer, sample: CppSample)
    returns (rc: Option<ReturnCode>)
    requires g.Valid()
    modifies cSample, sample
    ensures rc == match Verdict(NodesOf(g.model.nodes, p))
      case Converted => Some(Ok)
      case ConversionError => Some(Error)
      case OutOfBounds => None
    ensures rc != Some(Ok) ==> sample.gid == old(sample.gid) && sample.nodes == old(sample.nodes)
    ensures rc == Some(Ok) ==> sample.gid == IhToGid(p.ih) && |sample.nodes| == |NodesOf(g.model.nodes, p)|
    ensures rc == Some(Ok) ==>
      forall k :: 0 <= k < |sample.nodes| ==> Lists(sample.nodes[k], NodesOf(g.model.nodes, p)[k])
  {
    hide GraphObjects.Graph.Outstanding, GraphObjects.Graph.Matches, Convertible, Convert;
    ghost var graph, before := g.model, cSample.View();
    ReachableConvertible(graph);
    ConvertMeaning(graph, p, before);
    var status := ConvertToSample(g, p, cSample);
    if status == OutOfBounds {
      return None;
    }
    if status == ConversionError {
      return Some(Error);
    }
    ConvertedIsWellFormed(graph, p, before);
    CopySample(Sample(cSample.gid, cSample.nodes), sample);
    return Some(Ok);
  }
}
