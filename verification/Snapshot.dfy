/** Conversion of the registry into the sample that is published for one
    participant, written into a buffer that is reused from call to call, and
    the list of participants that one update cycle goes through. */
module Snapshot {
  import opened Common
  import opened Registry
  import opened RegistryInvariants

  /** A DDS sequence: `buf` is the storage up to the maximum, of which the
      first `len` elements are visible. Shrinking keeps the storage. */
  datatype DdsSeq<T> = DdsSeq(len: nat, buf: seq<T>)
  {
    ghost predicate Ok() { len <= |buf| }
    function Visible(): seq<T> requires Ok() { buf[..len] }
  }

  /** Resizes to n elements; new storage is filled with `zero`. A negative
      length (a wrapped size_t) is an error. */
  function EnsureLength<T>(q: DdsSeq<T>, n: int, zero: T): (r: Option<DdsSeq<T>>)
    ensures r.None? <==> n < 0
    ensures r.Some? ==> r.value.Ok() && r.value.len == n
    ensures r.Some? ==> forall k :: 0 <= k < n ==> r.value.buf[k] == if k < |q.buf| then q.buf[k] else zero
  {
    if n < 0 then None
    else if n <= |q.buf| then Some(DdsSeq(n, q.buf))
    else Some(DdsSeq(n, q.buf + seq(n - |q.buf|, _ => zero)))
  }

  datatype NodeInfo = NodeInfo(name: string, ns: string, readers: DdsSeq<Gid>, writers: DdsSeq<Gid>)
  datatype Sample = Sample(gid: Gid, nodes: DdsSeq<NodeInfo>)

  const EMPTY_INFO := NodeInfo("", "", DdsSeq(0, []), DdsSeq(0, []))

  /** OutOfBounds: a GID is stored through the NULL that the sequence returns
      for an index past its length, so that the call never returns. */
  datatype Status = Converted | ConversionError | OutOfBounds

  ghost predicate HasEntities(es: seq<Endpoint>) {
    forall e :: e in es ==> e.reader.Some? || e.writer.Some?
  }

  /** The endpoint loop: each endpoint stores one GID, the writer's if it has a
      writer; `ri` and `wi` are the two slot counters. */
  function FillGids(es: seq<Endpoint>, readers: DdsSeq<Gid>, writers: DdsSeq<Gid>, ri: nat, wi: nat)
    : (Status, DdsSeq<Gid>, DdsSeq<Gid>)
    requires HasEntities(es) && readers.Ok() && writers.Ok()
    decreases |es|
  {
    if es == [] then (Converted, readers, writers)
    else
      var e := es[0];
      var ri' := ri + One(e.reader);
      if e.writer.Some? then
        if wi >= writers.len then (OutOfBounds, readers, writers)
        else FillGids(es[1..], readers, writers.(buf := writers.buf[wi := IhToGid(e.writer.value.ih)]), ri', wi + 1)
      else
        assert e in es;
        if ri >= readers.len then (OutOfBounds, readers, writers)
        else FillGids(es[1..], readers.(buf := readers.buf[ri := IhToGid(e.reader.value.ih)]), writers, ri', wi)
  }

  function NodeToSample(n: Node, info: NodeInfo): (Status, NodeInfo)
    requires HasEntities(n.endpoints)
  {
    var named := info.(name := n.name, ns := n.ns);
    match EnsureLength(info.readers, n.readersLen, ZERO_GID)
    case None => (ConversionError, named)
    case Some(readers) =>
      match EnsureLength(info.writers, n.writersLen, ZERO_GID)
      case None => (ConversionError, named.(readers := readers))
      case Some(writers) =>
        var (status, rs, ws) := FillGids(n.endpoints, readers, writers, 0, 0);
        (status, named.(readers := rs, writers := ws))
  }

  /** The node loop over the rest of the list; `i` is the next free slot.
      Returns the number of slots filled. */
  function ConvertNodes(nodes: seq<Node>, p: Participant, infos: DdsSeq<NodeInfo>, i: nat)
    : (r: (Status, DdsSeq<NodeInfo>, nat))
    requires infos.Ok() && i + |nodes| <= infos.len
    requires forall n :: n in nodes ==> HasEntities(n.endpoints)
    ensures r.1.len == infos.len && |r.1.buf| == |infos.buf| && i <= r.2 <= i + |nodes|
    decreases |nodes|
  {
    if nodes == [] then (Converted, infos, i)
    else if nodes[0].participant != p then ConvertNodes(nodes[1..], p, infos, i)
    else
      var (status, info) := NodeToSample(nodes[0], infos.buf[i]);
      var infos' := infos.(buf := infos.buf[i := info]);
      if status != Converted then (status, infos', i)
      else ConvertNodes(nodes[1..], p, infos', i + 1)
  }

  ghost predicate Convertible(g: Graph) {
    g.nodesLen == |g.nodes| && forall n :: n in g.nodes ==> HasEntities(n.endpoints)
  }

  function Convert(g: Graph, p: Participant, s: Sample): (Status, Sample)
    requires Convertible(g)
  {
    var s1 := s.(gid := IhToGid(p.ih));
    match EnsureLength(s.nodes, g.nodesLen, EMPTY_INFO)
    case None => (ConversionError, s1)
    case Some(infos) =>
      var (status, infos', count) := ConvertNodes(g.nodes, p, infos, 0);
      if status != Converted then (status, s1.(nodes := infos'))
      else (Converted, s1.(nodes := infos'.(len := count)))
  }

  lemma ReachableConvertible(g: Graph)
    requires GraphOk(g)
    ensures Convertible(g)
  {
    forall n | n in g.nodes
      ensures HasEntities(n.endpoints)
    {
      assert NodeOk(n);
      assert forall e :: e in n.endpoints ==> EndpointOk(e);
    }
  }

  // ---- What the buffer holds afterwards ----

  /** The GIDs of the endpoints' writers, in order. */
  function WriterGids(es: seq<Endpoint>): (r: seq<Gid>)
    ensures |r| == Count(es, HasWriter)
  {
    if es == [] then []
    else (if es[0].writer.Some? then [IhToGid(es[0].writer.value.ih)] else []) + WriterGids(es[1..])
  }

  /** The k-th endpoint that has a reader. */
  function ReaderEndpointAt(es: seq<Endpoint>, k: nat): (e: Endpoint)
    requires k < Count(es, HasReader)
    ensures e in es && e.reader.Some?
  {
    Filter(es, HasReader)[k]
  }

  /** The GID in reader slot k: the k-th reader's if its endpoint has no writer,
      and otherwise what the slot held before. */
  function ReaderSlot(es: seq<Endpoint>, k: nat, before: Gid): Gid
    requires k < Count(es, HasReader)
  {
    var e := ReaderEndpointAt(es, k);
    if e.writer.None? then IhToGid(e.reader.value.ih) else before
  }

  /** Whether and where the loop stores writers, from slot wi on. */
  lemma {:induction false} FillGidsWriters(es: seq<Endpoint>, readers: DdsSeq<Gid>, writers: DdsSeq<Gid>,
                                           ri: nat, wi: nat)
    requires HasEntities(es) && readers.Ok() && writers.Ok()
    requires ri + Count(es, HasReader) == readers.len && wi <= writers.len
    ensures var (status, rs, ws) := FillGids(es, readers, writers, ri, wi);
      && status != ConversionError
      && (status == Converted <==> wi + Count(es, HasWriter) <= writers.len)
      && ws.Ok() && ws.len == writers.len && |ws.buf| == |writers.buf|
      && (forall k :: 0 <= k < wi ==> ws.buf[k] == writers.buf[k])
      && (status == Converted ==> forall k :: 0 <= k < Count(es, HasWriter) ==> ws.buf[wi + k] == WriterGids(es)[k])
    decreases |es|
  {
    if es != [] {
      var e, rest := es[0], es[1..];
      assert e in es;
      var ri' := ri + One(e.reader);
      if e.writer.Some? {
        if wi < writers.len {
          var writers' := writers.(buf := writers.buf[wi := IhToGid(e.writer.value.ih)]);
          FillGidsWriters(rest, readers, writers', ri', wi + 1);
          assert WriterGids(es) == [IhToGid(e.writer.value.ih)] + WriterGids(rest);
        }
      } else {
        FillGidsWriters(rest, readers.(buf := readers.buf[ri := IhToGid(e.reader.value.ih)]), writers, ri', wi);
        assert WriterGids(es) == WriterGids(rest);
      }
    }
  }

  lemma ReaderSlotStep(es: seq<Endpoint>, k: nat, before: Gid)
    requires k < Count(es, HasReader)
    ensures ReaderSlot(es, k, before) ==
      if es[0].reader.None? then ReaderSlot(es[1..], k, before)
      else if k > 0 then ReaderSlot(es[1..], k - 1, before)
      else if es[0].writer.None? then IhToGid(es[0].reader.value.ih) else before
  {}

  /** What the loop leaves in the reader slots, from slot ri on. */
  lemma {:induction false} FillGidsReaders(es: seq<Endpoint>, readers: DdsSeq<Gid>, writers: DdsSeq<Gid>,
                                           ri: nat, wi: nat)
    requires HasEntities(es) && readers.Ok() && writers.Ok()
    requires ri + Count(es, HasReader) == readers.len
    ensures var (status, rs, ws) := FillGids(es, readers, writers, ri, wi);
      && rs.Ok() && rs.len == readers.len && |rs.buf| == |readers.buf|
      && (forall k :: 0 <= k < ri ==> rs.buf[k] == readers.buf[k])
      && (status == Converted ==> forall j :: ri <= j < readers.len ==>
        rs.buf[j] == ReaderSlot(es, j - ri, readers.buf[j]))
    decreases |es|
  {
    if es != [] {
      var e, rest := es[0], es[1..];
      assert e in es;
      var ri' := ri + One(e.reader);
      var (status, rs, ws) := FillGids(es, readers, writers, ri, wi);
      if e.writer.Some? {
        if wi < writers.len {
          FillGidsReaders(rest, readers, writers.(buf := writers.buf[wi := IhToGid(e.writer.value.ih)]), ri', wi + 1);
        }
      } else {
        FillGidsReaders(rest, readers.(buf := readers.buf[ri := IhToGid(e.reader.value.ih)]), writers, ri', wi);
      }
      forall j | status == Converted && ri <= j < readers.len
        ensures rs.buf[j] == ReaderSlot(es, j - ri, readers.buf[j])
      {
        ReaderSlotStep(es, j - ri, readers.buf[j]);
      }
    }
  }

  /** What the slot of node n holds after its conversion. */
  ghost predicate Describes(info: NodeInfo, n: Node, before: NodeInfo) {
    && info.name == n.name && info.ns == n.ns
    && info.writers.Ok() && info.writers.Visible() == WriterGids(n.endpoints)
    && info.readers.Ok() && info.readers.len == Count(n.endpoints, HasReader)
    && forall k :: 0 <= k < info.readers.len ==>
      info.readers.buf[k] ==
        ReaderSlot(n.endpoints, k, if k < |before.readers.buf| then before.readers.buf[k] else ZERO_GID)
  }

  /** The conversion sizes the writer sequence by the counter; an attach step
      leaves the counter behind. */
  predicate Balanced(n: Node) {
    n.writersLen == Count(n.endpoints, HasWriter)
  }

  /** What becomes of a node's conversion. A counter below zero has wrapped and
      is refused as a length; any other counter that is behind lets the loop run
      past the sequence, where it stores through NULL. */
  function NodeVerdict(n: Node): Status {
    if Balanced(n) then Converted else if n.writersLen < 0 then ConversionError else OutOfBounds
  }

  lemma BalancedMeansNeverAttached(n: Node)
    requires NodeOk(n)
    ensures n.writersLen <= Count(n.endpoints, HasWriter) && (Balanced(n) <==> n.attaches == 0)
  {}

  /** A consistent node is converted in full exactly when its counter agrees
      with its endpoints; otherwise the sign of the counter tells the error
      return from the store through NULL. */
  lemma NodeToSampleMeaning(n: Node, info: NodeInfo)
    requires NodeOk(n) && HasEntities(n.endpoints)
    ensures var (status, info') := NodeToSample(n, info);
      && (status == Converted <==> n.writersLen == Count(n.endpoints, HasWriter))
      && (status == ConversionError <==> n.writersLen < 0)
      && (status == OutOfBounds <==> 0 <= n.writersLen < Count(n.endpoints, HasWriter))
      && (status == Converted ==> Describes(info', n, info))
  {
    BalancedMeansNeverAttached(n);
    var readers := EnsureLength(info.readers, n.readersLen, ZERO_GID).value;
    if n.writersLen >= 0 {
      var writers := EnsureLength(info.writers, n.writersLen, ZERO_GID).value;
      FillGidsWriters(n.endpoints, readers, writers, 0, 0);
      FillGidsReaders(n.endpoints, readers, writers, 0, 0);
      assert Balanced(n) ==> NodeToSample(n, info).1.writers.Visible() == WriterGids(n.endpoints);
    }
  }

  /** The conversion of a list of nodes stops at the first that fails. */
  function Verdict(nodes: seq<Node>): Status {
    if nodes == [] then Converted
    else if NodeVerdict(nodes[0]) != Converted then NodeVerdict(nodes[0])
    else Verdict(nodes[1..])
  }

  lemma {:induction false} VerdictMeaning(nodes: seq<Node>)
    ensures Verdict(nodes) == Converted <==> forall n :: n in nodes ==> Balanced(n)
    ensures match FirstIndex(nodes, (n: Node) => !Balanced(n))
      case None => Verdict(nodes) == Converted
      case Some(k) => Verdict(nodes) == if nodes[k].writersLen < 0 then ConversionError else OutOfBounds
  {
    var p := (n: Node) => !Balanced(n);
    if nodes != [] {
      VerdictMeaning(nodes[1..]);
      assert nodes == [nodes[0]] + nodes[1..];
      assert p(nodes[0]) <==> !Balanced(nodes[0]);
      assert FirstIndex(nodes[1..], p) == FirstIndex(nodes[1..], (n: Node) => !Balanced(n));
    }
  }

  function OfParticipant(p: Participant): Node -> bool {
    (n: Node) => n.participant == p
  }

  /** The nodes of a participant, in list order. */
  function NodesOf(nodes: seq<Node>, p: Participant): seq<Node> {
    Filter(nodes, OfParticipant(p))
  }

  /** What the slots from i on hold after the nodes were converted into them. */
  ghost predicate DescribesAll(infos: seq<NodeInfo>, i: nat, mine: seq<Node>, before: seq<NodeInfo>) {
    && i + |mine| <= |infos| == |before|
    && forall j :: i <= j < i + |mine| ==> Describes(infos[j], mine[j - i], before[j])
  }

  lemma DescribesAllStep(infos: seq<NodeInfo>, i: nat, n: Node, rest: seq<Node>, before: seq<NodeInfo>, info: NodeInfo)
    requires i < |before| && DescribesAll(infos, i + 1, rest, before[i := info])
    requires infos[i] == info && Describes(info, n, before[i])
    ensures DescribesAll(infos, i, [n] + rest, before)
  {
    forall j | i < j < i + 1 + |rest|
      ensures Describes(infos[j], ([n] + rest)[j - i], before[j])
    {
      assert Describes(infos[j], rest[j - (i + 1)], before[i := info][j]);
    }
  }

  ghost predicate AllOk(nodes: seq<Node>) {
    forall n :: n in nodes ==> NodeOk(n) && HasEntities(n.endpoints)
  }

  ghost predicate ConvertsTo(nodes: seq<Node>, p: Participant, infos: DdsSeq<NodeInfo>, i: nat)
    requires infos.Ok() && i + |nodes| <= infos.len && AllOk(nodes)
  {
    var (status, infos', count) := ConvertNodes(nodes, p, infos, i);
    && status == Verdict(NodesOf(nodes, p))
    && (forall k :: 0 <= k < i ==> infos'.buf[k] == infos.buf[k])
    && (status == Converted ==>
      count == i + |NodesOf(nodes, p)| && DescribesAll(infos'.buf, i, NodesOf(nodes, p), infos.buf))
  }

  lemma ConvertOwnNode(nodes: seq<Node>, p: Participant, infos: DdsSeq<NodeInfo>, i: nat)
    requires infos.Ok() && i + |nodes| <= infos.len && AllOk(nodes)
    requires nodes != [] && nodes[0].participant == p
    requires var (status, info) := NodeToSample(nodes[0], infos.buf[i]);
      status == Converted ==> ConvertsTo(nodes[1..], p, infos.(buf := infos.buf[i := info]), i + 1)
    ensures ConvertsTo(nodes, p, infos, i)
  {
    hide NodeOk, Describes;
    var n, rest := nodes[0], nodes[1..];
    assert n in nodes;
    var (status, info) := NodeToSample(n, infos.buf[i]);
    NodeToSampleMeaning(n, infos.buf[i]);
    BalancedMeansNeverAttached(n);
    var mine, restMine := NodesOf(nodes, p), NodesOf(rest, p);
    assert mine == [n] + restMine && mine[1..] == restMine;
    if status == Converted && Verdict(restMine) == Converted {
      DescribesAllStep(ConvertNodes(nodes, p, infos, i).1.buf, i, n, restMine, infos.buf, info);
    }
  }

  lemma ConvertOtherNode(nodes: seq<Node>, p: Participant, infos: DdsSeq<NodeInfo>, i: nat)
    requires infos.Ok() && i + |nodes| <= infos.len && AllOk(nodes)
    requires nodes != [] && nodes[0].participant != p && ConvertsTo(nodes[1..], p, infos, i)
    ensures ConvertsTo(nodes, p, infos, i)
  {
    hide NodeOk, Describes, DescribesAll;
    assert NodesOf(nodes, p) == NodesOf(nodes[1..], p);
  }

  lemma {:induction false} ConvertNodesMeaning(nodes: seq<Node>, p: Participant, infos: DdsSeq<NodeInfo>, i: nat)
    requires infos.Ok() && i + |nodes| <= infos.len && AllOk(nodes)
    ensures ConvertsTo(nodes, p, infos, i)
    decreases |nodes|
  {
    hide NodeOk, Describes, DescribesAll, ConvertsTo;
    if nodes == [] {
      ConvertNoNode(p, infos, i);
    } else if nodes[0].participant != p {
      ConvertNodesMeaning(nodes[1..], p, infos, i);
      ConvertOtherNode(nodes, p, infos, i);
    } else {
      assert nodes[0] in nodes;
      var (status, info) := NodeToSample(nodes[0], infos.buf[i]);
      if status == Converted {
        ConvertNodesMeaning(nodes[1..], p, infos.(buf := infos.buf[i := info]), i + 1);
      }
      ConvertOwnNode(nodes, p, infos, i);
    }
  }

  lemma ConvertNoNode(p: Participant, infos: DdsSeq<NodeInfo>, i: nat)
    requires infos.Ok() && i <= infos.len
    ensures ConvertsTo([], p, infos, i)
  {}

  /** What slot k held before a conversion. */
  function SlotBefore(s: Sample, k: nat): NodeInfo {
    if k < |s.nodes.buf| then s.nodes.buf[k] else EMPTY_INFO
  }

  /** In a consistent registry the conversion comes out as the first unbalanced
      node of the participant says, in list order, and succeeds exactly when
      there is none; then the sample lists that participant's nodes, in list
      order, whatever the buffer held before. */
  lemma ConvertMeaning(g: Graph, p: Participant, s: Sample)
    requires GraphOk(g) && Convertible(g)
    ensures var (status, s') := Convert(g, p, s);
      && status == Verdict(NodesOf(g.nodes, p))
      && (status == Converted ==>
        && s'.gid == IhToGid(p.ih) && s'.nodes.Ok() && s'.nodes.len == |NodesOf(g.nodes, p)|
        && forall k :: 0 <= k < s'.nodes.len ==> Describes(s'.nodes.buf[k], NodesOf(g.nodes, p)[k], SlotBefore(s, k)))
  {
    var infos := EnsureLength(s.nodes, g.nodesLen, EMPTY_INFO).value;
    assert AllOk(g.nodes);
    ConvertNodesMeaning(g.nodes, p, infos, 0);
    CountBound(g.nodes, OfParticipant(p));
    assert forall k :: 0 <= k < |g.nodes| ==> infos.buf[k] == SlotBefore(s, k);
  }

  // ---- Endpoints with one entity each ----

  function ReaderGids(es: seq<Endpoint>): (r: seq<Gid>)
    ensures |r| == Count(es, HasReader)
  {
    if es == [] then []
    else (if es[0].reader.Some? then [IhToGid(es[0].reader.value.ih)] else []) + ReaderGids(es[1..])
  }

  predicate SingleEntity(e: Endpoint) {
    e.reader.None? || e.writer.None?
  }

  lemma {:induction false} ReaderGidAt(es: seq<Endpoint>, k: nat)
    requires k < Count(es, HasReader)
    ensures ReaderGids(es)[k] == IhToGid(ReaderEndpointAt(es, k).reader.value.ih)
    decreases |es|
  {
    if es[0].reader.None? {
      ReaderGidAt(es[1..], k);
    } else if k > 0 {
      ReaderGidAt(es[1..], k - 1);
    }
  }

  /** A node as a sample shows it, without the storage behind it; the node
      entry of the C++ sample, whose sequences are vectors, holds just this. */
  datatype Listing = Listing(name: string, ns: string, readers: seq<Gid>, writers: seq<Gid>)

  function List(n: Node): Listing {
    Listing(n.name, n.ns, ReaderGids(n.endpoints), WriterGids(n.endpoints))
  }

  function Shown(info: NodeInfo): Listing
    requires info.readers.Ok() && info.writers.Ok()
  {
    Listing(info.name, info.ns, info.readers.Visible(), info.writers.Visible())
  }

  /** If no endpoint has both entities the slot is exact, with nothing left of
      what it held before. */
  lemma SingleEntitySlotIsExact(n: Node, info: NodeInfo, before: NodeInfo)
    requires Describes(info, n, before) && forall e :: e in n.endpoints ==> SingleEntity(e)
    ensures Shown(info) == List(n)
  {
    forall k | 0 <= k < info.readers.len
      ensures info.readers.buf[k] == ReaderGids(n.endpoints)[k]
    {
      ReaderGidAt(n.endpoints, k);
    }
  }

  /** What a converted node shows: exact names and writers, one entry per
      reader, and exact readers where no endpoint has both entities. */
  ghost predicate Lists(c: Listing, n: Node) {
    && c.name == n.name && c.ns == n.ns && c.writers == WriterGids(n.endpoints)
    && |c.readers| == Count(n.endpoints, HasReader)
    && ((forall e :: e in n.endpoints ==> SingleEntity(e)) ==> c.readers == ReaderGids(n.endpoints))
  }

  lemma SlotLists(info: NodeInfo, n: Node, before: NodeInfo)
    requires Describes(info, n, before)
    ensures Lists(Shown(info), n)
  {
    if forall e :: e in n.endpoints ==> SingleEntity(e) {
      SingleEntitySlotIsExact(n, info, before);
    }
  }

  /** On such registries the published content is a function of the registry. */
  lemma SingleEntitySampleIsExact(g: Graph, p: Participant, s: Sample)
    requires GraphOk(g) && Convertible(g) && Verdict(NodesOf(g.nodes, p)) == Converted
    requires forall n, e :: n in NodesOf(g.nodes, p) && e in n.endpoints ==> SingleEntity(e)
    ensures var (status, s') := Convert(g, p, s);
      && status == Converted && s'.gid == IhToGid(p.ih)
      && s'.nodes.Ok() && s'.nodes.len == |NodesOf(g.nodes, p)|
      && forall k :: 0 <= k < s'.nodes.len ==>
        && s'.nodes.buf[k].readers.Ok() && s'.nodes.buf[k].writers.Ok()
        && Shown(s'.nodes.buf[k]) == List(NodesOf(g.nodes, p)[k])
  {
    ConvertMeaning(g, p, s);
    var s' := Convert(g, p, s).1;
    forall k | 0 <= k < s'.nodes.len
      ensures s'.nodes.buf[k].readers.Ok() && s'.nodes.buf[k].writers.Ok()
      ensures Shown(s'.nodes.buf[k]) == List(NodesOf(g.nodes, p)[k])
    {
      assert NodesOf(g.nodes, p)[k] in NodesOf(g.nodes, p);
      SingleEntitySlotIsExact(NodesOf(g.nodes, p)[k], s'.nodes.buf[k], SlotBefore(s, k));
    }
  }

  function OtherGid(gid: Gid): Gid {
    gid[0 := if gid[0] == 0 then 1 else 0]
  }

  lemma FindReaderIndex(es: seq<Endpoint>, e: Endpoint) returns (k: nat)
    requires e in es && e.reader.Some?
    ensures k < Count(es, HasReader) && ReaderEndpointAt(es, k) == e
  {
    assert HasReader(e);
    assert |Filter(es, HasReader)| == Count(es, HasReader);
    k :| 0 <= k < |Filter(es, HasReader)| && Filter(es, HasReader)[k] == e;
  }

  /** A buffer from which a node with such an endpoint shows a wrong GID. */
  lemma DoubleEntityShowsOldGid(n: Node, e: Endpoint) returns (info: NodeInfo)
    requires NodeOk(n) && HasEntities(n.endpoints) && Balanced(n)
    requires e in n.endpoints && !SingleEntity(e)
    ensures VisibleReaders(NodeToSample(n, info).1) != ReaderGids(n.endpoints)
  {
    var k := FindReaderIndex(n.endpoints, e);
    var wrong := OtherGid(ReaderGids(n.endpoints)[k]);
    info := EMPTY_INFO.(readers := DdsSeq(0, seq(k + 1, _ => wrong)));
    NodeToSampleMeaning(n, info);
    ReaderGidAt(n.endpoints, k);
    assert VisibleReaders(NodeToSample(n, info).1)[k] == wrong;
  }

  /** The reader GIDs of a node are published faithfully from every buffer
      exactly when none of its endpoints has both a reader and a writer. */
  lemma ReadersFaithfulIff(n: Node)
    requires NodeOk(n) && HasEntities(n.endpoints) && Balanced(n)
    ensures (forall info :: VisibleReaders(NodeToSample(n, info).1) == ReaderGids(n.endpoints))
       <==> (forall e :: e in n.endpoints ==> SingleEntity(e))
  {
    if forall e :: e in n.endpoints ==> SingleEntity(e) {
      forall info
        ensures VisibleReaders(NodeToSample(n, info).1) == ReaderGids(n.endpoints)
      {
        NodeToSampleMeaning(n, info);
        SingleEntitySlotIsExact(n, NodeToSample(n, info).1, info);
      }
    } else {
      var e :| e in n.endpoints && !SingleEntity(e);
      var info := DoubleEntityShowsOldGid(n, e);
    }
  }

  /** The visible reader GIDs of a slot. */
  function VisibleReaders(info: NodeInfo): seq<Gid> {
    if info.readers.len <= |info.readers.buf| then info.readers.buf[..info.readers.len] else []
  }

  // ---- Participants of one update cycle ----

  function AppendParticipant(ps: seq<Participant>, p: Participant): seq<Participant> {
    if p in ps then ps else ps + [p]
  }

  function GatherFrom(ps: seq<Participant>, nodes: seq<Node>): seq<Participant>
    decreases |nodes|
  {
    if nodes == [] then ps else GatherFrom(AppendParticipant(ps, nodes[0].participant), nodes[1..])
  }

  function Gather(nodes: seq<Node>): seq<Participant> {
    GatherFrom([], nodes)
  }

  lemma {:induction false} GatherFromSnoc(ps: seq<Participant>, nodes: seq<Node>, n: Node)
    ensures GatherFrom(ps, nodes + [n]) == AppendParticipant(GatherFrom(ps, nodes), n.participant)
    decreases |nodes|
  {
    if nodes == [] {
      assert ([n] + [])[1..] == [];
    } else {
      assert (nodes + [n])[1..] == nodes[1..] + [n];
      GatherFromSnoc(AppendParticipant(ps, nodes[0].participant), nodes[1..], n);
    }
  }

  function FirstOf(nodes: seq<Node>, p: Participant): Option<nat> {
    FirstIndex(nodes, OfParticipant(p))
  }

  lemma FirstOfSnoc(nodes: seq<Node>, n: Node, p: Participant)
    requires FirstOf(nodes, p).Some?
    ensures FirstOf(nodes + [n], p) == FirstOf(nodes, p)
  {
    var i, j := FirstOf(nodes, p).value, FirstOf(nodes + [n], p);
    var all := nodes + [n];
    assert OfParticipant(p)(all[i]);
    assert forall k :: 0 <= k < i ==> all[k] == nodes[k];
  }

  ghost predicate InFirstOccurrenceOrder(ps: seq<Participant>, nodes: seq<Node>) {
    && (forall a :: 0 <= a < |ps| ==> FirstOf(nodes, ps[a]).Some?)
    && (forall a, b :: 0 <= a < b < |ps| ==> FirstOf(nodes, ps[a]).value < FirstOf(nodes, ps[b]).value)
  }

  lemma {:induction false} GatherElements(nodes: seq<Node>)
    ensures NoDup(Gather(nodes))
    ensures forall p :: p in Gather(nodes) <==> exists n :: n in nodes && n.participant == p
  {
    if nodes != [] {
      var before, n := nodes[..|nodes| - 1], nodes[|nodes| - 1];
      assert nodes == before + [n];
      GatherElements(before);
      GatherFromSnoc([], before, n);
    }
  }

  lemma FirstOfLast(before: seq<Node>, n: Node)
    requires n.participant !in Gather(before)
    ensures FirstOf(before + [n], n.participant) == Some(|before|)
  {
    GatherElements(before);
    var all := before + [n];
    assert OfParticipant(n.participant)(all[|before|]);
    assert forall i :: 0 <= i < |before| ==> all[i] in before;
  }

  lemma {:induction false} GatherOrder(nodes: seq<Node>)
    ensures InFirstOccurrenceOrder(Gather(nodes), nodes)
  {
    if nodes != [] {
      var before, n := nodes[..|nodes| - 1], nodes[|nodes| - 1];
      assert nodes == before + [n];
      GatherOrder(before);
      GatherFromSnoc([], before, n);
      forall a | 0 <= a < |Gather(before)|
        ensures FirstOf(nodes, Gather(before)[a]) == FirstOf(before, Gather(before)[a])
      {
        FirstOfSnoc(before, n, Gather(before)[a]);
      }
      if n.participant !in Gather(before) {
        FirstOfLast(before, n);
      }
    }
  }

  /** The gathered list has exactly the participants of the nodes, without
      duplicates, in the order in which the node list first mentions them. */
  lemma GatherMeaning(nodes: seq<Node>)
    ensures NoDup(Gather(nodes))
    ensures forall p :: p in Gather(nodes) <==> exists n :: n in nodes && n.participant == p
    ensures InFirstOccurrenceOrder(Gather(nodes), nodes)
  {
    GatherElements(nodes);
    GatherOrder(nodes);
  }

  /** Total of the per-participant node counts. */
  function SumOfCounts(ps: seq<Participant>, nodes: seq<Node>): nat {
    if ps == [] then 0 else Count(nodes, OfParticipant(ps[0])) + SumOfCounts(ps[1..], nodes)
  }

  lemma {:induction false} SumOfCountsSnoc(ps: seq<Participant>, nodes: seq<Node>, n: Node)
    requires NoDup(ps)
    ensures SumOfCounts(ps, nodes + [n]) == SumOfCounts(ps, nodes) + (if n.participant in ps then 1 else 0)
  {
    if ps != [] {
      CountConcat(nodes, [n], OfParticipant(ps[0]));
      SumOfCountsSnoc(ps[1..], nodes, n);
    }
  }

  lemma {:induction false} SumOfCountsAppend(ps: seq<Participant>, p: Participant, nodes: seq<Node>)
    ensures SumOfCounts(ps + [p], nodes) == SumOfCounts(ps, nodes) + Count(nodes, OfParticipant(p))
  {
    if ps == [] {
      assert [p][1..] == [];
    } else {
      assert (ps + [p])[1..] == ps[1..] + [p];
      SumOfCountsAppend(ps[1..], p, nodes);
    }
  }

  /** One update cycle over an unchanged registry lists every node exactly
      once: the sizes of its samples add up to the number of nodes. */
  lemma {:induction false} GatherPartitionsNodes(nodes: seq<Node>)
    ensures SumOfCounts(Gather(nodes), nodes) == |nodes|
    ensures forall i :: 0 <= i < |nodes| ==> nodes[i].participant in Gather(nodes)
  {
    GatherElements(nodes);
    if nodes != [] {
      var before, n := nodes[..|nodes| - 1], nodes[|nodes| - 1];
      assert nodes == before + [n];
      GatherPartitionsNodes(before);
      GatherElements(before);
      GatherFromSnoc([], before, n);
      SumOfCountsSnoc(Gather(before), before, n);
      if n.participant !in Gather(before) {
        CountConcat(before, [n], OfParticipant(n.participant));
        CountBound(before, OfParticipant(n.participant));
        SumOfCountsAppend(Gather(before), n.participant, nodes);
      }
    }
  }

  /** The sample sizes of such a cycle, read off the converted samples. */
  lemma CycleCoversNodesLen(g: Graph, samples: seq<Sample>)
    requires GraphOk(g) && Convertible(g) && Verdict(g.nodes) == Converted
    requires |samples| == |Gather(g.nodes)|
    ensures SumOfLengths(seq(|samples|, k requires 0 <= k < |samples| =>
      Convert(g, Gather(g.nodes)[k], samples[k]).1)) == g.nodesLen
  {
    var ps := Gather(g.nodes);
    var converted := seq(|samples|, k requires 0 <= k < |samples| => Convert(g, ps[k], samples[k]).1);
    forall k | 0 <= k < |samples|
      ensures converted[k].nodes.len == Count(g.nodes, OfParticipant(ps[k]))
    {
      ConvertMeaning(g, ps[k], samples[k]);
      VerdictMeaning(g.nodes);
      VerdictMeaning(NodesOf(g.nodes, ps[k]));
    }
    LengthsAreCounts(converted, ps, g.nodes);
    GatherPartitionsNodes(g.nodes);
  }

  function SumOfLengths(samples: seq<Sample>): nat {
    if samples == [] then 0 else samples[0].nodes.len + SumOfLengths(samples[1..])
  }

  lemma {:induction false} LengthsAreCounts(samples: seq<Sample>, ps: seq<Participant>, nodes: seq<Node>)
    requires |samples| == |ps|
    requires forall k :: 0 <= k < |ps| ==> samples[k].nodes.len == Count(nodes, OfParticipant(ps[k]))
    ensures SumOfLengths(samples) == SumOfCounts(ps, nodes)
  {
    if ps != [] {
      LengthsAreCounts(samples[1..], ps[1..], nodes);
    }
  }
}
