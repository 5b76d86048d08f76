/** What an inspection achieves: it covers every ROS-named entity, it changes
    nothing the second time, and its verdict and its result are known exactly. */
module Inspection {
  import opened Common
  import opened Naming
  import opened Registry
  import opened RegistryInvariants
  import Handles

  predicate RosWriter(w: Writer) {
    DetectEndpointType(w.topic, true) != Unknown
  }

  predicate RosReader(r: Reader) {
    DetectEndpointType(r.topic, false) != Unknown
  }

  predicate HasWriterIn(es: seq<Endpoint>, w: Writer) {
    exists i :: 0 <= i < |es| && es[i].writer == Some(w)
  }

  predicate HasReaderIn(es: seq<Endpoint>, r: Reader) {
    exists i :: 0 <= i < |es| && es[i].reader == Some(r)
  }

  /** es' has every endpoint of es in place with the same handle, type and
      reader, and with the same writer unless es had none. */
  ghost predicate Extends(es: seq<Endpoint>, es': seq<Endpoint>) {
    && |es| <= |es'|
    && forall i :: 0 <= i < |es| ==>
      && es'[i].handle == es[i].handle && es'[i].kind == es[i].kind && es'[i].reader == es[i].reader
      && (es[i].writer.Some? ==> es'[i].writer == es[i].writer)
  }

  lemma ExtendsKeepsEntities(es: seq<Endpoint>, es': seq<Endpoint>)
    requires Extends(es, es')
    ensures forall w :: HasWriterIn(es, w) ==> HasWriterIn(es', w)
    ensures forall r :: HasReaderIn(es, r) ==> HasReaderIn(es', r)
  {
    forall w | HasWriterIn(es, w) ensures HasWriterIn(es', w) {
      var i :| 0 <= i < |es| && es[i].writer == Some(w);
      assert es'[i].writer == Some(w);
    }
    forall r | HasReaderIn(es, r) ensures HasReaderIn(es', r) {
      var i :| 0 <= i < |es| && es[i].reader == Some(r);
      assert es'[i].reader == Some(r);
    }
  }

  /** The two one-sided lookups search for one entity. */
  lemma FindMeansHas(es: seq<Endpoint>)
    ensures forall w :: FindByEntities(es, None, Some(w)).Some? <==> HasWriterIn(es, w)
    ensures forall r :: FindByEntities(es, Some(r), None).Some? <==> HasReaderIn(es, r)
  {
    forall w
      ensures FindByEntities(es, None, Some(w)).Some? <==> HasWriterIn(es, w)
    {
      assert forall i :: 0 <= i < |es| ==> (EntitiesMatch(es[i], None, Some(w)) <==> es[i].writer == Some(w));
    }
    forall r
      ensures FindByEntities(es, Some(r), None).Some? <==> HasReaderIn(es, r)
    {
      assert forall i :: 0 <= i < |es| ==> (EntitiesMatch(es[i], Some(r), None) <==> es[i].reader == Some(r));
    }
  }

  // ---- Coverage ----

  lemma ScanRegisterExtends(s: Scan, kind: EndpointType, r: Option<Reader>, w: Option<Writer>)
    requires NodeOk(s.node) && EntityShape(kind, r, w)
    ensures var o := ScanRegister(s, kind, r, w);
      o.Running? ==>
        var es := o.scan.node.endpoints;
        && Extends(s.node.endpoints, es)
        && |es| == |s.node.endpoints| + 1
        && es[|s.node.endpoints|].(handle := 0) == Endpoint(0, kind, r, w)
  {
    AddEndpointKeepsOk(s.node, kind, r, w, s.buffers > 0);
  }

  lemma ScanWriterCovers(s: Scan, w: Writer)
    requires NodeOk(s.node) && ScanWriter(s, w).Running?
    ensures var es' := ScanWriter(s, w).scan.node.endpoints;
      Extends(s.node.endpoints, es') && (RosWriter(w) ==> HasWriterIn(es', w))
  {
    var kind := DetectEndpointType(w.topic, true);
    FindMeansHas(s.node.endpoints);
    var es' := ScanWriter(s, w).scan.node.endpoints;
    if !HasWriterIn(s.node.endpoints, w) && RosWriter(w) {
      var found := FindByTopic(s.node.endpoints, w.topic, false);
      if kind == Publisher || found.None? {
        ScanRegisterExtends(s, kind, None, Some(w));
        assert es'[|s.node.endpoints|].writer == Some(w);
      } else {
        assert es'[found.value].writer == Some(w);
      }
    }
  }

  lemma ScanReaderCovers(s: Scan, r: Reader)
    requires NodeOk(s.node) && ScanReader(s, r).Running?
    ensures var es' := ScanReader(s, r).scan.node.endpoints;
      Extends(s.node.endpoints, es') && (RosReader(r) ==> HasReaderIn(es', r))
  {
    var kind := DetectEndpointType(r.topic, false);
    FindMeansHas(s.node.endpoints);
    if !HasReaderIn(s.node.endpoints, r) && RosReader(r) {
      ScanRegisterExtends(s, kind, Some(r), None);
      assert ScanReader(s, r).scan.node.endpoints[|s.node.endpoints|].reader == Some(r);
    }
  }

  ghost predicate CoversWriters(es: seq<Endpoint>, events: seq<Option<Writer>>) {
    forall k :: 0 <= k < |events| ==>
      events[k].Some? && (RosWriter(events[k].value) ==> HasWriterIn(es, events[k].value))
  }

  ghost predicate CoversReaders(es: seq<Endpoint>, events: seq<Option<Reader>>) {
    forall k :: 0 <= k < |events| ==>
      events[k].Some? && (RosReader(events[k].value) ==> HasReaderIn(es, events[k].value))
  }

  lemma CoversWritersStep(es: seq<Endpoint>, es': seq<Endpoint>, events: seq<Option<Writer>>)
    requires events != [] && events[0].Some? && (RosWriter(events[0].value) ==> HasWriterIn(es, events[0].value))
    requires Extends(es, es') && CoversWriters(es', events[1..])
    ensures CoversWriters(es', events)
  {
    ExtendsKeepsEntities(es, es');
    assert forall k :: 1 <= k < |events| ==> events[k] == events[1..][k - 1];
  }

  lemma CoversReadersStep(es: seq<Endpoint>, es': seq<Endpoint>, events: seq<Option<Reader>>)
    requires events != [] && events[0].Some? && (RosReader(events[0].value) ==> HasReaderIn(es, events[0].value))
    requires Extends(es, es') && CoversReaders(es', events[1..])
    ensures CoversReaders(es', events)
  {
    ExtendsKeepsEntities(es, es');
    assert forall k :: 1 <= k < |events| ==> events[k] == events[1..][k - 1];
  }

  lemma ExtendsTransitive(a: seq<Endpoint>, b: seq<Endpoint>, c: seq<Endpoint>)
    requires Extends(a, b) && Extends(b, c)
    ensures Extends(a, c)
  {}

  lemma {:induction false} ScanWritersCovers(s: Scan, events: seq<Option<Writer>>)
    requires NodeOk(s.node) && ScanWriters(s, events).Running?
    ensures var n' := ScanWriters(s, events).scan.node;
      NodeOk(n') && Extends(s.node.endpoints, n'.endpoints) && CoversWriters(n'.endpoints, events)
    decreases |events|
  {
    if events != [] {
      ScanWriterKeepsOk(s, events[0].value);
      ScanWriterCovers(s, events[0].value);
      var s' := ScanWriter(s, events[0].value).scan;
      ScanWritersCovers(s', events[1..]);
      var n' := ScanWriters(s', events[1..]).scan.node;
      ExtendsTransitive(s.node.endpoints, s'.node.endpoints, n'.endpoints);
      CoversWritersStep(s'.node.endpoints, n'.endpoints, events);
    }
  }

  lemma {:induction false} ScanReadersCovers(s: Scan, events: seq<Option<Reader>>)
    requires NodeOk(s.node) && ScanReaders(s, events).Running?
    ensures var n' := ScanReaders(s, events).scan.node;
      NodeOk(n') && Extends(s.node.endpoints, n'.endpoints) && CoversReaders(n'.endpoints, events)
    decreases |events|
  {
    if events != [] {
      ScanReaderKeepsOk(s, events[0].value);
      ScanReaderCovers(s, events[0].value);
      var s' := ScanReader(s, events[0].value).scan;
      ScanReadersCovers(s', events[1..]);
      var n' := ScanReaders(s', events[1..]).scan.node;
      ExtendsTransitive(s.node.endpoints, s'.node.endpoints, n'.endpoints);
      CoversReadersStep(s'.node.endpoints, n'.endpoints, events);
    }
  }

  // ---- What any inspection leaves, also one that stops half-way ----

  lemma ScanWriterExtends(s: Scan, w: Writer)
    ensures Extends(s.node.endpoints, OutcomeNode(ScanWriter(s, w)).endpoints)
  {
    hide Handles.Allocate, EntitiesMatch, AcceptsEntities;
  }

  lemma ScanReaderExtends(s: Scan, r: Reader)
    ensures Extends(s.node.endpoints, OutcomeNode(ScanReader(s, r)).endpoints)
  {
    hide Handles.Allocate, EntitiesMatch, AcceptsEntities;
  }

  lemma {:induction false} ScanWritersExtends(s: Scan, events: seq<Option<Writer>>)
    ensures Extends(s.node.endpoints, OutcomeNode(ScanWriters(s, events)).endpoints)
    decreases |events|
  {
    if events != [] && events[0].Some? {
      ScanWriterExtends(s, events[0].value);
      var o := ScanWriter(s, events[0].value);
      if o.Running? {
        ScanWritersExtends(o.scan, events[1..]);
      }
    }
  }

  lemma {:induction false} ScanReadersExtends(s: Scan, events: seq<Option<Reader>>)
    ensures Extends(s.node.endpoints, OutcomeNode(ScanReaders(s, events)).endpoints)
    decreases |events|
  {
    if events != [] && events[0].Some? {
      ScanReaderExtends(s, events[0].value);
      var o := ScanReader(s, events[0].value);
      if o.Running? {
        ScanReadersExtends(o.scan, events[1..]);
      }
    }
  }

  lemma InspectExtends(n: Node, c: Contents, buffers: nat)
    ensures Extends(n.endpoints, OutcomeNode(Inspect(n, c, buffers)).endpoints)
  {
    ScanWritersExtends(Scan(n, false, buffers), Events(c.publishers));
    var o := ScanWriters(Scan(n, false, buffers), Events(c.publishers));
    if o.Running? {
      ScanReadersExtends(o.scan, Events(c.subscribers));
    }
  }

  // ---- Idempotence ----

  lemma {:induction false} ScanOfCoveredWriters(s: Scan, events: seq<Option<Writer>>)
    requires CoversWriters(s.node.endpoints, events)
    ensures ScanWriters(s, events) == Running(s)
    decreases |events|
  {
    if events != [] {
      assert events[0].Some?;
      FindMeansHas(s.node.endpoints);
      assert forall k :: 0 <= k < |events| - 1 ==> events[1..][k] == events[k + 1];
      ScanOfCoveredWriters(s, events[1..]);
    }
  }

  lemma {:induction false} ScanOfCoveredReaders(s: Scan, events: seq<Option<Reader>>)
    requires CoversReaders(s.node.endpoints, events)
    ensures ScanReaders(s, events) == Running(s)
    decreases |events|
  {
    if events != [] {
      assert events[0].Some?;
      FindMeansHas(s.node.endpoints);
      assert forall k :: 0 <= k < |events| - 1 ==> events[1..][k] == events[k + 1];
      ScanOfCoveredReaders(s, events[1..]);
    }
  }

  /** A successful inspection keeps every endpoint, leaves no ROS-named reader
      or writer of the participant outside the node's endpoints, and makes
      every later inspection of the same contents succeed without any change,
      whatever buffers are left. */
  lemma InspectionCoversAndIsIdempotent(n: Node, c: Contents, buffers: nat, later: nat)
    requires NodeOk(n) && Inspect(n, c, buffers).Running?
    ensures var n' := Inspect(n, c, buffers).scan.node;
      && Extends(n.endpoints, n'.endpoints)
      && CoversWriters(n'.endpoints, Events(c.publishers))
      && CoversReaders(n'.endpoints, Events(c.subscribers))
      && Inspect(n', c, later) == Running(Scan(n', false, later))
  {
    ScanWritersCovers(Scan(n, false, buffers), Events(c.publishers));
    var s := ScanWriters(Scan(n, false, buffers), Events(c.publishers)).scan;
    ScanReadersCovers(s, Events(c.subscribers));
    var n' := ScanReaders(s, Events(c.subscribers)).scan.node;
    ExtendsKeepsEntities(s.node.endpoints, n'.endpoints);
    ScanOfCoveredWriters(Scan(n', false, later), Events(c.publishers));
    ScanOfCoveredReaders(Scan(n', false, later), Events(c.subscribers));
  }

  // ---- The exact verdict ----

  /** The writers that a scan of a node with these endpoints meets as new ones:
      ROS-named and in no endpoint, in order of first occurrence. */
  function NewWriters(es: seq<Endpoint>, events: seq<Option<Writer>>): seq<Writer> {
    if events == [] then []
    else
      var before, event := NewWriters(es, events[..|events| - 1]), events[|events| - 1];
      if event.Some? && IsNewWriter(es, before, event.value) then before + [event.value] else before
  }

  predicate IsNewWriter(es: seq<Endpoint>, before: seq<Writer>, w: Writer) {
    RosWriter(w) && !HasWriterIn(es, w) && w !in before
  }

  function NewReaders(es: seq<Endpoint>, events: seq<Option<Reader>>): seq<Reader> {
    if events == [] then []
    else
      var before, event := NewReaders(es, events[..|events| - 1]), events[|events| - 1];
      if event.Some? && IsNewReader(es, before, event.value) then before + [event.value] else before
  }

  predicate IsNewReader(es: seq<Endpoint>, before: seq<Reader>, r: Reader) {
    RosReader(r) && !HasReaderIn(es, r) && r !in before
  }

  /** They are exactly the distinct writers reported that are ROS-named and in no
      endpoint yet. */
  lemma {:induction false} NewWritersMeaning(es: seq<Endpoint>, events: seq<Option<Writer>>)
    ensures NoDup(NewWriters(es, events))
    ensures forall w :: w in NewWriters(es, events) <==> Some(w) in events && RosWriter(w) && !HasWriterIn(es, w)
  {
    if events != [] {
      NewWritersMeaning(es, events[..|events| - 1]);
      assert events == events[..|events| - 1] + [events[|events| - 1]];
    }
  }

  lemma {:induction false} NewReadersMeaning(es: seq<Endpoint>, events: seq<Option<Reader>>)
    ensures NoDup(NewReaders(es, events))
    ensures forall r :: r in NewReaders(es, events) <==> Some(r) in events && RosReader(r) && !HasReaderIn(es, r)
  {
    if events != [] {
      NewReadersMeaning(es, events[..|events| - 1]);
      assert events == events[..|events| - 1] + [events[|events| - 1]];
    }
  }

  /** A request or reply writer whose topic already has a reader: it is attached
      to that reader's endpoint instead of getting one of its own. */
  predicate OnReader(es: seq<Endpoint>, w: Writer) {
    IsServiceRole(DetectEndpointType(w.topic, true)) && FindByTopic(es, w.topic, false).Some?
  }

  /** Such a writer stops the scan if that endpoint has a writer already. */
  predicate Occupied(es: seq<Endpoint>, before: seq<Writer>, w: Writer)
    requires OnReader(es, w)
  {
    es[FindByTopic(es, w.topic, false).value].writer.Some? || exists v :: v in before && v.topic == w.topic
  }

  function OwnEndpoint(es: seq<Endpoint>): Writer -> bool {
    (w: Writer) => !OnReader(es, w)
  }

  /** The new writers that get an endpoint of their own. */
  function Registering(es: seq<Endpoint>, news: seq<Writer>): seq<Writer> {
    Filter(news, OwnEndpoint(es))
  }

  /** The scan gets past the new writers: every one of them that is attached
      finds its endpoint without a writer, and a handle in the local variable,
      from a writer that was registered before it. */
  ghost predicate WritersPass(es: seq<Endpoint>, news: seq<Writer>) {
    forall k :: 0 <= k < |news| && OnReader(es, news[k]) ==>
      !Occupied(es, news[..k], news[k]) && Registering(es, news[..k]) != []
  }

  /** And past the new readers: no request or reply topic gets a second one. */
  ghost predicate ReadersPass(es: seq<Endpoint>, news: seq<Reader>) {
    forall k :: 0 <= k < |news| ==> ReaderPasses(es, news[..k], news[k])
  }

  predicate ReaderPasses(es: seq<Endpoint>, before: seq<Reader>, r: Reader) {
    IsServiceRole(DetectEndpointType(r.topic, false)) ==>
      FindByTopic(es, r.topic, false).None? && forall q :: q in before ==> q.topic != r.topic
  }

  /** The endpoints with the attached ones among the new writers. */
  function WithAttached(es: seq<Endpoint>, news: seq<Writer>): (r: seq<Endpoint>)
    ensures |r| == |es|
  {
    if news == [] then es
    else
      var before, w := WithAttached(es, news[..|news| - 1]), news[|news| - 1];
      if !OnReader(es, w) then before
      else
        var i := FindByTopic(es, w.topic, false).value;
        before[i := before[i].(writer := Some(w))]
  }

  /** The endpoint that inspection makes for one entity, without its handle. */
  function WriterEndpoint(w: Writer): Endpoint {
    Endpoint(0, DetectEndpointType(w.topic, true), None, Some(w))
  }

  function ReaderEndpoint(r: Reader): Endpoint {
    Endpoint(0, DetectEndpointType(r.topic, false), Some(r), None)
  }

  /** Up to handles, es is one endpoint per writer and then one per reader. */
  ghost predicate OneEach(es: seq<Endpoint>, ws: seq<Writer>, rs: seq<Reader>) {
    && |es| == |ws| + |rs|
    && (forall i :: 0 <= i < |ws| ==> es[i].(handle := 0) == WriterEndpoint(ws[i]))
    && (forall i :: 0 <= i < |rs| ==> es[|ws| + i].(handle := 0) == ReaderEndpoint(rs[i]))
  }

  lemma OneEachAddWriter(es: seq<Endpoint>, e: Endpoint, ws: seq<Writer>, w: Writer)
    requires OneEach(es, ws, []) && e.(handle := 0) == WriterEndpoint(w)
    ensures OneEach(es + [e], ws + [w], [])
  {}

  lemma OneEachAddReader(es: seq<Endpoint>, e: Endpoint, ws: seq<Writer>, rs: seq<Reader>, r: Reader)
    requires OneEach(es, ws, rs) && e.(handle := 0) == ReaderEndpoint(r)
    ensures OneEach(es + [e], ws, rs + [r])
  {}

  /** Registering an unused entity of the right type during a scan. */
  lemma ScanRegisterVerdict(s: Scan, kind: EndpointType, r: Option<Reader>, w: Option<Writer>)
    requires NodeOk(s.node) && EntityShape(kind, r, w) && AcceptsEntities(s.node, kind, r, w)
    ensures var o := ScanRegister(s, kind, r, w);
      && NodeOk(OutcomeNode(o)) && OutcomeNode(o).attaches == s.node.attaches
      && (o.Running? ==> s.buffers > 0)
      && (s.buffers > 0 && |s.node.endpoints| <= Handles.INT_MAX - 2 ==> o.Running?)
      && (o.Running? ==> o.scan.handleSet && o.scan.buffers == s.buffers - 1)
      && (o.Running? ==> exists h :: o.scan.node.endpoints == s.node.endpoints + [Endpoint(h, kind, r, w)])
  {
    AddEndpointKeepsOk(s.node, kind, r, w, s.buffers > 0);
    if |s.node.endpoints| <= Handles.INT_MAX - 2 {
      AddEndpointSucceeds(s.node, kind, r, w);
    }
  }

  // ---- The writers ----

  /** An endpoint stays as it was, or got one of the new writers. */
  predicate KeptOrAttached(es: seq<Endpoint>, news: seq<Writer>, i: nat, e: Endpoint)
    requires i < |es|
  {
    e == es[i] || (es[i].writer.None? && e.writer.Some? && e == es[i].(writer := e.writer) && e.writer.value in news
      && OnReader(es, e.writer.value) && FindByTopic(es, e.writer.value.topic, false) == Some(i))
  }

  lemma {:induction false} AttachedWritersAreNew(es: seq<Endpoint>, news: seq<Writer>)
    requires WritersPass(es, news)
    ensures forall i :: 0 <= i < |es| ==> KeptOrAttached(es, news, i, WithAttached(es, news)[i])
  {
    if news != [] {
      var before, w := news[..|news| - 1], news[|news| - 1];
      assert news == before + [w];
      WritersPassPrefix(es, before, w);
      AttachedWritersAreNew(es, before);
      forall i | 0 <= i < |es|
        ensures KeptOrAttached(es, news, i, WithAttached(es, news)[i])
      {
        assert KeptOrAttached(es, before, i, WithAttached(es, before)[i]);
      }
    }
  }

  lemma {:induction false} NewWritersAreAttached(es: seq<Endpoint>, news: seq<Writer>)
    requires WritersPass(es, news)
    ensures forall w :: w in news && OnReader(es, w) ==>
      WithAttached(es, news)[FindByTopic(es, w.topic, false).value].writer == Some(w)
  {
    if news != [] {
      var before, w := news[..|news| - 1], news[|news| - 1];
      assert news == before + [w];
      WritersPassPrefix(es, before, w);
      NewWritersAreAttached(es, before);
      forall v | v in before && OnReader(es, v) && OnReader(es, w)
        ensures FindByTopic(es, v.topic, false) != FindByTopic(es, w.topic, false)
      {
        assert !Occupied(es, before, w);
      }
    }
  }

  lemma WritersPassPrefix(es: seq<Endpoint>, before: seq<Writer>, w: Writer)
    ensures WritersPass(es, before + [w]) <==>
      WritersPass(es, before) && (OnReader(es, w) ==> !Occupied(es, before, w) && Registering(es, before) != [])
  {
    var news := before + [w];
    assert news[..|before|] == before && news[|before|] == w;
    forall k | 0 <= k < |before|
      ensures news[k] == before[k] && news[..k] == before[..k]
    {}
  }

  /** Where a writer of such a scan is found. */
  lemma WriterIsIn(es: seq<Endpoint>, news: seq<Writer>, made: seq<Endpoint>, w: Writer)
    requires WritersPass(es, news) && OneEach(made, Registering(es, news), [])
    ensures HasWriterIn(es, w) || w in news ==> HasWriterIn(WithAttached(es, news) + made, w)
  {
    var now, own := WithAttached(es, news) + made, Registering(es, news);
    AttachedWritersAreNew(es, news);
    NewWritersAreAttached(es, news);
    if HasWriterIn(es, w) {
      var i :| 0 <= i < |es| && es[i].writer == Some(w);
      assert KeptOrAttached(es, news, i, WithAttached(es, news)[i]) && now[i].writer == Some(w);
    }
    if w in news && OnReader(es, w) {
      assert now[FindByTopic(es, w.topic, false).value].writer == Some(w);
    }
    if w in news && !OnReader(es, w) {
      assert OwnEndpoint(es)(w) && w in own;
      var i :| 0 <= i < |own| && own[i] == w;
      assert made[i].(handle := 0) == WriterEndpoint(own[i]);
      assert now[|es| + i] == made[i];
    }
  }

  lemma NoOtherWriterIsIn(es: seq<Endpoint>, news: seq<Writer>, made: seq<Endpoint>, w: Writer)
    requires WritersPass(es, news) && OneEach(made, Registering(es, news), [])
    requires HasWriterIn(WithAttached(es, news) + made, w)
    ensures HasWriterIn(es, w) || w in news
  {
    hide WritersPass;
    var now, own := WithAttached(es, news) + made, Registering(es, news);
    AttachedWritersAreNew(es, news);
    var i :| 0 <= i < |now| && now[i].writer == Some(w);
    if i >= |es| {
      assert made[i - |es|].(handle := 0) == WriterEndpoint(own[i - |es|]);
      assert own[i - |es|] == w;
    } else {
      assert KeptOrAttached(es, news, i, WithAttached(es, news)[i]);
    }
  }

  /** The lookups that the scan makes, in terms of the endpoints it started with
      and the new writers it met. */
  lemma WriterLookups(es: seq<Endpoint>, news: seq<Writer>, made: seq<Endpoint>, w: Writer)
    requires WritersPass(es, news) && OneEach(made, Registering(es, news), [])
    ensures var now := WithAttached(es, news) + made;
      && (FindByEntities(now, None, Some(w)).Some? <==> HasWriterIn(es, w) || w in news)
      && FindByTopic(now, w.topic, false) == FindByTopic(es, w.topic, false)
  {
    hide WritersPass;
    var now, own := WithAttached(es, news) + made, Registering(es, news);
    FindMeansHas(now);
    WriterIsIn(es, news, made, w);
    if HasWriterIn(now, w) {
      NoOtherWriterIsIn(es, news, made, w);
    }
    AttachedWritersAreNew(es, news);
    forall i | 0 <= i < |es|
      ensures now[i].reader == es[i].reader
    {
      assert KeptOrAttached(es, news, i, WithAttached(es, news)[i]);
    }
    forall i | |es| <= i < |now|
      ensures now[i].reader.None?
    {
      assert made[i - |es|].(handle := 0) == WriterEndpoint(own[i - |es|]);
    }
    SameTopics(es, now, w.topic);
  }

  lemma SameTopics(es: seq<Endpoint>, now: seq<Endpoint>, topic: string)
    requires |es| <= |now| && forall i :: 0 <= i < |es| ==> now[i].reader == es[i].reader
    requires forall i :: |es| <= i < |now| ==> now[i].reader.None?
    ensures FindByTopic(now, topic, false) == FindByTopic(es, topic, false)
  {
    assert forall i :: 0 <= i < |es| ==> (TopicMatches(now[i], topic, false) <==> TopicMatches(es[i], topic, false));
  }

  /** A scan of node n that has met these new writers and is still running. */
  ghost predicate WriterScan(n: Node, buffers: nat, news: seq<Writer>, s: Scan) {
    var es, now, own := n.endpoints, s.node.endpoints, Registering(n.endpoints, news);
    && NodeOk(s.node) && WritersPass(es, news)
    && |es| <= |now| && now[..|es|] == WithAttached(es, news) && OneEach(now[|es|..], own, [])
    && (s.handleSet <==> own != []) && s.buffers + |own| == buffers
    && s.node.attaches == n.attaches + |news| - |own|
  }

  lemma WithAttachedSnoc(es: seq<Endpoint>, news: seq<Writer>, w: Writer)
    ensures WithAttached(es, news + [w]) ==
      if !OnReader(es, w) then WithAttached(es, news)
      else
        var i := FindByTopic(es, w.topic, false).value;
        WithAttached(es, news)[i := WithAttached(es, news)[i].(writer := Some(w))]
  {
    assert (news + [w])[..|news|] == news;
  }

  /** The scan registers such a writer. */
  lemma OwnWriterIsRegistered(n: Node, buffers: nat, news: seq<Writer>, s: Scan, w: Writer)
    requires WriterScan(n, buffers, news, s) && IsNewWriter(n.endpoints, news, w) && !OnReader(n.endpoints, w)
    ensures var kind := DetectEndpointType(w.topic, true);
      && ScanWriter(s, w) == ScanRegister(s, kind, None, Some(w)) && EntityShape(kind, None, Some(w))
      && AcceptsEntities(s.node, kind, None, Some(w))
  {
    hide NodeOk, OneEach, WritersPass;
    var es, now := n.endpoints, s.node.endpoints;
    assert now == WithAttached(es, news) + now[|es|..];
    WriterLookups(es, news, now[|es|..], w);
  }

  /** What one more new writer that is not attached adds to the description. */
  lemma OwnWriterSnoc(es: seq<Endpoint>, news: seq<Writer>, w: Writer)
    requires !OnReader(es, w)
    ensures Registering(es, news + [w]) == Registering(es, news) + [w]
    ensures WithAttached(es, news + [w]) == WithAttached(es, news)
    ensures WritersPass(es, news + [w]) <==> WritersPass(es, news)
  {
    hide WritersPass, WithAttached, Filter, OnReader;
    WritersPassPrefix(es, news, w);
    FilterSnoc(news, w, OwnEndpoint(es));
    assert OwnEndpoint(es)(w);
    WithAttachedSnoc(es, news, w);
  }

  lemma AppendToScan(n: Node, buffers: nat, news: seq<Writer>, s: Scan, w: Writer, s': Scan, e: Endpoint)
    requires WriterScan(n, buffers, news, s) && !OnReader(n.endpoints, w) && e.(handle := 0) == WriterEndpoint(w)
    requires NodeOk(s'.node) && s'.node.endpoints == s.node.endpoints + [e] && s'.handleSet
    requires s'.buffers == s.buffers - 1 && s'.node.attaches == s.node.attaches
    ensures WriterScan(n, buffers, news + [w], s')
  {
    hide NodeOk, WritersPass, WithAttached, Registering, OneEach, OnReader;
    var es, now, now' := n.endpoints, s.node.endpoints, s'.node.endpoints;
    OwnWriterSnoc(es, news, w);
    OneEachAddWriter(now[|es|..], e, Registering(es, news), w);
    assert now'[|es|..] == now[|es|..] + [e] && now'[..|es|] == now[..|es|];
  }

  /** One more new writer that gets its own endpoint. */
  lemma OwnWriterStep(n: Node, buffers: nat, news: seq<Writer>, s: Scan, w: Writer)
    requires WriterScan(n, buffers, news, s) && IsNewWriter(n.endpoints, news, w) && !OnReader(n.endpoints, w)
    ensures var o := ScanWriter(s, w);
      && OutcomeNode(o).attaches == s.node.attaches && (o.Running? ==> s.buffers > 0)
      && (s.buffers > 0 && |s.node.endpoints| <= Handles.INT_MAX - 2 ==> o.Running?)
      && (o.Running? ==> WriterScan(n, buffers, news + [w], o.scan))
  {
    hide NodeOk, OneEach, WritersPass, OnReader, IsNewWriter, ScanWriter, ScanRegister, AcceptsEntities;
    var kind := DetectEndpointType(w.topic, true);
    OwnWriterIsRegistered(n, buffers, news, s, w);
    ScanRegisterVerdict(s, kind, None, Some(w));
    var o := ScanWriter(s, w);
    if o.Running? {
      var h :| o.scan.node.endpoints == s.node.endpoints + [Endpoint(h, kind, None, Some(w))];
      AppendToScan(n, buffers, news, s, w, o.scan, Endpoint(h, kind, None, Some(w)));
    }
  }

  lemma OccupiedMeaning(es: seq<Endpoint>, news: seq<Writer>, w: Writer)
    requires WritersPass(es, news) && OnReader(es, w)
    ensures WithAttached(es, news)[FindByTopic(es, w.topic, false).value].writer.Some? <==> Occupied(es, news, w)
  {
    var i := FindByTopic(es, w.topic, false).value;
    AttachedWritersAreNew(es, news);
    NewWritersAreAttached(es, news);
    assert KeptOrAttached(es, news, i, WithAttached(es, news)[i]);
    if v :| v in news && v.topic == w.topic {
      assert OnReader(es, v);
    }
  }

  lemma AttachVerdict(n: Node, buffers: nat, news: seq<Writer>, s: Scan, w: Writer)
    requires WriterScan(n, buffers, news, s) && IsNewWriter(n.endpoints, news, w) && OnReader(n.endpoints, w)
    ensures var i := FindByTopic(n.endpoints, w.topic, false).value;
      i < |s.node.endpoints| && ScanWriter(s, w) ==
        if Occupied(n.endpoints, news, w) then Failed(s.node)
        else if s.handleSet then Running(s.(node := AttachWriter(s.node, i, w)))
        else Failed(AttachWriter(s.node, i, w))
  {
    hide NodeOk, OneEach, WritersPass, WithAttached, Registering, Occupied;
    var es, now := n.endpoints, s.node.endpoints;
    var i := FindByTopic(es, w.topic, false).value;
    assert now == WithAttached(es, news) + now[|es|..];
    WriterLookups(es, news, now[|es|..], w);
    assert now[i] == now[..|es|][i];
    OccupiedMeaning(es, news, w);
  }

  lemma AttachInScan(n: Node, buffers: nat, news: seq<Writer>, s: Scan, w: Writer, i: nat)
    requires WriterScan(n, buffers, news, s) && OnReader(n.endpoints, w) && !Occupied(n.endpoints, news, w)
    requires s.handleSet && FindByTopic(n.endpoints, w.topic, false) == Some(i) && i < |s.node.endpoints|
    requires NodeOk(AttachWriter(s.node, i, w))
    ensures WriterScan(n, buffers, news + [w], s.(node := AttachWriter(s.node, i, w)))
  {
    hide NodeOk, OneEach, WritersPass, WithAttached, Filter, OnReader, Occupied;
    var es, now, now' := n.endpoints, s.node.endpoints, AttachWriter(s.node, i, w).endpoints;
    WritersPassPrefix(es, news, w);
    FilterSnoc(news, w, OwnEndpoint(es));
    assert Registering(es, news + [w]) == Registering(es, news);
    WithAttachedSnoc(es, news, w);
    assert now'[|es|..] == now[|es|..];
    assert now'[..|es|] == WithAttached(es, news + [w]) by {
      assert now[i] == now[..|es|][i];
    }
  }

  /** One more new writer that has to be attached. */
  lemma AttachedWriterStep(n: Node, buffers: nat, news: seq<Writer>, s: Scan, w: Writer)
    requires WriterScan(n, buffers, news, s) && IsNewWriter(n.endpoints, news, w) && OnReader(n.endpoints, w)
    ensures var o := ScanWriter(s, w);
      if Occupied(n.endpoints, news, w) then o == Failed(s.node)
      else
        && OutcomeNode(o).attaches == s.node.attaches + 1 && (o.Running? <==> s.handleSet)
        && (o.Running? ==> WriterScan(n, buffers, news + [w], o.scan))
  {
    hide NodeOk, OneEach, WritersPass, WithAttached, Registering, IsNewWriter, ScanWriter, Occupied;
    ScanWriterKeepsOk(s, w);
    AttachVerdict(n, buffers, news, s, w);
    if ScanWriter(s, w).Running? && !Occupied(n.endpoints, news, w) {
      AttachInScan(n, buffers, news, s, w, FindByTopic(n.endpoints, w.topic, false).value);
    }
  }

  /** Any other writer is skipped. */
  lemma OldWriterStep(n: Node, buffers: nat, news: seq<Writer>, s: Scan, w: Writer)
    requires WriterScan(n, buffers, news, s) && !IsNewWriter(n.endpoints, news, w)
    ensures ScanWriter(s, w) == Running(s)
  {
    hide NodeOk, OneEach, WritersPass, WithAttached, Registering, OnReader;
    var es, now := n.endpoints, s.node.endpoints;
    assert now == WithAttached(es, news) + now[|es|..];
    WriterLookups(es, news, now[|es|..], w);
  }

  ghost predicate AllSome<T>(events: seq<Option<T>>) {
    forall k :: 0 <= k < |events| ==> events[k].Some?
  }

  lemma AllSomeSnoc<T>(before: seq<Option<T>>, event: Option<T>)
    ensures AllSome(before + [event]) <==> AllSome(before) && event.Some?
  {
    var events := before + [event];
    assert events[|before|] == event && forall k :: 0 <= k < |before| ==> events[k] == before[k];
  }

  lemma ScanWritersSnoc(s: Scan, events: seq<Option<Writer>>, event: Option<Writer>)
    ensures ScanWriters(s, events + [event]) ==
      match ScanWriters(s, events)
      case Failed(n) => Failed(n)
      case Running(s') => if event.None? then Failed(s'.node) else ScanWriter(s', event.value)
  {
    ScanWritersConcat(s, events, [event]);
    assert [event][1..] == [];
  }

  lemma NewWritersSnoc(es: seq<Endpoint>, events: seq<Option<Writer>>, w: Writer)
    ensures NewWriters(es, events + [Some(w)]) ==
      if IsNewWriter(es, NewWriters(es, events), w) then NewWriters(es, events) + [w] else NewWriters(es, events)
  {
    assert (events + [Some(w)])[..|events|] == events;
  }

  lemma {:induction false} NewWritersSize(es: seq<Endpoint>, events: seq<Option<Writer>>)
    ensures |NewWriters(es, events)| <= |events|
  {
    if events != [] {
      NewWritersSize(es, events[..|events| - 1]);
    }
  }

  lemma WriterScanStarts(n: Node, buffers: nat)
    requires NodeOk(n)
    ensures WriterScan(n, buffers, [], Scan(n, false, buffers))
  {
    assert n.endpoints[..|n.endpoints|] == n.endpoints;
  }

  /** As long as the writer scan runs, it is where its new writers put it. */
  lemma {:induction false} WritersRun(n: Node, buffers: nat, events: seq<Option<Writer>>)
    requires NodeOk(n) && ScanWriters(Scan(n, false, buffers), events).Running?
    ensures AllSome(events)
    ensures WriterScan(n, buffers, NewWriters(n.endpoints, events), ScanWriters(Scan(n, false, buffers), events).scan)
  {
    hide WriterScan;
    WriterScanStarts(n, buffers);
    if events != [] {
      var before, event := events[..|events| - 1], events[|events| - 1];
      assert events == before + [event];
      ScanWritersSnoc(Scan(n, false, buffers), before, event);
      WritersRun(n, buffers, before);
      var news, s := NewWriters(n.endpoints, before), ScanWriters(Scan(n, false, buffers), before).scan;
      NewWritersSnoc(n.endpoints, before, event.value);
      WriterStep(n, buffers, news, s, event.value);
    }
  }

  /** One turn of the writer loop. */
  lemma WriterStep(n: Node, buffers: nat, news: seq<Writer>, s: Scan, w: Writer)
    requires WriterScan(n, buffers, news, s) && ScanWriter(s, w).Running?
    ensures var news' := if IsNewWriter(n.endpoints, news, w) then news + [w] else news;
      WriterScan(n, buffers, news', ScanWriter(s, w).scan)
  {
    if !IsNewWriter(n.endpoints, news, w) {
      OldWriterStep(n, buffers, news, s, w);
    } else if OnReader(n.endpoints, w) {
      AttachedWriterStep(n, buffers, news, s, w);
    } else {
      OwnWriterStep(n, buffers, news, s, w);
    }
  }

  /** What the writer scan needs of the endpoints, the events and the pool. */
  ghost predicate WritersSucceed(es: seq<Endpoint>, events: seq<Option<Writer>>, buffers: nat) {
    var news := NewWriters(es, events);
    AllSome(events) && WritersPass(es, news) && |Registering(es, news)| <= buffers
  }

  lemma WritersSucceedStep(es: seq<Endpoint>, before: seq<Option<Writer>>, event: Option<Writer>, buffers: nat)
    ensures WritersSucceed(es, before + [event], buffers) ==> event.Some? && WritersSucceed(es, before, buffers)
    ensures event.Some? ==>
      (var news, w := NewWriters(es, before), event.value;
      WritersSucceed(es, before + [event], buffers) <==>
        && WritersSucceed(es, before, buffers)
        && (IsNewWriter(es, news, w) ==>
          if OnReader(es, w) then !Occupied(es, news, w) && Registering(es, news) != []
          else |Registering(es, news)| < buffers))
  {
    hide AllSome, WritersPass, NewWriters, IsNewWriter, OnReader, Occupied;
    var news := NewWriters(es, before);
    AllSomeSnoc(before, event);
    if event.Some? {
      NewWritersSnoc(es, before, event.value);
      WritersPassPrefix(es, news, event.value);
      FilterSnoc(news, event.value, OwnEndpoint(es));
    }
  }

  lemma {:induction false} WritersVerdict(n: Node, buffers: nat, events: seq<Option<Writer>>)
    requires NodeOk(n) && |n.endpoints| + |events| <= Handles.INT_MAX - 2
    ensures ScanWriters(Scan(n, false, buffers), events).Running? <==> WritersSucceed(n.endpoints, events, buffers)
  {
    if events != [] {
      var before, event := events[..|events| - 1], events[|events| - 1];
      assert events == before + [event];
      ScanWritersSnoc(Scan(n, false, buffers), before, event);
      WritersVerdict(n, buffers, before);
      WritersSucceedStep(n.endpoints, before, event, buffers);
      var o := ScanWriters(Scan(n, false, buffers), before);
      if o.Running? && event.Some? {
        WritersRun(n, buffers, before);
        NewWritersSize(n.endpoints, before);
        WriterVerdict(n, buffers, NewWriters(n.endpoints, before), o.scan, event.value);
      }
    }
  }

  lemma WriterVerdict(n: Node, buffers: nat, news: seq<Writer>, s: Scan, w: Writer)
    requires WriterScan(n, buffers, news, s) && |n.endpoints| + |news| <= Handles.INT_MAX - 2
    ensures ScanWriter(s, w).Running? <==>
      (IsNewWriter(n.endpoints, news, w) ==>
        if OnReader(n.endpoints, w) then !Occupied(n.endpoints, news, w) && Registering(n.endpoints, news) != []
        else |Registering(n.endpoints, news)| < buffers)
  {
    CountBound(news, OwnEndpoint(n.endpoints));
    if !IsNewWriter(n.endpoints, news, w) {
      OldWriterStep(n, buffers, news, s, w);
    } else if OnReader(n.endpoints, w) {
      AttachedWriterStep(n, buffers, news, s, w);
    } else {
      OwnWriterStep(n, buffers, news, s, w);
    }
  }

  // ---- The readers ----

  /** The reader half of a scan that started on node n. */
  ghost predicate ReaderScan(n: Node, buffers: nat, news: seq<Reader>, s: Scan) {
    var es, now := n.endpoints, s.node.endpoints;
    && NodeOk(s.node) && ReadersPass(es, news)
    && |es| <= |now| && now[..|es|] == es && OneEach(now[|es|..], [], news)
    && s.buffers + |news| == buffers && s.node.attaches == n.attaches
  }

  lemma ReadersPassPrefix(es: seq<Endpoint>, before: seq<Reader>, r: Reader)
    ensures ReadersPass(es, before + [r]) <==> ReadersPass(es, before) && ReaderPasses(es, before, r)
  {
    var news := before + [r];
    assert news[..|before|] == before && news[|before|] == r;
    forall k | 0 <= k < |before|
      ensures news[k] == before[k] && news[..k] == before[..k]
    {}
  }

  lemma ReaderLookups(es: seq<Endpoint>, news: seq<Reader>, made: seq<Endpoint>, r: Reader)
    requires OneEach(made, [], news)
    ensures FindByEntities(es + made, Some(r), None).Some? <==> HasReaderIn(es, r) || r in news
    ensures IsServiceRole(DetectEndpointType(r.topic, false)) ==>
      (FindByTopic(es + made, r.topic, false).None? <==> ReaderPasses(es, news, r))
  {
    var now := es + made;
    FindMeansHas(now);
    forall i | 0 <= i < |made|
      ensures now[|es| + i].reader == Some(news[i])
    {
      assert made[i].(handle := 0) == ReaderEndpoint(news[i]);
    }
    if HasReaderIn(es, r) {
      var i :| 0 <= i < |es| && es[i].reader == Some(r);
      assert now[i].reader == Some(r);
    }
    if r in news {
      var i :| 0 <= i < |news| && news[i] == r;
      assert now[|es| + i].reader == Some(r);
    }
    if HasReaderIn(now, r) {
      var i :| 0 <= i < |now| && now[i].reader == Some(r);
      assert i >= |es| ==> news[i - |es|] == r;
    }
    TopicOfReaders(es, news, now, r.topic);
  }

  lemma TopicOfReaders(es: seq<Endpoint>, news: seq<Reader>, now: seq<Endpoint>, topic: string)
    requires |now| == |es| + |news| && now[..|es|] == es
    requires forall i :: 0 <= i < |news| ==> now[|es| + i].reader == Some(news[i])
    ensures FindByTopic(now, topic, false).None? <==>
      FindByTopic(es, topic, false).None? && forall q :: q in news ==> q.topic != topic
  {
    assert forall i :: 0 <= i < |es| ==> now[i] == es[i];
    if FindByTopic(now, topic, false).None? {
      forall q | q in news
        ensures q.topic != topic
      {
        var i :| 0 <= i < |news| && news[i] == q;
        assert !TopicMatches(now[|es| + i], topic, false);
      }
      assert forall i :: 0 <= i < |es| ==> !TopicMatches(now[i], topic, false);
    }
    if FindByTopic(es, topic, false).None? && forall q :: q in news ==> q.topic != topic {
      forall i | 0 <= i < |now|
        ensures !TopicMatches(now[i], topic, false)
      {
        if i >= |es| {
          assert now[|es| + (i - |es|)].reader == Some(news[i - |es|]);
        }
      }
    }
  }

  lemma ReaderStep(n: Node, buffers: nat, news: seq<Reader>, s: Scan, r: Reader)
    requires ReaderScan(n, buffers, news, s)
    ensures var o := ScanReader(s, r);
      if !IsNewReader(n.endpoints, news, r) then o == Running(s)
      else
        && (o.Running? ==> ReaderPasses(n.endpoints, news, r) && s.buffers > 0)
        && (o.Running? ==> ReaderScan(n, buffers, news + [r], o.scan))
        && (ReaderPasses(n.endpoints, news, r) && s.buffers > 0 && |s.node.endpoints| <= Handles.INT_MAX - 2
            ==> o.Running?)
  {
    var es, now, kind := n.endpoints, s.node.endpoints, DetectEndpointType(r.topic, false);
    assert now == es + now[|es|..];
    ReaderLookups(es, news, now[|es|..], r);
    if IsNewReader(es, news, r) && (IsServiceRole(kind) ==> ReaderPasses(es, news, r)) {
      ScanRegisterVerdict(s, kind, Some(r), None);
      ReadersPassPrefix(es, news, r);
      var o := ScanReader(s, r);
      assert o == ScanRegister(s, kind, Some(r), None);
      if o.Running? {
        var h :| o.scan.node.endpoints == now + [Endpoint(h, kind, Some(r), None)];
        OneEachAddReader(now[|es|..], Endpoint(h, kind, Some(r), None), [], news, r);
        assert o.scan.node.endpoints[|es|..] == now[|es|..] + [Endpoint(h, kind, Some(r), None)];
        assert o.scan.node.endpoints[..|es|] == now[..|es|];
      }
    }
  }

  lemma ScanReadersSnoc(s: Scan, events: seq<Option<Reader>>, event: Option<Reader>)
    ensures ScanReaders(s, events + [event]) ==
      match ScanReaders(s, events)
      case Failed(n) => Failed(n)
      case Running(s') => if event.None? then Failed(s'.node) else ScanReader(s', event.value)
  {
    ScanReadersConcat(s, events, [event]);
    assert [event][1..] == [];
  }

  lemma NewReadersSnoc(es: seq<Endpoint>, events: seq<Option<Reader>>, r: Reader)
    ensures NewReaders(es, events + [Some(r)]) ==
      if IsNewReader(es, NewReaders(es, events), r) then NewReaders(es, events) + [r] else NewReaders(es, events)
  {
    assert (events + [Some(r)])[..|events|] == events;
  }

  /** What the reader scan needs of the endpoints, the events and the pool. */
  ghost predicate ReadersSucceed(es: seq<Endpoint>, events: seq<Option<Reader>>, buffers: nat) {
    AllSome(events) && ReadersPass(es, NewReaders(es, events)) && |NewReaders(es, events)| <= buffers
  }

  lemma ReadersSucceedStep(es: seq<Endpoint>, before: seq<Option<Reader>>, event: Option<Reader>, buffers: nat)
    ensures ReadersSucceed(es, before + [event], buffers) ==> event.Some? && ReadersSucceed(es, before, buffers)
    ensures event.Some? ==>
      (var news, r := NewReaders(es, before), event.value;
      ReadersSucceed(es, before + [event], buffers) <==>
        && ReadersSucceed(es, before, buffers)
        && (IsNewReader(es, news, r) ==> ReaderPasses(es, news, r) && |news| < buffers))
  {
    hide AllSome, ReadersPass, ReaderPasses, NewReaders, IsNewReader;
    var news := NewReaders(es, before);
    AllSomeSnoc(before, event);
    if event.Some? {
      NewReadersSnoc(es, before, event.value);
      ReadersPassPrefix(es, news, event.value);
    }
  }

  lemma {:induction false} ReadersVerdict(s: Scan, events: seq<Option<Reader>>)
    requires NodeOk(s.node)
    ensures var o := ScanReaders(s, events);
      && (o.Running? ==> AllSome(events))
      && (o.Running? ==> ReaderScan(s.node, s.buffers, NewReaders(s.node.endpoints, events), o.scan))
      && (|s.node.endpoints| + |events| <= Handles.INT_MAX - 2 ==>
          (o.Running? <==> ReadersSucceed(s.node.endpoints, events, s.buffers)))
      && |NewReaders(s.node.endpoints, events)| <= |events|
  {
    if events == [] {
      assert s.node.endpoints[..|s.node.endpoints|] == s.node.endpoints;
    } else {
      var before, event := events[..|events| - 1], events[|events| - 1];
      assert events == before + [event];
      ScanReadersSnoc(s, before, event);
      ReadersVerdict(s, before);
      ReadersSucceedStep(s.node.endpoints, before, event, s.buffers);
      var o := ScanReaders(s, before);
      if o.Running? && event.Some? {
        NewReadersSnoc(s.node.endpoints, before, event.value);
        ReaderStep(s.node, s.buffers, NewReaders(s.node.endpoints, before), o.scan, event.value);
      }
    }
  }

  /** Endpoints with the same readers, up to some that have none. */
  ghost predicate SameReaders(es: seq<Endpoint>, now: seq<Endpoint>) {
    && |es| <= |now|
    && (forall i :: 0 <= i < |es| ==> now[i].reader == es[i].reader)
    && forall i :: |es| <= i < |now| ==> now[i].reader.None?
  }

  lemma SameReadersKeepsReaders(es: seq<Endpoint>, now: seq<Endpoint>, r: Reader)
    requires SameReaders(es, now)
    ensures HasReaderIn(now, r) <==> HasReaderIn(es, r)
  {
    if HasReaderIn(es, r) {
      var i :| 0 <= i < |es| && es[i].reader == Some(r);
      assert now[i].reader == Some(r);
    }
  }

  lemma {:induction false} SameReadersSameVerdict(es: seq<Endpoint>, now: seq<Endpoint>, events: seq<Option<Reader>>)
    requires SameReaders(es, now)
    ensures NewReaders(now, events) == NewReaders(es, events)
    ensures ReadersPass(now, NewReaders(es, events)) <==> ReadersPass(es, NewReaders(es, events))
  {
    forall r: Reader
      ensures HasReaderIn(now, r) <==> HasReaderIn(es, r)
      ensures FindByTopic(now, r.topic, false) == FindByTopic(es, r.topic, false)
    {
      SameReadersKeepsReaders(es, now, r);
      SameTopics(es, now, r.topic);
    }
    if events != [] {
      SameReadersSameVerdict(es, now, events[..|events| - 1]);
    }
  }

  lemma WriterScanSameReaders(n: Node, buffers: nat, news: seq<Writer>, s: Scan)
    requires WriterScan(n, buffers, news, s)
    ensures SameReaders(n.endpoints, s.node.endpoints)
  {
    hide NodeOk, WritersPass, Registering;
    var es, now, own := n.endpoints, s.node.endpoints, Registering(n.endpoints, news);
    AttachedWritersAreNew(es, news);
    forall i | 0 <= i < |es|
      ensures now[i].reader == es[i].reader
    {
      assert now[i] == now[..|es|][i] && KeptOrAttached(es, news, i, WithAttached(es, news)[i]);
    }
    forall i | |es| <= i < |now|
      ensures now[i].reader.None?
    {
      assert now[i] == now[|es|..][i - |es|];
      assert now[i].(handle := 0) == WriterEndpoint(own[i - |es|]);
    }
  }

  /** What a successful inspection leaves: the old endpoints with the attached
      writers, then one endpoint per registered writer and one per new reader,
      each of its detected type, in scan order. */
  ghost predicate Inspected(n: Node, n': Node, ws: seq<Writer>, rs: seq<Reader>) {
    var es, es', own := n.endpoints, n'.endpoints, Registering(n.endpoints, ws);
    && |es| <= |es'| && es'[..|es|] == WithAttached(es, ws) && OneEach(es'[|es|..], own, rs)
    && n'.attaches == n.attaches + |ws| - |own|
  }

  lemma ScansCompose(n: Node, buffers: nat, ws: seq<Writer>, s: Scan, rs: seq<Reader>, s': Scan)
    requires WriterScan(n, buffers, ws, s) && ReaderScan(s.node, s.buffers, rs, s')
    ensures Inspected(n, s'.node, ws, rs)
  {
    var es, mid, now, own := n.endpoints, s.node.endpoints, s'.node.endpoints, Registering(n.endpoints, ws);
    assert now[..|es|] == mid[..|es|] by {
      assert now[..|mid|] == mid;
    }
    forall i | 0 <= i < |own|
      ensures now[|es|..][i].(handle := 0) == WriterEndpoint(own[i])
    {
      assert now[|es|..][i] == now[..|mid|][|es| + i] == mid[|es|..][i];
    }
    forall i | 0 <= i < |rs|
      ensures now[|es|..][|own| + i].(handle := 0) == ReaderEndpoint(rs[i])
    {
      assert now[|es|..][|own| + i] == now[|mid|..][i];
    }
  }

  /** On any consistent node, whatever endpoints it already has, and with
      handles to spare: inspection succeeds exactly when every DDS call
      succeeds, the new writers and the new readers pass, and the pool has a
      buffer for each of those that get an endpoint of their own; and then the
      endpoints are known exactly. */
  lemma InspectionIsExact(n: Node, c: Contents, buffers: nat)
    requires NodeOk(n)
    requires |n.endpoints| + |Events(c.publishers)| + |Events(c.subscribers)| <= Handles.INT_MAX - 2
    ensures var ws := NewWriters(n.endpoints, Events(c.publishers));
      var rs := NewReaders(n.endpoints, Events(c.subscribers));
      && (Inspect(n, c, buffers).Running? <==>
        && AllSome(Events(c.publishers)) && AllSome(Events(c.subscribers))
        && WritersPass(n.endpoints, ws) && ReadersPass(n.endpoints, rs)
        && |Registering(n.endpoints, ws)| + |rs| <= buffers)
      && (Inspect(n, c, buffers).Running? ==> Inspected(n, Inspect(n, c, buffers).scan.node, ws, rs))
  {
    var writers, readers := Events(c.publishers), Events(c.subscribers);
    WritersVerdict(n, buffers, writers);
    var o := ScanWriters(Scan(n, false, buffers), writers);
    if o.Running? {
      var ws := NewWriters(n.endpoints, writers);
      WritersRun(n, buffers, writers);
      NewWritersSize(n.endpoints, writers);
      CountBound(ws, OwnEndpoint(n.endpoints));
      WriterScanSameReaders(n, buffers, ws, o.scan);
      SameReadersSameVerdict(n.endpoints, o.scan.node.endpoints, readers);
      ReadersVerdict(o.scan, readers);
      if ScanReaders(o.scan, readers).Running? {
        ScansCompose(n, buffers, ws, o.scan, NewReaders(n.endpoints, readers), ScanReaders(o.scan, readers).scan);
      }
    }
  }

  // ---- What the DDS calls report ----

  lemma {:induction false} SomesMeaning<T>(xs: seq<T>)
    ensures |Somes(xs)| == |xs| && forall i :: 0 <= i < |xs| ==> Somes(xs)[i] == Some(xs[i])
  {
    if xs != [] {
      SomesMeaning(xs[1..]);
    }
  }

  lemma {:induction false} FlattenSnoc<T>(groups: seq<Option<seq<T>>>, last: Option<seq<T>>)
    ensures FlattenGroups(groups + [last]) ==
      FlattenGroups(groups) + (match last case None => [None] case Some(xs) => Somes(xs))
  {
    if groups == [] {
      assert ([last] + [])[1..] == [];
    } else {
      assert (groups + [last])[1..] == groups[1..] + [last];
      FlattenSnoc(groups[1..], last);
    }
  }

  /** The events are the entities group by group, each group in order; a call
      that fails is one event of its own, also the call for the groups. */
  lemma EventsMeaning<T>(groups: seq<Option<seq<T>>>, xs: seq<T>)
    ensures Events<T>(None) == [None] && Events<T>(Some([])) == []
    ensures Events(Some(groups + [None])) == Events(Some(groups)) + [None]
    ensures var before, events := Events(Some(groups)), Events(Some(groups + [Some(xs)]));
      && |events| == |before| + |xs| && events[..|before|] == before
      && forall i :: 0 <= i < |xs| ==> events[|before| + i] == Some(xs[i])
  {
    FlattenSnoc(groups, None);
    FlattenSnoc(groups, Some(xs));
    SomesMeaning(xs);
  }

  lemma AllSomeConcat<T>(a: seq<Option<T>>, b: seq<Option<T>>)
    ensures AllSome(a + b) <==> AllSome(a) && AllSome(b)
  {
    assert forall k :: 0 <= k < |a| ==> (a + b)[k] == a[k];
    assert forall k :: 0 <= k < |b| ==> (a + b)[|a| + k] == b[k];
  }

  lemma {:induction false} FailedGroupIsEvent<T>(groups: seq<Option<seq<T>>>)
    ensures AllSome(FlattenGroups(groups)) <==> forall i :: 0 <= i < |groups| ==> groups[i].Some?
  {
    hide AllSome;
    if groups == [] {
      NoEventIsSome<T>();
    } else {
      FailedGroupIsEvent(groups[1..]);
      OneGroup(groups[0]);
      AllSomeConcat(match groups[0] case None => [None] case Some(xs) => Somes(xs), FlattenGroups(groups[1..]));
      assert groups == [groups[0]] + groups[1..];
    }
  }

  lemma NoEventIsSome<T>()
    ensures AllSome<T>([])
  {}

  lemma OneGroup<T>(group: Option<seq<T>>)
    ensures AllSome(match group case None => [None] case Some(xs) => Somes(xs)) <==> group.Some?
  {
    if group.Some? {
      SomesMeaning(group.value);
    } else {
      assert [Option<T>.None][0].None?;
    }
  }

  lemma {:induction false} FailedEventFailsWriters(s: Scan, events: seq<Option<Writer>>)
    requires !AllSome(events)
    ensures ScanWriters(s, events).Failed?
    decreases |events|
  {
    hide ScanWriter;
    if events[0].Some? && ScanWriter(s, events[0].value).Running? {
      assert exists k :: 0 <= k < |events[1..]| && events[1..][k].None? by {
        var k :| 0 <= k < |events| && events[k].None?;
        assert events[1..][k - 1].None?;
      }
      FailedEventFailsWriters(ScanWriter(s, events[0].value).scan, events[1..]);
    }
  }

  lemma {:induction false} FailedEventFailsReaders(s: Scan, events: seq<Option<Reader>>)
    requires !AllSome(events)
    ensures ScanReaders(s, events).Failed?
    decreases |events|
  {
    hide ScanReader;
    if events[0].Some? && ScanReader(s, events[0].value).Running? {
      assert exists k :: 0 <= k < |events[1..]| && events[1..][k].None? by {
        var k :| 0 <= k < |events| && events[k].None?;
        assert events[1..][k - 1].None?;
      }
      FailedEventFailsReaders(ScanReader(s, events[0].value).scan, events[1..]);
    }
  }

  /** An inspection in which any DDS call fails does not succeed. */
  lemma FailedCallFailsInspection(n: Node, c: Contents, buffers: nat)
    requires c.publishers.None? || None in c.publishers.value || c.subscribers.None? || None in c.subscribers.value
    ensures Inspect(n, c, buffers).Failed?
  {
    if c.publishers.Some? {
      FailedGroupIsEvent(c.publishers.value);
    }
    if c.subscribers.Some? {
      FailedGroupIsEvent(c.subscribers.value);
    }
    var writers, readers := Events(c.publishers), Events(c.subscribers);
    assert c.publishers.None? ==> writers[0].None?;
    assert c.subscribers.None? ==> readers[0].None?;
    if AllSome(writers) {
      var o := ScanWriters(Scan(n, false, buffers), writers);
      if o.Running? {
        FailedEventFailsReaders(o.scan, readers);
      }
    } else {
      FailedEventFailsWriters(Scan(n, false, buffers), writers);
    }
  }

  // ---- Nodes without endpoints ----

  /** No two of the readers share a request or reply topic. */
  ghost predicate ClashFree(rs: seq<Reader>) {
    forall i, j :: 0 <= i < j < |rs| && IsServiceRole(DetectEndpointType(rs[j].topic, false)) ==>
      rs[i].topic != rs[j].topic
  }

  lemma FreshWritersPass(news: seq<Writer>)
    ensures WritersPass([], news) && Registering([], news) == news
  {
    FilterAll(news, OwnEndpoint([]));
  }

  lemma FreshReadersPass(news: seq<Reader>)
    ensures ReadersPass([], news) <==> ClashFree(news)
  {
    forall j | 0 <= j < |news|
      ensures ReaderPasses([], news[..j], news[j]) <==>
        (IsServiceRole(DetectEndpointType(news[j].topic, false)) ==>
          forall i :: 0 <= i < j ==> news[i].topic != news[j].topic)
    {
      assert forall i :: 0 <= i < j ==> news[..j][i] == news[i] && news[i] in news[..j];
    }
  }

  /** On a node without endpoints, with buffers to spare, only two distinct
      readers on one request or reply topic make an inspection fail. */
  lemma FreshInspectionIsExact(n: Node, c: Contents, buffers: nat)
    requires NodeOk(n) && n.endpoints == [] && AllSome(Events(c.publishers)) && AllSome(Events(c.subscribers))
    requires |Events(c.publishers)| + |Events(c.subscribers)| <= Handles.INT_MAX - 2
    requires |Events(c.publishers)| + |Events(c.subscribers)| <= buffers
    ensures var ws, rs := NewWriters([], Events(c.publishers)), NewReaders([], Events(c.subscribers));
      && (Inspect(n, c, buffers).Running? <==> ClashFree(rs))
      && (Inspect(n, c, buffers).Running? ==>
        var n' := Inspect(n, c, buffers).scan.node;
        OneEach(n'.endpoints, ws, rs) && n'.attaches == n.attaches)
  {
    var ws, rs := NewWriters([], Events(c.publishers)), NewReaders([], Events(c.subscribers));
    NewWritersSize([], Events(c.publishers));
    NewReadersSize([], Events(c.subscribers));
    FreshWritersPass(ws);
    FreshReadersPass(rs);
    InspectionIsExact(n, c, buffers);
    if Inspect(n, c, buffers).Running? {
      var es' := Inspect(n, c, buffers).scan.node.endpoints;
      assert es'[0..] == es';
    }
  }

  lemma {:induction false} NewReadersSize(es: seq<Endpoint>, events: seq<Option<Reader>>)
    ensures |NewReaders(es, events)| <= |events|
  {
    if events != [] {
      NewReadersSize(es, events[..|events| - 1]);
    }
  }

  // ---- When an inspection changes anything ----

  /** A writer that the scan skips on a node with these endpoints. */
  predicate IdleWriter(es: seq<Endpoint>, event: Option<Writer>) {
    event.Some? && (RosWriter(event.value) ==> HasWriterIn(es, event.value))
  }

  predicate IdleReader(es: seq<Endpoint>, event: Option<Reader>) {
    event.Some? && (RosReader(event.value) ==> HasReaderIn(es, event.value))
  }

  /** The first event that is not skipped. */
  function NextWriter(es: seq<Endpoint>, events: seq<Option<Writer>>): Option<nat> {
    FirstIndex(events, (event: Option<Writer>) => !IdleWriter(es, event))
  }

  function NextReader(es: seq<Endpoint>, events: seq<Option<Reader>>): Option<nat> {
    FirstIndex(events, (event: Option<Reader>) => !IdleReader(es, event))
  }

  /** It changes the node if it can be attached, or else registered. */
  predicate WriterChanges(es: seq<Endpoint>, event: Option<Writer>, buffers: nat) {
    event.Some? &&
    if OnReader(es, event.value) then es[FindByTopic(es, event.value.topic, false).value].writer.None? else buffers > 0
  }

  predicate ReaderChanges(es: seq<Endpoint>, event: Option<Reader>, buffers: nat) {
    event.Some? && ReaderPasses(es, [], event.value) && buffers > 0
  }

  lemma ExtendsAntisymmetric(a: seq<Endpoint>, b: seq<Endpoint>, c: seq<Endpoint>)
    requires Extends(a, b) && Extends(b, c) && b != a
    ensures c != a
  {
    if |a| == |b| {
      var i :| 0 <= i < |a| && b[i] != a[i];
      assert c[i] != a[i];
    }
  }

  lemma {:induction false} IdleWritersAreSkipped(s: Scan, events: seq<Option<Writer>>, k: nat)
    requires k <= |events| && forall j :: 0 <= j < k ==> IdleWriter(s.node.endpoints, events[j])
    ensures ScanWriters(s, events) == ScanWriters(s, events[k..])
    decreases k
  {
    if k == 0 {
      assert events[0..] == events;
    } else {
      FindMeansHas(s.node.endpoints);
      assert IdleWriter(s.node.endpoints, events[0]);
      assert forall j :: 0 <= j < k - 1 ==> events[1..][j] == events[j + 1];
      assert events[1..][k - 1..] == events[k..];
      IdleWritersAreSkipped(s, events[1..], k - 1);
    }
  }

  lemma {:induction false} IdleReadersAreSkipped(s: Scan, events: seq<Option<Reader>>, k: nat)
    requires k <= |events| && forall j :: 0 <= j < k ==> IdleReader(s.node.endpoints, events[j])
    ensures ScanReaders(s, events) == ScanReaders(s, events[k..])
    decreases k
  {
    if k == 0 {
      assert events[0..] == events;
    } else {
      FindMeansHas(s.node.endpoints);
      assert IdleReader(s.node.endpoints, events[0]);
      assert forall j :: 0 <= j < k - 1 ==> events[1..][j] == events[j + 1];
      assert events[1..][k - 1..] == events[k..];
      IdleReadersAreSkipped(s, events[1..], k - 1);
    }
  }

  /** The first writer that is not skipped changes the node or ends the scan. */
  lemma NewWriterChangesIff(n: Node, buffers: nat, w: Writer)
    requires NodeOk(n) && |n.endpoints| <= Handles.INT_MAX - 2 && !IdleWriter(n.endpoints, Some(w))
    ensures var o := ScanWriter(Scan(n, false, buffers), w);
      && (OutcomeNode(o).endpoints != n.endpoints <==> WriterChanges(n.endpoints, Some(w), buffers))
      && (OutcomeNode(o).endpoints == n.endpoints ==> o.Failed?)
  {
    var kind, s := DetectEndpointType(w.topic, true), Scan(n, false, buffers);
    FindMeansHas(n.endpoints);
    if !OnReader(n.endpoints, w) {
      ScanRegisterVerdict(s, kind, None, Some(w));
      assert ScanWriter(s, w) == ScanRegister(s, kind, None, Some(w));
    } else {
      var i := FindByTopic(n.endpoints, w.topic, false).value;
      if n.endpoints[i].writer.None? {
        assert OutcomeNode(ScanWriter(s, w)).endpoints[i] != n.endpoints[i];
      }
    }
  }

  lemma NewReaderChangesIff(s: Scan, r: Reader)
    requires NodeOk(s.node) && |s.node.endpoints| <= Handles.INT_MAX - 2 && !IdleReader(s.node.endpoints, Some(r))
    ensures var o := ScanReader(s, r);
      && (OutcomeNode(o).endpoints != s.node.endpoints <==> ReaderChanges(s.node.endpoints, Some(r), s.buffers))
      && (OutcomeNode(o).endpoints == s.node.endpoints ==> o.Failed?)
  {
    var kind := DetectEndpointType(r.topic, false);
    FindMeansHas(s.node.endpoints);
    if ReaderPasses(s.node.endpoints, [], r) {
      ScanRegisterVerdict(s, kind, Some(r), None);
      assert ScanReader(s, r) == ScanRegister(s, kind, Some(r), None);
    }
  }

  lemma ScanWritersChangeIff(n: Node, buffers: nat, events: seq<Option<Writer>>)
    requires NodeOk(n) && |n.endpoints| <= Handles.INT_MAX - 2
    ensures var o := ScanWriters(Scan(n, false, buffers), events);
      match NextWriter(n.endpoints, events)
      case None => o == Running(Scan(n, false, buffers))
      case Some(k) =>
        && (OutcomeNode(o).endpoints != n.endpoints <==> WriterChanges(n.endpoints, events[k], buffers))
        && (OutcomeNode(o).endpoints == n.endpoints ==> o.Failed?)
  {
    hide NodeOk, IdleWriter, WriterChanges, Extends;
    var s, next := Scan(n, false, buffers), NextWriter(n.endpoints, events);
    var k := if next.Some? then next.value else |events|;
    IdleWritersAreSkipped(s, events, k);
    if next.Some? && events[k].Some? {
      NewWriterChangesIff(n, buffers, events[k].value);
      ScanWriterExtends(s, events[k].value);
      var o := ScanWriter(s, events[k].value);
      if o.Running? {
        ScanWritersExtends(o.scan, events[k..][1..]);
        ExtendsAntisymmetric(n.endpoints, o.scan.node.endpoints,
                             OutcomeNode(ScanWriters(o.scan, events[k..][1..])).endpoints);
      }
    } else if next.Some? {
      assert !WriterChanges(n.endpoints, events[k], buffers) by { NoEventChanges(n.endpoints, buffers); }
    }
  }

  lemma NoEventChanges(es: seq<Endpoint>, buffers: nat)
    ensures !WriterChanges(es, None, buffers) && !ReaderChanges(es, None, buffers)
  {}

  lemma ScanReadersChangeIff(s: Scan, events: seq<Option<Reader>>)
    requires NodeOk(s.node) && |s.node.endpoints| <= Handles.INT_MAX - 2
    ensures OutcomeNode(ScanReaders(s, events)).endpoints != s.node.endpoints <==>
      var next := NextReader(s.node.endpoints, events);
      next.Some? && ReaderChanges(s.node.endpoints, events[next.value], s.buffers)
  {
    hide NodeOk, IdleReader, ReaderChanges, Extends;
    var es, next := s.node.endpoints, NextReader(s.node.endpoints, events);
    var k := if next.Some? then next.value else |events|;
    IdleReadersAreSkipped(s, events, k);
    if next.Some? && events[k].Some? {
      NewReaderChangesIff(s, events[k].value);
      ScanReaderExtends(s, events[k].value);
      var o := ScanReader(s, events[k].value);
      if o.Running? {
        ScanReadersExtends(o.scan, events[k..][1..]);
        ExtendsAntisymmetric(es, o.scan.node.endpoints,
                             OutcomeNode(ScanReaders(o.scan, events[k..][1..])).endpoints);
      }
    } else if next.Some? {
      assert !ReaderChanges(es, events[k], s.buffers) by { NoEventChanges(es, s.buffers); }
    }
  }

  /** Whether or not it succeeds, and with handles to spare: an inspection changes
      the endpoints of a node exactly if the first event that is not skipped, a
      writer if there is one and else a reader, can be attached or registered. */
  lemma InspectionChangesIff(n: Node, c: Contents, buffers: nat)
    requires NodeOk(n) && |n.endpoints| <= Handles.INT_MAX - 2
    ensures OutcomeNode(Inspect(n, c, buffers)).endpoints != n.endpoints <==>
      match NextWriter(n.endpoints, Events(c.publishers))
      case Some(k) => WriterChanges(n.endpoints, Events(c.publishers)[k], buffers)
      case None =>
        match NextReader(n.endpoints, Events(c.subscribers))
        case Some(k) => ReaderChanges(n.endpoints, Events(c.subscribers)[k], buffers)
        case None => false
  {
    hide NodeOk, NextWriter, NextReader, WriterChanges, ReaderChanges, Extends;
    var s := Scan(n, false, buffers);
    ScanWritersChangeIff(n, buffers, Events(c.publishers));
    var o := ScanWriters(s, Events(c.publishers));
    if o.Running? && o.scan.node.endpoints == n.endpoints {
      ScanReadersChangeIff(s, Events(c.subscribers));
    } else if o.Running? {
      ScanWritersExtends(s, Events(c.publishers));
      ScanReadersExtends(o.scan, Events(c.subscribers));
      ExtendsAntisymmetric(n.endpoints, o.scan.node.endpoints,
                           OutcomeNode(ScanReaders(o.scan, Events(c.subscribers))).endpoints);
    }
  }
}
