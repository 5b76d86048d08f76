/** When what was last published for a participant is what the registry lists
    for it, over all runs: polls, cycles that were given up, and changes that
    queue no update included. */
module UpToDate {
  import opened Common
  import opened Inspection
  import opened Registry
  import opened RegistryInvariants
  import opened Snapshot
  import opened UpdateProtocol
  import opened SnapshotSafety
  import opened NoLostUpdate
  import opened PublishedRegistry
  import opened Shutdown
  import Handles

  // ---- What a sample shows ----

  /** The sample shows exactly the nodes of p, in order, with the GIDs of their
      writers, and of their readers where no endpoint has both entities. */
  ghost predicate Shows(s: Sample, nodes: seq<Node>, p: Participant) {
    && s.gid == IhToGid(p.ih) && s.nodes.Ok() && s.nodes.len == |NodesOf(nodes, p)|
    && forall i :: 0 <= i < s.nodes.len ==>
      var info := s.nodes.buf[i];
      info.readers.Ok() && info.writers.Ok() && Lists(Shown(info), NodesOf(nodes, p)[i])
  }

  predicate SameEntry(n: Node, n': Node) {
    n'.name == n.name && n'.ns == n.ns && n'.endpoints == n.endpoints
  }

  ghost predicate SameEntries(mine: seq<Node>, mine': seq<Node>) {
    |mine'| == |mine| && forall i :: 0 <= i < |mine| ==> SameEntry(mine[i], mine'[i])
  }

  /** The two lists have the same nodes of p, with the same endpoints. */
  ghost predicate SameListing(nodes: seq<Node>, nodes': seq<Node>, p: Participant) {
    SameEntries(NodesOf(nodes, p), NodesOf(nodes', p))
  }

  lemma ConvertedShows(g: Registry.Graph, p: Participant, buffer: Sample)
    requires GraphOk(g) && Converts(g, p, buffer)
    ensures Shows(ConvertOrKeep(g, p, buffer), g.nodes, p)
  {
    hide GraphOk, Convert;
    ConvertMeaning(g, p, buffer);
    var s := ConvertOrKeep(g, p, buffer);
    forall i | 0 <= i < s.nodes.len
      ensures var info := s.nodes.buf[i];
        info.readers.Ok() && info.writers.Ok() && Lists(Shown(info), NodesOf(g.nodes, p)[i])
    {
      SlotLists(s.nodes.buf[i], NodesOf(g.nodes, p)[i], SlotBefore(buffer, i));
    }
  }

  lemma SameListingShows(s: Sample, nodes: seq<Node>, nodes': seq<Node>, p: Participant)
    requires SameListing(nodes, nodes', p) && Shows(s, nodes, p)
    ensures Shows(s, nodes', p)
  {
    forall i | 0 <= i < s.nodes.len
      ensures Lists(Shown(s.nodes.buf[i]), NodesOf(nodes', p)[i])
    {
      assert SameEntry(NodesOf(nodes, p)[i], NodesOf(nodes', p)[i]);
    }
  }

  lemma SameListingTransitive(a: seq<Node>, b: seq<Node>, c: seq<Node>, p: Participant)
    requires SameListing(a, b, p) && SameListing(b, c, p)
    ensures SameListing(a, c, p)
  {}

  lemma {:induction false} PointwiseListing(nodes: seq<Node>, nodes': seq<Node>, p: Participant)
    requires |nodes'| == |nodes|
    requires forall k :: 0 <= k < |nodes| ==>
      SameEntry(nodes[k], nodes'[k]) && nodes'[k].participant == nodes[k].participant
    ensures SameListing(nodes, nodes', p)
  {
    if nodes != [] {
      PointwiseListing(nodes[1..], nodes'[1..], p);
      ListingStep(nodes, p);
      ListingStep(nodes', p);
    }
  }

  lemma ListingStep(nodes: seq<Node>, p: Participant)
    requires nodes != []
    ensures NodesOf(nodes, p) == (if nodes[0].participant == p then [nodes[0]] else []) + NodesOf(nodes[1..], p)
  {}

  lemma NormListing(g: Registry.Graph, p: Participant)
    ensures SameListing(Norm(g).nodes, g.nodes, p) && SameListing(g.nodes, Norm(g).nodes, p)
  {
    PointwiseListing(Norm(g).nodes, g.nodes, p);
    PointwiseListing(g.nodes, Norm(g).nodes, p);
  }

  // ---- What was settled since the last queued update ----

  /** Every version settled since then lists for p what g lists. */
  ghost predicate SameSince(s: Sys, g: Registry.Graph, p: Participant) {
    forall v :: v in s.settled && s.req <= v ==>
      v < |s.hist| && GraphOk(s.hist[v]) && SameListing(s.hist[v].nodes, g.nodes, p)
  }

  lemma SettledOlder(s: Sys, g: Registry.Graph, s': Sys, g': Registry.Graph, p: Participant, v: nat)
    requires LockInv(s) && s'.Wf() && KeepsHistory(s, s') && SameSince(s, g, p) && SameListing(g.nodes, g'.nodes, p)
    requires v in s.settled && s.req <= v
    ensures v < |s'.hist| && GraphOk(s'.hist[v]) && SameListing(s'.hist[v].nodes, g'.nodes, p)
  {
    assert s'.hist[v] == s.hist[v];
    SameListingTransitive(s.hist[v].nodes, g.nodes, g'.nodes, p);
  }

  lemma LastIsListed(s: Sys, g: Registry.Graph, p: Participant)
    requires Tracks(s, g) && GraphOk(g) && s.lock.Free? && !s.pc.Polling?
    ensures GraphOk(s.Current()) && SameListing(s.Current().nodes, g.nodes, p)
  {
    NormPublishesTheSame(g);
    NormListing(g, p);
  }

  /** A step that leaves p's listing alone. */
  lemma SameSinceStep(poll: bool, s: Sys, g: Registry.Graph, l: Label<Registry.Graph>, s': Sys, g': Registry.Graph,
                      p: Participant)
    requires LockInv(s) && Step(RegistryEnv(poll), s, l, s') && SameSince(s, g, p)
    requires Tracks(s', g') && GraphOk(g') && SameListing(g.nodes, g'.nodes, p)
    ensures SameSince(s', g', p)
  {
    hide Norm, GraphOk, SameListing, Tracks;
    LockInvStep(RegistryEnv(poll), s, l, s');
    SettlesLast(RegistryEnv(poll), s, l, s');
    forall v | v in s'.settled && s'.req <= v
      ensures v < |s'.hist| && GraphOk(s'.hist[v]) && SameListing(s'.hist[v].nodes, g'.nodes, p)
    {
      if v in s.settled && s.req <= v {
        SettledOlder(s, g, s', g', p, v);
      } else {
        LastIsListed(s', g', p);
      }
    }
  }

  /** The end of an operation that queues an update makes a new start. */
  lemma SameSinceQueued(s: Sys, g: Registry.Graph, p: Participant)
    requires LockInv(s) && Tracks(s, g) && GraphOk(g) && s.lock.Free? && !s.pc.Polling? && s.req == s.Version()
    ensures SameSince(s, g, p)
  {
    hide GraphOk, SameListing;
    LastIsListed(s, g, p);
  }

  /** Step i completes an operation that queues an update. */
  predicate QueuedAt(t: Trace, i: nat)
    requires t.Sized()
  {
    i < |t.labels| && t.ops[i].Some? && Queues(t.graphs[i], t.ops[i].value)
  }

  lemma QueuedStart(t: Trace, graphParticipant: Participant, poll: bool, i: nat, p: Participant)
    requires IsOperationRun(t, graphParticipant, poll) && QueuedAt(t, i)
    ensures SameSince(t.states[i + 1], t.graphs[i + 1], p)
  {
    hide Norm, GraphOk, Tracks, Apply;
    var env := RegistryEnv(poll);
    RunInvariants(env, t.states, t.labels, i);
    RunInvariants(env, t.states, t.labels, i + 1);
    OperationRunTracks(t, graphParticipant, poll, i + 1);
    assert FollowsAt(t, i) && StepAt(env, t.states, t.labels, i);
    SettlesLast(env, t.states[i], t.labels[i], t.states[i + 1]);
    SameSinceQueued(t.states[i + 1], t.graphs[i + 1], p);
  }

  lemma RunStart(t: Trace, graphParticipant: Participant, poll: bool, p: Participant)
    requires IsOperationRun(t, graphParticipant, poll)
    ensures SameSince(t.states[0], t.graphs[0], p)
  {
    hide GraphOk, SameListing;
    EmptyOk(graphParticipant, poll);
    NormListing(t.graphs[0], p);
    NormPublishesTheSame(t.graphs[0]);
  }

  lemma EmptyOk(graphParticipant: Participant, poll: bool)
    ensures GraphOk(Empty(graphParticipant, poll))
  {}

  /** Every operation completed from j to k queues an update or leaves what is
      listed for p alone. */
  ghost predicate QuietFor(t: Trace, j: nat, k: nat, p: Participant)
    requires t.Sized() && j <= k <= |t.labels|
  {
    forall i :: j <= i < k && t.ops[i].Some? ==>
      QueuedAt(t, i) || SameListing(t.graphs[i].nodes, t.graphs[i + 1].nodes, p)
  }

  lemma {:induction false} SameSinceRun(
      t: Trace, graphParticipant: Participant, poll: bool, j: nat, k: nat, p: Participant)
    requires IsOperationRun(t, graphParticipant, poll) && j <= k <= |t.labels|
    requires (j == 0 || QueuedAt(t, j - 1)) && QuietFor(t, j, k, p)
    ensures SameSince(t.states[k], t.graphs[k], p)
    decreases k - j
  {
    hide Norm, GraphOk, Tracks, Apply, IsRun, SameSince, SameListing;
    if k == 0 {
      RunStart(t, graphParticipant, poll, p);
    } else if QueuedAt(t, k - 1) {
      QueuedStart(t, graphParticipant, poll, k - 1, p);
    } else {
      SameSinceRun(t, graphParticipant, poll, j, k - 1, p);
      SameSinceRunStep(t, graphParticipant, poll, k - 1, p);
    }
  }

  lemma SameSinceRunStep(t: Trace, graphParticipant: Participant, poll: bool, i: nat, p: Participant)
    requires IsOperationRun(t, graphParticipant, poll) && i < |t.labels|
    requires SameSince(t.states[i], t.graphs[i], p)
    requires t.ops[i].Some? ==> SameListing(t.graphs[i].nodes, t.graphs[i + 1].nodes, p)
    ensures SameSince(t.states[i + 1], t.graphs[i + 1], p)
  {
    hide Norm, GraphOk, Tracks, Apply, SameSince;
    var env := RegistryEnv(poll);
    RunInvariants(env, t.states, t.labels, i);
    OperationRunTracks(t, graphParticipant, poll, i + 1);
    assert FollowsAt(t, i) && StepAt(env, t.states, t.labels, i);
    SameSinceStep(poll, t.states[i], t.graphs[i], t.labels[i], t.states[i + 1], t.graphs[i + 1], p);
  }

  /** What the system guarantees to the ROS 2 side. In every run that carries out
      operations from an empty registry, in any interleaving with the update
      thread, with polls, with cycles that were given up and with changes that
      queue nothing: at rest, and unless the last cycle was given up, what was
      last published for a participant with nodes shows exactly what is listed
      for it, if every operation since some queueing one, or since the start,
      queued an update as well or left the listing of that participant alone. */
  lemma AtRestTheRegistryIsPublished(
      t: Trace, graphParticipant: Participant, poll: bool, j: nat, k: nat, p: Participant)
    requires IsOperationRun(t, graphParticipant, poll) && j <= k <= |t.labels|
    requires (j == 0 || QueuedAt(t, j - 1)) && QuietFor(t, j, k, p)
    requires AtRest(t.states[k]) && !t.states[k].missed && p in Gather(t.graphs[k].nodes)
    ensures p in t.states[k].last && Shows(t.states[k].last[p].sample, t.graphs[k].nodes, p)
  {
    hide Norm, GraphOk, IsRun, SameListing, Shows, QuietFor;
    var env, s, g := RegistryEnv(poll), t.states[k], t.graphs[k];
    OperationRunTracks(t, graphParticipant, poll, k);
    NormPublishesTheSame(g);
    NothingQueuedIsLost(env, t.states, t.labels, k, p);
    SameSinceRun(t, graphParticipant, poll, j, k, p);
    var pub := s.last[p];
    assert pub.version in s.settled && s.req <= pub.version;
    ConvertedShows(s.hist[pub.version], p, pub.buffer);
    SameListingShows(pub.sample, s.hist[pub.version].nodes, g.nodes, p);
  }

  // ---- Operations that queue nothing ----

  predicate WaitsForToken(pc: Pc) {
    pc == Top || pc == Wait || pc == Woken(Timeout) || pc == PollLock || pc.Polling? || pc == PollTake
  }

  /** The thread has had no token since s0, and there is none. */
  ghost predicate Idle(s0: Sys, s: Sys) {
    && s.sem == 0 && WaitsForToken(s.pc) && (s.lock.HeldByApi? ==> !HasQueued(s.lock.point))
    && s.last == s0.last && s.missed == s0.missed
  }

  /** Or a call is about to end that has queued an update, or finalize was called. */
  ghost predicate IdleUntilQueued(s0: Sys, s: Sys) {
    s.active ==> Idle(s0, s) || (s.lock.HeldByApi? && HasQueued(s.lock.point))
  }

  lemma IdleApi(poll: bool, s0: Sys, s: Sys, l: Label<Registry.Graph>, s': Sys)
    requires LockInv(s) && ApiStep(RegistryEnv(poll), s, l, s') && IdleUntilQueued(s0, s)
    requires l.ApiUnlock? && s.lock.HeldByApi? ==> !HasQueued(s.lock.point)
    ensures IdleUntilQueued(s0, s')
  {}

  lemma IdleThread(poll: bool, s0: Sys, s: Sys, l: Label<Registry.Graph>, s': Sys)
    requires LockInv(s) && UpdaterStep(RegistryEnv(poll), s, l, s') && IdleUntilQueued(s0, s)
    ensures IdleUntilQueued(s0, s')
  {
    var env := RegistryEnv(poll);
    if ControlStep(env, s, l, s') {
    } else if TakeMutexStep(env, s, l, s') {
    } else if GiveMutexStep(s, l, s') {
    } else if WorkStep(env, s, l, s') {
    } else {
    }
  }

  lemma IdleStep(poll: bool, s0: Sys, s: Sys, l: Label<Registry.Graph>, s': Sys)
    requires ShutdownInv(s) && Step(RegistryEnv(poll), s, l, s') && IdleUntilQueued(s0, s)
    requires l.ApiUnlock? && s.lock.HeldByApi? ==> !HasQueued(s.lock.point)
    ensures IdleUntilQueued(s0, s')
  {
    if ApiStep(RegistryEnv(poll), s, l, s') {
      IdleApi(poll, s0, s, l, s');
    } else if FinalizerStep(s, l, s') {
    } else {
      IdleThread(poll, s0, s, l, s');
    }
  }

  /** No operation completed from a to b queues an update. */
  predicate NothingQueued(t: Trace, a: nat, b: nat)
    requires t.Sized() && a <= b <= |t.labels|
  {
    forall i :: a <= i < b ==> !QueuedAt(t, i)
  }

  lemma {:induction false} IdleRun(t: Trace, graphParticipant: Participant, poll: bool, a: nat, b: nat)
    requires IsOperationRun(t, graphParticipant, poll) && a <= b <= |t.labels|
    requires AtRest(t.states[a]) && NothingQueued(t, a, b)
    ensures IdleUntilQueued(t.states[a], t.states[b])
    decreases b - a
  {
    hide Norm, Apply, Step, ShutdownInv;
    if a < b {
      IdleRun(t, graphParticipant, poll, a, b - 1);
      RunShutdownInv(RegistryEnv(poll), t.states, t.labels, b - 1);
      assert FollowsAt(t, b - 1) && StepAt(RegistryEnv(poll), t.states, t.labels, b - 1) && !QueuedAt(t, b - 1);
      IdleStep(poll, t.states[a], t.states[b - 1], t.labels[b - 1], t.states[b]);
    }
  }

  /** From one rest to the next, operations that queue nothing, polls included,
      leave everything that was published as it was. */
  lemma SilentOperationsPublishNothing(t: Trace, graphParticipant: Participant, poll: bool, a: nat, b: nat)
    requires IsOperationRun(t, graphParticipant, poll) && a <= b <= |t.labels|
    requires AtRest(t.states[a]) && AtRest(t.states[b]) && NothingQueued(t, a, b)
    ensures t.states[b].last == t.states[a].last && t.states[b].missed == t.states[a].missed
  {
    hide IsOperationRun;
    IdleRun(t, graphParticipant, poll, a, b);
  }

  // ---- What such operations do to a listing ----

  /** The same node, with its endpoints in place and possibly more. */
  ghost predicate Grown(n: Node, n': Node) {
    n'.name == n.name && n'.ns == n.ns && n'.participant == n.participant && Extends(n.endpoints, n'.endpoints)
  }

  ghost predicate AllGrown(nodes: seq<Node>, nodes': seq<Node>) {
    |nodes'| == |nodes| && forall k :: 0 <= k < |nodes| ==> Grown(nodes[k], nodes'[k])
  }

  /** Fewer nodes, or the same ones. */
  ghost predicate Reduced(nodes: seq<Node>, nodes': seq<Node>) {
    |nodes'| < |nodes| || AllGrown(nodes, nodes')
  }

  lemma ReducedTransitive(a: seq<Node>, b: seq<Node>, c: seq<Node>)
    requires Reduced(a, b) && Reduced(b, c)
    ensures Reduced(a, c)
  {
    if AllGrown(a, b) && AllGrown(b, c) {
      forall k | 0 <= k < |a|
        ensures Grown(a[k], c[k])
      {
        ExtendsTransitive(a[k].endpoints, b[k].endpoints, c[k].endpoints);
      }
    }
  }

  lemma {:induction false} GrownListing(nodes: seq<Node>, nodes': seq<Node>, p: Participant)
    requires AllGrown(nodes, nodes')
    ensures AllGrown(NodesOf(nodes, p), NodesOf(nodes', p))
  {
    if nodes != [] {
      GrownListing(nodes[1..], nodes'[1..], p);
      ListingStep(nodes, p);
      ListingStep(nodes', p);
    }
  }

  lemma {:induction false} ListingConcat(a: seq<Node>, b: seq<Node>, p: Participant)
    ensures NodesOf(a + b, p) == NodesOf(a, p) + NodesOf(b, p)
  {
    hide NodesOf;
    if a == [] {
      assert a + b == b;
      NoListing(p);
    } else {
      assert (a + b)[1..] == a[1..] + b;
      ListingConcat(a[1..], b, p);
      ListingStep(a, p);
      ListingStep(a + b, p);
    }
  }

  lemma NoListing(p: Participant)
    ensures NodesOf([], p) == []
  {}

  lemma RemovalListing(nodes: seq<Node>, k: nat, p: Participant)
    requires k < |nodes|
    ensures var rest := NodesOf(RemoveAt(nodes, k), p);
      if nodes[k].participant == p then |rest| == |NodesOf(nodes, p)| - 1 else rest == NodesOf(nodes, p)
  {
    hide NodesOf;
    RemoveAtIsConcat(nodes, k);
    ListingConcat(nodes[..k], nodes[k + 1..], p);
    ListingConcat(nodes[..k], nodes[k..], p);
    assert nodes == nodes[..k] + nodes[k..] && nodes[k..][1..] == nodes[k + 1..];
    ListingStep(nodes[k..], p);
  }

  lemma SameIsGrown(nodes: seq<Node>)
    ensures AllGrown(nodes, nodes)
  {}

  lemma InspectionsGrow(g: Registry.Graph, op: Op)
    requires GraphOk(g) && (op.OpInspectNode? || op.OpPoll?)
    ensures AllGrown(g.nodes, Apply(g, op).nodes)
  {
    hide GraphOk, Inspect;
    InspectionsKeepIdentity(g, op);
    forall k | 0 <= k < |g.nodes|
      ensures Extends(g.nodes[k].endpoints, Apply(g, op).nodes[k].endpoints)
    {
      match op
      case OpInspectNode(_, c, buffers) => InspectExtends(g.nodes[k], c, buffers);
      case OpPoll(view, budget) => InspectExtends(g.nodes[k], view(g.nodes[k].participant), budget(k));
    }
  }

  lemma TokensNeverFall(g: Registry.Graph, op: Op)
    ensures g.tokens <= Apply(g, op).tokens
  {
    hide AddEndpoint, Inspect, Handles.Allocate;
  }

  lemma SilentOperationReduces(g: Registry.Graph, op: Op, p: Participant)
    requires GraphOk(g) && !Queues(g, op)
    ensures Reduced(NodesOf(g.nodes, p), NodesOf(Apply(g, op).nodes, p))
  {
    hide GraphOk, Grown;
    var g' := Apply(g, op);
    SameIsGrown(NodesOf(g.nodes, p));
    if op.OpUnregisterNode? {
      var k := FindNode(g.nodes, op.node);
      if k.Some? {
        RemovalListing(g.nodes, k.value, p);
      }
    } else if op.OpInspectNode? || op.OpPoll? {
      InspectionsGrow(g, op);
      GrownListing(g.nodes, g'.nodes, p);
    } else {
      TokensNeverFall(g, op);
      UnqueuedOperationsShowTheSame(g, op);
      ShownIsGrown(g.nodes, g'.nodes);
      GrownListing(g.nodes, g'.nodes, p);
    }
  }

  lemma ShownIsGrown(nodes: seq<Node>, nodes': seq<Node>)
    requires SameShown(nodes, nodes')
    ensures AllGrown(nodes, nodes')
  {}

  /** Endpoints that grew and have as many readers and writers did not change. */
  lemma ExtendsWithSameCounts(es: seq<Endpoint>, es': seq<Endpoint>)
    requires Extends(es, es') && HasEntities(es')
    requires Count(es', HasReader) == Count(es, HasReader) && Count(es', HasWriter) == Count(es, HasWriter)
    ensures es' == es
  {
    var kept, more := es'[..|es|], es'[|es|..];
    assert es' == kept + more;
    CountConcat(kept, more, HasReader);
    CountConcat(kept, more, HasWriter);
    GrownCounts(es, kept);
    assert forall e :: e in more ==> e in es';
    EntitiesAreCounted(more);
  }

  lemma {:induction false} EntitiesAreCounted(es: seq<Endpoint>)
    requires HasEntities(es)
    ensures |es| <= Count(es, HasReader) + Count(es, HasWriter)
  {
    if es != [] {
      assert es[0] in es && forall e :: e in es[1..] ==> e in es;
      EntitiesAreCounted(es[1..]);
    }
  }

  lemma {:induction false} GrownCounts(es: seq<Endpoint>, es': seq<Endpoint>)
    requires Extends(es, es') && |es'| == |es|
    ensures Count(es', HasReader) == Count(es, HasReader) && Count(es', HasWriter) >= Count(es, HasWriter)
    ensures Count(es', HasWriter) == Count(es, HasWriter) ==> es' == es
  {
    if es != [] {
      assert forall i :: 0 <= i < |es| - 1 ==> es[1..][i] == es[i + 1] && es'[1..][i] == es'[i + 1];
      GrownCounts(es[1..], es'[1..]);
      assert es == [es[0]] + es[1..] && es' == [es'[0]] + es'[1..];
    }
  }

  lemma ListsBoth(c: Listing, n: Node, n': Node)
    requires Lists(c, n) && Lists(c, n') && Grown(n, n') && HasEntities(n'.endpoints)
    ensures SameEntry(n, n')
  {
    ExtendsWithSameCounts(n.endpoints, n'.endpoints);
  }

  lemma ListedEntities(g: Registry.Graph, p: Participant)
    requires GraphOk(g)
    ensures forall n :: n in NodesOf(g.nodes, p) ==> HasEntities(n.endpoints)
  {
    ReachableConvertible(g);
  }

  /** What shows a listing shows a reduced one exactly if that is the same. */
  lemma ShowsReducedIff(s: Sample, g: Registry.Graph, g': Registry.Graph, p: Participant)
    requires GraphOk(g') && Shows(s, g.nodes, p) && Reduced(NodesOf(g.nodes, p), NodesOf(g'.nodes, p))
    ensures Shows(s, g'.nodes, p) <==> SameListing(g.nodes, g'.nodes, p)
  {
    hide GraphOk, Lists, SameEntry, Grown, Shown;
    var mine, mine' := NodesOf(g.nodes, p), NodesOf(g'.nodes, p);
    ListedEntities(g', p);
    if Shows(s, g'.nodes, p) {
      forall i | 0 <= i < |mine|
        ensures SameEntry(mine[i], mine'[i])
      {
        assert mine'[i] in mine';
        ListsBoth(Shown(s.nodes.buf[i]), mine[i], mine'[i]);
      }
    }
    if SameListing(g.nodes, g'.nodes, p) {
      SameListingShows(s, g.nodes, g'.nodes, p);
    }
  }

  lemma {:induction false} SilentRunReduces(
      t: Trace, graphParticipant: Participant, poll: bool, a: nat, b: nat, p: Participant)
    requires IsOperationRun(t, graphParticipant, poll) && a <= b <= |t.labels| && NothingQueued(t, a, b)
    ensures Reduced(NodesOf(t.graphs[a].nodes, p), NodesOf(t.graphs[b].nodes, p))
    decreases b - a
  {
    hide Norm, Apply, Reduced, GraphOk;
    if a == b {
      SameIsReduced(NodesOf(t.graphs[a].nodes, p));
    } else {
      SilentRunReduces(t, graphParticipant, poll, a, b - 1, p);
      OperationRunTracks(t, graphParticipant, poll, b - 1);
      assert FollowsAt(t, b - 1) && !QueuedAt(t, b - 1);
      if t.ops[b - 1].Some? {
        SilentOperationReduces(t.graphs[b - 1], t.ops[b - 1].value, p);
        ReducedTransitive(NodesOf(t.graphs[a].nodes, p), NodesOf(t.graphs[b - 1].nodes, p),
                          NodesOf(t.graphs[b].nodes, p));
      }
    }
  }

  lemma SameIsReduced(nodes: seq<Node>)
    ensures Reduced(nodes, nodes)
  {}

  /** The limit of the guarantee, for every run: from an up-to-date rest, any
      operations that queue nothing leave p up to date at the next rest exactly
      if they leave the listing of p as it was. */
  lemma SilentOperationsUpToDateIff(
      t: Trace, graphParticipant: Participant, poll: bool, a: nat, b: nat, p: Participant)
    requires IsOperationRun(t, graphParticipant, poll) && a <= b <= |t.labels|
    requires AtRest(t.states[a]) && AtRest(t.states[b]) && NothingQueued(t, a, b)
    requires p in t.states[a].last && Shows(t.states[a].last[p].sample, t.graphs[a].nodes, p)
    ensures p in t.states[b].last
    ensures Shows(t.states[b].last[p].sample, t.graphs[b].nodes, p)
       <==> SameListing(t.graphs[a].nodes, t.graphs[b].nodes, p)
  {
    hide Norm, Apply, Reduced, GraphOk, Shows, SameListing;
    SilentOperationsPublishNothing(t, graphParticipant, poll, a, b);
    SilentRunReduces(t, graphParticipant, poll, a, b, p);
    OperationRunTracks(t, graphParticipant, poll, b);
    ShowsReducedIff(t.states[a].last[p].sample, t.graphs[a], t.graphs[b], p);
  }

  lemma QueueingKeepsParticipants(g: Registry.Graph, op: Op, p: Participant)
    requires GraphOk(g) && p in Gather(g.nodes) && Queues(g, op)
    ensures p in Gather(Apply(g, op).nodes)
  {
    QueueingKeepsNodes(g, op);
    GatherMeaning(g.nodes);
    GatherMeaning(Apply(g, op).nodes);
    var n :| n in g.nodes && n.participant == p;
    var k :| 0 <= k < |g.nodes| && g.nodes[k] == n;
    assert Apply(g, op).nodes[k] in Apply(g, op).nodes;
  }

  lemma QueueingKeepsNodes(g: Registry.Graph, op: Op)
    requires GraphOk(g) && Queues(g, op)
    ensures |g.nodes| <= |Apply(g, op).nodes|
    ensures forall k :: 0 <= k < |g.nodes| ==> Apply(g, op).nodes[k].participant == g.nodes[k].participant
  {
    hide GraphOk, Inspect, AddEndpoint, Handles.Allocate;
    if op.OpInspectNode? || op.OpPoll? {
      InspectionsKeepIdentity(g, op);
    } else if op.OpRegisterEndpoint? {
      RegistrationKeepsParticipants(g, op);
    }
  }

  lemma RegistrationKeepsParticipants(g: Registry.Graph, op: Op)
    requires op.OpRegisterEndpoint?
    ensures |Apply(g, op).nodes| == |g.nodes|
    ensures forall k :: 0 <= k < |g.nodes| ==> Apply(g, op).nodes[k].participant == g.nodes[k].participant
  {
    hide Handles.Allocate;
  }

  lemma {:induction false} NothingCompleted(
      t: Trace, graphParticipant: Participant, poll: bool, a: nat, b: nat)
    requires IsOperationRun(t, graphParticipant, poll) && a <= b <= |t.labels|
    requires forall i :: a <= i < b ==> t.ops[i].None?
    ensures t.graphs[b] == t.graphs[a]
    decreases b - a
  {
    if a < b {
      NothingCompleted(t, graphParticipant, poll, a, b - 1);
      assert FollowsAt(t, b - 1);
    }
  }

  /** The two halves together, for every run and every operation: carried out
      between one up-to-date rest and the next, it leaves a participant that had
      nodes up to date exactly if it queues an update or leaves the listing of
      that participant alone. */
  lemma OperationLeavesUpToDateIff(
      t: Trace, graphParticipant: Participant, poll: bool, a: nat, m: nat, b: nat, p: Participant)
    requires IsOperationRun(t, graphParticipant, poll) && a <= m < b <= |t.labels|
    requires AtRest(t.states[a]) && AtRest(t.states[b]) && !t.states[b].missed
    requires t.ops[m].Some? && forall i :: a <= i < b && i != m ==> t.ops[i].None?
    requires p in Gather(t.graphs[a].nodes)
    requires p in t.states[a].last && Shows(t.states[a].last[p].sample, t.graphs[a].nodes, p)
    ensures p in t.states[b].last
    ensures Shows(t.states[b].last[p].sample, t.graphs[b].nodes, p) <==>
      || Queues(t.graphs[a], t.ops[m].value)
      || SameListing(t.graphs[a].nodes, Apply(t.graphs[a], t.ops[m].value).nodes, p)
  {
    hide Norm, Apply, GraphOk, Shows, SameListing, IsRun;
    NothingCompleted(t, graphParticipant, poll, a, m);
    NothingCompleted(t, graphParticipant, poll, m + 1, b);
    assert FollowsAt(t, m);
    if QueuedAt(t, m) {
      OperationRunTracks(t, graphParticipant, poll, a);
      QueueingKeepsParticipants(t.graphs[a], t.ops[m].value, p);
      AtRestTheRegistryIsPublished(t, graphParticipant, poll, m + 1, b, p);
    } else {
      SilentOperationsUpToDateIff(t, graphParticipant, poll, a, b, p);
    }
  }

  // ---- The operations that can leave a participant behind ----

  /** No node of p has other endpoints. */
  ghost predicate SameOwn(nodes: seq<Node>, nodes': seq<Node>, p: Participant)
    requires |nodes'| == |nodes|
  {
    forall k :: 0 <= k < |nodes| && nodes[k].participant == p ==> nodes'[k].endpoints == nodes[k].endpoints
  }

  lemma SameOwnStep(nodes: seq<Node>, nodes': seq<Node>, p: Participant)
    requires |nodes'| == |nodes| && nodes != []
    ensures SameOwn(nodes, nodes', p) <==>
      (nodes[0].participant == p ==> nodes'[0].endpoints == nodes[0].endpoints) && SameOwn(nodes[1..], nodes'[1..], p)
  {
    var rest, rest' := nodes[1..], nodes'[1..];
    assert forall k :: 0 <= k < |rest| ==> rest[k] == nodes[k + 1] && rest'[k] == nodes'[k + 1];
    if SameOwn(rest, rest', p) {
      forall k | 0 < k < |nodes| && nodes[k].participant == p
        ensures nodes'[k].endpoints == nodes[k].endpoints
      {
        assert rest'[k - 1].endpoints == rest[k - 1].endpoints;
      }
    }
  }

  lemma SameListingStep(nodes: seq<Node>, nodes': seq<Node>, p: Participant)
    requires nodes != [] && nodes' != [] && nodes'[0].participant == nodes[0].participant
    ensures SameListing(nodes, nodes', p) <==>
      (nodes[0].participant == p ==> SameEntry(nodes[0], nodes'[0])) && SameListing(nodes[1..], nodes'[1..], p)
  {
    hide NodesOf, SameEntry, SameEntries;
    var mine, mine' := NodesOf(nodes[1..], p), NodesOf(nodes'[1..], p);
    ListingStep(nodes, p);
    ListingStep(nodes', p);
    assert [] + mine == mine && [] + mine' == mine';
    SameEntriesStep(nodes[0], mine, nodes'[0], mine');
  }

  /** Grown nodes have the same listing for p exactly if none of p's has changed. */
  lemma {:induction false} GrownListingIff(nodes: seq<Node>, nodes': seq<Node>, p: Participant)
    requires AllGrown(nodes, nodes')
    ensures SameListing(nodes, nodes', p) <==> SameOwn(nodes, nodes', p)
  {
    hide NodesOf, SameOwn, SameListing, Extends;
    if nodes == [] {
      NoListingIsSame(p);
      assert nodes' == [];
    } else {
      var rest, rest' := nodes[1..], nodes'[1..];
      assert Grown(nodes[0], nodes'[0]);
      assert AllGrown(rest, rest');
      GrownListingIff(rest, rest', p);
      SameListingStep(nodes, nodes', p);
      SameOwnStep(nodes, nodes', p);
    }
  }

  lemma NoListingIsSame(p: Participant)
    ensures SameListing([], [], p) && SameOwn([], [], p)
  {}

  lemma SameEntriesStep(n: Node, mine: seq<Node>, n': Node, mine': seq<Node>)
    ensures SameEntries([n] + mine, [n'] + mine') <==> SameEntry(n, n') && SameEntries(mine, mine')
  {
    hide SameEntry;
    var a, b := [n] + mine, [n'] + mine';
    assert a[1..] == mine && b[1..] == mine';
    if SameEntries(a, b) {
      assert SameEntry(a[0], b[0]);
      forall i | 0 <= i < |mine|
        ensures SameEntry(mine[i], mine'[i])
      {
        assert SameEntry(a[i + 1], b[i + 1]);
      }
    }
    if SameEntry(n, n') && SameEntries(mine, mine') {
      forall i | 0 <= i < |a|
        ensures SameEntry(a[i], b[i])
      {
        assert i > 0 ==> a[i] == mine[i - 1] && b[i] == mine'[i - 1];
      }
    }
  }

  /** Unregistering a node leaves p's listing alone exactly if there is no such
      node or it is another participant's. */
  lemma RemovalLeavesListingIff(g: Registry.Graph, node: int, p: Participant)
    ensures SameListing(g.nodes, Apply(g, OpUnregisterNode(node)).nodes, p) <==>
      var k := FindNode(g.nodes, node);
      k.Some? ==> g.nodes[k.value].participant != p
  {
    var k := FindNode(g.nodes, node);
    if k.Some? {
      RemovalListing(g.nodes, k.value, p);
    }
  }

  /** An inspection, in particular one that fails, leaves it alone exactly if the
      node is another participant's or is left with the endpoints it had. */
  lemma InspectionLeavesListingIff(g: Registry.Graph, node: int, c: Contents, buffers: nat, p: Participant)
    requires GraphOk(g)
    ensures SameListing(g.nodes, Apply(g, OpInspectNode(node, c, buffers)).nodes, p) <==>
      var k := FindNode(g.nodes, node);
      k.Some? && g.nodes[k.value].participant == p ==>
        OutcomeNode(Inspect(g.nodes[k.value], c, buffers)).endpoints == g.nodes[k.value].endpoints
  {
    hide Inspect, GraphOk;
    var op := OpInspectNode(node, c, buffers);
    InspectionsGrow(g, op);
    GrownListingIff(g.nodes, Apply(g, op).nodes, p);
  }

  /** A poll leaves it alone exactly if no node of p is left with other endpoints. */
  lemma PollLeavesListingIff(g: Registry.Graph, view: Participant -> Contents, budget: nat -> nat, p: Participant)
    requires GraphOk(g)
    ensures SameListing(g.nodes, Apply(g, OpPoll(view, budget)).nodes, p) <==>
      forall k :: 0 <= k < |g.nodes| && g.nodes[k].participant == p ==>
        OutcomeNode(Inspect(g.nodes[k], view(p), budget(k))).endpoints == g.nodes[k].endpoints
  {
    hide Inspect, GraphOk;
    InspectionsGrow(g, OpPoll(view, budget));
    GrownListingIff(g.nodes, Apply(g, OpPoll(view, budget)).nodes, p);
  }

  /** An inspection that succeeds changes endpoints exactly if it meets an entity
      that is ROS-named and in no endpoint of the node. */
  lemma SuccessChangesIffNew(n: Node, c: Contents, buffers: nat)
    requires NodeOk(n) && Inspect(n, c, buffers).Running?
    ensures OutcomeNode(Inspect(n, c, buffers)).endpoints == n.endpoints <==>
      && CoversWriters(n.endpoints, Events(c.publishers)) && CoversReaders(n.endpoints, Events(c.subscribers))
  {
    InspectionCoversAndIsIdempotent(n, c, buffers, buffers);
    if CoversWriters(n.endpoints, Events(c.publishers)) && CoversReaders(n.endpoints, Events(c.subscribers)) {
      ScanOfCoveredWriters(Scan(n, false, buffers), Events(c.publishers));
      ScanOfCoveredReaders(Scan(n, false, buffers), Events(c.subscribers));
    }
  }
}
