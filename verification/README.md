# A verified model of the ROS 2 graph registry

The adapter keeps a registry of ROS 2 nodes and their endpoints (subscriptions,
publishers, clients, services) on top of DDS, and publishes one sample per DDS
participant whenever the registry changes. This project models the logic of
`src/adapter_c/graph_impl.c`, `src/adapter_c/graph.c` and the two pieces of
`src/adapter_cpp/graph.cpp` that have logic of their own, and proves what they
guarantee. Verify it with `dafny verify dfyconfig.toml`.

## How it is built

| file | contents |
|---|---|
| `Registry.dfy` | the registry as a value, and every operation as a function on it |
| `RegistryInvariants.dfy` | what every operation keeps: counters, unique keys, endpoint shapes |
| `Handles.dfy`, `HandleRuns.dfy` | the handle allocators under 32-bit wrap-around, and handles along runs |
| `RoundTrips.dfy` | exactly when registrations succeed, and that unregistering undoes them |
| `CallEffects.dfy` | what every other call returns and leaves, and exactly which calls queue an update |
| `Inspection.dfy` | exactly when a participant inspection succeeds, and what it leaves |
| `AttachDrift.dfy` | exactly when an inspection attaches, and what that breaks for the rest of a run |
| `Snapshot.dfy` | conversion into a reused sample, gathering of participants |
| `GraphObjects.dfy` | the C code on linked buffers from two pools, updated in place, proved against `Registry.dfy` |
| `GraphConversion.dfy` | the conversion loops of both adapters, proved against `Snapshot.dfy` |
| `InlineList.dfy` | the intrusive next/prev lists that nodes and endpoints are on |
| `UpdateProtocol.dfy` | API threads, update thread and finalizer as one transition system |
| `SnapshotSafety.dfy`, `NoLostUpdate.dfy`, `Shutdown.dfy` | its safety over every run, no lost update, the shutdown handshake |
| `UpdateCycle.dfy` | when the update thread can move, its account of tokens, cycles that are given up, the log and the reused buffer |
| `PublishedRegistry.dfy` | runs of the system that follow operations of the actual registry |
| `UpToDate.dfy` | when what was last published is what the registry lists, over all runs, and exactly which operations leave it behind |
| `OperationPaths.dfy` | that the system can carry out every operation from every state |
| `Departures.dfy` | runs from an empty registry that show the departures below |
| `Naming.dfy`, `NameBuffers.dfy` | name mangling on strings, and in the caller's character buffers |
| `Common.dfy` | return codes, DDS entities, sequences |

A DDS reader or writer is its identity together with the topic name and the
instance handle that DDS fixes for it. What DDS calls return and whether an
allocation succeeds are parameters: `Contents` is what a participant reports
(`None` is a failed call), `Resources` and `buffer` are the allocations. The
history variable `attaches` of a node counts the attach steps taken on it; the
history variables of the transition system are explained in `UpdateProtocol.dfy`.

In `GraphObjects.dfy` nodes and endpoints are buffers on doubly linked lists, and
all loops walk and cut the links. Each pool has a ghost account of the buffers
that are out: the set `outNodes`, and the map `home` from an endpoint buffer to the
node that it was listed for. The structure invariant says that the buffers that
are out are exactly the listed ones, each on one list only; it does not refer to
the value model.

## Where the code departs from what it seems to intend

The model follows the code. These are the differences, with the member that
states each one:

- An endpoint with both a reader and a writer has only its writer's GID stored;
  the reader's slot keeps what the reused buffer held
  (`src/adapter_c/graph_impl.c:894-909`). `Snapshot.ReadersFaithfulIff` says that
  reader GIDs are faithful from every buffer exactly when no endpoint has both, and
  `Departures.ReaderIsNotPublished` is a run that registers one service and publishes
  zeros for its reader.
- The attach step looks for a reader on the writer's own topic, which always has
  the opposite role (`RegistryInvariants.AttachedMeansSameTopic`), and does not
  count the writer. `AttachDrift.InspectionAttachesIff` says exactly when an
  inspection attaches and `AttachDrift.AttachIsReachable` gives a run from an empty
  registry that does. The reader-side attach branches are dead
  (`GraphObjects.Graph.InspectServiceReader` asserts it).
- An attached endpoint leaves `writers_len` behind the endpoints, and the conversion
  sizes the writer sequence by it. As long as the counter is not negative, the loop
  asks for a slot past the sequence, gets NULL, and stores a GID through it
  (`src/adapter_c/graph_impl.c:907-908`): the call does not return. Only a counter
  that has wrapped below zero gives the error return. `Snapshot.NodeToSampleMeaning`
  says which it is for one node, `Snapshot.VerdictMeaning` for a participant, and
  `GraphConversion.CppConvertToSample` up to the C++ caller.
- A conversion that fails gives up the whole update cycle
  (`src/adapter_c/graph_impl.c:1001-1007`), so that an attached endpoint starves its
  own participant and everyone behind it on the gathered list. At most the one sample
  that the thread had already converted is still published for that participant
  (`PublishedRegistry.AttachedParticipantIsNotPublished`). The transition system takes
  every conversion that does not succeed as one that fails. Where it stores through
  NULL instead, it is not one cycle that is given up: the whole process, update
  thread included, stops, and nothing is published for anyone any more.
- A new reader on an `rq/` or `rr/` topic makes the inspection fail if an endpoint of
  the node already has another reader on that topic, or if it is the second new one
  on it; readers that are already registered are skipped
  (`Inspection.InspectionIsExact`).
- The repository's README (`README.md:206-210`) says that the endpoints of a
  participant shared by several nodes are all associated with the first node that
  is inspected. The code checks entities per node, so that every inspected node
  gets them all: `Departures.SharingNodesGetTheSameEntities` for any two such nodes
  and any poll, and `Departures.SharedParticipantIsListedTwice` for a run with two.
- Some changes queue no update: `unregister_local_node`, endpoints found by
  polling, and what a failed inspection registered. What is published at rest is
  therefore the current registry only as far as `UpToDate.AtRestTheRegistryIsPublished`
  says: in every run, whatever came before, for a participant whose listing was left
  alone by every operation since the last one that queued an update. This is exact.
  `UpToDate.OperationLeavesUpToDateIff` says that an operation carried out between two
  rests leaves an up-to-date participant up to date exactly if it queues or leaves its
  listing alone, and `UpToDate.SilentOperationsUpToDateIff` says so of any number of
  operations that queue nothing; `UpToDate.RemovalLeavesListingIff`,
  `UpToDate.InspectionLeavesListingIff` and `UpToDate.PollLeavesListingIff`, with
  `Inspection.InspectionChangesIff`, say when each of the three leaves a listing
  alone. `OperationPaths.SilentOperationLeavesBehindIff` adds that from every rest
  every such operation can be carried out, and `Departures.StaleSampleIsReachable` is
  a run that ends at rest with a published sample that shows an unregistered node.
- A failed publication drops its token: the participants from there on wait for the
  next queued update (`missed` in `NoLostUpdate.NothingQueuedIsLost`).
- The check that a reader and a writer are not in use rejects only a pair that one
  endpoint already has. `RegistryInvariants.PlainEntitiesAreExclusive` says what is
  exclusive all the same: readers and writers of `rt/` topics.
  `RoundTrips.RegisterEndpointMeaning` has the exact condition, and
  `Departures.OneReaderManyServices` is a run in which any number of services of one
  node have the same request reader.
- The type name lacks the `::` before `dds_`, the type identifier and the
  terminator, although the reported length includes them
  (`NameBuffers.TypeNameIsNeverTheIntendedOne`).
- The C++ service caller passes the request's type buffer where the reply's
  belongs (`src/adapter_cpp/graph.cpp:465`, `NameBuffers.FillServiceNames`).
- After its counter wrapped, an allocator issues handles again that it had issued
  before (`Departures.NodeHandleIsIssuedAgain`), and it probes handle 0 twice, so that with
  INT_MAX - 1 live objects it can report exhaustion although two handles are free
  (`Handles.AllocateCanExhaust`).

## Model

| member | source | states |
|---|---|---|
| Common.FirstIndex | src/adapter_c/graph_impl.c:485-501 | The cursor loop shared by all lookups returns the first element that passes its test, and nothing exactly when none does. |
| Common.IhToGid | src/adapter_c/graph_impl.c:830-837 | A GID is the 16 bytes of the key hash, in order, followed by 8 zeros. |
| Common.IhToGidInjective | src/adapter_c/graph_impl.c:830-837 | Padding a key hash to a GID loses nothing: distinct entities keep distinct GIDs. |
| Handles.ProbeMeaning | src/adapter_c/graph_impl.c:441-446 | A probe looks at the counter and increments it as a 32-bit integer, wrapping past 2147483647; a counter that has wrapped starts over at 0, and is not incremented by that probe. |
| Handles.CandidatesAlmostDistinct | src/adapter_c/graph_impl.c:441-450 | Of up to INT_MAX consecutive probes, across the wrap, at most one looks at a candidate twice. |
| Handles.AllocateMeaning | src/adapter_c/graph_impl.c:433-453 | The search reports exhaustion exactly when every candidate it looks at is live; otherwise it returns a non-negative handle that no live object has, and the counter stays in its range. |
| Handles.AllocateSucceeds | src/adapter_c/graph_impl.c:433-477 | With at most INT_MAX - 2 live objects no search of either allocator reports exhaustion, from any counter value. |
| Handles.AllocateCanExhaust | src/adapter_c/graph_impl.c:441-452 | That bound is sharp: INT_MAX - 1 live objects and a counter at the wrap make the search fail with two handles free. |
| Handles.AllocateFirstProbe | src/adapter_c/graph_impl.c:465-474 | While the counter exceeds every live handle the search ends on its first probe with the counter's value. |
| HandleRuns.HandleIsSearchCount | src/adapter_c/graph_impl.c:455-477 | Along any run of issues, retirements and failed registrations, until the wrap, each search ends on its first probe with the number of earlier searches as its handle. |
| HandleRuns.HandlesIncrease | src/adapter_c/graph_impl.c:455-477 | So each handle exceeds every handle issued before it, retired ones included. |
| HandleRuns.NewHandlesAreLater | src/adapter_c/graph_impl.c:455-477 | Whatever steps follow, a handle that they make live is at least the number of searches made before them. |
| Departures.NodeHandleIsIssuedAgain | src/adapter_c/graph_impl.c:433-453 | The bound is sharp: in the run that registers and unregisters a node INT_MAX + 1 times, the next registration gets handle 0, the handle of the first. |
| HandleRuns.NodeRunTakes | src/adapter_c/graph.c:268-274 | Along every run of operations, the live node handles and their counter are those of an allocator that takes one search per registration that gets that far and one retirement per removal. |
| HandleRuns.NodeHandlesIncrease | src/adapter_c/graph.c:268-274 | In every run of operations of any kind, up to INT_MAX searches for a node handle, each node handle exceeds all handles returned by earlier registrations, also of nodes since removed. |
| HandleRuns.InspectTakes | src/adapter_c/graph_impl.c:1137-1397 | An inspection takes the node's allocator through one search per entity that it registers, and no other step. |
| HandleRuns.EndpointRunTakes | src/adapter_c/graph_impl.c:669-739 | Along every run that leaves a node registered, its live endpoint handles and their counter are those of an allocator that takes the steps of the operations on it: registrations, removals, inspections and polls. |
| HandleRuns.RegisteredAllocator | src/adapter_c/graph.c:276-332 | A registered node starts from the fresh allocator, after the searches of its first inspection if polling is enabled. |
| HandleRuns.EndpointHandlesIncrease | src/adapter_c/graph_impl.c:455-477 | From the registration of a node on, along every run that does not unregister it and up to INT_MAX + 1 searches, every endpoint handle that an operation lists on it exceeds every handle listed on it before, also of endpoints since removed. |
| Naming.ClassifierMeaning | src/adapter_c/graph_impl.c:610-643 | rt/ topics are publishers' and subscriptions', a client writes rq/ and reads rr/ topics, a service reads rq/ and writes rr/ topics, and nothing else has a type. |
| Naming.ManglingIsDesigned | src/adapter_c/graph.c:1004-1095 | Every type but the unknown one has the designed prefix and type suffix for its writer and its reader: rt/ and _ for topics, rq/ and _Request_ for what clients write and services read, rr/ and _Response_ for the way back. |
| Naming.ClassifierInvertsMangling | src/adapter_c/graph_impl.c:610-643 | A topic is classified as a type exactly when that type owns an entity of that direction and the topic is the type's prefix followed by some name. |
| Naming.GeneratedTopicsAreRecognised | src/adapter_c/graph.c:1004-1040 | The classifier recovers the endpoint type from every generated topic, on the reader and on the writer side. |
| Naming.RequestReplyDuality | src/adapter_c/graph.c:1067-1095 | A reader and a writer on one service topic have opposite roles, and a client's writer topic is its service's reader topic and conversely. |
| Naming.ManglingInjective | src/adapter_c/graph.c:924-945 | Distinct pairs of prefix and ROS name give distinct topics. |
| Naming.ServiceTopicsPassRegistrationChecks | src/adapter_c/graph.c:1167-1206 | The two topics of a service pass the type checks of a service registration, and swapped those of a client registration. |
| RegistryInvariants.AddEndpointKeepsOk | src/adapter_c/graph_impl.c:669-739 | A registration lists at most one endpoint, with a fresh handle and the given entities, leaves the node otherwise alone when it fails, and keeps counters, keys and shapes. |
| RegistryInvariants.RemoveEndpointKeepsOk | src/adapter_c/graph_impl.c:405-430 | Removing an endpoint keeps the exact drift of the writer count, the other counters and the node's identity. |
| RegistryInvariants.AttachKeepsOk | src/adapter_c/graph_impl.c:1220-1257 | An attach step keeps every invariant because the drift grows by exactly one, and gives an endpoint whose writer has the opposite role of its reader. |
| RegistryInvariants.InspectKeepsOk | src/adapter_c/graph_impl.c:1137-1397 | An inspection keeps counters, keys and shapes whether it succeeds or stops half-way. |
| RegistryInvariants.RegisterNodeKeepsOk | src/adapter_c/graph.c:221-332 | A node registration keeps them on all of its exits, so that names and handles stay unique. |
| RegistryInvariants.ApplyKeepsOk | src/adapter_c/graph.c:221-519 | So does every operation of the API and every poll. |
| RegistryInvariants.ReachableOk | src/adapter_c/graph_impl.c:411-422 | In every reachable state nodes_len, endpoints_len and readers_len are the true counts, the endpoints with a writer exceed writers_len by exactly the attach steps ever taken on the node, all keys are unique, and every endpoint has the entities and topic roles of its type. |
| RegistryInvariants.FindNodeByNameMeaning | src/adapter_c/graph_impl.c:479-502 | In such states the lookup by name is the lookup of a map keyed by name and namespace, NULL read as "/". |
| RegistryInvariants.FindNodeMeaning | src/adapter_c/graph_impl.c:504-522 | The lookup by handle is the lookup of a map, so that the re-lookup by handle inside an inspection finds the inspected node. |
| RegistryInvariants.FindEndpointMeaning | src/adapter_c/graph_impl.c:524-546 | The same for endpoint handles within a node. |
| RegistryInvariants.PlainEntitiesAreExclusive | src/adapter_c/graph_impl.c:548-572 | A reader or writer of an rt/ topic is in at most one endpoint of its node. |
| Departures.OneReaderManyServices | src/adapter_c/graph_impl.c:669-701 | Nothing more is exclusive: any number of registrations of services of one node succeed with one and the same request reader. |
| RegistryInvariants.AttachedMeansSameTopic | src/adapter_c/graph_impl.c:1212-1229 | A writer of the wrong role is exactly one on its endpoint's own reader topic: attaching never pairs a request with its reply. |
| RoundTrips.RegisterEndpointMeaning | src/adapter_c/graph.c:371-481 | A registration function returns a handle exactly when it has the entities of its type (a reader for a subscription, a writer for a publisher, both for a client and a service), a buffer, and a listed node none of whose endpoints has them all and whose type their topics have; it then lists one endpoint at the back, with a handle that no other endpoint of the node has and the counters raised by its entities, and queues one update. Otherwise it returns -1 and moves at most a handle counter. |
| RoundTrips.UnregisterByHandleUndoesRegister | src/adapter_c/graph_impl.c:788-829 | Unregistering by the returned handle finds exactly the endpoint registered last and restores the registry, but for the handle counter and two queued updates. |
| RoundTrips.UnregisterUndoesRegister | src/adapter_c/graph_impl.c:742-786 | Unregistering by the entities of the registration does the same. |
| RoundTrips.RegisterNodeMeaning | src/adapter_c/graph.c:221-332 | A node registration returns a handle exactly when a name of 1 to 256 characters is given and a namespace that is absent or has 1 to 256 characters, no listed node has that name in that namespace (absent being /), every allocation succeeds and, with polling, the inspection does; otherwise it returns -1. |
| RoundTrips.RegisteredNodeIsListed | src/adapter_c/graph.c:276-320 | It then lists one node at the back, with an unused handle, the names asked for (/ for an absent namespace), the participant asked for (the graph's own if absent) and no endpoints but, with polling, those that its inspection finds, and queues one update. |
| RoundTrips.UnregisterNodeUndoesRegister | src/adapter_c/graph.c:483-519 | Unregistering that node restores the registry, whatever the inspection had found, but for the handle counter and the token. |
| CallEffects.UnregisterNodeMeaning | src/adapter_c/graph.c:483-519 | Unregistering a node succeeds exactly when the handle is listed; just that node is then off the list, nothing is queued, and the other nodes are as they were. An unknown handle is a bad parameter and changes nothing. |
| CallEffects.UnregisterEndpointMeaning | src/adapter_c/graph_impl.c:742-786 | Unregistering by entities succeeds exactly when the node is listed and has an endpoint with each of the entities given; the first such endpoint is then off the list, the counters are lowered by its entities and one update is queued. Otherwise it is a bad parameter and changes nothing. |
| CallEffects.UnregisterByHandleMeaning | src/adapter_c/graph_impl.c:788-829 | The same by handle: exactly the endpoint with that handle is taken off the list, whatever its type. |
| CallEffects.InspectNodeMeaning | src/adapter_c/graph.c:335-369 | An inspection call succeeds exactly when the node is listed and its inspection runs through, and exactly then queues one update; either way that node keeps what the inspection made of it and no other node changes. |
| CallEffects.PollMeaning | src/adapter_c/graph_impl.c:1093-1108 | A poll makes of every node what its inspection makes of it and queues nothing. |
| CallEffects.QueuesExactlyWhenItShould | src/adapter_c/graph.c:221-519 | Each of the seven operations queues exactly one update or none: a node registration when it gets as far as listing the node, even if it fails afterwards, an endpoint registration, an unregistration of an endpoint and an inspection when they succeed, the removal of a node and a poll never. |
| CallEffects.TopicMatchesMeaning | src/adapter_c/graph_impl.c:574-608 | The lookup by topic tests the reader's topic or, when asked for writers, the writer's and only without a writer the reader's. |
| Inspection.EventsMeaning | src/adapter_c/graph_impl.c:1160-1178 | The scan sees the entities group by group, each group in order; a call that fails is one event of its own, also the call for the groups. |
| Inspection.FailedCallFailsInspection | src/adapter_c/graph_impl.c:1137-1300 | An inspection in which any of the four kinds of DDS calls fails does not succeed. |
| Inspection.InspectionCoversAndIsIdempotent | src/adapter_c/graph_impl.c:1168-1386 | From any state, a successful inspection keeps every earlier endpoint with its handle and type, leaves no ROS-named entity uncovered, and a second one succeeds and changes nothing, even with an empty pool. |
| Departures.SharingNodesGetTheSameEntities | src/adapter_c/graph_impl.c:1093-1108 | After a poll any two nodes of one participant whose inspections succeeded both have an endpoint for every ROS-named entity of it. |
| Departures.SharedParticipantIsListedTwice | src/adapter_c/graph.c:335-369 | A run from an empty registry in which two nodes of one participant are inspected and each ends up with its reader. |
| Inspection.NewWritersMeaning | src/adapter_c/graph_impl.c:1175-1191 | The new writers of a scan are, each once, exactly the ROS-named writers among the events that no endpoint of the node has. |
| Inspection.NewReadersMeaning | src/adapter_c/graph_impl.c:1292-1304 | The new readers of a scan are, each once, exactly the ROS-named readers among the events that no endpoint of the node has. |
| Inspection.InspectionChangesIff | src/adapter_c/graph_impl.c:1137-1397 | Whether or not it succeeds, an inspection changes the endpoints of its node exactly if the first event that is not skipped, a writer if there is one and else a reader, can be attached or registered (with at most INT_MAX - 2 endpoints, so that there is a handle for one more). |
| Inspection.WritersRun | src/adapter_c/graph_impl.c:1187-1271 | While the writer scan runs, the node is known exactly: the old endpoints with the attached writers, then one endpoint per registered new writer; a handle is set exactly if one was registered. |
| Inspection.InspectionIsExact | src/adapter_c/graph_impl.c:1137-1397 | On any consistent node, with handles to spare, inspection succeeds exactly when every DDS call does, every new writer to attach finds its reader's endpoint without a writer and a handle set, no request or reply topic gets a second reader, and the pool has a buffer for each endpoint to register; and then the endpoints are known exactly. |
| Inspection.FreshInspectionIsExact | src/adapter_c/graph_impl.c:1187-1378 | On a node without endpoints, with buffers to spare, it succeeds exactly when no two distinct new readers share a request or reply topic, and then there is one endpoint per distinct ROS-named entity, of its detected type, writers first, in scan order. |
| AttachDrift.InspectionAttachesIff | src/adapter_c/graph_impl.c:1208-1257 | For every consistent node, contents and number of buffers, an inspection attaches exactly when its writer scan reaches a request or reply writer that no endpoint has while the lookup by topic returns an endpoint without a writer. |
| AttachDrift.AttachesAtMeaning | src/adapter_c/graph_impl.c:1187-1271 | With handles to spare, what the scan reaches is itself a condition on the endpoints, the events and the buffers. |
| AttachDrift.AttachIsReachable | src/adapter_c/graph_impl.c:876-909 | Three operations lead from an empty registry to an endpoint with a writer on a node whose writers_len is 0, so that the conversion stores through NULL; unregistering that endpoint makes it an error return. |
| AttachDrift.DriftedMeansBehind | src/adapter_c/graph_impl.c:1220-1257 | A node of a participant has had an attach step exactly if its writers_len is below the number of its endpoints with a writer. |
| AttachDrift.InspectKeepsDrift | src/adapter_c/graph_impl.c:1220-1257 | No inspection takes an attach step back. |
| AttachDrift.RunKeepsDrift | src/adapter_c/graph_impl.c:1220-1257 | Nor does any run of operations that leaves the node registered. |
| AttachDrift.AttachStopsConversion | src/adapter_c/graph_impl.c:876-909 | After one attach step, along every run that does not unregister the node, every conversion for its participant fails, from any buffer, in the way that the participant's first unbalanced node says. |
| Snapshot.EnsureLength | src/adapter_c/graph_impl.c:877-889 | Resizing a sequence keeps the content of the old slots and clears new ones; only a negative length fails. |
| Snapshot.FillGidsWriters | src/adapter_c/graph_impl.c:891-911 | The endpoint loop stays in bounds exactly when the writer sequence has a slot for every endpoint with a writer, and stores their GIDs in order. |
| Snapshot.FillGidsReaders | src/adapter_c/graph_impl.c:891-911 | Reader slot k gets the k-th reader's GID if that endpoint has no writer and otherwise keeps its old content. |
| Snapshot.NodeToSampleMeaning | src/adapter_c/graph_impl.c:839-916 | A consistent node converts exactly when writers_len is the number of its endpoints with a writer, returns an error exactly when it is negative, and stores through NULL exactly when it is between; once converted, its slot has its names, all its writers' GIDs in order and the reader slots just described. |
| Snapshot.VerdictMeaning | src/adapter_c/graph_impl.c:947-964 | The conversion of a list of nodes comes out as the first node says whose writers_len is off, and succeeds exactly when there is none. |
| Snapshot.ConvertMeaning | src/adapter_c/graph_impl.c:918-974 | Conversion refines a filter: its outcome is the verdict on the participant's nodes in list order, and on success it lists exactly those nodes in list order, whatever the buffer held. |
| Snapshot.SingleEntitySampleIsExact | src/adapter_c/graph_impl.c:918-974 | If no endpoint has both entities the sample is a function of the registry alone. |
| Snapshot.ReadersFaithfulIff | src/adapter_c/graph_impl.c:894-909 | Reader GIDs are faithful from every buffer exactly when no endpoint of the node has both a reader and a writer. |
| Departures.ReaderIsNotPublished | src/adapter_c/graph_impl.c:894-909 | A run from an empty registry: a node with one service is registered and published without any failure, and at rest the published GID in the place of the service's reader is all zeros. |
| Snapshot.GatherMeaning | src/adapter_c/graph_impl.c:1399-1466 | The gathered list has exactly the participants of the nodes, without duplicates, in the order of first occurrence. |
| Snapshot.GatherPartitionsNodes | src/adapter_c/graph_impl.c:1435-1466 | Every node belongs to exactly one gathered participant: the per-participant counts add up to the number of nodes. |
| Snapshot.CycleCoversNodesLen | src/adapter_c/graph_impl.c:995-1018 | The sizes of the samples of one update cycle over an unchanged registry add up to nodes_len. |
| GraphObjects.GraphNode.LookupLocalEndpointByHandle | src/adapter_c/graph_impl.c:524-546 | The loop finds the first endpoint with the handle. |
| GraphObjects.GraphNode.LookupLocalEndpointByDdsEndpoints | src/adapter_c/graph_impl.c:548-572 | The loop finds the first endpoint that has every entity given, a missing one matching anything. |
| GraphObjects.GraphNode.LookupLocalEndpointByTopicName | src/adapter_c/graph_impl.c:574-608 | The loop finds the first endpoint on the topic; with the writer flag an endpoint without a writer is still matched by its reader. |
| GraphObjects.GraphNode.NextEndpointHandle | src/adapter_c/graph_impl.c:455-477 | The do-while loop on the wrapping counter is the allocator of `Handles`, and ends. |
| GraphObjects.GraphNode.CheckEntities | src/adapter_c/graph_impl.c:669-701 | The guards accept exactly unused entities whose topics have the endpoint's type. |
| GraphObjects.GraphNode.InsertEndpoint | src/adapter_c/graph_impl.c:710-736 | The buffer is linked at the back of the endpoint list, filled in, and the three counters move with its entities. |
| GraphObjects.Graph.AddEndpointAt | src/adapter_c/graph_impl.c:669-739 | Registration on a node is the model's, with a handle exactly on success; success takes exactly one buffer from the pool, failure none. |
| GraphObjects.GraphNode.FinalizeEndpoint | src/adapter_c/graph_impl.c:405-425 | Unlinking the endpoint at a position keeps the order of the others and lowers the counters by its entities. |
| GraphObjects.Graph.FinalizeEndpoint | src/adapter_c/graph_impl.c:405-430 | The node is the model's afterwards, and exactly that buffer, which has to be out, goes back to the pool. |
| GraphObjects.Graph.FinalizeEndpoints | src/adapter_c/graph_impl.c:374-386 | The teardown loop on an unlinked node reads the successor before it unlinks: every endpoint buffer goes back once, in list order, and no other one does. |
| GraphObjects.Graph.constructor | src/adapter_c/graph_impl.h:85-110 | A new graph has no nodes, no outstanding buffers and no queued update. |
| GraphObjects.Graph.LookupLocalNodeByHandle | src/adapter_c/graph_impl.c:504-522 | The loop finds the first node with the handle. |
| GraphObjects.Graph.LookupLocalNodeByName | src/adapter_c/graph_impl.c:479-502 | The loop finds the first node with the name and namespace, NULL read as "/". |
| GraphObjects.Graph.NextNodeHandle | src/adapter_c/graph_impl.c:433-453 | The do-while loop is the allocator of `Handles`, and changes nothing but the counter. |
| GraphObjects.Graph.QueueUpdate | src/adapter_c/graph_impl.c:1131-1135 | One token more, nothing else. |
| GraphObjects.Graph.RegisterLocalEndpoint | src/adapter_c/graph_impl.c:645-740 | On the objects, registration by node handle has the model's result on every exit, queues nothing, keeps links, counters and keys, and takes one buffer for that node exactly if it succeeds. |
| GraphObjects.Graph.RegisterLocal | src/adapter_c/graph.c:371-481 | The four registration functions reject missing entities and otherwise register and, on success only, queue one update; a failure leaves the pool as it was. |
| GraphObjects.Graph.UnregisterLocalEndpoint | src/adapter_c/graph_impl.c:742-786 | Unregistering by entities removes the first match, returns exactly its buffer and queues one update, or reports a bad parameter and changes nothing. |
| GraphObjects.Graph.UnregisterLocalEndpointByHandle | src/adapter_c/graph_impl.c:788-829 | The same by handle. |
| GraphObjects.Graph.FinalizeNode | src/adapter_c/graph_impl.c:363-403 | The node buffer is unlinked, exactly the endpoint buffers on its list and then its own buffer go back to the pools, and every other node keeps its links and its endpoints. |
| GraphObjects.Graph.UnregisterLocalNode | src/adapter_c/graph.c:483-519 | Exactly that for the node with the handle, with exactly its own buffer and its endpoints' buffers returned, and without queueing an update. |
| GraphObjects.Graph.Finalize | src/adapter_c/graph_impl.c:233-245 | The teardown loop returns exactly the node buffers that were out, in list order, and exactly the endpoint buffers that were out, each once, node by node in list order; both pools end up fully returned. |
| GraphObjects.NothingListedTwice | src/adapter_c/graph_impl.c:714-721 | Where the endpoint buffers that are out are the listed ones, each with its node, no buffer occurs twice on the lists of all nodes together. |
| GraphObjects.Graph.InspectServiceWriter | src/adapter_c/graph_impl.c:1208-1257 | The client and service cases of the writer scan: register, reject, or attach without counting and fail if no handle was set before. |
| GraphObjects.Graph.InspectServiceReader | src/adapter_c/graph_impl.c:1323-1372 | The client and service cases of the reader scan; the attach branch is never reached. |
| GraphObjects.Graph.InspectWriters | src/adapter_c/graph_impl.c:1175-1271 | The nested writer loops are the model's scan of the flattened events, failures included. |
| GraphObjects.Graph.InspectReaders | src/adapter_c/graph_impl.c:1283-1386 | The nested reader loops likewise. |
| GraphObjects.Graph.InspectLocalNodeEA | src/adapter_c/graph_impl.c:1137-1397 | The whole inspection succeeds or fails as the model's, with its changes kept either way, and touches no other node. |
| GraphObjects.Graph.InspectLocalNode | src/adapter_c/graph.c:335-369 | Inspection by handle returns and leaves what the model's does, which queues an update exactly when it succeeds (`CallEffects.InspectNodeMeaning`). |
| GraphObjects.Graph.Poll | src/adapter_c/graph_impl.c:1093-1108 | The polling loop inspects every node once, ignores failures and queues nothing. |
| GraphObjects.PolledAll | src/adapter_c/graph_impl.c:1098-1107 | Node by node this is the poll of the model. |
| GraphObjects.Graph.ListNamedNode | src/adapter_c/graph.c:276-307 | The node is listed before its names are duplicated; a failed duplication leaves a half-filled last node and nothing else. |
| GraphObjects.Graph.DropLastNode | src/adapter_c/graph.c:322-329 | The rollback takes the last node off the list and returns its buffer and its endpoints; the registry and both pools are as before. |
| GraphObjects.PoolOnlyGrewAt | src/adapter_c/graph.c:309-320 | An inspection of one node can have taken endpoint buffers for that node only. |
| GraphObjects.Graph.InspectNewNode | src/adapter_c/graph.c:309-320 | The token is given before the inspection; if that fails the node is gone again, with every buffer it had got, but the token stays. |
| GraphObjects.Graph.RegisterLocalNode | src/adapter_c/graph.c:221-332 | On every exit the result and the graph are the model's; a failed registration leaves the same buffers and nodes listed and both pools as they were, a successful one adds one node buffer at the back. |
| InlineList.LinkedAfterRemoval | src/adapter_c/graph_impl.c:411 | A list whose links skip one buffer is a well-linked list of the others, in both directions. |
| InlineList.AddNodeToBack | src/adapter_c/graph_impl.c:721 | Appending keeps next and prev links consistent. |
| InlineList.RemoveNode | src/adapter_c/graph_impl.c:411 | Unlinking keeps them consistent and keeps the order, whatever it leaves in the removed buffer's links. |
| GraphConversion.NodeToSample | src/adapter_c/graph_impl.c:839-916 | The loop along the endpoint list, with its three overwritten local variables, stores what the model stores. |
| GraphConversion.FillSlots | src/adapter_c/graph_impl.c:947-964 | The loop along the node list fills the next free slot for each node of the participant and stops at the first failure. |
| GraphConversion.ConvertToSample | src/adapter_c/graph_impl.c:918-974 | The whole conversion of a valid graph object into the reused buffer is the model's. |
| GraphConversion.ParticipantSeq.AppendParticipant | src/adapter_c/graph_impl.c:1399-1433 | The inner loop appends a participant exactly when it is not on the list. |
| GraphConversion.GatherDomainParticipants | src/adapter_c/graph_impl.c:1435-1466 | Gathering into the reused sequence is the model's, whatever it held. |
| GraphConversion.CopySample | src/adapter_cpp/graph.cpp:116-155 | The deep copy leaves exactly the visible part of the C sample, whatever the C++ sample held. |
| GraphConversion.ConvertedIsWellFormed | src/adapter_c/graph_impl.c:918-974 | A successful conversion always leaves a sample that can be copied, with the nodes of the participant in order. |
| GraphConversion.CppConvertToSample | src/adapter_cpp/graph.cpp:90-162 | From a valid graph the C++ conversion returns success, returns an error, or does not return because it stores through NULL, exactly as the participant's first unbalanced node says; on success the C++ sample lists exactly its nodes with exact names and writer GIDs, and with exact reader GIDs where no endpoint has both; otherwise it is unchanged. |
| SnapshotSafety.LockInvStep | src/adapter_c/graph_impl.c:976-1021 | Every step of every thread keeps the mutex discipline, and published history never changes. |
| SnapshotSafety.SnapshotInvStep | src/adapter_c/graph_impl.c:997-1015 | Every step keeps: what is in the buffer between conversion and publication is the successful conversion of a settled version, and versions never go back. |
| SnapshotSafety.FailingParticipantStops | src/adapter_c/graph_impl.c:1001-1007 | While a participant's conversion fails, no step of the cycle gets past it. |
| NoLostUpdate.CoverageInvStep | src/adapter_c/graph_impl.c:1083-1124 | Every step keeps: without a token anywhere, every participant with a node is fresh, or the current cycle still has it ahead. |
| NoLostUpdate.PublishedSnapshotsAreConsistentAndMonotone | src/adapter_c/graph_impl.c:997-1015 | In every run every published sample is the successful conversion of one registry version at which no API call was part-way through, and the versions never go backwards. |
| NoLostUpdate.NothingQueuedIsLost | src/adapter_c/graph_impl.c:1083-1124 | In every run, with polling and failures, at rest and unless the last update was given up on, every participant with a node was sent a snapshot at least as new as the last call that queued an update. |
| NoLostUpdate.NoUpdateIsLost | src/adapter_c/graph.c:309-331 | In every run, with polling, failures and changes that are not queued, at rest and unless the last update was given up on, the last published sample of a participant with a node is a successful conversion of the current registry, if what was changed since the last queueing call does not show in its conversion. |
| NoLostUpdate.QueueingCallsLoseNothing | src/adapter_c/graph.c:309-331 | In particular so in every interleaving of calls that queue all their changes with the update thread, when nothing fails. |
| NoLostUpdate.FailingParticipantIsNotPublished | src/adapter_c/graph_impl.c:997-1015 | In every run, while a participant's conversion fails nothing is published for it, nor for anyone after it on the gathered list. |
| NoLostUpdate.OnlyTheSampleInHandIsPublished | src/adapter_c/graph_impl.c:997-1015 | In every run and from any state on, even in the middle of a cycle, while a participant's conversion fails at most one sample is published for it: the one that the thread had converted before, if any. |
| Shutdown.ShutdownInvStep | src/adapter_c/graph_impl.c:226-232 | Every step keeps the handshake: after the post a waiting thread always finds a token, and the exit is signalled once. |
| Shutdown.HandshakeIsSafe | src/adapter_c/graph_impl.c:226-232 | In every interleaving, after finalize has posted the thread is never blocked on an empty semaphore, and after it has signalled it holds no mutex and takes no further step. |
| Shutdown.RankFalls | src/adapter_c/graph_impl.c:1083-1126 | After the post every step of the thread lowers an explicit rank. |
| Shutdown.ThreadIsNotBlocked | src/adapter_c/graph_impl.c:1083-1126 | With no API call in progress the thread has a step to take until it has exited. |
| Shutdown.ThreadExitsWithinRank | src/adapter_c/graph_impl.c:1083-1126 | From the post on, every run gives the thread at most rank many steps, and after that many it has exited, whatever it was doing. |
| Shutdown.FinalizeGetsThrough | src/adapter_c/graph_impl.c:226-231 | In every run, once finalize has posted and the thread has signalled its exit, finalize is not blocked on its last take: it goes past it and leaves no signal behind. |
| Shutdown.FinalizeCompletes | src/adapter_c/graph_impl.c:219-232 | From every state of every run in which finalize has not been called, whatever the thread is doing and whether or not an API call holds the mutex, there is a path on which a call in progress ends, finalize clears the flag and posts, the thread exits by its own steps, and finalize goes on to the teardown. |
| UpdateCycle.ThreadMovesIff | src/adapter_c/graph_impl.c:1083-1126 | In every run the thread is blocked exactly on the semaphore without a token and without polling, on a mutex that is held, and after its exit. |
| UpdateCycle.OutcomesIff | src/adapter_c/graph_impl.c:976-1021 | In every run a gathering, a conversion and a publication can fail and nothing else can; the first and the last can always succeed, and a conversion exactly when it is one that does. |
| UpdateCycle.FailureMayLeaveAnything | src/adapter_c/graph_impl.c:918-974 | In every run whatever fails in a cycle may leave any content in the reused buffer. |
| UpdateCycle.TokensAreAccountedFor | src/adapter_c/graph_impl.c:1083-1126 | In every run what is on the semaphore is what was posted and not taken; no cycle starts without a token of its own, and a cycle starts only when every token that was ever posted has been taken. |
| UpdateCycle.GivenUpPublishesNothing | src/adapter_c/graph_impl.c:976-1021 | In every run, after a gathering, a conversion or a publication that failed, nothing is published for anyone until the thread takes another token. |
| UpdateCycle.LastIsLatest | src/adapter_c/graph_impl.c:997-1015 | In every run what was last published for a participant is its latest entry in the log of everything published, and exactly the participants in the log have one. |
| UpdateCycle.BufferIsReused | src/adapter_c/graph_impl.c:1001-1015 | In every run, as long as nothing fails, each sample is converted into the buffer as the sample published before it left it, for whatever participant that was. |
| PublishedRegistry.UnqueuedOperationsPublishTheSame | src/adapter_c/graph.c:221-519 | An operation that queued nothing changed nothing that is published, unless it unregisters a node, inspects, or polls. |
| PublishedRegistry.UnqueuedOperationsAddNoParticipant | src/adapter_c/graph_impl.c:1095-1111 | Those exceptions give no participant its first node. |
| PublishedRegistry.FailedRegistrationRollsBack | src/adapter_c/graph.c:320-331 | A failed node registration leaves every node, every counter and everything published as before; only the next handle and one token can have moved. |
| PublishedRegistry.OperationRunTracks | src/adapter_c/graph.c:221-519 | In every run that carries out operations from an empty registry, the system's registry outside critical sections is the one they have built, which is consistent. |
| PublishedRegistry.OperationRunBuilds | src/adapter_c/graph.c:221-519 | That registry is the one that the completed operations build in sequence. |
| UpToDate.AtRestTheRegistryIsPublished | src/adapter_c/graph_impl.c:976-1021 | In every run of operations of any kind from an empty registry, in any interleaving with the update thread, with polls and with cycles that were given up: at rest and unless the last cycle was given up, the last sample of a participant shows exactly its nodes, in order, with exact names and writer GIDs, and exact reader GIDs where no endpoint has both entities, if every operation since some queueing one left that participant's listing alone or queued as well. |
| UpToDate.SilentOperationsPublishNothing | src/adapter_c/graph_impl.c:1083-1126 | From one rest to the next, operations that queue nothing, polls included, leave everything that was published as it was. |
| UpToDate.SilentOperationsUpToDateIff | src/adapter_c/graph.c:483-519 | In every run, from an up-to-date rest, any operations that queue nothing leave a participant up to date at the next rest exactly if they leave its listing as it was. |
| UpToDate.OperationLeavesUpToDateIff | src/adapter_c/graph.c:221-519 | In every run, any one operation carried out between an up-to-date rest and the next leaves a participant with nodes up to date exactly if it queues an update or leaves that participant's listing alone. |
| UpToDate.RemovalLeavesListingIff | src/adapter_c/graph.c:483-519 | Unregistering a node leaves a participant's listing alone exactly if there is no such node or it is another participant's. |
| UpToDate.InspectionLeavesListingIff | src/adapter_c/graph.c:335-369 | An inspection, in particular one that fails, leaves it alone exactly if the node is another participant's or ends up with the endpoints that it had. |
| UpToDate.PollLeavesListingIff | src/adapter_c/graph_impl.c:1093-1108 | A poll leaves it alone exactly if none of the participant's nodes ends up with other endpoints. |
| UpToDate.SuccessChangesIffNew | src/adapter_c/graph_impl.c:1168-1386 | A successful inspection changes endpoints exactly if it meets a ROS-named entity that no endpoint of the node has. |
| PublishedRegistry.AttachedParticipantIsNotPublished | src/adapter_c/graph_impl.c:997-1015 | In every run, from an attach step on a node of a participant until that node is unregistered, at most one sample is published for that participant, the one that the thread had already converted, if any; and from any point at which the current cycle has not got past the participant, nothing is published for those behind it on a gathered list. |
| OperationPaths.EveryOperationIsRealised | src/adapter_c/graph.c:221-519 | From every state with the mutex free (for a poll, with the thread about to take it) the system has a path that carries out any given operation, with exactly its effect on the registry and the semaphore. |
| OperationPaths.EveryRunIsRealised | src/adapter_c/graph.c:221-519 | So every run of API operations can be carried out. |
| OperationPaths.SilentOperationLeavesBehindIff | src/adapter_c/graph.c:483-519 | From every rest of the system every operation that queues nothing has a path to a rest with everything published as it was; a participant that was up to date is so there exactly if its listing is as it was. |
| Departures.StaleSampleIsReachable | src/adapter_c/graph.c:483-519 | Two nodes of a participant are registered and published, one is unregistered: at rest the participant still has a node, its last sample still shows two, and the thread is blocked. |
| NameBuffers.StemMeaning | src/adapter_c/graph.c:947-963 | The backward scan accepts exactly the names P::N without a colon in N, and finds the unique such P. |
| NameBuffers.TypeSizeMeaning | src/adapter_c/graph.c:923-925 | The reported size is that of P::dds_::N and suffix with terminator, while exactly the length of N and three bytes fewer are written. |
| NameBuffers.TypeNameIsNeverTheIntendedOne | src/adapter_c/graph.c:965-972 | Whatever the buffer held, the type name read back is never the one whose size was reported. |
| NameBuffers.WriteTopic | src/adapter_c/graph.c:935-938 | Two copies leave the terminated prefix and name, and the rest of the buffer as it was. |
| NameBuffers.WriteType | src/adapter_c/graph.c:965-972 | Four copies leave P, dds_, ::, suffix, and the rest of the buffer as it was. |
| NameBuffers.HonestCapacityFits | src/adapter_c/graph.c:941-973 | The capacity test keeps every type write inside a buffer whose capacity is stated honestly, however short the buffer is and whatever the type name; for P::N a capacity overstated by up to the length of N and three bytes is still safe. |
| NameBuffers.FindStem | src/adapter_c/graph.c:947-963 | The pointer loop finds the stem of the specification, or rejects. |
| NameBuffers.OutcomeMeaning | src/adapter_c/graph.c:917-980 | Exactly when each return code comes and what the two in/out lengths are then: out of resources when a given buffer has no room for its name and terminator, else a bad parameter when a type is to be written that is not P::N, else success with the sizes of both names. |
| NameBuffers.MakeDdsTopicAndTypeNames | src/adapter_c/graph.c:891-981 | Return code, both in/out lengths and both buffers on every exit: a short buffer is rejected untouched, the topic is written before the type is checked; on success the topic buffer starts with prefix, name and terminator and the type buffer with P, dds_::, suffix. |
| NameBuffers.ComputeDdsWriterTopicNames | src/adapter_c/graph.c:983-1044 | Missing or empty names and unknown types are rejected with nothing written; otherwise the topic starts with rt/ (topics), rq/ (client) or rr/ (service), the type ends in dds_::_, dds_::_Request_ or dds_::_Response_, and the lengths are those of the designed names. |
| NameBuffers.ComputeDdsReaderTopicNames | src/adapter_c/graph.c:1046-1107 | The same with client and service exchanged and without the checks, which are commented out. |
| NameBuffers.CppComputeTopicNames | src/adapter_cpp/graph.cpp:280-390 | Query then fill succeeds exactly for a non-empty topic and a type P::N: the queried sizes always suffice, the topic comes back exact, the type never is the intended one. |
| NameBuffers.ConcatServiceTopic | src/adapter_c/graph.c:1167-1180 | The three copies give node, slash and service, terminated, inside the allocation. |
| NameBuffers.ComputeServiceTopicNames | src/adapter_c/graph.c:1147-1215 | rq/ and _Request_ names from the reader side and rr/ and _Response_ names from the writer side, of node, slash and service; either failure is an error; all four buffers and lengths on success, also if the two type buffers are one. |
| NameBuffers.FillServiceNames | src/adapter_cpp/graph.cpp:454-484 | With the request's type buffer passed twice all writes still stay inside it, the reply's type buffer is never written and what is returned as the reply type is what it held before, and the request type is overwritten by the reply type and is never the intended one. |
| NameBuffers.CppComputeServiceTopicNames | src/adapter_cpp/graph.cpp:392-484 | Query then fill succeeds exactly for the type names P::N; the topics are exact and pass a service's checks; the request type starts as the reply type does and is never the intended one. |

## Left out

- GraphObjects.Graph.Finalize: the pools are accounts of the buffers that are out, not objects with a capacity; whether a buffer is available is a parameter.
- GraphObjects.Graph: the mutex is not part of the class; every method is one critical section, and the interleavings are in `UpdateProtocol.dfy`.
- GraphObjects.GraphNode: a name that is not set yet (NULL) is the empty string, which no listed node can have; `endp_data` and `ninfo` are never set by the code and are left out.
- RegistryInvariants.ReachableOk: size_t counters are unbounded integers; where the source would wrap, `writersLen` is negative, and the conversion to a signed length makes the same call fail.
- GraphConversion: failures of string duplication and sequence allocation inside a conversion, and a C++ exception in the deep copy; in the transition system any conversion may fail.
- UpdateProtocol.GiveUpStep: a conversion that stores through NULL is taken as one that fails; in the source the whole process does not go on.
- PublishedRegistry.IsOperationRun: between taking and giving back the mutex a call may pass through any registry values that its kind of call allows; what it leaves is fixed by its operation.
- NameBuffers.CppComputeTopicNames: failing allocations, after which the source tests the wrong pointer; a type buffer without a terminator is read to its end.
- UpdateProtocol: the active flag is read and written atomically; a timed wait is a choice between a token and a timeout when there is no token.
- Shutdown.ThreadExitsWithinRank: demands that no API call is made during finalize, as the source does of its callers, and that DDS calls return.
- DDS entity creation and deletion, QoS customization, type registration and the getters (`src/adapter_c/graph.c:37-133`, `src/adapter_c/graph_impl.c:23-218`, `src/adapter_c/graph.c:642-889`): foreign calls or single branches.
- The rest of the C++ `Graph` class: forwards that turn return codes into exceptions.
- The eight unregistration functions of `src/adapter_c/graph.c:521-640`: NULL checks before the two functions that are modelled.
- Uniqueness of DDS entities across nodes: the code checks them per node only.
- REDA lists and pools, semaphores and DDS sequences are libraries outside the repository; `InlineList.dfy`, `UpdateProtocol.dfy` and `Snapshot.EnsureLength` state what is assumed of them.
