# claw-zep in Dafny

claw-zep keeps a knowledge graph and a memory tree for agents. This project models the parts of
it that keep state over unbounded runs, and proves what those runs guarantee:

- **The bitemporal version store** (`core/temporal/engine.py`). A table is a sequence of rows; each
  logical key has a chain of versions `[valid_from, valid_until)`. Modules `Temporal` (the engine as
  a class over its table), `TemporalRuns` (what every sequential run keeps), `AsOfLookup` (the as-of
  lookup refines a plain write log), `TimeOrder` (when the store is a function of time),
  `Interleaving` (writers, repairs and expiries whose reads and writes interleave), `SnapshotDiff`
  (the diff of two snapshots as a patch) and `VersionColumns` (each call column by column).
- **Ingest** (`core/services/graphiti_orchestrator.py`, `core/services/bulk_ingest.py`). Modules
  `Ingest` (what one write does to the mirror tables, the AGE graph and the vector index, and when
  they agree), `Orchestrator` (the loops, as a class over all the stores), `BulkIngest` (requests
  of many records, and the same records again), `IngestColumns` and `BulkRows` (what the rows, nodes,
  edges and documents say, column by column).
- **Path search** (`core/adapters/graph_repo.py`). Module `PathSearch`: the queue-driven loop equals
  a level-by-level enumeration of simple paths, and that enumeration is exact; `PathOrder`: the order
  of paths and neighbors; `PathSchema`: the nodes and edges an answer shows for a path.
- **The memory tree** (`core/memory_tree/service.py`, `openclaw_plugin/router.py`). Modules
  `MemoryForest` (the table as a forest), `MemoryTree` (the service), `TreeRuns` (invariants over
  runs), `TreeFailures` (runs at which their conditions fail), `TreeAssembly` (the nested dicts of
  `get_tree`, on a heap of shared objects), `TreeResult` (those dicts in terms of the table),
  `TreeColumns` (each call column by column) and `Documents` (the tree as a document store).
- **Scores** (`core/services/retrieval.py`, the vector adapters). Modules `Scores` (expansion),
  `Recall` and `RecallColumns` (the in-memory collections and what recall makes of their hits) and
  `Similarity`, over mathematical reals.

Conventions. Times are integers and ids strings. The wall clock, fresh uuids and square roots are
parameters. Where a query leaves a choice to the database (`ORDER BY version DESC LIMIT 1` among
equal versions), the model has a relation, so each theorem holds for every choice. A raised error
rolls the transaction back (`core/database.py:50-59`): both tables are as before.

## What the code does not promise

Where the code does less than its documentation says, the code is modelled and the exact
condition is proved.

- `supersede` never compares its time with the stored ones. The documentation promises snapshots
  and lookups at any instant (`core/temporal/engine.py:14-19`). A key has at most one row at each
  instant exactly when no write comes before the end of a closed, non-empty row of the key
  (`TimeOrder.SupersedeDisjointIff`, `TimeOrder.RunDisjointIff`); writes at 1, 10 and 5 break it
  (`TimeOrder.BackdatedWriteOverlaps`). The as-of lookup of a single key does not need the
  condition (`AsOfLookup.AsOfIsLastWrite`).
- A snapshot diff keeps one row per key, and its queries have no order. Where a key has two rows in
  force, comparing a time with itself may report a change, and swapping the times need not swap the
  report; both hold exactly when no key has two rows in force at the times asked for
  (`SnapshotDiff.DiffOfSameIff`, `SnapshotDiff.SwappedDiffIff`; `SnapshotDiff.SelfDiffReports` is a
  run).
- `supersede` closes one open row only, so it leaves an existing conflict as it is
  (`Temporal.SupersedeOpenCount`).
- `resolve_conflict_keep_latest` keeps the latest row, and two at once may keep different ones: each
  then closes the row that the other keeps, and none stays open (`Interleaving.TwoRepairsLose`). A row
  of the greatest version survives two overlapping repairs exactly when the later one to select does
  not keep a row that the other closes (`Interleaving.CrossingIff`), and for a key that is never
  expired that can only fail where two rows tie in version and start
  (`Interleaving.UntiedNoCrossing`).
- `_reparent` rejects only the node itself as a parent. The table stays acyclic exactly when the
  new parent is not at or under the node (`MemoryForest.AttachedAcyclicIff`;
  `TreeFailures.MoveUnderChildMakesCycle` is a run that makes a cycle), and depths and paths
  stay right exactly when the node has no children or keeps its depth and path
  (`MemoryForest.AttachedConsistentIff`, `TreeFailures.MoveLeavesChildBehind`).
- A cascade ends exactly when the node lies on no cycle of links that `list_nodes` follows; a cycle
  elsewhere in the table does no harm (`MemoryForest.CascadeEndsIff`). On such a cycle the
  interpreter's recursion limit raises, and the transaction is rolled back.
- A root should have depth 0 (`models/memory_tree.py:71`). A child that survives its parent's deletion
  becomes a root with its old depth and path (`MemoryForest.PrunedRootedIff`,
  `TreeFailures.SurvivorIsNoProperRoot`). Over a run, every depth and path describe the whole chain
  of ancestors throughout exactly when every move is of a childless node or keeps its depth and
  path, and no delete leaves a row that named a removed row as its parent
  (`TreeRuns.RunConsistentIff`, `TreeRuns.RunPlacedIff`).
- The path column's comment shows `/root_id/child_id` (`models/memory_tree.py:72-74`). A root's path is
  `/` and its id, and every other path ends in the parent's id, so a child of root r has the path
  `/r/r`. The model follows the code; `MemoryForest.PathsAreTrails` says what a path is in terms of
  the ancestors.
- `rollback` of a memory-tree node ignores a stored NULL content (`TreeRuns.RollbackRestoresIff`,
  `TreeFailures.RollbackKeepsContent`).
- The AGE adapter calls consistency with the mirror free (`core/adapters/age_adapter.py:12-13`).
  A relation whose endpoint is not a graph node is written to the mirror and silently not to the
  graph (`Ingest.RelationKeepsMirrored`, `Ingest.UnknownEndpointsDisagree`). Deleting an entity
  closes its rows and touches neither the graph nor the vector index, so its node and its document
  stay, exactly when there was an open row to delete (`Ingest.ExpiryKeepsBackedIff`,
  `Ingest.RunMirroredIff`; `Ingest.DeleteLeavesNode` is a run).
- A relation's key `source|type|target` determines the triple exactly when no endpoint continues
  another one past a separator, on the right or on the left, whatever the types
  (`Ingest.RelKeyInjectiveIff`). Endpoints
  without a separator, such as uuids, are a special case (`Ingest.PlainEndpointsSafe`); a
  separator alone does no harm, and `Ingest.RelKeyCollision` shows two triples with one key. A
  write whose key clashes with another open triple leaves that triple's edge in the graph without
  an open row (`Ingest.RelationKeepsBackedIff`, `Ingest.ClashStrandsEdge`).
- Entity recall reads the metadata field `kuzu_uuid`. A pgvector hit never has it, and the
  in-memory Chroma filter compares a string with a list. With either of them the entity search
  finds nothing, whatever is stored (`Recall.PgSearchFindsNothing`,
  `Recall.ChromaSearchFindsNothing`).
- The document store holds the last put in one row, over a whole run, exactly when each call other
  than a put fails or is not about a row with the document's `topic_id` (`Documents.RunHoldsIff`).
  After one other call the lookup still answers with the last put in that case, and where a first
  put is repeated word for word in a second row, and in no other (`Documents.AnswersKeptIff`). The
  topic tree uses the `topic_id`: it gives a topic node the
  `topic_id` of a source node without entities (`core/memory_tree/builder.py:90-112`), and the document
  lookup does not look at the layer, so the topic's text may be the answer
  (`Documents.TopicNodeMayAnswer`).

## Model

| member | source | states |
|---|---|---|
| Temporal.VersionTable.constructor | core/temporal/engine.py:40-41 | a store starts without rows |
| Temporal.VersionTable.GetCurrent | core/temporal/engine.py:204-224 | the result is an open row of the key that no open row of the key exceeds in version, and None exactly when no row of the key is open |
| Temporal.VersionTable.Expire | core/temporal/engine.py:67-77 | only the given row changes, only in its end, and only when it was open |
| Temporal.VersionTable.ExpireLogical | core/temporal/engine.py:79-100 | every open row of the key, and nothing else, is closed at the given time; the count is the number of rows closed |
| Temporal.VersionTable.Supersede | core/temporal/engine.py:103-138 | for some current row (or none), that row is closed at ts and one open row with version max+1 is appended; nothing else changes |
| Temporal.VersionTable.CloseOpenRows | core/temporal/engine.py:96-100 | the in-place loop closes exactly the open rows of the key other than the kept one, and counts them |
| Temporal.VersionTable.ResolveConflictKeepLatest | core/temporal/engine.py:174-202 | all open rows of the key but one greatest by (version, valid_from) are closed, and the result is how many |
| Temporal.VersionTable.RollbackToVersion | core/temporal/engine.py:266-296 | fails exactly when the version is missing, changing nothing; otherwise supersedes with the business fields of a row of that version and source "rollback" |
| Temporal.MaxVersionIsMax | core/temporal/engine.py:140-155 | the maximum is attained and bounds every version of the key, and is None exactly when the key has no row |
| Temporal.AtMostOneOpen | core/temporal/engine.py:157-172 | a conflict is two different open rows of the key: the count of open rows exceeds one exactly then |
| Temporal.SupersedeOpenCount | core/temporal/engine.py:103-138 | one atomic write turns k open rows of the key into max(k, 1), so it never repairs a conflict |
| Temporal.ResolveKeepsLatest | core/temporal/engine.py:174-202 | from any store the repair leaves exactly one open row of the key if there was any, unchanged, and of maximal (version, valid_from) among the open ones |
| Temporal.ResolveIdempotent | core/temporal/engine.py:174-202 | repairing again, at any time, changes nothing |
| Temporal.ResolveOneOpen | core/temporal/engine.py:191-192 | where at most one row of the key is open the repair changes nothing |
| VersionColumns.SupersedeColumns | core/temporal/engine.py:103-138 | a write appends one open row with the given key, columns, start and source and the version after the greatest of the key, closes at that time one open row of the key that no open row of it exceeds in version, and leaves every other row as it is |
| VersionColumns.ClosedColumns | core/temporal/engine.py:79-100 | an expiry of a key closes its open rows at the given time and leaves every other row and column as it is |
| VersionColumns.ResolvedColumns | core/temporal/engine.py:174-202 | the repair keeps an open row that no other open row of the key exceeds in version, or in start at the same version, and closes the others |
| VersionColumns.AsOfColumns | core/adapters/graph_repo.py:47-56 | the lookup finds a row of the project and key with valid_from <= t < valid_until that no such row exceeds in version, and none exactly when there is none |
| VersionColumns.AsOfAnswersLastWrite | core/adapters/graph_repo.py:47-56 | after any run that does not expire the key the lookup finds nothing exactly where no call wrote the key by t, and otherwise a row with the time of the last such call, and with its columns and source if it was a `supersede` |
| VersionColumns.SnapshotColumns | core/temporal/engine.py:247-261 | a snapshot has each row of the project with valid_from <= t < valid_until as often as the table, and no other |
| VersionColumns.Perform | core/temporal/engine.py:67-296 | the outcome of each call of the engine is the step of a run that stands for it |
| VersionColumns.ExpiredRowColumns | core/temporal/engine.py:67-77 | the expiry of a row closes that row, if it is open, and nothing else, in runs and in schedules |
| TemporalRuns.StepExtends | core/temporal/engine.py:67-138 | no call removes a row, changes anything in it but its end, or touches another key or project |
| TemporalRuns.RunExtends | core/temporal/engine.py:14-19 | over any run, history is only extended |
| TemporalRuns.SupersedeEffect | core/temporal/engine.py:103-138 | on a well-formed table a write closes exactly the key's open row and appends version n+1, open |
| TemporalRuns.StepKeepsWellFormed | core/temporal/engine.py:67-296 | each of the five calls keeps the invariant: versions count 1, 2, 3, ... per key and only the last row of a key may be open |
| TemporalRuns.ReachableWellFormed | core/temporal/engine.py:40-296 | every table reachable by any sequence of calls, with any times, satisfies the invariant |
| TemporalRuns.VersionsExact | core/temporal/engine.py:14-19 | in such a table a key with n rows has exactly the versions 1..n, increasing in order of writing, and an open row is version n |
| TemporalRuns.ReachableOneOpen | core/temporal/engine.py:157-172 | no sequential run ever produces a conflict |
| TemporalRuns.RollbackWrites | core/temporal/engine.py:266-296 | a rollback changes no row except the end of the open one, and adds version n+1 with the target's business fields and source "rollback" |
| TemporalRuns.RollbackReversible | core/temporal/engine.py:266-296 | rolling back to v and then to n restores the business fields version n had |
| AsOfLookup.LastWriteMeaning | core/temporal/engine.py:103-138 | the reference lookup on the calls is the last one that writes the key with a time not after t |
| AsOfLookup.WriteKeepsChain | core/temporal/engine.py:120-132 | each write keeps the chain: a row ends where the next row of its key begins, in order of writing |
| AsOfLookup.LastStartedIsActive | core/temporal/engine.py:44-51 | in a chain a row that starts by t is in force at t unless a later row of its key starts by t too |
| AsOfLookup.AsOfIsLastWrite | core/adapters/graph_repo.py:47-56 | after any run that does not expire the key, in any time order and whatever the calls on other keys, the highest-version row in force at t is the row of the last call that wrote the key with a time not after t, and there is none exactly when there is no such call |
| TimeOrder.SupersedeDisjointIff | core/temporal/engine.py:120-126 | a write keeps the key's rows disjoint in time if and only if no closed, non-empty row of the key ends after its time |
| TimeOrder.ClosingKeepsDisjoint | core/temporal/engine.py:67-100 | closing open rows, at any time, never makes two rows overlap |
| TimeOrder.RunDisjointIff | core/temporal/engine.py:103-138 | over a whole run of calls, a key is single-valued at every instant throughout if and only if each call that added a version of it met that guard |
| TimeOrder.OrderedRunDisjoint | core/temporal/engine.py:44-64 | when the calls on each key come in time order, at most one row of a key is in force at any instant |
| TimeOrder.BackdatedWriteOverlaps | core/temporal/engine.py:120-126 | three writes at 1, 10 and 5 leave two rows of one key in force at one instant |
| TimeOrder.OrderedLogExactlyOne | core/temporal/engine.py:247-261 | in a time-ordered run that does not expire the key exactly one of its rows is in force at each instant from its first write on |
| TimeOrder.CountIsLiveKeys | core/services/graphiti_orchestrator.py:305-317 | the stored count is at least the number of distinct live keys, with equality exactly when no key has two rows in force |
| TimeOrder.OrderedRunCounts | core/services/graphiti_orchestrator.py:305-317 | after a time-ordered run the stored count is the number of distinct live keys |
| Interleaving.NothingIsLost | core/temporal/engine.py:67-202 | under every interleaving no row is removed and nothing but an end changes |
| Interleaving.WriteTopIsOpen | core/temporal/engine.py:122-133 | a write from stale reads never closes the last row of the key's greatest version that is open and stays so |
| Interleaving.ScheduleSafe | core/temporal/engine.py:67-202 | under every interleaving of reads, writes, selects and assignments of repairs and key expiries, and row expiries a key's versions are 1..n without a gap (possibly repeated), pending reads are never ahead of the store, and what is about to be closed are rows of its key, none above the one kept |
| Interleaving.ScheduleTopOpen | core/temporal/engine.py:67-202 | under every interleaving that expires neither the key nor a row of it, and in which no repair of the key keeps a row that another is about to close, some row of its greatest version is open throughout and about to be closed by nobody |
| Interleaving.CrossingIff | core/temporal/engine.py:174-202 | of two overlapping repairs of one key with an open row of its greatest version, their assignments in either order, such a row stays open if and only if the later one to select does not keep a row that the other closes |
| Interleaving.TwoRepairsLose | core/temporal/engine.py:190-202 | a run from the empty store in which two repairs of two tied rows leave none open |
| Interleaving.UntiedNoCrossing | core/temporal/engine.py:193-202 | under every interleaving that does not expire the key, no repair of it keeps a row that another is about to close unless two rows of the key have the same version and start |
| Interleaving.UninterruptedIsRepair | core/temporal/engine.py:174-202 | a select with its own assignments right behind it is the atomic repair |
| Interleaving.UninterruptedIsExpiry | core/temporal/engine.py:79-100 | and so it is with the expiry of a key |
| Interleaving.RepairRestoresIff | core/temporal/engine.py:174-202 | an uninterrupted repair in any interleaving leaves a key with exactly one open row, of its greatest version, if and only if a row of that version was open before |
| Interleaving.RepairRestores | core/temporal/engine.py:174-202 | so it restores every key that has a row, was never expired, and whose earlier repairs did not cross |
| Interleaving.UninterruptedIsSupersede | core/temporal/engine.py:103-138 | two reads with their own write right behind them are the atomic write |
| Interleaving.TwoWritersConflict | core/temporal/engine.py:122-133 | two writers that both read first leave two open rows of the same version, whatever their times |
| SnapshotDiff.Report.Append | api/routers/temporal.py:80-94 | the counters stay the numbers of items of each type |
| SnapshotDiff.Report.DiffModel | api/routers/temporal.py:74-94 | the items appended are, for each key, exactly the added, removed or modified item its two dict entries call for, each key at most once; earlier items stay; the counters match |
| SnapshotDiff.DiffItems | api/routers/temporal.py:28-104 | each item shows, column by column, the last row of its key in the lists that have one; it is an addition, a removal, or a modification where the last rows differ in version; no key has two items, and a key has one exactly when one list lacks it or the versions differ |
| SnapshotDiff.SnapshotDiff | api/routers/temporal.py:65-104 | the response is the entity diff followed by the relation diff, each only when asked for, with counters over both |
| SnapshotDiff.ToDict | api/routers/temporal.py:76-79 | the dict comprehension, later rows of a key replacing earlier ones, with its keys listed once each |
| SnapshotDiff.DiffIsPatchIff | api/routers/temporal.py:80-94 | applying the items to the first dict's views gives the second's if and only if keys in both with equal versions look the same |
| SnapshotDiff.TableDiffIsPatch | api/routers/temporal.py:74-94 | on every well-formed table, for any two times and in whatever order the queries return their rows, the diff patches the dict of the first snapshot to that of the second |
| SnapshotDiff.DictIsSnapshotIff | api/routers/temporal.py:76-79 | the dict has an entry for every row of the snapshot if and only if no key has two rows in force at that time |
| SnapshotDiff.DiffOfSameIff | api/routers/temporal.py:74-94 | on a well-formed table, however the two queries order their rows, the diff of a time with itself is empty if and only if no key has two rows in force at that time |
| SnapshotDiff.SelfDiffReports | api/routers/temporal.py:74-94 | after three writes in the wrong order a diff of time 7 with itself reports a change |
| SnapshotDiff.SwappedDiff | api/routers/temporal.py:74-94 | a second request with the times swapped, with queries of its own, swaps added with removed item by item, and the counters with them, when no key has two rows in force at either time |
| SnapshotDiff.SwappedDiffIff | api/routers/temporal.py:74-94 | the items are swapped in every such pair of requests if and only if that condition holds |
| SnapshotDiff.DiffCounts | api/routers/temporal.py:80-94 | the counters are the numbers of keys only in the second dict, only in the first, and in both with different versions |
| Ingest.EntityKeepsIdentityIff | core/services/graphiti_orchestrator.py:97-115 | writing an entity keeps one key per (project, name, type) and conversely if and only if that identity has a row already or the drawn uuid is no row's key |
| Ingest.EntityKeepsMirrored | core/services/graphiti_orchestrator.py:210-253 | whatever the indexes hold before, an entity write keeps the mirror well-formed and identities stable; each agreement that held still holds: open rows equal to nodes and to documents, no node and no document left over, edges between nodes, edges equal to open rows and none left over |
| IngestColumns.EntityColumns | core/services/graphiti_orchestrator.py:210-253 | an entity round stores the row with each of its columns, the document `entity:key` with the name and the summary (the name again where that is missing or empty), and the node, and changes no other document, node, relation or edge |
| IngestColumns.DocumentText | core/adapters/pgvector_adapter.py:101-112 | the indexed text is the name, ". ", and the summary, or the name where that is missing or empty |
| IngestColumns.EntityKey | core/services/graphiti_orchestrator.py:97-115 | the key is the drawn uuid where no row has the project, name and type, and otherwise that of such a row |
| IngestColumns.RelationColumns | core/services/graphiti_orchestrator.py:265-301 | a relation round stores the row with each of its columns and, exactly where both endpoints are nodes, the edge with fact, confidence (0.5 by default) and start |
| IngestColumns.MappedColumns | core/services/graphiti_orchestrator.py:265-291 | an endpoint in the map is replaced, and one that is not stays as it is |
| Ingest.RelationKeepsMirrored | core/services/graphiti_orchestrator.py:265-301 | so does a relation write for all but the edges, and it keeps open relation rows equal to the graph's edges if and only if both endpoints are nodes |
| Ingest.ExpiryKeepsSound | api/routers/graph.py:123-141 | deleting an entity keeps the mirror well-formed and identities stable, and open rows still equal their nodes, documents and edges |
| Ingest.ExpiryKeepsBackedIff | api/routers/graph.py:123-141 | it leaves no node, and likewise no document, without an open row if and only if the entity had no open row |
| Ingest.DeleteLeavesNode | api/routers/graph.py:123-141 | a run of one write and its delete that leaves a node and a document without an open row |
| Ingest.RelationKeepsBackedIff | core/adapters/age_adapter.py:134-147 | a relation write leaves every graph edge with an open mirror row if and only if no other open triple has its key |
| Ingest.RelKeyInjectiveIff | core/services/graphiti_orchestrator.py:269-270 | over a set of endpoints the key determines source, type and target if and only if no endpoint followed by a separator begins another and none preceded by one ends another |
| Ingest.PlainEndpointsSafe | core/services/graphiti_orchestrator.py:269-270 | endpoints without a separator meet that condition |
| Ingest.RelKeyCollision | core/services/graphiti_orchestrator.py:269-270 | two different triples with one key, and an endpoint with a separator that is safe on its own |
| Ingest.UnknownEndpointsDisagree | core/services/graphiti_orchestrator.py:265-301 | a first write between uuids that name no entity gives a mirror row and no edge |
| Ingest.ClashStrandsEdge | core/services/graphiti_orchestrator.py:265-301 | a run of four writes, all endpoints in the graph, whose last closes another triple's row and leaves that triple's edge |
| Ingest.DocIdInjective | core/adapters/pgvector_adapter.py:99-110 | different entities have different documents |
| Ingest.IngestRunAgrees | core/services/graphiti_orchestrator.py:200-303 | over every run of writes and deletes, in any time order, identities are stable, each open row equals its node or edge and its document, and no edge is left over when the endpoints make safe keys |
| IngestColumns.OpenEntityIsIndexed | core/services/graphiti_orchestrator.py:200-254 | in every run of writes and deletes an open entity row has a node with its name, type and start, and a document with its name and summary |
| IngestColumns.OpenRelationIsIndexed | core/services/graphiti_orchestrator.py:256-303 | and an open relation row has an edge with its fact, confidence and start |
| Ingest.RunMirroredIff | core/adapters/age_adapter.py:12-13 | over every such run the nodes and documents are exactly those of the open rows throughout if and only if no entity with an open row is deleted |
| Orchestrator.Pipeline.ResolveEntityUuid | core/services/graphiti_orchestrator.py:98-115 | the key of some row with that identity, else the fallback |
| Orchestrator.Pipeline.PersistEntity | core/services/graphiti_orchestrator.py:210-253 | one round writes the mirror row, the document and the AGE node of the entity under its resolved key, and nothing else |
| Orchestrator.Pipeline.PersistEntities | core/services/graphiti_orchestrator.py:200-254 | from any well-formed mirror with stable identities, whatever the indexes hold: one row per entity in order, each the next version of its key; the key is that of the identity's earlier rows, open or not, or else the uuid of its first entity in the batch; the map sends each extracted uuid to it; open keys stay as they were if and only if each identity had an open row before; each agreement with the indexes that held still holds |
| Orchestrator.Pipeline.PersistRelation | core/services/graphiti_orchestrator.py:265-301 | one round writes the mirror row and, when both endpoints are nodes, the AGE edge |
| Orchestrator.Pipeline.PersistRelations | core/services/graphiti_orchestrator.py:256-303 | from any such stores: one row per relation in order, each the next version of its key, with endpoints sent through the map; the count is their number; edges still agree when the endpoints are nodes |
| Orchestrator.Pipeline.PersistStructured | core/services/graphiti_orchestrator.py:182-198 | from any such stores, both loops: the entity rows, the relation rows between the keys of their entities, the counts, what is open afterwards in terms of what was open before, each agreement that held, and no edge left over where the entity keys are safe |
| Orchestrator.EntitiesReopenIff | core/services/graphiti_orchestrator.py:210-235 | a batch leaves the open entity keys as they were if and only if each (project, name, type) of the batch had an open row before the call |
| Orchestrator.RelationsReopenIff | core/services/graphiti_orchestrator.py:265-291 | it leaves the open relation keys as they were if and only if each relation's key, which the table before the call and the batch determine, was open before |
| BulkIngest.BuildExtraction | core/services/bulk_ingest.py:58-79 | the extraction holds all entities and exactly the relations whose two names the record defines, in order, each pointing at the last entity of that name |
| BulkRows.ExtractedRelations | core/services/bulk_ingest.py:67-79 | the relations of an extraction are made, one by one and in order, from the relations of the record at a rising sequence of indices that holds exactly those where both names are names of its entities; each has the fields of its relation and the uuids of the last entities with its names |
| BulkIngest.IngestBulk | core/services/bulk_ingest.py:30-103 | from any such stores: behind the earlier rows come the records' entities in order, and their known relations in order, each between the keys of the rows of the last entities with the two names; totals, opened keys, next versions, each agreement that held, and no edge left over where the entity keys are safe |
| BulkRows.RequestRows | core/services/bulk_ingest.py:30-103 | there are two lists in record order, of every entity of every record and of every relation whose two names its record has, such that the rows added to the two tables are, one by one and column by column, those of the two lists, each relation between the keys of the rows of the last entities with its names; the totals are the lengths of the lists |
| BulkIngest.IngestRecord | core/services/bulk_ingest.py:37-85 | one record adds exactly its own rows and keeps all that was written before |
| BulkIngest.SameKeysAgain | core/services/bulk_ingest.py:30-103 | ingesting the same names and triples again, with new uuids, texts and times and after any writes, deletes and repairs, appends rows with the same keys in the same order |
| BulkIngest.ReingestIff | core/services/bulk_ingest.py:30-103 | that leaves the open entity keys as they were before the second request if and only if every entity key the first one wrote was still open then, and the same for relations |
| BulkIngest.ReingestKeepsOpenKeys | core/services/bulk_ingest.py:30-103 | so with nothing expired since, whatever was ingested in between, the second request opens no key |
| BulkIngest.IngestedIsLater | core/services/bulk_ingest.py:30-103 | any request for any project extends history and keeps open what is open |
| BulkIngest.FreshRecordsLater | core/services/extractors.py:19-25 | uuids drawn for later records stay unused while an earlier record is written |
| PathSearch.SimpleMeaning | core/adapters/graph_repo.py:107-127 | the visited-set test characterises paths whose edges are relations, chain, and visit pairwise different nodes |
| PathSearch.BuildAdjacency | core/adapters/graph_repo.py:101-103 | the dict gives for each node exactly its outgoing relations in table order |
| PathSearch.FindPaths | core/adapters/graph_repo.py:86-128 | the queue loop ends on every graph and returns the first max_paths of the level-by-level enumeration |
| PathSearch.TakeNext | core/adapters/graph_repo.py:108-127 | one round takes the next path of the current level and queues its extensions behind what waits |
| PathSearch.PushExtensions | core/adapters/graph_repo.py:114-127 | the inner loop appends exactly the one-edge extensions to unvisited nodes, in order |
| PathSearch.LevelAt | core/adapters/graph_repo.py:108-127 | level n holds exactly the simple paths with n edges |
| PathSearch.UpToDistinct | core/adapters/graph_repo.py:114-127 | no path is enumerated twice |
| PathSearch.UpToSorted | core/adapters/graph_repo.py:108-127 | lengths never decrease along the enumeration |
| PathSearch.FindPathsExact | core/adapters/graph_repo.py:86-128 | every result is a simple path of 1..max_hops edges, shortest first and each once; if fewer than max_paths come back none is missing, and otherwise every omitted path is at least as long as every returned one |
| PathOrder.FindPathsOrder | core/adapters/graph_repo.py:86-128 | shorter paths come first, and of two paths of one length the one that goes on with the earlier relation of the table where they part; with FindPathsExact this determines the result |
| PathOrder.OmittedComeLater | core/adapters/graph_repo.py:106-112 | a simple path within the hop bound that the cap leaves out comes after everything returned |
| PathSearch.Neighbors | core/adapters/graph_repo.py:67-84 | the loop returns the relations at the entity in table order with the other end of each, per direction |
| PathSearch.NeighborsMeaning | core/adapters/graph_repo.py:67-84 | a pair is returned exactly when the relation joins the entity with that neighbor, either way |
| PathOrder.NeighborsByDirection | core/adapters/graph_repo.py:67-84 | for each direction, a pair is returned once per row with the relation and direction asked for in which it leads to the neighbor, a self-loop twice for both |
| PathOrder.NeighborsInOrder | core/adapters/graph_repo.py:67-84 | the pairs come in table order |
| PathSearch.NeighborsSymmetric | core/adapters/graph_repo.py:67-84 | u has the neighbor v exactly when v has the neighbor u |
| PathSchema.PathToSchema | core/services/retrieval.py:305-321 | the nodes are exactly the endpoints of the edges, each once, named by an edge that has it or by the uuid; the edges keep type, fact and confidence; for a path the search returns, the nodes are its nodes in order, one more than its edges |
| MemoryForest.AcyclicMeaning | core/memory_tree/service.py:271-287 | in an acyclic table following parents never returns to the start |
| MemoryForest.AttachedAcyclicIff | core/memory_tree/service.py:252-268 | a reparent leaves the table acyclic if and only if the new parent is not at or under the node |
| MemoryForest.ConsistentIsForest | core/memory_tree/service.py:97-105 | depths that follow parents make the table a forest |
| MemoryForest.CreatedConsistent | core/memory_tree/service.py:97-136 | creating a node keeps every depth and path consistent with its parent's |
| MemoryForest.AttachedConsistentIff | core/memory_tree/service.py:252-268 | a reparent keeps depths and paths consistent if and only if the new parent is another node and the moved one is childless or keeps its depth and path |
| MemoryForest.PrunedConsistent | core/memory_tree/service.py:271-287 | deleting a branch keeps the depth and path of every node that still has a parent consistent with it |
| MemoryForest.PathsAreTrails | core/memory_tree/service.py:97-104 | depths and paths that follow parents, with depth 0 and the own id at roots, are exactly the distance to the root and the trail of ancestors from it |
| MemoryForest.PrunedRootedIff | models/memory_tree.py:68-74 | a delete keeps every root at depth 0 with its own path if and only if no surviving row named a removed row as its parent |
| MemoryForest.CreatedCounts | core/memory_tree/service.py:99-105 | creating a node keeps each child count the number of rows naming it as parent |
| MemoryForest.AttachedCounts | core/memory_tree/service.py:261-266 | so does a reparent, and the clamp at zero does not act |
| MemoryForest.PrunedCounts | core/memory_tree/service.py:281-285 | so does deleting a branch |
| MemoryForest.CountsSumToNonRoots | core/memory_tree/service.py:261-266 | the counts of a table add up to the number of its non-roots |
| MemoryForest.DoomedIsBranch | core/memory_tree/service.py:277-280 | what a cascade removes hangs together under the node |
| MemoryForest.CascadeEndsIff | core/memory_tree/service.py:271-287 | the recursion of a cascade ends if and only if the node lies on no cycle of listed parent links |
| MemoryForest.AcyclicOffCycle | core/memory_tree/service.py:271-287 | in an acyclic table every cascade ends |
| MemoryForest.SiblingsApart | core/memory_tree/service.py:277-280 | no node falls with two children of one parent that lie on no cycle, so the counts of the recursive calls add up |
| MemoryTree.Service.CreateNode | core/memory_tree/service.py:77-136 | fails without change exactly when the parent is missing, foreign or the empty string; otherwise the row, its depth and path, and the parent's count are as specified |
| TreeColumns.CreatedRow | core/memory_tree/service.py:97-136 | the new row takes the caller's columns as they are, depth and path from the parent, and the set values for count, version, status, words and references |
| TreeColumns.CreatedElsewhere | core/memory_tree/service.py:97-136 | every other row keeps all its columns, but for the parent's count, which rises by one |
| TreeColumns.CreateRefused | core/memory_tree/service.py:97-105 | a creation is refused exactly for an empty, missing or foreign parent |
| MemoryTree.Service.GetNode | core/memory_tree/service.py:139-144 | the row, or NotFoundError exactly when it is missing or of another project |
| MemoryTree.Service.ListNodes | core/memory_tree/service.py:146-167 | exactly the matching rows, in force at the given time or, with `include_expired`, at whatever time, each once, ordered by (order_index, created_at) |
| TreeColumns.ListedRows | core/memory_tree/service.py:146-167 | exactly the rows of the project, of the layer and parent if given, and in force at the time if given, by order_index and then created_at |
| MemoryTree.Service.UpdateNode | core/memory_tree/service.py:196-250 | its error cases; without error the given fields, the move and the version, and one snapshot of the previous text; with one, both tables as before |
| TreeColumns.UpdatedRow | core/memory_tree/service.py:216-249 | the row gets each column that is given, the next version, and under a new parent its place there, and keeps all others |
| TreeColumns.UpdatedElsewhere | core/memory_tree/service.py:216-268 | every other row keeps all its columns but the counts of the two parents of a move |
| TreeColumns.UpdateRefused | core/memory_tree/service.py:252-268 | an update is refused exactly for a missing or foreign node, and for a new parent that is the node itself, missing or foreign |
| TreeColumns.SnapshotColumns | core/memory_tree/service.py:204-214 | a snapshot holds node, project, version, title and content of the row as it was |
| MemoryTree.Service.Reparent | core/memory_tree/service.py:252-268 | errors exactly for the node itself and for a missing or foreign parent; otherwise the counts of both parents and the node's parent, depth and path |
| MemoryTree.Service.Rollback | core/memory_tree/service.py:304-325 | fails without change exactly when no such snapshot exists or the node is missing; otherwise updates with that snapshot's title and content |
| TreeColumns.RolledBackRow | core/memory_tree/service.py:304-325 | a rollback gives the row the title, and the content if there is one, of a snapshot of that node, project and version, and the next version, and changes nothing else in the table |
| MemoryTree.Service.DeleteNode | core/memory_tree/service.py:271-287 | on every table: NotFoundError or a recursion that is too deep leave both tables as they were; otherwise exactly the node, or with cascade the node and its descendants through children in force, go with their snapshots, their number is returned, and other rows change only in the parent's count and in lost parents set to NULL |
| TreeColumns.DeletedRows | core/memory_tree/service.py:271-287 | a delete removes the node and, with cascade, each row in force of the project whose parent is removed; every row that stays keeps all its columns but the parent, NULL exactly where it was a removed row, and the count of the deleted node's parent, lower by one |
| MemoryTree.DoomedLater | core/memory_tree/service.py:279-280 | deleting one child's branch does not change what the next child takes with it |
| MemoryTree.EndsLater | core/memory_tree/service.py:279-280 | nor whether the next child's cascade ends, and at what depth |
| MemoryTree.ChildrenThenSelf | core/memory_tree/service.py:277-287 | the branches of the listed children and the node itself are exactly what falls with the node |
| TreeColumns.Perform | core/memory_tree/service.py:77-325 | the outcome of each call of the service is the step of a run that stands for it |
| TreeRuns.RunCounted | core/memory_tree/service.py:77-287 | over every run of any calls, moves of inner nodes and cascades beside cycles included, each child count is exact and no parent reference dangles |
| TreeRuns.RunConsistentIff | core/memory_tree/service.py:77-287 | over every run depth and path follow the parent everywhere throughout if and only if every move is of a childless node or leaves its depth and path as they are |
| TreeRuns.RunConsistent | core/memory_tree/service.py:77-287 | as long as moves are of that kind the table is a forest and every cascade ends |
| TreeRuns.RunPlacedIff | core/memory_tree/service.py:77-287 | over every run every depth and path describe the whole chain of ancestors throughout if and only if every move is of that kind and no delete leaves an orphan |
| TreeFailures.MoveUnderChildMakesCycle | core/memory_tree/service.py:252-268 | a run of three calls that makes a cycle of listed links |
| TreeFailures.MoveLeavesChildBehind | core/memory_tree/service.py:252-268 | a run that leaves a child with the depth of its parent |
| TreeFailures.SurvivorIsNoProperRoot | core/memory_tree/service.py:271-287 | a run that leaves a root of depth 1 with its lost parent's path |
| TreeFailures.RollbackKeepsContent | core/memory_tree/service.py:304-325 | a run whose rollback to a version without content keeps the present content |
| TreeRuns.RunLogged | core/memory_tree/service.py:216-248 | over every run the history has exactly one snapshot for each version a live node has left behind, and no other |
| TreeRuns.HistoryFaithful | core/memory_tree/service.py:216-248 | while a node lives, the text it had at any earlier moment is what the snapshot of that version holds, or its present text if the version is the same |
| TreeRuns.RollbackRestoresIff | core/memory_tree/service.py:304-325 | a rollback restores the title; it restores the content if and only if the stored one is non-null or the present one is null; the history only grows |
| Documents.PutDocument | openclaw_plugin/router.py:128-161 | creates the document's node when the key has none, and otherwise updates one the key has, with the fallbacks for title and content; returns its id and version |
| Documents.PutCreates | openclaw_plugin/router.py:128-161 | where no row has the topic `openclaw:key`, a put adds one root of the source layer with the title, the content and their fallbacks at version 1, and changes nothing else |
| Documents.PutUpdates | openclaw_plugin/router.py:139-154 | where rows have it, a put gives one of them title, content and the next version, keeps a snapshot of what it said, and changes nothing else |
| Documents.GetDocument | openclaw_plugin/router.py:164-182 | some row of the key, and nothing exactly when the key has none |
| Documents.AnswerColumns | openclaw_plugin/router.py:164-182 | an answer is the title, content and version of a row of the project with that topic |
| Documents.StoreHoldsLastPut | openclaw_plugin/router.py:128-182 | as long as every other call fails or is not about a row of the document, the key has one row, holding the last put, with version the number of puts; none without a put |
| Documents.RunHoldsIff | openclaw_plugin/router.py:128-182 | over every run of puts and any other calls of the memory tree this holds throughout if and only if each other call is of that kind |
| Documents.AnswersKeptIff | openclaw_plugin/router.py:164-182 | after one call of the memory tree every lookup still answers with the last put if and only if the call fails, is not about a row of the document, or creates a second row that repeats a first version |
| Documents.TopicNodeMayAnswer | core/memory_tree/builder.py:90-112 | once a topic node is created with the document's `topic_id`, two rows have the key, and the topic's text is a possible answer |
| TreeAssembly.GetTree | core/memory_tree/service.py:170-193 | through in-place appends to shared dicts, the roots and each dict's children are the objects of exactly the listed nodes with that parent, in list order |
| TreeAssembly.Place | core/memory_tree/service.py:187-192 | one round of the second loop extends the children of one dict, or the roots, and leaves all others |
| TreeAssembly.UnderKeepsOrder | core/memory_tree/service.py:187-192 | siblings and roots keep list order |
| TreeAssembly.AssembledIsFaithful | core/memory_tree/service.py:169-193 | read as a value, the shared objects nest every node under its listed parent and nowhere else |
| TreeAssembly.AssembledCanBeRead | core/memory_tree/service.py:169-193 | following children from the roots ends, whatever the parent relation |
| TreeAssembly.TreeShowsEachOnce | core/memory_tree/service.py:187-193 | for every list, cyclic parents or not, the result holds exactly the nodes whose chain of listed parents ends, each once |
| TreeAssembly.AllShownIff | core/memory_tree/service.py:187-193 | nothing is lost if and only if the listed parents have no cycle |
| TreeAssembly.TreeIsPermutationIff | core/memory_tree/service.py:169-193 | the flattened result is a permutation of the list if and only if the listed parents have no cycle |
| TreeAssembly.GetTreeExact | core/memory_tree/service.py:169-193 | what the method returns can be read as a nested value, and every reading has all of the above; an acyclic table gives an acyclic list |
| TreeResult.ObjectsFollowParents | core/memory_tree/service.py:187-193 | a dict is among the children of another exactly where that is the node's parent in the table, and among the roots exactly where no parent is listed; children and roots are in list order |
| TreeResult.ReadingsFollowParents | core/memory_tree/service.py:169-193 | the result can be read, and in every reading the tops have no listed parent, y is a child of x exactly where x is its parent, each node whose chain of listed parents ends appears once and no other, and nothing is lost exactly when no chain of parents through listed nodes returns to its start |
| Scores.ExpandViaGraph | core/services/retrieval.py:111-125 | the nested in-place loops reach the closed form: each entity's greatest of its own score and 0.4 times each adjacent seed's, new entities only through a positive offer |
| Scores.ExpansionScores | core/services/retrieval.py:111-125 | along each relation of a seed the entity at its other end gets at least 0.4 of the seed's score, and an entity that ends with another score than its own has exactly that of one of them |
| Scores.ExpansionUnique | core/services/retrieval.py:111-125 | the closed form has one solution, so the order of seeds and of relations does not matter |
| Scores.ExpansionRanges | core/services/retrieval.py:111-125 | with seeds in [0, top] all scores stay there, and those of entities newly reached are at most 0.4 of top |
| Recall.VectorRecall | core/services/retrieval.py:104-109 | each entity that is hit gets its greatest hit score, not below zero, and no other entity gets one |
| RecallColumns.RecalledScores | core/services/retrieval.py:104-109 | an entity has a score exactly if a hit names it under `kuzu_uuid`: the greatest of those hits, or 0 |
| Recall.MemoryCollection.Upsert | core/adapters/chroma_adapter.py:37-38 | one entry is set; an existing entry keeps its place and a new one goes last |
| Recall.MemoryCollection.Query | core/adapters/chroma_adapter.py:40-47 | the hits are the n first of the matching entries in stable descending order of score |
| RecallColumns.QueryHits | core/adapters/chroma_adapter.py:40-47 | the entries the filter wants are those of the hits and the rest, each once; hit i shows the metadata and score of its entry; the hits are in descending order and none of the rest scores higher, and there is a rest only behind n hits |
| Recall.TopIsBest | core/adapters/chroma_adapter.py:46-47 | what is cut off scores no higher than anything returned, which is in descending order and as much as was asked for |
| Recall.SortedStable | core/adapters/chroma_adapter.py:46 | entries of equal score stay in insertion order |
| Recall.SearchEntities | core/services/retrieval.py:60-66 | the entity scores of a search: recall of the query's hits, expanded when relations are searched |
| Recall.PgSearchFindsNothing | core/adapters/pgvector_adapter.py:188-200 | whatever entities the pgvector collection holds and however they score, recall and expansion yield no entity |
| RecallColumns.PgEntityHit | core/adapters/pgvector_adapter.py:101-112 | the pgvector filter wants exactly the entities of its projects, and what a hit of one carries is kind, ref_id, name and project_id |
| Recall.ChromaSearchFindsNothing | core/adapters/chroma_adapter.py:40-47 | whatever entities the in-memory Chroma collection holds, the query of recall has no hit and the search no entity |
| RecallColumns.ChromaEntityHit | core/adapters/chroma_adapter.py:40-47 | the filter asks for the list of projects; one that asked for the project as a string would want exactly its entities, and their hits name them under `kuzu_uuid` |
| Similarity.CauchySchwarz | core/adapters/chroma_adapter.py:24-30 | the square of the dot product is at most the product of the squared norms |
| Similarity.CosineSymmetric | core/adapters/chroma_adapter.py:24-30 | the similarity does not depend on the order of the vectors |
| Similarity.CosineTimesNorms | core/adapters/chroma_adapter.py:24-30 | the similarity times both norms is the dot product |
| Similarity.CosineZero | core/adapters/chroma_adapter.py:24-30 | it is 0 for different lengths, empty vectors and zero vectors |
| Similarity.CosineOfMultiple | core/adapters/chroma_adapter.py:24-30 | it is 1 between a vector that is not zero and itself or any positive multiple, and -1 for a negative multiple |
| Similarity.CosineScaleFree | core/adapters/chroma_adapter.py:24-30 | scaling a vector by a positive factor changes no similarity |
| Similarity.DotConcat | core/adapters/chroma_adapter.py:27 | the dot product adds over concatenation |
| Similarity.DotSingle | core/adapters/chroma_adapter.py:27 | and for single entries is their product |
| Similarity.CosineBounded | core/adapters/chroma_adapter.py:24-30 | the similarity lies in [-1, 1] for all vectors, zero vectors and different lengths included |
| Similarity.HashEmbed | core/adapters/embedding.py:21-29 | the in-place counting loop yields the counts per position divided by their norm, or by one when that is zero |
| Similarity.CountsMeaning | core/adapters/embedding.py:23-27 | the count at a position is the number of tokens that hash to it |
| Similarity.EmbeddingEntry | core/adapters/embedding.py:21-29 | an entry times the norm of the counts is the number of tokens that hash to its position |
| Similarity.EmbeddingIsUnit | core/adapters/embedding.py:21-29 | an embedding has no negative entry and squared norm 1, or 0 exactly when the text has no token |
| Similarity.EmbeddingSimilarity | core/adapters/embedding.py:21-29 | vectors without negative entries, such as embeddings, have a similarity in [0, 1] |

## Left out

- MemoryTree.Service.UpdateNode: of a snapshot only the node, project, version, title and content; who changed it, why, and the object key are stored beside them. Column widths and the 64 KB limit are not modelled.
- MemoryTree.Service.DeleteNode: the interpreter's recursion limit is a number of nested calls; one instant stands for the clock readings of all recursive calls.
- TreeAssembly.GetTree: each dict carries the node's id and children; the other fields are copied from the row.
- Temporal.VersionTable.Expire: the row object is given by its position in the table.
- Interleaving.ScheduleSafe: the units are the two reads and the write of `supersede`, the select and the assignments of a repair and of a key's expiry, and the expiry of a row. A rollback is the reads and the write with fields that come from an earlier row. Database isolation levels are not modelled.
- AsOfLookup.AsOfIsLastWrite: keys that are expired are left out, since expiry ends a row without a next one.
- Ingest.IngestRunAgrees: runs of writes and entity deletes, with the graph and the vector index switched on and no swallowed write failure, fresh uuids, and endpoints that are in the graph. The AGE field `version` is excluded, since the call never passes it. `rollback_to_version`, `expire` and `resolve_conflict_keep_latest` are not steps of these runs, since nothing calls them.
- Ingest.EntityKeepsMirrored: times are stored in the node as times, not as ISO text, and the escaping of Cypher literals is not modelled.
- BulkIngest.IngestBulk: asks that the uuids drawn for the records are new; the episode rows and their counters are not part of this model.
- PathSearch.FindPathsExact: an edge dict is represented by its relation row, so "each once" speaks of relation rows; two rows with equal contents give equal dicts.
- Scores.ExpandViaGraph: the dict's order is a parameter, and any order of the seeds is allowed, repetition included.
- Recall.MemoryCollection.Query: the similarity of each stored vector to the query is given as a score, and the stored texts are left out; the pgvector table, where one is available, is queried in SQL and returns the same fields.
- Similarity.HashEmbed: tokens and their hash values are given; lower-casing, splitting and MD5 are not modelled.
- Similarity.CosineBounded: over mathematical reals; floating-point rounding is not modelled.
- SnapshotDiff.Report.DiffModel: one type of business fields per report; the item's `name` is part of them.
- Path scoring, materialisation, the memory-tree part of search and the narration in core/services/retrieval.py: averages, sorting and string formatting.
- All database, AGE, pgvector and Chroma internals.
- Extraction (core/services/extractors.py): an arbitrary extraction result is the input; embedding, reranking and language models are not part of this model.
- Episode rows and their status, project_id lists that join several projects, the memory-tree hook, summaries and the Markdown exporter.
- Routing, authentication, permissions, tenants, audit, webhooks, rate limits and the frontend.
- The vendored graphiti tree: its resolution logic is mostly in queries and is not part of this model.
