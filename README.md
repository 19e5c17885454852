# Graph store over relational tables: a verified model

The modelled system stores labelled, directed multigraphs in a relational database and finds them by feature. Its
own name for the component is `MysqlDBInterface`. A graph has:

- a set of graph-level features, where a feature is a (name, value) pair of strings;
- a set of node ids, each with its own feature set;
- a set of edge ids, each with a source node id, a target node id and its own feature set.

Node and edge ids are local to their graph. The store keeps graphs in five kinds of table:

- graph_instances: one row per graph. Its `id` is assigned by AUTO_INCREMENT. The row also caches the numbers of nodes, edges and features.
- node_instances and edge_instances: one row per node and per edge, indexed by (id, graph_id). The index is not unique; uniqueness of (graph_id, id) is kept by the store's own writes. An edge row also holds the edge's endpoints.
- graph_features, node_features and edge_features: one row per feature of a graph, of a node or of an edge.

The model covers every operation of the core of the store (the public helpers `isConnected`, `disconnect`, `updateDB` and `getQueryResults` are left out, see below):

- writing a graph (`addGraph`, with `getLastAutoIncrement` supplying the fresh id);
- reading it back (`retrieveGraph`);
- removing it (`deleteGraph`);
- the three counts;
- the two feature searches;
- the iterator behind `getGraphIDStream`.

## How the model is built

Each SQL table is a sequence of rows, with one datatype per table whose fields are the table's columns.

- A `SELECT … WHERE` is `Seqs.Filter` with a named row predicate.
- An `INSERT` appends a row.
- A `DELETE … WHERE` keeps the rows that fail the condition.

The files and what each holds:

- `graphs.dfy`: the graph value (`Graphs.Graph`), the errors, the search queries, and the builder operations that retrieval uses.
- `seqs.dfy`: `Filter` and its lemmas. It also holds `Appended`: "these rows were inserted one each, in some order". The source inserts while iterating over the graph's feature, node-id and edge-id sets, whose iteration order is unspecified, so the order is left open, and loops choose the next element with `Pick`.
- `schema.dfy`: the row types and the `Db` snapshot, plus the specification functions:
  - `StoredGraph`: the graph that the rows of an id describe;
  - `AddedGraph`: what a write appends;
  - `WithoutGraph`: the tables with a graph's rows removed;
  - the counts, `LeastIdAbove`/`IdStream` for the iterator, and `HasFeatureRow` for the searches;
  - the store invariant `StoreInvariant`: a distinct primary key, unique edge keys, no orphan rows, count columns equal both to the number of distinct child ids or features and to the number of child rows, and ids below the counter.
- `write_props.dfy`, `delete_props.dfy`, `stream_props.dfy`, `search_props.dfy`: the lemmas about those functions.
- `mysql_db_interface.dfy`: the store itself, class `MysqlDB.MysqlDBInterface`. It has one `seq` field per table, the AUTO_INCREMENT counter `autoIncrement`, and the last generated key `lastInsertId`. Its methods run the source's loops, and each is proved against the specification functions. The class `MysqlDB.GraphIdIterator` holds the iterator's mutable `id`.

All paths below are relative to the repository root. Every source cell refers to
`src/main/java/net/sourcedestination/mysql/db/MysqlDBInterface.java`.

## Model

| member | source | states |
|---|---|---|
| MysqlDB.MysqlDBInterface.constructor | src/main/java/net/sourcedestination/mysql/db/MysqlDBInterface.java:85-91 | A store connected with `initialize` set: all tables are empty, the counter is 1, there is no generated key, and the store invariant holds. |
| MysqlDB.MysqlDBInterface.InitializeDatabase | src/main/java/net/sourcedestination/mysql/db/MysqlDBInterface.java:187-193 | Recreating the tables leaves every table empty and the AUTO_INCREMENT counter at 1. It establishes the store invariant. |
| MysqlDB.MysqlDBInterface.InsertGraphInstance | src/main/java/net/sourcedestination/mysql/db/MysqlDBInterface.java:228-229 | The graph_instances INSERT appends exactly one row. The row takes the counter's value as its id, and that id becomes the generated key. The counter moves on by one and the other tables are unchanged. |
| MysqlDB.MysqlDBInterface.GetLastAutoIncrement | src/main/java/net/sourcedestination/mysql/db/MysqlDBInterface.java:281-295 | Returns the generated key of the last INSERT. When there is none, it returns the "error creating new graph" failure. |
| MysqlDB.MysqlDBInterface.AddGraph | src/main/java/net/sourcedestination/mysql/db/MysqlDBInterface.java:223-257 | The returned id is the counter's old value and had no graph_instances row before the call. The new tables are the old ones plus exactly the rows of `g`: one graph row with the node-, edge- and feature-set sizes, and one row per feature, node, node feature, edge and edge feature, in some order. The store invariant is kept. |
| MysqlDB.MysqlDBInterface.WriteGraphFeatures | src/main/java/net/sourcedestination/mysql/db/MysqlDBInterface.java:232-235 | Appends exactly one graph_features row (gid, name, value) per feature and changes nothing else. |
| MysqlDB.MysqlDBInterface.WriteNodes | src/main/java/net/sourcedestination/mysql/db/MysqlDBInterface.java:236-244 | Appends exactly one node_instances row per node, carrying that node's feature count, and one node_features row per (node, feature). Changes nothing else. |
| MysqlDB.MysqlDBInterface.WriteNode | src/main/java/net/sourcedestination/mysql/db/MysqlDBInterface.java:238-243 | Writing one more node appends that node's row to node_instances. Counted from the snapshot taken before the first node, the rows written so far grow by that node's row and its node_features rows. |
| MysqlDB.MysqlDBInterface.WriteNodeFeatures | src/main/java/net/sourcedestination/mysql/db/MysqlDBInterface.java:240-243 | Appends exactly one node_features row (gid, nid, name, value) per feature of the node. |
| MysqlDB.MysqlDBInterface.WriteEdges | src/main/java/net/sourcedestination/mysql/db/MysqlDBInterface.java:245-255 | Appends exactly one edge_instances row per edge, carrying its source, target and feature count, and one edge_features row per (edge, feature). Changes nothing else. |
| MysqlDB.MysqlDBInterface.WriteEdge | src/main/java/net/sourcedestination/mysql/db/MysqlDBInterface.java:246-254 | Writing one more edge appends that edge's row, with its endpoints, to edge_instances. Counted from the snapshot taken before the first edge, the rows written so far grow by that edge's row and its edge_features rows. |
| MysqlDB.MysqlDBInterface.WriteEdgeFeatures | src/main/java/net/sourcedestination/mysql/db/MysqlDBInterface.java:251-254 | Appends exactly one edge_features row (gid, eid, name, value) per feature of the edge. |
| MysqlDB.MysqlDBInterface.RetrieveGraph | src/main/java/net/sourcedestination/mysql/db/MysqlDBInterface.java:298-357 | Fails with NoSuchGraph(id) exactly when no graph_instances row has the id. Otherwise returns exactly what the rows of that id describe (`StoredGraph`): the graph features, each node id with its features, and each edge id with its endpoints and features. |
| MysqlDB.MysqlDBInterface.LoadGraphFeatures | src/main/java/net/sourcedestination/mysql/db/MysqlDBInterface.java:307-316 | The loop over the graph_features rows of the id adds exactly the features those rows name. |
| MysqlDB.MysqlDBInterface.LoadNodes | src/main/java/net/sourcedestination/mysql/db/MysqlDBInterface.java:319-335 | The loop over the node_instances rows of the id yields exactly the listed node ids, each with the features of its node_features rows. |
| MysqlDB.MysqlDBInterface.LoadNodeFeatures | src/main/java/net/sourcedestination/mysql/db/MysqlDBInterface.java:325-334 | Adds to one node exactly the features of its node_features rows and leaves every other node as it was. |
| MysqlDB.MysqlDBInterface.LoadEdges | src/main/java/net/sourcedestination/mysql/db/MysqlDBInterface.java:337-354 | The loop over the edge_instances rows of the id yields exactly the edges those rows list, with their endpoints and the features of their edge_features rows. |
| MysqlDB.MysqlDBInterface.LoadEdgeFeatures | src/main/java/net/sourcedestination/mysql/db/MysqlDBInterface.java:342-353 | Adds to one edge exactly the features of its edge_features rows and leaves every other edge as it was. |
| MysqlDB.EdgesLoadedStep | src/main/java/net/sourcedestination/mysql/db/MysqlDBInterface.java:340-353 | Rebuilding one more edge row keeps the edge map exact, because edge keys are unique. |
| MysqlDB.EdgesLoadedAll | src/main/java/net/sourcedestination/mysql/db/MysqlDBInterface.java:337-354 | Once every edge row of the id is loaded, the edge map is the graph's stored edge map. |
| MysqlDB.MysqlDBInterface.DeleteGraph | src/main/java/net/sourcedestination/mysql/db/MysqlDBInterface.java:260-275 | Fails exactly when the id has no graph_instances row: the same NoSuchGraph error as retrieval, with the tables unchanged. Otherwise the tables become the old ones with every row of that graph removed, and nothing else changes. The store invariant is kept. |
| MysqlDB.MysqlDBInterface.DeleteRows | src/main/java/net/sourcedestination/mysql/db/MysqlDBInterface.java:262-274 | The DELETE statements, as issued: instance and graph feature rows by graph id, and node/edge feature rows for the node and edge ids the graph lists. |
| MysqlDB.MysqlDBInterface.DeleteNodeFeatures | src/main/java/net/sourcedestination/mysql/db/MysqlDBInterface.java:267-270 | Deleting per node id leaves exactly the node_features rows that are not for one of those nodes of the graph. |
| MysqlDB.MysqlDBInterface.DeleteEdgeFeatures | src/main/java/net/sourcedestination/mysql/db/MysqlDBInterface.java:271-274 | Deleting per edge id leaves exactly the edge_features rows that are not for one of those edges of the graph. |
| MysqlDB.MysqlDBInterface.GetDatabaseSize | src/main/java/net/sourcedestination/mysql/db/MysqlDBInterface.java:359-363 | `SELECT COUNT(*) FROM graph_instances`: with `id` the primary key, the number of stored graphs. `WriteProperties.AddedGraphCounts` and `DeleteProperties.WithoutGraphCounts` give its change under a write and a removal, and `StreamProperties.StreamFromStartYieldsAll` shows that the id stream yields that many ids. |
| MysqlDB.MysqlDBInterface.GetNodesInDatabase | src/main/java/net/sourcedestination/mysql/db/MysqlDBInterface.java:366-371 | The join of node_instances with graph_instances never counts more than the node rows, and counts every node row when no row is orphaned. A write adds the graph's node count (`WriteProperties.AddedGraphCounts`), a removal subtracts its node rows (`DeleteProperties.WithoutGraphCounts`). |
| MysqlDB.MysqlDBInterface.GetEdgesInDatabase | src/main/java/net/sourcedestination/mysql/db/MysqlDBInterface.java:373-378 | The same for edge_instances: at most the edge rows, and every edge row when no row is orphaned, with the same partner lemmas. |
| MysqlDB.MysqlDBInterface.FindGraphs | src/main/java/net/sourcedestination/mysql/db/MysqlDBInterface.java:381-400 | The union of the three joins. It yields exactly the ids that have a graph_instances row and at least one matching graph-, edge- or node-level feature row, each id once. |
| MysqlDB.MysqlDBInterface.RetrieveGraphsWithFeatureName | src/main/java/net/sourcedestination/mysql/db/MysqlDBInterface.java:381-400 | Exactly the stored ids with a feature row of the given name at some level. |
| MysqlDB.MysqlDBInterface.RetrieveGraphsWithFeature | src/main/java/net/sourcedestination/mysql/db/MysqlDBInterface.java:402-425 | Exactly the stored ids with a feature row of the given name and value at some level. |
| MysqlDB.AddOwners | src/main/java/net/sourcedestination/mysql/db/MysqlDBInterface.java:383-386 | Filling the HashSet from a query result adds exactly the graph ids of its rows. |
| MysqlDB.MysqlDBInterface.GetGraphIdStream | src/main/java/net/sourcedestination/mysql/db/MysqlDBInterface.java:196-198 | A new iterator over this store, positioned at id 0. |
| MysqlDB.GraphIdIterator.constructor | src/main/java/net/sourcedestination/mysql/db/MysqlDBInterface.java:197-198 | The iterator starts at id 0. |
| MysqlDB.GraphIdIterator.HasNext | src/main/java/net/sourcedestination/mysql/db/MysqlDBInterface.java:200-204 | True exactly when some stored id is greater than the iterator's position. |
| MysqlDB.GraphIdIterator.Next | src/main/java/net/sourcedestination/mysql/db/MysqlDBInterface.java:206-216 | When a stored id lies above the position, returns the least such id and moves to it; what remains to be yielded is the rest of the stream. Otherwise fails with "no elements remaining" and does not move. |
| Schema.LeastIdAbove | src/main/java/net/sourcedestination/mysql/db/MysqlDBInterface.java:201-203 | `SELECT id … WHERE id > bound ORDER BY id LIMIT 1`: nothing exactly when no stored id exceeds the bound; otherwise a stored id above the bound that is at most every other such id. |
| WriteProperties.FreshIdHasNoRows | src/main/java/net/sourcedestination/mysql/db/MysqlDBInterface.java:228-230 | With no orphan rows, a graph id without a graph_instances row owns no row in any table. |
| WriteProperties.AddedGraphMembers | src/main/java/net/sourcedestination/mysql/db/MysqlDBInterface.java:228-255 | After a write, each table holds exactly its old rows and the rows written for `g`. |
| WriteProperties.AddedGraphOtherSlices | src/main/java/net/sourcedestination/mysql/db/MysqlDBInterface.java:228-255 | A write leaves what the rows say about every other graph id as it was: whether it is stored, its node and edge ids, and all its feature sets. |
| WriteProperties.AddedGraphOwnSlices | src/main/java/net/sourcedestination/mysql/db/MysqlDBInterface.java:232-254 | After a write under an id that owned no rows, that id's rows name exactly g's graph features, node ids, edge ids, node and edge feature sets, and edge endpoints. |
| WriteProperties.AddedGraphEdgeKeys | src/main/java/net/sourcedestination/mysql/db/MysqlDBInterface.java:245-250 | If (graph_id, id) was unique in edge_instances and the new id owned no rows, it is still unique after a write. |
| WriteProperties.AddedGraphRoundTrip | src/main/java/net/sourcedestination/mysql/db/MysqlDBInterface.java:298-356 | Round trip: on tables with unique edge keys, after `g` is written under an id that owned no rows, the graph rebuilt from that id's rows is `g`. |
| WriteProperties.AddedGraphEdgesRoundTrip | src/main/java/net/sourcedestination/mysql/db/MysqlDBInterface.java:337-354 | When the new id owned no rows and the edge keys are unique after the write, the edges rebuilt for that id are g's edges, with endpoints and features. |
| WriteProperties.AddedGraphWellFormed | src/main/java/net/sourcedestination/mysql/db/MysqlDBInterface.java:223-257 | A write under a fresh id keeps all of these: a distinct primary key, unique edge keys, no orphan rows, and count columns equal to the numbers of distinct child ids and features and to the numbers of child rows. |
| WriteProperties.AddedGraphStoreInvariant | src/main/java/net/sourcedestination/mysql/db/MysqlDBInterface.java:228-230 | A write under the counter's value keeps the store invariant with the counter advanced by one. |
| WriteProperties.CounterIds | src/main/java/net/sourcedestination/mysql/db/MysqlDBInterface.java:228-230 | The counter's value is not yet a stored id, and after the INSERT every id is still below the advanced counter. |
| WriteProperties.AddedGraphKeysAndCounts | src/main/java/net/sourcedestination/mysql/db/MysqlDBInterface.java:228-255 | A write under a fresh id keeps the primary key distinct and leaves no orphan row. Each count column still equals the number of distinct ids or features of its owner. |
| WriteProperties.AddedGraphRowCounts | src/main/java/net/sourcedestination/mysql/db/MysqlDBInterface.java:228-255 | If every count column matched its child rows before, and the new id owned no rows, then after a write every count column equals the number of rows holding its owner's children: `nodes` the node_instances rows, `edges` the edge_instances rows, `features` the feature rows. |
| WriteProperties.AddedGraphNodeRowCount | src/main/java/net/sourcedestination/mysql/db/MysqlDBInterface.java:228-244 | If the counts matched before and the new id owned no rows, a graph row's `nodes` column equals its node_instances rows after a write: the number of g's nodes for the new graph, and unchanged for the others. |
| WriteProperties.AddedGraphEdgeRowCount | src/main/java/net/sourcedestination/mysql/db/MysqlDBInterface.java:228-255 | If the counts matched before and the new id owned no rows, a graph row's `edges` column equals its edge_instances rows after a write. |
| WriteProperties.AddedGraphFeatureRowCount | src/main/java/net/sourcedestination/mysql/db/MysqlDBInterface.java:228-235 | If the counts matched before and the new id owned no rows, a graph row's `features` column equals its graph_features rows after a write. |
| WriteProperties.AddedGraphRowCountsOfNode | src/main/java/net/sourcedestination/mysql/db/MysqlDBInterface.java:238-243 | If the counts matched before and the new id owned no rows, a node row's `features` column equals that node's node_features rows after a write. |
| WriteProperties.AddedGraphRowCountsOfEdge | src/main/java/net/sourcedestination/mysql/db/MysqlDBInterface.java:248-254 | If the counts matched before and the new id owned no rows, an edge row's `features` column equals that edge's edge_features rows after a write. |
| WriteProperties.GraphFeatureRowsSize | src/main/java/net/sourcedestination/mysql/db/MysqlDBInterface.java:232-235 | One graph_features row per feature. |
| WriteProperties.NodeFeatureRowsSize | src/main/java/net/sourcedestination/mysql/db/MysqlDBInterface.java:240-243 | One node_features row per feature of the node. |
| WriteProperties.EdgeFeatureRowsSize | src/main/java/net/sourcedestination/mysql/db/MysqlDBInterface.java:251-254 | One edge_features row per feature of the edge. |
| WriteProperties.OneRowPerNodeEdgeAndFeature | src/main/java/net/sourcedestination/mysql/db/MysqlDBInterface.java:223-257 | On tables whose count columns agree with both the distinct ids and the rows, a stored graph's node rows have pairwise different ids, and so do its edge rows. Its graph_features rows name pairwise different features. |
| WriteProperties.OneRowPerNodeFeature | src/main/java/net/sourcedestination/mysql/db/MysqlDBInterface.java:240-243 | Under the same agreement, a node's node_features rows name pairwise different features. |
| WriteProperties.OneRowPerEdgeFeature | src/main/java/net/sourcedestination/mysql/db/MysqlDBInterface.java:251-254 | Under the same agreement, an edge's edge_features rows name pairwise different features. |
| WriteProperties.AddedGraphFrame | src/main/java/net/sourcedestination/mysql/db/MysqlDBInterface.java:223-257 | When the new id owned no rows before, removing the freshly written graph's rows gives back exactly the tables before the write, so the write touched no other row. |
| WriteProperties.JoinCountsAllRows | src/main/java/net/sourcedestination/mysql/db/MysqlDBInterface.java:366-378 | With no orphan rows, the node and edge count joins count every node and edge row. |
| WriteProperties.AddedGraphCounts | src/main/java/net/sourcedestination/mysql/db/MysqlDBInterface.java:360-378 | On well-formed tables, a write under a fresh id adds 1 to the database size, the number of g's nodes to the node count, and the number of g's edges to the edge count. |
| WriteProperties.NodeRowsSize | src/main/java/net/sourcedestination/mysql/db/MysqlDBInterface.java:236-239 | Exactly one node_instances row per node of `g`. |
| WriteProperties.EdgeRowsSize | src/main/java/net/sourcedestination/mysql/db/MysqlDBInterface.java:245-250 | Exactly one edge_instances row per edge of `g`. |
| WriteProperties.GraphFeatureWritten | src/main/java/net/sourcedestination/mysql/db/MysqlDBInterface.java:232-235 | Inserting one more graph feature row extends the written rows by that feature's row. |
| WriteProperties.NodeFeatureWritten | src/main/java/net/sourcedestination/mysql/db/MysqlDBInterface.java:240-243 | Inserting one more node feature row extends the written rows by that feature's row. |
| WriteProperties.EdgeFeatureWritten | src/main/java/net/sourcedestination/mysql/db/MysqlDBInterface.java:251-254 | Inserting one more edge feature row extends the written rows by that feature's row. |
| DeleteProperties.DeletedTablesRemoveAll | src/main/java/net/sourcedestination/mysql/db/MysqlDBInterface.java:262-274 | With no orphan rows, the deletes as issued, with feature rows deleted per listed node and edge id, remove every row of the graph. |
| DeleteProperties.StoredGraphIds | src/main/java/net/sourcedestination/mysql/db/MysqlDBInterface.java:319-354 | With unique edge keys, the node and edge ids of a rebuilt graph are exactly those its node_instances and edge_instances rows list, which are the ids the removal loops visit. |
| DeleteProperties.WithoutGraphHasNoRows | src/main/java/net/sourcedestination/mysql/db/MysqlDBInterface.java:260-275 | After a removal no table holds a row of that graph id, so retrieving it fails. |
| DeleteProperties.WithoutGraphIds | src/main/java/net/sourcedestination/mysql/db/MysqlDBInterface.java:262 | The stored ids lose exactly the removed one. |
| DeleteProperties.WithoutGraphOtherSlices | src/main/java/net/sourcedestination/mysql/db/MysqlDBInterface.java:262-274 | A removal leaves what the rows say about every other graph as it was. |
| DeleteProperties.WithoutGraphKeepsOthers | src/main/java/net/sourcedestination/mysql/db/MysqlDBInterface.java:260-275 | With unique edge keys, every other graph stays stored exactly when it was stored, and reads back exactly as before the removal. |
| DeleteProperties.WithoutGraphKeepsEdges | src/main/java/net/sourcedestination/mysql/db/MysqlDBInterface.java:263-273 | If edge keys were unique, a removal keeps them unique and leaves every other graph's edge map unchanged. |
| DeleteProperties.DistinctIdsCons | src/main/java/net/sourcedestination/mysql/db/MysqlDBInterface.java:23-28 | A table has a distinct primary key exactly when its first id does not recur and the rest is distinct. |
| DeleteProperties.FilterKeepsDistinctIds | src/main/java/net/sourcedestination/mysql/db/MysqlDBInterface.java:262 | Deleting graph_instances rows keeps the primary key distinct. |
| DeleteProperties.DistinctIdsCount | src/main/java/net/sourcedestination/mysql/db/MysqlDBInterface.java:23-28 | With `id` as primary key, there are as many distinct stored ids as graph_instances rows. |
| DeleteProperties.StoredIdHasOneRow | src/main/java/net/sourcedestination/mysql/db/MysqlDBInterface.java:300-302 | With a distinct primary key, a stored id has exactly one graph_instances row. |
| DeleteProperties.WithoutGraphOrphans | src/main/java/net/sourcedestination/mysql/db/MysqlDBInterface.java:260-275 | On tables without orphan rows, a removal leaves none. |
| DeleteProperties.WithoutGraphWellFormed | src/main/java/net/sourcedestination/mysql/db/MysqlDBInterface.java:260-275 | A removal keeps the store invariant. |
| DeleteProperties.WithoutGraphRowCounts | src/main/java/net/sourcedestination/mysql/db/MysqlDBInterface.java:262-274 | If every count column matched its child rows before, then after a removal every remaining count column still equals the number of rows holding its owner's children. |
| DeleteProperties.WithoutGraphCounts | src/main/java/net/sourcedestination/mysql/db/MysqlDBInterface.java:360-378 | On well-formed tables, removing a stored graph lowers the database size by 1, and the node and edge counts by the graph's node and edge rows. |
| StreamProperties.IdsAboveSplit | src/main/java/net/sourcedestination/mysql/db/MysqlDBInterface.java:206-212 | The id `next()` returns is above the position, and the ids above the old position are it plus the ids above it. |
| StreamProperties.IdStreamElements | src/main/java/net/sourcedestination/mysql/db/MysqlDBInterface.java:196-220 | The ids yielded from a position are exactly the stored ids above it. |
| StreamProperties.IdStreamAscending | src/main/java/net/sourcedestination/mysql/db/MysqlDBInterface.java:196-220 | The yielded ids are strictly ascending, hence free of duplicates, and all above the start. |
| StreamProperties.IdStreamLength | src/main/java/net/sourcedestination/mysql/db/MysqlDBInterface.java:196-220 | From a position, one id is yielded per stored id above it. |
| StreamProperties.StreamFromStartYieldsAll | src/main/java/net/sourcedestination/mysql/db/MysqlDBInterface.java:196-220 | From 0, on a store that keeps its invariant, the stream yields every stored graph id, and as many ids as the database size. |
| SearchProperties.GraphLevelHit | src/main/java/net/sourcedestination/mysql/db/MysqlDBInterface.java:383-386 | With unique edge keys and no orphan rows, a matching graph_features row of an id exists exactly when the rebuilt graph has a matching graph-level feature. |
| SearchProperties.EdgeLevelHit | src/main/java/net/sourcedestination/mysql/db/MysqlDBInterface.java:388-391 | With unique edge keys and no orphan rows, a matching edge_features row of an id exists exactly when some rebuilt edge has a matching feature. |
| SearchProperties.NodeLevelHit | src/main/java/net/sourcedestination/mysql/db/MysqlDBInterface.java:393-396 | With unique edge keys and no orphan rows, a matching node_features row of an id exists exactly when some rebuilt node has a matching feature. |
| SearchProperties.FeatureRowsMatchStoredGraph | src/main/java/net/sourcedestination/mysql/db/MysqlDBInterface.java:381-425 | On well-formed tables, a search finds an id exactly when the graph stored under it has a matching feature at graph, node or edge level. |
| SearchProperties.AddedGraphFoundBySearch | src/main/java/net/sourcedestination/mysql/db/MysqlDBInterface.java:381-425 | On well-formed tables, a graph just written under a fresh id is found by a search exactly when it has a matching feature. |

## Left out

- Connection setup, driver loading, `System.exit`, `isConnected` and `disconnect` are I/O against the database driver. Lines 94-178 are not modelled. Connecting without `initialize` to a database that already holds rows is not modelled either: a store always starts from empty tables.
- `queryDB`, `updateDB` and `getQueryResults` convert a JDBC `ResultSet` into maps of strings, and the `synchronized` lock serializes calls; both are left out. The model runs every statement directly on the tables, one operation at a time, with no concurrency.
- The DDL text and the splitting of it into statements are not modelled. Initialization is modelled as "all tables empty, counter at 1". The column lists of the DDL become the row datatypes. The `varchar(256)` limit and the `latin1` character set are not modelled.
- The DDL declares no collation, so the `latin1` default collation applies to the feature columns, and `=` in SQL ignores letter case and trailing spaces there. The searches' filter (`Graphs.FeatureQuery.Matches`) uses exact string equality instead, so a name that differs only in case or trailing spaces is not found by the model but would be by the database.
- SQL text, quoting and escaping are not modelled; each statement is modelled by the filter it is meant to apply. For the searches, the name and value reach the SQL unquoted, so the modelled filter is the evidently intended one: the feature's name (and value) is equal to the given one.
- The DELETE on the nonexistent graph_indices table fails, and its error is swallowed. It is modelled as changing nothing.
- SQL errors are logged and swallowed by the source, which then carries on, so a failure can leave a write half done. The model has no failing statement, so every operation runs to completion. No transactions or rollback are modelled.
- `Integer.parseInt` and the corrupt-data exception path are not modelled: ids and counts are integers in the model.
- `int(11)` columns and Java `int` are 32-bit. Wrap-around of ids, counts and the AUTO_INCREMENT counter is not modelled; all of them are unbounded integers.
- The `GraphFactory` / `ImmutableGraph` / `MutableGraph` library is not part of this model. Graphs are the datatype `Graphs.Graph`, and the `MutableGraph` calls are the builder functions `AddFeature`, `AddNode`, `AddNodeFeature`, `AddEdge` and `AddEdgeFeature`. The model assumes `addNode`/`addEdge` on an id already present start that node or edge afresh.
- The source does not check that an edge's endpoints are nodes of the graph. The model follows the code, so no referential-integrity error is raised on writes.
- Writes are not atomic: a graph is visible while its rows are still being written. The model runs each operation as one step, so no other operation can see the half-written state.
- `Stream` / `Spliterator` wrapping is left out. The searches return a `set<int>` in place of `s.stream()`. `getGraphIDStream` returns the iterator itself.
- The `double` results of `getNodesInDatabase` and `getEdgesInDatabase` are modelled as natural numbers.
- MysqlDB.MysqlDBInterface.GetLastAutoIncrement: the generated key is modelled as that of the last graph_instances INSERT, and it survives every later statement. In the source, `getGeneratedKeys` reads whatever statement last ran on the shared `Statement` object, so any later statement may replace or clear it. That includes an INSERT into another table, a SELECT or a DELETE. Only the call right after the graph_instances INSERT in `addGraph` is modelled.
- MysqlDB.MysqlDBInterface.RetrieveGraph: requires that no two edge_instances rows share a (graph_id, id) key, which the store's own writes guarantee. What the source returns when two rows do share one depends on `MutableGraph.addEdge`, which is not part of this model; that case is not modelled.
- MysqlDB.MysqlDBInterface.AddGraph: requires the store invariant, which the constructor establishes and every writing operation keeps. The same holds for MysqlDB.MysqlDBInterface.DeleteGraph.
- MysqlDB.MysqlDBInterface.DeleteGraph: removes all of a graph's rows only because the store invariant rules out node or edge feature rows whose node or edge has no row. On tables with such rows, the source's per-id feature deletes would leave them behind. `DeletedTables` states that behaviour, and `DeleteProperties.DeletedTablesRemoveAll` shows when it equals full removal.
