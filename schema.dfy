/** The five relational tables (graph_instances, node_instances,
    edge_instances and the three feature tables) as sequences of rows, and the
    queries over them, stated as functions on a snapshot of the tables. */
module Schema {
  import opened Graphs
  import opened Seqs

  // One datatype per table; the fields are the table's columns in order.

  datatype GraphInstanceRow = GraphInstanceRow(id: int, nodes: int, edges: int, features: int)

  datatype NodeInstanceRow = NodeInstanceRow(id: int, graphId: int, features: int)

  datatype EdgeInstanceRow = EdgeInstanceRow(id: int, graphId: int, fromNodeId: int, toNodeId: int, features: int)

  datatype NodeFeatureRow = NodeFeatureRow(graphId: int, nodeId: int, featureName: string, featureValue: string)

  datatype GraphFeatureRow = GraphFeatureRow(graphId: int, featureName: string, featureValue: string)

  datatype EdgeFeatureRow = EdgeFeatureRow(graphId: int, edgeId: int, featureName: string, featureValue: string)

  /** The contents of all tables at one moment. */
  datatype Db = Db(
    graphInstances: seq<GraphInstanceRow>,
    nodeInstances: seq<NodeInstanceRow>,
    edgeInstances: seq<EdgeInstanceRow>,
    nodeFeatures: seq<NodeFeatureRow>,
    graphFeatures: seq<GraphFeatureRow>,
    edgeFeatures: seq<EdgeFeatureRow>)

  /** The tables right after they are (re)created. */
  const EmptyDb := Db([], [], [], [], [], [])

  // ---------------------------------------------------------------------
  // Row selections, named so that every query and every DELETE that
  // filters on them denotes the same filter.

  function GraphRowIs(gid: int): GraphInstanceRow -> bool { (r: GraphInstanceRow) => r.id == gid }
  function GraphRowNotOf(gid: int): GraphInstanceRow -> bool { (r: GraphInstanceRow) => r.id != gid }
  function NodeRowOf(gid: int): NodeInstanceRow -> bool { (r: NodeInstanceRow) => r.graphId == gid }
  function NodeRowNotOf(gid: int): NodeInstanceRow -> bool { (r: NodeInstanceRow) => r.graphId != gid }
  function NodeRowIn(gids: set<int>): NodeInstanceRow -> bool { (r: NodeInstanceRow) => r.graphId in gids }
  function EdgeRowOf(gid: int): EdgeInstanceRow -> bool { (r: EdgeInstanceRow) => r.graphId == gid }
  function EdgeRowNotOf(gid: int): EdgeInstanceRow -> bool { (r: EdgeInstanceRow) => r.graphId != gid }
  function EdgeRowIn(gids: set<int>): EdgeInstanceRow -> bool { (r: EdgeInstanceRow) => r.graphId in gids }
  function GraphFeatureRowNotOf(gid: int): GraphFeatureRow -> bool { (r: GraphFeatureRow) => r.graphId != gid }
  function NodeFeatureRowNotOf(gid: int): NodeFeatureRow -> bool { (r: NodeFeatureRow) => r.graphId != gid }
  function EdgeFeatureRowNotOf(gid: int): EdgeFeatureRow -> bool { (r: EdgeFeatureRow) => r.graphId != gid }

  function GraphFeatureRowOf(gid: int): GraphFeatureRow -> bool { (r: GraphFeatureRow) => r.graphId == gid }

  function NodeFeatureRowOfNode(gid: int, nid: int): NodeFeatureRow -> bool
  {
    (r: NodeFeatureRow) => r.nodeId == nid && r.graphId == gid
  }

  function EdgeFeatureRowOfEdge(gid: int, eid: int): EdgeFeatureRow -> bool
  {
    (r: EdgeFeatureRow) => r.edgeId == eid && r.graphId == gid
  }

  /** Keeps the node feature rows that do not belong to one of the nodes
      `nids` of graph `gid`. */
  function NodeFeatureRowOutside(gid: int, nids: set<int>): NodeFeatureRow -> bool
  {
    (r: NodeFeatureRow) => !(r.graphId == gid && r.nodeId in nids)
  }

  /** Keeps the edge feature rows that do not belong to one of the edges
      `eids` of graph `gid`. */
  function EdgeFeatureRowOutside(gid: int, eids: set<int>): EdgeFeatureRow -> bool
  {
    (r: EdgeFeatureRow) => !(r.graphId == gid && r.edgeId in eids)
  }

  // ---------------------------------------------------------------------
  // What the rows say about one graph.

  /** The ids that have a graph_instances row. */
  function GraphIds(rows: seq<GraphInstanceRow>): set<int>
  {
    set r | r in rows :: r.id
  }

  /** The graph ids strictly greater than `bound`. */
  function IdsAbove(rows: seq<GraphInstanceRow>, bound: int): set<int>
  {
    set r | r in rows && r.id > bound :: r.id
  }

  function NodeIdsOf(rows: seq<NodeInstanceRow>, gid: int): set<int>
  {
    set r | r in rows && r.graphId == gid :: r.id
  }

  function EdgeIdsOf(rows: seq<EdgeInstanceRow>, gid: int): set<int>
  {
    set r | r in rows && r.graphId == gid :: r.id
  }

  function GraphFeatureSet(rows: seq<GraphFeatureRow>, gid: int): set<Feature>
  {
    set r | r in rows && r.graphId == gid :: Feature(r.featureName, r.featureValue)
  }

  function NodeFeatureSet(rows: seq<NodeFeatureRow>, gid: int, nid: int): set<Feature>
  {
    set r | r in rows && r.graphId == gid && r.nodeId == nid :: Feature(r.featureName, r.featureValue)
  }

  function EdgeFeatureSet(rows: seq<EdgeFeatureRow>, gid: int, eid: int): set<Feature>
  {
    set r | r in rows && r.graphId == gid && r.edgeId == eid :: Feature(r.featureName, r.featureValue)
  }

  /** No two different edge rows share a (graph_id, id) key. */
  predicate EdgeKeysUnique(rows: seq<EdgeInstanceRow>)
  {
    forall r1, r2 :: r1 in rows && r2 in rows && r1.graphId == r2.graphId && r1.id == r2.id ==> r1 == r2
  }

  function NodesOf(db: Db, gid: int): map<int, set<Feature>>
  {
    map n | n in NodeIdsOf(db.nodeInstances, gid) :: NodeFeatureSet(db.nodeFeatures, gid, n)
  }

  /** The edges of graph `gid` among `rows`, each with its endpoints and the
      features found for it in `features`. */
  function EdgeMap(rows: seq<EdgeInstanceRow>, gid: int, features: seq<EdgeFeatureRow>): map<int, Edge>
    requires EdgeKeysUnique(rows)
  {
    map r | r in rows && r.graphId == gid :: r.id := Edge(r.fromNodeId, r.toNodeId, EdgeFeatureSet(features, gid, r.id))
  }

  /** The graph that the rows for `gid` describe: what retrieval rebuilds. */
  function StoredGraph(db: Db, gid: int): Graph
    requires EdgeKeysUnique(db.edgeInstances)
  {
    Graph(GraphFeatureSet(db.graphFeatures, gid), NodesOf(db, gid), EdgeMap(db.edgeInstances, gid, db.edgeFeatures))
  }

  // ---------------------------------------------------------------------
  // The rows that writing graph `g` under id `gid` produces.

  function GraphInstanceRowFor(gid: int, g: Graph): GraphInstanceRow
  {
    GraphInstanceRow(gid, |g.nodes|, |g.edges|, |g.features|)
  }

  function GraphFeatureRowsFor(gid: int, fs: set<Feature>): set<GraphFeatureRow>
  {
    set f | f in fs :: GraphFeatureRow(gid, f.name, f.value)
  }

  /** The node_instances rows of the nodes `nids` of `g`. */
  function NodeInstanceRowsFor(gid: int, g: Graph, nids: set<int>): set<NodeInstanceRow>
  {
    set n | n in nids && n in g.nodes :: NodeInstanceRow(n, gid, |g.nodes[n]|)
  }

  /** The node_features rows of one node. */
  function NodeFeatureRowsFor(gid: int, nid: int, fs: set<Feature>): set<NodeFeatureRow>
  {
    set f | f in fs :: NodeFeatureRow(gid, nid, f.name, f.value)
  }

  /** The node_features rows of the nodes `nids` of `g`. */
  function NodeFeatureRowsOfNodes(gid: int, g: Graph, nids: set<int>): set<NodeFeatureRow>
  {
    set n, f | n in nids && n in g.nodes && f in g.nodes[n] :: NodeFeatureRow(gid, n, f.name, f.value)
  }

  function EdgeInstanceRowsFor(gid: int, g: Graph, eids: set<int>): set<EdgeInstanceRow>
  {
    set e | e in eids && e in g.edges ::
      EdgeInstanceRow(e, gid, g.edges[e].source, g.edges[e].target, |g.edges[e].features|)
  }

  function EdgeFeatureRowsFor(gid: int, eid: int, fs: set<Feature>): set<EdgeFeatureRow>
  {
    set f | f in fs :: EdgeFeatureRow(gid, eid, f.name, f.value)
  }

  function EdgeFeatureRowsOfEdges(gid: int, g: Graph, eids: set<int>): set<EdgeFeatureRow>
  {
    set e, f | e in eids && e in g.edges && f in g.edges[e].features :: EdgeFeatureRow(gid, e, f.name, f.value)
  }

  /** `after` is `before` with graph `g` written under id `gid`: one
      graph_instances row appended, and exactly one row per feature, node and
      edge appended to the other tables in some order. */
  ghost predicate AddedGraph(before: Db, after: Db, gid: int, g: Graph)
  {
    after.graphInstances == before.graphInstances + [GraphInstanceRowFor(gid, g)] &&
    Appended(before.graphFeatures, after.graphFeatures, GraphFeatureRowsFor(gid, g.features)) &&
    Appended(before.nodeInstances, after.nodeInstances, NodeInstanceRowsFor(gid, g, g.nodes.Keys)) &&
    Appended(before.nodeFeatures, after.nodeFeatures, NodeFeatureRowsOfNodes(gid, g, g.nodes.Keys)) &&
    Appended(before.edgeInstances, after.edgeInstances, EdgeInstanceRowsFor(gid, g, g.edges.Keys)) &&
    Appended(before.edgeFeatures, after.edgeFeatures, EdgeFeatureRowsOfEdges(gid, g, g.edges.Keys))
  }

  /** The tables with every row of graph `gid` removed. */
  function WithoutGraph(db: Db, gid: int): Db
  {
    Db(Filter(db.graphInstances, GraphRowNotOf(gid)),
       Filter(db.nodeInstances, NodeRowNotOf(gid)),
       Filter(db.edgeInstances, EdgeRowNotOf(gid)),
       Filter(db.nodeFeatures, NodeFeatureRowNotOf(gid)),
       Filter(db.graphFeatures, GraphFeatureRowNotOf(gid)),
       Filter(db.edgeFeatures, EdgeFeatureRowNotOf(gid)))
  }

  /** The tables after the DELETE statements of a graph removal as they are
      issued: instance and graph feature rows by graph id, node and edge
      feature rows only for the node and edge ids that the graph's own
      node_instances and edge_instances rows list. */
  function DeletedTables(db: Db, gid: int): Db
  {
    Db(Filter(db.graphInstances, GraphRowNotOf(gid)),
       Filter(db.nodeInstances, NodeRowNotOf(gid)),
       Filter(db.edgeInstances, EdgeRowNotOf(gid)),
       Filter(db.nodeFeatures, NodeFeatureRowOutside(gid, NodeIdsOf(db.nodeInstances, gid))),
       Filter(db.graphFeatures, GraphFeatureRowNotOf(gid)),
       Filter(db.edgeFeatures, EdgeFeatureRowOutside(gid, EdgeIdsOf(db.edgeInstances, gid))))
  }

  /** No table holds a row of graph `gid`. */
  predicate NoRowsOf(db: Db, gid: int)
  {
    (forall r :: r in db.graphInstances ==> r.id != gid) &&
    (forall r :: r in db.nodeInstances ==> r.graphId != gid) &&
    (forall r :: r in db.edgeInstances ==> r.graphId != gid) &&
    (forall r :: r in db.nodeFeatures ==> r.graphId != gid) &&
    (forall r :: r in db.graphFeatures ==> r.graphId != gid) &&
    (forall r :: r in db.edgeFeatures ==> r.graphId != gid)
  }

  // ---------------------------------------------------------------------
  // Aggregates and the id iterator's query.

  /** SELECT COUNT(*) FROM graph_instances */
  function DatabaseSize(db: Db): nat
  {
    |db.graphInstances|
  }

  /** SELECT COUNT(*) FROM graph_instances gi, node_instances ni WHERE
      gi.id = ni.graph_id; with `id` the primary key of graph_instances, each
      node row joins at most one graph row. */
  function NodesInDatabase(db: Db): nat
  {
    |Filter(db.nodeInstances, NodeRowIn(GraphIds(db.graphInstances)))|
  }

  /** The same count over edge_instances. */
  function EdgesInDatabase(db: Db): nat
  {
    |Filter(db.edgeInstances, EdgeRowIn(GraphIds(db.graphInstances)))|
  }

  /** SELECT id FROM graph_instances WHERE id > bound ORDER BY id LIMIT 1:
      the least stored id above `bound`, if there is one. */
  function LeastIdAbove(rows: seq<GraphInstanceRow>, bound: int): (r: Option<int>)
    ensures r.None? <==> IdsAbove(rows, bound) == {}
    ensures r.Some? ==> r.value in IdsAbove(rows, bound)
    ensures r.Some? ==> forall x :: x in IdsAbove(rows, bound) ==> r.value <= x
  {
    if rows == [] then None
    else
      var rest := LeastIdAbove(rows[1..], bound);
      assert IdsAbove(rows, bound) == IdsAbove(rows[1..], bound) + (if rows[0].id > bound then {rows[0].id} else {}) by {
        assert forall x :: x in rows <==> x == rows[0] || x in rows[1..];
      }
      if rows[0].id <= bound then rest
      else if rest.Some? && rest.value < rows[0].id then rest
      else Some(rows[0].id)
  }

  /** The ids an iterator positioned at `from` yields, one `next()` after
      another, while the table does not change. */
  function IdStream(rows: seq<GraphInstanceRow>, from: int): seq<int>
    decreases |IdsAbove(rows, from)|
  {
    match LeastIdAbove(rows, from)
    case None => []
    case Some(m) =>
      var rest, all := IdsAbove(rows, m), IdsAbove(rows, from);
      assert rest <= all && m in all - rest;
      assert all == rest + (all - rest);
      [m] + IdStream(rows, m)
  }

  // ---------------------------------------------------------------------
  // The feature searches.

  /** Some graph-, edge- or node-level feature row of graph `gid` matches `q`. */
  predicate HasFeatureRow(db: Db, gid: int, q: FeatureQuery)
  {
    (exists r :: r in db.graphFeatures && r.graphId == gid && q.Matches(r.featureName, r.featureValue)) ||
    (exists r :: r in db.edgeFeatures && r.graphId == gid && q.Matches(r.featureName, r.featureValue)) ||
    (exists r :: r in db.nodeFeatures && r.graphId == gid && q.Matches(r.featureName, r.featureValue))
  }

  /** The rows of a search's join: feature rows matching `q` whose graph id
      has a graph_instances row among `ids`. */
  function GraphFeatureHit(ids: set<int>, q: FeatureQuery): GraphFeatureRow -> bool
  {
    (r: GraphFeatureRow) => r.graphId in ids && q.Matches(r.featureName, r.featureValue)
  }

  function EdgeFeatureHit(ids: set<int>, q: FeatureQuery): EdgeFeatureRow -> bool
  {
    (r: EdgeFeatureRow) => r.graphId in ids && q.Matches(r.featureName, r.featureValue)
  }

  function NodeFeatureHit(ids: set<int>, q: FeatureQuery): NodeFeatureRow -> bool
  {
    (r: NodeFeatureRow) => r.graphId in ids && q.Matches(r.featureName, r.featureValue)
  }

  // ---------------------------------------------------------------------
  // The invariant the interface's own writes maintain.

  /** `id` is the primary key of graph_instances. */
  predicate DistinctIds(rows: seq<GraphInstanceRow>)
  {
    forall i, j :: 0 <= i < |rows| && 0 <= j < |rows| && rows[i].id == rows[j].id ==> i == j
  }

  /** Every row belongs to a stored graph, and every feature row to a stored
      node or edge of that graph. */
  predicate NoOrphans(db: Db)
  {
    var ids := GraphIds(db.graphInstances);
    (forall r :: r in db.nodeInstances ==> r.graphId in ids) &&
    (forall r :: r in db.edgeInstances ==> r.graphId in ids) &&
    (forall r :: r in db.graphFeatures ==> r.graphId in ids) &&
    (forall r :: r in db.nodeFeatures ==> r.graphId in ids && r.nodeId in NodeIdsOf(db.nodeInstances, r.graphId)) &&
    (forall r :: r in db.edgeFeatures ==> r.graphId in ids && r.edgeId in EdgeIdsOf(db.edgeInstances, r.graphId))
  }

  /** The count columns equal the number of distinct node ids, edge ids and
      features stored for their owner. */
  predicate CountsConsistent(db: Db)
  {
    (forall r :: r in db.graphInstances ==>
       r.nodes == |NodeIdsOf(db.nodeInstances, r.id)| &&
       r.edges == |EdgeIdsOf(db.edgeInstances, r.id)| &&
       r.features == |GraphFeatureSet(db.graphFeatures, r.id)|) &&
    (forall r :: r in db.nodeInstances ==> r.features == |NodeFeatureSet(db.nodeFeatures, r.graphId, r.id)|) &&
    (forall r :: r in db.edgeInstances ==> r.features == |EdgeFeatureSet(db.edgeFeatures, r.graphId, r.id)|)
  }

  /** The count columns also equal the number of rows that hold their
      owner's children: one node_instances or edge_instances row per node or
      edge, one feature row per feature. */
  predicate RowCountsMatch(db: Db)
  {
    (forall r :: r in db.graphInstances ==>
       r.nodes == |Filter(db.nodeInstances, NodeRowOf(r.id))| &&
       r.edges == |Filter(db.edgeInstances, EdgeRowOf(r.id))| &&
       r.features == |Filter(db.graphFeatures, GraphFeatureRowOf(r.id))|) &&
    (forall r :: r in db.nodeInstances ==> r.features == |Filter(db.nodeFeatures, NodeFeatureRowOfNode(r.graphId, r.id))|) &&
    (forall r :: r in db.edgeInstances ==> r.features == |Filter(db.edgeFeatures, EdgeFeatureRowOfEdge(r.graphId, r.id))|)
  }

  predicate WellFormed(db: Db)
  {
    DistinctIds(db.graphInstances) && EdgeKeysUnique(db.edgeInstances) && NoOrphans(db) &&
    CountsConsistent(db) && RowCountsMatch(db)
  }

  /** The tables are well formed and every stored id was issued by the
      auto-increment counter `next`, which starts at 1. */
  predicate StoreInvariant(db: Db, next: int)
  {
    WellFormed(db) && 1 <= next && forall r :: r in db.graphInstances ==> 1 <= r.id < next
  }
}
