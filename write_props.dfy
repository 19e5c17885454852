/** What writing a graph does to the tables: which rows appear, that the
    graph can be read back unchanged, that the rows of other graphs stay as
    they were, that the store invariant and the counts are kept. */
module WriteProperties {
  import opened Graphs
  import opened Seqs
  import opened Schema

  /** A graph id without a graph_instances row owns no row in any table. */
  lemma FreshIdHasNoRows(db: Db, gid: int)
    requires NoOrphans(db) && gid !in GraphIds(db.graphInstances)
    ensures NoRowsOf(db, gid)
  {
  }

  /** After a write, each table holds its old rows and the written ones. */
  lemma AddedGraphMembers(db: Db, db': Db, gid: int, g: Graph)
    requires AddedGraph(db, db', gid, g)
    ensures forall r :: r in db'.graphInstances <==> r in db.graphInstances || r == GraphInstanceRowFor(gid, g)
    ensures forall r :: r in db'.graphFeatures <==> r in db.graphFeatures || r in GraphFeatureRowsFor(gid, g.features)
    ensures forall r :: r in db'.nodeInstances <==> r in db.nodeInstances || r in NodeInstanceRowsFor(gid, g, g.nodes.Keys)
    ensures forall r :: r in db'.nodeFeatures <==> r in db.nodeFeatures || r in NodeFeatureRowsOfNodes(gid, g, g.nodes.Keys)
    ensures forall r :: r in db'.edgeInstances <==> r in db.edgeInstances || r in EdgeInstanceRowsFor(gid, g, g.edges.Keys)
    ensures forall r :: r in db'.edgeFeatures <==> r in db.edgeFeatures || r in EdgeFeatureRowsOfEdges(gid, g, g.edges.Keys)
  {
    AppendedMembers(db.graphFeatures, db'.graphFeatures, GraphFeatureRowsFor(gid, g.features));
    AppendedMembers(db.nodeInstances, db'.nodeInstances, NodeInstanceRowsFor(gid, g, g.nodes.Keys));
    AppendedMembers(db.nodeFeatures, db'.nodeFeatures, NodeFeatureRowsOfNodes(gid, g, g.nodes.Keys));
    AppendedMembers(db.edgeInstances, db'.edgeInstances, EdgeInstanceRowsFor(gid, g, g.edges.Keys));
    AppendedMembers(db.edgeFeatures, db'.edgeFeatures, EdgeFeatureRowsOfEdges(gid, g, g.edges.Keys));
  }

  /** Writing graph `gid` leaves what the rows say about every other graph
      as it was. */
  lemma AddedGraphOtherSlices(db: Db, db': Db, gid: int, g: Graph, h: int)
    requires AddedGraph(db, db', gid, g) && h != gid
    ensures h in GraphIds(db'.graphInstances) <==> h in GraphIds(db.graphInstances)
    ensures NodeIdsOf(db'.nodeInstances, h) == NodeIdsOf(db.nodeInstances, h)
    ensures EdgeIdsOf(db'.edgeInstances, h) == EdgeIdsOf(db.edgeInstances, h)
    ensures GraphFeatureSet(db'.graphFeatures, h) == GraphFeatureSet(db.graphFeatures, h)
    ensures forall n :: NodeFeatureSet(db'.nodeFeatures, h, n) == NodeFeatureSet(db.nodeFeatures, h, n)
    ensures forall e :: EdgeFeatureSet(db'.edgeFeatures, h, e) == EdgeFeatureSet(db.edgeFeatures, h, e)
  {
    AddedGraphMembers(db, db', gid, g);
    assert h in GraphIds(db'.graphInstances) ==> h in GraphIds(db.graphInstances) by {
      if h in GraphIds(db'.graphInstances) {
        var r :| r in db'.graphInstances && r.id == h;
        assert r in db.graphInstances;
      }
    }
  }

  /** After writing `g` under a fresh id, the rows of that id describe
      exactly `g`. */
  lemma AddedGraphOwnSlices(db: Db, db': Db, gid: int, g: Graph)
    requires AddedGraph(db, db', gid, g) && NoRowsOf(db, gid)
    ensures gid in GraphIds(db'.graphInstances)
    ensures GraphFeatureSet(db'.graphFeatures, gid) == g.features
    ensures NodeIdsOf(db'.nodeInstances, gid) == g.nodes.Keys
    ensures EdgeIdsOf(db'.edgeInstances, gid) == g.edges.Keys
    ensures forall n :: n in g.nodes ==> NodeFeatureSet(db'.nodeFeatures, gid, n) == g.nodes[n]
    ensures forall e :: e in g.edges ==> EdgeFeatureSet(db'.edgeFeatures, gid, e) == g.edges[e].features
    ensures forall r :: r in db'.edgeInstances && r.graphId == gid ==>
      r.id in g.edges && r.fromNodeId == g.edges[r.id].source && r.toNodeId == g.edges[r.id].target
  {
    AddedGraphMembers(db, db', gid, g);
    assert GraphInstanceRowFor(gid, g) in db'.graphInstances;
    forall f | f in g.features
      ensures f in GraphFeatureSet(db'.graphFeatures, gid)
    {
      var r := GraphFeatureRow(gid, f.name, f.value);
      assert r in GraphFeatureRowsFor(gid, g.features);
    }
    forall n | n in g.nodes
      ensures n in NodeIdsOf(db'.nodeInstances, gid)
    {
      var r := NodeInstanceRow(n, gid, |g.nodes[n]|);
      assert r in NodeInstanceRowsFor(gid, g, g.nodes.Keys);
    }
    forall e | e in g.edges
      ensures e in EdgeIdsOf(db'.edgeInstances, gid)
    {
      var r := EdgeInstanceRow(e, gid, g.edges[e].source, g.edges[e].target, |g.edges[e].features|);
      assert r in EdgeInstanceRowsFor(gid, g, g.edges.Keys);
    }
    forall n | n in g.nodes
      ensures NodeFeatureSet(db'.nodeFeatures, gid, n) == g.nodes[n]
    {
      forall f | f in g.nodes[n]
        ensures f in NodeFeatureSet(db'.nodeFeatures, gid, n)
      {
        var r := NodeFeatureRow(gid, n, f.name, f.value);
        assert r in NodeFeatureRowsOfNodes(gid, g, g.nodes.Keys);
      }
    }
    forall e | e in g.edges
      ensures EdgeFeatureSet(db'.edgeFeatures, gid, e) == g.edges[e].features
    {
      forall f | f in g.edges[e].features
        ensures f in EdgeFeatureSet(db'.edgeFeatures, gid, e)
      {
        var r := EdgeFeatureRow(gid, e, f.name, f.value);
        assert r in EdgeFeatureRowsOfEdges(gid, g, g.edges.Keys);
      }
    }
  }

  /** Edge keys stay unique when a graph is written under a fresh id. */
  lemma AddedGraphEdgeKeys(db: Db, db': Db, gid: int, g: Graph)
    requires AddedGraph(db, db', gid, g) && NoRowsOf(db, gid) && EdgeKeysUnique(db.edgeInstances)
    ensures EdgeKeysUnique(db'.edgeInstances)
  {
    AddedGraphMembers(db, db', gid, g);
  }

  /** Round trip: reading back the rows of a fresh id just written with `g`
      yields `g`, graph, node and edge features included. */
  lemma AddedGraphRoundTrip(db: Db, db': Db, gid: int, g: Graph)
    requires AddedGraph(db, db', gid, g) && NoRowsOf(db, gid) && EdgeKeysUnique(db.edgeInstances)
    ensures EdgeKeysUnique(db'.edgeInstances)
    ensures StoredGraph(db', gid) == g
  {
    AddedGraphEdgeKeys(db, db', gid, g);
    AddedGraphOwnSlices(db, db', gid, g);
    AddedGraphMembers(db, db', gid, g);
    assert StoredGraph(db', gid).nodes == g.nodes;
    AddedGraphEdgesRoundTrip(db, db', gid, g);
  }

  /** The edge map rebuilt for a fresh id just written with `g` is g's. */
  lemma AddedGraphEdgesRoundTrip(db: Db, db': Db, gid: int, g: Graph)
    requires AddedGraph(db, db', gid, g) && NoRowsOf(db, gid) && EdgeKeysUnique(db'.edgeInstances)
    ensures EdgeMap(db'.edgeInstances, gid, db'.edgeFeatures) == g.edges
  {
    AddedGraphOwnSlices(db, db', gid, g);
    AddedGraphMembers(db, db', gid, g);
    var edges := EdgeMap(db'.edgeInstances, gid, db'.edgeFeatures);
    forall e | e in g.edges
      ensures e in edges && edges[e] == g.edges[e]
    {
      var r := EdgeInstanceRow(e, gid, g.edges[e].source, g.edges[e].target, |g.edges[e].features|);
      assert r in EdgeInstanceRowsFor(gid, g, g.edges.Keys);
      assert r in db'.edgeInstances && r.graphId == gid;
    }
  }

  /** Writing a graph under a fresh id keeps the store invariant. */
  lemma AddedGraphWellFormed(db: Db, db': Db, gid: int, g: Graph)
    requires WellFormed(db) && gid !in GraphIds(db.graphInstances) && AddedGraph(db, db', gid, g)
    ensures WellFormed(db')
  {
    FreshIdHasNoRows(db, gid);
    AddedGraphEdgeKeys(db, db', gid, g);
    AddedGraphRowCounts(db, db', gid, g);
    AddedGraphKeysAndCounts(db, db', gid, g);
  }

  /** A write under the counter's value keeps the store invariant, with the
      counter moved on by one. */
  lemma AddedGraphStoreInvariant(db: Db, db': Db, next: int, g: Graph)
    requires StoreInvariant(db, next) && AddedGraph(db, db', next, g)
    ensures StoreInvariant(db', next + 1)
  {
    CounterIds(db.graphInstances, next, GraphInstanceRowFor(next, g));
    AddedGraphWellFormed(db, db', next, g);
  }

  /** Appending the row of the counter's value to ids issued below the
      counter: the value was not stored yet, and every id stays below the
      advanced counter. */
  lemma CounterIds(rows: seq<GraphInstanceRow>, next: int, row: GraphInstanceRow)
    requires forall r :: r in rows ==> 1 <= r.id < next
    requires row.id == next && 1 <= next
    ensures next !in GraphIds(rows)
    ensures forall r :: r in rows + [row] ==> 1 <= r.id < next + 1
  {
  }

  /** A write under a fresh id keeps the primary key distinct, leaves no
      orphan row and keeps the count columns equal to the distinct ids and
      features stored for their owner. */
  lemma AddedGraphKeysAndCounts(db: Db, db': Db, gid: int, g: Graph)
    requires DistinctIds(db.graphInstances) && NoOrphans(db) && CountsConsistent(db)
    requires gid !in GraphIds(db.graphInstances) && AddedGraph(db, db', gid, g)
    ensures DistinctIds(db'.graphInstances) && NoOrphans(db') && CountsConsistent(db')
  {
    FreshIdHasNoRows(db, gid);
    AddedGraphMembers(db, db', gid, g);
    AddedGraphOwnSlices(db, db', gid, g);
    forall h | h != gid
      ensures h in GraphIds(db'.graphInstances) <==> h in GraphIds(db.graphInstances)
      ensures NodeIdsOf(db'.nodeInstances, h) == NodeIdsOf(db.nodeInstances, h)
      ensures EdgeIdsOf(db'.edgeInstances, h) == EdgeIdsOf(db.edgeInstances, h)
      ensures GraphFeatureSet(db'.graphFeatures, h) == GraphFeatureSet(db.graphFeatures, h)
      ensures forall n :: NodeFeatureSet(db'.nodeFeatures, h, n) == NodeFeatureSet(db.nodeFeatures, h, n)
      ensures forall e :: EdgeFeatureSet(db'.edgeFeatures, h, e) == EdgeFeatureSet(db.edgeFeatures, h, e)
    {
      AddedGraphOtherSlices(db, db', gid, g, h);
    }
    var row := GraphInstanceRowFor(gid, g);
    assert DistinctIds(db'.graphInstances) by {
      var s := db.graphInstances;
      assert db'.graphInstances == s + [row];
      assert forall i :: 0 <= i < |s| ==> s[i] in s;
    }
    assert NoOrphans(db') by {
      var ids' := GraphIds(db'.graphInstances);
      assert GraphIds(db.graphInstances) <= ids';
      forall r | r in db'.nodeFeatures
        ensures r.graphId in ids' && r.nodeId in NodeIdsOf(db'.nodeInstances, r.graphId)
      {
        if r in db.nodeFeatures {
          assert r.graphId != gid;
        }
      }
      forall r | r in db'.edgeFeatures
        ensures r.graphId in ids' && r.edgeId in EdgeIdsOf(db'.edgeInstances, r.graphId)
      {
        if r in db.edgeFeatures {
          assert r.graphId != gid;
        }
      }
    }
    assert CountsConsistent(db') by {
      forall r | r in db'.graphInstances
        ensures r.nodes == |NodeIdsOf(db'.nodeInstances, r.id)|
        ensures r.edges == |EdgeIdsOf(db'.edgeInstances, r.id)|
        ensures r.features == |GraphFeatureSet(db'.graphFeatures, r.id)|
      {
        if r in db.graphInstances {
          assert r.id != gid;
        }
      }
      forall r | r in db'.nodeInstances
        ensures r.features == |NodeFeatureSet(db'.nodeFeatures, r.graphId, r.id)|
      {
        if r in db.nodeInstances {
          assert r.graphId != gid;
        }
      }
      forall r | r in db'.edgeInstances
        ensures r.features == |EdgeFeatureSet(db'.edgeFeatures, r.graphId, r.id)|
      {
        if r in db.edgeInstances {
          assert r.graphId != gid;
        }
      }
    }
  }

  /** Writing under a fresh id keeps every count column equal to the number
      of rows that hold its owner's children. */
  lemma AddedGraphRowCounts(db: Db, db': Db, gid: int, g: Graph)
    requires RowCountsMatch(db) && NoRowsOf(db, gid) && AddedGraph(db, db', gid, g)
    ensures RowCountsMatch(db')
  {
    forall r | r in db'.graphInstances
      ensures r.nodes == |Filter(db'.nodeInstances, NodeRowOf(r.id))|
      ensures r.edges == |Filter(db'.edgeInstances, EdgeRowOf(r.id))|
      ensures r.features == |Filter(db'.graphFeatures, GraphFeatureRowOf(r.id))|
    {
      AddedGraphNodeRowCount(db, db', gid, g, r);
      AddedGraphEdgeRowCount(db, db', gid, g, r);
      AddedGraphFeatureRowCount(db, db', gid, g, r);
    }
    forall r | r in db'.nodeInstances
      ensures r.features == |Filter(db'.nodeFeatures, NodeFeatureRowOfNode(r.graphId, r.id))|
    {
      AddedGraphRowCountsOfNode(db, db', gid, g, r);
    }
    forall r | r in db'.edgeInstances
      ensures r.features == |Filter(db'.edgeFeatures, EdgeFeatureRowOfEdge(r.graphId, r.id))|
    {
      AddedGraphRowCountsOfEdge(db, db', gid, g, r);
    }
  }

  /** The node count of one graph_instances row after a write. */
  lemma AddedGraphNodeRowCount(db: Db, db': Db, gid: int, g: Graph, r: GraphInstanceRow)
    requires RowCountsMatch(db) && NoRowsOf(db, gid) && AddedGraph(db, db', gid, g) && r in db'.graphInstances
    ensures r.nodes == |Filter(db'.nodeInstances, NodeRowOf(r.id))|
  {
    var rows := NodeInstanceRowsFor(gid, g, g.nodes.Keys);
    var kept := set x | x in rows && x.graphId == r.id;
    FilterAppendedSize(db.nodeInstances, db'.nodeInstances, rows, NodeRowOf(r.id), kept);
    if r in db.graphInstances {
      assert kept == {};
    } else {
      assert r == GraphInstanceRowFor(gid, g);
      FilterDropsAll(db.nodeInstances, NodeRowOf(gid));
      assert kept == rows;
      NodeRowsSize(gid, g);
    }
  }

  /** The edge count of one graph_instances row after a write. */
  lemma AddedGraphEdgeRowCount(db: Db, db': Db, gid: int, g: Graph, r: GraphInstanceRow)
    requires RowCountsMatch(db) && NoRowsOf(db, gid) && AddedGraph(db, db', gid, g) && r in db'.graphInstances
    ensures r.edges == |Filter(db'.edgeInstances, EdgeRowOf(r.id))|
  {
    var rows := EdgeInstanceRowsFor(gid, g, g.edges.Keys);
    var kept := set x | x in rows && x.graphId == r.id;
    FilterAppendedSize(db.edgeInstances, db'.edgeInstances, rows, EdgeRowOf(r.id), kept);
    if r in db.graphInstances {
      assert kept == {};
    } else {
      assert r == GraphInstanceRowFor(gid, g);
      FilterDropsAll(db.edgeInstances, EdgeRowOf(gid));
      assert kept == rows;
      EdgeRowsSize(gid, g);
    }
  }

  /** The feature count of one graph_instances row after a write. */
  lemma AddedGraphFeatureRowCount(db: Db, db': Db, gid: int, g: Graph, r: GraphInstanceRow)
    requires RowCountsMatch(db) && NoRowsOf(db, gid) && AddedGraph(db, db', gid, g) && r in db'.graphInstances
    ensures r.features == |Filter(db'.graphFeatures, GraphFeatureRowOf(r.id))|
  {
    var rows := GraphFeatureRowsFor(gid, g.features);
    var kept := set x | x in rows && x.graphId == r.id;
    FilterAppendedSize(db.graphFeatures, db'.graphFeatures, rows, GraphFeatureRowOf(r.id), kept);
    if r in db.graphInstances {
      assert kept == {};
    } else {
      assert r == GraphInstanceRowFor(gid, g);
      FilterDropsAll(db.graphFeatures, GraphFeatureRowOf(gid));
      assert kept == rows;
      GraphFeatureRowsSize(gid, g.features);
    }
  }

  /** The feature count of one node_instances row after a write. */
  lemma AddedGraphRowCountsOfNode(db: Db, db': Db, gid: int, g: Graph, r: NodeInstanceRow)
    requires RowCountsMatch(db) && NoRowsOf(db, gid) && AddedGraph(db, db', gid, g) && r in db'.nodeInstances
    ensures r.features == |Filter(db'.nodeFeatures, NodeFeatureRowOfNode(r.graphId, r.id))|
  {
    AppendedMembers(db.nodeInstances, db'.nodeInstances, NodeInstanceRowsFor(gid, g, g.nodes.Keys));
    var rows, keep := NodeFeatureRowsOfNodes(gid, g, g.nodes.Keys), NodeFeatureRowOfNode(r.graphId, r.id);
    var kept := set x | x in rows && keep(x);
    FilterAppendedSize(db.nodeFeatures, db'.nodeFeatures, rows, keep, kept);
    if r in db.nodeInstances {
      assert r.graphId != gid;
      assert kept == {};
    } else {
      var n := r.id;
      assert n in g.nodes && r == NodeInstanceRow(n, gid, |g.nodes[n]|);
      FilterDropsAll(db.nodeFeatures, keep);
      assert kept == NodeFeatureRowsFor(gid, n, g.nodes[n]);
      NodeFeatureRowsSize(gid, n, g.nodes[n]);
    }
  }

  /** The feature count of one edge_instances row after a write. */
  lemma AddedGraphRowCountsOfEdge(db: Db, db': Db, gid: int, g: Graph, r: EdgeInstanceRow)
    requires RowCountsMatch(db) && NoRowsOf(db, gid) && AddedGraph(db, db', gid, g) && r in db'.edgeInstances
    ensures r.features == |Filter(db'.edgeFeatures, EdgeFeatureRowOfEdge(r.graphId, r.id))|
  {
    AppendedMembers(db.edgeInstances, db'.edgeInstances, EdgeInstanceRowsFor(gid, g, g.edges.Keys));
    var rows, keep := EdgeFeatureRowsOfEdges(gid, g, g.edges.Keys), EdgeFeatureRowOfEdge(r.graphId, r.id);
    var kept := set x | x in rows && keep(x);
    FilterAppendedSize(db.edgeFeatures, db'.edgeFeatures, rows, keep, kept);
    if r in db.edgeInstances {
      assert r.graphId != gid;
      assert kept == {};
    } else {
      var e := r.id;
      assert e in g.edges && r == EdgeInstanceRow(e, gid, g.edges[e].source, g.edges[e].target, |g.edges[e].features|);
      FilterDropsAll(db.edgeFeatures, keep);
      assert kept == EdgeFeatureRowsFor(gid, e, g.edges[e].features);
      EdgeFeatureRowsSize(gid, e, g.edges[e].features);
    }
  }

  /** Removing the rows of the freshly written graph gives back exactly the
      tables as they were before the write: the write touched no row of any
      other graph. */
  lemma AddedGraphFrame(db: Db, db': Db, gid: int, g: Graph)
    requires AddedGraph(db, db', gid, g) && NoRowsOf(db, gid)
    ensures WithoutGraph(db', gid) == db
  {
    AppendedOne(db.graphInstances, GraphInstanceRowFor(gid, g));
    FilterAppendedAway(db.graphInstances, db'.graphInstances, {GraphInstanceRowFor(gid, g)}, GraphRowNotOf(gid));
    FilterAppendedAway(db.graphFeatures, db'.graphFeatures, GraphFeatureRowsFor(gid, g.features), GraphFeatureRowNotOf(gid));
    FilterAppendedAway(db.nodeInstances, db'.nodeInstances, NodeInstanceRowsFor(gid, g, g.nodes.Keys), NodeRowNotOf(gid));
    FilterAppendedAway(db.nodeFeatures, db'.nodeFeatures, NodeFeatureRowsOfNodes(gid, g, g.nodes.Keys), NodeFeatureRowNotOf(gid));
    FilterAppendedAway(db.edgeInstances, db'.edgeInstances, EdgeInstanceRowsFor(gid, g, g.edges.Keys), EdgeRowNotOf(gid));
    FilterAppendedAway(db.edgeFeatures, db'.edgeFeatures, EdgeFeatureRowsOfEdges(gid, g, g.edges.Keys), EdgeFeatureRowNotOf(gid));
  }

  /** A filter that keeps every old row and drops every appended one undoes
      the appending. */
  lemma FilterAppendedAway<T(!new)>(before: seq<T>, after: seq<T>, rows: set<T>, keep: T -> bool)
    requires Appended(before, after, rows)
    requires forall x :: x in before ==> keep(x)
    requires forall x :: x in rows ==> !keep(x)
    ensures Filter(after, keep) == before
  {
    AppendedMembers(before, after, rows);
    var added := after[|before|..];
    FilterConcat(before, added, keep);
    FilterKeepsAll(before, keep);
    FilterDropsAll(added, keep);
  }

  /** With no orphan rows, the joins of the node and edge counts lose no row. */
  lemma JoinCountsAllRows(db: Db)
    ensures NoOrphans(db) ==> NodesInDatabase(db) == |db.nodeInstances|
    ensures NoOrphans(db) ==> EdgesInDatabase(db) == |db.edgeInstances|
  {
    if NoOrphans(db) {
      FilterKeepsAll(db.nodeInstances, NodeRowIn(GraphIds(db.graphInstances)));
      FilterKeepsAll(db.edgeInstances, EdgeRowIn(GraphIds(db.graphInstances)));
    }
  }

  /** Writing `g` adds one graph, |nodes of g| nodes and |edges of g| edges to
      the three counts. */
  lemma AddedGraphCounts(db: Db, db': Db, gid: int, g: Graph)
    requires WellFormed(db) && gid !in GraphIds(db.graphInstances) && AddedGraph(db, db', gid, g)
    ensures DatabaseSize(db') == DatabaseSize(db) + 1
    ensures NodesInDatabase(db') == NodesInDatabase(db) + |g.nodes|
    ensures EdgesInDatabase(db') == EdgesInDatabase(db) + |g.edges|
  {
    AddedGraphWellFormed(db, db', gid, g);
    JoinCountsAllRows(db);
    JoinCountsAllRows(db');
    AppendedMembers(db.nodeInstances, db'.nodeInstances, NodeInstanceRowsFor(gid, g, g.nodes.Keys));
    AppendedMembers(db.edgeInstances, db'.edgeInstances, EdgeInstanceRowsFor(gid, g, g.edges.Keys));
    NodeRowsSize(gid, g);
    EdgeRowsSize(gid, g);
  }

  /** One node_instances row per node. */
  lemma NodeRowsSize(gid: int, g: Graph)
    ensures |NodeInstanceRowsFor(gid, g, g.nodes.Keys)| == |g.nodes|
  {
    var nodeRow := (n: int) => NodeInstanceRow(n, gid, if n in g.nodes then |g.nodes[n]| else 0);
    InjectiveImageSize(g.nodes.Keys, nodeRow, NodeInstanceRowsFor(gid, g, g.nodes.Keys));
  }

  /** One edge_instances row per edge. */
  lemma EdgeRowsSize(gid: int, g: Graph)
    ensures |EdgeInstanceRowsFor(gid, g, g.edges.Keys)| == |g.edges|
  {
    var edgeRow := (e: int) =>
      if e in g.edges then EdgeInstanceRow(e, gid, g.edges[e].source, g.edges[e].target, |g.edges[e].features|)
      else EdgeInstanceRow(e, gid, 0, 0, 0);
    InjectiveImageSize(g.edges.Keys, edgeRow, EdgeInstanceRowsFor(gid, g, g.edges.Keys));
  }

  /** One graph_features row per feature. */
  lemma GraphFeatureRowsSize(gid: int, fs: set<Feature>)
    ensures |GraphFeatureRowsFor(gid, fs)| == |fs|
  {
    InjectiveImageSize(fs, (f: Feature) => GraphFeatureRow(gid, f.name, f.value), GraphFeatureRowsFor(gid, fs));
  }

  /** One node_features row per feature of the node. */
  lemma NodeFeatureRowsSize(gid: int, nid: int, fs: set<Feature>)
    ensures |NodeFeatureRowsFor(gid, nid, fs)| == |fs|
  {
    InjectiveImageSize(fs, (f: Feature) => NodeFeatureRow(gid, nid, f.name, f.value), NodeFeatureRowsFor(gid, nid, fs));
  }

  /** One edge_features row per feature of the edge. */
  lemma EdgeFeatureRowsSize(gid: int, eid: int, fs: set<Feature>)
    ensures |EdgeFeatureRowsFor(gid, eid, fs)| == |fs|
  {
    InjectiveImageSize(fs, (f: Feature) => EdgeFeatureRow(gid, eid, f.name, f.value), EdgeFeatureRowsFor(gid, eid, fs));
  }

  // ---------------------------------------------------------------------
  // One loop iteration of the write: the row set of the ids and features
  // written so far grows by the rows of the one written next.

  lemma GraphFeatureRowsStep(gid: int, done: set<Feature>, f: Feature)
    requires f !in done
    ensures GraphFeatureRowsFor(gid, done + {f}) == GraphFeatureRowsFor(gid, done) + {GraphFeatureRow(gid, f.name, f.value)}
    ensures GraphFeatureRow(gid, f.name, f.value) !in GraphFeatureRowsFor(gid, done)
  {
  }

  lemma NodeFeatureRowsStep(gid: int, nid: int, done: set<Feature>, f: Feature)
    requires f !in done
    ensures NodeFeatureRowsFor(gid, nid, done + {f}) == NodeFeatureRowsFor(gid, nid, done) + {NodeFeatureRow(gid, nid, f.name, f.value)}
    ensures NodeFeatureRow(gid, nid, f.name, f.value) !in NodeFeatureRowsFor(gid, nid, done)
  {
  }

  lemma EdgeFeatureRowsStep(gid: int, eid: int, done: set<Feature>, f: Feature)
    requires f !in done
    ensures EdgeFeatureRowsFor(gid, eid, done + {f}) == EdgeFeatureRowsFor(gid, eid, done) + {EdgeFeatureRow(gid, eid, f.name, f.value)}
    ensures EdgeFeatureRow(gid, eid, f.name, f.value) !in EdgeFeatureRowsFor(gid, eid, done)
  {
  }

  /** Writing node `n` adds its node_instances row and its feature rows, none
      of which was written for an earlier node. */
  lemma NodeRowsStep(gid: int, g: Graph, done: set<int>, n: int)
    requires n in g.nodes && n !in done
    ensures NodeInstanceRowsFor(gid, g, done + {n}) == NodeInstanceRowsFor(gid, g, done) + {NodeInstanceRow(n, gid, |g.nodes[n]|)}
    ensures NodeInstanceRow(n, gid, |g.nodes[n]|) !in NodeInstanceRowsFor(gid, g, done)
    ensures NodeFeatureRowsOfNodes(gid, g, done + {n}) == NodeFeatureRowsOfNodes(gid, g, done) + NodeFeatureRowsFor(gid, n, g.nodes[n])
    ensures NodeFeatureRowsOfNodes(gid, g, done) !! NodeFeatureRowsFor(gid, n, g.nodes[n])
  {
  }

  /** Writing edge `e` adds its edge_instances row and its feature rows, none
      of which was written for an earlier edge. */
  lemma EdgeRowsStep(gid: int, g: Graph, done: set<int>, e: int)
    requires e in g.edges && e !in done
    ensures EdgeInstanceRowsFor(gid, g, done + {e}) ==
      EdgeInstanceRowsFor(gid, g, done) + {EdgeInstanceRow(e, gid, g.edges[e].source, g.edges[e].target, |g.edges[e].features|)}
    ensures EdgeInstanceRow(e, gid, g.edges[e].source, g.edges[e].target, |g.edges[e].features|) !in EdgeInstanceRowsFor(gid, g, done)
    ensures EdgeFeatureRowsOfEdges(gid, g, done + {e}) == EdgeFeatureRowsOfEdges(gid, g, done) + EdgeFeatureRowsFor(gid, e, g.edges[e].features)
    ensures EdgeFeatureRowsOfEdges(gid, g, done) !! EdgeFeatureRowsFor(gid, e, g.edges[e].features)
  {
  }

  /** Inserting the row of one more graph feature. */
  lemma GraphFeatureWritten(before: seq<GraphFeatureRow>, mid: seq<GraphFeatureRow>, gid: int, done: set<Feature>, f: Feature)
    requires Appended(before, mid, GraphFeatureRowsFor(gid, done)) && f !in done
    ensures Appended(before, mid + [GraphFeatureRow(gid, f.name, f.value)], GraphFeatureRowsFor(gid, done + {f}))
  {
    GraphFeatureRowsStep(gid, done, f);
    AppendedPush(before, mid, GraphFeatureRowsFor(gid, done), GraphFeatureRow(gid, f.name, f.value));
  }

  /** Inserting the row of one more feature of node `nid`. */
  lemma NodeFeatureWritten(before: seq<NodeFeatureRow>, mid: seq<NodeFeatureRow>, gid: int, nid: int, done: set<Feature>, f: Feature)
    requires Appended(before, mid, NodeFeatureRowsFor(gid, nid, done)) && f !in done
    ensures Appended(before, mid + [NodeFeatureRow(gid, nid, f.name, f.value)], NodeFeatureRowsFor(gid, nid, done + {f}))
  {
    NodeFeatureRowsStep(gid, nid, done, f);
    AppendedPush(before, mid, NodeFeatureRowsFor(gid, nid, done), NodeFeatureRow(gid, nid, f.name, f.value));
  }

  /** Inserting the row of one more feature of edge `eid`. */
  lemma EdgeFeatureWritten(before: seq<EdgeFeatureRow>, mid: seq<EdgeFeatureRow>, gid: int, eid: int, done: set<Feature>, f: Feature)
    requires Appended(before, mid, EdgeFeatureRowsFor(gid, eid, done)) && f !in done
    ensures Appended(before, mid + [EdgeFeatureRow(gid, eid, f.name, f.value)], EdgeFeatureRowsFor(gid, eid, done + {f}))
  {
    EdgeFeatureRowsStep(gid, eid, done, f);
    AppendedPush(before, mid, EdgeFeatureRowsFor(gid, eid, done), EdgeFeatureRow(gid, eid, f.name, f.value));
  }

  // ---------------------------------------------------------------------
  // With both kinds of count column agreement, each node, edge and feature
  // of a stored graph has exactly one row.

  /** The node rows of a stored graph have pairwise different ids, and so do
      its edge rows; its graph_features rows name pairwise different
      features. */
  lemma OneRowPerNodeEdgeAndFeature(db: Db, r: GraphInstanceRow)
    requires CountsConsistent(db) && RowCountsMatch(db) && r in db.graphInstances
    ensures var rows := Filter(db.nodeInstances, NodeRowOf(r.id));
      forall i, j :: 0 <= i < |rows| && 0 <= j < |rows| && rows[i].id == rows[j].id ==> i == j
    ensures var rows := Filter(db.edgeInstances, EdgeRowOf(r.id));
      forall i, j :: 0 <= i < |rows| && 0 <= j < |rows| && rows[i].id == rows[j].id ==> i == j
    ensures var rows := Filter(db.graphFeatures, GraphFeatureRowOf(r.id));
      forall i, j :: (0 <= i < |rows| && 0 <= j < |rows| && rows[i].featureName == rows[j].featureName &&
                      rows[i].featureValue == rows[j].featureValue) ==> i == j
  {
    var nodes := Filter(db.nodeInstances, NodeRowOf(r.id));
    DistinctKeys(nodes, (x: NodeInstanceRow) => x.id, NodeIdsOf(db.nodeInstances, r.id));
    var edges := Filter(db.edgeInstances, EdgeRowOf(r.id));
    DistinctKeys(edges, (x: EdgeInstanceRow) => x.id, EdgeIdsOf(db.edgeInstances, r.id));
    var features := Filter(db.graphFeatures, GraphFeatureRowOf(r.id));
    var key := (x: GraphFeatureRow) => Feature(x.featureName, x.featureValue);
    DistinctKeys(features, key, GraphFeatureSet(db.graphFeatures, r.id));
    forall i, j | 0 <= i < |features| && 0 <= j < |features| && features[i].featureName == features[j].featureName &&
      features[i].featureValue == features[j].featureValue
      ensures i == j
    {
      assert key(features[i]) == key(features[j]);
    }
  }

  /** The node_features rows of a node name pairwise different features. */
  lemma OneRowPerNodeFeature(db: Db, r: NodeInstanceRow)
    requires CountsConsistent(db) && RowCountsMatch(db) && r in db.nodeInstances
    ensures var rows := Filter(db.nodeFeatures, NodeFeatureRowOfNode(r.graphId, r.id));
      forall i, j :: (0 <= i < |rows| && 0 <= j < |rows| && rows[i].featureName == rows[j].featureName &&
                      rows[i].featureValue == rows[j].featureValue) ==> i == j
  {
    var rows := Filter(db.nodeFeatures, NodeFeatureRowOfNode(r.graphId, r.id));
    var key := (x: NodeFeatureRow) => Feature(x.featureName, x.featureValue);
    DistinctKeys(rows, key, NodeFeatureSet(db.nodeFeatures, r.graphId, r.id));
    forall i, j | 0 <= i < |rows| && 0 <= j < |rows| && rows[i].featureName == rows[j].featureName &&
      rows[i].featureValue == rows[j].featureValue
      ensures i == j
    {
      assert key(rows[i]) == key(rows[j]);
    }
  }

  /** The edge_features rows of an edge name pairwise different features. */
  lemma OneRowPerEdgeFeature(db: Db, r: EdgeInstanceRow)
    requires CountsConsistent(db) && RowCountsMatch(db) && r in db.edgeInstances
    ensures var rows := Filter(db.edgeFeatures, EdgeFeatureRowOfEdge(r.graphId, r.id));
      forall i, j :: (0 <= i < |rows| && 0 <= j < |rows| && rows[i].featureName == rows[j].featureName &&
                      rows[i].featureValue == rows[j].featureValue) ==> i == j
  {
    var rows := Filter(db.edgeFeatures, EdgeFeatureRowOfEdge(r.graphId, r.id));
    var key := (x: EdgeFeatureRow) => Feature(x.featureName, x.featureValue);
    DistinctKeys(rows, key, EdgeFeatureSet(db.edgeFeatures, r.graphId, r.id));
    forall i, j | 0 <= i < |rows| && 0 <= j < |rows| && rows[i].featureName == rows[j].featureName &&
      rows[i].featureValue == rows[j].featureValue
      ensures i == j
    {
      assert key(rows[i]) == key(rows[j]);
    }
  }
}
