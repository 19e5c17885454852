/** What removing a graph does to the tables: no row of it is left, the rows
    of other graphs are as they were, the store invariant is kept, and the
    counts drop by what the graph held. */
module DeleteProperties {
  import opened Graphs
  import opened Seqs
  import opened Schema
  import WriteProperties

  /** With no orphan feature rows, deleting node and edge features only for
      the node and edge ids the graph lists removes all of its feature rows. */
  lemma DeletedTablesRemoveAll(db: Db, gid: int)
    requires NoOrphans(db)
    ensures DeletedTables(db, gid) == WithoutGraph(db, gid)
  {
    FilterSame(db.nodeFeatures, NodeFeatureRowOutside(gid, NodeIdsOf(db.nodeInstances, gid)), NodeFeatureRowNotOf(gid));
    FilterSame(db.edgeFeatures, EdgeFeatureRowOutside(gid, EdgeIdsOf(db.edgeInstances, gid)), EdgeFeatureRowNotOf(gid));
  }

  /** The node and edge ids of a rebuilt graph are those its rows list. */
  lemma StoredGraphIds(db: Db, gid: int)
    requires EdgeKeysUnique(db.edgeInstances)
    ensures StoredGraph(db, gid).nodes.Keys == NodeIdsOf(db.nodeInstances, gid)
    ensures StoredGraph(db, gid).edges.Keys == EdgeIdsOf(db.edgeInstances, gid)
  {
    var edges := StoredGraph(db, gid).edges;
    forall e | e in EdgeIdsOf(db.edgeInstances, gid)
      ensures e in edges
    {
      var row :| row in db.edgeInstances && row.graphId == gid && row.id == e;
    }
  }

  /** After the removal no table holds a row of the graph. */
  lemma WithoutGraphHasNoRows(db: Db, gid: int)
    ensures NoRowsOf(WithoutGraph(db, gid), gid)
    ensures gid !in GraphIds(WithoutGraph(db, gid).graphInstances)
  {
  }

  /** The stored ids lose exactly the removed one. */
  lemma WithoutGraphIds(db: Db, gid: int)
    ensures GraphIds(WithoutGraph(db, gid).graphInstances) == GraphIds(db.graphInstances) - {gid}
  {
    var ids' := GraphIds(WithoutGraph(db, gid).graphInstances);
    forall h | h in GraphIds(db.graphInstances) - {gid}
      ensures h in ids'
    {
      var r :| r in db.graphInstances && r.id == h;
      assert r in WithoutGraph(db, gid).graphInstances;
    }
  }

  /** What the rows say about any other graph is unchanged by the removal. */
  lemma WithoutGraphOtherSlices(db: Db, gid: int, h: int)
    requires h != gid
    ensures NodeIdsOf(WithoutGraph(db, gid).nodeInstances, h) == NodeIdsOf(db.nodeInstances, h)
    ensures EdgeIdsOf(WithoutGraph(db, gid).edgeInstances, h) == EdgeIdsOf(db.edgeInstances, h)
    ensures GraphFeatureSet(WithoutGraph(db, gid).graphFeatures, h) == GraphFeatureSet(db.graphFeatures, h)
    ensures forall n :: NodeFeatureSet(WithoutGraph(db, gid).nodeFeatures, h, n) == NodeFeatureSet(db.nodeFeatures, h, n)
    ensures forall e :: EdgeFeatureSet(WithoutGraph(db, gid).edgeFeatures, h, e) == EdgeFeatureSet(db.edgeFeatures, h, e)
  {
    var w := WithoutGraph(db, gid);
    assert forall r :: r in db.nodeInstances && r.graphId == h ==> r in w.nodeInstances;
    assert forall r :: r in db.edgeInstances && r.graphId == h ==> r in w.edgeInstances;
    assert forall r :: r in db.graphFeatures && r.graphId == h ==> r in w.graphFeatures;
    assert forall r :: r in db.nodeFeatures && r.graphId == h ==> r in w.nodeFeatures;
    assert forall r :: r in db.edgeFeatures && r.graphId == h ==> r in w.edgeFeatures;
  }

  /** Every other graph reads back as before the removal. */
  lemma WithoutGraphKeepsOthers(db: Db, gid: int, h: int)
    requires EdgeKeysUnique(db.edgeInstances) && h != gid
    ensures EdgeKeysUnique(WithoutGraph(db, gid).edgeInstances)
    ensures h in GraphIds(WithoutGraph(db, gid).graphInstances) <==> h in GraphIds(db.graphInstances)
    ensures StoredGraph(WithoutGraph(db, gid), h) == StoredGraph(db, h)
  {
    WithoutGraphIds(db, gid);
    WithoutGraphOtherSlices(db, gid, h);
    var w := WithoutGraph(db, gid);
    assert NodesOf(w, h) == NodesOf(db, h);
    WithoutGraphKeepsEdges(db, gid, h);
  }

  lemma WithoutGraphKeepsEdges(db: Db, gid: int, h: int)
    requires EdgeKeysUnique(db.edgeInstances) && h != gid
    ensures EdgeKeysUnique(WithoutGraph(db, gid).edgeInstances)
    ensures EdgeMap(WithoutGraph(db, gid).edgeInstances, h, WithoutGraph(db, gid).edgeFeatures) ==
            EdgeMap(db.edgeInstances, h, db.edgeFeatures)
  {
    var w := WithoutGraph(db, gid);
    WithoutGraphOtherSlices(db, gid, h);
    assert forall r :: r in w.edgeInstances && r.graphId == h <==> r in db.edgeInstances && r.graphId == h;
  }

  /** `DistinctIds` of a non-empty table: the head's id is not repeated in
      the tail, and the tail is distinct. */
  lemma DistinctIdsCons(s: seq<GraphInstanceRow>)
    requires s != []
    ensures DistinctIds(s) <==> s[0].id !in GraphIds(s[1..]) && DistinctIds(s[1..])
  {
    if DistinctIds(s) {
      forall r | r in s[1..]
        ensures r.id != s[0].id
      {
        var k :| 0 <= k < |s[1..]| && s[1..][k] == r;
        assert s[k + 1] == r;
      }
      forall i, j | 0 <= i < |s[1..]| && 0 <= j < |s[1..]| && s[1..][i].id == s[1..][j].id
        ensures i == j
      {
        assert s[i + 1].id == s[j + 1].id;
      }
    }
    if s[0].id !in GraphIds(s[1..]) && DistinctIds(s[1..]) {
      assert forall j :: 0 < j < |s| ==> s[j] == s[1..][j - 1] && s[j].id in GraphIds(s[1..]);
      forall i, j | 0 <= i < |s| && 0 <= j < |s| && s[i].id == s[j].id
        ensures i == j
      {
        if i > 0 && j > 0 {
          assert s[1..][i - 1].id == s[1..][j - 1].id;
        }
      }
    }
  }

  /** Deleting rows keeps the primary key distinct. */
  lemma {:induction false} FilterKeepsDistinctIds(s: seq<GraphInstanceRow>, keep: GraphInstanceRow -> bool)
    requires DistinctIds(s)
    ensures DistinctIds(Filter(s, keep))
  {
    if s != [] {
      DistinctIdsCons(s);
      FilterKeepsDistinctIds(s[1..], keep);
      var rest := Filter(s[1..], keep);
      if keep(s[0]) {
        var t := [s[0]] + rest;
        assert t[1..] == rest;
        assert s[0].id !in GraphIds(rest);
        DistinctIdsCons(t);
      }
    }
  }

  /** With a primary key, there are as many stored ids as graph rows. */
  lemma {:induction false} DistinctIdsCount(s: seq<GraphInstanceRow>)
    ensures DistinctIds(s) ==> |GraphIds(s)| == |s|
  {
    if s != [] && DistinctIds(s) {
      DistinctIdsCons(s);
      DistinctIdsCount(s[1..]);
      assert GraphIds(s) == {s[0].id} + GraphIds(s[1..]) by {
        assert forall r :: r in s <==> r == s[0] || r in s[1..];
      }
    }
  }

  /** A stored id has exactly one graph_instances row. */
  lemma StoredIdHasOneRow(s: seq<GraphInstanceRow>, gid: int)
    requires DistinctIds(s) && gid in GraphIds(s)
    ensures |Filter(s, GraphRowIs(gid))| == 1
  {
    var hit := Filter(s, GraphRowIs(gid));
    FilterKeepsDistinctIds(s, GraphRowIs(gid));
    DistinctIdsCount(hit);
    var r :| r in s && r.id == gid;
    assert r in hit;
    assert GraphIds(hit) == {gid};
  }

  /** Removing a graph keeps the store invariant. */
  lemma WithoutGraphWellFormed(db: Db, gid: int, next: int)
    requires StoreInvariant(db, next)
    ensures StoreInvariant(WithoutGraph(db, gid), next)
  {
    var w := WithoutGraph(db, gid);
    WithoutGraphIds(db, gid);
    FilterKeepsDistinctIds(db.graphInstances, GraphRowNotOf(gid));
    forall h | h != gid
      ensures NodeIdsOf(w.nodeInstances, h) == NodeIdsOf(db.nodeInstances, h)
      ensures EdgeIdsOf(w.edgeInstances, h) == EdgeIdsOf(db.edgeInstances, h)
      ensures GraphFeatureSet(w.graphFeatures, h) == GraphFeatureSet(db.graphFeatures, h)
      ensures forall n :: NodeFeatureSet(w.nodeFeatures, h, n) == NodeFeatureSet(db.nodeFeatures, h, n)
      ensures forall e :: EdgeFeatureSet(w.edgeFeatures, h, e) == EdgeFeatureSet(db.edgeFeatures, h, e)
    {
      WithoutGraphOtherSlices(db, gid, h);
    }
    WithoutGraphOrphans(db, gid);
    WithoutGraphRowCounts(db, gid);
    assert CountsConsistent(w);
  }

  /** A removal keeps every count column equal to the number of rows that
      hold its owner's children. */
  lemma WithoutGraphRowCounts(db: Db, gid: int)
    requires RowCountsMatch(db)
    ensures RowCountsMatch(WithoutGraph(db, gid))
  {
    var w := WithoutGraph(db, gid);
    forall r | r in w.graphInstances
      ensures r.nodes == |Filter(w.nodeInstances, NodeRowOf(r.id))|
      ensures r.edges == |Filter(w.edgeInstances, EdgeRowOf(r.id))|
      ensures r.features == |Filter(w.graphFeatures, GraphFeatureRowOf(r.id))|
    {
      FilterFilter(db.nodeInstances, NodeRowNotOf(gid), NodeRowOf(r.id), NodeRowOf(r.id));
      FilterFilter(db.edgeInstances, EdgeRowNotOf(gid), EdgeRowOf(r.id), EdgeRowOf(r.id));
      FilterFilter(db.graphFeatures, GraphFeatureRowNotOf(gid), GraphFeatureRowOf(r.id), GraphFeatureRowOf(r.id));
    }
    forall r | r in w.nodeInstances
      ensures r.features == |Filter(w.nodeFeatures, NodeFeatureRowOfNode(r.graphId, r.id))|
    {
      var keep := NodeFeatureRowOfNode(r.graphId, r.id);
      FilterFilter(db.nodeFeatures, NodeFeatureRowNotOf(gid), keep, keep);
    }
    forall r | r in w.edgeInstances
      ensures r.features == |Filter(w.edgeFeatures, EdgeFeatureRowOfEdge(r.graphId, r.id))|
    {
      var keep := EdgeFeatureRowOfEdge(r.graphId, r.id);
      FilterFilter(db.edgeFeatures, EdgeFeatureRowNotOf(gid), keep, keep);
    }
  }

  /** Removing a stored graph takes one graph off the size and its node and
      edge rows off the node and edge counts. */
  lemma WithoutGraphCounts(db: Db, gid: int)
    requires WellFormed(db) && gid in GraphIds(db.graphInstances)
    ensures DatabaseSize(WithoutGraph(db, gid)) == DatabaseSize(db) - 1
    ensures NodesInDatabase(WithoutGraph(db, gid)) == NodesInDatabase(db) - |Filter(db.nodeInstances, NodeRowOf(gid))|
    ensures EdgesInDatabase(WithoutGraph(db, gid)) == EdgesInDatabase(db) - |Filter(db.edgeInstances, EdgeRowOf(gid))|
  {
    var w := WithoutGraph(db, gid);
    StoredIdHasOneRow(db.graphInstances, gid);
    FilterSplitSize(db.graphInstances, GraphRowIs(gid), GraphRowNotOf(gid));
    WithoutGraphOrphans(db, gid);
    WriteProperties.JoinCountsAllRows(db);
    WriteProperties.JoinCountsAllRows(w);
    FilterSplitSize(db.nodeInstances, NodeRowOf(gid), NodeRowNotOf(gid));
    FilterSplitSize(db.edgeInstances, EdgeRowOf(gid), EdgeRowNotOf(gid));
  }

  /** Removing a graph leaves no orphan rows behind. */
  lemma WithoutGraphOrphans(db: Db, gid: int)
    requires NoOrphans(db)
    ensures NoOrphans(WithoutGraph(db, gid))
  {
    var w := WithoutGraph(db, gid);
    WithoutGraphIds(db, gid);
    forall h | h != gid
      ensures NodeIdsOf(w.nodeInstances, h) == NodeIdsOf(db.nodeInstances, h)
      ensures EdgeIdsOf(w.edgeInstances, h) == EdgeIdsOf(db.edgeInstances, h)
    {
      WithoutGraphOtherSlices(db, gid, h);
    }
  }
}
