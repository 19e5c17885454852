/** The feature searches scan the three feature tables; on well-formed tables
    a graph has a matching feature row exactly when the graph that retrieval
    rebuilds has a matching feature at some level. */
module SearchProperties {
  import opened Graphs
  import opened Schema
  import WriteProperties

  /** A matching graph_features row is a matching graph-level feature. */
  lemma GraphLevelHit(db: Db, gid: int, q: FeatureQuery)
    requires EdgeKeysUnique(db.edgeInstances) && NoOrphans(db)
    ensures (exists r :: r in db.graphFeatures && r.graphId == gid && q.Matches(r.featureName, r.featureValue)) <==>
            (exists f :: f in StoredGraph(db, gid).features && q.Matches(f.name, f.value))
  {
    var g := StoredGraph(db, gid);
    if exists f :: f in g.features && q.Matches(f.name, f.value) {
      var f :| f in g.features && q.Matches(f.name, f.value);
      var r :| r in db.graphFeatures && r.graphId == gid && Feature(r.featureName, r.featureValue) == f;
    }
    if exists r :: r in db.graphFeatures && r.graphId == gid && q.Matches(r.featureName, r.featureValue) {
      var r :| r in db.graphFeatures && r.graphId == gid && q.Matches(r.featureName, r.featureValue);
      assert Feature(r.featureName, r.featureValue) in g.features;
    }
  }

  /** A matching node_features row is a matching feature of a rebuilt node. */
  lemma NodeLevelHit(db: Db, gid: int, q: FeatureQuery)
    requires EdgeKeysUnique(db.edgeInstances) && NoOrphans(db)
    ensures (exists r :: r in db.nodeFeatures && r.graphId == gid && q.Matches(r.featureName, r.featureValue)) <==>
            (exists n, f :: n in StoredGraph(db, gid).nodes && f in StoredGraph(db, gid).nodes[n] && q.Matches(f.name, f.value))
  {
    var g := StoredGraph(db, gid);
    if exists n, f :: n in g.nodes && f in g.nodes[n] && q.Matches(f.name, f.value) {
      var n, f :| n in g.nodes && f in g.nodes[n] && q.Matches(f.name, f.value);
      assert f in NodeFeatureSet(db.nodeFeatures, gid, n);
      var r :| r in db.nodeFeatures && r.graphId == gid && r.nodeId == n && Feature(r.featureName, r.featureValue) == f;
    }
    if exists r :: r in db.nodeFeatures && r.graphId == gid && q.Matches(r.featureName, r.featureValue) {
      var r :| r in db.nodeFeatures && r.graphId == gid && q.Matches(r.featureName, r.featureValue);
      assert r.nodeId in NodeIdsOf(db.nodeInstances, gid);
      assert Feature(r.featureName, r.featureValue) in g.nodes[r.nodeId];
    }
  }

  /** A matching edge_features row is a matching feature of a rebuilt edge. */
  lemma EdgeLevelHit(db: Db, gid: int, q: FeatureQuery)
    requires EdgeKeysUnique(db.edgeInstances) && NoOrphans(db)
    ensures (exists r :: r in db.edgeFeatures && r.graphId == gid && q.Matches(r.featureName, r.featureValue)) <==>
            (exists e, f :: e in StoredGraph(db, gid).edges && f in StoredGraph(db, gid).edges[e].features && q.Matches(f.name, f.value))
  {
    var g := StoredGraph(db, gid);
    if exists e, f :: e in g.edges && f in g.edges[e].features && q.Matches(f.name, f.value) {
      var e, f :| e in g.edges && f in g.edges[e].features && q.Matches(f.name, f.value);
      var er :| er in db.edgeInstances && er.graphId == gid && er.id == e;
      assert f in EdgeFeatureSet(db.edgeFeatures, gid, e);
      var r :| r in db.edgeFeatures && r.graphId == gid && r.edgeId == e && Feature(r.featureName, r.featureValue) == f;
    }
    if exists r :: r in db.edgeFeatures && r.graphId == gid && q.Matches(r.featureName, r.featureValue) {
      var r :| r in db.edgeFeatures && r.graphId == gid && q.Matches(r.featureName, r.featureValue);
      assert r.edgeId in EdgeIdsOf(db.edgeInstances, gid);
      var er :| er in db.edgeInstances && er.graphId == gid && er.id == r.edgeId;
      assert g.edges[er.id].features == EdgeFeatureSet(db.edgeFeatures, gid, r.edgeId);
      assert Feature(r.featureName, r.featureValue) in g.edges[r.edgeId].features;
    }
  }

  /** On well-formed tables, graph `gid` has a feature row matching `q` in
      one of the three feature tables exactly when its rebuilt graph has a
      feature matching `q` at graph, node or edge level. */
  lemma FeatureRowsMatchStoredGraph(db: Db, gid: int, q: FeatureQuery)
    requires WellFormed(db)
    ensures HasFeatureRow(db, gid, q) <==> HasMatchingFeature(StoredGraph(db, gid), q)
  {
    GraphLevelHit(db, gid, q);
    NodeLevelHit(db, gid, q);
    EdgeLevelHit(db, gid, q);
  }

  /** A graph just written under a fresh id is found by a search exactly when
      it has a matching feature. */
  lemma AddedGraphFoundBySearch(db: Db, db': Db, gid: int, g: Graph, q: FeatureQuery)
    requires WellFormed(db) && gid !in GraphIds(db.graphInstances) && AddedGraph(db, db', gid, g)
    ensures gid in GraphIds(db'.graphInstances)
    ensures HasFeatureRow(db', gid, q) <==> HasMatchingFeature(g, q)
  {
    WriteProperties.FreshIdHasNoRows(db, gid);
    WriteProperties.AddedGraphOwnSlices(db, db', gid, g);
    WriteProperties.AddedGraphWellFormed(db, db', gid, g);
    WriteProperties.AddedGraphRoundTrip(db, db', gid, g);
    FeatureRowsMatchStoredGraph(db', gid, q);
  }
}
