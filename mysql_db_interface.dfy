/** The graph store over its tables: writing, reading back, removing and
    searching graphs, the counts, and the ascending iterator over the stored
    graph ids. */
module MysqlDB {
  import opened Graphs
  import opened Seqs
  import opened Schema
  import WriteProperties
  import DeleteProperties
  import StreamProperties

  /** The store behind one connection: the contents of the five tables, the
      AUTO_INCREMENT counter of graph_instances, and the generated key of the
      last INSERT into graph_instances. */
  class MysqlDBInterface {
    var graphInstances: seq<GraphInstanceRow>
    var nodeInstances: seq<NodeInstanceRow>
    var edgeInstances: seq<EdgeInstanceRow>
    var nodeFeatures: seq<NodeFeatureRow>
    var graphFeatures: seq<GraphFeatureRow>
    var edgeFeatures: seq<EdgeFeatureRow>
    /** The id the next row inserted into graph_instances receives. */
    var autoIncrement: int
    /** What `getGeneratedKeys` reports for the last INSERT, if it made one. */
    var lastInsertId: Option<int>

    function Tables(): Db
      reads this
    {
      Db(graphInstances, nodeInstances, edgeInstances, nodeFeatures, graphFeatures, edgeFeatures)
    }

    ghost predicate Valid()
      reads this
    {
      StoreInvariant(Tables(), autoIncrement)
    }

    /** A store whose tables have just been created. */
    constructor ()
      ensures Tables() == EmptyDb && autoIncrement == 1 && lastInsertId == None
      ensures Valid()
    {
      graphInstances, nodeInstances, edgeInstances := [], [], [];
      nodeFeatures, graphFeatures, edgeFeatures := [], [], [];
      autoIncrement, lastInsertId := 1, None;
    }

    /** Drops and recreates every table: all tables empty, the counter back at 1. */
    method InitializeDatabase()
      modifies this
      ensures Tables() == EmptyDb && autoIncrement == 1 && lastInsertId == None
      ensures Valid()
    {
      graphInstances, nodeInstances, edgeInstances := [], [], [];
      nodeFeatures, graphFeatures, edgeFeatures := [], [], [];
      autoIncrement, lastInsertId := 1, None;
    }

    // -------------------------------------------------------------------
    // Writing a graph.

    /** INSERT INTO graph_instances VALUES (NULL, nodes, edges, features):
        the row takes the counter's value as id, which becomes the generated
        key. */
    method InsertGraphInstance(nodes: int, edges: int, features: int)
      modifies this
      ensures graphInstances == old(graphInstances) + [GraphInstanceRow(old(autoIncrement), nodes, edges, features)]
      ensures autoIncrement == old(autoIncrement) + 1 && lastInsertId == Some(old(autoIncrement))
      ensures nodeInstances == old(nodeInstances) && edgeInstances == old(edgeInstances)
      ensures nodeFeatures == old(nodeFeatures) && graphFeatures == old(graphFeatures) && edgeFeatures == old(edgeFeatures)
    {
      graphInstances := graphInstances + [GraphInstanceRow(autoIncrement, nodes, edges, features)];
      lastInsertId := Some(autoIncrement);
      autoIncrement := autoIncrement + 1;
    }

    /** The generated key of the last INSERT, or the error raised when there
        is none. */
    method GetLastAutoIncrement() returns (r: Result<int>)
      ensures lastInsertId.Some? ==> r == Ok(lastInsertId.value)
      ensures lastInsertId.None? ==> r == Err(NoGeneratedKey)
    {
      match lastInsertId
      case Some(k) => r := Ok(k);
      case None => r := Err(NoGeneratedKey);
    }

    /** Writes `g` under a fresh id: its graph_instances row, then one row per
        graph feature, per node with its features, and per edge with its
        features, in the (unspecified) iteration order of the graph's sets. */
    method AddGraph(g: Graph) returns (gid: int)
      requires Valid()
      modifies this
      ensures Valid()
      ensures gid == old(autoIncrement) && gid !in GraphIds(old(graphInstances))
      ensures AddedGraph(old(Tables()), Tables(), gid, g)
      ensures autoIncrement == old(autoIncrement) + 1 && lastInsertId == Some(gid)
    {
      InsertGraphInstance(|g.nodes|, |g.edges|, |g.features|);
      var key := GetLastAutoIncrement();
      gid := key.value;
      WriteGraphFeatures(gid, g.features);
      WriteNodes(gid, g);
      WriteEdges(gid, g);
      WriteProperties.AddedGraphStoreInvariant(old(Tables()), Tables(), gid, g);
    }

    /** One node_instances row per node of `g`, each followed by the node's
        node_features rows. */
    method WriteNodes(gid: int, g: Graph)
      modifies this
      ensures Appended(old(nodeInstances), nodeInstances, NodeInstanceRowsFor(gid, g, g.nodes.Keys))
      ensures Appended(old(nodeFeatures), nodeFeatures, NodeFeatureRowsOfNodes(gid, g, g.nodes.Keys))
      ensures graphInstances == old(graphInstances) && edgeInstances == old(edgeInstances)
      ensures graphFeatures == old(graphFeatures) && edgeFeatures == old(edgeFeatures)
      ensures autoIncrement == old(autoIncrement) && lastInsertId == old(lastInsertId)
    {
      ghost var done: set<int> := {};
      var nids := g.nodes.Keys;
      AppendedNothing(nodeInstances);
      AppendedNothing(nodeFeatures);
      while nids != {}
        invariant done + nids == g.nodes.Keys && done !! nids
        invariant Appended(old(nodeInstances), nodeInstances, NodeInstanceRowsFor(gid, g, done))
        invariant Appended(old(nodeFeatures), nodeFeatures, NodeFeatureRowsOfNodes(gid, g, done))
        invariant graphInstances == old(graphInstances) && edgeInstances == old(edgeInstances)
        invariant graphFeatures == old(graphFeatures) && edgeFeatures == old(edgeFeatures)
        invariant autoIncrement == old(autoIncrement) && lastInsertId == old(lastInsertId)
        decreases nids
      {
        var nid := Pick(nids);
        WriteNode(gid, g, nid, done, old(nodeInstances), old(nodeFeatures));
        done, nids := done + {nid}, nids - {nid};
      }
    }

    /** One edge_instances row per edge of `g`, each followed by the edge's
        edge_features rows. */
    method WriteEdges(gid: int, g: Graph)
      modifies this
      ensures Appended(old(edgeInstances), edgeInstances, EdgeInstanceRowsFor(gid, g, g.edges.Keys))
      ensures Appended(old(edgeFeatures), edgeFeatures, EdgeFeatureRowsOfEdges(gid, g, g.edges.Keys))
      ensures graphInstances == old(graphInstances) && nodeInstances == old(nodeInstances)
      ensures graphFeatures == old(graphFeatures) && nodeFeatures == old(nodeFeatures)
      ensures autoIncrement == old(autoIncrement) && lastInsertId == old(lastInsertId)
    {
      ghost var done: set<int> := {};
      var eids := g.edges.Keys;
      AppendedNothing(edgeInstances);
      AppendedNothing(edgeFeatures);
      while eids != {}
        invariant done + eids == g.edges.Keys && done !! eids
        invariant Appended(old(edgeInstances), edgeInstances, EdgeInstanceRowsFor(gid, g, done))
        invariant Appended(old(edgeFeatures), edgeFeatures, EdgeFeatureRowsOfEdges(gid, g, done))
        invariant graphInstances == old(graphInstances) && nodeInstances == old(nodeInstances)
        invariant graphFeatures == old(graphFeatures) && nodeFeatures == old(nodeFeatures)
        invariant autoIncrement == old(autoIncrement) && lastInsertId == old(lastInsertId)
        decreases eids
      {
        var eid := Pick(eids);
        WriteEdge(gid, g, eid, done, old(edgeInstances), old(edgeFeatures));
        done, eids := done + {eid}, eids - {eid};
      }
    }

    /** One graph_features row per feature in `fs`. */
    method WriteGraphFeatures(gid: int, fs: set<Feature>)
      modifies this
      ensures Appended(old(graphFeatures), graphFeatures, GraphFeatureRowsFor(gid, fs))
      ensures graphInstances == old(graphInstances) && nodeInstances == old(nodeInstances) && edgeInstances == old(edgeInstances)
      ensures nodeFeatures == old(nodeFeatures) && edgeFeatures == old(edgeFeatures)
      ensures autoIncrement == old(autoIncrement) && lastInsertId == old(lastInsertId)
    {
      ghost var done: set<Feature> := {};
      var rest := fs;
      AppendedNothing(graphFeatures);
      while rest != {}
        invariant done + rest == fs && done !! rest
        invariant Appended(old(graphFeatures), graphFeatures, GraphFeatureRowsFor(gid, done))
        invariant graphInstances == old(graphInstances) && nodeInstances == old(nodeInstances) && edgeInstances == old(edgeInstances)
        invariant nodeFeatures == old(nodeFeatures) && edgeFeatures == old(edgeFeatures)
        invariant autoIncrement == old(autoIncrement) && lastInsertId == old(lastInsertId)
        decreases rest
      {
        var f := Pick(rest);
        var row := GraphFeatureRow(gid, f.name, f.value);
        WriteProperties.GraphFeatureWritten(old(graphFeatures), graphFeatures, gid, done, f);
        graphFeatures := graphFeatures + [row];
        done, rest := done + {f}, rest - {f};
      }
    }

    /** The node_instances row of node `nid`, then one node_features row per
        feature of it; `ni0` and `nf0` are the two tables before the first
        node was written. */
    method WriteNode(gid: int, g: Graph, nid: int, ghost done: set<int>,
                     ghost ni0: seq<NodeInstanceRow>, ghost nf0: seq<NodeFeatureRow>)
      requires nid in g.nodes && nid !in done
      requires Appended(ni0, nodeInstances, NodeInstanceRowsFor(gid, g, done))
      requires Appended(nf0, nodeFeatures, NodeFeatureRowsOfNodes(gid, g, done))
      modifies this
      ensures Appended(ni0, nodeInstances, NodeInstanceRowsFor(gid, g, done + {nid}))
      ensures Appended(nf0, nodeFeatures, NodeFeatureRowsOfNodes(gid, g, done + {nid}))
      ensures nodeInstances == old(nodeInstances) + [NodeInstanceRow(nid, gid, |g.nodes[nid]|)]
      ensures graphInstances == old(graphInstances) && edgeInstances == old(edgeInstances)
      ensures graphFeatures == old(graphFeatures) && edgeFeatures == old(edgeFeatures)
      ensures autoIncrement == old(autoIncrement) && lastInsertId == old(lastInsertId)
    {
      var row := NodeInstanceRow(nid, gid, |g.nodes[nid]|);
      WriteProperties.NodeRowsStep(gid, g, done, nid);
      AppendedOne(nodeInstances, row);
      AppendedTrans(ni0, nodeInstances, nodeInstances + [row], NodeInstanceRowsFor(gid, g, done), {row});
      nodeInstances := nodeInstances + [row];
      ghost var nf1 := nodeFeatures;
      WriteNodeFeatures(gid, nid, g.nodes[nid]);
      AppendedTrans(nf0, nf1, nodeFeatures, NodeFeatureRowsOfNodes(gid, g, done), NodeFeatureRowsFor(gid, nid, g.nodes[nid]));
    }

    /** One node_features row per feature in `fs` of node `nid`. */
    method WriteNodeFeatures(gid: int, nid: int, fs: set<Feature>)
      modifies this
      ensures Appended(old(nodeFeatures), nodeFeatures, NodeFeatureRowsFor(gid, nid, fs))
      ensures graphInstances == old(graphInstances) && nodeInstances == old(nodeInstances) && edgeInstances == old(edgeInstances)
      ensures graphFeatures == old(graphFeatures) && edgeFeatures == old(edgeFeatures)
      ensures autoIncrement == old(autoIncrement) && lastInsertId == old(lastInsertId)
    {
      ghost var done: set<Feature> := {};
      var rest := fs;
      AppendedNothing(nodeFeatures);
      while rest != {}
        invariant done + rest == fs && done !! rest
        invariant Appended(old(nodeFeatures), nodeFeatures, NodeFeatureRowsFor(gid, nid, done))
        invariant graphInstances == old(graphInstances) && nodeInstances == old(nodeInstances) && edgeInstances == old(edgeInstances)
        invariant graphFeatures == old(graphFeatures) && edgeFeatures == old(edgeFeatures)
        invariant autoIncrement == old(autoIncrement) && lastInsertId == old(lastInsertId)
        decreases rest
      {
        var f := Pick(rest);
        var row := NodeFeatureRow(gid, nid, f.name, f.value);
        WriteProperties.NodeFeatureWritten(old(nodeFeatures), nodeFeatures, gid, nid, done, f);
        nodeFeatures := nodeFeatures + [row];
        done, rest := done + {f}, rest - {f};
      }
    }

    /** The edge_instances row of edge `eid` with its endpoints, then one
        edge_features row per feature of it; `ei0` and `ef0` are the two
        tables before the first edge was written. */
    method WriteEdge(gid: int, g: Graph, eid: int, ghost done: set<int>,
                     ghost ei0: seq<EdgeInstanceRow>, ghost ef0: seq<EdgeFeatureRow>)
      requires eid in g.edges && eid !in done
      requires Appended(ei0, edgeInstances, EdgeInstanceRowsFor(gid, g, done))
      requires Appended(ef0, edgeFeatures, EdgeFeatureRowsOfEdges(gid, g, done))
      modifies this
      ensures Appended(ei0, edgeInstances, EdgeInstanceRowsFor(gid, g, done + {eid}))
      ensures Appended(ef0, edgeFeatures, EdgeFeatureRowsOfEdges(gid, g, done + {eid}))
      ensures edgeInstances == old(edgeInstances) + [EdgeInstanceRow(eid, gid, g.edges[eid].source, g.edges[eid].target, |g.edges[eid].features|)]
      ensures graphInstances == old(graphInstances) && nodeInstances == old(nodeInstances)
      ensures graphFeatures == old(graphFeatures) && nodeFeatures == old(nodeFeatures)
      ensures autoIncrement == old(autoIncrement) && lastInsertId == old(lastInsertId)
    {
      var source := g.edges[eid].source;
      var target := g.edges[eid].target;
      var row := EdgeInstanceRow(eid, gid, source, target, |g.edges[eid].features|);
      WriteProperties.EdgeRowsStep(gid, g, done, eid);
      AppendedOne(edgeInstances, row);
      AppendedTrans(ei0, edgeInstances, edgeInstances + [row], EdgeInstanceRowsFor(gid, g, done), {row});
      edgeInstances := edgeInstances + [row];
      ghost var ef1 := edgeFeatures;
      WriteEdgeFeatures(gid, eid, g.edges[eid].features);
      AppendedTrans(ef0, ef1, edgeFeatures, EdgeFeatureRowsOfEdges(gid, g, done), EdgeFeatureRowsFor(gid, eid, g.edges[eid].features));
    }

    /** One edge_features row per feature in `fs` of edge `eid`. */
    method WriteEdgeFeatures(gid: int, eid: int, fs: set<Feature>)
      modifies this
      ensures Appended(old(edgeFeatures), edgeFeatures, EdgeFeatureRowsFor(gid, eid, fs))
      ensures graphInstances == old(graphInstances) && nodeInstances == old(nodeInstances) && edgeInstances == old(edgeInstances)
      ensures graphFeatures == old(graphFeatures) && nodeFeatures == old(nodeFeatures)
      ensures autoIncrement == old(autoIncrement) && lastInsertId == old(lastInsertId)
    {
      ghost var done: set<Feature> := {};
      var rest := fs;
      AppendedNothing(edgeFeatures);
      while rest != {}
        invariant done + rest == fs && done !! rest
        invariant Appended(old(edgeFeatures), edgeFeatures, EdgeFeatureRowsFor(gid, eid, done))
        invariant graphInstances == old(graphInstances) && nodeInstances == old(nodeInstances) && edgeInstances == old(edgeInstances)
        invariant graphFeatures == old(graphFeatures) && nodeFeatures == old(nodeFeatures)
        invariant autoIncrement == old(autoIncrement) && lastInsertId == old(lastInsertId)
        decreases rest
      {
        var f := Pick(rest);
        var row := EdgeFeatureRow(gid, eid, f.name, f.value);
        WriteProperties.EdgeFeatureWritten(old(edgeFeatures), edgeFeatures, gid, eid, done, f);
        edgeFeatures := edgeFeatures + [row];
        done, rest := done + {f}, rest - {f};
      }
    }

    // -------------------------------------------------------------------
    // Reading a graph back.

    /** Rebuilds graph `graphId` from its rows: its graph features, then each
        node row with that node's features, then each edge row with its
        endpoints and that edge's features; fails when no graph_instances row
        has the id. */
    method RetrieveGraph(graphId: int) returns (r: Result<Graph>)
      requires EdgeKeysUnique(edgeInstances)
      ensures r.Err? <==> graphId !in GraphIds(graphInstances)
      ensures r.Err? ==> r.error == NoSuchGraph(graphId)
      ensures r.Ok? ==> r.value == StoredGraph(Tables(), graphId)
    {
      var hit := Filter(graphInstances, GraphRowIs(graphId));
      if |hit| == 0 {
        assert forall row :: row in graphInstances ==> row.id != graphId by {
          assert forall row :: row in graphInstances && row.id == graphId ==> row in hit;
        }
        return Err(NoSuchGraph(graphId));
      }
      assert hit[0] in graphInstances;
      var g := LoadGraphFeatures(graphId, EmptyGraph);
      g := LoadNodes(graphId, g);
      g := LoadEdges(graphId, g);
      return Ok(g);
    }

    /** Adds the features of the graph_features rows of `graphId`. */
    method LoadGraphFeatures(graphId: int, g: Graph) returns (g': Graph)
      ensures g' == g.(features := g.features + GraphFeatureSet(graphFeatures, graphId))
    {
      var rs := Filter(graphFeatures, GraphFeatureRowOf(graphId));
      g' := g;
      for i := 0 to |rs|
        invariant g' == g.(features := g.features + set r | r in rs[..i] :: Feature(r.featureName, r.featureValue))
      {
        assert rs[..i + 1] == rs[..i] + [rs[i]];
        g' := AddFeature(g', Feature(rs[i].featureName, rs[i].featureValue));
      }
      assert rs[..|rs|] == rs;
    }

    /** Adds a node per node_instances row of `graphId`, each with the
        features of its node_features rows. */
    method LoadNodes(graphId: int, g: Graph) returns (g': Graph)
      requires g.nodes == map[]
      ensures g' == g.(nodes := NodesOf(Tables(), graphId))
    {
      var ns := Filter(nodeInstances, NodeRowOf(graphId));
      g' := g;
      for i := 0 to |ns|
        invariant g'.features == g.features && g'.edges == g.edges
        invariant g'.nodes.Keys == set r | r in ns[..i] :: r.id
        invariant forall n :: n in g'.nodes ==> g'.nodes[n] == NodeFeatureSet(nodeFeatures, graphId, n)
      {
        assert ns[..i + 1] == ns[..i] + [ns[i]];
        var nid := ns[i].id;
        g' := AddNode(g', nid);
        g' := LoadNodeFeatures(graphId, nid, g');
      }
      assert ns[..|ns|] == ns;
      assert g'.nodes == NodesOf(Tables(), graphId);
    }

    /** Adds to node `nid` the features of its node_features rows. */
    method LoadNodeFeatures(graphId: int, nid: int, g: Graph) returns (g': Graph)
      requires nid in g.nodes
      ensures g'.features == g.features && g'.edges == g.edges && g'.nodes.Keys == g.nodes.Keys
      ensures g'.nodes[nid] == g.nodes[nid] + NodeFeatureSet(nodeFeatures, graphId, nid)
      ensures forall n :: n in g.nodes && n != nid ==> g'.nodes[n] == g.nodes[n]
    {
      var tags := Filter(nodeFeatures, NodeFeatureRowOfNode(graphId, nid));
      g' := g;
      for j := 0 to |tags|
        invariant g'.features == g.features && g'.edges == g.edges && g'.nodes.Keys == g.nodes.Keys
        invariant g'.nodes[nid] == g.nodes[nid] + set r | r in tags[..j] :: Feature(r.featureName, r.featureValue)
        invariant forall n :: n in g.nodes && n != nid ==> g'.nodes[n] == g.nodes[n]
      {
        assert tags[..j + 1] == tags[..j] + [tags[j]];
        g' := AddNodeFeature(g', nid, Feature(tags[j].featureName, tags[j].featureValue));
      }
      assert tags[..|tags|] == tags;
    }

    /** Adds an edge per edge_instances row of `graphId`, with its endpoints
        and the features of its edge_features rows. */
    method LoadEdges(graphId: int, g: Graph) returns (g': Graph)
      requires EdgeKeysUnique(edgeInstances)
      requires g.edges == map[]
      ensures g'.features == g.features && g'.nodes == g.nodes
      ensures g'.edges == EdgeMap(edgeInstances, graphId, edgeFeatures)
    {
      var es := Filter(edgeInstances, EdgeRowOf(graphId));
      assert forall r1, r2 :: r1 in es && r2 in es && r1.id == r2.id ==> r1 == r2;
      g' := g;
      for i := 0 to |es|
        invariant g'.features == g.features && g'.nodes == g.nodes
        invariant EdgesLoaded(g'.edges, es[..i], graphId, edgeFeatures)
      {
        ghost var before := g'.edges;
        var eid := es[i].id;
        g' := AddEdge(g', eid, es[i].fromNodeId, es[i].toNodeId);
        g' := LoadEdgeFeatures(graphId, eid, g');
        EdgesLoadedStep(before, g'.edges, es, i, graphId, edgeFeatures);
      }
      assert es[..|es|] == es;
      EdgesLoadedAll(g'.edges, edgeInstances, graphId, edgeFeatures);
    }

    /** Adds to edge `eid` the features of its edge_features rows. */
    method LoadEdgeFeatures(graphId: int, eid: int, g: Graph) returns (g': Graph)
      requires eid in g.edges
      ensures g'.features == g.features && g'.nodes == g.nodes && g'.edges.Keys == g.edges.Keys
      ensures g'.edges[eid] == g.edges[eid].(features := g.edges[eid].features + EdgeFeatureSet(edgeFeatures, graphId, eid))
      ensures forall e :: e in g.edges && e != eid ==> g'.edges[e] == g.edges[e]
    {
      var tags := Filter(edgeFeatures, EdgeFeatureRowOfEdge(graphId, eid));
      g' := g;
      for j := 0 to |tags|
        invariant g'.features == g.features && g'.nodes == g.nodes && g'.edges.Keys == g.edges.Keys
        invariant g'.edges[eid] == g.edges[eid].(features := g.edges[eid].features + set r | r in tags[..j] :: Feature(r.featureName, r.featureValue))
        invariant forall e :: e in g.edges && e != eid ==> g'.edges[e] == g.edges[e]
      {
        assert tags[..j + 1] == tags[..j] + [tags[j]];
        g' := AddEdgeFeature(g', eid, Feature(tags[j].featureName, tags[j].featureValue));
      }
      assert tags[..|tags|] == tags;
    }

    // -------------------------------------------------------------------
    // Removing a graph.

    /** Removes graph `graphId`: after retrieving it (which fails on an
        absent id), deletes its graph_instances, node_instances,
        edge_instances and graph_features rows, then the node_features rows
        of each of its nodes and the edge_features rows of each of its edges.
        The DELETE on graph_indices names a table that does not exist; its
        error is swallowed and it changes nothing. */
    method DeleteGraph(graphId: int) returns (r: Outcome)
      requires Valid()
      modifies this
      ensures Valid()
      ensures r.Fail? <==> graphId !in GraphIds(old(graphInstances))
      ensures r.Fail? ==> r.error == NoSuchGraph(graphId) && Tables() == old(Tables())
      ensures r.Pass? ==> Tables() == WithoutGraph(old(Tables()), graphId)
      ensures autoIncrement == old(autoIncrement) && lastInsertId == old(lastInsertId)
    {
      var got := RetrieveGraph(graphId);
      if got.Err? {
        return Fail(got.error);
      }
      var g := got.value;
      ghost var db := Tables();
      DeleteProperties.StoredGraphIds(db, graphId);
      DeleteRows(graphId, g.nodes.Keys, g.edges.Keys);
      DeleteProperties.DeletedTablesRemoveAll(db, graphId);
      DeleteProperties.WithoutGraphWellFormed(db, graphId, autoIncrement);
      return Pass;
    }

    /** The DELETE statements of a removal, given the node and edge ids the
        graph's rows list. */
    method DeleteRows(graphId: int, nids: set<int>, eids: set<int>)
      requires nids == NodeIdsOf(nodeInstances, graphId) && eids == EdgeIdsOf(edgeInstances, graphId)
      modifies this
      ensures Tables() == DeletedTables(old(Tables()), graphId)
      ensures autoIncrement == old(autoIncrement) && lastInsertId == old(lastInsertId)
    {
      graphInstances := Filter(graphInstances, GraphRowNotOf(graphId));
      nodeInstances := Filter(nodeInstances, NodeRowNotOf(graphId));
      edgeInstances := Filter(edgeInstances, EdgeRowNotOf(graphId));
      graphFeatures := Filter(graphFeatures, GraphFeatureRowNotOf(graphId));
      DeleteNodeFeatures(graphId, nids);
      DeleteEdgeFeatures(graphId, eids);
    }

    /** DELETE FROM node_features WHERE graph_id = graphId AND node_id = nid,
        once for each `nid` in `nids`. */
    method DeleteNodeFeatures(graphId: int, nids: set<int>)
      modifies this
      ensures nodeFeatures == Filter(old(nodeFeatures), NodeFeatureRowOutside(graphId, nids))
      ensures graphInstances == old(graphInstances) && nodeInstances == old(nodeInstances) && edgeInstances == old(edgeInstances)
      ensures graphFeatures == old(graphFeatures) && edgeFeatures == old(edgeFeatures)
      ensures autoIncrement == old(autoIncrement) && lastInsertId == old(lastInsertId)
    {
      ghost var done: set<int> := {};
      var rest := nids;
      FilterKeepsAll(nodeFeatures, NodeFeatureRowOutside(graphId, {}));
      while rest != {}
        invariant done + rest == nids
        invariant nodeFeatures == Filter(old(nodeFeatures), NodeFeatureRowOutside(graphId, done))
        invariant graphInstances == old(graphInstances) && nodeInstances == old(nodeInstances) && edgeInstances == old(edgeInstances)
        invariant graphFeatures == old(graphFeatures) && edgeFeatures == old(edgeFeatures)
        invariant autoIncrement == old(autoIncrement) && lastInsertId == old(lastInsertId)
        decreases rest
      {
        var nid := Pick(rest);
        FilterFilter(old(nodeFeatures), NodeFeatureRowOutside(graphId, done), NodeFeatureRowOutside(graphId, {nid}),
                     NodeFeatureRowOutside(graphId, done + {nid}));
        nodeFeatures := Filter(nodeFeatures, NodeFeatureRowOutside(graphId, {nid}));
        done, rest := done + {nid}, rest - {nid};
      }
    }

    /** DELETE FROM edge_features WHERE graph_id = graphId AND edge_id = eid,
        once for each `eid` in `eids`. */
    method DeleteEdgeFeatures(graphId: int, eids: set<int>)
      modifies this
      ensures edgeFeatures == Filter(old(edgeFeatures), EdgeFeatureRowOutside(graphId, eids))
      ensures graphInstances == old(graphInstances) && nodeInstances == old(nodeInstances) && edgeInstances == old(edgeInstances)
      ensures graphFeatures == old(graphFeatures) && nodeFeatures == old(nodeFeatures)
      ensures autoIncrement == old(autoIncrement) && lastInsertId == old(lastInsertId)
    {
      ghost var done: set<int> := {};
      var rest := eids;
      FilterKeepsAll(edgeFeatures, EdgeFeatureRowOutside(graphId, {}));
      while rest != {}
        invariant done + rest == eids
        invariant edgeFeatures == Filter(old(edgeFeatures), EdgeFeatureRowOutside(graphId, done))
        invariant graphInstances == old(graphInstances) && nodeInstances == old(nodeInstances) && edgeInstances == old(edgeInstances)
        invariant graphFeatures == old(graphFeatures) && nodeFeatures == old(nodeFeatures)
        invariant autoIncrement == old(autoIncrement) && lastInsertId == old(lastInsertId)
        decreases rest
      {
        var eid := Pick(rest);
        FilterFilter(old(edgeFeatures), EdgeFeatureRowOutside(graphId, done), EdgeFeatureRowOutside(graphId, {eid}),
                     EdgeFeatureRowOutside(graphId, done + {eid}));
        edgeFeatures := Filter(edgeFeatures, EdgeFeatureRowOutside(graphId, {eid}));
        done, rest := done + {eid}, rest - {eid};
      }
    }

    // -------------------------------------------------------------------
    // Counts.

    /** SELECT COUNT(*) FROM graph_instances: with `id` the primary key,
        the number of stored graphs. */
    function GetDatabaseSize(): (r: nat)
      reads this
      ensures DistinctIds(graphInstances) ==> r == |GraphIds(graphInstances)|
    {
      DeleteProperties.DistinctIdsCount(graphInstances);
      DatabaseSize(Tables())
    }

    /** The node rows that join a graph_instances row: every node row once
        no row is orphaned. */
    function GetNodesInDatabase(): (r: nat)
      reads this
      ensures r <= |nodeInstances|
      ensures NoOrphans(Tables()) ==> r == |nodeInstances|
    {
      WriteProperties.JoinCountsAllRows(Tables());
      NodesInDatabase(Tables())
    }

    /** The edge rows that join a graph_instances row: every edge row once
        no row is orphaned. */
    function GetEdgesInDatabase(): (r: nat)
      reads this
      ensures r <= |edgeInstances|
      ensures NoOrphans(Tables()) ==> r == |edgeInstances|
    {
      WriteProperties.JoinCountsAllRows(Tables());
      EdgesInDatabase(Tables())
    }

    // -------------------------------------------------------------------
    // Feature searches.

    /** The union of the three joins of graph_instances with graph_features,
        edge_features and node_features on graph id, keeping the rows whose
        feature matches `q`: the ids of the stored graphs with a matching
        feature row, each once. */
    method FindGraphs(q: FeatureQuery) returns (s: set<int>)
      ensures forall gid :: gid in s <==> gid in GraphIds(graphInstances) && HasFeatureRow(Tables(), gid, q)
    {
      var ids := GraphIds(graphInstances);
      var graphHits := Filter(graphFeatures, GraphFeatureHit(ids, q));
      var edgeHits := Filter(edgeFeatures, EdgeFeatureHit(ids, q));
      var nodeHits := Filter(nodeFeatures, NodeFeatureHit(ids, q));
      s := AddOwners(graphHits, (r: GraphFeatureRow) => r.graphId, {});
      s := AddOwners(edgeHits, (r: EdgeFeatureRow) => r.graphId, s);
      s := AddOwners(nodeHits, (r: NodeFeatureRow) => r.graphId, s);
      forall gid | gid in ids && HasFeatureRow(Tables(), gid, q)
        ensures gid in s
      {
        if exists r :: r in graphFeatures && r.graphId == gid && q.Matches(r.featureName, r.featureValue) {
          var r :| r in graphFeatures && r.graphId == gid && q.Matches(r.featureName, r.featureValue);
          assert r in graphHits;
        } else if exists r :: r in edgeFeatures && r.graphId == gid && q.Matches(r.featureName, r.featureValue) {
          var r :| r in edgeFeatures && r.graphId == gid && q.Matches(r.featureName, r.featureValue);
          assert r in edgeHits;
        } else {
          var r :| r in nodeFeatures && r.graphId == gid && q.Matches(r.featureName, r.featureValue);
          assert r in nodeHits;
        }
      }
    }

    /** The stored graphs with a graph-, node- or edge-level feature named
        `name`. */
    method RetrieveGraphsWithFeatureName(name: string) returns (s: set<int>)
      ensures forall gid :: gid in s <==> gid in GraphIds(graphInstances) && HasFeatureRow(Tables(), gid, NameIs(name))
    {
      s := FindGraphs(NameIs(name));
    }

    /** The stored graphs with a graph-, node- or edge-level feature equal to
        `f`, name and value. */
    method RetrieveGraphsWithFeature(f: Feature) returns (s: set<int>)
      ensures forall gid :: gid in s <==> gid in GraphIds(graphInstances) && HasFeatureRow(Tables(), gid, FeatureIs(f))
    {
      s := FindGraphs(FeatureIs(f));
    }

    // -------------------------------------------------------------------
    // The id iterator.

    /** An iterator over the stored graph ids, positioned before the first. */
    method GetGraphIdStream() returns (it: GraphIdIterator)
      ensures fresh(it) && it.store == this && it.id == 0
    {
      it := new GraphIdIterator(this);
    }
  }

  /** Adds the owning graph id of each row of a query result to the set
      `s0`, as the searches fill their HashSet. */
  method AddOwners<T>(rows: seq<T>, owner: T -> int, s0: set<int>) returns (s: set<int>)
    ensures forall x :: x in s <==> x in s0 || exists r :: r in rows && owner(r) == x
  {
    s := s0;
    for i := 0 to |rows|
      invariant forall x :: x in s <==> x in s0 || exists k :: 0 <= k < i && owner(rows[k]) == x
    {
      s := s + {owner(rows[i])};
    }
  }

  /** The iterator behind the id stream: it remembers the last id it
      returned and asks the store each time for the least stored id above it. */
  class GraphIdIterator {
    const store: MysqlDBInterface
    var id: int

    constructor (store: MysqlDBInterface)
      ensures this.store == store && id == 0
    {
      this.store := store;
      id := 0;
    }

    /** Whether some stored id lies above the last one returned. */
    method HasNext() returns (b: bool)
      ensures b <==> IdsAbove(store.graphInstances, id) != {}
    {
      b := LeastIdAbove(store.graphInstances, id).Some?;
    }

    /** The least stored id above the last one returned, which becomes the
        new position; fails, and stays put, when there is none. */
    method Next() returns (r: Result<int>)
      modifies this
      ensures r.Ok? <==> IdsAbove(store.graphInstances, old(id)) != {}
      ensures r.Err? ==> r.error == NoElementsRemaining && id == old(id)
      ensures r.Ok? ==> r.value == id && id in IdsAbove(store.graphInstances, old(id))
      ensures r.Ok? ==> forall x :: x in IdsAbove(store.graphInstances, old(id)) ==> id <= x
      ensures r.Ok? ==> IdStream(store.graphInstances, old(id)) == [id] + IdStream(store.graphInstances, id)
    {
      match LeastIdAbove(store.graphInstances, id)
      case Some(m) =>
        id := m;
        r := Ok(m);
      case None =>
        r := Err(NoElementsRemaining);
    }
  }

  /** `m` holds exactly the edges of the edge rows `rows`, each with its
      endpoints and the features of graph `gid`'s edge_features rows for it. */
  ghost predicate EdgesLoaded(m: map<int, Edge>, rows: seq<EdgeInstanceRow>, gid: int, features: seq<EdgeFeatureRow>)
  {
    m.Keys == (set r | r in rows :: r.id) &&
    forall r :: r in rows ==> m[r.id] == Edge(r.fromNodeId, r.toNodeId, EdgeFeatureSet(features, gid, r.id))
  }

  /** Loading the next edge row of a graph whose edge keys are unique:
      `m0` before, `m` after. */
  lemma EdgesLoadedStep(m0: map<int, Edge>, m: map<int, Edge>, es: seq<EdgeInstanceRow>, i: int,
                        gid: int, features: seq<EdgeFeatureRow>)
    requires 0 <= i < |es|
    requires forall r1, r2 :: r1 in es && r2 in es && r1.id == r2.id ==> r1 == r2
    requires EdgesLoaded(m0, es[..i], gid, features)
    requires m.Keys == m0.Keys + {es[i].id}
    requires forall e :: e in m0 && e != es[i].id ==> m[e] == m0[e]
    requires m[es[i].id] == Edge(es[i].fromNodeId, es[i].toNodeId, EdgeFeatureSet(features, gid, es[i].id))
    ensures EdgesLoaded(m, es[..i + 1], gid, features)
  {
    var next := es[i];
    assert es[..i + 1] == es[..i] + [next];
    assert (set r | r in es[..i + 1] :: r.id) == (set r | r in es[..i] :: r.id) + {next.id};
    assert forall r :: r in es[..i] ==> r in es;
    forall r | r in es[..i + 1]
      ensures m[r.id] == Edge(r.fromNodeId, r.toNodeId, EdgeFeatureSet(features, gid, r.id))
    {
      if r != next {
        assert r in es[..i];
      }
    }
  }

  /** All edge rows of a graph loaded: the map is the graph's edge map. */
  lemma EdgesLoadedAll(m: map<int, Edge>, ei: seq<EdgeInstanceRow>, gid: int, features: seq<EdgeFeatureRow>)
    requires EdgeKeysUnique(ei) && EdgesLoaded(m, Filter(ei, EdgeRowOf(gid)), gid, features)
    ensures m == EdgeMap(ei, gid, features)
  {
    var es := Filter(ei, EdgeRowOf(gid));
    var full := EdgeMap(ei, gid, features);
    assert m.Keys == full.Keys;
    forall e | e in m
      ensures m[e] == full[e]
    {
      var r :| r in es && r.id == e;
    }
  }
}
