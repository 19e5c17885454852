/** The in-memory graph model that the store persists: a labelled, directed
    multigraph whose node and edge ids are local to the graph, with
    (name, value) features at graph, node and edge level. */
module Graphs {

  /** A feature: a (name, value) pair of strings. */
  datatype Feature = Feature(name: string, value: string)

  /** An edge: its source and target node ids and its own feature set. */
  datatype Edge = Edge(source: int, target: int, features: set<Feature>)

  /** A graph: its graph-level features, its node ids (the keys of `nodes`)
      with their feature sets, and its edge ids (the keys of `edges`). */
  datatype Graph = Graph(features: set<Feature>, nodes: map<int, set<Feature>>, edges: map<int, Edge>)

  /** The freshly created builder graph: no features, no nodes, no edges. */
  const EmptyGraph := Graph({}, map[], map[])

  /** The failures the store reports: a graph id with no `graph_instances`
      row, an id iterator with nothing left, and an INSERT that produced no
      generated key. */
  datatype DbError = NoSuchGraph(id: int) | NoElementsRemaining | NoGeneratedKey

  datatype Option<T> = None | Some(value: T)

  datatype Result<T> = Ok(value: T) | Err(error: DbError)

  datatype Outcome = Pass | Fail(error: DbError)

  /** The two feature searches: by name only, or by name and value. */
  datatype FeatureQuery = NameIs(name: string) | FeatureIs(feature: Feature)
  {
    predicate Matches(name: string, value: string)
    {
      match this
      case NameIs(n) => name == n
      case FeatureIs(f) => name == f.name && value == f.value
    }
  }

  /** Some feature of `g`, at graph, node or edge level, matches `q`. */
  predicate HasMatchingFeature(g: Graph, q: FeatureQuery)
  {
    (exists f :: f in g.features && q.Matches(f.name, f.value)) ||
    (exists n, f :: n in g.nodes && f in g.nodes[n] && q.Matches(f.name, f.value)) ||
    (exists e, f :: e in g.edges && f in g.edges[e].features && q.Matches(f.name, f.value))
  }

  // The builder operations used while a graph is reconstructed from rows.

  function AddFeature(g: Graph, f: Feature): Graph
  {
    g.(features := g.features + {f})
  }

  function AddNode(g: Graph, nid: int): Graph
  {
    g.(nodes := g.nodes[nid := {}])
  }

  function AddNodeFeature(g: Graph, nid: int, f: Feature): Graph
  {
    g.(nodes := g.nodes[nid := (if nid in g.nodes then g.nodes[nid] else {}) + {f}])
  }

  function AddEdge(g: Graph, eid: int, source: int, target: int): Graph
  {
    g.(edges := g.edges[eid := Edge(source, target, {})])
  }

  function AddEdgeFeature(g: Graph, eid: int, f: Feature): Graph
    requires eid in g.edges
  {
    g.(edges := g.edges[eid := g.edges[eid].(features := g.edges[eid].features + {f})])
  }
}
