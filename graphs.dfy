// The undirected co-authorship graph as a value: a node map and a symmetric
// adjacency map whose entries carry the edge weight (None until weights are
// assigned), plus the extended distances used by the searches.

module Graphs {
  import opened Records

  /** A distance: infinite for a node not (yet) reached, or a finite value. */
  datatype Dist = Inf | Fin(value: real)

  predicate Le(a: Dist, b: Dist)
  {
    b.Inf? || (a.Fin? && a.value <= b.value)
  }

  predicate Lt(a: Dist, b: Dist)
  {
    a.Fin? && (b.Inf? || a.value < b.value)
  }

  function Min(a: Dist, b: Dist): (m: Dist)
    ensures Le(m, a) && Le(m, b)
    ensures m == a || m == b
  {
    if Le(a, b) then a else b
  }

  /** nodes maps an author id to its data; adj[u][v] is the weight of edge u-v. */
  datatype Graph = Graph(nodes: map<AuthorId, NodeData>,
                         adj: map<AuthorId, map<AuthorId, Option<real>>>)

  predicate Edge(g: Graph, u: AuthorId, v: AuthorId)
  {
    u in g.adj && v in g.adj[u]
  }

  /** Every node has an adjacency entry and every edge is stored in both
      directions with one weight, as in an undirected graph. */
  ghost predicate Valid(g: Graph)
  {
    && g.adj.Keys == g.nodes.Keys
    && (forall u, v {:trigger Edge(g, u, v)} :: Edge(g, u, v) ==> Edge(g, v, u) && g.adj[v][u] == g.adj[u][v])
  }

  /** Sets the weight of edge u-v, in both directions, to w (adding the edge
      if it is missing), as networkx's add_edge and edge-attribute update do. */
  function PutEdge(g: Graph, u: AuthorId, v: AuthorId, w: Option<real>): (h: Graph)
    requires u in g.adj && v in g.adj
    ensures h.nodes == g.nodes && h.adj.Keys == g.adj.Keys
    ensures forall x, y {:trigger Edge(h, x, y)} :: Edge(h, x, y) <==> Edge(g, x, y) || (x == u && y == v) || (x == v && y == u)
    ensures Edge(h, u, v) && Edge(h, v, u) && h.adj[u][v] == w && h.adj[v][u] == w
    ensures forall x, y {:trigger Edge(h, x, y)} :: Edge(h, x, y) && !((x == u && y == v) || (x == v && y == u)) ==>
              Edge(g, x, y) && h.adj[x][y] == g.adj[x][y]
    ensures Valid(g) ==> Valid(h)
  {
    var adj := g.adj[u := g.adj[u][v := w]];
    Graph(g.nodes, adj[v := adj[v][u := w]])
  }

  /** The endpoints of an edge are nodes of the graph. */
  lemma NeighboursAreNodes(g: Graph, u: AuthorId)
    requires Valid(g) && u in g.adj
    ensures g.adj[u].Keys <= g.nodes.Keys
  {
    forall v | v in g.adj[u]
      ensures v in g.nodes
    {
      assert Edge(g, u, v);
    }
  }

  ghost predicate NonNegative(g: Graph)
  {
    forall u, v {:trigger Edge(g, u, v)} :: Edge(g, u, v) ==> g.adj[u][v].Some? && g.adj[u][v].value >= 0.0
  }

  /** A graph the searches accept: well formed, every edge weighted, no weight negative. */
  ghost predicate Weighted(g: Graph)
  {
    Valid(g) && NonNegative(g)
  }

  function W(g: Graph, u: AuthorId, v: AuthorId): real
    requires Weighted(g) && Edge(g, u, v)
  {
    g.adj[u][v].value
  }

  /** The subgraph induced on the ids of s that are nodes of g (ids that are
      not nodes are ignored), with every edge of g between two of them. */
  function Induced(g: Graph, s: set<AuthorId>): Graph
  {
    Graph(map u | u in g.nodes && u in s :: g.nodes[u],
          map u | u in g.adj && u in s :: map v | v in g.adj[u] && v in s :: g.adj[u][v])
  }

  /** The induced subgraph keeps the nodes of s with their data, and exactly
      the edges of g between two of them with their weights. */
  lemma InducedSubgraph(g: Graph, s: set<AuthorId>)
    ensures var h := Induced(g, s);
            && h.nodes.Keys == g.nodes.Keys * s
            && (forall u :: u in h.nodes ==> h.nodes[u] == g.nodes[u])
            && (forall u, v :: Edge(h, u, v) <==> u in s && v in s && Edge(g, u, v))
            && (forall u, v :: Edge(h, u, v) ==> Edge(g, u, v) && h.adj[u][v] == g.adj[u][v])
            && (Valid(g) ==> Valid(h))
            && (Weighted(g) ==> Weighted(h))
  {
  }
}
