// Neighbourhoods of an author (get_subgraph_author) and the authors of one
// conference (get_subgraph_conf), both returned as induced subgraphs.

module Hops {
  import opened Records
  import opened Graphs
  import opened Paths

  // ---------------------------------------------------------------------
  // Breadth-first shells
  // ---------------------------------------------------------------------

  /** Every neighbour of a node of s. */
  function Nbrs(g: Graph, s: set<AuthorId>): set<AuthorId>
  {
    set u, v | u in s && u in g.adj && v in g.adj[u] :: v
  }

  /** Shell n: the author for n = 0, and otherwise the neighbours of shell n-1
      not in any earlier shell. */
  function Shell(g: Graph, a: AuthorId, n: nat): set<AuthorId>
    decreases n, 0
  {
    if n == 0 then {a} else Nbrs(g, Shell(g, a, n - 1)) - Seen(g, a, n - 1)
  }

  /** The union of shells 0 to n. */
  function Seen(g: Graph, a: AuthorId, n: nat): set<AuthorId>
    decreases n, 1
  {
    if n == 0 then {a} else Seen(g, a, n - 1) + Shell(g, a, n)
  }

  /** v can be reached from a by a path of at most n edges. */
  ghost predicate WithinHops(g: Graph, a: AuthorId, v: AuthorId, n: nat)
  {
    exists p {:trigger PathFrom(g, a, v, p)} :: PathFrom(g, a, v, p) && |p| <= n + 1
  }

  /** v is at hop distance exactly n from a. */
  ghost predicate AtHop(g: Graph, a: AuthorId, v: AuthorId, n: nat)
  {
    WithinHops(g, a, v, n) && (n == 0 || !WithinHops(g, a, v, n - 1))
  }

  lemma SeenGrows(g: Graph, a: AuthorId, m: nat, n: nat)
    requires m <= n
    ensures Seen(g, a, m) <= Seen(g, a, n)
    decreases n - m
  {
    if m < n {
      SeenGrows(g, a, m, n - 1);
    }
  }

  lemma ShellInSeen(g: Graph, a: AuthorId, n: nat)
    ensures Shell(g, a, n) <= Seen(g, a, n)
  {
  }

  /** Distinct shells share no node. */
  lemma ShellsDisjoint(g: Graph, a: AuthorId, i: nat, j: nat)
    requires i < j
    ensures Shell(g, a, i) * Shell(g, a, j) == {}
  {
    SeenGrows(g, a, i, j - 1);
    ShellInSeen(g, a, i);
  }

  lemma NbrsUnion(g: Graph, s: set<AuthorId>, t: set<AuthorId>)
    ensures Nbrs(g, s + t) == Nbrs(g, s) + Nbrs(g, t)
  {
  }

  /** The next union of shells is the last one plus all its neighbours. */
  lemma {:induction false} SeenStep(g: Graph, a: AuthorId, n: nat)
    ensures Seen(g, a, n + 1) == Seen(g, a, n) + Nbrs(g, Seen(g, a, n))
    ensures Nbrs(g, Seen(g, a, n)) <= Seen(g, a, n + 1)
    decreases n
  {
    var seen, next := Seen(g, a, n), Seen(g, a, n + 1);
    assert next == seen + Nbrs(g, Shell(g, a, n)) by {
      assert Shell(g, a, n + 1) == Nbrs(g, Shell(g, a, n)) - seen;
    }
    if n == 0 {
      assert Shell(g, a, 0) == seen;
    } else {
      var before, shell := Seen(g, a, n - 1), Shell(g, a, n);
      assert seen == before + shell;
      assert Nbrs(g, before) <= seen by {
        SeenStep(g, a, n - 1);
      }
      assert Nbrs(g, seen) == Nbrs(g, before) + Nbrs(g, shell) by {
        NbrsUnion(g, before, shell);
      }
      Absorbed(next, seen, Nbrs(g, seen), Nbrs(g, before), Nbrs(g, shell));
    }
  }

  /** Set algebra for SeenStep: adding neighbours already in t changes nothing. */
  lemma Absorbed<T>(next: set<T>, t: set<T>, nt: set<T>, ns: set<T>, nh: set<T>)
    requires next == t + nh && nt == ns + nh && ns <= t
    ensures next == t + nt && nt <= next
  {
  }

  lemma NbrsOne(g: Graph, u: AuthorId)
    requires u in g.adj
    ensures Nbrs(g, {u}) == g.adj[u].Keys
  {
    forall v | v in g.adj[u]
      ensures v in Nbrs(g, {u})
    {
      assert u in {u} && u in g.adj && v in g.adj[u];
    }
  }

  /** Every shell holds nodes of the graph only. */
  lemma {:induction false} SeenNodes(g: Graph, a: AuthorId, n: nat)
    requires Valid(g) && a in g.nodes
    ensures Seen(g, a, n) <= g.nodes.Keys
  {
    if n > 0 {
      SeenNodes(g, a, n - 1);
      forall v | v in Shell(g, a, n)
        ensures v in g.nodes
      {
        var u :| u in Shell(g, a, n - 1) && u in g.adj && v in g.adj[u];
        NeighboursAreNodes(g, u);
      }
    }
  }

  /** A path extended by one edge at its end is a path. */
  lemma HopExtend(g: Graph, a: AuthorId, u: AuthorId, p: seq<AuthorId>, v: AuthorId)
    requires Valid(g) && PathFrom(g, a, u, p) && Edge(g, u, v)
    ensures PathFrom(g, a, v, p + [v])
  {
    var q := p + [v];
    NeighboursAreNodes(g, u);
    forall i | 0 <= i < |q| - 1
      ensures Hop(g, q, i)
    {
      if i < |p| - 1 {
        assert Hop(g, p, i);
      }
    }
  }

  /** The union of shells 0 to n holds exactly the nodes within n hops. */
  lemma SeenWithin(g: Graph, a: AuthorId, v: AuthorId, n: nat)
    requires Valid(g) && a in g.nodes
    ensures v in Seen(g, a, n) <==> WithinHops(g, a, v, n)
  {
    if v in Seen(g, a, n) {
      SeenToWithin(g, a, v, n);
    }
    if WithinHops(g, a, v, n) {
      WithinToSeen(g, a, v, n);
    }
  }

  lemma {:induction false} SeenToWithin(g: Graph, a: AuthorId, v: AuthorId, n: nat)
    requires Valid(g) && a in g.nodes && v in Seen(g, a, n)
    ensures WithinHops(g, a, v, n)
    decreases n
  {
    if n == 0 {
      assert PathFrom(g, a, a, [a]);
    } else if v in Seen(g, a, n - 1) {
      SeenToWithin(g, a, v, n - 1);
      var p :| PathFrom(g, a, v, p) && |p| <= n;
    } else {
      var u :| u in Shell(g, a, n - 1) && u in g.adj && v in g.adj[u];
      ShellInSeen(g, a, n - 1);
      SeenToWithin(g, a, u, n - 1);
      var p :| PathFrom(g, a, u, p) && |p| <= n;
      HopExtend(g, a, u, p, v);
      assert PathFrom(g, a, v, p + [v]);
    }
  }

  lemma {:induction false} WithinToSeen(g: Graph, a: AuthorId, v: AuthorId, n: nat)
    requires Valid(g) && a in g.nodes && WithinHops(g, a, v, n)
    ensures v in Seen(g, a, n)
    decreases n
  {
    var p :| PathFrom(g, a, v, p) && |p| <= n + 1;
    if |p| == 1 {
      SeenGrows(g, a, 0, n);
    } else {
      var q := p[..|p| - 1];
      var u := q[|q| - 1];
      DropLast(g, p);
      assert PathFrom(g, a, u, q);
      WithinToSeen(g, a, u, n - 1);
      SeenStep(g, a, n - 1);
      NextToSeen(g, a, u, v, n - 1);
    }
  }

  lemma NextToSeen(g: Graph, a: AuthorId, u: AuthorId, v: AuthorId, n: nat)
    requires u in Seen(g, a, n) && Edge(g, u, v)
    ensures v in Nbrs(g, Seen(g, a, n))
  {
  }

  /** Shell n holds exactly the nodes at hop distance n. */
  lemma ShellAtHop(g: Graph, a: AuthorId, v: AuthorId, n: nat)
    requires Valid(g) && a in g.nodes
    ensures v in Shell(g, a, n) <==> AtHop(g, a, v, n)
  {
    SeenWithin(g, a, v, n);
    if n > 0 {
      SeenWithin(g, a, v, n - 1);
    }
  }

  /** The neighbours of frontier, gathered node by node (the loop extending edges). */
  method Neighbours(g: Graph, frontier: set<AuthorId>) returns (edges: set<AuthorId>)
    requires frontier <= g.adj.Keys
    ensures edges == Nbrs(g, frontier)
  {
    edges := {};
    var rest := frontier;
    while rest != {}
      invariant rest <= frontier && edges == Nbrs(g, frontier - rest)
      decreases rest
    {
      if forall u :: u !in rest {
        assert false;
      }
      var u :| u in rest;
      NbrsUnion(g, frontier - rest, {u});
      NbrsOne(g, u);
      assert frontier - (rest - {u}) == (frontier - rest) + {u};
      edges := edges + g.adj[u].Keys;
      rest := rest - {u};
    }
  }

  /** The result of get_subgraph_author: the induced subgraph and the shells. */
  datatype Hood = Hood(subgraph: Graph, shells: seq<set<AuthorId>>)

  /** get_subgraph_author: an unknown author ends the program (None here);
      otherwise max(0, maxHop) + 1 shells, shell i being the nodes at hop
      distance i, and the subgraph induced on the union of the shells. */
  method GetSubgraphAuthor(g: Graph, author: AuthorId, maxHop: int) returns (r: Option<Hood>)
    requires Valid(g)
    ensures r.None? <==> author !in g.nodes
    ensures r.Some? ==> var n := if maxHop > 0 then maxHop else 0;
              && |r.value.shells| == n + 1
              && (forall i :: 0 <= i <= n ==> r.value.shells[i] == Shell(g, author, i))
              && r.value.subgraph == Induced(g, Seen(g, author, n))
  {
    if author !in g.nodes {
      return None;
    }
    var frontier := {author};
    var seen := {author};
    var shells := [{author}];
    var i := 0;
    while i < maxHop
      invariant 0 <= i && (maxHop <= 0 ==> i == 0) && (maxHop > 0 ==> i <= maxHop)
      invariant ShellsUpTo(g, author, shells, i)
      invariant frontier == Shell(g, author, i) && seen == Seen(g, author, i)
    {
      frontier, seen := NextShell(g, author, i, frontier, seen);
      ShellsSnoc(g, author, shells, i);
      shells := shells + [frontier];
      i := i + 1;
    }
    ghost var n := if maxHop > 0 then maxHop else 0;
    assert i == n;
    r := Some(Hood(Induced(g, seen), shells));
  }

  /** shells holds shells 0 to i, in order. */
  ghost predicate ShellsUpTo(g: Graph, a: AuthorId, shells: seq<set<AuthorId>>, i: nat)
  {
    |shells| == i + 1 && forall k :: 0 <= k <= i ==> shells[k] == Shell(g, a, k)
  }

  lemma ShellsSnoc(g: Graph, a: AuthorId, shells: seq<set<AuthorId>>, i: nat)
    requires ShellsUpTo(g, a, shells, i)
    ensures ShellsUpTo(g, a, shells + [Shell(g, a, i + 1)], i + 1)
  {
  }

  /** One hop of the search: the new shell is the neighbours of the last one
      not seen yet, and they join the seen nodes. */
  method NextShell(g: Graph, author: AuthorId, i: nat, frontier: set<AuthorId>, seen: set<AuthorId>)
    returns (frontier': set<AuthorId>, seen': set<AuthorId>)
    requires Valid(g) && author in g.nodes
    requires frontier == Shell(g, author, i) && seen == Seen(g, author, i)
    ensures frontier' == Shell(g, author, i + 1) && seen' == Seen(g, author, i + 1)
  {
    ShellInSeen(g, author, i);
    SeenNodes(g, author, i);
    var edges := Neighbours(g, frontier);
    frontier' := edges - seen;
    seen' := seen + frontier';
  }

  /** With no hops the subgraph is the author alone, with its self-loop if it has one. */
  lemma ZeroHops(g: Graph, author: AuthorId)
    requires Valid(g) && author in g.nodes
    ensures Induced(g, Seen(g, author, 0)).nodes.Keys == {author}
    ensures forall u, v :: Edge(Induced(g, Seen(g, author, 0)), u, v) <==> u == author && v == author && Edge(g, author, author)
  {
    InducedSubgraph(g, {author});
  }

  // ---------------------------------------------------------------------
  // Conference subgraph
  // ---------------------------------------------------------------------

  /** The authors with a publication at conference c. */
  function Attendees(g: Graph, c: int): set<AuthorId>
  {
    set x | x in g.nodes && c in g.nodes[x].conferences
  }

  /** get_subgraph_conf: the loop over the nodes collecting those whose
      conferences include c, then the subgraph they induce. */
  method GetSubgraphConf(g: Graph, c: int) returns (sub: Graph)
    ensures sub.nodes.Keys == Attendees(g, c)
    ensures forall x :: x in sub.nodes ==> x in g.nodes && c in g.nodes[x].conferences && sub.nodes[x] == g.nodes[x]
    ensures forall u, v :: Edge(sub, u, v) <==>
              Edge(g, u, v) && u in g.nodes && v in g.nodes && c in g.nodes[u].conferences && c in g.nodes[v].conferences
    ensures forall u, v :: Edge(sub, u, v) ==> Edge(g, u, v) && sub.adj[u][v] == g.adj[u][v]
    ensures Valid(g) ==> Valid(sub)
  {
    var ids := {};
    var rest := g.nodes.Keys;
    while rest != {}
      invariant rest <= g.nodes.Keys
      invariant ids == Attendees(g, c) - rest
      decreases rest
    {
      if forall x :: x !in rest {
        assert false;
      }
      var x :| x in rest;
      if c in g.nodes[x].conferences {
        ids := ids + {x};
      }
      rest := rest - {x};
    }
    sub := Induced(g, ids);
    InducedSubgraph(g, ids);
  }
}
