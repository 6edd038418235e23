// The earlier copy of the engine (graph.py at the repository root). It builds
// the same graph and weights, but its shortest-path search keeps no
// predecessors and returns differently shaped results, its neighbourhood
// search leaves the centre author out of the subgraph, and its group numbers
// neither filter unknown seeds nor guard an empty seed list.

module Legacy {
  import opened Records
  import opened Graphs
  import opened Paths
  import Builder
  import Dijkstra
  import Hops
  import HubPath
  import Groups

  // ---------------------------------------------------------------------
  // _shortest_path
  // ---------------------------------------------------------------------

  /** What _shortest_path gives back: the popped distance of finish, the whole
      distance map, or the networkx error raised on expanding an unknown start. */
  datatype Outcome = Popped(dist: real) | Distances(distances: map<AuthorId, Dist>) | NotANode

  /** The outcome of _shortest_path from start. An unknown start is popped first
      and either is finish (distance 0) or fails to expand. From a known start
      the search stops when finish is popped, which happens exactly when finish
      is reachable, and otherwise every node's distance is shortest. */
  ghost predicate ShortestOutcome(g: Graph, start: AuthorId, finish: Option<AuthorId>, r: Outcome)
    requires Weighted(g)
  {
    if start !in g.nodes then
      r == (if finish == Some(start) then Popped(0.0) else NotANode)
    else if finish.Some? && Reachable(g, start, finish.value) then
      r.Popped? && IsShortestDist(g, start, finish.value, Fin(r.dist))
    else
      r.Distances? && IsShortestFrom(g, start, r.distances) && r.distances[start] == Fin(0.0)
  }

  /** _shortest_path: the heap loop of shortest_path without the predecessor map. */
  method ShortestPath(g: Graph, start: AuthorId, finish: Option<AuthorId>) returns (r: Outcome)
    requires Weighted(g)
    ensures ShortestOutcome(g, start, finish, r)
  {
    if start !in g.nodes {
      // the first pop is (0, start): returned if it is finish, else expanding it fails
      if finish == Some(start) {
        return Popped(0.0);
      }
      return NotANode;
    }
    var dist, prev, stopped, key := Dijkstra.Search(g, start, finish);
    if stopped {
      r := Popped(key);
    } else {
      r := Distances(dist);
    }
  }

  /** Two maps of shortest distances from the same start are equal. */
  lemma ShortestFromUnique(g: Graph, start: AuthorId, d1: map<AuthorId, Dist>, d2: map<AuthorId, Dist>)
    requires Weighted(g) && IsShortestFrom(g, start, d1) && IsShortestFrom(g, start, d2)
    ensures d1 == d2
  {
    forall v | v in d1
      ensures d1[v] == d2[v]
    {
      ShortestDistUnique(g, start, v, d1[v], d2[v]);
    }
  }

  /** The outcome does not depend on how heap ties are broken. */
  lemma OutcomeUnique(g: Graph, start: AuthorId, finish: Option<AuthorId>, r1: Outcome, r2: Outcome)
    requires Weighted(g) && ShortestOutcome(g, start, finish, r1) && ShortestOutcome(g, start, finish, r2)
    ensures r1 == r2
  {
    if start in g.nodes {
      if finish.Some? && Reachable(g, start, finish.value) {
        ShortestDistUnique(g, start, finish.value, Fin(r1.dist), Fin(r2.dist));
      } else {
        ShortestFromUnique(g, start, r1.distances, r2.distances);
      }
    }
  }

  /** Without finish, a known start gets the same distance map from both
      versions: the shortest distances from start. */
  lemma AgreesWithCurrent(g: Graph, start: AuthorId, r: Outcome, distances: map<AuthorId, Dist>)
    requires Weighted(g) && start in g.nodes && ShortestOutcome(g, start, None, r)
    requires IsShortestFrom(g, start, distances)
    ensures r == Distances(distances)
  {
    ShortestFromUnique(g, start, r.distances, distances);
  }

  // ---------------------------------------------------------------------
  // aris_distance
  // ---------------------------------------------------------------------

  /** aris_distance: None when no node is the hub, and otherwise the outcome of
      _shortest_path from the author to the hub. */
  method ArisDistance(g: Graph, isHub: Author -> bool, author: AuthorId) returns (r: Option<Outcome>)
    requires Weighted(g)
    ensures r.None? <==> forall x :: x in g.nodes ==> !HubPath.IsHubNode(g, isHub, x)
    ensures r.Some? ==> exists h :: HubPath.IsHubNode(g, isHub, h) && ShortestOutcome(g, author, Some(h), r.value)
  {
    var hub := HubPath.FindHub(g, isHub);
    if hub.None? {
      return None;
    }
    var d := ShortestPath(g, author, hub);
    r := Some(d);
  }

  /** From a known author the hub is reached exactly when a path joins them,
      and the returned number is then the shortest distance. */
  lemma ArisOutcome(g: Graph, author: AuthorId, hub: AuthorId, r: Outcome)
    requires Weighted(g) && author in g.nodes && ShortestOutcome(g, author, Some(hub), r)
    ensures r.Popped? <==> Reachable(g, author, hub)
    ensures r.Popped? ==> IsShortestDist(g, author, hub, Fin(r.dist))
  {
  }

  // ---------------------------------------------------------------------
  // get_subgraph_author
  // ---------------------------------------------------------------------

  /** The frontier after n rounds: the ends of the walks of exactly n edges from a. */
  function Frontier(g: Graph, a: AuthorId, n: nat): set<AuthorId>
  {
    if n == 0 then {a} else Hops.Nbrs(g, Frontier(g, a, n - 1))
  }

  /** subgraph_ids after n rounds: the frontiers 1 to n, without frontier 0. */
  function Gathered(g: Graph, a: AuthorId, n: nat): set<AuthorId>
  {
    if n == 0 then {} else Gathered(g, a, n - 1) + Frontier(g, a, n)
  }

  /** Every frontier after the first holds nodes only. */
  lemma FrontierNodes(g: Graph, a: AuthorId, n: nat)
    requires Valid(g) && n >= 1
    ensures Frontier(g, a, n) <= g.adj.Keys
  {
    forall v | v in Frontier(g, a, n)
      ensures v in g.adj
    {
      var u :| u in Frontier(g, a, n - 1) && u in g.adj && v in g.adj[u];
      assert Edge(g, u, v);
    }
  }

  /** get_subgraph_author as written: an unknown author raises KeyError as soon
      as a round runs; the subgraph is induced on the gathered frontiers only,
      and entry i of the node list is frontier i minus what was seen before. */
  method GetSubgraphAuthor(g: Graph, author: AuthorId, d: int) returns (r: Option<Hops.Hood>)
    requires Valid(g)
    ensures r.None? <==> author !in g.nodes && d >= 1
    ensures r.Some? ==> var n := if d > 0 then d else 0;
              && |r.value.shells| == n + 1 && r.value.shells[0] == {author}
              && (forall i {:trigger r.value.shells[i]} :: 1 <= i <= n ==>
                    r.value.shells[i] == Frontier(g, author, i) - ({author} + Gathered(g, author, i - 1)))
              && r.value.subgraph == Induced(g, Gathered(g, author, n))
  {
    var frontier := {author};
    var gathered := {};
    var shells := [{author}];
    var seen := {author};
    var i := 0;
    while i < d
      invariant 0 <= i && (d <= 0 ==> i == 0) && (d > 0 ==> i <= d)
      invariant i > 0 ==> author in g.nodes
      invariant frontier == Frontier(g, author, i) && gathered == Gathered(g, author, i)
      invariant seen == {author} + gathered
      invariant |shells| == i + 1 && shells[0] == {author}
      invariant forall k {:trigger shells[k]} :: 1 <= k <= i ==>
                  shells[k] == Frontier(g, author, k) - ({author} + Gathered(g, author, k - 1))
    {
      if i > 0 {
        FrontierNodes(g, author, i);
      }
      if !(frontier <= g.adj.Keys) {
        return None;
      }
      var edges := Hops.Neighbours(g, frontier);
      frontier := edges;
      shells := shells + [frontier - seen];
      gathered := gathered + frontier;
      seen := seen + frontier;
      i := i + 1;
    }
    ghost var n := if d > 0 then d else 0;
    assert i == n;
    r := Some(Hops.Hood(Induced(g, gathered), shells));
  }

  /** The neighbours of everything seen in n rounds are what is gathered in n + 1. */
  lemma {:induction false} NbrsGathered(g: Graph, a: AuthorId, n: nat)
    ensures Hops.Nbrs(g, {a} + Gathered(g, a, n)) == Gathered(g, a, n + 1)
  {
    if n == 0 {
      assert {a} + Gathered(g, a, 0) == {a} == Frontier(g, a, 0);
      assert Gathered(g, a, 1) == Gathered(g, a, 0) + Frontier(g, a, 1);
    } else {
      NbrsGathered(g, a, n - 1);
      assert {a} + Gathered(g, a, n) == ({a} + Gathered(g, a, n - 1)) + Frontier(g, a, n);
      Hops.NbrsUnion(g, {a} + Gathered(g, a, n - 1), Frontier(g, a, n));
    }
  }

  /** The author together with the gathered frontiers are the nodes within n hops. */
  lemma {:induction false} GatheredSeen(g: Graph, a: AuthorId, n: nat)
    ensures {a} + Gathered(g, a, n) == Hops.Seen(g, a, n)
  {
    if n > 0 {
      var before, now := Gathered(g, a, n - 1), Gathered(g, a, n);
      var centred := {a} + before;
      var prior := Hops.Seen(g, a, n - 1);
      assert Hops.Seen(g, a, n) == prior + Hops.Nbrs(g, prior) by {
        Hops.SeenStep(g, a, n - 1);
      }
      assert centred == prior by {
        GatheredSeen(g, a, n - 1);
      }
      assert Hops.Nbrs(g, centred) == now by {
        NbrsGathered(g, a, n - 1);
      }
      Absorb({a}, before, Frontier(g, a, n), now);
    }
  }

  /** Set algebra for GatheredSeen: adding a superset of g0 absorbs g0. */
  lemma Absorb<T>(c: set<T>, g0: set<T>, f: set<T>, g1: set<T>)
    requires g1 == g0 + f
    ensures (c + g0) + g1 == c + g1
  {
  }

  /** The node list is the same in both versions: entry i is shell i. */
  lemma LegacyShells(g: Graph, a: AuthorId, i: nat)
    requires i >= 1
    ensures Frontier(g, a, i) - ({a} + Gathered(g, a, i - 1)) == Hops.Shell(g, a, i)
  {
    var before, shell, front := Hops.Seen(g, a, i - 1), Hops.Shell(g, a, i), Frontier(g, a, i);
    assert {a} + Gathered(g, a, i - 1) == before by {
      GatheredSeen(g, a, i - 1);
    }
    assert {a} + Gathered(g, a, i) == before + shell by {
      GatheredSeen(g, a, i);
    }
    NewOnes({a}, Gathered(g, a, i - 1), front, before, shell);
  }

  /** Set algebra for LegacyShells: if c + g0 is `before`, c + g0 + f is
      `before + s`, and s is disjoint from `before`, then f less `before` is s. */
  lemma NewOnes<T>(c: set<T>, g0: set<T>, f: set<T>, before: set<T>, s: set<T>)
    requires c + g0 == before && c + (g0 + f) == before + s && s * before == {}
    ensures f - before == s
  {
    forall x | x in s
      ensures x in f && x !in before
    {
      assert x !in s * before;
      assert x in before + s;
      assert x in c + (g0 + f);
      assert x !in c + g0;
    }
  }

  /** The subgraph misses at most the centre author: its nodes are the nodes
      within n hops, less the author unless a walk leads back to it. */
  lemma GatheredMissesCentre(g: Graph, a: AuthorId, n: nat)
    ensures Gathered(g, a, n) <= Hops.Seen(g, a, n)
    ensures Hops.Seen(g, a, n) - {a} <= Gathered(g, a, n)
  {
    GatheredSeen(g, a, n);
  }

  /** The centre is dropped: with no hop the subgraph is empty, and with one
      hop an author without a self-loop is missing, though both lie within
      reach of the author (shell 0 is the author). */
  lemma CentreDropped(g: Graph, a: AuthorId)
    requires Valid(g) && a in g.nodes && !Edge(g, a, a)
    ensures Induced(g, Gathered(g, a, 0)).nodes == map[]
    ensures a in Hops.Seen(g, a, 0) && a in Hops.Seen(g, a, 1)
    ensures a !in Gathered(g, a, 1)
    ensures a !in Induced(g, Gathered(g, a, 1)).nodes
  {
    InducedSubgraph(g, Gathered(g, a, 0));
    InducedSubgraph(g, Gathered(g, a, 1));
    Hops.SeenGrows(g, a, 0, 1);
    assert Frontier(g, a, 0) == {a};
    assert Gathered(g, a, 1) == Gathered(g, a, 0) + Frontier(g, a, 1) == Hops.Nbrs(g, {a});
    Hops.NbrsOne(g, a);
  }

  // ---------------------------------------------------------------------
  // The graph object
  // ---------------------------------------------------------------------

  /** The legacy graph object: a full and a reduced graph and a group-number
      map for each. */
  class LegacyGraph {
    var graph: Graph
    var redGraph: Graph
    var groupNumbers: map<AuthorId, Dist>
    var groupNumbersRed: map<AuthorId, Dist>

    /** The graph a `reduced` flag picks. */
    function Selected(reduced: bool): Graph
      reads this
    {
      if reduced then redGraph else graph
    }

    /** __init__ without the pickle cache: build the reduced graph, then the full one. */
    constructor (full: seq<Entry>, reduced: seq<Entry>)
      ensures Builder.Built(graph, full) && Builder.Built(redGraph, reduced)
      ensures groupNumbers == map[] && groupNumbersRed == map[]
    {
      graph := Graph(map[], map[]);
      redGraph := Graph(map[], map[]);
      groupNumbers := map[];
      groupNumbersRed := map[];
      new;
      CreateGraph(reduced, true);
      CreateGraph(full, false);
    }

    /** _create_graph: the entry loop into the selected field, then _add_weights on it. */
    method CreateGraph(es: seq<Entry>, reduced: bool)
      modifies this
      ensures Builder.Built(Selected(reduced), es)
      ensures Selected(!reduced) == old(Selected(!reduced))
      ensures groupNumbers == old(groupNumbers) && groupNumbersRed == old(groupNumbersRed)
    {
      var h := Builder.BuildGraph(es);
      if reduced {
        redGraph := h;
      } else {
        graph := h;
      }
      AddWeights(reduced);
      Builder.WeighingBuilds(es, h, Selected(reduced));
    }

    /** _add_weights: every edge of the selected graph gets the Jaccard distance
        of its endpoints' publication-id sets. */
    method AddWeights(reduced: bool)
      requires Valid(Selected(reduced)) && Builder.HasPublications(Selected(reduced))
      modifies this
      ensures Valid(Selected(reduced)) && Selected(reduced).nodes == old(Selected(reduced)).nodes
      ensures forall x, y {:trigger Edge(Selected(reduced), x, y)} ::
                Edge(Selected(reduced), x, y) <==> Edge(old(Selected(reduced)), x, y)
      ensures forall x, y {:trigger Edge(Selected(reduced), x, y)} :: Edge(Selected(reduced), x, y) ==>
                x in old(Selected(reduced)).nodes && y in old(Selected(reduced)).nodes &&
                Selected(reduced).adj[x][y] == Some(Builder.Weight(old(Selected(reduced)), x, y))
      ensures Selected(!reduced) == old(Selected(!reduced))
      ensures groupNumbers == old(groupNumbers) && groupNumbersRed == old(groupNumbersRed)
    {
      var h := Builder.AddWeights(Selected(reduced));
      if reduced {
        redGraph := h;
      } else {
        graph := h;
      }
    }

    /** set_group_number: both maps are reset; then _shortest_path runs from
        every seed, which fails on an unknown one, and min over the seeds'
        distances fails for an empty seed list as soon as there is a node.
        ok is false exactly when one of these errors is raised. */
    method SetGroupNumber(seeds: seq<AuthorId>, reduced: bool) returns (ok: bool)
      requires Weighted(Selected(reduced))
      modifies this
      ensures graph == old(graph) && redGraph == old(redGraph)
      ensures ok <==> Usable(Selected(reduced), seeds)
      ensures !ok || !reduced ==> groupNumbersRed == map[]
      ensures !ok || reduced ==> groupNumbers == map[]
      ensures ok ==> Groups.NearestLabels(Selected(reduced), seeds, if reduced then groupNumbersRed else groupNumbers)
    {
      var g := Selected(reduced);
      groupNumbersRed := map[];
      groupNumbers := map[];
      var labels := GroupLabels(g, seeds);
      if labels.None? {
        return false;
      }
      if reduced {
        groupNumbersRed := labels.value;
      } else {
        groupNumbers := labels.value;
      }
      ok := true;
    }
  }

  /** set_group_number raises nothing: every seed is a node, and there is a
      seed unless there is no node. */
  predicate Usable(g: Graph, seeds: seq<AuthorId>)
  {
    (forall s {:trigger s in seeds} :: s in seeds ==> s in g.nodes) && (seeds == [] ==> g.nodes == map[])
  }

  /** The group numbers set_group_number computes for a graph, or None when it
      raises: on an unknown seed, or on min of an empty list when there are no
      seeds but there are nodes. */
  method GroupLabels(g: Graph, seeds: seq<AuthorId>) returns (r: Option<map<AuthorId, Dist>>)
    requires Weighted(g)
    ensures r.Some? <==> Usable(g, seeds)
    ensures r.Some? ==> Groups.NearestLabels(g, seeds, r.value)
  {
    var dists := SeedDistances(g, seeds);
    if dists.None? {
      return None;
    }
    if seeds == [] && g.nodes != map[] {
      return None;
    }
    var labels := Labels(g, seeds, dists.value);
    r := Some(labels);
  }

  /** The first loop of set_group_number: _shortest_path from every seed,
      stopping at the first unknown one. */
  method SeedDistances(g: Graph, seeds: seq<AuthorId>) returns (r: Option<seq<map<AuthorId, Dist>>>)
    requires Weighted(g)
    ensures r.None? <==> exists s {:trigger s in seeds} :: s in seeds && s !in g.nodes
    ensures r.Some? ==> |r.value| == |seeds|
    ensures r.Some? ==> forall j {:trigger r.value[j]} :: 0 <= j < |seeds| ==> IsShortestFrom(g, seeds[j], r.value[j])
  {
    var dists: seq<map<AuthorId, Dist>> := [];
    var k := 0;
    while k < |seeds|
      invariant k <= |seeds| && |dists| == k
      invariant forall j {:trigger seeds[j]} :: 0 <= j < k ==> seeds[j] in g.nodes
      invariant forall j {:trigger dists[j]} :: 0 <= j < k ==> IsShortestFrom(g, seeds[j], dists[j])
    {
      var s := seeds[k];
      var out := ShortestPath(g, s, None);
      if out.NotANode? {
        assert s in seeds;
        return None;
      }
      dists := dists + [out.distances];
      k := k + 1;
    }
    forall s | s in seeds
      ensures s in g.nodes
    {
      var j :| 0 <= j < |seeds| && seeds[j] == s;
    }
    r := Some(dists);
  }

  /** The second loop of set_group_number: every node gets the minimum of its
      distances from the seeds. */
  method Labels(g: Graph, seeds: seq<AuthorId>, dists: seq<map<AuthorId, Dist>>) returns (labels: map<AuthorId, Dist>)
    requires Weighted(g) && |dists| == |seeds| && (seeds == [] ==> g.nodes == map[])
    requires forall j {:trigger dists[j]} :: 0 <= j < |seeds| ==> IsShortestFrom(g, seeds[j], dists[j])
    ensures Groups.NearestLabels(g, seeds, labels)
  {
    labels := map[];
    var remaining := g.nodes.Keys;
    while remaining != {}
      invariant remaining <= g.nodes.Keys
      invariant labels.Keys == g.nodes.Keys - remaining
      invariant forall v {:trigger v in labels} :: v in labels ==> Groups.NearestSeed(g, seeds, v, labels[v])
      decreases remaining
    {
      if forall x :: x !in remaining {
        assert false;
      }
      var v :| v in remaining;
      assert v in g.nodes;
      Groups.MinIsNearest(g, seeds, dists, v);
      labels := labels[v := Groups.MinOf(Groups.Column(dists, v))];
      remaining := remaining - {v};
    }
  }
}
