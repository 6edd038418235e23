// Group numbers: every node labelled with its shortest distance from the
// nearest of a list of seed authors, kept in a field of the graph object.

module Groups {
  import opened Records
  import opened Graphs
  import opened Paths
  import opened Dijkstra
  import Builder

  /** The seeds that are nodes of g, in their order (the __check_node filter). */
  function Known(g: Graph, seeds: seq<AuthorId>): (r: seq<AuthorId>)
    ensures |r| <= |seeds|
    ensures forall x {:trigger x in r} :: x in r <==> x in seeds && x in g.nodes
    decreases |seeds|
  {
    if seeds == [] then []
    else
      var n := |seeds| - 1;
      var r := Known(g, seeds[..n]);
      assert seeds == seeds[..n] + [seeds[n]];
      if seeds[n] in g.nodes then r + [seeds[n]] else r
  }

  /** Python's min over a non-empty list of distances. */
  function MinOf(ds: seq<Dist>): (m: Dist)
    requires |ds| > 0
    ensures forall i {:trigger ds[i]} :: 0 <= i < |ds| ==> Le(m, ds[i])
    ensures exists i {:trigger ds[i]} :: 0 <= i < |ds| && m == ds[i]
    decreases |ds|
  {
    if |ds| == 1 then ds[0]
    else
      var n := |ds| - 1;
      var m := MinOf(ds[..n]);
      assert forall i {:trigger ds[i]} :: 0 <= i < n ==> ds[..n][i] == ds[i];
      Min(m, ds[n])
  }

  /** The distances of v in each of the maps: [dist[node] for dist in dists]. */
  function Column(dists: seq<map<AuthorId, Dist>>, v: AuthorId): (c: seq<Dist>)
    requires forall k {:trigger dists[k]} :: 0 <= k < |dists| ==> v in dists[k]
    ensures |c| == |dists| && forall k {:trigger c[k]} :: 0 <= k < |c| ==> c[k] == dists[k][v]
  {
    seq(|dists|, k requires 0 <= k < |dists| => dists[k][v])
  }

  /** d is v's distance from the nearest seed: no path from any seed is shorter,
      and d is attained from one of them; Inf when there is no seed. */
  ghost predicate NearestSeed(g: Graph, seeds: seq<AuthorId>, v: AuthorId, d: Dist)
    requires Weighted(g)
  {
    if seeds == [] then d == Inf
    else
      (forall s {:trigger s in seeds} :: s in seeds ==> LowerBound(g, s, v, d)) &&
      (exists s {:trigger s in seeds} :: s in seeds && Attained(g, s, v, d))
  }

  /** labels gives every node, and only the nodes, its nearest-seed distance. */
  ghost predicate NearestLabels(g: Graph, seeds: seq<AuthorId>, labels: map<AuthorId, Dist>)
    requires Weighted(g)
  {
    labels.Keys == g.nodes.Keys &&
    forall v {:trigger v in labels} :: v in labels ==> NearestSeed(g, seeds, v, labels[v])
  }

  /** There is one nearest-seed distance. */
  lemma NearestSeedUnique(g: Graph, seeds: seq<AuthorId>, v: AuthorId, d1: Dist, d2: Dist)
    requires Weighted(g) && NearestSeed(g, seeds, v, d1) && NearestSeed(g, seeds, v, d2)
    ensures d1 == d2
  {
    if seeds != [] {
      if d1.Fin? {
        var s :| s in seeds && Attained(g, s, v, d1);
        var p :| PathFrom(g, s, v, p) && Len(g, p) == d1.value;
        assert LowerBound(g, s, v, d2);
      }
      if d2.Fin? {
        var s :| s in seeds && Attained(g, s, v, d2);
        var p :| PathFrom(g, s, v, p) && Len(g, p) == d2.value;
        assert LowerBound(g, s, v, d1);
      }
    }
  }

  /** With one seed, the nearest-seed distance is that seed's shortest distance. */
  lemma SingleSeed(g: Graph, s: AuthorId, v: AuthorId, d: Dist)
    requires Weighted(g)
    ensures NearestSeed(g, [s], v, d) <==> IsShortestDist(g, s, v, d)
  {
    assert s in [s];
    if NearestSeed(g, [s], v, d) {
      var s' :| s' in [s] && Attained(g, s', v, d);
      assert s' == s;
    }
  }

  /** The minimum over per-seed shortest distances is the nearest-seed distance. */
  lemma MinIsNearest(g: Graph, seeds: seq<AuthorId>, dists: seq<map<AuthorId, Dist>>, v: AuthorId)
    requires Weighted(g) && |seeds| == |dists| > 0 && v in g.nodes
    requires forall k {:trigger dists[k]} :: 0 <= k < |dists| ==> IsShortestFrom(g, seeds[k], dists[k])
    requires forall k {:trigger dists[k]} :: 0 <= k < |dists| ==> v in dists[k]
    ensures NearestSeed(g, seeds, v, MinOf(Column(dists, v)))
  {
    var c := Column(dists, v);
    var m := MinOf(c);
    forall s | s in seeds
      ensures LowerBound(g, s, v, m)
    {
      var k :| 0 <= k < |seeds| && seeds[k] == s;
      assert IsShortestDist(g, s, v, c[k]);
      forall p | PathFrom(g, s, v, p)
        ensures Le(m, Fin(Len(g, p)))
      {
        assert Le(c[k], Fin(Len(g, p)));
      }
    }
    var i :| 0 <= i < |c| && m == c[i];
    assert IsShortestDist(g, seeds[i], v, c[i]);
    assert seeds[i] in seeds;
  }

  /** The first loop of set_group_number: shortest_path from every known seed. */
  method SeedDistances(g: Graph, known: seq<AuthorId>) returns (dists: seq<map<AuthorId, Dist>>)
    requires Weighted(g) && forall s {:trigger s in known} :: s in known ==> s in g.nodes
    ensures |dists| == |known|
    ensures forall j {:trigger dists[j]} :: 0 <= j < |dists| ==> IsShortestFrom(g, known[j], dists[j])
  {
    dists := [];
    var k := 0;
    while k < |known|
      invariant k <= |known| && |dists| == k
      invariant forall j {:trigger dists[j]} :: 0 <= j < k ==> IsShortestFrom(g, known[j], dists[j])
    {
      var s := known[k];
      assert s in known;
      var distances, _ := ShortestPath(g, s, None);
      dists := dists + [distances];
      k := k + 1;
    }
  }

  /** The graph object of src/graph.py with its group_numbers attribute. */
  class CollabGraph {
    var graph: Graph
    var groupNumbers: map<AuthorId, Dist>

    /** __init__ without the pickle cache: build the weighted graph from the entries. */
    constructor (es: seq<Entry>)
      ensures Builder.Built(graph, es) && groupNumbers == map[]
    {
      var g := Builder.CreateGraph(es);
      graph := g;
      groupNumbers := map[];
    }

    /** set_group_number: drop unknown seeds, run shortest_path from each
        remaining one, and give every node its distance from the nearest. */
    method SetGroupNumber(seeds: seq<AuthorId>)
      requires Weighted(graph)
      modifies this
      ensures graph == old(graph)
      ensures NearestLabels(graph, Known(graph, seeds), groupNumbers)
    {
      groupNumbers := map[];
      var g := graph;
      var known := Known(g, seeds);
      var dists := SeedDistances(g, known);
      var remaining := g.nodes.Keys;
      while remaining != {}
        invariant remaining <= g.nodes.Keys
        invariant groupNumbers.Keys == g.nodes.Keys - remaining
        invariant forall v {:trigger v in groupNumbers} :: v in groupNumbers ==>
                    NearestSeed(g, known, v, groupNumbers[v])
        invariant graph == g
        decreases remaining
      {
        if forall x :: x !in remaining { assert false; }
        var v :| v in remaining;
        var d;
        if known != [] {
          MinIsNearest(g, known, dists, v);
          d := MinOf(Column(dists, v));
        } else {
          d := Inf;
        }
        groupNumbers := groupNumbers[v := d];
        remaining := remaining - {v};
      }
    }
  }

  /** With exactly one known seed the group numbers are that seed's
      shortest_path distance map. */
  lemma OneSeedGroups(g: Graph, seeds: seq<AuthorId>, groups: map<AuthorId, Dist>)
    requires Weighted(g) && |Known(g, seeds)| == 1 && NearestLabels(g, Known(g, seeds), groups)
    ensures IsShortestFrom(g, Known(g, seeds)[0], groups)
  {
    var known := Known(g, seeds);
    assert known == [known[0]];
    forall v | v in groups
      ensures IsShortestDist(g, known[0], v, groups[v])
    {
      SingleSeed(g, known[0], v, groups[v]);
    }
  }

  /** No seed survives the filter exactly when none of them is a node. */
  lemma KnownEmpty(g: Graph, seeds: seq<AuthorId>)
    ensures Known(g, seeds) == [] <==> forall s {:trigger s in seeds} :: s in seeds ==> s !in g.nodes
  {
    var known := Known(g, seeds);
    if known != [] {
      var s := known[0];
      assert s in known;
      assert s in seeds && s in g.nodes;
    } else {
      forall s | s in seeds
        ensures s !in g.nodes
      {
        assert s in known <==> s in g.nodes;
      }
    }
  }

  /** With no seed in the graph every node's group number is Inf. */
  lemma NoSeedGroups(g: Graph, seeds: seq<AuthorId>, groups: map<AuthorId, Dist>)
    requires Weighted(g)
    requires forall s {:trigger s in seeds} :: s in seeds ==> s !in g.nodes
    requires NearestLabels(g, Known(g, seeds), groups)
    ensures forall v {:trigger v in groups} :: v in groups ==> groups[v] == Inf
  {
    KnownEmpty(g, seeds);
  }
}
