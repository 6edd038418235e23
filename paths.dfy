// Paths in the weighted graph, their lengths, and what it means for a
// distance to be the shortest one; predecessor maps and the paths they encode.

module Paths {
  import opened Records
  import opened Graphs

  /** The i-th and (i+1)-th nodes of p are joined by an edge. */
  predicate Hop(g: Graph, p: seq<AuthorId>, i: int)
    requires 0 <= i < |p| - 1
  {
    Edge(g, p[i], p[i + 1])
  }

  /** A path: a non-empty sequence of nodes, each adjacent to the next. */
  ghost predicate IsPath(g: Graph, p: seq<AuthorId>)
  {
    && |p| >= 1
    && (forall i :: 0 <= i < |p| ==> p[i] in g.nodes)
    && (forall i :: 0 <= i < |p| - 1 ==> Hop(g, p, i))
  }

  ghost predicate PathFrom(g: Graph, s: AuthorId, v: AuthorId, p: seq<AuthorId>)
  {
    IsPath(g, p) && p[0] == s && p[|p| - 1] == v
  }

  ghost predicate Reachable(g: Graph, s: AuthorId, v: AuthorId)
  {
    exists p :: PathFrom(g, s, v, p)
  }

  /** The sum of the weights of the path's edges. */
  ghost function Len(g: Graph, p: seq<AuthorId>): (r: real)
    requires Weighted(g) && IsPath(g, p)
    ensures r >= 0.0
    decreases |p|
  {
    if |p| == 1 then 0.0
    else
      DropLast(g, p);
      Len(g, p[..|p| - 1]) + W(g, p[|p| - 2], p[|p| - 1])
  }

  /** A path of two or more nodes without its last node is still a path. */
  lemma DropLast(g: Graph, p: seq<AuthorId>)
    requires IsPath(g, p) && |p| >= 2
    ensures IsPath(g, p[..|p| - 1]) && Edge(g, p[|p| - 2], p[|p| - 1])
  {
    var q := p[..|p| - 1];
    forall m | 0 <= m < |q| - 1
      ensures Hop(g, q, m)
    {
      assert Hop(g, p, m);
    }
    assert Hop(g, p, |p| - 2);
  }

  lemma ExtendPath(g: Graph, s: AuthorId, u: AuthorId, p: seq<AuthorId>, v: AuthorId)
    requires Weighted(g) && PathFrom(g, s, u, p) && Edge(g, u, v)
    ensures PathFrom(g, s, v, p + [v])
    ensures Len(g, p + [v]) == Len(g, p) + W(g, u, v)
  {
    var q := p + [v];
    assert q[..|q| - 1] == p;
    forall i | 0 <= i < |q| - 1
      ensures Hop(g, q, i)
    {
      if i < |p| - 1 {
        assert Hop(g, p, i);
      }
    }
  }

  /** Every prefix of a path is a path, no longer than the whole. */
  lemma {:induction false} PrefixPath(g: Graph, p: seq<AuthorId>, i: nat)
    requires Weighted(g) && IsPath(g, p) && 1 <= i <= |p|
    ensures IsPath(g, p[..i]) && Len(g, p[..i]) <= Len(g, p)
    decreases |p|
  {
    if i < |p| {
      var q := p[..|p| - 1];
      DropLast(g, p);
      PrefixPath(g, q, i);
      assert q[..i] == p[..i];
    } else {
      assert p[..i] == p;
    }
  }

  /** d bounds from below the length of every path from s to v. */
  ghost predicate LowerBound(g: Graph, s: AuthorId, v: AuthorId, d: Dist)
    requires Weighted(g)
  {
    forall p {:trigger PathFrom(g, s, v, p)} :: PathFrom(g, s, v, p) ==> Le(d, Fin(Len(g, p)))
  }

  /** A finite d is the length of some path from s to v. */
  ghost predicate Attained(g: Graph, s: AuthorId, v: AuthorId, d: Dist)
    requires Weighted(g)
  {
    d.Fin? ==> exists p {:trigger PathFrom(g, s, v, p)} :: PathFrom(g, s, v, p) && Len(g, p) == d.value
  }

  /** d is the minimum weighted path length from s to v; Inf when there is no path. */
  ghost predicate IsShortestDist(g: Graph, s: AuthorId, v: AuthorId, d: Dist)
    requires Weighted(g)
  {
    LowerBound(g, s, v, d) && Attained(g, s, v, d)
  }

  /** D holds, for every node, its shortest distance from s. */
  ghost predicate IsShortestFrom(g: Graph, s: AuthorId, D: map<AuthorId, Dist>)
    requires Weighted(g)
  {
    D.Keys == g.nodes.Keys && forall v {:trigger v in D} :: v in D ==> IsShortestDist(g, s, v, D[v])
  }

  /** There is one shortest distance: two of them agree. */
  lemma ShortestDistUnique(g: Graph, s: AuthorId, v: AuthorId, d1: Dist, d2: Dist)
    requires Weighted(g) && IsShortestDist(g, s, v, d1) && IsShortestDist(g, s, v, d2)
    ensures d1 == d2
  {
    if d1.Fin? {
      var p1 :| PathFrom(g, s, v, p1) && Len(g, p1) == d1.value;
      assert Le(d2, Fin(Len(g, p1)));
    }
    if d2.Fin? {
      var p2 :| PathFrom(g, s, v, p2) && Len(g, p2) == d2.value;
      assert Le(d1, Fin(Len(g, p2)));
    }
  }

  /** The shortest distance is finite exactly when v can be reached from s. */
  lemma ShortestFiniteIffReachable(g: Graph, s: AuthorId, v: AuthorId, d: Dist)
    requires Weighted(g) && IsShortestDist(g, s, v, d)
    ensures d.Fin? <==> Reachable(g, s, v)
  {
    if Reachable(g, s, v) {
      var p :| PathFrom(g, s, v, p);
      assert Le(d, Fin(Len(g, p)));
    }
  }

  /** Each node in prev is ranked above its predecessor, so following prev terminates. */
  ghost predicate RankedBy(prev: map<AuthorId, AuthorId>, rank: map<AuthorId, nat>)
  {
    forall v {:trigger prev[v]} :: v in prev ==> v in rank && prev[v] in rank && rank[prev[v]] < rank[v]
  }

  /** Each node with a predecessor is a node, adjacent to its predecessor, and
      its distance is the predecessor's finite distance plus the edge weight. */
  ghost predicate TreeLinks(g: Graph, D: map<AuthorId, Dist>, prev: map<AuthorId, AuthorId>)
    requires Weighted(g) && D.Keys == g.nodes.Keys
  {
    forall v {:trigger prev[v]} :: v in prev ==>
      && v in g.nodes && Edge(g, prev[v], v) && D[prev[v]].Fin?
      && D[v] == Fin(D[prev[v]].value + W(g, prev[v], v))
  }

  /** prev and D form a shortest-path tree rooted at s: s has no predecessor and
      distance 0, each other reached node's distance is its predecessor's plus
      the weight of the edge between them, exactly the reached nodes have a
      finite distance, and the predecessor links contain no cycle. */
  ghost predicate PredecessorTree(g: Graph, s: AuthorId, D: map<AuthorId, Dist>, prev: map<AuthorId, AuthorId>)
    requires Weighted(g)
  {
    && D.Keys == g.nodes.Keys
    && s in g.nodes && D[s] == Fin(0.0) && s !in prev
    && TreeLinks(g, D, prev)
    && (forall v {:trigger v in D} :: v in D ==> (D[v].Fin? <==> v == s || v in prev))
    && exists rank :: RankedBy(prev, rank)
  }

  /** The path that prev encodes from s to v, whose length is v's distance. */
  ghost function Chain(g: Graph, s: AuthorId, D: map<AuthorId, Dist>, prev: map<AuthorId, AuthorId>,
                       rank: map<AuthorId, nat>, v: AuthorId): (p: seq<AuthorId>)
    requires Weighted(g) && PredecessorTree(g, s, D, prev) && RankedBy(prev, rank)
    requires v == s || v in prev
    ensures PathFrom(g, s, v, p) && D[v].Fin? && Len(g, p) == D[v].value
    decreases if v in prev then rank[v] + 1 else 0
  {
    if v == s then
      [s]
    else
      var u := prev[v];
      var q := Chain(g, s, D, prev, rank, u);
      ExtendPath(g, s, u, q, v);
      q + [v]
  }

  /** Every finite distance of a predecessor tree is the length of a path. */
  lemma TreeAttained(g: Graph, s: AuthorId, D: map<AuthorId, Dist>, prev: map<AuthorId, AuthorId>)
    requires Weighted(g) && PredecessorTree(g, s, D, prev)
    ensures forall v {:trigger v in D} :: v in D ==> Attained(g, s, v, D[v])
  {
    var rank :| RankedBy(prev, rank);
    forall v | v in D && D[v].Fin?
      ensures exists p :: PathFrom(g, s, v, p) && Len(g, p) == D[v].value
    {
      var p := Chain(g, s, D, prev, rank, v);
    }
  }

  /** The first i+1 nodes of ids form a path as long as the i-th node's distance. */
  ghost predicate PrefixAtDist(g: Graph, D: map<AuthorId, Dist>, ids: seq<AuthorId>, i: int)
    requires Weighted(g)
    requires 0 <= i < |ids|
  {
    IsPath(g, ids[..i + 1]) && ids[i] in D && D[ids[i]].Fin? && Len(g, ids[..i + 1]) == D[ids[i]].value
  }

  /** The i-th node of ids has the (i-1)-th as its predecessor. */
  predicate Follows(prev: map<AuthorId, AuthorId>, ids: seq<AuthorId>, i: int)
    requires 1 <= i < |ids|
  {
    ids[i] in prev && prev[ids[i]] == ids[i - 1]
  }

  /** A node sequence that starts at s and follows prev links forward is a
      path, and each of its prefixes is as long as its last node's distance. */
  lemma {:induction false} LinkedPath(g: Graph, s: AuthorId, D: map<AuthorId, Dist>,
                                      prev: map<AuthorId, AuthorId>, ids: seq<AuthorId>)
    requires Weighted(g) && D.Keys == g.nodes.Keys && TreeLinks(g, D, prev)
    requires s in g.nodes && D[s] == Fin(0.0)
    requires |ids| >= 1 && ids[0] == s
    requires forall i :: 1 <= i < |ids| ==> Follows(prev, ids, i)
    ensures PathFrom(g, s, ids[|ids| - 1], ids)
    ensures forall i :: 0 <= i < |ids| ==> PrefixAtDist(g, D, ids, i)
    decreases |ids|
  {
    if |ids| == 1 {
      assert ids[..1] == ids;
    } else {
      var n := |ids| - 1;
      var q := ids[..n];
      forall i | 1 <= i < |q|
        ensures Follows(prev, q, i)
      {
        assert Follows(prev, ids, i);
      }
      LinkedPath(g, s, D, prev, q);
      assert Follows(prev, ids, n);
      LastAtDist(g, s, D, prev, ids);
      forall i | 0 <= i < n
        ensures PrefixAtDist(g, D, ids, i)
      {
        PrefixOfPrefix(g, D, ids, n, i);
      }
    }
  }

  /** A path at its last node's distance, extended along one prev link, is still
      a path at its new last node's distance. */
  lemma LastAtDist(g: Graph, s: AuthorId, D: map<AuthorId, Dist>,
                   prev: map<AuthorId, AuthorId>, ids: seq<AuthorId>)
    requires Weighted(g) && D.Keys == g.nodes.Keys && TreeLinks(g, D, prev)
    requires |ids| >= 2 && PathFrom(g, s, ids[|ids| - 2], ids[..|ids| - 1])
    requires PrefixAtDist(g, D, ids[..|ids| - 1], |ids| - 2)
    requires Follows(prev, ids, |ids| - 1)
    ensures PathFrom(g, s, ids[|ids| - 1], ids) && PrefixAtDist(g, D, ids, |ids| - 1)
  {
    var n := |ids| - 1;
    var q := ids[..n];
    var v := ids[n];
    assert prev[v] == ids[n - 1];
    ExtendPath(g, s, ids[n - 1], q, v);
    assert q + [v] == ids;
    assert q[..n] == q;
    assert ids[..n + 1] == ids;
  }

  lemma PrefixOfPrefix(g: Graph, D: map<AuthorId, Dist>, ids: seq<AuthorId>, n: nat, i: nat)
    requires Weighted(g) && i < n <= |ids| && PrefixAtDist(g, D, ids[..n], i)
    ensures PrefixAtDist(g, D, ids, i)
  {
    assert ids[..n][..i + 1] == ids[..i + 1];
  }
}
