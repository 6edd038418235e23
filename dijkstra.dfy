// Dijkstra's algorithm over the weighted graph, with a lazily-updated heap
// (stale entries are skipped when popped), a visited set, a distance map and
// a predecessor map, and an optional early exit when `finish` is popped.

module Dijkstra {
  import opened Records
  import opened Graphs
  import opened Paths

  /** A heap entry: a tentative distance and the node it was pushed for. */
  datatype QueueItem = QueueItem(key: real, node: AuthorId)

  predicate IsMinimum(item: QueueItem, pq: multiset<QueueItem>)
  {
    item in pq && forall o {:trigger pq[o]} :: o in pq ==> item.key <= o.key
  }

  lemma {:induction false} MinimumExists(pq: multiset<QueueItem>) returns (m: QueueItem)
    requires pq != multiset{}
    ensures IsMinimum(m, pq)
    decreases |pq|
  {
    var x :| x in pq;
    var rest := pq - multiset{x};
    assert pq == rest + multiset{x};
    if rest == multiset{} {
      m := x;
    } else {
      var r := MinimumExists(rest);
      m := if r.key < x.key then r else x;
    }
  }

  /** Every edge leaving a visited node has been relaxed. */
  ghost predicate Relaxed(g: Graph, D: map<AuthorId, Dist>, visited: set<AuthorId>)
    requires Weighted(g) && D.Keys == g.nodes.Keys
  {
    forall u {:trigger u in visited} :: u in visited ==> u in D && RelaxedAt(g, D, u)
  }

  /** u has a finite distance, and no edge out of u leads to a shorter distance. */
  ghost predicate RelaxedAt(g: Graph, D: map<AuthorId, Dist>, u: AuthorId)
    requires Weighted(g) && D.Keys == g.nodes.Keys && u in D
  {
    D[u].Fin? && forall v {:trigger Edge(g, u, v)} :: Edge(g, u, v) ==> Le(D[v], Fin(D[u].value + W(g, u, v)))
  }

  /** Following a path from the start through visited nodes, distances stay
      within the path's length until the first unvisited node (or the end). */
  lemma {:induction false} Frontier(g: Graph, s: AuthorId, D: map<AuthorId, Dist>, visited: set<AuthorId>,
                                    p: seq<AuthorId>, i: nat) returns (j: nat)
    requires Weighted(g) && D.Keys == g.nodes.Keys && Relaxed(g, D, visited)
    requires IsPath(g, p) && p[0] == s
    requires i < |p| && forall m :: 0 <= m < i ==> p[m] in visited
    requires PrefixPathOk(g, p, i) && Le(D[p[i]], Fin(Len(g, p[..i + 1])))
    ensures i <= j < |p| && Le(D[p[j]], Fin(Len(g, p)))
    ensures p[j] !in visited || j == |p| - 1
    decreases |p| - i
  {
    if p[i] !in visited || i == |p| - 1 {
      PrefixPath(g, p, i + 1);
      j := i;
    } else {
      FrontierStep(g, D, visited, p, i);
      j := Frontier(g, s, D, visited, p, i + 1);
    }
  }

  /** One step of Frontier: past a visited node, the bound carries to the next node. */
  lemma FrontierStep(g: Graph, D: map<AuthorId, Dist>, visited: set<AuthorId>, p: seq<AuthorId>, i: nat)
    requires Weighted(g) && D.Keys == g.nodes.Keys && Relaxed(g, D, visited)
    requires IsPath(g, p) && i + 1 < |p| && p[i] in visited
    requires PrefixPathOk(g, p, i) && Le(D[p[i]], Fin(Len(g, p[..i + 1])))
    ensures PrefixPathOk(g, p, i + 1) && Le(D[p[i + 1]], Fin(Len(g, p[..i + 2])))
  {
    PrefixPath(g, p, i + 2);
    var q := p[..i + 2];
    assert q[..i + 1] == p[..i + 1];
    assert Hop(g, p, i);
    assert Len(g, q) == Len(g, p[..i + 1]) + W(g, p[i], p[i + 1]);
  }

  ghost predicate PrefixPathOk(g: Graph, p: seq<AuthorId>, i: nat)
  {
    i < |p| && IsPath(g, p[..i + 1])
  }

  /** The node of a minimum heap entry that has not been visited yet has its
      final distance, which is the entry's key. */
  lemma PopIsFinal(g: Graph, s: AuthorId, D: map<AuthorId, Dist>, pq: multiset<QueueItem>,
                   visited: set<AuthorId>, item: QueueItem)
    requires Weighted(g) && D.Keys == g.nodes.Keys && s in g.nodes && D[s] == Fin(0.0)
    requires Relaxed(g, D, visited)
    requires forall it {:trigger pq[it]} :: it in pq ==> it.node in g.nodes && Le(D[it.node], Fin(it.key))
    requires forall v {:trigger v in D} :: v in D && v !in visited && D[v].Fin? ==> QueueItem(D[v].value, v) in pq
    requires IsMinimum(item, pq) && item.node !in visited
    ensures D[item.node] == Fin(item.key) && LowerBound(g, s, item.node, D[item.node])
  {
    var u := item.node;
    assert QueueItem(D[u].value, u) in pq;
    forall p | PathFrom(g, s, u, p)
      ensures Le(D[u], Fin(Len(g, p)))
    {
      assert p[..1] == [s];
      var j := Frontier(g, s, D, visited, p, 0);
      assert QueueItem(D[p[j]].value, p[j]) in pq;
    }
  }

  /** Once no node with a finite distance is left unvisited, every distance is
      a lower bound on path length. */
  lemma Exhausted(g: Graph, s: AuthorId, D: map<AuthorId, Dist>, visited: set<AuthorId>)
    requires Weighted(g) && D.Keys == g.nodes.Keys && s in g.nodes && D[s] == Fin(0.0)
    requires Relaxed(g, D, visited)
    requires forall v {:trigger v in D} :: v in D && v !in visited ==> D[v].Inf?
    ensures forall v {:trigger v in D} :: v in D ==> LowerBound(g, s, v, D[v])
  {
    forall v, p | v in D && PathFrom(g, s, v, p)
      ensures Le(D[v], Fin(Len(g, p)))
    {
      ExhaustedPath(g, s, D, visited, v, p);
    }
  }

  lemma ExhaustedPath(g: Graph, s: AuthorId, D: map<AuthorId, Dist>, visited: set<AuthorId>,
                      v: AuthorId, p: seq<AuthorId>)
    requires Weighted(g) && D.Keys == g.nodes.Keys && s in g.nodes && D[s] == Fin(0.0)
    requires Relaxed(g, D, visited)
    requires forall w {:trigger w in D} :: w in D && w !in visited ==> D[w].Inf?
    requires v in D && PathFrom(g, s, v, p)
    ensures Le(D[v], Fin(Len(g, p)))
  {
    assert p[..1] == [s];
    var j := Frontier(g, s, D, visited, p, 0);
    var w := p[j];
    assert w in D && D[w].Fin?;
    assert w in visited;
  }

  /** Tentative distances: `start` at 0 and every other distance non-negative,
      each predecessor accounts for its successor's distance through the edge
      between them, and exactly `start` and the nodes with a predecessor have
      finite distances. */
  ghost predicate Tentative(g: Graph, start: AuthorId, dist: map<AuthorId, Dist>, prev: map<AuthorId, AuthorId>)
    requires Weighted(g)
  {
    && dist.Keys == g.nodes.Keys && start in g.nodes && dist[start] == Fin(0.0) && start !in prev
    && (forall v {:trigger v in dist} :: v in dist && dist[v].Fin? ==> dist[v].value >= 0.0)
    && TreeLinks(g, dist, prev)
    && (forall v {:trigger v in dist} :: v in dist ==> (dist[v].Fin? <==> v == start || v in prev))
  }

  /** Visited nodes have finite distances that no path undercuts. */
  ghost predicate Settled(g: Graph, start: AuthorId, dist: map<AuthorId, Dist>, visited: set<AuthorId>)
    requires Weighted(g) && dist.Keys == g.nodes.Keys
  {
    visited <= g.nodes.Keys && forall u {:trigger u in visited} :: u in visited ==> dist[u].Fin? && LowerBound(g, start, u, dist[u])
  }

  /** Every predecessor is a visited node. */
  ghost predicate Closed(prev: map<AuthorId, AuthorId>, visited: set<AuthorId>)
  {
    forall v {:trigger prev[v]} :: v in prev ==> prev[v] in visited
  }

  /** Visited nodes are numbered below count in visiting order, each after its predecessor. */
  ghost predicate VisitOrder(prev: map<AuthorId, AuthorId>, visited: set<AuthorId>, rank: map<AuthorId, nat>, count: nat)
  {
    && rank.Keys == visited && (forall u {:trigger u in visited} :: u in visited ==> rank[u] < count)
    && (forall v {:trigger prev[v]} :: v in prev && v in visited && prev[v] in rank ==> rank[prev[v]] < rank[v])
  }

  /** What the search keeps true of its maps between heap pops; `finish` is never visited. */
  ghost predicate Bookkeeping(g: Graph, start: AuthorId, finish: Option<AuthorId>,
                              dist: map<AuthorId, Dist>, prev: map<AuthorId, AuthorId>,
                              visited: set<AuthorId>, rank: map<AuthorId, nat>, count: nat)
    requires Weighted(g)
  {
    && Tentative(g, start, dist, prev) && Settled(g, start, dist, visited)
    && Closed(prev, visited) && VisitOrder(prev, visited, rank, count)
    && (finish.Some? ==> finish.value !in visited)
  }

  /** Every heap entry is for a node and is no smaller than that node's distance. */
  ghost predicate QueueSound(g: Graph, dist: map<AuthorId, Dist>, pq: multiset<QueueItem>)
    requires dist.Keys == g.nodes.Keys
  {
    forall it {:trigger pq[it]} :: it in pq ==> it.node in g.nodes && Le(dist[it.node], Fin(it.key))
  }

  /** Every unvisited node with a finite distance has an entry with that distance. */
  ghost predicate QueueComplete(dist: map<AuthorId, Dist>, visited: set<AuthorId>, pq: multiset<QueueItem>)
  {
    forall v {:trigger v in dist} :: v in dist && v !in visited && dist[v].Fin? ==> QueueItem(dist[v].value, v) in pq
  }

  /** floor separates the distances of visited nodes (below) from the heap keys (above). */
  ghost predicate Floored(dist: map<AuthorId, Dist>, visited: set<AuthorId>, pq: multiset<QueueItem>, floor: real)
    requires visited <= dist.Keys
  {
    && (forall u {:trigger u in visited} :: u in visited ==> dist[u].Fin? && dist[u].value <= floor)
    && (forall it {:trigger pq[it]} :: it in pq ==> floor <= it.key)
  }

  /** The search's bookkeeping yields a predecessor tree: visited nodes are
      ranked in visiting order, unvisited ones above all of them. */
  lemma MakeTree(g: Graph, s: AuthorId, finish: Option<AuthorId>, D: map<AuthorId, Dist>, prev: map<AuthorId, AuthorId>,
                 visited: set<AuthorId>, rank: map<AuthorId, nat>, count: nat)
    requires Weighted(g) && Bookkeeping(g, s, finish, D, prev, visited, rank, count)
    ensures PredecessorTree(g, s, D, prev)
  {
    var r := map v | v in visited + prev.Keys :: if v in visited then rank[v] else count;
    assert RankedBy(prev, r);
  }

  /** Distances of the visited nodes are those of dist0. */
  ghost predicate Agree(dist0: map<AuthorId, Dist>, dist: map<AuthorId, Dist>, visited: set<AuthorId>)
  {
    forall w {:trigger w in visited} :: w in visited ==> w in dist0 && w in dist && dist[w] == dist0[w]
  }

  /** No distance in dist is above the one in dist0. */
  ghost predicate Below(dist: map<AuthorId, Dist>, dist0: map<AuthorId, Dist>)
  {
    forall x {:trigger x in dist0} :: x in dist0 ==> x in dist && Le(dist[x], dist0[x])
  }

  /** The neighbours of u outside todo have been relaxed through u, popped with distance k. */
  ghost predicate DoneBelow(g: Graph, u: AuthorId, k: real, todo: set<AuthorId>, dist: map<AuthorId, Dist>)
    requires Weighted(g) && u in g.adj
  {
    forall v {:trigger v in g.adj[u]} :: v in g.adj[u] && v !in todo ==> v in dist && Le(dist[v], Fin(k + W(g, u, v)))
  }

  lemma LeTrans(a: Dist, b: Dist, c: Dist)
    requires Le(a, b) && Le(b, c)
    ensures Le(a, c)
  {
  }

  /** Lowering distances outside S keeps the edges out of S relaxed. */
  lemma RelaxedMonotone(g: Graph, D0: map<AuthorId, Dist>, D: map<AuthorId, Dist>, S: set<AuthorId>)
    requires Weighted(g) && D0.Keys == g.nodes.Keys && D.Keys == g.nodes.Keys
    requires Relaxed(g, D0, S) && Agree(D0, D, S) && Below(D, D0)
    ensures Relaxed(g, D, S)
  {
    forall w | w in S
      ensures w in D && RelaxedAt(g, D, w)
    {
      assert RelaxedAt(g, D0, w);
      forall x | Edge(g, w, x)
        ensures Le(D[x], Fin(D[w].value + W(g, w, x)))
      {
        NeighboursAreNodes(g, w);
        LeTrans(D[x], D0[x], Fin(D0[w].value + W(g, w, x)));
      }
    }
  }

  /** Visited distances that do not change stay final. */
  lemma SettledFrame(g: Graph, start: AuthorId, D0: map<AuthorId, Dist>, D: map<AuthorId, Dist>, visited: set<AuthorId>)
    requires Weighted(g) && D0.Keys == g.nodes.Keys && D.Keys == g.nodes.Keys
    requires Settled(g, start, D0, visited) && Agree(D0, D, visited)
    ensures Settled(g, start, D, visited)
  {
    forall w | w in visited
      ensures D[w].Fin? && LowerBound(g, start, w, D[w])
    {
      assert D[w] == D0[w];
    }
  }

  /** Lowering v's distance to alt through the visited node u keeps the
      tentative distances consistent and every predecessor visited. */
  lemma TentativeStep(g: Graph, start: AuthorId, u: AuthorId, v: AuthorId, alt: real,
                      dist: map<AuthorId, Dist>, prev: map<AuthorId, AuthorId>, visited: set<AuthorId>)
    requires Weighted(g) && Tentative(g, start, dist, prev) && Closed(prev, visited)
    requires u in visited && Edge(g, u, v) && v !in visited && u in dist && dist[u].Fin?
    requires alt == dist[u].value + W(g, u, v) && Lt(Fin(alt), dist[v])
    ensures Tentative(g, start, dist[v := Fin(alt)], prev[v := u]) && Closed(prev[v := u], visited)
  {
    NeighboursAreNodes(g, u);
    assert v != start;
    var dist', prev' := dist[v := Fin(alt)], prev[v := u];
    assert dist'.Keys == g.nodes.Keys;
    forall w | w in prev'
      ensures w in g.nodes && Edge(g, prev'[w], w) && dist'[prev'[w]].Fin?
              && dist'[w] == Fin(dist'[prev'[w]].value + W(g, prev'[w], w))
    {
      if w != v {
        assert prev'[w] == prev[w] && prev[w] in visited;
      }
    }
    forall w | w in dist'
      ensures dist'[w].Fin? <==> w == start || w in prev'
    {
    }
  }

  /** One relaxation keeps the heap facts: an entry is pushed for every
      unvisited neighbour, and the keys stay at or above k. */
  lemma QueueStep(g: Graph, k: real, v: AuthorId, alt: real,
                  dist: map<AuthorId, Dist>, dist': map<AuthorId, Dist>,
                  pq: multiset<QueueItem>, pq': multiset<QueueItem>, visited: set<AuthorId>)
    requires dist.Keys == g.nodes.Keys && v in dist && visited <= dist.Keys && k <= alt
    requires QueueSound(g, dist, pq) && QueueComplete(dist, visited, pq) && Floored(dist, visited, pq, k)
    requires dist' == (if Lt(Fin(alt), dist[v]) then dist[v := Fin(alt)] else dist)
    requires Lt(Fin(alt), dist[v]) ==> v !in visited
    requires pq' == (if v !in visited then pq + multiset{QueueItem(alt, v)} else pq)
    ensures QueueSound(g, dist', pq') && QueueComplete(dist', visited, pq') && Floored(dist', visited, pq', k)
  {
    forall it | it in pq'
      ensures it.node in g.nodes && Le(dist'[it.node], Fin(it.key)) && k <= it.key
    {
      if it in pq {
        LeTrans(dist'[it.node], dist[it.node], Fin(it.key));
      }
    }
    forall w | w in dist' && w !in visited && dist'[w].Fin?
      ensures QueueItem(dist'[w].value, w) in pq'
    {
      if w != v || dist'[v] == dist[v] {
        assert QueueItem(dist[w].value, w) in pq;
      }
    }
  }

  /** A relaxation of v to alt lowers v's distance to at most alt and changes nothing else. */
  lemma StepBelow(dist: map<AuthorId, Dist>, dist': map<AuthorId, Dist>, v: AuthorId, alt: real)
    requires v in dist && dist' == (if Lt(Fin(alt), dist[v]) then dist[v := Fin(alt)] else dist)
    ensures dist'.Keys == dist.Keys && Le(dist'[v], Fin(alt))
    ensures forall x {:trigger x in dist} :: x in dist ==> Le(dist'[x], dist[x]) && (x != v ==> dist'[x] == dist[x])
  {
  }

  /** What holds while the edges of u, popped with distance k, are relaxed:
      the neighbours in todo are still to be processed. */
  ghost predicate Relaxing(g: Graph, start: AuthorId, u: AuthorId, k: real, dist0: map<AuthorId, Dist>,
                           visited: set<AuthorId>, rank: map<AuthorId, nat>, count: nat, todo: set<AuthorId>,
                           dist: map<AuthorId, Dist>, prev: map<AuthorId, AuthorId>, pq: multiset<QueueItem>)
    requires Weighted(g)
  {
    && u in g.adj && u in visited && todo <= g.adj[u].Keys && g.adj[u].Keys <= g.nodes.Keys && visited <= g.nodes.Keys
    && Tentative(g, start, dist, prev) && Closed(prev, visited) && VisitOrder(prev, visited, rank, count)
    && Agree(dist0, dist, visited) && Below(dist, dist0) && u in dist0 && dist0[u] == Fin(k)
    && QueueSound(g, dist, pq) && QueueComplete(dist, visited, pq) && Floored(dist, visited, pq, k)
    && DoneBelow(g, u, k, todo, dist)
  }

  /** Relaxes the edge from u to v and pushes v unless it is visited. */
  method RelaxEdge(g: Graph, start: AuthorId, u: AuthorId, k: real, dist0: map<AuthorId, Dist>,
                   visited: set<AuthorId>, ghost rank: map<AuthorId, nat>, ghost count: nat, ghost todo: set<AuthorId>,
                   dist: map<AuthorId, Dist>, prev: map<AuthorId, AuthorId>, pq: multiset<QueueItem>, v: AuthorId)
    returns (dist': map<AuthorId, Dist>, prev': map<AuthorId, AuthorId>, pq': multiset<QueueItem>)
    requires Weighted(g) && Relaxing(g, start, u, k, dist0, visited, rank, count, todo, dist, prev, pq) && v in todo
    ensures Relaxing(g, start, u, k, dist0, visited, rank, count, todo - {v}, dist', prev', pq')
  {
    assert Edge(g, u, v);
    assert dist[u] == Fin(k);
    var alt := k + W(g, u, v);
    assert k <= alt;
    dist', prev' := dist, prev;
    if Lt(Fin(alt), dist[v]) {
      assert v !in visited;
      TentativeStep(g, start, u, v, alt, dist, prev, visited);
      dist' := dist[v := Fin(alt)];
      prev' := prev[v := u];
    }
    pq' := pq;
    if v !in visited {
      pq' := pq + multiset{QueueItem(alt, v)};
    }
    QueueStep(g, k, v, alt, dist, dist', pq, pq', visited);
    StepBelow(dist, dist', v, alt);
    forall x | x in dist0
      ensures x in dist' && Le(dist'[x], dist0[x])
    {
      LeTrans(dist'[x], dist[x], dist0[x]);
    }
    forall w | w in g.adj[u] && w !in todo - {v}
      ensures w in dist' && Le(dist'[w], Fin(k + W(g, u, w)))
    {
      if w != v {
        assert w !in todo;
        LeTrans(dist'[w], dist[w], Fin(k + W(g, u, w)));
      }
    }
  }

  /** Once every edge of u is relaxed, the search's facts hold again with u visited. */
  lemma RelaxingDone(g: Graph, start: AuthorId, finish: Option<AuthorId>, u: AuthorId, k: real,
                     dist0: map<AuthorId, Dist>, visited: set<AuthorId>, rank: map<AuthorId, nat>, count: nat,
                     dist: map<AuthorId, Dist>, prev: map<AuthorId, AuthorId>, pq: multiset<QueueItem>)
    requires Weighted(g) && Relaxing(g, start, u, k, dist0, visited, rank, count, {}, dist, prev, pq)
    requires dist0.Keys == g.nodes.Keys && Settled(g, start, dist0, visited) && Relaxed(g, dist0, visited - {u})
    requires finish.Some? ==> finish.value !in visited
    ensures Searching(g, start, finish, dist, prev, visited, rank, count, pq, k)
  {
    SettledFrame(g, start, dist0, dist, visited);
    RelaxedMonotone(g, dist0, dist, visited - {u});
    AllDone(g, u, k, dist);
    RelaxedInsert(g, dist, visited, u);
  }

  /** With no neighbour left to process, u's edges are relaxed. */
  lemma AllDone(g: Graph, u: AuthorId, k: real, dist: map<AuthorId, Dist>)
    requires Weighted(g) && dist.Keys == g.nodes.Keys && u in g.adj && u in dist && dist[u] == Fin(k)
    requires DoneBelow(g, u, k, {}, dist)
    ensures RelaxedAt(g, dist, u)
  {
    forall v | Edge(g, u, v)
      ensures Le(dist[v], Fin(dist[u].value + W(g, u, v)))
    {
      assert v in g.adj[u];
    }
  }

  lemma RelaxedInsert(g: Graph, dist: map<AuthorId, Dist>, visited: set<AuthorId>, u: AuthorId)
    requires Weighted(g) && dist.Keys == g.nodes.Keys && u in dist
    requires Relaxed(g, dist, visited - {u}) && RelaxedAt(g, dist, u)
    ensures Relaxed(g, dist, visited)
  {
    forall w | w in visited
      ensures w in dist && RelaxedAt(g, dist, w)
    {
      if w != u {
        assert w in visited - {u};
      }
    }
  }

  /** The loop over the edges of a just-visited node u, popped with distance k:
      relax each neighbour and push it unless it is visited. */
  method Expand(g: Graph, start: AuthorId, finish: Option<AuthorId>, u: AuthorId, k: real,
                dist0: map<AuthorId, Dist>, prev0: map<AuthorId, AuthorId>, pq0: multiset<QueueItem>,
                visited: set<AuthorId>, ghost rank: map<AuthorId, nat>, ghost count: nat)
    returns (dist: map<AuthorId, Dist>, prev: map<AuthorId, AuthorId>, pq: multiset<QueueItem>)
    requires Weighted(g) && Bookkeeping(g, start, finish, dist0, prev0, visited, rank, count)
    requires u in visited && dist0[u] == Fin(k)
    requires QueueSound(g, dist0, pq0) && QueueComplete(dist0, visited, pq0)
    requires Floored(dist0, visited, pq0, k)
    requires Relaxed(g, dist0, visited - {u})
    ensures Searching(g, start, finish, dist, prev, visited, rank, count, pq, k)
  {
    dist, prev, pq := dist0, prev0, pq0;
    var nbrs := g.adj[u].Keys;
    NeighboursAreNodes(g, u);
    while nbrs != {}
      invariant Relaxing(g, start, u, k, dist0, visited, rank, count, nbrs, dist, prev, pq)
      decreases nbrs
    {
      if forall x :: x !in nbrs {
        assert false;
      }
      var v :| v in nbrs;
      dist, prev, pq := RelaxEdge(g, start, u, k, dist0, visited, rank, count, nbrs, dist, prev, pq, v);
      nbrs := nbrs - {v};
    }
    RelaxingDone(g, start, finish, u, k, dist0, visited, rank, count, dist, prev, pq);
  }

  /** Popping the minimum entry for an unvisited node other than `finish`
      makes that node visited with its final distance and sets up the
      relaxation of its edges. */
  lemma Visit(g: Graph, start: AuthorId, finish: Option<AuthorId>,
              dist: map<AuthorId, Dist>, prev: map<AuthorId, AuthorId>,
              pq0: multiset<QueueItem>, pq: multiset<QueueItem>,
              visited: set<AuthorId>, rank: map<AuthorId, nat>, count: nat, floor: real, item: QueueItem)
    requires Weighted(g) && Bookkeeping(g, start, finish, dist, prev, visited, rank, count)
    requires QueueSound(g, dist, pq0) && QueueComplete(dist, visited, pq0)
    requires Floored(dist, visited, pq0, floor) && Relaxed(g, dist, visited)
    requires IsMinimum(item, pq0) && item.node !in visited && pq == pq0 - multiset{item}
    requires finish.Some? ==> item.node != finish.value
    ensures dist[item.node] == Fin(item.key)
    ensures Bookkeeping(g, start, finish, dist, prev, visited + {item.node}, rank[item.node := count], count + 1)
    ensures QueueSound(g, dist, pq) && QueueComplete(dist, visited + {item.node}, pq)
    ensures Floored(dist, visited + {item.node}, pq, item.key)
    ensures Relaxed(g, dist, (visited + {item.node}) - {item.node})
  {
    PopIsFinal(g, start, dist, pq0, visited, item);
    GrowVisited(g, start, finish, dist, prev, visited, rank, count, item.node);
    PopFresh(g, dist, visited, pq0, pq, floor, item);
    assert (visited + {item.node}) - {item.node} == visited;
  }

  /** Visiting an unvisited node at its final distance keeps the bookkeeping. */
  lemma GrowVisited(g: Graph, start: AuthorId, finish: Option<AuthorId>,
                    dist: map<AuthorId, Dist>, prev: map<AuthorId, AuthorId>,
                    visited: set<AuthorId>, rank: map<AuthorId, nat>, count: nat, u: AuthorId)
    requires Weighted(g) && Bookkeeping(g, start, finish, dist, prev, visited, rank, count)
    requires u in g.nodes && u !in visited && dist[u].Fin? && LowerBound(g, start, u, dist[u])
    requires finish.Some? ==> u != finish.value
    ensures Bookkeeping(g, start, finish, dist, prev, visited + {u}, rank[u := count], count + 1)
  {
  }

  /** Popping the minimum entry for an unvisited node at its distance keeps the heap facts. */
  lemma PopFresh(g: Graph, dist: map<AuthorId, Dist>, visited: set<AuthorId>,
                 pq0: multiset<QueueItem>, pq: multiset<QueueItem>, floor: real, item: QueueItem)
    requires dist.Keys == g.nodes.Keys && visited <= dist.Keys
    requires QueueSound(g, dist, pq0) && QueueComplete(dist, visited, pq0) && Floored(dist, visited, pq0, floor)
    requires IsMinimum(item, pq0) && item.node in dist && dist[item.node] == Fin(item.key) && pq == pq0 - multiset{item}
    ensures QueueSound(g, dist, pq) && QueueComplete(dist, visited + {item.node}, pq)
    ensures Floored(dist, visited + {item.node}, pq, item.key)
  {
    forall v | v in dist && v !in visited + {item.node} && dist[v].Fin?
      ensures QueueItem(dist[v].value, v) in pq
    {
      assert QueueItem(dist[v].value, v) in pq0;
    }
  }

  /** Popping a stale entry for an already visited node keeps the search's facts. */
  lemma SkipStale(g: Graph, start: AuthorId, finish: Option<AuthorId>,
                  dist: map<AuthorId, Dist>, prev: map<AuthorId, AuthorId>, visited: set<AuthorId>,
                  rank: map<AuthorId, nat>, count: nat,
                  pq0: multiset<QueueItem>, pq: multiset<QueueItem>, floor: real, item: QueueItem)
    requires Weighted(g) && Searching(g, start, finish, dist, prev, visited, rank, count, pq0, floor)
    requires IsMinimum(item, pq0) && item.node in visited && pq == pq0 - multiset{item}
    ensures Searching(g, start, finish, dist, prev, visited, rank, count, pq, item.key)
  {
    forall v | v in dist && v !in visited && dist[v].Fin?
      ensures QueueItem(dist[v].value, v) in pq
    {
      assert QueueItem(dist[v].value, v) in pq0;
    }
  }

  /** Visiting one more node leaves fewer unvisited ones. */
  lemma FewerUnvisited(nodes: set<AuthorId>, visited: set<AuthorId>, u: AuthorId)
    requires u in nodes && u !in visited
    ensures |nodes - (visited + {u})| < |nodes - visited|
  {
    assert nodes - (visited + {u}) == (nodes - visited) - {u};
  }

  /** When the search stops, the tree it built holds shortest distances for
      every visited node, and every predecessor is visited. */
  lemma Conclude(g: Graph, start: AuthorId, finish: Option<AuthorId>,
                 dist: map<AuthorId, Dist>, prev: map<AuthorId, AuthorId>,
                 visited: set<AuthorId>, rank: map<AuthorId, nat>, count: nat)
    requires Weighted(g) && Bookkeeping(g, start, finish, dist, prev, visited, rank, count)
    ensures PredecessorTree(g, start, dist, prev)
    ensures forall v {:trigger prev[v]} :: v in prev ==> IsShortestDist(g, start, prev[v], dist[prev[v]])
  {
    MakeTree(g, start, finish, dist, prev, visited, rank, count);
    TreeAttained(g, start, dist, prev);
    forall v | v in prev
      ensures IsShortestDist(g, start, prev[v], dist[prev[v]])
    {
      assert prev[v] in visited;
    }
  }

  /** Everything the search loop keeps true between heap pops. */
  ghost predicate Searching(g: Graph, start: AuthorId, finish: Option<AuthorId>,
                            dist: map<AuthorId, Dist>, prev: map<AuthorId, AuthorId>, visited: set<AuthorId>,
                            rank: map<AuthorId, nat>, count: nat, pq: multiset<QueueItem>, floor: real)
    requires Weighted(g)
  {
    && Bookkeeping(g, start, finish, dist, prev, visited, rank, count)
    && QueueSound(g, dist, pq) && QueueComplete(dist, visited, pq)
    && Floored(dist, visited, pq, floor) && Relaxed(g, dist, visited)
  }

  /** Before the first pop only `start` is reached, with distance 0 and one heap entry. */
  lemma SearchStart(g: Graph, start: AuthorId, finish: Option<AuthorId>)
    requires Weighted(g) && start in g.nodes
    ensures Searching(g, start, finish, (map v | v in g.nodes :: Inf)[start := Fin(0.0)], map[], {},
                      map[], 0, multiset{QueueItem(0.0, start)}, 0.0)
  {
    var dist := (map v | v in g.nodes :: Inf)[start := Fin(0.0)];
    assert dist.Keys == g.nodes.Keys;
    assert Tentative(g, start, dist, map[]);
  }

  /** Popping `finish` ends the search with its shortest distance. */
  lemma StopAtFinish(g: Graph, start: AuthorId, finish: Option<AuthorId>,
                     dist: map<AuthorId, Dist>, prev: map<AuthorId, AuthorId>, visited: set<AuthorId>,
                     rank: map<AuthorId, nat>, count: nat, pq: multiset<QueueItem>, floor: real, item: QueueItem)
    requires Weighted(g) && Searching(g, start, finish, dist, prev, visited, rank, count, pq, floor)
    requires IsMinimum(item, pq) && finish.Some? && item.node == finish.value
    ensures PredecessorTree(g, start, dist, prev)
    ensures forall v {:trigger prev[v]} :: v in prev ==> IsShortestDist(g, start, prev[v], dist[prev[v]])
    ensures Reachable(g, start, finish.value) && IsShortestDist(g, start, finish.value, dist[finish.value])
    ensures dist[finish.value] == Fin(item.key)
  {
    PopIsFinal(g, start, dist, pq, visited, item);
    Conclude(g, start, finish, dist, prev, visited, rank, count);
    TreeAttained(g, start, dist, prev);
    assert finish.value in dist;
    assert Attained(g, start, finish.value, dist[finish.value]);
  }

  /** An empty heap ends the search with every distance shortest. */
  lemma SearchEnd(g: Graph, start: AuthorId, finish: Option<AuthorId>,
                  dist: map<AuthorId, Dist>, prev: map<AuthorId, AuthorId>, visited: set<AuthorId>,
                  rank: map<AuthorId, nat>, count: nat, floor: real)
    requires Weighted(g) && Searching(g, start, finish, dist, prev, visited, rank, count, multiset{}, floor)
    ensures PredecessorTree(g, start, dist, prev)
    ensures forall v {:trigger prev[v]} :: v in prev ==> IsShortestDist(g, start, prev[v], dist[prev[v]])
    ensures !(finish.Some? && Reachable(g, start, finish.value))
    ensures IsShortestFrom(g, start, dist)
  {
    forall v | v in dist && v !in visited
      ensures dist[v].Inf?
    {
    }
    Exhausted(g, start, dist, visited);
    Conclude(g, start, finish, dist, prev, visited, rank, count);
    TreeAttained(g, start, dist, prev);
    if finish.Some? && Reachable(g, start, finish.value) {
      assert finish.value in dist;
      ShortestFiniteIffReachable(g, start, finish.value, dist[finish.value]);
      assert false;
    }
  }

  /** One pop of the minimum entry `item`, which is not for `finish`: a stale
      entry is dropped; otherwise its node is visited and its edges relaxed. */
  method Settle(g: Graph, start: AuthorId, finish: Option<AuthorId>,
                dist: map<AuthorId, Dist>, prev: map<AuthorId, AuthorId>, visited: set<AuthorId>,
                ghost rank: map<AuthorId, nat>, ghost count: nat, pq: multiset<QueueItem>, ghost floor: real,
                item: QueueItem)
    returns (dist': map<AuthorId, Dist>, prev': map<AuthorId, AuthorId>, visited': set<AuthorId>,
             pq': multiset<QueueItem>, ghost rank': map<AuthorId, nat>, ghost count': nat, ghost floor': real)
    requires Weighted(g) && Searching(g, start, finish, dist, prev, visited, rank, count, pq, floor)
    requires IsMinimum(item, pq) && !(finish.Some? && item.node == finish.value)
    ensures Searching(g, start, finish, dist', prev', visited', rank', count', pq', floor')
    ensures visited <= visited' <= g.nodes.Keys
    ensures |g.nodes.Keys - visited'| < |g.nodes.Keys - visited| || (visited' == visited && |pq'| < |pq|)
  {
    var u, k := item.node, item.key;
    var rest := pq - multiset{item};
    if u !in visited {
      Visit(g, start, finish, dist, prev, pq, rest, visited, rank, count, floor, item);
      FewerUnvisited(g.nodes.Keys, visited, u);
      visited' := visited + {u};
      rank', count', floor' := rank[u := count], count + 1, k;
      dist', prev', pq' := Expand(g, start, finish, u, k, dist, prev, rest, visited', rank', count');
    } else {
      SkipStale(g, start, finish, dist, prev, visited, rank, count, pq, rest, floor, item);
      dist', prev', visited', pq' := dist, prev, visited, rest;
      rank', count', floor' := rank, count, k;
    }
  }

  /** The search loop of shortest_path, from the first push of `start`.
      stopped says whether it returned because `finish` was popped, and key
      is then the distance it was popped with. */
  method Search(g: Graph, start: AuthorId, finish: Option<AuthorId>)
    returns (dist: map<AuthorId, Dist>, prev: map<AuthorId, AuthorId>, stopped: bool, key: real)
    requires Weighted(g) && start in g.nodes
    ensures PredecessorTree(g, start, dist, prev)
    ensures forall v {:trigger prev[v]} :: v in prev ==> IsShortestDist(g, start, prev[v], dist[prev[v]])
    ensures stopped <==> finish.Some? && Reachable(g, start, finish.value)
    ensures stopped ==> IsShortestDist(g, start, finish.value, dist[finish.value])
    ensures stopped ==> dist[finish.value] == Fin(key)
    ensures !stopped ==> IsShortestFrom(g, start, dist)
  {
    dist := (map v | v in g.nodes :: Inf)[start := Fin(0.0)];
    prev := map[];
    var pq := multiset{QueueItem(0.0, start)};
    var visited: set<AuthorId> := {};
    ghost var rank: map<AuthorId, nat> := map[];
    ghost var count: nat := 0;
    ghost var floor := 0.0;
    SearchStart(g, start, finish);
    while pq != multiset{}
      invariant Searching(g, start, finish, dist, prev, visited, rank, count, pq, floor)
      decreases |g.nodes.Keys - visited|, |pq|
    {
      ghost var least := MinimumExists(pq);
      var item :| IsMinimum(item, pq);
      if finish.Some? && item.node == finish.value {
        StopAtFinish(g, start, finish, dist, prev, visited, rank, count, pq, floor, item);
        return dist, prev, true, item.key;
      }
      dist, prev, visited, pq, rank, count, floor := Settle(g, start, finish, dist, prev, visited, rank, count, pq, floor, item);
    }
    SearchEnd(g, start, finish, dist, prev, visited, rank, count, floor);
    stopped, key := false, 0.0;
  }

  /** shortest_path: the distance map (with `start` at 0 even when it is not a
      node) and, unless `start` or a given `finish` is unknown, the
      predecessor map. */
  method ShortestPath(g: Graph, start: AuthorId, finish: Option<AuthorId>)
    returns (distances: map<AuthorId, Dist>, prev: Option<map<AuthorId, AuthorId>>)
    requires Weighted(g)
    ensures distances.Keys == g.nodes.Keys + {start} && distances[start] == Fin(0.0)
    ensures prev.None? <==> start !in g.nodes || (finish.Some? && finish.value !in g.nodes)
    ensures prev.None? ==> forall v :: v in distances && v != start ==> distances[v] == Inf
    ensures prev.Some? ==> PredecessorTree(g, start, distances, prev.value)
    ensures prev.Some? ==> forall v :: v in prev.value ==>
              IsShortestDist(g, start, prev.value[v], distances[prev.value[v]])
    ensures prev.Some? && finish.None? ==> IsShortestFrom(g, start, distances)
    ensures prev.Some? && finish.Some? ==> IsShortestDist(g, start, finish.value, distances[finish.value])
  {
    if start !in g.nodes || (finish.Some? && finish.value !in g.nodes) {
      distances := (map v | v in g.nodes :: Inf)[start := Fin(0.0)];
      prev := None;
      return;
    }
    var d, p, stopped, _ := Search(g, start, finish);
    distances, prev := d, Some(p);
  }
}
