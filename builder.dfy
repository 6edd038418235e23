// Building the co-authorship graph from a sequence of entries: every listed
// author becomes a node that accumulates the publications and conferences of
// its entries, every two positions of one author list are joined by an edge
// (weight None), and a second pass weights each edge with the Jaccard
// distance of its endpoints' publication-id sets.

module Builder {
  import opened Records
  import opened Graphs
  import opened Jaccard

  // ---------------------------------------------------------------------
  // The graph the entries describe
  // ---------------------------------------------------------------------

  /** Every author id listed by some entry. */
  function AllIds(es: seq<Entry>): set<AuthorId>
    decreases |es|
  {
    if es == [] then {} else AllIds(es[..|es| - 1]) + IdsOf(es[|es| - 1].authors)
  }

  /** The position of the first author with id x. */
  function FirstIndex(authors: seq<Author>, x: AuthorId): (p: nat)
    requires x in IdsOf(authors)
    ensures p < |authors| && authors[p].id == x
    decreases |authors|
  {
    var n := |authors| - 1;
    if x in IdsOf(authors[..n]) then FirstIndex(authors[..n], x) else n
  }

  /** The first position holding x is the one before which x does not occur. */
  lemma {:induction false} FirstIndexUnique(authors: seq<Author>, x: AuthorId, p: nat)
    requires p < |authors| && authors[p].id == x
    requires forall q :: 0 <= q < p ==> authors[q].id != x
    ensures x in IdsOf(authors) && FirstIndex(authors, x) == p
    decreases |authors|
  {
    var n := |authors| - 1;
    IdsOfListed(authors, x);
    IdsOfListed(authors[..n], x);
    if p < n {
      assert authors[..n][p].id == x;
      FirstIndexUnique(authors[..n], x, p);
    }
  }

  /** The author record x was first listed with: the node keeps it. */
  function FirstRecord(es: seq<Entry>, x: AuthorId): (a: Author)
    requires x in AllIds(es)
    ensures a.id == x
    decreases |es|
  {
    var n := |es| - 1;
    if x in AllIds(es[..n]) then FirstRecord(es[..n], x)
    else es[n].authors[FirstIndex(es[n].authors, x)]
  }

  /** The publications of the entries listing x, by integer id; a later entry
      with the same id overwrites an earlier one. */
  function PubsOf(es: seq<Entry>, x: AuthorId): map<int, Publication>
    decreases |es|
  {
    if es == [] then map[]
    else
      var e := es[|es| - 1];
      var m := PubsOf(es[..|es| - 1], x);
      if x in IdsOf(e.authors) then m[e.publication.idInt := e.publication] else m
  }

  /** The conferences of the entries listing x, by integer id. */
  function ConfsOf(es: seq<Entry>, x: AuthorId): map<int, Conference>
    decreases |es|
  {
    if es == [] then map[]
    else
      var e := es[|es| - 1];
      var m := ConfsOf(es[..|es| - 1], x);
      if x in IdsOf(e.authors) then m[e.conference.idInt := e.conference] else m
  }

  /** The data of node x after all of es. */
  function NodeFor(es: seq<Entry>, x: AuthorId): NodeData
    requires x in AllIds(es)
  {
    NodeData(FirstRecord(es, x), PubsOf(es, x), ConfsOf(es, x))
  }

  /** Positions p and q of the list are different and hold ids x and y. */
  predicate Pair(authors: seq<Author>, p: int, q: int, x: AuthorId, y: AuthorId)
  {
    0 <= p < |authors| && 0 <= q < |authors| && p != q && authors[p].id == x && authors[q].id == y
  }

  /** x and y are listed at two different positions of one author list. */
  ghost predicate CoAuthors(authors: seq<Author>, x: AuthorId, y: AuthorId)
  {
    exists p, q :: Pair(authors, p, q, x, y)
  }

  /** x and y are co-authors in some entry. */
  ghost predicate CoAuthored(es: seq<Entry>, x: AuthorId, y: AuthorId)
  {
    exists k :: 0 <= k < |es| && CoAuthors(es[k].authors, x, y)
  }

  /** The Jaccard distance of the publication-id sets of x and y in g. */
  function Weight(g: Graph, x: AuthorId, y: AuthorId): real
    requires x in g.nodes && y in g.nodes && g.nodes[x].publications.Keys != {}
  {
    JaccardDistance(g.nodes[x].publications.Keys, g.nodes[y].publications.Keys)
  }

  /** Every node holds at least one publication (so no weight divides by zero). */
  ghost predicate HasPublications(g: Graph)
  {
    forall x {:trigger x in g.nodes} :: x in g.nodes ==> g.nodes[x].publications.Keys != {}
  }

  /** Every edge still carries the placeholder weight None. */
  ghost predicate Unweighted(g: Graph)
  {
    forall x, y {:trigger Edge(g, x, y)} :: Edge(g, x, y) ==> g.adj[x][y].None?
  }

  /** g is the unweighted graph that the entries es describe. */
  ghost predicate Describes(g: Graph, es: seq<Entry>)
  {
    && Valid(g) && Unweighted(g)
    && g.nodes.Keys == AllIds(es)
    && (forall x {:trigger x in g.nodes} :: x in g.nodes ==> x in AllIds(es) && g.nodes[x] == NodeFor(es, x))
    && (forall x, y {:trigger Edge(g, x, y)} :: Edge(g, x, y) <==> (x, y) in AllPairs(es))
  }

  /** The ordered pairs (id at position m, id at position j) and their
      reverses, for every position m before the given bound. */
  function Joined(authors: seq<Author>, m: nat, j: nat): set<(AuthorId, AuthorId)>
    requires m <= j < |authors|
  {
    if m == 0 then {}
    else Joined(authors, m - 1, j) + {(authors[m - 1].id, authors[j].id), (authors[j].id, authors[m - 1].id)}
  }

  /** The ordered pairs of ids at two different positions of an author list. */
  function CoPairs(authors: seq<Author>): set<(AuthorId, AuthorId)>
    decreases |authors|
  {
    if authors == [] then {}
    else
      var n := |authors| - 1;
      CoPairs(authors[..n]) + Joined(authors, n, n)
  }

  /** The co-author pairs of all entries. */
  function AllPairs(es: seq<Entry>): set<(AuthorId, AuthorId)>
    decreases |es|
  {
    if es == [] then {} else AllPairs(es[..|es| - 1]) + CoPairs(es[|es| - 1].authors)
  }

  // ---------------------------------------------------------------------
  // Facts about the description
  // ---------------------------------------------------------------------

  lemma IdsOfSnoc(authors: seq<Author>, j: nat)
    requires j < |authors|
    ensures IdsOf(authors[..j + 1]) == IdsOf(authors[..j]) + {authors[j].id}
  {
    assert authors[..j + 1][..j] == authors[..j];
  }

  /** An id is listed in es exactly when some entry of es lists it. */
  lemma {:induction false} AllIdsListed(es: seq<Entry>, x: AuthorId)
    ensures x in AllIds(es) <==> exists k :: 0 <= k < |es| && x in IdsOf(es[k].authors)
    decreases |es|
  {
    if es != [] {
      var n := |es| - 1;
      AllIdsListed(es[..n], x);
      if x in AllIds(es[..n]) {
        var k :| 0 <= k < n && x in IdsOf(es[..n][k].authors);
        assert x in IdsOf(es[k].authors);
      }
      if exists k :: 0 <= k < |es| && x in IdsOf(es[k].authors) {
        var k :| 0 <= k < |es| && x in IdsOf(es[k].authors);
        if k < n {
          assert x in IdsOf(es[..n][k].authors);
        }
      }
    }
  }

  /** The publication ids of node x are those of the entries that list x. */
  lemma {:induction false} PubsOfKeys(es: seq<Entry>, x: AuthorId)
    ensures PubsOf(es, x).Keys == set k | 0 <= k < |es| && x in IdsOf(es[k].authors) :: es[k].publication.idInt
    decreases |es|
  {
    if es != [] {
      var n := |es| - 1;
      PubsOfKeys(es[..n], x);
      var before := set k | 0 <= k < n && x in IdsOf(es[..n][k].authors) :: es[..n][k].publication.idInt;
      var after := set k | 0 <= k < |es| && x in IdsOf(es[k].authors) :: es[k].publication.idInt;
      forall i | i in after
        ensures i in PubsOf(es, x)
      {
        var k :| 0 <= k < |es| && x in IdsOf(es[k].authors) && es[k].publication.idInt == i;
        if k < n {
          assert es[..n][k] == es[k];
          assert i in before;
        }
      }
      forall i | i in PubsOf(es, x)
        ensures i in after
      {
        if i in before {
          var k :| 0 <= k < n && x in IdsOf(es[..n][k].authors) && es[..n][k].publication.idInt == i;
          assert es[..n][k] == es[k];
        } else {
          assert x in IdsOf(es[n].authors) && es[n].publication.idInt == i;
        }
      }
    }
  }

  /** The conference ids of node x are those of the entries that list x. */
  lemma {:induction false} ConfsOfKeys(es: seq<Entry>, x: AuthorId)
    ensures ConfsOf(es, x).Keys == set k | 0 <= k < |es| && x in IdsOf(es[k].authors) :: es[k].conference.idInt
    decreases |es|
  {
    if es != [] {
      var n := |es| - 1;
      ConfsOfKeys(es[..n], x);
      var before := set k | 0 <= k < n && x in IdsOf(es[..n][k].authors) :: es[..n][k].conference.idInt;
      var after := set k | 0 <= k < |es| && x in IdsOf(es[k].authors) :: es[k].conference.idInt;
      forall i | i in after
        ensures i in ConfsOf(es, x)
      {
        var k :| 0 <= k < |es| && x in IdsOf(es[k].authors) && es[k].conference.idInt == i;
        if k < n {
          assert es[..n][k] == es[k];
          assert i in before;
        }
      }
      forall i | i in ConfsOf(es, x)
        ensures i in after
      {
        if i in before {
          var k :| 0 <= k < n && x in IdsOf(es[..n][k].authors) && es[..n][k].conference.idInt == i;
          assert es[..n][k] == es[k];
        } else {
          assert x in IdsOf(es[n].authors) && es[n].conference.idInt == i;
        }
      }
    }
  }

  /** Each stored publication is that of an entry listing x, under its own id. */
  lemma {:induction false} PubsOfValues(es: seq<Entry>, x: AuthorId, i: int)
    requires i in PubsOf(es, x)
    ensures PubsOf(es, x)[i].idInt == i
    ensures exists k :: 0 <= k < |es| && x in IdsOf(es[k].authors) && PubsOf(es, x)[i] == es[k].publication
    decreases |es|
  {
    var n := |es| - 1;
    var e := es[n];
    if x in IdsOf(e.authors) && i == e.publication.idInt {
      assert PubsOf(es, x)[i] == es[n].publication;
    } else {
      PubsOfValues(es[..n], x, i);
      var k :| 0 <= k < n && x in IdsOf(es[..n][k].authors) && PubsOf(es[..n], x)[i] == es[..n][k].publication;
      assert es[..n][k] == es[k];
    }
  }

  /** No entry lists x: x has no publications and no conferences. */
  lemma {:induction false} NotListedEmpty(es: seq<Entry>, x: AuthorId)
    requires x !in AllIds(es)
    ensures PubsOf(es, x) == map[] && ConfsOf(es, x) == map[]
    decreases |es|
  {
    if es != [] {
      NotListedEmpty(es[..|es| - 1], x);
    }
  }

  /** The kept author record is the one at the first position listing x in the
      first entry listing x. */
  lemma {:induction false} FirstRecordIsFirst(es: seq<Entry>, x: AuthorId, k: nat, p: nat)
    requires k < |es| && p < |es[k].authors| && es[k].authors[p].id == x
    requires forall k' :: 0 <= k' < k ==> x !in IdsOf(es[k'].authors)
    requires forall p' :: 0 <= p' < p ==> es[k].authors[p'].id != x
    ensures x in AllIds(es) && FirstRecord(es, x) == es[k].authors[p]
    decreases |es|
  {
    var n := |es| - 1;
    IdsOfListed(es[k].authors, x);
    AllIdsListed(es, x);
    if k < n {
      forall k' | 0 <= k' < k
        ensures x !in IdsOf(es[..n][k'].authors)
      {
        assert es[..n][k'] == es[k'];
      }
      assert es[..n][k] == es[k];
      FirstRecordIsFirst(es[..n], x, k, p);
    } else {
      AllIdsListed(es[..n], x);
      if x in AllIds(es[..n]) {
        assert false;
      }
      FirstIndexUnique(es[n].authors, x, p);
    }
  }

  lemma CoAuthorsSnoc(authors: seq<Author>, j: nat, x: AuthorId, y: AuthorId)
    requires j < |authors|
    ensures CoAuthors(authors[..j + 1], x, y) <==>
              CoAuthors(authors[..j], x, y) || Joins(authors, j, x, y)
  {
    var a, b := authors[..j + 1], authors[..j];
    if CoAuthors(a, x, y) {
      var p, q :| Pair(a, p, q, x, y);
      if p < j && q < j {
        assert Pair(b, p, q, x, y);
      } else if p == j {
        assert Link(authors, q, j, x, y);
      } else {
        assert Link(authors, p, j, x, y);
      }
    }
    if CoAuthors(b, x, y) {
      var p, q :| Pair(b, p, q, x, y);
      assert Pair(a, p, q, x, y);
    }
    if Joins(authors, j, x, y) {
      var m :| 0 <= m < j && Link(authors, m, j, x, y);
      if authors[m].id == x && authors[j].id == y {
        assert Pair(a, m, j, x, y);
      } else {
        assert Pair(a, j, m, x, y);
      }
    }
  }

  /** Position m (before j) and position j of the list hold x and y, in either order. */
  predicate Link(authors: seq<Author>, m: int, j: int, x: AuthorId, y: AuthorId)
    requires 0 <= m < j < |authors|
  {
    (authors[m].id == x && authors[j].id == y) || (authors[m].id == y && authors[j].id == x)
  }

  /** Some earlier position of the list and position j hold x and y. */
  ghost predicate Joins(authors: seq<Author>, j: nat, x: AuthorId, y: AuthorId)
    requires j < |authors|
  {
    exists m :: 0 <= m < j && Link(authors, m, j, x, y)
  }

  lemma CoAuthoredSnoc(es: seq<Entry>, i: nat, x: AuthorId, y: AuthorId)
    requires i < |es|
    ensures CoAuthored(es[..i + 1], x, y) <==> CoAuthored(es[..i], x, y) || CoAuthors(es[i].authors, x, y)
  {
    var a, b := es[..i + 1], es[..i];
    if CoAuthored(a, x, y) {
      var k :| 0 <= k < |a| && CoAuthors(a[k].authors, x, y);
      if k < i {
        assert b[k] == a[k];
      }
    }
    if CoAuthored(b, x, y) {
      var k :| 0 <= k < |b| && CoAuthors(b[k].authors, x, y);
      assert a[k] == b[k];
    }
    if CoAuthors(es[i].authors, x, y) {
      assert a[i] == es[i];
    }
  }

  /** Co-authors share the publication of the entry that lists them both. */
  lemma SharedPublication(es: seq<Entry>, x: AuthorId, y: AuthorId) returns (i: int)
    requires CoAuthored(es, x, y)
    ensures x in AllIds(es) && y in AllIds(es)
    ensures i in PubsOf(es, x) && i in PubsOf(es, y)
  {
    var k :| 0 <= k < |es| && CoAuthors(es[k].authors, x, y);
    var p, q :| Pair(es[k].authors, p, q, x, y);
    IdsOfListed(es[k].authors, x);
    IdsOfListed(es[k].authors, y);
    AllIdsListed(es, x);
    AllIdsListed(es, y);
    PubsOfKeys(es, x);
    PubsOfKeys(es, y);
    i := es[k].publication.idInt;
    assert i in PubsOf(es, x).Keys && i in PubsOf(es, y).Keys;
  }

  /** The finished graph has a self-loop at x exactly when some author list
      holds x at two positions. */
  lemma SelfLoopIffRepeated(es: seq<Entry>, g: Graph, x: AuthorId)
    requires Built(g, es)
    ensures Edge(g, x, x) <==>
              exists k, p, q :: 0 <= k < |es| && 0 <= p < q < |es[k].authors| &&
                es[k].authors[p].id == x && es[k].authors[q].id == x
  {
    if Edge(g, x, x) {
      assert CoAuthored(es, x, x);
      var k :| 0 <= k < |es| && CoAuthors(es[k].authors, x, x);
      var p, q :| Pair(es[k].authors, p, q, x, x);
      if q < p {
        p, q := q, p;
      }
      assert 0 <= k < |es| && 0 <= p < q < |es[k].authors| && es[k].authors[p].id == x && es[k].authors[q].id == x;
    } else {
      forall k, p, q | 0 <= k < |es| && 0 <= p < q < |es[k].authors|
        ensures !(es[k].authors[p].id == x && es[k].authors[q].id == x)
      {
        if es[k].authors[p].id == x && es[k].authors[q].id == x {
          assert Pair(es[k].authors, p, q, x, x);
          assert CoAuthored(es, x, x);
        }
      }
    }
  }

  /** The pairs joined with position j are the co-authors linking j to an earlier position. */
  lemma {:induction false} JoinedIff(authors: seq<Author>, m: nat, j: nat, x: AuthorId, y: AuthorId)
    requires m <= j < |authors|
    ensures (x, y) in Joined(authors, m, j) <==> exists i :: 0 <= i < m && Link(authors, i, j, x, y)
  {
    if m > 0 {
      JoinedIff(authors, m - 1, j, x, y);
      var i := m - 1;
      if (x, y) == (authors[i].id, authors[j].id) || (x, y) == (authors[j].id, authors[i].id) {
        assert Link(authors, i, j, x, y);
      }
      if exists i :: 0 <= i < m && Link(authors, i, j, x, y) {
        var i :| 0 <= i < m && Link(authors, i, j, x, y);
        if i < m - 1 {
          assert exists i' :: 0 <= i' < m - 1 && Link(authors, i', j, x, y);
        }
      }
    }
  }

  /** CoPairs holds exactly the co-author pairs of the list. */
  lemma {:induction false} CoPairsIff(authors: seq<Author>, x: AuthorId, y: AuthorId)
    ensures (x, y) in CoPairs(authors) <==> CoAuthors(authors, x, y)
    decreases |authors|
  {
    if authors != [] {
      var n := |authors| - 1;
      CoPairsIff(authors[..n], x, y);
      JoinedIff(authors, n, n, x, y);
      CoAuthorsSnoc(authors, n, x, y);
      assert authors[..n + 1] == authors;
    }
  }

  /** AllPairs holds exactly the pairs co-authored in some entry. */
  lemma {:induction false} AllPairsIff(es: seq<Entry>, x: AuthorId, y: AuthorId)
    ensures (x, y) in AllPairs(es) <==> CoAuthored(es, x, y)
    decreases |es|
  {
    if es != [] {
      var n := |es| - 1;
      AllPairsIff(es[..n], x, y);
      CoPairsIff(es[n].authors, x, y);
      CoAuthoredSnoc(es, n, x, y);
      assert es[..n + 1] == es;
    }
  }

  // ---------------------------------------------------------------------
  // Building, step by step
  // ---------------------------------------------------------------------

  /** Records entry e's publication and conference on a node's data. */
  function Touch(n: NodeData, e: Entry): (r: NodeData)
    ensures r.author == n.author
    ensures r.publications.Keys == n.publications.Keys + {e.publication.idInt}
    ensures r.conferences.Keys == n.conferences.Keys + {e.conference.idInt}
    ensures r.publications[e.publication.idInt] == e.publication && r.conferences[e.conference.idInt] == e.conference
    ensures forall i {:trigger i in n.publications} :: i in n.publications && i != e.publication.idInt ==>
              r.publications[i] == n.publications[i]
    ensures forall i {:trigger i in n.conferences} :: i in n.conferences && i != e.conference.idInt ==>
              r.conferences[i] == n.conferences[i]
  {
    n.(publications := n.publications[e.publication.idInt := e.publication],
       conferences := n.conferences[e.conference.idInt := e.conference])
  }

  /** Recording the same entry twice is recording it once. */
  lemma TouchTwice(n: NodeData, e: Entry)
    ensures Touch(Touch(n, e), e) == Touch(n, e)
  {
    var t := Touch(n, e);
    assert t.publications[e.publication.idInt := e.publication] == t.publications;
    assert t.conferences[e.conference.idInt := e.conference] == t.conferences;
  }

  /** The data node x starts from: its data in g, or a fresh node for the
      first record of x in the author list. */
  function Base(g: Graph, authors: seq<Author>, x: AuthorId): NodeData
    requires x in g.nodes || x in IdsOf(authors)
  {
    if x in g.nodes then g.nodes[x] else NodeData(authors[FirstIndex(authors, x)], map[], map[])
  }

  /** The data of node x once the authors of entry e have been processed over g. */
  function Recorded(g: Graph, e: Entry, authors: seq<Author>, x: AuthorId): NodeData
    requires x in g.nodes || x in IdsOf(authors)
  {
    if x in IdsOf(authors) then Touch(Base(g, authors, x), e) else g.nodes[x]
  }

  /** Every node of nodes is a node of g or a listed author, with the data Recorded gives. */
  ghost predicate NodesRecorded(g: Graph, e: Entry, authors: seq<Author>, nodes: map<AuthorId, NodeData>)
  {
    && nodes.Keys == g.nodes.Keys + IdsOf(authors)
    && (forall x {:trigger x in nodes} :: x in nodes ==>
          (x in g.nodes || x in IdsOf(authors)) && nodes[x] == Recorded(g, e, authors, x))
  }

  /** h has the edges of g plus the pairs t, which carry weight None; every
      other edge keeps its weight from g. */
  ghost predicate Extends(g: Graph, h: Graph, t: set<(AuthorId, AuthorId)>)
  {
    && (forall x, y {:trigger Edge(h, x, y)} :: Edge(h, x, y) <==> Edge(g, x, y) || (x, y) in t)
    && (forall x, y {:trigger Edge(h, x, y)} :: Edge(h, x, y) ==>
          h.adj[x][y] == (if (x, y) in t then None else g.adj[x][y]))
  }

  lemma ExtendsTrans(g: Graph, h: Graph, k: Graph, t: set<(AuthorId, AuthorId)>, u: set<(AuthorId, AuthorId)>)
    requires Extends(g, h, t) && Extends(h, k, u)
    ensures Extends(g, k, t + u)
  {
    forall x, y | Edge(k, x, y)
      ensures k.adj[x][y] == (if (x, y) in t + u then None else g.adj[x][y])
    {
      if (x, y) !in u {
        assert Edge(h, x, y);
      }
    }
  }

  /** h is g after the listed authors of entry e: they are nodes carrying the
      entry's publication and conference, and every two of them are joined
      by an unweighted edge; nothing else changes. */
  ghost predicate Processed(g: Graph, e: Entry, authors: seq<Author>, h: Graph)
  {
    Valid(h) && NodesRecorded(g, e, authors, h.nodes) && Extends(g, h, CoPairs(authors))
  }

  /** The edge of every earlier position of the author list to its last
      position, added with weight None (the inner loop over nodes_id). */
  method LinkEarlier(g: Graph, authors: seq<Author>) returns (h: Graph)
    requires |authors| > 0 && Valid(g) && IdsOf(authors) <= g.nodes.Keys
    ensures Valid(h) && h.nodes == g.nodes
    ensures Extends(g, h, Joined(authors, |authors| - 1, |authors| - 1))
  {
    var j := |authors| - 1;
    var v := authors[j].id;
    IdsOfListed(authors, v);
    h := g;
    var m := 0;
    while m < j
      invariant m <= j && Valid(h) && h.nodes == g.nodes
      invariant Extends(g, h, Joined(authors, m, j))
    {
      var u := authors[m].id;
      IdsOfListed(authors, u);
      var h' := PutEdge(h, u, v, None);
      PutEdgeExtends(h, u, v);
      ExtendsTrans(g, h, h', Joined(authors, m, j), {(u, v), (v, u)});
      h := h';
      m := m + 1;
    }
  }

  /** Adding edge u-v with weight None extends by the pair and its reverse. */
  lemma PutEdgeExtends(g: Graph, u: AuthorId, v: AuthorId)
    requires u in g.adj && v in g.adj
    ensures Extends(g, PutEdge(g, u, v, None), {(u, v), (v, u)})
  {
  }

  /** The node data after the (j+1)-th author are what Recorded gives for the longer prefix. */
  lemma NodesStep(g: Graph, e: Entry, j: nat, h: Graph, nodes: map<AuthorId, NodeData>)
    requires j < |e.authors| && NodesRecorded(g, e, e.authors[..j], h.nodes)
    requires var a := e.authors[j];
             nodes == h.nodes[a.id := Touch(if a.id in h.nodes then h.nodes[a.id] else NodeData(a, map[], map[]), e)]
    ensures NodesRecorded(g, e, e.authors[..j + 1], nodes)
  {
    var a, P0, P1 := e.authors[j], e.authors[..j], e.authors[..j + 1];
    assert P1[..j] == P0 && P1[j] == a;
    forall x | x in nodes
      ensures (x in g.nodes || x in IdsOf(P1)) && nodes[x] == Recorded(g, e, P1, x)
    {
      if x in g.nodes || x in IdsOf(P0) {
        assert Base(g, P1, x) == Base(g, P0, x);
      }
      if x == a.id && x in IdsOf(P0) {
        TouchTwice(Base(g, P0, x), e);
      }
    }
  }

  /** Adding a node with an empty adjacency entry adds no edge and keeps the graph valid. */
  lemma NewNodeNoEdges(h: Graph, k: Graph, x: AuthorId)
    requires Valid(h) && k.nodes.Keys == h.nodes.Keys + {x}
    requires k.adj == (if x in h.adj then h.adj else h.adj[x := map[]])
    ensures Valid(k) && Extends(h, k, {})
  {
    forall u, v | Edge(k, u, v)
      ensures Edge(h, u, v) && k.adj[u][v] == h.adj[u][v]
    {
    }
  }

  /** One author of the entry: add its node if new, record the entry's
      publication and conference on it, and link it to the earlier authors. */
  method AddAuthor(g: Graph, e: Entry, j: nat, h: Graph) returns (h': Graph)
    requires j < |e.authors| && Processed(g, e, e.authors[..j], h)
    ensures Processed(g, e, e.authors[..j + 1], h')
  {
    var a := e.authors[j];
    var node := if a.id in h.nodes then h.nodes[a.id] else NodeData(a, map[], map[]);
    var nodes := h.nodes[a.id := Touch(node, e)];
    var adj := if a.id in h.adj then h.adj else h.adj[a.id := map[]];
    var k := Graph(nodes, adj);
    EnterStep(g, e, j, h, k);
    h' := LinkEarlier(k, e.authors[..j + 1]);
    PairsStep(g, e.authors, j, h, k, h');
  }

  /** Entering the (j+1)-th author's node keeps the graph valid, adds no
      edge, and gives every node its data for the longer prefix. */
  lemma EnterStep(g: Graph, e: Entry, j: nat, h: Graph, k: Graph)
    requires j < |e.authors| && Processed(g, e, e.authors[..j], h)
    requires var a := e.authors[j];
             && k.nodes == h.nodes[a.id := Touch(if a.id in h.nodes then h.nodes[a.id] else NodeData(a, map[], map[]), e)]
             && k.adj == (if a.id in h.adj then h.adj else h.adj[a.id := map[]])
    ensures Valid(k) && Extends(h, k, {}) && NodesRecorded(g, e, e.authors[..j + 1], k.nodes)
    ensures IdsOf(e.authors[..j + 1]) <= k.nodes.Keys
  {
    NodesStep(g, e, j, h, k.nodes);
    NewNodeNoEdges(h, k, e.authors[j].id);
  }

  /** The edges after linking the (j+1)-th author are those of the longer prefix. */
  lemma PairsStep(g: Graph, authors: seq<Author>, j: nat, h: Graph, k: Graph, h': Graph)
    requires j < |authors|
    requires Extends(g, h, CoPairs(authors[..j])) && Extends(h, k, {})
    requires Extends(k, h', Joined(authors[..j + 1], j, j))
    ensures Extends(g, h', CoPairs(authors[..j + 1]))
  {
    assert authors[..j + 1][..j] == authors[..j];
    ExtendsTrans(g, h, k, CoPairs(authors[..j]), {});
    assert CoPairs(authors[..j]) + {} == CoPairs(authors[..j]);
    ExtendsTrans(g, k, h', CoPairs(authors[..j]), Joined(authors[..j + 1], j, j));
  }

  /** The body of the loop over entries in __create_graph. */
  method AddEntry(g: Graph, e: Entry) returns (h: Graph)
    requires Valid(g)
    ensures Processed(g, e, e.authors, h)
    ensures forall x {:trigger x in IdsOf(e.authors)} :: x in IdsOf(e.authors) ==>
              && x in h.nodes
              && e.publication.idInt in h.nodes[x].publications
              && h.nodes[x].publications[e.publication.idInt] == e.publication
              && e.conference.idInt in h.nodes[x].conferences
              && h.nodes[x].conferences[e.conference.idInt] == e.conference
    ensures forall x {:trigger x in g.nodes} :: x in g.nodes ==> x in h.nodes && h.nodes[x].author == g.nodes[x].author
  {
    h := g;
    var j := 0;
    NoneProcessed(g, e);
    while j < |e.authors|
      invariant j <= |e.authors| && Processed(g, e, e.authors[..j], h)
    {
      h := AddAuthor(g, e, j, h);
      j := j + 1;
    }
    assert e.authors[..j] == e.authors;
    EntryRecorded(g, e, h);
  }

  /** Before the loop over the authors of e, nothing is processed yet. */
  lemma NoneProcessed(g: Graph, e: Entry)
    requires Valid(g)
    ensures Processed(g, e, e.authors[..0], g)
  {
    assert e.authors[..0] == [];
  }

  /** Once every author of e is processed, each listed author holds e's
      publication and conference, and every old node keeps its author record. */
  lemma EntryRecorded(g: Graph, e: Entry, h: Graph)
    requires Processed(g, e, e.authors, h)
    ensures forall x {:trigger x in IdsOf(e.authors)} :: x in IdsOf(e.authors) ==>
              && x in h.nodes
              && e.publication.idInt in h.nodes[x].publications
              && h.nodes[x].publications[e.publication.idInt] == e.publication
              && e.conference.idInt in h.nodes[x].conferences
              && h.nodes[x].conferences[e.conference.idInt] == e.conference
    ensures forall x {:trigger x in g.nodes} :: x in g.nodes ==> x in h.nodes && h.nodes[x].author == g.nodes[x].author
  {
    forall x | x in IdsOf(e.authors)
      ensures x in h.nodes && h.nodes[x] == Touch(Base(g, e.authors, x), e)
    {
    }
    forall x | x in g.nodes
      ensures x in h.nodes && h.nodes[x].author == g.nodes[x].author
    {
      if x in IdsOf(e.authors) {
        assert h.nodes[x] == Touch(Base(g, e.authors, x), e);
      }
    }
  }

  /** Processing entry i of es extends the description of es[..i] to es[..i + 1]. */
  lemma DescribesStep(es: seq<Entry>, i: nat, h: Graph, h': Graph)
    requires i < |es| && Describes(h, es[..i]) && Processed(h, es[i], es[i].authors, h')
    ensures Describes(h', es[..i + 1])
  {
    var E, P, e := es[..i + 1], es[..i], es[i];
    assert E[..i] == P && E[i] == e;
    assert AllIds(E) == AllIds(P) + IdsOf(e.authors);
    forall x | x in h'.nodes
      ensures x in AllIds(E) && h'.nodes[x] == NodeFor(E, x)
    {
      if x !in AllIds(P) {
        NotListedEmpty(P, x);
      }
    }
    assert AllPairs(E) == AllPairs(P) + CoPairs(e.authors);
    forall x, y | Edge(h', x, y)
      ensures h'.adj[x][y].None?
    {
      if (x, y) !in CoPairs(e.authors) {
        assert Edge(h, x, y);
      }
    }
  }

  /** Every node of a described graph holds a publication. */
  lemma DescribedHasPublications(g: Graph, es: seq<Entry>)
    requires Describes(g, es)
    ensures HasPublications(g)
  {
    forall x | x in g.nodes
      ensures g.nodes[x].publications.Keys != {}
    {
      AllIdsListed(es, x);
      var k :| 0 <= k < |es| && x in IdsOf(es[k].authors);
      PubsOfKeys(es, x);
      assert es[k].publication.idInt in PubsOf(es, x).Keys;
    }
  }

  /** What __add_weights keeps true: k has the nodes and edges of g, the
      edges still in todo (both orientations of each) keep their old weight,
      and every other edge carries the Jaccard distance of its endpoints. */
  ghost predicate Weighing(g: Graph, k: Graph, todo: set<(AuthorId, AuthorId)>)
    requires Valid(g) && HasPublications(g)
  {
    && Valid(k) && k.nodes == g.nodes
    && (forall x, y {:trigger Edge(k, x, y)} :: Edge(k, x, y) <==> Edge(g, x, y))
    && (forall t {:trigger t in todo} :: t in todo ==> Edge(g, t.0, t.1) && (t.1, t.0) in todo)
    && (forall x, y {:trigger Edge(g, x, y)} :: Edge(g, x, y) ==>
          x in g.nodes && y in g.nodes && Edge(k, x, y) &&
          k.adj[x][y] == (if (x, y) in todo then g.adj[x][y] else Some(Weight(g, x, y))))
  }

  /** Weighting one edge (both orientations) moves it out of todo. */
  lemma WeighStep(g: Graph, k: Graph, todo: set<(AuthorId, AuthorId)>, x: AuthorId, y: AuthorId)
    requires Valid(g) && HasPublications(g) && Weighing(g, k, todo) && (x, y) in todo
    ensures x in g.nodes && y in g.nodes && x in k.adj && y in k.adj
    ensures Weighing(g, PutEdge(k, x, y, Some(Weight(g, x, y))), todo - {(x, y), (y, x)})
  {
    JaccardSymmetric(g.nodes[x].publications.Keys, g.nodes[y].publications.Keys);
    var k', todo' := PutEdge(k, x, y, Some(Weight(g, x, y))), todo - {(x, y), (y, x)};
    forall u, v | Edge(g, u, v)
      ensures Edge(k', u, v) && k'.adj[u][v] == (if (u, v) in todo' then g.adj[u][v] else Some(Weight(g, u, v)))
    {
      if !((u == x && v == y) || (u == y && v == x)) {
        assert k'.adj[u][v] == k.adj[u][v];
      }
    }
  }

  /** __add_weights: every edge gets weight 1 - Jaccard similarity of its endpoints. */
  method AddWeights(g: Graph) returns (h: Graph)
    requires Valid(g) && HasPublications(g)
    ensures Valid(h) && h.nodes == g.nodes
    ensures forall x, y {:trigger Edge(h, x, y)} :: Edge(h, x, y) <==> Edge(g, x, y)
    ensures forall x, y {:trigger Edge(h, x, y)} :: Edge(h, x, y) ==>
              x in g.nodes && y in g.nodes && h.adj[x][y] == Some(Weight(g, x, y))
  {
    var todo := set x, y | x in g.adj && y in g.adj[x] :: (x, y);
    h := g;
    forall x, y | Edge(g, x, y)
      ensures x in g.nodes && y in g.nodes
    {
      NeighboursAreNodes(g, x);
    }
    while todo != {}
      invariant Weighing(g, h, todo)
      decreases todo
    {
      if forall t :: t !in todo {
        assert false;
      }
      var t :| t in todo;
      var x, y := t.0, t.1;
      WeighStep(g, h, todo, x, y);
      h := PutEdge(h, x, y, Some(Weight(g, x, y)));
      todo := todo - {(x, y), (y, x)};
    }
  }

    /** The entry loop of __create_graph: the nodes and unweighted edges of every entry. */
  method BuildGraph(es: seq<Entry>) returns (h: Graph)
    ensures Describes(h, es) && HasPublications(h)
  {
    h := Graph(map[], map[]);
    var i := 0;
    while i < |es|
      invariant i <= |es| && Describes(h, es[..i])
    {
      var h' := AddEntry(h, es[i]);
      DescribesStep(es, i, h, h');
      h := h';
      i := i + 1;
    }
    assert es[..i] == es;
    DescribedHasPublications(h, es);
  }

  /** The finished graph of the entries: a node per listed author holding what
      the entries say about it, an edge exactly between co-authors, and on it
      the Jaccard distance of the two publication-id sets. */
  ghost predicate Built(g: Graph, es: seq<Entry>)
  {
    && Weighted(g) && g.nodes.Keys == AllIds(es)
    && (forall x {:trigger x in g.nodes} :: x in g.nodes ==> x in AllIds(es) && g.nodes[x] == NodeFor(es, x))
    && (forall x, y {:trigger Edge(g, x, y)} :: Edge(g, x, y) <==> CoAuthored(es, x, y))
    && (forall x, y {:trigger Edge(g, x, y)} :: Edge(g, x, y) ==>
          PubsOf(es, x).Keys + PubsOf(es, y).Keys != {} &&
          g.adj[x][y] == Some(JaccardDistance(PubsOf(es, x).Keys, PubsOf(es, y).Keys)))
  }

  /** Weighting the described graph finishes it. */
  lemma WeighingBuilds(es: seq<Entry>, h: Graph, g: Graph)
    requires Describes(h, es) && HasPublications(h)
    requires Valid(g) && g.nodes == h.nodes
    requires forall x, y {:trigger Edge(g, x, y)} :: Edge(g, x, y) <==> Edge(h, x, y)
    requires forall x, y {:trigger Edge(g, x, y)} :: Edge(g, x, y) ==>
               x in h.nodes && y in h.nodes && g.adj[x][y] == Some(Weight(h, x, y))
    ensures Built(g, es)
  {
    forall x, y
      ensures Edge(g, x, y) <==> CoAuthored(es, x, y)
    {
      AllPairsIff(es, x, y);
    }
    forall x, y | Edge(g, x, y)
      ensures g.adj[x][y].Some? && g.adj[x][y].value >= 0.0
    {
    }
  }

  /** __create_graph followed by __add_weights. */
  method CreateGraph(es: seq<Entry>) returns (g: Graph)
    ensures Weighted(g) && g.nodes.Keys == AllIds(es)
    ensures forall x {:trigger x in g.nodes} :: x in g.nodes ==> x in AllIds(es) && g.nodes[x] == NodeFor(es, x)
    ensures forall x, y {:trigger Edge(g, x, y)} :: Edge(g, x, y) <==> CoAuthored(es, x, y)
    ensures forall x, y {:trigger Edge(g, x, y)} :: Edge(g, x, y) ==>
              PubsOf(es, x).Keys + PubsOf(es, y).Keys != {} &&
              g.adj[x][y] == Some(JaccardDistance(PubsOf(es, x).Keys, PubsOf(es, y).Keys))
  {
    var h := BuildGraph(es);
    g := AddWeights(h);
    WeighingBuilds(es, h, g);
  }

  /** The weight of an edge between co-authors lies in [0, 1), is the same
      from either end, and is 0 exactly when both have the same publication ids. */
  lemma CoAuthorWeight(es: seq<Entry>, x: AuthorId, y: AuthorId)
    requires CoAuthored(es, x, y)
    ensures PubsOf(es, x).Keys + PubsOf(es, y).Keys != {}
    ensures var w := JaccardDistance(PubsOf(es, x).Keys, PubsOf(es, y).Keys);
            && 0.0 <= w < 1.0
            && w == JaccardDistance(PubsOf(es, y).Keys, PubsOf(es, x).Keys)
            && (w == 0.0 <==> PubsOf(es, x).Keys == PubsOf(es, y).Keys)
  {
    var p1, p2 := PubsOf(es, x).Keys, PubsOf(es, y).Keys;
    var k := SharedPublication(es, x, y);
    assert k in p1 * p2 && k in p1 + p2;
    JaccardBelowOne(p1, p2);
    JaccardSymmetric(p1, p2);
    JaccardZero(p1, p2);
  }
}
