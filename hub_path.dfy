// The path from the hub author to a given author (aris_distance): find the
// hub by its name, run the search from the hub towards the author, and walk
// the predecessor map back from the author to the hub.

module HubPath {
  import opened Records
  import opened Graphs
  import opened Paths
  import opened Dijkstra

  /** One element of the returned path: an author id, its distance from the
      hub and the author's name. */
  datatype Step = Step(id: AuthorId, dist: real, name: string)

  /** The name the hub element of a path carries. */
  const HubName: string := "Aris Anagnostopoulos"

  /** Node x is the hub: its author's name matches (the case-insensitive
      comparison is abstracted as the predicate isHub). */
  predicate IsHubNode(g: Graph, isHub: Author -> bool, x: AuthorId)
  {
    x in g.nodes && isHub(g.nodes[x].author)
  }

  /** The loop over the nodes that looks for the hub. */
  method FindHub(g: Graph, isHub: Author -> bool) returns (hub: Option<AuthorId>)
    ensures hub.Some? ==> IsHubNode(g, isHub, hub.value)
    ensures hub.None? <==> forall x :: x in g.nodes ==> !IsHubNode(g, isHub, x)
  {
    var rest := g.nodes.Keys;
    while rest != {}
      invariant rest <= g.nodes.Keys
      invariant forall x :: x in g.nodes && x !in rest ==> !IsHubNode(g, isHub, x)
      decreases rest
    {
      if forall x :: x !in rest {
        assert false;
      }
      var x :| x in rest;
      if isHub(g.nodes[x].author) {
        return Some(x);
      }
      rest := rest - {x};
    }
    return None;
  }

  function Reversed<T>(s: seq<T>): (r: seq<T>)
    ensures |r| == |s| && forall i :: 0 <= i < |s| ==> r[i] == s[|s| - 1 - i]
  {
    if s == [] then [] else Reversed(s[1..]) + [s[0]]
  }

  /** The author ids along a path. */
  function Ids(steps: seq<Step>): (ids: seq<AuthorId>)
    ensures |ids| == |steps| && forall i :: 0 <= i < |steps| ==> ids[i] == steps[i].id
  {
    seq(|steps|, i requires 0 <= i < |steps| => steps[i].id)
  }

  /** The distances along the path never decrease. */
  ghost predicate Ascending(steps: seq<Step>)
  {
    forall i, j :: 0 <= i <= j < |steps| ==> steps[i].dist <= steps[j].dist
  }

  /** The walk back from the author: back[0] is the author, each element's
      predecessor is the next one, the last element's predecessor is control,
      and every element carries its distance and its author's name. */
  ghost predicate Walked(g: Graph, D: map<AuthorId, Dist>, prev: map<AuthorId, AuthorId>,
                         author: AuthorId, back: seq<Step>, control: AuthorId)
  {
    && |back| >= 1 && back[0].id == author
    && (forall i :: 0 <= i < |back| ==>
          && back[i].id in prev && back[i].id in D && back[i].id in g.nodes
          && D[back[i].id] == Fin(back[i].dist)
          && back[i].name == g.nodes[back[i].id].author.name)
    && (forall i :: 0 <= i < |back| - 1 ==> prev[back[i].id] == back[i + 1].id)
    && prev[back[|back| - 1].id] == control
  }

  /** Every element of p carries its node's finite distance in D, and from
      the second one on its author's name and the previous element as its
      predecessor. */
  ghost predicate OnTree(g: Graph, D: map<AuthorId, Dist>, prev: map<AuthorId, AuthorId>, p: seq<Step>)
  {
    && (forall i :: 0 <= i < |p| ==> p[i].id in D && D[p[i].id] == Fin(p[i].dist))
    && (forall i {:trigger p[i]} :: 1 <= i < |p| ==>
          && p[i].id in g.nodes && p[i].name == g.nodes[p[i].id].author.name
          && p[i].id in prev && prev[p[i].id] == p[i - 1].id)
  }

  /** What the returned path promises: it starts at the hub with distance 0,
      ends at the author, is a path as long as the author's distance, and each
      element is reached from the one before over an edge whose weight is
      their distance difference. */
  ghost predicate HubPathTo(g: Graph, hub: AuthorId, author: AuthorId, p: seq<Step>)
    requires Weighted(g)
  {
    && |p| >= 2 && p[0] == Step(hub, 0.0, HubName) && p[|p| - 1].id == author
    && PathFrom(g, hub, author, Ids(p)) && Len(g, Ids(p)) == p[|p| - 1].dist
    && (forall i :: 1 <= i < |p| ==>
          && p[i].name == g.nodes[p[i].id].author.name
          && Edge(g, p[i - 1].id, p[i].id)
          && p[i].dist == p[i - 1].dist + W(g, p[i - 1].id, p[i].id))
    && Ascending(p)
  }

  /** Path reconstruction from hub to author over the result of the search
      from the hub: None when the author is not a node or has no predecessor
      (it is the hub itself or cannot be reached); otherwise a path from the
      hub to the author on which every element is at its shortest distance. */
  method PathToHub(g: Graph, hub: AuthorId, author: AuthorId) returns (r: Option<seq<Step>>)
    requires Weighted(g) && hub in g.nodes
    ensures r.None? <==> author !in g.nodes || author == hub || !Reachable(g, hub, author)
    ensures r.Some? ==> HubPathTo(g, hub, author, r.value)
    ensures r.Some? ==> forall i :: 0 <= i < |r.value| ==> IsShortestDist(g, hub, r.value[i].id, Fin(r.value[i].dist))
  {
    var distances, prev := ShortestPath(g, hub, Some(author));
    if prev.None? {
      return None;
    }
    var pm := prev.value;
    if author !in pm {
      ShortestFiniteIffReachable(g, hub, author, distances[author]);
      return None;
    }
    ghost var rank :| RankedBy(pm, rank);
    var back := [Step(author, distances[author].value, g.nodes[author].author.name)];
    var control := pm[author];
    while control != hub
      invariant Walked(g, distances, pm, author, back, control)
      invariant control in rank && (control == hub || control in pm)
      decreases rank[control]
    {
      back, control := WalkStep(g, hub, distances, pm, rank, author, back, control);
    }
    var p := Reversed(back + [Step(hub, 0.0, HubName)]);
    ReversedWalk(g, hub, author, distances, pm, back, p);
    TreePath(g, hub, distances, pm, p);
    forall i | 0 <= i < |p|
      ensures IsShortestDist(g, hub, p[i].id, Fin(p[i].dist))
    {
      ShortestAlong(g, hub, author, distances, pm, p, i);
    }
    r := Some(p);
  }

  /** One step of the walk back: append control and move to its predecessor. */
  method WalkStep(g: Graph, hub: AuthorId, D: map<AuthorId, Dist>, prev: map<AuthorId, AuthorId>,
                  ghost rank: map<AuthorId, nat>, author: AuthorId, back: seq<Step>, control: AuthorId)
    returns (back': seq<Step>, control': AuthorId)
    requires Weighted(g) && PredecessorTree(g, hub, D, prev) && RankedBy(prev, rank)
    requires Walked(g, D, prev, author, back, control) && control in prev
    ensures back' == back + [Step(control, D[control].value, g.nodes[control].author.name)]
    ensures control' == prev[control] && Walked(g, D, prev, author, back', control')
    ensures control' in rank && rank[control'] < rank[control] && (control' == hub || control' in prev)
  {
    assert control in g.nodes && D[control].Fin?;
    back' := back + [Step(control, D[control].value, g.nodes[control].author.name)];
    control' := prev[control];
    assert control' in D && D[control'].Fin?;
  }

  /** Reversing the finished walk puts the hub first and the author last. */
  lemma ReversedWalk(g: Graph, hub: AuthorId, author: AuthorId, D: map<AuthorId, Dist>,
                     prev: map<AuthorId, AuthorId>, back: seq<Step>, p: seq<Step>)
    requires Walked(g, D, prev, author, back, hub) && hub in D && D[hub] == Fin(0.0)
    requires p == Reversed(back + [Step(hub, 0.0, HubName)])
    ensures |p| >= 2 && p[0] == Step(hub, 0.0, HubName) && p[|p| - 1].id == author
    ensures OnTree(g, D, prev, p)
  {
    var n := |back|;
    forall i | 0 <= i < |p|
      ensures p[i].id in D && D[p[i].id] == Fin(p[i].dist)
      ensures i >= 1 ==> p[i].id in g.nodes && p[i].name == g.nodes[p[i].id].author.name
                         && p[i].id in prev && prev[p[i].id] == p[i - 1].id
    {
      if i >= 1 {
        assert p[i] == back[n - i];
        if i >= 2 {
          assert p[i - 1] == back[n - i + 1];
        }
      }
    }
  }

  /** A sequence on the predecessor tree that starts at the hub is a path as
      long as its last distance, with distances growing edge by edge. */
  lemma TreePath(g: Graph, hub: AuthorId, D: map<AuthorId, Dist>, prev: map<AuthorId, AuthorId>, p: seq<Step>)
    requires Weighted(g) && PredecessorTree(g, hub, D, prev) && OnTree(g, D, prev, p)
    requires |p| >= 2 && p[0] == Step(hub, 0.0, HubName)
    ensures HubPathTo(g, hub, p[|p| - 1].id, p)
  {
    var ids := Ids(p);
    forall i | 1 <= i < |ids|
      ensures Follows(prev, ids, i)
    {
      assert p[i].id in prev && prev[p[i].id] == p[i - 1].id;
    }
    LinkedPath(g, hub, D, prev, ids);
    assert PrefixAtDist(g, D, ids, |ids| - 1);
    assert ids[..|ids|] == ids;
    StepsGrow(g, hub, D, prev, p);
  }

  /** Along a sequence on the predecessor tree each distance is the previous
      one plus the weight of the edge between them, so distances never decrease. */
  lemma StepsGrow(g: Graph, hub: AuthorId, D: map<AuthorId, Dist>, prev: map<AuthorId, AuthorId>, p: seq<Step>)
    requires Weighted(g) && PredecessorTree(g, hub, D, prev) && OnTree(g, D, prev, p)
    ensures forall i :: 1 <= i < |p| ==>
              && p[i].name == g.nodes[p[i].id].author.name
              && Edge(g, p[i - 1].id, p[i].id)
              && p[i].dist == p[i - 1].dist + W(g, p[i - 1].id, p[i].id)
    ensures Ascending(p)
  {
    forall i | 1 <= i < |p|
      ensures && p[i].name == g.nodes[p[i].id].author.name
              && Edge(g, p[i - 1].id, p[i].id)
              && p[i].dist == p[i - 1].dist + W(g, p[i - 1].id, p[i].id)
    {
      assert p[i].id in prev && prev[p[i].id] == p[i - 1].id;
    }
    forall i, j | 0 <= i <= j < |p|
      ensures p[i].dist <= p[j].dist
    {
      Climb(g, p, i, j);
    }
  }

  /** Every element of the path is at its shortest distance from the hub:
      the author by the search's promise about finish, the others because
      they are predecessors. */
  lemma ShortestAlong(g: Graph, hub: AuthorId, author: AuthorId, D: map<AuthorId, Dist>,
                      prev: map<AuthorId, AuthorId>, p: seq<Step>, i: nat)
    requires Weighted(g) && OnTree(g, D, prev, p) && i < |p| && p[|p| - 1].id == author
    requires forall v :: v in prev ==> prev[v] in D && IsShortestDist(g, hub, prev[v], D[prev[v]])
    requires author in D && IsShortestDist(g, hub, author, D[author])
    ensures IsShortestDist(g, hub, p[i].id, Fin(p[i].dist))
  {
    if i < |p| - 1 {
      assert prev[p[i + 1].id] == p[i].id;
    }
  }

  /** Along steps whose distance grows by a non-negative weight at each hop,
      distances never decrease. */
  lemma {:induction false} Climb(g: Graph, p: seq<Step>, i: nat, j: nat)
    requires Weighted(g) && i <= j < |p|
    requires forall k :: 1 <= k < |p| ==>
               Edge(g, p[k - 1].id, p[k].id) && p[k].dist == p[k - 1].dist + W(g, p[k - 1].id, p[k].id)
    ensures p[i].dist <= p[j].dist
    decreases j - i
  {
    if i < j {
      Climb(g, p, i, j - 1);
      assert Edge(g, p[j - 1].id, p[j].id);
    }
  }

  /** aris_distance: None when no node is the hub or the author is not a node;
      otherwise, for the hub h found, None exactly when the author is h or h
      does not reach it, and else the path of PathToHub from h. */
  method ArisDistance(g: Graph, isHub: Author -> bool, author: AuthorId) returns (r: Option<seq<Step>>)
    requires Weighted(g)
    ensures (forall x :: x in g.nodes ==> !IsHubNode(g, isHub, x)) ==> r.None?
    ensures author !in g.nodes ==> r.None?
    ensures author in g.nodes && (exists x :: IsHubNode(g, isHub, x)) ==>
              exists h :: IsHubNode(g, isHub, h)
                && (r.None? <==> author == h || !Reachable(g, h, author))
                && (r.Some? ==> HubPathTo(g, h, author, r.value))
                && (r.Some? ==> forall i :: 0 <= i < |r.value| ==> IsShortestDist(g, h, r.value[i].id, Fin(r.value[i].dist)))
  {
    var hub := FindHub(g, isHub);
    if hub.None? {
      return None;
    }
    r := PathToHub(g, hub.value, author);
    assert IsHubNode(g, isHub, hub.value);
  }
}
