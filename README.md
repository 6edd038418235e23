# Co-authorship graph engine, modelled in Dafny

This project models the graph engine of a small bibliographic-analysis tool.
The tool reads publication entries, each with a publication, a conference and
an author list. From them it builds an undirected co-authorship graph:

- one node per author, holding the publications and conferences seen for it;
- one edge per pair of co-authors;
- on each edge, the Jaccard distance `1 - |P1 ∩ P2| / |P1 ∪ P2|` of the two
  authors' publication-id sets.

On this graph it answers these queries:

- Dijkstra shortest paths, with an optional early stop at a target;
- the path from a distinguished hub author ("Aris Anagnostopoulos") to any
  author, rebuilt from the predecessor map;
- the bounded-hop neighbourhood of an author, as distance shells and an
  induced subgraph;
- the subgraph induced by the authors of one conference;
- "group numbers": every node labelled with its distance from the nearest of
  a list of seed authors.

Two versions of the engine are modelled: the current `src/graph.py` and the
earlier `graph.py` at the repository root.

Modules:

- `records.dfy` (`Records`): entries, authors, publications, conferences and
  node data.
- `graphs.dfy` (`Graphs`): the graph as a node map plus a symmetric
  adjacency map whose edge weights are `Option<real>`. `None` stands for the
  `weight=None` placeholder the builder writes before weighting. Distances
  are `Inf | Fin(real)`, with `Inf` standing for `float('inf')`.
- `jaccard.dfy` (`Jaccard`): the weight formula.
- `paths.dfy` (`Paths`): paths, path length, shortest distance and
  predecessor trees.
- `dijkstra.dfy` (`Dijkstra`): the heap loop shared by both versions, and
  `shortest_path`.
- `builder.dfy` (`Builder`): `__create_graph`, `__add_weights` and
  `__weight`.
- `hub_path.dfy` (`HubPath`): `aris_distance`.
- `hops.dfy` (`Hops`): `get_subgraph_author` and `get_subgraph_conf`.
- `groups.dfy` (`Groups`): `set_group_number` and `__check_node`, on the
  class `CollabGraph` whose fields are the graph and `group_numbers`.
- `legacy.dfy` (`Legacy`): the variants in `graph.py`, on the class
  `LegacyGraph`, whose fields are the full and reduced graphs and their
  group-number maps.

How the code is modelled:

- Loops in the source are `while` loops in methods, proved against
  specification functions and predicates. The builder's entry loop and
  weighting loop are examples, as are the heap loop, the walk back along the
  predecessor map, the breadth-first rounds and the group-number loops.
- The heap is a multiset of `(key, node)` items, and each pop takes some
  item of least key.
- Wherever the source calls `shortest_path` or the subgraph queries with
  `self.graph`, the model passes that graph as a parameter. In the legacy
  version, the `reduced` flag chooses which field is passed.

Behaviours of the code worth noting, which the model keeps:

- `shortest_path` returns `None`, not an empty map, as its predecessor map
  when `start` or a given `finish` is unknown.
- `get_subgraph_author` with no hops keeps the author's self-loop if it has
  one, because the subgraph is induced.
- `get_subgraph_author` does not stop early when a shell is empty. It still
  appends `max_hop_dist + 1` shells.

## Model

| member | source | states |
|---|---|---|
| Graphs.PutEdge | src/graph.py:79-81 | adding an edge sets the weight on both orientations; no other edge changes; a valid (symmetric) graph stays valid |
| Graphs.InducedSubgraph | src/graph.py:161 | the induced subgraph keeps exactly the chosen nodes and their data, and the graph's edges between them with their weights; validity and non-negative weights are preserved |
| Jaccard.JaccardDistance | src/graph.py:112-114 | one minus intersection over union of two publication-id sets with a non-empty union, a value in [0, 1]; the legacy `_jaccard_sim` (graph.py:94-98) is the same formula |
| Jaccard.JaccardSymmetric | src/graph.py:112-114 | the weight does not depend on the order of the two nodes |
| Jaccard.JaccardBelowOne | src/graph.py:112-114 | the weight is below 1 exactly when the two sets share an id |
| Jaccard.JaccardZero | src/graph.py:112-114 | the weight is 0 exactly when the two sets are equal |
| Builder.Touch | src/graph.py:76-77 | recording an entry on a node adds its publication and conference ids to the node's id sets and files them there, keeps the author record, and leaves every other id's record unchanged |
| Builder.TouchTwice | src/graph.py:76-77 | recording the same entry twice is recording it once |
| Builder.LinkEarlier | src/graph.py:79-82 | the last listed author gets an edge with weight None to every earlier position of the list, and nothing else changes |
| Builder.AddAuthor | src/graph.py:60-82 | one author of an entry: its node is created if new, the entry is recorded on it, and it is linked to the earlier authors; the processed-prefix invariant advances by one author |
| Builder.AddEntry | src/graph.py:47-82 | after an entry, every listed author is a node holding the entry's publication and conference under their ids, an existing node keeps its author record, and the new edges are exactly the co-author pairs of the list (weight None); the legacy entry loop (graph.py:36-71) does the same |
| Builder.DescribesStep | src/graph.py:47-82 | after entries 0..i the graph's nodes are the listed ids with their accumulated data and its edges are the co-author pairs so far |
| Builder.AllIdsListed | src/graph.py:60-74 | an id is a node exactly when some entry lists it |
| Builder.PubsOfKeys | src/graph.py:76 | a node's publication ids are those of the entries listing it |
| Builder.ConfsOfKeys | src/graph.py:77 | a node's conference ids are those of the entries listing it |
| Builder.PubsOfValues | src/graph.py:76 | each stored publication is the publication of an entry listing the author, filed under its own integer id |
| Builder.FirstRecordIsFirst | src/graph.py:61-74 | a node keeps the author record of the first position listing it in the first entry listing it |
| Builder.SharedPublication | src/graph.py:76-82 | co-authors are both nodes and share a publication id, so their union and intersection are non-empty |
| Builder.SelfLoopIffRepeated | src/graph.py:79-82 | the finished graph has a self-loop at an author exactly when some entry's author list holds that id at two positions |
| Builder.AllPairsIff | src/graph.py:79-82 | the collected edge pairs are exactly the pairs co-authored in some entry |
| Builder.BuildGraph | src/graph.py:47-82 | the entry loop yields a valid unweighted graph whose nodes, node data and edges are those the entries describe, each node holding a publication |
| Builder.AddWeights | src/graph.py:88-99 | the weighting loop keeps nodes and edges and gives every edge the Jaccard distance of its endpoints' publication-id sets, symmetrically |
| Builder.WeighingBuilds | src/graph.py:84 | weighting the graph the entry loop built gives the finished graph: the listed ids with their data, non-negative weights, edges exactly between co-authors, each weighted by the Jaccard distance of their publication-id sets |
| Builder.CreateGraph | src/graph.py:36-85 | the finished graph: nodes are the listed ids with their data, edges exactly between co-authors, each weighted by the Jaccard distance of the publication-id sets |
| Builder.CoAuthorWeight | src/graph.py:101-115 | on every edge the weight is defined, lies in [0, 1), is symmetric, and is 0 exactly when the two publication-id sets are equal |
| Paths.ShortestDistUnique | src/graph.py:203-218 | a node has one shortest distance from a start |
| Paths.ShortestFiniteIffReachable | src/graph.py:203-218 | the shortest distance is finite exactly when a path exists, so unreachable nodes keep infinity |
| Paths.TreeAttained | src/graph.py:238-243 | in a predecessor tree every finite distance is the length of the path that the predecessor links spell out |
| Dijkstra.PopIsFinal | src/graph.py:231-236 | a popped entry of least key for an unvisited node carries that node's final distance, which no path beats (weights are non-negative) |
| Dijkstra.RelaxEdge | src/graph.py:237-245 | relaxing one edge of the node just visited keeps the relaxation invariant: every distance is attained along the predecessor tree, is a lower bound through the visited nodes, and has its heap entry unless visited |
| Dijkstra.Expand | src/graph.py:236-245 | the loop over a visited node's edges restores the search invariant |
| Dijkstra.Settle | src/graph.py:231-245 | one pop of a least entry that is not for finish either drops a stale entry or visits the node and relaxes its edges; the search invariant is kept and either fewer nodes are unvisited or the heap shrinks |
| Dijkstra.Search | src/graph.py:226-246 | the heap loop ends with a predecessor tree; it stops exactly when finish is given and reachable, with finish's distance shortest and equal to the popped key; otherwise every distance is shortest |
| Dijkstra.ShortestPath | src/graph.py:203-246 | distances cover every node and start (0 at start); prev is None exactly when start or a given finish is unknown (then all others are infinite); otherwise prev is an acyclic tree rooted at start, each prev[v] at its shortest distance, and all distances (or finish's) shortest |
| HubPath.FindHub | src/graph.py:176-184 | returns a node whose author the hub test accepts, or None exactly when there is none |
| HubPath.WalkStep | src/graph.py:192-196 | one step back along prev appends the current node with its distance and name and moves to its predecessor, which ranks lower |
| HubPath.TreePath | src/graph.py:186-199 | the reversed walk is a path from the hub, each step's predecessor being the step before, with distances adding up along the edges |
| HubPath.StepsGrow | src/graph.py:186-199 | each step's distance is the previous one's plus the edge weight, so distances are non-decreasing |
| HubPath.ShortestAlong | src/graph.py:186-199 | every listed distance is that node's shortest distance from the hub |
| HubPath.PathToHub | src/graph.py:185-199 | None exactly when the author is unknown, is the hub, or is unreachable; otherwise a list from (hub, 0, hub name) to (author, its distance), each element linked to the previous by an edge, ascending, all distances shortest |
| HubPath.ArisDistance | src/graph.py:164-201 | None when no node is the hub or the author is unknown; otherwise, for the hub node h found, None exactly when the author is h or h does not reach it, and else the path from h to the author as for PathToHub, every distance shortest from h |
| Hops.Neighbours | src/graph.py:155-157 | the loop over a frontier collects exactly the neighbours of its nodes |
| Hops.NextShell | src/graph.py:155-160 | one round turns shell i and the nodes seen so far into shell i+1 and the nodes seen after it |
| Hops.ShellsDisjoint | src/graph.py:158 | two different shells share no node |
| Hops.SeenStep | src/graph.py:154-160 | the nodes seen after a round are those seen before plus all their neighbours |
| Hops.SeenWithin | src/graph.py:161 | a node is in the union of shells 0..n exactly when a path of at most n edges reaches it |
| Hops.ShellAtHop | src/graph.py:158-159 | a node is in shell n exactly when its hop distance from the author is n |
| Hops.GetSubgraphAuthor | src/graph.py:138-162 | None exactly for an unknown author; otherwise max(0, max_hop_dist) + 1 shells, shell i being the i-th breadth-first shell, and the subgraph induced on their union |
| Hops.ZeroHops | src/graph.py:151-161 | with no hops the subgraph is the author alone, with only its self-loop if it has one |
| Hops.GetSubgraphConf | src/graph.py:117-136 | the subgraph's nodes are exactly the authors whose conferences include the id, with their data and all graph edges among them, weights kept; the legacy version (graph.py:100-112) is the same on the selected graph |
| Groups.Known | src/graph.py:258-258 | the filter keeps exactly the seeds that are nodes, never more than given |
| Groups.KnownEmpty | src/graph.py:258-266 | no seed survives the check exactly when none of them is a node |
| Groups.MinOf | src/graph.py:265 | the minimum is at most each listed distance and equals one of them |
| Groups.MinIsNearest | src/graph.py:261-266 | the minimum over the seeds' shortest-distance maps is the node's distance from the nearest seed |
| Groups.NearestSeedUnique | src/graph.py:264-266 | a node has one nearest-seed distance |
| Groups.SingleSeed | src/graph.py:261-266 | with one seed the nearest-seed distance is that seed's shortest distance |
| Groups.SeedDistances | src/graph.py:260-262 | one shortest-distance map per known seed, in order |
| Groups.CollabGraph.constructor | src/graph.py:23-34 | the object holds the finished graph of the entries (listed ids with their data, edges exactly between co-authors, each weighted by the Jaccard distance of the publication-id sets) and empty group numbers |
| Groups.CollabGraph.SetGroupNumber | src/graph.py:248-267 | the graph is unchanged; every node, and only the nodes, gets its distance from the nearest known seed, infinity when no seed is known |
| Groups.OneSeedGroups | src/graph.py:248-267 | with exactly one known seed the group numbers are that seed's shortest-distance map |
| Groups.NoSeedGroups | src/graph.py:264-266 | with no seed in the graph every group number is infinity |
| Legacy.ShortestPath | graph.py:173-198 | an unknown start yields 0 if it is finish and an error otherwise; from a known start the popped distance of finish is returned exactly when finish is reachable, and is shortest; otherwise the map of shortest distances with start at 0 |
| Legacy.OutcomeUnique | graph.py:183-198 | the outcome does not depend on how ties in the heap are broken |
| Legacy.AgreesWithCurrent | graph.py:173-198 | without finish, a known start gets the same distance map as the current version's shortest distances |
| Legacy.ArisDistance | graph.py:158-171 | None exactly when no node is the hub; otherwise the outcome of the search from the author towards some hub node |
| Legacy.ArisOutcome | graph.py:170-171 | from a known author the result is a number exactly when the hub is reachable, and it is the shortest distance |
| Legacy.GetSubgraphAuthor | graph.py:114-129 | as written: an unknown author fails once a round runs; d+1 node-list entries, entry i being frontier i minus the nodes seen before; the subgraph induced on frontiers 1..d only |
| Legacy.FrontierNodes | graph.py:122-124 | every frontier after the first holds graph nodes only |
| Legacy.GatheredSeen | graph.py:126-127 | the author plus frontiers 1..n are the nodes within n hops |
| Legacy.LegacyShells | graph.py:125 | the legacy node-list entry i equals the current version's shell i |
| Legacy.GatheredMissesCentre | graph.py:126-128 | the legacy subgraph's node set lies within n hops and misses at most the author |
| Legacy.CentreDropped | graph.py:117-128 | with no hop the legacy subgraph is empty, and with one hop an author without a self-loop is missing, though it is within reach |
| Legacy.LegacyGraph.constructor | graph.py:16-26 | both graphs are built from their entries and weighted |
| Legacy.LegacyGraph.CreateGraph | graph.py:29-79 | the selected field holds the finished weighted graph of the entries; the other graph and the group maps are unchanged |
| Legacy.LegacyGraph.AddWeights | graph.py:82-92 | the selected graph keeps its nodes and edges and every edge gets the Jaccard distance; the other graph is unchanged |
| Legacy.SeedDistances | graph.py:206-209 | a distance map per seed, or failure exactly when some seed is not a node |
| Legacy.Labels | graph.py:210-211 | every node, and only the nodes, gets its distance from the nearest seed |
| Legacy.GroupLabels | graph.py:206-211 | the labels, or failure exactly when a seed is unknown or there are nodes but no seeds |
| Legacy.LegacyGraph.SetGroupNumber | graph.py:200-211 | both maps are reset; ok exactly when no error is raised, and then the selected map gives every node its nearest-seed distance while the other stays empty |

## Left out

- Loading and saving graphs with pickle, reading the JSON data file,
  `tqdm` progress bars and `print` logging are file and console I/O. The
  entries are a parameter, and the constructors always build.
- Legacy `__init__` builds only the graphs its `reduced`/`full` flags ask
  for, so a field may be missing. `Legacy.LegacyGraph.constructor` always
  builds both, and starts the group-number maps empty.
- `get_centralities` is a wrapper over networkx centrality measures, which
  are not part of this model.
- The legacy `_get_edges` is unused, and it indexes networkx's attribute
  dictionary rather than the adjacency.
- networkx itself is not modelled. Adjacency, `add_edge` and `subgraph`
  become explicit maps, `Graphs.PutEdge` and `Graphs.Induced`. Iteration
  over `graph.nodes()` and `graph.edges()` picks an arbitrary remaining
  element, so networkx's insertion order is not captured.
- The hub test `author_name.lower() == 'aris anagnostopoulos'` is the
  parameter `isHub`, because Unicode case folding is out of scope.
  `get_author_name` and its `.title()` are left out for the same reason.
  Each hub-path step carries the node's stored name.
- HubPath.FindHub: does not say which hub is found when several nodes match,
  because the source takes the first in networkx's node order.
- Floating point becomes exact `real` arithmetic, and `float('inf')` becomes
  `Inf`. Rounding of sums and quotients is not modelled.
- Heap tie-breaking is left out. A pop takes some entry of least key, so
  among equally short paths the model does not say which predecessor is
  chosen. The distances themselves are fully specified.
- Dijkstra.ShortestPath: with `finish` given, the distances of other nodes
  are only partial at the stop. The model states the predecessor-tree facts
  about them, not their exact values.
- Legacy.ShortestPath: runs the heap loop shared with the current version,
  which also records predecessors. The legacy loop keeps no predecessor map,
  and the model discards it. Otherwise the two loops relax and push alike.
- Legacy `set_group_number` with no seed list (`None`) fails on iteration.
  The model takes a list.
- `sys.exit(2)` in `get_subgraph_author` becomes the `None` result.
  networkx's `NetworkXError` and Python's `KeyError` and `ValueError` become
  `None`, `NotANode` or `ok == false` results.
- The `models/*.py` record classes are folded into the datatypes of
  `Records`.
- The plotting scripts and the command-line front end are not part of this
  model.

## Findings

| source | as written | input that shows it | evidently intended | confidence | as-written member | corrected member |
|---|---|---|---|---|---|---|
| graph.py:117-128 | `subgraph_ids` starts empty and gathers only frontiers 1..d, so the centre author is in the subgraph only if some walk of 1..d edges returns to it | any known author with d = 0 (empty subgraph), or d = 1 for an author without a self-loop (author missing) | the subgraph induced on every node within d hops, author included, as `src/graph.py:152` does | medium, not executed | Legacy.CentreDropped | Hops.GetSubgraphAuthor |
