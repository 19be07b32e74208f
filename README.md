# GraphToolkit core in Dafny

This project models the core of GraphToolkit, a Python toolkit for labelled directed multigraphs built on networkx, and proves properties of that model. The core consists of:

- **The multigraph** (`Multigraph`, `Undirected`). A networkx `MultiDiGraph` is held as a value:
  - the node ids in insertion order, with each node's attribute map;
  - the edge ids `(src, dst, key)` in insertion order, with each edge's attribute map.

  Out-edges, in-edges and the whole edge view are listed in the order networkx's nested dictionaries give them. A key-less `add_edge` takes `new_edge_key`: the first unused key at or after the pair's key count. The undirected view is given by the sets of nodes within `d` hops of a source, and hop distances are specified on those sets.
- **`DBGraph` and `DBGraphs`** (`DbGraph`, `Database`). Both are classes whose fields the methods update in place:
  - a `DBGraph` holds a graph and its database id, and has `copy()`;
  - a `DBGraphs` holds an ordered list of graphs.
- **`extract_k_distant_nodes`** (`DistantNodes`). It works in two stages:
  - A landmark sketch, built in a two-dimensional array column by column by breadth-first search.
  - A greedy farthest-point selection over L1 distances between sketch rows. It keeps a running per-row minimum in an array.

  Both stages are proved against recursive specification functions.
- **`extract_subgraph_by_edge_count`** (`EdgeSearch`, `EdgeBudget`). A queue-driven breadth-first collection of edges over the undirected view that stops when the edge budget is reached. It is proved against the component of the source.
- **`MultiArcsExpansionStrategy.reify`** (`MultiArcsExpansion`). Rewrites a copy of the graph: every arc of a multi-arc pair goes through a fresh node, and every single-arc pair gets a second arc.
- **The ".data" text format** (`DataSaver`, `DataReader`, `DataRoundTrip`):
  - the writer of graphs and databases;
  - the line classifiers and parsers;
  - the `read` and `read_db` loops;
  - what reading back the writer's lines gives.

  Labels are written joined by ", " but read back by splitting on whitespace. So one label, or none, reads back exactly, while several labels come back with a comma on all but the last.
- **The CSV reader** (`CsvReader`):
  - table validation and classification;
  - the header entity helpers;
  - the "src|dst" row parser;
  - the table-to-graph assembly of `_csv_to_nx`.

`PyStr` models the Python string operations the readers and writers use (`split()`, `split(c)`, `strip()`, `join`, `int()`, `str()`), and `Wrappers` holds `Option`, `Result` and the exceptions the core raises.

Everything random, file-based or concurrent is a parameter of the model:

- the landmark sample;
- the iteration order of `set(graph.edges())`;
- the directory listing with each file's table;
- the lines of a file;
- the text already in a file opened for appending.

## Model

| member | source | states |
|---|---|---|
| Multigraph.Graph.PairKeys | reify/multi_arcs_expansion.py:56 | the keys listed for a pair are exactly the keys of the edges joining it |
| Multigraph.Graph.NewEdgeKey | reader/csv.py:105 | the key a key-less `add_edge` takes is unused for the pair, is at least the pair's key count, and every key between the two is taken |
| Multigraph.Graph.EnsureNode | graph.py:108 | a missing endpoint is added with empty attributes; existing nodes and all edges are untouched |
| Multigraph.Graph.AddNode | graph.py:78 | a new node is appended with its attributes, an existing node keeps its place and has the attributes merged in; edges unchanged |
| Multigraph.Graph.AddEdgeWithKey | graph.py:108 | missing endpoints are added; a new edge id is appended with its data, an existing one has the data merged in; old node data kept |
| Multigraph.Graph.AddEdge | reader/csv.py:105 | a key-less `add_edge` always appends a new parallel edge under `new_edge_key` with exactly the given data |
| Multigraph.Graph.OutEdges | graph.py:93 | the out-edges of `u` are exactly the edges leaving `u`, each once |
| Multigraph.Graph.InEdges | graph.py:94 | the in-edges of `u` are exactly the edges entering `u`, each once |
| Multigraph.Graph.EdgesView | saver/data.py:26 | the edge view holds exactly the edges of the graph |
| Multigraph.AddNodeValid | graph.py:78 | `add_node` keeps the graph well formed |
| Multigraph.AddEdgeWithKeyValid | graph.py:108 | `add_edge` with a key keeps the graph well formed |
| Multigraph.AddEdgeValid | reader/data.py:70 | `add_edge` without a key keeps the graph well formed |
| Multigraph.AddEdgeKeepsPrefix | reader/data.py:69-70 | `add_edge` keeps the earlier edges in place |
| Multigraph.AddEdgeNewEndpoints | reader/data.py:70 | endpoints that `add_edge` creates have no attributes |
| Multigraph.AddEdgeAddsParallel | reader/csv.py:104-105 | a key-less `add_edge` never overwrites: the total and the pair's edge counts grow by one, other pairs' counts are unchanged |
| Multigraph.PairCount | reify/multi_arcs_expansion.py:51 | `number_of_edges(u, v)` counts exactly the edge ids from `u` to `v` |
| Multigraph.NodeCount | graph.py:20 | `number_of_nodes()` is the size of the node map |
| Multigraph.EdgeCount | graph.py:139 | the edge count is the size of the edge map |
| Multigraph.EdgesViewIsPermutation | graph.py:139 | the edge view lists every edge exactly once |
| Multigraph.CopyOf | graph.py:136-140 | a copy by insertion has the same nodes in order, the same node and edge data, and the same edges |
| Multigraph.EmptyGraph | graph.py:74 | a new graph has no node and no edge |
| Undirected.NbrsMem | graph.py:36 | a node is a neighbour of a set in the undirected view exactly when an edge joins them in either direction |
| Undirected.ShortestPathLengths | graph.py:41 | `single_source_shortest_path_length` on the undirected view maps exactly the nodes of the source's component, each to its hop distance; the source is at 0 |
| Undirected.HopDistUnique | graph.py:41 | a node has one hop distance |
| Undirected.HopDistBelowNodeCount | graph.py:35-37 | every hop distance is below N, so the sentinel N never stands for a real distance |
| Undirected.ReachableStep | graph.py:112-117 | an endpoint of an edge touching the component lies in the component |
| Undirected.ReachableInGraph | graph.py:42-43 | every node reached is a node of the graph |
| DbGraph.FormatGraphId | saver/data.py:55 | the id as an f-string writes it: `None`, the decimal integer (which parses back to it), or the text |
| DbGraph.DBGraph.constructor | graph.py:126-128 | a new `DBGraph` is empty and has the given id |
| DbGraph.DBGraph.SetGraphId | graph.py:130-134 | after `set_graph_id`, `get_graph_id` returns that id; the graph is unchanged |
| DbGraph.DBGraph.AddNode | reader/data.py:64 | `add_node` on the graph in place, id unchanged |
| DbGraph.DBGraph.AddEdge | reader/data.py:68-70 | `add_edge` on the graph in place; returns the key `new_edge_key` chose |
| DbGraph.DBGraph.AddEdgeWithKey | graph.py:108 | `add_edge` with a key on the graph in place |
| DbGraph.DBGraph.Copy | graph.py:136-140 | `copy()` is a new `DBGraph` with the same id holding the copy of the graph |
| DbGraph.DBGraph.AddNodesOf | graph.py:138 | `add_nodes_from(nodes(data=True))` into an empty graph gives the same nodes, in order, with their data |
| DbGraph.DBGraph.AddEdgesOf | graph.py:139 | `add_edges_from(edges(data=True, keys=True))` gives the copy: every edge with its key and data, in edge-view order |
| Database.DBGraphs.constructor | db.py:11-13 | empty without an argument, otherwise the given graphs in order |
| Database.DBGraphs.AddGraph | db.py:15-16 | appends at the end; the length grows by one and earlier entries are unchanged |
| Database.DBGraphs.GetGraphs | db.py:18-19 | the graphs in insertion order |
| DistantNodes.L1Self | graph.py:53 | a row is at L1 distance 0 from itself |
| DistantNodes.ArgMax | graph.py:47 | `np.argmax`: the lowest index holding the largest value |
| DistantNodes.Column | graph.py:47 | `dist_matrix[:, c]` holds entry `c` of every row |
| DistantNodes.Greedy | graph.py:55-58 | the selection has exactly `k` entries, all row indices |
| DistantNodes.MinDistIsMinimum | graph.py:52-65 | the running minimum of a row is its smallest L1 distance to a picked row, attained by some pick |
| DistantNodes.MinDistNeverIncreases | graph.py:65 | a new pick never raises a running minimum |
| DistantNodes.PickedRowsAreZero | graph.py:52-65 | every picked row has running minimum 0 |
| DistantNodes.GreedyPrefix | graph.py:55-58 | the first `t` picks of a longer run are the run of length `t` |
| DistantNodes.FirstPick | graph.py:47-48 | the first pick is the lowest row attaining the maximum of landmark column 0 |
| DistantNodes.RepeatOnlyAtZero | graph.py:57-58 | a row already picked is picked again only when every running minimum is 0 |
| DistantNodes.GreedyExample | graph.py:47-58 | on rows [0]..[5] two picks give rows 5, then 0 |
| DistantNodes.Rows | graph.py:37 | the rows of the two-dimensional sketch array |
| DistantNodes.RowDistance | graph.py:53 | the loop computes the L1 distance of two rows |
| DistantNodes.ArgMaxOf | graph.py:57 | the loop finds `np.argmax` of the running minima |
| DistantNodes.InitMinDists | graph.py:52-53 | `min_dists` starts as every row's L1 distance to the first pick |
| DistantNodes.UpdateMinDists | graph.py:61-65 | `np.minimum` in place gives the running minima after one more pick |
| DistantNodes.PickFarthest | graph.py:56-65 | one round picks the next greedy row and updates the minima |
| DistantNodes.FirstPickOf | graph.py:47-53 | the first pick and its minima |
| DistantNodes.SelectIndices | graph.py:45-65 | the loop's `selected_indices` is the greedy selection of `k` rows |
| DistantNodes.NodeIndex | graph.py:27 | `node_to_idx` maps exactly the nodes, each to its position |
| DistantNodes.SketchRows | graph.py:36-43 | the sketch has one row per node and one column per landmark, each entry the landmark's distance entry |
| DistantNodes.SketchEntryMeaning | graph.py:36-43 | an entry is the hop distance (below N) when the node is reachable from the landmark, N when it is not, 0 at the landmark itself |
| DistantNodes.FillColumn | graph.py:39-43 | one landmark's search writes its column with sketch entries and nothing else |
| DistantNodes.BuildSketch | graph.py:36-43 | the filled array is the sketch |
| DistantNodes.NodesAt | graph.py:67 | the nodes at the selected row indices, in selection order |
| DistantNodes.ExtractKDistantNodes | graph.py:12-67 | the result is `[]` for k <= 0, every node for k >= N, else the nodes at the greedy rows; a negative landmark count is `random.sample`'s `ValueError`, a zero count the `IndexError` of column 0 |
| DistantNodes.KDistantNodesShape | graph.py:20-24 | k <= 0 gives `[]`; k >= N gives every node once in node order; otherwise exactly k graph nodes, failing only for a non-positive landmark count |
| EdgeSearch.CopyNode | graph.py:76-78 | `add_node_with_attrs` copies a node with its attributes into the subgraph |
| EdgeSearch.CopyEdge | graph.py:108 | the subgraph receives the edge with its key and data |
| EdgeSearch.WitnessEdge | graph.py:104-117 | every visited node is the source or an endpoint of a visited edge |
| EdgeSearch.ReachEdge | graph.py:112-117 | nodes reached through a visited edge lie in the source's component |
| EdgeSearch.EnqueuedDistinct | graph.py:112-117 | no node is enqueued twice |
| EdgeSearch.EnqueueFresh | graph.py:112-117 | enqueuing only unvisited nodes keeps one queue entry per visited node |
| EdgeSearch.ProcessedStep | graph.py:96-99 | a dequeued node whose edges are all visited joins the processed nodes |
| EdgeSearch.ExhaustedComponent | graph.py:96-122 | when the queue runs out under budget, the visited edges are exactly the component's edges |
| EdgeSearch.VisitedInComponent | graph.py:96-122 | the subgraph's edges lie in the component and are copies; its nodes are the source and the endpoints of its edges |
| EdgeSearch.Start | graph.py:84-89 | the start state, with only the source queued and copied, satisfies the search invariant |
| EdgeSearch.EndpointsPresent | graph.py:106-108 | the endpoints of every edge are nodes |
| EdgeBudget.Enqueue | graph.py:112-117 | an unvisited node is marked and appended to the queue, a visited one is not |
| EdgeBudget.CopyEdgeInto | graph.py:106-108 | both endpoints with their attributes, then the edge with its key and data |
| EdgeBudget.VisitEdge | graph.py:100-117 | visiting a new edge marks it, copies it, counts it and enqueues its new endpoints, keeping the search invariant |
| EdgeBudget.EdgeIter | graph.py:91-94 | `edge_iter(u)` lists the out-edges then the in-edges, exactly the edges touching `u` |
| EdgeBudget.VisitIncident | graph.py:99-120 | the edge loop of one node skips visited edges, stops at the budget, and otherwise visits every edge touching the node |
| EdgeBudget.ExtractSubgraphByEdgeCount | graph.py:69-122 | `ValueError` for an absent source; budget <= 0 gives the source alone; otherwise the result's edges are exactly the first min(budget, ...) edges of the walk's order (`BfsOrder`), copied with key and data, min(budget, component edges) of them; its nodes are the source and their endpoints with their attributes, each reachable from the source inside the result; no node enqueued twice |
| EdgeBudget.Search | graph.py:84-121 | the queue loop from the source leaves a connected copy whose edges are the walk's first `budget` edges, with every touching edge visited when it stopped under budget |
| EdgeBudget.SearchTurn | graph.py:96-120 | one dequeue and edge loop keep the loop invariant, the walk from the new state ending where the walk from the source ends |
| EdgeBudget.ParallelPathExample | graph.py:91-120 | on the path 0->1->2->3 with the first hop doubled, two edges from node 0 give nodes {0, 1} and both parallel edges |
| EdgeSearch.ConnectedStep | graph.py:104-108 | adding an edge with an endpoint already in a connected subgraph keeps every node reachable from the source |
| EdgeSearch.Take | graph.py:104-117 | visiting an edge marks it and both endpoints and records it; the queue changes only when an endpoint is new |
| EdgeSearch.Scan | graph.py:99-120 | one node's edge loop skips visited edges, keeps what it had, and stops at the budget |
| EdgeSearch.Turn | graph.py:96-120 | one dequeue and edge loop either sees a new node or shortens the queue, so the walk ends |
| EdgeSearch.Bfs | graph.py:96-122 | the walk stops with an empty queue or a spent budget, having only added edges |
| EdgeSearch.ScanPrefix | graph.py:99-120 | a node's edge loop under a smaller budget takes a prefix of what it takes under a larger one |
| EdgeSearch.BfsPrefix | graph.py:96-122 | the walk under a smaller budget takes a prefix of the edges it takes under a larger one, all of them when it stops short |
| EdgeSearch.BudgetPrefix | graph.py:96-122 | the edges taken under budget b are the first min(b, ...) edges of the unbounded walk's order |
| EdgeSearch.TakenInOrder | graph.py:96-122 | every budget's edges are a prefix of the walk's order, of length min(budget, order length) |
| EdgeSearch.SearchResult | graph.py:96-122 | the loop's final state gives a connected copy of part of the component whose edges are the walk's first `budget` edges and whose size is min(budget, component edges) |
| EdgeSearch.ParallelPathOrder | graph.py:91-120 | on the path with a doubled first hop, the walk from node 0 takes the two parallel edges first |
| MultiArcsExpansion.DefaultStrategy | reify/multi_arcs_expansion.py:9-11 | the defaults "__source__", "__target__", "__edge_" |
| MultiArcsExpansion.MaxNode | reify/multi_arcs_expansion.py:48 | `max(graph.nodes(), default=-1)` |
| MultiArcsExpansion.FormatValue | reify/multi_arcs_expansion.py:62-63 | a string formats as itself, a list as a bracketed repr |
| MultiArcsExpansion.LabelText | reify/multi_arcs_expansion.py:61 | `edge_data.get("label", "")` as text |
| MultiArcsExpansion.ArcEdges | reify/multi_arcs_expansion.py:65-66 | the arcs added for `m` arcs: `u -> n` and `n -> v` for each fresh `n`, key 0 |
| MultiArcsExpansion.ExpandArcSteps | reify/multi_arcs_expansion.py:62-66 | `add_node`, then two `add_edge` calls for a fresh node, build one arc's expansion |
| MultiArcsExpansion.ExpandArcValid | reify/multi_arcs_expansion.py:62-66 | one arc's expansion keeps the graph well formed and the fresh ids above it |
| MultiArcsExpansion.AddFirstArc | reify/multi_arcs_expansion.py:65-66 | the first arc between two nodes goes under key 0 |
| MultiArcsExpansion.AddFreshNode | reify/multi_arcs_expansion.py:62-64 | a fresh node is appended with exactly its label |
| MultiArcsExpansion.PairDataAt | reify/multi_arcs_expansion.py:56-58 | the pair's data in key order is `get_edge_data(u, v, key)` for each key |
| MultiArcsExpansion.ExpandArcs | reify/multi_arcs_expansion.py:57-60 | the inner loop uses one fresh id per arc |
| MultiArcsExpansion.ExpandArcsValid | reify/multi_arcs_expansion.py:57-66 | the inner loop keeps the graph well formed; its nodes are the old ones and the fresh ids |
| MultiArcsExpansion.ExpandArcsNodes | reify/multi_arcs_expansion.py:59-64 | the inner loop appends the fresh nodes in order |
| MultiArcsExpansion.ExpandArcsEdges | reify/multi_arcs_expansion.py:65-66 | the inner loop appends two arcs per fresh node in order |
| MultiArcsExpansion.ExpandArcsKeeps | reify/multi_arcs_expansion.py:57-66 | the inner loop keeps every node and arc with its data |
| MultiArcsExpansion.ExpandArcsFresh | reify/multi_arcs_expansion.py:59-66 | the j-th fresh node has the prefix plus the j-th arc's label, an arc in with the source label and an arc out with the target label |
| MultiArcsExpansion.RepeatArcSteps | reify/multi_arcs_expansion.py:54 | `add_edge(u, v, **data)` adds a parallel arc and keeps everything else |
| MultiArcsExpansion.ExpandPairFails | reify/multi_arcs_expansion.py:52-53 | a pair fails, with `KeyError`, exactly when it has one arc and that arc is not under key 0 |
| MultiArcsExpansion.ExpandPairsFails | reify/multi_arcs_expansion.py:50-54 | the pair loop fails, with `KeyError`, exactly when one of its pairs does |
| MultiArcsExpansion.ExpandPairValid | reify/multi_arcs_expansion.py:51-66 | a pair step keeps the graph well formed and moves the next id past its fresh nodes |
| MultiArcsExpansion.ExpandPairsValid | reify/multi_arcs_expansion.py:50-66 | the pair loop keeps the graph well formed and the fresh ids above it |
| MultiArcsExpansion.ExpandPairNodes | reify/multi_arcs_expansion.py:55-64 | a pair step appends its fresh nodes in order |
| MultiArcsExpansion.ExpandPairEdges | reify/multi_arcs_expansion.py:51-66 | a pair step appends one arc for a single-arc pair, two per arc otherwise |
| MultiArcsExpansion.ExpandPairKeeps | reify/multi_arcs_expansion.py:51-66 | a pair step keeps every node and arc with its data |
| MultiArcsExpansion.ExpandPairsNodes | reify/multi_arcs_expansion.py:50-64 | the pair loop appends every pair's fresh nodes, counting up |
| MultiArcsExpansion.ExpandPairsEdges | reify/multi_arcs_expansion.py:50-66 | the pair loop appends every pair's arcs after the old ones |
| MultiArcsExpansion.ExpandPairsKeeps | reify/multi_arcs_expansion.py:50-66 | the pair loop keeps every node and arc with its data |
| MultiArcsExpansion.ExpandPairDone | reify/multi_arcs_expansion.py:51-66 | a pair step repeats a single arc with its key-0 data under a new key, or gives each arc its labelled fresh node |
| MultiArcsExpansion.ExpandPairsDone | reify/multi_arcs_expansion.py:50-66 | after the pair loop every pair is done, with fresh ids following those of earlier pairs |
| MultiArcsExpansion.PairOrderIn | reify/multi_arcs_expansion.py:50 | every pair of `set(graph.edges())` joins two nodes |
| MultiArcsExpansion.CopyOfIsCopy | reify/multi_arcs_expansion.py:46 | `graph.copy()` is a copy |
| MultiArcsExpansion.CopyStart | reify/multi_arcs_expansion.py:46-48 | the copy holds every node and arc, all below `max + 1` |
| MultiArcsExpansion.ReifyShape | reify/multi_arcs_expansion.py:44-67 | the result is well formed: the original nodes then fresh ids `max+1, ...`, one per arc of each multi-arc pair; every original node and arc kept with its data; one more arc per single-arc pair and two per arc of each multi-arc pair |
| MultiArcsExpansion.ReifyArcs | reify/multi_arcs_expansion.py:50-66 | each single arc is repeated with its data; the j-th arc of a multi-arc pair gets fresh node `start + j` with the prefixed label, a source-labelled arc in and a target-labelled arc out |
| MultiArcsExpansion.ReifyFreshIds | reify/multi_arcs_expansion.py:59-60 | the fresh ids never collide with original nodes |
| MultiArcsExpansion.AddArcNode | reify/multi_arcs_expansion.py:59-66 | one inner turn on the copy in place is one arc's expansion |
| MultiArcsExpansion.ExpandArcsInto | reify/multi_arcs_expansion.py:56-66 | the inner loop in place equals the inner-loop specification |
| MultiArcsExpansion.ExpandPairInto | reify/multi_arcs_expansion.py:51-66 | one pair turn in place equals the pair specification, `KeyError` included |
| MultiArcsExpansion.Reify | reify/multi_arcs_expansion.py:44-67 | `reify` returns a fresh graph with the input's id equal to the specification's result, or `KeyError`, and leaves the input untouched |
| DataReader.LineClassesExclusive | reader/data.py:9-16 | a line is at most one of header, node and edge line |
| DataReader.ExtractGraphId | reader/data.py:18-23 | the third token when the line has at least three tokens starting "t", "#"; else the `ValueError` |
| DataReader.ExtractNode | reader/data.py:25-35 | the id (second token as an integer) and every later token as labels, when there are at least two tokens starting "v"; else `ValueError` or `int()`'s error |
| DataReader.ExtractEdge | reader/data.py:37-48 | `IndexError` for no token; source, destination and later tokens when there are at least three tokens starting "e"; else `ValueError` or `int()`'s error, source first |
| DataReader.ClassifiedLinesLead | reader/data.py:12-16 | node and edge lines split into their letter first, so `parts[0]` never fails on an edge line |
| DataReader.AddLabelledEdges | reader/data.py:69-70 | one new parallel edge per label after the old edges, the k-th joining `u` to `v` and carrying the k-th label; old edges and nodes keep their data |
| DataReader.EdgeLineGraph | reader/data.py:66-70 | the unlabelled edge when kept, then one edge per label, old edges kept |
| DataReader.ReadLine | reader/data.py:62-70 | one line keeps the graph well formed; any line other than a node or edge line changes nothing |
| DataReader.ReadLineFailsAlike | reader/data.py:62-70 | whether a line fails does not depend on the graph it goes to |
| DataReader.ReadNodeLine | reader/data.py:62-64 | a node line sets the node's `labels` to its label list and adds no edge |
| DataReader.ReadEdgeLine | reader/data.py:65-70 | an edge line with n labels adds n labelled parallel edges; with none, one edge without data in `read_db` and nothing in `read` |
| DataReader.ReadFrom | reader/data.py:79-86 | reading lines keeps the graph well formed |
| DataReader.ApplyLine | reader/data.py:80-86 | one line applied to the graph in place is `ReadLine`, error included |
| DataReader.AddEdgesOfLine | reader/data.py:67-70 | the edges of one edge line added in place |
| DataReader.Read | reader/data.py:74-88 | `read` is the line loop from an empty graph |
| DataReader.ReadDbLine | reader/data.py:57-70 | a header starts a new empty graph with its id; other lines go to the current graph |
| DataReader.ReadDbFrom | reader/data.py:56-70 | reading lines keeps every graph well formed |
| DataReader.ReadDbSpec | reader/data.py:50-72 | `read_db` starts from an empty scratch graph and no entries |
| DataReader.Ids | reader/data.py:59-61 | the ids of the entries in order |
| DataReader.ReadDbLineIds | reader/data.py:57-61 | a header adds its id after the others; other lines keep the ids |
| DataReader.ReadDbFromIds | reader/data.py:56-61 | reading adds one graph per header line, with its id, in file order |
| DataReader.ReadDbGraphPerHeader | reader/data.py:56-61 | `read_db` makes exactly one graph per header, in file order |
| DataReader.ReadDbLineReads | reader/data.py:56-70 | one line is read in any state exactly when it is an extractable header, a parsable node or edge line, or another line |
| DataReader.ReadDbFromReads | reader/data.py:56-70 | `read_db` succeeds on a file exactly when every line is one it accepts |
| DataReader.ReadDbFromAppend | reader/data.py:56 | reading `a + b` is reading `a`, then `b` from where `a` left off |
| DataReader.ScratchIrrelevant | reader/data.py:55 | the graph before the first header never reaches the database |
| DataReader.DiscardedBeforeHeader | reader/data.py:55-61 | node and edge lines before the first header leave no graph behind |
| DataReader.ReadHeader | reader/data.py:57-61 | a header makes a fresh `DBGraph` with its id and appends it to the database |
| DataReader.ReadIntoCurrent | reader/data.py:62-70 | a non-header line goes to the current graph in place |
| DataReader.ReadDb | reader/data.py:50-72 | `read_db` returns a new database whose distinct graphs hold the ids and graphs of the specification, or its error |
| DataSaver.DataLinesNodes | saver/data.py:20-25 | one line per node and per edge, the node lines first, in node order, each from the node's data |
| DataSaver.DataLinesEdges | saver/data.py:26-31 | every line after the node lines is the line of some edge with its data |
| DataSaver.DataLinesEveryEdge | saver/data.py:26-31 | every edge, parallel ones included, has its line |
| DataSaver.DataLinesForm | saver/data.py:19-32 | every line starts with "v " or "e " and ends with a newline |
| DataSaver.LineForm | saver/data.py:25 | a written line starts with its letter and ends with a newline |
| DataSaver.UnlabelledLines | saver/data.py:21-25 | a missing label attribute leaves the separating space at the end ("v 3 \n") |
| DataSaver.StringLabelIsList | saver/data.py:22-23 | a string `labels` is written as a one-element list |
| DataSaver.FormatExtension | saver/data.py:59-60 | "data" |
| DataSaver.SaveDb | saver/data.py:42-57 | the file holds its old text (append mode) or nothing (write mode), then for each graph in order "t # id" and its data string |
| DataSaver.DbTextLines | saver/data.py:53-57 | the database text is the headers and data lines, graph after graph |
| DataRoundTrip.WithCommas | saver/data.py:24 | the tokens of labels joined by ", ": each but the last keeps the comma |
| DataRoundTrip.JoinCommas | saver/data.py:24 | ", ".join is " ".join of the comma-suffixed labels |
| DataRoundTrip.SplitLabelledLine | reader/data.py:26 | splitting a written line gives its head tokens, then the comma-suffixed labels |
| DataRoundTrip.NodeLineSplit | saver/data.py:25 | a node line splits into "v", the id and the comma-suffixed labels |
| DataRoundTrip.EdgeLineSplit | saver/data.py:31 | an edge line splits into "e", the endpoints and the comma-suffixed labels |
| DataRoundTrip.NodeLineReadsBack | reader/data.py:25-35 | a written node line is a node line and reads back as its id with the comma-suffixed labels |
| DataRoundTrip.EdgeLineReadsBack | reader/data.py:37-48 | a written edge line is an edge line and reads back as its endpoints with the comma-suffixed labels |
| DataRoundTrip.ExtractNodeTokens | reader/data.py:25-35 | a line splitting into "v", an integer's decimal text and further tokens reads back as that integer and those tokens |
| DataRoundTrip.ExtractEdgeTokens | reader/data.py:37-48 | a line splitting into "e", two integers' decimal texts and further tokens reads back as those integers and those tokens |
| DataRoundTrip.NodeLineRoundTrip | reader/data.py:25-35 | a node line with at most one whitespace-free label reads back exactly |
| DataRoundTrip.EdgeLineRoundTrip | reader/data.py:37-48 | an edge line with at most one whitespace-free label reads back exactly |
| DataRoundTrip.TwoLabelsKeepComma | reader/data.py:30 | two labels read back as two tokens, the first with the comma |
| DataRoundTrip.HeaderLineRoundTrip | reader/data.py:18-23 | a header written with a whitespace-free id reads back as that id's text |
| DataRoundTrip.IntHeaderRoundTrip | reader/data.py:18-23 | an integer id's header reads back as its decimal text |
| DataRoundTrip.PrintedIds | saver/data.py:55 | the ids the headers print, in order |
| DataRoundTrip.DataLinesNoHeader | reader/data.py:9-10 | no data line is a header line |
| DataRoundTrip.SavedHeaderIds | saver/data.py:53-57 | the headers of a saved database carry the printed ids in order |
| DataRoundTrip.NodeLineReads | reader/data.py:62-64 | every node line the saver writes parses, whatever its labels |
| DataRoundTrip.EdgeLineReads | reader/data.py:65-70 | every edge line the saver writes parses, whatever its labels |
| DataRoundTrip.DataLinesRead | reader/data.py:56-70 | every line of a graph's data string is accepted |
| DataRoundTrip.SavedLinesRead | reader/data.py:56-70 | with single-token ids, every line of a saved database is accepted |
| DataRoundTrip.ReadSavedDbSucceeds | reader/data.py:56-70 | reading back a saved database with single-token ids never fails |
| DataRoundTrip.ReadSavedDbIds | reader/data.py:56-61 | reading a saved database with single-token ids succeeds and gives one graph per saved graph with its printed id, in order |
| CsvReader.CheckTable | reader/csv.py:55-60 | valid exactly with one column and at least one row; else the column or row `ValueError` |
| CsvReader.TableLabel | reader/csv.py:37 | the file name without ".csv" |
| CsvReader.LoadCsv | reader/csv.py:35-44 | an invalid table is its error; else a node table when the header has "id:ID", an edge table when it has ":START_ID" and not that, nothing otherwise, with the table label |
| CsvReader.CsvFiles | reader/csv.py:46 | exactly the listed files whose names end ".csv", in order |
| CsvReader.CollectFromSucceeds | reader/csv.py:47-52 | collecting succeeds exactly when every table is valid |
| CsvReader.CollectFromTables | reader/csv.py:47-52 | the node and edge tables are appended in file order |
| CsvReader.ReadCsvGraph | reader/csv.py:32-53 | the loop gives the collected tables of the ".csv" files |
| CsvReader.ExtractNodeEntity | reader/csv.py:70-74 | the text after the first "(" up to the next ")" when both occur, else "Unknown" |
| CsvReader.PartEntity | reader/csv.py:80-81 | the parenthesised entity of a part, `IndexError` without "(" |
| CsvReader.ExtractEdgeEntities | reader/csv.py:76-83 | ("Unknown", "Unknown") without "\|"; else the entities of the first two parts, failing when either lacks "(" |
| CsvReader.EdgeEntitiesRoundTrip | reader/csv.py:76-83 | a header ":START_ID(A)\|:END_ID(B)" gives A and B |
| CsvReader.ParenthesisedOf | reader/csv.py:73 | the entity of "name(e)" is e |
| CsvReader.ExtractSrcDstSpec | reader/csv.py:85-90 | a row reads as a pair exactly with a single "\|" and an integer either side; otherwise the format `ValueError` or the first failing `int()` |
| CsvReader.SrcDstRoundTrip | reader/csv.py:85-90 | "src\|dst" written from two integers reads back as them |
| CsvReader.ParseIdsAll | reader/csv.py:97 | the node cells parse exactly when each is an integer, in order |
| CsvReader.ParseRowsAll | reader/csv.py:101-103 | the edge cells parse exactly when each is a well-formed row, in order |
| CsvReader.LabelAttrs | reader/csv.py:98 | the attributes are exactly `label` |
| CsvReader.AddLabelledNodes | reader/csv.py:97-98 | adding nodes leaves the edges alone |
| CsvReader.AddLabelledNodesNodes | reader/csv.py:97-98 | every id becomes a node labelled with the table's label; no other node is added; others keep their data |
| CsvReader.AddLabelledNodesKeep | reader/csv.py:97-98 | every node stays, and a node with attributes keeps some |
| CsvReader.AddNodeCells | reader/csv.py:96-98 | one node table succeeds exactly when its cells parse, and adds those ids |
| CsvReader.AddRowEdges | reader/csv.py:101-105 | one new edge per row after the old ones, joining the row's pair, in row order |
| CsvReader.AddRowEdgesEdgeAttrs | reader/csv.py:105 | the new edges carry exactly the table label; old edges keep their data |
| CsvReader.AddRowEdgesNodeAttrs | reader/csv.py:105 | endpoints the rows add have no attributes; old nodes keep theirs |
| CsvReader.AddEdgeCells | reader/csv.py:101-105 | one edge table succeeds exactly when its rows parse, and adds their edges |
| CsvReader.AddNodeTables | reader/csv.py:95-98 | the node tables leave the edges alone |
| CsvReader.AddNodeTablesSucceeds | reader/csv.py:95-98 | the node tables are added exactly when every cell is an integer |
| CsvReader.AddNodeTablesGrow | reader/csv.py:95-98 | later tables keep every node and its label |
| CsvReader.AddNodeTablesLabelled | reader/csv.py:95-98 | every listed id is a node labelled by a node table; other nodes stay unlabelled or labelled |
| CsvReader.AddEdgeTables | reader/csv.py:100-105 | one new edge per row of every edge table, after the old edges |
| CsvReader.AddEdgeTablesSucceeds | reader/csv.py:100-105 | the edge tables are added exactly when every table's rows parse |
| CsvReader.RowTablesParse | reader/csv.py:101-103 | every table's rows parse exactly when every row is a "src\|dst" pair |
| CsvReader.AddRowEdgesGrow | reader/csv.py:101-105 | the rows of one edge table keep every old edge's and node's data, give each new edge exactly the table's label and each new endpoint no attributes |
| CsvReader.AddEdgeTablesLabelled | reader/csv.py:100-105 | every new edge carries exactly an edge table's label; old edges and nodes keep their data; new endpoints have none |
| CsvReader.AddEdgeTablesEnds | reader/csv.py:100-105 | the new edges join the rows' pairs, in row order, table after table |
| CsvReader.CsvToNxSpec | reader/csv.py:92-105 | the built graph is well formed with one edge per edge row |
| CsvReader.CsvToNxResult | reader/csv.py:107 | `DirectedGraph(G)` has the same nodes, data and edges as `G` |
| CsvReader.CsvToNxLabels | reader/csv.py:92-107 | one edge per row, each labelled by an edge table; every listed id a node labelled by a node table; other nodes are unattributed endpoints |
| CsvReader.CsvToNxEnds | reader/csv.py:100-105 | the edges of `G` join the rows' pairs in row order |
| CsvReader.AddRowEdgesInOrder | reader/csv.py:101-105 | one table's rows append one edge each, labelled by that table, after the old edges, whose labels stay |
| CsvReader.AddEdgeTablesInOrder | reader/csv.py:100-105 | the edge tables append their rows' edges in row order, each labelled by its own table |
| CsvReader.CsvToNxLabelOrder | reader/csv.py:100-105 | the k-th edge of `G` carries exactly the label of the table of the k-th edge row |
| CsvReader.CsvToNxSucceeds | reader/csv.py:92-107 | building succeeds exactly when every node cell is an integer and every edge cell a "src\|dst" row |
| CsvReader.CsvToNx | reader/csv.py:92-107 | the nested loops in place, then the copy, give the specified result or the first cell's error |
| CsvReader.AddNodeTableInto | reader/csv.py:97-98 | the loop over one node table leaves the graph the table's specification gives, or stops with the first bad id's error |
| CsvReader.AddEdgeTableInto | reader/csv.py:101-105 | the loop over one edge table leaves the graph the table's specification gives, or stops with the first bad row's error |
| CsvReader.Read | reader/csv.py:109-111 | `read` is collecting the tables, then building the graph |
| PyStr.SplitWs | reader/data.py:19 | `split()` gives whitespace-free, non-empty tokens |
| PyStr.SplitWsStrip | reader/data.py:19 | `strip()` before `split()` changes nothing |
| PyStr.Strip | reader/data.py:19 | `strip()` leaves no whitespace at either end |
| PyStr.Split | reader/csv.py:87 | `split(c)`: at least one part, none containing `c`, joined back by `c` to the input |
| PyStr.SplitTwo | reader/csv.py:87-89 | exactly two parts when the string holds exactly one `c`: the text before and after it |
| PyStr.SplitFirst | reader/csv.py:73 | the first part is the text before the first separator |
| PyStr.Join | saver/data.py:24 | joining no part gives "", one part gives itself |
| PyStr.IntToString | saver/data.py:25 | `str(n)` is a token |
| PyStr.ParseIntToken | reader/data.py:28 | `int()` accepts an optional sign followed by decimal digits |
| PyStr.IntToStringRoundTrip | reader/data.py:40-41 | `int(str(n)) == n` |

## Left out

- File I/O (`open`, `readlines`, `write`, `os.listdir`, `pd.read_csv`) is left out. The model takes the lines of a file, the listing with each file's table as a header plus the first column's cells, and the text already in a file opened for appending.
- `save(graph, path)` writes `ToDataString(graph)` to a file; only the text is modelled.
- The thread pool in `_read_csv_graph` is not modelled. `executor.map` yields results in input order and raises at the first failing file, which is what `CollectFrom` does.
- The landmark sample of `random.sample` is a parameter: distinct graph nodes, as many as asked for up to N.
- The iteration order of `set(graph.edges())` in `reify` is a parameter: each pair exactly once, in any order.
- networkx is not modelled beyond the state the core reads: `to_undirected` and `single_source_shortest_path_length` are specified by hop distances, and the adjacency dictionaries by the listing orders they produce.
- `DistantNodes.ExtractKDistantNodes`: the `int32` sketch and `float64` minima are unbounded integers; this matters only past 2^31 nodes.
- `DbGraph.DBGraph.Copy`: attribute maps are values here, so the shallow copy of each attribute dictionary and any aliasing of nested lists are not modelled.
- `Multigraph.Graph.AddNode`: attribute values are only strings and lists of strings, the two kinds the core stores. Other Python values are not modelled.
- `MultiArcsExpansion.RepeatArcSteps`: an attribute named "key" in `**data` would be taken by networkx as the edge key. The core never stores one, and the model does not treat it.
- `MultiArcsExpansion.FormatValue`: Python's `repr` escaping of quotes inside list items is not modelled.
- `PyStr.ParseIntToken`: `int()` also accepts underscores between digits and non-ASCII digits. The model accepts an optional sign and ASCII digits only, and the error carries a generic message.
- `CsvReader.CsvToNx`: node ids are integers. pandas would keep a non-integer id column as strings or floats and add those as nodes; the model reports the `int()` error instead.
- `CsvReader.CsvToNxLabels`: does not state that a node listed in several node tables ends with the label of the last one. It states only that the label comes from one of the node tables.
- `DataReader.ReadDb`: states that the database's graphs are distinct objects holding the read ids and graphs. It does not state that each graph is newly allocated.
- `DataReader.Read`: builds the graph in a `DBGraph` without id, whose graph state is that of the `DirectedGraph` the source uses.
- `DbGraph.DBGraph.constructor`: the `graph` argument and `**attr` of `DBGraph(...)` are not modelled; the core only calls it with `graph_id`.
- `db.py` `print_stats` is left out: it prints and uses floating-point means and standard deviations.
- The command line (main.py, args.py), the random generators and alterations, and the dispatch-only strategy classes are outside the core.
