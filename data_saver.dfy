/**
 * `DataSaverStrategy` (saver/data.py): the ".data" text form of a graph, one line per node
 * then one line per edge, and of a database, each graph preceded by a "t # id" header.
 * The file itself is not modelled: `SaveDb` returns the text the file holds afterwards.
 */
module DataSaver {
  import opened Wrappers
  import opened PyStr
  import opened Multigraph
  import opened DbGraph
  import opened Database

  /** `attrs.get(key, [])`, a single string being taken as a one-element list. */
  function LabelList(attrs: Attrs, key: string): seq<string> {
    if key !in attrs then []
    else match attrs[key]
      case Str(s) => [s]
      case StrList(items) => items
  }

  /** `f"v {node_id} {labels_str}\n"` for the node's `labels` attribute. */
  function NodeLine(n: NodeId, attrs: Attrs): string {
    "v " + IntToString(n) + " " + Join(", ", LabelList(attrs, "labels")) + "\n"
  }

  /** `f"e {src} {dst} {labels_str}\n"` for the edge's `label` attribute. */
  function EdgeLine(e: EdgeId, attrs: Attrs): string {
    "e " + IntToString(e.src) + " " + IntToString(e.dst) + " " + Join(", ", LabelList(attrs, "label")) + "\n"
  }

  /** The attributes of `n`, empty for a node the graph lacks. */
  function NodeData(g: Graph, n: NodeId): Attrs {
    if n in g.nodeAttrs then g.nodeAttrs[n] else map[]
  }

  /** The attributes of `e`, empty for an edge the graph lacks. */
  function EdgeData(g: Graph, e: EdgeId): Attrs {
    if e in g.edgeAttrs then g.edgeAttrs[e] else map[]
  }

  /** One line per node of `ns`, in order. */
  function NodeLines(g: Graph, ns: seq<NodeId>): (r: seq<string>)
    ensures |r| == |ns|
  {
    if ns == [] then [] else [NodeLine(ns[0], NodeData(g, ns[0]))] + NodeLines(g, ns[1..])
  }

  /** One line per edge of `es`, in order. */
  function EdgeLines(g: Graph, es: seq<EdgeId>): (r: seq<string>)
    ensures |r| == |es|
  {
    if es == [] then [] else [EdgeLine(es[0], EdgeData(g, es[0]))] + EdgeLines(g, es[1..])
  }

  lemma {:induction false} NodeLinesAt(g: Graph, ns: seq<NodeId>, i: nat)
    requires i < |ns|
    ensures NodeLines(g, ns)[i] == NodeLine(ns[i], NodeData(g, ns[i]))
    decreases i
  {
    if i > 0 {
      NodeLinesAt(g, ns[1..], i - 1);
    }
  }

  lemma {:induction false} EdgeLinesAt(g: Graph, es: seq<EdgeId>, i: nat)
    requires i < |es|
    ensures EdgeLines(g, es)[i] == EdgeLine(es[i], EdgeData(g, es[i]))
    decreases i
  {
    if i > 0 {
      EdgeLinesAt(g, es[1..], i - 1);
    }
  }

  /** The lines `_to_data_string` writes: the nodes in `G.nodes()` order, then the edges in `G.edges()` order. */
  function DataLines(g: Graph): seq<string> {
    NodeLines(g, g.nodes) + EdgeLines(g, g.EdgesView())
  }

  function Concat(lines: seq<string>): string {
    if lines == [] then "" else lines[0] + Concat(lines[1..])
  }

  /** `_to_data_string(graph)`: the lines, each ending in a newline, joined. */
  function ToDataString(g: Graph): string {
    Concat(DataLines(g))
  }

  /** `f"t # {graph.get_graph_id()}\n"`. */
  function HeaderLine(id: GraphId): string {
    "t # " + FormatGraphId(id) + "\n"
  }

  /** The text `save_db` writes for `gs`: each graph's header, then its data string. */
  function DbText(gs: seq<DBGraph>): string
    reads set i | 0 <= i < |gs| :: gs[i]
  {
    if gs == [] then ""
    else DbText(gs[..|gs| - 1]) + (HeaderLine(gs[|gs| - 1].graphId) + ToDataString(gs[|gs| - 1].graph))
  }

  /** `format_extension()`. */
  function FormatExtension(): (r: string)
    ensures r == "data"
  {
    "data"
  }

  /**
   * `save_db(db, path, append)`, with the file's text before the call as `existing`: in
   * append mode the database's text is added after it, otherwise it replaces it.
   */
  method SaveDb(db: DBGraphs, append: bool, existing: string) returns (content: string)
    ensures content == (if append then existing else "") + DbText(db.graphs)
  {
    content := if append then existing else "";
    ghost var start := content;
    var gs := db.GetGraphs();
    for i := 0 to |gs|
      invariant content == start + DbText(gs[..i])
    {
      DbTextStep(gs, i);
      var block := HeaderLine(gs[i].graphId) + ToDataString(gs[i].graph);
      SeqAssoc(start, DbText(gs[..i]), block);
      content := content + block;
    }
    assert gs[..|gs|] == gs;
  }

  lemma DbTextStep(gs: seq<DBGraph>, i: nat)
    requires i < |gs|
    ensures DbText(gs[..i + 1]) == DbText(gs[..i]) + (HeaderLine(gs[i].graphId) + ToDataString(gs[i].graph))
  {
    var s := gs[..i + 1];
    assert s[..|s| - 1] == gs[..i] && s[|s| - 1] == gs[i];
  }

  /** The data string of a well-formed graph has one line per node and per edge, the node lines first, in node order. */
  lemma DataLinesNodes(g: Graph)
    requires g.Valid()
    ensures |DataLines(g)| == g.NumberOfNodes() + g.NumberOfEdges()
    ensures forall i :: 0 <= i < |g.nodes| ==> DataLines(g)[i] == NodeLine(g.nodes[i], g.nodeAttrs[g.nodes[i]])
  {
    EdgesViewIsPermutation(g);
    forall i | 0 <= i < |g.nodes| ensures DataLines(g)[i] == NodeLine(g.nodes[i], g.nodeAttrs[g.nodes[i]]) {
      NodeLinesAt(g, g.nodes, i);
    }
  }

  /** After the node lines, each line is the line of an edge of the graph, with its data. */
  lemma DataLinesEdges(g: Graph)
    requires g.Valid()
    ensures forall j :: |g.nodes| <= j < |DataLines(g)| ==>
              exists e :: e in g.edgeAttrs && DataLines(g)[j] == EdgeLine(e, EdgeData(g, e))
  {
    EdgesViewIsPermutation(g);
    EdgeLinesFrom(g, g.nodes, g.EdgesView(), g.edgeAttrs.Keys, DataLines(g));
  }

  /** Every edge of the graph, parallel ones included, has its line after the node lines. */
  lemma DataLinesEveryEdge(g: Graph)
    requires g.Valid()
    ensures forall e :: e in g.edgeAttrs ==>
              exists j :: |g.nodes| <= j < |DataLines(g)| && DataLines(g)[j] == EdgeLine(e, EdgeData(g, e))
  {
    EdgesViewIsPermutation(g);
    EdgeLinesOf(g, g.nodes, g.EdgesView(), g.edgeAttrs.Keys, DataLines(g));
  }

  /** The lines after those of `ns` are lines of edges of `es`, so of any set holding them. */
  lemma EdgeLinesFrom(g: Graph, ns: seq<NodeId>, es: seq<EdgeId>, s: set<EdgeId>, lines: seq<string>)
    requires forall e :: e in es ==> e in s
    requires lines == NodeLines(g, ns) + EdgeLines(g, es)
    ensures forall j :: |ns| <= j < |lines| ==> exists e :: e in s && lines[j] == EdgeLine(e, EdgeData(g, e))
  {
    forall j | |ns| <= j < |lines| ensures exists e :: e in s && lines[j] == EdgeLine(e, EdgeData(g, e)) {
      EdgeLineFrom(g, ns, es, s, lines, j);
    }
  }

  /** Line `j`, past the node lines, is the line of an edge of `s`. */
  lemma EdgeLineFrom(g: Graph, ns: seq<NodeId>, es: seq<EdgeId>, s: set<EdgeId>, lines: seq<string>, j: int)
    requires forall e :: e in es ==> e in s
    requires lines == NodeLines(g, ns) + EdgeLines(g, es) && |ns| <= j < |lines|
    ensures exists e :: e in s && lines[j] == EdgeLine(e, EdgeData(g, e))
  {
    var k := j - |ns|;
    EdgeLineOfLines(g, ns, es, lines, j, k, es[k]);
    assert es[k] in es;
  }

  /** Line `j == |ns| + k` is the line of `e`, edge `k` of `es`. */
  lemma EdgeLineOfLines(g: Graph, ns: seq<NodeId>, es: seq<EdgeId>, lines: seq<string>, j: int, k: nat, e: EdgeId)
    requires lines == NodeLines(g, ns) + EdgeLines(g, es) && k < |es| && es[k] == e && j == |ns| + k
    ensures j < |lines| && lines[j] == EdgeLine(e, EdgeData(g, e))
  {
    EdgeLinesAt(g, es, k);
    AppendAt(NodeLines(g, ns), EdgeLines(g, es), lines, j, k);
  }

  /** Every edge of a set that `es` covers has its line after those of `ns`. */
  lemma EdgeLinesOf(g: Graph, ns: seq<NodeId>, es: seq<EdgeId>, s: set<EdgeId>, lines: seq<string>)
    requires forall e :: e in s ==> e in es
    requires lines == NodeLines(g, ns) + EdgeLines(g, es)
    ensures forall e :: e in s ==> exists j :: |ns| <= j < |lines| && lines[j] == EdgeLine(e, EdgeData(g, e))
  {
    forall e | e in s ensures exists j :: |ns| <= j < |lines| && lines[j] == EdgeLine(e, EdgeData(g, e)) {
      var k :| 0 <= k < |es| && es[k] == e;
      EdgeLineOfLines(g, ns, es, lines, |ns| + k, k, e);
    }
  }

  /** Every line of a data string ends in a newline and starts with "v " or "e ". */
  lemma DataLinesForm(g: Graph)
    ensures forall i :: 0 <= i < |DataLines(g)| ==>
              EndsWith(DataLines(g)[i], "\n") && (StartsWith(DataLines(g)[i], "v ") || StartsWith(DataLines(g)[i], "e "))
  {
    forall i | 0 <= i < |DataLines(g)|
      ensures EndsWith(DataLines(g)[i], "\n") && (StartsWith(DataLines(g)[i], "v ") || StartsWith(DataLines(g)[i], "e "))
    {
      DataLineForm(g, i);
    }
  }

  lemma DataLineForm(g: Graph, i: int)
    requires 0 <= i < |DataLines(g)|
    ensures EndsWith(DataLines(g)[i], "\n") && (StartsWith(DataLines(g)[i], "v ") || StartsWith(DataLines(g)[i], "e "))
  {
    var ns, es := g.nodes, g.EdgesView();
    var lines := DataLines(g);
    if i < |ns| {
      NodeLinesAt(g, ns, i);
      assert lines[i] == NodeLines(g, ns)[i];
      LineForm("v ", IntToString(ns[i]), Join(", ", LabelList(NodeData(g, ns[i]), "labels")));
    } else {
      var k := i - |ns|;
      EdgeLinesAt(g, es, k);
      AppendAt(NodeLines(g, ns), EdgeLines(g, es), lines, i, k);
      EdgeLineForm(es[k], EdgeData(g, es[k]));
    }
  }

  lemma EdgeLineForm(e: EdgeId, a: Attrs)
    ensures EndsWith(EdgeLine(e, a), "\n") && StartsWith(EdgeLine(e, a), "e ")
  {
    LineForm("e ", IntToString(e.src) + " " + IntToString(e.dst), Join(", ", LabelList(a, "label")));
  }

  lemma LineForm(p: string, ids: string, labels: string)
    ensures StartsWith(p + ids + " " + labels + "\n", p)
    ensures EndsWith(p + ids + " " + labels + "\n", "\n")
  {
    var l := p + ids + " " + labels + "\n";
    assert l[..|p|] == p;
    assert l[|l| - 1..] == "\n";
  }

  /** A missing or empty label list leaves the separating space at the end: "v 3 \n". */
  lemma UnlabelledLines(n: NodeId, e: EdgeId, a: Attrs)
    requires "labels" !in a && "label" !in a
    ensures NodeLine(n, a) == "v " + IntToString(n) + " \n"
    ensures EdgeLine(e, a) == "e " + IntToString(e.src) + " " + IntToString(e.dst) + " \n"
  {
  }

  /** A string attribute is written like the one-element list holding it. */
  lemma StringLabelIsList(n: NodeId, a: Attrs, s: string)
    requires "labels" in a && a["labels"] == Str(s)
    ensures NodeLine(n, a) == NodeLine(n, a["labels" := StrList([s])])
  {
  }

  /** The text of a database is the concatenation, over its graphs in order, of header then data. */
  lemma {:induction false} DbTextLines(gs: seq<DBGraph>)
    ensures DbText(gs) == Concat(DbLines(gs))
    decreases |gs|
  {
    if gs != [] {
      var init, last := gs[..|gs| - 1], gs[|gs| - 1];
      DbTextLines(init);
      ConcatAppend(DbLines(init), [HeaderLine(last.graphId)] + DataLines(last.graph));
      ConcatCons(HeaderLine(last.graphId), DataLines(last.graph));
    }
  }

  /** The lines of a database's text. */
  ghost function DbLines(gs: seq<DBGraph>): (r: seq<string>)
    reads set i | 0 <= i < |gs| :: gs[i]
  {
    if gs == [] then []
    else DbLines(gs[..|gs| - 1]) + ([HeaderLine(gs[|gs| - 1].graphId)] + DataLines(gs[|gs| - 1].graph))
  }

  lemma {:induction false} ConcatAppend(a: seq<string>, b: seq<string>)
    ensures Concat(a + b) == Concat(a) + Concat(b)
    decreases |a|
  {
    if a != [] {
      assert (a + b)[1..] == a[1..] + b;
      ConcatAppend(a[1..], b);
    } else {
      assert a + b == b;
    }
  }

  lemma ConcatCons(x: string, b: seq<string>)
    ensures Concat([x] + b) == x + Concat(b)
  {
    assert ([x] + b)[1..] == b;
  }
}
