/**
 * `CSVGraphReader` (reader/csv.py): a folder of one-column CSV tables read as a graph.  A
 * table whose header holds "id:ID" lists node ids, one whose header holds ":START_ID" lists
 * edges as "src|dst" cells.  The folder is given as its listing, each file name with its
 * table (header cells and the cells of the first column, as text).
 */
module CsvReader {
  import opened Wrappers
  import opened PyStr
  import opened Multigraph
  import opened DbGraph

  /** A table as `pd.read_csv` gives it: the column names, and the cells of the first column. */
  datatype Table = Table(columns: seq<string>, cells: seq<string>)

  /** `CSVNode` / `CSVEdge`: a classified table with its label. */
  datatype CsvTable = NodeTable(table: Table, lab: string) | EdgeTable(table: Table, lab: string)

  /** `CSVGraph`: the node tables and the edge tables, each in listing order. */
  datatype CsvGraph = CsvGraph(nodes: seq<CsvTable>, edges: seq<CsvTable>)

  const ColumnError := ValueError("DataFrame must have exactly one column")
  const RowError := ValueError("DataFrame must have at least one row")
  const EdgeRowError := ValueError("Edge string must be in the format 'src_id|dst_id'")

  /** `_is_valid_df`: nothing for a table with one column and a row, else the `ValueError` it raises. */
  function CheckTable(t: Table): (r: Option<Error>)
    ensures r.None? <==> |t.columns| == 1 && |t.cells| >= 1
    ensures |t.columns| != 1 ==> r == Some(ColumnError)
    ensures |t.columns| == 1 && |t.cells| == 0 ==> r == Some(RowError)
  {
    if |t.columns| != 1 then Some(ColumnError)
    else if |t.cells| == 0 then Some(RowError)
    else None
  }

  /** `_is_node_df`, on the table's header. */
  predicate IsNodeHeader(header: string) {
    Contains(header, "id:ID")
  }

  /** `_is_edge_df`, on the table's header. */
  predicate IsEdgeHeader(header: string) {
    Contains(header, ":START_ID")
  }

  /** `file_name[:-4]`: the name without its last four characters (empty for a shorter name). */
  function TableLabel(name: string): (r: string)
    ensures EndsWith(name, ".csv") ==> r + ".csv" == name
  {
    if |name| >= 4 then name[..|name| - 4] else ""
  }

  /**
   * `load_csv(file_name)` on a file's table: the `ValueError` of an invalid table, a node
   * table when the header holds "id:ID" (even if it also holds ":START_ID"), an edge table
   * when it holds ":START_ID" only, and nothing otherwise; the label is the file name
   * without ".csv".
   */
  function LoadCsv(name: string, t: Table): (r: Result<Option<CsvTable>>)
    ensures r.Failure? <==> CheckTable(t).Some?
    ensures r.Failure? ==> r.error == CheckTable(t).value
    ensures r.Success? && r.value.Some? ==> r.value.value.table == t && r.value.value.lab == TableLabel(name)
    ensures r.Success? ==> (r.value.Some? && r.value.value.NodeTable? <==> IsNodeHeader(t.columns[0]))
    ensures r.Success? ==> (r.value.Some? && r.value.value.EdgeTable? <==> !IsNodeHeader(t.columns[0]) && IsEdgeHeader(t.columns[0]))
  {
    match CheckTable(t)
    case Some(e) => Failure(e)
    case None =>
      if IsNodeHeader(t.columns[0]) then Success(Some(NodeTable(t, TableLabel(name))))
      else if IsEdgeHeader(t.columns[0]) then Success(Some(EdgeTable(t, TableLabel(name))))
      else Success(None)
  }

  /** The ".csv" files of a listing, in listing order. */
  function CsvFiles(files: seq<(string, Table)>): (r: seq<(string, Table)>)
    ensures forall f :: f in r <==> f in files && EndsWith(f.0, ".csv")
  {
    if files == [] then []
    else (if EndsWith(files[0].0, ".csv") then [files[0]] else []) + CsvFiles(files[1..])
  }

  /** The node tables among the files, in order. */
  function NodeTablesOf(files: seq<(string, Table)>): seq<CsvTable> {
    if files == [] then []
    else
      var t := files[0].1;
      (if CheckTable(t).None? && IsNodeHeader(t.columns[0]) then [NodeTable(t, TableLabel(files[0].0))] else [])
      + NodeTablesOf(files[1..])
  }

  /** The edge tables among the files, in order. */
  function EdgeTablesOf(files: seq<(string, Table)>): seq<CsvTable> {
    if files == [] then []
    else
      var t := files[0].1;
      (if CheckTable(t).None? && !IsNodeHeader(t.columns[0]) && IsEdgeHeader(t.columns[0])
       then [EdgeTable(t, TableLabel(files[0].0))] else [])
      + EdgeTablesOf(files[1..])
  }

  /** The loop of `_read_csv_graph` from `acc` on: each file's table appended where it belongs; the first error stops it. */
  function CollectFrom(acc: CsvGraph, files: seq<(string, Table)>): (r: Result<CsvGraph>)
    decreases |files|
  {
    if files == [] then Success(acc)
    else
      match LoadCsv(files[0].0, files[0].1)
      case Failure(e) => Failure(e)
      case Success(None) => CollectFrom(acc, files[1..])
      case Success(Some(t)) =>
        CollectFrom(if t.NodeTable? then CsvGraph(acc.nodes + [t], acc.edges) else CsvGraph(acc.nodes, acc.edges + [t]), files[1..])
  }

  /** Reading succeeds exactly when every table is valid. */
  lemma {:induction false} CollectFromSucceeds(acc: CsvGraph, files: seq<(string, Table)>)
    ensures CollectFrom(acc, files).Success? <==> forall k :: 0 <= k < |files| ==> CheckTable(files[k].1).None?
    decreases |files|
  {
    if files != [] {
      var rest := files[1..];
      assert forall k :: 0 <= k < |rest| ==> rest[k] == files[k + 1];
      match LoadCsv(files[0].0, files[0].1)
      case Failure(e) =>
      case Success(None) =>
        CollectFromSucceeds(acc, rest);
      case Success(Some(t)) =>
        CollectFromSucceeds(if t.NodeTable? then CsvGraph(acc.nodes + [t], acc.edges) else CsvGraph(acc.nodes, acc.edges + [t]), rest);
    }
  }

  /** On success the node tables and the edge tables follow the accumulated ones, in file order. */
  lemma {:induction false} CollectFromTables(acc: CsvGraph, files: seq<(string, Table)>)
    requires CollectFrom(acc, files).Success?
    ensures CollectFrom(acc, files).value == CsvGraph(acc.nodes + NodeTablesOf(files), acc.edges + EdgeTablesOf(files))
    decreases |files|
  {
    if files != [] {
      var rest := files[1..];
      var t := files[0].1;
      var x := if IsNodeHeader(t.columns[0]) then [NodeTable(t, TableLabel(files[0].0))] else [];
      var y := if !IsNodeHeader(t.columns[0]) && IsEdgeHeader(t.columns[0]) then [EdgeTable(t, TableLabel(files[0].0))] else [];
      assert NodeTablesOf(files) == x + NodeTablesOf(rest);
      assert EdgeTablesOf(files) == y + EdgeTablesOf(rest);
      var next := CsvGraph(acc.nodes + x, acc.edges + y);
      assert LoadCsv(files[0].0, t).Success?;
      if IsNodeHeader(t.columns[0]) {
        assert LoadCsv(files[0].0, t) == Success(Some(NodeTable(t, TableLabel(files[0].0))));
        assert next == CsvGraph(acc.nodes + [NodeTable(t, TableLabel(files[0].0))], acc.edges);
      } else if IsEdgeHeader(t.columns[0]) {
        assert LoadCsv(files[0].0, t) == Success(Some(EdgeTable(t, TableLabel(files[0].0))));
        assert next == CsvGraph(acc.nodes, acc.edges + [EdgeTable(t, TableLabel(files[0].0))]);
      } else {
        assert LoadCsv(files[0].0, t) == Success(None);
        assert next == acc;
      }
      assert CollectFrom(acc, files) == CollectFrom(next, rest);
      CollectFromTables(next, rest);
      SeqAssoc(acc.nodes, x, NodeTablesOf(rest));
      SeqAssoc(acc.edges, y, EdgeTablesOf(rest));
    }
  }

  /**
   * `_read_csv_graph(folder)`: the ".csv" files of the listing loaded in order (as
   * `executor.map` hands back its results), node tables and edge tables each appended in
   * that order.
   */
  method ReadCsvGraph(listing: seq<(string, Table)>) returns (r: Result<CsvGraph>)
    ensures r == CollectFrom(CsvGraph([], []), CsvFiles(listing))
  {
    var files := CsvFiles(listing);
    var graph := CsvGraph([], []);
    assert files[0..] == files;
    for i := 0 to |files|
      invariant CollectFrom(graph, files[i..]) == CollectFrom(CsvGraph([], []), files)
    {
      assert files[i..][1..] == files[i + 1..];
      var result := LoadCsv(files[i].0, files[i].1);
      if result.Failure? {
        return Failure(result.error);
      }
      if result.value.Some? {
        var t := result.value.value;
        if t.NodeTable? {
          graph := CsvGraph(graph.nodes + [t], graph.edges);
        } else {
          graph := CsvGraph(graph.nodes, graph.edges + [t]);
        }
      }
    }
    return Success(graph);
  }

  /**
   * The text after the first "(" up to the next "(" or ")" (or to the end):
   * `p.split("(")[1].split(")")[0]`.
   */
  function Parenthesised(p: string): (r: string)
    requires '(' in p
    ensures var t := p[IndexOf(p, '(') + 1..];
            |r| <= |t| && r == t[..|r|] && '(' !in r && ')' !in r
            && (|r| == |t| || t[|r|] == '(' || t[|r|] == ')')
  {
    SplitFirst(p, '(');
    UpToEither(p[IndexOf(p, '(') + 1..], '(', ')');
    Split(Split(p, '(')[1], ')')[0]
  }

  /** `t.split(a)[0].split(b)[0]` is the text of `t` before its first `a` or `b`. */
  lemma UpToEither(t: string, a: char, b: char)
    ensures var r := Split(Split(t, a)[0], b)[0];
            |r| <= |t| && r == t[..|r|] && a !in r && b !in r
            && (|r| == |t| || t[|r|] == a || t[|r|] == b)
  {
    var u := Split(t, a)[0];
    UpTo(t, a);
    UpTo(u, b);
    var r := Split(u, b)[0];
    assert t[..|r|] == u[..|r|];
    assert |r| < |u| ==> t[|r|] == u[|r|];
  }

  /** `t.split(c)[0]` is the prefix of `t` before its first `c`. */
  lemma UpTo(t: string, c: char)
    ensures var r := Split(t, c)[0];
            |r| <= |t| && r == t[..|r|] && c !in r && (|r| == |t| || t[|r|] == c)
  {
    SplitHead(t, c);
  }

  /** `_extract_node_entity(header)`: the parenthesised entity, or "Unknown" without both parentheses. */
  function ExtractNodeEntity(header: string): (r: string)
    ensures '(' in header && ')' in header ==> r == Parenthesised(header)
    ensures !('(' in header && ')' in header) ==> r == "Unknown"
  {
    if '(' in header && ')' in header then Parenthesised(header) else "Unknown"
  }

  /** `part.split("(")[1].split(")")[0]`: an `IndexError` when the part has no "(". */
  function PartEntity(part: string): (r: Result<string>)
    ensures r.Success? <==> '(' in part
    ensures r.Success? ==> r.value == Parenthesised(part)
    ensures r.Failure? ==> r.error == IndexError
  {
    if '(' in part then Success(Parenthesised(part)) else Failure(IndexError)
  }

  /**
   * `_extract_edge_entities(header)`: ("Unknown", "Unknown") without "|"; otherwise the
   * entities of the first two "|"-separated parts, an `IndexError` if either lacks "(".
   */
  function ExtractEdgeEntities(header: string): (r: Result<(string, string)>)
    ensures '|' !in header ==> r == Success(("Unknown", "Unknown"))
    ensures '|' in header ==>
              var parts := Split(header, '|');
              (r.Success? <==> '(' in parts[0] && '(' in parts[1])
              && (r.Success? ==> r.value == (Parenthesised(parts[0]), Parenthesised(parts[1])))
  {
    if '|' in header then
      SplitFirst(header, '|');
      var parts := Split(header, '|');
      match PartEntity(parts[0])
      case Failure(e) => Failure(e)
      case Success(start) =>
        match PartEntity(parts[1])
        case Failure(e) => Failure(e)
        case Success(end) => Success((start, end))
    else Success(("Unknown", "Unknown"))
  }

  /** The entities of a header written as ":START_ID(A)|:END_ID(B)" are A and B. */
  lemma EdgeEntitiesRoundTrip(a: string, b: string)
    requires '(' !in a && ')' !in a && '|' !in a && '(' !in b && ')' !in b && '|' !in b
    ensures ExtractEdgeEntities(":START_ID(" + a + ")|:END_ID(" + b + ")") == Success((a, b))
  {
    var x, y := ":START_ID" + "(" + a + ")", ":END_ID" + "(" + b + ")";
    assert x + "|" + y == ":START_ID(" + a + ")|:END_ID(" + b + ")";
    SplitPair(x, y, '|');
    ParenthesisedOf(":START_ID", a);
    ParenthesisedOf(":END_ID", b);
  }

  /** Splitting `x + [c] + y` at `c`, with no `c` in `x` or `y`, gives `x` and `y`. */
  lemma SplitPair(x: string, y: string, c: char)
    requires c !in x && c !in y
    ensures Split(x + [c] + y, c) == [x, y]
  {
    var h := x + [c] + y;
    assert h[|x|] == c && h[..|x|] == x;
    IndexOfAt(h, c, |x|);
    assert h[|x| + 1..] == y;
  }

  /** The index of the first `c` is `i` when `s[i]` is `c` and no earlier character is. */
  lemma IndexOfAt(s: string, c: char, i: nat)
    requires i < |s| && s[i] == c && c !in s[..i]
    ensures c in s && IndexOf(s, c) == i
  {
    assert s[..i + 1][i] == c;
  }

  /** The entity of `name(e)` is `e`. */
  lemma ParenthesisedOf(name: string, e: string)
    requires '(' !in name && '(' !in e && ')' !in e
    ensures '(' in name + "(" + e + ")"
    ensures Parenthesised(name + "(" + e + ")") == e
  {
    var p := name + "(" + e + ")";
    assert p[|name|] == '(';
    assert p[..|name|] == name;
    IndexOfAt(p, '(', |name|);
    var t := p[|name| + 1..];
    assert t == e + ")";
    assert t[|e|] == ')' && t[..|e|] == e;
  }

  /**
   * `_extract_src_dst_from_edge_row(cell)`: the integers either side of the cell's single
   * "|"; a `ValueError` unless it holds exactly one, and `int()`'s `ValueError` for a side
   * that is not an integer (the source side first).
   */
  function ExtractSrcDst(cell: string): (r: Result<(int, int)>) {
    var parts := Split(cell, '|');
    if |parts| != 2 then Failure(EdgeRowError)
    else
      match PyInt(parts[0])
      case Failure(e) => Failure(e)
      case Success(src) =>
        match PyInt(parts[1])
        case Failure(e) => Failure(e)
        case Success(dst) => Success((src, dst))
  }

  /**
   * A row reads as a pair exactly when it holds a single "|" with an integer either side;
   * without a single "|" the error is the format `ValueError`, otherwise that of the first
   * side `int()` rejects.
   */
  lemma ExtractSrcDstSpec(cell: string)
    ensures var r := ExtractSrcDst(cell);
            var single := '|' in cell && '|' !in cell[IndexOf(cell, '|') + 1..];
            && (!single ==> r == Failure(EdgeRowError))
            && (single ==>
                  var i := IndexOf(cell, '|');
                  && (r.Success? <==> ParseInt(cell[..i]).Some? && ParseInt(cell[i + 1..]).Some?)
                  && (r.Success? ==> r.value == (ParseInt(cell[..i]).value, ParseInt(cell[i + 1..]).value))
                  && (ParseInt(cell[..i]).None? ==> r == Failure(IntError(cell[..i])))
                  && (ParseInt(cell[..i]).Some? && ParseInt(cell[i + 1..]).None? ==> r == Failure(IntError(cell[i + 1..]))))
  {
    SplitTwo(cell, '|');
  }

  /** A cell written as "src|dst" from two integers reads back as those integers. */
  lemma SrcDstRoundTrip(src: int, dst: int)
    ensures ExtractSrcDst(IntToString(src) + "|" + IntToString(dst)) == Success((src, dst))
  {
    var a, b := IntToString(src), IntToString(dst);
    var cell := a + "|" + b;
    NoBarInNumber(src);
    NoBarInNumber(dst);
    assert cell[|a|] == '|' && cell[..|a|] == a;
    IndexOfAt(cell, '|', |a|);
    assert cell[|a| + 1..] == b;
    IntToStringRoundTrip(src);
    IntToStringRoundTrip(dst);
    ExtractSrcDstSpec(cell);
  }

  lemma NoBarInNumber(n: int)
    ensures '|' !in IntToString(n)
  {
    var s := IntToString(n);
    if n < 0 {
      assert s == "-" + NatToString(-n);
      assert forall i :: 1 <= i < |s| ==> s[i] == NatToString(-n)[i - 1];
    }
  }

  /** The attributes `add_node(node_id, label=...)` and `add_edge(src, dst, label=...)` set. */
  function LabelAttrs(lab: string): (a: Attrs)
    ensures a.Keys == {"label"} && a["label"] == Str(lab)
  {
    map["label" := Str(lab)]
  }

  /** The attributes hold exactly a `label`, and it is one of `labels`. */
  predicate LabelledBy(a: Attrs, labels: set<string>) {
    "label" in a && a["label"].Str? && a["label"].s in labels && a == LabelAttrs(a["label"].s)
  }

  /** Every node has no attributes (an edge endpoint only) or a label from `labels`. */
  ghost predicate NodesLabelled(g: Graph, labels: set<string>) {
    forall n :: n in g.nodeAttrs ==> g.nodeAttrs[n] == map[] || LabelledBy(g.nodeAttrs[n], labels)
  }

  /** Every id a table of `ts` lists is an integer and a node of `m` carrying a label from `labels`. */
  ghost predicate IdsLabelled(ts: seq<CsvTable>, m: map<NodeId, Attrs>, labels: set<string>) {
    forall i, k :: 0 <= i < |ts| && 0 <= k < |ts[i].table.cells| ==>
      ParseInt(ts[i].table.cells[k]).Some? && ParseInt(ts[i].table.cells[k]).value in m
      && LabelledBy(m[ParseInt(ts[i].table.cells[k]).value], labels)
  }

  /** Every edge carries exactly a label from `labels`. */
  ghost predicate EdgesLabelled(g: Graph, labels: set<string>) {
    forall e :: e in g.edgeAttrs ==> LabelledBy(g.edgeAttrs[e], labels)
  }

  /** The labels of the tables. */
  function Labels(ts: seq<CsvTable>): set<string> {
    set k | 0 <= k < |ts| :: ts[k].lab
  }

  /** The number of rows of the tables. */
  function TotalRows(ts: seq<CsvTable>): nat {
    if ts == [] then 0 else |ts[0].table.cells| + TotalRows(ts[1..])
  }

  /** `int(node_id)` for each cell in order; the first cell that is not an integer is the error. */
  function ParseIds(cells: seq<string>): (r: Result<seq<NodeId>>)
    ensures r.Success? ==> |r.value| == |cells|
    decreases |cells|
  {
    if cells == [] then Success([])
    else
      match PyInt(cells[0])
      case Failure(e) => Failure(e)
      case Success(id) =>
        match ParseIds(cells[1..])
        case Failure(e) => Failure(e)
        case Success(ids) => Success([id] + ids)
  }

  /** The cells parse exactly when each is an integer, and then the k-th id is the k-th cell's. */
  lemma {:induction false} ParseIdsAll(cells: seq<string>)
    ensures ParseIds(cells).Success? <==> forall k :: 0 <= k < |cells| ==> ParseInt(cells[k]).Some?
    ensures ParseIds(cells).Success? ==> forall k :: 0 <= k < |cells| ==> ParseIds(cells).value[k] == ParseInt(cells[k]).value
    decreases |cells|
  {
    if cells != [] {
      var rest := cells[1..];
      ParseIdsAll(rest);
      assert forall k :: 0 <= k < |rest| ==> rest[k] == cells[k + 1];
    }
  }

  /** The "src|dst" pair of each cell in order; the first malformed cell is the error. */
  function ParseRows(cells: seq<string>): (r: Result<seq<(NodeId, NodeId)>>)
    ensures r.Success? ==> |r.value| == |cells|
    decreases |cells|
  {
    if cells == [] then Success([])
    else
      match ExtractSrcDst(cells[0])
      case Failure(e) => Failure(e)
      case Success(p) =>
        match ParseRows(cells[1..])
        case Failure(e) => Failure(e)
        case Success(ps) => Success([p] + ps)
  }

  /** The cells parse exactly when each is a well-formed row, and then the k-th pair is the k-th cell's. */
  lemma {:induction false} ParseRowsAll(cells: seq<string>)
    ensures ParseRows(cells).Success? <==> forall k :: 0 <= k < |cells| ==> ExtractSrcDst(cells[k]).Success?
    ensures ParseRows(cells).Success? ==> forall k :: 0 <= k < |cells| ==> ParseRows(cells).value[k] == ExtractSrcDst(cells[k]).value
    decreases |cells|
  {
    if cells != [] {
      var rest := cells[1..];
      ParseRowsAll(rest);
      assert forall k :: 0 <= k < |rest| ==> rest[k] == cells[k + 1];
    }
  }

  /** `G.add_node(node_id, label=label)` for each id in order, from `g` on. */
  function AddLabelledNodes(g: Graph, ids: seq<NodeId>, lab: string): (r: Graph)
    requires g.Valid()
    ensures r.Valid() && r.edges == g.edges && r.edgeAttrs == g.edgeAttrs
    decreases |ids|
  {
    if ids == [] then g
    else
      AddNodeValid(g, ids[0], LabelAttrs(lab));
      AddLabelledNodes(g.AddNode(ids[0], LabelAttrs(lab)), ids[1..], lab)
  }

  /**
   * Every id becomes a node whose `label` is `lab`; no other node is added, and the nodes
   * not listed keep their attributes.
   */
  lemma {:induction false} AddLabelledNodesNodes(g: Graph, ids: seq<NodeId>, lab: string)
    requires g.Valid()
    ensures var r := AddLabelledNodes(g, ids, lab);
            && (forall n :: n in r.nodeAttrs <==> n in g.nodeAttrs || n in ids)
            && (forall k :: 0 <= k < |ids| ==> ids[k] in r.nodeAttrs && "label" in r.nodeAttrs[ids[k]] && r.nodeAttrs[ids[k]]["label"] == Str(lab))
            && (forall n :: n in g.nodeAttrs && n !in ids ==> r.nodeAttrs[n] == g.nodeAttrs[n])
    decreases |ids|
  {
    if ids != [] {
      var rest := ids[1..];
      AddNodeValid(g, ids[0], LabelAttrs(lab));
      var g1 := g.AddNode(ids[0], LabelAttrs(lab));
      AddLabelledNodesNodes(g1, rest, lab);
      assert forall k :: 0 <= k < |rest| ==> rest[k] == ids[k + 1];
      assert forall n :: n in ids <==> n == ids[0] || n in rest;
      assert "label" in g1.nodeAttrs[ids[0]] && g1.nodeAttrs[ids[0]]["label"] == Str(lab);
    }
  }

  /** Adding labelled nodes keeps every node unlabelled or labelled from `labels`, when `labels` holds `lab`. */
  lemma {:induction false} AddLabelledNodesLabelled(g: Graph, ids: seq<NodeId>, lab: string, labels: set<string>)
    requires g.Valid() && NodesLabelled(g, labels) && lab in labels
    ensures NodesLabelled(AddLabelledNodes(g, ids, lab), labels)
    decreases |ids|
  {
    if ids != [] {
      AddNodeValid(g, ids[0], LabelAttrs(lab));
      if ids[0] in g.nodeAttrs {
        MergeLabel(g.nodeAttrs[ids[0]], lab, labels);
      }
      AddLabelledNodesLabelled(g.AddNode(ids[0], LabelAttrs(lab)), ids[1..], lab, labels);
    }
  }

  /** Merging a label into empty or labelled attributes leaves exactly that label. */
  lemma MergeLabel(a: Attrs, lab: string, labels: set<string>)
    requires a == map[] || LabelledBy(a, labels)
    ensures a + LabelAttrs(lab) == LabelAttrs(lab)
  {
    assert (a + LabelAttrs(lab)).Keys == LabelAttrs(lab).Keys;
  }

  /**
   * The loop over a node table's cells, from the graph `g` on: each cell read as `int()`
   * reads it and added as a node labelled `lab`; the first cell that is not an integer is
   * the error (the graph is then dropped, so adding after parsing changes nothing).
   */
  function AddNodeCells(g: Graph, cells: seq<string>, lab: string): (r: Result<Graph>)
    requires g.Valid()
    ensures r.Success? <==> ParseIds(cells).Success?
    ensures r.Success? ==> r.value == AddLabelledNodes(g, ParseIds(cells).value, lab)
  {
    match ParseIds(cells)
    case Failure(e) => Failure(e)
    case Success(ids) => Success(AddLabelledNodes(g, ids, lab))
  }

  /** One cell of the loop: an error, or the node added and the rest of the table from there. */
  lemma AddNodeCellsStep(g: Graph, cells: seq<string>, lab: string, k: nat)
    requires g.Valid() && k < |cells|
    ensures AddNodeCells(g, cells[k..], lab)
            == match PyInt(cells[k])
               case Failure(e) => Failure(e)
               case Success(id) => (AddNodeValid(g, id, LabelAttrs(lab)); AddNodeCells(g.AddNode(id, LabelAttrs(lab)), cells[k + 1..], lab))
  {
    assert cells[k..][0] == cells[k] && cells[k..][1..] == cells[k + 1..];
  }

  /** The endpoints of each edge, in order. */
  function EndsOf(es: seq<EdgeId>): (r: seq<(NodeId, NodeId)>)
    ensures |r| == |es|
  {
    if es == [] then [] else EndsOf(es[..|es| - 1]) + [(es[|es| - 1].src, es[|es| - 1].dst)]
  }

  /**
   * `G.add_edge(src, dst, label=label)` for each pair in order, from `g` on: one new
   * parallel edge per pair, after the old edges, the k-th joining the k-th pair.
   */
  function AddRowEdges(g: Graph, pairs: seq<(NodeId, NodeId)>, lab: string): (r: Graph)
    requires g.Valid()
    ensures r.Valid()
    ensures |r.edges| == |g.edges| + |pairs| && r.edges[..|g.edges|] == g.edges
    ensures EndsOf(r.edges) == EndsOf(g.edges) + pairs
    decreases |pairs|
  {
    if pairs == [] then g
    else
      var p := pairs[0];
      AddEdgeValid(g, p.0, p.1, LabelAttrs(lab));
      var g1 := g.AddEdge(p.0, p.1, LabelAttrs(lab));
      var r := AddRowEdges(g1, pairs[1..], lab);
      PrefixOfPrefix(r.edges, g1.edges, g.edges);
      EndsOfSnoc(g.edges, EdgeId(p.0, p.1, g.NewEdgeKey(p.0, p.1)));
      SeqAssoc(EndsOf(g.edges), [(p.0, p.1)], pairs[1..]);
      PairsCons(pairs);
      r
  }

  lemma EndsOfSnoc(es: seq<EdgeId>, e: EdgeId)
    ensures EndsOf(es + [e]) == EndsOf(es) + [(e.src, e.dst)]
  {
    assert (es + [e])[..|es|] == es;
  }

  lemma PairsCons(ps: seq<(NodeId, NodeId)>)
    requires ps != []
    ensures [(ps[0].0, ps[0].1)] + ps[1..] == ps
  {
  }

  lemma PrefixOfPrefix<T>(r: seq<T>, m: seq<T>, g: seq<T>)
    requires |m| <= |r| && r[..|m|] == m && |g| < |m| && m[..|g|] == g
    ensures r[..|g|] == g
  {
    assert r[..|g|] == r[..|m|][..|g|];
  }

  /** The new edges carry exactly the label `lab` and the old ones keep their data. */
  lemma {:induction false} AddRowEdgesEdgeAttrs(g: Graph, pairs: seq<(NodeId, NodeId)>, lab: string)
    requires g.Valid()
    ensures var r := AddRowEdges(g, pairs, lab);
            && g.edgeAttrs.Keys <= r.edgeAttrs.Keys
            && (forall e :: e in r.edgeAttrs ==> r.edgeAttrs[e] == if e in g.edgeAttrs then g.edgeAttrs[e] else LabelAttrs(lab))
    decreases |pairs|
  {
    if pairs != [] {
      var p := pairs[0];
      AddEdgeValid(g, p.0, p.1, LabelAttrs(lab));
      var g1 := g.AddEdge(p.0, p.1, LabelAttrs(lab));
      AddRowEdgesEdgeAttrs(g1, pairs[1..], lab);
      var r := AddRowEdges(g1, pairs[1..], lab);
      var ne := EdgeId(p.0, p.1, g.NewEdgeKey(p.0, p.1));
      forall e | e in r.edgeAttrs
        ensures r.edgeAttrs[e] == if e in g.edgeAttrs then g.edgeAttrs[e] else LabelAttrs(lab)
      {
        if e == ne {
          assert e !in g.edgeAttrs;
          assert r.edgeAttrs[e] == g1.edgeAttrs[e] == LabelAttrs(lab);
        }
      }
    }
  }

  /** The endpoints the pairs add have no attributes, and the old nodes keep theirs. */
  lemma {:induction false} AddRowEdgesNodeAttrs(g: Graph, pairs: seq<(NodeId, NodeId)>, lab: string)
    requires g.Valid()
    ensures var r := AddRowEdges(g, pairs, lab);
            && g.nodeAttrs.Keys <= r.nodeAttrs.Keys
            && (forall n :: n in r.nodeAttrs ==> r.nodeAttrs[n] == if n in g.nodeAttrs then g.nodeAttrs[n] else map[])
    decreases |pairs|
  {
    if pairs != [] {
      var p := pairs[0];
      AddEdgeValid(g, p.0, p.1, LabelAttrs(lab));
      AddEdgeNewEndpoints(g, p.0, p.1, LabelAttrs(lab));
      var g1 := g.AddEdge(p.0, p.1, LabelAttrs(lab));
      AddRowEdgesNodeAttrs(g1, pairs[1..], lab);
      var r := AddRowEdges(g1, pairs[1..], lab);
      assert AddRowEdges(g, pairs, lab) == r;
      forall n | n in r.nodeAttrs ensures r.nodeAttrs[n] == if n in g.nodeAttrs then g.nodeAttrs[n] else map[] {
        if n in g1.nodeAttrs {
          assert r.nodeAttrs[n] == g1.nodeAttrs[n];
        }
      }
    }
  }

  /**
   * The loop over an edge table's rows, from the graph `g` on: each row's pair added as a
   * new edge labelled `lab`; the first malformed row is the error.
   */
  function AddEdgeCells(g: Graph, cells: seq<string>, lab: string): (r: Result<Graph>)
    requires g.Valid()
    ensures r.Success? <==> ParseRows(cells).Success?
    ensures r.Success? ==> r.value == AddRowEdges(g, ParseRows(cells).value, lab)
  {
    match ParseRows(cells)
    case Failure(e) => Failure(e)
    case Success(ps) => Success(AddRowEdges(g, ps, lab))
  }

  /** One row of the loop: an error, or the edge added and the rest of the table from there. */
  lemma AddEdgeCellsStep(g: Graph, cells: seq<string>, lab: string, k: nat)
    requires g.Valid() && k < |cells|
    ensures AddEdgeCells(g, cells[k..], lab)
            == match ExtractSrcDst(cells[k])
               case Failure(e) => Failure(e)
               case Success(p) => (AddEdgeValid(g, p.0, p.1, LabelAttrs(lab)); AddEdgeCells(g.AddEdge(p.0, p.1, LabelAttrs(lab)), cells[k + 1..], lab))
  {
    assert cells[k..][0] == cells[k] && cells[k..][1..] == cells[k + 1..];
  }

  /** `add_node` for every id of the node tables, table after table, from `g` on; the first bad cell is an error. */
  function AddNodeTables(g: Graph, ts: seq<CsvTable>): (r: Result<Graph>)
    requires g.Valid()
    ensures r.Success? ==> r.value.Valid() && r.value.edges == g.edges && r.value.edgeAttrs == g.edgeAttrs
    decreases |ts|, 0
  {
    if ts == [] then Success(g) else NodeTablesAfter(AddNodeCells(g, ts[0].table.cells, ts[0].lab), ts[1..])
  }

  /** The remaining node tables, after a table that ended in `r`. */
  function NodeTablesAfter(r: Result<Graph>, ts: seq<CsvTable>): (r': Result<Graph>)
    requires r.Success? ==> r.value.Valid()
    ensures r'.Success? ==> r.Success? && r'.value.Valid() && r'.value.edges == r.value.edges && r'.value.edgeAttrs == r.value.edgeAttrs
    decreases |ts|, 1
  {
    match r
    case Failure(e) => Failure(e)
    case Success(h) => AddNodeTables(h, ts)
  }

  /**
   * After the node tables, every node is unlabelled or labelled by one of the tables, and
   * every id a table lists is a node with a label.
   */
  lemma {:induction false} AddNodeTablesLabelled(g: Graph, ts: seq<CsvTable>, labels: set<string>)
    requires g.Valid() && NodesLabelled(g, labels) && Labels(ts) <= labels
    requires AddNodeTables(g, ts).Success?
    ensures NodesLabelled(AddNodeTables(g, ts).value, labels)
    ensures IdsLabelled(ts, AddNodeTables(g, ts).value.nodeAttrs, labels)
    decreases |ts|
  {
    if ts != [] {
      var t, rest := ts[0], ts[1..];
      assert t.lab in Labels(ts);
      LabelsTail(ts);
      var ids := ParseIds(t.table.cells).value;
      ParseIdsAll(t.table.cells);
      var h := AddLabelledNodes(g, ids, t.lab);
      AddLabelledNodesLabelled(g, ids, t.lab, labels);
      AddLabelledNodesNodes(g, ids, t.lab);
      AddNodeTablesLabelled(h, rest, labels);
      AddNodeTablesGrow(h, rest);
      var r := AddNodeTables(g, ts).value;
      forall i, k | 0 <= i < |ts| && 0 <= k < |ts[i].table.cells|
        ensures ParseInt(ts[i].table.cells[k]).Some? && ParseInt(ts[i].table.cells[k]).value in r.nodeAttrs
                && LabelledBy(r.nodeAttrs[ParseInt(ts[i].table.cells[k]).value], labels)
      {
        if i > 0 {
          assert rest[i - 1] == ts[i];
        } else {
          var n := ids[k];
          assert n in h.nodeAttrs && h.nodeAttrs[n] != map[];
        }
      }
    }
  }

  lemma LabelsTail(ts: seq<CsvTable>)
    requires ts != []
    ensures Labels(ts[1..]) <= Labels(ts)
  {
    var rest := ts[1..];
    forall l | l in Labels(rest) ensures l in Labels(ts) {
      var k :| 0 <= k < |rest| && rest[k].lab == l;
      assert ts[k + 1] == rest[k];
    }
  }

  /** Adding labelled nodes keeps every node, and a node with attributes keeps some. */
  lemma {:induction false} AddLabelledNodesKeep(g: Graph, ids: seq<NodeId>, lab: string)
    requires g.Valid()
    ensures g.nodeAttrs.Keys <= AddLabelledNodes(g, ids, lab).nodeAttrs.Keys
    ensures forall n :: n in g.nodeAttrs && g.nodeAttrs[n] != map[] ==> AddLabelledNodes(g, ids, lab).nodeAttrs[n] != map[]
    decreases |ids|
  {
    if ids != [] {
      AddNodeValid(g, ids[0], LabelAttrs(lab));
      var g1 := g.AddNode(ids[0], LabelAttrs(lab));
      assert "label" in g1.nodeAttrs[ids[0]];
      AddLabelledNodesKeep(g1, ids[1..], lab);
    }
  }

  /** Adding node tables keeps every node, and a node that has a label keeps one. */
  lemma {:induction false} AddNodeTablesGrow(g: Graph, ts: seq<CsvTable>)
    requires g.Valid() && AddNodeTables(g, ts).Success?
    ensures g.nodeAttrs.Keys <= AddNodeTables(g, ts).value.nodeAttrs.Keys
    ensures forall n :: n in g.nodeAttrs && g.nodeAttrs[n] != map[] ==> AddNodeTables(g, ts).value.nodeAttrs[n] != map[]
    decreases |ts|
  {
    if ts != [] {
      var ids := ParseIds(ts[0].table.cells).value;
      AddLabelledNodesKeep(g, ids, ts[0].lab);
      var h := AddLabelledNodes(g, ids, ts[0].lab);
      assert AddNodeTables(g, ts) == AddNodeTables(h, ts[1..]);
      AddNodeTablesGrow(h, ts[1..]);
    }
  }

  /** `add_edge` for every row of the edge tables, table after table, from `g` on; the first bad row is an error. */
  function AddEdgeTables(g: Graph, ts: seq<CsvTable>): (r: Result<Graph>)
    requires g.Valid()
    ensures r.Success? ==> r.value.Valid()
    ensures r.Success? ==> |r.value.edges| == |g.edges| + TotalRows(ts) && r.value.edges[..|g.edges|] == g.edges
    decreases |ts|, 0
  {
    if ts == [] then Success(g) else EdgeTablesAfter(AddEdgeCells(g, ts[0].table.cells, ts[0].lab), ts[1..])
  }

  /** The remaining edge tables, after a table that ended in `r`. */
  function EdgeTablesAfter(r: Result<Graph>, ts: seq<CsvTable>): (r': Result<Graph>)
    requires r.Success? ==> r.value.Valid()
    ensures r'.Success? ==> r.Success? && r'.value.Valid()
    ensures r'.Success? ==> |r'.value.edges| == |r.value.edges| + TotalRows(ts) && r'.value.edges[..|r.value.edges|] == r.value.edges
    decreases |ts|, 1
  {
    match r
    case Failure(e) => Failure(e)
    case Success(h) => AddEdgeTables(h, ts)
  }

  /** Edge data from `a` to `b`: every old edge is kept unchanged, every new one carries exactly a label of `labels`. */
  predicate EdgeAttrsGrow(a: map<EdgeId, Attrs>, b: map<EdgeId, Attrs>, labels: set<string>) {
    && a.Keys <= b.Keys
    && forall e :: e in b ==> if e in a then b[e] == a[e] else LabelledBy(b[e], labels)
  }

  /** Node data from `a` to `b`: every old node is kept unchanged, every new one has no attributes. */
  predicate NodeAttrsGrow(a: map<NodeId, Attrs>, b: map<NodeId, Attrs>) {
    && a.Keys <= b.Keys
    && forall n :: n in b ==> b[n] == if n in a then a[n] else map[]
  }

  lemma EdgeAttrsGrowTrans(a: map<EdgeId, Attrs>, b: map<EdgeId, Attrs>, c: map<EdgeId, Attrs>, labels: set<string>)
    requires EdgeAttrsGrow(a, b, labels) && EdgeAttrsGrow(b, c, labels)
    ensures EdgeAttrsGrow(a, c, labels)
  {}

  lemma NodeAttrsGrowTrans(a: map<NodeId, Attrs>, b: map<NodeId, Attrs>, c: map<NodeId, Attrs>)
    requires NodeAttrsGrow(a, b) && NodeAttrsGrow(b, c)
    ensures NodeAttrsGrow(a, c)
  {}

  /** The rows of one edge table labelled `lab`, one of `labels`, grow the data as the predicates say. */
  lemma AddRowEdgesGrow(g: Graph, ps: seq<(NodeId, NodeId)>, lab: string, labels: set<string>)
    requires g.Valid() && lab in labels
    ensures EdgeAttrsGrow(g.edgeAttrs, AddRowEdges(g, ps, lab).edgeAttrs, labels)
    ensures NodeAttrsGrow(g.nodeAttrs, AddRowEdges(g, ps, lab).nodeAttrs)
  {
    AddRowEdgesEdgeAttrs(g, ps, lab);
    AddRowEdgesNodeAttrs(g, ps, lab);
  }

  /**
   * After the edge tables, every new edge carries exactly the label of one of the tables, the
   * old edges and nodes keep their data, and the nodes the rows add have none.
   */
  lemma {:induction false} AddEdgeTablesLabelled(g: Graph, ts: seq<CsvTable>, labels: set<string>)
    requires g.Valid() && Labels(ts) <= labels && AddEdgeTables(g, ts).Success?
    ensures EdgeAttrsGrow(g.edgeAttrs, AddEdgeTables(g, ts).value.edgeAttrs, labels)
    ensures NodeAttrsGrow(g.nodeAttrs, AddEdgeTables(g, ts).value.nodeAttrs)
    decreases |ts|
  {
    if ts != [] {
      var t := ts[0];
      assert t.lab in Labels(ts);
      LabelsTail(ts);
      var ps := ParseRows(t.table.cells).value;
      var h := AddRowEdges(g, ps, t.lab);
      var r := AddEdgeTables(g, ts).value;
      assert r == AddEdgeTables(h, ts[1..]).value;
      AddRowEdgesGrow(g, ps, t.lab, labels);
      AddEdgeTablesLabelled(h, ts[1..], labels);
      EdgeAttrsGrowTrans(g.edgeAttrs, h.edgeAttrs, r.edgeAttrs, labels);
      NodeAttrsGrowTrans(g.nodeAttrs, h.nodeAttrs, r.nodeAttrs);
    }
  }

  /**
   * `_csv_to_nx(csv_graph)` as a value: the node tables into an empty graph, then the edge
   * tables; the first bad cell, node tables first, is the error.
   */
  function CsvToNxSpec(c: CsvGraph): (r: Result<Graph>)
    ensures r.Success? ==> r.value.Valid() && |r.value.edges| == TotalRows(c.edges)
  {
    EdgeTablesAfter(AddNodeTables(EmptyGraph(), c.nodes), c.edges)
  }

  /**
   * What `_csv_to_nx` builds: one edge per edge row, each carrying exactly the label of an
   * edge table; every id of a node table is a node labelled by a node table; every other
   * node is an edge endpoint without attributes.
   */
  lemma CsvToNxLabels(c: CsvGraph)
    requires CsvToNxSpec(c).Success?
    ensures |CsvToNxSpec(c).value.edges| == TotalRows(c.edges)
    ensures EdgesLabelled(CsvToNxSpec(c).value, Labels(c.edges))
    ensures NodesLabelled(CsvToNxSpec(c).value, Labels(c.nodes))
    ensures IdsLabelled(c.nodes, CsvToNxSpec(c).value.nodeAttrs, Labels(c.nodes))
  {
    var h := AddNodeTables(EmptyGraph(), c.nodes).value;
    var r := CsvToNxSpec(c).value;
    assert r == AddEdgeTables(h, c.edges).value;
    AddNodeTablesLabelled(EmptyGraph(), c.nodes, Labels(c.nodes));
    AddEdgeTablesLabelled(h, c.edges, Labels(c.edges));
    NodesLabelledKept(h.nodeAttrs, r.nodeAttrs, Labels(c.nodes));
    IdsLabelledKept(c.nodes, h.nodeAttrs, r.nodeAttrs, Labels(c.nodes));
  }

  lemma NodesLabelledKept(a: map<NodeId, Attrs>, b: map<NodeId, Attrs>, labels: set<string>)
    requires NodeAttrsGrow(a, b) && forall n :: n in a ==> a[n] == map[] || LabelledBy(a[n], labels)
    ensures forall n :: n in b ==> b[n] == map[] || LabelledBy(b[n], labels)
  {}

  lemma IdsLabelledKept(ts: seq<CsvTable>, a: map<NodeId, Attrs>, b: map<NodeId, Attrs>, labels: set<string>)
    requires IdsLabelled(ts, a, labels) && NodeAttrsGrow(a, b)
    ensures IdsLabelled(ts, b, labels)
  {}

  /** The edges of the graph join the pairs of the edge rows, in row order, table after table. */
  lemma CsvToNxEnds(c: CsvGraph)
    requires CsvToNxSpec(c).Success?
    ensures EndsOf(CsvToNxSpec(c).value.edges) == RowPairs(c.edges)
  {
    var h := AddNodeTables(EmptyGraph(), c.nodes).value;
    AddEdgeTablesEnds(h, c.edges);
    assert EndsOf(h.edges) == [];
  }

  /** The label of each edge row, in row order, table after table: every row of a table carries its label. */
  function RowLabels(ts: seq<CsvTable>): seq<string> {
    if ts == [] then []
    else
      (match ParseRows(ts[0].table.cells)
       case Success(ps) => seq(|ps|, _ => ts[0].lab)
       case Failure(_) => [])
      + RowLabels(ts[1..])
  }

  /** The k-th edge of `es` carries exactly the k-th label of `labs`. */
  ghost predicate LabelledInOrder(es: seq<EdgeId>, attrs: map<EdgeId, Attrs>, labs: seq<string>) {
    |es| == |labs| && forall k :: 0 <= k < |es| ==> es[k] in attrs && attrs[es[k]] == LabelAttrs(labs[k])
  }

  /** The rows of one table append as many edges labelled `lab`, and the old edges keep their labels. */
  lemma AddRowEdgesInOrder(g: Graph, ps: seq<(NodeId, NodeId)>, lab: string, labs: seq<string>)
    requires g.Valid() && LabelledInOrder(g.edges, g.edgeAttrs, labs)
    ensures LabelledInOrder(AddRowEdges(g, ps, lab).edges, AddRowEdges(g, ps, lab).edgeAttrs,
                            labs + seq(|ps|, _ => lab))
  {
    var r := AddRowEdges(g, ps, lab);
    AddRowEdgesEdgeAttrs(g, ps, lab);
    AppendLabelled(r.edges, g.edges, g.edgeAttrs, r.edgeAttrs, labs, lab, |ps|);
  }

  /**
   * Edges appended after `prefix`, with data that keeps the old edges' and gives every new
   * one the label `lab`, are labelled in order by the old labels followed by `lab` repeated.
   */
  lemma AppendLabelled(es: seq<EdgeId>, prefix: seq<EdgeId>, a: map<EdgeId, Attrs>, b: map<EdgeId, Attrs>,
                       labs: seq<string>, lab: string, n: nat)
    requires Distinct(es) && |es| == |prefix| + n && es[..|prefix|] == prefix
    requires (forall e :: e in a <==> e in prefix) && (forall e :: e in b <==> e in es)
    requires forall e :: e in b ==> b[e] == if e in a then a[e] else LabelAttrs(lab)
    requires LabelledInOrder(prefix, a, labs)
    ensures LabelledInOrder(es, b, labs + seq(n, _ => lab))
  {
    var all := labs + seq(n, _ => lab);
    forall k | 0 <= k < |es|
      ensures es[k] in b && b[es[k]] == LabelAttrs(all[k])
    {
      if k < |prefix| {
        assert es[k] == es[..|prefix|][k];
      } else {
        NewEdgeIsNew(es, prefix, k);
      }
    }
  }

  /** An entry after a prefix of a sequence without repeats is not in that prefix. */
  lemma NewEdgeIsNew(es: seq<EdgeId>, prefix: seq<EdgeId>, k: nat)
    requires Distinct(es) && |prefix| <= k < |es| && es[..|prefix|] == prefix
    ensures es[k] !in prefix
  {
    forall j | 0 <= j < |prefix|
      ensures prefix[j] != es[k]
    {
      assert prefix[j] == es[j];
    }
  }

  /** The edge tables append their rows' edges, each labelled by its table, after the old edges. */
  lemma {:induction false} AddEdgeTablesInOrder(g: Graph, ts: seq<CsvTable>, labs: seq<string>)
    requires g.Valid() && AddEdgeTables(g, ts).Success? && LabelledInOrder(g.edges, g.edgeAttrs, labs)
    ensures LabelledInOrder(AddEdgeTables(g, ts).value.edges, AddEdgeTables(g, ts).value.edgeAttrs, labs + RowLabels(ts))
    decreases |ts|
  {
    if ts != [] {
      var ps := ParseRows(ts[0].table.cells).value;
      var h := AddRowEdges(g, ps, ts[0].lab);
      assert AddEdgeTables(g, ts) == AddEdgeTables(h, ts[1..]);
      AddRowEdgesInOrder(g, ps, ts[0].lab, labs);
      AddEdgeTablesInOrder(h, ts[1..], labs + seq(|ps|, _ => ts[0].lab));
      SeqAssoc(labs, seq(|ps|, _ => ts[0].lab), RowLabels(ts[1..]));
    }
  }

  /** The k-th edge of the graph carries exactly the label of the table of the k-th edge row. */
  lemma CsvToNxLabelOrder(c: CsvGraph)
    requires CsvToNxSpec(c).Success?
    ensures LabelledInOrder(CsvToNxSpec(c).value.edges, CsvToNxSpec(c).value.edgeAttrs, RowLabels(c.edges))
  {
    var h := AddNodeTables(EmptyGraph(), c.nodes).value;
    assert h.edges == [];
    AddEdgeTablesInOrder(h, c.edges, []);
    assert [] + RowLabels(c.edges) == RowLabels(c.edges);
  }

  /** Reading the tables succeeds exactly when every node cell is an integer and every edge cell a "src|dst" row. */
  lemma CsvToNxSucceeds(c: CsvGraph)
    ensures CsvToNxSpec(c).Success? <==>
              (forall i, k :: 0 <= i < |c.nodes| && 0 <= k < |c.nodes[i].table.cells| ==> ParseInt(c.nodes[i].table.cells[k]).Some?)
              && (forall i, k :: 0 <= i < |c.edges| && 0 <= k < |c.edges[i].table.cells| ==> ExtractSrcDst(c.edges[i].table.cells[k]).Success?)
  {
    AddNodeTablesSucceeds(EmptyGraph(), c.nodes);
    if AddNodeTables(EmptyGraph(), c.nodes).Success? {
      AddEdgeTablesSucceeds(AddNodeTables(EmptyGraph(), c.nodes).value, c.edges);
      RowTablesParse(c.edges);
    }
  }

  lemma {:induction false} AddNodeTablesSucceeds(g: Graph, ts: seq<CsvTable>)
    requires g.Valid()
    ensures AddNodeTables(g, ts).Success? <==>
              forall i, k :: 0 <= i < |ts| && 0 <= k < |ts[i].table.cells| ==> ParseInt(ts[i].table.cells[k]).Some?
    decreases |ts|
  {
    if ts != [] {
      ParseIdsAll(ts[0].table.cells);
      var rest := ts[1..];
      assert forall i :: 0 <= i < |rest| ==> rest[i] == ts[i + 1];
      if ParseIds(ts[0].table.cells).Success? {
        AddNodeTablesSucceeds(AddLabelledNodes(g, ParseIds(ts[0].table.cells).value, ts[0].lab), rest);
      }
    }
  }

  /** The edge tables are added exactly when every table's rows parse. */
  lemma {:induction false} AddEdgeTablesSucceeds(g: Graph, ts: seq<CsvTable>)
    requires g.Valid()
    ensures AddEdgeTables(g, ts).Success? <==> forall i :: 0 <= i < |ts| ==> ParseRows(ts[i].table.cells).Success?
    decreases |ts|
  {
    if ts != [] {
      var rest := ts[1..];
      var first := AddEdgeCells(g, ts[0].table.cells, ts[0].lab);
      assert AddEdgeTables(g, ts) == EdgeTablesAfter(first, rest);
      if first.Success? {
        AddEdgeTablesSucceeds(first.value, rest);
        RowsParseCons(ts);
      }
    }
  }

  /** Every table's rows parse exactly when the first table's do and every later table's do. */
  lemma RowsParseCons(ts: seq<CsvTable>)
    requires ts != []
    ensures (forall i :: 0 <= i < |ts| ==> ParseRows(ts[i].table.cells).Success?) <==>
              ParseRows(ts[0].table.cells).Success? && forall i :: 0 <= i < |ts[1..]| ==> ParseRows(ts[1..][i].table.cells).Success?
  {
    var rest := ts[1..];
    assert forall i :: 0 <= i < |rest| ==> rest[i] == ts[i + 1];
  }

  /** The pairs the rows of the edge tables name, table after table. */
  function RowPairs(ts: seq<CsvTable>): seq<(NodeId, NodeId)> {
    if ts == [] then []
    else
      (match ParseRows(ts[0].table.cells)
       case Success(ps) => ps
       case Failure(_) => [])
      + RowPairs(ts[1..])
  }

  /** The edges the edge tables add join the rows' pairs, in row order, after the old edges. */
  lemma {:induction false} AddEdgeTablesEnds(g: Graph, ts: seq<CsvTable>)
    requires g.Valid() && AddEdgeTables(g, ts).Success?
    ensures EndsOf(AddEdgeTables(g, ts).value.edges) == EndsOf(g.edges) + RowPairs(ts)
    decreases |ts|
  {
    if ts != [] {
      var ps := ParseRows(ts[0].table.cells).value;
      var h := AddRowEdges(g, ps, ts[0].lab);
      assert AddEdgeTables(g, ts) == AddEdgeTables(h, ts[1..]);
      AddEdgeTablesEnds(h, ts[1..]);
      SeqAssoc(EndsOf(g.edges), ps, RowPairs(ts[1..]));
    }
  }

  /** Every table's rows parse exactly when every row of every table is a "src|dst" pair. */
  lemma RowTablesParse(ts: seq<CsvTable>)
    ensures (forall i :: 0 <= i < |ts| ==> ParseRows(ts[i].table.cells).Success?) <==>
              forall i, k :: 0 <= i < |ts| && 0 <= k < |ts[i].table.cells| ==> ExtractSrcDst(ts[i].table.cells[k]).Success?
  {
    forall i | 0 <= i < |ts| {
      ParseRowsAll(ts[i].table.cells);
    }
  }

  /**
   * What `_csv_to_nx` returns: `DirectedGraph(G)` of the graph `G` the loops build, a copy with
   * the same nodes, edges and data whose edges are listed in edge-view order.
   */
  function CsvToNxResult(c: CsvGraph): (r: Result<Graph>)
    ensures r.Failure? <==> CsvToNxSpec(c).Failure?
    ensures r.Failure? ==> r.error == CsvToNxSpec(c).error
    ensures r.Success? ==> var h := CsvToNxSpec(c).value;
              && r.value.Valid() && r.value.nodes == h.nodes && r.value.nodeAttrs == h.nodeAttrs
              && r.value.edgeAttrs == h.edgeAttrs && |r.value.edges| == |h.edges|
  {
    match CsvToNxSpec(c)
    case Failure(e) => Failure(e)
    case Success(h) => Success(CopyOf(h))
  }

  /**
   * `_csv_to_nx(csv_graph)`: a new directed graph; for each node table, each cell read as
   * an integer id and `add_node(id, label=...)`; then for each edge table, each row's pair
   * and `add_edge(src, dst, label=...)`; the first bad cell ends it with its error.
   */
  method CsvToNx(c: CsvGraph) returns (r: Result<Graph>)
    ensures r == CsvToNxResult(c)
  {
    var graph := new DBGraph(NoId);
    assert c.nodes[0..] == c.nodes;
    for i := 0 to |c.nodes|
      invariant graph.Valid()
      invariant EdgeTablesAfter(AddNodeTables(graph.graph, c.nodes[i..]), c.edges) == CsvToNxSpec(c)
    {
      assert c.nodes[i..][0] == c.nodes[i] && c.nodes[i..][1..] == c.nodes[i + 1..];
      var err := AddNodeTableInto(graph, c.nodes[i].table.cells, c.nodes[i].lab);
      if err.Some? {
        return Failure(err.value);
      }
    }
    assert c.edges[0..] == c.edges;
    for i := 0 to |c.edges|
      invariant graph.Valid()
      invariant AddEdgeTables(graph.graph, c.edges[i..]) == CsvToNxSpec(c)
    {
      assert c.edges[i..][0] == c.edges[i] && c.edges[i..][1..] == c.edges[i + 1..];
      var err := AddEdgeTableInto(graph, c.edges[i].table.cells, c.edges[i].lab);
      if err.Some? {
        return Failure(err.value);
      }
    }
    var copy := graph.Copy();
    return Success(copy.graph);
  }

  /** The loop over the ids of one node table: `add_node` for each, in place; the first bad cell stops it. */
  method AddNodeTableInto(graph: DBGraph, cells: seq<string>, lab: string) returns (err: Option<Error>)
    requires graph.Valid()
    modifies graph
    ensures graph.Valid()
    ensures AddNodeCells(old(graph.graph), cells, lab) == if err.None? then Success(graph.graph) else Failure(err.value)
  {
    ghost var g0 := graph.graph;
    assert cells[0..] == cells;
    for k := 0 to |cells|
      invariant graph.Valid()
      invariant AddNodeCells(graph.graph, cells[k..], lab) == AddNodeCells(g0, cells, lab)
    {
      AddNodeCellsStep(graph.graph, cells, lab, k);
      var id := PyInt(cells[k]);
      if id.Failure? {
        return Some(id.error);
      }
      graph.AddNode(id.value, LabelAttrs(lab));
    }
    assert cells[|cells|..] == [];
    return None;
  }

  /** The loop over the rows of one edge table: `add_edge` for each, in place; the first bad row stops it. */
  method AddEdgeTableInto(graph: DBGraph, cells: seq<string>, lab: string) returns (err: Option<Error>)
    requires graph.Valid()
    modifies graph
    ensures graph.Valid()
    ensures AddEdgeCells(old(graph.graph), cells, lab) == if err.None? then Success(graph.graph) else Failure(err.value)
  {
    ghost var g0 := graph.graph;
    assert cells[0..] == cells;
    for k := 0 to |cells|
      invariant graph.Valid()
      invariant AddEdgeCells(graph.graph, cells[k..], lab) == AddEdgeCells(g0, cells, lab)
    {
      AddEdgeCellsStep(graph.graph, cells, lab, k);
      var pair := ExtractSrcDst(cells[k]);
      if pair.Failure? {
        return Some(pair.error);
      }
      var _ := graph.AddEdge(pair.value.0, pair.value.1, LabelAttrs(lab));
    }
    assert cells[|cells|..] == [];
    return None;
  }

  /** `read(folder_path)`: the tables of the folder's ".csv" files, then the graph built from them. */
  method Read(listing: seq<(string, Table)>) returns (r: Result<Graph>)
    ensures r == match CollectFrom(CsvGraph([], []), CsvFiles(listing))
                 case Failure(e) => Failure(e)
                 case Success(c) => CsvToNxResult(c)
  {
    var tables := ReadCsvGraph(listing);
    if tables.Failure? {
      return Failure(tables.error);
    }
    r := CsvToNx(tables.value);
  }
}
