/**
 * `DataGraphReader` (reader/data.py): reads the ".data" text form back into graphs.  The file
 * is given as the list `readlines()` returns, each line keeping its newline.
 */
module DataReader {
  import opened Wrappers
  import opened PyStr
  import opened Multigraph
  import opened DbGraph
  import opened Database

  /** `_line_is_graph_header`: the line starts with "t #". */
  predicate LineIsGraphHeader(line: string) {
    StartsWith(line, "t #")
  }

  /** `_line_is_node`: the line starts with "v ". */
  predicate LineIsNode(line: string) {
    StartsWith(line, "v ")
  }

  /** `_line_is_edge`: the line starts with "e ". */
  predicate LineIsEdge(line: string) {
    StartsWith(line, "e ")
  }

  /** A line is at most one of header, node and edge line. */
  lemma LineClassesExclusive(line: string)
    ensures !(LineIsGraphHeader(line) && LineIsNode(line))
    ensures !(LineIsGraphHeader(line) && LineIsEdge(line))
    ensures !(LineIsNode(line) && LineIsEdge(line))
  {
    if LineIsGraphHeader(line) {
      assert line[0] == "t #"[0];
    }
    if LineIsNode(line) {
      assert line[0] == "v "[0];
    }
  }

  /** A line starting with a letter and a space splits into that letter first. */
  lemma {:induction false} LeadingToken(line: string, c: char)
    requires !IsSpace(c) && StartsWith(line, [c, ' '])
    ensures |SplitWs(line)| >= 1 && SplitWs(line)[0] == [c]
  {
    var rest := line[2..];
    assert line == [c] + [' '] + rest;
    SplitWsWord([c], ' ', rest);
  }

  /**
   * `_extract_graph_id`: the third whitespace-separated token of a header "t # id", as text;
   * a `ValueError` unless the line has at least three tokens, the first two "t" and "#".
   */
  function ExtractGraphId(line: string): (r: Result<string>)
    ensures r.Success? <==> |SplitWs(line)| >= 3 && SplitWs(line)[0] == "t" && SplitWs(line)[1] == "#"
    ensures r.Success? ==> r.value == SplitWs(line)[2] && IsToken(r.value)
    ensures r.Failure? ==> r.error == ValueError("Invalid graph header line format")
  {
    SplitWsStrip(line);
    var parts := SplitWs(Strip(line));
    if |parts| >= 3 && parts[0] == "t" && parts[1] == "#" then Success(parts[2])
    else Failure(ValueError("Invalid graph header line format"))
  }

  /**
   * `_extract_node`: the id (the second token, as an integer) and the labels (every token
   * after it, possibly none); a `ValueError` for fewer than two tokens or a first token other
   * than "v", and `int()`'s `ValueError` for an id that is not an integer.
   */
  function ExtractNode(line: string): (r: Result<(int, seq<string>)>)
    ensures var ps := SplitWs(line);
              r.Success? <==> |ps| >= 2 && ps[0] == "v" && ParseIntToken(ps[1]).Some?
    ensures var ps := SplitWs(line);
              r.Success? ==> r.value == (ParseIntToken(ps[1]).value, ps[2..])
    ensures r.Success? ==> forall i :: 0 <= i < |r.value.1| ==> IsToken(r.value.1[i])
    ensures var ps := SplitWs(line);
              r.Failure? ==> r.error == if |ps| >= 2 && ps[0] == "v" then IntError(ps[1])
                                        else ValueError("Invalid node line format")
  {
    SplitWsStrip(line);
    var parts := SplitWs(Strip(line));
    if |parts| >= 2 && parts[0] == "v" then
      StripToken(parts[1]);
      match PyInt(parts[1])
      case Failure(e) => Failure(e)
      case Success(id) =>
        var labels := if |parts| > 2 then parts[2..] else [];
        assert labels == parts[2..];
        Success((id, labels))
    else Failure(ValueError("Invalid node line format"))
  }

  /**
   * `_extract_edge`: source and destination (the second and third tokens, as integers) and
   * the labels (every token after them, possibly none).  A line with no token at all fails
   * on `parts[0]` with an `IndexError`; fewer than three tokens or a first token other than
   * "e" is a `ValueError`, and so is an endpoint that is not an integer (the source is read
   * first).
   */
  function ExtractEdge(line: string): (r: Result<(int, int, seq<string>)>)
    ensures SplitWs(line) == [] ==> r == Failure(IndexError)
    ensures var ps := SplitWs(line);
              r.Success? <==> |ps| >= 3 && ps[0] == "e" && ParseIntToken(ps[1]).Some? && ParseIntToken(ps[2]).Some?
    ensures var ps := SplitWs(line);
              r.Success? ==> r.value == (ParseIntToken(ps[1]).value, ParseIntToken(ps[2]).value, ps[3..])
    ensures r.Success? ==> forall i :: 0 <= i < |r.value.2| ==> IsToken(r.value.2[i])
    ensures var ps := SplitWs(line);
              r.Failure? && ps != [] ==>
                r.error == if !(ps[0] == "e" && |ps| >= 3) then ValueError("Invalid edge line format")
                           else if ParseIntToken(ps[1]).None? then IntError(ps[1])
                           else IntError(ps[2])
  {
    SplitWsStrip(line);
    var parts := SplitWs(Strip(line));
    if parts == [] then Failure(IndexError)
    else if parts[0] == "e" && |parts| >= 3 then
      StripToken(parts[1]);
      StripToken(parts[2]);
      match PyInt(parts[1])
      case Failure(e) => Failure(e)
      case Success(src) =>
        match PyInt(parts[2])
        case Failure(e) => Failure(e)
        case Success(dst) => Success((src, dst, if |parts| > 3 then parts[3..] else []))
    else Failure(ValueError("Invalid edge line format"))
  }

  /** Node and edge lines split into their letter first, so `parts[0]` never fails on an edge line. */
  lemma ClassifiedLinesLead(line: string)
    ensures LineIsNode(line) ==> |SplitWs(line)| >= 1 && SplitWs(line)[0] == "v"
    ensures LineIsEdge(line) ==> |SplitWs(line)| >= 1 && SplitWs(line)[0] == "e" && ExtractEdge(line) != Failure(IndexError)
  {
    if LineIsNode(line) {
      LeadingToken(line, 'v');
    }
    if LineIsEdge(line) {
      LeadingToken(line, 'e');
    }
  }

  /** The attributes `add_node(node_id, labels=labels)` sets. */
  function NodeAttrs(labels: seq<string>): Attrs {
    map["labels" := StrList(labels)]
  }

  /** The attributes `add_edge(src, dst, label=label)` sets. */
  function EdgeAttrs(lab: string): Attrs {
    map["label" := Str(lab)]
  }

  /**
   * `for label in labels: graph.add_edge(u, v, label=label)`: one new parallel edge u -> v per
   * label, in order, each carrying its label; nothing else changes, and the endpoints become
   * nodes when there is at least one label.
   */
  function AddLabelledEdges(g: Graph, u: NodeId, v: NodeId, labels: seq<string>): (r: Graph)
    requires g.Valid()
    ensures r.Valid()
    ensures |r.edges| == |g.edges| + |labels| && r.edges[..|g.edges|] == g.edges
    ensures forall e :: e in g.edgeAttrs ==> e in r.edgeAttrs && r.edgeAttrs[e] == g.edgeAttrs[e]
    ensures r.nodeAttrs.Keys == g.nodeAttrs.Keys + (if labels == [] then {} else {u, v})
    ensures forall n :: n in g.nodeAttrs ==> r.nodeAttrs[n] == g.nodeAttrs[n]
    ensures NewEdgesLabelled(g, r, u, v, labels)
    decreases |labels|
  {
    if labels == [] then g
    else
      var h := AddLabelledEdges(g, u, v, labels[..|labels| - 1]);
      AddEdgeValid(h, u, v, EdgeAttrs(labels[|labels| - 1]));
      var r := h.AddEdge(u, v, EdgeAttrs(labels[|labels| - 1]));
      NewEdgesSnoc(g, h, r, u, v, labels);
      r
  }

  /** Adding the edge of the last label to the edges of the others gives the edges of all of them. */
  lemma NewEdgesSnoc(g: Graph, h: Graph, r: Graph, u: NodeId, v: NodeId, labels: seq<string>)
    requires h.Valid() && labels != [] && |h.edges| == |g.edges| + |labels| - 1
    requires NewEdgesLabelled(g, h, u, v, labels[..|labels| - 1])
    requires r == h.AddEdge(u, v, EdgeAttrs(labels[|labels| - 1]))
    ensures NewEdgesLabelled(g, r, u, v, labels)
  {
    NewEdgesAppend(g, h, r, EdgeId(u, v, h.NewEdgeKey(u, v)), u, v, labels);
  }

  /** The same, stated on the edge lists and edge maps alone. */
  lemma NewEdgesAppend(g: Graph, h: Graph, r: Graph, e: EdgeId, u: NodeId, v: NodeId, labels: seq<string>)
    requires labels != [] && |h.edges| == |g.edges| + |labels| - 1
    requires NewEdgesLabelled(g, h, u, v, labels[..|labels| - 1])
    requires e.src == u && e.dst == v && e !in h.edges
    requires r.edges == h.edges + [e] && r.edgeAttrs == h.edgeAttrs[e := EdgeAttrs(labels[|labels| - 1])]
    ensures NewEdgesLabelled(g, r, u, v, labels)
  {
    var m := |labels| - 1;
    forall k | 0 <= k < |labels|
      ensures NewEdgeLabelled(g, r, u, v, labels, k)
    {
      var i := |g.edges| + k;
      if k < m {
        assert NewEdgeLabelled(g, h, u, v, labels[..m], k);
        assert h.edges[i] in h.edges;
        assert r.edges[i] == h.edges[i];
      } else {
        assert r.edges[i] == e;
      }
    }
  }

  /** The edges of `r` after those of `g` join `u` to `v`, one per label, each carrying its own label. */
  ghost predicate NewEdgesLabelled(g: Graph, r: Graph, u: NodeId, v: NodeId, labels: seq<string>) {
    forall k :: 0 <= k < |labels| ==> NewEdgeLabelled(g, r, u, v, labels, k)
  }

  /** The `k`-th edge of `r` after those of `g` joins `u` to `v` and carries the `k`-th label. */
  ghost predicate NewEdgeLabelled(g: Graph, r: Graph, u: NodeId, v: NodeId, labels: seq<string>, k: nat)
    requires k < |labels|
  {
    && |g.edges| + k < |r.edges|
    && r.edges[|g.edges| + k].src == u && r.edges[|g.edges| + k].dst == v
    && r.edges[|g.edges| + k] in r.edgeAttrs && r.edgeAttrs[r.edges[|g.edges| + k]] == EdgeAttrs(labels[k])
  }

  /** The edge `add_edge` appends joins `u` to `v` and carries `attrs`. */
  lemma AddEdgeLast(h: Graph, u: NodeId, v: NodeId, attrs: Attrs)
    requires h.Valid()
    ensures var r := h.AddEdge(u, v, attrs);
            r.edges[|h.edges|].src == u && r.edges[|h.edges|].dst == v
            && r.edges[|h.edges|] in r.edgeAttrs && r.edgeAttrs[r.edges[|h.edges|]] == attrs
  {
  }

  /**
   * One line of `read` (`keepUnlabelled` false) or, for a line that is not a header, of
   * `read_db` (`keepUnlabelled` true) applied to the graph the line goes to: a node line adds
   * the node with its `labels`, an edge line adds one edge per label, and for `read_db` an
   * edge line without labels adds one edge without data.  Any other line changes nothing.
   */
  function ReadLine(g: Graph, line: string, keepUnlabelled: bool): (r: Result<Graph>)
    requires g.Valid()
    ensures r.Success? ==> r.value.Valid()
    ensures !LineIsNode(line) && !LineIsEdge(line) ==> r == Success(g)
  {
    if LineIsNode(line) then
      match ExtractNode(line)
      case Failure(e) => Failure(e)
      case Success(p) =>
        AddNodeValid(g, p.0, NodeAttrs(p.1));
        Success(g.AddNode(p.0, NodeAttrs(p.1)))
    else if LineIsEdge(line) then
      match ExtractEdge(line)
      case Failure(e) => Failure(e)
      case Success(t) => Success(EdgeLineGraph(g, t.0, t.1, t.2, keepUnlabelled))
    else Success(g)
  }

  /** Whether a line is read without error does not depend on the graph it is read into. */
  lemma ReadLineFailsAlike(g1: Graph, g2: Graph, line: string, keepUnlabelled: bool)
    requires g1.Valid() && g2.Valid()
    ensures ReadLine(g1, line, keepUnlabelled).Success? == ReadLine(g2, line, keepUnlabelled).Success?
    ensures ReadLine(g1, line, keepUnlabelled).Failure? ==>
              ReadLine(g1, line, keepUnlabelled).error == ReadLine(g2, line, keepUnlabelled).error
  {
  }

  /**
   * A node line sets the node's `labels` to the line's label list, merged into the attributes
   * the node already had, and adds no edge.
   */
  lemma ReadNodeLine(g: Graph, line: string, keepUnlabelled: bool)
    requires g.Valid() && LineIsNode(line) && ExtractNode(line).Success?
    ensures var (n, labels) := ExtractNode(line).value;
            var r := ReadLine(g, line, keepUnlabelled);
            r.Success? && n in r.value.nodeAttrs && r.value.nodeAttrs[n]["labels"] == StrList(labels)
            && r.value.edges == g.edges && r.value.edgeAttrs == g.edgeAttrs
  {
  }

  /**
   * `r` is `g` after an edge line u -> v with `labels`: n labels add n parallel edges u -> v,
   * one per label, after the edges already there; no label adds one edge without data when
   * `keep` holds and nothing otherwise.  Edges already there keep their data.
   */
  ghost predicate EdgeLineAdded(g: Graph, r: Graph, u: NodeId, v: NodeId, labels: seq<string>, keep: bool) {
    && |r.edges| == |g.edges| + (if labels == [] && keep then 1 else |labels|)
    && r.edges[..|g.edges|] == g.edges
    && (forall e :: e in g.edgeAttrs ==> e in r.edgeAttrs && r.edgeAttrs[e] == g.edgeAttrs[e])
    && NewEdgesLabelled(g, r, u, v, labels)
    && (labels == [] && keep ==>
          r.edges[|g.edges|].src == u && r.edges[|g.edges|].dst == v
          && r.edges[|g.edges|] in r.edgeAttrs && r.edgeAttrs[r.edges[|g.edges|]] == map[])
  }

  /** The graph an edge line leaves: the unlabelled edge when kept, then one edge per label. */
  function EdgeLineGraph(g: Graph, u: NodeId, v: NodeId, labels: seq<string>, keep: bool): (r: Graph)
    requires g.Valid()
    ensures EdgeLineAdded(g, r, u, v, labels, keep)
  {
    AddEdgeValid(g, u, v, map[]);
    var h := if labels == [] && keep then g.AddEdge(u, v, map[]) else g;
    var r := AddLabelledEdges(h, u, v, labels);
    if labels == [] && keep then
      AddEdgeLast(g, u, v, map[]);
      AddEdgeKeepsPrefix(g, u, v, map[]);
      assert EdgeId(u, v, g.NewEdgeKey(u, v)) !in g.edgeAttrs;
      r
    else
      r
  }

  /** An edge line of `read` (`keepUnlabelled` false) or `read_db` (true) adds its edges as `EdgeLineAdded` says. */
  lemma ReadEdgeLine(g: Graph, line: string, keepUnlabelled: bool, u: NodeId, v: NodeId, labels: seq<string>)
    requires g.Valid() && LineIsEdge(line) && ExtractEdge(line) == Success((u, v, labels))
    ensures ReadLine(g, line, keepUnlabelled).Success?
    ensures EdgeLineAdded(g, ReadLine(g, line, keepUnlabelled).value, u, v, labels, keepUnlabelled)
  {
    LineClassesExclusive(line);
  }

  /** `read`'s loop, from graph `g` on the remaining lines. */
  function ReadFrom(g: Graph, lines: seq<string>): (r: Result<Graph>)
    requires g.Valid()
    ensures r.Success? ==> r.value.Valid()
    decreases |lines|
  {
    if lines == [] then Success(g)
    else match ReadLine(g, lines[0], false)
      case Failure(e) => Failure(e)
      case Success(h) => ReadFrom(h, lines[1..])
  }

  lemma ReadFromStep(g: Graph, lines: seq<string>, i: nat)
    requires g.Valid() && i < |lines|
    ensures ReadLine(g, lines[i], false).Failure? ==>
              ReadFrom(g, lines[i..]) == Failure(ReadLine(g, lines[i], false).error)
    ensures ReadLine(g, lines[i], false).Success? ==>
              ReadFrom(g, lines[i..]) == ReadFrom(ReadLine(g, lines[i], false).value, lines[i + 1..])
  {
    assert lines[i..][0] == lines[i];
    assert lines[i..][1..] == lines[i + 1..];
  }

  /**
   * One line applied to `graph` in place, by its `add_node`/`add_edge`: the line's error, or
   * nothing with the graph now as `ReadLine` gives it.
   */
  method ApplyLine(graph: DBGraph, line: string, keepUnlabelled: bool) returns (err: Option<Error>)
    requires graph.Valid()
    modifies graph
    ensures graph.Valid() && graph.graphId == old(graph.graphId)
    ensures err.None? <==> ReadLine(old(graph.graph), line, keepUnlabelled).Success?
    ensures err.Some? ==> err.value == ReadLine(old(graph.graph), line, keepUnlabelled).error
    ensures err.None? ==> graph.graph == ReadLine(old(graph.graph), line, keepUnlabelled).value
  {
    if LineIsNode(line) {
      var node := ExtractNode(line);
      if node.Failure? {
        return Some(node.error);
      }
      graph.AddNode(node.value.0, NodeAttrs(node.value.1));
    } else if LineIsEdge(line) {
      var edge := ExtractEdge(line);
      if edge.Failure? {
        return Some(edge.error);
      }
      AddEdgesOfLine(graph, edge.value.0, edge.value.1, edge.value.2, keepUnlabelled);
    }
    return None;
  }

  /**
   * The edges of one edge line added in place: for `read_db`, one edge without data when
   * there is no label, then one edge per label.
   */
  method AddEdgesOfLine(graph: DBGraph, src: NodeId, dst: NodeId, labels: seq<string>, keepUnlabelled: bool)
    requires graph.Valid()
    modifies graph
    ensures graph.Valid() && graph.graphId == old(graph.graphId)
    ensures graph.graph == AddLabelledEdges(if labels == [] && keepUnlabelled then old(graph.graph).AddEdge(src, dst, map[])
                                            else old(graph.graph), src, dst, labels)
  {
    if labels == [] && keepUnlabelled {
      var key := graph.AddEdge(src, dst, map[]);
    }
    ghost var h := graph.graph;
    assert labels[..0] == [];
    for k := 0 to |labels|
      invariant graph.Valid() && graph.graphId == old(graph.graphId)
      invariant graph.graph == AddLabelledEdges(h, src, dst, labels[..k])
    {
      AddLabelledStep(h, src, dst, labels, k);
      var key := graph.AddEdge(src, dst, EdgeAttrs(labels[k]));
    }
    assert labels[..|labels|] == labels;
  }

  lemma AddLabelledStep(h: Graph, u: NodeId, v: NodeId, labels: seq<string>, k: nat)
    requires h.Valid() && k < |labels|
    ensures AddLabelledEdges(h, u, v, labels[..k + 1]) == AddLabelledEdges(h, u, v, labels[..k]).AddEdge(u, v, EdgeAttrs(labels[k]))
  {
    assert labels[..k + 1][..k] == labels[..k];
  }

  /** `read(path)` on the file's lines: a new graph holding every node and labelled edge they list. */
  method Read(lines: seq<string>) returns (r: Result<Graph>)
    ensures r == ReadFrom(EmptyGraph(), lines)
  {
    var graph := new DBGraph(NoId);
    assert lines[0..] == lines;
    for i := 0 to |lines|
      invariant graph.Valid()
      invariant ReadFrom(graph.graph, lines[i..]) == ReadFrom(EmptyGraph(), lines)
    {
      ReadFromStep(graph.graph, lines, i);
      var err := ApplyLine(graph, lines[i], false);
      if err.Some? {
        return Failure(err.value);
      }
    }
    return Success(graph.graph);
  }

  /**
   * What `read_db`'s loop holds between lines: the graph node and edge lines go to before the
   * first header (never stored), and the (id, graph) pairs of the database so far.
   */
  datatype DbState = DbState(scratch: Graph, entries: seq<(string, Graph)>)

  ghost predicate StateValid(st: DbState) {
    st.scratch.Valid() && forall k :: 0 <= k < |st.entries| ==> st.entries[k].1.Valid()
  }

  /** The graph `graph` refers to: the last one added, or the scratch graph before any header. */
  function Current(st: DbState): Graph {
    if st.entries == [] then st.scratch else st.entries[|st.entries| - 1].1
  }

  function SetCurrent(st: DbState, g: Graph): DbState {
    if st.entries == [] then DbState(g, [])
    else DbState(st.scratch, st.entries[|st.entries| - 1 := (st.entries[|st.entries| - 1].0, g)])
  }

  /** One line of `read_db`: a header starts a new empty graph with its id; any other line goes to the current graph. */
  function ReadDbLine(st: DbState, line: string): (r: Result<DbState>)
    requires StateValid(st)
    ensures r.Success? ==> StateValid(r.value)
  {
    if LineIsGraphHeader(line) then
      match ExtractGraphId(line)
      case Failure(e) => Failure(e)
      case Success(id) => Success(DbState(st.scratch, st.entries + [(id, EmptyGraph())]))
    else
      match ReadLine(Current(st), line, true)
      case Failure(e) => Failure(e)
      case Success(g) => Success(SetCurrent(st, g))
  }

  function ReadDbFrom(st: DbState, lines: seq<string>): (r: Result<DbState>)
    requires StateValid(st)
    ensures r.Success? ==> StateValid(r.value)
    decreases |lines|
  {
    if lines == [] then Success(st)
    else match ReadDbLine(st, lines[0])
      case Failure(e) => Failure(e)
      case Success(st') => ReadDbFrom(st', lines[1..])
  }

  /** `read_db` on the file's lines, as (id, graph) pairs. */
  function ReadDbSpec(lines: seq<string>): (r: Result<DbState>)
    ensures r.Success? ==> StateValid(r.value)
  {
    ReadDbFrom(DbState(EmptyGraph(), []), lines)
  }

  lemma ReadDbFromStep(st: DbState, lines: seq<string>, i: nat)
    requires StateValid(st) && i < |lines|
    ensures ReadDbLine(st, lines[i]).Failure? ==>
              ReadDbFrom(st, lines[i..]) == Failure(ReadDbLine(st, lines[i]).error)
    ensures ReadDbLine(st, lines[i]).Success? ==>
              ReadDbFrom(st, lines[i..]) == ReadDbFrom(ReadDbLine(st, lines[i]).value, lines[i + 1..])
  {
    assert lines[i..][0] == lines[i];
    assert lines[i..][1..] == lines[i + 1..];
  }

  /** The ids of the entries, in order. */
  function Ids(es: seq<(string, Graph)>): (r: seq<string>)
    ensures |r| == |es| && forall k :: 0 <= k < |es| ==> r[k] == es[k].0
  {
    if es == [] then [] else Ids(es[..|es| - 1]) + [es[|es| - 1].0]
  }

  /** The ids the header lines among `lines` carry, in order (a header in error has none). */
  function HeaderIds(lines: seq<string>): seq<string> {
    if lines == [] then []
    else
      (if LineIsGraphHeader(lines[0]) && ExtractGraphId(lines[0]).Success? then [ExtractGraphId(lines[0]).value] else [])
      + HeaderIds(lines[1..])
  }

  /**
   * Reading goes on with one more graph per header line, with that header's id, in file
   * order; the graphs already there keep their ids.
   */
  lemma {:induction false} ReadDbFromIds(st: DbState, lines: seq<string>)
    requires StateValid(st) && ReadDbFrom(st, lines).Success?
    ensures Ids(ReadDbFrom(st, lines).value.entries) == Ids(st.entries) + HeaderIds(lines)
    decreases |lines|
  {
    if lines != [] {
      var st' := ReadDbLine(st, lines[0]).value;
      ReadDbFromIds(st', lines[1..]);
      ReadDbLineIds(st, lines[0]);
      var h := if LineIsGraphHeader(lines[0]) then [ExtractGraphId(lines[0]).value] else [];
      HeaderIdsCons(lines);
      SeqAssoc(Ids(st.entries), h, HeaderIds(lines[1..]));
    } else {
      assert HeaderIds(lines) == [];
    }
  }

  lemma HeaderIdsCons(lines: seq<string>)
    requires lines != [] && (LineIsGraphHeader(lines[0]) ==> ExtractGraphId(lines[0]).Success?)
    ensures HeaderIds(lines) == (if LineIsGraphHeader(lines[0]) then [ExtractGraphId(lines[0]).value] else []) + HeaderIds(lines[1..])
  {
  }

  /** A header line adds its id after the others; any other line keeps the ids. */
  lemma ReadDbLineIds(st: DbState, line: string)
    requires StateValid(st) && ReadDbLine(st, line).Success?
    ensures Ids(ReadDbLine(st, line).value.entries)
              == Ids(st.entries) + if LineIsGraphHeader(line) then [ExtractGraphId(line).value] else []
  {
    var st' := ReadDbLine(st, line).value;
    if LineIsGraphHeader(line) {
      IdsSnoc(st.entries, (ExtractGraphId(line).value, EmptyGraph()));
    } else {
      SetCurrentIds(st, ReadLine(Current(st), line, true).value);
    }
  }

  lemma IdsSnoc(es: seq<(string, Graph)>, x: (string, Graph))
    ensures Ids(es + [x]) == Ids(es) + [x.0]
  {
    assert (es + [x])[..|es|] == es;
  }

  /** Replacing the current graph keeps the ids. */
  lemma SetCurrentIds(st: DbState, g: Graph)
    ensures Ids(SetCurrent(st, g).entries) == Ids(st.entries)
  {
    var a, b := SetCurrent(st, g).entries, st.entries;
    assert |a| == |b|;
    assert forall k :: 0 <= k < |a| ==> a[k].0 == b[k].0;
  }

  /**
   * A line `read_db` accepts in any state: a header whose id can be extracted, a node or
   * edge line that parses, or any other line (which is skipped).
   */
  predicate LineReads(line: string) {
    if LineIsGraphHeader(line) then ExtractGraphId(line).Success?
    else if LineIsNode(line) then ExtractNode(line).Success?
    else if LineIsEdge(line) then ExtractEdge(line).Success?
    else true
  }

  /** One line is read exactly when it is a line `read_db` accepts, whatever the state. */
  lemma ReadDbLineReads(st: DbState, line: string)
    requires StateValid(st)
    ensures ReadDbLine(st, line).Success? <==> LineReads(line)
  {
  }

  /** `read_db` succeeds on a file exactly when it accepts every one of its lines. */
  lemma {:induction false} ReadDbFromReads(st: DbState, lines: seq<string>)
    requires StateValid(st)
    ensures ReadDbFrom(st, lines).Success? <==> forall k :: 0 <= k < |lines| ==> LineReads(lines[k])
    decreases |lines|
  {
    if lines != [] {
      ReadDbLineReads(st, lines[0]);
      var rest := lines[1..];
      assert forall k :: 0 <= k < |rest| ==> rest[k] == lines[k + 1];
      if ReadDbLine(st, lines[0]).Success? {
        ReadDbFromReads(ReadDbLine(st, lines[0]).value, rest);
      }
    }
  }

  /** `read_db` makes exactly one graph per header line, with that header's id, in file order. */
  lemma ReadDbGraphPerHeader(lines: seq<string>)
    requires ReadDbSpec(lines).Success?
    ensures Ids(ReadDbSpec(lines).value.entries) == HeaderIds(lines)
    ensures |ReadDbSpec(lines).value.entries| == |HeaderIds(lines)|
  {
    ReadDbFromIds(DbState(EmptyGraph(), []), lines);
  }

  /** Reading `a + b` is reading `a`, then `b` from where `a` left off. */
  lemma {:induction false} ReadDbFromAppend(st: DbState, a: seq<string>, b: seq<string>)
    requires StateValid(st)
    ensures ReadDbFrom(st, a + b) == match ReadDbFrom(st, a)
                                     case Failure(e) => Failure(e)
                                     case Success(st') => ReadDbFrom(st', b)
    decreases |a|
  {
    if a == [] {
      assert a + b == b;
    } else {
      assert (a + b)[0] == a[0];
      assert (a + b)[1..] == a[1..] + b;
      if ReadDbLine(st, a[0]).Success? {
        ReadDbFromAppend(ReadDbLine(st, a[0]).value, a[1..], b);
      }
    }
  }

  /**
   * What lines before the first header do to the scratch graph never reaches the database:
   * from any two scratch graphs, reading fails alike and makes the same graphs.
   */
  lemma {:induction false} ScratchIrrelevant(s1: Graph, s2: Graph, es: seq<(string, Graph)>, lines: seq<string>)
    requires StateValid(DbState(s1, es)) && StateValid(DbState(s2, es))
    ensures ReadDbFrom(DbState(s1, es), lines).Success? == ReadDbFrom(DbState(s2, es), lines).Success?
    ensures ReadDbFrom(DbState(s1, es), lines).Success? ==>
              ReadDbFrom(DbState(s1, es), lines).value.entries == ReadDbFrom(DbState(s2, es), lines).value.entries
    decreases |lines|
  {
    if lines != [] {
      var l := lines[0];
      ScratchStep(s1, s2, es, l);
      var r1, r2 := ReadDbLine(DbState(s1, es), l), ReadDbLine(DbState(s2, es), l);
      if r1.Success? {
        var t1, t2 := r1.value, r2.value;
        assert t2 == DbState(t2.scratch, t1.entries);
        ScratchIrrelevant(t1.scratch, t2.scratch, t1.entries, lines[1..]);
        ReadDbFromCons(DbState(s1, es), lines, t1);
        ReadDbFromCons(DbState(s2, es), lines, t2);
      } else {
        ReadDbFromStops(DbState(s1, es), lines);
        ReadDbFromStops(DbState(s2, es), lines);
      }
    }
  }

  /** One line fails alike, and adds the same graphs, whatever the scratch graph. */
  lemma ScratchStep(s1: Graph, s2: Graph, es: seq<(string, Graph)>, l: string)
    requires StateValid(DbState(s1, es)) && StateValid(DbState(s2, es))
    ensures ReadDbLine(DbState(s1, es), l).Success? == ReadDbLine(DbState(s2, es), l).Success?
    ensures ReadDbLine(DbState(s1, es), l).Success? ==>
              ReadDbLine(DbState(s1, es), l).value.entries == ReadDbLine(DbState(s2, es), l).value.entries
  {
    if !LineIsGraphHeader(l) && es == [] {
      ReadLineFailsAlike(s1, s2, l, true);
    }
  }

  /** After a line that reads, reading goes on from the state it leaves. */
  lemma ReadDbFromCons(st: DbState, lines: seq<string>, st': DbState)
    requires StateValid(st) && lines != [] && ReadDbLine(st, lines[0]) == Success(st')
    ensures ReadDbFrom(st, lines) == ReadDbFrom(st', lines[1..])
  {
  }

  /** A line that fails stops the reading. */
  lemma ReadDbFromStops(st: DbState, lines: seq<string>)
    requires StateValid(st) && lines != [] && ReadDbLine(st, lines[0]).Failure?
    ensures ReadDbFrom(st, lines) == Failure(ReadDbLine(st, lines[0]).error)
  {
  }

  /** Node and edge lines before the first header are read (and may fail) but leave no graph behind. */
  lemma DiscardedBeforeHeader(pre: seq<string>, post: seq<string>)
    requires forall i :: 0 <= i < |pre| ==> !LineIsGraphHeader(pre[i])
    requires ReadDbSpec(pre + post).Success?
    ensures ReadDbSpec(pre).Success? && ReadDbSpec(pre).value.entries == []
    ensures ReadDbSpec(post).Success? && ReadDbSpec(pre + post).value.entries == ReadDbSpec(post).value.entries
  {
    var init := DbState(EmptyGraph(), []);
    ReadDbFromAppend(init, pre, post);
    ReadDbFromIds(init, pre);
    NoHeaderIds(pre);
    var mid := ReadDbFrom(init, pre).value;
    assert mid == DbState(mid.scratch, []);
    ScratchIrrelevant(mid.scratch, EmptyGraph(), [], post);
  }

  lemma {:induction false} NoHeaderIds(lines: seq<string>)
    requires forall i :: 0 <= i < |lines| ==> !LineIsGraphHeader(lines[i])
    ensures HeaderIds(lines) == []
    decreases |lines|
  {
    if lines != [] {
      NoHeaderIds(lines[1..]);
    }
  }

  /** The database's graphs are distinct objects holding the ids and graphs of `es`, in order. */
  ghost predicate Holds(gs: seq<DBGraph>, es: seq<(string, Graph)>)
    reads set k | 0 <= k < |gs| :: gs[k]
  {
    |gs| == |es| && Distinct(gs)
    && forall k :: 0 <= k < |gs| ==> gs[k].graphId == StrId(es[k].0) && gs[k].graph == es[k].1
  }

  /**
   * `db` and `graph` as `read_db` holds them for state `st`: the database's graphs hold the
   * entries, and `graph` is the last of them, or the scratch graph before any header.
   */
  ghost predicate Loaded(db: DBGraphs, graph: DBGraph, st: DbState)
    reads db, graph, set k | 0 <= k < |db.graphs| :: db.graphs[k]
  {
    StateValid(st) && graph.Valid() && graph.graph == Current(st) && Holds(db.graphs, st.entries)
    && (st.entries != [] ==> |db.graphs| > 0 && graph == db.graphs[|db.graphs| - 1])
  }

  /** A header line: `graph = DBGraph(graph_id=graph_id)` and `db.add_graph(graph)`. */
  method ReadHeader(db: DBGraphs, graph: DBGraph, line: string, ghost st: DbState)
      returns (err: Option<Error>, graph': DBGraph, ghost st': DbState)
    requires Loaded(db, graph, st) && LineIsGraphHeader(line)
    modifies db
    ensures err.None? <==> ReadDbLine(st, line).Success?
    ensures err.Some? ==> err.value == ReadDbLine(st, line).error
    ensures err.None? ==> st' == ReadDbLine(st, line).value && Loaded(db, graph', st')
    ensures err.None? ==> fresh(graph') && db.graphs == old(db.graphs) + [graph']
  {
    graph', st' := graph, st;
    var id := ExtractGraphId(line);
    if id.Failure? {
      return Some(id.error), graph', st';
    }
    graph' := new DBGraph(StrId(id.value));
    db.AddGraph(graph');
    st' := DbState(st.scratch, st.entries + [(id.value, EmptyGraph())]);
    err := None;
  }

  /** A node or edge line (or any other) read into the current graph, in place. */
  method ReadIntoCurrent(db: DBGraphs, graph: DBGraph, line: string, ghost st: DbState)
      returns (err: Option<Error>, ghost st': DbState)
    requires Loaded(db, graph, st) && !LineIsGraphHeader(line)
    modifies graph
    ensures err.None? <==> ReadDbLine(st, line).Success?
    ensures err.Some? ==> err.value == ReadDbLine(st, line).error
    ensures err.None? ==> st' == ReadDbLine(st, line).value && Loaded(db, graph, st')
  {
    ghost var gs := db.graphs;
    assert HoldsBeforeLast(gs, st.entries, graph, graph.graphId);
    assert st.entries != [] ==> forall k :: 0 <= k < |gs| - 1 ==> gs[k] != graph;
    err := ReadIntoGraph(graph, line, st);
    st' := st;
    if err.None? {
      st' := SetCurrent(st, graph.graph);
      LoadedSetCurrent(db, graph, st);
    }
  }

  /** The line read into `graph`, which holds the current graph of `st`: the state's next step, done in place. */
  method ReadIntoGraph(graph: DBGraph, line: string, ghost st: DbState) returns (err: Option<Error>)
    requires StateValid(st) && graph.Valid() && graph.graph == Current(st) && !LineIsGraphHeader(line)
    modifies graph
    ensures graph.Valid() && graph.graphId == old(graph.graphId)
    ensures err.None? <==> ReadDbLine(st, line).Success?
    ensures err.Some? ==> err.value == ReadDbLine(st, line).error
    ensures err.None? ==> ReadDbLine(st, line).value == SetCurrent(st, graph.graph)
  {
    err := ApplyLine(graph, line, true);
  }

  /** The database still holds the state once its current graph is set to the graph `graph` now holds. */
  lemma LoadedSetCurrent(db: DBGraphs, graph: DBGraph, st: DbState)
    requires StateValid(st) && graph.Valid() && HoldsBeforeLast(db.graphs, st.entries, graph, graph.graphId)
    ensures Loaded(db, graph, SetCurrent(st, graph.graph))
  {
    if st.entries != [] {
      HoldsSetLast(db.graphs, st, graph);
    }
  }

  /**
   * The database holds every entry but the last, and `graph`, its last graph, is to carry the
   * id `id` of the last entry.
   */
  ghost predicate HoldsBeforeLast(gs: seq<DBGraph>, es: seq<(string, Graph)>, graph: DBGraph, id: GraphId)
    reads set k | 0 <= k < |gs| - 1 :: gs[k]
  {
    if es == [] then gs == []
    else
      && |gs| == |es| && Distinct(gs) && gs[|gs| - 1] == graph && id == StrId(es[|es| - 1].0)
      && forall k :: 0 <= k < |gs| - 1 ==> gs[k].graphId == StrId(es[k].0) && gs[k].graph == es[k].1
  }

  /** Setting the last graph of the database in place keeps it holding the entries with that graph set. */
  lemma HoldsSetLast(gs: seq<DBGraph>, st: DbState, graph: DBGraph)
    requires st.entries != [] && |gs| == |st.entries| && Distinct(gs) && gs[|gs| - 1] == graph
    requires forall k :: 0 <= k < |gs| - 1 ==> gs[k].graphId == StrId(st.entries[k].0) && gs[k].graph == st.entries[k].1
    requires graph.graphId == StrId(st.entries[|gs| - 1].0)
    ensures Holds(gs, SetCurrent(st, graph.graph).entries)
  {
  }

  /**
   * `read_db(path)` on the file's lines: a new database with one new graph per header, in
   * file order, each holding the id of its header and the nodes and edges of the lines up to
   * the next header.
   */
  method ReadDb(lines: seq<string>) returns (r: Result<DBGraphs>)
    ensures r.Success? <==> ReadDbSpec(lines).Success?
    ensures r.Failure? ==> r.error == ReadDbSpec(lines).error
    ensures r.Success? ==> fresh(r.value) && Holds(r.value.graphs, ReadDbSpec(lines).value.entries)
  {
    var db := new DBGraphs(None);
    var graph := new DBGraph(NoId);
    ghost var st := DbState(EmptyGraph(), []);
    assert lines[0..] == lines;
    for i := 0 to |lines|
      invariant fresh(db) && fresh(graph) && Loaded(db, graph, st)
      invariant ReadDbFrom(st, lines[i..]) == ReadDbSpec(lines)
    {
      ReadDbFromStep(st, lines, i);
      var err;
      if LineIsGraphHeader(lines[i]) {
        err, graph, st := ReadHeader(db, graph, lines[i], st);
      } else {
        err, st := ReadIntoCurrent(db, graph, lines[i], st);
      }
      if err.Some? {
        return Failure(err.value);
      }
    }
    return Success(db);
  }
}
