/**
 * What `DataGraphReader` (reader/data.py) makes of the lines `DataSaverStrategy`
 * (saver/data.py) writes.  Labels are written joined by ", " but read back by splitting on
 * whitespace, so a line with several labels reads back with a comma still on every label
 * but the last; a single label, or none, reads back exactly.
 */
module DataRoundTrip {
  import opened Wrappers
  import opened PyStr
  import opened Multigraph
  import opened DbGraph
  import opened DataSaver
  import opened DataReader

  /** The tokens `split()` finds in labels joined by ", ": each label but the last keeps the comma. */
  function WithCommas(labels: seq<string>): (r: seq<string>)
    ensures |r| == |labels|
    ensures forall i :: 0 <= i < |labels| - 1 ==> r[i] == labels[i] + ","
    ensures labels != [] ==> r[|r| - 1] == labels[|labels| - 1]
    decreases |labels|
  {
    if |labels| <= 1 then labels else [labels[0] + ","] + WithCommas(labels[1..])
  }

  /** Labels joined by ", " are the comma-suffixed labels joined by " ". */
  lemma {:induction false} JoinCommas(labels: seq<string>)
    ensures Join(", ", labels) == Join(" ", WithCommas(labels))
    decreases |labels|
  {
    if |labels| >= 2 {
      var w := WithCommas(labels);
      JoinCommas(labels[1..]);
      assert w[1..] == WithCommas(labels[1..]);
      JoinCons(w);
      CommaSpace(labels[0], Join(", ", labels[1..]));
    }
  }

  lemma CommaSpace(a: string, x: string)
    ensures a + ", " + x == (a + ",") + " " + x
  {
  }

  lemma WithCommasTokens(labels: seq<string>)
    requires forall i :: 0 <= i < |labels| ==> IsToken(labels[i])
    ensures forall i :: 0 <= i < |labels| ==> IsToken(WithCommas(labels)[i])
  {
    var w := WithCommas(labels);
    forall i | 0 <= i < |labels| ensures IsToken(w[i]) {
      if i < |labels| - 1 {
        var t := labels[i] + ",";
        assert forall j :: 0 <= j < |t| ==> t[j] == (if j < |labels[i]| then labels[i][j] else ',');
      }
    }
  }

  /**
   * A line `head`, a space, the labels joined by ", " and a newline splits into the tokens
   * of `head`, then the comma-suffixed labels.
   */
  lemma SplitLabelledLine(head: seq<string>, labels: seq<string>)
    requires |head| >= 1 && forall i :: 0 <= i < |head| ==> IsToken(head[i])
    requires forall i :: 0 <= i < |labels| ==> IsToken(labels[i])
    ensures SplitWs(Join(" ", head) + " " + Join(", ", labels) + "\n") == head + WithCommas(labels)
  {
    var w := WithCommas(labels);
    var line := Join(" ", head) + " " + Join(", ", labels) + "\n";
    JoinCommas(labels);
    WithCommasTokens(labels);
    if labels == [] {
      assert line == Join(" ", head) + ([' '] + "\n");
      SplitWsJoin(head, ' ', "\n");
      assert SplitWs("\n") == [];
      assert head + w == head;
    } else {
      JoinAppend(head, w);
      assert line == Join(" ", head + w) + (['\n'] + "");
      SplitWsJoin(head + w, '\n', "");
    }
  }

  lemma Join2(a: string, b: string)
    ensures Join(" ", [a, b]) == a + " " + b
  {
    JoinCons([a, b]);
    assert [a, b][1..] == [b];
  }

  lemma Join3(a: string, b: string, c: string)
    ensures Join(" ", [a, b, c]) == a + " " + b + " " + c
  {
    JoinCons([a, b, c]);
    assert [a, b, c][1..] == [b, c];
    Join2(b, c);
  }

  /** A node line splits into "v", the id and the comma-suffixed labels. */
  lemma NodeLineSplit(n: NodeId, a: Attrs)
    requires forall i :: 0 <= i < |LabelList(a, "labels")| ==> IsToken(LabelList(a, "labels")[i])
    ensures SplitWs(NodeLine(n, a)) == ["v", IntToString(n)] + WithCommas(LabelList(a, "labels"))
  {
    var id := IntToString(n);
    var labels := LabelList(a, "labels");
    Join2("v", id);
    assert NodeLine(n, a) == Join(" ", ["v", id]) + " " + Join(", ", labels) + "\n";
    SplitLabelledLine(["v", id], labels);
  }

  /** An edge line splits into "e", the two endpoints and the comma-suffixed labels. */
  lemma EdgeLineSplit(e: EdgeId, a: Attrs)
    requires forall i :: 0 <= i < |LabelList(a, "label")| ==> IsToken(LabelList(a, "label")[i])
    ensures SplitWs(EdgeLine(e, a)) == ["e", IntToString(e.src), IntToString(e.dst)] + WithCommas(LabelList(a, "label"))
  {
    var s, d := IntToString(e.src), IntToString(e.dst);
    var labels := LabelList(a, "label");
    Join3("e", s, d);
    assert EdgeLine(e, a) == Join(" ", ["e", s, d]) + " " + Join(", ", labels) + "\n";
    SplitLabelledLine(["e", s, d], labels);
  }

  /**
   * A node line the saver writes, with whitespace-free labels, reads back as the same node
   * id and its labels, each but the last still carrying the comma of the ", " join.
   */
  lemma NodeLineReadsBack(n: NodeId, a: Attrs)
    requires forall i :: 0 <= i < |LabelList(a, "labels")| ==> IsToken(LabelList(a, "labels")[i])
    ensures LineIsNode(NodeLine(n, a)) && !LineIsGraphHeader(NodeLine(n, a))
    ensures ExtractNode(NodeLine(n, a)) == Success((n, WithCommas(LabelList(a, "labels"))))
  {
    var line := NodeLine(n, a);
    NodeLineSplit(n, a);
    ExtractNodeTokens(line, n, WithCommas(LabelList(a, "labels")));
    assert line[..2] == "v ";
    LineClassesExclusive(line);
  }

  lemma ExtractNodeTokens(line: string, n: int, rest: seq<string>)
    requires SplitWs(line) == ["v", IntToString(n)] + rest
    ensures ExtractNode(line) == Success((n, rest))
  {
    IntToStringRoundTrip(n);
    assert SplitWs(line)[2..] == rest;
  }

  /**
   * An edge line the saver writes, with whitespace-free labels, reads back as the same
   * endpoints and its labels, each but the last still carrying the comma.
   */
  lemma EdgeLineReadsBack(e: EdgeId, a: Attrs)
    requires forall i :: 0 <= i < |LabelList(a, "label")| ==> IsToken(LabelList(a, "label")[i])
    ensures LineIsEdge(EdgeLine(e, a)) && !LineIsGraphHeader(EdgeLine(e, a))
    ensures ExtractEdge(EdgeLine(e, a)) == Success((e.src, e.dst, WithCommas(LabelList(a, "label"))))
  {
    var line := EdgeLine(e, a);
    EdgeLineSplit(e, a);
    ExtractEdgeTokens(line, e.src, e.dst, WithCommas(LabelList(a, "label")));
    assert line[..2] == "e ";
    LineClassesExclusive(line);
  }

  lemma ExtractEdgeTokens(line: string, src: int, dst: int, rest: seq<string>)
    requires SplitWs(line) == ["e", IntToString(src), IntToString(dst)] + rest
    ensures ExtractEdge(line) == Success((src, dst, rest))
  {
    IntToStringRoundTrip(src);
    IntToStringRoundTrip(dst);
    assert SplitWs(line)[3..] == rest;
  }

  /** A node line with one whitespace-free label, or none, reads back exactly. */
  lemma NodeLineRoundTrip(n: NodeId, a: Attrs)
    requires |LabelList(a, "labels")| <= 1
    requires forall i :: 0 <= i < |LabelList(a, "labels")| ==> IsToken(LabelList(a, "labels")[i])
    ensures ExtractNode(NodeLine(n, a)) == Success((n, LabelList(a, "labels")))
  {
    NodeLineReadsBack(n, a);
  }

  /** An edge line with one whitespace-free label, or none, reads back exactly. */
  lemma EdgeLineRoundTrip(e: EdgeId, a: Attrs)
    requires |LabelList(a, "label")| <= 1
    requires forall i :: 0 <= i < |LabelList(a, "label")| ==> IsToken(LabelList(a, "label")[i])
    ensures ExtractEdge(EdgeLine(e, a)) == Success((e.src, e.dst, LabelList(a, "label")))
  {
    EdgeLineReadsBack(e, a);
  }

  /** Two labels come back as two tokens, the first with the comma of the join. */
  lemma TwoLabelsKeepComma(n: NodeId, x: string, y: string)
    requires IsToken(x) && IsToken(y)
    ensures ExtractNode(NodeLine(n, map["labels" := StrList([x, y])])) == Success((n, [x + ",", y]))
  {
    var a := map["labels" := StrList([x, y])];
    var labels := LabelList(a, "labels");
    assert labels == [x, y];
    NodeLineReadsBack(n, a);
    assert WithCommas(labels) == [x + ",", y];
  }

  /**
   * A header the saver writes reads back, as text, as the id it printed, provided that text
   * is one whitespace-free token; an integer id comes back as its decimal text.
   */
  lemma HeaderLineRoundTrip(id: GraphId)
    requires IsToken(FormatGraphId(id))
    ensures LineIsGraphHeader(HeaderLine(id))
    ensures ExtractGraphId(HeaderLine(id)) == Success(FormatGraphId(id))
  {
    var f := FormatGraphId(id);
    var line := HeaderLine(id);
    Join3("t", "#", f);
    assert line == Join(" ", ["t", "#", f]) + (['\n'] + "");
    SplitWsJoin(["t", "#", f], '\n', "");
    assert line[..3] == "t #";
  }

  /** An integer id's header always reads back, as the integer's decimal text. */
  lemma IntHeaderRoundTrip(i: int)
    ensures ExtractGraphId(HeaderLine(IntId(i))) == Success(IntToString(i))
  {
    HeaderLineRoundTrip(IntId(i));
  }

  /** The ids a database's headers print, in order. */
  function PrintedIds(gs: seq<DBGraph>): (r: seq<string>)
    reads set k | 0 <= k < |gs| :: gs[k]
    ensures |r| == |gs| && forall k :: 0 <= k < |gs| ==> r[k] == FormatGraphId(gs[k].graphId)
  {
    if gs == [] then [] else PrintedIds(gs[..|gs| - 1]) + [FormatGraphId(gs[|gs| - 1].graphId)]
  }

  /** No data line of a graph is a header line. */
  lemma DataLinesNoHeader(g: Graph)
    ensures HeaderIds(DataLines(g)) == []
  {
    var lines := DataLines(g);
    DataLinesForm(g);
    forall i | 0 <= i < |lines| ensures !LineIsGraphHeader(lines[i]) {
      LineClassesExclusive(lines[i]);
    }
    NoHeaderIds(lines);
  }

  lemma {:induction false} HeaderIdsAppend(a: seq<string>, b: seq<string>)
    ensures HeaderIds(a + b) == HeaderIds(a) + HeaderIds(b)
    decreases |a|
  {
    if a == [] {
      assert a + b == b;
    } else {
      assert (a + b)[0] == a[0];
      assert (a + b)[1..] == a[1..] + b;
      HeaderIdsAppend(a[1..], b);
      var h := HeaderIds([a[0]]);
      assert HeaderIds(a) == HeaderIds([a[0]]) + HeaderIds(a[1..]);
      SeqAssoc(HeaderIds([a[0]]), HeaderIds(a[1..]), HeaderIds(b));
    }
  }

  /**
   * The header lines of a saved database, read back, give the printed ids of its graphs in
   * order, when every printed id is one whitespace-free token.
   */
  lemma {:induction false} SavedHeaderIds(gs: seq<DBGraph>)
    requires forall k :: 0 <= k < |gs| ==> IsToken(FormatGraphId(gs[k].graphId))
    ensures HeaderIds(DbLines(gs)) == PrintedIds(gs)
    decreases |gs|
  {
    if gs != [] {
      var init, last := gs[..|gs| - 1], gs[|gs| - 1];
      SavedHeaderIds(init);
      var h := HeaderLine(last.graphId);
      HeaderIdsAppend(DbLines(init), [h] + DataLines(last.graph));
      HeaderIdsAppend([h], DataLines(last.graph));
      HeaderLineRoundTrip(last.graphId);
      assert HeaderIds([h]) == [FormatGraphId(last.graphId)];
      DataLinesNoHeader(last.graph);
    }
  }

  /** Every line of `lines` is one `read_db` accepts. */
  ghost predicate AllRead(lines: seq<string>) {
    forall k :: 0 <= k < |lines| ==> LineReads(lines[k])
  }

  lemma AllReadAppend(a: seq<string>, b: seq<string>)
    requires AllRead(a) && AllRead(b)
    ensures AllRead(a + b)
  {
    forall k | 0 <= k < |a + b| ensures LineReads((a + b)[k]) {
      if k >= |a| {
        AppendAt(a, b, a + b, k, k - |a|);
      }
    }
  }

  /** A node line the saver writes is accepted, whatever its labels: the id is still the second token. */
  lemma NodeLineReads(n: NodeId, a: Attrs)
    ensures LineReads(NodeLine(n, a))
  {
    var line := NodeLine(n, a);
    NodeLineParses(n, a);
    assert line[..2] == "v ";
    LineClassesExclusive(line);
  }

  lemma NodeLineParses(n: NodeId, a: Attrs)
    ensures ExtractNode(NodeLine(n, a)).Success?
  {
    var id, labels := IntToString(n), Join(", ", LabelList(a, "labels"));
    var line := NodeLine(n, a);
    Join2("v", id);
    assert line == Join(" ", ["v", id]) + ([' '] + (labels + "\n"));
    SplitWsJoin(["v", id], ' ', labels + "\n");
    ExtractNodeTokens(line, n, SplitWs(labels + "\n"));
  }

  /** An edge line the saver writes is accepted, whatever its labels: the endpoints are still the second and third tokens. */
  lemma EdgeLineReads(e: EdgeId, a: Attrs)
    ensures LineReads(EdgeLine(e, a))
  {
    var line := EdgeLine(e, a);
    EdgeLineParses(e, a);
    assert line[..2] == "e ";
    LineClassesExclusive(line);
    assert !LineIsNode(line);
  }

  lemma EdgeLineParses(e: EdgeId, a: Attrs)
    ensures ExtractEdge(EdgeLine(e, a)).Success?
  {
    var s, d, labels := IntToString(e.src), IntToString(e.dst), Join(", ", LabelList(a, "label"));
    var line := EdgeLine(e, a);
    Join3("e", s, d);
    assert line == Join(" ", ["e", s, d]) + ([' '] + (labels + "\n"));
    SplitWsJoin(["e", s, d], ' ', labels + "\n");
    ExtractEdgeTokens(line, e.src, e.dst, SplitWs(labels + "\n"));
  }

  /** Every line of a graph's data string is accepted. */
  lemma DataLinesRead(g: Graph)
    ensures AllRead(DataLines(g))
  {
    var ns, es := g.nodes, g.EdgesView();
    var lines := DataLines(g);
    forall i | 0 <= i < |lines| ensures LineReads(lines[i]) {
      if i < |ns| {
        NodeLinesAt(g, ns, i);
        assert lines[i] == NodeLines(g, ns)[i];
        NodeLineReads(ns[i], NodeData(g, ns[i]));
      } else {
        var k := i - |ns|;
        EdgeLinesAt(g, es, k);
        AppendAt(NodeLines(g, ns), EdgeLines(g, es), lines, i, k);
        EdgeLineReads(es[k], EdgeData(g, es[k]));
      }
    }
  }

  /** With every printed id a single token, every line of a saved database is accepted. */
  lemma {:induction false} SavedLinesRead(gs: seq<DBGraph>)
    requires forall k :: 0 <= k < |gs| ==> IsToken(FormatGraphId(gs[k].graphId))
    ensures AllRead(DbLines(gs))
    decreases |gs|
  {
    if gs != [] {
      var init, last := gs[..|gs| - 1], gs[|gs| - 1];
      SavedLinesRead(init);
      HeaderLineRoundTrip(last.graphId);
      DataLinesRead(last.graph);
      AllReadAppend([HeaderLine(last.graphId)], DataLines(last.graph));
      AllReadAppend(DbLines(init), [HeaderLine(last.graphId)] + DataLines(last.graph));
    }
  }

  /** Reading back a saved database whose printed ids are single tokens never fails. */
  lemma ReadSavedDbSucceeds(gs: seq<DBGraph>)
    requires forall k :: 0 <= k < |gs| ==> IsToken(FormatGraphId(gs[k].graphId))
    ensures ReadDbSpec(DbLines(gs)).Success?
  {
    SavedLinesRead(gs);
    ReadDbFromReads(DbState(EmptyGraph(), []), DbLines(gs));
  }

  /**
   * Reading back the lines of a saved database makes one graph per saved graph, in order,
   * with the printed id of each (an integer id comes back as its text).
   */
  lemma ReadSavedDbIds(gs: seq<DBGraph>)
    requires forall k :: 0 <= k < |gs| ==> IsToken(FormatGraphId(gs[k].graphId))
    ensures ReadDbSpec(DbLines(gs)).Success?
    ensures Ids(ReadDbSpec(DbLines(gs)).value.entries) == PrintedIds(gs)
  {
    ReadSavedDbSucceeds(gs);
    SavedHeaderIds(gs);
    ReadDbGraphPerHeader(DbLines(gs));
  }
}
