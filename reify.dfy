/**
 * `MultiArcsExpansionStrategy` (reify/multi_arcs_expansion.py): rewrites a copy of a
 * multigraph so that every arc of a pair with several parallel arcs u -> v becomes a
 * fresh node N with the two arcs u -> N and N -> v, while a pair with a single arc gets
 * that arc a second time.
 */
module MultiArcsExpansion {
  import opened Wrappers
  import opened PyStr
  import opened Multigraph
  import opened DbGraph

  /** The three settings of the strategy. */
  datatype Strategy = Strategy(sourceLabel: string, targetLabel: string, newNodePrefix: string)

  /** `MultiArcsExpansionStrategy()` with every argument left at its default. */
  function DefaultStrategy(): (st: Strategy)
    ensures st.sourceLabel == "__source__"
    ensures st.targetLabel == "__target__"
    ensures st.newNodePrefix == "__edge_"
  {
    Strategy("__source__", "__target__", "__edge_")
  }

  /** An ordered pair of nodes joined by at least one arc (an element of `set(graph.edges())`). */
  type Pair = (NodeId, NodeId)

  /** `max(graph.nodes(), default=-1)`. */
  function MaxNode(ns: seq<NodeId>): (m: int)
    ensures ns == [] ==> m == -1
    ensures ns != [] ==> m in ns
    ensures forall n :: n in ns ==> n <= m
  {
    if ns == [] then -1
    else
      var m := MaxNode(ns[1..]);
      assert forall n :: n in ns ==> n == ns[0] || n in ns[1..];
      if ns[1..] == [] || ns[0] > m then ns[0] else m
  }

  /**
   * A value as an f-string writes it: a string is itself; a list of strings is its Python
   * `repr`, each item between single quotes, separated by ", ", in brackets.
   */
  function FormatValue(v: Value): (r: string)
    ensures v.Str? ==> r == v.s
    ensures v.StrList? ==> |r| >= 2 && r[0] == '[' && r[|r| - 1] == ']'
  {
    match v
    case Str(s) => s
    case StrList(items) => "[" + Join(", ", Quoted(items)) + "]"
  }

  /** Each item between single quotes. */
  function Quoted(items: seq<string>): (r: seq<string>)
    ensures |r| == |items| && forall i :: 0 <= i < |items| ==> r[i] == "'" + items[i] + "'"
  {
    if items == [] then [] else ["'" + items[0] + "'"] + Quoted(items[1..])
  }

  /** `edge_data.get("label", "")` as the f-string writes it. */
  function LabelText(data: Attrs): (r: string)
    ensures "label" !in data ==> r == ""
    ensures "label" in data && data["label"].Str? ==> r == data["label"].s
  {
    if "label" in data then FormatValue(data["label"]) else ""
  }

  /** The attributes of the fresh node standing for an arc with data `data`. */
  function ArcNodeAttrs(st: Strategy, data: Attrs): Attrs {
    map["labels" := Str(st.newNodePrefix + LabelText(data))]
  }

  /** The attributes of the arc into the fresh node. */
  function SourceAttrs(st: Strategy): Attrs {
    map["label" := Str(st.sourceLabel)]
  }

  /** The attributes of the arc out of the fresh node. */
  function TargetAttrs(st: Strategy): Attrs {
    map["label" := Str(st.targetLabel)]
  }

  /** The ids `start`, `start + 1`, ..., `start + m - 1`. */
  function IdRange(start: int, m: nat): (r: seq<NodeId>)
    ensures |r| == m && forall i :: 0 <= i < m ==> r[i] == start + i
    decreases m
  {
    if m == 0 then [] else [start] + IdRange(start + 1, m - 1)
  }

  /** The arcs the expansion adds for `m` arcs from `u` to `v`, fresh nodes from `start`. */
  function ArcEdges(u: NodeId, v: NodeId, start: int, m: nat): (r: seq<EdgeId>)
    ensures |r| == 2 * m
    ensures forall j :: 0 <= j < m ==> r[2 * j] == EdgeId(u, start + j, 0) && r[2 * j + 1] == EdgeId(start + j, v, 0)
    decreases m
  {
    if m == 0 then []
    else
      var t := ArcEdges(u, v, start + 1, m - 1);
      var r := [EdgeId(u, start, 0), EdgeId(start, v, 0)] + t;
      assert forall j :: 0 <= j < m ==> r[2 * j] == EdgeId(u, start + j, 0) && r[2 * j + 1] == EdgeId(start + j, v, 0) by {
        forall j | 0 <= j < m
          ensures r[2 * j] == EdgeId(u, start + j, 0) && r[2 * j + 1] == EdgeId(start + j, v, 0)
        {
          if j > 0 {
            var k := j - 1;
            assert 2 * j == 2 * k + 2;
            assert r[2 * j] == t[2 * k] && r[2 * j + 1] == t[2 * k + 1];
          }
        }
      }
      r
  }

  /** Every node id of `h` is below `next`, so `next` and above are fresh. */
  predicate Below(h: Graph, next: int) {
    forall n :: n in h.nodeAttrs ==> n < next
  }

  /** `u` and `v` are nodes of `h` and every node of `h` lies below `next`. */
  predicate Room(h: Graph, u: NodeId, v: NodeId, next: int) {
    u in h.nodeAttrs && v in h.nodeAttrs && Below(h, next)
  }

  /** Every arc of `h`, and the pair `u`, `v`, lie among the ids below `next`. */
  predicate ArcsBelow(h: Graph, u: NodeId, v: NodeId, next: int) {
    u < next && v < next && forall e :: e in h.edgeAttrs ==> e.src < next && e.dst < next
  }

  /**
   * One arc of a multi-arc pair: the fresh node `n` with its label, the arc `u -> n` and the
   * arc `n -> v`, each under key 0 (`ExpandArcSteps` shows these are the three calls made).
   */
  function ExpandArc(st: Strategy, h: Graph, u: NodeId, v: NodeId, n: NodeId, data: Attrs): Graph {
    Graph(h.nodes + [n], h.nodeAttrs[n := ArcNodeAttrs(st, data)],
          h.edges + [EdgeId(u, n, 0), EdgeId(n, v, 0)],
          h.edgeAttrs[EdgeId(u, n, 0) := SourceAttrs(st)][EdgeId(n, v, 0) := TargetAttrs(st)])
  }

  /** Expanding one arc through a fresh node keeps the graph well formed and the fresh ids above it. */
  lemma ExpandArcValid(st: Strategy, h: Graph, u: NodeId, v: NodeId, n: NodeId, data: Attrs)
    requires h.Valid() && u in h.nodeAttrs && v in h.nodeAttrs && Below(h, n)
    ensures ExpandArc(st, h, u, v, n, data).Valid() && Below(ExpandArc(st, h, u, v, n, data), n + 1)
  {
    DistinctAppend(h.nodes, [n]);
    DistinctAppend(h.edges, [EdgeId(u, n, 0), EdgeId(n, v, 0)]);
  }

  lemma AppendTwo(s: seq<EdgeId>, a: EdgeId, b: EdgeId)
    ensures s + [a] + [b] == s + [a, b]
  {
  }

  /** The first arc between two nodes of a graph is appended under key 0. */
  lemma AddFirstArc(h: Graph, a: NodeId, b: NodeId, attrs: Attrs)
    requires h.Valid() && a in h.nodeAttrs && b in h.nodeAttrs
    requires forall k :: EdgeId(a, b, k) !in h.edgeAttrs
    ensures h.AddEdge(a, b, attrs).Valid()
    ensures h.AddEdge(a, b, attrs) == Graph(h.nodes, h.nodeAttrs, h.edges + [EdgeId(a, b, 0)], h.edgeAttrs[EdgeId(a, b, 0) := attrs])
  {
    AddEdgeValid(h, a, b, attrs);
    assert h.PairKeys(a, b) == [];
  }

  /** `add_node(n, labels=...)` for a fresh `n` appends it with exactly that attribute. */
  lemma AddFreshNode(h: Graph, n: NodeId, attrs: Attrs)
    requires h.Valid() && n !in h.nodeAttrs
    ensures h.AddNode(n, attrs).Valid()
    ensures h.AddNode(n, attrs) == Graph(h.nodes + [n], h.nodeAttrs[n := attrs], h.edges, h.edgeAttrs)
  {
    AddNodeValid(h, n, attrs);
  }

  /** `add_node(n, labels=...)`, `add_edge(u, n, ...)`, `add_edge(n, v, ...)` for a fresh `n` build `ExpandArc`. */
  lemma ExpandArcSteps(st: Strategy, h: Graph, u: NodeId, v: NodeId, n: NodeId, data: Attrs)
    requires h.Valid() && u in h.nodeAttrs && v in h.nodeAttrs && n !in h.nodeAttrs
    ensures h.AddNode(n, ArcNodeAttrs(st, data)).Valid()
    ensures h.AddNode(n, ArcNodeAttrs(st, data)).AddEdge(u, n, SourceAttrs(st)).Valid()
    ensures h.AddNode(n, ArcNodeAttrs(st, data)).AddEdge(u, n, SourceAttrs(st)).AddEdge(n, v, TargetAttrs(st))
            == ExpandArc(st, h, u, v, n, data)
  {
    AddFreshNode(h, n, ArcNodeAttrs(st, data));
    var h1 := h.AddNode(n, ArcNodeAttrs(st, data));
    AddFirstArc(h1, u, n, SourceAttrs(st));
    var h2 := h1.AddEdge(u, n, SourceAttrs(st));
    AddFirstArc(h2, n, v, TargetAttrs(st));
    AppendTwo(h.edges, EdgeId(u, n, 0), EdgeId(n, v, 0));
  }

  /** The data of the arcs from `u` to `v`, in key order (`get_edge_data(u, v, key)` for each key). */
  function PairData(g: Graph, u: NodeId, v: NodeId): (ds: seq<Attrs>)
    ensures |ds| == g.NumberOfEdgesBetween(u, v)
  {
    KeyData(g, u, v, g.PairKeys(u, v))
  }

  /**
   * The data of the arcs from `u` to `v` under the keys `ks`, in order (no data for a key
   * without an arc, which the keys of a well-formed graph never are).
   */
  function KeyData(g: Graph, u: NodeId, v: NodeId, ks: seq<nat>): (ds: seq<Attrs>)
    ensures |ds| == |ks|
  {
    if ks == [] then []
    else
      var e := EdgeId(u, v, ks[0]);
      [if e in g.edgeAttrs then g.edgeAttrs[e] else map[]] + KeyData(g, u, v, ks[1..])
  }

  /** The `i`-th entry of `KeyData` is the data of the arc under the `i`-th key. */
  lemma {:induction false} KeyDataAt(g: Graph, u: NodeId, v: NodeId, ks: seq<nat>, i: nat)
    requires forall k :: k in ks ==> EdgeId(u, v, k) in g.edgeAttrs
    requires i < |ks|
    ensures KeyData(g, u, v, ks)[i] == g.edgeAttrs[EdgeId(u, v, ks[i])]
    decreases ks
  {
    if i > 0 {
      KeyDataAt(g, u, v, ks[1..], i - 1);
    }
  }

  /** The `j`-th entry of `PairData` is the data of the pair's arc under its `j`-th key. */
  lemma PairDataAt(g: Graph, u: NodeId, v: NodeId, j: nat)
    requires g.Valid() && j < g.NumberOfEdgesBetween(u, v)
    ensures EdgeId(u, v, g.PairKeys(u, v)[j]) in g.edgeAttrs
    ensures PairData(g, u, v)[j] == g.edgeAttrs[EdgeId(u, v, g.PairKeys(u, v)[j])]
  {
    KeyDataAt(g, u, v, g.PairKeys(u, v), j);
  }

  /** The arcs of a multi-arc pair, with data `datas` in key order, fresh ids counting up from `next`. */
  function ExpandArcs(st: Strategy, h: Graph, u: NodeId, v: NodeId, datas: seq<Attrs>, next: int): (r: (Graph, int))
    ensures r.1 == next + |datas|
    decreases datas
  {
    if datas == [] then (h, next)
    else ExpandArcs(st, ExpandArc(st, h, u, v, next, datas[0]), u, v, datas[1..], next + 1)
  }

  /** The expansion keeps the graph well formed; its nodes are the old ones and the fresh ids. */
  lemma {:induction false} ExpandArcsValid(st: Strategy, h: Graph, u: NodeId, v: NodeId, datas: seq<Attrs>, next: int)
    requires h.Valid() && u in h.nodeAttrs && v in h.nodeAttrs && Below(h, next)
    ensures var r := ExpandArcs(st, h, u, v, datas, next);
            r.0.Valid() && Below(r.0, r.1) && forall n :: n in r.0.nodeAttrs <==> n in h.nodeAttrs || next <= n < r.1
    decreases datas
  {
    if datas != [] {
      ExpandArcValid(st, h, u, v, next, datas[0]);
      ExpandArcsValid(st, ExpandArc(st, h, u, v, next, datas[0]), u, v, datas[1..], next + 1);
    }
  }

  lemma ArcEdgesCons(u: NodeId, v: NodeId, start: int, m: nat)
    requires m > 0
    ensures ArcEdges(u, v, start, m) == [EdgeId(u, start, 0), EdgeId(start, v, 0)] + ArcEdges(u, v, start + 1, m - 1)
  {
  }

  /** The expansion appends the fresh nodes, in order. */
  lemma {:induction false} ExpandArcsNodes(st: Strategy, h: Graph, u: NodeId, v: NodeId, datas: seq<Attrs>, next: int)
    ensures ExpandArcs(st, h, u, v, datas, next).0.nodes == h.nodes + IdRange(next, |datas|)
    decreases datas
  {
    if datas != [] {
      ExpandArcsNodes(st, ExpandArc(st, h, u, v, next, datas[0]), u, v, datas[1..], next + 1);
    } else {
      assert h.nodes + IdRange(next, 0) == h.nodes;
    }
  }

  /** The expansion appends two arcs per fresh node, in order. */
  lemma {:induction false} ExpandArcsEdges(st: Strategy, h: Graph, u: NodeId, v: NodeId, datas: seq<Attrs>, next: int)
    ensures ExpandArcs(st, h, u, v, datas, next).0.edges == h.edges + ArcEdges(u, v, next, |datas|)
    decreases datas
  {
    if datas != [] {
      ExpandArcsEdges(st, ExpandArc(st, h, u, v, next, datas[0]), u, v, datas[1..], next + 1);
      ArcEdgesCons(u, v, next, |datas|);
    } else {
      assert h.edges + ArcEdges(u, v, next, 0) == h.edges;
    }
  }

  /** `r` has every node and arc of `h`, with the same data. */
  ghost predicate Extends(h: Graph, r: Graph) {
    && (forall n :: n in h.nodeAttrs ==> n in r.nodeAttrs && r.nodeAttrs[n] == h.nodeAttrs[n])
    && (forall e :: e in h.edgeAttrs ==> e in r.edgeAttrs && r.edgeAttrs[e] == h.edgeAttrs[e])
  }

  /** The expansion keeps every node and arc of `h` with its data. */
  lemma {:induction false} ExpandArcsKeeps(st: Strategy, h: Graph, u: NodeId, v: NodeId, datas: seq<Attrs>, next: int)
    requires Below(h, next) && ArcsBelow(h, u, v, next)
    ensures Extends(h, ExpandArcs(st, h, u, v, datas, next).0)
    decreases datas
  {
    if datas != [] {
      ExpandArcsKeeps(st, ExpandArc(st, h, u, v, next, datas[0]), u, v, datas[1..], next + 1);
    }
  }

  /** Node `n` carries the label made from `data`, its arc in the source label and its arc out the target label. */
  predicate FreshArc(st: Strategy, r: Graph, u: NodeId, v: NodeId, n: NodeId, data: Attrs) {
    && n in r.nodeAttrs && r.nodeAttrs[n] == ArcNodeAttrs(st, data)
    && EdgeId(u, n, 0) in r.edgeAttrs && r.edgeAttrs[EdgeId(u, n, 0)] == SourceAttrs(st)
    && EdgeId(n, v, 0) in r.edgeAttrs && r.edgeAttrs[EdgeId(n, v, 0)] == TargetAttrs(st)
  }

  lemma FirstFreshArc(st: Strategy, h: Graph, u: NodeId, v: NodeId, n: NodeId, data: Attrs)
    requires u < n
    ensures FreshArc(st, ExpandArc(st, h, u, v, n, data), u, v, n, data)
  {
    assert EdgeId(u, n, 0) != EdgeId(n, v, 0);
  }

  lemma FreshArcKept(st: Strategy, h: Graph, r: Graph, u: NodeId, v: NodeId, n: NodeId, data: Attrs)
    requires FreshArc(st, h, u, v, n, data) && Extends(h, r)
    ensures FreshArc(st, r, u, v, n, data)
  {
  }

  /**
   * The `j`-th fresh node is labelled from the label of the pair's `j`-th arc, its arc in
   * carries the source label and its arc out the target label.
   */
  lemma {:induction false} ExpandArcsFresh(st: Strategy, h: Graph, u: NodeId, v: NodeId, datas: seq<Attrs>, next: int)
    requires Below(h, next) && ArcsBelow(h, u, v, next)
    ensures forall j :: 0 <= j < |datas| ==> FreshArc(st, ExpandArcs(st, h, u, v, datas, next).0, u, v, next + j, datas[j])
    decreases datas
  {
    if datas != [] {
      var h' := ExpandArc(st, h, u, v, next, datas[0]);
      assert Below(h', next + 1) && ArcsBelow(h', u, v, next + 1);
      ExpandArcsKeeps(st, h', u, v, datas[1..], next + 1);
      ExpandArcsFresh(st, h', u, v, datas[1..], next + 1);
      var r := ExpandArcs(st, h', u, v, datas[1..], next + 1).0;
      assert ExpandArcs(st, h, u, v, datas, next).0 == r;
      forall j | 0 <= j < |datas|
        ensures FreshArc(st, r, u, v, next + j, datas[j])
      {
        if j == 0 {
          FirstFreshArc(st, h, u, v, next, datas[0]);
          FreshArcKept(st, h', r, u, v, next, datas[0]);
        } else {
          assert datas[j] == datas[1..][j - 1] && next + j == (next + 1) + (j - 1);
        }
      }
    }
  }

  /** Pairs with exactly one arc whose arc is not under key 0: `get_edge_data(u, v)[0]` fails. */
  predicate MissingKeyZero(g: Graph, p: Pair) {
    g.NumberOfEdgesBetween(p.0, p.1) == 1 && EdgeId(p.0, p.1, 0) !in g.edgeAttrs
  }

  /** Every node of `g` is a node of `h`. */
  predicate NodesIn(g: Graph, h: Graph) {
    forall n :: n in g.nodeAttrs ==> n in h.nodeAttrs
  }

  /** Every pair joins two nodes of `g`. */
  predicate PairsIn(g: Graph, pairs: seq<Pair>) {
    forall p :: p in pairs ==> p.0 in g.nodeAttrs && p.1 in g.nodeAttrs
  }

  /** The fresh nodes a pair gets: none for a single arc, one per arc otherwise. */
  function PairNodes(g: Graph, p: Pair): nat {
    var c := g.NumberOfEdgesBetween(p.0, p.1);
    if c == 1 then 0 else c
  }

  /** The arcs a pair gets: its single arc once more, or two per arc. */
  function PairArcs(g: Graph, p: Pair): nat {
    var c := g.NumberOfEdgesBetween(p.0, p.1);
    if c == 1 then 1 else 2 * c
  }

  /** The parallel arc `add_edge(u, v, **data)` appends, under the pair's next free key. */
  function RepeatArc(h: Graph, u: NodeId, v: NodeId, data: Attrs): Graph {
    var e := EdgeId(u, v, h.NewEdgeKey(u, v));
    Graph(h.nodes, h.nodeAttrs, h.edges + [e], h.edgeAttrs[e := data])
  }

  /** Between two nodes of the graph, `add_edge(u, v, **data)` is `RepeatArc`, which keeps everything else. */
  lemma RepeatArcSteps(h: Graph, u: NodeId, v: NodeId, data: Attrs)
    requires h.Valid() && u in h.nodeAttrs && v in h.nodeAttrs
    ensures h.AddEdge(u, v, data) == RepeatArc(h, u, v, data)
    ensures RepeatArc(h, u, v, data).Valid()
    ensures forall e :: e in h.edgeAttrs ==> e in RepeatArc(h, u, v, data).edgeAttrs && RepeatArc(h, u, v, data).edgeAttrs[e] == h.edgeAttrs[e]
  {
    AddEdgeValid(h, u, v, data);
  }

  /**
   * The body of the pair loop: a single arc is added once more with the same data (under a
   * new key), a pair with several arcs is expanded arc by arc.
   */
  function ExpandPair(st: Strategy, g: Graph, h: Graph, p: Pair, next: int): (r: Result<(Graph, int)>)
  {
    if g.NumberOfEdgesBetween(p.0, p.1) != 1 then
      Success(ExpandArcs(st, h, p.0, p.1, PairData(g, p.0, p.1), next))
    else if EdgeId(p.0, p.1, 0) in g.edgeAttrs then
      Success((RepeatArc(h, p.0, p.1, g.edgeAttrs[EdgeId(p.0, p.1, 0)]), next))
    else
      Failure(KeyError)
  }

  /** The pair loop over `pairs`, in order, stopping at the first failure. */
  function ExpandPairs(st: Strategy, g: Graph, h: Graph, pairs: seq<Pair>, next: int): (r: Result<(Graph, int)>)
    decreases pairs
  {
    if pairs == [] then Success((h, next))
    else
      match ExpandPair(st, g, h, pairs[0], next)
      case Failure(e) => Failure(e)
      case Success((h', next')) => ExpandPairs(st, g, h', pairs[1..], next')
  }

  /** A pair fails exactly when it has a single arc and that arc is not under key 0, with `KeyError`. */
  lemma ExpandPairFails(st: Strategy, g: Graph, h: Graph, p: Pair, next: int)
    ensures ExpandPair(st, g, h, p, next).Failure? <==> MissingKeyZero(g, p)
    ensures ExpandPair(st, g, h, p, next).Failure? ==> ExpandPair(st, g, h, p, next).error == KeyError
  {
  }

  /** The pair loop fails exactly when one of its pairs does, with `KeyError`. */
  lemma {:induction false} ExpandPairsFails(st: Strategy, g: Graph, h: Graph, pairs: seq<Pair>, next: int)
    ensures ExpandPairs(st, g, h, pairs, next).Failure? <==> exists i :: 0 <= i < |pairs| && MissingKeyZero(g, pairs[i])
    ensures ExpandPairs(st, g, h, pairs, next).Failure? ==> ExpandPairs(st, g, h, pairs, next).error == KeyError
    decreases pairs
  {
    if pairs != [] {
      ExpandPairFails(st, g, h, pairs[0], next);
      var r := ExpandPair(st, g, h, pairs[0], next);
      if r.Success? {
        var h', next' := r.value.0, r.value.1;
        ExpandPairsCons(st, g, h, pairs, next, h', next');
        ExpandPairsFails(st, g, h', pairs[1..], next');
        MissingInCons(g, pairs);
      }
    }
  }

  /** A pair of `pairs` misses key 0 exactly when the first does or one of the rest does. */
  lemma MissingInCons(g: Graph, pairs: seq<Pair>)
    requires pairs != []
    ensures (exists i :: 0 <= i < |pairs| && MissingKeyZero(g, pairs[i])) <==>
              MissingKeyZero(g, pairs[0]) || exists i :: 0 <= i < |pairs[1..]| && MissingKeyZero(g, pairs[1..][i])
  {
    assert forall i :: 1 <= i < |pairs| ==> pairs[i] == pairs[1..][i - 1];
  }

  /** `h` is a copy of `g` (`graph.copy()`): the same nodes with the same data, the same arcs with the same data. */
  ghost predicate IsCopy(g: Graph, h: Graph) {
    && h.Valid() && h.nodes == g.nodes && h.nodeAttrs == g.nodeAttrs
    && h.edgeAttrs == g.edgeAttrs && |h.edges| == |g.edges|
  }

  /** `reify(graph)` on the copy `c` of `graph`, visiting `set(graph.edges())` in the order `pairs`. */
  function ReifySpec(st: Strategy, g: Graph, c: Graph, pairs: seq<Pair>): Result<(Graph, int)> {
    ExpandPairs(st, g, c, pairs, MaxNode(g.nodes) + 1)
  }

  /** `pairs` lists each ordered pair joined by an arc of `g` once: an order of `set(graph.edges())`. */
  ghost predicate IsPairOrder(g: Graph, pairs: seq<Pair>) {
    && (forall i, j :: 0 <= i < j < |pairs| ==> pairs[i] != pairs[j])
    && (forall p :: p in pairs <==> exists e :: e in g.edgeAttrs && p == (e.src, e.dst))
  }

  /** The fresh nodes the pair loop creates over `pairs`. */
  function AddedNodes(g: Graph, pairs: seq<Pair>): nat
    decreases pairs
  {
    if pairs == [] then 0 else PairNodes(g, pairs[0]) + AddedNodes(g, pairs[1..])
  }

  /** The arcs the pair loop adds over `pairs`. */
  function AddedArcs(g: Graph, pairs: seq<Pair>): nat
    decreases pairs
  {
    if pairs == [] then 0 else PairArcs(g, pairs[0]) + AddedArcs(g, pairs[1..])
  }

  /** A pair that succeeds leaves a well-formed graph with its old nodes and its fresh ids above them. */
  lemma ExpandPairValid(st: Strategy, g: Graph, h: Graph, p: Pair, next: int)
    requires h.Valid() && p.0 in h.nodeAttrs && p.1 in h.nodeAttrs && Below(h, next)
    requires ExpandPair(st, g, h, p, next).Success?
    ensures var r := ExpandPair(st, g, h, p, next).value;
            && r.0.Valid() && Below(r.0, r.1) && r.1 == next + PairNodes(g, p)
            && NodesIn(h, r.0)
  {
    if g.NumberOfEdgesBetween(p.0, p.1) != 1 {
      ExpandArcsValid(st, h, p.0, p.1, PairData(g, p.0, p.1), next);
    } else {
      RepeatArcSteps(h, p.0, p.1, g.edgeAttrs[EdgeId(p.0, p.1, 0)]);
    }
  }

  /** Over the whole pair loop, the graph stays well formed and the fresh ids stay above it. */
  lemma {:induction false} ExpandPairsValid(st: Strategy, g: Graph, h: Graph, pairs: seq<Pair>, next: int)
    requires h.Valid() && NodesIn(g, h) && Below(h, next) && PairsIn(g, pairs)
    requires ExpandPairs(st, g, h, pairs, next).Success?
    ensures var r := ExpandPairs(st, g, h, pairs, next).value;
            && r.0.Valid() && Below(r.0, r.1) && r.1 == next + AddedNodes(g, pairs)
            && NodesIn(h, r.0)
    decreases pairs
  {
    if pairs != [] {
      var p, rest := pairs[0], pairs[1..];
      ExpandPairValid(st, g, h, p, next);
      var r := ExpandPair(st, g, h, p, next).value;
      ExpandPairsValid(st, g, r.0, rest, r.1);
    }
  }

  lemma IdRangeAppend(start: int, m: nat, k: nat)
    ensures IdRange(start, m) + IdRange(start + m, k) == IdRange(start, m + k)
  {
  }

  lemma ExtendsTrans(a: Graph, b: Graph, c: Graph)
    requires Extends(a, b) && Extends(b, c)
    ensures Extends(a, c)
  {
  }

  /** One pair appends its fresh nodes, in order, and moves the next fresh id past them. */
  lemma ExpandPairNodes(st: Strategy, g: Graph, h: Graph, p: Pair, next: int)
    requires ExpandPair(st, g, h, p, next).Success?
    ensures ExpandPair(st, g, h, p, next).value.0.nodes == h.nodes + IdRange(next, PairNodes(g, p))
    ensures ExpandPair(st, g, h, p, next).value.1 == next + PairNodes(g, p)
  {
    if g.NumberOfEdgesBetween(p.0, p.1) != 1 {
      ExpandArcsNodes(st, h, p.0, p.1, PairData(g, p.0, p.1), next);
    } else {
      assert h.nodes + IdRange(next, 0) == h.nodes;
    }
  }

  /** One pair appends its arcs after the existing ones. */
  lemma ExpandPairEdges(st: Strategy, g: Graph, h: Graph, p: Pair, next: int)
    requires ExpandPair(st, g, h, p, next).Success?
    ensures var r := ExpandPair(st, g, h, p, next).value.0;
            |r.edges| == |h.edges| + PairArcs(g, p) && r.edges[..|h.edges|] == h.edges
  {
    if g.NumberOfEdgesBetween(p.0, p.1) != 1 {
      ExpandArcsEdges(st, h, p.0, p.1, PairData(g, p.0, p.1), next);
    }
  }

  /** One pair keeps every existing node and arc with its data. */
  lemma ExpandPairKeeps(st: Strategy, g: Graph, h: Graph, p: Pair, next: int)
    requires h.Valid() && p.0 in h.nodeAttrs && p.1 in h.nodeAttrs && Below(h, next)
    requires ExpandPair(st, g, h, p, next).Success?
    ensures Extends(h, ExpandPair(st, g, h, p, next).value.0)
  {
    if g.NumberOfEdgesBetween(p.0, p.1) != 1 {
      assert ArcsBelow(h, p.0, p.1, next);
      ExpandArcsKeeps(st, h, p.0, p.1, PairData(g, p.0, p.1), next);
    } else {
      RepeatArcSteps(h, p.0, p.1, g.edgeAttrs[EdgeId(p.0, p.1, 0)]);
    }
  }

  /** The pair loop appends the fresh nodes of every pair, in order, counting up from `next`. */
  lemma {:induction false} ExpandPairsNodes(st: Strategy, g: Graph, h: Graph, pairs: seq<Pair>, next: int)
    requires ExpandPairs(st, g, h, pairs, next).Success?
    ensures ExpandPairs(st, g, h, pairs, next).value.0.nodes == h.nodes + IdRange(next, AddedNodes(g, pairs))
    decreases pairs
  {
    if pairs == [] {
      assert AddedNodes(g, pairs) == 0;
      assert h.nodes + IdRange(next, 0) == h.nodes;
    } else {
      var p, rest := pairs[0], pairs[1..];
      var step := ExpandPair(st, g, h, p, next);
      ExpandPairNodes(st, g, h, p, next);
      var h', next' := step.value.0, step.value.1;
      ExpandPairsCons(st, g, h, pairs, next, h', next');
      ExpandPairsNodes(st, g, h', rest, next');
      var x, y := PairNodes(g, p), AddedNodes(g, rest);
      assert AddedNodes(g, pairs) == x + y;
      var r := ExpandPairs(st, g, h', rest, next').value.0;
      NodesChain(h.nodes, h'.nodes, r.nodes, next, x, next', y);
      assert ExpandPairs(st, g, h, pairs, next).value.0 == r;
    }
  }

  /** A first pair that succeeds hands its graph and next fresh id to the rest of the loop. */
  lemma ExpandPairsCons(st: Strategy, g: Graph, h: Graph, pairs: seq<Pair>, next: int, h': Graph, next': int)
    requires pairs != [] && ExpandPair(st, g, h, pairs[0], next) == Success((h', next'))
    ensures ExpandPairs(st, g, h, pairs, next) == ExpandPairs(st, g, h', pairs[1..], next')
  {
  }

  /** Two runs of fresh ids appended one after the other form one run. */
  lemma NodesChain(a: seq<NodeId>, b: seq<NodeId>, c: seq<NodeId>, next: int, x: nat, next': int, y: nat)
    requires b == a + IdRange(next, x) && next' == next + x && c == b + IdRange(next', y)
    ensures c == a + IdRange(next, x + y)
  {
    IdRangeAppend(next, x, y);
    SeqAssoc(a, IdRange(next, x), IdRange(next + x, y));
  }

  /** The pair loop appends the arcs of every pair after the existing ones. */
  lemma {:induction false} ExpandPairsEdges(st: Strategy, g: Graph, h: Graph, pairs: seq<Pair>, next: int)
    requires ExpandPairs(st, g, h, pairs, next).Success?
    ensures var r := ExpandPairs(st, g, h, pairs, next).value.0;
            |r.edges| == |h.edges| + AddedArcs(g, pairs) && r.edges[..|h.edges|] == h.edges
    decreases pairs
  {
    if pairs == [] {
      assert h.edges[..|h.edges|] == h.edges;
    } else {
      var p, rest := pairs[0], pairs[1..];
      ExpandPairEdges(st, g, h, p, next);
      var h', next' := ExpandPair(st, g, h, p, next).value.0, ExpandPair(st, g, h, p, next).value.1;
      ExpandPairsCons(st, g, h, pairs, next, h', next');
      ExpandPairsEdges(st, g, h', rest, next');
      var r := ExpandPairs(st, g, h', rest, next').value.0;
      assert r.edges[..|h.edges|] == r.edges[..|h'.edges|][..|h.edges|];
    }
  }

  /** The pair loop keeps every existing node and arc with its data. */
  lemma {:induction false} ExpandPairsKeeps(st: Strategy, g: Graph, h: Graph, pairs: seq<Pair>, next: int)
    requires h.Valid() && NodesIn(g, h) && Below(h, next) && PairsIn(g, pairs)
    requires ExpandPairs(st, g, h, pairs, next).Success?
    ensures Extends(h, ExpandPairs(st, g, h, pairs, next).value.0)
    decreases pairs
  {
    if pairs != [] {
      var p, rest := pairs[0], pairs[1..];
      ExpandPairValid(st, g, h, p, next);
      ExpandPairKeeps(st, g, h, p, next);
      var h', next' := ExpandPair(st, g, h, p, next).value.0, ExpandPair(st, g, h, p, next).value.1;
      ExpandPairsCons(st, g, h, pairs, next, h', next');
      ExpandPairsKeeps(st, g, h', rest, next');
      ExtendsTrans(h, h', ExpandPairs(st, g, h', rest, next').value.0);
    }
  }

  /**
   * What the pair loop leaves for pair `p` whose fresh ids start at `start`: a single arc
   * repeated with its key-0 data under another key, or one labelled fresh node per arc.
   */
  ghost predicate PairDone(st: Strategy, g: Graph, r: Graph, p: Pair, start: int)
  {
    var c := g.NumberOfEdgesBetween(p.0, p.1);
    && (c == 1 ==> && EdgeId(p.0, p.1, 0) in g.edgeAttrs
                   && exists k :: k != 0 && EdgeId(p.0, p.1, k) in r.edgeAttrs && r.edgeAttrs[EdgeId(p.0, p.1, k)] == g.edgeAttrs[EdgeId(p.0, p.1, 0)])
    && (c != 1 ==> forall j :: 0 <= j < c ==> FreshArc(st, r, p.0, p.1, start + j, PairData(g, p.0, p.1)[j]))
  }

  lemma PairDoneKept(st: Strategy, g: Graph, h: Graph, r: Graph, p: Pair, start: int)
    requires PairDone(st, g, h, p, start) && Extends(h, r)
    ensures PairDone(st, g, r, p, start)
  {
    var c := g.NumberOfEdgesBetween(p.0, p.1);
    if c == 1 {
      var k :| k != 0 && EdgeId(p.0, p.1, k) in h.edgeAttrs && h.edgeAttrs[EdgeId(p.0, p.1, k)] == g.edgeAttrs[EdgeId(p.0, p.1, 0)];
      assert EdgeId(p.0, p.1, k) in r.edgeAttrs;
    } else {
      forall j | 0 <= j < c ensures FreshArc(st, r, p.0, p.1, start + j, PairData(g, p.0, p.1)[j]) {
        FreshArcKept(st, h, r, p.0, p.1, start + j, PairData(g, p.0, p.1)[j]);
      }
    }
  }

  /** One successful pair step does what `PairDone` says, on a graph that already holds every arc of `g`. */
  lemma ExpandPairDone(st: Strategy, g: Graph, h: Graph, p: Pair, next: int)
    requires h.Valid() && Extends(g, h) && p.0 in h.nodeAttrs && p.1 in h.nodeAttrs && Below(h, next)
    requires ExpandPair(st, g, h, p, next).Success?
    ensures PairDone(st, g, ExpandPair(st, g, h, p, next).value.0, p, next)
  {
    var (u, v) := p;
    if g.NumberOfEdgesBetween(u, v) != 1 {
      assert ArcsBelow(h, u, v, next);
      ExpandArcsFresh(st, h, u, v, PairData(g, u, v), next);
    } else {
      var data := g.edgeAttrs[EdgeId(u, v, 0)];
      var k := h.NewEdgeKey(u, v);
      assert EdgeId(u, v, 0) in h.edges;
      assert RepeatArc(h, u, v, data).edgeAttrs[EdgeId(u, v, k)] == data;
    }
  }

  /** Every pair of `pairs` is done in `r`, the fresh ids of each following those of the pairs before it. */
  ghost predicate AllPairsDone(st: Strategy, g: Graph, r: Graph, pairs: seq<Pair>, next: int)
    decreases pairs
  {
    pairs != [] ==>
      && PairDone(st, g, r, pairs[0], next)
      && AllPairsDone(st, g, r, pairs[1..], next + PairNodes(g, pairs[0]))
  }

  /** Over the pair loop, every pair ends up done, its fresh ids following those of the pairs before it. */
  lemma {:induction false} ExpandPairsDone(st: Strategy, g: Graph, h: Graph, pairs: seq<Pair>, next: int)
    requires h.Valid() && Extends(g, h) && NodesIn(g, h) && Below(h, next) && PairsIn(g, pairs)
    requires ExpandPairs(st, g, h, pairs, next).Success?
    ensures AllPairsDone(st, g, ExpandPairs(st, g, h, pairs, next).value.0, pairs, next)
    decreases pairs
  {
    if pairs != [] {
      var p, rest := pairs[0], pairs[1..];
      ExpandPairValid(st, g, h, p, next);
      ExpandPairKeeps(st, g, h, p, next);
      ExpandPairDone(st, g, h, p, next);
      var h', next' := ExpandPair(st, g, h, p, next).value.0, ExpandPair(st, g, h, p, next).value.1;
      ExpandPairsCons(st, g, h, pairs, next, h', next');
      ExtendsTrans(g, h, h');
      ExpandPairsKeeps(st, g, h', rest, next');
      ExpandPairsDone(st, g, h', rest, next');
      PairDoneKept(st, g, h', ExpandPairs(st, g, h', rest, next').value.0, p, next);
    }
  }

  /** Every pair of a pair order joins two nodes of the graph. */
  lemma PairOrderIn(g: Graph, pairs: seq<Pair>)
    requires g.Valid() && IsPairOrder(g, pairs)
    ensures PairsIn(g, pairs)
  {
    forall p | p in pairs ensures p.0 in g.nodeAttrs && p.1 in g.nodeAttrs {
      var e :| e in g.edgeAttrs && p == (e.src, e.dst);
    }
  }

  /** The copy the pair loop starts from holds every node and arc of `g`, all below `max + 1`. */
  lemma CopyStart(g: Graph, c: Graph)
    requires g.Valid() && IsCopy(g, c)
    ensures Extends(g, c) && NodesIn(g, c) && Below(c, MaxNode(g.nodes) + 1)
  {
  }

  /** `CopyOf` (`DBGraph.copy`) makes a copy. */
  lemma CopyOfIsCopy(g: Graph)
    requires g.Valid()
    ensures IsCopy(g, CopyOf(g))
  {
  }

  /**
   * `reify(graph)`, when it succeeds: a well-formed graph with the original nodes, then the
   * fresh ids `max + 1, max + 2, ...`, one per arc of each multi-arc pair; every original node
   * and arc kept with its data; one more arc per single-arc pair and two per arc of each
   * multi-arc pair.
   */
  lemma ReifyShape(st: Strategy, g: Graph, c: Graph, pairs: seq<Pair>)
    requires g.Valid() && IsCopy(g, c) && IsPairOrder(g, pairs)
    requires ReifySpec(st, g, c, pairs).Success?
    ensures var r := ReifySpec(st, g, c, pairs).value.0;
            && r.Valid()
            && r.nodes == g.nodes + IdRange(MaxNode(g.nodes) + 1, AddedNodes(g, pairs))
            && |r.edges| == |g.edges| + AddedArcs(g, pairs)
            && Extends(g, r)
  {
    PairOrderIn(g, pairs);
    CopyStart(g, c);
    var next := MaxNode(g.nodes) + 1;
    ExpandPairsValid(st, g, c, pairs, next);
    ExpandPairsNodes(st, g, c, pairs, next);
    ExpandPairsEdges(st, g, c, pairs, next);
    ExpandPairsKeeps(st, g, c, pairs, next);
    ExtendsTrans(g, c, ExpandPairs(st, g, c, pairs, next).value.0);
  }

  /**
   * `reify(graph)`, when it succeeds, repeats each single arc with its data under a new key,
   * and gives the `j`-th arc of a multi-arc pair the fresh node `start + j`, where `start`
   * follows the fresh ids of the pairs visited before: labelled with the prefix and the arc's
   * label, entered by a source-labelled arc and left by a target-labelled one.
   */
  lemma ReifyArcs(st: Strategy, g: Graph, c: Graph, pairs: seq<Pair>)
    requires g.Valid() && IsCopy(g, c) && IsPairOrder(g, pairs)
    requires ReifySpec(st, g, c, pairs).Success?
    ensures AllPairsDone(st, g, ReifySpec(st, g, c, pairs).value.0, pairs, MaxNode(g.nodes) + 1)
  {
    PairOrderIn(g, pairs);
    CopyStart(g, c);
    ExpandPairsDone(st, g, c, pairs, MaxNode(g.nodes) + 1);
  }

  /** The fresh ids never collide with the original nodes. */
  lemma ReifyFreshIds(g: Graph, m: nat)
    requires g.Valid()
    ensures forall n :: n in IdRange(MaxNode(g.nodes) + 1, m) ==> n !in g.nodeAttrs
  {
  }

  /**
   * The inner loop of `reify` for a pair with several arcs: for each key, a fresh node
   * labelled from the arc's label, an arc into it with the source label and an arc out of it
   * with the target label.
   */
  method ExpandArcsInto(st: Strategy, g: Graph, reif: DBGraph, u: NodeId, v: NodeId, next: int) returns (next': int)
    requires g.Valid() && reif.Valid() && Room(reif.graph, u, v, next)
    modifies reif
    ensures reif.Valid() && reif.graphId == old(reif.graphId)
    ensures (reif.graph, next') == ExpandArcs(st, old(reif.graph), u, v, PairData(g, u, v), next)
  {
    var keys := g.PairKeys(u, v);
    ghost var datas := PairData(g, u, v);
    ghost var h0 := reif.graph;
    next' := next;
    for j := 0 to |keys|
      invariant reif.Valid() && reif.graphId == old(reif.graphId) && Room(reif.graph, u, v, next')
      invariant ExpandArcs(st, reif.graph, u, v, datas[j..], next') == ExpandArcs(st, h0, u, v, datas, next)
    {
      PairDataAt(g, u, v, j);
      var data := g.edgeAttrs[EdgeId(u, v, keys[j])];
      ExpandArcsStep(st, reif.graph, u, v, datas, j, next');
      AddArcNode(st, reif, u, v, next', data);
      next' := next' + 1;
    }
  }

  lemma ExpandArcsStep(st: Strategy, h: Graph, u: NodeId, v: NodeId, datas: seq<Attrs>, j: nat, n: int)
    requires j < |datas|
    ensures ExpandArcs(st, ExpandArc(st, h, u, v, n, datas[j]), u, v, datas[j + 1..], n + 1) == ExpandArcs(st, h, u, v, datas[j..], n)
  {
    assert datas[j..][1..] == datas[j + 1..];
  }

  /** One turn of the inner loop: `add_node(n, labels=...)`, `add_edge(u, n, ...)`, `add_edge(n, v, ...)` for a fresh `n`. */
  method AddArcNode(st: Strategy, reif: DBGraph, u: NodeId, v: NodeId, n: NodeId, data: Attrs)
    requires reif.Valid() && Room(reif.graph, u, v, n)
    modifies reif
    ensures reif.Valid() && reif.graphId == old(reif.graphId) && Room(reif.graph, u, v, n + 1)
    ensures reif.graph == ExpandArc(st, old(reif.graph), u, v, n, data)
  {
    ExpandArcSteps(st, reif.graph, u, v, n, data);
    ExpandArcValid(st, reif.graph, u, v, n, data);
    reif.AddNode(n, ArcNodeAttrs(st, data));
    var _ := reif.AddEdge(u, n, SourceAttrs(st));
    var _ := reif.AddEdge(n, v, TargetAttrs(st));
  }

  /**
   * `MultiArcsExpansionStrategy.reify(graph)`, visiting `set(graph.edges())` in the order
   * `pairs`: a fresh copy of `graph`, expanded pair by pair; `KeyError` when a single-arc
   * pair has no arc under key 0.  The input graph is left untouched.
   */
  method Reify(st: Strategy, graph: DBGraph, pairs: seq<Pair>) returns (r: Result<DBGraph>)
    requires graph.Valid() && IsPairOrder(graph.graph, pairs)
    ensures r.Failure? <==> ReifySpec(st, graph.graph, CopyOf(graph.graph), pairs).Failure?
    ensures r.Failure? ==> r.error == KeyError
    ensures r.Success? ==> && fresh(r.value) && r.value.Valid() && r.value.graphId == graph.graphId
                           && r.value.graph == ReifySpec(st, graph.graph, CopyOf(graph.graph), pairs).value.0
  {
    var g := graph.graph;
    PairOrderIn(g, pairs);
    var reif := graph.Copy();
    ghost var c := reif.graph;
    var next := MaxNode(g.nodes) + 1;
    assert pairs[0..] == pairs;
    for i := 0 to |pairs|
      invariant fresh(reif) && reif.Valid() && reif.graphId == graph.graphId
      invariant NodesIn(g, reif.graph) && Below(reif.graph, next)
      invariant ExpandPairs(st, g, reif.graph, pairs[i..], next) == ReifySpec(st, g, c, pairs)
    {
      ghost var h := reif.graph;
      ExpandPairsStep(st, g, h, pairs, i, next);
      var step := ExpandPairInto(st, g, reif, pairs[i], next);
      if step.Failure? {
        return Failure(step.error);
      }
      ExpandPairValid(st, g, h, pairs[i], next);
      next := step.value;
    }
    return Success(reif);
  }

  /** The pair loop goes on from pair `i` with the graph and next id pair `i` leaves, or stops at its failure. */
  lemma ExpandPairsStep(st: Strategy, g: Graph, h: Graph, pairs: seq<Pair>, i: nat, next: int)
    requires i < |pairs|
    ensures ExpandPair(st, g, h, pairs[i], next).Failure? ==>
              ExpandPairs(st, g, h, pairs[i..], next) == Failure(ExpandPair(st, g, h, pairs[i], next).error)
    ensures ExpandPair(st, g, h, pairs[i], next).Success? ==>
              ExpandPairs(st, g, h, pairs[i..], next)
              == ExpandPairs(st, g, ExpandPair(st, g, h, pairs[i], next).value.0, pairs[i + 1..],
                             ExpandPair(st, g, h, pairs[i], next).value.1)
  {
    assert pairs[i..][0] == pairs[i] && pairs[i..][1..] == pairs[i + 1..];
  }

  /**
   * One turn of the pair loop on `reif`: a single arc is added once more with the data of
   * key 0 (`KeyError` when there is no key 0, with `reif` untouched), several arcs are
   * expanded by the inner loop.
   */
  method ExpandPairInto(st: Strategy, g: Graph, reif: DBGraph, p: Pair, next: int) returns (r: Result<int>)
    requires g.Valid() && reif.Valid() && Room(reif.graph, p.0, p.1, next)
    modifies reif
    ensures reif.Valid() && reif.graphId == old(reif.graphId)
    ensures r.Failure? <==> ExpandPair(st, g, old(reif.graph), p, next).Failure?
    ensures r.Failure? ==> r.error == KeyError
    ensures r.Success? ==> && reif.graph == ExpandPair(st, g, old(reif.graph), p, next).value.0
                           && r.value == ExpandPair(st, g, old(reif.graph), p, next).value.1
  {
    var (u, v) := p;
    if g.NumberOfEdgesBetween(u, v) == 1 {
      if EdgeId(u, v, 0) !in g.edgeAttrs {
        return Failure(KeyError);
      }
      var data := g.edgeAttrs[EdgeId(u, v, 0)];
      RepeatArcSteps(reif.graph, u, v, data);
      var _ := reif.AddEdge(u, v, data);
      r := Success(next);
    } else {
      var next' := ExpandArcsInto(st, g, reif, u, v, next);
      r := Success(next');
    }
  }
}
