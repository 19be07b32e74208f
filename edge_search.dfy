/**
 * The state of the breadth-first edge collection of `extract_subgraph_by_edge_count`
 * (graph.py) and what it keeps true: the subgraph is a copy of part of the graph, the
 * visited nodes lie in the source's component, and every edge of a processed node has
 * been visited.
 */
module EdgeSearch {
  import opened Multigraph
  import opened Undirected

  /** The edges of the component of `s` in the undirected view. */
  ghost function ComponentEdges(g: Graph, s: NodeId): set<EdgeId> {
    set e | e in g.edgeAttrs && Reachable(g, s, e.src)
  }

  /** `e` has `n` as one of its endpoints. */
  predicate Touches(e: EdgeId, n: NodeId) {
    e.src == n || e.dst == n
  }

  /** The subgraph holds exactly the visited nodes and edges, copied from `g`; `count` counts its edges. */
  ghost predicate SubCopy(g: Graph, sub: Graph, visitedNodes: set<NodeId>, visitedEdges: set<EdgeId>, count: nat) {
    && sub.Valid()
    && sub.nodeAttrs.Keys == visitedNodes
    && sub.edgeAttrs.Keys == visitedEdges
    && count == |sub.edges|
    && (forall n :: n in sub.nodeAttrs ==> n in g.nodeAttrs && sub.nodeAttrs[n] == g.nodeAttrs[n])
    && (forall e :: e in sub.edgeAttrs ==> e in g.edgeAttrs && sub.edgeAttrs[e] == g.edgeAttrs[e])
  }

  /** The visited nodes hold the source and lie in its component. */
  ghost predicate InComponent(g: Graph, s: NodeId, visitedNodes: set<NodeId>) {
    && s in visitedNodes
    && visitedNodes <= g.nodeAttrs.Keys
    && (forall n :: n in visitedNodes ==> Reachable(g, s, n))
  }

  /** Every visited node is the source or an endpoint of a visited edge. */
  ghost predicate Witnessed(s: NodeId, visitedNodes: set<NodeId>, visitedEdges: set<EdgeId>) {
    forall n :: n in visitedNodes ==> n == s || exists e :: e in visitedEdges && Touches(e, n)
  }

  /** The nodes ever enqueued are the visited nodes, each once (as many entries as nodes). */
  ghost predicate QueueOk(enqueued: seq<NodeId>, visitedNodes: set<NodeId>) {
    |enqueued| == |visitedNodes| && forall n :: n in enqueued <==> n in visitedNodes
  }

  /** What the search keeps true of its state. */
  ghost predicate Consistent(g: Graph, s: NodeId, sub: Graph, visitedNodes: set<NodeId>,
                             visitedEdges: set<EdgeId>, count: nat, enqueued: seq<NodeId>) {
    && g.Valid() && s in g.nodeAttrs
    && SubCopy(g, sub, visitedNodes, visitedEdges, count)
    && InComponent(g, s, visitedNodes)
    && Witnessed(s, visitedNodes, visitedEdges)
    && QueueOk(enqueued, visitedNodes)
  }

  /** Every edge of `g` touching a node of `done` has been visited. */
  ghost predicate Processed(g: Graph, done: seq<NodeId>, visitedEdges: set<EdgeId>) {
    forall n, e :: n in done && e in g.edgeAttrs && Touches(e, n) ==> e in visitedEdges
  }

  /** `add_node_with_attrs(n)` for a node not in the subgraph yet. */
  lemma CopyNode(g: Graph, sub: Graph, visitedNodes: set<NodeId>, visitedEdges: set<EdgeId>, count: nat, n: NodeId)
    requires SubCopy(g, sub, visitedNodes, visitedEdges, count)
    requires n in g.nodeAttrs && n !in sub.nodeAttrs
    ensures SubCopy(g, sub.AddNode(n, g.nodeAttrs[n]), visitedNodes + {n}, visitedEdges, count)
  {
    AddNodeValid(sub, n, g.nodeAttrs[n]);
  }

  /** `add_edge(src, dst, key=key, **data)` for an edge not in the subgraph yet, between nodes it has. */
  lemma CopyEdge(g: Graph, sub: Graph, visitedNodes: set<NodeId>, visitedEdges: set<EdgeId>, count: nat, e: EdgeId)
    requires SubCopy(g, sub, visitedNodes, visitedEdges, count)
    requires e in g.edgeAttrs && e !in visitedEdges && e.src in visitedNodes && e.dst in visitedNodes
    ensures SubCopy(g, sub.AddEdgeWithKey(e.src, e.dst, e.key, g.edgeAttrs[e]), visitedNodes, visitedEdges + {e}, count + 1)
  {
    AddNewEdge(sub, e, g.edgeAttrs[e]);
    AddEdgeWithKeyValid(sub, e.src, e.dst, e.key, g.edgeAttrs[e]);
  }

  /** Visiting an edge keeps every visited node witnessed. */
  lemma WitnessEdge(s: NodeId, visitedNodes: set<NodeId>, visitedEdges: set<EdgeId>, e: EdgeId, visitedNodes': set<NodeId>)
    requires Witnessed(s, visitedNodes, visitedEdges)
    requires visitedNodes <= visitedNodes' <= visitedNodes + {e.src, e.dst}
    ensures Witnessed(s, visitedNodes', visitedEdges + {e})
  {
    forall n | n in visitedNodes' ensures n == s || exists f :: f in visitedEdges + {e} && Touches(f, n) {
      if n !in visitedNodes {
        assert Touches(e, n);
      }
    }
  }

  /** An endpoint of an edge of the component lies in the component. */
  lemma ReachEdge(g: Graph, s: NodeId, visitedNodes: set<NodeId>, e: EdgeId, visitedNodes': set<NodeId>)
    requires g.Valid() && s in g.nodeAttrs && InComponent(g, s, visitedNodes)
    requires e in g.edgeAttrs && (e.src in visitedNodes || e.dst in visitedNodes)
    requires visitedNodes <= visitedNodes' <= visitedNodes + {e.src, e.dst}
    ensures InComponent(g, s, visitedNodes')
  {
    ReachableStep(g, s, e);
    ReachableInGraph(g, s, e.src);
    ReachableInGraph(g, s, e.dst);
  }

  /** A sequence has at most as many distinct elements as entries. */
  lemma {:induction false} ElementsCard(s: seq<NodeId>)
    ensures |set x | x in s| <= |s|
  {
    if s != [] {
      var t := s[..|s| - 1];
      ElementsCard(t);
      assert (set x | x in s) == (set x | x in t) + {s[|s| - 1]};
    }
  }

  /** A sequence with as many distinct elements as entries has no repeated entry. */
  lemma CardDistinct(s: seq<NodeId>)
    requires |set x | x in s| == |s|
    ensures Distinct(s)
  {
    if !Distinct(s) {
      var i, j :| 0 <= i < j < |s| && s[i] == s[j];
      var t := s[..j] + s[j + 1..];
      assert s == s[..j] + [s[j]] + s[j + 1..];
      assert (set x | x in t) == (set x | x in s);
      ElementsCard(t);
    }
  }

  /** The nodes ever enqueued are distinct nodes of the graph. */
  lemma EnqueuedDistinct(enqueued: seq<NodeId>, visitedNodes: set<NodeId>, keys: set<NodeId>)
    requires QueueOk(enqueued, visitedNodes) && visitedNodes <= keys
    ensures Distinct(enqueued) && |enqueued| <= |keys|
  {
    assert forall x :: x in (set y | y in enqueued) <==> x in visitedNodes;
    assert (set x | x in enqueued) == visitedNodes;
    CardDistinct(enqueued);
    SubsetCard(visitedNodes, keys);
  }

  /**
   * When every visited node has been processed, the visited nodes are closed under
   * neighbours, so the visited edges are exactly the edges of the source's component.
   */
  lemma ExhaustedComponent(g: Graph, s: NodeId, sub: Graph, visitedNodes: set<NodeId>,
                           visitedEdges: set<EdgeId>, count: nat, enqueued: seq<NodeId>)
    requires Consistent(g, s, sub, visitedNodes, visitedEdges, count, enqueued)
    requires Processed(g, enqueued, visitedEdges)
    ensures visitedEdges == ComponentEdges(g, s)
  {
    forall t | t in Nbrs(g, visitedNodes) ensures t in visitedNodes {
      NbrsMem(g, visitedNodes, t);
      var e :| e in g.edgeAttrs && Joins(e, visitedNodes, t);
      var n := if e.src in visitedNodes && e.dst == t then e.src else e.dst;
      assert n in enqueued && Touches(e, n);
    }
    forall e | e in ComponentEdges(g, s) ensures e in visitedEdges {
      ClosedHoldsComponent(g, s, visitedNodes, e.src);
      assert e.src in enqueued && Touches(e, e.src);
    }
  }

  /**
   * What the search state says of the subgraph built so far: its edges lie in the source's
   * component, everything is copied from `g`, and its nodes are the source and the
   * endpoints of its edges.
   */
  lemma VisitedInComponent(g: Graph, s: NodeId, sub: Graph, visitedNodes: set<NodeId>,
                           visitedEdges: set<EdgeId>, count: nat, enqueued: seq<NodeId>)
    requires Consistent(g, s, sub, visitedNodes, visitedEdges, count, enqueued)
    ensures visitedEdges <= ComponentEdges(g, s)
    ensures count == |visitedEdges| == sub.NumberOfEdges()
    ensures forall e :: e in sub.edgeAttrs ==> e in ComponentEdges(g, s) && sub.edgeAttrs[e] == g.edgeAttrs[e]
    ensures forall n :: n in sub.nodeAttrs ==> n in g.nodeAttrs && sub.nodeAttrs[n] == g.nodeAttrs[n]
    ensures forall n :: n in sub.nodeAttrs <==> n == s || exists e :: e in sub.edgeAttrs && Touches(e, n)
    ensures forall n :: n in enqueued <==> n in sub.nodeAttrs
  {
    EdgeCount(sub);
    forall e | e in visitedEdges ensures e in ComponentEdges(g, s) {
      assert e in sub.edgeAttrs;
      ReachableStep(g, s, e);
    }
    EndpointsPresent(sub);
  }

  /** The endpoints of every edge of a graph are nodes of it. */
  lemma EndpointsPresent(h: Graph)
    requires h.Valid()
    ensures forall n, e :: e in h.edgeAttrs && Touches(e, n) ==> n in h.nodeAttrs
  {
  }

  /** The state after `add_node_with_attrs(source)`, with only the source queued. */
  lemma Start(g: Graph, s: NodeId)
    requires g.Valid() && s in g.nodeAttrs
    ensures Consistent(g, s, EmptyGraph().AddNode(s, g.nodeAttrs[s]), {s}, {}, 0, [s])
  {
    AddNodeValid(EmptyGraph(), s, g.nodeAttrs[s]);
    assert Reach(g, s, 0) == {s};
  }

  /** Dequeuing the head of the queue moves it to the processed nodes. */
  lemma Dequeue(done: seq<NodeId>, queue: seq<NodeId>)
    requires queue != []
    ensures (done + [queue[0]]) + queue[1..] == done + queue
  {
    assert queue == [queue[0]] + queue[1..];
  }

  /** A node whose edges are all visited joins the processed nodes. */
  lemma ProcessedStep(g: Graph, done: seq<NodeId>, u: NodeId, visitedEdges: set<EdgeId>, visitedEdges': set<EdgeId>)
    requires Processed(g, done, visitedEdges) && visitedEdges <= visitedEdges'
    requires forall e :: e in g.edgeAttrs && Touches(e, u) ==> e in visitedEdges'
    ensures Processed(g, done + [u], visitedEdges')
  {
  }

  /** Enqueuing a node seen for the first time keeps one entry per visited node. */
  lemma EnqueueFresh(done: seq<NodeId>, queue: seq<NodeId>, visitedNodes: set<NodeId>, n: NodeId)
    requires QueueOk(done + queue, visitedNodes) && n !in visitedNodes
    ensures QueueOk(done + (queue + [n]), visitedNodes + {n})
  {
    assert done + (queue + [n]) == (done + queue) + [n];
  }

  /** Every node of `h` is reachable from `s` in the undirected view of `h` itself. */
  ghost predicate Connected(h: Graph, s: NodeId) {
    forall n :: n in h.nodeAttrs ==> Reachable(h, s, n)
  }

  /** Joining by an edge of `g`, from a node of `A`, is joining by an edge of `h` from a node of `B`. */
  lemma NbrsSubgraph(g: Graph, h: Graph, A: set<NodeId>, B: set<NodeId>)
    requires g.nodeAttrs.Keys <= h.nodeAttrs.Keys && (forall e :: e in g.edges ==> e in h.edges) && A <= B
    ensures Nbrs(g, A) <= Nbrs(h, B)
  {
    forall t | t in Nbrs(g, A) ensures t in Nbrs(h, B) {
      JoinedByMem(g.edges, A, t);
      JoinedByMem(h.edges, B, t);
      var e :| e in g.edges && Joins(e, A, t);
      assert e in h.edges && Joins(e, B, t);
    }
  }

  /** A graph with more nodes and edges reaches at least as far in every number of hops. */
  lemma {:induction false} ReachSubgraph(g: Graph, h: Graph, s: NodeId, d: nat)
    requires g.nodeAttrs.Keys <= h.nodeAttrs.Keys && (forall e :: e in g.edges ==> e in h.edges)
    ensures Reach(g, s, d) <= Reach(h, s, d)
  {
    if d > 0 {
      ReachSubgraph(g, h, s, d - 1);
      NbrsSubgraph(g, h, Reach(g, s, d - 1), Reach(h, s, d - 1));
    }
  }

  /** The subgraph after `add_edge` of an edge with an endpoint in it stays connected to the source. */
  lemma ConnectedStep(sub: Graph, sub': Graph, s: NodeId, e: EdgeId)
    requires Connected(sub, s) && sub'.Valid()
    requires sub'.nodeAttrs.Keys == sub.nodeAttrs.Keys + {e.src, e.dst} && sub'.edges == sub.edges + [e]
    requires e.src in sub.nodeAttrs || e.dst in sub.nodeAttrs
    ensures Connected(sub', s)
  {
    forall n | n in sub.nodeAttrs ensures Reachable(sub', s, n) {
      var d: nat :| n in Reach(sub, s, d);
      ReachSubgraph(sub, sub', s, d);
    }
    assert e in sub'.edgeAttrs;
    ReachableStep(sub', s, e);
  }

  /**
   * The search as a value: the queue, the visited nodes and edges, and the edges taken so
   * far in the order they were added to the subgraph.
   */
  datatype Walk = Walk(queue: seq<NodeId>, seen: set<NodeId>, visited: set<EdgeId>, taken: seq<EdgeId>)

  /** The endpoints of the edges `es`. */
  function Ends(es: seq<EdgeId>): set<NodeId> {
    (set e | e in es :: e.src) + (set e | e in es :: e.dst)
  }

  /** Taking the unvisited edge `e`: mark it, append it, and queue each endpoint seen for the first time, the destination first. */
  function Take(w: Walk, e: EdgeId): (r: Walk)
    ensures r.seen == w.seen + {e.src, e.dst} && r.visited == w.visited + {e} && r.taken == w.taken + [e]
    ensures r.seen == w.seen ==> r.queue == w.queue
  {
    var q := if e.dst in w.seen then w.queue else w.queue + [e.dst];
    var seen := w.seen + {e.dst};
    Walk(if e.src in seen then q else q + [e.src], seen + {e.src}, w.visited + {e}, w.taken + [e])
  }

  /**
   * The edge loop over the edges `es` of one dequeued node: a visited edge is skipped, any
   * other is taken, and the loop stops as soon as `b` edges have been taken.
   */
  function Scan(es: seq<EdgeId>, w: Walk, b: nat): (r: Walk)
    ensures w.seen <= r.seen <= w.seen + Ends(es)
    ensures r.seen == w.seen ==> r.queue == w.queue
    ensures w.taken <= r.taken
    decreases |es|
  {
    if es == [] || |w.taken| >= b then w
    else
      assert Ends(es[1..]) <= Ends(es) by {
        assert forall e :: e in es[1..] ==> e in es;
      }
      if es[0] in w.visited then Scan(es[1..], w, b)
      else Scan(es[1..], Take(w, es[0]), b)
  }

  /** Every edge of `g` joins two nodes of `g`. */
  ghost predicate EdgesJoinNodes(g: Graph) {
    forall e :: e in g.edges ==> e.src in g.nodeAttrs && e.dst in g.nodeAttrs
  }

  /** `edge_iter(u)`: the out-edges of `u`, then its in-edges. */
  function Incident(g: Graph, u: NodeId): seq<EdgeId> {
    g.OutEdges(u) + g.InEdges(u)
  }

  /** The endpoints of the edges touching `u` are nodes of the graph. */
  lemma IncidentEnds(g: Graph, u: NodeId)
    requires EdgesJoinNodes(g)
    ensures Ends(Incident(g, u)) <= g.nodeAttrs.Keys
  {
    var es := Incident(g, u);
    forall n | n in Ends(es) ensures n in g.nodeAttrs {
      var e :| e in es && Touches(e, n);
    }
  }

  /** Seeing more nodes of `K` leaves fewer unseen. */
  lemma SeenGrows(K: set<NodeId>, A: set<NodeId>, B: set<NodeId>)
    requires A <= B <= K
    ensures A == B || |K - B| < |K - A|
  {
    if A != B {
      StrictSubsetCard(K - B, K - A);
    }
  }

  /** One turn of the queue loop: dequeue the head and scan its out-edges, then its in-edges. */
  function Turn(g: Graph, w: Walk, b: nat): (r: Walk)
    requires EdgesJoinNodes(g) && w.seen <= g.nodeAttrs.Keys && w.queue != []
    ensures w.taken <= r.taken && r.seen <= g.nodeAttrs.Keys
    ensures |g.nodeAttrs.Keys - r.seen| < |g.nodeAttrs.Keys - w.seen| || (r.seen == w.seen && |r.queue| < |w.queue|)
  {
    var r := Scan(Incident(g, w.queue[0]), w.(queue := w.queue[1..]), b);
    IncidentEnds(g, w.queue[0]);
    SeenGrows(g.nodeAttrs.Keys, w.seen, r.seen);
    r
  }

  /**
   * The queue loop of `extract_subgraph_by_edge_count` from `w`: turns while the queue is
   * not empty and fewer than `b` edges are taken.
   */
  function Bfs(g: Graph, w: Walk, b: nat): (r: Walk)
    requires EdgesJoinNodes(g) && w.seen <= g.nodeAttrs.Keys
    ensures w.taken <= r.taken
    ensures r.queue == [] || |r.taken| >= b
    decreases |g.nodeAttrs.Keys - w.seen|, |w.queue|
  {
    if w.queue == [] || |w.taken| >= b then w else Bfs(g, Turn(g, w, b), b)
  }

  /** The edges the walk from `s` takes with a budget of `b`, in the order it takes them. */
  function BfsEdges(g: Graph, s: NodeId, b: nat): seq<EdgeId>
    requires g.Valid() && s in g.nodeAttrs
  {
    Bfs(g, Walk([s], {s}, {}, []), b).taken
  }

  /** The order in which the walk from `s` takes edges when no budget stops it (one edge per edge of `g` suffices). */
  function BfsOrder(g: Graph, s: NodeId): seq<EdgeId>
    requires g.Valid() && s in g.nodeAttrs
  {
    BfsEdges(g, s, |g.edges|)
  }

  /** With a larger budget the edge loop takes the same edges first, and with a budget it never stopped at, the same state. */
  lemma {:induction false} ScanPrefix(es: seq<EdgeId>, w: Walk, b: nat, b': nat)
    requires |w.taken| <= b <= b'
    ensures |Scan(es, w, b).taken| <= b
    ensures Scan(es, w, b).taken <= Scan(es, w, b').taken
    ensures |Scan(es, w, b).taken| < b ==> Scan(es, w, b) == Scan(es, w, b')
    decreases |es|
  {
    if es != [] && |w.taken| < b {
      if es[0] in w.visited {
        ScanPrefix(es[1..], w, b, b');
      } else {
        ScanPrefix(es[1..], Take(w, es[0]), b, b');
      }
    }
  }

  /** `a` is the first `n` entries of `c`, or all of `c` when it has fewer. */
  predicate PrefixUpTo<T(==)>(a: seq<T>, c: seq<T>, n: nat) {
    a <= c && |a| <= n && (|a| == n || a == c)
  }

  /** The walk with budget `b` takes the first `b` edges that the walk with a larger budget takes, or all of them. */
  lemma {:induction false} BfsPrefix(g: Graph, w: Walk, b: nat, b': nat)
    requires EdgesJoinNodes(g) && w.seen <= g.nodeAttrs.Keys && |w.taken| <= b <= b'
    ensures PrefixUpTo(Bfs(g, w, b).taken, Bfs(g, w, b').taken, b)
    decreases |g.nodeAttrs.Keys - w.seen|, |w.queue|
  {
    if w.queue != [] && |w.taken| < b {
      var x, y := Turn(g, w, b), Turn(g, w, b');
      TurnPrefix(g, w, b, b');
      if |x.taken| < b {
        BfsPrefix(g, x, b, b');
      } else {
        assert Bfs(g, x, b) == x;
      }
    }
  }

  /** A turn under budget `b` takes a prefix of what the turn under `b'` takes, and stops short of `b` only when both turns agree. */
  lemma TurnPrefix(g: Graph, w: Walk, b: nat, b': nat)
    requires EdgesJoinNodes(g) && w.seen <= g.nodeAttrs.Keys && |w.taken| < b <= b' && w.queue != []
    ensures |Turn(g, w, b).taken| <= b && Turn(g, w, b).taken <= Turn(g, w, b').taken
    ensures |Turn(g, w, b).taken| < b ==> Turn(g, w, b) == Turn(g, w, b')
  {
    ScanPrefix(Incident(g, w.queue[0]), w.(queue := w.queue[1..]), b, b');
  }

  lemma PrefixMin<T>(a: seq<T>, c: seq<T>, n: nat)
    requires PrefixUpTo(a, c, n)
    ensures a == c[..Min(n, |c|)]
  {
  }

  /** The walk with budget `b` takes the first `b` edges of the unlimited order. */
  lemma BudgetPrefix(g: Graph, s: NodeId, b: nat)
    requires g.Valid() && s in g.nodeAttrs && b <= |g.edges|
    ensures BfsEdges(g, s, b) == BfsOrder(g, s)[..Min(b, |BfsOrder(g, s)|)]
  {
    var w := Walk([s], {s}, {}, []);
    BfsPrefix(g, w, b, |g.edges|);
    PrefixMin(Bfs(g, w, b).taken, Bfs(g, w, |g.edges|).taken, b);
  }

  /** The edges a run with budget `b` took, when no more than the graph has, are the first `b` of the unlimited order. */
  lemma TakenInOrder(g: Graph, s: NodeId, b: nat, taken: seq<EdgeId>)
    requires g.Valid() && s in g.nodeAttrs && taken == BfsEdges(g, s, b) && |taken| <= |g.edges|
    ensures taken == BfsOrder(g, s)[..Min(b, |BfsOrder(g, s)|)]
  {
    if b <= |g.edges| {
      BudgetPrefix(g, s, b);
    } else {
      BfsPrefix(g, Walk([s], {s}, {}, []), |g.edges|, b);
    }
  }

  /** A turn of the queue loop, as the loop's invariant uses it. */
  lemma BfsTurn(g: Graph, w: Walk, b: nat, x: Walk)
    requires EdgesJoinNodes(g) && w.seen <= g.nodeAttrs.Keys && w.queue != [] && |w.taken| < b
    requires x == Scan(Incident(g, w.queue[0]), w.(queue := w.queue[1..]), b)
    ensures x.seen <= g.nodeAttrs.Keys && Bfs(g, w, b) == Bfs(g, x, b)
  {
    assert x == Turn(g, w, b);
  }

  /** One step of the edge loop: skip a visited edge, take any other. */
  lemma ScanStep(es: seq<EdgeId>, w: Walk, b: nat)
    requires es != [] && |w.taken| < b
    ensures Scan(es, w, b) == Scan(es[1..], if es[0] in w.visited then w else Take(w, es[0]), b)
  {
  }

  /**
   * What the queue loop keeps true, with `done` the nodes dequeued so far: the search
   * invariant over every node enqueued, the budget respected, every edge touching a
   * dequeued node visited while under budget, the copy connected, and the walk from this
   * state ending where the walk from the source alone ends.
   */
  ghost predicate Searching(g: Graph, s: NodeId, budget: nat, sub: Graph, queue: seq<NodeId>, visitedNodes: set<NodeId>,
                            visitedEdges: set<EdgeId>, count: nat, done: seq<NodeId>) {
    && Consistent(g, s, sub, visitedNodes, visitedEdges, count, done + queue)
    && count <= budget
    && (count < budget ==> Processed(g, done, visitedEdges))
    && Connected(sub, s)
    && Bfs(g, Walk(queue, visitedNodes, visitedEdges, sub.edges), budget) == Bfs(g, Walk([s], {s}, {}, []), budget)
  }

  /**
   * The state the queue loop stops in: the search invariant, the copy connected, the budget
   * respected, every edge touching an enqueued node visited when it stopped under budget,
   * and the copy's edges the walk's first `budget` edges.
   */
  ghost predicate Stopped(g: Graph, s: NodeId, budget: nat, sub: Graph, visitedNodes: set<NodeId>,
                          visitedEdges: set<EdgeId>, count: nat, enqueued: seq<NodeId>) {
    && Consistent(g, s, sub, visitedNodes, visitedEdges, count, enqueued)
    && Connected(sub, s) && count <= budget
    && (count < budget ==> Processed(g, enqueued, visitedEdges))
    && sub.edges == BfsEdges(g, s, budget)
  }

  /**
   * What the search's final state says of the subgraph: it is a copy of part of the
   * source's component, connected to the source; its nodes are the source and the
   * endpoints of its edges, each enqueued once; and its edges are the first `budget` edges
   * of the walk's order, as many as the budget or the component allows.
   */
  lemma SearchResult(g: Graph, s: NodeId, budget: nat, sub: Graph, visitedNodes: set<NodeId>,
                     visitedEdges: set<EdgeId>, count: nat, enqueued: seq<NodeId>)
    requires g.Valid() && s in g.nodeAttrs && budget > 0
    requires Stopped(g, s, budget, sub, visitedNodes, visitedEdges, count, enqueued)
    ensures sub.edges == BfsOrder(g, s)[..Min(budget, |BfsOrder(g, s)|)]
    ensures sub.Valid()
    ensures forall e :: e in sub.edgeAttrs ==> e in ComponentEdges(g, s) && sub.edgeAttrs[e] == g.edgeAttrs[e]
    ensures forall n :: n in sub.nodeAttrs ==> n in g.nodeAttrs && sub.nodeAttrs[n] == g.nodeAttrs[n]
    ensures forall n :: n in sub.nodeAttrs <==> n == s || exists e :: e in sub.edgeAttrs && Touches(e, n)
    ensures sub.NumberOfEdges() == Min(budget, |ComponentEdges(g, s)|)
    ensures Distinct(enqueued) && forall n :: n in enqueued <==> n in sub.nodeAttrs
    ensures forall n :: n in sub.nodeAttrs ==> Reachable(sub, s, n)
  {
    VisitedInComponent(g, s, sub, visitedNodes, visitedEdges, count, enqueued);
    EnqueuedDistinct(enqueued, visitedNodes, g.nodeAttrs.Keys);
    SubsetCard(visitedEdges, g.edgeAttrs.Keys);
    EdgeCount(g);
    TakenInOrder(g, s, budget, sub.edges);
    if count < budget {
      ExhaustedComponent(g, s, sub, visitedNodes, visitedEdges, count, enqueued);
    } else {
      SubsetCard(visitedEdges, ComponentEdges(g, s));
    }
  }

  /** The path 0 -> 1 -> 2 -> 3 with a second, parallel edge from 0 to 1. */
  function ParallelPath(): Graph {
    var e := map[];
    Graph([0, 1, 2, 3], map[0 := e, 1 := e, 2 := e, 3 := e],
          [EdgeId(0, 1, 0), EdgeId(0, 1, 1), EdgeId(1, 2, 0), EdgeId(2, 3, 0)],
          map[EdgeId(0, 1, 0) := e, EdgeId(0, 1, 1) := e, EdgeId(1, 2, 0) := e, EdgeId(2, 3, 0) := e])
  }

  lemma ParallelPathValid()
    ensures ParallelPath().Valid() && 0 in ParallelPath().nodeAttrs && 1 in ParallelPath().nodeAttrs
  {
    var g := ParallelPath();
    ParallelPathNodes(g.nodes, g.nodeAttrs);
    ParallelPathEdges(g.edges, g.edgeAttrs);
  }

  lemma ParallelPathNodes(ns: seq<NodeId>, attrs: map<NodeId, Attrs>)
    requires ns == ParallelPath().nodes && attrs == ParallelPath().nodeAttrs
    ensures Distinct(ns) && (forall n :: n in attrs <==> n in ns) && attrs.Keys == {0, 1, 2, 3}
  {
  }

  lemma ParallelPathEdges(es: seq<EdgeId>, attrs: map<EdgeId, Attrs>)
    requires es == ParallelPath().edges && attrs == ParallelPath().edgeAttrs
    ensures Distinct(es) && (forall e :: e in attrs <==> e in es)
    ensures forall e :: e in attrs ==> 0 <= e.src <= 3 && 0 <= e.dst <= 3
  {
  }

  /**
   * On that graph a budget of two edges from node 0 takes both parallel edges: node 0 is
   * scanned first, and its out-edges to 1 come before anything reached through node 1.
   */
  lemma ParallelPathOrder()
    ensures ParallelPath().Valid() && 0 in ParallelPath().nodeAttrs
    ensures BfsOrder(ParallelPath(), 0)[..Min(2, |BfsOrder(ParallelPath(), 0)|)] ==
            [EdgeId(0, 1, 0), EdgeId(0, 1, 1)]
  {
    ParallelPathValid();
    ParallelPathIncident(ParallelPath());
    TwoFirst(ParallelPath());
    BudgetPrefix(ParallelPath(), 0, 2);
  }

  /** When node 0's incident edges are the two parallel edges 0 -> 1, they are the walk's first two. */
  lemma TwoFirst(g: Graph)
    requires g.Valid() && 0 in g.nodeAttrs && 1 in g.nodeAttrs
    requires Incident(g, 0) == [EdgeId(0, 1, 0), EdgeId(0, 1, 1)]
    ensures BfsEdges(g, 0, 2) == [EdgeId(0, 1, 0), EdgeId(0, 1, 1)]
  {
    var w := Walk([0], {0}, {}, []);
    assert w.(queue := w.queue[1..]) == Walk([], {0}, {}, []);
    var x := Scan(Incident(g, 0), Walk([], {0}, {}, []), 2);
    ParallelPathScan(x);
    BfsTurn(g, w, 2, x);
  }

  /** Node 0's incident edges are the two parallel edges, both out-edges. */
  lemma ParallelPathIncident(g: Graph)
    requires g == ParallelPath()
    ensures Incident(g, 0) == [EdgeId(0, 1, 0), EdgeId(0, 1, 1)]
  {
    ParallelPathOut(g);
    NoneIn(g.InEdges(0));
  }

  lemma ParallelPathOut(g: Graph)
    requires g == ParallelPath()
    ensures g.OutEdges(0) == [EdgeId(0, 1, 0), EdgeId(0, 1, 1)]
  {
    var es := [EdgeId(0, 1, 0), EdgeId(0, 1, 1), EdgeId(1, 2, 0), EdgeId(2, 3, 0)];
    assert g.edges == es;
    DstsFrom0(es);
    DedupTwice(1);
    PairsFrom01(es);
    OutGatherOne(es);
  }

  lemma DedupTwice(x: NodeId)
    ensures Dedup([x, x]) == [x]
  {
    assert [x, x][..1] == [x] && [x][..0] == [];
    assert Dedup([x]) == [x];
  }

  lemma DstsSnoc(es: seq<EdgeId>, e: EdgeId, u: NodeId)
    ensures DstsFrom(es + [e], u) == if e.src == u then DstsFrom(es, u) + [e.dst] else DstsFrom(es, u)
  {
    assert (es + [e])[..|es|] == es;
  }

  lemma PairsSnoc(es: seq<EdgeId>, e: EdgeId, u: NodeId, v: NodeId)
    ensures PairEdges(es + [e], u, v) == if e.src == u && e.dst == v then PairEdges(es, u, v) + [e] else PairEdges(es, u, v)
  {
    assert (es + [e])[..|es|] == es;
  }

  lemma DstsFrom0(es: seq<EdgeId>)
    requires es == [EdgeId(0, 1, 0), EdgeId(0, 1, 1), EdgeId(1, 2, 0), EdgeId(2, 3, 0)]
    ensures DstsFrom(es, 0) == [1, 1]
  {
    var e0, e1, e2, e3 := EdgeId(0, 1, 0), EdgeId(0, 1, 1), EdgeId(1, 2, 0), EdgeId(2, 3, 0);
    var p1 := [] + [e0];
    var p2 := p1 + [e1];
    var p3 := p2 + [e2];
    assert es == p3 + [e3];
    DstsSnoc([], e0, 0);
    DstsSnoc(p1, e1, 0);
    DstsSnoc(p2, e2, 0);
    DstsSnoc(p3, e3, 0);
  }

  lemma OutGatherOne(es: seq<EdgeId>)
    ensures OutGather(es, 0, [1]) == PairEdges(es, 0, 1)
  {
    assert [1][1..] == [];
  }

  lemma PairsFrom01(es: seq<EdgeId>)
    requires es == [EdgeId(0, 1, 0), EdgeId(0, 1, 1), EdgeId(1, 2, 0), EdgeId(2, 3, 0)]
    ensures PairEdges(es, 0, 1) == [EdgeId(0, 1, 0), EdgeId(0, 1, 1)]
  {
    var e0, e1, e2, e3 := EdgeId(0, 1, 0), EdgeId(0, 1, 1), EdgeId(1, 2, 0), EdgeId(2, 3, 0);
    var p1 := [] + [e0];
    var p2 := p1 + [e1];
    var p3 := p2 + [e2];
    assert es == p3 + [e3];
    PairsSnoc([], e0, 0, 1);
    PairsSnoc(p1, e1, 0, 1);
    PairsSnoc(p2, e2, 0, 1);
    PairsSnoc(p3, e3, 0, 1);
  }

  lemma ParallelPathScan(x: Walk)
    requires x == Scan([EdgeId(0, 1, 0), EdgeId(0, 1, 1)], Walk([], {0}, {}, []), 2)
    ensures x == Walk([1], {0, 1}, {EdgeId(0, 1, 0), EdgeId(0, 1, 1)}, [EdgeId(0, 1, 0), EdgeId(0, 1, 1)])
  {
    var e0, e1 := EdgeId(0, 1, 0), EdgeId(0, 1, 1);
    var y := Take(Walk([], {0}, {}, []), e0);
    TakeFirst(y);
    ScanStep([e0, e1], Walk([], {0}, {}, []), 2);
    assert [e0, e1][1..] == [e1];
    ScanStep([e1], y, 2);
    assert [e1][1..] == [];
    TakeSecond(y);
  }

  lemma TakeFirst(y: Walk)
    requires y == Take(Walk([], {0}, {}, []), EdgeId(0, 1, 0))
    ensures y == Walk([1], {0, 1}, {EdgeId(0, 1, 0)}, [EdgeId(0, 1, 0)])
  {
  }

  lemma TakeSecond(y: Walk)
    requires y == Walk([1], {0, 1}, {EdgeId(0, 1, 0)}, [EdgeId(0, 1, 0)])
    ensures Take(y, EdgeId(0, 1, 1)) == Walk([1], {0, 1}, {EdgeId(0, 1, 0), EdgeId(0, 1, 1)}, [EdgeId(0, 1, 0), EdgeId(0, 1, 1)])
  {
  }

  lemma NoneIn(r: seq<EdgeId>)
    requires forall e :: e in r <==> e in ParallelPath().edges && e.dst == 0
    ensures r == []
  {
    if r != [] {
      HeadIn(r);
      assert false;
    }
  }

  lemma HeadIn<T>(r: seq<T>)
    requires r != []
    ensures r[0] in r
  {
  }

  /** A subgraph whose nodes are node 0 and the endpoints of the two parallel edges holds nodes 0 and 1. */
  lemma ParallelPathNodeSet(sub: Graph)
    requires sub.Valid() && sub.edges == [EdgeId(0, 1, 0), EdgeId(0, 1, 1)]
    requires forall n :: n in sub.nodeAttrs <==> n == 0 || exists e :: e in sub.edgeAttrs && Touches(e, n)
    ensures sub.nodeAttrs.Keys == {0, 1}
  {
    assert EdgeId(0, 1, 0) in sub.edgeAttrs;
    forall n | n in sub.nodeAttrs
      ensures n == 0 || n == 1
    {
    }
  }
}
