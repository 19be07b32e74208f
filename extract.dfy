/**
 * `DirectedGraph.extract_subgraph_by_edge_count` (graph.py): a breadth-first expansion
 * from a source node over the undirected view that copies edges, with their keys and
 * attributes, until the edge budget is spent or the source's component is exhausted.
 */
module EdgeBudget {
  import opened Wrappers
  import opened PyStr
  import opened Multigraph
  import opened Undirected
  import opened EdgeSearch

  /** Marks `n` visited and appends it to the queue, unless it was visited already. */
  method Enqueue(queue: seq<NodeId>, visitedNodes: set<NodeId>, n: NodeId, ghost done: seq<NodeId>)
      returns (queue': seq<NodeId>, visitedNodes': set<NodeId>)
    requires QueueOk(done + queue, visitedNodes)
    ensures QueueOk(done + queue', visitedNodes') && visitedNodes' == visitedNodes + {n}
    ensures queue' == if n in visitedNodes then queue else queue + [n]
  {
    if n in visitedNodes {
      return queue, visitedNodes;
    }
    EnqueueFresh(done, queue, visitedNodes, n);
    queue', visitedNodes' := queue + [n], visitedNodes + {n};
  }

  /**
   * The body of the edge loop for an edge not visited yet: mark it, add its endpoints with
   * their attributes and the edge with its key and data, count it, and enqueue each endpoint
   * seen for the first time (the destination first).  `done` lists the nodes already
   * dequeued.
   */
  method VisitEdge(g: Graph, s: NodeId, e: EdgeId, sub: Graph, queue: seq<NodeId>,
                   visitedNodes: set<NodeId>, visitedEdges: set<EdgeId>, count: nat, ghost done: seq<NodeId>)
      returns (sub': Graph, queue': seq<NodeId>, visitedNodes': set<NodeId>,
               visitedEdges': set<EdgeId>, count': nat)
    requires Consistent(g, s, sub, visitedNodes, visitedEdges, count, done + queue)
    requires e in g.edgeAttrs && e !in visitedEdges
    requires e.src in visitedNodes || e.dst in visitedNodes
    requires Connected(sub, s)
    ensures Consistent(g, s, sub', visitedNodes', visitedEdges', count', done + queue')
    ensures Connected(sub', s)
    ensures Walk(queue', visitedNodes', visitedEdges', sub'.edges) == Take(Walk(queue, visitedNodes, visitedEdges, sub.edges), e)
  {
    ReachEdge(g, s, visitedNodes, e, visitedNodes + {e.src, e.dst});
    visitedEdges' := visitedEdges + {e};
    sub' := CopyEdgeInto(g, sub, e, visitedNodes, visitedEdges, count);
    ConnectedStep(sub, sub', s, e);
    count' := count + 1;
    queue', visitedNodes' := Enqueue(queue, visitedNodes, e.dst, done);
    queue', visitedNodes' := Enqueue(queue', visitedNodes', e.src, done);
    AddBoth(visitedNodes, e.src, e.dst);
    WitnessEdge(s, visitedNodes, visitedEdges, e, visitedNodes');
  }

  lemma AddBoth<T>(a: set<T>, x: T, y: T)
    ensures a + {y} + {x} == a + {x, y}
  {
  }

  /** Adds the endpoints of `e` that the subgraph lacks, with their attributes, then `e` with its key and data. */
  method CopyEdgeInto(g: Graph, sub: Graph, e: EdgeId, ghost visitedNodes: set<NodeId>,
                      ghost visitedEdges: set<EdgeId>, ghost count: nat)
      returns (sub': Graph)
    requires SubCopy(g, sub, visitedNodes, visitedEdges, count)
    requires e in g.edgeAttrs && e !in visitedEdges && e.src in g.nodeAttrs && e.dst in g.nodeAttrs
    ensures SubCopy(g, sub', visitedNodes + {e.src, e.dst}, visitedEdges + {e}, count + 1)
    ensures sub'.edges == sub.edges + [e]
  {
    sub' := sub;
    ghost var nodes := visitedNodes;
    if e.src !in sub'.nodeAttrs {
      CopyNode(g, sub', nodes, visitedEdges, count, e.src);
      sub' := sub'.AddNode(e.src, g.nodeAttrs[e.src]);
      nodes := nodes + {e.src};
    }
    if e.dst !in sub'.nodeAttrs {
      CopyNode(g, sub', nodes, visitedEdges, count, e.dst);
      sub' := sub'.AddNode(e.dst, g.nodeAttrs[e.dst]);
      nodes := nodes + {e.dst};
    }
    assert nodes == visitedNodes + {e.src, e.dst};
    CopyEdge(g, sub', nodes, visitedEdges, count, e);
    assert e == EdgeId(e.src, e.dst, e.key);
    sub' := sub'.AddEdgeWithKey(e.src, e.dst, e.key, g.edgeAttrs[e]);
  }

  /** `edge_iter(u)`: the out-edges of `u`, then its in-edges, as networkx lists them. */
  method EdgeIter(g: Graph, u: NodeId) returns (es: seq<EdgeId>)
    requires g.Valid()
    ensures es == Incident(g, u)
    ensures forall e :: e in es <==> e in g.edgeAttrs && Touches(e, u)
  {
    es := g.OutEdges(u) + g.InEdges(u);
  }

  /**
   * The edge loop for one dequeued node `u`: its out-edges, then its in-edges, skipping
   * those already visited, stopping as soon as the budget is reached.
   */
  method VisitIncident(g: Graph, s: NodeId, budget: nat, u: NodeId, sub: Graph, queue: seq<NodeId>,
                       visitedNodes: set<NodeId>, visitedEdges: set<EdgeId>, count: nat, ghost done: seq<NodeId>)
      returns (sub': Graph, queue': seq<NodeId>, visitedNodes': set<NodeId>,
               visitedEdges': set<EdgeId>, count': nat)
    requires Consistent(g, s, sub, visitedNodes, visitedEdges, count, done + queue)
    requires u in visitedNodes && count < budget && Connected(sub, s)
    ensures Consistent(g, s, sub', visitedNodes', visitedEdges', count', done + queue')
    ensures Connected(sub', s)
    ensures visitedEdges <= visitedEdges' && count <= count' <= budget
    ensures count' < budget ==> forall e :: e in g.edgeAttrs && Touches(e, u) ==> e in visitedEdges'
    ensures Walk(queue', visitedNodes', visitedEdges', sub'.edges) ==
              Scan(Incident(g, u), Walk(queue, visitedNodes, visitedEdges, sub.edges), budget)
  {
    var es := EdgeIter(g, u);
    sub', queue', visitedNodes', visitedEdges', count' := sub, queue, visitedNodes, visitedEdges, count;
    var rest := es;
    while rest != [] && count' < budget
      invariant Consistent(g, s, sub', visitedNodes', visitedEdges', count', done + queue')
      invariant Connected(sub', s)
      invariant u in visitedNodes'
      invariant visitedEdges <= visitedEdges' && count <= count' <= budget
      invariant forall f :: f in es ==> f in rest || f in visitedEdges'
      invariant forall f :: f in rest ==> f in es
      invariant Scan(rest, Walk(queue', visitedNodes', visitedEdges', sub'.edges), budget) ==
                Scan(es, Walk(queue, visitedNodes, visitedEdges, sub.edges), budget)
    {
      var e := rest[0];
      ScanStep(rest, Walk(queue', visitedNodes', visitedEdges', sub'.edges), budget);
      rest := rest[1..];
      if e !in visitedEdges' {
        sub', queue', visitedNodes', visitedEdges', count' :=
          VisitEdge(g, s, e, sub', queue', visitedNodes', visitedEdges', count', done);
      }
    }
  }

  /**
   * `extract_subgraph_by_edge_count(source_node, num_edges)`: an error when the source is
   * absent; otherwise a new graph with the source, at most `num_edges` edges of the source's
   * component copied with their keys and data, and exactly the endpoints of those edges,
   * copied with their attributes.  The ghost `enqueued` lists the nodes in the order they
   * entered the queue.
   */
  method ExtractSubgraphByEdgeCount(g: Graph, source: NodeId, budget: int)
      returns (r: Result<Graph>, ghost enqueued: seq<NodeId>)
    requires g.Valid()
    ensures source !in g.nodeAttrs ==> r == Failure(ValueError("Node " + IntToString(source) + " not found in graph."))
    ensures source in g.nodeAttrs && budget <= 0 ==>
              r == Success(Graph([source], map[source := g.nodeAttrs[source]], [], map[]))
    ensures source in g.nodeAttrs ==> r.Success?
    ensures r.Success? ==> r.value.Valid()
    ensures r.Success? ==> forall e :: e in r.value.edgeAttrs ==>
              e in ComponentEdges(g, source) && r.value.edgeAttrs[e] == g.edgeAttrs[e]
    ensures r.Success? ==> forall n :: n in r.value.nodeAttrs ==>
              n in g.nodeAttrs && r.value.nodeAttrs[n] == g.nodeAttrs[n]
    ensures r.Success? ==> forall n :: n in r.value.nodeAttrs <==>
              n == source || exists e :: e in r.value.edgeAttrs && Touches(e, n)
    ensures r.Success? ==>
              r.value.NumberOfEdges() == if budget <= 0 then 0 else Min(budget, |ComponentEdges(g, source)|)
    ensures r.Success? && budget > 0 ==>
              Distinct(enqueued) && forall n :: n in enqueued <==> n in r.value.nodeAttrs
    ensures r.Success? ==> forall n :: n in r.value.nodeAttrs ==> Reachable(r.value, source, n)
    ensures r.Success? && budget > 0 ==>
              r.value.edges == BfsOrder(g, source)[..Min(budget, |BfsOrder(g, source)|)]
  {
    enqueued := [];
    if source !in g.nodeAttrs {
      return Failure(ValueError("Node " + IntToString(source) + " not found in graph.")), enqueued;
    }
    if budget <= 0 {
      AddNodeValid(EmptyGraph(), source, g.nodeAttrs[source]);
      var sub := EmptyGraph().AddNode(source, g.nodeAttrs[source]);
      assert Reach(sub, source, 0) == {source};
      assert sub.nodes == [source] && sub.nodeAttrs == map[source := g.nodeAttrs[source]];
      return Success(sub), enqueued;
    }
    var sub, visitedNodes, visitedEdges, count;
    sub, visitedNodes, visitedEdges, count, enqueued := Search(g, source, budget);
    SearchResult(g, source, budget, sub, visitedNodes, visitedEdges, count, enqueued);
    return Success(sub), enqueued;
  }

  /**
   * The search proper, for a source of the graph and a positive budget: the source is added
   * with its attributes and queued, then the queue loop runs.  The result is the state the
   * loop stops in; the ghost `enqueued` lists the nodes in the order they entered the queue.
   */
  method Search(g: Graph, source: NodeId, budget: nat)
      returns (sub: Graph, visitedNodes: set<NodeId>, visitedEdges: set<EdgeId>, count: nat, ghost enqueued: seq<NodeId>)
    requires g.Valid() && source in g.nodeAttrs && budget > 0
    ensures Stopped(g, source, budget, sub, visitedNodes, visitedEdges, count, enqueued)
  {
    sub := EmptyGraph();
    AddNodeValid(sub, source, g.nodeAttrs[source]);
    sub := sub.AddNode(source, g.nodeAttrs[source]);
    assert Reach(sub, source, 0) == {source};
    var queue := [source];
    visitedNodes := {source};
    visitedEdges := {};
    count := 0;
    ghost var done: seq<NodeId> := [];
    Start(g, source);
    assert done + queue == [source];
    while queue != [] && count < budget
      invariant Searching(g, source, budget, sub, queue, visitedNodes, visitedEdges, count, done)
      invariant |done| <= |g.nodeAttrs.Keys|
      decreases |g.nodeAttrs.Keys| - |done|
    {
      sub, queue, visitedNodes, visitedEdges, count, done :=
        SearchTurn(g, source, budget, sub, queue, visitedNodes, visitedEdges, count, done);
    }
    enqueued := done + queue;
    if count < budget {
      assert enqueued == done;
    }
  }

  /** One turn of the queue loop: dequeue a node, then run its edge loop. */
  method SearchTurn(g: Graph, source: NodeId, budget: nat, sub: Graph, queue: seq<NodeId>, visitedNodes: set<NodeId>,
                    visitedEdges: set<EdgeId>, count: nat, ghost done: seq<NodeId>)
      returns (sub': Graph, queue': seq<NodeId>, visitedNodes': set<NodeId>, visitedEdges': set<EdgeId>, count': nat,
               ghost done': seq<NodeId>)
    requires Searching(g, source, budget, sub, queue, visitedNodes, visitedEdges, count, done)
    requires queue != [] && count < budget
    ensures Searching(g, source, budget, sub', queue', visitedNodes', visitedEdges', count', done')
    ensures done' == done + [queue[0]] && |done'| <= |g.nodeAttrs.Keys|
  {
    EnqueuedDistinct(done + queue, visitedNodes, g.nodeAttrs.Keys);
    var u := queue[0];
    ghost var w := Walk(queue, visitedNodes, visitedEdges, sub.edges);
    Dequeue(done, queue);
    done' := done + [u];
    sub', queue', visitedNodes', visitedEdges', count' :=
      VisitIncident(g, source, budget, u, sub, queue[1..], visitedNodes, visitedEdges, count, done');
    BfsTurn(g, w, budget, Walk(queue', visitedNodes', visitedEdges', sub'.edges));
    if count' < budget {
      ProcessedStep(g, done, u, visitedEdges, visitedEdges');
    }
    EnqueuedDistinct(done' + queue', visitedNodes', g.nodeAttrs.Keys);
  }

  /**
   * Two edges from node 0 of the path 0 -> 1 -> 2 -> 3 whose first hop is doubled: the
   * result holds nodes 0 and 1 and both parallel edges, and nothing reached through node 1.
   */
  method ParallelPathExample() returns (r: Result<Graph>)
    ensures r.Success? && r.value.nodeAttrs.Keys == {0, 1}
    ensures r.Success? && r.value.edges == [EdgeId(0, 1, 0), EdgeId(0, 1, 1)]
  {
    ParallelPathOrder();
    ghost var enqueued;
    r, enqueued := ExtractSubgraphByEdgeCount(ParallelPath(), 0, 2);
    ParallelPathNodeSet(r.value);
  }
}
