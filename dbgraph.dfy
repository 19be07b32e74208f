/**
 * `DBGraph` (graph.py): a directed multigraph that also carries the id it has in a graph
 * database.  The id is whatever the caller gave: nothing, an integer, or the text of a
 * ".data" header.
 */
module DbGraph {
  import opened Wrappers
  import opened PyStr
  import opened Multigraph

  datatype GraphId = NoId | IntId(i: int) | StrId(s: string)

  /** The id as an f-string writes it: `None`, the decimal integer, or the text itself. */
  function FormatGraphId(id: GraphId): (r: string)
    ensures id.NoId? ==> r == "None"
    ensures id.IntId? ==> ParseInt(r) == Some(id.i)
    ensures id.StrId? ==> r == id.s
  {
    match id
    case NoId => "None"
    case IntId(i) => IntToStringRoundTrip(i); IntToString(i)
    case StrId(s) => s
  }

  class DBGraph {
    var graph: Graph
    var graphId: GraphId

    ghost predicate Valid()
      reads this
    {
      graph.Valid()
    }

    /** `DBGraph(graph_id=id)`: an empty graph with that id. */
    constructor(id: GraphId)
      ensures Valid()
      ensures graph == EmptyGraph() && graphId == id
    {
      graph := EmptyGraph();
      graphId := id;
    }

    function GetGraphId(): GraphId
      reads this
    {
      graphId
    }

    /** `set_graph_id`: only the id changes, and `get_graph_id` then returns it. */
    method SetGraphId(id: GraphId)
      modifies this
      ensures GetGraphId() == id
      ensures graph == old(graph)
    {
      graphId := id;
    }

    /** `add_node(n, **attrs)` on this graph. */
    method AddNode(n: NodeId, attrs: Attrs)
      requires Valid()
      modifies this
      ensures Valid()
      ensures graph == old(graph).AddNode(n, attrs) && graphId == old(graphId)
    {
      AddNodeValid(graph, n, attrs);
      graph := graph.AddNode(n, attrs);
    }

    /** `add_edge(u, v, **attrs)` on this graph; returns the key it chose. */
    method AddEdge(u: NodeId, v: NodeId, attrs: Attrs) returns (key: nat)
      requires Valid()
      modifies this
      ensures Valid()
      ensures key == old(graph).NewEdgeKey(u, v)
      ensures graph == old(graph).AddEdge(u, v, attrs) && graphId == old(graphId)
    {
      key := graph.NewEdgeKey(u, v);
      AddEdgeValid(graph, u, v, attrs);
      graph := graph.AddEdge(u, v, attrs);
    }

    /** `add_edge(u, v, key=key, **attrs)` on this graph. */
    method AddEdgeWithKey(u: NodeId, v: NodeId, key: nat, attrs: Attrs)
      requires Valid()
      modifies this
      ensures Valid()
      ensures graph == old(graph).AddEdgeWithKey(u, v, key, attrs) && graphId == old(graphId)
    {
      AddEdgeWithKeyValid(graph, u, v, key, attrs);
      graph := graph.AddEdgeWithKey(u, v, key, attrs);
    }

    /**
     * `copy()`: a new `DBGraph` with the same id, filled by adding every node with its
     * attributes, then every edge of the edge view with its key and attributes.
     */
    method Copy() returns (c: DBGraph)
      requires Valid()
      ensures fresh(c) && c.Valid()
      ensures c.graph == CopyOf(graph) && c.graphId == graphId
    {
      c := new DBGraph(graphId);
      c.AddNodesOf(graph);
      c.AddEdgesOf(graph);
    }

    /** `add_nodes_from(g.nodes(data=True))` on an empty graph. */
    method AddNodesOf(g: Graph)
      requires Valid() && g.Valid() && graph == EmptyGraph()
      modifies this
      ensures Valid() && graphId == old(graphId)
      ensures graph == Graph(g.nodes, g.nodeAttrs, [], map[])
    {
      var i := 0;
      while i < |g.nodes|
        invariant 0 <= i <= |g.nodes|
        invariant Valid() && graphId == old(graphId)
        invariant graph == Graph(g.nodes[..i], Restrict(g.nodeAttrs, g.nodes[..i]), [], map[])
      {
        var n := g.nodes[i];
        CopyNodeStep(g, i);
        AddNode(n, g.nodeAttrs[n]);
        i := i + 1;
      }
      CopyNodesDone(g);
    }

    /** `add_edges_from(g.edges(data=True, keys=True))` on a graph holding just the nodes of `g`. */
    method AddEdgesOf(g: Graph)
      requires Valid() && g.Valid() && graph == Graph(g.nodes, g.nodeAttrs, [], map[])
      modifies this
      ensures Valid() && graphId == old(graphId)
      ensures graph == CopyOf(g)
    {
      var view := g.EdgesView();
      assert Distinct(view) && forall e :: e in view ==> e in g.edgeAttrs by {
        EdgesViewIsPermutation(g);
      }
      var j := 0;
      while j < |view|
        invariant 0 <= j <= |view|
        invariant Valid() && graphId == old(graphId)
        invariant graph == Graph(g.nodes, g.nodeAttrs, view[..j], Restrict(g.edgeAttrs, view[..j]))
      {
        var e := view[j];
        CopyEdgeStep(g, view, j);
        AddEdgeWithKey(e.src, e.dst, e.key, g.edgeAttrs[e]);
        j := j + 1;
      }
      CopyEdgesDone(g, view);
    }
  }

  lemma CopyNodeStep(g: Graph, i: nat)
    requires g.Valid() && i < |g.nodes|
    ensures Graph(g.nodes[..i], Restrict(g.nodeAttrs, g.nodes[..i]), [], map[]).Valid()
    ensures Graph(g.nodes[..i], Restrict(g.nodeAttrs, g.nodes[..i]), [], map[]).AddNode(g.nodes[i], g.nodeAttrs[g.nodes[i]])
              == Graph(g.nodes[..i + 1], Restrict(g.nodeAttrs, g.nodes[..i + 1]), [], map[])
  {
    var n := g.nodes[i];
    var p := g.nodes[..i];
    var q := g.nodes[..i + 1];
    var h := Graph(p, Restrict(g.nodeAttrs, p), [], map[]);
    PrefixValid(g, i);
    DistinctNotBefore(g.nodes, i);
    assert n !in h.nodeAttrs;
    assert q == p + [n];
    RestrictSnoc(g.nodeAttrs, p, n);
  }

  /** The first `i` nodes of a graph, with their attributes and no edges, form a graph. */
  lemma PrefixValid(g: Graph, i: nat)
    requires g.Valid() && i <= |g.nodes|
    ensures Graph(g.nodes[..i], Restrict(g.nodeAttrs, g.nodes[..i]), [], map[]).Valid()
  {
    var p := g.nodes[..i];
    forall a, b | 0 <= a < b < |p| ensures p[a] != p[b] {
      assert p[a] == g.nodes[a] && p[b] == g.nodes[b];
    }
  }

  lemma CopyNodesDone(g: Graph)
    requires g.Valid()
    ensures Graph(g.nodes[..|g.nodes|], Restrict(g.nodeAttrs, g.nodes[..|g.nodes|]), [], map[]) == Graph(g.nodes, g.nodeAttrs, [], map[])
  {
    assert g.nodes[..|g.nodes|] == g.nodes;
    assert forall k :: k in g.nodes <==> k in g.nodeAttrs;
    RestrictAll(g.nodeAttrs, g.nodes);
  }

  lemma CopyEdgeStep(g: Graph, view: seq<EdgeId>, j: nat)
    requires g.Valid() && Distinct(view) && (forall e :: e in view ==> e in g.edgeAttrs) && j < |view|
    ensures Graph(g.nodes, g.nodeAttrs, view[..j], Restrict(g.edgeAttrs, view[..j])).Valid()
    ensures Graph(g.nodes, g.nodeAttrs, view[..j], Restrict(g.edgeAttrs, view[..j])).AddEdgeWithKey(view[j].src, view[j].dst, view[j].key, g.edgeAttrs[view[j]])
              == Graph(g.nodes, g.nodeAttrs, view[..j + 1], Restrict(g.edgeAttrs, view[..j + 1]))
  {
    var e := view[j];
    var p := view[..j];
    var q := view[..j + 1];
    EdgePrefixValid(g, view, j);
    DistinctNotBefore(view, j);
    var h := Graph(g.nodes, g.nodeAttrs, p, Restrict(g.edgeAttrs, p));
    assert e !in h.edgeAttrs;
    AddNewEdge(h, e, g.edgeAttrs[e]);
    assert q == p + [e];
    assert q[..j] == p;
    assert Restrict(g.edgeAttrs, q) == h.edgeAttrs[e := g.edgeAttrs[e]];
  }

  /** The nodes of a graph with the first `j` edges of a duplicate-free listing of its edges form a graph. */
  lemma EdgePrefixValid(g: Graph, view: seq<EdgeId>, j: nat)
    requires g.Valid() && Distinct(view) && (forall e :: e in view ==> e in g.edgeAttrs) && j <= |view|
    ensures Graph(g.nodes, g.nodeAttrs, view[..j], Restrict(g.edgeAttrs, view[..j])).Valid()
  {
    var p := view[..j];
    forall a, b | 0 <= a < b < |p| ensures p[a] != p[b] {
      assert p[a] == view[a] && p[b] == view[b];
    }
  }

  lemma CopyEdgesDone(g: Graph, view: seq<EdgeId>)
    requires g.Valid() && view == g.EdgesView()
    ensures Graph(g.nodes, g.nodeAttrs, view[..|view|], Restrict(g.edgeAttrs, view[..|view|])) == CopyOf(g)
  {
    EdgesViewIsPermutation(g);
    assert view[..|view|] == view;
    assert forall k :: k in view <==> k in g.edgeAttrs;
    RestrictAll(g.edgeAttrs, view);
  }
}
