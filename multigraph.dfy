/**
 * The directed multigraph the program builds on (a networkx `MultiDiGraph`, which
 * `DirectedGraph` in graph.py extends), modelled as a value: the node ids in insertion
 * order with a map from id to attribute map, and the edge ids `(src, dst, key)` in
 * insertion order with a map from edge id to attribute map.  The listing orders that the
 * algorithms depend on (out-edges, in-edges, the whole edge view) are derived from the
 * insertion order the same way networkx's nested adjacency dictionaries order them.
 */
module Multigraph {

  type NodeId = int

  /** An attribute value: the core stores strings (`label`) and lists of strings (`labels`). */
  datatype Value = Str(s: string) | StrList(items: seq<string>)

  type Attrs = map<string, Value>

  /** An edge identity: the ordered pair and the key that tells parallel edges apart. */
  datatype EdgeId = EdgeId(src: NodeId, dst: NodeId, key: nat)

  predicate Distinct<T(==)>(s: seq<T>) {
    forall i, j :: 0 <= i < j < |s| ==> s[i] != s[j]
  }

  lemma DistinctAppend<T>(a: seq<T>, b: seq<T>)
    requires Distinct(a) && Distinct(b)
    requires forall x :: x in a ==> x !in b
    ensures Distinct(a + b)
  {
    var c := a + b;
    forall i, j | 0 <= i < j < |c| ensures c[i] != c[j] {
      if j < |a| {
      } else if i >= |a| {
        assert c[i] == b[i - |a|] && c[j] == b[j - |a|];
      } else {
        assert c[i] in a && c[j] == b[j - |a|];
      }
    }
  }

  /** A duplicate-free sequence has as many elements as its set. */
  lemma {:induction false} DistinctCard<T>(s: seq<T>)
    requires Distinct(s)
    ensures |set x | x in s| == |s|
  {
    if s != [] {
      var t := s[..|s| - 1];
      assert Distinct(t);
      DistinctCard(t);
      assert (set x | x in s) == (set x | x in t) + {s[|s| - 1]};
      assert s[|s| - 1] !in t;
    }
  }

  /** The entries of `m` under the keys `ks`, added in the order of `ks`. */
  function Restrict<K(!new), V>(m: map<K, V>, ks: seq<K>): (r: map<K, V>)
    requires forall k :: k in ks ==> k in m
    ensures forall k :: k in r <==> k in ks
    ensures forall k :: k in r ==> r[k] == m[k]
  {
    if ks == [] then map[]
    else
      var k := ks[|ks| - 1];
      assert forall j :: j in ks[..|ks| - 1] ==> j in ks;
      Restrict(m, ks[..|ks| - 1])[k := m[k]]
  }

  /** Restricting to one more key adds that key's entry. */
  lemma RestrictSnoc<K(!new), V>(m: map<K, V>, ks: seq<K>, k: K)
    requires forall j :: j in ks ==> j in m
    requires k in m
    ensures Restrict(m, ks + [k]) == Restrict(m, ks)[k := m[k]]
  {
    assert (ks + [k])[..|ks|] == ks;
  }

  lemma RestrictAll<K(!new), V>(m: map<K, V>, ks: seq<K>)
    requires forall k :: k in ks <==> k in m
    ensures Restrict(m, ks) == m
  {
    MapExt(Restrict(m, ks), m);
  }

  /** The element of `c == a + b` at `j == |a| + k` is the one of `b` at `k`. */
  lemma AppendAt<T>(a: seq<T>, b: seq<T>, c: seq<T>, j: int, k: int)
    requires c == a + b && 0 <= k < |b| && j == |a| + k
    ensures j < |c| && c[j] == b[k]
  {
  }

  /** A duplicate-free sequence does not hold its element `s[j]` before position `j`. */
  lemma DistinctNotBefore<T>(s: seq<T>, j: nat)
    requires Distinct(s) && j < |s|
    ensures s[j] !in s[..j]
  {
  }

  lemma MapExt<K, V>(a: map<K, V>, b: map<K, V>)
    requires forall k :: k in a <==> k in b
    requires forall k :: k in a ==> a[k] == b[k]
    ensures a == b
  {
  }

  function Min(a: int, b: int): int {
    if a <= b then a else b
  }

  lemma SeqAssoc<T>(a: seq<T>, b: seq<T>, c: seq<T>)
    ensures a + b + c == a + (b + c)
  {
  }

  lemma SubsetCard<T>(a: set<T>, b: set<T>)
    requires a <= b
    ensures |a| <= |b|
  {
    assert b == a + (b - a);
  }

  lemma StrictSubsetCard<T>(a: set<T>, b: set<T>)
    requires a < b
    ensures |a| < |b|
  {
    assert b == a + (b - a);
  }

  /** A graph's state: what networkx keeps in `_node`, `_succ`/`_pred` and the key dictionaries. */
  datatype Graph = Graph(
    nodes: seq<NodeId>,                 // node ids, insertion order (`list(G.nodes())`)
    nodeAttrs: map<NodeId, Attrs>,      // `G.nodes[n]`
    edges: seq<EdgeId>,                 // edge ids, insertion order
    edgeAttrs: map<EdgeId, Attrs>)      // `G.edges[u, v, k]`
  {
    /** What networkx maintains: every id once, maps and orders agree, edges join nodes. */
    ghost predicate Valid() {
      && Distinct(nodes)
      && (forall n :: n in nodeAttrs <==> n in nodes)
      && Distinct(edges)
      && (forall e :: e in edgeAttrs <==> e in edges)
      && (forall e :: e in edgeAttrs ==> e.src in nodeAttrs && e.dst in nodeAttrs)
    }

    predicate HasNode(n: NodeId) {
      n in nodeAttrs
    }

    /** `G.number_of_nodes()`. */
    function NumberOfNodes(): nat {
      |nodes|
    }

    /** `G.number_of_edges()`. */
    function NumberOfEdges(): nat {
      |edges|
    }

    /** `G.number_of_edges(u, v)`: the parallel edges from `u` to `v`. */
    function NumberOfEdgesBetween(u: NodeId, v: NodeId): nat {
      |PairEdges(edges, u, v)|
    }

    /** The keys of the edges from `u` to `v`, in insertion order (`G.get_edge_data(u, v).keys()`). */
    function PairKeys(u: NodeId, v: NodeId): (ks: seq<nat>)
      ensures forall k :: k in ks <==> EdgeId(u, v, k) in edges
    {
      KeysOf(PairEdges(edges, u, v))
    }

    /** `new_edge_key(u, v)`: starting at the number of keys of the pair, the first unused key. */
    function NewEdgeKey(u: NodeId, v: NodeId): (k: nat)
      ensures EdgeId(u, v, k) !in edges
      ensures k >= |PairKeys(u, v)|
      ensures forall j :: |PairKeys(u, v)| <= j < k ==> EdgeId(u, v, j) in edges
    {
      var ks := PairKeys(u, v);
      NextFreeKey(ks, |ks|)
    }

    /** Adds `n` with empty attributes when it is missing (what `add_edge` does to its endpoints). */
    function EnsureNode(n: NodeId): (r: Graph)
      ensures Valid() ==> r.Valid()
      ensures r.nodeAttrs.Keys == nodeAttrs.Keys + {n}
      ensures forall m :: m in nodeAttrs ==> r.nodeAttrs[m] == nodeAttrs[m]
      ensures r.edges == edges && r.edgeAttrs == edgeAttrs
      ensures n in nodeAttrs ==> r == this
      ensures n !in nodeAttrs ==> r.nodeAttrs[n] == map[]
    {
      if n in nodeAttrs then this
      else Graph(nodes + [n], nodeAttrs[n := map[]], edges, edgeAttrs)
    }

    /**
     * `add_node(n, **attrs)`: a new node is appended with `attrs`; an existing node keeps
     * its place and has `attrs` merged into its attribute map.
     */
    function AddNode(n: NodeId, attrs: Attrs): (r: Graph)
      requires Valid()
      ensures r.nodes == if n in nodes then nodes else nodes + [n]
      ensures r.nodeAttrs == nodeAttrs[n := if n in nodeAttrs then nodeAttrs[n] + attrs else attrs]
      ensures r.edges == edges && r.edgeAttrs == edgeAttrs
    {
      if n in nodeAttrs then Graph(nodes, nodeAttrs[n := nodeAttrs[n] + attrs], edges, edgeAttrs)
      else Graph(nodes + [n], nodeAttrs[n := attrs], edges, edgeAttrs)
    }

    /**
     * `add_edge(u, v, key=key, **attrs)`: missing endpoints are added first (u, then v) with
     * empty attributes; a new edge id is appended with `attrs`, an existing one has `attrs`
     * merged into its attribute map.
     */
    function AddEdgeWithKey(u: NodeId, v: NodeId, key: nat, attrs: Attrs): (r: Graph)
      requires Valid()
      ensures r.nodeAttrs.Keys == nodeAttrs.Keys + {u, v}
      ensures forall m :: m in nodeAttrs ==> r.nodeAttrs[m] == nodeAttrs[m]
      ensures EdgeId(u, v, key) !in edgeAttrs ==>
                r.edges == edges + [EdgeId(u, v, key)] && r.edgeAttrs == edgeAttrs[EdgeId(u, v, key) := attrs]
      ensures EdgeId(u, v, key) in edgeAttrs ==>
                r.edges == edges && r.edgeAttrs == edgeAttrs[EdgeId(u, v, key) := edgeAttrs[EdgeId(u, v, key)] + attrs]
      ensures u in nodeAttrs && v in nodeAttrs ==> r.nodes == nodes && r.nodeAttrs == nodeAttrs
    {
      PutEdge(EnsureNode(u).EnsureNode(v), EdgeId(u, v, key), attrs)
    }

    /** `add_edge(u, v, **attrs)` without a key: always a new parallel edge, under `new_edge_key`. */
    function AddEdge(u: NodeId, v: NodeId, attrs: Attrs): (r: Graph)
      requires Valid()
      ensures r.edges == edges + [EdgeId(u, v, NewEdgeKey(u, v))]
      ensures r.edgeAttrs == edgeAttrs[EdgeId(u, v, NewEdgeKey(u, v)) := attrs]
      ensures r.nodeAttrs.Keys == nodeAttrs.Keys + {u, v}
      ensures forall m :: m in nodeAttrs ==> r.nodeAttrs[m] == nodeAttrs[m]
    {
      AddEdgeWithKey(u, v, NewEdgeKey(u, v), attrs)
    }

    /** `G.out_edges(u, keys=True)`: grouped by successor in first-insertion order, keys in insertion order. */
    function OutEdges(u: NodeId): (r: seq<EdgeId>)
      ensures forall e :: e in r <==> e in edges && e.src == u
      ensures Distinct(edges) ==> Distinct(r)
    {
      OutGather(edges, u, Dedup(DstsFrom(edges, u)))
    }

    /** `G.in_edges(u, keys=True)`: grouped by predecessor in first-insertion order, keys in insertion order. */
    function InEdges(u: NodeId): (r: seq<EdgeId>)
      ensures forall e :: e in r <==> e in edges && e.dst == u
      ensures Distinct(edges) ==> Distinct(r)
    {
      InGather(edges, u, Dedup(SrcsTo(edges, u)))
    }

    /** `G.edges(keys=True)`: the out-edges of every node, nodes in insertion order. */
    function EdgesView(): (r: seq<EdgeId>)
      ensures forall e :: e in r <==> e in edges && e.src in nodes
    {
      ViewFrom(this, nodes)
    }
  }

  /** `add_node` keeps the graph well formed. */
  lemma AddNodeValid(g: Graph, n: NodeId, attrs: Attrs)
    requires g.Valid()
    ensures g.AddNode(n, attrs).Valid()
  {
    if n !in g.nodeAttrs {
      DistinctAppend(g.nodes, [n]);
    }
  }

  /** `add_edge` with a key keeps the graph well formed. */
  lemma AddEdgeWithKeyValid(g: Graph, u: NodeId, v: NodeId, key: nat, attrs: Attrs)
    requires g.Valid()
    ensures g.AddEdgeWithKey(u, v, key, attrs).Valid()
  {
    var h := g.EnsureNode(u).EnsureNode(v);
    assert h.Valid();
  }

  /** `add_edge` without a key keeps the graph well formed. */
  lemma AddEdgeValid(g: Graph, u: NodeId, v: NodeId, attrs: Attrs)
    requires g.Valid()
    ensures g.AddEdge(u, v, attrs).Valid()
  {
    AddEdgeWithKeyValid(g, u, v, g.NewEdgeKey(u, v), attrs);
  }

  /** `add_edge` keeps the old edges, in order, in front of the new one. */
  lemma AddEdgeKeepsPrefix(g: Graph, u: NodeId, v: NodeId, attrs: Attrs)
    requires g.Valid()
    ensures g.AddEdge(u, v, attrs).edges[..|g.edges|] == g.edges
  {
    var e := EdgeId(u, v, g.NewEdgeKey(u, v));
    assert (g.edges + [e])[..|g.edges|] == g.edges;
  }

  /** The endpoints `add_edge` adds have no attributes. */
  lemma AddEdgeNewEndpoints(g: Graph, u: NodeId, v: NodeId, attrs: Attrs)
    requires g.Valid()
    ensures forall m :: m in g.AddEdge(u, v, attrs).nodeAttrs && m !in g.nodeAttrs ==> g.AddEdge(u, v, attrs).nodeAttrs[m] == map[]
  {
    var h := g.EnsureNode(u).EnsureNode(v);
    assert forall m :: m in h.nodeAttrs && m !in g.nodeAttrs ==> h.nodeAttrs[m] == map[];
  }

  /** Adds edge `e`, whose endpoints are nodes of `g`, or merges `attrs` into it when it exists. */
  function PutEdge(g: Graph, e: EdgeId, attrs: Attrs): (r: Graph)
    requires g.Valid() && e.src in g.nodeAttrs && e.dst in g.nodeAttrs
    ensures r.Valid()
    ensures r.nodes == g.nodes && r.nodeAttrs == g.nodeAttrs
    ensures e !in g.edgeAttrs ==> r.edges == g.edges + [e] && r.edgeAttrs == g.edgeAttrs[e := attrs]
    ensures e in g.edgeAttrs ==> r.edges == g.edges && r.edgeAttrs == g.edgeAttrs[e := g.edgeAttrs[e] + attrs]
  {
    if e in g.edgeAttrs then MergeEdge(g, e, attrs) else AppendEdge(g, e, attrs)
  }

  /** Adding a new edge between existing nodes appends it and touches nothing else. */
  lemma AddNewEdge(g: Graph, e: EdgeId, attrs: Attrs)
    requires g.Valid() && e !in g.edgeAttrs && e.src in g.nodeAttrs && e.dst in g.nodeAttrs
    ensures g.AddEdgeWithKey(e.src, e.dst, e.key, attrs) == Graph(g.nodes, g.nodeAttrs, g.edges + [e], g.edgeAttrs[e := attrs])
  {
  }

  /** Merges `attrs` into the attributes of the existing edge `e`. */
  function MergeEdge(g: Graph, e: EdgeId, attrs: Attrs): (r: Graph)
    requires g.Valid() && e in g.edgeAttrs
    ensures r.Valid()
    ensures r.nodes == g.nodes && r.nodeAttrs == g.nodeAttrs && r.edges == g.edges
    ensures r.edgeAttrs == g.edgeAttrs[e := g.edgeAttrs[e] + attrs]
  {
    g.(edgeAttrs := g.edgeAttrs[e := g.edgeAttrs[e] + attrs])
  }

  /** Appends the new edge `e`, whose endpoints are nodes of `g`, with `attrs`. */
  function AppendEdge(g: Graph, e: EdgeId, attrs: Attrs): (r: Graph)
    requires g.Valid() && e !in g.edgeAttrs && e.src in g.nodeAttrs && e.dst in g.nodeAttrs
    ensures r.Valid()
    ensures r.nodes == g.nodes && r.nodeAttrs == g.nodeAttrs
    ensures r.edges == g.edges + [e] && r.edgeAttrs == g.edgeAttrs[e := attrs]
  {
    var r := g.(edges := g.edges + [e], edgeAttrs := g.edgeAttrs[e := attrs]);
    DistinctAppend(g.edges, [e]);
    r
  }

  /**
   * A copy built by insertion (`DBGraph.copy`, and `DirectedGraph(G)` for a multigraph `G`):
   * the nodes with their attributes in the same order, then the edges with their keys and
   * attributes in the order of the edge view.
   */
  function CopyOf(g: Graph): (r: Graph)
    requires g.Valid()
    ensures r.Valid()
    ensures r.nodes == g.nodes && r.nodeAttrs == g.nodeAttrs && r.edgeAttrs == g.edgeAttrs
    ensures forall e :: e in r.edges <==> e in g.edges
    ensures |r.edges| == |g.edges|
  {
    EdgesViewIsPermutation(g);
    Graph(g.nodes, g.nodeAttrs, g.EdgesView(), g.edgeAttrs)
  }

  /** A graph with no nodes and no edges (`DirectedGraph()`). */
  function EmptyGraph(): (g: Graph)
    ensures g.Valid() && g.nodes == [] && g.edges == []
  {
    Graph([], map[], [], map[])
  }

  /** The edges of `es` from `u` to `v`, in order. */
  function PairEdges(es: seq<EdgeId>, u: NodeId, v: NodeId): (r: seq<EdgeId>)
    ensures forall e :: e in r <==> e in es && e.src == u && e.dst == v
    ensures Distinct(es) ==> Distinct(r)
    ensures |r| <= |es|
  {
    if es == [] then []
    else
      var r := PairEdges(es[..|es| - 1], u, v);
      var e := es[|es| - 1];
      assert es == es[..|es| - 1] + [e];
      if e.src == u && e.dst == v then
        assert Distinct(es) ==> e !in r;
        r + [e]
      else r
  }

  function KeysOf(es: seq<EdgeId>): (ks: seq<nat>)
    ensures |ks| == |es|
    ensures forall i :: 0 <= i < |es| ==> ks[i] == es[i].key
  {
    if es == [] then [] else [es[0].key] + KeysOf(es[1..])
  }

  /** One more than the largest key (0 when there is none). */
  function KeyBound(ks: seq<nat>): (b: nat)
    ensures forall k :: k in ks ==> k < b
  {
    if ks == [] then 0
    else
      var b := KeyBound(ks[1..]);
      assert forall k :: k in ks ==> k == ks[0] || k in ks[1..];
      if ks[0] + 1 > b then ks[0] + 1 else b
  }

  /** The first key at or above `k` that is not in `ks`. */
  function NextFreeKey(ks: seq<nat>, k: nat): (r: nat)
    ensures r >= k && r !in ks
    ensures forall j :: k <= j < r ==> j in ks
    decreases KeyBound(ks) - k
  {
    if k !in ks then k else NextFreeKey(ks, k + 1)
  }

  /** The destinations of the edges from `u`, in insertion order of the edges. */
  function DstsFrom(es: seq<EdgeId>, u: NodeId): (r: seq<NodeId>)
    ensures forall v :: v in r <==> exists e :: e in es && e.src == u && e.dst == v
  {
    if es == [] then []
    else
      var r := DstsFrom(es[..|es| - 1], u);
      var e := es[|es| - 1];
      assert es == es[..|es| - 1] + [e];
      if e.src == u then r + [e.dst] else r
  }

  /** The sources of the edges into `u`, in insertion order of the edges. */
  function SrcsTo(es: seq<EdgeId>, u: NodeId): (r: seq<NodeId>)
    ensures forall v :: v in r <==> exists e :: e in es && e.dst == u && e.src == v
  {
    if es == [] then []
    else
      var r := SrcsTo(es[..|es| - 1], u);
      var e := es[|es| - 1];
      assert es == es[..|es| - 1] + [e];
      if e.dst == u then r + [e.src] else r
  }

  /** The distinct elements of `xs` in order of first appearance (a dict's key order). */
  function Dedup(xs: seq<NodeId>): (r: seq<NodeId>)
    ensures Distinct(r)
    ensures forall x :: x in r <==> x in xs
  {
    if xs == [] then []
    else
      var r := Dedup(xs[..|xs| - 1]);
      var x := xs[|xs| - 1];
      assert xs == xs[..|xs| - 1] + [x];
      if x in r then r else r + [x]
  }

  function OutGather(es: seq<EdgeId>, u: NodeId, vs: seq<NodeId>): (r: seq<EdgeId>)
    ensures forall e :: e in r <==> e in es && e.src == u && e.dst in vs
    ensures Distinct(es) && Distinct(vs) ==> Distinct(r)
  {
    if vs == [] then []
    else
      var a := PairEdges(es, u, vs[0]);
      var b := OutGather(es, u, vs[1..]);
      if Distinct(es) && Distinct(vs) then
        assert forall e :: e in a ==> e !in b;
        DistinctAppend(a, b);
        a + b
      else a + b
  }

  function InGather(es: seq<EdgeId>, u: NodeId, vs: seq<NodeId>): (r: seq<EdgeId>)
    ensures forall e :: e in r <==> e in es && e.dst == u && e.src in vs
    ensures Distinct(es) && Distinct(vs) ==> Distinct(r)
  {
    if vs == [] then []
    else
      var a := PairEdges(es, vs[0], u);
      var b := InGather(es, u, vs[1..]);
      if Distinct(es) && Distinct(vs) then
        assert forall e :: e in a ==> e !in b;
        DistinctAppend(a, b);
        a + b
      else a + b
  }

  function ViewFrom(g: Graph, ns: seq<NodeId>): (r: seq<EdgeId>)
    ensures forall e :: e in r <==> e in g.edges && e.src in ns
    ensures Distinct(g.edges) && Distinct(ns) ==> Distinct(r)
  {
    if ns == [] then []
    else
      var a := g.OutEdges(ns[0]);
      var b := ViewFrom(g, ns[1..]);
      if Distinct(g.edges) && Distinct(ns) then
        assert forall e :: e in a ==> e !in b;
        DistinctAppend(a, b);
        a + b
      else a + b
  }

  /** The node map has one entry per listed node. */
  lemma NodeCount(g: Graph)
    requires g.Valid()
    ensures |g.nodeAttrs.Keys| == |g.nodes|
  {
    DistinctCard(g.nodes);
    var ks := set n | n in g.nodes;
    forall n ensures n in g.nodeAttrs.Keys <==> n in ks {
      assert n in g.nodeAttrs.Keys <==> n in g.nodeAttrs;
    }
    assert g.nodeAttrs.Keys == ks;
  }

  /** The edge map has one entry per listed edge. */
  lemma EdgeCount(g: Graph)
    requires g.Valid()
    ensures |g.edgeAttrs.Keys| == |g.edges|
  {
    DistinctCard(g.edges);
    var ks := set e | e in g.edges;
    forall e ensures e in g.edgeAttrs.Keys <==> e in ks {
      assert e in g.edgeAttrs.Keys <==> e in g.edgeAttrs;
    }
    assert g.edgeAttrs.Keys == ks;
  }

  /** The edge view lists every edge of a graph exactly once. */
  lemma EdgesViewIsPermutation(g: Graph)
    requires g.Valid()
    ensures Distinct(g.EdgesView())
    ensures forall e :: e in g.EdgesView() <==> e in g.edges
    ensures |g.EdgesView()| == |g.edges|
  {
    var v := g.EdgesView();
    assert Distinct(v);
    DistinctCard(v);
    DistinctCard(g.edges);
    assert (set e | e in v) == (set e | e in g.edges);
  }

  /** `number_of_edges(u, v)` counts exactly the edge ids from `u` to `v`. */
  lemma PairCount(g: Graph, u: NodeId, v: NodeId)
    requires g.Valid()
    ensures g.NumberOfEdgesBetween(u, v) == |set e | e in g.edgeAttrs && e.src == u && e.dst == v|
  {
    var p := PairEdges(g.edges, u, v);
    DistinctCard(p);
    assert (set e | e in p) == (set e | e in g.edgeAttrs && e.src == u && e.dst == v);
  }

  /** `add_edge` without a key never overwrites: the edge count grows by one, the pair's count by one. */
  lemma AddEdgeAddsParallel(g: Graph, u: NodeId, v: NodeId, attrs: Attrs)
    requires g.Valid()
    ensures g.AddEdge(u, v, attrs).NumberOfEdges() == g.NumberOfEdges() + 1
    ensures g.AddEdge(u, v, attrs).NumberOfEdgesBetween(u, v) == g.NumberOfEdgesBetween(u, v) + 1
    ensures forall a, b :: (a, b) != (u, v) ==>
              g.AddEdge(u, v, attrs).NumberOfEdgesBetween(a, b) == g.NumberOfEdgesBetween(a, b)
  {
    var e := EdgeId(u, v, g.NewEdgeKey(u, v));
    forall a, b {
      PairEdgesAppend(g.edges, e, a, b);
    }
  }

  lemma PairEdgesAppend(es: seq<EdgeId>, e: EdgeId, a: NodeId, b: NodeId)
    ensures PairEdges(es + [e], a, b) == PairEdges(es, a, b) + (if e.src == a && e.dst == b then [e] else [])
  {
    assert (es + [e])[..|es|] == es;
  }
}
