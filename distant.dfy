/**
 * `DirectedGraph.extract_k_distant_nodes` (graph.py): landmark sketching followed by a
 * greedy farthest-point selection.
 *
 * The sketch is an N x L integer matrix: row r belongs to the r-th node, column c to the
 * c-th landmark, and the entry is the hop distance between them in the undirected view of
 * the graph, or N when the node cannot be reached.  The selection starts at the row that
 * is farthest from the first landmark and then keeps adding the row whose smallest L1
 * distance to the rows picked so far is largest.
 *
 * The landmarks, which the program draws with `random.sample`, are a parameter here.
 */
module DistantNodes {
  import opened Wrappers
  import opened Multigraph
  import opened Undirected

  /** The default of `num_landmarks`. */
  const DefaultNumLandmarks: int := 20

  function Abs(x: int): nat {
    if x < 0 then -x else x
  }

  /** All rows have the same width. */
  predicate Rect(M: seq<seq<int>>) {
    forall i :: 0 <= i < |M| ==> |M[i]| == |M[0]|
  }

  /** Every pick is a row index of `M`. */
  predicate ValidPicks(M: seq<seq<int>>, sel: seq<nat>) {
    forall j :: 0 <= j < |sel| ==> sel[j] < |M|
  }

  /** The L1 (Manhattan) distance of two equally long vectors. */
  function L1(a: seq<int>, b: seq<int>): nat
    requires |a| == |b|
  {
    if a == [] then 0 else L1(a[..|a| - 1], b[..|b| - 1]) + Abs(a[|a| - 1] - b[|b| - 1])
  }

  /** A vector is at L1 distance 0 from itself. */
  lemma {:induction false} L1Self(a: seq<int>)
    ensures L1(a, a) == 0
  {
    if a != [] {
      L1Self(a[..|a| - 1]);
    }
  }

  /** numpy's `argmax`: the lowest index holding the largest value. */
  function ArgMax(xs: seq<int>): (i: nat)
    requires xs != []
    ensures i < |xs|
    ensures forall j :: 0 <= j < |xs| ==> xs[j] <= xs[i]
    ensures forall j :: 0 <= j < i ==> xs[j] < xs[i]
  {
    if |xs| == 1 then 0
    else
      var p := xs[..|xs| - 1];
      var b := ArgMax(p);
      assert forall j :: 0 <= j < |p| ==> p[j] == xs[j];
      if xs[|xs| - 1] > xs[b] then |xs| - 1 else b
  }

  /** Column `c` of a matrix (`M[:, c]`). */
  function Column(M: seq<seq<int>>, c: nat): (col: seq<int>)
    requires Rect(M) && |M| > 0 && c < |M[0]|
    ensures |col| == |M|
    ensures forall i :: 0 <= i < |M| ==> col[i] == M[i][c]
  {
    seq(|M|, i requires 0 <= i < |M| => M[i][c])
  }

  /**
   * The running minimum of row `i` after the picks `sel`: the L1 distance to the first
   * pick, then lowered by each later pick in turn.
   */
  function MinDist(M: seq<seq<int>>, sel: seq<nat>, i: nat): nat
    requires Rect(M) && sel != [] && ValidPicks(M, sel) && i < |M|
    decreases |sel|
  {
    var d := L1(M[i], M[sel[|sel| - 1]]);
    if |sel| == 1 then d
    else
      var m := MinDist(M, sel[..|sel| - 1], i);
      if m <= d then m else d
  }

  /** `min_dists` after the picks `sel`. */
  function MinDists(M: seq<seq<int>>, sel: seq<nat>): (md: seq<int>)
    requires Rect(M) && sel != [] && ValidPicks(M, sel)
    ensures |md| == |M|
  {
    seq(|M|, i requires 0 <= i < |M| => MinDist(M, sel, i))
  }

  /**
   * The first `k` row indices the greedy loop picks: the lowest row attaining the maximum
   * of column 0, then repeatedly the lowest row attaining the maximum running minimum.
   */
  function Greedy(M: seq<seq<int>>, k: nat): (sel: seq<nat>)
    requires Rect(M) && |M| > 0 && |M[0]| > 0 && k >= 1
    ensures |sel| == k && ValidPicks(M, sel)
  {
    if k == 1 then [ArgMax(Column(M, 0))]
    else
      var s := Greedy(M, k - 1);
      s + [ArgMax(MinDists(M, s))]
  }

  /** The running minimum of a row is its L1 distance to some pick, and to no pick more. */
  lemma {:induction false} MinDistIsMinimum(M: seq<seq<int>>, sel: seq<nat>, i: nat)
    requires Rect(M) && sel != [] && ValidPicks(M, sel) && i < |M|
    ensures forall j :: 0 <= j < |sel| ==> MinDist(M, sel, i) <= L1(M[i], M[sel[j]])
    ensures exists j :: 0 <= j < |sel| && MinDist(M, sel, i) == L1(M[i], M[sel[j]])
  {
    var last := |sel| - 1;
    if |sel| == 1 {
      assert MinDist(M, sel, i) == L1(M[i], M[sel[0]]);
    } else {
      var p := sel[..last];
      assert ValidPicks(M, p);
      MinDistIsMinimum(M, p, i);
      forall j | 0 <= j < |sel| ensures MinDist(M, sel, i) <= L1(M[i], M[sel[j]]) {
        if j < last {
          assert sel[j] == p[j];
        }
      }
      var j0 :| 0 <= j0 < |p| && MinDist(M, p, i) == L1(M[i], M[p[j0]]);
      assert p[j0] == sel[j0];
      if MinDist(M, p, i) <= L1(M[i], M[sel[last]]) {
        assert MinDist(M, sel, i) == L1(M[i], M[sel[j0]]);
      } else {
        assert MinDist(M, sel, i) == L1(M[i], M[sel[last]]);
      }
    }
  }

  /** A new pick never raises a running minimum (`np.minimum`). */
  lemma MinDistNeverIncreases(M: seq<seq<int>>, sel: seq<nat>, x: nat, i: nat)
    requires Rect(M) && sel != [] && ValidPicks(M, sel) && x < |M| && i < |M|
    ensures ValidPicks(M, sel + [x])
    ensures MinDist(M, sel + [x], i) <= MinDist(M, sel, i)
  {
    assert (sel + [x])[..|sel|] == sel;
  }

  /** Every picked row has running minimum 0. */
  lemma PickedRowsAreZero(M: seq<seq<int>>, sel: seq<nat>, j: nat)
    requires Rect(M) && sel != [] && ValidPicks(M, sel) && j < |sel|
    ensures MinDist(M, sel, sel[j]) == 0
  {
    MinDistIsMinimum(M, sel, sel[j]);
    L1Self(M[sel[j]]);
  }

  /** The first `t` picks of a longer run are the run of length `t`. */
  lemma {:induction false} GreedyPrefix(M: seq<seq<int>>, k: nat, t: nat)
    requires Rect(M) && |M| > 0 && |M[0]| > 0 && 1 <= t <= k
    ensures Greedy(M, k)[..t] == Greedy(M, t)
    decreases k
  {
    if t < k {
      GreedyPrefix(M, k - 1, t);
      assert Greedy(M, k)[..k - 1] == Greedy(M, k - 1);
      assert Greedy(M, k)[..t] == Greedy(M, k)[..k - 1][..t];
    } else {
      assert Greedy(M, k)[..t] == Greedy(M, k);
    }
  }

  /** The first pick is the lowest row attaining the largest entry of column 0. */
  lemma FirstPick(M: seq<seq<int>>, k: nat)
    requires Rect(M) && |M| > 0 && |M[0]| > 0 && k >= 1
    ensures Greedy(M, k)[0] == ArgMax(Column(M, 0))
    ensures forall i :: 0 <= i < |M| ==> M[i][0] <= M[Greedy(M, k)[0]][0]
    ensures forall i :: 0 <= i < Greedy(M, k)[0] ==> M[i][0] < M[Greedy(M, k)[0]][0]
  {
    GreedyPrefix(M, k, 1);
    assert Greedy(M, k)[0] == Greedy(M, k)[..1][0];
  }

  /**
   * The selector picks a row it already has only when every running minimum is 0, that
   * is, when every row coincides with some picked row.
   */
  lemma RepeatOnlyAtZero(M: seq<seq<int>>, t: nat)
    requires Rect(M) && |M| > 0 && |M[0]| > 0 && t >= 1
    requires Greedy(M, t + 1)[t] in Greedy(M, t)
    ensures forall i :: 0 <= i < |M| ==> MinDist(M, Greedy(M, t), i) == 0
  {
    var s := Greedy(M, t);
    var md := MinDists(M, s);
    var p := ArgMax(md);
    assert Greedy(M, t + 1)[t] == p;
    assert forall i :: 0 <= i < |M| ==> md[i] == MinDist(M, s, i);
    var j :| 0 <= j < |s| && s[j] == p;
    PickedRowsAreZero(M, s, j);
    assert md[p] == 0;
  }

  /** A matrix stored in a two-dimensional array, as a sequence of rows. */
  function Rows(m: array2<int>): (M: seq<seq<int>>)
    reads m
    ensures |M| == m.Length0 && Rect(M)
    ensures forall i :: 0 <= i < m.Length0 ==> |M[i]| == m.Length1
    ensures forall i, j :: 0 <= i < m.Length0 && 0 <= j < m.Length1 ==> M[i][j] == m[i, j]
  {
    seq(m.Length0, i requires 0 <= i < m.Length0 reads m =>
      seq(m.Length1, j requires 0 <= j < m.Length1 reads m => m[i, j]))
  }

  /** One row of `np.sum(np.abs(dist_matrix - dist_matrix[j]), axis=1)`. */
  method RowDistance(M: seq<seq<int>>, i: nat, j: nat) returns (d: int)
    requires Rect(M) && i < |M| && j < |M|
    ensures d == L1(M[i], M[j])
  {
    var a, b := M[i], M[j];
    d := 0;
    var c := 0;
    while c < |a|
      invariant 0 <= c <= |a|
      invariant d == L1(a[..c], b[..c])
    {
      assert a[..c + 1][..c] == a[..c] && b[..c + 1][..c] == b[..c];
      d := d + Abs(a[c] - b[c]);
      c := c + 1;
    }
    assert a[..c] == a && b[..c] == b;
  }

  /** `np.argmax` over a vector. */
  method ArgMaxOf(xs: seq<int>) returns (best: nat)
    requires xs != []
    ensures best == ArgMax(xs)
  {
    best := 0;
    var i := 1;
    while i < |xs|
      invariant 1 <= i <= |xs|
      invariant best == ArgMax(xs[..i])
    {
      assert xs[..i + 1][..i] == xs[..i];
      if xs[i] > xs[best] {
        best := i;
      }
      i := i + 1;
    }
    assert xs[..i] == xs;
  }

  /** `min_dists = np.minimum(min_dists, dist_to_new)` after picking row `j`. */
  method UpdateMinDists(M: seq<seq<int>>, minDists: array<int>, j: nat, ghost sel: seq<nat>)
    requires Rect(M) && j < |M| && minDists.Length == |M|
    requires sel != [] && ValidPicks(M, sel)
    requires minDists[..] == MinDists(M, sel)
    modifies minDists
    ensures ValidPicks(M, sel + [j])
    ensures minDists[..] == MinDists(M, sel + [j])
  {
    ghost var s := sel + [j];
    assert s[..|sel|] == sel;
    assert ValidPicks(M, s);
    var i := 0;
    while i < minDists.Length
      invariant 0 <= i <= minDists.Length
      invariant forall r :: 0 <= r < i ==> minDists[r] == MinDist(M, s, r)
      invariant forall r :: i <= r < minDists.Length ==> minDists[r] == MinDist(M, sel, r)
    {
      var d := RowDistance(M, i, j);
      if d < minDists[i] {
        minDists[i] := d;
      }
      i := i + 1;
    }
  }

  /** `min_dists` for the first pick `j`: every row's L1 distance to row `j`. */
  method InitMinDists(M: seq<seq<int>>, j: nat) returns (minDists: array<int>)
    requires Rect(M) && j < |M|
    ensures fresh(minDists)
    ensures ValidPicks(M, [j])
    ensures minDists[..] == MinDists(M, [j])
  {
    assert ValidPicks(M, [j]);
    minDists := new int[|M|];
    var i := 0;
    while i < |M|
      invariant 0 <= i <= |M|
      invariant forall r :: 0 <= r < i ==> minDists[r] == MinDist(M, [j], r)
    {
      minDists[i] := RowDistance(M, i, j);
      i := i + 1;
    }
  }

  /** One round of the greedy loop: pick the row with the largest running minimum, then lower the minima. */
  method PickFarthest(M: seq<seq<int>>, minDists: array<int>, ghost sel: seq<nat>, ghost t: nat) returns (far: nat)
    requires Rect(M) && |M| > 0 && |M[0]| > 0 && t >= 1
    requires sel == Greedy(M, t)
    requires minDists[..] == MinDists(M, sel)
    modifies minDists
    ensures sel + [far] == Greedy(M, t + 1)
    ensures minDists[..] == MinDists(M, sel + [far])
  {
    far := ArgMaxOf(minDists[..]);
    UpdateMinDists(M, minDists, far, sel);
  }

  /** The start of step 3: the row farthest from the first landmark, and every row's distance to it. */
  method FirstPickOf(M: seq<seq<int>>) returns (sel: seq<nat>, minDists: array<int>)
    requires Rect(M) && |M| > 0 && |M[0]| > 0
    ensures fresh(minDists)
    ensures sel == Greedy(M, 1)
    ensures minDists[..] == MinDists(M, sel)
  {
    var first := ArgMaxOf(Column(M, 0));
    sel := [first];
    minDists := InitMinDists(M, first);
  }

  /**
   * Step 3 of `extract_k_distant_nodes` on the sketch `M` (which it only reads): the row
   * indices `selected_indices` of the greedy loop.
   */
  method SelectIndices(M: seq<seq<int>>, k: nat) returns (sel: seq<nat>)
    requires Rect(M) && |M| > 0 && |M[0]| > 0 && k >= 1
    ensures sel == Greedy(M, k)
  {
    var minDists;
    sel, minDists := FirstPickOf(M);
    var t := 1;
    while t < k
      invariant 1 <= t <= k && |sel| == t && ValidPicks(M, sel)
      invariant sel == Greedy(M, t)
      invariant minDists[..] == MinDists(M, sel)
    {
      var far := PickFarthest(M, minDists, sel, t);
      sel := sel + [far];
      t := t + 1;
    }
  }

  /** `node_to_idx`: each node id mapped to its position in the node list. */
  function NodeIndex(nodes: seq<NodeId>): (idx: map<NodeId, nat>)
    requires Distinct(nodes)
    ensures forall n :: n in idx <==> n in nodes
    ensures forall i :: 0 <= i < |nodes| ==> nodes[i] in idx && idx[nodes[i]] == i
  {
    if nodes == [] then map[]
    else
      var p := nodes[..|nodes| - 1];
      var n := nodes[|nodes| - 1];
      assert Distinct(p);
      assert nodes == p + [n];
      NodeIndex(p)[n := |nodes| - 1]
  }

  /** The landmarks are nodes of `g`. */
  predicate LandmarksIn(g: Graph, landmarks: seq<NodeId>) {
    forall l :: l in landmarks ==> l in g.nodeAttrs
  }

  /** Sketch entry (r, c): the hop distance from landmark c to node r, or N when unreachable. */
  function SketchEntry(g: Graph, landmarks: seq<NodeId>, r: nat, c: nat): nat
    requires g.Valid() && LandmarksIn(g, landmarks) && r < |g.nodes| && c < |landmarks|
  {
    var lengths := ShortestPathLengths(g, landmarks[c]);
    if g.nodes[r] in lengths then lengths[g.nodes[r]] else |g.nodes|
  }

  /** The whole sketch, row by row. */
  function SketchRows(g: Graph, landmarks: seq<NodeId>): (M: seq<seq<int>>)
    requires g.Valid() && LandmarksIn(g, landmarks)
    ensures |M| == |g.nodes| && Rect(M)
    ensures forall r :: 0 <= r < |M| ==> |M[r]| == |landmarks|
    ensures forall r, c :: 0 <= r < |M| && 0 <= c < |landmarks| ==> M[r][c] == SketchEntry(g, landmarks, r, c)
  {
    seq(|g.nodes|, r requires 0 <= r < |g.nodes| =>
      seq(|landmarks|, c requires 0 <= c < |landmarks| => SketchEntry(g, landmarks, r, c) as int))
  }

  /**
   * What a sketch entry means: the hop distance when the node is reachable from the
   * landmark (always below N, so N never stands for a real distance), N when it is not;
   * a landmark is at distance 0 from itself.
   */
  lemma SketchEntryMeaning(g: Graph, landmarks: seq<NodeId>, r: nat, c: nat)
    requires g.Valid() && LandmarksIn(g, landmarks) && r < |g.nodes| && c < |landmarks|
    ensures Reachable(g, landmarks[c], g.nodes[r]) ==>
              IsHopDist(g, landmarks[c], g.nodes[r], SketchEntry(g, landmarks, r, c))
              && SketchEntry(g, landmarks, r, c) < |g.nodes|
    ensures !Reachable(g, landmarks[c], g.nodes[r]) ==> SketchEntry(g, landmarks, r, c) == |g.nodes|
    ensures g.nodes[r] == landmarks[c] ==> SketchEntry(g, landmarks, r, c) == 0
  {
    var s := landmarks[c];
    var t := g.nodes[r];
    var lengths := ShortestPathLengths(g, s);
    if t in lengths {
      HopDistBelowNodeCount(g, s, t, lengths[t]);
    }
  }

  /**
   * One landmark's BFS written into its column: every node reached gets its hop distance,
   * the others keep the value they had.
   */
  method FillColumn(g: Graph, landmarks: seq<NodeId>, m: array2<int>, c: nat, index: map<NodeId, nat>)
    requires g.Valid() && LandmarksIn(g, landmarks) && c < |landmarks|
    requires m.Length0 == |g.nodes| && m.Length1 == |landmarks|
    requires index == NodeIndex(g.nodes)
    requires forall r :: 0 <= r < m.Length0 ==> m[r, c] == |g.nodes|
    modifies m
    ensures forall r, c' :: 0 <= r < m.Length0 && 0 <= c' < m.Length1 ==>
              m[r, c'] == if c' == c then SketchEntry(g, landmarks, r, c) else old(m[r, c'])
  {
    var lengths := ShortestPathLengths(g, landmarks[c]);
    var todo := lengths.Keys;
    while todo != {}
      invariant todo <= lengths.Keys
      invariant forall r, c' :: 0 <= r < m.Length0 && 0 <= c' < m.Length1 ==>
                  m[r, c'] == if c' == c && g.nodes[r] !in todo then SketchEntry(g, landmarks, r, c) else old(m[r, c'])
      decreases todo
    {
      var t :| t in todo;
      ReachableInGraph(g, landmarks[c], t);
      var r := index[t];
      m[r, c] := lengths[t];
      todo := todo - {t};
    }
  }

  /** Steps 1 and 2 of `extract_k_distant_nodes`: the landmark distance matrix. */
  method BuildSketch(g: Graph, landmarks: seq<NodeId>) returns (m: array2<int>)
    requires g.Valid() && LandmarksIn(g, landmarks)
    ensures fresh(m)
    ensures Rows(m) == SketchRows(g, landmarks)
  {
    var n := |g.nodes|;
    var index := NodeIndex(g.nodes);
    m := new int[n, |landmarks|]((r, c) => n);
    var c := 0;
    while c < |landmarks|
      invariant 0 <= c <= |landmarks|
      invariant m.Length0 == n && m.Length1 == |landmarks|
      invariant forall r, c' :: 0 <= r < n && 0 <= c' < |landmarks| ==>
                  m[r, c'] == if c' < c then SketchEntry(g, landmarks, r, c') else n
    {
      FillColumn(g, landmarks, m, c, index);
      c := c + 1;
    }
    ghost var M := Rows(m);
    ghost var S := SketchRows(g, landmarks);
    assert forall r :: 0 <= r < n ==> M[r] == S[r];
  }

  /**
   * `random.sample(nodes, min(num_landmarks, N))`: distinct nodes of the graph, as many
   * as asked for up to N (none when the count is not positive).
   */
  predicate IsLandmarkSample(g: Graph, numLandmarks: int, landmarks: seq<NodeId>) {
    && Distinct(landmarks)
    && LandmarksIn(g, landmarks)
    && |landmarks| == (if numLandmarks <= 0 then 0 else Min(numLandmarks, |g.nodes|))
  }

  /** The nodes at the given row indices. */
  function NodesAt(nodes: seq<NodeId>, sel: seq<nat>): (r: seq<NodeId>)
    requires forall j :: 0 <= j < |sel| ==> sel[j] < |nodes|
    ensures |r| == |sel|
    ensures forall j :: 0 <= j < |sel| ==> r[j] == nodes[sel[j]]
  {
    seq(|sel|, j requires 0 <= j < |sel| => nodes[sel[j]])
  }

  /** What `extract_k_distant_nodes(k, num_landmarks)` returns or raises, for a given landmark sample. */
  function KDistantNodes(g: Graph, k: int, numLandmarks: int, landmarks: seq<NodeId>): Result<seq<NodeId>>
    requires g.Valid()
    requires 0 < k < |g.nodes| ==> IsLandmarkSample(g, numLandmarks, landmarks)
  {
    if k <= 0 then Success([])
    else if k >= |g.nodes| then Success(g.nodes)
    else if numLandmarks < 0 then Failure(ValueError("Sample larger than population or is negative"))
    else if landmarks == [] then Failure(IndexError)
    else Success(NodesAt(g.nodes, Greedy(SketchRows(g, landmarks), k)))
  }

  /**
   * `extract_k_distant_nodes(k, num_landmarks)`: nothing for k <= 0, every node for
   * k >= N, otherwise the nodes at the greedily selected sketch rows.
   */
  method ExtractKDistantNodes(g: Graph, k: int, numLandmarks: int, landmarks: seq<NodeId>)
      returns (r: Result<seq<NodeId>>)
    requires g.Valid()
    requires 0 < k < |g.nodes| ==> IsLandmarkSample(g, numLandmarks, landmarks)
    ensures r == KDistantNodes(g, k, numLandmarks, landmarks)
  {
    var n := |g.nodes|;
    if k <= 0 {
      return Success([]);
    }
    if k >= n {
      return Success(g.nodes);
    }
    if numLandmarks < 0 {
      return Failure(ValueError("Sample larger than population or is negative"));
    }
    var m := BuildSketch(g, landmarks);
    if m.Length1 == 0 {
      return Failure(IndexError);
    }
    var sel := SelectIndices(Rows(m), k);
    return Success(NodesAt(g.nodes, sel));
  }

  /**
   * The shape of the answer: k <= 0 gives no node; k >= N gives every node once, in node
   * order; otherwise exactly k nodes of the graph, and an error only when the landmark
   * count is not positive.
   */
  lemma KDistantNodesShape(g: Graph, k: int, numLandmarks: int, landmarks: seq<NodeId>)
    requires g.Valid()
    requires 0 < k < |g.nodes| ==> IsLandmarkSample(g, numLandmarks, landmarks)
    ensures k <= 0 ==> KDistantNodes(g, k, numLandmarks, landmarks) == Success([])
    ensures k > 0 && k >= |g.nodes| ==>
              KDistantNodes(g, k, numLandmarks, landmarks) == Success(g.nodes) && Distinct(g.nodes)
    ensures 0 < k < |g.nodes| ==> (KDistantNodes(g, k, numLandmarks, landmarks).Success? <==> numLandmarks > 0)
    ensures KDistantNodes(g, k, numLandmarks, landmarks).Success? ==>
              |KDistantNodes(g, k, numLandmarks, landmarks).value| == (if k <= 0 then 0 else Min(k, |g.nodes|))
              && forall x :: x in KDistantNodes(g, k, numLandmarks, landmarks).value ==> x in g.nodeAttrs
  {
    if 0 < k < |g.nodes| && numLandmarks > 0 {
      var sel := Greedy(SketchRows(g, landmarks), k);
      var r := NodesAt(g.nodes, sel);
      assert forall x :: x in r ==> x in g.nodes;
    }
  }

  /** A small sketch: rows [0], [1], ..., [5] from one landmark; two picks give rows 5, then 0. */
  lemma GreedyExample()
    ensures Greedy([[0], [1], [2], [3], [4], [5]], 2) == [5, 0]
  {
    var M: seq<seq<int>> := [[0], [1], [2], [3], [4], [5]];
    var col := Column(M, 0);
    assert col == [0, 1, 2, 3, 4, 5];
    assert Greedy(M, 1) == [5];
    var md := MinDists(M, [5]);
    assert md[0] == 5;
  }
}
