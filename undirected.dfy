/**
 * The undirected view of a multigraph (`G.to_undirected()`): two nodes are neighbours when
 * an edge joins them in either direction.  Hop distances in this view are what
 * `single_source_shortest_path_length` computes; they are specified by the sets of nodes
 * within `d` hops of a source.
 */
module Undirected {
  import opened Multigraph

  /** Edge `e` joins a node of `S` to `t`, in either direction. */
  predicate Joins(e: EdgeId, S: set<NodeId>, t: NodeId) {
    (e.src in S && e.dst == t) || (e.dst in S && e.src == t)
  }

  /** One of the edges `es` joins a node of `S` to `t`. */
  predicate JoinedBy(es: seq<EdgeId>, S: set<NodeId>, t: NodeId) {
    es != [] && (Joins(es[|es| - 1], S, t) || JoinedBy(es[..|es| - 1], S, t))
  }

  /** The nodes joined by some edge, in either direction, to a node of `S`. */
  function Nbrs(g: Graph, S: set<NodeId>): set<NodeId> {
    set t | t in g.nodeAttrs && JoinedBy(g.edges, S, t)
  }

  lemma {:induction false} JoinedByMem(es: seq<EdgeId>, S: set<NodeId>, t: NodeId)
    ensures JoinedBy(es, S, t) <==> exists e :: e in es && Joins(e, S, t)
  {
    if es != [] {
      var init, last := es[..|es| - 1], es[|es| - 1];
      JoinedByMem(init, S, t);
      assert es == init + [last];
    }
  }

  /** Membership in `Nbrs`, by the edges of the graph. */
  lemma NbrsMem(g: Graph, S: set<NodeId>, t: NodeId)
    requires g.Valid()
    ensures t in Nbrs(g, S) <==> exists e :: e in g.edgeAttrs && Joins(e, S, t)
  {
    JoinedByMem(g.edges, S, t);
  }

  /** The nodes at most `d` hops from `s` in the undirected view. */
  function Reach(g: Graph, s: NodeId, d: nat): set<NodeId> {
    if d == 0 then {s} else Reach(g, s, d - 1) + Nbrs(g, Reach(g, s, d - 1))
  }

  /** `t` lies in the connected component of `s` in the undirected view. */
  ghost predicate Reachable(g: Graph, s: NodeId, t: NodeId) {
    exists d: nat :: t in Reach(g, s, d)
  }

  /** `d` is the hop distance from `s` to `t`: within `d` hops and not within `d - 1`. */
  predicate IsHopDist(g: Graph, s: NodeId, t: NodeId, d: nat) {
    t in Reach(g, s, d) && (d == 0 || t !in Reach(g, s, d - 1))
  }

  lemma NbrsUnion(g: Graph, A: set<NodeId>, B: set<NodeId>)
    ensures Nbrs(g, A + B) == Nbrs(g, A) + Nbrs(g, B)
  {
    forall t ensures t in Nbrs(g, A + B) <==> t in Nbrs(g, A) + Nbrs(g, B) {
      JoinedByMem(g.edges, A + B, t);
      JoinedByMem(g.edges, A, t);
      JoinedByMem(g.edges, B, t);
    }
  }

  lemma NbrsInGraph(g: Graph, S: set<NodeId>)
    requires g.Valid()
    ensures Nbrs(g, S) <= g.nodeAttrs.Keys
  {
    forall t | t in Nbrs(g, S) ensures t in g.nodeAttrs {
      NbrsMem(g, S, t);
    }
  }

  lemma {:induction false} ReachInGraph(g: Graph, s: NodeId, d: nat)
    requires g.Valid() && s in g.nodeAttrs
    ensures Reach(g, s, d) <= g.nodeAttrs.Keys
  {
    if d > 0 {
      ReachInGraph(g, s, d - 1);
      NbrsInGraph(g, Reach(g, s, d - 1));
    }
  }

  /** Everything reachable from a node of the graph is a node of the graph. */
  lemma ReachableInGraph(g: Graph, s: NodeId, t: NodeId)
    requires g.Valid() && s in g.nodeAttrs && Reachable(g, s, t)
    ensures t in g.nodeAttrs
  {
    var d: nat :| t in Reach(g, s, d);
    ReachInGraph(g, s, d);
  }

  lemma {:induction false} ReachMono(g: Graph, s: NodeId, d1: nat, d2: nat)
    requires d1 <= d2
    ensures Reach(g, s, d1) <= Reach(g, s, d2)
    decreases d2 - d1
  {
    if d1 < d2 {
      ReachMono(g, s, d1, d2 - 1);
    }
  }

  /** Once a hop level adds nothing, no later level does. */
  lemma {:induction false} ReachStable(g: Graph, s: NodeId, d: nat, m: nat)
    requires Reach(g, s, d + 1) == Reach(g, s, d)
    ensures Reach(g, s, d + m) == Reach(g, s, d)
  {
    if m > 0 {
      ReachStable(g, s, d, m - 1);
    }
  }

  /** A node outside the level where growth stopped is not reachable at all. */
  lemma StableExcludes(g: Graph, s: NodeId, d: nat, t: NodeId)
    requires Reach(g, s, d + 1) == Reach(g, s, d)
    requires t !in Reach(g, s, d)
    ensures !Reachable(g, s, t)
  {
    if Reachable(g, s, t) {
      var e: nat :| t in Reach(g, s, e);
      if e <= d {
        ReachMono(g, s, e, d);
      } else {
        ReachStable(g, s, d, e - d);
      }
      assert false;
    }
  }

  /** The hop distance is unique. */
  lemma HopDistUnique(g: Graph, s: NodeId, t: NodeId, d1: nat, d2: nat)
    requires IsHopDist(g, s, t, d1) && IsHopDist(g, s, t, d2)
    ensures d1 == d2
  {
    if d1 < d2 {
      ReachMono(g, s, d1, d2 - 1);
    } else if d2 < d1 {
      ReachMono(g, s, d2, d1 - 1);
    }
  }

  /** Before a node's hop distance is reached, every level adds a node. */
  lemma ReachStrictStep(g: Graph, s: NodeId, t: NodeId, d: nat, e: nat)
    requires IsHopDist(g, s, t, d) && e < d
    ensures Reach(g, s, e) < Reach(g, s, e + 1)
  {
    ReachMono(g, s, e, e + 1);
    if Reach(g, s, e + 1) == Reach(g, s, e) {
      ReachStable(g, s, e, d - e);
      ReachMono(g, s, e, d - 1);
      assert false;
    }
  }

  /** Up to a node's hop distance every level strictly grows, so level `e` holds more than `e` nodes. */
  lemma {:induction false} ReachGrows(g: Graph, s: NodeId, t: NodeId, d: nat, e: nat)
    requires IsHopDist(g, s, t, d) && e <= d
    ensures |Reach(g, s, e)| >= e + 1
  {
    if e > 0 {
      ReachGrows(g, s, t, d, e - 1);
      ReachStrictStep(g, s, t, d, e - 1);
      StrictSubsetCard(Reach(g, s, e - 1), Reach(g, s, e));
    } else {
      assert Reach(g, s, 0) == {s};
    }
  }

  /**
   * The sentinel `N` (the node count) used for unreachable nodes exceeds every real hop
   * distance, since a hop distance is at most `N - 1`.
   */
  lemma HopDistBelowNodeCount(g: Graph, s: NodeId, t: NodeId, d: nat)
    requires g.Valid() && s in g.nodeAttrs
    requires IsHopDist(g, s, t, d)
    ensures d < g.NumberOfNodes()
  {
    ReachGrows(g, s, t, d, d);
    ReachInGraph(g, s, d);
    NodeCount(g);
    SubsetCard(Reach(g, s, d), g.nodeAttrs.Keys);
  }

  /** A neighbour of a reachable node is reachable. */
  lemma ReachableStep(g: Graph, s: NodeId, e: EdgeId)
    requires g.Valid() && e in g.edgeAttrs
    requires Reachable(g, s, e.src) || Reachable(g, s, e.dst)
    ensures Reachable(g, s, e.src) && Reachable(g, s, e.dst)
  {
    if Reachable(g, s, e.src) {
      var d: nat :| e.src in Reach(g, s, d);
      NbrsMem(g, Reach(g, s, d), e.dst);
      assert e.dst in Nbrs(g, Reach(g, s, d));
      assert e.dst in Reach(g, s, d + 1);
    } else {
      var d: nat :| e.dst in Reach(g, s, d);
      NbrsMem(g, Reach(g, s, d), e.src);
      assert e.src in Nbrs(g, Reach(g, s, d));
      assert e.src in Reach(g, s, d + 1);
    }
  }

  /** A node set that holds `s` and is closed under neighbours holds the whole component of `s`. */
  lemma ClosedHoldsComponent(g: Graph, s: NodeId, C: set<NodeId>, t: NodeId)
    requires s in C && Nbrs(g, C) <= C
    requires Reachable(g, s, t)
    ensures t in C
  {
    var d: nat :| t in Reach(g, s, d);
    ClosedHoldsReach(g, s, C, d);
  }

  lemma {:induction false} ClosedHoldsReach(g: Graph, s: NodeId, C: set<NodeId>, d: nat)
    requires s in C && Nbrs(g, C) <= C
    ensures Reach(g, s, d) <= C
  {
    if d > 0 {
      ClosedHoldsReach(g, s, C, d - 1);
      forall t | t in Nbrs(g, Reach(g, s, d - 1)) ensures t in C {
        NbrsUnion(g, Reach(g, s, d - 1), C - Reach(g, s, d - 1));
        assert Reach(g, s, d - 1) + (C - Reach(g, s, d - 1)) == C;
      }
    }
  }

  /** When a level adds no node, everything reachable was already within the previous level. */
  lemma EmptyLevel(g: Graph, s: NodeId, d: nat, before: set<NodeId>, seen: set<NodeId>)
    requires d > 0
    requires seen == Reach(g, s, d)
    requires before == Reach(g, s, d - 1)
    requires seen - before == {}
    ensures forall t :: !(Reachable(g, s, t) && t !in before)
  {
    ReachMono(g, s, d - 1, d);
    assert Reach(g, s, d - 1 + 1) == Reach(g, s, d - 1) by {
      forall t | t in seen ensures t in before {
        assert t !in seen - before;
      }
    }
    forall t | t !in Reach(g, s, d - 1) ensures !Reachable(g, s, t) {
      StableExcludes(g, s, d - 1, t);
    }
  }

  /** The next level is the neighbourhood of the current frontier, minus what was seen. */
  lemma NextLevel(g: Graph, s: NodeId, d: nat, before: set<NodeId>, frontier: set<NodeId>)
    requires before == if d == 0 then {} else Reach(g, s, d - 1)
    requires frontier == Reach(g, s, d) - before
    ensures Reach(g, s, d + 1) == Reach(g, s, d) + (Nbrs(g, frontier) - Reach(g, s, d))
  {
    if d > 0 {
      ReachMono(g, s, d - 1, d);
      assert Reach(g, s, d) == Reach(g, s, d - 1) + frontier;
      NbrsUnion(g, Reach(g, s, d - 1), frontier);
    } else {
      assert frontier == Reach(g, s, d);
    }
  }

  /** Joining level `d` to the levels after it gives the postcondition of `LevelsCorrect`. */
  lemma LevelsJoin(g: Graph, s: NodeId, d: nat, before: set<NodeId>, seen: set<NodeId>, frontier: set<NodeId>,
                   rest: map<NodeId, nat>, r: map<NodeId, nat>)
    requires seen == Reach(g, s, d)
    requires before == if d == 0 then {} else Reach(g, s, d - 1)
    requires frontier == seen - before
    requires forall t :: t in rest <==> Reachable(g, s, t) && t !in seen
    requires forall t :: t in rest ==> IsHopDist(g, s, t, rest[t])
    requires r == LevelMap(frontier, d) + rest
    ensures forall t :: t in r <==> Reachable(g, s, t) && t !in before
    ensures forall t :: t in r ==> IsHopDist(g, s, t, r[t])
  {
    if d > 0 {
      ReachMono(g, s, d - 1, d);
    }
    forall t | t in frontier ensures Reachable(g, s, t) && IsHopDist(g, s, t, d) {
      assert t in Reach(g, s, d);
    }
  }

  /** Every node of `level` mapped to the level number `d`. */
  function LevelMap(level: set<NodeId>, d: nat): (m: map<NodeId, nat>)
    ensures m.Keys == level
    ensures forall t :: t in m ==> m[t] == d
  {
    map t | t in level :: d
  }

  lemma UnseenShrinks<T>(all: set<T>, seen: set<T>, next: set<T>)
    requires next <= all && next !! seen
    ensures |all - (seen + next)| + |next| == |all - seen|
  {
    var u := all - (seen + next);
    assert u + next == all - seen;
    assert u * next == {};
  }

  /**
   * Level-synchronous breadth-first search: `frontier` is the last level found, `seen`
   * everything found so far; every node of the frontier is mapped to the level number `d`,
   * then the search goes on with the unseen neighbours of the frontier.
   */
  function Levels(g: Graph, d: nat, seen: set<NodeId>, frontier: set<NodeId>): map<NodeId, nat>
    requires g.Valid() && seen <= g.nodeAttrs.Keys
    decreases |g.nodeAttrs.Keys - seen|, |frontier|
  {
    if frontier == {} then map[]
    else
      var next := Nbrs(g, frontier) - seen;
      NbrsInGraph(g, frontier);
      UnseenShrinks(g.nodeAttrs.Keys, seen, next);
      LevelMap(frontier, d) + Levels(g, d + 1, seen + next, next)
  }

  lemma LevelsUnfold(g: Graph, d: nat, seen: set<NodeId>, frontier: set<NodeId>)
    requires g.Valid() && seen <= g.nodeAttrs.Keys && frontier != {}
    ensures Nbrs(g, frontier) <= g.nodeAttrs.Keys
    ensures Levels(g, d, seen, frontier) == LevelMap(frontier, d) + Levels(g, d + 1, seen + (Nbrs(g, frontier) - seen), Nbrs(g, frontier) - seen)
  {
    NbrsInGraph(g, frontier);
  }

  /**
   * Started from the hop levels of `s` (`before` within `d - 1` hops, `seen` within `d`),
   * `Levels` maps exactly the reachable nodes not in `before`, each to its hop distance.
   */
  lemma {:induction false} LevelsCorrect(g: Graph, s: NodeId, d: nat, before: set<NodeId>, seen: set<NodeId>, frontier: set<NodeId>)
    requires g.Valid() && s in g.nodeAttrs && d > 0
    requires seen == Reach(g, s, d)
    requires before == Reach(g, s, d - 1)
    requires frontier == seen - before
    ensures seen <= g.nodeAttrs.Keys
    ensures forall t :: t in Levels(g, d, seen, frontier) <==> Reachable(g, s, t) && t !in before
    ensures forall t :: t in Levels(g, d, seen, frontier) ==> IsHopDist(g, s, t, Levels(g, d, seen, frontier)[t])
    decreases |g.nodeAttrs.Keys - seen|, |frontier|
  {
    ReachInGraph(g, s, d);
    if frontier == {} {
      EmptyLevel(g, s, d, before, seen);
    } else {
      var next := Nbrs(g, frontier) - seen;
      LevelsUnfold(g, d, seen, frontier);
      LevelStep(g, s, d, before, seen, frontier, next);
      LevelsCorrect(g, s, d + 1, seen, seen + next, next);
      LevelsJoin(g, s, d, before, seen, frontier, Levels(g, d + 1, seen + next, next), Levels(g, d, seen, frontier));
    }
  }

  /** The next level's sets, and the termination measure of `Levels`. */
  lemma LevelStep(g: Graph, s: NodeId, d: nat, before: set<NodeId>, seen: set<NodeId>, frontier: set<NodeId>, next: set<NodeId>)
    requires g.Valid() && s in g.nodeAttrs
    requires seen == Reach(g, s, d)
    requires before == if d == 0 then {} else Reach(g, s, d - 1)
    requires frontier == seen - before
    requires next == Nbrs(g, frontier) - seen
    ensures seen + next == Reach(g, s, d + 1)
    ensures next == (seen + next) - seen
    ensures |g.nodeAttrs.Keys - (seen + next)| + |next| == |g.nodeAttrs.Keys - seen|
  {
    NextLevel(g, s, d, before, frontier);
    NbrsInGraph(g, frontier);
    UnseenShrinks(g.nodeAttrs.Keys, seen, next);
  }

  /**
   * `single_source_shortest_path_length(G.to_undirected(), s)`: exactly the nodes in the
   * component of `s`, each mapped to its hop distance from `s`.
   */
  function ShortestPathLengths(g: Graph, s: NodeId): (r: map<NodeId, nat>)
    requires g.Valid() && s in g.nodeAttrs
    ensures forall t :: t in r <==> Reachable(g, s, t)
    ensures forall t :: t in r ==> IsHopDist(g, s, t, r[t])
    ensures s in r && r[s] == 0
  {
    var next := Nbrs(g, {s}) - {s};
    LevelsUnfold(g, 0, {s}, {s});
    LevelStep(g, s, 0, {}, {s}, {s}, next);
    LevelsCorrect(g, s, 1, {s}, {s} + next, next);
    var r := Levels(g, 0, {s}, {s});
    LevelsJoin(g, s, 0, {}, {s}, {s}, Levels(g, 1, {s} + next, next), r);
    assert IsHopDist(g, s, s, 0);
    HopDistUnique(g, s, s, 0, r[s]);
    r
  }
}
