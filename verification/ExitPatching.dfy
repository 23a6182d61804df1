/** Exit patching: every NULL edge of a graph is sent to one exit node
    (set_exit_param_node_for_node in src/libecryptfs/decision_graph.c). The
    recursion revisits shared nodes and, once an edge has been patched, walks on
    into the exit node's own subgraph. */
module ExitPatching {
  import opened Common
  import opened DecisionGraph

  /* ---- reachability ---- */

  /** p is a path of g. */
  ghost predicate IsPath(g: Graph, p: seq<NodeId>) {
    && p != []
    && forall k :: 0 <= k < |p| - 1 ==> EdgeTo(g, p[k], p[k + 1])
  }

  ghost predicate Joins(g: Graph, p: seq<NodeId>, n: NodeId, m: NodeId) {
    IsPath(g, p) && p[0] == n && p[|p| - 1] == m
  }

  ghost predicate Reaches(g: Graph, n: NodeId, m: NodeId) {
    exists p :: Joins(g, p, n, m)
  }

  lemma ReachesSelf(g: Graph, n: NodeId)
    ensures Reaches(g, n, n)
  {
    assert Joins(g, [n], n, n);
  }

  lemma ReachesVia(g: Graph, n: NodeId, c: NodeId, m: NodeId)
    requires EdgeTo(g, n, c) && Reaches(g, c, m)
    ensures Reaches(g, n, m)
  {
    var p :| Joins(g, p, c, m);
    var q := [n] + p;
    assert forall k :: 0 <= k < |q| - 1 ==> EdgeTo(g, q[k], q[k + 1]);
    assert Joins(g, q, n, m);
  }

  lemma PathTail(g: Graph, p: seq<NodeId>, n: NodeId, m: NodeId)
    requires Joins(g, p, n, m) && |p| > 1
    ensures EdgeTo(g, n, p[1]) && Joins(g, p[1..], p[1], m)
  {
    var q := p[1..];
    forall k | 0 <= k < |q| - 1
      ensures EdgeTo(g, q[k], q[k + 1])
    {
      assert EdgeTo(g, p[k + 1], p[k + 2]);
    }
  }

  lemma ReachesFirst(g: Graph, n: NodeId, m: NodeId)
    requires Reaches(g, n, m) && n != m
    ensures exists c :: EdgeTo(g, n, c) && Reaches(g, c, m)
  {
    var p :| Joins(g, p, n, m);
    PathTail(g, p, n, m);
  }

  /** The exit side: a set of nodes around the exit node that edges do not leave
      and that holds no NULL edge. */
  ghost predicate ExitSide(g: Graph, side: set<NodeId>, exit: NodeId) {
    && exit in side
    && (forall m :: m in side ==> m in g)
    && (forall m, i :: m in side && 0 <= i < |g[m].tl| ==> g[m].tl[i].next.Some? && g[m].tl[i].next.value in side)
  }

  lemma {:induction false} StaysOnExitSide(g: Graph, side: set<NodeId>, exit: NodeId, p: seq<NodeId>,
                                           n: NodeId, m: NodeId)
    requires ExitSide(g, side, exit) && n in side && Joins(g, p, n, m)
    ensures m in side
    decreases |p|
  {
    if |p| > 1 {
      PathTail(g, p, n, m);
      StaysOnExitSide(g, side, exit, p[1..], p[1], m);
    }
  }

  /* ---- patched graphs ---- */

  function PatchTransition(t: Transition, exit: NodeId): Transition {
    if t.next.None? then t.(val := Some("default"), prettyVal := Some("default"), next := Some(exit)) else t
  }

  type Edges = set<(NodeId, int)>

  /** g is g0 with exactly the edges in `done` patched. */
  ghost predicate IsPatch(g0: Graph, g: Graph, done: Edges, exit: NodeId) {
    && g.Keys == g0.Keys
    && (forall m :: m in g ==> |g[m].tl| == |g0[m].tl| && g[m] == g0[m].(tl := g[m].tl))
    && (forall m, i :: m in g && 0 <= i < |g[m].tl| ==>
          g[m].tl[i] == if (m, i) in done then PatchTransition(g0[m].tl[i], exit) else g0[m].tl[i])
  }

  /** All edges of every node reachable from n are done. */
  ghost predicate Swept(g0: Graph, n: NodeId, done: Edges) {
    forall m, i :: m in g0 && 0 <= i < |g0[m].tl| && Reaches(g0, n, m) ==> (m, i) in done
  }

  /** All edges of every node reachable from n are done, and nothing else but
      edges on the exit side, where there is nothing to patch. */
  ghost predicate Covers(g0: Graph, n: NodeId, side: set<NodeId>, before: Edges, done: Edges) {
    && before <= done
    && Swept(g0, n, done)
    && (forall m, i :: (m, i) in done && (m, i) !in before ==> Reaches(g0, n, m) || m in side)
  }

  class GraphStore {
    var nodes: Graph

    constructor (g: Graph)
      ensures nodes == g
    {
      nodes := g;
    }

    /** Patches edge i of node n if it is NULL. */
    method PatchEdge(n: NodeId, i: nat, exit: NodeId, ghost g0: Graph, ghost before: Edges)
      requires IsPatch(g0, nodes, before, exit) && n in nodes && i < |nodes[n].tl|
      requires nodes[n].tl[i].next.None?
      modifies this
      ensures IsPatch(g0, nodes, before + {(n, i)}, exit)
    {
      var node := nodes[n];
      nodes := nodes[n := node.(tl := node.tl[i := PatchTransition(node.tl[i], exit)])];
    }

    /** The recursive form, on a store in which the edges `before` of g0 have
        already been patched. Termination: a call either moves to the exit side
        for good or goes down in rank. */
    method SetExitParamNodeForNode(n: NodeId, exit: NodeId, ghost g0: Graph, ghost rank: NodeId -> nat,
                                   ghost side: set<NodeId>, ghost before: Edges) returns (rc: int, ghost done: Edges)
      requires Closed(g0) && Ranked(g0, rank) && ExitSide(g0, side, exit) && n in g0
      requires IsPatch(g0, nodes, before, exit)
      modifies this
      ensures rc == 0 && IsPatch(g0, nodes, done, exit) && Covers(g0, n, side, before, done)
      decreases if n in side then 0 else 1, rank(n)
    {
      rc, done := 0, before;
      hide LoopInv, Covers, Ranked, Closed, ExitSide;
      LoopStarts(g0, n, side, before);
      var i := 0;
      while i < |nodes[n].tl|
        invariant IsPatch(g0, nodes, done, exit) && 0 <= i <= |g0[n].tl|
        invariant LoopInv(g0, n, i, side, before, done)
        decreases |g0[n].tl| - i
      {
        EdgeFacts(g0, nodes, done, exit, n, i, side, rank);
        if nodes[n].tl[i].next.None? {
          NullStep(g0, n, i, side, before, done);
          PatchEdge(n, i, exit, g0, done);
        } else {
          var c := nodes[n].tl[i].next.value;
          ghost var d0 := done;
          rc, done := SetExitParamNodeForNode(c, exit, g0, rank, side, done);
          CallStep(g0, n, i, c, exit, side, before, d0, done);
          DoneEdge(g0, nodes, done, exit, n, i);
        }
        done := done + {(n, i)};
        i := i + 1;
      }
      LoopCovers(g0, n, side, before, done);
    }

    /** ecryptfs_set_exit_param_on_graph: every NULL edge reachable from `root`
        leads to `exit` afterwards and every other edge, node and field is as it was. */
    method SetExitParamOnGraph(root: NodeId, exit: NodeId, ghost rank: NodeId -> nat, ghost side: set<NodeId>)
      returns (rc: int)
      requires Closed(nodes) && Ranked(nodes, rank) && ExitSide(nodes, side, exit) && root in nodes
      modifies this
      ensures rc == 0 && nodes.Keys == old(nodes).Keys
      ensures forall m :: m in nodes && !Reaches(old(nodes), root, m) ==> nodes[m] == old(nodes)[m]
      ensures forall m :: m in nodes && Reaches(old(nodes), root, m) ==>
        && nodes[m] == old(nodes)[m].(tl := nodes[m].tl) && |nodes[m].tl| == |old(nodes)[m].tl|
        && forall i :: 0 <= i < |nodes[m].tl| ==> nodes[m].tl[i] == PatchTransition(old(nodes)[m].tl[i], exit)
      ensures Ranked(nodes, PatchedRank(rank, side, exit))
    {
      ghost var done;
      rc, done := SetExitParamNodeForNode(root, exit, nodes, rank, side, {});
      forall m | m in nodes && !Reaches(old(nodes), root, m)
        ensures nodes[m] == old(nodes)[m]
      {
        assert nodes[m].tl == old(nodes)[m].tl;
      }
      PatchedIsRanked(old(nodes), nodes, done, exit, rank, side);
    }
  }

  lemma DoneEdge(g0: Graph, g: Graph, done: Edges, exit: NodeId, n: NodeId, i: nat)
    requires IsPatch(g0, g, done, exit) && n in g && i < |g[n].tl| && g[n].tl[i].next.Some?
    ensures IsPatch(g0, g, done + {(n, i)}, exit)
  {
  }

  /** After the first i edges of n: those edges and everything below them are
      done, and nothing outside the part of g0 reachable from n or the exit side. */
  ghost predicate LoopInv(g0: Graph, n: NodeId, i: nat, side: set<NodeId>, before: Edges, done: Edges)
    requires n in g0 && i <= |g0[n].tl|
  {
    && before <= done
    && (forall k :: 0 <= k < i ==> (n, k) in done)
    && (forall k :: 0 <= k < i && g0[n].tl[k].next.Some? ==> Swept(g0, g0[n].tl[k].next.value, done))
    && (forall m, l :: (m, l) in done && (m, l) !in before ==> Reaches(g0, n, m) || m in side)
  }

  lemma LoopStarts(g0: Graph, n: NodeId, side: set<NodeId>, before: Edges)
    requires n in g0
    ensures LoopInv(g0, n, 0, side, before, before)
  {
  }

  lemma EdgeFacts(g0: Graph, g: Graph, done: Edges, exit: NodeId, n: NodeId, i: nat, side: set<NodeId>,
                  rank: NodeId -> nat)
    requires Closed(g0) && Ranked(g0, rank) && ExitSide(g0, side, exit)
    requires IsPatch(g0, g, done, exit) && n in g0 && i < |g0[n].tl|
    ensures g[n].tl[i].next.None? ==> g0[n].tl[i].next.None?
    ensures var next := g[n].tl[i].next;
      next.Some? ==>
        && next.value in g0
        && (g0[n].tl[i].next == next || (g0[n].tl[i].next.None? && next.value == exit && (n, i) in done))
        && (n in side ==> next.value in side)
        && (rank(next.value) < rank(n) || (n !in side && next.value in side))
  {
    if g0[n].tl[i].next.Some? {
      assert rank(g0[n].tl[i].next.value) < rank(n);
    }
  }

  lemma NullStep(g0: Graph, n: NodeId, i: nat, side: set<NodeId>, before: Edges, done: Edges)
    requires n in g0 && i < |g0[n].tl| && g0[n].tl[i].next.None?
    requires LoopInv(g0, n, i, side, before, done)
    ensures LoopInv(g0, n, i + 1, side, before, done + {(n, i)})
  {
    ReachesSelf(g0, n);
    hide Reaches;
  }

  /** A recursive call on the target c of edge i of n. */
  lemma CallStep(g0: Graph, n: NodeId, i: nat, c: NodeId, exit: NodeId, side: set<NodeId>,
                 before: Edges, done0: Edges, done: Edges)
    requires n in g0 && i < |g0[n].tl| && ExitSide(g0, side, exit)
    requires g0[n].tl[i].next == Some(c) || (g0[n].tl[i].next.None? && c == exit)
    requires LoopInv(g0, n, i, side, before, done0) && Covers(g0, c, side, done0, done)
    ensures LoopInv(g0, n, i + 1, side, before, done + {(n, i)}) && done0 <= done
  {
    hide Reaches;
    ReachesSelf(g0, n);
    forall m, l | (m, l) in done && (m, l) !in before
      ensures Reaches(g0, n, m) || m in side
    {
      if (m, l) !in done0 && Reaches(g0, c, m) {
        if g0[n].tl[i].next.Some? {
          assert EdgeTo(g0, n, c);
          ReachesVia(g0, n, c, m);
        } else {
          ExitReach(g0, side, exit, m);
        }
      }
    }
  }

  lemma ExitReach(g: Graph, side: set<NodeId>, exit: NodeId, m: NodeId)
    requires ExitSide(g, side, exit) && Reaches(g, exit, m)
    ensures m in side
  {
    var p :| Joins(g, p, exit, m);
    StaysOnExitSide(g, side, exit, p, exit, m);
  }

  lemma LoopCovers(g0: Graph, n: NodeId, side: set<NodeId>, before: Edges, done: Edges)
    requires n in g0 && LoopInv(g0, n, |g0[n].tl|, side, before, done)
    ensures Covers(g0, n, side, before, done)
  {
    hide Reaches;
    forall m, i | m in g0 && 0 <= i < |g0[m].tl| && Reaches(g0, n, m)
      ensures (m, i) in done
    {
      if m != n {
        ReachesFirst(g0, n, m);
        var c: NodeId :| EdgeTo(g0, n, c) && Reaches(g0, c, m);
        var k :| 0 <= k < |g0[n].tl| && g0[n].tl[k].next == Some(c);
      }
    }
  }

  /** A topological order of the patched graph: the exit side stays below the rest. */
  function PatchedRank(rank: NodeId -> nat, side: set<NodeId>, exit: NodeId): NodeId -> nat {
    m => if m in side then rank(m) else rank(m) + rank(exit) + 1
  }

  /** Patching keeps the graph acyclic. */
  lemma PatchedIsRanked(g0: Graph, g: Graph, done: Edges, exit: NodeId, rank: NodeId -> nat, side: set<NodeId>)
    requires Ranked(g0, rank) && ExitSide(g0, side, exit) && IsPatch(g0, g, done, exit)
    ensures Ranked(g, PatchedRank(rank, side, exit))
  {
    var r := PatchedRank(rank, side, exit);
    forall n, i | n in g && 0 <= i < |g[n].tl| && g[n].tl[i].next.Some?
      ensures r(g[n].tl[i].next.value) < r(n)
    {
      if g0[n].tl[i].next.Some? {
        assert rank(g0[n].tl[i].next.value) < rank(n);
      }
    }
  }

  /** From the root of a patched graph nothing but the part of the old graph
      below the root and the exit side can be reached. */
  lemma {:induction false} PatchedReach(g0: Graph, g: Graph, done: Edges, root: NodeId, exit: NodeId, side: set<NodeId>,
                                        p: seq<NodeId>, n: NodeId, m: NodeId)
    requires ExitSide(g0, side, exit) && IsPatch(g0, g, done, exit) && Joins(g, p, n, m)
    requires Reaches(g0, root, n) || n in side
    ensures Reaches(g0, root, m) || m in side
    decreases |p|
  {
    if |p| > 1 {
      PathTail(g, p, n, m);
      var c := p[1];
      var i :| 0 <= i < |g[n].tl| && g[n].tl[i].next == Some(c);
      if n !in side && g0[n].tl[i].next.Some? {
        ReachesBeyond(g0, root, n, c);
      }
      PatchedReach(g0, g, done, root, exit, side, p[1..], c, m);
    }
  }

  lemma ReachesBeyond(g: Graph, root: NodeId, n: NodeId, c: NodeId)
    requires Reaches(g, root, n) && EdgeTo(g, n, c)
    ensures Reaches(g, root, c)
  {
    var p :| Joins(g, p, root, n);
    var q := p + [c];
    forall k | 0 <= k < |q| - 1
      ensures EdgeTo(g, q[k], q[k + 1])
    {
      if k < |p| - 1 { assert EdgeTo(g, p[k], p[k + 1]); }
    }
    assert Joins(g, q, root, c);
  }

  /** After patching, no NULL edge can be reached from the root any more. */
  lemma NoNullEdgeLeft(g0: Graph, g: Graph, done: Edges, root: NodeId, exit: NodeId, side: set<NodeId>,
                       m: NodeId, i: nat)
    requires ExitSide(g0, side, exit) && IsPatch(g0, g, done, exit) && Swept(g0, root, done)
    requires Reaches(g, root, m) && m in g && i < |g[m].tl|
    ensures g[m].tl[i].next.Some?
  {
    ReachesSelf(g0, root);
    var p :| Joins(g, p, root, m);
    PatchedReach(g0, g, done, root, exit, side, p, root, m);
  }
}
