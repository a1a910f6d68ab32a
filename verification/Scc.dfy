/** Strongly connected components by one depth-first search with low-link pairs. */
module Scc {
  import opened Arith
  import opened Digraph

  datatype Color = NotVisited | OnStack | Finished

  datatype NodeState = NodeState(timeSeen: nat, timeDone: nat, backLo: nat, backHi: nat, color: Color)

  /** The engine's fields at one moment. */
  datatype Env = Env(states: seq<NodeState>, stack: seq<nat>, partition: seq<nat>, count: nat, time: nat)

  ghost predicate Visited(e: Env, v: nat) {
    v < |e.states| && !e.states[v].color.NotVisited?
  }

  ghost predicate Waiting(e: Env, v: nat) {
    v < |e.states| && e.states[v].color.OnStack?
  }

  ghost predicate Done(e: Env, v: nat) {
    v < |e.states| && e.states[v].color.Finished?
  }

  ghost function VisitedSet(e: Env): (s: set<nat>)
    ensures forall v :: v in s <==> Visited(e, v)
  {
    set v: nat | v < |e.states| && Visited(e, v)
  }

  // ---- The invariant of the search. `grays` are the nodes whose call has not returned. ----

  ghost predicate Shape(g: Graph, e: Env) {
    && WellFormed(g)
    && |e.states| == |e.partition| == |g|
    && e.time == |VisitedSet(e)|
    && forall v: nat :: Visited(e, v) ==>
         e.states[v].backLo <= e.states[v].timeSeen < e.time && e.states[v].backHi < e.time
  }

  ghost predicate StackOk(e: Env) {
    && (forall i :: 0 <= i < |e.stack| ==> Waiting(e, e.stack[i]))
    && (forall v: nat :: Waiting(e, v) ==> v in e.stack)
    && (forall i, j :: 0 <= i < j < |e.stack| && e.stack[i] < |e.states| && e.stack[j] < |e.states| ==>
          e.states[e.stack[i]].timeSeen < e.states[e.stack[j]].timeSeen)
  }

  /** Only a node whose call is running may have an unvisited successor. */
  ghost predicate NoBlackToWhite(g: Graph, e: Env, grays: set<nat>) {
    forall u: nat, v: nat :: Edge(g, u, v) && Visited(e, u) && u !in grays ==> Visited(e, v)
  }

  ghost predicate ReachesGray(g: Graph, e: Env, grays: set<nat>, j: nat) {
    j < |e.stack| && exists i: nat :: i <= j && e.stack[i] in grays && Reach(g, e.stack[j], e.stack[i])
  }

  /** The stack is a chain: lower nodes reach higher ones, and every node reaches a running one below it. */
  ghost predicate Linked(g: Graph, e: Env, grays: set<nat>) {
    && (forall v :: v in grays ==> v in e.stack)
    && (forall i, j {:trigger Reach(g, e.stack[i], e.stack[j])} ::
      0 <= i <= j < |e.stack| ==> Reach(g, e.stack[i], e.stack[j]))
    && (forall j: nat :: j < |e.stack| ==> ReachesGray(g, e, grays, j))
  }

  ghost predicate LowWitness(g: Graph, e: Env, v: nat) {
    v < |e.states| &&
    exists w: nat :: Waiting(e, w) && e.states[w].timeSeen == e.states[v].backLo && Reach(g, v, w)
  }

  ghost predicate LowOk(g: Graph, e: Env) {
    forall v: nat {:trigger LowWitness(g, e, v)} :: Waiting(e, v) ==> LowWitness(g, e, v)
  }

  ghost predicate HasColor(e: Env, c: nat) {
    exists v: nat :: Done(e, v) && v < |e.partition| && e.partition[v] == c
  }

  /** What is already decided is right and final. */
  ghost predicate DoneOk(g: Graph, e: Env)
    requires |e.partition| == |e.states|
  {
    && (forall u: nat, v: nat :: Edge(g, u, v) && Done(e, u) ==> Done(e, v) && e.partition[v] <= e.partition[u])
    && (forall u: nat, v: nat :: Done(e, u) && Done(e, v) ==> (e.partition[u] == e.partition[v] <==> Mutual(g, u, v)))
    && (forall u: nat :: Done(e, u) ==> e.partition[u] < e.count)
    && (forall c: nat {:trigger HasColor(e, c)} :: c < e.count ==> HasColor(e, c))
  }

  ghost predicate Inv(g: Graph, e: Env, grays: set<nat>) {
    && Shape(g, e)
    && StackOk(e)
    && NoBlackToWhite(g, e, grays)
    && Linked(g, e, grays)
    && LowOk(g, e)
    && DoneOk(g, e)
  }

  // ---- The atomic state changes of `process` ----

  function Enter(e: Env, node: nat): Env
    requires node < |e.states|
  {
    e.(states := e.states[node := e.states[node].(timeSeen := e.time, backLo := e.time, backHi := e.time,
      color := OnStack)],
       stack := e.stack + [node],
       time := e.time + 1)
  }

  function Merge(e: Env, node: nat, next: nat): Env
    requires node < |e.states| && next < |e.states|
  {
    e.(states := e.states[node := e.states[node].(backLo := Min(e.states[node].backLo, e.states[next].backLo),
                                                  backHi := Max(e.states[node].backHi, e.states[next].backHi))])
  }

  function Leave(e: Env, node: nat): Env
    requires node < |e.states| && 0 < e.time
  {
    e.(states := e.states[node := e.states[node].(timeDone := e.time - 1)])
  }

  /** The nodes from stack position `p` up become one finished component. */
  ghost predicate Popped(e: Env, p: nat, e': Env) {
    && p <= |e.stack|
    && e'.stack == e.stack[..p]
    && e'.count == e.count + 1 && e'.time == e.time
    && |e'.states| == |e.states| && |e'.partition| == |e.partition| == |e.states|
    && (forall v: nat :: v < |e.states| ==>
          && e'.states[v] == (if v in e.stack[p..] then e.states[v].(color := Finished) else e.states[v])
          && e'.partition[v] == (if v in e.stack[p..] then e.count else e.partition[v]))
  }

  /** Nothing that was visited before a call is touched by it. */
  ghost predicate Keeps(e: Env, e': Env) {
    && |e'.states| == |e.states| && |e'.partition| == |e.partition|
    && e.time <= e'.time
    && e.stack <= e'.stack
    && (forall v: nat :: Visited(e, v) ==> e'.states[v] == e.states[v])
    && (forall v: nat :: Done(e, v) && v < |e.partition| ==> e'.partition[v] == e.partition[v])
  }

  /** No edge from the stack above position `p` to the stack below `p` undercuts `lo`. */
  ghost predicate LowBound(g: Graph, e: Env, p: nat, from: nat, lo: nat) {
    forall j: nat, z: nat ::
      from <= j < |e.stack| && Edge(g, e.stack[j], z) && z in e.stack[..Min(p, |e.stack|)] && z < |e.states| ==>
        lo <= e.states[z].timeSeen
  }

  /** What one call of `process` achieves. */
  ghost predicate Post(g: Graph, e: Env, node: nat, e': Env) {
    && Keeps(e, e')
    && Visited(e', node)
    && e'.states[node].timeSeen == e.time
    && (if Done(e', node)
        then e'.stack == e.stack && e.time <= e'.states[node].backLo
        else |e.stack| < |e'.stack| && e'.stack[|e.stack|] == node
             && e'.states[node].backLo < e.time
             && LowBound(g, e', |e.stack|, |e.stack|, e'.states[node].backLo))
  }

  /** The loop over the successors of `node`, after the first `k` of them. */
  ghost predicate During(g: Graph, e: Env, node: nat, k: nat, m: Env) {
    && node < |g| && k <= |g[node]| && |m.states| == |g|
    && Keeps(e, m) && !Visited(e, node)
    && Waiting(m, node)
    && m.states[node].timeSeen == e.time < m.time
    && |e.stack| < |m.stack| && m.stack[|e.stack|] == node
    && LowBound(g, m, |e.stack|, |e.stack| + 1, m.states[node].backLo)
    && (forall i :: 0 <= i < k ==> Visited(m, g[node][i]))
    && (forall i :: 0 <= i < k && g[node][i] in e.stack && g[node][i] < |m.states| ==>
          m.states[node].backLo <= m.states[g[node][i]].timeSeen)
  }

  ghost predicate GraysReach(g: Graph, grays: set<nat>, node: nat) {
    forall x :: x in grays ==> Reach(g, x, node)
  }

  lemma {:induction false} SuccessorReached(g: Graph, grays: set<nat>, node: nat, next: nat, x: nat)
    requires GraysReach(g, grays, node) && Edge(g, node, next) && x in grays + {node}
    ensures Reach(g, x, next)
  {
    ReachEdge(g, node, next);
    if x != node {
      ReachTrans(g, x, node, next);
    }
  }

  lemma {:induction false} StackReaches(g: Graph, e: Env, grays: set<nat>, node: nat, j: nat)
    requires Inv(g, e, grays) && GraysReach(g, grays, node) && j < |e.stack|
    ensures Reach(g, e.stack[j], node)
  {
    assert ReachesGray(g, e, grays, j);
    var i: nat :| i <= j && e.stack[i] in grays && Reach(g, e.stack[j], e.stack[i]);
    ReachTrans(g, e.stack[j], e.stack[i], node);
  }

  ghost function Upto(n: nat): (s: set<nat>)
    ensures |s| == n && forall v: nat :: v in s <==> v < n
  {
    if n == 0 then {} else Upto(n - 1) + {n - 1}
  }

  lemma {:induction false} SubsetCard<T>(a: set<T>, b: set<T>)
    requires a <= b
    ensures |a| <= |b|
  {
    assert b == a + (b - a);
  }

  /** The clock counts visited nodes, so it never runs past the number of nodes. */
  lemma {:induction false} VisitedBound(g: Graph, e: Env, grays: set<nat>, node: nat)
    requires Inv(g, e, grays) && node < |g| && !Visited(e, node)
    ensures e.time < |g|
  {
    SubsetCard(VisitedSet(e), Upto(|g|) - {node});
  }

  lemma {:induction false} EnterStack(g: Graph, e: Env, node: nat)
    requires Shape(g, e) && StackOk(e) && node < |g| && !Visited(e, node)
    ensures StackOk(Enter(e, node))
  {
    var m := Enter(e, node);
    forall i, j | 0 <= i < j < |m.stack| && m.stack[i] < |m.states| && m.stack[j] < |m.states|
      ensures m.states[m.stack[i]].timeSeen < m.states[m.stack[j]].timeSeen
    {
      assert Waiting(e, e.stack[i]);
      if j < |e.stack| {
        assert Waiting(e, e.stack[j]);
      }
    }
    forall v: nat | Waiting(m, v)
      ensures v in m.stack
    {
      if v == node {
        assert m.stack[|e.stack|] == node;
      } else {
        assert Waiting(e, v);
        var i :| 0 <= i < |e.stack| && e.stack[i] == v;
        assert m.stack[i] == v;
      }
    }
  }

  lemma {:induction false} EnterShape(g: Graph, e: Env, node: nat)
    requires Shape(g, e) && StackOk(e) && node < |g| && !Visited(e, node)
    ensures Shape(g, Enter(e, node)) && StackOk(Enter(e, node))
  {
    EnterStack(g, e, node);
    hide StackOk;
    assert VisitedSet(Enter(e, node)) == VisitedSet(e) + {node};
  }

  lemma {:induction false} EnterLinked(g: Graph, e: Env, grays: set<nat>, node: nat)
    requires Inv(g, e, grays) && node < |g| && !Visited(e, node) && GraysReach(g, grays, node)
    ensures Linked(g, Enter(e, node), grays + {node})
  {
    var m := Enter(e, node);
    var gs := grays + {node};
    assert m.stack[|e.stack|] == node;
    ReachSelf(g, node);
    forall i, j | 0 <= i <= j < |m.stack|
      ensures Reach(g, m.stack[i], m.stack[j])
    {
      if i < |e.stack| && j == |e.stack| {
        StackReaches(g, e, grays, node, i);
      }
    }
    forall j: nat | j < |m.stack|
      ensures ReachesGray(g, m, gs, j)
    {
      if j < |e.stack| {
        assert ReachesGray(g, e, grays, j);
        var i: nat :| i <= j && e.stack[i] in grays && Reach(g, e.stack[j], e.stack[i]);
        assert m.stack[i] in gs && Reach(g, m.stack[j], m.stack[i]);
      } else {
        assert m.stack[j] in gs && Reach(g, m.stack[j], m.stack[j]);
      }
    }
  }

  lemma {:induction false} EnterLow(g: Graph, e: Env, node: nat)
    requires |e.states| == |g| && LowOk(g, e) && node < |g| && !Visited(e, node)
    ensures LowOk(g, Enter(e, node))
  {
    var m := Enter(e, node);
    forall v: nat | Waiting(m, v)
      ensures LowWitness(g, m, v)
    {
      if v == node {
        ReachSelf(g, node);
        assert Waiting(m, node);
      } else {
        assert LowWitness(g, e, v);
        var w: nat :| Waiting(e, w) && e.states[w].timeSeen == e.states[v].backLo && Reach(g, v, w);
        assert Waiting(m, w);
      }
    }
  }

  lemma {:induction false} EnterKeeps(g: Graph, e: Env, grays: set<nat>, node: nat)
    requires Inv(g, e, grays) && node < |g| && !Visited(e, node) && GraysReach(g, grays, node)
    ensures Inv(g, Enter(e, node), grays + {node})
    ensures During(g, e, node, 0, Enter(e, node))
  {
    EnterShape(g, e, node);
    EnterLinked(g, e, grays, node);
    EnterLow(g, e, node);
    DoneUnchanged(g, e, Enter(e, node));
  }

  /** Steps that leave the finished nodes alone keep what is known about them. */
  lemma {:induction false} DoneUnchanged(g: Graph, e: Env, m: Env)
    requires |e.partition| == |e.states| == |m.states| && m.partition == e.partition && m.count == e.count
    requires DoneOk(g, e)
    requires forall v: nat :: Done(m, v) <==> Done(e, v)
    ensures DoneOk(g, m)
  {
    forall c: nat | c < m.count
      ensures HasColor(m, c)
    {
      assert HasColor(e, c);
      var v: nat :| Done(e, v) && v < |e.partition| && e.partition[v] == c;
      assert Done(m, v);
    }
  }

  /** Steps that only write low-links and finish times. */
  ghost predicate SameShape(m: Env, r: Env) {
    && r.stack == m.stack && r.partition == m.partition && r.count == m.count && r.time == m.time
    && |r.states| == |m.states|
    && forall v: nat :: v < |m.states| ==>
         r.states[v].color == m.states[v].color && r.states[v].timeSeen == m.states[v].timeSeen
  }

  lemma {:induction false} SameShapeKeeps(g: Graph, m: Env, r: Env, grays: set<nat>)
    requires SameShape(m, r) && Shape(g, m) && StackOk(m) && NoBlackToWhite(g, m, grays) && Linked(g, m, grays)
    requires DoneOk(g, m)
    ensures StackOk(r) && NoBlackToWhite(g, r, grays) && Linked(g, r, grays) && DoneOk(g, r)
    ensures VisitedSet(r) == VisitedSet(m)
  {
    forall j: nat | j < |r.stack|
      ensures ReachesGray(g, r, grays, j)
    {
      assert ReachesGray(g, m, grays, j);
    }
    forall v: nat
      ensures Done(r, v) <==> Done(m, v)
      ensures Waiting(r, v) <==> Waiting(m, v)
      ensures Visited(r, v) <==> Visited(m, v)
    {
    }
    DoneUnchanged(g, m, r);
  }

  lemma {:induction false} MergeLow(g: Graph, m: Env, node: nat, next: nat)
    requires |m.states| == |g| && LowOk(g, m) && Waiting(m, node) && Edge(g, node, next)
    requires Visited(m, next) && (Done(m, next) ==> m.states[node].backLo <= m.states[next].backLo)
    ensures LowOk(g, Merge(m, node, next))
  {
    var r := Merge(m, node, next);
    forall v: nat | Waiting(r, v)
      ensures LowWitness(g, r, v)
    {
      assert LowWitness(g, m, v);
      var w: nat :| Waiting(m, w) && m.states[w].timeSeen == m.states[v].backLo && Reach(g, v, w);
      if v == node && r.states[v].backLo != m.states[v].backLo {
        assert LowWitness(g, m, next);
        w :| Waiting(m, w) && m.states[w].timeSeen == m.states[next].backLo && Reach(g, next, w);
        ReachEdge(g, node, next);
        ReachTrans(g, node, next, w);
      }
      assert Waiting(r, w);
    }
  }

  /** Merging a visited successor's pair into `node`'s; a finished one must not lower it. */
  lemma {:induction false} MergeInv(g: Graph, m: Env, grays: set<nat>, node: nat, next: nat)
    requires Inv(g, m, grays) && Waiting(m, node) && Edge(g, node, next)
    requires Visited(m, next) && (Done(m, next) ==> m.states[node].backLo <= m.states[next].backLo)
    ensures Inv(g, Merge(m, node, next), grays)
  {
    SameShapeKeeps(g, m, Merge(m, node, next), grays);
    MergeLow(g, m, node, next);
  }

  /** A successor that was visited before: on the stack its pair is merged, a finished one is skipped. */
  lemma {:induction false} KnownSuccessor(g: Graph, e: Env, node: nat, k: nat, m: Env, grays: set<nat>)
    requires StackOk(e) && Inv(g, m, grays) && During(g, e, node, k, m) && k < |g[node]| && Visited(m, g[node][k])
    ensures Done(m, g[node][k]) ==> During(g, e, node, k + 1, m)
    ensures Waiting(m, g[node][k]) ==>
      Inv(g, Merge(m, node, g[node][k]), grays) && During(g, e, node, k + 1, Merge(m, node, g[node][k]))
  {
    var next := g[node][k];
    assert Edge(g, node, next);
    if Done(m, next) {
      assert next in e.stack ==> Waiting(e, next);
    } else {
      MergeInv(g, m, grays, node, next);
      KnownMerge(g, e, node, k, m, grays);
    }
  }

  lemma {:induction false} KnownMerge(g: Graph, e: Env, node: nat, k: nat, m: Env, grays: set<nat>)
    requires StackOk(e) && Shape(g, m) && During(g, e, node, k, m) && k < |g[node]| && Waiting(m, g[node][k])
    ensures During(g, e, node, k + 1, Merge(m, node, g[node][k]))
  {
  }

  /** A successor that was not visited: its call returned in state `c`, then its pair is merged whatever its colour. */
  lemma {:induction false} NewSuccessor(g: Graph, e: Env, node: nat, k: nat, m: Env, c: Env, grays: set<nat>)
    requires StackOk(e) && Inv(g, m, grays) && During(g, e, node, k, m) && k < |g[node]| && !Visited(m, g[node][k])
    requires Inv(g, c, grays) && Post(g, m, g[node][k], c)
    ensures Inv(g, Merge(c, node, g[node][k]), grays) && During(g, e, node, k + 1, Merge(c, node, g[node][k]))
  {
    var next := g[node][k];
    assert Edge(g, node, next);
    assert Visited(m, node) && Waiting(c, node);
    MergeInv(g, c, grays, node, next);
    NewMerge(g, e, node, k, m, c);
  }

  lemma {:induction false} KeepsTrans(a: Env, b: Env, c: Env)
    requires Keeps(a, b) && Keeps(b, c) && |a.partition| == |a.states|
    ensures Keeps(a, c)
  {
    assert forall v: nat :: Visited(a, v) ==> Visited(b, v);
    assert forall v: nat :: Done(a, v) ==> Done(b, v);
  }

  lemma {:induction false} NewLowBound(g: Graph, e: Env, node: nat, m: Env, c: Env, next: nat)
    requires StackOk(e) && Keeps(e, m) && Keeps(m, c) && |e.stack| < |m.stack|
    requires node < |c.states| && next < |c.states|
    requires LowBound(g, m, |e.stack|, |e.stack| + 1, c.states[node].backLo)
    requires Done(c, next) ==> c.stack == m.stack
    requires Waiting(c, next) ==> LowBound(g, c, |m.stack|, |m.stack|, c.states[next].backLo)
    requires Visited(c, next)
    ensures LowBound(g, c, |e.stack|, |e.stack| + 1, Min(c.states[node].backLo, c.states[next].backLo))
  {
    var p := |e.stack|;
    forall j: nat, z: nat | p + 1 <= j < |c.stack| && Edge(g, c.stack[j], z) && z in c.stack[..Min(p, |c.stack|)] &&
      z < |c.states|
      ensures Min(c.states[node].backLo, c.states[next].backLo) <= c.states[z].timeSeen
    {
      assert c.stack[..p] == e.stack == m.stack[..p];
      assert Waiting(e, z);
      assert Visited(e, z) && Visited(m, z);
      if j < |m.stack| {
        assert m.stack[j] == c.stack[j];
      } else {
        assert z in c.stack[..|m.stack|] by {
          var i :| 0 <= i < p && c.stack[i] == z;
          assert c.stack[..|m.stack|][i] == z;
        }
      }
    }
  }

  lemma {:induction false} NewMerge(g: Graph, e: Env, node: nat, k: nat, m: Env, c: Env)
    requires StackOk(e) && Shape(g, m) && During(g, e, node, k, m) && k < |g[node]| && !Visited(m, g[node][k])
    requires Shape(g, c) && Post(g, m, g[node][k], c)
    ensures During(g, e, node, k + 1, Merge(c, node, g[node][k]))
  {
    var next := g[node][k];
    var r := Merge(c, node, next);
    var p := |e.stack|;
    assert Visited(m, node) && Waiting(c, node);
    NewLowBound(g, e, node, m, c, next);
    MergeLowBound(g, c, node, next, p);
    KeepsTrans(e, m, c);
    forall v: nat | Visited(e, v)
      ensures r.states[v] == e.states[v]
    {
      assert v != node;
    }
    forall i | 0 <= i < k + 1
      ensures Visited(r, g[node][i])
      ensures g[node][i] in e.stack && g[node][i] < |r.states| ==>
        r.states[node].backLo <= r.states[g[node][i]].timeSeen
    {
      var z := g[node][i];
      assert z in e.stack ==> Waiting(e, z);
      assert i < k ==> Visited(m, z);
    }
  }

  lemma {:induction false} MergeLowBound(g: Graph, c: Env, node: nat, next: nat, p: nat)
    requires node < |c.states| && next < |c.states| && |c.stack| > p
    requires LowBound(g, c, p, p + 1, Min(c.states[node].backLo, c.states[next].backLo))
    ensures LowBound(g, Merge(c, node, next), p, p + 1, Merge(c, node, next).states[node].backLo)
  {
  }

  // ---- Leaving `node` ----

  /** The second half of the source's test always holds: no low-link pair reaches past the clock. */
  lemma {:induction false} LeaveTest(g: Graph, m: Env, node: nat)
    requires Shape(g, m) && Waiting(m, node)
    ensures var s := Leave(m, node).states[node];
            s.timeSeen <= s.backLo && s.timeDone >= s.backHi <==> m.states[node].backLo == m.states[node].timeSeen
  {
    assert Visited(m, node);
  }

  ghost predicate Finishing(g: Graph, e: Env, grays: set<nat>, node: nat, m: Env) {
    && Inv(g, e, grays) && node < |g|
    && During(g, e, node, |g[node]|, m) && Inv(g, m, grays + {node})
  }

  lemma {:induction false} NodeNotGray(g: Graph, e: Env, grays: set<nat>, node: nat, m: Env)
    requires Finishing(g, e, grays, node, m)
    ensures node !in grays && node !in e.stack
    ensures forall v: nat :: Edge(g, node, v) ==> Visited(m, v)
  {
    assert node in e.stack ==> Waiting(e, node);
    forall v: nat | Edge(g, node, v)
      ensures Visited(m, v)
    {
      var i :| 0 <= i < |g[node]| && g[node][i] == v;
      assert Visited(m, g[node][i]);
    }
  }

  lemma {:induction false} LeaveLow(g: Graph, m: Env, node: nat)
    requires |m.states| == |g| && LowOk(g, m) && Waiting(m, node) && m.time > 0
    ensures LowOk(g, Leave(m, node))
  {
    var l := Leave(m, node);
    forall v: nat | Waiting(l, v)
      ensures LowWitness(g, l, v)
    {
      assert LowWitness(g, m, v);
      var w: nat :| Waiting(m, w) && m.states[w].timeSeen == m.states[v].backLo && Reach(g, v, w);
      assert Waiting(l, w);
    }
  }

  lemma {:induction false} LeaveKeepsShape(g: Graph, e: Env, grays: set<nat>, node: nat, m: Env)
    requires Finishing(g, e, grays, node, m)
    ensures Shape(g, Leave(m, node)) && StackOk(Leave(m, node)) && DoneOk(g, Leave(m, node)) && LowOk(g, Leave(m, node))
    ensures NoBlackToWhite(g, Leave(m, node), grays) && Linked(g, Leave(m, node), grays + {node})
    ensures Keeps(e, Leave(m, node))
  {
    NodeNotGray(g, e, grays, node, m);
    SameShapeKeeps(g, m, Leave(m, node), grays + {node});
    LeaveLow(g, m, node);
    NodeIsBlack(g, Leave(m, node), grays, node);
  }

  lemma {:induction false} NodeIsBlack(g: Graph, l: Env, grays: set<nat>, node: nat)
    requires NoBlackToWhite(g, l, grays + {node})
    requires forall v: nat :: Edge(g, node, v) ==> Visited(l, v)
    ensures NoBlackToWhite(g, l, grays)
  {
  }

  /** The pair points below `node`: it stays on the stack, and reaches a running node through its witness. */
  lemma {:induction false} Stay(g: Graph, e: Env, grays: set<nat>, node: nat, m: Env)
    requires Finishing(g, e, grays, node, m) && m.states[node].backLo < m.states[node].timeSeen
    ensures Inv(g, Leave(m, node), grays) && Post(g, e, node, Leave(m, node))
  {
    var l := Leave(m, node);
    LeaveKeepsShape(g, e, grays, node, m);
    NodeNotGray(g, e, grays, node, m);
    forall j: nat | j < |l.stack|
      ensures ReachesGray(g, l, grays, j)
    {
      StayReachesGray(g, e, grays, node, m, j);
    }
    StayLowBound(g, e, node, m);
  }

  lemma {:induction false} StayReachesGray(g: Graph, e: Env, grays: set<nat>, node: nat, m: Env, j: nat)
    requires Finishing(g, e, grays, node, m) && m.states[node].backLo < m.states[node].timeSeen && j < |m.stack|
    ensures ReachesGray(g, Leave(m, node), grays, j)
  {
    hide NoBlackToWhite, LowOk, DoneOk, LowBound, Reach;
    var l := Leave(m, node);
    var b := LowBelow(g, e, grays, node, m);
    assert ReachesGray(g, m, grays + {node}, j);
    var i: nat :| i <= j && m.stack[i] in grays + {node} && Reach(g, m.stack[j], m.stack[i]);
    if m.stack[i] == node {
      assert l.stack[b] in grays;
      ReachTrans(g, l.stack[j], node, l.stack[b]);
      SamePosition(m, i, |e.stack|);
    }
  }

  lemma {:induction false} SamePosition(m: Env, i: nat, j: nat)
    requires StackOk(m) && i < |m.stack| && j < |m.stack|
    ensures m.stack[i] == m.stack[j] ==> i == j
  {
    assert Waiting(m, m.stack[i]);
  }

  /** The running node below `node` that its low-link witness leads to. */
  lemma {:induction false} LowBelow(g: Graph, e: Env, grays: set<nat>, node: nat, m: Env) returns (b: nat)
    requires Finishing(g, e, grays, node, m) && m.states[node].backLo < m.states[node].timeSeen
    ensures b < |e.stack| && e.stack[b] in grays && Reach(g, node, e.stack[b])
  {
    assert LowWitness(g, m, node);
    var w: nat :| Waiting(m, w) && m.states[w].timeSeen == m.states[node].backLo && Reach(g, node, w);
    var j :| 0 <= j < |m.stack| && m.stack[j] == w;
    assert j < |e.stack| by {
      assert m.stack[|e.stack|] == node;
      assert Waiting(m, m.stack[j]);
    }
    assert ReachesGray(g, e, grays, j);
    b :| b <= j && e.stack[b] in grays && Reach(g, e.stack[j], e.stack[b]);
    ReachTrans(g, node, w, e.stack[b]);
  }

  lemma {:induction false} StayLowBound(g: Graph, e: Env, node: nat, m: Env)
    requires node < |g| && During(g, e, node, |g[node]|, m) && StackOk(e) && m.time > 0
    ensures LowBound(g, Leave(m, node), |e.stack|, |e.stack|, m.states[node].backLo)
  {
    var l := Leave(m, node);
    var p := |e.stack|;
    forall j: nat, z: nat | p <= j < |l.stack| && Edge(g, l.stack[j], z) && z in l.stack[..Min(p, |l.stack|)] &&
      z < |l.states|
      ensures m.states[node].backLo <= l.states[z].timeSeen
    {
      assert l.stack[..p] == e.stack == m.stack[..p];
      if j == p {
        var i :| 0 <= i < |g[node]| && g[node][i] == z;
        assert g[node][i] in e.stack;
      } else {
        assert Edge(g, m.stack[j], z);
      }
    }
  }

  // ---- Popping a component ----

  /** Leaving `node` in state `l` when its pair does not point below it. */
  ghost predicate RootFound(g: Graph, e: Env, grays: set<nat>, node: nat, l: Env) {
    && Inv(g, e, grays) && node < |g| && node !in grays && node !in e.stack
    && Shape(g, l) && StackOk(l) && DoneOk(g, l) && LowOk(g, l)
    && NoBlackToWhite(g, l, grays) && Linked(g, l, grays + {node})
    && Keeps(e, l) && |e.stack| < |l.stack| && l.stack[|e.stack|] == node
    && LowBound(g, l, |e.stack|, |e.stack|, l.states[node].timeSeen)
  }

  lemma {:induction false} LeaveRoot(g: Graph, e: Env, grays: set<nat>, node: nat, m: Env)
    requires Finishing(g, e, grays, node, m) && m.states[node].backLo == m.states[node].timeSeen
    ensures RootFound(g, e, grays, node, Leave(m, node))
    ensures forall i :: |e.stack| < i < |m.stack| ==> m.stack[i] != node
  {
    LeaveKeepsShape(g, e, grays, node, m);
    NodeNotGray(g, e, grays, node, m);
    StayLowBound(g, e, node, m);
    forall i: nat | |e.stack| < i < |m.stack|
      ensures m.stack[i] != node
    {
      SamePosition(m, |e.stack|, i);
    }
  }

  ghost predicate InComponent(e: Env, l: Env, v: nat) {
    |e.stack| <= |l.stack| && v in l.stack[|e.stack|..]
  }

  ghost predicate Layout(e: Env, l: Env) {
    StackOk(e) && StackOk(l) && Keeps(e, l) && |e.stack| < |l.stack|
  }

  lemma {:induction false} BelowPlace(e: Env, l: Env, v: nat)
    requires Layout(e, l) && v in e.stack
    ensures Waiting(e, v) && Waiting(l, v) && !InComponent(e, l, v)
    ensures l.stack[|e.stack|] < |l.states| && l.states[v].timeSeen < l.states[l.stack[|e.stack|]].timeSeen
  {
    var p := |e.stack|;
    var i :| 0 <= i < p && e.stack[i] == v;
    assert Visited(e, v) && l.stack[i] == v;
    assert Waiting(l, l.stack[p]);
    forall j: nat | p <= j < |l.stack|
      ensures l.stack[j] != v
    {
      SamePosition(l, i, j);
    }
  }

  lemma {:induction false} ComponentPlaces(e: Env, l: Env, v: nat)
    requires Layout(e, l)
    ensures InComponent(e, l, v) <==> Waiting(l, v) && v !in e.stack
    ensures v in e.stack ==> Waiting(e, v) && Waiting(l, v)
    ensures v in e.stack ==>
      l.stack[|e.stack|] < |l.states| && l.states[v].timeSeen < l.states[l.stack[|e.stack|]].timeSeen
  {
    var p := |e.stack|;
    if v in e.stack {
      BelowPlace(e, l, v);
    } else if Waiting(l, v) {
      var i :| 0 <= i < |l.stack| && l.stack[i] == v;
      assert l.stack[p..][i - p] == v;
    }
  }

  /** No edge leaves the component except to finished nodes. */
  lemma {:induction false} ComponentClosed(g: Graph, e: Env, grays: set<nat>, node: nat, l: Env, x: nat, y: nat)
    requires RootFound(g, e, grays, node, l) && InComponent(e, l, x) && Edge(g, x, y)
    ensures InComponent(e, l, y) || Done(l, y)
  {
    var p := |e.stack|;
    ComponentPlaces(e, l, x);
    ComponentPlaces(e, l, y);
    assert x !in grays;
    assert Visited(l, y);
    var j :| 0 <= j < |l.stack| - p && l.stack[p..][j] == x;
    assert l.stack[..Min(p, |l.stack|)] == e.stack;
    assert Edge(g, l.stack[p + j], y);
  }

  lemma {:induction false} ComponentReachesRoot(g: Graph, e: Env, grays: set<nat>, node: nat, l: Env, x: nat)
    requires RootFound(g, e, grays, node, l) && InComponent(e, l, x)
    ensures Reach(g, x, node)
  {
    hide NoBlackToWhite, LowOk, DoneOk, LowBound, Reach;
    var p := |e.stack|;
    var i :| 0 <= i < |l.stack| - p && l.stack[p..][i] == x;
    assert ReachesGray(g, l, grays + {node}, p + i);
    var b: nat :| b <= p + i && l.stack[b] in grays + {node} && Reach(g, l.stack[p + i], l.stack[b]);
    var z := l.stack[b];
    ComponentReach(g, e, grays, node, l, x, z);
    ComponentPlaces(e, l, z);
    assert z in grays ==> z in e.stack;
  }

  lemma {:induction false} ComponentMutual(g: Graph, e: Env, grays: set<nat>, node: nat, l: Env, x: nat, y: nat)
    requires RootFound(g, e, grays, node, l) && InComponent(e, l, x) && InComponent(e, l, y)
    ensures Reach(g, x, y)
  {
    var p := |e.stack|;
    ComponentReachesRoot(g, e, grays, node, l, x);
    var j :| 0 <= j < |l.stack| - p && l.stack[p..][j] == y;
    assert Reach(g, l.stack[p], l.stack[p + j]);
    ReachTrans(g, x, node, y);
  }

  lemma {:induction false} ComponentReach(g: Graph, e: Env, grays: set<nat>, node: nat, l: Env, x: nat, z: nat)
    requires RootFound(g, e, grays, node, l) && (InComponent(e, l, x) || Done(l, x)) && Reach(g, x, z)
    ensures InComponent(e, l, z) || Done(l, z)
    ensures Done(l, x) ==> Done(l, z)
  {
    var done := set v: nat | v < |l.states| && Done(l, v);
    forall v | v in l.stack[|e.stack|..]
      ensures v < |l.states|
    {
      ComponentPlaces(e, l, v);
    }
    var comp := set v | v in l.stack[|e.stack|..];
    forall u: nat, v: nat | u in done + comp && Edge(g, u, v)
      ensures v in done + comp
    {
      if InComponent(e, l, u) {
        ComponentClosed(g, e, grays, node, l, u, v);
      }
    }
    ClosedUnderReach(g, done + comp, x, z);
    if Done(l, x) {
      ClosedUnderReach(g, done, x, z);
    }
  }

  lemma {:induction false} PopDone(g: Graph, e: Env, grays: set<nat>, node: nat, l: Env, r: Env)
    requires RootFound(g, e, grays, node, l) && Popped(l, |e.stack|, r)
    ensures forall v: nat :: Done(r, v) <==> Done(l, v) || InComponent(e, l, v)
    ensures forall v: nat :: Done(l, v) ==> !InComponent(e, l, v)
    ensures forall v: nat :: Waiting(r, v) <==> Waiting(l, v) && !InComponent(e, l, v)
    ensures forall v: nat :: Visited(r, v) <==> Visited(l, v)
  {
    forall v: nat
      ensures Done(r, v) <==> Done(l, v) || InComponent(e, l, v)
      ensures Done(l, v) ==> !InComponent(e, l, v)
      ensures Waiting(r, v) <==> Waiting(l, v) && !InComponent(e, l, v)
      ensures Visited(r, v) <==> Visited(l, v)
    {
      ComponentPlaces(e, l, v);
    }
  }

  lemma {:induction false} PopDoneOk(g: Graph, e: Env, grays: set<nat>, node: nat, l: Env, r: Env)
    requires RootFound(g, e, grays, node, l) && Popped(l, |e.stack|, r)
    ensures DoneOk(g, r)
  {
    PopDone(g, e, grays, node, l, r);
    forall u: nat, v: nat | Edge(g, u, v) && Done(r, u)
      ensures Done(r, v) && r.partition[v] <= r.partition[u]
    {
      if InComponent(e, l, u) {
        ComponentClosed(g, e, grays, node, l, u, v);
      }
    }
    forall u: nat, v: nat | Done(r, u) && Done(r, v)
      ensures r.partition[u] == r.partition[v] <==> Mutual(g, u, v)
    {
      PopPair(g, e, grays, node, l, r, u, v);
    }
    forall c: nat | c < r.count
      ensures HasColor(r, c)
    {
      if c < l.count {
        assert HasColor(l, c);
        var v: nat :| Done(l, v) && v < |l.partition| && l.partition[v] == c;
        assert Done(r, v);
      } else {
        assert l.stack[|e.stack|..][0] == node;
        assert Done(r, node);
      }
    }
  }

  lemma {:induction false} PopPair(g: Graph, e: Env, grays: set<nat>, node: nat, l: Env, r: Env, u: nat, v: nat)
    requires RootFound(g, e, grays, node, l) && Popped(l, |e.stack|, r)
    requires Done(l, u) || InComponent(e, l, u)
    requires Done(l, v) || InComponent(e, l, v)
    ensures u < |r.partition| && v < |r.partition|
    ensures r.partition[u] == r.partition[v] <==> Mutual(g, u, v)
  {
    PopDone(g, e, grays, node, l, r);
    assert Done(r, u) && Done(r, v);
    if InComponent(e, l, u) && InComponent(e, l, v) {
      ComponentMutual(g, e, grays, node, l, u, v);
      ComponentMutual(g, e, grays, node, l, v, u);
    } else if Done(l, u) && Done(l, v) {
    } else if Mutual(g, u, v) {
      ComponentReach(g, e, grays, node, l, u, v);
      ComponentReach(g, e, grays, node, l, v, u);
    }
  }

  /** The pair points at `node` itself: what lies above it on the stack is a whole component. */
  lemma {:induction false} Pop(g: Graph, e: Env, grays: set<nat>, node: nat, l: Env, r: Env)
    requires RootFound(g, e, grays, node, l) && Popped(l, |e.stack|, r)
    requires l.states[node].timeSeen == e.time <= l.states[node].backLo
    ensures Inv(g, r, grays) && Post(g, e, node, r)
  {
    PopDone(g, e, grays, node, l, r);
    PopDoneOk(g, e, grays, node, l, r);
    PopShape(g, e, grays, node, l, r);
    PopRest(g, e, grays, node, l, r);
    PopKeeps(g, e, grays, node, l, r);
  }

  lemma {:induction false} PopShape(g: Graph, e: Env, grays: set<nat>, node: nat, l: Env, r: Env)
    requires RootFound(g, e, grays, node, l) && Popped(l, |e.stack|, r)
    ensures Shape(g, r) && StackOk(r)
  {
    PopDone(g, e, grays, node, l, r);
    assert VisitedSet(r) == VisitedSet(l);
    assert r.stack == e.stack;
    forall v: nat
      ensures v in r.stack <==> Waiting(r, v)
    {
      ComponentPlaces(e, l, v);
    }
    forall v: nat | Visited(r, v)
      ensures r.states[v].backLo <= r.states[v].timeSeen < r.time && r.states[v].backHi < r.time
    {
      assert Visited(l, v);
    }
    forall i, j | 0 <= i < j < |r.stack| && r.stack[i] < |r.states| && r.stack[j] < |r.states|
      ensures r.states[r.stack[i]].timeSeen < r.states[r.stack[j]].timeSeen
    {
      assert l.stack[i] == r.stack[i] && l.stack[j] == r.stack[j];
    }
  }

  lemma {:induction false} PopRest(g: Graph, e: Env, grays: set<nat>, node: nat, l: Env, r: Env)
    requires RootFound(g, e, grays, node, l) && Popped(l, |e.stack|, r)
    ensures NoBlackToWhite(g, r, grays) && Linked(g, r, grays) && LowOk(g, r)
  {
    PopDone(g, e, grays, node, l, r);
    assert r.stack == e.stack;
    forall v: nat
      ensures Waiting(r, v) <==> Waiting(e, v)
      ensures Waiting(e, v) ==> r.states[v] == e.states[v]
    {
      ComponentPlaces(e, l, v);
      if Waiting(e, v) {
        assert v in e.stack && Visited(e, v);
      }
    }
    forall j: nat | j < |r.stack|
      ensures ReachesGray(g, r, grays, j)
    {
      assert ReachesGray(g, e, grays, j);
    }
    PopLow(g, e, r);
  }

  lemma {:induction false} PopLow(g: Graph, e: Env, r: Env)
    requires LowOk(g, e) && |r.states| == |e.states|
    requires forall v: nat :: Waiting(r, v) <==> Waiting(e, v)
    requires forall v: nat :: Waiting(e, v) ==> r.states[v] == e.states[v]
    ensures LowOk(g, r)
  {
    forall v: nat | Waiting(r, v)
      ensures LowWitness(g, r, v)
    {
      assert LowWitness(g, e, v);
      var w: nat :| Waiting(e, w) && e.states[w].timeSeen == e.states[v].backLo && Reach(g, v, w);
      assert Waiting(r, w) && r.states[w] == e.states[w];
    }
  }

  lemma {:induction false} PopKeeps(g: Graph, e: Env, grays: set<nat>, node: nat, l: Env, r: Env)
    requires RootFound(g, e, grays, node, l) && Popped(l, |e.stack|, r)
    ensures Keeps(e, r) && Done(r, node) && r.stack == e.stack
  {
    PopDone(g, e, grays, node, l, r);
    assert r.stack == e.stack;
    assert l.stack[|e.stack|..][0] == node;
    forall v: nat | Visited(e, v)
      ensures r.states[v] == e.states[v]
      ensures Done(e, v) && v < |e.partition| ==> r.partition[v] == e.partition[v]
    {
      ComponentPlaces(e, l, v);
      assert l.states[v] == e.states[v];
    }
  }

  // ---- The engine ----

  ghost predicate Running(g: Graph, e: Env, grays: set<nat>, node: nat, k: nat, m: Env) {
    && Inv(g, e, grays) && node < |g|
    && During(g, e, node, k, m) && Inv(g, m, grays + {node})
  }

  /** One turn of the loop, by the colour of the successor. */
  lemma {:induction false} Turn(g: Graph, e: Env, grays: set<nat>, node: nat, k: nat, m: Env)
    requires Running(g, e, grays, node, k, m) && k < |g[node]| && GraysReach(g, grays, node)
    ensures |m.states| == |g| && node < |g| && g[node][k] < |g| && e.time < m.time <= |g|
    ensures m.states[g[node][k]].color.NotVisited? ==>
      !Visited(m, g[node][k]) && GraysReach(g, grays + {node}, g[node][k])
    ensures m.states[g[node][k]].color.OnStack? ==> Running(g, e, grays, node, k + 1, Merge(m, node, g[node][k]))
    ensures m.states[g[node][k]].color.Finished? ==> Running(g, e, grays, node, k + 1, m)
  {
    var next := g[node][k];
    assert Edge(g, node, next);
    SubsetCard(VisitedSet(m), Upto(|g|));
    if Visited(m, next) {
      KnownSuccessor(g, e, node, k, m, grays + {node});
    } else {
      forall x | x in grays + {node}
        ensures Reach(g, x, next)
      {
        SuccessorReached(g, grays, node, next, x);
      }
    }
  }

  lemma {:induction false} TurnAfterCall(g: Graph, e: Env, grays: set<nat>, node: nat, k: nat, m: Env, c: Env)
    requires Running(g, e, grays, node, k, m) && k < |g[node]| && !Visited(m, g[node][k])
    requires Inv(g, c, grays + {node}) && Post(g, m, g[node][k], c)
    ensures |c.states| == |g| && node < |g| && g[node][k] < |g|
    ensures Running(g, e, grays, node, k + 1, Merge(c, node, g[node][k]))
  {
    NewSuccessor(g, e, node, k, m, c, grays + {node});
  }

  class Engine {
    const g: Graph
    var states: seq<NodeState>
    var stack: seq<nat>
    var partition: seq<nat>
    var partitionCount: nat
    var time: nat

    ghost function Now(): (e: Env)
      reads this
    {
      Env(states, stack, partition, partitionCount, time)
    }

    constructor (g: Graph)
      requires WellFormed(g)
      ensures this.g == g && Inv(g, Now(), {})
      ensures forall v: nat :: !Visited(Now(), v)
    {
      this.g := g;
      states := seq(|g|, _ => NodeState(0, 0, 0, 0, NotVisited));
      stack := [];
      partition := seq(|g|, _ => 0);
      partitionCount := 0;
      time := 0;
      new;
      assert VisitedSet(Now()) == {};
    }

    /** The popping loop: everything from `node` up on the stack gets the next colour. */
    method PopComponent(node: nat, ghost p: nat)
      requires |states| == |partition| && p < |stack| && stack[p] == node
      requires forall i :: 0 <= i < |stack| ==> stack[i] < |states|
      requires forall i :: p < i < |stack| ==> stack[i] != node
      modifies this
      ensures Popped(old(Now()), p, Now())
    {
      var partitionIndex := partitionCount;
      partitionCount := partitionCount + 1;
      ghost var l := old(Now());
      while true
        invariant p < |stack| <= |l.stack| && stack == l.stack[..|stack|]
        invariant |states| == |l.states| && |partition| == |l.partition|
        invariant partitionCount == l.count + 1 && time == l.time
        invariant forall v: nat :: v < |states| ==>
          && states[v] == (if v in l.stack[|stack|..] then l.states[v].(color := Finished) else l.states[v])
          && partition[v] == (if v in l.stack[|stack|..] then partitionIndex else l.partition[v])
        decreases |stack|
      {
        var curr := stack[|stack| - 1];
        assert l.stack[|stack| - 1..] == [curr] + l.stack[|stack|..];
        stack := stack[..|stack| - 1];
        partition := partition[curr := partitionIndex];
        states := states[curr := states[curr].(color := Finished)];
        if curr == node {
          break;
        }
      }
    }

    /** The two low-link assignments shared by the first two cases of the switch. */
    method MergePair(node: nat, next: nat)
      requires node < |states| && next < |states|
      modifies this`states
      ensures Now() == Merge(old(Now()), node, next)
    {
      states := states[node := states[node].(backLo := Min(states[node].backLo, states[next].backLo))];
      states := states[node := states[node].(backHi := Max(states[node].backHi, states[next].backHi))];
    }

    /** The start of the call. */
    method EnterNode(node: nat, ghost grays: set<nat>)
      requires Inv(g, Now(), grays) && node < |g| && !Visited(Now(), node) && GraysReach(g, grays, node)
      modifies this
      ensures Running(g, old(Now()), grays, node, 0, Now())
    {
      EnterKeeps(g, Now(), grays, node);
      states := states[node := states[node].(timeSeen := time, backLo := time, backHi := time)];
      time := time + 1;
      states := states[node := states[node].(color := OnStack)];
      stack := stack + [node];
      assert Now() == Enter(old(Now()), node);
    }

    /** The end of the call: the finish time, and the pop when the component is complete. */
    method FinishNode(node: nat, ghost grays: set<nat>, ghost e: Env)
      requires node < |g| && Running(g, e, grays, node, |g[node]|, Now())
      modifies this
      ensures Inv(g, Now(), grays) && Post(g, e, node, Now())
    {
      ghost var m := Now();
      states := states[node := states[node].(timeDone := time - 1)];
      ghost var l := Now();
      assert l == Leave(m, node);
      LeaveTest(g, m, node);
      if states[node].timeSeen <= states[node].backLo && states[node].timeDone >= states[node].backHi {
        LeaveRoot(g, e, grays, node, m);
        PopComponent(node, |e.stack|);
        Pop(g, e, grays, node, l, Now());
      } else {
        Stay(g, e, grays, node, m);
      }
    }

    /** Depth-first search from `node`; `grays` are the nodes whose calls are running. */
    method Process(node: nat, ghost grays: set<nat>)
      requires Inv(g, Now(), grays) && node < |g| && !Visited(Now(), node) && GraysReach(g, grays, node)
      modifies this
      ensures Inv(g, Now(), grays) && Post(g, old(Now()), node, Now())
      decreases |g| - time, 1
    {
      hide Inv, During, Post;
      ghost var e := Now();
      VisitedBound(g, e, grays, node);
      EnterNode(node, grays);
      for k := 0 to |g[node]|
        invariant Running(g, e, grays, node, k, Now())
      {
        var next := g[node][k];
        ghost var m := Now();
        Turn(g, e, grays, node, k, m);
        match states[next].color
        case NotVisited =>
          Process(next, grays + {node});
          TurnAfterCall(g, e, grays, node, k, m, Now());
          MergePair(node, next);
        case OnStack =>
          MergePair(node, next);
        case Finished =>
      }
      FinishNode(node, grays, e);
    }
  }

  /** The answer: `partition[v]` is the colour of `v`'s component, colours are dense, edges never go up. */
  ghost predicate IsComponents(g: Graph, partition: seq<nat>, count: nat) {
    && |partition| == |g|
    && (forall u: nat, v: nat :: u < |g| && v < |g| ==> (partition[u] == partition[v] <==> Mutual(g, u, v)))
    && (forall v: nat :: v < |g| ==> partition[v] < count)
    && (forall c: nat :: c < count ==> c in partition)
    && (forall u: nat, v: nat :: Edge(g, u, v) && v < |g| ==> partition[v] <= partition[u])
  }

  method SCC(G: DirectedGraph) returns (partition: seq<nat>)
    requires WellFormed(G.edges)
    ensures exists count: nat :: IsComponents(G.edges, partition, count)
  {
    var engine := new Engine(G.edges);
    for node := 0 to |G.edges|
      invariant fresh(engine) && engine.g == G.edges == old(G.edges)
      invariant Inv(engine.g, engine.Now(), {})
      invariant forall v :: 0 <= v < node ==> Visited(engine.Now(), v)
    {
      if engine.states[node].color == NotVisited {
        ghost var e := engine.Now();
        engine.Process(node, {});
        assert forall v: nat :: Visited(e, v) ==> Visited(engine.Now(), v);
      }
    }
    AllDone(engine.g, engine.Now());
    return engine.partition;
  }

  lemma {:induction false} AllDone(g: Graph, e: Env)
    requires Inv(g, e, {}) && forall v: nat :: v < |g| ==> Visited(e, v)
    ensures IsComponents(g, e.partition, e.count)
  {
    assert |e.stack| > 0 ==> ReachesGray(g, e, {}, 0);
    forall v: nat | v < |g|
      ensures Done(e, v)
    {
      assert Visited(e, v);
      assert Waiting(e, v) ==> v in e.stack;
    }
    forall c: nat | c < e.count
      ensures c in e.partition
    {
      assert HasColor(e, c);
    }
  }
}
