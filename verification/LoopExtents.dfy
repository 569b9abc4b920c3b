/** When the extents that the builder records span the loops. */
module LoopExtents {
  import opened SetFacts
  import opened Wrappers
  import opened Cfg
  import opened Liveness
  import opened LoopRecords
  import opened LoopSearch
  import opened LoopTree
  import opened LinearOrder
  import opened OneLoop
  import opened Dominance
  import DomTree
  import Dfs
  import opened Intervals
  import opened LiveLoops
  import opened LivenessBuild

  // ---- extents as positions ----

  /** Block number `h` comes no later than block number `m` and heads a reducible loop whose record holds a block
      that comes no earlier than block number `m`. */
  ghost predicate RecordedAround(order: seq<Block>, data: map<Block, nat>, loops: seq<Loop>, m: nat, h: nat) {
    h <= m < |order| && HeadsReducible(data, loops, order[h]) && ReachesTo(order, loops[data[order[h]]].body, m)
  }

  ghost predicate ReachesTo(order: seq<Block>, body: seq<Block>, m: nat) {
    exists b :: b in body && b in order && m <= IndexOf(order, b)
  }

  ghost predicate AllBlocks(f: Func, order: seq<Block>) {
    |f.blocks| == |f.graph.succs| && forall b :: b in order ==> b < |f.blocks|
  }

  lemma {:induction false} LoopEndIff(f: Func, order: seq<Block>, body: seq<Block>, e: nat)
    requires AllBlocks(f, order) && e > 0
    ensures e <= LoopEnd(f, order, body) <==> exists b :: b in body && e <= EndOf(f, order, b)
    decreases |body|
  {
    hide EndOf;
    if body != [] {
      var n := |body| - 1;
      assert body == body[..n] + [body[n]];
      LoopEndIff(f, order, body[..n], e);
    }
  }

  /** The end of block number `m` is no later than that of block `b`, if `b` comes no earlier. */
  lemma EndsInOrder(f: Func, order: seq<Block>, m: nat, b: Block)
    requires AllBlocks(f, order) && m < |order| && b in order
    ensures order[m] in order
    ensures BlockEnd(f.blocks[order[m]], Start(f, order, m)) <= EndOf(f, order, b) <==> m <= IndexOf(order, b)
  {
    hide BlockEnd;
    var k := IndexOf(order, b);
    assert order[m] in order && order[k] == b;
    BlocksTile(f, order, k);
    BlocksTile(f, order, m);
    if m < k {
      StartsGrow(f, order, m + 1, k);
    } else if k < m {
      StartsGrow(f, order, k + 1, m);
    }
  }

  /** The computed extent of header number `h` spans block number `m` just in case the record reaches that far. */
  lemma SpannedIff(f: Func, order: seq<Block>, data: map<Block, nat>, loops: seq<Loop>, m: nat, h: nat)
    requires AllBlocks(f, order) && OrderFits(f, order, SpansOf(f, order, data, loops)) && m < |order| && h < |order|
    requires forall l, b :: l in loops && b in l.body ==> b in order
    ensures Spanned(f, order, SpansOf(f, order, data, loops), m, h) <==> RecordedAround(order, data, loops, m, h)
  {
    hide BlockEnd, Start, LoopEnd, EndOf, LeadingPhis;
    var spans := SpansOf(f, order, data, loops);
    assert order[m] in order;
    var e := BlockEnd(f.blocks[order[m]], Start(f, order, m));
    EndIsPositive(f.blocks[order[m]], Start(f, order, m));
    if h <= m && HeadsReducible(data, loops, order[h]) {
      var loop := loops[data[order[h]]];
      assert loop in loops;
      LoopEndIff(f, order, loop.body, e);
      forall b | b in loop.body ensures b in order && (e <= EndOf(f, order, b) <==> m <= IndexOf(order, b)) {
        EndsInOrder(f, order, m, b);
      }
      assert e <= LoopEnd(f, order, loop.body) <==> ReachesTo(order, loop.body, m);
    }
  }

  lemma EndIsPositive(instrs: seq<Instr>, start: nat)
    ensures BlockEnd(instrs, start) > 0
  {
  }

  /** The condition of covering, told by the order and the loop records alone: whatever is in a loop, as the order
      shows it, lies between the header and the last recorded block. */
  lemma ComputedSpansIff(f: Func, order: seq<Block>, data: map<Block, nat>, loops: seq<Loop>)
    requires AllBlocks(f, order) && OrderFits(f, order, SpansOf(f, order, data, loops)) && Distinct(order)
    requires forall i, s: Block :: 0 <= i < |order| && Edge(f.graph, order[i], s) ==> s in order
    requires forall l, b :: l in loops && b in l.body ==> b in order
    ensures LoopsSpanned(f, order, SpansOf(f, order, data, loops)) <==>
      forall m: nat, h: nat :: m < |order| && InLoop(f, order, order[m], h) ==> RecordedAround(order, data, loops, m, h)
  {
    hide Spanned, RecordedAround, SpansOf, OrderFits;
    forall m: nat, h: nat | m < |order| && InLoop(f, order, order[m], h)
      ensures Spanned(f, order, SpansOf(f, order, data, loops), m, h) <==> RecordedAround(order, data, loops, m, h)
    {
      SpannedIff(f, order, data, loops, m, h);
    }
  }

  // ---- graphs with one loop ----

  lemma BodyIsReached(g: Graph, data: map<Block, nat>, loops: seq<Loop>, u: Block, h: Block, order: seq<Block>)
    requires g.Valid() && IsLoopTree(g, data, loops) && IsOrderOf(g, data, loops, order)
    requires SingleLoop(g, u, h) && LoopRecorded(g, data, loops, u, h, true)
    ensures data[h] < |loops| && LoopInOrder(g, u, h, loops[data[h]].body, order)
  {
    hide Graph.Valid, Dfs.Preorder, Dfs.ReversePostorder, OnlyBackEdge, OnEveryPath, BodyOf, HasShape, Reaches,
      HasCycle, IsOrderOf;
    Dfs.ReachedExactlyOnce(g);
    LatchFacts(g, u, h);
    OrderShape(g, data, loops, order, u, h);
    var body := loops[data[h]].body;
    forall x | x in body ensures Reaches(g, g.head, x) {
      assert x in Dfs.Preorder(g);
    }
  }

  /** Whatever the order shows to be in the loop is in the body, or is the header. */
  lemma AroundOneLoop(f: Func, order: seq<Block>, data: map<Block, nat>, loops: seq<Loop>, u: Block, h: Block, m: nat,
                      k: nat)
    requires f.graph.Valid() && LoopRecorded(f.graph, data, loops, u, h, true)
    requires LoopInOrder(f.graph, u, h, loops[data[h]].body, order) && Distinct(order)
    requires IsBackwards(f.graph, h, loops[data[h]].body)
    requires m < |order| && InLoop(f, order, order[m], k)
    ensures RecordedAround(order, data, loops, m, k)
  {
    hide Graph.Valid, Dfs.ReversePostorder, IsBackwards, HasShape, Reaches, Leads, LoopInOrder, BodyOf, LeadsTo;
    var g, body := f.graph, loops[data[h]].body;
    var i: nat :| IsLatch(f, order, i, k) && (order[m] == order[k] || LeadsTo(f, order[m], order[i], order[k]));
    OnlyLatchBack(g, u, h, body, order, i, k);
    BodyIs(g, u, h, body, order);
    if order[m] == h {
      IndexOfAt(order, i);
      assert u in body && u in order && m <= IndexOf(order, u);
    } else {
      LeadsIntoBody(f, u, h, order[m]);
      BodyAfterHeader(g, u, h, body, order, m);
      IndexOfAt(order, m);
      assert order[m] in body && order[m] in order && m <= IndexOf(order, order[m]);
    }
  }

  lemma BodyIs(g: Graph, u: Block, h: Block, body: seq<Block>, order: seq<Block>)
    requires g.Valid() && LoopInOrder(g, u, h, body, order)
    ensures u in body && forall x :: InBody(g, u, h, x) ==> x in body
  {
    hide BodyGrown, Leads;
  }

  lemma LeadsIntoBody(f: Func, u: Block, h: Block, x: Block)
    requires LeadsTo(f, x, u, h)
    ensures InBody(f.graph, u, h, x)
  {
    var p :| PathFrom(f.graph, x, u, p) && h !in p;
    assert u in p && u in {u} - {h} && Avoids(p, {h});
  }

  /** If the loop was found to be irreducible, its latch has no extent around it. */
  lemma LatchNotAround(f: Func, order: seq<Block>, data: map<Block, nat>, loops: seq<Loop>, u: Block, h: Block)
    returns (m: nat, k: nat)
    requires f.graph.Valid() && IsOrderOf(f.graph, data, loops, order) && SingleLoop(f.graph, u, h)
    requires LoopRecorded(f.graph, data, loops, u, h, false)
    ensures m < |order| && InLoop(f, order, order[m], k) && !RecordedAround(order, data, loops, m, k)
  {
    hide Graph.Valid, Dfs.ReversePostorder, OnlyBackEdge, OnEveryPath, Reaches, HasLoop, InLoop;
    var g := f.graph;
    LatchFacts(g, u, h);
    HeaderNotAfterLatch(g, u, h);
    PlainOrder(g, data, loops, order);
    m, k := IndexOf(order, u), IndexOf(order, h);
    LatchInLoop(f, order, m, k);
  }

  /** An inner edge that the body lists the wrong way round leads backward in the order, and no extent is around it. */
  lemma WrongWayNotAround(f: Func, order: seq<Block>, data: map<Block, nat>, loops: seq<Loop>, u: Block, h: Block)
    returns (m: nat, k: nat)
    requires f.graph.Valid() && LoopRecorded(f.graph, data, loops, u, h, true) && Distinct(order)
    requires LoopInOrder(f.graph, u, h, loops[data[h]].body, order) && !IsBackwards(f.graph, h, loops[data[h]].body)
    ensures m < |order| && InLoop(f, order, order[m], k) && !RecordedAround(order, data, loops, m, k)
  {
    hide Graph.Valid, Dfs.ReversePostorder, SingleLoop, HasShape, Reaches, BodyOf, InLoop;
    var body := loops[data[h]].body;
    var x: Block, y: Block :|
      x in body && y in body && y != h && Edge(f.graph, x, y) && IndexOf(body, x) <= IndexOf(body, y);
    m, k := WrongWay(f.graph, u, h, body, order, x, y);
    LatchInLoop(f, order, m, k);
  }

  /** A graph with one loop: the computed extents span the loops of the computed order if and only if the loop was
      found to be reducible and its body lists every block after the ones it leads to. */
  lemma SingleLoopSpanned(f: Func, order: seq<Block>, data: map<Block, nat>, loops: seq<Loop>, u: Block, h: Block,
                          reducible: bool)
    requires AllBlocks(f, order) && OrderFits(f, order, SpansOf(f, order, data, loops)) && f.graph.Valid()
    requires IsLoopTree(f.graph, data, loops) && IsLinearOrder(f.graph, order) && IsOrderOf(f.graph, data, loops, order)
    requires SingleLoop(f.graph, u, h) && LoopRecorded(f.graph, data, loops, u, h, reducible)
    requires forall l, b :: l in loops && b in l.body ==> b in order
    ensures h in data && data[h] < |loops|
    ensures LoopsSpanned(f, order, SpansOf(f, order, data, loops)) <==>
      reducible && IsBackwards(f.graph, h, loops[data[h]].body)
  {
    hide Graph.Valid, SingleLoop, IsLoopTree, IsOrderOf, OrderFits, SpansOf, LoopsSpanned, InLoop, BodyOf,
      IsBackwards, RecordedAround, Reaches, LoopInOrder;
    OrderIsClosed(f, order);
    ComputedSpansIff(f, order, data, loops);
    if reducible {
      BodyIsReached(f.graph, data, loops, u, h, order);
      if IsBackwards(f.graph, h, loops[data[h]].body) {
        forall m: nat, k: nat | m < |order| && InLoop(f, order, order[m], k)
          ensures RecordedAround(order, data, loops, m, k)
        {
          AroundOneLoop(f, order, data, loops, u, h, m, k);
        }
      } else {
        var m, k := WrongWayNotAround(f, order, data, loops, u, h);
      }
    } else {
      var m, k := LatchNotAround(f, order, data, loops, u, h);
    }
  }

  /** So a reducible loop without branches past its header is spanned, and one whose body forks is not. */
  lemma StraightOrForked(f: Func, order: seq<Block>, data: map<Block, nat>, loops: seq<Loop>, u: Block, h: Block,
                         reducible: bool)
    requires AllBlocks(f, order) && OrderFits(f, order, SpansOf(f, order, data, loops)) && f.graph.Valid()
    requires IsLoopTree(f.graph, data, loops) && IsLinearOrder(f.graph, order) && IsOrderOf(f.graph, data, loops, order)
    requires SingleLoop(f.graph, u, h) && LoopRecorded(f.graph, data, loops, u, h, reducible)
    requires forall l, b :: l in loops && b in l.body ==> b in order
    ensures IsStraight(f.graph, u, h) ==> (LoopsSpanned(f, order, SpansOf(f, order, data, loops)) <==> reducible)
    ensures Forks(f.graph, u, h) ==> !LoopsSpanned(f, order, SpansOf(f, order, data, loops))
  {
    hide Graph.Valid, SingleLoop, IsLoopTree, IsOrderOf, OrderFits, SpansOf, LoopsSpanned, BodyOf, IsBackwards,
      Reaches, Forks, IsStraight, HasShape;
    SingleLoopSpanned(f, order, data, loops, u, h, reducible);
    if reducible {
      BodyIsReached(f.graph, data, loops, u, h, order);
      if IsStraight(f.graph, u, h) {
        StraightIsBackwards(f.graph, u, h, loops[data[h]].body);
      }
      if Forks(f.graph, u, h) {
        ForkIsNotBackwards(f.graph, u, h, loops[data[h]].body);
      }
    }
  }

  lemma OrderIsClosed(f: Func, order: seq<Block>)
    requires f.graph.Valid() && IsLinearOrder(f.graph, order)
    ensures forall i, s: Block :: 0 <= i < |order| && Edge(f.graph, order[i], s) ==> s in order
  {
    hide Graph.Valid, Reaches;
    forall i, s: Block | 0 <= i < |order| && Edge(f.graph, order[i], s) ensures s in order {
      assert order[i] in order;
      ReachesStep(f.graph, f.graph.head, order[i], s);
    }
  }

  // ---- when the loop is found to be reducible ----

  /** The dominator tree that the builder computes puts `a` above `b`. */
  ghost predicate TreeSays(g: Graph, a: Block, b: Block)
    requires g.Valid()
  {
    exists sdom, parent :: SaysSo(g, sdom, parent, a, b)
  }

  ghost predicate SaysSo(g: Graph, sdom: seq<nat>, parent: seq<nat>, a: Block, b: Block)
    requires g.Valid()
  {
    && DomTree.IsParents(Dfs.Preorder(g), parent) && DomTree.IsComputed(g, Dfs.Preorder(g), sdom, parent)
    && DomTree.Dominates(Dfs.Preorder(g), parent, a, b)
  }

  lemma {:induction false} AboveSame(order: seq<Block>, p: seq<nat>, q: seq<nat>, a: Block, i: nat)
    requires DomTree.IsParents(order, p) && DomTree.IsParents(order, q) && i < |order|
    requires forall w :: 0 < w < |p| ==> p[w] == q[w]
    ensures DomTree.Above(order, p, a, i) <==> DomTree.Above(order, q, a, i)
  {
    if i > 0 {
      AboveSame(order, p, q, a, p[i]);
    }
  }

  /** There is one computed tree only. */
  lemma TreeSaysIff(g: Graph, sdom: seq<nat>, parent: seq<nat>, a: Block, b: Block)
    requires g.Valid() && DomTree.IsParents(Dfs.Preorder(g), parent)
    requires DomTree.IsComputed(g, Dfs.Preorder(g), sdom, parent)
    ensures TreeSays(g, a, b) <==> DomTree.Dominates(Dfs.Preorder(g), parent, a, b)
  {
    hide Graph.Valid, Dfs.Preorder, DomTree.IsComputed, DomTree.Above;
    if DomTree.Dominates(Dfs.Preorder(g), parent, a, b) {
      assert SaysSo(g, sdom, parent, a, b);
    }
    if TreeSays(g, a, b) {
      var t, q :| SaysSo(g, t, q, a, b);
      ComputedUnique(g, sdom, parent, t, q);
      if a != b {
        AboveSame(Dfs.Preorder(g), parent, q, a, IndexOf(Dfs.Preorder(g), b));
      }
    }
  }

  /** On the computed tree: a loop without branches past its header is spanned if and only if the tree puts the header
      above the latch, as it does when each block has an edge to the one discovered next; one whose body forks
      never is. */
  lemma OneLoopSettles(f: Func, order: seq<Block>, data: map<Block, nat>, loops: seq<Loop>, sdom: seq<nat>,
                       parent: seq<nat>,
                       u: Block, h: Block)
    requires AllBlocks(f, order) && OrderFits(f, order, SpansOf(f, order, data, loops)) && f.graph.Valid()
    requires IsLoopTree(f.graph, data, loops) && IsLinearOrder(f.graph, order) && IsOrderOf(f.graph, data, loops, order)
    requires TreeRecorded(f.graph, sdom, parent, data, loops) && SingleLoop(f.graph, u, h)
    requires forall l, b :: l in loops && b in l.body ==> b in order
    ensures IsStraight(f.graph, u, h) ==>
      (LoopsSpanned(f, order, SpansOf(f, order, data, loops)) <==> TreeSays(f.graph, h, u))
    ensures Forks(f.graph, u, h) ==> !LoopsSpanned(f, order, SpansOf(f, order, data, loops))
    ensures Consecutive(f.graph, Dfs.Preorder(f.graph)) ==> TreeSays(f.graph, h, u)
  {
    hide Graph.Valid, Dfs.Preorder, DomTree.IsComputed, DomTree.IsParents, DomTree.Dominates, LoopRecorded,
      IsLoopTree, Forks, IsLinearOrder, IsOrderOf, OrderFits, LoopsSpanned, SpansOf, OnEveryPath, OnlyBackEdge,
      IsStraight, TreeSays, Reaches;
    var g := f.graph;
    TreeSaysIff(g, sdom, parent, h, u);
    StraightOrForked(f, order, data, loops, u, h, DomTree.Dominates(Dfs.Preorder(g), parent, h, u));
    if Consecutive(g, Dfs.Preorder(g)) {
      LatchFacts(g, u, h);
      Dfs.ReachedExactlyOnce(g);
      DominanceImpliesTree(g, sdom, parent, h, u);
    }
  }

  // ---- the extents of the function whose PHI input is missed ----

  /** For the loop of blocks 1 and 2 the builder records the whole loop. */
  lemma CounterExtents(data: map<Block, nat>, loops: seq<Loop>)
    requires LoopRecorded(COUNTER.graph, data, loops, 2, 1, true)
    ensures AllBlocks(COUNTER, [0, 1, 2])
    ensures var spans := SpansOf(COUNTER, [0, 1, 2], data, loops);
      OrderFits(COUNTER, [0, 1, 2], spans) && LoopsSpanned(COUNTER, [0, 1, 2], spans)
  {
    hide COUNTER, LoopsSpanned, OrderFits, LoopEnd, Start, BlockEnd, BodyOf;
    var order: seq<Block> := [0, 1, 2];
    CounterIds();
    var spans, body := SpansOf(COUNTER, order, data, loops), loops[data[1]].body;
    CounterBody(body);
    CounterEnd(body);
    CounterEnds();
    assert spans == [None, Some(Interval(6, 18)), None];
    CounterSpanned(spans);
    CounterFits(spans);
  }

  lemma CounterBody(body: seq<Block>)
    requires BodyOf(COUNTER.graph, 2, 1, body)
    ensures body != [] && forall x :: x in body ==> x == 2
  {
    hide COUNTER, BodyGrown;
    assert 2 in body;
    forall x | x in body ensures x == 2 {
      if x != 2 {
        var s, p :| s in {2} - {1} && PathFrom(COUNTER.graph, x, s, p) && Avoids(p, {1});
        CounterPath(p);
      }
    }
  }

  lemma LastEdge(g: Graph, p: seq<Block>)
    requires IsPath(g, p) && |p| > 1
    ensures p[|p| - 2] in p && Edge(g, p[|p| - 2], p[|p| - 1])
  {
    assert Edge(g, p[|p| - 2], p[|p| - 2 + 1]);
  }

  lemma CounterPath(p: seq<Block>)
    requires IsPath(COUNTER.graph, p) && p[|p| - 1] == 2 && Avoids(p, {1})
    ensures p[0] == 2
  {
    hide COUNTER;
    CounterEdges();
    if |p| > 1 {
      LastEdge(COUNTER.graph, p);
    }
  }

  lemma {:induction false} CounterEnd(body: seq<Block>)
    requires body != [] && forall x :: x in body ==> x == 2
    ensures AllBlocks(COUNTER, [0, 1, 2]) && LoopEnd(COUNTER, [0, 1, 2], body) == 18
    decreases |body|
  {
    hide COUNTER, Start, BlockEnd;
    var order: seq<Block> := [0, 1, 2];
    CounterIds();
    CounterEnds();
    var n := |body| - 1;
    assert body[n] in body && order[2] == 2;
    assert EndOf(COUNTER, order, 2) == 18;
    if n > 0 {
      assert forall x :: x in body[..n] ==> x in body;
      CounterEnd(body[..n]);
    }
  }

  lemma CounterReaches(v: Block)
    requires v < 3
    ensures Reaches(COUNTER.graph, COUNTER.graph.head, v)
  {
    CounterEdges();
    ReachesSelf(COUNTER.graph, 0);
    ReachesStep(COUNTER.graph, 0, 0, 1);
    ReachesStep(COUNTER.graph, 0, 1, 2);
  }

  /** The search can only go through it in one way. */
  lemma CounterPreorder()
    ensures COUNTER.graph.Valid() && Dfs.Preorder(COUNTER.graph) == [0, 1, 2]
  {
    hide COUNTER, Dfs.Preorder;
    CounterIds();
    CounterEdges();
    var g, pre := COUNTER.graph, Dfs.Preorder(COUNTER.graph);
    Dfs.ReachedExactlyOnce(g);
    CounterReaches(1);
    CounterReaches(2);
    CounterHead();
    TwoOfThree(pre);
    var i, j := IndexOf(pre, 1), IndexOf(pre, 2);
    assert Dfs.HasEarlierPred(g, pre, i) && Dfs.HasEarlierPred(g, pre, j);
    var a :| 0 <= a < j && Edge(g, pre[a], pre[j]);
    assert pre[a] == 1 && a == i;
  }

  lemma CounterHead()
    ensures COUNTER.graph.head == 0 && |COUNTER.graph.succs| == 3
  {
  }

  lemma TwoOfThree(s: seq<Block>)
    requires Distinct(s) && (forall x :: x in s ==> x < 3) && 0 in s && 1 in s && 2 in s
    ensures |s| == 3
  {
    ElemsSize(s);
    assert Elems(s) == {0, 1, 2};
  }

  /** The loop of the function is a straight one, and the only one. */
  lemma CounterIsStraight()
    ensures COUNTER.graph.Valid() && SingleLoop(COUNTER.graph, 2, 1) && IsStraight(COUNTER.graph, 2, 1)
    ensures Consecutive(COUNTER.graph, Dfs.Preorder(COUNTER.graph))
  {
    hide COUNTER, Dfs.Preorder, Dfs.Trace, Dfs.Postorder;
    CounterPreorder();
    CounterEdges();
    var g := COUNTER.graph;
    var pre := Dfs.Preorder(g);
    CounterReaches(1);
    var p: seq<Block> := [1, 2, 1];
    assert IsCycle(g, p) by {
      assert Edge(g, p[0], p[0 + 1]) && Edge(g, p[1], p[1 + 1]);
    }
    Dfs.CycleIffBackEdge(g);
    var u, v :| Dfs.BackEdge(u, v) in Dfs.Trace(g);
    forall x, y | Dfs.BackEdge(x, y) in Dfs.Trace(g) ensures x == 2 && y == 1 {
      Dfs.BackEdgeIff(g, x, y);
      assert IndexOf(pre, 0) == 0 && IndexOf(pre, 1) == 1 && IndexOf(pre, 2) == 2;
    }
    CounterHead();
    forall q | PathFrom(g, 0, 2, q) ensures 1 in q {
      LastEdge(g, q);
    }
  }
}
