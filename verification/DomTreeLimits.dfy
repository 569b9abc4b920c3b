/** What the dominator tree is not: a block may stand above another that can be reached without it. */
module DomTreeLimits {
  import opened Cfg
  import opened Dfs
  import opened DomTree

  const LADDER := Graph(0, [[1, 3], [2, 4], [3], [4, 5], [5], []], [[], [0], [1], [0, 2], [1, 3], [3, 4]])

  lemma OneTurn(g: Graph, s: State)
    requires g.Valid() && s.stack != [] && FramesInRange(g, s.stack)
    ensures FramesInRange(g, Step(g, s).stack) && Run(g, s) == Run(g, Step(g, s))
  {
    hide Step, Graph.Valid, FramesInRange;
    StepProgress(g, s);
  }

  /** A turn of the search that finds the next successor white. */
  lemma Down(g: Graph, s: State, i: nat, v: Block, w: Block) returns (t: State)
    requires g.Valid() && s.stack != [] && FramesInRange(g, s.stack) && s.stack[|s.stack| - 1] == Frame(i, v)
    requires v < |g.succs| && i < |g.succs[v]| && g.succs[v][i] == w && w !in s.color
    ensures FramesInRange(g, t.stack) && Run(g, s) == Run(g, t)
    ensures t.color == s.color[w := Grey] && t.stack == s.stack[..|s.stack| - 1] + [Frame(i + 1, v), Frame(0, w)]
    ensures Discovered(t.trace) == Discovered(s.trace) + [w]
  {
    hide Run, Graph.Valid, Discovered;
    OneTurn(g, s);
    t := Step(g, s);
    assert FirstWhite(g.succs[v], s.color, i) == i && GreyEdges(v, g.succs[v], s.color, i, i) == [];
    assert t.trace == s.trace + [Discover(w)];
    AppendEvent(s.trace, Discover(w));
  }

  /** A turn of the search that finds the remaining successors finished. */
  lemma Up(g: Graph, s: State, i: nat, v: Block) returns (t: State)
    requires g.Valid() && s.stack != [] && FramesInRange(g, s.stack) && s.stack[|s.stack| - 1] == Frame(i, v)
    requires v < |g.succs| && i <= |g.succs[v]|
    requires forall k :: i <= k < |g.succs[v]| ==> g.succs[v][k] in s.color && s.color[g.succs[v][k]] == Black
    ensures FramesInRange(g, t.stack) && Run(g, s) == Run(g, t)
    ensures t.color == s.color[v := Black] && t.stack == s.stack[..|s.stack| - 1]
    ensures Discovered(t.trace) == Discovered(s.trace)
  {
    hide Run, Graph.Valid, Discovered;
    OneTurn(g, s);
    t := Step(g, s);
    var n := |g.succs[v]|;
    assert FirstWhite(g.succs[v], s.color, i) == n;
    NoEdges(v, g.succs[v], s.color, i, n);
    assert t.trace == s.trace + [Finish(v)];
    AppendEvent(s.trace, Finish(v));
  }

  lemma {:induction false} NoEdges(v: Block, succs: seq<Block>, color: map<Block, Color>, i: nat, n: nat)
    requires i <= n <= |succs| && forall k :: i <= k < n ==> succs[k] in color && color[succs[k]] == Black
    ensures GreyEdges(v, succs, color, i, n) == []
    decreases n - i
  {
    if i < n {
      NoEdges(v, succs, color, i + 1, n);
    }
  }

  lemma LadderValid()
    ensures LADDER.Valid() && |LADDER.succs| == 6
    ensures LADDER.succs[0] == [1, 3] && LADDER.succs[1] == [2, 4] && LADDER.succs[2] == [3]
    ensures LADDER.succs[3] == [4, 5] && LADDER.succs[4] == [5] && LADDER.succs[5] == []
    ensures LADDER.head == 0
  {
  }

  /** The way down visits all blocks in order of their numbers. */
  lemma LadderDown() returns (s: State)
    ensures LADDER.Valid() && FramesInRange(LADDER, Start(LADDER).stack) && FramesInRange(LADDER, s.stack)
    ensures Run(LADDER, Start(LADDER)) == Run(LADDER, s) && Discovered(s.trace) == [0, 1, 2, 3, 4, 5]
    ensures s.color == map[0 := Grey, 1 := Grey, 2 := Grey, 3 := Grey, 4 := Grey, 5 := Grey]
    ensures s.stack == [Frame(1, 0), Frame(1, 1), Frame(1, 2), Frame(1, 3), Frame(1, 4), Frame(0, 5)]
  {
    hide Run, FramesInRange, LADDER, Start;
    LadderValid();
    var g := LADDER;
    s := Begun(g);
    s := Down(g, s, 0, 0, 1);
    assert s.stack == [Frame(1, 0), Frame(0, 1)];
    s := Down(g, s, 0, 1, 2);
    assert s.stack == [Frame(1, 0), Frame(1, 1), Frame(0, 2)];
    s := Down(g, s, 0, 2, 3);
    assert s.stack == [Frame(1, 0), Frame(1, 1), Frame(1, 2), Frame(0, 3)];
    s := Down(g, s, 0, 3, 4);
    assert s.stack == [Frame(1, 0), Frame(1, 1), Frame(1, 2), Frame(1, 3), Frame(0, 4)];
    s := Down(g, s, 0, 4, 5);
  }

  lemma LadderPreorder()
    ensures LADDER.Valid() && Preorder(LADDER) == [0, 1, 2, 3, 4, 5]
  {
    hide Run, FramesInRange, LADDER, Start;
    LadderValid();
    var g := LADDER;
    var s := LadderDown();
    s := Up(g, s, 0, 5);
    assert s.stack == [Frame(1, 0), Frame(1, 1), Frame(1, 2), Frame(1, 3), Frame(1, 4)];
    s := Up(g, s, 1, 4);
    assert s.stack == [Frame(1, 0), Frame(1, 1), Frame(1, 2), Frame(1, 3)];
    s := Up(g, s, 1, 3);
    assert s.stack == [Frame(1, 0), Frame(1, 1), Frame(1, 2)];
    s := Up(g, s, 1, 2);
    assert s.stack == [Frame(1, 0), Frame(1, 1)];
    s := Up(g, s, 1, 1);
    assert s.stack == [Frame(1, 0)];
    s := Up(g, s, 1, 0);
    Ended(g, s);
  }

  lemma Begun(g: Graph) returns (s: State)
    requires g.Valid()
    ensures s == Start(g) && FramesInRange(g, s.stack) && s.color == map[g.head := Grey]
    ensures s.stack == [Frame(0, g.head)]
    ensures Discovered(s.trace) == [g.head]
  {
    s := Start(g);
    AppendEvent([], Discover(g.head));
    assert s.trace == [] + [Discover(g.head)];
  }

  lemma Ended(g: Graph, s: State)
    requires g.Valid() && s.stack == [] && FramesInRange(g, s.stack)
    ensures Run(g, s) == s
  {
  }

  /** The semidominators that matter, from the condition that determines them. */
  lemma LadderSemis(sdom: seq<nat>)
    requires |sdom| == 6 && SemisFrom(LADDER, [0, 1, 2, 3, 4, 5], sdom, 0)
    ensures sdom[3] == 0 && sdom[4] == 1 && sdom[5] == 3
  {
    hide LADDER, SemisFrom;
    LadderLinks();
    SemiFromTwo(sdom, 3, 0, 2);
    SemiFromTwo(sdom, 4, 1, 3);
    SemiFromTwo(sdom, 5, 3, 4);
  }

  /** A block with two predecessors of smaller numbers has the smaller one as its semidominator. */
  lemma SemiFromTwo(sdom: seq<nat>, i: nat, p: nat, q: nat)
    requires |sdom| == 6 && SemisFrom(LADDER, [0, 1, 2, 3, 4, 5], sdom, 0)
    requires p < q < i < 6 && forall u: Block :: Edge(LADDER, u, i) <==> u == p || u == q
    ensures sdom[i] == p
  {
    hide LADDER, SemisFrom, Edge;
    var order: seq<Block> := [0, 1, 2, 3, 4, 5];
    assert forall k: nat :: k < 6 ==> order[k] == k;
    SemiOf(sdom, i);
    assert Offers(sdom, i, p, p) && Edge(LADDER, order[p], order[i]);
    assert Offered(LADDER, order, sdom, i, p);
    assert Offered(LADDER, order, sdom, i, sdom[i]);
  }

  lemma SemiOf(sdom: seq<nat>, i: nat)
    requires i < |sdom| && SemisFrom(LADDER, [0, 1, 2, 3, 4, 5], sdom, 0)
    ensures IsSemi(LADDER, [0, 1, 2, 3, 4, 5], sdom, i)
  {
  }

  ghost predicate LadderEdge(u: Block, v: Block) {
    (u == 0 && v == 1) || (u == 0 && v == 3) || (u == 1 && v == 2) || (u == 1 && v == 4) || (u == 2 && v == 3)
    || (u == 3 && v == 4) || (u == 3 && v == 5) || (u == 4 && v == 5)
  }

  lemma LadderEdges(u: Block, v: Block)
    ensures Edge(LADDER, u, v) <==> LadderEdge(u, v)
  {
  }

  lemma LadderMirrored()
    ensures LinksMirrored(LADDER)
  {
    forall u: Block, v: Block | v < |LADDER.preds| ensures u in LADDER.preds[v] <==> Edge(LADDER, u, v) {
      LadderEdges(u, v);
      assert u in LADDER.preds[v] <==> LadderEdge(u, v);
    }
  }

  lemma LadderLinks()
    ensures LADDER.Valid() && PredsReached(LADDER)
    ensures PathFrom(LADDER, 0, 5, [0, 1, 4, 5])
    ensures forall u: Block, v: Block :: Edge(LADDER, u, v) <==> LadderEdge(u, v)
  {
    hide LADDER, Edge;
    LadderPreorder();
    ReachedExactlyOnce(LADDER);
    LadderValid();
    forall u: Block, v: Block ensures Edge(LADDER, u, v) <==> LadderEdge(u, v) {
      LadderEdges(u, v);
    }
    forall u, v | Edge(LADDER, u, v) && Reaches(LADDER, LADDER.head, v) ensures Reaches(LADDER, LADDER.head, u) {
      assert u in Preorder(LADDER);
    }
  }

  /** The tree built for this graph puts block 3 above block 5, although 0 -> 1 -> 4 -> 5 avoids block 3. */
  lemma TreeIsNotDominance(sdom: seq<nat>, parent: seq<nat>)
    requires LADDER.Valid() && IsParents(Preorder(LADDER), parent)
    requires IsComputed(LADDER, Preorder(LADDER), sdom, parent)
    ensures LinksMirrored(LADDER) && PredsReached(LADDER) && Dominates(Preorder(LADDER), parent, 3, 5)
    ensures PathFrom(LADDER, 0, 5, [0, 1, 4, 5]) && 3 !in [0, 1, 4, 5]
  {
    hide LADDER, SemisFrom, LinksMirrored, PredsReached;
    LadderPreorder();
    LadderLinks();
    LadderMirrored();
    LadderSemis(sdom);
    var order: seq<Block> := [0, 1, 2, 3, 4, 5];
    assert ParentAt(sdom, parent, 5);
    assert forall m: nat :: IsRangeMin(sdom, 3, 5, m) ==> m == 3;
    IndexOfAt(order, 5);
    assert order[5] == 5 && order[3] == 3 && parent[5] == 3;
    assert Above(order, parent, 3, 3) && Above(order, parent, 3, 5);
  }
}
