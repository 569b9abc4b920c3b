/** A loop with a branch whose values the intervals do not cover, without any PHI. */
module LiveLimits {
  import opened SetFacts
  import opened Intervals
  import opened Cfg
  import opened Liveness
  import opened LiveLoops
  import opened LiveAhead
  import opened LiveExact
  import opened LoopSearch
  import opened OneLoop

  /** Block 1 heads a loop, block 2 branches inside it, block 5 is the latch. Block 2 defines value 0, then value 1,
      then reads value 1; block 4, one arm of the branch, reads value 0. */
  const BRANCH := Func(
    Graph(0, [[1], [2, 6], [3, 4], [5], [5], [1], []], [[], [0, 5], [1], [2], [2], [3, 4], [1]]),
    [
      [Instr(10, Terminator, [], [])],
      [Instr(11, Terminator, [], [])],
      [Instr(0, Other, [], []), Instr(1, Other, [], []), Instr(2, Other, [1], []), Instr(12, Terminator, [], [])],
      [Instr(13, Terminator, [], [])],
      [Instr(3, Other, [0], []), Instr(14, Terminator, [], [])],
      [Instr(15, Terminator, [], [])],
      [Instr(16, Terminator, [], [])]
    ])

  /** The arm that the search for the loop body meets last comes before the branch. */
  const ORDER: seq<Block> := [0, 1, 4, 2, 3, 5, 6]

  lemma BranchShape()
    ensures |BRANCH.blocks| == |BRANCH.graph.succs| == 7 && BRANCH.graph.Valid() && |ORDER| == 7 && Distinct(ORDER)
    ensures ORDER[2] == 4 && ORDER[3] == 2 && forall b :: b in ORDER ==> b < 7
    ensures forall b: Block, i: nat :: IsInstr(BRANCH, b, i) ==> !BRANCH.blocks[b][i].kind.Phi?
    ensures |BRANCH.blocks[2]| == 4 && |BRANCH.blocks[4]| == 2
  {
  }

  lemma BranchEdges()
    ensures forall u: Block :: Edge(BRANCH.graph, u, 4) ==> u == 2
  {
  }

  /** Who defines and reads values 0 and 1. */
  lemma BranchReads()
    ensures forall b: Block, i: nat :: IsInstr(BRANCH, b, i) ==>
      && (BRANCH.blocks[b][i].id == 0 <==> b == 2 && i == 0) && (BRANCH.blocks[b][i].id == 1 <==> b == 2 && i == 1)
      && (0 in BRANCH.blocks[b][i].inputs <==> b == 4 && i == 0)
      && (1 in BRANCH.blocks[b][i].inputs <==> b == 2 && i == 2)
      && (BRANCH.blocks[b][i].kind.Terminator? ==> BRANCH.blocks[b][i].id >= 10)
  {
  }

  lemma BranchFits(spans: Spans)
    requires |spans| == 7
    ensures OrderFits(BRANCH, ORDER, spans)
  {
    hide BRANCH, ORDER;
    BranchShape();
    forall b: Block | b < 7 ensures LeadingPhis(BRANCH.blocks[b]) {
      assert forall j: nat :: j < |BRANCH.blocks[b]| ==> IsInstr(BRANCH, b, j);
    }
  }

  lemma NoPhiReads(b: Block, s: Block, v: Value)
    ensures !PhiReads(BRANCH, b, s, v)
  {
    hide BRANCH, ORDER;
    BranchShape();
    assert forall i: nat :: IsInstr(BRANCH, s, i) ==> !BRANCH.blocks[s][i].kind.Phi?;
  }

  /** Both values are live just before value 1 is read. */
  lemma BothLive()
    ensures LiveBefore(BRANCH, 2, 2, 0) && LiveBefore(BRANCH, 2, 2, 1)
  {
    var f := BRANCH;
    assert Edge(f.graph, 2, 4);
    assert ReadAlong(f, [4], 0, 0);
    assert [2, 4][1..] == [4];
    assert ReadAlong(f, [2, 4], 4, 0);
    assert ReadAlong(f, [2, 4], 3, 0);
    assert ReadAlong(f, [2, 4], 2, 0);
    assert ReadAlong(f, [2], 2, 1);
  }

  /** Looking ahead, value 0 is read nowhere but in block 4, which comes before the branch. */
  lemma {:induction false} FirstAhead(path: seq<nat>, i: nat)
    requires path != [] && path[0] < |ORDER| && ORDER[path[0]] < |BRANCH.blocks| && i <= |BRANCH.blocks[ORDER[path[0]]]|
    requires ReadAhead(BRANCH, ORDER, path, i, 0)
    ensures path[0] == 2
    decreases |path|, |BRANCH.blocks[ORDER[path[0]]]| - i
  {
    hide BRANCH, ORDER;
    BranchShape();
    var b := ORDER[path[0]];
    if i < |BRANCH.blocks[b]| {
      BranchReads();
      assert IsInstr(BRANCH, b, i);
      if 0 !in BRANCH.blocks[b][i].inputs {
        FirstAhead(path, i + 1);
      }
    } else {
      NoPhiReads(b, ORDER[path[1]], 0);
      FirstAhead(path[1..], 0);
      BranchEdges();
    }
  }

  /** Value 1 is read in its own block only. */
  lemma {:induction false} SecondAhead(path: seq<nat>, i: nat)
    requires path != [] && path[0] < |ORDER| && ORDER[path[0]] < |BRANCH.blocks| && i <= |BRANCH.blocks[ORDER[path[0]]]|
    requires ReadAhead(BRANCH, ORDER, path, i, 1)
    ensures path[0] == 3 && i >= 2
    decreases |path|, |BRANCH.blocks[ORDER[path[0]]]| - i
  {
    hide BRANCH, ORDER;
    BranchShape();
    var b := ORDER[path[0]];
    if i < |BRANCH.blocks[b]| {
      BranchReads();
      assert IsInstr(BRANCH, b, i);
      if 1 !in BRANCH.blocks[b][i].inputs {
        SecondAhead(path, i + 1);
      }
    } else {
      NoPhiReads(b, ORDER[path[1]], 1);
      SecondAhead(path[1..], 0);
    }
  }

  lemma BranchNumbers()
    ensures Start(BRANCH, ORDER, 3) == 14 && Start(BRANCH, ORDER, 2) == 8
    ensures Number(BRANCH.blocks[2], 14, 0) == 16 && Number(BRANCH.blocks[2], 14, 1) == 18
    ensures NumberAt(BRANCH.blocks[2], 14, 2) == 20 && BlockEnd(BRANCH.blocks[4], 8) == 14
  {
    var f := BRANCH;
    assert NonPhis(f.blocks[0], 1) == 1 && NonPhis(f.blocks[1], 1) == 1;
    assert NonPhis(f.blocks[4], 1) == 1 && NonPhis(f.blocks[4], 2) == 2;
    assert NonPhis(f.blocks[2], 1) == 1 && NonPhis(f.blocks[2], 2) == 2 && NonPhis(f.blocks[2], 3) == 3;
    assert Start(f, ORDER, 0) == 0 && Start(f, ORDER, 1) == 4;
  }

  /** The interval of value 0 ends at 18: nothing reaches further. */
  lemma FirstEnds(spans: Spans)
    requires |spans| == 7 && spans[2].None? && OrderFits(BRANCH, ORDER, spans)
    ensures Distinct(ORDER) && !EndsAfter(BRANCH, ORDER, spans, 0, 19)
  {
    hide BRANCH, ORDER, ReadAhead, SeenLive, SetOf, Start, Number, NumberAt;
    BranchShape();
    forall j: nat, t: nat | SeenFrom(BRANCH, ORDER, spans, j, t, 0, 19) ensures false {
      SeenIffAhead(BRANCH, ORDER, spans, j, t, 0);
      var path :| path != [] && path[0] == j && ReadAhead(BRANCH, ORDER, path, t, 0);
      FirstAhead(path, t);
      FirstIsLow(t);
    }
    forall j: nat, t: nat, d: nat | DefinedAt(BRANCH, ORDER, j, t, 0, d) ensures d == 16 {
      WhereDefined(j, t, 0, d);
    }
    forall h: nat | AroundTo(BRANCH, ORDER, spans, h, 0, 19) ensures false {
      SeenAtStart(BRANCH, ORDER, spans, h, 0);
      SeenIffAhead(BRANCH, ORDER, spans, h, 0, 0);
      var path :| path != [] && path[0] == h && ReadAhead(BRANCH, ORDER, path, 0, 0);
      FirstAhead(path, 0);
    }
  }

  lemma FirstIsLow(t: nat)
    requires IsPosition(BRANCH, ORDER, 2, t) && forall b :: b in ORDER ==> b < |BRANCH.blocks|
    ensures NumberAt(BRANCH.blocks[ORDER[2]], Start(BRANCH, ORDER, 2), t) <= 14
  {
    hide BRANCH, ORDER, Start, BlockEnd;
    BranchShape();
    BranchNumbers();
    if t < |BRANCH.blocks[4]| {
      NumbersIncrease(BRANCH.blocks[4], 8, t, t);
    }
  }

  lemma WhereDefined(j: nat, t: nat, v: Value, d: nat)
    requires v < 2 && (forall b :: b in ORDER ==> b < |BRANCH.blocks|) && DefinedAt(BRANCH, ORDER, j, t, v, d)
    ensures j == 3 && t == v && d == 16 + 2 * v
  {
    hide BRANCH, ORDER, Start, Number;
    BranchShape();
    BranchReads();
    BranchNumbers();
    assert IsInstr(BRANCH, ORDER[j], t);
  }

  /** The interval of value 1 begins at 18: nothing makes it begin sooner. */
  lemma SecondBegins(spans: Spans)
    requires |spans| == 7 && OrderFits(BRANCH, ORDER, spans)
    ensures !BeginsBefore(BRANCH, ORDER, spans, 1, 18)
  {
    hide BRANCH, ORDER, ReadAhead, SeenLive, Start, Number;
    BranchShape();
    forall j: nat, t: nat | LiveFrom(BRANCH, ORDER, spans, j, t, 1, 18) ensures false {
      SeenIffAhead(BRANCH, ORDER, spans, j, t, 1);
      var path :| path != [] && path[0] == j && ReadAhead(BRANCH, ORDER, path, t, 1);
      PastNoPhis(j, t);
      SecondAhead(path, t);
    }
    forall j: nat, t: nat, d: nat | DefinedAt(BRANCH, ORDER, j, t, 1, d) ensures d == 18 {
      WhereDefined(j, t, 1, d);
    }
  }

  lemma PastNoPhis(j: nat, t: nat)
    requires IsPosition(BRANCH, ORDER, j, t) && (t == 0 || BRANCH.blocks[ORDER[j]][t - 1].kind.Phi?)
    ensures t == 0
  {
    hide BRANCH, ORDER;
    BranchShape();
    assert forall i: nat :: i < |BRANCH.blocks[ORDER[j]]| ==> IsInstr(BRANCH, ORDER[j], i);
  }

  lemma DefinedThere(v: Value)
    requires v < 2 && forall b :: b in ORDER ==> b < |BRANCH.blocks|
    ensures DefinedAt(BRANCH, ORDER, 3, v, v, 16 + 2 * v)
  {
    hide BRANCH, ORDER, Start, Number;
    BranchShape();
    BranchReads();
    BranchNumbers();
    assert IsInstr(BRANCH, 2, v);
  }

  lemma NoTerminators()
    ensures !TerminatorIn(BRANCH, ORDER, 0) && !TerminatorIn(BRANCH, ORDER, 1)
  {
    hide BRANCH, ORDER;
    BranchReads();
  }

  lemma BranchApart(spans: Spans)
    requires |spans| == 7 && spans[2].None? && OrderFits(BRANCH, ORDER, spans) && SpansStart(BRANCH, ORDER, spans)
    ensures var iv := FinalIntervals(BRANCH, ORDER, spans);
      0 in iv && 1 in iv && iv[0].end <= 18 <= iv[1].begin
  {
    hide BRANCH, ORDER, SweepOrder, TerminatorIn, EndsAfter, BeginsBefore, LiveBefore, DefinedAt, SpansStart;
    BranchShape();
    NoTerminators();
    FirstEnds(spans);
    SecondBegins(spans);
    IntervalExact(BRANCH, ORDER, spans, 0, 19);
    IntervalExact(BRANCH, ORDER, spans, 1, 18);
    DefinedThere(0);
    DefinedThere(1);
    DefinitionSpans(BRANCH, ORDER, spans, 3, 0, 0, 16);
    DefinitionSpans(BRANCH, ORDER, spans, 3, 1, 1, 18);
  }

  /** Whatever the extents of the other blocks are, no PHI is to blame: values 0 and 1 are both live just before
      number 20, yet the interval of value 0 ends where that of value 1 begins. */
  lemma BranchIsMissed(spans: Spans)
    requires |spans| == 7 && spans[2].None?
    ensures OrderFits(BRANCH, ORDER, spans) && forall v :: !PhiReadsBack(BRANCH, ORDER, v)
    ensures LiveBefore(BRANCH, 2, 2, 0) && LiveBefore(BRANCH, 2, 2, 1)
    ensures NumberAt(BRANCH.blocks[ORDER[3]], Start(BRANCH, ORDER, 3), 2) == 20
    ensures SpansStart(BRANCH, ORDER, spans) ==>
      var iv := FinalIntervals(BRANCH, ORDER, spans);
      0 in iv && 1 in iv && iv[0].end <= 18 <= iv[1].begin && !iv[0].Overlaps(iv[1])
  {
    hide BRANCH, ORDER, SweepOrder, TerminatorIn, EndsAfter, BeginsBefore, LiveBefore, SpansStart, PhiReads, OrderFits;
    BranchFits(spans);
    BranchShape();
    BranchNumbers();
    BothLive();
    if SpansStart(BRANCH, ORDER, spans) {
      BranchApart(spans);
    }
    forall v ensures !PhiReadsBack(BRANCH, ORDER, v) {
      forall b: Block, s: Block ensures !PhiReads(BRANCH, b, s, v) {
        NoPhiReads(b, s, v);
      }
    }
  }

  // ---- the shape of this loop ----

  lemma BranchLinks()
    ensures forall u: Block, v: Block :: Edge(BRANCH.graph, u, v) <==>
      (u == 0 && v == 1) || (u == 1 && v == 2) || (u == 1 && v == 6) || (u == 2 && v == 3) || (u == 2 && v == 4)
      || (u == 3 && v == 5) || (u == 4 && v == 5) || (u == 5 && v == 1)
  {
  }

  /** From one arm the way past the header ends at the latch. */
  lemma {:induction false} ArmEnds(p: seq<Block>, arm: Block)
    requires IsPath(BRANCH.graph, p) && Avoids(p, {1}) && arm in {3, 4} && p[0] in {arm, 5}
    ensures p[|p| - 1] in {arm, 5}
    decreases |p|
  {
    hide BRANCH;
    BranchLinks();
    if |p| > 1 {
      assert Edge(BRANCH.graph, p[0], p[0 + 1]) && p[1] in p;
      var q := p[1..];
      forall i | 0 <= i < |q| - 1 ensures Edge(BRANCH.graph, q[i], q[i + 1]) {
        assert Edge(BRANCH.graph, p[i + 1], p[i + 1 + 1]);
      }
      ArmEnds(q, arm);
    }
  }

  lemma BranchInBody()
    ensures InBody(BRANCH.graph, 5, 1, 2) && InBody(BRANCH.graph, 5, 1, 3) && InBody(BRANCH.graph, 5, 1, 4)
  {
    hide BRANCH, Leads;
    BranchLinks();
    LatchInBody(BRANCH.graph, 5, 1);
    StepIntoBody(BRANCH.graph, 5, 1, 3, 5);
    StepIntoBody(BRANCH.graph, 5, 1, 4, 5);
    StepIntoBody(BRANCH.graph, 5, 1, 2, 3);
  }

  /** The body forks at block 2, so the extents that the builder records cannot span it. */
  lemma BranchForks()
    ensures Forks(BRANCH.graph, 5, 1)
  {
    hide BRANCH, InBody;
    BranchLinks();
    BranchInBody();
    var g := BRANCH.graph;
    forall y: Block, z: Block | y != z && InnerEdge(g, 5, 1, 2, y) && InnerEdge(g, 5, 1, 2, z)
      ensures !Leads(g, y, {z}, {1})
    {
      if s, p :| s in {z} && PathFrom(g, y, s, p) && Avoids(p, {1}) {
        ArmEnds(p, y);
      }
    }
    assert InnerEdge(g, 5, 1, 2, 3) && InnerEdge(g, 5, 1, 2, 4) && ArmsApart(g, 5, 1, 2);
  }
}
