/** The analyses put together: search, loop tree, linear order, liveness, register allocation. */
module Pipeline {
  import opened SetFacts
  import opened Intervals
  import opened Cfg
  import opened Dfs
  import opened LoopRecords
  import opened LoopTree
  import opened Liveness
  import opened LiveLoops
  import LiveExact
  import opened LivenessBuild
  import LinearOrder
  import OneLoop
  import opened LoopExtents
  import Dominance
  import opened ScanRules
  import opened RegAlloc

  /** On an acyclic graph the reverse postorder, and hence the linear order, is topological. */
  lemma AcyclicOrderIsTopological(f: Func, order: seq<Block>)
    requires f.graph.Valid() && !HasCycle(f.graph) && order == ReversePostorder(f.graph)
    ensures Topological(f, order)
  {
    hide HasCycle, Graph.Valid, ReversePostorder;
    var g := f.graph;
    ReversePostorderIsTopological(g);
    CycleIffBackEdge(g);
    forall i, s: Block | 0 <= i < |order| && Edge(g, order[i], s) ensures ListedAfter(order, i, s) {
      assert order[i] in order;
      ReachesStep(g, g.head, order[i], s);
      assert s in order;
      var j :| 0 <= j < |order| && order[j] == s;
      assert BackEdge(order[i], order[j]) !in Trace(g);
    }
  }

  /** A value that the intervals cover: no terminator, and read by no PHI on an edge to an earlier block. */
  ghost predicate Tracked(f: Func, order: seq<Block>, v: Value) {
    !TerminatorIn(f, order, v) && !PhiReadsBack(f, order, v)
  }

  /** Two values compete when both are live at the same position. */
  ghost predicate LiveTogether(f: Func, order: seq<Block>, j: nat, t: nat, u: Value, v: Value) {
    && IsPosition(f, order, j, t) && LiveBefore(f, order[j], t, u) && LiveBefore(f, order[j], t, v)
    && Tracked(f, order, u) && Tracked(f, order, v)
  }

  /** A definition competes with what is live just after it, even if its own value is never read. */
  ghost predicate DefinedInto(f: Func, order: seq<Block>, j: nat, t: nat, u: Value, v: Value) {
    && IsPosition(f, order, j, t) && t < |f.blocks[order[j]]| && f.blocks[order[j]][t].id == u
    && LiveBefore(f, order[j], t + 1, v) && !TerminatorIn(f, order, u) && Tracked(f, order, v)
  }

  ghost predicate Compete(f: Func, order: seq<Block>, u: Value, v: Value) {
    u != v && exists j: nat, t: nat :: LiveTogether(f, order, j, t, u, v) || DefinedInto(f, order, j, t, u, v)
  }

  ghost predicate Separated(regMap: RegMap, u: Value, v: Value) {
    u in regMap && v in regMap && regMap[u] != regMap[v]
  }

  /** Values that overlap at a point, both scanned, end up in different places. */
  lemma OverlapSeparated(iv: IntervalMap, data: seq<Value>, regs: nat, r: Alloc, held: set<Value>, u: Value, v: Value)
    requires FinalGuarantee(iv, data, regs, r, held)
    requires u in data && v in data && u in iv && v in iv && u != v && iv[u].Overlaps(iv[v])
    ensures Separated(r.regMap, u, v)
  {
    hide RegistersPartitioned, OwnedRegisters, Below;
    assert u in r.regMap && v in r.regMap by {
      assert u in Elems(data) && v in Elems(data);
    }
  }

  /** Competing values overlap. */
  lemma CompetingOverlap(f: Func, order: seq<Block>, spans: Spans, u: Value, v: Value)
    requires OrderFits(f, order, spans) && LoopsSpanned(f, order, spans) && Compete(f, order, u, v)
    ensures var iv := FinalIntervals(f, order, spans);
      u in iv && v in iv && iv[u].begin != iv[u].end && iv[v].begin != iv[v].end && iv[u].Overlaps(iv[v])
    ensures u != v
  {
    hide LoopsSpanned, LiveBefore, TerminatorIn, PhiReadsBack, FinalIntervals, Liveness.Start, OrderFits;
    var j: nat, t: nat :| LiveTogether(f, order, j, t, u, v) || DefinedInto(f, order, j, t, u, v);
    if LiveTogether(f, order, j, t, u, v) {
      LiveValuesCovered(f, order, spans, j, t, u);
      LiveValuesCovered(f, order, spans, j, t, v);
    } else {
      DefinitionOverlaps(f, order, spans, j, t, u, v);
    }
  }

  lemma DefinitionOverlaps(f: Func, order: seq<Block>, spans: Spans, j: nat, t: nat, u: Value, v: Value)
    requires OrderFits(f, order, spans) && LoopsSpanned(f, order, spans) && DefinedInto(f, order, j, t, u, v) && u != v
    ensures var iv := FinalIntervals(f, order, spans);
      u in iv && v in iv && iv[u].begin != iv[u].end && iv[v].begin != iv[v].end && iv[u].Overlaps(iv[v])
  {
    hide LoopsSpanned, LiveBefore, TerminatorIn, PhiReadsBack, FinalIntervals, Liveness.Start;
    var instrs := f.blocks[order[j]];
    assert order[j] in order && LeadingPhis(instrs);
    LiveBeforeInstr(f, order[j], t, v);
    IntervalBounds(f, order, spans, j, t);
    LiveValuesCovered(f, order, spans, j, t, v);
    LiveValuesCovered(f, order, spans, j, t + 1, v);
    NextNumber(instrs, Liveness.Start(f, order, j), t);
  }

  lemma NextNumber(instrs: seq<Instr>, start: nat, t: nat)
    requires LeadingPhis(instrs) && t < |instrs| && !instrs[t].kind.Phi?
    ensures NumberAt(instrs, start, t) < NumberAt(instrs, start, t + 1)
  {
    NumbersIncrease(instrs, start, t, t);
    if t + 1 < |instrs| {
      NumbersIncrease(instrs, start, t, t + 1);
    }
  }

  /** End to end: if the recorded extents span the loops, as they do when there are none, competing values get
      different locations in every run that finishes, whether registers or stack slots. */
  lemma LiveValuesSeparated(f: Func, order: seq<Block>, spans: Spans, data: seq<Value>, regs: nat, u: Value, v: Value)
    requires OrderFits(f, order, spans) && LoopsSpanned(f, order, spans) && regs >= 1
    requires IsScanOrder(FinalIntervals(f, order, spans), data)
    requires SpillPolicy.Ordered(FinalIntervals(f, order, spans), data)
    requires Scan(FinalIntervals(f, order, spans), data, regs, 0, Fresh(regs)).Some?
    requires Compete(f, order, u, v)
    ensures Separated(Scan(FinalIntervals(f, order, spans), data, regs, 0, Fresh(regs)).value.regMap, u, v)
  {
    hide LoopsSpanned, LeadingPhis, Compete, FinalGuarantee, Scan, SpillPolicy.Ordered, FinalIntervals;
    var iv := FinalIntervals(f, order, spans);
    CompetingOverlap(f, order, spans, u, v);
    var held := ScanIsSafe(iv, data, regs);
    OverlapSeparated(iv, data, regs, Scan(iv, data, regs, 0, Fresh(regs)).value, held, u, v);
  }

  lemma LoopTreeFits(g: Graph, data: map<Block, nat>, loops: seq<Loop>, order: seq<Block>)
    requires g.Valid() && IsLoopTree(g, data, loops) && LinearOrder.IsLinearOrder(g, order)
    ensures Distinct(order)
    ensures forall b :: b in order ==> b < |g.succs| && b in data && data[b] < |loops|
    ensures forall l, b :: l in loops && b in l.body ==> b in order
  {
    ReachedExactlyOnce(g);
    forall l, b | l in loops && b in l.body ensures b in order {
      var i :| 0 <= i < |loops| && loops[i] == l;
      assert b in Preorder(g);
    }
  }

  /** What is known of the extents if the graph has one loop. */
  ghost predicate OneLoopSettled(f: Func, order: seq<Block>, spans: Spans)
    requires OrderFits(f, order, spans) && f.graph.Valid()
  {
    forall u, h :: OneLoop.SingleLoop(f.graph, u, h) ==>
      && (OneLoop.IsStraight(f.graph, u, h) ==> (LoopsSpanned(f, order, spans) <==> TreeSays(f.graph, h, u)))
      && (OneLoop.Forks(f.graph, u, h) ==> !LoopsSpanned(f, order, spans))
      && (Dominance.Consecutive(f.graph, Preorder(f.graph)) ==> TreeSays(f.graph, h, u))
  }

  lemma SettleOneLoop(f: Func, order: seq<Block>, data: map<Block, nat>, loops: seq<Loop>, sdom: seq<nat>,
                      parent: seq<nat>)
    requires AllBlocks(f, order) && OrderFits(f, order, SpansOf(f, order, data, loops)) && f.graph.Valid()
    requires IsLoopTree(f.graph, data, loops) && LinearOrder.IsLinearOrder(f.graph, order)
    requires LinearOrder.IsOrderOf(f.graph, data, loops, order) && TreeRecorded(f.graph, sdom, parent, data, loops)
    ensures OneLoopSettled(f, order, SpansOf(f, order, data, loops))
  {
    hide IsLoopTree, LinearOrder.IsLinearOrder, LinearOrder.IsOrderOf, TreeRecorded, OneLoop.SingleLoop,
      OneLoop.IsStraight, OneLoop.Forks, OrderFits, LoopsSpanned, TreeSays, Dominance.Consecutive, SpansOf,
      Graph.Valid;
    LoopTreeFits(f.graph, data, loops, order);
    forall u, h | OneLoop.SingleLoop(f.graph, u, h)
      ensures OneLoop.IsStraight(f.graph, u, h) ==>
        (LoopsSpanned(f, order, SpansOf(f, order, data, loops)) <==> TreeSays(f.graph, h, u))
      ensures OneLoop.Forks(f.graph, u, h) ==> !LoopsSpanned(f, order, SpansOf(f, order, data, loops))
      ensures Dominance.Consecutive(f.graph, Preorder(f.graph)) ==> TreeSays(f.graph, h, u)
    {
      OneLoopSettles(f, order, data, loops, sdom, parent, u, h);
    }
  }

  /** Which numbers the interval of a value covers, loops or not. */
  ghost predicate Explained(f: Func, order: seq<Block>, spans: Spans, iv: IntervalMap)
    requires OrderFits(f, order, spans) && Distinct(order)
  {
    forall v, n: nat :: !TerminatorIn(f, order, v) ==>
      (Covers(iv, v, n) <==>
       LiveExact.BeginsBefore(f, order, spans, v, n) && LiveExact.EndsAfter(f, order, spans, v, n))
  }

  /** Terminators have empty intervals, which begin where definitions and uses say. */
  ghost predicate TerminatorsEmpty(f: Func, order: seq<Block>, spans: Spans, iv: IntervalMap)
    requires OrderFits(f, order, spans) && Distinct(order)
  {
    forall v, n: nat :: TerminatorIn(f, order, v) ==> EmptyFrom(f, order, spans, iv, v, n)
  }

  ghost predicate EmptyFrom(f: Func, order: seq<Block>, spans: Spans, iv: IntervalMap, v: Value, n: nat)
    requires OrderFits(f, order, spans)
  {
    v in iv && iv[v].begin == iv[v].end && (iv[v].begin < n <==> LiveExact.BeginsBefore(f, order, spans, v, n))
  }

  lemma TerminatorsAreEmpty(f: Func, order: seq<Block>, spans: Spans)
    requires OrderFits(f, order, spans) && Distinct(order) && LiveExact.SpansStart(f, order, spans)
    ensures TerminatorsEmpty(f, order, spans, FinalIntervals(f, order, spans))
  {
    hide LeadingPhis, TerminatorIn, LiveExact.BeginsBefore, FinalIntervals, LiveExact.SpansStart;
    var iv := FinalIntervals(f, order, spans);
    forall v, n: nat | TerminatorIn(f, order, v) ensures EmptyFrom(f, order, spans, iv, v, n) {
      LiveExact.TerminatorExact(f, order, spans, v, n);
    }
  }

  lemma ComputedIsExplained(f: Func, order: seq<Block>, data: map<Block, nat>, loops: seq<Loop>)
    requires AllBlocks(f, order) && OrderFits(f, order, SpansOf(f, order, data, loops)) && Distinct(order)
    ensures var spans := SpansOf(f, order, data, loops);
      Explained(f, order, spans, FinalIntervals(f, order, spans))
      && TerminatorsEmpty(f, order, spans, FinalIntervals(f, order, spans))
  {
    hide OrderFits, TerminatorIn, Covers, LiveExact.BeginsBefore, LiveExact.EndsAfter, FinalIntervals, LoopEnd;
    var spans := SpansOf(f, order, data, loops);
    assert LiveExact.SpansStart(f, order, spans);
    forall v, n: nat | !TerminatorIn(f, order, v)
      ensures Covers(FinalIntervals(f, order, spans), v, n) <==>
        LiveExact.BeginsBefore(f, order, spans, v, n) && LiveExact.EndsAfter(f, order, spans, v, n)
    {
      LiveExact.CoveredIff(f, order, spans, v, n);
    }
    TerminatorsAreEmpty(f, order, spans);
  }

  /** The order and the extents come from a loop tree of the graph. */
  ghost predicate FromLoopTree(f: Func, order: seq<Block>, spans: Spans) {
    && f.graph.Valid() && AllBlocks(f, order)
    && exists data, loops :: IsBasis(f, order, spans, data, loops)
  }

  ghost predicate IsBasis(f: Func, order: seq<Block>, spans: Spans, data: map<Block, nat>, loops: seq<Loop>)
    requires f.graph.Valid() && AllBlocks(f, order)
  {
    && IsLoopTree(f.graph, data, loops) && (exists sdom, parent :: TreeRecorded(f.graph, sdom, parent, data, loops))
    && LinearOrder.IsOrderOf(f.graph, data, loops, order) && spans == SpansOf(f, order, data, loops)
  }

  /** The analyses in the order in which the allocator's constructor runs them. */
  method Analyze(f: Func) returns (order: seq<Block>, intervals: IntervalMap, ghost spans: Spans)
    requires WellFormedFunc(f) && LinksMirrored(f.graph) && PredsReached(f.graph)
    ensures LinearOrder.IsLinearOrder(f.graph, order) && OrderFits(f, order, spans)
    ensures intervals == FinalIntervals(f, order, spans)
    ensures !HasCycle(f.graph) ==> Topological(f, order)
    ensures OneLoopSettled(f, order, spans) && FromLoopTree(f, order, spans)
    ensures Distinct(order) && Explained(f, order, spans, intervals) && TerminatorsEmpty(f, order, spans, intervals)
  {
    hide HasCycle, LinksMirrored, PredsReached, IsLoopTree, OrderFits, LinearOrder.IsLinearOrder, Topological,
      TreeRecorded, LinearOrder.IsOrderOf, OneLoopSettled, Explained, TerminatorsEmpty;
    var data, loops := BuildLoopTree(f.graph);
    ghost var sdom, parent :| TreeRecorded(f.graph, sdom, parent, data, loops);
    order := LinearOrder.BuildLinearOrder(f.graph, data, loops);
    LoopTreeFits(f.graph, data, loops, order);
    if !HasCycle(f.graph) {
      AcyclicOrderIsTopological(f, order);
    }
    var builder := new LivenessBuilder(f, data, loops, order);
    builder.BuildIntervals();
    intervals := builder.intervals;
    spans := SpansOf(f, order, data, loops);
    assert IsBasis(f, order, spans, data, loops);
    SettleOneLoop(f, order, data, loops, sdom, parent);
    ComputedIsExplained(f, order, data, loops);
  }

  /** From a function to locations: it succeeds exactly when no register runs out, registers are in range, the
      spilled values are as few as possible, and competing values are separated. */
  method AllocateRegisters(f: Func, regs: nat)
    returns (ok: bool, regMap: RegMap, order: seq<Block>, intervals: IntervalMap, data: seq<Value>, ghost spans: Spans)
    requires WellFormedFunc(f) && LinksMirrored(f.graph) && PredsReached(f.graph) && regs >= 1
    ensures LinearOrder.IsLinearOrder(f.graph, order) && OrderFits(f, order, spans)
    ensures intervals == FinalIntervals(f, order, spans) && OneLoopSettled(f, order, spans)
    ensures FromLoopTree(f, order, spans)
    ensures Distinct(order) && Explained(f, order, spans, intervals) && TerminatorsEmpty(f, order, spans, intervals)
    ensures IsScanOrder(intervals, data) && SpillPolicy.Ordered(intervals, data)
    ensures ok <==> !exists d: nat, k: nat :: SpillPolicy.RunsOut(intervals, data, regs, d, k)
    ensures ok ==> regMap.Keys == Elems(data) && forall v :: InRegister(regMap, v) ==> regMap[v].id < regs
    ensures ok ==> FewestSpills(intervals, data, regs, RegAlloc.OnStack(regMap))
    ensures ok ==> PlacedByRules(intervals, data, regs, regMap)
    ensures ok && LoopsSpanned(f, order, spans) ==> forall u, v :: Compete(f, order, u, v) ==> Separated(regMap, u, v)
    ensures ok && !HasCycle(f.graph) ==> forall u, v :: Compete(f, order, u, v) ==> Separated(regMap, u, v)
  {
    hide HasCycle, LinksMirrored, PredsReached, OrderFits, LinearOrder.IsLinearOrder, Topological, IsScanOrder,
      WellFormedFunc, SpillPolicy.Ordered, Compete, FinalGuarantee, SpillPolicy.RunsOut, DistinctEndsOf, Scan,
      FewestSpills, FinalIntervals, LoopsSpanned, RegAlloc.OnStack, OneLoopSettled, Explained, TerminatorsEmpty,
      PlacedByRules, FromLoopTree;
    order, intervals, spans := Analyze(f);
    IntervalsWellFormed(f, order, spans);
    data := ScanOrder(intervals);
    var allocator := new RegAllocAnalyzer(regs, intervals, data);
    ok := allocator.LinearScan();
    regMap := allocator.regMap;
    if ok {
      RegistersBelow(intervals, data, regs, allocator.State());
      SpannedIfAcyclic(f, order, spans);
      if LoopsSpanned(f, order, spans) {
        forall u, v | Compete(f, order, u, v) ensures Separated(regMap, u, v) {
          LiveValuesSeparated(f, order, spans, data, regs, u, v);
        }
      }
    }
  }

  lemma RegistersBelow(iv: IntervalMap, data: seq<Value>, regs: nat, r: Alloc)
    requires exists held :: FinalGuarantee(iv, data, regs, r, held)
    ensures r.regMap.Keys == Elems(data) && forall v :: InRegister(r.regMap, v) ==> r.regMap[v].id < regs
  {
    hide Safe, SlotsUnique, RegistersPartitioned, OwnedRegisters, Below;
    var held :| FinalGuarantee(iv, data, regs, r, held);
  }

  lemma SpannedIfAcyclic(f: Func, order: seq<Block>, spans: Spans)
    requires OrderFits(f, order, spans)
    ensures Topological(f, order) ==> LoopsSpanned(f, order, spans)
  {
    hide OrderFits, LoopsSpanned, Topological;
    if Topological(f, order) {
      TopologicalIsSpanned(f, order, spans, 0);
    }
  }
}
