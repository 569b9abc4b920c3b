/** What the liveness intervals cover, loops included. */
module LiveLoops {
  import opened SetFacts
  import opened Wrappers
  import opened Intervals
  import opened Cfg
  import opened Liveness

  // ---- the sweep, moment by moment ----

  /** The analysis once the blocks from number `k` of the order on have been swept. */
  ghost function After(f: Func, order: seq<Block>, spans: Spans, k: nat): Analysis
    requires OrderFits(f, order, spans) && k <= |order|
    decreases |order| - k
  {
    if k == |order| then Analysis(map[], map[]) else
      assert order[k] in order;
      SweepBlock(f, order[k], Start(f, order, k), spans[k], After(f, order, spans, k + 1))
  }

  lemma {:induction false} AfterIsSweep(f: Func, order: seq<Block>, spans: Spans, k: nat)
    requires OrderFits(f, order, spans) && k <= |order|
    ensures SweepOrder(f, order, spans, After(f, order, spans, k), k) ==
      SweepOrder(f, order, spans, Analysis(map[], map[]), |order|)
    decreases |order| - k
  {
    hide SweepBlock;
    if k < |order| {
      AfterIsSweep(f, order, spans, k + 1);
    }
  }

  lemma {:induction false} AfterEnds(f: Func, order: seq<Block>, spans: Spans, k: nat)
    requires OrderFits(f, order, spans) && k <= |order|
    ensures EndsFrom(After(f, order, spans, k).iv, Start(f, order, k))
    decreases |order| - k
  {
    hide SweepBlock;
    if k < |order| {
      assert order[k] in order;
      AfterEnds(f, order, spans, k + 1);
      BlockKept(f, order[k], Start(f, order, k), spans[k], After(f, order, spans, k + 1));
    }
  }

  /** An extent that begins at the current block or later is never taken back. */
  lemma AfterKept(f: Func, order: seq<Block>, spans: Spans, k: nat, v: Value, a: nat, n: nat)
    requires OrderFits(f, order, spans) && k <= |order|
    requires Reaching(After(f, order, spans, k).iv, v, a, n) && Start(f, order, k) <= a
    ensures Reaching(SweepOrder(f, order, spans, Analysis(map[], map[]), |order|).iv, v, a, n)
  {
    hide EndsFrom, Reaching, SweepBlock, SweepOrder;
    AfterEnds(f, order, spans, k);
    AfterIsSweep(f, order, spans, k);
    OrderKept(f, order, spans, After(f, order, spans, k), k);
  }

  lemma {:induction false} AfterSets(f: Func, order: seq<Block>, spans: Spans, k: nat, m: nat)
    requires OrderFits(f, order, spans) && Distinct(order) && k <= m < |order|
    ensures order[m] in After(f, order, spans, m).sets && order[m] in After(f, order, spans, k).sets
    ensures After(f, order, spans, k).sets[order[m]] == After(f, order, spans, m).sets[order[m]]
    decreases |order| - k
  {
    hide SweepBlock;
    assert order[k] in order;
    BlockSets(f, order[k], Start(f, order, k), spans[k], After(f, order, spans, k + 1));
    if k < m {
      AfterSets(f, order, spans, k + 1, m);
    }
  }

  /** What the sweep lets out of block number `j`. */
  ghost function Out(f: Func, order: seq<Block>, spans: Spans, j: nat): set<Value>
    requires OrderFits(f, order, spans) && j < |order|
  {
    assert order[j] in order;
    LiveOut(f, After(f, order, spans, j + 1).sets[order[j] := {}], order[j])
  }

  /** The set stored for block number `h`. */
  ghost function SetOf(f: Func, order: seq<Block>, spans: Spans, h: nat): set<Value>
    requires OrderFits(f, order, spans) && Distinct(order) && h < |order|
  {
    AfterSets(f, order, spans, h, h);
    After(f, order, spans, h).sets[order[h]]
  }

  /** An edge to a later block hands back that block's set and what its PHIs read; an edge to the block itself
      only the latter. */
  lemma EdgeHandsBack(f: Func, order: seq<Block>, spans: Spans, j: nat, m: nat, v: Value)
    requires OrderFits(f, order, spans) && Distinct(order) && j <= m < |order| && Edge(f.graph, order[j], order[m])
    requires (j < m && v in SetOf(f, order, spans, m)) || PhiReads(f, order[j], order[m], v)
    ensures v in Out(f, order, spans, j)
  {
    hide After, LiveOut, PhiReads;
    assert order[j] in order && order[m] in order;
    if j < m {
      AfterSets(f, order, spans, j + 1, m);
    }
    InLiveOut(f, After(f, order, spans, j + 1).sets[order[j] := {}], order[j], v);
  }

  /** Positions of interest: just before a non-PHI instruction of a listed block, or at its end. */
  ghost predicate IsPosition(f: Func, order: seq<Block>, j: nat, t: nat) {
    && j < |order| && order[j] < |f.blocks| && t <= |f.blocks[order[j]]|
    && (t < |f.blocks[order[j]]| ==> !f.blocks[order[j]][t].kind.Phi?)
  }

  /** The sweep sees `v` live at position `t` of block number `j`. */
  ghost predicate SeenLive(f: Func, order: seq<Block>, spans: Spans, j: nat, t: nat, v: Value)
    requires OrderFits(f, order, spans) && j < |order|
  {
    order[j] < |f.blocks| && t <= |f.blocks[order[j]]| && LocalLive(f.blocks[order[j]], Out(f, order, spans, j), t, v)
  }

  lemma SeenAtStart(f: Func, order: seq<Block>, spans: Spans, h: nat, v: Value)
    requires OrderFits(f, order, spans) && Distinct(order) && h < |order|
    ensures v in SetOf(f, order, spans, h) <==> SeenLive(f, order, spans, h, 0, v)
  {
    hide SweepBlock, LiveOut, LocalLive;
    assert order[h] in order;
    BlockSets(f, order[h], Start(f, order, h), spans[h], After(f, order, spans, h + 1));
  }

  // ---- loops ----

  /** An edge that does not lead forward in the order. */
  ghost predicate IsLatch(f: Func, order: seq<Block>, i: nat, h: nat) {
    h <= i < |order| && Edge(f.graph, order[i], order[h])
  }

  /** The block leads to a latch of header number `h` without passing the header, or is the header. */
  ghost predicate InLoop(f: Func, order: seq<Block>, b: Block, h: nat) {
    h < |order| && exists i: nat :: IsLatch(f, order, i, h) && (b == order[h] || LeadsTo(f, b, order[i], order[h]))
  }

  ghost predicate LeadsTo(f: Func, b: Block, c: Block, avoid: Block) {
    exists p :: PathFrom(f.graph, b, c, p) && avoid !in p
  }

  /** Every edge that does not lead forward goes to the header of a loop with a recorded extent, and the extent
      spans the blocks of the loop. */
  ghost predicate LoopsSpanned(f: Func, order: seq<Block>, spans: Spans)
    requires OrderFits(f, order, spans)
  {
    && Distinct(order)
    && (forall i, s: Block :: 0 <= i < |order| && Edge(f.graph, order[i], s) ==> s in order)
    && forall m: nat, h: nat :: m < |order| && InLoop(f, order, order[m], h) ==> Spanned(f, order, spans, m, h)
  }

  ghost predicate Spanned(f: Func, order: seq<Block>, spans: Spans, m: nat, h: nat)
    requires OrderFits(f, order, spans) && m < |order|
  {
    && h <= m && order[m] < |f.blocks| && spans[h].Some? && spans[h].value.begin == Start(f, order, h)
    && BlockEnd(f.blocks[order[m]], Start(f, order, m)) <= spans[h].value.end
  }

  /** A PHI of an earlier block reads `v` on an edge: the sweep does not see that. */
  ghost predicate PhiReadsBack(f: Func, order: seq<Block>, v: Value) {
    exists i: nat, h: nat :: h < i < |order| && Edge(f.graph, order[i], order[h]) && PhiReads(f, order[i], order[h], v)
  }

  /** `v` is live into the header of a loop around block number `j`. */
  ghost predicate LoopLive(f: Func, order: seq<Block>, spans: Spans, j: nat, v: Value)
    requires OrderFits(f, order, spans) && Distinct(order) && j < |order|
  {
    exists h: nat :: h < |order| && InLoop(f, order, order[j], h) && v in SetOf(f, order, spans, h)
  }

  /** Topological orders have no loops at all. */
  lemma TopologicalIsSpanned(f: Func, order: seq<Block>, spans: Spans, v: Value)
    requires OrderFits(f, order, spans) && Topological(f, order)
    ensures LoopsSpanned(f, order, spans) && !PhiReadsBack(f, order, v)
  {
    forall i: nat, h: nat | h < |order| && i < |order| && Edge(f.graph, order[i], order[h]) ensures i < h {
      assert ListedAfter(order, i, order[h]);
    }
    forall i, s: Block | 0 <= i < |order| && Edge(f.graph, order[i], s) ensures s in order {
      assert ListedAfter(order, i, s);
    }
  }

  /** Stepping back from a block of a loop stays in the loop, or comes from its header. */
  lemma LoopBack(f: Func, order: seq<Block>, j: nat, m: nat, h: nat)
    requires j < |order| && m < |order| && Edge(f.graph, order[j], order[m])
    requires InLoop(f, order, order[m], h) && order[m] != order[h]
    ensures InLoop(f, order, order[j], h)
  {
    var i: nat :| IsLatch(f, order, i, h) && LeadsTo(f, order[m], order[i], order[h]);
    if order[j] != order[h] {
      var p :| PathFrom(f.graph, order[m], order[i], p) && order[h] !in p;
      assert PathFrom(f.graph, order[j], order[i], [order[j]] + p);
      assert LeadsTo(f, order[j], order[i], order[h]);
    }
  }

  /** A latch is in the loop of its header. */
  lemma LatchInLoop(f: Func, order: seq<Block>, j: nat, m: nat)
    requires IsLatch(f, order, j, m)
    ensures InLoop(f, order, order[j], m)
  {
    if order[j] != order[m] {
      assert PathFrom(f.graph, order[j], order[j], [order[j]]);
      assert LeadsTo(f, order[j], order[j], order[m]);
    }
  }

  /** Whatever is read along a path is seen by the sweep, or is live into the header of a loop around. */
  lemma {:induction false} ReadIsSeen(f: Func, order: seq<Block>, spans: Spans, path: seq<Block>, i: nat, j: nat,
                                      v: Value)
    requires OrderFits(f, order, spans) && LoopsSpanned(f, order, spans) && !PhiReadsBack(f, order, v)
    requires j < |order| && path != [] && path[0] == order[j] && order[j] < |f.blocks| && i <= |f.blocks[order[j]]|
    requires ReadAlong(f, path, i, v)
    ensures SeenLive(f, order, spans, j, i, v) || LoopLive(f, order, spans, j, v)
    decreases |path|, |f.blocks[order[j]]| - i
  {
    hide Out, SetOf, InLoop, OrderFits, Spanned, PhiReads;
    var instrs := f.blocks[order[j]];
    if i < |instrs| {
      if instrs[i].kind.Phi? || v !in instrs[i].inputs {
        ReadIsSeen(f, order, spans, path, i + 1, j, v);
      }
    } else {
      assert path[1] in order;
      var m: nat :| m < |order| && order[m] == path[1];
      if PhiReads(f, path[0], path[1], v) {
        assert j <= m;
        EdgeHandsBack(f, order, spans, j, m, v);
      } else {
        ReadIsSeen(f, order, spans, path[1..], 0, m, v);
        CrossEdge(f, order, spans, j, m, v);
      }
    }
  }

  lemma CrossEdge(f: Func, order: seq<Block>, spans: Spans, j: nat, m: nat, v: Value)
    requires OrderFits(f, order, spans) && LoopsSpanned(f, order, spans)
    requires j < |order| && m < |order| && Edge(f.graph, order[j], order[m]) && order[j] < |f.blocks|
    requires SeenLive(f, order, spans, m, 0, v) || LoopLive(f, order, spans, m, v)
    ensures SeenLive(f, order, spans, j, |f.blocks[order[j]]|, v) || LoopLive(f, order, spans, j, v)
  {
    hide Out, InLoop, OrderFits, Spanned, Edge;
    SeenAtStart(f, order, spans, m, v);
    if v in SetOf(f, order, spans, m) {
      EnterLater(f, order, spans, j, m, v);
    } else {
      var h: nat :| h < |order| && InLoop(f, order, order[m], h) && v in SetOf(f, order, spans, h);
      assert order[m] == order[h] ==> m == h;
      if order[m] != order[h] {
        LoopBack(f, order, j, m, h);
      }
    }
  }

  lemma EnterLater(f: Func, order: seq<Block>, spans: Spans, j: nat, m: nat, v: Value)
    requires OrderFits(f, order, spans) && Distinct(order)
    requires j < |order| && m < |order| && Edge(f.graph, order[j], order[m]) && order[j] < |f.blocks|
    requires v in SetOf(f, order, spans, m)
    ensures SeenLive(f, order, spans, j, |f.blocks[order[j]]|, v) || LoopLive(f, order, spans, j, v)
  {
    hide Out, InLoop, OrderFits;
    if j < m {
      EdgeHandsBack(f, order, spans, j, m, v);
    } else {
      LatchInLoop(f, order, j, m);
    }
  }

  /** What is seen spans its number at the end. */
  lemma SeenSpans(f: Func, order: seq<Block>, spans: Spans, j: nat, t: nat, v: Value)
    requires OrderFits(f, order, spans) && j < |order| && SeenLive(f, order, spans, j, t, v)
    requires t < |f.blocks[order[j]]| ==> !f.blocks[order[j]][t].kind.Phi?
    ensures var n := NumberAt(f.blocks[order[j]], Start(f, order, j), t);
      n > 0 && Reaching(SweepOrder(f, order, spans, Analysis(map[], map[]), |order|).iv, v, n - 1, n)
  {
    hide Reaching, SweepBlock, SweepOrder, LocalLive, LiveOut, NumberAt, Start;
    var b, start := order[j], Start(f, order, j);
    assert b in order;
    BlockLiveSpans(f, b, start, spans[j], After(f, order, spans, j + 1), t, v);
    NumbersBefore(f.blocks[b], start, t);
    AfterKept(f, order, spans, j, v, NumberAt(f.blocks[b], start, t) - 1, NumberAt(f.blocks[b], start, t));
  }

  /** What is live into the header of a loop around spans the loop. */
  lemma LoopLiveSpans(f: Func, order: seq<Block>, spans: Spans, j: nat, v: Value)
    requires OrderFits(f, order, spans) && LoopsSpanned(f, order, spans)
    requires j < |order| && order[j] < |f.blocks| && LoopLive(f, order, spans, j, v)
    ensures Reaching(SweepOrder(f, order, spans, Analysis(map[], map[]), |order|).iv, v,
                     Start(f, order, j), BlockEnd(f.blocks[order[j]], Start(f, order, j)))
  {
    hide SweepBlock, SweepOrder, InLoop, Start, BlockEnd, EndsFrom;
    var h: nat :| h < |order| && InLoop(f, order, order[j], h) && v in SetOf(f, order, spans, h);
    assert Spanned(f, order, spans, j, h) && order[h] in order;
    HeaderSpans(f, order[h], Start(f, order, h), spans[h].value, After(f, order, spans, h + 1), v);
    AfterKept(f, order, spans, h, v, spans[h].value.begin, spans[h].value.end);
    StartsGrow(f, order, h, j);
  }

  lemma StartsGrow(f: Func, order: seq<Block>, h: nat, j: nat)
    requires h <= j < |order| && forall b :: b in order ==> b < |f.blocks|
    ensures Start(f, order, h) <= Start(f, order, j)
  {
    if h < j {
      StartsIncrease(f, order, h, j);
      BlocksTile(f, order, h);
    }
  }

  /** The interval of `v` begins before number `n` and ends there or later. */
  ghost predicate Covers(iv: IntervalMap, v: Value, n: nat) {
    v in iv && iv[v].begin < n <= iv[v].end
  }

  /** Covering, loops included: if the recorded extents span the loops, a value that no PHI reads on an edge to
      an earlier block covers every position where it is live. */
  lemma LiveValuesCovered(f: Func, order: seq<Block>, spans: Spans, j: nat, t: nat, v: Value)
    requires OrderFits(f, order, spans) && LoopsSpanned(f, order, spans) && !PhiReadsBack(f, order, v)
    requires j < |order| && LiveBefore(f, order[j], t, v) && !TerminatorIn(f, order, v)
    requires t < |f.blocks[order[j]]| ==> !f.blocks[order[j]][t].kind.Phi?
    ensures Covers(FinalIntervals(f, order, spans), v, NumberAt(f.blocks[order[j]], Start(f, order, j), t))
  {
    hide LoopsSpanned, PhiReadsBack, SweepOrder, TerminatorIn, Start, SeenLive, LoopLive, ReadAlong;
    var b, start := order[j], Start(f, order, j);
    var path :| path != [] && path[0] == b && ReadAlong(f, path, t, v);
    ReadIsSeen(f, order, spans, path, t, j, v);
    if SeenLive(f, order, spans, j, t, v) {
      SeenSpans(f, order, spans, j, t, v);
    } else {
      LoopLiveSpans(f, order, spans, j, v);
      NumbersInside(f, b, start, t);
    }
  }

  lemma NumbersInside(f: Func, b: Block, start: nat, t: nat)
    requires b < |f.blocks| && t <= |f.blocks[b]| && LeadingPhis(f.blocks[b])
    requires t < |f.blocks[b]| ==> !f.blocks[b][t].kind.Phi?
    ensures start < NumberAt(f.blocks[b], start, t) <= BlockEnd(f.blocks[b], start)
  {
    NumbersBefore(f.blocks[b], start, t);
    if t < |f.blocks[b]| {
      NumbersIncrease(f.blocks[b], start, t, t);
    }
  }

  // ---- what the sweep does not see ----

  /** A loop of two blocks after an entry block: the PHI of block 1 reads value 3 on the edge from block 2, where
      value 3 is defined two instructions before the end. */
  const COUNTER := Func(
    Graph(0, [[1], [2], [1]], [[], [0, 2], [1]]),
    [
      [Instr(0, Other, [], []), Instr(1, Terminator, [], [])],
      [Instr(2, Phi, [], [(0, 0), (3, 2)]), Instr(5, Terminator, [], [])],
      [Instr(3, Other, [2], []), Instr(4, Other, [2], []), Instr(6, Terminator, [4], [])]
    ])

  /** Where each value of the function is defined. */
  ghost function PlaceOf(v: Value): (Block, nat) {
    match v
    case 0 => (0, 0)
    case 1 => (0, 1)
    case 2 => (1, 0)
    case 5 => (1, 1)
    case 3 => (2, 0)
    case 4 => (2, 1)
    case _ => (2, 2)
  }

  lemma CounterIds()
    ensures |COUNTER.blocks| == 3 && |COUNTER.graph.succs| == 3 && COUNTER.graph.Valid()
    ensures forall b: Block, i: nat :: IsInstr(COUNTER, b, i) ==> PlaceOf(COUNTER.blocks[b][i].id) == (b, i)
  {
  }

  lemma CounterFits(spans: Spans)
    requires |spans| == 3
    ensures WellFormedFunc(COUNTER) && OrderFits(COUNTER, [0, 1, 2], spans)
  {
    hide COUNTER, LeadingPhis, PlaceOf;
    CounterIds();
    forall b: Block | b < 3 ensures LeadingPhis(COUNTER.blocks[b]) {
      CounterPhis(b);
    }
  }

  lemma CounterPhis(b: Block)
    requires b < 3
    ensures b < |COUNTER.blocks| && LeadingPhis(COUNTER.blocks[b])
  {
  }

  /** Value 3 is live just before the end of block 2, because the PHI of block 1 reads it. */
  lemma CounterLive()
    ensures LiveBefore(COUNTER, 2, 2, 3) && PhiReads(COUNTER, 2, 1, 3)
  {
    var f := COUNTER;
    assert f.blocks[1][0].kind.Phi? && (3, 2) in f.blocks[1][0].vars;
    assert ReadAlong(f, [2, 1], 3, 3);
    assert ReadAlong(f, [2, 1], 2, 3);
  }

  lemma {:induction false} InputsUntouched(s: Sweep, inputs: seq<Value>, x: Interval, v: Value)
    requires v !in inputs && v in s.iv && v !in s.live
    ensures var r := UseInputs(s, inputs, x); v in r.iv && r.iv[v] == s.iv[v] && v !in r.live
    decreases |inputs|
  {
    if inputs != [] {
      assert inputs == [inputs[0]] + inputs[1..];
      InputsUntouched(Sweep(Extend(s.iv, inputs[0], x), s.live + {inputs[0]}), inputs[1..], x, v);
    }
  }

  lemma {:induction false} InstrsUntouched(instrs: seq<Instr>, start: nat, s: Sweep, i: nat, v: Value)
    requires i <= |instrs| && v in s.iv && v !in s.live
    requires forall j :: 0 <= j < i ==> instrs[j].id != v && v !in instrs[j].inputs
    ensures var r := SweepInstrs(instrs, start, s, i); v in r.iv && r.iv[v] == s.iv[v] && v !in r.live
    decreases i
  {
    if i > 0 && !instrs[i - 1].kind.Phi? {
      var x, n := instrs[i - 1], Number(instrs, start, i - 1);
      var own := if x.id in s.iv then Interval(n, s.iv[x.id].end) else Interval(n, n + LIVE_STEP);
      InputsUntouched(Sweep(s.iv[x.id := own], s.live - {x.id}), x.inputs, Interval(start, n), v);
      InstrsUntouched(instrs, start, AtInstr(s, x, start, n), i - 1, v);
    }
  }

  /** A block that neither defines nor reads `v`, nor lets it out, leaves its interval alone. */
  lemma BlockUntouched(f: Func, b: Block, start: nat, span: Option<Interval>, st: Analysis, v: Value)
    requires b < |f.blocks| == |f.graph.succs| && v in st.iv && v !in LiveOut(f, st.sets[b := {}], b)
    requires forall j :: 0 <= j < |f.blocks[b]| ==> f.blocks[b][j].id != v && v !in f.blocks[b][j].inputs
    ensures var r := SweepBlock(f, b, start, span, st);
      v in r.iv && r.iv[v] == st.iv[v] && b in r.sets && v !in r.sets[b] && r.sets == st.sets[b := r.sets[b]]
  {
    hide LiveOut, SweepInstrs;
    InstrsUntouched(f.blocks[b], start, Entered(f, b, start, st), |f.blocks[b]|, v);
  }

  /** After block 2 the interval of value 3 is the one its definition gave it. */
  lemma CounterLatch(span: Option<Interval>, start: nat)
    requires start == 10
    ensures var st := SweepBlock(COUNTER, 2, start, span, Analysis(map[], map[]));
      3 in st.iv && st.iv[3] == Interval(12, 14) && 2 in st.sets && 3 !in st.sets[2] && st.sets.Keys == {2}
  {
    var f, instrs := COUNTER, COUNTER.blocks[2];
    var out := LiveOut(f, map[2 := {}], 2);
    assert out == {} by {
      forall v ensures v !in out {
        InLiveOut(f, map[2 := {}], 2, v);
      }
    }
    var s := Entered(f, 2, start, Analysis(map[], map[]));
    assert s.live == {} && s.iv == map[];
    CounterInstrs(s);
  }

  lemma CounterInstrs(s: Sweep)
    requires s == Sweep(map[], {})
    ensures var r := SweepInstrs(COUNTER.blocks[2], 10, s, 3); 3 in r.iv && r.iv[3] == Interval(12, 14) && r.live == {2}
  {
    var instrs := COUNTER.blocks[2];
    assert Number(instrs, 10, 2) == 16 && Number(instrs, 10, 1) == 14 && Number(instrs, 10, 0) == 12 by {
      assert NonPhis(instrs, 1) == 1 && NonPhis(instrs, 2) == 2 && NonPhis(instrs, 3) == 3;
    }
    var s2 := AtInstr(s, instrs[2], 10, 16);
    assert s2 == Sweep(map[6 := Interval(16, 18), 4 := Interval(10, 16)], {4}) by {
      assert [4][1..] == [];
    }
    var s1 := AtInstr(s2, instrs[1], 10, 14);
    assert s1.live == {2} && s1.iv == map[6 := Interval(16, 18), 4 := Interval(14, 16), 2 := Interval(10, 14)] by {
      assert [2][1..] == [];
    }
    var s0 := AtInstr(s1, instrs[0], 10, 12);
    assert s0.live == {2} && 3 in s0.iv && s0.iv[3] == Interval(12, 14) by {
      assert [2][1..] == [];
    }
    assert SweepInstrs(instrs, 10, s0, 0) == s0;
    assert SweepInstrs(instrs, 10, s1, 1) == s0;
    assert SweepInstrs(instrs, 10, s2, 2) == s0;
  }

  lemma CounterNumbers()
    ensures Start(COUNTER, [0, 1, 2], 2) == 10 && NumberAt(COUNTER.blocks[2], 10, 2) == 16
  {
    var f := COUNTER;
    var order: seq<Block> := [0, 1, 2];
    assert NonPhis(f.blocks[0], 1) == 1 && NonPhis(f.blocks[0], 2) == 2;
    assert NonPhis(f.blocks[1], 1) == 0 && NonPhis(f.blocks[1], 2) == 1;
    assert NonPhis(f.blocks[2], 1) == 1 && NonPhis(f.blocks[2], 2) == 2 && NonPhis(f.blocks[2], 3) == 3;
    assert Start(f, order, 0) == 0 && Start(f, order, 1) == 6;
  }

  /** Without the condition on PHIs covering fails, whatever the recorded extents are: in this function value 3 is
      live just before the instruction numbered 16, but its interval ends at 14. */
  lemma BackPhiIsMissed(spans: Spans)
    requires |spans| == 3
    ensures OrderFits(COUNTER, [0, 1, 2], spans) && PhiReadsBack(COUNTER, [0, 1, 2], 3)
    ensures LiveBefore(COUNTER, 2, 2, 3) && !TerminatorIn(COUNTER, [0, 1, 2], 3)
    ensures !Covers(FinalIntervals(COUNTER, [0, 1, 2], spans), 3,
                    NumberAt(COUNTER.blocks[2], Start(COUNTER, [0, 1, 2], 2), 2))
  {
    hide SweepBlock, LiveOut, LiveBefore, PhiReads, Start, NumberAt, COUNTER;
    var order: seq<Block> := [0, 1, 2];
    CounterFits(spans);
    CounterLive();
    CounterNumbers();
    CounterShape();
    CounterLatch(spans[2], 10);
    var st := CounterSweep(spans);
    AfterIsSweep(COUNTER, order, spans, 0);
  }

  lemma CounterShape()
    ensures |COUNTER.blocks| == 3 && |COUNTER.blocks[2]| == 3 && Edge(COUNTER.graph, 2, 1)
    ensures !TerminatorIn(COUNTER, [0, 1, 2], 3)
  {
  }

  lemma CounterSweep(spans: Spans) returns (st: Analysis)
    requires |spans| == 3 && OrderFits(COUNTER, [0, 1, 2], spans)
    ensures st == After(COUNTER, [0, 1, 2], spans, 0) && 3 in st.iv && st.iv[3] == Interval(12, 14)
  {
    hide SweepBlock, LiveOut, Start, COUNTER, OrderFits;
    var f := COUNTER;
    var order: seq<Block> := [0, 1, 2];
    CounterNumbers();
    CounterMiddle(1, map[]);
    CounterLatch(spans[2], 10);
    var st2 := After(f, order, spans, 2);
    assert After(f, order, spans, 3) == Analysis(map[], map[]);
    assert st2 == SweepBlock(f, 2, 10, spans[2], Analysis(map[], map[]));
    CounterMiddle(1, st2.sets);
    BlockUntouched(f, 1, Start(f, order, 1), spans[1], st2, 3);
    var st1 := After(f, order, spans, 1);
    assert st1 == SweepBlock(f, 1, Start(f, order, 1), spans[1], st2);
    CounterMiddle(0, st1.sets);
    BlockUntouched(f, 0, Start(f, order, 0), spans[0], st1, 3);
    st := After(f, order, spans, 0);
  }

  /** Neither block 0 nor block 1 has anything to do with value 3. */
  lemma CounterMiddle(b: Block, sets: map<Block, set<Value>>)
    requires b < 2 && (forall s :: s in sets ==> 3 !in sets[s])
    ensures |COUNTER.blocks| == |COUNTER.graph.succs| == 3 && 3 !in LiveOut(COUNTER, sets[b := {}], b)
    ensures forall j :: 0 <= j < |COUNTER.blocks[b]| ==>
      COUNTER.blocks[b][j].id != 3 && 3 !in COUNTER.blocks[b][j].inputs
  {
    InLiveOut(COUNTER, sets[b := {}], b, 3);
    assert !PhiReads(COUNTER, 0, 1, 3) && !PhiReads(COUNTER, 1, 2, 3);
  }

  /** The extents are not to blame: with the loop of blocks 1 and 2 recorded in full everything else holds. */
  lemma CounterSpanned(spans: Spans)
    requires spans == [None, Some(Interval(6, 18)), None]
    ensures OrderFits(COUNTER, [0, 1, 2], spans) && LoopsSpanned(COUNTER, [0, 1, 2], spans)
  {
    hide LeadsTo, COUNTER, Start, BlockEnd;
    var f := COUNTER;
    var order: seq<Block> := [0, 1, 2];
    CounterFits(spans);
    CounterIds();
    CounterEnds();
    CounterEdges();
    forall m: nat, h: nat | m < |order| && InLoop(f, order, order[m], h) ensures Spanned(f, order, spans, m, h) {
      var i: nat :| IsLatch(f, order, i, h) && (order[m] == order[h] || LeadsTo(f, order[m], order[i], order[h]));
      assert i == 2 && h == 1;
      if m == 0 {
        EntryIsOutside();
      }
    }
  }

  lemma CounterEdges()
    ensures forall u: Block, v: Block :: Edge(COUNTER.graph, u, v) <==>
      (u == 0 && v == 1) || (u == 1 && v == 2) || (u == 2 && v == 1)
  {
  }

  lemma EntryIsOutside()
    ensures !LeadsTo(COUNTER, 0, 2, 1)
  {
    forall p | PathFrom(COUNTER.graph, 0, 2, p) ensures 1 in p {
      assert Edge(COUNTER.graph, p[0], p[0 + 1]);
      assert p[1] == 1;
    }
  }

  lemma CounterEnds()
    ensures Start(COUNTER, [0, 1, 2], 1) == 6 && Start(COUNTER, [0, 1, 2], 2) == 10
    ensures BlockEnd(COUNTER.blocks[1], 6) == 10 && BlockEnd(COUNTER.blocks[2], 10) == 18
  {
    CounterNumbers();
    var f := COUNTER;
    var order: seq<Block> := [0, 1, 2];
    assert NonPhis(f.blocks[0], 1) == 1 && NonPhis(f.blocks[0], 2) == 2;
    assert NonPhis(f.blocks[1], 1) == 0 && NonPhis(f.blocks[1], 2) == 1;
    assert NonPhis(f.blocks[2], 1) == 1 && NonPhis(f.blocks[2], 2) == 2 && NonPhis(f.blocks[2], 3) == 3;
    assert Start(f, order, 0) == 0;
  }
}
