/** The liveness builder as a program: numbering, then the backward sweep, all in place. */
module LivenessBuild {
  import opened SetFacts
  import opened Wrappers
  import opened Intervals
  import opened Cfg
  import opened LoopRecords
  import opened Liveness

  ghost function EndOf(f: Func, order: seq<Block>, b: Block): nat
    requires |f.blocks| == |f.graph.succs| && forall b :: b in order ==> b < |f.blocks|
  {
    if b in order then BlockEnd(f.blocks[b], Start(f, order, IndexOf(order, b))) else 0
  }

  /** Where the last block of a loop body ends. */
  ghost function LoopEnd(f: Func, order: seq<Block>, body: seq<Block>): nat
    requires |f.blocks| == |f.graph.succs| && forall b :: b in order ==> b < |f.blocks|
  {
    if body == [] then 0 else
      var rest, last := LoopEnd(f, order, body[..|body| - 1]), EndOf(f, order, body[|body| - 1]);
      if rest < last then last else rest
  }

  /** The extent of the loop that block number `k` heads, if it heads a reducible one. */
  ghost function SpanAt(f: Func, order: seq<Block>, data: map<Block, nat>, loops: seq<Loop>, k: nat): Option<Interval>
    requires |f.blocks| == |f.graph.succs| && (forall b :: b in order ==> b < |f.blocks|) && k < |order|
  {
    var b := order[k];
    if b in data && data[b] < |loops| && loops[data[b]].header == Some(b) && loops[data[b]].reducible then
      Some(Interval(Start(f, order, k), LoopEnd(f, order, loops[data[b]].body)))
    else None
  }

  ghost function SpansOf(f: Func, order: seq<Block>, data: map<Block, nat>, loops: seq<Loop>): Spans
    requires |f.blocks| == |f.graph.succs| && forall b :: b in order ==> b < |f.blocks|
  {
    seq(|order|, k requires 0 <= k < |order| => SpanAt(f, order, data, loops, k))
  }

  /** Live numbers are set for the blocks before `k`, and for the first `i` instructions of block `k`. */
  ghost predicate NumberedTo(f: Func, order: seq<Block>, live: map<Value, nat>, k: nat, i: nat)
    requires forall b :: b in order ==> b < |f.blocks|
  {
    forall j: nat, t: nat :: j < |order| && IsInstr(f, order[j], t) && (j < k || (j == k && t < i)) ==>
      IsNumber(f, order, live, j, t)
  }

  ghost predicate IsNumber(f: Func, order: seq<Block>, live: map<Value, nat>, j: nat, t: nat)
    requires (forall b :: b in order ==> b < |f.blocks|) && j < |order| && IsInstr(f, order[j], t)
  {
    var x := f.blocks[order[j]][t];
    x.id in live && live[x.id] == Number(f.blocks[order[j]], Start(f, order, j), t)
  }

  lemma NumberNext(f: Func, order: seq<Block>, live: map<Value, nat>, k: nat, i: nat)
    requires WellFormedFunc(f) && Distinct(order) && forall b :: b in order ==> b < |f.blocks|
    requires k < |order| && IsInstr(f, order[k], i) && NumberedTo(f, order, live, k, i)
    ensures NumberedTo(f, order,
      live[f.blocks[order[k]][i].id := Number(f.blocks[order[k]], Start(f, order, k), i)], k, i + 1)
  {
    hide Start, Number, Graph.Valid, LeadingPhis;
    var x, n := f.blocks[order[k]][i], Number(f.blocks[order[k]], Start(f, order, k), i);
    forall j: nat, t: nat | j < |order| && IsInstr(f, order[j], t) && (j < k || (j == k && t < i + 1))
      ensures IsNumber(f, order, live[x.id := n], j, t)
    {
      if j == k && t == i {
      } else {
        assert IsNumber(f, order, live, j, t);
        assert f.blocks[order[j]][t].id != x.id;
      }
    }
  }

  lemma NumberNextBlock(f: Func, order: seq<Block>, live: map<Value, nat>, k: nat)
    requires (forall b :: b in order ==> b < |f.blocks|) && k < |order| && order[k] < |f.blocks|
    requires NumberedTo(f, order, live, k, |f.blocks[order[k]]|)
    ensures NumberedTo(f, order, live, k + 1, 0)
  {
    hide Start, Number;
    forall j: nat, t: nat | j < |order| && IsInstr(f, order[j], t) && (j < k + 1 || (j == k + 1 && t < 0))
      ensures IsNumber(f, order, live, j, t)
    {
      assert j < k || (j == k && t < |f.blocks[order[k]]|);
    }
  }

  /** `v` is in the union of what the first `k` successors pass back. */
  ghost predicate OutSoFar(f: Func, sets: map<Block, set<Value>>, b: Block, k: nat, v: Value)
    requires b < |f.graph.succs| && k <= |f.graph.succs[b]|
  {
    exists i :: 0 <= i < k && PassesBack(f, sets, b, f.graph.succs[b][i], v)
  }

  ghost predicate PassesBack(f: Func, sets: map<Block, set<Value>>, b: Block, s: Block, v: Value) {
    s in sets && (v in sets[s] || PhiReads(f, b, s, v))
  }

  lemma OutComplete(f: Func, sets: map<Block, set<Value>>, b: Block, live: set<Value>)
    requires b < |f.graph.succs|
    requires forall v :: v in live <==> OutSoFar(f, sets, b, |f.graph.succs[b]|, v)
    ensures live == LiveOut(f, sets, b)
  {
    hide LiveOut, PhiReads;
    forall v ensures v in live <==> v in LiveOut(f, sets, b) {
      InLiveOut(f, sets, b, v);
      if v in LiveOut(f, sets, b) {
        var s :| s in f.graph.succs[b] && s in sets && (v in sets[s] || PhiReads(f, b, s, v));
        var i :| 0 <= i < |f.graph.succs[b]| && f.graph.succs[b][i] == s;
        assert PassesBack(f, sets, b, f.graph.succs[b][i], v);
      }
    }
  }

  ghost predicate HasBlockInterval(f: Func, order: seq<Block>, blockInterval: map<Block, Interval>, k: nat)
    requires (forall b :: b in order ==> b < |f.blocks|) && k < |order|
  {
    && order[k] in order && order[k] in blockInterval
    && blockInterval[order[k]] == Interval(Start(f, order, k), BlockEnd(f.blocks[order[k]], Start(f, order, k)))
  }

  /** `v` is one of the terminators of block `b`. */
  ghost predicate TerminatorOf(f: Func, b: Block, v: Value) {
    b < |f.blocks| && TerminatorAmong(f.blocks[b], |f.blocks[b]|, v)
  }

  ghost predicate TerminatorAmong(instrs: seq<Instr>, i: nat, v: Value)
    requires i <= |instrs|
  {
    exists j :: 0 <= j < i && instrs[j].kind.Terminator? && instrs[j].id == v
  }

  lemma TerminatorIsListed(f: Func, order: seq<Block>)
    requires forall b :: b in order ==> b < |f.blocks|
    ensures forall v :: TerminatorIn(f, order, v) <==> exists j :: 0 <= j < |order| && TerminatorOf(f, order[j], v)
  {
    forall v ensures TerminatorIn(f, order, v) <==> exists j :: 0 <= j < |order| && TerminatorOf(f, order[j], v) {
      if j :| 0 <= j < |order| && TerminatorOf(f, order[j], v) {
        var t: nat :|
          t < |f.blocks[order[j]]| && f.blocks[order[j]][t].kind.Terminator? && f.blocks[order[j]][t].id == v;
        assert IsInstr(f, order[j], t);
      }
    }
  }

  lemma PhisNext(instrs: seq<Instr>, i: nat)
    requires i < |instrs|
    ensures PhisOf(instrs[..i] + [instrs[i]]) ==
      PhisOf(instrs[..i]) + if instrs[i].kind.Phi? then {instrs[i].id} else {}
  {
    var p, q := instrs[..i], instrs[..i] + [instrs[i]];
    assert forall j :: 0 <= j < i ==> q[j] == p[j];
    assert q[i] == instrs[i];
  }

  lemma BlockAdded(f: Func, b: Block, start: nat, span: Option<Interval>, sets: map<Block, set<Value>>,
                   sets': map<Block, set<Value>>)
    requires b < |f.blocks| == |f.graph.succs|
    requires exists iv :: sets' == SweepBlock(f, b, start, span, Analysis(iv, sets)).sets
    ensures sets'.Keys == sets.Keys + {b}
  {
  }

  /** Every terminator has an interval when the sweep is over. */
  lemma TerminatorsRecorded(f: Func, order: seq<Block>, spans: Spans)
    requires OrderFits(f, order, spans)
    ensures forall v ::
      TerminatorIn(f, order, v) ==> v in SweepOrder(f, order, spans, Analysis(map[], map[]), |order|).iv
  {
    hide SweepOrder, OrderFits;
    StartExists(f, order, spans);
    forall v | TerminatorIn(f, order, v) ensures v in SweepOrder(f, order, spans, Analysis(map[], map[]), |order|).iv {
      var j, t: nat :| 0 <= j < |order| && IsInstr(f, order[j], t) && f.blocks[order[j]][t].kind.Terminator?
        && f.blocks[order[j]][t].id == v;
      EmptyStart(f, order, Start(f, order, |order|));
      OrderSpans(f, order, spans, Analysis(map[], map[]), |order|, j, t);
    }
  }

  lemma StartExists(f: Func, order: seq<Block>, spans: Spans)
    requires OrderFits(f, order, spans)
    ensures |order| == |spans| && |f.blocks| == |f.graph.succs| && forall b :: b in order ==> b < |f.blocks|
  {
  }

  lemma NothingNumbered(f: Func, order: seq<Block>, live: map<Value, nat>)
    requires forall b :: b in order ==> b < |f.blocks|
    ensures NumberedTo(f, order, live, 0, 0)
  {
  }

  lemma StartsAtZero(f: Func, order: seq<Block>)
    requires forall b :: b in order ==> b < |f.blocks|
    ensures Start(f, order, 0) == 0
  {
  }

  lemma ExtendNone(iv: IntervalMap, s: set<Value>, x: Interval)
    ensures ExtendAll(iv, s - s, x) == iv
  {
  }

  lemma ExtendAllNext(iv: IntervalMap, done: set<Value>, v: Value, x: Interval)
    requires v !in done
    ensures Extend(ExtendAll(iv, done, x), v, x) == ExtendAll(iv, done + {v}, x)
  {
  }

  class LivenessBuilder {
    const func: Func
    const data: map<Block, nat>
    const loops: seq<Loop>
    const order: seq<Block>
    var live: map<Value, nat>
    var blockInterval: map<Block, Interval>
    var intervals: IntervalMap
    var liveSets: map<Block, set<Value>>

    ghost predicate Setting()
      reads this
    {
      && WellFormedFunc(func) && Distinct(order)
      && (forall b :: b in order ==> b < |func.blocks|)
      && (forall b :: b in order ==> b in data && data[b] < |loops|)
      && (forall l, b :: l in loops && b in l.body ==> b in order)
    }

    ghost predicate Numbered()
      requires Setting()
      reads this
    {
      && NumberedTo(func, order, live, |order|, 0)
      && (forall k :: 0 <= k < |order| ==> HasBlockInterval(func, order, blockInterval, k))
    }

    constructor (f: Func, d: map<Block, nat>, l: seq<Loop>, o: seq<Block>)
      requires WellFormedFunc(f) && Distinct(o) && (forall b :: b in o ==> b < |f.blocks|)
      requires (forall b :: b in o ==> b in d && d[b] < |l|) && forall x, b :: x in l && b in x.body ==> b in o
      ensures Setting() && func == f && data == d && loops == l && order == o
      ensures live == map[] && blockInterval == map[] && intervals == map[] && liveSets == map[]
    {
      func, data, loops, order := f, d, l, o;
      live, blockInterval, intervals, liveSets := map[], map[], map[], map[];
    }

    /** Assigns the live numbers and the block intervals along the linear order. */
    method InitLinearNum()
      requires Setting()
      modifies this`live, this`blockInterval
      ensures Numbered()
    {
      hide Number, WellFormedFunc, NumberedTo, Start, BlockEnd;
      NothingNumbered(func, order, live);
      StartsAtZero(func, order);
      var num := 0;
      for k := 0 to |order|
        invariant num == Start(func, order, k) && NumberedTo(func, order, live, k, 0)
        invariant forall j :: 0 <= j < k ==> HasBlockInterval(func, order, blockInterval, j)
      {
        BlocksTile(func, order, k);
        ghost var before := blockInterval;
        num := NumberBlock(k, num);
        forall j | 0 <= j < k ensures HasBlockInterval(func, order, blockInterval, j) {
          assert HasBlockInterval(func, order, before, j);
        }
      }
    }

    method NumberBlock(k: nat, start: nat) returns (num: nat)
      requires Setting() && k < |order| && order[k] < |func.blocks|
      requires start == Start(func, order, k) && NumberedTo(func, order, live, k, 0)
      modifies this`live, this`blockInterval
      ensures NumberedTo(func, order, live, k + 1, 0)
      ensures num == BlockEnd(func.blocks[order[k]], start)
      ensures blockInterval == old(blockInterval)[order[k] := Interval(start, num)]
    {
      hide WellFormedFunc, NumberedTo, Start;
      num := start;
      var instrs := func.blocks[order[k]];
      for i := 0 to |instrs|
        invariant num == start + LIVE_STEP * NonPhis(instrs, i)
        invariant NumberedTo(func, order, live, k, i) && blockInterval == old(blockInterval)
      {
        if !instrs[i].kind.Phi? {
          num := num + LIVE_STEP;
        }
        NumberNext(func, order, live, k, i);
        live := live[instrs[i].id := if instrs[i].kind.Phi? then start else num];
      }
      num := num + LIVE_STEP;
      NumberNextBlock(func, order, live, k);
      blockInterval := blockInterval[order[k] := Interval(start, num)];
    }

    method SetLiveInterval(v: Value, x: Interval)
      modifies this`intervals
      ensures intervals == Extend(old(intervals), v, x)
    {
      if v !in intervals {
        intervals := intervals[v := x];
      } else {
        intervals := intervals[v := intervals[v].Hull(x)];
      }
    }

    /** set_live_interval for every value of a set, in any order. */
    method SetLiveIntervals(s: set<Value>, x: Interval)
      modifies this`intervals
      ensures intervals == ExtendAll(old(intervals), s, x)
    {
      hide Extend, ExtendAll;
      var todo := s;
      ExtendNone(intervals, s, x);
      while todo != {}
        invariant todo <= s && intervals == ExtendAll(old(intervals), s - todo, x)
        decreases |todo|
      {
        var v :| v in todo;
        ExtendAllNext(old(intervals), s - todo, v, x);
        assert s - todo + {v} == s - (todo - {v});
        SetLiveInterval(v, x);
        todo := todo - {v};
      }
      assert s - todo == s;
    }

    method ProcessInputs(x: Instr, set0: set<Value>, bbStart: nat, num: nat) returns (liveSet: set<Value>)
      modifies this`intervals
      ensures Sweep(intervals, liveSet) == UseInputs(Sweep(old(intervals), set0), x.inputs, Interval(bbStart, num))
    {
      liveSet := set0;
      for i := 0 to |x.inputs|
        invariant UseInputs(Sweep(intervals, liveSet), x.inputs[i..], Interval(bbStart, num))
               == UseInputs(Sweep(old(intervals), set0), x.inputs, Interval(bbStart, num))
      {
        liveSet := liveSet + {x.inputs[i]};
        SetLiveInterval(x.inputs[i], Interval(bbStart, num));
        assert x.inputs[i..][1..] == x.inputs[i + 1..];
      }
    }

    method ProcessInstrs(b: Block, bbStart: nat, set0: set<Value>) returns (liveSet: set<Value>)
      requires b < |func.blocks|
      requires forall t :: 0 <= t < |func.blocks[b]| ==>
        func.blocks[b][t].id in live && live[func.blocks[b][t].id] == Number(func.blocks[b], bbStart, t)
      modifies this`intervals
      ensures Sweep(intervals, liveSet) ==
        SweepInstrs(func.blocks[b], bbStart, Sweep(old(intervals), set0), |func.blocks[b]|)
    {
      hide Number, UseInputs;
      var instrs := func.blocks[b];
      liveSet := set0;
      var i: nat := |instrs|;
      while i > 0
        invariant i <= |instrs|
        invariant SweepInstrs(instrs, bbStart, Sweep(intervals, liveSet), i)
               == SweepInstrs(instrs, bbStart, Sweep(old(intervals), set0), |instrs|)
      {
        var x := instrs[i - 1];
        if x.kind.Phi? {
          return;
        }
        ghost var before := Sweep(intervals, liveSet);
        var num := live[x.id];
        if x.id !in intervals {
          intervals := intervals[x.id := Interval(num, num + LIVE_STEP)];
        } else {
          intervals := intervals[x.id := Interval(num, intervals[x.id].end)];
        }
        liveSet := liveSet - {x.id};
        liveSet := ProcessInputs(x, liveSet, bbStart, num);
        assert Sweep(intervals, liveSet) == AtInstr(before, x, bbStart, num);
        i := i - 1;
      }
    }

    /** The union of the successors' live sets and of the PHI inputs on the edges to them. */
    method InitLiveSet(b: Block) returns (liveSet: set<Value>)
      requires Setting() && b < |func.blocks| && b !in liveSets
      modifies this`liveSets
      ensures liveSets == old(liveSets)[b := {}]
      ensures liveSet == LiveOut(func, liveSets, b)
    {
      hide WellFormedFunc, LiveOut;
      BlockCount();
      liveSets := liveSets[b := {}];
      liveSet := {};
      var succs := func.graph.succs[b];
      for k := 0 to |succs|
        invariant liveSets == old(liveSets)[b := {}]
        invariant forall v :: v in liveSet <==> OutSoFar(func, liveSets, b, k, v)
      {
        ghost var before := liveSet;
        if succs[k] in liveSets {
          liveSet := liveSet + liveSets[succs[k]];
          liveSet := AddPhiInputs(b, succs[k], liveSet);
        }
        forall v ensures v in liveSet <==> OutSoFar(func, liveSets, b, k + 1, v) {
          assert v in before <==> OutSoFar(func, liveSets, b, k, v);
          assert v in liveSet <==> v in before || PassesBack(func, liveSets, b, func.graph.succs[b][k], v);
        }
      }
      OutComplete(func, liveSets, b, liveSet);
    }

    lemma BlockCount()
      requires Setting()
      ensures |func.blocks| == |func.graph.succs|
    {
    }

    method AddPhiInputs(b: Block, s: Block, set0: set<Value>) returns (liveSet: set<Value>)
      ensures forall v :: v in liveSet <==> v in set0 || PhiReads(func, b, s, v)
    {
      liveSet := set0;
      if s < |func.blocks| {
        var instrs := func.blocks[s];
        for i := 0 to |instrs|
          invariant forall v :: v in liveSet <==>
            (v in set0 || exists j :: 0 <= j < i && instrs[j].kind.Phi? && (v, b) in instrs[j].vars)
        {
          if instrs[i].kind.Phi? {
            ghost var before := liveSet;
            var vars := instrs[i].vars;
            for p := 0 to |vars|
              invariant forall v :: v in liveSet <==> v in before || (v, b) in vars[..p]
            {
              if vars[p].1 == b {
                liveSet := liveSet + {vars[p].0};
              }
              assert vars[..p + 1] == vars[..p] + [vars[p]];
            }
            assert vars[..|vars|] == vars;
          }
        }
      }
    }

    /** A value that is live into the header of a reducible loop is live through the whole loop. */
    method ProcessLoop(k: nat, liveSet: set<Value>)
      requires Setting() && Numbered() && k < |order| && order[k] in data && data[order[k]] < |loops|
      modifies this`intervals
      ensures var span := SpanAt(func, order, data, loops, k);
        intervals == if span.Some? then ExtendAll(old(intervals), liveSet, span.value) else old(intervals)
    {
      hide WellFormedFunc, NumberedTo, Start, BlockEnd, ExtendAll;
      BlockCount();
      var b := order[k];
      var loop := loops[data[b]];
      if loop.header == Some(b) && loop.reducible {
        var loopEnd := 0;
        var body := loop.body;
        BlockKnown(k);
        var loopStart := blockInterval[b].begin;
        for i := 0 to |body|
          invariant intervals == old(intervals) && loopEnd == LoopEnd(func, order, body[..i])
        {
          assert loop in loops && body[i] in loop.body && body[i] in order;
          BlockKnown(IndexOf(order, body[i]));
          assert body[..i + 1][..i] == body[..i];
          if loopEnd < blockInterval[body[i]].end {
            loopEnd := blockInterval[body[i]].end;
          }
        }
        assert body[..|body|] == body;
        SetLiveIntervals(liveSet, Interval(loopStart, loopEnd));
      }
    }

    lemma BlockKnown(k: nat)
      requires Setting() && Numbered() && k < |order|
      ensures HasBlockInterval(func, order, blockInterval, k)
    {
    }

    lemma NumbersKnown(k: nat)
      requires Setting() && Numbered() && k < |order| && order[k] < |func.blocks|
      ensures forall t :: 0 <= t < |func.blocks[order[k]]| ==>
        func.blocks[order[k]][t].id in live
        && live[func.blocks[order[k]][t].id] == Number(func.blocks[order[k]], Start(func, order, k), t)
    {
      forall t | 0 <= t < |func.blocks[order[k]]|
        ensures func.blocks[order[k]][t].id in live
          && live[func.blocks[order[k]][t].id] == Number(func.blocks[order[k]], Start(func, order, k), t)
      {
        assert IsInstr(func, order[k], t) && IsNumber(func, order, live, k, t);
      }
    }

    ghost function Current(): Analysis
      reads this
    {
      Analysis(intervals, liveSets)
    }

    /** One block of the backward sweep; its terminators are remembered for the end. */
    method CalcBlock(k: nat) returns (terminators: seq<Value>)
      requires Setting() && Numbered() && k < |order| && order[k] !in liveSets
      modifies this`intervals, this`liveSets
      ensures order[k] < |func.blocks| == |func.graph.succs|
      ensures Current() ==
        SweepBlock(func, order[k], Start(func, order, k), SpanAt(func, order, data, loops, k), old(Current()))
      ensures forall v :: v in terminators <==> TerminatorOf(func, order[k], v)
    {
      hide WellFormedFunc, NumberedTo, Start, ExtendAll, SpanAt, SweepInstrs, LiveOut;
      var b := order[k];
      assert b in order;
      BlockCount();
      BlockKnown(k);
      NumbersKnown(k);
      var liveSet := InitLiveSet(b);
      SetLiveIntervals(liveSet, blockInterval[b]);
      liveSet := ProcessInstrs(b, blockInterval[b].begin, liveSet);
      terminators := [];
      var instrs := func.blocks[b];
      ghost var swept := Sweep(intervals, liveSet);
      for i := 0 to |instrs|
        invariant intervals == swept.iv && liveSets == old(liveSets)[b := {}]
        invariant liveSet == swept.live - PhisOf(instrs[..i])
        invariant forall v :: v in terminators <==> TerminatorAmong(instrs, i, v)
      {
        assert instrs[..i + 1] == instrs[..i] + [instrs[i]];
        PhisNext(instrs, i);
        if instrs[i].kind.Phi? {
          liveSet := liveSet - {instrs[i].id};
        }
        if instrs[i].kind.Terminator? {
          terminators := terminators + [instrs[i].id];
        }
      }
      assert instrs[..|instrs|] == instrs;
      ProcessLoop(k, liveSet);
      liveSets := liveSets[b := liveSet];
      assert liveSets == old(liveSets)[b := liveSet];
    }

    /** calc_life_ranges: the whole backward sweep, then the empty intervals of the terminators. */
    method CalcLifeRanges()
      requires Setting() && Numbered() && intervals == map[] && liveSets == map[]
      modifies this`intervals, this`liveSets
      ensures OrderFits(func, order, SpansOf(func, order, data, loops))
      ensures intervals == FinalIntervals(func, order, SpansOf(func, order, data, loops))
      ensures liveSets ==
        SweepOrder(func, order, SpansOf(func, order, data, loops), Analysis(map[], map[]), |order|).sets
    {
      hide NumberedTo, Start, SweepBlock, SpanAt, HasBlockInterval, LeadingPhis, Graph.Valid;
      ghost var spans := SpansOf(func, order, data, loops);
      ghost var start := Analysis(map[], map[]);
      var terminators := [];
      var k: nat := |order|;
      while k > 0
        invariant k <= |order|
        invariant SweepOrder(func, order, spans, Current(), k) == SweepOrder(func, order, spans, start, |order|)
        invariant forall j :: 0 <= j < k ==> order[j] !in liveSets
        invariant forall v :: v in terminators <==> exists j :: k <= j < |order| && TerminatorOf(func, order[j], v)
      {
        k := k - 1;
        ghost var before := liveSets;
        var more := CalcBlock(k);
        BlockAdded(func, order[k], Start(func, order, k), spans[k], before, liveSets);
        terminators := terminators + more;
      }
      TerminatorsRecorded(func, order, spans);
      TerminatorIsListed(func, order);
      EmptyIntervals(terminators);
    }

    /** Terminators define no value: their intervals end where they begin. */
    method EmptyIntervals(terminators: seq<Value>)
      requires (forall v :: v in terminators <==> TerminatorIn(func, order, v))
      requires forall v :: v in terminators ==> v in intervals
      modifies this`intervals
      ensures intervals == Emptied(func, order, old(intervals))
    {
      ghost var swept := intervals;
      for i := 0 to |terminators|
        invariant intervals ==
          map v | v in swept :: if v in terminators[..i] then Interval(swept[v].begin, swept[v].begin) else swept[v]
      {
        var v := terminators[i];
        assert v in terminators && v in swept;
        intervals := intervals[v := Interval(intervals[v].begin, intervals[v].begin)];
        assert terminators[..i + 1] == terminators[..i] + [v];
      }
      assert terminators[..|terminators|] == terminators;
    }

    method BuildIntervals()
      requires Setting() && intervals == map[] && liveSets == map[]
      modifies this
      ensures OrderFits(func, order, SpansOf(func, order, data, loops))
      ensures intervals == FinalIntervals(func, order, SpansOf(func, order, data, loops))
      ensures liveSets ==
        SweepOrder(func, order, SpansOf(func, order, data, loops), Analysis(map[], map[]), |order|).sets
    {
      hide Numbered, OrderFits, WellFormedFunc;
      InitLinearNum();
      CalcLifeRanges();
    }
  }
}
