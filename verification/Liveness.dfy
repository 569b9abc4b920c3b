/** Liveness intervals (include/analysis/liveness_analyzer.hh). */
module Liveness {
  import opened SetFacts
  import opened Wrappers
  import opened Intervals
  import opened Cfg

  /** What liveness distinguishes about an opcode. */
  datatype Kind = Phi | Terminator | Other

  /** An instruction is the value it defines. A PHI has (value, predecessor) pairs, the others inputs. */
  datatype Instr = Instr(id: Value, kind: Kind, inputs: seq<Value>, vars: seq<(Value, Block)>)

  datatype Func = Func(graph: Graph, blocks: seq<seq<Instr>>)

  ghost predicate IsInstr(f: Func, b: Block, i: nat) {
    b < |f.blocks| && i < |f.blocks[b]|
  }

  ghost predicate WellFormedFunc(f: Func) {
    && f.graph.Valid() && |f.blocks| == |f.graph.succs|
    && (forall b: Block, i: nat, c: Block, j: nat ::
          IsInstr(f, b, i) && IsInstr(f, c, j) && f.blocks[b][i].id == f.blocks[c][j].id ==> b == c && i == j)
    && (forall b: Block :: b < |f.blocks| ==> LeadingPhis(f.blocks[b]))
  }

  /** PHIs come first in their block. */
  ghost predicate LeadingPhis(instrs: seq<Instr>) {
    forall i, j :: 0 <= i < j < |instrs| && instrs[j].kind.Phi? ==> instrs[i].kind.Phi?
  }

  // ---- the meaning of liveness, by paths ----

  /** Edge b -> s makes a PHI of `s` read `v`. */
  predicate PhiReads(f: Func, b: Block, s: Block, v: Value) {
    s < |f.blocks| && exists i :: 0 <= i < |f.blocks[s]| && f.blocks[s][i].kind.Phi? && (v, b) in f.blocks[s][i].vars
  }

  /** Walking along `path` from instruction `i` of its first block, `v` is read before it is defined. */
  ghost predicate ReadAlong(f: Func, path: seq<Block>, i: nat, v: Value)
    requires path != [] && path[0] < |f.blocks| && i <= |f.blocks[path[0]]|
    decreases |path|, |f.blocks[path[0]]| - i
  {
    var instrs := f.blocks[path[0]];
    if i < |instrs| then
      || (!instrs[i].kind.Phi? && v in instrs[i].inputs)
      || (instrs[i].id != v && ReadAlong(f, path, i + 1, v))
    else
      && |path| > 1 && Edge(f.graph, path[0], path[1]) && path[1] < |f.blocks|
      && (PhiReads(f, path[0], path[1], v) || ReadAlong(f, path[1..], 0, v))
  }

  /** `v` is live just before instruction `i` of block `b` (at the end of `b`, if `i` is its length). */
  ghost predicate LiveBefore(f: Func, b: Block, i: nat, v: Value) {
    b < |f.blocks| && i <= |f.blocks[b]| && exists path :: path != [] && path[0] == b && ReadAlong(f, path, i, v)
  }

  lemma LiveBeforeInstr(f: Func, b: Block, i: nat, v: Value)
    requires IsInstr(f, b, i)
    ensures var x := f.blocks[b][i];
      LiveBefore(f, b, i, v) <==> (!x.kind.Phi? && v in x.inputs) || (x.id != v && LiveBefore(f, b, i + 1, v))
  {
    var x := f.blocks[b][i];
    if !x.kind.Phi? && v in x.inputs {
      assert ReadAlong(f, [b], i, v);
    }
    if x.id != v && LiveBefore(f, b, i + 1, v) {
      var path :| path != [] && path[0] == b && ReadAlong(f, path, i + 1, v);
      assert ReadAlong(f, path, i, v);
    }
    if LiveBefore(f, b, i, v) && !(!x.kind.Phi? && v in x.inputs) {
      var path :| path != [] && path[0] == b && ReadAlong(f, path, i, v);
      assert ReadAlong(f, path, i + 1, v);
    }
  }

  lemma LiveAtEnd(f: Func, b: Block, v: Value)
    requires b < |f.blocks|
    ensures LiveBefore(f, b, |f.blocks[b]|, v) <==>
      exists s: Block :: Edge(f.graph, b, s) && s < |f.blocks| && (PhiReads(f, b, s, v) || LiveBefore(f, s, 0, v))
  {
    var n := |f.blocks[b]|;
    if LiveBefore(f, b, n, v) {
      var path :| path != [] && path[0] == b && ReadAlong(f, path, n, v);
      assert PhiReads(f, b, path[1], v)
        || (path[1..] != [] && path[1..][0] == path[1] && ReadAlong(f, path[1..], 0, v));
    }
    if s: Block :| Edge(f.graph, b, s) && s < |f.blocks| && (PhiReads(f, b, s, v) || LiveBefore(f, s, 0, v)) {
      if PhiReads(f, b, s, v) {
        assert ReadAlong(f, [b, s], n, v);
      } else {
        var path :| path != [] && path[0] == s && ReadAlong(f, path, 0, v);
        assert ([b] + path)[1..] == path;
        assert ReadAlong(f, [b] + path, n, v);
      }
    }
  }

  /** The same inside one block, given what is live at its end. */
  ghost predicate LocalLive(instrs: seq<Instr>, out: set<Value>, i: nat, v: Value)
    requires i <= |instrs|
    decreases |instrs| - i
  {
    if i == |instrs| then v in out
    else (!instrs[i].kind.Phi? && v in instrs[i].inputs) || (instrs[i].id != v && LocalLive(instrs, out, i + 1, v))
  }

  lemma {:induction false} LocalIsLive(f: Func, b: Block, out: set<Value>, i: nat, v: Value)
    requires b < |f.blocks| && i <= |f.blocks[b]|
    requires forall u :: u in out <==> LiveBefore(f, b, |f.blocks[b]|, u)
    ensures LocalLive(f.blocks[b], out, i, v) <==> LiveBefore(f, b, i, v)
    decreases |f.blocks[b]| - i
  {
    hide LiveBefore;
    if i < |f.blocks[b]| {
      LocalIsLive(f, b, out, i + 1, v);
      LiveBeforeInstr(f, b, i, v);
    }
  }

  // ---- numbering ----

  const LIVE_STEP := 2

  /** The live number that instruction `i` has, when its block starts at `start`. */
  ghost function Number(instrs: seq<Instr>, start: nat, i: nat): nat
    requires i < |instrs|
  {
    if instrs[i].kind.Phi? then start else start + LIVE_STEP * NonPhis(instrs, i + 1)
  }

  /** The number just before which a position lies: that of the instruction there, or the end of the block. */
  ghost function NumberAt(instrs: seq<Instr>, start: nat, i: nat): nat
    requires i <= |instrs|
  {
    if i < |instrs| then Number(instrs, start, i) else BlockEnd(instrs, start)
  }

  ghost function NonPhis(instrs: seq<Instr>, n: nat): nat
    requires n <= |instrs|
  {
    if n == 0 then 0 else NonPhis(instrs, n - 1) + if instrs[n - 1].kind.Phi? then 0 else 1
  }

  ghost function BlockEnd(instrs: seq<Instr>, start: nat): nat {
    start + LIVE_STEP * NonPhis(instrs, |instrs|) + LIVE_STEP
  }

  /** The number at which block `k` of the linear order starts. */
  ghost function Start(f: Func, order: seq<Block>, k: nat): nat
    requires k <= |order| && forall b :: b in order ==> b < |f.blocks|
  {
    if k == 0 then 0 else
      assert order[k - 1] in order;
      BlockEnd(f.blocks[order[k - 1]], Start(f, order, k - 1))
  }

  lemma {:induction false} NonPhisMonotone(instrs: seq<Instr>, m: nat, n: nat)
    requires m <= n <= |instrs|
    ensures NonPhis(instrs, m) <= NonPhis(instrs, n)
  {
    if m < n {
      NonPhisMonotone(instrs, m, n - 1);
    }
  }

  /** Within a block live numbers of non-PHIs strictly increase, and lie inside the block's interval. */
  lemma NumbersIncrease(instrs: seq<Instr>, start: nat, i: nat, j: nat)
    requires i < |instrs| && j < |instrs| && !instrs[j].kind.Phi?
    ensures start < Number(instrs, start, j) && Number(instrs, start, j) + LIVE_STEP <= BlockEnd(instrs, start)
    ensures i < j ==> Number(instrs, start, i) < Number(instrs, start, j)
  {
    NonPhisMonotone(instrs, j + 1, |instrs|);
    if i < j {
      NonPhisMonotone(instrs, i + 1, j);
    }
  }

  /** The numbers in full: PHIs have that of their block, the other instructions go up by two from there, and the
      block ends two behind the last of them. */
  lemma NumbersExact(instrs: seq<Instr>, start: nat, i: nat)
    requires i < |instrs| && LeadingPhis(instrs)
    ensures instrs[i].kind.Phi? ==> Number(instrs, start, i) == start
    ensures !instrs[i].kind.Phi? ==>
      Number(instrs, start, i) == 2 + if i > 0 then Number(instrs, start, i - 1) else start
    ensures i == |instrs| - 1 ==> BlockEnd(instrs, start) == Number(instrs, start, i) + 2
  {
    assert NonPhis(instrs, i + 1) == NonPhis(instrs, i) + if instrs[i].kind.Phi? then 0 else 1;
    if instrs[i].kind.Phi? {
      LeadingNonPhis(instrs, i + 1);
    } else if i > 0 {
      assert i - 1 + 1 == i;
      if instrs[i - 1].kind.Phi? {
        LeadingNonPhis(instrs, i);
      }
    } else {
      assert NonPhis(instrs, 0) == 0;
    }
  }

  lemma {:induction false} LeadingNonPhis(instrs: seq<Instr>, n: nat)
    requires n <= |instrs| && LeadingPhis(instrs) && (n > 0 ==> instrs[n - 1].kind.Phi?)
    ensures NonPhis(instrs, n) == 0
  {
    if n > 0 {
      LeadingNonPhis(instrs, n - 1);
    }
  }

  lemma {:induction false} StartsIncrease(f: Func, order: seq<Block>, j: nat, k: nat)
    requires j < k <= |order| && forall b :: b in order ==> b < |f.blocks|
    ensures order[j] in order && BlockEnd(f.blocks[order[j]], Start(f, order, j)) <= Start(f, order, k)
  {
    assert order[j] in order;
    if j < k - 1 {
      StartsIncrease(f, order, j, k - 1);
    }
  }

  // ---- the sweep ----

  /** set_live_interval: insert, or widen what is there. */
  function Extend(iv: IntervalMap, v: Value, x: Interval): IntervalMap {
    iv[v := if v in iv then iv[v].Hull(x) else x]
  }

  ghost function ExtendAll(iv: IntervalMap, s: set<Value>, x: Interval): IntervalMap {
    map v | v in iv.Keys + s :: if v !in s then iv[v] else if v in iv then iv[v].Hull(x) else x
  }

  /** The intervals so far, and the live set of the block being swept. */
  datatype Sweep = Sweep(iv: IntervalMap, live: set<Value>)

  ghost function UseInputs(s: Sweep, inputs: seq<Value>, x: Interval): Sweep
    decreases |inputs|
  {
    if inputs == [] then s
    else UseInputs(Sweep(Extend(s.iv, inputs[0], x), s.live + {inputs[0]}), inputs[1..], x)
  }

  /** A definition starts its interval and leaves the live set; then the inputs enter it. */
  ghost function AtInstr(s: Sweep, instr: Instr, start: nat, n: nat): Sweep {
    var own := if instr.id in s.iv then Interval(n, s.iv[instr.id].end) else Interval(n, n + LIVE_STEP);
    UseInputs(Sweep(s.iv[instr.id := own], s.live - {instr.id}), instr.inputs, Interval(start, n))
  }

  /** Instructions i-1, i-2, ... up to the last PHI. */
  ghost function SweepInstrs(instrs: seq<Instr>, start: nat, s: Sweep, i: nat): Sweep
    requires i <= |instrs|
    decreases i
  {
    if i == 0 || instrs[i - 1].kind.Phi? then s
    else SweepInstrs(instrs, start, AtInstr(s, instrs[i - 1], start, Number(instrs, start, i - 1)), i - 1)
  }

  ghost function PhisOf(instrs: seq<Instr>): set<Value> {
    set i | 0 <= i < |instrs| && instrs[i].kind.Phi? :: instrs[i].id
  }

  /** The union of the successors' sets and what their PHIs read on the edge from `b`, as far as the
      successors have been swept. */
  ghost function LiveOut(f: Func, sets: map<Block, set<Value>>, b: Block): set<Value>
    requires b < |f.graph.succs|
  {
    (set s, v | s in f.graph.succs[b] && s in sets && v in sets[s] :: v) +
    (set s, i, p | s in f.graph.succs[b] && s in sets && s < |f.blocks| && 0 <= i < |f.blocks[s]|
                   && f.blocks[s][i].kind.Phi? && p in f.blocks[s][i].vars && p.1 == b :: p.0)
  }

  lemma InLiveOut(f: Func, sets: map<Block, set<Value>>, b: Block, v: Value)
    requires b < |f.graph.succs|
    ensures v in LiveOut(f, sets, b) <==>
      exists s :: s in f.graph.succs[b] && s in sets && (v in sets[s] || PhiReads(f, b, s, v))
  {
    if s :| s in f.graph.succs[b] && s in sets && PhiReads(f, b, s, v) {
      var i :| 0 <= i < |f.blocks[s]| && f.blocks[s][i].kind.Phi? && (v, b) in f.blocks[s][i].vars;
      var p := (v, b);
      assert p in f.blocks[s][i].vars && p.1 == b && p.0 == v;
    }
  }

  datatype Analysis = Analysis(iv: IntervalMap, sets: map<Block, set<Value>>)

  /** One block; `span` is the extent of the loop it heads, if it heads a reducible one. */
  ghost function SweepBlock(f: Func, b: Block, start: nat, span: Option<Interval>, st: Analysis): Analysis
    requires b < |f.blocks| == |f.graph.succs|
  {
    var instrs := f.blocks[b];
    var out := LiveOut(f, st.sets[b := {}], b);
    var entered := Sweep(ExtendAll(st.iv, out, Interval(start, BlockEnd(instrs, start))), out);
    var s := SweepInstrs(instrs, start, entered, |instrs|);
    var live := s.live - PhisOf(instrs);
    Analysis(if span.Some? then ExtendAll(s.iv, live, span.value) else s.iv, st.sets[b := live])
  }

  /** The spans of the loops, block by block along the order. */
  type Spans = seq<Option<Interval>>

  /** Blocks k-1, k-2, ... of the linear order. */
  ghost function SweepOrder(f: Func, order: seq<Block>, spans: Spans, st: Analysis, k: nat): Analysis
    requires k <= |order| == |spans| && |f.blocks| == |f.graph.succs| && forall b :: b in order ==> b < |f.blocks|
    decreases k
  {
    if k == 0 then st else
      assert order[k - 1] in order;
      SweepOrder(f, order, spans, SweepBlock(f, order[k - 1], Start(f, order, k - 1), spans[k - 1], st), k - 1)
  }

  /** Terminators define no value: their intervals are emptied at the end. */
  ghost function Emptied(f: Func, order: seq<Block>, iv: IntervalMap): IntervalMap {
    map v | v in iv :: if TerminatorIn(f, order, v) then Interval(iv[v].begin, iv[v].begin) else iv[v]
  }

  ghost predicate TerminatorIn(f: Func, order: seq<Block>, v: Value) {
    exists k, i: nat :: 0 <= k < |order| && IsInstr(f, order[k], i) && f.blocks[order[k]][i].kind.Terminator?
                        && f.blocks[order[k]][i].id == v
  }

  ghost function FinalIntervals(f: Func, order: seq<Block>, spans: Spans): IntervalMap
    requires |order| == |spans| && |f.blocks| == |f.graph.succs| && forall b :: b in order ==> b < |f.blocks|
  {
    Emptied(f, order, SweepOrder(f, order, spans, Analysis(map[], map[]), |order|).iv)
  }

  // ---- what the sweep never takes back ----

  /** The interval of `v` reaches from `a` or earlier to `n` or later. */
  ghost predicate Reaching(iv: IntervalMap, v: Value, a: nat, n: nat) {
    v in iv && iv[v].begin <= a && n <= iv[v].end
  }

  /** While the sweep stands at number `m`: all recorded intervals are non-empty and end there or later. */
  ghost predicate EndsFrom(iv: IntervalMap, m: nat) {
    forall v :: v in iv ==> iv[v].begin < iv[v].end && m <= iv[v].end
  }

  /** What is live where the sweep stands is open from the start of the block to `n` at least. */
  ghost predicate LiveIsOpen(s: Sweep, start: nat, n: nat) {
    forall v :: v in s.live ==> Reaching(s.iv, v, start, n)
  }

  lemma {:induction false} InputsKept(s: Sweep, inputs: seq<Value>, x: Interval)
    requires x.begin < x.end
    ensures var r := UseInputs(s, inputs, x);
      && r.live == s.live + Elems(inputs)
      && (forall u, a, n :: Reaching(s.iv, u, a, n) ==> Reaching(r.iv, u, a, n))
      && (forall u :: u in inputs ==> Reaching(r.iv, u, x.begin, x.end))
      && (EndsFrom(s.iv, x.end) ==> EndsFrom(r.iv, x.end))
      && r.iv.Keys == s.iv.Keys + Elems(inputs)
    decreases |inputs|
  {
    if inputs == [] {
      assert Elems(inputs) == {};
    } else {
      var s' := Sweep(Extend(s.iv, inputs[0], x), s.live + {inputs[0]});
      InputsKept(s', inputs[1..], x);
      assert inputs == [inputs[0]] + inputs[1..];
      assert Elems(inputs) == {inputs[0]} + Elems(inputs[1..]);
      assert Reaching(s'.iv, inputs[0], x.begin, x.end);
      assert forall u, a, n :: Reaching(s.iv, u, a, n) ==> Reaching(s'.iv, u, a, n);
    }
  }

  /** One instruction at number `n` keeps every extent that reaches below its number, makes its operands
      reach from the block start to `n`, and its own interval from `n` to beyond. */
  lemma InstrKept(s: Sweep, x: Instr, start: nat, n: nat, m: nat)
    requires start < n && n + LIVE_STEP <= m
    ensures var r := AtInstr(s, x, start, n);
      && r.live == s.live - {x.id} + Elems(x.inputs)
      && (forall u, a, e :: Reaching(s.iv, u, a, e) && n <= a ==> Reaching(r.iv, u, a, e))
      && (forall u :: u in x.inputs ==> Reaching(r.iv, u, start, n))
      && (EndsFrom(s.iv, m) ==> EndsFrom(r.iv, n) && Reaching(r.iv, x.id, n, n + LIVE_STEP))
      && (LiveIsOpen(s, start, m) ==> LiveIsOpen(r, start, n))
  {
    var own := if x.id in s.iv then Interval(n, s.iv[x.id].end) else Interval(n, n + LIVE_STEP);
    var s' := Sweep(s.iv[x.id := own], s.live - {x.id});
    InputsKept(s', x.inputs, Interval(start, n));
    assert forall u, a, e :: Reaching(s.iv, u, a, e) && n <= a ==> Reaching(s'.iv, u, a, e);
    if EndsFrom(s.iv, m) {
      assert Reaching(s'.iv, x.id, n, n + LIVE_STEP) && EndsFrom(s'.iv, n);
    }
    if LiveIsOpen(s, start, m) {
      assert forall u :: u in s'.live ==> Reaching(s'.iv, u, start, n);
    }
  }

  /** The largest live number among the first `i` instructions of a block, or its start. */
  ghost function Top(instrs: seq<Instr>, start: nat, i: nat): nat
    requires i <= |instrs|
  {
    start + LIVE_STEP * NonPhis(instrs, i)
  }

  lemma {:induction false} InstrsKept(instrs: seq<Instr>, start: nat, s: Sweep, i: nat, m: nat)
    requires i <= |instrs| && Top(instrs, start, i) + LIVE_STEP <= m
    ensures var r := SweepInstrs(instrs, start, s, i);
      && (forall u, a, e :: Reaching(s.iv, u, a, e) && Top(instrs, start, i) <= a ==> Reaching(r.iv, u, a, e))
      && (EndsFrom(s.iv, m) ==> EndsFrom(r.iv, start + 1))
      && (LiveIsOpen(s, start, m) ==> LiveIsOpen(r, start, start + 1))
    decreases i
  {
    hide Reaching, EndsFrom, LiveIsOpen, AtInstr;
    if i == 0 || instrs[i - 1].kind.Phi? {
      EndsFromWeaker(s, start, m, start + 1);
    } else {
      var n := Number(instrs, start, i - 1);
      InstrKept(s, instrs[i - 1], start, n, m);
      InstrsKept(instrs, start, AtInstr(s, instrs[i - 1], start, n), i - 1, n);
    }
  }

  lemma EndsFromWeaker(s: Sweep, start: nat, m: nat, m': nat)
    requires m' <= m
    ensures EndsFrom(s.iv, m) ==> EndsFrom(s.iv, m')
    ensures LiveIsOpen(s, start, m) ==> LiveIsOpen(s, start, m')
  {
  }

  /** Once instruction `t` has been swept its operands and its own value span its number for good. */
  lemma {:induction false} InstrSpans(instrs: seq<Instr>, start: nat, s: Sweep, i: nat, m: nat, t: nat)
    requires LeadingPhis(instrs) && t < i <= |instrs| && !instrs[t].kind.Phi? && Top(instrs, start, i) + LIVE_STEP <= m
    ensures var r, n := SweepInstrs(instrs, start, s, i), Number(instrs, start, t);
      && (forall u :: u in instrs[t].inputs ==> Reaching(r.iv, u, n - 1, n))
      && (EndsFrom(s.iv, m) ==> Reaching(r.iv, instrs[t].id, n, n + LIVE_STEP))
    decreases i
  {
    hide EndsFrom, AtInstr;
    var n := Number(instrs, start, i - 1);
    var s' := AtInstr(s, instrs[i - 1], start, n);
    InstrKept(s, instrs[i - 1], start, n, m);
    if t == i - 1 {
      InstrsKept(instrs, start, s', i - 1, n);
      assert forall u :: u in instrs[t].inputs ==> Reaching(s'.iv, u, n - 1, n);
    } else {
      InstrSpans(instrs, start, s', i - 1, n, t);
    }
  }

  /** Whatever is live just before position `t` spans its number for good. */
  lemma {:induction false} LiveSpans(instrs: seq<Instr>, out: set<Value>, start: nat, s: Sweep, i: nat, t: nat,
                                     v: Value)
    requires i <= |instrs| && LeadingPhis(instrs) && t <= i && (t < |instrs| ==> !instrs[t].kind.Phi?)
    requires forall u :: u in s.live <==> LocalLive(instrs, out, i, u)
    requires LiveIsOpen(s, start, NumberAt(instrs, start, i)) && LocalLive(instrs, out, t, v)
    requires i < |instrs| ==> !instrs[i].kind.Phi?
    ensures var n := NumberAt(instrs, start, t);
      Reaching(SweepInstrs(instrs, start, s, i).iv, v, n - 1, n)
    decreases i
  {
    hide AtInstr, BlockEnd;
    NumbersBefore(instrs, start, i);
    var m := NumberAt(instrs, start, i);
    if t == i {
      assert Reaching(s.iv, v, start, m);
      InstrsKept(instrs, start, s, i, m);
    } else {
      var n := Number(instrs, start, i - 1);
      var s' := AtInstr(s, instrs[i - 1], start, n);
      InstrKept(s, instrs[i - 1], start, n, m);
      LiveSpans(instrs, out, start, s', i - 1, t, v);
    }
  }

  /** The numbers of a block lie beyond its start, and go up. */
  lemma NumbersBefore(instrs: seq<Instr>, start: nat, i: nat)
    requires i <= |instrs| && LeadingPhis(instrs) && (i < |instrs| ==> !instrs[i].kind.Phi?)
    ensures start < NumberAt(instrs, start, i) && Top(instrs, start, i) + LIVE_STEP <= NumberAt(instrs, start, i)
  {
    if i < |instrs| {
      NumbersIncrease(instrs, start, i, i);
    }
  }

  /** The live set that is left after a block is what is live at its start. */
  lemma {:induction false} LiveIn(instrs: seq<Instr>, out: set<Value>, start: nat, s: Sweep, i: nat)
    requires i <= |instrs| && LeadingPhis(instrs)
    requires forall u :: u in s.live <==> LocalLive(instrs, out, i, u)
    requires forall j :: i <= j < |instrs| ==> !instrs[j].kind.Phi?
    ensures forall u :: u in SweepInstrs(instrs, start, s, i).live - PhisOf(instrs) <==> LocalLive(instrs, out, 0, u)
    decreases i
  {
    if i == 0 || instrs[i - 1].kind.Phi? {
      forall u ensures u in s.live - PhisOf(instrs) <==> LocalLive(instrs, out, 0, u) {
        PhiPrefix(instrs, out, i, u);
      }
    } else {
      var n := Number(instrs, start, i - 1);
      var s' := AtInstr(s, instrs[i - 1], start, n);
      AtInstrLive(s, instrs[i - 1], start, n);
      LiveIn(instrs, out, start, s', i - 1);
    }
  }

  lemma {:induction false} UseInputsLive(s: Sweep, inputs: seq<Value>, x: Interval)
    ensures UseInputs(s, inputs, x).live == s.live + Elems(inputs)
    decreases |inputs|
  {
    if inputs != [] {
      UseInputsLive(Sweep(Extend(s.iv, inputs[0], x), s.live + {inputs[0]}), inputs[1..], x);
      assert inputs == [inputs[0]] + inputs[1..];
    }
  }

  lemma AtInstrLive(s: Sweep, x: Instr, start: nat, n: nat)
    ensures AtInstr(s, x, start, n).live == s.live - {x.id} + Elems(x.inputs)
  {
    var own := if x.id in s.iv then Interval(n, s.iv[x.id].end) else Interval(n, n + LIVE_STEP);
    UseInputsLive(Sweep(s.iv[x.id := own], s.live - {x.id}), x.inputs, Interval(start, n));
  }

  /** Across the leading PHIs nothing happens but their definitions. */
  lemma {:induction false} PhiPrefix(instrs: seq<Instr>, out: set<Value>, i: nat, v: Value)
    requires i <= |instrs| && (i == 0 || instrs[i - 1].kind.Phi?)
    requires LeadingPhis(instrs) && forall j :: i <= j < |instrs| ==> !instrs[j].kind.Phi?
    ensures LocalLive(instrs, out, 0, v) <==> LocalLive(instrs, out, i, v) && v !in PhisOf(instrs)
  {
    PhiSteps(instrs, out, i, v);
    assert v in PhisOf(instrs) <==> exists j :: 0 <= j < i && instrs[j].id == v;
  }

  lemma {:induction false} PhiSteps(instrs: seq<Instr>, out: set<Value>, i: nat, v: Value)
    requires i <= |instrs| && forall j :: 0 <= j < i ==> instrs[j].kind.Phi?
    ensures LocalLive(instrs, out, 0, v) <==>
      LocalLive(instrs, out, i, v) && !exists j :: 0 <= j < i && instrs[j].id == v
  {
    if i > 0 {
      PhiSteps(instrs, out, i - 1, v);
    }
  }

  lemma ExtendKept(iv: IntervalMap, s: set<Value>, x: Interval)
    ensures var r := ExtendAll(iv, s, x);
      && (forall u, a, n :: Reaching(iv, u, a, n) ==> Reaching(r, u, a, n))
      && (forall u :: u in s ==> Reaching(r, u, x.begin, x.end))
      && (forall m: nat :: EndsFrom(iv, m) && (s <= iv.Keys || (x.begin < x.end && m <= x.end)) ==> EndsFrom(r, m))
  {
  }

  /** The sweep as it enters block `b`: everything live on the way out is open for the whole block. */
  ghost function Entered(f: Func, b: Block, start: nat, st: Analysis): Sweep
    requires b < |f.blocks| == |f.graph.succs|
  {
    var out := LiveOut(f, st.sets[b := {}], b);
    Sweep(ExtendAll(st.iv, out, Interval(start, BlockEnd(f.blocks[b], start))), out)
  }

  lemma BlockKept(f: Func, b: Block, start: nat, span: Option<Interval>, st: Analysis)
    requires b < |f.blocks| == |f.graph.succs| && EndsFrom(st.iv, BlockEnd(f.blocks[b], start))
    ensures var r := SweepBlock(f, b, start, span, st);
      && EndsFrom(r.iv, start)
      && (forall u, a, n :: Reaching(st.iv, u, a, n) && BlockEnd(f.blocks[b], start) <= a ==> Reaching(r.iv, u, a, n))
  {
    hide EndsFrom, Reaching, LiveOut, SweepInstrs, ExtendAll, PhisOf;
    var instrs, s := f.blocks[b], Entered(f, b, start, st);
    var e := BlockEnd(instrs, start);
    ExtendKept(st.iv, s.live, Interval(start, e));
    InstrsKept(instrs, start, s, |instrs|, e);
    var r := SweepInstrs(instrs, start, s, |instrs|);
    OpenIsRecorded(r, start, start + 1);
    EndsFromWeaker(r, start, start + 1, start);
    if span.Some? {
      ExtendKept(r.iv, r.live - PhisOf(instrs), span.value);
    }
  }

  lemma OpenIsRecorded(s: Sweep, start: nat, n: nat)
    requires LiveIsOpen(s, start, n)
    ensures s.live <= s.iv.Keys
  {
  }

  /** In every graph, loops included: after its block, an instruction's operands and its own value span
      its number. */
  lemma BlockSpans(f: Func, b: Block, start: nat, span: Option<Interval>, st: Analysis, t: nat)
    requires b < |f.blocks| == |f.graph.succs| && EndsFrom(st.iv, BlockEnd(f.blocks[b], start))
    requires LeadingPhis(f.blocks[b]) && t < |f.blocks[b]| && !f.blocks[b][t].kind.Phi?
    ensures var r, n := SweepBlock(f, b, start, span, st), Number(f.blocks[b], start, t);
      && (forall u :: u in f.blocks[b][t].inputs ==> Reaching(r.iv, u, n - 1, n))
      && Reaching(r.iv, f.blocks[b][t].id, n, n + LIVE_STEP)
  {
    hide EndsFrom, Reaching, LiveOut, SweepInstrs, ExtendAll, PhisOf;
    var instrs, s := f.blocks[b], Entered(f, b, start, st);
    ExtendKept(st.iv, s.live, Interval(start, BlockEnd(instrs, start)));
    InstrSpans(instrs, start, s, |instrs|, BlockEnd(instrs, start), t);
    var r := SweepInstrs(instrs, start, s, |instrs|);
    if span.Some? {
      ExtendKept(r.iv, r.live - PhisOf(instrs), span.value);
    }
  }

  /** The set stored for a block is what is live at its start, given what leaves it. */
  lemma BlockSets(f: Func, b: Block, start: nat, span: Option<Interval>, st: Analysis)
    requires b < |f.blocks| == |f.graph.succs| && LeadingPhis(f.blocks[b])
    ensures var r := SweepBlock(f, b, start, span, st);
      && b in r.sets && r.sets == st.sets[b := r.sets[b]]
      && forall u :: u in r.sets[b] <==> LocalLive(f.blocks[b], LiveOut(f, st.sets[b := {}], b), 0, u)
  {
    hide LiveOut, SweepInstrs, ExtendAll, PhisOf, LeadingPhis;
    var s := Entered(f, b, start, st);
    LiveIn(f.blocks[b], s.live, start, s, |f.blocks[b]|);
  }

  /** If what leaves the block is right, the set stored for it is right. */
  lemma BlockExact(f: Func, b: Block, start: nat, span: Option<Interval>, st: Analysis)
    requires b < |f.blocks| == |f.graph.succs| && LeadingPhis(f.blocks[b])
    requires forall u :: u in LiveOut(f, st.sets[b := {}], b) <==> LiveBefore(f, b, |f.blocks[b]|, u)
    ensures var r := SweepBlock(f, b, start, span, st);
      && b in r.sets && r.sets == st.sets[b := r.sets[b]] && forall u :: u in r.sets[b] <==> LiveBefore(f, b, 0, u)
  {
    hide LiveOut, SweepBlock, LiveBefore, LeadingPhis;
    BlockSets(f, b, start, span, st);
    var r, out := SweepBlock(f, b, start, span, st), LiveOut(f, st.sets[b := {}], b);
    forall u ensures u in r.sets[b] <==> LiveBefore(f, b, 0, u) {
      LocalIsLive(f, b, out, 0, u);
    }
  }

  /** What is live at a position of the block spans its number, and what is live into a header spans its loop. */
  lemma BlockLiveSpans(f: Func, b: Block, start: nat, span: Option<Interval>, st: Analysis, t: nat, v: Value)
    requires b < |f.blocks| == |f.graph.succs| && LeadingPhis(f.blocks[b])
    requires t <= |f.blocks[b]| && (t < |f.blocks[b]| ==> !f.blocks[b][t].kind.Phi?)
    requires LocalLive(f.blocks[b], LiveOut(f, st.sets[b := {}], b), t, v)
    ensures var r, n := SweepBlock(f, b, start, span, st), NumberAt(f.blocks[b], start, t);
      Reaching(r.iv, v, n - 1, n)
  {
    hide Reaching, LiveOut, SweepInstrs, ExtendAll, PhisOf;
    var instrs, s := f.blocks[b], Entered(f, b, start, st);
    ExtendKept(st.iv, s.live, Interval(start, BlockEnd(instrs, start)));
    LiveSpans(instrs, s.live, start, s, |instrs|, t, v);
    var r := SweepInstrs(instrs, start, s, |instrs|);
    if span.Some? {
      ExtendKept(r.iv, r.live - PhisOf(instrs), span.value);
    }
  }

  lemma HeaderSpans(f: Func, b: Block, start: nat, span: Interval, st: Analysis, v: Value)
    requires b < |f.blocks| == |f.graph.succs|
    ensures var r := SweepBlock(f, b, start, Some(span), st);
      b in r.sets && (v in r.sets[b] ==> Reaching(r.iv, v, span.begin, span.end))
  {
    hide Reaching, LiveOut, SweepInstrs, ExtendAll, PhisOf;
    var instrs, s := f.blocks[b], Entered(f, b, start, st);
    var r := SweepInstrs(instrs, start, s, |instrs|);
    ExtendKept(r.iv, r.live - PhisOf(instrs), span);
  }

  // ---- the whole order ----

  ghost predicate OrderFits(f: Func, order: seq<Block>, spans: Spans) {
    && |order| == |spans| && |f.blocks| == |f.graph.succs| && (forall b :: b in order ==> b < |f.blocks|)
    && (forall b: Block :: b < |f.blocks| ==> LeadingPhis(f.blocks[b]))
  }

  lemma {:induction false} OrderKept(f: Func, order: seq<Block>, spans: Spans, st: Analysis, k: nat)
    requires OrderFits(f, order, spans) && k <= |order| && EndsFrom(st.iv, Start(f, order, k))
    ensures var r := SweepOrder(f, order, spans, st, k);
      && EndsFrom(r.iv, 0)
      && (forall u, a, n :: Reaching(st.iv, u, a, n) && Start(f, order, k) <= a ==> Reaching(r.iv, u, a, n))
    decreases k
  {
    hide EndsFrom, Reaching, SweepBlock;
    if k > 0 {
      assert order[k - 1] in order;
      var start := Start(f, order, k - 1);
      BlockKept(f, order[k - 1], start, spans[k - 1], st);
      OrderKept(f, order, spans, SweepBlock(f, order[k - 1], start, spans[k - 1], st), k - 1);
    }
  }

  /** In every graph: each non-PHI instruction's operands and its own value span its number at the end. */
  lemma {:induction false} OrderSpans(f: Func, order: seq<Block>, spans: Spans, st: Analysis, k: nat, j: nat, t: nat)
    requires OrderFits(f, order, spans) && j < k <= |order| && EndsFrom(st.iv, Start(f, order, k))
    requires order[j] < |f.blocks| && t < |f.blocks[order[j]]| && !f.blocks[order[j]][t].kind.Phi?
    ensures var r, x := SweepOrder(f, order, spans, st, k), f.blocks[order[j]][t];
      var n := Number(f.blocks[order[j]], Start(f, order, j), t);
      && (forall u :: u in x.inputs ==> Reaching(r.iv, u, n - 1, n))
      && Reaching(r.iv, x.id, n, n + LIVE_STEP)
    decreases k
  {
    hide EndsFrom, Reaching, SweepBlock;
    assert order[k - 1] in order;
    var start := Start(f, order, k - 1);
    var st' := SweepBlock(f, order[k - 1], start, spans[k - 1], st);
    BlockKept(f, order[k - 1], start, spans[k - 1], st);
    if j == k - 1 {
      BlockSpans(f, order[j], start, spans[j], st, t);
      NumbersIncrease(f.blocks[order[j]], start, t, t);
      OrderKept(f, order, spans, st', j);
    } else {
      OrderSpans(f, order, spans, st', k - 1, j, t);
    }
  }

  // ---- acyclic graphs: the sweep is exact ----

  /** Every edge out of a listed block leads to a block listed later. */
  ghost predicate Topological(f: Func, order: seq<Block>) {
    && Distinct(order)
    && forall i, s: Block :: 0 <= i < |order| && Edge(f.graph, order[i], s) ==> ListedAfter(order, i, s)
  }

  ghost predicate ListedAfter(order: seq<Block>, i: nat, s: Block) {
    exists j :: i < j < |order| && order[j] == s
  }

  /** The sets stored so far are those of the blocks from `k` on, and they are right. */
  ghost predicate SetsExact(f: Func, order: seq<Block>, sets: map<Block, set<Value>>, k: nat)
    requires k <= |order|
  {
    && (forall j :: k <= j < |order| ==> order[j] in sets)
    && (forall b :: b in sets ==> SetExact(f, sets, b))
  }

  ghost predicate SetExact(f: Func, sets: map<Block, set<Value>>, b: Block)
    requires b in sets
  {
    forall v :: v in sets[b] <==> LiveBefore(f, b, 0, v)
  }

  lemma OutExact(f: Func, order: seq<Block>, sets: map<Block, set<Value>>, k: nat)
    requires Topological(f, order) && k < |order| && SetsExact(f, order, sets, k + 1)
    requires order[k] < |f.blocks| == |f.graph.succs| && forall b :: b in order ==> b < |f.blocks|
    ensures forall u :: u in LiveOut(f, sets[order[k] := {}], order[k]) <==>
      LiveBefore(f, order[k], |f.blocks[order[k]]|, u)
  {
    hide LiveOut, LiveBefore, PhiReads;
    var b, sets' := order[k], sets[order[k] := {}];
    forall s: Block | Edge(f.graph, b, s)
      ensures s in sets' && s in sets && s != b && sets'[s] == sets[s] && s < |f.blocks|
    {
      assert ListedAfter(order, k, s);
      var j :| k < j < |order| && order[j] == s;
      assert order[j] in order;
    }
    forall u ensures u in LiveOut(f, sets', b) <==> LiveBefore(f, b, |f.blocks[b]|, u) {
      InLiveOut(f, sets', b, u);
      LiveAtEnd(f, b, u);
      forall s: Block | Edge(f.graph, b, s) ensures u in sets'[s] <==> LiveBefore(f, s, 0, u) {
        assert SetExact(f, sets, s);
      }
    }
  }

  lemma SetsExactStep(f: Func, order: seq<Block>, spans: Spans, st: Analysis, k: nat)
    requires OrderFits(f, order, spans) && Topological(f, order)
    requires k < |order| && order[k] < |f.blocks| && SetsExact(f, order, st.sets, k + 1)
    ensures SetsExact(f, order, SweepBlock(f, order[k], Start(f, order, k), spans[k], st).sets, k)
  {
    hide LiveOut, LiveBefore, SweepBlock, Topological;
    OutExact(f, order, st.sets, k);
    BlockExact(f, order[k], Start(f, order, k), spans[k], st);
    var sets' := SweepBlock(f, order[k], Start(f, order, k), spans[k], st).sets;
    forall b | b in sets' ensures SetExact(f, sets', b) {
      assert b != order[k] ==> SetExact(f, st.sets, b);
    }
  }

  lemma {:induction false} OrderExact(f: Func, order: seq<Block>, spans: Spans, st: Analysis, k: nat)
    requires OrderFits(f, order, spans) && Topological(f, order)
    requires k <= |order| && SetsExact(f, order, st.sets, k)
    ensures SetsExact(f, order, SweepOrder(f, order, spans, st, k).sets, 0)
    decreases k
  {
    hide SetsExact, SweepBlock, Topological;
    if k > 0 {
      assert order[k - 1] in order;
      SetsExactStep(f, order, spans, st, k - 1);
      OrderExact(f, order, spans, SweepBlock(f, order[k - 1], Start(f, order, k - 1), spans[k - 1], st), k - 1);
    }
  }

  lemma EmptyStart(f: Func, order: seq<Block>, m: nat)
    ensures EndsFrom(map[], m) && SetsExact(f, order, map[], |order|)
  {
  }

  // ---- results ----

  /** Exactness on acyclic graphs: the set stored for each block holds just the values that are live at
      its start, in the sense of paths. */
  lemma LiveSetsExact(f: Func, order: seq<Block>, spans: Spans, b: Block, v: Value)
    requires OrderFits(f, order, spans) && Topological(f, order) && b in order
    ensures var sets := SweepOrder(f, order, spans, Analysis(map[], map[]), |order|).sets;
      b in sets && (v in sets[b] <==> LiveBefore(f, b, 0, v))
  {
    EmptyStart(f, order, 0);
    OrderExact(f, order, spans, Analysis(map[], map[]), |order|);
    var sets := SweepOrder(f, order, spans, Analysis(map[], map[]), |order|).sets;
    assert SetExact(f, sets, b);
  }

  /** Bounds on every graph, loops included: the operands of a non-PHI instruction numbered n begin before n
      and end at n or later, and the value it defines, if any, begins at n or before and ends at the next number
      or later. */
  lemma IntervalBounds(f: Func, order: seq<Block>, spans: Spans, j: nat, t: nat)
    requires OrderFits(f, order, spans)
    requires j < |order| && order[j] < |f.blocks| && t < |f.blocks[order[j]]| && !f.blocks[order[j]][t].kind.Phi?
    ensures var iv, x := FinalIntervals(f, order, spans), f.blocks[order[j]][t];
      var n := Number(f.blocks[order[j]], Start(f, order, j), t);
      && (forall u :: u in x.inputs && !TerminatorIn(f, order, u) ==> u in iv && iv[u].begin < n <= iv[u].end)
      && (!TerminatorIn(f, order, x.id) ==> x.id in iv && iv[x.id].begin <= n && n + LIVE_STEP <= iv[x.id].end)
  {
    hide EndsFrom, SetsExact, TerminatorIn, LeadingPhis, SweepOrder, Number, Start;
    EmptyStart(f, order, Start(f, order, |order|));
    NumbersIncrease(f.blocks[order[j]], Start(f, order, j), t, t);
    OrderSpans(f, order, spans, Analysis(map[], map[]), |order|, j, t);
  }

  /** All intervals are well formed, and only those of terminators are empty. */
  lemma IntervalsWellFormed(f: Func, order: seq<Block>, spans: Spans)
    requires OrderFits(f, order, spans)
    ensures var iv := FinalIntervals(f, order, spans);
      Intervals.WellFormed(iv) && forall v :: v in iv ==> (iv[v].begin == iv[v].end <==> TerminatorIn(f, order, v))
  {
    hide SetsExact, TerminatorIn, LeadingPhis;
    EmptyStart(f, order, Start(f, order, |order|));
    OrderKept(f, order, spans, Analysis(map[], map[]), |order|);
  }

  /** The blocks tile the number line in linear order: each starts where the previous one ends. */
  lemma BlocksTile(f: Func, order: seq<Block>, k: nat)
    requires k < |order| && forall b :: b in order ==> b < |f.blocks|
    ensures Start(f, order, 0) == 0 && order[k] in order
    ensures Start(f, order, k) < BlockEnd(f.blocks[order[k]], Start(f, order, k)) == Start(f, order, k + 1)
  {
    assert order[k] in order;
  }

  /** Live numbers of non-PHI instructions strictly increase along the linear order. */
  lemma NumbersFollowOrder(f: Func, order: seq<Block>, j: nat, t: nat, k: nat, u: nat)
    requires j <= k < |order| && forall b :: b in order ==> b < |f.blocks|
    requires order[j] < |f.blocks| && order[k] < |f.blocks|
    requires t < |f.blocks[order[j]]| && u < |f.blocks[order[k]]| && (j == k ==> t < u)
    requires !f.blocks[order[j]][t].kind.Phi? && !f.blocks[order[k]][u].kind.Phi?
    ensures Number(f.blocks[order[j]], Start(f, order, j), t) < Number(f.blocks[order[k]], Start(f, order, k), u)
  {
    NumbersIncrease(f.blocks[order[j]], Start(f, order, j), t, t);
    if j == k {
      NumbersIncrease(f.blocks[order[j]], Start(f, order, j), t, u);
    } else {
      StartsIncrease(f, order, j, k);
      NumbersIncrease(f.blocks[order[k]], Start(f, order, k), u, u);
    }
  }
}
