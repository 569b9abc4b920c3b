/** Where every interval begins and ends, on every function, loops included. */
module LiveExact {
  import opened SetFacts
  import opened Intervals
  import opened Cfg
  import opened Liveness
  import opened LiveLoops
  import opened LiveAhead

  /** Recorded extents begin where their header does. */
  ghost predicate SpansStart(f: Func, order: seq<Block>, spans: Spans)
    requires OrderFits(f, order, spans)
  {
    forall h :: 0 <= h < |order| && spans[h].Some? ==> spans[h].value.begin == Start(f, order, h)
  }

  /** `v` is seen at a position numbered `n` or more. */
  ghost predicate SeenFrom(f: Func, order: seq<Block>, spans: Spans, j: nat, t: nat, v: Value, n: nat)
    requires OrderFits(f, order, spans)
  {
    && IsPosition(f, order, j, t) && SeenLive(f, order, spans, j, t, v)
    && n <= NumberAt(f.blocks[order[j]], Start(f, order, j), t)
  }

  /** Instruction `t` of block number `j` defines `v`, at number `d`. */
  ghost predicate DefinedAt(f: Func, order: seq<Block>, j: nat, t: nat, v: Value, d: nat)
    requires forall b :: b in order ==> b < |f.blocks|
  {
    && IsPosition(f, order, j, t) && t < |f.blocks[order[j]]| && f.blocks[order[j]][t].id == v
    && d == Number(f.blocks[order[j]], Start(f, order, j), t)
  }

  /** `v` is live into the header of a loop with an extent up to `n` or beyond. */
  ghost predicate AroundTo(f: Func, order: seq<Block>, spans: Spans, h: nat, v: Value, n: nat)
    requires OrderFits(f, order, spans) && Distinct(order)
  {
    h < |order| && v in SetOf(f, order, spans, h) && spans[h].Some? && n <= spans[h].value.end
  }

  /** `v` is live past the PHIs of block number `j`, which starts before number `n`. */
  ghost predicate LiveFrom(f: Func, order: seq<Block>, spans: Spans, j: nat, t: nat, v: Value, n: nat)
    requires OrderFits(f, order, spans)
  {
    && IsPosition(f, order, j, t) && (t == 0 || f.blocks[order[j]][t - 1].kind.Phi?)
    && SeenLive(f, order, spans, j, t, v) && Start(f, order, j) < n
  }

  /** What can make an interval begin before `n`. */
  ghost predicate BeginsBefore(f: Func, order: seq<Block>, spans: Spans, v: Value, n: nat)
    requires OrderFits(f, order, spans)
  {
    || (exists j: nat, t: nat :: LiveFrom(f, order, spans, j, t, v, n))
    || (exists j: nat, t: nat, d: nat :: DefinedAt(f, order, j, t, v, d) && d < n)
  }

  /** What can make an interval end at `n` or later. */
  ghost predicate EndsAfter(f: Func, order: seq<Block>, spans: Spans, v: Value, n: nat)
    requires OrderFits(f, order, spans) && Distinct(order)
  {
    || (exists j: nat, t: nat :: SeenFrom(f, order, spans, j, t, v, n))
    || (exists j: nat, t: nat, d: nat :: DefinedAt(f, order, j, t, v, d) && n <= d + LIVE_STEP)
    || (exists h: nat :: AroundTo(f, order, spans, h, v, n))
  }

  // ---- nothing else widens an interval ----

  ghost predicate EndsFor(f: Func, order: seq<Block>, spans: Spans, iv: IntervalMap)
    requires OrderFits(f, order, spans) && Distinct(order)
  {
    forall v :: v in iv ==> EndsAfter(f, order, spans, v, iv[v].end)
  }

  /** Each begin has its reason, or is the start of the current block and the value is live where the sweep stands. */
  ghost predicate BeginsFor(f: Func, order: seq<Block>, spans: Spans, start: nat, s: Sweep)
    requires OrderFits(f, order, spans)
  {
    forall v :: v in s.iv ==>
      BeginsBefore(f, order, spans, v, s.iv[v].begin + 1) || (v in s.live && start <= s.iv[v].begin)
  }

  lemma {:induction false} InputsFor(f: Func, order: seq<Block>, spans: Spans, s: Sweep, inputs: seq<Value>,
                                     x: Interval)
    requires OrderFits(f, order, spans) && Distinct(order)
    requires EndsFor(f, order, spans, s.iv) && BeginsFor(f, order, spans, x.begin, s)
    requires forall v :: v in inputs ==> EndsAfter(f, order, spans, v, x.end)
    ensures var r := UseInputs(s, inputs, x);
      EndsFor(f, order, spans, r.iv) && BeginsFor(f, order, spans, x.begin, r)
    decreases |inputs|
  {
    hide OrderFits, EndsAfter, BeginsBefore;
    if inputs != [] {
      var s' := Sweep(Extend(s.iv, inputs[0], x), s.live + {inputs[0]});
      assert inputs[0] in inputs && forall v :: v in inputs[1..] ==> v in inputs;
      InputsFor(f, order, spans, s', inputs[1..], x);
    }
  }

  lemma InstrFor(f: Func, order: seq<Block>, spans: Spans, j: nat, t: nat, s: Sweep)
    requires OrderFits(f, order, spans) && Distinct(order) && IsPosition(f, order, j, t) && t < |f.blocks[order[j]]|
    requires EndsFor(f, order, spans, s.iv) && BeginsFor(f, order, spans, Start(f, order, j), s)
    ensures var x, start := f.blocks[order[j]][t], Start(f, order, j);
      var r := AtInstr(s, x, start, Number(f.blocks[order[j]], start, t));
      EndsFor(f, order, spans, r.iv) && BeginsFor(f, order, spans, start, r)
  {
    hide EndsFor, BeginsFor, EndsAfter, BeginsBefore, LeadingPhis, UseInputs, Start, Number;
    var x, start := f.blocks[order[j]][t], Start(f, order, j);
    var n := Number(f.blocks[order[j]], start, t);
    var own := if x.id in s.iv then Interval(n, s.iv[x.id].end) else Interval(n, n + LIVE_STEP);
    var s' := Sweep(s.iv[x.id := own], s.live - {x.id});
    DefinitionFor(f, order, spans, j, t, n);
    OwnFor(f, order, spans, start, s, s', x.id);
    forall v | v in x.inputs ensures EndsAfter(f, order, spans, v, n) {
      ReadFor(f, order, spans, j, t, v);
    }
    InputsFor(f, order, spans, s', x.inputs, Interval(start, n));
  }

  lemma OwnFor(f: Func, order: seq<Block>, spans: Spans, start: nat, s: Sweep, s': Sweep, x: Value)
    requires OrderFits(f, order, spans) && Distinct(order)
    requires EndsFor(f, order, spans, s.iv) && BeginsFor(f, order, spans, start, s)
    requires x in s'.iv && s'.iv == s.iv[x := s'.iv[x]] && s'.live == s.live - {x}
    requires BeginsBefore(f, order, spans, x, s'.iv[x].begin + 1)
    requires (x in s.iv && s'.iv[x].end == s.iv[x].end) || EndsAfter(f, order, spans, x, s'.iv[x].end)
    ensures EndsFor(f, order, spans, s'.iv) && BeginsFor(f, order, spans, start, s')
  {
    hide OrderFits, EndsAfter, BeginsBefore;
  }

  lemma DefinitionFor(f: Func, order: seq<Block>, spans: Spans, j: nat, t: nat, d: nat)
    requires OrderFits(f, order, spans) && Distinct(order) && IsPosition(f, order, j, t) && t < |f.blocks[order[j]]|
    requires d == Number(f.blocks[order[j]], Start(f, order, j), t)
    ensures var v := f.blocks[order[j]][t].id;
      BeginsBefore(f, order, spans, v, d + 1) && EndsAfter(f, order, spans, v, d + LIVE_STEP)
  {
    hide Start, Number;
    assert DefinedAt(f, order, j, t, f.blocks[order[j]][t].id, d);
  }

  lemma ReadFor(f: Func, order: seq<Block>, spans: Spans, j: nat, t: nat, v: Value)
    requires OrderFits(f, order, spans) && Distinct(order) && IsPosition(f, order, j, t) && t < |f.blocks[order[j]]|
    requires v in f.blocks[order[j]][t].inputs
    ensures EndsAfter(f, order, spans, v, Number(f.blocks[order[j]], Start(f, order, j), t))
  {
    hide Start, Number, Out;
    assert SeenFrom(f, order, spans, j, t, v, NumberAt(f.blocks[order[j]], Start(f, order, j), t));
  }

  lemma {:induction false} InstrsFor(f: Func, order: seq<Block>, spans: Spans, j: nat, s: Sweep, i: nat)
    requires OrderFits(f, order, spans) && Distinct(order) && j < |order| && order[j] < |f.blocks|
    requires i <= |f.blocks[order[j]]|
    requires EndsFor(f, order, spans, s.iv) && BeginsFor(f, order, spans, Start(f, order, j), s)
    ensures var r := SweepInstrs(f.blocks[order[j]], Start(f, order, j), s, i);
      EndsFor(f, order, spans, r.iv) && BeginsFor(f, order, spans, Start(f, order, j), r)
    decreases i
  {
    hide EndsFor, BeginsFor, AtInstr, Start, Number, LeadingPhis;
    var instrs, start := f.blocks[order[j]], Start(f, order, j);
    if i > 0 && !instrs[i - 1].kind.Phi? {
      InstrFor(f, order, spans, j, i - 1, s);
      InstrsFor(f, order, spans, j, AtInstr(s, instrs[i - 1], start, Number(instrs, start, i - 1)), i - 1);
    }
  }

  /** The sweep of a block stops past its PHIs, with the live set of that position. */
  lemma {:induction false} StopsPastPhis(instrs: seq<Instr>, out: set<Value>, start: nat, s: Sweep, i: nat)
    returns (p: nat)
    requires i <= |instrs| && forall u :: u in s.live <==> LocalLive(instrs, out, i, u)
    requires i < |instrs| ==> !instrs[i].kind.Phi?
    ensures p <= |instrs| && (p == 0 || instrs[p - 1].kind.Phi?) && (p < |instrs| ==> !instrs[p].kind.Phi?)
    ensures forall u :: u in SweepInstrs(instrs, start, s, i).live <==> LocalLive(instrs, out, p, u)
    decreases i
  {
    hide AtInstr, Number;
    if i == 0 || instrs[i - 1].kind.Phi? {
      p := i;
    } else {
      var n := Number(instrs, start, i - 1);
      AtInstrLive(s, instrs[i - 1], start, n);
      p := StopsPastPhis(instrs, out, start, AtInstr(s, instrs[i - 1], start, n), i - 1);
    }
  }

  lemma ExtendFor(f: Func, order: seq<Block>, spans: Spans, start: nat, iv: IntervalMap, live: set<Value>,
                  live': set<Value>, x: Interval)
    requires OrderFits(f, order, spans) && Distinct(order) && x.begin == start
    requires EndsFor(f, order, spans, iv) && BeginsFor(f, order, spans, start, Sweep(iv, live))
    requires live <= live' && forall v :: v in live' ==> EndsAfter(f, order, spans, v, x.end)
    ensures var r := ExtendAll(iv, live', x);
      EndsFor(f, order, spans, r) && BeginsFor(f, order, spans, start, Sweep(r, live'))
  {
    hide OrderFits, EndsAfter, BeginsBefore;
  }

  /** Between blocks every begin has its reason. */
  ghost predicate Reasoned(f: Func, order: seq<Block>, spans: Spans, iv: IntervalMap)
    requires OrderFits(f, order, spans) && Distinct(order)
  {
    EndsFor(f, order, spans, iv) && forall v :: v in iv ==> BeginsBefore(f, order, spans, v, iv[v].begin + 1)
  }

  lemma EnterFor(f: Func, order: seq<Block>, spans: Spans, k: nat)
    requires OrderFits(f, order, spans) && Distinct(order) && k < |order| && order[k] < |f.blocks|
    requires Reasoned(f, order, spans, After(f, order, spans, k + 1).iv)
    ensures var s := Entered(f, order[k], Start(f, order, k), After(f, order, spans, k + 1));
      && s.live == Out(f, order, spans, k)
      && EndsFor(f, order, spans, s.iv) && BeginsFor(f, order, spans, Start(f, order, k), s)
  {
    hide EndsAfter, BeginsBefore, LeadingPhis, After, LiveOut, Start, EndsFor, BlockEnd;
    var instrs, start := f.blocks[order[k]], Start(f, order, k);
    var st, out := After(f, order, spans, k + 1), Out(f, order, spans, k);
    forall v | v in out ensures EndsAfter(f, order, spans, v, BlockEnd(instrs, start)) {
      LeavesFor(f, order, spans, k, v);
    }
    ExtendFor(f, order, spans, start, st.iv, {}, out, Interval(start, BlockEnd(instrs, start)));
  }

  lemma LeavesFor(f: Func, order: seq<Block>, spans: Spans, k: nat, v: Value)
    requires OrderFits(f, order, spans) && Distinct(order) && k < |order| && order[k] < |f.blocks|
    requires v in Out(f, order, spans, k)
    ensures EndsAfter(f, order, spans, v, BlockEnd(f.blocks[order[k]], Start(f, order, k)))
  {
    hide Out, Start, BlockEnd;
    var n := |f.blocks[order[k]]|;
    assert SeenFrom(f, order, spans, k, n, v, NumberAt(f.blocks[order[k]], Start(f, order, k), n));
  }

  /** Where the sweep of block number `k` stops, what is live there is a reason to begin at the start. */
  lemma StopFor(f: Func, order: seq<Block>, spans: Spans, k: nat, p: nat, r: Sweep)
    requires OrderFits(f, order, spans) && Distinct(order) && k < |order| && order[k] < |f.blocks|
    requires p <= |f.blocks[order[k]]|
    requires p == 0 || f.blocks[order[k]][p - 1].kind.Phi?
    requires p < |f.blocks[order[k]]| ==> !f.blocks[order[k]][p].kind.Phi?
    requires forall u :: u in r.live <==> LocalLive(f.blocks[order[k]], Out(f, order, spans, k), p, u)
    requires EndsFor(f, order, spans, r.iv) && BeginsFor(f, order, spans, Start(f, order, k), r)
    ensures Reasoned(f, order, spans, r.iv)
    ensures forall v :: v in r.live ==> BeginsBefore(f, order, spans, v, Start(f, order, k) + 1)
  {
    hide Out, Start, EndsFor, LeadingPhis, LocalLive;
    forall v, n: nat | v in r.live && Start(f, order, k) < n ensures BeginsBefore(f, order, spans, v, n) {
      assert LiveFrom(f, order, spans, k, p, v, n);
    }
  }

  lemma SpanFor(f: Func, order: seq<Block>, spans: Spans, k: nat, iv: IntervalMap, live: set<Value>)
    requires OrderFits(f, order, spans) && Distinct(order) && SpansStart(f, order, spans) && k < |order|
    requires spans[k].Some?
    requires Reasoned(f, order, spans, iv) && live == SetOf(f, order, spans, k)
    requires forall v :: v in live ==> BeginsBefore(f, order, spans, v, Start(f, order, k) + 1)
    ensures Reasoned(f, order, spans, ExtendAll(iv, live, spans[k].value))
  {
    hide SetOf, Start, LeadingPhis, BeginsBefore, EndsAfter;
    forall v | v in live ensures EndsAfter(f, order, spans, v, spans[k].value.end) {
      IntoFor(f, order, spans, k, v);
    }
  }

  lemma IntoFor(f: Func, order: seq<Block>, spans: Spans, k: nat, v: Value)
    requires OrderFits(f, order, spans) && Distinct(order) && k < |order| && spans[k].Some?
    requires v in SetOf(f, order, spans, k)
    ensures EndsAfter(f, order, spans, v, spans[k].value.end)
  {
    hide SetOf;
    assert AroundTo(f, order, spans, k, v, spans[k].value.end);
  }

  lemma BlockFor(f: Func, order: seq<Block>, spans: Spans, k: nat)
    requires OrderFits(f, order, spans) && Distinct(order) && SpansStart(f, order, spans) && k < |order|
    requires order[k] < |f.blocks|
    requires Reasoned(f, order, spans, After(f, order, spans, k + 1).iv)
    ensures Reasoned(f, order, spans, After(f, order, spans, k).iv)
  {
    hide LeadingPhis, Start, EndsFor, BeginsFor, LiveOut, SweepInstrs, Reasoned, SpansStart, ExtendAll, SetOf,
      BlockEnd, LocalLive;
    var b, start, st := order[k], Start(f, order, k), After(f, order, spans, k + 1);
    var instrs, s := f.blocks[b], Entered(f, b, start, st);
    EnterFor(f, order, spans, k);
    InstrsFor(f, order, spans, k, s, |instrs|);
    var r := SweepInstrs(instrs, start, s, |instrs|);
    EndIsOut(instrs, s.live);
    var p := StopsPastPhis(instrs, s.live, start, s, |instrs|);
    StopFor(f, order, spans, k, p, r);
    StoredFor(f, order, spans, k);
    if spans[k].Some? {
      SpanFor(f, order, spans, k, r.iv, r.live - PhisOf(instrs));
    }
  }

  lemma EndIsOut(instrs: seq<Instr>, out: set<Value>)
    ensures forall u :: u in out <==> LocalLive(instrs, out, |instrs|, u)
  {
  }

  lemma StoredFor(f: Func, order: seq<Block>, spans: Spans, k: nat)
    requires OrderFits(f, order, spans) && Distinct(order) && k < |order| && order[k] < |f.blocks|
    ensures var s := Entered(f, order[k], Start(f, order, k), After(f, order, spans, k + 1));
      SweepInstrs(f.blocks[order[k]], Start(f, order, k), s, |f.blocks[order[k]]|).live - PhisOf(f.blocks[order[k]]) ==
        SetOf(f, order, spans, k)
  {
    hide LeadingPhis, Start, LiveOut, SweepInstrs, PhisOf, ExtendAll, BlockEnd;
  }

  lemma {:induction false} OrderFor(f: Func, order: seq<Block>, spans: Spans, k: nat)
    requires OrderFits(f, order, spans) && Distinct(order) && SpansStart(f, order, spans) && k <= |order|
    ensures Reasoned(f, order, spans, After(f, order, spans, k).iv)
    decreases |order| - k
  {
    hide SpansStart, SweepBlock, BeginsBefore, EndsAfter;
    if k < |order| {
      assert order[k] in order;
      OrderFor(f, order, spans, k + 1);
      BlockFor(f, order, spans, k);
    }
  }

  // ---- and each reason counts ----

  lemma SamePlace(instrs: seq<Instr>, p: nat, t: nat)
    requires LeadingPhis(instrs) && p <= |instrs| && t <= |instrs|
    requires (p == 0 || instrs[p - 1].kind.Phi?) && (p < |instrs| ==> !instrs[p].kind.Phi?)
    requires (t == 0 || instrs[t - 1].kind.Phi?) && (t < |instrs| ==> !instrs[t].kind.Phi?)
    ensures p == t
  {
  }

  /** What is live past the PHIs of a block is open from the start of the block. */
  lemma OpensBlock(f: Func, order: seq<Block>, spans: Spans, j: nat, t: nat, v: Value)
    requires OrderFits(f, order, spans) && j < |order| && LiveFrom(f, order, spans, j, t, v, Start(f, order, j) + 1)
    ensures Reaching(After(f, order, spans, j).iv, v, Start(f, order, j), Start(f, order, j) + 1)
  {
    hide Reaching, LiveOut, SweepInstrs, ExtendAll, PhisOf, LeadingPhis, Start, EndsFrom, BlockEnd, LocalLive;
    var b, start, st := order[j], Start(f, order, j), After(f, order, spans, j + 1);
    var instrs, s := f.blocks[b], Entered(f, b, start, st);
    assert b in order && LeadingPhis(instrs);
    ExtendKept(st.iv, s.live, Interval(start, BlockEnd(instrs, start)));
    EndOfBlock(instrs, start);
    InstrsKept(instrs, start, s, |instrs|, BlockEnd(instrs, start));
    EndIsOut(instrs, s.live);
    var p := StopsPastPhis(instrs, s.live, start, s, |instrs|);
    SamePlace(instrs, p, t);
    var r := SweepInstrs(instrs, start, s, |instrs|);
    assert v in r.live;
    if spans[j].Some? {
      ExtendKept(r.iv, r.live - PhisOf(instrs), spans[j].value);
    }
  }

  lemma EndOfBlock(instrs: seq<Instr>, start: nat)
    ensures Top(instrs, start, |instrs|) + LIVE_STEP <= BlockEnd(instrs, start)
  {
  }

  /** A definition begins its interval no later than there, and keeps it to the next number. */
  lemma DefinitionSpans(f: Func, order: seq<Block>, spans: Spans, j: nat, t: nat, v: Value, d: nat)
    requires OrderFits(f, order, spans) && DefinedAt(f, order, j, t, v, d)
    ensures Reaching(SweepOrder(f, order, spans, Analysis(map[], map[]), |order|).iv, v, d, d + LIVE_STEP)
  {
    hide Reaching, SweepOrder, Start, Number, EndsFrom, SetsExact, LeadingPhis;
    EmptyStart(f, order, Start(f, order, |order|));
    OrderSpans(f, order, spans, Analysis(map[], map[]), |order|, j, t);
  }

  lemma AroundSpans(f: Func, order: seq<Block>, spans: Spans, h: nat, v: Value, n: nat)
    requires OrderFits(f, order, spans) && Distinct(order) && SpansStart(f, order, spans)
    requires AroundTo(f, order, spans, h, v, n)
    ensures Reaching(SweepOrder(f, order, spans, Analysis(map[], map[]), |order|).iv, v, Start(f, order, h), n)
  {
    hide SweepOrder, SweepBlock, Start, LeadingPhis, EndsFrom;
    assert order[h] in order;
    HeaderSpans(f, order[h], Start(f, order, h), spans[h].value, After(f, order, spans, h + 1), v);
    AfterKept(f, order, spans, h, v, spans[h].value.begin, spans[h].value.end);
  }

  lemma SweepIs(f: Func, order: seq<Block>, spans: Spans)
    requires OrderFits(f, order, spans)
    ensures After(f, order, spans, 0) == SweepOrder(f, order, spans, Analysis(map[], map[]), |order|)
  {
    hide After, SweepBlock;
    AfterIsSweep(f, order, spans, 0);
    assert SweepOrder(f, order, spans, After(f, order, spans, 0), 0) == After(f, order, spans, 0);
  }

  lemma BeginsSooner(f: Func, order: seq<Block>, spans: Spans, v: Value, m: nat, n: nat)
    requires OrderFits(f, order, spans) && BeginsBefore(f, order, spans, v, m) && m <= n
    ensures BeginsBefore(f, order, spans, v, n)
  {
    hide SeenLive, Start, Number;
    if j: nat, t: nat :| LiveFrom(f, order, spans, j, t, v, m) {
      assert LiveFrom(f, order, spans, j, t, v, n);
    }
  }

  lemma EndsLater(f: Func, order: seq<Block>, spans: Spans, v: Value, m: nat, n: nat)
    requires OrderFits(f, order, spans) && Distinct(order) && EndsAfter(f, order, spans, v, m) && n <= m
    ensures EndsAfter(f, order, spans, v, n)
  {
    hide SeenLive, Start, Number, NumberAt, SetOf;
    if j: nat, t: nat :| SeenFrom(f, order, spans, j, t, v, m) {
      assert SeenFrom(f, order, spans, j, t, v, n);
    } else if h: nat :| AroundTo(f, order, spans, h, v, m) {
      assert AroundTo(f, order, spans, h, v, n);
    }
  }

  lemma LiveFromCounts(f: Func, order: seq<Block>, spans: Spans, j: nat, t: nat, v: Value, n: nat)
    requires OrderFits(f, order, spans) && LiveFrom(f, order, spans, j, t, v, n)
    ensures j < |order| && Start(f, order, j) < n
    ensures Reaching(SweepOrder(f, order, spans, Analysis(map[], map[]), |order|).iv, v,
                     Start(f, order, j), Start(f, order, j) + 1)
  {
    hide SweepOrder, Start, Reaching, SeenLive, LeadingPhis, After;
    OpensBlock(f, order, spans, j, t, v);
    AfterKept(f, order, spans, j, v, Start(f, order, j), Start(f, order, j) + 1);
  }

  lemma BeginCounts(f: Func, order: seq<Block>, spans: Spans, v: Value, n: nat)
    requires OrderFits(f, order, spans) && BeginsBefore(f, order, spans, v, n)
    ensures var iv := SweepOrder(f, order, spans, Analysis(map[], map[]), |order|).iv; v in iv && iv[v].begin < n
  {
    hide SweepOrder, LeadingPhis, LiveFrom, DefinedAt, Start;
    if j: nat, t: nat :| LiveFrom(f, order, spans, j, t, v, n) {
      LiveFromCounts(f, order, spans, j, t, v, n);
    } else {
      var j: nat, t: nat, d: nat :| DefinedAt(f, order, j, t, v, d) && d < n;
      DefinitionSpans(f, order, spans, j, t, v, d);
    }
  }

  lemma SeenCounts(f: Func, order: seq<Block>, spans: Spans, j: nat, t: nat, v: Value, n: nat)
    requires OrderFits(f, order, spans) && SeenFrom(f, order, spans, j, t, v, n)
    ensures var iv := SweepOrder(f, order, spans, Analysis(map[], map[]), |order|).iv; v in iv && n <= iv[v].end
  {
    hide SweepOrder, LeadingPhis, Start, NumberAt, Out;
    SeenSpans(f, order, spans, j, t, v);
  }

  lemma EndCounts(f: Func, order: seq<Block>, spans: Spans, v: Value, n: nat)
    requires OrderFits(f, order, spans) && Distinct(order) && SpansStart(f, order, spans)
    requires EndsAfter(f, order, spans, v, n)
    ensures var iv := SweepOrder(f, order, spans, Analysis(map[], map[]), |order|).iv; v in iv && n <= iv[v].end
  {
    hide SweepOrder, LeadingPhis, SeenFrom, DefinedAt, AroundTo, SpansStart, Start;
    if j: nat, t: nat :| SeenFrom(f, order, spans, j, t, v, n) {
      SeenCounts(f, order, spans, j, t, v, n);
    } else if j: nat, t: nat, d: nat :| DefinedAt(f, order, j, t, v, d) && n <= d + LIVE_STEP {
      DefinitionSpans(f, order, spans, j, t, v, d);
    } else {
      var h: nat :| AroundTo(f, order, spans, h, v, n);
      HeaderIn(f, order, spans, h, v, n);
      AroundSpans(f, order, spans, h, v, n);
    }
  }

  lemma HeaderIn(f: Func, order: seq<Block>, spans: Spans, h: nat, v: Value, n: nat)
    requires OrderFits(f, order, spans) && Distinct(order) && AroundTo(f, order, spans, h, v, n)
    ensures h < |order|
  {
    hide SetOf;
  }

  /** Exactness on every function: the interval of `v` begins before `n` just when `v` is defined before `n`, or live
      past the PHIs of a block that starts before `n`; it ends at `n` or later just when `v` is seen at a position
      numbered so, or is defined just before, or is live into the header of a loop that lasts so long. */
  lemma IntervalExact(f: Func, order: seq<Block>, spans: Spans, v: Value, n: nat)
    requires OrderFits(f, order, spans) && Distinct(order) && SpansStart(f, order, spans)
    ensures var iv := SweepOrder(f, order, spans, Analysis(map[], map[]), |order|).iv;
      && (v in iv && iv[v].begin < n <==> BeginsBefore(f, order, spans, v, n))
      && (v in iv && n <= iv[v].end <==> EndsAfter(f, order, spans, v, n))
  {
    hide SpansStart, SweepOrder, BeginsBefore, EndsAfter, LeadingPhis;
    if BeginsBefore(f, order, spans, v, n) {
      BeginCounts(f, order, spans, v, n);
    }
    if EndsAfter(f, order, spans, v, n) {
      EndCounts(f, order, spans, v, n);
    }
    OrderFor(f, order, spans, 0);
    SweepIs(f, order, spans);
    var iv := SweepOrder(f, order, spans, Analysis(map[], map[]), |order|).iv;
    if v in iv && iv[v].begin < n {
      BeginsSooner(f, order, spans, v, iv[v].begin + 1, n);
    }
    if v in iv && n <= iv[v].end {
      EndsLater(f, order, spans, v, iv[v].end, n);
    }
  }

  /** So a number is covered just when both ends have their reason, whatever the extents are and wherever PHIs read. */
  lemma CoveredIff(f: Func, order: seq<Block>, spans: Spans, v: Value, n: nat)
    requires OrderFits(f, order, spans) && Distinct(order) && SpansStart(f, order, spans) && !TerminatorIn(f, order, v)
    ensures Covers(FinalIntervals(f, order, spans), v, n) <==>
      BeginsBefore(f, order, spans, v, n) && EndsAfter(f, order, spans, v, n)
  {
    hide SpansStart, SweepOrder, BeginsBefore, EndsAfter, TerminatorIn, LeadingPhis;
    IntervalExact(f, order, spans, v, n);
  }

  // ---- terminators ----

  /** The interval of a terminator is empty, and lies where its definition and its uses put the begin. */
  lemma TerminatorExact(f: Func, order: seq<Block>, spans: Spans, v: Value, n: nat)
    requires OrderFits(f, order, spans) && Distinct(order) && SpansStart(f, order, spans) && TerminatorIn(f, order, v)
    ensures var iv := FinalIntervals(f, order, spans);
      v in iv && iv[v].begin == iv[v].end && (iv[v].begin < n <==> BeginsBefore(f, order, spans, v, n))
  {
    hide SpansStart, SweepOrder, BeginsBefore, EndsAfter, TerminatorIn, LeadingPhis;
    TerminatorSwept(f, order, spans, v);
    IntervalExact(f, order, spans, v, n);
  }

  lemma TerminatorSwept(f: Func, order: seq<Block>, spans: Spans, v: Value)
    requires OrderFits(f, order, spans) && TerminatorIn(f, order, v)
    ensures v in SweepOrder(f, order, spans, Analysis(map[], map[]), |order|).iv
  {
    hide SweepOrder, LeadingPhis, Start, Number;
    var j, t: nat :| 0 <= j < |order| && IsInstr(f, order[j], t) && f.blocks[order[j]][t].kind.Terminator?
      && f.blocks[order[j]][t].id == v;
    DefinitionSpans(f, order, spans, j, t, v, Number(f.blocks[order[j]], Start(f, order, j), t));
  }

  /** No instruction reads `v`. */
  ghost predicate Unread(f: Func, v: Value) {
    && (forall b: Block, i: nat :: IsInstr(f, b, i) ==> v !in f.blocks[b][i].inputs)
    && forall b: Block, s: Block :: !PhiReads(f, b, s, v)
  }

  lemma {:induction false} UnreadIsDead(f: Func, order: seq<Block>, path: seq<nat>, i: nat, v: Value)
    requires path != [] && path[0] < |order| && order[path[0]] < |f.blocks| && i <= |f.blocks[order[path[0]]]|
    requires Unread(f, v)
    ensures !ReadAhead(f, order, path, i, v)
    decreases |path|, |f.blocks[order[path[0]]]| - i
  {
    hide PhiReads;
    if ReadAhead(f, order, path, i, v) {
      if i < |f.blocks[order[path[0]]]| {
        assert IsInstr(f, order[path[0]], i);
        UnreadIsDead(f, order, path, i + 1, v);
      } else {
        UnreadIsDead(f, order, path[1..], 0, v);
      }
    }
  }

  /** If nobody reads the terminator, both ends are its live number. */
  lemma UnreadTerminator(f: Func, order: seq<Block>, spans: Spans, j: nat, t: nat)
    requires WellFormedFunc(f) && OrderFits(f, order, spans) && Distinct(order) && SpansStart(f, order, spans)
    requires j < |order| && IsInstr(f, order[j], t) && f.blocks[order[j]][t].kind.Terminator?
    requires Unread(f, f.blocks[order[j]][t].id)
    ensures var iv, v := FinalIntervals(f, order, spans), f.blocks[order[j]][t].id;
      var d := Number(f.blocks[order[j]], Start(f, order, j), t);
      v in iv && iv[v] == Interval(d, d)
  {
    hide SpansStart, SweepOrder, LeadingPhis, Start, Number, Unread, FinalIntervals;
    var v := f.blocks[order[j]][t].id;
    var d := Number(f.blocks[order[j]], Start(f, order, j), t);
    assert TerminatorIn(f, order, v);
    forall n: nat ensures BeginsBefore(f, order, spans, v, n) <==> d < n {
      OnlyDefinition(f, order, spans, j, t, d, n);
    }
    TerminatorExact(f, order, spans, v, d);
    TerminatorExact(f, order, spans, v, d + 1);
  }

  lemma OnlyDefinition(f: Func, order: seq<Block>, spans: Spans, j: nat, t: nat, d: nat, n: nat)
    requires WellFormedFunc(f) && OrderFits(f, order, spans) && Distinct(order)
    requires j < |order| && IsInstr(f, order[j], t) && f.blocks[order[j]][t].kind.Terminator?
    requires Unread(f, f.blocks[order[j]][t].id) && d == Number(f.blocks[order[j]], Start(f, order, j), t)
    ensures BeginsBefore(f, order, spans, f.blocks[order[j]][t].id, n) <==> d < n
  {
    hide LeadingPhis, Start, Number, Unread, SeenLive, ReadAhead, Graph.Valid;
    var v := f.blocks[order[j]][t].id;
    assert DefinedAt(f, order, j, t, v, d);
    if i: nat, u: nat :| LiveFrom(f, order, spans, i, u, v, n) {
      SeenIffAhead(f, order, spans, i, u, v);
      var path :| path != [] && path[0] == i && ReadAhead(f, order, path, u, v);
      UnreadIsDead(f, order, path, u, v);
    } else if i: nat, u: nat, e: nat :| DefinedAt(f, order, i, u, v, e) && e < n {
      assert IsInstr(f, order[i], u) && order[i] == order[j] && u == t;
      assert i == j;
    }
  }
}
