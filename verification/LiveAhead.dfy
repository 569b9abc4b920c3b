/** What the single backward sweep computes on every function, loops included. */
module LiveAhead {
  import opened SetFacts
  import opened Intervals
  import opened Cfg
  import opened Liveness
  import opened LiveLoops

  /** Walking ahead along positions of the order from instruction `i` of the first block, `v` is read before it is
      defined. Edges lead forward; on an edge from a block to itself only the PHIs are looked at. */
  ghost predicate ReadAhead(f: Func, order: seq<Block>, path: seq<nat>, i: nat, v: Value)
    requires path != [] && path[0] < |order| && order[path[0]] < |f.blocks| && i <= |f.blocks[order[path[0]]]|
    decreases |path|, |f.blocks[order[path[0]]]| - i
  {
    var instrs := f.blocks[order[path[0]]];
    if i < |instrs| then
      || (!instrs[i].kind.Phi? && v in instrs[i].inputs)
      || (instrs[i].id != v && ReadAhead(f, order, path, i + 1, v))
    else
      && |path| > 1 && path[0] <= path[1] < |order| && order[path[1]] < |f.blocks|
      && Edge(f.graph, order[path[0]], order[path[1]])
      && (PhiReads(f, order[path[0]], order[path[1]], v) || (path[0] < path[1] && ReadAhead(f, order, path[1..], 0, v)))
  }

  /** `v` is live just before position `i` of block number `j`, looking ahead only. */
  ghost predicate AheadLive(f: Func, order: seq<Block>, j: nat, i: nat, v: Value) {
    && j < |order| && order[j] < |f.blocks| && i <= |f.blocks[order[j]]|
    && exists path :: path != [] && path[0] == j && ReadAhead(f, order, path, i, v)
  }

  /** Block number `m` comes no earlier than block number `j` and hands `v` back to it. */
  ghost predicate HandsBack(f: Func, order: seq<Block>, spans: Spans, j: nat, m: nat, v: Value)
    requires OrderFits(f, order, spans) && Distinct(order) && j < |order|
  {
    && j <= m < |order| && Edge(f.graph, order[j], order[m])
    && ((j < m && v in SetOf(f, order, spans, m)) || PhiReads(f, order[j], order[m], v))
  }

  lemma {:induction false} AfterKeys(f: Func, order: seq<Block>, spans: Spans, k: nat, b: Block)
    requires OrderFits(f, order, spans) && k <= |order|
    ensures b in After(f, order, spans, k).sets ==> exists m: nat :: k <= m < |order| && order[m] == b
    decreases |order| - k
  {
    hide SweepBlock;
    if k < |order| {
      assert order[k] in order;
      BlockSets(f, order[k], Start(f, order, k), spans[k], After(f, order, spans, k + 1));
      AfterKeys(f, order, spans, k + 1, b);
    }
  }

  /** What leaves a block is what the blocks it leads to hand back. */
  lemma OutIff(f: Func, order: seq<Block>, spans: Spans, j: nat, v: Value)
    requires OrderFits(f, order, spans) && Distinct(order) && j < |order|
    ensures v in Out(f, order, spans, j) <==> exists m: nat :: HandsBack(f, order, spans, j, m, v)
  {
    hide After, LiveOut, PhiReads;
    assert order[j] in order;
    var sets := After(f, order, spans, j + 1).sets[order[j] := {}];
    if m: nat :| HandsBack(f, order, spans, j, m, v) {
      EdgeHandsBack(f, order, spans, j, m, v);
    }
    if v in Out(f, order, spans, j) {
      InLiveOut(f, sets, order[j], v);
      var s :| s in f.graph.succs[order[j]] && s in sets && (v in sets[s] || PhiReads(f, order[j], s, v));
      if s == order[j] {
        assert HandsBack(f, order, spans, j, j, v);
      } else {
        AfterKeys(f, order, spans, j + 1, s);
        var m: nat :| j + 1 <= m < |order| && order[m] == s;
        AfterSets(f, order, spans, j + 1, m);
        assert HandsBack(f, order, spans, j, m, v);
      }
    }
  }

  /** What is read ahead is seen by the sweep. */
  lemma {:induction false} AheadIsSeen(f: Func, order: seq<Block>, spans: Spans, path: seq<nat>, i: nat, v: Value)
    requires OrderFits(f, order, spans) && Distinct(order)
    requires path != [] && path[0] < |order| && order[path[0]] < |f.blocks| && i <= |f.blocks[order[path[0]]]|
    requires ReadAhead(f, order, path, i, v)
    ensures SeenLive(f, order, spans, path[0], i, v)
    decreases |path|, |f.blocks[order[path[0]]]| - i
  {
    hide Out, SetOf, PhiReads, OrderFits;
    var j := path[0];
    var instrs := f.blocks[order[j]];
    if i < |instrs| {
      if instrs[i].kind.Phi? || v !in instrs[i].inputs {
        AheadIsSeen(f, order, spans, path, i + 1, v);
      }
    } else {
      var m := path[1];
      if !PhiReads(f, order[j], order[m], v) {
        AheadIsSeen(f, order, spans, path[1..], 0, v);
        SeenAtStart(f, order, spans, m, v);
      }
      assert HandsBack(f, order, spans, j, m, v);
      OutIff(f, order, spans, j, v);
    }
  }

  /** And what the sweep sees is read ahead. */
  lemma {:induction false} SeenIsAhead(f: Func, order: seq<Block>, spans: Spans, j: nat, i: nat, v: Value)
    returns (path: seq<nat>)
    requires OrderFits(f, order, spans) && Distinct(order) && j < |order| && SeenLive(f, order, spans, j, i, v)
    ensures path != [] && path[0] == j && ReadAhead(f, order, path, i, v)
    decreases |order| - j, |f.blocks[order[j]]| - i
  {
    hide Out, SetOf, PhiReads;
    var instrs := f.blocks[order[j]];
    if i < |instrs| {
      if !instrs[i].kind.Phi? && v in instrs[i].inputs {
        path := [j];
      } else {
        path := SeenIsAhead(f, order, spans, j, i + 1, v);
      }
    } else {
      OutIff(f, order, spans, j, v);
      var m: nat :| HandsBack(f, order, spans, j, m, v);
      assert order[m] in order;
      if PhiReads(f, order[j], order[m], v) {
        path := [j, m];
      } else {
        SeenAtStart(f, order, spans, m, v);
        var rest := SeenIsAhead(f, order, spans, m, 0, v);
        path := [j] + rest;
        assert path[1..] == rest;
      }
    }
  }

  /** Exactness on every function: what the sweep sees live at a position is what is live there looking ahead. */
  lemma SeenIffAhead(f: Func, order: seq<Block>, spans: Spans, j: nat, i: nat, v: Value)
    requires OrderFits(f, order, spans) && Distinct(order) && j < |order|
    ensures SeenLive(f, order, spans, j, i, v) <==> AheadLive(f, order, j, i, v)
  {
    hide SeenLive, ReadAhead;
    if SeenLive(f, order, spans, j, i, v) {
      SeenInside(f, order, spans, j, i, v);
      var path := SeenIsAhead(f, order, spans, j, i, v);
    }
    if AheadLive(f, order, j, i, v) {
      var path :| path != [] && path[0] == j && ReadAhead(f, order, path, i, v);
      AheadIsSeen(f, order, spans, path, i, v);
    }
  }

  lemma SeenInside(f: Func, order: seq<Block>, spans: Spans, j: nat, i: nat, v: Value)
    requires OrderFits(f, order, spans) && j < |order| && SeenLive(f, order, spans, j, i, v)
    ensures order[j] < |f.blocks| && i <= |f.blocks[order[j]]|
  {
  }

  /** The set stored for each block, on every function. */
  lemma StoredSetsExact(f: Func, order: seq<Block>, spans: Spans, j: nat, v: Value)
    requires OrderFits(f, order, spans) && Distinct(order) && j < |order|
    ensures var sets := SweepOrder(f, order, spans, Analysis(map[], map[]), |order|).sets;
      order[j] in sets && (v in sets[order[j]] <==> AheadLive(f, order, j, 0, v))
  {
    hide After, SweepOrder, SeenLive, AheadLive, SetOf;
    AfterIsSweep(f, order, spans, 0);
    AfterSets(f, order, spans, 0, j);
    SetIsStored(f, order, spans, j);
    SweepNothing(f, order, spans, After(f, order, spans, 0));
    SeenAtStart(f, order, spans, j, v);
    SeenIffAhead(f, order, spans, j, 0, v);
  }

  lemma SetIsStored(f: Func, order: seq<Block>, spans: Spans, j: nat)
    requires OrderFits(f, order, spans) && Distinct(order) && j < |order|
    ensures order[j] in After(f, order, spans, 0).sets
    ensures After(f, order, spans, 0).sets[order[j]] == SetOf(f, order, spans, j)
  {
    hide After;
    AfterSets(f, order, spans, 0, j);
  }

  lemma SweepNothing(f: Func, order: seq<Block>, spans: Spans, st: Analysis)
    requires OrderFits(f, order, spans)
    ensures SweepOrder(f, order, spans, st, 0) == st
  {
  }

  // ---- when one sweep is enough ----

  /** Nothing is left to hand back: what is live into the target of an edge that does not lead forward, and what
      its PHIs read, is seen at the end of the source already. */
  ghost predicate Settled(f: Func, order: seq<Block>, spans: Spans, i: nat, h: nat)
    requires OrderFits(f, order, spans) && Distinct(order) && i < |order| && h < |order|
  {
    forall v :: v in SetOf(f, order, spans, h) || PhiReads(f, order[i], order[h], v) ==> v in Out(f, order, spans, i)
  }

  ghost predicate AllSettled(f: Func, order: seq<Block>, spans: Spans)
    requires OrderFits(f, order, spans) && Distinct(order)
  {
    forall i: nat, h: nat :: h < |order| && i < |order| && IsLatch(f, order, i, h) ==> Settled(f, order, spans, i, h)
  }

  /** What leaves block number `j` is what is live at its end. */
  ghost predicate OutIsRight(f: Func, order: seq<Block>, spans: Spans, j: nat)
    requires OrderFits(f, order, spans) && j < |order|
  {
    && order[j] < |f.blocks|
    && forall v :: v in Out(f, order, spans, j) <==> LiveBefore(f, order[j], |f.blocks[order[j]]|, v)
  }

  ghost predicate Closed(f: Func, order: seq<Block>) {
    forall i, s: Block :: 0 <= i < |order| && Edge(f.graph, order[i], s) ==> s in order
  }

  /** Whatever is seen is live. */
  lemma {:induction false} AheadIsLive(f: Func, order: seq<Block>, path: seq<nat>, i: nat, v: Value)
    requires path != [] && path[0] < |order| && order[path[0]] < |f.blocks| && i <= |f.blocks[order[path[0]]]|
    requires ReadAhead(f, order, path, i, v)
    ensures LiveBefore(f, order[path[0]], i, v)
    decreases |path|, |f.blocks[order[path[0]]]| - i
  {
    hide LiveBefore, PhiReads;
    var b := order[path[0]];
    if i < |f.blocks[b]| {
      LiveBeforeInstr(f, b, i, v);
      if f.blocks[b][i].kind.Phi? || v !in f.blocks[b][i].inputs {
        AheadIsLive(f, order, path, i + 1, v);
      }
    } else {
      LiveAtEnd(f, b, v);
      if !PhiReads(f, b, order[path[1]], v) {
        AheadIsLive(f, order, path[1..], 0, v);
      }
    }
  }

  /** If nothing is left to hand back, whatever is live is seen. */
  lemma {:induction false} LiveIsSeen(f: Func, order: seq<Block>, spans: Spans, path: seq<Block>, i: nat, j: nat,
                                      v: Value)
    requires OrderFits(f, order, spans) && Distinct(order) && Closed(f, order) && AllSettled(f, order, spans)
    requires j < |order| && path != [] && path[0] == order[j] && order[j] < |f.blocks| && i <= |f.blocks[order[j]]|
    requires ReadAlong(f, path, i, v)
    ensures SeenLive(f, order, spans, j, i, v)
    decreases |path|, |f.blocks[order[j]]| - i
  {
    hide Out, SetOf, OrderFits, PhiReads;
    var instrs := f.blocks[order[j]];
    if i < |instrs| {
      if instrs[i].kind.Phi? || v !in instrs[i].inputs {
        LiveIsSeen(f, order, spans, path, i + 1, j, v);
      }
    } else {
      assert path[1] in order;
      var m: nat :| m < |order| && order[m] == path[1];
      if !PhiReads(f, path[0], path[1], v) {
        LiveIsSeen(f, order, spans, path[1..], 0, m, v);
        SeenAtStart(f, order, spans, m, v);
      }
      if j < m {
        EdgeHandsBack(f, order, spans, j, m, v);
      } else {
        assert IsLatch(f, order, j, m) && Settled(f, order, spans, j, m);
      }
    }
  }

  /** The sweep is exact at the end of every block if and only if nothing is left to hand back. */
  lemma SweepIsExactIff(f: Func, order: seq<Block>, spans: Spans)
    requires OrderFits(f, order, spans) && Distinct(order) && Closed(f, order)
    ensures AllSettled(f, order, spans) <==> forall j: nat :: j < |order| ==> OutIsRight(f, order, spans, j)
  {
    hide LiveBefore, Out, SetOf;
    if AllSettled(f, order, spans) {
      forall j: nat | j < |order| ensures OutIsRight(f, order, spans, j) {
        assert order[j] in order;
        forall v ensures v in Out(f, order, spans, j) <==> LiveBefore(f, order[j], |f.blocks[order[j]]|, v) {
          OutIffLive(f, order, spans, j, v);
        }
      }
    }
    if forall j: nat :: j < |order| ==> OutIsRight(f, order, spans, j) {
      forall i: nat, h: nat | h < |order| && i < |order| && IsLatch(f, order, i, h)
        ensures Settled(f, order, spans, i, h)
      {
        assert OutIsRight(f, order, spans, i);
        forall v | v in SetOf(f, order, spans, h) || PhiReads(f, order[i], order[h], v)
          ensures v in Out(f, order, spans, i)
        {
          LatchIsLive(f, order, spans, i, h, v);
        }
      }
    }
  }

  lemma OutIffLive(f: Func, order: seq<Block>, spans: Spans, j: nat, v: Value)
    requires OrderFits(f, order, spans) && Distinct(order) && Closed(f, order) && AllSettled(f, order, spans)
    requires j < |order| && order[j] < |f.blocks|
    ensures v in Out(f, order, spans, j) <==> LiveBefore(f, order[j], |f.blocks[order[j]]|, v)
  {
    hide Out, SetOf, ReadAlong, OrderFits, Closed, AllSettled;
    var n := |f.blocks[order[j]]|;
    assert v in Out(f, order, spans, j) <==> SeenLive(f, order, spans, j, n, v);
    if v in Out(f, order, spans, j) {
      var path := SeenIsAhead(f, order, spans, j, n, v);
      AheadIsLive(f, order, path, n, v);
    }
    if LiveBefore(f, order[j], n, v) {
      var path :| path != [] && path[0] == order[j] && ReadAlong(f, path, n, v);
      LiveIsSeen(f, order, spans, path, n, j, v);
    }
  }

  /** What comes over a latch is live at its end. */
  lemma LatchIsLive(f: Func, order: seq<Block>, spans: Spans, i: nat, h: nat, v: Value)
    requires OrderFits(f, order, spans) && Distinct(order) && IsLatch(f, order, i, h) && order[i] < |f.blocks|
    requires v in SetOf(f, order, spans, h) || PhiReads(f, order[i], order[h], v)
    ensures LiveBefore(f, order[i], |f.blocks[order[i]]|, v)
  {
    hide Out, SetOf, LiveBefore, PhiReads;
    assert order[h] in order;
    LiveAtEnd(f, order[i], v);
    if v in SetOf(f, order, spans, h) {
      SeenAtStart(f, order, spans, h, v);
      var path := SeenIsAhead(f, order, spans, h, 0, v);
      AheadIsLive(f, order, path, 0, v);
    }
  }
}
