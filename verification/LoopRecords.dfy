/** Loop records, and how the search over the graph collects them from the edges it reports
    (include/analysis/loop_analyzer.hh, loop_base.hh). */
module LoopRecords {
  import opened SetFacts
  import opened Wrappers
  import opened Cfg
  import opened Dfs
  import DomTree

  /** A loop record. Loops are named by their position in the list of all loops, as the original names
      them by address; the root loop has no header. */
  datatype Loop = Loop(header: Option<Block>, reducible: bool, root: bool, body: seq<Block>,
                       backEdges: set<Block>, inners: set<nat>, outer: Option<nat>)

  function NewLoop(header: Block, reducible: bool): Loop {
    Loop(Some(header), reducible, false, [], {}, {}, None)
  }

  const ROOT := Loop(None, false, true, [], {}, {}, None)

  ghost function Num(pre: seq<Block>, v: Block): nat {
    if v in pre then IndexOf(pre, v) else 0
  }

  ghost predicate HasHeader(loops: seq<Loop>, i: nat, h: Block) {
    i < |loops| && loops[i].header == Some(h)
  }

  /** Every block with a loop is a reached block, and its loop exists. */
  ghost predicate DataOk(pre: seq<Block>, data: map<Block, nat>, loops: seq<Loop>) {
    forall v :: v in data ==> v in pre && data[v] < |loops|
  }

  /** Headers are blocks with a loop, and no two loops share one. */
  ghost predicate HeadersOk(data: map<Block, nat>, loops: seq<Loop>) {
    && (forall i: nat, h :: HasHeader(loops, i, h) ==> h in data)
    && (forall i: nat, j: nat, h :: HasHeader(loops, i, h) && HasHeader(loops, j, h) ==> i == j)
  }

  ghost predicate BodiesReached(pre: seq<Block>, loops: seq<Loop>) {
    forall i, x :: 0 <= i < |loops| && (x in loops[i].body || x in loops[i].backEdges) ==> x in pre
  }

  /** A header in the body of another loop was discovered strictly after that loop's own header. */
  ghost predicate HeadersNest(pre: seq<Block>, loops: seq<Loop>) {
    forall i: nat, h, j: nat, x :: HasHeader(loops, i, h) && x in loops[i].body && HasHeader(loops, j, x) && i != j ==>
      Num(pre, h) < Num(pre, x)
  }

  ghost predicate WellFormed(pre: seq<Block>, data: map<Block, nat>, loops: seq<Loop>) {
    DataOk(pre, data, loops) && HeadersOk(data, loops) && BodiesReached(pre, loops) && HeadersNest(pre, loops)
  }

  /** While back edges are still being collected every loop has a header, and it is discovered no later
      than the blocks in its body and the blocks tied to it. */
  ghost predicate Collecting(pre: seq<Block>, data: map<Block, nat>, loops: seq<Loop>) {
    && DataOk(pre, data, loops) && HeadersOk(data, loops) && BodiesReached(pre, loops)
    && (forall i :: 0 <= i < |loops| ==> loops[i].header.Some?)
    && HeadersFirst(pre, data, loops)
  }

  ghost predicate HeadersFirst(pre: seq<Block>, data: map<Block, nat>, loops: seq<Loop>) {
    && (forall i: nat, h, x :: HasHeader(loops, i, h) && x in loops[i].body ==> Num(pre, h) <= Num(pre, x))
    && (forall v, h :: v in data && HasHeader(loops, data[v], h) ==> Num(pre, h) <= Num(pre, v))
  }

  lemma CollectingNests(pre: seq<Block>, data: map<Block, nat>, loops: seq<Loop>)
    requires Collecting(pre, data, loops)
    ensures WellFormed(pre, data, loops)
  {
    forall i: nat, h, j: nat, x | HasHeader(loops, i, h) && x in loops[i].body && HasHeader(loops, j, x) && i != j
      ensures Num(pre, h) < Num(pre, x)
    {
      if Num(pre, h) == Num(pre, x) {
        NumInjective(pre, h, x);
      }
    }
  }

  lemma NumInjective(pre: seq<Block>, u: Block, v: Block)
    requires u in pre && v in pre && Num(pre, u) == Num(pre, v)
    ensures u == v
  {
  }

  lemma NewLoopKeeps(pre: seq<Block>, data: map<Block, nat>, loops: seq<Loop>, dst: Block, reducible: bool)
    requires Collecting(pre, data, loops) && dst in pre && dst !in data
    ensures Collecting(pre, data[dst := |loops|], loops + [NewLoop(dst, reducible)])
  {
    hide Num;
    var loops' := loops + [NewLoop(dst, reducible)];
    assert forall i: nat, h :: HasHeader(loops', i, h) <==> HasHeader(loops, i, h) || (i == |loops| && h == dst);
  }

  ghost function Tied(loops: seq<Loop>, cur: nat, src: Block): seq<Loop>
    requires cur < |loops|
  {
    loops[cur := loops[cur].(backEdges := loops[cur].backEdges + {src}, body := loops[cur].body + [src])]
  }

  /** What a back edge does: a loop for a new header, marked by the dominance query, then the tie. */
  ghost function Opened(data: map<Block, nat>, loops: seq<Loop>, dst: Block, reducible: bool): (map<Block, nat>,
                        seq<Loop>) {
    if dst in data then (data, loops) else (data[dst := |loops|], loops + [NewLoop(dst, reducible)])
  }

  ghost function TieTo(s: (map<Block, nat>, seq<Loop>), src: Block, dst: Block): (map<Block, nat>, seq<Loop>) {
    if dst in s.0 && s.0[dst] < |s.1| then (s.0[src := s.0[dst]], Tied(s.1, s.0[dst], src)) else s
  }

  /** The records after the calls of `t`: every reported edge opens a loop, if need be, and ties its source. */
  ghost function Gathered(pre: seq<Block>, parent: seq<nat>, t: seq<Event>): (map<Block, nat>, seq<Loop>)
    requires DomTree.IsParents(pre, parent)
  {
    if t == [] then (map[], []) else
      var s, e := Gathered(pre, parent, t[..|t| - 1]), t[|t| - 1];
      if e.BackEdge? then
        TieTo(Opened(s.0, s.1, e.dst, DomTree.Dominates(pre, parent, e.dst, e.src)), e.src, e.dst)
      else s
  }

  lemma GatherNext(pre: seq<Block>, parent: seq<nat>, t: seq<Event>, k: nat)
    requires DomTree.IsParents(pre, parent) && k < |t|
    ensures var s, e := Gathered(pre, parent, t[..k]), t[k];
      Gathered(pre, parent, t[..k + 1]) ==
        if e.BackEdge? then
        TieTo(Opened(s.0, s.1, e.dst, DomTree.Dominates(pre, parent, e.dst, e.src)), e.src, e.dst)
      else s
  {
    assert t[..k + 1][..k] == t[..k];
  }

  lemma TieKeeps(pre: seq<Block>, data: map<Block, nat>, loops: seq<Loop>, src: Block, dst: Block)
    requires Collecting(pre, data, loops) && dst in data && src in pre && Num(pre, dst) <= Num(pre, src)
    ensures Collecting(pre, data[src := data[dst]], Tied(loops, data[dst], src))
  {
    hide Num;
    var cur, loops' := data[dst], Tied(loops, data[dst], src);
    assert forall i: nat, h :: HasHeader(loops', i, h) <==> HasHeader(loops, i, h);
    assert HasHeader(loops, cur, loops[cur].header.value);
  }

  /** A block that has no loop yet is no header, so it can join any loop. */
  lemma JoinKeeps(pre: seq<Block>, data: map<Block, nat>, loops: seq<Loop>, cur: nat, v: Block)
    requires WellFormed(pre, data, loops) && v in pre && v !in data && cur < |loops|
    ensures WellFormed(pre, data[v := cur], loops[cur := loops[cur].(body := loops[cur].body + [v])])
  {
    hide Num;
    var loops' := loops[cur := loops[cur].(body := loops[cur].body + [v])];
    assert forall i: nat, h :: HasHeader(loops', i, h) <==> HasHeader(loops, i, h);
  }

  lemma RelinkKeeps(pre: seq<Block>, data: map<Block, nat>, loops: seq<Loop>, loops': seq<Loop>)
    requires WellFormed(pre, data, loops) && SameShape(loops, loops')
    ensures WellFormed(pre, data, loops')
  {
    hide Num;
    assert forall i: nat, h :: HasHeader(loops', i, h) <==> HasHeader(loops, i, h);
  }

  /** The records differ in their nesting links at most. */
  ghost predicate SameShape(loops: seq<Loop>, loops': seq<Loop>) {
    && |loops| == |loops'|
    && forall i :: 0 <= i < |loops| ==>
      loops'[i].header == loops[i].header && loops'[i].reducible == loops[i].reducible
      && loops'[i].body == loops[i].body && loops'[i].backEdges == loops[i].backEdges
  }

  /** Headers, kinds and back edges are fixed once the back edges are collected. */
  ghost predicate SameHeaders(loops: seq<Loop>, loops': seq<Loop>) {
    && |loops| == |loops'|
    && forall i :: 0 <= i < |loops| ==>
      loops'[i].header == loops[i].header && loops'[i].reducible == loops[i].reducible
      && loops'[i].backEdges == loops[i].backEdges
  }

  lemma RootKeeps(pre: seq<Block>, data: map<Block, nat>, loops: seq<Loop>)
    requires WellFormed(pre, data, loops)
    ensures WellFormed(pre, data, loops + [ROOT])
  {
    hide Num;
    assert forall i: nat, h :: HasHeader(loops + [ROOT], i, h) <==> HasHeader(loops, i, h);
  }

  lemma RetieKeeps(pre: seq<Block>, data: map<Block, nat>, loops: seq<Loop>, cur: nat, v: Block)
    requires WellFormed(pre, data, loops) && v in pre && cur < |loops|
    ensures WellFormed(pre, data[v := cur], loops)
  {
  }

  /** What the loop tree promises about every graph: each reached block has a loop entry, and the records
      are well formed. On an acyclic graph the root loop is the only loop. */
  ghost predicate IsLoopTree(g: Graph, data: map<Block, nat>, loops: seq<Loop>)
    requires g.Valid()
  {
    && WellFormed(Preorder(g), data, loops)
    && (forall v :: Reaches(g, g.head, v) ==> v in data)
    && (!HasCycle(g) ==> |loops| == 1 && loops[0].header.None?)
  }

  lemma StillSameHeaders(a: seq<Loop>, b: seq<Loop>)
    requires |a| == |b|
    requires forall i :: 0 <= i < |a| ==>
      b[i].header == a[i].header && b[i].reducible == a[i].reducible && b[i].backEdges == a[i].backEdges
    ensures SameHeaders(a, b)
  {
  }

  lemma HeadersReflexive(loops: seq<Loop>)
    ensures SameHeaders(loops, loops)
  {
  }

  lemma HeadersTransitive(a: seq<Loop>, b: seq<Loop>, c: seq<Loop>)
    requires SameHeaders(a, b) && SameHeaders(b, c)
    ensures SameHeaders(a, c) && |b| == |c|
  {
  }

  lemma EntryInRange(pre: seq<Block>, data: map<Block, nat>, loops: seq<Loop>)
    requires WellFormed(pre, data, loops)
    ensures forall v :: v in data ==> data[v] < |loops|
  {
  }

  lemma SourcesReached(pre: seq<Block>, data: map<Block, nat>, loops: seq<Loop>, cur: nat)
    requires WellFormed(pre, data, loops) && cur < |loops|
    ensures forall v :: v in loops[cur].backEdges ==> v in pre
  {
  }

  lemma NodeInRange(g: Graph, v: Block)
    requires g.Valid() && LinksMirrored(g) && v in Preorder(g)
    ensures v < |g.preds|
  {
    ReachedExactlyOnce(g);
  }

  lemma PredIsReached(g: Graph, v: Block, p: Block)
    requires g.Valid() && LinksMirrored(g) && PredsReached(g) && v in Preorder(g) && v < |g.preds| && p in g.preds[v]
    ensures p in Preorder(g) && Edge(g, p, v)
  {
    ReachedExactlyOnce(g);
    assert Edge(g, p, v);
  }

  lemma NothingCollected(pre: seq<Block>)
    ensures Collecting(pre, map[], [])
  {
  }

  lemma AcyclicHasNone(g: Graph)
    requires g.Valid()
    ensures !HasCycle(g) ==> forall u, v :: BackEdge(u, v) !in Trace(g)
  {
    CycleIffBackEdge(g);
  }

  lemma CallsAreReached(g: Graph, e: Event)
    requires g.Valid() && e in Trace(g)
    ensures match e
      case Discover(_) => true
      case Finish(v) => v in Preorder(g)
      case BackEdge(u, v) => u in Preorder(g) && v in Preorder(g) && Num(Preorder(g), v) <= Num(Preorder(g), u)
  {
    match e
    case Discover(_) =>
    case Finish(v) =>
      FinishedHas(Trace(g), v);
      ReachedExactlyOnce(g);
    case BackEdge(u, v) => BackEdgeIff(g, u, v);
  }

  lemma {:induction false} FinishedHas(t: seq<Event>, v: Block)
    requires Finish(v) in t
    ensures v in Finished(t)
  {
    var n := |t| - 1;
    assert t == t[..n] + [t[n]];
    if t[n] != Finish(v) {
      FinishedHas(t[..n], v);
    }
  }

  lemma AllFinished(g: Graph)
    requires g.Valid()
    ensures forall v :: v in Preorder(g) ==> v in Finished(Trace(g))
  {
    ReachedExactlyOnce(g);
  }

  // ---- what the reported edges say about the collected records ----

  ghost predicate Touches(e: Event, v: Block) {
    e.BackEdge? && (e.src == v || e.dst == v)
  }

  ghost predicate Untouched(t: seq<Event>, v: Block) {
    forall e :: e in t ==> !Touches(e, v)
  }

  /** Call `k` is the first one about `h`, and reports an edge to it. */
  ghost predicate OpensAt(t: seq<Event>, k: nat, h: Block) {
    k < |t| && t[k].BackEdge? && t[k].dst == h && Untouched(t[..k], h)
  }

  /** Call `k` is the last one to report an edge from `v`. */
  ghost predicate LeavesLast(t: seq<Event>, k: nat, v: Block) {
    k < |t| && t[k].BackEdge? && t[k].src == v && LeavesNever(t[k + 1..], v)
  }

  ghost predicate LeavesNever(t: seq<Event>, v: Block) {
    forall e :: e in t && e.BackEdge? ==> e.src != v
  }

  ghost predicate InRange(data: map<Block, nat>, loops: seq<Loop>) {
    forall v :: v in data ==> data[v] < |loops|
  }

  lemma TieOne(data: map<Block, nat>, loops: seq<Loop>, src: Block, dst: Block, reducible: bool)
    requires InRange(data, loops)
    ensures var s' := TieTo(Opened(data, loops, dst, reducible), src, dst);
      && InRange(s'.0, s'.1) && src in s'.0 && dst in s'.0 && s'.0.Keys == data.Keys + {src, dst}
      && s'.0[src] == (if dst in data then data[dst] else |loops|)
      && (dst !in data ==> s'.0[dst] == |loops|)
      && forall v :: v in data && v != src ==> s'.0[v] == data[v]
  {
  }

  /** The records after one more reported edge, told by the records before it. */
  lemma GatherOne(pre: seq<Block>, parent: seq<nat>, t: seq<Event>)
    requires DomTree.IsParents(pre, parent) && t != []
    ensures var n := |t| - 1; var s, s', e := Gathered(pre, parent, t[..n]), Gathered(pre, parent, t), t[n];
      if !e.BackEdge? then s' == s
      else
        && e.src in s'.0 && e.dst in s'.0 && s'.0.Keys == s.0.Keys + {e.src, e.dst}
        && s'.0[e.src] == (if e.dst in s.0 then s.0[e.dst] else |s.1|)
        && (e.dst !in s.0 ==> s'.0[e.dst] == |s.1|)
        && forall v :: v in s.0 && v != e.src ==> s'.0[v] == s.0[v]
  {
    hide DomTree.IsParents, DomTree.Dominates;
    hide InRange, Opened, TieTo;
    var s, e := Gathered(pre, parent, t[..|t| - 1]), t[|t| - 1];
    GatheredInRange(pre, parent, t[..|t| - 1]);
    if e.BackEdge? {
      TieOne(s.0, s.1, e.src, e.dst, DomTree.Dominates(pre, parent, e.dst, e.src));
    }
  }

  lemma {:induction false} GatheredInRange(pre: seq<Block>, parent: seq<nat>, t: seq<Event>)
    requires DomTree.IsParents(pre, parent)
    ensures InRange(Gathered(pre, parent, t).0, Gathered(pre, parent, t).1)
  {
    hide DomTree.IsParents, DomTree.Dominates, Opened, TieTo;
    if t != [] {
      var s, e := Gathered(pre, parent, t[..|t| - 1]), t[|t| - 1];
      GatheredInRange(pre, parent, t[..|t| - 1]);
      if e.BackEdge? {
        TieOne(s.0, s.1, e.src, e.dst, DomTree.Dominates(pre, parent, e.dst, e.src));
      }
    }
  }

  lemma {:induction false} TouchedIff(pre: seq<Block>, parent: seq<nat>, t: seq<Event>, v: Block)
    requires DomTree.IsParents(pre, parent)
    ensures v in Gathered(pre, parent, t).0 <==> !Untouched(t, v)
  {
    hide DomTree.IsParents, Gathered;
    if t != [] {
      var n := |t| - 1;
      assert t == t[..n] + [t[n]];
      TouchedIff(pre, parent, t[..n], v);
      GatherOne(pre, parent, t);
      assert !Untouched(t, v) <==> !Untouched(t[..n], v) || Touches(t[n], v);
    } else {
      NoneGathered(pre, parent);
    }
  }

  lemma NoneGathered(pre: seq<Block>, parent: seq<nat>)
    requires DomTree.IsParents(pre, parent)
    ensures Gathered(pre, parent, []) == (map[], [])
  {
  }

  /** The loop of a tied block: the loop that the target of its last reported edge had by then. */
  lemma {:induction false} LastTarget(pre: seq<Block>, parent: seq<nat>, t: seq<Event>, k: nat, v: Block)
    requires DomTree.IsParents(pre, parent) && LeavesLast(t, k, v)
    ensures var s, s' := Gathered(pre, parent, t), Gathered(pre, parent, t[..k + 1]);
      v in s.0 && t[k].dst in s'.0 && s.0[v] == s'.0[t[k].dst]
    decreases |t|
  {
    hide DomTree.IsParents, Gathered;
    var n := |t| - 1;
    GatherOne(pre, parent, t);
    if k == n {
      assert t[..k + 1] == t;
    } else {
      assert t[k + 1..] == t[..n][k + 1..] + [t[n]] && t[..n][..k + 1] == t[..k + 1];
      LastTarget(pre, parent, t[..n], k, v);
    }
  }

  /** Record `i` is that of header `h`, marked by whether `h` is on the path to `u` in the tree. */
  ghost predicate HeadsAs(loops: seq<Loop>, i: nat, h: Block, reducible: bool) {
    HasHeader(loops, i, h) && loops[i].reducible == reducible
  }

  /** The first call about `h`, if it reports an edge to it, opens the loop of `h`, and its source decides whether
      the loop is reducible. */
  lemma {:induction false} OpensLoop(pre: seq<Block>, parent: seq<nat>, t: seq<Event>, k: nat, h: Block)
    requires DomTree.IsParents(pre, parent) && OpensAt(t, k, h)
    ensures var i := |Gathered(pre, parent, t[..k]).1|;
      HeadsAs(Gathered(pre, parent, t).1, i, h, DomTree.Dominates(pre, parent, h, t[k].src))
    ensures LeavesNever(t, h) ==>
      h in Gathered(pre, parent, t).0 && Gathered(pre, parent, t).0[h] == |Gathered(pre, parent, t[..k]).1|
    decreases |t|
  {
    hide DomTree.IsParents, DomTree.Dominates, Gathered;
    var n := |t| - 1;
    RecordsAfter(pre, parent, t);
    GatherOne(pre, parent, t);
    assert t == t[..n] + [t[n]];
    if k == n {
      TouchedIff(pre, parent, t[..n], h);
      assert t[n] in t;
    } else {
      assert t[..n][..k] == t[..k];
      OpensLoop(pre, parent, t[..n], k, h);
    }
  }

  /** Records are only ever appended, and keep their headers. */
  lemma RecordsAfter(pre: seq<Block>, parent: seq<nat>, t: seq<Event>)
    requires DomTree.IsParents(pre, parent) && t != []
    ensures var n := |t| - 1; var s, s', e := Gathered(pre, parent, t[..n]), Gathered(pre, parent, t), t[n];
      && |s'.1| == |s.1| + (if e.BackEdge? && e.dst !in s.0 then 1 else 0)
      && (forall i :: 0 <= i < |s.1| ==> s'.1[i].header == s.1[i].header && s'.1[i].reducible == s.1[i].reducible)
      && (|s'.1| > |s.1| ==> HeadsAs(s'.1, |s.1|, e.dst, DomTree.Dominates(pre, parent, e.dst, e.src)))
  {
    hide DomTree.IsParents, DomTree.Dominates;
  }

  /** A block heads a loop exactly when the first call about it reports an edge to it: a block from which an edge was
      reported before heads none. */
  lemma {:induction false} HeadsLoopIff(pre: seq<Block>, parent: seq<nat>, t: seq<Event>, h: Block)
    requires DomTree.IsParents(pre, parent)
    ensures (exists i: nat :: HasHeader(Gathered(pre, parent, t).1, i, h)) <==> exists k: nat :: OpensAt(t, k, h)
  {
    hide DomTree.IsParents, DomTree.Dominates, Gathered, OpensAt;
    if k: nat :| OpensAt(t, k, h) {
      OpensLoop(pre, parent, t, k, h);
    } else {
      forall i: nat ensures !HasHeader(Gathered(pre, parent, t).1, i, h) {
        if HasHeader(Gathered(pre, parent, t).1, i, h) {
          var k := OpenedBy(pre, parent, t, i, h);
          assert false;
        }
      }
    }
  }

  lemma {:induction false} OpenedBy(pre: seq<Block>, parent: seq<nat>, t: seq<Event>, i: nat, h: Block) returns (k: nat)
    requires DomTree.IsParents(pre, parent) && HasHeader(Gathered(pre, parent, t).1, i, h)
    ensures OpensAt(t, k, h)
    decreases |t|
  {
    hide DomTree.IsParents, DomTree.Dominates, Gathered;
    NoneGathered(pre, parent);
    var n := |t| - 1;
    RecordsAfter(pre, parent, t);
    if HasHeader(Gathered(pre, parent, t[..n]).1, i, h) {
      k := OpenedBy(pre, parent, t[..n], i, h);
      assert t[..n][..k] == t[..k];
    } else {
      k := n;
      TouchedIff(pre, parent, t[..n], h);
    }
  }

  /** The sources of the edges that were reported while their targets had loop `i`, in the order of the calls. */
  ghost function SourcesOf(pre: seq<Block>, parent: seq<nat>, t: seq<Event>, i: nat): seq<Block>
    requires DomTree.IsParents(pre, parent)
  {
    if t == [] then [] else
      var n := |t| - 1;
      var e, s := t[n], Gathered(pre, parent, t).0;
      SourcesOf(pre, parent, t[..n], i) + if e.BackEdge? && e.src in s && s[e.src] == i then [e.src] else []
  }

  /** The body of a collected record lists the sources in the order of the calls. */
  lemma {:induction false} BodiesAreSources(pre: seq<Block>, parent: seq<nat>, t: seq<Event>, i: nat)
    requires DomTree.IsParents(pre, parent)
    ensures var s := Gathered(pre, parent, t);
      if i < |s.1| then s.1[i].body == SourcesOf(pre, parent, t, i) && s.1[i].backEdges == Elems(s.1[i].body)
      else SourcesOf(pre, parent, t, i) == []
  {
    hide DomTree.IsParents, DomTree.Dominates;
    if t != [] {
      var n := |t| - 1;
      BodiesAreSources(pre, parent, t[..n], i);
      GatheredInRange(pre, parent, t[..n]);
      GatheredInRange(pre, parent, t);
      var s := Gathered(pre, parent, t[..n]);
      if t[n].BackEdge? && i < |s.1| {
        ElemsOfSum(s.1[i].body, [t[n].src]);
      }
    }
  }
}
