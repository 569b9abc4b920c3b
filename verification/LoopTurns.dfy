/** All searches in a row: which loop a block ends up in, and which loop a loop is nested in
    (include/analysis/loop_analyzer.hh). */
module LoopTurns {
  import opened SetFacts
  import opened Wrappers
  import opened Cfg
  import opened Dfs
  import opened LoopWalks
  import opened LoopRecords
  import opened LoopSearch
  import DomTree

  // ---- the turns of populate_loops ----

  /** What the builder knows between two turns. */
  datatype Stage = Stage(marked: set<Block>, data: map<Block, nat>, loops: seq<Loop>)

  /** The turn of `node`, whose loop is the one it has by then. */
  ghost predicate Turns(g: Graph, node: Block, s: Stage, s': Stage) {
    && HasEntry(node, s)
    && Populated(g, s.marked, s.data, s.loops, s'.marked, s'.data, s'.loops, s.data[node])
  }

  ghost predicate HasEntry(node: Block, s: Stage) {
    node in s.data && s.data[node] < |s.loops|
  }

  ghost predicate Populates(g: Graph, nodes: seq<Block>, stages: seq<Stage>) {
    |stages| == |nodes| + 1 && forall k :: 0 <= k < |nodes| ==> Turns(g, nodes[k], stages[k], stages[k + 1])
  }

  /** In the turn of `node` a reducible loop is searched, and `v` leads to one of its back edges past its header and
      the marks of earlier turns. */
  ghost predicate LeadsAt(g: Graph, node: Block, s: Stage, v: Block) {
    && HasEntry(node, s) && s.loops[s.data[node]].reducible
    && LeadsBack(g, s.loops[s.data[node]], s.marked, v)
  }

  ghost predicate LeadsBack(g: Graph, loop: Loop, marked: set<Block>, v: Block) {
    Leads(g, v, loop.backEdges - (marked + HeaderSet(loop)), marked + HeaderSet(loop))
  }

  /** The turn of `node` ties `v` to an irreducible loop again. */
  ghost predicate TiesAt(node: Block, s: Stage, v: Block) {
    HasEntry(node, s) && !s.loops[s.data[node]].reducible && v in s.loops[s.data[node]].backEdges
  }

  /** The turn of `node` meets a block of loop `i`, which is another loop. */
  ghost predicate MeetsAt(g: Graph, node: Block, s: Stage, i: nat) {
    HasEntry(node, s) && i != s.data[node] && exists v :: v in s.data && s.data[v] == i && LeadsAt(g, node, s, v)
  }

  lemma TurnData(g: Graph, node: Block, s: Stage, s': Stage, v: Block)
    requires Turns(g, node, s, s')
    ensures v in s'.data <==> v in s.data || LeadsAt(g, node, s, v)
    ensures v in s'.data ==>
      s'.data[v] == if v !in s.data || TiesAt(node, s, v) then s.data[node] else s.data[v]
    ensures SameHeaders(s.loops, s'.loops)
  {
    hide Leads, BodyGrown;
    assert LeadsAt(g, node, s, v) ==> LeadsBack(g, s.loops[s.data[node]], s.marked, v);
  }

  lemma TurnBody(g: Graph, node: Block, s: Stage, s': Stage, i: nat, v: Block)
    requires Turns(g, node, s, s') && i < |s.loops| == |s'.loops|
    ensures v in s'.loops[i].body <==> v in s.loops[i].body || (i == s.data[node] && v in s'.data && v !in s.data)
  {
    hide Leads, BodyGrown;
  }

  /** The blocks on the walk of a turn are those that lead to a back edge. */
  lemma SearchWalk(g: Graph, node: Block, s: Stage, s': Stage) returns (walk: seq<Block>)
    requires Turns(g, node, s, s') && s.loops[s.data[node]].reducible
    ensures Linked(s.data, s.loops, s'.loops, Elems(walk), s.data[node])
    ensures forall v :: v in Elems(walk) <==> LeadsAt(g, node, s, v)
  {
    hide Leads, BodyGrown, Linked;
    var cur := s.data[node];
    var avoid := s.marked + HeaderSet(s.loops[cur]);
    walk :| SearchedAlong(g, avoid, s.data, s.loops, s'.marked, s'.loops, cur, walk);
    WalkIsNew(g, avoid, s.loops[cur].backEdges, walk);
    forall v ensures v in Elems(walk) <==> LeadsAt(g, node, s, v) {
      if LeadsAt(g, node, s, v) {
        LeadsAvoids(g, v, s.loops[cur].backEdges - avoid, avoid);
      }
    }
  }

  lemma TieTurn(g: Graph, node: Block, s: Stage, s': Stage)
    requires Turns(g, node, s, s') && !s.loops[s.data[node]].reducible
    ensures s'.loops == s.loops
  {
  }

  lemma TurnLinks(g: Graph, node: Block, s: Stage, s': Stage, i: nat)
    requires Turns(g, node, s, s') && i < |s.loops| == |s'.loops|
    ensures s'.loops[i].outer ==
      if s.loops[i].outer.None? && MeetsAt(g, node, s, i) then Some(s.data[node]) else s.loops[i].outer
    ensures forall j: nat :: j in s'.loops[i].inners <==>
      j in s.loops[i].inners || (i == s.data[node] && j < |s.loops| && s.loops[j].outer.None? && MeetsAt(g, node, s, j))
  {
    hide Leads, BodyGrown, Populated;
    var cur := s.data[node];
    if s.loops[cur].reducible {
      var avoid := s.marked + HeaderSet(s.loops[cur]);
      var walk := SearchWalk(g, node, s, s');
      forall j: nat ensures TakenIn(s.data, s.loops, Elems(walk), j, cur) <==>
        j < |s.loops| && s.loops[j].outer.None? && MeetsAt(g, node, s, j)
      {
        assert forall v :: v in s.data && s.data[v] == j && LeadsAt(g, node, s, v) ==> v in Elems(walk);
      }
      assert LinkedAt(s.data, s.loops, s'.loops[i], Elems(walk), i, cur);
    } else {
      TieTurn(g, node, s, s');
    }
  }

  lemma {:induction false} StageShapes(g: Graph, nodes: seq<Block>, stages: seq<Stage>, n: nat)
    requires Populates(g, nodes, stages) && n <= |nodes|
    ensures SameHeaders(stages[0].loops, stages[n].loops) && stages[0].data.Keys <= stages[n].data.Keys
  {
    hide SameHeaders, Turns, LeadsAt, TiesAt;
    if n == 0 {
      HeadersReflexive(stages[0].loops);
    } else {
      StageShapes(g, nodes, stages, n - 1);
      assert Turns(g, nodes[n - 1], stages[n - 1], stages[n]);
      forall v | v in stages[0].data ensures v in stages[n].data {
        TurnData(g, nodes[n - 1], stages[n - 1], stages[n], v);
      }
      TurnData(g, nodes[n - 1], stages[n - 1], stages[n], 0);
      HeadersTransitive(stages[0].loops, stages[n - 1].loops, stages[n].loops);
    }
  }

  /** Back edges start, and bodies consist of, blocks that have a loop. */
  ghost predicate SourcesTied(s: Stage) {
    forall i, x :: 0 <= i < |s.loops| && (x in s.loops[i].backEdges || x in s.loops[i].body) ==> x in s.data
  }

  /** Turn `k` is the first one in which `v` leads to a back edge. */
  ghost predicate JoinsAt(g: Graph, nodes: seq<Block>, stages: seq<Stage>, k: nat, v: Block)
    requires |stages| == |nodes| + 1
  {
    k < |nodes| && LeadsAt(g, nodes[k], stages[k], v) && NeverLeads(g, nodes, stages, k, v)
  }

  ghost predicate NeverLeads(g: Graph, nodes: seq<Block>, stages: seq<Stage>, n: nat, v: Block)
    requires |stages| == |nodes| + 1 && n <= |nodes|
  {
    forall j :: 0 <= j < n ==> !LeadsAt(g, nodes[j], stages[j], v)
  }

  /** A block without a loop joins the loop of the first turn in which it leads to a back edge. */
  lemma {:induction false} UntiedJoins(g: Graph, nodes: seq<Block>, stages: seq<Stage>, n: nat, v: Block)
    requires Populates(g, nodes, stages) && n <= |nodes| && SourcesTied(stages[0]) && v !in stages[0].data
    ensures v !in stages[n].data <==> NeverLeads(g, nodes, stages, n, v)
    ensures forall k: nat :: k < n && JoinsAt(g, nodes, stages, k, v) ==>
      v in stages[n].data && HasEntry(nodes[k], stages[k]) && stages[n].data[v] == stages[k].data[nodes[k]]
    ensures v in stages[n].data ==> stages[n].data[v] < |stages[n].loops|
  {
    hide LeadsAt, SameHeaders, Turns;
    if n > 0 {
      TurnCount(g, nodes[n - 1], stages[n - 1], stages[n]);
      UntiedJoins(g, nodes, stages, n - 1, v);
      assert Turns(g, nodes[n - 1], stages[n - 1], stages[n]);
      TurnData(g, nodes[n - 1], stages[n - 1], stages[n], v);
      NeverTied(g, nodes, stages, n - 1, v);
      LeadsToLoop(g, nodes[n - 1], stages[n - 1], v);
    }
  }

  lemma LeadsToLoop(g: Graph, node: Block, s: Stage, v: Block)
    ensures LeadsAt(g, node, s, v) ==> HasEntry(node, s)
  {
  }

  lemma NeverTied(g: Graph, nodes: seq<Block>, stages: seq<Stage>, k: nat, v: Block)
    requires Populates(g, nodes, stages) && k < |nodes| && SourcesTied(stages[0]) && v !in stages[0].data
    ensures !TiesAt(nodes[k], stages[k], v)
  {
    hide Turns;
    StageShapes(g, nodes, stages, k);
  }

  /** It is in the body of the loop that it has joined, and in no other body. */
  lemma {:induction false} UntiedBody(g: Graph, nodes: seq<Block>, stages: seq<Stage>, n: nat, v: Block, i: nat)
    requires Populates(g, nodes, stages) && n <= |nodes| && SourcesTied(stages[0]) && v !in stages[0].data
    requires i < |stages[0].loops| == |stages[n].loops|
    ensures v in stages[n].loops[i].body <==> v in stages[n].data && stages[n].data[v] == i
  {
    hide LeadsAt, SameHeaders, Turns;
    if n > 0 {
      StageLoops(g, nodes, stages, n - 1);
      UntiedBody(g, nodes, stages, n - 1, v, i);
      assert Turns(g, nodes[n - 1], stages[n - 1], stages[n]);
      TurnData(g, nodes[n - 1], stages[n - 1], stages[n], v);
      TurnBody(g, nodes[n - 1], stages[n - 1], stages[n], i, v);
      NeverTied(g, nodes, stages, n - 1, v);
    }
  }

  lemma StageLoops(g: Graph, nodes: seq<Block>, stages: seq<Stage>, n: nat)
    requires Populates(g, nodes, stages) && n <= |nodes|
    ensures |stages[n].loops| == |stages[0].loops|
  {
    hide Turns;
    StageShapes(g, nodes, stages, n);
  }

  /** Turn `k` is the last one of the first `n` that ties `v` again. */
  ghost predicate TiesLast(nodes: seq<Block>, stages: seq<Stage>, n: nat, k: nat, v: Block)
    requires n <= |nodes| < |stages|
  {
    k < n && TiesAt(nodes[k], stages[k], v) && NeverTies(nodes, stages, k + 1, n, v)
  }

  ghost predicate NeverTies(nodes: seq<Block>, stages: seq<Stage>, from: nat, n: nat, v: Block)
    requires n <= |nodes| < |stages|
  {
    forall j :: from <= j < n ==> !TiesAt(nodes[j], stages[j], v)
  }

  /** The turn of `node` takes the mark off `v`, the header of the loop it has searched. */
  ghost predicate UnmarksAt(node: Block, s: Stage, v: Block) {
    HasEntry(node, s) && s.loops[s.data[node]].reducible && s.loops[s.data[node]].header == Some(v)
  }

  /** Turn `k` marks `v`, and no later one of the first `n` turns takes the mark off. */
  ghost predicate MarksForGood(g: Graph, nodes: seq<Block>, stages: seq<Stage>, n: nat, k: nat, v: Block)
    requires n <= |nodes| < |stages|
  {
    k < n && LeadsAt(g, nodes[k], stages[k], v) && forall j :: k < j < n ==> !UnmarksAt(nodes[j], stages[j], v)
  }

  /** What the marks are after `n` turns: the blocks that led to a back edge in some turn, unless they head a loop that
      was searched later. */
  lemma {:induction false} MarkedIff(g: Graph, nodes: seq<Block>, stages: seq<Stage>, n: nat, v: Block)
    requires Populates(g, nodes, stages) && n <= |nodes| && stages[0].marked == {}
    ensures v in stages[n].marked <==> exists k: nat :: MarksForGood(g, nodes, stages, n, k, v)
  {
    hide LeadsAt, Turns;
    if n > 0 {
      MarkedIff(g, nodes, stages, n - 1, v);
      assert Turns(g, nodes[n - 1], stages[n - 1], stages[n]);
      TurnMarks(g, nodes[n - 1], stages[n - 1], stages[n], v);
      if v in stages[n].marked {
        if LeadsAt(g, nodes[n - 1], stages[n - 1], v) {
          assert MarksForGood(g, nodes, stages, n, n - 1, v);
        } else {
          var k: nat :| MarksForGood(g, nodes, stages, n - 1, k, v);
          assert MarksForGood(g, nodes, stages, n, k, v);
        }
      }
      if k: nat :| MarksForGood(g, nodes, stages, n, k, v) {
        assert k < n - 1 ==> MarksForGood(g, nodes, stages, n - 1, k, v) && !UnmarksAt(nodes[n - 1], stages[n - 1], v);
      }
    }
  }

  lemma TurnMarks(g: Graph, node: Block, s: Stage, s': Stage, v: Block)
    requires Turns(g, node, s, s')
    ensures v in s'.marked <==> LeadsAt(g, node, s, v) || (v in s.marked && !UnmarksAt(node, s, v))
  {
    hide Leads, BodyGrown;
    if LeadsAt(g, node, s, v) {
      var loop := s.loops[s.data[node]];
      LeadsAvoids(g, v, loop.backEdges - (s.marked + HeaderSet(loop)), s.marked + HeaderSet(loop));
    }
  }

  /** A tied block keeps its loop until an irreducible loop ties it again, and the last one to do so has it. */
  lemma {:induction false} TiedKeeps(g: Graph, nodes: seq<Block>, stages: seq<Stage>, n: nat, v: Block)
    requires Populates(g, nodes, stages) && n <= |nodes| && v in stages[0].data
    ensures v in stages[n].data
    ensures NeverTies(nodes, stages, 0, n, v) ==> stages[n].data[v] == stages[0].data[v]
    ensures forall k: nat :: TiesLast(nodes, stages, n, k, v) ==>
      HasEntry(nodes[k], stages[k]) && stages[n].data[v] == stages[k].data[nodes[k]]
  {
    hide LeadsAt, SameHeaders, Turns;
    if n > 0 {
      TiedKeeps(g, nodes, stages, n - 1, v);
      assert Turns(g, nodes[n - 1], stages[n - 1], stages[n]);
      TurnData(g, nodes[n - 1], stages[n - 1], stages[n], v);
      forall k: nat | TiesLast(nodes, stages, n, k, v)
        ensures HasEntry(nodes[k], stages[k]) && stages[n].data[v] == stages[k].data[nodes[k]]
      {
        assert k < n - 1 ==> TiesLast(nodes, stages, n - 1, k, v);
      }
    }
  }

  /** Turn `k` is the first one in which a search for another loop meets a block of loop `i`. */
  ghost predicate NestsAt(g: Graph, nodes: seq<Block>, stages: seq<Stage>, k: nat, i: nat)
    requires |stages| == |nodes| + 1
  {
    k < |nodes| && MeetsAt(g, nodes[k], stages[k], i) && NeverMet(g, nodes, stages, k, i)
  }

  ghost predicate NeverMet(g: Graph, nodes: seq<Block>, stages: seq<Stage>, n: nat, i: nat)
    requires |stages| == |nodes| + 1 && n <= |nodes|
  {
    forall j :: 0 <= j < n ==> !MeetsAt(g, nodes[j], stages[j], i)
  }

  /** A loop is nested in the first loop whose search meets one of its blocks. */
  lemma {:induction false} OuterIsFirst(g: Graph, nodes: seq<Block>, stages: seq<Stage>, n: nat, i: nat)
    requires Populates(g, nodes, stages) && n <= |nodes| && i < |stages[0].loops| == |stages[n].loops|
    requires stages[0].loops[i].outer == None
    ensures stages[n].loops[i].outer == None <==> NeverMet(g, nodes, stages, n, i)
    ensures forall k: nat :: k < n && NestsAt(g, nodes, stages, k, i) ==>
      HasEntry(nodes[k], stages[k]) && stages[n].loops[i].outer == Some(stages[k].data[nodes[k]])
  {
    hide MeetsAt, SameHeaders, Turns;
    if n > 0 {
      StageLoops(g, nodes, stages, n - 1);
      OuterIsFirst(g, nodes, stages, n - 1, i);
      assert Turns(g, nodes[n - 1], stages[n - 1], stages[n]);
      TurnLinks(g, nodes[n - 1], stages[n - 1], stages[n], i);
      MeetsInLoop(g, nodes[n - 1], stages[n - 1], i);
    }
  }

  lemma MeetsInLoop(g: Graph, node: Block, s: Stage, i: nat)
    ensures MeetsAt(g, node, s, i) ==> HasEntry(node, s) && i != s.data[node]
  {
  }

  /** The inner loops of a loop are those that have it as their outer loop. */
  ghost predicate LinksAgree(loops: seq<Loop>) {
    && (forall i: nat, j: nat :: i < |loops| ==> (j in loops[i].inners <==> IsInside(loops, j, i)))
    && forall i: nat, j: nat :: IsInside(loops, j, i) ==> i < |loops| && i != j
  }

  ghost predicate IsInside(loops: seq<Loop>, j: nat, i: nat) {
    j < |loops| && loops[j].outer == Some(i)
  }

  lemma {:induction false} StagesAgree(g: Graph, nodes: seq<Block>, stages: seq<Stage>, n: nat)
    requires Populates(g, nodes, stages) && n <= |nodes| && LinksAgree(stages[0].loops)
    ensures LinksAgree(stages[n].loops)
  {
    hide Turns;
    if n > 0 {
      StagesAgree(g, nodes, stages, n - 1);
      assert Turns(g, nodes[n - 1], stages[n - 1], stages[n]);
      TurnAgrees(g, nodes[n - 1], stages[n - 1], stages[n]);
    }
  }

  lemma TurnAgrees(g: Graph, node: Block, s: Stage, s': Stage)
    requires Turns(g, node, s, s') && LinksAgree(s.loops)
    ensures LinksAgree(s'.loops)
  {
    hide Turns, MeetsAt, SameHeaders;
    TurnCount(g, node, s, s');
    forall i: nat, j: nat | IsInside(s'.loops, j, i) ensures i < |s'.loops| && i != j {
      TurnLinks(g, node, s, s', j);
      MeetsInLoop(g, node, s, j);
      assert IsInside(s.loops, j, i) ==> i < |s.loops| && i != j;
    }
    forall i: nat, j: nat | i < |s'.loops| ensures j in s'.loops[i].inners <==> IsInside(s'.loops, j, i) {
      TurnLinks(g, node, s, s', i);
      MeetsInLoop(g, node, s, j);
      if j < |s.loops| {
        TurnLinks(g, node, s, s', j);
      }
      assert j in s.loops[i].inners <==> IsInside(s.loops, j, i);
    }
  }

  lemma TurnCount(g: Graph, node: Block, s: Stage, s': Stage)
    requires Turns(g, node, s, s')
    ensures HasEntry(node, s) && |s'.loops| == |s.loops|
  {
    TurnData(g, node, s, s', 0);
  }

  // ---- the finished tree ----

  /** The root loop takes the free blocks that no search has met, in their order, and the loops without an outer one. */
  ghost predicate Rooted(s: Stage, free: seq<Block>, data: map<Block, nat>, loops: seq<Loop>) {
    var root := |s.loops|;
    && |loops| == root + 1 && loops[root].header == None && loops[root].outer == None
    && loops[root].body == Except(free, s.data.Keys)
    && data.Keys == s.data.Keys + Elems(free)
    && (forall v :: v in data ==> data[v] == if v in s.data then s.data[v] else root)
    && (forall i :: 0 <= i < root ==>
      loops[i] == if s.loops[i].outer.Some? then s.loops[i] else s.loops[i].(outer := Some(root)))
    && forall i: nat :: i in loops[root].inners <==> i < root && s.loops[i].outer.None?
  }

  /** The blocks that have a loop when the back edges have been collected. */
  ghost function TiedBlocks(g: Graph, parent: seq<nat>): set<Block>
    requires g.Valid() && DomTree.IsParents(Preorder(g), parent)
  {
    Gathered(Preorder(g), parent, Trace(g)).0.Keys
  }

  /** The turns go over the tied blocks in reverse postorder, from the records as they were collected. */
  ghost predicate BuiltBy(g: Graph, parent: seq<nat>, stages: seq<Stage>, data: map<Block, nat>, loops: seq<Loop>)
    requires g.Valid() && DomTree.IsParents(Preorder(g), parent)
  {
    var start, tied := Gathered(Preorder(g), parent, Trace(g)), TiedBlocks(g, parent);
    && Populates(g, Only(ReversePostorder(g), tied), stages) && stages[0] == Stage({}, start.0, start.1)
    && Rooted(stages[|stages| - 1], Except(Postorder(g), tied), data, loops)
  }

  /** A block that was not tied is in the body of one loop: the first one, in the order of the turns, whose back edges
      it leads to, and the root if there is none. A tied one has the loop it was tied to last. */
  ghost predicate EntrySettled(g: Graph, nodes: seq<Block>, stages: seq<Stage>, data: map<Block, nat>, loops: seq<Loop>,
                               v: Block)
    requires |stages| == |nodes| + 1
  {
    && v in data
    && if v in stages[0].data then
         && (NeverTies(nodes, stages, 0, |nodes|, v) ==> data[v] == stages[0].data[v])
         && forall k: nat :: TiesLast(nodes, stages, |nodes|, k, v) ==>
           HasEntry(nodes[k], stages[k]) && data[v] == stages[k].data[nodes[k]]
       else
         && (NeverLeads(g, nodes, stages, |nodes|, v) ==> data[v] == |stages[0].loops|)
         && (forall k: nat :: JoinsAt(g, nodes, stages, k, v) ==>
           HasEntry(nodes[k], stages[k]) && data[v] == stages[k].data[nodes[k]])
         && forall i :: 0 <= i < |loops| ==> (v in loops[i].body <==> i == data[v])
  }

  /** A loop is nested in the first other loop whose search meets a block of it, and in the root if there is none. */
  ghost predicate OuterSettled(g: Graph, nodes: seq<Block>, stages: seq<Stage>, loops: seq<Loop>, i: nat)
    requires |stages| == |nodes| + 1 && i < |loops|
  {
    && (NeverMet(g, nodes, stages, |nodes|, i) ==> loops[i].outer == Some(|stages[0].loops|))
    && forall k: nat :: NestsAt(g, nodes, stages, k, i) ==>
      HasEntry(nodes[k], stages[k]) && loops[i].outer == Some(stages[k].data[nodes[k]])
  }

  ghost predicate LoopsSettled(g: Graph, nodes: seq<Block>, stages: seq<Stage>, data: map<Block, nat>, loops: seq<Loop>)
    requires g.Valid() && |stages| == |nodes| + 1
  {
    && |loops| == |stages[0].loops| + 1 && LinksAgree(loops)
    && (forall v :: v in Preorder(g) ==> EntrySettled(g, nodes, stages, data, loops, v))
    && forall i :: 0 <= i < |loops| - 1 ==> OuterSettled(g, nodes, stages, loops, i)
  }

  /** The records as collected: nothing is linked yet. */
  ghost predicate Unlinked(s: Stage) {
    SourcesTied(s) && forall i :: 0 <= i < |s.loops| ==> s.loops[i].outer == None && s.loops[i].inners == {}
  }

  lemma {:induction false} GatheredUnlinked(pre: seq<Block>, parent: seq<nat>, t: seq<Event>)
    requires DomTree.IsParents(pre, parent)
    ensures var s := Gathered(pre, parent, t); Unlinked(Stage({}, s.0, s.1))
  {
    hide DomTree.IsParents, DomTree.Dominates;
    if t != [] {
      GatheredUnlinked(pre, parent, t[..|t| - 1]);
    }
  }

  lemma UnlinkedAgrees(s: Stage)
    requires Unlinked(s)
    ensures LinksAgree(s.loops)
  {
  }

  lemma BuiltEntry(g: Graph, parent: seq<nat>, stages: seq<Stage>, data: map<Block, nat>, loops: seq<Loop>, v: Block)
    requires g.Valid() && DomTree.IsParents(Preorder(g), parent) && BuiltBy(g, parent, stages, data, loops)
    requires v in Preorder(g)
    ensures EntrySettled(g, Only(ReversePostorder(g), TiedBlocks(g, parent)), stages, data, loops, v)
  {
    hide Graph.Valid, Preorder, Postorder, Trace, DomTree.IsParents, Gathered, Turns, LeadsAt, TiesAt, SameHeaders;
    var tied := TiedBlocks(g, parent);
    var nodes, s := Only(ReversePostorder(g), tied), stages[|stages| - 1];
    GatheredUnlinked(Preorder(g), parent, Trace(g));
    StageLoops(g, nodes, stages, |nodes|);
    PostorderHas(g, v);
    FileMembers(Postorder(g), tied);
    if v in tied {
      TiedKeeps(g, nodes, stages, |nodes|, v);
    } else {
      FreeHas(g, tied, v, s, data, loops);
      UntiedJoins(g, nodes, stages, |nodes|, v);
      forall i: nat | i < |s.loops|
        ensures v in s.loops[i].body <==> v in s.data && s.data[v] == i
      {
        UntiedBody(g, nodes, stages, |nodes|, v, i);
      }
      RootedBody(s, Except(Postorder(g), tied), data, loops, v);
    }
  }

  lemma RootedBody(s: Stage, free: seq<Block>, data: map<Block, nat>, loops: seq<Loop>, v: Block)
    requires Rooted(s, free, data, loops) && v in data && (v in loops[|s.loops|].body <==> v !in s.data)
    requires forall i :: 0 <= i < |s.loops| ==> (v in s.loops[i].body <==> v in s.data && s.data[v] == i)
    requires v in s.data ==> s.data[v] < |s.loops|
    ensures forall i :: 0 <= i < |loops| ==> (v in loops[i].body <==> i == data[v])
  {
    hide Except;
  }

  lemma PostorderHas(g: Graph, v: Block)
    requires g.Valid() && v in Preorder(g)
    ensures v in Postorder(g)
  {
    ReachedExactlyOnce(g);
  }

  lemma FreeHas(g: Graph, tied: set<Block>, v: Block, s: Stage, data: map<Block, nat>, loops: seq<Loop>)
    requires g.Valid() && v in Postorder(g) && v !in tied
    requires Rooted(s, Except(Postorder(g), tied), data, loops)
    ensures v in data && (v in loops[|s.loops|].body <==> v !in s.data)
  {
    FileMembers(Postorder(g), tied);
    FileMembers(Except(Postorder(g), tied), s.data.Keys);
  }

  lemma BuiltOuter(g: Graph, parent: seq<nat>, stages: seq<Stage>, data: map<Block, nat>, loops: seq<Loop>, i: nat)
    requires g.Valid() && DomTree.IsParents(Preorder(g), parent) && BuiltBy(g, parent, stages, data, loops)
    requires |stages| > 0 && i < |stages[0].loops| && i < |loops|
    ensures OuterSettled(g, Only(ReversePostorder(g), TiedBlocks(g, parent)), stages, loops, i)
  {
    hide Graph.Valid, Preorder, Postorder, Trace, DomTree.IsParents, Gathered, Turns, MeetsAt, SameHeaders;
    var nodes := Only(ReversePostorder(g), TiedBlocks(g, parent));
    GatheredUnlinked(Preorder(g), parent, Trace(g));
    StageLoops(g, nodes, stages, |nodes|);
    OuterIsFirst(g, nodes, stages, |nodes|, i);
  }

  lemma RootedAgrees(s: Stage, free: seq<Block>, data: map<Block, nat>, loops: seq<Loop>)
    requires LinksAgree(s.loops) && Rooted(s, free, data, loops)
    ensures LinksAgree(loops)
  {
    hide Except;
    forall i: nat, j: nat ensures IsInside(loops, j, i) <==>
      IsInside(s.loops, j, i) || (i == |s.loops| && j < i && s.loops[j].outer == None)
    {
    }
  }

  /** Every block has the loop, and every loop the outer loop, that the turns give it. */
  lemma BuiltSettles(g: Graph, parent: seq<nat>, stages: seq<Stage>, data: map<Block, nat>, loops: seq<Loop>)
    requires g.Valid() && DomTree.IsParents(Preorder(g), parent) && BuiltBy(g, parent, stages, data, loops)
    ensures |stages| == |Only(ReversePostorder(g), TiedBlocks(g, parent))| + 1
    ensures LoopsSettled(g, Only(ReversePostorder(g), TiedBlocks(g, parent)), stages, data, loops)
  {
    hide Graph.Valid, Preorder, Postorder, Trace, DomTree.IsParents, Gathered, Turns, EntrySettled, OuterSettled,
      LinksAgree;
    var nodes := Only(ReversePostorder(g), TiedBlocks(g, parent));
    GatheredUnlinked(Preorder(g), parent, Trace(g));
    UnlinkedAgrees(stages[0]);
    StagesAgree(g, nodes, stages, |nodes|);
    StageLoops(g, nodes, stages, |nodes|);
    RootedAgrees(stages[|nodes|], Except(Postorder(g), TiedBlocks(g, parent)), data, loops);
    forall v | v in Preorder(g) ensures EntrySettled(g, nodes, stages, data, loops, v) {
      BuiltEntry(g, parent, stages, data, loops, v);
    }
    forall i | 0 <= i < |loops| - 1 ensures OuterSettled(g, nodes, stages, loops, i) {
      BuiltOuter(g, parent, stages, data, loops, i);
    }
  }
}
