/** The loop tree (include/analysis/loop_analyzer.hh). */
module LoopTree {
  import opened SetFacts
  import opened Wrappers
  import opened Cfg
  import opened Dfs
  import opened LoopWalks
  import opened LoopRecords
  import opened LoopSearch
  import opened LoopTurns
  import DomTree

  // ---- graphs with one loop ----

  /** The search reports the edge u -> h, and no other. */
  ghost predicate OnlyBackEdge(g: Graph, u: Block, h: Block)
    requires g.Valid()
  {
    BackEdge(u, h) in Trace(g) && OnlyReported(Trace(g), u, h)
  }

  ghost predicate OnlyReported(t: seq<Event>, u: Block, h: Block) {
    forall e :: e in t && e.BackEdge? ==> e == BackEdge(u, h)
  }

  /** The records when the back edges have been collected: one loop that holds its latch. */
  ghost predicate OneRecord(data: map<Block, nat>, loops: seq<Loop>, u: Block, h: Block, reducible: bool) {
    && data == map[h := 0][u := 0] && |loops| == 1
    && loops[0].header == Some(h) && loops[0].reducible == reducible && loops[0].backEdges == {u}
    && loops[0].body != [] && forall x :: x in loops[0].body ==> x == u
  }

  lemma {:induction false} OneGathered(pre: seq<Block>, parent: seq<nat>, t: seq<Event>, u: Block, h: Block)
    requires DomTree.IsParents(pre, parent) && OnlyReported(t, u, h)
    ensures var s := Gathered(pre, parent, t);
      if BackEdge(u, h) in t then OneRecord(s.0, s.1, u, h, DomTree.Dominates(pre, parent, h, u)) else s == (map[], [])
  {
    hide DomTree.IsParents, DomTree.Dominates;
    if t != [] {
      var n := |t| - 1;
      assert t == t[..n] + [t[n]] && t[n] in t;
      OneGathered(pre, parent, t[..n], u, h);
      var s := Gathered(pre, parent, t[..n]);
      if t[n].BackEdge? {
        TieOnce(s.0, s.1, u, h, DomTree.Dominates(pre, parent, h, u));
      }
    }
  }

  lemma TieOnce(data: map<Block, nat>, loops: seq<Loop>, u: Block, h: Block, reducible: bool)
    requires OneRecord(data, loops, u, h, reducible) || (data == map[] && loops == [])
    ensures var s := TieTo(Opened(data, loops, h, reducible), u, h); OneRecord(s.0, s.1, u, h, reducible)
  {
    if data == map[] {
      assert loops + [NewLoop(h, reducible)] == [NewLoop(h, reducible)];
      assert [] + [u] == [u];
    }
  }

  /** The body of the loop with latch `u` and header `h`: the latch and what leads to it past the header, every
      block after one that it has an edge to. */
  ghost predicate BodyOf(g: Graph, u: Block, h: Block, body: seq<Block>) {
    && (forall x :: x in body <==> x == u || Leads(g, x, {u} - {h}, {h}))
    && exists was, now :: IsTies(was, u) && BodyGrown(g, {h}, {u, h}, now, {u}, was, body)
  }

  ghost predicate IsTies(was: seq<Block>, u: Block) {
    was != [] && forall x :: x in was ==> x == u
  }

  ghost predicate Filled(g: Graph, data: map<Block, nat>, loops: seq<Loop>, u: Block, h: Block, reducible: bool) {
    && {u, h} <= data.Keys && (forall v :: v in data ==> data[v] == 0) && |loops| == 1
    && loops[0].header == Some(h) && loops[0].reducible == reducible && loops[0].backEdges == {u}
    && (reducible ==> BodyOf(g, u, h, loops[0].body))
  }

  lemma PopulateFirst(g: Graph, data: map<Block, nat>, loops: seq<Loop>, marked': set<Block>, data': map<Block, nat>,
                      loops': seq<Loop>, u: Block, h: Block, reducible: bool)
    requires OneRecord(data, loops, u, h, reducible) && Populated(g, {}, data, loops, marked', data', loops', 0)
    ensures Filled(g, data', loops', u, h, reducible) && (reducible && u != h ==> u in marked')
  {
    hide Leads, BodyGrown;
    if reducible {
      var body := loops'[0].body;
      assert {} + HeaderSet(loops[0]) == {h} && data.Keys == {u, h} && loops[0].body[0] in loops[0].body;
      forall x ensures x in body <==> x == u || Leads(g, x, {u} - {h}, {h}) {
        if Leads(g, x, {u} - {h}, {h}) {
          LeadsAvoids(g, x, {u} - {h}, {h});
        }
        assert x in loops[0].body <==> x == u;
      }
      assert IsTies(loops[0].body, u) && BodyGrown(g, {h}, {u, h}, data'.Keys, {u}, loops[0].body, body);
    }
  }

  lemma PopulateAgain(g: Graph, marked: set<Block>, data: map<Block, nat>, loops: seq<Loop>, marked': set<Block>,
                      data': map<Block, nat>, loops': seq<Loop>, u: Block, h: Block, reducible: bool)
    requires Filled(g, data, loops, u, h, reducible) && (reducible && u != h ==> u in marked)
    requires Populated(g, marked, data, loops, marked', data', loops', 0)
    ensures Filled(g, data', loops', u, h, reducible) && (reducible && u != h ==> u in marked')
  {
    hide BodyOf;
    if reducible {
      var avoid := marked + HeaderSet(loops[0]);
      assert loops[0].backEdges - avoid == {};
      assert data'.Keys == data.Keys;
      GrownByNothing(g, avoid, data.Keys, loops[0].backEdges, loops[0].body, loops'[0].body);
    }
  }

  /** Where populating stands after `k` of the loops, if there is one record only. */
  ghost predicate PopulatedTo(g: Graph, data: map<Block, nat>, loops: seq<Loop>, marked': set<Block>,
                              data': map<Block, nat>, loops': seq<Loop>, k: nat) {
    forall u, h, reducible :: OneRecord(data, loops, u, h, reducible) ==>
      if k == 0 then marked' == {} && data' == data && loops' == loops
      else Filled(g, data', loops', u, h, reducible) && (reducible && u != h ==> u in marked')
  }

  lemma PopulateNext(g: Graph, data: map<Block, nat>, loops: seq<Loop>, marked: set<Block>, data1: map<Block, nat>,
                     loops1: seq<Loop>, marked': set<Block>, data': map<Block, nat>, loops': seq<Loop>, k: nat,
                     cur: nat)
    requires PopulatedTo(g, data, loops, marked, data1, loops1, k) && cur < |loops1| == |loops|
    requires Populated(g, marked, data1, loops1, marked', data', loops', cur)
    ensures PopulatedTo(g, data, loops, marked', data', loops', k + 1)
  {
    hide Filled, Populated;
    forall u, h, reducible | OneRecord(data, loops, u, h, reducible)
      ensures Filled(g, data', loops', u, h, reducible) && (reducible && u != h ==> u in marked')
    {
      assert cur == 0;
      if k == 0 {
        PopulateFirst(g, data, loops, marked', data', loops', u, h, reducible);
      } else {
        PopulateAgain(g, marked, data1, loops1, marked', data', loops', u, h, reducible);
      }
    }
  }

  lemma {:induction false} OnePopulated(g: Graph, nodes: seq<Block>, stages: seq<Stage>, n: nat)
    requires Populates(g, nodes, stages) && n <= |nodes| && stages[0].marked == {}
    ensures PopulatedTo(g, stages[0].data, stages[0].loops, stages[n].marked, stages[n].data, stages[n].loops, n)
  {
    hide PopulatedTo, Populated;
    var s, s' := stages[0], stages[n];
    if n == 0 {
      PopulateNothing(g, s.data, s.loops);
    } else {
      OnePopulated(g, nodes, stages, n - 1);
      StageLoops(g, nodes, stages, n - 1);
      var mid := stages[n - 1];
      assert Turns(g, nodes[n - 1], mid, s');
      PopulateNext(g, s.data, s.loops, mid.marked, mid.data, mid.loops, s'.marked, s'.data, s'.loops, n - 1,
        mid.data[nodes[n - 1]]);
    }
  }

  lemma PopulateNothing(g: Graph, data: map<Block, nat>, loops: seq<Loop>)
    ensures PopulatedTo(g, data, loops, {}, data, loops, 0)
  {
  }

  /** The loop as the finished tree records it: header `h` heads a loop, nothing else does, and if the loop was
      found to be reducible its body is complete. */
  ghost predicate LoopRecorded(g: Graph, data: map<Block, nat>, loops: seq<Loop>, u: Block, h: Block, reducible: bool) {
    && h in data && data[h] < |loops| && loops[data[h]].header == Some(h) && loops[data[h]].reducible == reducible
    && (forall x :: x in data && data[x] < |loops| && loops[data[x]].header == Some(x) ==> x == h)
    && (reducible ==> BodyOf(g, u, h, loops[data[h]].body))
  }

  /** If the search reports one edge only, its loop is recorded, and it is reducible if the tree says so. */
  ghost predicate RecordsLoop(g: Graph, parent: seq<nat>, data: map<Block, nat>, loops: seq<Loop>)
    requires g.Valid() && DomTree.IsParents(Preorder(g), parent)
  {
    forall u, h :: OnlyBackEdge(g, u, h) ==>
      LoopRecorded(g, data, loops, u, h, DomTree.Dominates(Preorder(g), parent, h, u))
  }

  ghost predicate TreeRecorded(g: Graph, sdom: seq<nat>, parent: seq<nat>, data: map<Block, nat>, loops: seq<Loop>)
    requires g.Valid()
  {
    && DomTree.IsParents(Preorder(g), parent) && DomTree.IsComputed(g, Preorder(g), sdom, parent)
    && RecordsLoop(g, parent, data, loops) && exists stages :: TreeSettled(g, parent, stages, data, loops)
  }

  /** The turns behind a finished tree, and what they settle. */
  ghost predicate TreeSettled(g: Graph, parent: seq<nat>, stages: seq<Stage>, data: map<Block, nat>, loops: seq<Loop>)
    requires g.Valid() && DomTree.IsParents(Preorder(g), parent)
  {
    && BuiltBy(g, parent, stages, data, loops)
    && |stages| == |Only(ReversePostorder(g), TiedBlocks(g, parent))| + 1
    && LoopsSettled(g, Only(ReversePostorder(g), TiedBlocks(g, parent)), stages, data, loops)
  }

  lemma NoElems()
    ensures Elems<Block>([]) == {}
  {
  }

  lemma OneMoreElem(s: seq<Block>, k: nat)
    requires k < |s|
    ensures Elems(s[..k + 1]) == Elems(s[..k]) + {s[k]}
  {
    assert s[..k + 1] == s[..k] + [s[k]];
  }

  lemma OneMoreFiled(s: seq<Block>, k: nat, t: set<Block>)
    requires k < |s|
    ensures Except(s[..k + 1], t) == Except(s[..k], t) + if s[k] in t then [] else [s[k]]
    ensures Distinct(s) ==> s[k] !in Elems(s[..k])
  {
    assert s[..k + 1] == s[..k] + [s[k]];
    FileNext(s[..k], s[k], t);
  }

  class LoopTreeBuilder {
    const graph: Graph
    const dom3: DomTree.Tree
    ghost const parent: seq<nat>
    var dfsNodes: seq<Block>
    var freeNodes: seq<Block>
    var marked: set<Block>   // the nodes whose mark is BLACK
    var data: map<Block, nat>
    var loops: seq<Loop>

    ghost predicate Setting()
      reads this
    {
      && graph.Valid() && LinksMirrored(graph) && PredsReached(graph)
      && DomTree.IsTree(dom3, Preorder(graph), parent)
    }

    constructor (g: Graph, tree: DomTree.Tree, ghost p: seq<nat>)
      requires g.Valid() && LinksMirrored(g) && PredsReached(g) && DomTree.IsTree(tree, Preorder(g), p)
      ensures graph == g && parent == p && Setting() && dfsNodes == freeNodes == [] && marked == {}
      ensures data == map[] && loops == []
    {
      graph, dom3, parent := g, tree, p;
      dfsNodes, freeNodes, marked, data, loops := [], [], {}, map[], [];
    }

    /** The visitor's back_edge: opens a loop for a new header, and ties the source to the target's loop. */
    method OnBackEdge(src: Block, dst: Block)
      requires Setting() && Collecting(Preorder(graph), data, loops)
      requires src in Preorder(graph) && dst in Preorder(graph)
      requires Num(Preorder(graph), dst) <= Num(Preorder(graph), src)
      modifies this`data, this`loops
      ensures Collecting(Preorder(graph), data, loops)
      ensures data.Keys == old(data).Keys + {src, dst}
      ensures (data, loops) == TieTo(
        Opened(old(data), old(loops), dst, DomTree.Dominates(Preorder(graph), parent, dst, src)), src, dst)
    {
      hide Collecting, Num, LinksMirrored, PredsReached, Graph.Valid, Preorder, DomTree.IsTree, DomTree.Dominates;
      if dst !in data {
        var reducible := DomTree.DominatesQuery(dom3, dst, src, Preorder(graph), parent);
        NewLoopKeeps(Preorder(graph), data, loops, dst, reducible);
        data := data[dst := |loops|];
        loops := loops + [NewLoop(dst, reducible)];
      }
      var cur := data[dst];
      DataInRange(Preorder(graph), data, loops);
      TieKeeps(Preorder(graph), data, loops, src, dst);
      data := data[src := cur];
      loops := loops[cur := loops[cur].(backEdges := loops[cur].backEdges + {src}, body := loops[cur].body + [src])];
    }

    /** The search with the loop visitor: back edges build the loops, and finished nodes are sorted by
        whether they have a loop by then. */
    method CollectBackEdges()
      requires Setting() && data == map[] && loops == [] && dfsNodes == freeNodes == []
      modifies this`data, this`loops, this`dfsNodes, this`freeNodes
      ensures Collecting(Preorder(graph), data, loops)
      ensures DomTree.IsParents(Preorder(graph), parent)
      ensures (data, loops) == Gathered(Preorder(graph), parent, Trace(graph))
      ensures dfsNodes == Only(ReversePostorder(graph), data.Keys) && freeNodes == Except(Postorder(graph), data.Keys)
      ensures forall v :: v in dfsNodes <==> v in data
      ensures forall v :: v in freeNodes <==> v in Preorder(graph) && v !in data
      ensures !HasCycle(graph) ==> data == map[] && loops == [] && dfsNodes == []
    {
      hide Collecting, Num, LinksMirrored, PredsReached, Graph.Valid, Preorder, Postorder, Finished, HasCycle,
        DomTree.IsTree, DomTree.IsParents, DomTree.Dominates, TieTo, Opened, Gathered, Trace, Only, Except;
      var search := new DepthFirstSearch(graph);
      search.DfsImpl();
      var calls := search.calls;
      NothingCollected(Preorder(graph));
      KnownParents();
      NothingGathered();
      AcyclicHasNone(graph);
      FinishedPrefix(calls, 0);
      NothingFiled(data.Keys);
      ReportedFirst(graph);
      for k := 0 to |calls|
        invariant Collecting(Preorder(graph), data, loops)
        invariant (data, loops) == Gathered(Preorder(graph), parent, calls[..k])
        invariant dfsNodes == Only(Finished(calls[..k]), data.Keys)
        invariant freeNodes == Except(Finished(calls[..k]), data.Keys)
        invariant forall v :: v in Finished(calls[..k]) ==> v in Preorder(graph)
        invariant !HasCycle(graph) ==> data == map[] && loops == [] && dfsNodes == []
      {
        FinishedPrefix(calls, k + 1);
        CallsAreReached(graph, calls[k]);
        GatherNext(Preorder(graph), parent, calls, k);
        match calls[k]
        case Discover(_) =>
        case BackEdge(src, dst) =>
          StillOpen(calls, k);
          ghost var before := data.Keys;
          OnBackEdge(src, dst);
          FileSame(Finished(calls[..k]), before, data.Keys);
        case Finish(node) =>
          FileNext(Finished(calls[..k]), node, data.Keys);
          if node in data {
            dfsNodes := dfsNodes + [node];
          } else {
            freeNodes := freeNodes + [node];
          }
      }
      AllFinished(graph);
      assert calls[..|calls|] == calls;
      CollectedAreReached();
      OnlyReversed(Postorder(graph), data.Keys);
      FiledMembers();
      dfsNodes := Reversed(dfsNodes);
    }

    lemma NothingFiled(t: set<Block>)
      ensures Only([], t) == [] && Except([], t) == []
    {
    }

    lemma FiledMembers()
      requires graph.Valid() && forall v :: v in data ==> v in Preorder(graph)
      ensures forall v :: v in Only(ReversePostorder(graph), data.Keys) <==> v in data
      ensures forall v :: v in Except(Postorder(graph), data.Keys) <==> v in Preorder(graph) && v !in data
      ensures Postorder(graph) == Finished(Trace(graph)) && ReversePostorder(graph) == Reversed(Postorder(graph))
    {
      hide Graph.Valid, Preorder, Only, Except;
      ReachedExactlyOnce(graph);
      ReversePostorderIsTopological(graph);
      FileMembers(ReversePostorder(graph), data.Keys);
      FileMembers(Postorder(graph), data.Keys);
    }

    lemma KnownParents()
      requires Setting()
      ensures DomTree.IsParents(Preorder(graph), parent)
    {
    }

    lemma NothingGathered()
      requires Setting()
      ensures Gathered(Preorder(graph), parent, []) == (map[], [])
    {
    }

    lemma StillOpen(calls: seq<Event>, k: nat)
      requires ReportsOpen(calls) && k < |calls| && calls[k].BackEdge?
      ensures calls[k].src !in Finished(calls[..k]) && calls[k].dst !in Finished(calls[..k])
    {
    }

    lemma CollectedAreReached()
      requires Setting() && Collecting(Preorder(graph), data, loops)
      ensures forall v :: v in data ==> v in Preorder(graph)
    {
    }

    /** Walks predecessors from the source of a back edge up to marked nodes: the nodes it marks are exactly
        those that lead to `node` past the marks, and those of them without a loop join loop `cur`. */
    method LoopSearch(node: Block, cur: nat) returns (ghost walk: seq<Block>)
      requires Setting() && WellFormed(Preorder(graph), data, loops)
      requires node in Preorder(graph) && cur < |loops|
      modifies this`marked, this`data, this`loops
      ensures WellFormed(Preorder(graph), data, loops) && cur < |loops| == |old(loops)|
      ensures old(marked) <= marked && node in marked && BackClosed(graph, old(marked), marked)
      ensures Found(graph, old(marked), old(data), old(loops), marked, data, loops, node, cur)
      ensures Walked(graph, old(marked), old(data), old(loops), marked, loops, {node}, cur, walk)
      decreases Elems(Preorder(graph)) - marked
    {
      hide WellFormed, Num, LinksMirrored, PredsReached, Graph.Valid, Preorder, DomTree.IsTree, BackClosed, Found,
        SeenUpTo, Walked, Linked;
      NothingFound(graph, marked, data, loops, node, cur);
      NothingWalked(graph, marked, data, loops, {node}, cur);
      walk := [];
      if node in marked {
        return;
      }
      marked := marked + {node};
      JoinLoop(node, cur);
      walk := [node];
      FirstWalked(graph, old(marked), old(data), old(loops), loops, node, cur);
      FirstFound(graph, old(marked), old(data), old(loops), data, loops, node, cur);
      NodeInRange(graph, node);
      OneMarked(graph, old(marked), node);
      var preds := graph.preds[node];
      NoneYet(preds, marked);
      for k := 0 to |preds|
        invariant WellFormed(Preorder(graph), data, loops) && cur < |loops| == |old(loops)|
        invariant old(marked) + {node} <= marked && SeenUpTo(preds, k, marked)
        invariant BackClosed(graph, old(marked) + {node}, marked) && node in data
        invariant Found(graph, old(marked), old(data), old(loops), marked, data, loops, node, cur)
        invariant walk != [] && walk[0] == node
        invariant Walked(graph, old(marked), old(data), old(loops), marked, loops, {node}, cur, walk)
      {
        PredIsReached(graph, node, preds[k]);
        ghost var loops0, marked0, data0 := loops, marked, data;
        ghost var on := LoopSearch(preds[k], cur);
        FoundJoins(graph, old(marked), old(data), old(loops), marked0, data0, loops0, node, cur);
        WalkedByPred(graph, old(marked), old(data), old(loops), marked0, data0, loops0, marked, loops, node, k, cur,
          walk, on);
        walk := walk + on;
        FoundNext(graph, old(marked), old(data), old(loops), marked0, data0, loops0, marked, data, loops, node,
          preds[k], cur);
        ClosedTransitive(graph, old(marked) + {node}, marked0, marked);
        SeenNext(preds, k, marked0, marked);
      }
      ClosedAtNode(graph, old(marked), marked, node);
    }

    /** A block without a loop is added to the loop; the loop of any other block becomes an inner one, unless
        it has an outer loop already. */
    method JoinLoop(node: Block, cur: nat)
      requires graph.Valid() && WellFormed(Preorder(graph), data, loops)
      requires node in Preorder(graph) && cur < |loops|
      modifies this`data, this`loops
      ensures WellFormed(Preorder(graph), data, loops) && SameHeaders(old(loops), loops)
      ensures data == if node in old(data) then old(data) else old(data)[node := cur]
      ensures |loops| == |old(loops)|
      ensures forall i :: 0 <= i < |loops| ==>
        loops[i].body == if i == cur && node !in old(data) then old(loops)[i].body + [node] else old(loops)[i].body
      ensures Linked(old(data), old(loops), loops, {node}, cur)
    {
      hide WellFormed, SameHeaders, Num, Preorder;
      if node !in data {
        JoinKeeps(Preorder(graph), data, loops, cur, node);
        loops := loops[cur := loops[cur].(body := loops[cur].body + [node])];
        data := data[node := cur];
      } else {
        EntryInRange(Preorder(graph), data, loops);
        var inner := data[node];
        if inner != cur && loops[inner].outer.None? {
          ghost var before := loops;
          loops := loops[cur := loops[cur].(inners := loops[cur].inners + {inner})];
          loops := loops[inner := loops[inner].(outer := Some(cur))];
          RelinkKeeps(Preorder(graph), data, before, loops);
        }
      }
      StillSameHeaders(old(loops), loops);
    }

    /** One turn for every block of the list, for the loop that the block has by then. */
    method PopulateLoops() returns (ghost stages: seq<Stage>)
      requires Setting() && WellFormed(Preorder(graph), data, loops)
      requires forall v :: v in dfsNodes ==> v in data
      modifies this`marked, this`data, this`loops
      ensures WellFormed(Preorder(graph), data, loops)
      ensures Populates(graph, dfsNodes, stages)
      ensures stages[0] == Stage(old(marked), old(data), old(loops))
      ensures stages[|dfsNodes|] == Stage(marked, data, loops)
    {
      hide WellFormed, SameHeaders, Num, LinksMirrored, PredsReached, Graph.Valid, Preorder, DomTree.IsTree,
        Populated;
      stages := [Stage(marked, data, loops)];
      for k := 0 to |dfsNodes|
        invariant WellFormed(Preorder(graph), data, loops) && old(data).Keys <= data.Keys
        invariant |stages| == k + 1 && stages[0] == Stage(old(marked), old(data), old(loops))
        invariant stages[k] == Stage(marked, data, loops)
        invariant forall j :: 0 <= j < k ==> Turns(graph, dfsNodes[j], stages[j], stages[j + 1])
      {
        EntryInRange(Preorder(graph), data, loops);
        assert dfsNodes[k] in dfsNodes;
        PopulateLoop(data[dfsNodes[k]]);
        stages := stages + [Stage(marked, data, loops)];
      }
    }

    /** The blocks without a loop that lead to a back edge of a reducible loop past its header and the marks
        join it. The sources of an irreducible loop are tied to it. */
    method PopulateLoop(cur: nat)
      requires Setting() && WellFormed(Preorder(graph), data, loops) && cur < |loops|
      modifies this`marked, this`data, this`loops
      ensures WellFormed(Preorder(graph), data, loops)
      ensures |loops| == |old(loops)| && old(data).Keys <= data.Keys
      ensures Populated(graph, old(marked), old(data), old(loops), marked, data, loops, cur)
    {
      hide WellFormed, SameHeaders, Preorder, Leads, LinksMirrored, PredsReached, Graph.Valid, DomTree.IsTree,
        BodyGrown, Walked, WalkEnds;
      if loops[cur].reducible {
        var header := loops[cur].header;
        if header.Some? {
          marked := marked + {header.value};
        }
        assert marked == old(marked) + HeaderSet(loops[cur]);
        ghost var walk := SearchSources(cur);
        ghost var avoid := old(marked) + HeaderSet(old(loops)[cur]);
        WalkedMarks(graph, avoid, old(data), old(loops), marked, loops, old(loops)[cur].backEdges, cur, walk);
        if header.Some? {
          marked := marked - {header.value};
        }
        assert SearchedAlong(graph, avoid, old(data), old(loops), marked, loops, cur, walk);
      } else {
        RetieSources(cur);
      }
    }

    /** One search from every back edge of the loop, in any order. */
    method SearchSources(cur: nat) returns (ghost walk: seq<Block>)
      requires Setting() && WellFormed(Preorder(graph), data, loops) && cur < |loops|
      modifies this`marked, this`data, this`loops
      ensures WellFormed(Preorder(graph), data, loops)
      ensures |loops| == |old(loops)| && old(data).Keys <= data.Keys
      ensures forall v :: v in data <==>
        v in old(data) || Leads(graph, v, old(loops)[cur].backEdges - old(marked), old(marked))
      ensures forall v :: v in data ==> data[v] == if v in old(data) then old(data)[v] else cur
      ensures forall i :: 0 <= i < |loops| && i != cur ==> loops[i].body == old(loops)[i].body
      ensures forall v :: v in loops[cur].body <==> v in old(loops)[cur].body || (v in data && v !in old(data))
      ensures BodyGrown(graph, old(marked), old(data).Keys, data.Keys, old(loops)[cur].backEdges,
                        old(loops)[cur].body, loops[cur].body)
      ensures SameHeaders(old(loops), loops) && old(marked) + old(loops)[cur].backEdges <= marked
      ensures forall v :: v in marked <==>
        v in old(marked) || Leads(graph, v, old(loops)[cur].backEdges - old(marked), old(marked))
      ensures Walked(graph, old(marked), old(data), old(loops), marked, loops, old(loops)[cur].backEdges, cur, walk)
      ensures WalkEnds(graph, old(marked), old(loops)[cur].backEdges, walk)
    {
      hide WellFormed, SameHeaders, Num, LinksMirrored, PredsReached, Graph.Valid, Preorder, DomTree.IsTree,
        BackClosed, AllLead, Joined, Leads, BodyGrown, Found, Walked;
      walk := [];
      NothingWalked(graph, marked, data, loops, loops[cur].backEdges, cur);
      HeadersReflexive(loops);
      NothingGrown(graph, marked, data.Keys, loops[cur].backEdges, loops[cur].body);
      var sources := loops[cur].backEdges;
      SourcesReached(Preorder(graph), data, loops, cur);
      ghost var avoid, all := marked, sources;
      NothingMarked(graph, all - avoid, avoid, data, loops, cur);
      while sources != {}
        invariant WellFormed(Preorder(graph), data, loops) && |loops| == |old(loops)|
        invariant sources <= all && avoid <= marked && all - sources <= marked
        invariant BackClosed(graph, avoid, marked) && AllLead(graph, all - avoid, avoid, marked)
        invariant Joined(avoid, marked, old(data), data, old(loops), loops, cur)
        invariant BodyGrown(graph, avoid, old(data).Keys, data.Keys, all, old(loops)[cur].body, loops[cur].body)
        invariant SameHeaders(old(loops), loops)
        invariant Walked(graph, avoid, old(data), old(loops), marked, loops, all, cur, walk)
        decreases |sources|
      {
        var source :| source in sources;
        sources := sources - {source};
        ghost var loops0, marked0, data0 := loops, marked, data;
        ghost var on := LoopSearch(source, cur);
        WalkedBySource(graph, avoid, old(data), old(loops), marked0, data0, loops0, marked, loops, all, source,
          cur, walk, on);
        walk := walk + on;
        FoundFacts(graph, marked0, data0, loops0, marked, data, loops, source, cur);
        HeadersTransitive(old(loops), loops0, loops);
        AddedAreMarked(graph, avoid, marked0, old(data), data0, old(loops), loops0, cur, avoid, all);
        AddedAreMarked(graph, marked0, marked, data0, data, loops0, loops, cur, marked0, {source});
        GrownBySource(graph, avoid, marked0, old(data).Keys, data0.Keys, data.Keys, all, source, old(loops)[cur].body,
          loops0[cur].body, loops[cur].body);
        ClosedTransitive(graph, avoid, marked0, marked);
        LeadMore(graph, all - avoid, source, avoid, marked0, marked);
        JoinedTransitive(avoid, marked0, marked, old(data), data0, data, old(loops), loops0, loops, cur);
      }
      LoopFilled(graph, all, avoid, marked, old(data), data, old(loops), loops, cur);
      WalkedToEnd(graph, avoid, old(data), old(loops), marked, loops, all, cur, walk);
    }

    /** The sources of an irreducible loop, in any order. */
    method RetieSources(cur: nat)
      requires Setting() && WellFormed(Preorder(graph), data, loops) && cur < |loops|
      modifies this`data
      ensures WellFormed(Preorder(graph), data, loops) && data.Keys == old(data).Keys
      ensures forall v :: v in data ==> data[v] == if v in loops[cur].backEdges then cur else old(data)[v]
    {
      hide WellFormed, Num, LinksMirrored, PredsReached, Graph.Valid, Preorder, DomTree.IsTree;
      var sources := loops[cur].backEdges;
      SourcesReached(Preorder(graph), data, loops, cur);
      while sources != {}
        invariant WellFormed(Preorder(graph), data, loops)
        invariant sources <= loops[cur].backEdges && data.Keys == old(data).Keys
        invariant forall v :: v in data ==> data[v] == if v in loops[cur].backEdges - sources then cur else old(data)[v]
        decreases |sources|
      {
        var source :| source in sources;
        sources := sources - {source};
        if source in data {
          RetieKeeps(Preorder(graph), data, loops, cur, source);
          data := data[source := cur];
        }
      }
    }

    /** The blocks that are in no loop yet make up the body of the root loop, and every loop without an outer
        one becomes an inner loop of it. */
    method InitRootLoop()
      requires Setting() && WellFormed(Preorder(graph), data, loops)
      requires forall v :: v in freeNodes ==> v in Preorder(graph)
      modifies this`data, this`loops
      ensures WellFormed(Preorder(graph), data, loops)
      ensures |loops| == |old(loops)| + 1 && loops[|old(loops)|].header == None
      ensures data.Keys == old(data).Keys + Elems(freeNodes)
      ensures forall v :: v in data ==> data[v] == if v in old(data) then old(data)[v] else |old(loops)|
      ensures Distinct(freeNodes) ==> loops[|old(loops)|].body == Except(freeNodes, old(data).Keys)
      ensures loops[|old(loops)|].outer == None
      ensures forall i :: 0 <= i < |old(loops)| ==>
        loops[i] == if old(loops)[i].outer.Some? then old(loops)[i] else old(loops)[i].(outer := Some(|old(loops)|))
      ensures forall i: nat :: i in loops[|old(loops)|].inners <==> i < |old(loops)| && old(loops)[i].outer.None?
    {
      hide WellFormed, Num, LinksMirrored, PredsReached, Graph.Valid, Preorder, DomTree.IsTree, Elems, Except;
      RootKeeps(Preorder(graph), data, loops);
      var root := |loops|;
      loops := loops + [ROOT];
      NoElems();
      NothingFiled(data.Keys);
      for k := 0 to |freeNodes|
        invariant WellFormed(Preorder(graph), data, loops) && |loops| == root + 1
        invariant data.Keys == old(data).Keys + Elems(freeNodes[..k])
        invariant forall v :: v in data ==> data[v] == if v in old(data) then old(data)[v] else root
        invariant Distinct(freeNodes) ==> loops[root].body == Except(freeNodes[..k], old(data).Keys)
        invariant loops == old(loops) + [ROOT.(body := loops[root].body)]
      {
        OneMoreElem(freeNodes, k);
        OneMoreFiled(freeNodes, k, old(data).Keys);
        if freeNodes[k] !in data {
          JoinKeeps(Preorder(graph), data, loops, root, freeNodes[k]);
          data := data[freeNodes[k] := root];
          loops := loops[root := loops[root].(body := loops[root].body + [freeNodes[k]])];
        }
      }
      assert freeNodes[..|freeNodes|] == freeNodes;
      TieInners(root);
    }

    /** The second loop: ties every loop without an outer one to the root. */
    method TieInners(root: nat)
      requires Setting() && WellFormed(Preorder(graph), data, loops)
      requires |loops| == root + 1 && loops[root].inners == {}
      modifies this`loops
      ensures WellFormed(Preorder(graph), data, loops) && |loops| == root + 1
      ensures loops[root].(inners := {}) == old(loops)[root]
      ensures forall i :: 0 <= i < root ==>
        loops[i] == if old(loops)[i].outer.Some? then old(loops)[i] else old(loops)[i].(outer := Some(root))
      ensures forall i: nat :: i in loops[root].inners <==> i < root && old(loops)[i].outer.None?
    {
      hide WellFormed, Num, LinksMirrored, PredsReached, Graph.Valid, Preorder, DomTree.IsTree;
      for i := 0 to root
        invariant WellFormed(Preorder(graph), data, loops) && |loops| == root + 1
        invariant loops[root].(inners := {}) == old(loops)[root]
        invariant forall j :: i <= j < root ==> loops[j] == old(loops)[j]
        invariant forall j :: 0 <= j < i ==>
          loops[j] == if old(loops)[j].outer.Some? then old(loops)[j] else old(loops)[j].(outer := Some(root))
        invariant forall j: nat :: j in loops[root].inners <==> j < i && old(loops)[j].outer.None?
      {
        if loops[i].outer.None? {
          ghost var before := loops;
          loops := loops[root := loops[root].(inners := loops[root].inners + {i})];
          loops := loops[i := loops[i].(outer := Some(root))];
          RelinkKeeps(Preorder(graph), data, before, loops);
        }
      }
    }

    method BuildTree()
      requires Setting() && data == map[] && loops == [] && dfsNodes == freeNodes == [] && marked == {}
      modifies this
      ensures IsLoopTree(graph, data, loops)
      ensures DomTree.IsParents(Preorder(graph), parent) && RecordsLoop(graph, parent, data, loops)
      ensures exists stages :: TreeSettled(graph, parent, stages, data, loops)
    {
      hide WellFormed, Collecting, LinksMirrored, PredsReached, Graph.Valid, Preorder, Postorder, DomTree.IsTree,
        HasCycle, Reaches, DomTree.IsParents, DomTree.Dominates, PopulatedTo, LoopRecorded, OnlyBackEdge, Gathered,
        Populates, LoopsSettled, Only, Except;
      CollectBackEdges();
      CollectingNests(Preorder(graph), data, loops);
      ghost var stages := PopulateLoops();
      PopulatesLength(graph, dfsNodes, stages);
      OnePopulated(graph, dfsNodes, stages, |dfsNodes|);
      ghost var data1, loops1 := data, loops;
      ElemsAre(freeNodes);
      FreeDistinct(stages[0].data.Keys);
      InitRootLoop();
      ReachedExactlyOnce(graph);
      forall u, h | OnlyBackEdge(graph, u, h)
        ensures LoopRecorded(graph, data, loops, u, h, DomTree.Dominates(Preorder(graph), parent, h, u))
      {
        OneIsRecorded(stages[0].data, stages[0].loops, data1, loops1, u, h);
      }
      assert BuiltBy(graph, parent, stages, data, loops);
      BuiltSettles(graph, parent, stages, data, loops);
      assert TreeSettled(graph, parent, stages, data, loops);
    }

    lemma FreeDistinct(t: set<Block>)
      requires graph.Valid()
      ensures Distinct(Except(Postorder(graph), t))
    {
      ReachedExactlyOnce(graph);
      FileDistinct(Postorder(graph), t);
    }

    lemma PopulatesLength(g: Graph, nodes: seq<Block>, stages: seq<Stage>)
      requires Populates(g, nodes, stages)
      ensures |stages| == |nodes| + 1 && |stages[|nodes|].loops| == |stages[0].loops|
      ensures stages[0].data.Keys <= stages[|nodes|].data.Keys
      ensures nodes == [] ==> stages[|nodes|] == stages[0]
    {
      StageLoops(g, nodes, stages, |nodes|);
      StageShapes(g, nodes, stages, |nodes|);
    }

    lemma OneIsRecorded(data0: map<Block, nat>, loops0: seq<Loop>, data1: map<Block, nat>, loops1: seq<Loop>,
                        u: Block, h: Block)
      requires Setting() && OnlyBackEdge(graph, u, h) && DomTree.IsParents(Preorder(graph), parent)
      requires (data0, loops0) == Gathered(Preorder(graph), parent, Trace(graph))
      requires forall v :: v in dfsNodes <==> v in data0
      requires PopulatedTo(graph, data0, loops0, marked, data1, loops1, |dfsNodes|)
      requires |loops| == |loops1| + 1 && loops[|loops1|].header == None
      requires data.Keys >= data1.Keys && forall v :: v in data ==> data[v] == if v in data1 then data1[v] else |loops1|
      requires forall i :: 0 <= i < |loops1| ==>
        loops[i] == if loops1[i].outer.Some? then loops1[i] else loops1[i].(outer := Some(|loops1|))
      ensures LoopRecorded(graph, data, loops, u, h, DomTree.Dominates(Preorder(graph), parent, h, u))
    {
      hide Graph.Valid, DomTree.IsTree, LinksMirrored, PredsReached, Preorder, Trace, DomTree.IsParents,
        DomTree.Dominates, Gathered, BodyOf;
      var reducible := DomTree.Dominates(Preorder(graph), parent, h, u);
      OneGathered(Preorder(graph), parent, Trace(graph), u, h);
      assert OneRecord(data0, loops0, u, h, reducible) && h in dfsNodes;
      assert Filled(graph, data1, loops1, u, h, reducible);
    }

    lemma FinishedPrefix(calls: seq<Event>, k: nat)
      requires k <= |calls|
      ensures Finished(calls[..k]) == if k == 0 then [] else
        if calls[k - 1].Finish? then Finished(calls[..k - 1]) + [calls[k - 1].node] else Finished(calls[..k - 1])
    {
      if k > 0 {
        assert calls[..k] == calls[..k - 1] + [calls[k - 1]];
        AppendEvent(calls[..k - 1], calls[k - 1]);
      }
    }

    lemma DataInRange(pre: seq<Block>, data: map<Block, nat>, loops: seq<Loop>)
      requires Collecting(pre, data, loops)
      ensures forall v :: v in data ==> data[v] < |loops|
    {
    }
  }

  /** LoopTreeBuilder::build: dominator tree first, then the loops. */
  method BuildLoopTree(g: Graph) returns (data: map<Block, nat>, loops: seq<Loop>)
    requires g.Valid() && LinksMirrored(g) && PredsReached(g)
    ensures IsLoopTree(g, data, loops)
    ensures exists sdom, parent :: TreeRecorded(g, sdom, parent, data, loops)
  {
    hide RecordsLoop, DomTree.IsComputed, DomTree.SpansReached;
    var dom3, parent := DomTree.BuildDomTree(g);
    ghost var sdom :| DomTree.IsComputed(g, Preorder(g), sdom, parent);
    var builder := new LoopTreeBuilder(g, dom3, parent);
    builder.BuildTree();
    data, loops := builder.data, builder.loops;
    assert TreeRecorded(g, sdom, parent, data, loops);
  }
}
