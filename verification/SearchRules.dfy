/** The depth-first search told by rules instead of a stack (include/graph/dfs.hh): which call comes next, given
    only the calls so far. The rules leave no choice, so the order of all calls is determined by the graph. */
module SearchRules {
  import opened SetFacts
  import opened Cfg
  import opened Dfs
  import opened LoopWalks

  /** The search path: the nodes that are discovered and not finished, in the order of discovery. */
  ghost function Path(t: seq<Event>): seq<Block> {
    Except(Discovered(t), Elems(Finished(t)))
  }

  /** The targets reported for `u`, in the order of the reports. */
  ghost function ReportsOf(t: seq<Event>, u: Block): seq<Block> {
    if t == [] then [] else
      var e, rest := t[|t| - 1], ReportsOf(t[..|t| - 1], u);
      if e.BackEdge? && e.src == u then rest + [e.dst] else rest
  }

  /** The call `e` may follow the calls `t`. The first call discovers the head. Any other is about the last node of the
      path and its next successor in link order. */
  ghost predicate MayFollow(g: Graph, t: seq<Event>, e: Event) {
    if t == [] then e == Discover(g.head) else exists c: nat :: MayFollowAt(g, t, c, e)
  }

  ghost predicate MayFollowAt(g: Graph, t: seq<Event>, c: nat, e: Event) {
    Path(t) != [] && MayFollowFor(g, t, Path(t), Path(t)[|Path(t)| - 1], c, e)
  }

  /** All successors of `u` before place `c` are discovered, and those of them on the path are reported. If there is
      none at `c` the node is finished; one on the path is reported; any other is discovered, and is new. */
  ghost predicate MayFollowFor(g: Graph, t: seq<Event>, path: seq<Block>, u: Block, c: nat, e: Event) {
    && u < |g.succs| && c <= |g.succs[u]|
    && SeenUpTo(g.succs[u], c, Elems(Discovered(t)))
    && ReportsOf(t, u) == Only(g.succs[u][..c], Elems(path))
    && if c == |g.succs[u]| then e == Finish(u)
       else if g.succs[u][c] in path then e == BackEdge(u, g.succs[u][c])
       else g.succs[u][c] !in Discovered(t) && e == Discover(g.succs[u][c])
  }

  ghost predicate FollowsRules(g: Graph, t: seq<Event>) {
    forall i :: 0 <= i < |t| ==> MayFollow(g, t[..i], t[i])
  }

  // ---- the rules leave no choice ----

  lemma OneCursor(g: Graph, t: seq<Event>, c: nat, d: nat, e: Event, f: Event)
    requires MayFollowAt(g, t, c, e) && MayFollowAt(g, t, d, f)
    ensures d <= c
  {
    hide Discovered, ReportsOf, Path;
    var path := Path(t);
    var u := path[|path| - 1];
    if c < d {
      var succs := g.succs[u];
      assert succs[..d] == succs[..c] + [succs[c]] + succs[c + 1..d];
      OnlySum(succs[..c] + [succs[c]], succs[c + 1..d], Elems(path));
      FileNext(succs[..c], succs[c], Elems(path));
    }
  }

  lemma {:induction false} OnlySum(s: seq<Block>, u: seq<Block>, t: set<Block>)
    ensures Only(s + u, t) == Only(s, t) + Only(u, t)
  {
    if u == [] {
      assert s + u == s;
    } else {
      var n := |u| - 1;
      OnlySum(s, u[..n], t);
      assert s + u == (s + u[..n]) + [u[n]] && u == u[..n] + [u[n]];
      FileNext(s + u[..n], u[n], t);
      FileNext(u[..n], u[n], t);
    }
  }

  lemma OneCall(g: Graph, t: seq<Event>, e: Event, f: Event)
    requires MayFollow(g, t, e) && MayFollow(g, t, f)
    ensures e == f
  {
    hide Path, Discovered, ReportsOf, Only;
    if t != [] {
      var c: nat :| MayFollowAt(g, t, c, e);
      var d: nat :| MayFollowAt(g, t, d, f);
      OneCursor(g, t, c, d, e, f);
      OneCursor(g, t, d, c, f, e);
    }
  }

  /** Two runs of calls that follow the rules until the path is empty are the same. */
  lemma CallsDetermined(g: Graph, t: seq<Event>, u: seq<Event>)
    requires FollowsRules(g, t) && t != [] && Path(t) == []
    requires FollowsRules(g, u) && u != [] && Path(u) == []
    ensures t == u
  {
    hide MayFollow, Path;
    var i: nat := 0;
    while i < |t| && i < |u|
      invariant i <= |t| && i <= |u| && t[..i] == u[..i]
    {
      assert MayFollow(g, t[..i], t[i]) && MayFollow(g, u[..i], u[i]);
      OneCall(g, t[..i], t[i], u[i]);
      assert t[..i + 1] == t[..i] + [t[i]] && u[..i + 1] == u[..i] + [u[i]];
      i := i + 1;
    }
    assert t == t[..|t|] && u == u[..|u|];
    if i < |u| {
      assert u[..i] == t && MayFollow(g, u[..i], u[i]);
      NothingFollows(g, t, u[i]);
      assert false;
    }
    if i < |t| {
      assert t[..i] == u && MayFollow(g, t[..i], t[i]);
      NothingFollows(g, u, t[i]);
      assert false;
    }
  }

  lemma NothingFollows(g: Graph, t: seq<Event>, e: Event)
    requires t != [] && Path(t) == []
    ensures !MayFollow(g, t, e)
  {
  }

  // ---- the search follows the rules ----

  ghost function Nodes(stack: seq<Frame>): (r: seq<Block>)
    ensures |r| == |stack| && forall p :: 0 <= p < |stack| ==> r[p] == stack[p].node
  {
    seq(|stack|, p requires 0 <= p < |stack| => stack[p].node)
  }

  /** The successors that frame `p` has passed are reported if they are on the path up to it. */
  ghost predicate ReportedAt(g: Graph, t: seq<Event>, stack: seq<Frame>, p: nat)
    requires p < |stack|
  {
    var u := stack[p].node;
    && u < |g.succs| && stack[p].next <= |g.succs[u]|
    && ReportsOf(t, u) == Only(g.succs[u][..stack[p].next], Elems(Nodes(stack)[..p + 1]))
  }

  ghost predicate AllReported(g: Graph, t: seq<Event>, stack: seq<Frame>) {
    forall p: nat :: p < |stack| ==> ReportedAt(g, t, stack, p)
  }

  ghost predicate NewUnreported(color: map<Block, Color>, t: seq<Event>) {
    forall v :: v !in color ==> ReportsOf(t, v) == []
  }

  ghost predicate RulesInv(g: Graph, s: State) {
    && Inv(g, s) && FollowsRules(g, s.trace) && s.trace != []
    && Path(s.trace) == Nodes(s.stack)
    && AllReported(g, s.trace, s.stack) && NewUnreported(s.color, s.trace)
  }

  lemma ReportNext(t: seq<Event>, e: Event, u: Block)
    ensures ReportsOf(t + [e], u) == ReportsOf(t, u) + if e.BackEdge? && e.src == u then [e.dst] else []
  {
    assert (t + [e])[..|t|] == t;
  }

  lemma FollowsNext(g: Graph, t: seq<Event>, e: Event)
    requires FollowsRules(g, t) && MayFollow(g, t, e)
    ensures FollowsRules(g, t + [e])
  {
    hide MayFollow;
    forall i | 0 <= i < |t + [e]| ensures MayFollow(g, (t + [e])[..i], (t + [e])[i]) {
      if i < |t| {
        assert (t + [e])[..i] == t[..i] && MayFollow(g, t[..i], t[i]);
      } else {
        assert (t + [e])[..i] == t;
      }
    }
  }

  /** What the invariant of the search says about the top of the stack. */
  lemma TopFacts(g: Graph, s: State)
    requires Inv(g, s) && s.stack != []
    ensures var n := |s.stack| - 1; var u, k := s.stack[n].node, s.stack[n].next;
      && FramesInRange(g, s.stack) && u < |g.succs| && k <= |g.succs[u]|
      && SeenUpTo(g.succs[u], k, Elems(Discovered(s.trace)))
      && (forall v :: v in s.color <==> v in Discovered(s.trace))
      && (forall v :: v in Nodes(s.stack) <==> IsGrey(s.color, v))
      && (forall p :: 0 <= p < n ==> s.stack[p].node != u)
      && Distinct(Discovered(s.trace)) && (forall v :: v in Finished(s.trace) <==> IsBlack(s.color, v))
  {
    hide EdgesDone, BackEdgesSound, StackReaches, Discovered, Finished, HasEarlierPred, Reaches;
    var n := |s.stack| - 1;
    var u := s.stack[n].node;
    assert s.stack[n] in s.stack;
    forall v | IsGrey(s.color, v) ensures v in Nodes(s.stack) {
      assert OnStack(s.stack, v);
      var p :| 0 <= p < |s.stack| && s.stack[p].node == v;
      assert Nodes(s.stack)[p] == v;
    }
    forall j | 0 <= j < s.stack[n].next ensures g.succs[u][j] in Elems(Discovered(s.trace)) {
      assert Seen(s.color, s.stack, s.trace, n, g.succs[s.stack[n].node][j]);
      ReportedIsDiscovered(g, s, u, g.succs[u][j]);
    }
  }

  lemma ReportedIsDiscovered(g: Graph, s: State, u: Block, v: Block)
    requires Inv(g, s)
    ensures BackEdge(u, v) in s.trace ==> v in Discovered(s.trace)
  {
    hide Orders, StackIsPath, EdgesSeen, EdgesDone, Discovered, Finished;
  }

  // ---- the moves of a turn ----

  /** The state after the iterator of the top frame has passed one visited successor. */
  ghost function ScanOne(g: Graph, s: State): State
    requires s.stack != [] && FramesInRange(g, s.stack)
    requires var top := s.stack[|s.stack| - 1]; top.node < |g.succs| && top.next < |g.succs[top.node]|
  {
    var top := s.stack[|s.stack| - 1];
    var v := g.succs[top.node][top.next];
    State(s.color, s.stack[..|s.stack| - 1] + [Frame(top.next + 1, top.node)],
          s.trace + if IsGrey(s.color, v) then [BackEdge(top.node, v)] else [])
  }

  /** A turn that starts with a visited successor goes on as a turn from there. */
  lemma StepSplits(g: Graph, s: State)
    requires g.Valid() && s.stack != [] && FramesInRange(g, s.stack)
    requires var top := s.stack[|s.stack| - 1];
      top.node < |g.succs| && top.next < |g.succs[top.node]| && g.succs[top.node][top.next] in s.color
    ensures var s' := ScanOne(g, s);
      && s'.stack != [] && FramesInRange(g, s'.stack) && Step(g, s') == Step(g, s)
      && s' == Scanned(g, s, s.stack[|s.stack| - 1].next + 1)
  {
    var n := |s.stack| - 1;
    var top, s' := s.stack[n], ScanOne(g, s);
    var succs := g.succs[top.node];
    var j := FirstWhite(succs, s.color, top.next);
    assert j == FirstWhite(succs, s.color, top.next + 1);
    assert GreyEdges(top.node, succs, s.color, top.next + 1, top.next + 1) == [];
    assert s'.stack[..n] == s.stack[..n];
    assert s.trace + GreyEdges(top.node, succs, s.color, top.next, j)
        == s'.trace + GreyEdges(top.node, succs, s.color, top.next + 1, j);
  }

  /** The call that a state of the search makes, told from its top frame. */
  lemma FollowsTop(g: Graph, s: State, e: Event)
    requires RulesInv(g, s) && s.stack != [] && FramesInRange(g, s.stack)
    requires var top := s.stack[|s.stack| - 1];
      && top.node < |g.succs| && top.next <= |g.succs[top.node]|
      && if top.next == |g.succs[top.node]| then e == Finish(top.node)
         else var v := g.succs[top.node][top.next];
           if v in s.color then s.color[v] == Grey && e == BackEdge(top.node, v) else e == Discover(v)
    ensures FollowsRules(g, s.trace + [e])
  {
    hide Inv, Discovered, Finished, Path, FollowsRules, ReportsOf, Only;
    TopFacts(g, s);
    var n := |s.stack| - 1;
    assert ReportedAt(g, s.trace, s.stack, n) && Nodes(s.stack)[..n + 1] == Nodes(s.stack);
    assert MayFollowAt(g, s.trace, s.stack[n].next, e);
    FollowsNext(g, s.trace, e);
  }

  lemma ScanKeeps(g: Graph, s: State)
    requires RulesInv(g, s) && s.stack != [] && FramesInRange(g, s.stack)
    requires var top := s.stack[|s.stack| - 1];
      top.node < |g.succs| && top.next < |g.succs[top.node]| && g.succs[top.node][top.next] in s.color
    ensures RulesInv(g, ScanOne(g, s))
  {
    hide Inv, Discovered, Finished, Path, FollowsRules, AllReported, NewUnreported, Graph.Valid, Scanned;
    var n := |s.stack| - 1;
    var top, s' := s.stack[n], ScanOne(g, s);
    var v := g.succs[top.node][top.next];
    ValidGraph(g, s);
    StepSplits(g, s);
    ScanInv(g, s, top.next + 1);
    TopFacts(g, s);
    assert Nodes(s'.stack) == Nodes(s.stack);
    if IsGrey(s.color, v) {
      FollowsTop(g, s, BackEdge(top.node, v));
      PathNext(s.trace, BackEdge(top.node, v));
    } else {
      assert s'.trace == s.trace;
    }
    ScanReports(g, s);
  }

  lemma ScanReports(g: Graph, s: State)
    requires AllReported(g, s.trace, s.stack) && NewUnreported(s.color, s.trace)
    requires s.stack != [] && FramesInRange(g, s.stack)
    requires var n := |s.stack| - 1; var top := s.stack[n];
      && top.node < |g.succs| && top.next < |g.succs[top.node]| && g.succs[top.node][top.next] in s.color
      && (forall v :: v in Nodes(s.stack) <==> IsGrey(s.color, v))
      && forall p :: 0 <= p < n ==> s.stack[p].node != top.node
    ensures AllReported(g, ScanOne(g, s).trace, ScanOne(g, s).stack) && NewUnreported(s.color, ScanOne(g, s).trace)
  {
    hide ReportsOf, Only, Elems;
    var n := |s.stack| - 1;
    var top, s' := s.stack[n], ScanOne(g, s);
    var v := g.succs[top.node][top.next];
    assert Nodes(s'.stack) == Nodes(s.stack) && s.stack[n] in s.stack;
    assert top.node in Nodes(s.stack) by { assert Nodes(s.stack)[n] == top.node; }
    forall x ensures ReportsOf(s'.trace, x) == ReportsOf(s.trace, x) + Report(s, top.node, v, x) {
      ReportNext(s.trace, BackEdge(top.node, v), x);
      assert !IsGrey(s.color, v) ==> s'.trace == s.trace;
    }
    forall p: nat | p < |s'.stack| ensures ReportedAt(g, s'.trace, s'.stack, p) {
      assert ReportedAt(g, s.trace, s.stack, p);
      if p == n {
        assert g.succs[top.node][..top.next + 1] == g.succs[top.node][..top.next] + [v];
        assert Nodes(s.stack)[..n + 1] == Nodes(s.stack);
        FileNext(g.succs[top.node][..top.next], v, Elems(Nodes(s.stack)));
        ElemsAre(Nodes(s.stack));
      }
    }
  }

  ghost function Report(s: State, u: Block, v: Block, x: Block): seq<Block> {
    if x == u && IsGrey(s.color, v) then [v] else []
  }

  /** How a call changes the path. */
  lemma PathNext(t: seq<Event>, e: Event)
    ensures e.BackEdge? ==> Path(t + [e]) == Path(t)
    ensures e.Discover? && e.node !in Finished(t) ==> Path(t + [e]) == Path(t) + [e.node]
    ensures e.Finish? ==> Path(t + [e]) == Except(Path(t), {e.node})
  {
    hide Discovered, Finished, Except;
    AppendEvent(t, e);
    if e.Discover? {
      FileNext(Discovered(t), e.node, Elems(Finished(t)));
    }
    if e.Finish? {
      ElemsOfSum(Finished(t), [e.node]);
      assert Elems([e.node]) == {e.node};
      ExceptMore(Discovered(t), Elems(Finished(t)), {e.node});
    }
  }

  lemma {:induction false} ExceptMore(s: seq<Block>, t: set<Block>, u: set<Block>)
    ensures Except(s, t + u) == Except(Except(s, t), u)
  {
    if s != [] {
      var n := |s| - 1;
      ExceptMore(s[..n], t, u);
      FileNext(Except(s[..n], t), s[n], u);
      assert s[n] in t ==> Except(s, t) == Except(s[..n], t) && Except(s, t + u) == Except(s[..n], t + u);
    }
  }

  lemma {:induction false} ExceptNone(s: seq<Block>, t: set<Block>)
    requires forall x :: x in s ==> x !in t
    ensures Except(s, t) == s
  {
    if s != [] {
      assert s == s[..|s| - 1] + [s[|s| - 1]];
      ExceptNone(s[..|s| - 1], t);
    }
  }

  lemma FinishKeeps(g: Graph, s: State)
    requires RulesInv(g, s) && s.stack != [] && FramesInRange(g, s.stack)
    requires var top := s.stack[|s.stack| - 1]; top.node < |g.succs| && top.next == |g.succs[top.node]|
    ensures var u := s.stack[|s.stack| - 1].node;
      RulesInv(g, State(s.color[u := Black], s.stack[..|s.stack| - 1], s.trace + [Finish(u)]))
  {
    hide Inv, Discovered, Finished, Path, FollowsRules, ReportsOf, Only, Except, Graph.Valid;
    var n := |s.stack| - 1;
    var u, stack' := s.stack[n].node, s.stack[..n];
    FinishInv(g, s);
    TopFacts(g, s);
    FollowsTop(g, s, Finish(u));
    PathNext(s.trace, Finish(u));
    assert Nodes(s.stack) == Nodes(stack') + [u];
    FileNext(Nodes(stack'), u, {u});
    ExceptNone(Nodes(stack'), {u});
    forall x ensures ReportsOf(s.trace + [Finish(u)], x) == ReportsOf(s.trace, x) {
      ReportNext(s.trace, Finish(u), x);
    }
    forall p: nat | p < |stack'| ensures ReportedAt(g, s.trace + [Finish(u)], stack', p) {
      assert ReportedAt(g, s.trace, s.stack, p) && Nodes(stack')[..p + 1] == Nodes(s.stack)[..p + 1];
    }
  }

  lemma VisitKeeps(g: Graph, s: State)
    requires RulesInv(g, s) && s.stack != [] && FramesInRange(g, s.stack)
    requires var top := s.stack[|s.stack| - 1];
      top.node < |g.succs| && top.next < |g.succs[top.node]| && g.succs[top.node][top.next] !in s.color
    ensures var n := |s.stack| - 1; var u, c := s.stack[n].node, s.stack[n].next;
      RulesInv(g, Visit(State(s.color, s.stack[..n] + [Frame(c + 1, u)], s.trace), g.succs[u][c]))
  {
    hide Inv, Discovered, Finished, Path, FollowsRules, AllReported, NewUnreported, Graph.Valid;
    var n := |s.stack| - 1;
    var u, c := s.stack[n].node, s.stack[n].next;
    var v := g.succs[u][c];
    var s' := Visit(State(s.color, s.stack[..n] + [Frame(c + 1, u)], s.trace), v);
    EdgeToNext(g, s);
    VisitInv(g, s, u, v);
    TopFacts(g, s);
    FollowsTop(g, s, Discover(v));
    PathNext(s.trace, Discover(v));
    assert Nodes(s'.stack) == Nodes(s.stack) + [v];
    VisitReports(g, s);
  }

  lemma VisitReports(g: Graph, s: State)
    requires AllReported(g, s.trace, s.stack) && NewUnreported(s.color, s.trace) && s.stack != []
    requires var top := s.stack[|s.stack| - 1];
      && top.node < |g.succs| && top.next < |g.succs[top.node]| && g.succs[top.node][top.next] !in s.color
      && g.succs[top.node][top.next] < |g.succs| && forall v :: v in Nodes(s.stack) <==> IsGrey(s.color, v)
    ensures var n := |s.stack| - 1; var u, c := s.stack[n].node, s.stack[n].next;
      var s' := Visit(State(s.color, s.stack[..n] + [Frame(c + 1, u)], s.trace), g.succs[u][c]);
      AllReported(g, s'.trace, s'.stack) && NewUnreported(s'.color, s'.trace)
  {
    hide ReportsOf, Only, Elems, ReportedAt;
    var n := |s.stack| - 1;
    var u, c := s.stack[n].node, s.stack[n].next;
    var v := g.succs[u][c];
    var s' := Visit(State(s.color, s.stack[..n] + [Frame(c + 1, u)], s.trace), v);
    forall x ensures ReportsOf(s'.trace, x) == ReportsOf(s.trace, x) {
      ReportNext(s.trace, Discover(v), x);
    }
    forall p: nat | p < |s'.stack| ensures ReportedAt(g, s'.trace, s'.stack, p) {
      if p <= n {
        assert ReportedAt(g, s.trace, s.stack, p);
        VisitReportsAt(g, s, s', p, v);
      } else {
        NewFrame(g, s', v);
      }
    }
  }

  /** The new node is not on the path, so the frames below it have nothing to report. */
  lemma VisitReportsAt(g: Graph, s: State, s': State, p: nat, v: Block)
    requires p < |s.stack| && ReportedAt(g, s.trace, s.stack, p) && v !in Nodes(s.stack)
    requires |s'.stack| == |s.stack| + 1 && Nodes(s'.stack) == Nodes(s.stack) + [v]
    requires ReportsOf(s'.trace, s.stack[p].node) == ReportsOf(s.trace, s.stack[p].node)
    requires s'.stack[p] == s.stack[p]
             || (s'.stack[p] == Frame(s.stack[p].next + 1, s.stack[p].node)
                 && s.stack[p].next < |g.succs[s.stack[p].node]| && g.succs[s.stack[p].node][s.stack[p].next] == v)
    ensures ReportedAt(g, s'.trace, s'.stack, p)
  {
    hide ReportsOf, Only;
    var u, c := s.stack[p].node, s.stack[p].next;
    assert Nodes(s'.stack)[..p + 1] == Nodes(s.stack)[..p + 1];
    if s'.stack[p] != s.stack[p] {
      assert g.succs[u][..c + 1] == g.succs[u][..c] + [v];
      FileNext(g.succs[u][..c], v, Elems(Nodes(s.stack)[..p + 1]));
    }
  }

  lemma NewFrame(g: Graph, s: State, v: Block)
    requires s.stack != [] && s.stack[|s.stack| - 1] == Frame(0, v) && v < |g.succs| && ReportsOf(s.trace, v) == []
    ensures ReportedAt(g, s.trace, s.stack, |s.stack| - 1)
  {
  }

  lemma {:induction false} StepKeeps(g: Graph, s: State)
    requires RulesInv(g, s) && s.stack != [] && FramesInRange(g, s.stack) && g.Valid()
    ensures RulesInv(g, Step(g, s))
    decreases var top := s.stack[|s.stack| - 1]; if top.node < |g.succs| then |g.succs[top.node]| - top.next else 0
  {
    hide RulesInv, Graph.Valid;
    var n := |s.stack| - 1;
    var top := s.stack[n];
    assert top in s.stack;
    var succs := g.succs[top.node];
    if top.next < |succs| && succs[top.next] in s.color {
      ScanKeeps(g, s);
      StepSplits(g, s);
      StepKeeps(g, ScanOne(g, s));
    } else {
      assert FirstWhite(succs, s.color, top.next) == top.next;
      assert s.trace + GreyEdges(top.node, succs, s.color, top.next, top.next) == s.trace;
      if top.next == |succs| {
        FinishKeeps(g, s);
      } else {
        VisitKeeps(g, s);
      }
    }
  }

  lemma StartKeeps(g: Graph)
    requires g.Valid()
    ensures RulesInv(g, Start(g)) && FramesInRange(g, Start(g).stack)
  {
    hide Inv;
    StartInv(g);
    var s := Start(g);
    assert s.trace == [] + [Discover(g.head)];
    AppendEvent([], Discover(g.head));
    FileNext([], g.head, {});
    assert Elems<Block>([]) == {} && Finished(s.trace) == [] && Discovered(s.trace) == [g.head];
    assert Path(s.trace) == Except([] + [g.head], {});
    forall x ensures ReportsOf(s.trace, x) == [] {
      ReportNext([], Discover(g.head), x);
    }
  }

  lemma {:induction false} RunKeeps(g: Graph, s: State)
    requires g.Valid() && FramesInRange(g, s.stack) && RulesInv(g, s)
    ensures RulesInv(g, Run(g, s)) && Run(g, s).stack == []
    decreases |White(g, s)|, |s.stack|
  {
    hide RulesInv, Graph.Valid, Step, White, FramesInRange;
    if s.stack != [] {
      StepKeeps(g, s);
      StepProgress(g, s);
      StepShrinks(g, s);
      RunKeeps(g, Step(g, s));
    }
  }

  /** The calls of the search are the ones that the rules determine. */
  lemma TraceFollowsRules(g: Graph)
    requires g.Valid()
    ensures FollowsRules(g, Trace(g)) && Trace(g) != [] && Path(Trace(g)) == []
    ensures forall t :: FollowsRules(g, t) && t != [] && Path(t) == [] ==> t == Trace(g)
  {
    hide Inv, Run, Start, FollowsRules, Path;
    StartKeeps(g);
    RunKeeps(g, Start(g));
    forall t | FollowsRules(g, t) && t != [] && Path(t) == [] ensures t == Trace(g) {
      CallsDetermined(g, t, Trace(g));
    }
  }
}
