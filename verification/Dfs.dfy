/** Iterative depth-first search with an explicit stack (include/graph/dfs.hh). */
module Dfs {
  import opened SetFacts
  import opened Cfg

  datatype Color = Grey | Black

  /** The calls that the search makes to its visitor, in order. */
  datatype Event = Discover(node: Block) | Finish(node: Block) | BackEdge(src: Block, dst: Block)

  /** An entry of the explicit stack: the successor to look at next, and the node it belongs to. */
  datatype Frame = Frame(next: nat, node: Block)

  /** `m_visited`, `m_stack` (top at the end) and the visitor calls so far. A node without a color is white. */
  datatype State = State(color: map<Block, Color>, stack: seq<Frame>, trace: seq<Event>)

  ghost predicate FramesInRange(g: Graph, stack: seq<Frame>) {
    forall f :: f in stack ==> f.node < |g.succs| && f.next <= |g.succs[f.node]|
  }

  /** The first successor from `i` on that is still white, or the number of successors. */
  ghost function FirstWhite(succs: seq<Block>, color: map<Block, Color>, i: nat): (r: nat)
    requires i <= |succs|
    ensures i <= r <= |succs|
    ensures forall j :: i <= j < r ==> succs[j] in color
    ensures r < |succs| ==> succs[r] !in color
    decreases |succs| - i
  {
    if i < |succs| && succs[i] in color then FirstWhite(succs, color, i + 1) else i
  }

  /** The back edges reported while the iterator moves from `i` to `j`. */
  ghost function GreyEdges(u: Block, succs: seq<Block>, color: map<Block, Color>, i: nat, j: nat): (r: seq<Event>)
    requires i <= j <= |succs| && forall k :: i <= k < j ==> succs[k] in color
    ensures forall e :: e in r <==> exists k :: i <= k < j && color[succs[k]] == Grey && e == BackEdge(u, succs[k])
    decreases j - i
  {
    if i == j then []
    else (if color[succs[i]] == Grey then [BackEdge(u, succs[i])] else []) + GreyEdges(u, succs, color, i + 1, j)
  }

  ghost function Visit(s: State, v: Block): State {
    State(s.color[v := Grey], s.stack + [Frame(0, v)], s.trace + [Discover(v)])
  }

  /** One turn of the loop. */
  ghost function Step(g: Graph, s: State): State
    requires g.Valid() && s.stack != [] && FramesInRange(g, s.stack)
  {
    var top := s.stack[|s.stack| - 1];
    var rest := s.stack[..|s.stack| - 1];
    assert top in s.stack;
    var succs := g.succs[top.node];
    var j := FirstWhite(succs, s.color, top.next);
    var trace := s.trace + GreyEdges(top.node, succs, s.color, top.next, j);
    if j == |succs| then
      State(s.color[top.node := Black], rest, trace + [Finish(top.node)])
    else
      Visit(State(s.color, rest + [Frame(j + 1, top.node)], trace), succs[j])
  }

  ghost function White(g: Graph, s: State): set<Block> {
    set v: Block | v < |g.succs| && v !in s.color
  }

  lemma StepProgress(g: Graph, s: State)
    requires g.Valid() && s.stack != [] && FramesInRange(g, s.stack)
    ensures FramesInRange(g, Step(g, s).stack)
    ensures var s' := Step(g, s);
      White(g, s') < White(g, s) || (White(g, s') <= White(g, s) && |s'.stack| < |s.stack|)
  {
    var top := s.stack[|s.stack| - 1];
    assert top in s.stack;
    var succs := g.succs[top.node];
    var j := FirstWhite(succs, s.color, top.next);
    if j < |succs| {
      assert succs[j] in g.succs[top.node];
      assert succs[j] in White(g, s) - White(g, Step(g, s));
    }
  }

  /** The search from state `s` to its end. */
  ghost function Run(g: Graph, s: State): State
    requires g.Valid() && FramesInRange(g, s.stack)
    decreases |White(g, s)|, |s.stack|
  {
    if s.stack == [] then s else
      StepProgress(g, s);
      StepShrinks(g, s);
      Run(g, Step(g, s))
  }

  lemma StepShrinks(g: Graph, s: State)
    requires g.Valid() && s.stack != [] && FramesInRange(g, s.stack)
    ensures var s' := Step(g, s);
      |White(g, s')| < |White(g, s)| || (|White(g, s')| == |White(g, s)| && |s'.stack| < |s.stack|)
  {
    StepProgress(g, s);
    SubsetSize(White(g, Step(g, s)), White(g, s));
  }

  ghost function Start(g: Graph): State {
    Visit(State(map[], [], []), g.head)
  }

  ghost function Trace(g: Graph): seq<Event>
    requires g.Valid()
  {
    Run(g, Start(g)).trace
  }

  /** What the visitors that only listen to discover_node, or only to finish_node, collect. */
  ghost function Discovered(t: seq<Event>): seq<Block> {
    if t == [] then [] else
      var rest := Discovered(t[..|t| - 1]);
      if t[|t| - 1].Discover? then rest + [t[|t| - 1].node] else rest
  }

  ghost function Finished(t: seq<Event>): seq<Block> {
    if t == [] then [] else
      var rest := Finished(t[..|t| - 1]);
      if t[|t| - 1].Finish? then rest + [t[|t| - 1].node] else rest
  }

  lemma AppendEvent(t: seq<Event>, e: Event)
    ensures Discovered(t + [e]) == if e.Discover? then Discovered(t) + [e.node] else Discovered(t)
    ensures Finished(t + [e]) == if e.Finish? then Finished(t) + [e.node] else Finished(t)
  {
    assert (t + [e])[..|t|] == t;
  }

  lemma {:induction false} AppendBackEdges(t: seq<Event>, b: seq<Event>)
    requires forall e :: e in b ==> e.BackEdge?
    ensures Discovered(t + b) == Discovered(t) && Finished(t + b) == Finished(t)
  {
    if b == [] {
      assert t + b == t;
    } else {
      assert b[|b| - 1] in b;
      AppendBackEdges(t, b[..|b| - 1]);
      AppendEvent(t + b[..|b| - 1], b[|b| - 1]);
      assert t + b[..|b| - 1] + [b[|b| - 1]] == t + b;
    }
  }

  // ---- what every turn keeps ----

  ghost predicate IsGrey(color: map<Block, Color>, v: Block) { v in color && color[v] == Grey }

  ghost predicate IsBlack(color: map<Block, Color>, v: Block) { v in color && color[v] == Black }

  /** Colors agree with what was reported, each node is discovered and finished at most once, and every
      node but the first was discovered over an edge from an earlier one. */
  ghost predicate Orders(g: Graph, color: map<Block, Color>, pre: seq<Block>, post: seq<Block>) {
    && Distinct(pre) && (forall v :: v in pre <==> v in color)
    && Distinct(post) && (forall v :: v in post <==> IsBlack(color, v))
    && (forall v :: v in color ==> v < |g.succs| && Reaches(g, g.head, v))
    && pre != [] && pre[0] == g.head
    && (forall i :: 0 < i < |pre| ==> HasEarlierPred(g, pre, i))
  }

  ghost predicate HasEarlierPred(g: Graph, pre: seq<Block>, i: nat)
    requires i < |pre|
  {
    exists j :: 0 <= j < i && Edge(g, pre[j], pre[i])
  }

  /** The stack is a path of grey nodes in discovery order, and holds all of them. */
  ghost predicate StackIsPath(g: Graph, color: map<Block, Color>, stack: seq<Frame>, pre: seq<Block>) {
    && FramesInRange(g, stack) && (stack != [] ==> stack[0].node == g.head)
    && (forall v :: IsGrey(color, v) ==> OnStack(stack, v))
    && (forall p :: 0 <= p < |stack| ==> IsGrey(color, stack[p].node) && stack[p].node in pre)
    && (forall p, q :: 0 <= p < q < |stack| ==> IndexOf(pre, stack[p].node) < IndexOf(pre, stack[q].node))
    && StackReaches(g, stack)
  }

  ghost predicate StackReaches(g: Graph, stack: seq<Frame>) {
    forall p, q :: 0 <= p <= q < |stack| ==> Reaches(g, stack[p].node, stack[q].node)
  }

  ghost predicate OnStack(stack: seq<Frame>, v: Block) {
    exists p :: 0 <= p < |stack| && stack[p].node == v
  }

  /** Edges already looked at lead to a finished node, were reported, or are the tree edge in use. */
  ghost predicate EdgesSeen(g: Graph, color: map<Block, Color>, stack: seq<Frame>, trace: seq<Event>)
    requires FramesInRange(g, stack)
  {
    forall p, j :: 0 <= p < |stack| && 0 <= j < stack[p].next ==>
      Seen(color, stack, trace, p, g.succs[stack[p].node][j])
  }

  ghost predicate Seen(color: map<Block, Color>, stack: seq<Frame>, trace: seq<Event>, p: nat, v: Block)
    requires p < |stack|
  {
    || BackEdge(stack[p].node, v) in trace
    || IsBlack(color, v)
    || (p + 1 < |stack| && stack[p + 1].node == v)
  }

  /** An edge out of a finished node was reported, or its target finished first. */
  ghost predicate EdgesDone(g: Graph, trace: seq<Event>, post: seq<Block>) {
    forall u, v :: u in post && Edge(g, u, v) ==>
      BackEdge(u, v) in trace || (v in post && IndexOf(post, v) < IndexOf(post, u))
  }

  /** A reported edge closes a path: its target is discovered no later, reaches the source, and is not
      finished before it. */
  ghost predicate BackEdgesSound(g: Graph, trace: seq<Event>, pre: seq<Block>, post: seq<Block>) {
    forall u, v :: BackEdge(u, v) in trace ==>
      && Edge(g, u, v) && u in pre && v in pre
      && IndexOf(pre, v) <= IndexOf(pre, u) && Reaches(g, v, u)
      && (v in post ==> u in post && IndexOf(post, u) <= IndexOf(post, v))
  }

  ghost predicate Inv(g: Graph, s: State) {
    var pre, post := Discovered(s.trace), Finished(s.trace);
    && g.Valid()
    && Orders(g, s.color, pre, post)
    && StackIsPath(g, s.color, s.stack, pre)
    && EdgesSeen(g, s.color, s.stack, s.trace)
    && EdgesDone(g, s.trace, post)
    && BackEdgesSound(g, s.trace, pre, post)
    && (s.stack == [] ==> post != [] && post[|post| - 1] == g.head)
  }

  // ---- the three moves of a turn: scan edges, finish a node, visit a node ----

  /** The state while the iterator of the top frame stands at `j`. */
  ghost function Scanned(g: Graph, s: State, j: nat): State
    requires s.stack != [] && FramesInRange(g, s.stack)
  {
    var top := s.stack[|s.stack| - 1];
    assert top in s.stack;
    if top.next <= j <= |g.succs[top.node]| && (forall k :: top.next <= k < j ==> g.succs[top.node][k] in s.color) then
      State(s.color, s.stack[..|s.stack| - 1] + [Frame(j, top.node)],
            s.trace + GreyEdges(top.node, g.succs[top.node], s.color, top.next, j))
    else s
  }

  lemma ScanInv(g: Graph, s: State, j: nat)
    requires Inv(g, s) && s.stack != []
    ensures Inv(g, Scanned(g, s, j))
  {
    hide Orders, StackIsPath, EdgesSeen, EdgesDone, BackEdgesSound, Discovered, Finished, Graph.Valid, GreyEdges;
    StackInRange(g, s);
    var s', n := Scanned(g, s, j), |s.stack| - 1;
    var u := s.stack[n].node;
    if s' != s {
      var reported := GreyEdges(u, g.succs[u], s.color, s.stack[n].next, j);
      AppendBackEdges(s.trace, reported);
      SameStack(g, s.color, s.stack, s'.stack, Discovered(s.trace));
      ScanEdgesSeen(g, s, j, reported);
      ScanSound(g, s, reported);
    }
  }

  lemma StackInRange(g: Graph, s: State)
    requires Inv(g, s)
    ensures FramesInRange(g, s.stack)
  {
  }

  lemma TopIsGrey(g: Graph, s: State)
    requires Inv(g, s) && s.stack != []
    ensures IsGrey(s.color, s.stack[|s.stack| - 1].node)
  {
  }

  lemma SameStack(g: Graph, color: map<Block, Color>, stack: seq<Frame>, stack': seq<Frame>, pre: seq<Block>)
    requires StackIsPath(g, color, stack, pre) && |stack| == |stack'| && FramesInRange(g, stack')
    requires forall p :: 0 <= p < |stack| ==> stack[p].node == stack'[p].node
    ensures StackIsPath(g, color, stack', pre)
  {
    forall v | IsGrey(color, v) ensures OnStack(stack', v) {
      assert OnStack(stack, v);
    }
  }

  lemma ScanEdgesSeen(g: Graph, s: State, j: nat, reported: seq<Event>)
    requires g.Valid() && s.stack != [] && FramesInRange(g, s.stack)
    requires EdgesSeen(g, s.color, s.stack, s.trace)
    requires var top := s.stack[|s.stack| - 1];
      && top.node < |g.succs| && top.next <= j <= |g.succs[top.node]|
      && (forall k :: top.next <= k < j ==> g.succs[top.node][k] in s.color)
      && reported == GreyEdges(top.node, g.succs[top.node], s.color, top.next, j)
    ensures var stack' := s.stack[..|s.stack| - 1] + [Frame(j, s.stack[|s.stack| - 1].node)];
      FramesInRange(g, stack') && EdgesSeen(g, s.color, stack', s.trace + reported)
  {
    var n := |s.stack| - 1;
    var top := s.stack[n];
    var stack' := s.stack[..n] + [Frame(j, top.node)];
    forall p, k | 0 <= p < |stack'| && 0 <= k < stack'[p].next
      ensures Seen(s.color, stack', s.trace + reported, p, g.succs[stack'[p].node][k])
    {
      if p < n || k < top.next {
        assert Seen(s.color, s.stack, s.trace, p, g.succs[s.stack[p].node][k]);
      } else {
        var v := g.succs[top.node][k];
        assert IsGrey(s.color, v) ==> BackEdge(top.node, v) in reported;
      }
    }
  }

  /** A grey node is on the path to the top of the stack, and unfinished. */
  lemma GreyFacts(g: Graph, s: State, v: Block)
    requires Inv(g, s) && s.stack != [] && IsGrey(s.color, v)
    ensures var pre, u := Discovered(s.trace), s.stack[|s.stack| - 1].node;
      u in pre && v in pre && IndexOf(pre, v) <= IndexOf(pre, u) && Reaches(g, v, u) && v !in Finished(s.trace)
  {
    hide EdgesSeen, EdgesDone, BackEdgesSound, Discovered, Finished, Reaches, Distinct, HasEarlierPred;
    assert OnStack(s.stack, v);
    var p :| 0 <= p < |s.stack| && s.stack[p].node == v;
    assert p <= |s.stack| - 1;
  }

  lemma ScanSound(g: Graph, s: State, reported: seq<Event>)
    requires Inv(g, s) && s.stack != []
    requires forall e :: e in reported ==>
      e.BackEdge? && e.src == s.stack[|s.stack| - 1].node && Edge(g, e.src, e.dst) && IsGrey(s.color, e.dst)
    ensures BackEdgesSound(g, s.trace + reported, Discovered(s.trace), Finished(s.trace))
    ensures EdgesDone(g, s.trace + reported, Finished(s.trace))
  {
    hide Orders, StackIsPath, EdgesSeen, Discovered, Finished, Reaches, Edge, IsGrey;
    var pre, post := Discovered(s.trace), Finished(s.trace);
    forall u, v | BackEdge(u, v) in reported
      ensures Edge(g, u, v) && u in pre && v in pre && IndexOf(pre, v) <= IndexOf(pre, u) && Reaches(g, v, u)
      ensures v !in post
    {
      GreyFacts(g, s, v);
    }
  }

  lemma FinishInv(g: Graph, s: State)
    requires Inv(g, s) && s.stack != []
    requires var top := s.stack[|s.stack| - 1]; top.node < |g.succs| && top.next == |g.succs[top.node]|
    ensures var top := s.stack[|s.stack| - 1];
      Inv(g, State(s.color[top.node := Black], s.stack[..|s.stack| - 1], s.trace + [Finish(top.node)]))
  {
    hide Orders, StackIsPath, EdgesSeen, EdgesDone, BackEdgesSound, Discovered, Finished, Graph.Valid, FramesInRange;
    StackInRange(g, s);
    AppendEvent(s.trace, Finish(s.stack[|s.stack| - 1].node));
    TopIsGrey(g, s);
    FinishOrders(g, s.color, Discovered(s.trace), Finished(s.trace), s.stack[|s.stack| - 1].node);
    PopStack(g, s.color, s.stack, Discovered(s.trace));
    FinishEdgesSeen(g, s);
    FinishEdgesDone(g, s);
    FinishSound(g, s);
    if |s.stack| == 1 {
      TopIsHead(g, s);
    }
  }

  lemma TopIsHead(g: Graph, s: State)
    requires Inv(g, s) && |s.stack| == 1
    ensures s.stack[0].node == g.head
  {
  }

  lemma FinishOrders(g: Graph, color: map<Block, Color>, pre: seq<Block>, post: seq<Block>, u: Block)
    requires Orders(g, color, pre, post) && IsGrey(color, u)
    ensures Orders(g, color[u := Black], pre, post + [u])
  {
    assert u !in post;
    assert forall v :: v in color[u := Black] <==> v in color;
    assert forall v :: v in post + [u] <==> v in post || v == u;
    assert forall v :: IsBlack(color[u := Black], v) <==> IsBlack(color, v) || v == u;
  }

  lemma PopReaches(g: Graph, stack: seq<Frame>)
    requires StackReaches(g, stack) && stack != []
    ensures StackReaches(g, stack[..|stack| - 1])
  {
  }

  lemma PopStack(g: Graph, color: map<Block, Color>, stack: seq<Frame>, pre: seq<Block>)
    requires StackIsPath(g, color, stack, pre) && stack != []
    ensures var n := |stack| - 1; StackIsPath(g, color[stack[n].node := Black], stack[..n], pre)
  {
    hide StackReaches;
    var n := |stack| - 1;
    var u := stack[n].node;
    PopReaches(g, stack);
    forall v | IsGrey(color[u := Black], v) ensures OnStack(stack[..n], v) {
      assert OnStack(stack, v);
      var p :| 0 <= p < |stack| && stack[p].node == v;
      assert stack[..n][p].node == v;
    }
  }

  lemma FinishEdgesSeen(g: Graph, s: State)
    requires s.stack != [] && FramesInRange(g, s.stack) && EdgesSeen(g, s.color, s.stack, s.trace)
    ensures var u := s.stack[|s.stack| - 1].node;
      && FramesInRange(g, s.stack[..|s.stack| - 1])
      && EdgesSeen(g, s.color[u := Black], s.stack[..|s.stack| - 1], s.trace + [Finish(u)])
  {
    var n := |s.stack| - 1;
    var u, stack' := s.stack[n].node, s.stack[..n];
    forall p, k | 0 <= p < n && 0 <= k < stack'[p].next
      ensures Seen(s.color[u := Black], stack', s.trace + [Finish(u)], p, g.succs[stack'[p].node][k])
    {
      assert Seen(s.color, s.stack, s.trace, p, g.succs[s.stack[p].node][k]);
    }
  }

  lemma FinishEdgesDone(g: Graph, s: State)
    requires Inv(g, s) && s.stack != []
    requires var top := s.stack[|s.stack| - 1]; top.node < |g.succs| && top.next == |g.succs[top.node]|
    ensures var u := s.stack[|s.stack| - 1].node;
      EdgesDone(g, s.trace + [Finish(u)], Finished(s.trace) + [u])
  {
    var n := |s.stack| - 1;
    var x := s.stack[n].node;
    var post := Finished(s.trace);
    IndexOfAppendAll(post, x);
    forall u, v | u in post + [x] && Edge(g, u, v)
      ensures BackEdge(u, v) in s.trace + [Finish(x)]
        || (v in post + [x] && IndexOf(post + [x], v) < IndexOf(post + [x], u))
    {
      if u == x {
        var k :| 0 <= k < |g.succs[u]| && g.succs[u][k] == v;
        assert Seen(s.color, s.stack, s.trace, n, g.succs[s.stack[n].node][k]);
      }
    }
  }

  lemma FinishSound(g: Graph, s: State)
    requires Inv(g, s) && s.stack != []
    ensures var u := s.stack[|s.stack| - 1].node;
      BackEdgesSound(g, s.trace + [Finish(u)], Discovered(s.trace), Finished(s.trace) + [u])
  {
    var n := |s.stack| - 1;
    var x := s.stack[n].node;
    var pre, post := Discovered(s.trace), Finished(s.trace);
    IndexOfAppendAll(post, x);
    forall u | BackEdge(u, x) in s.trace ensures u in post + [x] {
      if u !in post {
        assert IsGrey(s.color, u) && OnStack(s.stack, u);
        var p :| 0 <= p < |s.stack| && s.stack[p].node == u;
        assert p == n;
      }
    }
  }

  lemma VisitInv(g: Graph, s: State, u: Block, v: Block)
    requires Inv(g, s) && s.stack != [] && v !in s.color
    requires var top := s.stack[|s.stack| - 1];
      top.node == u < |g.succs| && top.next < |g.succs[u]| && g.succs[u][top.next] == v
    ensures var n := |s.stack| - 1;
      Inv(g, Visit(State(s.color, s.stack[..n] + [Frame(s.stack[n].next + 1, u)], s.trace), v))
  {
    hide Orders, StackIsPath, EdgesSeen, EdgesDone, BackEdgesSound, Discovered, Finished, FramesInRange, Graph.Valid,
      Reaches;
    var pre, post := Discovered(s.trace), Finished(s.trace);
    EdgeToNext(g, s);
    AppendEvent(s.trace, Discover(v));
    TopIsGrey(g, s);
    VisitOrders(g, s.color, pre, post, u, v);
    VisitStack(g, s, u, v);
    StackInRange(g, s);
    VisitEdgesSeen(g, s, u, v);
    VisitSound(g, s, v);
  }

  lemma EdgeToNext(g: Graph, s: State)
    requires Inv(g, s) && s.stack != []
    requires var top := s.stack[|s.stack| - 1]; top.node < |g.succs| && top.next < |g.succs[top.node]|
    ensures var top := s.stack[|s.stack| - 1]; Edge(g, top.node, g.succs[top.node][top.next])
    ensures g.Valid() && g.succs[s.stack[|s.stack| - 1].node][s.stack[|s.stack| - 1].next] < |g.succs|
  {
    hide Orders, StackIsPath, EdgesSeen, EdgesDone, BackEdgesSound;
  }

  lemma VisitSound(g: Graph, s: State, v: Block)
    requires Inv(g, s) && v !in s.color
    ensures EdgesDone(g, s.trace + [Discover(v)], Finished(s.trace))
    ensures BackEdgesSound(g, s.trace + [Discover(v)], Discovered(s.trace) + [v], Finished(s.trace))
  {
    hide StackIsPath, EdgesSeen, Discovered, Finished, Reaches, Edge, HasEarlierPred, Distinct;
    IndexOfAppendAll(Discovered(s.trace), v);
  }

  lemma VisitOrders(g: Graph, color: map<Block, Color>, pre: seq<Block>, post: seq<Block>, u: Block, v: Block)
    requires g.Valid() && Orders(g, color, pre, post) && u in color && v !in color && Edge(g, u, v)
    ensures Orders(g, color[v := Grey], pre + [v], post)
  {
    var pre' := pre + [v];
    ReachesStep(g, g.head, u, v);
    forall i | 0 < i < |pre'| ensures HasEarlierPred(g, pre', i) {
      if i < |pre| {
        assert HasEarlierPred(g, pre, i);
        var j :| 0 <= j < i && Edge(g, pre[j], pre[i]);
        assert Edge(g, pre'[j], pre'[i]);
      } else {
        assert Edge(g, pre'[IndexOf(pre, u)], pre'[i]);
      }
    }
  }

  lemma PushReaches(g: Graph, stack: seq<Frame>, v: Block)
    requires StackReaches(g, stack) && stack != [] && Edge(g, stack[|stack| - 1].node, v)
    ensures StackReaches(g, stack + [Frame(0, v)])
  {
    var n, stack' := |stack|, stack + [Frame(0, v)];
    ReachesSelf(g, v);
    forall p | 0 <= p < n ensures Reaches(g, stack'[p].node, v) {
      ReachesStep(g, stack[p].node, stack[n - 1].node, v);
    }
  }

  lemma PushStack(g: Graph, color: map<Block, Color>, stack: seq<Frame>, pre: seq<Block>, v: Block)
    requires g.Valid() && StackIsPath(g, color, stack, pre) && stack != []
    requires v !in color && v !in pre && Edge(g, stack[|stack| - 1].node, v)
    ensures StackIsPath(g, color[v := Grey], stack + [Frame(0, v)], pre + [v])
  {
    hide StackReaches;
    var n, stack' := |stack|, stack + [Frame(0, v)];
    assert v in g.succs[stack[n - 1].node];
    IndexOfAppendAll(pre, v);
    PushReaches(g, stack, v);
    forall x | IsGrey(color[v := Grey], x) ensures OnStack(stack', x) {
      if x == v {
        assert stack'[n].node == x;
      } else {
        assert OnStack(stack, x);
        var p :| 0 <= p < n && stack[p].node == x;
        assert stack'[p].node == x;
      }
    }
  }

  lemma VisitStack(g: Graph, s: State, u: Block, v: Block)
    requires Inv(g, s) && s.stack != [] && v !in s.color && Edge(g, u, v)
    requires var top := s.stack[|s.stack| - 1];
      top.node == u < |g.succs| && top.next < |g.succs[u]| && g.succs[u][top.next] == v
    ensures var n := |s.stack| - 1;
      var s' := Visit(State(s.color, s.stack[..n] + [Frame(s.stack[n].next + 1, u)], s.trace), v);
      StackIsPath(g, s'.color, s'.stack, Discovered(s.trace) + [v])
  {
    hide StackIsPath, EdgesSeen, EdgesDone, BackEdgesSound, Discovered, Finished;
    var n, pre := |s.stack| - 1, Discovered(s.trace);
    var stack' := s.stack[..n] + [Frame(s.stack[n].next + 1, u)];
    StackInRange(g, s);
    SameStack(g, s.color, s.stack, stack', pre);
    PushStack(g, s.color, stack', pre, v);
  }

  lemma NextSeen(s: State, p: nat, v: Block)
    requires p + 1 < |s.stack| && s.stack[p + 1].node == v
    ensures Seen(s.color, s.stack, s.trace, p, v)
  {
  }

  lemma SeenKept(s: State, s': State, p: nat, x: Block, v: Block)
    requires p < |s.stack| < |s'.stack| && s'.color == s.color[v := Grey] && v !in s.color
    requires s'.trace == s.trace + [Discover(v)]
    requires forall q :: 0 <= q < |s.stack| ==> s'.stack[q].node == s.stack[q].node
    requires Seen(s.color, s.stack, s.trace, p, x)
    ensures Seen(s'.color, s'.stack, s'.trace, p, x)
  {
  }

  lemma VisitEdgesSeen(g: Graph, s: State, u: Block, v: Block)
    requires s.stack != [] && FramesInRange(g, s.stack) && EdgesSeen(g, s.color, s.stack, s.trace)
    requires v !in s.color && v < |g.succs|
    requires var top := s.stack[|s.stack| - 1];
      top.node == u < |g.succs| && top.next < |g.succs[u]| && g.succs[u][top.next] == v
    ensures var n := |s.stack| - 1;
      var s' := Visit(State(s.color, s.stack[..n] + [Frame(s.stack[n].next + 1, u)], s.trace), v);
      FramesInRange(g, s'.stack) && EdgesSeen(g, s'.color, s'.stack, s'.trace)
  {
    hide Seen;
    var n := |s.stack| - 1;
    var s' := Visit(State(s.color, s.stack[..n] + [Frame(s.stack[n].next + 1, u)], s.trace), v);
    NextSeen(s', n, v);
    forall p: nat, k: nat | p < |s'.stack| && k < s'.stack[p].next
      ensures Seen(s'.color, s'.stack, s'.trace, p, g.succs[s'.stack[p].node][k])
    {
      if p < n || k < s.stack[n].next {
        assert Seen(s.color, s.stack, s.trace, p, g.succs[s.stack[p].node][k]);
        SeenKept(s, s', p, g.succs[s.stack[p].node][k], v);
      }
    }
  }

  lemma ValidGraph(g: Graph, s: State)
    requires Inv(g, s)
    ensures g.Valid()
  {
  }

  lemma StepInv(g: Graph, s: State)
    requires Inv(g, s) && s.stack != []
    ensures FramesInRange(g, s.stack) && Inv(g, Step(g, s))
  {
    hide Inv, Graph.Valid, GreyEdges;
    StackInRange(g, s);
    ValidGraph(g, s);
    var n := |s.stack| - 1;
    var top := s.stack[n];
    var succs := g.succs[top.node];
    var j := FirstWhite(succs, s.color, top.next);
    var s1 := Scanned(g, s, j);
    assert s1.stack[..n] == s.stack[..n];
    ScanInv(g, s, j);
    if j == |succs| {
      FinishInv(g, s1);
    } else {
      VisitInv(g, s1, top.node, succs[j]);
    }
  }

  lemma StartInv(g: Graph)
    requires g.Valid()
    ensures Inv(g, Start(g)) && FramesInRange(g, Start(g).stack)
  {
    hide Reaches, Discovered, Finished;
    var s := Start(g);
    NothingTraced();
    AppendEvent([], Discover(g.head));
    assert [] + [Discover(g.head)] == s.trace;
    ReachesSelf(g, g.head);
    assert s.stack[0].node == g.head;
    assert Discovered(s.trace) == [g.head] && Finished(s.trace) == [];
  }

  lemma NothingTraced()
    ensures Discovered([]) == [] && Finished([]) == []
  {
  }

  lemma {:induction false} RunInv(g: Graph, s: State)
    requires g.Valid() && FramesInRange(g, s.stack) && Inv(g, s)
    ensures Inv(g, Run(g, s)) && Run(g, s).stack == []
    decreases |White(g, s)|, |s.stack|
  {
    hide Inv, Graph.Valid, Step, White, FramesInRange;
    if s.stack != [] {
      StepInv(g, s);
      StepProgress(g, s);
      StepShrinks(g, s);
      RunInv(g, Step(g, s));
    }
  }

  // ---- results ----

  ghost function Preorder(g: Graph): seq<Block>
    requires g.Valid()
  {
    Discovered(Trace(g))
  }

  ghost function Postorder(g: Graph): seq<Block>
    requires g.Valid()
  {
    Finished(Trace(g))
  }

  /** Every reachable block is discovered exactly once and finished exactly once, and no other block is;
      the head comes first, and every later block has a predecessor that was discovered before it. */
  lemma ReachedExactlyOnce(g: Graph)
    requires g.Valid()
    ensures Distinct(Preorder(g)) && Distinct(Postorder(g))
    ensures forall v :: v in Preorder(g) <==> Reaches(g, g.head, v)
    ensures forall v :: v in Postorder(g) <==> Reaches(g, g.head, v)
    ensures forall v :: v in Preorder(g) ==> v < |g.succs|
    ensures Preorder(g) != [] && Preorder(g)[0] == g.head
    ensures forall i :: 0 < i < |Preorder(g)| ==> HasEarlierPred(g, Preorder(g), i)
  {
    var s := Final(g);
    var pre, post := Preorder(g), Postorder(g);
    assert forall v :: v in pre ==> v in post by {
      forall v | v in pre ensures v in post {
        assert IsGrey(s.color, v) ==> OnStack(s.stack, v);
      }
    }
    forall v | Reaches(g, g.head, v) ensures v in post {
      var p :| PathFrom(g, g.head, v, p);
      assert forall a, b :: a in Elems(post) && Edge(g, a, b) ==> b in Elems(post);
      ClosedUnderEdges(g, Elems(post), p);
    }
  }

  /** The head is discovered first and finished last. */
  lemma HeadFinishesLast(g: Graph)
    requires g.Valid()
    ensures Postorder(g) != [] && Postorder(g)[|Postorder(g)| - 1] == g.head
    ensures ReversePostorder(g) != [] && ReversePostorder(g)[0] == g.head
  {
    hide Inv, Graph.Valid, Run;
    var s := Final(g);
    LastIsHead(g, s);
  }

  lemma LastIsHead(g: Graph, s: State)
    requires Inv(g, s) && s.stack == []
    ensures var post := Finished(s.trace); post != [] && post[|post| - 1] == g.head
  {
    hide Orders, StackIsPath, EdgesSeen, EdgesDone, BackEdgesSound, Graph.Valid;
  }

  lemma Final(g: Graph) returns (s: State)
    requires g.Valid()
    ensures s == Run(g, Start(g)) && s.trace == Trace(g) && Inv(g, s) && s.stack == []
  {
    StartInv(g);
    RunInv(g, Start(g));
    s := Run(g, Start(g));
  }

  /** An edge between reached blocks was reported as a back edge, or its target finishes first. */
  lemma EdgeOrder(g: Graph, u: Block, v: Block)
    requires g.Valid() && Reaches(g, g.head, u) && Edge(g, u, v)
    ensures u in Postorder(g) && v in Postorder(g)
    ensures BackEdge(u, v) in Trace(g) || IndexOf(Postorder(g), v) < IndexOf(Postorder(g), u)
  {
    ReachedExactlyOnce(g);
    ReachesStep(g, g.head, u, v);
    var s := Final(g);
  }

  /** The reported edges are exactly those to a block on the search path: one that was discovered no later
      than the source and is finished no earlier. */
  lemma BackEdgeIff(g: Graph, u: Block, v: Block)
    requires g.Valid()
    ensures BackEdge(u, v) in Trace(g) <==>
      && Edge(g, u, v) && u in Preorder(g) && v in Preorder(g) && u in Postorder(g) && v in Postorder(g)
      && IndexOf(Preorder(g), v) <= IndexOf(Preorder(g), u)
      && IndexOf(Postorder(g), u) <= IndexOf(Postorder(g), v)
  {
    ReachedExactlyOnce(g);
    var s := Final(g);
    if Edge(g, u, v) && u in Postorder(g) {
      EdgeOrder(g, u, v);
    }
  }

  lemma GreyIsOnStack(g: Graph, s: State, v: Block)
    requires Inv(g, s)
    ensures IsGrey(s.color, v) <==> OnStack(s.stack, v)
  {
    hide Orders, EdgesSeen, EdgesDone, BackEdgesSound, StackReaches;
  }

  /** The same, told at the moment of the report: in any turn of the search the edges reported are those
      from the top of the stack to a block that is on the stack, the current search path. */
  lemma ReportsPathEdges(g: Graph, s: State, v: Block)
    requires Inv(g, s) && s.stack != [] && FramesInRange(g, s.stack)
    ensures var top := s.stack[|s.stack| - 1];
      var reported := Step(g, s).trace[|s.trace|..];
      && s.trace <= Step(g, s).trace
      && (BackEdge(top.node, v) in reported <==>
          exists k :: top.next <= k < FirstWhite(g.succs[top.node], s.color, top.next)
                   && g.succs[top.node][k] == v && OnStack(s.stack, v))
  {
    hide Orders, StackIsPath, EdgesSeen, EdgesDone, BackEdgesSound, Graph.Valid, GreyEdges, FirstWhite, OnStack,
      Discovered, Finished;
    var top := s.stack[|s.stack| - 1];
    assert top in s.stack;
    ValidGraph(g, s);
    GreyIsOnStack(g, s, v);
    var j := FirstWhite(g.succs[top.node], s.color, top.next);
    var seen := GreyEdges(top.node, g.succs[top.node], s.color, top.next, j);
    var last := if j == |g.succs[top.node]| then Finish(top.node) else Discover(g.succs[top.node][j]);
    assert Step(g, s).trace == s.trace + (seen + [last]);
  }

  /** Neither end of an edge has been finished when the edge is reported. */
  ghost predicate ReportsOpen(t: seq<Event>) {
    forall i :: 0 <= i < |t| && t[i].BackEdge? ==> OpenAt(t, i, t[i].src) && OpenAt(t, i, t[i].dst)
  }

  ghost predicate OpenAt(t: seq<Event>, i: nat, v: Block)
    requires i <= |t|
  {
    v !in Finished(t[..i])
  }

  lemma StepReportsOpen(g: Graph, s: State)
    requires Inv(g, s) && s.stack != [] && FramesInRange(g, s.stack) && ReportsOpen(s.trace)
    ensures ReportsOpen(Step(g, s).trace)
  {
    hide Orders, StackIsPath, EdgesSeen, EdgesDone, BackEdgesSound, Graph.Valid, Discovered, Finished, IsGrey;
    ValidGraph(g, s);
    var top := s.stack[|s.stack| - 1];
    assert top in s.stack;
    var succs := g.succs[top.node];
    var j := FirstWhite(succs, s.color, top.next);
    var seen := GreyEdges(top.node, succs, s.color, top.next, j);
    var last := if j == |succs| then Finish(top.node) else Discover(succs[j]);
    var t := s.trace + (seen + [last]);
    assert Step(g, s).trace == t;
    TopIsGrey(g, s);
    GreyFacts(g, s, top.node);
    forall i | 0 <= i < |t| && t[i].BackEdge? ensures OpenAt(t, i, t[i].src) && OpenAt(t, i, t[i].dst) {
      if i < |s.trace| {
        assert t[..i] == s.trace[..i] && OpenAt(s.trace, i, t[i].src) && OpenAt(s.trace, i, t[i].dst);
      } else {
        var k := i - |s.trace|;
        assert t[..i] == s.trace + seen[..k] && t[i] in seen;
        FinishedSame(s.trace, seen, k);
        GreyAgain(g, s, t[i].dst);
      }
    }
  }

  lemma FinishedSame(t: seq<Event>, b: seq<Event>, k: nat)
    requires k <= |b| && forall e :: e in b ==> e.BackEdge?
    ensures Finished(t + b[..k]) == Finished(t)
  {
    hide Finished, Discovered;
    forall e | e in b[..k] ensures e.BackEdge? {
      assert e in b;
    }
    AppendBackEdges(t, b[..k]);
  }

  lemma GreyAgain(g: Graph, s: State, v: Block)
    requires Inv(g, s) && s.stack != [] && v in s.color && s.color[v] == Grey
    ensures v !in Finished(s.trace)
  {
    GreyFacts(g, s, v);
  }

  lemma {:induction false} RunReportsOpen(g: Graph, s: State)
    requires g.Valid() && FramesInRange(g, s.stack) && Inv(g, s) && ReportsOpen(s.trace)
    ensures ReportsOpen(Run(g, s).trace)
    decreases |White(g, s)|, |s.stack|
  {
    hide Inv, Graph.Valid, Step, White, FramesInRange, ReportsOpen;
    if s.stack != [] {
      StepInv(g, s);
      StepReportsOpen(g, s);
      StepProgress(g, s);
      StepShrinks(g, s);
      RunReportsOpen(g, Step(g, s));
    }
  }

  lemma StartReportsNothing(g: Graph)
    ensures ReportsOpen(Start(g).trace)
  {
  }

  /** An edge is reported before either of its ends is finished. */
  lemma ReportedFirst(g: Graph)
    requires g.Valid()
    ensures ReportsOpen(Trace(g))
  {
    hide Inv, Run, ReportsOpen;
    StartInv(g);
    StartReportsNothing(g);
    RunReportsOpen(g, Start(g));
  }

  /** The reachable part of the graph has a cycle if and only if some back edge is reported. */
  lemma CycleIffBackEdge(g: Graph)
    requires g.Valid()
    ensures HasCycle(g) <==> exists u, v :: BackEdge(u, v) in Trace(g)
  {
    hide Inv, Trace, Postorder, Preorder, Graph.Valid, Run;
    if u, v :| BackEdge(u, v) in Trace(g) {
      BackEdgeCloses(g, u, v);
    }
    if HasCycle(g) && !exists u, v :: BackEdge(u, v) in Trace(g) {
      var p :| IsCycle(g, p);
      FinishDecreases(g, p);
      assert false;
    }
  }

  lemma BackEdgeCloses(g: Graph, u: Block, v: Block)
    requires g.Valid() && BackEdge(u, v) in Trace(g)
    ensures HasCycle(g)
  {
    hide Graph.Valid, Run, Orders, StackIsPath, EdgesSeen, EdgesDone;
    var s := Final(g);
    assert Edge(g, u, v) && Reaches(g, v, u) && v in Preorder(g);
    ReachedExactlyOnce(g);
    var p :| PathFrom(g, v, u, p);
    assert IsCycle(g, p + [v]);
  }

  lemma {:induction false} FinishDecreases(g: Graph, p: seq<Block>)
    requires g.Valid() && IsPath(g, p) && Reaches(g, g.head, p[0])
    requires !exists u, v :: BackEdge(u, v) in Trace(g)
    ensures p[0] in Postorder(g) && p[|p| - 1] in Postorder(g)
    ensures |p| > 1 ==> IndexOf(Postorder(g), p[|p| - 1]) < IndexOf(Postorder(g), p[0])
  {
    ReachedExactlyOnce(g);
    if |p| > 1 {
      assert Edge(g, p[0], p[1]);
      EdgeOrder(g, p[0], p[1]);
      var q := p[1..];
      assert IsPath(g, q) by {
        forall i | 0 <= i < |q| - 1 ensures Edge(g, q[i], q[i + 1]) {
          assert Edge(g, p[i + 1], p[i + 2]);
        }
      }
      ReachesStep(g, g.head, p[0], p[1]);
      FinishDecreases(g, q);
    }
  }

  function Reversed<T>(s: seq<T>): (r: seq<T>)
    ensures |r| == |s| && forall i :: 0 <= i < |s| ==> r[i] == s[|s| - 1 - i]
  {
    seq(|s|, i requires 0 <= i < |s| => s[|s| - 1 - i])
  }

  ghost function ReversePostorder(g: Graph): seq<Block>
    requires g.Valid()
  {
    Reversed(Postorder(g))
  }

  lemma ReversedDistinct<T>(s: seq<T>)
    requires Distinct(s)
    ensures Distinct(Reversed(s)) && Elems(Reversed(s)) == Elems(s)
  {
    forall x | x in s ensures x in Reversed(s) {
      var i :| 0 <= i < |s| && s[i] == x;
      assert Reversed(s)[|s| - 1 - i] == x;
    }
  }

  /** Reverse postorder lists the reachable blocks once each, and every edge that was not reported as a
      back edge leads forward in it; so on an acyclic graph it is a topological order. */
  lemma ReversePostorderIsTopological(g: Graph)
    requires g.Valid()
    ensures var rpo := ReversePostorder(g);
      && Distinct(rpo) && (forall v :: v in rpo <==> Reaches(g, g.head, v))
      && (forall i, j ::
            0 <= i < |rpo| && 0 <= j < |rpo| && Edge(g, rpo[i], rpo[j]) && BackEdge(rpo[i], rpo[j]) !in Trace(g) ==>
              i < j)
  {
    var post, rpo := Postorder(g), ReversePostorder(g);
    ReachedExactlyOnce(g);
    ReversedDistinct(post);
    assert forall v :: v in rpo <==> v in Elems(rpo);
    var n := |post|;
    forall i, j | 0 <= i < n && 0 <= j < n && Edge(g, rpo[i], rpo[j]) && BackEdge(rpo[i], rpo[j]) !in Trace(g)
      ensures i < j
    {
      EdgeOrder(g, rpo[i], rpo[j]);
      IndexOfAt(post, n - 1 - i);
      IndexOfAt(post, n - 1 - j);
    }
  }

  /** The search object: colors, explicit stack, and the calls made to the visitor so far. */
  class DepthFirstSearch {
    const graph: Graph
    var visited: map<Block, Color>
    var stack: seq<Frame>
    var calls: seq<Event>

    ghost function Current(): State
      reads this
    {
      State(visited, stack, calls)
    }

    constructor (g: Graph)
      ensures graph == g && Current() == State(map[], [], [])
    {
      graph := g;
      visited, stack, calls := map[], [], [];
    }

    method VisitNode(node: Block)
      modifies this
      ensures Current() == Visit(old(Current()), node)
    {
      visited := visited[node := Grey];
      calls := calls + [Discover(node)];
      stack := stack + [Frame(0, node)];
    }

    /** Moves the iterator over visited successors and reports the grey ones. */
    method ScanSuccs(u: Block, start: nat) returns (cur: nat)
      requires u < |graph.succs| && start <= |graph.succs[u]|
      modifies this`calls
      ensures cur == FirstWhite(graph.succs[u], visited, start)
      ensures calls == old(calls) + GreyEdges(u, graph.succs[u], visited, start, cur)
    {
      var succs := graph.succs[u];
      cur := start;
      while cur < |succs| && succs[cur] in visited
        invariant start <= cur <= |succs|
        invariant FirstWhite(succs, visited, start) == FirstWhite(succs, visited, cur)
        invariant calls + GreyEdges(u, succs, visited, cur, FirstWhite(succs, visited, cur))
               == old(calls) + GreyEdges(u, succs, visited, start, FirstWhite(succs, visited, start))
      {
        if visited[succs[cur]] == Grey {
          calls := calls + [BackEdge(u, succs[cur])];
        }
        cur := cur + 1;
      }
    }

    /** The body of the search loop. */
    method Turn()
      requires graph.Valid() && stack != [] && FramesInRange(graph, stack)
      modifies this
      ensures Current() == Step(graph, old(Current()))
    {
      var top := stack[|stack| - 1];
      assert top in stack;
      stack := stack[..|stack| - 1];
      var cur := ScanSuccs(top.node, top.next);
      if cur == |graph.succs[top.node]| {
        visited := visited[top.node := Black];
        calls := calls + [Finish(top.node)];
      } else {
        stack := stack + [Frame(cur + 1, top.node)];
        VisitNode(graph.succs[top.node][cur]);
      }
    }

    /** The whole search: afterwards the visitor has been called as `Trace` says. */
    method DfsImpl()
      requires graph.Valid() && Current() == State(map[], [], [])
      modifies this
      ensures calls == Trace(graph) && stack == []
    {
      VisitNode(graph.head);
      while stack != []
        invariant FramesInRange(graph, stack)
        invariant Run(graph, Current()) == Run(graph, Start(graph))
        decreases |White(graph, Current())|, |stack|
      {
        StepProgress(graph, Current());
        StepShrinks(graph, Current());
        Turn();
      }
    }
  }

  /** deep_first_search_postoder followed by std::reverse. */
  method DeepFirstSearchReversePostorder(g: Graph) returns (bbs: seq<Block>)
    requires g.Valid()
    ensures bbs == ReversePostorder(g)
  {
    var search := new DepthFirstSearch(g);
    search.DfsImpl();
    var post := Collect(search.calls, false);
    bbs := Reversed(post);
  }

  method DeepFirstSearchPreorder(g: Graph) returns (bbs: seq<Block>)
    requires g.Valid()
    ensures bbs == Preorder(g)
  {
    var search := new DepthFirstSearch(g);
    search.DfsImpl();
    bbs := Collect(search.calls, true);
  }

  /** The pre- and postorder visitors: append the node of every discover, or every finish, call. */
  method Collect(calls: seq<Event>, pre: bool) returns (bbs: seq<Block>)
    ensures bbs == if pre then Discovered(calls) else Finished(calls)
  {
    bbs := [];
    for i := 0 to |calls|
      invariant bbs == if pre then Discovered(calls[..i]) else Finished(calls[..i])
    {
      assert calls[..i + 1] == calls[..i] + [calls[i]];
      AppendEvent(calls[..i], calls[i]);
      if (pre && calls[i].Discover?) || (!pre && calls[i].Finish?) {
        bbs := bbs + [calls[i].node];
      }
    }
    assert calls[..|calls|] == calls;
  }
}
