/** Graphs with one loop: the linear order and the recorded extent together span it. */
module OneLoop {
  import opened SetFacts
  import opened Wrappers
  import opened Cfg
  import opened Dfs
  import opened LoopRecords
  import opened LoopSearch
  import opened LoopTree
  import opened LinearOrder
  import opened Dominance

  /** Block `x` leads to the latch `u` past the header `h`. */
  ghost predicate InBody(g: Graph, u: Block, h: Block, x: Block) {
    Leads(g, x, {u} - {h}, {h})
  }

  /** The search reports the edge u -> h only, and `h` lies on every path to `u`. */
  ghost predicate SingleLoop(g: Graph, u: Block, h: Block)
    requires g.Valid()
  {
    OnlyBackEdge(g, u, h) && OnEveryPath(g, h, u)
  }

  /** Past the header, no block of the loop has two successors in it. */
  ghost predicate IsStraight(g: Graph, u: Block, h: Block) {
    forall x: Block, y: Block, z: Block :: InnerEdge(g, u, h, x, y) && InnerEdge(g, u, h, x, z) ==> y == z
  }

  /** Past the header, some block of the loop has several successors in it, and none of them leads to another one. */
  ghost predicate Forks(g: Graph, u: Block, h: Block) {
    exists x: Block, y: Block, z: Block ::
      y != z && InnerEdge(g, u, h, x, y) && InnerEdge(g, u, h, x, z) && ArmsApart(g, u, h, x)
  }

  ghost predicate InnerEdge(g: Graph, u: Block, h: Block, x: Block, y: Block) {
    InBody(g, u, h, x) && InBody(g, u, h, y) && Edge(g, x, y)
  }

  ghost predicate ArmsApart(g: Graph, u: Block, h: Block, x: Block) {
    forall y: Block, z: Block ::
      y != z && InnerEdge(g, u, h, x, y) && InnerEdge(g, u, h, x, z) ==> !Leads(g, y, {z}, {h})
  }

  /** In the body every block comes after the ones it leads to inside the loop. */
  ghost predicate IsBackwards(g: Graph, h: Block, body: seq<Block>) {
    forall x, y :: x in body && y in body && y != h && Edge(g, x, y) ==> IndexOf(body, y) < IndexOf(body, x)
  }

  // ---- the loop in reverse postorder ----

  lemma OnlyReport(g: Graph, u: Block, h: Block, x: Block, y: Block)
    requires g.Valid() && OnlyBackEdge(g, u, h)
    ensures BackEdge(x, y) in Trace(g) <==> x == u && y == h
  {
    hide Trace;
    assert BackEdge(x, y) in Trace(g) ==> BackEdge(x, y) == BackEdge(u, h);
  }

  /** Any other edge leads forward. */
  lemma OthersForward(g: Graph, u: Block, h: Block, x: Block, y: Block)
    requires g.Valid() && OnlyBackEdge(g, u, h) && Reaches(g, g.head, x) && Edge(g, x, y) && !(x == u && y == h)
    ensures x in ReversePostorder(g) && y in ReversePostorder(g)
    ensures IndexOf(ReversePostorder(g), x) < IndexOf(ReversePostorder(g), y)
  {
    hide Trace, OnlyBackEdge, Reaches;
    OnlyReport(g, u, h, x, y);
    ReachesStep(g, g.head, x, y);
    ReversePostorderIsTopological(g);
  }

  lemma LatchFacts(g: Graph, u: Block, h: Block)
    requires g.Valid() && OnlyBackEdge(g, u, h)
    ensures Edge(g, u, h) && Reaches(g, g.head, u) && Reaches(g, g.head, h)
    ensures u in ReversePostorder(g) && h in ReversePostorder(g)
  {
    hide Trace, Reaches;
    BackEdgeIff(g, u, h);
    ReachedExactlyOnce(g);
    ReversePostorderIsTopological(g);
  }

  /** What is in the body comes no later than the latch. */
  lemma {:induction false} BodyBeforeLatch(g: Graph, u: Block, h: Block, p: seq<Block>)
    requires g.Valid() && OnlyBackEdge(g, u, h) && IsPath(g, p) && p[|p| - 1] == u && Avoids(p, {h})
    requires Reaches(g, g.head, p[0])
    ensures p[0] in ReversePostorder(g) && u in ReversePostorder(g)
    ensures IndexOf(ReversePostorder(g), p[0]) <= IndexOf(ReversePostorder(g), u)
    decreases |p|
  {
    hide OnlyBackEdge, Reaches, ReversePostorder, Graph.Valid;
    LatchFacts(g, u, h);
    if |p| > 1 {
      assert Edge(g, p[0], p[0 + 1]) && p[1] in p;
      OthersForward(g, u, h, p[0], p[1]);
      ReachesStep(g, g.head, p[0], p[1]);
      var q := p[1..];
      forall i | 0 <= i < |q| - 1 ensures Edge(g, q[i], q[i + 1]) {
        assert Edge(g, p[i + 1], p[i + 1 + 1]);
      }
      BodyBeforeLatch(g, u, h, q);
    }
  }

  /** The header comes before every block of the body. */
  lemma HeaderBeforeBody(g: Graph, u: Block, h: Block, x: Block)
    requires g.Valid() && OnlyBackEdge(g, u, h) && OnEveryPath(g, h, u) && InBody(g, u, h, x) && Reaches(g, g.head, x)
    ensures h in ReversePostorder(g) && x in ReversePostorder(g) && x != h
    ensures IndexOf(ReversePostorder(g), h) < IndexOf(ReversePostorder(g), x)
  {
    hide OnlyBackEdge, Preorder, ReversePostorder, Graph.Valid;
    LeadsAvoids(g, x, {u} - {h}, {h});
    var s, p :| s in {u} - {h} && PathFrom(g, x, s, p) && Avoids(p, {h});
    forall q | PathFrom(g, g.head, x, q) ensures h in q {
      var r := q + p[1..];
      JoinPaths(g, q, p);
      assert PathFrom(g, g.head, u, r) && h in r;
      assert h !in p[1..];
    }
    ReachedExactlyOnce(g);
    DominatorFirst(g, h, x);
  }

  lemma JoinPaths(g: Graph, q: seq<Block>, p: seq<Block>)
    requires IsPath(g, q) && IsPath(g, p) && q[|q| - 1] == p[0]
    ensures var r := q + p[1..]; IsPath(g, r) && r[0] == q[0] && r[|r| - 1] == p[|p| - 1]
  {
    var r := q + p[1..];
    forall i | 0 <= i < |r| - 1 ensures Edge(g, r[i], r[i + 1]) {
      if i >= |q| - 1 {
        assert Edge(g, p[i - |q| + 1], p[i - |q| + 1 + 1]);
      } else {
        assert Edge(g, q[i], q[i + 1]);
      }
    }
  }

  lemma StepIntoBody(g: Graph, u: Block, h: Block, x: Block, y: Block)
    requires InBody(g, u, h, y) && Edge(g, x, y) && x != h
    ensures InBody(g, u, h, x)
  {
    var s, p :| s in {u} - {h} && PathFrom(g, y, s, p) && Avoids(p, {h});
    assert PathFrom(g, x, s, [x] + p) && Avoids([x] + p, {h});
  }

  lemma LatchInBody(g: Graph, u: Block, h: Block)
    requires u != h
    ensures InBody(g, u, h, u)
  {
    assert PathFrom(g, u, u, [u]) && Avoids([u], {h}) && u in {u} - {h};
  }

  // ---- the recorded body ----

  /** Where the block added at position `k` stands, and where the latch does. */
  lemma AddedPlace(g: Graph, u: Block, h: Block, was: seq<Block>, body: seq<Block>, now: set<Block>, k: nat)
    requires IsTies(was, u) && BodyGrown(g, {h}, {u, h}, now, {u}, was, body) && |was| + k < |body|
    ensures body[|was| + k] in body && IndexOf(body, body[|was| + k]) == |was| + k
    ensures u in body && IndexOf(body, u) < |was|
  {
    hide MetFrom;
    var added := body[|was|..];
    assert body == was + added && was[0] in was && body[0] == u;
    forall i: nat | i < |added| ensures added[i] != u && NewAt(added, i) {
      assert GrownAt(g, {h}, {u, h}, {u}, added, i);
    }
    LastAdded(was, added, k);
    LastOfTies(was, added, u);
  }

  ghost predicate NewAt(s: seq<Block>, i: nat)
    requires i < |s|
  {
    s[i] !in s[..i]
  }

  lemma LastAdded(was: seq<Block>, added: seq<Block>, k: nat)
    requires k < |added| && forall i: nat :: i < |added| ==> NewAt(added, i)
    ensures var body := was + added; body[|was| + k] in body && IndexOf(body, body[|was| + k]) == |was| + k
  {
    var body := was + added;
    forall i | |was| + k < i < |body| ensures body[i] != body[|was| + k] {
      assert NewAt(added, i - |was|) && added[..i - |was|][k] == added[k];
    }
    LastPlace(body, |was| + k);
  }

  lemma LastOfTies(was: seq<Block>, added: seq<Block>, u: Block)
    requires was != [] && was[0] == u && forall i :: 0 <= i < |added| ==> added[i] != u
    ensures var body := was + added; u in body && IndexOf(body, u) < |was|
  {
    var body := was + added;
    assert body[0] == u;
    assert forall i :: |was| <= i < |body| ==> body[i] == added[i - |was|];
  }

  lemma LastPlace(s: seq<Block>, i: nat)
    requires i < |s| && forall j :: i < j < |s| ==> s[j] != s[i]
    ensures s[i] in s && IndexOf(s, s[i]) == i
  {
  }

  /** No edge leads from the latch into the body. */
  lemma LatchLeavesBody(g: Graph, u: Block, h: Block, y: Block)
    requires g.Valid() && OnlyBackEdge(g, u, h) && InBody(g, u, h, y)
    ensures !Edge(g, u, y)
  {
    hide Graph.Valid, ReversePostorder, OnlyBackEdge, Reaches;
    if Edge(g, u, y) {
      LatchFacts(g, u, h);
      LeadsAvoids(g, y, {u} - {h}, {h});
      OthersForward(g, u, h, u, y);
      ReachesStep(g, g.head, u, y);
      var s, p :| s in {u} - {h} && PathFrom(g, y, s, p) && Avoids(p, {h});
      BodyBeforeLatch(g, u, h, p);
    }
  }

  /** The block that `x` was met from is the latch, or comes earlier in the body. */
  lemma MetEarlier(g: Graph, u: Block, h: Block, body: seq<Block>, was: seq<Block>, now: set<Block>, x: Block)
    returns (k: nat, y: Block)
    requires g.Valid() && SingleLoop(g, u, h) && u != h && x in body && x != u && x != h && Reaches(g, g.head, x)
    requires IsTies(was, u) && BodyGrown(g, {h}, {u, h}, now, {u}, was, body)
    requires InBody(g, u, h, x)
    ensures |was| + k < |body| && body[|was| + k] == x && IndexOf(body, x) == |was| + k
    ensures Meets(g, {h}, {u, h}, {u}, body[|was|..][..k], x, y) && y != h && InBody(g, u, h, y)
  {
    hide OnlyBackEdge, OnEveryPath, Leads, Graph.Valid, Reaches, ReversePostorder, InBody;
    var added := body[|was|..];
    assert body == was + added;
    var i := IndexOf(body, x);
    assert forall j :: 0 <= j < |was| ==> body[j] == was[j] && was[j] in was;
    k := i - |was|;
    assert GrownAt(g, {h}, {u, h}, {u}, added, k) && added[k] == x;
    y :| Meets(g, {h}, {u, h}, {u}, added[..k], x, y);
    AddedPlace(g, u, h, was, body, now, k);
    if y == h {
      HeaderBeforeBody(g, u, h, x);
      OthersForward(g, u, h, x, h);
      assert false;
    }
    MetInBody(g, u, h, y);
  }

  lemma MetInBody(g: Graph, u: Block, h: Block, y: Block)
    requires Leads(g, y, {u}, {h}) && u != h
    ensures InBody(g, u, h, y)
  {
    assert {u} - {h} == {u};
  }

  /** An earlier block of the body than the one at place `k`: the latch, or among the blocks added before. */
  lemma EarlierIs(g: Graph, u: Block, h: Block, body: seq<Block>, was: seq<Block>, now: set<Block>, k: nat, y: Block)
    requires IsTies(was, u) && BodyGrown(g, {h}, {u, h}, now, {u}, was, body) && |was| + k < |body| && y in body
    ensures IndexOf(body, y) < |was| + k <==> y == u || y in body[|was|..][..k]
  {
    hide MetFrom;
    var added := body[|was|..];
    assert body == was + added;
    AddedPlace(g, u, h, was, body, now, k);
    var i := IndexOf(body, y);
    assert forall j :: 0 <= j < |was| ==> body[j] == was[j] && was[j] in was;
    if |was| <= i < |was| + k {
      assert added[..k][i - |was|] == y;
    }
    if y in added[..k] {
      var j :| 0 <= j < k && added[j] == y;
      AddedPlace(g, u, h, was, body, now, j);
    }
  }

  lemma InBodyIff(g: Graph, u: Block, h: Block, body: seq<Block>)
    requires BodyOf(g, u, h, body) && u != h
    ensures u in body && forall x :: x in body <==> InBody(g, u, h, x)
  {
    hide BodyGrown, Leads;
    LatchInBody(g, u, h);
  }

  /** A straight body is backwards. */
  lemma StraightIsBackwards(g: Graph, u: Block, h: Block, body: seq<Block>)
    requires g.Valid() && SingleLoop(g, u, h) && IsStraight(g, u, h) && BodyOf(g, u, h, body)
    requires forall x :: x in body ==> Reaches(g, g.head, x)
    ensures IsBackwards(g, h, body)
  {
    hide OnlyBackEdge, OnEveryPath, Graph.Valid, Reaches, BodyGrown, InBody;
    forall x, y | x in body && y in body && y != h && Edge(g, x, y) ensures IndexOf(body, y) < IndexOf(body, x) {
      if u == h {
        NoBody(g, u, h, body, y);
      } else {
        StraightStep(g, u, h, body, x, y);
      }
    }
  }

  lemma NoBody(g: Graph, u: Block, h: Block, body: seq<Block>, y: Block)
    requires BodyOf(g, u, h, body) && u == h && y in body
    ensures y == h
  {
    hide BodyGrown;
  }

  lemma StraightStep(g: Graph, u: Block, h: Block, body: seq<Block>, x: Block, y: Block)
    requires g.Valid() && SingleLoop(g, u, h) && IsStraight(g, u, h) && BodyOf(g, u, h, body) && u != h
    requires x in body && y in body && y != h && Edge(g, x, y) && Reaches(g, g.head, x)
    ensures IndexOf(body, y) < IndexOf(body, x)
  {
    hide OnlyBackEdge, OnEveryPath, Graph.Valid, Reaches, BodyGrown, InBody, Leads;
    InBodyIff(g, u, h, body);
    var was, now :| IsTies(was, u) && BodyGrown(g, {h}, {u, h}, now, {u}, was, body);
    if x == u {
      LatchLeavesBody(g, u, h, y);
    } else {
      NotHeader(g, u, h, x);
      var k, z := MetEarlier(g, u, h, body, was, now, x);
      assert InnerEdge(g, u, h, x, y) && InnerEdge(g, u, h, x, z);
      EarlierIs(g, u, h, body, was, now, k, y);
    }
  }

  lemma NotHeader(g: Graph, u: Block, h: Block, x: Block)
    requires InBody(g, u, h, x)
    ensures x != h
  {
    LeadsAvoids(g, x, {u} - {h}, {h});
  }

  /** A body with a fork is not: the block at the fork was met from one arm, before the other arm was. */
  lemma ForkIsNotBackwards(g: Graph, u: Block, h: Block, body: seq<Block>)
    requires g.Valid() && SingleLoop(g, u, h) && Forks(g, u, h) && BodyOf(g, u, h, body)
    requires forall x :: x in body ==> Reaches(g, g.head, x)
    ensures !IsBackwards(g, h, body)
  {
    hide OnlyBackEdge, OnEveryPath, Graph.Valid, Reaches, BodyGrown, InBody, Leads;
    var x: Block, y: Block, z: Block :|
      y != z && InnerEdge(g, u, h, x, y) && InnerEdge(g, u, h, x, z) && ArmsApart(g, u, h, x);
    LatchDiffers(g, u, h, x);
    InBodyIff(g, u, h, body);
    NotHeader(g, u, h, x);
    NotHeader(g, u, h, y);
    NotHeader(g, u, h, z);
    if x == u {
      LatchLeavesBody(g, u, h, y);
    } else {
      var was, now :| IsTies(was, u) && BodyGrown(g, {h}, {u, h}, now, {u}, was, body);
      var k, a := MetEarlier(g, u, h, body, was, now, x);
      var b := if a == y then z else y;
      EarlierIs(g, u, h, body, was, now, k, b);
      assert InnerEdge(g, u, h, x, a) && InnerEdge(g, u, h, x, b) && !Leads(g, a, {b}, {h});
    }
  }

  lemma LatchDiffers(g: Graph, u: Block, h: Block, x: Block)
    requires InBody(g, u, h, x)
    ensures u != h
  {
  }

  // ---- the shape of the linear order ----

  /** The list without the blocks of `v`. */
  ghost function Skip(s: seq<Block>, v: set<Block>): seq<Block> {
    if s == [] then [] else (if s[0] in v then [] else [s[0]]) + Skip(s[1..], v)
  }

  lemma {:induction false} SkipKeepsOrder(s: seq<Block>, v: set<Block>, i: nat, j: nat) returns (a: nat, b: nat)
    requires i <= j < |Skip(s, v)|
    ensures a <= b < |s| && s[a] == Skip(s, v)[i] && s[b] == Skip(s, v)[j] && s[a] !in v && s[b] !in v
  {
    if s[0] in v {
      a, b := SkipKeepsOrder(s[1..], v, i, j);
      a, b := a + 1, b + 1;
    } else if j == 0 {
      a, b := 0, 0;
    } else if i == 0 {
      a, b := SkipKeepsOrder(s[1..], v, j - 1, j - 1);
      a, b := 0, b + 1;
    } else {
      a, b := SkipKeepsOrder(s[1..], v, i - 1, j - 1);
      a, b := a + 1, b + 1;
    }
  }

  lemma {:induction false} SkipNothing(s: seq<Block>)
    ensures Skip(s, {}) == s
  {
    if s != [] {
      SkipNothing(s[1..]);
    }
  }

  lemma {:induction false} PlainRest(pre: seq<Block>, data: map<Block, nat>, loops: seq<Loop>, s: seq<Block>,
                                     visited: set<Block>, v: set<Block>)
    requires forall x :: x in s ==> HasLoop(pre, data, loops, x) && !HeadsReducible(data, loops, x)
    requires Distinct(s) && forall x :: x in s ==> (x in visited <==> x in v)
    ensures LinearFrom(pre, data, loops, s, visited) == Skip(s, v)
    decreases |s|
  {
    hide HasLoop, HeadsReducible;
    if s != [] {
      var rest := s[1..];
      assert forall x :: x in rest ==> x in s && x != s[0];
      assert s[0] in s;
      PlainRest(pre, data, loops, rest, if s[0] in visited then visited else visited + {s[0]}, v);
      OneDistinct(s[0]);
    }
  }

  lemma {:induction false} PlainPrefix(pre: seq<Block>, data: map<Block, nat>, loops: seq<Loop>, s: seq<Block>, p: nat)
    requires p <= |s| && Distinct(s) && forall x :: x in s ==> HasLoop(pre, data, loops, x)
    requires forall i :: 0 <= i < p ==> !HeadsReducible(data, loops, s[i])
    ensures forall x :: x in s[p..] ==> HasLoop(pre, data, loops, x)
    ensures LinearFrom(pre, data, loops, s, {}) == s[..p] + LinearFrom(pre, data, loops, s[p..], Elems(s[..p]))
    decreases p
  {
    hide HasLoop, HeadsReducible, LinearFrom, Group, Elems;
    NoElems();
    if p == 0 {
      assert s[p..] == s && s[..p] == [];
    } else {
      PlainPrefix(pre, data, loops, s, p - 1);
      var seen, x := Elems(s[..p - 1]), s[p - 1];
      LinearNext(pre, data, loops, s, p - 1, seen);
      GroupIs(pre, data, loops, x, seen);
      ElemsAre(s[..p - 1]);
      assert s[..p] == s[..p - 1] + [x];
      ElemsOfSum(s[..p - 1], [x]);
    }
  }

  /** The blocks up to the header in reverse postorder, the body last one first, and what is left. */
  ghost predicate HasShape(rpo: seq<Block>, p: nat, body: seq<Block>, order: seq<Block>)
    requires p < |rpo|
  {
    var list := LastFirst(body, Elems(rpo[..p + 1]));
    order == rpo[..p + 1] + list + Skip(rpo[p + 1..], Elems(list))
  }

  lemma OrderShape(g: Graph, data: map<Block, nat>, loops: seq<Loop>, order: seq<Block>, u: Block, h: Block)
    requires g.Valid() && OnlyBackEdge(g, u, h) && IsOrderOf(g, data, loops, order)
    requires LoopRecorded(g, data, loops, u, h, true)
    ensures var rpo := ReversePostorder(g); h in rpo && HasShape(rpo, IndexOf(rpo, h), loops[data[h]].body, order)
  {
    hide Graph.Valid, Preorder, ReversePostorder, BodyOf, LinearFrom, IsListable, OnlyBackEdge, HasLoop, LastFirst;
    LatchFacts(g, u, h);
    ReversePostorderIsTopological(g);
    var pre, rpo, body := Preorder(g), ReversePostorder(g), loops[data[h]].body;
    var p := IndexOf(rpo, h);
    UpToHeader(pre, data, loops, rpo, p, body);
    RestIsPlain(pre, data, loops, rpo, p, LastFirst(body, Elems(rpo[..p + 1])));
  }

  lemma UpToHeader(pre: seq<Block>, data: map<Block, nat>, loops: seq<Loop>, rpo: seq<Block>, p: nat, body: seq<Block>)
    requires p < |rpo| && Distinct(rpo) && forall x :: x in rpo ==> HasLoop(pre, data, loops, x)
    requires HeadsReducible(data, loops, rpo[p]) && body == loops[data[rpo[p]]].body
    requires forall x :: x in data && data[x] < |loops| && loops[data[x]].header == Some(x) ==> x == rpo[p]
    ensures forall x :: x in rpo[p + 1..] ==> HasLoop(pre, data, loops, x)
    ensures var list := LastFirst(body, Elems(rpo[..p + 1]));
      LinearFrom(pre, data, loops, rpo, {}) == rpo[..p + 1] + list +
        LinearFrom(pre, data, loops, rpo[p + 1..], Elems(rpo[..p + 1]) + Elems(list))
  {
    hide HasLoop, LinearFrom, IsListable, Listed, LastFirst, Elems;
    var h := rpo[p];
    PlainPrefix(pre, data, loops, rpo, p);
    ElemsAre(rpo[..p]);
    HeaderGroup(pre, data, loops, rpo, p, Elems(rpo[..p]));
    ListedIsLastFirst(pre, data, loops, data[h], |body|, Elems(rpo[..p]) + {h});
    OneDistinct(h);
    ElemsOfSum(rpo[..p], [h]);
    assert body[..|body|] == body && rpo[..p + 1] == rpo[..p] + [h];
    var list := LastFirst(body, Elems(rpo[..p + 1]));
    assert rpo[..p] + ([h] + list) == rpo[..p + 1] + list;
  }

  /** At the header: its group comes next. */
  lemma HeaderGroup(pre: seq<Block>, data: map<Block, nat>, loops: seq<Loop>, rpo: seq<Block>, p: nat,
                    visited: set<Block>)
    requires p < |rpo| && rpo[p] !in visited && HeadsReducible(data, loops, rpo[p])
    requires forall x :: x in rpo[p..] ==> HasLoop(pre, data, loops, x)
    ensures IsListable(pre, data, loops, data[rpo[p]]) && forall x :: x in rpo[p + 1..] ==> HasLoop(pre, data, loops, x)
    ensures var h := rpo[p];
      var list := Listed(pre, data, loops, data[h], |loops[data[h]].body|, visited + {h});
      LinearFrom(pre, data, loops, rpo[p..], visited) ==
        [h] + list + LinearFrom(pre, data, loops, rpo[p + 1..], visited + {h} + Elems(list))
  {
    hide HasLoop, Group, IsListable, Listed;
    LinearNext(pre, data, loops, rpo, p, visited);
    GroupIs(pre, data, loops, rpo[p], visited);
    var list := Listed(pre, data, loops, data[rpo[p]], |loops[data[rpo[p]]].body|, visited + {rpo[p]});
    assert visited + ({rpo[p]} + Elems(list)) == visited + {rpo[p]} + Elems(list);
  }

  lemma RestIsPlain(pre: seq<Block>, data: map<Block, nat>, loops: seq<Loop>, rpo: seq<Block>, p: nat, list: seq<Block>)
    requires p < |rpo| && Distinct(rpo) && forall x :: x in rpo[p + 1..] ==> HasLoop(pre, data, loops, x)
    requires forall x :: x in rpo && x != rpo[p] ==> !HeadsReducible(data, loops, x)
    ensures LinearFrom(pre, data, loops, rpo[p + 1..], Elems(rpo[..p + 1]) + Elems(list)) ==
      Skip(rpo[p + 1..], Elems(list))
  {
    hide HasLoop, HeadsReducible;
    var s := rpo[p + 1..];
    forall x | x in s ensures x !in Elems(rpo[..p + 1]) && x in rpo && x != rpo[p] {
      var i :| 0 <= i < |s| && s[i] == x;
      assert rpo[p + 1 + i] == x;
    }
    PlainRest(pre, data, loops, s, Elems(rpo[..p + 1]) + Elems(list), Elems(list));
  }

  // ---- edges in the linear order ----

  /** The records and the order belong to a graph with one loop. */
  ghost predicate LoopInOrder(g: Graph, u: Block, h: Block, body: seq<Block>, order: seq<Block>)
    requires g.Valid()
  {
    && SingleLoop(g, u, h) && BodyOf(g, u, h, body) && (forall x :: x in body ==> Reaches(g, g.head, x))
    && h in ReversePostorder(g) && HasShape(ReversePostorder(g), IndexOf(ReversePostorder(g), h), body, order)
  }

  /** The blocks of the body that the reverse postorder lists after the header. */
  ghost function Middle(rpo: seq<Block>, p: nat, body: seq<Block>): seq<Block>
    requires p < |rpo|
  {
    LastFirst(body, Elems(rpo[..p + 1]))
  }

  lemma FirstPart(rpo: seq<Block>, p: nat, body: seq<Block>, order: seq<Block>, k: nat)
    requires p < |rpo| && HasShape(rpo, p, body, order) && Distinct(rpo) && k <= p
    ensures k < |order| && order[k] == rpo[k] && order[k] in rpo && IndexOf(rpo, order[k]) == k
  {
    hide LastFirst, Skip, Elems;
    IndexOfAt(rpo, k);
  }

  lemma MiddlePart(rpo: seq<Block>, p: nat, body: seq<Block>, order: seq<Block>, k: nat)
    requires p < |rpo| && HasShape(rpo, p, body, order) && p < k <= p + |Middle(rpo, p, body)|
    ensures k < |order| && order[k] == Middle(rpo, p, body)[k - p - 1] && order[k] in body && order[k] !in rpo[..p + 1]
  {
    hide LastFirst, Skip;
    var list := Middle(rpo, p, body);
    assert order[k] == list[k - p - 1] && order[k] in list;
    LastFirstFacts(body, Elems(rpo[..p + 1]), order[k], order[k]);
  }

  lemma LastPart(rpo: seq<Block>, p: nat, body: seq<Block>, order: seq<Block>, j: nat, i: nat)
    requires p < |rpo| && HasShape(rpo, p, body, order) && Distinct(rpo)
    requires p + |Middle(rpo, p, body)| < j <= i < |order|
    ensures order[j] in rpo && order[i] in rpo && p < IndexOf(rpo, order[j]) <= IndexOf(rpo, order[i])
    ensures order[i] !in Middle(rpo, p, body)
  {
    hide LastFirst, Skip;
    var list := Middle(rpo, p, body);
    var n := p + 1 + |list|;
    assert order[j] == Skip(rpo[p + 1..], Elems(list))[j - n] && order[i] == Skip(rpo[p + 1..], Elems(list))[i - n];
    var a, b := SkipKeepsOrder(rpo[p + 1..], Elems(list), j - n, i - n);
    assert rpo[p + 1..][a] == rpo[p + 1 + a] && rpo[p + 1..][b] == rpo[p + 1 + b];
    IndexOfAt(rpo, p + 1 + a);
    IndexOfAt(rpo, p + 1 + b);
  }

  lemma BeyondHeader(rpo: seq<Block>, p: nat, x: Block)
    requires p < |rpo| && Distinct(rpo) && x in rpo
    ensures x in rpo[..p + 1] <==> IndexOf(rpo, x) <= p
  {
    var i := IndexOf(rpo, x);
    assert i <= p ==> rpo[..p + 1][i] == x;
  }

  /** Inside the body edges lead forward in the list, or back in reverse postorder. */
  lemma MiddleForward(g: Graph, u: Block, h: Block, body: seq<Block>, order: seq<Block>, i: nat, j: nat)
    requires g.Valid() && LoopInOrder(g, u, h, body, order) && IsBackwards(g, h, body)
    requires var rpo := ReversePostorder(g); var p := IndexOf(rpo, h);
      p < j <= i <= p + |Middle(rpo, p, body)| && i < |order| && Edge(g, order[i], order[j])
    ensures var rpo := ReversePostorder(g);
      order[i] in rpo && order[j] in rpo && IndexOf(rpo, order[j]) <= IndexOf(rpo, order[i])
  {
    hide Graph.Valid, ReversePostorder, OnlyBackEdge, OnEveryPath, Reaches, HasShape, LastFirst, BodyOf;
    var rpo := ReversePostorder(g);
    var p := IndexOf(rpo, h);
    var list, x, y := Middle(rpo, p, body), order[i], order[j];
    ReversePostorderIsTopological(g);
    MiddlePart(rpo, p, body, order, i);
    MiddlePart(rpo, p, body, order, j);
    assert x in rpo && y in rpo;
    if i > j {
      BeyondHeader(rpo, p, h);
      LastFirstFacts(body, Elems(rpo[..p + 1]), x, y);
      assert false;
    }
  }

  /** No edge leads from what is left into the body. */
  lemma NoneIntoBody(g: Graph, u: Block, h: Block, body: seq<Block>, x: Block, y: Block)
    requires g.Valid() && OnlyBackEdge(g, u, h) && BodyOf(g, u, h, body) && x in ReversePostorder(g)
    requires h in ReversePostorder(g)
    requires var rpo := ReversePostorder(g); var p := IndexOf(rpo, h);
      p < IndexOf(rpo, x) && x !in Middle(rpo, p, body) && y in body && y !in rpo[..p + 1]
    ensures !Edge(g, x, y)
  {
    hide Graph.Valid, ReversePostorder, OnlyBackEdge, LastFirst, BodyGrown, Leads;
    var rpo := ReversePostorder(g);
    var p := IndexOf(rpo, h);
    if Edge(g, x, y) {
      ReversePostorderIsTopological(g);
      BeyondHeader(rpo, p, x);
      BeyondHeader(rpo, p, h);
      assert y != h;
      BodyHas(g, u, h, body, y);
      StepIntoBody(g, u, h, x, y);
      LastFirstFacts(body, Elems(rpo[..p + 1]), x, x);
    }
  }

  lemma BodyHas(g: Graph, u: Block, h: Block, body: seq<Block>, y: Block)
    requires BodyOf(g, u, h, body) && y in body && y != h
    ensures InBody(g, u, h, y)
  {
    hide BodyGrown, Leads;
    if y == u {
      LatchInBody(g, u, h);
    }
  }

  /** An edge that does not lead forward in the linear order is the one that closes the loop. */
  lemma OnlyLatchBack(g: Graph, u: Block, h: Block, body: seq<Block>, order: seq<Block>, i: nat, j: nat)
    requires g.Valid() && LoopInOrder(g, u, h, body, order) && IsBackwards(g, h, body)
    requires j <= i < |order| && Edge(g, order[i], order[j])
    ensures order[i] == u && order[j] == h
  {
    hide Graph.Valid, ReversePostorder, OnlyBackEdge, OnEveryPath, IsBackwards, Reaches, HasShape, BodyOf, Middle;
    var rpo := ReversePostorder(g);
    var p := IndexOf(rpo, h);
    ReversePostorderIsTopological(g);
    var x, y, n := order[i], order[j], p + |Middle(rpo, p, body)|;
    assert x in rpo && y in rpo && IndexOf(rpo, y) <= IndexOf(rpo, x) by {
      if i <= p {
        FirstPart(rpo, p, body, order, i);
        FirstPart(rpo, p, body, order, j);
      } else if i <= n {
        FromMiddle(g, u, h, body, order, i, j);
      } else {
        FromLast(g, u, h, body, order, i, j);
      }
    }
    if !(x == u && y == h) {
      OthersForward(g, u, h, x, y);
    }
  }

  lemma FromMiddle(g: Graph, u: Block, h: Block, body: seq<Block>, order: seq<Block>, i: nat, j: nat)
    requires g.Valid() && LoopInOrder(g, u, h, body, order) && IsBackwards(g, h, body) && j <= i < |order|
    requires Edge(g, order[i], order[j])
    requires var rpo := ReversePostorder(g); var p := IndexOf(rpo, h); p < i <= p + |Middle(rpo, p, body)|
    ensures var rpo := ReversePostorder(g);
      order[i] in rpo && order[j] in rpo && IndexOf(rpo, order[j]) <= IndexOf(rpo, order[i])
  {
    hide Graph.Valid, ReversePostorder, OnlyBackEdge, OnEveryPath, IsBackwards, Reaches, HasShape, BodyOf, Middle;
    var rpo := ReversePostorder(g);
    var p := IndexOf(rpo, h);
    ReversePostorderIsTopological(g);
    if j > p {
      MiddleForward(g, u, h, body, order, i, j);
    } else {
      FirstPart(rpo, p, body, order, j);
      MiddlePart(rpo, p, body, order, i);
      assert order[i] in rpo;
      BeyondHeader(rpo, p, order[i]);
    }
  }

  lemma FromLast(g: Graph, u: Block, h: Block, body: seq<Block>, order: seq<Block>, i: nat, j: nat)
    requires g.Valid() && LoopInOrder(g, u, h, body, order) && j <= i < |order| && Edge(g, order[i], order[j])
    requires var rpo := ReversePostorder(g); var p := IndexOf(rpo, h); p + |Middle(rpo, p, body)| < i
    ensures var rpo := ReversePostorder(g);
      order[i] in rpo && order[j] in rpo && IndexOf(rpo, order[j]) <= IndexOf(rpo, order[i])
  {
    hide Graph.Valid, ReversePostorder, OnlyBackEdge, OnEveryPath, IsBackwards, Reaches, HasShape, BodyOf, Middle;
    var rpo := ReversePostorder(g);
    var p := IndexOf(rpo, h);
    ReversePostorderIsTopological(g);
    LastPart(rpo, p, body, order, i, i);
    if j <= p {
      FirstPart(rpo, p, body, order, j);
    } else if j <= p + |Middle(rpo, p, body)| {
      MiddlePart(rpo, p, body, order, j);
      NoneIntoBody(g, u, h, body, order[i], order[j]);
      assert false;
    } else {
      LastPart(rpo, p, body, order, j, i);
    }
  }

  /** The header stands where it stands in reverse postorder, and the body after it. */
  lemma BodyAfterHeader(g: Graph, u: Block, h: Block, body: seq<Block>, order: seq<Block>, m: nat)
    requires g.Valid() && LoopInOrder(g, u, h, body, order) && m < |order| && order[m] in body && order[m] != h
    ensures var p := IndexOf(ReversePostorder(g), h); p < m && order[p] == h
  {
    hide Graph.Valid, ReversePostorder, OnlyBackEdge, OnEveryPath, Reaches, HasShape, BodyOf;
    var rpo := ReversePostorder(g);
    var p := IndexOf(rpo, h);
    ReversePostorderIsTopological(g);
    FirstPart(rpo, p, body, order, p);
    BodyHas(g, u, h, body, order[m]);
    HeaderBeforeBody(g, u, h, order[m]);
    if m <= p {
      FirstPart(rpo, p, body, order, m);
    }
  }

  /** Without a reducible loop the linear order is the reverse postorder. */
  lemma PlainOrder(g: Graph, data: map<Block, nat>, loops: seq<Loop>, order: seq<Block>)
    requires g.Valid() && IsOrderOf(g, data, loops, order)
    requires forall x :: x in ReversePostorder(g) ==> !HeadsReducible(data, loops, x)
    ensures order == ReversePostorder(g)
  {
    hide Graph.Valid, Preorder, ReversePostorder, HasLoop, HeadsReducible, LinearFrom;
    ReversePostorderIsTopological(g);
    PlainRest(Preorder(g), data, loops, ReversePostorder(g), {}, {});
    SkipNothing(ReversePostorder(g));
  }

  lemma HeaderNotAfterLatch(g: Graph, u: Block, h: Block)
    requires g.Valid() && OnlyBackEdge(g, u, h) && OnEveryPath(g, h, u)
    ensures u in ReversePostorder(g) && h in ReversePostorder(g)
    ensures IndexOf(ReversePostorder(g), h) <= IndexOf(ReversePostorder(g), u)
  {
    hide Graph.Valid, Preorder, ReversePostorder, OnlyBackEdge, OnEveryPath, Reaches;
    LatchFacts(g, u, h);
    ReachedExactlyOnce(g);
    if u != h {
      DominatorFirst(g, h, u);
    }
  }

  /** Two blocks of the body that the order lists the other way round than the body does. */
  lemma WrongWay(g: Graph, u: Block, h: Block, body: seq<Block>, order: seq<Block>, x: Block, y: Block)
    returns (i: nat, j: nat)
    requires g.Valid() && LoopInOrder(g, u, h, body, order) && x in body && y in body && y != h && Edge(g, x, y)
    requires IndexOf(body, x) <= IndexOf(body, y)
    ensures j <= i < |order| && order[i] == x && order[j] == y
  {
    hide Graph.Valid, ReversePostorder, OnlyBackEdge, OnEveryPath, Reaches, HasShape, LastFirst, BodyOf, Elems;
    var rpo := ReversePostorder(g);
    var p := IndexOf(rpo, h);
    var list := Middle(rpo, p, body);
    BodyPastHeader(g, u, h, body, order, y);
    BodyPastHeader(g, u, h, body, order, x);
    LastFirstFacts(body, Elems(rpo[..p + 1]), y, x);
    LastFirstFacts(body, Elems(rpo[..p + 1]), x, x);
    var b, a := 0, 0;
    if x == y {
      b :| 0 <= b < |list| && list[b] == x;
      a := b;
    } else {
      b, a :| 0 <= b < a < |list| && list[b] == y && list[a] == x;
    }
    i, j := p + 1 + a, p + 1 + b;
    InMiddle(rpo, p, body, order, a);
    InMiddle(rpo, p, body, order, b);
  }

  lemma InMiddle(rpo: seq<Block>, p: nat, body: seq<Block>, order: seq<Block>, a: nat)
    requires p < |rpo| && HasShape(rpo, p, body, order) && a < |Middle(rpo, p, body)|
    ensures p + 1 + a < |order| && order[p + 1 + a] == Middle(rpo, p, body)[a]
  {
    hide LastFirst, Skip;
  }

  lemma BodyPastHeader(g: Graph, u: Block, h: Block, body: seq<Block>, order: seq<Block>, x: Block)
    requires g.Valid() && LoopInOrder(g, u, h, body, order) && x in body && (exists y :: y in body && y != h)
    ensures x !in Elems(ReversePostorder(g)[..IndexOf(ReversePostorder(g), h) + 1])
  {
    hide Graph.Valid, ReversePostorder, OnlyBackEdge, OnEveryPath, Reaches, HasShape, BodyGrown, InBody;
    var rpo := ReversePostorder(g);
    ReversePostorderIsTopological(g);
    var y :| y in body && y != h;
    if u == h {
      NoBody(g, u, h, body, y);
    } else {
      InBodyIff(g, u, h, body);
      HeaderBeforeBody(g, u, h, x);
      BeyondHeader(rpo, IndexOf(rpo, h), x);
    }
  }
}
