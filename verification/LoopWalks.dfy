/** Lists of blocks that the loop builder fills: the finished blocks by whether they have a loop, and the walk of
    loop_search over predecessors (include/analysis/loop_analyzer.hh). */
module LoopWalks {
  import opened SetFacts
  import opened Cfg
  import opened Dfs

  // ---- the order in which the finished blocks are filed ----

  /** The blocks of the list that are in `t`, and those that are not. */
  ghost function Only(s: seq<Block>, t: set<Block>): seq<Block> {
    if s == [] then [] else Only(s[..|s| - 1], t) + if s[|s| - 1] in t then [s[|s| - 1]] else []
  }

  ghost function Except(s: seq<Block>, t: set<Block>): seq<Block> {
    if s == [] then [] else Except(s[..|s| - 1], t) + if s[|s| - 1] in t then [] else [s[|s| - 1]]
  }

  lemma FileNext(s: seq<Block>, x: Block, t: set<Block>)
    ensures Only(s + [x], t) == Only(s, t) + if x in t then [x] else []
    ensures Except(s + [x], t) == Except(s, t) + if x in t then [] else [x]
  {
    assert (s + [x])[..|s|] == s;
  }

  /** Blocks that get a loop later do not matter. */
  lemma {:induction false} FileSame(s: seq<Block>, t: set<Block>, u: set<Block>)
    requires forall x :: x in s ==> (x in t <==> x in u)
    ensures Only(s, t) == Only(s, u) && Except(s, t) == Except(s, u)
  {
    if s != [] {
      assert s == s[..|s| - 1] + [s[|s| - 1]];
      FileSame(s[..|s| - 1], t, u);
    }
  }

  lemma {:induction false} FileMembers(s: seq<Block>, t: set<Block>)
    ensures forall x :: x in Only(s, t) <==> x in s && x in t
    ensures forall x :: x in Except(s, t) <==> x in s && x !in t
  {
    if s != [] {
      assert s == s[..|s| - 1] + [s[|s| - 1]];
      FileMembers(s[..|s| - 1], t);
    }
  }

  lemma {:induction false} FileDistinct(s: seq<Block>, t: set<Block>)
    requires Distinct(s)
    ensures Distinct(Only(s, t)) && Distinct(Except(s, t))
  {
    if s != [] {
      assert s == s[..|s| - 1] + [s[|s| - 1]];
      FileDistinct(s[..|s| - 1], t);
      FileMembers(s[..|s| - 1], t);
    }
  }

  /** Two filed blocks stand in the order of the list. */
  lemma {:induction false} FileKeepsOrder(s: seq<Block>, t: set<Block>, i: nat, j: nat)
    requires Distinct(s) && i < j < |Only(s, t)|
    ensures Only(s, t)[i] in s && Only(s, t)[j] in s && IndexOf(s, Only(s, t)[i]) < IndexOf(s, Only(s, t)[j])
  {
    var n := |s| - 1;
    var front, r := Only(s[..n], t), Only(s, t);
    assert s == s[..n] + [s[n]];
    FileMembers(s[..n], t);
    assert r[i] == front[i] && front[i] in front;
    IndexOfAppend(s[..n], s[n], front[i]);
    if j < |front| {
      FileKeepsOrder(s[..n], t, i, j);
      assert front[j] in front;
      IndexOfAppend(s[..n], s[n], front[j]);
    }
  }

  lemma {:induction false} OnlyCons(x: Block, s: seq<Block>, t: set<Block>)
    ensures Only([x] + s, t) == (if x in t then [x] else []) + Only(s, t)
    decreases |s|
  {
    if s == [] {
      assert [x] + s == [] + [x];
      FileNext([], x, t);
    } else {
      var n := |s| - 1;
      assert [x] + s == ([x] + s[..n]) + [s[n]];
      FileNext([x] + s[..n], s[n], t);
      OnlyCons(x, s[..n], t);
    }
  }

  lemma {:induction false} OnlyReversed(s: seq<Block>, t: set<Block>)
    ensures Reversed(Only(s, t)) == Only(Reversed(s), t)
  {
    if s == [] {
      assert Reversed(s) == [];
    } else {
      var n := |s| - 1;
      OnlyReversed(s[..n], t);
      assert Reversed(s) == [s[n]] + Reversed(s[..n]);
      OnlyCons(s[n], Reversed(s[..n]), t);
      assert Reversed(Only(s, t)) == (if s[n] in t then [s[n]] else []) + Reversed(Only(s[..n], t));
    }
  }

  // ---- the walk over predecessors ----

  /** The first predecessor of `v` in link order that is not in `seen` is `p`. */
  ghost predicate FirstUnseen(g: Graph, v: Block, seen: set<Block>, p: Block) {
    && v < |g.preds| && p !in seen
    && exists k: nat :: k < |g.preds[v]| && g.preds[v][k] == p && SeenUpTo(g.preds[v], k, seen)
  }

  ghost predicate SeenUpTo(s: seq<Block>, k: nat, seen: set<Block>)
    requires k <= |s|
  {
    forall j :: 0 <= j < k ==> s[j] in seen
  }

  ghost predicate Spent(g: Graph, v: Block, seen: set<Block>) {
    v < |g.preds| ==> SeenUpTo(g.preds[v], |g.preds[v]|, seen)
  }

  ghost predicate AllSpent(g: Graph, w: seq<Block>, i: nat, seen: set<Block>) {
    forall j :: i <= j < |w| ==> Spent(g, w[j], seen)
  }

  /** A walk against the edges, from the blocks of `starts` and past those of `avoid`. The next block is the first
      unseen predecessor of the latest block that has one. When no block has one it is a starting point. */
  ghost predicate IsWalk(g: Graph, avoid: set<Block>, starts: set<Block>, w: seq<Block>) {
    forall i: nat :: i < |w| ==> WalksTo(g, avoid, starts, w, i)
  }

  ghost predicate WalksTo(g: Graph, avoid: set<Block>, starts: set<Block>, w: seq<Block>, i: nat)
    requires i < |w|
  {
    var seen := avoid + Elems(w[..i]);
    && w[i] !in seen
    && ((w[i] in starts && AllSpent(g, w[..i], 0, seen)) || exists j: nat :: GoesOnFrom(g, w[..i], w[i], seen, j))
  }

  ghost predicate GoesOnFrom(g: Graph, w: seq<Block>, x: Block, seen: set<Block>, j: nat) {
    j < |w| && FirstUnseen(g, w[j], seen, x) && AllSpent(g, w, j + 1, seen)
  }

  /** The walk is at its end: nothing unseen is left to go on with. */
  ghost predicate WalkEnds(g: Graph, avoid: set<Block>, starts: set<Block>, w: seq<Block>) {
    starts <= avoid + Elems(w) && AllSpent(g, w, 0, avoid + Elems(w))
  }

  lemma WalkOne(g: Graph, avoid: set<Block>, node: Block)
    requires node !in avoid
    ensures IsWalk(g, avoid, {node}, [node])
  {
    assert [node][..0] == [];
  }

  /** A walk from one block has that block at its front only. */
  lemma OneStart(g: Graph, avoid: set<Block>, s: Block, w: seq<Block>, i: nat)
    requires IsWalk(g, avoid, {s}, w) && i < |w| && w[i] == s
    ensures i == 0
  {
    assert WalksTo(g, avoid, {s}, w, 0) && WalksTo(g, avoid, {s}, w, i);
  }

  lemma SpentSum(g: Graph, w: seq<Block>, u: seq<Block>, i: nat, k: nat, seen: set<Block>)
    requires AllSpent(g, u, k, seen) && (if k > 0 then i == |w| + k else i <= |w| && AllSpent(g, w, i, seen))
    ensures AllSpent(g, w + u, i, seen)
  {
    hide Spent;
    forall j | i <= j < |w + u| ensures Spent(g, (w + u)[j], seen) {
      if j >= |w| {
        assert (w + u)[j] == u[j - |w|];
      }
    }
  }

  lemma WalkIsNew(g: Graph, avoid: set<Block>, starts: set<Block>, w: seq<Block>)
    requires IsWalk(g, avoid, starts, w)
    ensures Distinct(w) && Elems(w) !! avoid
  {
    forall i: nat | i < |w| ensures w[i] !in avoid && forall j :: 0 <= j < i ==> w[j] != w[i] {
      assert WalksTo(g, avoid, starts, w, i);
      assert forall j :: 0 <= j < i ==> w[j] == w[..i][j];
    }
  }

  /** The walk `w` goes on with `u`: a walk of its own, from where `w` has to go on. */
  lemma WalkOn(g: Graph, avoid: set<Block>, starts: set<Block>, w: seq<Block>, next: Block, u: seq<Block>)
    requires IsWalk(g, avoid, starts, w) && IsWalk(g, avoid + Elems(w), {next}, u)
    requires (next in starts && AllSpent(g, w, 0, avoid + Elems(w)))
             || next in avoid + Elems(w)
             || exists j: nat :: GoesOnFrom(g, w, next, avoid + Elems(w), j)
    ensures IsWalk(g, avoid, starts, w + u)
  {
    hide FirstUnseen, AllSpent;
    forall i: nat | i < |w + u| ensures WalksTo(g, avoid, starts, w + u, i) {
      if i < |w| {
        assert (w + u)[..i] == w[..i] && WalksTo(g, avoid, starts, w, i);
      } else {
        WalkOnAt(g, avoid, starts, w, next, u, i - |w|);
      }
    }
  }

  lemma WalkOnAt(g: Graph, avoid: set<Block>, starts: set<Block>, w: seq<Block>, next: Block, u: seq<Block>, t: nat)
    requires IsWalk(g, avoid + Elems(w), {next}, u) && t < |u|
    requires (next in starts && AllSpent(g, w, 0, avoid + Elems(w)))
             || next in avoid + Elems(w)
             || exists j: nat :: GoesOnFrom(g, w, next, avoid + Elems(w), j)
    ensures WalksTo(g, avoid, starts, w + u, |w| + t)
  {
    hide FirstUnseen, AllSpent;
    var mid := avoid + Elems(w);
    assert WalksTo(g, mid, {next}, u, t);
    var seen := mid + Elems(u[..t]);
    assert (w + u)[..|w| + t] == w + u[..t];
    ElemsOfSum(w, u[..t]);
    assert avoid + Elems(w + u[..t]) == seen;
    if u[t] == next {
      OneStart(g, mid, next, u, t);
      assert w + u[..t] == w && seen == mid;
    } else {
      var j: nat :| GoesOnFrom(g, u[..t], u[t], seen, j);
      SpentSum(g, w, u[..t], |w| + j + 1, j + 1, seen);
      assert GoesOnFrom(g, w + u[..t], u[t], seen, |w| + j);
    }
  }

  lemma NextUnique(g: Graph, avoid: set<Block>, s: Block, w: seq<Block>, u: seq<Block>, i: nat)
    requires IsWalk(g, avoid, {s}, w) && IsWalk(g, avoid, {s}, u) && i < |w| && i < |u| && w[..i] == u[..i]
    ensures w[i] == u[i]
  {
    var seen := avoid + Elems(w[..i]);
    assert WalksTo(g, avoid, {s}, w, i) && WalksTo(g, avoid, {s}, u, i);
    if j: nat :| GoesOnFrom(g, w[..i], w[i], seen, j) {
      if k: nat :| GoesOnFrom(g, u[..i], u[i], seen, k) {
        LatestUnique(g, w[..i], w[i], u[i], seen, j, k);
      }
    }
  }

  lemma LatestUnique(g: Graph, w: seq<Block>, x: Block, y: Block, seen: set<Block>, j: nat, k: nat)
    requires GoesOnFrom(g, w, x, seen, j) && GoesOnFrom(g, w, y, seen, k)
    ensures x == y
  {
  }

  lemma SpentStops(g: Graph, w: seq<Block>, x: Block, seen: set<Block>, j: nat)
    requires AllSpent(g, w, 0, seen)
    ensures !GoesOnFrom(g, w, x, seen, j)
  {
    assert j < |w| ==> Spent(g, w[j], seen);
  }

  lemma EndIsLast(g: Graph, avoid: set<Block>, s: Block, w: seq<Block>, u: seq<Block>)
    requires WalkEnds(g, avoid, {s}, w) && IsWalk(g, avoid, {s}, u) && w <= u
    ensures w == u
  {
    assert u[..|w|] == w;
    forall x, j ensures !GoesOnFrom(g, w, x, avoid + Elems(w), j) {
      SpentStops(g, w, x, avoid + Elems(w), j);
    }
    assert |w| < |u| ==> WalksTo(g, avoid, {s}, u, |w|);
  }

  /** The walk from one block to its end is determined by the graph, order included. */
  lemma WalkDetermined(g: Graph, avoid: set<Block>, s: Block, w: seq<Block>, u: seq<Block>)
    requires IsWalk(g, avoid, {s}, w) && WalkEnds(g, avoid, {s}, w)
    requires IsWalk(g, avoid, {s}, u) && WalkEnds(g, avoid, {s}, u)
    ensures w == u
  {
    hide IsWalk, WalkEnds;
    var i: nat := 0;
    while i < |w| && i < |u|
      invariant i <= |w| && i <= |u| && w[..i] == u[..i]
    {
      NextUnique(g, avoid, s, w, u, i);
      assert w[..i + 1] == w[..i] + [w[i]] && u[..i + 1] == u[..i] + [u[i]];
      i := i + 1;
    }
    assert w <= u || u <= w by {
      assert w == w[..|w|] && u == u[..|u|];
    }
    if w <= u {
      EndIsLast(g, avoid, s, w, u);
    } else {
      EndIsLast(g, avoid, s, u, w);
    }
  }

  // ---- what a walk leaves out ----

  lemma {:induction false} ExceptSum(s: seq<Block>, u: seq<Block>, t: set<Block>)
    ensures Except(s + u, t) == Except(s, t) + Except(u, t)
  {
    if u == [] {
      assert s + u == s;
    } else {
      var n := |u| - 1;
      ExceptSum(s, u[..n], t);
      assert s + u == (s + u[..n]) + [u[n]] && u == u[..n] + [u[n]];
      FileNext(s + u[..n], u[n], t);
      FileNext(u[..n], u[n], t);
    }
  }
}
