/** How the tree of the builder relates to dominance by paths. */
module Dominance {
  import opened SetFacts
  import opened Cfg
  import opened Dfs
  import opened DomTree

  // ---- walks over discovery numbers ----

  /** The builder takes the block discovered just before a block for its parent, so it works on the edges of
      the graph and on a step from every number to the next. */
  ghost predicate Step(g: Graph, order: seq<Block>, i: nat, j: nat) {
    i < |order| && j < |order| && (j == i + 1 || Edge(g, order[i], order[j]))
  }

  ghost predicate Walk(g: Graph, order: seq<Block>, p: seq<nat>) {
    && p != [] && p[0] < |order|
    && forall k :: 0 <= k < |p| - 1 ==> Step(g, order, p[k], p[k + 1])
  }

  /** The semidominators that the builder computes, each smaller than its node's number. */
  ghost predicate Semis(g: Graph, order: seq<Block>, sdom: seq<nat>) {
    && |sdom| == |order| && SemisFrom(g, order, sdom, 0)
    && forall i :: 0 < i < |sdom| ==> sdom[i] < i
  }

  /** Between number `a` and number `b` no semidominator lies below `a`. */
  ghost predicate Guards(sdom: seq<nat>, a: nat, b: nat) {
    a <= b < |sdom| && forall y :: a < y <= b ==> a <= sdom[y]
  }

  /** Where the part of a sequence from `lo` on first reaches its minimum. */
  ghost predicate FirstLeast(p: seq<nat>, lo: nat, hi: nat, k: nat) {
    && lo <= k < hi <= |p|
    && (forall j :: lo <= j < hi ==> p[k] <= p[j])
    && forall j :: lo <= j < k ==> p[k] < p[j]
  }

  lemma {:induction false} FirstLeastExists(p: seq<nat>, lo: nat, hi: nat)
    requires lo < hi <= |p|
    ensures exists k: nat :: FirstLeast(p, lo, hi, k)
    decreases hi
  {
    if hi == lo + 1 {
      assert FirstLeast(p, lo, hi, lo);
    } else {
      FirstLeastExists(p, lo, hi - 1);
      var k: nat :| FirstLeast(p, lo, hi - 1, k);
      var m: nat := if p[hi - 1] < p[k] then hi - 1 else k;
      assert FirstLeast(p, lo, hi, m);
    }
  }

  lemma SubWalk(g: Graph, order: seq<Block>, p: seq<nat>, i: nat, j: nat)
    requires Walk(g, order, p) && i < j <= |p|
    ensures Walk(g, order, p[i..j])
  {
    assert i > 0 ==> Step(g, order, p[i - 1], p[i - 1 + 1]);
    var q := p[i..j];
    forall k | 0 <= k < |q| - 1 ensures Step(g, order, q[k], q[k + 1]) {
      assert Step(g, order, p[i + k], p[i + k + 1]);
    }
  }

  /** A walk that comes from below and stays above its last number until there starts no lower than the
      semidominator of that number. */
  lemma {:induction false} SemiBelow(g: Graph, order: seq<Block>, sdom: seq<nat>, p: seq<nat>)
    requires Semis(g, order, sdom) && Walk(g, order, p) && |p| >= 2 && p[0] < p[|p| - 1]
    requires forall k :: 0 < k < |p| - 1 ==> p[|p| - 1] < p[k]
    ensures p[|p| - 1] < |sdom| && sdom[p[|p| - 1]] <= p[0]
    decreases |p|
  {
    hide Semis, Offered;
    var n := |p| - 1;
    var y, q := p[n], p[n - 1];
    assert Step(g, order, p[n - 1], p[n - 1 + 1]);
    SemisHere(g, order, sdom, y);
    if n > 1 {
      FirstLeastExists(p, 1, n);
      var k: nat :| FirstLeast(p, 1, n, k);
      var r := p[..k + 1];
      SubWalk(g, order, p, 0, k + 1);
      SemiBelow(g, order, sdom, r);
      OfferedBy(g, order, sdom, y, q, p[k]);
    } else if q + 1 != y {
      OfferedBy(g, order, sdom, y, q, q);
    }
  }

  lemma SemisHere(g: Graph, order: seq<Block>, sdom: seq<nat>, y: nat)
    requires Semis(g, order, sdom) && y < |order|
    ensures |sdom| == |order| && (y > 0 ==> sdom[y] < y)
    ensures Offered(g, order, sdom, y, sdom[y]) && forall x: nat :: Offered(g, order, sdom, y, x) ==> sdom[y] <= x
  {
    assert IsSemi(g, order, sdom, y);
  }

  /** A predecessor offers itself from below, or the semidominator of any number up to it from above. */
  lemma OfferedBy(g: Graph, order: seq<Block>, sdom: seq<nat>, y: nat, q: nat, k: nat)
    requires |sdom| == |order| && q < |order| && y < |order| && k < |order| && Edge(g, order[q], order[y])
    requires if q <= y then k == q else y < k <= q
    ensures Offered(g, order, sdom, y, if q <= y then q else sdom[k])
  {
    assert Offers(sdom, y, q, if q <= y then q else sdom[k]);
  }

  lemma {:induction false} LastBelow(p: seq<nat>, a: nat, n: nat) returns (j: nat)
    requires 0 < n <= |p| && p[0] < a
    ensures j < n && p[j] < a && forall k :: j < k < n ==> a <= p[k]
    decreases n
  {
    if p[n - 1] < a {
      j := n - 1;
    } else {
      j := LastBelow(p, a, n - 1);
    }
  }

  /** A walk from the head to number `b`. */
  ghost predicate WalkTo(g: Graph, order: seq<Block>, p: seq<nat>, b: nat) {
    p != [] && Walk(g, order, p) && p[0] == 0 && p[|p| - 1] == b
  }

  /** What guards a number is passed on every walk to it. */
  lemma GuardIsPassed(g: Graph, order: seq<Block>, sdom: seq<nat>, a: nat, b: nat, p: seq<nat>)
    requires Semis(g, order, sdom) && Guards(sdom, a, b)
    requires WalkTo(g, order, p, b)
    ensures a in p
  {
    hide Walk, Semis, SemisFrom;
    if a !in p {
      assert p[0] in p && p[|p| - 1] in p;
      var j := LastBelow(p, a, |p|);
      assert forall k :: j < k < |p| ==> p[k] in p;
      FirstLeastExists(p, j + 1, |p|);
      var k: nat :| FirstLeast(p, j + 1, |p|, k);
      SubWalk(g, order, p, j, k + 1);
      SemiBelow(g, order, sdom, p[j..k + 1]);
      assert false;
    }
  }

  // ---- the other direction: a walk around whatever does not guard ----

  ghost function UpFrom(a: nat, b: nat): (p: seq<nat>)
    requires a <= b
    ensures |p| == b - a + 1 && forall k :: 0 <= k < |p| ==> p[k] == a + k
  {
    seq(b - a + 1, k => a + k)
  }

  lemma UpIsWalk(g: Graph, order: seq<Block>, a: nat, b: nat)
    requires a <= b < |order|
    ensures Walk(g, order, UpFrom(a, b))
  {
  }

  lemma JoinWalks(g: Graph, order: seq<Block>, p: seq<nat>, q: seq<nat>)
    requires Walk(g, order, p) && Walk(g, order, q) && Step(g, order, p[|p| - 1], q[0])
    ensures Walk(g, order, p + q)
  {
    var r := p + q;
    forall k | 0 <= k < |r| - 1 ensures Step(g, order, r[k], r[k + 1]) {
      if k >= |p| {
        assert Step(g, order, q[k - |p|], q[k - |p| + 1]);
      }
    }
  }

  /** The semidominator is witnessed: a walk leads from it to its node over larger numbers. */
  lemma {:induction false} SemiWalk(g: Graph, order: seq<Block>, sdom: seq<nat>, y: nat) returns (p: seq<nat>)
    requires Semis(g, order, sdom) && 0 < y < |order|
    ensures Walk(g, order, p) && |p| >= 2 && p[0] == sdom[y] < y && p[|p| - 1] == y
    ensures forall k :: 0 < k < |p| - 1 ==> y < p[k]
    decreases |order| - y
  {
    hide Semis;
    SemisHere(g, order, sdom, y);
    var q: nat :| q < |order| && Edge(g, order[q], order[y]) && Offers(sdom, y, q, sdom[y]);
    if q <= y {
      p := [q, y];
    } else {
      var k: nat :| y < k <= q && k < |sdom| && sdom[k] == sdom[y];
      var r := SemiWalk(g, order, sdom, k);
      if k < q {
        UpIsWalk(g, order, k + 1, q);
        JoinWalks(g, order, r, UpFrom(k + 1, q));
        r := r + UpFrom(k + 1, q);
      }
      assert Walk(g, order, [y]);
      JoinWalks(g, order, r, [y]);
      p := r + [y];
    }
  }

  /** What does not guard a number can be avoided on the way to it. */
  lemma AvoidingWalk(g: Graph, order: seq<Block>, sdom: seq<nat>, a: nat, b: nat) returns (p: seq<nat>)
    requires Semis(g, order, sdom) && a <= b < |order| && !Guards(sdom, a, b)
    ensures WalkTo(g, order, p, b) && a !in p
  {
    hide Walk, Step;
    SizesAgree(g, order, sdom);
    var y: nat :| a < y <= b && sdom[y] < a;
    var s := SemiWalk(g, order, sdom, y);
    UpIsWalk(g, order, 0, sdom[y]);
    WalkTail(g, order, s);
    JoinWalks(g, order, UpFrom(0, sdom[y]), s[1..]);
    p := UpFrom(0, sdom[y]) + s[1..];
    if y < b {
      UpIsWalk(g, order, y + 1, b);
      NextStep(g, order, y);
      JoinWalks(g, order, p, UpFrom(y + 1, b));
      p := p + UpFrom(y + 1, b);
    }
  }

  lemma SizesAgree(g: Graph, order: seq<Block>, sdom: seq<nat>)
    requires Semis(g, order, sdom)
    ensures |sdom| == |order|
  {
  }

  lemma WalkTail(g: Graph, order: seq<Block>, s: seq<nat>)
    requires Walk(g, order, s) && |s| >= 2
    ensures Walk(g, order, s[1..]) && Step(g, order, s[0], s[1])
  {
    assert Step(g, order, s[0], s[0 + 1]);
    SubWalk(g, order, s, 1, |s|);
  }

  lemma NextStep(g: Graph, order: seq<Block>, y: nat)
    requires y + 1 < |order|
    ensures Step(g, order, y, y + 1)
  {
  }

  /** Every walk from the head to number `b` passes number `a`. */
  ghost predicate Unavoidable(g: Graph, order: seq<Block>, a: nat, b: nat) {
    forall p :: WalkTo(g, order, p, b) ==> a in p
  }

  /** Guarding is dominance, in the graph with a step from every number to the next. */
  lemma GuardsIffUnavoidable(g: Graph, order: seq<Block>, sdom: seq<nat>, a: nat, b: nat)
    requires Semis(g, order, sdom) && a <= b < |order|
    ensures Guards(sdom, a, b) <==> Unavoidable(g, order, a, b)
  {
    hide WalkTo, Semis;
    if Guards(sdom, a, b) {
      forall p | WalkTo(g, order, p, b) ensures a in p {
        GuardIsPassed(g, order, sdom, a, b, p);
      }
    } else {
      var p := AvoidingWalk(g, order, sdom, a, b);
    }
  }

  // ---- the tree ----

  ghost predicate Parents(order: seq<Block>, sdom: seq<nat>, parent: seq<nat>) {
    && IsParents(order, parent) && |sdom| == |order|
    && (|sdom| > 0 ==> sdom[0] == 0) && (forall i :: 0 < i < |sdom| ==> sdom[i] < i)
    && forall w: nat :: 0 < w < |order| ==> ParentAt(sdom, parent, w)
  }

  lemma {:induction false} ParentBelowSemi(order: seq<Block>, sdom: seq<nat>, parent: seq<nat>, w: nat)
    requires Parents(order, sdom, parent) && 0 < w < |order|
    ensures parent[w] <= sdom[w]
  {
    assert ParentAt(sdom, parent, w);
    var m: nat :| IsRangeMin(sdom, sdom[w], w, m)
      && if sdom[m] == sdom[w] || m == sdom[w] then parent[w] == sdom[w] else m < w && parent[w] == parent[m];
    if sdom[m] != sdom[w] && m != sdom[w] {
      ParentBelowSemi(order, sdom, parent, m);
    }
  }

  /** Whatever guards a number is its parent or smaller. */
  lemma {:induction false} GuardBelowParent(order: seq<Block>, sdom: seq<nat>, parent: seq<nat>, a: nat, w: nat)
    requires Parents(order, sdom, parent) && Guards(sdom, a, w) && a < w
    ensures a <= parent[w]
  {
    assert ParentAt(sdom, parent, w);
    var m: nat :| IsRangeMin(sdom, sdom[w], w, m)
      && if sdom[m] == sdom[w] || m == sdom[w] then parent[w] == sdom[w] else m < w && parent[w] == parent[m];
    if sdom[m] != sdom[w] && m != sdom[w] {
      GuardBelowParent(order, sdom, parent, a, m);
    }
  }

  /** No dominator is missing from the tree: what guards a number is above it, on every graph. */
  lemma {:induction false} GuardIsAbove(order: seq<Block>, sdom: seq<nat>, parent: seq<nat>, a: nat, w: nat)
    requires Parents(order, sdom, parent) && Guards(sdom, a, w)
    ensures Above(order, parent, order[a], w)
  {
    if a < w {
      GuardBelowParent(order, sdom, parent, a, w);
      GuardIsAbove(order, sdom, parent, a, parent[w]);
    }
  }

  /** Between the semidominator `s` of number `w` and `w` some semidominator lies below `s`, but that of `s`
      itself is lower still: find returns the root of its path, whose semidominator must not count. */
  ghost predicate Trap(sdom: seq<nat>, w: nat) {
    && w < |sdom| && 0 < sdom[w] < w
    && (exists y :: sdom[w] < y <= w && sdom[y] < sdom[w])
    && forall y :: sdom[w] < y <= w ==> sdom[sdom[w]] < sdom[y]
  }

  ghost predicate NoTrap(sdom: seq<nat>) {
    forall w: nat :: w < |sdom| ==> !Trap(sdom, w)
  }

  /** A node is misplaced, under a semidominator that does not guard it, exactly where a trap is set. */
  lemma MisplacedIffTrap(order: seq<Block>, sdom: seq<nat>, parent: seq<nat>, w: nat)
    requires Parents(order, sdom, parent) && 0 < w < |order|
    ensures Trap(sdom, w) <==> parent[w] == sdom[w] && !Guards(sdom, sdom[w], w)
  {
    assert ParentAt(sdom, parent, w);
    var m: nat :| IsRangeMin(sdom, sdom[w], w, m)
      && if sdom[m] == sdom[w] || m == sdom[w] then parent[w] == sdom[w] else m < w && parent[w] == parent[m];
    if parent[w] == sdom[w] && !Guards(sdom, sdom[w], w) && m != sdom[w] {
      var y: nat :| sdom[w] < y <= w && sdom[y] < sdom[w];
      ParentBelowSemi(order, sdom, parent, m);
      assert false;
    }
  }

  /** Every other node hangs under a guard of its own. */
  lemma ParentGuards(order: seq<Block>, sdom: seq<nat>, parent: seq<nat>, w: nat)
    requires Parents(order, sdom, parent) && 0 < w < |order| && !Trap(sdom, w)
    ensures Guards(sdom, parent[w], w) || exists m: nat :: 0 < m < w && Trap(sdom, m)
    decreases w
  {
    MisplacedIffTrap(order, sdom, parent, w);
    assert ParentAt(sdom, parent, w);
    var m: nat :| IsRangeMin(sdom, sdom[w], w, m)
      && if sdom[m] == sdom[w] || m == sdom[w] then parent[w] == sdom[w] else m < w && parent[w] == parent[m];
    if sdom[m] != sdom[w] && m != sdom[w] {
      if !Trap(sdom, m) {
        ParentGuards(order, sdom, parent, m);
      }
      ParentBelowSemi(order, sdom, parent, m);
    }
  }

  lemma {:induction false} AboveGuards(order: seq<Block>, sdom: seq<nat>, parent: seq<nat>, a: nat, w: nat)
    requires Parents(order, sdom, parent) && a < |order| && w < |order| && Above(order, parent, order[a], w)
    requires NoTrap(sdom)
    ensures Guards(sdom, a, w)
  {
    if a != w {
      AboveGuards(order, sdom, parent, a, parent[w]);
      ParentGuards(order, sdom, parent, w);
    }
  }

  /** On these two numbers the tree relation is dominance in the graph with the extra steps. */
  ghost predicate TellsDominance(g: Graph, order: seq<Block>, parent: seq<nat>, a: nat, b: nat)
    requires IsParents(order, parent)
  {
    a < |order| && b < |order| ==> (Above(order, parent, order[a], b) <==> a <= b && Unavoidable(g, order, a, b))
  }

  /** The tree relation is dominance in the graph with the extra steps if and only if there is no trap. */
  lemma TreeIsDominanceIff(g: Graph, order: seq<Block>, sdom: seq<nat>, parent: seq<nat>)
    requires IsParents(order, parent) && Semis(g, order, sdom) && Parents(order, sdom, parent)
    ensures NoTrap(sdom) <==> forall a: nat, b: nat :: TellsDominance(g, order, parent, a, b)
  {
    hide Semis, Parents, Unavoidable, Trap, Guards, Above, IsParents;
    OneLength(order, sdom, parent);
    if NoTrap(sdom) {
      forall a: nat, b: nat ensures TellsDominance(g, order, parent, a, b) {
        if a < |order| && b < |order| {
          AboveIffUnavoidable(g, order, sdom, parent, a, b);
        }
      }
    } else {
      var w: nat :| w < |sdom| && Trap(sdom, w);
      TrapIsAvoidable(g, order, sdom, parent, w);
      assert !TellsDominance(g, order, parent, sdom[w], w);
    }
  }

  lemma AboveIffUnavoidable(g: Graph, order: seq<Block>, sdom: seq<nat>, parent: seq<nat>, a: nat, b: nat)
    requires Semis(g, order, sdom) && Parents(order, sdom, parent) && a < |order| && b < |order| && NoTrap(sdom)
    ensures Above(order, parent, order[a], b) <==> a <= b && Unavoidable(g, order, a, b)
  {
    hide Semis, Trap, Unavoidable;
    if Above(order, parent, order[a], b) {
      AboveGuards(order, sdom, parent, a, b);
    }
    if a <= b {
      GuardsIffUnavoidable(g, order, sdom, a, b);
      if Guards(sdom, a, b) {
        GuardIsAbove(order, sdom, parent, a, b);
      }
    }
  }

  /** In a trap the tree puts the semidominator above the node, and a walk goes around it. */
  lemma TrapIsAvoidable(g: Graph, order: seq<Block>, sdom: seq<nat>, parent: seq<nat>, w: nat)
    requires Semis(g, order, sdom) && Parents(order, sdom, parent) && w < |sdom| && Trap(sdom, w)
    ensures 0 < w < |order| && sdom[w] < |order| && Above(order, parent, order[sdom[w]], w)
    ensures !Unavoidable(g, order, sdom[w], w) && sdom[w] < w
  {
    hide Semis, Unavoidable;
    MisplacedIffTrap(order, sdom, parent, w);
    GuardsIffUnavoidable(g, order, sdom, sdom[w], w);
    assert Above(order, parent, order[sdom[w]], parent[w]);
  }

  // ---- nothing is left open ----

  lemma RangeMinUnique(sdom: seq<nat>, a: nat, b: nat, m: nat, n: nat)
    requires IsRangeMin(sdom, a, b, m) && IsRangeMin(sdom, a, b, n)
    ensures m == n
  {
    assert sdom[m] <= sdom[n] <= sdom[m];
  }

  /** The semidominators determine the parents. */
  lemma {:induction false} ParentsUnique(order: seq<Block>, sdom: seq<nat>, p: seq<nat>, q: seq<nat>, w: nat)
    requires Parents(order, sdom, p) && Parents(order, sdom, q) && 0 < w < |order|
    ensures p[w] == q[w]
  {
    assert ParentAt(sdom, p, w) && ParentAt(sdom, q, w);
    var m: nat :| IsRangeMin(sdom, sdom[w], w, m)
      && if sdom[m] == sdom[w] || m == sdom[w] then p[w] == sdom[w] else m < w && p[w] == p[m];
    var n: nat :| IsRangeMin(sdom, sdom[w], w, n)
      && if sdom[n] == sdom[w] || n == sdom[w] then q[w] == sdom[w] else n < w && q[w] == q[n];
    RangeMinUnique(sdom, sdom[w], w, m, n);
    if sdom[m] != sdom[w] && m != sdom[w] {
      ParentsUnique(order, sdom, p, q, m);
    }
  }

  /** The graph determines semidominators and parents. */
  lemma ComputedUnique(g: Graph, s: seq<nat>, p: seq<nat>, t: seq<nat>, q: seq<nat>)
    requires g.Valid() && IsParents(Preorder(g), p) && IsParents(Preorder(g), q)
    requires IsComputed(g, Preorder(g), s, p) && IsComputed(g, Preorder(g), t, q)
    ensures s == t && forall w :: 0 < w < |p| ==> p[w] == q[w]
  {
    hide Graph.Valid, Preorder, Parents, Semis, SemisFrom, ParentAt;
    SemisUnique(g, Preorder(g), s, t, 0);
    assert s == t;
    ComputedFacts(g, s, p);
    ComputedFacts(g, t, q);
    forall w: nat | 0 < w < |p| ensures p[w] == q[w] {
      ParentsUnique(Preorder(g), s, p, q, w);
    }
  }

  // ---- paths of the graph ----

  /** Every path from the head to block `b` passes block `a`. */
  ghost predicate OnEveryPath(g: Graph, a: Block, b: Block) {
    forall p :: PathFrom(g, g.head, b, p) ==> a in p
  }

  /** The order has an edge from every block to the next. */
  ghost predicate Consecutive(g: Graph, order: seq<Block>) {
    forall i :: 0 <= i < |order| - 1 ==> Edge(g, order[i], order[i + 1])
  }

  lemma ComputedFacts(g: Graph, sdom: seq<nat>, parent: seq<nat>)
    requires g.Valid() && IsParents(Preorder(g), parent) && IsComputed(g, Preorder(g), sdom, parent)
    ensures Semis(g, Preorder(g), sdom) && Parents(Preorder(g), sdom, parent)
  {
    hide Graph.Valid, Preorder, ParentAt, Distinct;
    var order := Preorder(g);
    forall i: nat | i < |order| ensures i > 0 ==> sdom[i] < i {
      assert IsSemi(g, order, sdom, i);
      SemiIsSmaller(g, order, sdom, i);
    }
    if |sdom| > 0 {
      assert IsSemi(g, order, sdom, 0) && Offered(g, order, sdom, 0, 0);
    }
  }

  lemma PrefixReaches(g: Graph, b: Block, p: seq<Block>, k: nat)
    requires PathFrom(g, g.head, b, p) && k < |p|
    ensures Reaches(g, g.head, p[k])
  {
    assert PathFrom(g, g.head, p[k], p[..k + 1]);
  }

  /** A path from the head, told in discovery numbers. */
  lemma PathIsWalk(g: Graph, b: Block, p: seq<Block>) returns (q: seq<nat>)
    requires g.Valid() && PathFrom(g, g.head, b, p)
    ensures b in Preorder(g) && WalkTo(g, Preorder(g), q, IndexOf(Preorder(g), b))
    ensures forall i: nat :: i < |Preorder(g)| && i in q ==> Preorder(g)[i] in p
  {
    hide Graph.Valid, Preorder;
    var order := Preorder(g);
    ReachedExactlyOnce(g);
    forall k | 0 <= k < |p| ensures p[k] in order {
      PrefixReaches(g, b, p, k);
    }
    q := seq(|p|, k requires 0 <= k < |p| && p[k] in order => IndexOf(order, p[k]));
    IndexOfAt(order, 0);
    forall k | 0 <= k < |q| - 1 ensures Step(g, order, q[k], q[k + 1]) {
      assert Edge(g, p[k], p[k + 1]);
    }
  }

  /** A walk is a path when the extra steps are edges. */
  lemma WalkIsPath(g: Graph, b: nat, q: seq<nat>) returns (p: seq<Block>)
    requires g.Valid() && Consecutive(g, Preorder(g)) && b < |Preorder(g)| && WalkTo(g, Preorder(g), q, b)
    ensures PathFrom(g, g.head, Preorder(g)[b], p)
    ensures forall i: nat :: i < |Preorder(g)| && Preorder(g)[i] in p ==> i in q
  {
    hide Graph.Valid, Preorder;
    var order := Preorder(g);
    ReachedExactlyOnce(g);
    forall k: nat | k < |q| ensures q[k] < |order| {
      InWalk(g, order, q, k);
    }
    p := seq(|q|, k requires 0 <= k < |q| && q[k] < |order| => order[q[k]]);
    forall k | 0 <= k < |p| - 1 ensures Edge(g, p[k], p[k + 1]) {
      assert Step(g, order, q[k], q[k + 1]);
    }
    forall i: nat | i < |order| && order[i] in p ensures i in q {
      var k :| 0 <= k < |p| && p[k] == order[i];
      assert q[k] == i;
    }
  }

  lemma InWalk(g: Graph, order: seq<Block>, q: seq<nat>, k: nat)
    requires Walk(g, order, q) && k < |q|
    ensures q[k] < |order|
  {
    assert k > 0 ==> Step(g, order, q[k - 1], q[k - 1 + 1]);
  }

  /** A guard lies on every path. */
  lemma GuardOnPath(g: Graph, sdom: seq<nat>, a: nat, b: nat)
    requires g.Valid() && Semis(g, Preorder(g), sdom) && b < |Preorder(g)| && Guards(sdom, a, b)
    ensures OnEveryPath(g, Preorder(g)[a], Preorder(g)[b])
  {
    hide Graph.Valid, Preorder, Semis, WalkTo;
    ReachedExactlyOnce(g);
    IndexOfAt(Preorder(g), b);
    forall p | PathFrom(g, g.head, Preorder(g)[b], p) ensures Preorder(g)[a] in p {
      var q := PathIsWalk(g, Preorder(g)[b], p);
      GuardIsPassed(g, Preorder(g), sdom, a, b, q);
    }
  }

  /** If the graph has no trap, what the tree puts above a block lies on every path to it. */
  lemma TreeImpliesDominance(g: Graph, sdom: seq<nat>, parent: seq<nat>, a: Block, b: Block)
    requires g.Valid() && IsParents(Preorder(g), parent) && IsComputed(g, Preorder(g), sdom, parent) && NoTrap(sdom)
    requires Dominates(Preorder(g), parent, a, b)
    ensures OnEveryPath(g, a, b)
  {
    hide Graph.Valid, Preorder, IsParents, IsComputed, Parents, Semis, Trap, WalkTo;
    var order := Preorder(g);
    ComputedFacts(g, sdom, parent);
    OneLength(order, sdom, parent);
    if a != b {
      AboveIsSmaller(order, parent, a, IndexOf(order, b));
      AboveGuards(order, sdom, parent, IndexOf(order, a), IndexOf(order, b));
      GuardOnPath(g, sdom, IndexOf(order, a), IndexOf(order, b));
    }
  }

  lemma OneLength(order: seq<Block>, sdom: seq<nat>, parent: seq<nat>)
    requires Parents(order, sdom, parent)
    ensures |order| == |sdom| == |parent|
  {
  }

  /** If each block also has an edge to the one discovered next, every dominator is above in the tree. */
  lemma DominanceImpliesTree(g: Graph, sdom: seq<nat>, parent: seq<nat>, a: Block, b: Block)
    requires g.Valid() && IsParents(Preorder(g), parent) && IsComputed(g, Preorder(g), sdom, parent)
    requires Consecutive(g, Preorder(g)) && b in Preorder(g) && OnEveryPath(g, a, b)
    ensures Dominates(Preorder(g), parent, a, b)
  {
    hide Graph.Valid, Preorder, IsComputed, Parents, Semis, WalkTo, Consecutive;
    var order := Preorder(g);
    ComputedFacts(g, sdom, parent);
    OneLength(order, sdom, parent);
    DominatorReached(g, a, b);
    var i, j := IndexOf(order, a), IndexOf(order, b);
    if i <= j && Guards(sdom, i, j) {
      GuardIsAbove(order, sdom, parent, i, j);
    } else {
      var q;
      if i <= j {
        q := AvoidingWalk(g, order, sdom, i, j);
      } else {
        q := DirectWalk(g, order, i, j);
      }
      var p := WalkIsPath(g, j, q);
    }
  }

  lemma DirectWalk(g: Graph, order: seq<Block>, i: nat, j: nat) returns (q: seq<nat>)
    requires j < i && j < |order|
    ensures WalkTo(g, order, q, j) && i !in q
  {
    UpIsWalk(g, order, 0, j);
    q := UpFrom(0, j);
  }

  lemma DominatorReached(g: Graph, a: Block, b: Block)
    requires g.Valid() && b in Preorder(g) && OnEveryPath(g, a, b)
    ensures a in Preorder(g)
  {
    hide Graph.Valid, Preorder;
    ReachedExactlyOnce(g);
    var p :| PathFrom(g, g.head, b, p);
    var k :| 0 <= k < |p| && p[k] == a;
    PrefixReaches(g, b, p, k);
  }

  /** For these blocks the query says whether one lies on every path to the other. */
  ghost predicate QueryIsRight(g: Graph, parent: seq<nat>, a: Block, b: Block)
    requires g.Valid() && IsParents(Preorder(g), parent)
  {
    b in Preorder(g) ==> (Dominates(Preorder(g), parent, a, b) <==> OnEveryPath(g, a, b))
  }

  /** On a graph in which each block has an edge to the one discovered next, the tree relation is dominance if
      and only if there is no trap. */
  lemma TreeIsDominance(g: Graph, sdom: seq<nat>, parent: seq<nat>)
    requires g.Valid() && IsParents(Preorder(g), parent) && IsComputed(g, Preorder(g), sdom, parent)
    requires Consecutive(g, Preorder(g))
    ensures NoTrap(sdom) <==> forall a, b :: QueryIsRight(g, parent, a, b)
  {
    hide Graph.Valid, Preorder, IsParents, IsComputed, Consecutive, OnEveryPath, Dominates, Trap;
    if NoTrap(sdom) {
      forall a, b ensures QueryIsRight(g, parent, a, b) {
        if Dominates(Preorder(g), parent, a, b) {
          TreeImpliesDominance(g, sdom, parent, a, b);
        }
        if b in Preorder(g) && OnEveryPath(g, a, b) {
          DominanceImpliesTree(g, sdom, parent, a, b);
        }
      }
    } else {
      var w: nat :| w < |sdom| && Trap(sdom, w);
      var a, b := TrapMisleads(g, sdom, parent, w);
    }
  }

  lemma TrapMisleads(g: Graph, sdom: seq<nat>, parent: seq<nat>, w: nat) returns (a: Block, b: Block)
    requires g.Valid() && IsParents(Preorder(g), parent) && IsComputed(g, Preorder(g), sdom, parent)
    requires Consecutive(g, Preorder(g)) && w < |sdom| && Trap(sdom, w)
    ensures !QueryIsRight(g, parent, a, b)
  {
    hide Graph.Valid, Preorder, IsParents, IsComputed, Parents, Semis, WalkTo, Consecutive, Trap, Above;
    var order := Preorder(g);
    ReachedExactlyOnce(g);
    ComputedFacts(g, sdom, parent);
    OneLength(order, sdom, parent);
    TrapIsAvoidable(g, order, sdom, parent, w);
    a, b := order[sdom[w]], order[w];
    IndexOfAt(order, w);
    var q :| WalkTo(g, order, q, w) && sdom[w] !in q;
    var p := WalkIsPath(g, w, q);
  }

  // ---- dominators come first in reverse postorder ----

  /** Every reached block has a path from the head along which blocks finish later and later. */
  lemma {:induction false} LatePath(g: Graph, i: nat) returns (p: seq<Block>)
    requires g.Valid() && i < |Preorder(g)|
    ensures PathFrom(g, g.head, Preorder(g)[i], p) && Preorder(g)[i] in Postorder(g)
    ensures forall x :: x in p ==> x in Postorder(g)
    ensures forall x :: x in p && x != Preorder(g)[i] ==>
      IndexOf(Postorder(g), Preorder(g)[i]) < IndexOf(Postorder(g), x)
  {
    hide Graph.Valid, Preorder, Postorder;
    ReachedExactlyOnce(g);
    var pre, post := Preorder(g), Postorder(g);
    assert pre[i] in pre;
    if i == 0 {
      p := [g.head];
    } else {
      assert HasEarlierPred(g, pre, i);
      var j: nat :| j < i && Edge(g, pre[j], pre[i]);
      var q := LatePath(g, j);
      IndexOfAt(pre, i);
      IndexOfAt(pre, j);
      BackEdgeIff(g, pre[j], pre[i]);
      assert pre[j] in pre;
      EdgeOrder(g, pre[j], pre[i]);
      p := q + [pre[i]];
      forall k | 0 <= k < |p| - 1 ensures Edge(g, p[k], p[k + 1]) {
        assert k < |q| - 1 ==> Edge(g, q[k], q[k + 1]);
      }
    }
  }

  /** A block on every path to another one stands before it in reverse postorder, on every graph. */
  lemma DominatorFirst(g: Graph, a: Block, b: Block)
    requires g.Valid() && b in Preorder(g) && OnEveryPath(g, a, b) && a != b
    ensures a in ReversePostorder(g) && b in ReversePostorder(g)
    ensures IndexOf(ReversePostorder(g), a) < IndexOf(ReversePostorder(g), b)
  {
    hide Graph.Valid, Preorder, Postorder;
    ReachedExactlyOnce(g);
    var i: nat :| i < |Preorder(g)| && Preorder(g)[i] == b;
    var p := LatePath(g, i);
    ReversedIndex(Postorder(g), a);
    ReversedIndex(Postorder(g), b);
  }

  lemma ReversedIndex(s: seq<Block>, x: Block)
    requires Distinct(s) && x in s
    ensures Distinct(Reversed(s)) && x in Reversed(s) && IndexOf(Reversed(s), x) == |s| - 1 - IndexOf(s, x)
  {
    ReversedDistinct(s);
    var i := IndexOf(s, x);
    assert Reversed(s)[|s| - 1 - i] == x;
    IndexOfAt(Reversed(s), |s| - 1 - i);
  }
}
