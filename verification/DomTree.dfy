/** The dominator-tree builder and its query (include/graph/dom3.hh). What is proved is the shape of the
    result and the query over it. */
module DomTree {
  import opened SetFacts
  import opened Cfg
  import opened Dfs
  import Dsu

  /** The tree: for each block that has any, the blocks it immediately dominates. */
  type Tree = map<Block, seq<Block>>

  ghost function Children(t: Tree, b: Block): seq<Block> {
    if b in t then t[b] else []
  }

  /** `order` numbers the reached blocks, head first; `parent[i]` is the number of the parent of block i. */
  ghost predicate IsParents(order: seq<Block>, parent: seq<nat>) {
    && Distinct(order) && |parent| == |order|
    && forall i :: 0 < i < |parent| ==> parent[i] < i
  }

  /** The child lists hold every block but the first exactly once, under its parent, and nothing else. */
  ghost predicate IsTree(t: Tree, order: seq<Block>, parent: seq<nat>) {
    && IsParents(order, parent)
    && (forall b :: Distinct(Children(t, b)))
    && forall b, c :: c in Children(t, b) <==> exists i: nat :: IsChildAt(order, parent, i, b, c)
  }

  ghost predicate IsChildAt(order: seq<Block>, parent: seq<nat>, i: nat, b: Block, c: Block) {
    && 0 < i < |order| && i < |parent| && parent[i] < |order|
    && order[i] == c && order[parent[i]] == b
  }

  /** Block `a` is block number `i` or one of its ancestors. */
  ghost predicate Above(order: seq<Block>, parent: seq<nat>, a: Block, i: nat)
    requires IsParents(order, parent) && i < |order|
  {
    order[i] == a || (i > 0 && Above(order, parent, a, parent[i]))
  }

  /** The relation that the query decides: the ancestor relation of the tree, and equality. */
  ghost predicate Dominates(order: seq<Block>, parent: seq<nat>, a: Block, b: Block)
    requires IsParents(order, parent)
  {
    a == b || (b in order && Above(order, parent, a, IndexOf(order, b)))
  }

  lemma {:induction false} AboveIsSmaller(order: seq<Block>, parent: seq<nat>, a: Block, i: nat)
    requires IsParents(order, parent) && i < |order| && Above(order, parent, a, i)
    ensures a in order && IndexOf(order, a) <= i
  {
    IndexOfAt(order, i);
    if order[i] != a {
      AboveIsSmaller(order, parent, a, parent[i]);
    }
  }

  lemma {:induction false} AboveTransitive(order: seq<Block>, parent: seq<nat>, a: Block, b: Block, i: nat)
    requires IsParents(order, parent) && i < |order| && Above(order, parent, b, i)
    requires b in order && Above(order, parent, a, IndexOf(order, b))
    ensures Above(order, parent, a, i)
  {
    IndexOfAt(order, i);
    if order[i] != b {
      AboveTransitive(order, parent, a, b, parent[i]);
    }
  }

  lemma {:induction false} HeadIsAbove(order: seq<Block>, parent: seq<nat>, i: nat)
    requires IsParents(order, parent) && i < |order|
    ensures Above(order, parent, order[0], i)
  {
    if i > 0 {
      HeadIsAbove(order, parent, parent[i]);
    }
  }

  /** The relation is a partial order, and the head is below every reached block in it. */
  lemma DominatesIsPartialOrder(order: seq<Block>, parent: seq<nat>, a: Block, b: Block, c: Block)
    requires IsParents(order, parent)
    ensures Dominates(order, parent, a, a)
    ensures Dominates(order, parent, a, b) && Dominates(order, parent, b, a) ==> a == b
    ensures Dominates(order, parent, a, b) && Dominates(order, parent, b, c) ==> Dominates(order, parent, a, c)
    ensures a in order ==> Dominates(order, parent, order[0], a)
  {
    if Dominates(order, parent, a, b) && Dominates(order, parent, b, a) && a != b {
      AboveIsSmaller(order, parent, a, IndexOf(order, b));
      AboveIsSmaller(order, parent, b, IndexOf(order, a));
    }
    if Dominates(order, parent, a, b) && Dominates(order, parent, b, c) && a != b && b != c {
      AboveTransitive(order, parent, a, b, IndexOf(order, c));
    }
    if a in order {
      HeadIsAbove(order, parent, IndexOf(order, a));
    }
  }

  lemma ChildIsBelow(t: Tree, order: seq<Block>, parent: seq<nat>, a: Block, b: Block, c: Block)
    requires IsTree(t, order, parent) && c in Children(t, b)
    ensures b in order && c in order && c != b
    ensures parent[IndexOf(order, c)] == IndexOf(order, b) && IndexOf(order, b) < IndexOf(order, c)
    ensures Dominates(order, parent, a, c) <==> a == c || Dominates(order, parent, a, b)
  {
    var i: nat :| IsChildAt(order, parent, i, b, c);
    IndexOfAt(order, i);
    IndexOfAt(order, parent[i]);
    if a == b {
      assert Above(order, parent, a, parent[i]);
    }
  }

  /** A set that holds `a` and is closed under children holds everything that `a` is above of. */
  lemma {:induction false} ClosedUnderChildren(t: Tree, order: seq<Block>, parent: seq<nat>, a: Block, s: set<Block>,
                                               i: nat)
    requires IsTree(t, order, parent) && i < |order| && Above(order, parent, a, i)
    requires a in s && forall b, c :: b in s && c in Children(t, b) ==> c in s
    ensures order[i] in s
  {
    if order[i] != a {
      ClosedUnderChildren(t, order, parent, a, s, parent[i]);
      assert IsChildAt(order, parent, i, order[parent[i]], order[i]);
      assert order[i] in Children(t, order[parent[i]]);
    }
  }

  /** What the search below `a` has pushed so far: `open` still to be popped, `popped` done. */
  ghost predicate Searching(t: Tree, order: seq<Block>, parent: seq<nat>, a: Block, open: seq<Block>,
                            popped: set<Block>)
    requires IsTree(t, order, parent)
  {
    && Distinct(open) && Elems(open) !! popped
    && (forall b :: b in open || b in popped ==> Dominates(order, parent, a, b))
    && (forall b, c :: b in popped && c in Children(t, b) ==> c in open || c in popped)
    && (forall c :: c in open || c in popped ==> c == a || HasParentIn(t, popped, c))
    && (a in open || a in popped)
  }

  ghost predicate HasParentIn(t: Tree, s: set<Block>, c: Block) {
    exists b :: b in s && c in Children(t, b)
  }

  /** In a tree nothing is pushed twice. */
  lemma KidsAreNew(t: Tree, order: seq<Block>, parent: seq<nat>, a: Block, open: seq<Block>, popped: set<Block>,
                   cur: Block)
    requires IsTree(t, order, parent) && Searching(t, order, parent, a, open, popped)
    requires cur in open && cur !in popped
    ensures Distinct(Children(t, cur))
    ensures forall c :: c in Children(t, cur) ==>
      c !in open && c !in popped && c != cur && Dominates(order, parent, a, c)
  {
    hide IsTree, IsParents, Distinct, Elems, Above;
    ChildrenDistinct(t, order, parent, cur);
    forall c | c in Children(t, cur)
      ensures c !in open && c !in popped && c != cur && Dominates(order, parent, a, c)
    {
      ChildIsBelow(t, order, parent, a, cur, c);
      if c in open || c in popped {
        if c == a {
          AboveIsSmaller(order, parent, a, IndexOf(order, cur));
        } else {
          var b :| b in popped && c in Children(t, b);
          ChildIsBelow(t, order, parent, a, b, c);
        }
      }
    }
  }

  lemma ChildrenDistinct(t: Tree, order: seq<Block>, parent: seq<nat>, b: Block)
    requires IsTree(t, order, parent)
    ensures IsParents(order, parent) && Distinct(Children(t, b))
  {
  }

  lemma ReplaceTop(open: seq<Block>, popped: set<Block>, kids: seq<Block>)
    requires Distinct(open) && open != [] && Elems(open) !! popped && Distinct(kids)
    requires forall c :: c in kids ==> c !in open && c !in popped
    ensures var cur, open' := open[|open| - 1], open[..|open| - 1] + kids;
      && Distinct(open') && Elems(open') !! popped + {cur} && cur !in popped && cur in open
      && forall c :: c in open' || c in popped + {cur} <==> c in open || c in popped || c in kids
  {
    var n := |open| - 1;
    var cur := open[n];
    assert open == open[..n] + [cur];
    assert cur in Elems(open);
    var open' := open[..n] + kids;
    forall i, j | 0 <= i < j < |open'| ensures open'[i] != open'[j] {
      if i < n <= j {
        assert open'[i] == open[i] && open[i] in open && open'[j] == kids[j - n];
      }
    }
  }

  lemma PopPush(t: Tree, order: seq<Block>, parent: seq<nat>, a: Block, open: seq<Block>, popped: set<Block>)
    requires IsTree(t, order, parent) && open != [] && Searching(t, order, parent, a, open, popped)
    ensures var cur := open[|open| - 1];
      && cur !in popped && (cur == a || cur in order)
      && Searching(t, order, parent, a, open[..|open| - 1] + Children(t, cur), popped + {cur})
  {
    hide IsTree, IsParents, Distinct, Elems, Above, Children;
    var cur := open[|open| - 1];
    var kids := Children(t, cur);
    TopIsOpen(open, popped);
    KidsAreNew(t, order, parent, a, open, popped, cur);
    ReplaceTop(open, popped, kids);
    var open', popped' := open[..|open| - 1] + kids, popped + {cur};
    forall c | c in open' || c in popped' ensures c == a || HasParentIn(t, popped', c) {
      if c in kids {
        assert cur in popped' && c in Children(t, cur);
      } else if c != a {
        assert HasParentIn(t, popped, c);
      }
    }
  }

  lemma TopIsOpen(open: seq<Block>, popped: set<Block>)
    requires open != [] && Elems(open) !! popped
    ensures open[|open| - 1] in open && open[|open| - 1] !in popped
  {
    assert open[|open| - 1] in Elems(open);
  }

  lemma SearchStarts(t: Tree, order: seq<Block>, parent: seq<nat>, a: Block)
    requires IsTree(t, order, parent)
    ensures Searching(t, order, parent, a, [a], {})
  {
  }

  lemma SearchEnds(t: Tree, order: seq<Block>, parent: seq<nat>, a: Block, popped: set<Block>, b: Block)
    requires IsTree(t, order, parent) && Searching(t, order, parent, a, [], popped) && b !in popped
    ensures !Dominates(order, parent, a, b)
  {
    if Dominates(order, parent, a, b) && a != b {
      ClosedUnderChildren(t, order, parent, a, popped, IndexOf(order, b));
    }
  }

  lemma ChildOfOpen(t: Tree, order: seq<Block>, parent: seq<nat>, a: Block, open: seq<Block>, popped: set<Block>,
                    cur: Block, c: Block)
    requires IsTree(t, order, parent) && Searching(t, order, parent, a, open, popped)
    requires cur in open && c in Children(t, cur)
    ensures Dominates(order, parent, a, c)
  {
    hide IsTree, IsParents;
    ChildIsBelow(t, order, parent, a, cur, c);
  }

  /** DomTree::dominates: search downwards from the dominator with a local stack. */
  method DominatesQuery(t: Tree, dominator: Block, dominatee: Block, ghost order: seq<Block>, ghost parent: seq<nat>)
    returns (r: bool)
    requires IsTree(t, order, parent)
    ensures r <==> Dominates(order, parent, dominator, dominatee)
  {
    hide Searching, IsTree, IsParents, Above, IndexOf;
    if dominator == dominatee {
      return true;
    }
    var stack := [dominator];
    ghost var popped: set<Block> := {};
    SearchStarts(t, order, parent, dominator);
    while stack != []
      invariant Searching(t, order, parent, dominator, stack, popped)
      invariant dominatee !in stack && dominatee !in popped
      decreases Elems(order) + {dominator} - popped
    {
      PopPush(t, order, parent, dominator, stack, popped);
      ghost var open := stack;
      var cur := stack[|stack| - 1];
      stack := stack[..|stack| - 1];
      var kids := if cur in t then t[cur] else [];
      for k := 0 to |kids|
        invariant stack == open[..|open| - 1] + kids[..k]
        invariant dominatee !in stack
      {
        if dominatee == kids[k] {
          ChildOfOpen(t, order, parent, dominator, open, popped, cur, dominatee);
          return true;
        }
        stack := stack + [kids[k]];
      }
      assert kids[..|kids|] == kids == Children(t, cur);
      popped := popped + {cur};
    }
    SearchEnds(t, order, parent, dominator, popped, dominatee);
    return false;
  }

  // ---- the builder ----

  /** The numbering by discovery, and its inverse. */
  ghost predicate Numbers(order: seq<Block>, labels: map<Block, nat>) {
    && Distinct(order)
    && (forall i :: 0 <= i < |order| ==> order[i] in labels && labels[order[i]] == i)
    && (forall b :: b in labels ==> labels[b] < |order| && order[labels[b]] == b)
  }

  /** The link forest once all numbers from `i` on are merged: each points to the previous number, because
      the recorded parent of a node is the node discovered just before it. */
  ghost predicate Chained(link: seq<nat>, i: nat) {
    forall j :: 0 <= j < |link| ==> link[j] == if i <= j && j > 0 then j - 1 else j
  }

  /** Semidominators are below the numbers from `i` on and still initial before that. */
  ghost predicate SdomsFrom(sdom: seq<nat>, i: nat) {
    && (forall j :: 0 <= j < |sdom| && j < i ==> sdom[j] == j)
    && (forall j :: i <= j < |sdom| && j > 0 ==> sdom[j] < j)
    && (|sdom| > 0 ==> sdom[0] == 0)
  }

  /** What predecessor number `q` offers node number `i`: itself if it is not larger, otherwise the
      semidominators of all numbers above `i` up to `q`. */
  ghost predicate Offers(sdom: seq<nat>, i: nat, q: nat, x: nat) {
    if q <= i then x == q else exists k: nat :: i < k <= q && k < |sdom| && sdom[k] == x
  }

  ghost predicate Offered(g: Graph, order: seq<Block>, sdom: seq<nat>, i: nat, x: nat) {
    x == i || exists q: nat :: q < |order| && i < |order| && Edge(g, order[q], order[i]) && Offers(sdom, i, q, x)
  }

  /** The semidominator of number `i` is the least of what is offered to it. */
  ghost predicate IsSemi(g: Graph, order: seq<Block>, sdom: seq<nat>, i: nat) {
    i < |sdom| && Offered(g, order, sdom, i, sdom[i]) && forall x: nat :: Offered(g, order, sdom, i, x) ==> sdom[i] <= x
  }

  ghost predicate SemisFrom(g: Graph, order: seq<Block>, sdom: seq<nat>, i: nat) {
    forall j: nat :: i <= j < |sdom| ==> IsSemi(g, order, sdom, j)
  }

  /** The condition has one solution: each semidominator depends on those of larger numbers only. */
  lemma {:induction false} SemisUnique(g: Graph, order: seq<Block>, s: seq<nat>, t: seq<nat>, i: nat)
    requires |s| == |t| && SemisFrom(g, order, s, i) && SemisFrom(g, order, t, i)
    ensures forall j :: i <= j < |s| ==> s[j] == t[j]
    decreases |s| - i
  {
    if i < |s| {
      SemisUnique(g, order, s, t, i + 1);
      SameOffers(g, order, s, t, i);
      assert IsSemi(g, order, s, i) && IsSemi(g, order, t, i);
    }
  }

  lemma SameOffers(g: Graph, order: seq<Block>, s: seq<nat>, t: seq<nat>, i: nat)
    requires |s| == |t| && forall k :: i < k < |s| ==> s[k] == t[k]
    ensures forall x: nat :: Offered(g, order, s, i, x) <==> Offered(g, order, t, i, x)
  {
    forall q: nat, x: nat ensures Offers(s, i, q, x) <==> Offers(t, i, q, x) {
    }
  }

  lemma SemisKept(g: Graph, order: seq<Block>, s: seq<nat>, i: nat, v: nat)
    requires i < |s| && SemisFrom(g, order, s, i + 1) && IsSemi(g, order, s[i := v], i)
    ensures SemisFrom(g, order, s[i := v], i)
  {
    var t := s[i := v];
    forall j: nat | i < j < |t| ensures IsSemi(g, order, t, j) {
      assert IsSemi(g, order, s, j);
      SameOffers(g, order, s, t, j);
    }
  }

  /** Node number `m` has the least semidominator among the numbers from `a` to `b`, and is the last such. */
  ghost predicate IsRangeMin(sdom: seq<nat>, a: nat, b: nat, m: nat) {
    && b < |sdom| && a <= m <= b
    && (forall k :: a <= k <= b ==> sdom[m] <= sdom[k]) && (forall k :: m < k <= b ==> sdom[m] < sdom[k])
  }

  /** The candidate that the bucket loop settles on. */
  ghost predicate Settled(sdom: seq<nat>, w: nat, c: nat) {
    w < |sdom| && exists m: nat :: IsRangeMin(sdom, sdom[w], w, m) && c == if sdom[m] == sdom[w] then sdom[w] else m
  }

  /** The parent that node number `w` gets in the end: its semidominator, or the parent of a node of least
      semidominator between that and `w`. */
  ghost predicate ParentAt(sdom: seq<nat>, parent: seq<nat>, w: nat) {
    && w < |sdom| == |parent|
    && exists m: nat :: IsRangeMin(sdom, sdom[w], w, m)
        && if sdom[m] == sdom[w] || m == sdom[w] then parent[w] == sdom[w] else m < w && parent[w] == parent[m]
  }

  /** What the builder computes. */
  ghost predicate IsComputed(g: Graph, order: seq<Block>, sdom: seq<nat>, parent: seq<nat>) {
    && |sdom| == |order| && SemisFrom(g, order, sdom, 0)
    && forall w: nat :: 0 < w < |order| ==> ParentAt(sdom, parent, w)
  }

  /** Bucket `k` holds exactly the processed nodes whose semidominator is number k. */
  ghost predicate BucketsFrom(order: seq<Block>, labels: map<Block, nat>, sdom: seq<nat>, bucket: seq<seq<Block>>,
                              i: nat) {
    && |sdom| == |order|
    && (forall j :: i <= j < |order| && j > 0 ==> order[j] in BucketOf(order, bucket, sdom[j]))
    && (forall k: nat, b :: b in BucketOf(order, bucket, k) ==> InBucket(labels, sdom, i, k, b))
  }

  ghost function BucketOf(order: seq<Block>, bucket: seq<seq<Block>>, k: nat): seq<Block> {
    if k < |order| && order[k] < |bucket| then bucket[order[k]] else []
  }

  ghost predicate InBucket(labels: map<Block, nat>, sdom: seq<nat>, i: nat, k: nat, b: Block) {
    b in labels && i <= labels[b] < |sdom| && labels[b] > 0 && sdom[labels[b]] == k
  }

  /** A node whose semidominator has been processed has a smaller number as its candidate. */
  ghost predicate IdomsFrom(sdom: seq<nat>, idoms: seq<nat>, i: nat) {
    && |sdom| <= |idoms| && (|sdom| > 0 ==> idoms[0] == 0)
    && forall j: nat :: 0 < j < |sdom| && i <= sdom[j] && i <= j ==> GoodCandidate(sdom, idoms, j)
  }

  ghost predicate GoodCandidate(sdom: seq<nat>, idoms: seq<nat>, j: nat) {
    j < |idoms| && idoms[j] < j && Settled(sdom, j, idoms[j])
  }

  lemma {:induction false} ChainPath(link: seq<nat>, i: nat, d: nat)
    requires Dsu.IsLink(link) && Chained(link, i + 1) && i <= d < |link|
    ensures forall y: nat :: y in Dsu.LinkPath(link, d) <==> i <= y <= d
  {
    if d > i {
      ChainPath(link, i, d - 1);
    }
  }

  /** The path minimum from `d` decides its candidate, which always has a smaller number. */
  lemma CandidateIsSmaller(link: seq<nat>, sdom: seq<nat>, i: nat, d: nat, m: nat)
    requires Dsu.IsLink(link) && |sdom| == |link| && Chained(link, i + 1) && i < d < |link|
    requires sdom[d] == i && Dsu.IsPathMin(link, sdom, d, m)
    ensures m < |sdom| && sdom[m] <= i && (sdom[m] != i ==> m < d)
    ensures Settled(sdom, d, if sdom[m] == sdom[d] then sdom[d] else m)
  {
    ChainPath(link, i, d);
    assert IsRangeMin(sdom, sdom[d], d, m);
  }

  /** What find returns for a predecessor covers exactly what the predecessor offers. */
  lemma FindOffers(link: seq<nat>, sdom: seq<nat>, i: nat, p: nat, m: nat)
    requires Dsu.IsLink(link) && |sdom| == |link| && Chained(link, i + 1) && i < |link| && p < |link|
    requires Dsu.IsPathMin(link, sdom, p, m) && sdom[i] <= i && forall j :: 0 <= j < i ==> sdom[j] == j
    ensures sdom[m] < sdom[i] ==> Offers(sdom, i, p, sdom[m]) && m != i
    ensures forall x: nat :: Offers(sdom, i, p, x) ==> sdom[m] <= x || sdom[i] <= x
  {
    if p >= i {
      ChainPath(link, i, p);
    }
  }

  class DomTreeBuilder {
    const graph: Graph
    const sdoms: array<nat>
    var dfsNodes: seq<Block>
    var dfsLabels: map<Block, nat>
    var dfsParents: map<Block, Block>
    var idoms: seq<nat>
    var bucket: seq<seq<Block>>
    var tree: Tree

    ghost predicate Ready()
      reads this
    {
      && graph.Valid() && LinksMirrored(graph) && PredsReached(graph)
      && dfsNodes == Preorder(graph) && Numbers(dfsNodes, dfsLabels)
      && |dfsNodes| <= |graph.succs| == sdoms.Length == |idoms| == |bucket|
      && (forall i :: 0 <= i < |dfsNodes| ==> dfsNodes[i] < |graph.succs|)
      && (forall i :: 0 < i < |dfsNodes| ==> dfsNodes[i] in dfsParents && dfsParents[dfsNodes[i]] == dfsNodes[i - 1])
    }

    constructor (g: Graph)
      requires g.Valid() && LinksMirrored(g) && PredsReached(g)
      ensures graph == g && fresh(sdoms) && sdoms.Length == |idoms| == |bucket| == |g.succs|
      ensures dfsNodes == [] && dfsLabels == map[] && dfsParents == map[] && tree == map[]
      ensures forall b :: 0 <= b < |bucket| ==> bucket[b] == []
    {
      graph := g;
      sdoms := new nat[|g.succs|];
      idoms := seq(|g.succs|, _ => 0);
      bucket := seq(|g.succs|, _ => []);
      dfsNodes, dfsLabels, dfsParents, tree := [], map[], map[], map[];
    }

    /** Numbers the nodes in discovery order; the visitor remembers the node it saw last as the parent. */
    method MakeDfs()
      requires graph.Valid() && LinksMirrored(graph) && PredsReached(graph)
      requires sdoms.Length == |idoms| == |bucket| == |graph.succs|
      requires dfsNodes == [] && dfsLabels == map[] && dfsParents == map[]
      modifies this`dfsNodes, this`dfsLabels, this`dfsParents, this`idoms, sdoms
      ensures Ready()
      ensures forall i :: 0 <= i < |dfsNodes| ==> sdoms[i] == i && idoms[i] == i
    {
      hide Numbers, LinksMirrored, PredsReached, Graph.Valid, Preorder;
      var preorder := DeepFirstSearchPreorder(graph);
      ReachedExactlyOnce(graph);
      PreorderFits(graph);
      NoNumbers();
      var prev := graph.head;
      for k := 0 to |preorder|
        invariant dfsNodes == preorder[..k] && Numbers(dfsNodes, dfsLabels)
        invariant |idoms| == |graph.succs|
        invariant k > 0 ==> prev == preorder[k - 1]
        invariant forall i :: 0 < i < k ==> preorder[i] in dfsParents && dfsParents[preorder[i]] == preorder[i - 1]
        invariant forall i :: 0 <= i < k ==> sdoms[i] == i && idoms[i] == i
      {
        var node := preorder[k];
        NumbersAppend(preorder, k, dfsLabels);
        DiscoverNode(node, prev);
        prev := node;
      }
      assert preorder[..|preorder|] == preorder;
    }

    /** The visitor: `prev` is the node it was called with last. */
    method DiscoverNode(node: Block, prev: Block)
      requires |dfsNodes| < sdoms.Length == |idoms|
      modifies this`dfsNodes, this`dfsLabels, this`dfsParents, this`idoms, sdoms
      ensures dfsNodes == old(dfsNodes) + [node] && dfsLabels == old(dfsLabels)[node := |old(dfsNodes)|]
      ensures dfsParents == old(dfsParents)[node := prev] && idoms == old(idoms)[|old(dfsNodes)| := |old(dfsNodes)|]
      ensures sdoms[..] == old(sdoms[..])[|old(dfsNodes)| := |old(dfsNodes)|]
    {
      var cost := |dfsNodes|;
      dfsNodes := dfsNodes + [node];
      dfsLabels := dfsLabels[node := cost];
      sdoms[cost] := cost;
      idoms := idoms[cost := cost];
      dfsParents := dfsParents[node := prev];
    }

    /** The structure that the semidominator phase works on, with all numbers from `i` on merged. */
    ghost predicate Phase(dsu: Dsu.DSU, i: nat)
      reads this, sdoms, dsu
    {
      && |dfsNodes| <= sdoms.Length
      && dsu.sdoms == sdoms && dsu.size == |dfsNodes| && dsu.Valid()
      && Chained(dsu.link, i)
    }

    /** Afterwards the semidominator of number `i` is the least of what its predecessors offer. */
    method MinSdom(i: nat, dsu: Dsu.DSU)
      requires Ready() && i < |dfsNodes| && Phase(dsu, i + 1) && SdomsFrom(sdoms[..|dfsNodes|], i + 1)
      modifies sdoms, dsu`parents, dsu`labels
      ensures Phase(dsu, i + 1) && SdomsFrom(sdoms[..|dfsNodes|], i)
      ensures sdoms[..|dfsNodes|] == old(sdoms[..|dfsNodes|])[i := sdoms[i]]
      ensures IsSemi(graph, dfsNodes, sdoms[..|dfsNodes|], i)
    {
      hide Numbers, LinksMirrored, PredsReached, Graph.Valid, Preorder, Chained, Dsu.IsPathMin, Dsu.Agrees, Offers;
      PredLists(graph);
      Dsu.AgreesBounds(dsu.State(), dsu.link, sdoms[..|dfsNodes|]);
      ChainUnmerged(dsu.link, i);
      var preds := graph.preds[dfsNodes[i]];
      ghost var before := sdoms[..|dfsNodes|];
      for k := 0 to |preds|
        invariant Phase(dsu, i + 1) && dsu.link[i] == i
        invariant sdoms[i] <= i && sdoms[..|dfsNodes|] == before[i := sdoms[i]]
        invariant sdoms[i] == i || exists k' :: 0 <= k' < k && PredOffers(dfsLabels, preds[k'], before, i, sdoms[i])
        invariant forall k', x: nat :: 0 <= k' < k && PredOffers(dfsLabels, preds[k'], before, i, x) ==> sdoms[i] <= x
      {
        PredIsNumbered(graph, dfsNodes, dfsLabels, i, preds[k]);
        OffersAbove(before, sdoms[..|dfsNodes|], i, dfsLabels[preds[k]]);
        LowerBy(i, dfsLabels[preds[k]], dsu);
      }
      PredsOffer(graph, dfsNodes, dfsLabels, before, i, sdoms[i]);
      SemiIsSmaller(graph, dfsNodes, before[i := sdoms[i]], i);
    }

    /** The body of that loop, for predecessor number `p`. */
    method LowerBy(i: nat, p: nat, dsu: Dsu.DSU)
      requires |dfsNodes| <= sdoms.Length && i < |dfsNodes| && p < |dfsNodes| && Phase(dsu, i + 1)
      requires sdoms[i] <= i && forall j :: 0 <= j < i ==> sdoms[j] == j
      modifies sdoms, dsu`parents, dsu`labels
      ensures Phase(dsu, i + 1) && sdoms[i] <= old(sdoms[i])
      ensures sdoms[..|dfsNodes|] == old(sdoms[..|dfsNodes|])[i := sdoms[i]]
      ensures sdoms[i] == old(sdoms[i]) || Offers(old(sdoms[..|dfsNodes|]), i, p, sdoms[i])
      ensures forall x: nat :: Offers(old(sdoms[..|dfsNodes|]), i, p, x) ==> sdoms[i] <= x
    {
      hide Chained, Dsu.IsPathMin, Dsu.Agrees, Offers;
      var m := dsu.FindLabel(p);
      Dsu.AgreesBounds(dsu.State(), dsu.link, sdoms[..|dfsNodes|]);
      ChainUnmerged(dsu.link, i);
      FindOffers(dsu.link, sdoms[..|dfsNodes|], i, p, m);
      if sdoms[m] < sdoms[i] {
        Dsu.LowerAgrees(dsu.State(), dsu.link, sdoms[..|dfsNodes|], i, sdoms[m]);
        sdoms[i] := sdoms[m];
      }
    }

    /** Settles the candidates of all nodes whose semidominator is number `i`. */
    method SettleBucket(i: nat, dsu: Dsu.DSU)
      requires Ready() && i < |dfsNodes| && Phase(dsu, i + 1)
      requires BucketsFrom(dfsNodes, dfsLabels, sdoms[..|dfsNodes|], bucket, i)
      requires i > 0 ==> sdoms[i] < i
      modifies dsu`parents, dsu`labels, this`idoms
      ensures Phase(dsu, i + 1) && |idoms| == |old(idoms)|
      ensures forall j :: 0 <= j < |idoms| ==> idoms[j] == old(idoms)[j] || (j < |dfsNodes| && sdoms[j] == i && j > 0)
      ensures forall b :: b in BucketOf(dfsNodes, bucket, i) ==>
        b in dfsLabels && GoodCandidate(sdoms[..|dfsNodes|], idoms, dfsLabels[b])
    {
      hide BucketsFrom, Numbers, LinksMirrored, PredsReached, Graph.Valid, Preorder, Chained, Settled, Dsu.Agrees,
        Dsu.IsPathMin;
      var mine := bucket[dfsNodes[i]];
      for k := 0 to |mine|
        invariant Phase(dsu, i + 1) && |idoms| == |old(idoms)|
        invariant forall j :: 0 <= j < |idoms| ==>
          idoms[j] == old(idoms)[j] || (j < |dfsNodes| && sdoms[j] == i && j > 0)
        invariant forall k' :: 0 <= k' < k ==>
          mine[k'] in dfsLabels && GoodCandidate(sdoms[..|dfsNodes|], idoms, dfsLabels[mine[k']])
      {
        BucketMember(dfsNodes, dfsLabels, sdoms[..|dfsNodes|], bucket, i, i, mine[k]);
        SettleOne(i, dfsLabels[mine[k]], dsu);
      }
    }

    /** The body of that loop, for node number `d`. */
    method SettleOne(i: nat, d: nat, dsu: Dsu.DSU)
      requires Ready() && i <= d < |dfsNodes| && d > 0 && Phase(dsu, i + 1) && sdoms[d] == i
      requires i > 0 ==> sdoms[i] < i
      modifies dsu`parents, dsu`labels, this`idoms
      ensures Phase(dsu, i + 1) && |idoms| == |old(idoms)|
      ensures forall j :: 0 <= j < |idoms| && j != d ==> idoms[j] == old(idoms)[j]
      ensures GoodCandidate(sdoms[..|dfsNodes|], idoms, d)
    {
      hide Numbers, LinksMirrored, PredsReached, Graph.Valid, Preorder, Chained, Settled, Dsu.Agrees, Dsu.IsPathMin;
      var m := dsu.FindLabel(d);
      Dsu.AgreesBounds(dsu.State(), dsu.link, sdoms[..|dfsNodes|]);
      CandidateIsSmaller(dsu.link, sdoms[..|dfsNodes|], i, d, m);
      if sdoms[d] == sdoms[m] {
        idoms := idoms[d := sdoms[d]];
      } else {
        idoms := idoms[d := m];
      }
    }

    method BuildSdoms()
      requires Ready() && (forall i :: 0 <= i < |dfsNodes| ==> sdoms[i] == i && idoms[i] == i)
      requires (forall b :: 0 <= b < |bucket| ==> bucket[b] == []) && dfsNodes != []
      modifies sdoms, this`idoms, this`bucket
      ensures Ready()
      ensures SdomsFrom(sdoms[..|dfsNodes|], 0) && IdomsFrom(sdoms[..|dfsNodes|], idoms, 0)
      ensures SemisFrom(graph, dfsNodes, sdoms[..|dfsNodes|], 0)
    {
      hide Numbers, LinksMirrored, PredsReached, Graph.Valid, Preorder, BucketsFrom, SdomsFrom, IdomsFrom, IsSemi;
      var n := |dfsNodes|;
      var dsu := new Dsu.DSU(sdoms, n);
      PhaseStarts(dfsNodes, dfsLabels, sdoms[..n], idoms, bucket, dsu.link);
      var i := n;
      while i > 0
        invariant i <= n == |dfsNodes| && Ready() && Phase(dsu, i) && fresh(dsu)
        invariant SdomsFrom(sdoms[..n], i) && IdomsFrom(sdoms[..n], idoms, i)
        invariant BucketsFrom(dfsNodes, dfsLabels, sdoms[..n], bucket, i)
        invariant SemisFrom(graph, dfsNodes, sdoms[..n], i)
      {
        i := i - 1;
        BuildSdom(i, dsu);
      }
    }

    /** One turn of the loop of build_sdoms, for node number `i`. */
    method BuildSdom(i: nat, dsu: Dsu.DSU)
      requires Ready() && i < |dfsNodes| && Phase(dsu, i + 1)
      requires SdomsFrom(sdoms[..|dfsNodes|], i + 1) && IdomsFrom(sdoms[..|dfsNodes|], idoms, i + 1)
      requires BucketsFrom(dfsNodes, dfsLabels, sdoms[..|dfsNodes|], bucket, i + 1)
      requires SemisFrom(graph, dfsNodes, sdoms[..|dfsNodes|], i + 1)
      modifies sdoms, this`idoms, this`bucket, dsu
      ensures Ready() && Phase(dsu, i)
      ensures SdomsFrom(sdoms[..|dfsNodes|], i) && IdomsFrom(sdoms[..|dfsNodes|], idoms, i)
      ensures BucketsFrom(dfsNodes, dfsLabels, sdoms[..|dfsNodes|], bucket, i)
      ensures SemisFrom(graph, dfsNodes, sdoms[..|dfsNodes|], i)
    {
      hide Numbers, LinksMirrored, PredsReached, Graph.Valid, Preorder, BucketsFrom, SdomsFrom, IdomsFrom, Chained,
        IsSemi, SemisFrom, GoodCandidate;
      ghost var sdom, buckets := sdoms[..|dfsNodes|], bucket;
      var node := dfsNodes[i];
      MinSdom(i, dsu);
      SemisKept(graph, dfsNodes, sdom, i, sdoms[i]);
      SdomBound(sdoms[..|dfsNodes|], i);
      if i > 0 {
        var b := dfsNodes[sdoms[i]];
        bucket := bucket[b := bucket[b] + [node]];
      }
      BucketPush(dfsNodes, dfsLabels, sdom, sdoms[i], buckets, i);
      SettleBucket(i, dsu);
      SettledIdoms(dfsNodes, dfsLabels, sdom, sdoms[i], bucket, i, old(idoms), idoms);
      ChainUnmerged(dsu.link, i);
      if i > 0 {
        NumberAt(dfsNodes, dfsLabels, i - 1);
        dsu.MergeInto(i, dfsLabels[dfsParents[node]]);
      }
    }

    /** Turns candidates into parents, in discovery order, and hangs every node into the tree. */
    method BuildIdoms()
      requires Ready() && dfsNodes != [] && tree == map[]
      requires SdomsFrom(sdoms[..|dfsNodes|], 0) && IdomsFrom(sdoms[..|dfsNodes|], idoms, 0)
      modifies this`idoms, this`tree
      ensures |dfsNodes| <= |idoms| && IsTree(tree, dfsNodes, idoms[..|dfsNodes|])
      ensures Rising(tree, dfsNodes, |dfsNodes|)
      ensures forall w: nat :: 0 < w < |dfsNodes| ==> ParentAt(sdoms[..|dfsNodes|], idoms[..|dfsNodes|], w)
    {
      hide Ready, Dfs.Preorder, Graph.Valid, IsTree, TreeUpTo, ParentAt, GoodCandidate, Distinct, Rising;
      ReadySizes();
      var n := |dfsNodes|;
      ghost var sdom := sdoms[..n];
      TreeStarts(dfsNodes, idoms[..n]);
      RisingStarts(dfsNodes);
      CandidatesSmaller(sdom, idoms);
      for j := 1 to n
        invariant n == |dfsNodes| <= |idoms| && idoms[0] == 0
        invariant forall k :: 0 < k < n ==> idoms[k] < k
        invariant forall k: nat :: j <= k < n ==> GoodCandidate(sdom, idoms, k)
        invariant forall w: nat :: 0 < w < j ==> ParentAt(sdom, idoms[..n], w)
        invariant TreeUpTo(tree, dfsNodes, idoms[..n], j) && Rising(tree, dfsNodes, j)
      {
        ghost var parent, before, cands := idoms[..n], tree, idoms;
        if idoms[j] != sdoms[j] {
          idoms := idoms[j := idoms[idoms[j]]];
        }
        ParentSettled(sdom, cands, j, n);
        assert idoms == if cands[j] != sdom[j] then cands[j := cands[cands[j]]] else cands;
        var idomNode := dfsNodes[idoms[j]];
        if idomNode !in tree {
          tree := tree[idomNode := []];
        }
        TreeExtend(before, dfsNodes, parent, j, idoms[j]);
        RisingExtend(before, dfsNodes, j, idomNode);
        tree := tree[idomNode := tree[idomNode] + [dfsNodes[j]]];
        assert tree == before[idomNode := Children(before, idomNode) + [dfsNodes[j]]];
        assert idoms[..n] == parent[j := idoms[j]];
      }
      TreeDone(tree, dfsNodes, idoms[..n]);
    }

    lemma ReadySizes()
      requires Ready()
      ensures Distinct(dfsNodes) && |dfsNodes| <= sdoms.Length && |dfsNodes| <= |idoms|
    {
    }
  }

  /** The tree while nodes below number `n` have been hung into it. */
  ghost predicate TreeUpTo(t: Tree, order: seq<Block>, parent: seq<nat>, n: nat) {
    && (forall b :: Distinct(Children(t, b)))
    && forall b, c :: c in Children(t, b) <==> exists i: nat :: i < n && IsChildAt(order, parent, i, b, c)
  }

  lemma TreeStarts(order: seq<Block>, parent: seq<nat>)
    ensures TreeUpTo(map[], order, parent, 1)
  {
  }

  lemma TreeDone(t: Tree, order: seq<Block>, parent: seq<nat>)
    requires IsParents(order, parent) && TreeUpTo(t, order, parent, |order|)
    ensures IsTree(t, order, parent)
  {
    forall b, c ensures c in Children(t, b) <==> exists i: nat :: IsChildAt(order, parent, i, b, c) {
      if i: nat :| IsChildAt(order, parent, i, b, c) {
        assert i < |order|;
      }
    }
  }

  /** Children are listed in the order of their numbers, which are below `n`. */
  ghost predicate Rising(t: Tree, order: seq<Block>, n: nat) {
    forall b :: RisesTo(Children(t, b), order, n)
  }

  ghost predicate RisesTo(list: seq<Block>, order: seq<Block>, n: nat) {
    && (forall i :: 0 <= i < |list| ==> list[i] in order && IndexOf(order, list[i]) < n)
    && forall i, j :: 0 <= i < j < |list| ==> IndexOf(order, list[i]) < IndexOf(order, list[j])
  }

  lemma RisingStarts(order: seq<Block>)
    ensures Rising(map[], order, 1)
  {
  }

  lemma RisingExtend(t: Tree, order: seq<Block>, n: nat, b: Block)
    requires Distinct(order) && n < |order| && Rising(t, order, n)
    ensures Rising(t[b := Children(t, b) + [order[n]]], order, n + 1)
  {
    hide RisesTo;
    var t' := t[b := Children(t, b) + [order[n]]];
    forall c ensures RisesTo(Children(t', c), order, n + 1) {
      RisesMore(Children(t, c), order, n);
    }
  }

  lemma RisesMore(list: seq<Block>, order: seq<Block>, n: nat)
    requires Distinct(order) && n < |order| && RisesTo(list, order, n)
    ensures RisesTo(list, order, n + 1) && RisesTo(list + [order[n]], order, n + 1)
  {
    IndexOfAt(order, n);
  }

  /** Node number `n` is hung under node number `p`. */
  lemma TreeExtend(t: Tree, order: seq<Block>, parent: seq<nat>, n: nat, p: nat)
    requires Distinct(order) && |parent| == |order| && 0 < n < |order| && p < n
    requires TreeUpTo(t, order, parent, n)
    ensures TreeUpTo(t[order[p] := Children(t, order[p]) + [order[n]]], order, parent[n := p], n + 1)
  {
    var parent', t' := parent[n := p], t[order[p] := Children(t, order[p]) + [order[n]]];
    forall b, c ensures c in Children(t', b) <==> exists i: nat :: i < n + 1 && IsChildAt(order, parent', i, b, c) {
      if c in Children(t, b) {
        var i: nat :| i < n && IsChildAt(order, parent, i, b, c);
        assert IsChildAt(order, parent', i, b, c);
      } else if b == order[p] && c == order[n] {
        assert IsChildAt(order, parent', n, b, c);
      } else if i: nat :| i < n + 1 && IsChildAt(order, parent', i, b, c) {
        assert i < n && IsChildAt(order, parent, i, b, c);
      }
    }
    forall b ensures Distinct(Children(t', b)) {
      assert Distinct(Children(t, b));
      assert order[n] !in Children(t, b);
    }
  }

  lemma PhaseStarts(order: seq<Block>, labels: map<Block, nat>, sdom: seq<nat>, idoms: seq<nat>,
                    bucket: seq<seq<Block>>, link: seq<nat>)
    requires |sdom| == |order| <= |idoms| && link == seq(|sdom|, i => i)
    requires forall i :: 0 <= i < |order| ==> sdom[i] == i && idoms[i] == i
    requires forall b :: 0 <= b < |bucket| ==> bucket[b] == []
    ensures Chained(link, |order|) && SdomsFrom(sdom, |order|) && IdomsFrom(sdom, idoms, |order|)
    ensures BucketsFrom(order, labels, sdom, bucket, |order|)
  {
  }

  lemma NumberAt(order: seq<Block>, labels: map<Block, nat>, i: nat)
    requires Numbers(order, labels) && i < |order|
    ensures order[i] in labels && labels[order[i]] == i
  {
  }

  lemma SdomBound(sdom: seq<nat>, i: nat)
    requires SdomsFrom(sdom, i) && i < |sdom|
    ensures sdom[i] <= i && (i > 0 ==> sdom[i] < i)
  {
  }

  /** The node joins the bucket of its semidominator. */
  lemma BucketPush(order: seq<Block>, labels: map<Block, nat>, sdom: seq<nat>, s: nat, bucket: seq<seq<Block>>, i: nat)
    requires Numbers(order, labels) && i < |order| && |sdom| == |order| && s <= i && (i > 0 ==> s < i)
    requires (i == 0 ==> s == 0)
    requires BucketsFrom(order, labels, sdom, bucket, i + 1) && order[s] < |bucket|
    ensures BucketsFrom(order, labels, sdom[i := s],
                        if i > 0 then bucket[order[s] := bucket[order[s]] + [order[i]]] else bucket, i)
  {
    hide BucketOf, InBucket, Numbers;
    var bucket' := if i > 0 then bucket[order[s] := bucket[order[s]] + [order[i]]] else bucket;
    forall k: nat, b | b in BucketOf(order, bucket', k) ensures InBucket(labels, sdom[i := s], i, k, b) {
      PushedIsIn(order, labels, sdom, s, bucket, i, k, b);
    }
    forall j: nat | i <= j < |order| && j > 0 ensures order[j] in BucketOf(order, bucket', sdom[i := s][j]) {
      PushedHolds(order, labels, sdom, s, bucket, i, j);
    }
  }

  /** Whatever is in a bucket now was there before, or is the node pushed. */
  lemma PushedIsIn(order: seq<Block>, labels: map<Block, nat>, sdom: seq<nat>, s: nat, bucket: seq<seq<Block>>, i: nat,
                   k: nat, b: Block)
    requires Numbers(order, labels) && i < |order| && |sdom| == |order| && s <= i && (i > 0 ==> s < i)
    requires (i == 0 ==> s == 0)
    requires BucketsFrom(order, labels, sdom, bucket, i + 1) && order[s] < |bucket|
    requires b in BucketOf(order, if i > 0 then bucket[order[s] := bucket[order[s]] + [order[i]]] else bucket, k)
    ensures InBucket(labels, sdom[i := s], i, k, b)
  {
    if b in BucketOf(order, bucket, k) {
      assert InBucket(labels, sdom, i + 1, k, b);
    } else {
      assert k < |order| && order[k] == order[s] && b == order[i];
    }
  }

  /** Nodes stay in their buckets, and the new one is in its own. */
  lemma PushedHolds(order: seq<Block>, labels: map<Block, nat>, sdom: seq<nat>, s: nat, bucket: seq<seq<Block>>,
                    i: nat, j: nat)
    requires i < |order| && |sdom| == |order| && s <= i && (i > 0 ==> s < i) && (i == 0 ==> s == 0)
    requires BucketsFrom(order, labels, sdom, bucket, i + 1) && order[s] < |bucket| && i <= j < |order| && j > 0
    ensures order[j] in
      BucketOf(order, if i > 0 then bucket[order[s] := bucket[order[s]] + [order[i]]] else bucket, sdom[i := s][j])
  {
    hide InBucket;
    if j > i {
      assert order[j] in BucketOf(order, bucket, sdom[j]);
    }
  }

  lemma SettledIdoms(order: seq<Block>, labels: map<Block, nat>, sdom: seq<nat>, s: nat, bucket: seq<seq<Block>>,
                     i: nat,
                     before: seq<nat>, idoms: seq<nat>)
    requires Numbers(order, labels) && i < |order| && |sdom| == |order| <= |idoms| == |before|
    requires BucketsFrom(order, labels, sdom[i := s], bucket, i)
    requires IdomsFrom(sdom, before, i + 1) && (i > 0 ==> s < i) && (i == 0 ==> s == 0)
    requires forall j :: 0 <= j < |idoms| ==> idoms[j] == before[j] || (j < |order| && sdom[i := s][j] == i && j > 0)
    requires forall b :: b in BucketOf(order, bucket, i) ==>
      b in labels && GoodCandidate(sdom[i := s], idoms, labels[b])
    ensures IdomsFrom(sdom[i := s], idoms, i)
  {
    hide Settled, BucketOf;
    var sdom' := sdom[i := s];
    forall j: nat | 0 < j < |sdom'| && i <= sdom'[j] && i <= j ensures GoodCandidate(sdom', idoms, j) {
      if sdom'[j] == i {
        assert order[j] in BucketOf(order, bucket, sdom'[j]);
      } else {
        assert GoodCandidate(sdom, before, j);
        SettledKept(sdom, i, s, j, idoms[j]);
      }
    }
  }

  lemma CandidatesSmaller(sdom: seq<nat>, idoms: seq<nat>)
    requires IdomsFrom(sdom, idoms, 0)
    ensures forall k: nat :: 0 < k < |sdom| ==> idoms[k] < k && GoodCandidate(sdom, idoms, k)
  {
    forall k: nat | 0 < k < |sdom| ensures idoms[k] < k && GoodCandidate(sdom, idoms, k) {
      assert 0 <= sdom[k];
    }
  }

  /** Number `j` gets its parent; the parents before it and the candidates behind it stay. */
  lemma ParentSettled(sdom: seq<nat>, idoms: seq<nat>, j: nat, n: nat)
    requires 0 < j < n == |sdom| <= |idoms| && GoodCandidate(sdom, idoms, j)
    requires forall k: nat :: j <= k < n ==> GoodCandidate(sdom, idoms, k)
    requires forall w: nat :: 0 < w < j ==> ParentAt(sdom, idoms[..n], w)
    ensures var next := if idoms[j] != sdom[j] then idoms[j := idoms[idoms[j]]] else idoms;
      && (forall k: nat :: j < k < n ==> GoodCandidate(sdom, next, k))
      && (forall w: nat :: 0 < w < j + 1 ==> ParentAt(sdom, next[..n], w))
  {
    var next := if idoms[j] != sdom[j] then idoms[j := idoms[idoms[j]]] else idoms;
    var m: nat :| IsRangeMin(sdom, sdom[j], j, m) && idoms[j] == if sdom[m] == sdom[j] then sdom[j] else m;
    assert ParentAt(sdom, next[..n], j);
    forall w: nat | 0 < w < j ensures ParentAt(sdom, next[..n], w) {
      assert ParentAt(sdom, idoms[..n], w);
    }
    forall k: nat | j < k < n ensures GoodCandidate(sdom, next, k) {
      assert GoodCandidate(sdom, idoms, k);
    }
  }

  lemma SettledKept(sdom: seq<nat>, i: nat, s: nat, w: nat, c: nat)
    requires i < |sdom| && i < w && w < |sdom| && i < sdom[w] && Settled(sdom, w, c)
    ensures Settled(sdom[i := s], w, c)
  {
    var m: nat :| IsRangeMin(sdom, sdom[w], w, m) && c == if sdom[m] == sdom[w] then sdom[w] else m;
    var t := sdom[i := s];
    assert IsRangeMin(t, t[w], w, m);
  }

  lemma ChainUnmerged(link: seq<nat>, i: nat)
    requires Chained(link, i + 1) && i < |link|
    ensures link[i] == i
    ensures Chained(if i > 0 then link[i := i - 1] else link, i)
  {
  }

  lemma BucketMember(order: seq<Block>, labels: map<Block, nat>, sdom: seq<nat>, bucket: seq<seq<Block>>,
                     i: nat, k: nat, b: Block)
    requires BucketsFrom(order, labels, sdom, bucket, i) && b in BucketOf(order, bucket, k)
    ensures b in labels && i <= labels[b] < |sdom| && labels[b] > 0 && sdom[labels[b]] == k
  {
    assert InBucket(labels, sdom, i, k, b);
  }

  lemma PredIsNumbered(g: Graph, order: seq<Block>, labels: map<Block, nat>, i: nat, p: Block)
    requires g.Valid() && LinksMirrored(g) && PredsReached(g) && order == Preorder(g) && Numbers(order, labels)
    requires i < |order| && order[i] < |g.preds| && p in g.preds[order[i]]
    ensures p in labels && labels[p] < |order|
  {
    ReachedExactlyOnce(g);
    assert Edge(g, p, order[i]);
  }

  lemma PredLists(g: Graph)
    requires LinksMirrored(g)
    ensures |g.preds| == |g.succs|
  {
  }

  /** Every node but the first has a predecessor with a smaller number, so its semidominator is smaller too. */
  lemma SemiIsSmaller(g: Graph, order: seq<Block>, sdom: seq<nat>, i: nat)
    requires g.Valid() && order == Preorder(g) && i < |order| && IsSemi(g, order, sdom, i)
    ensures i > 0 ==> sdom[i] < i
  {
    ReachedExactlyOnce(g);
    if i > 0 {
      assert HasEarlierPred(g, order, i);
      var j :| 0 <= j < i && Edge(g, order[j], order[i]);
      assert Offers(sdom, i, j, j);
      assert Offered(g, order, sdom, i, j);
    }
  }

  ghost predicate PredOffers(labels: map<Block, nat>, p: Block, sdom: seq<nat>, i: nat, x: nat) {
    p in labels && Offers(sdom, i, labels[p], x)
  }

  lemma OffersAbove(s: seq<nat>, t: seq<nat>, i: nat, q: nat)
    requires |s| == |t| && forall k :: i < k < |s| ==> s[k] == t[k]
    ensures forall x: nat :: Offers(s, i, q, x) <==> Offers(t, i, q, x)
  {
  }

  /** The predecessors in the list are those of the graph. */
  lemma PredsOffer(g: Graph, order: seq<Block>, labels: map<Block, nat>, sdom: seq<nat>, i: nat, v: nat)
    requires g.Valid() && LinksMirrored(g) && Numbers(order, labels)
    requires i < |order| == |sdom| && order[i] < |g.preds| && v <= i
    requires v == i || exists k :: 0 <= k < |g.preds[order[i]]| && PredOffers(labels, g.preds[order[i]][k], sdom, i, v)
    requires forall k, x: nat ::
      0 <= k < |g.preds[order[i]]| && PredOffers(labels, g.preds[order[i]][k], sdom, i, x) ==> v <= x
    ensures IsSemi(g, order, sdom[i := v], i)
  {
    hide Offers;
    var t, preds := sdom[i := v], g.preds[order[i]];
    SameOffers(g, order, sdom, t, i);
    forall x: nat | Offered(g, order, sdom, i, x) ensures v <= x {
      if x != i {
        var q: nat :| q < |order| && Edge(g, order[q], order[i]) && Offers(sdom, i, q, x);
        assert order[q] in preds;
        var k :| 0 <= k < |preds| && preds[k] == order[q];
        assert PredOffers(labels, preds[k], sdom, i, x);
      }
    }
    if v != i {
      var k :| 0 <= k < |preds| && PredOffers(labels, preds[k], sdom, i, v);
      assert preds[k] in preds && order[labels[preds[k]]] == preds[k];
    }
  }

  lemma NoNumbers()
    ensures Numbers([], map[])
  {
  }

  lemma NumbersAppend(order: seq<Block>, k: nat, labels: map<Block, nat>)
    requires Distinct(order) && k < |order| && Numbers(order[..k], labels)
    ensures Numbers(order[..k + 1], labels[order[k] := k])
    ensures order[..k + 1] == order[..k] + [order[k]]
    ensures forall i :: 0 <= i < k ==> order[i] != order[k]
  {
    assert order[..k + 1] == order[..k] + [order[k]];
  }

  lemma PreorderFits(g: Graph)
    requires g.Valid()
    ensures |Preorder(g)| <= |g.succs|
    ensures forall i :: 0 <= i < |Preorder(g)| ==> Preorder(g)[i] < |g.succs|
  {
    ReachedExactlyOnce(g);
    assert forall i :: 0 <= i < |Preorder(g)| ==> Preorder(g)[i] in Preorder(g);
    ElemsSize(Preorder(g));
    BelowSize(|g.succs|);
    SubsetSize(Elems(Preorder(g)), Below(|g.succs|));
  }

  /** DomTreeBuilder::build. Over the reached blocks the result is a tree in which every block but the head has
      one parent, discovered before it, namely the one that the semidominators determine. */
  method BuildDomTree(g: Graph) returns (tree: Tree, ghost parent: seq<nat>)
    requires g.Valid() && LinksMirrored(g) && PredsReached(g)
    ensures IsTree(tree, Preorder(g), parent)
    ensures exists sdom :: IsComputed(g, Preorder(g), sdom, parent)
    ensures SpansReached(tree, Preorder(g)) && Rising(tree, Preorder(g), |Preorder(g)|)
  {
    hide Rising, IsTree, SemisFrom, ParentAt, SpansReached, LinksMirrored, PredsReached, Graph.Valid, IdomsFrom,
      Numbers;
    var builder := new DomTreeBuilder(g);
    builder.MakeDfs();
    ReachedExactlyOnce(g);
    builder.BuildSdoms();
    builder.BuildIdoms();
    tree := builder.tree;
    parent := builder.idoms[..|builder.dfsNodes|];
    assert IsComputed(g, Preorder(g), builder.sdoms[..|builder.dfsNodes|], parent);
    TreeSpans(tree, Preorder(g), parent);
  }

  /** Every block but the first is a child of exactly one block, which was discovered before it. */
  ghost predicate SpansReached(t: Tree, order: seq<Block>) {
    && (forall b, c :: c in Children(t, b) ==> b in order && c in order && IndexOf(order, b) < IndexOf(order, c))
    && (forall i :: 0 < i < |order| ==> HasParent(t, order, order[i]))
    && (forall a, b, c :: c in Children(t, a) && c in Children(t, b) ==> a == b)
  }

  ghost predicate HasParent(t: Tree, order: seq<Block>, c: Block) {
    exists b :: b in order && c in Children(t, b)
  }

  lemma TreeSpans(t: Tree, order: seq<Block>, parent: seq<nat>)
    requires IsTree(t, order, parent)
    ensures SpansReached(t, order)
  {
    forall b, c | c in Children(t, b) ensures b in order && c in order && IndexOf(order, b) < IndexOf(order, c) {
      ChildIsBelow(t, order, parent, b, b, c);
    }
    forall i | 0 < i < |order| ensures HasParent(t, order, order[i]) {
      assert IsChildAt(order, parent, i, order[parent[i]], order[i]);
      assert order[parent[i]] in order && order[i] in Children(t, order[parent[i]]);
    }
  }
}
