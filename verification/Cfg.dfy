/** Control-flow graphs: finite multigraphs of basic blocks with one entry block. */
module Cfg {
  import opened SetFacts

  /** Blocks are named by their ids; `succs[u]` lists the successors of `u` in link order, with
      repetitions and self edges as they come, and `preds[v]` the predecessors of `v`. */
  type Block = nat

  datatype Graph = Graph(head: Block, succs: seq<seq<Block>>, preds: seq<seq<Block>>) {
    ghost predicate Valid() {
      && head < |succs|
      && forall u: Block, v: Block :: u < |succs| && v in succs[u] ==> v < |succs|
    }
  }

  /** link_blocks records every edge at both ends. */
  ghost predicate LinksMirrored(g: Graph) {
    && |g.preds| == |g.succs|
    && forall u: Block, v: Block :: v < |g.preds| ==> (u in g.preds[v] <==> Edge(g, u, v))
  }

  /** No edge into the reachable part comes from outside of it. */
  ghost predicate PredsReached(g: Graph) {
    forall u, v :: Edge(g, u, v) && Reaches(g, g.head, v) ==> Reaches(g, g.head, u)
  }

  ghost predicate Edge(g: Graph, u: Block, v: Block) {
    u < |g.succs| && v in g.succs[u]
  }

  ghost predicate IsPath(g: Graph, p: seq<Block>) {
    && |p| >= 1
    && forall i :: 0 <= i < |p| - 1 ==> Edge(g, p[i], p[i + 1])
  }

  ghost predicate PathFrom(g: Graph, a: Block, b: Block, p: seq<Block>) {
    IsPath(g, p) && p[0] == a && p[|p| - 1] == b
  }

  ghost predicate Reaches(g: Graph, a: Block, b: Block) {
    exists p :: PathFrom(g, a, b, p)
  }

  lemma ReachesSelf(g: Graph, a: Block)
    ensures Reaches(g, a, a)
  {
    assert PathFrom(g, a, a, [a]);
  }

  lemma ReachesStep(g: Graph, a: Block, b: Block, c: Block)
    requires Reaches(g, a, b) && Edge(g, b, c)
    ensures Reaches(g, a, c)
  {
    var p :| PathFrom(g, a, b, p);
    assert PathFrom(g, a, c, p + [c]);
  }

  /** Some reachable block lies on a closed path with at least one edge. */
  ghost predicate HasCycle(g: Graph) {
    exists p :: IsCycle(g, p)
  }

  ghost predicate IsCycle(g: Graph, p: seq<Block>) {
    |p| >= 2 && IsPath(g, p) && p[0] == p[|p| - 1] && Reaches(g, g.head, p[0])
  }

  /** A set that holds `a` and is closed under edges holds everything `a` reaches. */
  lemma {:induction false} ClosedUnderEdges(g: Graph, s: set<Block>, p: seq<Block>)
    requires IsPath(g, p) && p[0] in s
    requires forall u, v :: u in s && Edge(g, u, v) ==> v in s
    ensures forall i :: 0 <= i < |p| ==> p[i] in s
  {
    if |p| > 1 {
      assert Edge(g, p[0], p[1]);
      assert IsPath(g, p[1..]) by {
        forall i | 0 <= i < |p[1..]| - 1 ensures Edge(g, p[1..][i], p[1..][i + 1]) {
          assert Edge(g, p[i + 1], p[i + 2]);
        }
      }
      ClosedUnderEdges(g, s, p[1..]);
      assert forall i :: 1 <= i < |p| ==> p[i] == p[1..][i - 1];
    }
  }

  /** The place of `x` in a duplicate-free list. */
  ghost function IndexOf(s: seq<Block>, x: Block): (r: nat)
    requires x in s
    ensures r < |s| && s[r] == x
  {
    var last := |s| - 1;
    if s[last] == x then last else
      assert x in s[..last] by { assert s == s[..last] + [s[last]]; }
      IndexOf(s[..last], x)
  }

  lemma IndexOfAppend(s: seq<Block>, y: Block, x: Block)
    requires x in s && x != y
    ensures x in s + [y] && IndexOf(s + [y], x) == IndexOf(s, x)
  {
    assert (s + [y])[..|s|] == s;
  }

  lemma IndexOfAppendAll(s: seq<Block>, y: Block)
    requires y !in s
    ensures forall x :: x in s ==> x in s + [y] && IndexOf(s + [y], x) == IndexOf(s, x)
    ensures IndexOf(s + [y], y) == |s|
  {
    forall x | x in s ensures x in s + [y] && IndexOf(s + [y], x) == IndexOf(s, x) {
      IndexOfAppend(s, y, x);
    }
  }

  lemma IndexOfAt(s: seq<Block>, i: nat)
    requires Distinct(s) && i < |s|
    ensures IndexOf(s, s[i]) == i
  {
  }
}
