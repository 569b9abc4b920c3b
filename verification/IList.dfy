/** The intrusive circular list (include/intrusive_list/ilist_base.hh, include/intrusive_list/ilist.hh). */
module IList {
  import opened SetFacts

  class Node {
    var prev: Node?
    var next: Node?

    constructor ()
      ensures prev == null && next == null
    {
      prev, next := null, null;
    }
  }

  /** Neighbours in the sequence point at each other. */
  ghost predicate Linked(s: seq<Node>)
    reads s
  {
    forall k :: 0 <= k < |s| - 1 ==> s[k].next == s[k + 1] && s[k + 1].prev == s[k]
  }

  /** Following `next` from the first node visits the sequence and comes back; following `prev`, in reverse. */
  ghost predicate Ring(s: seq<Node>)
    reads s
  {
    s != [] && Distinct(s) && Linked(s + [s[0]])
  }

  /** Positions run from 1 to |s|; the last one is the first node again. */
  ghost function At(s: seq<Node>, k: nat): Node
    requires 1 <= k <= |s|
  {
    if k == |s| then s[0] else s[k]
  }

  /** A ring has no beginning. */
  lemma RingRotates(a: seq<Node>, b: seq<Node>)
    requires Ring(a + b)
    ensures Ring(b + a)
  {
    var s, t := a + b, b + a;
    assert forall k :: 0 <= k < |t| ==> t[k] == if k < |b| then s[|a| + k] else s[k - |b|];
    var u, v := s + [s[0]], t + [t[0]];
    forall k | 0 <= k < |t| ensures v[k].next == v[k + 1] && v[k + 1].prev == v[k] {
      var j := if k < |b| then |a| + k else k - |b|;
      assert u[j].next == u[j + 1] && u[j + 1].prev == u[j];
    }
  }

  /** In a ring `next` and `prev` undo each other. */
  lemma RingInverse(s: seq<Node>, k: nat)
    requires Ring(s) && k < |s|
    ensures s[k].next in s && s[k].prev in s
    ensures s[k].next.prev == s[k] && s[k].prev.next == s[k]
  {
    var u := s + [s[0]];
    assert u[k].next == u[k + 1] && u[k + 1].prev == u[k];
    var j := if k == 0 then |s| - 1 else k - 1;
    assert u[j].next == u[j + 1] && u[j + 1].prev == u[j];
  }

  /** `x` goes before `next`, which is at position `k` of a ring or has no neighbour yet. */
  method InsertBefore(next: Node, x: Node, ghost s: seq<Node>, ghost k: nat)
    requires next.prev == null || (Ring(s) && 1 <= k <= |s| && At(s, k) == next)
    requires x !in s && x != next
    modifies next, next.prev, x
    ensures old(next.prev) == null ==>
      x.prev == null && x.next == next && next.prev == x && next.next == old(next.next)
    ensures old(next.prev) != null ==> Ring(s[..k] + [x] + s[k..])
  {
    ghost var u := s + if s == [] then [] else [s[0]];
    assert next.prev != null ==> u[k - 1].next == u[k] && u[k].prev == u[k - 1];
    var prev := next.prev;
    if prev != null {
      prev.next := x;
    }
    x.prev := prev;
    x.next := next;
    next.prev := x;
    if prev != null {
      ghost var t := s[..k] + [x] + s[k..];
      ghost var v := t + [t[0]];
      assert forall j :: 0 <= j < |v| ==> v[j] == if j < k then u[j] else if j == k then x else u[j - 1];
      forall j | 0 <= j < |v| - 1 ensures v[j].next == v[j + 1] && v[j + 1].prev == v[j] {
        var i := if j < k then j else j - 1;
        assert old(u[i].next) == u[i + 1] && old(u[i + 1].prev) == u[i];
      }
    }
  }

  /** The node at position `k` leaves the ring. */
  method Remove(x: Node, ghost s: seq<Node>, ghost k: nat)
    requires Ring(s) && 1 <= k < |s| && s[k] == x
    modifies x, x.next, x.prev
    ensures Ring(s[..k] + s[k + 1..])
    ensures x.prev == null && x.next == null
  {
    ghost var u := s + [s[0]];
    assert u[k - 1].next == u[k] && u[k].prev == u[k - 1] && u[k].next == u[k + 1] && u[k + 1].prev == u[k];
    var next := x.next;
    var prev := x.prev;
    next.prev := prev;
    prev.next := next;
    x.prev := null;
    x.next := null;
    ghost var t := s[..k] + s[k + 1..];
    ghost var v := t + [t[0]];
    assert forall j :: 0 <= j < |v| ==> v[j] == if j < k then u[j] else u[j + 1];
    forall j | 0 <= j < |v| - 1 ensures v[j].next == v[j + 1] && v[j + 1].prev == v[j] {
      var i := if j < k then j else j + 1;
      assert old(u[i].next) == u[i + 1] && old(u[i + 1].prev) == u[i];
    }
  }

  lemma Join(a: seq<Node>, b: seq<Node>)
    requires a != [] && b != [] && Linked(a) && Linked(b)
    requires a[|a| - 1].next == b[0] && b[0].prev == a[|a| - 1]
    ensures Linked(a + b)
  {
    var s := a + b;
    forall k | 0 <= k < |s| - 1 ensures s[k].next == s[k + 1] && s[k + 1].prev == s[k] {
      if k >= |a| {
        assert s[k] == b[k - |a|] && s[k + 1] == b[k - |a| + 1];
      }
    }
  }

  lemma AtInjective(s: seq<Node>, i: nat, j: nat)
    requires Distinct(s) && 1 <= i <= |s| && 1 <= j <= |s| && At(s, i) == At(s, j)
    ensures i == j
  {
  }

  /** move_before: the nodes from `first` up to `last`, exclusively, go before `next`. */
  method MoveBefore(next: Node, first: Node, last: Node)
    requires next != first
    requires last == next || first == last || (next.prev != null && first.prev != null && last.prev != null)
    modifies (if last == next || first == last then {} else {next, first, last})`prev
    modifies (if last == next || first == last then {} else {next.prev, first.prev, last.prev})`next
    ensures last != next && first != last ==>
      && next.prev == old(last.prev) && last.prev == old(first.prev) && first.prev == old(next.prev)
      && old(last.prev).next == next
      && (old(next.prev) != old(last.prev) ==> old(next.prev).next == first)
      && (old(first.prev) != old(last.prev) && old(first.prev) != old(next.prev) ==> old(first.prev).next == last)
  {
    if last == next || first == last {
      return;
    }
    var toInsert := last.prev;
    var rbegin := first.prev;
    last.prev := rbegin;
    rbegin.next := last;
    var prev := next.prev;
    next.prev := toInsert;
    prev.next := first;
    toInsert.next := next;
    first.prev := prev;
  }

  /** A ring as a chain that ends where it began. */
  ghost function Closed(s: seq<Node>): seq<Node>
    requires s != []
  {
    s + [s[0]]
  }

  /** The links of a ring, apart from those behind the positions in `cuts`. */
  ghost predicate LinkedExcept(s: seq<Node>, cuts: set<nat>)
    requires s != []
    reads s
  {
    forall p: nat :: p < |s| && p !in cuts ==>
      Closed(s)[p].next == Closed(s)[p + 1] && Closed(s)[p + 1].prev == Closed(s)[p]
  }

  predicate Untouched(u: seq<Node>, p: nat, nexts: set<Node>, prevs: set<Node>)
    requires p < |u| - 1
  {
    u[p] !in nexts && u[p + 1] !in prevs
  }

  /** The pointers to be written lie behind the cuts only. */
  ghost predicate OnlyCuts(s: seq<Node>, cuts: set<nat>, nexts: set<Node>, prevs: set<Node>) {
    s != [] && forall p: nat :: p < |s| && p !in cuts ==> Untouched(Closed(s), p, nexts, prevs)
  }

  lemma Elsewhere(s: seq<Node>, p: nat, q: nat)
    requires Distinct(s) && p < |s| && q < |s| && p != q
    ensures Closed(s)[p] != Closed(s)[q] && Closed(s)[p + 1] != Closed(s)[q + 1]
  {
  }

  /** Where the pointers of the nodes led. */
  datatype Snapshot = Snapshot(next: map<Node, Node?>, prev: map<Node, Node?>)

  ghost function Snap(s: seq<Node>): Snapshot
    reads s
  {
    Snapshot(map n | n in s :: n.next, map n | n in s :: n.prev)
  }

  /** Links stay where the `next` of the node before and the `prev` of the node behind are not written. */
  lemma LinksKept(s: seq<Node>, cuts: set<nat>, nexts: set<Node>, prevs: set<Node>, was: Snapshot)
    requires WasRing(s, was) && OnlyCuts(s, cuts, nexts, prevs)
    requires forall n :: n in s && n !in nexts ==> n.next == was.next[n]
    requires forall n :: n in s && n !in prevs ==> n.prev == was.prev[n]
    ensures LinkedExcept(s, cuts)
  {
    forall p: nat | p < |s| && p !in cuts
      ensures Closed(s)[p].next == Closed(s)[p + 1] && Closed(s)[p + 1].prev == Closed(s)[p]
    {
      assert WasLink(Closed(s), was, p);
      assert Closed(s)[p] in s && Closed(s)[p + 1] in s && Untouched(Closed(s), p, nexts, prevs);
    }
  }

  ghost predicate WasLink(u: seq<Node>, was: Snapshot, p: nat) {
    && p < |u| - 1 && u[p] in was.next && u[p + 1] in was.prev
    && was.next[u[p]] == u[p + 1] && was.prev[u[p + 1]] == u[p]
  }

  ghost predicate WasRing(s: seq<Node>, was: Snapshot) {
    && s != [] && (forall n :: n in s ==> n in was.next && n in was.prev)
    && forall p: nat :: p < |s| ==> WasLink(Closed(s), was, p)
  }

  lemma RingWas(s: seq<Node>)
    requires Ring(s)
    ensures WasRing(s, Snap(s)) && Distinct(s)
    ensures forall n :: n in s ==> Snap(s).next[n] == n.next && Snap(s).prev[n] == n.prev
  {
    var u := s + [s[0]];
    forall p: nat | p < |s| ensures WasLink(Closed(s), Snap(s), p) {
      assert u[p].next == u[p + 1] && u[p + 1].prev == u[p];
    }
  }

  lemma Segment(s: seq<Node>, cuts: set<nat>, a: nat, b: nat)
    requires s != [] && LinkedExcept(s, cuts) && a <= b <= |s| + 1 && forall p: nat :: a <= p < b - 1 ==> p !in cuts
    ensures Linked(Closed(s)[a..b])
  {
    var t := Closed(s)[a..b];
    forall k | 0 <= k < |t| - 1 ensures t[k].next == t[k + 1] && t[k + 1].prev == t[k] {
      assert t[k] == Closed(s)[a + k] && t[k + 1] == Closed(s)[a + k + 1] && a + k !in cuts;
    }
  }

  lemma RingLink(s: seq<Node>, k: nat)
    requires Ring(s) && 1 <= k <= |s|
    ensures At(s, k) == Closed(s)[k] && Closed(s)[k].prev == s[k - 1] && s[k - 1].next == Closed(s)[k]
    ensures At(s, k) in s
  {
    var u := s + [s[0]];
    assert u[k - 1].next == u[k] && u[k].prev == u[k - 1];
  }

  /** The nodes from position `i` up to `j` of ring `y` go before position `k` of ring `x`. */
  method MoveBetween(next: Node, first: Node, last: Node, ghost x: seq<Node>, ghost k: nat, ghost y: seq<Node>,
    ghost i: nat, ghost j: nat)
    requires Ring(x) && Ring(y) && forall n :: n in x ==> n !in y
    requires 1 <= k <= |x| && At(x, k) == next
    requires 1 <= i <= j <= |y| && At(y, i) == first && At(y, j) == last
    modifies x, y
    ensures Ring(x[..k] + y[i..j] + x[k..])
    ensures Ring(y[..i] + y[j..])
  {
    hide Linked, LinkedExcept, At, Distinct, Ring, WasRing, Snap, OnlyCuts;
    RingLink(x, k);
    RingLink(y, i);
    RingLink(y, j);
    RingWas(x);
    RingWas(y);
    ghost var wasX, wasY := Snap(x), Snap(y);
    if i == j {
      assert x[..k] + y[i..j] + x[k..] == x && y[..i] + y[j..] == y;
    } else {
      Elsewhere(y, i - 1, j - 1);
      CutsBetween(x, k, y, i, j);
    }
    MoveBefore(next, first, last);
    if i != j {
      ghost var nexts, prevs := {x[k - 1], y[i - 1], y[j - 1]}, {next, first, last};
      LinksKept(x, {k - 1}, nexts, prevs, wasX);
      LinksKept(y, {i - 1, j - 1}, nexts, prevs, wasY);
      JoinMoved(x, k, y, i, j);
    }
  }

  lemma CutsBetween(x: seq<Node>, k: nat, y: seq<Node>, i: nat, j: nat)
    requires Distinct(x) && Distinct(y) && forall n :: n in x ==> n !in y
    requires 1 <= k <= |x| && 1 <= i < j <= |y|
    ensures var nexts, prevs := {x[k - 1], y[i - 1], y[j - 1]}, {Closed(x)[k], Closed(y)[i], Closed(y)[j]};
      OnlyCuts(x, {k - 1}, nexts, prevs) && OnlyCuts(y, {i - 1, j - 1}, nexts, prevs)
  {
    var nexts, prevs := {x[k - 1], y[i - 1], y[j - 1]}, {Closed(x)[k], Closed(y)[i], Closed(y)[j]};
    assert forall p: nat :: p <= |x| ==> Closed(x)[p] in x;
    assert forall p: nat :: p <= |y| ==> Closed(y)[p] in y;
    forall p: nat | p < |x| && p != k - 1 ensures Untouched(Closed(x), p, nexts, prevs) {
      Elsewhere(x, p, k - 1);
    }
    forall p: nat | p < |y| && p != i - 1 && p != j - 1 ensures Untouched(Closed(y), p, nexts, prevs) {
      Elsewhere(y, p, i - 1);
      Elsewhere(y, p, j - 1);
    }
  }

  lemma Pieces(s: seq<Node>, k: nat)
    requires 1 <= k <= |s|
    ensures Closed(s)[0..k] == s[..k] && Closed(s)[k..|s| + 1] == s[k..] + [s[0]]
    ensures (s[k..] + [s[0]])[0] == Closed(s)[k] == At(s, k)
  {
  }

  lemma JoinMoved(x: seq<Node>, k: nat, y: seq<Node>, i: nat, j: nat)
    requires Distinct(x) && Distinct(y) && forall n :: n in x ==> n !in y
    requires 1 <= k <= |x| && 1 <= i < j <= |y|
    requires LinkedExcept(x, {k - 1}) && LinkedExcept(y, {i - 1, j - 1})
    requires x[k - 1].next == y[i] && y[i].prev == x[k - 1]
    requires y[j - 1].next == Closed(x)[k] && Closed(x)[k].prev == y[j - 1]
    requires y[i - 1].next == Closed(y)[j] && Closed(y)[j].prev == y[i - 1]
    ensures Ring(x[..k] + y[i..j] + x[k..])
    ensures Ring(y[..i] + y[j..])
  {
    hide Linked, LinkedExcept, Distinct;
    Segment(x, {k - 1}, 0, k);
    Segment(x, {k - 1}, k, |x| + 1);
    Segment(y, {i - 1, j - 1}, 0, i);
    Segment(y, {i - 1, j - 1}, i, j);
    Segment(y, {i - 1, j - 1}, j, |y| + 1);
    Pieces(x, k);
    Pieces(y, i);
    Pieces(y, j);
    var x1, x2, y1, s, y2 := x[..k], x[k..] + [x[0]], y[..i], y[i..j], y[j..] + [y[0]];
    assert Closed(y)[i..j] == s;
    Join(x1, s);
    Join(x1 + s, x2);
    Join(y1, y2);
    DistinctMoved(x, k, y, i, j);
    var v, w := x[..k] + y[i..j] + x[k..], y[..i] + y[j..];
    assert v[0] == x[0] && w[0] == y[0];
    assert v + [v[0]] == x1 + s + x2;
    assert w + [w[0]] == y1 + y2;
  }

  lemma DistinctMoved(x: seq<Node>, k: nat, y: seq<Node>, i: nat, j: nat)
    requires Distinct(x) && Distinct(y) && (forall n :: n in x ==> n !in y) && k <= |x| && i <= j <= |y|
    ensures Distinct(x[..k] + y[i..j] + x[k..]) && Distinct(y[..i] + y[j..])
  {
    forall a, b | 0 <= a < |x| && 0 <= b < |y| ensures x[a] != y[b] {
      assert x[a] in x && y[b] in y;
    }
  }

  /** The sequence with two neighbouring blocks exchanged. */
  ghost function Swapped(s: seq<Node>, a: nat, b: nat, c: nat): seq<Node>
    requires a <= b <= c <= |s|
  {
    s[..a] + s[b..c] + s[a..b] + s[c..]
  }

  /** The sequence with the nodes from `i` up to `j` before what was at position `k`. */
  ghost function Moved(s: seq<Node>, k: nat, i: nat, j: nat): seq<Node>
    requires i <= j <= |s| && k <= |s| && (k <= i || j <= k)
  {
    if k <= i then Swapped(s, k, i, j) else Swapped(s, i, j, k)
  }

  lemma MovedNowhere(s: seq<Node>, k: nat, i: nat, j: nat)
    requires i <= j <= |s| && k <= |s| && (k <= i || j <= k) && (i == j || j == k)
    ensures Moved(s, k, i, j) == s
  {
  }

  lemma SwappedDistinct(s: seq<Node>, a: nat, b: nat, c: nat)
    requires Distinct(s) && a <= b <= c <= |s|
    ensures Distinct(Swapped(s, a, b, c)) && forall n :: n in Swapped(s, a, b, c) <==> n in s
  {
    var t := Swapped(s, a, b, c);
    assert s == s[..a] + s[a..b] + s[b..c] + s[c..];
    assert forall p :: 0 <= p < |s| ==>
      t[p] == s[if p < a then p else if p < a + c - b then p - a + b else if p < c then p - c + b else p];
  }

  lemma CutsWithin(x: seq<Node>, k: nat, i: nat, j: nat)
    requires Distinct(x) && 1 <= k <= |x| && 1 <= i < j <= |x| && k != i && k != j
    ensures OnlyCuts(x, {i - 1, j - 1, k - 1}, {x[k - 1], x[i - 1], x[j - 1]},
                     {Closed(x)[k], Closed(x)[i], Closed(x)[j]})
    ensures x[i - 1] != x[j - 1] && x[i - 1] != x[k - 1] && x[k - 1] != x[j - 1]
    ensures Closed(x)[j] != Closed(x)[k] && Closed(x)[i] != Closed(x)[j] && Closed(x)[i] != Closed(x)[k]
  {
    var nexts, prevs := {x[k - 1], x[i - 1], x[j - 1]}, {Closed(x)[k], Closed(x)[i], Closed(x)[j]};
    Elsewhere(x, i - 1, j - 1);
    Elsewhere(x, i - 1, k - 1);
    Elsewhere(x, k - 1, j - 1);
    forall p: nat | p < |x| && p != i - 1 && p != j - 1 && p != k - 1
      ensures Untouched(Closed(x), p, nexts, prevs)
    {
      Elsewhere(x, p, i - 1);
      Elsewhere(x, p, j - 1);
      Elsewhere(x, p, k - 1);
    }
  }

  lemma JoinSwapped(x: seq<Node>, a: nat, b: nat, c: nat)
    requires Distinct(x) && 1 <= a < b < c <= |x| && LinkedExcept(x, {a - 1, b - 1, c - 1})
    requires x[a - 1].next == x[b] && x[b].prev == x[a - 1]
    requires x[c - 1].next == x[a] && x[a].prev == x[c - 1]
    requires x[b - 1].next == Closed(x)[c] && Closed(x)[c].prev == x[b - 1]
    ensures Ring(Swapped(x, a, b, c))
  {
    hide Linked, LinkedExcept, Distinct;
    var cuts: set<nat> := {a - 1, b - 1, c - 1};
    Segment(x, cuts, 0, a);
    Segment(x, cuts, a, b);
    Segment(x, cuts, b, c);
    Segment(x, cuts, c, |x| + 1);
    Pieces(x, a);
    Pieces(x, c);
    var x1, x2, x3, x4 := x[..a], x[a..b], x[b..c], x[c..] + [x[0]];
    assert Closed(x)[a..b] == x2 && Closed(x)[b..c] == x3;
    Join(x1, x3);
    Join(x1 + x3, x2);
    Join(x1 + x3 + x2, x4);
    SwappedDistinct(x, a, b, c);
    var v := Swapped(x, a, b, c);
    assert v[0] == x[0];
    assert v + [v[0]] == x1 + x3 + x2 + x4;
  }

  /** The nodes from position `i` up to `j` go before position `k` of the same ring. */
  method MoveWithin(next: Node, first: Node, last: Node, ghost x: seq<Node>, ghost k: nat, ghost i: nat, ghost j: nat)
    requires Ring(x) && 1 <= i <= j <= |x| && 1 <= k <= |x| && (k < i || (j <= k && i < k))
    requires At(x, k) == next && At(x, i) == first && At(x, j) == last
    modifies x
    ensures Ring(Moved(x, k, i, j))
  {
    hide Linked, LinkedExcept, At, Distinct, Ring, WasRing, Snap, OnlyCuts, Swapped;
    RingLink(x, k);
    RingLink(x, i);
    RingLink(x, j);
    RingWas(x);
    ghost var was := Snap(x);
    if i == j || j == k {
      MovedNowhere(x, k, i, j);
      Elsewhere(x, i - 1, k - 1);
    } else {
      CutsWithin(x, k, i, j);
    }
    MoveBefore(next, first, last);
    if i != j && j != k {
      LinksKept(x, {i - 1, j - 1, k - 1}, {x[k - 1], x[i - 1], x[j - 1]}, {next, first, last}, was);
      if k < i {
        assert {i - 1, j - 1, k - 1} == {k - 1, i - 1, j - 1};
        JoinSwapped(x, k, i, j);
      } else {
        JoinSwapped(x, i, j, k);
      }
    }
  }

  lemma MovedBehind(a: Node, c: seq<Node>, k: nat, b: Node, d: seq<Node>, i: nat, j: nat)
    requires k <= |c| && i <= j <= |d|
    ensures var x, y := [a] + c, [b] + d;
      && x[..k + 1] + y[i + 1..j + 1] + x[k + 1..] == [a] + (c[..k] + d[i..j] + c[k..])
      && y[..i + 1] + y[j + 1..] == [b] + (d[..i] + d[j..])
      && At(x, k + 1) == (if k == |c| then a else c[k])
      && At(y, i + 1) == (if i == |d| then b else d[i]) && At(y, j + 1) == (if j == |d| then b else d[j])
  {
    SlicesBehind(a, c, k, |c|);
    SlicesBehind(b, d, i, j);
    GrownBehind(a, c, k, d[i..j]);
    ShrunkBehind(b, d, i, j);
  }

  lemma SlicesBehind(a: Node, c: seq<Node>, i: nat, j: nat)
    requires i <= j <= |c|
    ensures ([a] + c)[i + 1..j + 1] == c[i..j]
    ensures ([a] + c)[..i + 1] == [a] + c[..i] && ([a] + c)[j + 1..] == c[j..]
    ensures At([a] + c, i + 1) == (if i == |c| then a else c[i]) && At([a] + c, j + 1) == (if j == |c| then a else c[j])
  {
  }

  lemma GrownBehind(a: Node, c: seq<Node>, k: nat, s: seq<Node>)
    requires k <= |c|
    ensures ([a] + c)[..k + 1] + s + ([a] + c)[k + 1..] == [a] + (c[..k] + s + c[k..])
  {
    SlicesBehind(a, c, k, k);
    assert [a] + c[..k] + s + c[k..] == [a] + (c[..k] + s + c[k..]);
  }

  lemma ShrunkBehind(a: Node, c: seq<Node>, i: nat, j: nat)
    requires i <= j <= |c|
    ensures ([a] + c)[..i + 1] + ([a] + c)[j + 1..] == [a] + (c[..i] + c[j..])
  {
    SlicesBehind(a, c, i, j);
    assert [a] + c[..i] + c[j..] == [a] + (c[..i] + c[j..]);
  }

  lemma MovedWithinBehind(a: Node, c: seq<Node>, k: nat, i: nat, j: nat)
    requires i <= j <= |c| && k <= |c| && (k <= i || j <= k)
    ensures Moved([a] + c, k + 1, i + 1, j + 1) == [a] + Moved(c, k, i, j)
  {
    hide Swapped;
    if k <= i {
      SwappedBehind(a, c, k, i, j);
    } else {
      SwappedBehind(a, c, i, j, k);
    }
  }

  lemma SwappedBehind(a: Node, c: seq<Node>, i: nat, j: nat, k: nat)
    requires i <= j <= k <= |c|
    ensures Swapped([a] + c, i + 1, j + 1, k + 1) == [a] + Swapped(c, i, j, k)
  {
    var s := [a] + c;
    assert s[..i + 1] == [a] + c[..i] && s[j + 1..k + 1] == c[j..k];
    assert s[i + 1..j + 1] == c[i..j] && s[k + 1..] == c[k..];
  }

  /** A list is the ring of its sentinel and its elements. An iterator is a node: the sentinel stands for the end. */
  class List {
    const sentinel: Node
    ghost var contents: seq<Node>

    ghost predicate Valid()
      reads this, sentinel, contents
    {
      Ring([sentinel] + contents)
    }

    /** The iterator to position `k`. */
    ghost function Pos(k: nat): Node
      requires k <= |contents|
      reads this
    {
      if k == |contents| then sentinel else contents[k]
    }

    constructor ()
      ensures Valid() && contents == [] && fresh(sentinel)
    {
      sentinel := new Node();
      contents := [];
      new;
      sentinel.prev := sentinel;
      sentinel.next := sentinel;
    }

    method Begin() returns (it: Node)
      requires Valid()
      ensures it == Pos(0)
    {
      RingLink([sentinel] + contents, 1);
      it := sentinel.next;
    }

    method Empty() returns (empty: bool)
      requires Valid()
      ensures empty <==> contents == []
    {
      RingLink([sentinel] + contents, |contents| + 1);
      return sentinel.prev == sentinel;
    }

    /** Counts the steps from the beginning to the end. */
    method Size() returns (n: nat)
      requires Valid()
      ensures n == |contents|
    {
      var it := Begin();
      n := 0;
      while it != sentinel
        invariant n <= |contents| && it == Pos(n)
        decreases |contents| - n
      {
        RingLink([sentinel] + contents, n + 2);
        it := it.next;
        n := n + 1;
      }
      AtInjective([sentinel] + contents, n + 1, |contents| + 1);
    }

    /** The new node goes before the iterator. */
    method Insert(pos: Node, x: Node, ghost k: nat)
      requires Valid() && k <= |contents| && pos == Pos(k) && x !in [sentinel] + contents
      modifies this, sentinel, contents, x
      ensures Valid() && contents == old(contents)[..k] + [x] + old(contents)[k..]
    {
      ghost var s := [sentinel] + contents;
      RingLink(s, k + 1);
      InsertBefore(pos, x, s, k + 1);
      contents := contents[..k] + [x] + contents[k..];
      assert s[..k + 1] + [x] + s[k + 1..] == [sentinel] + contents;
    }

    /** The element leaves the list; the iterator behind it is returned. */
    method Erase(pos: Node, ghost k: nat) returns (behind: Node)
      requires Valid() && k < |contents| && pos == contents[k]
      modifies this, sentinel, contents
      ensures Valid() && contents == old(contents)[..k] + old(contents)[k + 1..]
      ensures behind == Pos(k) && pos.prev == null && pos.next == null
    {
      ghost var s := [sentinel] + contents;
      RingLink(s, k + 1);
      RingLink(s, k + 2);
      behind := pos.next;
      Remove(pos, s, k + 1);
      contents := contents[..k] + contents[k + 1..];
      assert s[..k + 1] + s[k + 2..] == [sentinel] + contents;
    }

    /** The elements from `first` up to `last` leave the list one by one. */
    method EraseRange(first: Node, last: Node, ghost i: nat, ghost j: nat)
      requires Valid() && i <= j <= |contents| && first == Pos(i) && last == Pos(j)
      modifies this, sentinel, contents
      ensures Valid() && contents == old(contents)[..i] + old(contents)[j..]
    {
      var it := first;
      ghost var m := i;
      while it != last
        invariant i <= m <= j && Valid() && contents == old(contents)[..i] + old(contents)[m..]
        invariant it == Pos(i) && last == Pos(i + j - m)
        invariant Valid() && forall n :: n in contents ==> n in old(contents)
        decreases j - m
      {
        assert contents[i] == old(contents)[m];
        it := Erase(it, i);
        m := m + 1;
      }
      AtInjective([sentinel] + contents, i + 1, i + j - m + 1);
    }

    method Clear()
      requires Valid()
      modifies this, sentinel, contents
      ensures Valid() && contents == []
    {
      var first := Begin();
      EraseRange(first, sentinel, 0, |contents|);
    }

    /** Elements `i` up to `j` of another list go before position `k` of this one. */
    method Splice(pos: Node, other: List, first: Node, last: Node, ghost k: nat, ghost i: nat, ghost j: nat)
      requires Valid() && other.Valid() && other != this
      requires forall n :: n in [sentinel] + contents ==> n !in [other.sentinel] + other.contents
      requires k <= |contents| && pos == Pos(k)
      requires i <= j <= |other.contents| && first == other.Pos(i) && last == other.Pos(j)
      modifies this, other, sentinel, contents, other.sentinel, other.contents
      ensures Valid() && other.Valid()
      ensures contents == old(contents)[..k] + old(other.contents)[i..j] + old(contents)[k..]
      ensures other.contents == old(other.contents)[..i] + old(other.contents)[j..]
    {
      hide Ring;
      ghost var x, y := [sentinel] + contents, [other.sentinel] + other.contents;
      MovedBehind(sentinel, contents, k, other.sentinel, other.contents, i, j);
      MoveBetween(pos, first, last, x, k + 1, y, i + 1, j + 1);
      contents := contents[..k] + other.contents[i..j] + contents[k..];
      other.contents := other.contents[..i] + other.contents[j..];
    }

    /** The whole of another list goes before position `k`. */
    method SpliceAll(pos: Node, other: List, ghost k: nat)
      requires Valid() && other.Valid() && other != this
      requires forall n :: n in [sentinel] + contents ==> n !in [other.sentinel] + other.contents
      requires k <= |contents| && pos == Pos(k)
      modifies this, other, sentinel, contents, other.sentinel, other.contents
      ensures Valid() && other.Valid() && other.contents == []
      ensures contents == old(contents)[..k] + old(other.contents) + old(contents)[k..]
    {
      var first := other.Begin();
      Splice(pos, other, first, other.sentinel, k, 0, |other.contents|);
      assert old(other.contents)[0..|old(other.contents)|] == old(other.contents);
    }

    /** Elements `i` up to `j` go before position `k` of the same list, which does not lie among them. */
    method SpliceWithin(pos: Node, first: Node, last: Node, ghost k: nat, ghost i: nat, ghost j: nat)
      requires Valid() && i <= j <= |contents| && k <= |contents| && (k < i || (j <= k && i < k))
      requires pos == Pos(k) && first == Pos(i) && last == Pos(j)
      modifies this, sentinel, contents
      ensures Valid() && contents == Moved(old(contents), k, i, j)
    {
      hide Ring, Moved;
      ghost var x := [sentinel] + contents;
      MovedWithinBehind(sentinel, contents, k, i, j);
      MoveWithin(pos, first, last, x, k + 1, i + 1, j + 1);
      contents := Moved(contents, k, i, j);
    }
  }
}
