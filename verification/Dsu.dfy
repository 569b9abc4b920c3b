/** Disjoint-set forest with path minima, compressed to labels (include/graph/dsu.hh). Vertices are
    named by their discovery numbers, which index all of the vectors involved. */
module Dsu {

  /** `m_parents` and `m_labels`. */
  datatype Forest = Forest(parents: seq<nat>, labels: seq<nat>)

  ghost function Singletons(n: nat): Forest {
    Forest(seq(n, i => i), seq(n, i => i))
  }

  // ---- the uncompressed forest: `link[x]` is the parent that `merge` gave to `x` ----

  ghost predicate IsLink(link: seq<nat>) {
    forall x :: 0 <= x < |link| ==> link[x] <= x
  }

  /** All vertices from `x` up to its root, both included. */
  ghost function LinkPath(link: seq<nat>, x: nat): set<nat>
    requires IsLink(link) && x < |link|
  {
    if link[x] == x then {x} else {x} + LinkPath(link, link[x])
  }

  ghost predicate IsRoot(link: seq<nat>, x: nat) {
    x < |link| && link[x] == x
  }

  lemma {:induction false} PathBounds(link: seq<nat>, x: nat)
    requires IsLink(link) && x < |link|
    ensures x in LinkPath(link, x) && forall y :: y in LinkPath(link, x) ==> y <= x
  {
    if link[x] != x {
      PathBounds(link, link[x]);
    }
  }

  /** A path is a chain: what lies on it above `y` is the path of `y`. */
  lemma {:induction false} PathIsChain(link: seq<nat>, x: nat, y: nat)
    requires IsLink(link) && x < |link| && y in LinkPath(link, x)
    ensures y <= x && forall z :: z in LinkPath(link, y) <==> z in LinkPath(link, x) && z <= y
  {
    PathBounds(link, x);
    PathBounds(link, y);
    if y != x {
      PathIsChain(link, link[x], y);
    }
  }

  /** Vertex `m` has the least sdom on the path from `x` to its root, and is the nearest one that has: numbers
      decrease along the path. */
  ghost predicate IsPathMin(link: seq<nat>, sdom: seq<nat>, x: nat, m: nat)
    requires IsLink(link) && x < |link| && |sdom| == |link|
  {
    && m in LinkPath(link, x) && m < |link|
    && forall y :: y in LinkPath(link, x) && y < |link| ==>
      sdom[m] <= sdom[y] && (m < y ==> sdom[m] < sdom[y])
  }

  // ---- the cache and what it must agree with ----

  ghost predicate SameSize(f: Forest, link: seq<nat>, sdom: seq<nat>) {
    |f.parents| == |f.labels| == |sdom| == |link|
  }

  /** Roots point to and are labelled with themselves. Another vertex points to some vertex further up its
      path, and its label is at most anything it would skip by going there directly and less than anything
      nearer than the label. */
  ghost predicate Agrees(f: Forest, link: seq<nat>, sdom: seq<nat>) {
    && IsLink(link) && SameSize(f, link, sdom)
    && forall x :: 0 <= x < |link| ==> AgreesAt(f, link, sdom, x)
  }

  ghost predicate AgreesAt(f: Forest, link: seq<nat>, sdom: seq<nat>, x: nat)
    requires IsLink(link) && SameSize(f, link, sdom) && x < |link|
  {
    if link[x] == x then f.parents[x] == x && f.labels[x] == x
    else
      && f.parents[x] < x && f.parents[x] in LinkPath(link, x)
      && f.labels[x] in LinkPath(link, x) && f.labels[x] < |link|
      && (forall y :: y in LinkPath(link, x) && f.parents[x] < y < |link| ==> sdom[f.labels[x]] <= sdom[y])
      && forall y :: y in LinkPath(link, x) && f.labels[x] < y < |link| ==> sdom[f.labels[x]] < sdom[y]
  }

  /** DSU::find: recursion over the parents, then the label and the parent of `x` are rewritten. */
  ghost function Find(f: Forest, sdom: seq<nat>, x: nat): (r: (Forest, nat))
    requires |f.parents| == |f.labels| == |sdom|
    requires x < |sdom| && forall i :: 0 <= i < |sdom| ==> f.parents[i] <= i && f.labels[i] < |sdom|
    ensures |r.0.parents| == |r.0.labels| == |sdom| && r.1 < |sdom|
    ensures forall i :: 0 <= i < |sdom| ==> r.0.labels[i] < |sdom|
    decreases x
  {
    var p := f.parents[x];
    if p == x then (f, x) else
      var (g, res) := Find(f, sdom, p);
      var best := if sdom[g.labels[p]] < sdom[g.labels[x]] then g.labels[p] else g.labels[x];
      (Forest(g.parents[x := res], g.labels[x := best]), best)
  }

  lemma AgreesBounds(f: Forest, link: seq<nat>, sdom: seq<nat>)
    requires Agrees(f, link, sdom)
    ensures IsLink(link) && SameSize(f, link, sdom)
    ensures forall i :: 0 <= i < |sdom| ==> f.parents[i] <= i && f.labels[i] < |sdom|
  {
    forall i | 0 <= i < |sdom| ensures f.parents[i] <= i && f.labels[i] < |sdom| {
      assert AgreesAt(f, link, sdom, i);
    }
  }

  /** `find` returns a vertex of least sdom on the whole uncompressed path, the root included, however
      much of that path has been compressed away; and the cache still agrees with the forest. */
  lemma {:induction false} FindIsPathMin(f: Forest, link: seq<nat>, sdom: seq<nat>, x: nat)
    requires Agrees(f, link, sdom) && x < |link|
    requires forall i :: 0 <= i < |sdom| ==> f.parents[i] <= i && f.labels[i] < |sdom|
    ensures var (g, m) := Find(f, sdom, x);
      && IsPathMin(link, sdom, x, m)
      && Agrees(g, link, sdom)
      && (forall i :: x < i < |link| ==> g.parents[i] == f.parents[i] && g.labels[i] == f.labels[i])
      && g.labels[x] == m
    decreases x
  {
    assert AgreesAt(f, link, sdom, x);
    PathBounds(link, x);
    var p := f.parents[x];
    if p != x {
      FindIsPathMin(f, link, sdom, p);
      var (g, res) := Find(f, sdom, p);
      var (h, m) := Find(f, sdom, x);
      assert AgreesAt(g, link, sdom, p) && AgreesAt(g, link, sdom, x);
      PathIsChain(link, x, p);
      PathIsChain(link, p, res);
      assert IsPathMin(link, sdom, x, m);
      Rewritten(g, link, sdom, x, res, m);
    }
  }

  /** A vertex may be repointed up its path, with a label that is least on the whole of it. */
  lemma Rewritten(g: Forest, link: seq<nat>, sdom: seq<nat>, x: nat, p: nat, m: nat)
    requires Agrees(g, link, sdom) && x < |link| && link[x] != x && p < x && p in LinkPath(link, x)
    requires IsPathMin(link, sdom, x, m)
    ensures Agrees(Forest(g.parents[x := p], g.labels[x := m]), link, sdom)
  {
    hide LinkPath;
    var h := Forest(g.parents[x := p], g.labels[x := m]);
    forall i | 0 <= i < |link| ensures AgreesAt(h, link, sdom, i) {
      assert AgreesAt(g, link, sdom, i);
    }
  }

  lemma {:induction false} MergedPath(link: seq<nat>, node: nat, parent: nat, x: nat)
    requires IsLink(link) && IsRoot(link, node) && parent < node && x < |link|
    ensures IsLink(link[node := parent])
    ensures LinkPath(link[node := parent], x) ==
      if node in LinkPath(link, x) then LinkPath(link, x) + LinkPath(link, parent) else LinkPath(link, x)
  {
    var link' := link[node := parent];
    PathBounds(link, x);
    if x == node {
      PathBounds(link, parent);
      MergedPath(link, node, parent, parent);
    } else if link[x] != x {
      MergedPath(link, node, parent, link[x]);
    }
  }

  lemma MergeAgrees(f: Forest, link: seq<nat>, sdom: seq<nat>, node: nat, parent: nat)
    requires Agrees(f, link, sdom) && IsRoot(link, node) && parent < node
    ensures Agrees(f.(parents := f.parents[node := parent]), link[node := parent], sdom)
  {
    var g, link' := f.(parents := f.parents[node := parent]), link[node := parent];
    forall x | 0 <= x < |link| ensures AgreesAt(g, link', sdom, x) {
      assert AgreesAt(f, link, sdom, x);
      MergedPath(link, node, parent, x);
      PathBounds(link, parent);
      PathBounds(link, x);
      if x != node && link[x] != x && node in LinkPath(link, x) {
        // the root is the lowest vertex of the old path, so nothing new is skipped
        PathIsChain(link, x, f.parents[x]);
        PathIsChain(link, x, node);
        RootIsLowest(link, x, node);
      }
    }
  }

  lemma {:induction false} RootIsLowest(link: seq<nat>, x: nat, root: nat)
    requires IsLink(link) && x < |link| && IsRoot(link, root) && root in LinkPath(link, x)
    ensures forall y :: y in LinkPath(link, x) ==> root <= y
  {
    if link[x] != x && root != x {
      RootIsLowest(link, link[x], root);
      PathBounds(link, link[x]);
    }
  }

  lemma LowerAgrees(f: Forest, link: seq<nat>, sdom: seq<nat>, root: nat, value: nat)
    requires Agrees(f, link, sdom) && IsRoot(link, root) && value <= sdom[root]
    ensures Agrees(f, link, sdom[root := value])
  {
    var sdom' := sdom[root := value];
    forall x | 0 <= x < |link| ensures AgreesAt(f, link, sdom', x) {
      assert AgreesAt(f, link, sdom, x);
      if link[x] != x && root in LinkPath(link, x) {
        RootIsLowest(link, x, root);
      }
    }
  }

  // ---- every interleaving ----

  datatype Op = Query(x: nat) | Merge(node: nat, parent: nat) | Lower(root: nat, value: nat)

  datatype World = World(forest: Forest, link: seq<nat>, sdom: seq<nat>)

  ghost function FreshWorld(sdom: seq<nat>): (w: World)
    ensures Consistent(w) && |w.link| == |sdom|
  {
    World(Singletons(|sdom|), seq(|sdom|, i => i), sdom)
  }

  ghost predicate Allowed(w: World, op: Op) {
    match op
    case Query(x) => x < |w.link|
    case Merge(node, parent) => IsRoot(w.link, node) && parent < node
    case Lower(root, value) => IsRoot(w.link, root) && root < |w.sdom| && value <= w.sdom[root]
  }

  ghost predicate Consistent(w: World) { Agrees(w.forest, w.link, w.sdom) }

  ghost function Apply(w: World, op: Op): (w': World)
    requires Consistent(w) && Allowed(w, op)
    ensures Consistent(w') && |w'.link| == |w.link|
  {
    AgreesBounds(w.forest, w.link, w.sdom);
    match op
    case Query(x) =>
      FindIsPathMin(w.forest, w.link, w.sdom, x);
      w.(forest := Find(w.forest, w.sdom, x).0)
    case Merge(node, parent) =>
      MergeAgrees(w.forest, w.link, w.sdom, node, parent);
      World(w.forest.(parents := w.forest.parents[node := parent]), w.link[node := parent], w.sdom)
    case Lower(root, value) =>
      LowerAgrees(w.forest, w.link, w.sdom, root, value);
      w.(sdom := w.sdom[root := value])
  }

  /** Running the operations from `w`, each of them allowed in its turn, ends in `w'`. */
  ghost predicate Leads(w: World, ops: seq<Op>, w': World)
    requires Consistent(w)
    decreases |ops|
  {
    if ops == [] then w == w' else Allowed(w, ops[0]) && Leads(Apply(w, ops[0]), ops[1..], w')
  }

  lemma {:induction false} LeadsConsistent(w: World, ops: seq<Op>, w': World)
    requires Consistent(w) && Leads(w, ops, w')
    ensures Consistent(w') && |w'.link| == |w.link|
    decreases |ops|
  {
    if ops != [] {
      LeadsConsistent(Apply(w, ops[0]), ops[1..], w');
    }
  }

  /** After any interleaving of finds, merges of roots and decreases of a root's sdom, compressing or not
      makes no difference to what find finds. */
  lemma FindAfterAnyRun(sdom: seq<nat>, ops: seq<Op>, w: World, x: nat)
    requires Leads(FreshWorld(sdom), ops, w) && x < |sdom|
    ensures Agrees(w.forest, w.link, w.sdom) && |w.link| == |w.sdom| == |sdom|
    ensures forall i :: 0 <= i < |sdom| ==> w.forest.parents[i] <= i && w.forest.labels[i] < |sdom|
    ensures IsPathMin(w.link, w.sdom, x, Find(w.forest, w.sdom, x).1)
  {
    LeadsConsistent(FreshWorld(sdom), ops, w);
    AgreesBounds(w.forest, w.link, w.sdom);
    FindIsPathMin(w.forest, w.link, w.sdom, x);
  }

  /** The structure itself, over the first `size` entries of a vector of sdoms that its owner keeps
      changing. */
  class DSU {
    const sdoms: array<nat>
    const size: nat
    var parents: seq<nat>
    var labels: seq<nat>
    ghost var link: seq<nat>

    ghost function State(): Forest
      reads this
    {
      Forest(parents, labels)
    }

    ghost predicate Valid()
      reads this, sdoms
    {
      size <= sdoms.Length && Agrees(State(), link, sdoms[..size])
    }

    constructor (s: array<nat>, n: nat)
      requires n <= s.Length
      ensures sdoms == s && size == n && Valid() && link == seq(n, i => i)
    {
      sdoms, size := s, n;
      parents := seq(n, i => i);
      labels := seq(n, i => i);
      link := seq(n, i => i);
    }

    /** Terminates because parents have smaller discovery numbers. */
    method FindRec(x: nat) returns (r: nat)
      requires |parents| == |labels| == size <= sdoms.Length && x < size
      requires forall i :: 0 <= i < size ==> parents[i] <= i && labels[i] < size
      modifies this`parents, this`labels
      ensures (State(), r) == Find(old(State()), sdoms[..size], x)
      decreases x
    {
      var parent := parents[x];
      if x == parent {
        return x;
      }
      var res := FindRec(parent);
      ghost var g := State();
      var parentLabel := labels[parent];
      if sdoms[parentLabel] < sdoms[labels[x]] {
        labels := labels[x := parentLabel];
      }
      parents := parents[x := res];
      assert labels == g.labels[x := labels[x]];
      return labels[x];
    }

    method FindLabel(x: nat) returns (r: nat)
      requires Valid() && x < size
      modifies this`parents, this`labels
      ensures Valid() && IsPathMin(link, sdoms[..size], x, r)
    {
      AgreesBounds(State(), link, sdoms[..size]);
      FindIsPathMin(State(), link, sdoms[..size], x);
      r := FindRec(x);
    }

    method MergeInto(node: nat, parent: nat)
      requires Valid() && IsRoot(link, node) && parent < node
      modifies this`parents, this`link
      ensures Valid() && link == old(link)[node := parent]
    {
      MergeAgrees(State(), link, sdoms[..size], node, parent);
      parents := parents[node := parent];
      link := link[node := parent];
    }
  }
}
