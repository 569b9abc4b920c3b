/** Elimination of redundant null and bounds checks (include/opt_passes/checks_elimination.hh). */
module ChecksElimination {
  import opened SetFacts
  import opened Cfg
  import Dfs
  import DomTree
  import Dominance

  datatype Op = BoundsCheck | NullCheck | Other

  type Value = nat

  /** Instructions are named by the value they define. */
  datatype Instr = Instr(op: Op, inputs: seq<Value>, parent: Block)

  type Code = map<Value, Instr>

  /** The instruction lists of the blocks. */
  type Lists = map<Block, seq<Value>>

  /** A check with its operands. */
  predicate WellArmed(x: Instr) {
    !x.op.Other? && |x.inputs| == if x.op.BoundsCheck? then 2 else 1
  }

  predicate IsCheck(code: Code, c: Value) {
    c in code && WellArmed(code[c])
  }

  /** Checks have their operands, and every instruction is listed once, in its own block. */
  ghost predicate WellFormedCode(code: Code, lists: Lists) {
    && (forall c :: c in code && !code[c].op.Other? ==> IsCheck(code, c))
    && (forall b :: b in lists ==> Distinct(lists[b]))
    && (forall b, c :: b in lists && c in lists[b] ==> c in code && code[c].parent == b)
    && (forall c :: c in code ==> code[c].parent in lists && c in lists[code[c].parent])
  }

  /** The test that the pass makes of a user `x` of the first operand of a check `y`. */
  predicate Accepts(x: Instr, y: Instr)
    requires WellArmed(y)
  {
    && WellArmed(x) && x.op == y.op && y.inputs[0] in x.inputs
    && (y.op.BoundsCheck? ==> x.inputs[1] == y.inputs[1])
  }

  /** The test accepts nothing but checks of the same kind on the same operands if and only if `y` is not a
      bounds check of a value against itself. */
  lemma AcceptsSameOperands(y: Instr)
    requires WellArmed(y)
    ensures (y.op.BoundsCheck? ==> y.inputs[0] != y.inputs[1]) <==>
      forall x :: Accepts(x, y) ==> x.op == y.op && x.inputs == y.inputs
  {
    if y.op.BoundsCheck? && y.inputs[0] == y.inputs[1] {
      assert Accepts(Instr(BoundsCheck, [y.inputs[0] + 1, y.inputs[0]], y.parent), y);
    }
  }

  /** Exactly which checks the test accepts: those of the same kind on the same operands, and if `y` is a bounds
      check of a value against itself any other bounds check against that value. */
  lemma AcceptsIff(x: Instr, y: Instr)
    requires WellArmed(x) && WellArmed(y)
    ensures Accepts(x, y) <==>
      (x.op == y.op
       && (x.inputs == y.inputs || (y.op.BoundsCheck? && x.inputs[1] == y.inputs[0] && x.inputs[1] == y.inputs[1])))
  {
    if x.op == y.op {
      assert x.inputs == if x.op.BoundsCheck? then [x.inputs[0], x.inputs[1]] else [x.inputs[0]];
      assert y.inputs == if y.op.BoundsCheck? then [y.inputs[0], y.inputs[1]] else [y.inputs[0]];
    }
  }

  // ---- dominance between instructions ----

  /** The dominator tree, and the lists before the pass. */
  datatype Context = Context(code: Code, lists: Lists, order: seq<Block>, parent: seq<nat>)

  ghost predicate Sound(x: Context) {
    WellFormedCode(x.code, x.lists) && DomTree.IsParents(x.order, x.parent)
  }

  ghost function Place(x: Context, c: Value): nat {
    if c in x.code && x.code[c].parent in x.lists && c in x.lists[x.code[c].parent]
    then IndexOf(x.lists[x.code[c].parent], c) else 0
  }

  ghost predicate Dominates(x: Context, a: Value, b: Value)
    requires Sound(x)
  {
    a in x.code && b in x.code &&
    if x.code[a].parent != x.code[b].parent then
      DomTree.Dominates(x.order, x.parent, x.code[a].parent, x.code[b].parent)
    else Place(x, a) <= Place(x, b)
  }

  /** Check `a` makes check `b` redundant. */
  ghost predicate Covers(x: Context, a: Value, b: Value)
    requires Sound(x)
  {
    IsCheck(x.code, b) && a != b && a in x.code && Accepts(x.code[a], x.code[b]) && Dominates(x, a, b)
  }

  lemma DominatesPartialOrder(x: Context, a: Value, b: Value, c: Value)
    requires Sound(x)
    ensures Dominates(x, a, b) && Dominates(x, b, a) ==> a == b
    ensures Dominates(x, a, b) && Dominates(x, b, c) ==> Dominates(x, a, c)
  {
    if Dominates(x, a, b) && Dominates(x, b, a) {
      DomTree.DominatesIsPartialOrder(x.order, x.parent, x.code[a].parent, x.code[b].parent, x.code[a].parent);
    }
    if Dominates(x, a, b) && Dominates(x, b, c) {
      DomTree.DominatesIsPartialOrder(x.order, x.parent, x.code[a].parent, x.code[b].parent, x.code[c].parent);
      DomTree.DominatesIsPartialOrder(x.order, x.parent, x.code[a].parent, x.code[b].parent, x.code[b].parent);
    }
  }

  /** Covering is a strict partial order, for bounds checks of a value against itself as well. */
  lemma CoversStrictOrder(x: Context, a: Value, b: Value, c: Value)
    requires Sound(x)
    ensures !Covers(x, a, a)
    ensures Covers(x, a, b) && Covers(x, b, c) ==> Covers(x, a, c)
  {
    if Covers(x, a, b) && Covers(x, b, c) {
      DominatesPartialOrder(x, a, b, c);
      DominatesPartialOrder(x, a, b, a);
    }
  }

  // ---- minimal checks ----

  ghost predicate IsMinimal(x: Context, s: set<Value>, c: Value)
    requires Sound(x)
  {
    c in s && !exists a :: a in s && Covers(x, a, c)
  }

  /** Below every check there is a minimal one. */
  lemma {:induction false} MinimalBelow(x: Context, s: set<Value>, c: Value) returns (m: Value)
    requires Sound(x) && c in s
    ensures IsMinimal(x, s, m) && (m == c || Covers(x, m, c))
    decreases |Above(x, s, c)|
  {
    if IsMinimal(x, s, c) {
      return c;
    }
    var a :| a in s && Covers(x, a, c);
    AboveShrinks(x, s, a, c);
    m := MinimalBelow(x, s, a);
    CoversStrictOrder(x, m, a, c);
  }

  ghost function Above(x: Context, s: set<Value>, c: Value): set<Value>
    requires Sound(x)
  {
    set a | a in s && Covers(x, a, c)
  }

  lemma AboveShrinks(x: Context, s: set<Value>, a: Value, c: Value)
    requires Sound(x) && a in s && Covers(x, a, c)
    ensures |Above(x, s, a)| < |Above(x, s, c)|
  {
    forall b | b in Above(x, s, a) ensures b in Above(x, s, c) {
      CoversStrictOrder(x, b, a, c);
    }
    CoversStrictOrder(x, a, a, c);
    assert a in Above(x, s, c) - Above(x, s, a);
    SubsetSize(Above(x, s, a), Above(x, s, c));
  }

  /** The checks that are left after the first `k` have been visited. */
  ghost predicate Surviving(x: Context, checks: seq<Value>, k: nat, alive: set<Value>)
    requires Sound(x) && k <= |checks|
  {
    && alive <= Elems(checks)
    && (forall c :: IsMinimal(x, Elems(checks), c) ==> c in alive)
    && (forall c :: c in checks[k..] ==> c in alive)
    && (forall i :: 0 <= i < k && checks[i] in alive ==> IsMinimal(x, Elems(checks), checks[i]))
  }

  /** Visiting one more check: it goes if and only if a living check covers it, and that is the case if and
      only if it is not minimal among all checks, however many have gone already. */
  lemma VisitNext(x: Context, checks: seq<Value>, k: nat, alive: set<Value>)
    requires Sound(x) && Distinct(checks) && k < |checks| && Surviving(x, checks, k, alive)
    ensures (exists a :: a in alive && Covers(x, a, checks[k])) <==> !IsMinimal(x, Elems(checks), checks[k])
    ensures Surviving(x, checks, k + 1,
      if exists a :: a in alive && Covers(x, a, checks[k]) then alive - {checks[k]} else alive)
  {
    hide Covers;
    var c := checks[k];
    assert c in Elems(checks);
    if !IsMinimal(x, Elems(checks), c) {
      var m := MinimalBelow(x, Elems(checks), c);
      assert m in alive && Covers(x, m, c);
    }
    assert forall d :: d in checks[k + 1..] ==> d in checks[k..] && d != c;
  }

  lemma AllVisited(x: Context, checks: seq<Value>, alive: set<Value>)
    requires Sound(x) && Surviving(x, checks, |checks|, alive)
    ensures alive == set c | c in checks && IsMinimal(x, Elems(checks), c)
  {
    forall c | c in alive ensures IsMinimal(x, Elems(checks), c) {
      var i :| 0 <= i < |checks| && checks[i] == c;
    }
  }

  // ---- deleted operands ----

  /** Visiting check number `k` touches an operand that has been deleted by then: its first operand in any
      case, and its second one if it is a bounds check that goes. */
  ghost predicate Dangles(x: Context, checks: seq<Value>, k: nat)
    requires Sound(x)
  {
    k < |checks| && IsCheck(x.code, checks[k]) &&
    exists j :: 0 <= j < k && !IsMinimal(x, Elems(checks), checks[j]) && Touches(x, checks, k, checks[j])
  }

  ghost predicate Touches(x: Context, checks: seq<Value>, k: nat, v: Value)
    requires Sound(x) && k < |checks| && IsCheck(x.code, checks[k])
  {
    var c := x.code[checks[k]];
    v == c.inputs[0] || (c.op.BoundsCheck? && !IsMinimal(x, Elems(checks), checks[k]) && v == c.inputs[1])
  }

  /** If no check reads another one nothing deleted is touched. */
  lemma UnreadChecksAreSafe(x: Context, checks: seq<Value>, k: nat)
    requires Sound(x)
    requires forall c, o :: c in checks && o in checks && IsCheck(x.code, c) ==> o !in x.code[c].inputs
    ensures !Dangles(x, checks, k)
  {
    hide IsMinimal;
    if k < |checks| && IsCheck(x.code, checks[k]) {
      forall j | 0 <= j < k ensures !Touches(x, checks, k, checks[j]) {
        assert checks[j] in checks && checks[k] in checks;
      }
    }
  }

  /** The erased checks are those visited before that are not minimal. */
  lemma ErasedSoFar(x: Context, checks: seq<Value>, k: nat, alive: set<Value>)
    requires Sound(x) && Distinct(checks) && k <= |checks| && Surviving(x, checks, k, alive)
    ensures forall v :: v in Elems(checks) - alive <==>
      exists j :: 0 <= j < k && checks[j] == v && !IsMinimal(x, Elems(checks), v)
  {
    hide IsMinimal;
    forall v | v in Elems(checks) - alive
      ensures exists j :: 0 <= j < k && checks[j] == v && !IsMinimal(x, Elems(checks), v)
    {
      assert forall i :: k <= i < |checks| ==> checks[i] == checks[k..][i - k];
      var j :| 0 <= j < |checks| && checks[j] == v;
    }
    forall j | 0 <= j < k && !IsMinimal(x, Elems(checks), checks[j]) ensures checks[j] in Elems(checks) - alive {
      assert checks[j] in checks;
    }
  }

  lemma DanglesIff(x: Context, checks: seq<Value>, k: nat, alive: set<Value>)
    requires Sound(x) && Distinct(checks) && k < |checks| && IsCheck(x.code, checks[k])
    requires Surviving(x, checks, k, alive)
    ensures var c, erased := x.code[checks[k]], Elems(checks) - alive;
      Dangles(x, checks, k) <==>
        (c.inputs[0] in erased
         || (c.op.BoundsCheck? && !IsMinimal(x, Elems(checks), checks[k]) && c.inputs[1] in erased))
  {
    hide IsMinimal, Surviving;
    ErasedSoFar(x, checks, k, alive);
    if Dangles(x, checks, k) {
      var j :| 0 <= j < k && !IsMinimal(x, Elems(checks), checks[j]) && Touches(x, checks, k, checks[j]);
      assert checks[j] in Elems(checks) - alive;
    }
  }

  // ---- the pass ----

  ghost predicate IsUserMap(code: Code, users: map<Value, set<Value>>, erased: set<Value>) {
    && (forall u, v :: u in code && v in code[u].inputs ==> v in users)
    && (forall u, v :: v in users ==> (u in users[v] <==> u in code && v in code[u].inputs && u !in erased))
  }

  /** The lists are the original ones without the erased checks, in the original order. */
  ghost predicate ListsWithout(x: Context, lists: Lists, erased: set<Value>) {
    && lists.Keys == x.lists.Keys
    && (forall b :: b in lists ==> Increasing(x, lists[b]))
    && (forall b :: b in lists ==> SameMembers(lists[b], x.lists[b], erased))
  }

  ghost predicate SameMembers(list: seq<Value>, original: seq<Value>, erased: set<Value>) {
    forall c :: c in list <==> c in original && c !in erased
  }

  ghost predicate Increasing(x: Context, list: seq<Value>) {
    forall i, j :: 0 <= i < j < |list| ==> Place(x, list[i]) < Place(x, list[j])
  }

  ghost function Without(s: seq<Value>, c: Value): seq<Value>
    requires c in s
  {
    var i := IndexOf(s, c);
    s[..i] + s[i + 1..]
  }

  lemma WithoutFacts(x: Context, s: seq<Value>, c: Value)
    requires c in s && Increasing(x, s)
    ensures Increasing(x, Without(s, c)) && forall d :: d in Without(s, c) <==> d in s && d != c
  {
    var i, t := IndexOf(s, c), Without(s, c);
    forall d | d in s && d != c ensures d in t {
      var j :| 0 <= j < |s| && s[j] == d;
      assert t[if j < i then j else j - 1] == d;
    }
  }

  /** Only a collected check can cover a collected one: blocks outside the tree dominate nothing in it. */
  lemma CoverIsReached(x: Context, a: Value, c: Value)
    requires Sound(x) && Covers(x, a, c) && x.code[c].parent in x.order
    ensures IsCheck(x.code, a) && x.code[a].parent in x.order
  {
    if x.code[a].parent != x.code[c].parent {
      DomTree.AboveIsSmaller(x.order, x.parent, x.code[a].parent, IndexOf(x.order, x.code[c].parent));
    }
  }

  lemma IncreasingOrder(x: Context, list: seq<Value>, a: Value, b: Value)
    requires Increasing(x, list) && a in list && b in list
    ensures Distinct(list) && (Place(x, a) <= Place(x, b) <==> IndexOf(list, a) <= IndexOf(list, b))
  {
    hide Place;
    var i, j := IndexOf(list, a), IndexOf(list, b);
    assert list[i] == a && list[j] == b;
  }

  /** Walking the list from `a` to its end meets `b`. */
  method ComesAfter(list: seq<Value>, a: Value, b: Value) returns (r: bool)
    requires Distinct(list) && a in list && b in list
    ensures r <==> IndexOf(list, a) <= IndexOf(list, b)
  {
    var i := 0;
    while list[i] != a
      invariant i <= IndexOf(list, a)
      decreases |list| - i
    {
      i := i + 1;
    }
    IndexOfAt(list, i);
    while i < |list|
      invariant IndexOf(list, a) <= i <= |list|
      invariant IndexOf(list, b) < IndexOf(list, a) || i <= IndexOf(list, b)
    {
      if list[i] == b {
        IndexOfAt(list, i);
        return true;
      }
      i := i + 1;
    }
    return false;
  }

  // ---- the order of the visits ----

  /** Check `a` is visited before `c`: its block comes first in `rpo`, or it comes first in their block. */
  ghost predicate VisitedBefore(code: Code, lists: Lists, rpo: seq<Block>, a: Value, c: Value) {
    && a in code && c in code && code[a].parent in rpo && code[c].parent in rpo
    && (IndexOf(rpo, code[a].parent) < IndexOf(rpo, code[c].parent)
        || (code[a].parent == code[c].parent && ListedBefore(lists, code[a].parent, a, c)))
  }

  ghost predicate ListedBefore(lists: Lists, b: Block, a: Value, c: Value) {
    b in lists && a in lists[b] && c in lists[b] && IndexOf(lists[b], a) < IndexOf(lists[b], c)
  }

  ghost predicate InVisitOrder(code: Code, lists: Lists, rpo: seq<Block>, checks: seq<Value>) {
    forall i, j :: 0 <= i < j < |checks| ==> VisitedBefore(code, lists, rpo, checks[i], checks[j])
  }

  lemma VisitedNext(code: Code, lists: Lists, rpo: seq<Block>, checks: seq<Value>, c: Value)
    requires InVisitOrder(code, lists, rpo, checks)
    requires forall a :: a in checks ==> VisitedBefore(code, lists, rpo, a, c)
    ensures InVisitOrder(code, lists, rpo, checks + [c])
  {
    hide VisitedBefore;
    var all := checks + [c];
    forall i, j | 0 <= i < j < |all| ensures VisitedBefore(code, lists, rpo, all[i], all[j]) {
      assert all[i] in checks;
    }
  }

  /** Entry number `i` of block number `k` comes after the blocks before, and after the entries before. */
  lemma VisitedSoFar(code: Code, lists: Lists, rpo: seq<Block>, k: nat, i: nat, a: Value)
    requires Distinct(rpo) && k < |rpo| && rpo[k] in lists && i < |lists[rpo[k]]| && Distinct(lists[rpo[k]])
    requires a in code && lists[rpo[k]][i] in code && code[lists[rpo[k]][i]].parent == rpo[k]
    requires code[a].parent in rpo[..k] || (code[a].parent == rpo[k] && a in lists[rpo[k]][..i])
    ensures VisitedBefore(code, lists, rpo, a, lists[rpo[k]][i])
  {
    var list := lists[rpo[k]];
    IndexOfAt(rpo, k);
    IndexOfAt(list, i);
    if code[a].parent in rpo[..k] {
      var j: nat :| j < k && rpo[..k][j] == code[a].parent;
      IndexOfAt(rpo, j);
    } else {
      var j: nat :| j < i && list[..i][j] == a;
      IndexOfAt(list, j);
    }
  }

  class Pass {
    const graph: Graph
    const code: Code
    const tree: DomTree.Tree
    ghost const x: Context
    var instrs: seq<Value>
    var users: map<Value, set<Value>>
    var lists: Lists
    var deleted: set<Value>   // erased instructions; to touch one is undefined

    ghost predicate Setting()
      reads this
    {
      && Sound(x) && x.code == code
      && graph.Valid() && x.order == Dfs.Preorder(graph)
      && DomTree.IsTree(tree, x.order, x.parent)
    }

    ghost predicate Collected()
      reads this
    {
      && Distinct(instrs)
      && forall c :: c in instrs <==> IsCheck(code, c) && code[c].parent in x.order
    }

    /** What the pass keeps: users and lists agree that exactly `erased` is gone. */
    ghost predicate Kept(erased: set<Value>)
      reads this
    {
      && Setting() && Collected()
      && IsUserMap(code, users, erased) && ListsWithout(x, lists, erased) && deleted == erased
    }

    constructor (g: Graph, t: DomTree.Tree, c: Code, l: Lists, u: map<Value, set<Value>>, ghost p: seq<nat>)
      requires g.Valid() && DomTree.IsTree(t, Dfs.Preorder(g), p)
      requires WellFormedCode(c, l) && IsUserMap(c, u, {})
      ensures Setting() && instrs == [] && users == u && lists == l && code == c && graph == g && tree == t
      ensures deleted == {}
      ensures x == Context(c, l, Dfs.Preorder(g), p)
    {
      graph, tree, code, instrs, users, lists, deleted := g, t, c, [], u, l, {};
      x := Context(c, l, Dfs.Preorder(g), p);
    }

    /** visit_func: the checks of the reached blocks, in reverse postorder. */
    method VisitFunc()
      requires Setting() && instrs == [] && lists == x.lists && forall b: Block :: b < |graph.succs| ==> b in lists
      modifies this`instrs
      ensures Collected() && InVisitOrder(code, lists, Dfs.ReversePostorder(graph), instrs)
    {
      hide Graph.Valid, DomTree.IsTree, DomTree.IsParents, Dfs.Preorder, Dfs.ReversePostorder, Cfg.Reaches;
      var rpo := Dfs.DeepFirstSearchReversePostorder(graph);
      RpoBlocks(graph);
      for k := 0 to |rpo|
        invariant Distinct(instrs)
        invariant forall c :: c in instrs <==> IsCheck(code, c) && code[c].parent in rpo[..k]
        invariant InVisitOrder(code, lists, rpo, instrs)
      {
        assert rpo[k] in rpo && rpo[k] !in rpo[..k];
        assert rpo[..k + 1] == rpo[..k] + [rpo[k]];
        VisitBlock(rpo[k], rpo, k);
      }
      assert rpo[..|rpo|] == rpo;
    }

    method VisitBlock(b: Block, ghost rpo: seq<Block>, ghost k: nat)
      requires WellFormedCode(code, lists) && b in lists && Distinct(instrs)
      requires Distinct(rpo) && k < |rpo| && rpo[k] == b && b !in rpo[..k] && InVisitOrder(code, lists, rpo, instrs)
      requires forall c :: c in instrs <==> IsCheck(code, c) && code[c].parent in rpo[..k]
      modifies this`instrs
      ensures Distinct(instrs) && InVisitOrder(code, lists, rpo, instrs)
      ensures forall c :: c in instrs <==> IsCheck(code, c) && code[c].parent in rpo[..k] + [b]
    {
      var list := lists[b];
      ListsOwn(code, lists, b);
      hide WellFormedCode, InVisitOrder;
      for i := 0 to |list|
        invariant Distinct(instrs) && InVisitOrder(code, lists, rpo, instrs)
        invariant forall c :: c in instrs <==> (c in old(instrs) || (IsCheck(code, c) && c in list[..i]))
      {
        assert list[..i + 1] == list[..i] + [list[i]];
        assert list[i] in list && list[i] !in list[..i] && list[i] !in old(instrs);
        if !code[list[i]].op.Other? {
          assert IsCheck(code, list[i]);
          forall a | a in instrs ensures VisitedBefore(code, lists, rpo, a, list[i]) {
            VisitedSoFar(code, lists, rpo, k, i, a);
          }
          VisitedNext(code, lists, rpo, instrs, list[i]);
          instrs := instrs + [list[i]];
        }
      }
      assert list[..|list|] == list;
    }

    /** dominates on instructions: inside a block, walk from the dominator to the end of the list. */
    method InstrDominates(dominator: Value, dominatee: Value) returns (r: bool)
      requires Setting() && dominator in code && dominatee in code
      requires code[dominator].parent in lists && dominator in lists[code[dominator].parent]
      requires code[dominatee].parent in lists && dominatee in lists[code[dominatee].parent]
      requires Increasing(x, lists[code[dominator].parent])
      ensures r <==> Dominates(x, dominator, dominatee)
    {
      hide WellFormedCode, Graph.Valid, DomTree.IsTree, DomTree.Dominates, Dfs.Preorder;
      if dominator == dominatee {
        return true;
      }
      if code[dominator].parent != code[dominatee].parent {
        r := DomTree.DominatesQuery(tree, code[dominator].parent, code[dominatee].parent, x.order, x.parent);
        return;
      }
      IncreasingOrder(x, lists[code[dominator].parent], dominator, dominatee);
      r := ComesAfter(lists[code[dominator].parent], dominator, dominatee);
    }

    /** The null or bounds check `c`: look for a covering user of its first operand, in any order. Undefined if
        that operand is deleted, or the second one when the check is erased. */
    method VisitCheck(c: Value, ghost erased: set<Value>) returns (ok: bool, gone: bool)
      requires Kept(erased) && c in instrs && c !in erased
      modifies this`users, this`lists, this`deleted
      ensures IsCheck(code, c)
      ensures var covered := exists a :: a in code && a !in erased && Covers(x, a, c);
        && (ok <==>
            !(code[c].inputs[0] in erased || (code[c].op.BoundsCheck? && covered && code[c].inputs[1] in erased)))
        && (ok ==> (gone <==> covered))
      ensures ok ==> Kept(if gone then erased + {c} else erased)
    {
      hide WellFormedCode, Graph.Valid, DomTree.IsTree, DomTree.IsParents, Dfs.Preorder, Dominates, Place, Distinct;
      CheckShape(c, erased);
      var input := code[c].inputs[0];
      if input in deleted {
        return false, false;
      }
      var todo := users[input];
      while todo != {}
        invariant users == old(users) && lists == old(lists) && deleted == old(deleted)
        invariant input in users && todo <= users[input]
        invariant forall u :: u in users[input] - todo ==> !Covers(x, u, c)
        decreases |todo|
      {
        var user :| user in todo;
        todo := todo - {user};
        if user != c && Accepts(code[user], code[c]) {
          Listed(user, erased);
          Listed(c, erased);
          var above := InstrDominates(user, c);
          if above {
            assert Covers(x, user, c);
            if code[c].op.BoundsCheck? && code[c].inputs[1] in deleted {
              return false, false;
            }
            EraseCheck(c, erased);
            return true, true;
          }
        }
      }
      return true, false;
    }

    lemma CheckShape(c: Value, erased: set<Value>)
      requires Kept(erased) && c in instrs
      ensures IsCheck(code, c) && code[c].inputs[0] in users
      ensures forall u ::
        u in users[code[c].inputs[0]] <==> u in code && code[c].inputs[0] in code[u].inputs && u !in erased
    {
    }

    lemma Listed(c: Value, erased: set<Value>)
      requires Kept(erased) && c in code && c !in erased
      ensures code[c].parent in lists && c in lists[code[c].parent] && Increasing(x, lists[code[c].parent])
    {
      ListedIn(x, lists, erased, c);
    }

    /** remove_user for each operand, then the instruction leaves its block. */
    method EraseCheck(c: Value, ghost erased: set<Value>)
      requires Kept(erased) && c in instrs && c !in erased
      modifies this`users, this`lists, this`deleted
      ensures Kept(erased + {c})
    {
      hide Graph.Valid, DomTree.IsTree, DomTree.IsParents, Dfs.Preorder, Place, Distinct, IsUserMap, ListsWithout,
        WellFormedCode;
      CheckShape(c, erased);
      Listed(c, erased);
      UsersWithout(code, users, erased, c);
      ListWithout(x, lists, erased, c);
      users := users[code[c].inputs[0] := users[code[c].inputs[0]] - {c}];
      if code[c].op.BoundsCheck? {
        users := users[code[c].inputs[1] := users[code[c].inputs[1]] - {c}];
      }
      var list := lists[code[c].parent];
      var i := 0;
      while list[i] != c
        invariant 0 <= i < |list| && c in list[i..] && i <= IndexOf(list, c)
        invariant lists == old(lists)
        decreases |list| - i
      {
        assert list[i..] == [list[i]] + list[i + 1..];
        i := i + 1;
      }
      IncreasingDistinct(x, list);
      IndexOfAt(list, i);
      lists := lists[code[c].parent := list[..i] + list[i + 1..]];
      deleted := deleted + {c};
    }

    /** eliminate: it is undefined exactly when some visit touches a deleted check; otherwise exactly the checks
        that no other check covers are left in the blocks, in the order in which they stood, and the user sets
        know of no others. */
    method Eliminate() returns (ok: bool, ghost erased: set<Value>)
      requires Kept({})
      modifies this`users, this`lists, this`deleted
      ensures Sound(x) && (ok <==> !exists k: nat :: Dangles(x, instrs, k))
      ensures ok ==> Kept(erased) && erased == set c | c in instrs && !IsMinimal(x, Elems(instrs), c)
    {
      hide Kept, Sound, IsMinimal, Covers, Dangles, Surviving;
      KeptFacts({});
      erased := {};
      ghost var alive := Elems(instrs);
      SurvivingStart(x, instrs);
      for k := 0 to |instrs|
        invariant Kept(erased) && erased == Elems(instrs) - alive && alive <= Elems(instrs)
        invariant Sound(x) && Surviving(x, instrs, k, alive)
        invariant forall j: nat :: j < k ==> !Dangles(x, instrs, j)
      {
        var c := instrs[k];
        KeptFacts(erased);
        VisitNext(x, instrs, k, alive);
        NotYetErased(x, instrs, k, alive);
        LivingCover(c, erased, alive);
        CheckShape(c, erased);
        DanglesIff(x, instrs, k, alive);
        var gone;
        ok, gone := VisitCheck(c, erased);
        if !ok {
          assert Dangles(x, instrs, k);
          return;
        }
        if gone {
          erased := erased + {c};
          alive := alive - {c};
        }
      }
      ok := true;
      DanglesInRange(x, instrs);
      AllVisited(x, instrs, alive);
    }

    lemma KeptFacts(erased: set<Value>)
      requires Kept(erased)
      ensures Setting() && Collected() && Sound(x) && Distinct(instrs)
    {
    }

    /** Looking at all users or at the living collected checks makes no difference. */
    lemma LivingCover(c: Value, erased: set<Value>, alive: set<Value>)
      requires Setting() && Collected() && c in instrs && erased == Elems(instrs) - alive && alive <= Elems(instrs)
      ensures (exists a :: a in code && a !in erased && Covers(x, a, c)) <==> exists a :: a in alive && Covers(x, a, c)
    {
      if a :| a in code && a !in erased && Covers(x, a, c) {
        CoverIsReached(x, a, c);
        assert a in instrs;
      }
      if a :| a in alive && Covers(x, a, c) {
        assert a in code && a !in erased;
      }
    }
  }

  lemma DanglesInRange(x: Context, checks: seq<Value>)
    requires Sound(x)
    ensures forall k: nat :: Dangles(x, checks, k) ==> k < |checks|
  {
  }

  lemma ListsOwn(code: Code, lists: Lists, b: Block)
    requires WellFormedCode(code, lists) && b in lists
    ensures Distinct(lists[b])
    ensures forall c :: c in lists[b] <==> c in code && code[c].parent == b
    ensures forall c :: c in code && !code[c].op.Other? ==> IsCheck(code, c)
  {
  }

  lemma RpoBlocks(g: Graph)
    requires g.Valid()
    ensures Distinct(Dfs.ReversePostorder(g))
    ensures forall b :: b in Dfs.ReversePostorder(g) ==> b < |g.succs|
    ensures forall b :: b in Dfs.ReversePostorder(g) <==> b in Dfs.Preorder(g)
  {
    Dfs.ReversePostorderIsTopological(g);
    Dfs.ReachedExactlyOnce(g);
  }

  /** What is left covers all that is gone, and nothing that is left is redundant. */
  lemma SurvivorsSuffice(x: Context, checks: seq<Value>, alive: set<Value>)
    requires Sound(x) && alive == set c | c in checks && IsMinimal(x, Elems(checks), c)
    ensures forall c :: c in checks && c !in alive ==> exists m :: m in alive && Covers(x, m, c)
    ensures forall a, b :: a in alive && b in alive ==> !Covers(x, a, b)
  {
    hide Covers;
    forall c | c in checks && c !in alive ensures exists m :: m in alive && Covers(x, m, c) {
      var m := MinimalBelow(x, Elems(checks), c);
    }
  }

  lemma SurvivingStart(x: Context, checks: seq<Value>)
    requires Sound(x)
    ensures Surviving(x, checks, 0, Elems(checks))
  {
  }

  lemma NotYetErased(x: Context, checks: seq<Value>, k: nat, alive: set<Value>)
    requires Sound(x) && k < |checks| && Surviving(x, checks, k, alive)
    ensures checks[k] in alive
  {
    assert checks[k] in checks[k..];
  }

  lemma ListedIn(x: Context, lists: Lists, erased: set<Value>, c: Value)
    requires WellFormedCode(x.code, x.lists) && ListsWithout(x, lists, erased) && c in x.code && c !in erased
    ensures x.code[c].parent in lists && c in lists[x.code[c].parent] && Increasing(x, lists[x.code[c].parent])
  {
    assert SameMembers(lists[x.code[c].parent], x.lists[x.code[c].parent], erased);
  }

  lemma IncreasingDistinct(x: Context, s: seq<Value>)
    requires Increasing(x, s)
    ensures Distinct(s)
  {
  }

  lemma UsersWithout(code: Code, users: map<Value, set<Value>>, erased: set<Value>, c: Value)
    requires IsUserMap(code, users, erased) && IsCheck(code, c)
    ensures code[c].inputs[0] in users && (code[c].op.BoundsCheck? ==> code[c].inputs[1] in users)
    ensures var first := users[code[c].inputs[0] := users[code[c].inputs[0]] - {c}];
      IsUserMap(code,
        if code[c].op.BoundsCheck? then first[code[c].inputs[1] := first[code[c].inputs[1]] - {c}] else first,
        erased + {c})
  {
  }

  lemma ListWithout(x: Context, lists: Lists, erased: set<Value>, c: Value)
    requires WellFormedCode(x.code, x.lists) && ListsWithout(x, lists, erased) && c in x.code && c !in erased
    ensures var b := x.code[c].parent;
      && b in lists && c in lists[b]
      && ListsWithout(x, lists[b := Without(lists[b], c)], erased + {c})
  {
    hide Place, Without;
    var p := x.code[c].parent;
    ListedIn(x, lists, erased, c);
    WithoutFacts(x, lists[p], c);
    var lists' := lists[p := Without(lists[p], c)];
    forall b | b in lists' ensures SameMembers(lists'[b], x.lists[b], erased + {c}) {
      assert b in x.lists && SameMembers(lists[b], x.lists[b], erased);
      assert b != p ==> c !in x.lists[b];
    }
  }

  /** run: build the dominator tree, collect the checks of the reached blocks, eliminate. The result does not
      depend on the order in which users are visited. On a graph without traps every execution that comes to
      a lost check has passed one that is left and tests the same. */
  method Run(g: Graph, code: Code, lists: Lists, users: map<Value, set<Value>>)
    returns (ok: bool, left: Lists, ghost x: Context, ghost checks: seq<Value>)
    requires g.Valid() && LinksMirrored(g) && PredsReached(g)
    requires WellFormedCode(code, lists) && IsUserMap(code, users, {})
    requires forall b: Block :: b < |g.succs| ==> b in lists
    ensures Sound(x) && x.code == code && x.lists == lists && x.order == Dfs.Preorder(g)
    ensures exists sdom :: DomTree.IsComputed(g, x.order, sdom, x.parent)
    ensures Distinct(checks) && forall c :: c in checks <==> IsCheck(code, c) && code[c].parent in x.order
    ensures InVisitOrder(code, lists, Dfs.ReversePostorder(g), checks)
    ensures ok <==> !exists k: nat :: Dangles(x, checks, k)
    ensures ok ==> ListsWithout(x, left, set c | c in checks && !IsMinimal(x, Elems(checks), c))
    ensures ok ==> OnlyRedundantLost(x, left) && NoTwinsLeft(x, left)
    ensures ok && TrapFree(g) ==> LostAreTested(g, code, lists, left)
  {
    hide Sound, ListsWithout, IsMinimal, OnlyRedundantLost, LinksMirrored, PredsReached, WellFormedCode, Graph.Valid,
      Dangles, TrapFree, LostAreTested, NoTwinsLeft, InVisitOrder;
    var tree, parent := DomTree.BuildDomTree(g);
    var pass := new Pass(g, tree, code, lists, users, parent);
    x := pass.x;
    pass.VisitFunc();
    checks := pass.instrs;
    NothingErased(x, lists);
    ghost var erased;
    ok, erased := pass.Eliminate();
    left := pass.lists;
    if ok {
      RedundantLost(x, checks, left);
      TwinsGone(x, checks, left);
      if TrapFree(g) {
        LostTested(g, x, left);
      }
    }
  }

  /** Nothing but checks is lost, and every lost check is covered by one that is left. */
  ghost predicate OnlyRedundantLost(x: Context, left: Lists)
    requires Sound(x)
  {
    && left.Keys == x.lists.Keys
    && forall b, c :: b in x.lists && c in x.lists[b] && c !in left[b] ==> b in x.order && IsRedundant(x, left, c)
  }

  ghost predicate IsRedundant(x: Context, left: Lists, c: Value)
    requires Sound(x)
  {
    IsCheck(x.code, c) && exists a: Value :: Covers(x, a, c) && Stays(x.code, left, a)
  }

  ghost predicate Stays(code: Code, left: Lists, a: Value) {
    a in code && code[a].parent in left && a in left[code[a].parent]
  }

  lemma RedundantLost(x: Context, checks: seq<Value>, left: Lists)
    requires Sound(x) && (forall c :: c in checks <==> IsCheck(x.code, c) && x.code[c].parent in x.order)
    requires ListsWithout(x, left, set c | c in checks && !IsMinimal(x, Elems(checks), c))
    ensures OnlyRedundantLost(x, left)
  {
    hide IsMinimal, Increasing, Accepts, Dominates;
    var all := Elems(checks);
    forall b, c | b in x.lists && c in x.lists[b] && c !in left[b]
      ensures b in x.order && IsRedundant(x, left, c)
    {
      assert SameMembers(left[b], x.lists[b], set c | c in checks && !IsMinimal(x, all, c));
      var m := MinimalBelow(x, all, c);
      MinimalMember(x, all, m);
      var p := x.code[m].parent;
      assert SameMembers(left[p], x.lists[p], set c | c in checks && !IsMinimal(x, all, c));
      assert Stays(x.code, left, m);
    }
  }

  /** Two null checks, or two bounds checks, on the same operands. */
  predicate Twins(a: Instr, b: Instr) {
    a.op == b.op && (a.op.NullCheck? || a.op.BoundsCheck?) && a.inputs == b.inputs
  }

  /** Among what is left in reached blocks no block has two checks alike, and no block of the tree has one that a
      block below it has too. */
  ghost predicate NoTwinsLeft(x: Context, left: Lists)
    requires Sound(x)
  {
    forall b: Block, c: Block, i: nat, j: nat :: NotTwinsThere(x, left, b, c, i, j)
  }

  ghost predicate NotTwinsThere(x: Context, left: Lists, b: Block, c: Block, i: nat, j: nat)
    requires Sound(x)
  {
    && b in x.order && c in x.order && b in left && c in left && i < |left[b]| && j < |left[c]|
    && left[b][i] in x.code && left[c][j] in x.code && Twins(x.code[left[b][i]], x.code[left[c][j]]) ==>
      if b == c then i == j else !DomTree.Dominates(x.order, x.parent, b, c)
  }

  lemma TwinsGone(x: Context, checks: seq<Value>, left: Lists)
    requires Sound(x) && (forall c :: c in checks <==> IsCheck(x.code, c) && x.code[c].parent in x.order)
    requires ListsWithout(x, left, set c | c in checks && !IsMinimal(x, Elems(checks), c))
    ensures NoTwinsLeft(x, left)
  {
    hide IsMinimal, ListsWithout, DomTree.Dominates, DomTree.IsParents, Accepts, Dominates;
    var all := Elems(checks);
    var gone := set c | c in checks && !IsMinimal(x, all, c);
    forall b: Block, c: Block, i: nat, j: nat | b in x.order && c in x.order && b in left && c in left
      && i < |left[b]| && j < |left[c]| && left[b][i] in x.code && left[c][j] in x.code
      && Twins(x.code[left[b][i]], x.code[left[c][j]])
      ensures if b == c then i == j else !DomTree.Dominates(x.order, x.parent, b, c)
    {
      LeftIs(x, left, gone, b, i);
      LeftIs(x, left, gone, c, j);
      var m, n := left[b][i], left[c][j];
      MinimalNotCovered(x, all, m, n);
      MinimalNotCovered(x, all, n, m);
      if b == c && i != j {
        LeftDistinct(x, left, gone, b, i, j);
      }
      if m != n {
        TwinsCover(x, m, n);
      }
    }
  }

  lemma LeftIs(x: Context, left: Lists, gone: set<Value>, b: Block, i: nat)
    requires Sound(x) && ListsWithout(x, left, gone) && b in left && i < |left[b]| && left[b][i] in x.code
    ensures x.code[left[b][i]].parent == b && left[b][i] !in gone && b in x.lists && left[b][i] in x.lists[b]
  {
    assert SameMembers(left[b], x.lists[b], gone) && left[b][i] in left[b];
  }

  lemma LeftDistinct(x: Context, left: Lists, gone: set<Value>, b: Block, i: nat, j: nat)
    requires Sound(x) && ListsWithout(x, left, gone) && b in left && i < |left[b]| && j < |left[b]| && i != j
    ensures left[b][i] != left[b][j]
  {
    IncreasingDistinct(x, left[b]);
  }

  lemma MinimalNotCovered(x: Context, all: set<Value>, m: Value, n: Value)
    requires Sound(x) && m in all && n in all && IsMinimal(x, all, n)
    ensures !Covers(x, m, n)
  {
  }

  /** Of two different checks alike the one that comes first, or sits above in the tree, covers the other. */
  lemma TwinsCover(x: Context, m: Value, n: Value)
    requires Sound(x) && IsCheck(x.code, m) && IsCheck(x.code, n) && Twins(x.code[m], x.code[n]) && m != n
    ensures var b, c := x.code[m].parent, x.code[n].parent;
      && (b != c && DomTree.Dominates(x.order, x.parent, b, c) ==> Covers(x, m, n))
      && (b == c ==> Covers(x, m, n) || Covers(x, n, m))
  {
    AcceptsIff(x.code[m], x.code[n]);
    AcceptsIff(x.code[n], x.code[m]);
  }

  // ---- executions ----

  /** The semidominators of the graph set no trap, so its tree relation implies dominance. */
  ghost predicate TrapFree(g: Graph)
    requires g.Valid()
  {
    forall sdom ::
      |sdom| == |Dfs.Preorder(g)| && DomTree.SemisFrom(g, Dfs.Preorder(g), sdom, 0) ==> Dominance.NoTrap(sdom)
  }

  /** Whoever comes to instruction `c` from the head has executed `a`. */
  ghost predicate RunsBefore(g: Graph, code: Code, lists: Lists, a: Value, c: Value)
    requires a in code && c in code
  {
    var p, q := code[a].parent, code[c].parent;
    if p != q then Dominance.OnEveryPath(g, p, q)
    else p in lists && a in lists[p] && c in lists[p] && IndexOf(lists[p], a) < IndexOf(lists[p], c)
  }

  /** For every lost check one that passes the operand test is left and runs before it. */
  ghost predicate LostAreTested(g: Graph, code: Code, lists: Lists, left: Lists) {
    forall b, c :: b in lists && b in left && c in lists[b] && c !in left[b] ==>
      IsTested(g, code, lists, left, c)
  }

  ghost predicate IsTested(g: Graph, code: Code, lists: Lists, left: Lists, c: Value) {
    && IsCheck(code, c)
    && exists a: Value :: Stays(code, left, a) && Accepts(code[a], code[c]) && RunsBefore(g, code, lists, a, c)
  }

  lemma CoverRunsBefore(g: Graph, x: Context, sdom: seq<nat>, a: Value, c: Value)
    requires g.Valid() && Sound(x) && x.order == Dfs.Preorder(g) && Covers(x, a, c)
    requires DomTree.IsComputed(g, x.order, sdom, x.parent) && Dominance.NoTrap(sdom)
    ensures RunsBefore(g, x.code, x.lists, a, c)
  {
    hide Graph.Valid, Dfs.Preorder, DomTree.IsComputed, DomTree.Dominates, Dominance.NoTrap, Dominance.OnEveryPath;
    if x.code[a].parent != x.code[c].parent {
      Dominance.TreeImpliesDominance(g, sdom, x.parent, x.code[a].parent, x.code[c].parent);
    } else {
      assert x.lists[x.code[a].parent][Place(x, a)] == a;
    }
  }

  lemma LostCover(x: Context, left: Lists, b: Block, c: Value) returns (a: Value)
    requires Sound(x) && OnlyRedundantLost(x, left) && b in x.lists && b in left && c in x.lists[b] && c !in left[b]
    ensures IsCheck(x.code, c) && Covers(x, a, c) && Stays(x.code, left, a)
  {
    hide Sound, Covers, Stays;
    assert IsRedundant(x, left, c);
    a :| Covers(x, a, c) && Stays(x.code, left, a);
  }

  lemma LostTested(g: Graph, x: Context, left: Lists)
    requires g.Valid() && Sound(x) && x.order == Dfs.Preorder(g) && OnlyRedundantLost(x, left) && TrapFree(g)
    requires exists sdom :: DomTree.IsComputed(g, x.order, sdom, x.parent)
    ensures LostAreTested(g, x.code, x.lists, left)
  {
    hide Graph.Valid, Dfs.Preorder, DomTree.SemisFrom, DomTree.ParentAt, Dominance.NoTrap, RunsBefore, Dominates,
      Sound;
    var sdom :| DomTree.IsComputed(g, x.order, sdom, x.parent);
    forall b, c | b in x.lists && b in left && c in x.lists[b] && c !in left[b]
      ensures IsTested(g, x.code, x.lists, left, c)
    {
      var a := LostCover(x, left, b, c);
      CoverRunsBefore(g, x, sdom, a, c);
    }
  }

  lemma MinimalMember(x: Context, s: set<Value>, m: Value)
    requires Sound(x) && IsMinimal(x, s, m)
    ensures m in s
  {
  }

  lemma NothingErased(x: Context, lists: Lists)
    requires WellFormedCode(x.code, x.lists) && lists == x.lists
    ensures ListsWithout(x, lists, {})
  {
    forall b | b in lists ensures Increasing(x, lists[b]) {
      forall i, j | 0 <= i < j < |lists[b]| ensures Place(x, lists[b][i]) < Place(x, lists[b][j]) {
        IndexOfAt(lists[b], i);
        IndexOfAt(lists[b], j);
        assert lists[b][i] in lists[b] && lists[b][j] in lists[b];
      }
    }
  }
}
