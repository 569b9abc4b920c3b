/** The constant-folding pass (include/opt_passes/constant_fold.hh). */
module ConstantFold {
  import opened SetFacts
  import opened Wrappers
  import opened ConstEval
  import opened UseDef

  type Block = nat

  datatype Opcode =
    | NONE | BIN(op: BinOp) | NEG | RET | BRANCH | IF | PHI | CAST | CONST | PARAM | CALL | BOUNDS_CHECK | NULL_CHECK

  /** `val` counts for constants only. */
  datatype Instr = Instr(op: Opcode, ty: TypeId, val: int, parent: Block)

  /** A function: its instructions, their use-def chains, and the instruction lists of its blocks. */
  datatype Func = Func(code: map<Id, Instr>, chains: Chains, lists: map<Block, seq<Id>>)

  /** The pass leaves these alone. */
  predicate Unfoldable(op: Opcode) {
    op in {NONE, RET, BRANCH, IF, PHI, CONST}
  }

  ghost predicate OperandsFit(s: Func, i: Id) {
    && i in s.code && i in s.chains.inputs
    && (s.code[i].op.BIN? ==> |s.chains.inputs[i]| == 2)
    && (s.code[i].op.BIN? ==> forall v :: v in s.chains.inputs[i] ==> v in s.code && s.code[v].ty == s.code[i].ty)
    && (s.code[i].op.CONST? ==> s.chains.inputs[i] == [])
  }

  /** Chains are symmetric, binary instructions read two values of their own type, constants read nothing,
      and every instruction stands in the list of its block, once. */
  ghost predicate WellFormed(s: Func) {
    && Symmetric(s.chains) && s.chains.inputs.Keys == s.code.Keys
    && (forall i :: i in s.code ==> OperandsFit(s, i))
    && ListsFit(s)
  }

  ghost predicate ListsFit(s: Func) {
    && (forall i :: i in s.code ==> s.code[i].parent in s.lists && i in s.lists[s.code[i].parent])
    && (forall b, i :: b in s.lists && i in s.lists[b] ==> i in s.code && s.code[i].parent == b)
    && (forall b :: b in s.lists ==> Distinct(s.lists[b]))
  }

  // ---- meaning ----

  /** An assignment gives every instruction a value. Operations that the pass does not evaluate, PHIs and
      parameters among them, may have any value. */
  type Assignment = Id -> int

  ghost predicate InstrHolds(s: Func, i: Id, sigma: Assignment)
    requires i in s.code
  {
    match s.code[i].op
    case CONST => sigma(i) == s.code[i].val
    case BIN(op) => OperandsFit(s, i) ==>
      Means(op, s.code[i].ty, sigma(s.chains.inputs[i][0]), sigma(s.chains.inputs[i][1]), sigma(i))
    case _ => true
  }

  /** The values that an execution of the function can give its instructions. */
  ghost predicate Consistent(s: Func, sigma: Assignment) {
    forall i :: i in s.code ==> InstrHolds(s, i, sigma)
  }

  // ---- one fold ----

  /** is_really_need_folding. An instruction without operands passes this test. */
  predicate AllConst(code: map<Id, Instr>, operands: seq<Id>)
  {
    forall k :: 0 <= k < |operands| ==> operands[k] in code && code[operands[k]].op.CONST?
  }

  /** fold_operation: None where it returns nothing (any opcode that is not binary) or the evaluation fails. */
  ghost function FoldedValue(s: Func, i: Id): Option<int>
    requires i in s.code && OperandsFit(s, i)
  {
    if s.code[i].op.BIN? then
      var ops := s.chains.inputs[i];
      assert ops[0] in ops && ops[1] in ops;
      Eval(s.code[i].op.op, s.code[i].ty, s.code[ops[0]].val, s.code[ops[1]].val)
    else None
  }

  ghost function Allocate(c: Chains, n: Id): Chains {
    Chains(c.inputs[n := []], c.users[n := {}])
  }

  ghost function Release(c: Chains, i: Id): Chains {
    Chains(c.inputs - {i}, c.users - {i})
  }

  /** The new constant `n` takes the place of instruction `i`: in the chains, in the list, and in the code. */
  ghost function FoldAt(s: Func, i: Id, n: Id, v: int): Func
    requires i in s.code && i in s.chains.inputs && i in s.chains.users
  {
    var x := s.code[i];
    Func(
      (s.code - {i})[n := Instr(CONST, x.ty, v, x.parent)],
      Release(UsersReplaced(InputsCleaned(Allocate(s.chains, n), i), n, i), i),
      if x.parent in s.lists then s.lists[x.parent := Replaced(s.lists[x.parent], i, n)] else s.lists)
  }

  lemma AllocateSymmetric(c: Chains, n: Id)
    requires Symmetric(c) && n !in c.inputs
    ensures Symmetric(Allocate(c, n))
  {
  }

  lemma ReleaseSymmetric(c: Chains, i: Id)
    requires Symmetric(c) && i in c.inputs && c.inputs[i] == [] && c.users[i] == {}
    ensures Symmetric(Release(c, i))
  {
  }

  lemma AllocateClean(c: Chains, i: Id, n: Id)
    requires Symmetric(c) && i in c.inputs && n !in c.inputs
    ensures var b := InputsCleaned(Allocate(c, n), i);
      Symmetric(b) && b.inputs == c.inputs[n := []][i := []] && b.users.Keys == b.inputs.Keys
  {
    hide Symmetric, InputsCleaned;
    AllocateSymmetric(c, n);
    CleanInputsSymmetric(Allocate(c, n), i);
    CleanInputsFacts(Allocate(c, n), i);
    SameKeys(InputsCleaned(Allocate(c, n), i));
  }

  lemma ReplaceRelease(b: Chains, i: Id, n: Id)
    requires Symmetric(b) && i in b.inputs && n in b.inputs && i in b.users && n in b.users && n != i
    requires b.inputs[i] == []
    ensures var r := Release(UsersReplaced(b, n, i), i);
      && Symmetric(r) && r.inputs.Keys == b.inputs.Keys - {i}
      && forall j :: j in b.inputs && j != i ==> r.inputs[j] == Replaced(b.inputs[j], i, n)
  {
    hide Symmetric, UsersReplaced;
    ReplaceUsersSymmetric(b, n, i);
    ReplaceUsersFacts(b, n, i);
    assert Replaced([], i, n) == [];
    ReleaseSymmetric(UsersReplaced(b, n, i), i);
  }

  /** What the chains look like after a fold: `i` is gone, everyone who read it reads `n`, `n` reads nothing. */
  lemma FoldChains(c: Chains, i: Id, n: Id)
    requires Symmetric(c) && i in c.inputs && n !in c.inputs
    ensures var r := Release(UsersReplaced(InputsCleaned(Allocate(c, n), i), n, i), i);
      && Symmetric(r) && r.inputs.Keys == c.inputs.Keys - {i} + {n}
      && r.inputs[n] == []
      && forall j :: j in c.inputs && j != i ==> r.inputs[j] == Replaced(c.inputs[j], i, n)
  {
    hide Symmetric, UsersReplaced, InputsCleaned, Release;
    AllocateClean(c, i, n);
    ReplaceRelease(InputsCleaned(Allocate(c, n), i), i, n);
    assert Replaced([], i, n) == [];
  }

  lemma SameKeys(c: Chains)
    requires Symmetric(c)
    ensures c.inputs.Keys == c.users.Keys
  {
  }

  /** The fold of instruction `i` into constant `n` is well defined, with value `v`. */
  ghost predicate CanFold(s: Func, i: Id, n: Id, v: int) {
    && WellFormed(s) && i in s.code && s.code[i].op.BIN? && n !in s.code
    && AllConst(s.code, s.chains.inputs[i]) && FoldedValue(s, i) == Some(v)
  }

  lemma FoldInputs(s: Func, i: Id, n: Id, v: int)
    requires CanFold(s, i, n, v)
    ensures i in s.chains.users
    ensures var r := FoldAt(s, i, n, v);
      && Symmetric(r.chains) && r.chains.inputs.Keys == r.code.Keys == s.code.Keys - {i} + {n}
      && r.chains.inputs[n] == [] && r.code[n] == Instr(CONST, s.code[i].ty, v, s.code[i].parent)
      && forall j :: j in s.code && j != i ==>
        r.code[j] == s.code[j] && r.chains.inputs[j] == Replaced(s.chains.inputs[j], i, n)
  {
    hide Symmetric, UsersReplaced, InputsCleaned, Allocate, Release, Replaced, OperandsFit, FoldedValue, AllConst;
    SameKeys(s.chains);
    FoldChains(s.chains, i, n);
  }

  lemma FoldOperands(s: Func, i: Id, n: Id, v: int, j: Id)
    requires CanFold(s, i, n, v) && i in s.chains.users && j in s.code && j != i
    ensures OperandsFit(FoldAt(s, i, n, v), j)
  {
    hide Symmetric, FoldAt, FoldedValue, AllConst;
    FoldInputs(s, i, n, v);
    var r := FoldAt(s, i, n, v);
    assert OperandsFit(s, j);
    forall w | w in r.chains.inputs[j] && s.code[j].op.BIN? ensures w in r.code && r.code[w].ty == r.code[j].ty {
      var k :| 0 <= k < |r.chains.inputs[j]| && r.chains.inputs[j][k] == w;
      assert s.chains.inputs[j][k] in s.chains.inputs[j];
    }
  }

  lemma FoldLists(s: Func, i: Id, n: Id, v: int)
    requires CanFold(s, i, n, v) && i in s.chains.users
    ensures ListsFit(FoldAt(s, i, n, v))
  {
    hide Symmetric, FoldedValue, AllConst, OperandsFit, Release, UsersReplaced, InputsCleaned, Replaced;
    var p := s.code[i].parent;
    ReplacedMembers(s.lists[p], i, n);
    ReplacedDistinct(s.lists[p], i, n);
    assert n !in s.lists[p];
  }

  lemma ReplacedDistinct(list: seq<Id>, o: Id, n: Id)
    requires Distinct(list) && n !in list
    ensures Distinct(Replaced(list, o, n))
  {
  }

  /** A fold keeps the function well formed, its chains symmetric in particular. */
  lemma FoldWellFormed(s: Func, i: Id, n: Id, v: int)
    requires CanFold(s, i, n, v)
    ensures i in s.chains.users && WellFormed(FoldAt(s, i, n, v))
  {
    hide Symmetric, FoldAt, OperandsFit, AllConst, FoldedValue, ListsFit;
    FoldInputs(s, i, n, v);
    FoldLists(s, i, n, v);
    var r := FoldAt(s, i, n, v);
    assert OperandsFit(r, n) by { ConstantFits(r, n); }
    forall j | j in r.code && j != n ensures OperandsFit(r, j) {
      FoldOperands(s, i, n, v, j);
    }
  }

  lemma ConstantFits(s: Func, n: Id)
    requires n in s.code && n in s.chains.inputs && s.code[n].op.CONST? && s.chains.inputs[n] == []
    ensures OperandsFit(s, n)
  {
  }

  /** The order comparisons are evaluated as strict ones, which is right unless the operands are equal. */
  ghost predicate EvaluatesRight(s: Func, i: Id, sigma: Assignment)
    requires i in s.code && i in s.chains.inputs
  {
    s.code[i].op == BIN(LE) || s.code[i].op == BIN(GE) ==>
      |s.chains.inputs[i]| == 2 && sigma(s.chains.inputs[i][0]) != sigma(s.chains.inputs[i][1])
  }

  /** One fold preserves meaning, both ways, exactly when its operation is evaluated right: an assignment that
      gives the constant the value of the instruction it replaces fits the function before if and only if it
      fits it after. */
  lemma FoldPreservesMeaning(s: Func, i: Id, n: Id, v: int, sigma: Assignment)
    requires CanFold(s, i, n, v) && sigma(n) == sigma(i) && i in s.chains.inputs && i in s.chains.users
    ensures EvaluatesRight(s, i, sigma) ==> (Consistent(s, sigma) <==> Consistent(FoldAt(s, i, n, v), sigma))
    ensures (Consistent(FoldAt(s, i, n, v), sigma) && InstrHolds(s, i, sigma)
      ==> Consistent(s, sigma) && EvaluatesRight(s, i, sigma))
  {
    hide WellFormed, FoldAt, InstrHolds, EvaluatesRight, AllConst, FoldedValue, OperandsFit, Replaced;
    FoldInputs(s, i, n, v);
    var r := FoldAt(s, i, n, v);
    IsConstant(r, n, v, sigma);
    forall j | j in s.code && j != i ensures InstrHolds(s, j, sigma) <==> InstrHolds(r, j, sigma) {
      OthersHold(s, i, n, v, sigma, j);
    }
    if Consistent(s, sigma) {
      ConstantHolds(s, i, v, sigma);
    }
    if Consistent(r, sigma) {
      FoldedHolds(s, i, n, v, sigma);
    }
  }

  lemma IsConstant(s: Func, n: Id, v: int, sigma: Assignment)
    requires n in s.code && s.code[n].op.CONST? && s.code[n].val == v
    ensures InstrHolds(s, n, sigma) <==> sigma(n) == v
  {
  }

  lemma ReplacedReads(s: Func, r: Func, i: Id, n: Id, j: Id, sigma: Assignment)
    requires j in s.code && j in r.code && s.code[j] == r.code[j] && OperandsFit(s, j) && OperandsFit(r, j)
    requires r.chains.inputs[j] == Replaced(s.chains.inputs[j], i, n) && sigma(n) == sigma(i)
    ensures InstrHolds(s, j, sigma) <==> InstrHolds(r, j, sigma)
  {
    hide Means;
  }

  lemma OthersHold(s: Func, i: Id, n: Id, v: int, sigma: Assignment, j: Id)
    requires CanFold(s, i, n, v) && sigma(n) == sigma(i) && i in s.chains.users && j in s.code && j != i
    ensures j in FoldAt(s, i, n, v).code
    ensures InstrHolds(s, j, sigma) <==> InstrHolds(FoldAt(s, i, n, v), j, sigma)
  {
    hide Symmetric, FoldAt, Means, AllConst, FoldedValue, OperandsFit;
    FoldInputs(s, i, n, v);
    FoldOperands(s, i, n, v, j);
    assert OperandsFit(s, j);
    ReplacedReads(s, FoldAt(s, i, n, v), i, n, j, sigma);
  }

  lemma ConstantHolds(s: Func, i: Id, v: int, sigma: Assignment)
    requires WellFormed(s) && i in s.code && i in s.chains.inputs && s.code[i].op.BIN?
    requires AllConst(s.code, s.chains.inputs[i]) && FoldedValue(s, i) == Some(v) && Consistent(s, sigma)
    ensures sigma(i) == v <==> EvaluatesRight(s, i, sigma)
  {
    hide Symmetric, Means, Eval;
    var ops := s.chains.inputs[i];
    assert OperandsFit(s, i) && ops[0] in ops && ops[1] in ops;
    assert InstrHolds(s, i, sigma) && InstrHolds(s, ops[0], sigma) && InstrHolds(s, ops[1], sigma);
    EvalMeansIff(s.code[i].op.op, s.code[i].ty, sigma(ops[0]), sigma(ops[1]), sigma(i));
  }

  lemma FoldedHolds(s: Func, i: Id, n: Id, v: int, sigma: Assignment)
    requires CanFold(s, i, n, v) && sigma(n) == sigma(i) && i in s.chains.inputs && i in s.chains.users
    requires Consistent(FoldAt(s, i, n, v), sigma)
    ensures InstrHolds(s, i, sigma) <==> EvaluatesRight(s, i, sigma)
  {
    hide Symmetric, Means, Eval, FoldAt, Replaced;
    FoldInputs(s, i, n, v);
    var r, ops := FoldAt(s, i, n, v), s.chains.inputs[i];
    assert OperandsFit(s, i) && ops[0] in ops && ops[1] in ops;
    assert InstrHolds(r, n, sigma) && InstrHolds(r, ops[0], sigma) && InstrHolds(r, ops[1], sigma);
    EvalMeansIff(s.code[i].op.op, s.code[i].ty, sigma(ops[0]), sigma(ops[1]), sigma(i));
  }

  // ---- the pass ----

  /** A function under way: `rep[i]` is the constant that took the place of instruction `i`. */
  datatype Progress = Progress(func: Func, rep: map<Id, Id>, next: Id)

  /** The collected instructions are still there, once each, and identifiers from `next` on are free. */
  ghost predicate Ready(p: Progress, rest: seq<Id>) {
    && WellFormed(p.func) && Distinct(rest)
    && (forall i :: i in rest ==> i in p.func.code)
    && (forall i :: i in p.func.code ==> i < p.next)
  }

  /** One turn of the loop; None if the operation has no evaluation. */
  ghost function Turn(p: Progress, i: Id): Option<Progress>
    requires WellFormed(p.func) && i in p.func.code
  {
    SameKeys(p.func.chains);
    assert OperandsFit(p.func, i);
    if !AllConst(p.func.code, p.func.chains.inputs[i]) then Some(p)
    else match FoldedValue(p.func, i)
      case None => None
      case Some(v) => Some(Progress(FoldAt(p.func, i, p.next, v), p.rep[i := p.next], p.next + 1))
  }

  ghost predicate Folds(p: Progress, i: Id, v: int, q: Progress) {
    && CanFold(p.func, i, p.next, v) && i in p.func.chains.inputs && i in p.func.chains.users
    && q == Progress(FoldAt(p.func, i, p.next, v), p.rep[i := p.next], p.next + 1)
  }

  lemma TurnFacts(p: Progress, i: Id)
    requires WellFormed(p.func) && i in p.func.code && p.next !in p.func.code && Turn(p, i).Some?
    ensures i in p.func.chains.inputs
    ensures var q := Turn(p, i).value;
      if AllConst(p.func.code, p.func.chains.inputs[i]) then exists v :: Folds(p, i, v, q) else q == p
  {
    hide Symmetric, FoldAt, OperandsFit;
    SameKeys(p.func.chains);
    assert OperandsFit(p.func, i);
    if AllConst(p.func.code, p.func.chains.inputs[i]) {
      assert Folds(p, i, FoldedValue(p.func, i).value, Turn(p, i).value);
    }
  }

  /** A turn leaves the rest of the collected instructions where they are. */
  lemma TurnReady(p: Progress, rest: seq<Id>)
    requires Ready(p, rest) && rest != []
    ensures WellFormed(p.func) && rest[0] in p.func.code
    ensures Turn(p, rest[0]).Some? ==> Ready(Turn(p, rest[0]).value, rest[1..])
  {
    hide WellFormed, Turn, FoldAt, Folds;
    if Turn(p, rest[0]).Some? {
      var i, q := rest[0], Turn(p, rest[0]).value;
      TurnFacts(p, i);
      if q != p {
        var v :| Folds(p, i, v, q);
        FoldReady(p, rest, v, q);
      }
    }
  }

  lemma FoldReady(p: Progress, rest: seq<Id>, v: int, q: Progress)
    requires Ready(p, rest) && rest != [] && Folds(p, rest[0], v, q)
    ensures Ready(q, rest[1..])
  {
    hide WellFormed, FoldAt, Replaced, Symmetric, CanFold;
    FoldWellFormed(p.func, rest[0], p.next, v);
    FoldInputs(p.func, rest[0], p.next, v);
    assert forall j :: j in rest[1..] ==> j in rest && j != rest[0];
  }

  /** The loop of optimize, after `k` turns. */
  ghost function Run(p: Progress, instrs: seq<Id>, k: nat): (r: Option<Progress>)
    requires k <= |instrs| && Ready(p, instrs)
    ensures r.Some? ==> Ready(r.value, instrs[k..])
    decreases k
  {
    hide Ready, Turn;
    if k == 0 then
      assert instrs[0..] == instrs;
      Some(p)
    else
      var before := Run(p, instrs, k - 1);
      if before.None? then None
      else
        assert instrs[k - 1..][1..] == instrs[k..];
        TurnReady(before.value, instrs[k - 1..]);
        Turn(before.value, instrs[k - 1])
  }

  function Rename(rep: map<Id, Id>, s: seq<Id>): (r: seq<Id>)
    ensures |r| == |s| && forall i :: 0 <= i < |s| ==> r[i] == if s[i] in rep then rep[s[i]] else s[i]
  {
    seq(|s|, i requires 0 <= i < |s| => if s[i] in rep then rep[s[i]] else s[i])
  }

  predicate StandsFor(c: Instr, x: Instr) {
    c.op.CONST? && c.ty == x.ty && c.parent == x.parent
  }

  /** The instructions that were folded are gone, a new constant of the same type and block stands for each,
      and the others are as they were. */
  ghost predicate FoldedCode(s: map<Id, Instr>, start: Id, t: map<Id, Instr>, rep: map<Id, Id>) {
    && rep.Keys <= s.Keys && t.Keys == s.Keys - rep.Keys + rep.Values
    && StandIns(s, start, t, rep) && Injective(rep)
    && forall j :: j in s && j !in rep ==> j in t && t[j] == s[j]
  }

  ghost predicate StandIns(s: map<Id, Instr>, start: Id, t: map<Id, Instr>, rep: map<Id, Id>) {
    forall i :: i in rep ==>
      rep[i] >= start && i in s && s[i].op.BIN? && rep[i] in t && StandsFor(t[rep[i]], s[i])
  }

  ghost predicate Injective(rep: map<Id, Id>) {
    forall i, j :: i in rep && j in rep && rep[i] == rep[j] ==> i == j
  }

  /** The others read the constants in the places of the folded instructions. */
  ghost predicate FoldedInputs(s: Func, t: Func, rep: map<Id, Id>) {
    && s.chains.inputs.Keys == s.code.Keys && t.chains.inputs.Keys == t.code.Keys
    && forall j :: j in s.code && j !in rep ==> j in t.code && t.chains.inputs[j] == Rename(rep, s.chains.inputs[j])
  }

  /** The constants stand in the lists where the folded instructions stood. */
  ghost predicate FoldedLists(s: Func, t: Func, rep: map<Id, Id>) {
    t.lists.Keys == s.lists.Keys && forall b :: b in s.lists ==> t.lists[b] == Rename(rep, s.lists[b])
  }

  /** What the loop has made of `s` so far. */
  ghost predicate Folded(s: Func, start: Id, p: Progress) {
    && FoldedCode(s.code, start, p.func.code, p.rep) && FoldedInputs(s, p.func, p.rep) && FoldedLists(s, p.func, p.rep)
    && start <= p.next && forall j :: j in s.code ==> j < start
  }

  lemma ReplacedRename(rep: map<Id, Id>, s: seq<Id>, i: Id, n: Id)
    requires i !in rep && i !in rep.Values
    ensures Replaced(Rename(rep, s), i, n) == Rename(rep[i := n], s)
  {
    var r, q := Replaced(Rename(rep, s), i, n), Rename(rep[i := n], s);
    forall k | 0 <= k < |s| ensures r[k] == q[k] {
      if s[k] in rep {
        assert rep[s[k]] in rep.Values;
      }
    }
  }

  lemma FoldShape(s: Func, i: Id, n: Id, v: int)
    requires CanFold(s, i, n, v) && i in s.chains.inputs && i in s.chains.users
    ensures FoldAt(s, i, n, v).lists.Keys == s.lists.Keys
    ensures forall b :: b in s.lists ==> FoldAt(s, i, n, v).lists[b] == Replaced(s.lists[b], i, n)
  {
    hide Symmetric, OperandsFit, AllConst, FoldedValue, Release, UsersReplaced, InputsCleaned, Allocate;
    forall b | b in s.lists && b != s.code[i].parent ensures Replaced(s.lists[b], i, n) == s.lists[b] {
      assert i !in s.lists[b];
    }
  }

  lemma ValuesAfter(rep: map<Id, Id>, i: Id, n: Id)
    requires i !in rep
    ensures (rep[i := n]).Values == rep.Values + {n}
  {
    forall x | x in rep.Values + {n} ensures x in (rep[i := n]).Values {
      if x != n {
        var j :| j in rep && rep[j] == x;
        assert (rep[i := n])[j] == x;
      } else {
        assert (rep[i := n])[i] == x;
      }
    }
  }

  lemma NotFoldedYet(s: map<Id, Instr>, start: Id, t: map<Id, Instr>, rep: map<Id, Id>, i: Id)
    requires FoldedCode(s, start, t, rep) && i in t && i < start
    ensures i in s && i !in rep && i !in rep.Values && t[i] == s[i]
    ensures forall j :: j in rep ==> rep[j] in t && rep[j] != i
  {
    assert forall j :: j in rep ==> rep[j] in rep.Values;
  }

  lemma KeysAfter(s: map<Id, Instr>, start: Id, t: map<Id, Instr>, rep: map<Id, Id>, i: Id, n: Id, x: Instr)
    requires FoldedCode(s, start, t, rep) && i in t && i < start <= n
    ensures ((t - {i})[n := x]).Keys == s.Keys - (rep[i := n]).Keys + (rep[i := n]).Values
  {
    NotFoldedYet(s, start, t, rep, i);
    ValuesAfter(rep, i, n);
    var keys, vals := rep.Keys, rep.Values;
    assert (rep[i := n]).Keys == keys + {i};
    assert ((t - {i})[n := x]).Keys == t.Keys - {i} + {n};
    assert (s.Keys - keys + vals) - {i} + {n} == s.Keys - (keys + {i}) + (vals + {n});
  }

  lemma StandInsAfter(s: map<Id, Instr>, start: Id, t: map<Id, Instr>, rep: map<Id, Id>, i: Id, n: Id, x: Instr)
    requires FoldedCode(s, start, t, rep) && i in t && i < start <= n && n !in t && n !in s
    requires t[i].op.BIN? && StandsFor(x, t[i])
    ensures StandIns(s, start, (t - {i})[n := x], rep[i := n])
  {
    NotFoldedYet(s, start, t, rep, i);
  }

  lemma InjectiveAfter(rep: map<Id, Id>, i: Id, n: Id)
    requires n !in rep.Values && Injective(rep)
    ensures Injective(rep[i := n])
  {
    assert forall j :: j in rep ==> rep[j] in rep.Values;
  }

  lemma CodeKeepsShape(s: map<Id, Instr>, start: Id, t: map<Id, Instr>, rep: map<Id, Id>, i: Id, n: Id, x: Instr)
    requires FoldedCode(s, start, t, rep) && i in t && i < start <= n && n !in t && n !in s
    requires t[i].op.BIN? && StandsFor(x, t[i])
    ensures FoldedCode(s, start, (t - {i})[n := x], rep[i := n])
  {
    hide StandsFor, StandIns, Injective;
    NotFoldedYet(s, start, t, rep, i);
    KeysAfter(s, start, t, rep, i, n, x);
    StandInsAfter(s, start, t, rep, i, n, x);
    InjectiveAfter(rep, i, n);
  }

  lemma FoldKeepsCode(s: Func, start: Id, t: Func, rep: map<Id, Id>, i: Id, n: Id, v: int)
    requires FoldedCode(s.code, start, t.code, rep)
    requires CanFold(t, i, n, v) && i in t.chains.inputs && i in t.chains.users
    requires i < start <= n && forall j :: j in s.code ==> j < start
    ensures i in s.code && i !in rep && i !in rep.Values
    ensures FoldedCode(s.code, start, FoldAt(t, i, n, v).code, rep[i := n])
  {
    hide WellFormed, Replaced, AllConst, FoldedValue, Release, UsersReplaced, InputsCleaned, Allocate, FoldedCode;
    NotFoldedYet(s.code, start, t.code, rep, i);
    CodeKeepsShape(s.code, start, t.code, rep, i, n, Instr(CONST, t.code[i].ty, v, t.code[i].parent));
  }

  lemma FoldKeepsInputs(s: Func, start: Id, t: Func, rep: map<Id, Id>, i: Id, n: Id, v: int)
    requires FoldedCode(s.code, start, t.code, rep) && CanFold(t, i, n, v) && i in t.chains.inputs
    requires i in t.chains.users
    requires FoldedInputs(s, t, rep)
    requires i < start <= n && forall j :: j in s.code ==> j < start
    ensures FoldedInputs(s, FoldAt(t, i, n, v), rep[i := n])
  {
    hide WellFormed, FoldAt, Replaced, Rename, AllConst, FoldedValue, FoldedCode;
    FoldKeepsCode(s, start, t, rep, i, n, v);
    FoldInputs(t, i, n, v);
    forall j | j in s.code && j != i && j !in rep
      ensures FoldAt(t, i, n, v).chains.inputs[j] == Rename(rep[i := n], s.chains.inputs[j])
    {
      ReplacedRename(rep, s.chains.inputs[j], i, n);
    }
  }

  lemma FoldKeepsLists(s: Func, t: Func, rep: map<Id, Id>, i: Id, n: Id, v: int)
    requires CanFold(t, i, n, v) && i in t.chains.inputs && i in t.chains.users
    requires FoldedLists(s, t, rep) && i !in rep && i !in rep.Values
    ensures FoldedLists(s, FoldAt(t, i, n, v), rep[i := n])
  {
    hide WellFormed, FoldAt, Replaced, Rename, AllConst, FoldedValue;
    FoldShape(t, i, n, v);
    forall b | b in s.lists ensures FoldAt(t, i, n, v).lists[b] == Rename(rep[i := n], s.lists[b]) {
      ReplacedRename(rep, s.lists[b], i, n);
    }
  }

  lemma TurnFolded(s: Func, start: Id, p: Progress, i: Id)
    requires WellFormed(p.func) && i in p.func.code && Turn(p, i).Some? && p.next !in p.func.code
    requires Folded(s, start, p) && i < start
    ensures Folded(s, start, Turn(p, i).value)
  {
    hide WellFormed, Turn, FoldAt, FoldedCode, FoldedInputs, FoldedLists, CanFold;
    TurnFacts(p, i);
    var q := Turn(p, i).value;
    if q != p {
      var v :| Folds(p, i, v, q);
      FoldKeepsCode(s, start, p.func, p.rep, i, p.next, v);
      FoldKeepsInputs(s, start, p.func, p.rep, i, p.next, v);
      FoldKeepsLists(s, p.func, p.rep, i, p.next, v);
    }
  }

  /** The state of optimize when it begins. */
  ghost predicate Begins(p: Progress, instrs: seq<Id>) {
    Ready(p, instrs) && p.rep == map[]
  }

  /** The loop replaces folded instructions by constants of their types, in place, and touches nothing else. */
  lemma {:induction false} RunFolded(p: Progress, instrs: seq<Id>, k: nat)
    requires Begins(p, instrs) && k <= |instrs| && Run(p, instrs, k).Some?
    ensures Folded(p.func, p.next, Run(p, instrs, k).value)
  {
    hide Turn;
    if k == 0 {
      NothingFolded(p);
    } else {
      RunFolded(p, instrs, k - 1);
      var q := Run(p, instrs, k - 1).value;
      assert instrs[k - 1] == instrs[k - 1..][0];
      assert Ready(q, instrs[k - 1..]);
      TurnFolded(p.func, p.next, q, instrs[k - 1]);
    }
  }

  lemma NothingFolded(p: Progress)
    requires WellFormed(p.func) && p.rep == map[] && forall j :: j in p.func.code ==> j < p.next
    ensures Folded(p.func, p.next, p)
  {
    hide OperandsFit, Symmetric;
  }

  // ---- the whole loop preserves meaning ----

  /** The assignment gives every new constant the value of the instruction it stands for. */
  ghost predicate Follows(sigma: Assignment, rep: map<Id, Id>) {
    forall i :: i in rep ==> sigma(rep[i]) == sigma(i)
  }

  /** No folded order comparison reads two equal values. */
  ghost predicate AllRight(s: Func, rep: map<Id, Id>, sigma: Assignment) {
    forall i :: i in rep && i in s.code && i in s.chains.inputs ==> EvaluatesRight(s, i, sigma)
  }

  lemma SameReads(s: Func, t: Func, rep: map<Id, Id>, i: Id, sigma: Assignment)
    requires i in s.code && i in t.code && OperandsFit(s, i) && OperandsFit(t, i) && s.code[i] == t.code[i]
    requires t.chains.inputs[i] == Rename(rep, s.chains.inputs[i]) && Follows(sigma, rep)
    ensures EvaluatesRight(s, i, sigma) <==> EvaluatesRight(t, i, sigma)
    ensures InstrHolds(s, i, sigma) <==> InstrHolds(t, i, sigma)
  {
    hide Means;
  }

  lemma RenamedReads(s: Func, start: Id, p: Progress, i: Id, sigma: Assignment)
    requires Folded(s, start, p) && Follows(sigma, p.rep) && WellFormed(s) && WellFormed(p.func)
    requires i in p.func.code && i in s.code && i !in p.rep
    ensures i in s.chains.inputs && i in p.func.chains.inputs
    ensures EvaluatesRight(s, i, sigma) <==> EvaluatesRight(p.func, i, sigma)
    ensures InstrHolds(s, i, sigma) <==> InstrHolds(p.func, i, sigma)
  {
    hide Symmetric, OperandsFit, FoldedLists, StandIns, Injective, EvaluatesRight, InstrHolds, Follows, Rename;
    SameReads(s, p.func, p.rep, i, sigma);
  }

  lemma TurnPreservesMeaning(s: Func, start: Id, p: Progress, i: Id, sigma: Assignment)
    requires WellFormed(s) && WellFormed(p.func) && i in p.func.code && Turn(p, i).Some? && p.next !in p.func.code
    requires Folded(s, start, p) && i < start && Follows(sigma, Turn(p, i).value.rep)
    ensures Follows(sigma, p.rep)
    ensures var q := Turn(p, i).value;
      && (AllRight(s, q.rep, sigma) ==>
        AllRight(s, p.rep, sigma) && (Consistent(p.func, sigma) <==> Consistent(q.func, sigma)))
      && (Consistent(s, sigma) && Consistent(q.func, sigma) ==>
        Consistent(p.func, sigma) && (AllRight(s, p.rep, sigma) ==> AllRight(s, q.rep, sigma)))
  {
    hide WellFormed, Turn, FoldAt, FoldedInputs, FoldedLists, FoldedCode, InstrHolds, EvaluatesRight;
    TurnFacts(p, i);
    var q := Turn(p, i).value;
    NotFoldedYet(s.code, start, p.func.code, p.rep, i);
    if q != p {
      var v :| Folds(p, i, v, q);
      assert q.rep[i] == p.next;
      forall j | j in p.rep ensures j in q.rep && sigma(p.rep[j]) == sigma(j) {
        assert q.rep[j] == p.rep[j];
      }
      RenamedReads(s, start, p, i, sigma);
      FoldPreservesMeaning(p.func, i, p.next, v, sigma);
    }
  }

  /** An assignment fits the function before if and only if it fits the function after, as long as no folded LE
      or GE reads two equal values; where one does, it does not fit both. */
  lemma {:induction false} RunKeepsIfRight(p: Progress, instrs: seq<Id>, k: nat, sigma: Assignment)
    requires Begins(p, instrs) && k <= |instrs| && Run(p, instrs, k).Some?
    requires Follows(sigma, Run(p, instrs, k).value.rep)
    ensures var q := Run(p, instrs, k).value;
      && (AllRight(p.func, q.rep, sigma) ==> (Consistent(p.func, sigma) <==> Consistent(q.func, sigma)))
      && (Consistent(p.func, sigma) && Consistent(q.func, sigma) ==> AllRight(p.func, q.rep, sigma))
  {
    hide Turn, Consistent, Folded, Follows, WellFormed, EvaluatesRight;
    if k > 0 {
      RunFolded(p, instrs, k - 1);
      var q := Run(p, instrs, k - 1).value;
      assert instrs[k - 1] == instrs[k - 1..][0] && instrs[k - 1] in instrs && instrs[k - 1] in p.func.code;
      assert Ready(q, instrs[k - 1..]);
      TurnPreservesMeaning(p.func, p.next, q, instrs[k - 1], sigma);
      RunKeepsIfRight(p, instrs, k - 1, sigma);
    }
  }

  lemma SameAssignment(s: Func, sigma: Assignment, tau: Assignment)
    requires WellFormed(s) && forall i :: i in s.code ==> sigma(i) == tau(i)
    requires Consistent(s, sigma)
    ensures Consistent(s, tau)
  {
    hide Symmetric, Means;
    forall i | i in s.code ensures InstrHolds(s, i, tau) {
      assert InstrHolds(s, i, sigma) && OperandsFit(s, i);
    }
  }

  ghost function Origin(rep: map<Id, Id>, x: Id): (i: Id)
    requires x in rep.Values
    ensures i in rep && rep[i] == x
  {
    var i :| i in rep && rep[i] == x;
    i
  }

  /** Give every new constant the value of the instruction it stands for. */
  ghost function Forward(sigma: Assignment, rep: map<Id, Id>): Assignment {
    (x: Id) => if x in rep.Values then sigma(Origin(rep, x)) else sigma(x)
  }

  /** Give every folded instruction the value of its constant. */
  ghost function Backward(tau: Assignment, rep: map<Id, Id>): Assignment {
    (x: Id) => if x in rep then tau(rep[x]) else tau(x)
  }

  lemma StandInsAreNew(s: map<Id, Instr>, start: Id, t: map<Id, Instr>, rep: map<Id, Id>)
    requires FoldedCode(s, start, t, rep) && forall j :: j in s ==> j < start
    ensures Injective(rep) && forall i :: i in rep ==> i in s && i !in t && rep[i] !in s && rep[i] in t
    ensures forall i :: i in rep ==> rep[i] !in rep
  {
  }

  lemma ForwardFacts(s: map<Id, Instr>, start: Id, t: map<Id, Instr>, rep: map<Id, Id>, sigma: Assignment)
    requires FoldedCode(s, start, t, rep) && forall j :: j in s ==> j < start
    ensures forall i :: i in s ==> Forward(sigma, rep)(i) == sigma(i)
    ensures forall i :: i in rep ==> i in s && Forward(sigma, rep)(rep[i]) == sigma(i)
    ensures Follows(Forward(sigma, rep), rep)
  {
    StandInsAreNew(s, start, t, rep);
    forall i | i in rep ensures Forward(sigma, rep)(rep[i]) == sigma(i) {
      assert rep[i] in rep.Values && Origin(rep, rep[i]) == i;
    }
  }

  lemma BackwardFacts(s: map<Id, Instr>, start: Id, t: map<Id, Instr>, rep: map<Id, Id>, tau: Assignment)
    requires FoldedCode(s, start, t, rep) && forall j :: j in s ==> j < start
    ensures forall i :: i in t ==> tau(i) == Backward(tau, rep)(i)
    ensures Follows(Backward(tau, rep), rep)
  {
    StandInsAreNew(s, start, t, rep);
  }

  // ---- one pass is enough ----

  /** The operand is a constant, or has become one. */
  ghost predicate ConstantNow(s: Func, rep: map<Id, Id>, v: Id) {
    v in rep || (v in s.code && s.code[v].op.CONST?)
  }

  /** No instruction reads itself or one that is collected after it. */
  ghost predicate OperandsFirst(s: Func, instrs: seq<Id>) {
    forall k, v :: 0 <= k < |instrs| && instrs[k] in s.chains.inputs && v in s.chains.inputs[instrs[k]]
      ==> v !in instrs[k..]
  }

  lemma AllConstIff(s: Func, start: Id, p: Progress, i: Id)
    requires Folded(s, start, p) && WellFormed(s) && i in s.code && i !in p.rep
    ensures i in s.chains.inputs && i in p.func.chains.inputs
    ensures s.code[i].op.BIN? ==>
      (AllConst(p.func.code, p.func.chains.inputs[i]) <==>
        forall v :: v in s.chains.inputs[i] ==> ConstantNow(s, p.rep, v))
  {
    hide Symmetric, FoldedLists, Injective;
    if s.code[i].op.BIN? {
      var ops, now := s.chains.inputs[i], p.func.chains.inputs[i];
      assert OperandsFit(s, i) && now == Rename(p.rep, ops);
      forall k | 0 <= k < |ops|
        ensures (now[k] in p.func.code && p.func.code[now[k]].op.CONST?) <==> ConstantNow(s, p.rep, ops[k])
      {
        assert ops[k] in ops && ops[k] in s.code;
      }
    }
  }

  lemma TurnFoldsIff(s: Func, start: Id, p: Progress, i: Id)
    requires WellFormed(s) && WellFormed(p.func) && i in p.func.code && Turn(p, i).Some? && p.next !in p.func.code
    requires Folded(s, start, p) && i < start
    ensures i in s.code && i in s.chains.inputs && i !in p.rep
    ensures var q := Turn(p, i).value; q.rep.Keys == p.rep.Keys + if i in q.rep then {i} else {}
    ensures s.code[i].op.BIN? ==>
      (i in Turn(p, i).value.rep <==> forall v :: v in s.chains.inputs[i] ==> ConstantNow(s, p.rep, v))
  {
    hide WellFormed, Turn, FoldAt, FoldedInputs, FoldedLists, FoldedCode, ConstantNow, CanFold, AllConst;
    TurnFacts(p, i);
    NotFoldedYet(s.code, start, p.func.code, p.rep, i);
    AllConstIff(s, start, p, i);
  }

  /** If operands are collected before their users, a binary instruction is folded exactly when each of its
      operands is a constant or is folded, so one pass folds whatever can be folded. */
  lemma {:induction false} FoldedIffOperandsConstant(p: Progress, instrs: seq<Id>, k: nat, j: nat)
    requires Begins(p, instrs) && j < k <= |instrs| && Run(p, instrs, k).Some? && OperandsFirst(p.func, instrs)
    requires p.func.code[instrs[j]].op.BIN?
    ensures instrs[j] in p.func.chains.inputs
    ensures (instrs[j] in Run(p, instrs, k).value.rep <==>
      forall v :: v in p.func.chains.inputs[instrs[j]] ==> ConstantNow(p.func, Run(p, instrs, k).value.rep, v))
  {
    hide Turn, Folded, WellFormed;
    RunFolded(p, instrs, k - 1);
    var q, i := Run(p, instrs, k - 1).value, instrs[k - 1];
    assert i == instrs[k - 1..][0] && i in instrs && i in p.func.code;
    assert Ready(q, instrs[k - 1..]);
    TurnFoldsIff(p.func, p.next, q, i);
    var r := Run(p, instrs, k).value;
    assert r == Turn(q, i).value;
    if j < k - 1 {
      FoldedIffOperandsConstant(p, instrs, k - 1, j);
    }
    assert forall v :: v in p.func.chains.inputs[instrs[j]] ==> v != i by {
      assert i == instrs[j..][k - 1 - j];
    }
  }

  /** Afterwards no collected binary instruction with constant operands only is left. */
  lemma OnePassSuffices(p: Progress, instrs: seq<Id>, i: Id)
    requires Begins(p, instrs) && Run(p, instrs, |instrs|).Some? && OperandsFirst(p.func, instrs)
    requires i in instrs && i in Run(p, instrs, |instrs|).value.func.code
    requires Run(p, instrs, |instrs|).value.func.code[i].op.BIN?
    ensures var t := Run(p, instrs, |instrs|).value.func; i in t.chains.inputs && !AllConst(t.code, t.chains.inputs[i])
  {
    hide WellFormed, FoldedLists, FoldedInputs, ConstantNow, AllConst, OperandsFirst;
    RunFolded(p, instrs, |instrs|);
    var q := Run(p, instrs, |instrs|).value;
    if i in q.rep.Values {
      assert false;
    }
    var j :| 0 <= j < |instrs| && instrs[j] == i;
    FoldedIffOperandsConstant(p, instrs, |instrs|, j);
    AllConstIff(p.func, p.next, q, i);
  }

  // ---- when the pass is defined ----

  /** The value that `v` has as a constant once the first `n` collected instructions have been visited, told on
      the function before the pass. */
  ghost function ConstValue(s: Func, instrs: seq<Id>, n: nat, v: Id): Option<int>
    requires n <= |instrs|
    decreases n, 0
  {
    if v !in s.code then None
    else if s.code[v].op.CONST? then Some(s.code[v].val)
    else if n == 0 then None
    else if v != instrs[n - 1] then ConstValue(s, instrs, n - 1, v)
    else EvalOperands(s, instrs, n - 1, v)
  }

  /** The evaluation of a binary instruction whose operands are known by then. */
  ghost function EvalOperands(s: Func, instrs: seq<Id>, n: nat, i: Id): Option<int>
    requires n <= |instrs| && i in s.code
    decreases n, 1
  {
    if s.code[i].op.BIN? && i in s.chains.inputs && |s.chains.inputs[i]| == 2 then
      var l, r := ConstValue(s, instrs, n, s.chains.inputs[i][0]), ConstValue(s, instrs, n, s.chains.inputs[i][1]);
      if l.Some? && r.Some? then Eval(s.code[i].op.op, s.code[i].ty, l.value, r.value) else None
    else None
  }

  ghost predicate OperandsKnown(s: Func, instrs: seq<Id>, n: nat, i: Id)
    requires n <= |instrs|
  {
    i in s.chains.inputs && forall v :: v in s.chains.inputs[i] ==> ConstValue(s, instrs, n, v).Some?
  }

  /** Visit number `j` has an outcome: if all operands are known by then, the instruction is binary and its
      evaluation succeeds. */
  ghost predicate VisitDefined(s: Func, instrs: seq<Id>, j: nat)
    requires j < |instrs|
  {
    OperandsKnown(s, instrs, j, instrs[j]) && instrs[j] in s.code ==> EvalOperands(s, instrs, j, instrs[j]).Some?
  }

  /** What stands for `v` by now. */
  ghost function Current(rep: map<Id, Id>, v: Id): Id {
    if v in rep then rep[v] else v
  }

  ghost predicate KnownAt(s: Func, instrs: seq<Id>, k: nat, q: Progress, v: Id)
    requires k <= |instrs|
  {
    && Current(q.rep, v) in q.func.code
    && ConstValue(s, instrs, k, v) ==
      var c := q.func.code[Current(q.rep, v)];
      if c.op.CONST? then Some(c.val) else None
  }

  /** The constants of the function under way are the values known. */
  ghost predicate Known(s: Func, instrs: seq<Id>, k: nat, q: Progress)
    requires k <= |instrs|
  {
    forall v :: v in s.code ==> KnownAt(s, instrs, k, q, v)
  }

  lemma OperandsInCode(s: Func, i: Id)
    requires WellFormed(s) && i in s.code
    ensures i in s.chains.inputs && OperandsFit(s, i) && forall v :: v in s.chains.inputs[i] ==> v in s.code
  {
    assert OperandsFit(s, i);
  }

  /** All operands are constants by now if and only if all are known. */
  lemma ConstIffKnown(s: Func, instrs: seq<Id>, k: nat, q: Progress, ops: seq<Id>)
    requires k <= |instrs| && Known(s, instrs, k, q) && forall v :: v in ops ==> v in s.code
    ensures AllConst(q.func.code, Rename(q.rep, ops)) <==> forall v :: v in ops ==> ConstValue(s, instrs, k, v).Some?
    ensures forall j :: 0 <= j < |ops| ==> KnownAt(s, instrs, k, q, ops[j])
  {
    hide ConstValue;
    var now := Rename(q.rep, ops);
    forall j | 0 <= j < |ops|
      ensures KnownAt(s, instrs, k, q, ops[j])
      ensures (now[j] in q.func.code && q.func.code[now[j]].op.CONST?) <==> ConstValue(s, instrs, k, ops[j]).Some?
    {
      assert ops[j] in ops && now[j] == Current(q.rep, ops[j]);
    }
    assert forall j :: 0 <= j < |ops| ==> ops[j] in ops;
    if AllConst(q.func.code, now) {
      forall v | v in ops ensures ConstValue(s, instrs, k, v).Some? {
        var j :| 0 <= j < |ops| && ops[j] == v;
      }
    }
  }

  /** At visit number `k` the pass decides as the values known say. */
  lemma VisitIff(s: Func, start: Id, instrs: seq<Id>, k: nat, q: Progress)
    requires k < |instrs| && Known(s, instrs, k, q) && WellFormed(s) && WellFormed(q.func)
    requires Folded(s, start, q) && instrs[k] in q.func.code && instrs[k] < start
    ensures instrs[k] in s.code && instrs[k] !in q.rep && q.func.code[instrs[k]] == s.code[instrs[k]]
    ensures instrs[k] in q.func.chains.inputs && OperandsFit(q.func, instrs[k])
    ensures AllConst(q.func.code, q.func.chains.inputs[instrs[k]]) <==> OperandsKnown(s, instrs, k, instrs[k])
    ensures AllConst(q.func.code, q.func.chains.inputs[instrs[k]]) ==>
      FoldedValue(q.func, instrs[k]) == EvalOperands(s, instrs, k, instrs[k])
    ensures !AllConst(q.func.code, q.func.chains.inputs[instrs[k]]) ==> EvalOperands(s, instrs, k, instrs[k]) == None
  {
    hide Symmetric, FoldedLists, FoldedCode, ConstValue, Eval, ListsFit, Known, WellFormed, AllConst;
    var i := instrs[k];
    NotFoldedYet(s.code, start, q.func.code, q.rep, i);
    OperandsInCode(s, i);
    OperandsInCode(q.func, i);
    var ops, now := s.chains.inputs[i], q.func.chains.inputs[i];
    assert now == Rename(q.rep, ops);
    ConstIffKnown(s, instrs, k, q, ops);
    if s.code[i].op.BIN? {
      assert ops[0] in ops && ops[1] in ops && now[0] in now && now[1] in now;
      if AllConst(q.func.code, now) {
        BothConst(q.func.code, now);
      }
    }
  }

  lemma BothConst(code: map<Id, Instr>, now: seq<Id>)
    requires |now| == 2 && AllConst(code, now)
    ensures now[0] in code && now[1] in code && code[now[0]].op.CONST? && code[now[1]].op.CONST?
  {
  }

  lemma KnownStep(s: Func, start: Id, instrs: seq<Id>, k: nat, q: Progress)
    requires k < |instrs| && Known(s, instrs, k, q) && WellFormed(s) && WellFormed(q.func) && q.next !in q.func.code
    requires Folded(s, start, q) && instrs[k] in q.func.code && instrs[k] < start && Turn(q, instrs[k]).Some?
    ensures Known(s, instrs, k + 1, Turn(q, instrs[k]).value)
  {
    hide Symmetric, FoldedInputs, FoldedLists, FoldedCode, Eval, ListsFit, Turn, WellFormed, AllConst, FoldAt,
      OperandsFit, FoldedValue, OperandsKnown, EvalOperands, ConstValue;
    var i, r := instrs[k], Turn(q, instrs[k]).value;
    VisitIff(s, start, instrs, k, q);
    TurnFacts(q, i);
    forall v | v in s.code ensures KnownAt(s, instrs, k + 1, r, v) {
      KnownHere(s, instrs, k, q, v);
      ConstNext(s, instrs, k, v);
      NotReplaced(s.code, start, q.func.code, q.rep, v, i);
      if AllConst(q.func.code, q.func.chains.inputs[i]) {
        var x :| Folds(q, i, x, r);
        FoldInputs(q.func, i, q.next, x);
      }
    }
  }

  lemma KnownHere(s: Func, instrs: seq<Id>, k: nat, q: Progress, v: Id)
    requires k <= |instrs| && Known(s, instrs, k, q) && v in s.code
    ensures KnownAt(s, instrs, k, q, v)
  {
  }

  lemma ConstNext(s: Func, instrs: seq<Id>, k: nat, v: Id)
    requires k < |instrs| && v in s.code
    ensures ConstValue(s, instrs, k + 1, v) ==
      (if v == instrs[k] && !s.code[v].op.CONST? then EvalOperands(s, instrs, k, v) else ConstValue(s, instrs, k, v))
  {
  }

  lemma NotReplaced(s: map<Id, Instr>, start: Id, t: map<Id, Instr>, rep: map<Id, Id>, v: Id, i: Id)
    requires FoldedCode(s, start, t, rep) && i in t && i < start
    ensures i !in rep && (v != i ==> Current(rep, v) != i)
  {
    NotFoldedYet(s, start, t, rep, i);
  }

  lemma KnownStarts(p: Progress, instrs: seq<Id>)
    requires p.rep == map[]
    ensures Known(p.func, instrs, 0, p)
  {
  }

  /** All along a defined run the constants are the values known: this says which instructions are folded, and
      with which value. */
  lemma {:induction false} RunKnown(p: Progress, instrs: seq<Id>, k: nat)
    requires Begins(p, instrs) && k <= |instrs| && Run(p, instrs, k).Some?
    ensures Known(p.func, instrs, k, Run(p, instrs, k).value)
  {
    hide Turn, Folded, Known, WellFormed;
    if k == 0 {
      KnownStarts(p, instrs);
    } else {
      RunFolded(p, instrs, k - 1);
      RunKnown(p, instrs, k - 1);
      var q := Run(p, instrs, k - 1).value;
      assert instrs[k - 1] == instrs[k - 1..][0] && instrs[k - 1] in instrs && instrs[k - 1] in p.func.code;
      assert Ready(q, instrs[k - 1..]);
      KnownStep(p.func, p.next, instrs, k - 1, q);
    }
  }

  lemma TurnDefined(s: Func, start: Id, instrs: seq<Id>, k: nat, q: Progress)
    requires k < |instrs| && Known(s, instrs, k, q) && WellFormed(s) && WellFormed(q.func)
    requires Folded(s, start, q) && instrs[k] in q.func.code && instrs[k] < start
    ensures Turn(q, instrs[k]).Some? <==> VisitDefined(s, instrs, k)
  {
    hide Symmetric, Folded, Eval, ListsFit, WellFormed, AllConst, FoldAt, OperandsFit, FoldedValue, OperandsKnown,
      Known, EvalOperands, ConstValue;
    VisitIff(s, start, instrs, k, q);
  }

  /** The pass has a defined outcome if and only if every visit has: whenever all operands of a collected
      instruction are known by then, it is binary and its evaluation succeeds. */
  lemma {:induction false} RunDefinedIff(p: Progress, instrs: seq<Id>, k: nat)
    requires Begins(p, instrs) && k <= |instrs|
    ensures Run(p, instrs, k).Some? <==> forall j: nat :: j < k ==> VisitDefined(p.func, instrs, j)
  {
    hide Turn, Folded, Known, WellFormed, VisitDefined;
    if k > 0 {
      RunDefinedIff(p, instrs, k - 1);
      if Run(p, instrs, k - 1).Some? {
        RunFolded(p, instrs, k - 1);
        RunKnown(p, instrs, k - 1);
        var q := Run(p, instrs, k - 1).value;
        assert instrs[k - 1] == instrs[k - 1..][0] && instrs[k - 1] in instrs && instrs[k - 1] in p.func.code;
        assert Ready(q, instrs[k - 1..]);
        TurnDefined(p.func, p.next, instrs, k - 1, q);
      }
    }
  }

  /** In particular the pass has no defined outcome once it meets an instruction without operands, a parameter
      for one: the test for constant operands passes, and only binary operations are evaluated. */
  lemma NoOperandsUndefined(p: Progress, instrs: seq<Id>, k: nat, j: nat)
    requires Begins(p, instrs) && j < k <= |instrs|
    requires instrs[j] in p.func.chains.inputs && p.func.chains.inputs[instrs[j]] == []
    requires !p.func.code[instrs[j]].op.BIN?
    ensures Run(p, instrs, k).None?
  {
    hide Run, WellFormed;
    RunDefinedIff(p, instrs, k);
    assert instrs[j] in instrs;
    assert !VisitDefined(p.func, instrs, j);
  }

  // ---- when the pass preserves meaning ----

  /** Visit number `j` evaluates a comparison LE or GE of two equal known values, which comes out false. */
  ghost predicate Misread(s: Func, instrs: seq<Id>, j: nat)
    requires j < |instrs|
  {
    var i := instrs[j];
    && i in s.code && (s.code[i].op == BIN(LE) || s.code[i].op == BIN(GE))
    && OperandsKnown(s, instrs, j, i) && |s.chains.inputs[i]| == 2
    && ConstValue(s, instrs, j, s.chains.inputs[i][0]) == ConstValue(s, instrs, j, s.chains.inputs[i][1])
  }

  ghost predicate NoMisread(s: Func, instrs: seq<Id>, k: nat)
    requires k <= |instrs|
  {
    forall j: nat :: j < k ==> !Misread(s, instrs, j)
  }

  lemma TurnFoldsKnown(s: Func, start: Id, instrs: seq<Id>, k: nat, q: Progress)
    requires k < |instrs| && Known(s, instrs, k, q) && WellFormed(s) && WellFormed(q.func) && q.next !in q.func.code
    requires Folded(s, start, q) && instrs[k] in q.func.code && instrs[k] < start && Turn(q, instrs[k]).Some?
    ensures Turn(q, instrs[k]).value.rep.Keys ==
      q.rep.Keys + if OperandsKnown(s, instrs, k, instrs[k]) then {instrs[k]} else {}
  {
    hide Symmetric, Folded, Eval, ListsFit, WellFormed, AllConst, Turn, FoldAt, OperandsFit, FoldedValue,
      OperandsKnown, Known, EvalOperands, ConstValue, CanFold;
    VisitIff(s, start, instrs, k, q);
    TurnFacts(q, instrs[k]);
  }

  ghost predicate KnownVisit(s: Func, instrs: seq<Id>, j: nat, i: Id) {
    j < |instrs| && instrs[j] == i && OperandsKnown(s, instrs, j, i)
  }

  /** What is folded, told on the function before the pass. */
  lemma {:induction false} FoldedIffKnown(p: Progress, instrs: seq<Id>, k: nat, i: Id)
    requires Begins(p, instrs) && k <= |instrs| && Run(p, instrs, k).Some?
    ensures i in Run(p, instrs, k).value.rep <==> exists j: nat :: j < k && KnownVisit(p.func, instrs, j, i)
  {
    hide Turn, Folded, Known, WellFormed, OperandsKnown;
    if k > 0 {
      FoldedIffKnown(p, instrs, k - 1, i);
      RunFolded(p, instrs, k - 1);
      RunKnown(p, instrs, k - 1);
      var q := Run(p, instrs, k - 1).value;
      assert instrs[k - 1] == instrs[k - 1..][0] && instrs[k - 1] in instrs && instrs[k - 1] in p.func.code;
      assert Ready(q, instrs[k - 1..]);
      TurnFoldsKnown(p.func, p.next, instrs, k - 1, q);
      if i == instrs[k - 1] && OperandsKnown(p.func, instrs, k - 1, i) {
        assert KnownVisit(p.func, instrs, k - 1, i);
      }
    }
  }

  lemma {:induction false} ConstVisited(s: Func, instrs: seq<Id>, n: nat, v: Id)
    requires n <= |instrs| && ConstValue(s, instrs, n, v).Some?
    ensures v in s.code && (s.code[v].op.CONST? || v in instrs[..n])
  {
    if !s.code[v].op.CONST? {
      assert instrs[..n] == instrs[..n - 1] + [instrs[n - 1]];
      if v != instrs[n - 1] {
        ConstVisited(s, instrs, n - 1, v);
      }
    }
  }

  /** Once known, a value stays what it is. */
  lemma {:induction false} ConstStays(s: Func, instrs: seq<Id>, j: nat, k: nat, v: Id)
    requires Distinct(instrs) && j <= k <= |instrs| && ConstValue(s, instrs, j, v).Some?
    ensures ConstValue(s, instrs, k, v) == ConstValue(s, instrs, j, v)
    decreases k
  {
    if j < k {
      ConstStays(s, instrs, j, k - 1, v);
      ConstVisited(s, instrs, j, v);
    }
  }

  /** In an execution of the function after, every known value is the one known. */
  lemma KnownAfter(p: Progress, instrs: seq<Id>, k: nat, sigma: Assignment, v: Id)
    requires Begins(p, instrs) && k <= |instrs| && Run(p, instrs, k).Some? && v in p.func.code
    requires Follows(sigma, Run(p, instrs, k).value.rep) && Consistent(Run(p, instrs, k).value.func, sigma)
    requires ConstValue(p.func, instrs, k, v).Some?
    ensures sigma(v) == ConstValue(p.func, instrs, k, v).value
  {
    hide Ready, Run, ConstValue;
    RunKnown(p, instrs, k);
    var q := Run(p, instrs, k).value;
    assert KnownAt(p.func, instrs, k, q, v);
    assert InstrHolds(q.func, Current(q.rep, v), sigma);
  }

  /** In an execution of the function before, so is every known value, up to the first misread comparison. */
  lemma {:induction false} KnownBefore(s: Func, instrs: seq<Id>, n: nat, sigma: Assignment, v: Id)
    requires WellFormed(s) && n <= |instrs| && NoMisread(s, instrs, n) && Consistent(s, sigma)
    requires ConstValue(s, instrs, n, v).Some?
    ensures v in s.code && sigma(v) == ConstValue(s, instrs, n, v).value
    decreases n
  {
    hide WellFormed, Consistent, Eval, Means;
    HoldsHere(s, sigma, v);
    if !s.code[v].op.CONST? {
      if v != instrs[n - 1] {
        KnownBefore(s, instrs, n - 1, sigma, v);
      } else {
        var ops := s.chains.inputs[v];
        KnownBefore(s, instrs, n - 1, sigma, ops[0]);
        KnownBefore(s, instrs, n - 1, sigma, ops[1]);
        assert forall w :: w in ops ==> w == ops[0] || w == ops[1];
        EvalMeansIff(s.code[v].op.op, s.code[v].ty, sigma(ops[0]), sigma(ops[1]), sigma(v));
        assert !Misread(s, instrs, n - 1);
      }
    }
  }

  lemma HoldsHere(s: Func, sigma: Assignment, v: Id)
    requires WellFormed(s) && Consistent(s, sigma)
    ensures v in s.code ==> OperandsFit(s, v) && InstrHolds(s, v, sigma)
  {
    hide Symmetric, ListsFit, InstrHolds, OperandsFit;
  }

  lemma RightIffRead(s: Func, instrs: seq<Id>, j: nat, sigma: Assignment)
    requires j < |instrs| && instrs[j] in s.code && OperandsFit(s, instrs[j]) && OperandsKnown(s, instrs, j, instrs[j])
    requires forall v :: v in s.chains.inputs[instrs[j]] ==> sigma(v) == ConstValue(s, instrs, j, v).value
    ensures EvaluatesRight(s, instrs[j], sigma) <==> !Misread(s, instrs, j)
  {
    hide ConstValue;
    var ops := s.chains.inputs[instrs[j]];
    if |ops| == 2 {
      assert ops[0] in ops && ops[1] in ops;
    }
  }

  /** In an execution of the function after, a folded comparison reads equal values exactly if it is misread. */
  lemma RightAfter(p: Progress, instrs: seq<Id>, k: nat, sigma: Assignment)
    requires Begins(p, instrs) && k <= |instrs| && Run(p, instrs, k).Some?
    requires Follows(sigma, Run(p, instrs, k).value.rep) && Consistent(Run(p, instrs, k).value.func, sigma)
    ensures AllRight(p.func, Run(p, instrs, k).value.rep, sigma) <==> NoMisread(p.func, instrs, k)
  {
    hide Run, ConstValue, Consistent, Follows, EvaluatesRight, Misread, WellFormed;
    var s, rep := p.func, Run(p, instrs, k).value.rep;
    forall i | i in rep && i in s.code && i in s.chains.inputs
      ensures exists j: nat :: j < k && instrs[j] == i && (EvaluatesRight(s, i, sigma) <==> !Misread(s, instrs, j))
    {
      FoldedIffKnown(p, instrs, k, i);
      var j: nat :| j < k && KnownVisit(s, instrs, j, i);
      VisitRight(p, instrs, k, j, sigma);
    }
    forall j: nat | j < k && Misread(s, instrs, j)
      ensures instrs[j] in rep && instrs[j] in s.code && instrs[j] in s.chains.inputs
      ensures !EvaluatesRight(s, instrs[j], sigma)
    {
      MisreadIsKnown(s, instrs, j);
      assert KnownVisit(s, instrs, j, instrs[j]);
      FoldedIffKnown(p, instrs, k, instrs[j]);
      VisitRight(p, instrs, k, j, sigma);
    }
  }

  lemma MisreadIsKnown(s: Func, instrs: seq<Id>, j: nat)
    requires j < |instrs| && Misread(s, instrs, j)
    ensures instrs[j] in s.code && instrs[j] in s.chains.inputs && OperandsKnown(s, instrs, j, instrs[j])
  {
  }

  lemma VisitRight(p: Progress, instrs: seq<Id>, k: nat, j: nat, sigma: Assignment)
    requires Begins(p, instrs) && j < k <= |instrs| && Run(p, instrs, k).Some?
    requires Follows(sigma, Run(p, instrs, k).value.rep) && Consistent(Run(p, instrs, k).value.func, sigma)
    requires OperandsKnown(p.func, instrs, j, instrs[j])
    ensures instrs[j] in p.func.code && instrs[j] in p.func.chains.inputs
    ensures EvaluatesRight(p.func, instrs[j], sigma) <==> !Misread(p.func, instrs, j)
  {
    hide Run, ConstValue, Consistent, Follows, EvaluatesRight, Misread, WellFormed;
    var s := p.func;
    assert instrs[j] in instrs;
    OperandsInCode(s, instrs[j]);
    forall v | v in s.chains.inputs[instrs[j]] ensures sigma(v) == ConstValue(s, instrs, j, v).value {
      ConstStays(s, instrs, j, k, v);
      KnownAfter(p, instrs, k, sigma, v);
    }
    RightIffRead(s, instrs, j, sigma);
  }

  /** In an execution of the function before, no folded comparison reads equal values if none is misread. */
  lemma RightBefore(p: Progress, instrs: seq<Id>, k: nat, sigma: Assignment)
    requires Begins(p, instrs) && k <= |instrs| && Run(p, instrs, k).Some?
    requires Consistent(p.func, sigma) && NoMisread(p.func, instrs, k)
    ensures AllRight(p.func, Run(p, instrs, k).value.rep, sigma)
  {
    hide Run, ConstValue, Consistent, EvaluatesRight, Misread, WellFormed;
    var s, rep := p.func, Run(p, instrs, k).value.rep;
    forall i | i in rep && i in s.code && i in s.chains.inputs ensures EvaluatesRight(s, i, sigma) {
      FoldedIffKnown(p, instrs, k, i);
      var j: nat :| j < k && KnownVisit(s, instrs, j, i);
      OperandsInCode(s, i);
      forall v | v in s.chains.inputs[i] ensures sigma(v) == ConstValue(s, instrs, j, v).value {
        KnownBefore(s, instrs, j, sigma, v);
      }
      RightIffRead(s, instrs, j, sigma);
    }
  }

  /** Over the whole loop: if no comparison is misread, an assignment fits the function before if and only if it
      fits the function after; if one is, no assignment fits both. */
  lemma RunPreservesMeaning(p: Progress, instrs: seq<Id>, k: nat, sigma: Assignment)
    requires Begins(p, instrs) && k <= |instrs| && Run(p, instrs, k).Some?
    requires Follows(sigma, Run(p, instrs, k).value.rep)
    ensures var q := Run(p, instrs, k).value;
      if NoMisread(p.func, instrs, k) then Consistent(p.func, sigma) <==> Consistent(q.func, sigma)
      else !(Consistent(p.func, sigma) && Consistent(q.func, sigma))
  {
    hide Run, Consistent, Follows, AllRight, NoMisread, Ready;
    RunKeepsIfRight(p, instrs, k, sigma);
    if Consistent(Run(p, instrs, k).value.func, sigma) {
      RightAfter(p, instrs, k, sigma);
    }
    if Consistent(p.func, sigma) && NoMisread(p.func, instrs, k) {
      RightBefore(p, instrs, k, sigma);
    }
  }

  /** Every execution before is one after, in which what survives has the values it had and the constants have
      the values of what they stand for; and every execution after is one before. */
  ghost predicate SameExecutions(s: Func, t: Func, rep: map<Id, Id>) {
    && (forall sigma: Assignment :: Consistent(s, sigma) ==> Consistent(t, Forward(sigma, rep)))
    && (forall tau: Assignment :: Consistent(t, tau) ==> Consistent(s, Backward(tau, rep)))
  }

  ghost predicate NoExecutionKept(s: Func, t: Func, rep: map<Id, Id>) {
    forall sigma: Assignment :: Consistent(s, sigma) ==> !Consistent(t, Forward(sigma, rep))
  }

  /** If no comparison is misread the pass keeps the executions; if one is and the function has an execution at
      all, it does not: no execution before is one after. */
  lemma ExecutionsKeptIff(p: Progress, instrs: seq<Id>)
    requires Begins(p, instrs) && Run(p, instrs, |instrs|).Some?
    ensures var q := Run(p, instrs, |instrs|).value;
      if NoMisread(p.func, instrs, |instrs|) then SameExecutions(p.func, q.func, q.rep)
      else NoExecutionKept(p.func, q.func, q.rep)
  {
    hide Consistent, WellFormed, FoldedCode, FoldedInputs, FoldedLists, Forward, Backward, Follows, NoMisread;
    var q := Run(p, instrs, |instrs|).value;
    RunFolded(p, instrs, |instrs|);
    forall sigma: Assignment | Consistent(p.func, sigma)
      ensures NoMisread(p.func, instrs, |instrs|) <==> Consistent(q.func, Forward(sigma, q.rep))
    {
      ForwardFacts(p.func.code, p.next, q.func.code, q.rep, sigma);
      SameAssignment(p.func, sigma, Forward(sigma, q.rep));
      RunPreservesMeaning(p, instrs, |instrs|, Forward(sigma, q.rep));
    }
    forall tau: Assignment | Consistent(q.func, tau) && NoMisread(p.func, instrs, |instrs|)
      ensures Consistent(p.func, Backward(tau, q.rep))
    {
      BackwardFacts(p.func.code, p.next, q.func.code, q.rep, tau);
      SameAssignment(q.func, tau, Backward(tau, q.rep));
      RunPreservesMeaning(p, instrs, |instrs|, Backward(tau, q.rep));
    }
  }

  /** What the executions kept look like. */
  lemma ForwardAgrees(p: Progress, instrs: seq<Id>, sigma: Assignment)
    requires Begins(p, instrs) && Run(p, instrs, |instrs|).Some?
    ensures var q, tau := Run(p, instrs, |instrs|).value, Forward(sigma, Run(p, instrs, |instrs|).value.rep);
      && (forall i :: i in p.func.code ==> tau(i) == sigma(i))
      && (forall i :: i in q.rep ==> i in p.func.code && tau(q.rep[i]) == sigma(i))
      && (forall i :: i in q.func.code ==> Backward(sigma, q.rep)(i) == sigma(i))
  {
    hide WellFormed, FoldedCode, FoldedInputs, FoldedLists, Forward, Backward;
    var q := Run(p, instrs, |instrs|).value;
    RunFolded(p, instrs, |instrs|);
    ForwardFacts(p.func.code, p.next, q.func.code, q.rep, sigma);
    BackwardFacts(p.func.code, p.next, q.func.code, q.rep, sigma);
  }
}
