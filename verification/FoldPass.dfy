/** The constant-folding pass at work (include/opt_passes/constant_fold.hh, include/opt_passes/pass_visitor.hh):
    it collects instructions block by block, then replaces the constant ones in place. */
module FoldPass {
  import opened SetFacts
  import opened Wrappers
  import opened ConstEval
  import opened UseDef
  import opened ConstantFold
  import Cfg
  import Dfs
  import Dominance

  /** The instructions of a list that visit_instr keeps, in list order. */
  ghost function Foldable(code: map<Id, Instr>, list: seq<Id>): (r: seq<Id>)
    ensures forall i :: i in r <==> i in list && i in code && !Unfoldable(code[i].op)
    ensures Distinct(list) ==> Distinct(r)
  {
    if list == [] then []
    else
      var i, rest := list[|list| - 1], Foldable(code, list[..|list| - 1]);
      assert list == list[..|list| - 1] + [i];
      if i in code && !Unfoldable(code[i].op) then rest + [i] else rest
  }

  /** The instructions that the pass collects from the blocks, in their order. */
  ghost function Collected(s: Func, blocks: seq<Block>): (r: seq<Id>)
    requires forall b :: b in blocks ==> b in s.lists
    ensures forall i :: i in r <==> exists b :: b in blocks && i in Foldable(s.code, s.lists[b])
  {
    if blocks == [] then []
    else
      var b := blocks[|blocks| - 1];
      assert blocks == blocks[..|blocks| - 1] + [b];
      Collected(s, blocks[..|blocks| - 1]) + Foldable(s.code, s.lists[b])
  }

  /** Each instruction is collected at most once, and of the visited blocks exactly those with any other opcode. */
  lemma {:induction false} CollectedOnce(s: Func, blocks: seq<Block>)
    requires WellFormed(s) && Distinct(blocks) && forall b :: b in blocks ==> b in s.lists
    ensures Distinct(Collected(s, blocks))
    ensures forall i :: i in Collected(s, blocks) <==>
      i in s.code && s.code[i].parent in blocks
      && s.code[i].op != NONE && s.code[i].op != RET && s.code[i].op != BRANCH
      && s.code[i].op != IF && s.code[i].op != PHI && s.code[i].op != CONST
  {
    hide Symmetric, OperandsFit;
    if blocks != [] {
      var b, front := blocks[|blocks| - 1], blocks[..|blocks| - 1];
      assert blocks == front + [b];
      DistinctFront(blocks);
      CollectedOnce(s, front);
      DistinctJoin(Collected(s, front), Foldable(s.code, s.lists[b]));
    }
  }

  // ---- operands are collected before their users ----

  /** Instruction `u` stands before `v`: in an earlier block, or earlier in the same list. */
  ghost predicate StandsBefore(s: Func, blocks: seq<Block>, u: Id, v: Id) {
    && u in s.code && v in s.code && s.code[u].parent in blocks && s.code[v].parent in blocks
    && if s.code[u].parent == s.code[v].parent then PrecedesIn(s, s.code[u].parent, u, v)
       else Cfg.IndexOf(blocks, s.code[u].parent) < Cfg.IndexOf(blocks, s.code[v].parent)
  }

  ghost predicate PrecedesIn(s: Func, b: Block, u: Id, v: Id) {
    b in s.lists && u in s.lists[b] && v in s.lists[b] && Cfg.IndexOf(s.lists[b], u) < Cfg.IndexOf(s.lists[b], v)
  }

  lemma {:induction false} FoldableInOrder(code: map<Id, Instr>, list: seq<Id>, i: nat, j: nat)
    requires Distinct(list) && i < j < |Foldable(code, list)|
    ensures var r := Foldable(code, list);
      r[i] in list && r[j] in list && Cfg.IndexOf(list, r[i]) < Cfg.IndexOf(list, r[j])
  {
    var n, r := |list| - 1, Foldable(code, list);
    assert list == list[..n] + [list[n]];
    var front := Foldable(code, list[..n]);
    assert r[i] == front[i] && front[i] in front && front[i] in list[..n];
    Cfg.IndexOfAppend(list[..n], list[n], front[i]);
    if j < |front| {
      FoldableInOrder(code, list[..n], i, j);
      assert front[j] in front;
      Cfg.IndexOfAppend(list[..n], list[n], front[j]);
    }
  }

  /** The last block's instructions come last. */
  lemma CollectedLast(s: Func, blocks: seq<Block>)
    requires WellFormed(s) && Distinct(blocks) && blocks != [] && forall b :: b in blocks ==> b in s.lists
    ensures var n, b := |blocks| - 1, blocks[|blocks| - 1];
      && Distinct(blocks[..n]) && blocks == blocks[..n] + [b] && b !in blocks[..n]
      && Collected(s, blocks) == Collected(s, blocks[..n]) + Foldable(s.code, s.lists[b])
      && (forall i :: i in Collected(s, blocks[..n]) ==> i in s.code && s.code[i].parent in blocks[..n])
      && (forall i :: i in Foldable(s.code, s.lists[b]) ==> i in s.code && s.code[i].parent == b)
  {
    hide WellFormed, Distinct;
    var n := |blocks| - 1;
    assert blocks == blocks[..n] + [blocks[n]];
    DistinctFront(blocks);
    CollectedOnce(s, blocks[..n]);
    OwnList(s, blocks[n]);
  }

  lemma DistinctFront(s: seq<Block>)
    requires Distinct(s) && s != []
    ensures Distinct(s[..|s| - 1]) && s[|s| - 1] !in s[..|s| - 1]
  {
  }

  lemma OwnList(s: Func, b: Block)
    requires WellFormed(s) && b in s.lists
    ensures forall i :: i in s.lists[b] ==> i in s.code && s.code[i].parent == b
  {
    hide Symmetric, OperandsFit, Distinct;
  }

  lemma StandsExtend(s: Func, blocks: seq<Block>, b: Block, u: Id, v: Id)
    requires b !in blocks && u in s.code && v in s.code && s.code[u].parent in blocks
    ensures StandsBefore(s, blocks, u, v) ==> StandsBefore(s, blocks + [b], u, v)
    ensures s.code[v].parent == b ==> StandsBefore(s, blocks + [b], u, v)
  {
    hide PrecedesIn;
    Cfg.IndexOfAppendAll(blocks, b);
  }

  /** Collection keeps the order of blocks and lists. */
  lemma {:induction false} CollectedInOrder(s: Func, blocks: seq<Block>, i: nat, j: nat)
    requires WellFormed(s) && Distinct(blocks) && forall b :: b in blocks ==> b in s.lists
    requires i < j < |Collected(s, blocks)|
    ensures StandsBefore(s, blocks, Collected(s, blocks)[i], Collected(s, blocks)[j])
  {
    hide WellFormed, StandsBefore, Collected, Foldable, Distinct;
    if blocks == [] {
      NoneCollected(s);
    } else {
      CollectedLast(s, blocks);
      var n, r := |blocks| - 1, Collected(s, blocks);
      var b, front, last := blocks[n], Collected(s, blocks[..n]), Foldable(s.code, s.lists[blocks[n]]);
      if i < |front| {
        assert r[i] == front[i] && front[i] in front;
        StandsExtend(s, blocks[..n], b, r[i], if j < |front| then front[j] else last[j - |front|]);
        if j < |front| {
          CollectedInOrder(s, blocks[..n], i, j);
        }
      } else {
        assert r[i] == last[i - |front|] && r[j] == last[j - |front|];
        LastInOrder(s, blocks, i - |front|, j - |front|);
      }
    }
  }

  lemma NoneCollected(s: Func)
    ensures Collected(s, []) == []
  {
  }

  lemma LastInOrder(s: Func, blocks: seq<Block>, i: nat, j: nat)
    requires WellFormed(s) && blocks != [] && blocks[|blocks| - 1] in s.lists
    requires i < j < |Foldable(s.code, s.lists[blocks[|blocks| - 1]])|
    ensures var r := Foldable(s.code, s.lists[blocks[|blocks| - 1]]); StandsBefore(s, blocks, r[i], r[j])
  {
    hide Symmetric, OperandsFit, Foldable;
    FoldableInOrder(s.code, s.lists[blocks[|blocks| - 1]], i, j);
  }

  /** Strict SSA: the operands of an instruction that is not a PHI stand before it in its own block, or in a
      block on every path to its block. */
  ghost predicate StrictSsa(g: Cfg.Graph, s: Func) {
    forall u, v :: u in s.code && u in s.chains.inputs && v in s.chains.inputs[u] && !s.code[u].op.PHI? ==>
      v in s.code && DefinedBefore(g, s, v, u)
  }

  ghost predicate DefinedBefore(g: Cfg.Graph, s: Func, v: Id, u: Id)
    requires u in s.code && v in s.code
  {
    if s.code[v].parent == s.code[u].parent then PrecedesIn(s, s.code[u].parent, v, u)
    else Dominance.OnEveryPath(g, s.code[v].parent, s.code[u].parent)
  }

  /** In reverse postorder, operands of strict SSA are collected before their users, loops included. */
  lemma OperandsFirstInRpo(g: Cfg.Graph, s: Func)
    requires g.Valid() && WellFormed(s) && StrictSsa(g, s) && forall b :: b in Dfs.ReversePostorder(g) ==> b in s.lists
    ensures OperandsFirst(s, Collected(s, Dfs.ReversePostorder(g)))
  {
    hide Symmetric, OperandsFit, Dfs.ReversePostorder, WellFormed, Collected, DefinedBefore, StandsBefore;
    var rpo := Dfs.ReversePostorder(g);
    Dfs.ReversePostorderIsTopological(g);
    var instrs := Collected(s, rpo);
    CollectedOnce(s, rpo);
    forall k, v | 0 <= k < |instrs| && instrs[k] in s.chains.inputs && v in s.chains.inputs[instrs[k]]
      ensures v !in instrs[k..]
    {
      assert instrs[k] in instrs;
      assert instrs[k] in s.code && !s.code[instrs[k]].op.PHI?;
      if v in instrs[k..] {
        CollectedLater(g, s, instrs, k, v);
      }
    }
  }

  /** No collected binary instruction that is left has constant operands only. */
  ghost predicate NothingLeft(s: Func, instrs: seq<Id>) {
    forall i :: i in instrs && i in s.code && s.code[i].op.BIN? ==>
      i in s.chains.inputs && !AllConst(s.code, s.chains.inputs[i])
  }

  /** On strict SSA one pass over the blocks in reverse postorder folds whatever can be folded. */
  lemma PassReachesFixpoint(g: Cfg.Graph, p: Progress)
    requires g.Valid() && StrictSsa(g, p.func) && WellFormed(p.func)
    requires forall b :: b in Dfs.ReversePostorder(g) ==> b in p.func.lists
    requires Begins(p, Collected(p.func, Dfs.ReversePostorder(g)))
    requires Run(p, Collected(p.func, Dfs.ReversePostorder(g)), |Collected(p.func, Dfs.ReversePostorder(g))|).Some?
    ensures var instrs := Collected(p.func, Dfs.ReversePostorder(g));
      NothingLeft(Run(p, instrs, |instrs|).value.func, instrs)
  {
    hide Dfs.ReversePostorder, WellFormed, Collected, Cfg.Graph.Valid, StrictSsa, Run, AllConst, OperandsFirst, Ready;
    var instrs := Collected(p.func, Dfs.ReversePostorder(g));
    OperandsFirstInRpo(g, p.func);
    var t := Run(p, instrs, |instrs|).value.func;
    forall i | i in instrs && i in t.code && t.code[i].op.BIN?
      ensures i in t.chains.inputs && !AllConst(t.code, t.chains.inputs[i])
    {
      OnePassSuffices(p, instrs, i);
    }
  }

  /** A binary instruction that reads nothing but constants. */
  ghost predicate ReadsConstants(s: Func, i: Id) {
    && i in s.code && s.code[i].op.BIN? && i in s.chains.inputs
    && forall v :: v in s.chains.inputs[i] ==> v in s.code && s.code[v].op.CONST?
  }

  ghost predicate FullyFolded(g: Cfg.Graph, s: Func)
    requires g.Valid()
  {
    forall b, i :: b in Dfs.ReversePostorder(g) && b in s.lists && i in s.lists[b] ==> !ReadsConstants(s, i)
  }

  /** No reached block has such an instruction left, collected or not. */
  lemma AllFolded(g: Cfg.Graph, p: Progress)
    requires g.Valid() && StrictSsa(g, p.func) && WellFormed(p.func)
    requires forall b :: b in Dfs.ReversePostorder(g) ==> b in p.func.lists
    requires Begins(p, Collected(p.func, Dfs.ReversePostorder(g)))
    requires Run(p, Collected(p.func, Dfs.ReversePostorder(g)), |Collected(p.func, Dfs.ReversePostorder(g))|).Some?
    ensures var instrs := Collected(p.func, Dfs.ReversePostorder(g));
      FullyFolded(g, Run(p, instrs, |instrs|).value.func)
  {
    hide Dfs.ReversePostorder, WellFormed, Collected, Cfg.Graph.Valid, StrictSsa, Run, FoldedInputs, FoldedLists;
    var rpo := Dfs.ReversePostorder(g);
    var instrs := Collected(p.func, rpo);
    PassReachesFixpoint(g, p);
    RunFolded(p, instrs, |instrs|);
    Dfs.ReversePostorderIsTopological(g);
    CollectedOnce(p.func, rpo);
    var q := Run(p, instrs, |instrs|).value;
    assert Ready(q, instrs[|instrs|..]);
    forall b, i | b in rpo && b in q.func.lists && i in q.func.lists[b] ensures !ReadsConstants(q.func, i) {
      OwnList(q.func, b);
      if i in q.rep.Values {
        var j :| j in q.rep && q.rep[j] == i;
        assert StandsFor(q.func.code[i], p.func.code[j]);
      } else {
        assert q.func.code[i] == p.func.code[i];
      }
    }
  }

  lemma CollectedLater(g: Cfg.Graph, s: Func, instrs: seq<Id>, k: nat, v: Id)
    requires g.Valid() && WellFormed(s) && Distinct(Dfs.ReversePostorder(g))
    requires (forall b :: b in Dfs.ReversePostorder(g) ==> b in s.lists)
    requires instrs == Collected(s, Dfs.ReversePostorder(g))
    requires k < |instrs| && v in instrs[k..] && v in s.code && instrs[k] in s.code
    requires s.code[instrs[k]].parent in Dfs.ReversePostorder(g)
    ensures !DefinedBefore(g, s, v, instrs[k])
  {
    hide Dfs.ReversePostorder, WellFormed, Collected, DefinedBefore, StandsBefore, Cfg.Graph.Valid, Distinct;
    var m: nat :| m < |instrs[k..]| && instrs[k..][m] == v;
    if m > 0 {
      CollectedInOrder(s, Dfs.ReversePostorder(g), k, k + m);
    }
    NotDefinedBefore(g, s, instrs[k], v, m == 0);
  }

  lemma NotDefinedBefore(g: Cfg.Graph, s: Func, u: Id, v: Id, same: bool)
    requires g.Valid() && u in s.code && v in s.code && s.code[u].parent in Dfs.ReversePostorder(g)
    requires if same then u == v else StandsBefore(s, Dfs.ReversePostorder(g), u, v)
    ensures !DefinedBefore(g, s, v, u)
  {
    hide Dfs.ReversePostorder, Dominance.OnEveryPath;
    Dfs.ReversePostorderIsTopological(g);
    Dfs.ReachedExactlyOnce(g);
    if !same && DefinedBefore(g, s, v, u) && s.code[v].parent != s.code[u].parent {
      Dominance.DominatorFirst(g, s.code[v].parent, s.code[u].parent);
    }
  }

  lemma DistinctJoin(s: seq<Id>, t: seq<Id>)
    requires Distinct(s) && Distinct(t) && forall i :: i in s ==> i !in t
    ensures Distinct(s + t)
  {
    assert forall k :: 0 <= k < |s| ==> s[k] in s;
    assert forall k :: 0 <= k < |t| ==> t[k] in t;
  }

  /** What cannot be evaluated stops the loop for good. */
  lemma {:induction false} UndefinedStays(p: Progress, instrs: seq<Id>, k: nat, m: nat)
    requires k <= m <= |instrs| && Ready(p, instrs) && Run(p, instrs, k).None?
    ensures Run(p, instrs, m).None?
    decreases m
  {
    hide WellFormed, Turn;
    if k < m {
      UndefinedStays(p, instrs, k, m - 1);
    }
  }

  class Pass {
    var code: map<Id, Instr>
    var lists: map<Block, seq<Id>>
    const table: UseDefTable
    var next: Id
    var instrs: seq<Id>
    ghost var rep: map<Id, Id>

    ghost function State(): Func
      reads this, table
    {
      Func(code, table.State(), lists)
    }

    ghost function Now(): Progress
      reads this, table
    {
      Progress(State(), rep, next)
    }

    constructor (code: map<Id, Instr>, lists: map<Block, seq<Id>>, table: UseDefTable, next: Id)
      ensures this.code == code && this.lists == lists && this.table == table && this.next == next
      ensures instrs == [] && rep == map[]
    {
      this.code, this.lists, this.table, this.next, this.instrs, this.rep := code, lists, table, next, [], map[];
    }

    method VisitFunc(rpo: seq<Block>)
      requires forall b :: b in rpo ==> b in lists && forall i :: i in lists[b] ==> i in code
      requires instrs == []
      modifies this`instrs
      ensures instrs == Collected(State(), rpo)
    {
      for k := 0 to |rpo|
        invariant instrs == Collected(State(), rpo[..k])
      {
        assert rpo[..k + 1][..k] == rpo[..k];
        VisitBlock(rpo[k]);
      }
      assert rpo[..|rpo|] == rpo;
    }

    method VisitBlock(b: Block)
      requires b in lists && forall i :: i in lists[b] ==> i in code
      modifies this`instrs
      ensures instrs == old(instrs) + Foldable(code, lists[b])
    {
      var list := lists[b];
      for k := 0 to |list|
        invariant instrs == old(instrs) + Foldable(code, list[..k])
      {
        assert list[..k + 1][..k] == list[..k];
        VisitInstr(list[k]);
      }
      assert list[..|list|] == list;
    }

    method VisitInstr(i: Id)
      requires i in code
      modifies this`instrs
      ensures instrs == if Unfoldable(code[i].op) then old(instrs) else old(instrs) + [i]
    {
      if !Unfoldable(code[i].op) {
        instrs := instrs + [i];
      }
    }

    method IsReallyNeedFolding(i: Id) returns (need: bool)
      requires i in table.inputs && forall v :: v in table.inputs[i] ==> v in code
      ensures need <==> AllConst(code, table.inputs[i])
    {
      var operands := table.inputs[i];
      for k := 0 to |operands|
        invariant AllConst(code, operands[..k])
      {
        if !code[operands[k]].op.CONST? {
          return false;
        }
      }
      return true;
    }

    method FoldOperation(i: Id) returns (v: Option<int>)
      requires i in code && OperandsFit(State(), i)
      ensures v == FoldedValue(State(), i)
    {
      var x := code[i];
      if x.op.BIN? {
        var ops := table.inputs[i];
        assert ops[0] in ops && ops[1] in ops;
        v := Eval(x.op.op, x.ty, code[ops[0]].val, code[ops[1]].val);
      } else {
        v := None;
      }
    }

    /** The new instruction takes over users, place and block of the old one, which is deleted. */
    method ReplaceInstr(o: Id, n: Id, x: Instr)
      requires o in code && code[o].parent in lists && o in lists[code[o].parent]
      requires Distinct(lists[code[o].parent])
      requires n != o && n in table.users && o in table.users
      requires forall u :: u in table.users[n] || u in table.users[o] ==> u in table.inputs
      modifies this`code, this`lists, table
      ensures table.State() == Release(UsersReplaced(old(table.State()), n, o), o)
      ensures code == (old(code) - {o})[n := x.(parent := old(code)[o].parent)]
      ensures var b := old(code)[o].parent; lists == old(lists)[b := Replaced(old(lists)[b], o, n)]
    {
      var b := code[o].parent;
      table.ReplaceUsers(n, o);
      var list := lists[b];
      var pos := 0;
      while list[pos] != o
        invariant pos < |list| && forall k :: 0 <= k < pos ==> list[k] != o
        decreases |list| - pos
      {
        var k :| 0 <= k < |list| && list[k] == o;
        pos := pos + 1;
      }
      var rest := list[..pos] + list[pos + 1..];
      var now := rest[..pos] + [n] + rest[pos..];
      assert now == Replaced(list, o, n);
      lists := lists[b := now];
      code := code[n := x.(parent := b)] - {o};
      table.Release(o);
    }

    /** The whole pass: the blocks in reverse postorder, then the loop. It has an outcome exactly when every
        visit has one. */
    method RunOn(g: Cfg.Graph) returns (ok: bool)
      requires WellFormed(State()) && g.Valid() && (forall b: Block :: b < |g.succs| ==> b in lists)
      requires instrs == [] && rep == map[] && forall i :: i in code ==> i < next
      modifies this, table
      ensures (forall b :: b in Dfs.ReversePostorder(g) ==> b in old(lists))
      ensures instrs == old(Collected(State(), Dfs.ReversePostorder(g))) && Begins(old(Now()), instrs)
      ensures ok <==> forall j: nat :: j < |instrs| ==> VisitDefined(old(State()), instrs, j)
      ensures ok ==> Some(Now()) == Run(old(Now()), instrs, |instrs|)
      ensures ok ==>
        if NoMisread(old(State()), instrs, |instrs|) then SameExecutions(old(State()), State(), rep)
        else NoExecutionKept(old(State()), State(), rep)
      ensures ok && StrictSsa(g, old(State())) ==> NothingLeft(State(), instrs) && FullyFolded(g, State())
    {
      hide WellFormed, Collected, Begins, Cfg.Graph.Valid, Dfs.ReversePostorder, VisitDefined, StrictSsa, NothingLeft,
        FullyFolded, NoMisread, SameExecutions, NoExecutionKept;
      var rpo := Dfs.DeepFirstSearchReversePostorder(g);
      RpoListed(g, lists);
      CollectedBegins(Now(), rpo);
      VisitFunc(rpo);
      ok := Optimize();
      if ok && StrictSsa(g, old(State())) {
        PassReachesFixpoint(g, old(Now()));
        AllFolded(g, old(Now()));
      }
    }

    /** One instruction that has constant operands only is replaced by its value. */
    method Fold(i: Id) returns (ok: bool)
      requires WellFormed(State()) && i in code && next !in code
      requires AllConst(code, table.inputs[i])
      modifies this`code, this`lists, this`next, this`rep, table
      ensures ok <==> old(FoldedValue(State(), i)).Some?
      ensures ok ==> Some(Now()) == old(Turn(Now(), i))
      ensures !ok ==> Now() == old(Now())
    {
      hide WellFormed, OperandsFit, AllConst, FoldedValue, Symmetric, FoldAt, Distinct;
      SettledFacts(Now(), i);
      TurnFolds(Now(), i);
      var v := FoldOperation(i);
      if v.None? {
        return false;
      }
      PutConstant(i, v.value);
      return true;
    }

    /** The new constant takes the instruction's place. */
    method PutConstant(i: Id, v: int)
      requires i in code && next !in code && Symmetric(table.State()) && table.inputs.Keys == code.Keys
      requires i in table.inputs && i in table.users
      requires code[i].parent in lists && i in lists[code[i].parent] && Distinct(lists[code[i].parent])
      modifies this`code, this`lists, this`next, this`rep, table
      ensures State() == FoldAt(old(State()), i, old(next), v)
      ensures rep == old(rep)[i := old(next)] && next == old(next) + 1
    {
      hide Symmetric, Replaced, UsersReplaced, InputsCleaned, Release, Distinct;
      var n := next;
      next := next + 1;
      ReadsAreThere(table.State(), i, n);
      table.Allocate(n);
      table.CleanInputs(i);
      ReplaceInstr(i, n, Instr(CONST, code[i].ty, v, code[i].parent));
      rep := rep[i := n];
    }

    /** The loop over the collected instructions: it ends as `Run` says, and stops where `Run` is undefined. */
    method Optimize() returns (ok: bool)
      requires Begins(Now(), instrs)
      modifies this`code, this`lists, this`next, this`rep, table
      ensures ok <==> old(Run(Now(), instrs, |instrs|)).Some?
      ensures ok <==> forall j: nat :: j < |instrs| ==> VisitDefined(old(State()), instrs, j)
      ensures ok ==> Some(Now()) == old(Run(Now(), instrs, |instrs|))
      ensures ok ==>
        if NoMisread(old(State()), instrs, |instrs|) then SameExecutions(old(State()), State(), rep)
        else NoExecutionKept(old(State()), State(), rep)
    {
      hide Turn, WellFormed, VisitDefined, NoMisread, SameExecutions, NoExecutionKept;
      ghost var p := Now();
      RunDefinedIff(p, instrs, |instrs|);
      if Run(p, instrs, |instrs|).Some? {
        ExecutionsKeptIff(p, instrs);
      }
      for k := 0 to |instrs|
        invariant Run(p, instrs, k) == Some(Now())
      {
        var i := instrs[k];
        assert Ready(Now(), instrs[k..]) && i == instrs[k..][0] && i in instrs[k..];
        OperandsInCode(State(), i);
        var need := IsReallyNeedFolding(i);
        TurnIs(Now(), i);
        if need {
          var done := Fold(i);
          if !done {
            UndefinedStays(p, instrs, k + 1, |instrs|);
            return false;
          }
        }
      }
      return true;
    }
  }

  lemma RpoListed(g: Cfg.Graph, lists: map<Block, seq<Id>>)
    requires g.Valid() && forall b: Block :: b < |g.succs| ==> b in lists
    ensures Distinct(Dfs.ReversePostorder(g)) && forall b :: b in Dfs.ReversePostorder(g) ==> b in lists
  {
    Dfs.ReversePostorderIsTopological(g);
    Dfs.ReachedExactlyOnce(g);
  }

  /** What is collected may be given to the loop. */
  lemma CollectedBegins(p: Progress, rpo: seq<Block>)
    requires WellFormed(p.func) && Distinct(rpo) && (forall b :: b in rpo ==> b in p.func.lists)
    requires p.rep == map[] && forall i :: i in p.func.code ==> i < p.next
    ensures Begins(p, Collected(p.func, rpo))
    ensures forall b, i :: b in rpo && i in p.func.lists[b] ==> i in p.func.code
  {
    hide WellFormed, Distinct, Collected;
    CollectedOnce(p.func, rpo);
    ListedIsThere(p.func);
  }

  lemma ListedIsThere(s: Func)
    requires WellFormed(s)
    ensures forall b, i :: b in s.lists && i in s.lists[b] ==> i in s.code
  {
    hide Symmetric, OperandsFit;
  }

  lemma SettledFacts(p: Progress, i: Id)
    requires WellFormed(p.func) && i in p.func.code && AllConst(p.func.code, p.func.chains.inputs[i])
    ensures OperandsFit(p.func, i) && Symmetric(p.func.chains)
    ensures i in p.func.chains.inputs && i in p.func.chains.users
    ensures p.func.chains.inputs.Keys == p.func.code.Keys
    ensures p.func.code[i].parent in p.func.lists
    ensures i in p.func.lists[p.func.code[i].parent] && Distinct(p.func.lists[p.func.code[i].parent])
  {
    hide OperandsFit, Symmetric, AllConst;
    SameKeys(p.func.chains);
    assert OperandsFit(p.func, i);
  }

  lemma TurnFolds(p: Progress, i: Id)
    requires WellFormed(p.func) && i in p.func.code && OperandsFit(p.func, i)
    requires i in p.func.chains.inputs && i in p.func.chains.users && AllConst(p.func.code, p.func.chains.inputs[i])
    ensures Turn(p, i) == match FoldedValue(p.func, i)
      case None => None
      case Some(v) => Some(Progress(FoldAt(p.func, i, p.next, v), p.rep[i := p.next], p.next + 1))
  {
    hide OperandsFit, WellFormed, AllConst, FoldAt, FoldedValue;
  }

  lemma ReadsAreThere(c: Chains, i: Id, n: Id)
    requires Symmetric(c) && i in c.inputs && n !in c.inputs
    ensures i != n && forall v :: v in c.inputs[i] ==> v in c.users
    ensures var r := InputsCleaned(Allocate(c, n), i);
      && n in r.users && i in r.users && r.users[n] == {} && forall u :: u in r.users[i] ==> u in r.inputs
  {
  }

  lemma TurnIs(p: Progress, i: Id)
    requires WellFormed(p.func) && i in p.func.code
    ensures i in p.func.chains.inputs && OperandsFit(p.func, i)
    ensures !AllConst(p.func.code, p.func.chains.inputs[i]) ==> Turn(p, i) == Some(p)
    ensures AllConst(p.func.code, p.func.chains.inputs[i]) ==> (Turn(p, i).None? <==> FoldedValue(p.func, i).None?)
  {
    assert OperandsFit(p.func, i);
  }
}
