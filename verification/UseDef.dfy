/** Use-def chains (include/IR/instruction.hh): which instructions use a value, and what each reads. */
module UseDef {
  /** Instructions are values; both are named by one id. */
  type Id = nat

  /** `inputs[u]` is the operand vector of `u`, `users[v]` the user set of `v`. */
  datatype Chains = Chains(inputs: map<Id, seq<Id>>, users: map<Id, set<Id>>)

  /** u is in users(v) if and only if v is among inputs(u). */
  ghost predicate Symmetric(c: Chains) {
    && c.inputs.Keys == c.users.Keys
    && (forall u, v :: u in c.inputs && v in c.inputs[u] ==> v in c.users)
    && (forall u, v :: u in c.inputs && v in c.users ==> (u in c.users[v] <==> v in c.inputs[u]))
    && (forall u, v :: v in c.users && u in c.users[v] ==> u in c.inputs)
  }

  function Replaced(s: seq<Id>, o: Id, n: Id): (r: seq<Id>)
    ensures |r| == |s| && forall i :: 0 <= i < |s| ==> r[i] == if s[i] == o then n else s[i]
  {
    seq(|s|, i requires 0 <= i < |s| => if s[i] == o then n else s[i])
  }

  ghost function InputAdded(c: Chains, u: Id, v: Id): Chains
    requires u in c.inputs && v in c.users
  {
    Chains(c.inputs[u := c.inputs[u] + [v]], c.users[v := c.users[v] + {u}])
  }

  /** The old operand forgets the user only if it stood in the vector once. */
  ghost function InputSet(c: Chains, u: Id, i: nat, v: Id): Chains
    requires u in c.inputs && i < |c.inputs[u]| && c.inputs[u][i] in c.users && v in c.users
  {
    var was := c.inputs[u][i];
    var users := if multiset(c.inputs[u])[was] == 1 then c.users[was := c.users[was] - {u}] else c.users;
    var operands: seq<Id> := c.inputs[u][i := v];
    Chains(c.inputs[u := operands], users[v := users[v] + {u}])
  }

  ghost function InputsCleaned(c: Chains, u: Id): Chains
    requires u in c.inputs
  {
    Chains(c.inputs[u := []], map v | v in c.users :: if v in c.inputs[u] then c.users[v] - {u} else c.users[v])
  }

  /** Value::replace_users: `n` takes over the users of `o`, and they read `n` where they read `o`. */
  ghost function UsersReplaced(c: Chains, n: Id, o: Id): Chains
    requires n in c.users && o in c.users
  {
    var all := c.users[n] + c.users[o];
    var users := c.users[n := all][o := {}];
    Chains(map u | u in c.inputs :: if u in users[n] then Replaced(c.inputs[u], o, n) else c.inputs[u], users)
  }

  /** Operand vectors differ in that of `u` at most. */
  ghost predicate OthersKept(c: Chains, r: Chains, u: Id) {
    r.inputs.Keys == c.inputs.Keys && forall w :: w in c.inputs && w != u ==> r.inputs[w] == c.inputs[w]
  }

  /** The operand goes behind those that are there, and the chains stay symmetric. */
  lemma AddInputSymmetric(c: Chains, u: Id, v: Id)
    requires Symmetric(c) && u in c.inputs && v in c.users
    ensures Symmetric(InputAdded(c, u, v)) && OthersKept(c, InputAdded(c, u, v), u)
    ensures var s, t := c.inputs[u], InputAdded(c, u, v).inputs[u];
      |t| == |s| + 1 && t[|s|] == v && forall k :: 0 <= k < |s| ==> t[k] == s[k]
  {
  }

  /** Without the entry at `i`. */
  ghost function Others(s: seq<Id>, i: nat): seq<Id>
    requires i < |s|
  {
    s[..i] + s[i + 1..]
  }

  lemma CountOthers(s: seq<Id>, i: nat, w: Id)
    requires i < |s|
    ensures multiset(s)[w] == multiset(Others(s, i))[w] + (if s[i] == w then 1 else 0)
  {
    assert s == s[..i] + [s[i]] + s[i + 1..];
    assert multiset(s) == multiset(s[..i]) + multiset{s[i]} + multiset(s[i + 1..]);
  }

  lemma CountAfterUpdate(s: seq<Id>, i: nat, v: Id, w: Id)
    requires i < |s|
    ensures w in s[i := v] <==> w == v || multiset(s)[w] > (if s[i] == w then 1 else 0)
  {
    hide Others;
    var t: seq<Id> := s[i := v];
    CountOthers(s, i, w);
    CountOthers(t, i, w);
    SameOthers(s, i, v);
    assert w in t <==> multiset(t)[w] > 0;
  }

  lemma SameOthers(s: seq<Id>, i: nat, v: Id)
    requires i < |s|
    ensures var t: seq<Id> := s[i := v]; Others(s, i) == Others(t, i)
  {
    var t: seq<Id> := s[i := v];
    assert s[..i] == t[..i] && s[i + 1..] == t[i + 1..];
  }

  /** Replacing one operand, duplicates of it included, keeps the symmetry. */
  lemma SetInputSymmetric(c: Chains, u: Id, i: nat, v: Id)
    requires Symmetric(c) && u in c.inputs && i < |c.inputs[u]| && v in c.users
    ensures c.inputs[u][i] in c.users && Symmetric(InputSet(c, u, i, v)) && OthersKept(c, InputSet(c, u, i, v), u)
    ensures var s, t := c.inputs[u], InputSet(c, u, i, v).inputs[u];
      |t| == |s| && forall k :: 0 <= k < |s| ==> t[k] == if k == i then v else s[k]
  {
    var s, was := c.inputs[u], c.inputs[u][i];
    assert was in s;
    hide Symmetric;
    SymmetricAt(c, u, was);
    var r := InputSet(c, u, i, v);
    InputSetUsers(c, u, i, v);
    forall x, w | x in r.inputs && w in r.users ensures x in r.users[w] <==> w in r.inputs[x] {
      SymmetricAt(c, x, w);
      if x == u {
        CountAfterUpdate(s, i, v, w);
        assert w in s <==> multiset(s)[w] > 0;
      }
    }
    InputSetClosed(c, u, i, v);
  }

  lemma SymmetricAt(c: Chains, u: Id, v: Id)
    requires Symmetric(c)
    ensures c.inputs.Keys == c.users.Keys
    ensures u in c.inputs && v in c.inputs[u] ==> v in c.users
    ensures u in c.inputs && v in c.users ==> (u in c.users[v] <==> v in c.inputs[u])
    ensures v in c.users && u in c.users[v] ==> u in c.inputs
  {
  }

  /** Who uses what after an operand has been replaced. */
  lemma InputSetUsers(c: Chains, u: Id, i: nat, v: Id)
    requires u in c.inputs && i < |c.inputs[u]| && c.inputs[u][i] in c.users && v in c.users
    ensures var r, was := InputSet(c, u, i, v), c.inputs[u][i];
      && r.users.Keys == c.users.Keys && r.inputs.Keys == c.inputs.Keys
      && (forall x :: x in c.inputs && x != u ==> r.inputs[x] == c.inputs[x])
      && (forall x, w :: w in c.users && x != u ==> (x in r.users[w] <==> x in c.users[w]))
      && forall w :: w in c.users ==>
        (u in r.users[w] <==> w == v || (u in c.users[w] && !(w == was && multiset(c.inputs[u])[was] == 1)))
  {
  }

  lemma InputSetClosed(c: Chains, u: Id, i: nat, v: Id)
    requires Symmetric(c) && u in c.inputs && i < |c.inputs[u]| && c.inputs[u][i] in c.users && v in c.users
    requires forall x, w :: x in InputSet(c, u, i, v).inputs && w in InputSet(c, u, i, v).users ==>
      (x in InputSet(c, u, i, v).users[w] <==> w in InputSet(c, u, i, v).inputs[x])
    ensures Symmetric(InputSet(c, u, i, v))
  {
    hide InputSet;
    InputSetUsers(c, u, i, v);
    var r := InputSet(c, u, i, v);
    InputSetMembers(c, u, i, v);
  }

  lemma InputSetMembers(c: Chains, u: Id, i: nat, v: Id)
    requires u in c.inputs && i < |c.inputs[u]| && c.inputs[u][i] in c.users && v in c.users
    ensures u in InputSet(c, u, i, v).inputs
    ensures forall w :: w in InputSet(c, u, i, v).inputs[u] ==> w == v || w in c.inputs[u]
  {
  }

  lemma CleanInputsSymmetric(c: Chains, u: Id)
    requires Symmetric(c) && u in c.inputs
    ensures Symmetric(InputsCleaned(c, u)) && InputsCleaned(c, u).inputs[u] == []
    ensures OthersKept(c, InputsCleaned(c, u), u)
  {
    hide OthersKept, Symmetric, InputsCleaned;
    CleanedSymmetric(c, u);
    OthersNotCleaned(c, u);
  }

  lemma CleanedSymmetric(c: Chains, u: Id)
    requires Symmetric(c) && u in c.inputs
    ensures Symmetric(InputsCleaned(c, u))
  {
  }

  lemma OthersNotCleaned(c: Chains, u: Id)
    requires u in c.inputs
    ensures InputsCleaned(c, u).inputs[u] == [] && OthersKept(c, InputsCleaned(c, u), u)
  {
  }

  lemma ReplacedMembers(s: seq<Id>, o: Id, n: Id)
    requires o != n
    ensures forall w :: w in Replaced(s, o, n) <==> if w == n then n in s || o in s else w in s && w != o
  {
    var r := Replaced(s, o, n);
    forall w ensures w in r <==> if w == n then n in s || o in s else w in s && w != o {
      if w in s && w != o {
        var i :| 0 <= i < |s| && s[i] == w;
        assert r[i] == w;
      }
      if o in s {
        var i :| 0 <= i < |s| && s[i] == o;
        assert r[i] == n;
      }
    }
  }

  /** Handing the users of one value to another keeps the symmetry if and only if the two differ or there is
      nothing to hand over: a value that replaces itself forgets its users. */
  lemma ReplaceUsersSymmetric(c: Chains, n: Id, o: Id)
    requires Symmetric(c) && n in c.users && o in c.users
    ensures Symmetric(UsersReplaced(c, n, o)) <==> n != o || c.users[n] == {}
  {
    hide Replaced;
    if n != o {
      HandedOver(c, n, o);
    } else {
      ReplacedBySelf(c, n);
    }
  }

  lemma HandedOver(c: Chains, n: Id, o: Id)
    requires Symmetric(c) && n in c.users && o in c.users && n != o
    ensures Symmetric(UsersReplaced(c, n, o))
  {
    hide Replaced;
    var r := UsersReplaced(c, n, o);
    forall u, v | u in r.inputs && v in r.users ensures u in r.users[v] <==> v in r.inputs[u] {
      ReplacedMembers(c.inputs[u], o, n);
    }
    forall u, v | u in r.inputs && v in r.inputs[u] ensures v in r.users {
      ReplacedMembers(c.inputs[u], o, n);
    }
  }

  lemma ReplacedBySelf(c: Chains, n: Id)
    requires Symmetric(c) && n in c.users
    ensures Symmetric(UsersReplaced(c, n, n)) <==> c.users[n] == {}
  {
    var r := UsersReplaced(c, n, n);
    assert r.inputs == c.inputs && r.users == c.users[n := {}];
    if u :| u in c.users[n] {
      assert u in r.inputs && n in r.users && n in c.inputs[u];
      assert u !in r.users[n];
    }
  }

  lemma CleanInputsFacts(c: Chains, u: Id)
    requires Symmetric(c) && u in c.inputs
    ensures InputsCleaned(c, u).inputs == c.inputs[u := []] && InputsCleaned(c, u).users.Keys == c.users.Keys
  {
  }

  /** Afterwards everybody reads `n` instead of `o`, whether or not they were among the users looked at. */
  lemma ReplaceUsersFacts(c: Chains, n: Id, o: Id)
    requires Symmetric(c) && n in c.users && o in c.users && n != o
    ensures var r := UsersReplaced(c, n, o);
      && r.inputs.Keys == c.inputs.Keys && r.users.Keys == c.users.Keys && r.users[o] == {}
      && forall u :: u in c.inputs ==> r.inputs[u] == Replaced(c.inputs[u], o, n)
  {
    forall u | u in c.inputs && u !in c.users[n] + c.users[o] ensures Replaced(c.inputs[u], o, n) == c.inputs[u] {
      assert o !in c.inputs[u];
    }
  }

  /** The chains of all values, updated in place. */
  class UseDefTable {
    var inputs: map<Id, seq<Id>>
    var users: map<Id, set<Id>>

    ghost function State(): Chains
      reads this
    {
      Chains(inputs, users)
    }

    constructor ()
      ensures State() == Chains(map[], map[]) && Symmetric(State())
    {
      inputs, users := map[], map[];
    }

    /** A new value reads nothing and has no users. */
    method Allocate(n: Id)
      modifies this
      ensures State() == Chains(old(inputs)[n := []], old(users)[n := {}])
    {
      inputs, users := inputs[n := []], users[n := {}];
    }

    method Release(n: Id)
      modifies this
      ensures State() == Chains(old(inputs) - {n}, old(users) - {n})
    {
      inputs, users := inputs - {n}, users - {n};
    }

    method AddInput(u: Id, v: Id)
      requires u in inputs && v in users
      modifies this
      ensures State() == InputAdded(old(State()), u, v)
      ensures old(Symmetric(State())) ==> Symmetric(State())
    {
      users := users[v := users[v] + {u}];
      inputs := inputs[u := inputs[u] + [v]];
      if old(Symmetric(State())) {
        AddInputSymmetric(old(State()), u, v);
      }
    }

    method SetInput(u: Id, i: nat, v: Id)
      requires u in inputs && i < |inputs[u]| && inputs[u][i] in users && v in users
      modifies this
      ensures State() == InputSet(old(State()), u, i, v)
      ensures old(Symmetric(State())) ==> Symmetric(State())
    {
      var was := inputs[u][i];
      if multiset(inputs[u])[was] == 1 {
        users := users[was := users[was] - {u}];
      }
      var operands: seq<Id> := inputs[u][i := v];
      inputs := inputs[u := operands];
      users := users[v := users[v] + {u}];
      if old(Symmetric(State())) {
        SetInputSymmetric(old(State()), u, i, v);
      }
    }

    method CleanInputs(u: Id)
      requires u in inputs && forall v :: v in inputs[u] ==> v in users
      modifies this
      ensures State() == InputsCleaned(old(State()), u)
    {
      for k := 0 to |inputs[u]|
        invariant inputs == old(inputs)
        invariant users.Keys == old(users).Keys
        invariant forall v :: v in users ==>
          users[v] == if v in inputs[u][..k] then old(users)[v] - {u} else old(users)[v]
      {
        var v := inputs[u][k];
        assert v in inputs[u] && inputs[u][..k + 1] == inputs[u][..k] + [v];
        users := users[v := users[v] - {u}];
      }
      assert inputs[u][..|inputs[u]|] == inputs[u];
      inputs := inputs[u := []];
    }

    method ReplaceUsers(n: Id, o: Id)
      requires n in users && o in users && forall u :: u in users[n] || u in users[o] ==> u in inputs
      modifies this
      ensures State() == UsersReplaced(old(State()), n, o)
    {
      users := users[n := users[n] + users[o]];
      users := users[o := {}];
      var rest := users[n];
      while rest != {}
        invariant users == old(users)[n := old(users)[n] + old(users)[o]][o := {}] && rest <= users[n]
        invariant inputs.Keys == old(inputs).Keys
        invariant forall u :: u in inputs ==>
          inputs[u] == if u in users[n] - rest then Replaced(old(inputs)[u], o, n) else old(inputs)[u]
        decreases rest
      {
        var u :| u in rest;
        inputs := inputs[u := Replaced(inputs[u], o, n)];
        rest := rest - {u};
      }
    }
  }
}
