/** What the linear scan decides, told without its data structures: which value gets which register or slot. */
module ScanRules {
  import opened SetFacts
  import opened Intervals

  datatype Location = Location(id: nat, onStack: bool)

  type RegMap = map<Value, Location>

  predicate InRegister(regMap: RegMap, v: Value) {
    v in regMap && !regMap[v].onStack
  }

  /** Between two turns: the locations, the open values looked after, the number of slots handed out; registers
      below `used` have been handed out, and `back` lists those given back and not reused, the latest last. */
  datatype Snapshot = Snapshot(regMap: RegMap, active: set<Value>, slots: nat, used: nat, back: seq<nat>)

  const START := Snapshot(map[], {}, 0, 0, [])

  /** The values of `active` that have ended by `at`, earliest end first. */
  ghost predicate EndedInOrder(iv: IntervalMap, active: set<Value>, at: nat, ended: seq<Value>) {
    && SortedByEnd(iv, ended)
    && forall v :: v in ended <==> v in active && v in iv && iv[v].end <= at
  }

  ghost predicate SortedByEnd(iv: IntervalMap, active: seq<Value>) {
    && (forall v :: v in active ==> v in iv)
    && (forall i, j :: 0 <= i < j < |active| ==> iv[active[i]].end < iv[active[j]].end)
  }

  ghost function RegistersOf(regMap: RegMap, s: seq<Value>): (r: seq<nat>)
    ensures |r| == |s| && forall i :: 0 <= i < |s| && s[i] in regMap ==> r[i] == regMap[s[i]].id
  {
    seq(|s|, i requires 0 <= i < |s| => if s[i] in regMap then regMap[s[i]].id else 0)
  }

  /** A value is looked after unless one that is shares its end. */
  ghost function Joined(iv: IntervalMap, open: set<Value>, c: Value): set<Value> {
    if exists v :: v in open && v in iv && c in iv && iv[v].end == iv[c].end then open else open + {c}
  }

  /** A register is free: the one given back last, or else the smallest one never handed out. */
  ghost predicate TakesRegister(iv: IntervalMap, regs: nat, s: Snapshot, c: Value, t: Snapshot,
                                open: set<Value>, free: seq<nat>) {
    && t.slots == s.slots && t.active == Joined(iv, open, c)
    && if free != [] then
         var n := |free| - 1;
         t.regMap == s.regMap[c := Location(free[n], false)] && t.back == free[..n] && t.used == s.used
       else
         t.regMap == s.regMap[c := Location(s.used, false)] && t.back == [] && t.used == s.used + 1 && s.used < regs
  }

  ghost predicate LastToEnd(iv: IntervalMap, open: set<Value>, x: Value) {
    x in open && x in iv && forall v :: v in open && v != x ==> v in iv && iv[v].end < iv[x].end
  }

  /** All registers are taken: the open value that ends last goes to the next slot, and its register to the current
      one, if that ends sooner; otherwise the current one goes to the slot. */
  ghost predicate UsesSlot(iv: IntervalMap, s: Snapshot, c: Value, t: Snapshot, open: set<Value>, free: seq<nat>,
                           x: Value) {
    && t.slots == s.slots + 1 && t.used == s.used && t.back == free
    && LastToEnd(iv, open, x) && x in s.regMap && c in iv
    && if iv[c].end < iv[x].end then
         && t.regMap == s.regMap[c := Location(s.regMap[x].id, false)][x := Location(s.slots, true)]
         && t.active == Joined(iv, open - {x}, c)
       else
         t.regMap == s.regMap[c := Location(s.slots, true)] && t.active == open
  }

  ghost predicate TurnBy(iv: IntervalMap, regs: nat, s: Snapshot, c: Value, t: Snapshot, ended: seq<Value>) {
    && c in iv && EndedInOrder(iv, s.active, iv[c].begin, ended)
    && var open, free := s.active - Elems(ended), s.back + RegistersOf(s.regMap, ended);
       if |open| == regs then exists x :: UsesSlot(iv, s, c, t, open, free, x)
       else TakesRegister(iv, regs, s, c, t, open, free)
  }

  /** One turn of the scan, for value `c`. */
  ghost predicate Turn(iv: IntervalMap, regs: nat, s: Snapshot, c: Value, t: Snapshot) {
    exists ended :: TurnBy(iv, regs, s, c, t, ended)
  }

  /** All turns up to the last snapshot, for the first values. */
  ghost predicate IsRun(iv: IntervalMap, data: seq<Value>, regs: nat, run: seq<Snapshot>) {
    && 0 < |run| <= |data| + 1 && run[0] == START
    && forall k :: 0 <= k < |run| - 1 ==> Turn(iv, regs, run[k], data[k], run[k + 1])
  }

  ghost predicate EndsIn(iv: IntervalMap, data: seq<Value>, regs: nat, run: seq<Snapshot>, regMap: RegMap) {
    IsRun(iv, data, regs, run) && |run| == |data| + 1 && run[|data|].regMap == regMap
  }

  /** The rules place all values as `regMap` says. */
  ghost predicate PlacedByRules(iv: IntervalMap, data: seq<Value>, regs: nat, regMap: RegMap) {
    exists run :: EndsIn(iv, data, regs, run, regMap)
  }

  // ---- the rules leave nothing open ----

  lemma {:induction false} SortedUnique(iv: IntervalMap, s: seq<Value>, t: seq<Value>)
    requires SortedByEnd(iv, s) && SortedByEnd(iv, t) && forall v :: v in s <==> v in t
    ensures s == t
  {
    if s == [] {
      assert forall i :: 0 <= i < |t| ==> t[i] in t;
    } else {
      assert s[0] in t && t != [] && t[0] in s;
      FirstEndsFirst(iv, s, t[0]);
      FirstEndsFirst(iv, t, s[0]);
      var i :| 0 <= i < |t| && t[i] == s[0];
      assert s[0] == t[0];
      forall v ensures v in s[1..] <==> v in t[1..] {
        TailMembers(iv, s, v);
        TailMembers(iv, t, v);
      }
      SortedUnique(iv, s[1..], t[1..]);
      assert s == [s[0]] + s[1..] && t == [t[0]] + t[1..];
    }
  }

  lemma FirstEndsFirst(iv: IntervalMap, s: seq<Value>, v: Value)
    requires SortedByEnd(iv, s) && v in s
    ensures s != [] && s[0] in iv && v in iv && iv[s[0]].end <= iv[v].end
  {
    var i :| 0 <= i < |s| && s[i] == v;
    assert s[0] in s;
  }

  lemma TailMembers(iv: IntervalMap, s: seq<Value>, v: Value)
    requires SortedByEnd(iv, s) && s != []
    ensures v in s[1..] <==> v in s && v != s[0]
  {
    assert s == [s[0]] + s[1..] && s[0] in s;
  }

  /** A turn has one outcome. */
  lemma TurnDetermined(iv: IntervalMap, regs: nat, s: Snapshot, c: Value, t: Snapshot, u: Snapshot)
    requires Turn(iv, regs, s, c, t) && Turn(iv, regs, s, c, u)
    ensures t == u
  {
    hide SortedByEnd, Joined;
    var e :| TurnBy(iv, regs, s, c, t, e);
    var d :| TurnBy(iv, regs, s, c, u, d);
    SortedUnique(iv, e, d);
  }

  /** So the intervals, the order and the number of registers determine all locations. */
  lemma {:induction false} RunsAgree(iv: IntervalMap, data: seq<Value>, regs: nat, p: seq<Snapshot>, q: seq<Snapshot>,
                                     k: nat)
    requires IsRun(iv, data, regs, p) && IsRun(iv, data, regs, q) && k < |p| && k < |q|
    ensures p[k] == q[k]
  {
    hide Turn;
    if k > 0 {
      RunsAgree(iv, data, regs, p, q, k - 1);
      TurnDetermined(iv, regs, p[k - 1], data[k - 1], p[k - 1 + 1], q[k - 1 + 1]);
    }
  }

  lemma LocationsDetermined(iv: IntervalMap, data: seq<Value>, regs: nat, m: RegMap, n: RegMap)
    requires PlacedByRules(iv, data, regs, m) && PlacedByRules(iv, data, regs, n)
    ensures m == n
  {
    hide IsRun;
    var p :| EndsIn(iv, data, regs, p, m);
    var q :| EndsIn(iv, data, regs, q, n);
    RunsAgree(iv, data, regs, p, q, |data|);
  }

  // ---- what they mean for the first values, and for the registers in use ----

  /** The registers handed out so far are those below `used`. */
  ghost predicate BelowUsed(regs: nat, s: Snapshot) {
    && s.used <= regs && (forall i :: 0 <= i < |s.back| ==> s.back[i] < s.used)
    && forall v :: InRegister(s.regMap, v) ==> s.regMap[v].id < s.used
  }

  ghost predicate ActiveInRegisters(s: Snapshot) {
    forall v :: v in s.active ==> InRegister(s.regMap, v)
  }

  lemma FreeBelowUsed(iv: IntervalMap, regs: nat, s: Snapshot, c: Value, ended: seq<Value>)
    requires BelowUsed(regs, s) && ActiveInRegisters(s) && c in iv && EndedInOrder(iv, s.active, iv[c].begin, ended)
    ensures var free := s.back + RegistersOf(s.regMap, ended); forall i :: 0 <= i < |free| ==> free[i] < s.used
  {
    hide SortedByEnd;
    var free := s.back + RegistersOf(s.regMap, ended);
    forall i | 0 <= i < |free| ensures free[i] < s.used {
      if i >= |s.back| {
        assert ended[i - |s.back|] in ended;
      }
    }
  }

  lemma TakesBelowUsed(iv: IntervalMap, regs: nat, s: Snapshot, c: Value, t: Snapshot, open: set<Value>, free: seq<nat>)
    requires TakesRegister(iv, regs, s, c, t, open, free) && BelowUsed(regs, s) && ActiveInRegisters(s)
    requires open <= s.active && forall i :: 0 <= i < |free| ==> free[i] < s.used
    ensures BelowUsed(regs, t) && ActiveInRegisters(t) && s.used <= t.used && IsGiven(t.regMap, c, t.used)
    ensures t.used > s.used ==> t.used == s.used + 1 && c in t.regMap && t.regMap[c] == Location(s.used, false)
  {
  }

  lemma SlotBelowUsed(iv: IntervalMap, regs: nat, s: Snapshot, c: Value, t: Snapshot, open: set<Value>, free: seq<nat>,
                        x: Value)
    requires UsesSlot(iv, s, c, t, open, free, x) && BelowUsed(regs, s) && ActiveInRegisters(s) && c !in s.active
    requires open <= s.active && forall i :: 0 <= i < |free| ==> free[i] < s.used
    ensures BelowUsed(regs, t) && ActiveInRegisters(t) && s.used == t.used && IsGiven(t.regMap, c, t.used)
  {
  }

  /** If the value has a register, it is one below `used`. */
  ghost predicate IsGiven(regMap: RegMap, c: Value, used: nat) {
    c in regMap && (regMap[c].onStack || regMap[c].id < used)
  }

  lemma TurnBelowUsed(iv: IntervalMap, regs: nat, s: Snapshot, c: Value, t: Snapshot)
    requires Turn(iv, regs, s, c, t) && BelowUsed(regs, s) && ActiveInRegisters(s) && c !in s.active
    ensures BelowUsed(regs, t) && ActiveInRegisters(t) && s.used <= t.used <= s.used + 1
    ensures IsGiven(t.regMap, c, t.used)
    ensures t.used > s.used ==> c in t.regMap && t.regMap[c] == Location(s.used, false)
    ensures t.active <= s.active + {c} && t.regMap.Keys == s.regMap.Keys + {c}
  {
    hide SortedByEnd, BelowUsed, ActiveInRegisters, TakesRegister, UsesSlot, IsGiven, RegistersOf;
    var ended :| TurnBy(iv, regs, s, c, t, ended);
    var open, free := s.active - Elems(ended), s.back + RegistersOf(s.regMap, ended);
    FreeBelowUsed(iv, regs, s, c, ended);
    if |open| == regs {
      var x :| UsesSlot(iv, s, c, t, open, free, x);
      SlotBelowUsed(iv, regs, s, c, t, open, free, x);
      SlotKeys(iv, s, c, t, open, free, x);
    } else {
      TakesBelowUsed(iv, regs, s, c, t, open, free);
      TakesKeys(iv, regs, s, c, t, open, free);
    }
  }

  lemma SlotKeys(iv: IntervalMap, s: Snapshot, c: Value, t: Snapshot, open: set<Value>, free: seq<nat>, x: Value)
    requires UsesSlot(iv, s, c, t, open, free, x) && open <= s.active
    ensures t.active <= s.active + {c} && t.regMap.Keys == s.regMap.Keys + {c}
  {
  }

  lemma TakesKeys(iv: IntervalMap, regs: nat, s: Snapshot, c: Value, t: Snapshot, open: set<Value>, free: seq<nat>)
    requires TakesRegister(iv, regs, s, c, t, open, free) && open <= s.active
    ensures t.active <= s.active + {c} && t.regMap.Keys == s.regMap.Keys + {c}
  {
  }

  /** What holds after `k` turns. */
  lemma {:induction false} RunBelowUsed(iv: IntervalMap, data: seq<Value>, regs: nat, run: seq<Snapshot>, k: nat)
    requires IsRun(iv, data, regs, run) && Distinct(data) && k < |run|
    ensures BelowUsed(regs, run[k]) && ActiveInRegisters(run[k])
    ensures run[k].regMap.Keys == Elems(data[..k]) && run[k].active <= Elems(data[..k])
  {
    hide Turn;
    if k > 0 {
      RunBelowUsed(iv, data, regs, run, k - 1);
      assert data[k - 1] !in data[..k - 1] && data[..k] == data[..k - 1] + [data[k - 1]];
      TurnBelowUsed(iv, regs, run[k - 1], data[k - 1], run[k - 1 + 1]);
    }
  }

  /** Value number `j` got register `r` in its turn. */
  ghost predicate GotAt(data: seq<Value>, run: seq<Snapshot>, j: nat, r: nat) {
    && j < |data| && j + 1 < |run| && data[j] in run[j + 1].regMap
    && run[j + 1].regMap[data[j]] == Location(r, false)
  }

  /** The registers handed out in the first turns are an initial segment. */
  lemma {:induction false} HandedOutIff(iv: IntervalMap, data: seq<Value>, regs: nat, run: seq<Snapshot>, k: nat,
                                        r: nat)
    requires IsRun(iv, data, regs, run) && Distinct(data) && k < |run|
    ensures r < run[k].used <==> exists j: nat :: j < k && GotAt(data, run, j, r)
  {
    hide Turn, BelowUsed;
    if k > 0 {
      HandedOutIff(iv, data, regs, run, k - 1, r);
      RunBelowUsed(iv, data, regs, run, k - 1);
      assert data[k - 1] !in data[..k - 1];
      TurnBelowUsed(iv, regs, run[k - 1], data[k - 1], run[k - 1 + 1]);
      if run[k - 1].used <= r < run[k].used {
        assert GotAt(data, run, k - 1, r);
      }
    }
  }

  lemma NothingEnded(iv: IntervalMap, s: Snapshot, at: nat, ended: seq<Value>)
    requires EndedInOrder(iv, s.active, at, ended) && forall v :: v in s.active && v in iv ==> at < iv[v].end
    ensures ended == [] && s.active - Elems(ended) == s.active && s.back + RegistersOf(s.regMap, ended) == s.back
  {
    if ended != [] {
      SomeEnded(iv, s, at, ended);
    }
  }

  lemma SomeEnded(iv: IntervalMap, s: Snapshot, at: nat, ended: seq<Value>)
    requires EndedInOrder(iv, s.active, at, ended) && ended != []
    ensures exists v :: v in s.active && v in iv && iv[v].end <= at
  {
    assert ended[0] in ended;
  }

  lemma FirstTurn(iv: IntervalMap, regs: nat, s: Snapshot, c: Value, t: Snapshot)
    requires Turn(iv, regs, s, c, t) && s.back == [] && |s.active| < regs
    requires c in iv && forall v :: v in s.active && v in iv ==> iv[c].begin < iv[v].end
    ensures t.used == s.used + 1 && t.back == [] && c in t.regMap && t.regMap[c] == Location(s.used, false)
  {
    hide SortedByEnd, EndedInOrder, UsesSlot, Joined, RegistersOf;
    var ended :| TurnBy(iv, regs, s, c, t, ended);
    NothingEnded(iv, s, iv[c].begin, ended);
  }

  lemma InScanned(iv: IntervalMap, regs: nat, s: Snapshot, c: Value, t: Snapshot)
    requires Turn(iv, regs, s, c, t)
    ensures c in iv
  {
  }

  /** As long as nothing has ended, the registers are handed out from 0 up. */
  lemma {:induction false} FirstValues(iv: IntervalMap, data: seq<Value>, regs: nat, run: seq<Snapshot>, k: nat)
    requires IsRun(iv, data, regs, run) && Distinct(data) && k < |run| && k <= regs
    requires forall i, j :: 0 <= i < j < k && data[i] in iv && data[j] in iv ==> iv[data[j]].begin < iv[data[i]].end
    ensures run[k].used == k && run[k].back == []
    ensures k > 0 ==> GotAt(data, run, k - 1, k - 1)
  {
    hide BelowUsed, ActiveInRegisters, Turn;
    if k > 0 {
      FirstValues(iv, data, regs, run, k - 1);
      var s, c := run[k - 1], data[k - 1];
      RunBelowUsed(iv, data, regs, run, k - 1);
      assert Turn(iv, regs, s, c, run[k - 1 + 1]);
      InScanned(iv, regs, s, c, run[k]);
      forall v | v in s.active && v in iv ensures iv[c].begin < iv[v].end {
        assert v in Elems(data[..k - 1]);
        var i :| 0 <= i < k - 1 && data[..k - 1][i] == v;
        assert data[i] == v;
      }
      FewListed(data, k - 1, s.active);
      FirstTurn(iv, regs, s, c, run[k]);
    }
  }

  lemma FewListed(data: seq<Value>, k: nat, active: set<Value>)
    requires Distinct(data) && k <= |data| && active <= Elems(data[..k])
    ensures |active| <= k
  {
    ElemsSize(data[..k]);
    SubsetSize(active, Elems(data[..k]));
  }
}
