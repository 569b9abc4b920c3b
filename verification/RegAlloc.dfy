/** Linear-scan register allocation (include/analysis/reg_alloc.hh). */
module RegAlloc {
  import opened SetFacts
  import opened Wrappers
  import opened Intervals
  import opened SpillPolicy
  import opened ScanRules

  predicate ShareRegister(regMap: RegMap, u: Value, v: Value) {
    InRegister(regMap, u) && InRegister(regMap, v) && regMap[u].id == regMap[v].id
  }

  ghost function OnStack(regMap: RegMap): set<Value> {
    set v | v in regMap && regMap[v].onStack
  }

  /** No two overlapping values share a register. */
  ghost predicate Safe(iv: IntervalMap, regMap: RegMap) {
    forall u, v :: u in iv && v in iv && u != v && ShareRegister(regMap, u, v) ==> !iv[u].Overlaps(iv[v])
  }

  ghost function OwnedRegisters(regMap: RegMap, held: set<Value>): set<nat> {
    set v | v in held && v in regMap :: regMap[v].id
  }

  /** Stack slots are handed out once each, in order. */
  ghost predicate SlotsUnique(regMap: RegMap, stackLoc: nat) {
    && (forall v :: v in OnStack(regMap) ==> regMap[v].id < stackLoc)
    && (forall u, v :: u in OnStack(regMap) && v in OnStack(regMap) && regMap[u].id == regMap[v].id ==> u == v)
    && |OnStack(regMap)| == stackLoc
  }

  /** `held` are the values that own a register for good or for now; all other registers are in the
      pool, each once. */
  ghost predicate RegistersPartitioned(regs: nat, pool: seq<nat>, regMap: RegMap, held: set<Value>) {
    && Distinct(pool)
    && (forall r :: r in pool ==> r < regs)
    && (forall v :: v in held ==> InRegister(regMap, v) && regMap[v].id < regs && regMap[v].id !in pool)
    && (forall u, v :: u in held && v in held && regMap[u].id == regMap[v].id ==> u == v)
    && |pool| + |held| == regs
  }

  /** A value that owns no register any more has ended by the time the scan has reached. */
  ghost predicate OthersEnded(iv: IntervalMap, regs: nat, regMap: RegMap, held: set<Value>, at: nat) {
    forall v :: v in iv && InRegister(regMap, v) && v !in held ==> iv[v].end <= at && regMap[v].id < regs
  }

  /** Everything the allocator keeps true about its assignment while the scan stands at point `at`. */
  ghost predicate Sound(iv: IntervalMap, regs: nat, pool: seq<nat>, regMap: RegMap, held: set<Value>,
                        stackLoc: nat, at: nat) {
    && held <= regMap.Keys <= iv.Keys
    && RegistersPartitioned(regs, pool, regMap, held)
    && SlotsUnique(regMap, stackLoc)
    && Safe(iv, regMap)
    && OthersEnded(iv, regs, regMap, held, at)
  }

  /** The partition without counting: every register is free or owned. */
  lemma EveryRegisterAccounted(regs: nat, pool: seq<nat>, regMap: RegMap, held: set<Value>)
    requires RegistersPartitioned(regs, pool, regMap, held)
    ensures Elems(pool) !! OwnedRegisters(regMap, held)
    ensures Elems(pool) + OwnedRegisters(regMap, held) == Below(regs)
  {
    var owned := OwnedRegisters(regMap, held);
    InjectiveImageSize(held, v => if v in regMap then regMap[v].id else 0, owned);
    ElemsSize(pool);
    assert Elems(pool) !! owned;
    BelowSize(regs);
    SubsetSize(Elems(pool) + owned, Below(regs));
  }

  lemma PartitionRelease(regs: nat, pool: seq<nat>, regMap: RegMap, held: set<Value>, v: Value)
    requires RegistersPartitioned(regs, pool, regMap, held) && v in held
    ensures RegistersPartitioned(regs, pool + [regMap[v].id], regMap, held - {v})
  {
  }

  lemma PartitionTake(regs: nat, pool: seq<nat>, free: nat, regMap: RegMap, held: set<Value>, c: Value)
    requires RegistersPartitioned(regs, pool + [free], regMap, held) && c !in regMap
    ensures RegistersPartitioned(regs, pool, regMap[c := Location(free, false)], held + {c})
  {
    var all := pool + [free];
    assert forall i :: 0 <= i < |pool| ==> pool[i] == all[i];
    assert all[|pool|] == free && free in all;
    assert free !in pool;
    assert forall r :: r in pool ==> r in all;
    assert c !in held;
  }

  lemma FreeIsUnowned(regs: nat, pool: seq<nat>, free: nat, regMap: RegMap, held: set<Value>)
    requires RegistersPartitioned(regs, pool + [free], regMap, held)
    ensures forall v :: v in held ==> v in regMap && regMap[v].id != free
  {
    assert free in pool + [free];
  }

  lemma OnStackPush(regMap: RegMap, x: Value, loc: Location)
    requires x !in OnStack(regMap) && loc.onStack
    ensures OnStack(regMap[x := loc]) == OnStack(regMap) + {x}
    ensures forall v :: v in OnStack(regMap) ==> v in regMap && v != x
  {
  }

  lemma SlotsPush(regMap: RegMap, stackLoc: nat, x: Value)
    requires SlotsUnique(regMap, stackLoc) && x !in OnStack(regMap)
    ensures SlotsUnique(regMap[x := Location(stackLoc, true)], stackLoc + 1)
  {
    hide OnStack;
    OnStackPush(regMap, x, Location(stackLoc, true));
  }

  /** Locating a new value `c` keeps registers unshared if its register is used by ended values only. */
  lemma SafeExtend(iv: IntervalMap, regMap: RegMap, c: Value, loc: Location)
    requires Safe(iv, regMap) && c in iv && c !in regMap
    requires !loc.onStack ==>
      forall v :: v in iv && InRegister(regMap, v) && regMap[v].id == loc.id ==> iv[v].end <= iv[c].begin
    ensures Safe(iv, regMap[c := loc])
  {
  }

  lemma SlotsLocal(regMap: RegMap, c: Value, free: nat, stackLoc: nat)
    requires SlotsUnique(regMap, stackLoc) && c !in regMap
    ensures SlotsUnique(regMap[c := Location(free, false)], stackLoc)
  {
    assert OnStack(regMap[c := Location(free, false)]) == OnStack(regMap);
  }

  lemma EndedTake(iv: IntervalMap, regs: nat, regMap: RegMap, held: set<Value>, at: nat, c: Value, loc: Location)
    requires OthersEnded(iv, regs, regMap, held, at) && c !in regMap
    ensures OthersEnded(iv, regs, regMap[c := loc], held + {c}, at)
  {
  }

  lemma SafeEvict(iv: IntervalMap, regMap: RegMap, x: Value, slot: nat)
    requires Safe(iv, regMap)
    ensures Safe(iv, regMap[x := Location(slot, true)])
  {
  }

  /** Ended values give their register back. */
  lemma Release(iv: IntervalMap, regs: nat, pool: seq<nat>, regMap: RegMap, held: set<Value>,
                stackLoc: nat, at: nat, v: Value)
    requires Sound(iv, regs, pool, regMap, held, stackLoc, at)
    requires v in held && iv[v].end <= at
    ensures Sound(iv, regs, pool + [regMap[v].id], regMap, held - {v}, stackLoc, at)
  {
    PartitionRelease(regs, pool, regMap, held, v);
  }

  /** A free register goes to a new value: whoever used it before has ended. */
  lemma Take(iv: IntervalMap, regs: nat, pool: seq<nat>, free: nat, regMap: RegMap, held: set<Value>,
             stackLoc: nat, at: nat, c: Value)
    requires Sound(iv, regs, pool + [free], regMap, held, stackLoc, at)
    requires c in iv && c !in regMap && iv[c].begin == at
    ensures Sound(iv, regs, pool, regMap[c := Location(free, false)], held + {c}, stackLoc, at)
  {
    FreeIsUnowned(regs, pool, free, regMap, held);
    PartitionTake(regs, pool, free, regMap, held, c);
    SafeExtend(iv, regMap, c, Location(free, false));
    SlotsLocal(regMap, c, free, stackLoc);
    EndedTake(iv, regs, regMap, held, at, c, Location(free, false));
  }

  /** A value moves to a fresh stack slot; its register is free again. */
  lemma Evict(iv: IntervalMap, regs: nat, pool: seq<nat>, regMap: RegMap, held: set<Value>,
              stackLoc: nat, at: nat, x: Value)
    requires Sound(iv, regs, pool, regMap, held, stackLoc, at) && x in held
    ensures Sound(iv, regs, pool + [regMap[x].id], regMap[x := Location(stackLoc, true)], held - {x},
                  stackLoc + 1, at)
  {
    SlotsPush(regMap, stackLoc, x);
    SafeEvict(iv, regMap, x, stackLoc);
    PartitionRelease(regs, pool, regMap, held, x);
    PartitionLocal(regs, pool + [regMap[x].id], regMap, regMap[x := Location(stackLoc, true)], held - {x});
  }

  /** The partition only looks at the owners. */
  lemma PartitionLocal(regs: nat, pool: seq<nat>, regMap: RegMap, regMap': RegMap, held: set<Value>)
    requires RegistersPartitioned(regs, pool, regMap, held)
    requires forall v :: v in held && v in regMap ==> v in regMap' && regMap'[v] == regMap[v]
    ensures RegistersPartitioned(regs, pool, regMap', held)
  {
  }

  /** The current value takes over the register of `x`, and `x` moves to a fresh stack slot. */
  lemma TakeOver(iv: IntervalMap, regs: nat, pool: seq<nat>, regMap: RegMap, held: set<Value>,
                 stackLoc: nat, at: nat, c: Value, x: Value, regMap': RegMap)
    requires Sound(iv, regs, pool, regMap, held, stackLoc, at)
    requires c in iv && c !in regMap && iv[c].begin == at && x in held
    requires regMap' == regMap[c := Location(regMap[x].id, false)][x := Location(stackLoc, true)]
    ensures Sound(iv, regs, pool, regMap', held - {x} + {c}, stackLoc + 1, at)
  {
    var evicted := regMap[x := Location(stackLoc, true)];
    assert regMap' == evicted[c := Location(regMap[x].id, false)] && c !in evicted;
    Evict(iv, regs, pool, regMap, held, stackLoc, at, x);
    Take(iv, regs, pool, regMap[x].id, evicted, held - {x}, stackLoc + 1, at, c);
  }

  lemma ToStack(iv: IntervalMap, regs: nat, pool: seq<nat>, regMap: RegMap, held: set<Value>,
                stackLoc: nat, at: nat, c: Value)
    requires Sound(iv, regs, pool, regMap, held, stackLoc, at)
    requires c in iv && c !in regMap
    ensures Sound(iv, regs, pool, regMap[c := Location(stackLoc, true)], held, stackLoc + 1, at)
  {
    SlotsPush(regMap, stackLoc, c);
    SafeExtend(iv, regMap, c, Location(stackLoc, true));
    PartitionLocal(regs, pool, regMap, regMap[c := Location(stackLoc, true)], held);
  }

  lemma SortedFacts(iv: IntervalMap, active: seq<Value>)
    requires SortedByEnd(iv, active)
    ensures Distinct(active) && |Elems(active)| == |active|
    ensures |Ends(iv, Elems(active))| == |active|
  {
    ElemsSize(active);
    InjectiveImageSize(Elems(active), v => if v in iv then iv[v].end else 0, Ends(iv, Elems(active)));
  }

  /** The fields that the scan changes. `active` is the std::set keyed by interval end: at most one
      element per end point, in increasing order. */
  datatype Alloc = Alloc(pool: seq<nat>, regMap: RegMap, active: seq<Value>, stackLoc: nat)

  ghost predicate Closed(iv: IntervalMap, a: Alloc) {
    forall v :: v in a.active ==> v in iv && v in a.regMap
  }

  /** Id 0 sits at the back of the pool, so ids are handed out from 0 up. */
  function Fresh(regs: nat): Alloc {
    Alloc(seq(regs, i requires 0 <= i < regs => regs - 1 - i), map[], [], 0)
  }

  /** The active intervals that have ended by `b` give their registers back, earliest end first. */
  ghost function Expire(iv: IntervalMap, b: nat, a: Alloc): (r: Alloc)
    requires Closed(iv, a)
    ensures Closed(iv, r)
    decreases |a.active|
  {
    if a.active == [] || b < iv[a.active[0]].end then a
    else Expire(iv, b, a.(pool := a.pool + [a.regMap[a.active[0]].id], active := a.active[1..]))
  }

  /** std::set::insert: nothing happens when the end point is already there. */
  ghost function Insert(iv: IntervalMap, active: seq<Value>, c: Value): (r: seq<Value>)
    requires c in iv && forall v :: v in active ==> v in iv
    ensures forall v :: v in r ==> v in active || v == c
  {
    if active == [] || iv[c].end < iv[active[0]].end then [c] + active
    else if iv[c].end == iv[active[0]].end then active
    else [active[0]] + Insert(iv, active[1..], c)
  }

  lemma InsertBehind(iv: IntervalMap, active: seq<Value>, c: Value)
    requires c in iv && (forall v :: v in active ==> v in iv) && active != [] && iv[active[0]].end < iv[c].end
    ensures Insert(iv, active, c) == [active[0]] + Insert(iv, active[1..], c)
  {
  }

  lemma {:induction false} InsertSkips(iv: IntervalMap, active: seq<Value>, i: nat, c: Value)
    requires c in iv && (forall v :: v in active ==> v in iv) && i <= |active|
    requires forall j :: 0 <= j < i ==> iv[active[j]].end < iv[c].end
    ensures Insert(iv, active, c) == active[..i] + Insert(iv, active[i..], c)
  {
    hide Insert;
    if i > 0 {
      InsertBehind(iv, active, c);
      InsertSkips(iv, active[1..], i - 1, c);
      assert active[1..][i - 1..] == active[i..];
      assert [active[0]] + active[1..][..i - 1] == active[..i];
    }
  }

  ghost function SpillAt(iv: IntervalMap, a: Alloc, c: Value): (r: Alloc)
    requires Closed(iv, a) && a.active != [] && c in iv
    ensures Closed(iv, r)
  {
    var last := |a.active| - 1;
    var x := a.active[last];
    if iv[c].end < iv[x].end then
      Alloc(a.pool, a.regMap[c := Location(a.regMap[x].id, false)][x := Location(a.stackLoc, true)],
            Insert(iv, a.active[..last], c), a.stackLoc + 1)
    else
      a.(regMap := a.regMap[c := Location(a.stackLoc, true)], stackLoc := a.stackLoc + 1)
  }

  ghost function TakeFree(iv: IntervalMap, a: Alloc, c: Value): (r: Alloc)
    requires Closed(iv, a) && a.pool != [] && c in iv
    ensures Closed(iv, r)
  {
    var last := |a.pool| - 1;
    Alloc(a.pool[..last], a.regMap[c := Location(a.pool[last], false)], Insert(iv, a.active, c), a.stackLoc)
  }

  /** One turn of the scan; None stands for popping an empty pool, which is undefined behaviour. */
  ghost function Place(iv: IntervalMap, regs: nat, a: Alloc, c: Value): (r: Option<Alloc>)
    requires regs >= 1 && Closed(iv, a) && c in iv
    ensures r.Some? ==> Closed(iv, r.value)
  {
    var e := Expire(iv, iv[c].begin, a);
    if |e.active| == regs then Some(SpillAt(iv, e, c))
    else if e.pool == [] then None
    else Some(TakeFree(iv, e, c))
  }

  ghost function Scan(iv: IntervalMap, data: seq<Value>, regs: nat, k: nat, a: Alloc): (r: Option<Alloc>)
    requires regs >= 1 && k <= |data| && Closed(iv, a) && forall v :: v in data ==> v in iv
    decreases |data| - k
  {
    if k == |data| then Some(a) else
      match Place(iv, regs, a, data[k])
      case None => None
      case Some(next) => Scan(iv, data, regs, k + 1, next)
  }

  /** The state is consistent at scan point `at`; `dropped` are the values that hold a register but
      were refused by the active set, because their end point was taken. */
  ghost predicate Good(iv: IntervalMap, regs: nat, a: Alloc, dropped: set<Value>, at: nat) {
    && SortedByEnd(iv, a.active) && Elems(a.active) !! dropped
    && Sound(iv, regs, a.pool, a.regMap, Elems(a.active) + dropped, a.stackLoc, at)
  }

  lemma PopFirst(iv: IntervalMap, active: seq<Value>, dropped: set<Value>)
    requires SortedByEnd(iv, active) && active != [] && Elems(active) !! dropped
    ensures SortedByEnd(iv, active[1..])
    ensures Elems(active[1..]) == Elems(active) - {active[0]} && active[0] in Elems(active)
    ensures Elems(active[1..]) + dropped == Elems(active) + dropped - {active[0]}
  {
    assert active == [active[0]] + active[1..];
  }

  lemma PopLast(iv: IntervalMap, active: seq<Value>, dropped: set<Value>)
    requires SortedByEnd(iv, active) && active != [] && Elems(active) !! dropped
    ensures var last := |active| - 1;
      && SortedByEnd(iv, active[..last])
      && Elems(active[..last]) == Elems(active) - {active[last]} && active[last] in Elems(active)
      && EndsLastIn(iv, active, active[last])
      && forall v :: v in active[..last] ==> v in active
  {
    var last := |active| - 1;
    assert active == active[..last] + [active[last]];
  }

  ghost predicate EndsLastIn(iv: IntervalMap, active: seq<Value>, x: Value) {
    x in iv && forall v :: v in active && v != x ==> v in iv && iv[v].end < iv[x].end
  }

  lemma {:induction false} ExpireGood(iv: IntervalMap, regs: nat, a: Alloc, dropped: set<Value>, at: nat)
    requires Good(iv, regs, a, dropped, at) && Closed(iv, a)
    ensures var e := Expire(iv, at, a);
      && Good(iv, regs, e, dropped, at)
      && e.regMap == a.regMap && e.stackLoc == a.stackLoc
      && Elems(e.active) == set v | v in Elems(a.active) && v in iv && at < iv[v].end
    decreases |a.active|
  {
    hide RegistersPartitioned, Safe, SlotsUnique, OthersEnded;
    if a.active != [] {
      var first := a.active[0];
      if iv[first].end <= at {
        PopFirst(iv, a.active, dropped);
        Release(iv, regs, a.pool, a.regMap, Elems(a.active) + dropped, a.stackLoc, at, first);
        ExpireGood(iv, regs, a.(pool := a.pool + [a.regMap[first].id], active := a.active[1..]), dropped, at);
      }
    }
  }

  lemma SortedCons(iv: IntervalMap, x: Value, rest: seq<Value>)
    requires SortedByEnd(iv, rest) && x in iv
    requires forall v :: v in rest ==> iv[x].end < iv[v].end
    ensures SortedByEnd(iv, [x] + rest) && Elems([x] + rest) == {x} + Elems(rest)
  {
  }

  lemma SortedUncons(iv: IntervalMap, active: seq<Value>)
    requires SortedByEnd(iv, active) && active != []
    ensures active[0] in iv && SortedByEnd(iv, active[1..])
    ensures forall v :: v in active[1..] ==> iv[active[0]].end < iv[v].end
    ensures Elems(active) == {active[0]} + Elems(active[1..])
    ensures Ends(iv, Elems(active)) == {iv[active[0]].end} + Ends(iv, Elems(active[1..]))
  {
    assert active == [active[0]] + active[1..];
  }

  ghost predicate EndTaken(iv: IntervalMap, active: seq<Value>, e: nat) {
    exists v :: v in active && v in iv && iv[v].end == e
  }

  lemma TakenUncons(iv: IntervalMap, x: Value, rest: seq<Value>, e: nat)
    requires x in iv
    ensures EndTaken(iv, [x] + rest, e) <==> iv[x].end == e || EndTaken(iv, rest, e)
  {
  }

  lemma {:induction false} InsertSorted(iv: IntervalMap, active: seq<Value>, c: Value)
    requires SortedByEnd(iv, active) && c in iv && forall v :: v in active ==> v in iv
    ensures SortedByEnd(iv, Insert(iv, active, c))
    ensures EndTaken(iv, active, iv[c].end) ==> Insert(iv, active, c) == active
    ensures !EndTaken(iv, active, iv[c].end) ==> Elems(Insert(iv, active, c)) == Elems(active) + {c}
  {
    hide SortedByEnd, Elems, EndTaken;
    if active == [] {
      SortedCons(iv, c, []);
      NoneEndsAt(iv, [], iv[c].end);
      assert [c] + [] == [c];
    } else {
      SortedUncons(iv, active);
      var x, rest := active[0], active[1..];
      assert active == [x] + rest;
      TakenUncons(iv, x, rest, iv[c].end);
      if iv[c].end < iv[x].end {
        SortedCons(iv, c, active);
        NoneEndsAt(iv, active, iv[c].end);
      } else if iv[x].end < iv[c].end {
        InsertSorted(iv, rest, c);
        SortedCons(iv, x, Insert(iv, rest, c));
      }
    }
  }

  lemma NoneEndsAt(iv: IntervalMap, active: seq<Value>, e: nat)
    requires forall v :: v in active && v in iv ==> iv[v].end != e
    ensures !EndTaken(iv, active, e)
  {
  }

  /** A value that std::set refuses keeps its register for good. */
  ghost function DroppedBy(iv: IntervalMap, active: seq<Value>, dropped: set<Value>, c: Value): set<Value>
    requires c in iv
  {
    if EndTaken(iv, active, iv[c].end) then dropped + {c} else dropped
  }

  lemma InsertHolds(iv: IntervalMap, active: seq<Value>, dropped: set<Value>, c: Value)
    requires SortedByEnd(iv, active) && Elems(active) !! dropped
    requires c in iv && c !in active && c !in dropped && forall v :: v in active ==> v in iv
    ensures var active', dropped' := Insert(iv, active, c), DroppedBy(iv, active, dropped, c);
      && SortedByEnd(iv, active') && Elems(active') !! dropped'
      && Elems(active') + dropped' == Elems(active) + dropped + {c}
  {
    InsertSorted(iv, active, c);
  }

  lemma TakeGood(iv: IntervalMap, regs: nat, a: Alloc, dropped: set<Value>, at: nat, c: Value)
    requires Good(iv, regs, a, dropped, at) && Closed(iv, a) && a.pool != []
    requires c in iv && c !in a.regMap && iv[c].begin == at
    ensures Good(iv, regs, TakeFree(iv, a, c), DroppedBy(iv, a.active, dropped, c), at)
  {
    var last := |a.pool| - 1;
    assert a.pool == a.pool[..last] + [a.pool[last]];
    HeldLocated(iv, regs, a, dropped, at);
    InsertHolds(iv, a.active, dropped, c);
    hide Sound, SortedByEnd;
    Take(iv, regs, a.pool[..last], a.pool[last], a.regMap, Elems(a.active) + dropped, a.stackLoc, at, c);
  }

  lemma HeldLocated(iv: IntervalMap, regs: nat, a: Alloc, dropped: set<Value>, at: nat)
    requires Good(iv, regs, a, dropped, at)
    ensures forall v :: v in a.active || v in dropped ==> v in iv && v in a.regMap && InRegister(a.regMap, v)
    ensures |a.pool| + |a.active| + |dropped| == regs
  {
    SortedFacts(iv, a.active);
    assert forall v :: v in Elems(a.active) + dropped ==> v in iv;
    assert |Elems(a.active) + dropped| == |Elems(a.active)| + |dropped|;
  }

  /** What a full active set gives up at value `c`. */
  ghost function Victim(iv: IntervalMap, a: Alloc, c: Value): Value
    requires Closed(iv, a) && a.active != [] && c in iv
  {
    var x := a.active[|a.active| - 1];
    if iv[c].end < iv[x].end then x else c
  }

  ghost function DroppedBySpill(iv: IntervalMap, a: Alloc, dropped: set<Value>, c: Value): set<Value>
    requires Closed(iv, a) && a.active != [] && c in iv
  {
    if Victim(iv, a, c) == c then dropped else DroppedBy(iv, a.active[..|a.active| - 1], dropped, c)
  }

  lemma SpillGood(iv: IntervalMap, regs: nat, a: Alloc, dropped: set<Value>, at: nat, c: Value)
    requires Good(iv, regs, a, dropped, at) && Closed(iv, a) && a.active != []
    requires c in iv && c !in a.regMap && iv[c].begin == at
    ensures Good(iv, regs, SpillAt(iv, a, c), DroppedBySpill(iv, a, dropped, c), at)
  {
    hide Sound, SortedByEnd;
    HeldLocated(iv, regs, a, dropped, at);
    if Victim(iv, a, c) == c {
      assert c !in a.active;
      ToStack(iv, regs, a.pool, a.regMap, Elems(a.active) + dropped, a.stackLoc, at, c);
    } else {
      SpillActiveGood(iv, regs, a, dropped, at, c);
    }
  }

  lemma ReplaceLast(iv: IntervalMap, active: seq<Value>, dropped: set<Value>, c: Value)
    requires SortedByEnd(iv, active) && Elems(active) !! dropped && active != []
    requires c in iv && c !in active && c !in dropped && forall v :: v in active ==> v in iv
    ensures var front, x := active[..|active| - 1], active[|active| - 1];
      var active', dropped' := Insert(iv, front, c), DroppedBy(iv, front, dropped, c);
      && SortedByEnd(iv, active') && Elems(active') !! dropped' && x in Elems(active)
      && Elems(active') + dropped' == Elems(active) + dropped - {x} + {c}
  {
    PopLast(iv, active, dropped);
    InsertHolds(iv, active[..|active| - 1], dropped, c);
  }

  lemma SpillActiveGood(iv: IntervalMap, regs: nat, a: Alloc, dropped: set<Value>, at: nat, c: Value)
    requires Good(iv, regs, a, dropped, at) && Closed(iv, a) && a.active != []
    requires c in iv && c !in a.regMap && iv[c].begin == at && Victim(iv, a, c) != c
    ensures Good(iv, regs, SpillAt(iv, a, c), DroppedBySpill(iv, a, dropped, c), at)
  {
    hide Sound, SortedByEnd, Elems, Insert, InRegister, DroppedBy;
    HeldLocated(iv, regs, a, dropped, at);
    ReplaceLast(iv, a.active, dropped, c);
    TakeOver(iv, regs, a.pool, a.regMap, Elems(a.active) + dropped, a.stackLoc, at, c,
             a.active[|a.active| - 1], SpillAt(iv, a, c).regMap);
  }

  ghost function ScanPoint(iv: IntervalMap, data: seq<Value>, k: nat): nat
  {
    if 0 < k <= |data| && data[k - 1] in iv then iv[data[k - 1]].begin else 0
  }

  /** The state after the first `k` values. */
  ghost predicate Seen(iv: IntervalMap, data: seq<Value>, regs: nat, k: nat, a: Alloc, dropped: set<Value>) {
    && regs >= 1 && Ordered(iv, data) && k <= |data|
    && a.regMap.Keys == Elems(data[..k])
    && Good(iv, regs, a, dropped, ScanPoint(iv, data, k))
    && Closed(iv, a)
  }

  lemma FreshSeen(iv: IntervalMap, data: seq<Value>, regs: nat)
    requires regs >= 1 && Ordered(iv, data)
    ensures Seen(iv, data, regs, 0, Fresh(regs), {})
  {
    assert OnStack(Fresh(regs).regMap) == {};
  }

  lemma ExpireSeen(iv: IntervalMap, data: seq<Value>, regs: nat, k: nat, a: Alloc, dropped: set<Value>)
    requires Seen(iv, data, regs, k, a, dropped) && k < |data|
    ensures var b := iv[data[k]].begin; var e := Expire(iv, b, a);
      && Good(iv, regs, e, dropped, b)
      && e.regMap == a.regMap && e.stackLoc == a.stackLoc
      && Elems(e.active) == set v | v in Elems(a.active) && v in iv && b < iv[v].end
  {
    hide Sound, SortedByEnd, Ordered, Elems;
    OrderedStep(iv, data, k);
    var b := iv[data[k]].begin;
    Advance(iv, regs, a, dropped, ScanPoint(iv, data, k), b);
    ExpireGood(iv, regs, a, dropped, b);
  }

  lemma Advance(iv: IntervalMap, regs: nat, a: Alloc, dropped: set<Value>, at: nat, at': nat)
    requires Good(iv, regs, a, dropped, at) && at <= at'
    ensures Good(iv, regs, a, dropped, at')
  {
  }

  ghost function DroppedAfter(iv: IntervalMap, regs: nat, a: Alloc, dropped: set<Value>, c: Value): set<Value>
    requires regs >= 1 && Closed(iv, a) && c in iv
  {
    var e := Expire(iv, iv[c].begin, a);
    if |e.active| == regs then DroppedBySpill(iv, e, dropped, c) else DroppedBy(iv, e.active, dropped, c)
  }

  lemma PlaceSeen(iv: IntervalMap, data: seq<Value>, regs: nat, k: nat, a: Alloc, dropped: set<Value>)
    requires Seen(iv, data, regs, k, a, dropped) && k < |data| && data[k] in iv
    ensures var r := Place(iv, regs, a, data[k]);
      r.Some? ==> Seen(iv, data, regs, k + 1, r.value, DroppedAfter(iv, regs, a, dropped, data[k]))
  {
    hide Sound, SortedByEnd, Ordered, Elems, EndTaken;
    var c := data[k];
    var e := Expire(iv, iv[c].begin, a);
    OrderedStep(iv, data, k);
    ExpireSeen(iv, data, regs, k, a, dropped);
    if |e.active| == regs {
      SpillGood(iv, regs, e, dropped, iv[c].begin, c);
    } else if e.pool != [] {
      TakeGood(iv, regs, e, dropped, iv[c].begin, c);
    }
  }

  lemma {:induction false} ScanSeen(iv: IntervalMap, data: seq<Value>, regs: nat, k: nat, a: Alloc, dropped: set<Value>)
    returns (dropped': set<Value>)
    requires regs >= 1 && k <= |data| && Closed(iv, a) && forall v :: v in data ==> v in iv
    requires Seen(iv, data, regs, k, a, dropped)
    ensures var r := Scan(iv, data, regs, k, a); r.Some? ==> Seen(iv, data, regs, |data|, r.value, dropped')
    decreases |data| - k
  {
    hide Seen;
    dropped' := dropped;
    if k < |data| {
      PlaceSeen(iv, data, regs, k, a, dropped);
      var r := Place(iv, regs, a, data[k]);
      if r.Some? {
        dropped' := ScanSeen(iv, data, regs, k + 1, r.value, DroppedAfter(iv, regs, a, dropped, data[k]));
      }
    }
  }

  /** Safety and conservation for every run, equal end points included: all values are placed, values
      that overlap never share a register, every register id is below `regs`, stack slots are unique
      and as many as the spilled values, and each register is either free or owned by one value. */
  lemma ScanIsSafe(iv: IntervalMap, data: seq<Value>, regs: nat) returns (held: set<Value>)
    requires regs >= 1 && Ordered(iv, data) && Scan(iv, data, regs, 0, Fresh(regs)).Some?
    ensures FinalGuarantee(iv, data, regs, Scan(iv, data, regs, 0, Fresh(regs)).value, held)
  {
    hide Seen;
    FreshSeen(iv, data, regs);
    var dropped := ScanSeen(iv, data, regs, 0, Fresh(regs), {});
    held := SeenGuarantee(iv, data, regs, Scan(iv, data, regs, 0, Fresh(regs)).value, dropped);
  }

  ghost predicate FinalGuarantee(iv: IntervalMap, data: seq<Value>, regs: nat, r: Alloc, held: set<Value>) {
    && r.regMap.Keys == Elems(data)
    && Safe(iv, r.regMap)
    && (forall v :: InRegister(r.regMap, v) ==> r.regMap[v].id < regs)
    && SlotsUnique(r.regMap, r.stackLoc)
    && Elems(r.active) <= held <= Elems(data)
    && RegistersPartitioned(regs, r.pool, r.regMap, held)
    && Elems(r.pool) !! OwnedRegisters(r.regMap, held)
    && Elems(r.pool) + OwnedRegisters(r.regMap, held) == Below(regs)
  }

  lemma SeenGuarantee(iv: IntervalMap, data: seq<Value>, regs: nat, r: Alloc, dropped: set<Value>)
    returns (held: set<Value>)
    requires Seen(iv, data, regs, |data|, r, dropped)
    ensures FinalGuarantee(iv, data, regs, r, held)
  {
    hide Ordered, SortedByEnd, Elems, Below, OwnedRegisters, Distinct;
    held := Elems(r.active) + dropped;
    assert data[..|data|] == data;
    RegistersInRange(iv, regs, r, dropped, ScanPoint(iv, data, |data|));
    EveryRegisterAccounted(regs, r.pool, r.regMap, held);
  }

  lemma RegistersInRange(iv: IntervalMap, regs: nat, a: Alloc, dropped: set<Value>, at: nat)
    requires Good(iv, regs, a, dropped, at)
    ensures forall v :: InRegister(a.regMap, v) ==> a.regMap[v].id < regs
  {
    forall v | InRegister(a.regMap, v) ensures a.regMap[v].id < regs {
      if v in Elems(a.active) + dropped {
      } else {
        assert v in iv;
      }
    }
  }

  lemma EndsInsert(iv: IntervalMap, active: seq<Value>, c: Value)
    requires SortedByEnd(iv, active) && c in iv && forall v :: v in active ==> v in iv
    ensures EndTaken(iv, active, iv[c].end) <==> iv[c].end in Ends(iv, Elems(active))
    ensures Ends(iv, Elems(Insert(iv, active, c))) == Ends(iv, Elems(active)) + {iv[c].end}
  {
    hide SortedByEnd, Insert;
    InsertSorted(iv, active, c);
  }

  // ---- what a run spills, and when it runs out of registers ----

  /** The values that were given a register and still have it, or had it when they ended. */
  ghost function Kept(regMap: RegMap): set<Value> {
    regMap.Keys - OnStack(regMap)
  }

  /** The stack holds what the policy spills, up to the first refused insertion; after it nothing is spilled
      any more, because the active set cannot fill up again. */
  ghost predicate StackFollows(iv: IntervalMap, data: seq<Value>, regs: nat, k: nat, stack: set<Value>,
                               dropped: set<Value>)
    requires Ordered(iv, data) && k <= |data|
  {
    if dropped == {} then
      stack == Spills(iv, data, regs, k) && forall j: nat :: j < k ==> !Shares(iv, data, regs, j)
    else
      exists d: nat :: d < k && SharesFirst(iv, data, regs, d) && stack == Spills(iv, data, regs, d + 1)
  }

  /** The end points still ahead are those in the active set, and a value is lost for each shared end. */
  ghost predicate EndsFollow(iv: IntervalMap, at: nat, active: seq<Value>, kept: set<Value>, dropped: set<Value>) {
    && kept <= iv.Keys
    && |dropped| + |Ends(iv, kept)| == |kept|
    && (dropped == {} ==> EndsDiffer(iv, kept))
    && (forall v :: v in active ==> v in kept)
    && forall v :: v in kept && at < iv[v].end ==> iv[v].end in Ends(iv, Elems(active))
  }

  ghost predicate Tracks(iv: IntervalMap, data: seq<Value>, regs: nat, k: nat, a: Alloc, dropped: set<Value>) {
    && regs >= 1 && Ordered(iv, data) && k <= |data| && Closed(iv, a) && Seen(iv, data, regs, k, a, dropped)
    && StackFollows(iv, data, regs, k, OnStack(a.regMap), dropped)
    && EndsFollow(iv, ScanPoint(iv, data, k), a.active, Kept(a.regMap), dropped)
  }

  /** When no value is dropped, the active set after expiry is what the policy calls open. */
  lemma ActiveIsOpen(iv: IntervalMap, data: seq<Value>, regs: nat, k: nat, a: Alloc)
    requires Seen(iv, data, regs, k, a, {}) && k < |data| && Ordered(iv, data)
    ensures Elems(Expire(iv, iv[data[k]].begin, a).active) == Open(iv, data, OnStack(a.regMap), k)
  {
    hide Sound, SortedByEnd, Ordered, Expire, OnStack;
    OrderedStep(iv, data, k);
    var b := iv[data[k]].begin;
    var e := Expire(iv, b, a);
    ExpireSeen(iv, data, regs, k, a, {});
    OwnersAreActive(iv, regs, e, b);
    assert forall v :: v in data[..k] <==> v in Elems(data[..k]);
  }

  lemma OwnersAreActive(iv: IntervalMap, regs: nat, a: Alloc, at: nat)
    requires Good(iv, regs, a, {}, at)
    ensures forall v :: v in Elems(a.active) ==> v in a.regMap && v !in OnStack(a.regMap)
    ensures a.regMap.Keys <= iv.Keys
    ensures forall v :: v in a.regMap && v !in OnStack(a.regMap) && at < iv[v].end ==> v in Elems(a.active)
  {
    hide RegistersPartitioned, SlotsUnique, Safe, SortedByEnd;
    HeldLocated(iv, regs, a, {}, at);
    assert Elems(a.active) + {} == Elems(a.active);
  }

  lemma VictimIsFurthest(iv: IntervalMap, a: Alloc, c: Value)
    requires SortedByEnd(iv, a.active) && Closed(iv, a) && a.active != [] && c in iv
    ensures (forall v :: v in Elems(a.active) ==> v in iv) && Victim(iv, a, c) == Furthest(iv, Elems(a.active), c)
  {
    hide SortedByEnd;
    PopLast(iv, a.active, {});
  }

  lemma SpillStack(iv: IntervalMap, a: Alloc, c: Value)
    requires Closed(iv, a) && a.active != [] && c in iv && c !in a.regMap
    ensures OnStack(SpillAt(iv, a, c).regMap) == OnStack(a.regMap) + {Victim(iv, a, c)}
    ensures Kept(SpillAt(iv, a, c).regMap) == Kept(a.regMap) + {c} - {Victim(iv, a, c)}
  {
  }

  lemma TakeStack(iv: IntervalMap, a: Alloc, c: Value)
    requires Closed(iv, a) && a.pool != [] && c in iv && c !in a.regMap
    ensures OnStack(TakeFree(iv, a, c).regMap) == OnStack(a.regMap)
    ensures Kept(TakeFree(iv, a, c).regMap) == Kept(a.regMap) + {c}
  {
  }

  /** What is active once the intervals that have ended are expired, and how many registers are free. */
  lemma Expired(iv: IntervalMap, data: seq<Value>, regs: nat, k: nat, a: Alloc, dropped: set<Value>)
    requires Tracks(iv, data, regs, k, a, dropped) && k < |data| && data[k] in iv
    ensures var c, e := data[k], Expire(iv, iv[data[k]].begin, a);
      && e.regMap == a.regMap && c !in a.regMap && SortedByEnd(iv, e.active) && c !in dropped
      && iv[c].begin < iv[c].end && ScanPoint(iv, data, k + 1) == iv[c].begin
      && (forall v :: v in e.active ==> v in iv)
      && |e.pool| + |e.active| + |dropped| == regs && |Ends(iv, Elems(e.active))| == |e.active|
      && EndsFollow(iv, iv[c].begin, e.active, Kept(a.regMap), dropped)
      && Ends(iv, Elems(e.active)) == (set x | x in Ends(iv, Kept(a.regMap)) && iv[c].begin < x)
  {
    hide Sound, Ordered, Elems, Ends, SortedByEnd, InRegister, Distinct, Expire, Kept, StackFollows;
    var c := data[k];
    var e := Expire(iv, iv[c].begin, a);
    ExpireSeen(iv, data, regs, k, a, dropped);
    OrderedStep(iv, data, k);
    HeldLocated(iv, regs, e, dropped, iv[c].begin);
    SortedFacts(iv, e.active);
    EndsExpire(iv, ScanPoint(iv, data, k), iv[c].begin, a.active, e.active, Kept(a.regMap), dropped);
  }

  lemma EndsExpire(iv: IntervalMap, at: nat, b: nat, active: seq<Value>, active': seq<Value>, kept: set<Value>,
                   dropped: set<Value>)
    requires EndsFollow(iv, at, active, kept, dropped) && at <= b
    requires Elems(active') == set v | v in Elems(active) && v in iv && b < iv[v].end
    ensures EndsFollow(iv, b, active', kept, dropped)
    ensures Ends(iv, Elems(active')) == set x | x in Ends(iv, kept) && b < x
  {
    forall v | v in active' ensures v in kept && b < iv[v].end {
      assert v in Elems(active');
    }
  }

  /** A kept value joins the active set, or is dropped if its end is taken. */
  lemma EndsTake(iv: IntervalMap, active: seq<Value>, kept: set<Value>, dropped: set<Value>, c: Value)
    requires SortedByEnd(iv, active) && (forall v :: v in active ==> v in iv)
    requires c in iv && c !in kept && c !in dropped && iv[c].begin < iv[c].end
    requires EndsFollow(iv, iv[c].begin, active, kept, dropped)
    ensures EndsFollow(iv, iv[c].begin, Insert(iv, active, c), kept + {c}, DroppedBy(iv, active, dropped, c))
  {
    hide SortedByEnd, EndTaken, Insert, Elems, Ends;
    EndsInsert(iv, active, c);
    EndsAdd(iv, kept, c);
    ActiveEndsKept(iv, active, kept);
    FreshEnd(iv, active, kept, c);
    var e, ends, dropped' := iv[c].end, Ends(iv, kept), DroppedBy(iv, active, dropped, c);
    assert e in ends <==> EndTaken(iv, active, e);
    assert |kept + {c}| == |kept| + 1;
    if e in ends {
      assert ends + {e} == ends && |dropped'| == |dropped| + 1;
    } else {
      assert |ends + {e}| == |ends| + 1 && dropped' == dropped;
    }
    assert |dropped'| + |Ends(iv, kept + {c})| == |kept + {c}|;
    forall v | v in Insert(iv, active, c) ensures v in kept + {c} {
    }
    forall v | v in kept + {c} && iv[c].begin < iv[v].end ensures iv[v].end in Ends(iv, Elems(Insert(iv, active, c))) {
    }
  }

  lemma ActiveEndsKept(iv: IntervalMap, active: seq<Value>, kept: set<Value>)
    requires forall v :: v in active ==> v in kept
    ensures forall e :: e in Ends(iv, Elems(active)) ==> e in Ends(iv, kept)
  {
    assert forall v :: v in Elems(active) ==> v in kept;
  }

  /** Ends are counted: the new one is new among the kept ones just when it is new among the active ones. */
  lemma FreshEnd(iv: IntervalMap, active: seq<Value>, kept: set<Value>, c: Value)
    requires c in iv && kept <= iv.Keys && iv[c].begin < iv[c].end
    requires forall v :: v in kept && iv[c].begin < iv[v].end ==> iv[v].end in Ends(iv, Elems(active))
    ensures iv[c].end in Ends(iv, kept) ==> iv[c].end in Ends(iv, Elems(active))
    ensures iv[c].end !in Ends(iv, kept) ==> forall v :: v in kept ==> iv[v].end != iv[c].end
  {
    hide Elems;
  }

  /** The last of the active values goes to the stack; nothing has been dropped so far. */
  lemma EndsEvict(iv: IntervalMap, at: nat, active: seq<Value>, kept: set<Value>)
    requires SortedByEnd(iv, active) && active != [] && EndsFollow(iv, at, active, kept, {})
    ensures var last := |active| - 1;
      EndsFollow(iv, at, active[..last], kept - {active[last]}, {})
  {
    hide SortedByEnd;
    var last := |active| - 1;
    PopLast(iv, active, {});
    var x := active[last];
    EndsDifferSize(iv, kept - {x});
    forall v | v in kept - {x} && at < iv[v].end ensures iv[v].end in Ends(iv, Elems(active[..last])) {
      var w :| w in Elems(active) && w in iv && iv[w].end == iv[v].end;
      assert w in kept;
    }
    forall v | v in active[..last] ensures v in kept - {x} {
      assert v in Elems(active[..last]);
    }
  }

  lemma EndsTurn(iv: IntervalMap, regs: nat, e: Alloc, dropped: set<Value>, c: Value)
    requires SortedByEnd(iv, e.active) && Closed(iv, e) && c in iv && c !in e.regMap && c !in dropped
    requires iv[c].begin < iv[c].end && EndsFollow(iv, iv[c].begin, e.active, Kept(e.regMap), dropped)
    ensures e.active != [] && dropped == {} ==>
      var r := SpillAt(iv, e, c);
      EndsFollow(iv, iv[c].begin, r.active, Kept(r.regMap), DroppedBySpill(iv, e, dropped, c))
    ensures e.pool != [] ==>
      var r := TakeFree(iv, e, c);
      EndsFollow(iv, iv[c].begin, r.active, Kept(r.regMap), DroppedBy(iv, e.active, dropped, c))
  {
    hide SortedByEnd, EndsFollow, Insert, Elems, EndTaken, DroppedBy, OnStack;
    assert c !in Kept(e.regMap);
    if e.pool != [] {
      TakeStack(iv, e, c);
      EndsTake(iv, e.active, Kept(e.regMap), dropped, c);
    }
    if e.active != [] && dropped == {} {
      SpillStack(iv, e, c);
      var last := |e.active| - 1;
      if Victim(iv, e, c) == c {
        assert Kept(e.regMap) + {c} - {c} == Kept(e.regMap);
      } else {
        EndsEvict(iv, iv[c].begin, e.active, Kept(e.regMap));
        PopLast(iv, e.active, {});
        EndsTake(iv, e.active[..last], Kept(e.regMap) - {e.active[last]}, {}, c);
        assert Kept(e.regMap) + {c} - {e.active[last]} == Kept(e.regMap) - {e.active[last]} + {c};
      }
    }
  }

  /** Before any insertion has been refused, the next one is if and only if the new value shares its end with
      a kept one. */
  lemma RefusedIffShares(iv: IntervalMap, data: seq<Value>, regs: nat, k: nat, open: seq<Value>)
    requires Ordered(iv, data) && k < |data|
    requires forall v ::
      v in open <==> v in Open(iv, data, Spills(iv, data, regs, k), k) && v !in Spills(iv, data, regs, k + 1)
    requires Spills(iv, data, regs, k) <= Spills(iv, data, regs, k + 1) && data[k] !in Spills(iv, data, regs, k + 1)
    ensures Shares(iv, data, regs, k) <==> EndTaken(iv, open, iv[data[k]].end)
  {
    hide Spills;
    OrderedStep(iv, data, k);
    if Shares(iv, data, regs, k) {
      var v :| v in data[..k] && v !in Spills(iv, data, regs, k + 1) && iv[v].end == iv[data[k]].end;
      assert v in open;
    }
  }

  /** One turn before any insertion has been refused: it spills what the policy spills. */
  lemma PolicyTurn(iv: IntervalMap, data: seq<Value>, regs: nat, k: nat, a: Alloc)
    requires Tracks(iv, data, regs, k, a, {}) && k < |data| && data[k] in iv
    ensures Place(iv, regs, a, data[k]).Some?
    ensures var r, dropped := Place(iv, regs, a, data[k]).value, DroppedAfter(iv, regs, a, {}, data[k]);
      && OnStack(r.regMap) == Spills(iv, data, regs, k + 1)
      && (dropped == {} <==> !Shares(iv, data, regs, k))
  {
    hide Seen, SortedByEnd, Spills, Open, Furthest, Elems, Ends, EndsFollow, Kept, OnStack, Shares, Ordered, SpillAt,
      TakeFree, EndTaken, Expire, Victim;
    var c := data[k];
    var e := Expire(iv, iv[c].begin, a);
    Expired(iv, data, regs, k, a, {});
    ActiveIsOpen(iv, data, regs, k, a);
    SortedFacts(iv, e.active);
    SpillsUnfold(iv, data, regs, k);
    if |e.active| == regs {
      VictimIsFurthest(iv, e, c);
      SpillStack(iv, e, c);
      RefusedBySpill(iv, data, regs, k, e);
    } else {
      TakeStack(iv, e, c);
      RefusedByTake(iv, data, regs, k, e);
    }
  }

  lemma RefusedByTake(iv: IntervalMap, data: seq<Value>, regs: nat, k: nat, e: Alloc)
    requires Ordered(iv, data) && k < |data| && data[k] in iv
    requires Elems(e.active) == Open(iv, data, Spills(iv, data, regs, k), k)
    requires Spills(iv, data, regs, k + 1) == Spills(iv, data, regs, k)
    ensures DroppedBy(iv, e.active, {}, data[k]) == {} <==> !Shares(iv, data, regs, k)
  {
    hide Spills, Shares, EndTaken;
    OrderedStep(iv, data, k);
    SpilledBefore(iv, data, regs, k);
    assert forall v :: v in e.active <==> v in Elems(e.active);
    RefusedIffShares(iv, data, regs, k, e.active);
  }

  lemma SpilledBefore(iv: IntervalMap, data: seq<Value>, regs: nat, k: nat)
    requires Ordered(iv, data) && k < |data|
    ensures data[k] !in Spills(iv, data, regs, k)
  {
    OrderedStep(iv, data, k);
  }

  lemma RefusedBySpill(iv: IntervalMap, data: seq<Value>, regs: nat, k: nat, e: Alloc)
    requires Ordered(iv, data) && k < |data| && data[k] in iv && e.active != []
    requires Closed(iv, e) && SortedByEnd(iv, e.active)
    requires Elems(e.active) == Open(iv, data, Spills(iv, data, regs, k), k)
    requires Spills(iv, data, regs, k + 1) == Spills(iv, data, regs, k) + {Victim(iv, e, data[k])}
    ensures DroppedBySpill(iv, e, {}, data[k]) == {} <==> !Shares(iv, data, regs, k)
  {
    hide Spills, EndTaken, SortedByEnd;
    SpilledBefore(iv, data, regs, k);
    if Victim(iv, e, data[k]) != data[k] {
      hide Shares;
      var last := |e.active| - 1;
      PopLast(iv, e.active, {});
      assert forall v :: v in e.active[..last] <==> v in Elems(e.active[..last]);
      RefusedIffShares(iv, data, regs, k, e.active[..last]);
    }
  }

  /** One turn: a register is missing if and only if some insertion has been refused and the kept values crowd
      all registers. Otherwise everything goes on as described. */
  lemma TracksTurn(iv: IntervalMap, data: seq<Value>, regs: nat, k: nat, a: Alloc, dropped: set<Value>)
    requires Tracks(iv, data, regs, k, a, dropped) && k < |data| && data[k] in iv
    ensures var r := Place(iv, regs, a, data[k]);
      && (r.None? <==> dropped != {} && Crowded(iv, Kept(a.regMap), iv[data[k]].begin, regs))
      && (r.Some? ==> Tracks(iv, data, regs, k + 1, r.value, DroppedAfter(iv, regs, a, dropped, data[k])))
  {
    hide Seen, SortedByEnd, Elems, Ends, EndsFollow, Kept, OnStack, Shares, SpillAt, TakeFree, EndTaken, Expire,
      Victim, SharesFirst, StackFollows;
    var c := data[k];
    var e := Expire(iv, iv[c].begin, a);
    Expired(iv, data, regs, k, a, dropped);
    PlaceSeen(iv, data, regs, k, a, dropped);
    EndsTurn(iv, regs, e, dropped, c);
    CrowdedIsFull(iv, e.active, Kept(a.regMap), dropped, iv[c].begin, regs, |e.pool|);
    if Place(iv, regs, a, c).Some? {
      StackTurn(iv, data, regs, k, a, dropped);
    }
    if dropped == {} {
      PolicyTurn(iv, data, regs, k, a);
    } else {
      assert |dropped| > 0;
    }
  }

  lemma CrowdedIsFull(iv: IntervalMap, active: seq<Value>, kept: set<Value>, dropped: set<Value>, b: nat, regs: nat,
                      free: nat)
    requires EndsFollow(iv, b, active, kept, dropped) && |Ends(iv, Elems(active))| == |active|
    requires Ends(iv, Elems(active)) == set x | x in Ends(iv, kept) && b < x
    requires free + |active| + |dropped| == regs
    ensures Crowded(iv, kept, b, regs) <==> free == 0
  {
  }

  lemma StackTurn(iv: IntervalMap, data: seq<Value>, regs: nat, k: nat, a: Alloc, dropped: set<Value>)
    requires Tracks(iv, data, regs, k, a, dropped) && k < |data| && data[k] in iv && Place(iv, regs, a, data[k]).Some?
    ensures StackFollows(iv, data, regs, k + 1, OnStack(Place(iv, regs, a, data[k]).value.regMap),
                         DroppedAfter(iv, regs, a, dropped, data[k]))
  {
    hide Seen, SortedByEnd, Elems, Ends, EndsFollow, Kept, OnStack, Shares, SpillAt, TakeFree, EndTaken, Expire,
      Victim, Spills, Ordered, DroppedBySpill;
    if dropped == {} {
      PolicyTurn(iv, data, regs, k, a);
      if DroppedAfter(iv, regs, a, dropped, data[k]) != {} {
        assert SharesFirst(iv, data, regs, k);
      }
    } else {
      var e := Expire(iv, iv[data[k]].begin, a);
      Expired(iv, data, regs, k, a, dropped);
      assert |dropped| > 0;
      TakeStack(iv, e, data[k]);
      assert DroppedAfter(iv, regs, a, dropped, data[k]) != {};
      var d: nat :| d < k && SharesFirst(iv, data, regs, d) && OnStack(a.regMap) == Spills(iv, data, regs, d + 1);
    }
  }

  lemma FreshTracks(iv: IntervalMap, data: seq<Value>, regs: nat)
    requires regs >= 1 && Ordered(iv, data)
    ensures Tracks(iv, data, regs, 0, Fresh(regs), {})
  {
    FreshSeen(iv, data, regs);
    assert OnStack(Fresh(regs).regMap) == {} && Kept(Fresh(regs).regMap) == {};
    assert Ends(iv, {}) == {};
  }

  /** From any moment of a run on: it ends as described, or it runs out of registers just when the values
      kept so far crowd them after a shared end. */
  lemma {:induction false} ScanTracks(iv: IntervalMap, data: seq<Value>, regs: nat, k: nat, a: Alloc,
                                      dropped: set<Value>)
    returns (dropped': set<Value>)
    requires regs >= 1 && k <= |data| && Closed(iv, a) && forall v :: v in data ==> v in iv
    requires Ordered(iv, data) && Tracks(iv, data, regs, k, a, dropped)
    ensures var r := Scan(iv, data, regs, k, a); r.Some? ==> Tracks(iv, data, regs, |data|, r.value, dropped')
    ensures Scan(iv, data, regs, k, a).None? <==> exists d, j :: k <= j && RunsOut(iv, data, regs, d, j)
    decreases |data| - k
  {
    hide Tracks, RunsOut, Place, Closed, DroppedAfter, Ordered;
    dropped' := dropped;
    if k < |data| {
      TracksTurn(iv, data, regs, k, a, dropped);
      OutNow(iv, data, regs, k, a, dropped);
      var r := Place(iv, regs, a, data[k]);
      if r.Some? {
        dropped' := ScanTracks(iv, data, regs, k + 1, r.value, DroppedAfter(iv, regs, a, dropped, data[k]));
      }
    } else {
      forall d: nat, j: nat | k <= j ensures !RunsOut(iv, data, regs, d, j) {
        NotOutAtEnd(iv, data, regs, d, j);
      }
    }
  }

  lemma NotOutAtEnd(iv: IntervalMap, data: seq<Value>, regs: nat, d: nat, j: nat)
    requires Ordered(iv, data) && |data| <= j
    ensures !RunsOut(iv, data, regs, d, j)
  {
  }

  lemma OutNow(iv: IntervalMap, data: seq<Value>, regs: nat, k: nat, a: Alloc, dropped: set<Value>)
    requires Tracks(iv, data, regs, k, a, dropped) && k < |data| && data[k] in iv
    ensures dropped != {} && Crowded(iv, Kept(a.regMap), iv[data[k]].begin, regs) <==>
      exists d :: RunsOut(iv, data, regs, d, k)
  {
    hide Crowded, EndsFollow, Shares, Spills, Good, Ordered;
    if dropped != {} {
      var d: nat :| d < k && SharesFirst(iv, data, regs, d) && OnStack(a.regMap) == Spills(iv, data, regs, d + 1);
      forall d': nat | d' < k && SharesFirst(iv, data, regs, d') ensures d' == d {
      }
      assert Crowded(iv, Kept(a.regMap), iv[data[k]].begin, regs) <==> RunsOut(iv, data, regs, d, k);
    }
  }

  /** Exactly when a run is well defined: the scan pops an empty pool if and only if, after the first end
      that two kept values share, the intervals begun and not spilled crowd all registers at some begin. */
  lemma StarvesIffRunsOut(iv: IntervalMap, data: seq<Value>, regs: nat)
    requires regs >= 1 && Ordered(iv, data)
    ensures Scan(iv, data, regs, 0, Fresh(regs)).None? <==> exists d, k :: RunsOut(iv, data, regs, d, k)
  {
    hide RunsOut, Tracks, Scan;
    FreshTracks(iv, data, regs);
    AllHaveIntervals(iv, data);
    var dropped := ScanTracks(iv, data, regs, 0, Fresh(regs), {});
  }

  /** Every run that finishes has spilled what the policy had spilled at some moment. */
  lemma StackIsPolicys(iv: IntervalMap, data: seq<Value>, regs: nat) returns (m: nat)
    requires regs >= 1 && Ordered(iv, data) && Scan(iv, data, regs, 0, Fresh(regs)).Some?
    ensures m <= |data|
    ensures OnStack(Scan(iv, data, regs, 0, Fresh(regs)).value.regMap) == Spills(iv, data, regs, m)
    ensures m < |data| ==> m > 0 && SharesFirst(iv, data, regs, m - 1)
  {
    hide Scan, Seen, EndsFollow, RunsOut, Spills, Shares, SharesFirst;
    FreshTracks(iv, data, regs);
    AllHaveIntervals(iv, data);
    var dropped := ScanTracks(iv, data, regs, 0, Fresh(regs), {});
    m := |data|;
    if dropped != {} {
      var d: nat :| d < |data| && SharesFirst(iv, data, regs, d)
        && OnStack(Scan(iv, data, regs, 0, Fresh(regs)).value.regMap) == Spills(iv, data, regs, d + 1);
      m := d + 1;
    }
  }

  /** What is in registers fits, by safety alone. */
  lemma SafeFits(iv: IntervalMap, regs: nat, regMap: RegMap)
    requires Safe(iv, regMap) && forall v :: InRegister(regMap, v) ==> regMap[v].id < regs
    ensures Fits(iv, Kept(regMap), regs)
  {
    forall t: nat ensures |LiveAt(iv, Kept(regMap), t)| <= regs {
      var live := LiveAt(iv, Kept(regMap), t);
      var ids := set v | v in live && v in regMap :: regMap[v].id;
      forall u, v | u in live && v in live && regMap[u].id == regMap[v].id ensures u == v {
        assert u != v ==> ShareRegister(regMap, u, v) && iv[u].Overlaps(iv[v]);
      }
      InjectiveImageSize(live, v => if v in regMap then regMap[v].id else 0, ids);
      BelowSize(regs);
      SubsetSize(ids, Below(regs));
    }
  }

  /** Optimality of every run that finishes, equal ends included: what it keeps fits, and no set of values
      smaller than the one it spills can be taken out to make the rest fit. */
  lemma SpillsAreFewest(iv: IntervalMap, data: seq<Value>, regs: nat, removed: set<Value>)
    requires regs >= 1 && Ordered(iv, data) && Scan(iv, data, regs, 0, Fresh(regs)).Some?
    requires removed <= Elems(data) && Fits(iv, Elems(data) - removed, regs)
    ensures var r := Scan(iv, data, regs, 0, Fresh(regs)).value;
      && Fits(iv, Elems(data) - OnStack(r.regMap), regs)
      && r.stackLoc == |OnStack(r.regMap)| <= |removed|
  {
    hide Scan, Spills, Safe, Ordered, OnStack, Fits;
    AllHaveIntervals(iv, data);
    var m := StackIsPolicys(iv, data, regs);
    SpillsAreMinimal(iv, data, regs, m, removed);
    var held := ScanIsSafe(iv, data, regs);
    SafeFits(iv, regs, Scan(iv, data, regs, 0, Fresh(regs)).value.regMap);
  }

  // ---- the scan follows the rules ----

  /** Of the pool, what was never handed out lies at the bottom, and the rest came back, the latest on top. */
  ghost predicate PoolIs(pool: seq<nat>, regs: nat, used: nat, back: seq<nat>) {
    && used <= regs && |pool| == regs - used + |back| && pool[regs - used..] == back
    && forall i :: 0 <= i < regs - used ==> pool[i] == regs - 1 - i
  }

  ghost predicate Represents(regs: nat, a: Alloc, s: Snapshot) {
    a.regMap == s.regMap && Elems(a.active) == s.active && a.stackLoc == s.slots && PoolIs(a.pool, regs, s.used, s.back)
  }

  lemma ExpireStep(iv: IntervalMap, at: nat, a: Alloc)
    requires Closed(iv, a)
    ensures a.active != [] ==> a.active[0] in iv && a.active[0] in a.regMap
    ensures a.active == [] || at < iv[a.active[0]].end ==> Expire(iv, at, a) == a
    ensures a.active != [] && iv[a.active[0]].end <= at ==>
      var b := a.(pool := a.pool + [a.regMap[a.active[0]].id], active := a.active[1..]);
      Closed(iv, b) && Expire(iv, at, a) == Expire(iv, at, b)
  {
  }

  /** The first `k` active values have ended, and the next one has not. */
  ghost predicate EndedUpTo(iv: IntervalMap, at: nat, active: seq<Value>, k: nat) {
    && k <= |active| && (forall i :: 0 <= i < k ==> active[i] in iv && iv[active[i]].end <= at)
    && (k < |active| ==> active[k] in iv && at < iv[active[k]].end)
  }

  lemma EndedCons(iv: IntervalMap, at: nat, active: seq<Value>, k: nat)
    requires active != [] && active[0] in iv && iv[active[0]].end <= at && EndedUpTo(iv, at, active[1..], k)
    ensures EndedUpTo(iv, at, active, k + 1)
  {
  }

  /** Expiry takes the values that have ended off the front, and puts their registers on top of the pool. */
  lemma {:induction false} ExpireFront(iv: IntervalMap, at: nat, a: Alloc) returns (k: nat)
    requires Closed(iv, a)
    ensures k <= |a.active| && EndedUpTo(iv, at, a.active, k)
    ensures Expire(iv, at, a) == a.(pool := a.pool + RegistersOf(a.regMap, a.active[..k]), active := a.active[k..])
    decreases |a.active|
  {
    hide RegistersOf, Expire, Closed, EndedUpTo;
    ExpireStep(iv, at, a);
    if a.active != [] && iv[a.active[0]].end <= at {
      var x, rest := a.active[0], a.active[1..];
      var b := a.(pool := a.pool + [a.regMap[x].id], active := rest);
      var j := ExpireFront(iv, at, b);
      k := j + 1;
      EndedCons(iv, at, a.active, j);
      assert a.active[..k] == [x] + rest[..j] && a.active[k..] == rest[j..];
      OneMoreRegister(a.regMap, x, rest[..j]);
      assert a.pool + [a.regMap[x].id] + RegistersOf(a.regMap, rest[..j])
          == a.pool + RegistersOf(a.regMap, a.active[..k]);
    } else {
      k := 0;
      NoneEnded(iv, at, a.active);
      assert a.active[..0] == [] && a.active[0..] == a.active && a.pool + RegistersOf(a.regMap, []) == a.pool;
    }
  }

  lemma NoneEnded(iv: IntervalMap, at: nat, active: seq<Value>)
    requires active != [] ==> active[0] in iv && at < iv[active[0]].end
    ensures EndedUpTo(iv, at, active, 0)
  {
  }

  lemma OneMoreRegister(regMap: RegMap, x: Value, rest: seq<Value>)
    requires x in regMap
    ensures RegistersOf(regMap, [x] + rest) == [regMap[x].id] + RegistersOf(regMap, rest)
  {
  }

  lemma FrontEnded(iv: IntervalMap, at: nat, active: seq<Value>, k: nat)
    requires SortedByEnd(iv, active) && k <= |active| && EndedUpTo(iv, at, active, k)
    ensures EndedInOrder(iv, Elems(active), at, active[..k])
  {
    forall v | v in active && v in iv && iv[v].end <= at ensures v in active[..k] {
      var i :| 0 <= i < |active| && active[i] == v;
      assert active[..k][if i < k then i else 0] == active[if i < k then i else 0];
    }
  }

  lemma BackSorted(iv: IntervalMap, active: seq<Value>, k: nat)
    requires SortedByEnd(iv, active) && k <= |active|
    ensures SortedByEnd(iv, active[k..]) && Elems(active[k..]) == Elems(active) - Elems(active[..k])
    ensures |Elems(active[k..])| == |active[k..]|
  {
    SortedFacts(iv, active);
    ElemsSize(active[k..]);
    BackElems(active, k);
  }

  lemma BackElems(s: seq<Value>, k: nat)
    requires Distinct(s) && k <= |s|
    ensures Elems(s[k..]) == Elems(s) - Elems(s[..k])
  {
    assert s == s[..k] + s[k..];
    forall v | v in s[k..] ensures v !in s[..k] {
      var i :| 0 <= i < |s[k..]| && s[k..][i] == v;
      assert s[k + i] == v;
    }
  }

  lemma PoolGrows(pool: seq<nat>, regs: nat, used: nat, back: seq<nat>, ids: seq<nat>)
    requires PoolIs(pool, regs, used, back)
    ensures PoolIs(pool + ids, regs, used, back + ids)
  {
  }

  /** On top of the pool is the register given back last, or else the smallest one never handed out. */
  lemma PoolTop(pool: seq<nat>, regs: nat, used: nat, free: seq<nat>)
    requires PoolIs(pool, regs, used, free) && pool != []
    ensures var n, m := |pool| - 1, |free| - 1;
      if free != [] then pool[n] == free[m] && PoolIs(pool[..n], regs, used, free[..m])
      else used < regs && pool[n] == used && PoolIs(pool[..n], regs, used + 1, [])
  {
    var n := |pool| - 1;
    if free != [] {
      assert pool[n] == pool[regs - used..][n - (regs - used)];
      assert pool[..n][regs - used..] == pool[regs - used..][..|free| - 1];
    }
  }

  lemma InsertJoins(iv: IntervalMap, active: seq<Value>, c: Value)
    requires SortedByEnd(iv, active) && c in iv
    ensures SortedByEnd(iv, Insert(iv, active, c)) && Elems(Insert(iv, active, c)) == Joined(iv, Elems(active), c)
  {
    hide Insert;
    InsertSorted(iv, active, c);
    assert EndTaken(iv, active, iv[c].end) <==> exists v :: v in Elems(active) && v in iv && iv[v].end == iv[c].end;
  }

  lemma SpillRefines(iv: IntervalMap, regs: nat, e: Alloc, s: Snapshot, c: Value, free: seq<nat>)
    requires SortedByEnd(iv, e.active) && Closed(iv, e) && e.active != [] && c in iv
    requires s.regMap == e.regMap && s.slots == e.stackLoc && PoolIs(e.pool, regs, s.used, free)
    ensures var r := SpillAt(iv, e, c);
      var t := Snapshot(r.regMap, Elems(r.active), r.stackLoc, s.used, free);
      && Represents(regs, r, t) && SortedByEnd(iv, r.active)
      && UsesSlot(iv, s, c, t, Elems(e.active), free, e.active[|e.active| - 1])
  {
    hide Insert, Joined, PoolIs;
    var last := |e.active| - 1;
    PopLast(iv, e.active, {});
    InsertJoins(iv, e.active[..last], c);
  }

  lemma TakeRefines(iv: IntervalMap, regs: nat, e: Alloc, s: Snapshot, c: Value, free: seq<nat>) returns (t: Snapshot)
    requires SortedByEnd(iv, e.active) && Closed(iv, e) && e.pool != [] && c in iv
    requires s.regMap == e.regMap && s.slots == e.stackLoc && PoolIs(e.pool, regs, s.used, free)
    ensures var r := TakeFree(iv, e, c);
      Represents(regs, r, t) && SortedByEnd(iv, r.active) && TakesRegister(iv, regs, s, c, t, Elems(e.active), free)
  {
    hide Insert, Joined, PoolIs, SortedByEnd;
    PoolTop(e.pool, regs, s.used, free);
    InsertJoins(iv, e.active, c);
    var r := TakeFree(iv, e, c);
    t := if free != [] then Snapshot(r.regMap, Elems(r.active), r.stackLoc, s.used, free[..|free| - 1])
      else Snapshot(r.regMap, Elems(r.active), r.stackLoc, s.used + 1, []);
  }

  /** Every turn that succeeds is a turn of the rules. */
  lemma TurnRefines(iv: IntervalMap, regs: nat, a: Alloc, s: Snapshot, c: Value) returns (t: Snapshot)
    requires regs >= 1 && SortedByEnd(iv, a.active) && Closed(iv, a) && Represents(regs, a, s) && c in iv
    requires Place(iv, regs, a, c).Some?
    ensures Turn(iv, regs, s, c, t) && Represents(regs, Place(iv, regs, a, c).value, t)
    ensures SortedByEnd(iv, Place(iv, regs, a, c).value.active)
  {
    hide SortedByEnd, Expire, PoolIs, RegistersOf, EndedUpTo, SpillAt, TakeFree, UsesSlot, TakesRegister,
      EndedInOrder, Elems;
    var at := iv[c].begin;
    var k := ExpireFront(iv, at, a);
    var e, ended := Expire(iv, at, a), a.active[..k];
    FrontEnded(iv, at, a.active, k);
    BackSorted(iv, a.active, k);
    var free := s.back + RegistersOf(s.regMap, ended);
    PoolGrows(a.pool, regs, s.used, s.back, RegistersOf(s.regMap, ended));
    if |e.active| == regs {
      SpillRefines(iv, regs, e, s, c, free);
      var r := SpillAt(iv, e, c);
      t := Snapshot(r.regMap, Elems(r.active), r.stackLoc, s.used, free);
    } else {
      t := TakeRefines(iv, regs, e, s, c, free);
    }
    assert TurnBy(iv, regs, s, c, t, ended);
  }

  /** From turn `k` on, the scan goes on as the rules do. */
  lemma {:induction false} ScanRefines(iv: IntervalMap, data: seq<Value>, regs: nat, k: nat, a: Alloc,
                                       run: seq<Snapshot>)
    returns (all: seq<Snapshot>)
    requires regs >= 1 && k <= |data| && Closed(iv, a) && (forall v :: v in data ==> v in iv)
    requires SortedByEnd(iv, a.active) && |run| == k + 1 && IsRun(iv, data, regs, run) && Represents(regs, a, run[k])
    requires Scan(iv, data, regs, k, a).Some?
    ensures EndsIn(iv, data, regs, all, Scan(iv, data, regs, k, a).value.regMap)
    decreases |data| - k
  {
    hide SortedByEnd, Place, Turn, Closed, PoolIs;
    if k == |data| {
      all := run;
    } else {
      var t := TurnRefines(iv, regs, a, run[k], data[k]);
      var longer := run + [t];
      forall j | 0 <= j < |longer| - 1 ensures Turn(iv, regs, longer[j], data[j], longer[j + 1]) {
        assert j < k ==> Turn(iv, regs, run[j], data[j], run[j + 1]);
      }
      all := ScanRefines(iv, data, regs, k + 1, Place(iv, regs, a, data[k]).value, longer);
    }
  }

  /** Every run that finishes has placed the values by the rules. */
  lemma ScanFollowsRules(iv: IntervalMap, data: seq<Value>, regs: nat)
    requires regs >= 1 && (forall v :: v in data ==> v in iv) && Scan(iv, data, regs, 0, Fresh(regs)).Some?
    ensures PlacedByRules(iv, data, regs, Scan(iv, data, regs, 0, Fresh(regs)).value.regMap)
  {
    hide Scan, Turn;
    assert Fresh(regs).pool[regs..] == [] && Elems(Fresh(regs).active) == {};
    var all := ScanRefines(iv, data, regs, 0, Fresh(regs), [START]);
  }

  lemma AllHaveIntervals(iv: IntervalMap, data: seq<Value>)
    requires Ordered(iv, data)
    ensures forall v :: v in data ==> v in iv
  {
  }

  /** Progress: if no two intervals end at the same point no register runs out, and the stack holds the
      policy's spills. */
  lemma DistinctEndsRun(iv: IntervalMap, data: seq<Value>, regs: nat)
    requires regs >= 1 && Ordered(iv, data) && DistinctEndsOf(iv, data)
    ensures var r := Scan(iv, data, regs, 0, Fresh(regs));
      r.Some? && OnStack(r.value.regMap) == Spills(iv, data, regs, |data|)
  {
    hide Scan, Spills, Crowded, Fresh;
    assert forall d: nat :: d < |data| ==> !Shares(iv, data, regs, d) by {
      forall d: nat | d < |data| ensures !Shares(iv, data, regs, d) {
        DistinctNeverShares(iv, data, regs, d);
      }
    }
    StarvesIffRunsOut(iv, data, regs);
    var m := StackIsPolicys(iv, data, regs);
  }

  lemma DistinctNeverShares(iv: IntervalMap, data: seq<Value>, regs: nat, d: nat)
    requires Ordered(iv, data) && DistinctEndsOf(iv, data) && d < |data|
    ensures !Shares(iv, data, regs, d)
  {
    OrderedStep(iv, data, d);
  }

  /** The values of `spilled` can be taken out to make the rest fit, and no smaller set can. */
  ghost predicate FewestSpills(iv: IntervalMap, data: seq<Value>, regs: nat, spilled: set<Value>) {
    && spilled <= Elems(data) && Fits(iv, Elems(data) - spilled, regs)
    && forall removed :: removed <= Elems(data) && Fits(iv, Elems(data) - removed, regs) ==> |spilled| <= |removed|
  }

  lemma RunGuarantee(iv: IntervalMap, data: seq<Value>, regs: nat)
    requires regs >= 1 && Ordered(iv, data) && forall v :: v in data ==> v in iv
    ensures DistinctEndsOf(iv, data) ==> Scan(iv, data, regs, 0, Fresh(regs)).Some?
    ensures Scan(iv, data, regs, 0, Fresh(regs)).Some? ==>
      var r := Scan(iv, data, regs, 0, Fresh(regs)).value;
      (exists held :: FinalGuarantee(iv, data, regs, r, held)) && FewestSpills(iv, data, regs, OnStack(r.regMap))
  {
    hide Scan, Fits, Ordered, FinalGuarantee, DistinctEndsOf, OnStack;
    AllHaveIntervals(iv, data);
    if DistinctEndsOf(iv, data) {
      DistinctEndsRun(iv, data, regs);
    }
    if Scan(iv, data, regs, 0, Fresh(regs)).Some? {
      var r := Scan(iv, data, regs, 0, Fresh(regs)).value;
      var held := ScanIsSafe(iv, data, regs);
      StackInData(iv, data, regs, r, held);
      EverythingRemoved(iv, data, regs);
      SpillsAreFewest(iv, data, regs, Elems(data));
      forall removed | removed <= Elems(data) && Fits(iv, Elems(data) - removed, regs)
        ensures |OnStack(r.regMap)| <= |removed|
      {
        SpillsAreFewest(iv, data, regs, removed);
      }
    }
  }

  lemma StackInData(iv: IntervalMap, data: seq<Value>, regs: nat, r: Alloc, held: set<Value>)
    requires FinalGuarantee(iv, data, regs, r, held)
    ensures OnStack(r.regMap) <= Elems(data)
  {
  }

  lemma EverythingRemoved(iv: IntervalMap, data: seq<Value>, regs: nat)
    ensures Fits(iv, Elems(data) - Elems(data), regs)
  {
    assert Elems(data) - Elems(data) == {};
    forall t: nat ensures |LiveAt(iv, {}, t)| <= regs {
      assert LiveAt(iv, {}, t) == {};
    }
  }

  const SAME_ENDS: IntervalMap :=
    map[0 := Interval(0, 4), 1 := Interval(0, 4), 2 := Interval(5, 6), 3 := Interval(5, 7)]

  lemma SameEndsFit()
    ensures Ordered(SAME_ENDS, [0, 1, 2, 3]) && Fits(SAME_ENDS, {0, 1, 2, 3}, 2)
  {
    forall t: nat ensures |LiveAt(SAME_ENDS, {0, 1, 2, 3}, t)| <= 2 {
      SubsetSize(LiveAt(SAME_ENDS, {0, 1, 2, 3}, t), if t < 4 then {0, 1} else {2, 3});
    }
  }

  lemma SameEndsSpills()
    ensures Ordered(SAME_ENDS, [0, 1, 2, 3])
    ensures Spills(SAME_ENDS, [0, 1, 2, 3], 2, 1) == {} && Spills(SAME_ENDS, [0, 1, 2, 3], 2, 2) == {}
  {
    SameEndsFit();
    var data := [0, 1, 2, 3];
    assert data[..0] == [] && data[..1] == [0] && data[0] == 0 && data[1] == 1;
    assert Spills(SAME_ENDS, data, 2, 0) == {};
    assert Open(SAME_ENDS, data, {}, 0) == {};
    assert Spills(SAME_ENDS, data, 2, 1) == {};
    assert Open(SAME_ENDS, data, {}, 1) == {0};
  }

  /** Equal end points are not harmless: these four values never need more than two registers at a
      time, yet with two registers the scan pops an empty pool, because value 1 is refused by the
      active set and never gives its register back. */
  lemma EqualEndsStarve()
    ensures Ordered(SAME_ENDS, [0, 1, 2, 3]) && Fits(SAME_ENDS, {0, 1, 2, 3}, 2)
    ensures Scan(SAME_ENDS, [0, 1, 2, 3], 2, 0, Fresh(2)) == None
  {
    hide Ordered, Fits, Scan, Spills, Crowded, Shares, SAME_ENDS;
    var iv, data := SAME_ENDS, [0, 1, 2, 3];
    SameEndsFit();
    SameEndsSpills();
    StarvesIffRunsOut(iv, data, 2);
    SecondShares();
    ThirdIsCrowded();
    assert RunsOut(iv, data, 2, 1, 3);
  }

  lemma SecondShares()
    ensures Ordered(SAME_ENDS, [0, 1, 2, 3]) && SharesFirst(SAME_ENDS, [0, 1, 2, 3], 2, 1)
    ensures SAME_ENDS.Keys == {0, 1, 2, 3} && SAME_ENDS[3].begin == 5
  {
    hide Ordered, Spills;
    var data := [0, 1, 2, 3];
    SameEndsSpills();
    assert data[..0] == [] && data[..1] == [0] && data[0] == 0 && data[1] == 1;
    assert 0 in data[..1];
    assert SAME_ENDS[0].end == SAME_ENDS[1].end;
  }

  lemma ThirdIsCrowded()
    ensures Crowded(SAME_ENDS, Elems([0, 1, 2, 3][..3]) - {}, 5, 2)
  {
    hide Crowded;
    var kept: set<Value> := Elems([0, 1, 2, 3][..3]) - {};
    assert [0, 1, 2, 3][..3] == [0, 1, 2];
    assert kept == {0, 1, 2};
    CrowdedByThree(kept);
  }

  lemma CrowdedByThree(kept: set<Value>)
    requires kept == {0, 1, 2}
    ensures Crowded(SAME_ENDS, kept, 5, 2)
  {
    var ends := Ends(SAME_ENDS, kept);
    assert ends == {4, 6};
    var ahead := set e | e in ends && 5 < e;
    assert ahead == {6};
    assert |kept| == 3 && |ends| == 2 && |ahead| == 1;
  }

  lemma SortsTransitive(iv: IntervalMap, s: set<Value>, x: Value, y: Value)
    requires forall v :: v in s ==> v in iv && iv[v].begin < iv[v].end
    requires x in s && y in s && SortsBefore(iv, x, y)
    ensures forall u :: u in s && SortsBefore(iv, u, x) ==> SortsBefore(iv, u, y)
    ensures !SortsBefore(iv, x, x)
  {
  }

  lemma FirstExists(iv: IntervalMap, s: set<Value>)
    requires s != {} && forall v :: v in s ==> v in iv && iv[v].begin < iv[v].end
    ensures exists v :: v in s && forall u :: u in s ==> !SortsBefore(iv, u, v)
  {
    var x :| x in s;
    assert !SortsBefore(iv, x, x);
    if s == {x} {
    } else {
      FirstExists(iv, s - {x});
      var y :| y in s - {x} && forall u :: u in s - {x} ==> !SortsBefore(iv, u, y);
      FirstOfTwo(iv, s, x, y);
    }
  }

  lemma FirstOfTwo(iv: IntervalMap, s: set<Value>, x: Value, y: Value)
    requires forall v :: v in s ==> v in iv && iv[v].begin < iv[v].end
    requires x in s && y in s && forall u :: u in s - {x} ==> !SortsBefore(iv, u, y)
    ensures exists v :: v in s && forall u :: u in s ==> !SortsBefore(iv, u, v)
  {
    hide SortsBefore;
    if SortsBefore(iv, x, y) {
      SortsTransitive(iv, s, x, y);
      assert forall u :: u in s ==> !SortsBefore(iv, u, x);
    } else {
      assert forall u :: u in s ==> !SortsBefore(iv, u, y);
    }
  }

  /** The values with a non-empty interval, in the order of the comparator; ties may fall either way, as
      they may with std::sort over a hash map. */
  method ScanOrder(iv: IntervalMap) returns (data: seq<Value>)
    requires Intervals.WellFormed(iv)
    ensures IsScanOrder(iv, data)
  {
    hide SortsBefore;
    var todo := set v | v in iv && iv[v].begin != iv[v].end;
    data := [];
    while todo != {}
      invariant forall v :: v in todo ==> v in iv && iv[v].begin < iv[v].end
      invariant Distinct(data) && Elems(data) !! todo
      invariant forall v :: v in data || v in todo <==> v in iv && iv[v].begin != iv[v].end
      invariant forall i, j :: 0 <= i < j < |data| ==> !SortsBefore(iv, data[j], data[i])
      invariant forall i, u :: 0 <= i < |data| && u in todo ==> !SortsBefore(iv, u, data[i])
      decreases |todo|
    {
      FirstExists(iv, todo);
      var v :| v in todo && forall u :: u in todo ==> !SortsBefore(iv, u, v);
      assert v !in data by { assert v !in Elems(data); }
      todo := todo - {v};
      data := data + [v];
    }
  }

  class RegAllocAnalyzer {
    const regsNum: nat
    const intervals: IntervalMap
    const data: seq<Value>

    var regPool: seq<nat>
    var regMap: RegMap
    var active: seq<Value>
    var stackLoc: nat

    ghost function State(): Alloc
      reads this
    {
      Alloc(regPool, regMap, active, stackLoc)
    }

    constructor (regs: nat, iv: IntervalMap, order: seq<Value>)
      requires regs >= 1 && IsScanOrder(iv, order)
      ensures State() == Fresh(regs)
      ensures |regPool| == regs && forall i :: 0 <= i < regs ==> regPool[i] == regs - 1 - i
      ensures regMap == map[] && active == [] && stackLoc == 0
      ensures regsNum == regs && intervals == iv && data == order
    {
      regsNum, intervals, data := regs, iv, order;
      regPool := seq(regs, i requires 0 <= i < regs => regs - 1 - i);
      regMap, active, stackLoc := map[], [], 0;
    }

    method ExpireOldIntervals(c: Value)
      requires Closed(intervals, State()) && c in intervals
      modifies this`regPool, this`active
      ensures State() == Expire(intervals, intervals[c].begin, old(State()))
    {
      while active != []
        invariant Closed(intervals, State())
        invariant Expire(intervals, intervals[c].begin, State())
               == Expire(intervals, intervals[c].begin, old(State()))
        decreases |active|
      {
        if intervals[c].begin < intervals[active[0]].end {
          return;
        }
        regPool := regPool + [regMap[active[0]].id];
        active := active[1..];
      }
    }

    /** m_active.insert: find the place, and leave the set alone if the end point is taken. */
    method InsertActive(c: Value)
      requires c in intervals && forall v :: v in active ==> v in intervals
      modifies this`active
      ensures active == Insert(intervals, old(active), c)
    {
      var i := 0;
      while i < |active| && intervals[active[i]].end < intervals[c].end
        invariant i <= |active|
        invariant forall j :: 0 <= j < i ==> intervals[active[j]].end < intervals[c].end
      {
        i := i + 1;
      }
      InsertSkips(intervals, active, i, c);
      if i == |active| || intervals[c].end < intervals[active[i]].end {
        active := active[..i] + [c] + active[i..];
      }
    }

    method SpillAtInterval(c: Value)
      requires Closed(intervals, State()) && active != [] && c in intervals
      modifies this`regMap, this`active, this`stackLoc
      ensures State() == SpillAt(intervals, old(State()), c)
    {
      var x := active[|active| - 1];
      if intervals[c].end < intervals[x].end {
        regMap := regMap[c := Location(regMap[x].id, false)];
        regMap := regMap[x := Location(stackLoc, true)];
        active := active[..|active| - 1];
        InsertActive(c);
      } else {
        regMap := regMap[c := Location(stackLoc, true)];
      }
      stackLoc := stackLoc + 1;
    }

    /** The body of the scan loop. Returns false where the original would pop an empty pool. */
    method PlaceNext(c: Value) returns (ok: bool)
      requires regsNum >= 1 && Closed(intervals, State()) && c in intervals
      modifies this
      ensures ok <==> Place(intervals, regsNum, old(State()), c).Some?
      ensures ok ==> State() == Place(intervals, regsNum, old(State()), c).value
    {
      ExpireOldIntervals(c);
      if |active| == regsNum {
        SpillAtInterval(c);
      } else {
        if regPool == [] {
          return false;
        }
        var free := regPool[|regPool| - 1];
        regPool := regPool[..|regPool| - 1];
        InsertActive(c);
        regMap := regMap[c := Location(free, false)];
      }
      return true;
    }

    /** Whatever the end points are, a run that finishes is safe, accounts for every register and spills as few
        values as possible; it finishes exactly when no register runs out. */
    method LinearScan() returns (ok: bool)
      requires regsNum >= 1 && IsScanOrder(intervals, data) && State() == Fresh(regsNum)
      modifies this
      ensures Ordered(intervals, data)
      ensures ok <==> !exists d, k :: RunsOut(intervals, data, regsNum, d, k)
      ensures ok <==> Scan(intervals, data, regsNum, 0, Fresh(regsNum)).Some?
      ensures ok ==> State() == Scan(intervals, data, regsNum, 0, Fresh(regsNum)).value
      ensures ok ==> exists held :: FinalGuarantee(intervals, data, regsNum, State(), held)
      ensures ok ==> FewestSpills(intervals, data, regsNum, OnStack(regMap))
      ensures ok ==> PlacedByRules(intervals, data, regsNum, regMap)
      ensures DistinctEndsOf(intervals, data) ==> ok
    {
      hide Ordered, IsScanOrder, RunsOut, Place, FinalGuarantee, DistinctEndsOf, FewestSpills, OnStack,
        PlacedByRules;
      ScanOrderIsOrdered(intervals, data);
      AllHaveIntervals(intervals, data);
      if Scan(intervals, data, regsNum, 0, Fresh(regsNum)).Some? {
        ScanFollowsRules(intervals, data, regsNum);
      }
      StarvesIffRunsOut(intervals, data, regsNum);
      RunGuarantee(intervals, data, regsNum);
      ok := true;
      for k := 0 to |data|
        invariant ok && Closed(intervals, State())
        invariant Scan(intervals, data, regsNum, k, State()) == Scan(intervals, data, regsNum, 0, Fresh(regsNum))
      {
        ok := PlaceNext(data[k]);
        if !ok {
          return;
        }
      }
    }
  }
}
