/** The policy behind the linear scan, without registers: when the intervals open at a begin point
    are one too many, give up the one that ends last. It spills as few values as possible. */
module SpillPolicy {
  import opened SetFacts
  import opened Intervals

  ghost predicate Ordered(iv: IntervalMap, data: seq<Value>) {
    && Distinct(data)
    && (forall v :: v in data ==> v in iv && iv[v].begin < iv[v].end)
    && (forall i, j :: 0 <= i < j < |data| ==> iv[data[i]].begin <= iv[data[j]].begin)
  }

  lemma ScanOrderIsOrdered(iv: IntervalMap, data: seq<Value>)
    requires IsScanOrder(iv, data)
    ensures Ordered(iv, data)
  {
    ScanOrderFacts(iv, data);
  }

  lemma OrderedStep(iv: IntervalMap, data: seq<Value>, k: nat)
    requires Ordered(iv, data) && k < |data|
    ensures data[k] in iv && iv[data[k]].begin < iv[data[k]].end && data[k] !in Elems(data[..k])
    ensures Elems(data[..k + 1]) == Elems(data[..k]) + {data[k]}
    ensures k > 0 ==> data[k - 1] in iv && iv[data[k - 1]].begin <= iv[data[k]].begin
  {
    assert data[..k + 1] == data[..k] + [data[k]];
  }

  ghost function LiveAt(iv: IntervalMap, s: set<Value>, t: nat): set<Value> {
    set v | v in s && v in iv && iv[v].Covers(t)
  }

  /** The values of `s` can be kept in `regs` registers: no point is covered more often. */
  ghost predicate Fits(iv: IntervalMap, s: set<Value>, regs: nat) {
    forall t: nat :: |LiveAt(iv, s, t)| <= regs
  }

  ghost predicate EndsLast(iv: IntervalMap, s: set<Value>, x: Value)
    requires forall v :: v in s ==> v in iv
  {
    x in s && forall v :: v in s ==> iv[v].end <= iv[x].end
  }

  lemma EndsLastExists(iv: IntervalMap, s: set<Value>)
    requires s != {} && forall v :: v in s ==> v in iv
    ensures exists x :: EndsLast(iv, s, x)
  {
    var y :| y in s;
    if s == {y} {
      assert EndsLast(iv, s, y);
    } else {
      EndsLastExists(iv, s - {y});
      var x :| EndsLast(iv, s - {y}, x);
      assert s == (s - {y}) + {y};
      assert EndsLast(iv, s, if iv[x].end < iv[y].end then y else x);
    }
  }

  /** The unspilled values among the first `k` that are still open when value `k` begins. */
  ghost function Open(iv: IntervalMap, data: seq<Value>, spilled: set<Value>, k: nat): set<Value>
    requires Ordered(iv, data) && k < |data|
  {
    set v | v in data[..k] && v !in spilled && iv[data[k]].begin < iv[v].end
  }

  /** What is given up: the open value that ends last, or the new value if nothing open ends after it. */
  ghost function Furthest(iv: IntervalMap, open: set<Value>, c: Value): (x: Value)
    requires c in iv && forall v :: v in open ==> v in iv
    ensures EndsLast(iv, open + {c}, x)
    ensures x != c ==> x in open && iv[c].end < iv[x].end
  {
    if forall v :: v in open ==> iv[v].end <= iv[c].end then c
    else
      EndsLastExists(iv, open);
      var x :| EndsLast(iv, open, x);
      x
  }

  /** The values given up after the first `k` of `data` have been seen. */
  ghost function Spills(iv: IntervalMap, data: seq<Value>, regs: nat, k: nat): (r: set<Value>)
    requires Ordered(iv, data) && k <= |data|
    ensures forall v :: v in r ==> v in data[..k]
  {
    if k == 0 then {} else
      var before := Spills(iv, data, regs, k - 1);
      var open := Open(iv, data, before, k - 1);
      if |open| >= regs then before + {Furthest(iv, open, data[k - 1])} else before
  }

  ghost function Kept(iv: IntervalMap, data: seq<Value>, regs: nat, k: nat): set<Value>
    requires Ordered(iv, data) && k <= |data|
  {
    Elems(data[..k]) - Spills(iv, data, regs, k)
  }

  lemma SpillsUnfold(iv: IntervalMap, data: seq<Value>, regs: nat, k: nat)
    requires Ordered(iv, data) && k < |data|
    ensures var open := Open(iv, data, Spills(iv, data, regs, k), k);
      && (forall v :: v in open + {data[k]} ==> v in data && v in iv)
      && Spills(iv, data, regs, k + 1) == Spills(iv, data, regs, k) +
        (if |open| >= regs then {Furthest(iv, open, data[k])} else {})
  {
  }

  lemma SpillsStep(iv: IntervalMap, data: seq<Value>, regs: nat, k: nat) returns (x: Value)
    requires Ordered(iv, data) && k < |data|
    requires |Open(iv, data, Spills(iv, data, regs, k), k)| >= regs
    ensures EndsLast(iv, Open(iv, data, Spills(iv, data, regs, k), k) + {data[k]}, x)
    ensures Spills(iv, data, regs, k + 1) == Spills(iv, data, regs, k) + {x}
  {
    x := Furthest(iv, Open(iv, data, Spills(iv, data, regs, k), k), data[k]);
  }

  /** What the policy keeps always fits. */
  lemma {:induction false} KeptFits(iv: IntervalMap, data: seq<Value>, regs: nat, k: nat)
    requires Ordered(iv, data) && k <= |data|
    ensures Fits(iv, Kept(iv, data, regs, k), regs)
  {
    if k == 0 {
      forall t: nat ensures |LiveAt(iv, Kept(iv, data, regs, k), t)| <= regs {
        assert LiveAt(iv, Kept(iv, data, regs, k), t) == {};
      }
    } else {
      KeptFits(iv, data, regs, k - 1);
      KeptFitsStep(iv, data, regs, k - 1);
    }
  }

  lemma KeptFitsStep(iv: IntervalMap, data: seq<Value>, regs: nat, k: nat)
    requires Ordered(iv, data) && k < |data|
    requires Fits(iv, Kept(iv, data, regs, k), regs)
    ensures Fits(iv, Kept(iv, data, regs, k + 1), regs)
  {
    var c, before, kept := data[k], Kept(iv, data, regs, k), Kept(iv, data, regs, k + 1);
    var open := Open(iv, data, Spills(iv, data, regs, k), k);
    assert data[..k + 1] == data[..k] + [c];
    assert kept <= before + {c};
    OpenSize(iv, data, regs, k);
    var room := open + {c};
    if |open| >= regs {
      var x := SpillsStep(iv, data, regs, k);
      room := room - {x};
      assert x !in kept;
    }
    assert |room| <= regs;
    assert forall v :: v in kept && iv[c].begin < iv[v].end ==> v in room;
    StillFits(iv, before, kept, c, room, regs);
  }

  lemma StillFits(iv: IntervalMap, before: set<Value>, kept: set<Value>, c: Value, room: set<Value>, regs: nat)
    requires Fits(iv, before, regs) && kept <= before + {c}
    requires forall v :: v in kept ==> v in iv
    requires c in iv && |room| <= regs && forall v :: v in kept && iv[c].begin < iv[v].end ==> v in room
    ensures Fits(iv, kept, regs)
  {
    forall t: nat ensures |LiveAt(iv, kept, t)| <= regs {
      if t < iv[c].begin {
        SubsetSize(LiveAt(iv, kept, t), LiveAt(iv, before, t));
      } else {
        SubsetSize(LiveAt(iv, kept, t), room);
      }
    }
  }

  /** Never more than `regs` unspilled values are open. */
  lemma OpenSize(iv: IntervalMap, data: seq<Value>, regs: nat, k: nat)
    requires Ordered(iv, data) && k < |data|
    requires Fits(iv, Kept(iv, data, regs, k), regs)
    ensures |Open(iv, data, Spills(iv, data, regs, k), k)| <= regs
  {
    var b := iv[data[k]].begin;
    var kept := Kept(iv, data, regs, k);
    forall v | v in data[..k] ensures iv[v].begin <= b {
      var i :| 0 <= i < k && data[i] == v;
    }
    assert Open(iv, data, Spills(iv, data, regs, k), k) == LiveAt(iv, kept, b);
  }

  /** Trading `x` for some `y` that is open at the same point `b` and ends no later keeps the load
      down: before `b` an already fitting set bounds it, from there on `y` needs no more. */
  lemma SwapFits(iv: IntervalMap, s: set<Value>, x: Value, y: Value, b: nat, kept: set<Value>, regs: nat)
    requires Fits(iv, s, regs) && Fits(iv, kept, regs)
    requires x in s && y !in s && x in iv && y in iv && iv[y].end <= iv[x].end
    requires iv[x].Covers(b) && iv[y].Covers(b)
    requires forall v :: v in s - {x} + {y} && v in iv && iv[v].begin < b ==> v in kept
    ensures Fits(iv, s - {x} + {y}, regs)
  {
    var s' := s - {x} + {y};
    forall t: nat ensures |LiveAt(iv, s', t)| <= regs {
      if t < b {
        SubsetSize(LiveAt(iv, s', t), LiveAt(iv, kept, t));
      } else if iv[y].Covers(t) {
        assert LiveAt(iv, s', t) == LiveAt(iv, s, t) - {x} + {y};
      } else {
        SubsetSize(LiveAt(iv, s', t), LiveAt(iv, s, t));
      }
    }
  }

  /** Among more than `regs` candidates open at `b`, one is missing from a set that fits. */
  lemma SomeoneMissing(iv: IntervalMap, candidates: set<Value>, s: set<Value>, b: nat, regs: nat)
    requires Fits(iv, s, regs) && |candidates| > regs
    requires forall v :: v in candidates ==> v in iv && iv[v].Covers(b)
    ensures exists y :: y in candidates && y !in s
  {
    if candidates <= s {
      SubsetSize(candidates, LiveAt(iv, s, b));
    }
  }

  /** What makes an exchange possible: a candidate that the set leaves out and that can replace the
      newly spilled `x`. */
  lemma Substitute(iv: IntervalMap, data: seq<Value>, regs: nat, k: nat, s: set<Value>, x: Value) returns (y: Value)
    requires Ordered(iv, data) && k < |data|
    requires s <= Elems(data) && Fits(iv, s, regs) && s !! Spills(iv, data, regs, k)
    requires |Open(iv, data, Spills(iv, data, regs, k), k)| >= regs
    requires EndsLast(iv, Open(iv, data, Spills(iv, data, regs, k), k) + {data[k]}, x) && x in s
    ensures y in data && y !in s && y !in Spills(iv, data, regs, k) && Fits(iv, s - {x} + {y}, regs)
  {
    var c, spilled, kept := data[k], Spills(iv, data, regs, k), Kept(iv, data, regs, k);
    var candidates := Open(iv, data, spilled, k) + {c};
    OpenBegan(iv, data, spilled, k);
    BeganBefore(iv, data, k);
    SomeoneMissing(iv, candidates, s, iv[c].begin, regs);
    y :| y in candidates && y !in s;
    KeptFits(iv, data, regs, k);
    SwapFits(iv, s, x, y, iv[c].begin, kept, regs);
  }

  /** One exchange: a set that avoids all earlier spills can be made to avoid the new one too,
      without getting smaller. */
  lemma Exchange(iv: IntervalMap, data: seq<Value>, regs: nat, k: nat, s: set<Value>) returns (s': set<Value>)
    requires Ordered(iv, data) && k < |data|
    requires s <= Elems(data) && Fits(iv, s, regs) && s !! Spills(iv, data, regs, k)
    ensures s' <= Elems(data) && Fits(iv, s', regs) && s' !! Spills(iv, data, regs, k + 1)
    ensures |s'| == |s|
  {
    hide Ordered, Fits, Spills, Open, EndsLast;
    s' := s;
    SpillsUnfold(iv, data, regs, k);
    if |Open(iv, data, Spills(iv, data, regs, k), k)| >= regs {
      var x := SpillsStep(iv, data, regs, k);
      if x in s {
        var y := Substitute(iv, data, regs, k, s, x);
        s' := s - {x} + {y};
      }
    }
  }

  lemma OpenBegan(iv: IntervalMap, data: seq<Value>, spilled: set<Value>, k: nat)
    requires Ordered(iv, data) && k < |data|
    ensures forall v :: v in Open(iv, data, spilled, k) + {data[k]} ==> v in data && iv[v].Covers(iv[data[k]].begin)
  {
    forall v | v in Open(iv, data, spilled, k) ensures v in data && iv[v].begin <= iv[data[k]].begin {
      var i :| 0 <= i < k && data[i] == v;
    }
  }

  lemma BeganBefore(iv: IntervalMap, data: seq<Value>, k: nat)
    requires Ordered(iv, data) && k < |data|
    ensures forall v :: v in data && iv[v].begin < iv[data[k]].begin ==> v in data[..k]
    ensures data[k] !in data[..k]
  {
    forall v | v in data && iv[v].begin < iv[data[k]].begin ensures v in data[..k] {
      var i :| 0 <= i < |data| && data[i] == v;
      assert i < k;
      assert data[..k][i] == v;
    }
  }

  lemma {:induction false} AvoidSpills(iv: IntervalMap, data: seq<Value>, regs: nat, k: nat, s: set<Value>)
    returns (s': set<Value>)
    requires Ordered(iv, data) && k <= |data|
    requires s <= Elems(data) && Fits(iv, s, regs)
    ensures s' <= Elems(data) && Fits(iv, s', regs) && s' !! Spills(iv, data, regs, k)
    ensures |s'| == |s|
  {
    hide Ordered, Fits, Open, Elems;
    s' := s;
    if k > 0 {
      s' := AvoidSpills(iv, data, regs, k - 1, s);
      s' := Exchange(iv, data, regs, k - 1, s');
    }
  }

  /** Spilling what ends last is optimal: any set of values whose removal lets the rest fit in
      `regs` registers is at least as large as the set the policy has spilled at any moment. */
  lemma SpillsAreMinimal(iv: IntervalMap, data: seq<Value>, regs: nat, k: nat, removed: set<Value>)
    requires Ordered(iv, data) && k <= |data|
    requires removed <= Elems(data) && Fits(iv, Elems(data) - removed, regs)
    ensures |Spills(iv, data, regs, k)| <= |removed|
  {
    var all := Elems(data);
    var spilled := Spills(iv, data, regs, k);
    assert forall v :: v in spilled ==> v in data;
    var s' := AvoidSpills(iv, data, regs, k, all - removed);
    SubsetSize(s', all - spilled);
    ComplementSize(all, spilled);
    ComplementSize(all, removed);
  }

  /** And when the policy is through, what it has kept fits, so its own set is such a set. */
  lemma PolicyFits(iv: IntervalMap, data: seq<Value>, regs: nat)
    requires Ordered(iv, data)
    ensures Fits(iv, Elems(data) - Spills(iv, data, regs, |data|), regs)
  {
    assert data[..|data|] == data;
    KeptFits(iv, data, regs, |data|);
  }

  // ---- when registers run out although nothing more is spilled ----

  ghost function Ends(iv: IntervalMap, s: set<Value>): set<nat> {
    set v | v in s && v in iv :: iv[v].end
  }

  /** No two of the values end at the same point. */
  ghost predicate EndsDiffer(iv: IntervalMap, s: set<Value>) {
    forall u, v :: u in s && v in s && u in iv && v in iv && iv[u].end == iv[v].end ==> u == v
  }

  /** Value `d` is kept although a value before it that is kept then ends at the same point. */
  ghost predicate Shares(iv: IntervalMap, data: seq<Value>, regs: nat, d: nat)
    requires Ordered(iv, data) && d < |data|
  {
    && data[d] !in Spills(iv, data, regs, d + 1)
    && exists v :: v in data[..d] && v !in Spills(iv, data, regs, d + 1) && iv[v].end == iv[data[d]].end
  }

  ghost predicate SharesFirst(iv: IntervalMap, data: seq<Value>, regs: nat, d: nat)
    requires Ordered(iv, data)
  {
    d < |data| && Shares(iv, data, regs, d) && forall j: nat :: j < d ==> !Shares(iv, data, regs, j)
  }

  /** Among the kept values, the end points still ahead at `b` and the values that share an end with another
      fill all registers. */
  ghost predicate Crowded(iv: IntervalMap, kept: set<Value>, b: nat, regs: nat) {
    |set e | e in Ends(iv, kept) && b < e| + |kept| - |Ends(iv, kept)| >= regs
  }

  /** The registers run out: after the first shared end `d`, when value `k` begins, the values seen so far
      without the policy's spills up to `d` crowd all registers. */
  ghost predicate RunsOut(iv: IntervalMap, data: seq<Value>, regs: nat, d: nat, k: nat)
    requires Ordered(iv, data)
  {
    && d < k < |data| && SharesFirst(iv, data, regs, d)
    && Crowded(iv, Elems(data[..k]) - Spills(iv, data, regs, d + 1), iv[data[k]].begin, regs)
  }

  lemma EndsAdd(iv: IntervalMap, s: set<Value>, c: Value)
    requires c in iv
    ensures Ends(iv, s + {c}) == Ends(iv, s) + {iv[c].end}
  {
  }

  lemma EndsDifferSize(iv: IntervalMap, s: set<Value>)
    requires EndsDiffer(iv, s) && s <= iv.Keys
    ensures |Ends(iv, s)| == |s|
  {
    InjectiveImageSize(s, v => if v in iv then iv[v].end else 0, Ends(iv, s));
  }
}
