/** The search for the blocks of one loop: which blocks it marks, what it adds to the body, in which order, and which
    loops it links (include/analysis/loop_analyzer.hh). */
module LoopSearch {
  import opened SetFacts
  import opened Wrappers
  import opened Cfg
  import opened LoopWalks
  import opened LoopRecords

  // ---- which blocks a search marks ----

  /** Block `v` leads to one of the targets along a path that avoids some blocks. */
  ghost predicate Leads(g: Graph, v: Block, targets: set<Block>, avoid: set<Block>) {
    exists s, p :: s in targets && PathFrom(g, v, s, p) && Avoids(p, avoid)
  }

  ghost predicate Avoids(p: seq<Block>, avoid: set<Block>) {
    forall x :: x in p ==> x !in avoid
  }

  ghost predicate BackClosed(g: Graph, was: set<Block>, now: set<Block>) {
    forall u, v :: v in now && v !in was && Edge(g, u, v) ==> u in now
  }

  ghost predicate AllLead(g: Graph, targets: set<Block>, was: set<Block>, now: set<Block>) {
    forall v :: v in now && v !in was ==> Leads(g, v, targets, was)
  }

  /** The newly marked blocks without a loop join loop `cur`; nothing else changes about loops of blocks and
      bodies of loops. */
  ghost predicate Joined(was: set<Block>, now: set<Block>, data: map<Block, nat>, data': map<Block, nat>,
                         loops: seq<Loop>, loops': seq<Loop>, cur: nat) {
    && data'.Keys == data.Keys + (now - was)
    && (forall v :: v in data' ==> data'[v] == if v in data then data[v] else cur)
    && |loops'| == |loops|
    && (forall i :: 0 <= i < |loops| && i != cur ==> loops'[i].body == loops[i].body)
    && (cur < |loops| ==>
      forall v :: v in loops'[cur].body <==> v in loops[cur].body || (v in data' && v !in data))
  }

  /** A body that has grown from `was` to `body` in a search past the blocks of `avoid`, while the blocks with a loop
      grew from `had` to `now`: each added block had no loop, and is a starting point or was met from another block. */
  ghost predicate BodyGrown(g: Graph, avoid: set<Block>, had: set<Block>, now: set<Block>, starts: set<Block>,
                            was: seq<Block>, body: seq<Block>) {
    && was <= body && now == had + Elems(body[|was|..])
    && forall k :: 0 <= k < |body| - |was| ==> GrownAt(g, avoid, had, starts, body[|was|..], k)
  }

  ghost predicate GrownAt(g: Graph, avoid: set<Block>, had: set<Block>, starts: set<Block>, added: seq<Block>, k: nat)
    requires k < |added|
  {
    && added[k] !in had && added[k] !in added[..k]
    && ((added[k] in starts && NoneAhead(g, added[..k], added[k]))
        || MetFrom(g, avoid, had, starts, added[..k], added[k]))
  }

  ghost predicate NoneAhead(g: Graph, earlier: seq<Block>, x: Block) {
    forall z :: z in earlier ==> !Edge(g, x, z)
  }

  ghost predicate MetFrom(g: Graph, avoid: set<Block>, had: set<Block>, starts: set<Block>, earlier: seq<Block>,
                          x: Block) {
    exists y :: Meets(g, avoid, had, starts, earlier, x, y)
  }

  /** Going back over the edge x -> y: `y` leads to a starting point, and to every earlier block that `x` also has
      an edge to. */
  ghost predicate Meets(g: Graph, avoid: set<Block>, had: set<Block>, starts: set<Block>, earlier: seq<Block>,
                        x: Block, y: Block) {
    && y in had + Elems(earlier) && Edge(g, x, y) && Leads(g, y, starts, avoid)
    && forall z :: z in earlier && Edge(g, x, z) ==> Leads(g, y, {z}, avoid)
  }

  lemma NothingGrown(g: Graph, avoid: set<Block>, had: set<Block>, starts: set<Block>, body: seq<Block>)
    ensures BodyGrown(g, avoid, had, had, starts, body, body)
  {
    assert body[|body|..] == [];
  }

  lemma FirstGrown(g: Graph, avoid: set<Block>, had: set<Block>, node: Block, was: seq<Block>, body: seq<Block>)
    requires body == if node in had then was else was + [node]
    ensures BodyGrown(g, avoid, had, had + {node}, {node}, was, body)
  {
    assert body[|was|..] == if node in had then [] else [node];
  }

  /** The blocks added are among the newly marked ones. */
  lemma AddedAreMarked(g: Graph, was: set<Block>, now: set<Block>, data: map<Block, nat>, data': map<Block, nat>,
                       loops: seq<Loop>, loops': seq<Loop>, cur: nat, avoid: set<Block>, starts: set<Block>)
    requires Joined(was, now, data, data', loops, loops', cur) && cur < |loops| == |loops'|
    requires BodyGrown(g, avoid, data.Keys, data'.Keys, starts, loops[cur].body, loops'[cur].body)
    ensures loops[cur].body <= loops'[cur].body
    ensures Elems(loops'[cur].body[|loops[cur].body|..]) <= now - was
  {
    hide MetFrom;
    var added := loops'[cur].body[|loops[cur].body|..];
    forall x | x in Elems(added) ensures x in now - was {
      var k :| 0 <= k < |added| && added[k] == x;
      assert GrownAt(g, avoid, data.Keys, starts, added, k);
    }
  }

  /** The second search went on past all marks of the first one, from a predecessor of `node`. */
  lemma GrownByPred(g: Graph, avoid: set<Block>, mid: set<Block>, had: set<Block>, loop: set<Block>, now: set<Block>,
                    node: Block, next: Block, a: seq<Block>, b: seq<Block>, c: seq<Block>)
    requires BodyGrown(g, avoid, had, loop, {node}, a, b) && BodyGrown(g, mid, loop, now, {next}, b, c)
    requires avoid + {node} <= mid && node !in avoid && node in loop && Edge(g, next, node)
    requires BackClosed(g, avoid + {node}, mid)
    requires Elems(b[|a|..]) <= mid - avoid && Elems(c[|b|..]) !! mid
    ensures BodyGrown(g, avoid, had, now, {node}, a, c)
  {
    hide MetFrom, BackClosed;
    var s, t := b[|a|..], c[|b|..];
    assert c[|a|..] == s + t && Elems(s + t) == Elems(s) + Elems(t) by {
      ElemsOfSum(s, t);
    }
    forall k: nat | k < |s + t| ensures GrownAt(g, avoid, had, {node}, s + t, k) {
      if k < |s| {
        assert GrownAt(g, avoid, had, {node}, s, k) && (s + t)[..k] == s[..k];
      } else {
        var i: nat := k - |s|;
        assert (s + t)[..k] == s + t[..i] && GrownAt(g, mid, loop, {next}, t, i) && t[i] in Elems(t);
        ElemsOfSum(s, t[..i]);
        ElemsAre(s);
        MetByPred(g, avoid, mid, had, loop, node, next, s, t[..i], t[i]);
      }
    }
  }

  lemma MetAtOnce(g: Graph, avoid: set<Block>, had: set<Block>, node: Block, s: seq<Block>, t: seq<Block>, x: Block)
    requires node in had + Elems(s) && Edge(g, x, node) && Leads(g, node, {node}, avoid)
    requires Elems(s + t) == Elems(s) + Elems(t) && (forall z :: z in s && Edge(g, x, z) ==> z == node)
    requires forall z :: z in t && Edge(g, x, z) ==> z == node
    ensures MetFrom(g, avoid, had, {node}, s + t, x)
  {
    hide Leads;
    assert Meets(g, avoid, had, {node}, s + t, x, node);
  }

  lemma MetByPred(g: Graph, avoid: set<Block>, mid: set<Block>, had: set<Block>, loop: set<Block>, node: Block,
                  next: Block,
                  s: seq<Block>, t: seq<Block>, x: Block)
    requires loop == had + Elems(s) && x !in mid
    requires (x == next && NoneAhead(g, t, x)) || MetFrom(g, mid, loop, {next}, t, x)
    requires avoid + {node} <= mid && node !in avoid && node in loop && Edge(g, next, node)
    requires BackClosed(g, avoid + {node}, mid) && Elems(s) <= mid - avoid && Elems(s + t) == Elems(s) + Elems(t)
    ensures MetFrom(g, avoid, had, {node}, s + t, x)
  {
    hide Leads;
    forall z | z in s && Edge(g, x, z) ensures z == node {
      assert z in Elems(s);
    }
    LeadsSelf(g, avoid, node);
    if z :| Meets(g, mid, loop, {next}, t, x, z) {
      LeadsOver(g, avoid, mid, node, next, z);
      forall w | w in s + t && Edge(g, x, w) ensures Leads(g, z, {w}, avoid) {
        if w in t {
          LeadsPastLess(g, z, {w}, avoid, mid);
        }
      }
      assert Meets(g, avoid, had, {node}, s + t, x, z);
    } else {
      MetAtOnce(g, avoid, had, node, s, t, x);
    }
  }

  lemma LeadsSelf(g: Graph, avoid: set<Block>, node: Block)
    requires node !in avoid
    ensures Leads(g, node, {node}, avoid)
  {
    assert PathFrom(g, node, node, [node]) && Avoids([node], avoid);
  }

  lemma LeadsOver(g: Graph, avoid: set<Block>, mid: set<Block>, node: Block, next: Block, y: Block)
    requires Leads(g, y, {next}, mid) && avoid <= mid && node !in avoid && Edge(g, next, node)
    ensures Leads(g, y, {node}, avoid)
  {
    var s, p :| s in {next} && PathFrom(g, y, s, p) && Avoids(p, mid);
    assert PathFrom(g, y, node, p + [node]) && Avoids(p + [node], avoid);
  }

  lemma LeadsPastLess(g: Graph, y: Block, targets: set<Block>, avoid: set<Block>, mid: set<Block>)
    requires Leads(g, y, targets, mid) && avoid <= mid
    ensures Leads(g, y, targets, avoid)
  {
    var s, p :| s in targets && PathFrom(g, y, s, p) && Avoids(p, mid);
    assert Avoids(p, avoid);
  }

  /** The second search started from another back edge. */
  lemma GrownBySource(g: Graph, avoid: set<Block>, mid: set<Block>, had: set<Block>, loop: set<Block>, now: set<Block>,
                      starts: set<Block>, next: Block, a: seq<Block>, b: seq<Block>, c: seq<Block>)
    requires BodyGrown(g, avoid, had, loop, starts, a, b) && BodyGrown(g, mid, loop, now, {next}, b, c)
    requires avoid <= mid && next in starts && BackClosed(g, avoid, mid)
    requires Elems(b[|a|..]) <= mid - avoid && Elems(c[|b|..]) !! mid
    ensures BodyGrown(g, avoid, had, now, starts, a, c)
  {
    hide MetFrom, BackClosed;
    var s, t := b[|a|..], c[|b|..];
    assert c[|a|..] == s + t && Elems(s + t) == Elems(s) + Elems(t) by {
      ElemsOfSum(s, t);
    }
    forall k: nat | k < |s + t| ensures GrownAt(g, avoid, had, starts, s + t, k) {
      if k < |s| {
        assert GrownAt(g, avoid, had, starts, s, k) && (s + t)[..k] == s[..k];
      } else {
        var i: nat := k - |s|;
        assert (s + t)[..k] == s + t[..i] && GrownAt(g, mid, loop, {next}, t, i) && t[i] in Elems(t);
        ElemsOfSum(s, t[..i]);
        ElemsAre(s);
        if t[i] in {next} && NoneAhead(g, t[..i], t[i]) {
          NoneAheadOfSource(g, avoid, mid, s, t[..i], t[i]);
        } else {
          MetBySource(g, avoid, mid, had, loop, starts, next, s, t[..i], t[i]);
        }
      }
    }
  }

  lemma MetBySource(g: Graph, avoid: set<Block>, mid: set<Block>, had: set<Block>, loop: set<Block>, starts: set<Block>,
                    next: Block, s: seq<Block>, t: seq<Block>, x: Block)
    requires loop == had + Elems(s) && x !in mid && MetFrom(g, mid, loop, {next}, t, x)
    requires avoid <= mid && next in starts
    requires BackClosed(g, avoid, mid) && Elems(s) <= mid - avoid && Elems(s + t) == Elems(s) + Elems(t)
    ensures MetFrom(g, avoid, had, starts, s + t, x)
  {
    hide Leads;
    var y :| Meets(g, mid, loop, {next}, t, x, y);
    LeadsPastLess(g, y, {next}, avoid, mid);
    LeadsToMore(g, y, next, starts, avoid);
    forall w | w in s + t && Edge(g, x, w) ensures Leads(g, y, {w}, avoid) {
      assert w in s ==> w in Elems(s);
      LeadsPastLess(g, y, {w}, avoid, mid);
    }
    assert Meets(g, avoid, had, starts, s + t, x, y);
  }

  lemma NoneAheadOfSource(g: Graph, avoid: set<Block>, mid: set<Block>, s: seq<Block>, t: seq<Block>, x: Block)
    requires BackClosed(g, avoid, mid) && Elems(s) <= mid - avoid && x !in mid && NoneAhead(g, t, x)
    ensures NoneAhead(g, s + t, x)
  {
    assert forall z :: z in s ==> z in Elems(s);
  }

  lemma LeadsToMore(g: Graph, y: Block, next: Block, targets: set<Block>, avoid: set<Block>)
    requires Leads(g, y, {next}, avoid) && next in targets
    ensures Leads(g, y, targets, avoid)
  {
    var s, p :| s in {next} && PathFrom(g, y, s, p) && Avoids(p, avoid);
    assert s in targets;
  }

  lemma GrownByNothing(g: Graph, avoid: set<Block>, had: set<Block>, starts: set<Block>, was: seq<Block>,
                       body: seq<Block>)
    requires BodyGrown(g, avoid, had, had, starts, was, body)
    ensures body == was
  {
    var added := body[|was|..];
    assert |added| > 0 ==> GrownAt(g, avoid, had, starts, added, 0);
    assert forall x :: x in added ==> x in Elems(added);
    assert body == was + added;
  }

  lemma NothingMarked(g: Graph, targets: set<Block>, marked: set<Block>, data: map<Block, nat>, loops: seq<Loop>,
                      cur: nat)
    ensures BackClosed(g, marked, marked) && AllLead(g, targets, marked, marked)
    ensures Joined(marked, marked, data, data, loops, loops, cur)
  {
  }

  lemma FirstJoined(was: set<Block>, data: map<Block, nat>, data': map<Block, nat>, loops: seq<Loop>, loops': seq<Loop>,
                    cur: nat, node: Block)
    requires node !in was && cur < |loops| == |loops'|
    requires data' == if node in data then data else data[node := cur]
    requires forall i :: 0 <= i < |loops| ==>
      loops'[i].body == if i == cur && node !in data then loops[i].body + [node] else loops[i].body
    ensures Joined(was, was + {node}, data, data', loops, loops', cur)
  {
  }

  lemma OneMarked(g: Graph, was: set<Block>, node: Block)
    requires node !in was
    ensures BackClosed(g, was + {node}, was + {node}) && AllLead(g, {node}, was, was + {node})
  {
    assert PathFrom(g, node, node, [node]) && Avoids([node], was);
  }

  lemma ClosedTransitive(g: Graph, a: set<Block>, b: set<Block>, c: set<Block>)
    requires a <= b <= c && BackClosed(g, a, b) && BackClosed(g, b, c)
    ensures BackClosed(g, a, c)
  {
  }

  /** What leads to a predecessor of `node` leads to `node`. */
  lemma LeadOn(g: Graph, node: Block, pred: Block, was: set<Block>, mid: set<Block>, now: set<Block>)
    requires was <= mid && node !in was && Edge(g, pred, node)
    requires AllLead(g, {node}, was, mid) && AllLead(g, {pred}, mid, now)
    ensures AllLead(g, {node}, was, now)
  {
    forall v | v in now && v !in was ensures Leads(g, v, {node}, was) {
      if v !in mid {
        var s, p :| s in {pred} && PathFrom(g, v, s, p) && Avoids(p, mid);
        assert PathFrom(g, v, node, p + [node]) && Avoids(p + [node], was);
      }
    }
  }

  lemma JoinedTransitive(was: set<Block>, mid: set<Block>, now: set<Block>, data: map<Block, nat>,
                         data0: map<Block, nat>,
                         data': map<Block, nat>, loops: seq<Loop>, loops0: seq<Loop>, loops': seq<Loop>, cur: nat)
    requires was <= mid <= now && cur < |loops|
    requires Joined(was, mid, data, data0, loops, loops0, cur) && Joined(mid, now, data0, data', loops0, loops', cur)
    ensures Joined(was, now, data, data', loops, loops', cur)
  {
  }

  lemma SeenNext(s: seq<Block>, k: nat, m: set<Block>, m': set<Block>)
    requires k < |s| && SeenUpTo(s, k, m) && m <= m' && s[k] in m'
    ensures SeenUpTo(s, k + 1, m')
  {
  }

  lemma NoneYet(s: seq<Block>, m: set<Block>)
    ensures SeenUpTo(s, 0, m)
  {
  }

  lemma ClosedAtNode(g: Graph, was: set<Block>, now: set<Block>, node: Block)
    requires LinksMirrored(g) && node < |g.preds| && BackClosed(g, was + {node}, now)
    requires SeenUpTo(g.preds[node], |g.preds[node]|, now)
    ensures BackClosed(g, was, now)
  {
  }

  /** One more target: what was marked on the way to it leads to it. */
  lemma LeadMore(g: Graph, targets: set<Block>, source: Block, was: set<Block>, mid: set<Block>, now: set<Block>)
    requires was <= mid && (source in targets || source in was)
    requires AllLead(g, targets, was, mid) && AllLead(g, {source}, mid, now)
    ensures AllLead(g, targets, was, now)
  {
    forall v | v in now && v !in was ensures Leads(g, v, targets, was) {
      if v !in mid {
        var s, p :| s in {source} && PathFrom(g, v, s, p) && Avoids(p, mid);
        assert source in p;
        assert PathFrom(g, v, source, p) && Avoids(p, was);
      }
    }
  }

  lemma LoopFilled(g: Graph, all: set<Block>, was: set<Block>, now: set<Block>, data: map<Block, nat>,
                   data': map<Block, nat>, loops: seq<Loop>, loops': seq<Loop>, cur: nat)
    requires was <= now && all <= now && cur < |loops|
    requires BackClosed(g, was, now) && AllLead(g, all - was, was, now)
    requires Joined(was, now, data, data', loops, loops', cur)
    ensures forall v :: v in now <==> v in was || Leads(g, v, all - was, was)
    ensures forall v :: v in data' <==> v in data || Leads(g, v, all - was, was)
    ensures |loops'| == |loops| && forall v :: v in data' ==> data'[v] == if v in data then data[v] else cur
    ensures forall i :: 0 <= i < |loops| && i != cur ==> loops'[i].body == loops[i].body
    ensures forall v :: v in loops'[cur].body <==> v in loops[cur].body || (v in data' && v !in data)
  {
    hide BackClosed, AllLead, Leads;
    forall v
      ensures v in now <==> v in was || Leads(g, v, all - was, was)
      ensures v in data' <==> v in data || Leads(g, v, all - was, was)
    {
      MarkedIffLeads(g, all - was, was, now, v);
      if Leads(g, v, all - was, was) {
        LeadsAvoids(g, v, all - was, was);
      }
    }
  }

  lemma LeadsAvoids(g: Graph, v: Block, targets: set<Block>, avoid: set<Block>)
    requires Leads(g, v, targets, avoid)
    ensures v !in avoid
  {
    var s, p :| s in targets && PathFrom(g, v, s, p) && Avoids(p, avoid);
    assert p[0] in p;
  }

  /** What a search from `node` changes: it marks blocks that lead to `node`, and those of them without a loop join
      loop `cur`, each where it was met. */
  ghost predicate Found(g: Graph, was: set<Block>, data: map<Block, nat>, loops: seq<Loop>,
                        now: set<Block>, data': map<Block, nat>, loops': seq<Loop>, node: Block, cur: nat) {
    && cur < |loops| == |loops'| && was <= now && SameHeaders(loops, loops') && AllLead(g, {node}, was, now)
    && Joined(was, now, data, data', loops, loops', cur)
    && BodyGrown(g, was, data.Keys, data'.Keys, {node}, loops[cur].body, loops'[cur].body)
  }

  lemma FoundFacts(g: Graph, was: set<Block>, data: map<Block, nat>, loops: seq<Loop>,
                   now: set<Block>, data': map<Block, nat>, loops': seq<Loop>, node: Block, cur: nat)
    requires Found(g, was, data, loops, now, data', loops', node, cur)
    ensures cur < |loops| == |loops'| && was <= now && SameHeaders(loops, loops') && AllLead(g, {node}, was, now)
    ensures Joined(was, now, data, data', loops, loops', cur)
    ensures BodyGrown(g, was, data.Keys, data'.Keys, {node}, loops[cur].body, loops'[cur].body)
  {
    hide SameHeaders, AllLead, Joined, BodyGrown;
  }

  lemma FoundJoins(g: Graph, was: set<Block>, data: map<Block, nat>, loops: seq<Loop>,
                   now: set<Block>, data': map<Block, nat>, loops': seq<Loop>, node: Block, cur: nat)
    requires Found(g, was, data, loops, now, data', loops', node, cur)
    ensures Joined(was, now, data, data', loops, loops', cur)
  {
  }

  lemma NothingFound(g: Graph, marked: set<Block>, data: map<Block, nat>, loops: seq<Loop>, node: Block, cur: nat)
    requires cur < |loops|
    ensures BackClosed(g, marked, marked) && Found(g, marked, data, loops, marked, data, loops, node, cur)
  {
    hide SameHeaders, AllLead, Joined, BodyGrown, BackClosed;
    HeadersReflexive(loops);
    NothingMarked(g, {node}, marked, data, loops, cur);
    NothingGrown(g, marked, data.Keys, {node}, loops[cur].body);
  }

  lemma FirstFound(g: Graph, was: set<Block>, data: map<Block, nat>, loops: seq<Loop>, data': map<Block, nat>,
                   loops': seq<Loop>, node: Block, cur: nat)
    requires node !in was && cur < |loops| == |loops'| && SameHeaders(loops, loops')
    requires data' == if node in data then data else data[node := cur]
    requires forall i :: 0 <= i < |loops| ==>
      loops'[i].body == if i == cur && node !in data then loops[i].body + [node] else loops[i].body
    ensures node in data' && Found(g, was, data, loops, was + {node}, data', loops', node, cur)
  {
    hide SameHeaders, AllLead, Joined, BodyGrown, BackClosed;
    OneMarked(g, was, node);
    FirstJoined(was, data, data', loops, loops', cur, node);
    FirstGrown(g, was, data.Keys, node, loops[cur].body, loops'[cur].body);
    assert data'.Keys == data.Keys + {node};
  }

  lemma FoundNext(g: Graph, was: set<Block>, data: map<Block, nat>, loops: seq<Loop>,
                  mid: set<Block>, data0: map<Block, nat>, loops0: seq<Loop>,
                  now: set<Block>, data': map<Block, nat>, loops': seq<Loop>, node: Block, pred: Block, cur: nat)
    requires Found(g, was, data, loops, mid, data0, loops0, node, cur)
    requires Found(g, mid, data0, loops0, now, data', loops', pred, cur)
    requires node !in was && node in mid && node in data0 && Edge(g, pred, node) && BackClosed(g, was + {node}, mid)
    ensures Found(g, was, data, loops, now, data', loops', node, cur) && node in data'
  {
    hide SameHeaders, AllLead, Joined, BodyGrown, BackClosed;
    AddedAreMarked(g, was, mid, data, data0, loops, loops0, cur, was, {node});
    AddedAreMarked(g, mid, now, data0, data', loops0, loops', cur, mid, {pred});
    GrownByPred(g, was, mid, data.Keys, data0.Keys, data'.Keys, node, pred, loops[cur].body, loops0[cur].body,
      loops'[cur].body);
    GrownKeeps(g, mid, data0.Keys, data'.Keys, {pred}, loops0[cur].body, loops'[cur].body);
    HeadersTransitive(loops, loops0, loops');
    LeadOn(g, node, pred, was, mid, now);
    JoinedTransitive(was, mid, now, data, data0, data', loops, loops0, loops', cur);
  }

  lemma GrownKeeps(g: Graph, avoid: set<Block>, had: set<Block>, now: set<Block>, starts: set<Block>, was: seq<Block>,
                   body: seq<Block>)
    requires BodyGrown(g, avoid, had, now, starts, was, body)
    ensures had <= now
  {
  }

  // ---- the links between loops ----

  /** A search for loop `cur` that sees the blocks of `seen` takes loop `i` in: a block of `i` is seen, and `i` has no
      outer loop yet. */
  ghost predicate TakenIn(data: map<Block, nat>, loops: seq<Loop>, seen: set<Block>, i: nat, cur: nat) {
    i < |loops| && i != cur && loops[i].outer.None? && exists v :: v in seen && v in data && data[v] == i
  }

  /** The loops that are taken in get `cur` as their outer loop and become inner loops of it; no other link changes. */
  ghost predicate Linked(data: map<Block, nat>, loops: seq<Loop>, loops': seq<Loop>, seen: set<Block>, cur: nat) {
    |loops'| == |loops| && forall i: nat :: i < |loops| ==> LinkedAt(data, loops, loops'[i], seen, i, cur)
  }

  ghost predicate LinkedAt(data: map<Block, nat>, loops: seq<Loop>, loop: Loop, seen: set<Block>, i: nat, cur: nat)
    requires i < |loops|
  {
    && loop.outer == (if TakenIn(data, loops, seen, i, cur) then Some(cur) else loops[i].outer)
    && forall j: nat :: j in loop.inners <==> j in loops[i].inners || (i == cur && TakenIn(data, loops, seen, j, cur))
  }

  lemma NothingLinked(data: map<Block, nat>, loops: seq<Loop>, cur: nat)
    ensures Linked(data, loops, loops, {}, cur)
  {
  }

  lemma TakenByBoth(data: map<Block, nat>, data0: map<Block, nat>, loops: seq<Loop>, loops0: seq<Loop>, a: set<Block>,
                    b: set<Block>, i: nat, cur: nat)
    requires Linked(data, loops, loops0, a, cur) && i < |loops|
    requires data.Keys <= data0.Keys && forall v :: v in data0 ==> data0[v] == if v in data then data[v] else cur
    ensures TakenIn(data, loops, a + b, i, cur) <==>
      TakenIn(data, loops, a, i, cur) || TakenIn(data0, loops0, b, i, cur)
  {
  }

  lemma LinkedTransitive(data: map<Block, nat>, data0: map<Block, nat>, loops: seq<Loop>, loops0: seq<Loop>,
                         loops': seq<Loop>, a: set<Block>, b: set<Block>, cur: nat)
    requires Linked(data, loops, loops0, a, cur) && Linked(data0, loops0, loops', b, cur)
    requires data.Keys <= data0.Keys && forall v :: v in data0 ==> data0[v] == if v in data then data[v] else cur
    ensures Linked(data, loops, loops', a + b, cur)
  {
    hide TakenIn;
    TakenInRange(data, loops, a, cur);
    TakenInRange(data, loops, a + b, cur);
    TakenInRange(data0, loops0, b, cur);
    forall i: nat
      ensures TakenIn(data, loops, a + b, i, cur) <==>
        TakenIn(data, loops, a, i, cur) || TakenIn(data0, loops0, b, i, cur)
    {
      if i < |loops| {
        TakenByBoth(data, data0, loops, loops0, a, b, i, cur);
      }
    }
    forall i: nat | i < |loops| ensures LinkedAt(data, loops, loops'[i], a + b, i, cur) {
      assert LinkedAt(data, loops, loops0[i], a, i, cur) && LinkedAt(data0, loops0, loops'[i], b, i, cur);
    }
  }

  lemma TakenInRange(data: map<Block, nat>, loops: seq<Loop>, seen: set<Block>, cur: nat)
    ensures forall i: nat :: TakenIn(data, loops, seen, i, cur) ==> i < |loops|
  {
  }

  // ---- the walk of a search ----

  /** The walk `w` behind a search: what it marks, what it adds to the body, in order, and what it links. */
  ghost predicate Walked(g: Graph, was: set<Block>, data: map<Block, nat>, loops: seq<Loop>, now: set<Block>,
                         loops': seq<Loop>, starts: set<Block>, cur: nat, w: seq<Block>) {
    && cur < |loops| == |loops'| && now == was + Elems(w) && IsWalk(g, was, starts, w)
    && loops'[cur].body == loops[cur].body + Except(w, data.Keys) && Linked(data, loops, loops', Elems(w), cur)
  }

  lemma NothingWalked(g: Graph, was: set<Block>, data: map<Block, nat>, loops: seq<Loop>, starts: set<Block>, cur: nat)
    requires cur < |loops|
    ensures Walked(g, was, data, loops, was, loops, starts, cur, [])
  {
    NothingLinked(data, loops, cur);
    assert Elems<Block>([]) == {};
  }

  lemma FirstWalked(g: Graph, was: set<Block>, data: map<Block, nat>, loops: seq<Loop>, loops': seq<Loop>, node: Block,
                    cur: nat)
    requires node !in was && cur < |loops| == |loops'| && Linked(data, loops, loops', {node}, cur)
    requires loops'[cur].body == if node in data then loops[cur].body else loops[cur].body + [node]
    ensures Walked(g, was, data, loops, was + {node}, loops', {node}, cur, [node])
  {
    WalkOne(g, was, node);
    FileNext([], node, data.Keys);
    assert [] + [node] == [node] && Elems([node]) == {node};
  }

  /** The search goes on with a search of its own. */
  lemma WalkedOn(g: Graph, was: set<Block>, data: map<Block, nat>, loops: seq<Loop>, mid: set<Block>,
                 data0: map<Block, nat>, loops0: seq<Loop>, now: set<Block>, loops': seq<Loop>, starts: set<Block>,
                 next: Block, cur: nat, w: seq<Block>, u: seq<Block>)
    requires Walked(g, was, data, loops, mid, loops0, starts, cur, w)
    requires Walked(g, mid, data0, loops0, now, loops', {next}, cur, u)
    requires data0.Keys == data.Keys + (mid - was)
    requires forall v :: v in data0 ==> data0[v] == if v in data then data[v] else cur
    requires (next in starts && AllSpent(g, w, 0, mid))
             || next in mid
             || exists j: nat :: GoesOnFrom(g, w, next, mid, j)
    ensures Walked(g, was, data, loops, now, loops', starts, cur, w + u)
  {
    hide IsWalk, Linked, AllSpent, GoesOnFrom, Except;
    WalkOn(g, was, starts, w, next, u);
    ElemsOfSum(w, u);
    ExceptSum(w, u, data.Keys);
    WalkIsNew(g, mid, {next}, u);
    FileSame(u, data.Keys, data0.Keys);
    LinkedTransitive(data, data0, loops, loops0, loops', Elems(w), Elems(u), cur);
  }

  lemma SpentIfClosed(g: Graph, avoid: set<Block>, now: set<Block>, w: seq<Block>, i: nat)
    requires LinksMirrored(g) && BackClosed(g, avoid, now) && forall j :: i <= j < |w| ==> w[j] in now && w[j] !in avoid
    ensures AllSpent(g, w, i, now)
  {
  }

  lemma WalkedByPred(g: Graph, was: set<Block>, data: map<Block, nat>, loops: seq<Loop>, mid: set<Block>,
                     data0: map<Block, nat>, loops0: seq<Loop>, now: set<Block>, loops': seq<Loop>, node: Block,
                     k: nat, cur: nat, w: seq<Block>, u: seq<Block>)
    requires LinksMirrored(g) && node < |g.preds| && k < |g.preds[node]| && w != [] && w[0] == node
    requires Walked(g, was, data, loops, mid, loops0, {node}, cur, w)
    requires Walked(g, mid, data0, loops0, now, loops', {g.preds[node][k]}, cur, u)
    requires Joined(was, mid, data, data0, loops, loops0, cur) && BackClosed(g, was + {node}, mid)
    requires SeenUpTo(g.preds[node], k, mid)
    ensures Walked(g, was, data, loops, now, loops', {node}, cur, w + u)
  {
    hide BackClosed, Linked;
    WalkIsNew(g, was, {node}, w);
    assert forall j :: 1 <= j < |w| ==> w[j] in Elems(w) && w[j] != w[0];
    SpentIfClosed(g, was + {node}, mid, w, 1);
    var next := g.preds[node][k];
    assert next !in mid ==> FirstUnseen(g, w[0], mid, next);
    assert next !in mid ==> GoesOnFrom(g, w, next, mid, 0);
    WalkedOn(g, was, data, loops, mid, data0, loops0, now, loops', {node}, next, cur, w, u);
  }

  lemma WalkedBySource(g: Graph, was: set<Block>, data: map<Block, nat>, loops: seq<Loop>, mid: set<Block>,
                       data0: map<Block, nat>, loops0: seq<Loop>, now: set<Block>, loops': seq<Loop>,
                       starts: set<Block>, next: Block, cur: nat, w: seq<Block>, u: seq<Block>)
    requires LinksMirrored(g) && next in starts
    requires Walked(g, was, data, loops, mid, loops0, starts, cur, w)
    requires Walked(g, mid, data0, loops0, now, loops', {next}, cur, u)
    requires Joined(was, mid, data, data0, loops, loops0, cur) && BackClosed(g, was, mid)
    ensures Walked(g, was, data, loops, now, loops', starts, cur, w + u)
  {
    hide BackClosed, Linked;
    WalkIsNew(g, was, starts, w);
    assert forall j :: 0 <= j < |w| ==> w[j] in Elems(w);
    SpentIfClosed(g, was, mid, w, 0);
    WalkedOn(g, was, data, loops, mid, data0, loops0, now, loops', starts, next, cur, w, u);
  }

  lemma WalkedMarks(g: Graph, was: set<Block>, data: map<Block, nat>, loops: seq<Loop>, now: set<Block>,
                    loops': seq<Loop>, starts: set<Block>, cur: nat, w: seq<Block>)
    requires Walked(g, was, data, loops, now, loops', starts, cur, w)
    ensures now == was + Elems(w)
  {
  }

  lemma WalkedToEnd(g: Graph, was: set<Block>, data: map<Block, nat>, loops: seq<Loop>, now: set<Block>,
                    loops': seq<Loop>, starts: set<Block>, cur: nat, w: seq<Block>)
    requires LinksMirrored(g) && BackClosed(g, was, now) && starts <= now
    requires Walked(g, was, data, loops, now, loops', starts, cur, w)
    ensures WalkEnds(g, was, starts, w)
  {
    hide BackClosed;
    WalkIsNew(g, was, starts, w);
    assert forall j :: 0 <= j < |w| ==> w[j] in Elems(w);
    SpentIfClosed(g, was, now, w, 0);
  }

  ghost function HeaderSet(loop: Loop): set<Block> {
    if loop.header.Some? then {loop.header.value} else {}
  }

  /** Closure and leading together: the marks are exactly the blocks that lead to a target. */
  lemma MarkedIffLeads(g: Graph, targets: set<Block>, was: set<Block>, now: set<Block>, v: Block)
    requires was <= now && targets <= now && BackClosed(g, was, now) && AllLead(g, targets, was, now)
    ensures v in now <==> v in was || Leads(g, v, targets, was)
  {
    if Leads(g, v, targets, was) {
      var s, p :| s in targets && PathFrom(g, v, s, p) && Avoids(p, was);
      ClosedAlong(g, was, now, p);
    }
  }

  lemma {:induction false} ClosedAlong(g: Graph, was: set<Block>, now: set<Block>, p: seq<Block>)
    requires BackClosed(g, was, now) && IsPath(g, p) && Avoids(p, was) && p[|p| - 1] in now
    ensures p[0] in now
    decreases |p|
  {
    if |p| > 1 {
      var q := p[1..];
      forall i | 0 <= i < |q| - 1 ensures Edge(g, q[i], q[i + 1]) {
        assert Edge(g, p[i + 1], p[i + 1 + 1]);
      }
      ClosedAlong(g, was, now, q);
      assert p[1] in p && Edge(g, p[0], p[1]);
    }
  }

  /** The whole walk of the search for a reducible loop, which gives the order of its body and its inner loops. */
  ghost predicate SearchedAlong(g: Graph, avoid: set<Block>, data: map<Block, nat>, loops: seq<Loop>,
                                marked': set<Block>, loops': seq<Loop>, cur: nat, walk: seq<Block>)
    requires cur < |loops|
  {
    && marked' == avoid + Elems(walk) - HeaderSet(loops[cur])
    && WalkEnds(g, avoid, loops[cur].backEdges, walk)
    && Walked(g, avoid, data, loops, avoid + Elems(walk), loops', loops[cur].backEdges, cur, walk)
  }

  /** What one loop gains. The blocks without a loop that lead to a back edge of a reducible loop past its header
      and the marks join it, each after a block it has an edge to. The sources of an irreducible loop are tied
      to it. */
  ghost predicate Populated(g: Graph, marked: set<Block>, data: map<Block, nat>, loops: seq<Loop>,
                            marked': set<Block>, data': map<Block, nat>, loops': seq<Loop>, cur: nat)
    requires cur < |loops|
  {
    var avoid := marked + HeaderSet(loops[cur]);
    if loops[cur].reducible then
      && (forall v :: v in data' <==> v in data || Leads(g, v, loops[cur].backEdges - avoid, avoid))
      && (forall v :: v in data' ==> data'[v] == if v in data then data[v] else cur)
      && |loops'| == |loops| && (forall i :: 0 <= i < |loops| && i != cur ==> loops'[i].body == loops[i].body)
      && (forall v :: v in loops'[cur].body <==> v in loops[cur].body || (v in data' && v !in data))
      && BodyGrown(g, avoid, data.Keys, data'.Keys, loops[cur].backEdges, loops[cur].body, loops'[cur].body)
      && SameHeaders(loops, loops') && loops[cur].backEdges - HeaderSet(loops[cur]) <= marked'
      && (forall v :: v in marked' <==>
        v !in HeaderSet(loops[cur]) && (v in marked || Leads(g, v, loops[cur].backEdges - avoid, avoid)))
      && exists walk :: SearchedAlong(g, avoid, data, loops, marked', loops', cur, walk)
    else
      && loops' == loops && data'.Keys == data.Keys && marked' == marked
      && forall v :: v in data' ==> data'[v] == if v in loops[cur].backEdges then cur else data[v]
  }
}
