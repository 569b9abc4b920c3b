/** Linearization of the blocks, loops kept together (include/analysis/linear_order.hh). */
module LinearOrder {
  import opened SetFacts
  import opened Wrappers
  import opened Cfg
  import opened Dfs
  import opened LoopRecords

  /** Each reachable block exactly once, the head first. */
  ghost predicate IsLinearOrder(g: Graph, order: seq<Block>)
    requires g.Valid()
  {
    && Distinct(order)
    && (forall v :: v in order <==> Reaches(g, g.head, v))
    && order != [] && order[0] == g.head
  }

  /** What both loops keep: the order lists the visited blocks, all of them reached, each once. */
  ghost predicate Listing(pre: seq<Block>, order: seq<Block>, visited: set<Block>) {
    && Distinct(order) && Elems(order) == visited
    && (forall v :: v in order ==> v in pre)
  }

  lemma ListNext(pre: seq<Block>, order: seq<Block>, visited: set<Block>, v: Block)
    requires Listing(pre, order, visited) && v !in visited && v in pre
    ensures Listing(pre, order + [v], visited + {v})
  {
    assert forall x :: x in order ==> x in Elems(order);
  }

  lemma ListedIsVisited(pre: seq<Block>, order: seq<Block>, visited: set<Block>)
    requires Listing(pre, order, visited)
    ensures forall v :: v in order <==> v in visited
  {
    assert forall v :: v in order <==> v in Elems(order);
  }

  lemma BodyReached(pre: seq<Block>, data: map<Block, nat>, loops: seq<Loop>, cur: nat)
    requires WellFormed(pre, data, loops) && cur < |loops|
    ensures forall x :: x in loops[cur].body ==> x in pre
    ensures forall x :: x in data ==> data[x] < |loops|
  {
  }

  /** Descending into an inner loop moves to a header discovered strictly later. */
  lemma InnerIsLater(pre: seq<Block>, data: map<Block, nat>, loops: seq<Loop>, cur: nat, inner: nat, h: Block, x: Block)
    requires WellFormed(pre, data, loops) && cur < |loops| && inner < |loops| && inner != cur
    requires loops[cur].header == Some(h) && loops[inner].header == Some(x) && x in loops[cur].body
    ensures Num(pre, h) < Num(pre, x) && x in pre && Num(pre, x) < |pre|
  {
    assert HasHeader(loops, cur, h) && HasHeader(loops, inner, x);
  }

  /** Block `x` is the header of its own loop, which is not loop `cur`. */
  predicate HeadsInner(data: map<Block, nat>, loops: seq<Loop>, cur: nat, x: Block) {
    x in data && data[x] != cur && data[x] < |loops| && loops[data[x]].header == Some(x)
  }

  /** The blocks of a body that are not listed yet, last one first. */
  ghost function LastFirst(body: seq<Block>, visited: set<Block>): seq<Block> {
    if body == [] then [] else
      var x, rest := body[|body| - 1], body[..|body| - 1];
      if x in visited then LastFirst(rest, visited) else [x] + LastFirst(rest, visited + {x})
  }

  /** The same with inner loops: a block that heads one gives way to the blocks of the inner body. */
  ghost function Listed(pre: seq<Block>, data: map<Block, nat>, loops: seq<Loop>, cur: nat, i: nat, visited: set<Block>)
    : seq<Block>
    requires IsListable(pre, data, loops, cur) && i <= |loops[cur].body|
    decreases |pre| - Num(pre, loops[cur].header.value), i
  {
    if i == 0 then [] else
      var x := loops[cur].body[i - 1];
      if x in visited then Listed(pre, data, loops, cur, i - 1, visited)
      else if HeadsInner(data, loops, cur, x) then
        InnerIsListable(pre, data, loops, cur, x);
        var inner := Listed(pre, data, loops, data[x], |loops[data[x]].body|, visited);
        inner + Listed(pre, data, loops, cur, i - 1, visited + Elems(inner))
      else [x] + Listed(pre, data, loops, cur, i - 1, visited + {x})
  }

  ghost predicate IsListable(pre: seq<Block>, data: map<Block, nat>, loops: seq<Loop>, cur: nat) {
    && WellFormed(pre, data, loops) && cur < |loops|
    && loops[cur].header.Some? && Num(pre, loops[cur].header.value) <= |pre|
  }

  lemma InnerIsListable(pre: seq<Block>, data: map<Block, nat>, loops: seq<Loop>, cur: nat, x: Block)
    requires IsListable(pre, data, loops, cur) && x in loops[cur].body && HeadsInner(data, loops, cur, x)
    ensures IsListable(pre, data, loops, data[x]) && Num(pre, loops[cur].header.value) < Num(pre, x) < |pre|
  {
    hide WellFormed, Num;
    InnerIsLater(pre, data, loops, cur, data[x], loops[cur].header.value, x);
  }

  lemma {:induction false} ListedIsLastFirst(pre: seq<Block>, data: map<Block, nat>, loops: seq<Loop>, cur: nat, i: nat,
                                             visited: set<Block>)
    requires IsListable(pre, data, loops, cur) && i <= |loops[cur].body|
    requires forall x :: x in loops[cur].body ==> !HeadsInner(data, loops, cur, x)
    ensures Listed(pre, data, loops, cur, i, visited) == LastFirst(loops[cur].body[..i], visited)
    decreases i
  {
    hide WellFormed, Num, HeadsInner;
    if i > 0 {
      var body := loops[cur].body;
      assert body[..i][..i - 1] == body[..i - 1] && body[i - 1] in body;
      var x := body[i - 1];
      ListedIsLastFirst(pre, data, loops, cur, i - 1, if x in visited then visited else visited + {x});
    }
  }

  /** Each block once, none of them listed before, and every block of the body listed unless it heads an inner loop. */
  lemma {:induction false} ListedFacts(pre: seq<Block>, data: map<Block, nat>, loops: seq<Loop>, cur: nat, i: nat,
                                       visited: set<Block>)
    requires IsListable(pre, data, loops, cur) && i <= |loops[cur].body|
    ensures var list := Listed(pre, data, loops, cur, i, visited);
      && Distinct(list) && (forall x :: x in list ==> x in pre && x !in visited)
      && forall j :: 0 <= j < i ==>
        loops[cur].body[j] in visited || loops[cur].body[j] in list || HeadsInner(data, loops, cur, loops[cur].body[j])
    decreases |pre| - Num(pre, loops[cur].header.value), i
  {
    hide WellFormed, Num, HeadsInner, Distinct;
    NoneDistinct();
    if i > 0 {
      var x := loops[cur].body[i - 1];
      if x in visited {
        ListedFacts(pre, data, loops, cur, i - 1, visited);
      } else if HeadsInner(data, loops, cur, x) {
        InnerIsListable(pre, data, loops, cur, x);
        HeadsExists(data, loops, cur, x);
        var inner := Listed(pre, data, loops, data[x], |loops[data[x]].body|, visited);
        ListedFacts(pre, data, loops, data[x], |loops[data[x]].body|, visited);
        ListedFacts(pre, data, loops, cur, i - 1, visited + Elems(inner));
        JoinLists(inner, Listed(pre, data, loops, cur, i - 1, visited + Elems(inner)));
      } else {
        BodyReached(pre, data, loops, cur);
        ListedFacts(pre, data, loops, cur, i - 1, visited + {x});
        OneDistinct(x);
        JoinLists([x], Listed(pre, data, loops, cur, i - 1, visited + {x}));
      }
    }
  }

  lemma HeadsExists(data: map<Block, nat>, loops: seq<Loop>, cur: nat, x: Block)
    requires HeadsInner(data, loops, cur, x)
    ensures x in data && data[x] < |loops| && loops[data[x]].header == Some(x)
  {
  }

  lemma NoneDistinct()
    ensures Distinct<Block>([])
  {
  }

  lemma OneDistinct(x: Block)
    ensures Distinct([x]) && Elems([x]) == {x}
  {
  }

  lemma HeadsIff(data: map<Block, nat>, loops: seq<Loop>, cur: nat, x: Block)
    requires x in data && data[x] < |loops|
    ensures HeadsInner(data, loops, cur, x) <==> data[x] != cur && loops[data[x]].header == Some(x)
  {
  }

  lemma ListedNext(pre: seq<Block>, data: map<Block, nat>, loops: seq<Loop>, cur: nat, i: nat, visited: set<Block>)
    requires IsListable(pre, data, loops, cur) && cur < |loops| && i < |loops[cur].body|
    ensures var x, list := loops[cur].body[i], Listed(pre, data, loops, cur, i + 1, visited);
      if x in visited then list == Listed(pre, data, loops, cur, i, visited)
      else if HeadsInner(data, loops, cur, x) then
        && IsListable(pre, data, loops, data[x])
        && var inner := Listed(pre, data, loops, data[x], |loops[data[x]].body|, visited);
           list == inner + Listed(pre, data, loops, cur, i, visited + Elems(inner))
      else list == [x] + Listed(pre, data, loops, cur, i, visited + {x})
  {
    hide WellFormed, Num, Elems;
    var x := loops[cur].body[i];
    if x !in visited && HeadsInner(data, loops, cur, x) {
      InnerIsListable(pre, data, loops, cur, x);
    }
  }

  /** What is left of a body completes the order to `whole`, and the visited blocks to `all`. */
  ghost predicate Remaining(pre: seq<Block>, data: map<Block, nat>, loops: seq<Loop>, cur: nat, i: nat,
                            order: seq<Block>, visited: set<Block>, whole: seq<Block>, all: set<Block>)
    requires IsListable(pre, data, loops, cur) && i <= |loops[cur].body|
  {
    var rest := Listed(pre, data, loops, cur, i, visited);
    order + rest == whole && visited + Elems(rest) == all
  }

  /** One turn of the loop over a body. */
  lemma RemainingNext(pre: seq<Block>, data: map<Block, nat>, loops: seq<Loop>, cur: nat, i: nat,
                      order: seq<Block>, visited: set<Block>, whole: seq<Block>, all: set<Block>)
    requires IsListable(pre, data, loops, cur) && cur < |loops| && i < |loops[cur].body|
    requires Remaining(pre, data, loops, cur, i + 1, order, visited, whole, all)
    ensures var x := loops[cur].body[i];
      if x in visited then Remaining(pre, data, loops, cur, i, order, visited, whole, all)
      else if HeadsInner(data, loops, cur, x) then
        && IsListable(pre, data, loops, data[x])
        && var inner := Listed(pre, data, loops, data[x], |loops[data[x]].body|, visited);
           Remaining(pre, data, loops, cur, i, order + inner, visited + Elems(inner), whole, all)
      else Remaining(pre, data, loops, cur, i, order + [x], visited + {x}, whole, all)
  {
    hide IsListable, Elems, Listed, HeadsInner;
    ListedNext(pre, data, loops, cur, i, visited);
    var x := loops[cur].body[i];
    if x !in visited {
      if HeadsInner(data, loops, cur, x) {
        HeadsExists(data, loops, cur, x);
        var inner := Listed(pre, data, loops, data[x], |loops[data[x]].body|, visited);
        ElemsOfSum(inner, Listed(pre, data, loops, cur, i, visited + Elems(inner)));
      } else {
        OneDistinct(x);
        ElemsOfSum([x], Listed(pre, data, loops, cur, i, visited + {x}));
      }
    }
  }

  lemma AllRemains(pre: seq<Block>, data: map<Block, nat>, loops: seq<Loop>, cur: nat, order: seq<Block>,
                   visited: set<Block>)
    requires IsListable(pre, data, loops, cur)
    ensures var list := Listed(pre, data, loops, cur, |loops[cur].body|, visited);
      Remaining(pre, data, loops, cur, |loops[cur].body|, order, visited, order + list, visited + Elems(list))
  {
  }

  lemma NothingRemains(pre: seq<Block>, data: map<Block, nat>, loops: seq<Loop>, cur: nat,
                       order: seq<Block>, visited: set<Block>, whole: seq<Block>, all: set<Block>)
    requires IsListable(pre, data, loops, cur) && Remaining(pre, data, loops, cur, 0, order, visited, whole, all)
    ensures order == whole && visited == all
  {
  }

  lemma JoinLists(a: seq<Block>, b: seq<Block>)
    requires Distinct(a) && Distinct(b) && forall x :: x in b ==> x !in Elems(a)
    ensures Distinct(a + b) && forall x :: x in a + b <==> x in a || x in b
  {
    var s := a + b;
    forall i, j | 0 <= i < j < |s| ensures s[i] != s[j] {
      if i < |a| <= j {
        assert s[i] in Elems(a) && s[j] in b;
      }
    }
  }

  /** Block `x` has a loop, and if it heads a reducible one the body can be listed. */
  ghost predicate HasLoop(pre: seq<Block>, data: map<Block, nat>, loops: seq<Loop>, x: Block) {
    x in data && data[x] < |loops| && (HeadsReducible(data, loops, x) ==> IsListable(pre, data, loops, data[x]))
  }

  predicate HeadsReducible(data: map<Block, nat>, loops: seq<Loop>, x: Block) {
    x in data && data[x] < |loops| && loops[data[x]].header == Some(x) && loops[data[x]].reducible
  }

  /** Block `x`, and what comes with it. */
  ghost function Group(pre: seq<Block>, data: map<Block, nat>, loops: seq<Loop>, x: Block,
                       visited: set<Block>): seq<Block>
    requires HasLoop(pre, data, loops, x)
  {
    if HeadsReducible(data, loops, x) then
      [x] + Listed(pre, data, loops, data[x], |loops[data[x]].body|, visited + {x})
    else [x]
  }

  /** The order in full: the unvisited blocks of the reverse postorder, each reducible header with its body. */
  ghost function LinearFrom(pre: seq<Block>, data: map<Block, nat>, loops: seq<Loop>, rpo: seq<Block>,
                            visited: set<Block>)
    : seq<Block>
    requires forall x :: x in rpo ==> HasLoop(pre, data, loops, x)
    decreases |rpo|
  {
    if rpo == [] then []
    else if rpo[0] in visited then LinearFrom(pre, data, loops, rpo[1..], visited)
    else
      var group := Group(pre, data, loops, rpo[0], visited);
      group + LinearFrom(pre, data, loops, rpo[1..], visited + Elems(group))
  }

  /** Block `x` stands before `y` in the list. */
  ghost predicate ListedBefore(list: seq<Block>, x: Block, y: Block) {
    exists i, j :: 0 <= i < j < |list| && list[i] == x && list[j] == y
  }

  /** Each such block once, and two of them in the reverse order of their last places in the body. */
  lemma {:induction false} LastFirstFacts(body: seq<Block>, visited: set<Block>, x: Block, y: Block)
    ensures x in LastFirst(body, visited) <==> x in body && x !in visited
    ensures Distinct(LastFirst(body, visited))
    ensures x != y && x in body && y in body && x !in visited && y !in visited && IndexOf(body, y) < IndexOf(body, x)
      ==> ListedBefore(LastFirst(body, visited), x, y)
    decreases |body|
  {
    if body != [] {
      var z, rest := body[|body| - 1], body[..|body| - 1];
      assert body == rest + [z];
      var next := if z in visited then visited else visited + {z};
      LastFirstFacts(rest, next, x, y);
      var tail := LastFirst(rest, next);
      forall u ensures u in tail <==> u in rest && u !in next {
        LastFirstFacts(rest, next, u, u);
      }
      PushFront(z, tail, x, y);
      if x in rest && x != z {
        IndexOfAppend(rest, z, x);
      }
      if y in rest && y != z {
        IndexOfAppend(rest, z, y);
      }
    }
  }

  lemma PushFront(z: Block, tail: seq<Block>, x: Block, y: Block)
    ensures ListedBefore(tail, x, y) ==> ListedBefore([z] + tail, x, y)
    ensures y in tail ==> ListedBefore([z] + tail, z, y)
  {
    var list := [z] + tail;
    if ListedBefore(tail, x, y) {
      var i, j :| 0 <= i < j < |tail| && tail[i] == x && tail[j] == y;
      assert list[i + 1] == x && list[j + 1] == y;
    }
    if y in tail {
      var j :| 0 <= j < |tail| && tail[j] == y;
      assert list[0] == z && list[j + 1] == y;
    }
  }

  // ---- where the blocks of inner loops stand ----

  /** Block `x` is at place `k` of the body, or under the inner loop whose header is there. */
  ghost predicate Under(pre: seq<Block>, data: map<Block, nat>, loops: seq<Loop>, cur: nat, k: nat, x: Block)
    requires IsListable(pre, data, loops, cur) && k < |loops[cur].body|
    decreases |pre| - Num(pre, loops[cur].header.value)
  {
    var y := loops[cur].body[k];
    if HeadsInner(data, loops, cur, y) then
      InnerIsListable(pre, data, loops, cur, y);
      exists m: nat :: m < |loops[data[y]].body| && Under(pre, data, loops, data[y], m, x)
    else x == y
  }

  ghost predicate UnderFrom(pre: seq<Block>, data: map<Block, nat>, loops: seq<Loop>, cur: nat, j: nat, i: nat,
                            x: Block)
    requires IsListable(pre, data, loops, cur) && i <= |loops[cur].body|
  {
    exists k: nat :: j <= k < i && Under(pre, data, loops, cur, k, x)
  }

  ghost predicate AllUnder(pre: seq<Block>, data: map<Block, nat>, loops: seq<Loop>, cur: nat, j: nat, i: nat,
                           list: seq<Block>)
    requires IsListable(pre, data, loops, cur) && i <= |loops[cur].body|
  {
    forall x :: x in list ==> UnderFrom(pre, data, loops, cur, j, i, x)
  }

  /** What the later places of a body contribute comes first. */
  lemma {:induction false} ListedSplits(pre: seq<Block>, data: map<Block, nat>, loops: seq<Loop>, cur: nat, j: nat,
                                        i: nat, visited: set<Block>) returns (front: seq<Block>)
    requires IsListable(pre, data, loops, cur) && j <= i <= |loops[cur].body|
    ensures Listed(pre, data, loops, cur, i, visited) ==
      front + Listed(pre, data, loops, cur, j, visited + Elems(front))
    ensures AllUnder(pre, data, loops, cur, j, i, front)
    decreases |pre| - Num(pre, loops[cur].header.value), i
  {
    hide WellFormed, Num, HeadsInner, Under;
    front := [];
    if i == j {
      assert visited + Elems<Block>([]) == visited;
    } else {
      var x := loops[cur].body[i - 1];
      var part := PartAt(pre, data, loops, cur, i - 1, visited);
      var rest := ListedSplits(pre, data, loops, cur, j, i - 1, visited + Elems(part));
      front := part + rest;
      ElemsOfSum(part, rest);
      assert visited + Elems(part) + Elems(rest) == visited + Elems(front);
      forall z | z in front ensures UnderFrom(pre, data, loops, cur, j, i, z) {
        if z in part {
          assert Under(pre, data, loops, cur, i - 1, z);
        } else {
          assert UnderFrom(pre, data, loops, cur, j, i - 1, z);
        }
      }
    }
  }

  /** The contribution of one place. */
  lemma {:induction false} PartAt(pre: seq<Block>, data: map<Block, nat>, loops: seq<Loop>, cur: nat, k: nat,
                                  visited: set<Block>) returns (part: seq<Block>)
    requires IsListable(pre, data, loops, cur) && k < |loops[cur].body|
    ensures Listed(pre, data, loops, cur, k + 1, visited) ==
      part + Listed(pre, data, loops, cur, k, visited + Elems(part))
    ensures forall z :: z in part ==> Under(pre, data, loops, cur, k, z)
    decreases |pre| - Num(pre, loops[cur].header.value), k
  {
    hide WellFormed, Num, HeadsInner;
    var x := loops[cur].body[k];
    part := [];
    if x in visited {
      assert visited + Elems<Block>([]) == visited;
    } else if HeadsInner(data, loops, cur, x) {
      InnerIsListable(pre, data, loops, cur, x);
      HeadsExists(data, loops, cur, x);
      var n := |loops[data[x]].body|;
      part := Listed(pre, data, loops, data[x], n, visited);
      var all := ListedSplits(pre, data, loops, data[x], 0, n, visited);
      assert part == all + [];
      forall z | z in part ensures Under(pre, data, loops, cur, k, z) {
        assert UnderFrom(pre, data, loops, data[x], 0, n, z);
      }
    } else {
      part := [x];
      OneDistinct(x);
    }
  }

  lemma ListedUnder(pre: seq<Block>, data: map<Block, nat>, loops: seq<Loop>, cur: nat, i: nat, visited: set<Block>)
    requires IsListable(pre, data, loops, cur) && i <= |loops[cur].body|
    ensures AllUnder(pre, data, loops, cur, 0, i, Listed(pre, data, loops, cur, i, visited))
  {
    hide WellFormed, Num, HeadsInner, Under;
    var front := ListedSplits(pre, data, loops, cur, 0, i, visited);
    assert front + [] == front;
  }

  /** Two listed blocks that a place of the body separates, inner loops included, stand in the reverse order. */
  lemma SeparatedReversed(pre: seq<Block>, data: map<Block, nat>, loops: seq<Loop>, cur: nat, j: nat, i: nat,
                          visited: set<Block>, x: Block, y: Block)
    requires IsListable(pre, data, loops, cur) && j <= i <= |loops[cur].body|
    requires x in Listed(pre, data, loops, cur, i, visited) && !UnderFrom(pre, data, loops, cur, 0, j, x)
    requires y in Listed(pre, data, loops, cur, i, visited) && !UnderFrom(pre, data, loops, cur, j, i, y)
    ensures ListedBefore(Listed(pre, data, loops, cur, i, visited), x, y)
  {
    hide WellFormed, Num, HeadsInner, Under, UnderFrom, Listed;
    var front := ListedSplits(pre, data, loops, cur, j, i, visited);
    var rest := Listed(pre, data, loops, cur, j, visited + Elems(front));
    ListedUnder(pre, data, loops, cur, j, visited + Elems(front));
    assert x in front && y in rest;
    var a :| 0 <= a < |front| && front[a] == x;
    var b :| 0 <= b < |rest| && rest[b] == y;
    assert (front + rest)[a] == x && (front + rest)[|front| + b] == y;
  }

  /** A listed block heads no loop, whatever its kind, unless it is in the body of the loop that it heads. */
  lemma {:induction false} ListedHeadsNone(pre: seq<Block>, data: map<Block, nat>, loops: seq<Loop>, cur: nat, i: nat,
                                           visited: set<Block>, x: Block)
    requires IsListable(pre, data, loops, cur) && i <= |loops[cur].body|
    requires x in Listed(pre, data, loops, cur, i, visited) && x in data && data[x] < |loops|
    ensures loops[data[x]].header == Some(x) ==> x in loops[data[x]].body
    decreases |pre| - Num(pre, loops[cur].header.value), i
  {
    hide WellFormed, Num;
    var y := loops[cur].body[i - 1];
    if y in visited {
      ListedHeadsNone(pre, data, loops, cur, i - 1, visited, x);
    } else if HeadsInner(data, loops, cur, y) {
      InnerIsListable(pre, data, loops, cur, y);
      var inner := Listed(pre, data, loops, data[y], |loops[data[y]].body|, visited);
      if x in inner {
        ListedHeadsNone(pre, data, loops, data[y], |loops[data[y]].body|, visited, x);
      } else {
        ListedHeadsNone(pre, data, loops, cur, i - 1, visited + Elems(inner), x);
      }
    } else if x != y {
      ListedHeadsNone(pre, data, loops, cur, i - 1, visited + {y}, x);
    }
  }

  // ---- the order as a whole ----

  /** Without a reducible loop the order is the reverse postorder. */
  lemma {:induction false} NoneReducible(pre: seq<Block>, data: map<Block, nat>, loops: seq<Loop>, rpo: seq<Block>,
                                         visited: set<Block>)
    requires (forall x :: x in rpo ==> HasLoop(pre, data, loops, x) && x !in visited) && Distinct(rpo)
    requires forall i :: 0 <= i < |loops| ==> !loops[i].reducible
    ensures LinearFrom(pre, data, loops, rpo, visited) == rpo
  {
    hide IsListable;
    if rpo != [] {
      var x := rpo[0];
      assert x in rpo && rpo == [x] + rpo[1..];
      OneDistinct(x);
      assert Group(pre, data, loops, x, visited) == [x];
      assert forall y :: y in rpo[1..] ==> y in rpo && y != x;
      NoneReducible(pre, data, loops, rpo[1..], visited + {x});
    }
  }

  lemma IrreducibleIsRpo(g: Graph, data: map<Block, nat>, loops: seq<Loop>, order: seq<Block>)
    requires g.Valid() && IsOrderOf(g, data, loops, order)
    requires forall i :: 0 <= i < |loops| ==> !loops[i].reducible
    ensures order == ReversePostorder(g)
  {
    hide HasLoop, Graph.Valid;
    ReversePostorderIsTopological(g);
    NoneReducible(Preorder(g), data, loops, ReversePostorder(g), {});
  }

  /** The order up to the turn of place `k`, and from there. */
  lemma {:induction false} OrderSplits(pre: seq<Block>, data: map<Block, nat>, loops: seq<Loop>, rpo: seq<Block>,
                                       k: nat)
    returns (a: seq<Block>)
    requires k <= |rpo| && forall x :: x in rpo ==> HasLoop(pre, data, loops, x)
    ensures LinearFrom(pre, data, loops, rpo, {}) == a + LinearFrom(pre, data, loops, rpo[k..], Elems(a))
    ensures forall j :: 0 <= j < k ==> rpo[j] in a
  {
    hide HasLoop, Group, LinearFrom;
    if k == 0 {
      a := [];
      assert rpo[0..] == rpo && Elems(a) == {};
    } else {
      a := OrderSplits(pre, data, loops, rpo, k - 1);
      assert forall x :: x in rpo[k - 1..] ==> x in rpo;
      LinearNext(pre, data, loops, rpo, k - 1, Elems(a));
      if rpo[k - 1] !in Elems(a) {
        var group := Group(pre, data, loops, rpo[k - 1], Elems(a));
        GroupStarts(pre, data, loops, rpo[k - 1], Elems(a));
        ElemsOfSum(a, group);
        assert a + (group + LinearFrom(pre, data, loops, rpo[k..], Elems(a) + Elems(group)))
            == (a + group) + LinearFrom(pre, data, loops, rpo[k..], Elems(a) + Elems(group));
        a := a + group;
      }
    }
  }

  lemma GroupStarts(pre: seq<Block>, data: map<Block, nat>, loops: seq<Loop>, x: Block, visited: set<Block>)
    requires HasLoop(pre, data, loops, x)
    ensures Group(pre, data, loops, x, visited) != [] && Group(pre, data, loops, x, visited)[0] == x
  {
  }

  /** The header of a reducible loop that is not listed before its turn is followed at once by the unlisted blocks of
      the body. */
  lemma HeaderThenBody(pre: seq<Block>, data: map<Block, nat>, loops: seq<Loop>, rpo: seq<Block>, k: nat)
    returns (a: seq<Block>, b: seq<Block>)
    requires (forall x :: x in rpo ==> HasLoop(pre, data, loops, x)) && k < |rpo|
    requires HeadsReducible(data, loops, rpo[k]) && IsListable(pre, data, loops, data[rpo[k]])
    ensures forall j :: 0 <= j < k ==> rpo[j] in a
    ensures var h, order := rpo[k], LinearFrom(pre, data, loops, rpo, {});
      if h in a then order == a + b
      else order == a + [h] + Listed(pre, data, loops, data[h], |loops[data[h]].body|, Elems(a) + {h}) + b
  {
    hide HasLoop, LinearFrom, Listed, IsListable;
    a := OrderSplits(pre, data, loops, rpo, k);
    assert forall x :: x in rpo[k..] ==> x in rpo;
    if rpo[k] in a {
      b := LinearFrom(pre, data, loops, rpo[k..], Elems(a));
    } else {
      LinearNext(pre, data, loops, rpo, k, Elems(a));
      GroupIs(pre, data, loops, rpo[k], Elems(a));
      b := LinearFrom(pre, data, loops, rpo[k + 1..], Elems(a) + Elems(Group(pre, data, loops, rpo[k], Elems(a))));
    }
  }

  class LinearOrderBuilder {
    const graph: Graph
    const data: map<Block, nat>
    const loops: seq<Loop>
    var rpo: seq<Block>
    var linearOrder: seq<Block>
    var visited: set<Block>

    ghost predicate Setting()
      reads this
    {
      && graph.Valid() && IsLoopTree(graph, data, loops)
      && rpo == ReversePostorder(graph)
    }

    constructor (g: Graph, d: map<Block, nat>, l: seq<Loop>)
      requires g.Valid() && IsLoopTree(g, d, l)
      ensures Setting() && graph == g && data == d && loops == l && linearOrder == [] && visited == {}
    {
      graph, data, loops := g, d, l;
      linearOrder, visited := [], {};
      var order := DeepFirstSearchReversePostorder(g);
      rpo := order;
    }

    /** Appends the unvisited blocks of a loop body, last one first, descending into inner loops: after this
        every block of the body is listed, or heads an inner loop whose body was handled in its stead. */
    method LinearizeLoop(cur: nat)
      requires Setting() && cur < |loops| && loops[cur].header.Some?
      requires Listing(Preorder(graph), linearOrder, visited)
      modifies this`linearOrder, this`visited
      ensures Listing(Preorder(graph), linearOrder, visited)
      ensures old(linearOrder) <= linearOrder && old(visited) <= visited
      ensures forall x :: x in loops[cur].body ==> x in visited || HeadsInner(data, loops, cur, x)
      ensures IsListable(Preorder(graph), data, loops, cur)
      ensures var list := Listed(Preorder(graph), data, loops, cur, |loops[cur].body|, old(visited));
        linearOrder == old(linearOrder) + list && visited == old(visited) + Elems(list)
      decreases |Preorder(graph)| - Num(Preorder(graph), loops[cur].header.value)
    {
      hide Listing, WellFormed, Num, Preorder, ReversePostorder, HasCycle, Reaches, Graph.Valid, IsListable,
        HeadsInner, Remaining, Listed, Elems;
      ghost var pre := Preorder(graph);
      LoopIsListable(graph, data, loops, cur);
      BodyReached(pre, data, loops, cur);
      var body := loops[cur].body;
      var i: nat := |body|;
      ghost var list := Listed(pre, data, loops, cur, i, visited);
      ghost var whole, all := linearOrder + list, visited + Elems(list);
      AllRemains(pre, data, loops, cur, linearOrder, visited);
      while i > 0
        invariant i <= |body|
        invariant Listing(pre, linearOrder, visited)
        invariant old(linearOrder) <= linearOrder && old(visited) <= visited
        invariant forall j :: i <= j < |body| ==> body[j] in visited || HeadsInner(data, loops, cur, body[j])
        invariant Remaining(pre, data, loops, cur, i, linearOrder, visited, whole, all)
      {
        i := i - 1;
        var node := body[i];
        assert node in body;
        RemainingNext(pre, data, loops, cur, i, linearOrder, visited, whole, all);
        if node !in visited {
          ReachedHasLoop(graph, data, loops, node);
          var inner := data[node];
          HeadsIff(data, loops, cur, node);
          if inner != cur && loops[inner].header == Some(node) {
            InnerIsListable(pre, data, loops, cur, node);
            LinearizeLoop(inner);
          } else {
            ListNext(pre, linearOrder, visited, node);
            visited := visited + {node};
            linearOrder := linearOrder + [node];
          }
        }
      }
      NothingRemains(pre, data, loops, cur, linearOrder, visited, whole, all);
    }

    /** For every graph the result is a permutation of the reached blocks with the head in front; on an
        acyclic graph it is the reverse postorder itself. */
    method LinearizeGraph()
      requires Setting() && linearOrder == [] && visited == {}
      modifies this`linearOrder, this`visited
      ensures IsLinearOrder(graph, linearOrder)
      ensures !HasCycle(graph) ==> linearOrder == ReversePostorder(graph)
      ensures IsOrderOf(graph, data, loops, linearOrder)
    {
      hide Listing, WellFormed, Num, Preorder, ReversePostorder, HasCycle, Reaches, Graph.Valid, Distinct, LinearFrom,
        Listed, HasLoop, Elems, IsListable, HeadsReducible, Left;
      ListNothing(Preorder(graph));
      RpoFacts(graph);
      AllHaveLoops(graph, data, loops);
      ghost var pre := Preorder(graph);
      ghost var whole := LinearFrom(pre, data, loops, rpo, {});
      AllLeft(pre, data, loops, rpo);
      for k := 0 to |rpo|
        invariant Listing(Preorder(graph), linearOrder, visited)
        invariant forall j :: 0 <= j < k ==> rpo[j] in visited
        invariant k == 0 ==> linearOrder == [] && visited == {}
        invariant k > 0 ==> linearOrder != [] && linearOrder[0] == graph.head
        invariant !HasCycle(graph) ==> linearOrder == rpo[..k]
        invariant Left(pre, data, loops, rpo, k, linearOrder, visited, whole)
      {
        var node := rpo[k];
        LeftNext(pre, data, loops, rpo, k, linearOrder, visited, whole);
        FreshInRpo(graph, rpo, k);
        ListedIsVisited(Preorder(graph), linearOrder, visited);
        if node !in visited {
          ListNext(pre, linearOrder, visited, node);
          visited := visited + {node};
          linearOrder := linearOrder + [node];
          ReachedHasLoop(graph, data, loops, node);
          var loop := data[node];
          ReducibleIff(data, loops, node);
          if loops[loop].header == Some(node) && loops[loop].reducible {
            LinearizeLoop(loop);
          }
        }
      }
      NothingLeft(pre, data, loops, rpo, linearOrder, visited, whole);
      assert rpo[..|rpo|] == rpo;
      AllListed(graph, rpo, linearOrder, visited);
    }
  }

  lemma LoopIsListable(g: Graph, data: map<Block, nat>, loops: seq<Loop>, cur: nat)
    requires g.Valid() && IsLoopTree(g, data, loops) && cur < |loops| && loops[cur].header.Some?
    ensures IsListable(Preorder(g), data, loops, cur)
  {
    ReachedExactlyOnce(g);
  }

  ghost predicate IsOrderOf(g: Graph, data: map<Block, nat>, loops: seq<Loop>, order: seq<Block>)
    requires g.Valid()
  {
    && (forall x :: x in ReversePostorder(g) ==> HasLoop(Preorder(g), data, loops, x))
    && order == LinearFrom(Preorder(g), data, loops, ReversePostorder(g), {})
  }

  lemma LinearNext(pre: seq<Block>, data: map<Block, nat>, loops: seq<Loop>, rpo: seq<Block>, k: nat,
                   visited: set<Block>)
    requires k < |rpo| && forall x :: x in rpo[k..] ==> HasLoop(pre, data, loops, x)
    ensures HasLoop(pre, data, loops, rpo[k]) && forall x :: x in rpo[k + 1..] ==> HasLoop(pre, data, loops, x)
    ensures var group := Group(pre, data, loops, rpo[k], visited);
      LinearFrom(pre, data, loops, rpo[k..], visited) ==
        if rpo[k] in visited then LinearFrom(pre, data, loops, rpo[k + 1..], visited)
        else group + LinearFrom(pre, data, loops, rpo[k + 1..], visited + Elems(group))
  {
    hide HasLoop, Group;
    assert rpo[k..][1..] == rpo[k + 1..] && rpo[k..][0] == rpo[k];
  }

  lemma GroupIs(pre: seq<Block>, data: map<Block, nat>, loops: seq<Loop>, x: Block, visited: set<Block>)
    requires HasLoop(pre, data, loops, x)
    ensures HeadsReducible(data, loops, x) ==>
      && IsListable(pre, data, loops, data[x])
      && var list := Listed(pre, data, loops, data[x], |loops[data[x]].body|, visited + {x});
         Group(pre, data, loops, x, visited) == [x] + list && Elems([x] + list) == {x} + Elems(list)
    ensures !HeadsReducible(data, loops, x) ==> Group(pre, data, loops, x, visited) == [x] && Elems([x]) == {x}
  {
    hide Listed, IsListable, HeadsReducible;
    OneDistinct(x);
    if HeadsReducible(data, loops, x) {
      ElemsOfSum([x], Listed(pre, data, loops, data[x], |loops[data[x]].body|, visited + {x}));
    }
  }

  lemma ReducibleIff(data: map<Block, nat>, loops: seq<Loop>, x: Block)
    requires x in data && data[x] < |loops|
    ensures HeadsReducible(data, loops, x) <==> loops[data[x]].header == Some(x) && loops[data[x]].reducible
  {
  }

  /** What is left of the reverse postorder completes the order to `whole`. */
  ghost predicate Left(pre: seq<Block>, data: map<Block, nat>, loops: seq<Loop>, rpo: seq<Block>, k: nat,
                       order: seq<Block>, visited: set<Block>, whole: seq<Block>)
    requires k <= |rpo|
  {
    && (forall x :: x in rpo[k..] ==> HasLoop(pre, data, loops, x))
    && order + LinearFrom(pre, data, loops, rpo[k..], visited) == whole
  }

  /** One turn of the loop over the reverse postorder. */
  lemma LeftNext(pre: seq<Block>, data: map<Block, nat>, loops: seq<Loop>, rpo: seq<Block>, k: nat,
                 order: seq<Block>, visited: set<Block>, whole: seq<Block>)
    requires k < |rpo| && Left(pre, data, loops, rpo, k, order, visited, whole)
    ensures var x := rpo[k];
      if x in visited then Left(pre, data, loops, rpo, k + 1, order, visited, whole)
      else if HeadsReducible(data, loops, x) then
        && data[x] < |loops| && IsListable(pre, data, loops, data[x])
        && var list := Listed(pre, data, loops, data[x], |loops[data[x]].body|, visited + {x});
           Left(pre, data, loops, rpo, k + 1, order + [x] + list, visited + {x} + Elems(list), whole)
      else Left(pre, data, loops, rpo, k + 1, order + [x], visited + {x}, whole)
  {
    hide HasLoop, Group, Listed, IsListable, Elems;
    var x := rpo[k];
    LinearNext(pre, data, loops, rpo, k, visited);
    GroupIs(pre, data, loops, x, visited);
    if x !in visited {
      var group := Group(pre, data, loops, x, visited);
      var rest := LinearFrom(pre, data, loops, rpo[k + 1..], visited + Elems(group));
      assert order + (group + rest) == (order + group) + rest;
      if HeadsReducible(data, loops, x) {
        var list := Listed(pre, data, loops, data[x], |loops[data[x]].body|, visited + {x});
        assert visited + Elems(group) == visited + {x} + Elems(list);
        assert order + [x] + list == order + ([x] + list);
      }
    }
  }

  lemma AllLeft(pre: seq<Block>, data: map<Block, nat>, loops: seq<Loop>, rpo: seq<Block>)
    requires forall x :: x in rpo ==> HasLoop(pre, data, loops, x)
    ensures Left(pre, data, loops, rpo, 0, [], {}, LinearFrom(pre, data, loops, rpo, {}))
  {
    hide HasLoop, LinearFrom;
    assert rpo[0..] == rpo;
  }

  lemma NothingLeft(pre: seq<Block>, data: map<Block, nat>, loops: seq<Loop>, rpo: seq<Block>,
                    order: seq<Block>, visited: set<Block>, whole: seq<Block>)
    requires Left(pre, data, loops, rpo, |rpo|, order, visited, whole)
    ensures order == whole
  {
    assert rpo[|rpo|..] == [];
  }

  lemma AllHaveLoops(g: Graph, data: map<Block, nat>, loops: seq<Loop>)
    requires g.Valid() && IsLoopTree(g, data, loops)
    ensures forall x :: x in ReversePostorder(g) ==> HasLoop(Preorder(g), data, loops, x)
  {
    hide IsLoopTree, IsListable, Graph.Valid, Preorder;
    RpoFacts(g);
    forall x | x in ReversePostorder(g) ensures HasLoop(Preorder(g), data, loops, x) {
      ReachedHasLoop(g, data, loops, x);
      if HeadsReducible(data, loops, x) {
        LoopIsListable(g, data, loops, data[x]);
      }
    }
  }

  lemma ListNothing(pre: seq<Block>)
    ensures Listing(pre, [], {})
  {
  }

  lemma ReachedHasLoop(g: Graph, data: map<Block, nat>, loops: seq<Loop>, v: Block)
    requires g.Valid() && IsLoopTree(g, data, loops) && v in Preorder(g)
    ensures v in data && data[v] < |loops|
    ensures !HasCycle(g) ==> loops[data[v]].header == None
  {
    ReachedExactlyOnce(g);
  }

  lemma RpoFacts(g: Graph)
    requires g.Valid()
    ensures var rpo := ReversePostorder(g);
      rpo != [] && rpo[0] == g.head && forall k :: 0 <= k < |rpo| ==> rpo[k] in Preorder(g)
  {
    ReversePostorderIsTopological(g);
    ReachedExactlyOnce(g);
    HeadFinishesLast(g);
    assert forall k :: 0 <= k < |ReversePostorder(g)| ==> ReversePostorder(g)[k] in ReversePostorder(g);
  }

  lemma FreshInRpo(g: Graph, rpo: seq<Block>, k: nat)
    requires g.Valid() && rpo == ReversePostorder(g) && k < |rpo|
    ensures rpo[k] !in rpo[..k] && rpo[..k + 1] == rpo[..k] + [rpo[k]]
  {
    ReversePostorderIsTopological(g);
    assert rpo[..k + 1] == rpo[..k] + [rpo[k]];
  }

  lemma AllListed(g: Graph, rpo: seq<Block>, order: seq<Block>, visited: set<Block>)
    requires g.Valid() && rpo == ReversePostorder(g) && Listing(Preorder(g), order, visited)
    requires forall j :: 0 <= j < |rpo| ==> rpo[j] in visited
    ensures Distinct(order) && forall v :: v in order <==> Reaches(g, g.head, v)
  {
    ReversePostorderIsTopological(g);
    ReachedExactlyOnce(g);
    ListedIsVisited(Preorder(g), order, visited);
  }

  /** LinearOrderBuilder::build. */
  method BuildLinearOrder(g: Graph, data: map<Block, nat>, loops: seq<Loop>) returns (order: seq<Block>)
    requires g.Valid() && IsLoopTree(g, data, loops)
    ensures IsLinearOrder(g, order)
    ensures !HasCycle(g) ==> order == ReversePostorder(g)
    ensures IsOrderOf(g, data, loops, order)
  {
    var builder := new LinearOrderBuilder(g, data, loops);
    builder.LinearizeGraph();
    order := builder.linearOrder;
  }
}
