/** Levels of a skip list as sequences: level i holds, in order, the nodes taller than i. */
module SkipLevels {
  import opened SkipSearch
  import opened SkipLinks

  ghost predicate HeightsOf(order: seq<Node>, heights: map<Node, nat>) {
    forall n :: n in order ==> n in heights
  }

  /** The nodes of `order` that are taller than `i`, in the same order. */
  ghost function AtLevel(order: seq<Node>, heights: map<Node, nat>, i: nat): (level: seq<Node>)
    requires HeightsOf(order, heights)
  {
    if order == [] then
      []
    else
      var last := order[|order| - 1];
      AtLevel(order[..|order| - 1], heights, i) + if heights[last] > i then [last] else []
  }

  lemma {:induction false} AtLevelMembers(order: seq<Node>, heights: map<Node, nat>, i: nat)
    requires HeightsOf(order, heights)
    ensures var level := AtLevel(order, heights, i);
            && (forall j :: 0 <= j < |level| ==> level[j] in order && level[j] in heights && heights[level[j]] > i)
            && (forall j :: 0 <= j < |order| && heights[order[j]] > i ==> order[j] in level)
  {
    if order != [] {
      var front, last := order[..|order| - 1], order[|order| - 1];
      assert order == front + [last];
      AtLevelMembers(front, heights, i);
      var lower, level := AtLevel(front, heights, i), AtLevel(order, heights, i);
      forall j | 0 <= j < |order| && heights[order[j]] > i
        ensures order[j] in level
      {
        if j < |front| {
          assert order[j] == front[j];
          assert order[j] in lower;
        }
      }
    }
  }

  lemma {:induction false} AtLevelBelow(order: seq<Node>, heights: map<Node, nat>, i: nat)
    requires HeightsOf(order, heights) && i > 0
    ensures forall j {:trigger AtLevel(order, heights, i)[j]} :: 0 <= j < |AtLevel(order, heights, i)| ==>
              AtLevel(order, heights, i)[j] in AtLevel(order, heights, i - 1)
  {
    if order != [] {
      var front, last := order[..|order| - 1], order[|order| - 1];
      AtLevelBelow(front, heights, i);
      var level, below := AtLevel(order, heights, i), AtLevel(order, heights, i - 1);
      forall j | 0 <= j < |level|
        ensures level[j] in below
      {
        if j < |AtLevel(front, heights, i)| {
          assert level[j] == AtLevel(front, heights, i)[j];
          assert level[j] in AtLevel(front, heights, i - 1);
        } else {
          assert below[|below| - 1] == last;
        }
      }
    }
  }

  lemma {:induction false} AtLevelConcat(a: seq<Node>, b: seq<Node>, heights: map<Node, nat>, i: nat)
    requires HeightsOf(a, heights) && HeightsOf(b, heights) && HeightsOf(a + b, heights)
    ensures AtLevel(a + b, heights, i) == AtLevel(a, heights, i) + AtLevel(b, heights, i)
  {
    if b == [] {
      assert a + b == a;
    } else {
      var b' := b[..|b| - 1];
      assert (a + b)[..|a + b| - 1] == a + b';
      AtLevelConcat(a, b', heights, i);
    }
  }

  lemma AtLevelSnoc(front: seq<Node>, last: Node, heights: map<Node, nat>, i: nat)
    requires HeightsOf(front + [last], heights)
    ensures HeightsOf(front, heights)
    ensures AtLevel(front + [last], heights, i) ==
            AtLevel(front, heights, i) + if heights[last] > i then [last] else []
  {
    assert (front + [last])[..|front|] == front;
    assert forall n :: n in front ==> n in front + [last];
  }

  lemma {:induction false} AtLevelOnlyHeights(order: seq<Node>, h: map<Node, nat>, h': map<Node, nat>, i: nat)
    requires HeightsOf(order, h) && HeightsOf(order, h')
    requires forall n :: n in order ==> h[n] == h'[n]
    ensures AtLevel(order, h, i) == AtLevel(order, h', i)
  {
    if order != [] {
      AtLevelOnlyHeights(order[..|order| - 1], h, h', i);
    }
  }

  lemma {:induction false} AtLevelDistinct(order: seq<Node>, heights: map<Node, nat>, i: nat)
    requires HeightsOf(order, heights) && Distinct(order)
    ensures Distinct(AtLevel(order, heights, i))
  {
    if order != [] {
      AtLevelMembers(order[..|order| - 1], heights, i);
      AtLevelDistinct(order[..|order| - 1], heights, i);
    }
  }

  lemma {:induction false} AtLevelZero(order: seq<Node>, heights: map<Node, nat>)
    requires HeightsOf(order, heights)
    requires forall n :: n in order ==> heights[n] > 0
    ensures AtLevel(order, heights, 0) == order
  {
    if order != [] {
      AtLevelZero(order[..|order| - 1], heights);
    }
  }

  /** Each level is the level below with the nodes that end there left out: a subsequence. */
  lemma {:induction false} LevelsNest(order: seq<Node>, heights: map<Node, nat>, i: nat)
    requires HeightsOf(order, heights)
    ensures HeightsOf(AtLevel(order, heights, i), heights)
    ensures AtLevel(order, heights, i + 1) == AtLevel(AtLevel(order, heights, i), heights, i + 1)
  {
    if order != [] {
      var front, last := order[..|order| - 1], order[|order| - 1];
      assert order == front + [last];
      LevelsNest(front, heights, i);
      AtLevelSnoc(front, last, heights, i);
      AtLevelSnoc(front, last, heights, i + 1);
      if heights[last] > i {
        assert AtLevel(order, heights, i) == AtLevel(front, heights, i) + [last];
        AtLevelSnoc(AtLevel(front, heights, i), last, heights, i + 1);
      } else {
        assert AtLevel(order, heights, i) == AtLevel(front, heights, i);
      }
    }
  }

  /** The fast lanes above level 0 end where SkipSearch.Landing says. */
  lemma {:induction false} LandingIsLast(order: seq<Node>, heights: map<Node, nat>, hs: seq<nat>, k: nat)
    requires HeightsOf(order, heights) && k <= |order| == |hs|
    requires forall j :: 0 <= j < |order| ==> hs[j] == heights[order[j]]
    ensures HeightsOf(order[..k], heights)
    ensures var lane := AtLevel(order[..k], heights, 1);
            if lane == [] then Landing(hs, k) == 0
            else Landing(hs, k) > 0 && order[Landing(hs, k) - 1] == lane[|lane| - 1]
  {
    if k > 0 {
      assert order[..k][..k - 1] == order[..k - 1];
      LandingIsLast(order, heights, hs, k - 1);
    }
  }

  ghost function HeightSeq(order: seq<Node>, heights: map<Node, nat>): (hs: seq<nat>)
    requires HeightsOf(order, heights)
    ensures |hs| == |order| && forall j :: 0 <= j < |order| ==> hs[j] == heights[order[j]]
  {
    seq(|order|, j requires 0 <= j < |order| => assert order[j] in order; heights[order[j]])
  }

  /** What `order` and `heights` become when `node` enters at index `k`, and the effect on level `i`. */
  lemma AtLevelInserted(order: seq<Node>, heights: map<Node, nat>, k: nat, node: Node, h: nat, i: nat)
    requires k <= |order| && HeightsOf(order, heights) && node !in order
    ensures HeightsOf(order[..k] + [node] + order[k..], heights[node := h])
    ensures AtLevel(order[..k] + [node] + order[k..], heights[node := h], i) ==
            AtLevel(order[..k], heights, i) + (if h > i then [node] else []) + AtLevel(order[k..], heights, i)
  {
    var heights' := heights[node := h];
    AtLevelConcat(order[..k] + [node], order[k..], heights', i);
    AtLevelSnoc(order[..k], node, heights', i);
    AtLevelOnlyHeights(order[..k], heights, heights', i);
    AtLevelOnlyHeights(order[k..], heights, heights', i);
  }

  lemma AtLevelSplit(order: seq<Node>, heights: map<Node, nat>, k: nat, i: nat)
    requires k <= |order| && HeightsOf(order, heights)
    ensures AtLevel(order, heights, i) == AtLevel(order[..k], heights, i) + AtLevel(order[k..], heights, i)
  {
    assert order == order[..k] + order[k..];
    AtLevelConcat(order[..k], order[k..], heights, i);
  }

  /** `heights` gives every listed node, and no other, a height from 1 to MAX_LEVELS. */
  ghost predicate ShapeOf(sentinel: Node, order: seq<Node>, heights: map<Node, nat>) {
    && HeightsOf(order, heights)
    && (forall n :: n in heights ==> n in order)
    && Distinct(order)
    && sentinel !in heights
    && (forall n :: n in heights ==> 1 <= heights[n] <= MAX_LEVELS)
  }

  lemma DistinctInserted(order: seq<Node>, k: nat, node: Node)
    requires Distinct(order) && k <= |order| && node !in order
    ensures Distinct(order[..k] + [node] + order[k..])
  {
    var order' := order[..k] + [node] + order[k..];
    forall i, j | 0 <= i < j < |order'|
      ensures order'[i] != order'[j]
    {
      assert order'[i] == if i < k then order[i] else if i == k then node else order[i - 1];
      assert order'[j] == if j < k then order[j] else if j == k then node else order[j - 1];
    }
  }

  lemma ShapeInserted(sentinel: Node, order: seq<Node>, heights: map<Node, nat>, k: nat, node: Node, h: nat)
    requires ShapeOf(sentinel, order, heights) && k <= |order|
    requires node !in heights && node != sentinel && 1 <= h <= MAX_LEVELS
    ensures ShapeOf(sentinel, order[..k] + [node] + order[k..], heights[node := h])
  {
    hide Distinct;
    var order', heights' := order[..k] + [node] + order[k..], heights[node := h];
    DistinctInserted(order, k, node);
    assert order == order[..k] + order[k..];
    forall n | n in order'
      ensures n in heights'
    {
      assert n in order || n == node;
    }
  }

  lemma ShapeRemoved(sentinel: Node, order: seq<Node>, heights: map<Node, nat>, k: nat)
    requires ShapeOf(sentinel, order, heights) && k < |order|
    ensures ShapeOf(sentinel, order[..k] + order[k + 1..], heights - {order[k]})
    ensures HeightsOf(order[..k] + order[k + 1..], heights - {order[k]})
  {
    var node, order', heights' := order[k], order[..k] + order[k + 1..], heights - {order[k]};
    assert forall j :: 0 <= j < |order'| ==> order'[j] == if j < k then order[j] else order[j + 1];
    forall n | n in heights'
      ensures n in order'
    {
      var j :| 0 <= j < |order| && order[j] == n;
      assert order'[if j < k then j else j - 1] == n;
    }
  }

  /** Taking a node out leaves a list into which putting it back gives the list it was in. */
  lemma PutBack(sentinel: Node, order: seq<Node>, heights: map<Node, nat>, k: nat)
    requires ShapeOf(sentinel, order, heights) && k < |order|
    ensures order[k] in heights && order[k] != sentinel && 1 <= heights[order[k]] <= MAX_LEVELS
    ensures var order' := order[..k] + order[k + 1..]; order'[..k] + [order[k]] + order'[k..] == order
    ensures (heights - {order[k]})[order[k] := heights[order[k]]] == heights
  {
    assert order[k] in order;
  }

  /** What every level of a list looks like around index `k`. */
  ghost function Openings(sentinel: Node, order: seq<Node>, heights: map<Node, nat>, k: nat): (openings: seq<Opening>)
    requires HeightsOf(order, heights) && k <= |order|
    ensures |openings| == MAX_LEVELS
  {
    seq(MAX_LEVELS, i requires 0 <= i < MAX_LEVELS =>
      Opening([sentinel] + AtLevel(order[..k], heights, i), AtLevel(order[k..], heights, i)))
  }

  /** Heights with the sentinel counted as a node that reaches every level. */
  ghost function Tall(heights: map<Node, nat>, sentinel: Node): map<Node, nat> {
    heights[sentinel := MAX_LEVELS]
  }

  lemma OpeningsFit(sentinel: Node, order: seq<Node>, heights: map<Node, nat>, k: nat, node: Node)
    requires ShapeOf(sentinel, order, heights) && k <= |order|
    requires node !in heights && node != sentinel
    ensures Fits(Openings(sentinel, order, heights, k), Tall(heights, sentinel), sentinel, node)
  {
    var openings := Openings(sentinel, order, heights, k);
    forall i | 0 <= i < MAX_LEVELS
      ensures FitsAt(openings[i], Tall(heights, sentinel), sentinel, i)
    {
      OpeningFits(sentinel, order, heights, k, i);
    }
  }

  lemma OpeningFits(sentinel: Node, order: seq<Node>, heights: map<Node, nat>, k: nat, i: nat)
    requires ShapeOf(sentinel, order, heights) && k <= |order| && i < MAX_LEVELS
    ensures FitsAt(Openings(sentinel, order, heights, k)[i], Tall(heights, sentinel), sentinel, i)
  {
    OpeningDistinct(sentinel, order, heights, k, i);
    hide Distinct, ShapeOf;
    AtLevelMembers(order[..k], heights, i);
    AtLevelMembers(order[k..], heights, i);
  }

  lemma OpeningDistinct(sentinel: Node, order: seq<Node>, heights: map<Node, nat>, k: nat, i: nat)
    requires ShapeOf(sentinel, order, heights) && k <= |order| && i < MAX_LEVELS
    ensures HeightsOf(order, heights) && sentinel !in heights
    ensures var opening := Openings(sentinel, order, heights, k)[i]; Distinct(opening.lane + opening.rest)
  {
    hide Distinct, AtLevel;
    var opening, level := Openings(sentinel, order, heights, k)[i], AtLevel(order, heights, i);
    AtLevelMembers(order, heights, i);
    AtLevelDistinct(order, heights, i);
    AtLevelSplit(order, heights, k, i);
    assert opening.lane + opening.rest == [sentinel] + level;
    DistinctCons(sentinel, level);
  }

  lemma DistinctCons(x: Node, s: seq<Node>)
    requires Distinct(s) && forall j :: 0 <= j < |s| ==> s[j] != x
    ensures Distinct([x] + s)
  {
  }

  /** Every level of the list is linked. */
  ghost predicate Woven(sentinel: Node, order: seq<Node>, heights: map<Node, nat>)
    requires ShapeOf(sentinel, order, heights)
    reads sentinel`next, sentinel`prev, heights.Keys`next, heights.Keys`prev
  {
    forall i {:trigger AtLevel(order, heights, i)} :: 0 <= i < MAX_LEVELS ==>
      (AtLevelMembers(order, heights, i); Chain([sentinel] + AtLevel(order, heights, i), i))
  }

  lemma SameChains(openings: seq<Opening>, tall: map<Node, nat>, sentinel: Node, node: Node, h: nat,
                   order: seq<Node>, heights: map<Node, nat>)
    requires Fits(openings, tall, sentinel, node) && ShapeOf(sentinel, order, heights)
    requires forall i {:trigger openings[i]} {:trigger AtLevel(order, heights, i)} :: 0 <= i < MAX_LEVELS ==>
               ChainOf(openings[i], node, 0 <= i < h) == [sentinel] + AtLevel(order, heights, i)
    ensures LinkedOn(openings, tall, sentinel, node, 0, h) <==> Woven(sentinel, order, heights)
  {
    hide Chain, ChainOf, Fits, FitsAt, ShapeOf;
  }

  /** The levels with a place for `node` left open are the levels of the list without it ... */
  lemma WovenWithout(sentinel: Node, order: seq<Node>, heights: map<Node, nat>, k: nat, node: Node)
    requires ShapeOf(sentinel, order, heights) && k <= |order| && node !in heights && node != sentinel
    ensures Fits(Openings(sentinel, order, heights, k), Tall(heights, sentinel), sentinel, node)
    ensures LinkedOn(Openings(sentinel, order, heights, k), Tall(heights, sentinel), sentinel, node, 0, 0) <==>
            Woven(sentinel, order, heights)
  {
    var openings := Openings(sentinel, order, heights, k);
    OpeningsFit(sentinel, order, heights, k, node);
    hide Chain, Distinct, Fits, FitsAt;
    forall i | 0 <= i < MAX_LEVELS
      ensures ChainOf(openings[i], node, 0 <= i < 0) == [sentinel] + AtLevel(order, heights, i)
    {
      AtLevelSplit(order, heights, k, i);
    }
    SameChains(openings, Tall(heights, sentinel), sentinel, node, 0, order, heights);
  }

  lemma ChainWith(sentinel: Node, order: seq<Node>, heights: map<Node, nat>, k: nat, node: Node, h: nat,
                  order': seq<Node>, heights': map<Node, nat>, i: nat)
    requires HeightsOf(order, heights) && k <= |order| && node !in order && i < MAX_LEVELS
    requires order' == order[..k] + [node] + order[k..] && heights' == heights[node := h]
    ensures HeightsOf(order', heights')
    ensures ChainOf(Openings(sentinel, order, heights, k)[i], node, 0 <= i < h) ==
      [sentinel] + AtLevel(order', heights', i)
  {
    hide AtLevel;
    AtLevelInserted(order, heights, k, node, h, i);
    var before, after := AtLevel(order[..k], heights, i), AtLevel(order[k..], heights, i);
    assert ([sentinel] + before) + [node] + after == [sentinel] + (before + [node] + after);
    assert before + [] + after == before + after;
    assert ([sentinel] + before) + after == [sentinel] + (before + after);
  }

  /** ... and, once the place is filled up to height `h`, those of the list with it. */
  lemma WovenWith(sentinel: Node, order: seq<Node>, heights: map<Node, nat>, k: nat, node: Node, h: nat,
                  order': seq<Node>, heights': map<Node, nat>)
    requires ShapeOf(sentinel, order, heights) && k <= |order| && node !in heights && node != sentinel
    requires 1 <= h <= MAX_LEVELS
    requires order' == order[..k] + [node] + order[k..] && heights' == heights[node := h]
    ensures Fits(Openings(sentinel, order, heights, k), Tall(heights, sentinel), sentinel, node)
    ensures ShapeOf(sentinel, order', heights')
    ensures LinkedOn(Openings(sentinel, order, heights, k), Tall(heights, sentinel), sentinel, node, 0, h) <==>
            Woven(sentinel, order', heights')
  {
    OpeningsFit(sentinel, order, heights, k, node);
    ShapeInserted(sentinel, order, heights, k, node, h);
    assert node !in order;
    hide *;
    var openings := Openings(sentinel, order, heights, k);
    forall i | 0 <= i < MAX_LEVELS
      ensures ChainOf(openings[i], node, 0 <= i < h) == [sentinel] + AtLevel(order', heights', i)
    {
      ChainWith(sentinel, order, heights, k, node, h, order', heights', i);
    }
    SameChains(openings, Tall(heights, sentinel), sentinel, node, h, order', heights');
  }

  ghost function IndexOf(c: seq<Node>, n: Node): (k: nat)
    requires n in c
    ensures k < |c| && c[k] == n
  {
    if c[0] == n then 0 else 1 + IndexOf(c[1..], n)
  }

  ghost function After(c: seq<Node>, n: Node): Node?
    requires n in c
  {
    var k := IndexOf(c, n);
    if k + 1 < |c| then c[k + 1] else null
  }

  ghost function Before(c: seq<Node>, n: Node): Node?
    requires n in c
  {
    var k := IndexOf(c, n);
    if k > 0 then c[k - 1] else null
  }

  /** Below a node's height its links are a function of the abstract list alone. */
  lemma LinksDetermined(sentinel: Node, order: seq<Node>, heights: map<Node, nat>, n: Node, i: nat)
    requires ShapeOf(sentinel, order, heights) && Woven(sentinel, order, heights) && i < MAX_LEVELS
    requires n == sentinel || (n in heights && i < heights[n])
    ensures n in [sentinel] + AtLevel(order, heights, i)
    ensures n.next[i] == After([sentinel] + AtLevel(order, heights, i), n)
    ensures n != sentinel ==> n.prev[i] == Before([sentinel] + AtLevel(order, heights, i), n)
  {
    var level := AtLevel(order, heights, i);
    var c := [sentinel] + level;
    if n == sentinel {
      assert c[0] == n;
    } else {
      AtLevelReaches(sentinel, order, heights, n, i);
      var q :| 0 <= q < |level| && level[q] == n;
      assert c[q + 1] == n;
    }
    ChainAt(c, i, IndexOf(c, n));
  }

  /** The links of a well-woven list, level by level, as its abstraction determines them. */
  ghost predicate Determined(sentinel: Node, order: seq<Node>, heights: map<Node, nat>)
    requires HeightsOf(order, heights)
    reads sentinel, heights.Keys
  {
    && (forall n, i {:trigger n.next[i]} {:trigger n.prev[i]} ::
          n in heights && 0 <= i < heights[n] && i < MAX_LEVELS ==>
          var c := [sentinel] + AtLevel(order, heights, i);
          n in c && n.next[i] == After(c, n) && n.prev[i] == Before(c, n))
    && (forall i :: 0 <= i < MAX_LEVELS ==>
          sentinel.next[i] == After([sentinel] + AtLevel(order, heights, i), sentinel))
  }

  lemma WovenIsDetermined(sentinel: Node, order: seq<Node>, heights: map<Node, nat>)
    requires ShapeOf(sentinel, order, heights) && Woven(sentinel, order, heights)
    ensures Determined(sentinel, order, heights)
  {
    hide Woven, ShapeOf, AtLevel, After, Before;
    ShapeGives(sentinel, order, heights);
    forall n, i | n in heights && 0 <= i < heights[n] && i < MAX_LEVELS
      ensures var c := [sentinel] + AtLevel(order, heights, i);
              n in c && n.next[i] == After(c, n) && n.prev[i] == Before(c, n)
    {
      LinksDetermined(sentinel, order, heights, n, i);
    }
    forall i | 0 <= i < MAX_LEVELS
      ensures sentinel.next[i] == After([sentinel] + AtLevel(order, heights, i), sentinel)
    {
      LinksDetermined(sentinel, order, heights, sentinel, i);
    }
  }

  lemma ShapeGives(sentinel: Node, order: seq<Node>, heights: map<Node, nat>)
    requires ShapeOf(sentinel, order, heights)
    ensures HeightsOf(order, heights) && sentinel !in heights && Distinct(order)
  {
  }

  lemma AtLevelReaches(sentinel: Node, order: seq<Node>, heights: map<Node, nat>, n: Node, i: nat)
    requires ShapeOf(sentinel, order, heights) && n in heights && i < heights[n]
    ensures n in AtLevel(order, heights, i)
  {
    AtLevelMembers(order, heights, i);
    var j :| 0 <= j < |order| && order[j] == n;
  }
}
