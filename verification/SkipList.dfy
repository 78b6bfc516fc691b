/** The doubly linked, seven-level skip list that keeps free memory ranges in weight order.

    A list is abstracted by two ghost fields: `order`, the nodes of the gapless level 0, and
    `heights`, the height each node was inserted with.  Level i must then hold, in order,
    exactly the nodes taller than i, and the code must be able to recover every height from
    the pointers alone. */
module SkipLists {
  import opened SkipSearch
  import opened SkipLinks
  import opened SkipLevels

  ghost function Weights(order: seq<Node>): (ws: seq<nat>)
    reads order`weight
    ensures |ws| == |order| && forall j :: 0 <= j < |order| ==> ws[j] == order[j].weight
  {
    if order == [] then [] else Weights(order[..|order| - 1]) + [order[|order| - 1].weight]
  }

  /** On level `i`, `lane` is the part lighter than `w` (its first node excepted) and `rest` what follows. */
  ghost predicate Divided(lane: seq<Node>, rest: seq<Node>, i: nat, w: nat)
    requires i < MAX_LEVELS
    reads lane, rest
  {
    && lane != []
    && Chain(lane + rest, i)
    && (forall q :: 0 < q < |lane| ==> lane[q].weight < w)
    && (rest != [] ==> rest[0].weight >= w)
  }

  lemma Hop(lane: seq<Node>, rest: seq<Node>, i: nat, w: nat, p: nat)
    requires i < MAX_LEVELS && Divided(lane, rest, i, w) && p < |lane|
    ensures var next := lane[p].next[i];
            if p + 1 < |lane| then next == lane[p + 1] && next.weight < w
            else next == null || next.weight >= w
  {
    var c := lane + rest;
    assert c[p] == lane[p];
    assert Chain(c, i);
    assert c[p].next[i] == if p + 1 < |c| then c[p + 1] else null;
    if p + 1 < |lane| {
      assert c[p + 1] == lane[p + 1];
    } else if rest != [] {
      assert c[p + 1] == rest[0];
    }
  }

  /** Follows level `i` from `from` past the nodes lighter than `weight`. */
  method SkipLighter(from: Node, i: nat, weight: SizeT, ghost lane: seq<Node>, ghost rest: seq<Node>)
    returns (last: Node)
    requires i < MAX_LEVELS && Divided(lane, rest, i, weight)
    requires from in lane
    ensures last == lane[|lane| - 1]
  {
    ghost var p :| 0 <= p < |lane| && lane[p] == from;
    last := from;
    var next := last.next[i];
    Hop(lane, rest, i, weight, p);
    while next != null && next.weight < weight
      invariant 0 <= p < |lane| && lane[p] == last && next == last.next[i]
      invariant if p + 1 < |lane| then next == lane[p + 1] && next.weight < weight
                else next == null || next.weight >= weight
      decreases |lane| - p
    {
      last := next;
      next := last.next[i];
      p := p + 1;
      Hop(lane, rest, i, weight, p);
    }
  }

  /** The level-0 walk of SkipListBest, from the node the fast lanes landed on. */
  method BestFrom(start: Node, sentinel: Node, weight: SizeT, exact: bool, ghost order: seq<Node>, ghost p0: nat)
    returns (best: Node?)
    requires Chain([sentinel] + order, 0) && sentinel !in order
    requires p0 <= Rank(Weights(order), weight) && start == ([sentinel] + order)[p0]
    ensures exact ==> var k := Rank(Weights(order), weight); best == if k < |order| then order[k] else null
    ensures !exact ==> var p := Scan(Weights(order), weight, p0, SIZE_MAX);
              best == if p > 0 then order[p - 1] else null
  {
    hide Chain, Weights, Scan, Rank;
    ghost var ws := Weights(order);
    ghost var k := Rank(ws, weight);
    ghost var base := [sentinel] + order;
    ghost var p := p0;
    var weightDiff: nat := SIZE_MAX;
    var node := start;
    var next := node.next[0];
    ChainAt(base, 0, p);
    while next != null
      invariant 0 <= p <= |order| && node == base[p] && next == node.next[0]
      invariant next == if p < |order| then order[p] else null
      invariant exact ==> p <= k
      invariant !exact ==> Scan(ws, weight, p, weightDiff) == Scan(ws, weight, p0, SIZE_MAX)
      decreases |order| - p
    {
      var diff := if next.weight > weight then next.weight - weight else weight - next.weight;
      ScanStep(ws, weight, p, weightDiff);
      if !exact && diff > weightDiff { break; }

      node := next;
      p := p + 1;
      weightDiff := diff;
      ChainAt(base, 0, p);
      assert diff == Distance(ws[p - 1], weight);

      if exact && node.weight >= weight { break; }
      next := node.next[0];
    }

    ScanStep(ws, weight, p, weightDiff);
    if node == sentinel || (exact && weight > node.weight) { return null; }
    return node;
  }

  class SkipList {
    const sentinel: Node
    ghost var order: seq<Node>
    ghost var heights: map<Node, nat>

    constructor (address: nat)
      ensures Valid() && fresh(sentinel) && order == [] && heights == map[]
    {
      sentinel := new Node(address, null);
      order, heights := [], map[];
    }

    ghost predicate Shape()
      reads this
    {
      ShapeOf(sentinel, order, heights)
    }

    /** The sentinel and the first `k` nodes, as far as they reach level `i`. */
    ghost function Lane(k: nat, i: nat): (lane: seq<Node>)
      requires Shape() && k <= |order|
      reads this
      ensures forall j :: 0 <= j < |lane| ==> lane[j] == sentinel || lane[j] in heights
      ensures |lane| > 0 && lane[0] == sentinel
    {
      AtLevelMembers(order[..k], heights, i);
      [sentinel] + AtLevel(order[..k], heights, i)
    }

    ghost function Rest(k: nat, i: nat): (rest: seq<Node>)
      requires Shape() && k <= |order|
      reads this
      ensures forall j :: 0 <= j < |rest| ==> rest[j] in heights
    {
      AtLevelMembers(order[k..], heights, i);
      AtLevel(order[k..], heights, i)
    }

    ghost function Level(i: nat): (level: seq<Node>)
      requires Shape()
      reads this
      ensures forall j :: 0 <= j < |level| ==> level[j] == sentinel || level[j] in heights
    {
      AtLevelMembers(order, heights, i);
      [sentinel] + AtLevel(order, heights, i)
    }

    /** Every level is doubly linked, and heights are recoverable; weights play no part. */
    ghost predicate Linked()
      reads this, sentinel, heights.Keys`next, heights.Keys`prev
      ensures Linked() ==> Shape()
    {
      && Shape()
      && sentinel.prev == NO_LINKS
      && sentinel.payload == null
      && (forall n :: n in heights && heights[n] < MAX_LEVELS ==> n.prev[heights[n]] == null)
      && Woven(sentinel, order, heights)
    }

    ghost predicate Valid()
      reads this, sentinel, heights.Keys
      ensures Valid() ==> Linked() && Shape() && Ascending(Weights(order))
    {
      Linked() && Ascending(Weights(order))
    }

    lemma LevelMembers(i: nat)
      requires Shape()
      ensures forall n :: n in heights && heights[n] > i ==> n in AtLevel(order, heights, i)
    {
      AtLevelMembers(order, heights, i);
    }

    lemma LevelSplit(k: nat, i: nat)
      requires Shape() && k <= |order|
      ensures Level(i) == Lane(k, i) + Rest(k, i)
      ensures Distinct(Level(i))
    {
      AtLevelSplit(order, heights, k, i);
      AtLevelDistinct(order, heights, i);
      AtLevelMembers(order, heights, i);
    }

    lemma LinkedBelow(n: Node, i: nat)
      requires Linked() && n in heights && i < heights[n] && i < MAX_LEVELS
      ensures n.prev[i] != null
    {
      hide Distinct, AtLevel;
      LevelMembers(i);
      var level := AtLevel(order, heights, i);
      var k :| 0 <= k < |level| && level[k] == n;
      assert Chain([sentinel] + level, i);
      ChainAt([sentinel] + level, i, k + 1);
    }

    /** The code can recover every height from the pointers: stale ones above do not show. */
    lemma HeightRecovered(n: Node)
      requires Linked() && n in heights
      ensures Height(n.prev) == heights[n]
    {
      HeightGives(n);
      hide *;
      SevenLevels();
      forall i | 0 <= i < heights[n]
        ensures n.prev[i] != null
      {
        LinkedBelow(n, i);
      }
    }

    lemma HeightGives(n: Node)
      requires Linked() && n in heights
      ensures heights[n] <= MAX_LEVELS && (heights[n] < MAX_LEVELS ==> n.prev[heights[n]] == null)
    {
      hide Distinct, Woven;
    }

    // ----- Searching -----

    /** The part of level `i`, from the sentinel on, that is lighter than `w`. */
    ghost function Lighter(w: nat, i: nat): (lane: seq<Node>)
      requires Shape()
      reads this, order`weight
      ensures |lane| > 0 && lane[0] == sentinel
    {
      Lane(Rank(Weights(order), w), i)
    }

    ghost function Heavier(w: nat, i: nat): seq<Node>
      requires Shape()
      reads this, order`weight
    {
      Rest(Rank(Weights(order), w), i)
    }

    /** The node a search for `w` leaves level `i` at: the last one lighter than `w`. */
    ghost function LastLighter(w: nat, i: nat): (last: Node)
      requires Shape()
      reads this, order`weight
      ensures last in Lighter(w, i)
      ensures var lane := Lighter(w, i); last == lane[|lane| - 1]
    {
      var lane := Lighter(w, i);
      lane[|lane| - 1]
    }

    lemma LevelDivided(w: nat, i: nat)
      requires Valid() && i < MAX_LEVELS
      ensures Divided(Lighter(w, i), Heavier(w, i), i, w)
    {
      var k := Rank(Weights(order), w);
      LevelSplit(k, i);
      assert Chain(Level(i), i);
      AtLevelMembers(order[..k], heights, i);
      AtLevelMembers(order[k..], heights, i);
      var lane, rest := Lighter(w, i), Heavier(w, i);
      forall q | 0 < q < |lane|
        ensures lane[q].weight < w
      {
        assert lane[q] in order[..k];
      }
      if rest != [] {
        assert rest[0] in order[k..];
      }
    }

    lemma LaneBelow(w: nat, i: nat)
      requires Shape() && i > 0
      ensures LastLighter(w, i) in Lighter(w, i - 1)
    {
      hide Distinct, Chain;
      var k := Rank(Weights(order), w);
      AtLevelBelow(order[..k], heights, i);
      var level, below := AtLevel(order[..k], heights, i), AtLevel(order[..k], heights, i - 1);
      assert Lighter(w, i) == [sentinel] + level && Lighter(w, i - 1) == [sentinel] + below;
      if level == [] {
        assert Lighter(w, i - 1)[0] == sentinel;
      } else {
        assert level[|level| - 1] in below;
      }
    }

    lemma LandedAt(w: nat)
      requires Shape()
      ensures HeightsOf(order, heights) && sentinel !in order
      ensures LastLighter(w, 1) ==
              ([sentinel] + order)[Landing(HeightSeq(order, heights), Rank(Weights(order), w))]
    {
      hide Distinct, AtLevel, Landing, Weights, HeightSeq, Rank;
      var k := Rank(Weights(order), w);
      LandingIsLast(order, heights, HeightSeq(order, heights), k);
      assert Lighter(w, 1) == [sentinel] + AtLevel(order[..k], heights, 1);
    }

    lemma ClosestIsScan(w: nat)
      requires Shape() && HeightsOf(order, heights)
      ensures var ws, hs := Weights(order), HeightSeq(order, heights);
              Closest(ws, hs, w) == Scan(ws, w, Landing(hs, Rank(ws, w)), SIZE_MAX)
    {
    }

    /** Fills `path` with the last node lighter than `weight` on each level. */
    method FindPrevs(path: array<Node>, weight: SizeT)
      requires Valid() && path.Length == MAX_LEVELS
      modifies path
      ensures forall i :: 0 <= i < MAX_LEVELS ==> path[i] == LastLighter(weight, i)
    {
      hide *;
      SevenLevels();
      var node := sentinel;
      assert Lighter(weight, 6)[0] == sentinel;
      var i := MAX_LEVELS - 1;
      while i >= 0
        invariant Valid()
        invariant -1 <= i < MAX_LEVELS
        invariant i >= 0 ==> node in Lighter(weight, i)
        invariant forall j :: i < j < MAX_LEVELS ==> path[j] == LastLighter(weight, j)
      {
        LevelDivided(weight, i);
        node := SkipLighter(node, i, weight, Lighter(weight, i), Heavier(weight, i));
        path[i] := node;
        if i > 0 {
          LaneBelow(weight, i);
        }
        i := i - 1;
      }
    }

    /** Level 0 holds every node. */
    lemma GaplessChain()
      requires Linked()
      ensures Chain([sentinel] + order, 0)
    {
      AtLevelZero(order, heights);
      assert Chain(Level(0), 0);
    }

    lemma GaplessLinks(j: nat)
      requires Linked() && j < |order|
      ensures order[j].next[0] == if j + 1 < |order| then order[j + 1] else null
      ensures order[j].prev[0] == if j > 0 then order[j - 1] else sentinel
    {
      GaplessChain();
      ChainAt([sentinel] + order, 0, j + 1);
    }

    /** The best fit: for `exact`, the first node at least as heavy as the request; otherwise
        the answer of SkipSearch.Closest. */
    method Best(weight: SizeT, exact: bool) returns (best: Node?)
      requires Valid()
      ensures exact ==> var k := Rank(Weights(order), weight); best == if k < |order| then order[k] else null
      ensures !exact ==> var p := Closest(Weights(order), HeightSeq(order, heights), weight);
                best == if p > 0 then order[p - 1] else null
    {
      hide *;
      SevenLevels();
      var node := sentinel;
      var i := MAX_LEVELS - 1;
      assert Lighter(weight, i)[0] == sentinel;
      while i > 0
        invariant 0 <= i < MAX_LEVELS
        invariant node in Lighter(weight, i)
        invariant i == 0 ==> node == LastLighter(weight, 1)
      {
        LevelDivided(weight, i);
        node := SkipLighter(node, i, weight, Lighter(weight, i), Heavier(weight, i));
        LaneBelow(weight, i);
        i := i - 1;
      }
      LandedAt(weight);
      GaplessChain();
      ghost var landing := Landing(HeightSeq(order, heights), Rank(Weights(order), weight));
      best := BestFrom(node, sentinel, weight, exact, order, landing);
      ClosestIsScan(weight);
    }

    // ----- Inserting and removing -----

    lemma LinkedGives()
      requires Linked()
      ensures sentinel.prev == NO_LINKS && sentinel.payload == null
      ensures ShapeOf(sentinel, order, heights) && HeightsOf(order, heights) && sentinel !in heights
      ensures forall n :: n in heights && heights[n] < MAX_LEVELS ==> n.prev[heights[n]] == null
      ensures Woven(sentinel, order, heights)
    {
    }

    lemma ListedIffInHeights(node: Node)
      requires Linked()
      ensures node in order <==> node in heights
    {
    }

    lemma IsListed(node: Node)
      requires Linked() && node in heights
      ensures node in heights && node in order && Height(node.prev) == heights[node]
    {
      HeightRecovered(node);
    }

    lemma NotListed(node: Node)
      requires Linked() && Height(node.prev) == 0
      ensures node !in heights
    {
      if node in heights {
        HeightRecovered(node);
      }
    }

    lemma LinkedFrom()
      requires sentinel.prev == NO_LINKS && sentinel.payload == null
      requires ShapeOf(sentinel, order, heights)
      requires forall n :: n in heights && heights[n] < MAX_LEVELS ==> n.prev[heights[n]] == null
      requires Woven(sentinel, order, heights)
      ensures Linked()
    {
    }

    lemma ValidFrom()
      requires Linked() && Ascending(Weights(order))
      ensures Valid()
    {
    }

    lemma AscendingInserted(was: seq<Node>, node: Node)
      requires Ascending(Weights(was))
      ensures var k := Rank(Weights(was), node.weight); Ascending(Weights(was[..k] + [node] + was[k..]))
    {
      hide Weights, Rank, Ascending;
      var ws := Weights(was);
      var k := Rank(ws, node.weight);
      AscendingInsert(ws, node.weight);
      assert Weights(was[..k] + [node] + was[k..]) == ws[..k] + [node.weight] + ws[k..];
    }

    lemma LastLightersAreLaneEnds(w: nat, prevs: seq<Node>)
      requires Shape() && |prevs| == MAX_LEVELS
      requires forall i :: 0 <= i < MAX_LEVELS ==> prevs[i] == LastLighter(w, i)
      ensures HeightsOf(order, heights)
      ensures LaneEnds(prevs, Openings(sentinel, order, heights, Rank(Weights(order), w)))
    {
    }

    /** Searches for the place of `node` on every level. */
    method FindPlace(node: Node) returns (prevs: array<Node>)
      requires Valid()
      ensures fresh(prevs) && HeightsOf(order, heights)
      ensures LaneEnds(prevs[..], Openings(sentinel, order, heights, Rank(Weights(order), node.weight)))
    {
      hide *;
      SevenLevels();
      prevs := new Node[MAX_LEVELS](_ => sentinel);
      FindPrevs(prevs, node.weight);
      LastLightersAreLaneEnds(node.weight, prevs[..]);
    }

    /** The pointer work of Insert, with `order` and `heights` as they were. */
    method LinkIn(node: Node, height: nat)
      requires Valid() && node !in heights && node != sentinel
      requires HeightsOf(order, heights)
      modifies sentinel`next, sentinel`prev, heights.Keys`next, heights.Keys`prev, node`next, node`prev
      ensures var openings := Openings(sentinel, order, heights, Rank(Weights(order), node.weight));
              && Fits(openings, Tall(heights, sentinel), sentinel, node)
              && LinkedOn(openings, Tall(heights, sentinel), sentinel, node, 0,
                          if height < MAX_LEVELS then height else MAX_LEVELS)
      ensures height < MAX_LEVELS ==> node.next[height] == null && node.prev[height] == null
      ensures StaleKept(heights)
      ensures sentinel.prev == old(sentinel.prev)
    {
      hide Valid, Linked, Shape, ShapeOf, HeightsOf, Woven, Openings, LinkedOn, Fits, Weights, Rank, Ascending,
        LaneEnds;
      LinkedGives();
      var prevs := FindPlace(node);
      ghost var k := Rank(Weights(order), node.weight);
      WovenWithout(sentinel, order, heights, k, node);
      InsertAfter(prevs, node, height, Openings(sentinel, order, heights, k), Tall(heights, sentinel), sentinel);
    }

    /** Puts `node` before the first node not lighter than it, on its lowest `height` levels; at
        height 0 it is in no list, and the code can tell. */
    method Insert(node: Node, height: nat)
      requires Valid() && node !in heights && node != sentinel
      modifies this`order, this`heights, sentinel`next, sentinel`prev
      modifies heights.Keys`next, heights.Keys`prev, node`next, node`prev
      ensures Valid()
      ensures height > 0 ==>
        var k := Rank(old(Weights(order)), node.weight);
        order == old(order)[..k] + [node] + old(order)[k..] &&
        heights == old(heights)[node := if height < MAX_LEVELS then height else MAX_LEVELS]
      ensures height == 0 ==> order == old(order) && heights == old(heights)
      ensures height < MAX_LEVELS ==> node.next[height] == null && node.prev[height] == null
      ensures StaleKept(old(heights))
    {
      hide Valid, Linked, Shape, ShapeOf, HeightsOf, Woven, Openings, LinkedOn, Fits, Weights, Rank, Ascending, Tall;
      LinkedGives();
      LinkIn(node, height);
      ghost var was, hs := order, heights;
      ghost var k := Rank(Weights(order), node.weight);
      if height == 0 {
        WovenWithout(sentinel, was, hs, k, node);
        LinkedFrom();
        ValidFrom();
      } else {
        ghost var h := if height < MAX_LEVELS then height else MAX_LEVELS;
        order, heights := order[..k] + [node] + order[k..], heights[node := h];
        WovenWith(sentinel, was, hs, k, node, h, order, heights);
        LinkedFrom();
        AscendingInserted(was, node);
        ValidFrom();
      }
    }
  }

  /** SkipListInsert: does nothing without a list or a node. */
  method SkipListInsert(list: SkipList?, node: Node?, height: nat)
    requires list != null && node != null ==> list.Valid() && node !in list.heights && node != list.sentinel
    modifies if list == null || node == null then {} else {list, list.sentinel, node} + list.heights.Keys
    ensures list != null && node != null ==>
      && list.Valid()
      && var k := Rank(old(Weights(list.order)), node.weight);
         (list.order == if height == 0 then old(list.order) else old(list.order)[..k] + [node] + old(list.order)[k..])
    ensures list != null && node != null ==>
      list.heights == if height == 0 then old(list.heights)
                      else old(list.heights)[node := if height < 7 then height else 7]
    ensures list != null && node != null && 0 < height <= 7 ==> Height(node.prev) == height
  {
    if list == null || node == null { return; }
    list.Insert(node, height);
    if height > 0 {
      list.HeightRecovered(node);
    }
  }

  /** SkipListRemove: does nothing without a node. */
  method SkipListRemove(node: Node?, ghost list: SkipList)
    requires list.Linked() && (node == null || node in list.heights || Height(node.prev) == 0)
    modifies if node == null then {} else {list, list.sentinel} + list.heights.Keys
    ensures list.Linked() && (old(list.Valid()) ==> list.Valid())
    ensures node != null && node in old(list.heights) ==>
      exists k :: 0 <= k < |old(list.order)| && old(list.order)[k] == node &&
                  list.order == old(list.order)[..k] + old(list.order)[k + 1..]
    ensures node == null || node !in old(list.heights) ==>
      list.order == old(list.order) && list.heights == old(list.heights)
  {
    if node == null { return; }
    ghost var k := Remove(node, list);
  }

  /** SkipListBest: NULL without a list. */
  method SkipListBest(list: SkipList?, weight: SizeT, exact: bool) returns (best: Node?)
    requires list != null ==> list.Valid()
    ensures list == null ==> best == null
    ensures list != null && exact ==>
      var k := Rank(Weights(list.order), weight); best == if k < |list.order| then list.order[k] else null
    ensures list != null && !exact ==>
      var p := Closest(Weights(list.order), HeightSeq(list.order, list.heights), weight);
      best == if p > 0 then list.order[p - 1] else null
  {
    if list == null { return null; }
    best := list.Best(weight, exact);
  }

  lemma AscendingWithout(order: seq<Node>, k: nat)
    requires k < |order|
    ensures Ascending(Weights(order)) ==> Ascending(Weights(order[..k] + order[k + 1..]))
  {
    hide Weights, Ascending;
    var ws := Weights(order);
    assert Weights(order[..k] + order[k + 1..]) == ws[..k] + ws[k + 1..];
    if Ascending(ws) {
      AscendingRemove(ws, k);
    }
  }

  lemma Undone(order: seq<Node>, node: Node, k0: nat, k: nat)
    requires node !in order && k0 <= |order| && k <= |order|
    requires (order[..k0] + [node] + order[k0..])[k] == node
    ensures (order[..k0] + [node] + order[k0..])[..k] + (order[..k0] + [node] + order[k0..])[k + 1..] == order
  {
  }

  /** The pointer work of removing a linked node. */
  method LinkOut(node: Node, height: nat, ghost list: SkipList, ghost k: nat)
    requires list.Linked() && k < |list.order| && list.order[k] == node && node in list.heights
    requires height == list.heights[node]
    modifies list`order, list`heights, list.sentinel`next, list.sentinel`prev
    modifies list.heights.Keys`next, list.heights.Keys`prev
    ensures list.Linked()
    ensures list.order == old(list.order)[..k] + old(list.order)[k + 1..]
    ensures list.heights == old(list.heights) - {node}
    ensures StaleKept(list.heights)
    ensures node.next == old(node.next) && node.prev == old(node.prev)
  {
    hide SkipList.Linked, SkipList.Shape, ShapeOf, HeightsOf, Woven, Openings, LinkedOn, Fits;
    ghost var sentinel, order, heights := list.sentinel, list.order, list.heights;
    ghost var order', heights' := order[..k] + order[k + 1..], heights - {node};
    list.LinkedGives();
    PutBack(sentinel, order, heights, k);
    ShapeRemoved(sentinel, order, heights, k);
    WovenWith(sentinel, order', heights', k, node, height, order, heights);
    Unlink(node, height, Openings(sentinel, order', heights', k), Tall(heights', sentinel), sentinel);
    WovenWithout(sentinel, order', heights', k, node);
    list.order, list.heights := order', heights';
    list.LinkedFrom();
  }

  /** Takes `node` out of `list`, which the code is not told.  A node without a first predecessor
      is in no list, whatever other links it has left over, and nothing happens.  Only linkedness
      is asked for: the weight of `node` may already have been changed. */
  method Remove(node: Node, ghost list: SkipList) returns (ghost k: nat)
    requires list.Linked()
    requires node in list.heights || Height(node.prev) == 0
    modifies list`order, list`heights, list.sentinel`next, list.sentinel`prev
    modifies list.heights.Keys`next, list.heights.Keys`prev
    ensures list.Linked() && node !in list.heights
    ensures node in old(list.heights) ==>
      && k < |old(list.order)| && old(list.order)[k] == node
      && list.order == old(list.order)[..k] + old(list.order)[k + 1..]
      && list.heights == old(list.heights) - {node}
    ensures node !in old(list.heights) ==> list.order == old(list.order) && list.heights == old(list.heights)
    ensures old(list.Valid()) ==> list.Valid()
    ensures StaleKept(list.heights)
    ensures node.next == old(node.next) && node.prev == old(node.prev)
  {
    hide SkipList.Linked, SkipList.Shape, ShapeOf, Weights, Ascending, Height;
    var height := NodeHeight(node);
    if height > 0 {
      list.IsListed(node);
      k := IndexOf(list.order, node);
      ghost var order := list.order;
      LinkOut(node, height, list, k);
      AscendingWithout(order, k);
    } else {
      k := 0;
      list.NotListed(node);
    }
  }

  /** Changes the weight of `node` and takes it out of `list`; in between, the list is out of order. */
  method RemoveReweighed(node: Node, weight: SizeT, ghost list: SkipList) returns (ghost k: nat)
    requires list.Valid() && node != list.sentinel
    requires node in list.heights || Height(node.prev) == 0
    modifies node`weight, list`order, list`heights, list.sentinel`next, list.sentinel`prev
    modifies list.heights.Keys`next, list.heights.Keys`prev
    ensures list.Valid() && node !in list.heights && node.weight == weight
    ensures node in old(list.heights) ==>
      && k < |old(list.order)| && old(list.order)[k] == node
      && list.order == old(list.order)[..k] + old(list.order)[k + 1..]
      && list.heights == old(list.heights) - {node}
    ensures node !in old(list.heights) ==> list.order == old(list.order) && list.heights == old(list.heights)
  {
    hide SkipList.Linked, SkipList.Shape, SkipList.Valid, ShapeOf, Ascending, Distinct, Weights;
    ghost var order, ws := list.order, Weights(list.order);
    list.LinkedGives();
    ShapeGives(list.sentinel, order, list.heights);
    list.ListedIffInHeights(node);
    node.weight := weight;
    k := Remove(node, list);
    if node in order {
      OthersAscend(order, ws, k);
    } else {
      assert Weights(order) == ws;
    }
    list.ValidFrom();
  }

  lemma OthersAscend(order: seq<Node>, ws: seq<nat>, k: nat)
    requires Distinct(order) && k < |order| == |ws| && Ascending(ws)
    requires forall j :: 0 <= j < |order| && order[j] != order[k] ==> order[j].weight == ws[j]
    ensures Ascending(Weights(order[..k] + order[k + 1..]))
  {
    var rest, ws' := order[..k] + order[k + 1..], ws[..k] + ws[k + 1..];
    hide Weights, Ascending;
    assert Weights(rest) == ws';
    AscendingRemove(ws, k);
  }

  /** Removing a node just inserted restores every link of every other node, leftovers above
      their heights included. */
  method InsertThenRemove(list: SkipList, node: Node, height: nat)
    requires list.Valid() && node !in list.heights && node != list.sentinel && height > 0
    modifies list, list.sentinel`next, list.sentinel`prev
    modifies list.heights.Keys`next, list.heights.Keys`prev, node`next, node`prev
    ensures list.Valid() && list.order == old(list.order) && list.heights == old(list.heights)
    ensures forall n :: n in list.heights ==> n.next == old(n.next) && n.prev == old(n.prev)
    ensures list.sentinel.next == old(list.sentinel.next) && list.sentinel.prev == old(list.sentinel.prev)
  {
    hide SkipList.Valid, SkipList.Linked, SkipList.Shape, ShapeOf, HeightsOf, Woven, AtLevel, After, Before, Rank,
      Weights, Ascending;
    ghost var order, heights, sentinel := list.order, list.heights, list.sentinel;
    list.LinkedGives();
    WovenIsDetermined(sentinel, order, heights);
    InsertAndRemove(list, node, height);
    list.LinkedGives();
    WovenIsDetermined(sentinel, order, heights);
    forall n, i | n in heights && 0 <= i < MAX_LEVELS
      ensures n.next[i] == old(n.next[i]) && n.prev[i] == old(n.prev[i])
    {
    }
  }

  /** The two calls one after the other bring the list back. */
  method InsertAndRemove(list: SkipList, node: Node, height: nat)
    requires list.Valid() && node !in list.heights && node != list.sentinel && height > 0
    modifies list, list.sentinel`next, list.sentinel`prev
    modifies list.heights.Keys`next, list.heights.Keys`prev, node`next, node`prev
    ensures list.Valid() && list.order == old(list.order) && list.heights == old(list.heights)
    ensures StaleKept(list.heights) && list.sentinel.prev == old(list.sentinel.prev)
  {
    hide SkipList.Valid, SkipList.Linked, SkipList.Shape, ShapeOf, HeightsOf, Woven, AtLevel, Rank, Weights, Ascending;
    ghost var order, heights := list.order, list.heights;
    list.ListedIffInHeights(node);
    list.LinkedGives();
    list.Insert(node, height);
    ghost var k := Remove(node, list);
    Undone(order, node, Rank(Weights(order), node.weight), k);
    assert list.heights == heights;
    list.LinkedGives();
  }
}
