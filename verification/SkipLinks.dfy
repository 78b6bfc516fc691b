/** Nodes of the skip list, the pointer chains that link them on one level, and the pointer
    work of linking or unlinking a node on all its levels. */
module SkipLinks {
  import opened SkipSearch

  const MAX_LEVELS: nat := 7

  type Links = s: seq<Node?> | |s| == 7 witness [null, null, null, null, null, null, null]

  lemma SevenLevels()
    ensures MAX_LEVELS == 7
  {
  }

  const NO_LINKS: Links := [null, null, null, null, null, null, null]

  /** A node; `address` is where in memory it lies. */
  class Node {
    const address: nat
    var weight: SizeT
    var next: Links
    var payload: object?
    var prev: Links

    constructor (address: nat, payload: object?)
      ensures weight == 0 && next == NO_LINKS && prev == NO_LINKS
      ensures this.payload == payload && this.address == address
    {
      this.address := address;
      weight := 0;
      next := NO_LINKS;
      this.payload := payload;
      prev := NO_LINKS;
    }
  }

  ghost predicate Distinct(s: seq<Node>) {
    forall i, j :: 0 <= i < j < |s| ==> s[i] != s[j]
  }

  function SkipListNext(node: Node?): Node?
    reads node
  {
    if node == null then null else node.next[0]
  }

  function SkipListPrev(node: Node?): Node?
    reads node
  {
    if node == null then null else node.prev[0]
  }

  function SkipListPayload(node: Node?): object?
    reads node
  {
    if node == null then null else node.payload
  }

  // ----- Pointer chains -----

  /** Consecutive nodes of `c` are doubly linked on level `i`. */
  ghost predicate Segment(c: seq<Node>, i: nat)
    requires i < MAX_LEVELS
    reads c`next, c`prev
  {
    && (forall k {:trigger c[k].next} :: 0 <= k < |c| - 1 ==> c[k].next[i] == c[k + 1])
    && (forall k {:trigger c[k].prev} :: 0 < k < |c| ==> c[k].prev[i] == c[k - 1])
  }

  /** `c` is a segment that ends level `i`. */
  ghost predicate Chain(c: seq<Node>, i: nat)
    requires i < MAX_LEVELS
    reads c`next, c`prev
  {
    Segment(c, i) && (c != [] ==> c[|c| - 1].next[i] == null)
  }

  /** Segments join where the two end nodes are linked to each other, and only there. */
  lemma Join(a: seq<Node>, b: seq<Node>, i: nat)
    requires i < MAX_LEVELS && Segment(a, i) && Segment(b, i)
    requires a != [] && b != [] ==> a[|a| - 1].next[i] == b[0] && b[0].prev[i] == a[|a| - 1]
    ensures Segment(a + b, i)
  {
    var c := a + b;
    forall k | 0 <= k < |c| - 1
      ensures c[k].next[i] == c[k + 1]
    {
      if k < |a| { assert c[k] == a[k]; } else { assert c[k] == b[k - |a|]; }
    }
    forall k | 0 < k < |c|
      ensures c[k].prev[i] == c[k - 1]
    {
      if k < |a| { assert c[k] == a[k]; } else { assert c[k] == b[k - |a|]; }
    }
  }

  lemma Cut(a: seq<Node>, b: seq<Node>, i: nat)
    requires i < MAX_LEVELS && Segment(a + b, i)
    ensures Segment(a, i) && Segment(b, i)
    ensures a != [] && b != [] ==> a[|a| - 1].next[i] == b[0] && b[0].prev[i] == a[|a| - 1]
  {
    var c, p := a + b, |a|;
    forall k | 0 <= k < |a|
      ensures k < |a| - 1 ==> a[k].next[i] == a[k + 1]
      ensures k > 0 ==> a[k].prev[i] == a[k - 1]
      ensures k == |a| - 1 && b != [] ==> a[k].next[i] == b[0]
    {
      assert a[k] == c[k] && (k + 1 < |c| ==> c[k].next[i] == c[k + 1]);
      assert k > 0 ==> c[k].prev[i] == c[k - 1];
    }
    forall k | 0 <= k < |b|
      ensures k < |b| - 1 ==> b[k].next[i] == b[k + 1]
      ensures k > 0 ==> b[k].prev[i] == b[k - 1]
      ensures k == 0 && a != [] ==> b[k].prev[i] == a[p - 1]
    {
      assert b[k] == c[p + k] && (p + k + 1 < |c| ==> c[p + k].next[i] == c[p + k + 1]);
      assert p + k > 0 ==> c[p + k].prev[i] == c[p + k - 1];
    }
  }

  lemma ChainAt(c: seq<Node>, i: nat, k: nat)
    requires i < MAX_LEVELS && Chain(c, i) && k < |c|
    ensures c[k].next[i] == if k + 1 < |c| then c[k + 1] else null
    ensures k > 0 ==> c[k].prev[i] == c[k - 1]
  {
  }

  function Height(prev: Links): (h: nat)
    ensures h <= MAX_LEVELS
    ensures forall i :: 0 <= i < h ==> prev[i] != null
    ensures h < MAX_LEVELS ==> prev[h] == null
  {
    HeightFrom(prev, 0)
  }

  function HeightFrom(prev: Links, i: nat): (h: nat)
    requires i <= MAX_LEVELS
    ensures i <= h <= MAX_LEVELS
    ensures forall j :: i <= j < h ==> prev[j] != null
    ensures h < MAX_LEVELS ==> prev[h] == null
    decreases MAX_LEVELS - i
  {
    if i < MAX_LEVELS && prev[i] != null then HeightFrom(prev, i + 1) else i
  }

  lemma UnlinkedHasNoHeight(prev: Links)
    requires prev == NO_LINKS
    ensures Height(prev) == 0
  {
  }

  /** The height of a node, which is stored nowhere: the first level without a predecessor. */
  method NodeHeight(node: Node) returns (h: nat)
    ensures h == Height(node.prev)
  {
    h := 0;
    while h < MAX_LEVELS && node.prev[h] != null
      invariant h <= MAX_LEVELS
      invariant HeightFrom(node.prev, h) == Height(node.prev)
    {
      h := h + 1;
    }
  }

  // ----- One level at a time -----

  /** The two sides of the place on one level where a node stands or is to stand. */
  datatype Opening = Opening(lane: seq<Node>, rest: seq<Node>)

  /** A sound place for `node` on every level: each lane starts at the sentinel, and level i
      shows only nodes taller than i. */
  ghost predicate Fits(openings: seq<Opening>, tall: map<Node, nat>, sentinel: Node, node: Node) {
    && |openings| == MAX_LEVELS
    && node !in tall
    && (forall i {:trigger openings[i]} :: 0 <= i < MAX_LEVELS ==> FitsAt(openings[i], tall, sentinel, i))
  }

  ghost predicate FitsAt(opening: Opening, tall: map<Node, nat>, sentinel: Node, i: nat) {
    && opening.lane != [] && opening.lane[0] == sentinel
    && Distinct(opening.lane + opening.rest)
    && (forall q :: 0 <= q < |opening.lane| ==> opening.lane[q] in tall && tall[opening.lane[q]] > i)
    && (forall q :: 0 <= q < |opening.rest| ==> opening.rest[q] in tall && tall[opening.rest[q]] > i)
  }

  /** The only links that differ are those on level `i` of nodes taller than `i`. */
  twostate predicate OnlyLevel(tall: map<Node, nat>, i: nat)
    reads tall.Keys
  {
    forall n, j :: n in tall && 0 <= j < MAX_LEVELS && (j != i || tall[n] <= i) ==>
      n.next[j] == old(n.next[j]) && n.prev[j] == old(n.prev[j])
  }

  /** Links above a node's height are left alone. */
  twostate predicate StaleKept(tall: map<Node, nat>)
    reads tall.Keys
  {
    forall n, j :: n in tall && tall[n] <= j < MAX_LEVELS ==>
      n.next[j] == old(n.next[j]) && n.prev[j] == old(n.prev[j])
  }

  lemma DistinctEnds(lane: seq<Node>, rest: seq<Node>)
    requires Distinct(lane + rest) && lane != []
    ensures forall q :: 0 <= q < |lane| - 1 ==> lane[q] != lane[|lane| - 1]
    ensures forall q :: 0 <= q < |lane| && rest != [] ==> lane[q] != rest[0]
    ensures forall q :: 0 <= q < |rest| ==> rest[q] != lane[|lane| - 1]
    ensures forall q :: 0 < q < |rest| ==> rest[q] != rest[0]
  {
    var c := lane + rest;
    assert forall q :: 0 <= q < |lane| ==> c[q] == lane[q];
    assert forall q :: 0 <= q < |rest| ==> c[|lane| + q] == rest[q];
  }

  /** Links `node` on level `i` after `prev`, the last node of the lane. */
  method InsertLevel(prev: Node, node: Node, i: nat, ghost opening: Opening, ghost tall: map<Node, nat>,
                     ghost sentinel: Node)
    requires i < MAX_LEVELS && node !in tall && FitsAt(opening, tall, sentinel, i)
    requires opening.lane[|opening.lane| - 1] == prev
    requires Chain(opening.lane + opening.rest, i)
    modifies prev`next, node`next, node`prev, opening.rest`prev
    ensures Chain(opening.lane + [node] + opening.rest, i)
    ensures OnlyLevel(tall, i)
    ensures forall j :: 0 <= j < MAX_LEVELS && j != i ==>
      node.next[j] == old(node.next[j]) && node.prev[j] == old(node.prev[j])
    ensures sentinel.prev == old(sentinel.prev)
  {
    ghost var lane, rest := opening.lane, opening.rest;
    hide Distinct;
    DistinctEnds(lane, rest);
    Cut(lane, rest, i);
    var next := prev.next[i];
    assert next == if rest == [] then null else rest[0];
    node.next := node.next[i := next];
    prev.next := prev.next[i := node];
    node.prev := node.prev[i := prev];
    if next != null {
      next.prev := next.prev[i := node];
    }
    assert Segment(lane, i);
    assert Segment(rest, i);
    assert Segment([node], i);
    Join(lane, [node], i);
    Join(lane + [node], rest, i);
  }

  /** Unlinks `node` on level `i`. */
  method RemoveLevel(node: Node, i: nat, ghost opening: Opening, ghost tall: map<Node, nat>, ghost sentinel: Node)
    requires i < MAX_LEVELS && node !in tall && FitsAt(opening, tall, sentinel, i)
    requires Chain(opening.lane + [node] + opening.rest, i)
    modifies opening.lane`next, opening.rest`prev
    ensures Chain(opening.lane + opening.rest, i)
    ensures OnlyLevel(tall, i)
    ensures node.next == old(node.next) && node.prev == old(node.prev)
    ensures sentinel.prev == old(sentinel.prev)
  {
    ghost var lane, rest := opening.lane, opening.rest;
    DistinctEnds(lane, rest);
    Cut(lane + [node], rest, i);
    Cut(lane, [node], i);
    var prev, next := node.prev[i], node.next[i];
    assert prev == lane[|lane| - 1];
    assert next == if rest == [] then null else rest[0];
    if prev != null {
      prev.next := prev.next[i := next];
    }
    if next != null {
      next.prev := next.prev[i := prev];
    }
    assert Segment(lane, i);
    assert Segment(rest, i);
    Join(lane, rest, i);
  }

  // ----- All levels -----

  ghost function ChainOf(opening: Opening, node: Node, present: bool): seq<Node> {
    if present then opening.lane + [node] + opening.rest else opening.lane + opening.rest
  }

  lemma ChainOfMembers(opening: Opening, node: Node, present: bool, tall: map<Node, nat>, sentinel: Node, i: nat)
    requires FitsAt(opening, tall, sentinel, i)
    ensures var c := ChainOf(opening, node, present); forall k :: 0 <= k < |c| ==> c[k] == node || c[k] in tall
  {
  }

  /** Every level is linked, with `node` in place on levels `from` to `to` - 1. */
  ghost predicate LinkedOn(openings: seq<Opening>, tall: map<Node, nat>, sentinel: Node, node: Node, from: nat, to: nat)
    requires Fits(openings, tall, sentinel, node)
    reads tall.Keys`next, tall.Keys`prev, node`next, node`prev
  {
    forall i {:trigger openings[i]} :: 0 <= i < MAX_LEVELS ==>
      (ChainOfMembers(openings[i], node, from <= i < to, tall, sentinel, i);
       Chain(ChainOf(openings[i], node, from <= i < to), i))
  }

  method InsertStep(prev: Node, node: Node, i: nat,
                    ghost openings: seq<Opening>, ghost tall: map<Node, nat>, ghost sentinel: Node)
    requires Fits(openings, tall, sentinel, node) && i < MAX_LEVELS
    requires prev == openings[i].lane[|openings[i].lane| - 1]
    requires LinkedOn(openings, tall, sentinel, node, 0, i)
    modifies tall.Keys`next, tall.Keys`prev, node`next, node`prev
    ensures LinkedOn(openings, tall, sentinel, node, 0, i + 1)
    ensures OnlyLevel(tall, i)
    ensures forall j :: 0 <= j < MAX_LEVELS && j != i ==>
      node.next[j] == old(node.next[j]) && node.prev[j] == old(node.prev[j])
    ensures sentinel.prev == old(sentinel.prev)
  {
    assert Chain(ChainOf(openings[i], node, false), i);
    InsertLevel(prev, node, i, openings[i], tall, sentinel);
    forall j | 0 <= j < MAX_LEVELS && j != i
      ensures Chain(ChainOf(openings[j], node, j < i), j)
    {
      var c := ChainOf(openings[j], node, j < i);
      ChainOfMembers(openings[j], node, j < i, tall, sentinel, j);
      assert old(Chain(c, j));
      assert forall k :: 0 <= k < |c| ==> c[k].next[j] == old(c[k].next[j]) && c[k].prev[j] == old(c[k].prev[j]);
      assert Segment(c, j);
    }
  }

  method RemoveStep(node: Node, i: nat, ghost to: nat,
                    ghost openings: seq<Opening>, ghost tall: map<Node, nat>, ghost sentinel: Node)
    requires Fits(openings, tall, sentinel, node) && i < to <= MAX_LEVELS
    requires LinkedOn(openings, tall, sentinel, node, i, to)
    modifies tall.Keys`next, tall.Keys`prev
    ensures LinkedOn(openings, tall, sentinel, node, i + 1, to)
    ensures OnlyLevel(tall, i)
    ensures sentinel.prev == old(sentinel.prev)
  {
    assert Chain(ChainOf(openings[i], node, true), i);
    RemoveLevel(node, i, openings[i], tall, sentinel);
    forall j | 0 <= j < MAX_LEVELS && j != i
      ensures Chain(ChainOf(openings[j], node, i < j < to), j)
    {
      var c := ChainOf(openings[j], node, i < j < to);
      ChainOfMembers(openings[j], node, i < j < to, tall, sentinel, j);
      assert old(Chain(c, j));
      assert forall k :: 0 <= k < |c| ==> c[k].next[j] == old(c[k].next[j]) && c[k].prev[j] == old(c[k].prev[j]);
      assert Segment(c, j);
    }
  }

  method EndNode(node: Node, height: nat, ghost openings: seq<Opening>, ghost tall: map<Node, nat>,
                 ghost sentinel: Node)
    requires Fits(openings, tall, sentinel, node) && height < MAX_LEVELS
    requires LinkedOn(openings, tall, sentinel, node, 0, 0)
    modifies node`next, node`prev
    ensures LinkedOn(openings, tall, sentinel, node, 0, 0)
    ensures node.next[height] == null && node.prev[height] == null
  {
    node.next := node.next[height := null];
    node.prev := node.prev[height := null];
    forall j | 0 <= j < MAX_LEVELS
      ensures Chain(ChainOf(openings[j], node, false), j)
    {
      var c := ChainOf(openings[j], node, false);
      ChainOfMembers(openings[j], node, false, tall, sentinel, j);
      assert old(Chain(c, j));
      assert forall k :: 0 <= k < |c| ==> c[k] != node;
      assert Segment(c, j);
    }
  }

  /** `prevs` are the last nodes of the lanes. */
  ghost predicate LaneEnds(prevs: seq<Node>, openings: seq<Opening>) {
    |prevs| == |openings| == MAX_LEVELS &&
    forall i :: 0 <= i < MAX_LEVELS ==> openings[i].lane != [] && prevs[i] == openings[i].lane[|openings[i].lane| - 1]
  }

  /** Links `node` on its lowest `height` levels, each time after `prevs[i]`. */
  method InsertAfter(prevs: array<Node>, node: Node, height: nat,
                     ghost openings: seq<Opening>, ghost tall: map<Node, nat>, ghost sentinel: Node)
    requires Fits(openings, tall, sentinel, node) && LaneEnds(prevs[..], openings)
    requires LinkedOn(openings, tall, sentinel, node, 0, 0)
    requires node !in tall && sentinel in tall
    modifies tall.Keys`next, tall.Keys`prev, node`next, node`prev
    ensures LinkedOn(openings, tall, sentinel, node, 0, if height < MAX_LEVELS then height else MAX_LEVELS)
    ensures height < MAX_LEVELS ==> node.next[height] == null && node.prev[height] == null
    ensures StaleKept(tall)
    ensures sentinel.prev == old(sentinel.prev)
  {
    hide Fits, LinkedOn;
    var h := height;
    if height >= MAX_LEVELS {
      h := MAX_LEVELS;
    } else {
      EndNode(node, height, openings, tall, sentinel);
    }
    var i := 0;
    while i < h
      invariant 0 <= i <= h
      invariant LinkedOn(openings, tall, sentinel, node, 0, i)
      invariant h < MAX_LEVELS ==> node.next[h] == null && node.prev[h] == null
      invariant StaleKept(tall)
      invariant sentinel.prev == old(sentinel.prev)
    {
      InsertStep(prevs[i], node, i, openings, tall, sentinel);
      i := i + 1;
    }
  }

  /** Unlinks `node` on its lowest `height` levels; the node's own links stay as leftovers. */
  method Unlink(node: Node, height: nat,
                ghost openings: seq<Opening>, ghost tall: map<Node, nat>, ghost sentinel: Node)
    requires Fits(openings, tall, sentinel, node) && height <= MAX_LEVELS
    requires LinkedOn(openings, tall, sentinel, node, 0, height)
    modifies tall.Keys`next, tall.Keys`prev
    ensures LinkedOn(openings, tall, sentinel, node, 0, 0)
    ensures StaleKept(tall)
    ensures sentinel.prev == old(sentinel.prev)
  {
    var i := 0;
    while i < height
      invariant 0 <= i <= height
      invariant LinkedOn(openings, tall, sentinel, node, i, height)
      invariant StaleKept(tall)
      invariant sentinel.prev == old(sentinel.prev)
    {
      hide Fits, LinkedOn;
      RemoveStep(node, i, height, openings, tall, sentinel);
      i := i + 1;
    }
  }
}
