/** The page allocator: every free range is described by a record in its own first page and
    kept in two skip lists at once, by address and, in one of three lists, by size. */
module MemoryRanges {
  import opened Basics
  import opened SkipSearch
  import opened SkipLinks
  import SkipLevels
  import opened SkipLists
  import opened FreeRanges
  import opened PageRuns

  datatype Kind = ByAddress | BySize(class_: Class)

  /** The height that a series of random draws gives: one more than the number of leading
      successes, at most `maxLevel`. */
  function HeightOf(draws: seq<bool>, maxLevel: nat): (level: nat)
    ensures maxLevel > 0 ==> 1 <= level <= maxLevel
  {
    if draws != [] && draws[0] && maxLevel > 1 then 1 + HeightOf(draws[1..], maxLevel - 1) else 1
  }

  /** All draws before the last one looked at succeeded, and that one failed, if there was one. */
  lemma {:induction false} HeightMeans(draws: seq<bool>, maxLevel: nat)
    ensures var level := HeightOf(draws, maxLevel);
            && level <= |draws| + 1 && (forall j :: 0 <= j < level - 1 ==> draws[j])
            && (level >= maxLevel || level > |draws| || !draws[level - 1])
  {
    if draws != [] && draws[0] && maxLevel > 1 {
      HeightMeans(draws[1..], maxLevel - 1);
      var level := HeightOf(draws, maxLevel);
      assert forall j :: 0 < j < |draws| ==> draws[j] == draws[1..][j - 1];
    }
  }

  method RandomMemoryRangeHeight(draws: seq<bool>, maxLevel: nat) returns (level: nat)
    ensures level == HeightOf(draws, maxLevel)
    ensures 1 <= level <= |draws| + 1 && (maxLevel > 0 ==> level <= maxLevel)
    ensures forall j :: 0 <= j < level - 1 ==> draws[j]
    ensures level >= maxLevel || level > |draws| || !draws[level - 1]
  {
    level := 1;
    while level <= |draws| && draws[level - 1] && level < maxLevel
      invariant 1 <= level <= |draws| + 1 && (level > 1 ==> level <= maxLevel)
      invariant forall j :: 0 <= j < level - 1 ==> draws[j]
      invariant level - 1 + HeightOf(draws[level - 1..], if maxLevel < level then 0 else maxLevel - level + 1) ==
        HeightOf(draws, maxLevel)
    {
      level := level + 1;
    }
  }

  /** The draws are arbitrary, so every height is possible. */
  lemma {:induction false} EveryHeight(level: nat, maxLevel: nat) returns (draws: seq<bool>)
    requires 1 <= level <= maxLevel
    ensures HeightOf(draws, maxLevel) == level
  {
    if level == 1 {
      draws := [];
    } else {
      draws := EveryHeight(level - 1, maxLevel - 1);
      draws := [true] + draws;
    }
  }

  const RECORD_SIZE: nat := 32
  const NODE_SIZE: nat := 128

  /** The record of a free range.  It lies, followed by its two nodes, in memory that it
      describes: `address` is where. */
  class MemoryRange {
    const address: nat
    const sizeNode: Node
    const addrNode: Node
    var pages: SizeT
    var begin: SizeT

    constructor (address: nat)
      ensures this.address == address && pages == 0 && begin == 0
      ensures fresh(sizeNode) && fresh(addrNode) && sizeNode != addrNode
      ensures sizeNode.payload == this && addrNode.payload == this
      ensures sizeNode.weight == 0 && sizeNode.prev == NO_LINKS && addrNode.prev == NO_LINKS
      ensures sizeNode.address == address + RECORD_SIZE && addrNode.address == address + RECORD_SIZE + NODE_SIZE
    {
      this.address := address;
      sizeNode := new Node(address + RECORD_SIZE, null);
      addrNode := new Node(address + RECORD_SIZE + NODE_SIZE, null);
      pages, begin := 0, 0;
      new;
      sizeNode.payload := this;
      addrNode.payload := this;
    }

    /** The record and its nodes say what `range` is, and lie where it begins. */
    ghost predicate Describes(range: Range)
      reads this, sizeNode, addrNode
    {
      && begin == range.begin * PAGE_SIZE && pages == range.pages
      && addrNode.weight == begin && sizeNode.weight == pages
      && addrNode.payload == this && sizeNode.payload == this
      && address == begin
      && sizeNode.address == begin + RECORD_SIZE
      && addrNode.address == begin + RECORD_SIZE + NODE_SIZE
    }
  }

  ghost function SizeNodes(ranges: seq<MemoryRange>): set<Node> {
    set r | r in ranges :: r.sizeNode
  }

  ghost function AddrNodes(ranges: seq<MemoryRange>): set<Node> {
    set r | r in ranges :: r.addrNode
  }

  /** The members of the three size lists. */
  datatype Sizes = Sizes(unaligned: set<Node>, aligned: set<Node>, big: set<Node>) {
    ghost function At(c: Class): set<Node> {
      match c
      case Unaligned2M => unaligned
      case Aligned2M => aligned
      case Aligned2MBig => big
    }

    /** Every range but `pending` has its node in the list that its alignment and size select,
        and the lists hold nothing else. */
    ghost predicate Agree(m: Reading, ranges: seq<MemoryRange>, free: seq<Range>, pending: MemoryRange?) {
      && |ranges| == |free|
      && (forall i {:trigger ranges[i]} :: 0 <= i < |ranges| && ranges[i] != pending ==>
            ranges[i].sizeNode in At(ClassOf(m, free[i])))
      && (forall c :: At(c) <= SizeNodes(ranges))
    }

    lemma Same(was: Sizes)
      requires forall c :: At(c) == was.At(c)
      ensures this == was
    {
      assert unaligned == At(Unaligned2M) == was.At(Unaligned2M);
      assert aligned == At(Aligned2M) == was.At(Aligned2M);
      assert big == At(Aligned2MBig) == was.At(Aligned2MBig);
    }

    /** A range that is not in any size list yet may enter anywhere. */
    lemma AgreeEntered(m: Reading, ranges: seq<MemoryRange>, free: seq<Range>, k: nat, range: MemoryRange, a: Range)
      requires Agree(m, ranges, free, null) && k <= |ranges| && range !in ranges
      ensures Agree(m, ranges[..k] + [range] + ranges[k..], free[..k] + [a] + free[k..], range)
    {
      var ranges', free' := ranges[..k] + [range] + ranges[k..], free[..k] + [a] + free[k..];
      forall i {:trigger ranges'[i]} | 0 <= i < |ranges'| && ranges'[i] != range
        ensures ranges'[i].sizeNode in At(ClassOf(m, free'[i]))
      {
        var j := if i < k then i else i - 1;
        assert ranges'[i] == ranges[j] && free'[i] == free[j];
      }
      assert forall r :: r in ranges ==> r in ranges';
      assert SizeNodes(ranges) <= SizeNodes(ranges');
    }

    /** Taking a range out with its node leaves the others in agreement. */
    lemma AgreeLeft(was: Sizes, m: Reading, ranges: seq<MemoryRange>, free: seq<Range>, k: nat)
      requires was.Agree(m, ranges, free, null) && k < |ranges|
      requires forall j {:trigger ranges[j]} :: 0 <= j < |ranges| && j != k ==>
                 ranges[j] != ranges[k] && ranges[j].sizeNode != ranges[k].sizeNode
      requires forall c :: At(c) == was.At(c) - {ranges[k].sizeNode}
      ensures Agree(m, ranges[..k] + ranges[k + 1..], free[..k] + free[k + 1..], null)
    {
      var ranges', free' := ranges[..k] + ranges[k + 1..], free[..k] + free[k + 1..];
      forall i {:trigger ranges'[i]} | 0 <= i < |ranges'|
        ensures ranges'[i].sizeNode in At(ClassOf(m, free'[i]))
      {
        var j := if i < k then i else i + 1;
        assert ranges'[i] == ranges[j] && free'[i] == free[j];
      }
      forall n | n in SizeNodes(ranges) && n != ranges[k].sizeNode
        ensures n in SizeNodes(ranges')
      {
        var j :| 0 <= j < |ranges| && ranges[j].sizeNode == n;
        assert ranges'[if j < k then j else j - 1] == ranges[j];
      }
    }

    /** Moving the node of range `i` to where its new page count belongs keeps the agreement. */
    lemma AgreeMoved(was: Sizes, m: Reading, ranges: seq<MemoryRange>, free: seq<Range>, i: nat, a: Range,
                     pending: MemoryRange?)
      requires was.Agree(m, ranges, free, pending) && i < |ranges| && (pending == null || pending == ranges[i])
      requires forall j {:trigger ranges[j]} :: 0 <= j < |ranges| && j != i ==>
                 ranges[j] != ranges[i] && ranges[j].sizeNode != ranges[i].sizeNode
      requires forall c ::
        At(c) == was.At(c) - {ranges[i].sizeNode} + if c == ClassOf(m, a) then {ranges[i].sizeNode} else {}
      ensures Agree(m, ranges, free[i := a], null)
    {
      assert ranges[i] in ranges;
    }
  }

  /** The nodes of each of the four lists, sentinels included. */
  datatype Parts = Parts(byAddress: set<Node>, unaligned: set<Node>, aligned: set<Node>, big: set<Node>) {
    ghost function At(k: Kind): set<Node> {
      match k
      case ByAddress => byAddress
      case BySize(c) =>
        match c
        case Unaligned2M => unaligned
        case Aligned2M => aligned
        case Aligned2MBig => big
    }

    ghost function All(): set<Node> {
      byAddress + unaligned + aligned + big
    }

    ghost predicate Apart() {
      forall k, l :: k != l ==> At(k) !! At(l)
    }

    lemma ApartWith(parts: Parts, node: Node, target: Kind)
      requires parts.Apart()
      requires forall k :: At(k) <= parts.At(k) + if k == target then {node} else {}
      requires forall k :: node !in parts.At(k)
      ensures Apart() && All() <= parts.All() + {node}
    {
      forall n | n in All()
        ensures n in parts.All() + {node}
      {
        InAll(n);
        parts.InAll(n);
      }
    }

    lemma InAll(n: Node)
      ensures n in All() <==> exists k :: n in At(k)
    {
      if n in byAddress { assert n in At(ByAddress); }
      if n in unaligned { assert n in At(BySize(Unaligned2M)); }
      if n in aligned { assert n in At(BySize(Aligned2M)); }
      if n in big { assert n in At(BySize(Aligned2MBig)); }
    }
  }

  class MemoryInfo {
    const reading: Reading
    const unaligned2M: SkipList
    const aligned2MBig: SkipList
    const aligned2M: SkipList
    const addr: SkipList

    /** The records, in address order, and what they describe. */
    ghost var ranges: seq<MemoryRange>
    ghost var free: seq<Range>

    /** All four sentinels start out zeroed; `base` is where the structure lies. */
    constructor (reading: Reading, base: nat)
      ensures this.reading == reading
      ensures Wired(null) && ranges == [] && free == [] && Invariant(reading, free)
    {
      hide SkipList.Valid, SkipList.Linked, SkipList.Shape, Wired;
      this.reading := reading;
      unaligned2M := new SkipList(base + 16);
      aligned2MBig := new SkipList(base + 144);
      aligned2M := new SkipList(base + 272);
      addr := new SkipList(base + 400);
      ranges, free := [], [];
      new;
      EmptyWired();
    }

    lemma EmptyWired()
      requires addr.Valid() && unaligned2M.Valid() && aligned2M.Valid() && aligned2MBig.Valid()
      requires addr.heights == unaligned2M.heights == aligned2M.heights == aligned2MBig.heights == map[]
      requires addr.order == [] && ranges == [] && free == []
      requires addr !in {unaligned2M, aligned2M, aligned2MBig}
      requires unaligned2M !in {aligned2M, aligned2MBig} && aligned2M != aligned2MBig
      requires addr.sentinel !in {unaligned2M.sentinel, aligned2M.sentinel, aligned2MBig.sentinel}
      requires unaligned2M.sentinel !in {aligned2M.sentinel, aligned2MBig.sentinel}
      requires aligned2M.sentinel != aligned2MBig.sentinel
      ensures Wired(null)
    {
      hide SkipList.Valid;
      AllValidFrom();
      assert forall k {:trigger Split().At(k)} :: Split().At(k) == {List(k).sentinel};
      ApartFrom();
      hide AllValid, Apart;
      assert forall c {:trigger SizeLists().At(c)} :: SizeLists().At(c) == {};
      WiredFrom(null);
    }

    // ----- The four lists -----

    function SizeList(c: Class): SkipList {
      match c
      case Unaligned2M => unaligned2M
      case Aligned2M => aligned2M
      case Aligned2MBig => aligned2MBig
    }

    function List(k: Kind): SkipList {
      match k
      case ByAddress => addr
      case BySize(c) => SizeList(c)
    }

    ghost function Members(k: Kind): set<Node>
      reads List(k)
    {
      List(k).heights.Keys
    }

    ghost function AllLists(): set<SkipList> {
      {addr, unaligned2M, aligned2M, aligned2MBig}
    }

    ghost function Owned(k: Kind): set<Node>
      reads List(k)
    {
      List(k).heights.Keys + {List(k).sentinel}
    }

    ghost function Split(): Parts
      reads AllLists()
    {
      Parts(Owned(ByAddress), Owned(BySize(Unaligned2M)), Owned(BySize(Aligned2M)), Owned(BySize(Aligned2MBig)))
    }

    ghost function AllNodes(): set<Node>
      reads AllLists()
    {
      Split().All()
    }

    lemma AllNodesAre()
      ensures AllNodes() == Split().All() && List(ByAddress) == addr
    {
    }

    lemma OwnedInAll(k: Kind)
      ensures List(k) in AllLists() && Owned(k) == Split().At(k) && Owned(k) <= AllNodes()
    {
      match k
      case ByAddress =>
      case BySize(c) =>
        match c
        case Unaligned2M =>
        case Aligned2M =>
        case Aligned2MBig =>
    }

    /** The lists are different ones and no two share a node. */
    ghost predicate Apart()
      reads AllLists()
    {
      Split().Apart() && forall k, l {:trigger List(k), List(l)} :: k != l ==> List(k) != List(l)
    }

    ghost predicate Fine(k: Kind)
      reads AllLists(), AllNodes()
    {
      OwnedInAll(k);
      List(k).Valid()
    }

    ghost predicate AllValid()
      reads AllLists(), AllNodes()
    {
      forall k :: Fine(k)
    }

    /** Changes the weight of `node` and takes it out of list `from`, if it is there. */
    method TakeOut(node: Node, weight: SizeT, ghost from: Kind) returns (ghost at: nat)
      requires AllValid() && Apart()
      requires node in Members(from) || (node !in AllNodes() && node.prev == NO_LINKS)
      modifies node`weight, AllLists()`order, AllLists()`heights, AllNodes()`next, AllNodes()`prev
      ensures AllValid() && Apart() && node.weight == weight
      ensures node !in AllNodes() && AllNodes() <= old(AllNodes())
      ensures List(from).heights == old(List(from).heights) - {node}
      ensures if node in old(Members(from)) then
                && at < |old(List(from).order)| && old(List(from).order)[at] == node
                && List(from).order == old(List(from).order)[..at] + old(List(from).order)[at + 1..]
              else
                List(from).order == old(List(from).order)
      ensures forall k {:trigger List(k)} :: k != from ==>
                List(k).order == old(List(k).order) && List(k).heights == old(List(k).heights)
    {
      hide *;
      ghost var parts := Split();
      SplitOff(node, from);
      assert parts.All() == AllNodes() by { AllNodesAre(); }
      at := RemoveReweighed(node, weight, List(from));
      forall k | k != from
        ensures List(k).Valid() && List(k).heights == old(List(k).heights) && List(k).order == old(List(k).order)
      {
        assert List(k) != List(from);
        assert List(k).heights == old(List(k).heights);
        assert old(List(k).Valid());
      }
      Rejoin(parts, node);
    }

    lemma SplitOff(node: Node, from: Kind)
      requires AllValid() && Apart()
      requires node in Members(from) || (node !in AllNodes() && node.prev == NO_LINKS)
      ensures List(from).Valid() && node != List(from).sentinel
      ensures Members(from) == List(from).heights.Keys
      ensures node in List(from).heights || Height(node.prev) == 0
      ensures Split().Apart() && forall k, l {:trigger List(k), List(l)} :: k != l ==> List(k) != List(l)
      ensures forall k {:trigger List(k)} :: Split().At(k) == Owned(k) == List(k).heights.Keys + {List(k).sentinel}
      ensures List(from) in AllLists() && List(from).sentinel in AllNodes() && List(from).heights.Keys <= AllNodes()
      ensures forall k {:trigger List(k)} :: k != from ==>
                && List(k) != List(from) && List(k).Valid()
                && List(k).sentinel != List(from).sentinel && List(k).sentinel !in List(from).heights.Keys
                && List(k).sentinel != node
                && List(k).heights.Keys !! List(from).heights.Keys && List(from).sentinel !in List(k).heights.Keys
                && node !in List(k).heights.Keys
    {
      forall k ensures Split().At(k) == Owned(k) { OwnedInAll(k); }
      OwnedInAll(from);
      assert Fine(from);
      if node.prev == NO_LINKS { UnlinkedHasNoHeight(node.prev); }
      List(from).LinkedGives();
      Split().InAll(node);
      forall k | k != from
        ensures List(k) != List(from) && Owned(k) !! Owned(from) && node !in Owned(k) && List(k).Valid()
      {
        OwnedInAll(k);
        assert Fine(k);
      }
    }

    /** Lists that have at most shrunk since they were apart are apart. */
    lemma Rejoin(parts: Parts, node: Node)
      requires forall k: Kind {:trigger List(k)} ::
        List(k).Valid() && List(k).heights.Keys + {List(k).sentinel} <= parts.At(k)
      requires forall k: Kind {:trigger List(k)} :: node != List(k).sentinel && node !in List(k).heights
      requires parts.Apart()
      requires forall k, l {:trigger List(k), List(l)} :: k != l ==> List(k) != List(l)
      ensures AllValid() && Apart() && node !in AllNodes() && AllNodes() <= parts.All()
    {
      forall k ensures Split().At(k) <= parts.At(k) && node !in Split().At(k) { OwnedInAll(k); }
      Split().InAll(node);
    }

    /** Enters `node`, which is in no list, into list `to`. */
    method PutIn(node: Node, height: nat, to: SkipList, ghost target: Kind)
      requires AllValid() && Apart() && node !in AllNodes() && to == List(target) && height > 0
      modifies node`next, node`prev, AllLists()`order, AllLists()`heights, AllNodes()`next, AllNodes()`prev
      ensures AllValid() && Apart() && AllNodes() <= old(AllNodes()) + {node}
      ensures var k := Rank(old(Weights(to.order)), node.weight);
              to.order == old(to.order)[..k] + [node] + old(to.order)[k..]
      ensures to.heights == old(to.heights)[node := if height < MAX_LEVELS then height else MAX_LEVELS]
      ensures forall k {:trigger List(k)} :: k != target ==>
                List(k).order == old(List(k).order) && List(k).heights == old(List(k).heights)
    {
      hide *;
      ghost var parts := Split();
      SplitOpen(node, target);
      assert parts.All() == AllNodes() by { AllNodesAre(); }
      forall k ensures node !in parts.At(k) { assert node !in List(k).heights; }
      to.Insert(node, height);
      forall k | k != target
        ensures List(k).Valid() && List(k).heights == old(List(k).heights) && List(k).order == old(List(k).order)
      {
        assert List(k) != to;
        assert List(k).heights == old(List(k).heights);
        assert old(List(k).Valid());
      }
      RejoinWith(parts, node, target);
    }

    lemma SplitOpen(node: Node, target: Kind)
      requires AllValid() && Apart() && node !in AllNodes()
      ensures Split().Apart() && forall k, l {:trigger List(k), List(l)} :: k != l ==> List(k) != List(l)
      ensures forall k {:trigger List(k)} ::
                && Split().At(k) == Owned(k) == List(k).heights.Keys + {List(k).sentinel}
                && List(k).Valid() && node != List(k).sentinel && node !in List(k).heights && node !in Split().At(k)
      ensures List(target) in AllLists()
      ensures List(target).sentinel in AllNodes() && List(target).heights.Keys <= AllNodes()
      ensures forall k {:trigger List(k)} :: k != target ==>
                && List(k).sentinel != List(target).sentinel && List(k).sentinel !in List(target).heights.Keys
                && List(k).heights.Keys !! List(target).heights.Keys && List(target).sentinel !in List(k).heights.Keys
    {
      Split().InAll(node);
      OwnedInAll(target);
      forall k
        ensures Split().At(k) == Owned(k) && List(k).Valid() && node !in Split().At(k)
      {
        OwnedInAll(k);
        assert Fine(k);
      }
    }

    /** Lists that were apart stay so when one of them gains a node that was in none. */
    lemma RejoinWith(parts: Parts, node: Node, target: Kind)
      requires forall k: Kind {:trigger List(k)} ::
                 && List(k).Valid()
                 && List(k).heights.Keys + {List(k).sentinel} <= parts.At(k) + if k == target then {node} else {}
      requires forall k: Kind {:trigger List(k)} :: node !in parts.At(k)
      requires parts.Apart()
      requires forall k, l {:trigger List(k), List(l)} :: k != l ==> List(k) != List(l)
      ensures AllValid() && Apart() && AllNodes() <= parts.All() + {node}
    {
      var split := Split();
      forall k
        ensures split.At(k) <= parts.At(k) + if k == target then {node} else {}
        ensures node !in parts.At(k)
      {
        OwnedInAll(k);
      }
      split.ApartWith(parts, node, target);
    }

    /** Gives `node` a new weight and moves it to list `to`, with a new random height.  It comes
        from list `from`, or from none if it has never been linked. */
    method Relink(node: Node, weight: SizeT, height: nat, to: SkipList, ghost from: Kind, ghost target: Kind)
      returns (ghost at: nat)
      requires AllValid() && Apart() && to == List(target) && height > 0
      requires node in Members(from) || (node !in AllNodes() && node.prev == NO_LINKS)
      modifies node`weight, node`next, node`prev
      modifies AllLists()`order, AllLists()`heights, AllNodes()`next, AllNodes()`prev
      ensures AllValid() && Apart() && node.weight == weight && AllNodes() <= old(AllNodes()) + {node}
      ensures forall k {:trigger List(k)} ::
                List(k).heights.Keys == old(List(k).heights.Keys) - {node} + if k == target then {node} else {}
      ensures LinkedAt(node, target, if height < MAX_LEVELS then height else MAX_LEVELS)
      ensures target != ByAddress && from != ByAddress ==> addr.order == old(addr.order)
      ensures target == ByAddress && node !in old(Members(from)) ==>
                var k := Rank(old(Weights(addr.order)), weight);
                addr.order == old(addr.order)[..k] + [node] + old(addr.order)[k..]
    {
      hide *;
      AllNodesAre();
      OnlyIn(node, from);
      if target == ByAddress && node !in Members(from) {
        NotInOrder(node);
      }
      ghost var ws := Weights(addr.order);
      at := TakeOut(node, weight, from);
      assert target == ByAddress && node !in old(Members(from)) ==>
        addr.order == old(addr.order) && Weights(addr.order) == ws;
      PutIn(node, height, to, target);
      LinkedAtFrom(node, target, if height < MAX_LEVELS then height else MAX_LEVELS);
      forall k
        ensures List(k).heights.Keys == old(List(k).heights.Keys) - {node} + if k == target then {node} else {}
      {
        assert k != from ==> node !in old(List(k).heights.Keys);
      }
    }

    lemma OnlyIn(node: Node, from: Kind)
      requires AllValid() && Apart()
      requires node in Members(from) || (node !in AllNodes() && node.prev == NO_LINKS)
      ensures Members(from) == List(from).heights.Keys
      ensures forall k {:trigger List(k)} :: k != from ==> node !in List(k).heights.Keys
    {
      hide AllValid, Apart, AllNodes, List;
      SplitOff(node, from);
    }

    lemma NotInOrder(node: Node)
      requires AllValid() && node !in List(ByAddress).heights.Keys
      ensures node !in addr.order
    {
      assert Fine(ByAddress);
      addr.ListedIffInHeights(node);
    }

    // ----- Agreement of the lists -----

    ghost predicate AddrAgrees()
      reads this, addr, ranges
    {
      |ranges| == |free| == |addr.order| && forall i :: 0 <= i < |ranges| ==> ranges[i].addrNode == addr.order[i]
    }

    ghost predicate AllDescribed()
      reads this, ranges, SizeNodes(ranges), AddrNodes(ranges)
    {
      |ranges| == |free| && forall i :: 0 <= i < |ranges| ==> ranges[i].Describes(free[i])
    }

    ghost function SizeLists(): Sizes
      reads AllLists()
    {
      Sizes(unaligned2M.heights.Keys, aligned2M.heights.Keys, aligned2MBig.heights.Keys)
    }

    lemma SizeListsAre(c: Class)
      ensures SizeLists().At(c) == Members(BySize(c)) == SizeList(c).heights.Keys
    {
    }

    /** `pending`, if any, is in no size list yet. */
    ghost predicate Waiting(pending: MemoryRange?)
      reads this, AllLists(), SizeNodes(ranges)
    {
      pending != null ==> pending in ranges && pending.sizeNode !in AllNodes() && pending.sizeNode.prev == NO_LINKS
    }

    /** The lists are sound and agree with the records. */
    ghost predicate Wired(pending: MemoryRange?)
      reads this, AllLists(), AllNodes(), ranges, SizeNodes(ranges), AddrNodes(ranges)
      ensures Wired(pending) ==>
                && AllValid() && Apart() && AddrAgrees() && AllDescribed()
                && SizeLists().Agree(reading, ranges, free, pending) && Waiting(pending)
      ensures Wired(pending) ==> |ranges| == |free| == |addr.order|
    {
      && AllValid() && Apart() && AddrAgrees() && AllDescribed()
      && SizeLists().Agree(reading, ranges, free, pending) && Waiting(pending)
    }

    /** What keeps the nodes of different records apart. */
    lemma NodesDiffer(i: nat, j: nat, pending: MemoryRange?)
      requires Wired(pending) && i < |ranges| && j < |ranges| && i != j
      ensures ranges[i] != ranges[j]
      ensures ranges[i].sizeNode != ranges[j].sizeNode && ranges[i].addrNode != ranges[j].addrNode
      ensures ranges[j].addrNode != ranges[i].sizeNode
    {
      hide *;
      RecordNodes(i, pending);
      RecordNodes(j, pending);
      AddrDistinct(i, j);
    }

    lemma AddrDistinct(i: nat, j: nat)
      requires AllValid() && AddrAgrees() && i < |ranges| && j < |ranges| && i != j
      ensures ranges[i].addrNode != ranges[j].addrNode
    {
      assert Fine(ByAddress);
      addr.LinkedGives();
      SkipLevels.ShapeGives(addr.sentinel, addr.order, addr.heights);
    }

    lemma ListedIn(n: Node)
      requires AllValid() && n in addr.order
      ensures n in Members(ByAddress)
    {
      assert Fine(ByAddress);
      addr.ListedIffInHeights(n);
    }

    /** A node is in one list only. */
    lemma OneList(n: Node, k: Kind, l: Kind)
      requires Apart() && n in Members(k) && k != l
      ensures n !in Members(l) && n in AllNodes()
    {
      OwnedInAll(k);
      OwnedInAll(l);
    }

    lemma RecordNodes(i: nat, pending: MemoryRange?)
      requires Wired(pending) && i < |ranges|
      ensures ranges[i].Describes(free[i])
      ensures ranges[i].sizeNode.payload == ranges[i] && ranges[i].addrNode.payload == ranges[i]
      ensures ranges[i].addrNode == addr.order[i] && ranges[i].addrNode in Members(ByAddress)
      ensures ranges[i] != pending ==> ranges[i].sizeNode in Members(BySize(ClassOf(reading, free[i])))
      ensures ranges[i].sizeNode !in Members(ByAddress) && ranges[i].sizeNode != ranges[i].addrNode
    {
      hide AllValid, Apart, Members, AllNodes, SkipList.Valid;
      ListedIn(ranges[i].addrNode);
      InAllNodes(ByAddress);
      SizeListsAre(ClassOf(reading, free[i]));
      if ranges[i] != pending {
        OneList(ranges[i].sizeNode, BySize(ClassOf(reading, free[i])), ByAddress);
      }
    }

    lemma InAllNodes(k: Kind)
      ensures Members(k) <= AllNodes()
    {
      OwnedInAll(k);
    }

    // ----- Changing a range -----

    function MemoryRangeToSentinel(range: MemoryRange): SkipList
      reads range
    {
      if HugeRemainder(reading, range.begin) != 0 then unaligned2M
      else if range.pages >= PAGES_PER_HUGEPAGE then aligned2MBig
      else aligned2M
    }

    lemma SentinelOfClass(range: MemoryRange, a: Range)
      requires range.begin == a.begin * PAGE_SIZE && range.pages == a.pages
      ensures MemoryRangeToSentinel(range) == SizeList(ClassOf(reading, a)) == List(BySize(ClassOf(reading, a)))
      ensures MemoryRangeToSentinel(range) ==
              if Unaligned(reading, a) then unaligned2M else if a.pages >= 512 then aligned2MBig else aligned2M
    {
      ClassMeans(reading, a);
    }

    lemma SizeNodeIs(i: nat, pending: MemoryRange?)
      requires Wired(pending) && i < |ranges|
      ensures var node := ranges[i].sizeNode;
              if ranges[i] == pending then node !in AllNodes() && node.prev == NO_LINKS
              else node in Members(BySize(ClassOf(reading, free[i])))
    {
      SizeListsAre(ClassOf(reading, free[i]));
    }

    lemma DescribesGives(i: nat)
      requires AllDescribed() && i < |ranges|
      ensures i < |free| && ranges[i].begin == free[i].begin * PAGE_SIZE && ranges[i].pages == free[i].pages
    {
    }

    /** The nodes and records of the ranges other than `i` are other objects. */
    lemma OthersApart(i: nat, pending: MemoryRange?)
      requires Wired(pending) && i < |ranges|
      ensures forall j {:trigger ranges[j]} :: 0 <= j < |ranges| && j != i ==>
                && ranges[j] != ranges[i]
                && ranges[j].sizeNode != ranges[i].sizeNode && ranges[j].addrNode != ranges[i].addrNode
                && ranges[j].addrNode != ranges[i].sizeNode && ranges[j].sizeNode != ranges[i].addrNode
    {
      forall j | 0 <= j < |ranges| && j != i
        ensures
          && ranges[j] != ranges[i]
          && ranges[j].sizeNode != ranges[i].sizeNode && ranges[j].addrNode != ranges[i].addrNode
          && ranges[j].addrNode != ranges[i].sizeNode && ranges[j].sizeNode != ranges[i].addrNode
      {
        hide *;
        NodesDiffer(i, j, pending);
        NodesDiffer(j, i, pending);
      }
    }

    /** The node is in the list, linked on its lowest `height` levels. */
    ghost predicate LinkedAt(node: Node, k: Kind, height: nat)
      reads List(k)
    {
      node in List(k).heights && List(k).heights[node] == height
    }

    lemma LinkedAtFrom(node: Node, k: Kind, height: nat)
      requires node in List(k).heights && List(k).heights[node] == height
      ensures LinkedAt(node, k, height)
    {
    }

    lemma HeightWithin(draws: seq<bool>)
      ensures 1 <= HeightOf(draws, MAX_LEVELS) <= MAX_LEVELS
    {
    }

    /** The code of SetMemoryRangePages, before the books are brought up to date. */
    method Resize(range: MemoryRange, pages: SizeT, draws: seq<bool>, ghost a: Range, ghost from: Kind)
      requires AllValid() && Apart()
      requires range.sizeNode in Members(from) || (range.sizeNode !in AllNodes() && range.sizeNode.prev == NO_LINKS)
      requires range.begin == a.begin * PAGE_SIZE && a.pages == pages && from != ByAddress
      modifies range`pages, range.sizeNode`weight, range.sizeNode`next, range.sizeNode`prev
      modifies AllLists()`order, AllLists()`heights, AllNodes()`next, AllNodes()`prev
      ensures AllValid() && Apart() && range.pages == range.sizeNode.weight == pages
      ensures AllNodes() <= old(AllNodes()) + {range.sizeNode}
      ensures addr.order == old(addr.order)
      ensures LinkedAt(range.sizeNode, BySize(ClassOf(reading, a)), HeightOf(draws, MAX_LEVELS))
      ensures forall c :: SizeLists().At(c) == old(SizeLists()).At(c) - {range.sizeNode} +
                if c == ClassOf(reading, a) then {range.sizeNode} else {}
    {
      hide *;
      ghost var sizes := SizeLists();
      forall c ensures sizes.At(c) == List(BySize(c)).heights.Keys { SizeListsAre(c); SizeListOf(c); }
      range.pages := pages;
      assert AllNodes() == old(AllNodes());
      assert Apart();
      assert AllValid();
      SentinelOfClass(range, a);
      SevenLevels();
      MembersAre();
      HeightWithin(draws);
      ghost var at := Relink(range.sizeNode, pages, HeightOf(draws, MAX_LEVELS), MemoryRangeToSentinel(range), from,
                             BySize(ClassOf(reading, a)));
      forall c
        ensures SizeLists().At(c) == old(SizeLists()).At(c) - {range.sizeNode} +
                  if c == ClassOf(reading, a) then {range.sizeNode} else {}
      {
        SizeListsAre(c);
        SizeListOf(c);
        assert sizes.At(c) == old(List(BySize(c)).heights.Keys);
        assert List(BySize(c)).heights.Keys == sizes.At(c) - {range.sizeNode} +
                 if BySize(c) == BySize(ClassOf(reading, a)) then {range.sizeNode} else {};
      }
    }

    lemma SizeListOf(c: Class)
      ensures List(BySize(c)) == SizeList(c)
    {
    }

    lemma MembersAre()
      ensures forall k {:trigger Members(k)} {:trigger List(k)} :: Members(k) == List(k).heights.Keys
      ensures forall c: Class {:trigger SizeLists().At(c)} :: SizeLists().At(c) == List(BySize(c)).heights.Keys
    {
    }

    /** Sets the page count of range `i`, which moves it between size lists, at the height drawn. */
    method SetMemoryRangePages(range: MemoryRange, pages: SizeT, draws: seq<bool>,
                               ghost i: nat, ghost pending: MemoryRange?)
      requires Wired(pending) && i < |ranges| && ranges[i] == range && (pending == null || pending == range)
      modifies this`free, range`pages, range.sizeNode`weight, range.sizeNode`next, range.sizeNode`prev
      modifies AllLists()`order, AllLists()`heights, AllNodes()`next, AllNodes()`prev
      ensures Wired(null) && AllNodes() <= old(AllNodes()) + {range.sizeNode}
      ensures free == old(free)[i := Range(old(free)[i].begin, pages)]
      ensures LinkedAt(range.sizeNode, BySize(ClassOf(reading, Range(old(free)[i].begin, pages))),
                       HeightOf(draws, MAX_LEVELS))
    {
      hide AllValid, Apart, AllNodes, AllLists, List, SizeList, SizeLists, Sizes.Agree, Sizes.At, Members, ClassOf,
        SkipList.Valid;
      ghost var a := Range(free[i].begin, pages);
      ghost var from := if range == pending then BySize(ClassOf(reading, a)) else BySize(ClassOf(reading, free[i]));
      ghost var sizes := SizeLists();
      SizeNodeIs(i, pending);
      OthersApart(i, pending);
      DescribesGives(i);
      Resize(range, pages, draws, a, from);
      SizeLists().AgreeMoved(sizes, reading, ranges, free, i, a, pending);
      label resized:
      free := free[i := a];
      assert AllNodes() == old@resized(AllNodes());
      assert AllValid();
      assert Apart();
      assert AddrAgrees();
      assert AllDescribed();
      assert SizeLists().Agree(reading, ranges, free, null);
    }

    // ----- A new range -----

    /** The code of SetMemoryRangeBegin, before the books are brought up to date. */
    method Enter(range: MemoryRange, begin: SizeT, draws: seq<bool>)
      requires AllValid() && Apart()
      requires range.addrNode !in AllNodes() && range.addrNode.prev == NO_LINKS
      modifies range`begin, range.addrNode`weight, range.addrNode`next, range.addrNode`prev
      modifies AllLists()`order, AllLists()`heights, AllNodes()`next, AllNodes()`prev
      ensures AllValid() && Apart() && range.begin == range.addrNode.weight == begin
      ensures AllNodes() <= old(AllNodes()) + {range.addrNode}
      ensures var k := Rank(old(Weights(addr.order)), begin);
              addr.order == old(addr.order)[..k] + [range.addrNode] + old(addr.order)[k..]
      ensures SizeLists() == old(SizeLists())
      ensures LinkedAt(range.addrNode, ByAddress, HeightOf(draws, MAX_LEVELS))
    {
      hide *;
      range.begin := begin;
      assert AllNodes() == old(AllNodes());
      assert Apart();
      assert AllValid();
      SevenLevels();
      MembersAre();
      AllNodesAre();
      InAllNodes(ByAddress);
      AllMembers();
      ghost var sizes := SizeLists();
      forall c ensures sizes.At(c) == List(BySize(c)).heights.Keys { SizeListsAre(c); SizeListOf(c); }
      HeightWithin(draws);
      ghost var at := Relink(range.addrNode, begin, HeightOf(draws, MAX_LEVELS), addr, ByAddress, ByAddress);
      forall c
        ensures SizeLists().At(c) == sizes.At(c)
      {
        SizeListsAre(c);
        SizeListOf(c);
        assert range.addrNode !in old(List(BySize(c)).heights.Keys);
      }
      SizeLists().Same(sizes);
    }

    lemma AllMembers()
      ensures forall k {:trigger List(k)} :: List(k).heights.Keys <= AllNodes()
    {
      forall k ensures List(k).heights.Keys <= AllNodes() { OwnedInAll(k); }
    }

    lemma {:induction false} RankIsPlace(b: nat)
      requires AddrAgrees() && AllDescribed()
      ensures Rank(Weights(addr.order), b * PAGE_SIZE) == Place(free, b)
    {
      var k, ws := Place(free, b), Weights(addr.order);
      forall j | 0 <= j < |ws|
        ensures ws[j] == free[j].begin * PAGE_SIZE
      {
        assert ranges[j].Describes(free[j]);
      }
      RankUnique(ws, b * PAGE_SIZE, k);
    }

    /** A record that is not in use yet and lies in page `b`. */
    ghost predicate Unused(range: MemoryRange, b: nat)
      reads *
    {
      && range !in ranges && range.sizeNode != range.addrNode
      && range.sizeNode !in AllNodes() && range.sizeNode.prev == NO_LINKS && range.sizeNode.weight == 0
      && range.addrNode !in AllNodes() && range.addrNode.prev == NO_LINKS
      && range.sizeNode.payload == range && range.addrNode.payload == range
      && range.pages == 0 && range.address == b * PAGE_SIZE
      && range.sizeNode.address == range.address + RECORD_SIZE
      && range.addrNode.address == range.address + RECORD_SIZE + NODE_SIZE
    }

    /** The books after `range` has entered at index `k`. */
    lemma EnteredBooks(was: seq<MemoryRange>, wasFree: seq<Range>, wasOrder: seq<Node>, k: nat, range: MemoryRange,
                       a: Range)
      requires |was| == |wasFree| == |wasOrder| && k <= |was|
      requires forall j :: 0 <= j < |was| ==> was[j].Describes(wasFree[j]) && was[j].addrNode == wasOrder[j]
      requires range.Describes(a)
      requires ranges == was[..k] + [range] + was[k..] && free == InsertAt(wasFree, k, a)
      requires addr.order == wasOrder[..k] + [range.addrNode] + wasOrder[k..]
      ensures AddrAgrees() && AllDescribed()
    {
      hide MemoryRange.Describes;
      forall j | 0 <= j < |ranges|
        ensures ranges[j].Describes(free[j]) && ranges[j].addrNode == addr.order[j]
      {
        if j < k {
          assert ranges[j] == was[j] && free[j] == wasFree[j] && addr.order[j] == wasOrder[j];
        } else if j > k {
          var i := j - 1;
          assert ranges[j] == was[i] && free[j] == wasFree[i] && addr.order[j] == wasOrder[i];
        }
      }
    }

    lemma WiredFrom(pending: MemoryRange?)
      requires AllValid() && Apart() && AddrAgrees() && AllDescribed()
      requires SizeLists().Agree(reading, ranges, free, pending) && Waiting(pending)
      ensures Wired(pending)
    {
    }

    /** Sets the begin of a new range, which puts it in its place in the address list. */
    method SetMemoryRangeBegin(range: MemoryRange, begin: SizeT, draws: seq<bool>, ghost b: nat)
      requires Wired(null) && Unused(range, b) && begin == b * PAGE_SIZE
      modifies this`ranges, this`free, range`begin, range.addrNode`weight, range.addrNode`next, range.addrNode`prev
      modifies AllLists()`order, AllLists()`heights, AllNodes()`next, AllNodes()`prev
      ensures Wired(range) && AllNodes() <= old(AllNodes()) + {range.addrNode}
      ensures var k := Place(old(free), b);
              && free == InsertAt(old(free), k, Range(b, 0))
              && ranges == old(ranges)[..k] + [range] + old(ranges)[k..]
      ensures LinkedAt(range.addrNode, ByAddress, HeightOf(draws, MAX_LEVELS))
    {
      hide AllValid, Apart, AllNodes, AllLists, SizeLists, Sizes.Agree, Rank, Weights, Place, Wired, InsertAt;
      ghost var k := Place(free, b);
      ghost var was, wasFree, wasOrder := ranges, free, addr.order;
      ghost var sizes := SizeLists();
      RankIsPlace(b);
      Enter(range, begin, draws);
      sizes.AgreeEntered(reading, ranges, free, k, range, Range(b, 0));
      assert InsertAt(free, k, Range(b, 0)) == free[..k] + [Range(b, 0)] + free[k..] by {
        InsertAtIs(free, k, Range(b, 0));
      }
      label entered:
      free := InsertAt(free, k, Range(b, 0));
      ranges := ranges[..k] + [range] + ranges[k..];
      assert AllNodes() == old@entered(AllNodes());
      EnteredBooks(was, wasFree, wasOrder, k, range, Range(b, 0));
      WiredFrom(range);
    }

    lemma InsertAtIs(s: seq<Range>, k: nat, r: Range)
      requires k <= |s|
      ensures InsertAt(s, k, r) == s[..k] + [r] + s[k..]
    {
    }

    // ----- Dropping a range -----

    /** Takes `node` out of list `from`. */
    method Drop(node: Node, ghost from: Kind) returns (ghost at: nat)
      requires AllValid() && Apart() && node in Members(from)
      modifies AllLists()`order, AllLists()`heights, AllNodes()`next, AllNodes()`prev
      ensures AllValid() && Apart() && AllNodes() <= old(AllNodes())
      ensures List(from).heights == old(List(from).heights) - {node}
      ensures && at < |old(List(from).order)| && old(List(from).order)[at] == node
              && List(from).order == old(List(from).order)[..at] + old(List(from).order)[at + 1..]
      ensures forall k {:trigger List(k)} :: k != from ==>
                List(k).order == old(List(k).order) && List(k).heights == old(List(k).heights)
    {
      hide *;
      ghost var parts := Split();
      SplitOff(node, from);
      assert parts.All() == AllNodes() by { AllNodesAre(); }
      at := Remove(node, List(from));
      forall k | k != from
        ensures List(k).Valid() && List(k).heights == old(List(k).heights) && List(k).order == old(List(k).order)
      {
        assert List(k) != List(from);
        assert List(k).heights == old(List(k).heights);
        assert old(List(k).Valid());
      }
      Rejoin(parts, node);
    }

    /** The code of MemoryRangeRemove, before the books are brought up to date. */
    method Discard(range: MemoryRange, ghost c: Class) returns (ghost at: nat)
      requires AllValid() && Apart()
      requires range.addrNode in Members(ByAddress) && range.sizeNode in Members(BySize(c))
      modifies AllLists()`order, AllLists()`heights, AllNodes()`next, AllNodes()`prev
      ensures AllValid() && Apart() && AllNodes() <= old(AllNodes())
      ensures && at < |old(addr.order)| && old(addr.order)[at] == range.addrNode
              && addr.order == old(addr.order)[..at] + old(addr.order)[at + 1..]
      ensures forall d :: SizeLists().At(d) == old(SizeLists()).At(d) - {range.sizeNode}
    {
      hide *;
      MembersAre();
      AllNodesAre();
      ghost var sizes := SizeLists();
      forall d
        ensures sizes.At(d) == List(BySize(d)).heights.Keys && (d != c ==> range.sizeNode !in sizes.At(d))
      {
        SizeListsAre(d);
        SizeListOf(d);
        if d != c { OneList(range.sizeNode, BySize(c), BySize(d)); }
      }
      at := Drop(range.addrNode, ByAddress);
      MembersAre();
      assert List(BySize(c)).heights == old(List(BySize(c)).heights);
      ghost var at' := Drop(range.sizeNode, BySize(c));
      forall d
        ensures SizeLists().At(d) == sizes.At(d) - {range.sizeNode}
      {
        SizeListsAre(d);
        SizeListOf(d);
        assert List(BySize(d)).heights.Keys == old(List(BySize(d)).heights.Keys) - {range.sizeNode};
      }
    }

    /** Takes range `i` out of both its lists. */
    method MemoryRangeRemove(range: MemoryRange, ghost i: nat)
      requires Wired(null) && i < |ranges| && ranges[i] == range
      modifies this`ranges, this`free
      modifies AllLists()`order, AllLists()`heights, AllNodes()`next, AllNodes()`prev
      ensures Wired(null) && AllNodes() <= old(AllNodes())
      ensures free == RemoveAt(old(free), i) && ranges == old(ranges)[..i] + old(ranges)[i + 1..]
    {
      hide AllValid, Apart, AllNodes, AllLists, SizeLists, Sizes.Agree, Wired, Members, RemoveAt;
      ghost var was, wasFree, wasOrder := ranges, free, addr.order;
      ghost var sizes := SizeLists();
      RecordNodes(i, null);
      OthersApart(i, null);
      ghost var at := Discard(range, ClassOf(reading, free[i]));
      assert at == i by { assert ranges[at].addrNode == range.addrNode; }
      SizeLists().AgreeLeft(sizes, reading, ranges, free, i);
      RemoveAtIs(free, i);
      label discarded:
      free := RemoveAt(free, i);
      ranges := ranges[..i] + ranges[i + 1..];
      assert AllNodes() == old@discarded(AllNodes());
      LeftBooks(was, wasFree, wasOrder, i);
      WiredFrom(null);
    }

    lemma RemoveAtIs(s: seq<Range>, k: nat)
      requires k < |s|
      ensures RemoveAt(s, k) == s[..k] + s[k + 1..]
    {
    }

    /** The books after the range at index `k` has left. */
    lemma LeftBooks(was: seq<MemoryRange>, wasFree: seq<Range>, wasOrder: seq<Node>, k: nat)
      requires |was| == |wasFree| == |wasOrder| && k < |was|
      requires forall j :: 0 <= j < |was| ==> was[j].Describes(wasFree[j]) && was[j].addrNode == wasOrder[j]
      requires ranges == was[..k] + was[k + 1..] && free == RemoveAt(wasFree, k)
      requires addr.order == wasOrder[..k] + wasOrder[k + 1..]
      ensures AddrAgrees() && AllDescribed()
    {
      hide MemoryRange.Describes;
      forall j | 0 <= j < |ranges|
        ensures ranges[j].Describes(free[j]) && ranges[j].addrNode == addr.order[j]
      {
        var i := if j < k then j else j + 1;
        assert ranges[j] == was[i] && free[j] == wasFree[i] && addr.order[j] == wasOrder[i];
      }
    }

    // ----- Merging -----

    /** What the address list shows before and after range `i`. */
    lemma Neighbours(i: nat)
      requires Wired(null) && i < |ranges|
      ensures SkipListPayload(SkipListPrev(ranges[i].addrNode)) == if i > 0 then ranges[i - 1] else null
      ensures SkipListPayload(SkipListNext(ranges[i].addrNode)) == if i + 1 < |ranges| then ranges[i + 1] else null
    {
      hide AllValid, Apart, AddrAgrees, AllDescribed, Wired, SkipList.Valid, SkipList.Linked, Members,
        MemoryRange.Describes, AllNodes, SizeLists, Sizes.Agree, Sizes.At, Waiting, ClassOf, SkipList.Shape, Rank,
          Weights;
      ValidList(ByAddress);
      AllNodesAre();
      addr.LinkedGives();
      addr.GaplessLinks(i);
      RecordNodes(i, null);
      if i > 0 { RecordNodes(i - 1, null); }
      if i + 1 < |ranges| { RecordNodes(i + 1, null); }
    }

    lemma ValidList(k: Kind)
      requires AllValid()
      ensures List(k).Valid() && List(k).Linked()
    {
      assert Fine(k);
    }

    /** The tests of the code, wrap-around included, are those of the abstract merge. */
    lemma MergeTests(i: nat)
      requires AllDescribed() && InBounds(free) && 0 < i < |ranges|
      ensures |free| == |ranges|
      ensures var prev, range := ranges[i - 1], ranges[i];
              var merges := (prev.begin + prev.pages * PAGE_SIZE) % (SIZE_MAX + 1) == range.begin
                         && (HugeRemainder(reading, prev.begin) == 0 || HugeRemainder(reading, range.begin) != 0);
              && (merges <==> Merges(reading, free, i))
              && (merges ==> prev.pages + range.pages <= SIZE_MAX)
      ensures MergeWithPrev(reading, free, i) ==
              if Merges(reading, free, i) then free[..i - 1] + [Joined(free[i - 1], free[i])] + free[i + 1..] else free
    {
      DescribesGives(i);
      DescribesGives(i - 1);
    }

    lemma FirstStays()
      requires |free| > 0
      ensures !Merges(reading, free, 0) && MergeWithPrev(reading, free, 0) == free
    {
    }

    lemma SizeNodeInAll(i: nat)
      requires Wired(null) && i < |ranges|
      ensures ranges[i].sizeNode in AllNodes()
    {
      SizeNodeIs(i, null);
      InAllNodes(BySize(ClassOf(reading, free[i])));
    }

    lemma MergedFree(i: nat)
      requires AllDescribed() && 0 < i < |ranges|
      ensures |free| == |ranges|
      ensures RemoveAt(free[i - 1 := Range(free[i - 1].begin, ranges[i - 1].pages + ranges[i].pages)], i) ==
              free[..i - 1] + [Joined(free[i - 1], free[i])] + free[i + 1..]
    {
      DescribesGives(i);
      DescribesGives(i - 1);
      hide AllDescribed, MemoryRange.Describes;
    }

    method JoinWithPrev(prev: MemoryRange, range: MemoryRange, ghost i: nat)
      requires Wired(null) && 0 < i < |ranges| && ranges[i] == range && ranges[i - 1] == prev
      requires prev.pages + range.pages <= SIZE_MAX
      modifies this`ranges, this`free, prev`pages
      modifies AllLists()`order, AllLists()`heights, AllNodes()`weight, AllNodes()`next, AllNodes()`prev
      ensures Wired(null) && AllNodes() <= old(AllNodes())
      ensures free == old(free)[..i - 1] + [Joined(old(free)[i - 1], old(free)[i])] + old(free)[i + 1..]
      ensures ranges == old(ranges)[..i] + old(ranges)[i + 1..]
    {
      hide *;
      SizeMaxIs();
      SizeNodeInAll(i - 1);
      WiredGives();
      MergedFree(i);
      var draws: seq<bool> := *;
      SetMemoryRangePages(prev, prev.pages + range.pages, draws, i - 1, null);
      MemoryRangeRemove(range, i);
    }

    lemma WiredGives()
      requires Wired(null)
      ensures AllDescribed() && |ranges| == |free|
    {
    }

    /** Joins range `i` to the range before it, if they touch and alignment allows. */
    method TryMergeMemoryRangesWithPrev(range: MemoryRange?, ghost i: nat)
      requires Wired(null) && InBounds(free)
      requires range != null ==> i < |ranges| && ranges[i] == range
      modifies this`ranges, this`free, ranges`pages
      modifies AllLists()`order, AllLists()`heights, AllNodes()`weight, AllNodes()`next, AllNodes()`prev
      ensures Wired(null) && AllNodes() <= old(AllNodes())
      ensures free == if range == null then old(free) else MergeWithPrev(reading, old(free), i)
      ensures ranges ==
        if range != null && Merges(reading, old(free), i) then old(ranges)[..i] + old(ranges)[i + 1..] else old(ranges)
    {
      hide *;
      if range == null { return; }
      Neighbours(i);
      WiredGives();
      if i == 0 { FirstStays(); }
      var payload: object? := SkipListPayload(SkipListPrev(range.addrNode));
      if payload == null { return; }
      var prev := payload as MemoryRange?;
      SizeMaxIs();
      MergeTests(i);
      if (prev.begin + prev.pages * PAGE_SIZE) % (SIZE_MAX + 1) != range.begin { return; }

      var prevAligned := HugeRemainder(reading, prev.begin) == 0;
      var rangeAligned := HugeRemainder(reading, range.begin) == 0;
      if !prevAligned && rangeAligned { return; }

      JoinWithPrev(prev, range, i);
    }

    // ----- Inserting -----

    /** A zeroed record with its two nodes, at the start of the memory it is to describe. */
    method CreateRange(begin: SizeT, ghost b: nat) returns (range: MemoryRange)
      requires Wired(null) && begin == b * PAGE_SIZE
      ensures fresh(range) && fresh(range.sizeNode) && fresh(range.addrNode)
      ensures Wired(null) && Unused(range, b) && AllNodes() == old(AllNodes())
    {
      hide AllValid, Apart, AddrAgrees, Sizes.Agree, SkipList.Valid, SkipList.Linked, Parts.Apart, Wired, Fine,
        Waiting, ClassOf;
      FourValid();
      ghost var sizes, parts := SizeLists(), Split();
      ApartGives();
      range := new MemoryRange(begin);
      assert addr.Valid() && unaligned2M.Valid() && aligned2M.Valid() && aligned2MBig.Valid();
      AllValidFrom();
      assert Split() == parts;
      ApartFrom();
      assert SizeLists() == sizes;
      assert AddrAgrees();
      assert AllDescribed();
      WiredFrom(null);
    }

    lemma ApartGives()
      requires Apart()
      ensures Split().Apart() && addr !in {unaligned2M, aligned2M, aligned2MBig}
      ensures unaligned2M !in {aligned2M, aligned2MBig} && aligned2M != aligned2MBig
    {
      assert List(ByAddress) != List(BySize(Unaligned2M));
      assert List(ByAddress) != List(BySize(Aligned2M));
      assert List(ByAddress) != List(BySize(Aligned2MBig));
      assert List(BySize(Unaligned2M)) != List(BySize(Aligned2M));
      assert List(BySize(Unaligned2M)) != List(BySize(Aligned2MBig));
      assert List(BySize(Aligned2M)) != List(BySize(Aligned2MBig));
    }

    lemma ApartFrom()
      requires Split().Apart() && addr !in {unaligned2M, aligned2M, aligned2MBig}
      requires unaligned2M !in {aligned2M, aligned2MBig} && aligned2M != aligned2MBig
      ensures Apart()
    {
    }

    lemma FourValid()
      requires AllValid()
      ensures addr.Valid() && unaligned2M.Valid() && aligned2M.Valid() && aligned2MBig.Valid()
    {
      assert Fine(ByAddress) && Fine(BySize(Unaligned2M)) && Fine(BySize(Aligned2M)) && Fine(BySize(Aligned2MBig));
    }

    lemma AllValidFrom()
      requires addr.Valid() && unaligned2M.Valid() && aligned2M.Valid() && aligned2MBig.Valid()
      ensures AllValid()
    {
    }

    lemma EnteredWithPages(s: seq<Range>, k: nat, a: Range)
      requires k <= |s|
      ensures |InsertAt(s, k, Range(a.begin, 0))| == |s| + 1
      ensures InsertAt(s, k, Range(a.begin, 0))[k] == Range(a.begin, 0)
      ensures InsertAt(s, k, Range(a.begin, 0))[k := a] == InsertAt(s, k, a)
    {
    }

    /** The first half of NewMemoryRange: the range enters both its lists. */
    method Enlist(begin: SizeT, pages: SizeT, ghost b: nat) returns (range: MemoryRange)
      requires Wired(null) && begin == b * PAGE_SIZE
      modifies this`ranges, this`free
      modifies AllLists()`order, AllLists()`heights, AllNodes()`next, AllNodes()`prev
      ensures Wired(null) && fresh(AllNodes() - old(AllNodes())) && fresh(range)
      ensures var k := Place(old(free), b);
              && ranges == old(ranges)[..k] + [range] + old(ranges)[k..]
              && free == InsertAt(old(free), k, Range(b, pages))
    {
      hide *;
      ghost var k := Place(free, b);
      EnteredWithPages(free, k, Range(b, pages));
      range := CreateRange(begin, b);
      var addrDraws: seq<bool>, sizeDraws: seq<bool> := *, *;
      SetMemoryRangeBegin(range, begin, addrDraws, b);
      SetMemoryRangePages(range, pages, sizeDraws, k, range);
    }

    /** Offers the range after `range` for merging. */
    method MergeNext(range: MemoryRange, ghost k: nat)
      requires Wired(null) && k < |ranges| && ranges[k] == range && InBounds(free)
      modifies this`ranges, this`free, ranges`pages
      modifies AllLists()`order, AllLists()`heights, AllNodes()`weight, AllNodes()`next, AllNodes()`prev
      ensures Wired(null) && AllNodes() <= old(AllNodes())
      ensures forall j {:trigger ranges[j]} :: 0 <= j < |ranges| ==> ranges[j] in old(ranges)
      ensures k < |ranges| && ranges[k] == range
      ensures free == if k + 1 < |old(free)| then MergeWithPrev(reading, old(free), k + 1) else old(free)
    {
      hide *;
      WiredGives();
      Neighbours(k);
      var payload: object? := SkipListPayload(SkipListNext(range.addrNode));
      var next := if payload == null then null else payload as MemoryRange?;
      TryMergeMemoryRangesWithPrev(next, k + 1);
    }

    lemma BoundsAround(s: seq<Range>, k: nat)
      requires k < |s| && InBounds(s)
      ensures InBounds(if k + 1 < |s| then MergeWithPrev(reading, s, k + 1) else s)
      ensures k < |if k + 1 < |s| then MergeWithPrev(reading, s, k + 1) else s|
      ensures MergeAround(reading, s, k) ==
              MergeWithPrev(reading, if k + 1 < |s| then MergeWithPrev(reading, s, k + 1) else s, k)
      ensures InBounds(MergeAround(reading, s, k))
    {
      hide InBounds, MergeWithPrev;
      if k + 1 < |s| {
        MergedInBounds(reading, s, k + 1);
        MergedInBounds(reading, MergeWithPrev(reading, s, k + 1), k);
      } else {
        MergedInBounds(reading, s, k);
      }
    }

    /** The second half: the range after it and then the range itself are offered for merging. */
    method MergeBoth(range: MemoryRange, ghost k: nat)
      requires Wired(null) && k < |ranges| && ranges[k] == range && k < |free| && InBounds(free)
      modifies this`ranges, this`free, ranges`pages
      modifies AllLists()`order, AllLists()`heights, AllNodes()`weight, AllNodes()`next, AllNodes()`prev
      ensures Wired(null) && InBounds(free) && AllNodes() <= old(AllNodes())
      ensures forall j {:trigger ranges[j]} :: 0 <= j < |ranges| ==> ranges[j] in old(ranges)
      ensures free == MergeAround(reading, old(free), k)
    {
      hide *;
      BoundsAround(free, k);
      MergeNext(range, k);
      TryMergeMemoryRangesWithPrev(range, k);
    }

    /** Describes new free pages in their own first page and merges them with their neighbours. */
    method NewMemoryRange(begin: SizeT, pages: SizeT, ghost b: nat)
      requires Wired(null) && InBounds(free) && begin == b * PAGE_SIZE && Within(Range(b, pages))
      modifies this`ranges, this`free, ranges`pages
      modifies AllLists()`order, AllLists()`heights, AllNodes()`weight, AllNodes()`next, AllNodes()`prev
      ensures Wired(null) && InBounds(free)
      ensures forall n :: n in AllNodes() ==> n in old(AllNodes()) || fresh(n)
      ensures forall j {:trigger ranges[j]} :: 0 <= j < |ranges| ==> ranges[j] in old(ranges) || fresh(ranges[j])
      ensures free == AddRange(reading, old(free), Range(b, pages))
      ensures Free(free) == Free(old(free)) + PagesOf(Range(b, pages))
    {
      hide *;
      AddRangeIs(free, Range(b, pages));
      AddRangeAdds(reading, free, Range(b, pages));
      ghost var k := Place(free, b);
      InsertedInBounds(free, k, Range(b, pages));
      var range := Enlist(begin, pages, b);
      InsertedIsLonger(old(free), k, Range(b, pages));
      MergeBoth(range, k);
    }

    lemma InsertedIsLonger(s: seq<Range>, k: nat, r: Range)
      requires k <= |s|
      ensures k < |InsertAt(s, k, r)|
    {
    }

    lemma AddRangeIs(s: seq<Range>, a: Range)
      ensures AddRange(reading, s, a) == MergeAround(reading, InsertAt(s, Place(s, a.begin), a), Place(s, a.begin))
    {
    }

    /** Frees pages: a region that starts inside a 2 MiB frame and leaves it is entered in two
        parts.  All it asks is that the region holds no record; empty ranges may be about. */
    method InsertNewMemoryRange(begin: SizeT, pages: SizeT, ghost b: nat)
      requires Wired(null) && InBounds(free) && begin == b * PAGE_SIZE
      requires pages > 0 ==> Within(Range(b, pages)) && Unrecorded(free, Range(b, pages))
      modifies this`ranges, this`free, ranges`pages
      modifies AllLists()`order, AllLists()`heights, AllNodes()`weight, AllNodes()`next, AllNodes()`prev
      ensures Wired(null) && InBounds(free)
      ensures forall n :: n in AllNodes() ==> n in old(AllNodes()) || fresh(n)
      ensures forall j {:trigger ranges[j]} :: 0 <= j < |ranges| ==> ranges[j] in old(ranges) || fresh(ranges[j])
      ensures free == Insert(reading, old(free), b, pages)
      ensures Invariant(reading, old(free)) && Insertable(old(free), Range(b, pages)) ==> Invariant(reading, free)
      ensures Free(free) == Free(old(free)) + PagesOf(Range(b, pages))
    {
      hide *;
      InsertAdds(reading, free, b, pages);
      InsertKeepsIf(free, b, pages);
      InsertPlan(begin, pages, b);
      if pages == 0 { return; }
      var pagesToSplit := (PAGES_PER_HUGEPAGE * PAGE_SIZE - HugeRemainder(reading, begin)) / PAGE_SIZE;
      if pagesToSplit % PAGES_PER_HUGEPAGE != 0 && pagesToSplit < pages {
        NewMemoryRange(begin, pagesToSplit, b);
        NewMemoryRange(begin + pagesToSplit * PAGE_SIZE, pages - pagesToSplit, b + pagesToSplit);
      } else {
        NewMemoryRange(begin, pages, b);
      }
    }

    lemma InsertKeepsIf(s: seq<Range>, b: nat, pages: nat)
      ensures Invariant(reading, s) && Insertable(s, Range(b, pages)) ==>
        Invariant(reading, Insert(reading, s, b, pages))
    {
      hide *;
      if Invariant(reading, s) && Insertable(s, Range(b, pages)) {
        InsertKeeps(reading, s, b, pages);
      }
    }

    /** The plan InsertNewMemoryRange follows is that of the abstract Insert. */
    lemma InsertPlan(begin: SizeT, pages: SizeT, b: nat)
      requires begin == b * PAGE_SIZE && (pages > 0 ==> Within(Range(b, pages)))
      ensures PAGE_SIZE == 4096 && PAGES_PER_HUGEPAGE == 512
      ensures HugeRemainder(reading, begin) <= PAGES_PER_HUGEPAGE * PAGE_SIZE
      ensures var split := (PAGES_PER_HUGEPAGE * PAGE_SIZE - HugeRemainder(reading, begin)) / PAGE_SIZE;
              if pages == 0 then
                Insert(reading, free, b, pages) == free
              else if split % PAGES_PER_HUGEPAGE != 0 && split < pages then
                var head, tail := Range(b, split), Range(b + split, pages - split);
                && Within(head) && Within(tail) && begin + split * PAGE_SIZE <= 0xFFFF_FFFF_FFFF_FFFF
                && Insert(reading, free, b, pages) == AddRange(reading, AddRange(reading, free, head), tail)
              else
                Insert(reading, free, b, pages) == AddRange(reading, free, Range(b, pages))
    {
      hide AddRange;
      SplitMeans(reading, b);
      AlignedMeans(reading, b);
    }

    // ----- Allocating -----

    /** Every node of a size list belongs to a range of its class. */
    lemma HolderOf(c: Class, n: Node) returns (i: nat)
      requires Wired(null) && n in SizeList(c).order
      ensures i < |ranges| == |free| && ranges[i].sizeNode == n && n.payload == ranges[i]
      ensures ClassOf(reading, free[i]) == c
      ensures n.weight == free[i].pages == ranges[i].pages && ranges[i].begin == free[i].begin * PAGE_SIZE
    {
      hide AllValid, Apart, AddrAgrees, SkipList.Valid, SkipList.Linked, Members, AllNodes, ClassOf;
      ListedInSize(c, n);
      SizeListsAre(c);
      assert n in SizeNodes(ranges);
      i :| 0 <= i < |ranges| && ranges[i].sizeNode == n;
      SizeNodeIs(i, null);
      if ClassOf(reading, free[i]) != c {
        OneList(n, BySize(c), BySize(ClassOf(reading, free[i])));
      }
      assert ranges[i].Describes(free[i]);
    }

    lemma ListedInSize(c: Class, n: Node)
      requires AllValid()
      ensures n in SizeList(c).order <==> n in Members(BySize(c))
    {
      assert Fine(BySize(c));
      SizeList(c).ListedIffInHeights(n);
    }

    /** ... and every range of the class has its node there. */
    lemma NodeOf(c: Class, i: nat) returns (q: nat)
      requires Wired(null) && i < |ranges| && i < |free| && ClassOf(reading, free[i]) == c
      ensures q < |SizeList(c).order| && SizeList(c).order[q] == ranges[i].sizeNode
      ensures SizeList(c).order[q].weight == free[i].pages
    {
      hide AllValid, Apart, AddrAgrees, SkipList.Valid, SkipList.Linked, Members, AllNodes, ClassOf, SizeList;
      SizeNodeIs(i, null);
      ListedInSize(c, ranges[i].sizeNode);
      q :| 0 <= q < |SizeList(c).order| && SizeList(c).order[q] == ranges[i].sizeNode;
      assert ranges[i].Describes(free[i]);
    }

    /** The first node not lighter than the request belongs to a best fit. */
    lemma ExactChoice(c: Class, need: nat, i: nat)
      requires Wired(null) && i < |ranges| == |free|
      requires var k := Rank(Weights(SizeList(c).order), need);
               k < |SizeList(c).order| && SizeList(c).order[k] == ranges[i].sizeNode
      ensures BestFit(reading, free, c, need, i)
    {
      hide AllValid, Apart, AddrAgrees, SkipList.Valid, SkipList.Linked, Members, AllNodes, ClassOf, SizeList, Wired,
        Weights;
      var list, k := SizeList(c), Rank(Weights(SizeList(c).order), need);
      var ws := Weights(list.order);
      var i' := HolderOf(c, list.order[k]);
      SizeAscending(c);
      assert i' == i by { if i' != i { NodesDiffer(i, i', null); } }
      forall j | 0 <= j < |free| && Suits(reading, free, c, need, j)
        ensures free[i].pages <= free[j].pages
      {
        var q := NodeOf(c, j);
        assert ws[q] == free[j].pages;
        assert k <= q;
      }
    }

    lemma SizeAscending(c: Class)
      requires Wired(null)
      ensures Ascending(Weights(SizeList(c).order))
      ensures |ranges| == |free|
    {
      ValidList(BySize(c));
    }

    lemma ExactRefusal(c: Class, need: nat)
      requires Wired(null) && Rank(Weights(SizeList(c).order), need) == |SizeList(c).order|
      ensures NoneSuits(reading, free, c, need)
    {
      hide AllValid, Apart, AddrAgrees, SkipList.Valid, SkipList.Linked, Members, AllNodes, ClassOf, SizeList, Wired,
        Weights;
      SizeAscending(c);
      forall j | 0 <= j < |free| && ClassOf(reading, free[j]) == c
        ensures free[j].pages < need
      {
        var q := NodeOf(c, j);
        assert Weights(SizeList(c).order)[q] == free[j].pages;
      }
    }

    /** No range of class `c` that is long enough for the request is closer to it than range `i`. */
    ghost predicate NearFit(s: seq<Range>, c: Class, need: nat, i: nat) {
      i < |s| && ClassOf(reading, s[i]) == c &&
      forall j :: 0 <= j < |s| && Suits(reading, s, c, need, j) ==>
        Distance(s[i].pages, need) <= Distance(s[j].pages, need)
    }

    /** No range of class `c` is closer to the request than range `i`. */
    ghost predicate NearestOf(s: seq<Range>, c: Class, need: nat, i: nat) {
      i < |s| && ClassOf(reading, s[i]) == c &&
      forall j :: 0 <= j < |s| && ClassOf(reading, s[j]) == c ==>
        Distance(s[i].pages, need) <= Distance(s[j].pages, need)
    }

    /** A search of size list `c` that is not exact gets as far as the first node not lighter than
        the request. */
    ghost predicate Reachable(c: Class, need: nat)
      reads SizeList(c), SizeList(c).order
    {
      var list := SizeList(c);
      SkipLevels.HeightsOf(list.order, list.heights) &&
      Reaches(Weights(list.order), SkipLevels.HeightSeq(list.order, list.heights), need)
    }

    ghost predicate NoneOf(s: seq<Range>, c: Class) {
      forall j :: 0 <= j < |s| ==> ClassOf(reading, s[j]) != c
    }

    lemma NearChoice(c: Class, need: SizeT, p: nat)
      requires Wired(null)
      requires SkipLevels.HeightsOf(SizeList(c).order, SizeList(c).heights)
      requires p == Closest(Weights(SizeList(c).order),
                            SkipLevels.HeightSeq(SizeList(c).order, SizeList(c).heights), need)
      ensures p == 0 ==> NoneOf(free, c)
      ensures p > 0 ==> forall i :: 0 <= i < |ranges| && ranges[i].sizeNode == SizeList(c).order[p - 1] ==>
        NearFit(free, c, need, i)
    {
      hide AllValid, Apart, AddrAgrees, SkipList.Valid, SkipList.Linked, Members, AllNodes, ClassOf, SizeList, Wired,
        Weights, Closest;
      var list := SizeList(c);
      var ws := Weights(list.order);
      SizeAscending(c);
      ClosestBeatsHeavier(ws, SkipLevels.HeightSeq(list.order, list.heights), need);
      forall j | 0 <= j < |free| && ClassOf(reading, free[j]) == c
        ensures p > 0 && (free[j].pages >= need ==> Distance(ws[p - 1], need) <= Distance(free[j].pages, need))
      {
        var q := NodeOf(c, j);
        assert ws[q] == free[j].pages;
      }
      if p > 0 {
        var i' := HolderOf(c, list.order[p - 1]);
        forall i | 0 <= i < |ranges| && ranges[i].sizeNode == list.order[p - 1]
          ensures NearFit(free, c, need, i)
        {
          assert i' == i by { if i' != i { NodesDiffer(i, i', null); } }
          assert ws[p - 1] == free[i].pages;
        }
      }
    }

    /** The range returned is the closest of its whole class exactly if the promise of SkipSearch
        holds of the list. */
    lemma NearestExactly(c: Class, need: SizeT, p: nat, i: nat)
      requires Wired(null) && SkipLevels.HeightsOf(SizeList(c).order, SizeList(c).heights)
      requires p == Closest(Weights(SizeList(c).order),
                            SkipLevels.HeightSeq(SizeList(c).order, SizeList(c).heights), need)
      requires p > 0 && i < |ranges| && ranges[i].sizeNode == SizeList(c).order[p - 1]
      ensures NearestOf(free, c, need, i) <==>
              NearestConsidered(Weights(SizeList(c).order),
                                SkipLevels.HeightSeq(SizeList(c).order, SizeList(c).heights), need)
    {
      hide AllValid, Apart, AddrAgrees, SkipList.Valid, SkipList.Linked, Members, AllNodes, ClassOf, SizeList, Wired,
        Weights, Closest, Rank, Distance, ClosestOverall, NearestOf, NearestConsidered;
      SizeAscending(c);
      ClosestOverallExactly(Weights(SizeList(c).order),
                            SkipLevels.HeightSeq(SizeList(c).order, SizeList(c).heights), need);
      NearestInList(c, need, p, i);
    }

    lemma NearestInList(c: Class, need: nat, p: nat, i: nat)
      requires Wired(null) && 0 < p <= |SizeList(c).order|
      requires i < |ranges| && ranges[i].sizeNode == SizeList(c).order[p - 1]
      ensures NearestOf(free, c, need, i) <==> ClosestOverall(Weights(SizeList(c).order), need, p)
    {
      hide AllValid, Apart, AddrAgrees, SkipList.Valid, SkipList.Linked, Members, AllNodes, ClassOf, SizeList, Wired,
        Weights, Distance;
      var order := SizeList(c).order;
      var ws := Weights(order);
      WiredGives();
      var i' := HolderOf(c, order[p - 1]);
      assert i' == i by { if i' != i { NodesDiffer(i, i', null); } }
      assert ws[p - 1] == free[i].pages;
      if ClosestOverall(ws, need, p) {
        forall j | 0 <= j < |free| && ClassOf(reading, free[j]) == c
          ensures Distance(free[i].pages, need) <= Distance(free[j].pages, need)
        {
          var q := NodeOf(c, j);
          assert ws[q] == free[j].pages;
        }
      }
      if NearestOf(free, c, need, i) {
        forall q | 0 <= q < |ws|
          ensures Distance(ws[p - 1], need) <= Distance(ws[q], need)
        {
          var j := HolderOf(c, order[q]);
          assert ws[q] == free[j].pages;
        }
      }
    }

    /** A search that is not exact fails only if the class is empty.  The range it returns is no
        farther from the request than any that is long enough, and the closest of all exactly if
        the search considers the last lighter node where that matters. */
    lemma ClosestChoice(c: Class, need: SizeT, p: nat)
      requires Wired(null)
      requires SkipLevels.HeightsOf(SizeList(c).order, SizeList(c).heights)
      requires p == Closest(Weights(SizeList(c).order),
                            SkipLevels.HeightSeq(SizeList(c).order, SizeList(c).heights), need)
      ensures p == 0 ==> NoneOf(free, c)
      ensures p > 0 ==> forall i :: 0 <= i < |ranges| && ranges[i].sizeNode == SizeList(c).order[p - 1] ==>
        && NearFit(free, c, need, i)
        && (NearestOf(free, c, need, i) <==>
            NearestConsidered(Weights(SizeList(c).order),
                              SkipLevels.HeightSeq(SizeList(c).order, SizeList(c).heights), need))
    {
      hide *;
      NearChoice(c, need, p);
      if p > 0 {
        forall i | 0 <= i < |ranges| && ranges[i].sizeNode == SizeList(c).order[p - 1]
          ensures NearestOf(free, c, need, i) <==>
                  NearestConsidered(Weights(SizeList(c).order),
                                    SkipLevels.HeightSeq(SizeList(c).order, SizeList(c).heights), need)
        {
          NearestExactly(c, need, p, i);
        }
      }
    }

    /** What is returned is as long as the request exactly if the search reaches that far. */
    lemma SufficesExactly(c: Class, need: SizeT, p: nat)
      requires Wired(null) && SkipLevels.HeightsOf(SizeList(c).order, SizeList(c).heights)
      requires p == Closest(Weights(SizeList(c).order),
                            SkipLevels.HeightSeq(SizeList(c).order, SizeList(c).heights), need)
      ensures p > 0 <==> SizeList(c).order != []
      ensures (p > 0 && SizeList(c).order[p - 1].weight >= need) <==> Reachable(c, need)
    {
      hide AllValid, Apart, AddrAgrees, SkipList.Valid, SkipList.Linked, Members, AllNodes, ClassOf, SizeList, Wired,
        Weights, Closest, Reaches;
      var list := SizeList(c);
      var ws, hs := Weights(list.order), SkipLevels.HeightSeq(list.order, list.heights);
      SizeAscending(c);
      if list.order == [] {
        NothingReached(ws, hs, need);
        ClosestBeatsHeavier(ws, hs, need);
      } else {
        ClosestSuffices(ws, hs, need);
      }
    }

    lemma NothingReached(ws: seq<nat>, hs: seq<nat>, need: nat)
      requires ws == [] && |hs| == |ws|
      ensures !Reaches(ws, hs, need)
    {
    }

    /** What SkipListBest answers for list `c`, and which range that is. */
    lemma Decide(c: Class, need: SizeT, exact: bool) returns (best: Node?, i: nat)
      requires Wired(null)
      ensures SizeList(c).Valid() && SkipLevels.HeightsOf(SizeList(c).order, SizeList(c).heights)
      ensures var list := SizeList(c);
              var p := Closest(Weights(list.order), SkipLevels.HeightSeq(list.order, list.heights), need);
              var k := Rank(Weights(list.order), need);
              best == if exact then (if k < |list.order| then list.order[k] else null)
                      else if p > 0 then list.order[p - 1] else null
      ensures best == null ==> if exact then NoneSuits(reading, free, c, need) else NoneOf(free, c)
      ensures best != null ==>
        && i < |ranges| == |free| && ranges[i].sizeNode == best && best.payload == ranges[i]
        && best.weight == ranges[i].pages == free[i].pages && ranges[i].begin == free[i].begin * PAGE_SIZE
        && ClassOf(reading, free[i]) == c
        && (exact ==> BestFit(reading, free, c, need, i)) && (!exact ==> NearFit(free, c, need, i))
      ensures !exact ==>
        (best != null <==> SizeList(c).order != []) && (best != null && best.weight >= need <==> Reachable(c, need))
    {
      hide *;
      ValidList(BySize(c));
      SizeListOf(c);
      var list := SizeList(c);
      list.LinkedGives();
      i, best := 0, null;
      if exact {
        var k := Rank(Weights(list.order), need);
        if k < |list.order| {
          best := list.order[k];
          i := HolderOf(c, best);
          ExactChoice(c, need, i);
        } else {
          ExactRefusal(c, need);
        }
      } else {
        var p := Closest(Weights(list.order), SkipLevels.HeightSeq(list.order, list.heights), need);
        ClosestChoice(c, need, p);
        SufficesExactly(c, need, p);
        if p > 0 {
          best := list.order[p - 1];
          i := HolderOf(c, best);
        }
      }
    }

    /** Searches list `c`, whose range `i` is the answer. */
    method Choose(list: SkipList, need: SizeT, exact: bool, ghost c: Class) returns (best: Node?, ghost i: nat)
      requires Wired(null) && list == SizeList(c)
      ensures Wired(null) && AllNodes() == old(AllNodes())
      ensures best == null ==> if exact then NoneSuits(reading, free, c, need) else NoneOf(free, c)
      ensures best != null ==>
        && i < |ranges| == |free| && ranges[i].sizeNode == best && best.payload == ranges[i]
        && best.weight == ranges[i].pages == free[i].pages && ranges[i].begin == free[i].begin * PAGE_SIZE
        && ClassOf(reading, free[i]) == c
        && (exact ==> BestFit(reading, free, c, need, i)) && (!exact ==> NearFit(free, c, need, i))
      ensures !exact ==>
        && (best != null <==> old(SizeList(c).order) != [])
        && (best != null && best.weight >= need <==> old(Reachable(c, need)))
      ensures forall d :: SizeList(d).order == old(SizeList(d).order) && Reachable(d, need) == old(Reachable(d, need))
    {
      hide AllValid, Apart, AddrAgrees, Sizes.Agree, SkipList.Valid, SkipList.Linked, Parts.Apart, Wired, Rank,
        Weights, Closest, BestFit, NearFit, NoneOf, Reachable, SkipList.Shape, NoneSuits, ClassOf, Fine, Waiting,
          Parts.All, SkipLevels.HeightSeq;
      FourValid();
      ghost var sizes, parts := SizeLists(), Split();
      ApartGives();
      WiredGives();
      ghost var answer;
      answer, i := Decide(c, need, exact);
      best := list.Best(need, exact);
      assert addr.Valid() && unaligned2M.Valid() && aligned2M.Valid() && aligned2MBig.Valid();
      AllValidFrom();
      assert Split() == parts;
      ApartFrom();
      assert SizeLists() == sizes;
      assert AddrAgrees();
      assert AllDescribed();
      WiredFrom(null);
    }

    lemma TakeIs(s: seq<Range>, i: nat, need: nat)
      requires i < |s|
      ensures Take(s, i, need) ==
              if s[i].pages == need then RemoveAt(s, i)
              else s[i := Range(s[i].begin, s[i].pages - Taken(s, i, need).pages)]
      ensures Taken(s, i, need).pages <= s[i].pages
    {
    }

    /** Takes the last `got` pages of range `i`, which goes when it is used up by the request. */
    method CutFrom(range: MemoryRange, need: SizeT, got: SizeT, ghost i: nat)
      requires Wired(null) && i < |ranges| == |free| && ranges[i] == range
      requires got == Taken(free, i, need).pages && range.pages == free[i].pages
      modifies this`ranges, this`free, range`pages
      modifies AllLists()`order, AllLists()`heights, AllNodes()`weight, AllNodes()`next, AllNodes()`prev
      ensures Wired(null) && AllNodes() <= old(AllNodes())
      ensures forall j {:trigger ranges[j]} :: 0 <= j < |ranges| ==> ranges[j] in old(ranges)
      ensures free == Take(old(free), i, need)
    {
      hide *;
      SizeNodeInAll(i);
      TakeIs(free, i, need);
      if range.pages == need {
        MemoryRangeRemove(range, i);
      } else {
        var draws: seq<bool> := *;
        SetMemoryRangePages(range, range.pages - got, draws, i, null);
      }
    }

    /** What a request to one size list does, and what it reports: range `i` has served it. */
    ghost predicate ServedFrom(s: seq<Range>, s': seq<Range>, c: Class, need: nat, exact: bool,
                               ok: bool, pages: nat, begin: nat, i: nat) {
      if ok then
        && i < |s| && ClassOf(reading, s[i]) == c
        && s' == Take(s, i, need)
        && begin == Taken(s, i, need).begin * PAGE_SIZE && pages == Taken(s, i, need).pages
        && (exact ==> BestFit(reading, s, c, need, i)) && (!exact ==> NearFit(s, c, need, i))
      else
        && pages == 0 && s' == s
        && (exact ==> NoneSuits(reading, s, c, need)) && (!exact ==> NoneOf(s, c))
    }

    lemma ServedNone(s: seq<Range>, c: Class, need: nat, exact: bool, i: nat)
      requires if exact then NoneSuits(reading, s, c, need) else NoneOf(s, c)
      ensures ServedFrom(s, s, c, need, exact, false, 0, 0, i)
    {
    }

    lemma ServedSome(s: seq<Range>, c: Class, need: nat, exact: bool, i: nat)
      requires i < |s| && ClassOf(reading, s[i]) == c
      requires (exact ==> BestFit(reading, s, c, need, i)) && (!exact ==> NearFit(s, c, need, i))
      ensures var pages := if s[i].pages < need then s[i].pages else need;
              && pages == Taken(s, i, need).pages
              && ServedFrom(s, Take(s, i, need), c, need, exact, true, pages,
                            s[i].begin * PAGE_SIZE + (s[i].pages - pages) * PAGE_SIZE, i)
    {
    }

    /** Serves a request from one size list. */
    method AllocatePagesFromList(list: SkipList, pagesNeed: SizeT, exact: bool, ghost c: Class)
      returns (ok: bool, pages: SizeT, begin: nat, ghost i: nat)
      requires Wired(null) && list == SizeList(c) && pagesNeed > 0
      modifies this`ranges, this`free, ranges`pages
      modifies AllLists()`order, AllLists()`heights, AllNodes()`weight, AllNodes()`next, AllNodes()`prev
      ensures Wired(null) && AllNodes() <= old(AllNodes())
      ensures forall j {:trigger ranges[j]} :: 0 <= j < |ranges| ==> ranges[j] in old(ranges)
      ensures ServedFrom(old(free), free, c, pagesNeed, exact, ok, pages, begin, i)
      ensures !exact ==> (ok <==> old(SizeList(c).order) != [])
      ensures !exact ==> (ok && pages == pagesNeed <==> old(Reachable(c, pagesNeed)))
      ensures !ok ==> forall d ::
        SizeList(d).order == old(SizeList(d).order) && Reachable(d, pagesNeed) == old(Reachable(d, pagesNeed))
    {
      hide *;
      var best;
      best, i := Choose(list, pagesNeed, exact, c);
      if best == null {
        ServedNone(free, c, pagesNeed, exact, i);
        return false, 0, 0, i;
      }
      ServedSome(free, c, pagesNeed, exact, i);
      pages := if best.weight < pagesNeed then best.weight else pagesNeed;
      var payload: object? := best.payload;
      var range := payload as MemoryRange?;
      begin := range.begin + (best.weight - pages) * PAGE_SIZE;
      CutFrom(range, pagesNeed, pages, i);
      ok := true;
    }

    /** What one allocation does to the free ranges, and what it reports. */
    ghost predicate Served(s: seq<Range>, s': seq<Range>, need: nat, exact: bool, ok: bool, pages: nat, begin: nat,
                           i: nat) {
      if ok then
        && i < |s| && s' == Take(s, i, need)
        && begin == Taken(s, i, need).begin * PAGE_SIZE && pages == Taken(s, i, need).pages
        && (exact ==> Picks(reading, s, Searched(need), need, i)) && (!exact ==> PicksNear(s, Searched(need), need, i))
      else
        && pages == 0 && s' == s
        && (exact ==> Refuses(reading, s, Searched(need), need)) && (!exact ==> AllEmpty(s, Searched(need)))
    }

    /** A request that is not exact is served by range `i`: one close to it in the first class
        that holds anything. */
    ghost predicate PicksNear(s: seq<Range>, classes: seq<Class>, need: nat, i: nat) {
      exists c :: 0 <= c < |classes| && NearIn(s, classes, need, c, i)
    }

    ghost predicate NearIn(s: seq<Range>, classes: seq<Class>, need: nat, c: nat, i: nat)
      requires c < |classes|
    {
      NearFit(s, classes[c], need, i) && forall d :: 0 <= d < c ==> NoneOf(s, classes[d])
    }

    ghost predicate AllEmpty(s: seq<Range>, classes: seq<Class>) {
      forall c :: c in classes ==> NoneOf(s, c)
    }

    /** The classes searched before `c` have nothing for the request. */
    ghost predicate Reached(s: seq<Range>, need: nat, exact: bool, c: Class) {
      && (c != Aligned2MBig ==> need < PAGES_PER_HUGEPAGE)
      && (exact && c != Unaligned2M && need < PAGES_PER_HUGEPAGE ==> NoneSuits(reading, s, Unaligned2M, need))
      && (exact && c == Aligned2MBig && need < PAGES_PER_HUGEPAGE ==> NoneSuits(reading, s, Aligned2M, need))
      && (!exact && c != Unaligned2M && need < PAGES_PER_HUGEPAGE ==> NoneOf(s, Unaligned2M))
      && (!exact && c == Aligned2MBig && need < PAGES_PER_HUGEPAGE ==> NoneOf(s, Aligned2M))
    }

    lemma NearFrom(s: seq<Range>, need: nat, c: Class, i: nat)
      requires NearFit(s, c, need, i) && Reached(s, need, false, c)
      ensures PicksNear(s, Searched(need), need, i)
    {
      hide NearFit, NoneOf;
      var d := if c == Unaligned2M || need >= PAGES_PER_HUGEPAGE then 0 else if c == Aligned2M then 1 else 2;
      assert NearIn(s, Searched(need), need, d, i);
    }

    /** The range that serves an exact request is a tightest fit of the first class that has one. */
    lemma PickedFrom(s: seq<Range>, need: nat, c: Class, i: nat)
      requires BestFit(reading, s, c, need, i) && Reached(s, need, true, c)
      ensures Picks(reading, s, Searched(need), need, i) && Serves(reading, s, need)
    {
      hide BestFit, NoneSuits;
      var d := if c == Unaligned2M || need >= PAGES_PER_HUGEPAGE then 0 else if c == Aligned2M then 1 else 2;
      assert PicksFrom(reading, s, Searched(need), need, d, i);
    }

    /** The search goes on to the next class, or ends, ... */
    lemma NotServedYet(s: seq<Range>, s': seq<Range>, c: Class, need: nat, exact: bool, pages: nat, begin: nat, i: nat)
      requires ServedFrom(s, s', c, need, exact, false, pages, begin, i) && Reached(s, need, exact, c)
      ensures s' == s && pages == 0
      ensures c == Unaligned2M ==> Reached(s, need, exact, Aligned2M)
      ensures c == Aligned2M ==> Reached(s, need, exact, Aligned2MBig)
      ensures c == Aligned2MBig ==> Served(s, s', need, exact, false, pages, begin, i)
      ensures c == Aligned2MBig && exact ==> !Serves(reading, s, need)
      ensures c == Aligned2MBig ==> RefusedByKind(s, need, exact)
    {
      hide RefusedByKind;
      if c == Aligned2MBig && exact {
        ServedOrRefused(reading, s, Searched(need), need);
      }
      if c == Aligned2MBig {
        ServedKind(s, s', need, exact, false, pages, begin, i);
      }
    }

    /** ... unless the class has served it. */
    lemma ServedNow(s: seq<Range>, s': seq<Range>, c: Class, need: nat, exact: bool, pages: nat, begin: nat, i: nat)
      requires ServedFrom(s, s', c, need, exact, true, pages, begin, i) && Reached(s, need, exact, c)
      ensures Served(s, s', need, exact, true, pages, begin, i) && (exact ==> Serves(reading, s, need))
      ensures i < |s| && ServedByKind(s, need, exact, i)
      ensures pages == Min(s[i].pages, need) && begin == (s[i].begin + s[i].pages - pages) * PAGE_SIZE
    {
      hide Reached, BestFit, NearFit, Picks, PicksNear, Serves, Take, ServedByKind;
      if exact {
        PickedFrom(s, need, c, i);
      } else {
        NearFrom(s, need, c, i);
      }
      ServedKind(s, s', need, exact, true, pages, begin, i);
    }

    lemma FirstReached(s: seq<Range>, need: nat, exact: bool)
      ensures Reached(s, need, exact, if need < PAGES_PER_HUGEPAGE then Unaligned2M else Aligned2MBig)
      ensures unaligned2M == SizeList(Unaligned2M) && aligned2M == SizeList(Aligned2M)
      ensures aligned2MBig == SizeList(Aligned2MBig)
    {
    }

    /** An allocation takes exactly the reported pages out of the free set, and leaves the free
        ranges well formed exactly when the request was met in full. */
    lemma ServedKeeps(s: seq<Range>, s': seq<Range>, need: nat, exact: bool, ok: bool, pages: nat, begin: nat, i: nat)
      requires Invariant(reading, s) && need > 0 && Served(s, s', need, exact, ok, pages, begin, i)
      ensures Invariant(reading, s') <==> !ok || pages == need
      ensures exact && ok ==> pages == need
      ensures ok ==> PagesOf(Range(begin / PAGE_SIZE, pages)) <= Free(s)
      ensures ok ==> Free(s') == Free(s) - PagesOf(Range(begin / PAGE_SIZE, pages))
    {
      hide Invariant, Free, Take;
      if ok {
        InvariantSeparates(reading, s);
        TakeKeepsExactly(reading, s, i, need);
        TakeMoves(s, i, need);
        assert Taken(s, i, need) == Range(begin / PAGE_SIZE, pages);
        if exact {
          PickedSuits(reading, s, Searched(need), need, i);
        }
      }
    }

    /** Whether a request that is not exact is met in full, from the lists as they are before the
        call: the first searched list that holds anything decides. */
    ghost predicate MetInFull(need: nat)
      reads AllLists(), unaligned2M.order, aligned2M.order, aligned2MBig.order
    {
      if need < PAGES_PER_HUGEPAGE && unaligned2M.order != [] then Reachable(Unaligned2M, need)
      else if need < PAGES_PER_HUGEPAGE && aligned2M.order != [] then Reachable(Aligned2M, need)
      else Reachable(Aligned2MBig, need)
    }

    lemma MetInFullIs(need: nat)
      ensures MetInFull(need) <==>
        if need < PAGES_PER_HUGEPAGE && SizeList(Unaligned2M).order != [] then Reachable(Unaligned2M, need)
        else if need < PAGES_PER_HUGEPAGE && SizeList(Aligned2M).order != [] then Reachable(Aligned2M, need)
        else Reachable(Aligned2MBig, need)
    {
      hide Reachable;
    }

    /** Which range serves a request, by alignment and length alone.  Below 512 pages the unaligned
        ranges come first, then the aligned ones of fewer than 512 pages, then the other aligned
        ones; from 512 pages on only these.  An exact request takes a tightest of the first kind
        that has one long enough; another takes from the first kind that has any. */
    ghost predicate ServedByKind(s: seq<Range>, need: nat, exact: bool, i: nat) {
      i < |s| && (exact ==> need <= s[i].pages) &&
      if need < 512 && exists j :: 0 <= j < |s| && Unaligned(reading, s[j]) && (exact ==> need <= s[j].pages) then
        Unaligned(reading, s[i]) &&
        forall j :: 0 <= j < |s| && Unaligned(reading, s[j]) && need <= s[j].pages ==> Nearer(s[i], s[j], need, exact)
      else if need < 512 &&
        exists j :: 0 <= j < |s| && !Unaligned(reading, s[j]) && s[j].pages < 512 && (exact ==> need <= s[j].pages)
      then
        !Unaligned(reading, s[i]) && s[i].pages < 512 &&
        forall j :: 0 <= j < |s| && !Unaligned(reading, s[j]) && s[j].pages < 512 && need <= s[j].pages ==>
          Nearer(s[i], s[j], need, exact)
      else
        !Unaligned(reading, s[i]) && s[i].pages >= 512 &&
        forall j :: 0 <= j < |s| && !Unaligned(reading, s[j]) && s[j].pages >= 512 && need <= s[j].pages ==>
          Nearer(s[i], s[j], need, exact)
    }

    /** `a` is no longer than `b`, or, if the request is not exact, no farther from it. */
    predicate Nearer(a: Range, b: Range, need: nat, exact: bool) {
      if exact then a.pages <= b.pages
      else (if a.pages > need then a.pages - need else need - a.pages) <= b.pages - need
    }

    /** When a request fails: no range, from 512 pages on no aligned one of 512 pages, is long
        enough, or there, if it is not exact. */
    ghost predicate RefusedByKind(s: seq<Range>, need: nat, exact: bool) {
      forall j :: 0 <= j < |s| ==> OutOfReach(s[j], need, exact)
    }

    predicate OutOfReach(r: Range, need: nat, exact: bool) {
      (need >= 512 && (Unaligned(reading, r) || r.pages < 512)) || (exact && r.pages < need)
    }

    lemma FitByKind(s: seq<Range>, need: nat, exact: bool, c: Class, i: nat)
      requires if exact then BestFit(reading, s, c, need, i) else NearFit(s, c, need, i)
      ensures i < |s| && ClassOf(reading, s[i]) == c && (exact ==> need <= s[i].pages)
      ensures forall j :: 0 <= j < |s| && ClassOf(reading, s[j]) == c && need <= s[j].pages ==>
                Nearer(s[i], s[j], need, exact)
    {
      hide ClassOf;
      forall j | 0 <= j < |s| && ClassOf(reading, s[j]) == c && need <= s[j].pages
        ensures Nearer(s[i], s[j], need, exact)
      {
        assert Suits(reading, s, c, need, j);
      }
    }

    lemma NoneByKind(s: seq<Range>, need: nat, exact: bool, c: Class)
      requires if exact then NoneSuits(reading, s, c, need) else NoneOf(s, c)
      ensures Useless(s, need, exact, c)
    {
      hide ClassOf;
      forall j | 0 <= j < |s| && ClassOf(reading, s[j]) == c
        ensures exact && s[j].pages < need
      {
        assert exact ==> !Suits(reading, s, c, need, j);
      }
    }

    lemma ClassesMean(s: seq<Range>)
      ensures forall j {:trigger s[j]} :: 0 <= j < |s| ==>
                && (ClassOf(reading, s[j]) == Unaligned2M <==> Unaligned(reading, s[j]))
                && (ClassOf(reading, s[j]) == Aligned2M <==> !Unaligned(reading, s[j]) && s[j].pages < 512)
                && (ClassOf(reading, s[j]) == Aligned2MBig <==> !Unaligned(reading, s[j]) && s[j].pages >= 512)
    {
      forall j | 0 <= j < |s|
        ensures ClassOf(reading, s[j]) == Unaligned2M <==> Unaligned(reading, s[j])
        ensures ClassOf(reading, s[j]) == Aligned2M <==> !Unaligned(reading, s[j]) && s[j].pages < 512
        ensures ClassOf(reading, s[j]) == Aligned2MBig <==> !Unaligned(reading, s[j]) && s[j].pages >= 512
      {
        ClassMeans(reading, s[j]);
      }
    }

    /** The ranges of class `c` are all too short for an exact request, or there are none. */
    ghost predicate Useless(s: seq<Range>, need: nat, exact: bool, c: Class) {
      forall j :: 0 <= j < |s| && ClassOf(reading, s[j]) == c ==> exact && s[j].pages < need
    }

    lemma KindServes(s: seq<Range>, need: nat, exact: bool, i: nat, c: Class)
      requires i < |s| && ClassOf(reading, s[i]) == c && (exact ==> need <= s[i].pages)
      requires forall j :: 0 <= j < |s| && ClassOf(reading, s[j]) == c && need <= s[j].pages ==>
                 Nearer(s[i], s[j], need, exact)
      requires c != Aligned2MBig ==> need < 512
      requires c != Unaligned2M && need < 512 ==> Useless(s, need, exact, Unaligned2M)
      requires c == Aligned2MBig && need < 512 ==> Useless(s, need, exact, Aligned2M)
      ensures ServedByKind(s, need, exact, i)
    {
      hide ClassOf, Nearer, Unaligned;
      ClassesMean(s);
      assert Unaligned(reading, s[i]) || !Unaligned(reading, s[i]);
    }

    lemma ServesKind(s: seq<Range>, need: nat, exact: bool, i: nat)
      requires if exact then Picks(reading, s, Searched(need), need, i) else PicksNear(s, Searched(need), need, i)
      ensures ServedByKind(s, need, exact, i)
    {
      hide ClassOf, BestFit, NearFit, NoneSuits, NoneOf, Nearer, Unaligned, ServedByKind;
      var classes, c := Searched(need), 0;
      if exact {
        c :| 0 <= c < |classes| && PicksFrom(reading, s, classes, need, c, i);
      } else {
        c :| 0 <= c < |classes| && NearIn(s, classes, need, c, i);
      }
      FitByKind(s, need, exact, classes[c], i);
      forall d | 0 <= d < c ensures Useless(s, need, exact, classes[d]) {
        NoneByKind(s, need, exact, classes[d]);
      }
      assert need < 512 && c > 0 ==> classes[0] == Unaligned2M;
      assert need < 512 && c > 1 ==> classes[1] == Aligned2M;
      KindServes(s, need, exact, i, classes[c]);
    }

    lemma RefusesKind(s: seq<Range>, need: nat, exact: bool)
      requires if exact then Refuses(reading, s, Searched(need), need) else AllEmpty(s, Searched(need))
      ensures RefusedByKind(s, need, exact)
    {
      hide ClassOf, NoneSuits, NoneOf, Unaligned;
      ClassesMean(s);
      forall c | c in Searched(need) ensures Useless(s, need, exact, c) {
        NoneByKind(s, need, exact, c);
      }
      forall j | 0 <= j < |s|
        ensures OutOfReach(s[j], need, exact)
      {
        var c := ClassOf(reading, s[j]);
        if need < 512 || c == Aligned2MBig {
          assert c in Searched(need);
          assert Useless(s, need, exact, c);
        }
      }
    }

    lemma ServedKind(s: seq<Range>, s': seq<Range>, need: nat, exact: bool, ok: bool, pages: nat, begin: nat, i: nat)
      requires Served(s, s', need, exact, ok, pages, begin, i)
      ensures if ok then ServedByKind(s, need, exact, i) else RefusedByKind(s, need, exact)
    {
      hide Picks, PicksNear, Refuses, AllEmpty, ServedByKind, RefusedByKind, Take, Taken;
      if ok {
        ServesKind(s, need, exact, i);
      } else {
        RefusesKind(s, need, exact);
      }
    }

    /** Serves a request: exact ones in full or not at all, from the first list that can; others
        from the first list that holds anything, possibly in part. */
    method AllocatePages(pagesNeed: SizeT, exact: bool) returns (ok: bool, pages: SizeT, begin: nat, ghost i: nat)
      requires Wired(null) && pagesNeed > 0
      modifies this`ranges, this`free, ranges`pages
      modifies AllLists()`order, AllLists()`heights, AllNodes()`weight, AllNodes()`next, AllNodes()`prev
      ensures Wired(null) && AllNodes() <= old(AllNodes())
      ensures forall j {:trigger ranges[j]} :: 0 <= j < |ranges| ==> ranges[j] in old(ranges)
      ensures Served(old(free), free, pagesNeed, exact, ok, pages, begin, i)
      ensures exact ==> (ok <==> Serves(reading, old(free), pagesNeed))
      ensures !exact ==> (ok && pages == pagesNeed <==> old(MetInFull(pagesNeed)))
      ensures ok ==> ServedByKind(old(free), pagesNeed, exact, i)
      ensures !ok ==> RefusedByKind(old(free), pagesNeed, exact)
      ensures ok ==> i < |old(free)| && pages == Min(old(free)[i].pages, pagesNeed)
      ensures ok ==> begin == (old(free)[i].begin + old(free)[i].pages - pages) * PAGE_SIZE
    {
      hide *;
      FirstReached(free, pagesNeed, exact);
      MetInFullIs(pagesNeed);
      if pagesNeed < PAGES_PER_HUGEPAGE {
        ok, pages, begin, i := AllocatePagesFromList(unaligned2M, pagesNeed, exact, Unaligned2M);
        if ok {
          ServedNow(old(free), free, Unaligned2M, pagesNeed, exact, pages, begin, i);
          return;
        }
        NotServedYet(old(free), free, Unaligned2M, pagesNeed, exact, pages, begin, i);
        ok, pages, begin, i := AllocatePagesFromList(aligned2M, pagesNeed, exact, Aligned2M);
        if ok {
          ServedNow(old(free), free, Aligned2M, pagesNeed, exact, pages, begin, i);
          return;
        }
        NotServedYet(old(free), free, Aligned2M, pagesNeed, exact, pages, begin, i);
      }
      ok, pages, begin, i := AllocatePagesFromList(aligned2MBig, pagesNeed, exact, Aligned2MBig);
      if ok {
        ServedNow(old(free), free, Aligned2MBig, pagesNeed, exact, pages, begin, i);
      } else {
        NotServedYet(old(free), free, Aligned2MBig, pagesNeed, exact, pages, begin, i);
      }
    }

    lemma OnePageFreed()
      ensures Insert(reading, [], 1, 1) == [Range(1, 1)] && Within(Range(1, 1)) && Unrecorded([], Range(1, 1))
    {
      SplitMeans(reading, 1);
      hide SplitPages;
      AddRangeExactly(reading, [], Range(1, 1));
    }

    lemma TwoPagesAsked(s': seq<Range>, ok: bool, pages: nat, begin: nat, i: nat)
      requires Served([Range(1, 1)], s', 2, false, ok, pages, begin, i)
      ensures ok && pages == 1 && begin == PAGE_SIZE && i == 0 && s' == [Range(1, 0)]
      ensures Holds(Taken([Range(1, 1)], 0, 2), s'[0].begin) && !Invariant(reading, s')
    {
      var s := [Range(1, 1)];
      assert ClassOf(reading, s[0]) != Aligned2MBig;
      assert ClassOf(reading, s[0]) in Searched(2) && !NoneOf(s, ClassOf(reading, s[0]));
    }

    /** One page is freed and two are asked for, not exactly: the page is handed out, and its
        record stays linked in it. */
    method HandOutRecord() returns (begin: nat)
      requires Wired(null) && free == []
      modifies this`ranges, this`free, ranges`pages
      modifies AllLists()`order, AllLists()`heights, AllNodes()`weight, AllNodes()`next, AllNodes()`prev
      ensures Wired(null) && free == [Range(1, 0)] && begin == PAGE_SIZE
      ensures |ranges| == 1 && ranges[0].address == begin && !Invariant(reading, free)
    {
      hide *;
      OnePageFreed();
      NothingOutOfBounds();
      var at: SizeT := 4096;
      PageSizeIs();
      InsertNewMemoryRange(at, 1, 1);
      var ok, pages;
      ghost var i;
      ok, pages, begin, i := AllocatePages(2, false);
      TwoPagesAsked(free, ok, pages, begin, i);
      RecordAt(0);
    }

    lemma PageSizeIs()
      ensures PAGE_SIZE == 4096
    {
    }

    lemma NothingOutOfBounds()
      ensures InBounds([])
    {
    }

    lemma RecordAt(i: nat)
      requires Wired(null) && i < |free|
      ensures |ranges| == |free| && ranges[i].address == free[i].begin * PAGE_SIZE
    {
      RecordNodes(i, null);
    }

    /** An allocation leaves the ranges in bounds, met in full or not. */
    lemma ServedInBounds(s: seq<Range>, s': seq<Range>, need: nat, exact: bool, ok: bool, pages: nat, begin: nat,
                         i: nat)
      requires InBounds(s) && Served(s, s', need, exact, ok, pages, begin, i)
      ensures InBounds(s')
    {
      hide Picks, PicksNear, Refuses, AllEmpty;
    }

    // ----- What the lists and records promise -----

    lemma SizeListsNamed()
      ensures unaligned2M == SizeList(Unaligned2M) && aligned2M == SizeList(Aligned2M)
      ensures aligned2MBig == SizeList(Aligned2MBig)
    {
    }

    /** Each range is in the address list at its own place only, and in the one size list that
        its alignment and page count select; its nodes weigh what they should. */
    lemma IndexAgreement(i: nat)
      requires Wired(null) && i < |ranges|
      ensures |ranges| == |free| == |addr.order|
      ensures var range := ranges[i];
              && range.addrNode.weight == range.begin == free[i].begin * PAGE_SIZE
              && range.sizeNode.weight == range.pages == free[i].pages
              && (forall k :: 0 <= k < |addr.order| ==> (addr.order[k] == range.addrNode <==> k == i))
              && (forall c :: range.sizeNode in SizeList(c).order <==> c == ClassOf(reading, free[i]))
      ensures ranges[i].sizeNode in unaligned2M.order <==> Unaligned(reading, free[i])
      ensures ranges[i].sizeNode in aligned2M.order <==> !Unaligned(reading, free[i]) && free[i].pages < 512
      ensures ranges[i].sizeNode in aligned2MBig.order <==> !Unaligned(reading, free[i]) && free[i].pages >= 512
    {
      SizeListsNamed();
      ClassMeans(reading, free[i]);
      hide AllValid, Apart, SkipList.Valid, Members, ClassOf, Wired, SizeList;
      RecordNodes(i, null);
      OthersApart(i, null);
      forall c
        ensures ranges[i].sizeNode in SizeList(c).order <==> c == ClassOf(reading, free[i])
      {
        SizeNodeIs(i, null);
        ListedInSize(c, ranges[i].sizeNode);
        if c != ClassOf(reading, free[i]) {
          OneList(ranges[i].sizeNode, BySize(ClassOf(reading, free[i])), BySize(c));
        }
      }
    }

    /** The record of a nonempty range and both its nodes lie within the first page of the range. */
    lemma RecordInFirstPage(i: nat)
      requires Wired(null) && i < |ranges| && i < |free| && free[i].pages > 0
      ensures ranges[i].address == free[i].begin * PAGE_SIZE && Holds(free[i], free[i].begin)
      ensures ranges[i].address + RECORD_SIZE <= ranges[i].sizeNode.address
      ensures ranges[i].sizeNode.address + NODE_SIZE <= ranges[i].addrNode.address
      ensures ranges[i].addrNode.address + NODE_SIZE <= (free[i].begin + 1) * PAGE_SIZE
    {
      RecordNodes(i, null);
    }

    /** A call of AllocatePages that is exact or met in full is a step of PageRuns, so what holds
        of every run holds of the code. */
    lemma ServedIsStep(s: seq<Range>, s': seq<Range>, need: nat, exact: bool, ok: bool, pages: nat, begin: nat, i: nat)
      requires Invariant(reading, s) && need > 0 && Served(s, s', need, exact, ok, pages, begin, i)
      requires exact ==> (ok <==> Serves(reading, s, need))
      ensures ok && pages == need ==>
                Step(reading, s, Allocated(need, i, exact), s') &&
                Handed(s, Allocated(need, i, exact)) == PagesOf(Range(begin / PAGE_SIZE, pages))
      ensures exact && !ok ==> Step(reading, s, Refused(need), s')
    {
      hide Invariant, Take, Free, Picks;
      if exact && !ok {
        ServedOrRefused(reading, s, Searched(need), need);
      }
    }
  }
}