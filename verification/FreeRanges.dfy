/** The page allocator seen from outside: free memory as a sequence of page ranges in address
    order, and what inserting and allocating do to it.  Addresses count pages of 4096 bytes. */
module FreeRanges {
  import opened Basics

  const PAGES_PER_HUGEPAGE: nat := 512

  /** One past the last page of the 64-bit address space. */
  const TOP: nat := 0x10_0000_0000_0000

  /** HUGEPAGE_SIZE is a product without parentheses, so the compiler reads a remainder by it
      as (x % 512) * 4096; the comments around it mean x % (512 * 4096). */
  datatype Reading = AsWritten | Parenthesised

  function HugeRemainder(m: Reading, address: nat): nat {
    match m
    case AsWritten => address % PAGES_PER_HUGEPAGE * PAGE_SIZE
    case Parenthesised => address % (PAGES_PER_HUGEPAGE * PAGE_SIZE)
  }

  predicate Aligned(m: Reading, begin: nat) {
    HugeRemainder(m, begin * PAGE_SIZE) == 0
  }

  /** As written every page counts as aligned; as meant, every 512th. */
  lemma AlignedMeans(m: Reading, begin: nat)
    ensures Aligned(m, begin) <==> m.AsWritten? || begin % PAGES_PER_HUGEPAGE == 0
    ensures HugeRemainder(m, begin * PAGE_SIZE) == if m.AsWritten? then 0 else begin % PAGES_PER_HUGEPAGE * PAGE_SIZE
  {
    var q, r := begin / PAGES_PER_HUGEPAGE, begin % PAGES_PER_HUGEPAGE;
    match m
    case AsWritten =>
      assert begin * PAGE_SIZE == 8 * begin * PAGES_PER_HUGEPAGE;
    case Parenthesised =>
      assert begin * PAGE_SIZE == q * (PAGES_PER_HUGEPAGE * PAGE_SIZE) + r * PAGE_SIZE;
  }

  datatype Range = Range(begin: nat, pages: nat) {
    function End(): nat { begin + pages }
  }

  datatype Class = Unaligned2M | Aligned2M | Aligned2MBig

  function ClassOf(m: Reading, r: Range): Class {
    if !Aligned(m, r.begin) then Unaligned2M
    else if r.pages >= PAGES_PER_HUGEPAGE then Aligned2MBig
    else Aligned2M
  }

  /** The range does not begin at a multiple of 2 MiB, as far as the macro can tell. */
  predicate Unaligned(m: Reading, r: Range) {
    m.Parenthesised? && r.begin % 512 != 0
  }

  /** What the three classes are: unaligned ranges of any length, aligned ones of fewer than 512
      pages, and aligned ones of 512 or more. */
  lemma ClassMeans(m: Reading, r: Range)
    ensures ClassOf(m, r) == Unaligned2M <==> Unaligned(m, r)
    ensures ClassOf(m, r) == Aligned2M <==> !Unaligned(m, r) && r.pages < 512
    ensures ClassOf(m, r) == Aligned2MBig <==> !Unaligned(m, r) && r.pages >= 512
  {
    AlignedMeans(m, r.begin);
  }

  // ----- Free pages -----

  predicate Holds(r: Range, p: nat) {
    r.begin <= p < r.End()
  }

  function PagesOf(r: Range): (pages: set<nat>)
    ensures forall p: nat {:trigger p in pages} {:trigger Holds(r, p)} :: p in pages <==> Holds(r, p)
  {
    set p: nat | r.begin <= p < r.End() && Holds(r, p)
  }

  function Free(s: seq<Range>): set<nat> {
    if s == [] then {} else Free(s[..|s| - 1]) + PagesOf(s[|s| - 1])
  }

  lemma {:induction false} FreeConcat(a: seq<Range>, b: seq<Range>)
    ensures Free(a + b) == Free(a) + Free(b)
  {
    if b == [] {
      assert a + b == a;
    } else {
      assert (a + b)[..|a + b| - 1] == a + b[..|b| - 1];
      FreeConcat(a, b[..|b| - 1]);
    }
  }

  lemma FreeOne(r: Range)
    ensures Free([r]) == PagesOf(r)
  {
    assert [r][..0] == [];
  }

  lemma FreeSplit(s: seq<Range>, k: nat)
    requires k < |s|
    ensures Free(s) == Free(s[..k]) + PagesOf(s[k]) + Free(s[k + 1..])
  {
    hide *;
    assert s == s[..k] + [s[k]] + s[k + 1..];
    FreeConcat(s[..k] + [s[k]], s[k + 1..]);
    FreeConcat(s[..k], [s[k]]);
    FreeOne(s[k]);
  }

  lemma {:induction false} FreeMeans(s: seq<Range>, p: nat)
    ensures p in Free(s) <==> exists i :: 0 <= i < |s| && Holds(s[i], p)
  {
    if s != [] {
      var front := s[..|s| - 1];
      FreeMeans(front, p);
      if p in Free(front) {
        var i :| 0 <= i < |front| && Holds(front[i], p);
        assert Holds(s[i], p);
      }
      if i :| 0 <= i < |s| && Holds(s[i], p) {
        if i < |s| - 1 {
          assert Holds(front[i], p);
        }
      }
    }
  }

  // ----- What every state keeps -----

  predicate Before(a: Range, b: Range) {
    a.begin < b.begin && a.End() <= b.begin
  }

  predicate InOrder(s: seq<Range>, i: nat)
    requires 0 < i < |s|
  {
    Before(s[i - 1], s[i])
  }

  ghost predicate Separated(s: seq<Range>) {
    forall i :: 0 < i < |s| ==> InOrder(s, i)
  }

  /** A range that starts inside a 2 MiB frame ends in it too. */
  predicate NoCross(m: Reading, r: Range) {
    m.Parenthesised? && r.begin % PAGES_PER_HUGEPAGE != 0 ==>
      r.begin % PAGES_PER_HUGEPAGE + r.pages <= PAGES_PER_HUGEPAGE
  }

  /** Ranges meet, if at all, on a 2 MiB boundary; as written, never. */
  predicate MeetWell(m: Reading, a: Range, b: Range) {
    a.End() == b.begin ==> m.Parenthesised? && b.begin % PAGES_PER_HUGEPAGE == 0
  }

  predicate MeetsPrev(m: Reading, s: seq<Range>, i: nat)
    requires 0 < i < |s|
  {
    MeetWell(m, s[i - 1], s[i])
  }

  predicate RangeOk(m: Reading, r: Range) {
    0 < r.begin && 0 < r.pages && r.End() <= TOP && NoCross(m, r)
  }

  ghost predicate InBounds(s: seq<Range>) {
    forall i :: 0 <= i < |s| ==> 0 < s[i].begin && s[i].End() <= TOP
  }

  /** Well formed, but for how the ranges at `a` and `b` meet their predecessors. */
  ghost predicate FormedBut(m: Reading, s: seq<Range>, a: nat, b: nat) {
    && (forall i :: 0 <= i < |s| ==> RangeOk(m, s[i]))
    && (forall i :: 0 < i < |s| ==> InOrder(s, i) && (i == a || i == b || MeetsPrev(m, s, i)))
  }

  /** Ranges in address order, disjoint, nonempty and in bounds; none that starts inside a
      frame crosses into the next; and none meet except on a boundary. */
  ghost predicate Invariant(m: Reading, s: seq<Range>) {
    FormedBut(m, s, 0, 0)
  }

  lemma {:induction false} SeparatedFar(s: seq<Range>, i: nat, j: nat)
    requires Separated(s) && i < j < |s|
    ensures Before(s[i], s[j])
    decreases j - i
  {
    if i + 1 < j {
      SeparatedFar(s, i, j - 1);
      assert InOrder(s, j);
    } else {
      assert InOrder(s, j);
    }
  }

  // ----- Inserting -----

  /** The number of ranges that begin below `b`. */
  function Place(s: seq<Range>, b: nat): (k: nat)
    ensures k <= |s|
    ensures forall j :: 0 <= j < k ==> s[j].begin < b
    ensures k < |s| ==> b <= s[k].begin
  {
    if s == [] || s[0].begin >= b then 0 else 1 + Place(s[1..], b)
  }

  function InsertAt(s: seq<Range>, k: nat, r: Range): seq<Range>
    requires k <= |s|
  {
    s[..k] + [r] + s[k..]
  }

  function RemoveAt(s: seq<Range>, k: nat): seq<Range>
    requires k < |s|
  {
    s[..k] + s[k + 1..]
  }

  function Joined(a: Range, b: Range): Range {
    Range(a.begin, a.pages + b.pages)
  }

  /** The test of TryMergeMemoryRangesWithPrev: `b` begins where `a` ends, and it is not the case
      that only `b` is aligned. */
  predicate Mergeable(m: Reading, a: Range, b: Range) {
    a.End() == b.begin && (Aligned(m, a.begin) || !Aligned(m, b.begin))
  }

  /** TryMergeMemoryRangesWithPrev on the range at index `i`. */
  predicate Merges(m: Reading, s: seq<Range>, i: nat)
    requires i < |s|
  {
    i > 0 && Mergeable(m, s[i - 1], s[i])
  }

  function MergeWithPrev(m: Reading, s: seq<Range>, i: nat): seq<Range>
    requires i < |s|
  {
    if Merges(m, s, i) then
      s[..i - 1] + [Joined(s[i - 1], s[i])] + s[i + 1..]
    else
      s
  }

  function MergeAround(m: Reading, s: seq<Range>, k: nat): seq<Range>
    requires k < |s|
  {
    MergeWithPrev(m, if k + 1 < |s| then MergeWithPrev(m, s, k + 1) else s, k)
  }

  /** NewMemoryRange: enter the range, then offer its successor and itself for merging. */
  function AddRange(m: Reading, s: seq<Range>, r: Range): seq<Range> {
    var k := Place(s, r.begin);
    MergeAround(m, InsertAt(s, k, r), k)
  }

  function SplitPages(m: Reading, begin: nat): nat {
    (PAGES_PER_HUGEPAGE * PAGE_SIZE - HugeRemainder(m, begin * PAGE_SIZE)) / PAGE_SIZE
  }

  /** InsertNewMemoryRange. */
  function Insert(m: Reading, s: seq<Range>, begin: nat, pages: nat): seq<Range> {
    var split := SplitPages(m, begin);
    if pages == 0 then s
    else if split % PAGES_PER_HUGEPAGE != 0 && split < pages then
      AddRange(m, AddRange(m, s, Range(begin, split)), Range(begin + split, pages - split))
    else
      AddRange(m, s, Range(begin, pages))
  }

  /** What a caller must respect when it frees pages. */
  ghost predicate Insertable(s: seq<Range>, r: Range) {
    0 < r.begin && r.End() <= TOP && PagesOf(r) !! Free(s)
  }

  lemma SplitMeans(m: Reading, begin: nat)
    ensures SplitPages(m, begin) ==
            if m.AsWritten? then PAGES_PER_HUGEPAGE else PAGES_PER_HUGEPAGE - begin % PAGES_PER_HUGEPAGE
  {
    AlignedMeans(m, begin);
  }

  /** Ranges on either side of an insertable one keep clear of it. */
  lemma Clear(s: seq<Range>, r: Range)
    requires Separated(s) && Insertable(s, r) && r.pages > 0
    requires forall i :: 0 <= i < |s| ==> s[i].pages > 0
    ensures var k := Place(s, r.begin);
            && (k > 0 ==> Before(s[k - 1], r))
            && (k < |s| ==> Before(r, s[k]))
  {
    var k := Place(s, r.begin);
    if k > 0 {
      FreeMeans(s, r.begin);
      assert Holds(r, r.begin);
      assert !Holds(s[k - 1], r.begin);
    }
    if k < |s| {
      FreeMeans(s, s[k].begin);
      assert Holds(s[k], s[k].begin);
      assert !Holds(r, s[k].begin);
    }
  }

  lemma FreeAround(before: seq<Range>, middle: seq<Range>, after: seq<Range>)
    ensures Free(before + middle + after) == Free(before) + Free(middle) + Free(after)
  {
    FreeConcat(before + middle, after);
    FreeConcat(before, middle);
  }

  lemma FreeInserted(s: seq<Range>, k: nat, r: Range)
    requires k <= |s|
    ensures Free(InsertAt(s, k, r)) == Free(s) + PagesOf(r)
  {
    assert s == s[..k] + s[k..];
    FreeConcat(s[..k], s[k..]);
    FreeAround(s[..k], [r], s[k..]);
    FreeOne(r);
  }

  lemma FreeJoined(a: Range, b: Range)
    requires a.End() == b.begin
    ensures Free([a, b]) == Free([Joined(a, b)])
  {
    assert [a, b] == [a] + [b];
    FreeConcat([a], [b]);
    FreeOne(a);
    FreeOne(b);
    FreeOne(Joined(a, b));
  }

  lemma FreeReplaced(before: seq<Range>, was: seq<Range>, now: seq<Range>, after: seq<Range>)
    requires Free(was) == Free(now)
    ensures Free(before + was + after) == Free(before + now + after)
  {
    hide Free;
    FreeAround(before, was, after);
    FreeAround(before, now, after);
  }

  lemma MergeGives(m: Reading, s: seq<Range>, i: nat)
    requires i < |s| && Merges(m, s, i)
    ensures i > 0 && s[i - 1].End() == s[i].begin
    ensures s == s[..i - 1] + [s[i - 1], s[i]] + s[i + 1..]
    ensures MergeWithPrev(m, s, i) == s[..i - 1] + [Joined(s[i - 1], s[i])] + s[i + 1..]
  {
    hide Aligned, Joined;
  }

  lemma Unmerged(m: Reading, s: seq<Range>, i: nat)
    requires i < |s| && !Merges(m, s, i)
    ensures MergeWithPrev(m, s, i) == s
  {
    hide Merges;
  }

  /** Merging moves no page in or out. */
  lemma FreeMerged(m: Reading, s: seq<Range>, i: nat)
    requires i < |s|
    ensures Free(MergeWithPrev(m, s, i)) == Free(s)
  {
    hide *;
    if Merges(m, s, i) {
      MergeGives(m, s, i);
      FreeJoined(s[i - 1], s[i]);
      FreeReplaced(s[..i - 1], [s[i - 1], s[i]], [Joined(s[i - 1], s[i])], s[i + 1..]);
    } else {
      Unmerged(m, s, i);
    }
  }

  lemma MergedAt(m: Reading, s: seq<Range>, i: nat)
    requires i < |s| && Merges(m, s, i)
    ensures var t := MergeWithPrev(m, s, i);
            && |t| == |s| - 1
            && (forall j :: 0 <= j < i - 1 ==> t[j] == s[j])
            && t[i - 1] == Joined(s[i - 1], s[i])
            && (forall j :: i <= j < |t| ==> t[j] == s[j + 1])
  {
  }

  lemma JoinedOk(m: Reading, a: Range, b: Range)
    requires RangeOk(m, a) && RangeOk(m, b) && a.End() == b.begin
    requires Aligned(m, a.begin) || !Aligned(m, b.begin)
    ensures RangeOk(m, Joined(a, b))
  {
    hide Aligned, HugeRemainder;
    AlignedMeans(m, a.begin);
    AlignedMeans(m, b.begin);
  }

  /** A merge attempt leaves nothing amiss at the front of its range: either the ranges are
      joined, or they meet on a boundary, or not at all. */
  lemma MergeForms(m: Reading, s: seq<Range>, i: nat, a: nat)
    requires a <= i < |s| && FormedBut(m, s, a, i)
    ensures FormedBut(m, MergeWithPrev(m, s, i), if a == i then 0 else a, 0)
  {
    var t := MergeWithPrev(m, s, i);
    if Merges(m, s, i) {
      MergedAt(m, s, i);
      JoinedOk(m, s[i - 1], s[i]);
      hide MergeWithPrev, RangeOk, Aligned;
      forall j | 0 < j < |t|
        ensures InOrder(t, j) && ((j == a && a != i) || MeetsPrev(m, t, j))
      {
        var j' := if j < i then j else j + 1;
        assert InOrder(s, j') && (j' == a || j' == i || MeetsPrev(m, s, j'));
        if j == i - 1 || j == i {
          assert InOrder(s, i);
        }
      }
    } else if i > 0 {
      AlignedMeans(m, s[i].begin);
      AlignedMeans(m, s[i - 1].begin);
      assert MeetsPrev(m, s, i);
    }
  }

  lemma InsertedAt(s: seq<Range>, k: nat, r: Range)
    requires k <= |s|
    ensures var t := InsertAt(s, k, r);
            && |t| == |s| + 1 && t[k] == r
            && (forall j :: 0 <= j < k ==> t[j] == s[j])
            && (forall j :: k < j < |t| ==> t[j] == s[j - 1])
  {
  }

  lemma EnteredAt(m: Reading, s: seq<Range>, k: nat, r: Range, j: nat)
    requires k <= |s| && 0 < j <= |s|
    requires forall i :: 0 < i < |s| ==> InOrder(s, i) && MeetsPrev(m, s, i)
    requires (k > 0 ==> Before(s[k - 1], r)) && (k < |s| ==> Before(r, s[k]))
    ensures var t := InsertAt(s, k, r);
            |t| == |s| + 1 && InOrder(t, j) && (j == k || j == k + 1 || MeetsPrev(m, t, j))
  {
    InsertedAt(s, k, r);
    hide InsertAt, MeetWell, Before;
    if j < k {
      assert InOrder(s, j) && MeetsPrev(m, s, j);
    } else if j > k + 1 {
      assert InOrder(s, j - 1) && MeetsPrev(m, s, j - 1);
    }
  }

  lemma InvariantGives(m: Reading, s: seq<Range>)
    requires Invariant(m, s)
    ensures Separated(s)
    ensures forall i :: 0 <= i < |s| ==> RangeOk(m, s[i]) && s[i].pages > 0
    ensures forall i :: 0 < i < |s| ==> InOrder(s, i) && MeetsPrev(m, s, i)
  {
    hide InOrder, MeetsPrev;
  }

  lemma FormedFrom(m: Reading, s: seq<Range>, a: nat, b: nat)
    requires forall i :: 0 <= i < |s| ==> RangeOk(m, s[i])
    requires forall i :: 0 < i < |s| ==> InOrder(s, i) && (i == a || i == b || MeetsPrev(m, s, i))
    ensures FormedBut(m, s, a, b)
  {
    hide InOrder, MeetsPrev, RangeOk;
  }

  lemma EnteredKeeps(m: Reading, s: seq<Range>, r: Range)
    requires Invariant(m, s) && Insertable(s, r) && RangeOk(m, r)
    ensures var k := Place(s, r.begin); FormedBut(m, InsertAt(s, k, r), k, k + 1)
  {
    hide *;
    InvariantGives(m, s);
    NonemptyWhenOk(m, r);
    var k := Place(s, r.begin);
    Clear(s, r);
    InsertedAt(s, k, r);
    var t := InsertAt(s, k, r);
    forall j | 0 < j < |t|
      ensures InOrder(t, j) && (j == k || j == k + 1 || MeetsPrev(m, t, j))
    {
      EnteredAt(m, s, k, r, j);
    }
    FormedFrom(m, t, k, k + 1);
  }

  lemma NonemptyWhenOk(m: Reading, r: Range)
    requires RangeOk(m, r)
    ensures r.pages > 0
  {
  }

  lemma MergedLength(m: Reading, s: seq<Range>, i: nat)
    requires i < |s|
    ensures |s| - 1 <= |MergeWithPrev(m, s, i)| <= |s|
  {
  }

  /** Offering a new range to both neighbours restores the invariant and moves no page. */
  lemma MergeAroundForms(m: Reading, s: seq<Range>, k: nat)
    requires k < |s| && FormedBut(m, s, k, k + 1)
    ensures Invariant(m, MergeAround(m, s, k))
    ensures Free(MergeAround(m, s, k)) == Free(s)
  {
    hide MergeWithPrev, Free, FormedBut;
    if k + 1 < |s| {
      var next := MergeWithPrev(m, s, k + 1);
      MergeForms(m, s, k + 1, k);
      FreeMerged(m, s, k + 1);
      MergedLength(m, s, k + 1);
      FormedButWeaker(m, next, k);
      MergeForms(m, next, k, k);
      FreeMerged(m, next, k);
    } else {
      FormedButLast(m, s, k);
      MergeForms(m, s, k, k);
      FreeMerged(m, s, k);
    }
  }

  /** Entering a range and offering it to both neighbours keeps the invariant and adds
      exactly its pages. */
  lemma AddRangeKeeps(m: Reading, s: seq<Range>, r: Range)
    requires Invariant(m, s) && Insertable(s, r) && RangeOk(m, r)
    ensures Invariant(m, AddRange(m, s, r))
    ensures Free(AddRange(m, s, r)) == Free(s) + PagesOf(r)
  {
    hide Free, FormedBut, Invariant, MergeAround, Insertable, RangeOk;
    var k := Place(s, r.begin);
    EnteredKeeps(m, s, r);
    FreeInserted(s, k, r);
    MergeAroundForms(m, InsertAt(s, k, r), k);
  }

  /** Whether a new range `r` absorbs the range that ends where it begins, ... */
  predicate JoinsPrev(m: Reading, s: seq<Range>, r: Range) {
    var k := Place(s, r.begin);
    k > 0 && Mergeable(m, s[k - 1], r)
  }

  /** ... and the one that begins where it ends. */
  predicate JoinsNext(m: Reading, s: seq<Range>, r: Range) {
    var k := Place(s, r.begin);
    k < |s| && Mergeable(m, r, s[k])
  }

  /** The ranges below this index come before `r` and are not absorbed by it; ... */
  function KeptTo(m: Reading, s: seq<Range>, r: Range): (k: nat)
    ensures k <= |s|
  {
    if JoinsPrev(m, s, r) then Place(s, r.begin) - 1 else Place(s, r.begin)
  }

  /** ... those from this index on come after it and are not. */
  function KeptFrom(m: Reading, s: seq<Range>, r: Range): (k: nat)
    ensures KeptTo(m, s, r) <= k <= |s|
  {
    if JoinsNext(m, s, r) then Place(s, r.begin) + 1 else Place(s, r.begin)
  }

  /** `r` with what it absorbs. */
  function Grown(m: Reading, s: seq<Range>, r: Range): Range {
    var k := Place(s, r.begin);
    Range(if JoinsPrev(m, s, r) then s[k - 1].begin else r.begin,
          (if JoinsPrev(m, s, r) then s[k - 1].pages else 0) + r.pages + (if JoinsNext(m, s, r) then s[k].pages else 0))
  }

  lemma Around(before: seq<Range>, r: Range, after: seq<Range>)
    ensures var s := before + [r] + after;
            && |s| == |before| + 1 + |after|
            && s[|before|] == r && s[..|before|] == before && s[|before| + 1..] == after
            && (before != [] ==> s[|before| - 1] == before[|before| - 1] && s[..|before| - 1] == before[..|before| - 1])
            && (after != [] ==> s[|before| + 1] == after[0] && s[|before| + 2..] == after[1..])
  {
  }

  lemma NextStep(m: Reading, before: seq<Range>, r: Range, after: seq<Range>)
    requires after != []
    ensures MergeWithPrev(m, before + [r] + after, |before| + 1) ==
            if Mergeable(m, r, after[0]) then before + [Joined(r, after[0])] + after[1..] else before + [r] + after
  {
    hide Mergeable, Joined;
    Around(before, r, after);
  }

  lemma PrevStep(m: Reading, before: seq<Range>, r: Range, after: seq<Range>)
    ensures MergeWithPrev(m, before + [r] + after, |before|) ==
            if before != [] && Mergeable(m, before[|before| - 1], r) then
              before[..|before| - 1] + [Joined(before[|before| - 1], r)] + after
            else
              before + [r] + after
  {
    hide Mergeable, Joined;
    Around(before, r, after);
  }

  lemma MergeAroundExactly(m: Reading, before: seq<Range>, r: Range, after: seq<Range>)
    ensures var next := after != [] && Mergeable(m, r, after[0]);
            var prev := before != [] && Mergeable(m, before[|before| - 1], r);
            var grown := if next then Joined(r, after[0]) else r;
            MergeAround(m, before + [r] + after, |before|) ==
              (if prev then before[..|before| - 1] + [Joined(before[|before| - 1], grown)] else before + [grown]) +
              (if next then after[1..] else after)
  {
    hide MergeWithPrev, Aligned;
    if after != [] {
      NextStep(m, before, r, after);
      PrevStep(m, before, Joined(r, after[0]), after[1..]);
    }
    PrevStep(m, before, r, after);
  }

  lemma GrownIs(m: Reading, s: seq<Range>, r: Range)
    ensures var k := Place(s, r.begin);
            var grown := if JoinsNext(m, s, r) then Joined(r, s[k]) else r;
            Grown(m, s, r) == if JoinsPrev(m, s, r) then Joined(s[k - 1], grown) else grown
  {
    hide Place, Mergeable;
  }

  /** A new range absorbs each of its two neighbours or neither, independently of each other, and
      all other ranges stay as they are. */
  lemma AddRangeExactly(m: Reading, s: seq<Range>, r: Range)
    ensures AddRange(m, s, r) == s[..KeptTo(m, s, r)] + [Grown(m, s, r)] + s[KeptFrom(m, s, r)..]
  {
    hide Place, Mergeable, Joined, Grown, MergeAround;
    var k := Place(s, r.begin);
    MergeAroundExactly(m, s[..k], r, s[k..]);
    GrownIs(m, s, r);
    if k < |s| {
      assert s[k..][1..] == s[k + 1..];
    }
    if k > 0 {
      assert s[..k][..k - 1] == s[..k - 1];
    }
  }

  lemma {:induction false} PlaceIs(s: seq<Range>, b: nat, k: nat)
    requires k <= |s| && (forall j :: 0 <= j < k ==> s[j].begin < b) && (k < |s| ==> b <= s[k].begin)
    ensures Place(s, b) == k
  {
    if k > 0 {
      PlaceIs(s[1..], b, k - 1);
    }
  }

  /** Entering a range adds exactly its pages, whatever the ranges it joins look like, ... */
  lemma AddRangeAdds(m: Reading, s: seq<Range>, r: Range)
    ensures Free(AddRange(m, s, r)) == Free(s) + PagesOf(r)
  {
    hide Free, PagesOf, Place, InsertAt, MergeWithPrev;
    var k := Place(s, r.begin);
    var t := InsertAt(s, k, r);
    InsertedAt(s, k, r);
    FreeInserted(s, k, r);
    if k + 1 < |t| {
      FreeMerged(m, t, k + 1);
      MergedLength(m, t, k + 1);
      FreeMerged(m, MergeWithPrev(m, t, k + 1), k);
    } else {
      FreeMerged(m, t, k);
    }
  }

  lemma SplitBounds(m: Reading, begin: nat)
    ensures 0 < SplitPages(m, begin) <= PAGES_PER_HUGEPAGE
  {
    SplitMeans(m, begin);
  }

  /** ... and so does freeing a region. */
  lemma InsertAdds(m: Reading, s: seq<Range>, begin: nat, pages: nat)
    ensures Free(Insert(m, s, begin, pages)) == Free(s) + PagesOf(Range(begin, pages))
  {
    hide Free, AddRange, SplitPages;
    var split := SplitPages(m, begin);
    if pages == 0 {
      assert PagesOf(Range(begin, pages)) == {};
    } else if split % PAGES_PER_HUGEPAGE != 0 && split < pages {
      var head, tail := Range(begin, split), Range(begin + split, pages - split);
      PartsOfPages(head, tail);
      AddRangeAdds(m, s, head);
      AddRangeAdds(m, AddRange(m, s, head), tail);
    } else {
      AddRangeAdds(m, s, Range(begin, pages));
    }
  }

  predicate Within(r: Range) { 0 < r.begin && r.End() <= TOP }

  lemma InsertedInBounds(s: seq<Range>, k: nat, r: Range)
    requires InBounds(s) && k <= |s| && Within(r)
    ensures InBounds(InsertAt(s, k, r))
  {
    InsertedAt(s, k, r);
    hide InsertAt;
  }

  lemma MergedInBounds(m: Reading, s: seq<Range>, i: nat)
    requires InBounds(s) && i < |s|
    ensures InBounds(MergeWithPrev(m, s, i)) && |s| - 1 <= |MergeWithPrev(m, s, i)| <= |s|
    ensures MergeWithPrev(m, s, i) == s || i > 0
  {
    if Merges(m, s, i) {
      MergedAt(m, s, i);
      hide MergeWithPrev, Aligned;
    }
  }

  /** No range begins inside `r`: freeing `r` overwrites no record. */
  ghost predicate Unrecorded(s: seq<Range>, r: Range) {
    forall i :: 0 <= i < |s| ==> !Holds(r, s[i].begin)
  }

  lemma InsertableIsUnrecorded(m: Reading, s: seq<Range>, r: Range)
    requires Invariant(m, s) && Insertable(s, r)
    ensures Unrecorded(s, r) && Within(r) && InBounds(s)
  {
    InvariantGives(m, s);
    FormedInBounds(m, s, 0, 0);
    hide Invariant, InBounds, RangeOk, Free;
    forall i | 0 <= i < |s|
      ensures !Holds(r, s[i].begin)
    {
      assert Holds(s[i], s[i].begin);
      FreeMeans(s, s[i].begin);
    }
  }

  lemma FormedInBounds(m: Reading, s: seq<Range>, a: nat, b: nat)
    requires FormedBut(m, s, a, b)
    ensures InBounds(s)
  {
  }

  lemma FormedButWeaker(m: Reading, s: seq<Range>, k: nat)
    requires FormedBut(m, s, k, 0)
    ensures FormedBut(m, s, k, k)
  {
  }

  lemma FormedButLast(m: Reading, s: seq<Range>, k: nat)
    requires FormedBut(m, s, k, k + 1) && k + 1 == |s|
    ensures FormedBut(m, s, k, k)
  {
  }

  lemma PartsOfPages(a: Range, b: Range)
    requires a.End() == b.begin
    ensures PagesOf(Range(a.begin, a.pages + b.pages)) == PagesOf(a) + PagesOf(b)
    ensures PagesOf(a) !! PagesOf(b)
  {
  }

  lemma PartsOk(m: Reading, begin: nat, pages: nat)
    requires pages > 0 && 0 < begin && begin + pages <= TOP
    ensures var split := SplitPages(m, begin);
            if split % PAGES_PER_HUGEPAGE != 0 && split < pages then
              0 < split && RangeOk(m, Range(begin, split)) && RangeOk(m, Range(begin + split, pages - split))
            else
              RangeOk(m, Range(begin, pages))
  {
    SplitMeans(m, begin);
    hide SplitPages, HugeRemainder, Aligned;
    if m.Parenthesised? {
      assert (begin + (PAGES_PER_HUGEPAGE - begin % PAGES_PER_HUGEPAGE)) % PAGES_PER_HUGEPAGE == 0;
    }
  }

  /** The two parts of a region that is split can be entered one after the other. */
  lemma SplitParts(m: Reading, s: seq<Range>, begin: nat, pages: nat)
    requires Invariant(m, s) && Insertable(s, Range(begin, pages)) && pages > 0
    ensures var split := SplitPages(m, begin);
            if split % PAGES_PER_HUGEPAGE != 0 && split < pages then
              var head, tail := Range(begin, split), Range(begin + split, pages - split);
              var half := AddRange(m, s, head);
              && Insertable(s, head) && RangeOk(m, head)
              && Invariant(m, half) && Insertable(half, tail) && RangeOk(m, tail)
              && PagesOf(Range(begin, pages)) == PagesOf(head) + PagesOf(tail)
            else
              RangeOk(m, Range(begin, pages))
  {
    hide AddRange, Invariant, Free, PagesOf, RangeOk, SplitPages;
    PartsOk(m, begin, pages);
    var split := SplitPages(m, begin);
    if split % PAGES_PER_HUGEPAGE != 0 && split < pages {
      var head, tail := Range(begin, split), Range(begin + split, pages - split);
      PartsOfPages(head, tail);
      AddRangeKeeps(m, s, head);
    }
  }

  /** InsertNewMemoryRange: the state stays well formed and gains exactly the given pages. */
  lemma InsertKeeps(m: Reading, s: seq<Range>, begin: nat, pages: nat)
    requires Invariant(m, s) && Insertable(s, Range(begin, pages))
    ensures Invariant(m, Insert(m, s, begin, pages))
    ensures Free(Insert(m, s, begin, pages)) == Free(s) + PagesOf(Range(begin, pages))
  {
    hide AddRange, Invariant, Free, Insertable, RangeOk, SplitPages;
    var split := SplitPages(m, begin);
    if pages == 0 {
      assert PagesOf(Range(begin, pages)) == {};
    } else {
      SplitParts(m, s, begin, pages);
      if split % PAGES_PER_HUGEPAGE != 0 && split < pages {
        AddRangeKeeps(m, s, Range(begin, split));
        AddRangeKeeps(m, AddRange(m, s, Range(begin, split)), Range(begin + split, pages - split));
      } else {
        AddRangeKeeps(m, s, Range(begin, pages));
      }
    }
  }
}
