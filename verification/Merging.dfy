/** Which merges the allocator misses. Freeing offers the new range, and the range after it, to
    the range before; "since this function is called on every insert, there can be no cascade
    merging". Here: exactly which calls leave two ranges that the test would still join. */
module Merging {
  import opened FreeRanges
  import opened PageRuns

  /** No two neighbouring ranges are left that TryMergeMemoryRangesWithPrev would join. */
  ghost predicate Complete(m: Reading, s: seq<Range>) {
    forall i :: 0 < i < |s| ==> !Merges(m, s, i)
  }

  // ----- One new range -----

  /** The new range, grown by what it absorbs, starts aligned and touches an aligned range that
      nobody offers it. */
  predicate Misses(m: Reading, s: seq<Range>, r: Range) {
    var q := KeptFrom(m, s, r);
    q < |s| && Grown(m, s, r).End() == s[q].begin && Aligned(m, Grown(m, s, r).begin) && Aligned(m, s[q].begin)
  }

  lemma CompleteParts(m: Reading, before: seq<Range>, r: Range, after: seq<Range>)
    requires Complete(m, before) && Complete(m, after)
    ensures Complete(m, before + [r] + after) <==>
            (before != [] ==> !Mergeable(m, before[|before| - 1], r)) && (after != [] ==> !Mergeable(m, r, after[0]))
  {
    hide Mergeable;
    var s, k := before + [r] + after, |before|;
    Around(before, r, after);
    assert before != [] ==> (Merges(m, s, k) <==> Mergeable(m, before[k - 1], r));
    assert after != [] ==> (Merges(m, s, k + 1) <==> Mergeable(m, r, after[0]));
    forall i | 0 < i < |s| && i != k && i != k + 1
      ensures !Merges(m, s, i)
    {
      if i < k {
        assert s[i] == before[i] && s[i - 1] == before[i - 1] && !Merges(m, before, i);
      } else {
        var j := i - k - 1;
        assert s[i] == after[j] && s[i - 1] == after[j - 1] && !Merges(m, after, j);
      }
    }
  }

  lemma CompletePart(m: Reading, s: seq<Range>, a: nat, b: nat)
    requires Complete(m, s) && a <= b <= |s|
    ensures Complete(m, s[a..b])
  {
    hide Mergeable;
    var part := s[a..b];
    forall i | 0 < i < |part|
      ensures !Merges(m, part, i)
    {
      assert !Merges(m, s, a + i);
    }
  }

  /** What lies before the grown range is never left mergeable with it. */
  lemma PrevSettled(m: Reading, s: seq<Range>, r: Range)
    requires Complete(m, s)
    ensures var k := KeptTo(m, s, r); k > 0 ==> !Mergeable(m, s[k - 1], Grown(m, s, r))
  {
    hide Place, Aligned;
    var k := Place(s, r.begin);
    if JoinsPrev(m, s, r) && k > 1 {
      assert !Merges(m, s, k - 1);
    }
  }

  /** What lies after it is left so exactly if both are aligned. */
  lemma NextSettled(m: Reading, s: seq<Range>, r: Range)
    requires Complete(m, s)
    ensures var q := KeptFrom(m, s, r); q < |s| ==> (Mergeable(m, Grown(m, s, r), s[q]) <==> Misses(m, s, r))
  {
    hide Place, Aligned;
    var k := Place(s, r.begin);
    GrownEnd(m, s, r);
    if JoinsNext(m, s, r) && k + 1 < |s| {
      assert !Merges(m, s, k + 1);
    }
  }

  lemma GrownEnd(m: Reading, s: seq<Range>, r: Range)
    ensures var k := Place(s, r.begin);
            Grown(m, s, r).End() == if JoinsNext(m, s, r) then s[k].End() else r.End()
    ensures Grown(m, s, r).begin == if JoinsPrev(m, s, r) then s[Place(s, r.begin) - 1].begin else r.begin
  {
    hide Place, Aligned;
  }

  /** Entering one range misses a merge exactly then. */
  lemma AddRangeCompletes(m: Reading, s: seq<Range>, r: Range)
    requires Complete(m, s)
    ensures Complete(m, AddRange(m, s, r)) <==> !Misses(m, s, r)
  {
    hide *;
    var k, q := KeptTo(m, s, r), KeptFrom(m, s, r);
    AddRangeExactly(m, s, r);
    CompletePart(m, s, 0, k);
    CompletePart(m, s, q, |s|);
    assert s[0..k] == s[..k] && s[q..|s|] == s[q..];
    CompleteParts(m, s[..k], Grown(m, s, r), s[q..]);
    PrevSettled(m, s, r);
    NextSettled(m, s, r);
    MissesNeedsNext(m, s, r);
  }

  lemma MissesNeedsNext(m: Reading, s: seq<Range>, r: Range)
    ensures Misses(m, s, r) ==> KeptFrom(m, s, r) < |s|
  {
  }

  // ----- Freeing a region -----

  predicate Splits(m: Reading, r: Range) {
    SplitPages(m, r.begin) % PAGES_PER_HUGEPAGE != 0 && SplitPages(m, r.begin) < r.pages
  }

  /** The region joins on to an aligned range before it. */
  predicate Bridged(m: Reading, s: seq<Range>, r: Range) {
    var k := Place(s, r.begin);
    k > 0 && s[k - 1].End() == r.begin && Aligned(m, s[k - 1].begin)
  }

  /** The part of the region that is entered last starts aligned. */
  predicate LastPartAligned(m: Reading, r: Range) {
    Splits(m, r) || Aligned(m, r.begin)
  }

  /** Freeing `r` leaves a pair behind. Either an unaligned region fills the gap between two
      aligned ranges: the second is offered the region before that has grown backwards. Or what
      ends up aligned absorbs an unaligned range that in turn touches an aligned one, which is
      never offered anything. */
  predicate LeavesPair(m: Reading, s: seq<Range>, r: Range) {
    var k := Place(s, r.begin);
    r.pages > 0 && k < |s| && r.End() == s[k].begin &&
    if Aligned(m, s[k].begin) then
      Bridged(m, s, r) && !LastPartAligned(m, r)
    else
      && (Bridged(m, s, r) || LastPartAligned(m, r))
      && k + 1 < |s| && s[k].End() == s[k + 1].begin && Aligned(m, s[k + 1].begin)
  }

  lemma WholeCase(m: Reading, s: seq<Range>, r: Range)
    requires Complete(m, s) && r.pages > 0 && !Splits(m, r)
    ensures Misses(m, s, r) <==> LeavesPair(m, s, r)
  {
    hide Place, Aligned, Splits, Grown, Complete, Merges;
    GrownEnd(m, s, r);
    var k := Place(s, r.begin);
    CompleteAt(m, s, k + 1);
  }

  lemma CompleteAt(m: Reading, s: seq<Range>, i: nat)
    requires Complete(m, s)
    ensures 0 < i < |s| ==> !Mergeable(m, s[i - 1], s[i])
  {
    hide Mergeable;
    assert 0 < i < |s| ==> !Merges(m, s, i);
  }

  lemma SplitGives(m: Reading, s: seq<Range>, r: Range)
    requires Invariant(m, s) && Insertable(s, r) && Splits(m, r)
    ensures var split, k := SplitPages(m, r.begin), Place(s, r.begin);
            && 0 < split < r.pages && Aligned(m, r.begin + split)
            && (k < |s| ==> r.End() <= s[k].begin)
  {
    SplitMeans(m, r.begin);
    AlignedMeans(m, r.begin + SplitPages(m, r.begin));
    SplitEndsFrame(r.begin);
    hide SplitPages, Aligned, HugeRemainder;
    InvariantGives(m, s);
    hide Invariant, FormedBut, Separated, Insertable;
    Clear(s, r);
  }

  lemma SplitEndsFrame(b: nat)
    ensures (b + (PAGES_PER_HUGEPAGE - b % PAGES_PER_HUGEPAGE)) % PAGES_PER_HUGEPAGE == 0
  {
  }

  /** The first part of a split region misses nothing, and this is what it leaves. */
  lemma HeadCase(m: Reading, s: seq<Range>, r: Range)
    requires Invariant(m, s) && Insertable(s, r) && Splits(m, r)
    ensures var split, k := SplitPages(m, r.begin), Place(s, r.begin);
            var head := Range(r.begin, split);
            && !Misses(m, s, head)
            && AddRange(m, s, head) == s[..KeptTo(m, s, head)] + [Grown(m, s, head)] + s[k..]
            && Grown(m, s, head).End() == r.begin + split && Grown(m, s, head).begin <= r.begin
  {
    hide Place, AddRange, Misses, Grown, KeptTo, KeptFrom, JoinsNext, Invariant, Insertable, Splits, SplitPages;
    SplitGives(m, s, r);
    var head := Range(r.begin, SplitPages(m, r.begin));
    AddRangeExactly(m, s, head);
    GrownEnd(m, s, head);
    NothingNext(m, s, head);
  }

  lemma NothingNext(m: Reading, s: seq<Range>, r: Range)
    requires Place(s, r.begin) < |s| ==> r.End() < s[Place(s, r.begin)].begin
    ensures !JoinsNext(m, s, r) && KeptFrom(m, s, r) == Place(s, r.begin) && !Misses(m, s, r)
    ensures Grown(m, s, r).begin <= r.begin
  {
    hide Aligned;
    GrownEnd(m, s, r);
  }

  /** The second part, entered after it: `before` is the first part with what it absorbed. */
  lemma TailCase(m: Reading, before: seq<Range>, head: Range, after: seq<Range>, tail: Range)
    requires head.End() == tail.begin && head.begin < tail.begin && Aligned(m, tail.begin)
    requires forall j :: 0 <= j < |before| ==> before[j].begin < tail.begin
    requires after != [] ==> tail.begin <= after[0].begin
    requires after != [] && after[0].begin == tail.End() && |after| > 1 ==> !Mergeable(m, after[0], after[1])
    requires tail.pages > 0
    ensures Misses(m, before + [head] + after, tail) <==>
            after != [] && tail.End() == after[0].begin && !Aligned(m, after[0].begin) &&
            |after| > 1 && after[0].End() == after[1].begin && Aligned(m, after[1].begin)
  {
    var half, k := before + [head] + after, |before| + 1;
    Around(before, head, after);
    assert half[k - 1] == head;
    forall j | 0 <= j < k
      ensures half[j].begin < tail.begin
    {
    }
    assert k < |half| ==> half[k] == after[0];
    assert k + 1 < |half| ==> half[k + 1] == after[1];
    PlaceIs(half, tail.begin, k);
    hide Place, Aligned, Grown;
    GrownEnd(m, half, tail);
  }

  lemma SplitCase(m: Reading, s: seq<Range>, r: Range)
    requires Invariant(m, s) && Insertable(s, r) && Complete(m, s) && Splits(m, r)
    ensures var split := SplitPages(m, r.begin);
            var head, tail := Range(r.begin, split), Range(r.begin + split, r.pages - split);
            !Misses(m, s, head) && (Misses(m, AddRange(m, s, head), tail) <==> LeavesPair(m, s, r))
  {
    hide Place, AddRange, Misses, Grown, KeptFrom, Invariant, Insertable, Splits, SplitPages, Aligned, Complete;
    var split, k := SplitPages(m, r.begin), Place(s, r.begin);
    SplitGives(m, s, r);
    var head, tail := Range(r.begin, split), Range(r.begin + split, r.pages - split);
    HeadCase(m, s, r);
    CompleteAt(m, s, k + 1);
    TailCase(m, s[..KeptTo(m, s, head)], Grown(m, s, head), s[k..], tail);
  }

  lemma InsertIs(m: Reading, s: seq<Range>, r: Range)
    ensures Insert(m, s, r.begin, r.pages) ==
            if r.pages == 0 then s
            else if Splits(m, r) then
              AddRange(m, AddRange(m, s, Range(r.begin, SplitPages(m, r.begin))),
                       Range(r.begin + SplitPages(m, r.begin), r.pages - SplitPages(m, r.begin)))
            else AddRange(m, s, r)
  {
    hide AddRange, SplitPages;
  }

  lemma NeverFromNothing(m: Reading, s: seq<Range>, r: Range)
    requires r.pages == 0
    ensures !LeavesPair(m, s, r)
  {
  }

  /** Freeing a region leaves a pair that should have been joined exactly in the two cases of
      LeavesPair. */
  lemma InsertCompletes(m: Reading, s: seq<Range>, r: Range)
    requires Invariant(m, s) && Insertable(s, r) && Complete(m, s)
    ensures Complete(m, Insert(m, s, r.begin, r.pages)) <==> !LeavesPair(m, s, r)
  {
    hide AddRange, Insert, Misses, LeavesPair, Invariant, Insertable, Complete, Splits, SplitPages;
    InsertIs(m, s, r);
    if r.pages == 0 {
      NeverFromNothing(m, s, r);
    } else if Splits(m, r) {
      SplitCase(m, s, r);
      SplitGives(m, s, r);
      var split := SplitPages(m, r.begin);
      var head := Range(r.begin, split);
      AddRangeCompletes(m, s, head);
      AddRangeCompletes(m, AddRange(m, s, head), Range(r.begin + split, r.pages - split));
    } else {
      WholeCase(m, s, r);
      AddRangeCompletes(m, s, r);
    }
  }

  // ----- Allocating, and whole runs -----

  /** Taking pages from the end of a range leaves no new pair: what touched its end no longer does. */
  lemma TakeCompletes(m: Reading, s: seq<Range>, i: nat, need: nat)
    requires Invariant(m, s) && Complete(m, s) && i < |s| && 0 < need <= s[i].pages
    ensures Complete(m, Take(s, i, need))
  {
    InvariantGives(m, s);
    hide Invariant, FormedBut, Aligned;
    var t := Take(s, i, need);
    forall j | 0 < j < |t|
      ensures !Merges(m, t, j)
    {
      if s[i].pages == need && j >= i {
        assert !Merges(m, s, j + 1);
        assert InOrder(s, j + 1);
        if j == i {
          assert InOrder(s, i);
        }
      } else {
        assert !Merges(m, s, j);
        assert InOrder(s, j);
      }
    }
  }

  lemma StepCompletes(m: Reading, s: seq<Range>, e: Event, s': seq<Range>)
    requires Invariant(m, s) && Complete(m, s) && Step(m, s, e, s')
    ensures Complete(m, s') <==> (e.Freed? ==> !LeavesPair(m, s, e.given))
  {
    hide Invariant, Complete, Insert, Take, LeavesPair, Picks, Insertable;
    match e
    case Freed(r) => InsertCompletes(m, s, r);
    case Allocated(need, i, _) => TakeCompletes(m, s, i, need);
    case Refused(_) =>
  }

  /** Over a whole run, no pair is ever left behind if and only if no free of the run leaves one. */
  lemma {:induction false} RunCompletes(m: Reading, states: seq<seq<Range>>, events: seq<Event>, n: nat)
    requires IsRun(m, states, events) && n <= |events|
    ensures (forall k :: 0 <= k <= n ==> Complete(m, states[k])) <==>
            (forall k :: 0 <= k < n && events[k].Freed? ==> !LeavesPair(m, states[k], events[k].given))
  {
    hide Complete, LeavesPair, Step;
    if n == 0 {
      EmptyIsComplete(m);
    } else {
      RunCompletes(m, states, events, n - 1);
      RunKeeps(m, states, events, n - 1);
      assert Step(m, states[n - 1], events[n - 1], states[n - 1 + 1]);
      if forall k :: 0 <= k <= n - 1 ==> Complete(m, states[k]) {
        StepCompletes(m, states[n - 1], events[n - 1], states[n]);
      }
    }
  }

  lemma EmptyIsComplete(m: Reading)
    ensures Complete(m, [])
  {
  }

  /** With the macro as written every range counts as aligned, and no pair is ever missed. */
  lemma NoneMissedAsWritten(states: seq<seq<Range>>, events: seq<Event>, k: nat)
    requires IsRun(AsWritten, states, events) && k <= |events|
    ensures Complete(AsWritten, states[k])
  {
    RunKeeps(AsWritten, states, events, k);
    InvariantGives(AsWritten, states[k]);
    hide Invariant, IsRun;
    forall i | 0 < i < |states[k]|
      ensures !Merges(AsWritten, states[k], i)
    {
      assert MeetsPrev(AsWritten, states[k], i);
    }
  }

  // ----- Both cases do occur -----

  /** `r` lies between the ranges before index `k` and the others. */
  ghost predicate Between(s: seq<Range>, r: Range, k: nat) {
    && k <= |s| && 0 < r.begin && 0 < r.pages && r.End() <= TOP
    && (forall i :: 0 <= i < k ==> s[i].begin < r.begin && s[i].End() <= r.begin)
    && (forall i :: k <= i < |s| ==> r.End() <= s[i].begin)
  }

  lemma BetweenIsInsertable(s: seq<Range>, r: Range, k: nat)
    requires Between(s, r, k)
    ensures Insertable(s, r) && Place(s, r.begin) == k
  {
    PlaceIs(s, r.begin, k);
    hide Place, Free;
    forall p: nat | Holds(r, p)
      ensures p !in Free(s)
    {
      FreeMeans(s, p);
    }
  }

  predicate FitsFrame(r: Range) {
    r.begin % PAGES_PER_HUGEPAGE == 0 || r.begin % PAGES_PER_HUGEPAGE + r.pages <= PAGES_PER_HUGEPAGE
  }

  lemma FrameNotSplit(r: Range)
    requires FitsFrame(r)
    ensures !Splits(Parenthesised, r)
  {
    hide SplitPages;
    SplitMeans(Parenthesised, r.begin);
  }

  lemma FreeBetween(s: seq<Range>, r: Range, k: nat, prev: bool, next: bool)
    requires Between(s, r, k) && FitsFrame(r)
    requires prev <==> k > 0 && Mergeable(Parenthesised, s[k - 1], r)
    requires next <==> k < |s| && Mergeable(Parenthesised, r, s[k])
    ensures Place(s, r.begin) == k
    ensures var grown := Range(if prev then s[k - 1].begin else r.begin,
                               (if prev then s[k - 1].pages else 0) + r.pages + (if next then s[k].pages else 0));
            Step(Parenthesised, s, Freed(r), s[..if prev then k - 1 else k] + [grown] + s[if next then k + 1 else k..])
  {
    hide Between, FitsFrame, Mergeable, Insertable, Insert, AddRange, Splits, Place;
    BetweenIsInsertable(s, r, k);
    FrameNotSplit(r);
    InsertIs(Parenthesised, s, r);
    AddRangeExactly(Parenthesised, s, r);
    NotEmpty(s, r, k);
  }

  lemma NotEmpty(s: seq<Range>, r: Range, k: nat)
    requires Between(s, r, k)
    ensures r.pages > 0
  {
  }

  /** Two regions that do not touch, freed one after the other. */
  lemma TwoFreed(a: Range, b: Range)
    requires 0 < a.begin && 0 < a.pages && FitsFrame(a) && FitsFrame(b) && 0 < b.pages
    requires a.End() < b.begin || (a.End() == b.begin && !Mergeable(Parenthesised, a, b))
    requires b.End() <= TOP
    ensures Step(Parenthesised, [], Freed(a), [a]) && Step(Parenthesised, [a], Freed(b), [a, b])
  {
    hide Step, FitsFrame, Aligned;
    FreeBetween([], a, 0, false, false);
    FreeBetween([a], b, 1, false, false);
    assert [] + [a] + [] == [a];
    assert [a][..1] + [b] + [a][1..] == [a, b];
  }

  lemma IsRunOfThree(s1: seq<Range>, s2: seq<Range>, s3: seq<Range>, r1: Range, r2: Range, r3: Range)
    requires Step(Parenthesised, [], Freed(r1), s1) && Step(Parenthesised, s1, Freed(r2), s2)
    requires Step(Parenthesised, s2, Freed(r3), s3)
    ensures IsRun(Parenthesised, [[], s1, s2, s3], [Freed(r1), Freed(r2), Freed(r3)])
  {
    hide Step;
    var states, events := [[], s1, s2, s3], [Freed(r1), Freed(r2), Freed(r3)];
    forall k | 0 <= k < |events|
      ensures Step(Parenthesised, states[k], events[k], states[k + 1])
    {
      assert k == 0 || k == 1 || k == 2;
    }
  }

  lemma AlignedAt(begin: nat)
    ensures Aligned(Parenthesised, begin) <==> begin % PAGES_PER_HUGEPAGE == 0
  {
    AlignedMeans(Parenthesised, begin);
  }

  lemma PairComplete(m: Reading, a: Range, b: Range)
    ensures Complete(m, [a, b]) <==> !Mergeable(m, a, b)
  {
    hide Mergeable;
    assert Merges(m, [a, b], 1) <==> Mergeable(m, a, b);
  }

  /** A gap between aligned ranges is filled: after frees of [512, 612), [1024, 1536) and
      [612, 1024) two ranges are left that the test would join. */
  lemma GapFilled()
    ensures var s, r := [Range(512, 100), Range(1024, 512)], Range(612, 412);
            var t := [Range(512, 512), Range(1024, 512)];
            && IsRun(Parenthesised, [[], [Range(512, 100)], s, t],
                     [Freed(Range(512, 100)), Freed(Range(1024, 512)), Freed(r)])
            && LeavesPair(Parenthesised, s, r) && Complete(Parenthesised, s) && !Complete(Parenthesised, t)
  {
    hide Aligned, Step, Place, Complete, IsRun, Splits;
    var a, b, r := Range(512, 100), Range(1024, 512), Range(612, 412);
    AlignedAt(512);
    AlignedAt(612);
    AlignedAt(1024);
    TwoFreed(a, b);
    FreeBetween([a, b], r, 1, true, false);
    assert [a, b][..0] + [Range(512, 512)] + [a, b][1..] == [Range(512, 512), b];
    IsRunOfThree([a], [a, b], [Range(512, 512), b], a, b, r);
    PairComplete(Parenthesised, a, b);
    PairComplete(Parenthesised, Range(512, 512), b);
    FrameNotSplit(r);
  }

  /** An unaligned neighbour is absorbed: after frees of [600, 1024), [1024, 1536) and [512, 600)
      the same two are left. */
  lemma NeighbourAbsorbed()
    ensures var s, r := [Range(600, 424), Range(1024, 512)], Range(512, 88);
            var t := [Range(512, 512), Range(1024, 512)];
            && IsRun(Parenthesised, [[], [Range(600, 424)], s, t],
                     [Freed(Range(600, 424)), Freed(Range(1024, 512)), Freed(r)])
            && LeavesPair(Parenthesised, s, r) && Complete(Parenthesised, s) && !Complete(Parenthesised, t)
  {
    hide Aligned, Step, Place, Complete, IsRun, Splits;
    var a, b, r := Range(600, 424), Range(1024, 512), Range(512, 88);
    AlignedAt(512);
    AlignedAt(600);
    AlignedAt(1024);
    TwoFreed(a, b);
    FreeBetween([a, b], r, 0, false, true);
    assert [a, b][..0] + [Range(512, 512)] + [a, b][1..] == [Range(512, 512), b];
    IsRunOfThree([a], [a, b], [Range(512, 512), b], a, b, r);
    PairComplete(Parenthesised, a, b);
    PairComplete(Parenthesised, Range(512, 512), b);
  }
}
