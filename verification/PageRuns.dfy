/** Allocation, and whole runs of the page allocator. */
module PageRuns {
  import opened Basics
  import opened FreeRanges

  // ----- Taking pages from the end of a range -----

  /** The pages handed out when range `i` serves a request for `need` pages. */
  function Taken(s: seq<Range>, i: nat, need: nat): Range
    requires i < |s|
  {
    var got := if s[i].pages < need then s[i].pages else need;
    Range(s[i].End() - got, got)
  }

  /** What is left: the range goes only when it matches the request to the page. */
  function Take(s: seq<Range>, i: nat, need: nat): seq<Range>
    requires i < |s|
  {
    if s[i].pages == need then RemoveAt(s, i)
    else s[i := Range(s[i].begin, s[i].pages - Taken(s, i, need).pages)]
  }

  lemma Elsewhere(s: seq<Range>, i: nat)
    requires Separated(s) && i < |s|
    ensures PagesOf(s[i]) !! Free(s[..i])
    ensures PagesOf(s[i]) !! Free(s[i + 1..])
  {
    forall p: nat | p in PagesOf(s[i])
      ensures p !in Free(s[..i])
      ensures p !in Free(s[i + 1..])
    {
      FreeMeans(s[..i], p);
      if j :| 0 <= j < i && Holds(s[..i][j], p) {
        SeparatedFar(s, j, i);
        assert false;
      }
      var later := s[i + 1..];
      FreeMeans(later, p);
      if j :| 0 <= j < |later| && Holds(later[j], p) {
        SeparatedFar(s, i, i + 1 + j);
        assert false;
      }
    }
  }

  lemma InvariantSeparates(m: Reading, s: seq<Range>)
    requires Invariant(m, s)
    ensures Separated(s)
  {
    forall i | 0 < i < |s|
      ensures InOrder(s, i)
    {
    }
  }

  /** Taking pages moves exactly the returned pages out of the free set. */
  lemma TakeMoves(s: seq<Range>, i: nat, need: nat)
    requires Separated(s) && i < |s|
    ensures PagesOf(Taken(s, i, need)) <= Free(s)
    ensures Free(Take(s, i, need)) == Free(s) - PagesOf(Taken(s, i, need))
  {
    var block := Taken(s, i, need);
    var rest := Range(s[i].begin, s[i].pages - block.pages);
    Elsewhere(s, i);
    FreeSplit(s, i);
    assert PagesOf(s[i]) == PagesOf(rest) + PagesOf(block) && PagesOf(rest) !! PagesOf(block);
    var t := Take(s, i, need);
    if s[i].pages == need {
      assert PagesOf(rest) == {};
      FreeConcat(s[..i], s[i + 1..]);
    } else {
      FreeSplit(t, i);
      assert t[..i] == s[..i] && t[i + 1..] == s[i + 1..];
    }
  }

  lemma TakeForms(m: Reading, s: seq<Range>, i: nat, need: nat)
    requires Invariant(m, s) && i < |s| && 0 < need <= s[i].pages
    ensures Invariant(m, Take(s, i, need))
  {
    var t := Take(s, i, need);
    if s[i].pages == need {
      assert forall j :: 0 <= j < |t| ==> t[j] == s[if j < i then j else j + 1];
      forall j | 0 < j < |t|
        ensures InOrder(t, j) && MeetsPrev(m, t, j)
      {
        if j < i {
          assert InOrder(s, j) && MeetsPrev(m, s, j);
        } else {
          assert InOrder(s, j + 1) && MeetsPrev(m, s, j + 1);
          if j == i {
            assert InOrder(s, i) && MeetsPrev(m, s, i);
          }
        }
      }
    } else {
      forall j | 0 < j < |t|
        ensures InOrder(t, j) && MeetsPrev(m, t, j)
      {
        assert InOrder(s, j) && MeetsPrev(m, s, j);
      }
    }
  }

  /** Range records live in the first page of their range.  Handing out pages leaves no record
      in them exactly when the request was met in full: a block shorter than the request is
      handed out while its record stays linked. */
  lemma NoRecordHandedOut(m: Reading, s: seq<Range>, i: nat, need: nat)
    requires Invariant(m, s) && i < |s| && need > 0
    ensures (forall j :: 0 <= j < |Take(s, i, need)| ==> !Holds(Taken(s, i, need), Take(s, i, need)[j].begin)) <==>
            need <= s[i].pages
  {
    var t, block := Take(s, i, need), Taken(s, i, need);
    InvariantSeparates(m, s);
    if need <= s[i].pages {
      forall j | 0 <= j < |t|
        ensures !Holds(block, t[j].begin)
      {
        var j' := if s[i].pages == need && j >= i then j + 1 else j;
        assert t[j].begin == s[j'].begin;
        if j' < i { SeparatedFar(s, j', i); } else if i < j' { SeparatedFar(s, i, j'); }
      }
    } else {
      assert t[i] == Range(s[i].begin, 0);
      assert Holds(block, t[i].begin);
    }
  }

  /** Handing out a range that is shorter than the request leaves an empty range behind. */
  lemma TakeKeepsExactly(m: Reading, s: seq<Range>, i: nat, need: nat)
    requires Invariant(m, s) && i < |s| && need > 0
    ensures Invariant(m, Take(s, i, need)) <==> need <= s[i].pages
  {
    if need <= s[i].pages {
      TakeForms(m, s, i, need);
    } else {
      assert Take(s, i, need)[i].pages == 0;
    }
  }

  // ----- Which range serves a request -----

  predicate Suits(m: Reading, s: seq<Range>, c: Class, need: nat, i: nat) {
    i < |s| && ClassOf(m, s[i]) == c && need <= s[i].pages
  }

  ghost predicate NoneSuits(m: Reading, s: seq<Range>, c: Class, need: nat) {
    forall i :: 0 <= i < |s| ==> !Suits(m, s, c, need, i)
  }

  /** Range `i` is a tightest fit among those of class `c`. */
  ghost predicate BestFit(m: Reading, s: seq<Range>, c: Class, need: nat, i: nat) {
    Suits(m, s, c, need, i) &&
    forall j :: 0 <= j < |s| && Suits(m, s, c, need, j) ==> s[i].pages <= s[j].pages
  }

  /** AllocatePages looks through the classes in this order. */
  function Searched(need: nat): seq<Class> {
    if need < PAGES_PER_HUGEPAGE then [Unaligned2M, Aligned2M, Aligned2MBig] else [Aligned2MBig]
  }

  /** An exact request is served by range `i`: a best fit in the first class that has one. */
  ghost predicate Picks(m: Reading, s: seq<Range>, classes: seq<Class>, need: nat, i: nat) {
    exists c :: 0 <= c < |classes| && PicksFrom(m, s, classes, need, c, i)
  }

  ghost predicate PicksFrom(m: Reading, s: seq<Range>, classes: seq<Class>, need: nat, c: nat, i: nat)
    requires c < |classes|
  {
    BestFit(m, s, classes[c], need, i) && forall d :: 0 <= d < c ==> NoneSuits(m, s, classes[d], need)
  }

  ghost predicate Serves(m: Reading, s: seq<Range>, need: nat) {
    exists i: nat :: Picks(m, s, Searched(need), need, i)
  }

  ghost predicate Refuses(m: Reading, s: seq<Range>, classes: seq<Class>, need: nat) {
    forall c :: c in classes ==> NoneSuits(m, s, c, need)
  }

  lemma {:induction false} SomeBestFit(m: Reading, s: seq<Range>, c: Class, need: nat, i: nat) returns (best: nat)
    requires Suits(m, s, c, need, i)
    ensures BestFit(m, s, c, need, best)
    decreases s[i].pages
  {
    best := i;
    if j :| 0 <= j < |s| && Suits(m, s, c, need, j) && s[j].pages < s[i].pages {
      best := SomeBestFit(m, s, c, need, j);
    }
  }

  /** A request is either refused or served, never both. */
  lemma ServedOrRefused(m: Reading, s: seq<Range>, classes: seq<Class>, need: nat)
    ensures Refuses(m, s, classes, need) <==> !exists i: nat :: Picks(m, s, classes, need, i)
  {
    if !Refuses(m, s, classes, need) {
      var last :| 0 <= last < |classes| && !NoneSuits(m, s, classes[last], need);
      var c := 0;
      while NoneSuits(m, s, classes[c], need)
        invariant 0 <= c <= last
        invariant forall d :: 0 <= d < c ==> NoneSuits(m, s, classes[d], need)
        decreases last - c
      {
        c := c + 1;
      }
      var i :| 0 <= i < |s| && Suits(m, s, classes[c], need, i);
      var best := SomeBestFit(m, s, classes[c], need, i);
      assert PicksFrom(m, s, classes, need, c, best);
      assert Picks(m, s, classes, need, best);
    } else if i: nat :| Picks(m, s, classes, need, i) {
      var c :| 0 <= c < |classes| && PicksFrom(m, s, classes, need, c, i);
      assert classes[c] in classes;
    }
  }

  lemma PickedSuits(m: Reading, s: seq<Range>, classes: seq<Class>, need: nat, i: nat)
    requires Picks(m, s, classes, need, i)
    ensures exists c :: c in classes && Suits(m, s, c, need, i)
  {
    var c :| 0 <= c < |classes| && PicksFrom(m, s, classes, need, c, i);
    assert classes[c] in classes;
  }

  /** Requests of a hugepage or more look only among the big aligned ranges, and miss nothing:
      no other range can be that long. */
  lemma LongRangesAreAligned(m: Reading, r: Range)
    requires RangeOk(m, r) && r.pages >= PAGES_PER_HUGEPAGE
    ensures ClassOf(m, r) == Aligned2MBig
  {
    AlignedMeans(m, r.begin);
  }

  /** An exact request succeeds if and only if some free range, in whatever list, is long enough. */
  lemma ExactComplete(m: Reading, s: seq<Range>, need: nat)
    requires Invariant(m, s)
    ensures Serves(m, s, need) <==> exists i :: 0 <= i < |s| && need <= s[i].pages
  {
    var classes := Searched(need);
    ServedOrRefused(m, s, classes, need);
    if i: nat :| Picks(m, s, classes, need, i) {
      PickedSuits(m, s, classes, need, i);
    }
    if i :| 0 <= i < |s| && need <= s[i].pages {
      if need >= PAGES_PER_HUGEPAGE {
        LongRangesAreAligned(m, s[i]);
      }
      var c := ClassOf(m, s[i]);
      assert c in classes && Suits(m, s, c, need, i);
    }
  }

  // ----- Hugepages -----

  function Frame(b: nat): Range {
    Range(b, PAGES_PER_HUGEPAGE)
  }

  /** The 512 pages from `b` on are free. */
  ghost predicate RunFree(s: seq<Range>, b: nat) {
    PagesOf(Frame(b)) <= Free(s)
  }

  /** The 2 MiB frame number `q` is free. */
  ghost predicate FrameFree(s: seq<Range>, q: nat) {
    RunFree(s, q * PAGES_PER_HUGEPAGE)
  }

  /** Two neighbouring free pages lie in one range, unless a frame ends between them. */
  lemma NeighboursTogether(m: Reading, s: seq<Range>, i: nat, p: nat)
    requires Invariant(m, s) && i < |s| && Holds(s[i], p) && p + 1 in Free(s)
    requires m.AsWritten? || (p + 1) % PAGES_PER_HUGEPAGE != 0
    ensures Holds(s[i], p + 1)
  {
    InvariantSeparates(m, s);
    FreeMeans(s, p + 1);
    var j :| 0 <= j < |s| && Holds(s[j], p + 1);
    if j < i {
      SeparatedFar(s, j, i);
    } else if i < j {
      if i + 1 < j {
        SeparatedFar(s, i, i + 1);
        SeparatedFar(s, i + 1, j);
      } else {
        assert MeetsPrev(m, s, j);
      }
    }
  }

  /** Free pages in a row, with no frame ending between them, lie in one range: free runs are
      maximal inside each frame. */
  lemma {:induction false} RunTogether(m: Reading, s: seq<Range>, i: nat, b: nat, n: nat)
    requires Invariant(m, s) && i < |s| && Holds(s[i], b) && n > 0
    requires forall p :: b <= p < b + n ==> p in Free(s)
    requires m.AsWritten? || b % PAGES_PER_HUGEPAGE + n <= PAGES_PER_HUGEPAGE
    ensures s[i].begin <= b && b + n <= s[i].End()
  {
    if n > 1 {
      RunTogether(m, s, i, b, n - 1);
      NeighboursTogether(m, s, i, b + n - 2);
    }
  }

  /** With the macro read as meant, an exact request for a hugepage succeeds if and only if some
      2 MiB frame is entirely free. */
  lemma HugepageComplete(s: seq<Range>)
    requires Invariant(Parenthesised, s)
    ensures Serves(Parenthesised, s, PAGES_PER_HUGEPAGE) <==> exists q: nat :: FrameFree(s, q)
  {
    hide *;
    ExactComplete(Parenthesised, s, PAGES_PER_HUGEPAGE);
    if i :| 0 <= i < |s| && PAGES_PER_HUGEPAGE <= s[i].pages {
      var q := FrameInRange(s, i);
    }
    if q: nat :| FrameFree(s, q) {
      var i := LongRunFromFrame(s, q);
    }
  }

  lemma FrameInRange(s: seq<Range>, i: nat) returns (q: nat)
    requires Invariant(Parenthesised, s) && i < |s| && PAGES_PER_HUGEPAGE <= s[i].pages
    ensures FrameFree(s, q)
  {
    LongRangesAreAligned(Parenthesised, s[i]);
    AlignedMeans(Parenthesised, s[i].begin);
    q := s[i].begin / PAGES_PER_HUGEPAGE;
    FreeSplit(s, i);
    hide Free, Invariant, FormedBut;
    assert PagesOf(Frame(q * PAGES_PER_HUGEPAGE)) <= PagesOf(s[i]);
  }

  lemma LongRunFromFrame(s: seq<Range>, q: nat) returns (i: nat)
    requires Invariant(Parenthesised, s) && FrameFree(s, q)
    ensures i < |s| && PAGES_PER_HUGEPAGE <= s[i].pages
  {
    i := LongRun(Parenthesised, s, q * PAGES_PER_HUGEPAGE);
  }

  lemma LongRun(m: Reading, s: seq<Range>, b: nat) returns (i: nat)
    requires Invariant(m, s) && RunFree(s, b)
    requires m == AsWritten || b % PAGES_PER_HUGEPAGE == 0
    ensures i < |s| && PAGES_PER_HUGEPAGE <= s[i].pages
  {
    assert Holds(Frame(b), b);
    FreeMeans(s, b);
    i :| 0 <= i < |s| && Holds(s[i], b);
    forall p | b <= p < b + PAGES_PER_HUGEPAGE
      ensures p in Free(s)
    {
      assert Holds(Frame(b), p);
    }
    RunTogether(m, s, i, b, PAGES_PER_HUGEPAGE);
  }

  /** As written, it succeeds if and only if any 512 pages in a row are free, ... */
  lemma HugepageAsWritten(s: seq<Range>)
    requires Invariant(AsWritten, s)
    ensures Serves(AsWritten, s, PAGES_PER_HUGEPAGE) <==> exists b: nat :: RunFree(s, b)
  {
    hide *;
    ExactComplete(AsWritten, s, PAGES_PER_HUGEPAGE);
    if i :| 0 <= i < |s| && PAGES_PER_HUGEPAGE <= s[i].pages {
      RunInRange(s, i);
    }
    if b: nat :| RunFree(s, b) {
      var i := LongRun(AsWritten, s, b);
    }
  }

  lemma RunInRange(s: seq<Range>, i: nat)
    requires i < |s| && PAGES_PER_HUGEPAGE <= s[i].pages
    ensures RunFree(s, s[i].begin)
  {
    FreeSplit(s, i);
    hide Free;
    assert PagesOf(Frame(s[i].begin)) <= PagesOf(s[i]);
  }

  /** ... so that after freeing pages 1 to 512 a hugepage request is served although no frame
      is free. */
  lemma NoFrameNeededAsWritten()
    ensures var s := Insert(AsWritten, [], 1, 512);
            && Invariant(AsWritten, s)
            && Serves(AsWritten, s, PAGES_PER_HUGEPAGE)
            && forall q: nat :: !FrameFree(s, q)
  {
    var s := Insert(AsWritten, [], 1, 512);
    InsertKeeps(AsWritten, [], 1, 512);
    hide Insert, Invariant, Serves;
    assert PagesOf(Frame(1)) == Free(s);
    assert RunFree(s, 1);
    HugepageAsWritten(s);
    forall q: nat
      ensures !FrameFree(s, q)
    {
      var b := q * PAGES_PER_HUGEPAGE;
      assert Holds(Frame(b), b) && Holds(Frame(b), b + 511);
      assert !Holds(Frame(1), b) || !Holds(Frame(1), b + 511);
    }
  }

  /** Even as meant, the pages handed out for a hugepage request, which come from the end of an
      aligned range, are themselves aligned only if the range is a whole number of frames. */
  lemma HugepageAligned(s: seq<Range>, i: nat)
    requires Invariant(Parenthesised, s) && i < |s| && s[i].pages >= PAGES_PER_HUGEPAGE
    ensures Aligned(Parenthesised, Taken(s, i, PAGES_PER_HUGEPAGE).begin) <==> s[i].pages % PAGES_PER_HUGEPAGE == 0
  {
    LongRangesAreAligned(Parenthesised, s[i]);
    AlignedMeans(Parenthesised, s[i].begin);
    AlignedMeans(Parenthesised, Taken(s, i, PAGES_PER_HUGEPAGE).begin);
  }

  // ----- Whole runs -----

  datatype Event =
    | Freed(given: Range)
    | Allocated(need: nat, index: nat, exact: bool)
    | Refused(need: nat)

  /** One call on a state: an exact request goes to a best fit; of a non-exact one only that it
      is met in full. */
  ghost predicate Step(m: Reading, s: seq<Range>, e: Event, s': seq<Range>) {
    match e
    case Freed(r) =>
      Insertable(s, r) && s' == Insert(m, s, r.begin, r.pages)
    case Allocated(need, i, exact) =>
      && i < |s| && 0 < need <= s[i].pages && (exact ==> Picks(m, s, Searched(need), need, i))
      && s' == Take(s, i, need)
    case Refused(need) =>
      Refuses(m, s, Searched(need), need) && s' == s
  }

  /** The pages an event hands to its caller. */
  ghost function Handed(s: seq<Range>, e: Event): set<nat> {
    if e.Allocated? && e.index < |s| then PagesOf(Taken(s, e.index, e.need)) else {}
  }

  ghost function Returned(e: Event): set<nat> {
    if e.Freed? then PagesOf(e.given) else {}
  }

  /** Free memory is neither made nor lost: each step moves exactly the pages it names. */
  lemma StepKeeps(m: Reading, s: seq<Range>, e: Event, s': seq<Range>)
    requires Invariant(m, s) && Step(m, s, e, s')
    ensures Invariant(m, s')
    ensures Handed(s, e) <= Free(s) && Returned(e) !! Free(s)
    ensures Free(s') == Free(s) - Handed(s, e) + Returned(e)
  {
    hide Invariant, Free, Insert, Take, Taken;
    match e
    case Freed(r) =>
      InsertKeeps(m, s, r.begin, r.pages);
    case Allocated(need, i, exact) =>
      InvariantSeparates(m, s);
      TakeForms(m, s, i, need);
      TakeMoves(s, i, need);
    case Refused(_) =>
  }

  /** A hugepage request that is served with pages that are not aligned, after pages 512 to 1024
      have been freed. */
  lemma HugepageMisaligned()
    ensures var s := [Range(512, 513)];
            && Step(Parenthesised, [], Freed(s[0]), s)
            && Picks(Parenthesised, s, Searched(PAGES_PER_HUGEPAGE), PAGES_PER_HUGEPAGE, 0)
            && Taken(s, 0, PAGES_PER_HUGEPAGE) == Range(513, 512) && !Aligned(Parenthesised, 513)
  {
    var r := Range(512, 513);
    AlignedMeans(Parenthesised, 512);
    AlignedMeans(Parenthesised, 513);
    SplitMeans(Parenthesised, 512);
    hide Aligned, SplitPages;
    AddRangeExactly(Parenthesised, [], r);
    assert PicksFrom(Parenthesised, [r], Searched(PAGES_PER_HUGEPAGE), PAGES_PER_HUGEPAGE, 0, 0);
  }

  ghost predicate IsRun(m: Reading, states: seq<seq<Range>>, events: seq<Event>) {
    && |states| == |events| + 1 && states[0] == []
    && forall k :: 0 <= k < |events| ==> Step(m, states[k], events[k], states[k + 1])
  }

  /** Every reachable state is well formed, whatever was freed, asked for and picked. */
  lemma {:induction false} RunKeeps(m: Reading, states: seq<seq<Range>>, events: seq<Event>, k: nat)
    requires IsRun(m, states, events) && k <= |events|
    ensures Invariant(m, states[k])
  {
    if k > 0 {
      RunKeeps(m, states, events, k - 1);
      assert Step(m, states[k - 1], events[k - 1], states[k - 1 + 1]);
      StepKeeps(m, states[k - 1], events[k - 1], states[k]);
    }
  }

  /** A page that becomes free between two states was returned by a caller in between. */
  lemma {:induction false} FreedBetween(m: Reading, states: seq<seq<Range>>, events: seq<Event>, a: nat, b: nat, p: nat)
    requires IsRun(m, states, events) && a <= b <= |events|
    requires p !in Free(states[a]) && p in Free(states[b])
    ensures exists l :: a <= l < b && p in Returned(events[l])
    decreases b - a
  {
    assert a < b;
    var c := b - 1;
    RunKeeps(m, states, events, c);
    assert Step(m, states[c], events[c], states[c + 1]);
    StepKeeps(m, states[c], events[c], states[b]);
    if p in Free(states[c]) {
      FreedBetween(m, states, events, a, c, p);
    }
  }

  /** No page is handed out twice without having been freed in between. */
  lemma NoDoubleHandOut(m: Reading, states: seq<seq<Range>>, events: seq<Event>, i: nat, j: nat, p: nat)
    requires IsRun(m, states, events) && i < j < |events|
    requires p in Handed(states[i], events[i]) && p in Handed(states[j], events[j])
    ensures exists l :: i < l < j && p in Returned(events[l])
  {
    RunKeeps(m, states, events, i);
    RunKeeps(m, states, events, j);
    assert Step(m, states[i], events[i], states[i + 1]);
    assert Step(m, states[j], events[j], states[j + 1]);
    StepKeeps(m, states[i], events[i], states[i + 1]);
    StepKeeps(m, states[j], events[j], states[j + 1]);
    FreedBetween(m, states, events, i + 1, j, p);
  }

  /** In no run does a record lie in pages that an allocation has just handed out. */
  lemma RecordsStayFree(m: Reading, states: seq<seq<Range>>, events: seq<Event>, k: nat)
    requires IsRun(m, states, events) && k < |events|
    ensures forall r :: r in states[k + 1] ==>
              r.begin in Free(states[k + 1]) && r.begin !in Handed(states[k], events[k])
  {
    RunKeeps(m, states, events, k);
    RunKeeps(m, states, events, k + 1);
    assert Step(m, states[k], events[k], states[k + 1]);
    StepKeeps(m, states[k], events[k], states[k + 1]);
    var s' := states[k + 1];
    forall r | r in s'
      ensures r.begin in Free(s') && r.begin !in Handed(states[k], events[k])
    {
      FreeMeans(s', r.begin);
      assert Holds(r, r.begin);
    }
  }
}
