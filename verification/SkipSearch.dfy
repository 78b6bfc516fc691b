/** What a skip-list search computes, stated on plain sequences: `ws` holds the weights of
    the gapless level 0 in order, `hs` the heights drawn for the same nodes.
    Positions count from the sentinel: position 0 is the sentinel, position p > 0 the
    p-th node, ws[p - 1]. */
module SkipSearch {

  const SIZE_MAX: nat := 0xFFFF_FFFF_FFFF_FFFF

  /** The unsigned 64-bit word (size_t, uintptr_t). */
  type SizeT = w: nat | w <= 0xFFFF_FFFF_FFFF_FFFF

  lemma SizeMaxIs()
    ensures SIZE_MAX == 0xFFFF_FFFF_FFFF_FFFF
  {
  }

  predicate Ascending(ws: seq<nat>) {
    forall i, j :: 0 <= i < j < |ws| ==> ws[i] <= ws[j]
  }

  /** The number of leading weights lighter than `w`. */
  function Rank(ws: seq<nat>, w: nat): (k: nat)
    ensures k <= |ws|
    ensures forall j :: 0 <= j < k ==> ws[j] < w
    ensures k < |ws| ==> w <= ws[k]
  {
    if ws == [] || ws[0] >= w then 0 else 1 + Rank(ws[1..], w)
  }

  /** Where the fast lanes (levels 1 and up) stop: the last of the first `k` nodes that is
      taller than one level, or the sentinel. */
  function Landing(hs: seq<nat>, k: nat): (p: nat)
    requires k <= |hs|
    ensures p <= k
  {
    if k == 0 then 0 else if hs[k - 1] > 1 then k else Landing(hs, k - 1)
  }

  function Distance(a: nat, b: nat): nat {
    if a > b then a - b else b - a
  }

  /** The level-0 walk of a non-exact search: advance while the distance does not grow. */
  function Scan(ws: seq<nat>, w: nat, p: nat, diff: nat): (q: nat)
    requires p <= |ws|
    ensures p <= q <= |ws|
    decreases |ws| - p
  {
    if p < |ws| && Distance(ws[p], w) <= diff then Scan(ws, w, p + 1, Distance(ws[p], w)) else p
  }

  lemma AscendingInsert(ws: seq<nat>, w: nat)
    requires Ascending(ws)
    ensures Ascending(ws[..Rank(ws, w)] + [w] + ws[Rank(ws, w)..])
  {
    var k := Rank(ws, w);
    var now := ws[..k] + [w] + ws[k..];
    forall i, j | 0 <= i < j < |now|
      ensures now[i] <= now[j]
    {
      assert now[i] == if i < k then ws[i] else if i == k then w else ws[i - 1];
      assert now[j] == if j < k then ws[j] else if j == k then w else ws[j - 1];
    }
  }

  lemma AscendingRemove(ws: seq<nat>, k: nat)
    requires Ascending(ws) && k < |ws|
    ensures Ascending(ws[..k] + ws[k + 1..])
  {
    var now := ws[..k] + ws[k + 1..];
    assert forall j :: 0 <= j < |now| ==> now[j] == if j < k then ws[j] else ws[j + 1];
  }

  lemma ScanStep(ws: seq<nat>, w: nat, p: nat, diff: nat)
    requires p <= |ws|
    ensures Scan(ws, w, p, diff) ==
            if p < |ws| && Distance(ws[p], w) <= diff then Scan(ws, w, p + 1, Distance(ws[p], w)) else p
  {
  }

  /** The position a non-exact search answers with; 0 stands for NULL. */
  function Closest(ws: seq<nat>, hs: seq<nat>, w: nat): (p: nat)
    requires |hs| == |ws|
    ensures p <= |ws|
  {
    Scan(ws, w, Landing(hs, Rank(ws, w)), SIZE_MAX)
  }

  lemma {:induction false} RankUnique(ws: seq<nat>, w: nat, k: nat)
    requires k <= |ws|
    requires forall j :: 0 <= j < k ==> ws[j] < w
    requires k < |ws| ==> w <= ws[k]
    ensures k == Rank(ws, w)
  {
    if k > 0 {
      RankUnique(ws[1..], w, k - 1);
    }
  }

  /** While the walk is at nodes no heavier than `w` it cannot stop: distances shrink. */
  lemma {:induction false} ScanThroughLighter(ws: seq<nat>, w: nat, p: nat, diff: nat)
    requires Ascending(ws) && p <= Rank(ws, w)
    requires p < |ws| ==> Distance(ws[p], w) <= diff
    ensures var k := Rank(ws, w);
            Scan(ws, w, p, diff) == Scan(ws, w, k, if p == k then diff else Distance(ws[k - 1], w))
    decreases Rank(ws, w) - p
  {
    var k := Rank(ws, w);
    if p < k {
      if p + 1 < k {
        ScanThroughLighter(ws, w, p + 1, Distance(ws[p], w));
      }
    }
  }

  /** From the first node not lighter than `w`, the walk passes exactly the nodes of that
      node's own weight. */
  lemma {:induction false} ScanAmongHeavier(ws: seq<nat>, w: nat, p: nat, k: nat)
    requires Ascending(ws) && k == Rank(ws, w) < p <= |ws| && ws[p - 1] == ws[k]
    ensures var q := Scan(ws, w, p, Distance(ws[k], w)); q >= p && ws[q - 1] == ws[k]
    decreases |ws| - p
  {
    if p < |ws| && Distance(ws[p], w) <= Distance(ws[k], w) {
      assert ws[k] <= ws[p];
      ScanAmongHeavier(ws, w, p + 1, k);
    }
  }

  /** What a non-exact search answers, by cases on the last lighter node. */
  lemma ClosestCases(ws: seq<nat>, hs: seq<nat>, w: nat)
    requires Ascending(ws) && |hs| == |ws| > 0
    requires w <= SIZE_MAX && forall j :: 0 <= j < |ws| ==> ws[j] <= SIZE_MAX
    ensures var k, p := Rank(ws, w), Closest(ws, hs, w);
            && p > 0
            && (k == |ws| ==> p == k)
            && (k < |ws| && (k == 0 || hs[k - 1] > 1 || Distance(ws[k], w) <= Distance(ws[k - 1], w)) ==>
                  ws[p - 1] == ws[k])
            && (0 < k < |ws| && hs[k - 1] <= 1 && Distance(ws[k], w) > Distance(ws[k - 1], w) ==> p == k)
  {
    var k := Rank(ws, w);
    var l := Landing(hs, k);
    ScanThroughLighter(ws, w, l, SIZE_MAX);
    var diff := if l == k then SIZE_MAX else Distance(ws[k - 1], w);
    if k < |ws| && Distance(ws[k], w) <= diff {
      ScanAmongHeavier(ws, w, k + 1, k);
    }
  }

  /** The answer is NULL only for an empty list, and is never farther from the request than
      any node at least as heavy as the request. */
  lemma ClosestBeatsHeavier(ws: seq<nat>, hs: seq<nat>, w: nat)
    requires Ascending(ws) && |hs| == |ws|
    requires w <= SIZE_MAX && forall j :: 0 <= j < |ws| ==> ws[j] <= SIZE_MAX
    ensures Closest(ws, hs, w) == 0 <==> ws == []
    ensures forall j :: 0 <= j < |ws| && ws[j] >= w ==>
              Distance(ws[Closest(ws, hs, w) - 1], w) <= Distance(ws[j], w)
  {
    if ws != [] {
      ClosestCases(ws, hs, w);
      var k := Rank(ws, w);
      forall j | 0 <= j < |ws| && ws[j] >= w
        ensures Distance(ws[Closest(ws, hs, w) - 1], w) <= Distance(ws[j], w)
      {
        assert k <= j;
        assert ws[k] <= ws[j];
      }
    }
  }

  /** The first node not lighter than `w` is reached: it exists, and the last lighter node is
      missing, tall, or not strictly closer. */
  predicate Reaches(ws: seq<nat>, hs: seq<nat>, w: nat)
    requires |hs| == |ws|
  {
    var k := Rank(ws, w);
    k < |ws| && (k == 0 || hs[k - 1] > 1 || Distance(ws[k], w) <= Distance(ws[k - 1], w))
  }

  /** The answer is at least as heavy as the request exactly then. */
  lemma ClosestSuffices(ws: seq<nat>, hs: seq<nat>, w: nat)
    requires Ascending(ws) && |hs| == |ws| > 0
    requires w <= SIZE_MAX && forall j :: 0 <= j < |ws| ==> ws[j] <= SIZE_MAX
    ensures Closest(ws, hs, w) > 0 && (ws[Closest(ws, hs, w) - 1] >= w <==> Reaches(ws, hs, w))
  {
    hide Closest, Ascending;
    ClosestCases(ws, hs, w);
  }

  /** The documented promise "weight closest to requested". */
  ghost predicate ClosestOverall(ws: seq<nat>, w: nat, p: nat) {
    0 < p <= |ws| && forall j :: 0 <= j < |ws| ==> Distance(ws[p - 1], w) <= Distance(ws[j], w)
  }

  /** The fast lanes do not land on the last lighter node while it is strictly closer than the
      first node that is not lighter. */
  predicate NearestConsidered(ws: seq<nat>, hs: seq<nat>, w: nat)
    requires |hs| == |ws|
  {
    var k := Rank(ws, w);
    k == 0 || k == |ws| || hs[k - 1] <= 1 || Distance(ws[k], w) <= Distance(ws[k - 1], w)
  }

  /** The promise holds exactly then. */
  lemma ClosestOverallExactly(ws: seq<nat>, hs: seq<nat>, w: nat)
    requires Ascending(ws) && |hs| == |ws| > 0
    requires w <= SIZE_MAX && forall j :: 0 <= j < |ws| ==> ws[j] <= SIZE_MAX
    ensures ClosestOverall(ws, w, Closest(ws, hs, w)) <==> NearestConsidered(ws, hs, w)
  {
    hide Closest, Ascending;
    ClosestCases(ws, hs, w);
    var k, p := Rank(ws, w), Closest(ws, hs, w);
    forall j | 0 <= j < |ws|
      ensures j < k ==> Distance(ws[k - 1], w) <= Distance(ws[j], w)
      ensures k <= j ==> Distance(ws[k], w) <= Distance(ws[j], w)
    {
      Nearest(ws, w, j);
    }
  }

  lemma Nearest(ws: seq<nat>, w: nat, j: nat)
    requires Ascending(ws) && j < |ws|
    ensures var k := Rank(ws, w);
            if j < k then Distance(ws[k - 1], w) <= Distance(ws[j], w) else Distance(ws[k], w) <= Distance(ws[j], w)
  {
    var k := Rank(ws, w);
    assert if j < k then ws[j] <= ws[k - 1] else ws[k] <= ws[j];
  }

  /** A request of 10 against a tall node of weight 9 and a node of weight 100 is answered
      with 100. */
  lemma ClosestOverallFails()
    ensures var ws, hs := [9, 100], [2, 1];
            Closest(ws, hs, 10) == 2 && !ClosestOverall(ws, 10, Closest(ws, hs, 10))
  {
    var ws: seq<nat>, hs: seq<nat> := [9, 100], [2, 1];
    RankUnique(ws, 10, 1);
    ClosestOverallExactly(ws, hs, 10);
    ClosestCases(ws, hs, 10);
  }
}
