/** The generic in-place heapsort. Node `k` has the children `2k` and `2k + 1`, counted from 0, so
    that node 0 is its own left child and its only other child is node 1. */
module Heapsort {

  // ----- Order -----

  /** What the caller's comparison must be: `cmp(x, y)` says that x comes before y. */
  ghost predicate StrictWeakOrder<T(!new)>(cmp: (T, T) -> bool) {
    (forall x, y {:trigger cmp(x, y)} :: !(cmp(x, y) && cmp(y, x))) &&
    (forall x, y, z {:trigger cmp(x, y), cmp(y, z)} :: !cmp(x, y) && !cmp(y, z) ==> !cmp(x, z))
  }

  ghost predicate Sorted<T>(s: seq<T>, cmp: (T, T) -> bool) {
    forall j, k :: 0 <= j < k < |s| ==> !cmp(s[k], s[j])
  }

  // ----- Heapify -----

  /** The largest of node `id` and its children below `count`. */
  function Largest<T>(s: seq<T>, id: nat, count: nat, cmp: (T, T) -> bool): (m: nat)
    requires count <= |s|
    ensures m == id || (id < m < count && m / 2 == id)
  {
    var left := if 2 * id < count && cmp(s[id], s[2 * id]) then 2 * id else id;
    if 2 * id + 1 < count && cmp(s[left], s[2 * id + 1]) then 2 * id + 1 else left
  }

  /** A node gives way only to a child that exceeds it, and of two such children that are level it
      is the left one that moves up. */
  lemma LargestExceeds<T(!new)>(s: seq<T>, id: nat, count: nat, cmp: (T, T) -> bool)
    requires StrictWeakOrder(cmp) && count <= |s|
    ensures var m := Largest(s, id, count, cmp);
            && (m != id ==> cmp(s[id], s[m]))
            && (m != id ==> forall c :: 1 <= c < m && c / 2 == id ==> cmp(s[c], s[m]))
            && (forall c :: 1 <= c < count && c / 2 == id ==> !cmp(s[m], s[c]))
  {
    var left, m := 2 * id, Largest(s, id, count, cmp);
    forall c | 1 <= c < count && c / 2 == id
      ensures c == left || c == left + 1
    {
    }
    if m == left + 1 && 1 <= left && !cmp(s[id], s[left]) {
      assert cmp(s[id], s[m]);
    }
  }

  function Swapped<T>(s: seq<T>, i: nat, j: nat): (r: seq<T>)
    requires i < |s| && j < |s|
    ensures |r| == |s|
  {
    s[i := s[j]][j := s[i]]
  }

  /** Heapify on a sequence. */
  function Sift<T>(s: seq<T>, id: nat, count: nat, cmp: (T, T) -> bool): (r: seq<T>)
    requires count <= |s|
    ensures |r| == |s|
    decreases if id < count then count - id else 0
  {
    var m := Largest(s, id, count, cmp);
    if m == id then s else Sift(Swapped(s, id, m), m, count, cmp)
  }

  /** Node `c` does not exceed its parent. */
  predicate Obeys<T>(s: seq<T>, c: nat, cmp: (T, T) -> bool)
    requires c < |s|
  {
    !cmp(s[c / 2], s[c])
  }

  /** The first `count` nodes obey wherever the parent is at least `lo`. */
  ghost predicate Heap<T>(s: seq<T>, lo: nat, count: nat, cmp: (T, T) -> bool)
    requires count <= |s|
  {
    forall c {:trigger Obeys(s, c, cmp)} :: 1 <= c < count && c / 2 >= lo ==> Obeys(s, c, cmp)
  }

  /** Only node `id` is out of place: all nodes obey but its children, and these still lie below
      the parent of `id`. */
  ghost predicate HeapBut<T>(s: seq<T>, id: nat, lo: nat, count: nat, cmp: (T, T) -> bool)
    requires count <= |s|
  {
    (forall c {:trigger Obeys(s, c, cmp)} :: 1 <= c < count && c / 2 >= lo && c / 2 != id ==> Obeys(s, c, cmp)) &&
    (id >= 1 && id / 2 >= lo ==>
       forall c {:trigger s[c]} :: 1 <= c < count && c / 2 == id ==> !cmp(s[id / 2], s[c]))
  }

  lemma {:induction false} SiftPermutes<T>(s: seq<T>, id: nat, count: nat, cmp: (T, T) -> bool)
    requires count <= |s|
    ensures multiset(Sift(s, id, count, cmp)) == multiset(s)
    decreases if id < count then count - id else 0
  {
    var m := Largest(s, id, count, cmp);
    if m != id {
      SiftPermutes(Swapped(s, id, m), m, count, cmp);
    }
  }

  lemma {:induction false} SiftKeeps<T>(s: seq<T>, id: nat, count: nat, cmp: (T, T) -> bool, k: nat)
    requires count <= |s| && k < |s| && (k < id || count <= k)
    ensures Sift(s, id, count, cmp)[k] == s[k]
    decreases if id < count then count - id else 0
  {
    var m := Largest(s, id, count, cmp);
    if m != id {
      SiftKeeps(Swapped(s, id, m), m, count, cmp, k);
    }
  }

  /** Each of the first `count` elements came from among the first `count`. */
  lemma {:induction false} SiftComesFrom<T>(s: seq<T>, id: nat, count: nat, cmp: (T, T) -> bool, k: nat)
    returns (from: nat)
    requires k < count <= |s|
    ensures from < count && Sift(s, id, count, cmp)[k] == s[from]
    decreases if id < count then count - id else 0
  {
    var m := Largest(s, id, count, cmp);
    if m == id {
      from := k;
    } else {
      from := SiftComesFrom(Swapped(s, id, m), m, count, cmp, k);
      from := if from == id then m else if from == m then id else from;
    }
  }

  lemma SwapStep<T(!new)>(s: seq<T>, id: nat, lo: nat, count: nat, cmp: (T, T) -> bool)
    requires StrictWeakOrder(cmp) && lo <= id && count <= |s|
    requires Largest(s, id, count, cmp) != id
    ensures var m := Largest(s, id, count, cmp);
            HeapBut(s, id, lo, count, cmp) <==> HeapBut(Swapped(s, id, m), m, lo, count, cmp)
  {
    if HeapBut(s, id, lo, count, cmp) {
      SwapKeeps(s, id, lo, count, cmp);
    }
    var m := Largest(s, id, count, cmp);
    if HeapBut(Swapped(s, id, m), m, lo, count, cmp) {
      SwapReflects(s, id, lo, count, cmp);
    }
  }

  lemma SwapKeeps<T(!new)>(s: seq<T>, id: nat, lo: nat, count: nat, cmp: (T, T) -> bool)
    requires StrictWeakOrder(cmp) && lo <= id && count <= |s| && HeapBut(s, id, lo, count, cmp)
    requires Largest(s, id, count, cmp) != id
    ensures var m := Largest(s, id, count, cmp); HeapBut(Swapped(s, id, m), m, lo, count, cmp)
  {
    var m := Largest(s, id, count, cmp);
    var t := Swapped(s, id, m);
    forall c | 1 <= c < count && c / 2 >= lo && c / 2 != m ensures Obeys(t, c, cmp) {
      if c / 2 == id {
        assert !cmp(s[m], s[c]);
      } else {
        assert Obeys(s, c, cmp);
      }
    }
    forall c | 1 <= c < count && c / 2 == m ensures !cmp(t[m / 2], t[c]) {
      assert Obeys(s, c, cmp);
    }
  }

  lemma SwapReflects<T(!new)>(s: seq<T>, id: nat, lo: nat, count: nat, cmp: (T, T) -> bool)
    requires StrictWeakOrder(cmp) && lo <= id && count <= |s| && Largest(s, id, count, cmp) != id
    requires var m := Largest(s, id, count, cmp); HeapBut(Swapped(s, id, m), m, lo, count, cmp)
    ensures HeapBut(s, id, lo, count, cmp)
  {
    var m := Largest(s, id, count, cmp);
    var t := Swapped(s, id, m);
    assert !cmp(s[m], s[id]);
    forall c | 1 <= c < count && c / 2 >= lo && c / 2 != id ensures Obeys(s, c, cmp) {
      if c / 2 == m {
        assert t[m / 2] == s[m] && t[c] == s[c];
      } else {
        assert Obeys(t, c, cmp);
      }
    }
    if id >= 1 && id / 2 >= lo {
      assert Obeys(t, id, cmp);
      forall c | 1 <= c < count && c / 2 == id ensures !cmp(s[id / 2], s[c]) {
        assert !cmp(s[m], s[c]);
      }
    }
  }

  lemma NoSwap<T(!new)>(s: seq<T>, id: nat, lo: nat, count: nat, cmp: (T, T) -> bool)
    requires StrictWeakOrder(cmp) && count <= |s| && Largest(s, id, count, cmp) == id
    ensures HeapBut(s, id, lo, count, cmp) <==> Heap(s, lo, count, cmp)
  {
    if HeapBut(s, id, lo, count, cmp) {
      forall c | 1 <= c < count && c / 2 >= lo ensures Obeys(s, c, cmp) {
      }
    }
    if Heap(s, lo, count, cmp) && id >= 1 && id / 2 >= lo {
      forall c | 1 <= c < count && c / 2 == id ensures !cmp(s[id / 2], s[c]) {
        assert Obeys(s, id, cmp) && Obeys(s, c, cmp);
      }
    }
  }

  /** Heapify leaves a heap if and only if no more than node `id` was out of place. */
  lemma {:induction false} SiftRestores<T(!new)>(s: seq<T>, id: nat, lo: nat, count: nat, cmp: (T, T) -> bool)
    requires StrictWeakOrder(cmp) && lo <= id && count <= |s|
    ensures HeapBut(s, id, lo, count, cmp) <==> Heap(Sift(s, id, count, cmp), lo, count, cmp)
    decreases if id < count then count - id else 0
  {
    hide HeapBut, Heap, StrictWeakOrder, Largest;
    var m := Largest(s, id, count, cmp);
    if m == id {
      NoSwap(s, id, lo, count, cmp);
    } else {
      SwapStep(s, id, lo, count, cmp);
      SiftRestores(Swapped(s, id, m), m, lo, count, cmp);
    }
  }

  // ----- Extraction -----

  /** The second loop with `n` elements left in the heap. */
  function Extract<T>(s: seq<T>, n: nat, cmp: (T, T) -> bool): (r: seq<T>)
    requires n <= |s|
    ensures |r| == |s|
    decreases n
  {
    if n == 0 then s else Extract(Sift(Swapped(s, 0, n - 1), 0, n - 1, cmp), n - 1, cmp)
  }

  lemma {:induction false} RootIsLargest<T(!new)>(s: seq<T>, count: nat, cmp: (T, T) -> bool, k: nat)
    requires StrictWeakOrder(cmp) && k < count <= |s| && Heap(s, 0, count, cmp)
    ensures !cmp(s[0], s[k])
  {
    if k > 0 {
      RootIsLargest(s, count, cmp, k / 2);
      assert Obeys(s, k, cmp);
    }
  }

  /** From position `n` on, every element is in its final place. */
  ghost predicate Settled<T>(s: seq<T>, n: nat, cmp: (T, T) -> bool) {
    forall j, k :: 0 <= j < k < |s| && n <= k ==> !cmp(s[k], s[j])
  }

  lemma ExtractStep<T(!new)>(s: seq<T>, n: nat, cmp: (T, T) -> bool)
    requires StrictWeakOrder(cmp) && 0 < n <= |s| && Heap(s, 0, n, cmp) && Settled(s, n, cmp)
    ensures var t := Sift(Swapped(s, 0, n - 1), 0, n - 1, cmp);
            Heap(t, 0, n - 1, cmp) && Settled(t, n - 1, cmp)
  {
    HeapAfterSwap(s, n, cmp);
    forall k | 0 <= k < n ensures !cmp(s[0], s[k]) {
      RootIsLargest(s, n, cmp, k);
    }
    hide Heap;
    SettledStep(s, n, cmp);
  }

  /** Taking the last of `n` nodes to the root and sifting it down leaves a heap of the others, if
      these obeyed. */
  lemma HeapAfterSwap<T(!new)>(s: seq<T>, n: nat, cmp: (T, T) -> bool)
    requires StrictWeakOrder(cmp) && 0 < n <= |s| && Heap(s, 0, n - 1, cmp)
    ensures Heap(Sift(Swapped(s, 0, n - 1), 0, n - 1, cmp), 0, n - 1, cmp)
  {
    var u := Swapped(s, 0, n - 1);
    assert HeapBut(u, 0, 0, n - 1, cmp) by {
      forall c | 1 <= c < n - 1 && c / 2 != 0 ensures Obeys(u, c, cmp) {
        assert Obeys(s, c, cmp);
      }
    }
    SiftRestores(u, 0, 0, n - 1, cmp);
  }

  lemma SettledStep<T(!new)>(s: seq<T>, n: nat, cmp: (T, T) -> bool)
    requires 0 < n <= |s| && Settled(s, n, cmp) && forall k :: 0 <= k < n ==> !cmp(s[0], s[k])
    ensures Settled(Sift(Swapped(s, 0, n - 1), 0, n - 1, cmp), n - 1, cmp)
  {
    hide Sift;
    var u := Swapped(s, 0, n - 1);
    var t := Sift(u, 0, n - 1, cmp);
    forall j, k | 0 <= j < k < |s| && n - 1 <= k ensures !cmp(t[k], t[j]) {
      SiftKeeps(u, 0, n - 1, cmp, k);
      var from := j;
      if j < n - 1 {
        from := SiftComesFrom(u, 0, n - 1, cmp, j);
      } else {
        SiftKeeps(u, 0, n - 1, cmp, j);
      }
      assert t[j] == u[from];
      var source := if from == 0 then n - 1 else if from == n - 1 then 0 else from;
      assert u[from] == s[source];
    }
  }

  /** From a heap the second loop sorts. */
  lemma {:induction false} ExtractSorts<T(!new)>(s: seq<T>, n: nat, cmp: (T, T) -> bool)
    requires StrictWeakOrder(cmp) && n <= |s| && Heap(s, 0, n, cmp) && Settled(s, n, cmp)
    ensures Sorted(Extract(s, n, cmp), cmp)
    decreases n
  {
    hide Heap, Sift, StrictWeakOrder;
    if n > 0 {
      ExtractStep(s, n, cmp);
      ExtractSorts(Sift(Swapped(s, 0, n - 1), 0, n - 1, cmp), n - 1, cmp);
    }
  }

  lemma SwapPermutes<T>(s: seq<T>, i: nat, j: nat)
    requires i < |s| && j < |s|
    ensures multiset(Swapped(s, i, j)) == multiset(s)
  {
  }

  lemma {:induction false} ExtractPermutes<T>(s: seq<T>, n: nat, cmp: (T, T) -> bool)
    requires n <= |s|
    ensures multiset(Extract(s, n, cmp)) == multiset(s)
    decreases n
  {
    hide Sift, Swapped;
    if n > 0 {
      var u := Swapped(s, 0, n - 1);
      SwapPermutes(s, 0, n - 1);
      SiftPermutes(u, 0, n - 1, cmp);
      ExtractPermutes(Sift(u, 0, n - 1, cmp), n - 1, cmp);
    }
  }

  lemma {:induction false} ExtractKeeps<T>(s: seq<T>, n: nat, cmp: (T, T) -> bool, k: nat)
    requires n <= k < |s|
    ensures Extract(s, n, cmp)[k] == s[k]
    decreases n
  {
    if n > 0 {
      var u := Swapped(s, 0, n - 1);
      SiftKeeps(u, 0, n - 1, cmp, k);
      ExtractKeeps(Sift(u, 0, n - 1, cmp), n - 1, cmp, k);
    }
  }

  // ----- The first loop -----

  /** The first loop as written, from node `i` up. */
  function BuildUp<T>(s: seq<T>, i: nat, cmp: (T, T) -> bool): (r: seq<T>)
    ensures |r| == |s|
    decreases |s| - i
  {
    if i >= |s| / 2 then s else BuildUp(Sift(s, i, |s|, cmp), i + 1, cmp)
  }

  /** The repaired first loop: `k` nodes, the last first. */
  function BuildDown<T>(s: seq<T>, k: nat, cmp: (T, T) -> bool): (r: seq<T>)
    ensures |r| == |s|
    decreases k
  {
    if k == 0 then s else BuildDown(Sift(s, k - 1, |s|, cmp), k - 1, cmp)
  }

  lemma {:induction false} BuildUpPermutes<T>(s: seq<T>, i: nat, cmp: (T, T) -> bool)
    ensures multiset(BuildUp(s, i, cmp)) == multiset(s)
    decreases |s| - i
  {
    if i < |s| / 2 {
      SiftPermutes(s, i, |s|, cmp);
      BuildUpPermutes(Sift(s, i, |s|, cmp), i + 1, cmp);
    }
  }

  lemma {:induction false} BuildDownPermutes<T>(s: seq<T>, k: nat, cmp: (T, T) -> bool)
    ensures multiset(BuildDown(s, k, cmp)) == multiset(s)
    decreases k
  {
    if k > 0 {
      SiftPermutes(s, k - 1, |s|, cmp);
      BuildDownPermutes(Sift(s, k - 1, |s|, cmp), k - 1, cmp);
    }
  }

  /** The repaired loop makes a heap of anything. */
  lemma {:induction false} BuildDownMakesHeap<T(!new)>(s: seq<T>, k: nat, cmp: (T, T) -> bool)
    requires StrictWeakOrder(cmp) && Heap(s, k, |s|, cmp)
    ensures Heap(BuildDown(s, k, cmp), 0, |s|, cmp)
    decreases k
  {
    if k > 0 {
      assert HeapBut(s, k - 1, k - 1, |s|, cmp);
      SiftRestores(s, k - 1, k - 1, |s|, cmp);
      BuildDownMakesHeap(Sift(s, k - 1, |s|, cmp), k - 1, cmp);
    }
  }

  /** The loop as written leaves alone what obeys in the nodes that it looks at, which for an odd
      number of nodes are all but the last; ... */
  lemma {:induction false} BuildUpKeepsHeap<T(!new)>(s: seq<T>, i: nat, cmp: (T, T) -> bool)
    requires StrictWeakOrder(cmp) && Heap(s, i, |s| / 2 * 2, cmp)
    ensures BuildUp(s, i, cmp) == s
    decreases |s| - i
  {
    if i < |s| / 2 {
      if i >= 1 {
        assert Obeys(s, 2 * i, cmp);
      }
      assert Obeys(s, 2 * i + 1, cmp);
      assert Sift(s, i, |s|, cmp) == s;
      BuildUpKeepsHeap(s, i + 1, cmp);
    }
  }

  /** ... and never moves a node once it has passed it. */
  lemma {:induction false} BuildUpKeeps<T>(s: seq<T>, i: nat, cmp: (T, T) -> bool, k: nat)
    requires k < i && k < |s|
    ensures BuildUp(s, i, cmp)[k] == s[k]
    decreases |s| - i
  {
    if i < |s| / 2 {
      SiftKeeps(s, i, |s|, cmp, k);
      BuildUpKeeps(Sift(s, i, |s|, cmp), i + 1, cmp, k);
    }
  }

  // ----- The whole routine -----

  function Sorting<T>(s: seq<T>, cmp: (T, T) -> bool): (r: seq<T>)
    ensures |r| == |s|
  {
    Extract(BuildUp(s, 0, cmp), |s|, cmp)
  }

  function RepairedSorting<T>(s: seq<T>, cmp: (T, T) -> bool): (r: seq<T>)
    ensures |r| == |s|
  {
    Extract(BuildDown(s, (|s| + 1) / 2, cmp), |s|, cmp)
  }

  /** Whatever the comparison, the routine permutes. */
  lemma SortingPermutes<T>(s: seq<T>, cmp: (T, T) -> bool)
    ensures multiset(Sorting(s, cmp)) == multiset(s)
  {
    BuildUpPermutes(s, 0, cmp);
    ExtractPermutes(BuildUp(s, 0, cmp), |s|, cmp);
  }

  /** With the first loop repaired it sorts every input. */
  lemma RepairedSortingSorts<T(!new)>(s: seq<T>, cmp: (T, T) -> bool)
    requires StrictWeakOrder(cmp)
    ensures Sorted(RepairedSorting(s, cmp), cmp)
    ensures multiset(RepairedSorting(s, cmp)) == multiset(s)
  {
    var k := (|s| + 1) / 2;
    assert Heap(s, k, |s|, cmp);
    BuildDownMakesHeap(s, k, cmp);
    BuildDownPermutes(s, k, cmp);
    ExtractSorts(BuildDown(s, k, cmp), |s|, cmp);
    ExtractPermutes(BuildDown(s, k, cmp), |s|, cmp);
  }

  /** As written it sorts an input that is a heap already. */
  lemma SortsHeaps<T(!new)>(s: seq<T>, cmp: (T, T) -> bool)
    requires StrictWeakOrder(cmp) && Heap(s, 0, |s|, cmp)
    ensures Sorted(Sorting(s, cmp), cmp)
  {
    HeapPart(s, 0, |s|, |s| / 2 * 2, cmp);
    BuildUpKeepsHeap(s, 0, cmp);
    ExtractSorts(s, |s|, cmp);
  }

  /** As written, the last element is always the larger of the first two. */
  lemma LastOfSorting<T>(s: seq<T>, cmp: (T, T) -> bool)
    requires |s| >= 2 && !cmp(s[0], s[0])
    ensures Sorting(s, cmp)[|s| - 1] == if cmp(s[0], s[1]) then s[1] else s[0]
  {
    var n := |s|;
    var m := Largest(s, 0, n, cmp);
    var t := Sift(s, 0, n, cmp);
    if m != 0 {
      SiftKeeps(Swapped(s, 0, m), m, n, cmp, 0);
    }
    assert t[0] == if cmp(s[0], s[1]) then s[1] else s[0];
    BuildUpKeeps(t, 1, cmp, 0);
    var u := BuildUp(s, 0, cmp);
    assert u == BuildUp(t, 1, cmp);
    SiftKeeps(Swapped(u, 0, n - 1), 0, n - 1, cmp, n - 1);
    ExtractKeeps(Sift(Swapped(u, 0, n - 1), 0, n - 1, cmp), n - 1, cmp, n - 1);
  }

  /** So it fails on every input with an element above its first two. */
  lemma FailsUnlessFirstTwoHoldLargest<T(!new)>(s: seq<T>, cmp: (T, T) -> bool, k: nat)
    requires StrictWeakOrder(cmp) && 2 <= k < |s| && cmp(s[0], s[k]) && cmp(s[1], s[k])
    ensures !Sorted(Sorting(s, cmp), cmp)
  {
    LastOfSorting(s, cmp);
    SortingPermutes(s, cmp);
    var r := Sorting(s, cmp);
    assert s[k] in multiset(r);
    var j :| 0 <= j < |r| && r[j] == s[k];
    assert cmp(r[|r| - 1], r[j]);
  }

  lemma HeapPart<T>(s: seq<T>, lo: nat, count: nat, part: nat, cmp: (T, T) -> bool)
    requires part <= count <= |s| && Heap(s, lo, count, cmp)
    ensures Heap(s, lo, part, cmp)
  {
  }

  lemma SwapTakesLarger<T(!new)>(s: seq<T>, id: nat, count: nat, cmp: (T, T) -> bool)
    requires StrictWeakOrder(cmp) && count <= |s| && Largest(s, id, count, cmp) != id
    ensures s[Largest(s, id, count, cmp)] != s[id]
  {
  }

  lemma NoneLarger<T(!new)>(s: seq<T>, id: nat, count: nat, cmp: (T, T) -> bool, c: nat)
    requires StrictWeakOrder(cmp) && 1 <= c < count <= |s| && c / 2 == id && Largest(s, id, count, cmp) == id
    ensures Obeys(s, c, cmp)
  {
  }

  lemma {:induction false} UnmovedMeansHeap<T(!new)>(s: seq<T>, i: nat, cmp: (T, T) -> bool)
    requires StrictWeakOrder(cmp) && BuildUp(s, i, cmp) == s
    ensures Heap(s, i, |s| / 2 * 2, cmp)
    decreases |s| - i
  {
    if i < |s| / 2 {
      var n, m := |s|, Largest(s, i, |s|, cmp);
      if m != i {
        SwapTakesLarger(s, i, n, cmp);
        SiftKeeps(Swapped(s, i, m), m, n, cmp, i);
        BuildUpKeeps(Sift(s, i, n, cmp), i + 1, cmp, i);
        assert false;
      }
      UnmovedMeansHeap(s, i + 1, cmp);
      hide Largest, StrictWeakOrder;
      forall c | 1 <= c < n / 2 * 2 && c / 2 >= i ensures Obeys(s, c, cmp) {
        if c / 2 == i {
          NoneLarger(s, i, n, cmp, c);
        }
      }
    }
  }

  /** The first loop as written looks at exactly the nodes below `count / 2` and their children: it
      leaves an array alone if and only if these obey. */
  lemma BuildUpKeepsExactly<T(!new)>(s: seq<T>, cmp: (T, T) -> bool)
    requires StrictWeakOrder(cmp)
    ensures BuildUp(s, 0, cmp) == s <==> Heap(s, 0, |s| / 2 * 2, cmp)
  {
    if BuildUp(s, 0, cmp) == s {
      UnmovedMeansHeap(s, 0, cmp);
    }
    if Heap(s, 0, |s| / 2 * 2, cmp) {
      BuildUpKeepsHeap(s, 0, cmp);
    }
  }

  /** Nodes before the one that is out of place stay put. */
  lemma {:induction false} BuildUpReaches<T(!new)>(s: seq<T>, k: nat, i: nat, cmp: (T, T) -> bool)
    requires StrictWeakOrder(cmp) && k <= i < |s| / 2 && HeapBut(s, i, 0, |s|, cmp)
    ensures BuildUp(s, k, cmp) == BuildUp(s, i, cmp)
    decreases i - k
  {
    if k < i {
      if k >= 1 {
        assert Obeys(s, 2 * k, cmp);
      }
      assert Obeys(s, 2 * k + 1, cmp);
      assert Sift(s, k, |s|, cmp) == s;
      BuildUpReaches(s, k + 1, i, cmp);
    }
  }

  /** As written, it sorts every input in which no more than one node that the first loop visits is
      out of place. */
  lemma SortsOneOutOfPlace<T(!new)>(s: seq<T>, cmp: (T, T) -> bool, i: nat)
    requires StrictWeakOrder(cmp) && i < |s| / 2 && HeapBut(s, i, 0, |s|, cmp)
    ensures BuildUp(s, 0, cmp) == Sift(s, i, |s|, cmp) && Heap(BuildUp(s, 0, cmp), 0, |s|, cmp)
    ensures Sorted(Sorting(s, cmp), cmp)
  {
    hide StrictWeakOrder, HeapBut, Heap, Sift, Sorted;
    BuildUpReaches(s, 0, i, cmp);
    SiftRestores(s, i, 0, |s|, cmp);
    var t := Sift(s, i, |s|, cmp);
    HeapFrom(t, i + 1, cmp);
    BuildUpKeepsHeap(t, i + 1, cmp);
    AllSettled(t, cmp);
    ExtractSorts(t, |s|, cmp);
  }

  lemma HeapFrom<T>(s: seq<T>, i: nat, cmp: (T, T) -> bool)
    requires Heap(s, 0, |s|, cmp)
    ensures Heap(s, i, |s| / 2 * 2, cmp)
  {
  }

  lemma AllSettled<T>(s: seq<T>, cmp: (T, T) -> bool)
    ensures Settled(s, |s|, cmp)
  {
  }

  /** When all nodes that the first loop looks at obey, the routine sorts if and only if the last
      element does not exceed the first. */
  lemma SortsExactlyBelowRoot<T(!new)>(s: seq<T>, cmp: (T, T) -> bool)
    requires StrictWeakOrder(cmp) && |s| > 0 && Heap(s, 0, |s| / 2 * 2, cmp)
    ensures Sorted(Sorting(s, cmp), cmp) <==> !cmp(s[0], s[|s| - 1])
  {
    var n := |s|;
    BuildUpKeepsHeap(s, 0, cmp);
    if n % 2 == 0 {
      SortsHeaps(s, cmp);
      RootIsLargest(s, n, cmp, n - 1);
    } else if cmp(s[0], s[n - 1]) {
      assert n >= 3 && Obeys(s, 1, cmp);
      FailsUnlessFirstTwoHoldLargest(s, cmp, n - 1);
    } else {
      forall k | 0 <= k < n ensures !cmp(s[0], s[k]) {
        if k < n - 1 {
          RootIsLargest(s, n - 1, cmp, k);
        }
      }
      HeapAfterSwap(s, n, cmp);
      AllSettled(s, cmp);
      SettledStep(s, n, cmp);
      ExtractSorts(Sift(Swapped(s, 0, n - 1), 0, n - 1, cmp), n - 1, cmp);
    }
  }

  function Less(): (int, int) -> bool { (x: int, y: int) => x < y }

  lemma LessIsStrict()
    ensures StrictWeakOrder(Less())
  {
  }

  /** Up to length 2 it sorts every input, beyond that it does not. */
  lemma SortsEveryInputOfLength(n: nat)
    ensures (forall s: seq<int> :: |s| == n ==> Sorted(Sorting(s, Less()), Less())) <==> n <= 2
  {
    hide *;
    if n <= 2 {
      forall s: seq<int> | |s| == n ensures Sorted(Sorting(s, Less()), Less()) {
        ShortSorted(s);
      }
    } else {
      var s := FailingInput(n);
    }
  }

  lemma FailingInput(n: nat) returns (s: seq<int>)
    requires n > 2
    ensures |s| == n && !Sorted(Sorting(s, Less()), Less())
  {
    hide Sorting, Sorted;
    LessIsStrict();
    s := seq(n, i => i);
    FailsUnlessFirstTwoHoldLargest(s, Less(), 2);
  }

  lemma ShortSorted(s: seq<int>)
    requires |s| <= 2
    ensures Sorted(Sorting(s, Less()), Less())
  {
    LessIsStrict();
    var u := BuildUp(s, 0, Less());
    if |s| == 2 {
      assert HeapBut(s, 0, 0, 2, Less());
      SiftRestores(s, 0, 0, 2, Less());
      assert u == BuildUp(Sift(s, 0, 2, Less()), 1, Less());
    }
    ExtractSorts(u, |s|, Less());
  }

  // ----- In place -----

  method Swap<T>(a: array<T>, i: nat, j: nat)
    requires i < a.Length && j < a.Length
    modifies a
    ensures a[..] == Swapped(old(a[..]), i, j)
  {
    a[i], a[j] := a[j], a[i];
  }

  method Heapify<T(!new)>(a: array<T>, id: nat, count: nat, cmp: (T, T) -> bool)
    requires count <= a.Length
    modifies a
    ensures a[..] == Sift(old(a[..]), id, count, cmp)
    ensures multiset(a[..]) == multiset(old(a[..]))
    ensures forall k {:trigger a[k]} :: 0 <= k < a.Length && (k < id || count <= k) ==> a[k] == old(a[k])
    ensures StrictWeakOrder(cmp) ==> forall lo: nat {:trigger Heap(a[..], lo, count, cmp)} ::
      lo <= id ==> (HeapBut(old(a[..]), id, lo, count, cmp) <==> Heap(a[..], lo, count, cmp))
    decreases if id < count then count - id else 0
  {
    var largest := id;
    var left := id * 2;
    var right := id * 2 + 1;
    if left < count && cmp(a[largest], a[left]) {
      largest := left;
    }
    if right < count && cmp(a[largest], a[right]) {
      largest := right;
    }
    assert largest == Largest(a[..], id, count, cmp);
    if largest != id {
      Swap(a, id, largest);
      Heapify(a, largest, count, cmp);
    }
    SiftMeans(old(a[..]), id, count, cmp);
  }

  lemma SiftMeans<T(!new)>(s: seq<T>, id: nat, count: nat, cmp: (T, T) -> bool)
    requires count <= |s|
    ensures multiset(Sift(s, id, count, cmp)) == multiset(s)
    ensures forall k :: 0 <= k < |s| && (k < id || count <= k) ==> Sift(s, id, count, cmp)[k] == s[k]
    ensures StrictWeakOrder(cmp) ==> forall lo: nat {:trigger Heap(Sift(s, id, count, cmp), lo, count, cmp)} ::
      lo <= id ==> (HeapBut(s, id, lo, count, cmp) <==> Heap(Sift(s, id, count, cmp), lo, count, cmp))
  {
    hide *;
    SiftPermutes(s, id, count, cmp);
    forall k | 0 <= k < |s| && (k < id || count <= k) ensures Sift(s, id, count, cmp)[k] == s[k] {
      SiftKeeps(s, id, count, cmp, k);
    }
    if StrictWeakOrder(cmp) {
      forall lo: nat | lo <= id
        ensures HeapBut(s, id, lo, count, cmp) <==> Heap(Sift(s, id, count, cmp), lo, count, cmp)
      {
        SiftRestores(s, id, lo, count, cmp);
      }
    }
  }

  method ExtractAll<T(!new)>(a: array<T>, cmp: (T, T) -> bool)
    modifies a
    ensures a[..] == Extract(old(a[..]), a.Length, cmp)
    ensures multiset(a[..]) == multiset(old(a[..]))
    ensures StrictWeakOrder(cmp) && Heap(old(a[..]), 0, a.Length, cmp) ==> Sorted(a[..], cmp)
  {
    hide Sift, StrictWeakOrder, Heap, HeapBut, Sorted;
    var i := a.Length - 1;
    while i >= 0
      invariant -1 <= i < a.Length
      invariant Extract(a[..], i + 1, cmp) == Extract(old(a[..]), a.Length, cmp)
    {
      Swap(a, 0, i);
      Heapify(a, 0, i, cmp);
      i := i - 1;
    }
    ExtractPermutes(old(a[..]), a.Length, cmp);
    if StrictWeakOrder(cmp) && Heap(old(a[..]), 0, a.Length, cmp) {
      ExtractSorts(old(a[..]), a.Length, cmp);
    }
  }

  method Sort<T(!new)>(a: array<T>, cmp: (T, T) -> bool)
    modifies a
    ensures a[..] == Sorting(old(a[..]), cmp)
    ensures multiset(a[..]) == multiset(old(a[..]))
  {
    var i := 0;
    while i < a.Length / 2
      invariant 0 <= i <= a.Length / 2
      invariant BuildUp(a[..], i, cmp) == BuildUp(old(a[..]), 0, cmp)
    {
      Heapify(a, i, a.Length, cmp);
      i := i + 1;
    }
    ExtractAll(a, cmp);
    SortingPermutes(old(a[..]), cmp);
  }

  method RepairedSort<T(!new)>(a: array<T>, cmp: (T, T) -> bool)
    requires StrictWeakOrder(cmp)
    modifies a
    ensures Sorted(a[..], cmp) && multiset(a[..]) == multiset(old(a[..]))
  {
    hide StrictWeakOrder, Sorted, Sift, Extract, RepairedSorting;
    var i := (a.Length + 1) / 2;
    while i > 0
      invariant i >= 0
      invariant BuildDown(a[..], i, cmp) == BuildDown(old(a[..]), (a.Length + 1) / 2, cmp)
    {
      i := i - 1;
      Heapify(a, i, a.Length, cmp);
    }
    ExtractAll(a, cmp);
    RepairedSortingSorts(old(a[..]), cmp);
    RepairedMeans(old(a[..]), cmp);
  }

  lemma RepairedMeans<T>(s: seq<T>, cmp: (T, T) -> bool)
    ensures RepairedSorting(s, cmp) == Extract(BuildDown(s, (|s| + 1) / 2, cmp), |s|, cmp)
  {
  }
}
