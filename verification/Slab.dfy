/** Slabs: one page cut into equal blocks, with a bitmap of free 16-byte slots that its owner
    reads and clears while other processors set bits in it.

    A 64-bit word is modelled by the set of its one bits, so that the atomic OR and AND-NOT are
    union and difference and BSF is the least member. */
module Slabs {
  import opened Basics

  const SLOT_SIZE: nat := 16
  const WORD_BITS: nat := 64
  const WORDS: nat := 4
  const METADATA: nat := 64   // sizeof(SLAB)

  type Word = w: set<nat> | forall b :: b in w ==> b < 64

  const NO_BITS: Word := {}

  type Bitmap = words: seq<Word> | |words| == WORDS witness [NO_BITS, NO_BITS, NO_BITS, NO_BITS]

  type Offset = o: nat | o < PAGE_SIZE

  /** The element lengths of the six orders. */
  predicate IsSize(e: nat) {
    e == 16 || e == 32 || e == 64 || e == 128 || e == 256 || e == 512
  }

  // ----- Geometry -----

  function Pow2(n: nat): (p: nat)
    ensures p > 0
  {
    if n == 0 then 1 else 2 * Pow2(n - 1)
  }

  /** The index of the lowest one bit of a nonzero number. */
  function LowestBit(n: nat): nat
    requires n > 0
  {
    if n % 2 == 1 then 0 else 1 + LowestBit(n / 2)
  }

  /** How many blocks lie between the metadata and the main blocks. */
  function ResidualTotal(e: nat): int
    requires e > 0
  {
    if e < METADATA then 0 else LowestBit(e) - LowestBit(METADATA)
  }

  /** Where the main blocks start, as written, ... */
  function MainOffsetAsWritten(e: nat): nat { Min(METADATA, e) }

  /** ... and as the comment at the head of the file has it. */
  function MainOffset(e: nat): nat { Max(METADATA, e) }

  function MainTotal(e: nat, mainOffset: nat): nat
    requires e > 0 && mainOffset <= PAGE_SIZE
  {
    (PAGE_SIZE - mainOffset) / e
  }

  /** "Every block offset is no less than its size": the size follows from the offset. */
  function BlockSize(e: nat, offset: nat): nat { Min(offset, e) }

  /** The blocks that the totals announce, for main blocks from `mainOffset` on. */
  ghost predicate Announced(e: nat, mainOffset: nat, o: nat)
    requires e > 0 && mainOffset <= PAGE_SIZE
  {
    (exists j: nat :: ResidualAt(e, j, o)) || (exists k: nat :: MainAt(e, mainOffset, k, o))
  }

  predicate ResidualAt(e: nat, j: nat, o: nat)
    requires e > 0
  {
    j < ResidualTotal(e) && o == METADATA * Pow2(j)
  }

  predicate MainAt(e: nat, mainOffset: nat, k: nat, o: nat)
    requires e > 0 && mainOffset <= PAGE_SIZE
  {
    k < MainTotal(e, mainOffset) && o == mainOffset + k * e
  }

  /** `x` rounded down to a multiple of `e`. */
  function RoundDown(e: nat, x: nat): (r: nat)
    requires IsSize(e)
    ensures r <= x < r + e
  {
    if e == 16 then x / 16 * 16
    else if e == 32 then x / 32 * 32
    else if e == 64 then x / 64 * 64
    else if e == 128 then x / 128 * 128
    else if e == 256 then x / 256 * 256
    else x / 512 * 512
  }

  lemma RoundTwice(e: nat, x: nat)
    requires IsSize(e)
    ensures RoundDown(e, RoundDown(e, x)) == RoundDown(e, x)
  {
    if e == 16 { assert x / 16 * 16 / 16 == x / 16; }
    else if e == 32 { assert x / 32 * 32 / 32 == x / 32; }
    else if e == 64 { assert x / 64 * 64 / 64 == x / 64; }
    else if e == 128 { assert x / 128 * 128 / 128 == x / 128; }
    else if e == 256 { assert x / 256 * 256 / 256 == x / 256; }
    else { assert x / 512 * 512 / 512 == x / 512; }
  }

  lemma RoundKeeps(e: nat, x: nat)
    requires IsSize(e) && x < PAGE_SIZE
    ensures RoundDown(e, x) + e <= PAGE_SIZE
    ensures x >= e ==> RoundDown(e, x) >= e
    ensures x >= METADATA && e <= METADATA ==> RoundDown(e, x) >= METADATA
  {
  }

  lemma RoundWithin(e: nat, o: nat, x: nat)
    requires IsSize(e) && RoundDown(e, o) == o && o <= x < o + e
    ensures RoundDown(e, x) == o
  {
    if e == 16 { assert x / 16 == o / 16; }
    else if e == 32 { assert x / 32 == o / 32; }
    else if e == 64 { assert x / 64 == o / 64; }
    else if e == 128 { assert x / 128 == o / 128; }
    else if e == 256 { assert x / 256 == o / 256; }
    else { assert x / 512 == o / 512; }
  }

  lemma EndsInPage(e: nat, o: nat)
    requires IsSize(e) && RoundDown(e, o) == o < PAGE_SIZE
    ensures o + e <= PAGE_SIZE
  {
  }

  /** The block that holds byte `x` of the page. */
  function BlockOf(e: nat, x: nat): nat
    requires IsSize(e)
  {
    if x >= e then RoundDown(e, x) else if x < 128 then 64 else if x < 256 then 128 else 256
  }

  predicate IsBlock(e: nat, o: nat)
    requires IsSize(e)
  {
    METADATA <= o < PAGE_SIZE && BlockOf(e, o) == o
  }

  /** Every byte after the metadata lies in a block, ... */
  lemma Covered(e: nat, x: nat)
    requires IsSize(e) && METADATA <= x < PAGE_SIZE
    ensures IsBlock(e, BlockOf(e, x))
    ensures BlockOf(e, x) <= x < BlockOf(e, x) + BlockSize(e, BlockOf(e, x)) <= PAGE_SIZE
  {
    hide RoundDown;
    RoundTwice(e, x);
    RoundKeeps(e, x);
  }

  /** ... in no other, and the metadata in none. */
  lemma CoveredOnce(e: nat, o: nat, x: nat)
    requires IsSize(e) && IsBlock(e, o) && o <= x < o + BlockSize(e, o)
    ensures METADATA <= x < PAGE_SIZE && o == BlockOf(e, x)
  {
    hide RoundDown;
    if o >= e {
      RoundWithin(e, o, x);
      EndsInPage(e, o);
    }
  }

  // ----- The announced blocks are the blocks -----

  lemma LowestBits()
    ensures LowestBit(16) == 4 && LowestBit(32) == 5 && LowestBit(64) == 6
    ensures LowestBit(128) == 7 && LowestBit(256) == 8 && LowestBit(512) == 9
  {
    assert LowestBit(2) == 1 && LowestBit(4) == 2 && LowestBit(8) == 3;
  }

  /** The residual blocks of the count fill the page from the metadata up to the element length. */
  lemma ResidualBlocks(e: nat, o: nat)
    requires IsSize(e)
    ensures (exists j: nat :: ResidualAt(e, j, o)) <==> (o < e && (o == 64 || o == 128 || o == 256))
  {
    LowestBits();
    hide LowestBit;
    assert Pow2(0) == 1 && Pow2(1) == 2 && Pow2(2) == 4;
    if j: nat :| ResidualAt(e, j, o) {
      assert j == 0 || j == 1 || j == 2;
    }
    if o < e && (o == 64 || o == 128 || o == 256) {
      assert ResidualAt(e, if o == 64 then 0 else if o == 128 then 1 else 2, o);
    }
  }

  lemma MainOffsetFits(e: nat)
    requires IsSize(e)
    ensures MainOffset(e) <= PAGE_SIZE
  {
  }

  lemma MainBlocks(e: nat, o: nat)
    requires IsSize(e)
    ensures MainOffset(e) <= PAGE_SIZE
    ensures (exists k: nat :: MainAt(e, MainOffset(e), k, o)) <==>
            (MainOffset(e) <= o < PAGE_SIZE && RoundDown(e, o) == o)
  {
    hide RoundDown, MainOffset, MainTotal;
    MainOffsetFits(e);
    if k: nat :| MainAt(e, MainOffset(e), k, o) {
      MultipleOf(e, k);
    }
    if MainOffset(e) <= o < PAGE_SIZE && RoundDown(e, o) == o {
      var k := QuotientOf(e, o);
      assert MainAt(e, MainOffset(e), k, o);
    }
  }

  lemma MultipleOf(e: nat, k: nat)
    requires IsSize(e) && k < MainTotal(e, MainOffset(e))
    ensures MainOffset(e) + k * e < PAGE_SIZE
    ensures RoundDown(e, MainOffset(e) + k * e) == MainOffset(e) + k * e
  {
    if e == 16 { assert (64 + k * 16) / 16 == 4 + k; }
    else if e == 32 { assert (64 + k * 32) / 32 == 2 + k; }
    else if e == 64 { assert (64 + k * 64) / 64 == 1 + k; }
    else if e == 128 { assert (128 + k * 128) / 128 == 1 + k; }
    else if e == 256 { assert (256 + k * 256) / 256 == 1 + k; }
    else { assert (512 + k * 512) / 512 == 1 + k; }
  }

  lemma QuotientOf(e: nat, o: nat) returns (k: nat)
    requires IsSize(e) && MainOffset(e) <= o < PAGE_SIZE && RoundDown(e, o) == o
    ensures k < MainTotal(e, MainOffset(e)) && o == MainOffset(e) + k * e
  {
    if e == 16 { k := o / 16 - 4; }
    else if e == 32 { k := o / 32 - 2; }
    else if e == 64 { k := o / 64 - 1; }
    else if e == 128 { k := o / 128 - 1; }
    else if e == 256 { k := o / 256 - 1; }
    else { k := o / 512 - 1; }
  }

  /** With the main blocks at the larger of the two lengths, the totals announce exactly the
      blocks that tile the page behind the metadata. */
  lemma AnnouncedAreBlocks(e: nat, o: nat)
    requires IsSize(e)
    ensures MainOffset(e) <= PAGE_SIZE
    ensures Announced(e, MainOffset(e), o) <==> IsBlock(e, o)
  {
    hide ResidualAt, MainAt, IsBlock, RoundDown, MainOffset;
    MainOffsetFits(e);
    ResidualBlocks(e, o);
    MainBlocks(e, o);
    SmallBlocks(e, o);
  }

  lemma SmallBlocks(e: nat, o: nat)
    requires IsSize(e)
    ensures IsBlock(e, o) <==>
            (o < e && (o == 64 || o == 128 || o == 256)) ||
            (MainOffset(e) <= o < PAGE_SIZE && RoundDown(e, o) == o)
  {
  }

  /** As written, the main blocks start at the smaller length: for small elements the first of
      them lies in the metadata, for large ones they miss the multiples of the element length
      that freeing relies on. Only 64-byte elements come out right. */
  lemma AsWrittenOnlyForLines(e: nat)
    requires IsSize(e)
    ensures MainOffsetAsWritten(e) <= PAGE_SIZE
    ensures (forall o: nat :: Announced(e, MainOffsetAsWritten(e), o) <==> IsBlock(e, o)) <==> e == METADATA
  {
    hide Announced, IsBlock, MainOffset, MainOffsetAsWritten;
    AsWrittenFits(e);
    if e == METADATA {
      forall o: nat ensures Announced(e, MainOffsetAsWritten(e), o) <==> IsBlock(e, o) {
        AnnouncedAreBlocks(e, o);
      }
    } else {
      var o := StrayBlock(e);
    }
  }

  lemma AsWrittenFits(e: nat)
    requires IsSize(e)
    ensures MainOffsetAsWritten(e) <= PAGE_SIZE
    ensures e == METADATA ==> MainOffsetAsWritten(e) == MainOffset(e)
  {
  }

  lemma StrayBlock(e: nat) returns (o: nat)
    requires IsSize(e) && e != METADATA
    ensures Announced(e, MainOffsetAsWritten(e), o) && !IsBlock(e, o)
  {
    var k;
    k, o := StrayMain(e);
    hide MainAt, IsBlock;
    assert MainAt(e, MainOffsetAsWritten(e), k, o);
  }

  lemma StrayMain(e: nat) returns (k: nat, o: nat)
    requires IsSize(e) && e != METADATA
    ensures MainAt(e, MainOffsetAsWritten(e), k, o) && !IsBlock(e, o)
  {
    if e == 16 { k, o := 0, 16; }
    else if e == 32 { k, o := 0, 32; }
    else if e == 128 { k, o := 1, 192; }
    else if e == 256 { k, o := 1, 320; }
    else { k, o := 1, 576; }
  }

  /** The number of main blocks, which decides whether a page can be given back, is right as
      written from 64 bytes on. */
  lemma MainTotalAsWritten(e: nat)
    requires IsSize(e)
    ensures MainTotal(e, MainOffsetAsWritten(e)) == MainTotal(e, MainOffset(e)) <==> e >= METADATA
  {
  }

  // ----- Words -----

  /** The number whose bits from `k` on, moved down by `k`, are those of `w`. */
  function ValueFrom(w: Word, k: nat): nat
    decreases 64 - k
  {
    if k >= 64 then 0 else (if k in w then 1 else 0) + 2 * ValueFrom(w, k + 1)
  }

  ghost predicate ReachesTo(w: Word, k: nat) { exists b :: b in w && k <= b }

  /** The least member from `k` on. */
  function LowestFrom(w: Word, k: nat): (r: nat)
    requires ReachesTo(w, k)
    ensures k <= r < 64 && r in w
    ensures forall b :: b in w && k <= b ==> r <= b
    decreases 64 - k
  {
    if k in w then k else LowestFrom(w, k + 1)
  }

  /** BSF: the least member, or nothing (all ones in the source) for a word of zeros. */
  function BSF(w: Word): (r: Option<nat>)
    ensures r.None? <==> w == {}
    ensures r.Some? ==> r.value < 64 && r.value in w && forall b :: b in w ==> r.value <= b
  {
    if w == {} then None
    else
      assert ReachesTo(w, 0);
      Some(LowestFrom(w, 0))
  }

  /** The least member is the lowest one bit of the number. */
  lemma {:induction false} LowestFromIsLowestBit(w: Word, k: nat)
    requires ReachesTo(w, k)
    ensures ValueFrom(w, k) > 0 && k + LowestBit(ValueFrom(w, k)) == LowestFrom(w, k)
    decreases 64 - k
  {
    hide ValueFrom, LowestBit, ReachesTo;
    ReachesOn(w, k);
    ValueStep(w, k);
    if k in w {
      LowestOfOdd(ValueFrom(w, k));
    } else {
      LowestFromIsLowestBit(w, k + 1);
      LowestOfEven(ValueFrom(w, k + 1));
    }
  }

  lemma ReachesOn(w: Word, k: nat)
    requires ReachesTo(w, k)
    ensures k < 64 && (k !in w ==> ReachesTo(w, k + 1))
  {
  }

  lemma LowestOfOdd(n: nat)
    requires n % 2 == 1
    ensures LowestBit(n) == 0
  {
  }

  lemma ValueStep(w: Word, k: nat)
    requires k < 64
    ensures ValueFrom(w, k) == (if k in w then 1 else 0) + 2 * ValueFrom(w, k + 1)
  {
  }

  lemma LowestOfEven(n: nat)
    requires n > 0
    ensures LowestBit(2 * n) == 1 + LowestBit(n)
  {
    assert 2 * n / 2 == n;
  }

  /** The word of `n` ones from `slot` on, cut off at the top of the word. */
  function Ones(slot: nat, n: nat): (w: Word)
    ensures forall b: nat :: b in w <==> slot <= b < slot + n && b < 64
    decreases n
  {
    if n == 0 || slot >= 64 then {} else {slot} + Ones(slot + 1, n - 1)
  }

  /** As a number it is `((1 << n) - 1) << slot` whenever it fits the word. */
  lemma OnesValue(slot: nat, n: nat)
    requires slot + n <= 64
    ensures ValueFrom(Ones(slot, n), 0) == (Pow2(n) - 1) * Pow2(slot)
  {
    OnesBelow(slot, n, 0);
  }

  lemma {:induction false} OnesBelow(slot: nat, n: nat, k: nat)
    requires k <= slot && slot + n <= 64
    ensures ValueFrom(Ones(slot, n), k) == (Pow2(n) - 1) * Pow2(slot - k)
    decreases slot - k
  {
    hide Ones;
    if k == slot {
      OnesInside(slot, n, k);
    } else {
      OnesBelow(slot, n, k + 1);
      Doubled(Pow2(n) - 1, Pow2(slot - k - 1));
    }
  }

  lemma {:induction false} OnesInside(slot: nat, n: nat, k: nat)
    requires slot <= k <= slot + n <= 64
    ensures ValueFrom(Ones(slot, n), k) == Pow2(slot + n - k) - 1
    decreases slot + n - k
  {
    hide Ones;
    if k == slot + n {
      NoOnesAbove(slot, n, k);
    } else {
      OnesInside(slot, n, k + 1);
    }
  }

  lemma {:induction false} NoOnesAbove(slot: nat, n: nat, k: nat)
    requires slot + n <= k
    ensures ValueFrom(Ones(slot, n), k) == 0
    decreases 64 - k
  {
    hide Ones;
    if k < 64 {
      NoOnesAbove(slot, n, k + 1);
    }
  }

  lemma Doubled(a: int, p: int)
    ensures a * (2 * p) == 2 * (a * p)
  {
  }

  // ----- The bitmap -----

  predicate FreeIn(words: Bitmap, g: nat) { g / 64 < WORDS && g % 64 in words[g / 64] }

  /** The slots that one call of SLABSet for the object at `o` touches. */
  predicate Hits(e: nat, o: nat, g: nat) {
    o / SLOT_SIZE <= g < o / SLOT_SIZE + BlockSize(e, o) / SLOT_SIZE && g / 64 == o / SLOT_SIZE / 64
  }

  /** SLABSet on the words of the bitmap. */
  function SetWords(e: nat, words: Bitmap, o: Offset, isFree: bool): Bitmap {
    var slots := BlockSize(e, o) / SLOT_SIZE;
    var slot, base := o / SLOT_SIZE % 64, o / SLOT_SIZE / 64;
    var mask := Ones(slot, slots);
    words[base := if isFree then words[base] + mask else words[base] - mask]
  }

  lemma SetMeans(e: nat, words: Bitmap, o: Offset, isFree: bool, g: nat)
    requires g < 256
    ensures FreeIn(SetWords(e, words, o, isFree), g) == if Hits(e, o, g) then isFree else FreeIn(words, g)
  {
  }

  /** Blocks are whole slots within one word. */
  lemma BlockAligned(e: nat, o: nat)
    requires IsSize(e) && IsBlock(e, o)
    ensures o % SLOT_SIZE == 0 && BlockSize(e, o) % SLOT_SIZE == 0 && BlockSize(e, o) >= SLOT_SIZE
    ensures o % 1024 + BlockSize(e, o) <= 1024
  {
    hide RoundDown;
    if o >= e {
      RoundAligned(e, o);
    }
  }

  lemma RoundAligned(e: nat, o: nat)
    requires IsSize(e) && RoundDown(e, o) == o
    ensures o % SLOT_SIZE == 0 && o % 1024 + e <= 1024
  {
    var k, base := 1024 / e, o / 1024;
    var q := (if e == 16 then o / 16 else if e == 32 then o / 32 else if e == 64 then o / 64
              else if e == 128 then o / 128 else if e == 256 then o / 256 else o / 512) - k * base;
    assert o % 1024 == e * q by {
      if e == 16 {} else if e == 32 {} else if e == 64 {} else if e == 128 {} else if e == 256 {} else {}
    }
    assert e * q + e <= 1024 by {
      if e == 16 {} else if e == 32 {} else if e == 64 {} else if e == 128 {} else if e == 256 {} else {}
    }
  }

  lemma SlotsOfBlock(e: nat, o: nat, g: nat)
    requires IsSize(e) && IsBlock(e, o)
    ensures Hits(e, o, g) <==> 4 <= g < 256 && BlockOf(e, 16 * g) == o
  {
    hide RoundDown, BlockOf, BlockSize;
    BlockAligned(e, o);
    SlotsWithin(o, BlockSize(e, o), g);
    if Hits(e, o, g) {
      CoveredOnce(e, o, 16 * g);
    }
    if 4 <= g < 256 && BlockOf(e, 16 * g) == o {
      Covered(e, 16 * g);
    }
  }

  lemma SlotsWithin(o: nat, size: nat, g: nat)
    requires o % 16 == 0 && size % 16 == 0 && o % 1024 + size <= 1024
    ensures o <= 16 * g < o + size <==> o / 16 <= g < o / 16 + size / 16
    ensures o <= 16 * g < o + size ==> g / 64 == o / 16 / 64
  {
  }

  lemma NothingFree(words: Bitmap)
    requires forall i :: 0 <= i < WORDS ==> words[i] == {}
    ensures forall g: nat :: !FreeIn(words, g)
  {
  }

  lemma LeastFree(words: Bitmap, base: nat, bit: nat)
    requires base < WORDS && forall i :: 0 <= i < base ==> words[i] == {}
    requires bit < 64 && bit in words[base] && forall b :: b in words[base] ==> bit <= b
    ensures FreeIn(words, bit + WORD_BITS * base)
    ensures forall g: nat :: FreeIn(words, g) ==> bit + WORD_BITS * base <= g
  {
    forall g: nat | FreeIn(words, g) ensures bit + WORD_BITS * base <= g {
      assert words[g / 64] != {};
      assert g / 64 == base ==> bit <= g % 64;
    }
  }

  class Slab {
    const elementLength: nat
    const bitmap: array<Word>

    predicate Valid() { IsSize(elementLength) && bitmap.Length == WORDS }

    function Words(): Bitmap
      requires Valid()
      reads bitmap
    {
      bitmap[..]
    }

    /** SLABFirst: the offset of the least free slot, or nothing if no slot is free. */
    method First() returns (r: Option<nat>)
      requires Valid()
      ensures r.None? <==> forall g: nat :: !FreeIn(Words(), g)
      ensures r.Some? ==> r.value % SLOT_SIZE == 0 && FreeIn(Words(), r.value / SLOT_SIZE)
      ensures r.Some? ==> forall g: nat :: FreeIn(Words(), g) ==> r.value / SLOT_SIZE <= g
    {
      hide FreeIn, BSF;
      var slot: Option<nat> := None;
      var base := 0;
      while base < WORDS
        invariant base <= WORDS
        invariant forall i :: 0 <= i < base ==> Words()[i] == {}
        invariant slot == None
      {
        slot := BSF(bitmap[base]);
        if slot.Some? {
          break;
        }
        base := base + 1;
      }
      if slot.None? {
        NothingFree(Words());
        return None;
      }
      LeastFree(Words(), base, slot.value);
      return Some((slot.value + WORD_BITS * base) * SLOT_SIZE);
    }

    /** SLABSet for the object at `offset`. */
    method Set(offset: Offset, isFree: bool)
      requires Valid()
      modifies bitmap
      ensures Words() == SetWords(elementLength, old(Words()), offset, isFree)
      ensures forall g: nat :: g < 256 ==>
        FreeIn(Words(), g) == if Hits(elementLength, offset, g) then isFree else FreeIn(old(Words()), g)
    {
      var size := Min(offset, elementLength);
      var slots := size / SLOT_SIZE;
      var slot := offset / SLOT_SIZE % WORD_BITS;
      var base := offset / SLOT_SIZE / WORD_BITS;
      var mask := Ones(slot, slots);
      if isFree {
        bitmap[base] := bitmap[base] + mask;
      } else {
        bitmap[base] := bitmap[base] - mask;
      }
      assert Words() == SetWords(elementLength, old(Words()), offset, isFree);
      hide SetWords, FreeIn, Hits;
      forall g: nat | g < 256
        ensures FreeIn(Words(), g) == if Hits(elementLength, offset, g) then isFree else FreeIn(old(Words()), g)
      {
        SetMeans(elementLength, old(Words()), offset, isFree, g);
      }
    }
  }

  // ----- Whole blocks -----

  /** The bitmap of a page whose blocks `live` are handed out: a slot is marked free if and only
      if it lies behind the metadata and in a block that is not handed out. */
  ghost predicate Marked(e: nat, words: Bitmap, live: set<Offset>)
    requires IsSize(e)
  {
    forall g: nat :: g < 256 ==> MarkedAt(e, words, live, g)
  }

  predicate MarkedAt(e: nat, words: Bitmap, live: set<Offset>, g: nat)
    requires IsSize(e) && g < 256
  {
    FreeIn(words, g) == (g >= 4 && BlockOf(e, 16 * g) !in live)
  }

  lemma TakeMarks(e: nat, words: Bitmap, live: set<Offset>, o: Offset)
    requires IsSize(e) && Marked(e, words, live) && IsBlock(e, o)
    ensures Marked(e, SetWords(e, words, o, false), live + {o})
  {
    hide SetWords, FreeIn, Hits, BlockOf, IsBlock;
    forall g: nat | g < 256 ensures MarkedAt(e, SetWords(e, words, o, false), live + {o}, g) {
      assert MarkedAt(e, words, live, g);
      SetMeans(e, words, o, false, g);
      SlotsOfBlock(e, o, g);
    }
  }

  lemma FreeMarks(e: nat, words: Bitmap, live: set<Offset>, o: Offset)
    requires IsSize(e) && Marked(e, words, live) && IsBlock(e, o)
    ensures Marked(e, SetWords(e, words, o, true), live - {o})
  {
    hide SetWords, FreeIn, Hits, BlockOf, IsBlock;
    forall g: nat | g < 256 ensures MarkedAt(e, SetWords(e, words, o, true), live - {o}, g) {
      assert MarkedAt(e, words, live, g);
      SetMeans(e, words, o, true, g);
      SlotsOfBlock(e, o, g);
    }
  }

  /** The lowest one bit of a word is the first slot of a block that is not handed out. */
  lemma LowestIsBlock(e: nat, words: Bitmap, live: set<Offset>, g: nat)
    requires IsSize(e) && Marked(e, words, live)
    requires FreeIn(words, g) && forall h: nat :: FreeIn(words, h) && h / 64 == g / 64 ==> g <= h
    ensures g < 256 && IsBlock(e, 16 * g) && 16 * g !in live
  {
    hide BlockOf, RoundDown;
    assert MarkedAt(e, words, live, g);
    var o := BlockOf(e, 16 * g);
    Covered(e, 16 * g);
    BlockAligned(e, o);
    SlotsOfBlock(e, o, g);
    assert MarkedAt(e, words, live, o / 16);
    assert 16 * (o / 16) == o;
    assert FreeIn(words, o / 16);
  }

  lemma UnmarkedIsTaken(e: nat, words: Bitmap, live: set<Offset>, o: Offset)
    requires IsSize(e) && Marked(e, words, live) && IsBlock(e, o) && !FreeIn(words, o / 16)
    ensures o in live
  {
    hide RoundDown;
    BlockAligned(e, o);
    assert 16 * (o / 16) == o;
    assert MarkedAt(e, words, live, o / 16);
  }

  /** SLABFirst on such a page returns the first block that is not handed out, and nothing exactly
      if every block is. */
  lemma FirstIsFirstFreeBlock(e: nat, words: Bitmap, live: set<Offset>, r: Option<nat>)
    requires IsSize(e) && Marked(e, words, live)
    requires r.None? <==> forall g: nat :: !FreeIn(words, g)
    requires r.Some? ==> r.value % SLOT_SIZE == 0 && FreeIn(words, r.value / SLOT_SIZE)
    requires r.Some? ==> forall g: nat :: FreeIn(words, g) ==> r.value / SLOT_SIZE <= g
    ensures r.None? <==> forall o: Offset :: IsBlock(e, o) ==> o in live
    ensures r.Some? ==> r.value < PAGE_SIZE && IsBlock(e, r.value) && r.value !in live
    ensures r.Some? ==> forall o: Offset :: IsBlock(e, o) && o < r.value ==> o in live
  {
    hide BlockOf, RoundDown, IsBlock, FreeIn;
    if r.Some? {
      LowestIsBlock(e, words, live, r.value / SLOT_SIZE);
    }
    forall o: Offset | IsBlock(e, o) && o !in live ensures FreeIn(words, o / 16) && o % 16 == 0 {
      BlockAligned(e, o);
      if !FreeIn(words, o / 16) {
        UnmarkedIsTaken(e, words, live, o);
      }
    }
  }

  // ----- One owner allocates, others free -----

  /** The owner between two calls, in SLABFirst before it reads word `base`, or holding the
      offset SLABFirst returned and about to clear its slots. `begun` records the blocks that
      were handed out when the search began. */
  datatype Owner = Idle | Scanning(base: nat, begun: set<Offset>) | Found(offset: nat, begun: set<Offset>)

  /** The bitmap, and the blocks handed out and not yet freed. */
  datatype State = State(words: Bitmap, live: set<Offset>, owner: Owner)

  /** What one processor does atomically: the owner begins a search, reads a word, or clears the
      slots of the block it found; any processor frees a block it holds. */
  datatype Event = Begin | Look | Take | Free(block: Offset)

  predicate Enabled(s: State, event: Event) {
    match event
    case Begin => s.owner.Idle?
    case Look => s.owner.Scanning? && s.owner.base < WORDS
    case Take => s.owner.Found? && s.owner.offset < PAGE_SIZE
    case Free(o) => o in s.live
  }

  function After(e: nat, s: State, event: Event): State
    requires Enabled(s, event)
  {
    match event
    case Begin => s.(owner := Scanning(0, s.live))
    case Look =>
      var base, begun := s.owner.base, s.owner.begun;
      var slot := BSF(s.words[base]);
      if slot.Some? then s.(owner := Found((slot.value + WORD_BITS * base) * SLOT_SIZE, begun))
      else if base + 1 < WORDS then s.(owner := Scanning(base + 1, begun))
      else s.(owner := Idle)
    case Take =>
      var o := s.owner.offset;
      State(SetWords(e, s.words, o, false), s.live + {o}, Idle)
    case Free(o) =>
      State(SetWords(e, s.words, o, true), s.live - {o}, s.owner)
  }

  /** A page after its metadata has been written: every slot behind the metadata is free. */
  function Fresh(): State {
    State([Ones(4, 60), Ones(0, 64), Ones(0, 64), Ones(0, 64)], {}, Idle)
  }

  ghost predicate IsRun(e: nat, states: seq<State>, events: seq<Event>) {
    |states| == |events| + 1 && states[0] == Fresh() &&
    forall i {:trigger events[i]} :: 0 <= i < |events| ==>
      Enabled(states[i], events[i]) && states[i + 1] == After(e, states[i], events[i])
  }

  ghost predicate LiveBlocks(e: nat, live: set<Offset>)
    requires IsSize(e)
  {
    forall o :: o in live ==> IsBlock(e, o)
  }

  /** Every block before byte `end` was handed out when the search began. */
  ghost predicate TakenBefore(e: nat, end: nat, begun: set<Offset>)
    requires IsSize(e)
  {
    forall o: Offset :: IsBlock(e, o) && o < end ==> o in begun
  }

  ghost predicate OwnerSound(e: nat, live: set<Offset>, owner: Owner)
    requires IsSize(e)
  {
    match owner
    case Idle => true
    case Scanning(base, begun) => base < WORDS && live <= begun && TakenBefore(e, 1024 * base, begun)
    case Found(o, begun) =>
      o < PAGE_SIZE && IsBlock(e, o) && o !in live && live <= begun && TakenBefore(e, o, begun)
  }

  ghost predicate Sound(e: nat, s: State)
    requires IsSize(e)
  {
    Marked(e, s.words, s.live) && LiveBlocks(e, s.live) && OwnerSound(e, s.live, s.owner)
  }

  lemma FreshIsSound(e: nat)
    requires IsSize(e)
    ensures Sound(e, Fresh())
  {
    hide BlockOf;
    forall g: nat | g < 256 ensures MarkedAt(e, Fresh().words, {}, g) {
    }
  }

  /** A word with no one bits has only blocks that are handed out. */
  lemma EmptyWordIsTaken(e: nat, words: Bitmap, live: set<Offset>, begun: set<Offset>, base: nat)
    requires IsSize(e) && Marked(e, words, live) && live <= begun
    requires base < WORDS && words[base] == {} && TakenBefore(e, 1024 * base, begun)
    ensures TakenBefore(e, 1024 * (base + 1), begun)
  {
    hide BlockOf, RoundDown, IsBlock;
    forall o: Offset | IsBlock(e, o) && o < 1024 * (base + 1) ensures o in begun {
      if o >= 1024 * base {
        UnmarkedIsTaken(e, words, live, o);
      }
    }
  }

  lemma LookFinds(e: nat, words: Bitmap, live: set<Offset>, begun: set<Offset>, base: nat, bit: nat)
    requires IsSize(e) && Marked(e, words, live) && live <= begun
    requires base < WORDS && TakenBefore(e, 1024 * base, begun)
    requires bit < 64 && bit in words[base] && forall b :: b in words[base] ==> bit <= b
    ensures var o := (bit + WORD_BITS * base) * SLOT_SIZE;
            o < PAGE_SIZE && IsBlock(e, o) && o !in live && TakenBefore(e, o, begun)
  {
    hide BlockOf, RoundDown, IsBlock;
    var g := bit + WORD_BITS * base;
    LowestIsBlock(e, words, live, g);
    forall o: Offset | IsBlock(e, o) && o < 16 * g ensures o in begun {
      if o >= 1024 * base {
        assert !FreeIn(words, o / 16);
        UnmarkedIsTaken(e, words, live, o);
      }
    }
  }

  /** Every step of every processor keeps the page sound. */
  lemma StepKeeps(e: nat, s: State, event: Event)
    requires IsSize(e) && Sound(e, s) && Enabled(s, event)
    ensures Sound(e, After(e, s, event))
  {
    hide Marked, BlockOf, IsBlock, TakenBefore, SetWords;
    match event {
      case Begin =>
        NoneBefore(e, s.live);
      case Look =>
        var base, begun := s.owner.base, s.owner.begun;
        var slot := BSF(s.words[base]);
        if slot.Some? {
          LookFinds(e, s.words, s.live, begun, base, slot.value);
        } else {
          EmptyWordIsTaken(e, s.words, s.live, begun, base);
        }
      case Take =>
        TakeMarks(e, s.words, s.live, s.owner.offset);
      case Free(o) =>
        FreeMarks(e, s.words, s.live, o);
    }
  }

  lemma NoneBefore(e: nat, begun: set<Offset>)
    requires IsSize(e)
    ensures TakenBefore(e, 0, begun)
  {
  }

  /** How many words a search has yet to read at most. */
  function LooksLeft(owner: Owner): nat {
    if owner.Scanning? && owner.base < WORDS then WORDS - owner.base else 0
  }

  /** Every search ends after at most four words, whatever is freed meanwhile. */
  lemma SearchEnds(e: nat, s: State, event: Event)
    requires Enabled(s, event) && s.owner.Scanning?
    ensures event.Look? ==> LooksLeft(After(e, s, event).owner) < LooksLeft(s.owner) <= 4
    ensures event.Look? && After(e, s, event).owner.Scanning? ==> s.words[s.owner.base] == {}
    ensures !event.Look? ==> After(e, s, event).owner == s.owner
  {
    hide SetWords;
  }

  /** In every interleaving from a fresh page, every state is sound. */
  lemma {:induction false} RunKeeps(e: nat, states: seq<State>, events: seq<Event>, i: nat)
    requires IsSize(e) && IsRun(e, states, events) && i < |states|
    ensures Sound(e, states[i])
  {
    hide Sound, Enabled, After, Fresh;
    if i == 0 {
      FreshIsSound(e);
    } else {
      RunKeeps(e, states, events, i - 1);
      assert Enabled(states[i - 1], events[i - 1]) && states[i - 1 + 1] == After(e, states[i - 1], events[i - 1]);
      StepKeeps(e, states[i - 1], events[i - 1]);
    }
  }

  /** What soundness means for the memory: two live blocks never overlap, none overlaps the
      metadata or leaves the page, and a slot is marked free exactly when its bytes are in no
      live block and behind the metadata. */
  lemma LiveApart(e: nat, s: State, o: Offset, p: Offset)
    requires IsSize(e) && Sound(e, s) && o in s.live && p in s.live && o != p
    ensures METADATA <= o && o + BlockSize(e, o) <= PAGE_SIZE
    ensures o + BlockSize(e, o) <= p || p + BlockSize(e, p) <= o
  {
    assert IsBlock(e, o) && IsBlock(e, p);
    hide BlockOf, RoundDown, IsBlock, BlockSize, Sound;
    BlockAligned(e, o);
    BlockAligned(e, p);
    CoveredOnce(e, o, o);
    CoveredOnce(e, o, o + BlockSize(e, o) - 1);
    if o <= p < o + BlockSize(e, o) {
      CoveredOnce(e, o, p);
      CoveredOnce(e, p, p);
    }
    if p <= o < p + BlockSize(e, p) {
      CoveredOnce(e, p, o);
    }
  }

  lemma SlotState(e: nat, s: State, g: nat)
    requires IsSize(e) && Sound(e, s) && g < 256
    ensures FreeIn(s.words, g) <==>
            g >= 4 && forall o :: o in s.live ==> !(o <= 16 * g < o + BlockSize(e, o))
  {
    hide BlockOf, RoundDown, IsBlock, BlockSize, OwnerSound;
    assert MarkedAt(e, s.words, s.live, g);
    if g >= 4 {
      Covered(e, 16 * g);
    }
    forall o | o in s.live ensures o <= 16 * g < o + BlockSize(e, o) ==> o == BlockOf(e, 16 * g) {
      assert IsBlock(e, o);
      if o <= 16 * g < o + BlockSize(e, o) {
        CoveredOnce(e, o, 16 * g);
      }
    }
  }

  /** Until the owner clears it, every slot of the block it found stays marked free. */
  lemma FoundStaysFree(e: nat, s: State, g: nat)
    requires IsSize(e) && Sound(e, s) && s.owner.Found?
    requires s.owner.offset / 16 <= g < (s.owner.offset + BlockSize(e, s.owner.offset)) / 16
    ensures FreeIn(s.words, g)
  {
    var o := s.owner.offset;
    hide BlockOf, RoundDown, IsBlock, BlockSize;
    BlockAligned(e, o);
    SlotsWithin(o, BlockSize(e, o), g);
    CoveredOnce(e, o, 16 * g);
    assert MarkedAt(e, s.words, s.live, g);
  }

  /** A search that comes back with nothing: every block of the page was handed out when it
      began, whatever was freed meanwhile. */
  lemma EmptyHanded(e: nat, s: State, o: Offset)
    requires IsSize(e) && Sound(e, s) && s.owner.Scanning? && After(e, s, Look).owner.Idle?
    requires IsBlock(e, o)
    ensures o in s.owner.begun
  {
    hide BlockOf, RoundDown, IsBlock, SetWords;
    EmptyWordIsTaken(e, s.words, s.live, s.owner.begun, s.owner.base);
  }

  predicate Takes(s: State, event: Event, o: Offset) { event.Take? && s.owner.Found? && s.owner.offset == o }

  /** Between the moments `i` and `j` block `o` is freed. */
  ghost predicate FreedBetween(events: seq<Event>, i: nat, j: nat, o: Offset) {
    exists k :: i <= k < j && k < |events| && events[k] == Free(o)
  }

  lemma {:induction false} StaysLive(e: nat, states: seq<State>, events: seq<Event>, i: nat, j: nat, o: Offset)
    requires IsSize(e) && IsRun(e, states, events) && i <= j < |states|
    requires o in states[i].live && !FreedBetween(events, i, j, o)
    ensures o in states[j].live
    decreases j - i
  {
    hide SetWords, BlockOf, BSF;
    if i < j {
      assert Enabled(states[i], events[i]) && states[i + 1] == After(e, states[i], events[i]);
      assert events[i] != Free(o);
      StaysLive(e, states, events, i + 1, j, o);
    }
  }

  /** No block is handed out twice without being freed in between. */
  lemma NoDoubleHandOut(e: nat, states: seq<State>, events: seq<Event>, i: nat, j: nat, o: Offset)
    requires IsSize(e) && IsRun(e, states, events) && i < j < |events|
    requires Takes(states[i], events[i], o) && Takes(states[j], events[j], o)
    ensures FreedBetween(events, i + 1, j, o)
  {
    hide SetWords, BlockOf, BSF, IsBlock, Marked;
    assert Enabled(states[i], events[i]) && states[i + 1] == After(e, states[i], events[i]);
    RunKeeps(e, states, events, j);
    if !FreedBetween(events, i + 1, j, o) {
      StaysLive(e, states, events, i + 1, j, o);
    }
  }

  /** Frees of two blocks, and a free beside the owner's taking of the block it found, leave the
      same page in either order. */
  lemma StepsCommute(e: nat, s: State, event: Event, o: Offset)
    requires IsSize(e) && Sound(e, s) && Enabled(s, event) && o in s.live && event != Free(o)
    requires event.Free? || event.Take?
    ensures Enabled(After(e, s, event), Free(o)) && Enabled(After(e, s, Free(o)), event)
    ensures After(e, After(e, s, event), Free(o)) == After(e, After(e, s, Free(o)), event)
  {
    var p := if event.Take? then s.owner.offset else event.block;
    var free := event.Free?;
    assert IsBlock(e, o) && IsBlock(e, p) && o != p;
    hide BlockOf, IsBlock, Marked, RoundDown;
    OrdersAgree(e, s.words, p, free, o);
    assert s.live + {p} - {o} == s.live - {o} + {p};
    assert s.live - {p} - {o} == s.live - {o} - {p};
  }

  lemma OrdersAgree(e: nat, words: Bitmap, p: Offset, free: bool, o: Offset)
    requires IsSize(e) && IsBlock(e, o) && IsBlock(e, p) && o != p
    ensures SetWords(e, SetWords(e, words, p, free), o, true) == SetWords(e, SetWords(e, words, o, true), p, free)
  {
    hide BlockOf, IsBlock, RoundDown, SetWords, FreeIn, Hits;
    var a, b := SetWords(e, SetWords(e, words, p, free), o, true), SetWords(e, SetWords(e, words, o, true), p, free);
    forall g: nat | g < 256 ensures FreeIn(a, g) == FreeIn(b, g) {
      SetMeans(e, words, p, free, g);
      SetMeans(e, SetWords(e, words, p, free), o, true, g);
      SetMeans(e, words, o, true, g);
      SetMeans(e, SetWords(e, words, o, true), p, free, g);
      SlotsOfBlock(e, o, g);
      SlotsOfBlock(e, p, g);
    }
    SameSlots(a, b);
  }

  lemma SameSlots(a: Bitmap, b: Bitmap)
    requires forall g: nat :: g < 256 ==> FreeIn(a, g) == FreeIn(b, g)
    ensures a == b
  {
    forall i | 0 <= i < WORDS ensures a[i] == b[i] {
      forall bit | 0 <= bit < 64 ensures bit in a[i] <==> bit in b[i] {
        assert FreeIn(a, 64 * i + bit) == FreeIn(b, 64 * i + bit);
      }
    }
  }
}
