/** The ELF loader: how much memory the loadable segments need, and how they are put into it. The
    program headers are given as the sequence of decoded entries of the table. */
module Elf {
  import opened Basics

  const TWO_64: nat := 0x1_0000_0000_0000_0000
  const PT_LOAD: nat := 1

  type U64 = x: nat | x < TWO_64

  type Byte = x: nat | x < 256

  datatype ProgramHeader =
    ProgramHeader(kind: nat, dataOffset: U64, vAddr: U64, sizeInFile: U64, sizeInMemory: U64)

  datatype Info = Info(executiveSize: U64, executiveBase: U64)

  predicate IsLoad(h: ProgramHeader) { h.kind == PT_LOAD }

  // ----- How much memory -----

  /** `vAddr + sizeInMemory` in 64 bits. */
  function End(h: ProgramHeader): U64 { (h.vAddr + h.sizeInMemory) % TWO_64 }

  function Highest(headers: seq<ProgramHeader>): U64 {
    if headers == [] then 0
    else
      var before, h := Highest(headers[..|headers| - 1]), headers[|headers| - 1];
      if IsLoad(h) && before < End(h) then End(h) else before
  }

  function Lowest(headers: seq<ProgramHeader>): U64 {
    if headers == [] then TWO_64 - 1
    else
      var before, h := Lowest(headers[..|headers| - 1]), headers[|headers| - 1];
      if IsLoad(h) && h.vAddr < before then h.vAddr else before
  }

  /** RetrieveELFInfo. Its loop runs once before it tests, so there must be a header. */
  method RetrieveInfo(headers: seq<ProgramHeader>) returns (info: Info)
    requires headers != []
    ensures info.executiveBase == Lowest(headers)
    ensures info.executiveSize == (Highest(headers) - Lowest(headers)) % TWO_64
  {
    var program, headersLeft := 0, |headers|;
    var highestMem: U64, lowestMem: U64 := 0, TWO_64 - 1;
    while true
      invariant program + headersLeft == |headers| && headersLeft > 0
      invariant highestMem == Highest(headers[..program]) && lowestMem == Lowest(headers[..program])
      decreases headersLeft
    {
      var h := headers[program];
      assert headers[..program + 1][..program] == headers[..program];
      if h.kind == PT_LOAD {
        highestMem := if highestMem < End(h) then End(h) else highestMem;
        lowestMem := if h.vAddr < lowestMem then h.vAddr else lowestMem;
      }
      program := program + 1;
      headersLeft := headersLeft - 1;
      if headersLeft == 0 {
        break;
      }
    }
    assert headers[..program] == headers;
    info := Info((highestMem - lowestMem) % TWO_64, lowestMem);
  }

  /** The bounds are met by every loadable segment and, if there is one, reached by some. */
  lemma {:induction false} BoundsAreTight(headers: seq<ProgramHeader>)
    ensures forall i :: 0 <= i < |headers| && IsLoad(headers[i]) ==>
              Lowest(headers) <= headers[i].vAddr && End(headers[i]) <= Highest(headers)
    ensures Lowest(headers) == TWO_64 - 1 ||
            exists i :: 0 <= i < |headers| && IsLoad(headers[i]) && headers[i].vAddr == Lowest(headers)
    ensures Highest(headers) == 0 ||
            exists i :: 0 <= i < |headers| && IsLoad(headers[i]) && End(headers[i]) == Highest(headers)
  {
    if headers != [] {
      var init := headers[..|headers| - 1];
      BoundsAreTight(init);
      forall i | 0 <= i < |headers| - 1 ensures init[i] == headers[i] {
      }
      if i :| 0 <= i < |init| && IsLoad(init[i]) && init[i].vAddr == Lowest(init) {
        assert headers[i].vAddr == Lowest(init);
      }
      if i :| 0 <= i < |init| && IsLoad(init[i]) && End(init[i]) == Highest(init) {
        assert End(headers[i]) == Highest(init);
      }
    }
  }

  predicate NoneLoads(headers: seq<ProgramHeader>) {
    forall i :: 0 <= i < |headers| ==> !IsLoad(headers[i])
  }

  /** Without loadable segments the answer is one byte at the top of the address space. */
  lemma {:induction false} NothingToLoad(headers: seq<ProgramHeader>)
    requires NoneLoads(headers)
    ensures Lowest(headers) == TWO_64 - 1 && Highest(headers) == 0
    ensures (Highest(headers) - Lowest(headers)) % TWO_64 == 1
  {
    if headers != [] {
      NothingToLoad(headers[..|headers| - 1]);
    }
  }

  // ----- Loading -----

  /** How many bytes loading a segment writes from its address on. */
  function Extent(h: ProgramHeader): nat { Max(h.sizeInFile, h.sizeInMemory) }

  /** Every byte that loading writes lies among the first `size` of the target. */
  predicate WritesInside(headers: seq<ProgramHeader>, base: nat, size: nat) {
    forall i :: 0 <= i < |headers| && IsLoad(headers[i]) ==> Inside(headers[i], base, size)
  }

  predicate Inside(h: ProgramHeader, base: nat, size: nat) {
    base <= h.vAddr && h.vAddr - base + Extent(h) <= size
  }

  predicate ReadsInside(headers: seq<ProgramHeader>, file: seq<Byte>) {
    forall i :: 0 <= i < |headers| && IsLoad(headers[i]) ==>
      headers[i].dataOffset + headers[i].sizeInFile <= |file|
  }

  predicate Covers(h: ProgramHeader, base: nat, k: nat) {
    IsLoad(h) && h.vAddr <= base + k < h.vAddr + Extent(h)
  }

  /** What segment `h` puts at position `k`: its file bytes, then zeros. */
  function Content(h: ProgramHeader, file: seq<Byte>, base: nat, k: nat): Byte
    requires Covers(h, base, k) && h.dataOffset + h.sizeInFile <= |file|
  {
    var d := base + k - h.vAddr;
    if d < h.sizeInFile then file[h.dataOffset + d] else 0
  }

  /** Byte `k` of the loaded image: the last segment that covers it decides, and a byte that none
      covers keeps its value. */
  function ImageAt(headers: seq<ProgramHeader>, file: seq<Byte>, base: nat, before: seq<Byte>, k: nat): Byte
    requires ReadsInside(headers, file) && k < |before|
  {
    if headers == [] then before[k]
    else
      var h := headers[|headers| - 1];
      if Covers(h, base, k) then Content(h, file, base, k)
      else ImageAt(headers[..|headers| - 1], file, base, before, k)
  }

  method MemSet(trg: array<Byte>, at: nat, value: Byte, count: nat)
    requires at + count <= trg.Length
    modifies trg
    ensures forall k :: 0 <= k < trg.Length ==>
      trg[k] == if at <= k < at + count then value else old(trg[k])
  {
    for i := 0 to count
      invariant forall k :: 0 <= k < trg.Length ==>
        trg[k] == if at <= k < at + i then value else old(trg[k])
    {
      trg[at + i] := value;
    }
  }

  method MemCpy(trg: array<Byte>, at: nat, file: seq<Byte>, from: nat, count: nat)
    requires at + count <= trg.Length && from + count <= |file|
    modifies trg
    ensures forall k :: 0 <= k < trg.Length ==>
      trg[k] == if at <= k < at + count then file[from + (k - at)] else old(trg[k])
  {
    for i := 0 to count
      invariant forall k :: 0 <= k < trg.Length ==>
        trg[k] == if at <= k < at + i then file[from + (k - at)] else old(trg[k])
    {
      trg[at + i] := file[from + i];
    }
  }

  method LoadSegment(h: ProgramHeader, file: seq<Byte>, trg: array<Byte>, base: nat)
    requires IsLoad(h) && base <= h.vAddr && h.vAddr - base + Extent(h) <= trg.Length
    requires h.dataOffset + h.sizeInFile <= |file|
    modifies trg
    ensures forall k :: 0 <= k < trg.Length ==>
      trg[k] == if Covers(h, base, k) then Content(h, file, base, k) else old(trg[k])
    ensures forall k :: 0 <= k < trg.Length ==>
      trg[k] ==
        if h.vAddr - base <= k < h.vAddr - base + h.sizeInFile then file[h.dataOffset + (k - (h.vAddr - base))]
        else if h.vAddr - base + h.sizeInFile <= k < h.vAddr - base + h.sizeInMemory then 0
        else old(trg[k])
  {
    var loadAddr := h.vAddr - base;
    if h.sizeInMemory > h.sizeInFile {
      MemSet(trg, loadAddr + h.sizeInFile, 0, h.sizeInMemory - h.sizeInFile);
    }
    MemCpy(trg, loadAddr, file, h.dataOffset, h.sizeInFile);
  }

  /** LoadELF. The answer is the entry point as a distance from the start of the target. */
  method Load(headers: seq<ProgramHeader>, file: seq<Byte>, entry: U64, trg: array<Byte>, info: Info)
    returns (start: U64)
    requires headers != [] && ReadsInside(headers, file)
    requires WritesInside(headers, info.executiveBase, trg.Length)
    modifies trg
    ensures forall k :: 0 <= k < trg.Length ==>
      trg[k] == ImageAt(headers, file, info.executiveBase, old(trg[..]), k)
    ensures start == (entry - info.executiveBase) % TWO_64
  {
    var base := info.executiveBase;
    var program, headersLeft := 0, |headers|;
    while true
      invariant program + headersLeft == |headers| && headersLeft > 0
      invariant ReadsInside(headers[..program], file)
      invariant forall k :: 0 <= k < trg.Length ==>
        trg[k] == ImageAt(headers[..program], file, base, old(trg[..]), k)
      decreases headersLeft
    {
      var h := headers[program];
      assert headers[..program + 1][..program] == headers[..program];
      if h.kind == PT_LOAD {
        LoadSegment(h, file, trg, base);
      }
      program := program + 1;
      headersLeft := headersLeft - 1;
      if headersLeft == 0 {
        break;
      }
    }
    assert headers[..program] == headers;
    start := (entry - base) % TWO_64;
  }

  // ----- What the loaded image is -----

  predicate NoOverflow(headers: seq<ProgramHeader>) {
    forall i :: 0 <= i < |headers| && IsLoad(headers[i]) ==>
      headers[i].vAddr + headers[i].sizeInMemory < TWO_64
  }

  /** Loading stays inside the memory that RetrieveELFInfo asks for if and only if no segment has
      file bytes beyond the highest end of a segment in memory; in particular when no segment is
      longer in the file than in memory. */
  lemma WritesInsideExactly(headers: seq<ProgramHeader>)
    requires NoOverflow(headers)
    ensures var size := (Highest(headers) - Lowest(headers)) % TWO_64;
            WritesInside(headers, Lowest(headers), size) <==>
            forall i :: 0 <= i < |headers| && IsLoad(headers[i]) ==>
              headers[i].vAddr + headers[i].sizeInFile <= Highest(headers)
  {
    var low, high := Lowest(headers), Highest(headers);
    hide Lowest, Highest, NoOverflow, Inside;
    forall i | 0 <= i < |headers| && IsLoad(headers[i])
      ensures Inside(headers[i], low, (high - low) % TWO_64) <==> headers[i].vAddr + headers[i].sizeInFile <= high
    {
      WithinBounds(headers, i);
      InsideMeans(headers[i], low, high);
    }
  }

  lemma WithinBounds(headers: seq<ProgramHeader>, i: nat)
    requires NoOverflow(headers) && i < |headers| && IsLoad(headers[i])
    ensures Lowest(headers) <= headers[i].vAddr
    ensures headers[i].vAddr + headers[i].sizeInMemory <= Highest(headers)
  {
    BoundsAreTight(headers);
    hide Lowest, Highest;
    assert End(headers[i]) == headers[i].vAddr + headers[i].sizeInMemory;
  }

  lemma InsideMeans(h: ProgramHeader, low: nat, high: nat)
    requires low <= h.vAddr && h.vAddr + h.sizeInMemory <= high < TWO_64
    ensures Inside(h, low, (high - low) % TWO_64) <==> h.vAddr + h.sizeInFile <= high
  {
  }

  predicate Overlap(g: ProgramHeader, h: ProgramHeader) {
    IsLoad(g) && IsLoad(h) && g.vAddr < h.vAddr + Extent(h) && h.vAddr < g.vAddr + Extent(g)
  }

  ghost predicate Disjoint(headers: seq<ProgramHeader>) {
    forall i, j :: 0 <= i < j < |headers| ==> !Overlap(headers[i], headers[j])
  }

  /** Position `k` lies in the segment, by the fields of its header. */
  predicate Reaches(h: ProgramHeader, base: nat, k: nat) {
    h.kind == 1 && h.vAddr <= base + k && (base + k < h.vAddr + h.sizeInFile || base + k < h.vAddr + h.sizeInMemory)
  }

  /** Where segments overlap the last one decides: its file bytes, then zeros. */
  lemma {:induction false} LastSegmentDecides(headers: seq<ProgramHeader>, file: seq<Byte>, base: nat,
                                              before: seq<Byte>, i: nat, k: nat)
    requires ReadsInside(headers, file) && k < |before| && i < |headers| && Reaches(headers[i], base, k)
    requires forall j :: i < j < |headers| ==> !Reaches(headers[j], base, k)
    ensures headers[i].dataOffset + headers[i].sizeInFile <= |file|
    ensures ImageAt(headers, file, base, before, k) ==
            if base + k < headers[i].vAddr + headers[i].sizeInFile
            then file[headers[i].dataOffset + (base + k - headers[i].vAddr)] else 0
  {
    var last := |headers| - 1;
    if i < last {
      assert !Reaches(headers[last], base, k);
      LastSegmentDecides(headers[..last], file, base, before, i, k);
    }
  }

  /** Disjoint segments all arrive whole: at its place each has its file bytes followed by zeros. */
  lemma {:induction false} SegmentsArrive(headers: seq<ProgramHeader>, file: seq<Byte>, base: nat, before: seq<Byte>,
          i: nat, k: nat)
    requires ReadsInside(headers, file) && Disjoint(headers) && k < |before|
    requires i < |headers| && Covers(headers[i], base, k)
    ensures ImageAt(headers, file, base, before, k) == Content(headers[i], file, base, k)
    ensures ImageAt(headers, file, base, before, k) ==
            if base + k < headers[i].vAddr + headers[i].sizeInFile
            then file[headers[i].dataOffset + (base + k - headers[i].vAddr)] else 0
  {
    var last := |headers| - 1;
    if i < last {
      assert !Overlap(headers[i], headers[last]);
      var init := headers[..last];
      assert Disjoint(init) by {
        forall a, b | 0 <= a < b < |init| ensures !Overlap(init[a], init[b]) {
          assert !Overlap(headers[a], headers[b]);
        }
      }
      SegmentsArrive(init, file, base, before, i, k);
    }
  }

  /** Bytes that no segment covers keep their values, disjoint or not. */
  lemma {:induction false} RestUnchanged(headers: seq<ProgramHeader>, file: seq<Byte>, base: nat, before: seq<Byte>,
          k: nat)
    requires ReadsInside(headers, file) && k < |before|
    requires forall i :: 0 <= i < |headers| ==> !Covers(headers[i], base, k)
    ensures ImageAt(headers, file, base, before, k) == before[k]
  {
    if headers != [] {
      RestUnchanged(headers[..|headers| - 1], file, base, before, k);
    }
  }

  /** Every segment has arrived whole in `after`. */
  ghost predicate Arrived(headers: seq<ProgramHeader>, file: seq<Byte>, base: nat, after: seq<Byte>)
    requires ReadsInside(headers, file)
  {
    forall i: nat, k: nat {:trigger Covers(headers[i], base, k)} ::
      i < |headers| && Covers(headers[i], base, k) ==> k < |after| && after[k] == Content(headers[i], file, base, k)
  }

  /** Only bytes that some segment covers have changed. */
  ghost predicate RestKept(headers: seq<ProgramHeader>, base: nat, before: seq<Byte>, after: seq<Byte>)
    requires |before| == |after|
  {
    forall k: nat :: k < |after| && after[k] != before[k] ==>
      exists i :: 0 <= i < |headers| && Covers(headers[i], base, k)
  }

  ghost predicate ShorterInFile(headers: seq<ProgramHeader>) {
    forall i :: 0 <= i < |headers| && IsLoad(headers[i]) ==> headers[i].sizeInFile <= headers[i].sizeInMemory
  }

  lemma FitsWhenShorter(headers: seq<ProgramHeader>)
    requires NoOverflow(headers) && ShorterInFile(headers)
    ensures WritesInside(headers, Lowest(headers), (Highest(headers) - Lowest(headers)) % TWO_64)
  {
    hide Lowest, Highest, NoOverflow, WritesInside;
    forall i | 0 <= i < |headers| && IsLoad(headers[i])
      ensures headers[i].vAddr + headers[i].sizeInFile <= Highest(headers)
    {
      WithinBounds(headers, i);
    }
    WritesInsideExactly(headers);
  }

  lemma ImageArrives(headers: seq<ProgramHeader>, file: seq<Byte>, base: nat, before: seq<Byte>, after: seq<Byte>)
    requires ReadsInside(headers, file) && Disjoint(headers) && WritesInside(headers, base, |before|)
    requires |after| == |before| && forall k :: 0 <= k < |after| ==> after[k] == ImageAt(headers, file, base, before, k)
    ensures Arrived(headers, file, base, after) && RestKept(headers, base, before, after)
  {
    hide ImageAt, Content, Disjoint;
    forall i: nat, k: nat | i < |headers| && Covers(headers[i], base, k)
      ensures k < |after| && after[k] == Content(headers[i], file, base, k)
    {
      assert Inside(headers[i], base, |before|);
      SegmentsArrive(headers, file, base, before, i, k);
    }
    forall k: nat | k < |after| && forall i :: 0 <= i < |headers| ==> !Covers(headers[i], base, k)
      ensures after[k] == before[k]
    {
      RestUnchanged(headers, file, base, before, k);
    }
  }

  /** The entry point is found where the file bytes of its segment were put. */
  lemma EntryArrives(headers: seq<ProgramHeader>, file: seq<Byte>, base: U64, after: seq<Byte>, entry: U64, i: nat)
    requires ReadsInside(headers, file) && Arrived(headers, file, base, after) && WritesInside(headers, base, |after|)
    requires i < |headers| && IsLoad(headers[i])
    requires headers[i].vAddr <= entry < headers[i].vAddr + headers[i].sizeInFile
    ensures var start := (entry - base) % TWO_64;
            start < |after| && headers[i].dataOffset + (entry - headers[i].vAddr) < |file| &&
            after[start] == file[headers[i].dataOffset + (entry - headers[i].vAddr)]
  {
    assert Inside(headers[i], base, |after|);
    assert Covers(headers[i], base, entry - base);
  }

  /** Byte `d` of a segment lies at its address less the base, by the fields of its header: a byte
      of the file, or zero behind the file bytes. */
  ghost predicate ByteArrives(h: ProgramHeader, file: seq<Byte>, base: nat, after: seq<Byte>, d: nat) {
    && base <= h.vAddr + d < base + |after|
    && (d < h.sizeInFile ==> h.dataOffset + d < |file| && after[h.vAddr + d - base] == file[h.dataOffset + d])
    && (d >= h.sizeInFile ==> after[h.vAddr + d - base] == 0)
  }

  lemma BytesArrive(headers: seq<ProgramHeader>, file: seq<Byte>, base: nat, after: seq<Byte>, i: nat, d: nat)
    requires ReadsInside(headers, file) && Arrived(headers, file, base, after) && WritesInside(headers, base, |after|)
    requires i < |headers| && headers[i].kind == 1 && d < headers[i].sizeInMemory
    ensures ByteArrives(headers[i], file, base, after, d)
  {
    var h := headers[i];
    assert Inside(h, base, |after|);
    assert Covers(h, base, h.vAddr + d - base);
  }

  lemma RestMeans(headers: seq<ProgramHeader>, base: nat, before: seq<Byte>, after: seq<Byte>, k: nat)
    requires |before| == |after| && RestKept(headers, base, before, after) && ShorterInFile(headers)
    requires k < |after| && after[k] != before[k]
    ensures exists i :: 0 <= i < |headers| && headers[i].kind == 1 &&
                        headers[i].vAddr <= base + k < headers[i].vAddr + headers[i].sizeInMemory
  {
    var i :| 0 <= i < |headers| && Covers(headers[i], base, k);
    assert headers[i].kind == 1;
  }

  /** The two steps together, in a target of the size asked for: every segment arrives whole and
      nothing else changes. */
  method RetrieveAndLoad(headers: seq<ProgramHeader>, file: seq<Byte>, entry: U64, trg: array<Byte>)
    returns (info: Info, start: U64)
    requires headers != [] && ReadsInside(headers, file) && NoOverflow(headers) && Disjoint(headers)
    requires ShorterInFile(headers)
    requires trg.Length == (Highest(headers) - Lowest(headers)) % TWO_64
    modifies trg
    ensures info.executiveSize == trg.Length
    ensures Arrived(headers, file, info.executiveBase, trg[..])
    ensures RestKept(headers, info.executiveBase, old(trg[..]), trg[..])
    ensures forall i: nat, d: nat {:trigger ByteArrives(headers[i], file, info.executiveBase, trg[..], d)} ::
      i < |headers| && headers[i].kind == 1 && d < headers[i].sizeInMemory ==>
        ByteArrives(headers[i], file, info.executiveBase, trg[..], d)
    ensures forall k {:trigger trg[k]} :: 0 <= k < trg.Length && trg[k] != old(trg[k]) ==>
      exists i :: 0 <= i < |headers| && headers[i].kind == 1 &&
                  headers[i].vAddr <= info.executiveBase + k < headers[i].vAddr + headers[i].sizeInMemory
    ensures start == (entry - info.executiveBase) % TWO_64
  {
    hide Highest, Lowest, ImageAt, ReadsInside, NoOverflow, Disjoint, ShorterInFile, WritesInside, Arrived, RestKept,
      ByteArrives;
    info := RetrieveInfo(headers);
    FitsWhenShorter(headers);
    start := Load(headers, file, entry, trg, info);
    ghost var base, before, after := info.executiveBase, old(trg[..]), trg[..];
    ImageArrives(headers, file, base, before, after);
    forall i: nat, d: nat | i < |headers| && headers[i].kind == 1 && d < headers[i].sizeInMemory
      ensures ByteArrives(headers[i], file, base, after, d)
    {
      BytesArrive(headers, file, base, after, i, d);
    }
    forall k | 0 <= k < trg.Length && trg[k] != old(trg[k])
      ensures exists i :: 0 <= i < |headers| && headers[i].kind == 1 &&
                          headers[i].vAddr <= base + k < headers[i].vAddr + headers[i].sizeInMemory
    {
      assert after[k] != before[k];
      RestMeans(headers, base, before, after, k);
    }
  }
}
