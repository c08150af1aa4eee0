/** The MPI indexed type: blocks of elements at given displacements, repeated without end. */
module IndexedTypes {
  import opened Arithmetic
  import opened FileRegions
  import opened DataTypeLayouts

  datatype Indexed = Indexed(blockLengths: seq<nat>, displacements: seq<nat>, elementExtent: nat) {

    /** What the constructor asserts, and a type that holds data. */
    ghost predicate Valid() {
      && 0 < |blockLengths| == |displacements| && 0 < elementExtent
      && (forall i, j :: 0 <= i < j < |displacements| ==> displacements[i] < displacements[j])
      && 0 < DataSize()
    }

    /** Where the blocks lie in memory, in bytes. */
    function Blocks(): (s: seq<FileRegion>)
      requires |blockLengths| == |displacements|
      ensures |s| == |blockLengths|
    {
      seq(|blockLengths|, i requires 0 <= i < |blockLengths| =>
        FileRegion(displacements[i] * elementExtent, blockLengths[i] * elementExtent))
    }

    function DataSize(): nat
      requires |blockLengths| == |displacements|
    {
      Length(Blocks())
    }

    function Extent(): nat
      requires 0 < |blockLengths| == |displacements|
    {
      var last := |blockLengths| - 1;
      (blockLengths[last] + displacements[last]) * elementExtent
    }

    /** No block overlaps the next. */
    predicate Separate()
      requires |blockLengths| == |displacements|
    {
      forall i, j :: 0 <= i < j < |blockLengths| ==> displacements[i] + blockLengths[i] <= displacements[j]
    }
  }

  /** Data byte `n` of the repeated blocks: copy number `n / size`, `extent` further on each. */
  function Tiled(blocks: seq<FileRegion>, extent: nat, n: nat): int
    requires 0 < Length(blocks)
  {
    TiledAt(blocks, extent, Quot(n, Length(blocks)), n % Length(blocks))
  }

  function TiledAt(blocks: seq<FileRegion>, extent: nat, tile: nat, n: nat): int
    requires n < Length(blocks)
  {
    tile * extent + ByteAt(blocks, n)
  }

  /** The byte of a block of some copy. */
  lemma TiledInBlock(blocks: seq<FileRegion>, extent: nat, tile: nat, i: nat, k: nat, n: nat)
    requires i < |blocks| && k < blocks[i].extent && n == tile * Length(blocks) + (Start(blocks, i) + k)
    ensures 0 < Length(blocks) && Tiled(blocks, extent, n) == tile * extent + blocks[i].offset + k
  {
    ByteOfRegion(blocks, i, k);
    DivIs(n, Length(blocks), tile, Start(blocks, i) + k);
  }

  /** The extent is where the last block ends, so a copy begins where the one before it ends. */
  lemma ExtentIsLastEnd(t: Indexed)
    requires t.Valid()
    ensures t.Extent() == t.Blocks()[|t.Blocks()| - 1].End()
  {
    var last := |t.blockLengths| - 1;
    Distribute(t.blockLengths[last], t.displacements[last], t.elementExtent);
  }

  /** Byte `n` of copy `k` of the type. */
  lemma CopyByte(t: Indexed, k: nat, n: nat)
    requires t.Valid() && n < t.DataSize()
    ensures Tiled(t.Blocks(), t.Extent(), k * t.DataSize() + n) ==
            k * t.Blocks()[|t.Blocks()| - 1].End() + ByteAt(t.Blocks(), n)
  {
    ExtentIsLastEnd(t);
    DivIs(k * t.DataSize() + n, t.DataSize(), k, n);
  }

  // ----- Where a listing starts -----

  /** Where in a copy the listing from `o` begins: at the block that ends exactly at `o`, if there is
      one, instead of after it. */
  function EffectiveStart(blocks: seq<FileRegion>, o: nat, i: nat := 0): (e: nat)
    requires i <= |blocks|
    ensures e <= o
    decreases |blocks| - i
  {
    if i == |blocks| then o
    else if o <= Start(blocks, i + 1) then
      if Start(blocks, i) < o && o == Start(blocks, i + 1) then Start(blocks, i) else o
    else EffectiveStart(blocks, o, i + 1)
  }

  /** A nonempty block ends at data byte `o`. */
  predicate OnBoundary(blocks: seq<FileRegion>, o: nat) {
    exists i :: 0 <= i < |blocks| && 0 < blocks[i].extent && o == Start(blocks, i + 1)
  }

  lemma {:induction false} EffectiveStartFrom(blocks: seq<FileRegion>, o: nat, i: nat)
    requires i <= |blocks|
    ensures EffectiveStart(blocks, o, i) != o ==> OnBoundary(blocks, o)
    ensures (exists j :: i <= j < |blocks| && 0 < blocks[j].extent && o == Start(blocks, j + 1)) ==>
              EffectiveStart(blocks, o, i) < o
    decreases |blocks| - i
  {
    if i < |blocks| {
      StartNext(blocks, i);
      EffectiveStartFrom(blocks, o, i + 1);
      if j :| i < j < |blocks| && 0 < blocks[j].extent && o == Start(blocks, j + 1) {
        StartNext(blocks, j);
        StartMonotone(blocks, i + 1, j);
      }
    }
  }

  lemma EffectiveStartMoves(blocks: seq<FileRegion>, o: nat)
    ensures EffectiveStart(blocks, o) < o <==> OnBoundary(blocks, o)
  {
    EffectiveStartFrom(blocks, o, 0);
  }

  /** How the listing treats block `i`: it is passed over, entered in the middle, or listed from its
      beginning. */
  lemma {:induction false} EffectiveStartAt(blocks: seq<FileRegion>, o: nat, i: nat, from: nat)
    requires from <= i < |blocks| && (from == 0 || Start(blocks, from) < o)
    ensures var e := EffectiveStart(blocks, o, from);
            && (Start(blocks, i + 1) < o ==> Start(blocks, i + 1) <= e)
            && (Start(blocks, i) < o < Start(blocks, i + 1) ==> e == o)
            && (o <= Start(blocks, i) || o == Start(blocks, i + 1) ==> e <= Start(blocks, i))
    decreases |blocks| - from
  {
    StartNext(blocks, from);
    StartMonotone(blocks, from + 1, i + 1);
    if from < i {
      StartMonotone(blocks, from + 1, i);
    }
    if Start(blocks, from + 1) < o {
      if from == i {
        if from + 1 < |blocks| {
          EffectiveStartIsAfter(blocks, o, from + 1);
        }
      } else {
        EffectiveStartAt(blocks, o, i, from + 1);
      }
    }
  }

  lemma {:induction false} EffectiveStartIsAfter(blocks: seq<FileRegion>, o: nat, from: nat)
    requires from <= |blocks| && Start(blocks, from) < o
    ensures Start(blocks, from) <= EffectiveStart(blocks, o, from)
    decreases |blocks| - from
  {
    if from < |blocks| {
      StartNext(blocks, from);
      if Start(blocks, from + 1) < o {
        EffectiveStartIsAfter(blocks, o, from + 1);
      }
    }
  }

  // ----- Listing the regions of a request -----

  /** Where the listing of a request begins in the repeated data. */
  function ListingStart(blocks: seq<FileRegion>, extent: nat, byteOffset: nat): nat
    requires 0 < Length(blocks) && 0 < extent
  {
    Quot(byteOffset, Length(blocks)) * Length(blocks) + EffectiveStart(blocks, byteOffset % Length(blocks) % extent)
  }

  /** The regions hold the repeated data from byte `start` on. */
  ghost predicate Lists(blocks: seq<FileRegion>, extent: nat, start: nat, regions: seq<FileRegion>)
    requires 0 < Length(blocks)
  {
    forall k :: 0 <= k < Length(regions) ==> ByteAt(regions, k) == Tiled(blocks, extent, start + k)
  }

  lemma ListsMore(blocks: seq<FileRegion>, extent: nat, start: nat, regions: seq<FileRegion>,
                  tile: nat, i: nat, skip: nat, n: nat)
    requires 0 < Length(blocks) && Lists(blocks, extent, start, regions)
    requires i < |blocks| && skip + n <= blocks[i].extent
    requires start + Length(regions) == tile * Length(blocks) + (Start(blocks, i) + skip)
    ensures var more := regions + [FileRegion(tile * extent + skip + blocks[i].offset, n)];
            Lists(blocks, extent, start, more) && Length(more) == Length(regions) + n
  {
    var last := [FileRegion(tile * extent + skip + blocks[i].offset, n)];
    LengthConcat(regions, last);
    forall k | 0 <= k < Length(regions + last) ensures ByteAt(regions + last, k) == Tiled(blocks, extent, start + k) {
      ByteAtConcat(regions, last, k);
      if Length(regions) <= k {
        TiledInBlock(blocks, extent, tile, i, skip + (k - Length(regions)), start + k);
      }
    }
  }

  // ----- The runs of a listing -----

  /** Block `i` of copy `tile`. */
  function CopyOf(t: Indexed, tile: nat, i: nat): FileRegion
    requires t.Valid() && i < |t.Blocks()|
  {
    FileRegion(tile * t.Extent() + t.Blocks()[i].offset, t.Blocks()[i].extent)
  }

  /** The run lies in one block of a copy; only the first of a listing may begin, and only the last may
      end, inside it. */
  ghost predicate IsPart(t: Indexed, run: FileRegion, isFirst: bool, isWhole: bool)
    requires t.Valid()
  {
    exists tile: nat, i: nat :: i < |t.Blocks()| && PartOf(CopyOf(t, tile, i), run, isFirst, isWhole)
  }

  predicate PartOf(copy: FileRegion, run: FileRegion, isFirst: bool, isWhole: bool) {
    && copy.offset <= run.offset && run.End() <= copy.End()
    && (!isFirst ==> run.offset == copy.offset) && (isWhole ==> run.End() == copy.End())
  }

  ghost predicate AreParts(t: Indexed, runs: seq<FileRegion>, complete: bool)
    requires t.Valid()
  {
    if runs == [] then true
    else
      var n := |runs| - 1;
      AreParts(t, runs[..n], true) && IsPart(t, runs[n], n == 0, complete)
  }

  lemma OneMorePart(t: Indexed, runs: seq<FileRegion>, run: FileRegion, tile: nat, i: nat, complete: bool)
    requires t.Valid() && AreParts(t, runs, true) && i < |t.Blocks()|
    requires PartOf(CopyOf(t, tile, i), run, runs == [], complete)
    ensures AreParts(t, runs + [run], complete)
  {
    assert (runs + [run])[..|runs|] == runs;
  }

  /** What this says of one run. */
  lemma {:induction false} EachIsPart(t: Indexed, runs: seq<FileRegion>, complete: bool, k: nat)
    requires t.Valid() && AreParts(t, runs, complete) && k < |runs|
    ensures IsPart(t, runs[k], k == 0, complete || k + 1 < |runs|)
  {
    if k + 1 < |runs| {
      EachIsPart(t, runs[..|runs| - 1], true, k);
    }
  }

  method GetDataSize(t: Indexed) returns (dataSize: nat)
    requires t.Valid()
    ensures dataSize == t.DataSize()
  {
    dataSize := 0;
    for i := 0 to |t.blockLengths|
      invariant dataSize == Start(t.Blocks(), i)
    {
      StartNext(t.Blocks(), i);
      dataSize := dataSize + t.blockLengths[i] * t.elementExtent;
    }
    assert t.Blocks()[..|t.Blocks()|] == t.Blocks();
  }

  lemma ExtentPositive(t: Indexed)
    requires t.Valid()
    ensures 0 < t.Extent()
  {
    var last := |t.blockLengths| - 1;
    if last == 0 {
      StartNext(t.Blocks(), 0);
      assert t.DataSize() == t.Blocks()[0].extent;
      assert 0 < t.blockLengths[0];
    } else {
      assert t.displacements[0] < t.displacements[last];
    }
    TimesMonotone(1, t.blockLengths[last] + t.displacements[last], t.elementExtent);
  }

  /** The regions the element type lists for the runs of the request. */
  method GetRegionsByBytes(t: Indexed, element: ElementRegions, byteOffset: nat, numBytes: nat)
    returns (regions: seq<FileRegion>, ghost runs: seq<FileRegion>)
    requires t.Valid()
    ensures regions == Flatten(element, runs) && Length(runs) == numBytes
    ensures 0 < t.Extent() == t.Blocks()[|t.Blocks()| - 1].End()
    ensures Lists(t.Blocks(), t.Extent(), ListingStart(t.Blocks(), t.Extent(), byteOffset), runs)
    ensures AreParts(t, runs, false)
    ensures byteOffset == 0 && numBytes == t.DataSize() && NonEmpty(t.Blocks()) ==> runs == t.Blocks()
    ensures IsBasic(element) ==> regions == runs
    ensures IsBasic(element) ==>
              && Length(regions) == numBytes
              && Lists(t.Blocks(), t.Extent(), ListingStart(t.Blocks(), t.Extent(), byteOffset), regions)
  {
    ExtentPositive(t);
    ExtentIsLastEnd(t);
    ghost var blocks, start := t.Blocks(), ListingStart(t.Blocks(), t.Extent(), byteOffset);
    regions, runs := [], [];
    var bytesProcessed := 0;
    var typeDataSize := GetDataSize(t);
    var typeBegin: nat := Quot(byteOffset, typeDataSize) * t.Extent();
    var currentOffset: nat := byteOffset % typeDataSize;
    ghost var tile, o: nat := Quot(byteOffset, typeDataSize), currentOffset % t.Extent();
    RemainderAtMost(currentOffset, t.Extent());
    while bytesProcessed < numBytes
      invariant bytesProcessed == Length(runs) <= numBytes && Lists(blocks, t.Extent(), start, runs)
      invariant regions == Flatten(element, runs)
      invariant typeBegin == tile * t.Extent() && currentOffset % t.Extent() == o < t.DataSize()
      invariant bytesProcessed < numBytes ==> start + bytesProcessed == tile * t.DataSize() + EffectiveStart(blocks, o)
      invariant bytesProcessed == 0 ==> runs == [] && (byteOffset == 0 ==> tile == o == 0)
      invariant AreParts(t, runs, bytesProcessed < numBytes) && (o != 0 ==> runs == [])
      invariant 0 < bytesProcessed && byteOffset == 0 && numBytes == t.DataSize() && NonEmpty(blocks) ==>
                  runs == blocks && bytesProcessed == numBytes
      decreases numBytes - bytesProcessed
    {
      bytesProcessed, regions, runs :=
        ListTile(t, element, numBytes, typeBegin, currentOffset, bytesProcessed, regions, runs, start, tile);
      TimesNext(tile, t.DataSize());
      NextCopy(typeBegin, tile, t.Extent());
      typeBegin := typeBegin + t.Extent();
      currentOffset := typeBegin;
      tile, o := tile + 1, 0;
    }
    if numBytes == 0 {
      assert runs == [];
    }
    if IsBasic(element) {
      FlattenBasic(element, runs);
    }
  }

  lemma RemainderAtMost(a: nat, b: nat)
    requires 0 < b
    ensures 0 <= a % b <= a
  {
    assert a == a / b * b + a % b;
    TimesMonotone(0, Quot(a, b), b);
  }

  lemma NextCopy(typeBegin: nat, tile: nat, extent: nat)
    requires 0 < extent && typeBegin == tile * extent
    ensures typeBegin + extent == (tile + 1) * extent && (typeBegin + extent) % extent == 0
  {
    TimesNext(tile, extent);
    DivIs(typeBegin + extent, extent, tile + 1, 0);
  }

  /** The request is for exactly one copy of the type, none of whose blocks is empty. */
  ghost predicate WholeType(t: Indexed, numBytes: nat, currentOffset: nat, before: seq<FileRegion>, tile: nat)
    requires t.Valid() && 0 < t.Extent()
  {
    before == [] && tile == 0 && currentOffset % t.Extent() == 0 && numBytes == t.DataSize() && NonEmpty(t.Blocks())
  }

  /** One turn of the outer loop of `GetRegionsByBytes`: the blocks of one copy of the type. */
  method ListTile(t: Indexed, element: ElementRegions, numBytes: nat, typeBegin: nat, currentOffset: nat,
                  processed: nat,
                  before: seq<FileRegion>, ghost runsBefore: seq<FileRegion>, ghost start: nat, ghost tile: nat)
    returns (bytesProcessed: nat, regions: seq<FileRegion>, ghost runs: seq<FileRegion>)
    requires t.Valid() && 0 < t.Extent() && currentOffset % t.Extent() < t.DataSize()
    requires processed == Length(runsBefore) < numBytes && Lists(t.Blocks(), t.Extent(), start, runsBefore)
    requires typeBegin == tile * t.Extent() && before == Flatten(element, runsBefore)
    requires start + processed == tile * t.DataSize() + EffectiveStart(t.Blocks(), currentOffset % t.Extent())
    requires AreParts(t, runsBefore, true) && (currentOffset % t.Extent() != 0 ==> runsBefore == [])
    ensures AreParts(t, runs, bytesProcessed < numBytes)
    ensures processed < bytesProcessed == Length(runs) <= numBytes && regions == Flatten(element, runs)
    ensures Lists(t.Blocks(), t.Extent(), start, runs)
    ensures bytesProcessed < numBytes ==> start + bytesProcessed == tile * t.DataSize() + t.DataSize()
    ensures WholeType(t, numBytes, currentOffset, runsBefore, tile) ==> runs == t.Blocks() && bytesProcessed == numBytes
  {
    ghost var blocks := t.Blocks();
    var typeOffset := currentOffset % t.Extent();
    ghost var first := EffectiveStart(blocks, typeOffset);
    bytesProcessed, regions, runs := processed, before, runsBefore;
    var elementsProcessedSize := 0;
    var i: nat := 0;
    while i < |t.blockLengths| && bytesProcessed < numBytes
      invariant i <= |blocks| && elementsProcessedSize == Start(blocks, i) && regions == Flatten(element, runs)
      invariant processed <= bytesProcessed == Length(runs) <= numBytes
      invariant Lists(blocks, t.Extent(), start, runs) && AreParts(t, runs, bytesProcessed < numBytes)
      invariant Start(blocks, i) < typeOffset ==> runs == []
      invariant bytesProcessed < numBytes ==>
                  start + bytesProcessed == tile * t.DataSize() + Max(first, Start(blocks, i))
      invariant i == |blocks| ==> Start(blocks, i) == t.DataSize()
      invariant WholeType(t, numBytes, currentOffset, runsBefore, tile) ==>
                  runs == blocks[..i] && bytesProcessed == Start(blocks, i)
      decreases |blocks| - i
    {
      var nextElementsSize := t.blockLengths[i] * t.elementExtent;
      assert nextElementsSize == blocks[i].extent;
      StartNext(blocks, i);
      assert blocks[..i + 1] == blocks[..i] + [blocks[i]];
      bytesProcessed, regions, runs := ListBlock(t, element, i, typeBegin, typeOffset, elementsProcessedSize,
                                                 numBytes, bytesProcessed, regions, runs, start, tile);
      elementsProcessedSize := elementsProcessedSize + nextElementsSize;
      i := i + 1;
    }
    assert blocks[..|blocks|] == blocks;
    if i < |blocks| {
      StartNext(blocks, i);
    }
  }

  /** Lists `n` bytes of a block, from its byte `skip` on. */
  method ListPart(t: Indexed, element: ElementRegions, ghost i: nat, ghost skip: nat, beginOff: int, n: nat,
                  before: seq<FileRegion>, ghost runsBefore: seq<FileRegion>, ghost start: nat, ghost tile: nat,
                  ghost complete: bool)
    returns (regions: seq<FileRegion>, ghost runs: seq<FileRegion>)
    requires t.Valid() && i < |t.Blocks()| && skip + n <= t.Blocks()[i].extent
    requires beginOff == tile * t.Extent() + skip + t.Blocks()[i].offset && before == Flatten(element, runsBefore)
    requires Lists(t.Blocks(), t.Extent(), start, runsBefore) && AreParts(t, runsBefore, true)
    requires start + Length(runsBefore) == tile * t.DataSize() + (Start(t.Blocks(), i) + skip)
    requires (skip != 0 ==> runsBefore == []) && (complete ==> skip + n == t.Blocks()[i].extent)
    ensures runs == runsBefore + [FileRegion(beginOff, n)] && regions == Flatten(element, runs)
    ensures Length(runs) == Length(runsBefore) + n && Lists(t.Blocks(), t.Extent(), start, runs)
    ensures AreParts(t, runs, complete)
  {
    ListsMore(t.Blocks(), t.Extent(), start, runsBefore, tile, i, skip, n);
    OneMorePart(t, runsBefore, FileRegion(beginOff, n), tile, i, complete);
    regions, runs := AppendRegions(element, before, runsBefore, beginOff, n);
  }

  /** One turn of the inner loop of `GetRegionsByBytes`: a block, the part of it from `typeOffset` on, or
      nothing. */
  method ListBlock(t: Indexed, element: ElementRegions, i: nat, typeBegin: nat, typeOffset: nat,
                   elementsProcessedSize: nat, numBytes: nat, processed: nat, before: seq<FileRegion>,
                   ghost runsBefore: seq<FileRegion>, ghost start: nat, ghost tile: nat)
    returns (bytesProcessed: nat, regions: seq<FileRegion>, ghost runs: seq<FileRegion>)
    requires t.Valid() && i < |t.blockLengths| && elementsProcessedSize == Start(t.Blocks(), i)
    requires processed == Length(runsBefore) < numBytes && Lists(t.Blocks(), t.Extent(), start, runsBefore)
    requires typeBegin == tile * t.Extent() && before == Flatten(element, runsBefore)
    requires start + processed ==
             tile * t.DataSize() + Max(EffectiveStart(t.Blocks(), typeOffset), Start(t.Blocks(), i))
    requires AreParts(t, runsBefore, true) && (Start(t.Blocks(), i) < typeOffset ==> runsBefore == [])
    ensures AreParts(t, runs, bytesProcessed < numBytes)
    ensures Start(t.Blocks(), i + 1) < typeOffset ==> runs == []
    ensures processed <= bytesProcessed == Length(runs) <= numBytes && regions == Flatten(element, runs)
    ensures Lists(t.Blocks(), t.Extent(), start, runs)
    ensures bytesProcessed < numBytes ==>
              start + bytesProcessed ==
              tile * t.DataSize() + Max(EffectiveStart(t.Blocks(), typeOffset), Start(t.Blocks(), i + 1))
    ensures typeOffset == 0 && tile == 0 && processed + t.Blocks()[i].extent <= numBytes ==>
              runs == runsBefore + [t.Blocks()[i]] && bytesProcessed == processed + t.Blocks()[i].extent
  {
    ghost var blocks := t.Blocks();
    bytesProcessed, regions, runs := processed, before, runsBefore;
    var nextElementsSize := t.blockLengths[i] * t.elementExtent;
    var displacement := t.displacements[i] * t.elementExtent;
    assert blocks[i] == FileRegion(displacement, nextElementsSize);
    StartNext(blocks, i);
    EffectiveStartAt(blocks, typeOffset, i, 0);
    if typeOffset > elementsProcessedSize && typeOffset < elementsProcessedSize + nextElementsSize {
      var elementOffset := typeOffset - elementsProcessedSize;
      var dataLength := Min(nextElementsSize - elementOffset, numBytes - bytesProcessed);
      var beginOff := typeBegin + elementOffset + displacement;
      regions, runs := ListPart(t, element, i, elementOffset, beginOff, dataLength, regions, runs, start, tile,
                                bytesProcessed + dataLength < numBytes);
      bytesProcessed := bytesProcessed + dataLength;
    } else if typeOffset <= elementsProcessedSize + nextElementsSize {
      var beginOff := typeBegin + displacement;
      var dataLength := Min(nextElementsSize, numBytes - bytesProcessed);
      regions, runs := ListPart(t, element, i, 0, beginOff, dataLength, regions, runs, start, tile,
                                bytesProcessed + dataLength < numBytes);
      bytesProcessed := bytesProcessed + dataLength;
    }
  }

  // ----- When the listing is the data stream -----

  lemma BlocksAscend(t: Indexed, i: nat, j: nat)
    requires |t.blockLengths| == |t.displacements| && t.Separate() && i < j < |t.blockLengths|
    ensures t.Blocks()[i].End() <= t.Blocks()[j].offset
  {
    Distribute(t.displacements[i], t.blockLengths[i], t.elementExtent);
    TimesMonotone(t.displacements[i] + t.blockLengths[i], t.displacements[j], t.elementExtent);
  }

  /** Each region ends before the next starts. */
  predicate Sorted(s: seq<FileRegion>) {
    forall i, j :: 0 <= i < j < |s| ==> s[i].End() <= s[j].offset
  }

  /** Blocks that do not overlap fit into the extent. */
  lemma SeparateFits(t: Indexed)
    requires t.Valid() && t.Separate()
    ensures Sorted(t.Blocks()) && t.DataSize() <= t.Extent()
  {
    var blocks, last := t.Blocks(), |t.blockLengths| - 1;
    forall i, j | 0 <= i < j < |blocks| ensures blocks[i].End() <= blocks[j].offset {
      BlocksAscend(t, i, j);
    }
    Distribute(t.blockLengths[last], t.displacements[last], t.elementExtent);
    StartFits(blocks, last);
    StartNext(blocks, last);
  }

  lemma {:induction false} StartFits(s: seq<FileRegion>, i: nat)
    requires Sorted(s) && i < |s| && 0 <= s[0].offset
    ensures Start(s, i) <= s[i].offset
  {
    if 0 < i {
      StartFits(s, i - 1);
      StartNext(s, i - 1);
    }
  }

  predicate SameByte(t: Indexed, a: nat, b: nat, k: nat)
    requires |t.blockLengths| == |t.displacements| && 0 < |t.blockLengths| && 0 < t.DataSize()
  {
    Tiled(t.Blocks(), t.Extent(), a + k) == Tiled(t.Blocks(), t.Extent(), b + k)
  }

  /** The offset lies in the extent of a copy, and no block ends there. */
  predicate Listable(t: Indexed, byteOffset: nat)
    requires |t.blockLengths| == |t.displacements| && 0 < |t.blockLengths| && 0 < t.DataSize()
  {
    byteOffset % t.DataSize() < t.Extent() && !OnBoundary(t.Blocks(), byteOffset % t.DataSize())
  }

  lemma ListingStartMoves(t: Indexed, byteOffset: nat)
    requires t.Valid() && 0 < t.Extent()
    ensures var start := ListingStart(t.Blocks(), t.Extent(), byteOffset);
            start <= byteOffset && (start == byteOffset <==> Listable(t, byteOffset))
  {
    var d, o := t.DataSize(), byteOffset % t.DataSize();
    assert byteOffset == Quot(byteOffset, d) * d + o;
    RemainderAtMost(o, t.Extent());
    EffectiveStartMoves(t.Blocks(), o % t.Extent());
    if o < t.Extent() {
      SmallQuotient(o, t.Extent());
    }
  }

  lemma {:induction false} EffectiveStartBlock(blocks: seq<FileRegion>, o: nat, from: nat) returns (i: nat)
    requires from <= |blocks| && EffectiveStart(blocks, o, from) < o
    ensures i < |blocks| && EffectiveStart(blocks, o, from) == Start(blocks, i) < o == Start(blocks, i + 1)
    decreases |blocks| - from
  {
    if o <= Start(blocks, from + 1) {
      i := from;
    } else {
      i := EffectiveStartBlock(blocks, o, from + 1);
    }
  }

  /** Where a listing starts that does not start at its offset: in the same copy, at the offset taken
      modulo the extent, or at the beginning of the block that ends there. */
  lemma ListingStartExactly(t: Indexed, byteOffset: nat) returns (i: nat)
    requires t.Valid() && 0 < t.Extent()
    ensures var copy, o := Quot(byteOffset, t.DataSize()) * t.DataSize(), byteOffset % t.DataSize() % t.Extent();
            var start := ListingStart(t.Blocks(), t.Extent(), byteOffset);
            if OnBoundary(t.Blocks(), o) then
              && i < |t.Blocks()| && 0 < t.Blocks()[i].extent && Start(t.Blocks(), i) + t.Blocks()[i].extent == o
              && start == copy + Start(t.Blocks(), i)
            else start == copy + o
  {
    var o := byteOffset % t.DataSize() % t.Extent();
    EffectiveStartMoves(t.Blocks(), o);
    i := 0;
    if OnBoundary(t.Blocks(), o) {
      i := EffectiveStartBlock(t.Blocks(), o, 0);
      StartNext(t.Blocks(), i);
    }
  }

  /** A copy further on, every byte lies an extent further on. */
  lemma TiledShift(blocks: seq<FileRegion>, extent: nat, n: nat, m: nat, far: nat)
    requires 0 < Length(blocks) && far == n + m * Length(blocks)
    ensures Tiled(blocks, extent, far) == Tiled(blocks, extent, n) + m * extent
  {
    var d := Length(blocks);
    assert n == Quot(n, d) * d + n % d;
    Distribute(Quot(n, d), m, d);
    DivIs(far, d, Quot(n, d) + m, n % d);
    Distribute(Quot(n, d), m, extent);
  }

  lemma {:induction false} SameFrom(t: Indexed, a: nat, b: nat, j: nat, far: nat)
    requires t.Valid() && a <= b && far == a + j * (b - a) && forall k: nat :: SameByte(t, a, b, k)
    ensures Tiled(t.Blocks(), t.Extent(), far) == Tiled(t.Blocks(), t.Extent(), a)
    decreases j
  {
    if 0 < j {
      TimesNext(j - 1, b - a);
      TimesMonotone(0, j - 1, b - a);
      assert SameByte(t, a, b, (j - 1) * (b - a));
      SameFrom(t, a, b, j - 1, far - (b - a));
    }
  }

  /** Two offsets that agree for as long as one copy of the data agree for ever. */
  lemma AgreeForEver(t: Indexed, a: nat, b: nat, k: nat)
    requires t.Valid() && 0 < t.Extent() && forall j :: 0 <= j < t.DataSize() ==> SameByte(t, a, b, j)
    ensures SameByte(t, a, b, k)
  {
    var d := t.DataSize();
    var m, j := Quot(k, d), k % d;
    assert k == m * d + j && 0 <= j < d;
    TiledShift(t.Blocks(), t.Extent(), a + j, m, a + k);
    TiledShift(t.Blocks(), t.Extent(), b + j, m, b + k);
    assert SameByte(t, a, b, j);
  }

  lemma NeverAgree(t: Indexed, a: nat, b: nat)
    requires t.Valid() && 0 < t.Extent() && a < b
    ensures exists k: nat :: !SameByte(t, a, b, k)
  {
    if forall k: nat :: SameByte(t, a, b, k) {
      var far := a + t.DataSize() * (b - a);
      SameFrom(t, a, b, t.DataSize(), far);
      TiledShift(t.Blocks(), t.Extent(), a, b - a, far);
      TimesMonotone(1, b - a, t.Extent());
      assert false;
    }
  }

  ghost predicate ListedFaithfully(t: Indexed, byteOffset: nat, numBytes: nat)
    requires t.Valid() && 0 < t.Extent()
  {
    forall k :: 0 <= k < numBytes ==>
      SameByte(t, ListingStart(t.Blocks(), t.Extent(), byteOffset), byteOffset, k)
  }

  /** A block with data begins at data byte `n` of the repeated blocks. */
  predicate BlockBegins(t: Indexed, n: nat)
    requires |t.blockLengths| == |t.displacements| && 0 < t.DataSize()
  {
    exists i :: 0 <= i < |t.Blocks()| && 0 < t.Blocks()[i].extent && Start(t.Blocks(), i) == n % t.DataSize()
  }

  lemma InsideBlock(t: Indexed, n: nat)
    requires t.Valid() && 0 < n && !BlockBegins(t, n)
    ensures Tiled(t.Blocks(), t.Extent(), n) == Tiled(t.Blocks(), t.Extent(), n - 1) + 1
  {
    var blocks, d := t.Blocks(), t.DataSize();
    var q, j := Quot(n, d), n % d;
    assert n == q * d + j;
    var i := Locate(blocks, j);
    StartNext(blocks, i);
    assert Start(blocks, i) < j;
    TiledInBlock(blocks, t.Extent(), q, i, j - Start(blocks, i), n);
    TiledInBlock(blocks, t.Extent(), q, i, j - 1 - Start(blocks, i), n - 1);
  }

  /** The two places agree in their first byte and wherever a block begins at one of them. */
  predicate AgreesAtBlocks(t: Indexed, a: nat, b: nat, numBytes: nat)
    requires t.Valid() && 0 < t.Extent()
  {
    forall k :: 0 <= k < numBytes && (k == 0 || BlockBegins(t, a + k) || BlockBegins(t, b + k)) ==> SameByte(t, a, b, k)
  }

  lemma {:induction false} AgreesBetween(t: Indexed, a: nat, b: nat, numBytes: nat, k: nat)
    requires t.Valid() && 0 < t.Extent() && AgreesAtBlocks(t, a, b, numBytes) && k < numBytes
    ensures SameByte(t, a, b, k)
  {
    if 0 < k && !BlockBegins(t, a + k) && !BlockBegins(t, b + k) {
      AgreesBetween(t, a, b, numBytes, k - 1);
      InsideBlock(t, a + k);
      InsideBlock(t, b + k);
    }
  }

  /** A short request from past the extent of overlapping blocks is right by chance: when the place the
      listing starts at happens to hold the same bytes, block by block. */
  predicate RightByChance(t: Indexed, byteOffset: nat, numBytes: nat)
    requires t.Valid() && 0 < t.Extent()
  {
    && t.Extent() <= byteOffset % t.DataSize() && numBytes < t.DataSize()
    && AgreesAtBlocks(t, ListingStart(t.Blocks(), t.Extent(), byteOffset), byteOffset, numBytes)
  }

  lemma StartsElsewhere(t: Indexed, byteOffset: nat, numBytes: nat)
    requires t.Valid() && 0 < numBytes && 0 < t.Extent() && !Listable(t, byteOffset)
    requires ListedFaithfully(t, byteOffset, numBytes)
    ensures RightByChance(t, byteOffset, numBytes)
  {
    ListingStartMoves(t, byteOffset);
    var start := ListingStart(t.Blocks(), t.Extent(), byteOffset);
    if byteOffset % t.DataSize() < t.Extent() {
      FirstByteWrong(t, byteOffset);
    } else if t.DataSize() <= numBytes {
      NeverAgree(t, start, byteOffset);
      var k: nat :| !SameByte(t, start, byteOffset, k);
      AgreeForEver(t, start, byteOffset, k);
    }
  }

  /** For any blocks, overlapping or not, and every request: it is listed as the data stream exactly when
      its offset is listable, or it is right by chance. */
  lemma FaithfulExactly(t: Indexed, byteOffset: nat, numBytes: nat)
    requires t.Valid() && 0 < numBytes
    ensures 0 < t.Extent()
    ensures ListedFaithfully(t, byteOffset, numBytes) <==>
            Listable(t, byteOffset) || RightByChance(t, byteOffset, numBytes)
  {
    ExtentPositive(t);
    ListingStartMoves(t, byteOffset);
    if Listable(t, byteOffset) {
    } else if RightByChance(t, byteOffset, numBytes) {
      forall k | 0 <= k < numBytes
        ensures SameByte(t, ListingStart(t.Blocks(), t.Extent(), byteOffset), byteOffset, k)
      {
        AgreesBetween(t, ListingStart(t.Blocks(), t.Extent(), byteOffset), byteOffset, numBytes, k);
      }
    } else if ListedFaithfully(t, byteOffset, numBytes) {
      StartsElsewhere(t, byteOffset, numBytes);
    }
  }

  /** For blocks that do not overlap nothing is right by chance. */
  lemma SeparateFaithfulExactly(t: Indexed, byteOffset: nat, numBytes: nat)
    requires t.Valid() && t.Separate() && 0 < numBytes
    ensures 0 < t.Extent()
    ensures ListedFaithfully(t, byteOffset, numBytes) <==> !OnBoundary(t.Blocks(), byteOffset % t.DataSize())
  {
    SeparateFits(t);
    FaithfulExactly(t, byteOffset, numBytes);
  }

  /** The first byte after a nonempty block begins a later block. */
  lemma NextBlock(blocks: seq<FileRegion>, i: nat, o: nat) returns (j: nat)
    requires i < |blocks| && Start(blocks, i) < o == Start(blocks, i + 1) && o < Length(blocks)
    ensures i < j < |blocks| && o == Start(blocks, j) && 0 < blocks[j].extent
  {
    j := Locate(blocks, o);
    StartNext(blocks, j);
    if j <= i {
      StartMonotone(blocks, j + 1, i + 1);
    } else {
      StartMonotone(blocks, i + 1, j);
    }
  }

  lemma LaterBlock(t: Indexed, i: nat, j: nat)
    requires t.Valid() && i < j < |t.blockLengths|
    ensures t.Blocks()[i].offset < t.Blocks()[j].offset
  {
    TimesMonotone(t.displacements[i] + 1, t.displacements[j], t.elementExtent);
    TimesNext(t.displacements[i], t.elementExtent);
  }

  /** Displacements increase, so the block after the one listed again begins further on. */
  lemma FirstByteWrong(t: Indexed, byteOffset: nat)
    requires t.Valid() && 0 < t.Extent() && byteOffset % t.DataSize() < t.Extent()
    requires OnBoundary(t.Blocks(), byteOffset % t.DataSize())
    ensures !SameByte(t, ListingStart(t.Blocks(), t.Extent(), byteOffset), byteOffset, 0)
  {
    var blocks, d := t.Blocks(), t.DataSize();
    var q, o := Quot(byteOffset, d), byteOffset % d;
    assert byteOffset == q * d + o;
    SmallQuotient(o, t.Extent());
    EffectiveStartMoves(blocks, o);
    var i := EffectiveStartBlock(blocks, o, 0);
    var j := NextBlock(blocks, i, o);
    StartNext(blocks, i);
    LaterBlock(t, i, j);
    TiledInBlock(blocks, t.Extent(), q, i, 0, q * d + Start(blocks, i));
    TiledInBlock(blocks, t.Extent(), q, j, 0, byteOffset);
  }

  /** Two blocks of two bytes: a request at data byte 2 is given the first block again. */
  lemma ListingCanFail()
    ensures var t := Indexed([2, 2], [0, 4], 1);
            && t.Valid() && t.Separate() && t.DataSize() == 4 && t.Extent() == 6
            && OnBoundary(t.Blocks(), 2) && ListingStart(t.Blocks(), 6, 2) == 0
  {
    var blocks := Indexed([2, 2], [0, 4], 1).Blocks();
    assert blocks == [FileRegion(0, 2), FileRegion(4, 2)];
    StartNext(blocks, 0);
    StartNext(blocks, 1);
    assert Start(blocks, 1) == 2 && Start(blocks, 2) == 4;
    assert OnBoundary(blocks, 2);
    SmallQuotient(2, 4);
  }
}
