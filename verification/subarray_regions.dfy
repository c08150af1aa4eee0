/** How the subarray type computes its runs and lists the file regions of a request. */
module SubarrayRegions {
  import opened FileRegions
  import opened DataTypeLayouts
  import opened Arithmetic
  import opened SubarrayTypes

  // ----- Counting -----

  /** The product of the first `k` entries, in storage order. */
  function StoredProduct(v: seq<nat>, k: nat): nat
    requires k <= |v|
  {
    if k == 0 then 1 else StoredProduct(v, k - 1) * v[k - 1]
  }

  lemma {:induction false} ProductMeets(t: Subarray, v: seq<nat>, k: nat)
    requires |v| == t.Dims() && k <= t.Dims()
    ensures t.order == COrder ==> StoredProduct(v, k) == t.Product(v, k)
    ensures t.order != COrder ==> StoredProduct(v, k) * t.Product(v, t.Dims() - k) == t.Product(v, t.Dims())
  {
    if 0 < k {
      ProductMeets(t, v, k - 1);
      if t.order != COrder {
        assert t.Product(v, t.Dims() - (k - 1)) == t.Product(v, t.Dims() - k) * v[k - 1];
        Exchange(StoredProduct(v, k - 1), t.Product(v, t.Dims() - k), v[k - 1]);
      }
    }
  }

  /** The order of the dimensions does not matter for their product. */
  lemma ProductInEitherOrder(t: Subarray, v: seq<nat>)
    requires |v| == t.Dims()
    ensures StoredProduct(v, |v|) == t.Product(v, t.Dims())
  {
    ProductMeets(t, v, t.Dims());
    assert t.Product(v, 0) == 1;
  }

  method CalculateExtent(t: Subarray) returns (extent: nat)
    requires t.Valid()
    ensures extent == Extent(t)
  {
    extent := t.elementExtent;
    for i := 0 to |t.sizes|
      invariant extent == StoredProduct(t.sizes, i) * t.elementExtent
    {
      Exchange(t.sizes[i], t.elementExtent, StoredProduct(t.sizes, i));
      extent := extent * t.sizes[i];
    }
    ProductInEitherOrder(t, t.sizes);
  }

  /** The number of data bytes of one copy of the box. */
  method GetSubSizeExtent(t: Subarray) returns (extent: nat)
    requires t.Valid()
    ensures extent == DataSize(t) && 0 < extent
  {
    extent := t.elementExtent;
    for i := 0 to |t.subSizes|
      invariant extent == StoredProduct(t.subSizes, i) * t.elementExtent
    {
      Exchange(t.subSizes[i], t.elementExtent, StoredProduct(t.subSizes, i));
      extent := extent * t.subSizes[i];
    }
    ProductInEitherOrder(t, t.subSizes);
    DataSizePositive(t);
  }

  lemma DataSizePositive(t: Subarray)
    requires t.Valid()
    ensures 0 < DataSize(t)
  {
    ProductPositive(t, t.Dims());
    TimesMonotone(1, t.Elements(), t.elementExtent);
  }

  method GetNumArrayRegions(t: Subarray) returns (arrayRegions: nat)
    requires t.Valid()
    ensures arrayRegions == NumRegions(t)
    ensures t.Elements() == if t.Dims() == 0 then 1 else arrayRegions * ContiguousCount(t)
  {
    arrayRegions := 0;
    if |t.subSizes| != 0 {
      arrayRegions := 1;
      if t.order == COrder {
        for i := 0 to |t.subSizes| - 1
          invariant arrayRegions == t.Product(t.subSizes, i)
        {
          arrayRegions := arrayRegions * t.subSizes[i];
        }
      } else {
        for i := |t.subSizes| downto 1
          invariant arrayRegions == t.Product(t.subSizes, |t.subSizes| - i)
        {
          arrayRegions := arrayRegions * t.subSizes[i];
        }
      }
    }
  }

  // ----- The location of a run -----

  method DimensionIndices(t: Subarray, region: nat) returns (dimIdxs: seq<nat>)
    requires t.Valid() && 0 < t.Dims()
    ensures |dimIdxs| == t.Dims()
    ensures forall k :: 0 <= k < t.Dims() ==> dimIdxs[t.Stored(k)] == Digit(t, region * ContiguousCount(t), k)
  {
    ghost var j := region * ContiguousCount(t);
    DivIs(j, ContiguousCount(t), region, 0);
    var n := t.Dims();
    dimIdxs := seq(n, _ => 0);
    var quotient := region;
    if t.order == COrder {
      for i := n - 1 downto 0
        invariant |dimIdxs| == n && quotient == Quotient(t, j, i)
        invariant forall k :: i <= k < n ==> dimIdxs[k] == Digit(t, j, k)
      {
        dimIdxs := dimIdxs[i := quotient % t.subSizes[i]];
        quotient := quotient / t.subSizes[i];
      }
    } else {
      for i := 1 to n
        invariant |dimIdxs| == n && quotient == Quotient(t, j, n - i)
        invariant forall k :: 0 <= k < i ==> dimIdxs[k] == Digit(t, j, n - 1 - k)
      {
        dimIdxs := dimIdxs[i := quotient % t.subSizes[i]];
        quotient := quotient / t.subSizes[i];
      }
    }
  }

  method ArrayOffset(t: Subarray, dimIdxs: seq<nat>) returns (arrayOffset: nat)
    requires t.Valid() && |dimIdxs| == t.Dims()
    ensures arrayOffset == Horner(t, Shifted(t, dimIdxs), t.Dims())
  {
    var n := t.Dims();
    ghost var index := Shifted(t, dimIdxs);
    arrayOffset := 0;
    if t.order == COrder {
      for i := 0 to n
        invariant arrayOffset == Horner(t, index, i)
      {
        arrayOffset := (t.starts[i] + dimIdxs[i]) + t.sizes[i] * arrayOffset;
      }
    } else {
      for i := n downto 0
        invariant arrayOffset == Horner(t, index, n - i)
      {
        arrayOffset := (t.starts[i] + dimIdxs[i]) + t.sizes[i] * arrayOffset;
      }
    }
  }

  function Shifted(t: Subarray, dimIdxs: seq<nat>): (index: seq<nat>)
    requires t.Valid() && |dimIdxs| == t.Dims()
    ensures |index| == t.Dims()
  {
    seq(t.Dims(), i requires 0 <= i < t.Dims() => t.starts[i] + dimIdxs[i])
  }

  /** The run starts at the row-major address of its first element. */
  method GetArrayMemoryLocation(t: Subarray, region: nat) returns (arrayOffset: nat)
    requires t.Valid() && 0 < t.Dims()
    ensures arrayOffset == Location(t, region)
  {
    var dimIdxs := DimensionIndices(t, region);
    arrayOffset := ArrayOffset(t, dimIdxs);
    OffsetOfIndices(t, dimIdxs, region * ContiguousCount(t));
    arrayOffset := arrayOffset * t.elementExtent;
  }

  lemma OffsetOfIndices(t: Subarray, dimIdxs: seq<nat>, j: nat)
    requires t.Valid() && |dimIdxs| == t.Dims()
    requires forall k :: 0 <= k < t.Dims() ==> dimIdxs[t.Stored(k)] == Digit(t, j, k)
    ensures Horner(t, Shifted(t, dimIdxs), t.Dims()) == t.Element(t.Dims(), j)
  {
    SameIndex(t, dimIdxs, j);
    HornerOfDigits(t, j);
  }

  lemma SameIndex(t: Subarray, dimIdxs: seq<nat>, j: nat)
    requires t.Valid() && |dimIdxs| == t.Dims()
    requires forall k :: 0 <= k < t.Dims() ==> dimIdxs[t.Stored(k)] == Digit(t, j, k)
    ensures Shifted(t, dimIdxs) == IndexOf(t, j)
  {
    forall i | 0 <= i < t.Dims() ensures Shifted(t, dimIdxs)[i] == IndexOf(t, j)[i] {
      assert t.Stored(t.Stored(i)) == i;
    }
  }

  // ----- Listing the regions of a request -----

  /** The length of the first run of every copy: the code takes an offset that falls, as a position
      in memory, inside the first run for a place to start in the middle of it. */
  function FirstRun(t: Subarray, byteOffset: nat): (f: nat)
    requires t.Valid()
    ensures f <= ContiguousLength(t)
  {
    var begin := Location(t, 0);
    if begin <= byteOffset < begin + ContiguousLength(t) then begin + ContiguousLength(t) - byteOffset
    else ContiguousLength(t)
  }

  /** The bytes left out of every copy. */
  function Skipped(t: Subarray, byteOffset: nat): nat
    requires t.Valid()
  {
    ContiguousLength(t) - FirstRun(t, byteOffset)
  }

  function TileLength(t: Subarray, byteOffset: nat): int
    requires t.Valid()
  {
    DataSize(t) - Skipped(t, byteOffset)
  }

  /** Byte `k` of those the code lists from `byteOffset` on. */
  function Listed(t: Subarray, byteOffset: nat, k: nat): int
    requires t.Valid() && 0 < TileLength(t, byteOffset) && 0 < DataSize(t)
  {
    var l := TileLength(t, byteOffset);
    ListedByte(t, byteOffset, Quot(byteOffset, DataSize(t)) + Quot(k, l), k % l)
  }

  function ListedByte(t: Subarray, byteOffset: nat, tile: nat, m: nat): int
    requires t.Valid()
  {
    TileByte(t, tile, if m < FirstRun(t, byteOffset) then m else m + Skipped(t, byteOffset))
  }

  lemma TileLengthPositive(t: Subarray, byteOffset: nat)
    requires t.Valid() && 0 < t.Dims()
    ensures 0 < DataSize(t) && 0 < TileLength(t, byteOffset)
    ensures 0 < ContiguousLength(t) && NumRegions(t) * ContiguousLength(t) == DataSize(t)
    ensures 0 < NumRegions(t) && 0 < FirstRun(t, byteOffset)
  {
    var c, e := ContiguousCount(t), t.elementExtent;
    DataSizePositive(t);
    ProductPositive(t, t.Dims() - 1);
    Positive(c, e);
    Associate(NumRegions(t), c, e);
    FirstRunPositive(t, byteOffset);
    TileFits(NumRegions(t), ContiguousLength(t));
  }

  lemma Positive(a: nat, b: nat)
    requires 0 < a && 0 < b
    ensures 0 < a * b
  {
    TimesMonotone(1, a, b);
  }

  lemma TileFits(regions: nat, length: nat)
    requires 0 < regions
    ensures length <= regions * length
  {
    TimesMonotone(1, regions, length);
  }

  lemma FirstRunPositive(t: Subarray, byteOffset: nat)
    requires t.Valid() && 0 < ContiguousLength(t)
    ensures 0 < FirstRun(t, byteOffset)
  {
  }

  /** Where run `i` begins among the bytes listed for a copy. */
  function RunStart(t: Subarray, byteOffset: nat, i: nat): int
    requires t.Valid()
  {
    if i == 0 then 0 else i * ContiguousLength(t) - Skipped(t, byteOffset)
  }

  function RunLength(t: Subarray, byteOffset: nat, i: nat): nat
    requires t.Valid()
  {
    if i == 0 then FirstRun(t, byteOffset) else ContiguousLength(t)
  }

  lemma RunStartNext(t: Subarray, byteOffset: nat, i: nat)
    requires t.Valid() && 0 < t.Dims() && i < NumRegions(t)
    ensures 0 <= RunStart(t, byteOffset, i)
    ensures RunStart(t, byteOffset, i + 1) == RunStart(t, byteOffset, i) + RunLength(t, byteOffset, i)
    ensures RunStart(t, byteOffset, i + 1) <= TileLength(t, byteOffset)
    ensures i + 1 == NumRegions(t) ==> RunStart(t, byteOffset, i + 1) == TileLength(t, byteOffset)
  {
    TileLengthPositive(t, byteOffset);
    TimesNext(i, ContiguousLength(t));
    TimesMonotone(i + 1, NumRegions(t), ContiguousLength(t));
    if 0 < i {
      TimesMonotone(1, i, ContiguousLength(t));
    }
  }

  lemma ListedInRun(t: Subarray, byteOffset: nat, tile: nat, i: nat, o: nat, k: nat)
    requires t.Valid() && 0 < t.Dims() && i < NumRegions(t) && o < RunLength(t, byteOffset, i)
    requires 0 < TileLength(t, byteOffset) && 0 < DataSize(t) && 0 <= RunStart(t, byteOffset, i)
    requires k == tile * TileLength(t, byteOffset) + (RunStart(t, byteOffset, i) + o)
    ensures Listed(t, byteOffset, k) == (Quot(byteOffset, DataSize(t)) + tile) * Extent(t) + Location(t, i) + o
  {
    RunStartNext(t, byteOffset, i);
    DivIs(k, TileLength(t, byteOffset), tile, RunStart(t, byteOffset, i) + o);
    RunIsListed(t, byteOffset, Quot(byteOffset, DataSize(t)) + tile, i, o);
  }

  lemma RunIsListed(t: Subarray, byteOffset: nat, tile: nat, i: nat, o: nat)
    requires t.Valid() && 0 < t.Dims() && i < NumRegions(t) && o < RunLength(t, byteOffset, i)
    requires 0 <= RunStart(t, byteOffset, i)
    ensures ListedByte(t, byteOffset, tile, RunStart(t, byteOffset, i) + o) == tile * Extent(t) + Location(t, i) + o
  {
    RunBytes(t, i, o);
    if 0 < i {
      TimesMonotone(1, i, ContiguousLength(t));
    }
  }

  ghost predicate Lists(t: Subarray, byteOffset: nat, regions: seq<FileRegion>)
    requires t.Valid() && 0 < TileLength(t, byteOffset) && 0 < DataSize(t)
  {
    forall k :: 0 <= k < Length(regions) ==> ByteAt(regions, k) == Listed(t, byteOffset, k)
  }

  lemma ListsMore(t: Subarray, byteOffset: nat, regions: seq<FileRegion>, tile: nat, i: nat, n: nat)
    requires t.Valid() && 0 < t.Dims() && 0 < TileLength(t, byteOffset) && 0 < DataSize(t)
    requires Lists(t, byteOffset, regions) && i < NumRegions(t) && n <= RunLength(t, byteOffset, i)
    requires Length(regions) == tile * TileLength(t, byteOffset) + RunStart(t, byteOffset, i)
    ensures var offset := (Quot(byteOffset, DataSize(t)) + tile) * Extent(t) + Location(t, i);
            var more := regions + [FileRegion(offset, n)];
            Lists(t, byteOffset, more) && Length(more) == Length(regions) + n
  {
    var offset := (Quot(byteOffset, DataSize(t)) + tile) * Extent(t) + Location(t, i);
    var last := [FileRegion(offset, n)];
    LengthConcat(regions, last);
    RunStartNext(t, byteOffset, i);
    forall k | 0 <= k < Length(regions + last) ensures ByteAt(regions + last, k) == Listed(t, byteOffset, k) {
      ByteAtConcat(regions, last, k);
      if Length(regions) <= k {
        ListedInRun(t, byteOffset, tile, i, k - Length(regions), k);
      }
    }
  }

  /** Run `k` of a listing is the next run of the array, at its address in the next copy.  It has the length
      of a run, except that the first of a copy has what is left of it from `byteOffset` on, taken as a position
      in memory, when that lies inside; only the last of the listing may be shorter. */
  predicate IsRun(t: Subarray, byteOffset: nat, k: nat, run: FileRegion, complete: bool)
    requires t.Valid() && 0 < NumRegions(t) && 0 < DataSize(t)
  {
    var tile, r := Quot(byteOffset, DataSize(t)) + Quot(k, NumRegions(t)), k % NumRegions(t);
    var begin, end := Location(t, 0), Location(t, 0) + ContiguousLength(t);
    var length := if r == 0 && begin < byteOffset < end then end - byteOffset else ContiguousLength(t);
    && run.offset == tile * Extent(t) + Location(t, r)
    && 0 < run.extent <= length && (complete ==> run.extent == length)
  }

  predicate AreRuns(t: Subarray, byteOffset: nat, runs: seq<FileRegion>, complete: bool)
    requires t.Valid() && 0 < NumRegions(t) && 0 < DataSize(t)
  {
    if runs == [] then true
    else
      var n := |runs| - 1;
      AreRuns(t, byteOffset, runs[..n], true) && IsRun(t, byteOffset, n, runs[n], complete)
  }

  lemma {:induction false} EachIsRun(t: Subarray, byteOffset: nat, runs: seq<FileRegion>, complete: bool, k: nat)
    requires t.Valid() && 0 < NumRegions(t) && 0 < DataSize(t) && AreRuns(t, byteOffset, runs, complete) && k < |runs|
    ensures IsRun(t, byteOffset, k, runs[k], complete || k + 1 < |runs|)
  {
    if k + 1 < |runs| {
      EachIsRun(t, byteOffset, runs[..|runs| - 1], true, k);
    }
  }

  lemma OneMoreRun(t: Subarray, byteOffset: nat, runs: seq<FileRegion>, tile: nat, r: nat, n: nat, complete: bool)
    requires t.Valid() && r < NumRegions(t) && 0 < DataSize(t) && AreRuns(t, byteOffset, runs, true)
    requires |runs| == tile * NumRegions(t) + r && 0 < n <= RunLength(t, byteOffset, r)
    requires complete ==> n == RunLength(t, byteOffset, r)
    ensures var offset := (Quot(byteOffset, DataSize(t)) + tile) * Extent(t) + Location(t, r);
            AreRuns(t, byteOffset, runs + [FileRegion(offset, n)], complete)
  {
    DivIs(|runs|, NumRegions(t), tile, r);
    var offset := (Quot(byteOffset, DataSize(t)) + tile) * Extent(t) + Location(t, r);
    assert (runs + [FileRegion(offset, n)])[..|runs|] == runs;
  }

  /** The regions the element type lists for the runs of the request. */
  method GetRegionsByBytes(t: Subarray, element: ElementRegions, byteOffset: nat, numBytes: nat)
    returns (regions: seq<FileRegion>, ghost runs: seq<FileRegion>)
    requires t.Valid() && 0 < t.Dims()
    ensures 0 < TileLength(t, byteOffset) && 0 < DataSize(t) && 0 < NumRegions(t)
    ensures regions == Flatten(element, runs) && Length(runs) == numBytes && Lists(t, byteOffset, runs)
    ensures AreRuns(t, byteOffset, runs, false)
    ensures IsBasic(element) ==> Length(regions) == numBytes && Lists(t, byteOffset, regions)
  {
    TileLengthPositive(t, byteOffset);
    regions, runs := [], [];
    var bytesProcessed := 0;
    var subSizeExtent := GetSubSizeExtent(t);
    var extent := CalculateExtent(t);
    var fullArrayOffset := Quot(byteOffset, subSizeExtent) * extent;
    var subArrayOffset := byteOffset % subSizeExtent;
    ghost var tile := 0;
    while bytesProcessed < numBytes
      invariant bytesProcessed == Length(runs) <= numBytes && Lists(t, byteOffset, runs)
      invariant regions == Flatten(element, runs) && AreRuns(t, byteOffset, runs, bytesProcessed < numBytes)
      invariant bytesProcessed < numBytes ==> bytesProcessed == tile * TileLength(t, byteOffset)
      invariant bytesProcessed < numBytes ==> |runs| == tile * NumRegions(t)
      invariant fullArrayOffset == (Quot(byteOffset, DataSize(t)) + tile) * extent
      invariant 0 <= subArrayOffset < subSizeExtent
      decreases numBytes - bytesProcessed
    {
      var firstRegion := subArrayOffset / subSizeExtent;
      DivIs(subArrayOffset, subSizeExtent, 0, subArrayOffset);
      TimesNext(tile, TileLength(t, byteOffset));
      TimesNext(tile, NumRegions(t));
      TimesNext(Quot(byteOffset, DataSize(t)) + tile, extent);
      bytesProcessed, regions, runs := ListTile(t, element, byteOffset, numBytes, firstRegion, fullArrayOffset,
                                                bytesProcessed, regions, runs, tile);
      fullArrayOffset := fullArrayOffset + extent;
      subArrayOffset := 0;
      tile := tile + 1;
    }
    if IsBasic(element) {
      FlattenBasic(element, runs);
    }
  }

  /** Lists `n` bytes of a run. */
  method ListRun(t: Subarray, element: ElementRegions, byteOffset: nat, ghost r: nat, offset: int, n: nat,
                 before: seq<FileRegion>, ghost runsBefore: seq<FileRegion>, ghost tile: nat, ghost complete: bool)
    returns (regions: seq<FileRegion>, ghost runs: seq<FileRegion>)
    requires t.Valid() && 0 < t.Dims() && 0 < TileLength(t, byteOffset) && 0 < DataSize(t) && r < NumRegions(t)
    requires offset == (Quot(byteOffset, DataSize(t)) + tile) * Extent(t) + Location(t, r)
    requires 0 < n <= RunLength(t, byteOffset, r) && (complete ==> n == RunLength(t, byteOffset, r))
    requires Length(runsBefore) == tile * TileLength(t, byteOffset) + RunStart(t, byteOffset, r)
    requires |runsBefore| == tile * NumRegions(t) + r && AreRuns(t, byteOffset, runsBefore, true)
    requires Lists(t, byteOffset, runsBefore) && before == Flatten(element, runsBefore)
    ensures runs == runsBefore + [FileRegion(offset, n)] && regions == Flatten(element, runs)
    ensures Length(runs) == Length(runsBefore) + n && Lists(t, byteOffset, runs)
    ensures AreRuns(t, byteOffset, runs, complete)
  {
    ListsMore(t, byteOffset, runsBefore, tile, r, n);
    OneMoreRun(t, byteOffset, runsBefore, tile, r, n, complete);
    regions, runs := AppendRegions(element, before, runsBefore, offset, n);
  }

  /** One turn of the outer loop of `GetRegionsByBytes`: the runs of one copy of the array. */
  method ListTile(t: Subarray, element: ElementRegions, byteOffset: nat, numBytes: nat, firstRegion: nat,
                  fullArrayOffset: nat, start: nat, before: seq<FileRegion>, ghost runsBefore: seq<FileRegion>,
                  ghost tile: nat)
    returns (bytesProcessed: nat, regions: seq<FileRegion>, ghost runs: seq<FileRegion>)
    requires t.Valid() && 0 < t.Dims() && 0 < TileLength(t, byteOffset) && 0 < DataSize(t) && firstRegion == 0
    requires start == Length(runsBefore) == tile * TileLength(t, byteOffset) < numBytes
    requires Lists(t, byteOffset, runsBefore) && before == Flatten(element, runsBefore)
    requires fullArrayOffset == (Quot(byteOffset, DataSize(t)) + tile) * Extent(t)
    requires 0 < NumRegions(t) && |runsBefore| == tile * NumRegions(t) && AreRuns(t, byteOffset, runsBefore, true)
    ensures AreRuns(t, byteOffset, runs, bytesProcessed < numBytes)
    ensures bytesProcessed < numBytes ==> |runs| == tile * NumRegions(t) + NumRegions(t)
    ensures start < bytesProcessed == Length(runs) <= numBytes && Lists(t, byteOffset, runs)
    ensures regions == Flatten(element, runs)
    ensures bytesProcessed < numBytes ==> bytesProcessed == tile * TileLength(t, byteOffset) + TileLength(t, byteOffset)
  {
    TileLengthPositive(t, byteOffset);
    bytesProcessed, regions, runs := start, before, runsBefore;
    var contigLength := ContiguousLength(t);
    var numRegions := GetNumArrayRegions(t);
    var i: nat := firstRegion;
    while i < numRegions && bytesProcessed < numBytes
      invariant i <= numRegions && regions == Flatten(element, runs)
      invariant bytesProcessed == Length(runs) <= numBytes && Lists(t, byteOffset, runs)
      invariant start <= bytesProcessed && (0 < i ==> start < bytesProcessed)
      invariant |runs| == tile * numRegions + i && AreRuns(t, byteOffset, runs, bytesProcessed < numBytes)
      invariant bytesProcessed < numBytes ==>
                  bytesProcessed == tile * TileLength(t, byteOffset) + RunStart(t, byteOffset, i)
      invariant i == numRegions ==> RunStart(t, byteOffset, i) == TileLength(t, byteOffset)
      decreases numRegions - i
    {
      RunStartNext(t, byteOffset, i);
      var regionOffset := GetArrayMemoryLocation(t, i);
      var dataLength := contigLength;
      if firstRegion == i && byteOffset >= regionOffset && byteOffset < regionOffset + contigLength {
        dataLength := (regionOffset + contigLength) - byteOffset;
      }
      dataLength := Min(dataLength, numBytes - bytesProcessed);
      regions, runs := ListRun(t, element, byteOffset, i, fullArrayOffset + regionOffset, dataLength, regions, runs,
                               tile, bytesProcessed + dataLength < numBytes);
      bytesProcessed := bytesProcessed + dataLength;
      i := i + 1;
    }
  }

  // ----- When the listing is the data stream -----

  ghost predicate Faithful(t: Subarray, byteOffset: nat, numBytes: nat)
    requires t.Valid() && 0 < TileLength(t, byteOffset) && 0 < DataSize(t)
  {
    forall k :: 0 <= k < numBytes ==> Listed(t, byteOffset, k) == StreamByte(t, byteOffset + k)
  }

  /** The listing is exactly the requested bytes of the repeated array when, and only when, the
      request starts a copy of the array and, if its offset happens to be a memory position inside
      the first run, but not its beginning, is no longer than what is left of the run from there. */
  lemma FaithfulExactly(t: Subarray, byteOffset: nat, numBytes: nat)
    requires t.Valid() && 0 < t.Dims() && 0 < numBytes
    ensures 0 < TileLength(t, byteOffset) && 0 < DataSize(t)
    ensures Faithful(t, byteOffset, numBytes) <==>
            && byteOffset % DataSize(t) == 0
            && (Location(t, 0) < byteOffset < Location(t, 0) + ContiguousLength(t) ==>
                 numBytes <= Location(t, 0) + ContiguousLength(t) - byteOffset)
  {
    TileLengthPositive(t, byteOffset);
    if byteOffset % DataSize(t) != 0 {
      FirstByteWrong(t, byteOffset);
    } else if Skipped(t, byteOffset) == 0 || numBytes <= FirstRun(t, byteOffset) {
      forall k | 0 <= k < numBytes ensures Listed(t, byteOffset, k) == StreamByte(t, byteOffset + k) {
        AlignedByte(t, byteOffset, k);
      }
    } else {
      SkippedByteWrong(t, byteOffset);
    }
  }

  /** From the beginning of the data the listing is exact for any number of bytes. */
  lemma FaithfulFromStart(t: Subarray, numBytes: nat)
    requires t.Valid() && 0 < t.Dims()
    ensures 0 < TileLength(t, 0) && 0 < DataSize(t) && Faithful(t, 0, numBytes)
  {
    TileLengthPositive(t, 0);
    if 0 < numBytes {
      SmallQuotient(0, DataSize(t));
      FaithfulExactly(t, 0, numBytes);
    }
  }

  /** Elements 3 to 6 of an array of 8 bytes: the second copy starts at data byte 4, which as a
      memory position is the second byte of the run, so one byte of every copy is left out. */
  lemma ListingCanFail()
    ensures var t := Subarray([8], [4], [3], COrder, 1);
            t.Valid() && DataSize(t) == 4 && 0 < TileLength(t, 4) && !Faithful(t, 4, 4) && !Faithful(t, 1, 1)
  {
    var t := Subarray([8], [4], [3], COrder, 1);
    assert t.Product(t.subSizes, 1) == 4;
    assert t.Element(1, 0) == 3;
    assert Location(t, 0) == 3 && ContiguousLength(t) == 4;
    FaithfulExactly(t, 4, 4);
    FaithfulExactly(t, 1, 1);
  }

  lemma FirstByteWrong(t: Subarray, byteOffset: nat)
    requires t.Valid() && 0 < t.Dims() && 0 < TileLength(t, byteOffset) && 0 < DataSize(t)
    requires byteOffset % DataSize(t) != 0
    ensures Listed(t, byteOffset, 0) != StreamByte(t, byteOffset + 0)
  {
    TileLengthPositive(t, byteOffset);
    DivIs(0, TileLength(t, byteOffset), 0, 0);
    DataBytesIncrease(t, 0, byteOffset % DataSize(t));
  }

  lemma AlignedByte(t: Subarray, byteOffset: nat, k: nat)
    requires t.Valid() && 0 < t.Dims() && 0 < TileLength(t, byteOffset) && 0 < DataSize(t)
    requires byteOffset % DataSize(t) == 0
    requires Skipped(t, byteOffset) == 0 || k < FirstRun(t, byteOffset)
    ensures Listed(t, byteOffset, k) == StreamByte(t, byteOffset + k)
  {
    TileLengthPositive(t, byteOffset);
    MultiplePlus(byteOffset, k, DataSize(t));
    if Skipped(t, byteOffset) != 0 {
      FirstRunFits(t, byteOffset);
      SmallQuotient(k, TileLength(t, byteOffset));
      SmallQuotient(k, DataSize(t));
    }
  }

  lemma FirstRunFits(t: Subarray, byteOffset: nat)
    requires t.Valid() && 0 < t.Dims()
    ensures FirstRun(t, byteOffset) <= TileLength(t, byteOffset) && ContiguousLength(t) <= DataSize(t)
    ensures ContiguousLength(t) == DataSize(t) || ContiguousLength(t) + ContiguousLength(t) <= DataSize(t)
  {
    TileLengthPositive(t, byteOffset);
    TimesMonotone(1, NumRegions(t), ContiguousLength(t));
    if 1 < NumRegions(t) {
      TimesMonotone(2, NumRegions(t), ContiguousLength(t));
    }
  }

  lemma SkippedByteWrong(t: Subarray, byteOffset: nat)
    requires t.Valid() && 0 < t.Dims() && 0 < TileLength(t, byteOffset) && 0 < DataSize(t)
    requires byteOffset % DataSize(t) == 0 && 0 < Skipped(t, byteOffset)
    ensures var k := FirstRun(t, byteOffset); Listed(t, byteOffset, k) != StreamByte(t, byteOffset + k)
  {
    TileLengthPositive(t, byteOffset);
    FirstRunFits(t, byteOffset);
    var d, l, f := DataSize(t), TileLength(t, byteOffset), FirstRun(t, byteOffset);
    var q := byteOffset / d;
    assert byteOffset == q * d;
    DivIs(byteOffset + f, d, q, f);
    if f < l {
      DivIs(f, l, 0, f);
      DataBytesIncrease(t, f, ContiguousLength(t));
    } else {
      DivIs(f, l, 1, 0);
      TimesNext(q, Extent(t));
      RunBytes(t, 0, 0);
      RunBytes(t, 0, f);
      RunFits(t, 0);
    }
  }

  // ----- The two orders -----

  /** A Fortran array lists every request as the C array with its dimensions reversed does. */
  lemma FortranListsAsReversedC(t: Subarray, byteOffset: nat, runs: seq<FileRegion>)
    requires t.Valid() && t.order != COrder && 0 < t.Dims()
    ensures 0 < TileLength(t, byteOffset) && 0 < DataSize(t)
    ensures Mirror(t).Valid() && TileLength(Mirror(t), byteOffset) == TileLength(t, byteOffset)
    ensures DataSize(Mirror(t)) == DataSize(t)
    ensures Lists(Mirror(t), byteOffset, runs) <==> Lists(t, byteOffset, runs)
  {
    TileLengthPositive(t, byteOffset);
    FortranRunsAsReversedC(t, 0);
    forall k | 0 <= k < Length(runs) ensures Listed(Mirror(t), byteOffset, k) == Listed(t, byteOffset, k) {
      ListedMirror(t, byteOffset, k);
    }
  }

  lemma ListedMirror(t: Subarray, byteOffset: nat, k: nat)
    requires t.Valid() && t.order != COrder && 0 < t.Dims() && Mirror(t).Valid()
    requires 0 < TileLength(t, byteOffset) == TileLength(Mirror(t), byteOffset)
    requires 0 < DataSize(t) == DataSize(Mirror(t))
    ensures Listed(Mirror(t), byteOffset, k) == Listed(t, byteOffset, k)
  {
    FortranRunsAsReversedC(t, 0);
    var l := TileLength(t, byteOffset);
    ListedByteMirror(t, byteOffset, Quot(byteOffset, DataSize(t)) + Quot(k, l), k % l);
  }

  lemma ListedByteMirror(t: Subarray, byteOffset: nat, tile: nat, m: nat)
    requires t.Valid() && t.order != COrder && 0 < t.Dims() && Mirror(t).Valid()
    ensures ListedByte(Mirror(t), byteOffset, tile, m) == ListedByte(t, byteOffset, tile, m)
  {
    FortranRunsAsReversedC(t, 0);
    var n := if m < FirstRun(t, byteOffset) then m else m + Skipped(t, byteOffset);
    DataByteMirror(t, n);
  }
}
