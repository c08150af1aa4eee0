/** Distribution of a request over striped servers: which physical regions each server reads or
    writes for a contiguous range of the file. */
module DataTypeProcessing {
  import opened FileRegions
  import opened DataTypeLayouts
  import opened Arithmetic
  import opened Sequences
  import opened Striping

  /** The physical interval [from, to), cut at the ends of the strips. */
  function Pieces(stripSize: nat, from: nat, to: int): seq<FileRegion>
    requires 0 < stripSize
    decreases Max(0, to - from)
  {
    if to <= from then []
    else
      var end := Min(from + (stripSize - from % stripSize), to);
      [FileRegion(from, end - from)] + Pieces(stripSize, end, to)
  }

  /** The bytes past the end of the request that its last region takes. */
  function FinalOverrun(stripSize: nat, offset: nat, extent: nat): int
    requires 0 < stripSize
  {
    var end := offset + extent;
    if extent == 0 then 0
    else
      var stripBegin := end - 1 - (end - 1) % stripSize;
      if stripBegin <= offset then 0 else Min(stripSize, extent) - (end - stripBegin)
  }

  /** Only the server that holds the last byte takes more than its share. */
  function Overrun(d: StripeDistribution, offset: nat, extent: nat): int
    requires d.Valid()
  {
    if 0 < extent && d.Owns(offset + extent - 1) then FinalOverrun(d.stripSize, offset, extent) else 0
  }

  /** Where the physical interval that server `d` writes for a range ends; it starts at the physical
      offset of the range's first byte. */
  function WriteEnd(d: StripeDistribution, offset: nat, extent: nat): int
    requires d.Valid()
  {
    d.LogicalToPhysicalOffset(offset + extent) + Overrun(d, offset, extent)
  }

  function AccessEnd(d: StripeDistribution, offset: nat, extent: nat, bstreamSize: nat, dataExtend: bool): int
    requires d.Valid()
  {
    Upto(WriteEnd(d, offset, extent), bstreamSize, dataExtend)
  }

  /** What one range adds to a server's layout. */
  function RangePieces(d: StripeDistribution, offset: nat, extent: nat, bstreamSize: nat,
                       dataExtend: bool): seq<FileRegion>
    requires d.Valid()
  {
    Pieces(d.stripSize, d.LogicalToPhysicalOffset(offset), AccessEnd(d, offset, extent, bstreamSize, dataExtend))
  }

  lemma {:induction false} PiecesAppend(stripSize: nat, from: nat, mid: nat, to: nat)
    requires 0 < stripSize && from <= mid < to <= mid + (stripSize - mid % stripSize)
    requires mid == from || mid % stripSize == 0
    ensures Pieces(stripSize, from, to) == Pieces(stripSize, from, mid) + [FileRegion(mid, to - mid)]
    decreases mid - from
  {
    if from == mid {
      assert Pieces(stripSize, to, to) == [];
    } else {
      var end := from + (stripSize - from % stripSize);
      StripEnds(stripSize, from, mid);
      PiecesAppend(stripSize, end, mid, to);
    }
  }

  /** The next strip boundary is the least one. */
  lemma StripEnds(s: nat, from: nat, mid: nat)
    requires 0 < s && from < mid && mid % s == 0
    ensures (from + (s - from % s)) % s == 0 && from + (s - from % s) <= mid
  {
    var q, j := from / s, mid / s;
    assert from == q * s + from % s && mid == j * s;
    if j <= q {
      TimesMonotone(j, q, s);
    }
    TimesMonotone(q + 1, j, s);
    TimesNext(q, s);
    DivIs((q + 1) * s, s, q + 1, 0);
  }

  lemma {:induction false} PiecesLength(stripSize: nat, from: nat, to: int)
    requires 0 < stripSize
    ensures Length(Pieces(stripSize, from, to)) == Max(0, to - from)
    decreases Max(0, to - from)
  {
    if from < to {
      PiecesLength(stripSize, Min(from + (stripSize - from % stripSize), to), to);
    }
  }

  /** A range of the file starts at a nonnegative offset. */
  type Range = r: FileRegion | 0 <= r.offset witness FileRegion(0, 0)

  // ----- One server's walk over a range -----

  /** A byte sits at the same place of its strip in the file and on the server. */
  lemma OwnedAligned(d: StripeDistribution, logical: nat)
    requires d.Valid() && d.Owns(logical)
    ensures d.PhysicalToLogicalOffset(d.LogicalToPhysicalOffset(logical)) == logical
    ensures d.LogicalToPhysicalOffset(logical) % d.stripSize == logical % d.stripSize
  {
    NextMappedIsLeast(d, logical);
    SelectOfRank(d, logical);
    SelectAligned(d, d.LogicalToPhysicalOffset(logical));
  }

  lemma SelectAligned(d: StripeDistribution, physical: nat)
    requires d.Valid()
    ensures d.PhysicalToLogicalOffset(physical) % d.stripSize == physical % d.stripSize
  {
    var q, r := physical / d.stripSize, physical % d.stripSize;
    Gather(q, d.numObjects, d.objectIdx, d.stripSize);
    DivIs(d.PhysicalToLogicalOffset(physical), d.stripSize, q * d.numObjects + d.objectIdx, r);
  }

  lemma Gather(q: nat, n: nat, k: nat, s: nat)
    ensures q * (s * n) + k * s == (q * n + k) * s
  {
  }

  /** From a byte of this server to the end of its strip the two offsets advance together. */
  lemma StripStep(d: StripeDistribution, logical: nat)
    requires d.Valid() && d.Owns(logical)
    ensures var p := d.LogicalToPhysicalOffset(logical);
            var c := d.ContiguousLength(p);
            && c == d.stripSize - logical % d.stripSize && (p + c) % d.stripSize == 0
            && (forall m: nat :: logical <= m < logical + c ==> d.Owns(m))
            && (forall m: nat :: logical <= m <= logical + c ==> d.LogicalToPhysicalOffset(m) == p + (m - logical))
  {
    var p := d.LogicalToPhysicalOffset(logical);
    var c := d.ContiguousLength(p);
    OwnedAligned(d, logical);
    ContiguousLengthIsMaximal(d, p);
    forall m: nat | logical <= m < logical + c
      ensures d.Owns(m) && d.LogicalToPhysicalOffset(m) == p + (m - logical)
    {
      RankOfSelect(d, p + (m - logical));
    }
    PhysicalStep(d, logical + c - 1);
  }

  /** A strip is entered at its beginning. */
  lemma EntersAtStripBegin(d: StripeDistribution, logical: nat)
    requires d.Valid() && 0 < logical && d.Owns(logical) && !d.Owns(logical - 1)
    ensures logical % d.stripSize == 0
  {
    var q, r := logical / d.stripSize, logical % d.stripSize;
    if 0 < r {
      DivIs(logical - 1, d.stripSize, q, r - 1);
    }
  }

  /** `logical` is the next byte of this server to handle and `x` is how far its physical interval goes. */
  ghost predicate Reached(d: StripeDistribution, offset: nat, extent: nat, logical: nat, x: nat)
    requires d.Valid()
  {
    && offset <= logical && d.Owns(logical)
    && (logical == offset || logical % d.stripSize == 0)
    && d.LogicalToPhysicalOffset(offset) <= x
    && x == if logical < offset + extent then d.LogicalToPhysicalOffset(logical) else WriteEnd(d, offset, extent)
  }

  lemma FirstReached(d: StripeDistribution, offset: nat, extent: nat)
    requires d.Valid()
    ensures Reached(d, offset, extent, d.NextMappedLogicalOffset(offset), d.LogicalToPhysicalOffset(offset))
  {
    var logical := d.NextMappedLogicalOffset(offset);
    NextMappedIsLeast(d, offset);
    SelectOfRank(d, offset);
    if offset < logical {
      EntersAtStripBegin(d, logical);
    }
    if offset + extent <= logical {
      RankMonotone(d, offset, offset + extent);
    }
  }

  /** Handling one strip reaches the next. */
  lemma StripReached(d: StripeDistribution, offset: nat, extent: nat, logical: nat, x: nat)
    requires d.Valid() && Reached(d, offset, extent, logical, x) && logical < offset + extent
    ensures var c := d.ContiguousLength(x);
            && Reached(d, offset, extent, d.NextMappedLogicalOffset(logical + c), x + Min(c, extent))
            && logical < d.NextMappedLogicalOffset(logical + c)
  {
    var c := d.ContiguousLength(x);
    var next := d.NextMappedLogicalOffset(logical + c);
    StripStep(d, logical);
    NextMappedIsLeast(d, logical + c);
    SelectOfRank(d, logical + c);
    OwnedAligned(d, next);
    if offset + extent <= next {
      LastStrip(d, offset, extent, logical, next);
    }
  }

  lemma LastStrip(d: StripeDistribution, offset: nat, extent: nat, logical: nat, next: nat)
    requires d.Valid() && offset <= logical < offset + extent <= next
    requires d.Owns(logical) && (logical == offset || logical % d.stripSize == 0)
    requires var c := d.stripSize - logical % d.stripSize;
             && logical + c <= next && (forall l :: logical + c <= l < next ==> !d.Owns(l))
    ensures WriteEnd(d, offset, extent) ==
            d.LogicalToPhysicalOffset(logical) + Min(d.stripSize - logical % d.stripSize, extent)
  {
    var c := d.stripSize - logical % d.stripSize;
    StripStep(d, logical);
    if logical + c <= offset + extent {
      RankMonotone(d, logical + c, offset + extent);
      if offset + extent == logical + c {
        OverrunInStrip(d.stripSize, offset, extent, logical);
      }
    } else {
      OverrunInStrip(d.stripSize, offset, extent, logical);
    }
  }

  /** The overrun of a range that ends in the strip of `logical`. */
  lemma OverrunInStrip(s: nat, offset: nat, extent: nat, logical: nat)
    requires 0 < s && offset <= logical < offset + extent <= logical + (s - logical % s)
    requires logical == offset || logical % s == 0
    ensures FinalOverrun(s, offset, extent) == Min(s - logical % s, extent) - (offset + extent - logical)
  {
    var q, r := logical / s, logical % s;
    assert logical == q * s + r;
    DivIs(offset + extent - 1, s, q, offset + extent - 1 - (logical - r));
  }

  // ----- The layouts of all servers -----

  /** What the server at `d` writes for a range: every byte of the range it owns, and past the range
      only bytes of the strip the range ends in. */
  lemma RangeReachesItsOwner(d: StripeDistribution, offset: nat, extent: nat, logical: nat)
    requires d.Valid() && d.Owns(logical)
    ensures var p := d.LogicalToPhysicalOffset(logical);
            && (offset <= logical < offset + extent <==>
                 d.LogicalToPhysicalOffset(offset) <= p < d.LogicalToPhysicalOffset(offset + extent))
            && d.PhysicalToLogicalOffset(p) == logical
  {
    OwnedAligned(d, logical);
    RankSelectGalois(d, offset, d.LogicalToPhysicalOffset(logical));
    RankSelectGalois(d, offset + extent, d.LogicalToPhysicalOffset(logical));
    PhysicalStep(d, logical);
    if offset <= logical {
      RankMonotone(d, offset, logical);
    } else {
      RankMonotone(d, logical + 1, offset);
    }
  }

  /** The pieces of an interval hold its bytes. */
  lemma {:induction false} PiecesBytes(stripSize: nat, from: nat, to: int)
    requires 0 < stripSize
    ensures BytesOf(Pieces(stripSize, from, to)) == Interval(from, to)
    decreases Max(0, to - from)
  {
    if from < to {
      var end := Min(from + (stripSize - from % stripSize), to);
      PiecesBytes(stripSize, end, to);
      SplitInterval(from, end, to);
    }
  }

  lemma SplitInterval(from: int, mid: int, to: int)
    requires from <= mid <= to
    ensures Interval(from, mid) + Interval(mid, to) == Interval(from, to)
  {
    Hull(from, mid, mid, to);
  }

  /** No byte comes twice. */
  lemma PiecesOnce(stripSize: nat, from: nat, to: int)
    requires 0 < stripSize
    ensures Length(Pieces(stripSize, from, to)) == |BytesOf(Pieces(stripSize, from, to))|
  {
    PiecesLength(stripSize, from, to);
    PiecesBytes(stripSize, from, to);
    if from < to {
      IntervalSize(from, to);
    }
  }

  /** The regions have a byte that the server keeps for the logical byte. */
  ghost predicate Emits(d: StripeDistribution, regions: seq<FileRegion>, logical: nat)
    requires d.Valid()
  {
    exists p: nat :: p in BytesOf(regions) && d.PhysicalToLogicalOffset(p) == logical
  }

  /** The server that owns the byte holds it, for a read only if its stream is long enough. */
  predicate Serves(d: StripeDistribution, logical: nat, bstreamSize: nat, dataExtend: bool)
    requires d.Valid()
  {
    d.Owns(logical) && (dataExtend || d.LogicalToPhysicalOffset(logical) < bstreamSize)
  }

  lemma ByteIsServed(d: StripeDistribution, physical: nat, bstreamSize: nat, dataExtend: bool)
    requires d.Valid() && (dataExtend || physical < bstreamSize)
    ensures Serves(d, d.PhysicalToLogicalOffset(physical), bstreamSize, dataExtend)
  {
    RankOfSelect(d, physical);
  }

  lemma RangeBytes(d: StripeDistribution, offset: nat, extent: nat, bstreamSize: nat, dataExtend: bool)
    requires d.Valid()
    ensures BytesOf(RangePieces(d, offset, extent, bstreamSize, dataExtend)) ==
            Interval(d.LogicalToPhysicalOffset(offset), AccessEnd(d, offset, extent, bstreamSize, dataExtend))
    ensures !dataExtend ==>
              forall b :: b in BytesOf(RangePieces(d, offset, extent, bstreamSize, dataExtend)) ==> b < bstreamSize
  {
    PiecesBytes(d.stripSize, d.LogicalToPhysicalOffset(offset), AccessEnd(d, offset, extent, bstreamSize, dataExtend));
  }

  /** Each byte of a range is emitted by exactly the server that owns it, for a read as far as the
      server's stream goes. */
  lemma RangeEmittedByOwner(d: StripeDistribution, offset: nat, extent: nat, bstreamSize: nat, dataExtend: bool,
                            logical: nat)
    requires d.Valid() && offset <= logical < offset + extent
    ensures Emits(d, RangePieces(d, offset, extent, bstreamSize, dataExtend), logical) <==>
            Serves(d, logical, bstreamSize, dataExtend)
  {
    var pieces := RangePieces(d, offset, extent, bstreamSize, dataExtend);
    RangeBytes(d, offset, extent, bstreamSize, dataExtend);
    if Serves(d, logical, bstreamSize, dataExtend) {
      var p := d.LogicalToPhysicalOffset(logical);
      RangeReachesItsOwner(d, offset, extent, logical);
      OverrunBound(d.stripSize, offset, extent);
      assert p in BytesOf(pieces);
    }
    if p: nat :| p in BytesOf(pieces) && d.PhysicalToLogicalOffset(p) == logical {
      ByteIsServed(d, p, bstreamSize, dataExtend);
    }
  }

  /** Among all servers one emits a byte of the range when it is written: the one its strip is dealt to. */
  lemma WrittenByOneServer(n: nat, stripSize: nat, k: nat, offset: nat, extent: nat, logical: nat)
    requires k < n && 0 < stripSize && offset <= logical < offset + extent
    ensures var d := StripeDistribution(k, n, stripSize);
            Emits(d, RangePieces(d, offset, extent, 0, true), logical) <==> k == logical / stripSize % n
  {
    RangeEmittedByOwner(StripeDistribution(k, n, stripSize), offset, extent, 0, true, logical);
  }

  /** Less than a strip is taken too much, and nothing exactly when the range stays in one strip or
      ends at the end of one. */
  lemma OverrunBound(stripSize: nat, offset: nat, extent: nat)
    requires 0 < stripSize && 0 < extent
    ensures 0 <= FinalOverrun(stripSize, offset, extent) < stripSize
    ensures FinalOverrun(stripSize, offset, extent) == 0 <==>
            offset / stripSize == (offset + extent - 1) / stripSize || (offset + extent) % stripSize == 0
  {
    var s, last := stripSize, offset + extent - 1;
    var q, r := last / s, last % s;
    assert last == q * s + r;
    TimesNext(q, s);
    if r + 1 == s {
      DivIs(last + 1, s, q + 1, 0);
    } else {
      DivIs(last + 1, s, q, r + 1);
    }
    if q * s <= offset {
      DivIs(offset, s, q, offset - q * s);
    } else {
      assert offset == offset / s * s + offset % s;
    }
  }

  /** The bytes taken past the range are bytes of the strip the range ends in. */
  lemma OverrunStaysInStrip(d: StripeDistribution, offset: nat, extent: nat, physical: nat)
    requires d.Valid() && 0 < extent
    requires d.LogicalToPhysicalOffset(offset + extent) <= physical < WriteEnd(d, offset, extent)
    ensures var l := d.PhysicalToLogicalOffset(physical);
            offset + extent <= l && l / d.stripSize == (offset + extent - 1) / d.stripSize
  {
    var last := offset + extent - 1;
    assert d.Owns(last);
    StripStep(d, last);
    OverrunWithinStrip(d.stripSize, offset, extent);
    var l := last + (physical - d.LogicalToPhysicalOffset(last));
    OwnedAligned(d, l);
    SameStrip(d.stripSize, last, l);
  }

  lemma OverrunWithinStrip(s: nat, offset: nat, extent: nat)
    requires 0 < s && 0 < extent
    ensures FinalOverrun(s, offset, extent) < s - (offset + extent - 1) % s
  {
  }

  lemma SameStrip(s: nat, last: nat, l: nat)
    requires 0 < s && last <= l < last + (s - last % s)
    ensures l / s == last / s
  {
    assert last == last / s * s + last % s;
    DivIs(l, s, last / s, last % s + (l - last));
  }

  /** The bytes that servers `k`, ..., `n - 1` write for a range. */
  function WrittenSum(k: nat, n: nat, stripSize: nat, offset: nat, extent: nat): int
    requires k <= n && 0 < stripSize
    decreases n - k
  {
    if k == n then 0
    else
      Length(RangePieces(StripeDistribution(k, n, stripSize), offset, extent, 0, true))
      + WrittenSum(k + 1, n, stripSize, offset, extent)
  }

  lemma {:induction false} WrittenSumIs(k: nat, n: nat, stripSize: nat, offset: nat, extent: nat)
    requires k <= n && 0 < n && 0 < stripSize
    ensures WrittenSum(k, n, stripSize, offset, extent) ==
            RankSum(k, n, stripSize, offset + extent) - RankSum(k, n, stripSize, offset)
            + if 0 < extent && k <= (offset + extent - 1) / stripSize % n
              then FinalOverrun(stripSize, offset, extent) else 0
    decreases n - k
  {
    if k < n {
      var d := StripeDistribution(k, n, stripSize);
      RankMonotone(d, offset, offset + extent);
      if 0 < extent {
        OverrunBound(stripSize, offset, extent);
      }
      PiecesLength(stripSize, d.LogicalToPhysicalOffset(offset), WriteEnd(d, offset, extent));
      WrittenSumIs(k + 1, n, stripSize, offset, extent);
    }
  }

  /** All servers together write the range once, plus the overrun of its last strip. */
  lemma WritesConserve(n: nat, stripSize: nat, offset: nat, extent: nat)
    requires 0 < n && 0 < stripSize
    ensures WrittenSum(0, n, stripSize, offset, extent) == extent + FinalOverrun(stripSize, offset, extent)
  {
    WrittenSumIs(0, n, stripSize, offset, extent);
    RanksPartition(n, stripSize, offset + extent);
    RanksPartition(n, stripSize, offset);
  }

  /** The regions cut to the first `size` bytes of the physical file. */
  function CutTo(s: seq<FileRegion>, size: nat): seq<FileRegion> {
    if s == [] then [] else CutRegion(s[0], size) + CutTo(s[1..], size)
  }

  function CutRegion(r: FileRegion, size: nat): seq<FileRegion> {
    if r.offset < size then [r.(extent := Max(0, Min(r.End(), size) - r.offset))] else []
  }

  /** A read takes what a write of the same range would, cut to the bytes that exist. */
  lemma {:induction false} ReadIsCutWrite(stripSize: nat, from: nat, to: int, size: nat)
    requires 0 < stripSize
    ensures Pieces(stripSize, from, Min(to, size)) == CutTo(Pieces(stripSize, from, to), size)
    decreases Max(0, to - from)
  {
    if from < to {
      var end := Min(from + (stripSize - from % stripSize), to);
      ReadIsCutWrite(stripSize, end, to, size);
    }
  }

  lemma RangeReadIsCutWrite(d: StripeDistribution, offset: nat, extent: nat, size: nat)
    requires d.Valid()
    ensures RangePieces(d, offset, extent, size, false) == CutTo(RangePieces(d, offset, extent, 0, true), size)
  {
    ReadIsCutWrite(d.stripSize, d.LogicalToPhysicalOffset(offset), WriteEnd(d, offset, extent), size);
  }

  lemma {:induction false} CutToConcat(s: seq<FileRegion>, t: seq<FileRegion>, size: nat)
    ensures CutTo(s + t, size) == CutTo(s, size) + CutTo(t, size)
  {
    if s == [] {
      assert s + t == t;
    } else {
      CutToConcat(s[1..], t, size);
      assert (s + t)[1..] == s[1..] + t;
      Associative(CutRegion(s[0], size), CutTo(s[1..], size), CutTo(t, size));
    }
  }

  // ----- The processor -----

  /** What a server's layout holds for a request: the pieces of each of its ranges. */
  function RequestPieces(d: StripeDistribution, disp: nat, ranges: seq<Range>, bstreamSize: nat,
                         dataExtend: bool): seq<FileRegion>
    requires d.Valid()
  {
    if ranges == [] then []
    else
      var n := |ranges| - 1;
      RequestPieces(d, disp, ranges[..n], bstreamSize, dataExtend)
      + RangePieces(d, disp + ranges[n].offset, ranges[n].extent, bstreamSize, dataExtend)
  }

  /** The same for a whole request. */
  lemma {:induction false} RequestReadIsCutWrite(d: StripeDistribution, disp: nat, ranges: seq<Range>, size: nat)
    requires d.Valid()
    ensures RequestPieces(d, disp, ranges, size, false) == CutTo(RequestPieces(d, disp, ranges, 0, true), size)
  {
    if ranges != [] {
      var n := |ranges| - 1;
      RequestReadIsCutWrite(d, disp, ranges[..n], size);
      RangeReadIsCutWrite(d, disp + ranges[n].offset, ranges[n].extent, size);
      CutToConcat(RequestPieces(d, disp, ranges[..n], 0, true),
                  RangePieces(d, disp + ranges[n].offset, ranges[n].extent, 0, true), size);
    }
  }

  /** The bytes that servers `k`, ..., `n - 1` write for a request. */
  function RequestSum(k: nat, n: nat, stripSize: nat, disp: nat, ranges: seq<Range>): int
    requires k <= n && 0 < stripSize
    decreases n - k
  {
    if k == n then 0
    else
      Length(RequestPieces(StripeDistribution(k, n, stripSize), disp, ranges, 0, true))
      + RequestSum(k + 1, n, stripSize, disp, ranges)
  }

  lemma {:induction false} RequestSumNone(k: nat, n: nat, stripSize: nat, disp: nat)
    requires k <= n && 0 < stripSize
    ensures RequestSum(k, n, stripSize, disp, []) == 0
    decreases n - k
  {
    if k < n {
      RequestSumNone(k + 1, n, stripSize, disp);
    }
  }

  lemma {:induction false} RequestSumLast(k: nat, n: nat, stripSize: nat, disp: nat, ranges: seq<Range>)
    requires k <= n && 0 < stripSize && ranges != []
    ensures var m := |ranges| - 1;
            RequestSum(k, n, stripSize, disp, ranges) ==
            RequestSum(k, n, stripSize, disp, ranges[..m])
            + WrittenSum(k, n, stripSize, disp + ranges[m].offset, ranges[m].extent)
    decreases n - k
  {
    if k < n {
      var d, m := StripeDistribution(k, n, stripSize), |ranges| - 1;
      LengthConcat(RequestPieces(d, disp, ranges[..m], 0, true),
                   RangePieces(d, disp + ranges[m].offset, ranges[m].extent, 0, true));
      RequestSumLast(k + 1, n, stripSize, disp, ranges);
    }
  }

  /** The bytes requested and those the ranges overrun. */
  function RequestSize(stripSize: nat, disp: nat, ranges: seq<Range>): int
    requires 0 < stripSize
  {
    if ranges == [] then 0
    else
      var n := |ranges| - 1;
      RequestSize(stripSize, disp, ranges[..n]) + ranges[n].extent
      + FinalOverrun(stripSize, disp + ranges[n].offset, ranges[n].extent)
  }

  /** The servers' layouts together have the size of the request plus its overruns, however many
      ranges it has and whatever the number of servers. */
  lemma {:induction false} RequestConserves(n: nat, stripSize: nat, disp: nat, ranges: seq<Range>)
    requires 0 < n && 0 < stripSize
    ensures RequestSum(0, n, stripSize, disp, ranges) == RequestSize(stripSize, disp, ranges)
  {
    if ranges == [] {
      RequestSumNone(0, n, stripSize, disp);
    } else {
      RequestConserves(n, stripSize, disp, ranges[..|ranges| - 1]);
      LastRangeConserves(n, stripSize, disp, ranges);
    }
  }

  lemma LastRangeConserves(n: nat, stripSize: nat, disp: nat, ranges: seq<Range>)
    requires 0 < n && 0 < stripSize && ranges != []
    ensures var rest := ranges[..|ranges| - 1];
            RequestSum(0, n, stripSize, disp, ranges) - RequestSum(0, n, stripSize, disp, rest) ==
            RequestSize(stripSize, disp, ranges) - RequestSize(stripSize, disp, rest)
  {
    var m := |ranges| - 1;
    RequestSumLast(0, n, stripSize, disp, ranges);
    WritesConserve(n, stripSize, disp + ranges[m].offset, ranges[m].extent);
  }

  /** The logical byte is in one of the ranges. */
  predicate Requested(disp: nat, ranges: seq<Range>, logical: nat) {
    exists r :: r in ranges && disp + r.offset <= logical < disp + r.End()
  }

  lemma {:induction false} RequestBytesFit(d: StripeDistribution, disp: nat, ranges: seq<Range>, bstreamSize: nat,
                                           b: int)
    requires d.Valid() && b in BytesOf(RequestPieces(d, disp, ranges, bstreamSize, false))
    ensures b < bstreamSize
  {
    if ranges != [] {
      var n := |ranges| - 1;
      var rest := RequestPieces(d, disp, ranges[..n], bstreamSize, false);
      BytesConcat(rest, RangePieces(d, disp + ranges[n].offset, ranges[n].extent, bstreamSize, false));
      RangeBytes(d, disp + ranges[n].offset, ranges[n].extent, bstreamSize, false);
      if b in BytesOf(rest) {
        RequestBytesFit(d, disp, ranges[..n], bstreamSize, b);
      }
    }
  }

  lemma {:induction false} RequestCoversRange(d: StripeDistribution, disp: nat, ranges: seq<Range>, bstreamSize: nat,
                                              dataExtend: bool, r: Range, p: int)
    requires d.Valid() && r in ranges
    requires p in BytesOf(RangePieces(d, disp + r.offset, r.extent, bstreamSize, dataExtend))
    ensures p in BytesOf(RequestPieces(d, disp, ranges, bstreamSize, dataExtend))
  {
    var n := |ranges| - 1;
    BytesConcat(RequestPieces(d, disp, ranges[..n], bstreamSize, dataExtend),
                RangePieces(d, disp + ranges[n].offset, ranges[n].extent, bstreamSize, dataExtend));
    if r != ranges[n] {
      RequestCoversRange(d, disp, ranges[..n], bstreamSize, dataExtend, r, p);
    }
  }

  /** Each byte of a request is emitted by exactly the server that owns it, for a read as far as the
      server's stream goes. */
  lemma RequestEmittedByOwner(d: StripeDistribution, disp: nat, ranges: seq<Range>, bstreamSize: nat, dataExtend: bool,
                              logical: nat)
    requires d.Valid() && Requested(disp, ranges, logical)
    ensures Emits(d, RequestPieces(d, disp, ranges, bstreamSize, dataExtend), logical) <==>
            Serves(d, logical, bstreamSize, dataExtend)
  {
    var pieces := RequestPieces(d, disp, ranges, bstreamSize, dataExtend);
    if Serves(d, logical, bstreamSize, dataExtend) {
      var r :| r in ranges && disp + r.offset <= logical < disp + r.End();
      RangeEmittedByOwner(d, disp + r.offset, r.extent, bstreamSize, dataExtend, logical);
      var p: nat :| p in BytesOf(RangePieces(d, disp + r.offset, r.extent, bstreamSize, dataExtend))
                    && d.PhysicalToLogicalOffset(p) == logical;
      RequestCoversRange(d, disp, ranges, bstreamSize, dataExtend, r, p);
    }
    if p: nat :| p in BytesOf(pieces) && d.PhysicalToLogicalOffset(p) == logical {
      if !dataExtend {
        RequestBytesFit(d, disp, ranges, bstreamSize, p);
      }
      ByteIsServed(d, p, bstreamSize, dataExtend);
    }
  }

  // ----- The last region of a range -----

  lemma {:induction false} OwnedRun(d: StripeDistribution, a: nat, b: nat)
    requires d.Valid() && a <= b && forall l: nat :: a <= l < b ==> d.Owns(l)
    ensures d.LogicalToPhysicalOffset(b) == d.LogicalToPhysicalOffset(a) + (b - a)
    decreases b - a
  {
    if a < b {
      PhysicalStep(d, a);
      OwnedRun(d, a + 1, b);
    }
  }

  /** The strip of the range's last byte begins here. */
  function EndStrip(stripSize: nat, offset: nat, extent: nat): nat
    requires 0 < stripSize && 0 < extent
  {
    var last := offset + extent - 1;
    last / stripSize * stripSize
  }

  lemma EndStripOwned(d: StripeDistribution, offset: nat, extent: nat, l: nat)
    requires d.Valid() && 0 < extent && d.Owns(offset + extent - 1)
    requires EndStrip(d.stripSize, offset, extent) <= l < offset + extent
    ensures d.Owns(l)
  {
    var last := offset + extent - 1;
    assert last == last / d.stripSize * d.stripSize + last % d.stripSize;
    DivIs(l, d.stripSize, last / d.stripSize, l - EndStrip(d.stripSize, offset, extent));
  }

  /** The owner of the last byte writes up to its physical offset when the range stays in one strip.
      Otherwise the last region, from the beginning of the last strip, has the length of a strip, or of the
      whole range when that is shorter, however little of the strip is in the range. */
  lemma OverrunExactly(d: StripeDistribution, offset: nat, extent: nat)
    requires d.Valid() && 0 < extent && d.Owns(offset + extent - 1)
    ensures var begin := EndStrip(d.stripSize, offset, extent);
            WriteEnd(d, offset, extent) ==
            if begin <= offset then d.LogicalToPhysicalOffset(offset + extent)
            else d.LogicalToPhysicalOffset(begin) + Min(d.stripSize, extent)
  {
    var last, begin := offset + extent - 1, EndStrip(d.stripSize, offset, extent);
    assert begin == last - last % d.stripSize <= last;
    forall l: nat | begin <= l < offset + extent ensures d.Owns(l) {
      EndStripOwned(d, offset, extent, l);
    }
    OwnedRun(d, begin, offset + extent);
  }

  // ----- The order of a server's layout -----

  /** Byte `n` of the pieces of a range is the one at physical offset `from + n`. */
  lemma {:induction false} PiecesByte(stripSize: nat, from: nat, to: int, n: nat)
    requires 0 < stripSize && from + n < to
    ensures n < Length(Pieces(stripSize, from, to)) && ByteAt(Pieces(stripSize, from, to), n) == from + n
    decreases Max(0, to - from)
  {
    var end := Min(from + (stripSize - from % stripSize), to);
    PiecesLength(stripSize, from, to);
    assert Pieces(stripSize, from, to)[1..] == Pieces(stripSize, end, to);
    if end <= from + n {
      PiecesByte(stripSize, end, to, n - (end - from));
    }
  }

  /** A range is listed in ascending order, from the physical offset of its first byte on. */
  lemma RangeByteAt(d: StripeDistribution, offset: nat, extent: nat, bstreamSize: nat, dataExtend: bool, n: nat)
    requires d.Valid() && n < Length(RangePieces(d, offset, extent, bstreamSize, dataExtend))
    ensures ByteAt(RangePieces(d, offset, extent, bstreamSize, dataExtend), n) ==
            d.LogicalToPhysicalOffset(offset) + n
  {
    var from, to := d.LogicalToPhysicalOffset(offset), AccessEnd(d, offset, extent, bstreamSize, dataExtend);
    PiecesLength(d.stripSize, from, to);
    PiecesByte(d.stripSize, from, to, n);
  }

  predicate IsStripPiece(stripSize: nat, from: nat, pieces: seq<FileRegion>, i: nat)
    requires 0 < stripSize && i < |pieces|
  {
    && 0 < pieces[i].extent && 0 <= pieces[i].offset && pieces[i].offset % stripSize + pieces[i].extent <= stripSize
    && (if i == 0 then pieces[i].offset == from else pieces[i].offset % stripSize == 0)
    && (i + 1 < |pieces| ==> pieces[i].offset % stripSize + pieces[i].extent == stripSize)
  }

  /** Each piece lies in one strip; each but the first begins one, and each but the last ends one. */
  lemma {:induction false} PiecesAreStrips(stripSize: nat, from: nat, to: int, i: nat)
    requires 0 < stripSize && i < |Pieces(stripSize, from, to)|
    ensures IsStripPiece(stripSize, from, Pieces(stripSize, from, to), i)
    decreases Max(0, to - from)
  {
    var end := Min(from + (stripSize - from % stripSize), to);
    if 0 < i {
      assert Pieces(stripSize, from, to)[i] == Pieces(stripSize, end, to)[i - 1];
      PiecesAreStrips(stripSize, end, to, i - 1);
      NextStrip(from, stripSize);
    }
  }

  lemma NextStrip(from: nat, stripSize: nat)
    requires 0 < stripSize
    ensures (from + (stripSize - from % stripSize)) % stripSize == 0
  {
    assert from == Quot(from, stripSize) * stripSize + from % stripSize;
    TimesNext(Quot(from, stripSize), stripSize);
    DivIs(from + (stripSize - from % stripSize), stripSize, Quot(from, stripSize) + 1, 0);
  }

  /** The file offset of byte number `m` of a request, in the order in which the request names its bytes. */
  function NamedByte(disp: nat, ranges: seq<Range>, m: nat): nat
    requires m < Length(ranges)
  {
    NamedAreOffsets(ranges, m);
    disp + ByteAt(ranges, m)
  }

  lemma {:induction false} NamedAreOffsets(ranges: seq<Range>, m: nat)
    requires m < Length(ranges)
    ensures 0 <= ByteAt(ranges, m)
  {
    if ranges[0].extent <= m {
      NamedAreOffsets(ranges[1..], m - ranges[0].extent);
    }
  }

  /** Which bytes of a request the server serves, by their numbers. */
  function Wanted(d: StripeDistribution, disp: nat, ranges: seq<Range>, bstreamSize: nat,
                  dataExtend: bool): nat -> bool
    requires d.Valid()
  {
    (m: nat) => m < Length(ranges) && Serves(d, NamedByte(disp, ranges, m), bstreamSize, dataExtend)
  }

  /** Where on the server they are. */
  function Target(d: StripeDistribution, disp: nat, ranges: seq<Range>): nat -> nat
    requires d.Valid()
  {
    (m: nat) => if m < Length(ranges) then d.LogicalToPhysicalOffset(NamedByte(disp, ranges, m)) else 0
  }

  /** The regions hold a physical byte at place `p`. */
  predicate IsAt(regions: seq<FileRegion>, physical: int, p: nat) {
    p < Length(regions) && ByteAt(regions, p) == physical
  }

  /** `place` says where in a layout the wanted ones of `count` bytes are. */
  ghost predicate AllAt(count: nat, wanted: nat -> bool, target: nat -> nat, layout: seq<FileRegion>,
                        place: nat -> nat)
  {
    forall m: nat :: m < count && wanted(m) ==> IsAt(layout, target(m), place(m))
  }

  ghost predicate Ascends(count: nat, wanted: nat -> bool, place: nat -> nat) {
    forall a: nat, b: nat :: a < b < count && wanted(a) && wanted(b) ==> place(a) < place(b)
  }

  /** The wanted bytes are in the layout in the same order. */
  ghost predicate PlacedAt(count: nat, wanted: nat -> bool, target: nat -> nat, layout: seq<FileRegion>,
                           place: nat -> nat)
  {
    AllAt(count, wanted, target, layout, place) && Ascends(count, wanted, place)
  }

  /** The layout lists the bytes that the server serves in the order in which the request names them. */
  ghost predicate ListsInOrder(d: StripeDistribution, disp: nat, ranges: seq<Range>, bstreamSize: nat,
                               dataExtend: bool, layout: seq<FileRegion>)
    requires d.Valid()
  {
    exists place: nat -> nat ::
      PlacedAt(Length(ranges), Wanted(d, disp, ranges, bstreamSize, dataExtend), Target(d, disp, ranges), layout, place)
  }

  lemma StaysAt(before: seq<FileRegion>, regions: seq<FileRegion>, physical: int, p: nat)
    requires IsAt(before, physical, p)
    ensures IsAt(before + regions, physical, p)
  {
    LengthConcat(before, regions);
    ByteAtConcat(before, regions, p);
  }

  lemma MovesTo(before: seq<FileRegion>, regions: seq<FileRegion>, physical: int, p: nat)
    requires IsAt(regions, physical, p)
    ensures IsAt(before + regions, physical, Length(before) + p)
  {
    var n := Length(before) + p;
    ByteAtConcat(before, regions, n);
    assert n - Length(before) == p;
  }

  /** The places in two layouts, one after the other. */
  function NextPlace(first: nat, before: nat, place: nat -> nat, place': nat -> nat): nat -> nat {
    (m: nat) => if m < first then place(m) else before + place'(m - first)
  }

  /** The last `count` of `first + count` bytes. */
  ghost predicate Continues(first: nat, count: nat, wanted: nat -> bool, target: nat -> nat,
                            wanted': nat -> bool, target': nat -> nat)
  {
    forall m: nat :: first <= m < first + count && wanted(m) ==>
      wanted'(m - first) && target'(m - first) == target(m)
  }

  lemma PlacedConcat(first: nat, count: nat, wanted: nat -> bool, target: nat -> nat, wanted': nat -> bool,
                     target': nat -> nat, a: seq<FileRegion>, b: seq<FileRegion>, place: nat -> nat, place': nat -> nat)
    requires PlacedAt(first, wanted, target, a, place) && PlacedAt(count, wanted', target', b, place')
    requires Continues(first, count, wanted, target, wanted', target')
    ensures PlacedAt(first + count, wanted, target, a + b, NextPlace(first, Length(a), place, place'))
  {
    AllAtConcat(first, count, wanted, target, wanted', target', a, b, place, place');
    forall m: nat | m < first && wanted(m) ensures place(m) < Length(a) {
      assert IsAt(a, target(m), place(m));
    }
    AscendsConcat(first, count, wanted, wanted', Length(a), place, place');
  }

  lemma AllAtConcat(first: nat, count: nat, wanted: nat -> bool, target: nat -> nat, wanted': nat -> bool,
                    target': nat -> nat, a: seq<FileRegion>, b: seq<FileRegion>, place: nat -> nat, place': nat -> nat)
    requires AllAt(first, wanted, target, a, place) && AllAt(count, wanted', target', b, place')
    requires Continues(first, count, wanted, target, wanted', target')
    ensures AllAt(first + count, wanted, target, a + b, NextPlace(first, Length(a), place, place'))
  {
    var next := NextPlace(first, Length(a), place, place');
    forall m: nat | m < first + count && wanted(m) ensures IsAt(a + b, target(m), next(m)) {
      if m < first {
        StaysAt(a, b, target(m), place(m));
      } else {
        MovesTo(a, b, target(m), place'(m - first));
      }
    }
  }

  lemma AscendsConcat(first: nat, count: nat, wanted: nat -> bool, wanted': nat -> bool, before: nat,
                      place: nat -> nat, place': nat -> nat)
    requires Ascends(first, wanted, place) && Ascends(count, wanted', place')
    requires forall m: nat :: m < first && wanted(m) ==> place(m) < before
    requires forall m: nat :: first <= m < first + count && wanted(m) ==> wanted'(m - first)
    ensures Ascends(first + count, wanted, NextPlace(first, before, place, place'))
  {
    var next := NextPlace(first, before, place, place');
    forall x: nat, y: nat | x < y < first + count && wanted(x) && wanted(y) ensures next(x) < next(y) {
      if first <= x {
        assert wanted'(x - first) && wanted'(y - first);
      }
    }
  }

  /** How many owned bytes lie between. */
  function PlaceOf(d: StripeDistribution, offset: nat, logical: nat): (p: nat)
    requires d.Valid()
  {
    Max(0, d.LogicalToPhysicalOffset(logical) - d.LogicalToPhysicalOffset(offset))
  }

  /** An owned byte is where the count of owned bytes before it says. */
  lemma PlaceInRange(d: StripeDistribution, offset: nat, extent: nat, bstreamSize: nat, dataExtend: bool, logical: nat)
    requires d.Valid() && offset <= logical < offset + extent && Serves(d, logical, bstreamSize, dataExtend)
    ensures IsAt(RangePieces(d, offset, extent, bstreamSize, dataExtend), d.LogicalToPhysicalOffset(logical),
                 PlaceOf(d, offset, logical))
  {
    var from, p := d.LogicalToPhysicalOffset(offset), d.LogicalToPhysicalOffset(logical);
    var to := AccessEnd(d, offset, extent, bstreamSize, dataExtend);
    RangeReachesItsOwner(d, offset, extent, logical);
    OverrunBound(d.stripSize, offset, extent);
    PiecesLength(d.stripSize, from, to);
    PiecesByte(d.stripSize, from, to, p - from);
  }

  lemma PlacesIncrease(d: StripeDistribution, offset: nat, a: nat, b: nat)
    requires d.Valid() && d.Owns(a) && offset <= a < b
    ensures PlaceOf(d, offset, a) < PlaceOf(d, offset, b)
  {
    PhysicalStep(d, a);
    RankMonotone(d, a + 1, b);
    RankMonotone(d, offset, a);
  }

  function ServedFrom(d: StripeDistribution, offset: nat, bstreamSize: nat, dataExtend: bool): nat -> bool
    requires d.Valid()
  {
    (m: nat) => Serves(d, offset + m, bstreamSize, dataExtend)
  }

  function PhysicalFrom(d: StripeDistribution, offset: nat): nat -> nat
    requires d.Valid()
  {
    (m: nat) => d.LogicalToPhysicalOffset(offset + m)
  }

  function PlaceFrom(d: StripeDistribution, offset: nat): nat -> nat
    requires d.Valid()
  {
    (m: nat) => PlaceOf(d, offset, offset + m)
  }

  lemma RangeAt(d: StripeDistribution, offset: nat, extent: nat, bstreamSize: nat, dataExtend: bool, m: nat)
    requires d.Valid() && m < extent && ServedFrom(d, offset, bstreamSize, dataExtend)(m)
    ensures IsAt(RangePieces(d, offset, extent, bstreamSize, dataExtend), PhysicalFrom(d, offset)(m),
                 PlaceFrom(d, offset)(m))
  {
    PlaceInRange(d, offset, extent, bstreamSize, dataExtend, offset + m);
  }

  lemma RangeAscends(d: StripeDistribution, offset: nat, bstreamSize: nat, dataExtend: bool, a: nat, b: nat)
    requires d.Valid() && a < b && ServedFrom(d, offset, bstreamSize, dataExtend)(a)
    ensures PlaceFrom(d, offset)(a) < PlaceFrom(d, offset)(b)
  {
    assert Serves(d, offset + a, bstreamSize, dataExtend);
    PlacesIncrease(d, offset, offset + a, offset + b);
  }

  lemma RangeInOrder(d: StripeDistribution, offset: nat, extent: nat, bstreamSize: nat, dataExtend: bool)
    requires d.Valid()
    ensures PlacedAt(extent, ServedFrom(d, offset, bstreamSize, dataExtend), PhysicalFrom(d, offset),
                     RangePieces(d, offset, extent, bstreamSize, dataExtend), PlaceFrom(d, offset))
  {
    forall m: nat | m < extent && ServedFrom(d, offset, bstreamSize, dataExtend)(m)
      ensures IsAt(RangePieces(d, offset, extent, bstreamSize, dataExtend), PhysicalFrom(d, offset)(m),
                   PlaceFrom(d, offset)(m))
    {
      RangeAt(d, offset, extent, bstreamSize, dataExtend, m);
    }
    forall a: nat, b: nat | a < b < extent && ServedFrom(d, offset, bstreamSize, dataExtend)(a)
      ensures PlaceFrom(d, offset)(a) < PlaceFrom(d, offset)(b)
    {
      RangeAscends(d, offset, bstreamSize, dataExtend, a, b);
    }
  }

  lemma NamedNext(disp: nat, ranges: seq<Range>, n: nat)
    requires ranges != [] && n == |ranges| - 1
    ensures Length(ranges) == Length(ranges[..n]) + ranges[n].extent
    ensures forall m: nat :: m < Length(ranges[..n]) ==> NamedByte(disp, ranges, m) == NamedByte(disp, ranges[..n], m)
    ensures forall m: nat :: Length(ranges[..n]) <= m < Length(ranges) ==>
              NamedByte(disp, ranges, m) == disp + ranges[n].offset + (m - Length(ranges[..n]))
  {
    assert ranges == ranges[..n] + [ranges[n]];
    LengthConcat(ranges[..n], [ranges[n]]);
    assert Length([ranges[n]]) == ranges[n].extent;
    forall m: nat | m < Length(ranges)
      ensures ByteAt(ranges, m) == if m < Length(ranges[..n]) then ByteAt(ranges[..n], m)
                                   else ranges[n].offset + (m - Length(ranges[..n]))
    {
      ByteAtConcat(ranges[..n], [ranges[n]], m);
    }
  }

  lemma PlacedSame(count: nat, wanted: nat -> bool, target: nat -> nat, wanted': nat -> bool, target': nat -> nat,
                   layout: seq<FileRegion>, place: nat -> nat)
    requires PlacedAt(count, wanted, target, layout, place)
    requires forall m: nat :: m < count && wanted'(m) ==> wanted(m) && target(m) == target'(m)
    ensures PlacedAt(count, wanted', target', layout, place)
  {
  }

  lemma RequestNext(d: StripeDistribution, disp: nat, ranges: seq<Range>, bstreamSize: nat, dataExtend: bool,
                    before: seq<FileRegion>)
    requires d.Valid() && ranges != []
    requires ListsInOrder(d, disp, ranges[..|ranges| - 1], bstreamSize, dataExtend, before)
    ensures var r := ranges[|ranges| - 1];
            ListsInOrder(d, disp, ranges, bstreamSize, dataExtend,
                         before + RangePieces(d, disp + r.offset, r.extent, bstreamSize, dataExtend))
  {
    var n := |ranges| - 1;
    var offset, first, rest := disp + ranges[n].offset, Length(ranges[..n]), ranges[..n];
    var regions := RangePieces(d, offset, ranges[n].extent, bstreamSize, dataExtend);
    var wanted, target := Wanted(d, disp, ranges, bstreamSize, dataExtend), Target(d, disp, ranges);
    var place :| PlacedAt(first, Wanted(d, disp, rest, bstreamSize, dataExtend), Target(d, disp, rest), before, place);
    NamedNext(disp, ranges, n);
    PlacedSame(first, Wanted(d, disp, rest, bstreamSize, dataExtend), Target(d, disp, rest), wanted, target, before,
               place);
    RangeInOrder(d, offset, ranges[n].extent, bstreamSize, dataExtend);
    PlacedConcat(first, ranges[n].extent, wanted, target, ServedFrom(d, offset, bstreamSize, dataExtend),
                 PhysicalFrom(d, offset), before, regions, place, PlaceFrom(d, offset));
  }

  /** A server's layout lists the bytes it serves in the order in which the request names them. */
  lemma {:induction false} RequestInOrder(d: StripeDistribution, disp: nat, ranges: seq<Range>, bstreamSize: nat,
                                        dataExtend: bool)
    requires d.Valid()
    ensures ListsInOrder(d, disp, ranges, bstreamSize, dataExtend,
                         RequestPieces(d, disp, ranges, bstreamSize, dataExtend))
  {
    if ranges == [] {
      assert PlacedAt(Length(ranges), Wanted(d, disp, ranges, bstreamSize, dataExtend), Target(d, disp, ranges),
                      RequestPieces(d, disp, ranges, bstreamSize, dataExtend), m => m);
    } else {
      RequestInOrder(d, disp, ranges[..|ranges| - 1], bstreamSize, dataExtend);
      RequestNext(d, disp, ranges, bstreamSize, dataExtend,
                  RequestPieces(d, disp, ranges[..|ranges| - 1], bstreamSize, dataExtend));
    }
  }

  /** What the first ranges add comes first. */
  lemma {:induction false} RequestPrefix(d: StripeDistribution, disp: nat, ranges: seq<Range>, k: nat,
                                       bstreamSize: nat, dataExtend: bool)
    requires d.Valid() && k <= |ranges|
    ensures RequestPieces(d, disp, ranges[..k], bstreamSize, dataExtend)
            <= RequestPieces(d, disp, ranges, bstreamSize, dataExtend)
    decreases |ranges|
  {
    if k == |ranges| {
      assert ranges[..k] == ranges;
    } else {
      var n := |ranges| - 1;
      RequestPrefix(d, disp, ranges[..n], k, bstreamSize, dataExtend);
      assert ranges[..n][..k] == ranges[..k];
    }
  }

  method DistributeContiguousRegion(offset: nat, extent: nat, dist: StripeDistribution, bstreamSize: nat,
                                    dataExtend: bool, outLayout: DataTypeLayout)
    requires dist.Valid()
    modifies outLayout
    ensures outLayout.fileRegions ==
            old(outLayout.fileRegions) + RangePieces(dist, offset, extent, bstreamSize, dataExtend)
  {
    ghost var from := dist.LogicalToPhysicalOffset(offset);
    ghost var x: nat := from;
    FirstReached(dist, offset, extent);
    var logServerOffset := dist.NextMappedLogicalOffset(offset);
    while logServerOffset < offset + extent
      invariant 0 <= logServerOffset && Reached(dist, offset, extent, logServerOffset, x)
      invariant outLayout.fileRegions ==
                old(outLayout.fileRegions) + Pieces(dist.stripSize, from, Upto(x, bstreamSize, dataExtend))
      decreases offset + extent - logServerOffset
    {
      StripReached(dist, offset, extent, logServerOffset, x);
      var physOffset := dist.LogicalToPhysicalOffset(logServerOffset);
      var serverExtent := dist.ContiguousLength(physOffset);
      var requestedExtent := Min(serverExtent, extent);
      StripAdded(dist, offset, logServerOffset, requestedExtent, bstreamSize, dataExtend);
      if dataExtend {
        outLayout.AddRegion(physOffset, requestedExtent);
      } else if physOffset < bstreamSize {
        var finalSize := Min(physOffset + requestedExtent, bstreamSize);
        outLayout.AddRegion(physOffset, finalSize - physOffset);
      }
      x := x + requestedExtent;
      logServerOffset := dist.NextMappedLogicalOffset(logServerOffset + serverExtent);
    }
  }

  function Upto(x: int, bstreamSize: nat, dataExtend: bool): int {
    if dataExtend then x else Min(x, bstreamSize)
  }

  /** One strip adds one piece, or none when there is nothing to read. */
  lemma StripAdded(d: StripeDistribution, offset: nat, logical: nat, extent: nat, bstreamSize: nat, dataExtend: bool)
    requires d.Valid() && d.Owns(logical) && (logical == offset || logical % d.stripSize == 0)
    requires var x := d.LogicalToPhysicalOffset(logical);
             d.LogicalToPhysicalOffset(offset) <= x && 0 < extent <= d.ContiguousLength(x)
    ensures var from, x := d.LogicalToPhysicalOffset(offset), d.LogicalToPhysicalOffset(logical);
            Pieces(d.stripSize, from, Upto(x + extent, bstreamSize, dataExtend)) ==
            Pieces(d.stripSize, from, Upto(x, bstreamSize, dataExtend))
            + if dataExtend || x < bstreamSize
              then [FileRegion(x, Upto(x + extent, bstreamSize, dataExtend) - x)] else []
  {
    var from, x := d.LogicalToPhysicalOffset(offset), d.LogicalToPhysicalOffset(logical);
    StartsPiece(d, offset, logical);
    if dataExtend || x < bstreamSize {
      PiecesAppend(d.stripSize, from, x, Upto(x + extent, bstreamSize, dataExtend));
    }
  }

  /** Every piece but the first starts a strip. */
  lemma StartsPiece(d: StripeDistribution, offset: nat, logical: nat)
    requires d.Valid() && d.Owns(logical) && (logical == offset || logical % d.stripSize == 0)
    ensures var x := d.LogicalToPhysicalOffset(logical);
            x == d.LogicalToPhysicalOffset(offset) || x % d.stripSize == 0
  {
    OwnedAligned(d, logical);
  }

  /** The ranges come from the file view's data type; `disp` is the view's displacement. */
  method ProcessServerRequest(ranges: seq<Range>, disp: nat, dist: StripeDistribution, bstreamSize: nat,
                              dataExtend: bool, outLayout: DataTypeLayout) returns (length: nat)
    requires dist.Valid()
    modifies outLayout
    ensures outLayout.fileRegions ==
            old(outLayout.fileRegions) + RequestPieces(dist, disp, ranges, bstreamSize, dataExtend)
    ensures forall k :: 0 <= k <= |ranges| ==>
              old(outLayout.fileRegions) + RequestPieces(dist, disp, ranges[..k], bstreamSize, dataExtend)
              <= outLayout.fileRegions
    ensures old(outLayout.fileRegions) <= outLayout.fileRegions
    ensures ListsInOrder(dist, disp, ranges, bstreamSize, dataExtend,
                         outLayout.fileRegions[|old(outLayout.fileRegions)|..])
    ensures length == Length(outLayout.fileRegions)
  {
    for i := 0 to |ranges|
      invariant outLayout.fileRegions ==
                old(outLayout.fileRegions) + RequestPieces(dist, disp, ranges[..i], bstreamSize, dataExtend)
    {
      assert ranges[..i + 1][..i] == ranges[..i];
      DistributeContiguousRegion(disp + ranges[i].offset, ranges[i].extent, dist, bstreamSize, dataExtend, outLayout);
    }
    assert ranges[..|ranges|] == ranges;
    forall k | 0 <= k <= |ranges|
      ensures old(outLayout.fileRegions) + RequestPieces(dist, disp, ranges[..k], bstreamSize, dataExtend)
              <= outLayout.fileRegions
    {
      RequestPrefix(dist, disp, ranges, k, bstreamSize, dataExtend);
    }
    ghost var added := outLayout.fileRegions[|old(outLayout.fileRegions)|..];
    assert added == RequestPieces(dist, disp, ranges, bstreamSize, dataExtend);
    RequestInOrder(dist, disp, ranges, bstreamSize, dataExtend);
    length := outLayout.GetLength();
  }
}
