/** Pages: which pages a request touches, which of them it covers wholly, and what it needs of a page. */
module FilePages {
  import opened Arithmetic
  import opened Sequences
  import opened FileRegions
  import opened DataTypeLayouts
  import opened IndexedTypes

  /** A region of the file. */
  type Located = r: FileRegion | 0 <= r.offset witness FileRegion(0, 0)

  /** The largest 64-bit size. */
  const SIZE_MAX: int := 0xFFFF_FFFF_FFFF_FFFF

  /** The last byte of a region as the code computes it, in unsigned 64-bit arithmetic: for a region
      without bytes the byte before it, which wraps around at offset 0. */
  function LastByte(r: FileRegion): int {
    if r.End() == 0 then SIZE_MAX else r.End() - 1
  }

  function PageBegin(pageSize: nat, page: nat): nat {
    page * pageSize
  }

  function PageBytes(pageSize: nat, page: nat): set<int> {
    Interval(PageBegin(pageSize, page), PageBegin(pageSize, page) + pageSize)
  }

  lemma PageOf(pageSize: nat, b: nat, page: nat)
    requires 0 < pageSize
    ensures b / pageSize == page <==> PageBegin(pageSize, page) <= b < PageBegin(pageSize, page) + pageSize
  {
    assert b == b / pageSize * pageSize + b % pageSize;
    if PageBegin(pageSize, page) <= b < PageBegin(pageSize, page) + pageSize {
      DivIs(b, pageSize, page, b - page * pageSize);
    }
  }

  lemma OffBoundary(pageSize: nat, b: nat, page: nat)
    requires 0 < pageSize
    ensures b % pageSize != 0 && b / pageSize == page <==>
            PageBegin(pageSize, page) < b < PageBegin(pageSize, page) + pageSize
  {
    PageOf(pageSize, b, page);
    if b == PageBegin(pageSize, page) {
      DivIs(b, pageSize, page, 0);
    }
  }

  /** The region begins or ends strictly inside the page. */
  predicate Splits(r: FileRegion, pageSize: nat, page: nat) {
    var begin := PageBegin(pageSize, page);
    begin < r.offset < begin + pageSize || begin < r.End() < begin + pageSize
  }

  /** The page holds a byte from the region's first to its last. */
  predicate Touches(r: FileRegion, pageSize: nat, page: nat) {
    r.offset < PageBegin(pageSize, page) + pageSize && PageBegin(pageSize, page) <= LastByte(r)
  }

  lemma PagesBetween(pageSize: nat, a: nat, b: nat, page: nat)
    requires 0 < pageSize
    ensures a / pageSize <= page <==> a < PageBegin(pageSize, page) + pageSize
    ensures page <= b / pageSize <==> PageBegin(pageSize, page) <= b
  {
    QuotientCompare(a, pageSize, page);
    QuotientCompare(b, pageSize, page);
  }

  predicate AnyTouches(regions: seq<FileRegion>, pageSize: nat, page: nat) {
    exists r :: r in regions && Touches(r, pageSize, page)
  }

  predicate AnySplits(regions: seq<FileRegion>, pageSize: nat, page: nat) {
    exists r :: r in regions && Splits(r, pageSize, page)
  }

  lemma OneMore(regions: seq<FileRegion>, i: nat, pageSize: nat, page: nat)
    requires i < |regions|
    ensures AnyTouches(regions[..i + 1], pageSize, page) <==>
            AnyTouches(regions[..i], pageSize, page) || Touches(regions[i], pageSize, page)
    ensures AnySplits(regions[..i + 1], pageSize, page) <==>
            AnySplits(regions[..i], pageSize, page) || Splits(regions[i], pageSize, page)
  {
    assert regions[..i + 1] == regions[..i] + [regions[i]];
    assert forall r :: r in regions[..i + 1] <==> r in regions[..i] || r == regions[i];
  }

  /** The loop over the pages ends: its last page is not the largest 64-bit number. */
  predicate PagesEnd(pageSize: nat, fileRegions: seq<Located>) {
    1 < pageSize || forall r :: r in fileRegions ==> 0 < r.End()
  }

  /** The pages the regions touch. */
  method RegionsToPageIds(pageSize: nat, fileRegions: seq<Located>) returns (pageIds: set<nat>)
    requires 0 < pageSize && PagesEnd(pageSize, fileRegions)
    ensures forall id: nat :: id in pageIds <==> AnyTouches(fileRegions, pageSize, id)
  {
    pageIds := {};
    for i := 0 to |fileRegions|
      invariant forall id: nat :: id in pageIds <==> AnyTouches(fileRegions[..i], pageSize, id)
    {
      var r := fileRegions[i];
      var pages := PageRange(Quot(r.offset, pageSize), Quot(LastByte(r), pageSize));
      forall id: nat ensures id in pageIds + pages <==> AnyTouches(fileRegions[..i + 1], pageSize, id) {
        OneMore(fileRegions, i, pageSize, id);
        PagesBetween(pageSize, r.offset, LastByte(r), id);
      }
      pageIds := pageIds + pages;
    }
    assert fileRegions[..|fileRegions|] == fileRegions;
  }

  /** The inner loop of `RegionsToPageIds`. */
  method PageRange(firstPage: nat, lastPage: nat) returns (pageIds: set<nat>)
    ensures forall id: nat :: id in pageIds <==> firstPage <= id <= lastPage
  {
    pageIds := {};
    var j := firstPage;
    while j <= lastPage
      invariant firstPage <= j
      invariant forall id: nat :: id in pageIds <==> firstPage <= id < j && id <= lastPage
    {
      pageIds := pageIds + {j};
      j := j + 1;
    }
  }

  /** The pages some region begins or ends inside of. */
  method DeterminePartialPages(pageSize: nat, fileRegions: seq<Located>) returns (pageIds: set<nat>)
    requires 0 < pageSize
    ensures forall id: nat :: id in pageIds <==> AnySplits(fileRegions, pageSize, id)
  {
    pageIds := {};
    for i := 0 to |fileRegions|
      invariant forall id: nat :: id in pageIds <==> AnySplits(fileRegions[..i], pageSize, id)
    {
      var begins := PageInside(pageSize, fileRegions[i].offset);
      var ends := PageInside(pageSize, fileRegions[i].End());
      forall id: nat ensures id in pageIds + begins + ends <==> AnySplits(fileRegions[..i + 1], pageSize, id) {
        OneMore(fileRegions, i, pageSize, id);
      }
      pageIds := pageIds + begins + ends;
    }
    assert fileRegions[..|fileRegions|] == fileRegions;
  }

  /** The boundary tests of `DeterminePartialPages`: the page that `b` lies strictly inside of. */
  method PageInside(pageSize: nat, b: nat) returns (pageIds: set<nat>)
    requires 0 < pageSize
    ensures forall id: nat :: id in pageIds <==> PageBegin(pageSize, id) < b < PageBegin(pageSize, id) + pageSize
  {
    pageIds := {};
    if b % pageSize != 0 {
      pageIds := {Quot(b, pageSize)};
    }
    forall id: nat ensures id in pageIds <==> PageBegin(pageSize, id) < b < PageBegin(pageSize, id) + pageSize {
      OffBoundary(pageSize, b, id);
    }
  }

  /** The pages touched but not split. */
  method DetermineFullPages(pageSize: nat, fileRegions: seq<Located>) returns (pageIds: set<nat>)
    requires 0 < pageSize && PagesEnd(pageSize, fileRegions)
    ensures forall id: nat :: id in pageIds <==> IsFull(fileRegions, pageSize, id)
  {
    var all := RegionsToPageIds(pageSize, fileRegions);
    var partial := DeterminePartialPages(pageSize, fileRegions);
    pageIds := all - partial;
  }

  predicate IsFull(regions: seq<FileRegion>, pageSize: nat, page: nat) {
    AnyTouches(regions, pageSize, page) && !AnySplits(regions, pageSize, page)
  }

  // ----- What the classification means -----

  /** A page is touched when it holds a byte of the regions. */
  lemma TouchedHoldsByte(regions: seq<Located>, pageSize: nat, page: nat)
    requires 0 < pageSize && NonEmpty(regions)
    ensures AnyTouches(regions, pageSize, page) <==> BytesOf(regions) * PageBytes(pageSize, page) != {}
  {
    var begin := PageBegin(pageSize, page);
    if AnyTouches(regions, pageSize, page) {
      var r :| r in regions && Touches(r, pageSize, page);
      var b := Max(begin, r.offset);
      BytesHas(regions, b);
      assert b in BytesOf(regions) * PageBytes(pageSize, page);
    }
    if b :| b in BytesOf(regions) * PageBytes(pageSize, page) {
      BytesHas(regions, b);
      var r :| r in regions && b in r.Bytes();
      assert Touches(r, pageSize, page);
    }
  }

  /** A page that is split is touched: partial pages are among the pages of the request. */
  lemma PartialPagesAreTouched(regions: seq<Located>, pageSize: nat, page: nat)
    requires 0 < pageSize && NonEmpty(regions) && AnySplits(regions, pageSize, page)
    ensures AnyTouches(regions, pageSize, page)
  {
    var r :| r in regions && Splits(r, pageSize, page);
    assert Touches(r, pageSize, page);
  }

  /** Every page reported full is wholly covered by one region. */
  lemma FullPageIsCovered(regions: seq<Located>, pageSize: nat, page: nat)
    requires 0 < pageSize && NonEmpty(regions) && IsFull(regions, pageSize, page)
    ensures exists r :: r in regions && PageBytes(pageSize, page) <= r.Bytes()
  {
    var r :| r in regions && Touches(r, pageSize, page);
    assert !Splits(r, pageSize, page);
  }

  /** The region of a canonical set that holds the first byte of a covered page holds all of it. */
  lemma CoveredByOne(regions: seq<FileRegion>, pageSize: nat, page: nat) returns (r: FileRegion)
    requires 0 < pageSize && Canonical(regions) && PageBytes(pageSize, page) <= BytesOf(regions)
    ensures r in regions && PageBytes(pageSize, page) <= r.Bytes()
  {
    var begin := PageBegin(pageSize, page);
    assert begin in PageBytes(pageSize, page);
    BytesHas(regions, begin);
    r :| r in regions && begin in r.Bytes();
    if r.End() < begin + pageSize {
      assert r.End() in PageBytes(pageSize, page);
      BytesHas(regions, r.End());
      var q :| q in regions && r.End() in q.Bytes();
      CanonicalApart(regions, r, q);
    }
  }

  lemma CanonicalApart(regions: seq<FileRegion>, r: FileRegion, q: FileRegion)
    requires Canonical(regions) && r in regions && q in regions && r != q
    ensures r.End() < q.offset || q.End() < r.offset
  {
    var i :| 0 <= i < |regions| && regions[i] == r;
    var j :| 0 <= j < |regions| && regions[j] == q;
    assert i < j || j < i;
  }

  /** A region that ends or begins strictly inside a page has a byte on it. */
  lemma SplitHasByte(q: FileRegion, pageSize: nat, page: nat)
    requires 0 < q.extent && Splits(q, pageSize, page)
    ensures q.offset in PageBytes(pageSize, page) || q.End() - 1 in PageBytes(pageSize, page)
  {
  }

  lemma CoveredIsFull(regions: seq<Located>, pageSize: nat, page: nat, i: nat)
    requires 0 < pageSize && Apart(regions) && NonEmpty(regions)
    requires i < |regions| && PageBytes(pageSize, page) <= regions[i].Bytes()
    ensures IsFull(regions, pageSize, page)
  {
    var begin := PageBegin(pageSize, page);
    assert begin in PageBytes(pageSize, page) && begin + pageSize - 1 in PageBytes(pageSize, page);
    assert Touches(regions[i], pageSize, page);
    forall j | 0 <= j < |regions| ensures !Splits(regions[j], pageSize, page) {
      if Splits(regions[j], pageSize, page) {
        SplitHasByte(regions[j], pageSize, page);
      }
      assert i < j ==> !Overlap(regions[i], regions[j]);
      assert j < i ==> !Overlap(regions[j], regions[i]);
    }
  }

  /** For nonempty regions that do not overlap, touching or not and in any order, the full pages are
      exactly those that lie in one region. */
  lemma FullPagesExactly(regions: seq<Located>, pageSize: nat, page: nat)
    requires 0 < pageSize && Apart(regions) && NonEmpty(regions)
    ensures IsFull(regions, pageSize, page) <==> exists r :: r in regions && PageBytes(pageSize, page) <= r.Bytes()
  {
    if IsFull(regions, pageSize, page) {
      FullPageIsCovered(regions, pageSize, page);
    }
    if r :| r in regions && PageBytes(pageSize, page) <= r.Bytes() {
      var i :| 0 <= i < |regions| && regions[i] == r;
      CoveredIsFull(regions, pageSize, page, i);
    }
  }

  /** For sorted regions that do not touch either, they are exactly the wholly covered ones. */
  lemma FullPagesOfCanonical(regions: seq<Located>, pageSize: nat, page: nat)
    requires 0 < pageSize && Canonical(regions) && NonEmpty(regions)
    ensures IsFull(regions, pageSize, page) <==> PageBytes(pageSize, page) <= BytesOf(regions)
  {
    CanonicalIsApart(regions);
    FullPagesExactly(regions, pageSize, page);
    if r :| r in regions && PageBytes(pageSize, page) <= r.Bytes() {
      forall b | b in PageBytes(pageSize, page) ensures b in BytesOf(regions) {
        BytesHas(regions, b);
      }
    }
    if PageBytes(pageSize, page) <= BytesOf(regions) {
      var r := CoveredByOne(regions, pageSize, page);
    }
  }

  /** Regions that touch can cover a page between them and still leave it partial. */
  lemma TouchingRegionsCanHideAFullPage()
    ensures var regions := [FileRegion(0, 5), FileRegion(5, 5)];
            PageBytes(10, 0) <= BytesOf(regions) && AnySplits(regions, 10, 0)
  {
    var regions := [FileRegion(0, 5), FileRegion(5, 5)];
    forall b | b in PageBytes(10, 0) ensures b in BytesOf(regions) {
      BytesHas(regions, b);
      assert b in regions[0].Bytes() || b in regions[1].Bytes();
    }
    assert regions[0] in regions && Splits(regions[0], 10, 0);
  }

  // ----- What a request needs of one page -----

  method DeterminePartialPageRegions(pageSize: nat, pageId: nat, fileRegions: seq<Located>)
    returns (pageRegions: FileRegionSet)
    requires 0 < pageSize
    ensures fresh(pageRegions) && pageRegions.Valid()
    ensures BytesOf(pageRegions.regions) == BytesOf(fileRegions) * PageBytes(pageSize, pageId)
  {
    pageRegions := new FileRegionSet();
    var pageBegin := PageBegin(pageSize, pageId);
    var pageEnd := pageBegin + pageSize;
    ghost var page := PageBytes(pageSize, pageId);
    for i := 0 to |fileRegions|
      invariant fresh(pageRegions) && pageRegions.Valid()
      invariant BytesOf(pageRegions.regions) == BytesOf(fileRegions[..i]) * page
    {
      var onPage, partial := TruncateToPage(fileRegions[i], pageBegin, pageEnd);
      OnPageMore(fileRegions, i, pageBegin, pageEnd, page, if onPage then partial.Bytes() else {});
      if onPage {
        pageRegions.Insert(partial);
      }
    }
    assert fileRegions[..|fileRegions|] == fileRegions;
  }

  /** The branches of `DeterminePartialPageRegions`: the part of a region that lies on the page. */
  method TruncateToPage(r: Located, pageBegin: nat, pageEnd: nat) returns (onPage: bool, partial: FileRegion)
    requires pageBegin < pageEnd
    ensures Interval(Max(r.offset, pageBegin), Min(r.End(), pageEnd)) == if onPage then partial.Bytes() else {}
  {
    var regionBegin, regionEnd := r.offset, r.End();
    onPage, partial := true, FileRegion(pageBegin, 0);
    if regionBegin <= pageBegin && regionEnd >= pageEnd {
      partial := FileRegion(pageBegin, pageEnd - pageBegin);
    } else if regionBegin >= pageBegin && regionBegin < pageEnd {
      partial := FileRegion(regionBegin, Min(pageEnd, regionEnd) - regionBegin);
    } else if regionEnd >= pageBegin && regionEnd < pageEnd {
      partial := FileRegion(pageBegin, regionEnd - pageBegin);
    } else {
      onPage := false;
    }
  }

  /** What one more region adds to an interval. */
  lemma OnPageMore(regions: seq<FileRegion>, i: nat, begin: int, end: int, page: set<int>, more: set<int>)
    requires i < |regions| && page == Interval(begin, end)
    requires more == Interval(Max(regions[i].offset, begin), Min(regions[i].End(), end))
    ensures BytesOf(regions[..i + 1]) * page == BytesOf(regions[..i]) * page + more
  {
    BytesMore(regions, i);
  }

  lemma BytesMore(regions: seq<FileRegion>, i: nat)
    requires i < |regions|
    ensures BytesOf(regions[..i + 1]) == BytesOf(regions[..i]) + regions[i].Bytes()
  {
    assert regions[..i + 1] == regions[..i] + [regions[i]];
    BytesConcat(regions[..i], [regions[i]]);
    assert BytesOf([regions[i]]) == regions[i].Bytes();
  }

  /** The bytes of some pages. */
  function BytesOfPages(pageSize: nat, pages: seq<nat>): set<int> {
    if pages == [] then {} else PageBytes(pageSize, pages[0]) + BytesOfPages(pageSize, pages[1..])
  }

  lemma {:induction false} PagesHave(pageSize: nat, pages: seq<nat>, b: nat)
    requires 0 < pageSize
    ensures b in BytesOfPages(pageSize, pages) <==> b / pageSize in pages
  {
    if pages != [] {
      PagesHave(pageSize, pages[1..], b);
      PageOf(pageSize, b, pages[0]);
    }
  }

  lemma PageIsApart(pageSize: nat, page: nat, pages: seq<nat>)
    requires 0 < pageSize && page !in pages
    ensures PageBytes(pageSize, page) !! BytesOfPages(pageSize, pages)
  {
    forall b | b in PageBytes(pageSize, page) ensures b !in BytesOfPages(pageSize, pages) {
      PageOf(pageSize, b, page);
      PagesHave(pageSize, pages, b);
    }
  }

  /** The number of `bytes` on each of some different pages: together those on all of them. */
  lemma {:induction false} PagesShareBytes(bytes: set<int>, pageSize: nat, pages: seq<nat>, counts: seq<nat>)
    requires 0 < pageSize && Distinct(pages) && |counts| == |pages|
    requires forall i :: 0 <= i < |pages| ==> counts[i] == |bytes * PageBytes(pageSize, pages[i])|
    ensures Sum(counts) == |bytes * BytesOfPages(pageSize, pages)|
  {
    if pages == [] {
      assert bytes * BytesOfPages(pageSize, pages) == {};
    } else {
      PagesShareBytes(bytes, pageSize, pages[1..], counts[1..]);
      PageIsApart(pageSize, pages[0], pages[1..]);
      CountUnion(bytes, PageBytes(pageSize, pages[0]), BytesOfPages(pageSize, pages[1..]));
    }
  }

  lemma CountUnion(bytes: set<int>, a: set<int>, b: set<int>)
    requires a !! b
    ensures |bytes * (a + b)| == |bytes * a| + |bytes * b|
  {
    assert bytes * (a + b) == bytes * a + bytes * b;
  }

  /** The pages are different and include every page of the request. */
  ghost predicate IncludesPages(regions: seq<Located>, pageSize: nat, pages: seq<nat>) {
    Distinct(pages) && forall page: nat :: AnyTouches(regions, pageSize, page) ==> page in pages
  }

  lemma BytesAreOnPages(regions: seq<Located>, pageSize: nat, pages: seq<nat>, b: int)
    requires 0 < pageSize && IncludesPages(regions, pageSize, pages) && b in BytesOf(regions)
    ensures b in BytesOfPages(pageSize, pages)
  {
    BytesHas(regions, b);
    var r :| r in regions && b in r.Bytes();
    var page := Quot(b, pageSize);
    PageOf(pageSize, b, page);
    assert Touches(r, pageSize, page);
    PagesHave(pageSize, pages, b);
  }

  ghost predicate CountsBytes(regions: seq<Located>, pageSize: nat, pages: seq<nat>, counts: seq<nat>) {
    && |counts| == |pages|
    && forall i :: 0 <= i < |pages| ==> counts[i] == |BytesOf(regions) * PageBytes(pageSize, pages[i])|
  }

  /** The byte counts of all pages of a request sum to its size, for regions that do not overlap, in
      any order. */
  lemma PageCountsSum(regions: seq<Located>, pageSize: nat, pages: seq<nat>, counts: seq<nat>)
    requires 0 < pageSize && Apart(regions) && IncludesPages(regions, pageSize, pages)
    requires CountsBytes(regions, pageSize, pages, counts)
    ensures Sum(counts) == Length(regions)
  {
    PagesShareBytes(BytesOf(regions), pageSize, pages, counts);
    LengthCounts(regions);
    forall b | b in BytesOf(regions) ensures b in BytesOfPages(pageSize, pages) {
      BytesAreOnPages(regions, pageSize, pages, b);
    }
    assert BytesOf(regions) * BytesOfPages(pageSize, pages) == BytesOf(regions);
  }

  lemma CountsMore(regions: seq<Located>, pageSize: nat, pages: seq<nat>, counts: seq<nat>, count: nat)
    requires |counts| < |pages| && CountsBytes(regions, pageSize, pages[..|counts|], counts)
    requires count == |BytesOf(regions) * PageBytes(pageSize, pages[|counts|])|
    ensures CountsBytes(regions, pageSize, pages[..|counts| + 1], counts + [count])
  {
    var n := |counts|;
    forall i | 0 <= i < n + 1
      ensures (counts + [count])[i] == |BytesOf(regions) * PageBytes(pageSize, pages[..n + 1][i])|
    {
      assert pages[..n + 1][i] == if i < n then pages[..n][i] else pages[n];
    }
  }

  /** The bytes that `DeterminePartialPageRegions` finds on each of some pages. */
  method CountPageBytes(pageSize: nat, fileRegions: seq<Located>, pages: seq<nat>) returns (counts: seq<nat>)
    requires 0 < pageSize
    ensures CountsBytes(fileRegions, pageSize, pages, counts)
    ensures Apart(fileRegions) && IncludesPages(fileRegions, pageSize, pages) ==> Sum(counts) == Length(fileRegions)
  {
    counts := [];
    for i := 0 to |pages|
      invariant CountsBytes(fileRegions, pageSize, pages[..i], counts)
    {
      var pageRegions := DeterminePartialPageRegions(pageSize, pages[i], fileRegions);
      var numBytes := pageRegions.NumBytes();
      CountsMore(fileRegions, pageSize, pages, counts, numBytes);
      counts := counts + [numBytes];
    }
    assert pages[..|pages|] == pages;
    if Apart(fileRegions) && IncludesPages(fileRegions, pageSize, pages) {
      PageCountsSum(fileRegions, pageSize, pages, counts);
    }
  }

  // ----- The page view -----

  ghost predicate Increasing(ids: seq<nat>) {
    forall i, j :: 0 <= i < j < |ids| ==> ids[i] < ids[j]
  }

  /** A view of the given pages, in order; the set of pages is given as the sequence it iterates over. */
  method CreatePageViewDescriptor(pageSize: nat, pageIds: seq<nat>) returns (view: Indexed)
    requires 0 < pageSize && pageIds != [] && Increasing(pageIds)
    ensures view.Valid() && view.Separate() && view.DataSize() == |pageIds| * pageSize
    ensures view.Blocks() == PageBlocks(pageSize, pageIds)
  {
    var displacements := [];
    for i := 0 to |pageIds|
      invariant |displacements| == i && forall k :: 0 <= k < i ==> displacements[k] == PageBegin(pageSize, pageIds[k])
    {
      displacements := displacements + [pageIds[i] * pageSize];
    }
    view := Indexed(seq(|pageIds|, _ => pageSize), displacements, 1);
    forall i, j | 0 <= i < j < |pageIds| ensures displacements[i] + pageSize <= displacements[j] {
      TimesNext(pageIds[i], pageSize);
      TimesMonotone(pageIds[i] + 1, pageIds[j], pageSize);
    }
    assert view.Blocks() == PageBlocks(pageSize, pageIds);
    PageBlocksLength(pageSize, pageIds);
    TimesMonotone(1, |pageIds|, pageSize);
  }

  function PageBlocks(pageSize: nat, ids: seq<nat>): (s: seq<FileRegion>)
    ensures |s| == |ids|
  {
    seq(|ids|, i requires 0 <= i < |ids| => FileRegion(PageBegin(pageSize, ids[i]), pageSize))
  }

  lemma {:induction false} PageBlocksLength(pageSize: nat, ids: seq<nat>)
    ensures Length(PageBlocks(pageSize, ids)) == |ids| * pageSize
  {
    if ids != [] {
      assert PageBlocks(pageSize, ids)[1..] == PageBlocks(pageSize, ids[1..]);
      PageBlocksLength(pageSize, ids[1..]);
      TimesNext(|ids| - 1, pageSize);
    }
  }

  lemma PageBlocksTouch(pageSize: nat, ids: seq<nat>, page: nat)
    requires 0 < pageSize
    ensures AnyTouches(PageBlocks(pageSize, ids), pageSize, page) <==> page in ids
    ensures !AnySplits(PageBlocks(pageSize, ids), pageSize, page)
  {
    forall id: nat {:trigger PageBegin(pageSize, id)}
      ensures Touches(FileRegion(PageBegin(pageSize, id), pageSize), pageSize, page) <==> id == page
      ensures !Splits(FileRegion(PageBegin(pageSize, id), pageSize), pageSize, page)
    {
      PagesApart(pageSize, id, page);
    }
    if page in ids {
      var i :| 0 <= i < |ids| && ids[i] == page;
      assert PageBlocks(pageSize, ids)[i] in PageBlocks(pageSize, ids);
    }
  }

  lemma PagesApart(pageSize: nat, a: nat, b: nat)
    requires 0 < pageSize
    ensures a < b ==> PageBegin(pageSize, a) + pageSize <= PageBegin(pageSize, b)
    ensures b < a ==> PageBegin(pageSize, b) + pageSize <= PageBegin(pageSize, a)
  {
    TimesNext(a, pageSize);
    TimesNext(b, pageSize);
    if a < b {
      TimesMonotone(a + 1, b, pageSize);
    } else if b < a {
      TimesMonotone(b + 1, a, pageSize);
    }
  }

  /** Flattening the view of a set of pages lists the pages. */
  method FlattenPageView(pageSize: nat, pageIds: seq<nat>) returns (regions: seq<Located>)
    requires 0 < pageSize && pageIds != [] && Increasing(pageIds)
    ensures regions == PageBlocks(pageSize, pageIds) && NonEmpty(regions)
  {
    var view := CreatePageViewDescriptor(pageSize, pageIds);
    var size := |pageIds| * pageSize;
    assert NonEmpty(view.Blocks()) && IsBasic(BasicRegions);
    var listed, runs := GetRegionsByBytes(view, BasicRegions, 0, size);
    assert listed == view.Blocks();
    regions := listed;
  }

  /** Mapping the regions back gives the same pages, all full. */
  method PageViewRoundTrip(pageSize: nat, pageIds: seq<nat>) returns (all: set<nat>, full: set<nat>)
    requires 0 < pageSize && pageIds != [] && Increasing(pageIds)
    ensures forall id: nat :: id in all <==> id in pageIds
    ensures full == all
  {
    var regions := FlattenPageView(pageSize, pageIds);
    all := RegionsToPageIds(pageSize, regions);
    full := DetermineFullPages(pageSize, regions);
    forall id: nat
      ensures AnyTouches(regions, pageSize, id) <==> id in pageIds
      ensures !AnySplits(regions, pageSize, id)
    {
      PageBlocksTouch(pageSize, pageIds, id);
    }
  }
}
