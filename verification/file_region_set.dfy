/** Contiguous file regions and the set that merges them, kept as the sorted sequence a
    `std::set<FileRegion>` iterates over. */
module FileRegions {
  import opened Arithmetic
  import opened Sequences

  datatype FileRegion = FileRegion(offset: int, extent: nat) {
    function End(): int {
      offset + extent
    }

    function Bytes(): set<int> {
      Interval(offset, End())
    }
  }

  function Interval(lo: int, hi: int): (s: set<int>)
    ensures forall b :: b in s <==> lo <= b < hi
    decreases hi - lo
  {
    if hi <= lo then {} else {lo} + Interval(lo + 1, hi)
  }

  lemma Hull(lo: int, mid: int, hi: int, end: int)
    requires lo <= mid <= hi && mid <= end
    ensures Interval(lo, hi) + Interval(mid, end) == Interval(lo, Max(hi, end))
  {
  }

  predicate Less(a: FileRegion, b: FileRegion) {
    if a.offset != b.offset then a.offset < b.offset else a.extent < b.extent
  }

  /** The bytes of all regions. */
  function BytesOf(s: seq<FileRegion>): set<int> {
    if s == [] then {} else s[0].Bytes() + BytesOf(s[1..])
  }

  /** Sorted, and no region touches the next. */
  predicate Canonical(s: seq<FileRegion>) {
    forall i, j :: 0 <= i < j < |s| ==> s[i].End() < s[j].offset
  }

  predicate NonEmpty(s: seq<FileRegion>) {
    forall i :: 0 <= i < |s| ==> 0 < s[i].extent
  }

  /** Index of the first element greater than `x`, as `std::set::upper_bound`. */
  function UpperBound(s: seq<FileRegion>, x: FileRegion, from: nat := 0): (p: nat)
    requires from <= |s|
    ensures from <= p <= |s|
    decreases |s| - from
  {
    if from == |s| || Less(x, s[from]) then from else UpperBound(s, x, from + 1)
  }

  /** `UpperBound` is the only index that splits the elements by their order to `x`. */
  lemma {:induction false} UpperBoundSplits(s: seq<FileRegion>, x: FileRegion, from: nat)
    requires from <= |s|
    ensures var p := UpperBound(s, x, from);
            (p < |s| ==> Less(x, s[p])) && forall i :: from <= i < p ==> !Less(x, s[i])
    decreases |s| - from
  {
    if from != |s| && !Less(x, s[from]) {
      UpperBoundSplits(s, x, from + 1);
    }
  }

  /** `std::set::insert`: an equivalent element already present is kept. */
  function InsertSorted(s: seq<FileRegion>, x: FileRegion): seq<FileRegion> {
    var p := UpperBound(s, x);
    if p != 0 && !Less(s[p - 1], x) then s else With(s, p, x)
  }

  lemma {:induction false} BytesConcat(s: seq<FileRegion>, t: seq<FileRegion>)
    ensures BytesOf(s + t) == BytesOf(s) + BytesOf(t)
  {
    if s == [] {
      assert s + t == t;
    } else {
      BytesConcat(s[1..], t);
      assert (s + t)[1..] == s[1..] + t;
    }
  }

  lemma BytesWith(s: seq<FileRegion>, p: nat, x: FileRegion)
    requires p <= |s|
    ensures BytesOf(With(s, p, x)) == BytesOf(s) + x.Bytes()
  {
    assert s == s[..p] + s[p..];
    BytesConcat(s[..p], s[p..]);
    BytesConcat(s[..p], [x]);
    BytesConcat(s[..p] + [x], s[p..]);
    assert BytesOf([x]) == x.Bytes();
  }

  lemma {:induction false} BytesWithout(s: seq<FileRegion>, p: nat)
    requires p < |s|
    ensures BytesOf(s) == BytesOf(Without(s, p)) + s[p].Bytes()
  {
    if p == 0 {
      assert Without(s, 0) == s[1..];
    } else {
      BytesWithout(s[1..], p - 1);
      assert Without(s, p)[1..] == Without(s[1..], p - 1);
    }
  }

  lemma CanonicalWith(s: seq<FileRegion>, p: nat, x: FileRegion)
    requires Canonical(s) && p <= |s|
    requires p != 0 ==> s[p - 1].End() < x.offset
    requires p < |s| ==> x.End() < s[p].offset
    ensures Canonical(With(s, p, x))
    ensures NonEmpty(s) && 0 < x.extent ==> NonEmpty(With(s, p, x))
  {
    var t := With(s, p, x);
    forall i, j | 0 <= i < j < |t| ensures t[i].End() < t[j].offset {
      assert t[i] == if i < p then s[i] else if i == p then x else s[i - 1];
      assert t[j] == if j < p then s[j] else if j == p then x else s[j - 1];
    }
  }

  lemma CanonicalWithout(s: seq<FileRegion>, p: nat)
    requires Canonical(s) && p < |s|
    ensures Canonical(Without(s, p))
    ensures NonEmpty(s) ==> NonEmpty(Without(s, p))
  {
    var t := Without(s, p);
    forall i, j | 0 <= i < j < |t| ensures t[i].End() < t[j].offset {
      assert t[i] == if i < p then s[i] else s[i + 1];
      assert t[j] == if j < p then s[j] else s[j + 1];
    }
  }

  lemma UpperBoundIs(s: seq<FileRegion>, x: FileRegion, p: nat)
    requires p <= |s| && (p < |s| ==> Less(x, s[p]))
    requires forall i :: 0 <= i < p ==> !Less(x, s[i])
    ensures UpperBound(s, x) == p
  {
    UpperBoundSplits(s, x, 0);
  }

  lemma UpperBoundWithoutLow(s: seq<FileRegion>, x: FileRegion)
    requires UpperBound(s, x) != 0
    ensures UpperBound(Without(s, UpperBound(s, x) - 1), x) == UpperBound(s, x) - 1
  {
    var low := UpperBound(s, x);
    var t := Without(s, low - 1);
    UpperBoundSplits(s, x, 0);
    assert low < |s| ==> t[low - 1] == s[low];
    UpperBoundIs(t, x, low - 1);
  }

  /** One insertion: the union, in canonical form again, with no empty region of its own making. */
  ghost predicate Inserted(before: seq<FileRegion>, region: FileRegion, after: seq<FileRegion>) {
    && Canonical(after)
    && BytesOf(after) == BytesOf(before) + region.Bytes()
    && (NonEmpty(before) && 0 < region.extent ==> NonEmpty(after))
  }

  /** Midway through an insertion: `x` is out of the set `s` and belongs before index `rest`, and
      together they hold what the old set and `region` held. */
  ghost predicate Pending(before: seq<FileRegion>, region: FileRegion,
                          s: seq<FileRegion>, x: FileRegion, rest: nat, bound: int) {
    && rest <= |s| && Canonical(s)
    && (forall i :: 0 <= i < rest ==> s[i].End() < x.offset)
    && (forall i :: rest <= i < |s| ==> x.offset <= s[i].offset)
    && bound <= x.End()
    && (bound < x.End() && rest < |s| ==> x.End() < s[rest].offset)
    && BytesOf(s) + x.Bytes() == BytesOf(before) + region.Bytes()
    && (NonEmpty(before) && 0 < region.extent ==> NonEmpty(s) && 0 < x.extent)
  }

  /** Merging with the predecessor when it reaches the new region. */
  lemma MergeLow(before: seq<FileRegion>, region: FileRegion, low: nat)
    requires Canonical(before) && low == UpperBound(before, region)
    requires 0 < low && region.offset <= before[low - 1].End()
    ensures var prev := before[low - 1];
            var merged := FileRegion(prev.offset, Max(region.End(), prev.End()) - prev.offset);
            Pending(before, region, Without(before, low - 1), merged, low - 1, merged.End())
  {
    var prev := before[low - 1];
    var s := Without(before, low - 1);
    assert prev.offset <= region.offset by {
      UpperBoundSplits(before, region, 0);
    }
    MergeLowBytes(before, low - 1, region, FileRegion(prev.offset, Max(region.End(), prev.End()) - prev.offset));
    MergeLowOrder(before, low - 1);
  }

  lemma MergeLowBytes(before: seq<FileRegion>, p: nat, region: FileRegion, merged: FileRegion)
    requires p < |before| && merged.offset == before[p].offset <= region.offset <= before[p].End()
    requires merged.End() == Max(region.End(), before[p].End())
    ensures BytesOf(Without(before, p)) + merged.Bytes() == BytesOf(before) + region.Bytes()
  {
    BytesWithout(before, p);
    Hull(before[p].offset, region.offset, before[p].End(), region.End());
  }

  /** The regions around the one taken out stay clear of it. */
  lemma MergeLowOrder(before: seq<FileRegion>, p: nat)
    requires Canonical(before) && p < |before|
    ensures var s := Without(before, p);
            && Canonical(s) && (NonEmpty(before) ==> NonEmpty(s))
            && (forall i :: 0 <= i < p ==> s[i].End() < before[p].offset)
            && (forall i :: p <= i < |s| ==> before[p].End() < s[i].offset)
  {
    var s := Without(before, p);
    CanonicalWithout(before, p);
    forall i | 0 <= i < |s|
      ensures if i < p then s[i].End() < before[p].offset else before[p].End() < s[i].offset
    {
      assert s[i] == before[if i < p then i else i + 1];
    }
  }

  lemma KeepLow(before: seq<FileRegion>, region: FileRegion, low: nat)
    requires Canonical(before) && low == UpperBound(before, region)
    requires low != 0 ==> before[low - 1].End() < region.offset
    ensures Pending(before, region, before, region, low, region.End())
  {
    UpperBoundSplits(before, region, 0);
  }

  /** Merging with the region after the new one. */
  lemma MergeHigh(before: seq<FileRegion>, region: FileRegion,
                  s: seq<FileRegion>, x: FileRegion, rest: nat, bound: int)
    requires Pending(before, region, s, x, rest, bound)
    requires rest < |s| && bound >= s[rest].offset
    ensures var merged := x.(extent := Max(bound, s[rest].End()) - x.offset);
            Pending(before, region, Without(s, rest), merged, rest, bound)
  {
    BytesWithout(s, rest);
    CanonicalWithout(s, rest);
    Hull(x.offset, s[rest].offset, x.End(), s[rest].End());
  }

  lemma InsertPending(before: seq<FileRegion>, region: FileRegion,
                      s: seq<FileRegion>, x: FileRegion, rest: nat, bound: int)
    requires Pending(before, region, s, x, rest, bound)
    requires rest < |s| ==> bound < s[rest].offset
    ensures Inserted(before, region, InsertSorted(s, x))
  {
    UpperBoundIs(s, x, rest);
    BytesWith(s, rest, x);
    CanonicalWith(s, rest, x);
  }

  // ----- What a set of regions says about bytes -----

  lemma BytesHas(s: seq<FileRegion>, b: int)
    ensures b in BytesOf(s) <==> exists r :: r in s && b in r.Bytes()
  {
  }

  lemma {:induction false} IntervalSize(lo: int, hi: int)
    requires lo <= hi
    ensures |Interval(lo, hi)| == hi - lo
    decreases hi - lo
  {
    if lo < hi {
      IntervalSize(lo + 1, hi);
    }
  }

  function Length(s: seq<FileRegion>): nat {
    if s == [] then 0 else s[0].extent + Length(s[1..])
  }

  /** The regions have a byte in common. */
  predicate Overlap(a: FileRegion, b: FileRegion) {
    Max(a.offset, b.offset) < Min(a.End(), b.End())
  }

  /** No two regions overlap, in whatever order they come. */
  predicate Apart(s: seq<FileRegion>) {
    forall i, j :: 0 <= i < j < |s| ==> !Overlap(s[i], s[j])
  }

  /** Bytes of later regions lie beyond the first region. */
  lemma FirstRegionApart(s: seq<FileRegion>)
    requires Canonical(s) && s != []
    ensures Canonical(s[1..]) && (NonEmpty(s) ==> NonEmpty(s[1..]))
    ensures forall b :: b in BytesOf(s[1..]) ==> s[0].End() < b
  {
    forall b | b in BytesOf(s[1..]) ensures s[0].End() < b {
      BytesHas(s[1..], b);
      var r :| r in s[1..] && b in r.Bytes();
    }
  }

  lemma FirstApart(s: seq<FileRegion>)
    requires Apart(s) && s != []
    ensures Apart(s[1..]) && s[0].Bytes() !! BytesOf(s[1..])
  {
    forall b | b in BytesOf(s[1..]) ensures b !in s[0].Bytes() {
      BytesHas(s[1..], b);
      var r :| r in s[1..] && b in r.Bytes();
      var i :| 0 <= i < |s[1..]| && s[1..][i] == r;
      assert !Overlap(s[0], s[i + 1]);
    }
  }

  /** Regions that do not overlap have as many bytes as their extents sum to. */
  lemma {:induction false} LengthCounts(s: seq<FileRegion>)
    requires Apart(s)
    ensures Length(s) == |BytesOf(s)|
  {
    if s != [] {
      FirstApart(s);
      LengthCounts(s[1..]);
      IntervalSize(s[0].offset, s[0].End());
    }
  }

  lemma CanonicalIsApart(s: seq<FileRegion>)
    requires Canonical(s)
    ensures Apart(s)
  {
  }

  lemma NoBytesNoRegions(s: seq<FileRegion>)
    requires NonEmpty(s)
    ensures BytesOf(s) == {} <==> s == []
  {
    if s != [] {
      assert s[0].offset in BytesOf(s);
    }
  }

  lemma FirstNotLonger(s: seq<FileRegion>, t: seq<FileRegion>)
    requires Canonical(s) && Canonical(t) && s != [] && t != [] && BytesOf(s) == BytesOf(t)
    requires s[0].offset == t[0].offset
    ensures t[0].End() <= s[0].End()
  {
    FirstRegionApart(s);
    assert s[0].End() !in BytesOf(t) && t[0].Bytes() <= BytesOf(t);
  }

  /** Two canonical sets of nonempty regions with the same bytes are the same. */
  lemma {:induction false} CanonicalUnique(s: seq<FileRegion>, t: seq<FileRegion>)
    requires Canonical(s) && NonEmpty(s) && Canonical(t) && NonEmpty(t)
    requires BytesOf(s) == BytesOf(t)
    ensures s == t
  {
    NoBytesNoRegions(s);
    NoBytesNoRegions(t);
    if s != [] {
      FirstRegionApart(s);
      FirstRegionApart(t);
      assert s[0].offset in BytesOf(t) && t[0].offset in BytesOf(s);
      FirstNotLonger(s, t);
      FirstNotLonger(t, s);
      assert BytesOf(s[1..]) == BytesOf(s) - s[0].Bytes() == BytesOf(t[1..]);
      CanonicalUnique(s[1..], t[1..]);
      assert s == [s[0]] + s[1..] && t == [t[0]] + t[1..];
    }
  }

  /** The sets an object goes through when the inputs are inserted one after another. */
  ghost predicate History(inputs: seq<FileRegion>, sets: seq<seq<FileRegion>>) {
    && |sets| == |inputs| + 1 && sets[0] == []
    && forall i :: 0 <= i < |inputs| ==> Inserted(sets[i], inputs[i], sets[i + 1])
  }

  lemma {:induction false} HistoryBytes(inputs: seq<FileRegion>, sets: seq<seq<FileRegion>>, n: nat)
    requires History(inputs, sets) && n <= |inputs|
    ensures Canonical(sets[n]) && BytesOf(sets[n]) == BytesOf(inputs[..n])
    ensures NonEmpty(inputs) ==> NonEmpty(sets[n])
  {
    if n != 0 {
      HistoryBytes(inputs, sets, n - 1);
      assert Inserted(sets[n - 1], inputs[n - 1], sets[n]);
      assert inputs[..n] == inputs[..n - 1] + [inputs[n - 1]];
      BytesConcat(inputs[..n - 1], [inputs[n - 1]]);
      assert BytesOf([inputs[n - 1]]) == inputs[n - 1].Bytes();
    }
  }

  /** The order of insertion does not matter: the same nonempty regions in any order end in the same
      set, which holds exactly their bytes. */
  lemma OrderDoesNotMatter(inputs: seq<FileRegion>, sets: seq<seq<FileRegion>>,
                           inputs': seq<FileRegion>, sets': seq<seq<FileRegion>>)
    requires History(inputs, sets) && History(inputs', sets')
    requires NonEmpty(inputs) && multiset(inputs) == multiset(inputs')
    ensures sets[|inputs|] == sets'[|inputs'|]
    ensures BytesOf(sets[|inputs|]) == BytesOf(inputs)
  {
    forall r ensures r in inputs <==> r in inputs' {
      assert r in inputs <==> r in multiset(inputs);
      assert r in inputs' <==> r in multiset(inputs');
    }
    assert NonEmpty(inputs') by {
      forall i | 0 <= i < |inputs'| ensures 0 < inputs'[i].extent {
        assert inputs'[i] in inputs;
      }
    }
    forall b ensures b in BytesOf(inputs) <==> b in BytesOf(inputs') {
      BytesHas(inputs, b);
      BytesHas(inputs', b);
    }
    HistoryBytes(inputs, sets, |inputs|);
    HistoryBytes(inputs', sets', |inputs'|);
    assert inputs[..|inputs|] == inputs && inputs'[..|inputs'|] == inputs';
    CanonicalUnique(sets[|inputs|], sets'[|inputs'|]);
  }

  class FileRegionSet {
    var regions: seq<FileRegion>

    ghost predicate Valid()
      reads this
    {
      Canonical(regions)
    }

    constructor ()
      ensures Valid() && regions == []
    {
      regions := [];
    }

    method Insert(region: FileRegion)
      requires Valid()
      modifies this
      ensures Valid() && Inserted(old(regions), region, regions)
    {
      ghost var before := regions;
      var newRegion := region;
      var low := UpperBound(regions, region);
      if low != 0 && region.offset <= regions[low - 1].End() {
        MergeLow(before, region, low);
        UpperBoundWithoutLow(before, region);
        var prev := regions[low - 1];
        newRegion := FileRegion(prev.offset, Max(region.End(), prev.End()) - prev.offset);
        regions := Without(regions, low - 1);
      } else {
        KeepLow(before, region, low);
      }
      AbsorbFollowing(before, region, newRegion);
    }

    /** The second half of an insertion: merge the regions after the new one, then insert it. */
    method AbsorbFollowing(ghost before: seq<FileRegion>, region: FileRegion, merged: FileRegion)
      requires Pending(before, region, regions, merged, UpperBound(regions, region), merged.End())
      modifies this
      ensures Valid() && Inserted(before, region, regions)
    {
      var newRegion := merged;
      var newRegionEnd := newRegion.End();
      var upper := UpperBound(regions, region);
      while upper < |regions| && newRegionEnd >= regions[upper].offset
        invariant Pending(before, region, regions, newRegion, upper, newRegionEnd)
        decreases |regions|
      {
        MergeHigh(before, region, regions, newRegion, upper, newRegionEnd);
        var maxEnd := Max(newRegionEnd, regions[upper].End());
        newRegion := newRegion.(extent := maxEnd - newRegion.offset);
        regions := Without(regions, upper);
      }
      InsertPending(before, region, regions, newRegion, upper, newRegionEnd);
      regions := InsertSorted(regions, newRegion);
    }

    /** The number of bytes held. */
    method NumBytes() returns (numBytes: nat)
      requires Valid()
      ensures numBytes == |BytesOf(regions)|
    {
      numBytes := 0;
      for i := 0 to |regions|
        invariant numBytes + Length(regions[i..]) == Length(regions)
      {
        numBytes := numBytes + regions[i].extent;
        assert regions[i..][1..] == regions[i + 1..];
      }
      CanonicalIsApart(regions);
      LengthCounts(regions);
    }

    /** The distance from the first byte to the end of the last: the shortest interval that holds the set. */
    method RegionSpan() returns (span: nat)
      requires Valid()
      ensures regions == [] ==> span == 0
      ensures regions != [] ==> BytesOf(regions) <= Interval(regions[0].offset, regions[0].offset + span)
      ensures regions != [] && NonEmpty(regions) ==>
                regions[0].offset in BytesOf(regions) && regions[0].offset + span - 1 in BytesOf(regions)
    {
      var firstByte, lastByte := 0, 0;
      if |regions| != 0 {
        var last := regions[|regions| - 1];
        firstByte := regions[0].offset;
        lastByte := last.End();
        forall b | b in BytesOf(regions) ensures firstByte <= b < lastByte {
          BytesHas(regions, b);
          var r :| r in regions && b in r.Bytes();
        }
        BytesHas(regions, firstByte);
        BytesHas(regions, lastByte - 1);
        assert regions[0] in regions && last in regions;
      }
      span := lastByte - firstByte;
    }
  }
}
