/** The region set that keeps clean and dirty bytes apart.  A byte is dirty, clean or absent, and
    inserting a region should raise every byte inside it to at least the region's state. */
module DirtyRegions {
  import opened Arithmetic
  import opened Sequences
  import opened FileRegions

  /** One more than the largest FSOffset, and the modulus of FSSize arithmetic. */
  const OFFSET_LIMIT: int := 0x8000_0000_0000_0000
  const SIZE_MODULUS: int := 0x1_0000_0000_0000_0000

  datatype DirtyFileRegion = DirtyFileRegion(offset: int, extent: nat, isDirty: bool) {
    function Limit(): int {
      offset + extent
    }

    /** The end as the code computes it, in unsigned 64-bit arithmetic: an FSOffset plus an FSSize
        is below twice the modulus. */
    function End(): int {
      if Limit() < SIZE_MODULUS then Limit() else Limit() - SIZE_MODULUS
    }

    predicate InBounds() {
      0 <= offset && Limit() < OFFSET_LIMIT
    }

    /** The bytes this region marks with state `dirty`. */
    function Marks(dirty: bool): set<int> {
      if isDirty == dirty then Interval(offset, Limit()) else {}
    }
  }

  /** The class's operator<, which also holds between equal regions. */
  predicate DirtyLess(a: DirtyFileRegion, b: DirtyFileRegion) {
    if a.offset != b.offset then a.offset < b.offset
    else if a.extent != b.extent then a.extent < b.extent
    else true
  }

  function DirtyUpperBound(s: seq<DirtyFileRegion>, x: DirtyFileRegion, from: nat := 0): (p: nat)
    requires from <= |s|
    ensures from <= p <= |s|
    decreases |s| - from
  {
    if from == |s| || DirtyLess(x, s[from]) then from else DirtyUpperBound(s, x, from + 1)
  }

  /** `std::set::insert`: an equivalent element already present is kept. */
  function DirtyInsertSorted(s: seq<DirtyFileRegion>, x: DirtyFileRegion): seq<DirtyFileRegion> {
    var p := DirtyUpperBound(s, x);
    if p != 0 && !DirtyLess(s[p - 1], x) then s else With(s, p, x)
  }

  /** The bytes the set holds in state `dirty`. */
  function Held(s: seq<DirtyFileRegion>, dirty: bool): set<int> {
    if s == [] then {} else s[0].Marks(dirty) + Held(s[1..], dirty)
  }

  ghost predicate Disjoint(s: seq<DirtyFileRegion>) {
    && (forall i :: 0 <= i < |s| ==> s[i].InBounds())
    && (forall i, j :: 0 <= i < j < |s| ==> s[i].Limit() <= s[j].offset)
  }

  /** Every byte ends in the greater of its old state and the state the region gives it, under
      absent < clean < dirty. */
  ghost predicate Joined(before: seq<DirtyFileRegion>, region: DirtyFileRegion, after: seq<DirtyFileRegion>) {
    && Held(after, true) == Held(before, true) + region.Marks(true)
    && Held(after, false) == Held(before, false) + region.Marks(false) - Held(after, true)
  }

  /** The region just before the new one has the opposite state and ends after it. */
  predicate EndsInsideOpposite(s: seq<DirtyFileRegion>, region: DirtyFileRegion) {
    var low := DirtyUpperBound(s, region);
    low != 0 && s[low - 1].isDirty != region.isDirty && region.Limit() < s[low - 1].Limit()
  }

  // ----- Sequences of regions -----

  lemma {:induction false} HeldConcat(s: seq<DirtyFileRegion>, t: seq<DirtyFileRegion>, dirty: bool)
    ensures Held(s + t, dirty) == Held(s, dirty) + Held(t, dirty)
  {
    if s == [] {
      assert s + t == t;
    } else {
      HeldConcat(s[1..], t, dirty);
      assert (s + t)[1..] == s[1..] + t;
    }
  }

  lemma HeldWith(s: seq<DirtyFileRegion>, p: nat, x: DirtyFileRegion, dirty: bool)
    requires p <= |s|
    ensures Held(With(s, p, x), dirty) == Held(s, dirty) + x.Marks(dirty)
  {
    assert s == s[..p] + s[p..];
    HeldConcat(s[..p], s[p..], dirty);
    HeldConcat(s[..p], [x], dirty);
    HeldConcat(s[..p] + [x], s[p..], dirty);
    assert Held([x], dirty) == x.Marks(dirty);
  }

  lemma {:induction false} HeldWithout(s: seq<DirtyFileRegion>, p: nat, dirty: bool)
    requires p < |s|
    ensures Held(s, dirty) == Held(Without(s, p), dirty) + s[p].Marks(dirty)
  {
    if p == 0 {
      assert Without(s, 0) == s[1..];
    } else {
      HeldWithout(s[1..], p - 1, dirty);
      assert Without(s, p)[1..] == Without(s[1..], p - 1);
    }
  }

  lemma HeldHas(s: seq<DirtyFileRegion>, dirty: bool, b: int)
    ensures b in Held(s, dirty) <==> exists r :: r in s && b in r.Marks(dirty)
  {
  }

  lemma {:induction false} UpperBoundSplitsDirty(s: seq<DirtyFileRegion>, x: DirtyFileRegion, from: nat)
    requires from <= |s|
    ensures var p := DirtyUpperBound(s, x, from);
            (p < |s| ==> DirtyLess(x, s[p])) && forall i :: from <= i < p ==> !DirtyLess(x, s[i])
    decreases |s| - from
  {
    if from != |s| && !DirtyLess(x, s[from]) {
      UpperBoundSplitsDirty(s, x, from + 1);
    }
  }

  lemma UpperBoundIsDirty(s: seq<DirtyFileRegion>, x: DirtyFileRegion, p: nat)
    requires p <= |s| && (p < |s| ==> DirtyLess(x, s[p]))
    requires forall i :: 0 <= i < p ==> !DirtyLess(x, s[i])
    ensures DirtyUpperBound(s, x) == p
  {
    UpperBoundSplitsDirty(s, x, 0);
  }

  lemma WithoutIndex<T>(s: seq<T>, p: nat)
    requires p < |s|
    ensures forall i :: 0 <= i < |s| - 1 ==> Without(s, p)[i] == s[if i < p then i else i + 1]
  {
  }

  lemma WithIndex<T>(s: seq<T>, p: nat, x: T, i: nat)
    requires p <= |s| && i <= |s|
    ensures With(s, p, x)[i] == if i < p then s[i] else if i == p then x else s[i - 1]
  {
  }

  /** Nothing in the set overlaps `x`. */
  ghost predicate Clear(s: seq<DirtyFileRegion>, x: DirtyFileRegion) {
    forall i :: 0 <= i < |s| ==> s[i].Limit() <= x.offset || x.Limit() <= s[i].offset
  }

  lemma DisjointWithout(s: seq<DirtyFileRegion>, p: nat)
    requires Disjoint(s) && p < |s|
    ensures Disjoint(Without(s, p))
  {
    var t := Without(s, p);
    forall i | 0 <= i < |t| ensures t[i] == s[if i < p then i else i + 1] {
    }
  }

  lemma DisjointWith(s: seq<DirtyFileRegion>, p: nat, x: DirtyFileRegion)
    requires Disjoint(s) && p <= |s| && x.InBounds()
    requires forall i :: 0 <= i < p ==> s[i].Limit() <= x.offset
    requires forall i :: p <= i < |s| ==> x.Limit() <= s[i].offset
    ensures Disjoint(With(s, p, x))
  {
    var t := With(s, p, x);
    forall i | 0 <= i < |t| ensures t[i] == if i < p then s[i] else if i == p then x else s[i - 1] {
    }
  }

  lemma ClearSplits(s: seq<DirtyFileRegion>, x: DirtyFileRegion, p: nat)
    requires Disjoint(s) && Clear(s, x) && p == DirtyUpperBound(s, x)
    ensures forall i :: 0 <= i < p ==> s[i].Limit() <= x.offset
    ensures forall i :: p <= i < |s| ==> x.Limit() <= s[i].offset
  {
    UpperBoundSplitsDirty(s, x, 0);
    forall i | p <= i < |s| ensures x.Limit() <= s[i].offset {
      assert i == p || s[p].Limit() <= s[i].offset;
    }
  }

  /** Inserting a region that overlaps nothing keeps the set disjoint. */
  lemma PutClear(s: seq<DirtyFileRegion>, x: DirtyFileRegion)
    requires Disjoint(s) && x.InBounds() && Clear(s, x)
    ensures var t := DirtyInsertSorted(s, x);
            t == With(s, DirtyUpperBound(s, x), x) && Disjoint(t) && forall r :: r in t ==> r == x || r in s
  {
    var p := DirtyUpperBound(s, x);
    UpperBoundSplitsDirty(s, x, 0);
    ClearSplits(s, x, p);
    DisjointWith(s, p, x);
  }

  lemma IsInserted(s: seq<DirtyFileRegion>, x: DirtyFileRegion)
    requires DirtyInsertSorted(s, x) == With(s, DirtyUpperBound(s, x), x)
    ensures x in DirtyInsertSorted(s, x)
  {
    WithIndex(s, DirtyUpperBound(s, x), x, DirtyUpperBound(s, x));
  }

  lemma InsertClear(s: seq<DirtyFileRegion>, x: DirtyFileRegion)
    requires Disjoint(s) && x.InBounds() && Clear(s, x)
    ensures Disjoint(DirtyInsertSorted(s, x))
    ensures forall d :: Held(DirtyInsertSorted(s, x), d) == Held(s, d) + x.Marks(d)
  {
    PutClear(s, x);
    HeldWith(s, DirtyUpperBound(s, x), x, true);
    HeldWith(s, DirtyUpperBound(s, x), x, false);
  }

  // ----- One insertion, step by step -----

  ghost function DirtyAfter(before: seq<DirtyFileRegion>, region: DirtyFileRegion): set<int> {
    Held(before, true) + region.Marks(true)
  }

  ghost function CleanAfter(before: seq<DirtyFileRegion>, region: DirtyFileRegion): set<int> {
    Held(before, false) + region.Marks(false) - DirtyAfter(before, region)
  }

  /** Up to dirty bytes winning over clean ones, what is held and the region still to insert make
      exactly the dirty bytes `d` and the clean bytes `c`. */
  ghost predicate Balanced(d: set<int>, c: set<int>, heldDirty: set<int>, heldClean: set<int>, x: DirtyFileRegion) {
    heldDirty + x.Marks(true) == d && heldClean + x.Marks(false) - d == c
  }

  /** `x` belongs before index `rest` of `s`, and only regions from there on may overlap it. */
  ghost predicate Placed(s: seq<DirtyFileRegion>, x: DirtyFileRegion, rest: nat, bound: int) {
    && rest <= |s| && Disjoint(s) && x.InBounds()
    && (forall i :: 0 <= i < rest ==> s[i].Limit() <= x.offset)
    && (forall i :: rest <= i < |s| ==> x.offset <= s[i].offset)
    && bound <= x.Limit()
    && (bound < x.Limit() && rest < |s| ==> x.Limit() <= s[rest].offset)
  }

  /** Midway through an insertion: `x` is out of the set `s`, waiting to be inserted. */
  ghost predicate Awaiting(d: set<int>, c: set<int>, s: seq<DirtyFileRegion>,
                           x: DirtyFileRegion, rest: nat, bound: int) {
    Placed(s, x, rest, bound) && Balanced(d, c, Held(s, true), Held(s, false), x)
  }

  ghost predicate Done(d: set<int>, c: set<int>, after: seq<DirtyFileRegion>) {
    Disjoint(after) && Held(after, true) == d && Held(after, false) == c
  }

  lemma RegionsApart(s: seq<DirtyFileRegion>, r: DirtyFileRegion, q: DirtyFileRegion)
    requires Disjoint(s) && r in s && q in s && r != q
    ensures r.Limit() <= q.offset || q.Limit() <= r.offset
  {
    var i :| 0 <= i < |s| && s[i] == r;
    var j :| 0 <= j < |s| && s[j] == q;
    assert i < j || j < i;
  }

  /** In a disjoint set no byte is both clean and dirty. */
  lemma OneState(s: seq<DirtyFileRegion>)
    requires Disjoint(s)
    ensures Held(s, true) !! Held(s, false)
  {
    forall b | b in Held(s, true) ensures b !in Held(s, false) {
      HeldHas(s, true, b);
      HeldHas(s, false, b);
      var r :| r in s && b in r.Marks(true);
      forall q | q in s ensures b !in q.Marks(false) {
        if q != r {
          RegionsApart(s, r, q);
        }
      }
    }
  }

  lemma InsertAwaiting(d: set<int>, c: set<int>, s: seq<DirtyFileRegion>, x: DirtyFileRegion, rest: nat, bound: int)
    requires Awaiting(d, c, s, x, rest, bound)
    requires rest < |s| ==> bound < s[rest].offset || x.Limit() <= s[rest].offset
    ensures Done(d, c, DirtyInsertSorted(s, x)) && x in DirtyInsertSorted(s, x)
  {
    assert Clear(s, x) by {
      forall i | rest <= i < |s| ensures x.Limit() <= s[i].offset {
        assert i == rest || s[rest].Limit() <= s[i].offset;
      }
    }
    InsertClear(s, x);
    PutClear(s, x);
    IsInserted(s, x);
    OneState(DirtyInsertSorted(s, x));
  }

  lemma PrevStartsBefore(s: seq<DirtyFileRegion>, x: DirtyFileRegion)
    ensures var low := DirtyUpperBound(s, x);
            low != 0 ==>
              s[low - 1].offset <= x.offset && (s[low - 1].offset == x.offset ==> s[low - 1].extent < x.extent)
  {
    UpperBoundSplitsDirty(s, x, 0);
  }

  // The four cases of the region before the new one.

  lemma LowKeep(before: seq<DirtyFileRegion>, region: DirtyFileRegion, low: nat)
    requires Disjoint(before) && region.InBounds() && low == DirtyUpperBound(before, region)
    requires low != 0 ==> before[low - 1].Limit() < region.offset
    ensures Awaiting(DirtyAfter(before, region), CleanAfter(before, region), before, region, low, region.Limit())
  {
    UpperBoundSplitsDirty(before, region, 0);
  }

  lemma LowMerge(before: seq<DirtyFileRegion>, region: DirtyFileRegion, low: nat, merged: DirtyFileRegion)
    requires Disjoint(before) && region.InBounds() && low == DirtyUpperBound(before, region)
    requires low != 0 && before[low - 1].offset <= region.offset <= before[low - 1].Limit()
    requires before[low - 1].isDirty == region.isDirty
    requires merged.isDirty == region.isDirty && merged.offset == before[low - 1].offset
    requires merged.Limit() == Max(region.Limit(), before[low - 1].Limit())
    ensures DirtyUpperBound(Without(before, low - 1), region) == low - 1
    ensures Awaiting(DirtyAfter(before, region), CleanAfter(before, region),
                     Without(before, low - 1), merged, low - 1, merged.Limit())
  {
    var prev := before[low - 1];
    var s := Without(before, low - 1);
    DisjointWithout(before, low - 1);
    WithoutIndex(before, low - 1);
    assert Placed(s, merged, low - 1, merged.Limit());
    UpperBoundWithoutLowDirty(before, region, low);
    BalancedMerge(before, low - 1, region, merged);
  }

  lemma UpperBoundWithoutLowDirty(s: seq<DirtyFileRegion>, x: DirtyFileRegion, low: nat)
    requires low == DirtyUpperBound(s, x) && low != 0
    ensures DirtyUpperBound(Without(s, low - 1), x) == low - 1
  {
    var t := Without(s, low - 1);
    UpperBoundSplitsDirty(s, x, 0);
    assert low < |s| ==> t[low - 1] == s[low];
    UpperBoundIsDirty(t, x, low - 1);
  }

  lemma BalancedMerge(before: seq<DirtyFileRegion>, p: nat, region: DirtyFileRegion, merged: DirtyFileRegion)
    requires p < |before| && before[p].isDirty == region.isDirty == merged.isDirty
    requires merged.offset == before[p].offset <= region.offset <= before[p].Limit()
    requires merged.Limit() == Max(region.Limit(), before[p].Limit())
    ensures var t := Without(before, p);
            Balanced(DirtyAfter(before, region), CleanAfter(before, region), Held(t, true), Held(t, false), merged)
  {
    HeldWithout(before, p, true);
    HeldWithout(before, p, false);
    Hull(merged.offset, region.offset, before[p].Limit(), region.Limit());
  }

  /** Where a new region lands among regions that each end before it or sort after it. */
  lemma UpperBoundPlaces(s: seq<DirtyFileRegion>, x: DirtyFileRegion, limit: int)
    requires Disjoint(s) && x.offset <= limit
    requires forall r :: r in s ==> if DirtyLess(x, r) then limit <= r.offset else r.Limit() <= x.offset
    ensures var p := DirtyUpperBound(s, x);
            && (forall i :: 0 <= i < p ==> s[i].Limit() <= x.offset)
            && (forall i :: p <= i < |s| ==> limit <= s[i].offset)
  {
    var p := DirtyUpperBound(s, x);
    UpperBoundSplitsDirty(s, x, 0);
    forall i | 0 <= i < p ensures s[i].Limit() <= x.offset {
      assert s[i] in s;
    }
    forall i | p <= i < |s| ensures limit <= s[i].offset {
      assert s[p] in s && (i == p || s[p].Limit() <= s[i].offset);
    }
  }

  /** A dirty region cuts the clean one it starts in. */
  lemma LowTrimPlaces(before: seq<DirtyFileRegion>, region: DirtyFileRegion, low: nat, lower: DirtyFileRegion)
    requires Disjoint(before) && region.InBounds() && low == DirtyUpperBound(before, region)
    requires low != 0 && before[low - 1].offset <= region.offset <= before[low - 1].Limit()
    requires lower == before[low - 1].(extent := region.offset - before[low - 1].offset)
    ensures var s := DirtyInsertSorted(Without(before, low - 1), lower);
            var p := DirtyUpperBound(s, region);
            && Disjoint(s)
            && (forall i :: 0 <= i < p ==> s[i].Limit() <= region.offset)
            && (forall i :: p <= i < |s| ==> before[low - 1].Limit() <= s[i].offset)
  {
    var t := Without(before, low - 1);
    LowTrimOrder(before, region, low, lower);
    PutClear(t, lower);
    UpperBoundPlaces(DirtyInsertSorted(t, lower), region, before[low - 1].Limit());
  }

  lemma LowTrimHolds(before: seq<DirtyFileRegion>, region: DirtyFileRegion, low: nat, lower: DirtyFileRegion)
    requires Disjoint(before) && region.InBounds() && low == DirtyUpperBound(before, region)
    requires low != 0 && before[low - 1].offset <= region.offset <= before[low - 1].Limit()
    requires !before[low - 1].isDirty
    requires lower == before[low - 1].(extent := region.offset - before[low - 1].offset)
    ensures var s := DirtyInsertSorted(Without(before, low - 1), lower);
            && Held(s, true) == Held(before, true)
            && Held(s, false) + Interval(region.offset, before[low - 1].Limit()) == Held(before, false)
  {
    LowTrimOrder(before, region, low, lower);
    InsertClear(Without(before, low - 1), lower);
    HeldWithout(before, low - 1, true);
    HeldWithout(before, low - 1, false);
    Hull(lower.offset, lower.Limit(), lower.Limit(), before[low - 1].Limit());
  }

  lemma LowTrimOrder(before: seq<DirtyFileRegion>, region: DirtyFileRegion, low: nat, lower: DirtyFileRegion)
    requires Disjoint(before) && region.InBounds() && low == DirtyUpperBound(before, region)
    requires low != 0 && before[low - 1].offset <= region.offset <= before[low - 1].Limit()
    requires lower == before[low - 1].(extent := region.offset - before[low - 1].offset)
    ensures var t := Without(before, low - 1);
            Disjoint(t) && lower.InBounds() && Clear(t, lower) && !DirtyLess(region, lower)
            && forall r :: r in t ==>
              if DirtyLess(region, r) then before[low - 1].Limit() <= r.offset else r.Limit() <= region.offset
  {
    var t := Without(before, low - 1);
    DisjointWithout(before, low - 1);
    PrevStartsBefore(before, region);
    forall r | r in t
      ensures if DirtyLess(region, r) then before[low - 1].Limit() <= r.offset else r.Limit() <= before[low - 1].offset
    {
      OthersApart(before, region, low, r);
    }
    forall i | 0 <= i < |t| ensures t[i].Limit() <= lower.offset || lower.Limit() <= t[i].offset {
      assert t[i] in t;
    }
  }

  /** The regions sorted after `region` lie after the one before it, the others before that one. */
  lemma OthersApart(before: seq<DirtyFileRegion>, region: DirtyFileRegion, low: nat, r: DirtyFileRegion)
    requires Disjoint(before) && low == DirtyUpperBound(before, region) && low != 0 && r in Without(before, low - 1)
    requires before[low - 1].offset <= region.offset
    ensures if DirtyLess(region, r) then before[low - 1].Limit() <= r.offset else r.Limit() <= before[low - 1].offset
  {
    UpperBoundSplitsDirty(before, region, 0);
    var i :| 0 <= i < |before| && i != low - 1 && before[i] == r;
    assert low <= i ==> DirtyLess(region, before[low]);
    assert low < i ==> before[low].Limit() <= before[i].offset;
  }

  lemma LowTrim(before: seq<DirtyFileRegion>, region: DirtyFileRegion, low: nat, lower: DirtyFileRegion)
    requires Disjoint(before) && region.InBounds() && low == DirtyUpperBound(before, region)
    requires low != 0 && before[low - 1].offset <= region.offset <= before[low - 1].Limit() <= region.Limit()
    requires region.isDirty && !before[low - 1].isDirty
    requires lower == before[low - 1].(extent := region.offset - before[low - 1].offset)
    ensures var s := DirtyInsertSorted(Without(before, low - 1), lower);
            Awaiting(DirtyAfter(before, region), CleanAfter(before, region),
                     s, region, DirtyUpperBound(s, region), region.Limit())
  {
    LowTrimPlaces(before, region, low, lower);
    LowTrimHolds(before, region, low, lower);
  }

  /** A clean region starts after the dirty one it starts in. */
  lemma LowSkip(before: seq<DirtyFileRegion>, region: DirtyFileRegion, low: nat, later: DirtyFileRegion)
    requires Disjoint(before) && region.InBounds() && low == DirtyUpperBound(before, region)
    requires low != 0 && region.offset <= before[low - 1].Limit() <= region.Limit()
    requires !region.isDirty && before[low - 1].isDirty
    requires later == region.(offset := before[low - 1].Limit(), extent := region.Limit() - before[low - 1].Limit())
    ensures Awaiting(DirtyAfter(before, region), CleanAfter(before, region), before, later, low, region.Limit())
  {
    UpperBoundSplitsDirty(before, region, 0);
    HeldWithout(before, low - 1, true);
  }

  // The four cases of a region after the new one.

  lemma HighSubsume(d: set<int>, c: set<int>, s: seq<DirtyFileRegion>,
                    x: DirtyFileRegion, rest: nat, bound: int, merged: DirtyFileRegion)
    requires Awaiting(d, c, s, x, rest, bound)
    requires rest < |s| && bound >= s[rest].offset
    requires x.isDirty == s[rest].isDirty || (x.isDirty && bound > s[rest].Limit())
    requires merged == x.(extent := Max(bound, s[rest].Limit()) - x.offset)
    ensures Awaiting(d, c, Without(s, rest), merged, rest, bound)
  {
    DisjointWithout(s, rest);
    WithoutIndex(s, rest);
    assert Placed(Without(s, rest), merged, rest, bound);
    HeldWithout(s, rest, true);
    HeldWithout(s, rest, false);
    BalancedSubsume(d, c, Held(Without(s, rest), true), Held(Without(s, rest), false), x, s[rest], merged);
  }

  lemma BalancedSubsume(d: set<int>, c: set<int>, heldDirty: set<int>, heldClean: set<int>, x: DirtyFileRegion,
                        next: DirtyFileRegion, merged: DirtyFileRegion)
    requires Balanced(d, c, heldDirty + next.Marks(true), heldClean + next.Marks(false), x)
    requires x.isDirty == next.isDirty == merged.isDirty || (x.isDirty && merged.isDirty && x.Limit() > next.Limit())
    requires x.offset <= next.offset <= x.Limit()
    requires merged.offset == x.offset && merged.Limit() == Max(x.Limit(), next.Limit())
    ensures Balanced(d, c, heldDirty, heldClean, merged)
  {
    Hull(x.offset, next.offset, x.Limit(), next.Limit());
  }

  lemma HighTrim(d: set<int>, c: set<int>, s: seq<DirtyFileRegion>,
                 x: DirtyFileRegion, rest: nat, bound: int, trimmed: DirtyFileRegion)
    requires Awaiting(d, c, s, x, rest, bound)
    requires rest < |s| && bound >= s[rest].offset
    requires !x.isDirty && s[rest].isDirty && bound <= s[rest].Limit()
    requires trimmed == x.(extent := s[rest].offset - x.offset)
    ensures Done(d, c, DirtyInsertSorted(s, trimmed)) && trimmed in DirtyInsertSorted(s, trimmed)
  {
    HeldWithout(s, rest, true);
    assert Awaiting(d, c, s, trimmed, rest, trimmed.Limit());
    InsertAwaiting(d, c, s, trimmed, rest, trimmed.Limit());
  }

  lemma HighSplit(d: set<int>, c: set<int>, s: seq<DirtyFileRegion>,
                  x: DirtyFileRegion, rest: nat, bound: int, newUpper: DirtyFileRegion)
    requires Awaiting(d, c, s, x, rest, bound)
    requires rest < |s| && bound >= s[rest].offset
    requires x.isDirty && !s[rest].isDirty && bound <= s[rest].Limit()
    requires newUpper == DirtyFileRegion(bound, s[rest].Limit() - bound, false)
    ensures Done(d, c, DirtyInsertSorted(DirtyInsertSorted(Without(s, rest), newUpper), x))
    ensures x in DirtyInsertSorted(DirtyInsertSorted(Without(s, rest), newUpper), x)
  {
    var t := Without(s, rest);
    var u := DirtyInsertSorted(t, newUpper);
    HighSplitClear(s, x, rest, bound, newUpper);
    HeldWithout(s, rest, true);
    HeldWithout(s, rest, false);
    InsertClear(u, x);
    PutClear(u, x);
    IsInserted(u, x);
    OneState(DirtyInsertSorted(u, x));
  }

  lemma HighSplitClear(s: seq<DirtyFileRegion>, x: DirtyFileRegion, rest: nat, bound: int, newUpper: DirtyFileRegion)
    requires Placed(s, x, rest, bound)
    requires rest < |s| && s[rest].offset <= bound <= s[rest].Limit()
    requires newUpper == DirtyFileRegion(bound, s[rest].Limit() - bound, false)
    ensures var t := Without(s, rest);
            var u := DirtyInsertSorted(t, newUpper);
            Disjoint(u) && Clear(u, x) && forall d :: Held(u, d) == Held(t, d) + newUpper.Marks(d)
  {
    var t := Without(s, rest);
    DisjointWithout(s, rest);
    WithoutIndex(s, rest);
    PutClear(t, newUpper);
    InsertClear(t, newUpper);
    var u := DirtyInsertSorted(t, newUpper);
    forall i | 0 <= i < |u| ensures u[i].Limit() <= x.offset || x.Limit() <= u[i].offset {
      assert u[i] in u;
    }
  }

  lemma HighSkip(d: set<int>, c: set<int>, s: seq<DirtyFileRegion>,
                 x: DirtyFileRegion, rest: nat, bound: int, temp: DirtyFileRegion, later: DirtyFileRegion)
    requires Awaiting(d, c, s, x, rest, bound)
    requires rest < |s| && bound >= s[rest].offset
    requires !x.isDirty && s[rest].isDirty && bound > s[rest].Limit()
    requires temp == x.(extent := s[rest].offset - x.offset)
    requires later == x.(offset := s[rest].Limit(), extent := bound - s[rest].Limit())
    ensures DirtyUpperBound(s, temp) <= rest
    ensures Awaiting(d, c, DirtyInsertSorted(s, temp), later, rest + 2, bound)
  {
    HighSkipPlaced(s, x, rest, bound, temp, later);
    HeldWithout(s, rest, true);
    BalancedSkip(d, c, Held(s, true), Held(s, false), x, s[rest], temp, later);
  }

  lemma BalancedSkip(d: set<int>, c: set<int>, heldDirty: set<int>, heldClean: set<int>, x: DirtyFileRegion,
                     skipped: DirtyFileRegion, temp: DirtyFileRegion, later: DirtyFileRegion)
    requires Balanced(d, c, heldDirty, heldClean, x) && !x.isDirty && !temp.isDirty && !later.isDirty
    requires temp.offset == x.offset && temp.Limit() == skipped.offset && later.offset == skipped.Limit()
    requires later.Limit() == x.Limit() && skipped.Marks(true) <= heldDirty && skipped.isDirty
    ensures Balanced(d, c, heldDirty, heldClean + temp.Marks(false), later)
  {
  }

  lemma HighSkipPlaced(s: seq<DirtyFileRegion>, x: DirtyFileRegion, rest: nat, bound: int,
                       temp: DirtyFileRegion, later: DirtyFileRegion)
    requires Placed(s, x, rest, bound)
    requires rest < |s| && s[rest].offset <= s[rest].Limit() < bound
    requires temp == x.(extent := s[rest].offset - x.offset)
    requires later == x.(offset := s[rest].Limit(), extent := bound - s[rest].Limit())
    ensures DirtyUpperBound(s, temp) <= rest
    ensures Placed(DirtyInsertSorted(s, temp), later, rest + 2, bound)
    ensures forall d :: Held(DirtyInsertSorted(s, temp), d) == Held(s, d) + temp.Marks(d)
  {
    assert Clear(s, temp) by {
      forall i | rest <= i < |s| ensures temp.Limit() <= s[i].offset {
        assert i == rest || s[rest].Limit() <= s[i].offset;
      }
    }
    PutClear(s, temp);
    InsertClear(s, temp);
    var q := DirtyUpperBound(s, temp);
    assert q <= rest by {
      UpperBoundSplitsDirty(s, temp, 0);
    }
    SkippedOrder(s, q, temp, later.offset, rest);
  }

  lemma SkippedOrder(s: seq<DirtyFileRegion>, q: nat, temp: DirtyFileRegion, from: int, rest: nat)
    requires q <= rest < |s| && temp.Limit() <= from
    requires forall i :: 0 <= i <= rest ==> s[i].Limit() <= from
    requires forall i :: rest < i < |s| ==> from <= s[i].offset
    ensures forall i :: 0 <= i < rest + 2 ==> With(s, q, temp)[i].Limit() <= from
    ensures forall i :: rest + 2 <= i <= |s| ==> from <= With(s, q, temp)[i].offset
  {
    forall i | 0 <= i < rest + 2 ensures With(s, q, temp)[i].Limit() <= from {
      WithIndex(s, q, temp, i);
    }
    forall i | rest + 2 <= i <= |s| ensures from <= With(s, q, temp)[i].offset {
      WithIndex(s, q, temp, i);
    }
  }

  // ----- The insertion that loses or invents bytes -----

  lemma Unheld(s: seq<DirtyFileRegion>, dirty: bool, b: int)
    requires forall i :: 0 <= i < |s| ==> s[i].Limit() <= b || b < s[i].offset
    ensures b !in Held(s, dirty)
  {
    HeldHas(s, dirty, b);
  }

  lemma HeldInserted(s: seq<DirtyFileRegion>, x: DirtyFileRegion, dirty: bool)
    ensures Held(DirtyInsertSorted(s, x), dirty) == Held(s, dirty) + x.Marks(dirty)
  {
    UpperBoundSplitsDirty(s, x, 0);
    HeldWith(s, DirtyUpperBound(s, x), x, dirty);
  }

  lemma HeldOwn(s: seq<DirtyFileRegion>, i: nat, b: int)
    requires i < |s| && s[i].offset <= b < s[i].Limit()
    ensures b in Held(s, s[i].isDirty)
  {
    HeldHas(s, s[i].isDirty, b);
    assert s[i] in s;
  }

  /** A dirty region ending inside a clean one: the clean bytes after it are lost. */
  lemma TrimLosesBytes(before: seq<DirtyFileRegion>, region: DirtyFileRegion, low: nat, lower: DirtyFileRegion)
    requires Disjoint(before) && region.InBounds() && EndsInsideOpposite(before, region)
    requires region.isDirty && low == DirtyUpperBound(before, region)
    requires before[low - 1].offset <= region.offset
    requires lower == before[low - 1].(extent := region.offset - before[low - 1].offset)
    ensures var s := DirtyInsertSorted(Without(before, low - 1), lower);
            var p := DirtyUpperBound(s, region);
            && (p < |s| ==> region.Limit() < s[p].offset)
            && !Joined(before, region, DirtyInsertSorted(s, region))
  {
    var s := DirtyInsertSorted(Without(before, low - 1), lower);
    LowTrimPlaces(before, region, low, lower);
    LostByte(before, region, low - 1, s);
  }

  /** A byte just after the region that was held before and is not any more. */
  lemma LostByte(before: seq<DirtyFileRegion>, region: DirtyFileRegion, p: nat, s: seq<DirtyFileRegion>)
    requires p < |before| && before[p].offset <= region.Limit() < before[p].Limit() && !before[p].isDirty
    requires forall i :: 0 <= i < |s| ==> s[i].Limit() <= region.Limit() || region.Limit() < s[i].offset
    ensures !Joined(before, region, DirtyInsertSorted(s, region))
  {
    var b := region.Limit();
    Unheld(s, true, b);
    Unheld(s, false, b);
    HeldInserted(s, region, true);
    HeldInserted(s, region, false);
    HeldOwn(before, p, b);
    assert b !in region.Marks(true) && b !in region.Marks(false);
    assert b in Held(before, false) && b !in Held(DirtyInsertSorted(s, region), true);
    assert b !in Held(DirtyInsertSorted(s, region), false);
  }

  /** A clean region ending inside a dirty one: its length wraps around and it claims bytes no region has. */
  lemma SkipInventsBytes(before: seq<DirtyFileRegion>, region: DirtyFileRegion, low: nat, later: DirtyFileRegion)
    requires Disjoint(before) && region.InBounds() && EndsInsideOpposite(before, region)
    requires !region.isDirty && low == DirtyUpperBound(before, region)
    requires before[low - 1].offset <= region.offset
    requires later == region.(offset := before[low - 1].Limit(),
                              extent := SizeMinus(region.extent, before[low - 1].Limit() - region.offset))
    ensures low < |before| ==> later.End() < before[low].offset
    ensures !Joined(before, region, DirtyInsertSorted(before, later))
  {
    HugeIsNotJoined(before, region, later);
  }

  lemma HugeIsNotJoined(before: seq<DirtyFileRegion>, region: DirtyFileRegion, later: DirtyFileRegion)
    requires Disjoint(before) && region.InBounds() && !region.isDirty && !later.isDirty
    requires later.offset < OFFSET_LIMIT <= later.Limit()
    ensures !Joined(before, region, DirtyInsertSorted(before, later))
  {
    var b := OFFSET_LIMIT - 1;
    Unheld(before, false, b);
    HeldInserted(before, later, false);
    assert b in later.Marks(false) && b !in region.Marks(false);
  }

  /** Unsigned 64-bit subtraction. */
  function SizeMinus(a: nat, b: nat): nat
    requires b < SIZE_MODULUS
  {
    if b <= a then a - b else a + SIZE_MODULUS - b
  }

  /** The next region does not stop `x` from being inserted into `s` as it is. */
  predicate Stops(s: seq<DirtyFileRegion>, region: DirtyFileRegion, x: DirtyFileRegion) {
    var upper := DirtyUpperBound(s, region);
    upper < |s| ==> x.End() < s[upper].offset
  }

  /** The region before the new one is settled: the rest of the insertion starts from `s` and `x`. */
  ghost predicate Settled(before: seq<DirtyFileRegion>, region: DirtyFileRegion,
                          s: seq<DirtyFileRegion>, x: DirtyFileRegion) {
    if EndsInsideOpposite(before, region) then
      Stops(s, region, x) && !Joined(before, region, DirtyInsertSorted(s, x))
    else
      Awaiting(DirtyAfter(before, region), CleanAfter(before, region), s, x, DirtyUpperBound(s, region), x.Limit())
  }

  lemma SettledTrim(before: seq<DirtyFileRegion>, region: DirtyFileRegion, low: nat, lower: DirtyFileRegion)
    requires Disjoint(before) && region.InBounds() && low == DirtyUpperBound(before, region)
    requires low != 0 && before[low - 1].offset <= region.offset <= before[low - 1].Limit()
    requires region.isDirty && !before[low - 1].isDirty
    requires lower == before[low - 1].(extent := region.offset - before[low - 1].offset)
    ensures Settled(before, region, DirtyInsertSorted(Without(before, low - 1), lower), region)
  {
    var s := DirtyInsertSorted(Without(before, low - 1), lower);
    if EndsInsideOpposite(before, region) {
      TrimLosesBytes(before, region, low, lower);
    } else {
      LowTrim(before, region, low, lower);
    }
  }

  lemma SettledSkip(before: seq<DirtyFileRegion>, region: DirtyFileRegion, low: nat, later: DirtyFileRegion)
    requires Disjoint(before) && region.InBounds() && low == DirtyUpperBound(before, region)
    requires low != 0 && before[low - 1].offset <= region.offset <= before[low - 1].Limit()
    requires !region.isDirty && before[low - 1].isDirty
    requires later == region.(offset := before[low - 1].Limit(),
                              extent := SizeMinus(region.extent, before[low - 1].Limit() - region.offset))
    ensures Settled(before, region, before, later)
  {
    if EndsInsideOpposite(before, region) {
      SkipInventsBytes(before, region, low, later);
    } else {
      LowSkip(before, region, low, later);
    }
  }

  // ----- Whole histories -----

  /** What one call of `DirtyFileRegionSet.Insert` promises. */
  ghost predicate Inserts(before: seq<DirtyFileRegion>, region: DirtyFileRegion, after: seq<DirtyFileRegion>) {
    && (!EndsInsideOpposite(before, region) ==> Disjoint(after))
    && (Joined(before, region, after) <==> !EndsInsideOpposite(before, region))
  }

  /** The sets an object goes through when the inputs are inserted one after another. */
  ghost predicate InsertHistory(inputs: seq<DirtyFileRegion>, sets: seq<seq<DirtyFileRegion>>) {
    && |sets| == |inputs| + 1 && sets[0] == []
    && forall i :: 0 <= i < |inputs| ==> Inserts(sets[i], inputs[i], sets[i + 1])
  }

  /** Over any history without the failing case the dirty bytes are those any input made dirty and
      the clean ones those only clean inputs covered, so the order of the inputs does not matter. */
  lemma {:induction false} HistoryJoins(inputs: seq<DirtyFileRegion>, sets: seq<seq<DirtyFileRegion>>, n: nat)
    requires InsertHistory(inputs, sets) && n <= |inputs|
    requires forall i :: 0 <= i < n ==> !EndsInsideOpposite(sets[i], inputs[i])
    ensures Disjoint(sets[n])
    ensures Held(sets[n], true) == Held(inputs[..n], true)
    ensures Held(sets[n], false) == Held(inputs[..n], false) - Held(inputs[..n], true)
  {
    if n != 0 {
      HistoryJoins(inputs, sets, n - 1);
      assert Inserts(sets[n - 1], inputs[n - 1], sets[n]);
      assert inputs[..n] == With(inputs[..n - 1], n - 1, inputs[n - 1]);
      HeldWith(inputs[..n - 1], n - 1, inputs[n - 1], true);
      HeldWith(inputs[..n - 1], n - 1, inputs[n - 1], false);
    }
  }

  /** Either state of the region before can be the one that makes an insertion fail. */
  lemma InsertCanFail()
    ensures var clean, dirty := DirtyFileRegion(10, 20, false), DirtyFileRegion(10, 20, true);
            && EndsInsideOpposite([clean], DirtyFileRegion(12, 5, true))
            && EndsInsideOpposite([dirty], DirtyFileRegion(12, 5, false))
            && forall after :: Inserts([clean], DirtyFileRegion(12, 5, true), after) ==>
                 !Joined([clean], DirtyFileRegion(12, 5, true), after)
  {
    assert DirtyUpperBound([DirtyFileRegion(10, 20, false)], DirtyFileRegion(12, 5, true)) == 1;
    assert DirtyUpperBound([DirtyFileRegion(10, 20, true)], DirtyFileRegion(12, 5, false)) == 1;
  }

  // ----- Regions of one state become one region -----

  predicate Touches(q: DirtyFileRegion, region: DirtyFileRegion) {
    q.offset <= region.Limit() && region.offset <= q.Limit()
  }

  predicate Covers(r: DirtyFileRegion, q: DirtyFileRegion) {
    r.offset <= q.offset && q.Limit() <= r.Limit()
  }

  /** All regions that overlap or touch the new one have its state. */
  ghost predicate AllAlike(before: seq<DirtyFileRegion>, region: DirtyFileRegion) {
    forall q :: q in before && Touches(q, region) ==> q.isDirty == region.isDirty
  }

  /** The same, and where the new one begins, none ends while another begins. */
  ghost predicate AmongAlike(before: seq<DirtyFileRegion>, region: DirtyFileRegion) {
    && AllAlike(before, region)
    && forall p, q :: p in before && q in before && p.Limit() == region.offset ==> q.offset != region.offset
  }

  /** One region of the set covers the new one and all that overlapped or touched it. */
  ghost predicate BecomeOne(before: seq<DirtyFileRegion>, region: DirtyFileRegion, after: seq<DirtyFileRegion>) {
    exists r :: r in after && IsOne(before, region, r)
  }

  ghost predicate IsOne(before: seq<DirtyFileRegion>, region: DirtyFileRegion, r: DirtyFileRegion) {
    && r.isDirty == region.isDirty && Covers(r, region)
    && forall q :: q in before && Touches(q, region) ==> Covers(r, q)
  }

  /** Midway: `x` covers the new region and those that touched it, except some still in `s`. */
  ghost predicate Gathers(before: seq<DirtyFileRegion>, region: DirtyFileRegion, s: seq<DirtyFileRegion>,
                          x: DirtyFileRegion, rest: nat, bound: int)
  {
    && rest <= |s| && x.isDirty == region.isDirty && Covers(x, region) && region.Limit() <= bound <= x.Limit()
    && CoversMet(before, region, s, x, rest) && RestIsBeyond(region, s, rest, bound)
  }

  ghost predicate CoversMet(before: seq<DirtyFileRegion>, region: DirtyFileRegion, s: seq<DirtyFileRegion>,
                            x: DirtyFileRegion, rest: nat)
    requires rest <= |s|
  {
    forall q :: q in before && Touches(q, region) ==> Covers(x, q) || q in s[rest..]
  }

  /** The regions left begin inside the new one or after what was gathered; those of the other state after it. */
  ghost predicate RestIsBeyond(region: DirtyFileRegion, s: seq<DirtyFileRegion>, rest: nat, bound: int) {
    forall j :: rest <= j < |s| ==>
      && (bound <= s[j].offset || s[j].offset <= region.Limit())
      && (s[j].isDirty != region.isDirty ==> region.Limit() < s[j].offset)
  }

  lemma FollowingPlace(before: seq<DirtyFileRegion>, region: DirtyFileRegion, low: nat, q: DirtyFileRegion)
    requires Disjoint(before) && low == DirtyUpperBound(before, region) && q in before
    ensures q in before[low..] || (low != 0 && q == before[low - 1])
            || (low != 0 && q.Limit() <= before[low - 1].offset <= region.offset)
    ensures forall j :: low <= j < |before| ==> region.offset <= before[j].offset
  {
    PrevStartsBefore(before, region);
    UpperBoundSplitsDirty(before, region, 0);
    var i :| 0 <= i < |before| && before[i] == q;
    if low <= i {
      assert before[low..][i - low] == q;
    }
    forall j | low <= j < |before| ensures region.offset <= before[j].offset {
      assert j == low || before[low].Limit() <= before[j].offset;
    }
  }

  lemma MergeCovers(before: seq<DirtyFileRegion>, region: DirtyFileRegion, low: nat, merged: DirtyFileRegion,
                    q: DirtyFileRegion)
    requires Disjoint(before) && AmongAlike(before, region) && low == DirtyUpperBound(before, region) && low != 0
    requires before[low - 1].offset <= region.offset <= before[low - 1].Limit()
    requires merged.offset == before[low - 1].offset && merged.Limit() == Max(region.Limit(), before[low - 1].Limit())
    requires q in before && Touches(q, region)
    ensures Covers(merged, q) || q in before[low..]
  {
    assert before[low - 1] in before;
    FollowingPlace(before, region, low, q);
  }

  lemma MergeRest(before: seq<DirtyFileRegion>, region: DirtyFileRegion, low: nat, bound: int)
    requires Disjoint(before) && AllAlike(before, region) && low == DirtyUpperBound(before, region) && low != 0
    requires bound == Max(region.Limit(), before[low - 1].Limit())
    ensures RestIsBeyond(region, Without(before, low - 1), low - 1, bound)
  {
    var s := Without(before, low - 1);
    forall j | low - 1 <= j < |s|
      ensures bound <= s[j].offset || s[j].offset <= region.Limit()
      ensures s[j].isDirty != region.isDirty ==> region.Limit() < s[j].offset
    {
      assert s[j] == before[j + 1] && before[low - 1].Limit() <= before[j + 1].offset;
      AlikeAfter(before, region, low, j + 1);
    }
  }

  lemma AlikeAfter(before: seq<DirtyFileRegion>, region: DirtyFileRegion, low: nat, j: nat)
    requires Disjoint(before) && AllAlike(before, region)
    requires low == DirtyUpperBound(before, region) && low <= j < |before|
    ensures before[j].isDirty != region.isDirty ==> region.Limit() < before[j].offset
  {
    FollowingPlace(before, region, low, before[j]);
    assert before[j] in before && before[j].offset <= before[j].Limit();
  }

  lemma MergeMet(before: seq<DirtyFileRegion>, region: DirtyFileRegion, low: nat, merged: DirtyFileRegion)
    requires Disjoint(before) && AmongAlike(before, region) && low == DirtyUpperBound(before, region) && low != 0
    requires before[low - 1].offset <= region.offset <= before[low - 1].Limit()
    requires merged.offset == before[low - 1].offset && merged.Limit() == Max(region.Limit(), before[low - 1].Limit())
    ensures CoversMet(before, region, Without(before, low - 1), merged, low - 1)
  {
    assert Without(before, low - 1)[low - 1..] == before[low..];
    forall q | q in before && Touches(q, region) ensures Covers(merged, q) || q in before[low..] {
      MergeCovers(before, region, low, merged, q);
    }
  }

  lemma GathersMerge(before: seq<DirtyFileRegion>, region: DirtyFileRegion, low: nat, merged: DirtyFileRegion)
    requires Disjoint(before) && AmongAlike(before, region) && low == DirtyUpperBound(before, region) && low != 0
    requires before[low - 1].offset <= region.offset <= before[low - 1].Limit()
    requires merged.isDirty == region.isDirty && merged.offset == before[low - 1].offset
    requires merged.Limit() == Max(region.Limit(), before[low - 1].Limit())
    ensures Gathers(before, region, Without(before, low - 1), merged, low - 1, merged.Limit())
  {
    MergeMet(before, region, low, merged);
    MergeRest(before, region, low, merged.Limit());
  }

  lemma GathersKeep(before: seq<DirtyFileRegion>, region: DirtyFileRegion, low: nat)
    requires Disjoint(before) && AmongAlike(before, region) && low == DirtyUpperBound(before, region)
    requires low != 0 ==> before[low - 1].Limit() < region.offset
    ensures Gathers(before, region, before, region, low, region.Limit())
  {
    forall q | q in before && Touches(q, region) ensures q in before[low..] {
      FollowingPlace(before, region, low, q);
      if low != 0 && q.Limit() <= before[low - 1].offset {
        assert before[low - 1].offset <= before[low - 1].Limit();
      }
    }
    forall j | low <= j < |before|
      ensures before[j].isDirty != region.isDirty ==> region.Limit() < before[j].offset
    {
      AlikeAfter(before, region, low, j);
    }
  }

  /** Absorbing the next region. */
  lemma GathersNext(before: seq<DirtyFileRegion>, region: DirtyFileRegion, s: seq<DirtyFileRegion>,
                    x: DirtyFileRegion, rest: nat, bound: int, merged: DirtyFileRegion)
    requires Gathers(before, region, s, x, rest, bound) && Placed(s, x, rest, bound)
    requires rest < |s| && s[rest].offset <= bound && merged == x.(extent := Max(bound, s[rest].Limit()) - x.offset)
    ensures Gathers(before, region, Without(s, rest), merged, rest, bound)
  {
    var t := Without(s, rest);
    assert x.Limit() == bound;
    assert t[rest..] == s[rest + 1..];
    forall q | q in before && Touches(q, region) ensures Covers(merged, q) || q in t[rest..] {
      if !Covers(x, q) {
        var j :| 0 <= j < |s[rest..]| && s[rest..][j] == q;
        assert 0 < j ==> t[rest..][j - 1] == q;
      }
    }
    forall j | rest <= j < |t| ensures t[j] == s[j + 1] {
    }
    assert RestIsBeyond(region, t, rest, bound);
  }

  /** When no region left touches the new one, `x` is the one. */
  lemma Gathered(before: seq<DirtyFileRegion>, region: DirtyFileRegion, s: seq<DirtyFileRegion>,
                 x: DirtyFileRegion, rest: nat, bound: int)
    requires Gathers(before, region, s, x, rest, bound) && Disjoint(s)
    requires rest < |s| ==> region.Limit() < s[rest].offset
    ensures IsOne(before, region, x)
  {
    forall j | rest <= j < |s| ensures region.Limit() < s[j].offset {
      assert j == rest || s[rest].Limit() <= s[j].offset;
    }
  }

  /** A region of the other state that is reached lies beyond the new one, and just ends what was gathered. */
  lemma UnlikeIsBeyond(before: seq<DirtyFileRegion>, region: DirtyFileRegion, s: seq<DirtyFileRegion>,
                       x: DirtyFileRegion, rest: nat, bound: int)
    requires Gathers(before, region, s, x, rest, bound) && Placed(s, x, rest, bound)
    requires rest < |s| && s[rest].offset <= bound && s[rest].isDirty != region.isDirty
    ensures region.Limit() < s[rest].offset == bound == x.Limit()
    ensures IsOne(before, region, x)
  {
    Gathered(before, region, s, x, rest, bound);
  }

  /** What holds midway through the second half of an insertion. */
  ghost predicate Midway(before: seq<DirtyFileRegion>, region: DirtyFileRegion, alike: bool, d: set<int>, c: set<int>,
                         s: seq<DirtyFileRegion>, x: DirtyFileRegion, rest: nat, bound: int)
  {
    Awaiting(d, c, s, x, rest, bound) && (alike ==> Gathers(before, region, s, x, rest, bound))
  }

  /** What holds at its end. */
  ghost predicate Ends(before: seq<DirtyFileRegion>, region: DirtyFileRegion, alike: bool, d: set<int>, c: set<int>,
                       after: seq<DirtyFileRegion>)
  {
    Done(d, c, after) && (alike ==> BecomeOne(before, region, after))
  }

  lemma AfterMerge(before: seq<DirtyFileRegion>, region: DirtyFileRegion, alike: bool, d: set<int>, c: set<int>,
                   s: seq<DirtyFileRegion>, x: DirtyFileRegion, rest: nat, bound: int, merged: DirtyFileRegion)
    requires Midway(before, region, alike, d, c, s, x, rest, bound) && rest < |s| && bound >= s[rest].offset
    requires x.isDirty == s[rest].isDirty || (x.isDirty && bound > s[rest].Limit())
    requires merged == x.(extent := Max(bound, s[rest].Limit()) - x.offset)
    ensures Midway(before, region, alike, d, c, Without(s, rest), merged, rest, bound)
  {
    HighSubsume(d, c, s, x, rest, bound, merged);
    if alike {
      GathersNext(before, region, s, x, rest, bound, merged);
    }
  }

  lemma AfterSplit(before: seq<DirtyFileRegion>, region: DirtyFileRegion, alike: bool, d: set<int>, c: set<int>,
                   s: seq<DirtyFileRegion>, x: DirtyFileRegion, rest: nat, bound: int, newUpper: DirtyFileRegion)
    requires Midway(before, region, alike, d, c, s, x, rest, bound) && rest < |s| && bound >= s[rest].offset
    requires x.isDirty && !s[rest].isDirty && bound <= s[rest].Limit()
    requires newUpper == DirtyFileRegion(bound, s[rest].Limit() - bound, false)
    ensures Ends(before, region, alike, d, c, DirtyInsertSorted(DirtyInsertSorted(Without(s, rest), newUpper), x))
  {
    HighSplit(d, c, s, x, rest, bound, newUpper);
    if alike {
      UnlikeIsBeyond(before, region, s, x, rest, bound);
    }
  }

  lemma AfterTrim(before: seq<DirtyFileRegion>, region: DirtyFileRegion, alike: bool, d: set<int>, c: set<int>,
                  s: seq<DirtyFileRegion>, x: DirtyFileRegion, rest: nat, bound: int, trimmed: DirtyFileRegion)
    requires Midway(before, region, alike, d, c, s, x, rest, bound) && rest < |s| && bound >= s[rest].offset
    requires !x.isDirty && s[rest].isDirty && bound <= s[rest].Limit()
    requires trimmed == x.(extent := s[rest].offset - x.offset)
    ensures Ends(before, region, alike, d, c, DirtyInsertSorted(s, trimmed))
  {
    HighTrim(d, c, s, x, rest, bound, trimmed);
    if alike {
      UnlikeIsBeyond(before, region, s, x, rest, bound);
    }
  }

  lemma AfterSkip(before: seq<DirtyFileRegion>, region: DirtyFileRegion, alike: bool, d: set<int>, c: set<int>,
                  s: seq<DirtyFileRegion>, x: DirtyFileRegion, rest: nat, bound: int, temp: DirtyFileRegion,
                  later: DirtyFileRegion)
    requires Midway(before, region, alike, d, c, s, x, rest, bound) && rest < |s| && bound >= s[rest].offset
    requires !x.isDirty && s[rest].isDirty && bound > s[rest].Limit()
    requires temp == x.(extent := s[rest].offset - x.offset)
    requires later == x.(offset := s[rest].Limit(), extent := bound - s[rest].Limit())
    ensures DirtyUpperBound(s, temp) <= rest
    ensures Midway(before, region, alike, d, c, DirtyInsertSorted(s, temp), later, rest + 2, bound)
  {
    HighSkip(d, c, s, x, rest, bound, temp, later);
    if alike {
      UnlikeIsBeyond(before, region, s, x, rest, bound);
      assert false;
    }
  }

  lemma AtTheEnd(before: seq<DirtyFileRegion>, region: DirtyFileRegion, alike: bool, d: set<int>, c: set<int>,
                 s: seq<DirtyFileRegion>, x: DirtyFileRegion, rest: nat, bound: int)
    requires Midway(before, region, alike, d, c, s, x, rest, bound)
    requires rest < |s| ==> bound < s[rest].offset
    ensures Ends(before, region, alike, d, c, DirtyInsertSorted(s, x))
  {
    InsertAwaiting(d, c, s, x, rest, bound);
    if alike {
      Gathered(before, region, s, x, rest, bound);
    }
  }

  lemma AlikeEndsNowhere(before: seq<DirtyFileRegion>, region: DirtyFileRegion)
    requires Disjoint(before) && AmongAlike(before, region)
    ensures !EndsInsideOpposite(before, region)
  {
    PrevStartsBefore(before, region);
    var low := DirtyUpperBound(before, region);
    if low != 0 {
      assert before[low - 1] in before;
    }
  }

  /** The first half of an insertion is done. */
  ghost predicate Begun(before: seq<DirtyFileRegion>, region: DirtyFileRegion, s: seq<DirtyFileRegion>,
                        x: DirtyFileRegion)
  {
    && Settled(before, region, s, x)
    && (AmongAlike(before, region) ==>
         !EndsInsideOpposite(before, region)
         && Gathers(before, region, s, x, DirtyUpperBound(s, region), x.Limit()))
  }

  lemma BegunMerge(before: seq<DirtyFileRegion>, region: DirtyFileRegion, low: nat, merged: DirtyFileRegion)
    requires Disjoint(before) && region.InBounds() && low == DirtyUpperBound(before, region)
    requires low != 0 && before[low - 1].offset <= region.offset <= before[low - 1].Limit()
    requires before[low - 1].isDirty == region.isDirty
    requires merged.isDirty == region.isDirty && merged.offset == before[low - 1].offset
    requires merged.Limit() == Max(region.Limit(), before[low - 1].Limit())
    ensures Begun(before, region, Without(before, low - 1), merged)
  {
    LowMerge(before, region, low, merged);
    if AmongAlike(before, region) {
      AlikeEndsNowhere(before, region);
      GathersMerge(before, region, low, merged);
    }
  }

  lemma BegunKeep(before: seq<DirtyFileRegion>, region: DirtyFileRegion, low: nat)
    requires Disjoint(before) && region.InBounds() && low == DirtyUpperBound(before, region)
    requires low != 0 ==> before[low - 1].Limit() < region.offset
    ensures Begun(before, region, before, region)
  {
    LowKeep(before, region, low);
    if AmongAlike(before, region) {
      AlikeEndsNowhere(before, region);
      GathersKeep(before, region, low);
    }
  }

  lemma BegunOther(before: seq<DirtyFileRegion>, region: DirtyFileRegion, low: nat, s: seq<DirtyFileRegion>,
                   x: DirtyFileRegion)
    requires Settled(before, region, s, x) && low <= |before| && low != 0
    requires before[low - 1].offset <= region.offset <= before[low - 1].Limit()
    requires before[low - 1].isDirty != region.isDirty
    ensures Begun(before, region, s, x)
  {
    assert before[low - 1] in before && Touches(before[low - 1], region);
  }

  class DirtyFileRegionSet {
    var regions: seq<DirtyFileRegion>

    ghost predicate Valid()
      reads this
    {
      Disjoint(regions)
    }

    constructor ()
      ensures Valid() && regions == []
    {
      regions := [];
    }

    /** The insertion is the join of the states exactly when no region of the opposite state that
        precedes the new one ends after it; only then is the set certain to be well formed again. */
    method Insert(region: DirtyFileRegion)
      requires Valid() && region.InBounds()
      modifies this
      ensures Inserts(old(regions), region, regions)
      ensures AmongAlike(old(regions), region) ==> BecomeOne(old(regions), region, regions)
    {
      ghost var before := regions;
      var newRegion := MergeLower(region);
      AbsorbFollowing(region, newRegion, before, DirtyAfter(before, region), CleanAfter(before, region),
                      EndsInsideOpposite(before, region), AmongAlike(before, region));
    }

    /** The first half of an insertion: settle the region before the new one. */
    method MergeLower(region: DirtyFileRegion) returns (newRegion: DirtyFileRegion)
      requires Valid() && region.InBounds()
      modifies this
      ensures Begun(old(regions), region, regions, newRegion)
    {
      ghost var before := regions;
      newRegion := region;
      var low := DirtyUpperBound(regions, region);
      PrevStartsBefore(regions, region);
      if low != 0 && region.offset <= regions[low - 1].End() {
        var prev := regions[low - 1];
        var prevRegionEnd := prev.End();
        if region.isDirty == prev.isDirty {
          var maxEnd := Max(region.End(), prevRegionEnd);
          newRegion := region.(offset := prev.offset, extent := maxEnd - prev.offset);
          BegunMerge(before, region, low, newRegion);
          regions := Without(regions, low - 1);
        } else if region.isDirty {
          var lower := prev.(extent := region.offset - prev.offset);
          SettledTrim(before, region, low, lower);
          BegunOther(before, region, low, DirtyInsertSorted(Without(before, low - 1), lower), region);
          regions := DirtyInsertSorted(Without(regions, low - 1), lower);
        } else {
          newRegion := region.(offset := prevRegionEnd,
                               extent := SizeMinus(region.extent, prevRegionEnd - region.offset));
          SettledSkip(before, region, low, newRegion);
          BegunOther(before, region, low, before, newRegion);
        }
      } else {
        BegunKeep(before, region, low);
      }
    }

    /** The second half of an insertion: settle the regions after the new one, then insert it. */
    method AbsorbFollowing(region: DirtyFileRegion, start: DirtyFileRegion, ghost before: seq<DirtyFileRegion>,
                           ghost d: set<int>, ghost c: set<int>, ghost stops: bool, ghost alike: bool)
      requires if stops then Stops(regions, region, start)
               else Midway(before, region, alike, d, c, regions, start, DirtyUpperBound(regions, region), start.Limit())
      modifies this
      ensures if stops then regions == DirtyInsertSorted(old(regions), start)
              else Ends(before, region, alike, d, c, regions)
    {
      var newRegion := start;
      var newRegionEnd := newRegion.End();
      var upper: nat := DirtyUpperBound(regions, region);
      while upper < |regions| && newRegionEnd >= regions[upper].offset
        invariant upper <= |regions|
        invariant stops ==> regions == old(regions) && newRegion == start
        invariant stops ==> upper < |regions| ==> newRegionEnd < regions[upper].offset
        invariant !stops ==> Midway(before, region, alike, d, c, regions, newRegion, upper, newRegionEnd)
        decreases |regions| - upper
      {
        var next := regions[upper];
        var upperRegionEnd := next.End();
        assert upperRegionEnd == next.Limit() && newRegion.offset <= next.offset;
        if newRegion.isDirty == next.isDirty || (newRegion.isDirty && newRegionEnd > upperRegionEnd) {
          var maxEnd := Max(newRegionEnd, upperRegionEnd);
          var merged := newRegion.(extent := maxEnd - newRegion.offset);
          AfterMerge(before, region, alike, d, c, regions, newRegion, upper, newRegionEnd, merged);
          newRegion := merged;
          regions := Without(regions, upper);
        } else if newRegion.isDirty && newRegionEnd <= upperRegionEnd {
          var newUpper := DirtyFileRegion(newRegionEnd, upperRegionEnd - newRegionEnd, false);
          AfterSplit(before, region, alike, d, c, regions, newRegion, upper, newRegionEnd, newUpper);
          regions := DirtyInsertSorted(DirtyInsertSorted(Without(regions, upper), newUpper), newRegion);
          return;
        } else if newRegionEnd <= upperRegionEnd {
          var trimmed := newRegion.(extent := next.offset - newRegion.offset);
          AfterTrim(before, region, alike, d, c, regions, newRegion, upper, newRegionEnd, trimmed);
          regions := DirtyInsertSorted(regions, trimmed);
          return;
        } else {
          var temp := newRegion.(extent := next.offset - newRegion.offset);
          var later := newRegion.(offset := upperRegionEnd, extent := newRegionEnd - upperRegionEnd);
          AfterSkip(before, region, alike, d, c, regions, newRegion, upper, newRegionEnd, temp, later);
          regions := DirtyInsertSorted(regions, temp);
          upper := upper + 2; // `temp` went in before `next`
          newRegion := later;
        }
      }
      if !stops {
        AtTheEnd(before, region, alike, d, c, regions, newRegion, upper, newRegionEnd);
      }
      regions := DirtyInsertSorted(regions, newRegion);
    }
  }
}
