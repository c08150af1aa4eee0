/** The layout of a request: file regions in the order their bytes are sent. */
module DataTypeLayouts {
  import opened Arithmetic
  import opened Sequences
  import opened FileRegions

  /** The file offset of byte number `n` of the layout. */
  function ByteAt(s: seq<FileRegion>, n: nat): int
    requires n < Length(s)
  {
    if n < s[0].extent then s[0].offset + n else ByteAt(s[1..], n - s[0].extent)
  }

  lemma {:induction false} LengthConcat(s: seq<FileRegion>, t: seq<FileRegion>)
    ensures Length(s + t) == Length(s) + Length(t)
  {
    if s == [] {
      assert s + t == t;
    } else {
      LengthConcat(s[1..], t);
      assert (s + t)[1..] == s[1..] + t;
    }
  }

  lemma {:induction false} ByteAtConcat(s: seq<FileRegion>, t: seq<FileRegion>, n: nat)
    requires n < Length(s) + Length(t)
    ensures Length(s + t) == Length(s) + Length(t)
    ensures ByteAt(s + t, n) == if n < Length(s) then ByteAt(s, n) else ByteAt(t, n - Length(s))
  {
    LengthConcat(s, t);
    if s == [] {
      assert s + t == t;
    } else {
      assert (s + t)[1..] == s[1..] + t;
      if s[0].extent <= n {
        ByteAtConcat(s[1..], t, n - s[0].extent);
      }
    }
  }

  /** The number of bytes before region `i`. */
  function Start(s: seq<FileRegion>, i: nat): nat
    requires i <= |s|
  {
    Length(s[..i])
  }

  lemma StartNext(s: seq<FileRegion>, i: nat)
    requires i < |s|
    ensures Start(s, i + 1) == Start(s, i) + s[i].extent <= Length(s)
    ensures i + 1 == |s| ==> Start(s, i + 1) == Length(s)
  {
    assert s[..i + 1] == s[..i] + [s[i]];
    LengthConcat(s[..i], [s[i]]);
    assert s == s[..i + 1] + s[i + 1..];
    LengthConcat(s[..i + 1], s[i + 1..]);
    assert i + 1 == |s| ==> s[..i + 1] == s;
  }

  lemma {:induction false} StartMonotone(s: seq<FileRegion>, i: nat, j: nat)
    requires i <= j <= |s|
    ensures Start(s, i) <= Start(s, j)
    decreases j
  {
    if i < j {
      StartNext(s, j - 1);
      StartMonotone(s, i, j - 1);
    }
  }

  lemma ByteOfRegion(s: seq<FileRegion>, i: nat, k: nat)
    requires i < |s| && k < s[i].extent
    ensures Start(s, i) + k < Length(s) && ByteAt(s, Start(s, i) + k) == s[i].offset + k
  {
    assert s == s[..i] + s[i..];
    LengthConcat(s[..i], s[i..]);
    ByteAtConcat(s[..i], s[i..], Start(s, i) + k);
  }

  /** The region that holds byte number `o`. */
  function Locate(s: seq<FileRegion>, o: nat, i: nat := 0): (idx: nat)
    requires i < |s| && Start(s, i) <= o < Length(s)
    ensures idx < |s| && Start(s, idx) <= o < Start(s, idx + 1)
    decreases |s| - i
  {
    StartNext(s, i);
    if o < Start(s, i) + s[i].extent then i else Locate(s, o, i + 1)
  }

  lemma LocateIs(s: seq<FileRegion>, o: nat, idx: nat)
    requires idx < |s| && Start(s, idx) <= o < Start(s, idx + 1) && o < Length(s)
    ensures Locate(s, o) == idx
  {
    var i := Locate(s, o);
    if i < idx {
      StartMonotone(s, i + 1, idx);
    } else if idx < i {
      StartMonotone(s, idx + 1, i);
    }
  }

  /** Byte `k` of the `l` bytes that `GetSubRegions` lists from byte number `o` on.  The first run is
      as long as the whole region it starts in when `l` allows, wherever in the region it starts. */
  function SubByte(s: seq<FileRegion>, o: nat, l: nat, k: nat): int
    requires 0 < |s| && o < Length(s) && o + l <= Length(s) && k < l
  {
    var i := Locate(s, o);
    StartNext(s, i);
    if k < s[i].extent then s[i].offset + (o - Start(s, i)) + k else ByteAt(s, Start(s, i) + k)
  }

  ghost predicate ExactSlice(s: seq<FileRegion>, o: nat, l: nat)
    requires 0 < |s| && o < Length(s) && o + l <= Length(s)
  {
    forall k :: 0 <= k < l ==> SubByte(s, o, l, k) == ByteAt(s, o + k)
  }

  /** Byte `o` is the first of its region. */
  predicate StartsRegion(s: seq<FileRegion>, o: nat)
    requires 0 < |s| && o < Length(s)
  {
    o == Start(s, Locate(s, o))
  }

  /** The `l` bytes from number `o` on are neighbours in the file. */
  ghost predicate Consecutive(s: seq<FileRegion>, o: nat, l: nat)
    requires o + l <= Length(s)
  {
    forall n :: o <= n < o + l ==> ByteAt(s, n) == ByteAt(s, o) + (n - o)
  }

  /** The `l` bytes from number `from` on are the same as those `shift` further on. */
  ghost predicate Repeats(s: seq<FileRegion>, from: nat, shift: nat, l: nat)
    requires from + shift + l <= Length(s)
  {
    forall n :: from <= n < from + l ==> ByteAt(s, n) == ByteAt(s, n + shift)
  }

  /** Where the slice is exact although it does not start a region: the bytes of its first run are
      neighbours, and the layout repeats itself as far as the slice goes on. */
  ghost predicate ExactInside(s: seq<FileRegion>, o: nat, l: nat)
    requires 0 < |s| && o < Length(s) && o + l <= Length(s)
  {
    var i := Locate(s, o);
    StartNext(s, i);
    var first := Min(s[i].extent, l);
    Consecutive(s, o, first) && Repeats(s, Start(s, i) + first, o - Start(s, i), l - first)
  }

  lemma SubByteAt(s: seq<FileRegion>, o: nat, l: nat, k: nat)
    requires 0 < |s| && o < Length(s) && o + l <= Length(s) && k < l
    ensures var i := Locate(s, o);
            Start(s, i) <= o && Start(s, i) + k < Length(s)
            && SubByte(s, o, l, k) == if k < s[i].extent then ByteAt(s, o) + k else ByteAt(s, Start(s, i) + k)
  {
    var i := Locate(s, o);
    StartNext(s, i);
    ByteOfRegion(s, i, o - Start(s, i));
  }

  lemma SliceFromStart(s: seq<FileRegion>, o: nat, l: nat)
    requires 0 < |s| && o < Length(s) && o + l <= Length(s) && StartsRegion(s, o)
    ensures ExactSlice(s, o, l)
  {
    var i := Locate(s, o);
    StartNext(s, i);
    forall k | 0 <= k < l ensures SubByte(s, o, l, k) == ByteAt(s, o + k) {
      if k < s[i].extent {
        ByteOfRegion(s, i, k);
      }
    }
  }

  lemma ExactInsideIsExact(s: seq<FileRegion>, o: nat, l: nat)
    requires 0 < |s| && o < Length(s) && o + l <= Length(s) && ExactInside(s, o, l)
    ensures ExactSlice(s, o, l)
  {
    var i := Locate(s, o);
    var first := Min(s[i].extent, l);
    forall k | 0 <= k < l ensures SubByte(s, o, l, k) == ByteAt(s, o + k) {
      SubByteAt(s, o, l, k);
      assert k < first ==> ByteAt(s, o + k) == ByteAt(s, o) + k;
      assert first <= k ==> ByteAt(s, Start(s, i) + k) == ByteAt(s, Start(s, i) + k + (o - Start(s, i)));
    }
  }

  lemma ExactIsConsecutive(s: seq<FileRegion>, o: nat, l: nat)
    requires 0 < |s| && o < Length(s) && o + l <= Length(s) && ExactSlice(s, o, l)
    ensures Consecutive(s, o, Min(s[Locate(s, o)].extent, l))
  {
    forall n | o <= n < o + Min(s[Locate(s, o)].extent, l) ensures ByteAt(s, n) == ByteAt(s, o) + (n - o) {
      SubByteAt(s, o, l, n - o);
      assert SubByte(s, o, l, n - o) == ByteAt(s, o + (n - o));
    }
  }

  lemma ExactRepeats(s: seq<FileRegion>, o: nat, l: nat, start: nat, first: nat)
    requires 0 < |s| && o < Length(s) && o + l <= Length(s) && ExactSlice(s, o, l)
    requires start == Start(s, Locate(s, o)) && first == Min(s[Locate(s, o)].extent, l) && start <= o
    ensures Repeats(s, start + first, o - start, l - first)
  {
    forall n | start + first <= n < start + l ensures ByteAt(s, n) == ByteAt(s, n + (o - start)) {
      SubByteAt(s, o, l, n - start);
      assert SubByte(s, o, l, n - start) == ByteAt(s, o + (n - start));
    }
  }

  lemma ExactIsExactInside(s: seq<FileRegion>, o: nat, l: nat)
    requires 0 < |s| && o < Length(s) && o + l <= Length(s) && ExactSlice(s, o, l)
    ensures ExactInside(s, o, l)
  {
    ExactIsConsecutive(s, o, l);
    ExactRepeats(s, o, l, Start(s, Locate(s, o)), Min(s[Locate(s, o)].extent, l));
  }

  lemma SliceExactBytes(s: seq<FileRegion>, o: nat, l: nat)
    requires 0 < |s| && o < Length(s) && o + l <= Length(s)
    ensures ExactSlice(s, o, l) <==> StartsRegion(s, o) || ExactInside(s, o, l)
  {
    if StartsRegion(s, o) {
      SliceFromStart(s, o, l);
    } else if ExactInside(s, o, l) {
      ExactInsideIsExact(s, o, l);
    } else if ExactSlice(s, o, l) {
      ExactIsExactInside(s, o, l);
    }
  }

  /** Each region with bytes among the `l` from number `o` on begins where the bytes before it end. */
  predicate Adjoining(s: seq<FileRegion>, o: nat, l: nat)
    requires 0 < |s| && o < Length(s)
  {
    var i := Locate(s, o);
    forall j :: i < j < |s| && 0 < s[j].extent && Start(s, j) < o + l ==>
      s[j].offset - s[i].offset == Start(s, j) - Start(s, i)
  }

  lemma AdjoiningByte(s: seq<FileRegion>, o: nat, l: nat, n: nat)
    requires 0 < |s| && o <= n < o + l <= Length(s) && Adjoining(s, o, l)
    ensures ByteAt(s, n) == ByteAt(s, o) + (n - o)
  {
    var i, j := Locate(s, o), Locate(s, n);
    RegionOfLater(s, o, n);
    StartNext(s, i);
    StartNext(s, j);
    ByteOfRegion(s, i, o - Start(s, i));
    ByteOfRegion(s, j, n - Start(s, j));
  }

  lemma ConsecutiveAdjoins(s: seq<FileRegion>, o: nat, l: nat, j: nat)
    requires 0 < |s| && o < Length(s) && o + l <= Length(s) && Consecutive(s, o, l)
    requires Locate(s, o) < j < |s| && 0 < s[j].extent && Start(s, j) < o + l
    ensures s[j].offset - s[Locate(s, o)].offset == Start(s, j) - Start(s, Locate(s, o))
  {
    var i := Locate(s, o);
    StartNext(s, i);
    StartMonotone(s, i + 1, j);
    ByteOfRegion(s, i, o - Start(s, i));
    ByteOfRegion(s, j, 0);
  }

  lemma AdjoiningIsConsecutive(s: seq<FileRegion>, o: nat, l: nat)
    requires 0 < |s| && o < Length(s) && o + l <= Length(s)
    ensures Adjoining(s, o, l) <==> Consecutive(s, o, l)
  {
    if Adjoining(s, o, l) {
      forall n | o <= n < o + l ensures ByteAt(s, n) == ByteAt(s, o) + (n - o) {
        AdjoiningByte(s, o, l, n);
      }
    } else if Consecutive(s, o, l) {
      forall j | Locate(s, o) < j < |s| && 0 < s[j].extent && Start(s, j) < o + l
        ensures s[j].offset - s[Locate(s, o)].offset == Start(s, j) - Start(s, Locate(s, o))
      {
        ConsecutiveAdjoins(s, o, l, j);
      }
    }
  }

  lemma RegionOfLater(s: seq<FileRegion>, o: nat, n: nat)
    requires 0 < |s| && o <= n < Length(s)
    ensures Locate(s, o) <= Locate(s, n)
  {
    if Locate(s, n) < Locate(s, o) {
      StartMonotone(s, Locate(s, n) + 1, Locate(s, o));
    }
  }

  /** A region with bytes begins at byte number `n`. */
  predicate RegionBegins(s: seq<FileRegion>, n: nat) {
    exists i :: 0 <= i < |s| && 0 < s[i].extent && Start(s, i) == n
  }

  lemma InsideRegion(s: seq<FileRegion>, n: nat)
    requires 0 < n < Length(s) && !RegionBegins(s, n)
    ensures ByteAt(s, n) == ByteAt(s, n - 1) + 1
  {
    var i := Locate(s, n);
    StartNext(s, i);
    assert Start(s, i) < n;
    ByteOfRegion(s, i, n - Start(s, i));
    ByteOfRegion(s, i, n - 1 - Start(s, i));
  }

  /** The `l` bytes from number `from` on and those `shift` further on agree in their first byte and
      wherever a region begins among either. */
  predicate AgreesAtRegions(s: seq<FileRegion>, from: nat, shift: nat, l: nat)
    requires from + shift + l <= Length(s)
  {
    forall n :: from <= n < from + l && (n == from || RegionBegins(s, n) || RegionBegins(s, n + shift)) ==>
      ByteAt(s, n) == ByteAt(s, n + shift)
  }

  lemma {:induction false} AgreesBetween(s: seq<FileRegion>, from: nat, shift: nat, l: nat, n: nat)
    requires from + shift + l <= Length(s) && AgreesAtRegions(s, from, shift, l) && from <= n < from + l
    ensures ByteAt(s, n) == ByteAt(s, n + shift)
    decreases n
  {
    if from < n && !RegionBegins(s, n) && !RegionBegins(s, n + shift) {
      AgreesBetween(s, from, shift, l, n - 1);
      InsideRegion(s, n);
      InsideRegion(s, n + shift);
    }
  }

  lemma AgreesIsRepeats(s: seq<FileRegion>, from: nat, shift: nat, l: nat)
    requires from + shift + l <= Length(s)
    ensures AgreesAtRegions(s, from, shift, l) <==> Repeats(s, from, shift, l)
  {
    if AgreesAtRegions(s, from, shift, l) {
      forall n | from <= n < from + l ensures ByteAt(s, n) == ByteAt(s, n + shift) {
        AgreesBetween(s, from, shift, l, n);
      }
    }
  }

  /** What a caller can check region by region before it asks for a slice: it starts a region, or every
      region that its first run goes on to adjoins and the layout repeats itself as far as the slice goes on. */
  predicate CutsExactly(s: seq<FileRegion>, o: nat, l: nat)
    requires 0 < |s| && o < Length(s) && o + l <= Length(s)
  {
    StartsRegion(s, o)
    || (var i := Locate(s, o);
        StartNext(s, i);
        var first := Min(s[i].extent, l);
        Adjoining(s, o, first) && AgreesAtRegions(s, Start(s, i) + first, o - Start(s, i), l - first))
  }

  /** For any layout: when the slice is exact. */
  lemma SliceExact(s: seq<FileRegion>, o: nat, l: nat)
    requires 0 < |s| && o < Length(s) && o + l <= Length(s)
    ensures ExactSlice(s, o, l) <==> CutsExactly(s, o, l)
  {
    var i := Locate(s, o);
    StartNext(s, i);
    var first := Min(s[i].extent, l);
    SliceExactBytes(s, o, l);
    AdjoiningIsConsecutive(s, o, first);
    AgreesIsRepeats(s, Start(s, i) + first, o - Start(s, i), l - first);
  }

  /** A slice that starts a region, or stays inside one, is exact. */
  lemma SliceFaithful(s: seq<FileRegion>, o: nat, l: nat)
    requires 0 < |s| && o < Length(s) && o + l <= Length(s)
    requires StartsRegion(s, o) || o + l <= Start(s, Locate(s, o) + 1)
    ensures ExactSlice(s, o, l)
  {
    if StartsRegion(s, o) {
      SliceFromStart(s, o, l);
    } else {
      var i := Locate(s, o);
      StartNext(s, i);
      forall k | 0 <= k < l ensures SubByte(s, o, l, k) == ByteAt(s, o + k) {
        ByteOfRegion(s, i, o - Start(s, i) + k);
      }
    }
  }

  lemma {:induction false} ByteIsHeld(s: seq<FileRegion>, n: nat)
    requires n < Length(s)
    ensures ByteAt(s, n) in BytesOf(s)
  {
    if s[0].extent <= n {
      ByteIsHeld(s[1..], n - s[0].extent);
    }
  }

  lemma {:induction false} HeldIsByte(s: seq<FileRegion>, b: int) returns (n: nat)
    requires b in BytesOf(s)
    ensures n < Length(s) && ByteAt(s, n) == b
  {
    if b in s[0].Bytes() {
      n := b - s[0].offset;
    } else {
      var m := HeldIsByte(s[1..], b);
      n := s[0].extent + m;
    }
  }

  /** In a layout without overlaps no byte comes twice. */
  lemma {:induction false} BytesDiffer(s: seq<FileRegion>, a: nat, b: nat)
    requires Apart(s) && a < b < Length(s)
    ensures ByteAt(s, a) != ByteAt(s, b)
    decreases |s|
  {
    FirstApart(s);
    if s[0].extent <= a {
      BytesDiffer(s[1..], a - s[0].extent, b - s[0].extent);
    } else if s[0].extent <= b {
      ByteIsHeld(s[1..], b - s[0].extent);
    }
  }

  /** What a caller can check before it asks for a slice of regions that do not overlap: the slice starts
      a region, or is no longer than the region it starts in and every region it goes on to adjoins. */
  predicate CutsWell(s: seq<FileRegion>, o: nat, l: nat)
    requires 0 < |s| && o < Length(s)
  {
    StartsRegion(s, o) || (l <= s[Locate(s, o)].extent && Adjoining(s, o, l))
  }

  /** For regions that do not overlap, in any order: the slice is exact only then. */
  lemma SliceExactApart(s: seq<FileRegion>, o: nat, l: nat)
    requires Apart(s) && 0 < |s| && o < Length(s) && o + l <= Length(s)
    ensures ExactSlice(s, o, l) <==> CutsWell(s, o, l)
  {
    SliceExactBytes(s, o, l);
    AdjoiningIsConsecutive(s, o, l);
    var i := Locate(s, o);
    StartNext(s, i);
    if !StartsRegion(s, o) && s[i].extent < l {
      var n := Start(s, i) + s[i].extent;
      BytesDiffer(s, n, n + (o - Start(s, i)));
    }
  }

  /** Bytes 2 to 5 of a layout with a gap after byte 3: the code lists two bytes of the gap. */
  lemma SliceCanFail()
    ensures var s := [FileRegion(0, 4), FileRegion(10, 4)];
            Apart(s) && Length(s) == 8 && SubByte(s, 2, 4, 2) == 4 && ByteAt(s, 4) == 10 && !ExactSlice(s, 2, 4)
  {
    var s := [FileRegion(0, 4), FileRegion(10, 4)];
    assert s[1..] == [s[1]];
    assert Length(s) == 8;
    StartNext(s, 0);
    LocateIs(s, 2, 0);
    assert SubByte(s, 2, 4, 2) != ByteAt(s, 2 + 2);
  }

  // ----- Regions of an element type -----

  /** How an element type lists the bytes from an offset on. */
  type ElementRegions = (int, nat) -> seq<FileRegion>

  /** The regions an element type lists for each of some runs. */
  function Flatten(element: ElementRegions, runs: seq<FileRegion>): seq<FileRegion> {
    if runs == [] then []
    else
      var n := |runs| - 1;
      Flatten(element, runs[..n]) + element(runs[n].offset, runs[n].extent)
  }

  lemma FlattenMore(element: ElementRegions, runs: seq<FileRegion>, r: FileRegion)
    ensures Flatten(element, runs + [r]) == Flatten(element, runs) + element(r.offset, r.extent)
  {
    assert (runs + [r])[..|runs|] == runs;
  }

  /** Appends what the element type lists for one more run. */
  method AppendRegions(element: ElementRegions, before: seq<FileRegion>, ghost runsBefore: seq<FileRegion>,
                       offset: int, extent: nat) returns (regions: seq<FileRegion>, ghost runs: seq<FileRegion>)
    requires before == Flatten(element, runsBefore)
    ensures runs == runsBefore + [FileRegion(offset, extent)] && regions == Flatten(element, runs)
  {
    runs := runsBefore + [FileRegion(offset, extent)];
    FlattenMore(element, runsBefore, FileRegion(offset, extent));
    regions := before + element(offset, extent);
  }

  /** A basic type lists one region. */
  ghost predicate IsBasic(element: ElementRegions) {
    forall offset: int, numBytes: nat :: element(offset, numBytes) == [FileRegion(offset, numBytes)]
  }

  function BasicRegions(offset: int, numBytes: nat): seq<FileRegion> {
    [FileRegion(offset, numBytes)]
  }

  lemma {:induction false} FlattenBasic(element: ElementRegions, runs: seq<FileRegion>)
    requires IsBasic(element)
    ensures Flatten(element, runs) == runs
  {
    if runs != [] {
      FlattenBasic(element, runs[..|runs| - 1]);
      assert runs == runs[..|runs| - 1] + [runs[|runs| - 1]];
    }
  }

  /** The regions are those of the layout from index `first` on, only the last one cut short. */
  predicate FollowsRegions(s: seq<FileRegion>, first: nat, rest: seq<FileRegion>) {
    && first + |rest| <= |s|
    && forall k :: 0 <= k < |rest| ==>
         && rest[k].offset == s[first + k].offset && rest[k].extent <= s[first + k].extent
         && (k + 1 < |rest| ==> rest[k].extent == s[first + k].extent)
  }

  class DataTypeLayout {
    var fileRegions: seq<FileRegion>

    constructor ()
      ensures fileRegions == []
    {
      fileRegions := [];
    }

    method AddRegion(offset: int, extent: nat)
      modifies this
      ensures fileRegions == old(fileRegions) + [FileRegion(offset, extent)]
    {
      fileRegions := fileRegions + [FileRegion(offset, extent)];
    }

    method GetLength() returns (length: nat)
      ensures length == Length(fileRegions)
    {
      length := 0;
      for i := 0 to |fileRegions|
        invariant length == Start(fileRegions, i)
      {
        StartNext(fileRegions, i);
        length := length + fileRegions[i].extent;
      }
      assert fileRegions[..|fileRegions|] == fileRegions;
    }

    method GetSubRegions(byteOffset: nat, byteLength: nat) returns (subRegions: seq<FileRegion>)
      requires 0 < |fileRegions| && byteOffset < Length(fileRegions)
      requires byteOffset + byteLength <= Length(fileRegions)
      ensures 1 <= |subRegions| <= |fileRegions|
      ensures IsSlice(fileRegions, byteOffset, byteLength, subRegions)
      ensures var i := Locate(fileRegions, byteOffset);
              && subRegions[0].extent == Min(fileRegions[i].extent, byteLength)
              && FollowsRegions(fileRegions, i + 1, subRegions[1..])
    {
      var s := fileRegions;
      var regionIdx: nat := 0;
      var processedBytes := s[0].extent;
      StartNext(s, 0);
      while byteOffset >= processedBytes
        invariant regionIdx < |s|
          && processedBytes == Start(s, regionIdx + 1) == Start(s, regionIdx) + s[regionIdx].extent
        invariant Start(s, regionIdx) <= byteOffset
        decreases |s| - regionIdx
      {
        StartNext(s, regionIdx);
        regionIdx := regionIdx + 1;
        StartNext(s, regionIdx);
        processedBytes := processedBytes + s[regionIdx].extent;
      }
      LocateIs(s, byteOffset, regionIdx);
      StartNext(s, regionIdx);

      var firstOffset := s[regionIdx].offset + byteOffset - (processedBytes - s[regionIdx].extent);
      var firstExtent := Min(s[regionIdx].extent, byteLength);
      var rest := ListRest(regionIdx + 1, processedBytes, firstExtent, byteLength);
      subRegions := [FileRegion(firstOffset, firstExtent)] + rest;
      assert subRegions[1..] == rest;
    }

    /** The second half of `GetSubRegions`: the bytes of the following regions until `byteLength`
        bytes are listed. */
    method ListRest(firstIdx: nat, ghost next: nat, firstExtent: nat, byteLength: nat) returns (rest: seq<FileRegion>)
      requires firstIdx <= |fileRegions| && next == Start(fileRegions, firstIdx)
      requires firstExtent <= byteLength && next + (byteLength - firstExtent) <= Length(fileRegions)
      ensures |rest| <= |fileRegions| - firstIdx && Length(rest) == byteLength - firstExtent
      ensures FollowsRegions(fileRegions, firstIdx, rest)
      ensures forall k :: 0 <= k < byteLength - firstExtent ==> ByteAt(rest, k) == ByteAt(fileRegions, next + k)
    {
      var s := fileRegions;
      rest := [];
      var regionIdx := firstIdx;
      var assignedBytes := firstExtent;
      while assignedBytes < byteLength
        invariant s[..|s|] == s
        invariant firstIdx <= regionIdx <= |s| && |rest| == regionIdx - firstIdx
        invariant FollowsRegions(s, firstIdx, rest)
        invariant assignedBytes < byteLength && rest != [] ==> rest[|rest| - 1].extent == s[regionIdx - 1].extent
        invariant assignedBytes <= byteLength && Length(rest) == assignedBytes - firstExtent
        invariant assignedBytes < byteLength ==> Start(s, regionIdx) == next + (assignedBytes - firstExtent)
        invariant forall k :: 0 <= k < Length(rest) ==> ByteAt(rest, k) == ByteAt(s, next + k)
        decreases |s| - regionIdx
      {
        StartNext(s, regionIdx);
        var length := Min(s[regionIdx].extent, byteLength - assignedBytes);
        ListedSoFar(s, next, rest, regionIdx, length);
        rest := rest + [FileRegion(s[regionIdx].offset, length)];
        assignedBytes := assignedBytes + length;
        regionIdx := regionIdx + 1;
      }
    }
  }

  /** One more region, or the first part of it, continues the bytes listed from number `next` on. */
  lemma ListedSoFar(s: seq<FileRegion>, next: nat, rest: seq<FileRegion>, i: nat, n: nat)
    requires i < |s| && n <= s[i].extent && Start(s, i) == next + Length(rest)
    requires next + Length(rest) + n <= Length(s)
    requires forall k :: 0 <= k < Length(rest) ==> ByteAt(rest, k) == ByteAt(s, next + k)
    ensures var t := rest + [FileRegion(s[i].offset, n)];
            Length(t) == Length(rest) + n && forall k :: 0 <= k < Length(t) ==> ByteAt(t, k) == ByteAt(s, next + k)
  {
    var last := [FileRegion(s[i].offset, n)];
    LengthConcat(rest, last);
    forall k | 0 <= k < Length(rest + last) ensures ByteAt(rest + last, k) == ByteAt(s, next + k) {
      ByteAtConcat(rest, last, k);
      if Length(rest) <= k {
        ByteOfRegion(s, i, k - Length(rest));
      }
    }
  }

  // ----- Consecutive slices -----

  /** What `GetSubRegions` returns. */
  ghost predicate IsSlice(s: seq<FileRegion>, o: nat, l: nat, regions: seq<FileRegion>) {
    && 0 < |s| && o < Length(s) && o + l <= Length(s) && Length(regions) == l
    && forall k :: 0 <= k < l ==> ByteAt(regions, k) == SubByte(s, o, l, k)
  }

  /** Slices of the given sizes, each from where the one before it ended. */
  ghost predicate Slices(s: seq<FileRegion>, o: nat, sizes: seq<nat>, requests: seq<seq<FileRegion>>)
    decreases |sizes|
  {
    if sizes == [] then requests == []
    else requests != [] && IsSlice(s, o, sizes[0], requests[0]) && Slices(s, o + sizes[0], sizes[1..], requests[1..])
  }

  lemma {:induction false} SlicesConcat(s: seq<FileRegion>, o: nat, a: seq<nat>, ra: seq<seq<FileRegion>>,
                                        b: seq<nat>, rb: seq<seq<FileRegion>>)
    requires Slices(s, o, a, ra) && Slices(s, o + Sum(a), b, rb)
    ensures Slices(s, o, a + b, ra + rb)
    decreases |a|
  {
    if a == [] {
      assert a + b == b && ra + rb == rb;
    } else {
      SlicesConcat(s, o + a[0], a[1..], ra[1..], b, rb);
      assert (a + b)[1..] == a[1..] + b && (ra + rb)[1..] == ra[1..] + rb;
    }
  }

  /** All regions requested, one request after the other. */
  function Concat<T>(requests: seq<seq<T>>): seq<T> {
    if requests == [] then [] else requests[0] + Concat(requests[1..])
  }

  lemma {:induction false} SlicesLength(s: seq<FileRegion>, o: nat, sizes: seq<nat>, requests: seq<seq<FileRegion>>)
    requires Slices(s, o, sizes, requests)
    ensures Length(Concat(requests)) == Sum(sizes) && (sizes != [] ==> o + Sum(sizes) <= Length(s))
    decreases |sizes|
  {
    if sizes != [] {
      SlicesLength(s, o + sizes[0], sizes[1..], requests[1..]);
      LengthConcat(requests[0], Concat(requests[1..]));
    }
  }

  /** The regions hold the bytes of the layout from number `o` on. */
  ghost predicate ListsFrom(s: seq<FileRegion>, o: nat, regions: seq<FileRegion>)
    requires o + Length(regions) <= Length(s)
  {
    forall k :: 0 <= k < Length(regions) ==> ByteAt(regions, k) == ByteAt(s, o + k)
  }

  /** Each slice passes that test. */
  ghost predicate Sliceable(s: seq<FileRegion>, o: nat, sizes: seq<nat>)
    requires o + Sum(sizes) <= Length(s)
    decreases |sizes|
  {
    sizes == []
    || (0 < |s| && o < Length(s) && CutsExactly(s, o, sizes[0]) && Sliceable(s, o + sizes[0], sizes[1..]))
  }

  lemma ListsBoth(s: seq<FileRegion>, o: nat, a: seq<FileRegion>, b: seq<FileRegion>)
    requires o + Length(a) + Length(b) <= Length(s) && ListsFrom(s, o, a) && ListsFrom(s, o + Length(a), b)
    ensures Length(a + b) == Length(a) + Length(b) && ListsFrom(s, o, a + b)
  {
    LengthConcat(a, b);
    forall k | 0 <= k < Length(a + b) ensures ByteAt(a + b, k) == ByteAt(s, o + k) {
      ByteAtConcat(a, b, k);
      if Length(a) <= k {
        assert ByteAt(b, k - Length(a)) == ByteAt(s, o + Length(a) + (k - Length(a)));
      }
    }
  }

  lemma ListsFirst(s: seq<FileRegion>, o: nat, a: seq<FileRegion>, b: seq<FileRegion>)
    requires Length(a + b) == Length(a) + Length(b)
    requires o + Length(a) + Length(b) <= Length(s) && ListsFrom(s, o, a + b)
    ensures ListsFrom(s, o, a)
  {
    forall k | 0 <= k < Length(a) ensures ByteAt(a, k) == ByteAt(s, o + k) {
      ByteAtConcat(a, b, k);
      assert ByteAt(a + b, k) == ByteAt(s, o + k);
    }
  }

  lemma ListsSecond(s: seq<FileRegion>, o: nat, a: seq<FileRegion>, b: seq<FileRegion>)
    requires Length(a + b) == Length(a) + Length(b)
    requires o + Length(a) + Length(b) <= Length(s) && ListsFrom(s, o, a + b)
    ensures ListsFrom(s, o + Length(a), b)
  {
    forall k | 0 <= k < Length(b) ensures ByteAt(b, k) == ByteAt(s, o + Length(a) + k) {
      ByteAtConcat(a, b, Length(a) + k);
      assert ByteAt(a + b, Length(a) + k) == ByteAt(s, o + (Length(a) + k));
    }
  }

  lemma ListsFromConcat(s: seq<FileRegion>, o: nat, a: seq<FileRegion>, b: seq<FileRegion>)
    requires o + Length(a) + Length(b) <= Length(s)
    ensures Length(a + b) == Length(a) + Length(b)
    ensures ListsFrom(s, o, a + b) <==> ListsFrom(s, o, a) && ListsFrom(s, o + Length(a), b)
  {
    LengthConcat(a, b);
    if ListsFrom(s, o, a + b) {
      ListsFirst(s, o, a, b);
      ListsSecond(s, o, a, b);
    }
    if ListsFrom(s, o, a) && ListsFrom(s, o + Length(a), b) {
      ListsBoth(s, o, a, b);
    }
  }

  lemma SliceListsExactly(s: seq<FileRegion>, o: nat, l: nat, regions: seq<FileRegion>)
    requires IsSlice(s, o, l, regions)
    ensures ListsFrom(s, o, regions) <==> CutsExactly(s, o, l)
  {
    SliceExact(s, o, l);
    if ListsFrom(s, o, regions) {
      forall k | 0 <= k < l ensures SubByte(s, o, l, k) == ByteAt(s, o + k) {
        assert ByteAt(regions, k) == SubByte(s, o, l, k);
      }
    }
    if ExactSlice(s, o, l) {
      forall k | 0 <= k < l ensures ByteAt(regions, k) == ByteAt(s, o + k) {
        assert ByteAt(regions, k) == SubByte(s, o, l, k);
      }
    }
  }

  lemma ConcatSplits(s: seq<FileRegion>, o: nat, sizes: seq<nat>, requests: seq<seq<FileRegion>>)
    requires Slices(s, o, sizes, requests) && sizes != []
    ensures requests != [] && Length(requests[0]) == sizes[0] && Length(Concat(requests[1..])) == Sum(sizes[1..])
    ensures Length(Concat(requests)) == Sum(sizes) && o + Sum(sizes) <= Length(s)
    ensures ListsFrom(s, o, Concat(requests)) <==>
            ListsFrom(s, o, requests[0]) && ListsFrom(s, o + sizes[0], Concat(requests[1..]))
  {
    SlicesLength(s, o, sizes, requests);
    SlicesLength(s, o + sizes[0], sizes[1..], requests[1..]);
    ListsFromConcat(s, o, requests[0], Concat(requests[1..]));
  }

  /** Consecutive slices list the layout, in order, exactly when each of them can be cut exactly. */
  lemma {:induction false} SlicesListExactly(s: seq<FileRegion>, o: nat, sizes: seq<nat>,
                                           requests: seq<seq<FileRegion>>)
    requires Slices(s, o, sizes, requests) && o + Sum(sizes) <= Length(s)
    ensures Length(Concat(requests)) == Sum(sizes)
    ensures ListsFrom(s, o, Concat(requests)) <==> Sliceable(s, o, sizes)
    decreases |sizes|
  {
    if sizes != [] {
      ConcatSplits(s, o, sizes, requests);
      SliceListsExactly(s, o, sizes[0], requests[0]);
      SlicesListExactly(s, o + sizes[0], sizes[1..], requests[1..]);
    }
  }

  /** Every slice of those sizes can be cut exactly, for regions that do not overlap. */
  ghost predicate AllCutWell(s: seq<FileRegion>, o: nat, sizes: seq<nat>)
    decreases |sizes|
  {
    sizes == []
    || (0 < |s| && o < Length(s) && CutsWell(s, o, sizes[0]) && AllCutWell(s, o + sizes[0], sizes[1..]))
  }

  lemma SliceListsApart(s: seq<FileRegion>, o: nat, l: nat, regions: seq<FileRegion>)
    requires Apart(s) && IsSlice(s, o, l, regions)
    ensures ListsFrom(s, o, regions) <==> CutsWell(s, o, l)
  {
    SliceListsExactly(s, o, l, regions);
    SliceExactApart(s, o, l);
    SliceExact(s, o, l);
  }

  /** Consecutive slices list such a layout, in order, exactly when each of them can be cut well. */
  lemma {:induction false} SlicesListApart(s: seq<FileRegion>, o: nat, sizes: seq<nat>,
                                         requests: seq<seq<FileRegion>>)
    requires Apart(s) && Slices(s, o, sizes, requests) && o + Sum(sizes) <= Length(s)
    ensures Length(Concat(requests)) == Sum(sizes)
    ensures ListsFrom(s, o, Concat(requests)) <==> AllCutWell(s, o, sizes)
    decreases |sizes|
  {
    if sizes != [] {
      ConcatSplits(s, o, sizes, requests);
      SliceListsApart(s, o, sizes[0], requests[0]);
      SlicesListApart(s, o + sizes[0], sizes[1..], requests[1..]);
    }
  }

  /** The bytes of a slice as regions of one byte each. */
  lemma {:induction false} SliceExists(s: seq<FileRegion>, o: nat, l: nat, n: nat) returns (regions: seq<FileRegion>)
    requires 0 < |s| && o < Length(s) && o + l <= Length(s) && n <= l
    ensures Length(regions) == n && forall k :: 0 <= k < n ==> ByteAt(regions, k) == SubByte(s, o, l, k)
  {
    if n == 0 {
      regions := [];
    } else {
      var first := SliceExists(s, o, l, n - 1);
      var last := [FileRegion(SubByte(s, o, l, n - 1), 1)];
      LengthConcat(first, last);
      regions := first + last;
      forall k | 0 <= k < n ensures ByteAt(regions, k) == SubByte(s, o, l, k) {
        ByteAtConcat(first, last, k);
      }
    }
  }

  lemma {:induction false} SlicesExist(s: seq<FileRegion>, o: nat, sizes: seq<nat>)
    returns (requests: seq<seq<FileRegion>>)
    requires o + Sum(sizes) <= Length(s) && forall i :: 0 <= i < |sizes| ==> 0 < sizes[i]
    ensures Slices(s, o, sizes, requests)
    decreases |sizes|
  {
    if sizes == [] {
      requests := [];
    } else {
      var first := SliceExists(s, o, sizes[0], sizes[0]);
      var rest := SlicesExist(s, o + sizes[0], sizes[1..]);
      requests := [first] + rest;
      assert requests[1..] == rest;
    }
  }

  /** Regions that list a layout without overlaps hold each of its bytes once. */
  lemma ListedOnce(s: seq<FileRegion>, regions: seq<FileRegion>)
    requires Apart(s) && Length(regions) == Length(s) && ListsFrom(s, 0, regions)
    ensures BytesOf(regions) == BytesOf(s) && Length(regions) == |BytesOf(regions)|
  {
    forall b | b in BytesOf(regions) ensures b in BytesOf(s) {
      var n := HeldIsByte(regions, b);
      ByteIsHeld(s, 0 + n);
    }
    forall b | b in BytesOf(s) ensures b in BytesOf(regions) {
      var n := HeldIsByte(s, b);
      assert ByteAt(regions, n) == ByteAt(s, 0 + n);
      ByteIsHeld(regions, n);
    }
    LengthCounts(s);
  }
}
