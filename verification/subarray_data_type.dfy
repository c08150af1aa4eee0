/** The MPI subarray type: a box inside a larger array, listed as contiguous runs of memory. */
module SubarrayTypes {
  import opened FileRegions
  import opened DataTypeLayouts
  import opened Arithmetic

  datatype ArrayOrder = InvalidOrder | COrder | FortranOrder

  datatype Subarray = Subarray(sizes: seq<nat>, subSizes: seq<nat>, starts: seq<nat>, order: ArrayOrder,
                               elementExtent: nat) {

    predicate Valid() {
      && |sizes| == |subSizes| == |starts| && 0 < elementExtent
      && forall i :: 0 <= i < |sizes| ==> 1 <= subSizes[i] && starts[i] + subSizes[i] <= sizes[i]
    }

    function Dims(): nat {
      |sizes|
    }

    /** Where dimension `k`, counted from the slowest one, is stored. */
    function Stored(k: nat): (i: nat)
      requires k < Dims()
      ensures i < Dims()
    {
      if order == COrder then k else Dims() - 1 - k
    }

    function Size(k: nat): nat
      requires Valid() && k < Dims()
    {
      sizes[Stored(k)]
    }

    function Sub(k: nat): (s: nat)
      requires Valid() && k < Dims()
      ensures 1 <= s && Begin(k) + s <= Size(k)
    {
      subSizes[Stored(k)]
    }

    function Begin(k: nat): nat
      requires Valid() && k < Dims()
    {
      starts[Stored(k)]
    }

    /** The product of the first `k` dimensions, from the slowest on. */
    function Product(v: seq<nat>, k: nat): nat
      requires |v| == Dims() && k <= Dims()
    {
      if k == 0 then 1 else Product(v, k - 1) * v[Stored(k - 1)]
    }

    /** The position in the array of element number `j` of the box, over the first `k` dimensions. */
    function Element(k: nat, j: nat): nat
      requires Valid() && k <= Dims()
    {
      if k == 0 then 0
      else Element(k - 1, j / Sub(k - 1)) * Size(k - 1) + (Begin(k - 1) + j % Sub(k - 1))
    }

    /** The position in row-major order of the element with the given indices: each index weighs as
        much as all faster dimensions together. */
    function RowMajor(index: seq<nat>, k: nat := 0): nat
      requires Valid() && |index| == Dims() && k <= Dims()
      decreases Dims() - k
    {
      if k == Dims() then 0 else index[Stored(k)] * Weight(k + 1) + RowMajor(index, k + 1)
    }

    function Weight(k: nat): nat
      requires Valid() && k <= Dims()
      decreases Dims() - k
    {
      if k == Dims() then 1 else Size(k) * Weight(k + 1)
    }

    /** The indices of the elements of the box. */
    predicate InBox(index: seq<nat>) {
      && |index| == |sizes| == |subSizes| == |starts|
      && forall i :: 0 <= i < Dims() ==> starts[i] <= index[i] < starts[i] + subSizes[i]
    }

    function Elements(): nat
      requires Valid()
    {
      Product(subSizes, Dims())
    }
  }

  // ----- Elements of the box in increasing order -----

  lemma {:induction false} ProductPositive(t: Subarray, k: nat)
    requires t.Valid() && k <= t.Dims()
    ensures 1 <= t.Product(t.subSizes, k)
  {
    if 0 < k {
      ProductPositive(t, k - 1);
      TimesMonotone(1, t.Product(t.subSizes, k - 1), t.Sub(k - 1));
    }
  }

  /** A position in one row lies before the next rows. */
  lemma RowsIncrease(a: nat, b: nat, size: nat, i: nat)
    requires a < b && i < size
    ensures a * size + i < b * size
  {
    TimesNext(a, size);
    TimesMonotone(a + 1, b, size);
  }

  /** Later elements lie further on in the array. */
  lemma {:induction false} ElementsIncrease(t: Subarray, k: nat, a: nat, b: nat)
    requires t.Valid() && k <= t.Dims() && a < b < t.Product(t.subSizes, k)
    ensures t.Element(k, a) < t.Element(k, b)
  {
    if 0 < k {
      var s, size := t.Sub(k - 1), t.Size(k - 1);
      QuotientMonotone(a, b, s);
      QuotientBound(b, t.Product(t.subSizes, k - 1), s);
      if a / s < b / s {
        ElementsIncrease(t, k - 1, a / s, b / s);
        RowsIncrease(t.Element(k - 1, a / s), t.Element(k - 1, b / s), size, t.Begin(k - 1) + a % s);
      }
    }
  }

  lemma {:induction false} ElementsFit(t: Subarray, k: nat, j: nat)
    requires t.Valid() && k <= t.Dims() && j < t.Product(t.subSizes, k)
    ensures t.Element(k, j) < t.Product(t.sizes, k)
  {
    if 0 < k {
      var s, size := t.Sub(k - 1), t.Size(k - 1);
      QuotientBound(j, t.Product(t.subSizes, k - 1), s);
      ElementsFit(t, k - 1, j / s);
      TimesNext(t.Element(k - 1, j / s), size);
      TimesMonotone(t.Element(k - 1, j / s) + 1, t.Product(t.sizes, k - 1), size);
    }
  }

  /** Elements that differ only in the fastest dimension are neighbours. */
  lemma ElementsAdjoin(t: Subarray, r: nat, i: nat)
    requires t.Valid() && 0 < t.Dims() && i < t.Sub(t.Dims() - 1)
    ensures var c := t.Sub(t.Dims() - 1); t.Element(t.Dims(), r * c + i) == t.Element(t.Dims(), r * c) + i
  {
    var c := t.Sub(t.Dims() - 1);
    DivIs(r * c + i, c, r, i);
    DivIs(r * c, c, r, 0);
  }

  // ----- The elements of the box are those with indices in the box -----

  /** The number of the element with the given indices. */
  function Number(t: Subarray, index: seq<nat>, k: nat): nat
    requires t.Valid() && t.InBox(index) && k <= t.Dims()
  {
    if k == 0 then 0
    else Number(t, index, k - 1) * t.Sub(k - 1) + (index[t.Stored(k - 1)] - t.Begin(k - 1))
  }

  /** Horner's scheme over the first `k` dimensions. */
  function Horner(t: Subarray, index: seq<nat>, k: nat): nat
    requires t.Valid() && |index| == t.Dims() && k <= t.Dims()
  {
    if k == 0 then 0 else Horner(t, index, k - 1) * t.Size(k - 1) + index[t.Stored(k - 1)]
  }

  lemma {:induction false} HornerIsRowMajor(t: Subarray, index: seq<nat>, k: nat)
    requires t.Valid() && |index| == t.Dims() && k <= t.Dims()
    ensures Horner(t, index, k) * t.Weight(k) + t.RowMajor(index, k) == t.RowMajor(index)
  {
    if 0 < k {
      HornerIsRowMajor(t, index, k - 1);
      HornerStep(Horner(t, index, k - 1), t.Size(k - 1), t.Weight(k), index[t.Stored(k - 1)]);
    }
  }

  lemma HornerAll(t: Subarray, index: seq<nat>)
    requires t.Valid() && |index| == t.Dims()
    ensures Horner(t, index, t.Dims()) == t.RowMajor(index)
  {
    HornerIsRowMajor(t, index, t.Dims());
    assert t.Weight(t.Dims()) == 1;
  }

  lemma HornerStep(h: int, size: int, w: int, i: int)
    ensures (h * size + i) * w == h * (size * w) + i * w
  {
  }

  lemma {:induction false} ElementOfNumber(t: Subarray, index: seq<nat>, k: nat)
    requires t.Valid() && t.InBox(index) && k <= t.Dims()
    ensures Number(t, index, k) < t.Product(t.subSizes, k)
    ensures t.Element(k, Number(t, index, k)) == Horner(t, index, k)
  {
    if 0 < k {
      ElementOfNumber(t, index, k - 1);
      var n, s, i := Number(t, index, k - 1), t.Sub(k - 1), index[t.Stored(k - 1)] - t.Begin(k - 1);
      DivIs(n * s + i, s, n, i);
      TimesNext(n, s);
      TimesMonotone(n + 1, t.Product(t.subSizes, k - 1), s);
    }
  }

  /** The indices of element number `j`, in storage order. */
  function IndexOf(t: Subarray, j: nat): (index: seq<nat>)
    requires t.Valid()
    ensures |index| == t.Dims()
  {
    seq(t.Dims(), i requires 0 <= i < t.Dims() => t.starts[i] + Digit(t, j, t.Stored(i)))
  }

  /** The digit of `j` for dimension `k`: its index within the box. */
  function Digit(t: Subarray, j: nat, k: nat): (i: nat)
    requires t.Valid() && k < t.Dims()
    ensures i < t.Sub(k)
  {
    Quotient(t, j, k + 1) % t.Sub(k)
  }

  /** What is left of `j` after the digits of dimensions `k`, ... have been taken off. */
  function Quotient(t: Subarray, j: nat, k: nat): nat
    requires t.Valid() && k <= t.Dims()
    decreases t.Dims() - k
  {
    if k == t.Dims() then j else Quotient(t, j, k + 1) / t.Sub(k)
  }

  lemma IndexInBox(t: Subarray, j: nat)
    requires t.Valid()
    ensures t.InBox(IndexOf(t, j))
  {
    forall i | 0 <= i < t.Dims() ensures t.starts[i] <= IndexOf(t, j)[i] < t.starts[i] + t.subSizes[i] {
      assert t.Stored(t.Stored(i)) == i;
    }
  }

  lemma HornerOfDigits(t: Subarray, j: nat)
    requires t.Valid()
    ensures Horner(t, IndexOf(t, j), t.Dims()) == t.Element(t.Dims(), j)
  {
    forall k | 0 <= k < t.Dims() ensures IndexOf(t, j)[t.Stored(k)] == t.Begin(k) + Digit(t, j, k) {
      IndexAt(t, j, k);
    }
    HornerOfIndex(t, j, IndexOf(t, j), t.Dims(), j);
  }

  lemma {:induction false} HornerOfIndex(t: Subarray, j: nat, index: seq<nat>, k: nat, q: nat)
    requires t.Valid() && k <= t.Dims() == |index| && q == Quotient(t, j, k)
    requires forall i :: 0 <= i < t.Dims() ==> index[t.Stored(i)] == t.Begin(i) + Digit(t, j, i)
    ensures Horner(t, index, k) == t.Element(k, q)
  {
    if 0 < k {
      HornerOfIndex(t, j, index, k - 1, Quot(q, t.Sub(k - 1)));
      assert index[t.Stored(k - 1)] == t.Begin(k - 1) + Digit(t, j, k - 1);
      DigitsStep(t, index, k, q);
    }
  }

  /** One more dimension keeps the evaluation of the indices at the position of the element. */
  lemma DigitsStep(t: Subarray, index: seq<nat>, k: nat, q: nat)
    requires t.Valid() && |index| == t.Dims() && 0 < k <= t.Dims()
    requires Horner(t, index, k - 1) == t.Element(k - 1, q / t.Sub(k - 1))
    requires index[t.Stored(k - 1)] == t.Begin(k - 1) + q % t.Sub(k - 1)
    ensures Horner(t, index, k) == t.Element(k, q)
  {
    ElementStep(t, k, q);
  }

  lemma ElementStep(t: Subarray, k: nat, j: nat)
    requires t.Valid() && 0 < k <= t.Dims()
    ensures t.Element(k, j) ==
            t.Element(k - 1, j / t.Sub(k - 1)) * t.Size(k - 1) + (t.Begin(k - 1) + j % t.Sub(k - 1))
  {
  }

  lemma IndexAt(t: Subarray, j: nat, k: nat)
    requires t.Valid() && k < t.Dims()
    ensures IndexOf(t, j)[t.Stored(k)] == t.Begin(k) + Digit(t, j, k)
  {
    assert t.Stored(t.Stored(k)) == k;
  }

  /** Element number `j` has indices in the box. */
  lemma ElementHasIndex(t: Subarray, j: nat)
    requires t.Valid()
    ensures t.InBox(IndexOf(t, j)) && t.RowMajor(IndexOf(t, j)) == t.Element(t.Dims(), j)
  {
    IndexInBox(t, j);
    HornerOfDigits(t, j);
    HornerAll(t, IndexOf(t, j));
  }

  /** Every index vector in the box is that of an element. */
  lemma IndexHasElement(t: Subarray, index: seq<nat>)
    requires t.Valid() && t.InBox(index)
    ensures var j := Number(t, index, t.Dims());
            j < t.Elements() && t.Element(t.Dims(), j) == t.RowMajor(index)
  {
    ElementOfNumber(t, index, t.Dims());
    HornerAll(t, index);
  }

  predicate IsElement(t: Subarray, j: nat, position: nat)
    requires t.Valid()
  {
    j < t.Elements() && t.Element(t.Dims(), j) == position
  }

  predicate HasIndex(t: Subarray, index: seq<nat>, position: nat)
    requires t.Valid()
  {
    t.InBox(index) && t.RowMajor(index) == position
  }

  /** The elements are exactly the row-major positions of the box. */
  lemma ElementsAreTheBox(t: Subarray, position: nat)
    requires t.Valid()
    ensures (exists j :: IsElement(t, j, position)) <==> (exists index :: HasIndex(t, index, position))
  {
    forall j | IsElement(t, j, position) ensures HasIndex(t, IndexOf(t, j), position) {
      ElementHasIndex(t, j);
    }
    forall index | HasIndex(t, index, position) ensures IsElement(t, Number(t, index, t.Dims()), position) {
      IndexHasElement(t, index);
    }
  }

  // ----- Runs: the elements along the fastest dimension -----

  function ContiguousCount(t: Subarray): nat
    requires t.Valid()
  {
    if t.Dims() == 0 then 0 else t.Sub(t.Dims() - 1)
  }

  function NumRegions(t: Subarray): nat
    requires t.Valid()
  {
    if t.Dims() == 0 then 0 else t.Product(t.subSizes, t.Dims() - 1)
  }

  function ContiguousLength(t: Subarray): nat
    requires t.Valid()
  {
    ContiguousCount(t) * t.elementExtent
  }

  /** Where run `r` starts in memory. */
  function Location(t: Subarray, r: nat): nat
    requires t.Valid()
  {
    t.Element(t.Dims(), r * ContiguousCount(t)) * t.elementExtent
  }

  function Extent(t: Subarray): nat
    requires t.Valid()
  {
    t.Product(t.sizes, t.Dims()) * t.elementExtent
  }

  function DataSize(t: Subarray): nat
    requires t.Valid()
  {
    t.Elements() * t.elementExtent
  }

  /** The subarray that is all of the array. */
  function Whole(t: Subarray): Subarray {
    t.(subSizes := t.sizes, starts := seq(|t.sizes|, _ => 0))
  }

  lemma Rejoin(j: nat, s: nat)
    requires 0 < s
    ensures j / s * s + (0 + j % s) == j
  {
  }

  lemma {:induction false} WholeElement(t: Subarray, k: nat, j: nat)
    requires t.Valid() && t.subSizes == t.sizes && (forall i :: 0 <= i < t.Dims() ==> t.starts[i] == 0)
    requires k <= t.Dims() && j < t.Product(t.sizes, k)
    ensures t.Element(k, j) == j
  {
    if 0 < k {
      var s := t.Sub(k - 1);
      QuotientBound(j, t.Product(t.sizes, k - 1), s);
      WholeElement(t, k - 1, j / s);
      Rejoin(j, s);
    }
  }

  /** All of the array is the bytes from 0 to the extent, in order: a copy takes no more and no less. */
  lemma ExtentIsWholeArray(t: Subarray)
    requires t.Valid()
    ensures Whole(t).Valid() && Extent(t) == DataSize(Whole(t)) == Whole(t).Elements() * t.elementExtent
    ensures forall j: nat :: j < Whole(t).Elements() ==> Whole(t).Element(t.Dims(), j) == j
  {
    var w := Whole(t);
    SameProduct(t, w, t.Dims());
    forall j: nat | j < w.Elements() ensures w.Element(t.Dims(), j) == j {
      WholeElement(w, t.Dims(), j);
    }
  }

  lemma {:induction false} SameProduct(t: Subarray, w: Subarray, k: nat)
    requires |t.sizes| == |w.sizes| && t.order == w.order && k <= t.Dims()
    ensures w.Product(t.sizes, k) == t.Product(t.sizes, k)
  {
    if 0 < k {
      SameProduct(t, w, k - 1);
    }
  }

  lemma RunElements(t: Subarray, r: nat, i: nat)
    requires t.Valid() && 0 < t.Dims() && r < NumRegions(t) && i < ContiguousCount(t)
    ensures r * ContiguousCount(t) + i < t.Elements()
    ensures (r + 1) * ContiguousCount(t) <= t.Elements()
  {
    TimesNext(r, ContiguousCount(t));
    TimesMonotone(r + 1, NumRegions(t), ContiguousCount(t));
  }

  lemma RunEnds(t: Subarray, r: nat)
    requires t.Valid() && r < NumRegions(t)
    ensures t.Element(t.Dims(), r * ContiguousCount(t)) + ContiguousCount(t) <= t.Product(t.sizes, t.Dims())
  {
    var c := ContiguousCount(t);
    RunElements(t, r, c - 1);
    ElementsAdjoin(t, r, c - 1);
    ElementsFit(t, t.Dims(), r * c + (c - 1));
  }

  lemma RunFits(t: Subarray, r: nat)
    requires t.Valid() && r < NumRegions(t)
    ensures Location(t, r) + ContiguousLength(t) <= Extent(t)
  {
    var c := ContiguousCount(t);
    RunEnds(t, r);
    Scale(t.Element(t.Dims(), r * c), c, t.Product(t.sizes, t.Dims()), t.elementExtent);
  }

  lemma Scale(a: nat, b: nat, c: nat, e: nat)
    requires a + b <= c
    ensures a * e + b * e <= c * e
  {
    Distribute(a, b, e);
    TimesMonotone(a + b, c, e);
  }

  lemma RunEndsBefore(t: Subarray, a: nat, b: nat)
    requires t.Valid() && a < b < NumRegions(t)
    ensures var c, d := ContiguousCount(t), t.Dims(); t.Element(d, a * c) + c <= t.Element(d, b * c)
  {
    var c := ContiguousCount(t);
    ElementsAdjoin(t, a, c - 1);
    RunElements(t, b, 0);
    TimesNext(a, c);
    TimesMonotone(a + 1, b, c);
    ElementsIncrease(t, t.Dims(), a * c + (c - 1), b * c);
  }

  lemma RunsApart(t: Subarray, a: nat, b: nat)
    requires t.Valid() && a < b < NumRegions(t)
    ensures Location(t, a) + ContiguousLength(t) <= Location(t, b)
  {
    var c, d := ContiguousCount(t), t.Dims();
    RunEndsBefore(t, a, b);
    Scale(t.Element(d, a * c), c, t.Element(d, b * c), t.elementExtent);
  }

  /** Each run ends before the next begins, and the last one inside the array; so the runs are
      disjoint and their locations strictly increase. */
  lemma RunsIncrease(t: Subarray, a: nat, b: nat)
    requires t.Valid() && a < NumRegions(t)
    ensures a < b < NumRegions(t) ==> Location(t, a) + ContiguousLength(t) <= Location(t, b)
    ensures Location(t, a) + ContiguousLength(t) <= Extent(t)
  {
    RunFits(t, a);
    if a < b < NumRegions(t) {
      RunsApart(t, a, b);
    }
  }

  /** Byte `n` of the data of one box, in order. */
  function DataByte(t: Subarray, n: nat): nat
    requires t.Valid()
  {
    t.Element(t.Dims(), n / t.elementExtent) * t.elementExtent + n % t.elementExtent
  }

  /** Byte `n` of the data of the array repeated without end. */
  function StreamByte(t: Subarray, n: nat): nat
    requires t.Valid() && 0 < DataSize(t)
  {
    TileByte(t, n / DataSize(t), n % DataSize(t))
  }

  /** Byte `n` of the data of copy number `tile` of the array. */
  function TileByte(t: Subarray, tile: nat, n: nat): nat
    requires t.Valid()
  {
    tile * Extent(t) + DataByte(t, n)
  }

  /** The data bytes of run `r` are `ContiguousLength` neighbouring bytes. */
  lemma RunBytes(t: Subarray, r: nat, o: nat)
    requires t.Valid() && r < NumRegions(t) && o < ContiguousLength(t)
    ensures DataByte(t, r * ContiguousLength(t) + o) == Location(t, r) + o
  {
    assert o == o / t.elementExtent * t.elementExtent + o % t.elementExtent;
    QuotientBound(o, ContiguousCount(t), t.elementExtent);
    RunByte(t, r, o / t.elementExtent, o % t.elementExtent, r * ContiguousLength(t) + o, o);
  }

  lemma RunByte(t: Subarray, r: nat, i: nat, b: nat, n: nat, o: nat)
    requires t.Valid() && 0 < t.Dims() && i < ContiguousCount(t) && b < t.elementExtent
    requires n == r * ContiguousLength(t) + o && o == i * t.elementExtent + b
    ensures DataByte(t, n) == Location(t, r) + o
  {
    var c := ContiguousCount(t);
    RunByteIndex(r, c, t.elementExtent, i, b, n);
    ElementsAdjoin(t, r, i);
    Shift(t.Element(t.Dims(), r * c), t.Element(t.Dims(), r * c + i), i, t.elementExtent, b, o);
  }

  lemma Shift(p: nat, q: nat, i: nat, e: nat, b: nat, o: nat)
    requires q == p + i && o == i * e + b
    ensures q * e + b == p * e + o
  {
    Distribute(p, i, e);
  }

  lemma RunByteIndex(r: nat, c: nat, e: nat, i: nat, b: nat, n: nat)
    requires b < e && n == r * (c * e) + (i * e + b)
    ensures n / e == r * c + i && n % e == b
  {
    Associate(r, c, e);
    Distribute(r * c, i, e);
    DivIs(n, e, r * c + i, b);
  }

  predicate InRun(t: Subarray, r: nat, x: nat)
    requires t.Valid()
  {
    r < NumRegions(t) && Location(t, r) <= x < Location(t, r) + ContiguousLength(t)
  }

  predicate InElement(t: Subarray, index: seq<nat>, x: nat)
    requires t.Valid()
  {
    t.InBox(index) && t.RowMajor(index) * t.elementExtent <= x < t.RowMajor(index) * t.elementExtent + t.elementExtent
  }

  /** A byte of a run belongs to an element of the box. */
  lemma RunByteHasIndex(t: Subarray, r: nat, x: nat) returns (index: seq<nat>)
    requires t.Valid() && 0 < t.Dims() && InRun(t, r, x)
    ensures InElement(t, index, x)
  {
    var c := ContiguousCount(t);
    var i := Slot(t.Element(t.Dims(), r * c), c, t.elementExtent, x);
    index := RunElementIndex(t, r, i);
  }

  lemma RunElementIndex(t: Subarray, r: nat, i: nat) returns (index: seq<nat>)
    requires t.Valid() && 0 < t.Dims() && i < ContiguousCount(t)
    ensures t.InBox(index) && t.RowMajor(index) == t.Element(t.Dims(), r * ContiguousCount(t)) + i
  {
    ElementsAdjoin(t, r, i);
    index := IndexOf(t, r * ContiguousCount(t) + i);
    ElementHasIndex(t, r * ContiguousCount(t) + i);
  }

  /** The element from `p` on, among `c` of length `e`, that a byte belongs to. */
  lemma Slot(p: nat, c: nat, e: nat, x: nat) returns (i: nat)
    requires 0 < e && p * e <= x < p * e + c * e
    ensures i < c && (p + i) * e <= x < (p + i) * e + e
  {
    var o := x - p * e;
    i := Quot(o, e);
    assert o == i * e + o % e;
    QuotientBound(o, c, e);
    Distribute(p, i, e);
  }

  lemma SlotFits(p: nat, i: nat, c: nat, e: nat, x: nat)
    requires i < c && (p + i) * e <= x < (p + i) * e + e
    ensures p * e <= x < p * e + c * e
  {
    Distribute(p, i, e);
    Scale(i, 1, c, e);
  }

  /** A byte of an element of the box belongs to a run. */
  lemma IndexedByteInRun(t: Subarray, index: seq<nat>, x: nat) returns (r: nat)
    requires t.Valid() && 0 < t.Dims() && InElement(t, index, x)
    ensures InRun(t, r, x)
  {
    var c := ContiguousCount(t);
    var j := Number(t, index, t.Dims());
    IndexHasElement(t, index);
    r := Quot(j, c);
    ElementInRun(t, r, j % c, j);
    SlotFits(t.Element(t.Dims(), r * c), j % c, c, t.elementExtent, x);
  }

  lemma ElementInRun(t: Subarray, r: nat, i: nat, j: nat)
    requires t.Valid() && 0 < t.Dims() && j < t.Elements()
    requires r == j / ContiguousCount(t) && i == j % ContiguousCount(t)
    ensures r < NumRegions(t)
    ensures t.Element(t.Dims(), j) == t.Element(t.Dims(), r * ContiguousCount(t)) + i
  {
    assert j == r * ContiguousCount(t) + i;
    QuotientBound(j, NumRegions(t), ContiguousCount(t));
    ElementsAdjoin(t, r, i);
  }

  /** The runs together are exactly the bytes of the elements of the subarray. */
  lemma RunsAreTheBox(t: Subarray, x: nat)
    requires t.Valid() && 0 < t.Dims()
    ensures (exists r :: InRun(t, r, x)) <==> (exists index :: InElement(t, index, x))
  {
    if r :| InRun(t, r, x) {
      var index := RunByteHasIndex(t, r, x);
    }
    if index :| InElement(t, index, x) {
      var r := IndexedByteInRun(t, index, x);
    }
  }

  lemma DataBytesIncrease(t: Subarray, a: nat, b: nat)
    requires t.Valid() && a < b < DataSize(t)
    ensures DataByte(t, a) < DataByte(t, b)
  {
    var e := t.elementExtent;
    QuotientMonotone(a, b, e);
    QuotientBound(b, t.Elements(), e);
    if a / e < b / e {
      ElementsIncrease(t, t.Dims(), a / e, b / e);
      TimesNext(t.Element(t.Dims(), a / e), e);
      TimesMonotone(t.Element(t.Dims(), a / e) + 1, t.Element(t.Dims(), b / e), e);
    }
  }

  // ----- The two orders -----

  function Reversed(v: seq<nat>): (r: seq<nat>)
    ensures |r| == |v| && forall i :: 0 <= i < |v| ==> r[i] == v[|v| - 1 - i]
  {
    seq(|v|, i requires 0 <= i < |v| => v[|v| - 1 - i])
  }

  function Mirror(t: Subarray): Subarray {
    Subarray(Reversed(t.sizes), Reversed(t.subSizes), Reversed(t.starts), COrder, t.elementExtent)
  }

  lemma MirrorFields(t: Subarray, k: nat)
    requires t.Valid() && t.order != COrder && k < t.Dims()
    ensures var r := Mirror(t);
            r.Valid() && r.Dims() == t.Dims()
            && r.Size(k) == t.Size(k) && r.Sub(k) == t.Sub(k) && r.Begin(k) == t.Begin(k)
  {
  }

  /** The Fortran order of an array is the C order of the array with its dimensions reversed. */
  lemma {:induction false} FortranIsReversedC(t: Subarray, k: nat, j: nat)
    requires t.Valid() && t.order != COrder && k <= t.Dims()
    ensures Mirror(t).Valid() && Mirror(t).Element(k, j) == t.Element(k, j)
  {
    if 0 < k {
      MirrorFields(t, k - 1);
      FortranIsReversedC(t, k - 1, j / t.Sub(k - 1));
    }
  }

  lemma {:induction false} MirrorProduct(t: Subarray, k: nat)
    requires t.Valid() && t.order != COrder && k <= t.Dims()
    ensures Mirror(t).Product(Mirror(t).sizes, k) == t.Product(t.sizes, k)
    ensures Mirror(t).Product(Mirror(t).subSizes, k) == t.Product(t.subSizes, k)
  {
    if 0 < k {
      MirrorFields(t, k - 1);
      MirrorProduct(t, k - 1);
    }
  }

  /** The runs of both are the same too. */
  lemma FortranRunsAsReversedC(t: Subarray, r: nat)
    requires t.Valid() && t.order != COrder && 0 < t.Dims()
    ensures Mirror(t).Valid() && Mirror(t).Dims() == t.Dims()
    ensures NumRegions(Mirror(t)) == NumRegions(t) && ContiguousLength(Mirror(t)) == ContiguousLength(t)
    ensures DataSize(Mirror(t)) == DataSize(t) && Extent(Mirror(t)) == Extent(t)
    ensures Location(Mirror(t), r) == Location(t, r)
  {
    MirrorFields(t, t.Dims() - 1);
    MirrorProduct(t, t.Dims());
    MirrorProduct(t, t.Dims() - 1);
    FortranIsReversedC(t, t.Dims(), r * ContiguousCount(t));
  }

  lemma DataByteMirror(t: Subarray, n: nat)
    requires t.Valid() && t.order != COrder && 0 < t.Dims()
    ensures Mirror(t).Valid() && DataByte(Mirror(t), n) == DataByte(t, n)
  {
    FortranIsReversedC(t, t.Dims(), n / t.elementExtent);
  }
}
