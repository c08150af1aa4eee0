/** Round-robin striping of a file over servers: server `k` of `n` holds every n-th strip, packed
    one after another in its own physical file. */
module Striping {
  import opened Arithmetic

  /** The remainder as the machine computes it: it has the sign of the dividend. */
  function TruncatedMod(a: int, b: int): int
    requires 0 < b
  {
    if 0 <= a then a % b else -(-a % b)
  }

  datatype StripeDistribution = StripeDistribution(objectIdx: nat, numObjects: nat, stripSize: nat) {

    predicate Valid() {
      objectIdx < numObjects && 0 < stripSize
    }

    function StripeSize(): (w: nat) {
      stripSize * numObjects
    }

    function StripBegin(): (b: nat) {
      objectIdx * stripSize
    }

    function LogicalToPhysicalOffset(logical: nat): nat
      requires Valid()
    {
      StripeBounds(this);
      // After the complete stripes, add what lies in this server's strip of the last one.
      WholeStrips(logical / StripeSize()) + OffsetInStrip(logical % StripeSize())
    }

    function WholeStrips(stripes: nat): nat {
      stripes * stripSize
    }

    function OffsetInStrip(leftOver: nat): nat {
      if leftOver < StripBegin() then 0
      else if leftOver < StripBegin() + stripSize then leftOver - StripBegin()
      else stripSize
    }

    function NextMappedLogicalOffset(logical: nat): int
      requires Valid()
    {
      StripeBounds(this);
      var diff := TruncatedMod(logical - StripBegin(), StripeSize());
      if diff < 0 then StripBegin()
      else if stripSize <= diff then logical + (StripeSize() - diff)
      else logical
    }

    function PhysicalToLogicalOffset(physical: nat): nat
      requires Valid()
    {
      StripeBounds(this);
      WholeStripes(physical / stripSize) + StripBegin() + physical % stripSize
    }

    function WholeStripes(stripes: nat): nat {
      stripes * StripeSize()
    }

    function ContiguousLength(physical: nat): nat
      requires Valid()
    {
      stripSize - physical % stripSize
    }

    /** Strips are dealt to the servers in turn. */
    predicate Owns(logical: nat)
      requires Valid()
    {
      logical / stripSize % numObjects == objectIdx
    }

    /** The number of bytes below `logical` that this server holds. */
    function Rank(logical: nat): nat
      requires Valid()
    {
      if logical == 0 then 0 else Rank(logical - 1) + if Owns(logical - 1) then 1 else 0
    }
  }

  lemma StripeBounds(d: StripeDistribution)
    requires d.Valid()
    ensures 0 < d.StripeSize()
    ensures 0 <= d.StripBegin() && d.StripBegin() + d.stripSize <= d.StripeSize()
    ensures d.StripBegin() + d.stripSize == d.StripeSize() <==> d.objectIdx + 1 == d.numObjects
  {
    var k, n, s := d.objectIdx, d.numObjects, d.stripSize;
    assert (k + 1) * s == k * s + s && (k + 2) * s == k * s + s + s;
    TimesMonotone(0, k, s);
    TimesMonotone(k + 1, n, s);
    if k + 1 < n {
      TimesMonotone(k + 2, n, s);
    }
  }

  /** The strip of a byte and its place in the strip, within a stripe of `n` strips. */
  lemma StripInStripe(logical: nat, n: nat, s: nat, w: nat)
    requires 0 < n && 0 < s && 0 < w && w == s * n
    ensures var left := logical % w;
            left == left / s * s + left % s && logical / s % n == left / s
  {
    var q, left := logical / w, logical % w;
    assert logical == q * w + left && left == left / s * s + left % s;
    QuotientBound(left, n, s);
    Exchange(q, s, n);
    Distribute(q * n, left / s, s);
    DivIs(logical, s, q * n + left / s, left % s);
    DivIs(q * n + left / s, n, q, left / s);
  }

  /** A server holds the bytes of a stripe that lie in its strip. */
  lemma OwnsInStripe(d: StripeDistribution, logical: nat)
    requires d.Valid() && 0 < d.StripeSize()
    ensures d.Owns(logical) <==> d.StripBegin() <= logical % d.StripeSize() < d.StripBegin() + d.stripSize
  {
    var left := logical % d.StripeSize();
    StripInStripe(logical, d.numObjects, d.stripSize, d.StripeSize());
    Encloses(left / d.stripSize, d.stripSize, left % d.stripSize, d.objectIdx);
  }

  // ----- Rank: the physical offset counts the owned bytes below -----

  lemma PhysicalStep(d: StripeDistribution, logical: nat)
    requires d.Valid()
    ensures d.LogicalToPhysicalOffset(logical + 1) ==
            d.LogicalToPhysicalOffset(logical) + if d.Owns(logical) then 1 else 0
  {
    StripeBounds(d);
    OwnsInStripe(d, logical);
    QuotientStep(logical, d.StripeSize());
    TimesNext(logical / d.StripeSize(), d.stripSize);
  }

  lemma {:induction false} PhysicalIsRank(d: StripeDistribution, logical: nat)
    requires d.Valid()
    ensures d.LogicalToPhysicalOffset(logical) == d.Rank(logical)
  {
    StripeBounds(d);
    if logical == 0 {
      DivIs(0, d.StripeSize(), 0, 0);
    } else {
      PhysicalIsRank(d, logical - 1);
      PhysicalStep(d, logical - 1);
    }
  }

  lemma {:induction false} RankMonotone(d: StripeDistribution, a: nat, b: nat)
    requires d.Valid() && a <= b
    ensures d.LogicalToPhysicalOffset(a) <= d.LogicalToPhysicalOffset(b) <= d.LogicalToPhysicalOffset(a) + (b - a)
    ensures (forall l :: a <= l < b ==> !d.Owns(l)) ==> d.LogicalToPhysicalOffset(a) == d.LogicalToPhysicalOffset(b)
    decreases b - a
  {
    if a < b {
      PhysicalStep(d, a);
      RankMonotone(d, a + 1, b);
    }
  }

  /** The bytes of servers `k`, ..., `n - 1` below `logical`. */
  function RankSum(k: nat, n: nat, stripSize: nat, logical: nat): nat
    requires k <= n && 0 < stripSize
    decreases n - k
  {
    if k == n then 0
    else StripeDistribution(k, n, stripSize).LogicalToPhysicalOffset(logical) + RankSum(k + 1, n, stripSize, logical)
  }

  lemma {:induction false} RankSumStep(k: nat, n: nat, stripSize: nat, logical: nat)
    requires k <= n && 0 < n && 0 < stripSize
    ensures RankSum(k, n, stripSize, logical + 1) ==
            RankSum(k, n, stripSize, logical) + if k <= logical / stripSize % n then 1 else 0
    decreases n - k
  {
    if k < n {
      PhysicalStep(StripeDistribution(k, n, stripSize), logical);
      RankSumStep(k + 1, n, stripSize, logical);
    }
  }

  lemma {:induction false} RankSumZero(k: nat, n: nat, stripSize: nat)
    requires k <= n && 0 < stripSize
    ensures RankSum(k, n, stripSize, 0) == 0
    decreases n - k
  {
    if k < n {
      PhysicalIsRank(StripeDistribution(k, n, stripSize), 0);
      RankSumZero(k + 1, n, stripSize);
    }
  }

  /** No byte is lost or stored twice: the servers together hold exactly the bytes below `logical`. */
  lemma {:induction false} RanksPartition(n: nat, stripSize: nat, logical: nat)
    requires 0 < n && 0 < stripSize
    ensures RankSum(0, n, stripSize, logical) == logical
  {
    if logical == 0 {
      RankSumZero(0, n, stripSize);
    } else {
      RanksPartition(n, stripSize, logical - 1);
      RankSumStep(0, n, stripSize, logical - 1);
    }
  }

  // ----- Select: the logical offset of a physical byte -----

  /** Going to the file and back loses nothing, and ends on a byte of this server. */
  lemma RankOfSelect(d: StripeDistribution, physical: nat)
    requires d.Valid()
    ensures d.LogicalToPhysicalOffset(d.PhysicalToLogicalOffset(physical)) == physical
    ensures d.Owns(d.PhysicalToLogicalOffset(physical))
  {
    StripeBounds(d);
    var q, r := physical / d.stripSize, physical % d.stripSize;
    var logical := d.PhysicalToLogicalOffset(physical);
    DivIs(logical, d.StripeSize(), q, d.StripBegin() + r);
    OwnsInStripe(d, logical);
  }

  /** A Galois connection: the physical offset of `l` is at most `p` exactly when `l` is at most the
      logical offset of `p`. */
  lemma RankSelectGalois(d: StripeDistribution, l: nat, p: nat)
    requires d.Valid()
    ensures d.LogicalToPhysicalOffset(l) <= p <==> l <= d.PhysicalToLogicalOffset(p)
  {
    var m := d.PhysicalToLogicalOffset(p);
    RankOfSelect(d, p);
    if l <= m {
      RankMonotone(d, l, m);
    } else {
      PhysicalStep(d, m);
      RankMonotone(d, m + 1, l);
    }
  }

  lemma OwnsAfterBegin(d: StripeDistribution, logical: nat)
    requires d.Valid() && 0 < d.StripeSize()
    ensures logical < d.StripBegin() ==> !d.Owns(logical)
    ensures d.StripBegin() <= logical ==>
              (d.Owns(logical) <==> (logical - d.StripBegin()) % d.StripeSize() < d.stripSize)
  {
    StripeBounds(d);
    OwnsInStripe(d, logical);
    var w, b := d.StripeSize(), d.StripBegin();
    var q, left := logical / w, logical % w;
    assert logical == q * w + left;
    if logical < b {
      DivIs(logical, w, 0, logical);
    } else if b <= left {
      DivIs(logical - b, w, q, left - b);
    } else {
      assert logical - b == (q - 1) * w + (w + left - b);
      DivIs(logical - b, w, q - 1, w + left - b);
    }
  }

  /** The next mapped offset is the least byte of this server that is not before `logical`. */
  lemma NextMappedIsLeast(d: StripeDistribution, logical: nat)
    requires d.Valid()
    ensures var next := d.NextMappedLogicalOffset(logical);
            logical <= next && d.Owns(next) && forall l :: logical <= l < next ==> !d.Owns(l)
  {
    StripeBounds(d);
    var w, b := d.StripeSize(), d.StripBegin();
    if logical < b {
      SmallQuotient(b - logical, w);
      SmallQuotient(0, w);
      OwnsAfterBegin(d, b);
      forall l | logical <= l < b ensures !d.Owns(l) {
        OwnsAfterBegin(d, l);
      }
    } else {
      OwnsAfterBegin(d, logical);
      if d.stripSize <= (logical - b) % w {
        NextStripIsLeast(d, logical);
      }
    }
  }

  lemma NextStripIsLeast(d: StripeDistribution, logical: nat)
    requires d.Valid() && 0 < d.StripeSize() && d.StripBegin() <= logical
    requires d.stripSize <= (logical - d.StripBegin()) % d.StripeSize()
    ensures var next := logical + (d.StripeSize() - (logical - d.StripBegin()) % d.StripeSize());
            logical <= next && d.Owns(next) && forall l :: logical <= l < next ==> !d.Owns(l)
  {
    var w, b := d.StripeSize(), d.StripBegin();
    var e, diff := (logical - b) / w, (logical - b) % w;
    var next := logical + (w - diff);
    TimesNext(e, w);
    DivIs(next - b, w, e + 1, 0);
    OwnsAfterBegin(d, next);
    forall l | logical <= l < next ensures !d.Owns(l) {
      DivIs(l - b, w, e, diff + (l - logical));
      OwnsAfterBegin(d, l);
    }
  }

  lemma OwnedByRank(d: StripeDistribution, a: nat, b: nat)
    requires d.Valid() && d.Owns(a) && d.Owns(b)
    requires d.LogicalToPhysicalOffset(a) == d.LogicalToPhysicalOffset(b)
    ensures a == b
  {
    PhysicalStep(d, a);
    PhysicalStep(d, b);
    if a < b {
      RankMonotone(d, a + 1, b);
    } else if b < a {
      RankMonotone(d, b + 1, a);
    }
  }

  /** Going to the physical file and back ends on the next byte of this server. */
  lemma SelectOfRank(d: StripeDistribution, logical: nat)
    requires d.Valid()
    ensures d.PhysicalToLogicalOffset(d.LogicalToPhysicalOffset(logical)) == d.NextMappedLogicalOffset(logical)
    ensures d.LogicalToPhysicalOffset(logical) == d.LogicalToPhysicalOffset(d.NextMappedLogicalOffset(logical))
  {
    var next := d.NextMappedLogicalOffset(logical);
    NextMappedIsLeast(d, logical);
    RankMonotone(d, logical, next);
    RankOfSelect(d, d.LogicalToPhysicalOffset(logical));
    OwnedByRank(d, next, d.PhysicalToLogicalOffset(d.LogicalToPhysicalOffset(logical)));
  }

  /** The contiguous length is how far both offsets advance together: to the end of the strip, where
      the next physical byte is the other servers' strips further on. */
  lemma ContiguousLengthIsMaximal(d: StripeDistribution, physical: nat)
    requires d.Valid()
    ensures var len, l := d.ContiguousLength(physical), d.PhysicalToLogicalOffset(physical);
            && 0 < len <= d.stripSize && (physical + len) % d.stripSize == 0
            && (forall p: nat :: physical <= p < physical + len ==> d.PhysicalToLogicalOffset(p) == l + (p - physical))
            && d.PhysicalToLogicalOffset(physical + len) == l + len + (d.StripeSize() - d.stripSize)
  {
    StripeBounds(d);
    var s := d.stripSize;
    var q, r := physical / s, physical % s;
    var len, l := d.ContiguousLength(physical), d.PhysicalToLogicalOffset(physical);
    forall p: nat | physical <= p < physical + len ensures d.PhysicalToLogicalOffset(p) == l + (p - physical) {
      DivIs(p, s, q, r + (p - physical));
    }
    assert physical + len == (q + 1) * s + 0;
    DivIs(physical + len, s, q + 1, 0);
    TimesNext(q, d.StripeSize());
  }
}
