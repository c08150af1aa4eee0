/** The write-back buffer cache: blocks kept in an LRU cache between the file system and the device.
    The entry of a block holds the version of its contents, counted in writes. */
module BufferCaches {
  import opened Options
  import opened Sequences
  import opened LRUCaches

  datatype Request = Request(lba: nat, id: nat)

  datatype DeviceRequest =
    | ReadBlock(lba: nat)
    | WriteBlock(lba: nat, version: nat, through: Option<nat>) // a write-through has the id of its request

  datatype Buffer = Buffer(cache: Cache<nat, nat>, pending: seq<Request>)

  /** A new state with the messages sent to the device, the dirty victim first, and the requests answered. */
  datatype Outcome = Outcome(buffer: Buffer, evicted: Option<DeviceRequest>, request: Option<DeviceRequest>,
                             readers: seq<Request>, writer: Option<nat>)

  /** The requests of a multimap that have key `lba`, and the others. */
  function PendingFor(s: seq<Request>, lba: nat): seq<Request> {
    if s == [] then []
    else
      var n := |s| - 1;
      if s[n].lba == lba then PendingFor(s[..n], lba) + [s[n]] else PendingFor(s[..n], lba)
  }

  function PendingOthers(s: seq<Request>, lba: nat): seq<Request> {
    if s == [] then []
    else
      var n := |s| - 1;
      if s[n].lba == lba then PendingOthers(s[..n], lba) else PendingOthers(s[..n], lba) + [s[n]]
  }

  predicate IsPending(s: seq<Request>, lba: nat) {
    exists r :: r in s && r.lba == lba
  }

  /** What `EvictCacheEntry` sends: the victim's contents when it is dirty. */
  function WriteBack(cache: Cache<nat, nat>, lba: nat): Option<DeviceRequest> {
    if cache.Evicts(lba) && cache.Victim() in cache.entries && cache.entries[cache.Victim()].isDirty then
      Some(WriteBlock(cache.Victim(), cache.entries[cache.Victim()].data, None))
    else None
  }

  function ReadRequest(b: Buffer, r: Request): Outcome {
    if r.lba in b.cache.entries then Outcome(b.(cache := b.cache.Touch(r.lba)), None, None, [r], None)
    else
      var request := if IsPending(b.pending, r.lba) then None else Some(ReadBlock(r.lba));
      Outcome(b.(pending := b.pending + [r]), None, request, [], None)
  }

  /** `through` is the request's own flag, or set because too much of the cache is dirty. */
  function WriteRequest(b: Buffer, r: Request, version: nat, through: bool): Outcome {
    Outcome(b.(cache := b.cache.Insert(r.lba, version, !through)), WriteBack(b.cache, r.lba),
            if through then Some(WriteBlock(r.lba, version, Some(r.id))) else None, [],
            if through then None else Some(r.id))
  }

  function ReadResponse(b: Buffer, lba: nat, version: nat): Outcome {
    var cached := lba in b.cache.entries;
    var cache := if cached then b.cache.Touch(lba) else b.cache.Insert(lba, version, false);
    Outcome(Buffer(cache, PendingOthers(b.pending, lba)), if cached then None else WriteBack(b.cache, lba), None,
            PendingFor(b.pending, lba), None)
  }

  function WriteResponse(b: Buffer, through: Option<nat>): Outcome {
    Outcome(b, None, None, [], through)
  }

  /** Touching a key that is inserted next changes nothing. */
  lemma TouchThenInsert(cache: Cache<nat, nat>, lba: nat, version: nat, dirty: bool)
    requires cache.Consistent() && lba in cache.entries
    ensures cache.Touch(lba).Insert(lba, version, dirty) == cache.Insert(lba, version, dirty)
  {
    EraseKeys(cache.list, lba);
    EraseAbsent(Erase(cache.list, lba), lba);
    assert Erase([lba] + Erase(cache.list, lba), lba) == Erase(cache.list, lba);
  }

  // ----- The dirty counter of the block cache -----

  /** The cache and its counter of dirty entries. */
  datatype Counted = Counted(cache: Cache<nat, nat>, counter: int) {
    predicate InBounds() {
      LRUCaches.InBounds(cache, counter)
    }

    function Drift(): int {
      counter - DirtyCount(cache.entries)
    }

    /** More of the capacity counts as dirty than the threshold allows. */
    predicate Over(threshold: real) {
      0 < cache.capacity && threshold < counter as real / cache.capacity as real
    }

    function Do(u: Use<nat, nat>): Counted {
      Counted(Perform(cache, u), counter + Counts(cache, u))
    }
  }

  /** A read request, a write request with its own flag, and a block read from the device. */
  datatype BlockUse =
    | Asked(lba: nat)
    | Written(lba: nat, version: nat, writeThrough: bool)
    | Arrived(lba: nat, version: nat)

  /** A write fails, and does nothing, when the counter is out of bounds. */
  function Serve(s: Counted, threshold: real, u: BlockUse): Counted {
    match u
    case Asked(lba) => s.Do(Use.Lookup(lba))
    case Written(lba, version, writeThrough) =>
      if s.InBounds() then s.Do(Use.Insert(lba, version, !(writeThrough || s.Over(threshold)))) else s
    case Arrived(lba, version) =>
      s.Do(if lba in s.cache.entries then Use.Lookup(lba) else Use.Insert(lba, version, false))
  }

  function Empty(capacity: nat): Counted {
    Counted(Cache(capacity, map[], []), 0)
  }

  function ServeAll(s: Counted, threshold: real, uses: seq<BlockUse>): Counted {
    if uses == [] then s
    else
      var n := |uses| - 1;
      Serve(ServeAll(s, threshold, uses[..n]), threshold, uses[n])
  }

  lemma EmptyIsExact(capacity: nat)
    ensures Empty(capacity).Drift() == 0
  {
    assert DirtyKeys<nat, nat>(map[]) == {};
  }

  lemma InsertCounts(c: Cache<nat, nat>, lba: nat, version: nat, dirty: bool)
    requires c.Consistent()
    ensures var d := c.Insert(lba, version, dirty);
            && d.Consistent() && d.capacity == c.capacity
            && |d.list| == if lba in c.entries || c.Evicts(lba) then |c.list| else |c.list| + 1
  {
    InsertKeeps(c, lba, version, dirty);
    if c.Evicts(lba) {
      RemoveKeeps(c, c.Victim());
    }
    EraseKeys(c.MakeRoom(lba).list, lba);
    MakeRoomKeeps(c, lba);
  }

  lemma LookupCounts(c: Cache<nat, nat>, lba: nat)
    requires c.Consistent()
    ensures var d := Perform(c, Use.Lookup(lba));
            d.Consistent() && d.capacity == c.capacity && d.entries == c.entries && |d.list| == |c.list|
  {
    if lba in c.entries {
      TouchKeeps(c, lba);
    }
  }

  lemma ShareMonotone(a: int, b: int, capacity: nat)
    requires 0 < capacity && a <= b
    ensures a as real / capacity as real <= b as real / capacity as real
  {
    var c := capacity as real;
    TimesReal(b as real / c, a as real / c, c);
  }

  lemma TimesReal(x: real, y: real, c: real)
    requires 0.0 < c
    ensures x * c < y * c <==> x < y
  {
  }

  lemma BelowCapacity(counter: int, capacity: nat, threshold: real)
    requires 0 < capacity
    ensures counter as real / capacity as real <= threshold < 1.0 ==> counter < capacity
    ensures counter <= capacity && threshold < counter as real / capacity as real ==> threshold < 1.0
  {
    WholeShare(capacity as real);
    if capacity <= counter {
      ShareMonotone(capacity, counter, capacity);
    }
    if counter <= capacity {
      ShareMonotone(counter, capacity, capacity);
    }
  }

  lemma WholeShare(c: real)
    requires 0.0 < c
    ensures c / c == 1.0
  {
  }

  /** The counter runs ahead only once the threshold has been passed, and comes back below the
      threshold only when the cache is full. */
  ghost predicate Tame(s: Counted, threshold: real) {
    && s.cache.Consistent() && 0 <= s.Drift() && s.counter <= |s.cache.list|
    && (s.Drift() == 0 || (threshold < 1.0 && (|s.cache.list| == s.cache.capacity || s.Over(threshold))))
  }

  lemma TameIsInBounds(s: Counted, threshold: real)
    requires Tame(s, threshold)
    ensures s.InBounds()
  {
  }

  lemma InsertIsTame(s: Counted, threshold: real, lba: nat, version: nat, dirty: bool)
    requires Tame(s, threshold)
    requires lba !in s.cache.entries || dirty || s.Over(threshold)
    requires dirty ==> !s.Over(threshold)
    ensures Tame(s.Do(Use.Insert(lba, version, dirty)), threshold)
  {
    var u := Use.Insert(lba, version, dirty);
    var next := s.Do(u);
    UseSlips(s.cache, u);
    InsertCounts(s.cache, lba, version, dirty);
    DirtyAreEntries(next.cache);
    BelowCapacity(s.counter, s.cache.capacity, threshold);
    assert next.Drift() == s.Drift() + Slip(s.cache, u);
  }

  lemma ServeIsTame(s: Counted, threshold: real, u: BlockUse)
    requires Tame(s, threshold) && (u.Written? ==> !u.writeThrough)
    ensures Tame(Serve(s, threshold, u), threshold)
  {
    match u
    case Asked(lba) => LookupCounts(s.cache, lba);
    case Written(lba, version, _) => InsertIsTame(s, threshold, lba, version, !s.Over(threshold));
    case Arrived(lba, version) =>
      if lba in s.cache.entries {
        LookupCounts(s.cache, lba);
      } else {
        InsertIsTame(s, threshold, lba, version, false);
      }
  }

  lemma {:induction false} ServeAllIsTame(s: Counted, threshold: real, uses: seq<BlockUse>)
    requires Tame(s, threshold) && forall u :: u in uses && u.Written? ==> !u.writeThrough
    ensures Tame(ServeAll(s, threshold, uses), threshold)
  {
    if uses != [] {
      var n := |uses| - 1;
      ServeAllIsTame(s, threshold, uses[..n]);
      assert uses[n] in uses;
      ServeIsTame(ServeAll(s, threshold, uses[..n]), threshold, uses[n]);
    }
  }

  /** Although the counter drifts: with any threshold, a write never fails as long as no request asks to
      be written through. */
  lemma UnflaggedWritesNeverFail(capacity: nat, threshold: real, uses: seq<BlockUse>)
    requires 0 < capacity && forall u :: u in uses && u.Written? ==> !u.writeThrough
    ensures ServeAll(Empty(capacity), threshold, uses).InBounds()
  {
    EmptyIsExact(capacity);
    ServeAllIsTame(Empty(capacity), threshold, uses);
  }

  /** The counter never passes one when the threshold does not let in a second dirty block. */
  ghost predicate AtMostOne(s: Counted) {
    s.cache.Consistent() && 0 <= s.Drift() && s.counter <= 1 && s.counter <= |s.cache.list|
  }

  lemma AtMostOneInsert(s: Counted, lba: nat, version: nat, dirty: bool)
    requires AtMostOne(s) && (dirty ==> s.counter <= 0)
    ensures AtMostOne(s.Do(Use.Insert(lba, version, dirty)))
  {
    var u := Use.Insert(lba, version, dirty);
    UseSlips(s.cache, u);
    InsertCounts(s.cache, lba, version, dirty);
    DirtyAreEntries(s.cache);
  }

  lemma ShareOfOne(counter: int, capacity: nat, threshold: real)
    requires 0 < capacity && threshold < 1.0 / capacity as real && counter as real / capacity as real <= threshold
    ensures counter < 1
  {
    TimesReal(counter as real / capacity as real, 1.0 / capacity as real, capacity as real);
  }

  lemma {:induction false} ServeAllAtMostOne(capacity: nat, threshold: real, uses: seq<BlockUse>)
    requires 0 < capacity && threshold < 1.0 / capacity as real
    ensures var s := ServeAll(Empty(capacity), threshold, uses); AtMostOne(s) && s.cache.capacity == capacity
  {
    if uses == [] {
      EmptyIsExact(capacity);
    } else {
      var n := |uses| - 1;
      ServeAllAtMostOne(capacity, threshold, uses[..n]);
      ServeAtMostOne(ServeAll(Empty(capacity), threshold, uses[..n]), threshold, uses[n]);
    }
  }

  lemma ServeAtMostOne(s: Counted, threshold: real, u: BlockUse)
    requires AtMostOne(s) && threshold < 1.0 / s.cache.capacity as real
    ensures AtMostOne(Serve(s, threshold, u)) && Serve(s, threshold, u).cache.capacity == s.cache.capacity
  {
    match u
    case Asked(lba) => LookupCounts(s.cache, lba);
    case Written(lba, version, writeThrough) =>
      var through := writeThrough || s.Over(threshold);
      if !through {
        ShareOfOne(s.counter, s.cache.capacity, threshold);
      }
      AtMostOneInsert(s, lba, version, !through);
      InsertCounts(s.cache, lba, version, !through);
    case Arrived(lba, version) =>
      if lba in s.cache.entries {
        LookupCounts(s.cache, lba);
      } else {
        AtMostOneInsert(s, lba, version, false);
        InsertCounts(s.cache, lba, version, false);
      }
  }

  /** A block is written back, written through, and written back again. */
  function FailingWrites(): seq<BlockUse> {
    [Written(0, 1, false), Written(0, 2, true), Written(0, 3, false)]
  }

  lemma FlaggedWriteOverruns(capacity: nat, threshold: real)
    requires 0 < capacity && 1.0 / capacity as real <= threshold
    ensures !ServeAll(Empty(capacity), threshold, FailingWrites()).InBounds()
  {
    var uses := FailingWrites();
    var s0 := Empty(capacity);
    assert 0.0 < 1.0 / capacity as real;
    assert 0 as real / capacity as real == 0.0;
    var s1 := Serve(s0, threshold, uses[0]);
    assert s1 == Counted(Cache(capacity, map[0 := Entry(1, true)], [0]), 1);
    var s2 := Serve(s1, threshold, uses[1]);
    assert s2 == Counted(Cache(capacity, map[0 := Entry(2, false)], [0]), 1);
    var s3 := Serve(s2, threshold, uses[2]);
    assert s3 == Counted(Cache(capacity, map[0 := Entry(3, true)], [0]), 2);
    assert uses[..2][..1][..0] == [] && ServeAll(s0, threshold, uses[..2][..1]) == s1;
    assert ServeAll(s0, threshold, uses[..2]) == s2;
  }

  /** Some requests make a write fail exactly when the threshold lets in a second dirty block. */
  lemma WritesCanFailExactly(capacity: nat, threshold: real)
    requires 0 < capacity
    ensures (exists uses :: !ServeAll(Empty(capacity), threshold, uses).InBounds())
            <==> 1.0 / capacity as real <= threshold
  {
    if 1.0 / capacity as real <= threshold {
      FlaggedWriteOverruns(capacity, threshold);
    } else {
      forall uses ensures ServeAll(Empty(capacity), threshold, uses).InBounds() {
        ServeAllAtMostOne(capacity, threshold, uses);
        DirtyAreEntries(ServeAll(Empty(capacity), threshold, uses).cache);
      }
    }
  }

  // ----- The order of the block cache, and of the requests waiting -----

  /** Whether serving a request moves its block to the front: a read that hits, a write that does not
      fail, and a block that arrives. */
  predicate Refreshes(s: Counted, u: BlockUse) {
    match u
    case Asked(lba) => lba in s.cache.entries
    case Written(_, _, _) => s.InBounds()
    case Arrived(_, _) => true
  }

  function BlocksUsed(s: Counted, threshold: real, uses: seq<BlockUse>): seq<nat> {
    if uses == [] then []
    else
      var n := |uses| - 1;
      BlocksUsed(s, threshold, uses[..n])
      + if Refreshes(ServeAll(s, threshold, uses[..n]), uses[n]) then [uses[n].lba] else []
  }

  lemma ServeIsRecency(s: Counted, threshold: real, trace: seq<nat>, u: BlockUse)
    requires s.cache.Consistent() && s.cache.list == Take(Recency(trace), s.cache.capacity)
    ensures var next := Serve(s, threshold, u);
            && next.cache.Consistent() && next.cache.capacity == s.cache.capacity
            && next.cache.list == Take(Recency(trace + if Refreshes(s, u) then [u.lba] else []), s.cache.capacity)
  {
    assert trace + [] == trace;
    match u
    case Asked(lba) => PerformIsRecency(s.cache, trace, Use.Lookup(lba));
    case Written(lba, version, writeThrough) =>
      PerformIsRecency(s.cache, trace, Use.Insert(lba, version, !(writeThrough || s.Over(threshold))));
    case Arrived(lba, version) =>
      PerformIsRecency(s.cache, trace,
                       if lba in s.cache.entries then Use.Lookup(lba) else Use.Insert(lba, version, false));
  }

  /** The blocks in the cache are those used last, in the order of their use. */
  lemma {:induction false} HoldsBlocksUsedLast(capacity: nat, threshold: real, uses: seq<BlockUse>)
    requires 0 < capacity
    ensures var s := ServeAll(Empty(capacity), threshold, uses);
            && s.cache.Consistent() && s.cache.capacity == capacity
            && s.cache.list == Take(Recency(BlocksUsed(Empty(capacity), threshold, uses)), capacity)
  {
    if uses != [] {
      var n := |uses| - 1;
      HoldsBlocksUsedLast(capacity, threshold, uses[..n]);
      ServeIsRecency(ServeAll(Empty(capacity), threshold, uses[..n]), threshold,
                     BlocksUsed(Empty(capacity), threshold, uses[..n]), uses[n]);
    }
  }

  /** The requests for a block are those that name it, in the order in which they came, and the others too. */
  lemma {:induction false} PendingInOrder(s: seq<Request>, t: seq<Request>, lba: nat)
    ensures PendingFor(s + t, lba) == PendingFor(s, lba) + PendingFor(t, lba)
    ensures PendingOthers(s + t, lba) == PendingOthers(s, lba) + PendingOthers(t, lba)
  {
    if t == [] {
      assert s + t == s;
    } else {
      var n := |t| - 1;
      PendingInOrder(s, t[..n], lba);
      assert (s + t)[..|s| + n] == s + t[..n];
    }
  }

  lemma PendingOne(r: Request, lba: nat)
    ensures PendingFor([r], lba) == if r.lba == lba then [r] else []
    ensures PendingOthers([r], lba) == if r.lba == lba then [] else [r]
  {
    assert [r][..0] == [];
  }

  class LRUBufferCache {
    const cache: LRUCache<nat, nat>
    const dirtyThreshold: real
    var pendingRequests: seq<Request>

    ghost predicate Valid()
      reads this, cache
    {
      cache.Valid()
    }

    function State(): Buffer
      reads this, cache
    {
      Buffer(cache.State(), pendingRequests)
    }

    function Books(): Counted
      reads this, cache
    {
      Counted(cache.State(), cache.numDirtyEntries)
    }

    predicate OverThreshold()
      reads this, cache
      requires Valid()
    {
      Books().Over(dirtyThreshold)
    }

    constructor (numEntries: nat, dirtyThreshold: real)
      requires 0 < numEntries
      ensures Valid() && fresh(cache) && State() == Buffer(Cache(numEntries, map[], []), [])
      ensures this.dirtyThreshold == dirtyThreshold && Books() == Empty(numEntries)
    {
      this.dirtyThreshold := dirtyThreshold;
      cache := new LRUCache(numEntries);
      pendingRequests := [];
    }

    /** Finding a block refreshes its place in the order. */
    method IsCached(lba: nat) returns (cached: bool)
      requires Valid()
      modifies cache
      ensures Valid() && cached == (lba in old(cache.State()).entries)
      ensures cache.State() == if cached then old(cache.State()).Touch(lba) else old(cache.State())
      ensures cache.numDirtyEntries == old(cache.numDirtyEntries)
    {
      cached := cache.Exists(lba);
      if cached {
        var _ := cache.Lookup(lba);
      }
    }

    method GetNextEviction() returns (lba: nat, contents: nat, isDirty: bool)
      requires Valid() && cache.lruList != []
      ensures lba == cache.State().Victim() && lba in cache.keyEntryMap
      ensures cache.keyEntryMap[lba] == Entry(contents, isDirty)
    {
      var lru := cache.GetLRU();
      lba, contents := lru.value.0, lru.value.1;
      var bit := cache.GetDirtyBit(lba);
      isDirty := bit.value;
    }

    /** Writes back the entry that the insertion of `lba` is about to evict, when it is dirty. */
    method EvictCacheEntry(lba: nat) returns (evicted: Option<DeviceRequest>)
      requires Valid()
      modifies cache
      ensures Valid() && evicted == WriteBack(old(cache.State()), lba)
      ensures cache.numDirtyEntries == old(cache.numDirtyEntries)
      ensures cache.State() == old(cache.State()) ||
              (lba in old(cache.State()).entries && cache.State() == old(cache.State()).Touch(lba))
    {
      evicted := None;
      var size := cache.Size();
      if cache.maxEntries == size {
        DistinctCount(cache.lruList, cache.keyEntryMap.Keys);
        var cached := IsCached(lba);
        if !cached {
          var victim, contents, isDirty := GetNextEviction();
          if isDirty {
            evicted := Some(WriteBlock(victim, contents, None));
          }
        }
      } else {
        DistinctCount(cache.lruList, cache.keyEntryMap.Keys);
      }
    }

    method HandleReadRequest(r: Request) returns (request: Option<DeviceRequest>, readers: seq<Request>)
      requires Valid()
      modifies this, cache
      ensures Valid() && Outcome(State(), None, request, readers, None) == ReadRequest(old(State()), r)
      ensures Books() == Serve(old(Books()), dirtyThreshold, Asked(r.lba))
    {
      request, readers := None, [];
      var cached := IsCached(r.lba);
      if cached {
        readers := [r];
      } else if IsPending(pendingRequests, r.lba) {
        pendingRequests := pendingRequests + [r];
      } else {
        pendingRequests := pendingRequests + [r];
        request := Some(ReadBlock(r.lba));
      }
    }

    /** Writes through when the request says so or too much of the cache counts as dirty; fails when
        the dirty counter is out of bounds. */
    method HandleWriteRequest(r: Request, version: nat, writeThrough: bool)
      returns (ok: bool, evicted: Option<DeviceRequest>, request: Option<DeviceRequest>, writer: Option<nat>)
      requires Valid()
      modifies this, cache
      ensures Valid() && ok == old(cache.CounterInBounds())
      ensures !ok ==> State() == old(State())
      ensures ok ==> Outcome(State(), evicted, request, [], writer) ==
                     WriteRequest(old(State()), r, version, writeThrough || old(OverThreshold()))
      ensures Books() == Serve(old(Books()), dirtyThreshold, Written(r.lba, version, writeThrough))
    {
      evicted, request, writer := None, None, None;
      var percent, asserted := cache.PercentDirty();
      ok := asserted;
      if ok {
        evicted, request, writer := WriteBlockThrough(r, version, writeThrough || percent > dirtyThreshold);
      }
    }

    /** The rest of `HandleWriteRequest`, with the write-through status set. */
    method WriteBlockThrough(r: Request, version: nat, isWriteThrough: bool)
      returns (evicted: Option<DeviceRequest>, request: Option<DeviceRequest>, writer: Option<nat>)
      requires Valid()
      modifies this, cache
      ensures Valid()
      ensures Outcome(State(), evicted, request, [], writer) == WriteRequest(old(State()), r, version, isWriteThrough)
      ensures Books() == old(Books()).Do(Use.Insert(r.lba, version, !isWriteThrough))
    {
      ghost var before := cache.State();
      evicted := EvictCacheEntry(r.lba);
      if r.lba in before.entries {
        TouchThenInsert(before, r.lba, version, !isWriteThrough);
      }
      cache.Insert(r.lba, version, !isWriteThrough);
      request, writer := None, None;
      if isWriteThrough {
        request := Some(WriteBlock(r.lba, version, Some(r.id)));
      } else {
        writer := Some(r.id);
      }
    }

    /** Only a block that is not in the cache is taken from the device. */
    method HandleReadResponse(lba: nat, version: nat) returns (evicted: Option<DeviceRequest>, readers: seq<Request>)
      requires Valid()
      modifies this, cache
      ensures Valid() && Outcome(State(), evicted, None, readers, None) == ReadResponse(old(State()), lba, version)
      ensures Books() == Serve(old(Books()), dirtyThreshold, Arrived(lba, version))
    {
      evicted := None;
      var cached := IsCached(lba);
      if !cached {
        evicted := EvictCacheEntry(lba);
        cache.Insert(lba, version, false);
      }
      readers := SatisfyPending(lba);
    }

    method SatisfyPending(lba: nat) returns (readers: seq<Request>)
      requires Valid()
      modifies this
      ensures Valid() && readers == PendingFor(old(pendingRequests), lba)
      ensures pendingRequests == PendingOthers(old(pendingRequests), lba)
      ensures Books() == old(Books())
    {
      var all := pendingRequests;
      readers := [];
      var others := [];
      for i := 0 to |all|
        invariant readers == PendingFor(all[..i], lba) && others == PendingOthers(all[..i], lba)
      {
        assert all[..i + 1][..i] == all[..i];
        if all[i].lba == lba {
          readers := readers + [all[i]];
        } else {
          others := others + [all[i]];
        }
      }
      assert all[..|all|] == all;
      pendingRequests := others;
    }

    /** The answer to a write-through is passed on; that to a write-back is dropped. */
    method HandleWriteResponse(through: Option<nat>) returns (writer: Option<nat>)
      requires Valid()
      ensures Outcome(State(), None, None, [], writer) == WriteResponse(State(), through)
    {
      writer := if through.Some? then Some(through.value) else None;
    }
  }
}
