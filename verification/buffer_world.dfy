/** The buffer cache between its clients and a device that completes requests in any order: what
    holds in every run. */
module BufferWorlds {
  import opened Options
  import opened Sequences
  import opened LRUCaches
  import opened BufferCaches

  /** `latest` has the last version written to a block, `sent` the last one sent to the device and
      `disk` the one the device holds; a block never written is at version 0.  The last four fields
      log the requests received and answered. */
  datatype World = World(buffer: Buffer, device: seq<DeviceRequest>, sent: map<nat, nat>, latest: map<nat, nat>,
                         disk: map<nat, nat>, clock: nat,
                         readsAsked: seq<Request>, readsAnswered: seq<Request>,
                         writesAsked: seq<nat>, writesAnswered: seq<nat>)

  datatype Step =
    | Read(r: Request)
    | Write(r: Request, through: bool)
    | Complete(i: nat) // the device completes request `i`

  function Version(m: map<nat, nat>, lba: nat): nat {
    if lba in m then m[lba] else 0
  }

  /** A message sent, if there is one. */
  function Push<T>(s: seq<T>, x: Option<T>): seq<T> {
    match x
    case None => s
    case Some(v) => s + [v]
  }

  function PushAll<T>(s: seq<T>, t: seq<T>): seq<T> {
    if t == [] then s else s + t
  }

  function NoteSent(sent: map<nat, nat>, d: Option<DeviceRequest>): map<nat, nat> {
    if d.Some? && d.value.WriteBlock? then sent[d.value.lba := d.value.version] else sent
  }

  function Absorb(w: World, out: Outcome): World {
    w.(buffer := out.buffer, device := Push(Push(w.device, out.evicted), out.request),
       sent := NoteSent(NoteSent(w.sent, out.evicted), out.request),
       readsAnswered := PushAll(w.readsAnswered, out.readers), writesAnswered := Push(w.writesAnswered, out.writer))
  }

  predicate Enabled(w: World, step: Step) {
    step.Complete? ==> step.i < |w.device|
  }

  /** What the cache does in a step. */
  function Respond(w: World, step: Step): Outcome
    requires Enabled(w, step)
  {
    match step
    case Read(r) => ReadRequest(w.buffer, r)
    case Write(r, through) => WriteRequest(w.buffer, r, w.clock + 1, through)
    case Complete(i) =>
      match w.device[i]
      case ReadBlock(lba) => ReadResponse(w.buffer, lba, Version(w.disk, lba))
      case WriteBlock(_, _, through) => WriteResponse(w.buffer, through)
  }

  /** The world after a step in which the cache did `out`. */
  function Result(w: World, step: Step, out: Outcome): World
    requires Enabled(w, step)
  {
    match step
    case Read(r) => Absorb(w.(readsAsked := w.readsAsked + [r]), out)
    case Write(r, through) =>
      Absorb(w.(writesAsked := w.writesAsked + [r.id],
               latest := w.latest[r.lba := w.clock + 1],
               clock := w.clock + 1), out)
    case Complete(i) =>
      var d := w.device[i];
      Absorb(w.(device := Without(w.device, i),
               disk := if d.WriteBlock? then w.disk[d.lba := d.version] else w.disk), out)
  }

  function Apply(w: World, step: Step): World
    requires Enabled(w, step)
  {
    Result(w, step, Respond(w, step))
  }

  function Start(capacity: nat): World {
    World(Buffer(Cache(capacity, map[], []), []), [], map[], map[], map[], 0,
          [], [], [], [])
  }

  /** A run: each step is enabled where it is taken. */
  ghost predicate Runs(w: World, steps: seq<Step>, last: World)
    decreases |steps|
  {
    if steps == [] then w == last
    else Enabled(w, steps[0]) && Runs(Apply(w, steps[0]), steps[1..], last)
  }

  // ----- No written version is lost -----

  /** The latest version of a block is in the cache marked dirty, or was the last one sent; and a
      dirty entry is never an older version. */
  predicate Kept(cache: Cache<nat, nat>, sent: map<nat, nat>, latest: map<nat, nat>, lba: nat) {
    if lba in cache.entries && cache.entries[lba].isDirty then cache.entries[lba].data == Version(latest, lba)
    else Version(sent, lba) == Version(latest, lba)
  }

  ghost predicate Safe(cache: Cache<nat, nat>, sent: map<nat, nat>, latest: map<nat, nat>) {
    cache.Consistent() && forall lba :: Kept(cache, sent, latest, lba)
  }

  lemma TouchIsSafe(cache: Cache<nat, nat>, sent: map<nat, nat>, latest: map<nat, nat>, lba: nat)
    requires Safe(cache, sent, latest) && lba in cache.entries
    ensures Safe(cache.Touch(lba), sent, latest)
  {
    TouchKeeps(cache, lba);
    forall k ensures Kept(cache.Touch(lba), sent, latest, k) {
      assert Kept(cache, sent, latest, k);
    }
  }

  /** The entry written back is the one the insertion removes, so every other block stays kept. */
  lemma InsertKeepsOthers(cache: Cache<nat, nat>, sent: map<nat, nat>, latest: map<nat, nat>,
                          lba: nat, version: nat, dirty: bool)
    requires cache.Consistent() && forall k :: k != lba ==> Kept(cache, sent, latest, k)
    ensures var after := cache.Insert(lba, version, dirty);
            var sent' := NoteSent(sent, WriteBack(cache, lba));
            && after.Consistent() && lba in after.entries && after.entries[lba] == Entry(version, dirty)
            && Version(sent', lba) == Version(sent, lba)
            && forall k :: k != lba ==> Kept(after, sent', latest, k)
  {
    var after := cache.Insert(lba, version, dirty);
    InsertKeeps(cache, lba, version, dirty);
    InsertLosesOnlyVictim(cache, lba, version, dirty);
    var sent' := NoteSent(sent, WriteBack(cache, lba));
    forall k | k != lba ensures Kept(after, sent', latest, k) {
      assert Kept(cache, sent, latest, k);
    }
  }

  // ----- Every read and write is answered once -----

  function Count<T(==)>(s: seq<T>, x: T): nat {
    multiset(s)[x]
  }

  lemma CountConcat<T>(a: seq<T>, b: seq<T>, x: T)
    ensures Count(a + b, x) == Count(a, x) + Count(b, x)
  {
  }

  lemma CountLast<T>(s: seq<T>, last: T, x: T)
    ensures Count(s + [last], x) == Count(s, x) + if last == x then 1 else 0
  {
  }

  /** Outstanding device reads of a block. */
  function ReadsOf(device: seq<DeviceRequest>, lba: nat): nat {
    Count(device, ReadBlock(lba))
  }

  /** The requests whose write-through the device has not completed. */
  function Throughs(device: seq<DeviceRequest>, id: nat): nat {
    if device == [] then 0
    else
      var n := |device| - 1;
      Throughs(device[..n], id) + ThroughOf(device[n], id)
  }

  function ThroughOf(d: DeviceRequest, id: nat): nat {
    if d.WriteBlock? && d.through == Some(id) then 1 else 0
  }

  lemma {:induction false} ThroughsConcat(a: seq<DeviceRequest>, b: seq<DeviceRequest>, id: nat)
    ensures Throughs(a + b, id) == Throughs(a, id) + Throughs(b, id)
  {
    if b == [] {
      assert a + b == a;
    } else {
      var n := |b| - 1;
      ThroughsConcat(a, b[..n], id);
      assert (a + b)[..|a| + n] == a + b[..n];
    }
  }

  lemma CountDrop<T>(s: seq<T>, i: nat, x: T)
    requires i < |s|
    ensures Count(s, x) == Count(Without(s, i), x) + if s[i] == x then 1 else 0
  {
    assert s == s[..i] + [s[i]] + s[i + 1..];
  }

  lemma DropLater<T>(s: seq<T>, i: nat)
    requires i < |s| - 1
    ensures var n := |s| - 1; Without(s, i)[..n - 1] == Without(s[..n], i) && Without(s, i)[n - 1] == s[n]
  {
  }

  lemma {:induction false} ThroughsDrop(device: seq<DeviceRequest>, i: nat, id: nat)
    requires i < |device|
    ensures Throughs(device, id) == Throughs(Without(device, i), id) + ThroughOf(device[i], id)
  {
    var n := |device| - 1;
    if i == n {
      assert Without(device, i) == device[..n];
    } else {
      ThroughsDrop(device[..n], i, id);
      DropLater(device, i);
    }
  }

  lemma {:induction false} PendingSplits(s: seq<Request>, lba: nat, r: Request)
    ensures Count(s, r) == Count(PendingFor(s, lba), r) + Count(PendingOthers(s, lba), r)
  {
    if s != [] {
      var n := |s| - 1;
      PendingSplits(s[..n], lba, r);
      assert s == s[..n] + [s[n]];
      CountLast(s[..n], s[n], r);
      CountLast(PendingFor(s[..n], lba), s[n], r);
      CountLast(PendingOthers(s[..n], lba), s[n], r);
    }
  }

  lemma {:induction false} OthersPending(s: seq<Request>, lba: nat, r: Request)
    ensures r in PendingOthers(s, lba) <==> r in s && r.lba != lba
  {
    if s != [] {
      var n := |s| - 1;
      OthersPending(s[..n], lba, r);
      assert s == s[..n] + [s[n]];
    }
  }

  lemma PendingAfter(s: seq<Request>, lba: nat, k: nat)
    ensures IsPending(PendingOthers(s, lba), k) <==> IsPending(s, k) && k != lba
  {
    forall r | r in s && r.lba == k && k != lba ensures r in PendingOthers(s, lba) {
      OthersPending(s, lba, r);
    }
    forall r | r in PendingOthers(s, lba) ensures r in s && r.lba != lba {
      OthersPending(s, lba, r);
    }
  }

  /** A block has one device read outstanding when reads wait for it, and none otherwise. */
  ghost predicate OneRead(pending: seq<Request>, device: seq<DeviceRequest>) {
    forall lba :: ReadsOf(device, lba) == if IsPending(pending, lba) then 1 else 0
  }

  /** Every request received is answered, waiting for a read, or a write-through at the device: one of
      these and once. */
  ghost predicate Accounted(w: World) {
    (forall r :: ReadBalance(w, r)) && (forall id :: WriteBalance(w, id))
  }

  ghost predicate Inv(w: World) {
    Safe(w.buffer.cache, w.sent, w.latest) && OneRead(w.buffer.pending, w.device) && Accounted(w)
  }

  predicate ReadBalance(w: World, r: Request) {
    Count(w.readsAsked, r) == Count(w.readsAnswered, r) + Count(w.buffer.pending, r)
  }

  predicate WriteBalance(w: World, id: nat) {
    Count(w.writesAsked, id) == Count(w.writesAnswered, id) + Throughs(w.device, id)
  }

  // ----- What an outcome must do -----

  /** Nothing, or a write-back. */
  predicate IsWriteBack(d: Option<DeviceRequest>) {
    d.Some? ==> d.value.WriteBlock? && d.value.through == None
  }

  /** A read is answered, or waits for the one read of its block. */
  predicate ReadMeets(b: Buffer, r: Request, out: Outcome) {
    && out.evicted == None && out.writer == None
    && (|| (out.readers == [r] && out.buffer.pending == b.pending && out.request == None)
        || (&& out.readers == [] && out.buffer.pending == b.pending + [r]
            && out.request == if IsPending(b.pending, r.lba) then None else Some(ReadBlock(r.lba))))
  }

  predicate WriteMeets(b: Buffer, r: Request, version: nat, through: bool, out: Outcome) {
    && out.readers == [] && out.buffer.pending == b.pending && IsWriteBack(out.evicted)
    && out.request == (if through then Some(WriteBlock(r.lba, version, Some(r.id))) else None)
    && out.writer == if through then None else Some(r.id)
  }

  predicate DoneMeets(b: Buffer, d: DeviceRequest, out: Outcome) {
    && IsWriteBack(out.evicted) && out.request == None
    && if d.ReadBlock? then
         out.readers == PendingFor(b.pending, d.lba)
         && out.buffer.pending == PendingOthers(b.pending, d.lba)
         && out.writer == None
       else out.readers == [] && out.buffer.pending == b.pending && out.writer == d.through
  }

  predicate Meets(w: World, step: Step, out: Outcome)
    requires Enabled(w, step)
  {
    match step
    case Read(r) => ReadMeets(w.buffer, r, out)
    case Write(r, through) => WriteMeets(w.buffer, r, w.clock + 1, through, out)
    case Complete(i) => DoneMeets(w.buffer, w.device[i], out)
  }

  function LatestAfter(w: World, step: Step): map<nat, nat> {
    if step.Write? then w.latest[step.r.lba := w.clock + 1] else w.latest
  }

  ghost predicate OutcomeSafe(w: World, step: Step, out: Outcome) {
    Safe(out.buffer.cache, NoteSent(NoteSent(w.sent, out.evicted), out.request), LatestAfter(w, step))
  }

  lemma RespondSafely(w: World, step: Step)
    requires Safe(w.buffer.cache, w.sent, w.latest) && Enabled(w, step)
    ensures OutcomeSafe(w, step, Respond(w, step))
  {
    match step {
      case Read(r) =>
        if r.lba in w.buffer.cache.entries {
          TouchIsSafe(w.buffer.cache, w.sent, w.latest, r.lba);
        }
      case Write(r, through) =>
        NewVersion(w.buffer.cache, w.sent, w.latest, LatestAfter(w, step), r.lba);
        SafeWriteRequest(w.buffer, w.sent, LatestAfter(w, step), r, w.clock + 1, through);
      case Complete(i) =>
        if w.device[i].ReadBlock? {
          SafeReadResponse(w.buffer, w.sent, w.latest, w.device[i].lba, Version(w.disk, w.device[i].lba));
        }
    }
  }

  lemma NewVersion(cache: Cache<nat, nat>, sent: map<nat, nat>, latest: map<nat, nat>, latest': map<nat, nat>, lba: nat)
    requires Safe(cache, sent, latest) && forall k :: k != lba ==> Version(latest', k) == Version(latest, k)
    ensures forall k :: k != lba ==> Kept(cache, sent, latest', k)
  {
    forall k | k != lba ensures Kept(cache, sent, latest', k) {
      assert Kept(cache, sent, latest, k);
    }
  }

  lemma SafeWriteRequest(b: Buffer, sent: map<nat, nat>, latest: map<nat, nat>, r: Request, version: nat, through: bool)
    requires b.cache.Consistent() && Version(latest, r.lba) == version
    requires forall k :: k != r.lba ==> Kept(b.cache, sent, latest, k)
    ensures var out := WriteRequest(b, r, version, through);
            Safe(out.buffer.cache, NoteSent(NoteSent(sent, out.evicted), out.request), latest)
  {
    var out := WriteRequest(b, r, version, through);
    var sent' := NoteSent(sent, out.evicted);
    InsertKeepsOthers(b.cache, sent, latest, r.lba, version, !through);
    forall k ensures Kept(out.buffer.cache, NoteSent(sent', out.request), latest, k) {
      assert k != r.lba ==> Kept(out.buffer.cache, sent', latest, k);
    }
  }

  lemma SafeReadResponse(b: Buffer, sent: map<nat, nat>, latest: map<nat, nat>, lba: nat, version: nat)
    requires Safe(b.cache, sent, latest)
    ensures var out := ReadResponse(b, lba, version);
            Safe(out.buffer.cache, NoteSent(NoteSent(sent, out.evicted), out.request), latest)
  {
    if lba in b.cache.entries {
      TouchIsSafe(b.cache, sent, latest, lba);
    } else {
      assert Kept(b.cache, sent, latest, lba);
      InsertKeepsOthers(b.cache, sent, latest, lba, version, false);
    }
  }

  lemma RespondMeets(w: World, step: Step)
    requires Enabled(w, step)
    ensures Meets(w, step, Respond(w, step))
  {
  }

  // ----- Each step keeps the invariant -----

  lemma OneReadKept(w: World, step: Step, out: Outcome)
    requires OneRead(w.buffer.pending, w.device) && Enabled(w, step) && Meets(w, step, out)
    ensures var w' := Result(w, step, out); OneRead(w'.buffer.pending, w'.device)
  {
    var w' := Result(w, step, out);
    forall lba ensures ReadsOf(w'.device, lba) == if IsPending(w'.buffer.pending, lba) then 1 else 0 {
      assert ReadsOf(w.device, lba) == if IsPending(w.buffer.pending, lba) then 1 else 0;
      var rest := if step.Complete? then Without(w.device, step.i) else w.device;
      ReadsPush(rest, out.evicted, lba);
      ReadsPush(Push(rest, out.evicted), out.request, lba);
      match step
      case Read(r) => PendingAppended(w.buffer.pending, r, lba);
      case Write(r, through) =>
      case Complete(i) =>
        CountDrop(w.device, i, ReadBlock(lba));
        PendingAfter(w.buffer.pending, w.device[i].lba, lba);
    }
  }

  lemma ReadsPush(device: seq<DeviceRequest>, d: Option<DeviceRequest>, lba: nat)
    ensures ReadsOf(Push(device, d), lba) == ReadsOf(device, lba) + if d == Some(ReadBlock(lba)) then 1 else 0
  {
    CountPush(device, d, ReadBlock(lba));
  }

  lemma CountPush<T>(s: seq<T>, o: Option<T>, x: T)
    ensures Count(Push(s, o), x) == Count(s, x) + if o == Some(x) then 1 else 0
  {
    if o.Some? {
      CountLast(s, o.value, x);
    }
  }

  lemma PendingAppended(s: seq<Request>, r: Request, lba: nat)
    ensures IsPending(s + [r], lba) <==> IsPending(s, lba) || r.lba == lba
  {
    assert r in s + [r];
    forall q | q in s ensures q in s + [r] {
    }
  }

  lemma ReadsBalanced(w: World, step: Step, out: Outcome, r: Request)
    requires ReadBalance(w, r) && Enabled(w, step) && Meets(w, step, out)
    ensures ReadBalance(Result(w, step, out), r)
  {
    match step
    case Read(q) =>
      CountLast(w.readsAsked, q, r);
      if out.readers == [] {
        CountLast(w.buffer.pending, q, r);
      } else {
        CountLast(w.readsAnswered, q, r);
      }
    case Write(q, through) =>
    case Complete(i) =>
      if w.device[i].ReadBlock? {
        PendingSplits(w.buffer.pending, w.device[i].lba, r);
        CountPushAll(w.readsAnswered, out.readers, r);
      }
  }

  lemma CountPushAll<T>(s: seq<T>, t: seq<T>, x: T)
    ensures Count(PushAll(s, t), x) == Count(s, x) + Count(t, x)
  {
    CountConcat(s, t, x);
  }

  lemma WritesBalanced(w: World, step: Step, out: Outcome, id: nat)
    requires WriteBalance(w, id) && Enabled(w, step) && Meets(w, step, out)
    ensures WriteBalance(Result(w, step, out), id)
  {
    match step
    case Read(q) => ThroughsSent(w.device, out, id);
    case Write(q, through) => WritesBalancedWrite(w, q, through, out, id);
    case Complete(i) =>
      ThroughsSent(Without(w.device, i), out, id);
      ThroughsDrop(w.device, i, id);
      CountPush(w.writesAnswered, out.writer, id);
  }

  lemma WritesBalancedWrite(w: World, q: Request, through: bool, out: Outcome, id: nat)
    requires WriteBalance(w, id) && Meets(w, Write(q, through), out)
    ensures WriteBalance(Result(w, Write(q, through), out), id)
  {
    ThroughsSent(w.device, out, id);
    CountPush(w.writesAnswered, out.writer, id);
    CountLast(w.writesAsked, q.id, id);
  }

  lemma ThroughsSent(device: seq<DeviceRequest>, out: Outcome, id: nat)
    requires IsWriteBack(out.evicted)
    ensures Throughs(Push(Push(device, out.evicted), out.request), id) ==
            Throughs(device, id) + if out.request.Some? then ThroughOf(out.request.value, id) else 0
  {
    ThroughsPush(device, out.evicted, id);
    ThroughsPush(Push(device, out.evicted), out.request, id);
  }

  lemma ThroughsPush(device: seq<DeviceRequest>, d: Option<DeviceRequest>, id: nat)
    ensures Throughs(Push(device, d), id) == Throughs(device, id) + if d.Some? then ThroughOf(d.value, id) else 0
  {
    if d.Some? {
      assert (device + [d.value])[..|device|] == device;
    }
  }

  lemma ResultKeepsInv(w: World, step: Step, out: Outcome)
    requires Inv(w) && Enabled(w, step) && Meets(w, step, out) && OutcomeSafe(w, step, out)
    ensures Inv(Result(w, step, out))
  {
    OneReadKept(w, step, out);
    forall r ensures ReadBalance(Result(w, step, out), r) {
      assert ReadBalance(w, r);
      ReadsBalanced(w, step, out, r);
    }
    forall id ensures WriteBalance(Result(w, step, out), id) {
      assert WriteBalance(w, id);
      WritesBalanced(w, step, out, id);
    }
  }

  lemma StepKeepsInv(w: World, step: Step)
    requires Inv(w) && Enabled(w, step)
    ensures Inv(Apply(w, step))
  {
    RespondMeets(w, step);
    RespondSafely(w, step);
    ResultKeepsInv(w, step, Respond(w, step));
  }

  lemma StartInv(capacity: nat)
    requires 0 < capacity
    ensures Inv(Start(capacity))
  {
  }

  /** In every run: a written version is in the cache or sent, a block has at most one device read
      outstanding, and no request is lost or answered twice. */
  lemma {:induction false} RunKeepsInv(w: World, steps: seq<Step>, last: World)
    requires Inv(w) && Runs(w, steps, last)
    ensures Inv(last)
    decreases |steps|
  {
    if steps != [] {
      StepKeepsInv(w, steps[0]);
      RunKeepsInv(Apply(w, steps[0]), steps[1..], last);
    }
  }

  // ----- From the initial state on -----

  /** What some run from the empty cache leads to. */
  ghost predicate Reachable(capacity: nat, w: World) {
    exists steps :: Runs(Start(capacity), steps, w)
  }

  lemma ReachableInv(capacity: nat, w: World)
    requires 0 < capacity && Reachable(capacity, w)
    ensures Inv(w)
  {
    var steps :| Runs(Start(capacity), steps, w);
    StartInv(capacity);
    RunKeepsInv(Start(capacity), steps, w);
  }

  /** In every reachable state the latest version of each block is dirty in the cache or is the last
      one sent to the device. */
  lemma NoVersionIsLost(capacity: nat, w: World, lba: nat)
    requires 0 < capacity && Reachable(capacity, w)
    ensures || (lba in w.buffer.cache.entries
                && w.buffer.cache.entries[lba] == Entry(Version(w.latest, lba), true))
            || Version(w.sent, lba) == Version(w.latest, lba)
  {
    ReachableInv(capacity, w);
    assert Kept(w.buffer.cache, w.sent, w.latest, lba);
  }

  /** In every reachable state a block has one device read outstanding when reads wait for it and none
      otherwise. */
  lemma OneReadPerBlock(capacity: nat, w: World, lba: nat)
    requires 0 < capacity && Reachable(capacity, w)
    ensures Count(w.device, ReadBlock(lba)) == if exists r :: r in w.buffer.pending && r.lba == lba then 1 else 0
  {
    ReachableInv(capacity, w);
    assert ReadsOf(w.device, lba) == if IsPending(w.buffer.pending, lba) then 1 else 0;
  }

  /** In every reachable state each request has been answered as often as it was made, less those that
      wait for a read or for a write-through at the device. */
  lemma EveryRequestIsAccountedFor(capacity: nat, w: World, r: Request, id: nat)
    requires 0 < capacity && Reachable(capacity, w)
    ensures Count(w.readsAsked, r) == Count(w.readsAnswered, r) + Count(w.buffer.pending, r)
    ensures Count(w.writesAsked, id) == Count(w.writesAnswered, id) + Throughs(w.device, id)
  {
    ReachableInv(capacity, w);
    assert ReadBalance(w, r) && WriteBalance(w, id);
  }

  // ----- Every run can be completed -----

  /** What the device has left to do; a completed read may send one write-back. */
  function Work(device: seq<DeviceRequest>): nat {
    if device == [] then 0
    else
      var n := |device| - 1;
      Work(device[..n]) + Weight(device[n])
  }

  function Weight(d: DeviceRequest): nat {
    if d.ReadBlock? then 2 else 1
  }

  lemma {:induction false} WorkDrop(device: seq<DeviceRequest>, i: nat)
    requires i < |device|
    ensures Work(device) == Work(Without(device, i)) + Weight(device[i])
  {
    var n := |device| - 1;
    if i == n {
      assert Without(device, i) == device[..n];
    } else {
      WorkDrop(device[..n], i);
      DropLater(device, i);
    }
  }

  lemma WorkPush(device: seq<DeviceRequest>, d: Option<DeviceRequest>)
    ensures Work(Push(device, d)) == Work(device) + if d == None then 0 else Weight(d.value)
  {
    if d.Some? {
      assert (device + [d.value])[..|device|] == device;
    }
  }

  lemma CompleteDecreasesWork(w: World, i: nat, out: Outcome)
    requires i < |w.device| && Meets(w, Complete(i), out) && (w.device[i].WriteBlock? ==> out.evicted == None)
    ensures Work(Result(w, Complete(i), out).device) < Work(w.device)
  {
    WorkDrop(w.device, i);
    WorkPush(Without(w.device, i), out.evicted);
  }

  /** However the device orders its work, it comes to an end when no new requests arrive, and then
      every read and every write has been answered as often as it was made. */
  lemma {:induction false} EveryRunDrains(w: World, steps: seq<Step>, last: World)
    requires Inv(w) && Runs(w, steps, last) && forall s :: s in steps ==> s.Complete?
    ensures |steps| <= Work(w.device) && Inv(last)
    ensures last.device == [] ==> last.buffer.pending == [] && multiset(last.readsAsked) == multiset(last.readsAnswered)
                                  && multiset(last.writesAsked) == multiset(last.writesAnswered)
    decreases |steps|
  {
    if steps == [] {
      if last.device == [] {
        NothingLeft(last);
      }
    } else {
      StepKeepsInv(w, steps[0]);
      RespondMeets(w, steps[0]);
      CompleteDecreasesWork(w, steps[0].i, Respond(w, steps[0]));
      EveryRunDrains(Apply(w, steps[0]), steps[1..], last);
    }
  }

  /** The same from any reachable state. */
  lemma ReachableDrains(capacity: nat, w: World, steps: seq<Step>, last: World)
    requires 0 < capacity && Reachable(capacity, w)
    requires Runs(w, steps, last) && forall s :: s in steps ==> s.Complete?
    ensures |steps| <= Work(w.device)
    ensures last.device == [] ==> last.buffer.pending == [] && multiset(last.readsAsked) == multiset(last.readsAnswered)
                                  && multiset(last.writesAsked) == multiset(last.writesAnswered)
  {
    ReachableInv(capacity, w);
    EveryRunDrains(w, steps, last);
  }

  lemma NothingLeft(w: World)
    requires Inv(w) && w.device == []
    ensures w.buffer.pending == [] && multiset(w.readsAsked) == multiset(w.readsAnswered)
            && multiset(w.writesAsked) == multiset(w.writesAnswered)
  {
    forall lba ensures !IsPending(w.buffer.pending, lba) {
      assert ReadsOf(w.device, lba) == 0;
    }
    if w.buffer.pending != [] {
      FirstWaits(w.buffer.pending);
    }
    forall r ensures Count(w.readsAsked, r) == Count(w.readsAnswered, r) {
      assert ReadBalance(w, r);
    }
    forall id ensures Count(w.writesAsked, id) == Count(w.writesAnswered, id) {
      assert WriteBalance(w, id);
    }
    SameCounts(w.readsAsked, w.readsAnswered);
    SameCounts(w.writesAsked, w.writesAnswered);
  }

  lemma FirstWaits(pending: seq<Request>)
    requires pending != []
    ensures IsPending(pending, pending[0].lba)
  {
    assert pending[0] in pending;
  }

  lemma SameCounts<T(!new)>(a: seq<T>, b: seq<T>)
    requires forall x :: Count(a, x) == Count(b, x)
    ensures multiset(a) == multiset(b)
  {
    forall x ensures multiset(a)[x] == multiset(b)[x] {
      assert Count(a, x) == Count(b, x);
    }
  }

  // ----- When the cache is current -----

  /** Every entry holds the latest version of its block. */
  ghost predicate Current(w: World) {
    forall lba :: lba in w.buffer.cache.entries ==> w.buffer.cache.entries[lba].data == Version(w.latest, lba)
  }

  /** Request `i` reads a block that the cache does not hold while the disk lacks the last version sent. */
  predicate Stale(w: World, i: nat)
    requires i < |w.device|
  {
    && w.device[i].ReadBlock? && w.device[i].lba !in w.buffer.cache.entries
    && Version(w.disk, w.device[i].lba) != Version(w.sent, w.device[i].lba)
  }

  /** What an outcome does to the entries: each is an old one or `entry` for the block `lba`. */
  ghost predicate EntriesMeet(cache: Cache<nat, nat>, lba: nat, entry: Entry<nat>, out: Outcome) {
    && (forall k :: k in out.buffer.cache.entries ==>
         || (k == lba && out.buffer.cache.entries[k] == entry)
         || (k != lba && k in cache.entries && out.buffer.cache.entries[k] == cache.entries[k]))
    && (out.evicted.Some? ==>
         var d := out.evicted.value;
         && d.WriteBlock? && d.lba in cache.entries && d.lba !in out.buffer.cache.entries && d.lba != lba
         && cache.entries[d.lba] == Entry(d.version, true))
  }

  /** The block a step concerns and the entry it has afterwards, if it is in the cache. */
  function EntryAfter(w: World, step: Step): (nat, Entry<nat>)
    requires Enabled(w, step)
  {
    match step
    case Read(r) => (r.lba, if r.lba in w.buffer.cache.entries then w.buffer.cache.entries[r.lba] else Entry(0, false))
    case Write(r, through) => (r.lba, Entry(w.clock + 1, !through))
    case Complete(i) =>
      var lba := w.device[i].lba;
      (lba, if lba in w.buffer.cache.entries then w.buffer.cache.entries[lba] else Entry(Version(w.disk, lba), false))
  }

  lemma RespondEntries(w: World, step: Step)
    requires w.buffer.cache.Consistent() && Enabled(w, step)
    ensures EntriesMeet(w.buffer.cache, EntryAfter(w, step).0, EntryAfter(w, step).1, Respond(w, step))
  {
    match step {
      case Read(r) =>
      case Write(r, through) => InsertLosesOnlyVictim(w.buffer.cache, r.lba, w.clock + 1, !through);
      case Complete(i) =>
        var lba := w.device[i].lba;
        if w.device[i].ReadBlock? && lba !in w.buffer.cache.entries {
          InsertLosesOnlyVictim(w.buffer.cache, lba, Version(w.disk, lba), false);
        }
    }
  }

  lemma ReadInserts(w: World, i: nat)
    requires w.buffer.cache.Consistent() && i < |w.device| && w.device[i].ReadBlock?
    requires w.device[i].lba !in w.buffer.cache.entries
    ensures var lba, w' := w.device[i].lba, Apply(w, Complete(i));
            && lba in w'.buffer.cache.entries && w'.buffer.cache.entries[lba].data == Version(w.disk, lba)
            && w'.latest == w.latest
  {
    InsertLosesOnlyVictim(w.buffer.cache, w.device[i].lba, Version(w.disk, w.device[i].lba), false);
  }

  /** Whatever the order of completions: a current cache stays current in a step exactly when the step
      is not the completion of a stale read. */
  lemma StepKeepsCurrentExactly(w: World, step: Step)
    requires Inv(w) && Current(w) && Enabled(w, step)
    ensures Current(Apply(w, step)) <==> !(step.Complete? && Stale(w, step.i))
  {
    RespondEntries(w, step);
    if step.Complete? && w.device[step.i].ReadBlock? && w.device[step.i].lba !in w.buffer.cache.entries {
      assert Kept(w.buffer.cache, w.sent, w.latest, w.device[step.i].lba);
      ReadInserts(w, step.i);
    }
  }

  /** The cache is current before, during and after the run. */
  ghost predicate StaysCurrent(w: World, steps: seq<Step>)
    decreases |steps|
  {
    Current(w) && (steps != [] ==> Enabled(w, steps[0]) && StaysCurrent(Apply(w, steps[0]), steps[1..]))
  }

  /** No step of the run completes a stale read. */
  predicate NeverStale(w: World, steps: seq<Step>)
    decreases |steps|
  {
    steps != [] ==>
      && Enabled(w, steps[0]) && !(steps[0].Complete? && Stale(w, steps[0].i))
      && NeverStale(Apply(w, steps[0]), steps[1..])
  }

  lemma {:induction false} RunStaysCurrentExactly(w: World, steps: seq<Step>, last: World)
    requires Inv(w) && Current(w) && Runs(w, steps, last)
    ensures StaysCurrent(w, steps) <==> NeverStale(w, steps)
    ensures NeverStale(w, steps) ==> Current(last)
    decreases |steps|
  {
    if steps != [] {
      var next := Apply(w, steps[0]);
      StepKeepsInv(w, steps[0]);
      StepKeepsCurrentExactly(w, steps[0]);
      if Current(next) {
        RunStaysCurrentExactly(next, steps[1..], last);
      }
    }
  }

  /** A run from the empty cache keeps the cache current all along exactly when no stale read completes. */
  lemma CurrentExactly(capacity: nat, steps: seq<Step>, w: World)
    requires 0 < capacity && Runs(Start(capacity), steps, w)
    ensures StaysCurrent(Start(capacity), steps) <==> NeverStale(Start(capacity), steps)
  {
    StartInv(capacity);
    RunStaysCurrentExactly(Start(capacity), steps, w);
  }

  /** Then every block in the cache is at its latest version. */
  lemma HitsAreCurrent(capacity: nat, steps: seq<Step>, w: World, lba: nat)
    requires 0 < capacity && Runs(Start(capacity), steps, w) && NeverStale(Start(capacity), steps)
    requires lba in w.buffer.cache.entries
    ensures w.buffer.cache.entries[lba].data == Version(w.latest, lba)
  {
    StartInv(capacity);
    RunStaysCurrentExactly(Start(capacity), steps, w);
    assert Current(w);
  }

  // ----- What ends up on the disk -----

  predicate WritesBlock(d: DeviceRequest, lba: nat) {
    d.WriteBlock? && d.lba == lba
  }

  ghost predicate WritesNone(queue: seq<DeviceRequest>, lba: nat) {
    forall i :: 0 <= i < |queue| ==> !WritesBlock(queue[i], lba)
  }

  /** The version of a block after the writes in the queue, when it is `v` before. */
  function Final(v: nat, queue: seq<DeviceRequest>, lba: nat): nat {
    if queue == [] then v
    else
      var n := |queue| - 1;
      if WritesBlock(queue[n], lba) then queue[n].version else Final(v, queue[..n], lba)
  }

  /** The device would end with the last version sent of every block if it went on in the order sent. */
  ghost predicate Settles(w: World) {
    forall lba :: Final(Version(w.disk, lba), w.device, lba) == Version(w.sent, lba)
  }

  /** Request `i` is the last write of its block, and an earlier one is still at the device. */
  ghost predicate Buries(w: World, i: nat)
    requires i < |w.device|
  {
    && w.device[i].WriteBlock? && !WritesNone(w.device[..i], w.device[i].lba)
    && WritesNone(w.device[i + 1..], w.device[i].lba)
  }

  /** The versions of a block are sent in order, and each is written once. */
  ghost predicate Rises(disk: map<nat, nat>, sent: map<nat, nat>, queue: seq<DeviceRequest>) {
    && (forall lba :: Version(disk, lba) <= Version(sent, lba))
    && (forall i :: 0 <= i < |queue| && queue[i].WriteBlock? ==>
         Version(disk, queue[i].lba) != queue[i].version <= Version(sent, queue[i].lba))
    && (forall i, j :: 0 <= i < j < |queue| && queue[i].WriteBlock? && WritesBlock(queue[j], queue[i].lba) ==>
         queue[i].version < queue[j].version)
  }

  /** A dirty entry is newer than anything sent. */
  ghost predicate DirtyIsNewer(cache: Cache<nat, nat>, sent: map<nat, nat>) {
    forall lba :: lba in cache.entries && cache.entries[lba].isDirty ==> Version(sent, lba) < cache.entries[lba].data
  }

  ghost predicate Numbered(w: World) {
    && Rises(w.disk, w.sent, w.device) && DirtyIsNewer(w.buffer.cache, w.sent)
    && forall lba :: Version(w.latest, lba) <= w.clock
  }

  /** The version is that of the last write of the block, request `j`, or the old one. */
  lemma {:induction false} FinalWritten(v: nat, queue: seq<DeviceRequest>, lba: nat) returns (j: nat)
    ensures j < |queue| ==> WritesBlock(queue[j], lba) && Final(v, queue, lba) == queue[j].version
    ensures |queue| <= j ==> WritesNone(queue, lba) && Final(v, queue, lba) == v
  {
    if queue == [] {
      j := 0;
    } else {
      var n := |queue| - 1;
      if WritesBlock(queue[n], lba) {
        j := n;
      } else {
        j := FinalWritten(v, queue[..n], lba);
        j := if j < n then j else n + 1;
      }
    }
  }

  lemma FinalPush(v: nat, queue: seq<DeviceRequest>, d: Option<DeviceRequest>, lba: nat)
    ensures Final(v, Push(queue, d), lba) ==
            if d.Some? && WritesBlock(d.value, lba) then d.value.version else Final(v, queue, lba)
  {
    if d.Some? {
      assert (queue + [d.value])[..|queue|] == queue;
    }
  }

  lemma {:induction false} FinalDropOther(v: nat, queue: seq<DeviceRequest>, i: nat, lba: nat)
    requires i < |queue| && !WritesBlock(queue[i], lba)
    ensures Final(v, Without(queue, i), lba) == Final(v, queue, lba)
  {
    var n := |queue| - 1;
    if i == n {
      assert Without(queue, i) == queue[..n];
    } else {
      FinalDropOther(v, queue[..n], i, lba);
      DropLater(queue, i);
    }
  }

  lemma {:induction false} FinalDropWrite(v: nat, v': nat, queue: seq<DeviceRequest>, i: nat, lba: nat)
    requires i < |queue| && WritesBlock(queue[i], lba)
    ensures !WritesNone(queue[i + 1..], lba) ==> Final(v', Without(queue, i), lba) == Final(v, queue, lba)
    ensures WritesNone(queue[i + 1..], lba) ==>
              && Final(v, queue, lba) == queue[i].version
              && Final(v', Without(queue, i), lba) == Final(v', queue[..i], lba)
  {
    var n := |queue| - 1;
    if i == n {
      assert Without(queue, i) == queue[..n];
    } else {
      FinalDropWrite(v, v', queue[..n], i, lba);
      DropLater(queue, i);
      assert queue[i + 1..] == queue[..n][i + 1..] + [queue[n]];
      assert queue[..n][..i] == queue[..i];
    }
  }

  predicate IsNewer(sent: map<nat, nat>, d: Option<DeviceRequest>) {
    d.Some? && d.value.WriteBlock? ==> Version(sent, d.value.lba) < d.value.version
  }

  lemma RisesPush(disk: map<nat, nat>, sent: map<nat, nat>, queue: seq<DeviceRequest>, d: Option<DeviceRequest>)
    requires Rises(disk, sent, queue) && IsNewer(sent, d)
    ensures Rises(disk, NoteSent(sent, d), Push(queue, d))
  {
  }

  lemma RisesDrop(disk: map<nat, nat>, sent: map<nat, nat>, queue: seq<DeviceRequest>, i: nat)
    requires Rises(disk, sent, queue) && i < |queue|
    ensures Rises(NoteSent(disk, Some(queue[i])), sent, Without(queue, i))
  {
    var rest := Without(queue, i);
    forall j | 0 <= j < |rest| ensures rest[j] == queue[if j < i then j else j + 1] {
    }
  }

  lemma SentIsNotNewer(w: World, lba: nat)
    requires Inv(w) && Numbered(w)
    ensures Version(w.sent, lba) <= Version(w.latest, lba) <= w.clock
  {
    assert Kept(w.buffer.cache, w.sent, w.latest, lba);
  }

  lemma StillNewer(w: World, step: Step, out: Outcome)
    requires Inv(w) && Numbered(w) && Enabled(w, step) && Meets(w, step, out)
    requires EntriesMeet(w.buffer.cache, EntryAfter(w, step).0, EntryAfter(w, step).1, out)
    ensures IsNewer(w.sent, out.evicted) && IsNewer(NoteSent(w.sent, out.evicted), out.request)
    ensures DirtyIsNewer(out.buffer.cache, NoteSent(NoteSent(w.sent, out.evicted), out.request))
  {
    SentIsNotNewer(w, EntryAfter(w, step).0);
  }

  /** The disk and the queue of the device after a step, before what it sends is added. */
  function DiskAfter(w: World, step: Step): map<nat, nat>
    requires Enabled(w, step)
  {
    if step.Complete? then NoteSent(w.disk, Some(w.device[step.i])) else w.disk
  }

  function QueueAfter(w: World, step: Step): seq<DeviceRequest>
    requires Enabled(w, step)
  {
    if step.Complete? then Without(w.device, step.i) else w.device
  }

  lemma ResultNumbered(w: World, step: Step, out: Outcome)
    requires Inv(w) && Numbered(w) && Enabled(w, step) && Meets(w, step, out)
    requires EntriesMeet(w.buffer.cache, EntryAfter(w, step).0, EntryAfter(w, step).1, out)
    ensures Numbered(Result(w, step, out))
  {
    var w', disk, queue := Result(w, step, out), DiskAfter(w, step), QueueAfter(w, step);
    if step.Complete? {
      RisesDrop(w.disk, w.sent, w.device, step.i);
    }
    StillNewer(w, step, out);
    RisesPush(disk, w.sent, queue, out.evicted);
    RisesPush(disk, NoteSent(w.sent, out.evicted), Push(queue, out.evicted), out.request);
    forall lba ensures Version(w'.latest, lba) <= w'.clock {
      assert Version(w.latest, lba) <= w.clock;
    }
  }

  lemma StepKeepsNumbered(w: World, step: Step)
    requires Inv(w) && Numbered(w) && Enabled(w, step)
    ensures Numbered(Apply(w, step))
  {
    RespondMeets(w, step);
    RespondEntries(w, step);
    ResultNumbered(w, step, Respond(w, step));
  }

  /** What a step sends reaches the disk last, so only what it completes matters. */
  lemma ResultSettles(w: World, step: Step, out: Outcome, lba: nat)
    requires Enabled(w, step)
    ensures var w' := Result(w, step, out);
            Final(Version(w'.disk, lba), w'.device, lba) == Version(w'.sent, lba) <==>
            || Version(w'.sent, lba) == Final(Version(DiskAfter(w, step), lba), QueueAfter(w, step), lba)
            || (out.evicted.Some? && WritesBlock(out.evicted.value, lba))
            || (out.request.Some? && WritesBlock(out.request.value, lba))
  {
    var v, queue := Version(DiskAfter(w, step), lba), QueueAfter(w, step);
    FinalPush(v, queue, out.evicted, lba);
    FinalPush(v, Push(queue, out.evicted), out.request, lba);
  }

  lemma CompletionSettles(w: World, i: nat, lba: nat)
    requires Settles(w) && i < |w.device| && !Buries(w, i)
    ensures var disk := NoteSent(w.disk, Some(w.device[i]));
            Final(Version(disk, lba), Without(w.device, i), lba) == Version(w.sent, lba)
  {
    if WritesBlock(w.device[i], lba) {
      FinalDropWrite(Version(w.disk, lba), w.device[i].version, w.device, i, lba);
      var j := FinalWritten(w.device[i].version, w.device[..i], lba);
    } else {
      FinalDropOther(Version(w.disk, lba), w.device, i, lba);
    }
  }

  lemma BuryingUnsettles(w: World, i: nat)
    requires Settles(w) && Numbered(w) && i < |w.device| && Buries(w, i)
    ensures var disk, lba := NoteSent(w.disk, Some(w.device[i])), w.device[i].lba;
            Final(Version(disk, lba), Without(w.device, i), lba) != Version(w.sent, lba)
  {
    var lba := w.device[i].lba;
    FinalDropWrite(Version(w.disk, lba), w.device[i].version, w.device, i, lba);
    var j := FinalWritten(w.device[i].version, w.device[..i], lba);
  }

  lemma StepSettles(w: World, step: Step, out: Outcome, lba: nat)
    requires Settles(w) && Enabled(w, step) && !(step.Complete? && Buries(w, step.i))
    ensures var w' := Result(w, step, out); Final(Version(w'.disk, lba), w'.device, lba) == Version(w'.sent, lba)
  {
    ResultSettles(w, step, out, lba);
    if step.Complete? {
      CompletionSettles(w, step.i, lba);
    } else {
      assert Final(Version(w.disk, lba), w.device, lba) == Version(w.sent, lba);
    }
  }

  lemma StepUnsettles(w: World, i: nat, out: Outcome)
    requires Settles(w) && Numbered(w) && i < |w.device| && Buries(w, i) && DoneMeets(w.buffer, w.device[i], out)
    requires out.evicted == None
    ensures !Settles(Result(w, Complete(i), out))
  {
    var lba, w' := w.device[i].lba, Result(w, Complete(i), out);
    BuryingUnsettles(w, i);
    ResultSettles(w, Complete(i), out, lba);
    assert Final(Version(w'.disk, lba), w'.device, lba) != Version(w'.sent, lba);
  }

  /** A step keeps the device on its way to the last versions sent exactly when it does not complete the
      last write of a block before an earlier one. */
  lemma StepSettlesExactly(w: World, step: Step)
    requires Inv(w) && Numbered(w) && Settles(w) && Enabled(w, step)
    ensures Settles(Apply(w, step)) <==> !(step.Complete? && Buries(w, step.i))
  {
    var out := Respond(w, step);
    if step.Complete? && Buries(w, step.i) {
      StepUnsettles(w, step.i, out);
    } else {
      forall lba ensures Final(Version(Apply(w, step).disk, lba), Apply(w, step).device, lba)
                         == Version(Apply(w, step).sent, lba) {
        StepSettles(w, step, out, lba);
      }
    }
  }

  ghost predicate StaysSettled(w: World, steps: seq<Step>)
    decreases |steps|
  {
    Settles(w) && (steps != [] ==> Enabled(w, steps[0]) && StaysSettled(Apply(w, steps[0]), steps[1..]))
  }

  /** No step of the run completes the last write of a block before an earlier one. */
  ghost predicate NeverBuries(w: World, steps: seq<Step>)
    decreases |steps|
  {
    steps != [] ==>
      && Enabled(w, steps[0]) && !(steps[0].Complete? && Buries(w, steps[0].i))
      && NeverBuries(Apply(w, steps[0]), steps[1..])
  }

  lemma {:induction false} RunNumbered(w: World, steps: seq<Step>, last: World)
    requires Inv(w) && Numbered(w) && Runs(w, steps, last)
    ensures Inv(last) && Numbered(last)
    decreases |steps|
  {
    if steps != [] {
      StepKeepsInv(w, steps[0]);
      StepKeepsNumbered(w, steps[0]);
      RunNumbered(Apply(w, steps[0]), steps[1..], last);
    }
  }

  lemma {:induction false} RunStaysSettledExactly(w: World, steps: seq<Step>, last: World)
    requires Inv(w) && Numbered(w) && Settles(w) && Runs(w, steps, last)
    ensures StaysSettled(w, steps) <==> NeverBuries(w, steps)
    ensures NeverBuries(w, steps) ==> Settles(last)
    decreases |steps|
  {
    if steps != [] {
      var next := Apply(w, steps[0]);
      StepKeepsInv(w, steps[0]);
      StepKeepsNumbered(w, steps[0]);
      StepSettlesExactly(w, steps[0]);
      if Settles(next) {
        RunStaysSettledExactly(next, steps[1..], last);
      }
    }
  }

  /** A run from the empty cache keeps the device on its way to the last versions sent exactly when no
      step completes the last write of a block before an earlier one. */
  lemma SettledExactly(capacity: nat, steps: seq<Step>, w: World)
    requires 0 < capacity && Runs(Start(capacity), steps, w)
    ensures StaysSettled(Start(capacity), steps) <==> NeverBuries(Start(capacity), steps)
    ensures NeverBuries(Start(capacity), steps) ==> Settles(w)
  {
    StartInv(capacity);
    RunStaysSettledExactly(Start(capacity), steps, w);
  }

  /** What a run leads to in which no write of a block is buried by an earlier one. */
  ghost predicate ReachableSettled(capacity: nat, w: World) {
    exists steps :: Runs(Start(capacity), steps, w) && NeverBuries(Start(capacity), steps)
  }

  lemma SettledReachable(capacity: nat, w: World)
    requires 0 < capacity && ReachableSettled(capacity, w)
    ensures Inv(w) && Numbered(w) && Settles(w)
  {
    var steps :| Runs(Start(capacity), steps, w) && NeverBuries(Start(capacity), steps);
    StartInv(capacity);
    SettledExactly(capacity, steps, w);
    RunNumbered(Start(capacity), steps, w);
  }

  /** The disk has the last version sent of a block exactly when no write of it is at the device. */
  lemma DiskIsUpToDateExactly(capacity: nat, w: World, lba: nat)
    requires 0 < capacity && ReachableSettled(capacity, w)
    ensures Version(w.disk, lba) == Version(w.sent, lba) <==> WritesNone(w.device, lba)
  {
    SettledReachable(capacity, w);
    var j := FinalWritten(Version(w.disk, lba), w.device, lba);
  }

  /** So a read of a block that the cache does not hold is stale exactly when a write of the block is at
      the device, before or behind it. */
  lemma StaleExactly(capacity: nat, w: World, i: nat)
    requires 0 < capacity && ReachableSettled(capacity, w) && i < |w.device| && w.device[i].ReadBlock?
    requires w.device[i].lba !in w.buffer.cache.entries
    ensures Stale(w, i) <==> !WritesNone(w.device, w.device[i].lba)
  {
    DiskIsUpToDateExactly(capacity, w, w.device[i].lba);
  }

  /** The latest version of a block that is not dirty in the cache is on its way to the disk, and there
      exactly when no write of the block is at the device. */
  lemma LatestIsDurable(capacity: nat, w: World, lba: nat)
    requires 0 < capacity && ReachableSettled(capacity, w)
    requires !(lba in w.buffer.cache.entries && w.buffer.cache.entries[lba].isDirty)
    ensures Final(Version(w.disk, lba), w.device, lba) == Version(w.latest, lba)
    ensures Version(w.disk, lba) == Version(w.latest, lba) <==> WritesNone(w.device, lba)
  {
    SettledReachable(capacity, w);
    assert Kept(w.buffer.cache, w.sent, w.latest, lba);
    DiskIsUpToDateExactly(capacity, w, lba);
  }

  /** A device that works in the order sent never buries a write. */
  lemma {:induction false} InOrderNeverBuries(w: World, steps: seq<Step>, last: World)
    requires Runs(w, steps, last) && forall s :: s in steps && s.Complete? ==> s.i == 0
    ensures NeverBuries(w, steps)
    decreases |steps|
  {
    if steps != [] {
      assert steps[0] in steps;
      InOrderNeverBuries(Apply(w, steps[0]), steps[1..], last);
    }
  }

  // ----- Runs that fail -----

  /** Block 0 is read, written, and evicted before the read completes. */
  function StaleSteps(): seq<Step> {
    [Read(Request(0, 1)), Write(Request(0, 2), false), Write(Request(1, 3), false)]
  }

  /** The read and the write-back are at the device, and the block is not in the cache. */
  predicate AboutToReadStale(w: World, device: seq<DeviceRequest>) {
    && w.device == device && w.disk == map[] && Version(w.sent, 0) == 1 && Version(w.latest, 0) == 1
    && w.buffer.cache == Cache(1, map[1 := Entry(2, true)], [1])
  }

  lemma BeforeStaleRead() returns (w: World)
    ensures Reachable(1, w) && AboutToReadStale(w, [ReadBlock(0), WriteBlock(0, 1, None)])
  {
    var steps := StaleSteps();
    var w1 := Apply(Start(1), steps[0]);
    var w2 := Apply(w1, steps[1]);
    assert w2.buffer.cache == Cache(1, map[0 := Entry(1, true)], [0]);
    w := Apply(w2, steps[2]);
    assert w.buffer.cache.entries == map[1 := Entry(2, true)];
    assert steps[1..][1..] == [steps[2]];
    assert Runs(Start(1), steps, w);
  }

  lemma StaleReadFollows(w: World, device: seq<DeviceRequest>, i: nat)
    requires AboutToReadStale(w, device) && i < |device| && device[i] == ReadBlock(0)
    ensures Stale(w, i) && !Current(Apply(w, Complete(i)))
  {
    ReadInserts(w, i);
  }

  /** The failing run is possible on a device that works in order: the read, sent before the write-back,
      puts the old version into the cache. */
  lemma StaleReadHappens()
    ensures exists w :: Reachable(1, w) && w.device == [ReadBlock(0), WriteBlock(0, 1, None)] &&
                        Stale(w, 0) && !Current(Apply(w, Complete(0)))
  {
    var w := BeforeStaleRead();
    StaleReadFollows(w, w.device, 0);
  }

  lemma BeforeOvertaking() returns (w: World)
    ensures Reachable(1, w) && AboutToReadStale(w, [WriteBlock(0, 1, None), ReadBlock(0)])
  {
    var steps := [Write(Request(0, 1), false), Write(Request(1, 2), false), Read(Request(0, 3))];
    var w1 := Apply(Start(1), steps[0]);
    assert w1.buffer.cache == Cache(1, map[0 := Entry(1, true)], [0]);
    var w2 := Apply(w1, steps[1]);
    assert w2.buffer.cache.entries == map[1 := Entry(2, true)];
    w := Apply(w2, steps[2]);
    assert steps[1..][1..] == [steps[2]];
    assert Runs(Start(1), steps, w);
  }

  /** A read that overtakes the write-back of its block does the same. */
  lemma OvertakingReadHappens()
    ensures exists w :: Reachable(1, w) && w.device == [WriteBlock(0, 1, None), ReadBlock(0)] &&
                        Stale(w, 1) && !Current(Apply(w, Complete(1)))
  {
    var w := BeforeOvertaking();
    StaleReadFollows(w, w.device, 1);
  }

  /** Two write-throughs of a block. */
  function BuryingSteps(): seq<Step> {
    [Write(Request(0, 1), true), Write(Request(0, 2), true), Complete(1), Complete(0)]
  }

  predicate AboutToBury(w: World) {
    && w.device == [WriteBlock(0, 1, Some(1)), WriteBlock(0, 2, Some(2))] && w.disk == map[]
    && w.latest == map[0 := 2] && w.buffer == Buffer(Cache(1, map[0 := Entry(2, false)], [0]), [])
  }

  lemma BeforeBurying() returns (w: World)
    ensures AboutToBury(w) && forall last :: Runs(w, BuryingSteps()[2..], last) ==> Runs(Start(1), BuryingSteps(), last)
  {
    var steps := BuryingSteps();
    var w1 := Apply(Start(1), steps[0]);
    assert w1.buffer.cache == Cache(1, map[0 := Entry(1, false)], [0]);
    w := Apply(w1, steps[1]);
    assert steps[1..][1..] == steps[2..];
  }

  /** When they complete in the opposite order, the older one ends up on the disk, with nothing left to
      do and the newer one marked clean. */
  lemma OvertakenWriteIsLost()
    ensures exists w :: Reachable(1, w) && w.device == [] && w.buffer.cache.entries == map[0 := Entry(2, false)] &&
                        Version(w.disk, 0) == 1 && Version(w.latest, 0) == 2
  {
    var w := BeforeBurying();
    var steps := BuryingSteps();
    var w3 := Apply(w, steps[2]);
    assert w3.device == [WriteBlock(0, 1, Some(1))];
    var w4 := Apply(w3, steps[3]);
    assert steps[2..] == [steps[2], steps[3]] && steps[2..][1..] == [steps[3]];
    assert Runs(w, steps[2..], w4);
    assert Reachable(1, w4);
  }
}
