/** The two ends of a data flow: the memory flow of a client and the list-I/O flow of a server.
    Every handler is a function from the flow's fields and one message to the new fields and what
    is sent; the classes at the end of the file update the fields in place and refine it. */
module DataFlows {
  import opened Arithmetic
  import opened Sequences
  import opened FileRegions
  import opened DataTypeLayouts

  datatype Mode = ReadMode | WriteMode

  /** What both ends agree on: the number of bytes to move, the buffer size and the number of buffers. */
  datatype Config = Config(mode: Mode, size: nat, bufferSize: nat, numBuffers: nat) {
    ghost predicate Valid() {
      0 < size && 0 < bufferSize && 0 < numBuffers
    }
  }

  datatype Message =
    | PushRequest(dataSize: nat)
    | PushResponse(receivedSize: nat)
    | ReadResponse(bytesRead: nat)
    | WriteResponse(bytesWritten: nat)

  /** What one handler sends: data and acknowledgements to the partner, reads and writes to storage. */
  datatype Emission = Emission(pushes: seq<nat>, acks: seq<nat>, loads: seq<nat>, stores: seq<nat>) {
    function Then(later: Emission): Emission {
      Emission(Add(pushes, later.pushes), Add(acks, later.acks), Add(loads, later.loads), Add(stores, later.stores))
    }
  }

  /** Concatenation, with both units visible to the verifier. */
  function Add(bag: seq<nat>, more: seq<nat>): seq<nat> {
    if more == [] then bag else if bag == [] then more else bag + more
  }

  const NOTHING := Emission([], [], [], [])

  // ----- The client's memory flow -----

  datatype ClientState = ClientState(amountPushed: nat, network: nat, storage: nat) {
    predicate Complete(cfg: Config) {
      cfg.size == network && cfg.size == storage
    }
  }

  const CLIENT_NEW := ClientState(0, 0, 0)

  function ClientPushNext(cfg: Config, st: ClientState): (ClientState, Emission)
    requires st.amountPushed <= cfg.size
  {
    var chunk := Min(cfg.bufferSize, cfg.size - st.amountPushed);
    if 0 < chunk
    then (st.(amountPushed := st.amountPushed + chunk), NOTHING.(pushes := [chunk]))
    else (st, NOTHING)
  }

  function ClientStart(cfg: Config, st: ClientState): (ClientState, Emission)
    requires st.amountPushed <= cfg.size
  {
    if cfg.mode.WriteMode? then ClientPushNext(cfg, st) else (st, NOTHING)
  }

  function ClientInitialize(cfg: Config, st: ClientState, credits: nat): (r: (ClientState, Emission))
    requires st.amountPushed <= cfg.size
    ensures r.0.amountPushed <= cfg.size
    decreases credits
  {
    if credits == 0 then (st, NOTHING)
    else
      var (mid, first) := ClientInitialize(cfg, st, credits - 1);
      var (last, more) := ClientStart(cfg, mid);
      (last, first.Then(more))
  }

  /** The third result says whether the finish message is scheduled. */
  function ClientHandle(cfg: Config, st: ClientState, msg: Message): (ClientState, Emission, bool)
    requires st.amountPushed <= cfg.size
  {
    var (next, out) := match msg
      case PushRequest(n) =>
        (st.(network := st.network + n, storage := st.storage + n), NOTHING.(acks := [n]))
      case PushResponse(n) =>
        ClientPushNext(cfg, st.(network := st.network + n, storage := st.storage + n))
      case _ => (st, NOTHING);
    (next, out, next.Complete(cfg))
  }

  // ----- The server's list-I/O flow -----

  datatype ServerState = ServerState(pullOffset: nat, pushOffset: nat, network: nat, storage: nat) {
    predicate Complete(cfg: Config) {
      cfg.size == network && cfg.size == storage
    }
  }

  const SERVER_NEW := ServerState(0, 0, 0, 0)

  function ServerPullNext(cfg: Config, st: ServerState): (ServerState, Emission) {
    if st.pullOffset < cfg.size
    then
      var chunk := Min(cfg.size - st.pullOffset, cfg.bufferSize);
      (st.(pullOffset := st.pullOffset + chunk), NOTHING.(loads := [chunk]))
    else (st, NOTHING)
  }

  function ServerStart(cfg: Config, st: ServerState): (ServerState, Emission) {
    if cfg.mode.ReadMode? then ServerPullNext(cfg, st) else (st, NOTHING)
  }

  function ServerInitialize(cfg: Config, st: ServerState, credits: nat): (ServerState, Emission)
    decreases credits
  {
    if credits == 0 then (st, NOTHING)
    else
      var (mid, first) := ServerInitialize(cfg, st, credits - 1);
      var (last, more) := ServerStart(cfg, mid);
      (last, first.Then(more))
  }

  /** The assertions of the layout slicer on the bytes about to be written. */
  predicate SliceInRange(cfg: Config, st: ServerState, msg: Message) {
    msg.PushRequest? ==> st.pushOffset < cfg.size && st.pushOffset + msg.dataSize <= cfg.size
  }

  function ServerHandle(cfg: Config, st: ServerState, msg: Message): (ServerState, Emission, bool)
    requires SliceInRange(cfg, st, msg)
  {
    var (next, out) := match msg
      case PushRequest(n) =>
        (st.(network := st.network + n, pushOffset := st.pushOffset + n), NOTHING.(acks := [n], stores := [n]))
      case PushResponse(n) => ServerPullNext(cfg, st.(network := st.network + n))
      case ReadResponse(n) => (st.(storage := st.storage + n), NOTHING.(pushes := [n]))
      case WriteResponse(n) => (st.(storage := st.storage + n), NOTHING);
    (next, out, next.Complete(cfg))
  }

  // ----- The flows as the objects the job manager holds -----

  class MemoryDataFlow {
    const config: Config
    var amountPushed: nat
    var networkTransferTotal: nat
    var storageTransferTotal: nat

    ghost predicate Valid()
      reads this
    {
      amountPushed <= config.size
    }

    ghost function State(): ClientState
      reads this
    {
      ClientState(amountPushed, networkTransferTotal, storageTransferTotal)
    }

    constructor (config: Config)
      ensures Valid() && this.config == config && State() == CLIENT_NEW
    {
      this.config := config;
      amountPushed, networkTransferTotal, storageTransferTotal := 0, 0, 0;
    }

    method PushDataToNetwork(pushSize: nat) returns (out: Emission)
      requires 0 < pushSize
      modifies this`amountPushed
      ensures amountPushed == old(amountPushed) + pushSize
      ensures out == NOTHING.(pushes := [pushSize])
    {
      out := NOTHING.(pushes := [pushSize]);
      amountPushed := amountPushed + pushSize;
    }

    method StartTransfer() returns (out: Emission)
      requires Valid()
      modifies this
      ensures Valid() && (State(), out) == ClientStart(config, old(State()))
    {
      out := NOTHING;
      if config.mode.WriteMode? {
        var bufSize := Min(config.bufferSize, config.size - amountPushed);
        if 0 < bufSize {
          out := PushDataToNetwork(bufSize);
        }
      }
    }

    method Initialize() returns (out: Emission)
      requires Valid()
      modifies this
      ensures Valid() && (State(), out) == ClientInitialize(config, old(State()), config.numBuffers)
    {
      out := NOTHING;
      ghost var before := State();
      for i := 0 to config.numBuffers
        invariant Valid()
        invariant (State(), out) == ClientInitialize(config, before, i)
      {
        var more := StartTransfer();
        out := out.Then(more);
      }
    }

    method ProcessDataFlowMessage(msg: Message) returns (out: Emission, finish: bool)
      requires Valid()
      modifies this
      ensures Valid() && (State(), out, finish) == ClientHandle(config, old(State()), msg)
    {
      out := NOTHING;
      if msg.PushRequest? {
        out := NOTHING.(acks := [msg.dataSize]);
        networkTransferTotal := networkTransferTotal + msg.dataSize;
        storageTransferTotal := storageTransferTotal + msg.dataSize;
      } else if msg.PushResponse? {
        networkTransferTotal := networkTransferTotal + msg.receivedSize;
        storageTransferTotal := storageTransferTotal + msg.receivedSize;
        var bufSize := Min(config.bufferSize, config.size - amountPushed);
        if 0 != bufSize {
          out := PushDataToNetwork(bufSize);
        }
      }
      finish := config.size == networkTransferTotal && config.size == storageTransferTotal;
    }
  }

  /** The recorded size of a stream after regions have been written. */
  function StreamSize(size: int, regions: seq<FileRegion>): int {
    if regions == [] then size
    else
      var n := |regions| - 1;
      Max(regions[n].End(), StreamSize(size, regions[..n]))
  }

  /** The size is the least one that is no smaller than the old one and reaches the end of every region. */
  ghost predicate ReachesEnds(before: int, regions: seq<FileRegion>, size: int) {
    && before <= size && (forall r :: r in regions ==> r.End() <= size)
    && (size == before || exists r :: r in regions && r.End() == size)
  }

  lemma {:induction false} StreamSizeReachesEnds(before: int, regions: seq<FileRegion>)
    ensures ReachesEnds(before, regions, StreamSize(before, regions))
  {
    if regions != [] {
      var n := |regions| - 1;
      StreamSizeReachesEnds(before, regions[..n]);
      assert regions == regions[..n] + [regions[n]];
    }
  }

  class ListIODataFlow {
    const config: Config
    const layout: DataTypeLayout
    var pullSubregionOffset: nat
    var pushSubregionOffset: nat
    var networkTransferTotal: nat
    var storageTransferTotal: nat
    var bstreamSize: int

    /** The size of the flow is the length of the layout. */
    ghost predicate Valid()
      reads this, layout
    {
      config.size == Length(layout.fileRegions)
    }

    ghost function State(): ServerState
      reads this
    {
      ServerState(pullSubregionOffset, pushSubregionOffset, networkTransferTotal, storageTransferTotal)
    }

    constructor (config: Config, layout: DataTypeLayout, bstreamSize: int)
      requires config.size == Length(layout.fileRegions)
      ensures Valid() && this.config == config && this.layout == layout
      ensures State() == SERVER_NEW && this.bstreamSize == bstreamSize
    {
      this.config := config;
      this.layout := layout;
      pullSubregionOffset, pushSubregionOffset := 0, 0;
      networkTransferTotal, storageTransferTotal := 0, 0;
      this.bstreamSize := bstreamSize;
    }

    /** Asks storage for the next slice of the layout. */
    method PullDataFromStorage(pullSize: nat) returns (out: Emission, requests: seq<seq<FileRegion>>)
      requires Valid() && pullSize == config.bufferSize
      modifies this`pullSubregionOffset
      ensures Valid() && (State(), out) == ServerPullNext(config, old(State()))
      ensures Slices(layout.fileRegions, old(pullSubregionOffset), out.loads, requests)
      ensures pullSubregionOffset == old(pullSubregionOffset) + Sum(out.loads)
    {
      out, requests := NOTHING, [];
      if pullSubregionOffset < config.size {
        var bufferSize := Min(config.size - pullSubregionOffset, pullSize);
        var regions := layout.GetSubRegions(pullSubregionOffset, bufferSize);
        pullSubregionOffset := pullSubregionOffset + bufferSize;
        out, requests := NOTHING.(loads := [bufferSize]), [regions];
      }
    }

    /** Writes the next slice of the layout and records how far the stream goes. */
    method PushDataToStorage(pushSize: nat) returns (regions: seq<FileRegion>)
      requires Valid() && pushSubregionOffset < config.size && pushSubregionOffset + pushSize <= config.size
      modifies this`pushSubregionOffset, this`bstreamSize
      ensures Valid() && pushSubregionOffset == old(pushSubregionOffset) + pushSize
      ensures IsSlice(layout.fileRegions, old(pushSubregionOffset), pushSize, regions)
      ensures bstreamSize == StreamSize(old(bstreamSize), regions)
      ensures ReachesEnds(old(bstreamSize), regions, bstreamSize)
    {
      regions := layout.GetSubRegions(pushSubregionOffset, pushSize);
      pushSubregionOffset := pushSubregionOffset + pushSize;
      for i := 0 to |regions|
        invariant pushSubregionOffset == old(pushSubregionOffset) + pushSize
        invariant bstreamSize == StreamSize(old(bstreamSize), regions[..i])
      {
        assert regions[..i + 1][..i] == regions[..i];
        UpdateBstreamSize(regions[i].End());
      }
      assert regions[..|regions|] == regions;
      StreamSizeReachesEnds(old(bstreamSize), regions);
    }

    method UpdateBstreamSize(lastByteOffset: int)
      modifies this`bstreamSize
      ensures bstreamSize == Max(lastByteOffset, old(bstreamSize))
    {
      bstreamSize := Max(lastByteOffset, bstreamSize);
    }

    method StartTransfer() returns (out: Emission, requests: seq<seq<FileRegion>>)
      requires Valid()
      modifies this`pullSubregionOffset
      ensures Valid() && (State(), out) == ServerStart(config, old(State()))
      ensures Slices(layout.fileRegions, old(pullSubregionOffset), out.loads, requests)
      ensures pullSubregionOffset == old(pullSubregionOffset) + Sum(out.loads)
    {
      out, requests := NOTHING, [];
      if config.mode.ReadMode? {
        out, requests := PullDataFromStorage(config.bufferSize);
      }
    }

    method Initialize() returns (out: Emission, requests: seq<seq<FileRegion>>)
      requires Valid()
      modifies this`pullSubregionOffset
      ensures Valid() && (State(), out) == ServerInitialize(config, old(State()), config.numBuffers)
      ensures Slices(layout.fileRegions, old(pullSubregionOffset), out.loads, requests)
    {
      out, requests := NOTHING, [];
      ghost var before, s := State(), layout.fileRegions;
      for i := 0 to config.numBuffers
        invariant Valid() && (State(), out) == ServerInitialize(config, before, i)
        invariant layout.fileRegions == s && pullSubregionOffset == before.pullOffset + Sum(out.loads)
        invariant Slices(s, before.pullOffset, out.loads, requests)
      {
        ghost var offset := pullSubregionOffset;
        var more, moreRequests := StartTransfer();
        SlicesThen(s, before.pullOffset, offset, out, requests, more, moreRequests);
        out, requests := out.Then(more), requests + moreRequests;
      }
    }

    /** A write asks storage to store the next slice, an acknowledgement pulls the next one. */
    method ProcessDataFlowMessage(msg: Message)
      returns (out: Emission, finish: bool, requests: seq<seq<FileRegion>>)
      requires Valid() && SliceInRange(config, State(), msg)
      modifies this
      ensures Valid() && (State(), out, finish) == ServerHandle(config, old(State()), msg)
      ensures if msg.PushRequest? then Slices(layout.fileRegions, old(pushSubregionOffset), out.stores, requests)
              else Slices(layout.fileRegions, old(pullSubregionOffset), out.loads, requests)
      ensures bstreamSize == StreamSize(old(bstreamSize), if msg.PushRequest? then Concat(requests) else [])
      ensures if msg.PushRequest? then ReachesEnds(old(bstreamSize), Concat(requests), bstreamSize)
              else bstreamSize == old(bstreamSize)
    {
      out, requests := NOTHING, [];
      match msg {
        case PushRequest(n) =>
          networkTransferTotal := networkTransferTotal + n;
          var regions := PushDataToStorage(n);
          out, requests := NOTHING.(acks := [n], stores := [n]), [regions];
          assert Concat(requests) == regions;
        case PushResponse(n) =>
          networkTransferTotal := networkTransferTotal + n;
          out, requests := PullDataFromStorage(config.bufferSize);
        case ReadResponse(n) =>
          storageTransferTotal := storageTransferTotal + n;
          out := NOTHING.(pushes := [n]);
        case WriteResponse(n) =>
          storageTransferTotal := storageTransferTotal + n;
      }
      finish := config.size == networkTransferTotal && config.size == storageTransferTotal;
    }
  }

  lemma SlicesThen(s: seq<FileRegion>, o: nat, mid: nat, out: Emission, requests: seq<seq<FileRegion>>,
                   more: Emission, moreRequests: seq<seq<FileRegion>>)
    requires Slices(s, o, out.loads, requests) && Slices(s, mid, more.loads, moreRequests)
    requires mid == o + Sum(out.loads)
    ensures Slices(s, o, out.Then(more).loads, requests + moreRequests)
    ensures Sum(out.Then(more).loads) == Sum(out.loads) + Sum(more.loads)
  {
    SlicesAdd(s, o, out.loads, requests, more.loads, moreRequests);
  }

  lemma SlicesAdd(s: seq<FileRegion>, o: nat, a: seq<nat>, ra: seq<seq<FileRegion>>,
                  b: seq<nat>, rb: seq<seq<FileRegion>>)
    requires Slices(s, o, a, ra) && Slices(s, o + Sum(a), b, rb)
    ensures Slices(s, o, Add(a, b), ra + rb) && Sum(Add(a, b)) == Sum(a) + Sum(b)
  {
    SlicesConcat(s, o, a, ra, b, rb);
    SumConcat(a, b);
    if b == [] {
      assert ra + rb == ra;
    } else if a == [] {
      assert ra + rb == rb;
    }
  }
}
