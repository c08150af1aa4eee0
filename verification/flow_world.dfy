/** One client flow and one server flow joined by the network and the server's storage.
    Messages in flight are bags (sequences from which any element may be delivered next), so a
    run is any interleaving of deliveries, storage completions, flow starts and finish messages. */
module FlowWorld {
  import opened Arithmetic
  import opened Sequences
  import opened FileRegions
  import opened DataTypeLayouts
  import opened DataFlows

  /** A flow object: not yet created, registered with the job manager, or deleted by it. */
  datatype Life = Unborn | Live | Deleted

  /** `queued` counts finish messages scheduled and not yet handled, `sent` those handled. */
  datatype Endpoint<S> = Endpoint(life: Life, flow: S, queued: nat, sent: nat)

  /** `Fault` is a failed assertion or the use of a flow that does not exist (any more). */
  datatype World =
    | Fault
    | World(client: Endpoint<ClientState>, server: Endpoint<ServerState>,
            pushes: seq<nat>, acks: seq<nat>, loads: seq<nat>, stores: seq<nat>)

  datatype Step =
    | StartPartner
    | DeliverPush(i: nat)
    | DeliverAck(i: nat)
    | CompleteLoad(i: nat)
    | CompleteStore(i: nat)
    | HandleClientFinish
    | HandleServerFinish

  // ----- Bags of message sizes -----

  lemma {:induction false} SumWithout(bag: seq<nat>, i: nat)
    requires i < |bag|
    ensures Sum(Without(bag, i)) == Sum(bag) - bag[i]
  {
    if i == 0 {
      assert Without(bag, 0) == bag[1..];
    } else {
      SumWithout(bag[1..], i - 1);
      assert Without(bag, i)[1..] == Without(bag[1..], i - 1);
    }
  }

  lemma SumPositive(bag: seq<nat>, bound: nat)
    requires Chunks(bag, bound)
    ensures |bag| <= Sum(bag)
  {
  }

  ghost predicate Chunks(bag: seq<nat>, bound: nat) {
    forall i :: 0 <= i < |bag| ==> 0 < bag[i] <= bound
  }

  // ----- The step relation -----

  function Emit(w: World, out: Emission): World
    requires w.World?
  {
    w.(pushes := Add(w.pushes, out.pushes), acks := Add(w.acks, out.acks),
       loads := Add(w.loads, out.loads), stores := Add(w.stores, out.stores))
  }

  function Finishing<S>(e: Endpoint<S>, flow: S, finish: bool): Endpoint<S> {
    e.(flow := flow, queued := e.queued + if finish then 1 else 0)
  }

  function CreateClient(cfg: Config, w: World): World
    requires w.World?
  {
    var (flow, out) := ClientInitialize(cfg, CLIENT_NEW, cfg.numBuffers);
    Emit(w.(client := Endpoint(Live, flow, 0, 0)), out)
  }

  function CreateServer(cfg: Config, w: World): World
    requires w.World?
  {
    var (flow, out) := ServerInitialize(cfg, SERVER_NEW, cfg.numBuffers);
    Emit(w.(server := Endpoint(Live, flow, 0, 0)), out)
  }

  /** A write starts the server's flow first and the client's on the server's response;
      a read starts the client's flow before the request is sent to the server. */
  function Initial(cfg: Config): World {
    var nobody := World(Endpoint(Unborn, CLIENT_NEW, 0, 0), Endpoint(Unborn, SERVER_NEW, 0, 0), [], [], [], []);
    if cfg.mode.WriteMode? then CreateServer(cfg, nobody) else CreateClient(cfg, nobody)
  }

  function ToClient(cfg: Config, w: World, msg: Message): World
    requires w.World?
  {
    if !w.client.life.Live? || (msg.PushRequest? && !w.server.life.Live?)
       || w.client.flow.amountPushed > cfg.size then Fault
    else
      var (flow, out, finish) := ClientHandle(cfg, w.client.flow, msg);
      Emit(w.(client := Finishing(w.client, flow, finish)), out)
  }

  function ToServer(cfg: Config, w: World, msg: Message): World
    requires w.World?
  {
    if !w.server.life.Live? || (msg.PushRequest? && !w.client.life.Live?)
       || !SliceInRange(cfg, w.server.flow, msg) then Fault
    else
      var (flow, out, finish) := ServerHandle(cfg, w.server.flow, msg);
      Emit(w.(server := Finishing(w.server, flow, finish)), out)
  }

  function HandleFinish<S>(e: Endpoint<S>): Endpoint<S>
    requires 0 < e.queued
  {
    e.(life := Deleted, queued := e.queued - 1, sent := e.sent + 1)
  }

  predicate Enabled(cfg: Config, w: World, step: Step) {
    w.World? &&
    match step
    case StartPartner => (if cfg.mode.WriteMode? then w.client.life else w.server.life).Unborn?
    case DeliverPush(i) => i < |w.pushes|
    case DeliverAck(i) => i < |w.acks|
    case CompleteLoad(i) => i < |w.loads|
    case CompleteStore(i) => i < |w.stores|
    case HandleClientFinish => 0 < w.client.queued
    case HandleServerFinish => 0 < w.server.queued
  }

  function PushArrives(cfg: Config, w: World, i: nat): World
    requires w.World? && i < |w.pushes|
  {
    var rest := w.(pushes := Without(w.pushes, i));
    if cfg.mode.WriteMode? then ToServer(cfg, rest, PushRequest(w.pushes[i]))
    else ToClient(cfg, rest, PushRequest(w.pushes[i]))
  }

  function AckArrives(cfg: Config, w: World, i: nat): World
    requires w.World? && i < |w.acks|
  {
    var rest := w.(acks := Without(w.acks, i));
    if cfg.mode.WriteMode? then ToClient(cfg, rest, PushResponse(w.acks[i]))
    else ToServer(cfg, rest, PushResponse(w.acks[i]))
  }

  function LoadCompletes(cfg: Config, w: World, i: nat): World
    requires w.World? && i < |w.loads|
  {
    ToServer(cfg, w.(loads := Without(w.loads, i)), ReadResponse(w.loads[i]))
  }

  function StoreCompletes(cfg: Config, w: World, i: nat): World
    requires w.World? && i < |w.stores|
  {
    ToServer(cfg, w.(stores := Without(w.stores, i)), WriteResponse(w.stores[i]))
  }

  function Apply(cfg: Config, w: World, step: Step): World
    requires Enabled(cfg, w, step)
  {
    match step
    case StartPartner => if cfg.mode.WriteMode? then CreateClient(cfg, w) else CreateServer(cfg, w)
    case DeliverPush(i) => PushArrives(cfg, w, i)
    case DeliverAck(i) => AckArrives(cfg, w, i)
    case CompleteLoad(i) => LoadCompletes(cfg, w, i)
    case CompleteStore(i) => StoreCompletes(cfg, w, i)
    case HandleClientFinish => if w.client.life.Live? then w.(client := HandleFinish(w.client)) else Fault
    case HandleServerFinish => if w.server.life.Live? then w.(server := HandleFinish(w.server)) else Fault
  }

  /** `w` is reached from `first` by performing `steps` in order. */
  ghost predicate Run(cfg: Config, first: World, steps: seq<Step>, w: World)
    decreases |steps|
  {
    if steps == [] then w == first
    else Enabled(cfg, first, steps[0]) && Run(cfg, Apply(cfg, first, steps[0]), steps[1..], w)
  }

  // ----- The invariant -----

  ghost predicate LifeCycle<S>(e: Endpoint<S>, complete: bool) {
    && e.queued + e.sent == (if complete then 1 else 0)
    && (e.life.Deleted? <==> e.sent == 1)
    && (e.life.Unborn? ==> !complete)
  }

  ghost predicate Endpoints(cfg: Config, w: World) {
    && w.World?
    && LifeCycle(w.client, w.client.flow.Complete(cfg))
    && LifeCycle(w.server, w.server.flow.Complete(cfg))
    && Chunks(w.pushes, cfg.bufferSize) && Chunks(w.acks, cfg.bufferSize)
    && Chunks(w.loads, cfg.bufferSize) && Chunks(w.stores, cfg.bufferSize)
  }

  ghost predicate WriteInv(cfg: Config, w: World)
    requires w.World?
  {
    var (c, s) := (w.client.flow, w.server.flow);
    && !w.server.life.Unborn?
    && w.loads == [] && s.pullOffset == 0
    && (w.client.life.Unborn? ==> c == CLIENT_NEW && w.pushes == [] && w.acks == [])
    && c.amountPushed <= cfg.size
    && c.amountPushed == c.network + Sum(w.pushes) + Sum(w.acks)
    && c.storage == c.network
    && s.network == c.network + Sum(w.acks)
    && s.pushOffset == s.network == s.storage + Sum(w.stores)
    && |w.pushes| + |w.acks| <= cfg.numBuffers
    && (!w.client.life.Unborn? && c.amountPushed < cfg.size ==> |w.pushes| + |w.acks| == cfg.numBuffers)
  }

  ghost predicate ReadInv(cfg: Config, w: World)
    requires w.World?
  {
    var (c, s) := (w.client.flow, w.server.flow);
    && !w.client.life.Unborn?
    && w.stores == [] && s.pushOffset == 0 && c.amountPushed == 0
    && (w.server.life.Unborn? ==> s == SERVER_NEW && w.loads == [] && w.pushes == [] && w.acks == [])
    && s.pullOffset <= cfg.size
    && s.pullOffset == s.storage + Sum(w.loads)
    && s.storage == s.network + Sum(w.pushes) + Sum(w.acks)
    && c.network == s.network + Sum(w.acks)
    && c.storage == c.network
    && |w.loads| + |w.pushes| + |w.acks| <= cfg.numBuffers
    && (!w.server.life.Unborn? && s.pullOffset < cfg.size
        ==> |w.loads| + |w.pushes| + |w.acks| == cfg.numBuffers)
  }

  ghost predicate Inv(cfg: Config, w: World) {
    Endpoints(cfg, w) && if cfg.mode.WriteMode? then WriteInv(cfg, w) else ReadInv(cfg, w)
  }

  /** The chunks one side sends when its flow starts with `credits` buffers. */
  ghost predicate Spent(cfg: Config, credits: nat, sent: seq<nat>) {
    && Sum(sent) <= cfg.size && Chunks(sent, cfg.bufferSize) && |sent| <= credits
    && (Sum(sent) < cfg.size ==> |sent| == credits)
  }

  /** What one more credit of `bufferSize` bytes sends after `first`. */
  function Credit(cfg: Config, first: seq<nat>): seq<nat>
    requires Sum(first) <= cfg.size
  {
    var chunk := Min(cfg.bufferSize, cfg.size - Sum(first));
    if 0 < chunk then [chunk] else []
  }

  lemma CreditSpent(cfg: Config, credits: nat, first: seq<nat>)
    requires cfg.Valid() && Spent(cfg, credits, first)
    ensures Spent(cfg, credits + 1, Add(first, Credit(cfg, first)))
    ensures Sum(Add(first, Credit(cfg, first))) == Sum(first) + Min(cfg.bufferSize, cfg.size - Sum(first))
  {
    BagAdd(first, Min(cfg.bufferSize, cfg.size - Sum(first)));
  }

  /** The buffers the bytes from number `offset` on are cut into; known before the flow starts. */
  function Cuts(cfg: Config, offset: nat): seq<nat>
    requires 0 < cfg.bufferSize
    decreases cfg.size - offset
  {
    if cfg.size <= offset then []
    else
      var chunk: nat := Min(cfg.size - offset, cfg.bufferSize);
      [chunk] + Cuts(cfg, offset + chunk)
  }

  /** Chunks cut off the front, in order. */
  ghost predicate CutsFirst(cfg: Config, sent: seq<nat>)
    requires 0 < cfg.bufferSize
  {
    Cuts(cfg, 0) == sent + Cuts(cfg, Sum(sent))
  }

  lemma CreditCuts(cfg: Config, first: seq<nat>)
    requires cfg.Valid() && Sum(first) <= cfg.size && CutsFirst(cfg, first)
    ensures CutsFirst(cfg, Add(first, Credit(cfg, first)))
  {
    var chunk: nat := Min(cfg.bufferSize, cfg.size - Sum(first));
    if 0 < chunk {
      BagAdd(first, chunk);
      AddIsConcat(first, [chunk]);
      Associative(first, [chunk], Cuts(cfg, Sum(first) + chunk));
    }
  }

  lemma AddIsConcat(bag: seq<nat>, more: seq<nat>)
    ensures Add(bag, more) == bag + more
  {
  }

  lemma ClientSpendsOne(cfg: Config, credits: nat, first: seq<nat>)
    requires cfg.Valid() && cfg.mode.WriteMode? && Spent(cfg, credits, first)
    requires ClientInitialize(cfg, CLIENT_NEW, credits) == (ClientState(Sum(first), 0, 0), NOTHING.(pushes := first))
    ensures ClientInitialize(cfg, CLIENT_NEW, credits + 1) ==
            (ClientState(Sum(first) + Min(cfg.bufferSize, cfg.size - Sum(first)), 0, 0),
             NOTHING.(pushes := Add(first, Credit(cfg, first))))
  {
  }

  lemma {:induction false} ClientSpendsCredits(cfg: Config, credits: nat) returns (sent: seq<nat>)
    requires cfg.Valid() && cfg.mode.WriteMode?
    ensures Spent(cfg, credits, sent) && CutsFirst(cfg, sent)
    ensures ClientInitialize(cfg, CLIENT_NEW, credits) == (ClientState(Sum(sent), 0, 0), NOTHING.(pushes := sent))
    decreases credits
  {
    if credits == 0 {
      sent := [];
    } else {
      var first := ClientSpendsCredits(cfg, credits - 1);
      sent := Add(first, Credit(cfg, first));
      CreditSpent(cfg, credits - 1, first);
      CreditCuts(cfg, first);
      ClientSpendsOne(cfg, credits - 1, first);
    }
  }

  lemma ServerSpendsOne(cfg: Config, credits: nat, first: seq<nat>)
    requires cfg.Valid() && cfg.mode.ReadMode? && Spent(cfg, credits, first)
    requires ServerInitialize(cfg, SERVER_NEW, credits) == (ServerState(Sum(first), 0, 0, 0), NOTHING.(loads := first))
    ensures ServerInitialize(cfg, SERVER_NEW, credits + 1) ==
            (ServerState(Sum(first) + Min(cfg.bufferSize, cfg.size - Sum(first)), 0, 0, 0),
             NOTHING.(loads := Add(first, Credit(cfg, first))))
  {
  }

  lemma {:induction false} ServerSpendsCredits(cfg: Config, credits: nat) returns (sent: seq<nat>)
    requires cfg.Valid() && cfg.mode.ReadMode?
    ensures Spent(cfg, credits, sent) && CutsFirst(cfg, sent)
    ensures ServerInitialize(cfg, SERVER_NEW, credits) == (ServerState(Sum(sent), 0, 0, 0), NOTHING.(loads := sent))
    decreases credits
  {
    if credits == 0 {
      sent := [];
    } else {
      var first := ServerSpendsCredits(cfg, credits - 1);
      sent := Add(first, Credit(cfg, first));
      CreditSpent(cfg, credits - 1, first);
      CreditCuts(cfg, first);
      ServerSpendsOne(cfg, credits - 1, first);
    }
  }

  /** The first flow of a request waits: initialising it sends nothing. */
  lemma {:induction false} FirstFlowWaits(cfg: Config, credits: nat)
    ensures cfg.mode.WriteMode? ==> ServerInitialize(cfg, SERVER_NEW, credits) == (SERVER_NEW, NOTHING)
    ensures cfg.mode.ReadMode? ==> ClientInitialize(cfg, CLIENT_NEW, credits) == (CLIENT_NEW, NOTHING)
  {
    if credits != 0 {
      FirstFlowWaits(cfg, credits - 1);
    }
  }

  lemma InvInitially(cfg: Config)
    requires cfg.Valid()
    ensures Inv(cfg, Initial(cfg))
  {
    FirstFlowWaits(cfg, cfg.numBuffers);
  }

  lemma InvStartClient(cfg: Config, w: World)
    requires cfg.Valid() && cfg.mode.WriteMode? && Inv(cfg, w) && w.client.life.Unborn?
    ensures Inv(cfg, CreateClient(cfg, w))
  {
    var sent := ClientSpendsCredits(cfg, cfg.numBuffers);
  }

  lemma InvStartServer(cfg: Config, w: World)
    requires cfg.Valid() && cfg.mode.ReadMode? && Inv(cfg, w) && w.server.life.Unborn?
    ensures Inv(cfg, CreateServer(cfg, w))
  {
    var sent := ServerSpendsCredits(cfg, cfg.numBuffers);
  }

  /** Taking one message out of a bag and adding at most one to another. */
  lemma BagFacts(bag: seq<nat>, i: nat, bound: nat)
    requires i < |bag| && Chunks(bag, bound)
    ensures 0 < bag[i] <= bound && Sum(bag) == Sum(Without(bag, i)) + bag[i]
    ensures Chunks(Without(bag, i), bound) && |Without(bag, i)| == |bag| - 1
  {
    SumWithout(bag, i);
  }

  lemma BagAdd(bag: seq<nat>, n: nat)
    ensures Sum(Add(bag, [n])) == Sum(bag) + n
    ensures |Add(bag, [n])| == |bag| + 1
    ensures forall bound :: Chunks(bag, bound) && 0 < n <= bound ==> Chunks(Add(bag, [n]), bound)
  {
    SumConcat(bag, [n]);
    assert [n][1..] == [];
    assert bag == [] ==> bag + [n] == [n];
  }

  lemma InvPushArrives(cfg: Config, w: World, i: nat)
    requires cfg.Valid() && Inv(cfg, w) && i < |w.pushes|
    ensures Inv(cfg, PushArrives(cfg, w, i))
  {
    BagFacts(w.pushes, i, cfg.bufferSize);
    BagAdd(w.acks, w.pushes[i]);
    BagAdd(w.stores, w.pushes[i]);
  }

  lemma InvWriteAckArrives(cfg: Config, w: World, i: nat)
    requires cfg.Valid() && cfg.mode.WriteMode? && Inv(cfg, w) && i < |w.acks|
    ensures Inv(cfg, AckArrives(cfg, w, i))
  {
    BagFacts(w.acks, i, cfg.bufferSize);
    BagAdd(w.pushes, Min(cfg.bufferSize, cfg.size - w.client.flow.amountPushed));
  }

  lemma InvReadAckArrives(cfg: Config, w: World, i: nat)
    requires cfg.Valid() && cfg.mode.ReadMode? && Inv(cfg, w) && i < |w.acks|
    ensures Inv(cfg, AckArrives(cfg, w, i))
  {
    BagFacts(w.acks, i, cfg.bufferSize);
    BagAdd(w.loads, Min(cfg.size - w.server.flow.pullOffset, cfg.bufferSize));
  }

  lemma InvLoadCompletes(cfg: Config, w: World, i: nat)
    requires cfg.Valid() && Inv(cfg, w) && i < |w.loads|
    ensures Inv(cfg, LoadCompletes(cfg, w, i))
  {
    BagFacts(w.loads, i, cfg.bufferSize);
    BagAdd(w.pushes, w.loads[i]);
  }

  lemma InvStoreCompletes(cfg: Config, w: World, i: nat)
    requires cfg.Valid() && Inv(cfg, w) && i < |w.stores|
    ensures Inv(cfg, StoreCompletes(cfg, w, i))
  {
    BagFacts(w.stores, i, cfg.bufferSize);
  }

  lemma InvPreserved(cfg: Config, w: World, step: Step)
    requires cfg.Valid() && Inv(cfg, w) && Enabled(cfg, w, step)
    ensures Inv(cfg, Apply(cfg, w, step))
  {
    match step
    case StartPartner => if cfg.mode.WriteMode? { InvStartClient(cfg, w); } else { InvStartServer(cfg, w); }
    case DeliverPush(i) => InvPushArrives(cfg, w, i);
    case DeliverAck(i) =>
      if cfg.mode.WriteMode? { InvWriteAckArrives(cfg, w, i); }
      else { InvReadAckArrives(cfg, w, i); }
    case CompleteLoad(i) => InvLoadCompletes(cfg, w, i);
    case CompleteStore(i) => InvStoreCompletes(cfg, w, i);
    case HandleClientFinish =>
    case HandleServerFinish =>
  }

  lemma {:induction false} InvAlongRun(cfg: Config, first: World, steps: seq<Step>, w: World)
    requires cfg.Valid() && Inv(cfg, first) && Run(cfg, first, steps, w)
    ensures Inv(cfg, w)
    decreases |steps|
  {
    if steps != [] {
      InvPreserved(cfg, first, steps[0]);
      InvAlongRun(cfg, Apply(cfg, first, steps[0]), steps[1..], w);
    }
  }

  // ----- Safety of every reachable state -----

  ghost predicate Reachable(cfg: Config, w: World) {
    exists steps :: Run(cfg, Initial(cfg), steps, w)
  }

  lemma InvReachable(cfg: Config, w: World)
    requires cfg.Valid() && Reachable(cfg, w)
    ensures Inv(cfg, w)
  {
    var steps :| Run(cfg, Initial(cfg), steps, w);
    InvInitially(cfg);
    InvAlongRun(cfg, Initial(cfg), steps, w);
  }

  /** Conservation and the window of a write: every byte the client pushed is in flight as data, in
      flight as an acknowledgement, or acknowledged; every byte received is with storage or stored. */
  lemma WriteConservation(cfg: Config, w: World)
    requires cfg.Valid() && cfg.mode.WriteMode? && Reachable(cfg, w)
    ensures w.World?
    ensures w.client.flow.amountPushed == w.client.flow.network + Sum(w.pushes) + Sum(w.acks) <= cfg.size
    ensures w.server.flow.network == w.client.flow.network + Sum(w.acks)
    ensures w.server.flow.pushOffset == w.server.flow.network == w.server.flow.storage + Sum(w.stores)
    ensures |w.pushes| + |w.acks| <= cfg.numBuffers
    ensures w.client.life.Live? && w.client.flow.amountPushed < cfg.size
            ==> |w.pushes| + |w.acks| == cfg.numBuffers
  {
    InvReachable(cfg, w);
  }

  /** The mirror image for a read, whose window also covers the reads outstanding at storage. */
  lemma ReadConservation(cfg: Config, w: World)
    requires cfg.Valid() && cfg.mode.ReadMode? && Reachable(cfg, w)
    ensures w.World?
    ensures w.server.flow.pullOffset == w.server.flow.storage + Sum(w.loads) <= cfg.size
    ensures w.server.flow.storage == w.server.flow.network + Sum(w.pushes) + Sum(w.acks)
    ensures w.client.flow.network == w.client.flow.storage == w.server.flow.network + Sum(w.acks)
    ensures |w.loads| + |w.pushes| + |w.acks| <= cfg.numBuffers
    ensures w.server.life.Live? && w.server.flow.pullOffset < cfg.size
            ==> |w.loads| + |w.pushes| + |w.acks| == cfg.numBuffers
  {
    InvReachable(cfg, w);
  }

  /** What may still be addressed to each flow. */
  function InboxOfClient(cfg: Config, w: World): seq<nat>
    requires w.World?
  {
    if cfg.mode.WriteMode? then w.acks else w.pushes
  }

  function InboxOfServer(cfg: Config, w: World): seq<nat>
    requires w.World?
  {
    (if cfg.mode.WriteMode? then w.pushes else w.acks) + w.loads + w.stores
  }

  /** Each flow schedules its finish at most once, exactly when its totals are complete, and nothing
      can reach it from then on; a message in flight always finds both of its ends alive. */
  lemma FinishIsSafe(cfg: Config, w: World)
    requires cfg.Valid() && Reachable(cfg, w)
    ensures w.World?
    ensures w.client.queued + w.client.sent == (if w.client.flow.Complete(cfg) then 1 else 0)
    ensures w.server.queued + w.server.sent == (if w.server.flow.Complete(cfg) then 1 else 0)
    ensures w.client.flow.Complete(cfg) ==> InboxOfClient(cfg, w) == []
    ensures w.server.flow.Complete(cfg) ==> InboxOfServer(cfg, w) == []
    ensures InboxOfClient(cfg, w) != [] ==> w.client.life.Live?
    ensures InboxOfServer(cfg, w) != [] ==> w.server.life.Live?
    ensures w.pushes != [] ==> w.client.life.Live? && w.server.life.Live?
  {
    InvReachable(cfg, w);
    SumPositive(w.pushes, cfg.bufferSize);
    SumPositive(w.acks, cfg.bufferSize);
    SumPositive(w.loads, cfg.bufferSize);
    SumPositive(w.stores, cfg.bufferSize);
  }

  // ----- Progress and termination -----

  ghost predicate Finished(w: World) {
    w.World? && w.client.life.Deleted? && w.server.life.Deleted?
  }

  /** Deadlock freedom: until both flows are gone, some event is deliverable. */
  lemma SomeStepEnabled(cfg: Config, w: World) returns (step: Step)
    requires cfg.Valid() && Inv(cfg, w) && !Finished(w)
    ensures Enabled(cfg, w, step)
  {
    if (if cfg.mode.WriteMode? then w.client.life else w.server.life).Unborn? {
      step := StartPartner;
    } else if w.pushes != [] {
      step := DeliverPush(0);
    } else if w.acks != [] {
      step := DeliverAck(0);
    } else if w.loads != [] {
      step := CompleteLoad(0);
    } else if w.stores != [] {
      step := CompleteStore(0);
    } else if !w.client.life.Deleted? {
      step := HandleClientFinish;
    } else {
      step := HandleServerFinish;
    }
  }

  /** Bytes not yet issued weigh more than any message, and a message more than those it causes. */
  function Measure(cfg: Config, w: World): int
    requires w.World?
  {
    var unborn := (if w.client.life.Unborn? then 1 else 0) + (if w.server.life.Unborn? then 1 else 0);
    var finishes := w.client.queued + w.server.queued;
    unborn + finishes +
    if cfg.mode.WriteMode?
    then 10 * (cfg.size - w.client.flow.amountPushed) + 8 * |w.pushes| + 3 * |w.acks| + 3 * |w.stores|
    else 10 * (cfg.size - w.server.flow.pullOffset) + 8 * |w.loads| + 6 * |w.pushes| + 3 * |w.acks|
  }

  lemma StartDecreases(cfg: Config, w: World)
    requires cfg.Valid() && Inv(cfg, w) && Enabled(cfg, w, StartPartner)
    ensures var next := Apply(cfg, w, StartPartner); next.World? && Measure(cfg, next) < Measure(cfg, w)
  {
    if cfg.mode.WriteMode? {
      var sent := ClientSpendsCredits(cfg, cfg.numBuffers);
      SumPositive(sent, cfg.bufferSize);
    } else {
      var sent := ServerSpendsCredits(cfg, cfg.numBuffers);
      SumPositive(sent, cfg.bufferSize);
    }
  }

  lemma PushDecreases(cfg: Config, w: World, i: nat)
    requires cfg.Valid() && Inv(cfg, w) && i < |w.pushes|
    ensures var next := PushArrives(cfg, w, i); next.World? ==> Measure(cfg, next) < Measure(cfg, w)
  {
  }

  lemma AckDecreases(cfg: Config, w: World, i: nat)
    requires cfg.Valid() && Inv(cfg, w) && i < |w.acks|
    ensures var next := AckArrives(cfg, w, i); next.World? ==> Measure(cfg, next) < Measure(cfg, w)
  {
  }

  lemma StorageDecreases(cfg: Config, w: World, step: Step)
    requires cfg.Valid() && Inv(cfg, w) && Enabled(cfg, w, step) && (step.CompleteLoad? || step.CompleteStore?)
    ensures var next := Apply(cfg, w, step); next.World? ==> Measure(cfg, next) < Measure(cfg, w)
  {
  }

  lemma MeasureDecreases(cfg: Config, w: World, step: Step)
    requires cfg.Valid() && Inv(cfg, w) && Enabled(cfg, w, step)
    ensures Inv(cfg, Apply(cfg, w, step))
    ensures 0 <= Measure(cfg, Apply(cfg, w, step)) < Measure(cfg, w)
  {
    InvPreserved(cfg, w, step);
    match step
    case StartPartner => StartDecreases(cfg, w);
    case DeliverPush(i) => PushDecreases(cfg, w, i);
    case DeliverAck(i) => AckDecreases(cfg, w, i);
    case CompleteLoad(i) => StorageDecreases(cfg, w, step);
    case CompleteStore(i) => StorageDecreases(cfg, w, step);
    case HandleClientFinish =>
    case HandleServerFinish =>
  }

  lemma {:induction false} RunIsBounded(cfg: Config, first: World, steps: seq<Step>, w: World)
    requires cfg.Valid() && Inv(cfg, first) && Run(cfg, first, steps, w)
    ensures w.World? && |steps| <= |steps| + Measure(cfg, w) <= Measure(cfg, first)
    decreases |steps|
  {
    if steps != [] {
      MeasureDecreases(cfg, first, steps[0]);
      RunIsBounded(cfg, Apply(cfg, first, steps[0]), steps[1..], w);
    }
  }

  lemma NobodyLeftMeansComplete(cfg: Config, w: World)
    requires cfg.Valid() && Reachable(cfg, w) && Finished(w)
    ensures w.client.flow.Complete(cfg) && w.server.flow.Complete(cfg)
    ensures w.client.sent == 1 && w.server.sent == 1 && w.client.queued == 0 && w.server.queued == 0
    ensures w.pushes == [] && w.acks == [] && w.loads == [] && w.stores == []
  {
    InvReachable(cfg, w);
    FinishIsSafe(cfg, w);
  }

  lemma InitialMeasure(cfg: Config)
    requires cfg.Valid()
    ensures Measure(cfg, Initial(cfg)) == 10 * cfg.size + 1
  {
    FirstFlowWaits(cfg, cfg.numBuffers);
  }

  lemma RunLength(cfg: Config, steps: seq<Step>, w: World)
    requires cfg.Valid() && Run(cfg, Initial(cfg), steps, w)
    ensures w.World? && |steps| <= 10 * cfg.size + 1
  {
    InvInitially(cfg);
    RunIsBounded(cfg, Initial(cfg), steps, w);
    InitialMeasure(cfg);
  }

  lemma StuckIffFinished(cfg: Config, w: World)
    requires cfg.Valid() && Reachable(cfg, w)
    ensures (forall step :: !Enabled(cfg, w, step)) <==> Finished(w)
  {
    InvReachable(cfg, w);
    if Finished(w) {
      NobodyLeftMeansComplete(cfg, w);
    } else {
      var step := SomeStepEnabled(cfg, w);
      assert Enabled(cfg, w, step);
    }
  }

  /** Every run is shorter than a bound fixed by the size of the flow, and a run that cannot be
      continued has moved every byte on both sides, left nothing in flight, and finished each flow
      exactly once. */
  lemma EveryRunCompletes(cfg: Config, steps: seq<Step>, w: World)
    requires cfg.Valid() && Run(cfg, Initial(cfg), steps, w)
    ensures |steps| <= 10 * cfg.size + 1
    ensures w.World?
    ensures (forall step :: !Enabled(cfg, w, step)) <==> Finished(w)
    ensures Finished(w) ==>
              && w.client.flow.network == w.client.flow.storage == cfg.size
              && w.server.flow.network == w.server.flow.storage == cfg.size
              && w.client.sent == 1 && w.server.sent == 1
              && w.pushes == [] && w.acks == [] && w.loads == [] && w.stores == []
  {
    assert Reachable(cfg, w);
    StuckIffFinished(cfg, w);
    RunLength(cfg, steps, w);
    if Finished(w) {
      NobodyLeftMeansComplete(cfg, w);
    }
  }

  // ----- The buffers a flow needs -----

  /** Nothing but empty messages is in flight, and none at all when there are no buffers. */
  ghost predicate Idle(cfg: Config, w: World) {
    w.World? ==>
      && w.client.flow == CLIENT_NEW && w.client.queued == 0 && !w.client.life.Deleted?
      && w.server.flow == SERVER_NEW && w.server.queued == 0 && !w.server.life.Deleted?
      && Empties(cfg, w.pushes) && Empties(cfg, w.acks) && Empties(cfg, w.loads) && Empties(cfg, w.stores)
  }

  ghost predicate Empties(cfg: Config, bag: seq<nat>) {
    && (0 < cfg.bufferSize ==> bag == [])
    && forall i :: 0 <= i < |bag| ==> bag[i] == 0
  }

  lemma {:induction false} IdleInitialize(cfg: Config, credits: nat)
    requires cfg.bufferSize == 0 || credits == 0
    ensures ClientInitialize(cfg, CLIENT_NEW, credits) == (CLIENT_NEW, NOTHING)
    ensures var (st, out) := ServerInitialize(cfg, SERVER_NEW, credits);
            st == SERVER_NEW && out == NOTHING.(loads := out.loads) && Empties(cfg, out.loads)
    decreases credits
  {
    if credits != 0 {
      IdleInitialize(cfg, credits - 1);
    }
  }

  lemma IdleMessage(cfg: Config, w: World, msg: Message)
    requires w.World? && 0 < cfg.size && (cfg.bufferSize == 0 || cfg.numBuffers == 0) && Idle(cfg, w)
    requires cfg.bufferSize == 0
    requires msg in {PushRequest(0), PushResponse(0), ReadResponse(0), WriteResponse(0)}
    ensures Idle(cfg, ToClient(cfg, w, msg)) && Idle(cfg, ToServer(cfg, w, msg))
  {
  }

  lemma IdleStep(cfg: Config, w: World, step: Step)
    requires 0 < cfg.size && (cfg.bufferSize == 0 || cfg.numBuffers == 0)
    requires Idle(cfg, w) && Enabled(cfg, w, step)
    ensures Idle(cfg, Apply(cfg, w, step))
  {
    match step
    case StartPartner => IdleInitialize(cfg, cfg.numBuffers);
    case DeliverPush(i) => IdleMessage(cfg, w.(pushes := Without(w.pushes, i)), PushRequest(0));
    case DeliverAck(i) => IdleMessage(cfg, w.(acks := Without(w.acks, i)), PushResponse(0));
    case CompleteLoad(i) => IdleMessage(cfg, w.(loads := Without(w.loads, i)), ReadResponse(0));
    case CompleteStore(i) => IdleMessage(cfg, w.(stores := Without(w.stores, i)), WriteResponse(0));
    case HandleClientFinish =>
    case HandleServerFinish =>
  }

  lemma {:induction false} IdleAlongRun(cfg: Config, first: World, steps: seq<Step>, w: World)
    requires 0 < cfg.size && (cfg.bufferSize == 0 || cfg.numBuffers == 0)
    requires Idle(cfg, first) && Run(cfg, first, steps, w)
    ensures Idle(cfg, w)
    decreases |steps|
  {
    if steps != [] {
      IdleStep(cfg, first, steps[0]);
      IdleAlongRun(cfg, Apply(cfg, first, steps[0]), steps[1..], w);
    }
  }

  lemma {:induction false} RunToTheEnd(cfg: Config, first: World) returns (steps: seq<Step>, w: World)
    requires cfg.Valid() && Inv(cfg, first)
    ensures Run(cfg, first, steps, w) && Finished(w)
    decreases Measure(cfg, first)
  {
    if Finished(first) {
      steps, w := [], first;
    } else {
      var step := SomeStepEnabled(cfg, first);
      MeasureDecreases(cfg, first, step);
      var rest, last := RunToTheEnd(cfg, Apply(cfg, first, step));
      steps, w := [step] + rest, last;
      assert steps[1..] == rest;
    }
  }

  ghost predicate RunsToTheEnd(cfg: Config, steps: seq<Step>, w: World) {
    Run(cfg, Initial(cfg), steps, w) && Finished(w)
  }

  /** A flow can finish exactly when the job manager was given at least one buffer of at least one
      byte; otherwise it sends nothing, or exchanges empty messages for ever. */
  lemma CanFinishIffBuffered(cfg: Config)
    requires 0 < cfg.size
    ensures (exists steps, w :: RunsToTheEnd(cfg, steps, w))
            <==> 0 < cfg.bufferSize && 0 < cfg.numBuffers
  {
    if cfg.Valid() {
      InvInitially(cfg);
      var steps, w := RunToTheEnd(cfg, Initial(cfg));
      assert RunsToTheEnd(cfg, steps, w);
    } else {
      IdleInitialize(cfg, cfg.numBuffers);
      forall steps, w | Run(cfg, Initial(cfg), steps, w) ensures !Finished(w) {
        IdleAlongRun(cfg, Initial(cfg), steps, w);
      }
    }
  }
}
