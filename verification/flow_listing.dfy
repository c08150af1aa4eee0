/** Which regions of its layout a whole flow asks of storage. */
module FlowListings {
  import opened Arithmetic
  import opened Sequences
  import opened FileRegions
  import opened DataTypeLayouts
  import opened DataFlows
  import opened FlowWorld

  // ----- The storage requests of a whole flow -----

  /** What the server's handler sends when it is given a message. */
  function ServerSends(cfg: Config, w: World, msg: Message): Emission
    requires w.World?
  {
    if SliceInRange(cfg, w.server.flow, msg) then ServerHandle(cfg, w.server.flow, msg).1 else NOTHING
  }

  function ServerEmission(cfg: Config, w: World, step: Step): Emission
    requires Enabled(cfg, w, step)
  {
    match step
    case StartPartner =>
      if cfg.mode.ReadMode? then ServerInitialize(cfg, SERVER_NEW, cfg.numBuffers).1 else NOTHING
    case DeliverPush(i) => if cfg.mode.WriteMode? then ServerSends(cfg, w, PushRequest(w.pushes[i])) else NOTHING
    case DeliverAck(i) => if cfg.mode.ReadMode? then ServerSends(cfg, w, PushResponse(w.acks[i])) else NOTHING
    case CompleteLoad(i) => ServerSends(cfg, w, ReadResponse(w.loads[i]))
    case CompleteStore(i) => ServerSends(cfg, w, WriteResponse(w.stores[i]))
    case HandleClientFinish => NOTHING
    case HandleServerFinish => NOTHING
  }

  /** The sizes of the storage operations the server asks for in a step, in order. */
  function Issued(cfg: Config, w: World, step: Step): seq<nat>
    requires Enabled(cfg, w, step)
  {
    var out := ServerEmission(cfg, w, step);
    Add(out.loads, out.stores)
  }

  function IssuedAlong(cfg: Config, first: World, steps: seq<Step>, w: World): seq<nat>
    requires Run(cfg, first, steps, w)
    decreases |steps|
  {
    if steps == [] then []
    else Issued(cfg, first, steps[0]) + IssuedAlong(cfg, Apply(cfg, first, steps[0]), steps[1..], w)
  }

  /** How far in its layout the server is. */
  function LayoutOffset(w: World): nat
    requires w.World?
  {
    w.server.flow.pullOffset + w.server.flow.pushOffset
  }

  lemma StartIssues(cfg: Config, w: World)
    requires cfg.Valid() && Inv(cfg, w) && Enabled(cfg, w, StartPartner)
    ensures var next := Apply(cfg, w, StartPartner);
            next.World? && LayoutOffset(next) == LayoutOffset(w) + Sum(Issued(cfg, w, StartPartner))
  {
    if cfg.mode.ReadMode? {
      var sent := ServerSpendsCredits(cfg, cfg.numBuffers);
    }
  }

  lemma PushIssues(cfg: Config, w: World, i: nat)
    requires cfg.Valid() && Inv(cfg, w) && i < |w.pushes|
    ensures var next := PushArrives(cfg, w, i);
            next.World? ==> LayoutOffset(next) == LayoutOffset(w) + Sum(Issued(cfg, w, DeliverPush(i)))
  {
  }

  lemma AckIssues(cfg: Config, w: World, i: nat)
    requires cfg.Valid() && Inv(cfg, w) && i < |w.acks|
    ensures var next := AckArrives(cfg, w, i);
            next.World? ==> LayoutOffset(next) == LayoutOffset(w) + Sum(Issued(cfg, w, DeliverAck(i)))
  {
  }

  lemma StorageIssues(cfg: Config, w: World, step: Step)
    requires cfg.Valid() && Inv(cfg, w) && Enabled(cfg, w, step) && (step.CompleteLoad? || step.CompleteStore?)
    ensures var next := Apply(cfg, w, step);
            next.World? ==> LayoutOffset(next) == LayoutOffset(w) && Issued(cfg, w, step) == []
  {
  }

  lemma FinishIssues(cfg: Config, w: World, step: Step)
    requires Enabled(cfg, w, step) && (step.HandleClientFinish? || step.HandleServerFinish?)
    ensures var next := Apply(cfg, w, step);
            next.World? ==> LayoutOffset(next) == LayoutOffset(w) && Issued(cfg, w, step) == []
  {
  }

  lemma StepIssues(cfg: Config, w: World, step: Step)
    requires cfg.Valid() && Inv(cfg, w) && Enabled(cfg, w, step)
    ensures Inv(cfg, Apply(cfg, w, step))
    ensures LayoutOffset(Apply(cfg, w, step)) == LayoutOffset(w) + Sum(Issued(cfg, w, step))
  {
    InvPreserved(cfg, w, step);
    match step {
      case StartPartner => StartIssues(cfg, w);
      case DeliverPush(i) => PushIssues(cfg, w, i);
      case DeliverAck(i) => AckIssues(cfg, w, i);
      case CompleteLoad(_) => StorageIssues(cfg, w, step);
      case CompleteStore(_) => StorageIssues(cfg, w, step);
      case HandleClientFinish => FinishIssues(cfg, w, step);
      case HandleServerFinish => FinishIssues(cfg, w, step);
    }
  }

  /** Each request is for the bytes right after those of the requests before it. */
  lemma {:induction false} IssuedInOrder(cfg: Config, first: World, steps: seq<Step>, w: World)
    requires cfg.Valid() && Inv(cfg, first) && Run(cfg, first, steps, w)
    ensures w.World? && LayoutOffset(w) == LayoutOffset(first) + Sum(IssuedAlong(cfg, first, steps, w))
    decreases |steps|
  {
    if steps != [] {
      var next := Apply(cfg, first, steps[0]);
      StepIssues(cfg, first, steps[0]);
      IssuedInOrder(cfg, next, steps[1..], w);
      SumConcat(Issued(cfg, first, steps[0]), IssuedAlong(cfg, next, steps[1..], w));
    }
  }

  lemma FinishedIssuedAll(cfg: Config, steps: seq<Step>, w: World)
    requires cfg.Valid() && Run(cfg, Initial(cfg), steps, w) && Finished(w)
    ensures Sum(IssuedAlong(cfg, Initial(cfg), steps, w)) == cfg.size
  {
    InvInitially(cfg);
    FirstFlowWaits(cfg, cfg.numBuffers);
    IssuedInOrder(cfg, Initial(cfg), steps, w);
    assert Reachable(cfg, w);
    InvReachable(cfg, w);
    NobodyLeftMeansComplete(cfg, w);
  }

  // ----- What is asked of storage, known before the flow starts -----

  /** The sizes not yet asked of storage: in flight to the server of a write, or still to be cut. */
  function Ahead(cfg: Config, w: World): seq<nat>
    requires 0 < cfg.bufferSize && w.World?
  {
    if cfg.mode.WriteMode? then w.pushes + Cuts(cfg, w.client.flow.amountPushed)
    else Cuts(cfg, w.server.flow.pullOffset)
  }

  /** A step asks storage for the next sizes ahead, or for the one it delivers to the server of a write. */
  ghost predicate Takes(cfg: Config, w: World, step: Step, next: World)
    requires 0 < cfg.bufferSize && Enabled(cfg, w, step) && next.World?
  {
    if cfg.mode.WriteMode? && step.DeliverPush? then
      && step.i < |Ahead(cfg, w)| && Issued(cfg, w, step) == [Ahead(cfg, w)[step.i]]
      && Ahead(cfg, next) == Without(Ahead(cfg, w), step.i)
    else Ahead(cfg, w) == Issued(cfg, w, step) + Ahead(cfg, next)
  }

  lemma StartTakes(cfg: Config, w: World)
    requires cfg.Valid() && Inv(cfg, w) && Enabled(cfg, w, StartPartner)
    ensures var next := Apply(cfg, w, StartPartner); next.World? && Takes(cfg, w, StartPartner, next)
  {
    if cfg.mode.ReadMode? {
      var sent := ServerSpendsCredits(cfg, cfg.numBuffers);
    } else {
      var sent := ClientSpendsCredits(cfg, cfg.numBuffers);
      assert w.pushes + Cuts(cfg, 0) == Cuts(cfg, 0);
    }
  }

  lemma PushTakes(cfg: Config, w: World, i: nat)
    requires cfg.Valid() && Inv(cfg, w) && i < |w.pushes|
    ensures var next := PushArrives(cfg, w, i); next.World? ==> Takes(cfg, w, DeliverPush(i), next)
  {
    if cfg.mode.WriteMode? {
      var cuts := Cuts(cfg, w.client.flow.amountPushed);
      assert Without(w.pushes + cuts, i) == Without(w.pushes, i) + cuts;
    }
  }

  lemma AckTakes(cfg: Config, w: World, i: nat)
    requires cfg.Valid() && Inv(cfg, w) && i < |w.acks|
    ensures var next := AckArrives(cfg, w, i); next.World? ==> Takes(cfg, w, DeliverAck(i), next)
  {
    if cfg.mode.WriteMode? {
      var pushed := w.client.flow.amountPushed;
      var chunk: nat := Min(cfg.bufferSize, cfg.size - pushed);
      if 0 < chunk {
        AddIsConcat(w.pushes, [chunk]);
        Associative(w.pushes, [chunk], Cuts(cfg, pushed + chunk));
      }
    }
  }

  lemma StorageTakes(cfg: Config, w: World, step: Step)
    requires cfg.Valid() && Inv(cfg, w) && Enabled(cfg, w, step) && (step.CompleteLoad? || step.CompleteStore?)
    ensures var next := Apply(cfg, w, step); next.World? ==> Takes(cfg, w, step, next)
  {
  }

  lemma StepTakes(cfg: Config, w: World, step: Step)
    requires cfg.Valid() && Inv(cfg, w) && Enabled(cfg, w, step)
    ensures Inv(cfg, Apply(cfg, w, step)) && Takes(cfg, w, step, Apply(cfg, w, step))
  {
    InvPreserved(cfg, w, step);
    match step {
      case StartPartner => StartTakes(cfg, w);
      case DeliverPush(i) => PushTakes(cfg, w, i);
      case DeliverAck(i) => AckTakes(cfg, w, i);
      case CompleteLoad(_) => StorageTakes(cfg, w, step);
      case CompleteStore(_) => StorageTakes(cfg, w, step);
      case HandleClientFinish =>
      case HandleServerFinish =>
    }
  }

  /** The chunks of a write are delivered in the order sent. */
  predicate DeliversInOrder(cfg: Config, steps: seq<Step>) {
    cfg.mode.WriteMode? ==> forall s :: s in steps && s.DeliverPush? ==> s.i == 0
  }

  lemma TakesFirst(cfg: Config, w: World, step: Step, next: World)
    requires cfg.Valid() && Enabled(cfg, w, step) && next.World? && Takes(cfg, w, step, next)
    requires cfg.mode.WriteMode? && step.DeliverPush? ==> step.i == 0
    ensures Ahead(cfg, w) == Issued(cfg, w, step) + Ahead(cfg, next)
  {
  }

  lemma {:induction false} RunTakesInOrder(cfg: Config, first: World, steps: seq<Step>, w: World)
    requires cfg.Valid() && Inv(cfg, first) && Run(cfg, first, steps, w) && DeliversInOrder(cfg, steps)
    ensures w.World? && Ahead(cfg, first) == IssuedAlong(cfg, first, steps, w) + Ahead(cfg, w)
    decreases |steps|
  {
    if steps == [] {
      assert [] + Ahead(cfg, w) == Ahead(cfg, w);
    } else {
      var next := Apply(cfg, first, steps[0]);
      StepTakes(cfg, first, steps[0]);
      assert steps[0] in steps;
      TakesFirst(cfg, first, steps[0], next);
      RunTakesInOrder(cfg, next, steps[1..], w);
      Associative(Issued(cfg, first, steps[0]), IssuedAlong(cfg, next, steps[1..], w), Ahead(cfg, w));
    }
  }

  lemma TakesOne(cfg: Config, w: World, step: Step, next: World)
    requires cfg.Valid() && Enabled(cfg, w, step) && next.World? && Takes(cfg, w, step, next)
    ensures multiset(Ahead(cfg, w)) == multiset(Issued(cfg, w, step)) + multiset(Ahead(cfg, next))
  {
    if cfg.mode.WriteMode? && step.DeliverPush? {
      var s := Ahead(cfg, w);
      assert s == s[..step.i] + [s[step.i]] + s[step.i + 1..];
    }
  }

  lemma {:induction false} RunTakes(cfg: Config, first: World, steps: seq<Step>, w: World)
    requires cfg.Valid() && Inv(cfg, first) && Run(cfg, first, steps, w)
    ensures w.World?
    ensures multiset(Ahead(cfg, first)) == multiset(IssuedAlong(cfg, first, steps, w)) + multiset(Ahead(cfg, w))
    decreases |steps|
  {
    if steps != [] {
      var next := Apply(cfg, first, steps[0]);
      StepTakes(cfg, first, steps[0]);
      TakesOne(cfg, first, steps[0], next);
      RunTakes(cfg, next, steps[1..], w);
    }
  }

  lemma InitiallyAhead(cfg: Config)
    requires cfg.Valid()
    ensures Inv(cfg, Initial(cfg)) && Ahead(cfg, Initial(cfg)) == Cuts(cfg, 0)
  {
    InvInitially(cfg);
    FirstFlowWaits(cfg, cfg.numBuffers);
  }

  lemma FinallyNothingAhead(cfg: Config, steps: seq<Step>, w: World)
    requires cfg.Valid() && Run(cfg, Initial(cfg), steps, w) && Finished(w)
    ensures Ahead(cfg, w) == []
  {
    assert Reachable(cfg, w);
    InvReachable(cfg, w);
    NobodyLeftMeansComplete(cfg, w);
  }

  lemma {:induction false} CutsEvenly(cfg: Config, offset: nat, n: nat)
    requires 0 < cfg.bufferSize && cfg.size == offset + n * cfg.bufferSize
    ensures forall x :: x in Cuts(cfg, offset) ==> x == cfg.bufferSize
    decreases n
  {
    if 0 < n {
      TimesNext(n - 1, cfg.bufferSize);
      CutsEvenly(cfg, offset + cfg.bufferSize, n - 1);
    }
  }

  lemma CutsAreEqual(cfg: Config)
    requires 0 < cfg.bufferSize && cfg.size % cfg.bufferSize == 0
    ensures forall x :: x in Cuts(cfg, 0) ==> x == cfg.bufferSize
  {
    CutsEvenly(cfg, 0, Quot(cfg.size, cfg.bufferSize));
  }

  lemma AllEqual(a: seq<nat>, b: seq<nat>, x: nat)
    requires multiset(a) == multiset(b) && forall y :: y in b ==> y == x
    ensures a == b
  {
    assert |a| == |multiset(a)| == |b|;
    forall i | 0 <= i < |a| ensures a[i] == b[i] {
      assert a[i] in multiset(a) && a[i] in multiset(b) && a[i] in b && b[i] in b;
    }
  }

  lemma TakesAll(cfg: Config, first: World, steps: seq<Step>, w: World)
    requires cfg.Valid() && Inv(cfg, first) && Run(cfg, first, steps, w) && w.World? && Ahead(cfg, w) == []
    ensures multiset(IssuedAlong(cfg, first, steps, w)) == multiset(Ahead(cfg, first))
    ensures DeliversInOrder(cfg, steps) ==> IssuedAlong(cfg, first, steps, w) == Ahead(cfg, first)
  {
    RunTakes(cfg, first, steps, w);
    if DeliversInOrder(cfg, steps) {
      RunTakesInOrder(cfg, first, steps, w);
    }
  }

  /** Whatever the order of deliveries, a finished flow has asked storage for the sizes it was cut into;
      in that order when it reads, when all of them are equal, or when a write's chunks arrive in order. */
  lemma EveryFlowIssuesCuts(cfg: Config, steps: seq<Step>, w: World)
    requires cfg.Valid() && Run(cfg, Initial(cfg), steps, w) && Finished(w)
    ensures multiset(IssuedAlong(cfg, Initial(cfg), steps, w)) == multiset(Cuts(cfg, 0))
    ensures cfg.size % cfg.bufferSize == 0 || DeliversInOrder(cfg, steps) ==>
              IssuedAlong(cfg, Initial(cfg), steps, w) == Cuts(cfg, 0)
  {
    var first := Initial(cfg);
    InitiallyAhead(cfg);
    FinallyNothingAhead(cfg, steps, w);
    TakesAll(cfg, first, steps, w);
    if cfg.size % cfg.bufferSize == 0 {
      CutsAreEqual(cfg);
      AllEqual(IssuedAlong(cfg, first, steps, w), Cuts(cfg, 0), cfg.bufferSize);
    }
  }

  /** What the server's handlers return along a run: in each step the slices of the layout that
      `ListIODataFlow.Initialize` and `ProcessDataFlowMessage` promise. */
  ghost predicate Requested(cfg: Config, first: World, steps: seq<Step>, w: World, layout: seq<FileRegion>,
                            calls: seq<seq<seq<FileRegion>>>)
    requires Run(cfg, first, steps, w)
    decreases |steps|
  {
    if steps == [] then calls == []
    else
      && calls != [] && first.World?
      && Slices(layout, LayoutOffset(first), Issued(cfg, first, steps[0]), calls[0])
      && Requested(cfg, Apply(cfg, first, steps[0]), steps[1..], w, layout, calls[1..])
  }

  lemma SlicesJoin(layout: seq<FileRegion>, o: nat, a: seq<nat>, next: nat, b: seq<nat>,
                   calls: seq<seq<seq<FileRegion>>>)
    requires calls != [] && Slices(layout, o, a, calls[0]) && Slices(layout, next, b, Concat(calls[1..]))
    requires next == o + Sum(a)
    ensures Slices(layout, o, a + b, Concat(calls))
  {
    SlicesConcat(layout, o, a, calls[0], b, Concat(calls[1..]));
  }

  lemma {:induction false} RequestsAreSlices(cfg: Config, first: World, steps: seq<Step>, w: World,
                                             layout: seq<FileRegion>, calls: seq<seq<seq<FileRegion>>>)
    requires cfg.Valid() && Inv(cfg, first) && Run(cfg, first, steps, w)
    requires Requested(cfg, first, steps, w, layout, calls)
    ensures Slices(layout, LayoutOffset(first), IssuedAlong(cfg, first, steps, w), Concat(calls))
    decreases |steps|
  {
    if steps != [] {
      var next := Apply(cfg, first, steps[0]);
      StepIssues(cfg, first, steps[0]);
      RequestsAreSlices(cfg, next, steps[1..], w, layout, calls[1..]);
      SlicesJoin(layout, LayoutOffset(first), Issued(cfg, first, steps[0]),
                 LayoutOffset(next), IssuedAlong(cfg, next, steps[1..], w), calls);
    }
  }

  lemma InitialOffset(cfg: Config)
    requires cfg.Valid()
    ensures LayoutOffset(Initial(cfg)) == 0
  {
    FirstFlowWaits(cfg, cfg.numBuffers);
  }

  /** What a finished flow has asked of storage lists the bytes of the layout in order exactly when every
      buffer, in the order issued, starts a region or can be cut exactly inside one. */
  lemma EveryFlowListsIssued(cfg: Config, steps: seq<Step>, w: World, layout: seq<FileRegion>,
                             calls: seq<seq<seq<FileRegion>>>)
    requires cfg.Valid() && Run(cfg, Initial(cfg), steps, w) && Finished(w) && cfg.size == Length(layout)
    requires Requested(cfg, Initial(cfg), steps, w, layout, calls)
    ensures Sum(IssuedAlong(cfg, Initial(cfg), steps, w)) == Length(Concat(Concat(calls))) == Length(layout)
    ensures ListsFrom(layout, 0, Concat(Concat(calls))) <==>
            Sliceable(layout, 0, IssuedAlong(cfg, Initial(cfg), steps, w))
    ensures Apart(layout) ==> (ListsFrom(layout, 0, Concat(Concat(calls))) <==>
                               AllCutWell(layout, 0, IssuedAlong(cfg, Initial(cfg), steps, w)))
  {
    var issued := IssuedAlong(cfg, Initial(cfg), steps, w);
    FinishedIssuedAll(cfg, steps, w);
    InvInitially(cfg);
    InitialOffset(cfg);
    RequestsAreSlices(cfg, Initial(cfg), steps, w, layout, calls);
    SlicesListExactly(layout, 0, issued, Concat(calls));
    if Apart(layout) {
      SlicesListApart(layout, 0, issued, Concat(calls));
    }
  }

  lemma {:induction false} CutsSum(cfg: Config, offset: nat)
    requires 0 < cfg.bufferSize && offset <= cfg.size
    ensures Sum(Cuts(cfg, offset)) == cfg.size - offset && Chunks(Cuts(cfg, offset), cfg.bufferSize)
    decreases cfg.size - offset
  {
    if offset < cfg.size {
      var chunk: nat := Min(cfg.size - offset, cfg.bufferSize);
      CutsSum(cfg, offset + chunk);
      assert Cuts(cfg, offset)[1..] == Cuts(cfg, offset + chunk);
    }
  }

  /** So whether a flow lists its layout is known before it starts: for reads, for writes of whole
      buffers, and for writes delivered in order. */
  lemma EveryFlowListsLayout(cfg: Config, steps: seq<Step>, w: World, layout: seq<FileRegion>,
                             calls: seq<seq<seq<FileRegion>>>)
    requires cfg.Valid() && Run(cfg, Initial(cfg), steps, w) && Finished(w) && cfg.size == Length(layout)
    requires Requested(cfg, Initial(cfg), steps, w, layout, calls)
    requires cfg.size % cfg.bufferSize == 0 || DeliversInOrder(cfg, steps)
    ensures Length(Concat(Concat(calls))) == Length(layout) == Sum(Cuts(cfg, 0))
    ensures ListsFrom(layout, 0, Concat(Concat(calls))) <==> Sliceable(layout, 0, Cuts(cfg, 0))
    ensures Apart(layout) ==> (ListsFrom(layout, 0, Concat(Concat(calls))) <==> AllCutWell(layout, 0, Cuts(cfg, 0)))
    ensures Apart(layout) && AllCutWell(layout, 0, Cuts(cfg, 0)) ==>
              BytesOf(Concat(Concat(calls))) == BytesOf(layout) && Length(layout) == |BytesOf(layout)|
  {
    EveryFlowIssuesCuts(cfg, steps, w);
    EveryFlowListsIssued(cfg, steps, w, layout, calls);
    if Apart(layout) && AllCutWell(layout, 0, Cuts(cfg, 0)) {
      ListedOnce(layout, Concat(Concat(calls)));
    }
  }

  lemma AheadPositive(cfg: Config, w: World)
    requires cfg.Valid() && Inv(cfg, w)
    ensures Chunks(Ahead(cfg, w), cfg.bufferSize)
  {
    CutsSum(cfg, if cfg.mode.WriteMode? then w.client.flow.amountPushed else w.server.flow.pullOffset);
  }

  lemma IssuedPositive(cfg: Config, w: World, step: Step)
    requires cfg.Valid() && Inv(cfg, w) && Enabled(cfg, w, step)
    ensures Chunks(Issued(cfg, w, step), cfg.bufferSize)
  {
    AheadPositive(cfg, w);
    StepTakes(cfg, w, step);
    var issued := Issued(cfg, w, step);
    if !(cfg.mode.WriteMode? && step.DeliverPush?) {
      forall i | 0 <= i < |issued| ensures issued[i] == Ahead(cfg, w)[i] {
      }
    }
  }

  lemma OffsetInLayout(cfg: Config, w: World)
    requires cfg.Valid() && Inv(cfg, w)
    ensures LayoutOffset(w) <= cfg.size
  {
  }

  /** The handlers always have a slice to return. */
  lemma {:induction false} RequestsExist(cfg: Config, first: World, steps: seq<Step>, w: World,
                                         layout: seq<FileRegion>) returns (calls: seq<seq<seq<FileRegion>>>)
    requires cfg.Valid() && Inv(cfg, first) && Run(cfg, first, steps, w) && cfg.size == Length(layout)
    ensures Requested(cfg, first, steps, w, layout, calls)
    decreases |steps|
  {
    if steps == [] {
      calls := [];
    } else {
      var next := Apply(cfg, first, steps[0]);
      StepIssues(cfg, first, steps[0]);
      IssuedPositive(cfg, first, steps[0]);
      OffsetInLayout(cfg, next);
      var call := SlicesExist(layout, LayoutOffset(first), Issued(cfg, first, steps[0]));
      var rest := RequestsExist(cfg, next, steps[1..], w, layout);
      calls := [call] + rest;
      assert calls[1..] == rest;
    }
  }

  /** A read of eight bytes, four and four with a gap between them, through buffers of three bytes. */
  function GapFlow(numBuffers: nat): Config {
    Config(ReadMode, 8, 3, numBuffers)
  }

  function GapLayout(): seq<FileRegion> {
    [FileRegion(0, 4), FileRegion(10, 4)]
  }

  lemma GapIsNotCutWell(numBuffers: nat)
    ensures Apart(GapLayout()) && Length(GapLayout()) == 8
    ensures Cuts(GapFlow(numBuffers), 0) == [3, 3, 2] && !AllCutWell(GapLayout(), 0, [3, 3, 2])
  {
    var cfg, s := GapFlow(numBuffers), GapLayout();
    assert Cuts(cfg, 8) == [];
    assert Cuts(cfg, 6) == [2] + Cuts(cfg, 8);
    assert Cuts(cfg, 3) == [3] + Cuts(cfg, 6);
    assert Cuts(cfg, 0) == [3] + Cuts(cfg, 3);
    assert s[1..] == [s[1]];
    assert Length(s) == 8;
    StartNext(s, 0);
    LocateIs(s, 3, 0);
    assert !CutsWell(s, 3, 3);
    assert [3, 3, 2][1..] == [3, 2];
  }

  /** A finished run and what its handler calls return. */
  ghost predicate Flows(cfg: Config, steps: seq<Step>, w: World, layout: seq<FileRegion>,
                        calls: seq<seq<seq<FileRegion>>>)
  {
    RunsToTheEnd(cfg, steps, w) && Requested(cfg, Initial(cfg), steps, w, layout, calls)
  }

  /** The regions asked of storage hold the bytes of the layout in order. */
  ghost predicate Lists(layout: seq<FileRegion>, calls: seq<seq<seq<FileRegion>>>) {
    Length(Concat(Concat(calls))) == Length(layout) && ListsFrom(layout, 0, Concat(Concat(calls)))
  }

  lemma UncutFlowMisses(cfg: Config, layout: seq<FileRegion>)
    requires cfg.Valid() && cfg.mode.ReadMode? && cfg.size == Length(layout)
    requires Apart(layout) && !AllCutWell(layout, 0, Cuts(cfg, 0))
    ensures exists steps, w, calls :: Flows(cfg, steps, w, layout, calls) && !Lists(layout, calls)
  {
    InvInitially(cfg);
    var steps, w := RunToTheEnd(cfg, Initial(cfg));
    var calls := RequestsExist(cfg, Initial(cfg), steps, w, layout);
    EveryFlowListsLayout(cfg, steps, w, layout, calls);
    assert Flows(cfg, steps, w, layout, calls) && !Lists(layout, calls);
  }

  /** That flow finishes, and does not list its layout. */
  lemma FlowCanMissItsLayout(numBuffers: nat)
    requires 0 < numBuffers
    ensures exists steps, w, calls ::
              Flows(GapFlow(numBuffers), steps, w, GapLayout(), calls) && !Lists(GapLayout(), calls)
  {
    GapIsNotCutWell(numBuffers);
    UncutFlowMisses(GapFlow(numBuffers), GapLayout());
  }

  // ----- Writes whose last chunk is shorter -----

  /** `n` whole buffers. */
  function Wholes(cfg: Config, n: nat): (s: seq<nat>)
    ensures |s| == n
  {
    seq(n, _ => cfg.bufferSize)
  }

  /** `j` whole buffers before the last chunk and `k - j` behind it. */
  function LastAt(cfg: Config, j: nat, k: nat, last: nat): seq<nat>
    requires j <= k
  {
    Wholes(cfg, j) + [last] + Wholes(cfg, k - j)
  }

  lemma {:induction false} UnevenCuts(cfg: Config, offset: nat, k: nat, last: nat)
    requires cfg.size == offset + k * cfg.bufferSize + last && 0 < last < cfg.bufferSize
    ensures Cuts(cfg, offset) == Wholes(cfg, k) + [last]
    decreases k
  {
    if k == 0 {
      assert Cuts(cfg, offset + last) == [];
    } else {
      TimesNext(k - 1, cfg.bufferSize);
      TimesMonotone(0, k - 1, cfg.bufferSize);
      UnevenCuts(cfg, offset + cfg.bufferSize, k - 1, last);
      assert Wholes(cfg, k) == [cfg.bufferSize] + Wholes(cfg, k - 1);
    }
  }

  lemma WithoutWhole(cfg: Config, k: nat, last: nat, i: nat)
    requires i < k
    ensures Without(Wholes(cfg, k) + [last], i) == Wholes(cfg, k - 1) + [last]
    ensures (Wholes(cfg, k) + [last])[i] == cfg.bufferSize
  {
  }

  lemma WithoutLast(cfg: Config, k: nat, last: nat)
    ensures Without(Wholes(cfg, k) + [last], k) == Wholes(cfg, k) && (Wholes(cfg, k) + [last])[k] == last
  {
  }

  lemma OneMoreBefore(cfg: Config, j: nat, k: nat, last: nat)
    requires j < k
    ensures [cfg.bufferSize] + LastAt(cfg, j, k - 1, last) == LastAt(cfg, j + 1, k, last)
  {
    assert Wholes(cfg, j + 1) == [cfg.bufferSize] + Wholes(cfg, j);
  }

  lemma LastInFront(cfg: Config, k: nat, last: nat)
    ensures [last] + Wholes(cfg, k) == LastAt(cfg, 0, k, last)
  {
    assert Wholes(cfg, 0) == [];
  }

  /** The sizes issued along a run of at least one step, given those of the rest. */
  lemma IssuedThen(cfg: Config, first: World, steps: seq<Step>, w: World, issued: seq<nat>, rest: seq<nat>,
                   all: seq<nat>)
    requires steps != [] && Run(cfg, first, steps, w) && Issued(cfg, first, steps[0]) == issued
    requires IssuedAlong(cfg, Apply(cfg, first, steps[0]), steps[1..], w) == rest
    requires all == issued + rest || (issued == [] && all == rest)
    ensures IssuedAlong(cfg, first, steps, w) == all
  {
    assert [] + rest == rest;
  }

  /** Once the last chunk has been issued only whole buffers follow. */
  lemma OnlyWholesLeft(cfg: Config, first: World, steps: seq<Step>, w: World, k: nat)
    requires cfg.Valid() && Inv(cfg, first) && Run(cfg, first, steps, w) && w.World? && Ahead(cfg, w) == []
    requires Ahead(cfg, first) == Wholes(cfg, k)
    ensures IssuedAlong(cfg, first, steps, w) == Wholes(cfg, k)
  {
    TakesAll(cfg, first, steps, w);
    AllEqual(IssuedAlong(cfg, first, steps, w), Wholes(cfg, k), cfg.bufferSize);
  }

  /** What a step does to a write whose last chunk has not been issued: nothing, or it issues a whole
      buffer, or the last chunk, and then the window lets fewer than `numBuffers` fall behind it. */
  ghost predicate StepsTo(cfg: Config, issued: seq<nat>, ahead: seq<nat>, step: Step, k: nat, last: nat) {
    if !step.DeliverPush? then issued == [] && ahead == Wholes(cfg, k) + [last]
    else if step.i < k then issued == [cfg.bufferSize] && ahead == Wholes(cfg, k - 1) + [last]
    else issued == [last] && ahead == Wholes(cfg, k) && k < cfg.numBuffers
  }

  lemma StepBeforeLast(cfg: Config, first: World, step: Step, k: nat, last: nat)
    requires cfg.Valid() && cfg.mode.WriteMode? && Inv(cfg, first) && Enabled(cfg, first, step)
    requires Ahead(cfg, first) == Wholes(cfg, k) + [last]
    ensures Inv(cfg, Apply(cfg, first, step))
    ensures StepsTo(cfg, Issued(cfg, first, step), Ahead(cfg, Apply(cfg, first, step)), step, k, last)
  {
    StepTakes(cfg, first, step);
    if !step.DeliverPush? {
      NothingIssued(cfg, first, step, Apply(cfg, first, step));
    } else if step.i < k {
      WithoutWhole(cfg, k, last, step.i);
    } else {
      WithoutLast(cfg, k, last);
    }
  }

  lemma LastIsIssuedNow(cfg: Config, first: World, steps: seq<Step>, w: World, k: nat, last: nat)
    requires cfg.Valid() && steps != [] && Run(cfg, first, steps, w) && w.World? && Ahead(cfg, w) == []
    requires Inv(cfg, Apply(cfg, first, steps[0])) && Ahead(cfg, Apply(cfg, first, steps[0])) == Wholes(cfg, k)
    requires Issued(cfg, first, steps[0]) == [last]
    ensures IssuedAlong(cfg, first, steps, w) == LastAt(cfg, 0, k, last)
  {
    OnlyWholesLeft(cfg, Apply(cfg, first, steps[0]), steps[1..], w, k);
    LastInFront(cfg, k, last);
    IssuedThen(cfg, first, steps, w, [last], Wholes(cfg, k), LastAt(cfg, 0, k, last));
  }

  lemma {:induction false} LastIsIssuedAt(cfg: Config, first: World, steps: seq<Step>, w: World, k: nat, last: nat)
    returns (j: nat)
    requires cfg.Valid() && cfg.mode.WriteMode? && Inv(cfg, first) && Run(cfg, first, steps, w)
    requires w.World? && Ahead(cfg, w) == [] && Ahead(cfg, first) == Wholes(cfg, k) + [last]
    ensures j <= k < j + cfg.numBuffers && IssuedAlong(cfg, first, steps, w) == LastAt(cfg, j, k, last)
    decreases |steps|
  {
    var step, next := steps[0], Apply(cfg, first, steps[0]);
    StepBeforeLast(cfg, first, step, k, last);
    if !step.DeliverPush? {
      j := LastIsIssuedAt(cfg, next, steps[1..], w, k, last);
      IssuedThen(cfg, first, steps, w, [], LastAt(cfg, j, k, last), LastAt(cfg, j, k, last));
    } else if step.i < k {
      var j' := LastIsIssuedAt(cfg, next, steps[1..], w, k - 1, last);
      OneMoreBefore(cfg, j', k, last);
      j := j' + 1;
      IssuedThen(cfg, first, steps, w, [cfg.bufferSize], LastAt(cfg, j', k - 1, last), LastAt(cfg, j, k, last));
    } else {
      LastIsIssuedNow(cfg, first, steps, w, k, last);
      j := 0;
    }
  }

  lemma NothingIssued(cfg: Config, w: World, step: Step, next: World)
    requires cfg.Valid() && cfg.mode.WriteMode? && Inv(cfg, w) && Enabled(cfg, w, step) && !step.DeliverPush?
    requires next == Apply(cfg, w, step) && next.World? && Takes(cfg, w, step, next)
    ensures Issued(cfg, w, step) == [] && Ahead(cfg, next) == Ahead(cfg, w)
  {
  }

  /** And it may be any number of them up to that. */
  lemma {:induction false} LastCanBeIssuedAt(cfg: Config, first: World, k: nat, last: nat, j: nat)
    returns (steps: seq<Step>, w: World)
    requires cfg.Valid() && cfg.mode.WriteMode? && Inv(cfg, first) && !first.client.life.Unborn?
    requires Ahead(cfg, first) == Wholes(cfg, k) + [last] && j <= k < j + cfg.numBuffers
    ensures Run(cfg, first, steps, w) && Finished(w) && IssuedAlong(cfg, first, steps, w) == LastAt(cfg, j, k, last)
    decreases Measure(cfg, first)
  {
    var step := NextForLast(cfg, first, k, last, j);
    var next := Apply(cfg, first, step);
    StepBeforeLast(cfg, first, step, k, last);
    var rest;
    var issued, after := [], LastAt(cfg, j, k, last);
    if !step.DeliverPush? {
      rest, w := LastCanBeIssuedAt(cfg, next, k, last, j);
    } else if step.i < k {
      rest, w := LastCanBeIssuedAt(cfg, next, k - 1, last, j - 1);
      OneMoreBefore(cfg, j - 1, k, last);
      issued, after := [cfg.bufferSize], LastAt(cfg, j - 1, k - 1, last);
    } else {
      rest, w := RunToTheEnd(cfg, next);
      EndsEmpty(cfg, next, rest, w);
      OnlyWholesLeft(cfg, next, rest, w, k);
      LastInFront(cfg, k, last);
      issued, after := [last], Wholes(cfg, k);
    }
    steps := [step] + rest;
    assert steps[1..] == rest;
    IssuedThen(cfg, first, steps, w, issued, after, LastAt(cfg, j, k, last));
  }

  lemma NextForLast(cfg: Config, w: World, k: nat, last: nat, j: nat) returns (step: Step)
    requires cfg.Valid() && cfg.mode.WriteMode? && Inv(cfg, w) && !w.client.life.Unborn?
    requires Ahead(cfg, w) == Wholes(cfg, k) + [last] && j <= k < j + cfg.numBuffers
    ensures Enabled(cfg, w, step) && var next := Apply(cfg, w, step);
                                     next.World? && !next.client.life.Unborn? && Measure(cfg, next) < Measure(cfg, w)
    ensures step.DeliverAck? || (step.DeliverPush? && step.i == if 0 < j then 0 else k)
  {
    if w.acks != [] {
      step := DeliverAck(0);
    } else {
      PushesSuffice(cfg, w, k, last, j);
      step := DeliverPush(if 0 < j then 0 else k);
    }
    MeasureDecreases(cfg, w, step);
  }

  /** Without acknowledgements to deliver the window is full of data, or all data is in it. */
  lemma PushesSuffice(cfg: Config, w: World, k: nat, last: nat, j: nat)
    requires cfg.Valid() && cfg.mode.WriteMode? && Inv(cfg, w) && !w.client.life.Unborn?
    requires Ahead(cfg, w) == Wholes(cfg, k) + [last] && j <= k < j + cfg.numBuffers && w.acks == []
    ensures 0 < |w.pushes| && (j == 0 ==> k < |w.pushes|)
  {
    CutsSum(cfg, w.client.flow.amountPushed);
    assert |Ahead(cfg, w)| == k + 1;
    assert w.client.flow.amountPushed == cfg.size ==> Cuts(cfg, cfg.size) == [];
  }

  lemma EndsEmpty(cfg: Config, first: World, steps: seq<Step>, w: World)
    requires cfg.Valid() && Inv(cfg, first) && Run(cfg, first, steps, w) && Finished(w)
    ensures Ahead(cfg, w) == []
  {
    InvAlongRun(cfg, first, steps, w);
    SumPositive(w.pushes, cfg.bufferSize);
  }


  lemma UnevenAhead(cfg: Config)
    requires cfg.Valid() && cfg.size % cfg.bufferSize != 0
    ensures Cuts(cfg, 0) == Wholes(cfg, Quot(cfg.size, cfg.bufferSize)) + [cfg.size % cfg.bufferSize]
  {
    UnevenCuts(cfg, 0, Quot(cfg.size, cfg.bufferSize), cfg.size % cfg.bufferSize);
  }

  /** The sizes are issued in this order: the cuts in order, or with `j` whole buffers before the shorter
      last one of a write, which at most the window less one fall behind. */
  ghost predicate IsOrder(cfg: Config, j: nat, order: seq<nat>)
    requires cfg.Valid()
  {
    if cfg.mode.ReadMode? || cfg.size % cfg.bufferSize == 0 then order == Cuts(cfg, 0)
    else
      var k := Quot(cfg.size, cfg.bufferSize);
      j <= k < j + cfg.numBuffers && order == LastAt(cfg, j, k, cfg.size % cfg.bufferSize)
  }

  /** Every finished run issues one of these orders. */
  lemma EveryRunHasAnOrder(cfg: Config, steps: seq<Step>, w: World) returns (j: nat)
    requires cfg.Valid() && RunsToTheEnd(cfg, steps, w)
    ensures IsOrder(cfg, j, IssuedAlong(cfg, Initial(cfg), steps, w))
  {
    j := 0;
    if cfg.mode.ReadMode? || cfg.size % cfg.bufferSize == 0 {
      EveryFlowIssuesCuts(cfg, steps, w);
    } else {
      InitiallyAhead(cfg);
      FinallyNothingAhead(cfg, steps, w);
      UnevenAhead(cfg);
      j := LastIsIssuedAt(cfg, Initial(cfg), steps, w, Quot(cfg.size, cfg.bufferSize), cfg.size % cfg.bufferSize);
    }
  }

  lemma StartsWrite(cfg: Config) returns (next: World)
    requires cfg.Valid() && cfg.mode.WriteMode?
    ensures Enabled(cfg, Initial(cfg), StartPartner) && next == Apply(cfg, Initial(cfg), StartPartner)
    ensures Inv(cfg, next) && !next.client.life.Unborn? && Ahead(cfg, next) == Cuts(cfg, 0)
    ensures Issued(cfg, Initial(cfg), StartPartner) == []
  {
    InitiallyAhead(cfg);
    next := Apply(cfg, Initial(cfg), StartPartner);
    StepTakes(cfg, Initial(cfg), StartPartner);
    NothingIssued(cfg, Initial(cfg), StartPartner, next);
  }

  /** And each of them is issued by some finished run. */
  lemma EveryOrderHasARun(cfg: Config, j: nat, order: seq<nat>) returns (steps: seq<Step>, w: World)
    requires cfg.Valid() && IsOrder(cfg, j, order)
    ensures RunsToTheEnd(cfg, steps, w) && IssuedAlong(cfg, Initial(cfg), steps, w) == order
  {
    if cfg.mode.ReadMode? || cfg.size % cfg.bufferSize == 0 {
      InvInitially(cfg);
      steps, w := RunToTheEnd(cfg, Initial(cfg));
      EveryFlowIssuesCuts(cfg, steps, w);
    } else {
      UnevenAhead(cfg);
      var next := StartsWrite(cfg);
      var rest;
      rest, w := LastCanBeIssuedAt(cfg, next, Quot(cfg.size, cfg.bufferSize), cfg.size % cfg.bufferSize, j);
      steps := [StartPartner] + rest;
      assert steps[1..] == rest;
      IssuedThen(cfg, Initial(cfg), steps, w, [], order, order);
    }
  }

  ghost predicate AlwaysLists(cfg: Config, layout: seq<FileRegion>) {
    forall steps, w, calls :: Flows(cfg, steps, w, layout, calls) ==> Lists(layout, calls)
  }

  /** What can be checked before the flow starts: every order the sizes can be issued in cuts the layout exactly. */
  ghost predicate EveryOrderCuts(cfg: Config, layout: seq<FileRegion>)
    requires cfg.Valid()
  {
    forall j, order :: IsOrder(cfg, j, order) ==> Sum(order) <= Length(layout) && Sliceable(layout, 0, order)
  }

  lemma FlowListsItsOrder(cfg: Config, steps: seq<Step>, w: World, layout: seq<FileRegion>,
                          calls: seq<seq<seq<FileRegion>>>, order: seq<nat>)
    requires cfg.Valid() && cfg.size == Length(layout) && Flows(cfg, steps, w, layout, calls)
    requires IssuedAlong(cfg, Initial(cfg), steps, w) == order
    ensures Sum(order) == Length(layout) && (Lists(layout, calls) <==> Sliceable(layout, 0, order))
  {
    EveryFlowListsIssued(cfg, steps, w, layout, calls);
  }

  lemma RunOfGoodOrders(cfg: Config, steps: seq<Step>, w: World, layout: seq<FileRegion>,
                        calls: seq<seq<seq<FileRegion>>>)
    requires cfg.Valid() && cfg.size == Length(layout) && Flows(cfg, steps, w, layout, calls)
    requires EveryOrderCuts(cfg, layout)
    ensures Lists(layout, calls)
  {
    var order := IssuedAlong(cfg, Initial(cfg), steps, w);
    var j := EveryRunHasAnOrder(cfg, steps, w);
    FlowListsItsOrder(cfg, steps, w, layout, calls, order);
  }

  lemma OrderOfGoodRuns(cfg: Config, layout: seq<FileRegion>, j: nat, order: seq<nat>)
    requires cfg.Valid() && cfg.size == Length(layout) && AlwaysLists(cfg, layout) && IsOrder(cfg, j, order)
    ensures Sum(order) <= Length(layout) && Sliceable(layout, 0, order)
  {
    var steps, w := EveryOrderHasARun(cfg, j, order);
    InvInitially(cfg);
    var calls := RequestsExist(cfg, Initial(cfg), steps, w, layout);
    assert Flows(cfg, steps, w, layout, calls);
    FlowListsItsOrder(cfg, steps, w, layout, calls, order);
  }

  /** Every run of a flow, a read or a write delivered in any order, lists its layout exactly when every
      order its sizes can be issued in cuts the layout exactly. */
  lemma AlwaysListsExactly(cfg: Config, layout: seq<FileRegion>)
    requires cfg.Valid() && cfg.size == Length(layout)
    ensures AlwaysLists(cfg, layout) <==> EveryOrderCuts(cfg, layout)
  {
    if EveryOrderCuts(cfg, layout) {
      forall steps, w, calls | Flows(cfg, steps, w, layout, calls) ensures Lists(layout, calls) {
        RunOfGoodOrders(cfg, steps, w, layout, calls);
      }
    }
    if AlwaysLists(cfg, layout) {
      forall j, order | IsOrder(cfg, j, order) ensures Sum(order) <= Length(layout) && Sliceable(layout, 0, order) {
        OrderOfGoodRuns(cfg, layout, j, order);
      }
    }
  }


  // ----- The size of the stream after a write -----

  /** The size recorded after the handler calls of a run, each of which stores some regions. */
  function SizeAlong(before: int, calls: seq<seq<seq<FileRegion>>>): int
    decreases |calls|
  {
    if calls == [] then before else SizeAlong(StreamSize(before, Concat(calls[0])), calls[1..])
  }

  lemma ReachesBoth(before: int, a: seq<FileRegion>, mid: int, b: seq<FileRegion>, size: int)
    requires ReachesEnds(before, a, mid) && ReachesEnds(mid, b, size)
    ensures ReachesEnds(before, a + b, size)
  {
    if size != before {
      if size == mid {
        var r :| r in a && r.End() == size;
        assert r in a + b;
      } else {
        var r :| r in b && r.End() == size;
        assert r in a + b;
      }
    }
  }

  lemma {:induction false} ConcatConcat<T>(a: seq<seq<T>>, b: seq<seq<T>>)
    ensures Concat(a + b) == Concat(a) + Concat(b)
  {
    if a == [] {
      assert a + b == b;
    } else {
      ConcatConcat(a[1..], b);
      assert (a + b)[1..] == a[1..] + b;
    }
  }

  lemma {:induction false} SizeReachesEnds(before: int, calls: seq<seq<seq<FileRegion>>>)
    ensures ReachesEnds(before, Concat(Concat(calls)), SizeAlong(before, calls))
    decreases |calls|
  {
    if calls != [] {
      var mid := StreamSize(before, Concat(calls[0]));
      StreamSizeReachesEnds(before, Concat(calls[0]));
      SizeReachesEnds(mid, calls[1..]);
      ConcatConcat(calls[0], Concat(calls[1..]));
      ReachesBoth(before, Concat(calls[0]), mid, Concat(Concat(calls[1..])), SizeAlong(before, calls));
    }
  }

  lemma {:induction false} BytesEnd(regions: seq<FileRegion>, size: int, b: int)
    requires (forall r :: r in regions ==> r.End() <= size) && b in BytesOf(regions)
    ensures b < size
  {
    if b in regions[0].Bytes() {
      assert regions[0] in regions;
    } else {
      forall r | r in regions[1..] ensures r.End() <= size {
        assert r in regions;
      }
      BytesEnd(regions[1..], size, b);
    }
  }

  /** The size recorded after a finished write is past every byte stored, and past every byte of the
      layout when the write lists it; it has grown only to the end of a region stored. */
  lemma WriteRecordsSize(cfg: Config, steps: seq<Step>, w: World, layout: seq<FileRegion>,
                         calls: seq<seq<seq<FileRegion>>>, before: int)
    requires cfg.Valid() && cfg.mode.WriteMode? && cfg.size == Length(layout) && Flows(cfg, steps, w, layout, calls)
    ensures var size := SizeAlong(before, calls);
            && ReachesEnds(before, Concat(Concat(calls)), size)
            && (forall b :: b in BytesOf(Concat(Concat(calls))) ==> b < size)
            && (Lists(layout, calls) ==> forall n :: 0 <= n < Length(layout) ==> ByteAt(layout, n) < size)
  {
    var all, size := Concat(Concat(calls)), SizeAlong(before, calls);
    SizeReachesEnds(before, calls);
    forall b | b in BytesOf(all) ensures b < size {
      BytesEnd(all, size, b);
    }
    if Lists(layout, calls) {
      forall n | 0 <= n < Length(layout) ensures ByteAt(layout, n) < size {
        assert ByteAt(all, n) == ByteAt(layout, 0 + n);
        ByteIsHeld(all, n);
      }
    }
  }
}
