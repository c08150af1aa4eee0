/** The job manager's books: which flows exist, and which flow a network message with a given tag goes
    to.  A flow that finishes is deleted, but its tag keeps pointing at it. */
module JobManagers {

  import opened Options
  import opened FileRegions
  import opened DataTypeLayouts
  import opened DataFlows

  datatype Event = Started(id: int, tag: int) | Finished(id: int)

  /** The flows started and not finished. */
  function Live(history: seq<Event>): set<int> {
    if history == [] then {}
    else
      var n := |history| - 1;
      match history[n]
      case Started(id, _) => Live(history[..n]) + {id}
      case Finished(id) => Live(history[..n]) - {id}
  }

  ghost predicate UniqueIds(history: seq<Event>) {
    forall i, j :: 0 <= i < j < |history| && history[i].Started? && history[j].Started? ==>
      history[i].id != history[j].id
  }

  ghost predicate FinishesLive(history: seq<Event>) {
    forall i :: 0 <= i < |history| && history[i].Finished? ==> history[i].id in Live(history[..i])
  }

  /** Identifiers are unique, and only flows that exist finish. */
  ghost predicate WellFormed(history: seq<Event>) {
    UniqueIds(history) && FinishesLive(history)
  }

  /** The flow that `history[i]` starts is still there at the end. */
  predicate Survives(history: seq<Event>, i: nat)
    requires i < |history| && history[i].Started?
  {
    forall j :: i < j < |history| ==> history[j] != Finished(history[i].id)
  }

  /** No later flow took over the tag of the one `history[i]` starts. */
  predicate KeepsTag(history: seq<Event>, i: nat)
    requires i < |history| && history[i].Started?
  {
    forall j :: i < j < |history| && history[j].Started? ==> history[j].tag != history[i].tag
  }

  lemma WellFormedPrefix(history: seq<Event>)
    requires WellFormed(history) && history != []
    ensures WellFormed(history[..|history| - 1])
  {
    var n := |history| - 1;
    forall i | 0 <= i < n && history[i].Finished? ensures history[i].id in Live(history[..n][..i]) {
      assert history[..n][..i] == history[..i];
    }
  }

  /** A flow is live exactly when it was started and no finish of it was handled since. */
  lemma {:induction false} LiveExactly(history: seq<Event>, i: nat)
    requires WellFormed(history) && i < |history| && history[i].Started?
    ensures history[i].id in Live(history) <==> Survives(history, i)
  {
    var n := |history| - 1;
    if i < n {
      WellFormedPrefix(history);
      LiveExactly(history[..n], i);
    }
  }

  lemma {:induction false} LiveWasStarted(history: seq<Event>, id: int)
    requires id in Live(history)
    ensures exists i :: 0 <= i < |history| && history[i].Started? && history[i].id == id
  {
    var n := |history| - 1;
    if !(history[n].Started? && history[n].id == id) {
      LiveWasStarted(history[..n], id);
    }
  }

  /** The flow subscribed to a tag: the last one started with it, live or not. */
  ghost predicate Routes(history: seq<Event>, tag: int, route: Option<int>) {
    match route
    case None => forall i :: 0 <= i < |history| && history[i].Started? ==> history[i].tag != tag
    case Some(id) =>
      exists i :: 0 <= i < |history| && history[i] == Started(id, tag) && KeepsTag(history, i)
  }

  /** A message for a flow reaches it exactly when no later flow uses its tag, and then the flow it
      reaches is live exactly when its finish has not been handled. */
  lemma ReachedExactly(history: seq<Event>, i: nat, route: Option<int>)
    requires WellFormed(history) && i < |history| && history[i].Started? && Routes(history, history[i].tag, route)
    ensures route == Some(history[i].id) <==> KeepsTag(history, i)
    ensures route.Some? && (route.value in Live(history) <==> exists j ::
              0 <= j < |history| && history[j] == Started(route.value, history[i].tag) && Survives(history, j))
  {
    var k :| 0 <= k < |history| && history[k] == Started(route.value, history[i].tag) && KeepsTag(history, k);
    LiveExactly(history, k);
    LatestKeepsTag(history, i, k);
    forall j | 0 <= j < |history| && history[j] == Started(route.value, history[i].tag) ensures j == k {
      assert !(j < k) && !(k < j);
    }
  }

  lemma LatestKeepsTag(history: seq<Event>, i: nat, k: nat)
    requires i < |history| && k < |history| && history[i].Started? && history[k].Started?
    requires history[i].tag == history[k].tag && KeepsTag(history, k)
    ensures KeepsTag(history, i) <==> i == k
  {
  }

  function Lookup(m: map<int, int>, tag: int): Option<int> {
    if tag in m then Some(m[tag]) else None
  }

  ghost predicate Routed(history: seq<Event>, byTag: map<int, int>) {
    forall tag :: Routes(history, tag, Lookup(byTag, tag))
  }

  datatype FlowType = ServerFlow | CacheFlow | ClientFlow | UnknownFlow

  /** What a start message says about a flow; a server's flow comes with its layout. */
  datatype FlowStart = FlowStart(flowType: FlowType, config: Config, layout: seq<FileRegion>, bstreamSize: int) {
    ghost predicate Valid() {
      flowType == ServerFlow ==> config.size == Length(layout)
    }
  }

  datatype Flow = MemoryFlow(memory: MemoryDataFlow) | ListIOFlow(listIO: ListIODataFlow)

  class JobManager {
    var dataFlowsById: map<int, Flow>
    var dataFlowsByBMITag: map<int, int>
    ghost var history: seq<Event>

    ghost predicate Valid()
      reads this
    {
      && WellFormed(history) && dataFlowsById.Keys == Live(history)
      && Routed(history, dataFlowsByBMITag)
    }

    constructor ()
      ensures Valid() && history == []
    {
      dataFlowsById := map[];
      dataFlowsByBMITag := map[];
      history := [];
    }

    /** Creates the flow that the start message asks for, if its type is known. */
    method CreateDataFlow(start: FlowStart) returns (flow: Option<Flow>)
      requires start.Valid()
      ensures flow.None? <==> start.flowType == UnknownFlow
      ensures flow.Some? ==>
                match flow.value
                case MemoryFlow(f) =>
                  start.flowType != ServerFlow && fresh(f)
                  && f.Valid() && f.config == start.config && f.State() == CLIENT_NEW
                case ListIOFlow(f) =>
                  && start.flowType == ServerFlow && fresh(f) && fresh(f.layout)
                  && f.Valid() && f.config == start.config
                  && f.layout.fileRegions == start.layout && f.State() == SERVER_NEW
                  && f.bstreamSize == start.bstreamSize
    {
      match start.flowType
      case ServerFlow =>
        var layout := new DataTypeLayout();
        layout.fileRegions := start.layout;
        var listIO := new ListIODataFlow(start.config, layout, start.bstreamSize);
        flow := Some(ListIOFlow(listIO));
      case CacheFlow =>
        var memory := new MemoryDataFlow(start.config);
        flow := Some(MemoryFlow(memory));
      case ClientFlow =>
        var memory := new MemoryDataFlow(start.config);
        flow := Some(MemoryFlow(memory));
      case UnknownFlow =>
        flow := None;
    }

    /** Creates, registers, subscribes and initialises a flow; identifiers are never used twice.  A
        flow of unknown type fails an assertion. */
    method HandleFlowStart(id: int, tag: int, start: FlowStart)
      returns (flow: Option<Flow>, out: Emission, requests: seq<seq<FileRegion>>)
      requires Valid() && start.Valid() && forall i :: 0 <= i < |history| && history[i].Started? ==> history[i].id != id
      modifies this
      ensures Valid() && (flow.None? <==> start.flowType == UnknownFlow)
      ensures flow.None? ==>
                history == old(history) && dataFlowsById == old(dataFlowsById)
                && dataFlowsByBMITag == old(dataFlowsByBMITag)
      ensures flow.Some? ==>
                && history == old(history) + [Started(id, tag)]
                && dataFlowsById == old(dataFlowsById)[id := flow.value]
                && match flow.value
                   case MemoryFlow(f) =>
                     && start.flowType != ServerFlow && fresh(f) && f.config == start.config
                     && (f.State(), out) == ClientInitialize(start.config, CLIENT_NEW, start.config.numBuffers)
                   case ListIOFlow(f) =>
                     && start.flowType == ServerFlow && fresh(f) && f.config == start.config
                     && f.layout.fileRegions == start.layout && f.bstreamSize == start.bstreamSize
                     && (f.State(), out) == ServerInitialize(start.config, SERVER_NEW, start.config.numBuffers)
                     && Slices(start.layout, 0, out.loads, requests)
    {
      out, requests := NOTHING, [];
      flow := CreateDataFlow(start);
      if flow.Some? {
        StartedNext(history, id, tag);
        RoutedStart(history, dataFlowsByBMITag, id, tag);
        dataFlowsById := dataFlowsById[id := flow.value];
        dataFlowsByBMITag := dataFlowsByBMITag[tag := id];
        history := history + [Started(id, tag)];
        match flow.value
        case MemoryFlow(f) => out := f.Initialize();
        case ListIOFlow(f) => out, requests := f.Initialize();
      }
    }

    /** Deletes the flow; its subscription stays. */
    method HandleFlowFinish(id: int) returns (found: bool)
      requires Valid()
      modifies this
      ensures Valid() && found == (id in Live(old(history)))
      ensures history == old(history) + if found then [Finished(id)] else []
      ensures dataFlowsById == old(dataFlowsById) - {id} && dataFlowsByBMITag == old(dataFlowsByBMITag)
    {
      found := id in dataFlowsById;
      if found {
        FinishedNext(history, id);
        RoutedFinish(history, dataFlowsByBMITag, id);
        dataFlowsById := dataFlowsById - {id};
        history := history + [Finished(id)];
      } else {
        assert history + [] == history;
      }
    }

    /** Where a flow message from the network goes. */
    method HandleNetworkMessage(tag: int) returns (route: Option<int>)
      requires Valid()
      ensures Routes(history, tag, route)
    {
      route := Lookup(dataFlowsByBMITag, tag);
    }
  }

  lemma FinishesStay(history: seq<Event>, event: Event)
    requires FinishesLive(history) && (event.Finished? ==> event.id in Live(history))
    ensures FinishesLive(history + [event])
  {
    var more := history + [event];
    forall i | 0 <= i < |more| && more[i].Finished? ensures more[i].id in Live(more[..i]) {
      assert more[..i] == history[..i];
      assert history[..|history|] == history;
    }
  }

  lemma IdsStay(history: seq<Event>, event: Event)
    requires UniqueIds(history)
    requires event.Started? ==> forall i :: 0 <= i < |history| && history[i].Started? ==> history[i].id != event.id
    ensures UniqueIds(history + [event])
  {
  }

  lemma LiveStarted(history: seq<Event>, id: int, tag: int)
    ensures Live(history + [Started(id, tag)]) == Live(history) + {id}
  {
    assert (history + [Started(id, tag)])[..|history|] == history;
  }

  lemma StartedNext(history: seq<Event>, id: int, tag: int)
    requires WellFormed(history) && forall i :: 0 <= i < |history| && history[i].Started? ==> history[i].id != id
    ensures WellFormed(history + [Started(id, tag)]) && Live(history + [Started(id, tag)]) == Live(history) + {id}
  {
    FinishesStay(history, Started(id, tag));
    IdsStay(history, Started(id, tag));
    LiveStarted(history, id, tag);
  }

  lemma FinishedNext(history: seq<Event>, id: int)
    requires WellFormed(history) && id in Live(history)
    ensures WellFormed(history + [Finished(id)]) && Live(history + [Finished(id)]) == Live(history) - {id}
  {
    FinishesStay(history, Finished(id));
    IdsStay(history, Finished(id));
    assert (history + [Finished(id)])[..|history|] == history;
  }

  /** An event that does not start a flow on the tag leaves its route as it is. */
  lemma RoutesStay(history: seq<Event>, event: Event, tag: int, route: Option<int>)
    requires Routes(history, tag, route) && (event.Started? ==> event.tag != tag)
    ensures Routes(history + [event], tag, route)
  {
    var more := history + [event];
    if route.Some? {
      var i :| 0 <= i < |history| && history[i] == Started(route.value, tag) && KeepsTag(history, i);
      assert more[i] == Started(route.value, tag) && KeepsTag(more, i);
    }
  }

  lemma RoutedStart(history: seq<Event>, byTag: map<int, int>, id: int, tag: int)
    requires Routed(history, byTag)
    ensures Routed(history + [Started(id, tag)], byTag[tag := id])
  {
    var more, after := history + [Started(id, tag)], byTag[tag := id];
    assert more[|history|] == Started(id, tag) && KeepsTag(more, |history|);
    forall t ensures Routes(more, t, Lookup(after, t)) {
      if t != tag {
        assert Routes(history, t, Lookup(byTag, t));
        RoutesStay(history, Started(id, tag), t, Lookup(byTag, t));
      }
    }
  }

  lemma RoutedFinish(history: seq<Event>, byTag: map<int, int>, id: int)
    requires Routed(history, byTag)
    ensures Routed(history + [Finished(id)], byTag)
  {
    forall t ensures Routes(history + [Finished(id)], t, Lookup(byTag, t)) {
      assert Routes(history, t, Lookup(byTag, t));
      RoutesStay(history, Finished(id), t, Lookup(byTag, t));
    }
  }
}
