/** A broadcast over a power of two of ranks, with requests and replies delivered in any order. */
module BroadcastWorlds {
  import opened Sequences
  import opened Broadcasts

  datatype Message = Message(to: nat, from: nat)

  datatype World = World(machines: seq<Machine>, requests: multiset<Message>, responses: multiset<int>,
                         handled: multiset<nat>, payloads: multiset<nat>, appReplies: nat)

  datatype Step = Request(to: nat, from: nat) | Response(to: nat)

  function SendAll(requests: multiset<Message>, kids: seq<nat>, from: nat): multiset<Message>
    decreases |kids|
  {
    if kids == [] then requests else SendAll(requests + multiset{Message(kids[0], from)}, kids[1..], from)
  }

  function Absorb(w: World, to: nat, a: Action): World
    requires to < |w.machines|
  {
    w.(machines := w.machines[to := a.machine],
       requests := SendAll(w.requests, a.requests, to),
       responses := if a.reply.ToParent? then w.responses + multiset{a.reply.parent} else w.responses,
       payloads := if a.payload then w.payloads + multiset{to} else w.payloads,
       appReplies := if a.reply.ToApp? then w.appReplies + 1 else w.appReplies)
  }

  predicate Enabled(w: World, step: Step) {
    match step
    case Request(to, from) => to < |w.machines| && from < |w.machines| && Message(to, from) in w.requests
    case Response(to) => to < |w.machines| && to in w.responses
  }

  /** What the machine of the receiving rank does. */
  function React(w: World, root: nat, step: Step): Action
    requires Enabled(w, step)
  {
    match step
    case Request(to, from) => OnRequest(w.machines[to], |w.machines|, to, from, root)
    case Response(to) => OnResponse(w.machines[to], to)
  }

  function Result(w: World, step: Step, a: Action): World
    requires Enabled(w, step)
  {
    match step
    case Request(to, from) =>
      Absorb(w.(requests := w.requests - multiset{Message(to, from)},
                handled := if w.machines[to].state == Init then w.handled + multiset{to} else w.handled), to, a)
    case Response(to) => Absorb(w.(responses := w.responses - multiset{to as int}), to, a)
  }

  function Apply(w: World, root: nat, step: Step): World
    requires Enabled(w, step)
  {
    Result(w, step, React(w, root, step))
  }

  /** The application at the root has posted its request, which names the root as its own parent. */
  function Start(size: nat, root: nat): World {
    World(seq(size, _ => Machine(Init, 0, 0, -1, false)), multiset{Message(root, root)}, multiset{},
          multiset{}, multiset{}, 0)
  }

  ghost predicate Runs(w: World, root: nat, steps: seq<Step>, last: World)
    decreases |steps|
  {
    if steps == [] then w == last
    else Enabled(w, steps[0]) && Runs(Apply(w, root, steps[0]), root, steps[1..], last)
  }

  // ----- The life of a rank during a broadcast -----

  /** No request yet; one in flight to it; waiting for replies; its reply in flight; its reply counted. */
  datatype Phase = Asleep | Requested | Waiting | Replied | Done

  function InPhase(m: nat, root: nat, ph: seq<Phase>, rank: nat, phase: Phase): set<nat>
    requires root < Pow2(m) && rank < Pow2(m) == |ph|
  {
    set c | c in Kids(m, root, rank) && ph[c] == phase
  }

  /** A machine has finished once its rank has replied. */
  predicate MachineFits(x: Machine, phase: Phase, parent: nat, kids: nat, done: nat) {
    && x.finished == (phase == Replied || phase == Done)
    && if phase == Waiting then
         x.state == Wait && x.childNum == kids && x.rspCounter == done < kids && x.parent == parent
       else x.state == Init && x.childNum == 0 && x.rspCounter == 0
  }

  /** How far the children of a rank are. */
  ghost predicate KidsFit(m: nat, root: nat, ph: seq<Phase>, rank: nat)
    requires root < Pow2(m) && rank < Pow2(m) == |ph|
  {
    match ph[rank]
    case Asleep | Requested => forall c :: c in Kids(m, root, rank) ==> ph[c] == Asleep
    case Waiting => forall c :: c in Kids(m, root, rank) ==> ph[c] != Asleep
    case Replied | Done => forall c :: c in Kids(m, root, rank) ==> ph[c] == Done
  }

  ghost predicate MailFits(m: nat, root: nat, w: World, ph: seq<Phase>, rank: nat)
    requires root < Pow2(m) && rank < Pow2(m) == |ph|
  {
    && (forall from :: w.requests[Message(rank, from)] ==
          if ph[rank] == Requested && from == ParentOf(m, root, rank) then 1 else 0)
    && w.responses[rank] == |InPhase(m, root, ph, rank, Replied)|
  }

  predicate LogFits(root: nat, w: World, phase: Phase, rank: nat) {
    && w.handled[rank] == (if phase == Asleep || phase == Requested then 0 else 1)
    && w.payloads[rank] == (if phase == Asleep || phase == Requested || rank == root then 0 else 1)
  }

  ghost predicate RankFits(m: nat, root: nat, w: World, ph: seq<Phase>, rank: nat)
    requires root < Pow2(m) && rank < Pow2(m) == |ph| == |w.machines|
  {
    && MachineFits(w.machines[rank], ph[rank], ParentOf(m, root, rank), |Kids(m, root, rank)|,
                   |InPhase(m, root, ph, rank, Done)|)
    && KidsFit(m, root, ph, rank) && MailFits(m, root, w, ph, rank) && LogFits(root, w, ph[rank], rank)
  }

  ghost predicate Inv(m: nat, root: nat, w: World, ph: seq<Phase>) {
    && root < Pow2(m) == |ph| == |w.machines|
    && ph[root] != Asleep && ph[root] != Done && w.appReplies == (if ph[root] == Replied then 1 else 0)
    && forall rank :: 0 <= rank < Pow2(m) ==> RankFits(m, root, w, ph, rank)
  }

  /** The number of messages delivered to get a rank this far. */
  function Deliveries(ph: seq<Phase>): nat {
    if ph == [] then 0
    else
      var n := |ph| - 1;
      Deliveries(ph[..n]) + Delivered(ph[n])
  }

  function Delivered(phase: Phase): nat {
    match phase
    case Asleep | Requested => 0
    case Waiting | Replied => 1
    case Done => 2
  }

  lemma {:induction false} SendAllCounts(requests: multiset<Message>, kids: seq<nat>, from: nat, x: Message)
    requires Distinct(kids)
    ensures SendAll(requests, kids, from)[x] == requests[x] + if x.from == from && x.to in kids then 1 else 0
    decreases |kids|
  {
    if kids != [] {
      SendAllCounts(requests + multiset{Message(kids[0], from)}, kids[1..], from, x);
    }
  }

  lemma RootIsItsParent(m: nat, root: nat)
    requires root < Pow2(m)
    ensures ParentOf(m, root, root) == root
  {
  }

  // ----- A request is delivered -----

  /** What a rank must do with its request. */
  ghost predicate RequestMeets(m: nat, root: nat, to: nat, from: nat, a: Action)
    requires root < Pow2(m) && to < Pow2(m)
  {
    && Distinct(a.requests) && (forall c: nat :: c in a.requests <==> c in Kids(m, root, to))
    && (a.payload <==> to != root)
    && if Kids(m, root, to) == {} then
         MachineFits(a.machine, Replied, from, 0, 0) && a.reply == Respond(to, from)
       else MachineFits(a.machine, Waiting, from, |Kids(m, root, to)|, 0) && a.reply == NoReply
  }

  lemma OnRequestMeets(m: nat, root: nat, x: Machine, to: nat)
    requires root < Pow2(m) && to < Pow2(m) && MachineFits(x, Requested, 0, 0, 0)
    ensures var from := ParentOf(m, root, to);
            RequestMeets(m, root, to, from, OnRequest(x, Pow2(m), to, from, root))
  {
    CodeComputesKids(m, root, to);
    KidsCount(m, root, to);
  }

  function PhaseAfterRequest(m: nat, root: nat, ph: seq<Phase>, to: nat, x: nat): Phase
    requires root < Pow2(m) && to < Pow2(m) == |ph| && x < |ph|
  {
    if x == to then if Kids(m, root, to) == {} then Replied else Waiting
    else if x in Kids(m, root, to) then Requested
    else ph[x]
  }

  function AfterRequest(m: nat, root: nat, ph: seq<Phase>, to: nat): (ph': seq<Phase>)
    requires root < Pow2(m) && to < Pow2(m) == |ph|
    ensures |ph'| == |ph| && forall x :: 0 <= x < |ph| ==> ph'[x] == PhaseAfterRequest(m, root, ph, to, x)
  {
    seq(|ph|, x requires 0 <= x < |ph| => PhaseAfterRequest(m, root, ph, to, x))
  }

  lemma SamePhases(m: nat, root: nat, ph: seq<Phase>, ph': seq<Phase>, rank: nat, phase: Phase)
    requires root < Pow2(m) && rank < Pow2(m) == |ph| == |ph'|
    requires forall c :: c in Kids(m, root, rank) ==> (ph[c] == phase <==> ph'[c] == phase)
    ensures InPhase(m, root, ph, rank, phase) == InPhase(m, root, ph', rank, phase)
  {
  }

  ghost predicate RequestCase(m: nat, root: nat, w: World, ph: seq<Phase>, to: nat, from: nat, a: Action, rank: nat) {
    && root < Pow2(m) == |ph| == |w.machines| && to < Pow2(m) && rank < Pow2(m) && Enabled(w, Request(to, from))
    && RankFits(m, root, w, ph, to) && RankFits(m, root, w, ph, rank)
    && ph[to] == Requested && from == ParentOf(m, root, to) && RequestMeets(m, root, to, from, a)
  }

  lemma RequestMachine(m: nat, root: nat, w: World, ph: seq<Phase>, to: nat, from: nat, a: Action, rank: nat)
    requires RequestCase(m, root, w, ph, to, from, a, rank)
    ensures var w', ph' := Result(w, Request(to, from), a), AfterRequest(m, root, ph, to);
            && MachineFits(w'.machines[rank], ph'[rank], ParentOf(m, root, rank), |Kids(m, root, rank)|,
                           |InPhase(m, root, ph', rank, Done)|)
            && LogFits(root, w', ph'[rank], rank)
  {
    var ph' := AfterRequest(m, root, ph, to);
    SamePhases(m, root, ph, ph', rank, Done);
    if rank == to {
      assert InPhase(m, root, ph, to, Done) == {};
    }
  }

  lemma RequestKids(m: nat, root: nat, ph: seq<Phase>, to: nat, rank: nat)
    requires root < Pow2(m) == |ph| && to < Pow2(m) && rank < Pow2(m) && ph[to] == Requested
    requires KidsFit(m, root, ph, to) && KidsFit(m, root, ph, rank)
    ensures KidsFit(m, root, AfterRequest(m, root, ph, to), rank)
  {
  }

  lemma RequestMail(m: nat, root: nat, w: World, ph: seq<Phase>, to: nat, from: nat, a: Action, rank: nat)
    requires RequestCase(m, root, w, ph, to, from, a, rank)
    ensures var w', ph' := Result(w, Request(to, from), a), AfterRequest(m, root, ph, to);
            forall f :: w'.requests[Message(rank, f)] ==
                        if ph'[rank] == Requested && f == ParentOf(m, root, rank) then 1 else 0
  {
    var w', ph' := Result(w, Request(to, from), a), AfterRequest(m, root, ph, to);
    forall f ensures w'.requests[Message(rank, f)] ==
                     if ph'[rank] == Requested && f == ParentOf(m, root, rank) then 1 else 0 {
      assert w.requests[Message(rank, f)] == if ph[rank] == Requested && f == ParentOf(m, root, rank) then 1 else 0;
      SendAllCounts(w.requests - multiset{Message(to, from)}, a.requests, to, Message(rank, f));
    }
  }

  lemma RequestReplies(m: nat, root: nat, w: World, ph: seq<Phase>, to: nat, from: nat, a: Action, rank: nat)
    requires RequestCase(m, root, w, ph, to, from, a, rank)
    ensures var w', ph' := Result(w, Request(to, from), a), AfterRequest(m, root, ph, to);
            w'.responses[rank] == |InPhase(m, root, ph', rank, Replied)|
  {
    RootIsItsParent(m, root);
    if to != root {
      ParentIsNearer(m, root, to);
    }
    RepliesAfterRequest(m, root, ph, to, rank);
  }

  lemma RepliesAfterRequest(m: nat, root: nat, ph: seq<Phase>, to: nat, rank: nat)
    requires root < Pow2(m) == |ph| && to < Pow2(m) && rank < Pow2(m) && ph[to] == Requested && KidsFit(m, root, ph, to)
    ensures var ph' := AfterRequest(m, root, ph, to);
            |InPhase(m, root, ph', rank, Replied)| ==
            |InPhase(m, root, ph, rank, Replied)| + if to in Kids(m, root, rank) && ph'[to] == Replied then 1 else 0
  {
    var ph' := AfterRequest(m, root, ph, to);
    if to in Kids(m, root, rank) && ph'[to] == Replied {
      assert InPhase(m, root, ph', rank, Replied) == InPhase(m, root, ph, rank, Replied) + {to};
    } else {
      SamePhases(m, root, ph, ph', rank, Replied);
    }
  }

  /** Every rank fits its new phase after a request. */
  lemma RequestFits(m: nat, root: nat, w: World, ph: seq<Phase>, to: nat, from: nat, a: Action)
    requires Inv(m, root, w, ph) && Enabled(w, Request(to, from))
    requires ph[to] == Requested && from == ParentOf(m, root, to) && RequestMeets(m, root, to, from, a)
    ensures Inv(m, root, Result(w, Request(to, from), a), AfterRequest(m, root, ph, to))
  {
    forall rank | 0 <= rank < Pow2(m)
      ensures RankFits(m, root, Result(w, Request(to, from), a), AfterRequest(m, root, ph, to), rank)
    {
      assert RankFits(m, root, w, ph, to) && RankFits(m, root, w, ph, rank);
      RequestMachine(m, root, w, ph, to, from, a, rank);
      RequestKids(m, root, ph, to, rank);
      RequestMail(m, root, w, ph, to, from, a, rank);
      RequestReplies(m, root, w, ph, to, from, a, rank);
    }
    RootIsItsParent(m, root);
    if to != root {
      ParentIsNearer(m, root, to);
    }
  }

  // ----- A reply is delivered -----

  /** What a rank must do with a reply while it waits for `kids` of them and has `done`. */
  predicate ResponseMeets(x: Machine, to: nat, parent: nat, kids: nat, done: nat, a: Action) {
    && a.requests == [] && !a.payload
    && if done + 1 == kids then MachineFits(a.machine, Replied, parent, 0, 0) && a.reply == Respond(to, parent)
       else MachineFits(a.machine, Waiting, parent, kids, done + 1) && a.reply == NoReply
  }

  lemma OnResponseMeets(x: Machine, to: nat, parent: nat, kids: nat, done: nat)
    requires MachineFits(x, Waiting, parent, kids, done)
    ensures ResponseMeets(x, to, parent, kids, done, OnResponse(x, to))
  {
  }

  /** The reply of child `c` is counted; with the last one the rank replies itself. */
  function AfterResponse(m: nat, root: nat, ph: seq<Phase>, to: nat, c: nat): (ph': seq<Phase>)
    requires root < Pow2(m) && to < Pow2(m) == |ph| && c < Pow2(m)
    ensures |ph'| == |ph| && forall x :: 0 <= x < |ph| ==> ph'[x] == PhaseAfterResponse(m, root, ph, to, c, x)
  {
    seq(|ph|, x requires 0 <= x < |ph| => PhaseAfterResponse(m, root, ph, to, c, x))
  }

  function PhaseAfterResponse(m: nat, root: nat, ph: seq<Phase>, to: nat, c: nat, x: nat): Phase
    requires root < Pow2(m) && to < Pow2(m) == |ph| && c < Pow2(m) && x < |ph|
  {
    if x == c then Done
    else if x == to && |InPhase(m, root, ph, to, Done)| + 1 == |Kids(m, root, to)| then Replied
    else ph[x]
  }

  ghost predicate ResponseCase(m: nat, root: nat, w: World, ph: seq<Phase>, to: nat, c: nat, a: Action, rank: nat) {
    && root < Pow2(m) == |ph| == |w.machines| && to < Pow2(m) && rank < Pow2(m) && c < Pow2(m)
    && Enabled(w, Response(to))
    && RankFits(m, root, w, ph, to) && RankFits(m, root, w, ph, rank) && RankFits(m, root, w, ph, c)
    && ph[to] == Waiting && c in Kids(m, root, to) && ph[c] == Replied
    && ResponseMeets(w.machines[to], to, ParentOf(m, root, to), |Kids(m, root, to)|,
                     |InPhase(m, root, ph, to, Done)|, a)
  }

  lemma DoneCount(m: nat, root: nat, ph: seq<Phase>, to: nat, c: nat)
    requires root < Pow2(m) == |ph| && to < Pow2(m) && c in Kids(m, root, to) && ph[c] == Replied
    requires to !in Kids(m, root, to)
    ensures var ph' := AfterResponse(m, root, ph, to, c);
            && |InPhase(m, root, ph', to, Done)| == |InPhase(m, root, ph, to, Done)| + 1
            && |InPhase(m, root, ph', to, Replied)| == |InPhase(m, root, ph, to, Replied)| - 1
  {
    var ph' := AfterResponse(m, root, ph, to, c);
    assert InPhase(m, root, ph', to, Done) == InPhase(m, root, ph, to, Done) + {c};
    assert InPhase(m, root, ph, to, Replied) == InPhase(m, root, ph', to, Replied) + {c};
  }

  lemma AllDone(m: nat, root: nat, ph: seq<Phase>, to: nat)
    requires root < Pow2(m) == |ph| && to < Pow2(m) && |InPhase(m, root, ph, to, Done)| == |Kids(m, root, to)|
    ensures forall k :: k in Kids(m, root, to) ==> ph[k] == Done
  {
    SubsetAll(InPhase(m, root, ph, to, Done), Kids(m, root, to));
  }

  lemma NotOwnKid(m: nat, root: nat, rank: nat)
    requires root < Pow2(m) && rank < Pow2(m)
    ensures rank !in Kids(m, root, rank)
  {
    if rank != root {
      ParentIsNearer(m, root, rank);
    }
  }

  lemma SubsetAll(a: set<nat>, b: set<nat>)
    requires a <= b && |a| == |b|
    ensures a == b
  {
    assert b == a + (b - a);
  }

  lemma ResponseMachine(m: nat, root: nat, w: World, ph: seq<Phase>, to: nat, c: nat, a: Action, rank: nat)
    requires ResponseCase(m, root, w, ph, to, c, a, rank)
    ensures var w', ph' := Result(w, Response(to), a), AfterResponse(m, root, ph, to, c);
            && MachineFits(w'.machines[rank], ph'[rank], ParentOf(m, root, rank), |Kids(m, root, rank)|,
                           |InPhase(m, root, ph', rank, Done)|)
            && LogFits(root, w', ph'[rank], rank)
  {
    NotOwnKid(m, root, to);
    DoneCount(m, root, ph, to, c);
    if rank != to {
      SamePhases(m, root, ph, AfterResponse(m, root, ph, to, c), rank, Done);
    }
  }

  lemma ResponseKids(m: nat, root: nat, w: World, ph: seq<Phase>, to: nat, c: nat, a: Action, rank: nat)
    requires ResponseCase(m, root, w, ph, to, c, a, rank)
    ensures KidsFit(m, root, AfterResponse(m, root, ph, to, c), rank)
  {
    NotOwnKid(m, root, to);
    DoneCount(m, root, ph, to, c);
    if |InPhase(m, root, ph, to, Done)| + 1 == |Kids(m, root, to)| {
      AllDone(m, root, AfterResponse(m, root, ph, to, c), to);
    }
  }

  lemma ResponseMail(m: nat, root: nat, w: World, ph: seq<Phase>, to: nat, c: nat, a: Action, rank: nat)
    requires ResponseCase(m, root, w, ph, to, c, a, rank)
    ensures MailFits(m, root, Result(w, Response(to), a), AfterResponse(m, root, ph, to, c), rank)
  {
    var ph' := AfterResponse(m, root, ph, to, c);
    NotOwnKid(m, root, to);
    ResponseReplies(m, root, w, ph, to, c, a, rank);
    assert ph'[rank] == Requested <==> ph[rank] == Requested;
  }

  lemma ResponseReplies(m: nat, root: nat, w: World, ph: seq<Phase>, to: nat, c: nat, a: Action, rank: nat)
    requires ResponseCase(m, root, w, ph, to, c, a, rank) && to !in Kids(m, root, to)
    ensures Result(w, Response(to), a).responses[rank] ==
            |InPhase(m, root, AfterResponse(m, root, ph, to, c), rank, Replied)|
  {
    if rank == to {
      DoneCount(m, root, ph, to, c);
      assert a.reply.ToParent? ==> a.reply.parent != to;
    } else {
      RepliesElsewhere(m, root, ph, to, c, rank);
    }
  }

  lemma RepliesElsewhere(m: nat, root: nat, ph: seq<Phase>, to: nat, c: nat, rank: nat)
    requires root < Pow2(m) == |ph| && to < Pow2(m) && rank < Pow2(m) && c in Kids(m, root, to)
    requires ph[to] == Waiting && rank != to
    ensures var ph' := AfterResponse(m, root, ph, to, c);
            |InPhase(m, root, ph', rank, Replied)| ==
            |InPhase(m, root, ph, rank, Replied)| + if to in Kids(m, root, rank) && ph'[to] == Replied then 1 else 0
  {
    var ph' := AfterResponse(m, root, ph, to, c);
    if to in Kids(m, root, rank) && ph'[to] == Replied {
      assert InPhase(m, root, ph', rank, Replied) == InPhase(m, root, ph, rank, Replied) + {to};
    } else {
      SamePhases(m, root, ph, ph', rank, Replied);
    }
  }

  /** Every rank fits its new phase after a reply. */
  lemma ResponseFits(m: nat, root: nat, w: World, ph: seq<Phase>, to: nat, c: nat, a: Action)
    requires Inv(m, root, w, ph) && Enabled(w, Response(to)) && to < Pow2(m) && c < Pow2(m)
    requires ph[to] == Waiting && c in Kids(m, root, to) && ph[c] == Replied
    requires ResponseMeets(w.machines[to], to, ParentOf(m, root, to), |Kids(m, root, to)|,
                           |InPhase(m, root, ph, to, Done)|, a)
    ensures Inv(m, root, Result(w, Response(to), a), AfterResponse(m, root, ph, to, c))
  {
    forall rank | 0 <= rank < Pow2(m)
      ensures RankFits(m, root, Result(w, Response(to), a), AfterResponse(m, root, ph, to, c), rank)
    {
      assert RankFits(m, root, w, ph, to) && RankFits(m, root, w, ph, rank) && RankFits(m, root, w, ph, c);
      ResponseMachine(m, root, w, ph, to, c, a, rank);
      ResponseKids(m, root, w, ph, to, c, a, rank);
      ResponseMail(m, root, w, ph, to, c, a, rank);
    }
    RootIsItsParent(m, root);
    if to != root {
      ParentIsNearer(m, root, to);
    }
  }

  // ----- Whole runs -----

  lemma {:induction false} DeliveriesChange(ph: seq<Phase>, ph': seq<Phase>, more: set<nat>)
    requires |ph| == |ph'|
    requires forall x: nat :: x < |ph| ==> Delivered(ph'[x]) == Delivered(ph[x]) + if x in more then 1 else 0
    requires forall x :: x in more ==> x < |ph|
    ensures Deliveries(ph') == Deliveries(ph) + |more|
  {
    if ph == [] {
      assert more == {};
    } else {
      var n := |ph| - 1;
      var rest := more - {n};
      DeliveriesChange(ph[..n], ph'[..n], rest);
      assert more == if n in more then rest + {n} else rest;
    }
  }

  /** The phases of all ranks after a step. */
  ghost function NextPhases(m: nat, root: nat, w: World, ph: seq<Phase>, step: Step): (ph': seq<Phase>)
    requires Inv(m, root, w, ph) && Enabled(w, step)
  {
    match step
    case Request(to, from) => AfterRequest(m, root, ph, to)
    case Response(to) =>
      assert RankFits(m, root, w, ph, to);
      assert InPhase(m, root, ph, to, Replied) != {};
      var c :| c in InPhase(m, root, ph, to, Replied);
      AfterResponse(m, root, ph, to, c)
  }

  lemma RequestKeepsInv(m: nat, root: nat, w: World, ph: seq<Phase>, to: nat, from: nat)
    requires Inv(m, root, w, ph) && Enabled(w, Request(to, from))
    ensures var ph' := NextPhases(m, root, w, ph, Request(to, from));
            Inv(m, root, Apply(w, root, Request(to, from)), ph') && Deliveries(ph') == Deliveries(ph) + 1
  {
    assert RankFits(m, root, w, ph, to);
    OnRequestMeets(m, root, w.machines[to], to);
    RequestFits(m, root, w, ph, to, from, React(w, root, Request(to, from)));
    DeliveriesChange(ph, AfterRequest(m, root, ph, to), {to});
  }

  lemma ResponseKeepsInv(m: nat, root: nat, w: World, ph: seq<Phase>, to: nat)
    requires Inv(m, root, w, ph) && Enabled(w, Response(to))
    ensures var ph' := NextPhases(m, root, w, ph, Response(to));
            Inv(m, root, Apply(w, root, Response(to)), ph') && Deliveries(ph') == Deliveries(ph) + 1
  {
    var ph' := NextPhases(m, root, w, ph, Response(to));
    assert RankFits(m, root, w, ph, to);
    var c :| c in InPhase(m, root, ph, to, Replied) && ph' == AfterResponse(m, root, ph, to, c);
    ReplyCounted(m, root, w, ph, to, c);
  }

  lemma ReplyCounted(m: nat, root: nat, w: World, ph: seq<Phase>, to: nat, c: nat)
    requires Inv(m, root, w, ph) && Enabled(w, Response(to)) && c in InPhase(m, root, ph, to, Replied)
    ensures var ph' := AfterResponse(m, root, ph, to, c);
            Inv(m, root, Apply(w, root, Response(to)), ph') && Deliveries(ph') == Deliveries(ph) + 1
  {
    assert RankFits(m, root, w, ph, to);
    OnResponseMeets(w.machines[to], to, ParentOf(m, root, to), |Kids(m, root, to)|, |InPhase(m, root, ph, to, Done)|);
    ResponseFits(m, root, w, ph, to, c, React(w, root, Response(to)));
    DeliveriesChange(ph, AfterResponse(m, root, ph, to, c), {c});
  }

  /** A step keeps the invariant and counts as one delivery. */
  lemma StepKeepsInv(m: nat, root: nat, w: World, ph: seq<Phase>, step: Step)
    requires Inv(m, root, w, ph) && Enabled(w, step)
    ensures var ph' := NextPhases(m, root, w, ph, step);
            Inv(m, root, Apply(w, root, step), ph') && Deliveries(ph') == Deliveries(ph) + 1
  {
    match step
    case Request(to, from) => RequestKeepsInv(m, root, w, ph, to, from);
    case Response(to) => ResponseKeepsInv(m, root, w, ph, to);
  }

  function StartPhases(n: nat, root: nat): (ph: seq<Phase>)
    ensures |ph| == n && Deliveries(ph) == 0
  {
    var ph := seq(n, x => if x == root then Requested else Asleep);
    NoDeliveries(ph);
    ph
  }

  lemma {:induction false} NoDeliveries(ph: seq<Phase>)
    requires forall x: nat :: x < |ph| ==> Delivered(ph[x]) == 0
    ensures Deliveries(ph) == 0
  {
    if ph != [] {
      NoDeliveries(ph[..|ph| - 1]);
    }
  }

  lemma StartFits(m: nat, root: nat)
    requires root < Pow2(m)
    ensures Inv(m, root, Start(Pow2(m), root), StartPhases(Pow2(m), root))
  {
    var w, ph := Start(Pow2(m), root), StartPhases(Pow2(m), root);
    RootIsItsParent(m, root);
    forall rank | 0 <= rank < Pow2(m) ensures RankFits(m, root, w, ph, rank) {
      assert InPhase(m, root, ph, rank, Replied) == {};
    }
  }

  /** Once the root has replied, every other rank's reply has been counted. */
  lemma {:induction false} AllDoneBelow(m: nat, root: nat, w: World, ph: seq<Phase>, rank: nat)
    requires Inv(m, root, w, ph) && ph[root] == Replied && rank < Pow2(m) && rank != root
    ensures ph[rank] == Done
    decreases Relative(Pow2(m), root, rank)
  {
    var parent := ParentOf(m, root, rank);
    ParentIsNearer(m, root, rank);
    assert RankFits(m, root, w, ph, parent);
    if parent != root {
      AllDoneBelow(m, root, w, ph, parent);
    }
  }

  /** Below a rank that is not done, some message is in flight. */
  lemma {:induction false} SomethingInFlight(m: nat, root: nat, w: World, ph: seq<Phase>, rank: nat)
    returns (step: Step)
    requires Inv(m, root, w, ph) && rank < Pow2(m) && (ph[rank] == Requested || ph[rank] == Waiting)
    ensures Enabled(w, step)
    decreases Pow2(m) - Relative(Pow2(m), root, rank)
  {
    assert RankFits(m, root, w, ph, rank);
    if ph[rank] == Requested {
      var parent := ParentOf(m, root, rank);
      assert w.requests[Message(rank, parent)] == 1;
      return Request(rank, parent);
    }
    var done := InPhase(m, root, ph, rank, Done);
    assert done != Kids(m, root, rank);
    var c :| c in Kids(m, root, rank) && c !in done;
    ParentIsNearer(m, root, c);
    if ph[c] == Replied {
      assert c in InPhase(m, root, ph, rank, Replied);
      return Response(rank);
    }
    step := SomethingInFlight(m, root, w, ph, c);
  }

  lemma {:induction false} DeliveriesBound(ph: seq<Phase>, root: nat)
    requires root < |ph| && Delivered(ph[root]) <= 1
    ensures Deliveries(ph) <= 2 * |ph| - 1
    ensures ph[root] == Replied && (forall x: nat :: x < |ph| && x != root ==> ph[x] == Done) ==>
              Deliveries(ph) == 2 * |ph| - 1
  {
    var n := |ph| - 1;
    if root < n {
      DeliveriesBound(ph[..n], root);
    } else {
      AllDeliveries(ph[..n]);
    }
  }

  lemma {:induction false} AllDeliveries(ph: seq<Phase>)
    ensures Deliveries(ph) <= 2 * |ph|
    ensures (forall x: nat :: x < |ph| ==> ph[x] == Done) ==> Deliveries(ph) == 2 * |ph|
  {
    if ph != [] {
      AllDeliveries(ph[..|ph| - 1]);
    }
  }

  /** What the application at the root may rely on. */
  ghost predicate Complete(m: nat, root: nat, w: World) {
    && |w.machines| == Pow2(m)
    && (forall x: nat :: x < Pow2(m) ==> w.handled[x] == 1 && w.payloads[x] == if x == root then 0 else 1)
    && (forall x: nat :: x < Pow2(m) ==> w.machines[x].finished && w.machines[x].state == Init)
    && (forall step :: !Enabled(w, step))
  }

  lemma RepliedIsComplete(m: nat, root: nat, w: World, ph: seq<Phase>)
    requires Inv(m, root, w, ph)
    ensures w.appReplies == 1 ==> Complete(m, root, w) && Deliveries(ph) == 2 * Pow2(m) - 1
    ensures w.appReplies != 1 ==> exists step :: Enabled(w, step)
    ensures w.appReplies <= 1 && Deliveries(ph) <= 2 * Pow2(m) - 1
    ensures |w.machines| == Pow2(m) && (w.machines[root].finished <==> w.appReplies == 1)
    ensures forall x: nat :: x < Pow2(m) ==> w.handled[x] <= 1
  {
    DeliveriesBound(ph, root);
    assert RankFits(m, root, w, ph, root);
    forall x: nat | x < Pow2(m) ensures w.handled[x] <= 1 {
      assert RankFits(m, root, w, ph, x);
    }
    if ph[root] == Replied {
      forall x: nat | x < Pow2(m) && x != root ensures ph[x] == Done {
        AllDoneBelow(m, root, w, ph, x);
      }
      forall x: nat | x < Pow2(m)
        ensures w.handled[x] == 1 && w.payloads[x] == if x == root then 0 else 1
        ensures w.machines[x].finished && w.machines[x].state == Init
      {
        assert RankFits(m, root, w, ph, x);
      }
      NothingInFlight(m, root, w, ph);
    } else {
      var step := SomethingInFlight(m, root, w, ph, root);
    }
  }

  lemma NothingInFlight(m: nat, root: nat, w: World, ph: seq<Phase>)
    requires Inv(m, root, w, ph) && ph[root] == Replied
    requires forall x: nat :: x < Pow2(m) && x != root ==> ph[x] == Done
    ensures forall step :: !Enabled(w, step)
  {
    forall step ensures !Enabled(w, step) {
      if step.to < Pow2(m) {
        assert RankFits(m, root, w, ph, step.to);
        assert InPhase(m, root, ph, step.to, Replied) == {};
        if step.Request? {
          assert w.requests[Message(step.to, step.from)] == 0;
        }
      }
    }
  }

  lemma {:induction false} RunKeepsInv(m: nat, root: nat, w: World, ph: seq<Phase>, steps: seq<Step>, last: World)
    returns (ph': seq<Phase>)
    requires Inv(m, root, w, ph) && Runs(w, root, steps, last)
    ensures Inv(m, root, last, ph') && Deliveries(ph') == Deliveries(ph) + |steps|
    decreases |steps|
  {
    if steps == [] {
      ph' := ph;
    } else {
      StepKeepsInv(m, root, w, ph, steps[0]);
      ph' := RunKeepsInv(m, root, Apply(w, root, steps[0]), NextPhases(m, root, w, ph, steps[0]), steps[1..], last);
    }
  }

  /** The deliveries of requests among some steps; the others deliver replies. */
  function Requests(steps: seq<Step>): nat {
    if steps == [] then 0 else (if steps[0].Request? then 1 else 0) + Requests(steps[1..])
  }

  lemma StepHandles(m: nat, root: nat, w: World, ph: seq<Phase>, step: Step)
    requires Inv(m, root, w, ph) && Enabled(w, step)
    ensures Apply(w, root, step).handled == if step.Request? then w.handled + multiset{step.to} else w.handled
    ensures step.to < Pow2(m)
  {
    assert RankFits(m, root, w, ph, step.to);
  }

  /** Every request delivered is handled. */
  lemma {:induction false} RunHandles(m: nat, root: nat, w: World, ph: seq<Phase>, steps: seq<Step>, last: World)
    requires Inv(m, root, w, ph) && Runs(w, root, steps, last) && forall x :: x in w.handled ==> x < Pow2(m)
    ensures |last.handled| == |w.handled| + Requests(steps) && forall x :: x in last.handled ==> x < Pow2(m)
    decreases |steps|
  {
    if steps != [] {
      StepHandles(m, root, w, ph, steps[0]);
      StepKeepsInv(m, root, w, ph, steps[0]);
      RunHandles(m, root, Apply(w, root, steps[0]), NextPhases(m, root, w, ph, steps[0]), steps[1..], last);
    }
  }

  lemma {:induction false} OnceEach(s: multiset<nat>, n: nat)
    requires forall x: nat :: s[x] == if x < n then 1 else 0
    ensures |s| == n
  {
    if n == 0 {
      assert s == multiset{};
    } else {
      OnceEach(s - multiset{n - 1}, n - 1);
      assert s == (s - multiset{n - 1}) + multiset{n - 1};
    }
  }

  /** A finished broadcast has delivered one request to each rank, so all ranks together have sent one
      less, the root's being the application's. */
  lemma FinishedRequests(m: nat, root: nat, steps: seq<Step>, last: World)
    requires root < Pow2(m) && Runs(Start(Pow2(m), root), root, steps, last)
    requires forall x: nat :: x < Pow2(m) ==> last.handled[x] == 1
    ensures Requests(steps) == Pow2(m)
  {
    StartFits(m, root);
    RunHandles(m, root, Start(Pow2(m), root), StartPhases(Pow2(m), root), steps, last);
    OnceEach(last.handled, Pow2(m));
  }

  /** In every interleaving no rank handles the request twice and the root replies to the application
      at most once; while it has not, some message can be delivered, and when it has, every rank has
      handled the request once, and nothing is left in flight.  A finished broadcast has delivered
      every rank's request, n - 1 of them sent by ranks, and every reply but the root's: 2n - 1 messages. */
  lemma EveryBroadcast(m: nat, root: nat, steps: seq<Step>, last: World)
    requires root < Pow2(m) && Runs(Start(Pow2(m), root), root, steps, last)
    ensures |steps| <= 2 * Pow2(m) - 1 && last.appReplies <= 1
    ensures forall x: nat :: x < Pow2(m) ==> last.handled[x] <= 1
    ensures last.appReplies == 1 ==> Complete(m, root, last) && |steps| == 2 * Pow2(m) - 1
    ensures |last.machines| == Pow2(m) && (last.machines[root].finished <==> last.appReplies == 1)
    ensures last.appReplies == 1 ==> Requests(steps) == Pow2(m) && |steps| - Requests(steps) == Pow2(m) - 1
    ensures last.appReplies == 0 ==> exists step :: Enabled(last, step)
  {
    StartFits(m, root);
    var ph := RunKeepsInv(m, root, Start(Pow2(m), root), StartPhases(Pow2(m), root), steps, last);
    RepliedIsComplete(m, root, last, ph);
    if last.appReplies == 1 {
      FinishedRequests(m, root, steps, last);
    }
  }

  // ----- Any number of ranks -----

  /** The request the application posts at the root of a number of ranks that is no power of two. */
  lemma RootStopsAtOnce(size: nat, root: nat)
    requires root < size && Pow2(Steps(size)) != size
    ensures var w, first := Start(size, root), Request(root, root);
            && Enabled(w, first) && Runs(w, root, [first], Apply(w, root, first))
            && Apply(w, root, first).appReplies == 1 && Apply(w, root, first).handled == multiset{root}
  {
    var w, first := Start(size, root), Request(root, root);
    RootSendsNothing(size, root);
    assert Runs(Apply(w, root, first), root, [], Apply(w, root, first));
  }

  /** Whenever the root has replied to the application, every rank has handled the request. */
  ghost predicate ReachesAll(size: nat, root: nat) {
    forall steps, last :: Runs(Start(size, root), root, steps, last) && last.appReplies == 1 ==>
      forall x: nat :: x < size ==> last.handled[x] == 1
  }

  lemma PowerOfTwoReachesAll(m: nat, root: nat)
    requires root < Pow2(m)
    ensures ReachesAll(Pow2(m), root)
  {
    forall steps, last | Runs(Start(Pow2(m), root), root, steps, last) && last.appReplies == 1
      ensures forall x: nat :: x < Pow2(m) ==> last.handled[x] == 1
    {
      EveryBroadcast(m, root, steps, last);
    }
  }

  lemma OthersAreNotReached(size: nat, root: nat)
    requires root < size && Pow2(Steps(size)) != size
    ensures !ReachesAll(size, root)
  {
    RootStopsAtOnce(size, root);
    var last := Apply(Start(size, root), root, Request(root, root));
    assert Runs(Start(size, root), root, [Request(root, root)], last);
    var other := if root == 0 then 1 else 0;
    assert other < size && last.handled[other] == 0;
  }

  /** A broadcast reaches all ranks exactly when their number is a power of two. */
  lemma ReachesAllExactly(size: nat, root: nat)
    requires root < size
    ensures ReachesAll(size, root) <==> exists m :: Pow2(m) == size
  {
    if m :| Pow2(m) == size {
      StepsOfPow2(m, 0);
    }
    if Pow2(Steps(size)) == size {
      PowerOfTwoReachesAll(Steps(size), root);
    } else {
      OthersAreNotReached(size, root);
    }
  }
}
