/** The broadcast state machine of one rank: a tree computed by bit arithmetic, and replies counted
    up the tree.  Ranks are those of the communicator. */
module Broadcasts {
  import opened Arithmetic
  import opened Sequences

  function Pow2(n: nat): (p: nat)
    ensures 1 <= p
  {
    if n == 0 then 1 else 2 * Pow2(n - 1)
  }

  /** The least number of tree levels for `size` ranks: the base-2 logarithm, rounded up. */
  function Steps(size: nat, s: nat := 0): (r: nat)
    decreases size - Pow2(s)
  {
    if size <= Pow2(s) then s else Steps(size, s + 1)
  }

  /** The number of bits of `d`: how often it can be halved. */
  function BitLength(d: nat): nat {
    if d == 0 then 0 else 1 + BitLength(d / 2)
  }

  /** Where a rank starts to send: past the level it was itself reached on. */
  function FirstLevel(size: nat, rank: nat, parent: nat): nat
    requires parent < size
  {
    BitLength(Distance(size, rank, parent, Pow2(Steps(size))))
  }

  function Distance(size: nat, rank: nat, parent: nat, around: nat): nat
    requires parent < size && 0 < around
  {
    (size + rank - parent) % around
  }

  function Child(rank: nat, steps: nat, i: nat): nat {
    (rank + Pow2(i)) % Pow2(steps)
  }

  /** The ranks sent to on levels `i`, ..., `steps - 1`. */
  function ChildrenFrom(size: nat, steps: nat, rank: nat, i: nat): seq<nat>
    decreases steps - i
  {
    if steps <= i then []
    else
      var child := Child(rank, steps, i);
      (if child < size then [child] else []) + ChildrenFrom(size, steps, rank, i + 1)
  }

  function Children(size: nat, rank: nat, parent: nat): seq<nat>
    requires parent < size
  {
    ChildrenFrom(size, Steps(size), rank, FirstLevel(size, rank, parent))
  }

  // ----- The state machine -----

  datatype State = Init | Wait

  datatype Machine = Machine(state: State, rspCounter: nat, childNum: nat, parent: int, finished: bool)

  datatype Reply = NoReply | ToApp | ToParent(parent: int)

  /** A new state, the ranks the request is sent on to, whether the payload goes to the application
      and the reply. */
  datatype Action = Action(machine: Machine, requests: seq<nat>, payload: bool, reply: Reply)

  /** The response states are passed through on the way back to the initial one. */
  function Respond(rank: nat, parent: int): Reply {
    if parent == rank then ToApp else ToParent(parent)
  }

  const IDLE := Machine(Init, 0, 0, -1, true)

  function OnRequest(m: Machine, size: nat, rank: nat, parent: nat, root: nat): Action
    requires parent < size
  {
    if m.state == Wait then Action(m, [], false, NoReply)
    else
      var kids := Children(size, rank, parent);
      if m.childNum + |kids| != 0 then
        Action(m.(state := Wait, childNum := m.childNum + |kids|, parent := parent), kids, rank != root, NoReply)
      else Action(IDLE, [], rank != root, Respond(rank, parent))
  }

  function OnResponse(m: Machine, rank: nat): Action {
    if m.state == Init then Action(IDLE, [], false, NoReply)
    else if m.rspCounter == m.childNum - 1 then Action(IDLE, [], false, Respond(rank, m.parent))
    else Action(m.(rspCounter := m.rspCounter + 1), [], false, NoReply)
  }

  class BcastStateMachine {
    const rank: nat
    var state: State
    var rspCounter: nat
    var childNum: nat
    var parentWRank: int
    var finished: bool

    function Abstract(): Machine
      reads this
    {
      Machine(state, rspCounter, childNum, parentWRank, finished)
    }

    constructor (rank: nat)
      ensures this.rank == rank && Abstract() == Machine(Init, 0, 0, -1, false)
    {
      this.rank := rank;
      state := Init;
      rspCounter, childNum := 0, 0;
      parentWRank := -1;
      finished := false;
    }

    method HandleRequest(size: nat, parent: nat, root: nat) returns (requests: seq<nat>, payload: bool, reply: Reply)
      requires parent < size
      modifies this
      ensures Action(Abstract(), requests, payload, reply) == OnRequest(old(Abstract()), size, rank, parent, root)
    {
      requests, payload, reply := [], false, NoReply;
      if state == Init {
        requests, payload := EnterBcast(size, parent, root);
        if childNum != 0 {
          state := Wait;
        } else {
          reply := EnterRsp();
        }
      }
    }

    method HandleResponse() returns (reply: Reply)
      modifies this
      ensures Action(Abstract(), [], false, reply) == OnResponse(old(Abstract()), rank)
    {
      reply := NoReply;
      if state == Wait {
        if rspCounter == childNum - 1 {
          reply := EnterRsp();
        } else {
          rspCounter := rspCounter + 1;
        }
      } else {
        EnterInit();
      }
    }

    method EnterBcast(size: nat, parent: nat, root: nat) returns (requests: seq<nat>, payload: bool)
      requires parent < size
      modifies this
      ensures requests == Children(size, rank, parent) && payload == (rank != root)
      ensures Abstract() == old(Abstract()).(childNum := old(childNum) + |requests|, parent := parent)
    {
      var steps := Steps(size);
      var mystep := 0;
      var dist := Distance(size, rank, parent, Pow2(steps));
      while dist != 0
        invariant mystep + BitLength(dist) == FirstLevel(size, rank, parent)
      {
        dist := dist / 2;
        mystep := mystep + 1;
      }
      payload := rank != root;
      parentWRank := parent;
      requests := SendDown(size, steps, mystep);
    }

    /** The second loop of `EnterBcast`: send to the children of each level left. */
    method SendDown(size: nat, steps: nat, mystep: nat) returns (requests: seq<nat>)
      modifies this`childNum
      ensures requests == ChildrenFrom(size, steps, rank, mystep) && childNum == old(childNum) + |requests|
    {
      requests := [];
      var i := mystep;
      while i < steps
        invariant requests + ChildrenFrom(size, steps, rank, i) == ChildrenFrom(size, steps, rank, mystep)
        invariant childNum == old(childNum) + |requests|
      {
        var childRank := Child(rank, steps, i);
        if childRank < size {
          Associative(requests, [childRank], ChildrenFrom(size, steps, rank, i + 1));
          requests := requests + [childRank];
          childNum := childNum + 1;
        }
        i := i + 1;
      }
    }

    method EnterRsp() returns (reply: Reply)
      modifies this
      ensures reply == Respond(rank, old(parentWRank)) && Abstract() == IDLE
    {
      reply := if parentWRank == rank then ToApp else ToParent(parentWRank);
      finished := true;
      EnterInit();
    }

    method EnterInit()
      modifies this
      ensures Abstract() == IDLE
    {
      state := Init;
      rspCounter, childNum := 0, 0;
      parentWRank := -1;
      finished := true;
    }
  }

  // ----- The tree over a power of two of ranks -----

  lemma {:induction false} StepsOfPow2(m: nat, s: nat)
    requires s <= m
    ensures Steps(Pow2(m), s) == m
    decreases m - s
  {
    if s < m {
      Pow2Increases(s, m);
      StepsOfPow2(m, s + 1);
    }
  }

  /** The number of levels is the least that reaches all ranks. */
  lemma {:induction false} StepsIsLeast(size: nat, s: nat)
    ensures size <= Pow2(Steps(size, s)) && s <= Steps(size, s)
    ensures s < Steps(size, s) ==> Pow2(Steps(size, s) - 1) < size
    decreases size - Pow2(s)
  {
    if Pow2(s) < size {
      StepsIsLeast(size, s + 1);
    }
  }

  lemma {:induction false} Pow2Increases(a: nat, b: nat)
    requires a < b
    ensures 2 * Pow2(a) <= Pow2(b)
  {
    if a + 1 < b {
      Pow2Increases(a, b - 1);
    }
  }

  lemma {:induction false} BitLengthBounds(d: nat)
    ensures d < Pow2(BitLength(d))
    ensures 0 < d ==> 0 < BitLength(d) && Pow2(BitLength(d) - 1) <= d
  {
    if 0 < d {
      BitLengthBounds(d / 2);
    }
  }

  lemma {:induction false} BitLengthIs(d: nat, b: nat)
    requires d < Pow2(b) && (0 < b ==> Pow2(b - 1) <= d)
    ensures BitLength(d) == b
  {
    BitLengthBounds(d);
    if BitLength(d) < b {
      if BitLength(d) < b - 1 {
        Pow2Increases(BitLength(d), b - 1);
      }
    } else if b < BitLength(d) {
      if b < BitLength(d) - 1 {
        Pow2Increases(b, BitLength(d) - 1);
      }
    }
  }

  /** Addition modulo `n`. */
  function Around(a: nat, b: nat, n: nat): nat {
    if a + b < n then a + b else a + b - n
  }

  lemma ModOnce(x: nat, n: nat)
    requires x < 2 * n
    ensures x % n == if x < n then x else x - n
  {
    if x < n {
      DivIs(x, n, 0, x);
    } else {
      DivIs(x, n, 1, x - n);
    }
  }

  /** How far a rank is from the root, going up and around. */
  function Relative(n: nat, root: nat, rank: nat): nat
    requires root < n && rank < n
  {
    if root <= rank then rank - root else rank + n - root
  }

  /** The relative rank without its top set bit. */
  function Above(v: nat): (u: nat)
    ensures 0 < v ==> u < v
  {
    BitLengthBounds(v);
    if v == 0 then 0 else v - Pow2(BitLength(v) - 1)
  }

  /** The relative ranks below `v`: each level past its own bits sets one more bit. */
  function Below(v: nat, m: nat, i: nat): seq<nat>
    decreases m - i
  {
    if m <= i then [] else [v + Pow2(i)] + Below(v, m, i + 1)
  }

  function Ranks(n: nat, root: nat, vs: seq<nat>): seq<nat> {
    if vs == [] then [] else [Around(root, vs[0], n)] + Ranks(n, root, vs[1..])
  }

  lemma BelowLevel(v: nat, m: nat, i: nat)
    requires BitLength(v) <= i < m
    ensures v < Pow2(i) && v + Pow2(i) < Pow2(m)
    ensures BitLength(v + Pow2(i)) == i + 1 && Above(v + Pow2(i)) == v
  {
    BitLengthBounds(v);
    if BitLength(v) < i {
      Pow2Increases(BitLength(v), i);
    }
    Pow2Increases(i, m);
    BitLengthIs(v + Pow2(i), i + 1);
  }

  lemma {:induction false} ChildrenFromInTree(m: nat, root: nat, v: nat, i: nat)
    requires root < Pow2(m) && v < Pow2(m) && BitLength(v) <= i
    ensures ChildrenFrom(Pow2(m), m, Around(root, v, Pow2(m)), i) == Ranks(Pow2(m), root, Below(v, m, i))
    decreases m - i
  {
    if i < m {
      BelowLevel(v, m, i);
      ModOnce(Around(root, v, Pow2(m)) + Pow2(i), Pow2(m));
      assert Child(Around(root, v, Pow2(m)), m, i) == Around(root, v + Pow2(i), Pow2(m));
      ChildrenFromInTree(m, root, v, i + 1);
    }
  }

  lemma FirstLevelInTree(m: nat, root: nat, v: nat)
    requires root < Pow2(m) && v < Pow2(m)
    ensures FirstLevel(Pow2(m), Around(root, v, Pow2(m)), Around(root, Above(v), Pow2(m))) == BitLength(v)
  {
    var n := Pow2(m);
    StepsOfPow2(m, 0);
    BitLengthBounds(v);
    Unwrap(n, root, v, Above(v));
    if 0 < v {
      BitLengthIs(Pow2(BitLength(v) - 1), BitLength(v));
    }
  }

  lemma Unwrap(n: nat, root: nat, v: nat, u: nat)
    requires root < n && u <= v < n
    ensures Distance(n, Around(root, v, n), Around(root, u, n), n) == v - u
  {
    ModOnce(n + Around(root, v, n) - Around(root, u, n), n);
  }

  /** On a power of two of ranks the code's children of a rank are those of the binomial tree. */
  lemma ChildrenInTree(m: nat, root: nat, v: nat)
    requires root < Pow2(m) && v < Pow2(m)
    ensures Children(Pow2(m), Around(root, v, Pow2(m)), Around(root, Above(v), Pow2(m))) ==
            Ranks(Pow2(m), root, Below(v, m, BitLength(v)))
  {
    StepsOfPow2(m, 0);
    FirstLevelInTree(m, root, v);
    ChildrenFromInTree(m, root, v, BitLength(v));
  }

  // ----- Children and parents -----

  function ParentOf(m: nat, root: nat, rank: nat): (p: nat)
    requires root < Pow2(m) && rank < Pow2(m)
    ensures p < Pow2(m)
  {
    Around(root, Above(Relative(Pow2(m), root, rank)), Pow2(m))
  }

  function KidsOf(m: nat, root: nat, rank: nat): seq<nat>
    requires root < Pow2(m) && rank < Pow2(m)
  {
    var v := Relative(Pow2(m), root, rank);
    Ranks(Pow2(m), root, Below(v, m, BitLength(v)))
  }

  lemma {:induction false} BelowHas(v: nat, m: nat, i: nat, w: nat)
    requires BitLength(v) <= i
    ensures w in Below(v, m, i) <==> 0 < w < Pow2(m) && Above(w) == v && i < BitLength(w)
    decreases m - i
  {
    BitLengthBounds(w);
    if i < m {
      BelowLevel(v, m, i);
      BelowHas(v, m, i + 1, w);
      if 0 < w && BitLength(w) == i + 1 && Above(w) == v {
        assert w == v + Pow2(i);
      }
    } else if 0 < w && i < BitLength(w) {
      Pow2AtMost(m, BitLength(w) - 1);
    }
  }

  lemma Pow2AtMost(a: nat, b: nat)
    requires a <= b
    ensures Pow2(a) <= Pow2(b)
  {
    if a < b {
      Pow2Increases(a, b);
    }
  }

  lemma {:induction false} RanksHave(n: nat, root: nat, vs: seq<nat>, rank: nat)
    requires root < n && rank < n && forall v :: v in vs ==> v < n
    ensures rank in Ranks(n, root, vs) <==> Relative(n, root, rank) in vs
  {
    if vs != [] {
      assert vs[0] in vs && forall v :: v in vs[1..] ==> v in vs;
      RanksHave(n, root, vs[1..], rank);
      assert rank == Around(root, vs[0], n) <==> Relative(n, root, rank) == vs[0];
    }
  }

  lemma AboveShortens(w: nat)
    requires 0 < w
    ensures BitLength(Above(w)) < BitLength(w)
  {
    BitLengthBounds(w);
    BitLengthBounds(Above(w));
    if BitLength(w) <= BitLength(Above(w)) {
      Pow2AtMost(BitLength(w) - 1, BitLength(Above(w)) - 1);
    }
  }

  lemma BelowBounded(v: nat, m: nat)
    ensures forall w :: w in Below(v, m, BitLength(v)) ==> w < Pow2(m)
  {
    forall w | w in Below(v, m, BitLength(v)) ensures w < Pow2(m) {
      BelowHas(v, m, BitLength(v), w);
    }
  }

  /** A rank sends to exactly those whose parent it is: every rank but the root has one parent, its
      relative rank with the top set bit cleared, and no other rank sends to it. */
  lemma KidsAreTheChildren(m: nat, root: nat, rank: nat, child: nat)
    requires root < Pow2(m) && rank < Pow2(m) && child < Pow2(m)
    ensures child in KidsOf(m, root, rank) <==> child != root && ParentOf(m, root, child) == rank
  {
    var n := Pow2(m);
    var v, w := Relative(n, root, rank), Relative(n, root, child);
    BelowBounded(v, m);
    RanksHave(n, root, Below(v, m, BitLength(v)), child);
    BelowHas(v, m, BitLength(v), w);
    if 0 < w {
      AboveShortens(w);
    }
  }

  /** What the code computes from its rank and the parent named in the request. */
  lemma CodeComputesKids(m: nat, root: nat, rank: nat)
    requires root < Pow2(m) && rank < Pow2(m)
    ensures Children(Pow2(m), rank, ParentOf(m, root, rank)) == KidsOf(m, root, rank)
  {
    var v := Relative(Pow2(m), root, rank);
    ChildrenInTree(m, root, v);
    assert Around(root, v, Pow2(m)) == rank;
  }

  // ----- The set of children -----

  function Kids(m: nat, root: nat, rank: nat): set<nat>
    requires root < Pow2(m) && rank < Pow2(m)
  {
    set c | 0 <= c < Pow2(m) && c != root && ParentOf(m, root, c) == rank
  }

  lemma {:induction false} BelowDistinct(v: nat, m: nat, i: nat)
    requires BitLength(v) <= i
    ensures Distinct(Below(v, m, i))
    decreases m - i
  {
    if i < m {
      BelowLevel(v, m, i);
      BelowHas(v, m, i + 1, v + Pow2(i));
      BelowDistinct(v, m, i + 1);
    }
  }

  lemma {:induction false} RanksDistinct(n: nat, root: nat, vs: seq<nat>)
    requires root < n && Distinct(vs) && forall v :: v in vs ==> v < n
    ensures Distinct(Ranks(n, root, vs)) && |Ranks(n, root, vs)| == |vs|
    ensures forall r :: r in Ranks(n, root, vs) ==> r < n
  {
    if vs != [] {
      assert vs[0] in vs && forall v :: v in vs[1..] ==> v in vs;
      RanksDistinct(n, root, vs[1..]);
      RanksHave(n, root, vs[1..], Around(root, vs[0], n));
    }
  }

  lemma KidsCount(m: nat, root: nat, rank: nat)
    requires root < Pow2(m) && rank < Pow2(m)
    ensures var kids := KidsOf(m, root, rank);
            && Distinct(kids) && |kids| == |Kids(m, root, rank)|
            && forall c: nat :: c in kids <==> c in Kids(m, root, rank)
  {
    var v := Relative(Pow2(m), root, rank);
    var kids := KidsOf(m, root, rank);
    BelowBounded(v, m);
    BelowDistinct(v, m, BitLength(v));
    RanksDistinct(Pow2(m), root, Below(v, m, BitLength(v)));
    forall c: nat ensures c in kids <==> c in Kids(m, root, rank) {
      if c < Pow2(m) {
        KidsAreTheChildren(m, root, rank, c);
      }
    }
    DistinctCount(kids, Kids(m, root, rank));
  }

  /** Parents are nearer to the root. */
  lemma ParentIsNearer(m: nat, root: nat, rank: nat)
    requires root < Pow2(m) && rank < Pow2(m) && rank != root
    ensures Relative(Pow2(m), root, ParentOf(m, root, rank)) < Relative(Pow2(m), root, rank)
    ensures ParentOf(m, root, rank) != rank && rank in Kids(m, root, ParentOf(m, root, rank))
  {
  }

  // ----- Other numbers of ranks -----

  /** A number of ranks that is no power of two: the root computes that it has no one to send to. */
  lemma RootSendsNothing(size: nat, root: nat)
    requires root < size && Pow2(Steps(size)) != size
    ensures Children(size, root, root) == []
  {
    StepsBounds(size, 0);
    var s := Steps(size);
    ModOnce(size, Pow2(s));
    if 0 < s {
      BitLengthIs(size, s);
    }
  }

  lemma {:induction false} StepsBounds(size: nat, s: nat)
    requires s == 0 || Pow2(s - 1) < size
    ensures var r := Steps(size, s); s <= r && size <= Pow2(r) && (0 < r ==> Pow2(r - 1) < size)
    decreases size - Pow2(s)
  {
    if Pow2(s) < size {
      StepsBounds(size, s + 1);
    }
  }
}
