/** The fixed-size cache with least-recently-used replacement: a map of entries and a list of its
    keys, the most recently used one first. */
module LRUCaches {

  import opened Options
  import opened Sequences

  datatype Entry<V> = Entry(data: V, isDirty: bool)

  datatype Evicted<K, V> = Evicted(key: K, value: V, isDirty: bool)

  datatype Cache<K(==, !new), V> = Cache(capacity: nat, entries: map<K, Entry<V>>, list: seq<K>) {

    /** List and map hold the same keys, each once, and no more than the capacity. */
    ghost predicate Consistent() {
      && 0 < capacity && |list| <= capacity && Distinct(list)
      && forall k :: k in list <==> k in entries
    }

    function Remove(key: K): Cache<K, V> {
      this.(entries := entries - {key}, list := Erase(list, key))
    }

    function Touch(key: K): Cache<K, V> {
      this.(list := [key] + Erase(list, key))
    }

    /** What a full cache gives up for a new key. */
    function Victim(): (k: K)
      requires list != []
    {
      list[|list| - 1]
    }

    function Evicts(key: K): bool {
      key !in entries && |list| == capacity && list != []
    }

    function MakeRoom(key: K): Cache<K, V> {
      if Evicts(key) then Remove(Victim()) else this
    }

    function Insert(key: K, value: V, isDirty: bool): Cache<K, V> {
      var c := MakeRoom(key).Touch(key);
      c.(entries := c.entries[key := Entry(value, isDirty)])
    }

    /** Use a key: look it up, or insert it when it is not there. */
    function Access(key: K, value: V): Cache<K, V> {
      if key in entries then Touch(key) else Insert(key, value, false)
    }
  }

  function Erase<K(==)>(s: seq<K>, key: K): (t: seq<K>)
    ensures |t| <= |s|
  {
    if s == [] then [] else if s[0] == key then s[1..] else [s[0]] + Erase(s[1..], key)
  }

  // ----- Lists of distinct keys -----

  lemma {:induction false} EraseKeys<K(!new)>(s: seq<K>, key: K)
    requires Distinct(s)
    ensures Distinct(Erase(s, key)) && key !in Erase(s, key)
    ensures forall k :: k != key ==> (k in Erase(s, key) <==> k in s)
    ensures |Erase(s, key)| == if key in s then |s| - 1 else |s|
  {
    if s != [] && s[0] != key {
      EraseKeys(s[1..], key);
      DistinctCons(s[0], Erase(s[1..], key));
    }
  }

  lemma DistinctCons<K(!new)>(x: K, s: seq<K>)
    requires Distinct(s) && x !in s
    ensures Distinct([x] + s)
  {
  }

  // ----- The operations keep list and map together -----

  lemma RemoveKeeps<K(!new), V>(c: Cache<K, V>, key: K)
    requires c.Consistent()
    ensures c.Remove(key).Consistent()
    ensures key in c.entries ==> |c.Remove(key).list| == |c.list| - 1
  {
    EraseKeys(c.list, key);
  }

  lemma TouchKeeps<K(!new), V>(c: Cache<K, V>, key: K)
    requires c.Consistent() && key in c.entries
    ensures c.Touch(key).Consistent() && |c.Touch(key).list| == |c.list|
  {
    EraseKeys(c.list, key);
    DistinctCons(key, Erase(c.list, key));
  }

  lemma MakeRoomKeeps<K(!new), V>(c: Cache<K, V>, key: K)
    requires c.Consistent()
    ensures var d := c.MakeRoom(key);
            d.Consistent() && (key in d.entries <==> key in c.entries) && (key !in c.entries ==> |d.list| < c.capacity)
  {
    if c.Evicts(key) {
      RemoveKeeps(c, c.Victim());
    }
  }

  lemma InsertKeeps<K(!new), V>(c: Cache<K, V>, key: K, value: V, isDirty: bool)
    requires c.Consistent()
    ensures c.Insert(key, value, isDirty).Consistent()
  {
    MakeRoomKeeps(c, key);
    var d := c.MakeRoom(key);
    EraseKeys(d.list, key);
    DistinctCons(key, Erase(d.list, key));
  }

  /** Inserting a new key: room is made, and the key goes to the front. */
  lemma InsertMiss<K(!new), V>(c: Cache<K, V>, key: K, value: V, isDirty: bool)
    requires c.Consistent() && key !in c.entries
    ensures var d := c.MakeRoom(key);
            && c.Insert(key, value, isDirty) ==
               d.(entries := d.entries[key := Entry(value, isDirty)], list := [key] + d.list)
            && key !in d.entries && |d.list| < c.capacity
  {
    MakeRoomKeeps(c, key);
    EraseAbsent(c.MakeRoom(key).list, key);
  }

  /** An insertion gives the key its new entry and loses nothing but the victim of a full cache. */
  lemma InsertLosesOnlyVictim<K(!new), V>(c: Cache<K, V>, key: K, value: V, isDirty: bool)
    requires c.Consistent()
    ensures var d := c.Insert(key, value, isDirty);
            && key in d.entries && d.entries[key] == Entry(value, isDirty)
            && (forall k :: k != key ==>
                 (k in d.entries <==> k in c.entries && !(c.Evicts(key) && k == c.Victim())))
            && (forall k :: k != key && k in d.entries ==> d.entries[k] == c.entries[k])
            && (c.Evicts(key) ==> c.Victim() in c.entries && c.Victim() !in d.entries)
  {
    if c.Evicts(key) {
      assert c.Victim() in c.list;
    }
  }

  // ----- Inclusion: what a cache holds is decided by recency alone -----

  /** The keys of a trace, the most recently used one first. */
  function Recency<K(==)>(trace: seq<K>): seq<K> {
    if trace == [] then []
    else
      var n := |trace| - 1;
      [trace[n]] + Erase(Recency(trace[..n]), trace[n])
  }

  /** Erasing a key leaves the others in their order. */
  lemma {:induction false} EraseAt<K(!new)>(s: seq<K>, key: K, p: nat)
    requires p < |s| && s[p] == key && key !in s[..p]
    ensures Erase(s, key) == s[..p] + s[p + 1..]
  {
    if 0 < p {
      assert s[0] == s[..p][0];
      assert s[1..][..p - 1] == s[..p][1..];
      EraseAt(s[1..], key, p - 1);
    }
  }

  /** Removing a key takes it out of the list, and leaves the order of the others. */
  lemma RemoveKeepsOrder<K(!new), V>(c: Cache<K, V>, key: K, p: nat)
    requires c.Consistent() && p < |c.list| && c.list[p] == key
    ensures c.Remove(key).list == c.list[..p] + c.list[p + 1..] && c.Remove(key).entries == c.entries - {key}
  {
    EraseAt(c.list, key, p);
  }

  lemma {:induction false} RecencyKeys<K(!new)>(trace: seq<K>, key: K)
    ensures key in Recency(trace) <==> key in trace
  {
    if trace != [] {
      var n := |trace| - 1;
      RecencyKeys(trace[..n], key);
      RecencyDistinct(trace[..n]);
      EraseKeys(Recency(trace[..n]), trace[n]);
      assert trace == trace[..n] + [trace[n]];
    }
  }

  /** A key that was used and since when another one was not. */
  ghost predicate UsedAfter<K(!new)>(trace: seq<K>, later: K, earlier: K) {
    exists a :: 0 <= a < |trace| && trace[a] == later && earlier !in trace[a..]
  }

  /** The order by recency is that of the last uses. */
  lemma {:induction false} RecencyIsLastUse<K(!new)>(trace: seq<K>, i: nat, j: nat)
    requires i < j < |Recency(trace)|
    ensures UsedAfter(trace, Recency(trace)[i], Recency(trace)[j])
  {
    var n := |trace| - 1;
    var x, before := trace[n], Recency(trace[..n]);
    RecencyDistinct(trace[..n]);
    EraseKeys(before, x);
    if i == 0 {
      assert trace[n..] == [x];
      assert trace[n] == x && Recency(trace)[j] != x;
    } else {
      var i', j' := PlacesBefore(before, x, i - 1, j - 1);
      RecencyIsLastUse(trace[..n], i', j');
      var a :| 0 <= a < n && trace[..n][a] == before[i'] && before[j'] !in trace[..n][a..];
      assert trace[a..] == trace[..n][a..] + [x];
    }
  }

  /** Where two keys left after erasing one were before. */
  lemma PlacesBefore<K(!new)>(s: seq<K>, x: K, i: nat, j: nat) returns (i': nat, j': nat)
    requires Distinct(s) && i < j < |Erase(s, x)|
    ensures i' < j' < |s| && s[i'] == Erase(s, x)[i] && s[j'] == Erase(s, x)[j]
  {
    if x in s {
      var p :| 0 <= p < |s| && s[p] == x;
      EraseAt(s, x, p);
      i', j' := if i < p then i else i + 1, if j < p then j else j + 1;
    } else {
      EraseAbsent(s, x);
      i', j' := i, j;
    }
  }

  function Take<K>(s: seq<K>, n: nat): seq<K> {
    if n < |s| then s[..n] else s
  }

  /** The cache after a trace of uses. */
  function After<K(!new), V>(c: Cache<K, V>, trace: seq<K>, value: V): Cache<K, V> {
    if trace == [] then c
    else
      var n := |trace| - 1;
      After(c, trace[..n], value).Access(trace[n], value)
  }

  lemma {:induction false} RecencyDistinct<K(!new)>(trace: seq<K>)
    ensures Distinct(Recency(trace))
  {
    if trace != [] {
      var n := |trace| - 1;
      RecencyDistinct(trace[..n]);
      EraseKeys(Recency(trace[..n]), trace[n]);
      DistinctCons(trace[n], Erase(Recency(trace[..n]), trace[n]));
    }
  }

  lemma TakeCons<K>(x: K, s: seq<K>, n: nat)
    requires 0 < n
    ensures Take([x] + s, n) == [x] + Take(s, n - 1)
  {
  }

  lemma {:induction false} EraseLater<K(!new)>(s: seq<K>, key: K, n: nat)
    requires Distinct(s)
    ensures key in Take(s, n) ==> 0 < n && Take(Erase(s, key), n - 1) == Erase(Take(s, n), key)
    ensures key !in Take(s, n) ==> Take(Erase(s, key), n) == Take(s, n)
  {
    if s != [] && n != 0 {
      assert s == [s[0]] + s[1..];
      TakeCons(s[0], s[1..], n);
      if s[0] != key {
        EraseLater(s[1..], key, n - 1);
        TakeCons(s[0], Erase(s[1..], key), n);
        if key in Take(s[1..], n - 1) {
          TakeCons(s[0], Erase(s[1..], key), n - 1);
        }
      }
    }
  }

  lemma {:induction false} EraseLast<K(!new)>(s: seq<K>)
    requires s != [] && Distinct(s)
    ensures Erase(s, s[|s| - 1]) == s[..|s| - 1]
  {
    if |s| != 1 {
      EraseLast(s[1..]);
    }
  }

  lemma {:induction false} EraseAbsent<K(!new)>(s: seq<K>, key: K)
    requires key !in s
    ensures Erase(s, key) == s
  {
    if s != [] {
      EraseAbsent(s[1..], key);
    }
  }

  /** One use of a key keeps the list the most recent part of all keys used. */
  lemma AccessIsRecency<K(!new), V>(c: Cache<K, V>, all: seq<K>, key: K, value: V)
    requires c.Consistent() && Distinct(all) && c.list == Take(all, c.capacity)
    ensures c.Access(key, value).Consistent()
    ensures c.Access(key, value).list == Take([key] + Erase(all, key), c.capacity)
  {
    TakeCons(key, Erase(all, key), c.capacity);
    if key in c.entries {
      TouchKeeps(c, key);
      EraseLater(all, key, c.capacity);
    } else {
      InsertKeeps(c, key, value, false);
      MissIsRecency(c, all, key);
    }
  }

  /** An insertion does so too, whether the key is there or not. */
  lemma InsertIsRecency<K(!new), V>(c: Cache<K, V>, all: seq<K>, key: K, value: V, isDirty: bool)
    requires c.Consistent() && Distinct(all) && c.list == Take(all, c.capacity)
    ensures c.Insert(key, value, isDirty).Consistent()
    ensures c.Insert(key, value, isDirty).list == Take([key] + Erase(all, key), c.capacity)
  {
    TakeCons(key, Erase(all, key), c.capacity);
    InsertKeeps(c, key, value, isDirty);
    if key in c.entries {
      EraseLater(all, key, c.capacity);
    } else {
      MissIsRecency(c, all, key);
    }
  }

  lemma MissIsRecency<K(!new), V>(c: Cache<K, V>, all: seq<K>, key: K)
    requires c.Consistent() && Distinct(all) && c.list == Take(all, c.capacity) && key !in c.entries
    ensures c.MakeRoom(key).Touch(key).list == [key] + Take(Erase(all, key), c.capacity - 1)
  {
    EraseLater(all, key, c.capacity - 1);
    if c.Evicts(key) {
      EraseLast(c.list);
      EraseAbsent(Erase(c.list, c.Victim()), key);
    } else {
      EraseAbsent(c.list, key);
    }
  }

  /** After any trace the list is the capacity-long prefix of the keys by recency. */
  lemma {:induction false} ListIsRecentPrefix<K(!new), V>(c: Cache<K, V>, trace: seq<K>, value: V)
    requires c.Consistent() && c.list == []
    ensures var d := After(c, trace, value);
            d.Consistent() && d.capacity == c.capacity && d.list == Take(Recency(trace), c.capacity)
  {
    if trace != [] {
      var n := |trace| - 1;
      ListIsRecentPrefix(c, trace[..n], value);
      RecencyDistinct(trace[..n]);
      AccessIsRecency(After(c, trace[..n], value), Recency(trace[..n]), trace[n], value);
    }
  }

  /** The number of uses of a trace that find their key. */
  function Hits<K(!new), V>(c: Cache<K, V>, trace: seq<K>, value: V): nat {
    if trace == [] then 0
    else
      var n := |trace| - 1;
      Hits(c, trace[..n], value) + if trace[n] in After(c, trace[..n], value).entries then 1 else 0
  }

  lemma LargerHoldsMore<K(!new), V>(c: Cache<K, V>, d: Cache<K, V>, trace: seq<K>, value: V)
    requires c.Consistent() && d.Consistent() && c.list == [] && d.list == [] && c.capacity <= d.capacity
    ensures After(c, trace, value).list <= After(d, trace, value).list
    ensures After(c, trace, value).entries.Keys <= After(d, trace, value).entries.Keys
  {
    ListIsRecentPrefix(c, trace, value);
    ListIsRecentPrefix(d, trace, value);
    forall k | k in After(c, trace, value).entries ensures k in After(d, trace, value).entries {
      assert k in After(c, trace, value).list;
    }
  }

  /** A larger cache never has fewer hits. */
  lemma {:induction false} LargerHitsMore<K(!new), V>(c: Cache<K, V>, d: Cache<K, V>, trace: seq<K>, value: V)
    requires c.Consistent() && d.Consistent() && c.list == [] && d.list == [] && c.capacity <= d.capacity
    ensures Hits(c, trace, value) <= Hits(d, trace, value)
  {
    if trace != [] {
      var n := |trace| - 1;
      LargerHitsMore(c, d, trace[..n], value);
      LargerHoldsMore(c, d, trace[..n], value);
    }
  }

  // ----- The dirty counter -----

  function DirtyKeys<K(!new), V>(entries: map<K, Entry<V>>): set<K> {
    set k | k in entries && entries[k].isDirty
  }

  function DirtyCount<K(!new), V>(entries: map<K, Entry<V>>): nat {
    |DirtyKeys(entries)|
  }

  lemma DirtyPut<K(!new), V>(entries: map<K, Entry<V>>, key: K, e: Entry<V>)
    ensures DirtyCount(entries[key := e]) ==
            DirtyCount(entries) - (if key in entries && entries[key].isDirty then 1 else 0)
            + (if e.isDirty then 1 else 0)
  {
    var rest := DirtyKeys(entries) - {key};
    assert DirtyKeys(entries[key := e]) == if e.isDirty then rest + {key} else rest;
    assert DirtyKeys(entries) == if key in entries && entries[key].isDirty then rest + {key} else rest;
  }

  lemma DirtyErase<K(!new), V>(entries: map<K, Entry<V>>, key: K)
    ensures DirtyCount(entries - {key}) ==
            DirtyCount(entries) - if key in entries && entries[key].isDirty then 1 else 0
  {
    assert DirtyKeys(entries - {key}) == DirtyKeys(entries) - {key};
  }

  lemma DirtyAreEntries<K(!new), V>(c: Cache<K, V>)
    requires c.Consistent()
    ensures DirtyCount(c.entries) <= |c.entries| == |c.list| <= c.capacity
  {
    DistinctCount(c.list, c.entries.Keys);
    SubsetCount(DirtyKeys(c.entries), c.entries.Keys);
  }

  lemma {:induction false} SubsetCount<T>(a: set<T>, b: set<T>)
    requires a <= b
    ensures |a| <= |b|
  {
    assert b == a + (b - a);
  }

  datatype Use<K, V> =
    | Insert(key: K, value: V, isDirty: bool)
    | Remove(key: K)
    | Lookup(key: K)
    | SetDirtyBit(key: K, dirtyValue: bool)

  function Perform<K(!new), V>(c: Cache<K, V>, u: Use<K, V>): Cache<K, V> {
    match u
    case Insert(key, value, isDirty) => c.Insert(key, value, isDirty)
    case Remove(key) => if key in c.entries then c.Remove(key) else c
    case Lookup(key) => if key in c.entries then c.Touch(key) else c
    case SetDirtyBit(key, bit) =>
      if key in c.entries then c.(entries := c.entries[key := Entry(c.entries[key].data, bit)]) else c
  }

  predicate IsDirty<K(!new), V>(c: Cache<K, V>, key: K) {
    key in c.entries && c.entries[key].isDirty
  }

  /** What a use adds to the counter. */
  function Counts<K(!new), V>(c: Cache<K, V>, u: Use<K, V>): int {
    match u
    case Insert(key, _, isDirty) =>
      if key in c.entries then (if isDirty && !IsDirty(c, key) then 1 else 0)
      else (if isDirty then 1 else 0) - (if c.Evicts(key) && IsDirty(c, c.Victim()) then 1 else 0)
    case Remove(key) => if IsDirty(c, key) then -1 else 0
    case Lookup(_) => 0
    case SetDirtyBit(_, _) => 0
  }

  /** An insertion that makes a dirty entry clean. */
  predicate Overwrites<K(!new), V>(c: Cache<K, V>, u: Use<K, V>) {
    u.Insert? && IsDirty(c, u.key) && !u.isDirty
  }

  /** How far a use takes the counter above the number of dirty entries. */
  function Slip<K(!new), V>(c: Cache<K, V>, u: Use<K, V>): int {
    if Overwrites(c, u) then 1
    else if u.SetDirtyBit? && u.key in c.entries && c.entries[u.key].isDirty != u.dirtyValue then
      if u.dirtyValue then -1 else 1
    else 0
  }

  lemma PerformKeeps<K(!new), V>(c: Cache<K, V>, u: Use<K, V>)
    requires c.Consistent()
    ensures Perform(c, u).Consistent() && Perform(c, u).capacity == c.capacity
  {
    match u
    case Insert(key, value, isDirty) => InsertKeeps(c, key, value, isDirty);
    case Remove(key) => RemoveKeeps(c, key);
    case Lookup(key) => if key in c.entries { TouchKeeps(c, key); }
    case SetDirtyBit(key, bit) =>
  }

  /** The counter follows the number of dirty entries except for the slips. */
  lemma UseSlips<K(!new), V>(c: Cache<K, V>, u: Use<K, V>)
    requires c.Consistent()
    ensures Counts(c, u) == DirtyCount(Perform(c, u).entries) - DirtyCount(c.entries) + Slip(c, u)
  {
    match u
    case Insert(key, value, isDirty) =>
      DirtyPut(c.MakeRoom(key).entries, key, Entry(value, isDirty));
      if c.Evicts(key) {
        DirtyErase(c.entries, c.Victim());
      }
    case Remove(key) => if key in c.entries { DirtyErase(c.entries, key); }
    case Lookup(key) =>
    case SetDirtyBit(key, bit) =>
      if key in c.entries { DirtyPut(c.entries, key, Entry(c.entries[key].data, bit)); }
  }

  /** The cache after some uses, and what they have added to the counter. */
  function Replay<K(!new), V>(c: Cache<K, V>, uses: seq<Use<K, V>>): Cache<K, V> {
    if uses == [] then c
    else
      var n := |uses| - 1;
      Perform(Replay(c, uses[..n]), uses[n])
  }

  function Counter<K(!new), V>(c: Cache<K, V>, uses: seq<Use<K, V>>): int {
    if uses == [] then 0
    else
      var n := |uses| - 1;
      Counter(c, uses[..n]) + Counts(Replay(c, uses[..n]), uses[n])
  }

  function Slips<K(!new), V>(c: Cache<K, V>, uses: seq<Use<K, V>>): int {
    if uses == [] then 0
    else
      var n := |uses| - 1;
      Slips(c, uses[..n]) + Slip(Replay(c, uses[..n]), uses[n])
  }

  /** How many uses were insertions that made a dirty entry clean. */
  function Overwritten<K(!new), V>(c: Cache<K, V>, uses: seq<Use<K, V>>): nat {
    if uses == [] then 0
    else
      var n := |uses| - 1;
      Overwritten(c, uses[..n]) + if Overwrites(Replay(c, uses[..n]), uses[n]) then 1 else 0
  }

  lemma {:induction false} CounterFollows<K(!new), V>(c: Cache<K, V>, uses: seq<Use<K, V>>)
    requires c.Consistent()
    ensures var d := Replay(c, uses);
            && d.Consistent() && d.capacity == c.capacity
            && Counter(c, uses) == DirtyCount(d.entries) - DirtyCount(c.entries) + Slips(c, uses)
  {
    if uses != [] {
      var n := |uses| - 1;
      CounterFollows(c, uses[..n]);
      PerformKeeps(Replay(c, uses[..n]), uses[n]);
      UseSlips(Replay(c, uses[..n]), uses[n]);
    }
  }

  lemma {:induction false} SlipsAreOverwrites<K(!new), V>(c: Cache<K, V>, uses: seq<Use<K, V>>)
    requires forall u :: u in uses ==> !u.SetDirtyBit?
    ensures Slips(c, uses) == Overwritten(c, uses)
  {
    if uses != [] {
      var n := |uses| - 1;
      SlipsAreOverwrites(c, uses[..n]);
      assert !uses[n].SetDirtyBit?;
    }
  }

  /** What the assertions on the unsigned counter say. */
  predicate InBounds<K(!new), V>(c: Cache<K, V>, counter: int) {
    0 <= counter <= c.capacity && counter <= |c.list|
  }

  /** The counter is no further above the number of dirty entries than there are clean ones, and no
      further below than there are dirty ones. */
  predicate Covered<K(!new), V>(c: Cache<K, V>, slips: int) {
    0 <= DirtyCount(c.entries) + slips && slips <= |c.entries| - DirtyCount(c.entries)
  }

  lemma InBoundsExactly<K(!new), V>(c: Cache<K, V>, counter: int)
    requires c.Consistent()
    ensures InBounds(c, counter) <==> Covered(c, counter - DirtyCount(c.entries))
  {
    DirtyAreEntries(c);
  }

  /** After any uses of an empty cache: the counter is exact if and only if the slips cancel out, and the
      assertions on it hold if and only if they do not exceed what is clean above and what is dirty below. */
  lemma CounterExactly<K(!new), V>(c: Cache<K, V>, uses: seq<Use<K, V>>)
    requires c.Consistent() && c.entries == map[]
    ensures var d := Replay(c, uses);
            && d.Consistent()
            && (Counter(c, uses) == DirtyCount(d.entries) <==> Slips(c, uses) == 0)
            && (InBounds(d, Counter(c, uses)) <==>
                0 <= DirtyCount(d.entries) + Slips(c, uses) && Slips(c, uses) <= |d.entries| - DirtyCount(d.entries))
  {
    CounterFollows(c, uses);
    InBoundsExactly(Replay(c, uses), Counter(c, uses));
    assert DirtyKeys(c.entries) == {};
  }

  /** When no bit is set from outside: the counter is exact if and only if no insertion made a dirty entry
      clean, and the assertions hold if and only if there were no more of those than there are clean entries. */
  lemma InsertionsCountExactly<K(!new), V>(c: Cache<K, V>, uses: seq<Use<K, V>>)
    requires c.Consistent() && c.entries == map[] && forall u :: u in uses ==> !u.SetDirtyBit?
    ensures var d := Replay(c, uses);
            && (Counter(c, uses) == DirtyCount(d.entries) <==> Overwritten(c, uses) == 0)
            && (InBounds(d, Counter(c, uses)) <==> Overwritten(c, uses) <= |d.entries| - DirtyCount(d.entries))
  {
    CounterExactly(c, uses);
    SlipsAreOverwrites(c, uses);
  }

  // ----- Recency and inclusion for any use of the cache -----

  /** Whether a use moves its key to the front. */
  predicate Refreshes<K(!new), V>(c: Cache<K, V>, u: Use<K, V>) {
    u.Insert? || (u.Lookup? && u.key in c.entries)
  }

  /** The keys used, in order. */
  function UsedKeys<K(!new), V>(c: Cache<K, V>, uses: seq<Use<K, V>>): seq<K> {
    if uses == [] then []
    else
      var n := |uses| - 1;
      UsedKeys(c, uses[..n]) + if Refreshes(Replay(c, uses[..n]), uses[n]) then [uses[n].key] else []
  }

  lemma PerformIsRecency<K(!new), V>(c: Cache<K, V>, trace: seq<K>, u: Use<K, V>)
    requires c.Consistent() && c.list == Take(Recency(trace), c.capacity) && !u.Remove?
    ensures var d := Perform(c, u);
            && d.Consistent() && d.capacity == c.capacity
            && d.list == Take(Recency(trace + if Refreshes(c, u) then [u.key] else []), c.capacity)
  {
    PerformKeeps(c, u);
    RecencyDistinct(trace);
    if Refreshes(c, u) {
      assert (trace + [u.key])[..|trace|] == trace;
      if u.Insert? {
        InsertIsRecency(c, Recency(trace), u.key, u.value, u.isDirty);
      } else {
        AccessIsRecency(c, Recency(trace), u.key, c.entries[u.key].data);
      }
    } else {
      assert trace + [] == trace;
    }
  }

  /** After any insertions, new or overwriting, lookups and set bits the list is the capacity-long prefix
      of the keys by recency of use. */
  lemma {:induction false} ReplayIsRecency<K(!new), V>(c: Cache<K, V>, uses: seq<Use<K, V>>)
    requires c.Consistent() && c.list == [] && forall u :: u in uses ==> !u.Remove?
    ensures var d := Replay(c, uses);
            && d.Consistent() && d.capacity == c.capacity
            && d.list == Take(Recency(UsedKeys(c, uses)), c.capacity)
  {
    if uses != [] {
      var n := |uses| - 1;
      ReplayIsRecency(c, uses[..n]);
      assert !uses[n].Remove?;
      PerformIsRecency(Replay(c, uses[..n]), UsedKeys(c, uses[..n]), uses[n]);
    }
  }

  /** Every lookup finds its key. */
  predicate LookupsHit<K(!new), V>(c: Cache<K, V>, uses: seq<Use<K, V>>) {
    if uses == [] then true
    else
      var n := |uses| - 1;
      LookupsHit(c, uses[..n]) && (uses[n].Lookup? ==> uses[n].key in Replay(c, uses[..n]).entries)
  }

  /** How many uses find their key. */
  function Found<K(!new), V>(c: Cache<K, V>, uses: seq<Use<K, V>>): nat {
    if uses == [] then 0
    else
      var n := |uses| - 1;
      Found(c, uses[..n]) + if uses[n].key in Replay(c, uses[..n]).entries then 1 else 0
  }

  /** A larger cache holds what a smaller one does, in the same order, and finds a key at least as often. */
  lemma {:induction false} LargerReplaysMore<K(!new), V>(c: Cache<K, V>, d: Cache<K, V>, uses: seq<Use<K, V>>)
    requires c.Consistent() && d.Consistent() && c.list == [] && d.list == [] && c.capacity <= d.capacity
    requires LookupsHit(c, uses) && forall u :: u in uses ==> !u.Remove?
    ensures Replay(c, uses).list <= Replay(d, uses).list && UsedKeys(c, uses) == UsedKeys(d, uses)
    ensures Replay(c, uses).entries.Keys <= Replay(d, uses).entries.Keys && Found(c, uses) <= Found(d, uses)
  {
    if uses != [] {
      LargerReplaysMore(c, d, uses[..|uses| - 1]);
    }
    ReplayIsRecency(c, uses);
    ReplayIsRecency(d, uses);
    forall k | k in Replay(c, uses).entries ensures k in Replay(d, uses).entries {
      assert k in Replay(c, uses).list;
    }
  }

  class LRUCache<K(==, !new), V> {
    var keyEntryMap: map<K, Entry<V>>
    var lruList: seq<K>
    const maxEntries: nat
    var numDirtyEntries: int
    var numEntries: int

    function State(): Cache<K, V>
      reads this
    {
      Cache(maxEntries, keyEntryMap, lruList)
    }

    ghost predicate Valid()
      reads this
    {
      State().Consistent() && numEntries == |lruList|
    }

    /** How far the counter is above the number of dirty entries. */
    function Drift(): int
      reads this
    {
      numDirtyEntries - DirtyCount(keyEntryMap)
    }

    constructor (capacity: nat)
      requires 0 < capacity
      ensures Valid() && State() == Cache(capacity, map[], []) && Drift() == 0
    {
      maxEntries := capacity;
      keyEntryMap := map[];
      lruList := [];
      numDirtyEntries := 0;
      numEntries := 0;
    }

    /** The counter stays exact unless the insertion overwrites a dirty entry with a clean one. */
    method Insert(key: K, value: V, isDirty: bool)
      requires Valid()
      modifies this
      ensures Valid() && State() == old(State()).Insert(key, value, isDirty)
      ensures numDirtyEntries == old(numDirtyEntries) + Counts(old(State()), Use.Insert(key, value, isDirty))
      ensures Drift() == old(Drift())
                         + if key in old(keyEntryMap) && old(keyEntryMap[key].isDirty) && !isDirty then 1 else 0
    {
      if key in keyEntryMap {
        UpdateEntry(key, value, isDirty);
      } else {
        InsertMiss(State(), key, value, isDirty);
        if numEntries == maxEntries {
          var lruKey := lruList[|lruList| - 1];
          var _ := Remove(lruKey);
        }
        AddEntry(key, value, isDirty);
      }
    }

    /** The same insertion, which also hands out what it evicted; nothing stands for NoSuchEntry. */
    method InsertAndRecall(key: K, value: V, isDirty: bool) returns (evicted: Option<Evicted<K, V>>)
      requires Valid()
      modifies this
      ensures Valid() && State() == old(State()).Insert(key, value, isDirty)
      ensures numDirtyEntries == old(numDirtyEntries) + Counts(old(State()), Use.Insert(key, value, isDirty))
      ensures Drift() == old(Drift())
                         + if key in old(keyEntryMap) && old(keyEntryMap[key].isDirty) && !isDirty then 1 else 0
      ensures evicted.Some? <==> old(State()).Evicts(key)
      ensures evicted.Some? ==>
                var victim := old(State()).Victim();
                && victim in old(keyEntryMap) && victim !in keyEntryMap
                && evicted.value == Evicted(victim, old(keyEntryMap)[victim].data, old(keyEntryMap)[victim].isDirty)
    {
      evicted := None;
      if key in keyEntryMap {
        UpdateEntry(key, value, isDirty);
      } else {
        InsertMiss(State(), key, value, isDirty);
        if numEntries == maxEntries {
          var lruKey := lruList[|lruList| - 1];
          evicted := Some(Evicted(lruKey, keyEntryMap[lruKey].data, keyEntryMap[lruKey].isDirty));
          var _ := Remove(lruKey);
        }
        AddEntry(key, value, isDirty);
      }
    }

    /** The branch of an insertion whose key exists. */
    method UpdateEntry(key: K, value: V, isDirty: bool)
      requires Valid() && key in keyEntryMap
      modifies this
      ensures Valid() && State() == old(State()).Insert(key, value, isDirty)
      ensures numDirtyEntries == old(numDirtyEntries) + Counts(old(State()), Use.Insert(key, value, isDirty))
      ensures Drift() == old(Drift()) + if old(keyEntryMap[key].isDirty) && !isDirty then 1 else 0
    {
      InsertKeeps(State(), key, value, isDirty);
      EraseKeys(lruList, key);
      DirtyPut(keyEntryMap, key, Entry(value, isDirty));
      if isDirty && !keyEntryMap[key].isDirty {
        numDirtyEntries := numDirtyEntries + 1;
      }
      keyEntryMap := keyEntryMap[key := Entry(value, isDirty)];
      lruList := [key] + Erase(lruList, key);
    }

    /** The end of the branch of an insertion whose key is new. */
    method AddEntry(key: K, value: V, isDirty: bool)
      requires Valid() && key !in keyEntryMap && |lruList| < maxEntries
      modifies this
      ensures Valid() && Drift() == old(Drift())
      ensures numDirtyEntries == old(numDirtyEntries) + if isDirty then 1 else 0
      ensures keyEntryMap == old(keyEntryMap)[key := Entry(value, isDirty)] && lruList == [key] + old(lruList)
    {
      DirtyPut(keyEntryMap, key, Entry(value, isDirty));
      DistinctCons(key, lruList);
      lruList := [key] + lruList;
      keyEntryMap := keyEntryMap[key := Entry(value, isDirty)];
      numEntries := numEntries + 1;
      if isDirty {
        numDirtyEntries := numDirtyEntries + 1;
      }
    }

    method Remove(key: K) returns (found: bool)
      requires Valid()
      modifies this
      ensures Valid() && found == (key in old(keyEntryMap))
      ensures State() == if found then old(State()).Remove(key) else old(State())
      ensures State() == Perform(old(State()), Use.Remove(key))
      ensures numDirtyEntries == old(numDirtyEntries) + Counts(old(State()), Use.Remove(key))
      ensures Drift() == old(Drift())
    {
      found := key in keyEntryMap;
      if found {
        RemoveKeeps(State(), key);
        DirtyErase(keyEntryMap, key);
        lruList := Erase(lruList, key);
        numEntries := numEntries - 1;
        if keyEntryMap[key].isDirty {
          numDirtyEntries := numDirtyEntries - 1;
        }
        keyEntryMap := keyEntryMap - {key};
      }
    }

    /** Changes the bit but neither the order nor the counter. */
    method SetDirtyBit(key: K, dirtyValue: bool) returns (found: bool)
      requires Valid()
      modifies this
      ensures Valid() && found == (key in old(keyEntryMap)) && lruList == old(lruList)
      ensures keyEntryMap == if found
                             then old(keyEntryMap)[key := Entry(old(keyEntryMap)[key].data, dirtyValue)]
                             else old(keyEntryMap)
      ensures State() == Perform(old(State()), Use.SetDirtyBit(key, dirtyValue))
      ensures numDirtyEntries == old(numDirtyEntries)
      ensures Drift() == old(Drift()) + if !found || old(keyEntryMap)[key].isDirty == dirtyValue then 0
                                        else if dirtyValue then -1 else 1
    {
      found := key in keyEntryMap;
      if found {
        DirtyPut(keyEntryMap, key, Entry(keyEntryMap[key].data, dirtyValue));
        keyEntryMap := keyEntryMap[key := Entry(keyEntryMap[key].data, dirtyValue)];
      }
    }

    method Lookup(key: K) returns (value: Option<V>)
      requires Valid()
      modifies this
      ensures Valid() && keyEntryMap == old(keyEntryMap) && numDirtyEntries == old(numDirtyEntries)
      ensures value == if key in keyEntryMap then Some(keyEntryMap[key].data) else None
      ensures State() == if key in keyEntryMap then old(State()).Touch(key) else old(State())
      ensures State() == Perform(old(State()), Use.Lookup(key))
    {
      value := None;
      if key in keyEntryMap {
        TouchKeeps(State(), key);
        lruList := [key] + Erase(lruList, key);
        value := Some(keyEntryMap[key].data);
      }
    }

    method Exists(key: K) returns (b: bool)
      ensures b == (key in keyEntryMap)
    {
      b := key in keyEntryMap;
    }

    method GetDirtyBit(key: K) returns (b: Option<bool>)
      ensures b == if key in keyEntryMap then Some(keyEntryMap[key].isDirty) else None
    {
      b := if key in keyEntryMap then Some(keyEntryMap[key].isDirty) else None;
    }

    /** The entry the next insertion of a new key into the full cache evicts. */
    method GetLRU() returns (lru: Option<(K, V)>)
      requires Valid()
      ensures lru.None? <==> lruList == []
      ensures lru.Some? ==>
                var (k, v) := lru.value;
                && k in keyEntryMap && keyEntryMap[k].data == v && lruList != [] && k == State().Victim()
                && (forall key, value, dirty :: State().Evicts(key) ==>
                     k !in State().Insert(key, value, dirty).entries)
    {
      if numEntries == 0 {
        lru := None;
      } else {
        var lruKey := lruList[|lruList| - 1];
        assert lruKey in keyEntryMap;
        lru := Some((lruKey, keyEntryMap[lruKey].data));
        forall key, value, dirty | State().Evicts(key) ensures lruKey !in State().Insert(key, value, dirty).entries {
          InsertLosesOnlyVictim(State(), key, value, dirty);
        }
      }
    }

    predicate CounterInBounds()
      reads this
    {
      InBounds(State(), numDirtyEntries)
    }

    function Percent(): real
      reads this
      requires 0 < maxEntries
    {
      numDirtyEntries as real / maxEntries as real
    }

    /** The share of the capacity that the counter takes for dirty, and whether the assertions hold: exactly
        when the counter is no further off than there are clean entries above and dirty ones below. */
    method PercentDirty() returns (percent: real, asserted: bool)
      requires Valid()
      ensures asserted == CounterInBounds()
      ensures asserted <==> Covered(State(), Drift())
      ensures percent == Percent()
      ensures asserted && Drift() == 0 ==> percent * maxEntries as real == DirtyCount(keyEntryMap) as real
    {
      InBoundsExactly(State(), numDirtyEntries);
      asserted := 0 <= numDirtyEntries <= maxEntries && numDirtyEntries <= numEntries;
      percent := numDirtyEntries as real / maxEntries as real;
    }

    method Size() returns (n: nat)
      requires Valid()
      ensures n == |keyEntryMap.Keys| <= maxEntries
    {
      DistinctCount(lruList, keyEntryMap.Keys);
      n := numEntries;
    }
  }

  /** The counter can exceed the number of entries, which `PercentDirty` asserts it never does. */
  method CounterCanOverrun() returns (counter: int, entries: nat, asserted: bool)
    ensures counter == 2 && entries == 1 && !asserted
  {
    var cache := new LRUCache<nat, nat>(1);
    cache.Insert(0, 0, true);
    cache.Insert(0, 0, false);
    cache.Insert(0, 0, true);
    counter := cache.numDirtyEntries;
    assert DirtyKeys(cache.keyEntryMap) == {0};
    entries := cache.Size();
    var percent;
    percent, asserted := cache.PercentDirty();
  }
}
