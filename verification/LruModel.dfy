/** One shard of the cache (util/cache.cpp) as a reference model: which entries are cached, in what order they would be
    evicted, who holds handles, and which deleters have run.  No reference counts, flags, links or table here; the
    class in `LruCaches` implements this model with those. */
module LruModel {
  import opened Options
  import opened CacheHandle

  /** `lru` holds the cached entries nobody holds, oldest first; `used` the cached entries somebody holds; `out` the
      number of handles out for each held entry, cached or not; `freed` the entries whose deleter ran, in order.
      `idle` records when each entry last became unreferenced, on a clock that ticks with every operation. */
  datatype State = State(
    capacity: nat, lru: seq<Handle>, used: seq<Handle>, out: map<Handle, nat>, freed: seq<Handle>,
    clock: nat, idle: map<Handle, nat>)

  // ----- Lists of handles

  function Charge(hs: seq<Handle>): nat {
    if hs == [] then 0 else hs[0].charge + Charge(hs[1..])
  }

  /** The list without (the first occurrence of) h. */
  function Without(hs: seq<Handle>, h: Handle): seq<Handle> {
    if hs == [] then [] else if hs[0] == h then hs[1..] else [hs[0]] + Without(hs[1..], h)
  }

  function FindIn(hs: seq<Handle>, key: Key, hash: nat): (r: Option<Handle>)
    ensures r.Some? ==> r.value in hs && r.value.key == key && r.value.hash == hash
    ensures r.None? ==> forall i :: 0 <= i < |hs| ==> hs[i].key != key || hs[i].hash != hash
  {
    if hs == [] then None
    else if hs[0].key == key && hs[0].hash == hash then Some(hs[0])
    else FindIn(hs[1..], key, hash)
  }

  lemma {:induction false} WithoutAt(hs: seq<Handle>, k: nat)
    requires NoDuplicates(hs) && k < |hs|
    ensures Without(hs, hs[k]) == RemoveAt(hs, k)
  {
    if k > 0 {
      var t := hs[1..];
      assert forall i :: 0 <= i < |t| ==> t[i] == hs[i + 1];
      WithoutAt(t, k - 1);
      assert [hs[0]] + RemoveAt(t, k - 1) == RemoveAt(hs, k);
    }
  }

  lemma {:induction false} WithoutAbsent(hs: seq<Handle>, h: Handle)
    requires h !in hs
    ensures Without(hs, h) == hs
  {
    if hs != [] {
      WithoutAbsent(hs[1..], h);
      assert hs == [hs[0]] + hs[1..];
    }
  }

  lemma {:induction false} ChargeWithout(hs: seq<Handle>, h: Handle)
    ensures Charge(Without(hs, h)) == Charge(hs) - (if h in hs then h.charge else 0)
  {
    if hs != [] && hs[0] != h {
      ChargeWithout(hs[1..], h);
      var w := Without(hs[1..], h);
      assert ([hs[0]] + w)[1..] == w;
      assert h in hs <==> h in hs[1..];
    }
  }

  lemma WithoutMembers(hs: seq<Handle>, h: Handle)
    requires NoDuplicates(hs)
    ensures NoDuplicates(Without(hs, h)) && forall g :: g in hs && g != h ==> g in Without(hs, h)
    ensures forall i :: 0 <= i < |Without(hs, h)| ==> Without(hs, h)[i] in hs && Without(hs, h)[i] != h
    ensures h !in hs ==> Without(hs, h) == hs
  {
    if h in hs {
      var k :| 0 <= k < |hs| && hs[k] == h;
      WithoutAt(hs, k);
      RemoveAtMembers(hs, k);
    } else {
      WithoutAbsent(hs, h);
    }
  }

  lemma {:induction false} ChargeAppend(hs: seq<Handle>, h: Handle)
    ensures Charge(hs + [h]) == Charge(hs) + h.charge
  {
    if hs != [] {
      assert (hs + [h])[1..] == hs[1..] + [h];
      ChargeAppend(hs[1..], h);
    }
  }

  // ----- Operations

  function Held(s: State, h: Handle): nat {
    if h in s.out then s.out[h] else 0
  }

  predicate Cached(s: State, h: Handle) {
    h in s.lru || h in s.used
  }

  function Usage(s: State): nat {
    Charge(s.lru) + Charge(s.used)
  }

  function Find(s: State, key: Key, hash: nat): Option<Handle> {
    FindIn(s.lru + s.used, key, hash)
  }

  /** A handle is given out for a cached entry. */
  function Acquire(s: State, h: Handle): State {
    var s' := s.(out := s.out[h := Held(s, h) + 1]);
    if h in s.lru then s'.(lru := Without(s.lru, h), used := s.used + [h]) else s'
  }

  /** A handle is given back. */
  function GiveBack(s: State, h: Handle): State {
    if Held(s, h) > 1 then s.(out := s.out[h := s.out[h] - 1])
    else
      var s' := s.(out := s.out - {h});
      if h in s.used then s'.(used := Without(s.used, h), lru := s.lru + [h], idle := s.idle[h := s.clock])
      else s'.(freed := s.freed + [h])
  }

  /** An entry leaves the cache; its deleter runs unless somebody still holds it. */
  function Drop(s: State, h: Handle): State {
    var s' := s.(lru := Without(s.lru, h), used := Without(s.used, h));
    if h in s.out then s' else s'.(freed := s.freed + [h])
  }

  function DropKey(s: State, key: Key, hash: nat): State {
    if Find(s, key, hash).Some? then Drop(s, Find(s, key, hash).value) else s
  }

  /** Drops the oldest unheld entries while the cache is too full. */
  function Evict(s: State): State
    decreases |s.lru|
  {
    if Usage(s) > s.capacity && s.lru != [] then
      assert |Without(s.lru, s.lru[0])| < |s.lru|;
      Evict(Drop(s, s.lru[0]))
    else s
  }

  function DropIdle(s: State): State
    decreases |s.lru|
  {
    if s.lru != [] then DropIdle(Drop(s, s.lru[0])) else s
  }

  function Tick(s: State): State {
    s.(clock := s.clock + 1)
  }

  /** The entry of a new handle joins the cache, in place of one with the same key. */
  function Admit(s: State, h: Handle): State {
    var s' := s.(out := s.out[h := 1]);
    if s.capacity > 0 then
      var s'' := s'.(used := s.used + [h]);
      var old_ := Find(s, h.key, h.hash);
      if old_.Some? then Drop(s'', old_.value) else s''
    else s'
  }

  datatype Op =
    | Insert(h: Handle)
    | Lookup(key: Key, hash: nat)
    | Release(h: Handle)
    | Erase(key: Key, hash: nat)
    | Prune
    | SetCapacity(capacity: nat)

  /** The caller releases only handles it holds, and a new entry is a new object. */
  predicate Allowed(s: State, op: Op) {
    match op
    case Insert(h) => !Cached(s, h) && h !in s.out && h !in s.freed
    case Release(h) => h in s.out
    case _ => true
  }

  function Apply(s: State, op: Op): State {
    var t := Tick(s);
    match op
    case Insert(h) => Evict(Admit(t, h))
    case Lookup(key, hash) => if Find(t, key, hash).Some? then Acquire(t, Find(t, key, hash).value) else t
    case Release(h) => GiveBack(t, h)
    case Erase(key, hash) => DropKey(t, key, hash)
    case Prune => DropIdle(t)
    case SetCapacity(c) => t.(capacity := c)
  }

  // ----- The invariant

  ghost predicate ListsOk(s: State) {
    NoDuplicates(s.lru) && NoDuplicates(s.used) && (forall h :: h in s.lru ==> h !in s.used)
  }

  ghost function CachedSet(s: State): set<Handle> {
    (set h | h in s.lru) + (set h | h in s.used)
  }

  ghost predicate KeysOk(s: State) {
    forall g, h :: g in CachedSet(s) && h in CachedSet(s) && SameKey(g, h) ==> g == h
  }

  ghost predicate HoldersOk(s: State) {
    (forall h :: h in s.lru ==> h !in s.out) && (forall h :: h in s.used ==> h in s.out) &&
    (forall h :: h in s.out ==> s.out[h] > 0)
  }

  /** A deleter ran at most once, and only for an entry that is neither cached nor held. */
  ghost predicate FreedOk(s: State) {
    NoDuplicates(s.freed) && forall h :: h in s.freed ==> !Cached(s, h) && h !in s.out
  }

  /** The eviction order is the order in which entries last became unreferenced. */
  ghost predicate OrderOk(s: State) {
    Ordered(s.lru, s.idle) && forall h :: h in s.idle ==> s.idle[h] <= s.clock
  }

  ghost predicate Inv(s: State) {
    ListsOk(s) && KeysOk(s) && HoldersOk(s) && FreedOk(s) && OrderOk(s)
  }

  /** Every entry there ever was. */
  ghost function Everything(s: State): set<Handle> {
    (set h | h in s.lru) + (set h | h in s.used) + s.out.Keys + (set h | h in s.freed)
  }

  // ----- Every operation keeps the invariant and loses nothing

  ghost predicate Kept(s: State, s': State, added: set<Handle>) {
    Inv(s') && Everything(s') == Everything(s) + added && s'.capacity == s.capacity && s'.clock == s.clock &&
    s.freed <= s'.freed
  }

  lemma KeptTwice(s: State, t: State, u: State, added: set<Handle>)
    requires Kept(s, t, added) && Kept(t, u, {})
    ensures Kept(s, u, added)
  {
    hide Inv, Everything;
  }

  /** Ordered by time of becoming unreferenced. */
  ghost predicate Ordered(hs: seq<Handle>, idle: map<Handle, nat>) {
    (forall i :: 0 <= i < |hs| ==> hs[i] in idle) &&
    forall i, j :: 0 <= i < j < |hs| ==> idle[hs[i]] < idle[hs[j]]
  }

  lemma RemoveAtKeepsOrder(hs: seq<Handle>, k: nat, idle: map<Handle, nat>)
    requires k < |hs| && Ordered(hs, idle)
    ensures Ordered(RemoveAt(hs, k), idle)
  {
    var r := RemoveAt(hs, k);
    assert forall i :: 0 <= i < |r| ==> r[i] == if i < k then hs[i] else hs[i + 1];
  }

  lemma WithoutKeepsOrder(hs: seq<Handle>, h: Handle, idle: map<Handle, nat>)
    requires NoDuplicates(hs) && Ordered(hs, idle)
    ensures Ordered(Without(hs, h), idle)
  {
    if h in hs {
      var k :| 0 <= k < |hs| && hs[k] == h;
      WithoutAt(hs, k);
      RemoveAtKeepsOrder(hs, k, idle);
    } else {
      WithoutAbsent(hs, h);
    }
  }

  lemma AcquireLists(s: State, h: Handle)
    requires ListsOk(s) && HoldersOk(s) && Cached(s, h)
    ensures ListsOk(Acquire(s, h))
  {
    WithoutMembers(s.lru, h);
  }

  lemma AcquireHolders(s: State, h: Handle)
    requires ListsOk(s) && HoldersOk(s) && Cached(s, h)
    ensures HoldersOk(Acquire(s, h))
  {
    WithoutMembers(s.lru, h);
  }

  lemma AcquireSets(s: State, h: Handle)
    requires ListsOk(s) && HoldersOk(s) && Cached(s, h)
    ensures CachedSet(Acquire(s, h)) == CachedSet(s) && Everything(Acquire(s, h)) == Everything(s)
  {
    WithoutMembers(s.lru, h);
    hide NoDuplicates;
    var s' := Acquire(s, h);
    assert CachedSet(s') == CachedSet(s);
    assert Everything(s') == Everything(s);
  }

  lemma AcquireFreed(s: State, h: Handle)
    requires ListsOk(s) && HoldersOk(s) && FreedOk(s) && Cached(s, h)
    ensures FreedOk(Acquire(s, h))
  {
    WithoutMembers(s.lru, h);
  }

  lemma GiveBackLists(s: State, h: Handle)
    requires ListsOk(s) && HoldersOk(s) && h in s.out
    ensures ListsOk(GiveBack(s, h))
  {
    WithoutMembers(s.used, h);
  }

  lemma GiveBackHolders(s: State, h: Handle)
    requires ListsOk(s) && HoldersOk(s) && h in s.out
    ensures HoldersOk(GiveBack(s, h))
  {
    WithoutMembers(s.used, h);
  }

  lemma GiveBackSets(s: State, h: Handle)
    requires ListsOk(s) && HoldersOk(s) && h in s.out
    ensures CachedSet(GiveBack(s, h)) == CachedSet(s) && Everything(GiveBack(s, h)) == Everything(s)
  {
    WithoutMembers(s.used, h);
    hide NoDuplicates;
    var s' := GiveBack(s, h);
    assert CachedSet(s') == CachedSet(s);
    assert Everything(s') == Everything(s);
  }

  lemma GiveBackFreed(s: State, h: Handle)
    requires ListsOk(s) && HoldersOk(s) && FreedOk(s) && h in s.out
    ensures FreedOk(GiveBack(s, h))
  {
    WithoutMembers(s.used, h);
  }

  lemma DropLists(s: State, h: Handle)
    requires ListsOk(s) && HoldersOk(s) && Cached(s, h)
    ensures ListsOk(Drop(s, h))
  {
    WithoutMembers(s.lru, h);
    WithoutMembers(s.used, h);
  }

  lemma DropHolders(s: State, h: Handle)
    requires ListsOk(s) && HoldersOk(s) && Cached(s, h)
    ensures HoldersOk(Drop(s, h))
  {
    WithoutMembers(s.lru, h);
    WithoutMembers(s.used, h);
  }

  lemma DropSets(s: State, h: Handle)
    requires ListsOk(s) && HoldersOk(s) && Cached(s, h)
    ensures CachedSet(Drop(s, h)) == CachedSet(s) - {h} && Everything(Drop(s, h)) == Everything(s)
  {
    WithoutMembers(s.lru, h);
    WithoutMembers(s.used, h);
    hide NoDuplicates;
    var s' := Drop(s, h);
    assert CachedSet(s') == CachedSet(s) - {h};
    assert Everything(s') == Everything(s);
  }

  lemma DropFreed(s: State, h: Handle)
    requires ListsOk(s) && HoldersOk(s) && FreedOk(s) && Cached(s, h)
    ensures FreedOk(Drop(s, h))
  {
    WithoutMembers(s.lru, h);
    WithoutMembers(s.used, h);
  }

  lemma KeysKept(s: State, s': State)
    requires KeysOk(s) && CachedSet(s') <= CachedSet(s)
    ensures KeysOk(s')
  {
  }

  lemma AcquireKept(s: State, h: Handle)
    requires Inv(s) && Cached(s, h)
    ensures Kept(s, Acquire(s, h), {}) && Usage(Acquire(s, h)) == Usage(s)
  {
    AcquireLists(s, h);
    AcquireHolders(s, h);
    AcquireSets(s, h);
    AcquireFreed(s, h);
    KeysKept(s, Acquire(s, h));
    ChargeWithout(s.lru, h);
    ChargeAppend(s.used, h);
    WithoutKeepsOrder(s.lru, h, s.idle);
    hide ListsOk, KeysOk, HoldersOk, FreedOk, Everything, CachedSet, NoDuplicates, Ordered;
  }

  lemma GiveBackOrder(s: State, h: Handle)
    requires ListsOk(s) && OrderOk(s) && h in s.out && forall g :: g in s.idle ==> s.idle[g] < s.clock
    ensures OrderOk(GiveBack(s, h))
  {
    if h in s.used {
      AppendKeepsOrder(s.lru, h, s.idle, s.clock);
    }
  }

  lemma GiveBackUsage(s: State, h: Handle)
    requires ListsOk(s)
    ensures Usage(GiveBack(s, h)) == Usage(s)
  {
    ChargeWithout(s.used, h);
    ChargeAppend(s.lru, h);
  }

  lemma GiveBackKept(s: State, h: Handle)
    requires Inv(s) && h in s.out && forall g :: g in s.idle ==> s.idle[g] < s.clock
    ensures Kept(s, GiveBack(s, h), {}) && Usage(GiveBack(s, h)) == Usage(s)
  {
    GiveBackLists(s, h);
    GiveBackHolders(s, h);
    GiveBackSets(s, h);
    GiveBackFreed(s, h);
    GiveBackOrder(s, h);
    GiveBackUsage(s, h);
    KeysKept(s, GiveBack(s, h));
    hide ListsOk, KeysOk, HoldersOk, FreedOk, OrderOk, Everything, CachedSet, NoDuplicates, Ordered, Usage;
  }

  lemma AppendKeepsOrder(hs: seq<Handle>, h: Handle, idle: map<Handle, nat>, now: nat)
    requires Ordered(hs, idle) && h !in hs && forall g :: g in idle ==> idle[g] < now
    ensures Ordered(hs + [h], idle[h := now])
  {
    assert forall i :: 0 <= i < |hs| ==> hs[i] in hs;
  }

  lemma DropUsage(s: State, h: Handle)
    requires ListsOk(s) && Cached(s, h)
    ensures Usage(Drop(s, h)) == Usage(s) - h.charge
  {
    ChargeWithout(s.lru, h);
    ChargeWithout(s.used, h);
  }

  lemma DropKept(s: State, h: Handle)
    requires Inv(s) && Cached(s, h)
    ensures Kept(s, Drop(s, h), {}) && Usage(Drop(s, h)) == Usage(s) - h.charge
  {
    DropLists(s, h);
    DropHolders(s, h);
    DropSets(s, h);
    DropFreed(s, h);
    DropUsage(s, h);
    KeysKept(s, Drop(s, h));
    WithoutKeepsOrder(s.lru, h, s.idle);
    hide ListsOk, KeysOk, HoldersOk, FreedOk, Everything, CachedSet, NoDuplicates, Ordered, Usage;
  }

  lemma AdmitFresh(s: State, h: Handle)
    requires Inv(s) && Allowed(s, Insert(h)) && s.capacity > 0
    ensures var s' := s.(out := s.out[h := 1], used := s.used + [h]);
            ListsOk(s') && HoldersOk(s') && FreedOk(s') && OrderOk(s') && CachedSet(s') == CachedSet(s) + {h} &&
            Everything(s') == Everything(s) + {h}
  {
    var s' := s.(out := s.out[h := 1], used := s.used + [h]);
    assert forall g :: g in s'.freed ==> !Cached(s', g);
    assert CachedSet(s') == CachedSet(s) + {h};
    assert Everything(s') == Everything(s) + {h};
  }

  /** What the displacement of an older entry does to a state with the new one already in. */
  lemma DisplaceKept(s: State, d: Handle)
    requires ListsOk(s) && HoldersOk(s) && FreedOk(s) && OrderOk(s) && Cached(s, d)
    ensures ListsOk(Drop(s, d)) && HoldersOk(Drop(s, d)) && FreedOk(Drop(s, d)) && OrderOk(Drop(s, d))
    ensures CachedSet(Drop(s, d)) == CachedSet(s) - {d} && Everything(Drop(s, d)) == Everything(s)
  {
    DropLists(s, d);
    DropHolders(s, d);
    DropSets(s, d);
    DropFreed(s, d);
    WithoutKeepsOrder(s.lru, d, s.idle);
    hide ListsOk, HoldersOk, FreedOk, Everything, CachedSet, Ordered;
  }

  lemma AdmitCached(s: State, h: Handle)
    requires Inv(s) && Allowed(s, Insert(h)) && s.capacity > 0
    ensures Kept(s, Admit(s, h), {h})
  {
    AdmitFresh(s, h);
    var s' := s.(out := s.out[h := 1], used := s.used + [h]);
    var found := Find(s, h.key, h.hash);
    if found.Some? {
      assert Cached(s', found.value);
      DisplaceKept(s', found.value);
    }
    assert CachedSet(s) + {h} - {} == CachedSet(s) + {h};
    hide ListsOk, HoldersOk, FreedOk, OrderOk, Everything, CachedSet, Find;
    NewKeyIsUnique(s, h, CachedSet(Admit(s, h)));
  }

  lemma NewKeyIsUnique(s: State, h: Handle, cached: set<Handle>)
    requires KeysOk(s)
    requires cached == CachedSet(s) + {h} - (if Find(s, h.key, h.hash).Some? then {Find(s, h.key, h.hash).value} else {})
    ensures forall f, g :: f in cached && g in cached && SameKey(f, g) ==> f == g
  {
    forall f | f in CachedSet(s) && SameKey(f, h)
      ensures Find(s, h.key, h.hash) == Some(f)
    {
      FoundIsOnly(s, f);
    }
  }

  lemma FoundIsOnly(s: State, f: Handle)
    requires KeysOk(s) && f in CachedSet(s)
    ensures Find(s, f.key, f.hash) == Some(f)
  {
    assert f in s.lru + s.used;
    if Find(s, f.key, f.hash).Some? {
      assert Find(s, f.key, f.hash).value in CachedSet(s);
    }
  }

  lemma AdmitKept(s: State, h: Handle)
    requires Inv(s) && Allowed(s, Insert(h))
    ensures Kept(s, Admit(s, h), {h})
  {
    if s.capacity > 0 {
      AdmitCached(s, h);
    } else {
      var s' := Admit(s, h);
      assert CachedSet(s') == CachedSet(s);
      assert Everything(s') == Everything(s) + {h};
      assert HoldersOk(s') && FreedOk(s');
      KeysKept(s, s');
    }
  }

  /** Dropping the oldest idle entry takes it off the front and runs its deleter. */
  lemma DropOldest(s: State)
    requires Inv(s) && s.lru != []
    ensures Drop(s, s.lru[0]) == s.(lru := s.lru[1..], freed := s.freed + [s.lru[0]])
    ensures Kept(s, Drop(s, s.lru[0]), {}) && Usage(Drop(s, s.lru[0])) == Usage(s) - s.lru[0].charge
  {
    assert s.lru[0] in s.lru;
    WithoutAbsent(s.used, s.lru[0]);
    DropKept(s, s.lru[0]);
  }

  lemma {:induction false} EvictKept(s: State)
    requires Inv(s)
    ensures Kept(s, Evict(s), {})
    decreases |s.lru|
  {
    if Usage(s) > s.capacity && s.lru != [] {
      DropOldest(s);
      hide Everything, Drop;
      EvictKept(Drop(s, s.lru[0]));
      KeptTwice(s, Drop(s, s.lru[0]), Evict(s), {});
    }
  }

  /** The length of the shortest prefix whose removal brings the total charge down to the capacity, or of the list. */
  function Excess(lru: seq<Handle>, rest: nat, capacity: nat): (k: nat)
    ensures k <= |lru|
  {
    if lru != [] && Charge(lru) + rest > capacity then 1 + Excess(lru[1..], rest, capacity) else 0
  }

  lemma {:induction false} ExcessIsShortest(lru: seq<Handle>, rest: nat, capacity: nat)
    ensures var k := Excess(lru, rest, capacity);
            (Charge(lru[k..]) + rest <= capacity || k == |lru|) &&
            forall j :: 0 <= j < k ==> Charge(lru[j..]) + rest > capacity
  {
    assert lru[0..] == lru;
    if lru != [] && Charge(lru) + rest > capacity {
      var t := lru[1..];
      ExcessIsShortest(t, rest, capacity);
      assert forall j :: 1 <= j <= |lru| ==> lru[j..] == t[j - 1..];
    }
  }

  lemma OneMoreFreed(freed: seq<Handle>, lru: seq<Handle>, n: nat)
    requires n < |lru|
    ensures lru[1..][n..] == lru[n + 1..] && freed + [lru[0]] + lru[1..][..n] == freed + lru[..n + 1]
  {
  }

  lemma {:induction false} EvictIsPrefix(s: State)
    requires Inv(s)
    ensures var k := Excess(s.lru, Charge(s.used), s.capacity);
            Evict(s) == s.(lru := s.lru[k..], freed := s.freed + s.lru[..k])
    decreases |s.lru|
  {
    if Usage(s) > s.capacity && s.lru != [] {
      var t := s.(lru := s.lru[1..], freed := s.freed + [s.lru[0]]);
      assert Inv(t) && Evict(s) == Evict(t) by {
        DropOldest(s);
      }
      hide Inv;
      EvictIsPrefix(t);
      OneMoreFreed(s.freed, s.lru, Excess(t.lru, Charge(t.used), t.capacity));
    } else {
      assert s.freed + s.lru[..0] == s.freed && s.lru[0..] == s.lru;
    }
  }

  /** Eviction takes the shortest oldest-first run of idle entries that brings the charge down to the capacity, or all
      of them, and nothing that is held. */
  lemma EvictIsShortestPrefix(s: State) returns (k: nat)
    requires Inv(s)
    ensures k <= |s.lru| && Evict(s) == s.(lru := s.lru[k..], freed := s.freed + s.lru[..k])
    ensures Charge(s.lru[k..]) + Charge(s.used) <= s.capacity || k == |s.lru|
    ensures forall j :: 0 <= j < k ==> Charge(s.lru[j..]) + Charge(s.used) > s.capacity
    ensures forall j :: 0 <= j < k ==> s.lru[j] !in s.out
  {
    k := Excess(s.lru, Charge(s.used), s.capacity);
    ExcessIsShortest(s.lru, Charge(s.used), s.capacity);
    EvictIsPrefix(s);
    assert forall j :: 0 <= j < k ==> s.lru[j] in s.lru;
    hide ListsOk, KeysOk, FreedOk, OrderOk;
  }

  lemma {:induction false} DropIdleKept(s: State)
    requires Inv(s)
    ensures Kept(s, DropIdle(s), {})
    decreases |s.lru|
  {
    if s.lru != [] {
      DropOldest(s);
      hide Everything, Drop;
      DropIdleKept(Drop(s, s.lru[0]));
      KeptTwice(s, Drop(s, s.lru[0]), DropIdle(s), {});
    }
  }

  /** Pruning frees every idle entry, oldest first. */
  lemma {:induction false} PruneFreesIdle(s: State)
    requires Inv(s)
    ensures DropIdle(s) == s.(lru := [], freed := s.freed + s.lru)
    decreases |s.lru|
  {
    if s.lru != [] {
      var t := s.(lru := s.lru[1..], freed := s.freed + [s.lru[0]]);
      assert Inv(t) && DropIdle(s) == DropIdle(t) by {
        DropOldest(s);
      }
      hide Inv;
      PruneFreesIdle(t);
      assert s.freed + s.lru == t.freed + t.lru;
    } else {
      assert s.freed + s.lru == s.freed;
    }
  }

  lemma TickKept(s: State)
    requires Inv(s)
    ensures Inv(Tick(s)) && Everything(Tick(s)) == Everything(s)
    ensures forall g :: g in s.idle ==> s.idle[g] < Tick(s).clock
  {
    assert CachedSet(Tick(s)) == CachedSet(s);
  }

  ghost function Added(op: Op): set<Handle> {
    if op.Insert? then {op.h} else {}
  }

  lemma FindKept(s: State, key: Key, hash: nat)
    requires Inv(s)
    ensures Find(s, key, hash).Some? ==> Kept(s, Acquire(s, Find(s, key, hash).value), {})
    ensures Kept(s, DropKey(s, key, hash), {})
  {
    if Find(s, key, hash).Some? {
      AcquireKept(s, Find(s, key, hash).value);
      DropKept(s, Find(s, key, hash).value);
    }
    hide Inv, Everything;
  }

  lemma InsertKept(s: State, h: Handle)
    requires Inv(s) && Allowed(s, Insert(h))
    ensures Kept(s, Evict(Admit(s, h)), {h})
  {
    AdmitKept(s, h);
    EvictKept(Admit(s, h));
    KeptTwice(s, Admit(s, h), Evict(Admit(s, h)), {h});
    hide Inv, Everything, Admit, Kept;
  }

  lemma StepKept(s: State, op: Op)
    requires Inv(s) && Allowed(s, op)
    ensures Inv(Apply(s, op)) && Everything(Apply(s, op)) == Everything(s) + Added(op)
    ensures s.freed <= Apply(s, op).freed
  {
    TickKept(s);
    hide Inv, Everything, Find, Admit, Acquire, GiveBack, Drop, DropKey;
    var t := Tick(s);
    match op
    case Insert(h) => InsertKept(t, h);
    case Lookup(key, hash) => FindKept(t, key, hash);
    case Release(h) => GiveBackKept(t, h);
    case Erase(key, hash) => FindKept(t, key, hash);
    case Prune => DropIdleKept(t);
    case SetCapacity(c) => CapacityKept(t, c);
  }

  lemma CapacityKept(s: State, c: nat)
    requires Inv(s)
    ensures Inv(s.(capacity := c)) && Everything(s.(capacity := c)) == Everything(s)
  {
    assert CachedSet(s.(capacity := c)) == CachedSet(s);
  }

  // ----- What lookups find

  /** A cached entry is what its key finds, and a key finds only cached entries. */
  lemma FindIff(s: State, key: Key, hash: nat, h: Handle)
    requires KeysOk(s) && h.key == key && h.hash == hash
    ensures Find(s, key, hash) == Some(h) <==> Cached(s, h)
  {
    if Cached(s, h) {
      FoundIsOnly(s, h);
    }
  }

  /** An inserted entry is what its key finds, exactly when caching is on. */
  lemma InsertThenLookup(s: State, h: Handle)
    requires Inv(s) && Allowed(s, Insert(h))
    ensures Find(Apply(s, Insert(h)), h.key, h.hash) == Some(h) <==> s.capacity > 0
  {
    TickKept(s);
    var t := Tick(s);
    AdmitKept(t, h);
    EvictKept(Admit(t, h));
    var k := EvictIsShortestPrefix(Admit(t, h));
    AdmittedIff(t, h);
    FindIff(Apply(s, Insert(h)), h.key, h.hash, h);
  }

  lemma AdmittedIff(s: State, h: Handle)
    requires Inv(s) && Allowed(s, Insert(h))
    ensures (h in Admit(s, h).used <==> s.capacity > 0) && h !in Admit(s, h).lru
  {
    var found := Find(s, h.key, h.hash);
    if s.capacity > 0 && found.Some? {
      AdmitFresh(s, h);
      var s' := s.(out := s.out[h := 1], used := s.used + [h]);
      assert h in s'.used;
      WithoutMembers(s'.used, found.value);
      WithoutMembers(s'.lru, found.value);
    }
  }

  /** An erased key finds nothing, and every other key finds what it found before. */
  lemma EraseThenLookup(s: State, key: Key, hash: nat, k: Key, n: nat)
    requires Inv(s)
    ensures Find(Apply(s, Erase(key, hash)), k, n) == if k == key && n == hash then None else Find(s, k, n)
  {
    TickKept(s);
    var t := Tick(s);
    var e := Find(t, key, hash);
    if e.Some? {
      DropKept(t, e.value);
      DropSets(t, e.value);
      SameFound(t, Drop(t, e.value), k, n, e.value);
    }
  }

  /** With one entry gone, its key finds nothing, and the others find what they found. */
  lemma SameFound(s: State, s': State, k: Key, n: nat, gone: Handle)
    requires KeysOk(s) && KeysOk(s') && gone in CachedSet(s) && CachedSet(s') == CachedSet(s) - {gone}
    ensures Find(s', k, n) == if k == gone.key && n == gone.hash then None else Find(s, k, n)
  {
    var before, after := Find(s, k, n), Find(s', k, n);
    if after.Some? {
      assert after.value in CachedSet(s');
      FoundIsOnly(s, after.value);
      FoundIsOnly(s, gone);
    } else if before.Some? && before.value != gone {
      assert before.value in CachedSet(s);
      FoundIsOnly(s', before.value);
    }
  }

  // ----- Whole runs

  ghost predicate Empty(s: State) {
    s.lru == [] && s.used == [] && s.out == map[] && s.freed == [] && s.idle == map[]
  }

  ghost predicate Run(states: seq<State>, ops: seq<Op>) {
    |states| == |ops| + 1 && Empty(states[0]) &&
    forall i :: 0 <= i < |ops| ==> Allowed(states[i], ops[i]) && states[i + 1] == Apply(states[i], ops[i])
  }

  ghost function Inserted(ops: seq<Op>): set<Handle> {
    if ops == [] then {} else Inserted(ops[..|ops| - 1]) + Added(ops[|ops| - 1])
  }

  lemma {:induction false} RunKept(states: seq<State>, ops: seq<Op>, i: nat)
    requires Run(states, ops) && i < |states|
    ensures Inv(states[i]) && Everything(states[i]) == Inserted(ops[..i])
    decreases i
  {
    if i > 0 {
      RunKept(states, ops, i - 1);
      StepKept(states[i - 1], ops[i - 1]);
      assert ops[..i][..i - 1] == ops[..i - 1];
    }
  }

  /** At every point of every run, for every entry ever inserted: its deleter ran at most once, it ran exactly when the
      entry is neither cached nor held, and the eviction order is the order of becoming unreferenced. */
  lemma RunIsSafe(states: seq<State>, ops: seq<Op>, i: nat, h: Handle)
    requires Run(states, ops) && i < |states| && h in Inserted(ops[..i])
    ensures NoDuplicates(states[i].freed)
    ensures h in states[i].freed <==> !Cached(states[i], h) && h !in states[i].out
    ensures h in states[i].lru ==> h !in states[i].out
    ensures Ordered(states[i].lru, states[i].idle)
  {
    RunKept(states, ops, i);
    assert h in Everything(states[i]);
  }

  /** A deleter that ran has run for good. */
  lemma {:induction false} FreedForGood(states: seq<State>, ops: seq<Op>, i: nat, j: nat)
    requires Run(states, ops) && i <= j < |states|
    ensures states[i].freed <= states[j].freed
    decreases j
  {
    if i < j {
      FreedForGood(states, ops, i, j - 1);
      RunKept(states, ops, j - 1);
      StepKept(states[j - 1], ops[j - 1]);
    }
  }

  /** Extending a run by one operation. */
  lemma ExtendRun(run: seq<State>, ops: seq<Op>, op: Op) returns (longer: seq<State>)
    requires Run(run, ops) && Allowed(run[|ops|], op)
    ensures Run(longer, ops + [op]) && longer[|ops| + 1] == Apply(run[|ops|], op)
  {
    longer := run + [Apply(run[|ops|], op)];
    forall n | 0 <= n < |ops| + 1
      ensures Allowed(longer[n], (ops + [op])[n]) && longer[n + 1] == Apply(longer[n], (ops + [op])[n])
    {
      if n < |ops| {
        assert longer[n] == run[n] && longer[n + 1] == run[n + 1] && (ops + [op])[n] == ops[n];
      }
    }
  }
}
