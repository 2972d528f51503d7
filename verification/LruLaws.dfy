/** What each operation of a cache shard does, said of the state after it: which entries are cached, in what order, who holds
    them, and which deleters ran. */
module LruLaws {
  import opened Options
  import opened CacheHandle
  import M = LruModel

  // ----- Insert

  /** The entries an insertion displaces: with caching on, the one cached under the new key, if there is one. */
  ghost predicate Displaced(s: M.State, h: Handle, ds: seq<Handle>) {
    |ds| <= 1 && (ds != [] ==> s.capacity > 0 && M.Cached(s, ds[0]) && SameKey(ds[0], h)) &&
    (s.capacity > 0 ==> forall i :: 0 <= i < |s.lru + s.used| && SameKey((s.lru + s.used)[i], h) ==> (s.lru + s.used)[i] in ds)
  }

  /** A list without the displaced entry. */
  function Rest(hs: seq<Handle>, ds: seq<Handle>): seq<Handle> {
    if ds == [] then hs else M.Without(hs, ds[0])
  }

  /** From s to s' the new entry h came in, the entries ds were displaced, and the k oldest idle ones evicted. */
  ghost predicate InsertedFrom(s: M.State, h: Handle, s': M.State, ds: seq<Handle>, k: nat) {
    var stay := Rest(s.lru, ds);
    k <= |stay| && s'.lru == stay[k..] && s'.used == Rest(s.used, ds) + (if s.capacity > 0 then [h] else []) &&
    s'.out == s.out[h := 1] && s'.capacity == s.capacity &&
    s'.freed == s.freed + (if ds == [] || ds[0] in s.out then [] else ds) + stay[..k]
  }

  /** No fewer evictions would have done. */
  ghost predicate FewestEvicted(s: M.State, s': M.State, ds: seq<Handle>, k: nat) {
    forall j :: 0 <= j < k <= |Rest(s.lru, ds)| ==> M.Charge(Rest(s.lru, ds)[j..]) + M.Charge(s'.used) > s.capacity
  }

  /** `Insert`: the new entry is held once and, with caching on, cached; an entry with its key is displaced, and its deleter
      runs unless it is held; of the idle entries that remain, the shortest oldest-first run is evicted that brings the
      charge down to the capacity, or all of them, and their deleters run in that order; nothing else changes. */
  lemma InsertEvicts(s: M.State, h: Handle) returns (ds: seq<Handle>, k: nat)
    requires M.Inv(s) && M.Allowed(s, M.Insert(h))
    ensures Displaced(s, h, ds) && InsertedFrom(s, h, M.Apply(s, M.Insert(h)), ds, k)
    ensures FewestEvicted(s, M.Apply(s, M.Insert(h)), ds, k)
    ensures M.Usage(M.Apply(s, M.Insert(h))) <= s.capacity || M.Apply(s, M.Insert(h)).lru == []
  {
    hide M.Inv, M.Admit, M.Find, M.Kept;
    M.TickKept(s);
    M.AdmitKept(M.Tick(s), h);
    ds := AdmitDisplaces(M.Tick(s), h);
    k := M.EvictIsShortestPrefix(M.Admit(M.Tick(s), h));
  }

  /** The search for the new key finds the entry to displace. */
  lemma FoundIsDisplaced(t: M.State, h: Handle)
    requires M.Inv(t)
    ensures var found := M.Find(t, h.key, h.hash);
            Displaced(t, h, if t.capacity > 0 && found.Some? then [found.value] else [])
  {
    var found, cached := M.Find(t, h.key, h.hash), t.lru + t.used;
    forall i | 0 <= i < |cached| && SameKey(cached[i], h)
      ensures found == Some(cached[i])
    {
      assert cached[i] in cached;
      M.FindIff(t, h.key, h.hash, cached[i]);
    }
    hide M.Inv;
  }

  lemma AdmitDisplaces(t: M.State, h: Handle) returns (ds: seq<Handle>)
    requires M.Inv(t) && M.Allowed(t, M.Insert(h))
    ensures Displaced(t, h, ds)
    ensures M.Admit(t, h) == t.(lru := Rest(t.lru, ds), used := Rest(t.used, ds) + (if t.capacity > 0 then [h] else []),
                                out := t.out[h := 1], freed := t.freed + if ds == [] || ds[0] in t.out then [] else ds)
  {
    hide M.Inv, M.Find, Displaced, SameKey;
    var found := M.Find(t, h.key, h.hash);
    ds := if t.capacity > 0 && found.Some? then [found.value] else [];
    FoundIsDisplaced(t, h);
    if ds != [] {
      DisplacedIsOther(t, h, ds);
      WithoutBefore(t.used, ds[0], h);
    }
  }

  lemma DisplacedIsOther(t: M.State, h: Handle, ds: seq<Handle>)
    requires M.Allowed(t, M.Insert(h)) && Displaced(t, h, ds) && ds != []
    ensures ds[0] != h
  {
  }

  lemma {:induction false} WithoutBefore(hs: seq<Handle>, d: Handle, h: Handle)
    requires d != h
    ensures M.Without(hs + [h], d) == M.Without(hs, d) + [h]
  {
    if hs != [] && hs[0] != d {
      WithoutBefore(hs[1..], d, h);
      assert (hs + [h])[1..] == hs[1..] + [h];
    }
  }

  // ----- The other operations

  /** Everything but the clock, and when entries became idle. */
  ghost predicate SameCache(s: M.State, s': M.State) {
    s'.lru == s.lru && s'.used == s.used && s'.out == s.out && s'.freed == s.freed && s'.capacity == s.capacity
  }

  lemma FoundAfterTick(s: M.State, key: Key, hash: nat)
    ensures M.Find(M.Tick(s), key, hash) == M.Find(s, key, hash)
    ensures var found := M.Find(s, key, hash);
            found.Some? ==> M.Cached(s, found.value) && found.value.key == key && found.value.hash == hash
  {
  }

  /** `Lookup` of a cached entry: one more handle is out for it, it is out of reach of eviction, the order of the other idle
      entries stays, nothing else changes. */
  lemma LookupHolds(s: M.State, h: Handle)
    requires M.Inv(s) && M.Cached(s, h)
    ensures var s' := M.Apply(s, M.Lookup(h.key, h.hash));
            s'.out == s.out[h := M.Held(s, h) + 1] && h !in s'.lru && s'.lru == M.Without(s.lru, h) &&
            s'.used == (if h in s.used then s.used else s.used + [h]) && s'.freed == s.freed && s'.capacity == s.capacity
  {
    FoundAfterTick(s, h.key, h.hash);
    M.FindIff(s, h.key, h.hash, h);
    M.WithoutMembers(s.lru, h);
    hide M.Find;
  }

  /** `Lookup` of a key that no cached entry has changes nothing. */
  lemma LookupMisses(s: M.State, key: Key, hash: nat)
    requires M.Inv(s) && forall h :: M.Cached(s, h) ==> h.key != key || h.hash != hash
    ensures SameCache(s, M.Apply(s, M.Lookup(key, hash)))
  {
    FoundAfterTick(s, key, hash);
    hide M.Find;
  }

  /** `Release`: one handle fewer is out.  The last one makes a cached entry the newest idle one, and runs the deleter of an
      entry that is no longer cached; nothing else changes. */
  lemma ReleaseGivesBack(s: M.State, h: Handle)
    requires M.Inv(s) && h in s.out
    ensures var s' := M.Apply(s, M.Release(h));
            M.Held(s', h) == M.Held(s, h) - 1 && (forall g :: g != h ==> M.Held(s', g) == M.Held(s, g)) &&
            s'.capacity == s.capacity &&
            (M.Held(s, h) > 1 ==> s'.lru == s.lru && s'.used == s.used && s'.freed == s.freed) &&
            (M.Held(s, h) == 1 && M.Cached(s, h) ==>
               s'.lru == s.lru + [h] && s'.used == M.Without(s.used, h) && s'.freed == s.freed) &&
            (M.Held(s, h) == 1 && !M.Cached(s, h) ==>
               s'.lru == s.lru && s'.used == s.used && s'.freed == s.freed + [h])
  {
  }

  /** `Erase` of a cached entry: it leaves the cache, and its deleter runs unless it is held; nothing else changes. */
  lemma EraseRemoves(s: M.State, d: Handle)
    requires M.Inv(s) && M.Cached(s, d)
    ensures var s' := M.Apply(s, M.Erase(d.key, d.hash));
            s'.lru == M.Without(s.lru, d) && s'.used == M.Without(s.used, d) && !M.Cached(s', d) && s'.out == s.out &&
            s'.freed == s.freed + (if d in s.out then [] else [d]) && s'.capacity == s.capacity
  {
    FoundAfterTick(s, d.key, d.hash);
    M.FindIff(s, d.key, d.hash, d);
    M.WithoutMembers(s.lru, d);
    M.WithoutMembers(s.used, d);
    hide M.Find;
  }

  /** `Erase` of a key that no cached entry has changes nothing. */
  lemma EraseMisses(s: M.State, key: Key, hash: nat)
    requires M.Inv(s) && forall h :: M.Cached(s, h) ==> h.key != key || h.hash != hash
    ensures SameCache(s, M.Apply(s, M.Erase(key, hash)))
  {
    FoundAfterTick(s, key, hash);
    hide M.Find;
  }

  /** `Prune`: no idle entry is left, their deleters ran oldest first, and nothing else changes. */
  lemma PruneEmpties(s: M.State)
    requires M.Inv(s)
    ensures var s' := M.Apply(s, M.Prune);
            s'.lru == [] && s'.freed == s.freed + s.lru && s'.used == s.used && s'.out == s.out && s'.capacity == s.capacity
  {
    M.TickKept(s);
    M.PruneFreesIdle(M.Tick(s));
    hide M.Inv;
  }

  /** `SetCapacity` changes the capacity, and evicts nothing by itself. */
  lemma CapacityIsSet(s: M.State, capacity: nat)
    ensures var s' := M.Apply(s, M.SetCapacity(capacity)); s'.capacity == capacity && SameCache(s.(capacity := capacity), s')
  {
  }
}
