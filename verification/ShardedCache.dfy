/** `ShardedLRUCache` (util/cache.cpp) as sixteen cache objects: each call goes to the shard of its hash and leaves the
    others alone, as the model of `ShardedLru` says. */
module ShardedCaches {
  import opened Bytes
  import opened CacheHandle
  import opened HandleTables
  import opened LruCaches
  import M = LruModel
  import S = ShardedLru

  /** The objects of one shard that no other shard may share. */
  ghost predicate OwnObjects(c: LRUCache, d: LRUCache)
    reads c.table`list, d.table`list
  {
    c != d && c.table != d.table && c.table.list != d.table.list && c.lru != d.lru && c.inUse != d.inUse &&
    c.lru != d.inUse && c.inUse != d.lru
  }

  /** The sentinels of one shard are not entries of another. */
  ghost predicate OwnSentinels(c: LRUCache, s: M.State) {
    c.lru !in M.Everything(s) && c.inUse !in M.Everything(s)
  }

  /** What a shard depends on. */
  lemma Known(c: LRUCache)
    requires c.Valid()
    ensures c.Nodes(c.state) <= M.Everything(c.state) + {c.lru, c.inUse} && c.table.entries <= M.Everything(c.state)
    ensures forall h :: h in c.state.lru ==> h in M.Everything(c.state)
    ensures forall h :: h in c.state.used ==> h in M.Everything(c.state)
    ensures forall h :: h in c.state.out ==> h in M.Everything(c.state)
  {
  }

  /** What a call on c may change besides its own objects is not among the entries d depends on. */
  ghost predicate Clear(c: LRUCache, d: LRUCache)
    reads c`state, d`state, d.table`entries
  {
    d.lru !in c.Nodes(c.state) && d.inUse !in c.Nodes(c.state) && (forall h :: h in d.state.lru ==> h !in c.Nodes(c.state)) &&
    (forall h :: h in d.state.used ==> h !in c.Nodes(c.state)) && (forall h :: h in d.state.out ==> h !in c.Nodes(c.state)) &&
    (forall h :: h in d.table.entries ==> h !in c.Nodes(c.state))
  }

  /** Every entry that some shard knows of. */
  ghost function AllKnown(states: seq<M.State>): set<Handle> {
    set s, h | s in states && h in M.Everything(s) :: h
  }

  /** New shards: empty, of the given capacity, sharing nothing. */
  ghost predicate NewShards(cs: seq<LRUCache>, capacity: nat)
    reads *
  {
    (forall a :: 0 <= a < |cs| ==> cs[a].Valid() && M.Empty(cs[a].state) && cs[a].state.capacity == capacity) &&
    forall a, b :: 0 <= a < b < |cs| ==> OwnObjects(cs[a], cs[b])
  }

  method NewShard(capacity: nat) returns (c: LRUCache)
    ensures c.Valid() && M.Empty(c.state) && c.state.capacity == capacity
    ensures fresh(c) && fresh(c.table) && fresh(c.table.list) && fresh(c.lru) && fresh(c.inUse)
  {
    hide LRUCache.Valid;
    c := new LRUCache();
    c.SetCapacity(capacity);
  }

  /** One more shard. */
  method AddShard(ghost cs: seq<LRUCache>, capacity: nat) returns (c: LRUCache)
    requires NewShards(cs, capacity)
    ensures NewShards(cs + [c], capacity)
    ensures fresh(c) && fresh(c.table) && fresh(c.table.list) && fresh(c.lru) && fresh(c.inUse)
  {
    hide LRUCache.Valid, M.Empty;
    c := NewShard(capacity);
  }

  method MakeShards(capacity: nat) returns (cs: seq<LRUCache>)
    ensures |cs| == S.SHARDS && NewShards(cs, capacity)
    ensures forall a :: 0 <= a < |cs| ==> fresh(cs[a]) && fresh(cs[a].table) && fresh(cs[a].table.list)
    ensures forall a :: 0 <= a < |cs| ==> fresh(cs[a].lru) && fresh(cs[a].inUse)
  {
    hide *;
    cs := [];
    NoShards(capacity);
    while |cs| < S.SHARDS
      invariant |cs| <= S.SHARDS && NewShards(cs, capacity)
      invariant forall a :: 0 <= a < |cs| ==> fresh(cs[a]) && fresh(cs[a].table) && fresh(cs[a].table.list)
      invariant forall a :: 0 <= a < |cs| ==> fresh(cs[a].lru) && fresh(cs[a].inUse)
    {
      var c := AddShard(cs, capacity);
      cs := cs + [c];
    }
  }

  lemma NoShards(capacity: nat)
    ensures NewShards([], capacity)
  {
  }

  class ShardedLRUCache {
    const shards: seq<LRUCache>
    const hash: S.Hash

    /** The capacity is split evenly, rounded up. */
    constructor (capacity: nat, hash: S.Hash)
      requires S.IsHash32(hash)
      ensures Valid() && this.hash == hash
      ensures forall i :: 0 <= i < |States()| ==> M.Empty(States()[i]) && States()[i].capacity == S.PerShard(capacity)
      ensures fresh(Objects())
    {
      hide LRUCache.Valid, LRUCache.Nodes, M.Empty, S.IsHash32, NewShards, Valid, Apart;
      var cs := MakeShards(S.PerShard(capacity));
      shards, this.hash := cs, hash;
      new;
      AllNew(S.PerShard(capacity));
    }

    lemma AllNew(capacity: nat)
      requires S.IsHash32(hash) && |shards| == S.SHARDS && NewShards(shards, capacity)
      ensures Valid() && forall i :: 0 <= i < |States()| ==> M.Empty(States()[i]) && States()[i].capacity == capacity
      ensures forall i :: 0 <= i < |shards| ==> shards[i].Nodes(shards[i].state) == {shards[i].lru, shards[i].inUse}
    {
      hide LRUCache.Valid, S.IsHash32;
      S.EmptyInv(States());
    }

    ghost function States(): (s: seq<M.State>)
      reads shards
      ensures |s| == |shards| && forall i :: 0 <= i < |s| ==> s[i] == shards[i].state
    {
      seq(|shards|, i requires 0 <= i < |shards| reads shards => shards[i].state)
    }

    /** The shards share no object, and no sentinel is an entry. */
    ghost predicate Apart()
      reads *
    {
      |shards| == S.SHARDS &&
      (forall i, j :: 0 <= i < |shards| && 0 <= j < |shards| && i != j ==> OwnObjects(shards[i], shards[j])) &&
      forall i, j :: 0 <= i < |shards| && 0 <= j < |shards| ==> OwnSentinels(shards[i], shards[j].state)
    }

    /** Every shard is valid, and what it holds is routed to it. */
    ghost predicate Valid()
      reads *
    {
      Apart() && S.IsHash32(hash) && S.Inv(States()) && forall i :: 0 <= i < |shards| ==> shards[i].Valid()
    }

    lemma RoutedAt(i: nat, h: Handle)
      requires |shards| == S.SHARDS && S.Inv(States()) && i < |shards| && h in M.Everything(shards[i].state)
      ensures S.Shard(h.hash) == i
    {
      assert S.Routed(States()[i], i);
    }

    /** The shards stay out of each other's way. */
    lemma ShardsClear(i: nat, j: nat)
      requires Valid() && i < |shards| && j < |shards| && i != j
      ensures Clear(shards[i], shards[j]) && OwnObjects(shards[i], shards[j])
    {
      hide LRUCache.Valid, M.Everything, S.Inv, LRUCache.Nodes;
      var c, d := shards[i], shards[j];
      assert OwnSentinels(c, d.state) && OwnSentinels(d, c.state) && OwnObjects(c, d);
      Known(c);
      Known(d);
      forall h | h in M.Everything(d.state)
        ensures h !in c.Nodes(c.state)
      {
        RoutedAt(j, h);
        if h in c.Nodes(c.state) {
          RoutedAt(i, h);
        }
      }
    }

    /** No two shards share an object. */
    ghost predicate Distinct()
      reads *
    {
      forall i, j :: 0 <= i < |shards| && 0 <= j < |shards| && i != j ==> OwnObjects(shards[i], shards[j])
    }

    /** The other shards after a call on shard i. */
    ghost predicate OthersKept(before: seq<M.State>, i: nat)
      requires |before| == |shards|
      reads *
    {
      forall j :: 0 <= j < |shards| && j != i ==> shards[j].Valid() && shards[j].state == before[j]
    }

    ghost predicate SentinelsApart(states: seq<M.State>) {
      forall a, b :: 0 <= a < |shards| && 0 <= b < |states| ==> OwnSentinels(shards[a], states[b])
    }

    /** One shard has done an operation, and the others nothing. */
    lemma Stepped(before: seq<M.State>, i: nat, op: M.Op)
      requires |shards| == S.SHARDS == |before| && i < |shards| && S.IsHash32(hash) && S.Inv(before) && SentinelsApart(before)
      requires M.Allowed(before[i], op) && shards[i].Valid() && shards[i].state == M.Apply(before[i], op)
      requires op.Insert? ==> S.Shard(op.h.hash) == i
      requires op.Insert? ==> forall a :: 0 <= a < |shards| ==> op.h != shards[a].lru && op.h != shards[a].inUse
      requires OthersKept(before, i) && Distinct()
      ensures Valid() && States() == before[i := M.Apply(before[i], op)]
    {
      hide LRUCache.Valid, M.Apply, M.Everything, M.Inv, OwnObjects, M.Allowed;
      M.StepKept(before[i], op);
      var after := before[i := M.Apply(before[i], op)];
      assert States() == after;
      forall j | 0 <= j < |shards|
        ensures M.Inv(after[j]) && S.Routed(after[j], j)
      {
        assert M.Inv(before[j]) && S.Routed(before[j], j);
      }
      forall a, b | 0 <= a < |shards| && 0 <= b < |shards|
        ensures OwnSentinels(shards[a], shards[b].state)
      {
        assert OwnSentinels(shards[a], before[b]);
      }
    }

    lemma Unpacked()
      requires Valid()
      ensures |shards| == S.SHARDS && S.IsHash32(hash) && S.Inv(States()) && SentinelsApart(States()) && Distinct()
      ensures forall i :: 0 <= i < |shards| ==> shards[i].Valid()
    {
      hide LRUCache.Valid, S.Inv, OwnObjects, OwnSentinels;
    }

    /** Every other shard is out of the way of shard i. */
    ghost predicate ClearOf(i: nat)
      requires i < |shards|
      reads *
    {
      forall j :: 0 <= j < |shards| && j != i ==> OwnObjects(shards[i], shards[j]) && Clear(shards[i], shards[j])
    }

    lemma AllClear(i: nat)
      requires Valid() && i < |shards|
      ensures ClearOf(i)
    {
      hide LRUCache.Valid, OwnObjects, Clear, Apart;
      forall j | 0 <= j < |shards| && j != i
        ensures OwnObjects(shards[i], shards[j]) && Clear(shards[i], shards[j])
      {
        ShardsClear(i, j);
      }
    }

    /** A lookup in one shard. */
    method LookupIn(c: LRUCache, ghost i: nat, key: Key, h: nat) returns (e: Handle?)
      requires Valid() && i < |shards| && c == shards[i]
      modifies c`state, c.Nodes(c.state)
      ensures Valid() && States() == old(States())[i := M.Apply(old(c.state), M.Lookup(key, h))]
      ensures e == null <==> M.Find(old(c.state), key, h).None?
      ensures e != null ==> M.Find(old(c.state), key, h).value == e
    {
      hide LRUCache.Valid, M.Apply, M.Everything, S.Inv, LRUCache.Nodes, M.Find, SentinelsApart, Valid, Apart;
      Unpacked();
      AllClear(i);
      ghost var before := States();
      e := c.Lookup(key, h);
      assert OthersKept(before, i);
      Stepped(before, i, M.Lookup(key, h));
    }

    method ReleaseIn(c: LRUCache, ghost i: nat, e: Handle)
      requires Valid() && i < |shards| && c == shards[i] && e in c.state.out
      modifies c`state, c`deleted, c.Nodes(c.state)
      ensures Valid() && States() == old(States())[i := M.Apply(old(c.state), M.Release(e))]
    {
      hide LRUCache.Valid, M.Apply, M.Everything, S.Inv, LRUCache.Nodes, SentinelsApart, Valid, Apart;
      Unpacked();
      AllClear(i);
      ghost var before := States();
      c.Release(e);
      assert OthersKept(before, i);
      Stepped(before, i, M.Release(e));
    }

    method EraseIn(c: LRUCache, ghost i: nat, key: Key, h: nat)
      requires Valid() && i < |shards| && c == shards[i]
      modifies c`state, c`usage, c`deleted, c.table, c.table.list, c.Nodes(c.state)
      ensures Valid() && States() == old(States())[i := M.Apply(old(c.state), M.Erase(key, h))]
      ensures c.table.list == old(c.table.list)
    {
      hide LRUCache.Valid, M.Apply, M.Everything, S.Inv, LRUCache.Nodes, SentinelsApart, Valid, Apart;
      Unpacked();
      AllClear(i);
      ghost var before := States();
      c.Erase(key, h);
      assert OthersKept(before, i);
      Stepped(before, i, M.Erase(key, h));
    }

    method PruneIn(c: LRUCache, ghost i: nat)
      requires Valid() && i < |shards| && c == shards[i]
      modifies c`state, c`usage, c`deleted, c.table, c.table.list, c.Nodes(c.state)
      ensures Valid() && States() == old(States())[i := M.Apply(old(c.state), M.Prune)]
      ensures forall j :: 0 <= j < |shards| ==> shards[j].table.list == old(shards[j].table.list)
    {
      hide LRUCache.Valid, M.Apply, M.Everything, S.Inv, LRUCache.Nodes, SentinelsApart, Valid, Apart;
      Unpacked();
      AllClear(i);
      ghost var before := States();
      c.Prune();
      assert OthersKept(before, i);
      Stepped(before, i, M.Prune);
    }

    method InsertIn(c: LRUCache, ghost i: nat, ghost known: set<Handle>, key: Key, h: nat, charge: nat)
      returns (e: Handle)
      requires Valid() && i < |shards| && c == shards[i] && S.Shard(h) == i && HasRoom(c.state, key, h)
      requires known == AllKnown(States())
      modifies c`state, c`usage, c`deleted, c.table, c.table.list, c.Nodes(c.state)
      ensures Valid() && States() == old(States())[i := M.Apply(old(c.state), M.Insert(e))]
      ensures fresh(e) && e.key == key && e.hash == h && e.charge == charge
      ensures e !in known
      ensures c.table.list == old(c.table.list) || fresh(c.table.list)
    {
      hide LRUCache.Valid, M.Apply, M.Everything, S.Inv, LRUCache.Nodes, SentinelsApart, Valid, Apart, HasRoom, AllKnown;
      Unpacked();
      AllClear(i);
      ghost var before := States();
      e := c.Insert(key, h, charge);
      assert OthersKept(before, i);
      Stepped(before, i, M.Insert(e));
    }

    // ----- The interface

    /** The shard that a hash of a valid cache goes to. */
    lemma InRange(key: Key)
      requires Valid()
      ensures |shards| == S.SHARDS == |States()| && S.Shard(hash(key)) < |shards|
      ensures States()[S.Shard(hash(key))] == shards[S.Shard(hash(key))].state
    {
      assert hash(key) < UINT32;
    }

    /** A handle that is out was given out by the shard of its hash, and by no other. */
    lemma GivenOutBy(e: Handle)
      requires Valid() && IsOut(e)
      ensures |shards| == S.SHARDS == |States()| && S.Shard(e.hash) < |shards|
      ensures States()[S.Shard(e.hash)] == shards[S.Shard(e.hash)].state && e in shards[S.Shard(e.hash)].state.out
    {
      var i :| 0 <= i < |shards| && e in shards[i].state.out;
      RoutedAt(i, e);
    }

    ghost predicate IsOut(e: Handle)
      reads shards
    {
      exists i :: 0 <= i < |shards| && e in shards[i].state.out
    }

    /** The shard of a key. */
    function Home(key: Key): (c: LRUCache)
      requires Valid()
      reads *
      ensures c == shards[S.Shard(hash(key))]
    {
      hide *;
      InRange(key);
      shards[S.Shard(hash(key))]
    }

    function HomeOf(e: Handle): (c: LRUCache)
      requires Valid() && IsOut(e)
      reads *
      ensures c == shards[S.Shard(e.hash)]
    {
      hide *;
      GivenOutBy(e);
      shards[S.Shard(e.hash)]
    }

    /** `Insert`. */
    method Insert(key: Key, charge: nat) returns (e: Handle)
      requires Valid() && HasRoom(Home(key).state, key, hash(key))
      modifies Home(key)`state, Home(key)`usage, Home(key)`deleted, Home(key).table, Home(key).table.list,
               Home(key).Nodes(Home(key).state)
      ensures Valid() && fresh(e) && e.key == key && e.charge == charge
      ensures S.Allowed(hash, old(States()), S.Insert(e)) && States() == S.Apply(hash, old(States()), S.Insert(e))
    {
      hide *;
      InRange(key);
      ghost var known := AllKnown(States());
      var h := hash(key);
      var i := S.Shard(h);
      e := InsertIn(shards[i], i, known, key, h, charge);
      InsertRoutes(old(States()), e, i);
    }

    lemma InsertRoutes(before: seq<M.State>, e: Handle, i: nat)
      requires |before| == S.SHARDS && i < |before| && S.Shard(e.hash) == i && e.hash == hash(e.key) && e !in AllKnown(before)
      ensures S.Allowed(hash, before, S.Insert(e))
      ensures S.Apply(hash, before, S.Insert(e)) == before[i := M.Apply(before[i], M.Insert(e))]
    {
      hide M.Apply;
      NotKnown(before, e);
    }

    lemma LookupRoutes(before: seq<M.State>, key: Key, i: nat)
      requires |before| == S.SHARDS && i < |before| && S.Shard(hash(key)) == i
      ensures S.Apply(hash, before, S.Lookup(key)) == before[i := M.Apply(before[i], M.Lookup(key, hash(key)))]
    {
      hide M.Apply;
    }

    lemma EraseRoutes(before: seq<M.State>, key: Key, i: nat)
      requires |before| == S.SHARDS && i < |before| && S.Shard(hash(key)) == i
      ensures S.Apply(hash, before, S.Erase(key)) == before[i := M.Apply(before[i], M.Erase(key, hash(key)))]
    {
      hide M.Apply;
    }

    lemma ReleaseRoutes(before: seq<M.State>, e: Handle, i: nat)
      requires |before| == S.SHARDS && i < |before| && S.Shard(e.hash) == i && e in before[i].out
      ensures S.Allowed(hash, before, S.Release(e))
      ensures S.Apply(hash, before, S.Release(e)) == before[i := M.Apply(before[i], M.Release(e))]
    {
      hide M.Apply;
    }

    lemma NotKnown(states: seq<M.State>, e: Handle)
      requires e !in AllKnown(states)
      ensures forall i :: 0 <= i < |states| ==> e !in M.Everything(states[i])
    {
      hide M.Everything;
    }

    /** `Lookup`. */
    method Lookup(key: Key) returns (e: Handle?)
      requires Valid()
      modifies Home(key)`state, Home(key).Nodes(Home(key).state)
      ensures Valid() && States() == S.Apply(hash, old(States()), S.Lookup(key))
      ensures var found := M.Find(old(Home(key).state), key, hash(key));
              if found.None? then e == null else e == found.value
    {
      hide *;
      InRange(key);
      var h := hash(key);
      e := LookupIn(shards[S.Shard(h)], S.Shard(h), key, h);
      LookupRoutes(old(States()), key, S.Shard(h));
    }

    /** `Release`: the handle carries the hash that finds its shard. */
    method Release(e: Handle)
      requires Valid() && IsOut(e)
      modifies HomeOf(e)`state, HomeOf(e)`deleted, HomeOf(e).Nodes(HomeOf(e).state)
      ensures Valid() && S.Allowed(hash, old(States()), S.Release(e))
      ensures States() == S.Apply(hash, old(States()), S.Release(e))
    {
      hide *;
      GivenOutBy(e);
      var i := S.Shard(e.hash);
      ReleaseIn(shards[i], i, e);
      ReleaseRoutes(old(States()), e, i);
    }

    /** `Erase`. */
    method Erase(key: Key)
      requires Valid()
      modifies Home(key)`state, Home(key)`usage, Home(key)`deleted, Home(key).table, Home(key).table.list,
               Home(key).Nodes(Home(key).state)
      ensures Valid() && States() == S.Apply(hash, old(States()), S.Erase(key))
    {
      hide *;
      InRange(key);
      var h := hash(key);
      EraseIn(shards[S.Shard(h)], S.Shard(h), key, h);
      EraseRoutes(old(States()), key, S.Shard(h));
    }

    /** All that the shards may change. */
    ghost function Objects(): set<object>
      reads *
    {
      (set i | 0 <= i < |shards| :: shards[i]) + (set i | 0 <= i < |shards| :: shards[i].table) +
      (set i | 0 <= i < |shards| :: shards[i].table.list) +
      set i, h | 0 <= i < |shards| && h in shards[i].Nodes(shards[i].state) :: h
    }

    lemma HasObjects()
      ensures forall i :: 0 <= i < |shards| ==> shards[i] in Objects() && shards[i].table in Objects()
      ensures forall i :: 0 <= i < |shards| ==> shards[i].table.list in Objects()
      ensures forall i :: 0 <= i < |shards| ==> shards[i].Nodes(shards[i].state) <= Objects()
    {
    }

    /** The first k shards have been pruned. */
    ghost function Pruned(before: seq<M.State>, k: nat): (after: seq<M.State>)
      ensures |after| == |before|
      ensures forall i :: 0 <= i < |after| ==> after[i] == if i < k then M.Apply(before[i], M.Prune) else before[i]
    {
      seq(|before|, i requires 0 <= i < |before| => if i < k then M.Apply(before[i], M.Prune) else before[i])
    }

    lemma PrunedOne(before: seq<M.State>, k: nat)
      requires k < |before|
      ensures Pruned(before, k)[k := M.Apply(before[k], M.Prune)] == Pruned(before, k + 1)
    {
    }

    lemma PrunedAll(before: seq<M.State>)
      requires |before| == S.SHARDS
      ensures Pruned(before, 0) == before && Pruned(before, S.SHARDS) == S.Apply(hash, before, S.Prune)
    {
    }

    /** `Prune`. */
    method Prune()
      requires Valid()
      modifies Objects()
      ensures Valid() && States() == S.Apply(hash, old(States()), S.Prune)
    {
      hide *;
      Unpacked();
      HasObjects();
      ghost var before := States();
      PrunedAll(before);
      var i := 0;
      while i < |shards|
        invariant i <= |shards| && Valid() && States() == Pruned(before, i)
        invariant forall j :: 0 <= j < |shards| ==> shards[j].table.list == old(shards[j].table.list)
        invariant forall j :: i <= j < |shards| ==> shards[j].state == before[j]
      {
        PruneIn(shards[i], i);
        i := i + 1;
      }
    }

    ghost function Usages(states: seq<M.State>): nat {
      if states == [] then 0 else Usages(states[..|states| - 1]) + M.Usage(states[|states| - 1])
    }

    /** `TotalCharge`: the charges of all cached entries. */
    method TotalCharge() returns (total: nat)
      requires Valid()
      ensures total == Usages(States())
    {
      hide LRUCache.Valid, M.Usage, Apart, S.Inv;
      total := 0;
      var i := 0;
      while i < |shards|
        invariant i <= |shards| && total == Usages(States()[..i])
      {
        var charge := shards[i].TotalCharge();
        assert States()[..i + 1][..i] == States()[..i];
        total := total + charge;
        i := i + 1;
      }
      assert States()[..i] == States();
    }
  }
}
