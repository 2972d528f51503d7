/** `LRUCache` (util/cache.cpp, util/cache_impl.h): the hash table, the two circular lists, reference counts, flags and
    charges of one cache shard, kept in step with the reference model of `LruModel` by every operation. */
module LruCaches {
  import opened CacheHandle
  import opened HandleTables
  import M = LruModel
  import L = LruLaws

  /** A circular doubly linked list through the sentinel: `s` in `next` order, oldest first. */
  ghost predicate RingOk(sentinel: Handle, s: seq<Handle>)
    reads sentinel`next, sentinel`prev, (set h | h in s)`next, (set h | h in s)`prev
  {
    sentinel !in s && NoDuplicates(s) &&
    sentinel.next == (if s == [] then sentinel else s[0]) &&
    sentinel.prev == (if s == [] then sentinel else s[|s| - 1]) &&
    (forall i {:trigger s[i].next} :: 0 <= i < |s| ==> s[i].next == if i + 1 < |s| then s[i + 1] else sentinel) &&
    (forall i {:trigger s[i].prev} :: 0 <= i < |s| ==> s[i].prev == if i > 0 then s[i - 1] else sentinel)
  }

  ghost function At(sentinel: Handle, s: seq<Handle>, i: int): Handle {
    if 0 <= i < |s| then s[i] else sentinel
  }

  /** The two stores that take s[k] out have been done, and no other link is changed. */
  ghost predicate Bypassed(sentinel: Handle, s: seq<Handle>, k: nat)
    requires k < |s|
    reads sentinel`next, sentinel`prev, (set h | h in s)`next, (set h | h in s)`prev
  {
    (forall i {:trigger s[i].next} :: 0 <= i < |s| && i != k && i + 1 != k ==> s[i].next == At(sentinel, s, i + 1)) &&
    (forall i {:trigger s[i].prev} :: 0 <= i < |s| && i != k && i - 1 != k ==> s[i].prev == At(sentinel, s, i - 1)) &&
    At(sentinel, s, k - 1).next == At(sentinel, s, k + 1) && At(sentinel, s, k + 1).prev == At(sentinel, s, k - 1) &&
    (k > 0 ==> sentinel.next == s[0]) && (k + 1 < |s| ==> sentinel.prev == s[|s| - 1])
  }

  lemma RemovedLinks(sentinel: Handle, s: seq<Handle>, k: nat, i: nat)
    requires k < |s| && Bypassed(sentinel, s, k) && i < |s| - 1
    ensures var r := RemoveAt(s, k);
            |r| == |s| - 1 && r[i].next == At(sentinel, r, i + 1) && r[i].prev == At(sentinel, r, i - 1)
  {
    assert |RemoveAt(s, k)| == |s| - 1;
    hide RemoveAt;
    RemovedAt(sentinel, s, k, i - 1);
    RemovedAt(sentinel, s, k, i);
    RemovedAt(sentinel, s, k, i + 1);
  }

  lemma RemovedEnds(sentinel: Handle, s: seq<Handle>, k: nat)
    requires k < |s| && Bypassed(sentinel, s, k)
    ensures var r := RemoveAt(s, k);
            |r| == |s| - 1 && sentinel.next == At(sentinel, r, 0) && sentinel.prev == At(sentinel, r, |r| - 1)
  {
    RemovedAt(sentinel, s, k, 0);
    RemovedAt(sentinel, s, k, |s| - 2);
  }

  lemma RemovedRing(sentinel: Handle, s: seq<Handle>, k: nat)
    requires k < |s| && sentinel !in s && NoDuplicates(s) && Bypassed(sentinel, s, k)
    ensures RingOk(sentinel, RemoveAt(s, k))
  {
    hide NoDuplicates, Bypassed, RemoveAt;
    var r := RemoveAt(s, k);
    RemoveAtMembers(s, k);
    RemovedEnds(sentinel, s, k);
    forall i | 0 <= i < |r|
      ensures r[i].next == At(sentinel, r, i + 1) && r[i].prev == At(sentinel, r, i - 1)
    {
      RemovedLinks(sentinel, s, k, i);
    }
  }

  lemma RemovedAt(sentinel: Handle, s: seq<Handle>, k: nat, i: int)
    requires k < |s|
    ensures At(sentinel, RemoveAt(s, k), i) == if i < 0 || i >= |s| - 1 then sentinel else if i < k then s[i] else s[i + 1]
  {
  }

  ghost predicate Separate(sentinel: Handle, s: seq<Handle>, other: Handle, t: seq<Handle>) {
    sentinel != other && sentinel !in t && other !in s && (forall h :: h in s ==> h !in t)
  }

  /** `LRU_Remove`, with a bystander: another list that shares no node with this one. */
  method Unlink(e: Handle, ghost sentinel: Handle, ghost s: seq<Handle>, ghost k: nat, ghost other: Handle, ghost t: seq<Handle>)
    requires RingOk(sentinel, s) && k < |s| && s[k] == e && RingOk(other, t) && Separate(sentinel, s, other, t)
    modifies At(sentinel, s, k - 1)`next, At(sentinel, s, k + 1)`prev
    ensures RingOk(sentinel, RemoveAt(s, k)) && RingOk(other, t)
  {
    assert s[k].next == At(sentinel, s, k + 1) && s[k].prev == At(sentinel, s, k - 1);
    assert At(sentinel, s, k + 1) !in t && At(sentinel, s, k - 1) !in t by {
      assert k + 1 < |s| ==> s[k + 1] in s;
      assert k > 0 ==> s[k - 1] in s;
    }
    e.next.prev := e.prev;
    assert s[k].prev == At(sentinel, s, k - 1) || |s| == 1;
    e.prev.next := e.next;
    RemovedRing(sentinel, s, k);
  }

  /** `LRU_Append`: e becomes the newest entry, just before the sentinel. */
  method Append(list: Handle, e: Handle, ghost s: seq<Handle>, ghost other: Handle, ghost t: seq<Handle>)
    requires RingOk(list, s) && e !in s && e != list && RingOk(other, t) && Separate(list, s, other, t)
    requires e != other && e !in t
    modifies At(list, s, |s| - 1)`next, list`prev, e`next, e`prev
    ensures RingOk(list, s + [e]) && RingOk(other, t)
  {
    assert At(list, s, |s| - 1) !in t;
    e.next := list;
    e.prev := list.prev;
    e.prev.next := e;
    e.next.prev := e;
  }

  /** Taking an element out of one list, and putting it on the other, keeps the lists separate. */
  lemma MovedBetween(s: seq<Handle>, k: nat, sentinel: Handle, other: Handle, t: seq<Handle>)
    requires k < |s| && NoDuplicates(s) && sentinel !in s && Separate(sentinel, s, other, t)
    ensures s[k] !in t && s[k] != other && s[k] != sentinel && s[k] !in M.Without(s, s[k])
    ensures Separate(other, t, sentinel, M.Without(s, s[k]))
  {
    assert s[k] in s;
    RemovedFrom(s, k);
  }

  lemma RemovedFrom(s: seq<Handle>, k: nat)
    requires k < |s| && NoDuplicates(s)
    ensures M.Without(s, s[k]) == RemoveAt(s, k) && NoDuplicates(M.Without(s, s[k]))
    ensures forall i :: 0 <= i < |M.Without(s, s[k])| ==> M.Without(s, s[k])[i] in s && M.Without(s, s[k])[i] != s[k]
  {
    M.WithoutAt(s, k);
    M.WithoutMembers(s, s[k]);
  }

  /** Entries with references: cached, or held by a client. */
  ghost function Live(st: M.State): set<Handle> {
    M.CachedSet(st) + st.out.Keys
  }

  /** A reference for each handle out, and one for the cache. */
  ghost predicate CountsOk(st: M.State)
    reads (set h | h in st.lru)`refs, (set h | h in st.used)`refs, st.out.Keys`refs,
          (set h | h in st.lru)`inCache, (set h | h in st.used)`inCache, st.out.Keys`inCache
  {
    forall h :: h in Live(st) ==>
      h.inCache == (h in M.CachedSet(st)) && h.refs == M.Held(st, h) + (if h in M.CachedSet(st) then 1 else 0)
  }

  lemma AcquireFacts(st: M.State, e: Handle)
    requires M.ListsOk(st) && M.HoldersOk(st) && M.Cached(st, e)
    ensures M.ListsOk(M.Acquire(st, e)) && M.HoldersOk(M.Acquire(st, e))
    ensures M.CachedSet(M.Acquire(st, e)) == M.CachedSet(st) && Live(M.Acquire(st, e)) == Live(st)
    ensures M.Usage(M.Acquire(st, e)) == M.Usage(st)
    ensures e in Live(st) && e in M.CachedSet(st) && (e in st.lru <==> M.Held(st, e) == 0)
  {
    M.AcquireLists(st, e);
    M.AcquireHolders(st, e);
    M.AcquireSets(st, e);
    M.ChargeWithout(st.lru, e);
    M.ChargeAppend(st.used, e);
    assert st.out.Keys + {e} + M.CachedSet(st) == Live(st);
  }

  lemma DropFacts(st: M.State, e: Handle)
    requires M.ListsOk(st) && M.HoldersOk(st) && M.Cached(st, e)
    ensures M.ListsOk(M.Drop(st, e)) && M.HoldersOk(M.Drop(st, e))
    ensures M.CachedSet(M.Drop(st, e)) == M.CachedSet(st) - {e}
    ensures Live(M.Drop(st, e)) == Live(st) - (if e in st.out then {} else {e})
    ensures M.Usage(M.Drop(st, e)) == M.Usage(st) - e.charge
    ensures e in Live(st) && e in M.CachedSet(st)
  {
    M.DropLists(st, e);
    M.DropHolders(st, e);
    M.DropSets(st, e);
    M.DropUsage(st, e);
  }

  lemma GiveBackFacts(st: M.State, e: Handle)
    requires M.ListsOk(st) && M.HoldersOk(st) && e in st.out
    ensures M.ListsOk(M.GiveBack(st, e)) && M.HoldersOk(M.GiveBack(st, e))
    ensures M.CachedSet(M.GiveBack(st, e)) == M.CachedSet(st)
    ensures Live(M.GiveBack(st, e)) == Live(st) - (if st.out[e] == 1 && e !in M.CachedSet(st) then {e} else {})
    ensures M.Usage(M.GiveBack(st, e)) == M.Usage(st)
    ensures e in Live(st) && (e in M.CachedSet(st) <==> e in st.used)
  {
    M.GiveBackLists(st, e);
    M.GiveBackHolders(st, e);
    M.GiveBackSets(st, e);
    M.GiveBackUsage(st, e);
  }

  /** An empty circular list. */
  method NewRing() returns (h: Handle)
    ensures fresh(h) && RingOk(h, [])
  {
    h := new Handle(0, 0, 0);
    h.next, h.prev := h, h;
  }

  lemma EmptyState(st: M.State)
    requires st == M.State(0, [], [], map[], [], 0, map[])
    ensures M.Empty(st) && M.Inv(st) && Live(st) == {} && M.CachedSet(st) == {}
    ensures M.Usage(st) == 0 && M.HoldersOk(st) && M.ListsOk(st)
  {
    assert M.CachedSet(st) == {} && Live(st) == {};
    assert M.ListsOk(st) && M.HoldersOk(st) && M.FreedOk(st) && M.OrderOk(st);
  }

  /** An entry under this key can be inserted: caching is off, or the table has room for one more entry, or one goes. */
  ghost predicate HasRoom(st: M.State, key: Key, hash: nat) {
    st.capacity == 0 || |M.CachedSet(st)| < LIMIT || M.Find(st, key, hash).Some?
  }

  class LRUCache {
    var capacity: nat
    var usage: nat
    const lru: Handle
    const inUse: Handle
    const table: HandleTable
    var deleted: seq<Handle>   // the entries whose deleter was called, in order
    ghost var state: M.State

    /** Every handle with links that matter. */
    ghost function Nodes(st: M.State): set<Handle> {
      Live(st) + {lru, inUse}
    }

    /** The two lists hold the idle and the used entries, in the model's order. */
    ghost predicate RingsOk(st: M.State)
      reads lru`next, lru`prev, (set h | h in st.lru)`next, (set h | h in st.lru)`prev,
            inUse`next, inUse`prev, (set h | h in st.used)`next, (set h | h in st.used)`prev
    {
      RingOk(lru, st.lru) && RingOk(inUse, st.used)
    }

    /** The two lists share no node, sentinels included. */
    ghost predicate Apart(st: M.State) {
      lru != inUse && lru !in Live(st) && inUse !in Live(st) && M.ListsOk(st)
    }

    /** Everything but the hash table agrees with the model state, deleter calls included. */
    ghost predicate Coherent(st: M.State)
      reads `usage, `capacity, `deleted, lru`next, lru`prev, (set h | h in st.lru)`next, (set h | h in st.lru)`prev,
            inUse`next, inUse`prev, (set h | h in st.used)`next, (set h | h in st.used)`prev
      reads (set h | h in st.lru)`refs, (set h | h in st.used)`refs, st.out.Keys`refs,
            (set h | h in st.lru)`inCache, (set h | h in st.used)`inCache, st.out.Keys`inCache
    {
      RingsOk(st) && Apart(st) && CountsOk(st) && M.HoldersOk(st) && usage == M.Usage(st) && capacity == st.capacity &&
      deleted == st.freed
    }

    ghost predicate Valid()
      reads this, lru`next, lru`prev, (set h | h in state.lru)`next, (set h | h in state.lru)`prev,
            inUse`next, inUse`prev, (set h | h in state.used)`next, (set h | h in state.used)`prev
      reads (set h | h in state.lru)`refs, (set h | h in state.used)`refs, state.out.Keys`refs,
            (set h | h in state.lru)`inCache, (set h | h in state.used)`inCache, state.out.Keys`inCache
      reads table, table.list, table.entries`nextHash
    {
      M.Inv(state) && Coherent(state) && table.Valid() && table.entries == M.CachedSet(state)
    }

    constructor ()
      ensures Valid() && M.Empty(state) && state.capacity == 0
      ensures fresh(table) && fresh(table.list) && fresh(lru) && fresh(inUse)
    {
      hide HandleTable.Valid, RingOk, M.Inv, M.Empty, M.HoldersOk, M.ListsOk, M.Usage;
      var t := new HandleTable();
      var l := NewRing();
      var u := NewRing();
      lru, inUse, table := l, u, t;
      capacity, usage, deleted := 0, 0, [];
      state := M.State(0, [], [], map[], [], 0, map[]);
      new;
      EmptyState(state);
    }

    /** `LRU_Remove` and `LRU_Append`: an idle entry becomes used. */
    method MoveToUsed(e: Handle, ghost st: M.State)
      requires RingsOk(st) && Apart(st) && e in st.lru
      modifies Nodes(st)`next, Nodes(st)`prev
      ensures RingsOk(st.(lru := M.Without(st.lru, e), used := st.used + [e]))
    {
      hide RingOk, NoDuplicates, Separate, M.ListsOk, Apart, M.Cached, RemoveAt;
      ghost var k := Movable(st, e, true);
      Unlink(e, lru, st.lru, k, inUse, st.used);
      Append(inUse, e, st.used, lru, M.Without(st.lru, e));
    }

    /** A used entry becomes idle, as the newest one. */
    method MoveToLru(e: Handle, ghost st: M.State)
      requires RingsOk(st) && Apart(st) && e in st.used
      modifies Nodes(st)`next, Nodes(st)`prev
      ensures RingsOk(st.(used := M.Without(st.used, e), lru := st.lru + [e]))
    {
      hide RingOk, NoDuplicates, Separate, M.ListsOk, Apart, M.Cached, RemoveAt;
      ghost var k := Movable(st, e, false);
      Unlink(e, inUse, st.used, k, lru, st.lru);
      Append(lru, e, st.lru, inUse, M.Without(st.used, e));
    }

    /** An entry can move from its list to the other. */
    lemma Movable(st: M.State, e: Handle, idle: bool) returns (k: nat)
      requires Apart(st) && e in (if idle then st.lru else st.used)
      ensures var s := if idle then st.lru else st.used;
              var t := if idle then st.used else st.lru;
              var mine, others := if idle then lru else inUse, if idle then inUse else lru;
              k < |s| && s[k] == e && M.Without(s, e) == RemoveAt(s, k) && Separate(mine, s, others, t) &&
              Separate(others, t, mine, M.Without(s, e)) && e !in t && e != others && e != mine && e !in M.Without(s, e)
    {
      var s := if idle then st.lru else st.used;
      k :| 0 <= k < |s| && s[k] == e;
      RemovedFrom(s, k);
      MovedBetween(s, k, if idle then lru else inUse, if idle then inUse else lru, if idle then st.used else st.lru);
      hide RemoveAt;
    }

    /** The list an entry is on, its place there, and the other list. */
    lemma Whereabouts(st: M.State, e: Handle, idle: bool) returns (k: nat)
      requires Apart(st) && M.Cached(st, e) && idle == (e in st.lru)
      ensures var s := if idle then st.lru else st.used;
              var t := if idle then st.used else st.lru;
              k < |s| && s[k] == e && M.Without(s, e) == RemoveAt(s, k) && M.Without(t, e) == t &&
              Separate(if idle then lru else inUse, s, if idle then inUse else lru, t)
    {
      var s := if idle then st.lru else st.used;
      k :| 0 <= k < |s| && s[k] == e;
      RemovedFrom(s, k);
      M.WithoutAbsent(if idle then st.used else st.lru, e);
    }

    /** `LRU_Remove`, whichever list the entry is on. */
    method LeaveLists(e: Handle, ghost st: M.State)
      requires RingsOk(st) && Apart(st) && M.Cached(st, e)
      modifies Nodes(st)`next, Nodes(st)`prev
      ensures RingsOk(st.(lru := M.Without(st.lru, e), used := M.Without(st.used, e)))
    {
      hide RingOk, NoDuplicates, Separate, M.ListsOk, Apart, M.Cached, RemoveAt;
      ghost var idle := e in st.lru;
      ghost var k := Whereabouts(st, e, idle);
      ghost var s := if idle then st.lru else st.used;
      Unlink(e, if idle then lru else inUse, s, k, if idle then inUse else lru, if idle then st.used else st.lru);
    }

    ghost function AfterUnref(st: M.State, e: Handle, refs: nat, inCache: bool): M.State {
      if refs == 1 then st.(freed := st.freed + [e])
      else if inCache && refs == 2 then
        st.(used := M.Without(st.used, e), lru := st.lru + [e], idle := st.idle[e := st.clock])
      else st
    }

    /** The rest of `Unref`, after the decrement: at zero the deleter is called; a cached entry with only the cache's
        reference left becomes idle. */
    method Settle(e: Handle, ghost st: M.State) returns (ghost st': M.State)
      requires RingsOk(st) && Apart(st) && (e.refs == 0 ==> !e.inCache) && (e.inCache && e.refs == 1 ==> e in st.used)
      requires deleted == st.freed
      modifies `deleted, Nodes(st)`next, Nodes(st)`prev
      ensures st' == AfterUnref(st, e, e.refs + 1, e.inCache) && RingsOk(st') && deleted == st'.freed
      ensures deleted == old(deleted) + if e.refs == 0 then [e] else []
    {
      st' := AfterUnref(st, e, e.refs + 1, e.inCache);
      if e.refs == 0 {
        deleted := deleted + [e];
      } else if e.inCache && e.refs == 1 {
        MoveToLru(e, st);
      }
    }

    lemma AcquireApart(st: M.State, e: Handle)
      requires Apart(st) && M.HoldersOk(st) && M.Cached(st, e)
      ensures Apart(M.Acquire(st, e)) && M.HoldersOk(M.Acquire(st, e)) && M.Usage(M.Acquire(st, e)) == M.Usage(st)
      ensures M.CachedSet(M.Acquire(st, e)) == M.CachedSet(st) && Live(M.Acquire(st, e)) == Live(st) && e in Live(st)
      ensures M.Acquire(st, e).capacity == st.capacity && M.Acquire(st, e).freed == st.freed
    {
      AcquireFacts(st, e);
    }

    /** The list part of `Ref`. */
    method RefLists(e: Handle, ghost st: M.State, ghost after: M.State)
      requires after == M.Acquire(st, e) && RingsOk(st) && Apart(st) && M.HoldersOk(st) && CountsOk(st) && M.Cached(st, e)
      modifies Nodes(st)`next, Nodes(st)`prev
      ensures RingsOk(after) && CountsOk(st)
    {
      AcquireFacts(st, e);
      hide RingOk, NoDuplicates, M.ListsOk, M.HoldersOk, M.Usage;
      if e.refs == 1 && e.inCache {
        MoveToUsed(e, st);
      }
    }

    /** `Ref`. */
    method Ref(e: Handle, ghost st: M.State)
      requires Coherent(st) && M.Cached(st, e)
      modifies Nodes(st)`next, Nodes(st)`prev, e`refs
      ensures Coherent(M.Acquire(st, e)) && e.refs == old(e.refs) + 1
    {
      hide RingsOk, CountsOk, Apart, M.HoldersOk, M.Usage, M.Acquire, M.CachedSet, M.Cached;
      AcquireApart(st, e);
      RefLists(e, st, M.Acquire(st, e));
      CountUp(e, st, M.Acquire(st, e));
    }

    method CountUp(e: Handle, ghost st: M.State, ghost after: M.State)
      requires after == M.Acquire(st, e) && CountsOk(st) && RingsOk(after)
      requires e in Live(st) && M.CachedSet(after) == M.CachedSet(st) && Live(after) == Live(st)
      modifies e`refs
      ensures CountsOk(after) && RingsOk(after) && e.refs == old(e.refs) + 1
    {
      hide RingOk;
      e.refs := e.refs + 1;
    }

    lemma DropApart(st: M.State, e: Handle)
      requires Apart(st) && M.HoldersOk(st) && M.Cached(st, e)
      ensures Apart(M.Drop(st, e)) && Apart(Unlisted(st, e)) && M.Drop(st, e).capacity == st.capacity
      ensures e in M.CachedSet(st) && M.CachedSet(M.Drop(st, e)) == M.CachedSet(st) - {e}
      ensures Live(M.Drop(st, e)) == Live(st) - (if e in st.out then {} else {e})
      ensures M.HoldersOk(M.Drop(st, e)) && M.Usage(M.Drop(st, e)) == M.Usage(st) - e.charge
      ensures (e in st.out ==> st.out[e] > 0) && Nodes(Unlisted(st, e)) <= Nodes(st)
    {
      DropFacts(st, e);
      M.WithoutMembers(st.lru, e);
      M.WithoutMembers(st.used, e);
    }

    /** The cache's own reference goes: the flag, and the decrement of `Unref`. */
    method DropReference(e: Handle, ghost st: M.State)
      requires CountsOk(st) && e in M.CachedSet(st) && M.CachedSet(M.Drop(st, e)) == M.CachedSet(st) - {e}
      requires Live(M.Drop(st, e)) == Live(st) - (if e in st.out then {} else {e})
      modifies e`refs, e`inCache
      ensures CountsOk(M.Drop(st, e)) && !e.inCache && e.refs == M.Held(st, e)
    {
      assert e in Live(st);
      e.inCache := false;
      e.refs := e.refs - 1;
      ghost var st' := M.Drop(st, e);
      assert st'.out == st.out;
    }

    ghost function Unlisted(st: M.State, e: Handle): M.State {
      st.(lru := M.Without(st.lru, e), used := M.Without(st.used, e))
    }

    method LeaveCache(e: Handle, ghost st: M.State)
      requires RingsOk(st) && Apart(st) && CountsOk(st) && M.HoldersOk(st) && M.Cached(st, e)
      modifies Nodes(st)`next, Nodes(st)`prev, e`refs, e`inCache
      ensures RingsOk(Unlisted(st, e)) && CountsOk(M.Drop(st, e)) && !e.inCache && e.refs == M.Held(st, e)
    {
      hide RingsOk, CountsOk, M.HoldersOk, Apart, M.Cached, M.CachedSet;
      DropApart(st, e);
      LeaveLists(e, st);
      ghost var st1 := Unlisted(st, e);
      assert RingsOk(st1) && CountsOk(st);
      DropReference(e, st);
      assert RingsOk(st1);
    }

    /** The rest of `Unref` for an entry that left the cache: its deleter runs if nobody holds it. */
    method SettleDropped(e: Handle, ghost st: M.State, ghost dropped: M.State)
      requires dropped == M.Drop(st, e)
      requires RingsOk(Unlisted(st, e)) && Apart(Unlisted(st, e)) && CountsOk(dropped) && deleted == st.freed
      requires !e.inCache && e.refs == M.Held(st, e) && (e in st.out ==> st.out[e] > 0)
      modifies `deleted, Nodes(Unlisted(st, e))`next, Nodes(Unlisted(st, e))`prev
      ensures RingsOk(dropped) && CountsOk(dropped) && deleted == dropped.freed
    {
      hide RingsOk, CountsOk, Apart;
      ghost var st' := Settle(e, Unlisted(st, e));
      assert st' == dropped;
    }

    /** `FinishErase`: an entry already out of the table leaves the lists, and the cache's reference goes. */
    method FinishErase(e: Handle, ghost st: M.State)
      requires Coherent(st) && M.Cached(st, e)
      modifies `usage, `deleted, Nodes(st)`next, Nodes(st)`prev, e`refs, e`inCache
      ensures Coherent(M.Drop(st, e))
    {
      hide RingsOk, CountsOk, M.HoldersOk, M.Usage, Apart, M.Cached, M.CachedSet, M.Drop, Unlisted;
      DropApart(st, e);
      usage := usage - e.charge;
      LeaveCache(e, st);
      SettleDropped(e, st, M.Drop(st, e));
    }

    // ----- Releasing a handle

    ghost function Returned(st: M.State, e: Handle): M.State
      requires e in st.out
    {
      st.(out := if st.out[e] > 1 then st.out[e := st.out[e] - 1] else st.out - {e})
    }

    lemma ReturnedApart(st: M.State, e: Handle)
      requires Apart(st) && M.HoldersOk(st) && e in st.out
      ensures Apart(Returned(st, e)) && Apart(M.GiveBack(st, e)) && Nodes(Returned(st, e)) <= Nodes(st) && st.out[e] > 0
      ensures M.GiveBack(st, e).capacity == st.capacity
      ensures M.HoldersOk(M.GiveBack(st, e)) && M.CachedSet(M.GiveBack(st, e)) == M.CachedSet(st)
      ensures Live(M.GiveBack(st, e)) == Live(st) - (if st.out[e] == 1 && e !in M.CachedSet(st) then {e} else {})
      ensures M.Usage(M.GiveBack(st, e)) == M.Usage(st) && e in Live(st) && (e in M.CachedSet(st) <==> e in st.used)
    {
      GiveBackFacts(st, e);
    }

    /** The decrement of `Unref`. */
    method ReturnReference(e: Handle, ghost st: M.State)
      requires CountsOk(st) && e in st.out && st.out[e] > 0
      requires M.CachedSet(M.GiveBack(st, e)) == M.CachedSet(st)
      requires Live(M.GiveBack(st, e)) == Live(st) - (if st.out[e] == 1 && e !in M.CachedSet(st) then {e} else {})
      modifies e`refs
      ensures CountsOk(M.GiveBack(st, e)) && e.refs == old(e.refs) - 1
      ensures e.inCache == (e in M.CachedSet(st)) && e.refs == st.out[e] - 1 + (if e in M.CachedSet(st) then 1 else 0)
    {
      assert e in Live(st);
      e.refs := e.refs - 1;
    }

    /** The rest of `Unref`: the deleter, or the move to the idle list. */
    method SettleReturned(e: Handle, ghost st: M.State, ghost after: M.State)
      requires after == M.GiveBack(st, e)
      requires e in st.out && st.out[e] > 0 && RingsOk(st) && Apart(Returned(st, e)) && CountsOk(after) && deleted == st.freed
      requires e.inCache == (e in M.CachedSet(st)) && e.refs == st.out[e] - 1 + (if e in M.CachedSet(st) then 1 else 0)
      requires e in M.CachedSet(st) <==> e in st.used
      modifies `deleted, Nodes(Returned(st, e))`next, Nodes(Returned(st, e))`prev
      ensures RingsOk(after) && CountsOk(after) && deleted == after.freed
      ensures deleted == old(deleted) + if e.refs == 0 then [e] else []
    {
      hide RingOk, Apart, CountsOk;
      ghost var st' := Settle(e, Returned(st, e));
      assert st' == after;
    }

    method Unref(e: Handle, ghost st: M.State)
      requires Coherent(st) && e in st.out
      modifies `deleted, Nodes(st)`next, Nodes(st)`prev, e`refs
      ensures Coherent(M.GiveBack(st, e)) && e.refs == old(e.refs) - 1
      ensures deleted == old(deleted) + if e.refs == 0 then [e] else []
    {
      hide RingsOk, CountsOk, M.HoldersOk, M.Usage, Apart, M.GiveBack, M.CachedSet, Returned;
      ReturnedApart(st, e);
      ReturnReference(e, st);
      SettleReturned(e, st, M.GiveBack(st, e));
    }

    // ----- The public operations

    lemma TickCoherent(st: M.State)
      requires Coherent(st) && M.Inv(st)
      ensures Coherent(M.Tick(st)) && M.Inv(M.Tick(st))
      ensures M.CachedSet(M.Tick(st)) == M.CachedSet(st) && Nodes(M.Tick(st)) == Nodes(st)
      ensures forall g :: g in M.Tick(st).idle ==> M.Tick(st).idle[g] < M.Tick(st).clock
    {
      M.TickKept(st);
      assert M.CachedSet(M.Tick(st)) == M.CachedSet(st);
    }

    /** Searching the table is searching the model. */
    lemma SearchAgrees(st: M.State, key: Key, hash: nat, e: Handle?)
      requires M.KeysOk(st)
      requires e != null ==> e in M.CachedSet(st) && e.key == key && e.hash == hash
      requires e == null ==> forall h :: h in M.CachedSet(st) ==> h.key != key || h.hash != hash
      ensures e == null <==> M.Find(st, key, hash).None?
      ensures e != null ==> M.Find(st, key, hash).value == e && M.Cached(st, e)
    {
      if e != null {
        M.FoundIsOnly(st, e);
      }
      assert M.Find(st, key, hash).Some? ==> M.Find(st, key, hash).value in M.CachedSet(st);
    }

    /** What an operation does to the model, once the search result is known. */
    lemma FoundModel(st: M.State, key: Key, hash: nat, e: Handle?)
      requires M.Inv(st)
      requires e != null ==> e in M.CachedSet(st) && e.key == key && e.hash == hash
      requires e == null ==> forall h :: h in M.CachedSet(st) ==> h.key != key || h.hash != hash
      ensures M.Apply(st, M.Lookup(key, hash)) == if e == null then M.Tick(st) else M.Acquire(M.Tick(st), e)
      ensures M.Apply(st, M.Erase(key, hash)) == if e == null then M.Tick(st) else M.Drop(M.Tick(st), e)
      ensures e == null <==> M.Find(st, key, hash).None?
      ensures e != null ==> M.Find(st, key, hash).value == e && M.Cached(M.Tick(st), e)
      ensures M.Inv(M.Apply(st, M.Lookup(key, hash))) && M.CachedSet(M.Apply(st, M.Lookup(key, hash))) == M.CachedSet(st)
      ensures M.Inv(M.Apply(st, M.Erase(key, hash)))
      ensures M.CachedSet(M.Apply(st, M.Erase(key, hash))) == M.CachedSet(st) - (if e == null then {} else {e})
    {
      SearchAgrees(st, key, hash, e);
      M.StepKept(st, M.Lookup(key, hash));
      M.StepKept(st, M.Erase(key, hash));
      var t := M.Tick(st);
      assert M.CachedSet(t) == M.CachedSet(st) && M.Find(t, key, hash) == M.Find(st, key, hash);
      if e != null {
        AcquireFacts(t, e);
        DropFacts(t, e);
      }
    }

    method Lookup(key: Key, hash: nat) returns (e: Handle?)
      requires Valid()
      modifies `state, Nodes(state)`next, Nodes(state)`prev, Nodes(state)`refs
      ensures Valid() && state == M.Apply(old(state), M.Lookup(key, hash))
      ensures e == null <==> M.Find(old(state), key, hash).None?
      ensures e != null ==> M.Find(old(state), key, hash).value == e
      ensures e != null ==> e.key == key && e.hash == hash && e in table.entries && e.refs == old(e.refs) + 1
      ensures e == null ==> forall h :: h in table.entries ==> h.key != key || h.hash != hash
    {
      hide M.Inv, HandleTable.Valid, Coherent, M.Find, M.Apply, M.CachedSet, M.Cached, M.Acquire, M.Tick, M.Held;
      e := table.Lookup(key, hash);
      ghost var s, t := state, M.Tick(state);
      TickCoherent(s);
      FoundModel(s, key, hash, e);
      ghost var s' := M.Apply(s, M.Lookup(key, hash));
      if e != null {
        Ref(e, t);
      }
      assert Coherent(s');
      state := s';
    }

    lemma ReleaseModel(st: M.State, e: Handle)
      requires M.Inv(st) && e in st.out
      ensures M.Inv(M.Apply(st, M.Release(e))) && M.CachedSet(M.Apply(st, M.Release(e))) == M.CachedSet(st)
      ensures e in M.Tick(st).out && M.Apply(st, M.Release(e)) == M.GiveBack(M.Tick(st), e)
    {
      M.StepKept(st, M.Release(e));
      var t := M.Tick(st);
      assert M.CachedSet(t) == M.CachedSet(st);
      GiveBackFacts(t, e);
    }

    /** `Release`, of a handle that is out. */
    method Release(e: Handle)
      requires Valid() && e in state.out
      modifies `state, `deleted, Nodes(state)`next, Nodes(state)`prev, Nodes(state)`refs
      ensures Valid() && state == M.Apply(old(state), M.Release(e))
      ensures e.refs == old(e.refs) - 1 && deleted == old(deleted) + if e.refs == 0 then [e] else []
    {
      hide M.Inv, HandleTable.Valid, Coherent, M.Apply, M.CachedSet, M.GiveBack, M.Tick;
      ghost var s, t := state, M.Tick(state);
      TickCoherent(s);
      ReleaseModel(s, e);
      assert e in Nodes(s);
      Unref(e, t);
      assert Coherent(M.GiveBack(t, e));
      state := M.Apply(s, M.Release(e));
    }

    /** After an erasure exactly the entries with other keys are cached. */
    lemma ErasedIsGone(st: M.State, key: Key, hash: nat, e: Handle?, after: set<Handle>)
      requires M.Inv(st)
      requires e != null ==> e in M.CachedSet(st) && e.key == key && e.hash == hash
      requires e == null ==> forall h :: h in M.CachedSet(st) ==> h.key != key || h.hash != hash
      requires after == if e == null then M.CachedSet(st) else M.CachedSet(st) - {e}
      ensures forall h :: h in after <==> h in M.CachedSet(st) && !(h.key == key && h.hash == hash)
    {
    }

    /** The entry with the key, if there is one, leaves the table and the lists. */
    method TakeOut(key: Key, hash: nat, ghost s: M.State)
      requires Valid() && s == state
      modifies `usage, `deleted, table, table.list, Nodes(state)
      ensures var s' := M.Apply(s, M.Erase(key, hash));
              M.Inv(s') && Coherent(s') && table.Valid() && table.entries == M.CachedSet(s') && table.list == old(table.list)
      ensures forall h :: h in table.entries <==> h in old(table.entries) && !(h.key == key && h.hash == hash)
    {
      hide M.Inv, HandleTable.Valid, Coherent, M.Apply, M.CachedSet, M.Drop, M.Tick, M.Find, M.Cached, M.Held;
      var e := table.Remove(key, hash);
      TickCoherent(s);
      FoundModel(s, key, hash, e);
      ErasedIsGone(s, key, hash, e, M.CachedSet(M.Apply(s, M.Erase(key, hash))));
      if e != null {
        FinishErase(e, M.Tick(s));
      }
    }

    method Erase(key: Key, hash: nat)
      requires Valid()
      modifies `state, `usage, `deleted, table, table.list, Nodes(state)
      ensures Valid() && state == M.Apply(old(state), M.Erase(key, hash)) && table.list == old(table.list)
      ensures forall h :: h in table.entries <==> h in old(table.entries) && !(h.key == key && h.hash == hash)
    {
      hide M.Inv, HandleTable.Valid, Coherent, M.Apply, M.CachedSet, Nodes;
      ghost var s' := M.Apply(state, M.Erase(key, hash));
      TakeOut(key, hash, state);
      assert Coherent(s');
      state := s';
    }

    /** The head of the idle list, read off the links. */
    lemma OldestIdle()
      requires Valid()
      ensures lru.next == (if state.lru == [] then lru else state.lru[0]) && usage == M.Usage(state) && capacity == state.capacity
      ensures deleted == state.freed
      ensures state.lru != [] ==> state.lru[0] in M.CachedSet(state) && state.lru[0] != lru && state.lru[0].refs == 1
    {
      if state.lru != [] {
        assert state.lru[0] in state.lru && state.lru[0] in Live(state);
      }
    }

    lemma DropFrontModel(st: M.State, e: Handle?)
      requires M.Inv(st) && st.lru != []
      requires e != null ==> e in M.CachedSet(st) && SameKey(e, st.lru[0])
      requires e == null ==> forall h :: h in M.CachedSet(st) ==> h.key != st.lru[0].key || h.hash != st.lru[0].hash
      ensures e == st.lru[0] && M.Cached(st, e) && M.Inv(M.Drop(st, e)) && M.CachedSet(M.Drop(st, e)) == M.CachedSet(st) - {e}
      ensures Nodes(M.Drop(st, e)) <= Nodes(st) && |M.Drop(st, e).lru| < |st.lru|
    {
      assert st.lru[0] in M.CachedSet(st);
      M.DropOldest(st);
      DropFacts(st, st.lru[0]);
    }

    /** One round of an eviction loop. */
    method DropFront()
      requires Valid() && state.lru != []
      modifies `state, `usage, `deleted, table, table.list, Nodes(state)
      ensures Valid() && state == M.Drop(old(state), old(state.lru[0])) && table.list == old(table.list)
      ensures Nodes(state) <= old(Nodes(state)) && |state.lru| < |old(state.lru)|
    {
      hide M.Inv, HandleTable.Valid, Coherent, M.CachedSet, M.Drop, M.Cached, M.Held, M.Usage;
      OldestIdle();
      var oldest := lru.next;
      ghost var s := state;
      var e := table.Remove(oldest.key, oldest.hash);
      DropFrontModel(s, e);
      FinishErase(e, s);
      state := M.Drop(s, e);
    }

    method Prune()
      requires Valid()
      modifies `state, `usage, `deleted, table, table.list, Nodes(state)
      ensures Valid() && state == M.Apply(old(state), M.Prune) && table.list == old(table.list)
      ensures lru.next == lru && deleted == old(deleted) + old(state.lru)
    {
      hide M.Inv, HandleTable.Valid, Coherent, M.CachedSet, M.Drop;
      TickCoherent(state);
      L.PruneEmpties(state);
      ghost var t := M.Tick(state);
      state := t;
      OldestIdle();
      assert M.Apply(old(state), M.Prune) == M.DropIdle(t);
      while lru.next != lru
        invariant Valid() && deleted == state.freed && table.list == old(table.list) && Nodes(state) <= old(Nodes(state))
        invariant M.DropIdle(state) == M.DropIdle(t) && (lru.next != lru <==> state.lru != [])
        decreases |state.lru|
      {
        DropFront();
        OldestIdle();
      }
    }

    // ----- Insertion

    lemma AdmitModel(st: M.State, e: Handle, displaced: Handle?)
      requires M.Inv(st) && M.Allowed(st, M.Insert(e)) && st.capacity > 0
      requires displaced != null ==> displaced in M.CachedSet(st) && SameKey(displaced, e)
      requires displaced == null ==> forall h :: h in M.CachedSet(st) ==> !SameKey(h, e)
      ensures var st1 := Joined(st, e);
              M.Admit(st, e) == (if displaced == null then st1 else M.Drop(st1, displaced)) &&
              (displaced != null ==> M.Cached(st1, displaced)) && M.Inv(M.Admit(st, e)) &&
              M.CachedSet(M.Admit(st, e)) == M.CachedSet(st) - (if displaced == null then {} else {displaced}) + {e}
    {
      SearchAgrees(st, e.key, e.hash, displaced);
      M.AdmitKept(st, e);
      M.AdmitFresh(st, e);
      if displaced != null {
        M.DropSets(Joined(st, e), displaced);
      }
    }

    /** The state with a new held entry at the end of the used list. */
    ghost function Joined(st: M.State, e: Handle): M.State {
      st.(out := st.out[e := 1], used := st.used + [e])
    }

    lemma JoinedFacts(st: M.State, e: Handle)
      requires M.Inv(st) && M.Allowed(st, M.Insert(e)) && Apart(st) && e != lru && e != inUse && st.capacity > 0
      ensures Apart(Joined(st, e)) && M.HoldersOk(Joined(st, e)) && M.Usage(Joined(st, e)) == M.Usage(st) + e.charge
      ensures M.CachedSet(Joined(st, e)) == M.CachedSet(st) + {e} && Live(Joined(st, e)) == Live(st) + {e} && e !in Live(st)
      ensures Separate(inUse, st.used, lru, st.lru) && e !in st.used && e !in st.lru
    {
      M.AdmitFresh(st, e);
      M.ChargeAppend(st.used, e);
      assert Live(Joined(st, e)) == Live(st) + {e};
    }

    method JoinCounts(e: Handle, ghost st: M.State)
      requires CountsOk(st) && e !in Live(st)
      requires M.CachedSet(Joined(st, e)) == M.CachedSet(st) + {e} && Live(Joined(st, e)) == Live(st) + {e}
      modifies e`refs, e`inCache
      ensures CountsOk(Joined(st, e))
    {
      e.refs := 2;
      e.inCache := true;
    }

    method JoinList(e: Handle, ghost st: M.State)
      requires RingsOk(st) && Separate(inUse, st.used, lru, st.lru) && e !in st.used && e !in st.lru && e != lru && e != inUse
      modifies Nodes(st)`next, Nodes(st)`prev, e`next, e`prev
      ensures RingsOk(Joined(st, e))
    {
      hide RingOk, Separate;
      Append(inUse, e, st.used, lru, st.lru);
    }

    /** A new entry takes the client's and the cache's reference, a place on the used list, and its charge. */
    method Join(e: Handle, ghost st: M.State)
      requires Coherent(st) && M.Inv(st) && M.Allowed(st, M.Insert(e)) && e != lru && e != inUse && st.capacity > 0
      modifies `usage, Nodes(st)`next, Nodes(st)`prev, e`next, e`prev, e`refs, e`inCache
      ensures Coherent(Joined(st, e))
    {
      hide M.Inv, RingsOk, CountsOk, Apart, M.HoldersOk, M.Usage, Separate;
      JoinedFacts(st, e);
      ghost var st' := Joined(st, e);
      JoinCounts(e, st);
      assert CountsOk(st');
      JoinList(e, st);
      usage := usage + e.charge;
      assert CountsOk(st') && RingsOk(st');
    }

    /** The new entry joins the used list and the table, which hands back the one it displaces. */
    method EnterTable(e: Handle, ghost t: M.State) returns (displaced: Handle?)
      requires M.Inv(t) && Coherent(t) && table.Valid() && table.entries == M.CachedSet(t) && HasRoom(t, e.key, e.hash)
      requires M.Allowed(t, M.Insert(e)) && e != lru && e != inUse && t.capacity > 0
      modifies `usage, table, table.list, Nodes(t), e
      ensures Coherent(Joined(t, e)) && table.Valid() && (table.list == old(table.list) || fresh(table.list))
      ensures displaced != null ==>
                displaced in M.CachedSet(t) && SameKey(displaced, e) && table.entries == M.CachedSet(t) - {displaced} + {e}
      ensures displaced == null ==> table.entries == M.CachedSet(t) + {e} && forall h :: h in M.CachedSet(t) ==> !SameKey(h, e)
    {
      hide M.Inv, HandleTable.Valid, Coherent, HasRoom, M.CachedSet, M.Allowed, Nodes;
      JoinedNodes(t, e);
      TableTakes(t, e);
      ghost var st1 := Joined(t, e);
      Join(e, t);
      displaced := table.Insert(e);
      assert Coherent(st1);
    }

    /** The caching branch of `Insert`. */
    method AdmitCached(e: Handle, ghost t: M.State)
      requires M.Inv(t) && Coherent(t) && table.Valid() && table.entries == M.CachedSet(t) && HasRoom(t, e.key, e.hash)
      requires M.Allowed(t, M.Insert(e)) && e != lru && e != inUse && t.capacity > 0
      modifies `usage, `deleted, table, table.list, Nodes(t), e
      ensures Coherent(M.Admit(t, e)) && table.Valid() && table.entries == M.CachedSet(M.Admit(t, e)) && M.Inv(M.Admit(t, e))
      ensures table.list == old(table.list) || fresh(table.list)
    {
      hide M.Inv, HandleTable.Valid, Coherent, HasRoom, M.CachedSet, M.Drop, M.Cached, M.Admit, M.Allowed, Nodes, Joined;
      JoinedNodes(t, e);
      var displaced := EnterTable(e, t);
      AdmitModel(t, e, displaced);
      if displaced != null {
        FinishErase(displaced, Joined(t, e));
      }
    }

    lemma TableTakes(st: M.State, e: Handle)
      requires table.Valid() && table.entries == M.CachedSet(st) && HasRoom(st, e.key, e.hash) && st.capacity > 0
      ensures table.elems == LIMIT ==> exists g :: g in table.entries && SameKey(g, e)
    {
      if table.elems == LIMIT {
        assert M.Find(st, e.key, e.hash).value in M.CachedSet(st);
      }
    }

    lemma JoinedNodes(st: M.State, e: Handle)
      requires M.Allowed(st, M.Insert(e))
      ensures e !in M.CachedSet(st) && Nodes(Joined(st, e)) == Nodes(st) + {e} && M.CachedSet(st) <= Nodes(st)
    {
      assert M.CachedSet(Joined(st, e)) == M.CachedSet(st) + {e};
    }

    /** The branch of `Insert` that does not cache: the client's handle is the only reference. */
    lemma AdmitUncached(t: M.State, e: Handle)
      requires M.Inv(t) && Coherent(t) && M.Allowed(t, M.Insert(e)) && e != lru && e != inUse && t.capacity == 0
      requires e.refs == 1 && !e.inCache
      ensures Coherent(M.Admit(t, e)) && M.Inv(M.Admit(t, e)) && M.CachedSet(M.Admit(t, e)) == M.CachedSet(t)
    {
      M.AdmitKept(t, e);
      var st' := M.Admit(t, e);
      assert M.CachedSet(st') == M.CachedSet(t);
      assert Live(st') == Live(t) + {e};
      hide M.Inv, RingOk;
    }

    /** The new entry, with the client's reference. */
    method NewEntry(key: Key, hash: nat, charge: nat) returns (e: Handle)
      requires Valid()
      ensures fresh(e) && e.key == key && e.hash == hash && e.charge == charge && e.refs == 1 && !e.inCache
      ensures Valid() && M.Allowed(M.Tick(state), M.Insert(e)) && e != lru && e != inUse
    {
      hide M.Inv, HandleTable.Valid, Coherent, M.CachedSet;
      ghost var s, entries := state, table.entries;
      e := new Handle(key, hash, charge);
      assert e !in s.lru && e !in s.used && e !in s.out && e !in s.freed && e !in entries;
    }

    lemma AdmitNodes(st: M.State, e: Handle)
      requires M.Inv(st) && M.Allowed(st, M.Insert(e))
      ensures Nodes(M.Admit(st, e)) <= Nodes(st) + {e}
    {
      M.AdmitKept(st, e);
      var st' := M.Admit(st, e);
      var d := M.Find(st, e.key, e.hash);
      if st.capacity > 0 && d.Some? {
        M.AdmitFresh(st, e);
        DropFacts(Joined(st, e), d.value);
      }
    }

    lemma RoomStays(st: M.State, key: Key, hash: nat)
      ensures HasRoom(M.Tick(st), key, hash) <==> HasRoom(st, key, hash)
    {
      assert M.CachedSet(M.Tick(st)) == M.CachedSet(st);
    }

    /** `Insert` up to the eviction loop. */
    method Place(e: Handle)
      requires Valid() && HasRoom(state, e.key, e.hash)
      requires M.Allowed(M.Tick(state), M.Insert(e)) && e != lru && e != inUse && e.refs == 1 && !e.inCache
      modifies `state, `usage, `deleted, table, table.list, Nodes(state), e
      ensures Valid() && state == M.Admit(M.Tick(old(state)), e) && Nodes(state) <= old(Nodes(state)) + {e}
      ensures table.list == old(table.list) || fresh(table.list)
    {
      hide M.Inv, HandleTable.Valid, Coherent, HasRoom, M.CachedSet, M.Drop, M.Admit, M.Usage, Live;
      ghost var t := M.Tick(state);
      RoomStays(state, e.key, e.hash);
      TickCoherent(state);
      AdmitNodes(t, e);
      ghost var t' := M.Admit(t, e);
      OldestIdle();
      if capacity > 0 {
        AdmitCached(e, t);
      } else {
        e.next := null;
        AdmitUncached(t, e);
      }
      assert Coherent(t');
      state := t';
    }

    /** `Insert`: the new entry goes in, an older one under its key goes out, and the oldest idle entries make room. */
    method Insert(key: Key, hash: nat, charge: nat) returns (e: Handle)
      requires Valid() && HasRoom(state, key, hash)
      modifies `state, `usage, `deleted, table, table.list, Nodes(state)
      ensures fresh(e) && e.key == key && e.hash == hash && e.charge == charge
      ensures Valid() && M.Allowed(old(state), M.Insert(e)) && state == M.Apply(old(state), M.Insert(e))
      ensures (usage <= capacity || lru.next == lru) && capacity == old(capacity)
      ensures table.list == old(table.list) || fresh(table.list)
    {
      hide M.Inv, HandleTable.Valid, Coherent, HasRoom, M.CachedSet, M.Drop, M.Admit, Live, M.Usage;
      e := NewEntry(key, hash, charge);
      Place(e);
      ghost var t' := state;
      OldestIdle();
      while usage > capacity && lru.next != lru
        invariant Valid() && (table.list == old(table.list) || fresh(table.list)) && Nodes(state) <= old(Nodes(state)) + {e}
        invariant M.Evict(state) == M.Evict(t') && (lru.next != lru <==> state.lru != [])
        invariant usage == M.Usage(state) && capacity == state.capacity
        decreases |state.lru|
      {
        DropFront();
        OldestIdle();
      }
    }

    method SetCapacity(capacity: nat)
      requires Valid()
      modifies `capacity, `state
      ensures Valid() && state == M.Apply(old(state), M.SetCapacity(capacity)) && this.capacity == capacity
    {
      hide M.Inv, HandleTable.Valid, RingOk, CountsOk, Apart, M.HoldersOk, M.Usage, M.CachedSet;
      Recapped(state, capacity);
      this.capacity := capacity;
      state := M.Tick(state).(capacity := capacity);
    }

    /** `TotalCharge`. */
    method TotalCharge() returns (r: nat)
      requires Valid()
      ensures r == M.Usage(state)
    {
      r := usage;
    }

    /** The four representations of an entry agree: a reference for each handle out and one for the cache; on the idle
        list exactly with the cache's reference alone, on the used list exactly with more, in the table exactly when
        cached; and the charges add up. */
    lemma RepresentationsAgree(h: Handle)
      requires Valid() && h in Live(state)
      ensures h.refs == M.Held(state, h) + (if h.inCache then 1 else 0) && h.refs > 0
      ensures h in state.lru <==> h.inCache && h.refs == 1
      ensures h in state.used <==> h.inCache && h.refs >= 2
      ensures h in table.entries <==> h.inCache
      ensures usage == M.Charge(state.lru) + M.Charge(state.used)
    {
    }

    // ----- Destruction

    /** Part-way through the destructor's walk: the first i idle entries are gone, the others untouched. */
    ghost predicate Dying(idle: seq<Handle>, i: nat)
      reads (set h | h in idle)`refs, (set h | h in idle)`inCache
    {
      i <= |idle| && (forall j :: 0 <= j < i ==> idle[j].refs == 0 && !idle[j].inCache) &&
      forall j :: i <= j < |idle| ==> idle[j].refs == 1 && idle[j].inCache
    }

    lemma AllIdle()
      requires Valid()
      ensures Dying(state.lru, 0) && RingOk(lru, state.lru) && deleted == state.freed
    {
      assert forall j :: 0 <= j < |state.lru| ==> state.lru[j] in state.lru && state.lru[j] in Live(state);
    }

    /** The destructor, when every cached entry is idle: it calls the deleter of each, oldest first. */
    method Destroy()
      requires Valid() && state.used == []
      modifies `deleted, (set h | h in state.lru)`refs, (set h | h in state.lru)`inCache
      ensures deleted == state.freed + state.lru && NoDuplicates(deleted)
      ensures forall i :: 0 <= i < |deleted| ==> deleted[i] !in state.out
      ensures Dying(state.lru, |state.lru|)
    {
      hide M.Inv, HandleTable.Valid, Coherent, Dying;
      AllIdle();
      FreedApart(state);
      ghost var idle, i := state.lru, 0;
      var e := lru.next;
      while e != lru
        invariant i <= |idle| && e == At(lru, idle, i) && RingOk(lru, idle) && Dying(idle, i)
        invariant deleted == state.freed + idle[..i]
        decreases |idle| - i
      {
        assert idle[i] == e;
        var next := e.next;
        Expire(e, idle, i);
        e, i := next, i + 1;
      }
    }

    /** The body of the destructor's loop: the flag, and `Unref`. */
    method Expire(e: Handle, ghost idle: seq<Handle>, ghost i: nat)
      requires Dying(idle, i) && NoDuplicates(idle) && i < |idle| && e == idle[i]
      modifies `deleted, e`refs, e`inCache
      ensures Dying(idle, i + 1) && deleted == old(deleted) + [e]
    {
      e.inCache := false;
      e.refs := e.refs - 1;
      if e.refs == 0 {
        deleted := deleted + [e];
      }
    }

    lemma FreedApart(st: M.State)
      requires M.Inv(st)
      ensures NoDuplicates(st.freed + st.lru) && forall i :: 0 <= i < |st.freed + st.lru| ==> (st.freed + st.lru)[i] !in st.out
    {
      forall i, j | 0 <= i < j < |st.freed + st.lru|
        ensures (st.freed + st.lru)[i] != (st.freed + st.lru)[j]
      {
        if i < |st.freed| <= j {
          assert st.freed[i] in st.freed && st.lru[j - |st.freed|] in st.lru;
        }
      }
      assert forall i :: 0 <= i < |st.freed| ==> st.freed[i] in st.freed;
      assert forall i :: 0 <= i < |st.lru| ==> st.lru[i] in st.lru;
    }

    lemma Recapped(st: M.State, capacity: nat)
      requires Coherent(st) && M.Inv(st)
      ensures var t := M.Tick(st).(capacity := capacity);
              M.Inv(t) && RingsOk(t) && Apart(t) && CountsOk(t) && M.HoldersOk(t) && M.Usage(t) == M.Usage(st) &&
              M.CachedSet(t) == M.CachedSet(st)
    {
      TickCoherent(st);
      M.CapacityKept(M.Tick(st), capacity);
      assert M.CachedSet(M.Tick(st).(capacity := capacity)) == M.CachedSet(st);
    }
  }
}
