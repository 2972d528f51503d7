/** Clients of a cache shard: any sequence of requests to a new cache, releasing only handles that were given out. */
module LruSessions {
  import opened CacheHandle
  import opened HandleTables
  import opened LruCaches
  import M = LruModel

  /** What a client asks for; a handle to release is named by its position among those the client holds. */
  datatype Request =
    | Put(key: Key, hash: nat, charge: nat)
    | Get(key: Key, hash: nat)
    | GiveBack(i: nat)
    | Forget(key: Key, hash: nat)
    | Clean
    | Recap(capacity: nat)

  /** The client holds exactly the handles that are out. */
  ghost predicate HoldsAll(out: map<Handle, nat>, held: seq<Handle>) {
    (forall h :: h in held ==> h in out) && forall h :: h in out ==> out[h] == multiset(held)[h]
  }

  /** What a request asks for, of a client that holds these handles: the operations to be done, one or none. */
  ghost predicate Asks(r: Request, held: seq<Handle>, ops: seq<M.Op>) {
    match r
    case Put(key, hash, charge) =>
      |ops| == 1 && ops[0].Insert? && ops[0].h.key == key && ops[0].h.hash == hash && ops[0].h.charge == charge
    case Get(key, hash) => ops == [M.Lookup(key, hash)]
    case GiveBack(i) => ops == if i < |held| then [M.Release(held[i])] else []
    case Forget(key, hash) => ops == [M.Erase(key, hash)]
    case Clean => ops == [M.Prune]
    case Recap(capacity) => ops == [M.SetCapacity(capacity)]
  }

  /** The handles the client then holds: a new entry's, one for what a lookup finds, all but the one given back. */
  ghost function HeldAfter(r: Request, held: seq<Handle>, s: M.State, ops: seq<M.Op>): seq<Handle>
    requires Asks(r, held, ops)
  {
    match r
    case Put(_, _, _) => held + [ops[0].h]
    case Get(key, hash) => if M.Find(s, key, hash).Some? then held + [M.Find(s, key, hash).value] else held
    case GiveBack(i) => if i < |held| then held[..i] + held[i + 1..] else held
    case _ => held
  }

  /** A point of a session: the state, the handles the client holds, and the operations done so far. */
  datatype Point = Point(state: M.State, held: seq<Handle>, ops: seq<M.Op>)

  /** One request takes a session from one point to the next. */
  ghost predicate Answered(p: Point, r: Request, q: Point) {
    p.ops <= q.ops &&
    var more := q.ops[|p.ops|..];
    Asks(r, p.held, more) && q.held == HeldAfter(r, p.held, p.state, more) &&
    q.state == if more == [] then p.state else M.Apply(p.state, more[0])
  }

  /** The session that answers these requests, in order. */
  ghost predicate Plays(requests: seq<Request>, points: seq<Point>) {
    |points| == |requests| + 1 && M.Empty(points[0].state) && points[0].held == [] && points[0].ops == [] &&
    forall i {:trigger requests[i]} :: 0 <= i < |requests| ==> Answered(points[i], requests[i], points[i + 1])
  }

  lemma PlayOn(requests: seq<Request>, points: seq<Point>, n: nat, q: Point)
    requires n < |requests| && Plays(requests[..n], points) && Answered(points[n], requests[n], q)
    ensures Plays(requests[..n + 1], points + [q])
  {
    var longer := points + [q];
    forall i | 0 <= i < n + 1
      ensures Answered(longer[i], requests[..n + 1][i], longer[i + 1])
    {
      if i < n {
        assert requests[..n][i] == requests[..n + 1][i];
        assert longer[i] == points[i] && longer[i + 1] == points[i + 1];
      }
    }
  }

  lemma OneMore(out: map<Handle, nat>, held: seq<Handle>, h: Handle)
    requires HoldsAll(out, held)
    ensures HoldsAll(out[h := (if h in out then out[h] else 0) + 1], held + [h])
  {
    assert h !in out ==> h !in held;
    assert multiset(held + [h]) == multiset(held) + multiset{h};
  }

  lemma OneLess(out: map<Handle, nat>, held: seq<Handle>, i: nat)
    requires HoldsAll(out, held) && i < |held|
    ensures held[i] in out && out[held[i]] > 0
    ensures HoldsAll(if out[held[i]] > 1 then out[held[i] := out[held[i]] - 1] else out - {held[i]}, held[..i] + held[i + 1..])
  {
    var h, rest := held[i], held[..i] + held[i + 1..];
    assert held == held[..i] + [h] + held[i + 1..];
    assert multiset(held) == multiset(rest) + multiset{h};
    assert forall g :: g in rest ==> g in multiset(rest);
    assert forall g :: g in held <==> g in multiset(held);
  }

  // ----- Which handles are out after an operation

  lemma InsertOut(s: M.State, h: Handle)
    requires M.Inv(s) && M.Allowed(s, M.Insert(h))
    ensures M.Apply(s, M.Insert(h)).out == s.out[h := 1] && h !in s.out
  {
    M.TickKept(s);
    M.AdmitKept(M.Tick(s), h);
    M.EvictIsPrefix(M.Admit(M.Tick(s), h));
    hide M.Inv, M.Find;
  }

  lemma LookupOut(s: M.State, key: Key, hash: nat)
    ensures M.Apply(s, M.Lookup(key, hash)).out ==
            if M.Find(s, key, hash).None? then s.out
            else s.out[M.Find(s, key, hash).value := M.Held(s, M.Find(s, key, hash).value) + 1]
  {
    assert M.Find(M.Tick(s), key, hash) == M.Find(s, key, hash);
    hide M.Find;
  }

  lemma ReleaseOut(s: M.State, h: Handle)
    requires h in s.out
    ensures M.Apply(s, M.Release(h)).out == if s.out[h] > 1 then s.out[h := s.out[h] - 1] else s.out - {h}
  {
  }

  lemma EraseOut(s: M.State, key: Key, hash: nat)
    ensures M.Apply(s, M.Erase(key, hash)).out == s.out
  {
    hide M.Find;
  }

  lemma RecapOut(s: M.State, capacity: nat)
    ensures M.Apply(s, M.SetCapacity(capacity)).out == s.out
  {
  }

  lemma PruneOut(s: M.State)
    requires M.Inv(s)
    ensures M.Apply(s, M.Prune).out == s.out
  {
    M.TickKept(s);
    M.PruneFreesIdle(M.Tick(s));
    hide M.Inv;
  }

  // ----- The session

  lemma Invariant(cache: LRUCache)
    requires cache.Valid()
    ensures M.Inv(cache.state) && cache.Nodes(cache.state) <= M.Everything(cache.state) + {cache.lru, cache.inUse}
    ensures cache.Nodes(cache.state) == Live(cache.state) + {cache.lru, cache.inUse}
  {
  }

  method ServePut(cache: LRUCache, held: seq<Handle>, key: Key, hash: nat, charge: nat) returns (e: Handle, held': seq<Handle>)
    requires cache.Valid() && HoldsAll(cache.state.out, held) && HasRoom(cache.state, key, hash)
    modifies cache, cache.table, cache.table.list, cache.Nodes(cache.state)
    ensures cache.Valid() && HoldsAll(cache.state.out, held')
    ensures cache.table.list == old(cache.table.list) || fresh(cache.table.list)
    ensures fresh(e) && M.Allowed(old(cache.state), M.Insert(e)) && cache.state == M.Apply(old(cache.state), M.Insert(e))
    ensures e.key == key && e.hash == hash && e.charge == charge && held' == held + [e]
  {
    hide LRUCache.Valid, HoldsAll, HasRoom, M.Apply, M.CachedSet, M.Inv, M.Find, M.Everything, LRUCache.Nodes, M.Allowed;
    ghost var s := cache.state;
    Invariant(cache);
    e := cache.Insert(key, hash, charge);
    InsertOut(s, e);
    OneMore(s.out, held, e);
    held' := held + [e];
  }

  method ServeGet(cache: LRUCache, held: seq<Handle>, key: Key, hash: nat) returns (held': seq<Handle>)
    requires cache.Valid() && HoldsAll(cache.state.out, held)
    modifies cache`state, cache.Nodes(cache.state)
    ensures cache.Valid() && HoldsAll(cache.state.out, held')
    ensures cache.state == M.Apply(old(cache.state), M.Lookup(key, hash))
    ensures var found := M.Find(old(cache.state), key, hash); held' == if found.Some? then held + [found.value] else held
  {
    hide LRUCache.Valid, HoldsAll, M.Apply, M.Find, LRUCache.Nodes;
    ghost var s := cache.state;
    held' := held;
    var e := cache.Lookup(key, hash);
    LookupOut(s, key, hash);
    if e != null {
      OneMore(s.out, held, e);
      held' := held + [e];
    }
  }

  method ServeGiveBack(cache: LRUCache, held: seq<Handle>, i: nat) returns (held': seq<Handle>)
    requires cache.Valid() && HoldsAll(cache.state.out, held) && i < |held|
    modifies cache`state, cache`deleted, cache.Nodes(cache.state)
    ensures cache.Valid() && HoldsAll(cache.state.out, held') && held[i] in old(cache.state.out)
    ensures cache.state == M.Apply(old(cache.state), M.Release(held[i])) && held' == held[..i] + held[i + 1..]
  {
    hide LRUCache.Valid, HoldsAll, M.Apply, LRUCache.Nodes;
    ghost var s := cache.state;
    OneLess(s.out, held, i);
    ReleaseOut(s, held[i]);
    cache.Release(held[i]);
    held' := held[..i] + held[i + 1..];
  }

  /** The requests that give out no handle and take none back. */
  method ServeKeeping(cache: LRUCache, ghost held: seq<Handle>, r: Request) returns (ghost ops: seq<M.Op>)
    requires cache.Valid() && HoldsAll(cache.state.out, held) && (r.Forget? || r.Clean? || r.Recap?)
    modifies cache, cache.table, cache.table.list, cache.Nodes(cache.state)
    ensures cache.Valid() && HoldsAll(cache.state.out, held) && cache.table.list == old(cache.table.list)
    ensures Asks(r, held, ops) && |ops| == 1 && !ops[0].Insert? && M.Allowed(old(cache.state), ops[0])
    ensures cache.state == M.Apply(old(cache.state), ops[0])
  {
    hide LRUCache.Valid, HoldsAll, M.Apply, M.Inv, M.Find, LRUCache.Nodes;
    ghost var s := cache.state;
    Invariant(cache);
    match r
    case Forget(key, hash) =>
      cache.Erase(key, hash);
      EraseOut(s, key, hash);
      ops := [M.Erase(key, hash)];
    case Clean =>
      cache.Prune();
      PruneOut(s);
      ops := [M.Prune];
    case Recap(capacity) =>
      cache.SetCapacity(capacity);
      RecapOut(s, capacity);
      ops := [M.SetCapacity(capacity)];
  }

  /** A request whose call does not return: it would need one more entry in a full table. */
  ghost predicate Hangs(s: M.State, r: Request) {
    r.Put? && !HasRoom(s, r.key, r.hash)
  }

  /** Whether a request would hang, read off the cache. */
  method WouldHang(cache: LRUCache, r: Request) returns (yes: bool)
    requires cache.Valid()
    ensures yes <==> Hangs(cache.state, r)
  {
    yes := false;
    if r.Put? && cache.capacity > 0 && cache.table.elems == LIMIT {
      var e := cache.table.Lookup(r.key, r.hash);
      cache.SearchAgrees(cache.state, r.key, r.hash, e);
      yes := e == null;
    }
  }

  /** What a request does: the handles the client then holds, and the model's operation, if there is one. */
  method Serve(cache: LRUCache, held: seq<Handle>, r: Request) returns (held': seq<Handle>, ghost ops: seq<M.Op>)
    requires cache.Valid() && HoldsAll(cache.state.out, held) && !Hangs(cache.state, r)
    modifies cache, cache.table, cache.table.list, cache.Nodes(cache.state)
    ensures cache.Valid() && HoldsAll(cache.state.out, held')
    ensures cache.table.list == old(cache.table.list) || fresh(cache.table.list)
    ensures ops == [] ==> cache.state == old(cache.state)
    ensures ops != [] ==> |ops| == 1 && M.Allowed(old(cache.state), ops[0]) && cache.state == M.Apply(old(cache.state), ops[0])
    ensures Asks(r, held, ops) && held' == HeldAfter(r, held, old(cache.state), ops)
    ensures forall i :: 0 <= i < |ops| && ops[i].Insert? ==> fresh(ops[i].h)
  {
    hide LRUCache.Valid, HoldsAll, HasRoom, M.Apply, M.CachedSet, M.Inv, M.Find, M.Everything, LRUCache.Nodes;
    ghost var s := cache.state;
    Invariant(cache);
    held', ops := held, [];
    match r
    case Put(key, hash, charge) =>
      var e;
      e, held' := ServePut(cache, held, key, hash, charge);
      ops := [M.Insert(e)];
    case Get(key, hash) =>
      held' := ServeGet(cache, held, key, hash);
      ops := [M.Lookup(key, hash)];
    case GiveBack(i) =>
      if i < |held| {
        held' := ServeGiveBack(cache, held, i);
        ops := [M.Release(held[i])];
      }
    case _ => ops := ServeKeeping(cache, held, r);
  }

  /** One more operation of a session, as the model sees it. */
  lemma SessionStep(states: seq<M.State>, ops: seq<M.Op>, s: M.State, more: seq<M.Op>, s': M.State)
    returns (longer: seq<M.State>)
    requires M.Run(states, ops) && |states| == |ops| + 1 && states[|ops|] == s && M.Inv(s)
    requires more == [] ==> s' == s
    requires more != [] ==> |more| == 1 && M.Allowed(s, more[0]) && s' == M.Apply(s, more[0])
    ensures M.Run(longer, ops + more) && |longer| == |ops + more| + 1 && longer[|ops + more|] == s'
    ensures M.Everything(s') == M.Everything(s) + if more == [] then {} else M.Added(more[0])
  {
    hide M.Run, M.Apply, M.Everything, M.Allowed, M.Inv;
    if more == [] {
      longer := states;
      assert ops + more == ops;
    } else {
      longer := M.ExtendRun(states, ops, more[0]);
      RunLength(longer, ops + [more[0]]);
      M.StepKept(s, more[0]);
      assert more == [more[0]];
    }
  }

  lemma RunLength(states: seq<M.State>, ops: seq<M.Op>)
    requires M.Run(states, ops)
    ensures |states| == |ops| + 1
  {
  }

  lemma NothingKnown(s: M.State)
    requires M.Empty(s)
    ensures M.Everything(s) == {} && M.Run([s], []) && HoldsAll(s.out, [])
  {
  }

  /** Whose deleter ran, in terms of what the client holds. */
  lemma SessionEnd(states: seq<M.State>, ops: seq<M.Op>, s: M.State, held: seq<Handle>)
    requires M.Run(states, ops) && |states| == |ops| + 1 && states[|ops|] == s && HoldsAll(s.out, held)
    ensures NoDuplicates(s.freed)
    ensures forall h :: h in M.Inserted(ops) ==> (h in s.freed <==> !M.Cached(s, h) && h !in held)
  {
    M.RunKept(states, ops, |ops|);
    assert ops[..|ops|] == ops;
    assert M.Inv(s) && NoDuplicates(s.freed);
    forall h | h in M.Inserted(ops)
      ensures h in s.freed <==> !M.Cached(s, h) && h !in held
    {
      M.RunIsSafe(states, ops, |ops|, h);
      assert h in held <==> h in multiset(held);
      assert h in s.out ==> s.out[h] > 0;
    }
  }

  lemma PlaysNothing(s: M.State)
    requires M.Empty(s)
    ensures Plays([], [Point(s, [], [])])
  {
  }

  lemma AnsweredBy(s: M.State, held: seq<Handle>, ops: seq<M.Op>, r: Request, more: seq<M.Op>, held': seq<Handle>, s': M.State)
    requires Asks(r, held, more) && held' == HeldAfter(r, held, s, more)
    requires s' == if more == [] then s else M.Apply(s, more[0])
    ensures Answered(Point(s, held, ops), r, Point(s', held', ops + more))
  {
    assert (ops + more)[|ops|..] == more;
  }

  /** The record of a session up to request n, which is at point p. */
  ghost predicate Recorded(requests: seq<Request>, n: nat, points: seq<Point>, states: seq<M.State>, p: Point) {
    n <= |requests| && |points| == n + 1 && points[n] == p && Plays(requests[..n], points) &&
    M.Run(states, p.ops) && |states| == |p.ops| + 1 && states[|p.ops|] == p.state
  }

  lemma NothingYet(requests: seq<Request>, s: M.State)
    requires M.Empty(s)
    ensures Recorded(requests, 0, [Point(s, [], [])], [s], Point(s, [], [])) && HoldsAll(s.out, []) && M.Everything(s) == {}
  {
    NothingKnown(s);
    PlaysNothing(s);
    assert requests[..0] == [];
  }

  /** The record after one more request. */
  lemma RecordMore(requests: seq<Request>, n: nat, points: seq<Point>, states: seq<M.State>, p: Point, more: seq<M.Op>, q: Point)
    returns (points': seq<Point>, states': seq<M.State>)
    requires Recorded(requests, n, points, states, p) && n < |requests| && M.Inv(p.state) && q.ops == p.ops + more
    requires Asks(requests[n], p.held, more) && q.held == HeldAfter(requests[n], p.held, p.state, more)
    requires more == [] ==> q.state == p.state
    requires more != [] ==> |more| == 1 && M.Allowed(p.state, more[0]) && q.state == M.Apply(p.state, more[0])
    ensures Recorded(requests, n + 1, points', states', q)
    ensures M.Everything(q.state) == M.Everything(p.state) + if more == [] then {} else M.Added(more[0])
  {
    hide Plays, M.Run, M.Everything, Asks, HeldAfter, M.Apply, M.Inv, M.Allowed, Answered;
    states' := SessionStep(states, p.ops, p.state, more, q.state);
    AnsweredBy(p.state, p.held, p.ops, requests[n], more, q.held, q.state);
    PlayOn(requests, points, n, q);
    points' := points + [q];
  }

  lemma RecordedAll(requests: seq<Request>, n: nat, points: seq<Point>, states: seq<M.State>, p: Point)
    requires Recorded(requests, n, points, states, p) && HoldsAll(p.state.out, p.held)
    ensures Plays(requests[..n], points) && points[n] == p && M.Run(states, p.ops) && states[|states| - 1] == p.state
    ensures NoDuplicates(p.state.freed)
    ensures forall h :: h in M.Inserted(p.ops) ==> (h in p.state.freed <==> !M.Cached(p.state, h) && h !in p.held)
  {
    SessionEnd(states, p.ops, p.state, p.held);
  }

  /** The loop of a session: requests are answered in order, up to the first that hangs, if one does. */
  method Play(requests: seq<Request>)
    returns (cache: LRUCache, held: seq<Handle>, n: nat, ghost points: seq<Point>, ghost states: seq<M.State>, ghost p: Point)
    ensures cache.Valid() && p.state == cache.state && p.held == held && HoldsAll(p.state.out, p.held)
    ensures Recorded(requests, n, points, states, p) && (n < |requests| ==> Hangs(cache.state, requests[n]))
    ensures n <= |requests| && fresh(cache) && fresh(cache.table) && fresh(cache.table.list) && fresh(cache.lru)
    ensures fresh(cache.inUse) && fresh(M.Everything(cache.state))
  {
    hide *;
    cache := new LRUCache();
    held, states, p := [], [cache.state], Point(cache.state, [], []);
    points := [p];
    NothingYet(requests, cache.state);
    n := 0;
    while n < |requests|
      invariant n <= |requests| && cache.Valid() && p.state == cache.state && p.held == held && HoldsAll(p.state.out, p.held)
      invariant Recorded(requests, n, points, states, p)
      invariant fresh(cache) && fresh(cache.table) && fresh(cache.table.list) && fresh(cache.lru) && fresh(cache.inUse)
      invariant fresh(M.Everything(cache.state))
    {
      var hangs := WouldHang(cache, requests[n]);
      if hangs {
        return;
      }
      Invariant(cache);
      ghost var q, more := p, [];
      held, more := Serve(cache, held, requests[n]);
      p := Point(cache.state, held, q.ops + more);
      AddedIsNew(more);
      points, states := RecordMore(requests, n, points, states, q, more, p);
      n := n + 1;
    }
  }

  lemma AddedIsNew(ops: seq<M.Op>)
    ensures forall i :: 0 <= i < |ops| ==> M.Added(ops[i]) == if ops[i].Insert? then {ops[i].h} else {}
  {
  }

  /** Any sequence of requests to a new cache is answered in order, each with the operation it asks for, up to the first
      whose call does not return, if there is one; what was done is a run of the model, at whose end the cache agrees
      with the model, the client holds exactly the handles that are out, and of all entries ever inserted the deleter
      was called for exactly those neither cached nor held, once. */
  method Session(requests: seq<Request>)
    returns (cache: LRUCache, held: seq<Handle>, n: nat, ghost points: seq<Point>, ghost states: seq<M.State>)
    ensures cache.Valid() && HoldsAll(cache.state.out, held)
    ensures n <= |requests| && Plays(requests[..n], points) && (n < |requests| ==> Hangs(cache.state, requests[n]))
    ensures points[n].state == cache.state && points[n].held == held
    ensures M.Run(states, points[n].ops) && states[|states| - 1] == cache.state && NoDuplicates(cache.deleted)
    ensures forall h :: h in M.Inserted(points[n].ops) ==> (h in cache.deleted <==> !M.Cached(cache.state, h) && h !in held)
    ensures fresh(cache) && fresh(cache.table) && fresh(cache.table.list) && fresh(cache.lru) && fresh(cache.inUse)
    ensures fresh(M.Everything(cache.state))
  {
    hide *;
    ghost var p;
    cache, held, n, points, states, p := Play(requests);
    RecordedAll(requests, n, points, states, p);
    Calls(cache);
  }

  lemma Calls(cache: LRUCache)
    requires cache.Valid()
    ensures cache.deleted == cache.state.freed
  {
  }

  // ----- A whole life

  /** The client gives back all it holds. */
  method GiveAllBack(cache: LRUCache, held: seq<Handle>)
    requires cache.Valid() && HoldsAll(cache.state.out, held)
    modifies cache`state, cache`deleted, cache.Nodes(cache.state)
    ensures cache.Valid() && HoldsAll(cache.state.out, [])
    ensures M.Everything(cache.state) == M.Everything(old(cache.state))
  {
    hide *;
    var left := held;
    while left != []
      invariant cache.Valid() && HoldsAll(cache.state.out, left) && M.Everything(cache.state) == M.Everything(old(cache.state))
      invariant cache.Nodes(cache.state) <= cache.Nodes(old(cache.state))
      decreases |left|
    {
      ghost var s, h := cache.state, left[0];
      Invariant(cache);
      left := ServeGiveBack(cache, left, 0);
      ReleaseKnown(cache, s, h);
    }
  }

  lemma ReleaseKnown(cache: LRUCache, s: M.State, h: Handle)
    requires M.Inv(s) && h in s.out && cache.state == M.Apply(s, M.Release(h))
    ensures M.Everything(cache.state) == M.Everything(s) && cache.Nodes(cache.state) <= cache.Nodes(s)
  {
    M.StepKept(s, M.Release(h));
    GiveBackFacts(M.Tick(s), h);
    assert M.CachedSet(M.Tick(s)) == M.CachedSet(s);
    hide M.Inv;
  }

  /** With nothing out, the idle list is all there is besides what was deleted. */
  lemma NothingOut(cache: LRUCache)
    requires cache.Valid() && HoldsAll(cache.state.out, [])
    ensures cache.state.used == [] && cache.deleted == cache.state.freed
    ensures M.Everything(cache.state) == set h | h in cache.state.freed + cache.state.lru
  {
    NoneOut(cache.state.out);
    NoMembers(cache.state.used, cache.state.out.Keys);
  }

  lemma NoneOut(out: map<Handle, nat>)
    requires HoldsAll(out, []) && forall h :: h in out ==> out[h] > 0
    ensures out.Keys == {}
  {
  }

  lemma FirstMember(hs: seq<Handle>, keys: set<Handle>)
    requires hs != [] && forall h :: h in hs ==> h in keys
    ensures hs[0] in keys
  {
  }

  lemma NoMembers(hs: seq<Handle>, keys: set<Handle>)
    requires (forall h :: h in hs ==> h in keys) && keys == {}
    ensures hs == []
  {
    if hs != [] {
      FirstMember(hs, keys);
    }
  }

  lemma InsertedIsKnown(requests: seq<Request>, n: nat, points: seq<Point>, states: seq<M.State>, p: Point)
    requires Recorded(requests, n, points, states, p)
    ensures M.Everything(p.state) == M.Inserted(p.ops)
  {
    M.RunKept(states, p.ops, |p.ops|);
    assert p.ops[..|p.ops|] == p.ops;
  }

  /** The whole life of a cache: any session, then every handle given back, then the destructor.  The deleter has been
      called for exactly the entries that were inserted, once each. */
  method WholeLife(requests: seq<Request>) returns (cache: LRUCache, n: nat, ghost points: seq<Point>)
    ensures n <= |requests| && Plays(requests[..n], points)
    ensures NoDuplicates(cache.deleted) && M.Inserted(points[n].ops) == set h | h in cache.deleted
  {
    hide *;
    ghost var states, p;
    var held;
    cache, held, n, points, states, p := Play(requests);
    RecordedAll(requests, n, points, states, p);
    InsertedIsKnown(requests, n, points, states, p);
    Invariant(cache);
    GiveAllBack(cache, held);
    NothingOut(cache);
    IdleIsKnown(cache);
    cache.Destroy();
  }

  lemma IdleIsKnown(cache: LRUCache)
    ensures forall h :: h in cache.state.lru ==> h in M.Everything(cache.state)
  {
  }
}
