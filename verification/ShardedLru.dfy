/** `ShardedLRUCache` (util/cache.cpp): sixteen shards behind one interface, each operation routed by the hash of its
    key.  A shard is a state of `LruModel`, which `LruCaches.LRUCache` implements. */
module ShardedLru {
  import opened Bytes
  import opened CacheHandle
  import opened Options
  import M = LruModel
  import L = LruLaws

  const SHARDS: nat := 16
  const SIZE_MAX: nat := 0xFFFF_FFFF_FFFF_FFFF

  /** `Shard`: the top bits of a 32-bit hash. */
  function Shard(hash: nat): nat {
    hash / 0x1000_0000
  }

  type Hash = Key -> nat

  ghost predicate IsHash32(hash: Hash) {
    forall key :: hash(key) < UINT32
  }

  datatype Op =
    | Insert(h: Handle)
    | Lookup(key: Key)
    | Release(h: Handle)
    | Erase(key: Key)
    | Prune

  type Shards = s: seq<M.State> | |s| == SHARDS witness seq(SHARDS, _ => M.State(0, [], [], map[], [], 0, map[]))

  /** The hash that routes an operation; a released handle carries its own. */
  function RouteHash(hash: Hash, op: Op): nat
    requires !op.Prune?
  {
    match op
    case Insert(h) => h.hash
    case Lookup(key) => hash(key)
    case Release(h) => h.hash
    case Erase(key) => hash(key)
  }

  function LocalOp(hash: Hash, op: Op): M.Op {
    match op
    case Insert(h) => M.Insert(h)
    case Lookup(key) => M.Lookup(key, hash(key))
    case Release(h) => M.Release(h)
    case Erase(key) => M.Erase(key, hash(key))
    case Prune => M.Prune
  }

  /** One operation on the sharded cache. */
  function Apply(hash: Hash, shards: Shards, op: Op): Shards {
    if op.Prune? then seq(SHARDS, i requires 0 <= i < SHARDS => M.Apply(shards[i], M.Prune))
    else
      var i := Shard(RouteHash(hash, op));
      if i < SHARDS then shards[i := M.Apply(shards[i], LocalOp(hash, op))] else shards
  }

  predicate Reaches(hash: Hash, op: Op, i: nat) {
    op.Prune? || Shard(RouteHash(hash, op)) == i
  }

  /** What a client may do: release only a handle that some shard has given out, insert only new entries hashed by the
      cache. */
  ghost predicate Allowed(hash: Hash, shards: Shards, op: Op) {
    match op
    case Insert(h) => h.hash == hash(h.key) && forall i :: 0 <= i < SHARDS ==> h !in M.Everything(shards[i])
    case Release(h) => exists i :: 0 <= i < SHARDS && h in shards[i].out
    case _ => true
  }

  ghost predicate Run(hash: Hash, states: seq<Shards>, ops: seq<Op>) {
    |states| == |ops| + 1 && (forall i :: 0 <= i < SHARDS ==> M.Empty(states[0][i])) &&
    forall n :: 0 <= n < |ops| ==> Allowed(hash, states[n], ops[n]) && states[n + 1] == Apply(hash, states[n], ops[n])
  }

  /** Shard i holds only entries whose hash routes to i. */
  ghost predicate Routed(s: M.State, i: nat) {
    forall h :: h in M.Everything(s) ==> Shard(h.hash) == i
  }

  ghost predicate Inv(shards: Shards) {
    forall i :: 0 <= i < SHARDS ==> M.Inv(shards[i]) && Routed(shards[i], i)
  }

  /** An operation the client may do is one its shard allows. */
  lemma AllowedLocally(hash: Hash, shards: Shards, op: Op, i: nat)
    requires IsHash32(hash) && Inv(shards) && Allowed(hash, shards, op) && i < SHARDS && Reaches(hash, op, i)
    ensures M.Allowed(shards[i], LocalOp(hash, op))
  {
    hide M.Inv;
    match op
    case Insert(h) => assert h !in M.Everything(shards[i]);
    case Release(h) =>
      var j :| 0 <= j < SHARDS && h in shards[j].out;
      assert h in M.Everything(shards[j]);
    case _ =>
  }

  /** What shard i makes of an operation. */
  lemma OneShard(hash: Hash, shards: Shards, op: Op, i: nat)
    requires i < SHARDS
    ensures Apply(hash, shards, op)[i] == if Reaches(hash, op, i) then M.Apply(shards[i], LocalOp(hash, op)) else shards[i]
  {
  }

  lemma StepKept(hash: Hash, shards: Shards, op: Op)
    requires IsHash32(hash) && Inv(shards) && Allowed(hash, shards, op)
    ensures Inv(Apply(hash, shards, op))
  {
    forall i | 0 <= i < SHARDS
      ensures M.Inv(Apply(hash, shards, op)[i]) && Routed(Apply(hash, shards, op)[i], i)
    {
      OneShard(hash, shards, op, i);
      if Reaches(hash, op, i) {
        AllowedLocally(hash, shards, op, i);
        M.StepKept(shards[i], LocalOp(hash, op));
        hide M.Inv, M.Everything, M.Apply;
      }
    }
  }

  lemma EmptyInv(shards: Shards)
    requires forall i :: 0 <= i < SHARDS ==> M.Empty(shards[i])
    ensures Inv(shards)
  {
  }

  lemma RunStep(hash: Hash, states: seq<Shards>, ops: seq<Op>, n: nat)
    requires Run(hash, states, ops) && 0 < n < |states|
    ensures n <= |ops| && Allowed(hash, states[n - 1], ops[n - 1]) && states[n] == Apply(hash, states[n - 1], ops[n - 1])
  {
    var k := n - 1;
    assert Allowed(hash, states[k], ops[k]) && states[k + 1] == Apply(hash, states[k], ops[k]);
  }

  lemma {:induction false} RunKept(hash: Hash, states: seq<Shards>, ops: seq<Op>, n: nat)
    requires IsHash32(hash) && Run(hash, states, ops) && n < |states|
    ensures Inv(states[n])
    decreases n
  {
    hide Inv, Allowed, Apply, M.Empty;
    if n > 0 {
      RunKept(hash, states, ops, n - 1);
      RunStep(hash, states, ops, n);
      StepKept(hash, states[n - 1], ops[n - 1]);
    } else {
      EmptyInv(states[0]);
    }
  }

  // ----- A sharded cache is sixteen independent caches

  /** The operations that reach shard i, as that shard sees them. */
  ghost function Local(hash: Hash, ops: seq<Op>, i: nat): seq<M.Op> {
    if ops == [] then []
    else
      var op := ops[|ops| - 1];
      Local(hash, ops[..|ops| - 1], i) + if Reaches(hash, op, i) then [LocalOp(hash, op)] else []
  }

  /** After any run, shard i is in the state that a single cache reaches on the operations routed to it. */
  lemma {:induction false} ShardsAreIndependent(hash: Hash, states: seq<Shards>, ops: seq<Op>, n: nat, i: nat)
    returns (run: seq<M.State>)
    requires IsHash32(hash) && Run(hash, states, ops) && n < |states| && i < SHARDS
    ensures M.Run(run, Local(hash, ops[..n], i)) && run[|run| - 1] == states[n][i]
    decreases n
  {
    hide M.Apply, M.Allowed, Apply, Allowed, Inv, Reaches, M.Empty;
    if n == 0 {
      run := [states[0][i]];
    } else {
      run := ShardsAreIndependent(hash, states, ops, n - 1, i);
      var op, local := ops[n - 1], Local(hash, ops[..n - 1], i);
      assert ops[..n][..n - 1] == ops[..n - 1] && ops[..n][n - 1] == op;
      RunKept(hash, states, ops, n - 1);
      RunStep(hash, states, ops, n);
      OneShard(hash, states[n - 1], op, i);
      if Reaches(hash, op, i) {
        AllowedLocally(hash, states[n - 1], op, i);
        run := M.ExtendRun(run, local, LocalOp(hash, op));
      }
    }
  }

  /** No entry is in two shards: cached, held and freed entries of different shards are apart, in every run. */
  lemma EntriesStayInOneShard(hash: Hash, states: seq<Shards>, ops: seq<Op>, n: nat, i: nat, j: nat, h: Handle)
    requires IsHash32(hash) && Run(hash, states, ops) && n < |states| && i < SHARDS && j < SHARDS
    requires h in M.Everything(states[n][i]) && h in M.Everything(states[n][j])
    ensures i == j == Shard(h.hash)
  {
    RunKept(hash, states, ops, n);
  }

  /** What a key finds: its shard is the one that is asked. */
  function Found(hash: Hash, shards: Shards, key: Key): Option<Handle> {
    if Shard(hash(key)) < SHARDS then M.Find(shards[Shard(hash(key))], key, hash(key)) else None
  }

  /** An inserted entry is what its key then finds, exactly when its shard caches. */
  lemma InsertThenLookup(hash: Hash, shards: Shards, h: Handle)
    requires IsHash32(hash) && Inv(shards) && Allowed(hash, shards, Insert(h))
    ensures Shard(h.hash) < SHARDS
    ensures Found(hash, Apply(hash, shards, Insert(h)), h.key) == Some(h) <==> shards[Shard(h.hash)].capacity > 0
  {
    hide M.Inv, M.Apply, M.Find;
    assert hash(h.key) < UINT32;
    OneShard(hash, shards, Insert(h), Shard(h.hash));
    AllowedLocally(hash, shards, Insert(h), Shard(h.hash));
    M.InsertThenLookup(shards[Shard(h.hash)], h);
  }

  /** An erased key finds nothing, and every other key finds what it found before, in whichever shard. */
  lemma EraseThenLookup(hash: Hash, shards: Shards, key: Key, other: Key)
    requires IsHash32(hash) && Inv(shards)
    ensures Found(hash, Apply(hash, shards, Erase(key)), other) == if other == key then None else Found(hash, shards, other)
  {
    hide M.Inv, M.Apply, M.Find;
    assert hash(other) < UINT32;
    var i := Shard(hash(other));
    OneShard(hash, shards, Erase(key), i);
    M.EraseThenLookup(shards[i], key, hash(key), other, hash(other));
  }

  /** A lookup that finds an entry gives out one more handle for it, in the shard that has it, and touches no other shard. */
  lemma LookupHolds(hash: Hash, shards: Shards, key: Key, h: Handle)
    requires IsHash32(hash) && Inv(shards) && Found(hash, shards, key) == Some(h)
    ensures var i, after := Shard(hash(key)), Apply(hash, shards, Lookup(key));
            i < SHARDS && M.Held(after[i], h) == M.Held(shards[i], h) + 1 && h !in after[i].lru &&
            forall j :: 0 <= j < SHARDS && j != i ==> after[j] == shards[j]
  {
    var s := shards[Shard(hash(key))];
    assert M.Inv(s) && M.Cached(s, h) && h.key == key && h.hash == hash(key);
    hide M.Inv, M.Find, M.Apply;
    L.LookupHolds(s, h);
  }

  /** A handle given back is one fewer in the shard that gave it out, and no other shard is touched. */
  lemma ReleaseGivesBack(hash: Hash, shards: Shards, h: Handle, i: nat)
    requires IsHash32(hash) && Inv(shards) && i < SHARDS && h in shards[i].out
    ensures var after := Apply(hash, shards, Release(h));
            M.Held(after[i], h) == M.Held(shards[i], h) - 1 && forall j :: 0 <= j < SHARDS && j != i ==> after[j] == shards[j]
  {
    assert Routed(shards[i], i) && M.Inv(shards[i]);
    hide M.Inv, M.Apply;
    L.ReleaseGivesBack(shards[i], h);
  }

  /** `Prune` leaves no idle entry in any shard, and takes no other. */
  lemma PruneEmpties(hash: Hash, shards: Shards, i: nat)
    requires IsHash32(hash) && Inv(shards) && i < SHARDS
    ensures var after := Apply(hash, shards, Prune);
            after[i].lru == [] && after[i].used == shards[i].used && after[i].freed == shards[i].freed + shards[i].lru
  {
    hide M.Inv, M.Apply;
    L.PruneEmpties(shards[i]);
  }

  /** `Shard` is the number that the top four of the 32 bits of a hash spell, whatever the low 28 are. */
  lemma ShardIsTopBits(hash: nat, top: nat, low: nat)
    requires hash == top * 0x1000_0000 + low && low < 0x1000_0000 && top < SHARDS
    ensures Shard(hash) == top
  {
  }

  // ----- Capacity

  /** `per_shard`, in `size_t` arithmetic. */
  function PerShard(capacity: nat): nat {
    (capacity + (SHARDS - 1)) % (SIZE_MAX + 1) / SHARDS
  }

  /** The shards together can hold the capacity, by less than one unit per shard too much, exactly when the rounding up
      does not wrap; when it wraps every shard gets capacity zero, which turns caching off. */
  lemma CapacityIsSplit(capacity: nat)
    requires capacity <= SIZE_MAX
    ensures capacity <= SHARDS * PerShard(capacity) < capacity + SHARDS <==> capacity <= SIZE_MAX - (SHARDS - 1)
    ensures capacity > SIZE_MAX - (SHARDS - 1) ==> PerShard(capacity) == 0
  {
    if capacity <= SIZE_MAX - (SHARDS - 1) {
      assert (capacity + 15) % (SIZE_MAX + 1) == capacity + 15;
    } else {
      assert (capacity + 15) % (SIZE_MAX + 1) == capacity + 15 - (SIZE_MAX + 1);
    }
  }
}
