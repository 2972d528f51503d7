/** `LRUHandle` (util/cache_impl.h), and the bit mask that picks a bucket. */
module CacheHandle {
  import opened Bytes

  /** Keys are only compared for equality. */
  type Key = int

  class Handle {
    const key: Key
    const hash: nat
    const charge: nat
    var nextHash: Handle?
    var next: Handle?
    var prev: Handle?
    var inCache: bool
    var refs: nat

    constructor (key: Key, hash: nat, charge: nat)
      ensures this.key == key && this.hash == hash && this.charge == charge
      ensures nextHash == null && !inCache && refs == 1
    {
      this.key, this.hash, this.charge := key, hash, charge;
      nextHash, next, prev := null, null, null;
      inCache, refs := false, 1;
    }
  }

  predicate SameKey(g: Handle, h: Handle) {
    g.key == h.key && g.hash == h.hash
  }

  ghost predicate NoDuplicates(hs: seq<Handle>) {
    forall i, j :: 0 <= i < j < |hs| ==> hs[i] != hs[j]
  }

  function RemoveAt(hs: seq<Handle>, k: nat): seq<Handle>
    requires k < |hs|
  {
    hs[..k] + hs[k + 1..]
  }

  lemma RemoveAtMembers(hs: seq<Handle>, k: nat)
    requires k < |hs| && NoDuplicates(hs)
    ensures NoDuplicates(RemoveAt(hs, k)) && forall g :: g in hs && g != hs[k] ==> g in RemoveAt(hs, k)
    ensures forall i :: 0 <= i < |RemoveAt(hs, k)| ==> RemoveAt(hs, k)[i] in hs && RemoveAt(hs, k)[i] != hs[k]
  {
    var r := RemoveAt(hs, k);
    assert forall i :: 0 <= i < |r| ==> r[i] == if i < k then hs[i] else hs[i + 1];
    forall g | g in hs && g != hs[k]
      ensures g in r
    {
      var j :| 0 <= j < |hs| && hs[j] == g;
      assert r[if j < k then j else j - 1] == g;
    }
  }

  predicate PowerOfTwo(n: nat) {
    n == 1 || (n > 1 && n % 2 == 0 && PowerOfTwo(n / 2))
  }

  lemma RemainderOfDouble(x: nat, m: nat)
    requires m > 0
    ensures x % (2 * m) == 2 * (x / 2 % m) + x % 2
  {
    var q, r := x / 2 / m, x / 2 % m;
    assert x / 2 == m * q + r;
    QuotientIs(x, 2 * m, q, 2 * r + x % 2);
  }

  lemma MaskStep(x: nat, m: nat)
    requires m > 0
    ensures BitAnd(x, 2 * m - 1) == 2 * BitAnd(x / 2, m - 1) + x % 2
  {
    assert (2 * m - 1) / 2 == m - 1 && (2 * m - 1) % 2 == 1;
  }

  /** For a power of two the mask is the remainder. */
  lemma {:induction false} MaskIsRemainder(x: nat, n: nat)
    requires PowerOfTwo(n)
    ensures BitAnd(x, n - 1) == x % n
    decreases n
  {
    if n > 1 {
      var m := n / 2;
      assert n == 2 * m;
      MaskIsRemainder(x / 2, m);
      RemainderOfDouble(x, m);
      MaskStep(x, m);
    }
  }
}

/** `HandleTable` (util/cache.cpp): a chained hash table, with its chains threaded through the handles and rebuilt in
    place when the table grows. */
module HandleTables {
  import opened Bytes
  import opened CacheHandle

  /** What an `LRUHandle**` points at: a bucket, or the chain link of a handle. */
  /** The most entries a table can have. */
  const LIMIT: nat := 0x8000_0000

  datatype Slot = Bucket(b: nat) | LinkOf(h: Handle)

  /** Following chain links from `first` visits exactly the handles of `chain`. */
  ghost predicate ChainOk(first: Handle?, chain: seq<Handle>)
    reads (set h | h in chain)`nextHash
  {
    first == (if chain == [] then null else chain[0]) &&
    forall i {:trigger chain[i].nextHash} ::
      0 <= i < |chain| ==> chain[i].nextHash == if i + 1 < |chain| then chain[i + 1] else null
  }

  /** The bucket of a hash: a mask, since the length is a power of two. */
  function Index(hash: nat, length: nat): (b: nat)
    requires length > 0
    ensures b < length
  {
    BitAnd(hash, length - 1)
  }

  /** Chains hold each entry exactly once, in its own bucket. */
  ghost predicate Partition(chains: seq<seq<Handle>>, entries: set<Handle>)
    requires |chains| > 0
  {
    (forall b :: 0 <= b < |chains| ==> NoDuplicates(chains[b])) &&
    (forall b :: 0 <= b < |chains| ==> forall h :: h in chains[b] ==> h in entries && Index(h.hash, |chains|) == b) &&
    (forall h :: h in entries ==> h in chains[Index(h.hash, |chains|)])
  }

  ghost predicate UniqueKeys(entries: set<Handle>) {
    forall g, h :: g in entries && h in entries && SameKey(g, h) ==> g == h
  }

  /** The bucket array and the chain links together hold the entries. */
  ghost predicate Threaded(list: array<Handle?>, chains: seq<seq<Handle>>, entries: set<Handle>)
    reads list, entries`nextHash
  {
    list.Length == |chains| > 0 && Partition(chains, entries) &&
    forall b :: 0 <= b < |chains| ==> ChainOk(list[b], chains[b])
  }

  /** The smallest power of two, from four up, that is at least the number of entries; 32-bit arithmetic. */
  method LengthFor(elems: nat) returns (n: nat)
    requires elems <= 0x8000_0000
    ensures PowerOfTwo(n) && elems <= n <= 0x8000_0000 && n >= 4 && (n > 4 ==> n < 2 * elems)
  {
    n := 4;
    assert PowerOfTwo(1) && PowerOfTwo(2) && PowerOfTwo(4);
    while n < elems
      invariant PowerOfTwo(n) && 4 <= n <= 0x8000_0000 && (n > 4 ==> n < 2 * elems)
      decreases elems - n
    {
      Doubled(n);
      n := n * 2 % UINT32;
    }
  }

  /** The value of `new_length` after k rounds of the doubling loop, in 32-bit arithmetic. */
  function Doubling(k: nat): nat {
    if k == 0 then 4 else Doubling(k - 1) * 2 % UINT32
  }

  lemma DoubledWord(x: nat)
    ensures x < 0x8000_0000 ==> x * 2 % UINT32 == 2 * x
    ensures x == 0x8000_0000 ==> x * 2 % UINT32 == 0
  {
  }

  lemma PowerBelow(k: nat, limit: nat)
    requires k < limit
    ensures 2 * Pow2(k) <= Pow2(limit)
  {
    Pow2Grows(k + 1, limit);
  }

  lemma {:induction false} DoublingIs(k: nat)
    ensures Doubling(k) == if k <= 29 then Pow2(k + 2) else 0
  {
    ExponentOfLimit();
    if k > 0 {
      DoublingIs(k - 1);
      DoubledWord(Doubling(k - 1));
      if k <= 29 {
        PowerBelow(k + 1, 31);
      }
    }
  }

  /** The doubling loop ends exactly when there are at most 2^31 entries: beyond that the length wraps to zero and stays
      there. */
  lemma LoopEndsIff(elems: nat)
    ensures (exists k :: Doubling(k) >= elems) <==> elems <= 0x8000_0000
  {
    ExponentOfLimit();
    if elems <= 0x8000_0000 {
      DoublingIs(29);
      assert Doubling(29) >= elems;
    }
    forall k: nat | Doubling(k) >= elems
      ensures elems <= 0x8000_0000
    {
      DoublingIs(k);
      if k <= 29 {
        Pow2Grows(k + 2, 31);
      }
    }
  }

  /** The entries of the first i buckets. */
  ghost function Upto(entries: set<Handle>, length: nat, i: nat): (r: set<Handle>)
    requires length > 0
    ensures r <= entries
  {
    set h | h in entries && Index(h.hash, length) < i
  }

  lemma UptoStep(chains: seq<seq<Handle>>, entries: set<Handle>, i: nat)
    requires i < |chains| && Partition(chains, entries)
    ensures Upto(entries, |chains|, i + 1) == Upto(entries, |chains|, i) + MembersTo(chains[i], |chains[i]|)
    ensures NoDuplicates(chains[i]) && forall h :: h in chains[i] ==> h !in Upto(entries, |chains|, i) && h in entries
    ensures Upto(entries, |chains|, 0) == {} && Upto(entries, |chains|, |chains|) == entries
  {
  }

  /** A zeroed bucket array. */
  method NewBuckets(n: nat) returns (list: array<Handle?>, ghost chains: seq<seq<Handle>>)
    requires n > 0
    ensures fresh(list) && list.Length == n == |chains| && Threaded(list, chains, {})
  {
    list := new Handle?[n](_ => null);
    chains := seq(n, _ => []);
  }

  class HandleTable {
    var length: nat
    var elems: nat
    var list: array<Handle?>
    ghost var entries: set<Handle>
    ghost var chains: seq<seq<Handle>>

    ghost predicate Linked()
      reads this, list, entries`nextHash
    {
      length == |chains| && Threaded(list, chains, entries)
    }

    ghost predicate Valid()
      reads this, list, entries`nextHash
    {
      Linked() && PowerOfTwo(length) && length <= LIMIT && UniqueKeys(entries) && elems == |entries| <= length
    }

    /** The chain a hash belongs to. */
    ghost function ChainFor(hash: nat): seq<Handle>
      requires Linked()
      reads this, list, entries`nextHash
    {
      chains[Index(hash, length)]
    }

    method FindPointer(key: Key, hash: nat) returns (slot: Slot, cur: Handle?, ghost i: nat)
      requires Linked()
      ensures i <= |ChainFor(hash)| && slot == SlotAt(Index(hash, length), ChainFor(hash), i)
      ensures cur == if i < |ChainFor(hash)| then ChainFor(hash)[i] else null
      ensures cur != null ==> cur.key == key && cur.hash == hash
      ensures forall j :: 0 <= j < i ==> ChainFor(hash)[j].key != key || ChainFor(hash)[j].hash != hash
    {
      var b := Index(hash, length);
      slot, cur, i := Bucket(b), list[b], 0;
      ghost var chain := chains[b];
      assert ChainOk(list[b], chain);
      while cur != null && (cur.hash != hash || cur.key != key)
        invariant i <= |chain| && slot == SlotAt(b, chain, i)
        invariant cur == if i < |chain| then chain[i] else null
        invariant forall j :: 0 <= j < i ==> chain[j].key != key || chain[j].hash != hash
        decreases |chain| - i
      {
        assert chain[i].nextHash == if i + 1 < |chain| then chain[i + 1] else null;
        slot, cur, i := LinkOf(cur), cur.nextHash, i + 1;
      }
    }

    method Lookup(key: Key, hash: nat) returns (r: Handle?)
      requires Valid()
      ensures r != null ==> r in entries && r.key == key && r.hash == hash
      ensures r == null ==> forall h :: h in entries ==> h.key != key || h.hash != hash
    {
      ghost var i;
      var slot;
      slot, r, i := FindPointer(key, hash);
      FoundOrAbsent(key, hash, r, i);
    }

    /** `*ptr = h`. */
    method Store(slot: Slot, h: Handle?)
      requires slot.Bucket? ==> slot.b < list.Length
      modifies if slot.Bucket? then {list} else {}, (if slot.LinkOf? then {slot.h} else {})`nextHash
      ensures slot.LinkOf? ==> slot.h.nextHash == h
      ensures slot.Bucket? ==> list[..] == old(list[..])[slot.b := h]
    {
      match slot
      case Bucket(b) => list[b] := h;
      case LinkOf(g) => g.nextHash := h;
    }

    /** The stores of an insertion: h goes where the slot points, in place of the handle there, if any. */
    method SpliceLinks(slot: Slot, cur: Handle?, h: Handle, ghost b: nat, ghost i: nat)
      requires Linked() && b < length && h !in entries && i <= |chains[b]|
      requires slot == SlotAt(b, chains[b], i) && cur == if i < |chains[b]| then chains[b][i] else null
      modifies list, entries`nextHash, h`nextHash
      ensures ChainOk(list[b], Replaced(chains[b], i, h))
      ensures forall c :: 0 <= c < length && c != b ==> ChainOk(list[c], chains[c])
    {
      ChainsAreDisjoint(chains, entries, b);
      hide Partition;
      assert ChainOk(list[b], chains[b]);
      h.nextHash := if cur == null then null else cur.nextHash;
      Store(slot, h);
      ReplacedIsChain(list[b], chains[b], i, h);
    }

    /** Puts h where the slot points. */
    method Splice(slot: Slot, cur: Handle?, h: Handle, ghost i: nat)
      requires Linked() && h !in entries && i <= |ChainFor(h.hash)|
      requires slot == SlotAt(Index(h.hash, length), ChainFor(h.hash), i)
      requires cur == if i < |ChainFor(h.hash)| then ChainFor(h.hash)[i] else null
      modifies `entries, `chains, list, entries`nextHash, h`nextHash
      ensures Linked() && entries == old(entries) - (if cur == null then {} else {cur}) + {h}
    {
      hide ChainOk, Partition, Replaced;
      ghost var b := Index(h.hash, length);
      SplicedPartition(chains, entries, h, cur, i);
      SpliceLinks(slot, cur, h, b, i);
      entries := entries - (if cur == null then {} else {cur}) + {h};
      chains := chains[b := Replaced(chains[b], i, h)];
    }

    /** The store of a removal. */
    method UnspliceLinks(slot: Slot, cur: Handle, ghost b: nat, ghost i: nat)
      requires Linked() && b < length && i < |chains[b]| && cur == chains[b][i] && slot == SlotAt(b, chains[b], i)
      modifies list, entries`nextHash
      ensures ChainOk(list[b], RemoveAt(chains[b], i))
      ensures forall c :: 0 <= c < length && c != b ==> ChainOk(list[c], chains[c])
    {
      ChainsAreDisjoint(chains, entries, b);
      assert NoDuplicates(chains[b]);
      hide Partition;
      assert ChainOk(list[b], chains[b]);
      Store(slot, cur.nextHash);
      RemovedIsChain(list[b], chains[b], i);
    }

    /** Takes the handle the slot points at out of its chain. */
    method Unsplice(slot: Slot, cur: Handle, ghost i: nat)
      requires Linked() && i < |ChainFor(cur.hash)| && cur == ChainFor(cur.hash)[i]
      requires slot == SlotAt(Index(cur.hash, length), ChainFor(cur.hash), i)
      modifies `entries, `chains, list, entries`nextHash
      ensures Linked() && entries == old(entries) - {cur}
    {
      hide ChainOk, Partition, RemoveAt;
      ghost var b := Index(cur.hash, length);
      UnsplicedPartition(chains, entries, cur, i);
      UnspliceLinks(slot, cur, b, i);
      entries := entries - {cur};
      chains := chains[b := RemoveAt(chains[b], i)];
    }

    /** Part-way through rehashing: buckets below i have moved to the new array, the others are still whole. */
    ghost predicate Rehashing(i: nat, newList: array<Handle?>, newChains: seq<seq<Handle>>)
      reads this, list, entries`nextHash, newList
    {
      list.Length == length == |chains| && length > 0 && newList != list && Partition(chains, entries) &&
      Threaded(newList, newChains, Upto(entries, length, i)) &&
      forall b :: i <= b < length ==> ChainOk(list[b], chains[b])
    }

    /** One round of the outer rehashing loop. */
    method MoveBucket(i: nat, newList: array<Handle?>, ghost newChains: seq<seq<Handle>>, count: nat)
      returns (ghost newChains': seq<seq<Handle>>, count': nat)
      requires Rehashing(i, newList, newChains) && i < length && count == |Upto(entries, length, i)|
      modifies newList, entries`nextHash
      ensures Rehashing(i + 1, newList, newChains') && |newChains'| == |newChains|
      ensures count' == |Upto(entries, length, i + 1)|
    {
      UptoStep(chains, entries, i);
      ChainsAreDisjoint(chains, entries, i);
      hide Threaded, Partition, NoDuplicates, Upto, MembersTo;
      newChains', count' := MoveChain(list[i], chains[i], newList, newChains, Upto(entries, length, i), count);
    }

    /** Rehashes every entry into a fresh bucket array. */
    method Rehash(newLength: nat) returns (newList: array<Handle?>, ghost newChains: seq<seq<Handle>>, count: nat)
      requires Linked() && newLength > 0
      modifies entries`nextHash
      ensures fresh(newList) && newList.Length == newLength && Threaded(newList, newChains, entries) && count == |entries|
    {
      newList, newChains := NewBuckets(newLength);
      count := 0;
      UptoStep(chains, entries, 0);
      assert Rehashing(0, newList, newChains) && length == |chains| > 0;
      hide Rehashing, Upto, Linked;
      for i := 0 to length
        invariant Rehashing(i, newList, newChains) && |newChains| == newLength && count == |Upto(entries, length, i)|
      {
        newChains, count := MoveBucket(i, newList, newChains, count);
      }
      AllRehashed(newList, newChains);
    }

    lemma AllRehashed(newList: array<Handle?>, newChains: seq<seq<Handle>>)
      requires length > 0 && Rehashing(length, newList, newChains)
      ensures Threaded(newList, newChains, entries) && Upto(entries, length, length) == entries
    {
      UptoStep(chains, entries, 0);
    }

    method Resize()
      requires Linked() && elems == |entries| <= 0x8000_0000
      modifies `length, `list, `chains, entries`nextHash
      ensures Linked() && PowerOfTwo(length) && elems <= length <= LIMIT && fresh(list)
    {
      var newLength := LengthFor(elems);
      ghost var newChains;
      var newList, count;
      newList, newChains, count := Rehash(newLength);
      assert elems == count;
      list := newList;
      length := newLength;
      chains := newChains;
    }

    constructor ()
      ensures Valid() && entries == {} && fresh(list)
    {
      var l;
      ghost var c;
      l, c := NewBuckets(4);
      length, elems, list, entries, chains := 4, 0, l, {}, c;
      assert PowerOfTwo(4) by {
        assert PowerOfTwo(1) && PowerOfTwo(2);
      }
    }

    /** Adds h, and hands back the entry with the same key that it displaces, if any.  A full table takes only entries
        that displace one: for any other the rehashing it would need does not end (`LoopEndsIff`). */
    method Insert(h: Handle) returns (old_: Handle?)
      requires Valid() && h !in entries && (elems == LIMIT ==> exists g :: g in entries && SameKey(g, h))
      modifies this, list, entries`nextHash, h`nextHash
      ensures Valid() && (list == old(list) || fresh(list))
      ensures old_ != null ==> old_ in old(entries) && SameKey(old_, h) && entries == old(entries) - {old_} + {h}
      ensures old_ == null ==> entries == old(entries) + {h} && forall g :: g in old(entries) ==> !SameKey(g, h)
    {
      hide Threaded, UniqueKeys, PowerOfTwo;
      ghost var i;
      var slot;
      slot, old_, i := FindPointer(h.key, h.hash);
      FoundOrAbsent(h.key, h.hash, old_, i);
      UniqueAfterInsert(entries, h, old_);
      Splice(slot, old_, h, i);
      if old_ == null {
        elems := elems + 1;
        if elems > length {
          Resize();
        }
      }
    }

    /** Takes out the entry with the given key, if there is one. */
    method Remove(key: Key, hash: nat) returns (result: Handle?)
      requires Valid()
      modifies `elems, `entries, `chains, list, entries`nextHash
      ensures Valid()
      ensures result != null ==>
                result in old(entries) && result.key == key && result.hash == hash && entries == old(entries) - {result}
      ensures result == null ==> entries == old(entries) && forall g :: g in entries ==> g.key != key || g.hash != hash
    {
      hide Threaded;
      ghost var i;
      var slot;
      slot, result, i := FindPointer(key, hash);
      FoundOrAbsent(key, hash, result, i);
      if result != null {
        Unsplice(slot, result, i);
        elems := elems - 1;
      }
    }

    /** A search of the right chain decides membership in the table. */
    lemma FoundOrAbsent(key: Key, hash: nat, cur: Handle?, i: nat)
      requires Linked() && i <= |ChainFor(hash)| && cur == if i < |ChainFor(hash)| then ChainFor(hash)[i] else null
      requires forall j :: 0 <= j < i ==> ChainFor(hash)[j].key != key || ChainFor(hash)[j].hash != hash
      ensures cur != null ==> cur in entries
      ensures cur == null ==> forall g :: g in entries ==> g.key != key || g.hash != hash
    {
      if cur == null {
        forall h | h in entries
          ensures h.key != key || h.hash != hash
        {
          assert h in chains[Index(h.hash, length)];
        }
      } else {
        assert cur in ChainFor(hash);
      }
    }
  }

  lemma UniqueAfterInsert(entries: set<Handle>, h: Handle, old_: Handle?)
    requires UniqueKeys(entries) && h !in entries
    requires old_ != null ==> old_ in entries && SameKey(old_, h)
    requires old_ == null ==> forall g :: g in entries ==> !SameKey(g, h)
    ensures UniqueKeys(entries - (if old_ == null then {} else {old_}) + {h})
    ensures |entries - (if old_ == null then {} else {old_}) + {h}| == |entries| + (if old_ == null then 1 else 0)
  {
    if old_ == null {
      assert entries - {} == entries;
    } else {
      assert |entries - {old_}| == |entries| - 1;
    }
  }

  lemma Doubled(n: nat)
    requires PowerOfTwo(n) && n < 0x8000_0000
    ensures PowerOfTwo(2 * n) && 2 * n <= 0x8000_0000
  {
    LimitIsPower();
    PowersAreApart(n, 0x8000_0000);
    assert 2 * n / 2 == n;
  }

  lemma ExponentOfLimit()
    ensures Pow2(31) == 0x8000_0000
  {
    assert Pow2(8) == 0x100;
    assert Pow2(16) == 0x1_0000;
    assert Pow2(24) == 0x100_0000;
  }

  lemma LimitIsPower()
    ensures PowerOfTwo(0x8000_0000)
  {
    hide PowerOfTwo;
    ExponentOfLimit();
    PowerOfExponent(31);
  }

  lemma {:induction false} PowerOfExponent(k: nat)
    ensures PowerOfTwo(Pow2(k))
  {
    if k > 0 {
      PowerOfExponent(k - 1);
      assert 2 * Pow2(k - 1) / 2 == Pow2(k - 1);
    }
  }

  lemma {:induction false} PowersAreApart(n: nat, m: nat)
    requires PowerOfTwo(n) && PowerOfTwo(m) && n < m
    ensures 2 * n <= m
    decreases n
  {
    if n > 1 {
      PowersAreApart(n / 2, m / 2);
    }
  }

  /** One round of the rehashing loop: h goes to the front of its new bucket. */
  method PushFront(newList: array<Handle?>, ghost newChains: seq<seq<Handle>>, ghost moved: set<Handle>, h: Handle)
    returns (ghost chains: seq<seq<Handle>>)
    requires Threaded(newList, newChains, moved) && h !in moved
    modifies newList, h`nextHash
    ensures |chains| == |newChains| && Threaded(newList, chains, moved + {h})
  {
    var b := Index(h.hash, newList.Length);
    ChainsAreDisjoint(newChains, moved, b);
    assert ChainOk(newList[b], newChains[b]);
    h.nextHash := newList[b];
    newList[b] := h;
    chains := newChains[b := [h] + newChains[b]];
    assert ChainOk(newList[b], chains[b]);
    PartitionUpdate(newChains, moved, b, [h] + newChains[b], moved + {h});
  }

  /** Moves one old chain, link by link, into the new buckets. */
  method MoveChain(first: Handle?, ghost chain: seq<Handle>, newList: array<Handle?>,
                   ghost newChains: seq<seq<Handle>>, ghost moved: set<Handle>, count: nat)
    returns (ghost chains: seq<seq<Handle>>, count': nat)
    requires Threaded(newList, newChains, moved) && ChainOk(first, chain) && NoDuplicates(chain)
    requires forall h :: h in chain ==> h !in moved
    requires count == |moved|
    modifies newList, (set h | h in chain)`nextHash
    ensures |chains| == |newChains| && Threaded(newList, chains, moved + MembersTo(chain, |chain|))
    ensures count' == |moved + MembersTo(chain, |chain|)|
  {
    var h := first;
    ghost var k := 0;
    chains, count' := newChains, count;
    hide Threaded, MembersTo;
    ghost var done: set<Handle> := moved;
    assert moved + MembersTo(chain, 0) == moved by {
      NoMembers(chain);
    }
    while h != null
      invariant k <= |chain| && h == (if k < |chain| then chain[k] else null)
      invariant forall j {:trigger chain[j].nextHash} :: k <= j < |chain| ==>
        chain[j].nextHash == if j + 1 < |chain| then chain[j + 1] else null
      invariant |chains| == |newChains| && Threaded(newList, chains, done) && count' == |done|
      invariant done == moved + MembersTo(chain, k)
      decreases |chain| - k
    {
      var next := h.nextHash;
      MembersStep(chain, k);
      chains := PushFront(newList, chains, done, h);
      done := done + {h};
      h, k, count' := next, k + 1, count' + 1;
    }
  }

  /** The first k members of a chain. */
  ghost function MembersTo(chain: seq<Handle>, k: nat): set<Handle>
    requires k <= |chain|
  {
    set j | 0 <= j < k :: chain[j]
  }

  lemma NoMembers(chain: seq<Handle>)
    ensures MembersTo(chain, 0) == {}
  {
  }

  lemma MembersStep(chain: seq<Handle>, k: nat)
    requires k < |chain|
    ensures MembersTo(chain, k + 1) == MembersTo(chain, k) + {chain[k]}
    ensures NoDuplicates(chain) ==> chain[k] !in MembersTo(chain, k)
  {
  }

  ghost function Replaced(chain: seq<Handle>, i: nat, h: Handle): seq<Handle>
    requires i <= |chain|
  {
    chain[..i] + [h] + if i < |chain| then chain[i + 1..] else []
  }

  lemma ReplacedMembers(chain: seq<Handle>, i: nat, h: Handle)
    requires i <= |chain| && NoDuplicates(chain) && h !in chain
    ensures NoDuplicates(Replaced(chain, i, h))
    ensures forall g :: g in Replaced(chain, i, h) <==> g == h || (g in chain && !(i < |chain| && g == chain[i]))
  {
    var r := Replaced(chain, i, h);
    assert forall j :: 0 <= j < |r| ==> r[j] == if j == i then h else chain[j];
    forall g | g in chain && !(i < |chain| && g == chain[i])
      ensures g in r
    {
      var j :| 0 <= j < |chain| && chain[j] == g;
      assert r[j] == g;
    }
  }

  lemma ReplacedIsChain(first: Handle?, chain: seq<Handle>, i: nat, h: Handle)
    requires i <= |chain| && h !in chain
    requires first == (if i == 0 then h else chain[0])
    requires forall j {:trigger chain[j].nextHash} :: 0 <= j < |chain| && j != i && j + 1 != i ==>
      chain[j].nextHash == if j + 1 < |chain| then chain[j + 1] else null
    requires i > 0 ==> chain[i - 1].nextHash == h
    requires h.nextHash == if i + 1 < |chain| then chain[i + 1] else null
    ensures ChainOk(first, Replaced(chain, i, h))
  {
    var r := Replaced(chain, i, h);
    assert forall j :: 0 <= j < |r| ==> r[j] == if j == i then h else chain[j];
  }

  lemma RemovedIsChain(first: Handle?, chain: seq<Handle>, i: nat)
    requires i < |chain|
    requires first == (if i > 0 then chain[0] else if |chain| > 1 then chain[1] else null)
    requires forall j {:trigger chain[j].nextHash} :: 0 <= j < |chain| && j != i && j + 1 != i ==>
      chain[j].nextHash == if j + 1 < |chain| then chain[j + 1] else null
    requires i > 0 ==> chain[i - 1].nextHash == if i + 1 < |chain| then chain[i + 1] else null
    ensures ChainOk(first, RemoveAt(chain, i))
  {
    var r := RemoveAt(chain, i);
    assert forall j :: 0 <= j < |r| ==> r[j] == if j < i then chain[j] else chain[j + 1];
  }

  lemma ChainsAreDisjoint(chains: seq<seq<Handle>>, entries: set<Handle>, b: nat)
    requires |chains| > 0 && b < |chains| && Partition(chains, entries)
    ensures forall c, g :: 0 <= c < |chains| && c != b && g in chains[b] ==> g !in chains[c]
  {
  }

  ghost function SlotAt(b: nat, chain: seq<Handle>, i: nat): Slot
    requires i <= |chain|
  {
    if i == 0 then Bucket(b) else LinkOf(chain[i - 1])
  }

  /** Replacing one chain by one with different members. */
  lemma PartitionUpdate(chains: seq<seq<Handle>>, entries: set<Handle>, b: nat, chain: seq<Handle>, entries': set<Handle>)
    requires |chains| > 0 && b < |chains| && Partition(chains, entries) && NoDuplicates(chain)
    requires forall h :: h in chain ==> h in entries' && Index(h.hash, |chains|) == b
    requires forall h :: h in entries' && Index(h.hash, |chains|) == b ==> h in chain
    requires forall h :: h in entries && Index(h.hash, |chains|) != b ==> h in entries'
    requires forall h :: h in entries' && Index(h.hash, |chains|) != b ==> h in entries
    ensures Partition(chains[b := chain], entries')
  {
  }

  lemma SplicedPartition(chains: seq<seq<Handle>>, entries: set<Handle>, h: Handle, cur: Handle?, i: nat)
    requires |chains| > 0 && Partition(chains, entries) && h !in entries
    requires var chain := chains[Index(h.hash, |chains|)]; i <= |chain| && cur == if i < |chain| then chain[i] else null
    ensures var b := Index(h.hash, |chains|);
            Partition(chains[b := Replaced(chains[b], i, h)], entries - (if cur == null then {} else {cur}) + {h})
  {
    var b := Index(h.hash, |chains|);
    ReplacedMembers(chains[b], i, h);
    PartitionUpdate(chains, entries, b, Replaced(chains[b], i, h), entries - (if cur == null then {} else {cur}) + {h});
  }

  lemma UnsplicedPartition(chains: seq<seq<Handle>>, entries: set<Handle>, cur: Handle, i: nat)
    requires |chains| > 0 && Partition(chains, entries)
    requires var chain := chains[Index(cur.hash, |chains|)]; i < |chain| && cur == chain[i]
    ensures var b := Index(cur.hash, |chains|); Partition(chains[b := RemoveAt(chains[b], i)], entries - {cur})
  {
    var b := Index(cur.hash, |chains|);
    RemoveAtMembers(chains[b], i);
    PartitionUpdate(chains, entries, b, RemoveAt(chains[b], i), entries - {cur});
  }
}
