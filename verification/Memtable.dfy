/** Snapshot lookup through the skip list: internal keys (db/dbformat.cpp) as the keys of memtable/skiplist.h, in the
    internal order over any user order. */
module Memtable {
  import opened Bytes
  import opened DbFormat
  import opened SkipList
  import S = SkipListSteps
  import Bytewise = BytewiseComparator

  // ----- Positions of internal keys

  /** Positions for internal keys. */
  type Ranking = Bytes -> real

  /** Positions of these keys are in the internal order; keys that compare equal share one. */
  ghost predicate Ranks(cmp: Comparator, rank: Ranking, keys: set<Bytes>) {
    TotalOrder(cmp) &&
    forall a, b :: a in keys && b in keys && |a| >= 8 && |b| >= 8 ==> (rank(a) < rank(b) <==> DbFormat.Compare(cmp, a, b) < 0)
  }

  /** Among these keys, how many come before one. */
  function Below(cmp: Comparator, universe: seq<Bytes>, key: Bytes): nat {
    if universe == [] then 0
    else
      Below(cmp, universe[1..], key) +
      if |universe[0]| >= 8 && |key| >= 8 && DbFormat.Compare(cmp, universe[0], key) < 0 then 1 else 0
  }

  lemma {:induction false} BelowGrows(cmp: Comparator, universe: seq<Bytes>, a: Bytes, b: Bytes)
    requires TotalOrder(cmp) && |a| >= 8 && |b| >= 8 && DbFormat.Compare(cmp, a, b) <= 0
    ensures Below(cmp, universe, a) <= Below(cmp, universe, b)
    ensures a in universe && DbFormat.Compare(cmp, a, b) < 0 ==> Below(cmp, universe, a) < Below(cmp, universe, b)
  {
    hide DbFormat.Compare, TotalOrder;
    if universe != [] {
      BelowGrows(cmp, universe[1..], a, b);
      InternalOrderIsTotal(cmp, a, a, a);
      if |universe[0]| >= 8 {
        InternalOrderIsTotal(cmp, universe[0], a, b);
      }
    }
  }

  /** Any finitely many keys have positions, for any user order: counting those before. */
  lemma CountingRanks(cmp: Comparator, universe: seq<Bytes>, rank: Ranking)
    requires TotalOrder(cmp) && forall k :: rank(k) == Below(cmp, universe, k) as real
    ensures Ranks(cmp, rank, set k | k in universe)
  {
    hide DbFormat.Compare;
    forall a, b | a in universe && b in universe && |a| >= 8 && |b| >= 8
      ensures rank(a) < rank(b) <==> DbFormat.Compare(cmp, a, b) < 0
    {
      InternalOrderIsTotal(cmp, a, b, b);
      InternalOrderIsTotal(cmp, b, a, a);
      if DbFormat.Compare(cmp, a, b) <= 0 {
        BelowGrows(cmp, universe, a, b);
      }
      if DbFormat.Compare(cmp, b, a) <= 0 {
        BelowGrows(cmp, universe, b, a);
      }
    }
    hide TotalOrder;
  }

  // ----- Positions of all internal keys at once, over the bytewise order

  /** A user key and a place in the unit interval as one place in the unit interval: the bytes are the digits. */
  function Place(u: Bytes, t: real): real {
    if u == [] then t / 257.0 else (u[0] as real + 1.0 + Place(u[1..], t)) / 257.0
  }

  lemma {:induction false} PlaceInUnit(u: Bytes, t: real)
    requires 0.0 <= t < 1.0
    ensures 0.0 <= Place(u, t) < 1.0
    ensures u == [] ==> Place(u, t) < 1.0 / 257.0
    ensures u != [] ==> Place(u, t) >= 1.0 / 257.0
  {
    if u != [] {
      PlaceInUnit(u[1..], t);
    }
  }

  lemma LessByFirst(u: Bytes, v: Bytes)
    requires u != [] && v != []
    ensures Bytewise.Less(u, v) <==> u[0] < v[0] || (u[0] == v[0] && Bytewise.Less(u[1..], v[1..]))
  {
    Bytewise.LessIs(u, v);
    Bytewise.LessIs(u[1..], v[1..]);
  }

  /** Places are ordered by user key, and within a user key by what follows it. */
  lemma {:induction false} PlaceOrder(u: Bytes, t: real, v: Bytes, w: real)
    requires 0.0 <= t < 1.0 && 0.0 <= w < 1.0
    ensures Place(u, t) < Place(v, w) <==> Bytewise.Less(u, v) || (u == v && t < w)
    decreases |u|
  {
    PlaceInUnit(u, t);
    PlaceInUnit(v, w);
    if u != [] && v != [] {
      PlaceInUnit(u[1..], t);
      PlaceInUnit(v[1..], w);
      PlaceOrder(u[1..], t, v[1..], w);
      LessByFirst(u, v);
      DigitsFirst(u[0], Place(u[1..], t), v[0], Place(v[1..], w));
      assert u == [u[0]] + u[1..] && v == [v[0]] + v[1..];
    } else {
      Bytewise.LessIs(u, v);
    }
  }

  lemma DigitsFirst(a: int, p: real, b: int, q: real)
    requires 0.0 <= p < 1.0 && 0.0 <= q < 1.0
    ensures (a as real + 1.0 + p) / 257.0 < (b as real + 1.0 + q) / 257.0 <==> a < b || (a == b && p < q)
  {
    if a < b {
      assert a as real + 1.0 <= b as real;
    } else if a > b {
      assert b as real + 1.0 <= a as real;
    }
  }

  /** Larger tags come first. */
  function TagPlace(tag: nat): real {
    1.0 / (tag as real + 2.0)
  }

  lemma TagPlaceOrder(a: nat, b: nat)
    ensures 0.0 < TagPlace(a) < 1.0 && (TagPlace(a) < TagPlace(b) <==> a > b)
  {
    var x, y := a as real + 2.0, b as real + 2.0;
    Reciprocal(x, y);
    Reciprocal(y, x);
    Reciprocal(1.0, x);
  }

  lemma Reciprocal(x: real, y: real)
    requires x > 0.0 && y > 0.0
    ensures 1.0 / x > 0.0 && 1.0 / 1.0 == 1.0 && (x < y ==> 1.0 / y < 1.0 / x)
  {
    var p, q := 1.0 / x, 1.0 / y;
    assert p * x == 1.0 && q * y == 1.0;
  }

  /** The position of an internal key over the bytewise order. */
  function Rank(key: Bytes): real {
    if |key| >= 8 then Place(ExtractUserKey(key), TagPlace(Tag(key))) else 0.0
  }

  /** Positions are in the internal order, and no two keys share one. */
  lemma RankOrder(a: Bytes, b: Bytes)
    requires |a| >= 8 && |b| >= 8
    ensures Rank(a) < Rank(b) <==> DbFormat.Compare(Bytewise.Compare, a, b) < 0
    ensures Rank(a) == Rank(b) <==> a == b
  {
    TagPlaceOrder(Tag(a), Tag(b));
    TagPlaceOrder(Tag(b), Tag(a));
    PlaceOrder(ExtractUserKey(a), TagPlace(Tag(a)), ExtractUserKey(b), TagPlace(Tag(b)));
    PlaceOrder(ExtractUserKey(b), TagPlace(Tag(b)), ExtractUserKey(a), TagPlace(Tag(a)));
    Bytewise.CompareIsLexicographic(ExtractUserKey(a), ExtractUserKey(b));
    BytewiseEqualityIsIdentity(a, b);
    hide Tag, ExtractUserKey, TagPlace;
  }

  lemma BytewiseRanks(keys: set<Bytes>)
    ensures Ranks(Bytewise.Compare, Rank, keys)
  {
    hide DbFormat.Compare, Rank;
    BytewiseIsTotal();
    forall a, b | a in keys && b in keys && |a| >= 8 && |b| >= 8
      ensures Rank(a) < Rank(b) <==> DbFormat.Compare(Bytewise.Compare, a, b) < 0
    {
      RankOrder(a, b);
    }
  }

  // ----- The memtable

  /** Internal keys of a known type. */
  predicate Known(key: Bytes) {
    |key| >= 8 && Tag(key) % 256 <= TYPE_VALUE
  }

  /** The list holds exactly these internal keys. */
  ghost predicate Holds(list: SkipListImpl, rank: Ranking, keys: set<Bytes>)
    reads list, list.all
  {
    list.Valid() && (forall k :: k in keys ==> Known(k) && rank(k) in list.Keys()) &&
    forall x :: x in list.Keys() ==> exists k :: k in keys && rank(k) == x
  }

  /** No version compares equal to this one. */
  ghost predicate Absent(cmp: Comparator, keys: set<Bytes>, key: Bytes)
    requires |key| >= 8
  {
    forall k :: k in keys && |k| >= 8 ==> DbFormat.Compare(cmp, k, key) != 0
  }

  /** No two versions compare equal. */
  ghost predicate Distinct(cmp: Comparator, keys: seq<Bytes>) {
    forall i, j :: 0 <= i < j < |keys| && |keys[i]| >= 8 && |keys[j]| >= 8 ==> DbFormat.Compare(cmp, keys[i], keys[j]) != 0
  }

  lemma AbsentPosition(cmp: Comparator, rank: Ranking, keys: set<Bytes>, key: Bytes, k: Bytes)
    requires Ranks(cmp, rank, keys + {key}) && |key| >= 8 && |k| >= 8 && k in keys && Absent(cmp, keys, key)
    ensures rank(k) != rank(key)
  {
    InternalOrderIsTotal(cmp, k, key, key);
    InternalOrderIsTotal(cmp, key, k, k);
    hide DbFormat.Compare, TotalOrder;
    assert key in keys + {key} && k in keys + {key};
  }

  /** Adding a version that is not there yet, at the height the random source picked. */
  method Add(list: SkipListImpl, ghost cmp: Comparator, rank: Ranking, key: Bytes, height: nat, ghost keys: set<Bytes>)
    requires Holds(list, rank, keys) && Known(key) && 1 <= height <= S.MAX_HEIGHT
    requires Ranks(cmp, rank, keys + {key}) && Absent(cmp, keys, key)
    modifies list, list.all
    ensures Holds(list, rank, keys + {key})
    ensures |list.all| == old(|list.all|) + 1 && old(list.all) <= list.all && fresh(list.all[|list.all| - 1])
  {
    hide SkipListImpl.Valid, SkipListImpl.Keys, Ranks, Absent;
    assert rank(key) !in list.Keys() by {
      if rank(key) in list.Keys() {
        var k :| k in keys && rank(k) == rank(key);
        AbsentPosition(cmp, rank, keys, key, k);
      }
    }
    list.Insert(rank(key), height);
  }

  /** A version of the user key that a snapshot sees. */
  ghost predicate Sees(cmp: Comparator, keys: set<Bytes>, k: Bytes, userKey: Bytes, snapshot: nat) {
    k in keys && |k| >= 8 && Visible(cmp, k, userKey, snapshot)
  }

  /** The newest version the snapshot sees. */
  ghost predicate Newest(cmp: Comparator, keys: set<Bytes>, f: Bytes, userKey: Bytes, snapshot: nat) {
    Sees(cmp, keys, f, userKey, snapshot) && forall k :: Sees(cmp, keys, k, userKey, snapshot) ==> Tag(k) <= Tag(f)
  }

  /** The node a lookup ends at: that of the newest version the snapshot sees, if it sees any; otherwise the node of
      another user key, or none. */
  ghost predicate Finds(cmp: Comparator, rank: Ranking, keys: set<Bytes>, userKey: Bytes, snapshot: nat, r: SkipNode?) {
    if exists k :: Sees(cmp, keys, k, userKey, snapshot) then
      r != null && exists f :: Newest(cmp, keys, f, userKey, snapshot) && rank(f) == r.key
    else
      r == null || exists f :: f in keys && |f| >= 8 && rank(f) == r.key && cmp(ExtractUserKey(f), userKey) != 0
  }

  /** The first node at or after the seek key is the one. */
  lemma FirstAnswers(
      list: SkipListImpl, cmp: Comparator, rank: Ranking, keys: set<Bytes>, userKey: Bytes, snapshot: nat, r: SkipNode?)
    requires Holds(list, rank, keys) && snapshot <= MAX_SEQUENCE && Ranks(cmp, rank, keys + {SeekKey(userKey, snapshot)})
    requires |SeekKey(userKey, snapshot)| >= 8 && list.FirstAtOrAfter(r, rank(SeekKey(userKey, snapshot)))
    ensures Finds(cmp, rank, keys, userKey, snapshot, r)
  {
    hide SkipListImpl.Valid, SkipListImpl.Keys, Ranks, Tag, SeekKey, Sequence;
    forall k | Sees(cmp, keys, k, userKey, snapshot)
      ensures r != null && r.key <= rank(k)
    {
      SeenIsAfter(cmp, rank, keys, k, userKey, snapshot);
      assert rank(k) in list.Keys();
    }
    if r != null {
      assert r.key in list.Keys();
      var f :| f in keys && rank(f) == r.key;
      FirstIsSeen(cmp, rank, keys, f, userKey, snapshot);
      assert cmp(ExtractUserKey(f), userKey) == 0 ==> Newest(cmp, keys, f, userKey, snapshot);
    }
  }

  lemma SeenIsAfter(cmp: Comparator, rank: Ranking, keys: set<Bytes>, k: Bytes, userKey: Bytes, snapshot: nat)
    requires Sees(cmp, keys, k, userKey, snapshot) && Known(k) && snapshot <= MAX_SEQUENCE && |SeekKey(userKey, snapshot)| >= 8
    requires Ranks(cmp, rank, keys + {SeekKey(userKey, snapshot)})
    ensures rank(SeekKey(userKey, snapshot)) <= rank(k)
  {
    SeekSplitsVersions(cmp, k, userKey, snapshot);
    hide Tag, SeekKey, DbFormat.Compare, TotalOrder;
    assert k in keys + {SeekKey(userKey, snapshot)} && SeekKey(userKey, snapshot) in keys + {SeekKey(userKey, snapshot)};
  }

  /** If f is at or after the seek key and no version the snapshot sees comes before it, it is the newest of them. */
  lemma FirstIsSeen(cmp: Comparator, rank: Ranking, keys: set<Bytes>, f: Bytes, userKey: Bytes, snapshot: nat)
    requires f in keys && Known(f) && snapshot <= MAX_SEQUENCE && |SeekKey(userKey, snapshot)| >= 8
    requires Ranks(cmp, rank, keys + {SeekKey(userKey, snapshot)}) && rank(SeekKey(userKey, snapshot)) <= rank(f)
    requires forall k :: Sees(cmp, keys, k, userKey, snapshot) ==> rank(f) <= rank(k)
    ensures cmp(ExtractUserKey(f), userKey) == 0 ==> Sees(cmp, keys, f, userKey, snapshot)
    ensures forall k :: Sees(cmp, keys, k, userKey, snapshot) ==> cmp(ExtractUserKey(f), userKey) == 0 && Tag(k) <= Tag(f)
  {
    hide Tag, SeekKey, DbFormat.Compare, ExtractUserKey, TotalOrder;
    var seek := SeekKey(userKey, snapshot);
    var all := keys + {seek};
    assert f in all && seek in all;
    if cmp(ExtractUserKey(f), userKey) == 0 {
      SeekSplitsVersions(cmp, f, userKey, snapshot);
    }
    forall k | Sees(cmp, keys, k, userKey, snapshot)
      ensures cmp(ExtractUserKey(f), userKey) == 0 && Tag(k) <= Tag(f)
    {
      assert k in all;
      InternalOrderIsTotal(cmp, k, f, f);
      InternalOrderIsTotal(cmp, f, k, k);
      FirstIsNewest(cmp, f, k, userKey, snapshot);
    }
  }

  /** A lookup through the skip list at a snapshot. */
  method Get(list: SkipListImpl, ghost cmp: Comparator, rank: Ranking, userKey: Bytes, snapshot: nat, ghost keys: set<Bytes>)
    returns (r: SkipNode?)
    requires Holds(list, rank, keys) && snapshot <= MAX_SEQUENCE && Ranks(cmp, rank, keys + {SeekKey(userKey, snapshot)})
    ensures Finds(cmp, rank, keys, userKey, snapshot, r)
  {
    hide SkipListImpl.Valid, SkipListImpl.Keys, Ranks, Holds, Finds;
    var _, internalKey, _ := LookupKeyViews(userKey, snapshot);
    SeekKeyLength(userKey, snapshot);
    HeldIsValid(list, rank, keys);
    var prev;
    r, prev := list.FindGreaterOrEqual(rank(internalKey), []);
    FirstAnswers(list, cmp, rank, keys, userKey, snapshot, r);
  }

  lemma HeldIsValid(list: SkipListImpl, rank: Ranking, keys: set<Bytes>)
    requires Holds(list, rank, keys)
    ensures list.Valid()
  {
  }

  lemma FewerRanked(cmp: Comparator, rank: Ranking, keys: set<Bytes>, fewer: set<Bytes>)
    requires Ranks(cmp, rank, keys) && fewer <= keys
    ensures Ranks(cmp, rank, fewer)
  {
    hide TotalOrder;
  }

  /** Any versions of which no two compare equal, added in any order at any heights, and then a lookup at any snapshot:
      for any user order. */
  method AddAllAndGet(cmp: Comparator, keys: seq<Bytes>, heights: seq<nat>, userKey: Bytes, snapshot: nat)
    returns (rank: Ranking, r: SkipNode?)
    requires TotalOrder(cmp) && snapshot <= MAX_SEQUENCE && forall i :: 0 <= i < |keys| ==> Known(keys[i])
    requires |heights| == |keys| && forall i :: 0 <= i < |heights| ==> 1 <= heights[i] <= S.MAX_HEIGHT
    requires Distinct(cmp, keys)
    ensures Ranks(cmp, rank, (set k | k in keys) + {SeekKey(userKey, snapshot)})
    ensures Finds(cmp, rank, (set k | k in keys), userKey, snapshot, r)
  {
    hide Holds, Finds, Ranks, Absent, TotalOrder, SeekKey, SkipListImpl.Valid, SkipListImpl.Keys, Known, Distinct;
    var universe := keys + [SeekKey(userKey, snapshot)];
    rank := k => Below(cmp, universe, k) as real;
    CountingRanks(cmp, universe, rank);
    ghost var all := (set k | k in keys) + {SeekKey(userKey, snapshot)};
    assert all == set k | k in universe;
    var list := AddAll(cmp, rank, keys, heights, all);
    r := Get(list, cmp, rank, userKey, snapshot, set k | k in keys);
  }

  method AddAll(ghost cmp: Comparator, rank: Ranking, keys: seq<Bytes>, heights: seq<nat>, ghost all: set<Bytes>)
    returns (list: SkipListImpl)
    requires Ranks(cmp, rank, all) && forall i :: 0 <= i < |keys| ==> Known(keys[i]) && keys[i] in all
    requires |heights| == |keys| && forall i :: 0 <= i < |heights| ==> 1 <= heights[i] <= S.MAX_HEIGHT
    requires Distinct(cmp, keys)
    ensures Holds(list, rank, set k | k in keys)
  {
    hide Holds, Ranks, DbFormat.Compare, SkipListImpl.Valid, SkipListImpl.Keys;
    list := new SkipListImpl();
    ghost var added: set<Bytes> := {};
    EmptyHolds(list, rank);
    var n := 0;
    while n < |keys|
      invariant n <= |keys| && Holds(list, rank, added) && added == (set k | k in keys[..n])
      invariant fresh(list) && fresh(list.all)
    {
      assert keys[..n + 1] == keys[..n] + [keys[n]];
      FewerRanked(cmp, rank, all, added + {keys[n]});
      Add(list, cmp, rank, keys[n], heights[n], added);
      added := added + {keys[n]};
      n := n + 1;
    }
    assert keys[..n] == keys;
  }

  lemma EmptyHolds(list: SkipListImpl, rank: Ranking)
    requires list.Valid() && list.Keys() == {}
    ensures Holds(list, rank, {})
  {
  }
}
