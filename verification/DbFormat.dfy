/** Internal keys: a user key with a sequence number and a type (db/dbformat.h, db/dbformat.cpp). */
module DbFormat {
  import opened Options
  import opened Bytes
  import opened Coding
  import Bytewise = BytewiseComparator

  const MAX_SEQUENCE: nat := 0xFF_FFFF_FFFF_FFFF
  const TYPE_VALUE: nat := 1
  const TYPE_FOR_SEEK: nat := TYPE_VALUE

  datatype ParsedInternalKey = ParsedInternalKey(userKey: Bytes, sequence: nat, valueType: nat)

  predicate Proper(p: ParsedInternalKey) {
    p.sequence <= MAX_SEQUENCE && p.valueType <= TYPE_VALUE
  }

  function PackSequenceAndType(sequence: nat, valueType: nat): nat {
    BitOr(sequence * 256 % UINT64, valueType)
  }

  lemma PackIs(sequence: nat, valueType: nat)
    requires sequence <= MAX_SEQUENCE && valueType <= TYPE_FOR_SEEK
    ensures PackSequenceAndType(sequence, valueType) == sequence * 256 + valueType < UINT64
  {
    var high := sequence * 256 % UINT64;
    SmallRemainder(sequence * 256, UINT64);
    OrTag(high, sequence, valueType);
  }

  lemma OrTag(high: nat, sequence: nat, valueType: nat)
    requires high == sequence * 256 && valueType < 256
    ensures BitOr(high, valueType) == high + valueType
  {
    assert Pow2(8) == 256;
    OrIsSum(valueType, sequence, 8);
    OrCommutes(valueType, high);
  }

  /** The bytes of an internal key. */
  function Encode(p: ParsedInternalKey): Bytes {
    p.userKey + LittleEndian(PackSequenceAndType(p.sequence, p.valueType), 8)
  }

  method AppendInternalKey(result: Bytes, key: ParsedInternalKey) returns (r: Bytes)
    requires Proper(key)
    ensures r == result + Encode(key)
  {
    PackIs(key.sequence, key.valueType);
    r := PutFixed64(result + key.userKey, PackSequenceAndType(key.sequence, key.valueType));
  }

  function ExtractUserKey(key: Bytes): Bytes
    requires |key| >= 8
  {
    key[..|key| - 8]
  }

  /** The packed sequence number and type. */
  function Tag(key: Bytes): nat
    requires |key| >= 8
  {
    DecodeFixed64(key[|key| - 8..])
  }

  function ParseInternalKey(key: Bytes): Option<ParsedInternalKey> {
    if |key| < 8 then None
    else
      var num := Tag(key);
      if num % 256 <= TYPE_VALUE then Some(ParsedInternalKey(ExtractUserKey(key), num / 256, num % 256)) else None
  }

  lemma Parts(p: ParsedInternalKey)
    requires Proper(p)
    ensures ExtractUserKey(Encode(p)) == p.userKey && Tag(Encode(p)) == p.sequence * 256 + p.valueType
  {
    var num := PackSequenceAndType(p.sequence, p.valueType);
    PackIs(p.sequence, p.valueType);
    Fixed64RoundTrip(num, []);
    assert LittleEndian(num, 8) + [] == LittleEndian(num, 8) == Encode(p)[|p.userKey|..];
  }

  lemma ParseUndoesEncode(p: ParsedInternalKey)
    requires Proper(p)
    ensures ParseInternalKey(Encode(p)) == Some(p)
  {
    Parts(p);
    hide Encode, Tag, ExtractUserKey;
    SplitByte(p.valueType, p.sequence);
  }

  lemma LowByteFirst(bs: Bytes)
    requires |bs| == 8
    ensures DecodeFixed64(bs) % 256 == bs[0]
  {
    Fixed64IsOnto(bs);
    assert LittleEndian(DecodeFixed64(bs), 8)[0] == DecodeFixed64(bs) % 256;
  }

  /** Parsing fails exactly on keys without room for a tag or with an unknown type byte, and what parses is the encoding
      of what was read. */
  lemma EncodeUndoesParse(key: Bytes)
    ensures ParseInternalKey(key).Some? <==> |key| >= 8 && key[|key| - 8] <= TYPE_VALUE
    ensures ParseInternalKey(key).Some? ==>
              Proper(ParseInternalKey(key).value) && Encode(ParseInternalKey(key).value) == key
  {
    if |key| >= 8 {
      var tail := key[|key| - 8..];
      LowByteFirst(tail);
      Fixed64IsOnto(tail);
      var num := Tag(key);
      if num % 256 <= TYPE_VALUE {
        PackIs(num / 256, num % 256);
        assert key == ExtractUserKey(key) + tail;
      }
    }
  }

  // ----- Order

  /** A user-supplied comparator, by the sign of its result. */
  type Comparator = (Bytes, Bytes) -> int

  ghost predicate TotalOrder(cmp: Comparator) {
    (forall a, b :: cmp(a, b) < 0 <==> cmp(b, a) > 0) &&
    (forall a, b, c :: cmp(a, b) <= 0 && cmp(b, c) <= 0 ==> cmp(a, c) <= 0)
  }

  /** `InternalKeyComparator::Compare`. */
  function Compare(cmp: Comparator, a: Bytes, b: Bytes): int
    requires |a| >= 8 && |b| >= 8
  {
    var r := cmp(ExtractUserKey(a), ExtractUserKey(b));
    if r == 0 then if Tag(a) > Tag(b) then -1 else if Tag(a) < Tag(b) then 1 else 0 else r
  }

  lemma BytewiseIsTotal()
    ensures TotalOrder(Bytewise.Compare)
  {
    forall a, b
      ensures Bytewise.Compare(a, b) < 0 <==> Bytewise.Compare(b, a) > 0
    {
      Bytewise.CompareIsLexicographic(a, b);
      Bytewise.CompareIsLexicographic(b, a);
    }
    forall a, b, c | Bytewise.Compare(a, b) <= 0 && Bytewise.Compare(b, c) <= 0
      ensures Bytewise.Compare(a, c) <= 0
    {
      Bytewise.CompareIsLexicographic(a, b);
      Bytewise.CompareIsLexicographic(b, c);
      Bytewise.CompareIsLexicographic(a, c);
      if Bytewise.Less(a, b) && Bytewise.Less(b, c) {
        Bytewise.LessIsTransitive(a, b, c);
      }
    }
  }

  /** The internal order is total whenever the user's is. */
  lemma InternalOrderIsTotal(cmp: Comparator, a: Bytes, b: Bytes, c: Bytes)
    requires TotalOrder(cmp) && |a| >= 8 && |b| >= 8 && |c| >= 8
    ensures Compare(cmp, a, b) < 0 <==> Compare(cmp, b, a) > 0
    ensures Compare(cmp, a, b) <= 0 && Compare(cmp, b, c) <= 0 ==> Compare(cmp, a, c) <= 0
    ensures Compare(cmp, a, b) < 0 && Compare(cmp, b, c) <= 0 ==> Compare(cmp, a, c) < 0
  {
    var ua, ub, uc := ExtractUserKey(a), ExtractUserKey(b), ExtractUserKey(c);
    hide Tag, ExtractUserKey;
    assert cmp(ua, ub) < 0 <==> cmp(ub, ua) > 0;
    assert cmp(ub, uc) < 0 <==> cmp(uc, ub) > 0;
    assert cmp(ua, uc) < 0 <==> cmp(uc, ua) > 0;
    assert cmp(ub, ua) < 0 <==> cmp(ua, ub) > 0;
  }

  /** Under the bytewise order only equal keys compare equal. */
  lemma BytewiseEqualityIsIdentity(a: Bytes, b: Bytes)
    requires |a| >= 8 && |b| >= 8
    ensures Compare(Bytewise.Compare, a, b) == 0 <==> a == b
  {
    hide Tag, ExtractUserKey, Bytewise.Compare;
    Bytewise.CompareIsLexicographic(ExtractUserKey(a), ExtractUserKey(b));
    PartsDecide(a, b);
  }

  /** A key is its user key and its tag. */
  lemma PartsDecide(a: Bytes, b: Bytes)
    requires |a| >= 8 && |b| >= 8
    ensures a == b <==> ExtractUserKey(a) == ExtractUserKey(b) && Tag(a) == Tag(b)
  {
    hide DecodeFixed64;
    var ta, tb := a[|a| - 8..], b[|b| - 8..];
    Fixed64IsOnto(ta);
    Fixed64IsOnto(tb);
    if ExtractUserKey(a) == ExtractUserKey(b) && Tag(a) == Tag(b) {
      assert a == ExtractUserKey(a) + ta && b == ExtractUserKey(b) + tb;
    }
  }

  // ----- Snapshots

  /** Internal keys in strictly increasing order, all of a known type. */
  ghost predicate Versions(cmp: Comparator, keys: seq<Bytes>) {
    (forall i :: 0 <= i < |keys| ==> |keys[i]| >= 8 && Tag(keys[i]) % 256 <= TYPE_VALUE) &&
    forall i, j :: 0 <= i < j < |keys| ==> Compare(cmp, keys[i], keys[j]) < 0
  }

  function Sequence(key: Bytes): nat
    requires |key| >= 8
  {
    Tag(key) / 256
  }

  /** A version of the user key that a snapshot sees. */
  predicate Visible(cmp: Comparator, key: Bytes, userKey: Bytes, snapshot: nat)
    requires |key| >= 8
  {
    cmp(ExtractUserKey(key), userKey) == 0 && Sequence(key) <= snapshot
  }

  /** The key a lookup searches for. */
  function SeekKey(userKey: Bytes, snapshot: nat): Bytes {
    Encode(ParsedInternalKey(userKey, snapshot, TYPE_FOR_SEEK))
  }

  /** The versions at or after the seek key are those the snapshot sees, as far as the user key goes. */
  lemma SeekSplitsVersions(cmp: Comparator, key: Bytes, userKey: Bytes, snapshot: nat)
    requires |key| >= 8 && Tag(key) % 256 <= TYPE_VALUE && snapshot <= MAX_SEQUENCE
    requires cmp(ExtractUserKey(key), userKey) == 0
    ensures Compare(cmp, key, SeekKey(userKey, snapshot)) >= 0 <==> Sequence(key) <= snapshot
  {
    Parts(ParsedInternalKey(userKey, snapshot, TYPE_FOR_SEEK));
    hide Encode, Tag, ExtractUserKey;
    var num := Tag(key);
    assert num == num / 256 * 256 + num % 256;
  }

  /** The first key at or after the seek key is the newest version the snapshot sees, if it sees any; if it sees none,
      that key belongs to another user key. */
  lemma SnapshotLookup(cmp: Comparator, keys: seq<Bytes>, userKey: Bytes, snapshot: nat, i: nat)
    requires TotalOrder(cmp) && Versions(cmp, keys) && snapshot <= MAX_SEQUENCE && i <= |keys|
    requires forall j :: 0 <= j < i ==> Compare(cmp, keys[j], SeekKey(userKey, snapshot)) < 0
    requires i < |keys| ==> Compare(cmp, keys[i], SeekKey(userKey, snapshot)) >= 0
    ensures (exists j :: 0 <= j < |keys| && Visible(cmp, keys[j], userKey, snapshot)) <==>
            i < |keys| && cmp(ExtractUserKey(keys[i]), userKey) == 0
    ensures i < |keys| && cmp(ExtractUserKey(keys[i]), userKey) == 0 ==>
              Visible(cmp, keys[i], userKey, snapshot) &&
              forall j :: 0 <= j < |keys| && Visible(cmp, keys[j], userKey, snapshot) ==> Tag(keys[j]) <= Tag(keys[i])
  {
    hide Tag, SeekKey;
    if i < |keys| && cmp(ExtractUserKey(keys[i]), userKey) == 0 {
      SeekSplitsVersions(cmp, keys[i], userKey, snapshot);
      assert Visible(cmp, keys[i], userKey, snapshot);
    }
    forall j | 0 <= j < |keys| && Visible(cmp, keys[j], userKey, snapshot)
      ensures i < |keys| && cmp(ExtractUserKey(keys[i]), userKey) == 0 && Tag(keys[j]) <= Tag(keys[i])
    {
      VisibleIsLater(cmp, keys, userKey, snapshot, i, j);
    }
  }

  lemma VisibleIsLater(cmp: Comparator, keys: seq<Bytes>, userKey: Bytes, snapshot: nat, i: nat, j: nat)
    requires TotalOrder(cmp) && Versions(cmp, keys) && snapshot <= MAX_SEQUENCE && i <= |keys| && j < |keys|
    requires forall j :: 0 <= j < i ==> Compare(cmp, keys[j], SeekKey(userKey, snapshot)) < 0
    requires i < |keys| ==> Compare(cmp, keys[i], SeekKey(userKey, snapshot)) >= 0
    requires Visible(cmp, keys[j], userKey, snapshot)
    ensures i <= j && cmp(ExtractUserKey(keys[i]), userKey) == 0 && Tag(keys[j]) <= Tag(keys[i])
  {
    SeekSplitsVersions(cmp, keys[j], userKey, snapshot);
    hide Tag, Encode, Sequence, SeekKey;
    assert i < j ==> Compare(cmp, keys[i], keys[j]) < 0;
    InternalOrderIsTotal(cmp, keys[j], keys[j], keys[j]);
    FirstIsNewest(cmp, keys[i], keys[j], userKey, snapshot);
  }

  /** A key at or after the seek key and at or before a version the snapshot sees is a version of that user key, and
      at least as new. */
  lemma FirstIsNewest(cmp: Comparator, first: Bytes, other: Bytes, userKey: Bytes, snapshot: nat)
    requires TotalOrder(cmp) && |first| >= 8 && |other| >= 8 && snapshot <= MAX_SEQUENCE
    requires Compare(cmp, first, SeekKey(userKey, snapshot)) >= 0 && Compare(cmp, first, other) <= 0
    requires cmp(ExtractUserKey(other), userKey) == 0
    ensures cmp(ExtractUserKey(first), userKey) == 0 && Tag(other) <= Tag(first)
  {
    Parts(ParsedInternalKey(userKey, snapshot, TYPE_FOR_SEEK));
    hide Tag, Encode;
    var a, b := ExtractUserKey(first), ExtractUserKey(other);
    assert cmp(a, userKey) >= 0 && cmp(a, b) <= 0 && cmp(a, userKey) <= 0;
    assert (cmp(userKey, a) < 0 <==> cmp(a, userKey) > 0) && (cmp(userKey, b) < 0 <==> cmp(b, userKey) > 0);
    assert (cmp(b, userKey) < 0 <==> cmp(userKey, b) > 0) && (cmp(b, a) < 0 <==> cmp(a, b) > 0);
    assert cmp(b, a) <= 0;
  }

  // ----- Shortening

  /** A user key with the tag that sorts before every other tag. */
  function Earliest(userKey: Bytes): Bytes {
    SeekKey(userKey, MAX_SEQUENCE)
  }

  lemma EarliestIsFirst(cmp: Comparator, userKey: Bytes, p: ParsedInternalKey)
    requires Proper(p) && cmp(userKey, p.userKey) == 0
    ensures |Earliest(userKey)| >= 8 && |Encode(p)| >= 8 && Compare(cmp, Earliest(userKey), Encode(p)) <= 0
  {
    Parts(ParsedInternalKey(userKey, MAX_SEQUENCE, TYPE_FOR_SEEK));
    Parts(p);
  }

  method PutEarliest(userKey: Bytes) returns (r: Bytes)
    ensures r == Earliest(userKey) && |r| == |userKey| + 8 && ExtractUserKey(r) == userKey
  {
    PackIs(MAX_SEQUENCE, TYPE_FOR_SEEK);
    Parts(ParsedInternalKey(userKey, MAX_SEQUENCE, TYPE_FOR_SEEK));
    r := PutFixed64(userKey, PackSequenceAndType(MAX_SEQUENCE, TYPE_FOR_SEEK));
  }

  /** The end of both shortening functions, for any user comparator: the key takes the shortened user key if that is
      shorter and comes after its own. */
  method AdoptShorter(cmp: Comparator, key: Bytes, tmp: Bytes) returns (r: Bytes)
    requires |key| >= 8
    ensures r != key <==> |tmp| < |ExtractUserKey(key)| && cmp(ExtractUserKey(key), tmp) < 0
    ensures r != key ==> |r| == |tmp| + 8 && r == Earliest(tmp) && ExtractUserKey(r) == tmp && Compare(cmp, key, r) < 0
  {
    var userKey := ExtractUserKey(key);
    r := key;
    if |tmp| < |userKey| && cmp(userKey, tmp) < 0 {
      r := PutEarliest(tmp);
    }
  }

  const EARLIEST_TAG: nat := MAX_SEQUENCE * 256 + TYPE_FOR_SEEK

  /** When a shortened key stays below the limit, for any user comparator and any shortening: its user key does, or is
      the limit's and the limit has not the earliest tag itself. */
  lemma StaysBelowIff(cmp: Comparator, tmp: Bytes, limit: Bytes)
    requires |limit| >= 8
    ensures |Earliest(tmp)| >= 8
    ensures Compare(cmp, Earliest(tmp), limit) < 0 <==>
            cmp(tmp, ExtractUserKey(limit)) < 0 || (cmp(tmp, ExtractUserKey(limit)) == 0 && Tag(limit) < EARLIEST_TAG)
  {
    Parts(ParsedInternalKey(tmp, MAX_SEQUENCE, TYPE_FOR_SEEK));
    hide Encode, Tag, ExtractUserKey;
  }

  /** What the `Comparator` interface asks of a shortening function. */
  ghost predicate Separates(cmp: Comparator, shorten: (Bytes, Bytes) -> Bytes) {
    forall s, l {:trigger shorten(s, l)} :: cmp(s, l) < 0 ==> cmp(s, shorten(s, l)) <= 0 && cmp(shorten(s, l), l) < 0
  }

  /** `InternalKeyComparator::FindShortestSeparator` for any user comparator that keeps the interface's promise. */
  method FindSeparatorWith(cmp: Comparator, shorten: (Bytes, Bytes) -> Bytes, start: Bytes, limit: Bytes) returns (r: Bytes)
    requires |start| >= 8 && |limit| >= 8 && Separates(cmp, shorten)
    requires cmp(ExtractUserKey(start), ExtractUserKey(limit)) < 0
    ensures |r| >= 8
    ensures r == start || (Compare(cmp, start, r) < 0 && Compare(cmp, r, limit) < 0 && |r| < |start|)
  {
    var tmp := shorten(ExtractUserKey(start), ExtractUserKey(limit));
    StaysBelowIff(cmp, tmp, limit);
    r := AdoptShorter(cmp, start, tmp);
  }

  /** `InternalKeyComparator::FindShortestSeparator` over the bytewise order: the key stays as it is, or a key strictly
      between takes its place, with a shorter user key. */
  method FindShortestSeparator(start: Bytes, limit: Bytes) returns (r: Bytes)
    requires |start| >= 8 && |limit| >= 8
    ensures |r| >= 8
    ensures r == start ||
            (Compare(Bytewise.Compare, start, r) < 0 && Compare(Bytewise.Compare, r, limit) < 0 && |r| < |start| &&
             r == Earliest(ExtractUserKey(r)))
    ensures var u := ExtractUserKey(start); var c := Bytewise.Common(u, ExtractUserKey(limit));
            r != start <==> Bytewise.Splits(u, ExtractUserKey(limit), c) && c + 1 < |u|
  {
    var userStart, userLimit := ExtractUserKey(start), ExtractUserKey(limit);
    var tmp := Bytewise.FindShortestSeparator(userStart, userLimit);
    Bytewise.CompareIsLexicographic(userStart, tmp);
    Bytewise.CompareIsLexicographic(tmp, userLimit);
    StaysBelowIff(Bytewise.Compare, tmp, limit);
    hide Earliest, Compare;
    r := AdoptShorter(Bytewise.Compare, start, tmp);
  }

  /** `InternalKeyComparator::FindShortSuccessor` over the bytewise order. */
  method FindShortSuccessor(key: Bytes) returns (r: Bytes)
    requires |key| >= 8
    ensures |r| >= 8
    ensures r == key ||
            (Compare(Bytewise.Compare, key, r) < 0 && |r| < |key| && r == Earliest(ExtractUserKey(r)))
    ensures r != key <==> Bytewise.LeadingMax(ExtractUserKey(key)) + 1 < |ExtractUserKey(key)|
    ensures r != key ==> forall s :: Bytewise.Less(ExtractUserKey(key), s) ==> |s| >= |ExtractUserKey(r)|
  {
    var userKey := ExtractUserKey(key);
    var tmp := Bytewise.FindShortSuccessor(userKey);
    Bytewise.CompareIsLexicographic(userKey, tmp);
    Bytewise.LeadingMaxIs(userKey, Bytewise.LeadingMax(userKey));
    hide Earliest, Compare;
    r := AdoptShorter(Bytewise.Compare, key, tmp);
  }

  // ----- Lookup keys

  /** The writes of the `LookupKey` constructor: it returns where the user key starts. */
  method FillLookupKey(dst: array<Byte>, userKey: Bytes, tag: nat) returns (k: nat)
    requires dst.Length >= |userKey| + 13 && tag < UINT64
    modifies dst
    ensures k + |userKey| + 8 <= dst.Length
    ensures dst[k..k + |userKey| + 8] == userKey + LittleEndian(tag, 8)
    ensures dst[..k + |userKey| + 8] == Prefixed(userKey + LittleEndian(tag, 8))
  {
    hide Overwritten;
    ghost var buffer, tail := dst[..], LittleEndian(tag, 8);
    var len := (|userKey| + 8) % UINT32;
    ghost var head := Varint(len);
    WordsFit(len);
    k := EncodeVarint32(dst, 0, len);
    OverwrittenTwice(buffer, 0, head, userKey);
    Memcpy(dst, k, userKey);
    OverwrittenTwice(buffer, 0, head + userKey, tail);
    EncodeFixed64(dst, k + |userKey|, tag);
    assert head + userKey + tail == head + (userKey + tail);
    Front(buffer, dst[..], head, userKey + tail);
  }

  class LookupKey {
    const start: array<Byte>
    const kstart: nat
    const end: nat

    ghost predicate Valid()
      reads start
    {
      kstart + 8 <= end <= start.Length
    }

    /** The buffer holds a length, the user key and the tag, and the estimate of its size was enough. */
    constructor (userKey: Bytes, sequence: nat)
      requires sequence <= MAX_SEQUENCE
      ensures Valid() && fresh(start) && start.Length >= |userKey| + 13
      ensures start[kstart..end] == SeekKey(userKey, sequence)
      ensures start[..end] == Prefixed(SeekKey(userKey, sequence))
    {
      var needed := |userKey| + 13;
      var dst := new Byte[if needed <= 200 then 200 else needed](_ => 0);
      PackIs(sequence, TYPE_FOR_SEEK);
      hide PackSequenceAndType;
      var k := FillLookupKey(dst, userKey, PackSequenceAndType(sequence, TYPE_FOR_SEEK));
      start, kstart, end := dst, k, k + |userKey| + 8;
    }

    method MemtableKey() returns (r: Bytes)
      requires Valid()
      ensures r == start[..end]
    {
      r := start[..end];
    }

    method InternalKey() returns (r: Bytes)
      requires Valid()
      ensures r == start[kstart..end]
    {
      r := start[kstart..end];
    }

    method UserKey() returns (r: Bytes)
      requires Valid()
      ensures r == ExtractUserKey(start[kstart..end])
    {
      r := start[kstart..end - 8];
    }
  }

  /** The three views of a lookup key agree, and a memtable reads the internal key back from its own view exactly when
      the length, user key and tag together, is a 32-bit number. */
  method LookupKeyViews(userKey: Bytes, sequence: nat) returns (memtableKey: Bytes, internalKey: Bytes, user: Bytes)
    requires sequence <= MAX_SEQUENCE
    ensures internalKey == SeekKey(userKey, sequence) && user == userKey
    ensures Unprefix(memtableKey) == Some((internalKey, [])) <==> |userKey| + 8 < UINT32
  {
    var k := new LookupKey(userKey, sequence);
    memtableKey := k.MemtableKey();
    internalKey := k.InternalKey();
    user := k.UserKey();
    Parts(ParsedInternalKey(userKey, sequence, TYPE_FOR_SEEK));
    hide Encode, Prefixed, Unprefix, ExtractUserKey;
    SliceRoundTripIff(internalKey, []);
    SeekKeyLength(userKey, sequence);
    assert memtableKey + [] == memtableKey;
  }

  lemma SeekKeyLength(userKey: Bytes, sequence: nat)
    ensures |SeekKey(userKey, sequence)| == |userKey| + 8
  {
  }
}
