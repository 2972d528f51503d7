/** The Bloom filter (util/bloom.cpp).  The hash of a key is any function to 32-bit numbers. */
module Bloom {
  import opened Bytes

  type Hash = Bytes -> nat

  /** The truncated product of bits per key and 0.69, between 1 and 30. */
  function Clamped(product: real): (k: nat)
    ensures 1 <= k <= 30
  {
    var k := product.Floor;
    if k < 1 then 1 else if k > 30 then 30 else k
  }

  /** `k_`: how often a key is probed. */
  function ProbeCount(bitsPerKey: nat): (k: nat)
    ensures 1 <= k <= 30
  {
    Clamped(bitsPerKey as real * 0.69)
  }

  /** Rounding does not matter: a product that is off by up to a hundredth of a percent of the factor, far more than
      double precision can be, gives the same count. */
  lemma RoundingDoesNotMatter(bitsPerKey: nat, product: real)
    requires -(bitsPerKey as real) / 10000.0 <= product - bitsPerKey as real * 0.69 <= bitsPerKey as real / 10000.0
    ensures Clamped(product) == ProbeCount(bitsPerKey)
  {
    var exact := bitsPerKey as real * 0.69;
    if bitsPerKey >= 44 {
      assert exact >= 30.36 && product >= 30.35;
      assert exact.Floor >= 30 && product.Floor >= 30;
    } else if bitsPerKey > 0 {
      var q, r := 69 * bitsPerKey / 100, 69 * bitsPerKey % 100;
      NoWholeProduct(bitsPerKey);
      assert exact == q as real + r as real / 100.0 && 1 <= r <= 99;
      assert q as real <= product < q as real + 1.0;
      assert exact.Floor == q && product.Floor == q;
    }
  }

  /** The count in whole numbers: 69 hundredths of the bits per key, rounded down, but at least 1 and at most 30. */
  lemma ProbeCountIs(bitsPerKey: nat)
    ensures bitsPerKey <= 1 ==> ProbeCount(bitsPerKey) == 1
    ensures 2 <= bitsPerKey <= 43 ==> 100 * ProbeCount(bitsPerKey) <= 69 * bitsPerKey < 100 * (ProbeCount(bitsPerKey) + 1)
    ensures bitsPerKey >= 44 ==> ProbeCount(bitsPerKey) == 30
  {
    var exact := bitsPerKey as real * 0.69;
    if bitsPerKey >= 44 {
      assert exact >= 30.36 && exact.Floor >= 30;
    } else {
      assert exact <= 29.67 && exact.Floor <= 29;
    }
  }

  lemma NoWholeProduct(n: nat)
    requires 0 < n < 44
    ensures 69 * n % 100 != 0
  {
  }

  /** The hash rotated right by 17 bits. */
  function Delta(h: nat): nat {
    BitOr(h / 0x2_0000, h * 0x8000 % UINT32)
  }

  lemma DeltaIs(h: nat)
    requires h < UINT32
    ensures Delta(h) == h / 0x2_0000 + h % 0x2_0000 * 0x8000
  {
    Powers();
    assert Pow2(15) == 2 * Pow2(14);
    HighPart(h, h % 0x2_0000);
    OrIsSum(h / 0x2_0000, h % 0x2_0000, 15);
  }

  /** What a left shift of a word by 15 leaves. */
  lemma HighPart(h: nat, low: nat)
    requires h < UINT32 && low == h % 0x2_0000
    ensures h * 0x8000 % UINT32 == low * 0x8000 && h / 0x2_0000 < 0x8000
  {
  }

  /** The value of `h` in round j of a probing loop. */
  function Probe(h: nat, j: nat): nat {
    if j == 0 then h else (Probe(h, j - 1) + Delta(h)) % UINT32
  }

  lemma WrapTwice(x: nat, y: nat)
    ensures (x % UINT32 + y) % UINT32 == (x + y) % UINT32
  {
  }

  /** One more step of the sum, whose product is given as p. */
  lemma OneMoreStep(h: nat, j: nat, delta: nat, p: nat)
    requires j > 0 && p == (j - 1) * delta
    ensures p + delta == j * delta
  {
  }

  lemma {:induction false} ProbeSums(h: nat, j: nat, delta: nat) returns (p: nat)
    requires delta == Delta(h) && h < UINT32
    ensures p == j * delta && Probe(h, j) == (h + p) % UINT32
    decreases j
  {
    hide Delta;
    if j == 0 {
      p := 0;
    } else {
      var q := ProbeSums(h, j - 1, delta);
      p := q + delta;
      OneMoreStep(h, j, delta, q);
      WrapTwice(h + q, delta);
    }
  }

  /** Probe j is j rotated hashes past the hash, modulo 2^32. */
  lemma ProbeIs(h: nat, j: nat)
    requires h < UINT32
    ensures Probe(h, j) == (h + j * (h / 0x2_0000 + h % 0x2_0000 * 0x8000)) % UINT32
  {
    hide Delta;
    DeltaIs(h);
    var p := ProbeSums(h, j, Delta(h));
  }

  /** `h % bits`. */
  function BitPos(h: nat, bits: nat): (pos: nat)
    requires bits > 0
    ensures pos < bits
  {
    h % bits
  }

  /** The bit that probe j falls on, in a filter of so many bits. */
  function Position(h: nat, j: nat, bits: nat): (pos: nat)
    requires bits > 0
    ensures pos < bits
  {
    BitPos(Probe(h, j), bits)
  }

  // ----- Bits in bytes

  /** Bit `pos` of the bytes from `base` on. */
  predicate Bit(s: Bytes, base: nat, pos: nat)
    requires base + pos / 8 < |s|
  {
    BitSet(s[base + pos / 8], pos % 8)
  }

  lemma OrLowBit(v: nat, one: nat)
    requires one == 1
    ensures BitOr(v, one) == 2 * (v / 2) + 1
  {
    OrZero(v / 2);
  }

  /** The bits of a number, the lowest and the others. */
  lemma BitsOfDoubled(w: nat, h: nat, b: nat, m: nat)
    requires w == 2 * h + b && b < 2
    ensures BitSet(w, m) <==> if m == 0 then b == 1 else BitSet(h, m - 1)
  {
    assert w / 2 == h && w % 2 == b;
  }

  /** Or-ing in one bit sets that bit and no other. */
  lemma {:induction false} OrSetsOne(v: nat, n: nat, m: nat)
    ensures BitSet(BitOr(v, Pow2(n)), m) <==> BitSet(v, m) || m == n
    decreases n
  {
    BitsOfDoubled(v, v / 2, v % 2, m);
    if n == 0 {
      OrLowBit(v, Pow2(n));
      BitsOfDoubled(BitOr(v, Pow2(n)), v / 2, 1, m);
    } else {
      OrHalf(v, n);
      BitsOfDoubled(BitOr(v, Pow2(n)), BitOr(v / 2, Pow2(n - 1)), v % 2, m);
      if m > 0 {
        OrSetsOne(v / 2, n - 1, m - 1);
      }
    }
  }

  lemma {:induction false} AndTestsOne(v: nat, n: nat)
    ensures BitAnd(v, Pow2(n)) == if BitSet(v, n) then Pow2(n) else 0
    decreases n
  {
    if n == 0 {
      assert BitAnd(v / 2, 0) == 0;
    } else {
      AndTestsOne(v / 2, n - 1);
      HalfOfScaled(1, n);
      if v == 0 {
        ZeroHasNoBits(n);
      }
    }
  }

  lemma {:induction false} ZeroHasNoBits(n: nat)
    ensures !BitSet(0, n)
  {
    if n > 0 {
      ZeroHasNoBits(n - 1);
    }
  }

  lemma OrHalf(v: nat, n: nat)
    requires n > 0
    ensures BitOr(v, Pow2(n)) == 2 * BitOr(v / 2, Pow2(n - 1)) + v % 2
  {
    HalfOfScaled(1, n);
  }

  lemma {:induction false} OrFits(v: nat, n: nat, k: nat)
    requires v < Pow2(k) && n < k
    ensures BitOr(v, Pow2(n)) < Pow2(k)
    decreases k
  {
    if n == 0 {
      OrZero(v / 2);
    } else {
      OrHalf(v, n);
      OrFits(v / 2, n - 1, k - 1);
    }
  }

  // ----- What a filter holds

  /** One of the first j probes of a hash falls on a bit. */
  predicate KeyHits(h: nat, j: nat, bits: nat, pos: nat)
    requires bits > 0
  {
    j > 0 && (KeyHits(h, j - 1, bits, pos) || Position(h, j - 1, bits) == pos)
  }

  /** A probe of one of the first n keys falls on a bit. */
  predicate Hits(hash: Hash, keys: seq<Bytes>, n: nat, k: nat, bits: nat, pos: nat)
    requires bits > 0 && n <= |keys|
  {
    n > 0 && (Hits(hash, keys, n - 1, k, bits, pos) || KeyHits(hash(keys[n - 1]), k, bits, pos))
  }

  lemma {:induction false} KeyHitsIff(h: nat, j: nat, bits: nat, pos: nat)
    requires bits > 0
    ensures KeyHits(h, j, bits, pos) <==> exists i :: 0 <= i < j && Position(h, i, bits) == pos
  {
    hide Position;
    if j > 0 {
      KeyHitsIff(h, j - 1, bits, pos);
    }
  }

  /** The bits of a filter, whose last byte is the number of probes. */
  function FilterBits(f: Bytes): (bits: nat)
    requires |f| >= 2
    ensures bits > 0 && forall pos :: 0 <= pos < bits ==> pos / 8 < |f| - 1
  {
    8 * (|f| - 1)
  }

  /** The filter for a list of keys: a bit for each probe of each key and no other, then the number of probes. */
  ghost predicate IsFilter(hash: Hash, k: nat, keys: seq<Bytes>, f: Bytes) {
    |f| >= 9 && f[|f| - 1] == k &&
    forall pos :: 0 <= pos < FilterBits(f) ==> (Bit(f, 0, pos) <==> Hits(hash, keys, |keys|, k, FilterBits(f), pos))
  }

  /** What `KeyMayMatch` answers. */
  ghost predicate MayMatch(hash: Hash, key: Bytes, f: Bytes) {
    |f| >= 2 &&
    (f[|f| - 1] > 30 || forall j :: 0 <= j < f[|f| - 1] ==> Bit(f, 0, Position(hash(key), j, FilterBits(f))))
  }

  lemma {:induction false} ListedKeyHits(hash: Hash, keys: seq<Bytes>, n: nat, k: nat, bits: nat, pos: nat, i: nat)
    requires bits > 0 && i < n <= |keys| && KeyHits(hash(keys[i]), k, bits, pos)
    ensures Hits(hash, keys, n, k, bits, pos)
  {
    if i < n - 1 {
      ListedKeyHits(hash, keys, n - 1, k, bits, pos, i);
    }
  }

  /** A listed key always matches. */
  lemma NoFalseNegatives(hash: Hash, k: nat, keys: seq<Bytes>, f: Bytes, i: nat)
    requires IsFilter(hash, k, keys, f) && i < |keys|
    ensures MayMatch(hash, keys[i], f)
  {
    hide Position, Bit;
    var bits, h := FilterBits(f), hash(keys[i]);
    forall j | 0 <= j < k
      ensures Bit(f, 0, Position(h, j, bits))
    {
      var pos := Position(h, j, bits);
      KeyHitsIff(h, k, bits, pos);
      ListedKeyHits(hash, keys, |keys|, k, bits, pos, i);
    }
  }

  /** Any key matches exactly when each of its probes falls on a bit that a listed key's probe set. */
  lemma MatchIff(hash: Hash, k: nat, keys: seq<Bytes>, f: Bytes, key: Bytes)
    requires IsFilter(hash, k, keys, f) && k <= 30
    ensures MayMatch(hash, key, f) <==>
            forall j :: 0 <= j < k ==> Hits(hash, keys, |keys|, k, FilterBits(f), Position(hash(key), j, FilterBits(f)))
  {
    hide Position, Bit;
    var bits := FilterBits(f);
    forall j | 0 <= j < k
      ensures Bit(f, 0, Position(hash(key), j, bits)) <==> Hits(hash, keys, |keys|, k, bits, Position(hash(key), j, bits))
    {
      var pos := Position(hash(key), j, bits);
      assert 0 <= pos < bits;
    }
  }

  // ----- The loops

  /** `array[bitpos / 8] |= (1 << (bitpos % 8))`. */
  method SetBit(a: array<Byte>, base: nat, pos: nat, ghost bits: nat)
    requires pos < bits && base + (bits + 7) / 8 <= a.Length
    modifies a
    ensures forall i :: 0 <= i < a.Length && i != base + pos / 8 ==> a[i] == old(a[i])
    ensures forall p :: 0 <= p < bits ==> (Bit(a[..], base, p) <==> Bit(old(a[..]), base, p) || p == pos)
  {
    var i, v := base + pos / 8, a[base + pos / 8];
    OrFits(v, pos % 8, 8);
    assert Pow2(8) == 256;
    ghost var before := a[..];
    a[i] := BitOr(v, Pow2(pos % 8));
    forall p | 0 <= p < bits
      ensures Bit(a[..], base, p) <==> Bit(before, base, p) || p == pos
    {
      if p / 8 == pos / 8 {
        OrSetsOne(v, pos % 8, p % 8);
      }
    }
  }

  /** The bits of the filter so far. */
  ghost predicate Marked(s: Bytes, base: nat, bits: nat, hash: Hash, keys: seq<Bytes>, n: nat, k: nat, h: nat, j: nat)
    requires bits > 0 && base + (bits + 7) / 8 <= |s| && n <= |keys|
  {
    forall p :: 0 <= p < bits ==> (Bit(s, base, p) <==> Hits(hash, keys, n, k, bits, p) || KeyHits(h, j, bits, p))
  }

  /** The inner loop of `CreateFilter`. */
  method AddKey(a: array<Byte>, base: nat, bits: nat, k: nat, hash: Hash, ghost keys: seq<Bytes>, ghost n: nat, key: Bytes)
    requires bits > 0 && base + (bits + 7) / 8 < a.Length && n < |keys| && key == keys[n]
    requires Marked(a[..], base, bits, hash, keys, n, k, 0, 0)
    modifies a
    ensures forall i :: 0 <= i < a.Length && !(base <= i < base + (bits + 7) / 8) ==> a[i] == old(a[i])
    ensures Marked(a[..], base, bits, hash, keys, n + 1, k, 0, 0)
  {
    var h := hash(key);
    ghost var h0 := h;
    var delta := Delta(h);
    var j := 0;
    while j < k
      invariant j <= k && h == Probe(h0, j) && delta == Delta(h0)
      invariant forall i :: 0 <= i < a.Length && !(base <= i < base + (bits + 7) / 8) ==> a[i] == old(a[i])
      invariant Marked(a[..], base, bits, hash, keys, n, k, h0, j)
    {
      SetBit(a, base, BitPos(h, bits), bits);
      h := (h + delta) % UINT32;
      j := j + 1;
    }
  }

  /** The outer loop of `CreateFilter`. */
  method AddKeys(a: array<Byte>, base: nat, bits: nat, k: nat, hash: Hash, keys: seq<Bytes>)
    requires bits > 0 && base + (bits + 7) / 8 < a.Length && Marked(a[..], base, bits, hash, keys, 0, k, 0, 0)
    modifies a
    ensures forall i :: 0 <= i < a.Length && !(base <= i < base + (bits + 7) / 8) ==> a[i] == old(a[i])
    ensures Marked(a[..], base, bits, hash, keys, |keys|, k, 0, 0)
  {
    hide Marked;
    var i := 0;
    while i < |keys|
      invariant i <= |keys| && Marked(a[..], base, bits, hash, keys, i, k, 0, 0)
      invariant forall i :: 0 <= i < a.Length && !(base <= i < base + (bits + 7) / 8) ==> a[i] == old(a[i])
    {
      AddKey(a, base, bits, k, hash, keys, i, keys[i]);
      i := i + 1;
    }
  }

  /** The bytes of a filter for n keys, without the one for the number of probes. */
  function FilterBytes(n: nat, bitsPerKey: nat): (bytes: nat)
    ensures bytes >= 8
  {
    if n * bitsPerKey < 64 then 8 else (n * bitsPerKey + 7) / 8
  }

  /** The fewest whole bytes that have room for the bits asked for, and for 64. */
  lemma FilterBytesIs(n: nat, bitsPerKey: nat, bits: nat)
    requires bits == n * bitsPerKey
    ensures bits <= 8 * FilterBytes(n, bitsPerKey) && 64 <= 8 * FilterBytes(n, bitsPerKey)
    ensures FilterBytes(n, bitsPerKey) == 8 || 8 * (FilterBytes(n, bitsPerKey) - 1) < bits
  {
  }

  method FilterSize(n: nat, bitsPerKey: nat) returns (bytes: nat)
    ensures bytes == FilterBytes(n, bitsPerKey)
  {
    var bits := n * bitsPerKey;
    if bits < 64 {
      bits := 64;
    }
    bytes := (bits + 7) / 8;
  }

  /** `CreateFilter`: the earlier contents of `dst` stay, and a filter for the keys follows them. */
  method CreateFilter(hash: Hash, bitsPerKey: nat, keys: seq<Bytes>, dst: Bytes) returns (r: Bytes)
    ensures |r| == |dst| + FilterBytes(|keys|, bitsPerKey) + 1 && r[..|dst|] == dst
    ensures IsFilter(hash, ProbeCount(bitsPerKey), keys, r[|dst|..])
  {
    hide Marked, IsFilter, FilterBytes, ProbeCount;
    var k := ProbeCount(bitsPerKey);
    var bytes := FilterSize(|keys|, bitsPerKey);
    var bits := bytes * 8;
    var a := Extended(dst, bytes, k);
    AllClear(a[..], |dst|, bits, hash, keys, k);
    AddKeys(a, |dst|, bits, k, hash, keys);
    r := a[..];
    Suffix(r, |dst|, bits, hash, keys, k);
  }

  /** `dst->resize(init_size + bytes, 0); dst->push_back(k)`. */
  method Extended(dst: Bytes, bytes: nat, k: nat) returns (a: array<Byte>)
    requires k <= 30
    ensures fresh(a) && a[..] == dst + seq(bytes, _ => 0) + [k]
  {
    var s := dst + seq(bytes, _ => 0) + [k];
    a := new Byte[|s|](i requires 0 <= i < |s| => s[i]);
  }

  lemma AllClear(s: Bytes, base: nat, bits: nat, hash: Hash, keys: seq<Bytes>, k: nat)
    requires bits > 0 && base + (bits + 7) / 8 <= |s| && forall i :: base <= i < base + (bits + 7) / 8 ==> s[i] == 0
    ensures Marked(s, base, bits, hash, keys, 0, k, 0, 0)
  {
    forall p | 0 <= p < bits
      ensures !Bit(s, base, p)
    {
      ZeroHasNoBits(p % 8);
    }
  }

  lemma Suffix(r: Bytes, base: nat, bits: nat, hash: Hash, keys: seq<Bytes>, k: nat)
    requires bits >= 64 && bits % 8 == 0 && |r| == base + bits / 8 + 1 && r[|r| - 1] == k
    requires Marked(r, base, bits, hash, keys, |keys|, k, 0, 0)
    ensures IsFilter(hash, k, keys, r[base..])
  {
    var f := r[base..];
    assert FilterBits(f) == bits;
    forall p | 0 <= p < bits
      ensures Bit(f, 0, p) <==> Bit(r, base, p)
    {
      assert f[p / 8] == r[base + p / 8];
    }
  }

  /** `KeyMayMatch`. */
  method KeyMayMatch(hash: Hash, key: Bytes, f: Bytes) returns (r: bool)
    ensures r <==> MayMatch(hash, key, f)
  {
    if |f| < 2 {
      return false;
    }
    var bits := FilterBits(f);
    var k := f[|f| - 1];
    if k > 30 {
      return true;
    }
    var h := hash(key);
    var delta := Delta(h);
    var j := 0;
    hide Bit, Delta, BitPos;
    while j < k
      invariant j <= k && h == Probe(hash(key), j)
      invariant forall i :: 0 <= i < j ==> Bit(f, 0, Position(hash(key), i, bits))
    {
      assert BitPos(h, bits) == Position(hash(key), j, bits);
      var set_ := TestBit(f, BitPos(h, bits));
      if !set_ {
        return false;
      }
      h := (h + delta) % UINT32;
      j := j + 1;
    }
    r := true;
  }

  /** `array[bitpos / 8] & (1 << (bitpos % 8))`. */
  method TestBit(f: Bytes, pos: nat) returns (r: bool)
    requires pos / 8 < |f|
    ensures r <==> Bit(f, 0, pos)
  {
    AndTestsOne(f[pos / 8], pos % 8);
    r := BitAnd(f[pos / 8], Pow2(pos % 8)) != 0;
  }
}

/** The filter policy over internal keys (db/dbformat.cpp). */
module InternalFilter {
  import opened Bytes
  import opened Bloom
  import DbFormat

  ghost predicate Internal(keys: seq<Bytes>) {
    forall i :: 0 <= i < |keys| ==> |keys[i]| >= 8
  }

  function UserKeys(keys: seq<Bytes>): (r: seq<Bytes>)
    requires Internal(keys)
    ensures |r| == |keys|
  {
    seq(|keys|, i requires 0 <= i < |keys| => DbFormat.ExtractUserKey(keys[i]))
  }

  /** `InternalFilterPolicy::CreateFilter` overwrites the caller's keys with their user keys. */
  method CreateFilter(hash: Hash, bitsPerKey: nat, keys: array<Bytes>, dst: Bytes) returns (r: Bytes)
    requires Internal(keys[..])
    modifies keys
    ensures keys[..] == UserKeys(old(keys[..]))
    ensures |r| > |dst| && r[..|dst|] == dst
    ensures IsFilter(hash, ProbeCount(bitsPerKey), UserKeys(old(keys[..])), r[|dst|..])
  {
    var i := 0;
    while i < keys.Length
      invariant i <= keys.Length
      invariant forall j :: 0 <= j < i ==> keys[j] == DbFormat.ExtractUserKey(old(keys[..])[j])
      invariant forall j :: i <= j < keys.Length ==> keys[j] == old(keys[..])[j]
    {
      keys[i] := DbFormat.ExtractUserKey(keys[i]);
      i := i + 1;
    }
    assert keys[..] == UserKeys(old(keys[..]));
    r := Bloom.CreateFilter(hash, bitsPerKey, keys[..], dst);
  }

  method KeyMayMatch(hash: Hash, key: Bytes, f: Bytes) returns (r: bool)
    requires |key| >= 8
    ensures r <==> MayMatch(hash, DbFormat.ExtractUserKey(key), f)
  {
    r := Bloom.KeyMayMatch(hash, DbFormat.ExtractUserKey(key), f);
  }

  /** Every version of a listed user key matches, whatever its sequence number and type. */
  lemma EveryVersionMatches(hash: Hash, k: nat, keys: seq<Bytes>, f: Bytes, i: nat, key: Bytes)
    requires Internal(keys) && IsFilter(hash, k, UserKeys(keys), f) && i < |keys| && |key| >= 8
    requires DbFormat.ExtractUserKey(key) == DbFormat.ExtractUserKey(keys[i])
    ensures MayMatch(hash, DbFormat.ExtractUserKey(key), f)
  {
    NoFalseNegatives(hash, k, UserKeys(keys), f, i);
  }
}
