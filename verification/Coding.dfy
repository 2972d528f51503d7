/** Varints, fixed-width integers and length-prefixed slices (util/coding.h, util/coding.cpp). */
module Coding {
  import opened Options
  import opened Bytes

  // ----- The format: unsigned LEB128

  /** Seven bits a byte, least significant first, the top bit of a byte saying that more follow. */
  function Varint(v: nat): (r: Bytes)
    ensures |r| > 0
  {
    if v < 128 then [v] else [128 + v % 128] + Varint(v / 128)
  }

  /** The number that groups of seven bits spell. */
  function Groups(bs: Bytes): nat {
    if bs == [] then 0 else bs[0] % 128 + 128 * Groups(bs[1..])
  }

  /** The first n bytes are one complete varint. */
  ghost predicate Token(bs: Bytes, n: nat) {
    0 < n <= |bs| && bs[n - 1] < 128 && forall i :: 0 <= i < n - 1 ==> bs[i] >= 128
  }

  /** The length of the varint at the front, or 0 if there is none. */
  function TokenLength(bs: Bytes): (n: nat)
    ensures n <= |bs|
  {
    if bs == [] then 0
    else if bs[0] < 128 then 1
    else
      var n := TokenLength(bs[1..]);
      if n == 0 then 0 else n + 1
  }

  /** Reading a varint of at most `max` bytes into a machine word: the value and the bytes after it. */
  function Decode(bs: Bytes, max: nat, modulus: nat): Option<(nat, Bytes)>
    requires modulus > 0
  {
    var n := TokenLength(bs);
    if n == 0 || n > max then None else Some((Groups(bs[..n]) % modulus, bs[n..]))
  }

  lemma {:induction false} TokenLengthIs(bs: Bytes, n: nat)
    ensures TokenLength(bs) == n && n > 0 <==> Token(bs, n)
  {
    if bs != [] && n > 1 {
      var t := bs[1..];
      TokenLengthIs(t, n - 1);
      if Token(bs, n) {
        assert bs[0] >= 128;
        assert forall i :: 0 <= i < n - 2 ==> t[i] == bs[i + 1];
      }
      if bs[0] >= 128 && Token(t, n - 1) {
        assert forall i :: 0 < i < n - 1 ==> bs[i] == t[i - 1];
      }
    }
  }

  lemma {:induction false} VarintIsToken(v: nat)
    ensures Token(Varint(v), |Varint(v)|) && Groups(Varint(v)) == v
  {
    if v >= 128 {
      VarintIsToken(v / 128);
      assert Varint(v)[1..] == Varint(v / 128);
    }
  }

  /** Byte i of a varint has the seven bits of the value from bit 7i on. */
  lemma {:induction false} VarintByte(v: nat, i: nat)
    requires i < |Varint(v)|
    ensures Varint(v)[i] % 128 == v / Pow2(7 * i) % 128 && (Varint(v)[i] >= 128 <==> i < |Varint(v)| - 1)
    decreases i
  {
    if v >= 128 && i > 0 {
      VarintByte(v / 128, i - 1);
      Powers();
      Pow2Sum(7, 7 * (i - 1));
      NestedQuotient(v, 128, Pow2(7 * (i - 1)));
    }
  }

  lemma {:induction false} NoNeedlessZero(v: nat)
    ensures |Varint(v)| == 1 || Varint(v)[|Varint(v)| - 1] != 0
  {
    if v >= 128 {
      NoNeedlessZero(v / 128);
    }
  }

  lemma TokenTail(bs: Bytes)
    requires Token(bs, |bs|) && |bs| > 1
    ensures Token(bs[1..], |bs[1..]|) && bs[0] >= 128 && bs == [bs[0]] + bs[1..] && bs[|bs| - 1] == bs[1..][|bs| - 2]
  {
    assert forall i :: 0 <= i < |bs| - 1 ==> bs[1..][i] == bs[i + 1];
  }

  lemma {:induction false} ShortestToken(bs: Bytes)
    requires Token(bs, |bs|) && (|bs| == 1 || bs[|bs| - 1] != 0)
    ensures Varint(Groups(bs)) == bs
  {
    if |bs| > 1 {
      hide Token;
      TokenTail(bs);
      var t := bs[1..];
      ShortestToken(t);
      SpellsPositive(t);
      Prepended(bs[0], Groups(t));
    }
  }

  lemma Prepended(b: Byte, g: nat)
    requires b >= 128 && g > 0
    ensures Varint(b % 128 + 128 * g) == [b] + Varint(g)
  {
    var v := b % 128 + 128 * g;
    assert v / 128 == g && 128 + v % 128 == b;
  }

  /** A token is the varint of what it spells exactly when its last byte is not a needless zero. */
  lemma ShortestIff(bs: Bytes)
    requires Token(bs, |bs|)
    ensures Varint(Groups(bs)) == bs <==> |bs| == 1 || bs[|bs| - 1] != 0
  {
    assert |bs| > 0;
    hide Token;
    var v := Groups(bs);
    NoNeedlessZero(v);
    if |bs| == 1 || bs[|bs| - 1] != 0 {
      ShortestToken(bs);
    }
  }

  lemma {:induction false} SpellsPositive(bs: Bytes)
    requires Token(bs, |bs|) && bs[|bs| - 1] != 0
    ensures Groups(bs) > 0
  {
    if |bs| > 1 {
      hide Token;
      TokenTail(bs);
      SpellsPositive(bs[1..]);
    }
  }

  lemma {:induction false} VarintFits(v: nat, k: nat)
    requires 0 < k && v < Pow2(7 * k)
    ensures |Varint(v)| <= k
  {
    if v >= 128 {
      assert Pow2(7) == 128;
      if k > 1 {
        Pow2Sum(7, 7 * (k - 1));
        VarintFits(v / 128, k - 1);
      }
    }
  }

  lemma {:induction false} GroupsAppend(bs: Bytes, b: Byte, group: nat)
    requires group == b % 128
    ensures Groups(bs + [b]) == Groups(bs) + group * Pow2(7 * |bs|)
  {
    if bs == [] {
      assert (bs + [b])[1..] == [];
    } else {
      assert (bs + [b])[1..] == bs[1..] + [b];
      GroupsAppend(bs[1..], b, group);
      assert Pow2(7) == 128;
      Pow2Sum(7, 7 * (|bs| - 1));
      Shifted(group, Pow2(7 * (|bs| - 1)));
    }
  }

  lemma Shifted(group: nat, p: nat)
    ensures 128 * (group * p) == group * (128 * p)
  {
  }

  lemma {:induction false} GroupsBound(bs: Bytes)
    ensures Groups(bs) < Pow2(7 * |bs|)
  {
    if bs != [] {
      GroupsBound(bs[1..]);
      assert Pow2(7) == 128;
      Pow2Sum(7, 7 * (|bs| - 1));
    }
  }

  // ----- Encoders

  /** `*(ptr++) = b`, after the bytes `written` from `at` on. */
  method Put(dst: array<Byte>, end: nat, b: Byte, ghost buffer: Bytes, ghost at: nat, ghost written: Bytes)
    returns (end': nat, ghost written': Bytes)
    requires |buffer| == dst.Length && end == at + |written| < dst.Length && dst[..] == Overwritten(buffer, at, written)
    modifies dst
    ensures end' == end + 1 && written' == written + [b] && dst[..] == Overwritten(buffer, at, written')
  {
    dst[end] := b;
    end', written' := end + 1, written + [b];
  }

  /** Peeling off the low group. */
  lemma Peel(v: nat)
    requires v >= 128
    ensures Varint(v) == [TaggedByte(v)] + Varint(v / 128)
  {
    TaggedByteIs(v);
  }

  // The unrolled form, for each length.

  lemma Two(v: nat)
    requires 0x80 <= v < 0x4000
    ensures Varint(v) == [TaggedByte(v), v / 0x80]
  {
    Peel(v);
  }

  lemma Three(v: nat)
    requires 0x4000 <= v < 0x20_0000
    ensures Varint(v) == [TaggedByte(v), TaggedByte(v / 0x80), v / 0x4000]
  {
    hide TaggedByte;
    Peel(v);
    NestedQuotient(v, 128, 0x80);
    Two(v / 128);
  }

  lemma Four(v: nat)
    requires 0x20_0000 <= v < 0x1000_0000
    ensures Varint(v) == [TaggedByte(v), TaggedByte(v / 0x80), TaggedByte(v / 0x4000), v / 0x20_0000]
  {
    hide TaggedByte;
    Peel(v);
    NestedQuotient(v, 128, 0x80);
    NestedQuotient(v, 128, 0x4000);
    Three(v / 128);
  }

  lemma Five(v: nat)
    requires 0x1000_0000 <= v < UINT32
    ensures Varint(v) == [TaggedByte(v), TaggedByte(v / 0x80), TaggedByte(v / 0x4000), TaggedByte(v / 0x20_0000),
                          v / 0x1000_0000]
  {
    hide TaggedByte;
    Peel(v);
    NestedQuotient(v, 128, 0x80);
    NestedQuotient(v, 128, 0x4000);
    NestedQuotient(v, 128, 0x20_0000);
    Four(v / 128);
  }

  /** `EncodeVarint32`, one branch for each length. */
  method EncodeVarint32(dst: array<Byte>, at: nat, v: nat) returns (end: nat)
    requires v < UINT32 && at + |Varint(v)| <= dst.Length
    modifies dst
    ensures end == at + |Varint(v)| && dst[..] == Overwritten(old(dst[..]), at, Varint(v))
  {
    hide TaggedByte, Overwritten;
    ghost var buffer, written := dst[..], [];
    Untouched(buffer, at);
    end := at;
    if v < 0x80 {
      end, written := Put(dst, end, v, buffer, at, written);
    } else if v < 0x4000 {
      Two(v);
      end, written := Put(dst, end, TaggedByte(v), buffer, at, written);
      end, written := Put(dst, end, v / 0x80, buffer, at, written);
    } else if v < 0x20_0000 {
      Three(v);
      end, written := Put(dst, end, TaggedByte(v), buffer, at, written);
      end, written := Put(dst, end, TaggedByte(v / 0x80), buffer, at, written);
      end, written := Put(dst, end, v / 0x4000, buffer, at, written);
    } else if v < 0x1000_0000 {
      Four(v);
      end, written := Put(dst, end, TaggedByte(v), buffer, at, written);
      end, written := Put(dst, end, TaggedByte(v / 0x80), buffer, at, written);
      end, written := Put(dst, end, TaggedByte(v / 0x4000), buffer, at, written);
      end, written := Put(dst, end, v / 0x20_0000, buffer, at, written);
    } else {
      Five(v);
      end, written := Put(dst, end, TaggedByte(v), buffer, at, written);
      end, written := Put(dst, end, TaggedByte(v / 0x80), buffer, at, written);
      end, written := Put(dst, end, TaggedByte(v / 0x4000), buffer, at, written);
      end, written := Put(dst, end, TaggedByte(v / 0x20_0000), buffer, at, written);
      end, written := Put(dst, end, v / 0x1000_0000, buffer, at, written);
    }
    assert written == Varint(v);
  }

  method EncodeVarint64(dst: array<Byte>, at: nat, v: nat) returns (end: nat)
    requires v < UINT64 && at + |Varint(v)| <= dst.Length
    modifies dst
    ensures end == at + |Varint(v)| && dst[..] == Overwritten(old(dst[..]), at, Varint(v))
  {
    hide TaggedByte, Overwritten;
    ghost var buffer, written := dst[..], [];
    Untouched(buffer, at);
    end := at;
    var rest := v;
    while rest >= 128
      invariant end == at + |written| && written + Varint(rest) == Varint(v) && |buffer| == dst.Length
      invariant end < dst.Length && dst[..] == Overwritten(buffer, at, written)
    {
      Peel(rest);
      end, written := Put(dst, end, TaggedByte(rest), buffer, at, written);
      rest := rest / 128;
      assert |Varint(v)| == |written| + |Varint(rest)|;
    }
    end, written := Put(dst, end, rest, buffer, at, written);
    assert written == Varint(v);
  }

  method VarintLength(v: nat) returns (len: nat)
    ensures len == |Varint(v)|
  {
    len := 1;
    var rest := v;
    while rest >= 128
      invariant len + |Varint(rest)| == |Varint(v)| + 1
    {
      rest := rest / 128;
      len := len + 1;
    }
  }

  /** Through a buffer of the largest size a varint can take. */
  method PutVarint32(dst: Bytes, v: nat) returns (r: Bytes)
    requires v < UINT32
    ensures r == dst + Varint(v)
  {
    WordsFit(v);
    var buf := new Byte[5](_ => 0);
    var end := EncodeVarint32(buf, 0, v);
    assert buf[..end] == Varint(v);
    r := dst + buf[..end];
  }

  method PutVarint64(dst: Bytes, v: nat) returns (r: Bytes)
    requires v < UINT64
    ensures r == dst + Varint(v)
  {
    WordsFit(v);
    var buf := new Byte[10](_ => 0);
    var end := EncodeVarint64(buf, 0, v);
    assert buf[..end] == Varint(v);
    r := dst + buf[..end];
  }

  /** The buffers of `PutVarint32` and `PutVarint64` are large enough. */
  lemma WordsFit(v: nat)
    ensures v < UINT32 ==> |Varint(v)| <= 5
    ensures v < UINT64 ==> |Varint(v)| <= 10
  {
    Powers();
    Pow2Sum(32, 3);
    Pow2Sum(32, 32);
    Pow2Sum(64, 6);
    if v < UINT32 {
      VarintFits(v, 5);
    }
    if v < UINT64 {
      VarintFits(v, 10);
    }
  }

  // ----- Decoders

  /** Or-ing in shifted bits, truncated to the machine word. */
  lemma OrTruncated(low: nat, x: nat, s: nat, width: nat)
    requires low < Pow2(s) && s <= width
    ensures BitOr(low, x * Pow2(s) % Pow2(width)) == (low + x * Pow2(s)) % Pow2(width)
  {
    var hi := Pow2(width - s);
    Pow2Sum(s, width - s);
    var q, r := Divide(x, hi);
    OrTruncatedAt(low, x, s, width, hi, q, r);
  }

  lemma Divide(x: nat, d: nat) returns (q: nat, r: nat)
    requires d > 0
    ensures x == d * q + r && r < d
  {
    q, r := x / d, x % d;
  }

  lemma OrTruncatedAt(low: nat, x: nat, s: nat, width: nat, hi: nat, q: nat, r: nat)
    requires low < Pow2(s) && Pow2(width) == Pow2(s) * hi && x == hi * q + r && r < hi
    ensures BitOr(low, x * Pow2(s) % Pow2(width)) == (low + x * Pow2(s)) % Pow2(width)
  {
    var d := Pow2(s);
    QuotientOfProduct(d * x, d, hi, x, 0, q, r);
    QuotientOfProduct(d * x + low, d, hi, x, low, q, r);
    OrIsSum(low, r, s);
  }

  /** One step of a decoding loop. */
  lemma Accumulates(bs: Bytes, b: Byte, width: nat)
    requires 7 * |bs| <= width
    ensures BitOr(Groups(bs), b % 128 * Pow2(7 * |bs|) % Pow2(width)) == Groups(bs + [b]) % Pow2(width)
  {
    var group := b % 128;
    GroupsAppend(bs, b, group);
    GroupsBound(bs);
    OrTruncated(Groups(bs), group, 7 * |bs|, width);
  }

  lemma NotTruncated(bs: Bytes, width: nat)
    requires 7 * |bs| <= width
    ensures Groups(bs) % Pow2(width) == Groups(bs)
  {
    GroupsBound(bs);
    Pow2Sum(7 * |bs|, width - 7 * |bs|);
    Multiple(Pow2(7 * |bs|), Pow2(width - 7 * |bs|));
    QuotientIs(Groups(bs), Pow2(width), 0, Groups(bs));
  }

  /** `result |= (byte & 127) << shift`, in words below the modulus. */
  function OrShifted(result: nat, byte: Byte, shift: nat, modulus: nat): nat
    requires modulus > 0
  {
    BitOr(result, byte % 128 * Pow2(shift) % modulus)
  }

  lemma Accumulates32(bs: Bytes, b: Byte)
    requires |bs| <= 4
    ensures OrShifted(Groups(bs), b, 7 * |bs|, UINT32) == Groups(bs + [b]) % UINT32
    ensures |bs| < 4 ==> Groups(bs + [b]) % UINT32 == Groups(bs + [b])
  {
    Powers();
    Accumulates(bs, b, 32);
    if |bs| < 4 {
      NotTruncated(bs + [b], 32);
    }
  }

  lemma Accumulates64(bs: Bytes, b: Byte)
    requires |bs| <= 9
    ensures OrShifted(Groups(bs), b, 7 * |bs|, UINT64) == Groups(bs + [b]) % UINT64
    ensures |bs| < 9 ==> Groups(bs + [b]) % UINT64 == Groups(bs + [b])
  {
    Powers();
    Pow2Sum(32, 32);
    Accumulates(bs, b, 64);
    if |bs| < 9 {
      NotTruncated(bs + [b], 64);
    }
  }

  lemma DecodeToken(bs: Bytes, n: nat, max: nat, modulus: nat)
    requires Token(bs, n) && n <= max && modulus > 0
    ensures Decode(bs, max, modulus) == Some((Groups(bs[..n]) % modulus, bs[n..]))
  {
    TokenLengthIs(bs, n);
  }

  lemma DecodeNothing(bs: Bytes, max: nat, modulus: nat)
    requires modulus > 0 && forall i :: 0 <= i < max && i < |bs| ==> bs[i] >= 128
    ensures Decode(bs, max, modulus) == None
  {
    var n := TokenLength(bs);
    TokenLengthIs(bs, n);
  }

  /** Part-way through a decoding loop: so far every byte asks for more. */
  ghost predicate Reading(data: Bytes, start: nat, p: nat, shift: nat) {
    start <= p <= |data| && shift == 7 * (p - start) && forall i :: start <= i < p ==> data[i] >= 128
  }

  lemma ReadsToken(data: Bytes, start: nat, p: nat, limit: nat, max: nat, modulus: nat)
    requires start <= p < limit <= |data| && p - start < max && modulus > 0 && data[p] < 128
    requires forall i :: start <= i < p ==> data[i] >= 128
    ensures Decode(data[start..limit], max, modulus) == Some((Groups(data[start..p] + [data[p]]) % modulus, data[p + 1..limit]))
  {
    var bs, n := data[start..limit], p + 1 - start;
    assert bs[..n] == data[start..p] + [data[p]] && bs[n..] == data[p + 1..limit];
    DecodeToken(bs, n, max, modulus);
  }

  /** `GetVarint32PtrFallback`: the value and where the next byte is, or nothing for a null pointer. */
  method GetVarint32PtrFallback(data: Bytes, start: nat, limit: nat) returns (r: Option<(nat, nat)>)
    requires start <= limit <= |data|
    ensures r.None? <==> Decode(data[start..limit], 5, UINT32).None?
    ensures r.Some? ==> start < r.value.1 <= limit &&
                        Decode(data[start..limit], 5, UINT32) == Some((r.value.0, data[r.value.1..limit]))
  {
    hide Decode, OrShifted;
    var p: nat, result: nat, shift: nat := start, 0, 0;
    while shift <= 28 && p < limit
      invariant Reading(data, start, p, shift) && p <= limit && shift <= 35
      invariant shift <= 28 ==> result == Groups(data[start..p])
    {
      var byte := data[p];
      ghost var before := data[start..p];
      Accumulates32(before, byte);
      result := OrShifted(result, byte, shift, UINT32);
      assert data[start..p + 1] == before + [byte];
      if byte < 128 {
        ReadsToken(data, start, p, limit, 5, UINT32);
        return Some((result, p + 1));
      }
      p, shift := p + 1, shift + 7;
    }
    DecodeNothing(data[start..limit], 5, UINT32);
    r := None;
  }

  /** `GetVarint32Ptr`, with its one-byte fast path. */
  method GetVarint32Ptr(data: Bytes, start: nat, limit: nat) returns (r: Option<(nat, nat)>)
    requires start <= limit <= |data|
    ensures r.None? <==> Decode(data[start..limit], 5, UINT32).None?
    ensures r.Some? ==> start < r.value.1 <= limit &&
                        Decode(data[start..limit], 5, UINT32) == Some((r.value.0, data[r.value.1..limit]))
  {
    if start < limit && data[start] < 128 {
      ReadsToken(data, start, start, limit, 5, UINT32);
      assert data[start..start] + [data[start]] == [data[start]] && Groups([data[start]]) == data[start];
      return Some((data[start], start + 1));
    }
    r := GetVarint32PtrFallback(data, start, limit);
  }

  method GetVarint64Ptr(data: Bytes, start: nat, limit: nat) returns (r: Option<(nat, nat)>)
    requires start <= limit <= |data|
    ensures r.None? <==> Decode(data[start..limit], 10, UINT64).None?
    ensures r.Some? ==> start < r.value.1 <= limit &&
                        Decode(data[start..limit], 10, UINT64) == Some((r.value.0, data[r.value.1..limit]))
  {
    hide Decode, OrShifted;
    var p: nat, result: nat, shift: nat := start, 0, 0;
    while shift <= 63 && p < limit
      invariant Reading(data, start, p, shift) && p <= limit && shift <= 70
      invariant shift <= 63 ==> result == Groups(data[start..p])
    {
      var byte := data[p];
      ghost var before := data[start..p];
      Accumulates64(before, byte);
      result := OrShifted(result, byte, shift, UINT64);
      assert data[start..p + 1] == before + [byte];
      if byte < 128 {
        ReadsToken(data, start, p, limit, 10, UINT64);
        return Some((result, p + 1));
      }
      p, shift := p + 1, shift + 7;
    }
    DecodeNothing(data[start..limit], 10, UINT64);
    r := None;
  }

  /** The slice after the varint, or the slice as it was. */
  method GetVarint32(input: Bytes) returns (ok: bool, value: nat, input': Bytes)
    ensures ok <==> Decode(input, 5, UINT32).Some?
    ensures ok ==> Decode(input, 5, UINT32) == Some((value, input'))
    ensures !ok ==> input' == input
  {
    assert input[0..|input|] == input;
    var r := GetVarint32Ptr(input, 0, |input|);
    match r {
      case None => ok, value, input' := false, 0, input;
      case Some((v, q)) =>
        assert input[q..|input|] == input[q..];
        ok, value, input' := true, v, input[q..];
    }
  }

  method GetVarint64(input: Bytes) returns (ok: bool, value: nat, input': Bytes)
    ensures ok <==> Decode(input, 10, UINT64).Some?
    ensures ok ==> Decode(input, 10, UINT64) == Some((value, input'))
    ensures !ok ==> input' == input
  {
    assert input[0..|input|] == input;
    var r := GetVarint64Ptr(input, 0, |input|);
    match r {
      case None => ok, value, input' := false, 0, input;
      case Some((v, q)) =>
        assert input[q..|input|] == input[q..];
        ok, value, input' := true, v, input[q..];
    }
  }

  // ----- Encoding and decoding undo each other

  lemma TokenDecodes(token: Bytes, rest: Bytes, max: nat, modulus: nat)
    requires Token(token, |token|) && |token| <= max && modulus > 0
    ensures Decode(token + rest, max, modulus) == Some((Groups(token) % modulus, rest))
  {
    var bs, n := token + rest, |token|;
    assert bs[..n] == token && bs[n..] == rest;
    DecodeToken(bs, n, max, modulus);
  }

  lemma SmallRemainder(x: nat, m: nat)
    requires x < m
    ensures x % m == x
  {
  }

  /** A decoded varint is recovered whatever follows it. */
  lemma RoundTrip(v: nat, rest: Bytes, max: nat, modulus: nat)
    requires |Varint(v)| <= max && v < modulus
    ensures Decode(Varint(v) + rest, max, modulus) == Some((v, rest))
  {
    hide Decode, Token;
    VarintIsToken(v);
    SmallRemainder(v, modulus);
    TokenDecodes(Varint(v), rest, max, modulus);
  }

  /** No strict prefix of an encoding decodes. */
  lemma PrefixIsRejected(v: nat, n: nat, max: nat, modulus: nat)
    requires n < |Varint(v)| && modulus > 0
    ensures Decode(Varint(v)[..n], max, modulus) == None
  {
    VarintIsToken(v);
    DecodeNothing(Varint(v)[..n], max, modulus);
  }

  /** Re-encoding what the 32-bit decoder read gives back the bytes read exactly when they had no needless last zero
      and no bits beyond the thirty-second. */
  lemma Reencodes32(bs: Bytes, v: nat, rest: Bytes)
    requires Decode(bs, 5, UINT32) == Some((v, rest))
    ensures var n := TokenLength(bs);
            Varint(v) == bs[..n] <==> (n == 1 || bs[n - 1] != 0) && (n < 5 || bs[4] < 16)
  {
    Powers();
    var n := TokenLength(bs);
    TokenLengthIs(bs, n);
    Reencodes(bs[..n], 32, 4, 16);
  }

  lemma Reencodes64(bs: Bytes, v: nat, rest: Bytes)
    requires Decode(bs, 10, UINT64) == Some((v, rest))
    ensures var n := TokenLength(bs);
            Varint(v) == bs[..n] <==> (n == 1 || bs[n - 1] != 0) && (n < 10 || bs[9] < 2)
  {
    Powers();
    Pow2Sum(32, 32);
    var n := TokenLength(bs);
    TokenLengthIs(bs, n);
    Reencodes(bs[..n], 64, 9, 2);
  }

  /** `full` bytes fit the word whole; of the byte after them only values below `top` do. */
  lemma Reencodes(token: Bytes, width: nat, full: nat, top: nat)
    requires Token(token, |token|) && |token| <= full + 1 && Pow2(width) == top * Pow2(7 * full) && 0 < top <= 128
    ensures Varint(Groups(token) % Pow2(width)) == token <==>
            (|token| == 1 || token[|token| - 1] != 0) && (|token| <= full || token[full] < top)
  {
    hide Token;
    var g, m := Groups(token), Pow2(width);
    FitsWord(token, width, full, top);
    if g < m {
      SmallRemainder(g, m);
      ShortestIff(token);
    } else {
      VarintIsToken(g % m);
    }
  }

  lemma FitsWord(token: Bytes, width: nat, full: nat, top: nat)
    requires Token(token, |token|) && |token| <= full + 1 && Pow2(width) == top * Pow2(7 * full) && 0 < top <= 128
    ensures Groups(token) < Pow2(width) <==> |token| <= full || token[full] < top
  {
    if |token| <= full {
      FewBytesFit(token, full, top);
    } else {
      var init, b := token[..full], token[full];
      assert token == init + [b];
      LastByteFits(init, b, Pow2(7 * full), top);
    }
  }

  lemma FewBytesFit(token: Bytes, full: nat, top: nat)
    requires |token| <= full && top > 0
    ensures Groups(token) < top * Pow2(7 * full)
  {
    GroupsBound(token);
    Pow2Grows(7 * |token|, 7 * full);
    Multiple(Pow2(7 * full), top);
  }

  lemma LastByteFits(init: Bytes, b: Byte, p: nat, top: nat)
    requires b < 128 && p == Pow2(7 * |init|)
    ensures Groups(init + [b]) < top * p <==> b < top
  {
    GroupsBound(init);
    GroupsAppend(init, b, b);
    DigitBelow(Groups(init), b, p, top);
  }

  lemma DigitBelow(low: nat, b: nat, p: nat, top: nat)
    requires low < p
    ensures low + b * p < top * p <==> b < top
  {
    if b < top {
      DigitFits(p, top, b, low);
    } else {
      Multiple(p, b - top);
      assert p * (b - top) == b * p - top * p;
    }
  }

  // ----- Lists

  function EncodeAll(vs: seq<nat>): Bytes {
    if vs == [] then [] else Varint(vs[0]) + EncodeAll(vs[1..])
  }

  /** Reading `count` varints one after the other. */
  function DecodeAll(count: nat, input: Bytes, max: nat, modulus: nat): Option<(seq<nat>, Bytes)>
    requires modulus > 0
  {
    if count == 0 then Some(([], input))
    else
      match Decode(input, max, modulus)
      case None => None
      case Some((v, rest)) =>
        match DecodeAll(count - 1, rest, max, modulus)
        case None => None
        case Some((vs, left)) => Some(([v] + vs, left))
  }

  lemma OneMoreDecoded(count: nat, input: Bytes, v: nat, more: Bytes, vs: seq<nat>, left: Bytes, max: nat, modulus: nat)
    requires modulus > 0 && Decode(input, max, modulus) == Some((v, more))
    requires DecodeAll(count, more, max, modulus) == Some((vs, left))
    ensures DecodeAll(count + 1, input, max, modulus) == Some(([v] + vs, left))
  {
    hide Decode;
  }

  lemma EncodeAllFirst(vs: seq<nat>, rest: Bytes)
    ensures vs == [] ==> EncodeAll(vs) + rest == rest
    ensures vs != [] ==> EncodeAll(vs) + rest == Varint(vs[0]) + (EncodeAll(vs[1..]) + rest)
  {
  }

  /** A value the decoder of that many bytes and that modulus can read back. */
  predicate Fits(v: nat, max: nat, modulus: nat) {
    v < modulus && |Varint(v)| <= max
  }

  lemma FirstRoundTrip(vs: seq<nat>, rest: Bytes, max: nat, modulus: nat)
    requires vs != [] && Fits(vs[0], max, modulus)
    ensures Decode(EncodeAll(vs) + rest, max, modulus) == Some((vs[0], EncodeAll(vs[1..]) + rest))
  {
    hide Decode;
    EncodeAllFirst(vs, rest);
    RoundTrip(vs[0], EncodeAll(vs[1..]) + rest, max, modulus);
  }

  lemma {:induction false} ListRoundTrip(vs: seq<nat>, rest: Bytes, max: nat, modulus: nat)
    requires modulus > 0 && forall i :: 0 <= i < |vs| ==> Fits(vs[i], max, modulus)
    ensures DecodeAll(|vs|, EncodeAll(vs) + rest, max, modulus) == Some((vs, rest))
  {
    hide Decode, Fits;
    if vs == [] {
      EncodeAllFirst(vs, rest);
    } else {
      var tail := vs[1..];
      FirstRoundTrip(vs, rest, max, modulus);
      ListRoundTrip(tail, rest, max, modulus);
      OneMoreDecoded(|tail|, EncodeAll(vs) + rest, vs[0], EncodeAll(tail) + rest, tail, rest, max, modulus);
      assert vs == [vs[0]] + tail;
    }
  }

  lemma ListRoundTrip32(vs: seq<nat>, rest: Bytes)
    requires forall i :: 0 <= i < |vs| ==> vs[i] < UINT32
    ensures DecodeAll(|vs|, EncodeAll(vs) + rest, 5, UINT32) == Some((vs, rest))
  {
    forall i | 0 <= i < |vs|
      ensures |Varint(vs[i])| <= 5
    {
      WordsFit(vs[i]);
    }
    ListRoundTrip(vs, rest, 5, UINT32);
  }

  lemma ListRoundTrip64(vs: seq<nat>, rest: Bytes)
    requires forall i :: 0 <= i < |vs| ==> vs[i] < UINT64
    ensures DecodeAll(|vs|, EncodeAll(vs) + rest, 10, UINT64) == Some((vs, rest))
  {
    forall i | 0 <= i < |vs|
      ensures |Varint(vs[i])| <= 10
    {
      WordsFit(vs[i]);
    }
    ListRoundTrip(vs, rest, 10, UINT64);
  }

  // ----- Length-prefixed slices

  /** The bytes of a slice behind its length, which is passed as a 32-bit number. */
  function Prefixed(value: Bytes): Bytes {
    Varint(|value| % UINT32) + value
  }

  /** Reading one slice back: the slice and what follows it. */
  function Unprefix(input: Bytes): Option<(Bytes, Bytes)> {
    match Decode(input, 5, UINT32)
    case None => None
    case Some((len, rest)) => if |rest| >= len then Some((rest[..len], rest[len..])) else None
  }

  method PutLengthPrefixedSlice(dst: Bytes, value: Bytes) returns (r: Bytes)
    ensures r == dst + Prefixed(value)
  {
    r := PutVarint32(dst, |value| % UINT32);
    r := r + value;
  }

  /** On failure the input may already have lost its length bytes. */
  method GetLengthPrefixedSlice(input: Bytes) returns (ok: bool, result: Bytes, input': Bytes)
    ensures ok <==> Unprefix(input).Some?
    ensures ok ==> Unprefix(input) == Some((result, input'))
    ensures !ok ==> input' == if Decode(input, 5, UINT32).None? then input else Decode(input, 5, UINT32).value.1
  {
    var len;
    ok, len, input' := GetVarint32(input);
    result := [];
    if ok && |input'| >= len {
      result, input' := input'[..len], input'[len..];
    } else {
      ok := false;
    }
  }

  /** A slice comes back, whatever follows it, exactly when its length is a 32-bit number. */
  lemma SliceRoundTripIff(value: Bytes, rest: Bytes)
    ensures Unprefix(Prefixed(value) + rest) == Some((value, rest)) <==> |value| < UINT32
  {
    var len := |value| % UINT32;
    WordsFit(len);
    assert Prefixed(value) + rest == Varint(len) + (value + rest);
    RoundTrip(len, value + rest, 5, UINT32);
    if |value| < UINT32 {
      assert (value + rest)[..len] == value && (value + rest)[len..] == rest;
    }
  }

  function PrefixedAll(values: seq<Bytes>): Bytes {
    if values == [] then [] else Prefixed(values[0]) + PrefixedAll(values[1..])
  }

  function UnprefixAll(count: nat, input: Bytes): Option<(seq<Bytes>, Bytes)> {
    if count == 0 then Some(([], input))
    else
      match Unprefix(input)
      case None => None
      case Some((v, rest)) =>
        match UnprefixAll(count - 1, rest)
        case None => None
        case Some((vs, left)) => Some(([v] + vs, left))
  }

  lemma {:induction false} SliceListRoundTrip(values: seq<Bytes>, rest: Bytes)
    requires forall i :: 0 <= i < |values| ==> |values[i]| < UINT32
    ensures UnprefixAll(|values|, PrefixedAll(values) + rest) == Some((values, rest))
  {
    hide Unprefix, Prefixed;
    if values != [] {
      var more := PrefixedAll(values[1..]) + rest;
      assert PrefixedAll(values) + rest == Prefixed(values[0]) + more;
      SliceRoundTripIff(values[0], more);
      SliceListRoundTrip(values[1..], rest);
      assert values == [values[0]] + values[1..];
    } else {
      assert PrefixedAll(values) + rest == rest;
    }
  }

  // ----- Fixed-width integers

  /** n bytes, least significant first. */
  function LittleEndian(v: nat, n: nat): (r: Bytes)
    ensures |r| == n
  {
    if n == 0 then [] else [v % 256] + LittleEndian(v / 256, n - 1)
  }

  function LittleValue(bs: Bytes): nat {
    if bs == [] then 0 else bs[0] + 256 * LittleValue(bs[1..])
  }

  lemma {:induction false} LittleRoundTrip(v: nat, n: nat)
    requires v < Pow2(8 * n)
    ensures LittleValue(LittleEndian(v, n)) == v
  {
    if n > 0 {
      assert Pow2(8) == 256;
      Pow2Sum(8, 8 * (n - 1));
      LittleRoundTrip(v / 256, n - 1);
      assert LittleEndian(v, n)[1..] == LittleEndian(v / 256, n - 1);
    }
  }

  lemma {:induction false} LittleIsOnto(bs: Bytes)
    ensures LittleValue(bs) < Pow2(8 * |bs|) && LittleEndian(LittleValue(bs), |bs|) == bs
  {
    if bs != [] {
      assert Pow2(8) == 256;
      Pow2Sum(8, 8 * (|bs| - 1));
      LittleIsOnto(bs[1..]);
      var g := LittleValue(bs[1..]);
      SplitByte(bs[0], g);
      var v := bs[0] + 256 * g;
      assert LittleValue(bs) == v && LittleEndian(v, |bs|) == [v % 256] + LittleEndian(v / 256, |bs| - 1);
      assert bs == [bs[0]] + bs[1..];
    }
  }

  lemma SplitByte(b: Byte, g: nat)
    ensures (b + 256 * g) % 256 == b && (b + 256 * g) / 256 == g
  {
  }

  lemma {:induction false} LittleByte(v: nat, n: nat, i: nat)
    requires i < n
    ensures LittleEndian(v, n)[i] == v / Pow2(8 * i) % 256
  {
    if i > 0 {
      LittleByte(v / 256, n - 1, i - 1);
      assert Pow2(8) == 256;
      Pow2Sum(8, 8 * (i - 1));
      NestedQuotient(v, 256, Pow2(8 * (i - 1)));
    }
  }

  lemma {:induction false} LittleAppend(bs: Bytes, b: Byte)
    ensures LittleValue(bs + [b]) == LittleValue(bs) + b * Pow2(8 * |bs|)
  {
    if bs == [] {
      assert (bs + [b])[1..] == [];
    } else {
      assert (bs + [b])[1..] == bs[1..] + [b];
      LittleAppend(bs[1..], b);
      assert Pow2(8) == 256;
      Pow2Sum(8, 8 * (|bs| - 1));
      ShiftedByte(b, Pow2(8 * (|bs| - 1)));
    }
  }

  lemma ShiftedByte(b: nat, p: nat)
    ensures 256 * (b * p) == b * (256 * p)
  {
  }

  /** Byte i has the eight bits of the value from bit 8i on. */
  lemma {:induction false} LittleEndianByte(v: nat, n: nat, i: nat)
    requires i < n
    ensures LittleEndian(v, n)[i] == v / Pow2(8 * i) % 256
    decreases i
  {
    if i > 0 {
      LittleEndianByte(v / 256, n - 1, i - 1);
      Powers();
      Pow2Sum(8, 8 * (i - 1));
      NestedQuotient(v, 256, Pow2(8 * (i - 1)));
    }
  }

  /** `b[0] | b[1] << 8 | b[2] << 16 ...`, over the first n bytes. */
  function OrBytes(bs: Bytes, n: nat): nat
    requires n <= |bs|
  {
    if n == 0 then 0 else BitOr(OrBytes(bs, n - 1), bs[n - 1] * Pow2(8 * (n - 1)))
  }

  lemma {:induction false} OrBytesIs(bs: Bytes, n: nat)
    requires n <= |bs|
    ensures OrBytes(bs, n) == LittleValue(bs[..n])
  {
    if n > 0 {
      OrBytesIs(bs, n - 1);
      var init, b := bs[..n - 1], bs[n - 1];
      assert bs[..n] == init + [b];
      LittleAppend(init, b);
      LittleIsOnto(init);
      OrIsSum(LittleValue(init), b, 8 * (n - 1));
    }
  }

  function DecodeFixed32(bs: Bytes): nat
    requires |bs| >= 4
  {
    OrBytes(bs, 4)
  }

  function DecodeFixed64(bs: Bytes): nat
    requires |bs| >= 8
  {
    OrBytes(bs, 8)
  }

  /** The low byte of `value >> shift`. */
  function ShiftedLow(v: nat, shift: nat): Byte {
    v / Pow2(shift) % 256
  }

  method EncodeFixed32(dst: array<Byte>, at: nat, v: nat)
    requires v < UINT32 && at + 4 <= dst.Length
    modifies dst
    ensures dst[..] == Overwritten(old(dst[..]), at, LittleEndian(v, 4))
  {
    hide Overwritten, ShiftedLow;
    ghost var buffer, written := dst[..], [];
    Untouched(buffer, at);
    var end := at;
    end, written := Put(dst, end, ShiftedLow(v, 0), buffer, at, written);
    end, written := Put(dst, end, ShiftedLow(v, 8), buffer, at, written);
    end, written := Put(dst, end, ShiftedLow(v, 16), buffer, at, written);
    end, written := Put(dst, end, ShiftedLow(v, 24), buffer, at, written);
    LittleBytes(v, 4);
    assert written == LittleEndian(v, 4);
  }

  lemma LittleBytes(v: nat, n: nat)
    ensures forall i :: 0 <= i < n ==> LittleEndian(v, n)[i] == ShiftedLow(v, 8 * i)
  {
    forall i | 0 <= i < n
      ensures LittleEndian(v, n)[i] == ShiftedLow(v, 8 * i)
    {
      LittleByte(v, n, i);
    }
  }

  method EncodeFixed64(dst: array<Byte>, at: nat, v: nat)
    requires v < UINT64 && at + 8 <= dst.Length
    modifies dst
    ensures dst[..] == Overwritten(old(dst[..]), at, LittleEndian(v, 8))
  {
    hide Overwritten, ShiftedLow;
    ghost var buffer, written := dst[..], [];
    Untouched(buffer, at);
    var end := at;
    end, written := Put(dst, end, ShiftedLow(v, 0), buffer, at, written);
    end, written := Put(dst, end, ShiftedLow(v, 8), buffer, at, written);
    end, written := Put(dst, end, ShiftedLow(v, 16), buffer, at, written);
    end, written := Put(dst, end, ShiftedLow(v, 24), buffer, at, written);
    end, written := Put(dst, end, ShiftedLow(v, 32), buffer, at, written);
    end, written := Put(dst, end, ShiftedLow(v, 40), buffer, at, written);
    end, written := Put(dst, end, ShiftedLow(v, 48), buffer, at, written);
    end, written := Put(dst, end, ShiftedLow(v, 56), buffer, at, written);
    LittleBytes(v, 8);
    assert written == LittleEndian(v, 8);
  }

  method PutFixed64(dst: Bytes, v: nat) returns (r: Bytes)
    requires v < UINT64
    ensures r == dst + LittleEndian(v, 8)
  {
    var buf := new Byte[8](_ => 0);
    EncodeFixed64(buf, 0, v);
    assert buf[..] == LittleEndian(v, 8);
    r := dst + buf[..];
  }

  /** What is written comes back, whatever follows, and every eight bytes are the encoding of what they decode to. */
  lemma Fixed64RoundTrip(v: nat, rest: Bytes)
    requires v < UINT64
    ensures DecodeFixed64(LittleEndian(v, 8) + rest) == v
  {
    var bs := LittleEndian(v, 8) + rest;
    OrBytesIs(bs, 8);
    assert bs[..8] == LittleEndian(v, 8);
    Powers();
    Pow2Sum(32, 32);
    LittleRoundTrip(v, 8);
  }

  lemma Fixed64IsOnto(bs: Bytes)
    requires |bs| == 8
    ensures DecodeFixed64(bs) < UINT64 && LittleEndian(DecodeFixed64(bs), 8) == bs
  {
    OrBytesIs(bs, 8);
    assert bs[..8] == bs;
    Powers();
    Pow2Sum(32, 32);
    LittleIsOnto(bs);
  }

  lemma Fixed32RoundTrip(v: nat, rest: Bytes)
    requires v < UINT32
    ensures DecodeFixed32(LittleEndian(v, 4) + rest) == v
  {
    var bs := LittleEndian(v, 4) + rest;
    OrBytesIs(bs, 4);
    assert bs[..4] == LittleEndian(v, 4);
    Powers();
    LittleRoundTrip(v, 4);
  }
}
