/** Bytes, and the machine's shifts and bitwise or on unsigned numbers. */
module Bytes {
  type Byte = b: int | 0 <= b < 256
  type Bytes = seq<Byte>

  const UINT32: nat := 0x1_0000_0000
  const UINT64: nat := 0x1_0000_0000_0000_0000

  function Pow2(n: nat): (r: nat)
    ensures r > 0
  {
    if n == 0 then 1 else 2 * Pow2(n - 1)
  }

  function BitOr(x: nat, y: nat): nat
    decreases x + y
  {
    if x == 0 && y == 0 then 0 else 2 * BitOr(x / 2, y / 2) + (if x % 2 == 1 || y % 2 == 1 then 1 else 0)
  }

  /** Bitwise and. */
  function BitAnd(x: nat, y: nat): (r: nat)
    ensures r <= y
  {
    if x == 0 || y == 0 then 0 else 2 * BitAnd(x / 2, y / 2) + (if x % 2 == 1 && y % 2 == 1 then 1 else 0)
  }

  lemma {:induction false} Pow2Sum(m: nat, n: nat)
    ensures Pow2(m + n) == Pow2(m) * Pow2(n)
  {
    if m > 0 {
      Pow2Sum(m - 1, n);
      calc {
        Pow2(m + n);
        2 * Pow2(m - 1 + n);
        2 * (Pow2(m - 1) * Pow2(n));
        (2 * Pow2(m - 1)) * Pow2(n);
      }
    }
  }

  lemma {:induction false} Pow2Grows(m: nat, n: nat)
    requires m <= n
    ensures Pow2(m) <= Pow2(n)
    decreases n
  {
    if m < n {
      Pow2Grows(m, n - 1);
    }
  }

  lemma HalfOfScaled(b: nat, n: nat)
    requires n > 0
    ensures b * Pow2(n) / 2 == b * Pow2(n - 1) && b * Pow2(n) % 2 == 0
  {
    assert b * Pow2(n) == 2 * (b * Pow2(n - 1));
  }

  lemma {:induction false} OrZero(a: nat)
    ensures BitOr(a, 0) == a
    decreases a
  {
    if a > 0 {
      OrZero(a / 2);
    }
  }

  lemma {:induction false} OrLeftZero(a: nat)
    ensures BitOr(0, a) == a
    decreases a
  {
    if a > 0 {
      OrLeftZero(a / 2);
    }
  }

  /** Or of bits that do not overlap is addition. */
  lemma {:induction false} OrIsSum(a: nat, b: nat, n: nat)
    requires a < Pow2(n)
    ensures BitOr(a, b * Pow2(n)) == a + b * Pow2(n)
    decreases n
  {
    if n == 0 {
      OrLeftZero(b);
    } else if a == 0 {
      OrLeftZero(b * Pow2(n));
    } else {
      HalfOfScaled(b, n);
      OrIsSum(a / 2, b, n - 1);
    }
  }

  lemma {:induction false} OrCommutes(a: nat, b: nat)
    ensures BitOr(a, b) == BitOr(b, a)
    decreases a + b
  {
    if a > 0 || b > 0 {
      OrCommutes(a / 2, b / 2);
    }
  }

  lemma Powers()
    ensures Pow2(7) == 128 && Pow2(8) == 256 && Pow2(14) == 0x4000 && Pow2(16) == 0x1_0000 && Pow2(21) == 0x20_0000
    ensures Pow2(24) == 0x100_0000 && Pow2(28) == 0x1000_0000 && Pow2(32) == UINT32
  {
    assert Pow2(7) == 128;
    Pow2Sum(7, 7);
    Pow2Sum(7, 14);
    Pow2Sum(7, 21);
    Pow2Sum(8, 8);
    Pow2Sum(8, 16);
    Pow2Sum(16, 16);
  }

  /** The byte that a store of `v | 128` writes. */
  function TaggedByte(v: nat): Byte {
    BitOr(v, 128) % 256
  }

  predicate BitSet(v: nat, n: nat) {
    if n == 0 then v % 2 == 1 else BitSet(v / 2, n - 1)
  }

  lemma {:induction false} OrOneBit(v: nat, n: nat)
    ensures BitOr(v, Pow2(n)) == v + if BitSet(v, n) then 0 else Pow2(n)
    decreases n
  {
    if n == 0 {
      OrZero(v / 2);
    } else {
      OrOneBit(v / 2, n - 1);
    }
  }

  lemma {:induction false} BitSetIs(v: nat, n: nat)
    ensures BitSet(v, n) <==> v / Pow2(n) % 2 == 1
    decreases n
  {
    if n > 0 {
      BitSetIs(v / 2, n - 1);
      NestedQuotient(v, 2, Pow2(n - 1));
    }
  }

  lemma Regroup(m: nat, d: nat, x: nat, q: nat, r: nat)
    requires x == d * q + r
    ensures m * x == (m * d) * q + m * r
  {
    calc {
      m * x;
      m * (d * q + r);
      m * (d * q) + m * r;
      (m * d) * q + m * r;
    }
  }

  lemma DigitFits(m: nat, d: nat, r: nat, s: nat)
    requires r < d && s < m
    ensures m * r + s < m * d
  {
    Multiple(m, d - r);
    assert m * (d - r) == m * d - m * r;
  }

  /** Dividing by m * d a number whose quotients by m and then by d are known. */
  lemma QuotientOfProduct(v: nat, m: nat, d: nat, w: nat, s: nat, q: nat, r: nat)
    requires v == m * w + s && w == d * q + r && s < m && r < d
    ensures m * d > 0 && v / (m * d) == q && v % (m * d) == m * r + s
  {
    Regroup(m, d, w, q, r);
    DigitFits(m, d, r, s);
    QuotientIs(v, m * d, q, m * r + s);
  }

  lemma NestedQuotient(v: nat, m: nat, d: nat)
    requires m > 0 && d > 0
    ensures m * d > 0 && v / m / d == v / (m * d)
  {
    QuotientOfProduct(v, m, d, v / m, v % m, v / m / d, v / m % d);
  }

  lemma QuotientIs(x: nat, d: nat, q: nat, s: nat)
    requires s < d && x == d * q + s
    ensures x / d == q && x % d == s
  {
    var k := x / d - q;
    assert d * k == s - x % d by {
      assert d * k == d * (x / d) - d * q;
    }
    Multiple(d, k);
  }

  lemma Multiple(d: int, k: int)
    requires d >= 0
    ensures (k >= 1 ==> d * k >= d) && (k <= -1 ==> d * k <= -d)
  {
  }

  lemma LowByte(v: nat)
    ensures (v + if v / 128 % 2 == 1 then 0 else 128) % 256 == 128 + v % 128
  {
    var q := v / 128;
    if q % 2 == 1 {
      assert v == 256 * (q / 2) + (128 + v % 128);
    } else {
      assert v + 128 == 256 * (q / 2) + (128 + v % 128);
    }
  }

  lemma TagBit(v: nat, n: nat)
    requires Pow2(n) == 128
    ensures BitOr(v, Pow2(n)) % 256 == 128 + v % 128
  {
    OrOneBit(v, n);
    BitSetIs(v, n);
    LowByte(v);
  }

  /** Setting the top bit of the low byte. */
  lemma TaggedByteIs(v: nat)
    ensures TaggedByte(v) == 128 + v % 128
  {
    assert Pow2(7) == 128;
    TagBit(v, 7);
  }

  // ----- Writing into a buffer

  /** The whole buffer after bytes were written at an offset. */
  ghost function Overwritten(buffer: Bytes, at: nat, bs: Bytes): Bytes
    requires at + |bs| <= |buffer|
  {
    buffer[..at] + bs + buffer[at + |bs|..]
  }

  lemma Untouched(buffer: Bytes, at: nat)
    requires at <= |buffer|
    ensures Overwritten(buffer, at, []) == buffer
  {
  }

  /** Writing one string after another is writing both. */
  lemma OverwrittenTwice(buffer: Bytes, at: nat, a: Bytes, b: Bytes)
    requires at + |a| + |b| <= |buffer|
    ensures |Overwritten(buffer, at, a)| == |buffer|
    ensures Overwritten(Overwritten(buffer, at, a), at + |a|, b) == Overwritten(buffer, at, a + b)
  {
  }

  lemma Front(buffer: Bytes, after: Bytes, a: Bytes, b: Bytes)
    requires |a| + |b| <= |buffer| && after == Overwritten(buffer, 0, a + b)
    ensures |after| == |buffer| && after[..|a| + |b|] == a + b && after[|a|..|a| + |b|] == b
  {
  }

  /** `memcpy` into an array. */
  method Memcpy(dst: array<Byte>, at: nat, src: Bytes)
    requires at + |src| <= dst.Length
    modifies dst
    ensures dst[..] == Overwritten(old(dst[..]), at, src)
  {
    forall i | 0 <= i < |src| {
      dst[at + i] := src[i];
    }
  }
}
