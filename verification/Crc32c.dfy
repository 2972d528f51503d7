/** CRC32C (util/crc32c.cpp, util/crc32c.h).

    The reference is the bit-serial shift register of the Castagnoli polynomial (section 12.1 of RFC 3720) in
    reflected form: message bits enter one at a time, least significant bit of each byte first.  `Extend` is the
    source's strided table algorithm, with its alignment prologue, four interleaved partial sums, their rotation and
    their recombination.  The lookup tables are given by the equations that define them.

    Words and bytes are bit strings, least significant bit first, so a little-endian load is a concatenation. */
module Crc32c {
  import B = Bytes

  type Bits = seq<bool>
  type Word = w: seq<bool> | |w| == 32 witness Zeros(32)
  type Octet = b: seq<bool> | |b| == 8 witness Zeros(8)

  // ----- Bit strings

  function Zeros(n: nat): (z: Bits)
    ensures |z| == n && forall i :: 0 <= i < n ==> !z[i]
  {
    seq(n, _ => false)
  }

  function Ones(n: nat): (z: Bits)
    ensures |z| == n && forall i :: 0 <= i < n ==> z[i]
  {
    seq(n, _ => true)
  }

  function Xor(a: Word, b: Word): (r: Word)
    ensures forall i :: 0 <= i < 32 ==> r[i] == (a[i] != b[i])
  {
    seq(32, i requires 0 <= i < 32 => a[i] != b[i])
  }

  function XorOctet(a: Octet, b: Octet): (r: Octet)
    ensures forall i :: 0 <= i < 8 ==> r[i] == (a[i] != b[i])
  {
    seq(8, i requires 0 <= i < 8 => a[i] != b[i])
  }

  /** The low `width` bits of a number. */
  function BitsOf(value: nat, width: nat): (r: Bits)
    ensures |r| == width
  {
    if width == 0 then [] else [value % 2 == 1] + BitsOf(value / 2, width - 1)
  }

  const POLYNOMIAL: Word := BitsOf(0x82f63b78, 32)

  /** Logical shift right by n bits. */
  function ShiftRight(w: Word, n: nat): Word
    requires n <= 32
  {
    w[n..] + Zeros(n)
  }

  /** A bit string of at most 32 bits as a word. */
  function Widen(b: Bits): Word
    requires |b| <= 32
  {
    b + Zeros(32 - |b|)
  }

  // ----- The bit-serial reference

  /** One clock of the register with a zero message bit. */
  function Clock(l: Word): Word {
    if l[0] then Xor(ShiftRight(l, 1), POLYNOMIAL) else ShiftRight(l, 1)
  }

  /** The register after a sequence of message bits. */
  function Register(l: Word, bits: Bits): Word
    decreases bits
  {
    if bits == [] then l
    else Register(Clock(Xor(l, Widen([bits[0]]))), bits[1..])
  }

  /** The bits of a byte string in transmission order. */
  function MessageBits(data: seq<Octet>): (bits: Bits)
    ensures |bits| == 8 * |data|
  {
    if data == [] then [] else data[0] + MessageBits(data[1..])
  }

  /** The CRC of a message, continued from the CRC of what came before it. */
  function CrcOf(crc: Word, data: seq<Octet>): Word {
    Xor(Register(Xor(crc, Ones(32)), MessageBits(data)), Ones(32))
  }

  // ----- Linear algebra of the register

  /** The register after n zero bits. */
  function Clocks(n: nat, l: Word): Word {
    if n == 0 then l else Clocks(n - 1, Clock(l))
  }

  lemma XorLaws(a: Word, b: Word, c: Word)
    ensures Xor(a, b) == Xor(b, a)
    ensures Xor(Xor(a, b), c) == Xor(a, Xor(b, c))
    ensures Xor(a, Zeros(32)) == a
    ensures Xor(Xor(a, b), b) == a
  {
  }

  lemma ClockIsLinear(x: Word, y: Word)
    ensures Clock(Xor(x, y)) == Xor(Clock(x), Clock(y))
  {
  }

  lemma {:induction false} ClocksIsLinear(n: nat, x: Word, y: Word)
    ensures Clocks(n, Xor(x, y)) == Xor(Clocks(n, x), Clocks(n, y))
  {
    if n > 0 {
      ClockIsLinear(x, y);
      ClocksIsLinear(n - 1, Clock(x), Clock(y));
    }
  }

  lemma {:induction false} ClocksAdd(m: nat, n: nat, x: Word)
    ensures Clocks(m + n, x) == Clocks(n, Clocks(m, x))
  {
    if m > 0 {
      ClocksAdd(m - 1, n, Clock(x));
    }
  }

  /** Clocking out low bits that are all clear only shifts. */
  lemma {:induction false} ClocksShift(n: nat, x: Word)
    requires n <= 32 && forall i :: 0 <= i < n ==> !x[i]
    ensures Clocks(n, x) == ShiftRight(x, n)
  {
    if n == 0 {
      assert ShiftRight(x, 0) == x;
    } else {
      var y := Clock(x);
      ClocksShift(n - 1, y);
      assert ShiftRight(y, n - 1) == ShiftRight(x, n);
    }
  }

  lemma SplitFirstBit(l: Word, bits: Bits)
    requires 0 < |bits| <= 32
    ensures Xor(l, Widen(bits)) == Xor(Xor(l, Widen([bits[0]])), Widen([false] + bits[1..]))
  {
  }

  lemma ClockShifts(bits: Bits)
    requires |bits| < 32
    ensures Clock(Widen([false] + bits)) == Widen(bits)
  {
    assert ShiftRight(Widen([false] + bits), 1) == Widen(bits);
  }

  /** Feeding up to 32 message bits is adding them to the register and then clocking that often. */
  lemma {:induction false} RegisterIsClocks(l: Word, bits: Bits)
    requires |bits| <= 32
    ensures Register(l, bits) == Clocks(|bits|, Xor(l, Widen(bits)))
    decreases bits
  {
    if bits == [] {
      XorLaws(l, l, l);
      assert Widen(bits) == Zeros(32);
    } else {
      var first, rest := Widen([bits[0]]), Widen([false] + bits[1..]);
      RegisterIsClocks(Clock(Xor(l, first)), bits[1..]);
      SplitFirstBit(l, bits);
      ClockIsLinear(Xor(l, first), rest);
      ClockShifts(bits[1..]);
    }
  }

  lemma {:induction false} RegisterAppend(l: Word, a: Bits, b: Bits)
    ensures Register(l, a + b) == Register(Register(l, a), b)
    decreases a
  {
    if a == [] {
      assert a + b == b;
    } else {
      assert (a + b)[1..] == a[1..] + b;
      RegisterAppend(Clock(Xor(l, Widen([a[0]]))), a[1..], b);
    }
  }

  lemma {:induction false} MessageBitsAppend(a: seq<Octet>, b: seq<Octet>)
    ensures MessageBits(a + b) == MessageBits(a) + MessageBits(b)
  {
    if a == [] {
      assert a + b == b;
    } else {
      assert (a + b)[1..] == a[1..] + b;
      MessageBitsAppend(a[1..], b);
    }
  }

  // ----- Table steps

  /** The word a byte becomes after n zero bytes: the byte table is n = 1, stride tables 0 to 3 are n = 13 to 16. */
  function Table(n: nat, c: Octet): Word {
    Clocks(8 * n, Widen(c))
  }

  /** The little-endian load of four bytes. */
  function Load(data: seq<Octet>, p: nat): Word
    requires p + 4 <= |data|
  {
    var b0: Bits, b1: Bits, b2: Bits, b3: Bits := data[p], data[p + 1], data[p + 2], data[p + 3];
    b0 + b1 + b2 + b3
  }

  /** STEP1: one byte. */
  function Step1(l: Word, b: Octet): Word {
    Xor(Table(1, XorOctet(l[..8], b)), ShiftRight(l, 8))
  }

  /** STEP4: one four-byte word of one stride. */
  function Step4(crc: Word, w: Word): Word {
    Xor(Xor(Xor(Xor(w, Table(16, crc[..8])), Table(15, crc[8..16])), Table(14, crc[16..24])), Table(13, crc[24..]))
  }

  /** One round of the loop in STEP4W. */
  function FoldByte(w: Word): Word {
    Xor(ShiftRight(w, 8), Table(1, w[..8]))
  }

  /** STEP4W: folds a partial sum into the running register. */
  function Step4W(w: Word, l: Word): Word {
    FoldByte(FoldByte(FoldByte(FoldByte(Xor(w, l)))))
  }

  /** Folds the partial sums into the running register, leading stride first. */
  function Fold(l: Word, strides: seq<Word>): Word
    decreases strides
  {
    if strides == [] then l else Fold(Step4W(strides[0], l), strides[1..])
  }

  /** The register the four partial sums stand for. */
  function Combine(c0: Word, c1: Word, c2: Word, c3: Word): Word {
    Fold(Zeros(32), [c0, c1, c2, c3])
  }

  lemma FoldFirst(l: Word, c: Word, rest: seq<Word>)
    ensures Fold(l, [c] + rest) == Fold(Step4W(c, l), rest)
  {
    assert ([c] + rest)[1..] == rest;
  }

  lemma CombineSteps(c0: Word, c1: Word, c2: Word, c3: Word)
    ensures Combine(c0, c1, c2, c3) == Step4W(c3, Step4W(c2, Step4W(c1, Step4W(c0, Zeros(32)))))
  {
    var r0 := Step4W(c0, Zeros(32));
    var r1 := Step4W(c1, r0);
    var r2 := Step4W(c2, r1);
    FoldFirst(Zeros(32), c0, [c1, c2, c3]);
    FoldFirst(r0, c1, [c2, c3]);
    FoldFirst(r1, c2, [c3]);
    FoldFirst(r2, c3, []);
    assert [c0] + [c1, c2, c3] == [c0, c1, c2, c3] && [c1] + [c2, c3] == [c1, c2, c3] && [c2] + [c3] == [c2, c3];
    assert [c3] + [] == [c3];
  }

  lemma FoldByteIsClocks(w: Word)
    ensures FoldByte(w) == Clocks(8, w)
  {
    var low, high := Widen(w[..8]), Zeros(8) + w[8..];
    assert w == Xor(high, low);
    ClocksIsLinear(8, high, low);
    ClocksShift(8, high);
    assert ShiftRight(high, 8) == ShiftRight(w, 8);
  }

  lemma Step1IsRegister(l: Word, b: Octet)
    ensures Step1(l, b) == Register(l, b)
  {
    hide Xor, Widen, XorOctet, ShiftRight, Table;
    var w := Xor(l, Widen(b));
    RegisterIsClocks(l, b);
    FoldByteIsClocks(w);
    XoredByte(l, b);
    XorLaws(Table(1, w[..8]), ShiftRight(l, 8), l);
  }

  /** A byte added to the register changes its low byte only. */
  lemma XoredByte(l: Word, b: Octet)
    ensures Xor(l, Widen(b))[..8] == XorOctet(l[..8], b) && ShiftRight(Xor(l, Widen(b)), 8) == ShiftRight(l, 8)
  {
  }

  lemma Step4WIsClocks(w: Word, l: Word)
    ensures Step4W(w, l) == Clocks(32, Xor(w, l))
  {
    var x := Xor(w, l);
    var x1 := FoldByte(x);
    var x2 := FoldByte(x1);
    var x3 := FoldByte(x2);
    FoldByteIsClocks(x);
    FoldByteIsClocks(x1);
    FoldByteIsClocks(x2);
    FoldByteIsClocks(x3);
    ClocksAdd(8, 8, x);
    ClocksAdd(16, 8, x);
    ClocksAdd(24, 8, x);
  }

  /** A byte in position k of a word, counting up from the low end. */
  function ByteAt(k: nat, c: Octet): Word
    requires k <= 3
  {
    Widen(Zeros(8 * k) + c)
  }

  lemma ByteShifted(k: nat, c: Octet)
    requires k <= 3
    ensures ShiftRight(ByteAt(k, c), 8 * k) == Widen(c) && forall i :: 0 <= i < 8 * k ==> !ByteAt(k, c)[i]
  {
  }

  /** That byte reaches the low end after k zero bytes. */
  lemma TableOfByteAt(k: nat, n: nat, c: Octet)
    requires k <= 3 && k <= n
    ensures Clocks(8 * n, ByteAt(k, c)) == Table(n - k, c)
  {
    hide Widen, ShiftRight, ByteAt;
    var x := ByteAt(k, c);
    ByteShifted(k, c);
    ClocksAdd(8 * k, 8 * (n - k), x);
    ClocksShift(8 * k, x);
  }

  lemma ClocksOfSum(n: nat, a: Word, b: Word, c: Word, d: Word)
    ensures Clocks(n, Xor(Xor(Xor(a, b), c), d)) == Xor(Xor(Xor(Clocks(n, a), Clocks(n, b)), Clocks(n, c)), Clocks(n, d))
  {
    ClocksIsLinear(n, Xor(Xor(a, b), c), d);
    ClocksIsLinear(n, Xor(a, b), c);
    ClocksIsLinear(n, a, b);
  }

  lemma SplitWord(w: Word)
    ensures w == Xor(Xor(Xor(ByteAt(0, w[..8]), ByteAt(1, w[8..16])), ByteAt(2, w[16..24])), ByteAt(3, w[24..]))
  {
  }

  lemma TableOfSum(n: nat, b0: Octet, b1: Octet, b2: Octet, b3: Octet)
    requires n >= 3
    ensures Clocks(8 * n, Xor(Xor(Xor(ByteAt(0, b0), ByteAt(1, b1)), ByteAt(2, b2)), ByteAt(3, b3)))
         == Xor(Xor(Xor(Table(n, b0), Table(n - 1, b1)), Table(n - 2, b2)), Table(n - 3, b3))
  {
    hide Xor, Table, ByteAt;
    ClocksOfSum(8 * n, ByteAt(0, b0), ByteAt(1, b1), ByteAt(2, b2), ByteAt(3, b3));
    TableOfByteAt(0, n, b0);
    TableOfByteAt(1, n, b1);
    TableOfByteAt(2, n, b2);
    TableOfByteAt(3, n, b3);
  }

  lemma Step4IsClocks(crc: Word, w: Word)
    ensures Step4(crc, w) == Xor(w, Clocks(128, crc))
  {
    var t3, t2, t1, t0 := Table(16, crc[..8]), Table(15, crc[8..16]), Table(14, crc[16..24]), Table(13, crc[24..]);
    assert Clocks(128, crc) == Xor(Xor(Xor(t3, t2), t1), t0) by {
      SplitWord(crc);
      TableOfSum(16, crc[..8], crc[8..16], crc[16..24], crc[24..]);
    }
    XorLaws(w, t3, t2);
    XorLaws(w, Xor(t3, t2), t1);
    XorLaws(w, Xor(Xor(t3, t2), t1), t0);
  }

  /** One stride's share t of a running sum travels on, unmixed, as the next partial sum is folded in. */
  lemma CarryTravels(c: Word, s: Word, n: nat, t: Word)
    ensures Step4W(c, Xor(s, Clocks(n, t))) == Xor(Step4W(c, s), Clocks(n + 32, t))
  {
    var u := Clocks(n, t);
    Step4WIsClocks(c, Xor(s, u));
    Step4WIsClocks(c, s);
    XorLaws(c, s, u);
    ClocksIsLinear(32, Xor(c, s), u);
    ClocksAdd(n, 32, t);
  }

  /** The leading stride's share of the combined register, split off from the other three. */
  lemma LeadingShare(c0: Word, c1: Word, c2: Word, c3: Word)
    ensures Combine(c0, c1, c2, c3) == Xor(Step4W(c3, Step4W(c2, Step4W(c1, Zeros(32)))), Clocks(128, c0))
  {
    var zero := Zeros(32);
    var r0 := Clocks(32, c0);
    assert Step4W(c0, zero) == Xor(zero, r0) by {
      Step4WIsClocks(c0, zero);
      XorLaws(c0, zero, zero);
      XorLaws(r0, zero, zero);
    }
    CombineSteps(c0, c1, c2, c3);
    CarryTravels(c1, zero, 32, c0);
    CarryTravels(c2, Step4W(c1, zero), 64, c0);
    CarryTravels(c3, Step4W(c2, Step4W(c1, zero)), 96, c0);
  }

  /** The heart of the algorithm: loading one word into the leading stride and rotating the strides advances the
      combined register by exactly that word. */
  lemma RotateAdvances(c0: Word, c1: Word, c2: Word, c3: Word, w: Word)
    ensures Combine(c1, c2, c3, Step4(c0, w)) == Register(Combine(c0, c1, c2, c3), w)
  {
    LeadingShare(c0, c1, c2, c3);
    CombineSteps(c1, c2, c3, Step4(c0, w));
    Step4IsClocks(c0, w);
    LastFold(Step4W(c3, Step4W(c2, Step4W(c1, Zeros(32)))), Clocks(128, c0), w);
  }

  lemma LastFold(s: Word, far: Word, w: Word)
    ensures Step4W(Xor(w, far), s) == Register(Xor(s, far), w)
  {
    Step4WIsClocks(Xor(w, far), s);
    RegisterIsClocks(Xor(s, far), w);
    assert Widen(w) == w;
    XorLaws(w, far, s);
    XorLaws(Xor(far, s), w, w);
    XorLaws(far, s, w);
  }

  // ----- The strided algorithm

  /** The register after the first p bytes. */
  ghost function After(l: Word, data: seq<Octet>, p: nat): Word
    requires p <= |data|
  {
    Register(l, MessageBits(data[..p]))
  }

  lemma AfterByte(l: Word, data: seq<Octet>, p: nat)
    requires p < |data|
    ensures After(l, data, p + 1) == Step1(After(l, data, p), data[p])
  {
    assert data[..p + 1] == data[..p] + [data[p]];
    MessageBitsAppend(data[..p], [data[p]]);
    assert MessageBits([data[p]]) == data[p];
    RegisterAppend(l, MessageBits(data[..p]), data[p]);
    Step1IsRegister(After(l, data, p), data[p]);
  }

  lemma AfterWord(l: Word, data: seq<Octet>, p: nat)
    requires p + 4 <= |data|
    ensures After(l, data, p + 4) == Register(After(l, data, p), Load(data, p))
  {
    var four := data[p..p + 4];
    assert data[..p + 4] == data[..p] + four;
    MessageBitsAppend(data[..p], four);
    RegisterAppend(l, MessageBits(data[..p]), MessageBits(four));
    LoadIsMessageBits(data, p);
  }

  lemma LoadIsMessageBits(data: seq<Octet>, p: nat)
    requires p + 4 <= |data|
    ensures MessageBits(data[p..p + 4]) == Load(data, p)
  {
    var d0, d1, d2, d3 := [data[p]], [data[p + 1]], [data[p + 2]], [data[p + 3]];
    assert data[p..p + 4] == ((d0 + d1) + d2) + d3;
    MessageBitsAppend((d0 + d1) + d2, d3);
    MessageBitsAppend(d0 + d1, d2);
    MessageBitsAppend(d0, d1);
  }

  /** The first 16 bytes start the strides: the register rides in the first of them. */
  lemma FirstSwath(l: Word, data: seq<Octet>, p: nat, c0: Word, w1: Word, w2: Word, w3: Word)
    requires p + 16 <= |data| && c0 == Xor(Load(data, p), After(l, data, p))
    requires w1 == Load(data, p + 4) && w2 == Load(data, p + 8) && w3 == Load(data, p + 12)
    ensures After(l, data, p + 16) == Combine(c0, w1, w2, w3)
  {
    var r0, w0, zero := After(l, data, p), Load(data, p), Zeros(32);
    AfterWord(l, data, p);
    AfterWord(l, data, p + 4);
    AfterWord(l, data, p + 8);
    AfterWord(l, data, p + 12);
    CombineSteps(c0, w1, w2, w3);
    XorLaws(c0, zero, zero);
    FoldIsRegister(c0, zero, w0, r0);
    var r1 := Register(r0, w0);
    FoldIsRegister(w1, r1, w1, r1);
    var r2 := Register(r1, w1);
    FoldIsRegister(w2, r2, w2, r2);
    FoldIsRegister(w3, Register(r2, w2), w3, Register(r2, w2));
  }

  lemma FoldIsRegister(w: Word, l: Word, w': Word, l': Word)
    requires Xor(w, l) == Xor(w', l')
    ensures Step4W(w, l) == Register(l', w')
  {
    Step4WIsClocks(w, l);
    RegisterIsClocks(l', w');
    assert Widen(w') == w';
    XorLaws(w', l', w);
  }

  lemma RotateWord(l: Word, data: seq<Octet>, p: nat, c0: Word, c1: Word, c2: Word, c3: Word)
    requires p + 4 <= |data| && After(l, data, p) == Combine(c0, c1, c2, c3)
    ensures After(l, data, p + 4) == Combine(c1, c2, c3, Step4(c0, Load(data, p)))
  {
    AfterWord(l, data, p);
    RotateAdvances(c0, c1, c2, c3, Load(data, p));
  }

  /** Loads the first 16-byte swath into the partial sums. */
  method StartStrides(ghost start: Word, data: seq<Octet>, p: nat, l: Word)
    returns (c0: Word, c1: Word, c2: Word, c3: Word)
    requires p + 16 <= |data| && l == After(start, data, p)
    ensures After(start, data, p + 16) == Combine(c0, c1, c2, c3)
  {
    c0, c1, c2, c3 := Xor(Load(data, p), l), Load(data, p + 4), Load(data, p + 8), Load(data, p + 12);
    FirstSwath(start, data, p, c0, c1, c2, c3);
  }

  /** STEP16: one word into each of the four strides. */
  method Step16(ghost start: Word, data: seq<Octet>, p: nat, c0: Word, c1: Word, c2: Word, c3: Word)
    returns (d0: Word, d1: Word, d2: Word, d3: Word)
    requires p + 16 <= |data| && After(start, data, p) == Combine(c0, c1, c2, c3)
    ensures After(start, data, p + 16) == Combine(d0, d1, d2, d3)
  {
    d0 := Step4(c0, Load(data, p));
    d1 := Step4(c1, Load(data, p + 4));
    d2 := Step4(c2, Load(data, p + 8));
    d3 := Step4(c3, Load(data, p + 12));
    RotateWord(start, data, p, c0, c1, c2, c3);
    RotateWord(start, data, p + 4, c1, c2, c3, d0);
    RotateWord(start, data, p + 8, c2, c3, d0, d1);
    RotateWord(start, data, p + 12, c3, d0, d1, d2);
  }

  /** One word into the leading stride, then the strides rotate. */
  method StepAndRotate(ghost start: Word, data: seq<Octet>, p: nat, c0: Word, c1: Word, c2: Word, c3: Word)
    returns (d0: Word, d1: Word, d2: Word, d3: Word)
    requires p + 4 <= |data| && After(start, data, p) == Combine(c0, c1, c2, c3)
    ensures After(start, data, p + 4) == Combine(d0, d1, d2, d3)
  {
    d0 := Step4(c0, Load(data, p));
    var tmp := d0;
    d0, d1, d2, d3 := c1, c2, c3, tmp;
    RotateWord(start, data, p, c0, c1, c2, c3);
  }

  /** Whole words while at least one is left, and the recombination. */
  method FinishWords(ghost start: Word, data: seq<Octet>, p0: nat, c0: Word, c1: Word, c2: Word, c3: Word)
    returns (p: nat, l: Word)
    requires p0 <= |data| && After(start, data, p0) == Combine(c0, c1, c2, c3)
    ensures p <= |data| && l == After(start, data, p)
  {
    p := p0;
    var crc0, crc1, crc2, crc3 := c0, c1, c2, c3;
    while |data| - p >= 4
      invariant p <= |data| && After(start, data, p) == Combine(crc0, crc1, crc2, crc3)
    {
      crc0, crc1, crc2, crc3 := StepAndRotate(start, data, p, crc0, crc1, crc2, crc3);
      p := p + 4;
    }
    l := Combine(crc0, crc1, crc2, crc3);
  }

  /** The strided middle of `Extend`, once 16 bytes are left. */
  method ExtendWords(ghost start: Word, data: seq<Octet>, p0: nat, l0: Word) returns (p: nat, l: Word)
    requires p0 + 16 <= |data| && l0 == After(start, data, p0)
    ensures p <= |data| && l == After(start, data, p)
  {
    var crc0, crc1, crc2, crc3 := StartStrides(start, data, p0, l0);
    p := p0 + 16;
    while |data| - p >= 16
      invariant p <= |data| && After(start, data, p) == Combine(crc0, crc1, crc2, crc3)
    {
      crc0, crc1, crc2, crc3 := Step16(start, data, p, crc0, crc1, crc2, crc3);
      p := p + 16;
    }
    p, l := FinishWords(start, data, p, crc0, crc1, crc2, crc3);
  }

  /** The register before the first byte, and after the last. */
  lemma Ends(crc: Word, data: seq<Octet>)
    ensures After(Xor(crc, Ones(32)), data, 0) == Xor(crc, Ones(32))
    ensures Xor(After(Xor(crc, Ones(32)), data, |data|), Ones(32)) == CrcOf(crc, data)
  {
    hide Xor, Ones;
    assert data[..0] == [] && data[..|data|] == data;
  }

  /** `Extend` on a buffer that starts at address `address`. */
  method Extend(crc: Word, data: seq<Octet>, address: nat) returns (r: Word)
    ensures r == CrcOf(crc, data)
  {
    hide Xor, Ones, Step1, After, CrcOf;
    var p, e := 0, |data|;
    var l := Xor(crc, Ones(32));
    ghost var start := l;
    Ends(crc, data);

    // The first four-byte aligned index at or after p; it may lie past the end.
    var x := (address + 3) / 4 * 4 - address;
    if x <= e {
      while p != x
        invariant p <= x && l == After(start, data, p)
      {
        AfterByte(start, data, p);
        l := Step1(l, data[p]);
        p := p + 1;
      }
    }

    if e - p >= 16 {
      p, l := ExtendWords(start, data, p, l);
    }

    while p != e
      invariant p <= e && l == After(start, data, p)
    {
      AfterByte(start, data, p);
      l := Step1(l, data[p]);
      p := p + 1;
    }
    return Xor(l, Ones(32));
  }

  /** Extending in pieces is extending at once. */
  lemma CrcOfAppend(crc: Word, a: seq<Octet>, b: seq<Octet>)
    ensures CrcOf(CrcOf(crc, a), b) == CrcOf(crc, a + b)
  {
    var l := Xor(crc, Ones(32));
    MessageBitsAppend(a, b);
    RegisterAppend(l, MessageBits(a), MessageBits(b));
    XorLaws(Register(l, MessageBits(a)), Ones(32), l);
  }

  // ----- Masked storage

  const MASK_DELTA: nat := 0xa282_ead8
  const WORD: nat := 0x1_0000_0000

  function Or(a: Word, b: Word): (r: Word)
    ensures forall i :: 0 <= i < 32 ==> r[i] == (a[i] || b[i])
  {
    seq(32, i requires 0 <= i < 32 => a[i] || b[i])
  }

  function ShiftLeft(w: Word, n: nat): Word
    requires n <= 32
  {
    Zeros(n) + w[..32 - n]
  }

  /** The number a bit string spells. */
  function NumberOf(b: Bits): nat {
    if b == [] then 0 else (if b[0] then 1 else 0) + 2 * NumberOf(b[1..])
  }

  lemma {:induction false} BitsSpell(value: nat, width: nat)
    requires value < B.Pow2(width)
    ensures NumberOf(BitsOf(value, width)) == value
  {
    if width > 0 {
      BitsSpell(value / 2, width - 1);
      assert BitsOf(value, width)[1..] == BitsOf(value / 2, width - 1);
    }
  }

  lemma {:induction false} SpellingIsExact(b: Bits)
    ensures NumberOf(b) < B.Pow2(|b|) && BitsOf(NumberOf(b), |b|) == b
  {
    if b != [] {
      SpellingIsExact(b[1..]);
      var n := NumberOf(b[1..]);
      assert (2 * n + 1) / 2 == n && (2 * n) / 2 == n;
      assert b == [b[0]] + b[1..];
    }
  }

  /** Addition of 32-bit words. */
  function Plus(w: Word, n: nat): Word {
    BitsOf((NumberOf(w) + n) % WORD, 32)
  }

  lemma PlusIs(w: Word, n: nat)
    ensures NumberOf(Plus(w, n)) == (NumberOf(w) + n) % WORD
  {
    B.Powers();
    BitsSpell((NumberOf(w) + n) % WORD, 32);
  }

  /** Adding a number and then its complement changes nothing. */
  lemma PlusUndoes(w: Word, n: nat, m: nat)
    requires n + m == WORD
    ensures Plus(Plus(w, n), m) == w
  {
    B.Powers();
    SpellingIsExact(w);
    PlusIs(w, n);
    WrapsBack(NumberOf(w), n, m);
  }

  lemma WrapsBack(x: nat, n: nat, m: nat)
    requires x < WORD && n + m == WORD
    ensures ((x + n) % WORD + m) % WORD == x
  {
    if x + n < WORD {
      assert (x + n) % WORD == x + n;
    } else {
      assert (x + n) % WORD == x + n - WORD;
    }
  }

  /** `(w >> n) | (w << (32 - n))`. */
  function RotateRight(w: Word, n: nat): Word
    requires n <= 32
  {
    Or(ShiftRight(w, n), ShiftLeft(w, 32 - n))
  }

  lemma RotationsUndo(w: Word, n: nat)
    requires n <= 32
    ensures RotateRight(RotateRight(w, n), 32 - n) == w
  {
    assert RotateRight(w, n) == w[n..] + w[..n];
    var r := w[n..] + w[..n];
    assert RotateRight(r, 32 - n) == r[32 - n..] + r[..32 - n];
  }

  function Mask(crc: Word): Word {
    Plus(RotateRight(crc, 15), MASK_DELTA)
  }

  /** Subtraction adds the complement. */
  function Unmask(masked: Word): Word {
    RotateRight(Plus(masked, WORD - MASK_DELTA), 17)
  }

  lemma {:induction false} NumberOfAppend(a: Bits, b: Bits)
    ensures NumberOf(a + b) == NumberOf(a) + B.Pow2(|a|) * NumberOf(b)
    decreases a
  {
    if a == [] {
      assert a + b == b;
    } else {
      assert (a + b)[1..] == a[1..] + b && (a + b)[0] == a[0];
      NumberOfAppend(a[1..], b);
      OneMoreDigit(if a[0] then 1 else 0, NumberOf(a[1..]), B.Pow2(|a| - 1), NumberOf(b), NumberOf(a[1..] + b));
    }
  }

  lemma OneMoreDigit(d: nat, m: nat, p: nat, n: nat, sum: nat)
    requires sum == m + p * n
    ensures d + 2 * sum == d + 2 * m + 2 * p * n
  {
  }

  lemma RotatedParts(w: Word)
    ensures w == w[..15] + w[15..] && RotateRight(w, 15) == w[15..] + w[..15]
  {
  }

  lemma SplitNumber(low: nat, high: nat)
    requires low < 0x8000
    ensures (low + 0x8000 * high) / 0x8000 == high && (low + 0x8000 * high) % 0x8000 == low
  {
  }

  lemma RotationPowers()
    ensures B.Pow2(15) == 0x8000 && B.Pow2(17) == 0x2_0000
  {
    B.Powers();
    assert B.Pow2(15) == 2 * B.Pow2(14) && B.Pow2(16) == 2 * B.Pow2(15) && B.Pow2(17) == 2 * B.Pow2(16);
  }

  lemma PartNumbers(low: Bits, high: Bits)
    requires |low| == 15 && |high| == 17
    ensures NumberOf(low + high) == NumberOf(low) + 0x8000 * NumberOf(high) && NumberOf(low) < 0x8000
    ensures NumberOf(high + low) == NumberOf(high) + 0x2_0000 * NumberOf(low)
  {
    RotationPowers();
    NumberOfAppend(low, high);
    NumberOfAppend(high, low);
    SpellingIsExact(low);
  }

  /** The number a rotation by 15 spells. */
  lemma RotationIs(w: Word)
    ensures NumberOf(RotateRight(w, 15)) == NumberOf(w) / 0x8000 + NumberOf(w) % 0x8000 * 0x2_0000
  {
    hide RotateRight;
    RotatedParts(w);
    PartNumbers(w[..15], w[15..]);
    SplitNumber(NumberOf(w[..15]), NumberOf(w[15..]));
  }

  /** A masked word as a number: the rotation plus the constant, modulo 2^32. */
  lemma MaskIs(crc: Word)
    ensures var n := NumberOf(crc);
            NumberOf(Mask(crc)) == (n / 0x8000 + n % 0x8000 * 0x2_0000 + 0xa282ead8) % 0x1_0000_0000
  {
    RotationIs(crc);
    PlusIs(RotateRight(crc, 15), MASK_DELTA);
  }

  lemma MaskRoundTrip(crc: Word)
    ensures Unmask(Mask(crc)) == crc && Mask(Unmask(crc)) == crc
  {
    hide Mask, Unmask, Plus, RotateRight;
    MaskUnfolds(crc);
    MaskUnfolds(Unmask(crc));
    MaskUnfolds(Mask(crc));
    PlusUndoes(RotateRight(crc, 15), MASK_DELTA, WORD - MASK_DELTA);
    PlusUndoes(crc, WORD - MASK_DELTA, MASK_DELTA);
    RotationsUndo(crc, 15);
    RotationsUndo(Plus(crc, WORD - MASK_DELTA), 17);
  }

  lemma MaskUnfolds(w: Word)
    ensures Mask(w) == Plus(RotateRight(w, 15), MASK_DELTA) && Unmask(w) == RotateRight(Plus(w, WORD - MASK_DELTA), 17)
  {
  }
}
