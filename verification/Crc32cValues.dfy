/** The values that section B.4 of RFC 3720 gives for CRC32C, and the check value of "123456789".  The register of `Crc32c`
    is run here on machine words. */
module Crc32cValues {
  import opened Crc32c

  // ----- Machine words

  function Half(x: bv32): bv32 {
    x >> 1
  }

  predicate Odd(x: bv32) {
    x & 1 == 1
  }

  function XorWords(x: bv32, y: bv32): bv32 {
    x ^ y
  }

  lemma HalfOfXor(x: bv32, y: bv32)
    ensures Half(XorWords(x, y)) == XorWords(Half(x), Half(y))
  {
  }

  lemma OddOfXor(x: bv32, y: bv32)
    ensures Odd(XorWords(x, y)) == (Odd(x) != Odd(y))
  {
  }

  /** The low n bits of a machine word. */
  function LowBits(x: bv32, n: nat): (r: Bits)
    ensures |r| == n
    decreases n
  {
    if n == 0 then [] else [Odd(x)] + LowBits(Half(x), n - 1)
  }

  function WordOf(x: bv32): Word {
    LowBits(x, 32)
  }

  lemma {:induction false} LowBitsXor(x: bv32, y: bv32, n: nat)
    ensures forall i :: 0 <= i < n ==> LowBits(XorWords(x, y), n)[i] == (LowBits(x, n)[i] != LowBits(y, n)[i])
    decreases n
  {
    hide Half, Odd, XorWords;
    if n > 0 {
      HalfOfXor(x, y);
      OddOfXor(x, y);
      LowBitsXor(Half(x), Half(y), n - 1);
    }
  }

  lemma XorOfWords(x: bv32, y: bv32)
    ensures WordOf(XorWords(x, y)) == Xor(WordOf(x), WordOf(y))
  {
    hide Half, Odd, XorWords;
    LowBitsXor(x, y, 32);
  }

  /** The word has no bit from the n-th on. */
  predicate Fits(x: bv32, n: nat)
    decreases n
  {
    if n == 0 then x == 0 else Fits(Half(x), n - 1)
  }

  predicate AtMost(x: bv32, y: bv32) {
    x <= y
  }

  lemma HalvesInOrder(x: bv32, y: bv32)
    requires AtMost(x, y)
    ensures AtMost(Half(x), Half(y)) && (y == 0 ==> x == 0)
  {
  }

  lemma {:induction false} SmallerFits(x: bv32, y: bv32, n: nat)
    requires AtMost(x, y) && Fits(y, n)
    ensures Fits(x, n)
    decreases n
  {
    hide Half, AtMost;
    HalvesInOrder(x, y);
    if n > 0 {
      SmallerFits(Half(x), Half(y), n - 1);
    }
  }

  lemma {:induction false} ZeroBits(k: nat)
    ensures LowBits(0, k) == Zeros(k)
  {
    if k > 0 {
      ZeroBits(k - 1);
    }
  }

  lemma {:induction false} HighBitsClear(x: bv32, n: nat, k: nat)
    requires Fits(x, n)
    ensures LowBits(x, n + k) == LowBits(x, n) + Zeros(k)
    decreases n
  {
    hide Half, Odd;
    if n > 0 {
      HighBitsClear(Half(x), n - 1, k);
    } else {
      ZeroBits(k);
    }
  }

  lemma LargestFits()
    ensures Fits(0x7fff_ffff, 31)
  {
    assert Fits(0x7f, 7);
    assert Fits(0x7fff, 15);
    assert Fits(0x7f_ffff, 23);
  }

  lemma HalfIsSmall(x: bv32)
    ensures AtMost(Half(x), 0x7fff_ffff)
  {
  }

  lemma ShiftOfWord(x: bv32)
    ensures WordOf(Half(x)) == ShiftRight(WordOf(x), 1) && WordOf(x)[0] == Odd(x)
  {
    hide Half, Odd, AtMost;
    LargestFits();
    HalfIsSmall(x);
    SmallerFits(Half(x), 0x7fff_ffff, 31);
    HighBitsClear(Half(x), 31, 1);
    assert WordOf(x)[1..] == LowBits(Half(x), 31);
  }

  // ----- Literals

  /** A machine word and a number agree on their low n bits. */
  predicate Spells(x: bv32, v: nat, n: nat)
    decreases n
  {
    n == 0 || (Odd(x) == (v % 2 == 1) && Spells(Half(x), v / 2, n - 1))
  }

  lemma {:induction false} SpelledBits(x: bv32, v: nat, n: nat)
    requires Spells(x, v, n)
    ensures LowBits(x, n) == BitsOf(v, n)
    decreases n
  {
    hide Half, Odd;
    if n > 0 {
      SpelledBits(Half(x), v / 2, n - 1);
    }
  }

  lemma PolynomialWord()
    ensures WordOf(0x82f6_3b78) == POLYNOMIAL
  {
    assert Spells(0x82, 0x82, 8);
    assert Spells(0x82f6, 0x82f6, 16);
    assert Spells(0x82f6_3b, 0x82f6_3b, 24);
    SpelledBits(0x82f6_3b78, 0x82f6_3b78, 32);
  }

  // ----- The register on machine words

  function ClockWord(x: bv32): bv32 {
    if Odd(x) then XorWords(Half(x), 0x82f6_3b78) else Half(x)
  }

  function ClockWords(n: nat, x: bv32): bv32
    decreases n
  {
    if n == 0 then x else ClockWords(n - 1, ClockWord(x))
  }

  /** The register after one more byte. */
  function ByteWord(x: bv32, byte: bv32): bv32 {
    FourClocks(FourClocks(XorWords(x, byte)))
  }

  function FourClocks(x: bv32): bv32 {
    ClockWord(ClockWord(ClockWord(ClockWord(x))))
  }

  lemma EightClocks(x: bv32)
    ensures FourClocks(FourClocks(x)) == ClockWords(8, x)
  {
    hide ClockWord;
  }

  lemma ClockOfWord(x: bv32)
    ensures WordOf(ClockWord(x)) == Clock(WordOf(x))
  {
    hide Half, Odd, XorWords, WordOf;
    ShiftOfWord(x);
    PolynomialWord();
    XorOfWords(Half(x), 0x82f6_3b78);
  }

  lemma {:induction false} ClocksOfWord(n: nat, x: bv32)
    ensures WordOf(ClockWords(n, x)) == Clocks(n, WordOf(x))
    decreases n
  {
    hide Half, Odd, XorWords, WordOf, ClockWord, Clock;
    if n > 0 {
      ClockOfWord(x);
      ClocksOfWord(n - 1, ClockWord(x));
    }
  }

  /** The octet of a byte, as a machine word. */
  ghost predicate Carries(byte: bv32, octet: Octet) {
    WordOf(byte) == Widen(octet)
  }

  /** The register, started at all ones, after p bytes is this machine word. */
  ghost predicate Stands(data: seq<Octet>, p: nat, x: bv32) {
    p <= |data| && After(Ones(32), data, p) == WordOf(x)
  }

  lemma StepsOn(data: seq<Octet>, p: nat, x: bv32, byte: bv32)
    requires p < |data| && Stands(data, p, x) && Carries(byte, data[p])
    ensures Stands(data, p + 1, ByteWord(x, byte))
  {
    hide Half, Odd, XorWords, WordOf, FourClocks, ClockWords, Clocks, After, Step1, Xor, Widen;
    AfterByte(Ones(32), data, p);
    Step1IsRegister(WordOf(x), data[p]);
    RegisterIsClocks(WordOf(x), data[p]);
    XorOfWords(x, byte);
    EightClocks(XorWords(x, byte));
    ClocksOfWord(8, XorWords(x, byte));
  }

  // ----- The known values

  predicate AllOdd(x: bv32, n: nat)
    decreases n
  {
    n == 0 || (Odd(x) && AllOdd(Half(x), n - 1))
  }

  lemma {:induction false} AllBitsSet(x: bv32, n: nat)
    requires AllOdd(x, n)
    ensures LowBits(x, n) == Ones(n)
    decreases n
  {
    hide Half, Odd;
    if n > 0 {
      AllBitsSet(Half(x), n - 1);
    }
  }

  lemma OnesWord()
    ensures WordOf(0xffff_ffff) == Ones(32)
  {
    assert AllOdd(0xff, 8);
    assert AllOdd(0xffff, 16);
    assert AllOdd(0xff_ffff, 24);
    AllBitsSet(0xffff_ffff, 32);
  }

  lemma SmallCarries(byte: bv32, v: nat)
    requires Spells(byte, v, 8) && Fits(byte, 8)
    ensures Carries(byte, BitsOf(v, 8))
  {
    hide Half, Odd;
    SpelledBits(byte, v, 8);
    HighBitsClear(byte, 8, 24);
  }

  lemma Started(data: seq<Octet>)
    ensures Stands(data, 0, 0xffff_ffff)
  {
    OnesWord();
    hide WordOf;
    assert data[..0] == [];
  }

  /** The complement of the register is the CRC. */
  lemma Finished(data: seq<Octet>, x: bv32, v: nat)
    requires Stands(data, |data|, x) && BitsOf(v, 32) == WordOf(XorWords(x, 0xffff_ffff))
    ensures CrcOf(Zeros(32), data) == BitsOf(v, 32)
  {
    hide Half, Odd, XorWords, WordOf;
    OnesWord();
    XorOfWords(x, 0xffff_ffff);
    assert data[..|data|] == data;
    assert Xor(Zeros(32), Ones(32)) == Ones(32);
  }

  /** A decimal digit in ASCII. */
  function Digit(i: nat): Octet {
    BitsOf(0x30 + i, 8)
  }

  lemma DigitWords()
    ensures Spells(0x31, 0x31, 8) && Fits(0x31, 8)
    ensures Spells(0x32, 0x32, 8) && Fits(0x32, 8)
    ensures Spells(0x33, 0x33, 8) && Fits(0x33, 8)
    ensures Spells(0x34, 0x34, 8) && Fits(0x34, 8)
    ensures Spells(0x35, 0x35, 8) && Fits(0x35, 8)
    ensures Spells(0x36, 0x36, 8) && Fits(0x36, 8)
    ensures Spells(0x37, 0x37, 8) && Fits(0x37, 8)
    ensures Spells(0x38, 0x38, 8) && Fits(0x38, 8)
    ensures Spells(0x39, 0x39, 8) && Fits(0x39, 8)
  {
  }

  lemma DigitsCarried()
    ensures Carries(0x31, Digit(1)) && Carries(0x32, Digit(2)) && Carries(0x33, Digit(3))
    ensures Carries(0x34, Digit(4)) && Carries(0x35, Digit(5)) && Carries(0x36, Digit(6))
    ensures Carries(0x37, Digit(7)) && Carries(0x38, Digit(8)) && Carries(0x39, Digit(9))
  {
    hide Spells, Fits, Carries;
    DigitWords();
    SmallCarries(0x31, 0x31);
    SmallCarries(0x32, 0x32);
    SmallCarries(0x33, 0x33);
    SmallCarries(0x34, 0x34);
    SmallCarries(0x35, 0x35);
    SmallCarries(0x36, 0x36);
    SmallCarries(0x37, 0x37);
    SmallCarries(0x38, 0x38);
    SmallCarries(0x39, 0x39);
  }

  lemma DigitSteps()
    ensures ByteWord(0xffff_ffff, 0x31) == 0x6f0a_661c
    ensures ByteWord(0x6f0a_661c, 0x32) == 0x8caa_3b9f
    ensures ByteWord(0x8caa_3b9f, 0x33) == 0xef84_d04d
    ensures ByteWord(0xef84_d04d, 0x34) == 0x09c5_0b11
    ensures ByteWord(0x09c5_0b11, 0x35) == 0xe72e_dcca
    ensures ByteWord(0xe72e_dcca, 0x36) == 0xbeca_8e79
    ensures ByteWord(0xbeca_8e79, 0x37) == 0xedbd_6815
    ensures ByteWord(0xedbd_6815, 0x38) == 0x9f78_7f65
    ensures ByteWord(0x9f78_7f65, 0x39) == 0x1cf9_6d7c
  {
  }

  lemma DigitsRun(data: seq<Octet>)
    requires |data| == 9 && forall i :: 0 <= i < 9 ==> data[i] == Digit(i + 1)
    ensures Stands(data, 9, 0x1cf9_6d7c)
  {
    hide ByteWord, Stands, Carries, Digit;
    DigitsCarried();
    DigitSteps();
    Started(data);
    StepsOn(data, 0, 0xffff_ffff, 0x31);
    StepsOn(data, 1, 0x6f0a_661c, 0x32);
    StepsOn(data, 2, 0x8caa_3b9f, 0x33);
    StepsOn(data, 3, 0xef84_d04d, 0x34);
    StepsOn(data, 4, 0x09c5_0b11, 0x35);
    StepsOn(data, 5, 0xe72e_dcca, 0x36);
    StepsOn(data, 6, 0xbeca_8e79, 0x37);
    StepsOn(data, 7, 0xedbd_6815, 0x38);
    StepsOn(data, 8, 0x9f78_7f65, 0x39);
  }

  lemma CheckValueWord()
    ensures BitsOf(0xe306_9283, 32) == WordOf(XorWords(0x1cf9_6d7c, 0xffff_ffff))
  {
    assert Spells(0xe3, 0xe3, 8);
    assert Spells(0xe306, 0xe306, 16);
    assert Spells(0xe30692, 0xe30692, 24);
    SpelledBits(0xe306_9283, 0xe306_9283, 32);
  }

  /** The check value of CRC32C: that of "123456789". */
  lemma CheckValue()
    ensures CrcOf(Zeros(32), seq(9, i requires 0 <= i < 9 => Digit(i + 1))) == BitsOf(0xe306_9283, 32)
  {
    hide WordOf, XorWords, Stands, CrcOf, Digit;
    var data: seq<Octet> := seq(9, i requires 0 <= i < 9 => Digit(i + 1));
    DigitsRun(data);
    CheckValueWord();
    Finished(data, 0x1cf9_6d7c, 0xe306_9283);
  }

  lemma ZeroSteps0()
    ensures ByteWord(0xffff_ffff, 0) == 0xad82_acae
    ensures ByteWord(0xad82_acae, 0) == 0x0e9e_882d
    ensures ByteWord(0x0e9e_882d, 0) == 0x9f9b_5c85
    ensures ByteWord(0x9f9b_5c85, 0) == 0xb798_b438
    ensures ByteWord(0xb798_b438, 0) == 0xba8d_89ca
    ensures ByteWord(0xba8d_89ca, 0) == 0xa8d5_8375
    ensures ByteWord(0xa8d5_8375, 0) == 0x44c1_9592
    ensures ByteWord(0x44c1_9592, 0) == 0x73d7_4d75
  {
  }

  lemma ZeroSteps1()
    ensures ByteWord(0x73d7_4d75, 0) == 0x441a_975c
    ensures ByteWord(0x441a_975c, 0) == 0x1c22_0f94
    ensures ByteWord(0x1c22_0f94, 0) == 0x552e_4907
    ensures ByteWord(0x552e_4907, 0) == 0xd49f_4aa2
    ensures ByteWord(0xd49f_4aa2, 0) == 0x43a4_5a1b
    ensures ByteWord(0x43a4_5a1b, 0) == 0x8994_c80e
    ensures ByteWord(0x8994_c80e, 0) == 0xacf1_2bef
    ensures ByteWord(0xacf1_2bef, 0) == 0xbd8f_6515
  {
  }

  lemma ZeroSteps2()
    ensures ByteWord(0xbd8f_6515, 0) == 0x2512_5c16
    ensures ByteWord(0x2512_5c16, 0) == 0x36da_32db
    ensures ByteWord(0x36da_32db, 0) == 0x4a6c_90a2
    ensures ByteWord(0x4a6c_90a2, 0) == 0x433a_a9c1
    ensures ByteWord(0x433a_a9c1, 0) == 0x31a5_9f6e
    ensures ByteWord(0x31a5_9f6e, 0) == 0xcd8f_89da
    ensures ByteWord(0xcd8f_89da, 0) == 0xb8fc_461a
    ensures ByteWord(0xb8fc_461a, 0) == 0x7b04_1311
  {
  }

  lemma ZeroSteps3()
    ensures ByteWord(0x7b04_1311, 0) == 0xe24e_407f
    ensures ByteWord(0xe24e_407f, 0) == 0x2f69_2669
    ensures ByteWord(0x2f69_2669, 0) == 0x195b_2188
    ensures ByteWord(0x195b_2188, 0) == 0x0836_3896
    ensures ByteWord(0x0836_3896, 0) == 0xb401_2dc7
    ensures ByteWord(0xb401_2dc7, 0) == 0x17f3_4302
    ensures ByteWord(0x17f3_4302, 0) == 0xe12c_83b4
    ensures ByteWord(0xe12c_83b4, 0) == 0x756e_c955
  {
  }

  lemma ZeroStep(data: seq<Octet>, p: nat, x: bv32, y: bv32)
    requires p < |data| && Stands(data, p, x) && data[p] == Zeros(8) && ByteWord(x, 0) == y
    ensures Stands(data, p + 1, y)
  {
    hide ByteWord, Stands, Carries;
    ZeroOctet();
    StepsOn(data, p, x, 0);
  }

  lemma ZerosRun0(data: seq<Octet>)
    requires |data| == 32 && (forall i :: 0 <= i < |data| ==> data[i] == Zeros(8)) && Stands(data, 0, 0xffff_ffff)
    ensures Stands(data, 8, 0x73d7_4d75)
  {
    hide ByteWord, Stands;
    ZeroSteps0();
    ZeroStep(data, 0, 0xffff_ffff, 0xad82_acae);
    ZeroStep(data, 1, 0xad82_acae, 0x0e9e_882d);
    ZeroStep(data, 2, 0x0e9e_882d, 0x9f9b_5c85);
    ZeroStep(data, 3, 0x9f9b_5c85, 0xb798_b438);
    ZeroStep(data, 4, 0xb798_b438, 0xba8d_89ca);
    ZeroStep(data, 5, 0xba8d_89ca, 0xa8d5_8375);
    ZeroStep(data, 6, 0xa8d5_8375, 0x44c1_9592);
    ZeroStep(data, 7, 0x44c1_9592, 0x73d7_4d75);
  }

  lemma ZerosRun1(data: seq<Octet>)
    requires |data| == 32 && (forall i :: 0 <= i < |data| ==> data[i] == Zeros(8)) && Stands(data, 8, 0x73d7_4d75)
    ensures Stands(data, 16, 0xbd8f_6515)
  {
    hide ByteWord, Stands;
    ZeroSteps1();
    ZeroStep(data, 8, 0x73d7_4d75, 0x441a_975c);
    ZeroStep(data, 9, 0x441a_975c, 0x1c22_0f94);
    ZeroStep(data, 10, 0x1c22_0f94, 0x552e_4907);
    ZeroStep(data, 11, 0x552e_4907, 0xd49f_4aa2);
    ZeroStep(data, 12, 0xd49f_4aa2, 0x43a4_5a1b);
    ZeroStep(data, 13, 0x43a4_5a1b, 0x8994_c80e);
    ZeroStep(data, 14, 0x8994_c80e, 0xacf1_2bef);
    ZeroStep(data, 15, 0xacf1_2bef, 0xbd8f_6515);
  }

  lemma ZerosRun2(data: seq<Octet>)
    requires |data| == 32 && (forall i :: 0 <= i < |data| ==> data[i] == Zeros(8)) && Stands(data, 16, 0xbd8f_6515)
    ensures Stands(data, 24, 0x7b04_1311)
  {
    hide ByteWord, Stands;
    ZeroSteps2();
    ZeroStep(data, 16, 0xbd8f_6515, 0x2512_5c16);
    ZeroStep(data, 17, 0x2512_5c16, 0x36da_32db);
    ZeroStep(data, 18, 0x36da_32db, 0x4a6c_90a2);
    ZeroStep(data, 19, 0x4a6c_90a2, 0x433a_a9c1);
    ZeroStep(data, 20, 0x433a_a9c1, 0x31a5_9f6e);
    ZeroStep(data, 21, 0x31a5_9f6e, 0xcd8f_89da);
    ZeroStep(data, 22, 0xcd8f_89da, 0xb8fc_461a);
    ZeroStep(data, 23, 0xb8fc_461a, 0x7b04_1311);
  }

  lemma ZerosRun3(data: seq<Octet>)
    requires |data| == 32 && (forall i :: 0 <= i < |data| ==> data[i] == Zeros(8)) && Stands(data, 24, 0x7b04_1311)
    ensures Stands(data, 32, 0x756e_c955)
  {
    hide ByteWord, Stands;
    ZeroSteps3();
    ZeroStep(data, 24, 0x7b04_1311, 0xe24e_407f);
    ZeroStep(data, 25, 0xe24e_407f, 0x2f69_2669);
    ZeroStep(data, 26, 0x2f69_2669, 0x195b_2188);
    ZeroStep(data, 27, 0x195b_2188, 0x0836_3896);
    ZeroStep(data, 28, 0x0836_3896, 0xb401_2dc7);
    ZeroStep(data, 29, 0xb401_2dc7, 0x17f3_4302);
    ZeroStep(data, 30, 0x17f3_4302, 0xe12c_83b4);
    ZeroStep(data, 31, 0xe12c_83b4, 0x756e_c955);
  }

  lemma ZerosWord()
    ensures BitsOf(0x8a91_36aa, 32) == WordOf(XorWords(0x756e_c955, 0xffff_ffff))
  {
    assert Spells(0x8a, 0x8a, 8);
    assert Spells(0x8a91, 0x8a91, 16);
    assert Spells(0x8a9136, 0x8a9136, 24);
    SpelledBits(0x8a91_36aa, 0x8a91_36aa, 32);
  }

  lemma ZeroOctet()
    ensures Carries(0, Zeros(8))
  {
    ZeroBits(32);
    assert Widen(Zeros(8)) == Zeros(32);
  }

  /** Section B.4 of RFC 3720: 32 bytes of zeros. */
  lemma ZerosValue()
    ensures CrcOf(Zeros(32), seq(32, _ => Zeros(8))) == BitsOf(0x8a91_36aa, 32)
  {
    hide WordOf, XorWords, Stands, CrcOf;
    var zeros: seq<Octet> := seq(32, _ => Zeros(8));
    Started(zeros);
    ZerosRun0(zeros);
    ZerosRun1(zeros);
    ZerosRun2(zeros);
    ZerosRun3(zeros);
    ZerosWord();
    Finished(zeros, 0x756e_c955, 0x8a91_36aa);
  }
}
