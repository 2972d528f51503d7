/** The CRC of `Crc32c` as section 12.1 of RFC 3720 defines it: the remainder of a division of polynomials with
    coefficients modulo 2. */
module Crc32cRemainder {
  import opened Crc32c

  /** A polynomial is the set of its exponents. */
  type Polynomial = set<nat>

  const GENERATOR: Polynomial := {32, 28, 27, 26, 25, 23, 22, 20, 19, 18, 14, 13, 11, 10, 9, 8, 6, 0}

  function Plus(p: Polynomial, q: Polynomial): (r: Polynomial)
    ensures forall e :: e in r <==> ((e in p) != (e in q))
  {
    (p - q) + (q - p)
  }

  /** p times x^k. */
  function Shift(p: Polynomial, k: nat): Polynomial {
    set e | e in p :: e + k
  }

  lemma ShiftedTerm(p: Polynomial, k: nat, e: nat)
    ensures e in Shift(p, k) <==> e >= k && e - k in p
  {
    if e >= k && e - k in p {
      var d: nat := e - k;
      assert d in p && d + k == e;
    }
  }

  /** The terms of q times the generator that fall on exponent e. */
  function Terms(q: Polynomial, e: nat): set<nat> {
    set g | g in GENERATOR && g <= e && e - g in q
  }

  /** Modulo 2, an odd number of terms leaves one. */
  predicate OddTerms(q: Polynomial, e: nat) {
    |Terms(q, e)| % 2 == 1
  }

  /** q times the generator. */
  ghost function Product(q: Polynomial): (p: Polynomial)
    ensures forall e :: e in p <==> OddTerms(q, e)
  {
    var p: Polynomial := set k, g | k in q && g in GENERATOR && OddTerms(q, k + g) :: k + g;
    forall e: nat | OddTerms(q, e)
      ensures e in p
    {
      var g :| g in Terms(q, e);
      var k := e - g;
      assert k in q && k + g == e;
    }
    p
  }

  /** r is the remainder of p divided by the generator. */
  ghost predicate IsRemainder(p: Polynomial, r: Polynomial) {
    (forall e :: e in r ==> e < 32) && exists q :: p == Plus(Product(q), r)
  }

  // ----- Products

  lemma SizeOfPlus(a: set<nat>, b: set<nat>)
    ensures |Plus(a, b)| % 2 == (|a| + |b|) % 2
  {
    assert Plus(a, b) == (a - b) + (b - a) && (a - b) !! (b - a);
    assert a == (a - b) + (a * b) && b == (b - a) + (a * b);
    assert |a| == |a - b| + |a * b| && |b| == |b - a| + |a * b|;
  }

  lemma TermsOfPlus(p: Polynomial, q: Polynomial, e: nat)
    ensures OddTerms(Plus(p, q), e) == (OddTerms(p, e) != OddTerms(q, e))
  {
    assert Terms(Plus(p, q), e) == Plus(Terms(p, e), Terms(q, e));
    SizeOfPlus(Terms(p, e), Terms(q, e));
  }

  /** Multiplication distributes over addition. */
  lemma ProductOfPlus(p: Polynomial, q: Polynomial)
    ensures Product(Plus(p, q)) == Plus(Product(p), Product(q))
  {
    forall e: nat
      ensures e in Product(Plus(p, q)) <==> e in Plus(Product(p), Product(q))
    {
      TermsOfPlus(p, q, e);
    }
  }

  lemma TermsOfOne(k: nat, e: nat)
    ensures OddTerms({k}, e) <==> e >= k && e - k in GENERATOR
  {
    hide GENERATOR;
    if e >= k && e - k in GENERATOR {
      assert Terms({k}, e) == {e - k};
    } else {
      assert Terms({k}, e) == {};
    }
  }

  lemma ProductOfOne(k: nat)
    ensures Product({k}) == Shift(GENERATOR, k)
  {
    hide GENERATOR, OddTerms, Shift, Product;
    forall e: nat
      ensures e in Product({k}) <==> e in Shift(GENERATOR, k)
    {
      TermsOfOne(k, e);
      ShiftedTerm(GENERATOR, k, e);
    }
  }

  lemma ProductOfNone()
    ensures Product({}) == {}
  {
    forall e: nat
      ensures !OddTerms({}, e)
    {
      assert Terms({}, e) == {};
    }
  }

  lemma {:induction false} Largest(q: set<nat>) returns (m: nat)
    requires q != {}
    ensures m in q && forall e :: e in q ==> e <= m
    decreases |q|
  {
    var x :| x in q;
    if q == {x} {
      m := x;
    } else {
      var rest := q - {x};
      assert rest != {};
      var n := Largest(rest);
      m := if x > n then x else n;
      assert forall e :: e in q ==> e == x || e in rest;
    }
  }

  lemma GeneratorDegree()
    ensures 32 in GENERATOR && forall g :: g in GENERATOR ==> g <= 32
  {
  }

  lemma LeadingTerms(q: Polynomial, m: nat)
    requires m in q && forall e :: e in q ==> e <= m
    ensures OddTerms(q, m + 32)
  {
    hide GENERATOR;
    GeneratorDegree();
    assert Terms(q, m + 32) == {32};
  }

  lemma LeadingTerm(q: Polynomial, m: nat)
    requires m in q && forall e :: e in q ==> e <= m
    ensures m + 32 in Product(q)
  {
    hide OddTerms, Product;
    LeadingTerms(q, m);
  }

  /** A multiple of the generator has degree 32 or more, unless it is zero. */
  lemma MultipleIsLarge(q: Polynomial)
    requires forall e :: e in Product(q) ==> e < 32
    ensures q == {}
  {
    hide GENERATOR, OddTerms, Product;
    if q != {} {
      var m := Largest(q);
      LeadingTerm(q, m);
    }
  }

  /** A remainder is unique. */
  lemma RemainderIsUnique(p: Polynomial, r: Polynomial, s: Polynomial)
    requires IsRemainder(p, r) && IsRemainder(p, s)
    ensures r == s
  {
    var q :| p == Plus(Product(q), r);
    var t :| p == Plus(Product(t), s);
    ProductOfPlus(q, t);
    assert Product(Plus(q, t)) == Plus(r, s) by {
      forall e: nat
        ensures e in Plus(Product(q), Product(t)) <==> e in Plus(r, s)
      {
        assert e in p <==> e in Plus(Product(q), r);
        assert e in p <==> e in Plus(Product(t), s);
      }
    }
    MultipleIsLarge(Plus(q, t));
    ProductOfNone();
    assert forall e :: e in Plus(r, s) <==> ((e in r) != (e in s));
  }

  // ----- The register divides

  /** Bit j of a word is the coefficient of x^(31 - j). */
  function PolynomialOf(w: Word): Polynomial {
    set j | 0 <= j < 32 && w[j] :: 31 - j
  }

  lemma WordTerm(w: Word, e: nat)
    ensures e in PolynomialOf(w) <==> e < 32 && w[31 - e]
  {
    if e < 32 && w[31 - e] {
      var j := 31 - e;
      assert w[j] && 31 - j == e;
    }
  }

  /** The first bit sent has the highest power. */
  function MessagePolynomial(bits: Bits): Polynomial {
    set i | 0 <= i < |bits| && bits[i] :: |bits| - 1 - i
  }

  lemma MessageTerm(bits: Bits, e: nat)
    ensures e in MessagePolynomial(bits) <==> e < |bits| && bits[|bits| - 1 - e]
  {
    if e < |bits| && bits[|bits| - 1 - e] {
      var i := |bits| - 1 - e;
      assert bits[i] && |bits| - 1 - i == e;
    }
  }

  /** A register followed by message bits, as what is to be divided. */
  function Dividend(l: Word, bits: Bits): Polynomial {
    Plus(Shift(PolynomialOf(l), |bits|), Shift(MessagePolynomial(bits), 32))
  }

  /** One exponent of the dividend. */
  lemma DividendTerm(l: Word, bits: Bits, e: nat)
    ensures e in Dividend(l, bits) <==>
            ((|bits| <= e < |bits| + 32 && l[31 - (e - |bits|)]) != (32 <= e < |bits| + 32 && bits[|bits| - 1 - (e - 32)]))
  {
    hide Shift, PolynomialOf, MessagePolynomial;
    ShiftedTerm(PolynomialOf(l), |bits|, e);
    ShiftedTerm(MessagePolynomial(bits), 32, e);
    if e >= |bits| {
      WordTerm(l, e - |bits|);
    }
    if e >= 32 {
      MessageTerm(bits, e - 32);
    }
  }

  /** The low n bits of a number are the coefficients from exponent e down. */
  predicate Coefficients(v: nat, n: nat, e: int)
    decreases n
  {
    n == 0 || ((v % 2 == 1 <==> e in GENERATOR) && Coefficients(v / 2, n - 1, e - 1))
  }

  lemma {:induction false} CoefficientBits(v: nat, n: nat, e: int)
    requires Coefficients(v, n, e)
    ensures forall i :: 0 <= i < n ==> (BitsOf(v, n)[i] <==> e - i in GENERATOR)
    decreases n
  {
    hide GENERATOR;
    if n > 0 {
      CoefficientBits(v / 2, n - 1, e - 1);
    }
  }

  lemma Coefficients4()
    ensures Coefficients(0x8, 4, 3)
  {
  }

  lemma Coefficients8()
    ensures Coefficients(0x82, 8, 7)
  {
    Coefficients4();
  }

  lemma Coefficients12()
    ensures Coefficients(0x82f, 12, 11)
  {
    Coefficients8();
  }

  lemma Coefficients16()
    ensures Coefficients(0x82f6, 16, 15)
  {
    Coefficients12();
  }

  lemma Coefficients20()
    ensures Coefficients(0x82f63, 20, 19)
  {
    Coefficients16();
  }

  lemma Coefficients24()
    ensures Coefficients(0x82f63b, 24, 23)
  {
    Coefficients20();
  }

  lemma Coefficients28()
    ensures Coefficients(0x82f63b7, 28, 27)
  {
    Coefficients24();
  }

  lemma Coefficients32()
    ensures Coefficients(0x82f63b78, 32, 31)
  {
    Coefficients28();
  }

  lemma PolynomialIsGenerator(e: nat)
    requires e < 32
    ensures POLYNOMIAL[31 - e] <==> e in GENERATOR
  {
    hide GENERATOR;
    Coefficients32();
    CoefficientBits(0x82f63b78, 32, 31);
  }

  /** One clock multiplies by x and, if that reaches degree 32, subtracts the generator. */
  lemma ClockTerm(w: Word, e: nat)
    requires e <= 32
    ensures ((1 <= e && w[32 - e]) != (w[0] && e in GENERATOR)) <==> e < 32 && Clock(w)[31 - e]
  {
    hide GENERATOR, POLYNOMIAL;
    GeneratorDegree();
    if e < 32 {
      PolynomialIsGenerator(e);
    }
  }

  /** What the first message bit does to the dividend: nothing, or it takes away a multiple of the generator. */
  lemma FirstBitTerm(l: Word, bits: Bits, e: nat)
    requires bits != []
    ensures var x := Xor(l, Widen([bits[0]])); var n := |bits| - 1;
            e in Dividend(l, bits) <==>
            ((e in Dividend(Clock(x), bits[1..])) != (x[0] && e >= n && e - n in GENERATOR))
  {
    hide GENERATOR, Dividend, Clock;
    var x, rest := Xor(l, Widen([bits[0]])), bits[1..];
    var n := |rest|;
    GeneratorDegree();
    DividendTerm(l, bits, e);
    DividendTerm(Clock(x), rest, e);
    if n <= e <= n + 32 {
      ClockTerm(x, e - n);
    }
  }

  lemma NoBitsTerm(l: Word, e: nat)
    ensures e in Dividend(l, []) <==> e in PolynomialOf(l)
  {
    hide Dividend, PolynomialOf;
    DividendTerm(l, [], e);
    WordTerm(l, e);
  }

  lemma NoBitsLeft(l: Word)
    ensures Dividend(l, []) == Plus(Product({}), PolynomialOf(l))
  {
    hide Dividend, PolynomialOf, Product, OddTerms;
    ProductOfNone();
    forall e: nat
      ensures e in Dividend(l, []) <==> e in PolynomialOf(l)
    {
      NoBitsTerm(l, e);
    }
  }

  /** One more term of the quotient. */
  lemma QuotientTerm(q: Polynomial, n: nat, e: nat)
    ensures e in Product(Plus(q, {n})) <==> ((e in Product(q)) != (e >= n && e - n in GENERATOR))
  {
    hide GENERATOR, Product, Shift;
    ProductOfPlus(q, {n});
    ProductOfOne(n);
    ShiftedTerm(GENERATOR, n, e);
  }

  /** The register divides: what it is left with is the dividend less a multiple of the generator. */
  lemma {:induction false} RegisterDivides(l: Word, bits: Bits) returns (q: Polynomial)
    ensures Dividend(l, bits) == Plus(Product(q), PolynomialOf(Register(l, bits)))
    decreases bits
  {
    hide GENERATOR, Dividend, PolynomialOf, Product, Xor, Widen, Clock;
    if bits == [] {
      NoBitsLeft(l);
      q := {};
    } else {
      var x, n := Xor(l, Widen([bits[0]])), |bits| - 1;
      var p := RegisterDivides(Clock(x), bits[1..]);
      q := if x[0] then Plus(p, {n}) else p;
      forall e: nat
        ensures e in Dividend(l, bits) <==> e in Plus(Product(q), PolynomialOf(Register(l, bits)))
      {
        FirstBitTerm(l, bits, e);
        QuotientTerm(p, n, e);
        assert e in Dividend(Clock(x), bits[1..]) <==> e in Plus(Product(p), PolynomialOf(Register(l, bits)));
      }
    }
  }

  lemma SamePolynomial(v: Word, w: Word)
    requires PolynomialOf(v) == PolynomialOf(w)
    ensures v == w
  {
    hide PolynomialOf;
    forall j | 0 <= j < 32
      ensures v[j] == w[j]
    {
      WordTerm(v, 31 - j);
      WordTerm(w, 31 - j);
    }
  }

  /** The complement of the CRC is the remainder of the message, shifted up by 32 with the complement of the starting CRC
      added to its first bits, divided by the generator, and no other word's is.  With a starting CRC of zero those first 32
      bits are complemented. */
  lemma CrcIsRemainder(crc: Word, data: seq<Octet>, w: Word)
    ensures w == CrcOf(crc, data) <==>
            IsRemainder(Dividend(Xor(crc, Ones(32)), MessageBits(data)), PolynomialOf(Xor(w, Ones(32))))
  {
    var l, bits := Xor(crc, Ones(32)), MessageBits(data);
    var r := Register(l, bits);
    var q := RegisterDivides(l, bits);
    Complements(r, w);
    hide Dividend, PolynomialOf, Product, Xor;
    assert forall e :: e in PolynomialOf(r) ==> e < 32 by {
      forall e | e in PolynomialOf(r)
        ensures e < 32
      {
        WordTerm(r, e);
      }
    }
    assert IsRemainder(Dividend(l, bits), PolynomialOf(r));
    if IsRemainder(Dividend(l, bits), PolynomialOf(Xor(w, Ones(32)))) {
      RemainderIsUnique(Dividend(l, bits), PolynomialOf(r), PolynomialOf(Xor(w, Ones(32))));
      SamePolynomial(r, Xor(w, Ones(32)));
    }
  }

  lemma Complements(r: Word, w: Word)
    ensures w == Xor(r, Ones(32)) <==> Xor(w, Ones(32)) == r
  {
    XorLaws(r, Ones(32), r);
    XorLaws(w, Ones(32), r);
  }
}
