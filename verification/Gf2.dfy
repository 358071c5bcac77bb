/** Polynomials over GF(2), long division by the IEEE 802.3 generator, and the theorem that
    the register computes the remainder clause 3.2.9 of IEEE Std 802.3 asks for. */
module Gf2 {
  import opened Crc32
  import opened CrcDetect
  import opened CrcPowers

  /** A polynomial is the set of exponents with coefficient 1. */
  type Poly = set<nat>

  function Add(p: Poly, q: Poly): Poly { (p - q) + (q - p) }

  ghost function TimesX(p: Poly): (r: Poly)
    ensures forall i: nat :: i in r <==> i > 0 && i - 1 in p
  {
    set i | i in p :: i + 1
  }

  function Scale(b: bool, p: Poly): Poly { if b then p else {} }

  /** q * g by Horner's rule; the first bit of q is its highest coefficient. */
  ghost function Product(q: BitString, g: Poly): Poly {
    if q == [] then {} else Add(TimesX(Product(q[..|q| - 1], g)), Scale(q[|q| - 1], g))
  }

  /** The polynomial of a bit string, first bit highest. */
  ghost function FromBits(m: BitString): Poly { Product(m, {0}) }

  ghost function TimesXn(p: Poly, n: nat): Poly {
    if n == 0 then p else TimesX(TimesXn(p, n - 1))
  }

  ghost predicate DegreeBelow(p: Poly, n: nat) { forall i :: i in p ==> i < n }

  /** Clause 3.2.9: x^32 + x^26 + x^23 + x^22 + x^16 + x^12 + x^11 + x^10 + x^8 + x^7 + x^5 + x^4 + x^2 + x + 1. */
  function Generator(): Poly { {32, 26, 23, 22, 16, 12, 11, 10, 8, 7, 5, 4, 2, 1, 0} }

  /** The register read as a polynomial of degree below 32: x^i is bit 31 - i. */
  ghost function Register(c: bv32): (p: Poly)
    ensures forall i: nat :: i in p <==> i < 32 && Has(c, i)
  {
    set i: nat | i < 32 && Has(c, i)
  }

  ghost predicate IsRemainder(dividend: Poly, r: Poly) {
    DegreeBelow(r, 32) && exists q :: dividend == Add(Product(q, Generator()), r)
  }

  // ------------------------------------------------------------ ring identities

  lemma TimesXAdd(p: Poly, q: Poly)
    ensures TimesX(Add(p, q)) == Add(TimesX(p), TimesX(q))
  {
  }

  lemma AddShuffle(a: Poly, b: Poly, c: Poly, d: Poly)
    ensures Add(Add(a, b), Add(c, d)) == Add(Add(a, c), Add(b, d))
  {
  }

  lemma ProductSnoc(q: BitString, b: bool, g: Poly)
    ensures Product(q + [b], g) == Add(TimesX(Product(q, g)), Scale(b, g))
  {
    assert (q + [b])[..|q|] == q;
  }

  // ------------------------------------------------- one shift is one division step

  lemma Coefficients0()
    ensures Has(GENERATOR, 0) && Has(GENERATOR, 1) && Has(GENERATOR, 2) && !Has(GENERATOR, 3)
    ensures Has(GENERATOR, 4) && Has(GENERATOR, 5) && !Has(GENERATOR, 6) && Has(GENERATOR, 7)
  {
    Masks0();
  }

  lemma Coefficients1()
    ensures Has(GENERATOR, 8) && !Has(GENERATOR, 9) && Has(GENERATOR, 10) && Has(GENERATOR, 11)
    ensures Has(GENERATOR, 12) && !Has(GENERATOR, 13) && !Has(GENERATOR, 14) && !Has(GENERATOR, 15)
  {
    Masks1();
  }

  lemma Coefficients2()
    ensures Has(GENERATOR, 16) && !Has(GENERATOR, 17) && !Has(GENERATOR, 18) && !Has(GENERATOR, 19)
    ensures !Has(GENERATOR, 20) && !Has(GENERATOR, 21) && Has(GENERATOR, 22) && Has(GENERATOR, 23)
  {
    Masks2();
  }

  lemma Coefficients3()
    ensures !Has(GENERATOR, 24) && !Has(GENERATOR, 25) && Has(GENERATOR, 26) && !Has(GENERATOR, 27)
    ensures !Has(GENERATOR, 28) && !Has(GENERATOR, 29) && !Has(GENERATOR, 30) && !Has(GENERATOR, 31)
  {
    Masks3();
  }

  lemma CoefficientReflected0(i: nat)
    requires i < 8
    ensures Has(GENERATOR, i) <==> i in Generator()
  {
    Coefficients0();
    hide Has;
  }

  lemma CoefficientReflected1(i: nat)
    requires 8 <= i < 16
    ensures Has(GENERATOR, i) <==> i in Generator()
  {
    Coefficients1();
    hide Has;
  }

  lemma CoefficientReflected2(i: nat)
    requires 16 <= i < 24
    ensures Has(GENERATOR, i) <==> i in Generator()
  {
    Coefficients2();
    hide Has;
  }

  lemma CoefficientReflected3(i: nat)
    requires 24 <= i < 32
    ensures Has(GENERATOR, i) <==> i in Generator()
  {
    Coefficients3();
    hide Has;
  }

  lemma CoefficientReflected(i: nat)
    requires i < 32
    ensures Has(GENERATOR, i) <==> i in Generator()
  {
    hide Has, Generator;
    if i < 8 {
      CoefficientReflected0(i);
    } else if i < 16 {
      CoefficientReflected1(i);
    } else if i < 24 {
      CoefficientReflected2(i);
    } else {
      CoefficientReflected3(i);
    }
  }

  /** The source's constant 0xedb88320 is the reflected generator without its leading term. */
  lemma GeneratorIsReflected()
    ensures Register(GENERATOR) == Generator() - {32}
  {
    GeneratorDegree();
    hide Has, Generator;
    forall i: nat
      ensures i in Register(GENERATOR) <==> i in Generator() - {32}
    {
      if i < 32 {
        CoefficientReflected(i);
      }
    }
  }

  lemma HasZero(i: nat)
    ensures !Has(0, i)
  {
    var m := CoefficientMask(i);
    assert 0 & m == 0;
  }

  lemma HasHalfAt(v: bv32, i: nat)
    requires i < 32
    ensures Has(Half(v), i) == (i > 0 && Has(v, i - 1))
  {
    HasHalf(v, if i == 0 then 0 else i - 1);
  }

  lemma WhenHas(b: bool, k: bv32, i: nat)
    ensures Has(When(b, k), i) == (b && Has(k, i))
  {
    HasZero(i);
  }

  lemma StepCoefficient(c: bv32, i: nat)
    requires i < 32
    ensures Has(Step(c), i) == ((i > 0 && Has(c, i - 1)) != (IsOdd(c) && Has(GENERATOR, i)))
  {
    StepSplits(c);
    HasLinear(Half(c), When(IsOdd(c), GENERATOR), i);
    HasHalfAt(c, i);
    WhenHas(IsOdd(c), GENERATOR, i);
    hide Has, Half, When, Xor, Step;
  }

  /** Multiplying the register by x and subtracting the generator when x^32 appears. */
  lemma StepDivides(c: bv32)
    ensures TimesX(Register(c)) == Add(Register(Step(c)), Scale(IsOdd(c), Generator()))
  {
    GeneratorIsReflected();
    LastCoefficient(c);
    hide Has, Step, IsOdd, Generator;
    assert 32 in Generator() && DegreeBelow(Generator() - {32}, 32) by {
      GeneratorDegree();
    }
    forall i: nat
      ensures i in TimesX(Register(c)) <==> i in Add(Register(Step(c)), Scale(IsOdd(c), Generator()))
    {
      assert i in Generator() - {32} <==> i < 32 && Has(GENERATOR, i);
      if i < 32 {
        StepCoefficient(c, i);
      }
    }
  }

  lemma GeneratorDegree()
    ensures 32 in Generator() && DegreeBelow(Generator() - {32}, 32) && DegreeBelow(Generator(), 33)
  {
  }

  lemma OneMeets(m: bv32)
    ensures Meets(1, m) == (m & 1 != 0)
  {
    MeetsIs(1, m);
    assert 1 & m == m & 1;
  }

  lemma BitWordHas(b: bool, i: nat)
    requires i < 32
    ensures Has(BitWord(b), i) == (b && i == 31)
  {
    if !b {
      HasZero(i);
    } else if i < 31 {
      MaskStaysClear(i);
      OneMeets(CoefficientMask(i));
    } else {
      MaskAtEnd();
      OneMeets(1);
    }
  }

  lemma RegisterXor(c: bv32, d: bv32)
    ensures Register(Xor(c, d)) == Add(Register(c), Register(d))
  {
    forall i: nat
      ensures i in Register(Xor(c, d)) <==> i in Add(Register(c), Register(d))
    {
      HasLinear(c, d, i);
      hide Has, Xor;
    }
  }

  lemma RegisterBit(b: bool)
    ensures Register(BitWord(b)) == Scale(b, {31})
  {
    hide Has;
    forall i: nat
      ensures i in Register(BitWord(b)) <==> i in Scale(b, {31})
    {
      if i < 32 {
        BitWordHas(b, i);
      }
    }
  }

  // ------------------------------------------------------------- the whole division

  /** x^32 M(x), plus the polynomial of the start value moved in front of the message. */
  ghost function Dividend(start: bv32, m: BitString): Poly {
    Add(TimesXn(Register(start), |m|), TimesXn(FromBits(m), 32))
  }

  function Quotient(c: bv32, m: BitString): BitString {
    if m == [] then []
    else
      var last := |m| - 1;
      Quotient(c, m[..last]) + [IsOdd(Xor(Run(c, m[..last]), BitWord(m[last])))]
  }

  lemma RunSnoc(c: bv32, m: BitString, b: bool)
    ensures Run(c, m + [b]) == Step(Xor(Run(c, m), BitWord(b)))
  {
    RunConcat(c, m, [b]);
    assert [b][1..] == [];
    hide Step, Xor, BitWord;
    assert Run(Run(c, m), [b]) == Run(Step(Xor(Run(c, m), BitWord(b))), []);
  }

  lemma {:induction false} TimesXnAdd(p: Poly, q: Poly, n: nat)
    ensures TimesXn(Add(p, q), n) == Add(TimesXn(p, n), TimesXn(q, n))
  {
    if n != 0 {
      TimesXnAdd(p, q, n - 1);
      TimesXAdd(TimesXn(p, n - 1), TimesXn(q, n - 1));
    }
  }

  lemma {:induction false} TimesXnAt(p: Poly, n: nat)
    ensures forall i: nat :: i in TimesXn(p, n) <==> i >= n && i - n in p
  {
    if n != 0 {
      TimesXnAt(p, n - 1);
    }
  }

  lemma {:induction false} TimesXnCommutes(p: Poly, n: nat)
    ensures TimesXn(TimesX(p), n) == TimesX(TimesXn(p, n))
  {
    if n != 0 {
      TimesXnCommutes(p, n - 1);
    }
  }

  lemma ShiftedUnit(b: bool, n: nat)
    ensures TimesXn(Scale(b, {0}), n) == Scale(b, {n})
  {
    TimesXnAt(Scale(b, {0}), n);
    hide TimesXn;
    forall i: nat
      ensures i in TimesXn(Scale(b, {0}), n) <==> i in Scale(b, {n})
    {
    }
  }

  lemma FromBitsSnoc(m: BitString, b: bool, n: nat)
    ensures TimesXn(FromBits(m + [b]), n) == Add(TimesX(TimesXn(FromBits(m), n)), Scale(b, {n}))
  {
    ProductSnoc(m, b, {0});
    hide Product, TimesXn;
    TimesXnAdd(TimesX(FromBits(m)), Scale(b, {0}), n);
    TimesXnCommutes(FromBits(m), n);
    ShiftedUnit(b, n);
  }

  lemma DividendSnoc(start: bv32, m: BitString, b: bool)
    ensures Dividend(start, m + [b]) == Add(TimesX(Dividend(start, m)), Scale(b, {32}))
  {
    var r, f := TimesXn(Register(start), |m|), TimesXn(FromBits(m), 32);
    FromBitsSnoc(m, b, 32);
    assert |m + [b]| == |m| + 1;
    assert TimesXn(Register(start), |m| + 1) == TimesX(r);
    TimesXAdd(r, f);
    hide TimesXn, Register, FromBits, TimesX;
    Regroup(TimesX(r), TimesX(f), Scale(b, {32}), TimesX(f), Scale(b, {32}));
  }

  lemma ShiftIn(r: bv32, b: bool)
    ensures
      var t := Xor(r, BitWord(b));
      Add(TimesX(Register(r)), Scale(b, {32})) == Add(Scale(IsOdd(t), Generator()), Register(Step(t)))
  {
    var t := Xor(r, BitWord(b));
    RegisterXor(r, BitWord(b));
    RegisterBit(b);
    StepDivides(t);
    hide Register, Step, Generator, IsOdd, Xor, BitWord;
    TimesXAdd(Register(r), Scale(b, {31}));
    assert TimesX(Scale(b, {31})) == Scale(b, {32});
    assert forall p: Poly, q: Poly {:trigger Add(p, q)} :: Add(p, q) == Add(q, p);
  }

  /** Long division: quotient times generator plus register is the dividend. */
  lemma {:induction false} RegisterDivides(start: bv32, m: BitString)
    ensures Dividend(start, m) == Add(Product(Quotient(start, m), Generator()), Register(Run(start, m)))
  {
    if m == [] {
      NothingDivided(start);
    } else {
      var last := |m| - 1;
      var prefix, b := m[..last], m[last];
      assert m == prefix + [b];
      var r := Run(start, prefix);
      var t := Xor(r, BitWord(b));
      var q, p := Quotient(start, prefix), Product(Quotient(start, prefix), Generator());
      RegisterDivides(start, prefix);
      DividendSnoc(start, prefix, b);
      RunSnoc(start, prefix, b);
      ProductSnoc(q, IsOdd(t), Generator());
      ShiftIn(r, b);
      TimesXAdd(p, Register(r));
      assert Quotient(start, m) == q + [IsOdd(t)];
      hide *;
      Regroup(TimesX(p), TimesX(Register(r)), Scale(b, {32}), Scale(IsOdd(t), Generator()), Register(Step(t)));
    }
  }

  lemma Regroup(p: Poly, x: Poly, b: Poly, g: Poly, r: Poly)
    requires Add(x, b) == Add(g, r)
    ensures Add(Add(p, x), b) == Add(Add(p, g), r)
  {
    forall i: nat
      ensures i in Add(Add(p, x), b) <==> i in Add(Add(p, g), r)
    {
      assert i in Add(x, b) <==> i in Add(g, r);
    }
  }

  lemma NothingDivided(start: bv32)
    ensures Dividend(start, []) == Add(Product([], Generator()), Register(Run(start, [])))
  {
    TimesXnAt({}, 32);
    hide Register;
    assert FromBits([]) == {};
    assert TimesXn({}, 32) == {};
    assert Run(start, []) == start;
  }

  // ------------------------------------------------------ uniqueness of remainders

  ghost predicate Monic(g: Poly, n: nat) { n in g && DegreeBelow(g, n + 1) }

  lemma {:induction false} ProductOfZeros(q: BitString, g: Poly)
    requires forall k :: 0 <= k < |q| ==> !q[k]
    ensures Product(q, g) == {}
  {
    if q != [] {
      ProductOfZeros(q[..|q| - 1], g);
    }
  }

  /** A nonzero multiple of a degree-n polynomial has degree at least n. */
  lemma {:induction false} ProductDegree(q: BitString, g: Poly, n: nat, f: nat)
    requires Monic(g, n) && f < |q| && q[f] && forall k :: 0 <= k < f ==> !q[k]
    ensures
      var d := n + |q| - 1 - f;
      d in Product(q, g) && DegreeBelow(Product(q, g), d + 1)
  {
    var last := |q| - 1;
    if f == last {
      ProductOfZeros(q[..last], g);
    } else {
      var p := Product(q[..last], g);
      ProductDegree(q[..last], g, n, f);
      DegreeGrows(p, g, n, n + last - 1 - f, q[last]);
    }
  }

  lemma DegreeGrows(p: Poly, g: Poly, n: nat, d: nat, b: bool)
    requires Monic(g, n) && d >= n && d in p && DegreeBelow(p, d + 1)
    ensures
      var r := Add(TimesX(p), Scale(b, g));
      d + 1 in r && DegreeBelow(r, d + 2)
  {
    assert d + 1 !in g;
  }

  lemma {:induction false} ProductXor(a: BitString, b: BitString, g: Poly)
    requires |a| == |b|
    ensures Product(XorBits(a, b), g) == Add(Product(a, g), Product(b, g))
  {
    if a != [] {
      var last := |a| - 1;
      var a', b' := a[..last], b[..last];
      ProductXor(a', b', g);
      assert XorBits(a, b)[..last] == XorBits(a', b');
      TimesXAdd(Product(a', g), Product(b', g));
      ScaleXor(a[last], b[last], g);
      AddShuffle(TimesX(Product(a', g)), TimesX(Product(b', g)), Scale(a[last], g), Scale(b[last], g));
      hide TimesX;
    }
  }

  lemma ScaleXor(a: bool, b: bool, g: Poly)
    ensures Scale(a != b, g) == Add(Scale(a, g), Scale(b, g))
  {
  }

  lemma {:induction false} ProductPads(q: BitString, g: Poly, n: nat)
    ensures Product(Zeros(n) + q, g) == Product(q, g)
  {
    if q == [] {
      assert Zeros(n) + q == Zeros(n);
      ProductOfZeros(Zeros(n), g);
    } else {
      ProductPads(q[..|q| - 1], g, n);
      assert (Zeros(n) + q)[..|Zeros(n) + q| - 1] == Zeros(n) + q[..|q| - 1];
    }
  }

  /** Two multiples of the generator that differ by low-degree polynomials are equal. */
  lemma MultiplesApart(q: BitString, r: BitString, g: Poly, n: nat)
    requires |q| == |r| && Monic(g, n) && DegreeBelow(Add(Product(q, g), Product(r, g)), n)
    ensures Product(q, g) == Product(r, g)
  {
    var x := XorBits(q, r);
    ProductXor(q, r, g);
    if exists k :: 0 <= k < |x| && x[k] {
      var f := FirstSet(x);
      ProductDegree(x, g, n, f);
      assert false;
    } else {
      ProductOfZeros(x, g);
      AddIsEmpty(Product(q, g), Product(r, g));
    }
  }

  lemma AddIsEmpty(p: Poly, q: Poly)
    requires Add(p, q) == {}
    ensures p == q
  {
    assert forall i :: i in p && i !in q ==> i in Add(p, q);
    assert forall i :: i in q && i !in p ==> i in Add(p, q);
  }

  lemma {:induction false} FirstSet(x: BitString) returns (f: nat)
    requires exists k :: 0 <= k < |x| && x[k]
    ensures f < |x| && x[f] && forall k :: 0 <= k < f ==> !x[k]
  {
    f := 0;
    while !x[f]
      invariant f < |x| && forall k :: 0 <= k < f ==> !x[k]
      decreases |x| - f
    {
      f := f + 1;
    }
  }

  lemma AddSolve(a: Poly, r: Poly, b: Poly, s: Poly)
    requires Add(a, r) == Add(b, s)
    ensures Add(a, b) == Add(r, s)
  {
    forall i: nat
      ensures i in Add(a, b) <==> i in Add(r, s)
    {
      assert i in Add(a, r) <==> i in Add(b, s);
    }
  }

  /** The remainder of a division by the generator is unique. */
  lemma RemainderUnique(dividend: Poly, r: Poly, s: Poly)
    requires IsRemainder(dividend, r) && IsRemainder(dividend, s)
    ensures r == s
  {
    var g := Generator();
    var a :| dividend == Add(Product(a, g), r);
    var b :| dividend == Add(Product(b, g), s);
    var a', b' := Zeros(|b|) + a, Zeros(|a|) + b;
    ProductPads(a, g, |b|);
    ProductPads(b, g, |a|);
    GeneratorDegree();
    AddSolve(Product(a', g), r, Product(b', g), s);
    MultiplesApart(a', b', g, 32);
    assert Add(Product(a', g), Product(b', g)) == {};
    AddIsEmpty(r, s);
  }

  // ------------------------------------------------------------------ the checksum

  /** Clause 3.2.9 a): the first 32 bits of the message are complemented. */
  function ComplementFirst32(m: BitString): (c: BitString)
    ensures |c| == |m|
  {
    seq(|m|, i requires 0 <= i < |m| => if i < 32 then !m[i] else m[i])
  }

  lemma {:induction false} FromBitsAt(m: BitString)
    ensures forall i: nat :: i in FromBits(m) <==> i < |m| && m[|m| - 1 - i]
  {
    if m != [] {
      var last := |m| - 1;
      FromBitsAt(m[..last]);
      var p, q := FromBits(m[..last]), Scale(m[last], {0});
      assert FromBits(m) == Add(TimesX(p), q);
      hide FromBits;
      forall i: nat
        ensures i in Add(TimesX(p), q) <==> i < |m| && m[last - i]
      {
        if i > 0 {
          assert i in TimesX(p) <==> i - 1 in p;
        }
      }
    }
  }

  lemma OnesHas(i: nat)
    requires i < 32
    ensures Has(ONES, i)
  {
    if i < 31 {
      MaskStaysClear(i);
    } else {
      MaskAtEnd();
    }
    AllMeets(CoefficientMask(i));
    if i > 0 {
      MaskNotZero(i);
    }
  }

  lemma MaskNotZero(i: nat)
    requires 0 < i < 32
    ensures CoefficientMask(i) != 0
  {
    MaskStaysClear(i - 1);
  }

  lemma AllMeets(m: bv32)
    ensures Meets(ONES, m) == (m != 0)
  {
    MeetsIs(0xffff_ffff, m);
    assert 0xffff_ffff & m == m;
  }

  /** Starting from all ones is complementing the first 32 bits, for messages that have them. */
  lemma DividendOfFrame(m: BitString)
    requires |m| >= 32
    ensures Dividend(ONES, m) == TimesXn(FromBits(ComplementFirst32(m)), 32)
  {
    FromBitsAt(m);
    FromBitsAt(ComplementFirst32(m));
    TimesXnAt(Register(ONES), |m|);
    TimesXnAt(FromBits(m), 32);
    TimesXnAt(FromBits(ComplementFirst32(m)), 32);
    OnesIsFull();
    hide TimesXn, FromBits, Register;
    var k := |m|;
    forall i: nat
      ensures i in Dividend(ONES, m) <==> i in TimesXn(FromBits(ComplementFirst32(m)), 32)
    {
      assert i in TimesXn(Register(ONES), k) <==> k <= i < k + 32;
      if 32 <= i < k + 32 {
        assert i - 32 in FromBits(m) <==> m[k - 1 - (i - 32)];
        assert i - 32 in FromBits(ComplementFirst32(m)) <==> ComplementFirst32(m)[k - 1 - (i - 32)];
      }
    }
  }

  lemma OnesIsFull()
    ensures forall i: nat :: i in Register(ONES) <==> i < 32
  {
    forall i: nat
      ensures i in Register(ONES) <==> i < 32
    {
      if i < 32 {
        OnesHas(i);
      }
    }
  }

  /** The checksum of a payload is the complement of the remainder of the long division,
      and nothing else is. */
  lemma CrcIsRemainder(data: seq<bv8>, r: Poly)
    ensures IsRemainder(Dividend(ONES, Bits(data)), r) <==> r == Register(Xor(Crc(data), ONES))
  {
    var m := Bits(data);
    var c := Run(ONES, m);
    assert Xor(Crc(data), ONES) == c by {
      XorRotate(c, ONES, ONES);
      XorZero(ONES);
      XorZero(c);
    }
    RegisterDivides(ONES, m);
    hide Register, Dividend, Bits, Crc, Run, Xor;
    assert IsRemainder(Dividend(ONES, m), Register(c));
    if IsRemainder(Dividend(ONES, m), r) {
      RemainderUnique(Dividend(ONES, m), r, Register(c));
    }
  }

  lemma NoHighCoefficients(e: bv32)
    requires !Meets(e, 0x8000_0000) && !Meets(e, 0x4000_0000) && !Meets(e, 0x2000_0000) && !Meets(e, 0x1000_0000)
    requires !Meets(e, 0x0800_0000) && !Meets(e, 0x0400_0000) && !Meets(e, 0x0200_0000) && !Meets(e, 0x0100_0000)
    requires !Meets(e, 0x0080_0000) && !Meets(e, 0x0040_0000) && !Meets(e, 0x0020_0000) && !Meets(e, 0x0010_0000)
    requires !Meets(e, 0x0008_0000) && !Meets(e, 0x0004_0000) && !Meets(e, 0x0002_0000) && !Meets(e, 0x0001_0000)
    ensures e & 0xffff_0000 == 0
  {
  }

  lemma NoLowCoefficients(e: bv32)
    requires !Meets(e, 0x0000_8000) && !Meets(e, 0x0000_4000) && !Meets(e, 0x0000_2000) && !Meets(e, 0x0000_1000)
    requires !Meets(e, 0x0000_0800) && !Meets(e, 0x0000_0400) && !Meets(e, 0x0000_0200) && !Meets(e, 0x0000_0100)
    requires !Meets(e, 0x0000_0080) && !Meets(e, 0x0000_0040) && !Meets(e, 0x0000_0020) && !Meets(e, 0x0000_0010)
    requires !Meets(e, 0x0000_0008) && !Meets(e, 0x0000_0004) && !Meets(e, 0x0000_0002) && !Meets(e, 0x0000_0001)
    ensures e & 0xffff == 0
  {
  }

  lemma NoCoefficients(e: bv32)
    requires forall i :: 0 <= i < 32 ==> !Has(e, i)
    ensures e == 0
  {
    Masks0();
    assert !Has(e, 0) && !Has(e, 1) && !Has(e, 2) && !Has(e, 3) && !Has(e, 4) && !Has(e, 5) && !Has(e, 6) && !Has(e, 7);
    Masks1();
    assert !Has(e, 8) && !Has(e, 9) && !Has(e, 10) && !Has(e, 11);
    assert !Has(e, 12) && !Has(e, 13) && !Has(e, 14) && !Has(e, 15);
    Masks2();
    assert !Has(e, 16) && !Has(e, 17) && !Has(e, 18) && !Has(e, 19);
    assert !Has(e, 20) && !Has(e, 21) && !Has(e, 22) && !Has(e, 23);
    Masks3();
    assert !Has(e, 24) && !Has(e, 25) && !Has(e, 26) && !Has(e, 27);
    assert !Has(e, 28) && !Has(e, 29) && !Has(e, 30) && !Has(e, 31);
    NoHighCoefficients(e);
    NoLowCoefficients(e);
    NoBits(e);
  }

  lemma NoBits(e: bv32)
    requires e & 0xffff_0000 == 0 && e & 0xffff == 0
    ensures e == 0
  {
  }

  lemma RegisterInjective(c: bv32, d: bv32)
    requires Register(c) == Register(d)
    ensures c == d
  {
    RegisterXor(c, d);
    XorIsZero(c, d);
    forall i | 0 <= i < 32
      ensures !Has(Xor(c, d), i)
    {
      assert i in Register(c) <==> i in Register(d);
      assert i !in Register(Xor(c, d));
    }
    NoCoefficients(Xor(c, d));
  }

  /** The checksum is the one word whose complement is the remainder of the long division. */
  lemma CrcIsTheRemainder(data: seq<bv8>, w: bv32)
    ensures IsRemainder(Dividend(ONES, Bits(data)), Register(Xor(w, ONES))) <==> w == Crc(data)
  {
    CrcIsRemainder(data, Register(Xor(w, ONES)));
    if Register(Xor(w, ONES)) == Register(Xor(Crc(data), ONES)) {
      RegisterInjective(Xor(w, ONES), Xor(Crc(data), ONES));
      XorCancel(w, Crc(data), ONES);
      XorIsZero(Xor(w, ONES), Xor(Crc(data), ONES));
      XorIsZero(w, Crc(data));
    }
    hide *;
  }

  // ------------------------------------------------------- what the check does not see

  /** p is a polynomial times the generator. */
  ghost predicate IsMultiple(p: Poly) { exists q :: p == Product(q, Generator()) }

  lemma ProductOf(p: Poly, q: BitString)
    requires p == Product(q, Generator())
    ensures IsMultiple(p)
  {
  }

  /** The generator ends in 1, so the last bit of a quotient is the product's constant term. */
  lemma ConstantTerm(q: BitString)
    requires q != []
    ensures 0 in Product(q, Generator()) <==> q[|q| - 1]
  {
    var p := Product(q[..|q| - 1], Generator());
    hide Product;
    assert 0 in Generator();
    assert 0 !in TimesX(p);
  }

  lemma TimesXInjective(p: Poly, q: Poly)
    requires TimesX(p) == TimesX(q)
    ensures p == q
  {
    forall i: nat
      ensures i in p <==> i in q
    {
      assert i in p <==> i + 1 in TimesX(p);
      assert i in q <==> i + 1 in TimesX(q);
    }
  }

  /** The generator has no factor x. */
  lemma MultipleOfX(p: Poly)
    ensures IsMultiple(TimesX(p)) <==> IsMultiple(p)
  {
    if IsMultiple(p) {
      var q :| p == Product(q, Generator());
      ProductSnoc(q, false, Generator());
      ProductOf(TimesX(p), q + [false]);
    }
    if IsMultiple(TimesX(p)) {
      var q :| TimesX(p) == Product(q, Generator());
      if q == [] {
        assert TimesX({}) == {};
        TimesXInjective(p, {});
        ProductOf(p, []);
      } else {
        var less := q[..|q| - 1];
        ConstantTerm(q);
        assert q == less + [false];
        ProductSnoc(less, false, Generator());
        TimesXInjective(p, Product(less, Generator()));
        ProductOf(p, less);
      }
    }
  }

  lemma {:induction false} MultipleOfXn(p: Poly, n: nat)
    ensures IsMultiple(TimesXn(p, n)) <==> IsMultiple(p)
  {
    hide IsMultiple;
    if n != 0 {
      MultipleOfXn(p, n - 1);
      MultipleOfX(TimesXn(p, n - 1));
    }
  }

  lemma DividendFromZero(m: BitString)
    ensures Dividend(0, m) == TimesXn(FromBits(m), 32) && Register(0) == {}
  {
    forall i: nat
      ensures i !in Register(0)
    {
      HasZero(i);
    }
    assert Register(0) == {};
    TimesXnAt({}, |m|);
    hide FromBits, Register;
    assert TimesXn({}, |m|) == {};
    var f := TimesXn(FromBits(m), 32);
    hide TimesXn;
    assert Add({}, f) == f;
  }

  lemma MultipleIffNoRemainder(dividend: Poly)
    ensures IsMultiple(dividend) <==> IsRemainder(dividend, {})
  {
    hide Product, Generator;
    assert forall p: Poly {:trigger Add(p, {})} :: Add(p, {}) == p;
  }

  /** What the check does not see, exactly: the error patterns that are multiples of the generator. */
  lemma UndetectedIffMultiple(flips: BitString)
    ensures Undetected(flips) <==> IsMultiple(FromBits(flips))
  {
    hide *;
    var dividend, c := Dividend(0, flips), Run(0, flips);
    UndetectedIs(flips);
    DividendFromZero(flips);
    MultipleOfXn(FromBits(flips), 32);
    MultipleIffNoRemainder(dividend);
    RunIsRemainder(0, flips);
    if IsRemainder(dividend, {}) {
      RemainderUnique(dividend, {}, Register(c));
      RegisterInjective(c, 0);
    }
  }

  lemma UndetectedIs(flips: BitString)
    ensures Undetected(flips) <==> Run(0, flips) == 0
  {
  }

  lemma RunIsRemainder(start: bv32, m: BitString)
    ensures IsRemainder(Dividend(start, m), Register(Run(start, m)))
  {
    RegisterDivides(start, m);
    hide Dividend, Quotient, Run, Product, Generator;
  }
}
