/** The register returns to its start after exactly 2^32 - 1 shifts: the generator is primitive. */
module CrcPeriod {
  import opened Crc32
  import opened CrcCheck
  import opened CrcPowers
  import opened NumberTheory

  const PERIOD: nat := 0xffff_ffff

  /** Multiplying k times by x is the identity on the polynomial 1. */
  predicate Returns(k: nat) { Steps(0x8000_0000, k) == 0x8000_0000 }

  // ------------------------------------------------------ evaluating high powers

  /** x^(16 k) is the sixteenth power of x^k. */
  lemma {:induction false} SixteenthOfPower(k: nat)
    ensures Sixteenth(Steps(0x8000_0000, k)) == Steps(0x8000_0000, 16 * k)
  {
    if k == 0 {
      WrapIsX512();
      assert Steps(0x8000_0000, 0) == 0x8000_0000;
    } else {
      hide *;
      SixteenthOfPower(k - 1);
      StepsAdd(0x8000_0000, k - 1, 1);
      OneStep(Steps(0x8000_0000, k - 1));
      SixteenthOfStep(Steps(0x8000_0000, k - 1));
      StepsAdd(0x8000_0000, 16 * (k - 1), 16);
    }
  }

  lemma OneStep(c: bv32)
    ensures Steps(c, 1) == Step(c)
  {
  }

  function ByDigit(c: bv32, d: nat): bv32 {
    if d == 0 then c
    else if d == 3 then Step(Step(Step(c)))
    else if d == 5 then Step(Jump(c))
    else Step(Step(Step(Jump(Jump(Jump(c))))))
  }

  lemma ThreeSteps(c: bv32)
    ensures Step(Step(Step(c))) == Steps(c, 3)
  {
    hide *;
    OneStep(c);
    OneStep(Step(c));
    OneStep(Step(Step(c)));
    StepsAdd(c, 1, 1);
    StepsAdd(c, 2, 1);
  }

  lemma FiveSteps(c: bv32)
    ensures Step(Jump(c)) == Steps(c, 5)
  {
    hide *;
    JumpIsSteps(c);
    OneStep(Jump(c));
    StepsAdd(c, 4, 1);
  }

  lemma FifteenSteps(c: bv32)
    ensures Step(Step(Step(Jump(Jump(Jump(c)))))) == Steps(c, 15)
  {
    hide *;
    JumpIsSteps(c);
    JumpIsSteps(Jump(c));
    JumpIsSteps(Jump(Jump(c)));
    StepsAdd(c, 4, 4);
    StepsAdd(c, 8, 4);
    ThreeSteps(Jump(Jump(Jump(c))));
    StepsAdd(c, 12, 3);
  }

  lemma ByDigitIsSteps(c: bv32, d: nat)
    requires d == 0 || d == 3 || d == 5 || d == 15
    ensures ByDigit(c, d) == Steps(c, d)
  {
    hide Jump, Step;
    ThreeSteps(c);
    FiveSteps(c);
    FifteenSteps(c);
    if d == 0 {
      assert Steps(c, 0) == c;
    } else {
      hide Steps;
    }
  }

  /** Append a hexadecimal digit to an exponent. */
  lemma Digit(k: nat, v: bv32, d: nat, w: bv32)
    requires Steps(0x8000_0000, k) == v && (d == 0 || d == 3 || d == 5 || d == 15)
    requires ByDigit(Sixteenth(v), d) == w
    ensures Steps(0x8000_0000, 16 * k + d) == w
  {
    hide *;
    SixteenthOfPower(k);
    StepsAdd(0x8000_0000, 16 * k, d);
    ByDigitIsSteps(Sixteenth(v), d);
  }

  lemma PowerFFFF()
    ensures Steps(0x8000_0000, 0xffff) == 0xdc7b_5c5f
  {
    Digit(0, 0x8000_0000, 15, 0x0001_0000);
    Digit(0xf, 0x0001_0000, 15, 0x01b5_fd1d);
    Digit(0xff, 0x01b5_fd1d, 15, 0xc78c_44a1);
    Digit(0xfff, 0xc78c_44a1, 15, 0xdc7b_5c5f);
  }

  lemma PowerPeriod()
    ensures Returns(PERIOD)
  {
    PowerFFFF();
    Digit(0xffff, 0xdc7b_5c5f, 15, 0xe4a9_0215);
    Digit(0xfffff, 0xe4a9_0215, 15, 0xaec3_1a2f);
    Digit(0xffffff, 0xaec3_1a2f, 15, 0x8535_2d3c);
    Digit(0xfffffff, 0x8535_2d3c, 15, 0x8000_0000);
  }

  lemma CofactorOf257()
    ensures !Returns(0xff_00ff)
  {
    Digit(0, 0x8000_0000, 15, 0x0001_0000);
    Digit(0xf, 0x0001_0000, 15, 0x01b5_fd1d);
    Digit(0xff, 0x01b5_fd1d, 0, 0xf4e5_307f);
    Digit(0xff0, 0xf4e5_307f, 0, 0x3ef5_34d3);
    Digit(0xff00, 0x3ef5_34d3, 15, 0xc547_96e1);
    Digit(0xff00f, 0xc547_96e1, 15, 0x351c_22c9);
  }

  lemma PowerF0F0()
    ensures Steps(0x8000_0000, 0xf0f0) == 0x8684_60b5
  {
    Digit(0, 0x8000_0000, 15, 0x0001_0000);
    Digit(0xf, 0x0001_0000, 0, 0x9e36_506b);
    Digit(0xf0, 0x9e36_506b, 15, 0xe01f_9dcf);
    Digit(0xf0f, 0xe01f_9dcf, 0, 0x8684_60b5);
  }

  lemma CofactorOf17()
    ensures !Returns(0xf0f_0f0f)
  {
    PowerF0F0();
    Digit(0xf0f0, 0x8684_60b5, 15, 0xaf69_585a);
    Digit(0xf0f0f, 0xaf69_585a, 0, 0xf1d3_1ca2);
    Digit(0xf0f0f0, 0xf1d3_1ca2, 15, 0x8c28_3ca0);
  }

  lemma CofactorOf5()
    ensures !Returns(0x3333_3333)
  {
    Digit(0, 0x8000_0000, 3, 0x1000_0000);
    Digit(0x3, 0x1000_0000, 3, 0x1c26_a370);
    Digit(0x33, 0x1c26_a370, 3, 0x56a9_2869);
    Digit(0x333, 0x56a9_2869, 3, 0xc1a9_9cf7);
    Digit(0x3333, 0xc1a9_9cf7, 3, 0x3b2b_e47a);
    Digit(0x33333, 0x3b2b_e47a, 3, 0xc6a7_40b1);
    Digit(0x333333, 0xc6a7_40b1, 3, 0x07d5_48e2);
    Digit(0x3333333, 0x07d5_48e2, 3, 0x8401_1278);
  }

  lemma CofactorOf3()
    ensures !Returns(0x5555_5555)
  {
    Digit(0, 0x8000_0000, 5, 0x0400_0000);
    Digit(0x5, 0x0400_0000, 5, 0xf44f_2413);
    Digit(0x55, 0xf44f_2413, 5, 0x4a62_5cd1);
    Digit(0x555, 0x4a62_5cd1, 5, 0xeba0_264a);
    Digit(0x5555, 0xeba0_264a, 5, 0xb867_8921);
    Digit(0x55555, 0xb867_8921, 5, 0x4281_464d);
    Digit(0x555555, 0x4281_464d, 5, 0x98ab_a02d);
    Digit(0x5555555, 0x98ab_a02d, 5, 0xc736_eb52);
  }

  // ------------------------------------------------- the exponents that return

  lemma ReturnsSum(a: nat, b: nat)
    requires Returns(a)
    ensures Returns(a + b) <==> Returns(b)
  {
    hide Step, Steps;
    StepsAdd(0x8000_0000, a, b);
  }

  lemma {:induction false} ReturnsMultiple(a: nat, m: nat)
    requires Returns(a)
    ensures Returns(a * m)
  {
    if m == 0 {
      assert Steps(0x8000_0000, 0) == 0x8000_0000;
    } else {
      hide Returns;
      ReturnsMultiple(a, m - 1);
      assert a * m == a + a * (m - 1);
      ReturnsSum(a, a * (m - 1));
    }
  }

  /** Returning exponents with a common factor m are closed under greatest common divisors. */
  lemma {:induction false} ReturnsGcd(m: nat, a: nat, b: nat)
    requires Returns(m * a) && Returns(m * b)
    ensures Returns(m * Gcd(a, b))
    decreases b
  {
    hide Returns;
    if b != 0 {
      hide *;
      var q: nat, r: nat := a / b, a % b;
      ScaledDivision(m, a, b);
      ReturnsMultiple(m * b, q);
      ReturnsSum((m * b) * q, m * r);
      ReturnsGcd(m, b, r);
      GcdUnfolds(a, b);
    }
  }

  // --------------------------------------------------------------- the period

  /** Every prime factor of the period divides every returning exponent. */
  lemma PrimeDividesReturning(p: nat, cofactor: nat, k: nat)
    requires Prime(p) && p * cofactor == PERIOD && Returns(PERIOD) && !Returns(cofactor)
    requires Returns(k)
    ensures Divides(p, k)
  {
    hide Returns, PERIOD, Gcd, Prime, Divides;
    if Gcd(k, p) == 1 {
      Commute(k, cofactor);
      Commute(p, cofactor);
      Commute(1, cofactor);
      ReturnsMultiple(k, cofactor);
      ReturnsGcd(cofactor, k, p);
    } else {
      NotCoprimeDivides(p, k);
    }
  }

  lemma Commute(a: nat, b: nat)
    ensures a * b == b * a
    ensures a == 1 ==> b * a == b
  {
  }

  lemma ReturningIsMultiple(k: nat)
    requires Returns(k)
    ensures Divides(PERIOD, k)
  {
    FermatPrimes();
    PowerPeriod();
    PowerFFFF();
    CofactorOf257();
    CofactorOf17();
    CofactorOf5();
    CofactorOf3();
    PrimeDividesReturning(3, 0x5555_5555, k);
    PrimeDividesReturning(5, 0x3333_3333, k);
    PrimeDividesReturning(17, 0xf0f_0f0f, k);
    PrimeDividesReturning(257, 0xff_00ff, k);
    PrimeDividesReturning(65537, 0xffff, k);
    hide Returns;
    CoprimeProduct(k, 3, 5, 2, 1);
    CoprimeProduct(k, 15, 17, 8, 7);
    CoprimeProduct(k, 255, 257, 128, 127);
    CoprimeProduct(k, 65535, 65537, 32768, 32767);
  }

  /** The order of x is exactly 2^32 - 1. */
  lemma OrderOfX(k: nat)
    ensures Returns(k) <==> k % PERIOD == 0
  {
    PowerPeriod();
    if Returns(k) {
      ReturningIsMultiple(k);
      var q: nat :| k == PERIOD * q;
      Multiple(PERIOD, q, k);
    } else if k % PERIOD == 0 {
      ReturnsMultiple(PERIOD, k / PERIOD);
    }
  }

  /** The register with only bit 0 set is x^31. */
  lemma OneIsX31(n: nat)
    requires n == 31
    ensures Steps(0x8000_0000, n) == 1
  {
    Powers0();
    assert ByDigit(0x0000_8000, 15) == 1;
    hide Step, Steps, Jump, ByDigit;
    ByDigitIsSteps(0x0000_8000, 15);
    StepsAdd(0x8000_0000, 16, 15);
  }

  lemma OneReturns(k: nat)
    ensures Steps(1, k) == 1 <==> k % PERIOD == 0
  {
    var n: nat := 31;
    OneIsX31(n);
    OrderOfX(k);
    hide Step, Steps;
    StepsAdd(0x8000_0000, n, k);
    StepsAdd(0x8000_0000, k, n);
    if Steps(1, k) == 1 {
      StepsInjective(Steps(0x8000_0000, k), 0x8000_0000, n);
    }
  }

  // ------------------------------------------------------------- every register

  lemma StepStays(c: bv32, k: nat)
    requires Steps(c, k) == c
    ensures Steps(Step(c), k) == Step(c)
  {
    hide *;
    OneStep(c);
    OneStep(Steps(c, k));
    StepsAdd(c, 1, k);
    StepsAdd(c, k, 1);
  }

  lemma BitWordStays(b: bool, k: nat)
    requires Steps(1, k) == 1
    ensures Steps(BitWord(b), k) == BitWord(b)
  {
    StepsOfZero(k);
    hide Steps;
  }

  /** What k shifts leave alone, they leave alone after more message bits. */
  lemma {:induction false} RunStays(c: bv32, bits: BitString, k: nat)
    requires Steps(1, k) == 1 && Steps(c, k) == c
    ensures Steps(Run(c, bits), k) == Run(c, bits)
    decreases |bits|
  {
    hide Step, Steps, Xor, BitWord;
    if bits != [] {
      var w := BitWord(bits[0]);
      BitWordStays(bits[0], k);
      StepsLinear(c, w, k);
      StepStays(Xor(c, w), k);
      RunStays(Step(Xor(c, w)), bits[1..], k);
    }
  }

  /** Every register is 32 shifts before one that a run from zero reaches. */
  lemma RegisterStays(c: bv32, k: nat, n: nat)
    requires Steps(1, k) == 1 && n == 32
    ensures Steps(c, k) == c
  {
    hide *;
    var reached := Run(0, LowBits(c, n));
    StepsOfZero(k);
    RunStays(0, LowBits(c, n), k);
    RunLowBits(0, c, n);
    Shr32(c, n);
    XorZero(reached);
    XorZero(c);
    StepsAdd(c, n, k);
    StepsAdd(c, k, n);
    StepsInjective(Steps(c, k), c, n);
  }

  /** The period of the register is exactly 2^32 - 1: k shifts leave every register alone exactly
      when 2^32 - 1 divides k. */
  lemma PeriodIsExact(k: nat)
    ensures (forall c: bv32 :: Steps(c, k) == c) <==> k % PERIOD == 0
  {
    hide Steps;
    OneReturns(k);
    if k % PERIOD == 0 {
      forall c: bv32
        ensures Steps(c, k) == c
      {
        RegisterStays(c, k, 32);
      }
    } else {
      assert Steps(1, k) != 1;
    }
  }
}
