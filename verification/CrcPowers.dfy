/** Raising to the sixteenth power modulo the generator, as a table of the powers x^(16 i).
    It evaluates x^k for the large exponents that decide the period of the register. */
module CrcPowers {
  import opened Crc32

  // ------------------------------------------- raising to the sixteenth power

  function When(b: bool, k: bv32): bv32 { if b then k else 0 }

  function CoefficientMask(i: nat): bv32 { if i == 0 then 0x8000_0000 else CoefficientMask(i - 1) >> 1 }

  predicate Meets(v: bv32, m: bv32) { v & m != 0 }

  predicate Has(v: bv32, i: nat) { Meets(v, CoefficientMask(i)) }

  /** The sum of k * x^(16 (j - i)) over the coefficients x^j of v with i <= j < i + n. */
  function Spread(v: bv32, i: nat, n: nat, k: bv32): bv32
    decreases n
  {
    if n == 0 then 0 else Xor(When(Has(v, i), k), Spread(v, i + 1, n - 1, Steps(k, 16)))
  }

  lemma MeetsRaw(v: bv32, w: bv32, m: bv32)
    requires m & (m - 1) == 0
    ensures ((v ^ w) & m != 0) == ((v & m != 0) != (w & m != 0))
  {
  }

  lemma MeetsIs(v: bv32, m: bv32)
    ensures Meets(v, m) == (v & m != 0)
  {
  }

  lemma MeetsXor(v: bv32, w: bv32, m: bv32)
    requires m & (m - 1) == 0
    ensures Meets(Xor(v, w), m) == (Meets(v, m) != Meets(w, m))
  {
    XorIs(v, w);
    MeetsIs(v ^ w, m);
    MeetsIs(v, m);
    MeetsIs(w, m);
    MeetsRaw(v, w, m);
  }

  lemma HalfSingleBit(m: bv32)
    requires m & (m - 1) == 0
    ensures (m >> 1) & ((m >> 1) - 1) == 0
  {
  }

  lemma {:induction false} MaskIsSingleBit(i: nat)
    ensures CoefficientMask(i) & (CoefficientMask(i) - 1) == 0
  {
    if i != 0 {
      MaskIsSingleBit(i - 1);
      HalfSingleBit(CoefficientMask(i - 1));
    }
  }

  lemma HasLinear(v: bv32, w: bv32, i: nat)
    ensures Has(Xor(v, w), i) == (Has(v, i) != Has(w, i))
  {
    MaskIsSingleBit(i);
    hide CoefficientMask, Meets;
    MeetsXor(v, w, CoefficientMask(i));
  }

  lemma WhenLinear(a: bool, b: bool, k: bv32)
    ensures When(a != b, k) == Xor(When(a, k), When(b, k))
  {
    XorZero(k);
    XorZero(0);
    hide Xor;
  }

  lemma {:induction false} SpreadLinear(v: bv32, w: bv32, i: nat, n: nat, k: bv32)
    ensures Spread(Xor(v, w), i, n, k) == Xor(Spread(v, i, n, k), Spread(w, i, n, k))
    decreases n
  {
    hide Xor, When, Has, Steps;
    if n == 0 {
      XorZero(0);
    } else {
      var k', j := Steps(k, 16), i + 1;
      HasLinear(v, w, i);
      WhenLinear(Has(v, i), Has(w, i), k);
      SpreadLinear(v, w, j, n - 1, k');
      XorSwap(When(Has(v, i), k), When(Has(w, i), k), Spread(v, j, n - 1, k'), Spread(w, j, n - 1, k'));
    }
  }

  lemma StepsOfWhen(b: bool, k: bv32, n: nat)
    ensures Steps(When(b, k), n) == When(b, Steps(k, n))
  {
    StepsOfZero(n);
  }

  lemma {:induction false} SpreadShift(v: bv32, i: nat, n: nat, k: bv32, m: nat)
    ensures Spread(v, i, n, Steps(k, m)) == Steps(Spread(v, i, n, k), m)
    decreases n
  {
    StepsOfZero(m);
    hide Xor, When, Has, Steps;
    if n != 0 {
      var k' := Steps(k, 16);
      StepsAdd(k, m, 16);
      StepsAdd(k, 16, m);
      SpreadShift(v, i + 1, n - 1, k', m);
      StepsOfWhen(Has(v, i), k, m);
      StepsLinear(When(Has(v, i), k), Spread(v, i + 1, n - 1, k'), m);
    }
  }

  lemma {:induction false} SpreadSplit(v: bv32, i: nat, m: nat, n: nat, k: bv32)
    ensures Spread(v, i, m + n, k) == Xor(Spread(v, i, m, k), Spread(v, i + m, n, Steps(k, 16 * m)))
    decreases m
  {
    XorZero(Spread(v, i, n, k));
    assert Steps(k, 0) == k;
    hide Xor, When, Has, Steps;
    if m != 0 {
      var k' := Steps(k, 16);
      SpreadSplit(v, i + 1, m - 1, n, k');
      StepsAdd(k, 16, 16 * (m - 1));
      XorRotate(When(Has(v, i), k), Spread(v, i + 1, m - 1, k'), Spread(v, i + m, n, Steps(k, 16 * m)));
    }
  }

  lemma MaskAtEnd()
    ensures CoefficientMask(31) == 1
  {
    assert CoefficientMask(8) == 0x80_0000;
    assert CoefficientMask(16) == 0x8000;
    assert CoefficientMask(24) == 0x80;
  }

  /** A mask that still moves right keeps its bit off the end. */
  lemma {:induction false} MaskStaysClear(i: nat)
    requires i < 31
    ensures CoefficientMask(i) & 1 == 0 && CoefficientMask(i + 1) != 0
    decreases 31 - i
  {
    MaskIsSingleBit(i);
    if i == 30 {
      MaskAtEnd();
    } else {
      MaskStaysClear(i + 1);
    }
    SingleBitMoves(CoefficientMask(i));
  }

  lemma SingleBitMoves(m: bv32)
    requires m & (m - 1) == 0 && m >> 1 != 0
    ensures m & 1 == 0
  {
  }

  lemma HalfRaw(v: bv32, m: bv32)
    requires m & 1 == 0
    ensures ((v >> 1) & (m >> 1) != 0) == (v & m != 0)
    ensures (v >> 1) & 0x8000_0000 == 0
  {
  }

  lemma MeetsHalf(v: bv32, m: bv32)
    requires m & 1 == 0
    ensures Meets(Half(v), m >> 1) == Meets(v, m)
    ensures !Meets(Half(v), 0x8000_0000)
  {
    HalfRaw(v, m);
    assert Half(v) == v >> 1;
    MeetsIs(v >> 1, m >> 1);
    MeetsIs(v >> 1, 0x8000_0000);
    MeetsIs(v, m);
  }

  lemma HasHalf(v: bv32, i: nat)
    requires i < 31
    ensures Has(Half(v), i + 1) == Has(v, i)
    ensures !Has(Half(v), 0)
  {
    hide *;
    MaskNext(i);
    MaskStaysClear(i);
    MeetsHalf(v, CoefficientMask(i));
    HasIs(v, i);
    HasIs(Half(v), i + 1);
    HasIs(Half(v), 0);
  }

  lemma HasIs(v: bv32, i: nat)
    ensures Has(v, i) == Meets(v, CoefficientMask(i))
  {
    hide Meets, CoefficientMask;
  }

  lemma MaskNext(i: nat)
    ensures CoefficientMask(0) == 0x8000_0000
    ensures CoefficientMask(i + 1) == CoefficientMask(i) >> 1
  {
  }

  lemma {:induction false} SpreadHalf(v: bv32, i: nat, n: nat, k: bv32)
    requires i + n <= 31
    ensures Spread(Half(v), i + 1, n, k) == Spread(v, i, n, k)
    decreases n
  {
    hide Xor, When, Has, Steps, Half;
    if n != 0 {
      HasHalf(v, i);
      SpreadHalf(v, i + 1, n - 1, Steps(k, 16));
    }
  }

  function Part0(v: bv32): bv32 {
    (if v & 0x8000_0000 != 0 then 0x8000_0000 else 0) ^ ((if v & 0x4000_0000 != 0 then 0x0000_8000 else 0) ^ (
    (if v & 0x2000_0000 != 0 then 0xedb8_8320 else 0) ^ ((if v & 0x1000_0000 != 0 then 0xe135_1b80 else 0) ^ (
    0))))
  }

  function Part1(v: bv32): bv32 {
    (if v & 0x0800_0000 != 0 then 0xb1e6_b092 else 0) ^ ((if v & 0x0400_0000 != 0 then 0x8816_eaf2 else 0) ^ (
    (if v & 0x0200_0000 != 0 then 0x6655_004f else 0) ^ ((if v & 0x0100_0000 != 0 then 0x77e1_359f else 0) ^ (
    0))))
  }

  function Part2(v: bv32): bv32 {
    (if v & 0x0080_0000 != 0 then 0xa06a_2517 else 0) ^ ((if v & 0x0040_0000 != 0 then 0x4e87_f0bb else 0) ^ (
    (if v & 0x0020_0000 != 0 then 0xba8c_cbe8 else 0) ^ ((if v & 0x0010_0000 != 0 then 0x9a11_d850 else 0) ^ (
    0))))
  }

  function Part3(v: bv32): bv32 {
    (if v & 0x0008_0000 != 0 then 0x32b3_9da3 else 0) ^ ((if v & 0x0004_0000 != 0 then 0x0b94_3260 else 0) ^ (
    (if v & 0x0002_0000 != 0 then 0xad2a_31b3 else 0) ^ ((if v & 0x0001_0000 != 0 then 0x9e36_506b else 0) ^ (
    0))))
  }

  function Part4(v: bv32): bv32 {
    (if v & 0x0000_8000 != 0 then 0xed62_7dae else 0) ^ ((if v & 0x0000_4000 != 0 then 0x1e30_7184 else 0) ^ (
    (if v & 0x0000_2000 != 0 then 0x78ed_02d5 else 0) ^ ((if v & 0x0000_1000 != 0 then 0x1241_289b else 0) ^ (
    0))))
  }

  function Part5(v: bv32): bv32 {
    (if v & 0x0000_0800 != 0 then 0xa700_e96a else 0) ^ ((if v & 0x0000_0400 != 0 then 0x46c4_7ef1 else 0) ^ (
    (if v & 0x0000_0200 != 0 then 0xba1a_ca03 else 0) ^ ((if v & 0x0000_0100 != 0 then 0x509c_c277 else 0) ^ (
    0))))
  }

  function Part6(v: bv32): bv32 {
    (if v & 0x0000_0080 != 0 then 0x1514_1c31 else 0) ^ ((if v & 0x0000_0040 != 0 then 0xd25c_4ee9 else 0) ^ (
    (if v & 0x0000_0020 != 0 then 0x1ed8_f66e else 0) ^ ((if v & 0x0000_0010 != 0 then 0xafa0_0fd8 else 0) ^ (
    0))))
  }

  function Part7(v: bv32): bv32 {
    (if v & 0x0000_0008 != 0 then 0xd95e_fd26 else 0) ^ ((if v & 0x0000_0004 != 0 then 0x00d2_d4db else 0) ^ (
    (if v & 0x0000_0002 != 0 then 0xe372_0acb else 0) ^ ((if v & 0x0000_0001 != 0 then 0xc8db_04e9 else 0) ^ (
    0))))
  }

  /** v^16 modulo the generator, from the powers x^(16 i). */
  function Sixteenth(v: bv32): bv32 { 
    Xor(Part0(v), Xor(Part1(v), Xor(Part2(v), Xor(Part3(v), Xor(Part4(v), Xor(Part5(v), Xor(Part6(v), Part7(v))))))))
  }

  lemma StepIs(c: bv32)
    ensures Step(c) == if c & 1 == 1 then (c >> 1) ^ 0xedb8_8320 else c >> 1
  {
  }

  /** Four shifts, for evaluating constants. */
  function Jump(c: bv32): bv32 { Step(Step(Step(Step(c)))) }

  lemma JumpIsSteps(c: bv32)
    ensures Jump(c) == Steps(c, 4)
  {
    hide Step;
  }

  lemma FourJumps(c: bv32, d: bv32, e: bv32, f: bv32, g: bv32)
    requires Jump(c) == d && Jump(d) == e && Jump(e) == f && Jump(f) == g
    ensures Steps(c, 16) == g
  {
    JumpIsSteps(c);
    JumpIsSteps(d);
    JumpIsSteps(e);
    JumpIsSteps(f);
    hide Jump, Step;
    StepsAdd(c, 4, 12);
    StepsAdd(d, 4, 8);
    StepsAdd(e, 4, 4);
  }

  /** One more coefficient in front of a tail that is already summed. */
  lemma Link(v: bv32, i: nat, m: bv32, n: nat, c: bv32, c': bv32, tail: bv32)
    requires CoefficientMask(i) == m && Steps(c, 16) == c' && tail == Spread(v, i + 1, n, c')
    ensures Spread(v, i, n + 1, c) == (if v & m != 0 then c else 0) ^ tail
  {
    var pick := if v & m != 0 then c else 0;
    PickIsWhen(v, m, c);
    XorIs(pick, tail);
    hide Xor, Meets, Steps, CoefficientMask, When;
  }

  lemma PickIsWhen(v: bv32, m: bv32, c: bv32)
    ensures When(Meets(v, m), c) == if v & m != 0 then c else 0
  {
    MeetsIs(v, m);
  }

  lemma EmptySpread(v: bv32, i: nat, c: bv32)
    ensures Spread(v, i, 0, c) == 0
  {
  }

  lemma Masks0()
    ensures CoefficientMask(0) == 0x8000_0000
    ensures CoefficientMask(1) == 0x4000_0000
    ensures CoefficientMask(2) == 0x2000_0000
    ensures CoefficientMask(3) == 0x1000_0000
    ensures CoefficientMask(4) == 0x0800_0000
    ensures CoefficientMask(5) == 0x0400_0000
    ensures CoefficientMask(6) == 0x0200_0000
    ensures CoefficientMask(7) == 0x0100_0000
  {
  }

  lemma Powers0()
    ensures Steps(0x8000_0000, 16) == 0x0000_8000
    ensures Steps(0x0000_8000, 16) == 0xedb8_8320
    ensures Steps(0xedb8_8320, 16) == 0xe135_1b80
    ensures Steps(0xe135_1b80, 16) == 0xb1e6_b092
    ensures Steps(0xb1e6_b092, 16) == 0x8816_eaf2
    ensures Steps(0x8816_eaf2, 16) == 0x6655_004f
    ensures Steps(0x6655_004f, 16) == 0x77e1_359f
    ensures Steps(0x77e1_359f, 16) == 0xa06a_2517
  {
    FourJumps(0x8000_0000, 0x0800_0000, 0x0080_0000, 0x0008_0000, 0x0000_8000);
    FourJumps(0x0000_8000, 0x0000_0800, 0x0000_0080, 0x0000_0008, 0xedb8_8320);
    FourJumps(0xedb8_8320, 0x0edb_8832, 0x3b83_984b, 0xc8d9_8a08, 0xe135_1b80);
    FourJumps(0xe135_1b80, 0x0e13_51b8, 0xed59_b63b, 0xc5b4_28ef, 0xb1e6_b092);
    FourJumps(0xb1e6_b092, 0x3070_4bc1, 0x1eb0_14d8, 0xec53_826d, 0x8816_eaf2);
    FourJumps(0x8816_eaf2, 0x33ef_4e67, 0x533b_85da, 0xd3e5_1bb5, 0x6655_004f);
    FourJumps(0x6655_004f, 0xbbd8_a218, 0xe605_0901, 0x13d7_40f4, 0x77e1_359f);
    FourJumps(0x77e1_359f, 0xbac3_e145, 0x60c7_6fe0, 0x060c_76fe, 0xa06a_2517);
  }

  lemma Masks1()
    ensures CoefficientMask(8) == 0x0080_0000
    ensures CoefficientMask(9) == 0x0040_0000
    ensures CoefficientMask(10) == 0x0020_0000
    ensures CoefficientMask(11) == 0x0010_0000
    ensures CoefficientMask(12) == 0x0008_0000
    ensures CoefficientMask(13) == 0x0004_0000
    ensures CoefficientMask(14) == 0x0002_0000
    ensures CoefficientMask(15) == 0x0001_0000
  {
    assert CoefficientMask(8) == 0x0080_0000;
  }

  lemma Powers1()
    ensures Steps(0xa06a_2517, 16) == 0x4e87_f0bb
    ensures Steps(0x4e87_f0bb, 16) == 0xba8c_cbe8
    ensures Steps(0xba8c_cbe8, 16) == 0x9a11_d850
    ensures Steps(0x9a11_d850, 16) == 0x32b3_9da3
    ensures Steps(0x32b3_9da3, 16) == 0x0b94_3260
    ensures Steps(0x0b94_3260, 16) == 0xad2a_31b3
    ensures Steps(0xad2a_31b3, 16) == 0x9e36_506b
    ensures Steps(0x9e36_506b, 16) == 0xed62_7dae
  {
    FourJumps(0xa06a_2517, 0x5a03_d36d, 0x8373_efe2, 0x3359_1e36, 0x4e87_f0bb);
    FourJumps(0x4e87_f0bb, 0xcf89_cc87, 0x5cfd_edf4, 0x7313_9f4f, 0xba8c_cbe8);
    FourJumps(0xba8c_cbe8, 0xe610_4f9e, 0xae6b_e681, 0x1751_ae0c, 0x9a11_d850);
    FourJumps(0x9a11_d850, 0x09a1_1d85, 0x6bf1_402c, 0x9ddb_d6b2, 0x32b3_9da3);
    FourJumps(0x32b3_9da3, 0x25f2_0976, 0x4fed_41cf, 0xb943_2600, 0x0b94_3260);
    FourJumps(0x0b94_3260, 0x00b9_4326, 0x4db9_f56a, 0xd20d_3cbe, 0xad2a_31b3);
    FourJumps(0xad2a_31b3, 0x2c0b_93b7, 0x52c5_c807, 0x5529_2dbc, 0x9e36_506b);
    FourJumps(0x9e36_506b, 0xc282_d68a, 0xdafe_8e80, 0x0daf_e8e8, 0xed62_7dae);
  }

  lemma Masks2()
    ensures CoefficientMask(16) == 0x0000_8000
    ensures CoefficientMask(17) == 0x0000_4000
    ensures CoefficientMask(18) == 0x0000_2000
    ensures CoefficientMask(19) == 0x0000_1000
    ensures CoefficientMask(20) == 0x0000_0800
    ensures CoefficientMask(21) == 0x0000_0400
    ensures CoefficientMask(22) == 0x0000_0200
    ensures CoefficientMask(23) == 0x0000_0100
  {
    assert CoefficientMask(8) == 0x0080_0000;
    assert CoefficientMask(16) == 0x0000_8000;
  }

  lemma Powers2()
    ensures Steps(0xed62_7dae, 16) == 0x1e30_7184
    ensures Steps(0x1e30_7184, 16) == 0x78ed_02d5
    ensures Steps(0x78ed_02d5, 16) == 0x1241_289b
    ensures Steps(0x1241_289b, 16) == 0xa700_e96a
    ensures Steps(0xa700_e96a, 16) == 0x46c4_7ef1
    ensures Steps(0x46c4_7ef1, 16) == 0xba1a_ca03
    ensures Steps(0xba1a_ca03, 16) == 0x509c_c277
    ensures Steps(0x509c_c277, 16) == 0x1514_1c31
  {
    FourJumps(0xed62_7dae, 0xaedc_c5a2, 0x3183_ec92, 0x3876_1e01, 0x1e30_7184);
    FourJumps(0x1e30_7184, 0x773f_4688, 0xeacb_7748, 0xe314_3454, 0x78ed_02d5);
    FourJumps(0x78ed_02d5, 0x6ce5_81d9, 0xf6c1_cb59, 0xff63_8ff1, 0x1241_289b);
    FourJumps(0x1241_289b, 0xca45_a105, 0x67cf_0be4, 0x70a0_b12e, 0xa700_e96a);
    FourJumps(0xa700_e96a, 0xdca6_ad7e, 0xadc0_88af, 0xb761_fa96, 0x46c4_7ef1);
    FourJumps(0x46c4_7ef1, 0x19db_578b, 0xcafc_06f4, 0x7a73_81ff, 0xba1a_ca03);
    FourJumps(0xba1a_ca03, 0x2d78_9c0c, 0x99b3_4b70, 0x099b_34b7, 0x509c_c277);
    FourJumps(0x509c_c277, 0x550c_bd1b, 0xce31_785d, 0x8a30_c551, 0x1514_1c31);
  }

  lemma Masks3()
    ensures CoefficientMask(24) == 0x0000_0080
    ensures CoefficientMask(25) == 0x0000_0040
    ensures CoefficientMask(26) == 0x0000_0020
    ensures CoefficientMask(27) == 0x0000_0010
    ensures CoefficientMask(28) == 0x0000_0008
    ensures CoefficientMask(29) == 0x0000_0004
    ensures CoefficientMask(30) == 0x0000_0002
    ensures CoefficientMask(31) == 0x0000_0001
  {
    assert CoefficientMask(8) == 0x0080_0000;
    assert CoefficientMask(16) == 0x0000_8000;
    assert CoefficientMask(24) == 0x0000_0080;
  }

  lemma Powers3()
    ensures Steps(0x1514_1c31, 16) == 0xd25c_4ee9
    ensures Steps(0xd25c_4ee9, 16) == 0x1ed8_f66e
    ensures Steps(0x1ed8_f66e, 16) == 0xafa0_0fd8
    ensures Steps(0xafa0_0fd8, 16) == 0xd95e_fd26
    ensures Steps(0xd95e_fd26, 16) == 0x00d2_d4db
    ensures Steps(0x00d2_d4db, 16) == 0xe372_0acb
    ensures Steps(0xe372_0acb, 16) == 0xc8db_04e9
    ensures Steps(0xc8db_04e9, 16) == 0x88d1_4467
  {
    FourJumps(0x1514_1c31, 0x1ce6_51a7, 0x51cb_1426, 0x48ae_d01a, 0xd25c_4ee9);
    FourJumps(0xd25c_4ee9, 0xfd2a_57aa, 0xd904_0692, 0x36fe_60a1, 0x1ed8_f66e);
    FourJumps(0x1ed8_f66e, 0xa1e7_6d1e, 0xaa14_94a9, 0xfaae_da0e, 0xafa0_0fd8);
    FourJumps(0xafa0_0fd8, 0xe742_83dd, 0x88a7_fae9, 0xf885_ecea, 0xd95e_fd26);
    FourJumps(0xd95e_fd26, 0x4027_8e8a, 0xd2d4_db00, 0x0d2d_4db0, 0x00d2_d4db);
    FourJumps(0x00d2_d4db, 0xcb6c_9ec1, 0x1101_d988, 0xeca8_9eb8, 0xe372_0acb);
    FourJumps(0xe372_0acb, 0xc556_9320, 0x0c55_6932, 0x3bab_765b, 0xc8db_04e9);
    FourJumps(0xc8db_04e9, 0xfc82_230a, 0xd91e_81d8, 0xe029_6b3d, 0x88d1_4467);
  }

  lemma Part0IsSpread(v: bv32)
    ensures Part0(v) == Spread(v, 0, 4, 0x8000_0000)
  {
    hide Spread, CoefficientMask, Steps;
    Masks0();
    Powers0();
    EmptySpread(v, 4, 0xb1e6_b092);
    var t4: bv32 := 0;
    var t3 := (if v & 0x1000_0000 != 0 then 0xe135_1b80 else 0) ^ t4;
    var t2 := (if v & 0x2000_0000 != 0 then 0xedb8_8320 else 0) ^ t3;
    var t1 := (if v & 0x4000_0000 != 0 then 0x0000_8000 else 0) ^ t2;
    var t0 := (if v & 0x8000_0000 != 0 then 0x8000_0000 else 0) ^ t1;
    Link(v, 3, 0x1000_0000, 0, 0xe135_1b80, 0xb1e6_b092, t4);
    Link(v, 2, 0x2000_0000, 1, 0xedb8_8320, 0xe135_1b80, t3);
    Link(v, 1, 0x4000_0000, 2, 0x0000_8000, 0xedb8_8320, t2);
    Link(v, 0, 0x8000_0000, 3, 0x8000_0000, 0x0000_8000, t1);
  }

  lemma Part1IsSpread(v: bv32)
    ensures Part1(v) == Spread(v, 4, 4, 0xb1e6_b092)
  {
    hide Spread, CoefficientMask, Steps;
    Masks0();
    Powers0();
    EmptySpread(v, 8, 0xa06a_2517);
    var t4: bv32 := 0;
    var t3 := (if v & 0x0100_0000 != 0 then 0x77e1_359f else 0) ^ t4;
    var t2 := (if v & 0x0200_0000 != 0 then 0x6655_004f else 0) ^ t3;
    var t1 := (if v & 0x0400_0000 != 0 then 0x8816_eaf2 else 0) ^ t2;
    var t0 := (if v & 0x0800_0000 != 0 then 0xb1e6_b092 else 0) ^ t1;
    Link(v, 7, 0x0100_0000, 0, 0x77e1_359f, 0xa06a_2517, t4);
    Link(v, 6, 0x0200_0000, 1, 0x6655_004f, 0x77e1_359f, t3);
    Link(v, 5, 0x0400_0000, 2, 0x8816_eaf2, 0x6655_004f, t2);
    Link(v, 4, 0x0800_0000, 3, 0xb1e6_b092, 0x8816_eaf2, t1);
  }

  lemma Part2IsSpread(v: bv32)
    ensures Part2(v) == Spread(v, 8, 4, 0xa06a_2517)
  {
    hide Spread, CoefficientMask, Steps;
    Masks1();
    Powers1();
    EmptySpread(v, 12, 0x32b3_9da3);
    var t4: bv32 := 0;
    var t3 := (if v & 0x0010_0000 != 0 then 0x9a11_d850 else 0) ^ t4;
    var t2 := (if v & 0x0020_0000 != 0 then 0xba8c_cbe8 else 0) ^ t3;
    var t1 := (if v & 0x0040_0000 != 0 then 0x4e87_f0bb else 0) ^ t2;
    var t0 := (if v & 0x0080_0000 != 0 then 0xa06a_2517 else 0) ^ t1;
    Link(v, 11, 0x0010_0000, 0, 0x9a11_d850, 0x32b3_9da3, t4);
    Link(v, 10, 0x0020_0000, 1, 0xba8c_cbe8, 0x9a11_d850, t3);
    Link(v, 9, 0x0040_0000, 2, 0x4e87_f0bb, 0xba8c_cbe8, t2);
    Link(v, 8, 0x0080_0000, 3, 0xa06a_2517, 0x4e87_f0bb, t1);
  }

  lemma Part3IsSpread(v: bv32)
    ensures Part3(v) == Spread(v, 12, 4, 0x32b3_9da3)
  {
    hide Spread, CoefficientMask, Steps;
    Masks1();
    Powers1();
    EmptySpread(v, 16, 0xed62_7dae);
    var t4: bv32 := 0;
    var t3 := (if v & 0x0001_0000 != 0 then 0x9e36_506b else 0) ^ t4;
    var t2 := (if v & 0x0002_0000 != 0 then 0xad2a_31b3 else 0) ^ t3;
    var t1 := (if v & 0x0004_0000 != 0 then 0x0b94_3260 else 0) ^ t2;
    var t0 := (if v & 0x0008_0000 != 0 then 0x32b3_9da3 else 0) ^ t1;
    Link(v, 15, 0x0001_0000, 0, 0x9e36_506b, 0xed62_7dae, t4);
    Link(v, 14, 0x0002_0000, 1, 0xad2a_31b3, 0x9e36_506b, t3);
    Link(v, 13, 0x0004_0000, 2, 0x0b94_3260, 0xad2a_31b3, t2);
    Link(v, 12, 0x0008_0000, 3, 0x32b3_9da3, 0x0b94_3260, t1);
  }

  lemma Part4IsSpread(v: bv32)
    ensures Part4(v) == Spread(v, 16, 4, 0xed62_7dae)
  {
    hide Spread, CoefficientMask, Steps;
    Masks2();
    Powers2();
    EmptySpread(v, 20, 0xa700_e96a);
    var t4: bv32 := 0;
    var t3 := (if v & 0x0000_1000 != 0 then 0x1241_289b else 0) ^ t4;
    var t2 := (if v & 0x0000_2000 != 0 then 0x78ed_02d5 else 0) ^ t3;
    var t1 := (if v & 0x0000_4000 != 0 then 0x1e30_7184 else 0) ^ t2;
    var t0 := (if v & 0x0000_8000 != 0 then 0xed62_7dae else 0) ^ t1;
    Link(v, 19, 0x0000_1000, 0, 0x1241_289b, 0xa700_e96a, t4);
    Link(v, 18, 0x0000_2000, 1, 0x78ed_02d5, 0x1241_289b, t3);
    Link(v, 17, 0x0000_4000, 2, 0x1e30_7184, 0x78ed_02d5, t2);
    Link(v, 16, 0x0000_8000, 3, 0xed62_7dae, 0x1e30_7184, t1);
  }

  lemma Part5IsSpread(v: bv32)
    ensures Part5(v) == Spread(v, 20, 4, 0xa700_e96a)
  {
    hide Spread, CoefficientMask, Steps;
    Masks2();
    Powers2();
    EmptySpread(v, 24, 0x1514_1c31);
    var t4: bv32 := 0;
    var t3 := (if v & 0x0000_0100 != 0 then 0x509c_c277 else 0) ^ t4;
    var t2 := (if v & 0x0000_0200 != 0 then 0xba1a_ca03 else 0) ^ t3;
    var t1 := (if v & 0x0000_0400 != 0 then 0x46c4_7ef1 else 0) ^ t2;
    var t0 := (if v & 0x0000_0800 != 0 then 0xa700_e96a else 0) ^ t1;
    Link(v, 23, 0x0000_0100, 0, 0x509c_c277, 0x1514_1c31, t4);
    Link(v, 22, 0x0000_0200, 1, 0xba1a_ca03, 0x509c_c277, t3);
    Link(v, 21, 0x0000_0400, 2, 0x46c4_7ef1, 0xba1a_ca03, t2);
    Link(v, 20, 0x0000_0800, 3, 0xa700_e96a, 0x46c4_7ef1, t1);
  }

  lemma Part6IsSpread(v: bv32)
    ensures Part6(v) == Spread(v, 24, 4, 0x1514_1c31)
  {
    hide Spread, CoefficientMask, Steps;
    Masks3();
    Powers3();
    EmptySpread(v, 28, 0xd95e_fd26);
    var t4: bv32 := 0;
    var t3 := (if v & 0x0000_0010 != 0 then 0xafa0_0fd8 else 0) ^ t4;
    var t2 := (if v & 0x0000_0020 != 0 then 0x1ed8_f66e else 0) ^ t3;
    var t1 := (if v & 0x0000_0040 != 0 then 0xd25c_4ee9 else 0) ^ t2;
    var t0 := (if v & 0x0000_0080 != 0 then 0x1514_1c31 else 0) ^ t1;
    Link(v, 27, 0x0000_0010, 0, 0xafa0_0fd8, 0xd95e_fd26, t4);
    Link(v, 26, 0x0000_0020, 1, 0x1ed8_f66e, 0xafa0_0fd8, t3);
    Link(v, 25, 0x0000_0040, 2, 0xd25c_4ee9, 0x1ed8_f66e, t2);
    Link(v, 24, 0x0000_0080, 3, 0x1514_1c31, 0xd25c_4ee9, t1);
  }

  lemma Part7IsSpread(v: bv32)
    ensures Part7(v) == Spread(v, 28, 4, 0xd95e_fd26)
  {
    hide Spread, CoefficientMask, Steps;
    Masks3();
    Powers3();
    EmptySpread(v, 32, 0x88d1_4467);
    var t4: bv32 := 0;
    var t3 := (if v & 0x0000_0001 != 0 then 0xc8db_04e9 else 0) ^ t4;
    var t2 := (if v & 0x0000_0002 != 0 then 0xe372_0acb else 0) ^ t3;
    var t1 := (if v & 0x0000_0004 != 0 then 0x00d2_d4db else 0) ^ t2;
    var t0 := (if v & 0x0000_0008 != 0 then 0xd95e_fd26 else 0) ^ t1;
    Link(v, 31, 0x0000_0001, 0, 0xc8db_04e9, 0x88d1_4467, t4);
    Link(v, 30, 0x0000_0002, 1, 0xe372_0acb, 0xc8db_04e9, t3);
    Link(v, 29, 0x0000_0004, 2, 0x00d2_d4db, 0xe372_0acb, t2);
    Link(v, 28, 0x0000_0008, 3, 0xd95e_fd26, 0x00d2_d4db, t1);
  }

  lemma Stride(c: bv32, c1: bv32, c2: bv32, c3: bv32, c4: bv32)
    requires Steps(c, 16) == c1 && Steps(c1, 16) == c2 && Steps(c2, 16) == c3 && Steps(c3, 16) == c4
    ensures Steps(c, 64) == c4
  {
    hide *;
    StepsAdd(c, 16, 48);
    StepsAdd(c1, 16, 32);
    StepsAdd(c2, 16, 16);
  }

  lemma Strides()
    ensures Steps(0x8000_0000, 64) == 0xb1e6_b092
    ensures Steps(0xb1e6_b092, 64) == 0xa06a_2517
    ensures Steps(0xa06a_2517, 64) == 0x32b3_9da3
    ensures Steps(0x32b3_9da3, 64) == 0xed62_7dae
    ensures Steps(0xed62_7dae, 64) == 0xa700_e96a
    ensures Steps(0xa700_e96a, 64) == 0x1514_1c31
    ensures Steps(0x1514_1c31, 64) == 0xd95e_fd26
    ensures Steps(0xd95e_fd26, 64) == 0x88d1_4467
  {
    hide *;
    Powers0();
    Powers1();
    Powers2();
    Powers3();
    Stride(0x8000_0000, 0x0000_8000, 0xedb8_8320, 0xe135_1b80, 0xb1e6_b092);
    Stride(0xb1e6_b092, 0x8816_eaf2, 0x6655_004f, 0x77e1_359f, 0xa06a_2517);
    Stride(0xa06a_2517, 0x4e87_f0bb, 0xba8c_cbe8, 0x9a11_d850, 0x32b3_9da3);
    Stride(0x32b3_9da3, 0x0b94_3260, 0xad2a_31b3, 0x9e36_506b, 0xed62_7dae);
    Stride(0xed62_7dae, 0x1e30_7184, 0x78ed_02d5, 0x1241_289b, 0xa700_e96a);
    Stride(0xa700_e96a, 0x46c4_7ef1, 0xba1a_ca03, 0x509c_c277, 0x1514_1c31);
    Stride(0x1514_1c31, 0xd25c_4ee9, 0x1ed8_f66e, 0xafa0_0fd8, 0xd95e_fd26);
    Stride(0xd95e_fd26, 0x00d2_d4db, 0xe372_0acb, 0xc8db_04e9, 0x88d1_4467);
  }

  lemma SixteenthUnfolds(v: bv32)
    ensures Sixteenth(v) ==
      Xor(Part0(v), Xor(Part1(v), Xor(Part2(v), Xor(Part3(v), Xor(Part4(v), Xor(Part5(v), Xor(Part6(v), Part7(v))))))))
  {
  }

  lemma SixteenthIsSpread(v: bv32)
    ensures Sixteenth(v) == Spread(v, 0, 32, 0x8000_0000)
  {
    hide *;
    SixteenthUnfolds(v);
    Strides();
    Part0IsSpread(v);
    Part1IsSpread(v);
    Part2IsSpread(v);
    Part3IsSpread(v);
    Part4IsSpread(v);
    Part5IsSpread(v);
    Part6IsSpread(v);
    Part7IsSpread(v);
    SpreadSplit(v, 0, 4, 28, 0x8000_0000);
    SpreadSplit(v, 4, 4, 24, 0xb1e6_b092);
    SpreadSplit(v, 8, 4, 20, 0xa06a_2517);
    SpreadSplit(v, 12, 4, 16, 0x32b3_9da3);
    SpreadSplit(v, 16, 4, 12, 0xed62_7dae);
    SpreadSplit(v, 20, 4, 8, 0xa700_e96a);
    SpreadSplit(v, 24, 4, 4, 0x1514_1c31);
  }

  lemma WrapIsX512()
    ensures Sixteenth(0xedb8_8320) == Steps(0xc8db_04e9, 16)
    ensures Sixteenth(0x8000_0000) == 0x8000_0000
  {
    Powers3();
  }

  lemma X512(n: nat)
    requires n == 31
    ensures Steps(0x8000_0000, 16 * n) == 0xc8db_04e9
  {
    hide *;
    Strides();
    StepsAdd(0x8000_0000, 64, 64);
    StepsAdd(0x8000_0000, 128, 64);
    StepsAdd(0x8000_0000, 192, 64);
    StepsAdd(0x8000_0000, 256, 64);
    StepsAdd(0x8000_0000, 320, 64);
    StepsAdd(0x8000_0000, 384, 64);
    Powers3();
    StepsAdd(0x8000_0000, 448, 16);
    StepsAdd(0x8000_0000, 464, 16);
    StepsAdd(0x8000_0000, 480, 16);
  }

  lemma StepSplits(v: bv32)
    ensures Step(v) == Xor(Half(v), When(IsOdd(v), 0xedb8_8320))
  {
    XorIs(Half(v), When(IsOdd(v), 0xedb8_8320));
    StepIs(v);
    if v & 1 == 1 {
      assert IsOdd(v) && When(IsOdd(v), 0xedb8_8320) == 0xedb8_8320 && Half(v) == v >> 1;
    } else {
      LowBitClear(v);
      assert !IsOdd(v) && When(IsOdd(v), 0xedb8_8320) == 0 && Half(v) == v >> 1;
      XorZero(v >> 1);
    }
  }

  lemma LowBitClear(v: bv32)
    requires v & 1 != 1
    ensures v & 1 == 0
  {
  }

  lemma LastCoefficient(v: bv32)
    ensures Has(v, 31) == IsOdd(v)
  {
    MaskAtEnd();
    MeetsIs(v, 1);
  }

  /** Raising to the sixteenth power turns multiplication by x into multiplication by x^16. */
  lemma SixteenthOfStep(v: bv32)
    ensures Sixteenth(Step(v)) == Steps(Sixteenth(v), 16)
  {
    hide *;
    var n: nat := 31;
    var one: bv32 := 0x8000_0000;
    var k, wrap := Steps(one, 16), When(IsOdd(v), 0xedb8_8320);
    SixteenthIsSpread(Step(v));
    SixteenthIsSpread(v);
    SixteenthIsSpread(wrap);
    StepSplits(v);
    SpreadLinear(Half(v), wrap, 0, n + 1, one);
    // the shifted part
    HasHalf(v, 0);
    SpreadHead(Half(v), 0, n, one);
    SpreadHalf(v, 0, n, k);
    // the wrapped part
    SpreadShift(v, 0, n + 1, one, 16);
    SpreadSplit(v, 0, n, 1, k);
    StepsAdd(one, 16, 16 * n);
    StepsAdd(one, 16 * n, 16);
    X512(n);
    SpreadLast(v, n, Steps(k, 16 * n));
    LastCoefficient(v);
    WrapPart(IsOdd(v));
  }

  lemma SpreadHead(v: bv32, i: nat, n: nat, k: bv32)
    requires !Has(v, i)
    ensures Spread(v, i, n + 1, k) == Spread(v, i + 1, n, Steps(k, 16))
  {
    XorZero(Spread(v, i + 1, n, Steps(k, 16)));
    hide Has, Steps, Xor;
  }

  lemma SpreadLast(v: bv32, i: nat, k: bv32)
    ensures Spread(v, i, 1, k) == When(Has(v, i), k)
  {
    XorZero(When(Has(v, i), k));
    hide Has, Steps, Xor, When;
  }

  lemma WrapPart(b: bool)
    ensures Sixteenth(When(b, 0xedb8_8320)) == When(b, Steps(0xc8db_04e9, 16))
  {
    WrapIsX512();
    assert Sixteenth(0) == 0;
  }

}
