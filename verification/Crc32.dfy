/** The CRC register of common/protocol/ipc-protocol.ts: one shift per message bit,
    least significant bit of each byte first. The byte-wise loop of the source is a
    method proved against the bit-serial register, and the algebra that error detection
    rests on (linearity, injectivity, the accepting residue) is proved about the register. */
module Crc32 {

  /** Message bits in transmission order: bit 0 of byte 0 first. */
  type BitString = seq<bool>

  const GENERATOR: bv32 := 0xedb8_8320
  const ONES: bv32 := 0xffff_ffff

  // ------------------------------------------------------------------ register

  /** Addition of registers. Named, so that proofs about runs stay equational. */
  function Xor(c: bv32, d: bv32): bv32 { c ^ d }

  /** One shift of the register: multiplication by x modulo the generator. */
  function Step(c: bv32): bv32 {
    if c & 1 == 1 then (c >> 1) ^ 0xedb8_8320 else c >> 1
  }

  function Steps(c: bv32, n: nat): bv32
    decreases n
  {
    if n == 0 then c else Steps(Step(c), n - 1)
  }

  function BitWord(b: bool): bv32 { if b then 1 else 0 }

  /** Feed message bits into the register one at a time. */
  function Run(c: bv32, bits: BitString): bv32
    decreases |bits|
  {
    if bits == [] then c else Run(Step(Xor(c, BitWord(bits[0]))), bits[1..])
  }

  function Half(w: bv32): bv32 { w >> 1 }

  function IsOdd(w: bv32): bool { w & 1 != 0 }

  /** The n low bits of a word, lowest first. */
  function LowBits(w: bv32, n: nat): (bits: BitString)
    ensures |bits| == n
    decreases n
  {
    if n == 0 then [] else [IsOdd(w)] + LowBits(Half(w), n - 1)
  }

  function ByteBits(b: bv8): (bits: BitString)
    ensures |bits| == 8
  {
    LowBits(b as bv32, 8)
  }

  function Bits(data: seq<bv8>): (bits: BitString)
    ensures |bits| == 8 * |data|
  {
    if data == [] then [] else ByteBits(data[0]) + Bits(data[1..])
  }

  /** The checksum of a payload: complemented start value, complemented result. */
  function Crc(data: seq<bv8>): bv32 {
    Xor(Run(ONES, Bits(data)), ONES)
  }

  // ------------------------------------------------------- bit-vector identities

  /** Unfolds one Xor, so that the solver can simplify a ground bit-vector term. */
  lemma XorIs(c: bv32, d: bv32)
    ensures Xor(c, d) == c ^ d
  {
  }

  lemma ShiftXor(c: bv32, d: bv32)
    ensures (c ^ d) >> 1 == (c >> 1) ^ (d >> 1)
  {
  }

  lemma OddXor(c: bv32, d: bv32)
    ensures ((c ^ d) & 1 == 1) == ((c & 1 == 1) != (d & 1 == 1))
  {
  }

  lemma XorCancel(a: bv32, b: bv32, p: bv32)
    ensures Xor(Xor(a, p), Xor(b, p)) == Xor(a, b)
  {
    XorIs(a, p);
    XorIs(b, p);
    XorIs(a ^ p, b ^ p);
    XorIs(a, b);
  }

  lemma XorRotate(a: bv32, b: bv32, p: bv32)
    ensures Xor(Xor(a, b), p) == Xor(a, Xor(b, p)) == Xor(Xor(a, p), b)
  {
    XorIs(a, b);
    XorIs(b, p);
    XorIs(a, p);
    XorIs(a ^ b, p);
    XorIs(a, b ^ p);
    XorIs(a ^ p, b);
  }

  lemma XorSwap(a: bv32, b: bv32, p: bv32, q: bv32)
    ensures Xor(Xor(a, b), Xor(p, q)) == Xor(Xor(a, p), Xor(b, q))
  {
    XorRotate(a, b, Xor(p, q));
    XorRotate(b, p, q);
    XorCommutes(b, p);
    XorRotate(p, b, q);
    XorRotate(a, p, Xor(b, q));
  }

  lemma XorCommutes(a: bv32, b: bv32)
    ensures Xor(a, b) == Xor(b, a)
  {
    XorIs(a, b);
    XorIs(b, a);
  }

  lemma XorZero(a: bv32)
    ensures Xor(a, 0) == a == Xor(0, a)
    ensures Xor(a, a) == 0
  {
    XorIs(a, 0);
    XorIs(0, a);
    XorIs(a, a);
  }

  lemma XorIsZero(a: bv32, b: bv32)
    ensures Xor(a, b) == 0 <==> a == b
  {
    if Xor(a, b) == 0 {
      XorRotate(a, b, b);
      XorZero(a);
      XorZero(b);
    } else if a == b {
      XorZero(a);
    }
  }

  /** The source's branch-free feedback term is the conditional one. */
  lemma Feedback(c: bv32)
    ensures (c >> 1) ^ (GENERATOR & (0 - (c & 1))) == Step(c)
  {
    assert c & 1 == 0 || c & 1 == 1;
  }

  // --------------------------------------------------------- algebra of one step

  lemma StepXorRaw(c: bv32, d: bv32)
    ensures Step(c ^ d) == Step(c) ^ Step(d)
  {
    ShiftXor(c, d);
    OddXor(c, d);
    var a, b, p: bv32 := c >> 1, d >> 1, 0xedb8_8320;
    if c & 1 == 1 && d & 1 == 1 {
      assert (a ^ p) ^ (b ^ p) == a ^ b;
    } else {
      assert (a ^ b) ^ p == a ^ (b ^ p) == (a ^ p) ^ b;
    }
  }

  lemma StepLinear(c: bv32, d: bv32)
    ensures Step(Xor(c, d)) == Xor(Step(c), Step(d))
  {
    XorIs(c, d);
    XorIs(Step(c), Step(d));
    ShiftXor(c, d);
    OddXor(c, d);
    StepXorRaw(c, d);
  }

  lemma StepInjective(c: bv32, d: bv32)
    requires Step(c) == Step(d)
    ensures c == d
  {
  }

  lemma {:induction false} StepsLinear(c: bv32, d: bv32, n: nat)
    ensures Steps(Xor(c, d), n) == Xor(Steps(c, n), Steps(d, n))
    decreases n
  {
    if n != 0 {
      StepLinear(c, d);
      StepsLinear(Step(c), Step(d), n - 1);
    }
  }

  lemma {:induction false} StepsInjective(c: bv32, d: bv32, n: nat)
    requires Steps(c, n) == Steps(d, n)
    ensures c == d
    decreases n
  {
    if n != 0 {
      StepsInjective(Step(c), Step(d), n - 1);
      StepInjective(c, d);
    }
  }

  lemma {:induction false} StepsAdd(c: bv32, m: nat, n: nat)
    ensures Steps(Steps(c, m), n) == Steps(c, m + n)
    decreases m
  {
    if m != 0 {
      StepsAdd(Step(c), m - 1, n);
    }
  }

  lemma {:induction false} StepsOfZero(n: nat)
    ensures Steps(0, n) == 0
  {
    if n != 0 {
      StepsOfZero(n - 1);
    }
  }

  // ------------------------------------------------------------- algebra of runs

  lemma {:induction false} RunConcat(c: bv32, a: BitString, b: BitString)
    ensures Run(c, a + b) == Run(Run(c, a), b)
    decreases |a|
  {
    if a == [] {
      assert a + b == b;
    } else {
      assert (a + b)[1..] == a[1..] + b;
      RunConcat(Step(Xor(c, BitWord(a[0]))), a[1..], b);
    }
  }

  function Zeros(n: nat): (z: BitString)
    ensures |z| == n
  {
    seq(n, _ => false)
  }

  lemma {:induction false} RunZeros(c: bv32, n: nat)
    ensures Run(c, Zeros(n)) == Steps(c, n)
    decreases n
  {
    if n != 0 {
      assert Zeros(n)[1..] == Zeros(n - 1);
      XorZero(c);
      RunZeros(Step(c), n - 1);
    }
  }

  function XorBits(a: BitString, b: BitString): (e: BitString)
    requires |a| == |b|
    ensures |e| == |a|
  {
    seq(|a|, i requires 0 <= i < |a| => a[i] != b[i])
  }

  lemma XorBitWord(a: bool, b: bool)
    ensures BitWord(a != b) == Xor(BitWord(a), BitWord(b))
  {
  }

  /** Superposition: flipping message bits adds the run of the flips alone to the register. */
  lemma {:induction false} RunLinear(c: bv32, d: bv32, a: BitString, b: BitString)
    requires |a| == |b|
    ensures Run(Xor(c, d), XorBits(a, b)) == Xor(Run(c, a), Run(d, b))
    decreases |a|
  {
    if a != [] {
      assert XorBits(a, b)[1..] == XorBits(a[1..], b[1..]);
      XorBitWord(a[0], b[0]);
      XorSwap(c, d, BitWord(a[0]), BitWord(b[0]));
      StepLinear(Xor(c, BitWord(a[0])), Xor(d, BitWord(b[0])));
      RunLinear(Step(Xor(c, BitWord(a[0]))), Step(Xor(d, BitWord(b[0]))), a[1..], b[1..]);
    }
  }

  lemma {:induction false} BitsConcat(a: seq<bv8>, b: seq<bv8>)
    ensures Bits(a + b) == Bits(a) + Bits(b)
  {
    hide ByteBits;
    if a == [] {
      assert a + b == b;
    } else {
      assert (a + b)[1..] == a[1..] + b;
      BitsConcat(a[1..], b);
    }
  }

  // ------------------------------------------------------ feeding a word at once

  /** Shift a word up and set its lowest bit. */
  function Push(v: bv32, b: bool): bv32 { if b then (v << 1) | 1 else v << 1 }

  /** The word whose low bits are the given bits, first bit lowest. */
  function Pack(bits: BitString): bv32 {
    if bits == [] then 0 else Push(Pack(bits[1..]), bits[0])
  }

  function Double(v: bv32): bv32 { v << 1 }

  /** 2^n for n < 32. */
  function Power(n: nat): bv32 {
    if n == 0 then 1 else Double(Power(n - 1))
  }

  predicate Below(v: bv32, m: bv32) { v < m }

  lemma BelowIs(v: bv32, m: bv32)
    ensures Below(v, m) == (v < m)
  {
  }

  lemma PushIs(v: bv32)
    ensures Push(v, false) == v << 1 && Push(v, true) == (v << 1) | 1
  {
  }

  lemma ShiftFits(v: bv32, m: bv32)
    requires v < m && m & 0x8000_0000 == 0
    ensures v << 1 < m << 1 && (v << 1) | 1 < m << 1
  {
  }

  lemma PushFits(v: bv32, m: bv32, b: bool)
    requires Below(v, m) && m & 0x8000_0000 == 0
    ensures Below(Push(v, b), Double(m))
  {
    BelowIs(v, m);
    PushIs(v);
    ShiftFits(v, m);
    BelowIs(v << 1, m << 1);
    BelowIs((v << 1) | 1, m << 1);
  }

  lemma ShiftUp(v: bv32)
    requires v < 0x8000_0000
    ensures ((v << 1) | 1) ^ 1 == v << 1 && (v << 1) ^ 0 == v << 1
    ensures (v << 1) | 1 != 0
    ensures v << 1 == 0 ==> v == 0
  {
  }

  lemma StepUndoesShift(v: bv32)
    requires v < 0x8000_0000
    ensures Step(v << 1) == v
  {
    assert (v << 1) & 1 == 0;
    assert (v << 1) >> 1 == v;
  }

  lemma PushXor(v: bv32, b: bool)
    requires v < 0x8000_0000
    ensures Xor(Push(v, b), BitWord(b)) == v << 1
    ensures Push(v, b) != 0 <==> v != 0 || b
  {
    ShiftUp(v);
    PushIs(v);
    if b {
      assert Push(v, b) == (v << 1) | 1 && BitWord(b) == 1;
      XorIs((v << 1) | 1, 1);
    } else {
      assert Push(v, b) == v << 1 && BitWord(b) == 0;
      XorIs(v << 1, 0);
    }
  }

  /** Feeding back the bit that was pushed in and shifting restores the word. */
  lemma PushThenStep(v: bv32, b: bool)
    requires Below(v, 0x8000_0000)
    ensures Step(Xor(Push(v, b), BitWord(b))) == v
    ensures Push(v, b) != 0 <==> v != 0 || b
  {
    BelowIs(v, 0x8000_0000);
    PushXor(v, b);
    StepUndoesShift(v);
  }

  lemma PowerOf31()
    ensures Power(31) == 0x8000_0000
  {
    assert Power(4) == 0x10;
    assert Power(8) == 0x100;
    assert Power(12) == 0x1000;
    assert Power(16) == 0x1_0000;
    assert Power(20) == 0x10_0000;
    assert Power(24) == 0x100_0000;
    assert Power(28) == 0x1000_0000;
  }

  lemma {:induction false} PowerNonZero(n: nat)
    requires n <= 31
    ensures Power(n) != 0
    decreases 31 - n
  {
    if n == 31 {
      PowerOf31();
    } else {
      PowerNonZero(n + 1);
    }
  }

  lemma {:induction false} PowerSingleBit(n: nat)
    ensures Power(n) & (Power(n) - 1) == 0
  {
    if n != 0 {
      PowerSingleBit(n - 1);
      DoubleSingleBit(Power(n - 1));
    }
  }

  lemma DoubleSingleBit(m: bv32)
    requires m & (m - 1) == 0
    ensures (m << 1) & ((m << 1) - 1) == 0
    ensures m << 1 != 0 ==> m & 0x8000_0000 == 0
  {
  }

  lemma PowerFits(n: nat)
    requires n < 31
    ensures Power(n) & 0x8000_0000 == 0
  {
    PowerSingleBit(n);
    DoubleSingleBit(Power(n));
    PowerNonZero(n + 1);
  }

  lemma {:induction false} PackFits(bits: BitString)
    requires |bits| < 32
    ensures Below(Pack(bits), Power(|bits|))
  {
    if bits != [] {
      PackFits(bits[1..]);
      PowerFits(|bits| - 1);
      PushFits(Pack(bits[1..]), Power(|bits| - 1), bits[0]);
    }
  }

  lemma BelowTop(v: bv32, m: bv32)
    requires Below(v, m) && m & 0x8000_0000 == 0
    ensures Below(v, 0x8000_0000)
  {
    BelowIs(v, m);
    BelowIs(v, 0x8000_0000);
  }

  lemma PackBelowTop(bits: BitString)
    requires |bits| < 32
    ensures Below(Pack(bits), 0x8000_0000)
  {
    PackFits(bits);
    if |bits| < 31 {
      PowerFits(|bits|);
      BelowTop(Pack(bits), Power(|bits|));
    } else {
      PowerOf31();
    }
  }

  /** The step on the word of at most 32 bits consumes the first of them. */
  lemma PackCons(bits: BitString)
    requires 0 < |bits| <= 32
    ensures Step(Xor(Pack(bits), BitWord(bits[0]))) == Pack(bits[1..])
    ensures Pack(bits) != 0 <==> bits[0] || Pack(bits[1..]) != 0
  {
    PackBelowTop(bits[1..]);
    PushThenStep(Pack(bits[1..]), bits[0]);
  }

  /** Feeding up to 32 bits one by one is xoring their word in and then shifting. */
  lemma {:induction false} RunPack(c: bv32, bits: BitString)
    requires |bits| <= 32
    ensures Run(c, bits) == Steps(Xor(c, Pack(bits)), |bits|)
    decreases |bits|
  {
    if bits == [] {
      XorZero(c);
    } else {
      var b, w := BitWord(bits[0]), Pack(bits);
      XorCancel(c, w, b);
      StepLinear(Xor(c, b), Xor(w, b));
      PackCons(bits);
      RunPack(Step(Xor(c, b)), bits[1..]);
    }
  }

  lemma {:induction false} PackNonZero(bits: BitString, i: nat)
    requires i < |bits| <= 32 && bits[i]
    ensures Pack(bits) != 0
  {
    PackCons(bits);
    if i != 0 {
      PackNonZero(bits[1..], i - 1);
    }
  }
}
