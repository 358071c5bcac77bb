/** What the trailer check detects. An error pattern is a bit string added to payload and
    trailer together; it goes unnoticed exactly when its own run from the zero register ends
    at zero. Bursts and pairs of flipped bits are decided from that. */
module CrcDetect {
  import opened Crc32
  import opened CrcCheck
  import opened CrcPowers
  import opened CrcPeriod

  function XorBytes(a: seq<bv8>, b: seq<bv8>): (c: seq<bv8>)
    requires |a| == |b|
    ensures |c| == |a|
  {
    seq(|a|, i requires 0 <= i < |a| => a[i] ^ b[i])
  }

  // ------------------------------------------------------ flips of bytes as bits

  lemma ByteXorWord(a: bv8, b: bv8)
    ensures (a ^ b) as bv32 == Xor(a as bv32, b as bv32)
  {
    XorIs(a as bv32, b as bv32);
  }

  lemma LowBitOfXor(v: bv32, w: bv32)
    ensures IsOdd(Xor(v, w)) == (IsOdd(v) != IsOdd(w))
    ensures Half(Xor(v, w)) == Xor(Half(v), Half(w))
  {
    XorIs(v, w);
    XorIs(v >> 1, w >> 1);
    OddIs(v ^ w);
    OddIs(v);
    OddIs(w);
    OddXor(v, w);
    ShiftXor(v, w);
    HalfIs(v ^ w);
    HalfIs(v);
    HalfIs(w);
  }

  lemma OddIs(v: bv32)
    ensures IsOdd(v) == (v & 1 == 1)
  {
    assert v & 1 == 0 || v & 1 == 1;
  }

  lemma HalfIs(v: bv32)
    ensures Half(v) == v >> 1
  {
  }

  lemma {:induction false} LowBitsOfXor(v: bv32, w: bv32, n: nat)
    ensures LowBits(Xor(v, w), n) == XorBits(LowBits(v, n), LowBits(w, n))
    decreases n
  {
    hide Xor, IsOdd, Half;
    if n != 0 {
      LowBitOfXor(v, w);
      LowBitsOfXor(Half(v), Half(w), n - 1);
    }
  }

  lemma XorBitsConcat(a: BitString, b: BitString, c: BitString, d: BitString)
    requires |a| == |c| && |b| == |d|
    ensures XorBits(a + b, c + d) == XorBits(a, c) + XorBits(b, d)
  {
  }

  /** Flipping bits inside bytes flips the same positions of the transmitted bit string. */
  lemma {:induction false} BitsOfXor(a: seq<bv8>, b: seq<bv8>)
    requires |a| == |b|
    ensures Bits(XorBytes(a, b)) == XorBits(Bits(a), Bits(b))
  {
    if a != [] {
      assert XorBytes(a, b)[1..] == XorBytes(a[1..], b[1..]);
      BitsOfXor(a[1..], b[1..]);
      ByteXorWord(a[0], b[0]);
      BitsOfByteXor(a[0], b[0]);
      XorBitsConcat(ByteBits(a[0]), Bits(a[1..]), ByteBits(b[0]), Bits(b[1..]));
      hide ByteBits, LowBits, Xor;
    }
  }

  lemma BitsOfByteXor(a: bv8, b: bv8)
    ensures ByteBits(a ^ b) == XorBits(ByteBits(a), ByteBits(b))
  {
    ByteXorWord(a, b);
    LowBitsOfXor(a as bv32, b as bv32, 8);
    hide LowBits, Xor;
  }

  // --------------------------------------------------------- undetected patterns

  /** Accepted by the decoder's comparison, by the residue characterisation. */
  predicate Passes(body: BitString) { Run(ONES, body) == RESIDUE }

  /** The pattern alone, run from the zero register, ends at zero. */
  predicate Undetected(flips: BitString) { Run(0, flips) == 0 }

  /** A damaged body passes exactly when the damage itself is undetected. */
  lemma DamagePasses(body: BitString, flips: BitString)
    requires |body| == |flips| && Passes(body)
    ensures Passes(XorBits(body, flips)) <==> Undetected(flips)
  {
    hide Step;
    RunLinear(ONES, 0, body, flips);
    XorZero(ONES);
    var r := Run(0, flips);
    XorZero(RESIDUE);
    XorRotate(RESIDUE, RESIDUE, r);
    XorZero(r);
    hide Xor, Run;
  }

  lemma StepsZeroOnly(c: bv32, n: nat)
    requires Steps(c, n) == 0
    ensures c == 0
  {
    StepsOfZero(n);
    StepsInjective(c, 0, n);
  }

  /** Leading zeros do nothing and trailing zeros lose nothing. */
  lemma UndetectedCore(lead: nat, core: BitString, trail: nat)
    ensures Undetected(Zeros(lead) + core + Zeros(trail)) <==> Undetected(core)
  {
    hide Step, Steps;
    RunConcat(0, Zeros(lead) + core, Zeros(trail));
    RunConcat(0, Zeros(lead), core);
    RunZeros(0, lead);
    StepsOfZero(lead);
    RunZeros(Run(0, core), trail);
    if Steps(Run(0, core), trail) == 0 {
      StepsZeroOnly(Run(0, core), trail);
    }
    StepsOfZero(trail);
  }

  // ---------------------------------------------------------------------- bursts

  /** Some bit is flipped, and all flipped bits lie within n consecutive positions. */
  predicate Burst(flips: BitString, first: nat, n: nat) {
    && (exists k :: first <= k < |flips| && flips[k])
    && forall k :: 0 <= k < |flips| && flips[k] ==> first <= k < first + n
  }

  lemma ShortPatternDetected(core: BitString, i: nat)
    requires i < |core| <= 32 && core[i]
    ensures !Undetected(core)
  {
    RunPack(0, core);
    XorZero(Pack(core));
    PackNonZero(core, i);
    if Undetected(core) {
      StepsZeroOnly(Pack(core), |core|);
    }
  }

  /** Every burst of at most 32 bits is detected, wherever it falls. */
  lemma BurstDetected(flips: BitString, first: nat, n: nat)
    requires n <= 32 && Burst(flips, first, n)
    ensures !Undetected(flips)
  {
    hide Undetected;
    var k :| first <= k < |flips| && flips[k];
    var last := if first + n <= |flips| then first + n else |flips|;
    var core := flips[first..last];
    assert core[k - first];
    ShortPatternDetected(core, k - first);
    UndetectedCore(first, core, |flips| - last);
    CutOut(flips, first, last);
  }

  lemma CutOut(flips: BitString, first: nat, last: nat)
    requires first <= last <= |flips|
    requires forall k :: 0 <= k < |flips| && flips[k] ==> first <= k < last
    ensures flips == Zeros(first) + flips[first..last] + Zeros(|flips| - last)
  {
  }

  // -------------------------------------------------------------- two flipped bits

  /** Exactly the bits at i and j are flipped. */
  predicate Pair(flips: BitString, i: nat, j: nat) {
    && i < j < |flips|
    && forall k :: 0 <= k < |flips| ==> (flips[k] <==> k == i || k == j)
  }

  lemma RunOne(c: bv32)
    ensures Run(c, [true]) == Step(Xor(c, 1))
  {
    assert [true][1..] == [];
    assert Run(Step(Xor(c, 1)), []) == Step(Xor(c, 1));
    hide Step, Xor;
  }

  lemma StepZeroOnly(c: bv32)
    ensures Step(c) == 0 <==> c == 0
  {
    if Step(c) == 0 {
      StepInjective(c, 0);
    }
  }

  lemma PairCore(d: nat)
    requires d > 0
    ensures Undetected([true] + Zeros(d - 1) + [true]) <==> d % PERIOD == 0
  {
    var mid := Zeros(d - 1);
    var c := Steps(1, d);
    RunConcat(0, [true] + mid, [true]);
    RunConcat(0, [true], mid);
    RunOne(0);
    XorZero(1);
    RunZeros(Step(1), d - 1);
    assert Steps(1, d) == Steps(Step(1), d - 1);
    RunOne(c);
    StepZeroOnly(Xor(c, 1));
    XorIsZero(c, 1);
    OneReturns(d);
    hide Step, Steps, Xor, Run;
  }

  /** Two flipped bits go unnoticed exactly when their distance is a multiple of 2^32 - 1. */
  lemma PairUndetected(flips: BitString, i: nat, j: nat)
    requires Pair(flips, i, j)
    ensures Undetected(flips) <==> (j - i) % PERIOD == 0
  {
    var core := [true] + Zeros(j - i - 1) + [true];
    PairCore(j - i);
    UndetectedCore(i, core, |flips| - j - 1);
    assert flips == Zeros(i) + core + Zeros(|flips| - j - 1);
  }
}
