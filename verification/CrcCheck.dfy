/** The byte-wise checksum loop and the decoder's trailer check. */
module CrcCheck {
  import opened Crc32

  /** The register after a correct payload followed by its own trailer. */
  const RESIDUE: bv32 := 0xdebb_20e3

  // ------------------------------------------------------- running a word's bits

  function Shr(w: bv32, n: nat): bv32
    decreases n
  {
    if n == 0 then w else Shr(Half(w), n - 1)
  }

  lemma OddWord(w: bv32)
    ensures BitWord(IsOdd(w)) == w & 1
  {
    assert w & 1 == 0 || w & 1 == 1;
  }

  lemma SplitLow(c: bv32, w: bv32)
    ensures Xor(c, w) == Xor(Xor(c, BitWord(IsOdd(w))), w ^ (w & 1))
  {
    var b := w & 1;
    XorIs(c, w);
    XorIs(c, b);
    XorIs(c ^ b, w ^ b);
    OddWord(w);
  }

  lemma StepOfHigh(w: bv32)
    ensures Step(w ^ (w & 1)) == Half(w)
  {
    assert (w ^ (w & 1)) & 1 == 0;
    assert (w ^ (w & 1)) >> 1 == w >> 1;
  }

  /** One step consumes the lowest bit of a word that was xored in whole. */
  lemma Peel(c: bv32, w: bv32)
    ensures Step(Xor(c, w)) == Xor(Step(Xor(c, BitWord(IsOdd(w)))), Half(w))
  {
    SplitLow(c, w);
    StepLinear(Xor(c, BitWord(IsOdd(w))), w ^ (w & 1));
    StepOfHigh(w);
  }

  lemma RunCons(c: bv32, b: bool, rest: BitString)
    ensures Run(c, [b] + rest) == Run(Step(Xor(c, BitWord(b))), rest)
  {
    assert ([b] + rest)[1..] == rest;
  }

  /** Xoring a word in and shifting n times runs its n low bits; the rest is left in place. */
  lemma {:induction false} RunLowBits(c: bv32, w: bv32, n: nat)
    ensures Xor(Run(c, LowBits(w, n)), Shr(w, n)) == Steps(Xor(c, w), n)
    decreases n
  {
    if n != 0 {
      Peel(c, w);
      RunCons(c, IsOdd(w), LowBits(Half(w), n - 1));
      RunLowBits(Step(Xor(c, BitWord(IsOdd(w)))), Half(w), n - 1);
    }
  }

  lemma Half8(w: bv32)
    ensures Half(Half(Half(Half(Half(Half(Half(Half(w)))))))) == w >> 8
  {
  }

  lemma {:induction false} ShrAdd(w: bv32, m: nat, n: nat)
    ensures Shr(w, m + n) == Shr(Shr(w, m), n)
    decreases m
  {
    if m != 0 {
      ShrAdd(Half(w), m - 1, n);
    }
  }

  lemma ShrEight(w: bv32)
    ensures Shr(w, 8) == w >> 8
  {
    Half8(w);
    assert Shr(w, 8) == Shr(Half(Half(Half(Half(w)))), 4);
  }

  lemma Shr32(w: bv32, n: nat)
    requires n == 32
    ensures Shr(w, n) == 0
  {
    hide *;
    ShrAdd(w, 8, 24);
    ShrEight(w);
    ShrAdd(w >> 8, 8, 16);
    ShrEight(w >> 8);
    ShrAdd(w >> 16, 8, 8);
    ShrEight(w >> 16);
    ShrEight(w >> 24);
    ShiftsOut(w);
  }

  lemma ShiftsOut(w: bv32)
    ensures (w >> 8) >> 8 == w >> 16 && (w >> 16) >> 8 == w >> 24 && (w >> 24) >> 8 == 0
  {
  }

  lemma ByteShiftsOut(b: bv8)
    ensures Shr(b as bv32, 8) == 0
  {
    var w := b as bv32;
    Half8(w);
    assert Shr(w, 8) == Shr(Half(Half(Half(Half(w)))), 4);
    assert w >> 8 == 0;
  }

  /** The source's inner loop: a byte xored in, then eight shifts. */
  lemma RunByte(c: bv32, b: bv8)
    ensures Run(c, ByteBits(b)) == Steps(Xor(c, b as bv32), 8)
  {
    RunLowBits(c, b as bv32, 8);
    ByteShiftsOut(b);
    XorZero(Run(c, ByteBits(b)));
  }

  lemma RunBytesCons(c: bv32, b: bv8, rest: seq<bv8>)
    ensures Run(c, Bits([b] + rest)) == Run(Steps(Xor(c, b as bv32), 8), Bits(rest))
  {
    hide ByteBits, Steps, Run;
    assert ([b] + rest)[1..] == rest;
    RunConcat(c, ByteBits(b), Bits(rest));
    RunByte(c, b);
  }

  lemma RunBytesSnoc(c: bv32, data: seq<bv8>, b: bv8)
    ensures Run(c, Bits(data + [b])) == Steps(Xor(Run(c, Bits(data)), b as bv32), 8)
  {
    hide ByteBits, Steps, Bits;
    BitsConcat(data, [b]);
    RunConcat(c, Bits(data), Bits([b]));
    RunBytesCons(Run(c, Bits(data)), b, []);
    assert [b] + [] == [b] && Bits([]) == [];
  }

  lemma ShiftOnce(loaded: bv32, j: nat, crc: bv32)
    requires crc == Steps(loaded, j)
    ensures (crc >> 1) ^ (GENERATOR & (0 - (crc & 1))) == Steps(loaded, j + 1)
  {
    Feedback(crc);
    StepsAdd(loaded, j, 1);
    assert Steps(crc, 1) == Step(crc);
  }

  lemma NothingRead(data: seq<bv8>)
    ensures Run(ONES, Bits(data[..0])) == ONES
    ensures data[..|data|] == data
  {
    assert data[..0] == [];
  }

  lemma ByteDone(data: seq<bv8>, i: nat, loaded: bv32)
    requires i < |data| && loaded == Xor(Run(ONES, Bits(data[..i])), data[i] as bv32)
    ensures Steps(loaded, 8) == Run(ONES, Bits(data[..i + 1]))
  {
    hide ByteBits, Bits, Run, Steps;
    RunBytesSnoc(ONES, data[..i], data[i]);
    assert data[..i + 1] == data[..i] + [data[i]];
  }

  lemma NoSteps(c: bv32)
    ensures Steps(c, 0) == c
  {
  }

  /** calculateCRC32: the byte-wise loop computes the bit-serial checksum. */
  method CalculateCrc32(data: seq<bv8>) returns (result: bv32)
    ensures result == Crc(data)
  {
    assert Crc(data) == Xor(Run(ONES, Bits(data)), ONES);
    hide *;
    NothingRead(data);
    var crc := ONES;
    for i := 0 to |data|
      invariant crc == Run(ONES, Bits(data[..i]))
    {
      XorIs(crc, data[i] as bv32);
      crc := crc ^ (data[i] as bv32);
      ghost var loaded := crc;
      ByteDone(data, i, loaded);
      NoSteps(loaded);
      for j := 0 to 8
        invariant crc == Steps(loaded, j)
      {
        ShiftOnce(loaded, j, crc);
        crc := (crc >> 1) ^ (GENERATOR & (0 - (crc & 1)));
      }
    }
    XorIs(crc, ONES);
    result := crc ^ ONES;
  }

  // ------------------------------------------------------------ the trailer check

  function JoinByte(b: bv8, v: bv32): bv32 { (b as bv32) | (v << 8) }

  /** The value of a little-endian byte string of at most four bytes. */
  function Word(t: seq<bv8>): bv32 {
    if t == [] then 0 else JoinByte(t[0], Word(t[1..]))
  }

  /** The four bytes of a word, lowest first. */
  function LittleEndian(w: bv32): (t: seq<bv8>)
    ensures |t| == 4
  {
    [(w & 0xff) as bv8, ((w >> 8) & 0xff) as bv8, ((w >> 16) & 0xff) as bv8, ((w >> 24) & 0xff) as bv8]
  }

  /** Word of four bytes is what getUint32(offset, true) reads. */
  lemma WordOfFour(t: seq<bv8>)
    requires |t| == 4
    ensures Word(t) == (t[0] as bv32) | (t[1] as bv32 << 8) | (t[2] as bv32 << 16) | (t[3] as bv32 << 24)
  {
    assert t[3..][1..] == [] && t[2..][1..] == t[3..] && t[1..][1..] == t[2..];
    assert Word(t) == JoinByte(t[0], Word(t[1..])) && Word(t[1..]) == JoinByte(t[1], Word(t[2..]));
    assert Word(t[2..]) == JoinByte(t[2], Word(t[3..])) && Word(t[3..]) == JoinByte(t[3], 0);
    JoinFour(t[0], t[1], t[2], t[3]);
  }

  lemma JoinFour(a: bv8, b: bv8, c: bv8, d: bv8)
    ensures JoinByte(a, JoinByte(b, JoinByte(c, JoinByte(d, 0))))
         == (a as bv32) | (b as bv32 << 8) | (c as bv32 << 16) | (d as bv32 << 24)
  {
  }

  lemma BytesOfWord(w: bv32)
    ensures
      ((w & 0xff) as bv8 as bv32) | (((w >> 8) & 0xff) as bv8 as bv32 << 8) |
      (((w >> 16) & 0xff) as bv8 as bv32 << 16) | (((w >> 24) & 0xff) as bv8 as bv32 << 24) == w
  {
  }

  /** Reading back a word written with setUint32(offset, w, true). */
  lemma LittleEndianRoundTrip(w: bv32)
    ensures Word(LittleEndian(w)) == w
  {
    WordOfFour(LittleEndian(w));
    BytesOfWord(w);
  }

  lemma WordBound1(b: bv8, v: bv32)
    requires v < 0x1_0000
    ensures JoinByte(b, v) < 0x100_0000
    ensures v < 0x100 ==> JoinByte(b, v) < 0x1_0000
    ensures v == 0 ==> JoinByte(b, v) < 0x100
  {
  }

  lemma WordBound(t: seq<bv8>)
    requires |t| <= 3
    ensures Word(t) < 0x100_0000
    ensures |t| <= 2 ==> Word(t) < 0x1_0000
    ensures |t| <= 1 ==> Word(t) < 0x100
  {
    if t != [] {
      WordBound(t[1..]);
      WordBound1(t[0], Word(t[1..]));
    }
  }

  lemma StepUndoes8(v: bv32)
    requires v < 0x100_0000
    ensures Steps(v << 8, 8) == v
  {
    assert v << 8 == (v << 7) << 1 && v << 7 == (v << 6) << 1 && v << 6 == (v << 5) << 1 && v << 5 == (v << 4) << 1;
    assert v << 4 == (v << 3) << 1 && v << 3 == (v << 2) << 1 && v << 2 == (v << 1) << 1;
    StepUndoesShift(v << 7);
    StepUndoesShift(v << 6);
    StepUndoesShift(v << 5);
    StepUndoesShift(v << 4);
    StepUndoesShift(v << 3);
    StepUndoesShift(v << 2);
    StepUndoesShift(v << 1);
    StepUndoesShift(v);
  }

  lemma ByteOrWord(b: bv8, v: bv32)
    ensures JoinByte(b, v) == Xor(b as bv32, v << 8)
  {
    XorIs(b as bv32, v << 8);
    OrIsXor(b, v);
  }

  lemma OrIsXor(b: bv8, v: bv32)
    ensures (b as bv32) | (v << 8) == (b as bv32) ^ (v << 8)
  {
  }

  /** Eight shifts consume the low byte of a word that was xored in whole. */
  lemma PeelByte(c: bv32, b: bv8, v: bv32)
    requires v < 0x100_0000
    ensures Steps(Xor(c, JoinByte(b, v)), 8) == Xor(Steps(Xor(c, b as bv32), 8), v)
  {
    var w := b as bv32;
    ByteOrWord(b, v);
    StepUndoes8(v);
    XorRotate(c, w, v << 8);
    StepsLinear(Xor(c, w), v << 8, 8);
  }

  lemma WordCons(b: bv8, rest: seq<bv8>)
    ensures Word([b] + rest) == JoinByte(b, Word(rest))
  {
    assert ([b] + rest)[1..] == rest;
  }

  lemma NothingToRun(c: bv32)
    ensures Run(c, Bits([])) == c == Xor(c, Word([])) == Steps(c, 0)
  {
    XorZero(c);
  }

  /** Running up to four bytes is xoring their little-endian value in and shifting. */
  lemma {:induction false} RunWord(c: bv32, t: seq<bv8>)
    requires |t| <= 4
    ensures Run(c, Bits(t)) == Steps(Xor(c, Word(t)), 8 * |t|)
    decreases |t|
  {
    hide *;
    if t == [] {
      NothingToRun(c);
    } else {
      var b, rest := t[0], t[1..];
      assert t == [b] + rest;
      WordCons(b, rest);
      RunBytesCons(c, b, rest);
      RunWord(Steps(Xor(c, b as bv32), 8), rest);
      WordBound(rest);
      PeelByte(c, b, Word(rest));
      StepsAdd(Xor(c, Word(t)), 8, 8 * |rest|);
    }
  }

  lemma ResidueSteps(n: nat)
    requires n == 32
    ensures Steps(ONES, n) == RESIDUE
  {
    assert Steps(0xffff_ffff, 4) == 0xb242_0de3;
    assert Steps(0xb242_0de3, 4) == 0x2dfd_1072;
    assert Steps(0x2dfd_1072, 4) == 0x39b1_f1cf;
    assert Steps(0x39b1_f1cf, 4) == 0xbe26_ed00;
    assert Steps(0xbe26_ed00, 4) == 0x0be2_6ed0;
    assert Steps(0x0be2_6ed0, 4) == 0x00be_26ed;
    assert Steps(0x00be_26ed, 4) == 0x86d8_30ba;
    assert Steps(0x86d8_30ba, 4) == 0xdebb_20e3;
    StepsAdd(ONES, 4, 4);
    StepsAdd(ONES, 8, 4);
    StepsAdd(ONES, 12, 4);
    StepsAdd(ONES, 16, 4);
    StepsAdd(ONES, 20, 4);
    StepsAdd(ONES, 24, 4);
    StepsAdd(ONES, 28, 4);
  }

  /** Residue characterisation: the trailer passes the decoder's comparison exactly when
      the register, run over payload and trailer together, ends at one fixed value. */
  lemma TrailerMatchesIffResidue(payload: seq<bv8>, trailer: seq<bv8>)
    requires |trailer| == 4
    ensures Word(trailer) == Crc(payload) <==> Run(ONES, Bits(payload + trailer)) == RESIDUE
  {
    var r, w := Run(ONES, Bits(payload)), Word(trailer);
    BitsConcat(payload, trailer);
    RunConcat(ONES, Bits(payload), Bits(trailer));
    RunWord(r, trailer);
    ResidueSteps(8 * |trailer|);
    if Steps(Xor(r, w), 8 * |trailer|) == RESIDUE {
      StepsInjective(Xor(r, w), ONES, 8 * |trailer|);
    }
    XorMoves(r, w);
  }

  lemma XorMoves(r: bv32, w: bv32)
    ensures w == Xor(r, ONES) <==> Xor(r, w) == ONES
  {
    XorRotate(r, r, w);
    XorRotate(r, r, ONES);
    XorZero(r);
    XorZero(w);
    XorZero(ONES);
  }
}
