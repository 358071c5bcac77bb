/** The guarantees of the link: messages survive framing, streams of frames decode uniquely,
    and damage to payload or trailer is noticed. */
module IpcLink {
  import opened Crc32
  import opened CrcCheck
  import opened CrcDetect
  import opened CrcPeriod
  import Gf2
  import opened IpcFrame
  import opened Options

  /** JSON and UTF-8 as an inverse pair whose output fits the length field. */
  ghost predicate Codec<M(!new)>(print_: M -> seq<bv8>, parse: seq<bv8> -> Option<M>) {
    forall m: M :: |print_(m)| < UINT32_LIMIT && parse(print_(m)) == Some(m)
  }

  // ---------------------------------------------------------------------- messages

  lemma MessageRoundTrip<M(!new)>(print_: M -> seq<bv8>, parse: seq<bv8> -> Option<M>, m: M, rest: seq<bv8>)
    requires Codec(print_, parse)
    ensures Decode(parse, Whole(Frame(print_(m)) + rest)) == Some(m)
  {
    RoundTrip(print_(m), rest);
    hide Frame, Unframe;
  }

  /** The wire image of a sequence of messages. */
  function Stream<M>(print_: M -> seq<bv8>, ms: seq<M>): seq<bv8> {
    if ms == [] then [] else Frame(print_(ms[0])) + Stream(print_, ms[1..])
  }

  /** Equal byte streams carry equal messages. */
  lemma {:induction false} StreamsDecodeUniquely<M(!new)>(
      print_: M -> seq<bv8>, parse: seq<bv8> -> Option<M>, ms: seq<M>, ns: seq<M>)
    requires Codec(print_, parse) && Stream(print_, ms) == Stream(print_, ns)
    ensures ms == ns
  {
    hide Frame, Unframe;
    if ms != [] && ns != [] {
      var a, b := Stream(print_, ms[1..]), Stream(print_, ns[1..]);
      MessageRoundTrip(print_, parse, ms[0], a);
      MessageRoundTrip(print_, parse, ns[0], b);
      assert ms[0] == ns[0];
      var f := Frame(print_(ms[0]));
      assert a == (f + a)[|f|..] == (f + b)[|f|..] == b;
      StreamsDecodeUniquely(print_, parse, ms[1..], ns[1..]);
    }
  }

  /** Header and checksum are read at the start of the underlying buffer, so a view works for
      whatever precedes it exactly when nothing does. */
  lemma OnlyOffsetZeroIsSafe(payload: seq<bv8>, rest: seq<bv8>, offset: nat)
    requires |payload| < UINT32_LIMIT
    ensures
      (forall prefix: seq<bv8> | |prefix| == offset ::
        Unframe(View(prefix + Frame(payload) + rest, offset, |Frame(payload) + rest|)) == Some(payload))
      <==> offset == 0
  {
    hide Frame, Unframe;
    if offset == 0 {
      forall prefix: seq<bv8> | |prefix| == offset
        ensures Unframe(View(prefix + Frame(payload) + rest, offset, |Frame(payload) + rest|)) == Some(payload)
      {
        RoundTrip(payload, rest);
        assert prefix + Frame(payload) + rest == Frame(payload) + rest;
      }
    } else {
      var prefix := MisleadingPrefix(payload, rest, offset);
    }
  }

  lemma MisleadingPrefix(payload: seq<bv8>, rest: seq<bv8>, offset: nat) returns (prefix: seq<bv8>)
    requires offset > 0
    ensures |prefix| == offset
    ensures Unframe(View(prefix + Frame(payload) + rest, offset, |Frame(payload) + rest|)) != Some(payload)
  {
    hide Frame, Unframe;
    var h := HeaderBytes(|payload|)[0];
    prefix := [h ^ 1] + Nothing(offset - 1);
    FlipDiffers(h);
    hide HeaderBytes, Nothing;
    WrongLength(prefix + Frame(payload) + rest, offset, |Frame(payload) + rest|, payload);
  }

  lemma FlipDiffers(b: bv8)
    ensures b ^ 1 != b
  {
  }

  function Nothing(n: nat): (z: seq<bv8>)
    ensures |z| == n
  {
    seq(n, _ => 0)
  }

  lemma WrongLength(buffer: seq<bv8>, offset: nat, length: nat, payload: seq<bv8>)
    requires offset + length <= |buffer| && length >= 8
    requires buffer[0] != HeaderBytes(|payload|)[0]
    ensures Unframe(View(buffer, offset, length)) != Some(payload)
  {
    hide Crc, Word, HeaderBytes, ReadUint32;
    HeaderOfRead(buffer);
  }

  // ------------------------------------------------------------------------ damage

  /** Payload and trailer as one protected block. */
  function Protected(payload: seq<bv8>): (body: seq<bv8>)
    ensures |body| == |payload| + 4
  {
    payload + LittleEndian(Crc(payload))
  }

  /** A received frame whose length prefix is intact. */
  function Damaged(payload: seq<bv8>, flips: seq<bv8>, rest: seq<bv8>): seq<bv8>
    requires |flips| == |payload| + 4
  {
    HeaderBytes(|payload|) + XorBytes(Protected(payload), flips) + rest
  }

  lemma ProtectedPasses(payload: seq<bv8>)
    ensures Passes(Bits(Protected(payload)))
  {
    LittleEndianRoundTrip(Crc(payload));
    TrailerMatchesIffResidue(payload, LittleEndian(Crc(payload)));
    hide Bits, Crc, Run, LittleEndian, Word;
  }

  /** Decoding whatever follows an intact length prefix. */
  lemma UnframeBody(n: nat, body: seq<bv8>, rest: seq<bv8>)
    requires n < UINT32_LIMIT && |body| == n + 4
    ensures
      Unframe(Whole(HeaderBytes(n) + body + rest)) ==
        if Word(body[n..]) == Crc(body[..n]) then Some(body[..n]) else None
  {
    hide Crc, Word, HeaderBytes, ReadUint32;
    BodySlices(HeaderBytes(n), n, body, rest);
    ReadHeader(n, body + rest);
  }

  lemma BodySlices(header: seq<bv8>, n: nat, body: seq<bv8>, rest: seq<bv8>)
    requires |header| == 4 && |body| == n + 4
    ensures var buffer := header + body + rest;
            && buffer == header + (body + rest)
            && buffer[4..4 + n] == body[..n]
            && buffer[4 + n..4 + n + 4] == body[n..]
  {
  }

  lemma PassesIs(bits: BitString)
    ensures Passes(bits) <==> Run(ONES, bits) == RESIDUE
  {
  }

  /** A body passes the trailer check exactly when its bits end at the residue. */
  lemma BodyPasses(n: nat, body: seq<bv8>)
    requires |body| == n + 4
    ensures Word(body[n..]) == Crc(body[..n]) <==> Passes(Bits(body))
  {
    hide *;
    TrailerMatchesIffResidue(body[..n], body[n..]);
    assert body[..n] + body[n..] == body;
    PassesIs(Bits(body));
  }

  lemma FlippedBodyPasses(payload: seq<bv8>, flips: seq<bv8>)
    requires |flips| == |payload| + 4
    ensures Passes(Bits(XorBytes(Protected(payload), flips))) <==> Undetected(Bits(flips))
  {
    BitsOfXor(Protected(payload), flips);
    ProtectedPasses(payload);
    DamagePasses(Bits(Protected(payload)), Bits(flips));
    hide Bits, Protected, Passes, Undetected, XorBytes;
  }

  lemma XorPrefix(a: seq<bv8>, b: seq<bv8>, flips: seq<bv8>)
    requires |flips| == |a| + |b|
    ensures XorBytes(a + b, flips)[..|a|] == XorBytes(a, flips[..|a|])
  {
    forall i | 0 <= i < |a|
      ensures XorBytes(a + b, flips)[i] == XorBytes(a, flips[..|a|])[i]
    {
      assert (a + b)[i] == a[i] && flips[..|a|][i] == flips[i];
    }
  }

  /** What the decoder makes of a damaged frame, for every damage pattern. */
  lemma DamageDecides(payload: seq<bv8>, flips: seq<bv8>, rest: seq<bv8>)
    requires |payload| < UINT32_LIMIT && |flips| == |payload| + 4
    ensures
      Unframe(Whole(Damaged(payload, flips, rest))) ==
        if Undetected(Bits(flips)) then Some(XorBytes(payload, flips[..|payload|])) else None
  {
    hide Bits, Crc, Word, HeaderBytes, Unframe, Passes, Undetected, XorBytes;
    var n, body := |payload|, XorBytes(Protected(payload), flips);
    XorPrefix(payload, LittleEndian(Crc(payload)), flips);
    UnframeBody(n, body, rest);
    BodyPasses(n, body);
    FlippedBodyPasses(payload, flips);
  }

  /** The exact form of everything the decoder misses: damage goes unnoticed exactly when its
      polynomial is a multiple of the generator. */
  lemma MissesExactlyMultiples(payload: seq<bv8>, flips: seq<bv8>, rest: seq<bv8>)
    requires |payload| < UINT32_LIMIT && |flips| == |payload| + 4
    ensures Unframe(Whole(Damaged(payload, flips, rest))).Some? <==> Gf2.IsMultiple(Gf2.FromBits(Bits(flips)))
  {
    hide *;
    DamageDecides(payload, flips, rest);
    Gf2.UndetectedIffMultiple(Bits(flips));
  }

  /** Any burst of at most 32 bits in payload and trailer makes the decoder return null. */
  lemma BurstRejected<M>(
      parse: seq<bv8> -> Option<M>, payload: seq<bv8>, flips: seq<bv8>, rest: seq<bv8>, first: nat, n: nat)
    requires |payload| < UINT32_LIMIT && |flips| == |payload| + 4
    requires n <= 32 && Burst(Bits(flips), first, n)
    ensures Decode(parse, Whole(Damaged(payload, flips, rest))) == None
  {
    BurstDetected(Bits(flips), first, n);
    DamageDecides(payload, flips, rest);
    hide Bits, Unframe, Damaged;
  }

  /** Two flipped bits are rejected exactly when their distance is not a multiple of 2^32 - 1. */
  lemma PairRejected(payload: seq<bv8>, flips: seq<bv8>, rest: seq<bv8>, i: nat, j: nat)
    requires |payload| < UINT32_LIMIT && |flips| == |payload| + 4
    requires Pair(Bits(flips), i, j)
    ensures Unframe(Whole(Damaged(payload, flips, rest))) == None <==> (j - i) % PERIOD != 0
  {
    PairUndetected(Bits(flips), i, j);
    DamageDecides(payload, flips, rest);
    hide Bits, Unframe, Damaged;
  }

  // ---------------------------------------------------------------- damaged bytes

  lemma {:induction false} BitsAt(data: seq<bv8>, k: nat)
    requires k < 8 * |data|
    ensures Bits(data)[k] == ByteBits(data[k / 8])[k % 8]
    decreases |data|
  {
    hide ByteBits;
    if k >= 8 {
      BitsAt(data[1..], k - 8);
      assert data[1..][(k - 8) / 8] == data[k / 8];
    }
  }

  lemma HalfRaw(w: bv32, m: bv32)
    requires w < m << 1 && w & 1 == 0 && m & 0x8000_0000 == 0
    ensures w >> 1 < m
    ensures w != 0 ==> w >> 1 != 0
  {
  }

  lemma HalfFits(w: bv32, m: bv32)
    requires Below(w, Double(m)) && !IsOdd(w) && m & 0x8000_0000 == 0
    ensures Below(Half(w), m)
    ensures w != 0 ==> Half(w) != 0
  {
    assert Double(m) == m << 1;
    BelowIs(w, m << 1);
    BelowIs(w >> 1, m);
    HalfIs(w);
    HalfRaw(w, m);
  }

  lemma BelowOne(w: bv32)
    requires Below(w, Power(0))
    ensures w == 0
  {
  }

  /** A nonzero word of n bits has one of them set. */
  lemma {:induction false} SomeLowBit(w: bv32, n: nat)
    requires n < 32 && Below(w, Power(n)) && w != 0
    ensures exists j :: 0 <= j < n && LowBits(w, n)[j]
    decreases n
  {
    if n == 0 {
      BelowOne(w);
      assert false;
    } else {
      hide Half, IsOdd, Below, Double;
      if IsOdd(w) {
        assert LowBits(w, n)[0];
      } else {
        PowerFits(n - 1);
        HalfFits(w, Power(n - 1));
        SomeLowBit(Half(w), n - 1);
        var j :| 0 <= j < n - 1 && LowBits(Half(w), n - 1)[j];
        assert LowBits(w, n)[j + 1];
      }
    }
  }

  lemma {:induction false} ZeroBits(n: nat)
    ensures LowBits(0, n) == Zeros(n)
  {
    if n != 0 {
      ZeroBits(n - 1);
      assert !IsOdd(0) && Half(0) == 0;
    }
  }

  lemma ByteBelow256(b: bv8)
    ensures Below(b as bv32, Power(8))
    ensures b != 0 ==> b as bv32 != 0
  {
    assert Power(8) == 0x100;
    BelowIs(b as bv32, 0x100);
  }

  lemma SomeBitOfByte(b: bv8) returns (j: nat)
    requires b != 0
    ensures j < 8 && ByteBits(b)[j]
  {
    ByteBelow256(b);
    hide Below, Power;
    SomeLowBit(b as bv32, 8);
    j :| 0 <= j < 8 && LowBits(b as bv32, 8)[j];
  }

  lemma NoBitOfZero(j: nat)
    requires j < 8
    ensures !ByteBits(0)[j]
  {
    ZeroBits(8);
  }

  /** Damage confined to four consecutive bytes, in payload, trailer or across both, is noticed. */
  lemma FourByteDamageRejected<M>(
      parse: seq<bv8> -> Option<M>, payload: seq<bv8>, flips: seq<bv8>, rest: seq<bv8>, at: nat, hit: nat)
    requires |payload| < UINT32_LIMIT && |flips| == |payload| + 4
    requires at <= hit < |flips| && flips[hit] != 0
    requires forall i :: 0 <= i < |flips| && flips[i] != 0 ==> at <= i < at + 4
    ensures Decode(parse, Whole(Damaged(payload, flips, rest))) == None
  {
    var j := SomeBitOfByte(flips[hit]);
    BitsAt(flips, 8 * hit + j);
    assert (8 * hit + j) / 8 == hit && (8 * hit + j) % 8 == j;
    forall k | 0 <= k < |Bits(flips)| && Bits(flips)[k]
      ensures 8 * at <= k < 8 * at + 32
    {
      BitsAt(flips, k);
      if flips[k / 8] == 0 {
        NoBitOfZero(k % 8);
      }
    }
    BurstRejected(parse, payload, flips, rest, 8 * at, 32);
    hide Bits, ByteBits, Unframe, Damaged;
  }
}
