/** Length-delimited frames of common/protocol/ipc-protocol.ts: [length:4][payload][crc:4],
    all integers little-endian. JSON and UTF-8 are a printer and a parser passed as parameters. */
module IpcFrame {
  import opened Crc32
  import opened CrcCheck
  import opened Options

  const UINT32_LIMIT: nat := 0x1_0000_0000

  // ----------------------------------------------------------- numbers as 32-bit words

  function Pow2(k: nat): nat { if k == 0 then 1 else 2 * Pow2(k - 1) }

  /** The k low binary digits of a number, lowest first. */
  function Digits(n: nat, k: nat): (bits: BitString)
    ensures |bits| == k
    decreases k
  {
    if k == 0 then [] else [n % 2 == 1] + Digits(n / 2, k - 1)
  }

  function Value(bits: BitString): nat {
    if bits == [] then 0 else (if bits[0] then 1 else 0) + 2 * Value(bits[1..])
  }

  /** ToUint32: the word holding the 32 low binary digits of a number. */
  function WordOf(n: nat): bv32 { Pack(Digits(n, 32)) }

  function NumberOf(w: bv32): nat { Value(LowBits(w, 32)) }

  lemma {:induction false} ValueOfDigits(n: nat, k: nat)
    requires n < Pow2(k)
    ensures Value(Digits(n, k)) == n
    decreases k
  {
    if k != 0 {
      ValueOfDigits(n / 2, k - 1);
      assert Digits(n, k)[1..] == Digits(n / 2, k - 1);
    }
  }

  lemma {:induction false} ValueBelow(bits: BitString)
    ensures Value(bits) < Pow2(|bits|)
  {
    if bits != [] {
      ValueBelow(bits[1..]);
    }
  }

  lemma Pow2Of32(k: nat)
    requires k == 32
    ensures Pow2(k) == UINT32_LIMIT
  {
    assert Pow2(8) == 0x100;
    assert Pow2(16) == 0x1_0000;
    assert Pow2(24) == 0x100_0000;
    assert Pow2(32) == UINT32_LIMIT;
  }

  lemma PushParts(v: bv32, b: bool)
    requires Below(v, 0x8000_0000)
    ensures IsOdd(Push(v, b)) == b && Half(Push(v, b)) == v
  {
    PushIs(v);
    BelowIs(v, 0x8000_0000);
    ShiftParts(v);
    if b {
      assert Push(v, b) == (v << 1) | 1;
    } else {
      assert Push(v, b) == v << 1;
    }
  }

  lemma ShiftParts(v: bv32)
    requires v < 0x8000_0000
    ensures IsOdd((v << 1) | 1) && !IsOdd(v << 1)
    ensures Half((v << 1) | 1) == v && Half(v << 1) == v
  {
  }

  lemma {:induction false} LowBitsOfPack(bits: BitString, n: nat)
    requires |bits| == n <= 32
    ensures LowBits(Pack(bits), n) == bits
    decreases n
  {
    if n != 0 {
      PackBelowTop(bits[1..]);
      PushParts(Pack(bits[1..]), bits[0]);
      LowBitsOfPack(bits[1..], n - 1);
      hide Push, Half, IsOdd;
    }
  }

  lemma PushHalf(w: bv32)
    ensures Push(Half(w), IsOdd(w)) == w
  {
    PushIs(Half(w));
    RejoinRaw(w);
    if IsOdd(w) {
      assert Push(Half(w), true) == (Half(w) << 1) | 1;
    } else {
      assert Push(Half(w), false) == Half(w) << 1;
    }
  }

  lemma RejoinRaw(w: bv32)
    ensures IsOdd(w) ==> (Half(w) << 1) | 1 == w
    ensures !IsOdd(w) ==> Half(w) << 1 == w
  {
  }

  lemma {:induction false} PackOfLowBits(w: bv32, n: nat)
    requires Shr(w, n) == 0
    ensures Pack(LowBits(w, n)) == w
    decreases n
  {
    hide Push, Half, IsOdd;
    if n != 0 {
      PackOfLowBits(Half(w), n - 1);
      PushHalf(w);
      assert LowBits(w, n)[1..] == LowBits(Half(w), n - 1);
    }
  }

  lemma NumberRoundTrip(n: nat)
    requires n < UINT32_LIMIT
    ensures NumberOf(WordOf(n)) == n
  {
    Pow2Of32(32);
    ValueOfDigits(n, 32);
    LowBitsOfPack(Digits(n, 32), 32);
    hide LowBits, Pack, Digits, Value, Pow2;
  }

  lemma NumberBelow(w: bv32)
    ensures NumberOf(w) < UINT32_LIMIT
  {
    Pow2Of32(32);
    ValueBelow(LowBits(w, 32));
    hide LowBits, Value, Pow2;
  }

  lemma {:induction false} DigitsOfValue(bits: BitString, n: nat)
    requires |bits| == n
    ensures Digits(Value(bits), n) == bits
    decreases n
  {
    if n != 0 {
      DigitsOfValue(bits[1..], n - 1);
      assert Value(bits) / 2 == Value(bits[1..]);
    }
  }

  lemma WordRoundTrip(w: bv32)
    ensures WordOf(NumberOf(w)) == w
  {
    DigitsOfValue(LowBits(w, 32), 32);
    Shr32(w, 32);
    PackOfLowBits(w, 32);
    hide LowBits, Pack, Digits, Value, Shr;
  }

  // --------------------------------------------------------------- length prefix

  /** setUint32(offset, n, true) */
  function HeaderBytes(n: nat): (h: seq<bv8>)
    ensures |h| == 4
  {
    LittleEndian(WordOf(n))
  }

  /** getUint32(offset, true) */
  function ReadUint32(buffer: seq<bv8>, at: nat): nat
    requires at + 4 <= |buffer|
  {
    NumberOf(Word(buffer[at..at + 4]))
  }

  lemma LittleEndianOfWord(t: seq<bv8>)
    requires |t| == 4
    ensures LittleEndian(Word(t)) == t
  {
    WordOfFour(t);
    BytesOfJoin(t[0], t[1], t[2], t[3]);
    hide Word;
  }

  lemma BytesOfJoin(a: bv8, b: bv8, c: bv8, d: bv8)
    ensures LittleEndian((a as bv32) | (b as bv32 << 8) | (c as bv32 << 16) | (d as bv32 << 24)) == [a, b, c, d]
  {
  }

  // ---------------------------------------------------------- the header bit by bit

  function Mask(n: nat): bv32 { if n == 0 then 0 else Push(Mask(n - 1), true) }

  predicate Agree(w: bv32, x: bv32, m: bv32) { w & m == x & m }

  lemma AgreeHalf(w: bv32, x: bv32, m: bv32)
    requires Agree(w, x, Push(m, true)) && m & 0x8000_0000 == 0
    ensures IsOdd(w) == IsOdd(x) && Agree(Half(w), Half(x), m)
  {
    AgreeHalfRaw(w, x, m);
  }

  lemma AgreeHalfRaw(w: bv32, x: bv32, m: bv32)
    requires w & ((m << 1) | 1) == x & ((m << 1) | 1) && m & 0x8000_0000 == 0
    ensures (w & 1 != 0) == (x & 1 != 0) && (w >> 1) & m == (x >> 1) & m
  {
  }

  lemma {:induction false} MaskSmall(n: nat)
    requires n <= 8
    ensures Mask(n) & 0xffff_ff00 == 0
  {
    if n > 0 {
      MaskSmall(n - 1);
      assert Mask(1) == 1 && Mask(2) == 3 && Mask(3) == 7 && Mask(4) == 0xf;
      assert Mask(5) == 0x1f && Mask(6) == 0x3f && Mask(7) == 0x7f && Mask(8) == 0xff;
    }
  }

  lemma SmallTop(m: bv32)
    requires m & 0xffff_ff00 == 0
    ensures m & 0x8000_0000 == 0
  {
  }

  lemma {:induction false} LowBitsAgree(w: bv32, x: bv32, n: nat)
    requires n <= 8 && Agree(w, x, Mask(n))
    ensures LowBits(w, n) == LowBits(x, n)
    decreases n
  {
    hide Agree, Half, IsOdd, Push;
    if n > 0 {
      MaskSmall(n - 1);
      SmallTop(Mask(n - 1));
      AgreeHalf(w, x, Mask(n - 1));
      LowBitsAgree(Half(w), Half(x), n - 1);
    }
  }

  lemma {:induction false} LowBitsSplit(w: bv32, m: nat, n: nat)
    ensures LowBits(w, m + n) == LowBits(w, m) + LowBits(Shr(w, m), n)
    decreases m
  {
    hide Half, IsOdd;
    if m == 0 {
      assert LowBits(w, 0) + LowBits(w, n) == LowBits(w, n);
    } else {
      LowBitsSplit(Half(w), m - 1, n);
    }
  }

  lemma JoinedAgrees(b: bv8, v: bv32, n: nat)
    requires n == 8
    ensures Agree(JoinByte(b, v), b as bv32, Mask(n))
  {
    assert Mask(4) == 0xf;
    assert Mask(8) == 0xff;
    JoinedRaw(b, v);
    hide Mask, JoinByte;
  }

  lemma JoinedRaw(b: bv8, v: bv32)
    ensures JoinByte(b, v) & 0xff == b as bv32 & 0xff
  {
  }

  lemma JoinedHigh(b: bv8, v: bv32)
    requires v < 0x100_0000
    ensures Shr(JoinByte(b, v), 8) == v
  {
    JoinedHighRaw(b, v);
    ShrEight(JoinByte(b, v));
    hide Shr, JoinByte;
  }

  lemma JoinedHighRaw(b: bv8, v: bv32)
    requires v < 0x100_0000
    ensures JoinByte(b, v) >> 8 == v
  {
  }

  lemma ByteBitsAre(b: bv8)
    ensures ByteBits(b) == LowBits(b as bv32, 8)
  {
    hide LowBits;
  }

  lemma JoinedBits(b: bv8, v: bv32, n: nat)
    requires v < 0x100_0000
    ensures LowBits(JoinByte(b, v), 8 + n) == ByteBits(b) + LowBits(v, n)
  {
    hide *;
    JoinedAgrees(b, v, 8);
    LowBitsAgree(JoinByte(b, v), b as bv32, 8);
    JoinedHigh(b, v);
    LowBitsSplit(JoinByte(b, v), 8, n);
    ByteBitsAre(b);
  }

  lemma NoBits()
    ensures Bits([]) == [] == LowBits(Word([]), 0)
  {
  }

  lemma BitsCons(b: bv8, rest: seq<bv8>)
    ensures Bits([b] + rest) == ByteBits(b) + Bits(rest)
  {
    assert ([b] + rest)[1..] == rest;
    hide ByteBits;
  }

  /** The bits of up to four bytes are the low bits of their little-endian value. */
  lemma {:induction false} BitsOfWord(t: seq<bv8>)
    requires |t| <= 4
    ensures Bits(t) == LowBits(Word(t), 8 * |t|)
  {
    hide *;
    if t == [] {
      NoBits();
    } else {
      var rest := t[1..];
      BitsOfWord(rest);
      WordBound(rest);
      WordCons(t[0], rest);
      BitsCons(t[0], rest);
      assert [t[0]] + rest == t;
      JoinedBits(t[0], Word(rest), 8 * |rest|);
    }
  }

  /** The header in transmission order is the length in binary, lowest digit first. */
  lemma HeaderIsBinary(n: nat)
    ensures Bits(HeaderBytes(n)) == Digits(n, 32)
    ensures n < 0x1_0000_0000 ==> Value(Bits(HeaderBytes(n))) == n
  {
    BitsOfWord(HeaderBytes(n));
    LittleEndianRoundTrip(WordOf(n));
    LowBitsOfPack(Digits(n, 32), 32);
    Pow2Of32(32);
    if n < 0x1_0000_0000 {
      ValueOfDigits(n, 32);
    }
    hide Bits, LittleEndian, Word, LowBits, Pack, Digits, Pow2, Value;
  }

  lemma ReadHeader(n: nat, rest: seq<bv8>)
    requires n < UINT32_LIMIT
    ensures ReadUint32(HeaderBytes(n) + rest, 0) == n
  {
    assert (HeaderBytes(n) + rest)[0..4] == HeaderBytes(n);
    LittleEndianRoundTrip(WordOf(n));
    NumberRoundTrip(n);
    hide LittleEndian, Word, WordOf, NumberOf;
  }

  lemma HeaderOfRead(buffer: seq<bv8>)
    requires |buffer| >= 4
    ensures HeaderBytes(ReadUint32(buffer, 0)) == buffer[..4]
    ensures ReadUint32(buffer, 0) < UINT32_LIMIT
  {
    assert buffer[0..4] == buffer[..4];
    WordRoundTrip(Word(buffer[..4]));
    NumberBelow(Word(buffer[..4]));
    LittleEndianOfWord(buffer[..4]);
    hide LittleEndian, Word, WordOf, NumberOf;
  }

  lemma HeaderInjective(m: nat, n: nat)
    requires m < UINT32_LIMIT && n < UINT32_LIMIT && HeaderBytes(m) == HeaderBytes(n)
    ensures m == n
  {
    ReadHeader(m, []);
    ReadHeader(n, []);
    hide HeaderBytes, ReadUint32;
  }

  // ------------------------------------------------------------- encode and decode

  /** The bytes encodeIPCMessage returns for a payload. */
  function Frame(payload: seq<bv8>): (f: seq<bv8>)
    ensures |f| == |payload| + 8
  {
    HeaderBytes(|payload|) + payload + LittleEndian(Crc(payload))
  }

  /** DataView.setUint32 on the buffer, with the four bytes already in little-endian order. */
  method SetUint32(bytes: array<bv8>, at: nat, value: seq<bv8>)
    requires at + 4 <= bytes.Length && |value| == 4
    modifies bytes
    ensures bytes[..] == old(bytes[..at]) + value + old(bytes[at + 4..])
  {
    bytes[at], bytes[at + 1], bytes[at + 2], bytes[at + 3] := value[0], value[1], value[2], value[3];
  }

  /** encodeIPCMessage after JSON printing: the buffer is filled in place. */
  method EncodeFrame(payload: seq<bv8>) returns (bytes: array<bv8>)
    ensures fresh(bytes) && bytes[..] == Frame(payload)
  {
    var crc := CalculateCrc32(payload);
    hide Crc, HeaderBytes, LittleEndian;
    var header, trailer, end := HeaderBytes(|payload|), LittleEndian(crc), 4 + |payload|;
    bytes := new bv8[end + 4];
    SetUint32(bytes, 0, header);
    assert bytes[..4] == header;
    forall i | 0 <= i < |payload| {
      bytes[4 + i] := payload[i];
    }
    assert bytes[..4] == header && bytes[4..end] == payload;
    assert bytes[..end] == header + payload;
    SetUint32(bytes, end, trailer);
  }

  /** A Uint8Array: a window on an underlying ArrayBuffer. */
  datatype View = View(buffer: seq<bv8>, byteOffset: nat, length: nat) {
    predicate Valid() { byteOffset + length <= |buffer| }
  }

  function Whole(buffer: seq<bv8>): (v: View)
    ensures v.Valid()
  {
    View(buffer, 0, |buffer|)
  }

  /** decodeIPCMessage up to the parser. As in the source, length and checksum are read at the
      start of the underlying buffer, the payload at the start of the view. */
  function Unframe(data: View): (payload: Option<seq<bv8>>)
    requires data.Valid()
  {
    if data.length < 8 then None
    else
      var length := ReadUint32(data.buffer, 0);
      if data.length < 4 + length + 4 then None
      else
        var payload := data.buffer[data.byteOffset + 4..data.byteOffset + 4 + length];
        var trailer := data.buffer[4 + length..4 + length + 4];
        if Word(trailer) != Crc(payload) then None else Some(payload)
  }

  function Decode<M>(parse: seq<bv8> -> Option<M>, data: View): Option<M>
    requires data.Valid()
  {
    match Unframe(data)
    case None => None
    case Some(payload) => parse(payload)
  }

  // ------------------------------------------------------------- what is accepted

  lemma FramesAreAccepted(payload: seq<bv8>, rest: seq<bv8>)
    requires |payload| < UINT32_LIMIT
    ensures Unframe(Whole(Frame(payload) + rest)) == Some(payload)
  {
    hide Crc, HeaderBytes, Word, LittleEndian;
    var n, crc := |payload|, LittleEndian(Crc(payload));
    var buffer, tail := Frame(payload) + rest, payload + crc + rest;
    assert buffer == HeaderBytes(n) + tail;
    ReadHeader(n, tail);
    hide ReadUint32;
    LittleEndianRoundTrip(Crc(payload));
    assert buffer[4..4 + n] == payload;
    assert buffer[4 + n..4 + n + 4] == crc;
  }

  lemma AcceptedIsFrame(buffer: seq<bv8>, payload: seq<bv8>)
    requires Unframe(Whole(buffer)) == Some(payload)
    ensures |payload| < UINT32_LIMIT && Frame(payload) <= buffer
  {
    hide Crc, HeaderBytes, Word, LittleEndian, ReadUint32;
    var n := ReadUint32(buffer, 0);
    var trailer := buffer[4 + n..4 + n + 4];
    assert |payload| == n && payload == buffer[4..4 + n];
    HeaderOfRead(buffer);
    LittleEndianOfWord(trailer);
    assert Frame(payload) == buffer[..4] + payload + trailer;
    assert buffer[..4] + buffer[4..4 + n] + trailer == buffer[..n + 8];
  }

  /** The decoder accepts a buffer exactly when it starts with a frame, and returns that
      frame's payload; the length field limits payloads to 2^32 - 1 bytes. */
  lemma AcceptsExactlyFrames(buffer: seq<bv8>, payload: seq<bv8>)
    ensures Unframe(Whole(buffer)) == Some(payload)
       <==> |payload| < UINT32_LIMIT && Frame(payload) <= buffer
  {
    hide Frame;
    if |payload| < UINT32_LIMIT && Frame(payload) <= buffer {
      assert buffer == Frame(payload) + buffer[|Frame(payload)|..];
      FramesAreAccepted(payload, buffer[|Frame(payload)|..]);
    }
    if Unframe(Whole(buffer)) == Some(payload) {
      AcceptedIsFrame(buffer, payload);
    }
    hide Unframe;
  }

  /** Round trip with trailing bytes; beyond the length field's range it never holds. */
  lemma RoundTrip(payload: seq<bv8>, rest: seq<bv8>)
    ensures Unframe(Whole(Frame(payload) + rest)) == Some(payload) <==> |payload| < UINT32_LIMIT
  {
    AcceptsExactlyFrames(Frame(payload) + rest, payload);
  }

  lemma FramePrefix(payload: seq<bv8>)
    ensures Frame(payload)[..4] == HeaderBytes(|payload|)
  {
    hide HeaderBytes, Crc, LittleEndian;
  }

  /** A frame does not fit into a strict prefix of another one. */
  lemma FramesDoNotNest(payload: seq<bv8>, n: nat, other: seq<bv8>)
    requires |payload| < UINT32_LIMIT && |other| < UINT32_LIMIT && n < |payload| + 8
    ensures !(Frame(other) <= Frame(payload)[..n])
  {
    hide *;
    FramePrefix(payload);
    FramePrefix(other);
    if Frame(other) <= Frame(payload)[..n] {
      assert Frame(other)[..4] == Frame(payload)[..4];
      HeaderInjective(|other|, |payload|);
    }
  }

  /** Every strict prefix of a frame is rejected. */
  lemma StrictPrefixRejected(payload: seq<bv8>, n: nat)
    requires |payload| < UINT32_LIMIT && n < |Frame(payload)|
    ensures Unframe(Whole(Frame(payload)[..n])) == None
  {
    hide *;
    var buffer := Frame(payload)[..n];
    match Unframe(Whole(buffer))
    case None =>
    case Some(other) =>
      AcceptsExactlyFrames(buffer, other);
      FramesDoNotNest(payload, n, other);
      assert false;
  }
}
