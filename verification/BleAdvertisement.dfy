/** The seventeen-byte advertisement of a sensor node (common/protocol/ble-protocol.ts). Integers
    are little-endian and cut to their width; the float is four opaque bytes, except that all NaN
    patterns are one number and come back as one pattern. */
module BleAdvertisement {
  import opened Options

  type Byte = b: int | 0 <= b < 256

  const LENGTH: nat := 17
  const ID_BYTES: nat := 6
  const ID_AT: nat := 3

  /** A number read from four bytes. */
  datatype Float = Ordinary(bytes: seq<Byte>) | NaN

  datatype Advertisement = Advertisement(companyId: int, version: int, nodeId: string, batteryPercent: int,
                                         lastReading: Float, faultFlags: int, counter: int)

  // --------------------------------------------------------------------- hexadecimal

  function HexDigit(d: int): (c: char)
    requires 0 <= d < 16
    ensures DigitValue(c) == Some(d) && IsLowerHex(c)
  {
    if d < 10 then '0' + d as char else 'a' + (d - 10) as char
  }

  predicate IsLowerHex(c: char) { '0' <= c <= '9' || 'a' <= c <= 'f' }

  function DigitValue(c: char): (v: Option<int>)
    ensures v.Some? ==> 0 <= v.value < 16
  {
    if '0' <= c <= '9' then Some(c as int - '0' as int)
    else if 'a' <= c <= 'f' then Some(c as int - 'a' as int + 10)
    else if 'A' <= c <= 'F' then Some(c as int - 'A' as int + 10)
    else None
  }

  lemma LowerHexPrintsBack(c: char)
    requires IsLowerHex(c)
    ensures DigitValue(c).Some? && HexDigit(DigitValue(c).value) == c
  {
  }

  /** b.toString(16).padStart(2, '0') */
  function Hex(b: Byte): (s: string)
    ensures |s| == 2 && IsLowerHex(s[0]) && IsLowerHex(s[1])
  {
    var digits := if b < 16 then [HexDigit(b)] else [HexDigit(b / 16), HexDigit(b % 16)];
    if |digits| < 2 then ['0'] + digits else digits
  }

  // the white space and line ends of ECMAScript
  predicate IsSpace(c: char) {
    var n := c as int;
    9 <= n <= 13 || n in {0x20, 0xa0, 0x1680, 0x2028, 0x2029, 0x202f, 0x205f, 0x3000, 0xfeff} || 0x2000 <= n <= 0x200a
  }

  function TrimLeft(s: string): string { if s != [] && IsSpace(s[0]) then TrimLeft(s[1..]) else s }

  function ParseDigits(s: string, value: nat): nat {
    if s != [] && DigitValue(s[0]).Some? then ParseDigits(s[1..], value * 16 + DigitValue(s[0]).value) else value
  }

  /** parseInt(s, 16); None is NaN. */
  function ParseInt(s: string): Option<int> {
    var trimmed := TrimLeft(s);
    var signed := trimmed != [] && (trimmed[0] == '+' || trimmed[0] == '-');
    var unsigned := if signed then trimmed[1..] else trimmed;
    var digits := if |unsigned| >= 2 && unsigned[0] == '0' && (unsigned[1] == 'x' || unsigned[1] == 'X')
                  then unsigned[2..] else unsigned;
    if digits == [] || DigitValue(digits[0]).None? then None
    else
      var value: int := ParseDigits(digits, 0);
      Some(if signed && trimmed[0] == '-' then -value else value)
  }

  /** What a byte array stores for a number. */
  function ToUint8(n: Option<int>): Byte { if n.None? then 0 else n.value % 256 }

  lemma HexParsesBack(b: Byte)
    ensures ParseInt(Hex(b)) == Some(b)
  {
    var s := Hex(b);
    assert b == b / 16 * 16 + b % 16;
    assert TrimLeft(s) == s;
    assert DigitValue(s[0]) == Some(b / 16) && DigitValue(s[1]) == Some(b % 16);
    assert s[1..] == [s[1]] && s[1..][1..] == [];
    assert ParseDigits(s[1..][1..], b) == b;
    assert ParseDigits(s[1..], b / 16) == b;
  }

  const LOWER: string := "0123456789abcdef"
  const UPPER: string := "0123456789ABCDEF"

  /** The sixteen digits, in either case, and nothing else. */
  lemma DigitIff(c: char, d: int)
    requires 0 <= d < 16
    ensures DigitValue(c) == Some(d) <==> c == LOWER[d] || c == UPPER[d]
    ensures HexDigit(d) == LOWER[d]
  {
    assert LOWER[0] == '0' && LOWER[1] == '1' && LOWER[9] == '9' && LOWER[10] == 'a' && LOWER[15] == 'f';
    assert UPPER[0] == '0' && UPPER[1] == '1' && UPPER[9] == '9' && UPPER[10] == 'A' && UPPER[15] == 'F';
  }

  predicate AllDigits(s: string) { forall i :: 0 <= i < |s| ==> DigitValue(s[i]).Some? }

  /** Where reading digits stops. */
  predicate NoDigitNext(s: string) { s == [] || DigitValue(s[0]).None? }

  /** Positional value, last digit lowest. */
  function Positional(digits: string): nat
    requires AllDigits(digits)
  {
    if digits == [] then 0
    else Positional(digits[..|digits| - 1]) * 16 + DigitValue(digits[|digits| - 1]).value
  }

  lemma {:induction false} ParseDigitsIs(read: string, digits: string, rest: string)
    requires AllDigits(read) && AllDigits(digits) && NoDigitNext(rest)
    ensures AllDigits(read + digits)
    ensures ParseDigits(digits + rest, Positional(read)) == Positional(read + digits)
    decreases |digits|
  {
    if digits == [] {
      assert digits + rest == rest && read + digits == read;
    } else {
      var more := read + [digits[0]];
      assert more[..|read|] == read;
      assert (digits + rest)[0] == digits[0] && (digits + rest)[1..] == digits[1..] + rest;
      assert more + digits[1..] == read + digits;
      ParseDigitsIs(more, digits[1..], rest);
    }
  }

  predicate AllSpace(s: string) { forall i :: 0 <= i < |s| ==> IsSpace(s[i]) }

  lemma {:induction false} TrimmedAway(spaces: string, s: string)
    requires AllSpace(spaces) && (s == [] || !IsSpace(s[0]))
    ensures TrimLeft(spaces + s) == s
  {
    if spaces == [] {
      assert spaces + s == s;
    } else {
      assert (spaces + s)[1..] == spaces[1..] + s;
      TrimmedAway(spaces[1..], s);
    }
  }

  predicate IsSign(s: string) { s == "" || s == "+" || s == "-" }

  predicate HasPrefix(s: string) { |s| >= 2 && s[0] == '0' && (s[1] == 'x' || s[1] == 'X') }

  /** What parseInt does after the white space: sign, prefix, digits. */
  lemma ParseTrimmed(s: string, sign: string, body: string)
    requires IsSign(sign) && (body == [] || (body[0] != '+' && body[0] != '-' && !IsSpace(body[0])))
    requires TrimLeft(s) == sign + body
    ensures var digits := if HasPrefix(body) then body[2..] else body;
            ParseInt(s) == if NoDigitNext(digits) then None
                           else Some((if sign == "-" then -1 else 1) * ParseDigits(digits, 0))
  {
    assert sign != "" ==> (sign + body)[1..] == body && (sign + body)[0] == sign[0];
    assert sign == "" ==> sign + body == body;
    hide TrimLeft, ParseDigits;
  }

  /** parseInt in radix 16, by the form of its argument: white space, a sign, a prefix 0x, digits in
      either case, and anything that is no digit. Without a digit there is no number. */
  lemma ParseIntReads(spaces: string, sign: string, prefix: string, digits: string, rest: string)
    requires AllSpace(spaces) && IsSign(sign) && (prefix == "" || prefix == "0x" || prefix == "0X")
    requires AllDigits(digits) && NoDigitNext(rest)
    // the parts are told apart as they are meant
    requires prefix == "" ==> !HasPrefix(digits + rest)
    requires prefix == "" && digits == "" && rest != "" ==> rest[0] != '+' && rest[0] != '-' && !IsSpace(rest[0])
    ensures ParseInt(spaces + sign + prefix + digits + rest) ==
            if digits == "" then None
            else Some((if sign == "-" then -1 else 1) * Positional(digits))
  {
    hide *;
    var body := prefix + (digits + rest);
    var s := spaces + (sign + body);
    assert spaces + sign + prefix + digits + rest == s;
    BodyStart(prefix, digits, rest);
    BodyDigits(prefix, digits, rest);
    NothingToTrim(sign, body);
    TrimmedAway(spaces, sign + body);
    ParseTrimmed(s, sign, body);
    NothingRead();
    ParseDigitsIs("", digits, rest);
    assert "" + digits == digits;
  }

  lemma NothingRead()
    ensures AllDigits("") && Positional("") == 0
  {
  }

  lemma BodyStart(prefix: string, digits: string, rest: string)
    requires (prefix == "" || prefix == "0x" || prefix == "0X") && AllDigits(digits)
    requires prefix == "" && digits == "" && rest != "" ==> rest[0] != '+' && rest[0] != '-' && !IsSpace(rest[0])
    ensures var body := prefix + (digits + rest);
            body == [] || (body[0] != '+' && body[0] != '-' && !IsSpace(body[0]))
  {
    var body := prefix + (digits + rest);
    if prefix != "" {
      assert body[0] == '0';
    } else if digits != "" {
      assert body[0] == digits[0] && DigitValue(digits[0]).Some?;
    } else {
      assert body == rest;
    }
  }

  lemma BodyDigits(prefix: string, digits: string, rest: string)
    requires (prefix == "" || prefix == "0x" || prefix == "0X") && AllDigits(digits) && NoDigitNext(rest)
    requires prefix == "" ==> !HasPrefix(digits + rest)
    ensures var body := prefix + (digits + rest);
            (if HasPrefix(body) then body[2..] else body) == digits + rest
    ensures NoDigitNext(digits + rest) <==> digits == ""
  {
    var body := prefix + (digits + rest);
    if prefix == "" {
      assert body == digits + rest;
    } else {
      assert body[0] == prefix[0] && body[1] == prefix[1];
    }
    if digits == "" {
      assert digits + rest == rest;
    } else {
      assert (digits + rest)[0] == digits[0];
    }
  }

  lemma NothingToTrim(sign: string, body: string)
    requires IsSign(sign) && (body == [] || !IsSpace(body[0]))
    ensures sign + body == [] || !IsSpace((sign + body)[0])
  {
    assert sign == "" ==> sign + body == body;
    assert sign != "" ==> (sign + body)[0] == sign[0];
  }

  // -------------------------------------------------------------------- split and join

  /** s.split(':') */
  function Split(s: string): (parts: seq<string>)
    ensures parts != []
  {
    if s == [] then [[]]
    else
      var rest := Split(s[1..]);
      if s[0] == ':' then [[]] + rest else [[s[0]] + rest[0]] + rest[1..]
  }

  /** parts.join(':') */
  function Join(parts: seq<string>): string {
    if parts == [] then [] else if |parts| == 1 then parts[0] else parts[0] + [':'] + Join(parts[1..])
  }

  lemma {:induction false} SplitWord(s: string)
    requires ':' !in s
    ensures Split(s) == [s]
  {
    if s != [] {
      SplitWord(s[1..]);
      assert s[0] in s && [s[0]] + s[1..] == s;
    }
  }

  lemma {:induction false} SplitAt(s: string, rest: string)
    requires ':' !in s
    ensures Split(s + [':'] + rest) == [s] + Split(rest)
  {
    if s == [] {
      assert s + [':'] + rest == [':'] + rest;
    } else {
      assert (s + [':'] + rest)[1..] == s[1..] + [':'] + rest;
      SplitAt(s[1..], rest);
      assert s[0] in s && [s[0]] + s[1..] == s;
    }
  }

  lemma {:induction false} SplitJoin(parts: seq<string>)
    requires parts != [] && forall i :: 0 <= i < |parts| ==> ':' !in parts[i]
    ensures Split(Join(parts)) == parts
  {
    if |parts| == 1 {
      SplitWord(parts[0]);
    } else {
      SplitAt(parts[0], Join(parts[1..]));
      SplitJoin(parts[1..]);
    }
  }

  /** Every string is its parts joined, and no part has a colon. */
  lemma {:induction false} JoinSplit(s: string)
    ensures Join(Split(s)) == s
    ensures forall i :: 0 <= i < |Split(s)| ==> ':' !in Split(s)[i]
  {
    if s != [] {
      JoinSplit(s[1..]);
      var rest, parts := Split(s[1..]), Split(s);
      if s[0] == ':' {
        assert parts[1..] == rest;
        assert s == [s[0]] + s[1..];
      } else {
        assert parts[1..] == rest[1..] && parts[0] == [s[0]] + rest[0];
        assert s == [s[0]] + s[1..];
      }
    }
  }

  // ---------------------------------------------------------------------------- node id

  function HexAll(bytes: seq<Byte>): (parts: seq<string>)
    ensures |parts| == |bytes| && forall i :: 0 <= i < |bytes| ==> parts[i] == Hex(bytes[i])
  {
    if bytes == [] then [] else [Hex(bytes[0])] + HexAll(bytes[1..])
  }

  function PrintId(bytes: seq<Byte>): string { Join(HexAll(bytes)) }

  /** The numbers of an id, cut to bytes. */
  function ParseAll(parts: seq<string>): (bytes: seq<Byte>)
    ensures |bytes| == |parts| && forall i :: 0 <= i < |parts| ==> bytes[i] == ToUint8(ParseInt(parts[i]))
  {
    if parts == [] then [] else [ToUint8(ParseInt(parts[0]))] + ParseAll(parts[1..])
  }

  function Zeros(n: nat): (s: seq<Byte>)
    ensures |s| == n && forall i :: 0 <= i < n ==> s[i] == 0
  {
    if n == 0 then [] else [0] + Zeros(n - 1)
  }

  /** The six bytes of an id: what it has too many is lost, what it has too few is zero. */
  function IdBytes(nodeId: string): (bytes: seq<Byte>)
    ensures |bytes| == ID_BYTES
  {
    var all := ParseAll(Split(nodeId));
    if |all| >= ID_BYTES then all[..ID_BYTES] else all + Zeros(ID_BYTES - |all|)
  }

  /** Byte i of an id is part i cut to eight bits, or zero when there is no such part or number. */
  lemma IdByteIs(nodeId: string, i: nat)
    requires i < 6
    ensures var parts := Split(nodeId);
            IdBytes(nodeId)[i] == if i >= |parts| || ParseInt(parts[i]) == None then 0
                                  else ParseInt(parts[i]).value % 256
  {
    hide ParseInt, Split;
  }

  /** Six pairs of lower-case digits with colons between them. */
  predicate IsCanonical(s: string) {
    |s| == 17 && forall i :: 0 <= i < 17 ==> if i % 3 == 2 then s[i] == ':' else IsLowerHex(s[i])
  }

  lemma PrintParses(bytes: seq<Byte>)
    requires |bytes| == ID_BYTES
    ensures IdBytes(PrintId(bytes)) == bytes
  {
    var parts := HexAll(bytes);
    forall i | 0 <= i < |parts|
      ensures ':' !in parts[i]
    {
      assert parts[i] == Hex(bytes[i]) == [parts[i][0], parts[i][1]];
    }
    SplitJoin(parts);
    forall i | 0 <= i < ID_BYTES
      ensures ToUint8(ParseInt(parts[i])) == bytes[i]
    {
      HexParsesBack(bytes[i]);
    }
  }

  /** Character k of part i of two-character parts is at 3 i + k. */
  lemma {:induction false} JoinedAt(parts: seq<string>, i: nat)
    requires parts != [] && forall k :: 0 <= k < |parts| ==> |parts[k]| == 2
    ensures |Join(parts)| == 3 * |parts| - 1
    ensures i < |Join(parts)| ==>
              i / 3 < |parts| && Join(parts)[i] == if i % 3 == 2 then ':' else parts[i / 3][i % 3]
  {
    hide Join;
    JoinUnfolds(parts);
    if |parts| > 1 {
      var rest := parts[1..];
      JoinedAt(rest, if i >= 3 then i - 3 else 0);
      PairThenRest(parts[0], Join(rest), i);
      if 3 <= i {
        assert (i - 3) / 3 == i / 3 - 1 && (i - 3) % 3 == i % 3;
      }
    }
  }

  lemma JoinUnfolds(parts: seq<string>)
    requires parts != []
    ensures Join(parts) == if |parts| == 1 then parts[0] else parts[0] + [':'] + Join(parts[1..])
  {
  }

  lemma PairThenRest(pair: string, rest: string, i: nat)
    requires |pair| == 2
    ensures i < 3 + |rest| ==>
              (pair + [':'] + rest)[i] == if i < 2 then pair[i] else if i == 2 then ':' else rest[i - 3]
  {
  }

  /** Character by character: digit k of byte i is at 3 i + k. */
  lemma PrintedAt(bytes: seq<Byte>, i: nat)
    requires |bytes| == ID_BYTES && i < 17
    ensures |PrintId(bytes)| == 17
    ensures PrintId(bytes)[i] == if i % 3 == 2 then ':' else Hex(bytes[i / 3])[i % 3]
  {
    hide Hex;
    JoinedAt(HexAll(bytes), i);
  }

  lemma PrintIsCanonical(bytes: seq<Byte>)
    requires |bytes| == ID_BYTES
    ensures IsCanonical(PrintId(bytes))
  {
    PrintedAt(bytes, 0);
    forall i | 0 <= i < 17
      ensures if i % 3 == 2 then PrintId(bytes)[i] == ':' else IsLowerHex(PrintId(bytes)[i])
    {
      PrintedAt(bytes, i);
    }
  }

  function PairValue(hi: char, lo: char): Byte
    requires IsLowerHex(hi) && IsLowerHex(lo)
  {
    DigitValue(hi).value * 16 + DigitValue(lo).value
  }

  lemma PairPrintsBack(hi: char, lo: char)
    requires IsLowerHex(hi) && IsLowerHex(lo)
    ensures Hex(PairValue(hi, lo)) == [hi, lo]
  {
    LowerHexPrintsBack(hi);
    LowerHexPrintsBack(lo);
    var h, l := DigitValue(hi).value, DigitValue(lo).value;
    assert (h * 16 + l) / 16 == h && (h * 16 + l) % 16 == l;
  }

  function CanonicalBytes(s: string): (bytes: seq<Byte>)
    requires IsCanonical(s)
    ensures |bytes| == ID_BYTES
  {
    [PairValue(s[0], s[1]), PairValue(s[3], s[4]), PairValue(s[6], s[7]),
     PairValue(s[9], s[10]), PairValue(s[12], s[13]), PairValue(s[15], s[16])]
  }

  lemma CanonicalPrintsBack(s: string)
    requires IsCanonical(s)
    ensures PrintId(CanonicalBytes(s)) == s
  {
    hide PrintId, Hex, PairValue;
    var bytes := CanonicalBytes(s);
    PrintedAt(bytes, 0);
    forall k | 0 <= k < ID_BYTES
      ensures Hex(bytes[k]) == [s[3 * k], s[3 * k + 1]]
    {
      PairPrintsBack(s[3 * k], s[3 * k + 1]);
    }
    forall i | 0 <= i < 17
      ensures PrintId(bytes)[i] == s[i]
    {
      PrintedAt(bytes, i);
    }
  }

  /** An id survives printing what was parsed from it exactly when it is canonical. */
  lemma IdSurvivesIff(s: string)
    ensures PrintId(IdBytes(s)) == s <==> IsCanonical(s)
  {
    if IsCanonical(s) {
      CanonicalPrintsBack(s);
      PrintParses(CanonicalBytes(s));
    } else {
      PrintIsCanonical(IdBytes(s));
    }
  }

  // ----------------------------------------------------------------------------- floats

  /** Exponent all ones and a fraction that is not zero, in little-endian order. */
  predicate IsNaN(b: seq<Byte>)
    requires |b| == 4
  {
    b[3] % 128 == 127 && b[2] >= 128 && !(b[2] == 128 && b[1] == 0 && b[0] == 0)
  }

  /** In the pattern read as a number, a NaN lies above infinity, whatever its sign. */
  lemma NaNIff(b: seq<Byte>)
    requires |b| == 4
    ensures IsNaN(b) <==>
            (b[0] as int + 256 * b[1] as int + 0x1_0000 * b[2] as int + 0x100_0000 * b[3] as int) % 0x8000_0000
            > 0x7f80_0000
  {
    var low, b3 := b[0] as int + 256 * b[1] as int + 0x1_0000 * b[2] as int, b[3] as int;
    var sign, exponent := b3 / 128, b3 % 128;
    assert low + 0x100_0000 * b3 == 0x8000_0000 * sign + (low + 0x100_0000 * exponent);
    assert 0 <= low + 0x100_0000 * exponent < 0x8000_0000;
    assert (low + 0x100_0000 * b3) % 0x8000_0000 == low + 0x100_0000 * exponent;
  }

  function GetFloat(b: seq<Byte>): Float
    requires |b| == 4
  {
    if IsNaN(b) then NaN else Ordinary(b)
  }

  predicate IsFloat(f: Float) { f.Ordinary? ==> |f.bytes| == 4 && !IsNaN(f.bytes) }

  /** Which NaN pattern a platform stores is its own choice. */
  function SetFloat(f: Float, nan: seq<Byte>): (b: seq<Byte>)
    requires IsFloat(f) && |nan| == 4
    ensures |b| == 4
  {
    if f.NaN? then nan else f.bytes
  }

  lemma FloatSurvivesIff(b: seq<Byte>, nan: seq<Byte>)
    requires |b| == |nan| == 4
    ensures IsFloat(GetFloat(b))
    ensures SetFloat(GetFloat(b), nan) == b <==> !IsNaN(b) || b == nan
  {
  }

  // ------------------------------------------------------------------------------ codec

  function Low(n: int): Byte { n % 0x1_0000 % 256 }

  function High(n: int): Byte { n % 0x1_0000 / 256 }

  function Uint16(low: int, high: int): int { low + 256 * high }

  lemma Uint16Splits(low: Byte, high: Byte)
    ensures Low(Uint16(low, high)) == low && High(Uint16(low, high)) == high
  {
    var n := Uint16(low, high);
    assert 0 <= n < 0x1_0000;
    assert n % 0x1_0000 == n;
    assert n / 256 == high;
  }

  /** The bytes of an advertisement. */
  function Encoded(a: Advertisement, nan: seq<Byte>): seq<Byte>
    requires IsFloat(a.lastReading) && |nan| == 4
  {
    [Low(a.companyId), High(a.companyId), a.version % 256] + IdBytes(a.nodeId) + [a.batteryPercent % 256] +
    SetFloat(a.lastReading, nan) + [a.faultFlags % 256, Low(a.counter), High(a.counter)]
  }

  /** An id of too many parts does not fit behind offset 3 of the buffer. */
  predicate Fits(nodeId: string) { ID_AT + |Split(nodeId)| <= LENGTH }

  /** A Uint8Array: a window of a buffer. DataView is given the buffer and not the window. */
  datatype View = View(buffer: seq<Byte>, offset: nat, length: nat)

  predicate IsView(v: View) { v.offset + v.length <= |v.buffer| }

  function Bytes(v: View): seq<Byte>
    requires IsView(v)
  {
    v.buffer[v.offset..v.offset + v.length]
  }

  function Parse(v: View): (a: Option<Advertisement>)
    requires IsView(v)
    ensures a.None? <==> v.length < LENGTH
  {
    if v.length < LENGTH then None
    else
      var b := v.buffer;
      Some(Advertisement(Uint16(b[0], b[1]), b[2], PrintId(Bytes(v)[ID_AT..ID_AT + ID_BYTES]), b[9],
                         GetFloat(b[10..14]), b[14], Uint16(b[15], b[16])))
  }

  function Whole(b: seq<Byte>): View { View(b, 0, |b|) }

  /** Every field cut to its width. */
  function Canonical(a: Advertisement): Advertisement {
    Advertisement(a.companyId % 0x1_0000, a.version % 256, PrintId(IdBytes(a.nodeId)), a.batteryPercent % 256,
                  a.lastReading, a.faultFlags % 256, a.counter % 0x1_0000)
  }

  predicate InRange(a: Advertisement) {
    && 0 <= a.companyId < 0x1_0000 && 0 <= a.version < 256 && 0 <= a.batteryPercent < 256
    && 0 <= a.faultFlags < 256 && 0 <= a.counter < 0x1_0000
  }

  /** Where each field is: numbers little-endian, the id at 3, the float at 10. */
  lemma ByteLayout(a: Advertisement, nan: seq<Byte>)
    requires IsFloat(a.lastReading) && |nan| == 4
    ensures var b := Encoded(a, nan);
            && |b| == 17
            && b[0] as int + 256 * b[1] as int == a.companyId % 0x1_0000
            && b[2] == a.version % 256
            && b[3..9] == IdBytes(a.nodeId)
            && b[9] == a.batteryPercent % 256
            && b[10..14] == (if a.lastReading == NaN then nan else a.lastReading.bytes)
            && b[14] == a.faultFlags % 256
            && b[15] as int + 256 * b[16] as int == a.counter % 0x1_0000
  {
    EncodedBytes(a, nan);
    hide Encoded, IdBytes;
    LowAndHigh(a.companyId);
    LowAndHigh(a.counter);
  }

  lemma LowAndHigh(n: int)
    ensures Low(n) + 256 * High(n) == n % 0x1_0000
  {
  }

  /** The parser reads the numbers of the first seventeen bytes of the buffer, little-endian. */
  lemma ParsedFields(v: View)
    requires IsView(v) && v.length >= 17
    ensures Parse(v).Some?
    ensures var (a, b) := (Parse(v).value, v.buffer);
            && a.companyId == b[0] as int + 256 * b[1] as int && a.version == b[2] && a.batteryPercent == b[9]
            && a.faultFlags == b[14] && a.counter == b[15] as int + 256 * b[16] as int
            && IdBytes(a.nodeId) == v.buffer[v.offset + 3..v.offset + 9]
            && a.lastReading == (if IsNaN(b[10..14]) then NaN else Ordinary(b[10..14]))
  {
    hide IdBytes, PrintId, IsNaN;
    var id := Bytes(v)[3..9];
    assert id == v.buffer[v.offset + 3..v.offset + 9];
    PrintParses(id);
  }

  lemma EncodedBytes(a: Advertisement, nan: seq<Byte>)
    requires IsFloat(a.lastReading) && |nan| == 4
    ensures var b := Encoded(a, nan);
            && |b| == LENGTH
            && b[0] == Low(a.companyId) && b[1] == High(a.companyId) && b[2] == a.version % 256
            && b[3..9] == IdBytes(a.nodeId) && b[9] == a.batteryPercent % 256
            && b[10..14] == SetFloat(a.lastReading, nan)
            && b[14] == a.faultFlags % 256 && b[15] == Low(a.counter) && b[16] == High(a.counter)
  {
  }

  /** Parsing what was encoded gives every field cut to its width and the id in canonical form,
      whatever NaN pattern the platform stores. */
  lemma ParseEncoded(a: Advertisement, nan: seq<Byte>)
    requires IsFloat(a.lastReading) && |nan| == 4 && IsNaN(nan)
    ensures Parse(Whole(Encoded(a, nan))) == Some(Canonical(a))
  {
    hide Encoded, PrintId, IdBytes;
    var b := Encoded(a, nan);
    EncodedBytes(a, nan);
    assert Bytes(Whole(b)) == b;
  }

  /** Exactly the advertisements whose numbers are in range and whose id is canonical come back
      unchanged. */
  lemma RoundTripIff(a: Advertisement, nan: seq<Byte>)
    requires IsFloat(a.lastReading) && |nan| == 4 && IsNaN(nan)
    ensures Parse(Whole(Encoded(a, nan))) == Some(a) <==> InRange(a) && IsCanonical(a.nodeId)
  {
    hide PrintId, IdBytes, IsCanonical, Encoded;
    ParseEncoded(a, nan);
    IdSurvivesIff(a.nodeId);
  }

  /** Encoding what was parsed gives the first seventeen bytes back, exactly when the float is not
      a NaN other than the one the platform stores. The view must start its buffer. */
  lemma ReencodeIff(v: View, nan: seq<Byte>)
    requires IsView(v) && v.offset == 0 && v.length >= LENGTH && |nan| == 4 && IsNaN(nan)
    ensures var a := Parse(v).value;
            && IsFloat(a.lastReading) && Fits(a.nodeId)
            && (Encoded(a, nan) == Bytes(v)[..LENGTH] <==>
                !IsNaN(Bytes(v)[10..14]) || Bytes(v)[10..14] == nan)
  {
    hide PrintId, IdBytes, Encoded, IsNaN, Fits, GetFloat, SetFloat, Low, High, Uint16;
    Uint16Splits(v.buffer[0], v.buffer[1]);
    Uint16Splits(v.buffer[15], v.buffer[16]);
    FloatSurvivesIff(v.buffer[10..14], nan);
    var b, a := Bytes(v), Parse(v).value;
    assert b[10..14] == v.buffer[10..14] && forall i :: 0 <= i < LENGTH ==> b[i] == v.buffer[i];
    EncodedBytes(a, nan);
    PrintParses(b[3..9]);
    PrintedFits(b[3..9]);
    var e := Encoded(a, nan);
    SameOutsideFloat(e, b[..LENGTH]);
    assert b[..LENGTH][10..14] == b[10..14] && b[..LENGTH][3..9] == b[3..9];
  }

  lemma PrintedFits(bytes: seq<Byte>)
    requires |bytes| == ID_BYTES
    ensures Fits(PrintId(bytes))
  {
    var parts := HexAll(bytes);
    forall i | 0 <= i < |parts|
      ensures ':' !in parts[i]
    {
      assert parts[i] == Hex(bytes[i]) == [parts[i][0], parts[i][1]];
    }
    SplitJoin(parts);
  }

  lemma SameOutsideFloat(x: seq<Byte>, y: seq<Byte>)
    requires |x| == |y| == LENGTH
    ensures x == y <==> x[0] == y[0] && x[1] == y[1] && x[2] == y[2] && x[3..9] == y[3..9] && x[9] == y[9] &&
                        x[10..14] == y[10..14] && x[14] == y[14] && x[15] == y[15] && x[16] == y[16]
  {
    if x[3..9] == y[3..9] && x[10..14] == y[10..14] {
      forall i | 3 <= i < 9
        ensures x[i] == y[i]
      {
        assert x[3..9][i - 3] == y[3..9][i - 3];
      }
      forall i | 10 <= i < 14
        ensures x[i] == y[i]
      {
        assert x[10..14][i - 10] == y[10..14][i - 10];
      }
    }
  }

  /** Behind a prefix the parser reads the numbers of the prefix: only a window at the start of its
      buffer is parsed right whatever precedes it. */
  lemma OnlyOffsetZeroIsSafe(b: seq<Byte>, offset: nat)
    requires |b| >= LENGTH
    ensures (forall prefix: seq<Byte> :: |prefix| == offset ==>
               Parse(View(prefix + b, offset, |b|)) == Parse(Whole(b))) <==> offset == 0
  {
    if offset == 0 {
      forall prefix: seq<Byte> | |prefix| == offset
        ensures Parse(View(prefix + b, offset, |b|)) == Parse(Whole(b))
      {
        assert prefix + b == b;
      }
    } else {
      var other: Byte := if b[0] == 0 then 1 else 0;
      var prefix := [other] + Zeros(offset - 1);
      assert |prefix| == offset && (prefix + b)[0] == other;
      CompanyDiffers(View(prefix + b, offset, |b|), Whole(b));
    }
  }

  lemma CompanyDiffers(v: View, w: View)
    requires IsView(v) && IsView(w) && v.length >= LENGTH && w.length >= LENGTH && v.buffer[0] != w.buffer[0]
    ensures Parse(v) != Parse(w)
  {
    hide PrintId, GetFloat;
    assert Parse(v).value.companyId % 256 == v.buffer[0];
    assert Parse(w).value.companyId % 256 == w.buffer[0];
  }

  method SetUint16(bytes: array<Byte>, at: nat, n: int)
    requires at + 2 <= bytes.Length
    modifies bytes
    ensures bytes[..] == old(bytes[..])[at := Low(n)][at + 1 := High(n)]
  {
    bytes[at] := Low(n);
    bytes[at + 1] := High(n);
  }

  /** bytes.set(macBytes, 3) on a buffer still zero behind offset 3. */
  method StoreId(bytes: array<Byte>, nodeId: string) returns (ok: bool)
    requires bytes.Length == LENGTH && forall j :: ID_AT <= j < LENGTH ==> bytes[j] == 0
    modifies bytes
    ensures ok <==> Fits(nodeId)
    ensures ok ==> bytes[..ID_AT] == old(bytes[..ID_AT]) && bytes[ID_AT..ID_AT + ID_BYTES] == IdBytes(nodeId)
  {
    hide IdBytes, Split, ParseAll;
    var macBytes := ParseAll(Split(nodeId));
    if ID_AT + |macBytes| > LENGTH {
      return false;
    }
    for i := 0 to |macBytes|
      invariant bytes[..ID_AT] == old(bytes[..ID_AT])
      invariant forall j :: 0 <= j < i ==> bytes[ID_AT + j] == macBytes[j]
      invariant forall j :: ID_AT + i <= j < LENGTH ==> bytes[j] == 0
    {
      bytes[ID_AT + i] := macBytes[i];
    }
    assert bytes[..][ID_AT..] == macBytes + Zeros(LENGTH - ID_AT - |macBytes|);
    IdStored(bytes[..], macBytes, nodeId);
    assert bytes[..][ID_AT..ID_AT + ID_BYTES] == bytes[ID_AT..ID_AT + ID_BYTES];
    return true;
  }

  lemma IdStored(s: seq<Byte>, all: seq<Byte>, nodeId: string)
    requires |s| == LENGTH && all == ParseAll(Split(nodeId)) && ID_AT + |all| <= LENGTH
    requires s[ID_AT..] == all + Zeros(LENGTH - ID_AT - |all|)
    ensures s[ID_AT..ID_AT + ID_BYTES] == IdBytes(nodeId)
  {
    hide ParseAll, Split;
    assert s[ID_AT..ID_AT + ID_BYTES] == s[ID_AT..][..ID_BYTES];
  }

  /** encodeNodeAdvertisement; None is the RangeError of bytes.set. */
  method Encode(a: Advertisement, nan: seq<Byte>) returns (result: Option<array<Byte>>)
    requires IsFloat(a.lastReading) && |nan| == 4
    ensures result.None? <==> |Split(a.nodeId)| > 14
    ensures result.Some? ==> fresh(result.value) && result.value[..] == Encoded(a, nan)
  {
    hide IdBytes, Split, Low, High, SetFloat;
    var bytes := new Byte[LENGTH](_ => 0);
    SetUint16(bytes, 0, a.companyId);
    bytes[2] := a.version % 256;
    ghost var head := bytes[..3];
    assert head == [Low(a.companyId), High(a.companyId), a.version % 256];
    var ok := StoreId(bytes, a.nodeId);
    if !ok {
      return None;
    }
    ghost var start := bytes[..9];
    assert start == head + IdBytes(a.nodeId) by {
      assert start == bytes[..3] + bytes[3..9];
    }
    StoreRest(bytes, a, nan);
    return Some(bytes);
  }

  /** The setters behind the id. */
  method StoreRest(bytes: array<Byte>, a: Advertisement, nan: seq<Byte>)
    requires IsFloat(a.lastReading) && |nan| == 4 && bytes.Length == LENGTH
    modifies bytes
    ensures bytes[..] == old(bytes[..9]) + [a.batteryPercent % 256] + SetFloat(a.lastReading, nan) +
                         [a.faultFlags % 256, Low(a.counter), High(a.counter)]
  {
    hide Low, High, SetFloat, IsFloat;
    bytes[9] := a.batteryPercent % 256;
    var reading := SetFloat(a.lastReading, nan);
    bytes[10], bytes[11], bytes[12], bytes[13] := reading[0], reading[1], reading[2], reading[3];
    bytes[14] := a.faultFlags % 256;
    SetUint16(bytes, 15, a.counter);
    assert bytes[..9] == old(bytes[..9]) && bytes[10..14] == reading;
    assert bytes[..] == bytes[..9] + [bytes[9]] + bytes[10..14] + [bytes[14], bytes[15], bytes[16]];
  }
}
