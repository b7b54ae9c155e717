/** Decoding of the Create's sensor packets, one by one and as group 6. */
module SensorPackets {
  import opened Bits

  const FIRST := 7
  const LAST := 42
  const GROUP_ALL_SIZE := 52

  // ---- the packets as the Open Interface defines them ---------------------------------

  datatype Format = UnsignedByte | SignedByte | UnsignedWord | SignedWord

  /** Format of packet `p`; packets 15 and 16 are unused bytes. */
  function FormatOf(p: nat): Format {
    if p == 24 then SignedByte
    else if p == 19 || p == 20 || p == 23 || 39 <= p <= 42 then SignedWord
    else if p == 22 || 25 <= p <= 31 || p == 33 then UnsignedWord
    else UnsignedByte
  }

  function Width(f: Format): nat {
    if f.UnsignedWord? || f.SignedWord? then 2 else 1
  }

  /** Group 6 is packets 7 to 42 one after the other. */
  function Offset(p: nat): nat
    requires FIRST <= p <= LAST + 1
  {
    if p == FIRST then 0 else Offset(p - 1) + Width(FormatOf(p - 1))
  }

  /** Two bytes, most significant first. */
  function Word(high: int, low: int): int {
    256 * high + low
  }

  function Signed(x: int, bits: nat): int {
    var half := if bits == 8 then 0x80 else 0x8000;
    if x < half then x else x - 2 * half
  }

  function DecodePacket(f: Format, b: seq<Byte>): int
    requires |b| == Width(f)
  {
    match f
    case UnsignedByte => b[0]
    case SignedByte => Signed(b[0], 8)
    case UnsignedWord => Word(b[0], b[1])
    case SignedWord => Signed(Word(b[0], b[1]), 16)
  }

  function EncodePacket(f: Format, v: int): (b: seq<Byte>)
    ensures |b| == Width(f)
  {
    match f
    case UnsignedByte => [v % 256]
    case SignedByte => [v % 256]
    case UnsignedWord => [v / 256 % 256, v % 256]
    case SignedWord => [v / 256 % 256, v % 256]
  }

  lemma PacketRoundTrip(f: Format, b: seq<Byte>)
    requires |b| == Width(f)
    ensures EncodePacket(f, DecodePacket(f, b)) == b
  {
    match f
    case UnsignedByte =>
    case SignedByte =>
    case UnsignedWord => WordBytes(Word(b[0], b[1]), b[0], b[1]);
    case SignedWord => WordBytes(DecodePacket(f, b), b[0], b[1]);
  }

  lemma WordBytes(v: int, high: Byte, low: Byte)
    requires v == 256 * high + low || v == 256 * high + low - UINT16
    ensures v / 256 % 256 == high && v % 256 == low
  {
  }

  /** The decoded value in terms of its bytes, for each format. */
  lemma PacketValue(f: Format, b: seq<Byte>)
    requires |b| == Width(f)
    ensures var v := DecodePacket(f, b);
            && (f == UnsignedByte ==> v == b[0])
            && (f == SignedByte ==> -128 <= v < 128 && v % 256 == b[0])
            && (f == UnsignedWord ==> v == 256 * b[0] as int + b[1])
            && (f == SignedWord ==> -0x8000 <= v < 0x8000 && v % 0x1_0000 == 256 * b[0] as int + b[1])
  {
  }

  /** The part of a group image that packet `p` occupies. */
  function Slice(image: seq<Byte>, p: nat): (b: seq<Byte>)
    requires |image| == GROUP_ALL_SIZE && FIRST <= p <= LAST
    ensures |b| == Width(FormatOf(p))
  {
    OffsetIs(p);
    OffsetIs(p + 1);
    image[Offset(p)..Offset(p + 1)]
  }

  /** The offsets the code uses. */
  function Place(p: nat): nat {
    if p <= 19 then (if p < FIRST then 0 else if p == 19 then 12 else p - 7)
    else if p <= 24 then (if p == 20 then 14 else if p == 21 then 16 else if p == 22 then 17 else if p == 23 then 19 else 21)
    else if p <= 32 then 2 * p - 28
    else if p == 33 then 37
    else if p <= 39 then p + 5
    else 2 * p - 34
  }

  lemma PlaceSteps(p: nat)
    requires FIRST <= p <= LAST
    ensures Place(p + 1) == Place(p) + Width(FormatOf(p))
    ensures Place(FIRST) == 0 && Place(p) <= Place(p + 1) <= GROUP_ALL_SIZE
  {
  }

  lemma {:induction false} OffsetIs(p: nat)
    requires FIRST <= p <= LAST + 1
    ensures Offset(p) == Place(p) <= GROUP_ALL_SIZE
    ensures p <= LAST ==> Place(p + 1) == Place(p) + Width(FormatOf(p))
  {
    if p <= LAST { PlaceSteps(p); }
    if p > FIRST {
      PlaceSteps(p - 1);
      OffsetIs(p - 1);
    }
  }

  // ---- readSensor and getAllSensors ----------------------------------------------------

  predicate IsSupported(p: nat) {
    FIRST <= p <= LAST && p != 15 && p != 16
  }

  // The case labels of the `switch`.

  predicate OneByteUnsigned(p: nat) {
    p == 7 || p == 8 || p == 9 || p == 10 || p == 11 || p == 12 || p == 13 || p == 14 || p == 17
    || p == 18 || p == 21 || p == 32 || p == 34 || p == 35 || p == 36 || p == 37 || p == 38
  }

  predicate TwoBytesUnsigned(p: nat) {
    p == 22 || p == 25 || p == 26 || p == 27 || p == 28 || p == 29 || p == 30 || p == 31 || p == 33
  }

  predicate TwoBytesSigned(p: nat) {
    p == 19 || p == 20 || p == 23 || p == 39 || p == 40 || p == 41 || p == 42
  }

  /** The labels cover exactly the supported packets, each with its format. */
  lemma LabelsAreFormats(p: nat)
    ensures OneByteUnsigned(p) <==> IsSupported(p) && FormatOf(p).UnsignedByte?
    ensures p == 24 <==> IsSupported(p) && FormatOf(p).SignedByte?
    ensures TwoBytesUnsigned(p) <==> IsSupported(p) && FormatOf(p).UnsignedWord?
    ensures TwoBytesSigned(p) <==> IsSupported(p) && FormatOf(p).SignedWord?
  {
  }

  /** What `readRawSensor` brings: nothing, on an error or without memory, or the
      first bytes of the packet. */
  datatype RawRead = NoAnswer | Answer(bytes: seq<Byte>)

  /** The buffer after a read that may be short; it was cleared before. */
  function ZeroFilled(bytes: seq<Byte>, size: nat): (b: seq<Byte>)
    requires |bytes| <= size
    ensures |b| == size && b[..|bytes|] == bytes && forall i :: |bytes| <= i < size ==> b[i] == 0
  {
    bytes + seq(size - |bytes|, _ => 0)
  }

  /** `readSensor`: a supported packet is decoded by its format, bytes that did not
      come count as 0; a failed read and any other packet give INT_MIN. */
  method ReadSensor(p: nat, raw: RawRead) returns (result: int)
    requires IsSupported(p) && raw.Answer? ==> |raw.bytes| <= Width(FormatOf(p))
    ensures result == if IsSupported(p) && raw.Answer?
                      then DecodePacket(FormatOf(p), ZeroFilled(raw.bytes, Width(FormatOf(p))))
                      else INT_MIN
    ensures p < 7 || p == 15 || p == 16 || p > 42 || raw.NoAnswer? ==> result == -2147483648
    ensures 7 <= p <= 42 && p != 15 && p != 16 && raw.Answer? ==>
              var b0, b1 := (if |raw.bytes| > 0 then raw.bytes[0] else 0), (if |raw.bytes| > 1 then raw.bytes[1] else 0);
              if p == 24 then -128 <= result < 128 && result % 256 == b0
              else if p == 19 || p == 20 || p == 23 || 39 <= p <= 42 then
                -0x8000 <= result < 0x8000 && result % 0x1_0000 == 256 * b0 as int + b1
              else if p == 22 || 25 <= p <= 31 || p == 33 then result == 256 * b0 as int + b1
              else result == b0
  {
    LabelsAreFormats(p);
    if !IsSupported(p) || raw.NoAnswer? {
      return INT_MIN;
    }
    PacketValue(FormatOf(p), ZeroFilled(raw.bytes, Width(FormatOf(p))));
    result := DecodeSingle(p, ZeroFilled(raw.bytes, Width(FormatOf(p))));
  }

  /** The cases of the `switch` with the buffer filled. */
  method DecodeSingle(p: nat, buffer: seq<Byte>) returns (result: int)
    requires IsSupported(p) && |buffer| == Width(FormatOf(p))
    ensures result == DecodePacket(FormatOf(p), buffer)
  {
    LabelsAreFormats(p);
    result := 0;
    if OneByteUnsigned(p) {
      result := buffer[0];
    } else if p == 24 {
      result := result + Signed(buffer[0], 8);
    } else if TwoBytesUnsigned(p) {
      result := Word(buffer[0], buffer[1]);
    } else {
      result := result + Signed(Word(buffer[0], buffer[1]), 16);
    }
  }

  /** Entry `i` of the group: packet `i + 7`. */
  function Entry(image: seq<Byte>, i: nat): int
    requires |image| == GROUP_ALL_SIZE && i <= LAST - FIRST
  {
    DecodePacket(FormatOf(FIRST + i), Slice(image, FIRST + i))
  }

  function DecodeAll(image: seq<Byte>): (r: seq<int>)
    requires |image| == GROUP_ALL_SIZE
    ensures |r| == LAST - FIRST + 1
  {
    seq(LAST - FIRST + 1, i requires 0 <= i <= LAST - FIRST => Entry(image, i))
  }

  lemma SliceAt(image: seq<Byte>, p: nat)
    requires |image| == GROUP_ALL_SIZE && FIRST <= p <= LAST
    ensures Place(p) + Width(FormatOf(p)) <= GROUP_ALL_SIZE
    ensures Slice(image, p) == image[Place(p)..Place(p) + Width(FormatOf(p))]
  {
    OffsetIs(p);
    OffsetIs(p + 1);
  }

  /** The value of format `f` whose first byte is number `at`. */
  function ValueAt(image: seq<Byte>, f: Format, at: nat): int
    requires at + Width(f) <= |image|
  {
    match f
    case UnsignedByte => image[at]
    case SignedByte => Signed(image[at], 8)
    case UnsignedWord => Word(image[at], image[at + 1])
    case SignedWord => Signed(Word(image[at], image[at + 1]), 16)
  }

  lemma DecodeSlice(image: seq<Byte>, f: Format, at: nat)
    requires at + Width(f) <= |image|
    ensures DecodePacket(f, image[at..at + Width(f)]) == ValueAt(image, f, at)
  {
  }

  /** An entry in terms of the bytes at its place. */
  lemma EntryAt(image: seq<Byte>, i: nat)
    requires |image| == GROUP_ALL_SIZE && i <= LAST - FIRST
    ensures var at, f := Place(FIRST + i), FormatOf(FIRST + i);
            at + Width(f) <= GROUP_ALL_SIZE && Entry(image, i) == ValueAt(image, f, at)
  {
    SliceAt(image, FIRST + i);
    DecodeSlice(image, FormatOf(FIRST + i), Place(FIRST + i));
  }

  lemma EntryIs(image: seq<Byte>, i: nat, f: Format, at: nat)
    requires |image| == GROUP_ALL_SIZE && i <= LAST - FIRST
    requires f == FormatOf(FIRST + i) && at == Place(FIRST + i)
    ensures at + Width(f) <= GROUP_ALL_SIZE && Entry(image, i) == ValueAt(image, f, at)
  {
    EntryAt(image, i);
  }

  // The entries that the four loops fill.

  lemma FirstEntry(image: seq<Byte>, i: nat)
    requires |image| == GROUP_ALL_SIZE && i < 12
    ensures Entry(image, i) == image[i]
  {
    EntryIs(image, i, UnsignedByte, i);
  }

  lemma WordEntry(image: seq<Byte>, i: nat)
    requires |image| == GROUP_ALL_SIZE && i <= 6
    ensures Entry(image, 18 + i) == Word(image[22 + 2 * i], image[23 + 2 * i])
  {
    EntryIs(image, 18 + i, UnsignedWord, 22 + 2 * i);
  }

  lemma StatusEntry(image: seq<Byte>, i: nat)
    requires |image| == GROUP_ALL_SIZE && i <= 4
    ensures Entry(image, 27 + i) == image[39 + i]
  {
    EntryIs(image, 27 + i, UnsignedByte, 39 + i);
  }

  lemma RequestEntry(image: seq<Byte>, i: nat)
    requires |image| == GROUP_ALL_SIZE && i <= 3
    ensures Entry(image, 32 + i) == Signed(Word(image[44 + 2 * i], image[45 + 2 * i]), 16)
  {
    EntryIs(image, 32 + i, SignedWord, 44 + 2 * i);
  }

  // All 36 entries in terms of the bytes they come from, format by format.

  lemma ByteAt(image: seq<Byte>, values: seq<int>, i: nat, at: nat)
    requires |image| == 52 && |values| == 36 && values == DecodeAll(image) && i < 36
    requires FormatOf(7 + i).UnsignedByte? && at == Place(7 + i)
    ensures at < 52 && values[i] == image[at]
  {
    EntryIs(image, i, UnsignedByte, at);
  }

  lemma WordAt(image: seq<Byte>, values: seq<int>, i: nat, at: nat)
    requires |image| == 52 && |values| == 36 && values == DecodeAll(image) && i < 36
    requires FormatOf(7 + i).UnsignedWord? && at == Place(7 + i)
    ensures at < 51 && values[i] == 256 * image[at] as int + image[at + 1]
  {
    EntryIs(image, i, UnsignedWord, at);
  }

  lemma SignedWordAt(image: seq<Byte>, values: seq<int>, i: nat, at: nat)
    requires |image| == 52 && |values| == 36 && values == DecodeAll(image) && i < 36
    requires FormatOf(7 + i).SignedWord? && at == Place(7 + i)
    ensures at < 51 && -0x8000 <= values[i] < 0x8000 && values[i] % 0x1_0000 == 256 * image[at] as int + image[at + 1]
  {
    EntryIs(image, i, SignedWord, at);
    SignedWordMeans(image[at], image[at + 1], values[i]);
  }

  lemma SignedWordMeans(high: Byte, low: Byte, v: int)
    requires v == Signed(Word(high, low), 16)
    ensures -0x8000 <= v < 0x8000 && v % 0x1_0000 == 256 * high as int + low
  {
  }

  lemma GroupBytes(image: seq<Byte>, values: seq<int>)
    requires |image| == 52 && |values| == 36 && values == DecodeAll(image)
    ensures forall i :: 0 <= i < 12 ==> values[i] == image[i]
    ensures forall i :: 27 <= i < 32 ==> values[i] == image[i + 12]
    ensures values[14] == image[16] && values[25] == image[36]
  {
    forall i | 0 <= i < 12 ensures values[i] == image[i] { ByteAt(image, values, i, i); }
    forall i | 27 <= i < 32 ensures values[i] == image[i + 12] { ByteAt(image, values, i, i + 12); }
    ByteAt(image, values, 14, 16);
    ByteAt(image, values, 25, 36);
  }

  lemma GroupWords(image: seq<Byte>, values: seq<int>)
    requires |image| == 52 && |values| == 36 && values == DecodeAll(image)
    ensures forall i :: 18 <= i < 25 ==> values[i] == 256 * image[2 * i - 14] as int + image[2 * i - 13]
    ensures values[15] == 256 * image[17] as int + image[18] && values[26] == 256 * image[37] as int + image[38]
  {
    forall i | 18 <= i < 25
      ensures values[i] == 256 * image[2 * i - 14] as int + image[2 * i - 13]
    {
      WordAt(image, values, i, 2 * i - 14);
    }
    WordAt(image, values, 15, 17);
    WordAt(image, values, 26, 37);
  }

  lemma GroupMotion(image: seq<Byte>, values: seq<int>)
    requires |image| == 52 && |values| == 36 && values == DecodeAll(image)
    ensures forall i :: 12 <= i < 14 ==>
              -0x8000 <= values[i] < 0x8000
              && values[i] % 0x1_0000 == 256 * image[2 * i - 12] as int + image[2 * i - 11]
  {
    forall i | 12 <= i < 14
      ensures -0x8000 <= values[i] < 0x8000
      ensures values[i] % 0x1_0000 == 256 * image[2 * i - 12] as int + image[2 * i - 11]
    {
      SignedWordAt(image, values, i, 2 * i - 12);
    }
  }

  lemma GroupCurrent(image: seq<Byte>, values: seq<int>)
    requires |image| == 52 && |values| == 36 && values == DecodeAll(image)
    ensures -0x8000 <= values[16] < 0x8000 && values[16] % 0x1_0000 == 256 * image[19] as int + image[20]
  {
    SignedWordAt(image, values, 16, 19);
  }

  lemma GroupRequests(image: seq<Byte>, values: seq<int>)
    requires |image| == 52 && |values| == 36 && values == DecodeAll(image)
    ensures forall i :: 32 <= i < 36 ==>
              -0x8000 <= values[i] < 0x8000
              && values[i] % 0x1_0000 == 256 * image[2 * i - 20] as int + image[2 * i - 19]
  {
    forall i | 32 <= i < 36
      ensures -0x8000 <= values[i] < 0x8000
      ensures values[i] % 0x1_0000 == 256 * image[2 * i - 20] as int + image[2 * i - 19]
    {
      SignedWordAt(image, values, i, 2 * i - 20);
    }
  }

  lemma GroupTemperature(image: seq<Byte>, values: seq<int>)
    requires |image| == 52 && |values| == 36 && values == DecodeAll(image)
    ensures -128 <= values[17] < 128 && values[17] % 256 == image[21]
  {
    EntryIs(image, 17, SignedByte, 21);
  }

  predicate DecodedUpTo(result: seq<int>, image: seq<Byte>, n: nat)
    requires |image| == GROUP_ALL_SIZE && n <= |result| == 36
  {
    forall i: nat :: i < n ==> result[i] == Entry(image, i)
  }

  /** `getAllSensors`: an incomplete answer gives no result; of a complete one each
      byte is used at the place the packet table gives it. */
  method GetAllSensors(numread: int, buf: array<Byte>) returns (result: array?<int>)
    requires buf.Length == GROUP_ALL_SIZE
    ensures result == null <==> numread < GROUP_ALL_SIZE
    ensures result != null ==> fresh(result) && result[..] == DecodeAll(buf[..])
  {
    if numread < GROUP_ALL_SIZE {
      return null;
    }
    result := DecodeGroup(buf);
  }

  method DecodeGroup(buf: array<Byte>) returns (result: array<int>)
    requires buf.Length == GROUP_ALL_SIZE
    ensures fresh(result) && result[..] == DecodeAll(buf[..])
  {
    result := new int[36](_ => 0);
    FirstPackets(buf, result);
    MotionPackets(buf, result);
    WordPackets(buf, result);
    EntryIs(buf[..], 25, UnsignedByte, 36);
    EntryIs(buf[..], 26, UnsignedWord, 37);
    result[25] := buf[36];
    result[26] := Word(buf[37], buf[38]);
    StatusPackets(buf, result);
    RequestPackets(buf, result);
  }

  /** Packets 7 to 18, a byte each. */
  method FirstPackets(buf: array<Byte>, result: array<int>)
    requires buf.Length == GROUP_ALL_SIZE && result.Length == 36
    modifies result
    ensures DecodedUpTo(result[..], buf[..], 12)
  {
    var i := 0;
    while i < 12
      invariant 0 <= i <= 12 && DecodedUpTo(result[..], buf[..], i)
    {
      FirstEntry(buf[..], i);
      result[i] := buf[i];
      i := i + 1;
    }
  }

  /** Packets 19 to 24, of all four formats. */
  method MotionPackets(buf: array<Byte>, result: array<int>)
    requires buf.Length == GROUP_ALL_SIZE && result.Length == 36
    requires DecodedUpTo(result[..], buf[..], 12)
    modifies result
    ensures DecodedUpTo(result[..], buf[..], 18)
  {
    ghost var image := buf[..];
    MotionEntries(image);
    Put(result, 12, Signed(Word(buf[12], buf[13]), 16), image);
    Put(result, 13, Signed(Word(buf[14], buf[15]), 16), image);
    Put(result, 14, buf[16], image);
    Put(result, 15, Word(buf[17], buf[18]), image);
    Put(result, 16, Signed(Word(buf[19], buf[20]), 16), image);
    Put(result, 17, Signed(buf[21], 8), image);
  }

  /** One more entry of the result. */
  method Put(result: array<int>, i: nat, value: int, ghost image: seq<Byte>)
    requires result.Length == 36 && |image| == GROUP_ALL_SIZE && i < 36
    requires DecodedUpTo(result[..], image, i) && value == Entry(image, i)
    modifies result
    ensures DecodedUpTo(result[..], image, i + 1)
  {
    result[i] := value;
  }

  lemma MotionEntries(image: seq<Byte>)
    requires |image| == GROUP_ALL_SIZE
    ensures Entry(image, 12) == Signed(Word(image[12], image[13]), 16)
    ensures Entry(image, 13) == Signed(Word(image[14], image[15]), 16)
    ensures Entry(image, 14) == image[16]
    ensures Entry(image, 15) == Word(image[17], image[18])
    ensures Entry(image, 16) == Signed(Word(image[19], image[20]), 16)
    ensures Entry(image, 17) == Signed(image[21], 8)
  {
    EntryIs(image, 12, SignedWord, 12);
    EntryIs(image, 13, SignedWord, 14);
    EntryIs(image, 14, UnsignedByte, 16);
    EntryIs(image, 15, UnsignedWord, 17);
    EntryIs(image, 16, SignedWord, 19);
    EntryIs(image, 17, SignedByte, 21);
  }

  /** Packets 25 to 31, unsigned words. */
  method WordPackets(buf: array<Byte>, result: array<int>)
    requires buf.Length == GROUP_ALL_SIZE && result.Length == 36
    requires DecodedUpTo(result[..], buf[..], 18)
    modifies result
    ensures DecodedUpTo(result[..], buf[..], 25)
  {
    var i := 0;
    while i <= 6
      invariant 0 <= i <= 7 && DecodedUpTo(result[..], buf[..], 18 + i)
    {
      WordEntry(buf[..], i);
      result[i + 18] := Word(buf[22 + 2 * i], buf[23 + 2 * i]);
      i := i + 1;
    }
  }

  /** Packets 34 to 38, a byte each. */
  method StatusPackets(buf: array<Byte>, result: array<int>)
    requires buf.Length == GROUP_ALL_SIZE && result.Length == 36
    requires DecodedUpTo(result[..], buf[..], 27)
    modifies result
    ensures DecodedUpTo(result[..], buf[..], 32)
  {
    var i := 0;
    while i <= 4
      invariant 0 <= i <= 5 && DecodedUpTo(result[..], buf[..], 27 + i)
    {
      StatusEntry(buf[..], i);
      result[i + 27] := buf[39 + i];
      i := i + 1;
    }
  }

  /** Packets 39 to 42, signed words. */
  method RequestPackets(buf: array<Byte>, result: array<int>)
    requires buf.Length == GROUP_ALL_SIZE && result.Length == 36
    requires DecodedUpTo(result[..], buf[..], 32)
    modifies result
    ensures DecodedUpTo(result[..], buf[..], 36)
  {
    var i := 0;
    while i <= 3
      invariant 0 <= i <= 4 && DecodedUpTo(result[..], buf[..], 32 + i)
    {
      RequestEntry(buf[..], i);
      result[32 + i] := Signed(Word(buf[44 + 2 * i], buf[45 + 2 * i]), 16);
      i := i + 1;
    }
  }

  // ---- main results --------------------------------------------------------------------

  function EncodeFrom(values: seq<int>, p: nat): seq<Byte>
    requires |values| == LAST - FIRST + 1 && FIRST <= p <= LAST + 1
    decreases LAST + 1 - p
  {
    if p == LAST + 1 then [] else EncodePacket(FormatOf(p), values[p - FIRST]) + EncodeFrom(values, p + 1)
  }

  /** The group decoder loses nothing: encoding its 36 numbers gives all 52 bytes
      back, so every byte is read, and images with equal numbers are equal. */
  lemma EncodeUndoesDecode(image: seq<Byte>)
    requires |image| == GROUP_ALL_SIZE
    ensures EncodeFrom(DecodeAll(image), FIRST) == image
  {
    EncodedTail(image, FIRST);
    assert image[0..] == image;
  }

  lemma {:induction false} EncodedTail(image: seq<Byte>, p: nat)
    requires |image| == GROUP_ALL_SIZE && FIRST <= p <= LAST + 1
    ensures Offset(p) <= GROUP_ALL_SIZE
    ensures EncodeFrom(DecodeAll(image), p) == image[Offset(p)..]
    decreases LAST + 1 - p
  {
    OffsetIs(p);
    if p <= LAST {
      OffsetIs(p + 1);
      EncodedTail(image, p + 1);
      EncodedEntry(image, p);
      TailSplits(image, Offset(p), Offset(p + 1));
    }
  }

  lemma EncodedEntry(image: seq<Byte>, p: nat)
    requires |image| == GROUP_ALL_SIZE && FIRST <= p <= LAST
    ensures EncodePacket(FormatOf(p), DecodeAll(image)[p - FIRST]) == Slice(image, p)
  {
    PacketRoundTrip(FormatOf(p), Slice(image, p));
    assert DecodeAll(image)[p - FIRST] == Entry(image, p - FIRST);
  }

  lemma TailSplits(image: seq<Byte>, a: nat, b: nat)
    requires a <= b <= |image|
    ensures image[a..] == image[a..b] + image[b..]
  {
  }

  lemma DecodeInjective(a: seq<Byte>, b: seq<Byte>)
    requires |a| == |b| == GROUP_ALL_SIZE && DecodeAll(a) == DecodeAll(b)
    ensures a == b
  {
    EncodeUndoesDecode(a);
    EncodeUndoesDecode(b);
  }

  /** Asking for one packet and asking for the group agree on every robot state. */
  method SingleAgreesWithGroup(p: nat, buf: array<Byte>) returns (single: int, all: array?<int>)
    requires buf.Length == GROUP_ALL_SIZE && IsSupported(p)
    ensures single == DecodePacket(FormatOf(p), Slice(buf[..], p))
    ensures all != null && all[..] == DecodeAll(buf[..])
    ensures all.Length == 36 && single == all[p - FIRST]
  {
    var slice := Slice(buf[..], p);
    assert ZeroFilled(slice, |slice|) == slice;
    single := ReadSensor(p, Answer(slice));
    all := GetAllSensors(GROUP_ALL_SIZE, buf);
    assert all[..][p - FIRST] == DecodeAll(buf[..])[p - FIRST];
  }
}
