/** WebSocket frames (sections 5.2 and 5.3 of RFC 6455): the parser as a function of the read buffer
    (src/network/ClientConnection.cpp:158-226) and the wire format it is meant to read. */
module WebSocketSpec {
  import opened ByteStrings

  // ----- bytes as numbers; shifts and masks are written as arithmetic -----

  /** `a ^ b` on the lowest `bits` bits. */
  function XorBits(a: nat, b: nat, bits: nat): nat {
    if bits == 0 then 0 else XorBits(a / 2, b / 2, bits - 1) * 2 + (a + b) % 2
  }

  function Pow2(n: nat): (r: nat)
    ensures 0 < r
  {
    if n == 0 then 1 else Pow2(n - 1) * 2
  }

  lemma {:induction false} XorBitsFits(a: nat, b: nat, bits: nat)
    ensures XorBits(a, b, bits) < Pow2(bits)
  {
    if bits != 0 { XorBitsFits(a / 2, b / 2, bits - 1); }
  }

  lemma {:induction false} XorBitsTwice(a: nat, b: nat, bits: nat)
    requires a < Pow2(bits)
    ensures XorBits(XorBits(a, b, bits), b, bits) == a
  {
    if bits != 0 {
      var x := XorBits(a, b, bits);
      HalfAndBit(XorBits(a / 2, b / 2, bits - 1), a, b);
      assert x / 2 == XorBits(a / 2, b / 2, bits - 1);
      XorBitsTwice(a / 2, b / 2, bits - 1);
    }
  }

  lemma HalfAndBit(high: nat, a: nat, b: nat)
    ensures (high * 2 + (a + b) % 2) / 2 == high
    ensures (high * 2 + (a + b) % 2 + b) % 2 == a % 2
  {}

  lemma ByteBits()
    ensures Pow2(8) == 256
  {
    assert Pow2(4) == 16;
  }

  function XorByte(a: Byte, b: Byte): Byte {
    XorBitsFits(a as int, b as int, 8);
    ByteBits();
    XorBits(a as int, b as int, 8) as char
  }

  lemma XorByteTwice(a: Byte, b: Byte)
    ensures XorByte(XorByte(a, b), b) == a
  {
    ByteBits();
    XorBitsFits(a as int, b as int, 8);
    XorBitsTwice(a as int, b as int, 8);
  }

  /** Binary digit `k`, the lowest being digit 0. */
  function Bit(n: nat, k: nat): nat {
    if k == 0 then n % 2 else Bit(n / 2, k - 1)
  }

  /** `n >> k` */
  function ShiftRight(n: nat, k: nat): int { n / Pow2(k) }

  lemma {:induction false} BitMeans(n: nat, k: nat)
    requires k < 8
    ensures Bit(n, k) == ShiftRight(n, k) % 2
    decreases k
  {
    if k != 0 {
      BitMeans(n / 2, k - 1);
      ShiftAgain(n, k - 1);
      hide ShiftRight;
    }
  }

  lemma ShiftAgain(n: nat, k: nat)
    requires k < 7
    ensures ShiftRight(n / 2, k) == ShiftRight(n, k + 1)
  {
    assert Pow2(1) == 2 && Pow2(2) == 4 && Pow2(3) == 8 && Pow2(4) == 16;
    assert Pow2(5) == 32 && Pow2(6) == 64 && Pow2(7) == 128;
    hide Pow2;
    if k == 0 { PowZero(); } else if k == 1 {} else if k == 2 {} else if k == 3 {} else if k == 4 {} else if k == 5 {} else {}
  }

  lemma PowZero()
    ensures Pow2(0) == 1
  {}

  lemma {:induction false} XorBitsMeans(a: nat, b: nat, bits: nat, k: nat)
    requires k < bits
    ensures Bit(XorBits(a, b, bits), k) == (Bit(a, k) + Bit(b, k)) % 2
    decreases k
  {
    var high, x := XorBits(a / 2, b / 2, bits - 1), XorBits(a, b, bits);
    assert x == high * 2 + (a + b) % 2;
    HalfAndBit(high, a, b);
    SumOfBits(a, b);
    if k != 0 { XorBitsMeans(a / 2, b / 2, bits - 1, k - 1); }
    hide XorBits;
  }

  lemma SumOfBits(a: int, b: int)
    ensures (a % 2 + b % 2) % 2 == (a + b) % 2
  {}

  lemma XorByteIsXorBits(a: Byte, b: Byte)
    ensures XorByte(a, b) as int == XorBits(a as int, b as int, 8)
  {
    XorBitsFits(a as int, b as int, 8);
    ByteBits();
  }

  /** Exclusive or, bit by bit: a bit is set exactly when it is set in one of the two bytes. */
  lemma XorByteMeans(a: Byte, b: Byte, k: nat)
    requires k < 8
    ensures Bit(XorByte(a, b) as int, k) == (Bit(a as int, k) + Bit(b as int, k)) % 2
    ensures ShiftRight(XorByte(a, b) as int, k) % 2 == (ShiftRight(a as int, k) + ShiftRight(b as int, k)) % 2
  {
    hide XorBits, Bit, ShiftRight, XorByte;
    XorByteIsXorBits(a, b);
    XorBitsMeans(a as int, b as int, 8, k);
    BitMeans(XorByte(a, b) as int, k);
    BitMeans(a as int, k);
    BitMeans(b as int, k);
    SumOfBits(ShiftRight(a as int, k), ShiftRight(b as int, k));
  }

  /** The masking of section 5.3 of RFC 6455, with a key of four bytes; it undoes itself. */
  function Masked(payload: ByteString, key: ByteString): (r: ByteString)
    requires |key| == 4
    ensures |r| == |payload|
  {
    seq(|payload|, i requires 0 <= i < |payload| => XorByte(payload[i], key[i % 4]))
  }

  /** Byte `i` is combined with byte `i % 4` of the key, bit by bit. */
  lemma MaskedMeans(payload: ByteString, key: ByteString, i: nat, k: nat)
    requires |key| == 4 && i < |payload| && k < 8
    ensures Bit(Masked(payload, key)[i] as int, k) == (Bit(payload[i] as int, k) + Bit(key[i % 4] as int, k)) % 2
  {
    hide XorByte, Bit;
    XorByteMeans(payload[i], key[i % 4], k);
  }

  lemma MaskedTwice(payload: ByteString, key: ByteString)
    requires |key| == 4
    ensures Masked(Masked(payload, key), key) == payload
  {
    forall i | 0 <= i < |payload| ensures Masked(Masked(payload, key), key)[i] == payload[i] {
      XorByteTwice(payload[i], key[i % 4]);
    }
  }

  /** The number that bytes denote, the most significant first. */
  function BigEndianValue(s: ByteString): nat {
    if s == [] then 0 else BigEndianValue(s[..|s| - 1]) * 256 + s[|s| - 1] as int
  }

  /** The `count` lowest bytes of a number, the most significant first. */
  function BigEndian(n: nat, count: nat): (s: ByteString)
    ensures |s| == count
  {
    if count == 0 then [] else BigEndian(n / 256, count - 1) + [(n % 256) as char]
  }

  function Pow256(n: nat): (r: nat)
    ensures 0 < r
  {
    if n == 0 then 1 else Pow256(n - 1) * 256
  }

  lemma {:induction false} BigEndianRoundTrip(n: nat, count: nat)
    requires n < Pow256(count)
    ensures BigEndianValue(BigEndian(n, count)) == n
    decreases count
  {
    if count != 0 {
      hide Pow256, BigEndian, BigEndianValue;
      var high, low := n / 256, n % 256;
      assert n == high * 256 + low;
      HighBytesFit(n, count);
      BigEndianRoundTrip(high, count - 1);
      BigEndianUnfolds(n, count);
      BigEndianSnoc(BigEndian(high, count - 1), low as char);
    }
  }

  lemma BigEndianUnfolds(n: nat, count: nat)
    requires 0 < count
    ensures BigEndian(n, count) == BigEndian(n / 256, count - 1) + [(n % 256) as char]
  {}

  lemma HighBytesFit(n: nat, count: nat)
    requires 0 < count && n < Pow256(count)
    ensures n / 256 < Pow256(count - 1)
  {}

  lemma BigEndianSnoc(s: ByteString, b: Byte)
    ensures BigEndianValue(s + [b]) == BigEndianValue(s) * 256 + b as int
  {
    assert (s + [b])[..|s|] == s;
  }

  lemma {:induction false} BytesAreBigEndian(s: ByteString)
    ensures BigEndianValue(s) < Pow256(|s|) && BigEndian(BigEndianValue(s), |s|) == s
  {
    if s != [] {
      BytesAreBigEndian(s[..|s| - 1]);
      var n, last := BigEndianValue(s), s[|s| - 1] as int;
      assert n / 256 == BigEndianValue(s[..|s| - 1]) && n % 256 == last;
      assert s == s[..|s| - 1] + [s[|s| - 1]];
    }
  }

  const TWO_64: nat := 0x1_0000_0000_0000_0000

  /** `std::string::max_size()`: no buffer is longer. */
  const MAX_STRING: nat := 0x7FFF_FFFF_FFFF_FFFF

  lemma EightBytes()
    ensures Pow256(2) == 0x1_0000 && Pow256(8) == TWO_64
  {
    assert Pow256(4) == 0x1_0000_0000;
  }

  // ----- the parser -----

  datatype Frame = Frame(fin: bool, opcode: nat, payload: ByteString)

  /** The three ways `parseWebSocketFrame` ends: with a frame and the number of bytes it took, by
      asking for more bytes, or by the exception of `payload.resize` on an impossible length. */
  datatype FrameResult = FrameRead(frame: Frame, size: nat) | NeedMore | LengthError

  /** The declared payload length and the bytes before the masking key, if they are there. */
  function LengthField(data: ByteString): Option<(nat, nat)>
    requires 2 <= |data|
  {
    var low := data[1] as int % 128;
    if low == 126 then
      if |data| < 4 then None else Some((BigEndianValue(data[2..4]), 4))
    else if low == 127 then
      if |data| < 10 then None else Some((BigEndianValue(data[2..10]), 10))
    else Some((low, 2))
  }

  predicate IsMasked(data: ByteString)
    requires 2 <= |data|
  {
    128 <= data[1] as int
  }

  /** The bytes before the payload. */
  function HeaderLength(data: ByteString, lengthEnd: nat): nat
    requires 2 <= |data|
  {
    if IsMasked(data) then lengthEnd + 4 else lengthEnd
  }

  function ParseFrame(data: ByteString): (result: FrameResult)
    requires |data| <= MAX_STRING
    ensures result.FrameRead? ==> 2 <= result.size <= |data|
  {
    if |data| < 2 then NeedMore
    else
      var field := LengthField(data);
      if field.None? then NeedMore
      else
        var (length, lengthEnd) := field.value;
        var headerLength := HeaderLength(data, lengthEnd);
        if |data| < headerLength then NeedMore
        else if |data| < (headerLength + length) % TWO_64 then NeedMore
        else if MAX_STRING < length then LengthError
        else
          var raw := data[headerLength..headerLength + length];
          var payload := if IsMasked(data) then Masked(raw, data[lengthEnd..lengthEnd + 4]) else raw;
          FrameRead(Frame(128 <= data[0] as int, data[0] as int % 16, payload), headerLength + length)
  }

  // ----- the wire format -----

  /** The three encodings of the payload length. */
  datatype LengthForm = Short | Medium | Long

  /** A frame as a sender may put it on the wire: with any bits reserved for extensions, any length
      encoding that has room, and an optional masking key. */
  datatype Wire = Wire(
    fin: bool, reserved: nat, opcode: nat, form: LengthForm, key: Option<ByteString>, payload: ByteString)

  predicate ValidWire(w: Wire) {
    && w.reserved < 8 && w.opcode < 16
    && (w.key.Some? ==> |w.key.value| == 4)
    && match w.form
       case Short => |w.payload| < 126
       case Medium => |w.payload| < 0x1_0000
       case Long => |w.payload| <= MAX_STRING
  }

  function FirstByte(w: Wire): Byte
    requires ValidWire(w)
  {
    ((if w.fin then 128 else 0) + w.reserved * 16 + w.opcode) as char
  }

  function SecondByte(w: Wire): Byte
    requires ValidWire(w)
  {
    var low := match w.form case Short => |w.payload| case Medium => 126 case Long => 127;
    ((if w.key.Some? then 128 else 0) + low) as char
  }

  function ExtendedLength(w: Wire): ByteString {
    match w.form
    case Short => []
    case Medium => BigEndian(|w.payload|, 2)
    case Long => BigEndian(|w.payload|, 8)
  }

  function KeyBytes(w: Wire): ByteString { if w.key.Some? then w.key.value else [] }

  function WirePayload(w: Wire): ByteString
    requires ValidWire(w)
  {
    if w.key.Some? then Masked(w.payload, w.key.value) else w.payload
  }

  function EncodeWire(w: Wire): ByteString
    requires ValidWire(w)
  {
    [FirstByte(w), SecondByte(w)] + ExtendedLength(w) + KeyBytes(w) + WirePayload(w)
  }

  function FrameOf(w: Wire): Frame { Frame(w.fin, w.opcode, w.payload) }

  /** What a server sends: a final, unmasked frame with the shortest length encoding. */
  function ServerWire(payload: ByteString, opcode: nat): Wire {
    Wire(true, 0, opcode, if |payload| < 126 then Short else if |payload| <= 65535 then Medium else Long, None, payload)
  }

  // ----- parsing what was written -----

  lemma ExtendedLengthValue(w: Wire)
    requires ValidWire(w) && w.form != Short
    ensures BigEndianValue(ExtendedLength(w)) == |w.payload|
  {
    EightBytes();
    BigEndianRoundTrip(|w.payload|, if w.form == Medium then 2 else 8);
  }

  lemma LengthFieldReadBack(data: ByteString, w: Wire, rest: ByteString)
    requires ValidWire(w) && data == [FirstByte(w), SecondByte(w)] + ExtendedLength(w) + rest
    ensures LengthField(data) == Some((|w.payload|, 2 + |ExtendedLength(w)|))
  {
    if w.form != Short { ExtendedLengthValue(w); }
    hide BigEndian, BigEndianValue, FirstByte;
    assert data[1] == SecondByte(w);
    assert data[2..2 + |ExtendedLength(w)|] == ExtendedLength(w);
  }

  lemma WireParts(w: Wire, rest: ByteString)
    requires ValidWire(w)
    ensures
      var data, keyAt := EncodeWire(w) + rest, 2 + |ExtendedLength(w)|;
      var payloadAt := keyAt + |KeyBytes(w)|;
      && data == [FirstByte(w), SecondByte(w)] + ExtendedLength(w) + (KeyBytes(w) + WirePayload(w) + rest)
      && |EncodeWire(w)| == payloadAt + |w.payload| && |WirePayload(w)| == |w.payload|
      && data[keyAt..payloadAt] == KeyBytes(w) && data[payloadAt..payloadAt + |w.payload|] == WirePayload(w)
  {
    hide BigEndian;
  }

  lemma HeaderBits(data: ByteString, w: Wire)
    requires ValidWire(w) && [FirstByte(w), SecondByte(w)] <= data
    ensures (128 <= data[0] as int <==> w.fin) && data[0] as int % 16 == w.opcode
    ensures IsMasked(data) <==> w.key.Some?
  {
    assert data[0] == [FirstByte(w), SecondByte(w)][0] && data[1] == [FirstByte(w), SecondByte(w)][1];
  }

  /** Whatever follows a frame, the parser reads exactly that frame and counts exactly its bytes. */
  lemma FrameRoundTrip(w: Wire, rest: ByteString)
    requires ValidWire(w) && |EncodeWire(w) + rest| <= MAX_STRING
    ensures ParseFrame(EncodeWire(w) + rest) == FrameRead(FrameOf(w), |EncodeWire(w)|)
  {
    hide Masked, BigEndian, LengthField, EncodeWire, ExtendedLength;
    var data := EncodeWire(w) + rest;
    WireParts(w, rest);
    LengthFieldReadBack(data, w, KeyBytes(w) + WirePayload(w) + rest);
    HeaderBits(data, w);
    hide FirstByte, SecondByte;
    if w.key.Some? { MaskedTwice(w.payload, w.key.value); }
  }

  /** What the server's own sender writes, a peer with the same parser reads back. */
  lemma ServerMessageReadBack(payload: ByteString, opcode: nat, rest: ByteString)
    requires opcode < 16 && ValidWire(ServerWire(payload, opcode))
    requires |EncodeWire(ServerWire(payload, opcode)) + rest| <= MAX_STRING
    ensures ParseFrame(EncodeWire(ServerWire(payload, opcode)) + rest)
         == FrameRead(Frame(true, opcode, payload), |EncodeWire(ServerWire(payload, opcode))|)
  {
    hide EncodeWire, ParseFrame;
    FrameRoundTrip(ServerWire(payload, opcode), rest);
  }

  /** No other frame with this payload is shorter, and its first byte is FIN and the opcode only. */
  lemma ServerWireIsShortest(payload: ByteString, opcode: nat, w: Wire)
    requires opcode < 16 && ValidWire(ServerWire(payload, opcode)) && ValidWire(w) && w.payload == payload
    ensures |EncodeWire(ServerWire(payload, opcode))| <= |EncodeWire(w)|
    ensures EncodeWire(ServerWire(payload, opcode))[0] as int == 128 + opcode
  {
    hide BigEndian, Masked;
    EncodedLength(ServerWire(payload, opcode));
    EncodedLength(w);
  }

  lemma EncodedLength(w: Wire)
    requires ValidWire(w)
    ensures |EncodeWire(w)| == |w.payload| + (if w.key.Some? then 6 else 2)
                               + match w.form case Short => 0 case Medium => 2 case Long => 8
    ensures EncodeWire(w)[0] == FirstByte(w)
  {
    hide BigEndian, Masked, FirstByte, SecondByte;
  }

  // ----- only frames are read -----

  /** The frame on the wire that a parsed buffer starts with. */
  function WireOf(data: ByteString): Wire
    requires |data| <= MAX_STRING && ParseFrame(data).FrameRead?
  {
    var frame, low := ParseFrame(data).frame, data[1] as int % 128;
    var lengthEnd := LengthField(data).value.1;
    Wire(frame.fin, data[0] as int / 16 % 8, frame.opcode,
         if low == 126 then Medium else if low == 127 then Long else Short,
         if IsMasked(data) then Some(data[lengthEnd..lengthEnd + 4]) else None,
         frame.payload)
  }

  lemma LengthFieldShape(data: ByteString)
    requires 2 <= |data| && LengthField(data).Some?
    ensures
      var (length, lengthEnd) := LengthField(data).value;
      var low := data[1] as int % 128;
      && length < TWO_64 && lengthEnd <= |data|
      && (low < 126 ==> length == low && lengthEnd == 2)
      && (low == 126 ==> length < 0x1_0000 && lengthEnd == 4 && BigEndian(length, 2) == data[2..4])
      && (low == 127 ==> lengthEnd == 10 && BigEndian(length, 8) == data[2..10])
  {
    EightBytes();
    var low := data[1] as int % 128;
    if low == 126 { BytesAreBigEndian(data[2..4]); }
    if low == 127 { BytesAreBigEndian(data[2..10]); }
  }

  lemma FirstByteBack(b: Byte)
    ensures b as int == (if 128 <= b as int then 128 else 0) + b as int / 16 % 8 * 16 + b as int % 16
  {}

  /** Whatever the parser reads is a frame: its bytes are an encoding of the frame it returns. */
  lemma OnlyFramesAreRead(data: ByteString)
    requires |data| <= MAX_STRING && ParseFrame(data).FrameRead?
    ensures ValidWire(WireOf(data)) && FrameOf(WireOf(data)) == ParseFrame(data).frame
    ensures EncodeWire(WireOf(data)) == data[..ParseFrame(data).size]
  {
    hide Masked, BigEndian, BigEndianValue;
    var w, n := WireOf(data), ParseFrame(data).size;
    LengthFieldShape(data);
    var (length, lengthEnd) := LengthField(data).value;
    hide LengthField;
    var headerLength := HeaderLength(data, lengthEnd);
    var raw := data[headerLength..headerLength + length];
    if IsMasked(data) { MaskedTwice(raw, data[lengthEnd..lengthEnd + 4]); }
    FirstByteBack(data[0]);
    assert ExtendedLength(w) == data[2..lengthEnd];
    assert WirePayload(w) == raw;
    FourSlices(data, lengthEnd, headerLength, n);
  }

  lemma FourSlices(data: ByteString, a: nat, b: nat, c: nat)
    requires 2 <= a <= b <= c <= |data|
    ensures data[..c] == [data[0], data[1]] + data[2..a] + data[a..b] + data[b..c]
  {
    assert data[..c] == data[..b] + data[b..c];
    assert data[..b] == data[..a] + data[a..b];
    assert data[..a] == [data[0], data[1]] + data[2..a];
  }
}
