/** The examples of section 5.7 of RFC 6455, byte by byte. */
module WebSocketExamples {
  import opened ByteStrings
  import opened WebSocketSpec

  const HELLO: ByteString := ['H', 'e', 'l', 'l', 'o']
  const KEY: ByteString := [0x37 as char, 0xfa as char, 0x21 as char, 0x3d as char]
  const MASKED_HELLO: ByteString := [0x7f as char, 0x9f as char, 0x4d as char, 0x51 as char, 0x58 as char]

  lemma OneMoreBit(a: nat, b: nat, bits: nat)
    ensures XorBits(a, b, bits + 1) == XorBits(a / 2, b / 2, bits) * 2 + (a + b) % 2
  {}

  lemma NoBits(a: nat, b: nat)
    ensures XorBits(a, b, 0) == 0
  {}

  lemma FirstByteXored()
    ensures XorBits(0x48, 0x37, 8) == 0x7f
  {
    hide XorBits;
    OneMoreBit(72, 55, 7);
    OneMoreBit(36, 27, 6);
    OneMoreBit(18, 13, 5);
    OneMoreBit(9, 6, 4);
    OneMoreBit(4, 3, 3);
    OneMoreBit(2, 1, 2);
    OneMoreBit(1, 0, 1);
    OneMoreBit(0, 0, 0);
    NoBits(0, 0);
  }

  lemma SecondByteXored()
    ensures XorBits(0x65, 0xfa, 8) == 0x9f
  {
    hide XorBits;
    OneMoreBit(101, 250, 7);
    OneMoreBit(50, 125, 6);
    OneMoreBit(25, 62, 5);
    OneMoreBit(12, 31, 4);
    OneMoreBit(6, 15, 3);
    OneMoreBit(3, 7, 2);
    OneMoreBit(1, 3, 1);
    OneMoreBit(0, 1, 0);
    NoBits(0, 0);
  }

  lemma ThirdByteXored()
    ensures XorBits(0x6c, 0x21, 8) == 0x4d
  {
    hide XorBits;
    OneMoreBit(108, 33, 7);
    OneMoreBit(54, 16, 6);
    OneMoreBit(27, 8, 5);
    OneMoreBit(13, 4, 4);
    OneMoreBit(6, 2, 3);
    OneMoreBit(3, 1, 2);
    OneMoreBit(1, 0, 1);
    OneMoreBit(0, 0, 0);
    NoBits(0, 0);
  }

  lemma FourthByteXored()
    ensures XorBits(0x6c, 0x3d, 8) == 0x51
  {
    hide XorBits;
    OneMoreBit(108, 61, 7);
    OneMoreBit(54, 30, 6);
    OneMoreBit(27, 15, 5);
    OneMoreBit(13, 7, 4);
    OneMoreBit(6, 3, 3);
    OneMoreBit(3, 1, 2);
    OneMoreBit(1, 0, 1);
    OneMoreBit(0, 0, 0);
    NoBits(0, 0);
  }

  lemma FifthByteXored()
    ensures XorBits(0x6f, 0x37, 8) == 0x58
  {
    hide XorBits;
    OneMoreBit(111, 55, 7);
    OneMoreBit(55, 27, 6);
    OneMoreBit(27, 13, 5);
    OneMoreBit(13, 6, 4);
    OneMoreBit(6, 3, 3);
    OneMoreBit(3, 1, 2);
    OneMoreBit(1, 0, 1);
    OneMoreBit(0, 0, 0);
    NoBits(0, 0);
  }

  lemma HelloMasked()
    ensures Masked(HELLO, KEY) == MASKED_HELLO
  {
    hide XorBits, Pow2, XorByte;
    FirstByteXored();
    SecondByteXored();
    ThirdByteXored();
    FourthByteXored();
    FifthByteXored();
    XorByteIsXorBits(HELLO[0], KEY[0]);
    XorByteIsXorBits(HELLO[1], KEY[1]);
    XorByteIsXorBits(HELLO[2], KEY[2]);
    XorByteIsXorBits(HELLO[3], KEY[3]);
    XorByteIsXorBits(HELLO[4], KEY[0]);
    var masked := Masked(HELLO, KEY);
    assert masked[0] == MASKED_HELLO[0] && masked[1] == MASKED_HELLO[1] && masked[2] == MASKED_HELLO[2];
    assert masked[3] == MASKED_HELLO[3] && masked[4] == MASKED_HELLO[4];
  }

  /** A single-frame unmasked text message. */
  lemma UnmaskedText(rest: ByteString)
    requires |rest| <= MAX_STRING - 7
    ensures ParseFrame([0x81 as char, 0x05 as char] + HELLO + rest) == FrameRead(Frame(true, 1, HELLO), 7)
  {
    ShortFrame(Wire(true, 0, 1, Short, None, HELLO), rest);
  }

  lemma ShortFrame(w: Wire, rest: ByteString)
    requires ValidWire(w) && w.form == Short && w.key == None && |EncodeWire(w) + rest| <= MAX_STRING
    ensures ParseFrame([FirstByte(w), SecondByte(w)] + w.payload + rest) == FrameRead(FrameOf(w), 2 + |w.payload|)
  {
    FrameRoundTrip(w, rest);
    hide ParseFrame;
    assert EncodeWire(w) == [FirstByte(w), SecondByte(w)] + w.payload;
  }

  lemma ShortMaskedFrame(w: Wire, masked: ByteString, rest: ByteString)
    requires ValidWire(w) && w.form == Short && w.key.Some? && |EncodeWire(w) + rest| <= MAX_STRING
    requires masked == Masked(w.payload, w.key.value)
    ensures ParseFrame([FirstByte(w), SecondByte(w)] + w.key.value + masked + rest) == FrameRead(FrameOf(w), 6 + |w.payload|)
  {
    FrameRoundTrip(w, rest);
    hide ParseFrame, Masked;
    assert EncodeWire(w) == [FirstByte(w), SecondByte(w)] + w.key.value + masked;
  }

  /** A single-frame masked text message. */
  lemma MaskedText(rest: ByteString)
    requires |rest| <= MAX_STRING - 11
    ensures ParseFrame([0x81 as char, 0x85 as char] + KEY + MASKED_HELLO + rest) == FrameRead(Frame(true, 1, HELLO), 11)
  {
    HelloMasked();
    hide Masked;
    ShortMaskedFrame(Wire(true, 0, 1, Short, Some(KEY), HELLO), MASKED_HELLO, rest);
  }

  /** A fragmented unmasked text message: "Hel" and "lo". */
  lemma FragmentedText(rest: ByteString)
    requires |rest| <= MAX_STRING - 9
    ensures ParseFrame([0x01 as char, 0x03 as char] + ['H', 'e', 'l'] + rest) == FrameRead(Frame(false, 1, ['H', 'e', 'l']), 5)
    ensures ParseFrame([0x80 as char, 0x02 as char] + ['l', 'o'] + rest) == FrameRead(Frame(true, 0, ['l', 'o']), 4)
  {
    ShortFrame(Wire(false, 0, 1, Short, None, ['H', 'e', 'l']), rest);
    ShortFrame(Wire(true, 0, 0, Short, None, ['l', 'o']), rest);
  }

  /** An unmasked ping and its masked pong. */
  lemma PingAndPong(rest: ByteString)
    requires |rest| <= MAX_STRING - 11
    ensures ParseFrame([0x89 as char, 0x05 as char] + HELLO + rest) == FrameRead(Frame(true, 9, HELLO), 7)
    ensures ParseFrame([0x8a as char, 0x85 as char] + KEY + MASKED_HELLO + rest) == FrameRead(Frame(true, 10, HELLO), 11)
  {
    ShortFrame(Wire(true, 0, 9, Short, None, HELLO), rest);
    HelloMasked();
    hide Masked;
    ShortMaskedFrame(Wire(true, 0, 10, Short, Some(KEY), HELLO), MASKED_HELLO, rest);
  }

  const LENGTH_256: ByteString := [0x01 as char, 0x00 as char]
  const LENGTH_64K: ByteString :=
    [0x00 as char, 0x00 as char, 0x00 as char, 0x00 as char, 0x00 as char, 0x01 as char, 0x00 as char, 0x00 as char]

  lemma LongLengths()
    ensures BigEndian(256, 2) == LENGTH_256 && BigEndian(65536, 8) == LENGTH_64K
  {
    assert BigEndian(256, 2) == BigEndian(1, 1) + [0x00 as char];
    assert BigEndian(1, 1) == [] + [0x01 as char];
    assert BigEndian(65536, 8) == BigEndian(256, 7) + [0x00 as char];
    assert BigEndian(256, 7) == BigEndian(1, 6) + [0x00 as char];
    assert BigEndian(1, 6) == BigEndian(0, 5) + [0x01 as char];
    assert BigEndian(0, 5) == BigEndian(0, 4) + [0x00 as char];
    assert BigEndian(0, 4) == BigEndian(0, 3) + [0x00 as char];
    assert BigEndian(0, 3) == BigEndian(0, 2) + [0x00 as char];
    assert BigEndian(0, 2) == BigEndian(0, 1) + [0x00 as char];
    assert BigEndian(0, 1) == [] + [0x00 as char];
  }

  /** 256 and 65536 bytes of binary data in a single unmasked frame, read, and as the server writes them. */
  lemma BinaryData(data: ByteString, rest: ByteString)
    requires |data| == 256 || |data| == 65536
    requires |rest| <= MAX_STRING - 65546
    ensures
      var frame: ByteString :=
        if |data| == 256 then [0x82 as char, 0x7e as char] + LENGTH_256 + data
        else [0x82 as char, 0x7f as char] + LENGTH_64K + data;
      ParseFrame(frame + rest) == FrameRead(Frame(true, 2, data), |frame|) && frame == EncodeWire(ServerWire(data, 2))
  {
    LongLengths();
    hide BigEndian, ParseFrame;
    var w := ServerWire(data, 2);
    assert EncodeWire(w) == [FirstByte(w), SecondByte(w)] + ExtendedLength(w) + [] + data;
    assert [FirstByte(w), SecondByte(w)] + ExtendedLength(w) + [] == [FirstByte(w), SecondByte(w)] + ExtendedLength(w);
    FrameRoundTrip(w, rest);
  }

  lemma OneMoreByte(s: ByteString, n: nat)
    requires n < |s|
    ensures BigEndianValue(s[..n + 1]) == BigEndianValue(s[..n]) * 256 + s[n] as int
  {
    assert s[..n + 1][..n] == s[..n];
  }

  /** The most significant byte comes first. */
  lemma TwoBytesMean(s: ByteString)
    requires |s| == 2
    ensures BigEndianValue(s) == s[0] as int * 256 + s[1] as int
  {
    OneMoreByte(s, 0);
    OneMoreByte(s, 1);
    hide BigEndianValue;
    assert s[..2] == s;
    NoBytes(s);
  }

  lemma NoBytes(s: ByteString)
    ensures BigEndianValue(s[..0]) == 0
  {}

  lemma EightBytesMean(s: ByteString)
    requires |s| == 8
    ensures BigEndianValue(s) == s[0] as int * 0x100_0000_0000_0000 + s[1] as int * 0x1_0000_0000_0000
                               + s[2] as int * 0x100_0000_0000 + s[3] as int * 0x1_0000_0000
                               + s[4] as int * 0x100_0000 + s[5] as int * 0x1_0000 + s[6] as int * 256 + s[7] as int
  {
    hide BigEndianValue;
    NoBytes(s);
    OneMoreByte(s, 0);
    OneMoreByte(s, 1);
    OneMoreByte(s, 2);
    OneMoreByte(s, 3);
    OneMoreByte(s, 4);
    OneMoreByte(s, 5);
    OneMoreByte(s, 6);
    OneMoreByte(s, 7);
    assert s[..8] == s;
  }
}
