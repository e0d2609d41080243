/** The read buffer and the connection that parses from it (src/network/ReadBuffer.cpp,
    src/network/ClientConnection.cpp). */
module Connection {
  import opened ByteStrings
  import opened ChunkEncoding
  import opened HttpMessages
  import opened HttpRequestParser
  import opened ParserSpec
  import opened Pipelining
  import opened WebSocketSpec

  class ReadBuffer {
    var buffer: ByteString

    constructor ()
      ensures buffer == []
    {
      buffer := [];
    }

    method Append(data: ByteString)
      modifies this
      ensures buffer == old(buffer) + data
    {
      buffer := buffer + data;
    }

    /** A false result is the `std::out_of_range` exception. */
    method Consume(size: nat) returns (ok: bool)
      modifies this
      ensures ok <==> size <= |old(buffer)|
      ensures buffer == if ok then old(buffer)[size..] else old(buffer)
    {
      if size > |buffer| { return false; }
      buffer := buffer[size..];
      return true;
    }

    method Clear()
      modifies this
      ensures buffer == []
    {
      buffer := [];
    }
  }

  class ClientConnection {
    const readBuffer: ReadBuffer
    const parser: HttpParser

    /** The parser never counts more bytes than the buffer holds. */
    ghost predicate ValidConnection()
      reads this, readBuffer, parser
    {
      Valid(parser.View()) && parser.consumed <= |readBuffer.buffer|
    }

    /** The connection, with the request that is being filled. */
    ghost function Now(request: HttpRequest): Session
      reads this, readBuffer, parser, request, request.headers
    {
      Session(parser.View(), request.View(), readBuffer.buffer, false)
    }

    constructor ()
      ensures ValidConnection() && fresh(readBuffer) && fresh(parser)
      ensures readBuffer.buffer == [] && parser.View() == INITIAL
    {
      readBuffer := new ReadBuffer();
      parser := new HttpParser();
    }

    /** What `read` does with the bytes it gets from the socket. */
    method Receive(bytes: ByteString)
      requires ValidConnection()
      modifies readBuffer
      ensures ValidConnection() && readBuffer.buffer == old(readBuffer.buffer) + bytes
    {
      readBuffer.Append(bytes);
    }

    method ParseRequest(request: HttpRequest) returns (result: ParseResult)
      requires ValidConnection()
      modifies parser, request, request.headers
      ensures ValidConnection()
      ensures Parsed(result, parser.View(), request.View())
           == Run(old(parser.View()), readBuffer.buffer, old(request.View()))
    {
      result := parser.Parse(readBuffer.buffer, request);
    }

    /** The consumed bytes are always there to be dropped, so `consume` never throws. */
    method ConsumeParsedRequest() returns (ok: bool)
      requires ValidConnection()
      modifies readBuffer, parser
      ensures ok && ValidConnection()
      ensures readBuffer.buffer == old(readBuffer.buffer)[old(parser.consumed)..] && parser.View() == INITIAL
    {
      var consumed := parser.ConsumedBytes();
      ok := readBuffer.Consume(consumed);
      parser.Reset();
    }

    /** One request: parse, and once it is complete, drop its bytes.  Together with a fresh request
        afterwards, this is one turn of `Pump`. */
    method NextRequest(request: HttpRequest) returns (result: ParseResult)
      requires ValidConnection()
      modifies readBuffer, parser, request, request.headers
      ensures ValidConnection()
      ensures result == Complete ==>
                Pump(old(Now(request))) == Pipelining.AndThen([request.View()], Pump(Holding(readBuffer.buffer)))
      ensures result == Incomplete ==> Pump(old(Now(request))) == Delivery([], Now(request))
      ensures result == Invalid ==> Pump(old(Now(request))) == Delivery([], Now(request).(failed := true))
    {
      hide Run;
      result := ParseRequest(request);
      if result == Complete {
        var _ := ConsumeParsedRequest();
      }
    }

    method ParseWebSocketFrame() returns (result: FrameResult)
      requires |readBuffer.buffer| <= MAX_STRING
      modifies readBuffer
      ensures result == ParseFrame(old(readBuffer.buffer))
      ensures readBuffer.buffer ==
              if result.FrameRead? then old(readBuffer.buffer)[result.size..] else old(readBuffer.buffer)
    {
      hide Masked;
      var data := readBuffer.buffer;
      if |data| < 2 { return NeedMore; }
      var fin, opcode := 128 <= data[0] as int, data[0] as int % 16;
      var masked := 128 <= data[1] as int;
      var arrived, payloadLength, headerLength := ReadLength(data);
      if !arrived { return NeedMore; }
      var keyAt := headerLength;
      if masked {
        if |data| < headerLength + 4 { return NeedMore; }
        headerLength := headerLength + 4;
      }
      if |data| < (headerLength + payloadLength) % TWO_64 { return NeedMore; }
      if MAX_STRING < payloadLength { return LengthError; }
      var payload;
      if masked {
        payload := Unmask(data[headerLength..headerLength + payloadLength], data[keyAt..keyAt + 4]);
      } else {
        payload := data[headerLength..headerLength + payloadLength];
      }
      var ok := readBuffer.Consume(headerLength + payloadLength);
      return FrameRead(Frame(fin, opcode, payload), headerLength + payloadLength);
    }

    /** The declared length; no shift loses bits, so the 64-bit arithmetic is exact. */
    static method ReadLength(data: ByteString) returns (arrived: bool, length: nat, lengthEnd: nat)
      requires 2 <= |data|
      ensures arrived <==> LengthField(data).Some?
      ensures arrived ==> LengthField(data) == Some((length, lengthEnd)) && length < TWO_64
    {
      length, lengthEnd := data[1] as int % 128, 2;
      if length == 126 {
        if |data| < 4 { return false, length, lengthEnd; }
        assert BigEndianValue(data[2..4][..1]) == data[2] as int by { assert data[2..4][..1] == [data[2]]; }
        length := data[2] as int * 256 + data[3] as int;
        lengthEnd := 4;
      } else if length == 127 {
        if |data| < 10 { return false, length, lengthEnd; }
        EightBytes();
        length := 0;
        for i := 0 to 8
          invariant length == BigEndianValue(data[2..2 + i]) < TWO_64
        {
          assert data[2..2 + (i + 1)][..i] == data[2..2 + i];
          length := length * 256 + data[2 + i] as int;
          assert length == BigEndianValue(data[2..2 + (i + 1)]);
          BytesAreBigEndian(data[2..2 + (i + 1)]);
          ShorterIsSmaller(i + 1);
        }
        lengthEnd := 10;
      }
      return true, length, lengthEnd;
    }

    static lemma {:induction false} ShorterIsSmaller(count: nat)
      requires count <= 8
      ensures Pow256(count) <= TWO_64
      decreases 8 - count
    {
      EightBytes();
      if count < 8 { ShorterIsSmaller(count + 1); }
    }

    static method Unmask(raw: ByteString, key: ByteString) returns (payload: ByteString)
      requires |key| == 4
      ensures payload == Masked(raw, key)
    {
      payload := [];
      for i := 0 to |raw|
        invariant |payload| == i && forall k :: 0 <= k < i ==> payload[k] == XorByte(raw[k], key[k % 4])
      {
        payload := payload + [XorByte(raw[i], key[i % 4])];
      }
    }

    /** The bytes `sendWebSocketMessage` hands to the socket. */
    static method WebSocketMessage(payload: ByteString, opcode: nat) returns (frame: ByteString)
      requires |payload| <= MAX_STRING && opcode < 16
      ensures ValidWire(ServerWire(payload, opcode)) && frame == EncodeWire(ServerWire(payload, opcode))
    {
      var length := |payload|;
      frame := [(0x80 + opcode) as char];
      if length < 126 {
        frame := frame + [length as char];
      } else if length <= 65535 {
        frame := frame + [126 as char];
        frame := frame + [(length / 256 % 256) as char];
        frame := frame + [(length % 256) as char];
        assert BigEndian(length, 2) == [(length / 256 % 256) as char] + [(length % 256) as char] by {
          assert BigEndian(length / 256, 1) == [] + [(length / 256 % 256) as char];
        }
      } else {
        frame := AppendEightBytes(frame + [127 as char], length);
      }
      frame := frame + payload;
    }

    /** The loop over the shifts 56, 48, ..., 0. */
    static method AppendEightBytes(before: ByteString, length: nat) returns (frame: ByteString)
      requires length <= MAX_STRING
      ensures frame == before + BigEndian(length, 8)
    {
      hide BigEndian, Pow256;
      frame := before;
      var i := 7;
      assert length / Pow256(8) == 0 by { EightBytes(); }
      while i >= 0
        invariant -1 <= i <= 7
        invariant frame == before + BigEndian(length / Pow256(i + 1), 7 - i)
      {
        DivideOnce(length, i);
        OneMoreByte(length / Pow256(i), 7 - i);
        Associates(before, BigEndian(length / Pow256(i + 1), 7 - i), [(length / Pow256(i) % 256) as char]);
        frame := frame + [(length / Pow256(i) % 256) as char];
        i := i - 1;
      }
      assert length / Pow256(0) == length by { OneByteLess(length); }
    }

    static lemma OneByteLess(n: nat)
      ensures n / Pow256(0) == n
    {}

    static lemma OneMoreByte(n: nat, count: nat)
      ensures BigEndian(n, count + 1) == BigEndian(n / 256, count) + [(n % 256) as char]
    {}

    static lemma DivideOnce(n: nat, i: nat)
      requires i < 8
      ensures n / Pow256(i) / 256 == n / Pow256(i + 1)
    {
      assert Pow256(1) == 256 && Pow256(2) == 0x1_0000 && Pow256(3) == 0x100_0000 && Pow256(4) == 0x1_0000_0000;
      assert Pow256(5) == 0x100_0000_0000 && Pow256(6) == 0x1_0000_0000_0000 && Pow256(7) == 0x100_0000_0000_0000;
    }
  }
}
