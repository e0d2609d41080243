/** A stream of WebSocket frames that reaches the read buffer in pieces. */
module WebSocketStream {
  import opened ByteStrings
  import opened WebSocketSpec

  // ----- one frame and the bytes after it -----

  lemma LengthFieldIsStable(d: ByteString, e: ByteString)
    requires d <= e && 2 <= |d| && LengthField(d).Some?
    ensures LengthField(e) == LengthField(d)
  {
    assert 4 <= |d| ==> e[2..4] == d[2..4];
    assert 10 <= |d| ==> e[2..10] == d[2..10];
  }

  /** A frame that was read, or a length that was refused, would have been with more bytes too. */
  lemma FrameIsStable(d: ByteString, e: ByteString)
    requires d <= e && |e| <= MAX_STRING && !ParseFrame(d).NeedMore?
    ensures ParseFrame(e) == ParseFrame(d)
  {
    hide LengthField, Masked;
    LengthFieldIsStable(d, e);
    var (length, lengthEnd) := LengthField(d).value;
    var headerLength := HeaderLength(d, lengthEnd);
    assert lengthEnd + 4 <= |d| ==> e[lengthEnd..lengthEnd + 4] == d[lengthEnd..lengthEnd + 4];
    assert headerLength + length <= |d| ==> e[headerLength..headerLength + length] == d[headerLength..headerLength + length];
  }

  /** Every strict prefix of a frame asks for more bytes. */
  lemma StrictPrefixNeedsMore(w: Wire, d: ByteString)
    requires ValidWire(w) && d < EncodeWire(w) && |EncodeWire(w)| <= MAX_STRING
    ensures ParseFrame(d) == NeedMore
  {
    hide EncodeWire, ParseFrame;
    var e := EncodeWire(w);
    assert e + [] == e;
    FrameRoundTrip(w, []);
    if !ParseFrame(d).NeedMore? { FrameIsStable(d, e); }
  }

  /** A whole header with its length field. */
  predicate HeaderArrived(data: ByteString) {
    2 <= |data| && LengthField(data).Some? && HeaderLength(data, LengthField(data).value.1) <= |data|
  }

  /** The exception is thrown exactly when the header has arrived and the 64-bit sum of its own
      length and the payload length wraps around.  Section 5.2 of RFC 6455 forbids such lengths. */
  lemma LengthErrorIsWrapAround(data: ByteString)
    requires |data| <= MAX_STRING
    ensures ParseFrame(data) == LengthError
       <==> HeaderArrived(data)
            && TWO_64 <= HeaderLength(data, LengthField(data).value.1) + LengthField(data).value.0
  {
    if 2 <= |data| && LengthField(data).Some? {
      LengthFieldShape(data);
    }
  }

  // ----- the read buffer as it fills and empties -----

  /** The frames taken from a buffer, what is left of it, and whether a length was refused. */
  datatype Drained = Drained(frames: seq<Frame>, rest: ByteString, failed: bool)

  /** `parseWebSocketFrame` again and again, until it does not return a frame. */
  function Drain(data: ByteString): (d: Drained)
    requires |data| <= MAX_STRING
    ensures |d.rest| <= |data|
  {
    match ParseFrame(data)
    case FrameRead(frame, size) =>
      var more := Drain(data[size..]);
      Drained([frame] + more.frames, more.rest, more.failed)
    case NeedMore => Drained([], data, false)
    case LengthError => Drained([], data, true)
  }

  function AndThen(frames: seq<Frame>, d: Drained): Drained { d.(frames := frames + d.frames) }

  /** Pieces arrive in turn; after each, the buffer is drained. */
  function ReadAll(buffer: ByteString, pieces: seq<ByteString>): Drained
    requires |buffer| + |Concat(pieces)| <= MAX_STRING
    decreases |pieces|
  {
    if pieces == [] then Drained([], buffer, false)
    else
      var d := Drain(buffer + pieces[0]);
      if d.failed then d else AndThen(d.frames, ReadAll(d.rest, pieces[1..]))
  }

  lemma {:induction false} DrainsCompose(a: ByteString, b: ByteString)
    requires |a + b| <= MAX_STRING
    ensures Drain(a).failed ==> Drain(a + b).failed && Drain(a + b).frames == Drain(a).frames
    ensures !Drain(a).failed ==> Drain(a + b) == AndThen(Drain(a).frames, Drain(Drain(a).rest + b))
    decreases |a|
  {
    hide ParseFrame;
    match ParseFrame(a)
    case FrameRead(frame, size) =>
      FrameIsStable(a, a + b);
      assert (a + b)[size..] == a[size..] + b;
      DrainsCompose(a[size..], b);
      var more := Drain(a[size..]);
      if !more.failed {
        var d := Drain(more.rest + b);
        assert [frame] + (more.frames + d.frames) == ([frame] + more.frames) + d.frames;
      }
    case NeedMore =>
      var d := Drain(a + b);
      assert [] + d.frames == d.frames;
    case LengthError => FrameIsStable(a, a + b);
  }

  /** Whatever the bytes are and however they are cut into pieces, the frames delivered and the
      verdict are those of the whole stream read at once. */
  lemma {:induction false} CutsAreInvisible(buffer: ByteString, pieces: seq<ByteString>)
    requires |buffer| + |Concat(pieces)| <= MAX_STRING && Drain(buffer) == Drained([], buffer, false)
    ensures
      var whole := Drain(buffer + Concat(pieces));
      var read := ReadAll(buffer, pieces);
      read.frames == whole.frames && read.failed == whole.failed && (!read.failed ==> read.rest == whole.rest)
    decreases |pieces|
  {
    hide Drain;
    if pieces == [] {
      assert buffer + [] == buffer;
    } else {
      var next, more := buffer + pieces[0], Concat(pieces[1..]);
      assert buffer + Concat(pieces) == next + more;
      DrainsCompose(next, more);
      var d := Drain(next);
      if !d.failed {
        DrainedStaysDrained(next);
        CutsAreInvisible(d.rest, pieces[1..]);
      }
    }
  }

  lemma {:induction false} DrainedStaysDrained(data: ByteString)
    requires |data| <= MAX_STRING && !Drain(data).failed
    ensures Drain(Drain(data).rest) == Drained([], Drain(data).rest, false)
    decreases |data|
  {
    hide ParseFrame;
    match ParseFrame(data)
    case FrameRead(_, size) => DrainedStaysDrained(data[size..]);
    case NeedMore =>
    case LengthError =>
  }

  // ----- streams of frames -----

  predicate AllValid(wires: seq<Wire>) { forall i :: 0 <= i < |wires| ==> ValidWire(wires[i]) }

  function EncodeWires(wires: seq<Wire>): ByteString
    requires AllValid(wires)
  {
    if wires == [] then [] else EncodeWire(wires[0]) + EncodeWires(wires[1..])
  }

  function FramesOf(wires: seq<Wire>): seq<Frame> {
    if wires == [] then [] else [FrameOf(wires[0])] + FramesOf(wires[1..])
  }

  lemma {:induction false} StreamDrains(wires: seq<Wire>, rest: ByteString)
    requires AllValid(wires) && |EncodeWires(wires) + rest| <= MAX_STRING
    ensures Drain(EncodeWires(wires) + rest) == AndThen(FramesOf(wires), Drain(rest))
    decreases |wires|
  {
    hide EncodeWire, ParseFrame, ValidWire;
    if wires == [] {
      assert EncodeWires(wires) + rest == rest;
      assert [] + Drain(rest).frames == Drain(rest).frames;
    } else {
      var first, more := EncodeWire(wires[0]), EncodeWires(wires[1..]) + rest;
      assert EncodeWires(wires) + rest == first + more;
      FrameRoundTrip(wires[0], more);
      assert (first + more)[|first|..] == more;
      StreamDrains(wires[1..], rest);
      assert [FrameOf(wires[0])] + (FramesOf(wires[1..]) + Drain(rest).frames)
          == FramesOf(wires) + Drain(rest).frames;
    }
  }

  /** Any list of frames, masked or not, in any length encoding, cut into pieces in any way, is
      decoded into exactly that list, in order, and leaves an empty buffer. */
  lemma StreamRoundTrip(wires: seq<Wire>, pieces: seq<ByteString>)
    requires AllValid(wires) && Concat(pieces) == EncodeWires(wires) && |EncodeWires(wires)| <= MAX_STRING
    ensures ReadAll([], pieces) == Drained(FramesOf(wires), [], false)
  {
    hide Drain, EncodeWires;
    NothingToDrain();
    assert [] + Concat(pieces) == Concat(pieces);
    CutsAreInvisible([], pieces);
    assert EncodeWires(wires) + [] == EncodeWires(wires);
    StreamDrains(wires, []);
    assert FramesOf(wires) + [] == FramesOf(wires);
  }

  lemma NothingToDrain()
    ensures Drain([]) == Drained([], [], false)
  {}
}
