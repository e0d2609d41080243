/** Chunked bodies on the wire (section 7.1 of RFC 9112): any text of the form that the parser is meant to
    read, and what one call makes of it. */
module ChunkEncoding {
  import opened ByteStrings
  import opened FieldEncoding
  import opened Fragmentation
  import opened HttpHeaderList
  import opened HttpMessages
  import opened HttpUtils
  import opened ParserSpec

  /** A chunk: the line that gives its size, as it was spelled, and its bytes, which may hold anything. */
  datatype Chunk = Chunk(line: string, data: string)

  function EncodeChunk(c: Chunk): string { c.line + CRLF + c.data + CRLF }

  function EncodeChunks(chunks: seq<Chunk>): string {
    if chunks == [] then "" else EncodeChunk(chunks[0]) + EncodeChunks(chunks[1..])
  }

  /** The line of the last chunk, the trailer lines, and the empty line. */
  function EncodeLast(last: string, trailers: string): string { last + CRLF + trailers + CRLF }

  function ChunkBytes(chunks: seq<Chunk>): string {
    if chunks == [] then "" else chunks[0].data + ChunkBytes(chunks[1..])
  }

  /** A line that gives the size `n`: before any ';', and without the whitespace around it, it is a
      hexadecimal number of that value. */
  predicate IsChunkLine(line: string, n: nat) {
    && NoCrlf(line) && |line| <= MAX_CHUNK_LINE_SIZE
    && SizeText(line) != "" && AllHex(SizeText(line)) && HexValue(SizeText(line)) == n
  }

  predicate ValidChunk(c: Chunk) { c.data != "" && IsChunkLine(c.line, |c.data|) }

  predicate ValidChunks(chunks: seq<Chunk>) { forall i :: 0 <= i < |chunks| ==> ValidChunk(chunks[i]) }

  /** At most 100 valid field lines, each with its line end. */
  predicate ValidTrailers(trailers: string) { FieldLinesOnly(trailers, 0, 0) }

  // ----- the usual spellings -----

  predicate ValidExtension(extension: string) {
    extension == "" || (extension[0] == ';' && NoCrlf(extension))
  }

  /** Whitespace around the digits, leading zeros and an extension make no difference. */
  lemma ChunkLineForm(a: string, hex: string, b: string, extension: string)
    requires AllOws(a) && AllOws(b) && hex != "" && AllHex(hex) && ValidExtension(extension)
    requires |a + hex + b + extension| <= MAX_CHUNK_LINE_SIZE
    ensures IsChunkLine(a + hex + b + extension, HexValue(hex))
  {
    hide HexValue, TrimLeft, TrimRight;
    var size, line := a + hex + b, a + hex + b + extension;
    forall i | 0 <= i < |size| ensures line[i] == size[i] && size[i] != ';' && size[i] != '\r' {
      if i < |a| { assert size[i] == a[i]; }
      else if i < |a| + |hex| { assert size[i] == hex[i - |a|] && FromHex(hex[i - |a|]) != -1; }
      else { assert size[i] == b[i - |a| - |hex|]; }
    }
    CharIsFirst(line, ';', 0, |size|);
    assert line[..|size|] == size;
    HexIsTrimmed(hex);
    TrimmedIsTheCore(a, hex, b);
    forall i | 0 <= i < |line| ensures !CrlfAt(line, i) {
      if |size| <= i {
        assert line[i] == extension[i - |size|];
        assert i + 1 < |line| ==> line[i + 1] == extension[i + 1 - |size|];
        assert !CrlfAt(extension, i - |size|);
      }
    }
    if extension == "" { assert line == size; }
  }

  lemma HexIsTrimmed(hex: string)
    requires hex != "" && AllHex(hex)
    ensures IsTrimmed(hex)
  {
    assert FromHex(hex[0]) != -1 && FromHex(hex[|hex| - 1]) != -1;
  }

  /** The shortest spelling of a size, with an extension. */
  lemma ShortestChunkLine(n: nat, extension: string)
    requires ValidExtension(extension) && |ToHex(n) + extension| <= MAX_CHUNK_LINE_SIZE
    ensures IsChunkLine(ToHex(n) + extension, n)
  {
    HexRoundTrip(n);
    hide ToHex, IsChunkLine, ValidExtension;
    assert "" + ToHex(n) + "" + extension == ToHex(n) + extension;
    ChunkLineForm("", ToHex(n), "", extension);
  }

  /** A written list of fields is a list of trailer lines. */
  lemma {:induction false} WrittenTrailers(data: string, position: nat, count: nat, fields: seq<Header>)
    requires ValidFields(fields) && count + |fields| <= MAX_HEADERS
    requires position <= |data| && data[position..] == EncodeFields(fields)
    ensures FieldLinesOnly(data, position, count)
    decreases |fields|
  {
    hide TurnAt, FieldLine, ValidField;
    if fields == [] {
      EndOfBlock(data, position);
    } else {
      EncodeUnfolds(fields, "");
      var line := FieldLine(fields[0]);
      OneFieldRead(data, position, fields[0], line, EncodeFields(fields[1..]));
      WrittenTrailers(data, position + |line| + 2, count + 1, fields[1..]);
    }
  }

  lemma WrittenFieldsAreTrailers(fields: seq<Header>)
    requires ValidFields(fields) && |fields| <= MAX_HEADERS
    ensures ValidTrailers(EncodeFields(fields))
  {
    hide EncodeFields, ValidFields;
    assert EncodeFields(fields)[0..] == EncodeFields(fields);
    WrittenTrailers(EncodeFields(fields), 0, 0, fields);
  }

  // ----- calls that go on from one point to another -----

  /** Two points of one call: what is left to do at the second is what was left at the first. */
  predicate SameCall(p: Parser, r: Request, q: Parser, s: Request, data: string)
    requires Valid(p) && Valid(q)
  {
    Run(p, data, r) == Run(q, data, s)
  }

  /** A call that completed: the request it filled, and the bytes it took. */
  predicate Delivers(p: Parser, r: Request, data: string, request: Request, consumed: nat)
    requires Valid(p)
  {
    var out := Run(p, data, r);
    out.result == Complete && out.request == request && out.parser.consumed == consumed
  }

  lemma SameCallDelivers(p: Parser, r: Request, q: Parser, s: Request, data: string, request: Request, consumed: nat)
    requires Valid(p) && Valid(q) && SameCall(p, r, q, s, data) && Delivers(q, s, data, request, consumed)
    ensures Delivers(p, r, data, request, consumed)
  {}

  lemma SameCallTwice(p: Parser, r: Request, q: Parser, s: Request, m: Parser, t: Request, data: string)
    requires Valid(p) && Valid(q) && Valid(m) && SameCall(p, r, q, s, data) && SameCall(q, s, m, t, data)
    ensures SameCall(p, r, m, t, data)
  {}

  lemma SameCallAsItself(p: Parser, r: Request, data: string)
    requires Valid(p)
    ensures SameCall(p, r, p, r, data)
  {}

  /** One step of a call, for the call and for its slack. */
  lemma OneStep(p: Parser, data: string, r: Request, q: Parser, s: Request)
    requires Valid(p) && Step(p, data, r) == Continue(q, s)
    ensures SameCall(p, r, q, s, data)
    ensures HasSlack(p, data, r) <==> StepHasSlack(p, data) && HasSlack(q, data, s)
  {}

  lemma ChunkDataStep(p: Parser, data: string, r: Request, bytes: string, tail: string)
    requires Valid(p) && p.state == AtChunkData && p.consumed <= |data| && p.chunkBytesRead == 0 && p.chunkSize == |bytes|
    requires data[p.consumed..] == bytes + CRLF + tail
    ensures
      var q := p.(consumed := p.consumed + |bytes| + 2, chunkBytesRead := |bytes|, body := p.body + bytes,
                  state := AtChunkSize);
      Valid(q) && SameCall(p, r, q, r, data) && (HasSlack(p, data, r) <==> HasSlack(q, data, r))
  {
    hide Run, HasSlack, SameCall;
    var x := data[p.consumed..];
    assert x[..|bytes|] == bytes;
    var m := p.(consumed := p.consumed + |bytes|, chunkBytesRead := |bytes|, body := p.body + bytes,
                state := AtChunkDataCrlf);
    assert Step(p, data, r) == Continue(m, r);
    OneStep(p, data, r, m, r);
    assert data[m.consumed..] == x[|bytes|..] == CRLF + tail;
    OneStep(m, data, r, m.(consumed := m.consumed + 2, state := AtChunkSize), r);
    SameCallTwice(p, r, m, r, m.(consumed := m.consumed + 2, state := AtChunkSize), r, data);
  }

  // ----- chunks -----

  lemma ChunkLineStep(p: Parser, x: string, r: Request, line: string, n: nat, tail: string)
    requires Valid(p) && p.state == AtChunkSize && IsChunkLine(line, n) && |p.body| + n <= MAX_BODY_SIZE
    requires x == line + CRLF + tail
    ensures FindCrlf(x, 0) == |line|
    ensures StepChunkSize(p, x, r)
         == Continue(p.(consumed := p.consumed + |line| + 2, chunkSize := n, chunkBytesRead := 0,
                        state := if n == 0 then AtChunkTrailer else AtChunkData), r)
  {
    hide SizeText, ChunkSizeOf, AllHex, HexValue, FindCrlf;
    assert x[0..] == x;
    LineAt(x, 0, line, tail);
    assert x[..|line|] == line;
    ChunkSizeExact(SizeText(line), p.chunkSize);
  }

  /** The parser once it has read a chunk. */
  function AfterChunk(p: Parser, c: Chunk): Parser {
    p.(consumed := p.consumed + |EncodeChunk(c)|, chunkSize := |c.data|, chunkBytesRead := |c.data|,
       body := p.body + c.data, state := AtChunkSize)
  }

  function AfterChunks(p: Parser, chunks: seq<Chunk>): Parser
    decreases |chunks|
  {
    if chunks == [] then p else AfterChunks(AfterChunk(p, chunks[0]), chunks[1..])
  }

  /** A chunk line read, as a step of a call: the parser it leads to. */
  lemma ChunkLineRead(p: Parser, data: string, r: Request, line: string, n: nat, tail: string) returns (q: Parser)
    requires Valid(p) && p.state == AtChunkSize && p.consumed <= |data|
    requires IsChunkLine(line, n) && |p.body| + n <= MAX_BODY_SIZE && data[p.consumed..] == line + CRLF + tail
    ensures q == p.(consumed := p.consumed + |line| + 2, chunkSize := n, chunkBytesRead := 0,
                    state := if n == 0 then AtChunkTrailer else AtChunkData)
    ensures Valid(q) && q.consumed <= |data| && data[q.consumed..] == tail
    ensures SameCall(p, r, q, r, data)
    ensures HasSlack(p, data, r) <==> |line| + 1 <= MAX_CHUNK_LINE_SIZE && HasSlack(q, data, r)
  {
    hide IsChunkLine, Run, HasSlack, StepChunkSize, SameCall;
    var x := data[p.consumed..];
    ChunkLineStep(p, x, r, line, n, tail);
    assert tail == x[|line| + 2..];
    q := StepChunkSize(p, x, r).parser;
    OneStep(p, data, r, q, r);
  }

  lemma EncodeChunkUnfolds(c: Chunk, tail: string)
    ensures EncodeChunk(c) + tail == c.line + CRLF + (c.data + CRLF + tail)
    ensures |EncodeChunk(c)| == |c.line| + 2 + |c.data| + 2
  {}

  lemma ChunkRead(p: Parser, data: string, r: Request, c: Chunk, tail: string)
    requires Valid(p) && p.state == AtChunkSize && p.consumed <= |data| && ValidChunk(c)
    requires |p.body| + |c.data| <= MAX_BODY_SIZE && data[p.consumed..] == EncodeChunk(c) + tail
    ensures
      var q := AfterChunk(p, c);
      && Valid(q) && q.consumed <= |data| && data[q.consumed..] == tail
      && SameCall(p, r, q, r, data)
      && (HasSlack(p, data, r) <==> |c.line| + 1 <= MAX_CHUNK_LINE_SIZE && HasSlack(q, data, r))
  {
    hide IsChunkLine, EncodeChunk, Run, HasSlack, SameCall;
    var rest := c.data + CRLF + tail;
    EncodeChunkUnfolds(c, tail);
    var q := ChunkLineRead(p, data, r, c.line, |c.data|, rest);
    ChunkDataStep(q, data, r, c.data, tail);
    SameCallTwice(p, r, q, r, AfterChunk(p, c), r, data);
    assert rest[|c.data| + 2..] == tail;
    assert data[q.consumed + |c.data| + 2..] == rest[|c.data| + 2..];
  }

  predicate RoomyChunks(chunks: seq<Chunk>) {
    chunks != [] ==> |chunks[0].line| + 1 <= MAX_CHUNK_LINE_SIZE && RoomyChunks(chunks[1..])
  }

  lemma {:induction false} ChunksRead(p: Parser, data: string, r: Request, chunks: seq<Chunk>, tail: string)
    requires Valid(p) && p.state == AtChunkSize && p.consumed <= |data|
    requires ValidChunks(chunks)
    requires |p.body| + |ChunkBytes(chunks)| <= MAX_BODY_SIZE && data[p.consumed..] == EncodeChunks(chunks) + tail
    ensures
      var q := AfterChunks(p, chunks);
      && Valid(q) && q.state == AtChunkSize && q.body == p.body + ChunkBytes(chunks)
      && q.consumed == p.consumed + |EncodeChunks(chunks)| <= |data| && data[q.consumed..] == tail
      && SameCall(p, r, q, r, data)
      && (HasSlack(p, data, r) <==> RoomyChunks(chunks) && HasSlack(q, data, r))
    decreases |chunks|
  {
    hide Run, HasSlack, EncodeChunk, ValidChunk, SameCall;
    if chunks == [] {
      SameCallAsItself(p, r, data);
      assert p.body + "" == p.body && EncodeChunks(chunks) + tail == tail;
    } else {
      var c, more := chunks[0], EncodeChunks(chunks[1..]);
      assert EncodeChunks(chunks) + tail == EncodeChunk(c) + (more + tail);
      ChunkRead(p, data, r, c, more + tail);
      var q := AfterChunk(p, c);
      assert p.body + ChunkBytes(chunks) == q.body + ChunkBytes(chunks[1..]);
      ChunksRead(q, data, r, chunks[1..], tail);
      SameCallTwice(p, r, q, r, AfterChunks(p, chunks), r, data);
    }
  }

  // ----- the end of a chunked body -----

  /** Between field lines, and before the empty line after them, there is no other empty line. */
  lemma {:induction false} NoBlankInTrailers(t: string, position: nat, count: nat, tail: string)
    requires FieldLinesOnly(t, position, count) && position < |t|
    ensures position + 2 < |t| && CrlfAt(t, |t| - 2) && !CrlfAt(t, position)
    ensures forall i :: position <= i < |t| - 2 ==> !BlankLineAt(t + CRLF + tail, i)
    decreases |t| - position
  {
    hide FieldOfLine, FindCrlf;
    var x, lineEnd, next := t + CRLF + tail, FindCrlf(t, position), FindCrlf(t, position) + 2;
    FirstCrlf(t, position);
    if next < |t| { NoBlankInTrailers(t, next, count + 1, tail); }
    forall i | position <= i < next && i < |t| - 2 ensures !BlankLineAt(x, i) {
      assert CrlfAt(x, i) ==> CrlfAt(t, i);
      if i == lineEnd { assert CrlfAt(x, next) ==> CrlfAt(t, next); }
    }
  }

  lemma {:induction false} TrailersPass(t: string, position: nat, count: nat)
    requires FieldLinesOnly(t, position, count)
    ensures TrailersOk(t, position, count)
    decreases |t| - position
  {
    hide TurnAt;
    var turn := TurnAt(t, position);
    if turn.FieldFound? { TrailersPass(t, turn.next, count + 1); }
  }

  lemma BlankLineAfterTrailers(t: string, tail: string)
    requires ValidTrailers(t) && t != ""
    ensures 2 < |t| && FindBlankLine(t + CRLF + tail, 0) == |t| - 2 && !CrlfAt(t + CRLF + tail, 0)
  {
    var x := t + CRLF + tail;
    NoBlankInTrailers(t, 0, 0, tail);
    hide FieldLinesOnly, FindBlankLine;
    assert CrlfAt(x, 0) ==> CrlfAt(t, 0);
    assert BlankLineAt(x, |t| - 2);
    FirstBlankLine(x, 0);
  }

  lemma TrailerStep(p: Parser, x: string, r: Request, trailers: string, tail: string)
    requires Valid(p) && p.state == AtChunkTrailer && ValidTrailers(trailers) && x == trailers + CRLF + tail
    ensures StepChunkTrailer(p, x, r) == Finish(p, r, |trailers| + 2)
    ensures CrlfAt(x, 0) <==> trailers == ""
    ensures trailers != "" ==> FindBlankLine(x, 0) == |trailers| - 2
  {
    hide FindBlankLine, TrailersOk, FieldLinesOnly;
    if trailers == "" {
      assert x == CRLF + tail;
    } else {
      BlankLineAfterTrailers(trailers, tail);
      assert x[..FindBlankLine(x, 0) + 2] == trailers;
      TrailersPass(trailers, 0, 0);
    }
  }

  predicate RoomyLast(last: string, trailers: string) {
    && |last| + 1 <= MAX_CHUNK_LINE_SIZE
    && (trailers != "" ==> |trailers| + 1 <= MAX_HEADER_SIZE)
  }

  lemma LastRead(p: Parser, data: string, r: Request, last: string, trailers: string, tail: string)
    requires Valid(p) && p.state == AtChunkSize && p.consumed <= |data| && IsChunkLine(last, 0) && ValidTrailers(trailers)
    requires data[p.consumed..] == EncodeLast(last, trailers) + tail
    ensures Delivers(p, r, data, WithBody(r, p.body), p.consumed + |EncodeLast(last, trailers)|)
    ensures HasSlack(p, data, r) <==> RoomyLast(last, trailers)
  {
    hide IsChunkLine, EncodeLast, HasSlack, Run, ValidTrailers, SameCall, Delivers, WithBody;
    EncodeLastUnfolds(last, trailers, tail);
    var q := ChunkLineRead(p, data, r, last, 0, trailers + CRLF + tail);
    TrailerRead(q, data, r, trailers, tail);
    SameCallDelivers(p, r, q, r, data, WithBody(r, p.body), p.consumed + |EncodeLast(last, trailers)|);
  }

  lemma EncodeLastUnfolds(last: string, trailers: string, tail: string)
    ensures EncodeLast(last, trailers) + tail == last + CRLF + (trailers + CRLF + tail)
    ensures |EncodeLast(last, trailers)| == |last| + 2 + |trailers| + 2
  {}

  lemma TrailerRead(p: Parser, data: string, r: Request, trailers: string, tail: string)
    requires Valid(p) && p.state == AtChunkTrailer && p.consumed <= |data| && ValidTrailers(trailers)
    requires data[p.consumed..] == trailers + CRLF + tail
    ensures Delivers(p, r, data, WithBody(r, p.body), p.consumed + |trailers| + 2)
    ensures HasSlack(p, data, r) <==> (trailers != "" ==> |trailers| + 1 <= MAX_HEADER_SIZE)
  {
    hide ValidTrailers, HasSlack, Run, StepChunkTrailer, FindBlankLine;
    TrailerStep(p, data[p.consumed..], r, trailers, tail);
    assert Step(p, data, r) == Finish(p, r, |trailers| + 2);
    LastStep(p, data, r);
  }

  lemma LastStep(p: Parser, data: string, r: Request)
    requires Valid(p) && Step(p, data, r).Stop?
    ensures Run(p, data, r) == Parsed(Step(p, data, r).result, Step(p, data, r).parser, Step(p, data, r).request)
    ensures HasSlack(p, data, r) <==> StepHasSlack(p, data)
  {}
}
