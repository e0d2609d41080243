/** What was on the wire when a request completed: the converse of the round trips, for chunked bodies
    (src/http/HttpParser.cpp:211-391) and for whole requests. */
module ChunkDecoding {
  import opened Acceptance
  import opened ByteStrings
  import opened ChunkEncoding
  import opened FieldEncoding
  import opened Fragmentation
  import opened HttpHeaderList
  import opened HttpMessages
  import opened HttpUtils
  import opened ParserSpec
  import opened RequestEncoding

  // ----- one step that settled, seen from the bytes it took -----

  lemma LineOnTheWire(x: string)
    requires FindCrlf(x, 0) != NPOS
    ensures NoCrlf(x[..FindCrlf(x, 0)])
    ensures x == x[..FindCrlf(x, 0)] + CRLF + x[FindCrlf(x, 0) + 2..]
  {
    var line := x[..FindCrlf(x, 0)];
    FirstCrlf(x, 0);
    hide FindCrlf;
    forall i | 0 <= i < |line| ensures !CrlfAt(line, i) { assert !CrlfAt(x, i); }
  }

  lemma ChunkLineOnTheWire(p: Parser, x: string, r: Request) returns (line: string, n: nat, y: string)
    requires Valid(p) && p.state == AtChunkSize && Settled(StepChunkSize(p, x, r))
    ensures IsChunkLine(line, n) && x == line + CRLF + y && |p.body| + n <= MAX_BODY_SIZE
    ensures StepChunkSize(p, x, r)
         == Continue(p.(consumed := p.consumed + |line| + 2, chunkSize := n, chunkBytesRead := 0,
                        state := if n == 0 then AtChunkTrailer else AtChunkData), r)
  {
    hide SizeText, ChunkSizeOf, AllHex, HexValue, FindCrlf;
    line, y := x[..FindCrlf(x, 0)], x[FindCrlf(x, 0) + 2..];
    n := ChunkSizeOf(SizeText(line), p.chunkSize).1;
    LineOnTheWire(x);
    ChunkSizeExact(SizeText(line), p.chunkSize);
  }

  lemma DataOnTheWire(p: Parser, data: string, r: Request) returns (bytes: string, y: string)
    requires Valid(p) && p.state == AtChunkData && p.chunkBytesRead == 0 && p.consumed <= |data|
    requires Run(p, data, r).result == Complete
    ensures |bytes| == p.chunkSize && data[p.consumed..] == bytes + CRLF + y
  {
    hide Run;
    var x := data[p.consumed..];
    AfterCompletedStep(p, data, r);
    assert p.chunkSize <= |x|;
    bytes := x[..p.chunkSize];
    var m := p.(consumed := p.consumed + |bytes|, chunkBytesRead := |bytes|, body := p.body + bytes,
                state := AtChunkDataCrlf);
    assert Step(p, data, r) == Continue(m, r);
    AfterCompletedStep(m, data, r);
    assert data[m.consumed..] == x[|bytes|..];
    y := x[|bytes| + 2..];
    assert x[|bytes|..][..2] == CRLF;
    assert x == bytes + CRLF + y;
  }

  /** Of a call that completes, each step completes or goes on. */
  lemma AfterCompletedStep(p: Parser, data: string, r: Request)
    requires Valid(p) && Run(p, data, r).result == Complete
    ensures var o := Step(p, data, r);
            && Settled(o) && (o.Continue? ==> Run(o.parser, data, o.request) == Run(p, data, r))
            && (o.Stop? ==> Run(p, data, r) == Parsed(Complete, o.parser, o.request))
  {
    hide Step;
  }

  lemma TrailersOnTheWire(p: Parser, x: string, r: Request) returns (trailers: string, y: string)
    requires Valid(p) && p.state == AtChunkTrailer && Settled(StepChunkTrailer(p, x, r))
    ensures ValidTrailers(trailers) && x == trailers + CRLF + y
    ensures StepChunkTrailer(p, x, r) == Finish(p, r, |trailers| + 2)
  {
    hide FindBlankLine, TrailersOk, FieldLinesOnly;
    if CrlfAt(x, 0) {
      trailers, y := "", x[2..];
      NoTrailers();
      assert x == "" + CRLF + y;
    } else {
      var e := FindBlankLine(x, 0);
      trailers, y := x[..e + 2], x[e + 4..];
      TrailerScanners(x, 0, 0);
      assert x[e + 2..e + 4] == CRLF;
      assert x == trailers + CRLF + y;
    }
  }

  lemma NoTrailers()
    ensures ValidTrailers("")
  {}

  // ----- a whole chunked body -----

  lemma FirstChunk(c: Chunk, chunks: seq<Chunk>)
    ensures EncodeChunks([c] + chunks) == EncodeChunk(c) + EncodeChunks(chunks)
    ensures ChunkBytes([c] + chunks) == c.data + ChunkBytes(chunks)
    ensures ValidChunk(c) && ValidChunks(chunks) ==> ValidChunks([c] + chunks)
  {
    hide EncodeChunk, ValidChunk;
    assert ([c] + chunks)[1..] == chunks;
  }

  lemma NoChunks(text: string)
    ensures ValidChunks([]) && EncodeChunks([]) + text == text && ChunkBytes([]) == ""
  {}

  /** Whatever completes a chunked body is one: chunk lines with their data, a line that says zero, and valid
      trailer lines; and the body is the data of the chunks. */
  lemma {:induction false} ChunksOnTheWire(p: Parser, data: string, r: Request)
      returns (chunks: seq<Chunk>, last: string, trailers: string, y: string)
    requires Valid(p) && p.state == AtChunkSize && p.consumed <= |data| && Run(p, data, r).result == Complete
    ensures ValidChunks(chunks) && IsChunkLine(last, 0) && ValidTrailers(trailers)
    ensures |p.body| + |ChunkBytes(chunks)| <= MAX_BODY_SIZE
    ensures data[p.consumed..] == EncodeChunks(chunks) + (EncodeLast(last, trailers) + y)
    ensures Delivers(p, r, data, WithBody(r, p.body + ChunkBytes(chunks)),
                     p.consumed + |EncodeChunks(chunks)| + |EncodeLast(last, trailers)|)
    decreases |data| - p.consumed
  {
    hide Run, HasSlack, StepChunkSize, IsChunkLine, ValidChunks, ValidTrailers, EncodeChunks, EncodeChunk, EncodeLast,
         ChunkBytes, WithBody, SameCall, Delivers;
    AfterCompletedStep(p, data, r);
    assert Step(p, data, r) == StepChunkSize(p, data[p.consumed..], r);
    var line, n, rest := ChunkLineOnTheWire(p, data[p.consumed..], r);
    var q := ChunkLineRead(p, data, r, line, n, rest);
    SameCallResult(p, r, q, r, data);
    if n == 0 {
      chunks, last := [], line;
      trailers, y := LastOnTheWire(q, data, r);
      NoChunks(EncodeLast(last, trailers) + y);
      EncodeLastUnfolds(last, trailers, y);
      LastRead(p, data, r, last, trailers, y);
      assert p.body + "" == p.body;
    } else {
      var bytes, after := DataOnTheWire(q, data, r);
      var c := Chunk(line, bytes);
      EncodeChunkUnfolds(c, after);
      ChunkRead(p, data, r, c, after);
      SameCallResult(p, r, AfterChunk(p, c), r, data);
      var more;
      more, last, trailers, y := ChunksOnTheWire(AfterChunk(p, c), data, r);
      chunks := [c] + more;
      FirstChunk(c, more);
      Associates(EncodeChunk(c), EncodeChunks(more), EncodeLast(last, trailers) + y);
      Associates(p.body, bytes, ChunkBytes(more));
      SameCallDelivers(p, r, AfterChunk(p, c), r, data, WithBody(r, p.body + ChunkBytes(chunks)),
                       p.consumed + |EncodeChunks(chunks)| + |EncodeLast(last, trailers)|);
    }
  }

  lemma LastOnTheWire(q: Parser, data: string, r: Request) returns (trailers: string, y: string)
    requires Valid(q) && q.state == AtChunkTrailer && q.consumed <= |data| && Run(q, data, r).result == Complete
    ensures ValidTrailers(trailers) && data[q.consumed..] == trailers + CRLF + y
  {
    hide Run, StepChunkTrailer, ValidTrailers;
    AfterCompletedStep(q, data, r);
    assert Step(q, data, r) == StepChunkTrailer(q, data[q.consumed..], r);
    trailers, y := TrailersOnTheWire(q, data[q.consumed..], r);
  }

  /** A chunked payload, and what follows it. */
  predicate StartsWith(text: string, payload: Payload, rest: string) {
    payload.Chunked? && ValidPayload(payload) && text == EncodePayload(payload) + rest
  }

  lemma ChunkedOnTheWire(p: Parser, data: string, r: Request) returns (payload: Payload, rest: string)
    requires Valid(p) && p.state == AtChunkSize && p.body == "" && p.consumed <= |data|
    requires Run(p, data, r).result == Complete
    ensures StartsWith(data[p.consumed..], payload, rest)
    ensures Delivers(p, r, data, WithBody(r, BodyOf(payload)), p.consumed + |EncodePayload(payload)|)
  {
    hide Run, HasSlack, IsChunkLine, ValidChunks, ValidTrailers, EncodeChunks, EncodeLast, ChunkBytes, WithBody, Delivers;
    var chunks, last, trailers, y := ChunksOnTheWire(p, data, r);
    payload, rest := Chunked(chunks, last, trailers), y;
    assert "" + ChunkBytes(chunks) == ChunkBytes(chunks);
    Associates(EncodeChunks(chunks), EncodeLast(last, trailers), y);
  }

  /** From the end of the header block on, the parser completes a chunked body if and only if the bytes start
      with one, of at most 10 MiB. */
  lemma ChunkedIff(p: Parser, data: string, r: Request)
    requires Valid(p) && p.state == AtChunkSize && p.body == "" && p.consumed <= |data|
    ensures Run(p, data, r).result == Complete
       <==> exists payload, rest :: StartsWith(data[p.consumed..], payload, rest)
  {
    hide Run, HasSlack, StartsWith;
    if Run(p, data, r).result == Complete {
      var payload, rest := ChunkedOnTheWire(p, data, r);
    }
    if payload, rest :| StartsWith(data[p.consumed..], payload, rest) {
      ChunkedCompletes(p, data, r, payload, rest);
    }
  }

  lemma ChunkedCompletes(p: Parser, data: string, r: Request, payload: Payload, rest: string)
    requires Valid(p) && p.state == AtChunkSize && p.body == "" && p.consumed <= |data|
    requires StartsWith(data[p.consumed..], payload, rest)
    ensures Run(p, data, r).result == Complete
  {
    hide Run, HasSlack, ValidPayload, EncodePayload;
    ChunkedRead(p, data, r, payload, rest);
  }

  // ----- a whole request -----

  /** The bytes of a body, and the body they stand for. */
  ghost predicate BodyOnTheWire(text: string, q: Request) {
    if CodingOf(q) != "" then
      exists payload: Payload ::
        payload.Chunked? && ValidPayload(payload) && text == EncodePayload(payload) && q.body == BodyOf(payload)
    else text == q.body
  }

  lemma HeadersOnTheWire(p: Parser, data: string, r: Request) returns (q: Parser, s: Request)
    requires Valid(p) && p.state == AtHeaders && p.consumed <= |data| && Settled(Step(p, data, r))
    ensures Step(p, data, r) == Framing(q, s) && 4 <= q.consumed <= |data| && BlankLineAt(data, q.consumed - 4)
  {
    hide FindBlankLine, ParseHeaders, Framing;
    var x := data[p.consumed..];
    var e := FindBlankLine(x, 0);
    assert Step(p, data, r) == StepHeaders(p, x, r);
    q, s := p.(consumed := p.consumed + e + 4), ParseHeaders(x[..e + 4], r).1;
    assert BlankLineAt(x, e);
  }

  lemma NoBodyOnTheWire(data: string, start: nat, s: Request)
    requires start <= |data| && CodingOf(s) == ""
    ensures BodyOnTheWire(data[start..start], WithBody(s, ""))
  {
    BodyKeepsHead(s, "");
    hide CodingOf, LengthOf, HeadAccepted, WithBody;
  }

  lemma SizedBodyOnTheWire(p: Parser, data: string, s: Request)
    requires Valid(p) && p.state == AtBody && p.consumed <= |data| && CodingOf(s) == ""
    requires Run(p, data, s).result == Complete
    ensures var out := Run(p, data, s);
            p.consumed <= out.parser.consumed <= |data| && BodyOnTheWire(data[p.consumed..out.parser.consumed], out.request)
  {
    hide Run, CodingOf, LengthOf, HeadAccepted, WithBody;
    AfterCompletedStep(p, data, s);
    SizedOnTheWire(p, data, s);
    hide Step;
    BodyKeepsHead(s, data[p.consumed..][..p.bodySize]);
  }

  lemma ChunkedBodyOnTheWire(p: Parser, data: string, s: Request)
    requires Valid(p) && p.state == AtChunkSize && p.body == "" && p.consumed <= |data| && CodingOf(s) != ""
    requires Run(p, data, s).result == Complete
    ensures var out := Run(p, data, s);
            p.consumed <= out.parser.consumed <= |data| && BodyOnTheWire(data[p.consumed..out.parser.consumed], out.request)
  {
    hide Run, HasSlack, CodingOf, LengthOf, HeadAccepted, WithBody, EncodePayload, ValidPayload, BodyOf;
    var payload, rest := ChunkedOnTheWire(p, data, s);
    BodyKeepsHead(s, BodyOf(payload));
    var text := EncodePayload(payload);
    assert data[p.consumed..][..|text|] == text;
    assert data[p.consumed..p.consumed + |text|] == data[p.consumed..][..|text|];
  }

  lemma FramedBody(q: Parser, data: string, s: Request, out: Parsed)
    requires 0 < q.consumed <= |data| && Settled(Framing(q, s)) && out.result == Complete
    requires var o := Framing(q, s);
             if o.Continue? then out == Run(o.parser, data, o.request) else out == Parsed(Complete, o.parser, o.request)
    ensures q.consumed <= out.parser.consumed <= |data| && BodyOnTheWire(data[q.consumed..out.parser.consumed], out.request)
  {
    FramingGoesWhere(q, s);
    hide Run, Framing, WithBody, CodingOf, BodyOnTheWire;
    var o := Framing(q, s);
    if o.Stop? {
      NoBodyOnTheWire(data, q.consumed, s);
    } else if o.parser.state == AtBody {
      SizedBodyOnTheWire(o.parser, data, s);
    } else {
      ChunkedBodyOnTheWire(o.parser, data, s);
    }
  }

  /** The three ways on from the header block. */
  lemma FramingGoesWhere(q: Parser, s: Request)
    requires Settled(Framing(q, s))
    ensures
      var o := Framing(q, s);
      && o.parser.consumed == q.consumed
      && (o.Stop? ==> CodingOf(s) == "" && o.request == WithBody(s, ""))
      && (o.Continue? ==> o.request == s && if CodingOf(s) == "" then o.parser.state == AtBody
                                            else o.parser.state == AtChunkSize && o.parser.body == "")
  {
    hide FirstValue, ContentLengthOf, TrimLeft, TrimRight, SameText;
  }

  lemma SizedOnTheWire(p: Parser, data: string, r: Request)
    requires Valid(p) && p.state == AtBody && p.consumed <= |data| && Settled(Step(p, data, r))
    ensures p.consumed + p.bodySize <= |data|
    ensures Step(p, data, r)
         == Stop(Complete, p.(consumed := p.consumed + p.bodySize, state := AtComplete),
                 WithBody(r, data[p.consumed..][..p.bodySize]))
    ensures data[p.consumed..p.consumed + p.bodySize] == data[p.consumed..][..p.bodySize]
  {}

  lemma FirstLineStep(data: string, r: Request)
    requires Settled(Step(INITIAL, data, r))
    ensures Step(INITIAL, data, r).Continue? && Step(INITIAL, data, r).parser.state == AtHeaders
    ensures Step(INITIAL, data, r).parser.consumed <= |data|
  {
    hide ParseRequestLine, FindCrlf;
  }

  lemma RequestOnTheWire(data: string, r: Request) returns (start: nat)
    requires Run(INITIAL, data, r).result == Complete
    ensures
      var out := Run(INITIAL, data, r);
      && 4 <= start <= out.parser.consumed <= |data| && BlankLineAt(data, start - 4)
      && BodyOnTheWire(data[start..out.parser.consumed], out.request)
  {
    hide Run, BodyOnTheWire, Framing, Step, Sound;
    AfterCompletedStep(INITIAL, data, r);
    FirstLineStep(data, r);
    var first := Step(INITIAL, data, r);
    AfterCompletedStep(first.parser, data, first.request);
    var q, s := HeadersOnTheWire(first.parser, data, first.request);
    FramedBody(q, data, s, Run(INITIAL, data, r));
    start := q.consumed;
  }

  /** Whatever the bytes and however they are cut, the bytes between the header block of a completed request
      and the end of what was consumed are its body: as it is, or, if a Transfer-Encoding was found, a chunked
      text that decodes to it. */
  lemma CompletedBodyOnTheWire(r: Request, fragments: seq<string>) returns (start: nat)
    requires fragments != [] && FeedAll(INITIAL, r, "", fragments).result == Complete
    ensures
      var data, out := Concat(fragments), FeedAll(INITIAL, r, "", fragments);
      && 4 <= start <= out.parser.consumed <= |data| && BlankLineAt(data, start - 4)
      && BodyOnTheWire(data[start..out.parser.consumed], out.request)
  {
    hide FeedAll, Run, Concat, BodyOnTheWire;
    FragmentedRunIsOneShot(INITIAL, r, "", fragments);
    assert "" + Concat(fragments) == Concat(fragments);
    start := RequestOnTheWire(Concat(fragments), r);
  }
}
