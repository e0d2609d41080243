/** Fragmentation: feeding a byte stream to one parser and one request in pieces, against giving
    the whole of it in one call (tests/http/HttpParserTests.cpp, HandlesFragmentedPackets). */
module Fragmentation {
  import opened ByteStrings
  import opened HttpHeaderList
  import opened HttpMessages
  import opened HttpUtils
  import opened ParserSpec

  // ----- one step on a buffer and on a longer one -----

  /** True of a step that advanced or completed. */
  predicate Settled(o: Outcome) { o.Continue? || o.result == Complete }

  predicate RanOut(o: Outcome) { o.Stop? && o.result == Incomplete }

  lemma RequestLineIsStable(p: Parser, x: string, y: string, r: Request)
    requires Valid(p) && p.state == AtRequestLine && x <= y && Settled(StepRequestLine(p, x, r))
    ensures StepRequestLine(p, y, r) == StepRequestLine(p, x, r)
  {
    hide RequestOfLine, FindCrlf;
    FoundStaysFound(x, y);
    assert y[..FindCrlf(x, 0)] == x[..FindCrlf(x, 0)];
  }

  lemma HeadersAreStable(p: Parser, x: string, y: string, r: Request)
    requires Valid(p) && p.state == AtHeaders && x <= y && Settled(StepHeaders(p, x, r))
    ensures StepHeaders(p, y, r) == StepHeaders(p, x, r)
  {
    hide ParseHeaders, Framing, FindBlankLine;
    FoundStaysFound(x, y);
    assert y[..FindBlankLine(x, 0) + 4] == x[..FindBlankLine(x, 0) + 4];
  }

  lemma ChunkSizeIsStable(p: Parser, x: string, y: string, r: Request)
    requires Valid(p) && p.state == AtChunkSize && x <= y && Settled(StepChunkSize(p, x, r))
    ensures StepChunkSize(p, y, r) == StepChunkSize(p, x, r)
  {
    hide SizeText, ChunkSizeOf, FindCrlf;
    FoundStaysFound(x, y);
    assert y[..FindCrlf(x, 0)] == x[..FindCrlf(x, 0)];
  }

  lemma BodyIsStable(p: Parser, x: string, y: string, r: Request)
    requires Valid(p) && p.state in {AtBody, AtChunkData, AtChunkDataCrlf} && x <= y
    ensures p.state == AtBody && Settled(StepBody(p, x, r)) ==> StepBody(p, y, r) == StepBody(p, x, r)
    ensures p.state == AtChunkData && Settled(StepChunkData(p, x, r)) ==> StepChunkData(p, y, r) == StepChunkData(p, x, r)
    ensures p.state == AtChunkDataCrlf && Settled(StepChunkDataCrlf(p, x, r)) ==>
              StepChunkDataCrlf(p, y, r) == StepChunkDataCrlf(p, x, r)
  {
    assert p.state == AtBody && p.bodySize <= |x| ==> y[..p.bodySize] == x[..p.bodySize];
    if p.state == AtChunkData && p.chunkSize - p.chunkBytesRead <= |x| {
      assert y[..p.chunkSize - p.chunkBytesRead] == x[..p.chunkSize - p.chunkBytesRead];
    }
  }

  lemma TrailerIsStable(p: Parser, x: string, y: string, r: Request)
    requires Valid(p) && p.state == AtChunkTrailer && x <= y && Settled(StepChunkTrailer(p, x, r))
    ensures StepChunkTrailer(p, y, r) == StepChunkTrailer(p, x, r)
  {
    hide TrailersOk, FindBlankLine;
    FoundStaysFound(x, y);
    if !CrlfAt(x, 0) {
      assert y[..FindBlankLine(x, 0) + 2] == x[..FindBlankLine(x, 0) + 2];
    }
  }

  /** A step that advanced or completed would have done the same with more bytes in the buffer. */
  lemma StepIsStable(p: Parser, d: string, e: string, r: Request)
    requires Valid(p) && d <= e && Settled(Step(p, d, r))
    ensures Step(p, e, r) == Step(p, d, r)
  {
    if p.consumed <= |d| {
      var x, y := d[p.consumed..], e[p.consumed..];
      assert x <= y;
      match p.state
      case AtRequestLine => RequestLineIsStable(p, x, y, r);
      case AtHeaders => HeadersAreStable(p, x, y, r);
      case AtBody => BodyIsStable(p, x, y, r);
      case AtChunkSize => ChunkSizeIsStable(p, x, y, r);
      case AtChunkData => BodyIsStable(p, x, y, r);
      case AtChunkDataCrlf => BodyIsStable(p, x, y, r);
      case AtChunkTrailer => TrailerIsStable(p, x, y, r);
      case _ =>
    }
  }

  /** A chunk copied in two goes is the chunk copied in one. */
  lemma ChunkDataResumes(p: Parser, x: string, y: string, r: Request)
    requires Valid(p) && p.state == AtChunkData && x <= y && RanOut(StepChunkData(p, x, r))
    ensures StepChunkData(p, x, r).parser.consumed == p.consumed + |x|
    ensures StepChunkData(StepChunkData(p, x, r).parser, y[|x|..], r) == StepChunkData(p, y, r)
  {
    var n := Min(|y|, p.chunkSize - p.chunkBytesRead);
    assert x[..|x|] == x;
    assert p.body + y[..n] == (p.body + x) + y[|x|..][..n - |x|];
  }

  lemma HeadersWait(p: Parser, x: string, r: Request)
    requires Valid(p) && p.state == AtHeaders && RanOut(StepHeaders(p, x, r))
    ensures StepHeaders(p, x, r) == Stop(Incomplete, p, r)
  {
    if FindBlankLine(x, 0) != NPOS {
      HeaderBlockNeverIncomplete(x, r);
    }
  }

  /** Outside a chunk, a step that ran out of bytes changed nothing. */
  lemma StepWaits(p: Parser, d: string, r: Request)
    requires Valid(p) && p.consumed <= |d| && RanOut(Step(p, d, r)) && p.state != AtChunkData
    ensures Step(p, d, r) == Stop(Incomplete, p, r)
  {
    if p.state == AtHeaders {
      HeadersWait(p, d[p.consumed..], r);
    }
  }

  /** A step that ran out of bytes keeps the request, and can be taken up again where it stopped. */
  lemma StepResumes(p: Parser, d: string, e: string, r: Request)
    requires Valid(p) && d <= e && p.consumed <= |d| && RanOut(Step(p, d, r))
    ensures Step(p, d, r).request == r
    ensures Step(Step(p, d, r).parser, e, r) == Step(p, e, r)
  {
    if p.state == AtChunkData {
      var x, y := d[p.consumed..], e[p.consumed..];
      assert x <= y;
      ChunkDataResumes(p, x, y, r);
      var q := StepChunkData(p, x, r).parser;
      assert Step(p, d, r) == StepChunkData(p, x, r);
      assert e[q.consumed..] == y[|x|..];
    } else {
      StepWaits(p, d, r);
    }
  }

  // ----- the two scanners agree -----

  /** On the block cut at the first empty line, the header loop never runs out of bytes.  If it accepts, it
      stopped at that same empty line, so every byte counted as consumed was validated; except that a block
      that starts with a line end is always accepted, at position 0, with the rest of it unread. */
  lemma {:induction false} HeaderScanners(data: string, position: nat, count: nat, r: Request)
    requires FindBlankLine(data, 0) != NPOS
    requires position <= FindBlankLine(data, 0) || position == FindBlankLine(data, 0) + 2
    requires 0 < position ==> CrlfAt(data, position - 2)
    ensures
      var headersEnd := FindBlankLine(data, 0);
      var parsed := ParseHeaderLines(data[..headersEnd + 4], position, count, r);
      && parsed.0 != Incomplete
      && (if position == 0 && CrlfAt(data, 0) then parsed == (Complete, r, 0)
          else parsed.0 == Complete ==> parsed.2 == headersEnd + 2)
    decreases |data| - position
  {
    hide TurnAt, FieldOfLine, LengthConflict;
    var block := data[..FindBlankLine(data, 0) + 4];
    TurnInBlock(data, position);
    var turn := TurnAt(block, position);
    if position == 0 && CrlfAt(data, 0) {
      LineEndFirst(data, block);
    } else if turn.FieldFound? {
      HeaderScanners(data, turn.next, count + 1, AddField(r, turn.field));
    }
  }

  lemma LineEndFirst(data: string, block: string)
    requires CrlfAt(data, 0) && 2 <= |block| && block <= data
    ensures TurnAt(block, 0) == EmptyLine
  {
    assert CrlfAt(block, 0);
    assert FindCrlf(block, 0) == 0;
  }

  /** One turn of the loop inside a header block. */
  lemma TurnInBlock(data: string, position: nat)
    requires FindBlankLine(data, 0) != NPOS
    requires position <= FindBlankLine(data, 0) || position == FindBlankLine(data, 0) + 2
    requires 0 < position ==> CrlfAt(data, position - 2)
    ensures
      var headersEnd := FindBlankLine(data, 0);
      match TurnAt(data[..headersEnd + 4], position)
      case OutOfBytes => false
      case NoLineEnd => false
      case EmptyLine => position == headersEnd + 2 || (position == 0 && CrlfAt(data, 0))
      case BadLine => true
      case FieldFound(_, next) => CrlfAt(data, next - 2) && position < next && (next <= headersEnd || next == headersEnd + 2)
  {
    hide FieldOfLine;
    var headersEnd := FindBlankLine(data, 0);
    var block := data[..headersEnd + 4];
    var lineEnd := FindCrlf(block, position);
    FirstCrlf(block, position);
    FirstBlankLine(data, 0);
    assert CrlfAt(block, headersEnd) && CrlfAt(block, headersEnd + 2);
    assert CrlfAt(data, lineEnd);
    if lineEnd == position && 0 < position {
      assert BlankLineAt(data, position - 2);
    }
  }

  lemma HeaderBlockNeverIncomplete(data: string, r: Request)
    requires FindBlankLine(data, 0) != NPOS
    ensures ParseHeaders(data[..FindBlankLine(data, 0) + 4], r).0 != Incomplete
  {
    HeaderScanners(data, 0, 0, r);
  }

  /** One turn of the trailer loop inside its block: the exits for a missing line end and for an empty
      line are never taken. */
  lemma TurnInTrailers(data: string, position: nat)
    requires FindBlankLine(data, 0) != NPOS && !CrlfAt(data, 0)
    requires position <= FindBlankLine(data, 0) || position == FindBlankLine(data, 0) + 2
    requires 0 < position ==> CrlfAt(data, position - 2)
    ensures
      var trailerEnd := FindBlankLine(data, 0);
      match TurnAt(data[..trailerEnd + 2], position)
      case OutOfBytes => position == trailerEnd + 2
      case NoLineEnd => false
      case EmptyLine => false
      case BadLine => true
      case FieldFound(_, next) => CrlfAt(data, next - 2) && position < next && (next <= trailerEnd || next == trailerEnd + 2)
  {
    hide FieldOfLine;
    var trailerEnd := FindBlankLine(data, 0);
    var block := data[..trailerEnd + 2];
    var lineEnd := FindCrlf(block, position);
    FirstCrlf(block, position);
    FirstBlankLine(data, 0);
    assert CrlfAt(block, trailerEnd);
    assert lineEnd != NPOS ==> CrlfAt(data, lineEnd);
    assert 1 < position <= trailerEnd ==> !BlankLineAt(data, position - 2);
  }

  /** The block from the position on is a list of valid field lines, and nothing else. */
  predicate FieldLinesOnly(block: string, position: nat, count: nat)
    decreases |block| - position
  {
    match TurnAt(block, position)
    case OutOfBytes => position == |block|
    case FieldFound(_, next) => count + 1 <= MAX_HEADERS && FieldLinesOnly(block, next, count + 1)
    case _ => false
  }

  /** The trailer loop accepts its block exactly when every byte of it belongs to a valid field line. */
  lemma {:induction false} TrailerScanners(data: string, position: nat, count: nat)
    requires FindBlankLine(data, 0) != NPOS && !CrlfAt(data, 0)
    requires position <= FindBlankLine(data, 0) || position == FindBlankLine(data, 0) + 2
    requires 0 < position ==> CrlfAt(data, position - 2)
    ensures var block := data[..FindBlankLine(data, 0) + 2];
            TrailersOk(block, position, count) <==> FieldLinesOnly(block, position, count)
    decreases |data| - position
  {
    hide TurnAt;
    TurnInTrailers(data, position);
    var turn := TurnAt(data[..FindBlankLine(data, 0) + 2], position);
    if turn.FieldFound? { TrailerScanners(data, turn.next, count + 1); }
  }

  // ----- whole calls -----

  /** A call that completed would have completed in the same way with more bytes. */
  lemma {:induction false} CompleteIsStable(p: Parser, d: string, e: string, r: Request)
    requires Valid(p) && d <= e && Run(p, d, r).result == Complete
    ensures Run(p, e, r) == Run(p, d, r)
    decreases |d| - p.consumed
  {
    StepIsStable(p, d, e, r);
    match Step(p, d, r)
    case Stop(_, _, _) =>
    case Continue(q, s) => CompleteIsStable(q, d, e, s);
  }

  /** A call that ran out of bytes loses nothing: calling again on a longer buffer gives exactly
      what one call on that buffer gives, whatever that is. */
  lemma {:induction false} IncompleteResumes(p: Parser, d: string, e: string, r: Request)
    requires Valid(p) && d <= e && p.consumed <= |d| && Run(p, d, r).result == Incomplete
    ensures Run(Run(p, d, r).parser, e, Run(p, d, r).request) == Run(p, e, r)
    decreases |d| - p.consumed
  {
    match Step(p, d, r)
    case Stop(_, _, _) => StepResumes(p, d, e, r);
    case Continue(q, s) =>
      StepIsStable(p, d, e, r);
      IncompleteResumes(q, d, e, s);
  }

  /** Calls on a growing buffer: each fragment is appended, and the calls go on until one returns
      something other than Incomplete. */
  function FeedAll(p: Parser, r: Request, buffer: string, fragments: seq<string>): Parsed
    requires Valid(p) && fragments != []
    decreases |fragments|
  {
    var out := Run(p, buffer + fragments[0], r);
    if out.result != Incomplete || |fragments| == 1 then out
    else FeedAll(out.parser, out.request, buffer + fragments[0], fragments[1..])
  }

  lemma ConcatSplits(buffer: string, fragments: seq<string>)
    requires fragments != []
    ensures buffer + Concat(fragments) == (buffer + fragments[0]) + Concat(fragments[1..])
    ensures |fragments| == 1 ==> buffer + Concat(fragments) == buffer + fragments[0]
  {
    ConcatUnfolds(fragments);
    hide Concat;
    Associates(buffer, fragments[0], Concat(fragments[1..]));
  }

  /** However a stream is cut, the calls on the growing buffer end with what one call on the whole
      stream returns, unless a fragment was rejected. */
  lemma {:induction false} FragmentedRunIsOneShot(p: Parser, r: Request, buffer: string, fragments: seq<string>)
    requires Valid(p) && p.consumed <= |buffer| && fragments != []
    requires FeedAll(p, r, buffer, fragments).result != Invalid
    ensures FeedAll(p, r, buffer, fragments) == Run(p, buffer + Concat(fragments), r)
    decreases |fragments|
  {
    var next, whole := buffer + fragments[0], buffer + Concat(fragments);
    ConcatSplits(buffer, fragments);
    var out := Run(p, next, r);
    if |fragments| == 1 {
    } else if out.result == Complete {
      CompleteIsStable(p, next, whole, r);
    } else {
      IncompleteResumes(p, next, whole, r);
      FragmentedRunIsOneShot(out.parser, out.request, next, fragments[1..]);
    }
  }

  // ----- when is a fragment rejected that the whole stream is not? -----

  /** At every delimiter, the last prefix without it still fits the limit that is applied while the
      delimiter has not been seen. */
  predicate StepHasSlack(p: Parser, data: string) {
    p.consumed <= |data| ==>
      var rest := data[p.consumed..];
      match p.state
      case AtRequestLine => FindCrlf(rest, 0) + 1 <= MAX_REQUEST_LINE
      case AtHeaders => FindBlankLine(rest, 0) + 3 <= MAX_HEADER_SIZE
      case AtChunkSize => FindCrlf(rest, 0) + 1 <= MAX_CHUNK_LINE_SIZE
      case AtChunkTrailer => CrlfAt(rest, 0) || FindBlankLine(rest, 0) + 3 <= MAX_HEADER_SIZE
      case _ => true
  }

  predicate HasSlack(p: Parser, data: string, r: Request)
    requires Valid(p)
    decreases |data| - p.consumed
  {
    && StepHasSlack(p, data)
    && var o := Step(p, data, r);
       o.Continue? ==> HasSlack(o.parser, data, o.request)
  }

  /** With slack, no prefix of an accepted stream is rejected. */
  lemma {:induction false} SlackAcceptsPrefixes(p: Parser, d: string, e: string, r: Request)
    requires Valid(p) && d <= e && p.consumed <= |d|
    requires Run(p, e, r).result == Complete && HasSlack(p, e, r)
    ensures Run(p, d, r).result != Invalid
    decreases |e| - p.consumed
  {
    match Step(p, d, r)
    case Stop(result, q, s) =>
      if result == Invalid { RejectedStepLacksSlack(p, d, e, r); }
    case Continue(q, s) =>
      StepIsStable(p, d, e, r);
      SlackAcceptsPrefixes(q, d, e, s);
  }

  predicate Rejected(o: Outcome) { o.Stop? && o.result == Invalid }

  lemma RejectedRequestLine(p: Parser, x: string, y: string, r: Request)
    requires Valid(p) && p.state == AtRequestLine && x <= y
    requires Rejected(StepRequestLine(p, x, r))
    ensures Settled(StepRequestLine(p, y, r)) ==> FindCrlf(y, 0) + 1 > MAX_REQUEST_LINE
  {
    hide RequestOfLine, FindCrlf;
    FoundStaysFound(x, y);
    FoundInPrefix(x, y);
    if FindCrlf(x, 0) != NPOS { assert y[..FindCrlf(x, 0)] == x[..FindCrlf(x, 0)]; }
  }

  lemma RejectedHeaders(p: Parser, x: string, y: string, r: Request)
    requires Valid(p) && p.state == AtHeaders && x <= y
    requires Rejected(StepHeaders(p, x, r))
    ensures Settled(StepHeaders(p, y, r)) ==> FindBlankLine(y, 0) + 3 > MAX_HEADER_SIZE
  {
    hide ParseHeaders, Framing, FindBlankLine;
    FoundStaysFound(x, y);
    FoundInPrefix(x, y);
    if FindBlankLine(x, 0) != NPOS { assert y[..FindBlankLine(x, 0) + 4] == x[..FindBlankLine(x, 0) + 4]; }
  }

  lemma RejectedChunkSize(p: Parser, x: string, y: string, r: Request)
    requires Valid(p) && p.state == AtChunkSize && x <= y
    requires Rejected(StepChunkSize(p, x, r))
    ensures Settled(StepChunkSize(p, y, r)) ==> FindCrlf(y, 0) + 1 > MAX_CHUNK_LINE_SIZE
  {
    hide SizeText, ChunkSizeOf, FindCrlf;
    FoundStaysFound(x, y);
    FoundInPrefix(x, y);
    if FindCrlf(x, 0) != NPOS { assert y[..FindCrlf(x, 0)] == x[..FindCrlf(x, 0)]; }
  }

  lemma RejectedTrailer(p: Parser, x: string, y: string, r: Request)
    requires Valid(p) && p.state == AtChunkTrailer && x <= y && Rejected(StepChunkTrailer(p, x, r))
    ensures Settled(StepChunkTrailer(p, y, r)) ==> !CrlfAt(y, 0) && FindBlankLine(y, 0) + 3 > MAX_HEADER_SIZE
  {
    hide TrailersOk, FindBlankLine;
    FoundStaysFound(x, y);
    FoundInPrefix(x, y);
    var k := FindBlankLine(x, 0);
    if k != NPOS {
      assert y[..k + 2] == x[..k + 2];
    }
  }

  /** A step rejects a prefix of bytes it would accept only through a size limit. */
  lemma RejectedStepLacksSlack(p: Parser, d: string, e: string, r: Request)
    requires Valid(p) && d <= e && p.consumed <= |d|
    requires Rejected(Step(p, d, r)) && Settled(Step(p, e, r))
    ensures !StepHasSlack(p, e)
  {
    var x, y := d[p.consumed..], e[p.consumed..];
    assert x <= y;
    match p.state
    case AtRequestLine => RejectedRequestLine(p, x, y, r);
    case AtHeaders => RejectedHeaders(p, x, y, r);
    case AtChunkSize => RejectedChunkSize(p, x, y, r);
    case AtChunkTrailer => RejectedTrailer(p, x, y, r);
    case _ =>
  }

  // ----- a settled step depends only on the bytes it consumed -----

  lemma RequestLineSettlesEarly(p: Parser, x: string, y: string, r: Request)
    requires Valid(p) && p.state == AtRequestLine && x <= y && Settled(StepRequestLine(p, y, r))
    requires StepRequestLine(p, y, r).parser.consumed <= p.consumed + |x|
    ensures Settled(StepRequestLine(p, x, r))
  {
    hide RequestOfLine, FindCrlf;
    FoundInPrefix(x, y);
    assert y[..FindCrlf(y, 0)] == x[..FindCrlf(y, 0)];
  }

  lemma HeadersSettleEarly(p: Parser, x: string, y: string, r: Request)
    requires Valid(p) && p.state == AtHeaders && x <= y && Settled(StepHeaders(p, y, r))
    requires StepHeaders(p, y, r).parser.consumed <= p.consumed + |x|
    ensures Settled(StepHeaders(p, x, r))
  {
    hide ParseHeaders, Framing, FindBlankLine;
    FoundInPrefix(x, y);
    assert y[..FindBlankLine(y, 0) + 4] == x[..FindBlankLine(y, 0) + 4];
  }

  lemma ChunkSizeSettlesEarly(p: Parser, x: string, y: string, r: Request)
    requires Valid(p) && p.state == AtChunkSize && x <= y && Settled(StepChunkSize(p, y, r))
    requires StepChunkSize(p, y, r).parser.consumed <= p.consumed + |x|
    ensures Settled(StepChunkSize(p, x, r))
  {
    hide SizeText, ChunkSizeOf, FindCrlf;
    FoundInPrefix(x, y);
    assert y[..FindCrlf(y, 0)] == x[..FindCrlf(y, 0)];
  }

  lemma TrailerSettlesEarly(p: Parser, x: string, y: string, r: Request)
    requires Valid(p) && p.state == AtChunkTrailer && x <= y && Settled(StepChunkTrailer(p, y, r))
    requires StepChunkTrailer(p, y, r).parser.consumed <= p.consumed + |x|
    ensures Settled(StepChunkTrailer(p, x, r))
  {
    hide TrailersOk, FindBlankLine;
    FoundInPrefix(x, y);
    if !CrlfAt(y, 0) {
      assert y[..FindBlankLine(y, 0) + 2] == x[..FindBlankLine(y, 0) + 2];
    }
  }

  /** Bytes after the ones a step consumed have no part in what it did. */
  lemma StepSettlesEarly(p: Parser, d: string, e: string, r: Request)
    requires Valid(p) && d <= e && p.consumed <= |d| && Settled(Step(p, e, r))
    requires Step(p, e, r).parser.consumed <= |d|
    ensures Step(p, d, r) == Step(p, e, r)
  {
    var x, y := d[p.consumed..], e[p.consumed..];
    assert x <= y;
    match p.state {
      case AtRequestLine => RequestLineSettlesEarly(p, x, y, r);
      case AtHeaders => HeadersSettleEarly(p, x, y, r);
      case AtChunkSize => ChunkSizeSettlesEarly(p, x, y, r);
      case AtChunkTrailer => TrailerSettlesEarly(p, x, y, r);
      case _ =>
    }
    StepIsStable(p, d, e, r);
  }

  /** A completed call read exactly the bytes it counts as consumed. */
  lemma {:induction false} OnlyConsumedBytesMatter(p: Parser, e: string, r: Request)
    requires Valid(p) && p.consumed <= |e| && Run(p, e, r).result == Complete
    ensures Run(p, e[..Run(p, e, r).parser.consumed], r) == Run(p, e, r)
    decreases |e| - p.consumed
  {
    var d := e[..Run(p, e, r).parser.consumed];
    StepSettlesEarly(p, d, e, r);
    match Step(p, e, r)
    case Stop(_, _, _) =>
    case Continue(q, s) => OnlyConsumedBytesMatter(q, e, s);
  }

  // ----- slack is exactly what every fragmentation needs -----

  /** Cutting off the last byte of the first delimiter leaves a text without a delimiter. */
  lemma CutDelimiter(y: string, cut: nat)
    requires cut <= |y|
    ensures FindCrlf(y, 0) != NPOS && cut == FindCrlf(y, 0) + 1 ==> FindCrlf(y[..cut], 0) == NPOS
    ensures FindBlankLine(y, 0) != NPOS && cut == FindBlankLine(y, 0) + 3 ==> FindBlankLine(y[..cut], 0) == NPOS
  {
    hide FindCrlf, FindBlankLine;
    var x := y[..cut];
    FirstCrlf(y, 0);
    FirstBlankLine(y, 0);
    forall i | 0 <= i < |x|
      ensures CrlfAt(x, i) == (i + 1 < cut && CrlfAt(y, i))
      ensures BlankLineAt(x, i) == (i + 3 < cut && BlankLineAt(y, i))
    {}
  }

  /** Without slack, cutting the stream just before the end of the long delimiter gets it rejected. */
  lemma CutBeforeDelimiter(p: Parser, e: string, r: Request) returns (d: string)
    requires Valid(p) && p.consumed <= |e| && Settled(Step(p, e, r)) && !StepHasSlack(p, e)
    ensures d <= e && p.consumed <= |d| && Rejected(Step(p, d, r))
  {
    hide FindCrlf, FindBlankLine, ParseRequestLine, ParseHeaders, Framing, ChunkSizeOf, SizeText, TrailersOk;
    var y := e[p.consumed..];
    var cut := if p.state == AtRequestLine || p.state == AtChunkSize then FindCrlf(y, 0) + 1 else FindBlankLine(y, 0) + 3;
    d := e[..p.consumed + cut];
    assert d[p.consumed..] == y[..cut];
    CutDelimiter(y, cut);
  }

  lemma {:induction false} WithoutSlack(p: Parser, e: string, r: Request) returns (d: string)
    requires Valid(p) && p.consumed <= |e| && Run(p, e, r).result == Complete && !HasSlack(p, e, r)
    ensures d <= e && p.consumed <= |d| && Run(p, d, r).result == Invalid
    decreases |e| - p.consumed
  {
    if !StepHasSlack(p, e) {
      d := CutBeforeDelimiter(p, e, r);
    } else {
      var o := Step(p, e, r);
      d := WithoutSlack(o.parser, e, o.request);
      StepSettlesEarly(p, d, e, r);
    }
  }

  /** With slack, every fragmentation is accepted, each call before the last returning Incomplete. */
  lemma {:induction false} SlackAcceptsFragments(p: Parser, r: Request, buffer: string, fragments: seq<string>)
    requires Valid(p) && p.consumed <= |buffer| && fragments != []
    requires Run(p, buffer, r).result == Incomplete
    requires Run(p, buffer + Concat(fragments), r).result == Complete
    requires HasSlack(p, buffer + Concat(fragments), r)
    ensures FeedAll(Run(p, buffer, r).parser, Run(p, buffer, r).request, buffer, fragments)
         == Run(p, buffer + Concat(fragments), r)
    decreases |fragments|
  {
    var next, whole := buffer + fragments[0], buffer + Concat(fragments);
    ConcatSplits(buffer, fragments);
    IncompleteResumes(p, buffer, next, r);
    SlackAcceptsPrefixes(p, next, whole, r);
    if Run(p, next, r).result == Complete {
      CompleteIsStable(p, next, whole, r);
    } else {
      assert |fragments| != 1;
      SlackAcceptsFragments(p, r, next, fragments[1..]);
    }
  }

  lemma EmptyBufferWaits(r: Request)
    ensures Run(INITIAL, "", r) == Parsed(Incomplete, INITIAL, r)
  {}

  lemma FeedRejected(r: Request, d: string, fragments: seq<string>)
    requires fragments != [] && fragments[0] == d && Run(INITIAL, d, r).result == Invalid
    ensures FeedAll(INITIAL, r, "", fragments).result == Invalid
  {
    hide Run;
    assert "" + fragments[0] == d;
  }

  lemma TwoPieces(d: string, t: string)
    ensures Concat([d, t]) == d + t
  {
    assert [d, t][1..] == [t] && [t][1..] == [];
    assert Concat([t]) == t;
  }

  /** An accepted request survives every fragmentation exactly when it has slack.  (Without it, a
      cut just before the end of a delimiter makes the parser reject what it would accept whole.) */
  lemma FragmentationIffSlack(e: string, r: Request)
    requires Run(INITIAL, e, r).result == Complete
    ensures HasSlack(INITIAL, e, r) <==>
            forall fragments: seq<string> :: fragments != [] && Concat(fragments) == e ==>
              FeedAll(INITIAL, r, "", fragments) == Run(INITIAL, e, r)
  {
    hide Run, HasSlack, FeedAll, Concat;
    if HasSlack(INITIAL, e, r) {
      forall fragments: seq<string> | fragments != [] && Concat(fragments) == e
        ensures FeedAll(INITIAL, r, "", fragments) == Run(INITIAL, e, r)
      {
        EmptyBufferWaits(r);
        assert "" + Concat(fragments) == e;
        SlackAcceptsFragments(INITIAL, r, "", fragments);
      }
    } else {
      var d := WithoutSlack(INITIAL, e, r);
      TwoPieces(d, e[|d|..]);
      FeedRejected(r, d, [d, e[|d|..]]);
    }
  }
}
