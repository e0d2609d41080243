/** What is true of every request the parser accepts, whatever bytes it was made from and however they
    arrived (src/http/HttpParser.cpp). */
module Acceptance {
  import opened ByteStrings
  import opened FieldEncoding
  import opened Fragmentation
  import opened HttpHeaderList
  import opened HttpMessages
  import opened HttpUtils
  import opened ParserSpec

  /** The request line was complete: a known method, a target without spaces, HTTP/1.1, and the path and
      queries of that target. */
  predicate LineAccepted(q: Request) {
    var line := RequestFor(q.method_, q.target, q.version);
    && q.method_ != UNKNOWN && q.version == "HTTP/1.1" && q.target != ""
    && (forall i :: 0 <= i < |q.target| ==> q.target[i] != ' ')
    && q.path == line.path && q.queries == line.queries && q.params == map[]
  }

  predicate FieldsAccepted(fields: seq<Header>) { ValidFields(fields) && LengthsOk(fields) }

  function LengthOf(q: Request): string { FirstValue(q.headers, "Content-Length") }

  function CodingOf(q: Request): string { FirstValue(q.headers, "Transfer-Encoding") }

  /** By the values that the look-up of the two framing headers returns, which are their first ones, the body
      is framed in one way only, and has the length that the framing gives it.  (HeadAcceptance.dfy has all
      the values.) */
  predicate BodyFramed(q: Request) {
    && |q.body| <= MAX_BODY_SIZE
    && (LengthOf(q) == "" || CodingOf(q) == "")
    && (CodingOf(q) != "" ==> SameText(Trimmed(CodingOf(q)), "chunked"))
    && (LengthOf(q) != "" ==> ContentLengthOf(LengthOf(q)) == Some(|q.body|))
    && (LengthOf(q) == "" && CodingOf(q) == "" ==> q.body == "")
  }

  predicate HeadAccepted(q: Request) {
    LineAccepted(q) && FieldsAccepted(q.headers) && |q.headers| <= MAX_HEADERS
  }

  /** What the parser knows of the request in each state. */
  predicate Consistent(p: Parser, q: Request) {
    match p.state
    case AtRequestLine => true
    case AtHeaders => LineAccepted(q) && q.headers == []
    case AtBody =>
      HeadAccepted(q) && CodingOf(q) == "" && LengthOf(q) != "" && ContentLengthOf(LengthOf(q)) == Some(p.bodySize)
    case AtComplete => HeadAccepted(q) && BodyFramed(q)
    case AtError => true
    case _ => HeadAccepted(q) && LengthOf(q) == "" && CodingOf(q) != "" && SameText(Trimmed(CodingOf(q)), "chunked")
  }

  // ----- the request line -----

  lemma LineIsAccepted(line: string)
    ensures RequestOfLine(line).Some? ==>
              LineAccepted(RequestOfLine(line).value) && RequestOfLine(line).value.headers == []
  {
    hide AddQueries;
    var first := FindChar(line, ' ', 0);
    if first != NPOS {
      FirstChar(line, ' ', first + 1);
      hide FindChar;
    }
  }

  lemma RequestLineKeeps(p: Parser, x: string, r: Request)
    requires Valid(p) && p.state == AtRequestLine
    ensures var o := StepRequestLine(p, x, r); Consistent(o.parser, o.request)
  {
    hide RequestOfLine, LineAccepted, FindCrlf;
    if FindCrlf(x, 0) != NPOS { LineIsAccepted(x[..FindCrlf(x, 0)]); }
  }

  // ----- the header block -----

  lemma {:induction false} TrimRightKeepsFront(s: string)
    requires s == "" || !IsOws(s[0])
    ensures IsTrimmed(TrimRight(s))
  {
    if s != "" && IsOws(s[|s| - 1]) { TrimRightKeepsFront(s[..|s| - 1]); }
  }

  lemma {:induction false} TrimLeftFront(s: string)
    ensures TrimLeft(s) == "" || !IsOws(TrimLeft(s)[0])
  {
    if s != "" && IsOws(s[0]) { TrimLeftFront(s[1..]); }
  }

  lemma FieldIsValid(line: string)
    ensures FieldOfLine(line).Some? ==> ValidField(FieldOfLine(line).value)
  {
    hide FindChar, TrimLeft, TrimRight;
    var colon := FindChar(line, ':', 0);
    if colon != NPOS {
      TrimLeftFront(line[colon + 1..]);
      TrimRightKeepsFront(TrimLeft(line[colon + 1..]));
    }
  }

  lemma OneMoreField(fields: seq<Header>, f: Header)
    requires FieldsAccepted(fields) && ValidField(f) && !LengthConflict(fields, f)
    ensures FieldsAccepted(fields + [f])
  {
    OneMoreLength(fields, f);
    hide ValidField, LengthsOk;
    forall i | 0 <= i < |fields + [f]| ensures ValidField((fields + [f])[i]) {
      if i < |fields| { assert (fields + [f])[i] == fields[i]; }
    }
  }

  lemma FoundFieldIsValid(data: string, position: nat)
    ensures TurnAt(data, position).FieldFound? ==> ValidField(TurnAt(data, position).field)
  {
    hide FieldOfLine, ValidField;
    if position < |data| && FindCrlf(data, position) != NPOS {
      FieldIsValid(data[position..FindCrlf(data, position)]);
    }
  }

  lemma {:induction false} FieldsAreAccepted(data: string, position: nat, count: nat, r: Request)
    requires FieldsAccepted(r.headers) && |r.headers| == count <= MAX_HEADERS
    ensures var q := ParseHeaderLines(data, position, count, r).1;
            FieldsAccepted(q.headers) && |q.headers| <= MAX_HEADERS && q == WithHeaders(r, q.headers)
    decreases |data| - position
  {
    hide TurnAt, FieldsAccepted, LengthConflict;
    var turn := TurnAt(data, position);
    if turn.FieldFound? && count + 1 <= MAX_HEADERS && !LengthConflict(r.headers, turn.field) {
      FoundFieldIsValid(data, position);
      OneMoreField(r.headers, turn.field);
      FieldsAreAccepted(data, turn.next, count + 1, AddField(r, turn.field));
    }
  }

  lemma HeadStaysAccepted(r: Request, q: Request)
    requires LineAccepted(r) && q == WithHeaders(r, q.headers) && FieldsAccepted(q.headers) && |q.headers| <= MAX_HEADERS
    ensures HeadAccepted(q)
  {
    hide RequestFor;
  }

  lemma FramingIsConsistent(p: Parser, q: Request)
    requires HeadAccepted(q) && 0 < p.consumed
    ensures Consistent(Framing(p, q).parser, Framing(p, q).request)
  {
    hide RequestFor, FieldsAccepted, FirstValue, DecValue, TrimLeft, TrimRight, Valid;
  }

  lemma HeadersKeep(p: Parser, x: string, r: Request)
    requires Valid(p) && p.state == AtHeaders && Consistent(p, r)
    ensures var o := StepHeaders(p, x, r); Consistent(o.parser, o.request)
  {
    hide LineAccepted, FieldsAccepted, FindBlankLine, Framing, ParseHeaderLines;
    var headersEnd := FindBlankLine(x, 0);
    if headersEnd != NPOS && headersEnd <= MAX_HEADER_SIZE {
      var block := x[..headersEnd + 4];
      NoFieldsAccepted();
      FieldsAreAccepted(block, 0, 0, r);
      HeaderBlockNeverIncomplete(x, r);
      var q := ParseHeaders(block, r).1;
      HeadStaysAccepted(r, q);
      FramingIsConsistent(p.(consumed := p.consumed + headersEnd + 4), q);
    }
  }

  lemma NoFieldsAccepted()
    ensures FieldsAccepted([])
  {}

  // ----- the body -----

  lemma BodyKeepsHead(q: Request, text: string)
    ensures HeadAccepted(q) ==> HeadAccepted(WithBody(q, text))
    ensures LengthOf(WithBody(q, text)) == LengthOf(q) && CodingOf(WithBody(q, text)) == CodingOf(q)
    ensures WithBody(q, text).body == text
  {
    hide FieldsAccepted, RequestFor;
  }

  lemma BodyKeeps(p: Parser, x: string, r: Request)
    requires Valid(p) && p.state == AtBody && Consistent(p, r)
    ensures var o := StepBody(p, x, r); Consistent(o.parser, o.request)
  {
    hide HeadAccepted, LengthOf, CodingOf, ContentLengthOf, WithBody, TrimLeft, TrimRight;
    if p.bodySize <= |x| { BodyKeepsHead(r, x[..p.bodySize]); }
  }

  lemma ChunksKeep(p: Parser, x: string, r: Request)
    requires Valid(p) && Consistent(p, r)
    ensures p.state == AtChunkSize ==> var o := StepChunkSize(p, x, r); Consistent(o.parser, o.request)
    ensures p.state == AtChunkData ==> var o := StepChunkData(p, x, r); Consistent(o.parser, o.request)
    ensures p.state == AtChunkDataCrlf ==> var o := StepChunkDataCrlf(p, x, r); Consistent(o.parser, o.request)
  {
    hide HeadAccepted, LengthOf, CodingOf, ContentLengthOf, TrimLeft, TrimRight, SizeText, ChunkSizeOf, FindCrlf, BodyFramed;
  }

  lemma TrailerKeeps(p: Parser, x: string, r: Request)
    requires Valid(p) && p.state == AtChunkTrailer && Consistent(p, r)
    ensures var o := StepChunkTrailer(p, x, r); Consistent(o.parser, o.request)
  {
    hide HeadAccepted, LengthOf, CodingOf, ContentLengthOf, WithBody, TrimLeft, TrimRight, FindBlankLine, TrailersOk;
    BodyKeepsHead(r, p.body);
  }

  // ----- whole calls -----

  lemma StepKeepsConsistent(p: Parser, data: string, r: Request)
    requires Valid(p) && Consistent(p, r)
    ensures Consistent(Step(p, data, r).parser, Step(p, data, r).request)
  {
    hide Consistent, StepRequestLine, StepHeaders, StepBody, StepChunkSize, StepChunkData, StepChunkDataCrlf,
         StepChunkTrailer, Sound;
    if p.consumed <= |data| {
      var x := data[p.consumed..];
      match p.state
      case AtRequestLine => RequestLineKeeps(p, x, r);
      case AtHeaders => HeadersKeep(p, x, r);
      case AtBody => BodyKeeps(p, x, r);
      case AtChunkSize => ChunksKeep(p, x, r);
      case AtChunkData => ChunksKeep(p, x, r);
      case AtChunkDataCrlf => ChunksKeep(p, x, r);
      case AtChunkTrailer => TrailerKeeps(p, x, r);
      case _ =>
    }
    ErrorIsConsistent(p, r);
  }

  lemma ErrorIsConsistent(p: Parser, r: Request)
    ensures Consistent(Fail(p, r).parser, r)
  {}

  /** Every call keeps parser and request consistent, whatever is in the buffer. */
  lemma {:induction false} RunKeepsConsistent(p: Parser, data: string, r: Request)
    requires Valid(p) && Consistent(p, r)
    ensures Consistent(Run(p, data, r).parser, Run(p, data, r).request)
    decreases |data| - p.consumed
  {
    hide Consistent, Sound;
    StepKeepsConsistent(p, data, r);
    var o := Step(p, data, r);
    if o.Continue? { AfterStep(p, data, r); RunKeepsConsistent(o.parser, data, o.request); }
  }

  lemma AfterStep(p: Parser, data: string, r: Request)
    requires Valid(p) && Step(p, data, r).Continue?
    ensures p.consumed < Step(p, data, r).parser.consumed <= |data|
  {
    hide StepRequestLine, StepHeaders, StepBody, StepChunkSize, StepChunkData, StepChunkDataCrlf, StepChunkTrailer;
  }

  lemma {:induction false} FeedKeepsConsistent(p: Parser, r: Request, buffer: string, fragments: seq<string>)
    requires Valid(p) && Consistent(p, r) && fragments != []
    ensures Consistent(FeedAll(p, r, buffer, fragments).parser, FeedAll(p, r, buffer, fragments).request)
    ensures FeedAll(p, r, buffer, fragments).result == Complete ==>
              FeedAll(p, r, buffer, fragments).parser.state == AtComplete
    decreases |fragments|
  {
    hide Consistent, Run;
    RunKeepsConsistent(p, buffer + fragments[0], r);
    var out := Run(p, buffer + fragments[0], r);
    if out.result == Incomplete && |fragments| != 1 {
      FeedKeepsConsistent(out.parser, out.request, buffer + fragments[0], fragments[1..]);
    }
  }

  /** Every request the parser completes, from any bytes in any fragmentation, has an accepted request
      line, valid fields, of which none contradicts a non-empty first length, and a body framed in one way by
      the first values of the framing headers. */
  lemma CompletedRequestIsAccepted(r: Request, fragments: seq<string>)
    requires fragments != [] && FeedAll(INITIAL, r, "", fragments).result == Complete
    ensures var q := FeedAll(INITIAL, r, "", fragments).request; HeadAccepted(q) && BodyFramed(q)
  {
    hide FeedAll, HeadAccepted, BodyFramed;
    FeedKeepsConsistent(INITIAL, r, "", fragments);
  }
}
