/** The incremental request parser as a function of its state, the bytes buffered so far and the
    request built so far (src/http/HttpParser.cpp).  The class in HttpParser.dfy is proved
    against it. */
module ParserSpec {
  import opened ByteStrings
  import opened HttpHeaderList
  import opened HttpMessages
  import opened HttpUtils

  const MAX_REQUEST_LINE: nat := 8192
  const MAX_HEADER_SIZE: nat := 16384
  const MAX_HEADERS: nat := 100
  const MAX_BODY_SIZE: nat := 10 * 1024 * 1024
  const MAX_CHUNK_LINE_SIZE: nat := 128

  datatype ParseResult = Complete | Incomplete | Invalid

  datatype State =
    | AtRequestLine | AtHeaders | AtBody
    | AtChunkSize | AtChunkData | AtChunkDataCrlf | AtChunkTrailer
    | AtComplete | AtError

  /** The value of an `HttpParser`. */
  datatype Parser = Parser(
    state: State, consumed: nat, bodySize: nat, chunkSize: nat, chunkBytesRead: nat, body: string)

  const INITIAL := Parser(AtRequestLine, 0, 0, 0, 0, "")

  /** What every call keeps: the chunk counters stay in order, and no body outgrows its limit. */
  predicate Valid(p: Parser) {
    && (p.state != AtRequestLine && p.state != AtError ==> 0 < p.consumed)
    && (p.state == AtBody ==> 0 < p.bodySize <= MAX_BODY_SIZE)
    && (p.state == AtChunkData ==>
          p.chunkBytesRead < p.chunkSize && |p.body| + (p.chunkSize - p.chunkBytesRead) <= MAX_BODY_SIZE)
    && (p.state in {AtChunkSize, AtChunkDataCrlf, AtChunkTrailer} ==> |p.body| <= MAX_BODY_SIZE)
  }

  /** What a `handle...` step returns: a verdict, or `std::nullopt` when the state advanced. */
  datatype Outcome =
    | Stop(result: ParseResult, parser: Parser, request: Request)
    | Continue(parser: Parser, request: Request)

  /** What a whole call of `parse` returns. */
  datatype Parsed = Parsed(result: ParseResult, parser: Parser, request: Request)

  // ----- request line -----

  /** The pair that starts at `start`, and where the next one starts, if there is a '&'. */
  function PairAt(query: string, start: nat): (t: (string, int))
    requires start < |query|
    ensures t.1 == NPOS || start < t.1 <= |query|
  {
    var amp := FindChar(query, '&', start);
    if amp == NPOS then (query[start..], NPOS) else (query[start..amp], amp + 1)
  }

  /** The query loop: percent-decoded pairs, the first of equal keys kept. */
  function AddQueries(query: string, start: nat, queries: map<string, string>): map<string, string>
    decreases |query| - start
  {
    if |query| <= start then queries
    else
      var t := PairAt(query, start);
      if t.1 == NPOS then AddPair(t.0, queries) else AddQueries(query, t.1, AddPair(t.0, queries))
  }

  function AddPair(pair: string, queries: map<string, string>): map<string, string> {
    var eq := FindChar(pair, '=', 0);
    if eq != NPOS then Emplace(queries, UrlDecoded(pair[..eq]), UrlDecoded(pair[eq + 1..]))
    else if pair != "" then Emplace(queries, UrlDecoded(pair), "")
    else queries
  }

  /** The request for a method, a target and a version. */
  function RequestFor(method_: HttpMethod, target: string, version: string): Request {
    var mark := FindChar(target, '?', 0);
    var request := FRESH_REQUEST.(method_ := method_, target := target, version := version);
    if mark == NPOS then request.(path := target)
    else request.(path := target[..mark], queries := AddQueries(target[mark + 1..], 0, map[]))
  }

  function RequestOfLine(line: string): Option<Request> {
    var first := FindChar(line, ' ', 0);
    if first == NPOS then None
    else
      var second := FindChar(line, ' ', first + 1);
      if second == NPOS then None
      else if FindChar(line, ' ', second + 1) != NPOS then None
      else
        var name, target, version := line[..first], line[first + 1..second], line[second + 1..];
        if name == "" || target == "" || version == "" then None
        else if version != "HTTP/1.1" then None
        else if ParseMethod(name) == UNKNOWN then None
        else Some(RequestFor(ParseMethod(name), target, version))
  }

  function ParseRequestLine(data: string, r: Request): (ParseResult, Request) {
    var lineEnd := FindCrlf(data, 0);
    if lineEnd == NPOS then (Incomplete, r)
    else if lineEnd > MAX_REQUEST_LINE then (Invalid, r)
    else
      var request := RequestOfLine(data[..lineEnd]);
      if request.None? then (Invalid, r) else (Complete, request.value)
  }

  // ----- header and trailer lines -----

  /** The header a line holds, if its name and its trimmed value are valid. */
  function FieldOfLine(line: string): Option<Header> {
    var colon := FindChar(line, ':', 0);
    if colon == NPOS then None
    else
      var name, value := line[..colon], Trimmed(line[colon + 1..]);
      if IsToken(name) && IsFieldText(value) then Some(Header(name, value)) else None
  }

  /** A second Content-Length must repeat the first. */
  predicate LengthConflict(headers: seq<Header>, field: Header) {
    && SameText(field.name, "Content-Length")
    && FirstValue(headers, "Content-Length") != ""
    && FirstValue(headers, "Content-Length") != field.value
  }

  function AddField(r: Request, field: Header): Request {
    WithHeaders(r, r.headers + [field])
  }

  /** What the header loop and the trailer loop find at a position of a block. */
  datatype LineTurn = OutOfBytes | NoLineEnd | EmptyLine | BadLine | FieldFound(field: Header, next: nat)

  function TurnAt(data: string, position: nat): (t: LineTurn)
    ensures t.FieldFound? ==> position < t.next <= |data|
  {
    if |data| <= position then OutOfBytes
    else
      var lineEnd := FindCrlf(data, position);
      if lineEnd == NPOS then NoLineEnd
      else if lineEnd == position then EmptyLine
      else
        var field := FieldOfLine(data[position..lineEnd]);
        if field.None? then BadLine else FieldFound(field.value, lineEnd + 2)
  }

  /** The header loop: the verdict, the request, and the position it stopped at. */
  function ParseHeaderLines(data: string, position: nat, count: nat, r: Request): (ParseResult, Request, nat)
    decreases |data| - position
  {
    match TurnAt(data, position)
    case OutOfBytes => (Incomplete, r, position)
    case NoLineEnd => (Incomplete, r, position)
    case EmptyLine => (Complete, r, position)
    case BadLine => (Invalid, r, position)
    case FieldFound(field, next) =>
      if count + 1 > MAX_HEADERS || LengthConflict(r.headers, field) then (Invalid, r, position)
      else ParseHeaderLines(data, next, count + 1, AddField(r, field))
  }

  function ParseHeaders(data: string, r: Request): (ParseResult, Request) {
    var parsed := ParseHeaderLines(data, 0, 0, r);
    (parsed.0, parsed.1)
  }

  /** The trailer loop: true if it ran to the end, false if a line failed. */
  predicate TrailersOk(trailers: string, position: nat, count: nat)
    decreases |trailers| - position
  {
    match TurnAt(trailers, position)
    case OutOfBytes => true
    case NoLineEnd => false
    case EmptyLine => true
    case BadLine => false
    case FieldFound(_, next) => count + 1 <= MAX_HEADERS && TrailersOk(trailers, next, count + 1)
  }

  /** What every step does with the invariant and the position: it stays inside the buffer, moves
      forward if it continues, and its verdict matches the state it leaves. */
  predicate Sound(p: Parser, available: nat, o: Outcome) {
    && Valid(o.parser)
    && p.consumed <= o.parser.consumed <= p.consumed + available
    && (o.Continue? ==> p.consumed < o.parser.consumed)
    && (o.Stop? ==> (o.result == Complete <==> o.parser.state == AtComplete))
    && (o.Stop? ==> (o.result == Invalid <==> o.parser.state == AtError))
  }

  // ----- the steps; `rest` is what the buffer holds from `consumed` on -----

  function Fail(p: Parser, r: Request): Outcome {
    Stop(Invalid, p.(state := AtError), r)
  }

  function StepRequestLine(p: Parser, rest: string, r: Request): (o: Outcome)
    requires Valid(p) && p.state == AtRequestLine
    ensures Sound(p, |rest|, o)
  {
    var lineEnd := FindCrlf(rest, 0);
    if lineEnd == NPOS then
      if |rest| > MAX_REQUEST_LINE then Fail(p, r) else Stop(Incomplete, p, r)
    else if lineEnd > MAX_REQUEST_LINE then Fail(p, r)
    else
      var parsed := ParseRequestLine(rest, r);
      if parsed.0 == Incomplete then Stop(Incomplete, p, parsed.1)
      else if parsed.0 == Invalid then Fail(p, parsed.1)
      else Continue(p.(consumed := p.consumed + lineEnd + 2, state := AtHeaders), parsed.1)
  }

  /** How the header block frames the body, once all of it was read. */
  function Framing(p: Parser, r: Request): (o: Outcome)
    ensures o.parser.consumed == p.consumed
    ensures 0 < p.consumed ==> Valid(o.parser)
    ensures o.Stop? ==> (o.result == Complete <==> o.parser.state == AtComplete)
    ensures o.Stop? ==> (o.result == Invalid <==> o.parser.state == AtError)
    ensures o.Continue? ==> o.parser.state in {AtChunkSize, AtBody}
  {
    var contentLength := FirstValue(r.headers, "Content-Length");
    var transferEncoding := FirstValue(r.headers, "Transfer-Encoding");
    if contentLength != "" && transferEncoding != "" then Fail(p, r)
    else if transferEncoding != "" then
      if !SameText(Trimmed(transferEncoding), "chunked") then Fail(p, r)
      else Continue(p.(body := "", chunkSize := 0, chunkBytesRead := 0, state := AtChunkSize), r)
    else if contentLength == "" then
      Stop(Complete, p.(bodySize := 0, state := AtComplete), WithBody(r, ""))
    else
      var size := ContentLengthOf(contentLength);
      if size.None? then Fail(p.(bodySize := 0), r)
      else if size.value > MAX_BODY_SIZE then Fail(p.(bodySize := size.value), r)
      else if size.value == 0 then
        Stop(Complete, p.(bodySize := 0, state := AtComplete), WithBody(r, ""))
      else Continue(p.(bodySize := size.value, state := AtBody), r)
  }

  function StepHeaders(p: Parser, rest: string, r: Request): (o: Outcome)
    requires Valid(p) && p.state == AtHeaders
    ensures Sound(p, |rest|, o)
  {
    var headersEnd := FindBlankLine(rest, 0);
    if headersEnd == NPOS then
      if |rest| > MAX_HEADER_SIZE then Fail(p, r) else Stop(Incomplete, p, r)
    else if headersEnd > MAX_HEADER_SIZE then Fail(p, r)
    else
      var parsed := ParseHeaders(rest[..headersEnd + 4], r);
      if parsed.0 == Incomplete then Stop(Incomplete, p, parsed.1)
      else if parsed.0 == Invalid then Fail(p, parsed.1)
      else Framing(p.(consumed := p.consumed + headersEnd + 4), parsed.1)
  }

  function StepBody(p: Parser, rest: string, r: Request): (o: Outcome)
    requires Valid(p) && p.state == AtBody
    ensures Sound(p, |rest|, o)
  {
    if |rest| < p.bodySize then Stop(Incomplete, p, r)
    else Stop(Complete, p.(consumed := p.consumed + p.bodySize, state := AtComplete),
              WithBody(r, rest[..p.bodySize]))
  }

  /** The size text of a chunk line: what comes before a ';', without whitespace around it. */
  function SizeText(line: string): string {
    var semicolon := FindChar(line, ';', 0);
    Trimmed(if semicolon == NPOS then line else line[..semicolon])
  }

  function StepChunkSize(p: Parser, rest: string, r: Request): (o: Outcome)
    requires Valid(p) && p.state == AtChunkSize
    ensures Sound(p, |rest|, o)
  {
    var lineEnd := FindCrlf(rest, 0);
    if lineEnd == NPOS then
      if |rest| > MAX_CHUNK_LINE_SIZE then Fail(p, r) else Stop(Incomplete, p, r)
    else if lineEnd > MAX_CHUNK_LINE_SIZE then Fail(p, r)
    else
      var size := ChunkSizeOf(SizeText(rest[..lineEnd]), p.chunkSize);
      if !size.0 then Fail(p.(chunkSize := size.1), r)
      else if size.1 > MAX_BODY_SIZE || |p.body| > MAX_BODY_SIZE - size.1 then Fail(p.(chunkSize := size.1), r)
      else Continue(p.(consumed := p.consumed + lineEnd + 2, chunkSize := size.1, chunkBytesRead := 0,
                       state := if size.1 == 0 then AtChunkTrailer else AtChunkData), r)
  }

  function Min(a: nat, b: nat): nat { if a < b then a else b }

  function StepChunkData(p: Parser, rest: string, r: Request): (o: Outcome)
    requires Valid(p) && p.state == AtChunkData
    ensures Sound(p, |rest|, o)
  {
    var n := Min(|rest|, p.chunkSize - p.chunkBytesRead);
    var copied := p.(body := p.body + rest[..n], consumed := p.consumed + n, chunkBytesRead := p.chunkBytesRead + n);
    if copied.chunkBytesRead < p.chunkSize then Stop(Incomplete, copied, r)
    else Continue(copied.(state := AtChunkDataCrlf), r)
  }

  function StepChunkDataCrlf(p: Parser, rest: string, r: Request): (o: Outcome)
    requires Valid(p) && p.state == AtChunkDataCrlf
    ensures Sound(p, |rest|, o)
  {
    if |rest| < 2 then Stop(Incomplete, p, r)
    else if !CrlfAt(rest, 0) then Fail(p, r)
    else Continue(p.(consumed := p.consumed + 2, state := AtChunkSize), r)
  }

  /** The request takes the collected body. */
  function Finish(p: Parser, r: Request, consumed: nat): Outcome {
    Stop(Complete, p.(consumed := p.consumed + consumed, body := "", state := AtComplete), WithBody(r, p.body))
  }

  function StepChunkTrailer(p: Parser, rest: string, r: Request): (o: Outcome)
    requires Valid(p) && p.state == AtChunkTrailer
    ensures Sound(p, |rest|, o)
  {
    if CrlfAt(rest, 0) then Finish(p, r, 2)
    else
      var trailerEnd := FindBlankLine(rest, 0);
      if trailerEnd == NPOS then
        if |rest| > MAX_HEADER_SIZE then Fail(p, r) else Stop(Incomplete, p, r)
      else if !TrailersOk(rest[..trailerEnd + 2], 0, 0) then Fail(p, r)
      else Finish(p, r, trailerEnd + 4)
  }

  /** One turn of the loop in `parse`. */
  function Step(p: Parser, data: string, r: Request): (o: Outcome)
    requires Valid(p)
    ensures Valid(o.parser)
    ensures if p.consumed <= |data| then Sound(p, |data| - p.consumed, o) else o.Stop? && o.result != Incomplete
    ensures o.Stop? && o.result == Complete ==> o.parser.state == AtComplete
  {
    if p.state == AtComplete then Stop(Complete, p, r)
    else if p.state == AtError then Stop(Invalid, p, r)
    else if p.consumed > |data| then Fail(p, r)
    else
      var rest := data[p.consumed..];
      match p.state
      case AtRequestLine => StepRequestLine(p, rest, r)
      case AtHeaders => StepHeaders(p, rest, r)
      case AtBody => StepBody(p, rest, r)
      case AtChunkSize => StepChunkSize(p, rest, r)
      case AtChunkData => StepChunkData(p, rest, r)
      case AtChunkDataCrlf => StepChunkDataCrlf(p, rest, r)
      case AtChunkTrailer => StepChunkTrailer(p, rest, r)
      case _ => Fail(p, r)
  }

  /** A whole call of `parse`.  It terminates, because a step that continues moves forward. */
  function Run(p: Parser, data: string, r: Request): (out: Parsed)
    requires Valid(p)
    ensures Valid(out.parser)
    ensures p.consumed <= |data| ==> p.consumed <= out.parser.consumed <= |data|
    ensures out.result == Complete <==> out.parser.state == AtComplete
    ensures out.result == Invalid <==> out.parser.state == AtError
    ensures p.state == AtComplete || p.state == AtError ==> out.parser == p && out.request == r
    decreases |data| - p.consumed
  {
    match Step(p, data, r)
    case Stop(result, parser, request) => Parsed(result, parser, request)
    case Continue(parser, request) => Run(parser, data, request)
  }
}
