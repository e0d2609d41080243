/** Requests on the wire (sections 2, 6 and 7.1 of RFC 9112): the parser gives back exactly the
    request that was written, whatever bytes follow it. */
module RequestEncoding {
  import opened ByteStrings
  import opened ChunkEncoding
  import opened FieldEncoding
  import opened Fragmentation
  import opened HttpHeaderList
  import opened HttpMessages
  import opened HttpUtils
  import opened ParserSpec
  import opened QueryEncoding
  import opened TextMeaning

  datatype Payload =
    | NoBody
    | Sized(data: string)
    | Chunked(chunks: seq<Chunk>, last: string, trailers: string)

  /** A request, with the header that frames its payload as the sender spells it. */
  datatype Message = Message(
    method_: HttpMethod, path: string, query: seq<Item>, fields: seq<Header>, payload: Payload, framing: Header)

  /** The framing header of a request without a payload. */
  const NO_FRAMING := Header("", "")

  // ----- writing -----

  function MethodName(m: HttpMethod): string {
    match m
    case GET => "GET" case POST => "POST" case PUT => "PUT" case PATCH => "PATCH" case DELETE => "DELETE"
    case HEAD => "HEAD" case OPTIONS => "OPTIONS" case CONNECT => "CONNECT" case TRACE => "TRACE"
    case UNKNOWN => "UNKNOWN"
  }

  function Target(m: Message): string {
    if m.query == [] then m.path else m.path + "?" + QueryText(m.query)
  }

  function RequestLine(m: Message): string {
    MethodName(m.method_) + " " + Target(m) + " " + "HTTP/1.1"
  }

  function FramingFields(m: Message): seq<Header> { if m.payload.NoBody? then [] else [m.framing] }

  function AllFields(m: Message): seq<Header> { m.fields + FramingFields(m) }

  function EncodePayload(payload: Payload): string {
    match payload
    case NoBody => ""
    case Sized(data) => data
    case Chunked(chunks, last, trailers) => EncodeChunks(chunks) + EncodeLast(last, trailers)
  }

  function Encode(m: Message): string {
    RequestLine(m) + CRLF + EncodeFields(AllFields(m)) + CRLF + EncodePayload(m.payload)
  }

  // ----- meaning -----

  function BodyOf(payload: Payload): string {
    match payload
    case NoBody => ""
    case Sized(data) => data
    case Chunked(chunks, _, _) => ChunkBytes(chunks)
  }

  function RequestOf(m: Message): Request {
    Request(m.method_, Target(m), "HTTP/1.1", m.path, AllFields(m), BodyOf(m.payload), FirstWins(PairsOf(m.query), map[]), map[])
  }

  // ----- what a sender must respect -----

  predicate ValidPayload(payload: Payload) {
    && |BodyOf(payload)| <= MAX_BODY_SIZE
    && (payload.Chunked? ==>
          ValidChunks(payload.chunks) && IsChunkLine(payload.last, 0) && ValidTrailers(payload.trailers))
  }

  /** The name of the framing header in any letter case, and the length of a sized payload, with any leading
      zeros, or "chunked" in any letter case. */
  predicate ValidFraming(m: Message) {
    match m.payload
    case NoBody => true
    case Sized(data) =>
      SameLetters(m.framing.name, "Content-Length") && m.framing.value != "" && SpellsDec(m.framing.value, |data|)
    case Chunked(_, _, _) =>
      SameLetters(m.framing.name, "Transfer-Encoding") && SameLetters(m.framing.value, "chunked")
  }

  predicate IsPathChar(c: char) { c != ' ' && c != '?' && c != '\r' }

  predicate ValidTarget(m: Message) {
    Target(m) != "" && ValidItems(m.query) && forall i :: 0 <= i < |m.path| ==> IsPathChar(m.path[i])
  }

  predicate SendableLine(m: Message) {
    m.method_ != UNKNOWN && ValidTarget(m) && |RequestLine(m)| <= MAX_REQUEST_LINE
  }

  /** The limits of the parser, and the syntax of the parts. */
  predicate Sendable(m: Message) {
    && SendableLine(m)
    && ValidFields(m.fields) && !HasName(m.fields, "Content-Length") && !HasName(m.fields, "Transfer-Encoding")
    && |AllFields(m)| <= MAX_HEADERS
    && |EncodeFields(AllFields(m))| <= MAX_HEADER_SIZE + 2
    && ValidPayload(m.payload) && ValidFraming(m)
  }

  /** What the parser gives back: a message with at least one header line (see `RoundTripIffHeader`). */
  predicate WellFormed(m: Message) { Sendable(m) && AllFields(m) != [] }

  // ----- the request line -----

  lemma MethodNameFacts(m: HttpMethod)
    requires m != UNKNOWN
    ensures ParseMethod(MethodName(m)) == m && MethodName(m) != ""
    ensures forall i :: 0 <= i < |MethodName(m)| ==> MethodName(m)[i] != ' ' && MethodName(m)[i] != '\r'
  {}

  lemma TargetAlphabet(m: Message)
    requires ValidTarget(m)
    ensures forall i :: 0 <= i < |Target(m)| ==> Target(m)[i] != ' ' && Target(m)[i] != '\r'
  {
    hide QueryText;
    var t, q := Target(m), QueryText(m.query);
    QueryTextAlphabet(m.query);
    forall i | 0 <= i < |t| ensures t[i] != ' ' && t[i] != '\r' {
      if i < |m.path| { assert t[i] == m.path[i] && IsPathChar(m.path[i]); }
      if |m.path| < i { assert t[i] == q[i - |m.path| - 1] && IsQueryChar(q[i - |m.path| - 1]); }
    }
  }

  lemma TargetReadBack(m: Message)
    requires ValidTarget(m)
    ensures RequestFor(m.method_, Target(m), "HTTP/1.1")
         == FRESH_REQUEST.(method_ := m.method_, target := Target(m), version := "HTTP/1.1", path := m.path,
                           queries := FirstWins(PairsOf(m.query), map[]))
  {
    hide QueryText, AddQueries, FirstWins, PairsOf, ValidItems;
    var t, q := Target(m), QueryText(m.query);
    forall i | 0 <= i < |m.path| ensures t[i] != '?' {
      assert t[i] == m.path[i] && IsPathChar(m.path[i]);
    }
    CharIsFirst(t, '?', 0, |m.path|);
    assert t[..|m.path|] == m.path;
    if m.query == [] {
      NoPairs();
    } else {
      assert t[|m.path| + 1..] == q;
      assert q[0..] == q;
      QueryReadBack(q, 0, m.query, map[]);
    }
  }

  lemma NoPairs()
    ensures FirstWins(PairsOf([]), map[]) == map[]
  {}

  predicate IsLineChar(c: char) { c != ' ' && c != '\r' }

  lemma ThreeParts(name: string, t: string, v: string)
    requires forall i :: 0 <= i < |name| ==> IsLineChar(name[i])
    requires forall i :: 0 <= i < |t| ==> IsLineChar(t[i])
    requires forall i :: 0 <= i < |v| ==> IsLineChar(v[i])
    ensures
      var line, second := name + " " + t + " " + v, |name| + 1 + |t|;
      && (forall i :: 0 <= i < |line| ==> line[i] != '\r')
      && FindChar(line, ' ', 0) == |name| && FindChar(line, ' ', |name| + 1) == second
      && FindChar(line, ' ', second + 1) == NPOS
      && line[..|name|] == name && line[|name| + 1..second] == t && line[second + 1..] == v
  {
    hide FindChar;
    var line, second := name + " " + t + " " + v, |name| + 1 + |t|;
    assert line[..|name|] == name && line[|name| + 1..second] == t && line[second + 1..] == v;
    assert line[|name|] == ' ' && line[second] == ' ';
    forall i | 0 <= i < |line| ensures line[i] != '\r' && (line[i] == ' ' ==> i == |name| || i == second) {
      if i < |name| { assert IsLineChar(name[i]) && line[i] == name[i]; }
      else if |name| < i < second { assert IsLineChar(t[i - |name| - 1]) && line[i] == t[i - |name| - 1]; }
      else if second < i { assert IsLineChar(v[i - second - 1]) && line[i] == v[i - second - 1]; }
    }
    CharIsFirst(line, ' ', 0, |name|);
    CharIsFirst(line, ' ', |name| + 1, second);
    CharIsFirst(line, ' ', second + 1, |line|);
  }

  lemma RequestLineReadBack(m: Message)
    requires m.method_ != UNKNOWN && ValidTarget(m)
    ensures RequestLine(m) != "" && forall i :: 0 <= i < |RequestLine(m)| ==> RequestLine(m)[i] != '\r'
    ensures RequestOfLine(RequestLine(m)) == Some(RequestFor(m.method_, Target(m), "HTTP/1.1"))
  {
    hide Target, MethodName, ParseMethod, RequestFor, FindChar;
    MethodNameFacts(m.method_);
    TargetAlphabet(m);
    ThreeParts(MethodName(m.method_), Target(m), "HTTP/1.1");
  }

  /** The request after its request line. */
  function Started(m: Message): Request {
    FRESH_REQUEST.(method_ := m.method_, target := Target(m), version := "HTTP/1.1", path := m.path,
                   queries := FirstWins(PairsOf(m.query), map[]))
  }

  lemma RequestLineStep(p: Parser, x: string, r: Request, m: Message, tail: string)
    requires Valid(p) && p.state == AtRequestLine && m.method_ != UNKNOWN && ValidTarget(m)
    requires x == RequestLine(m) + CRLF + tail && |RequestLine(m)| <= MAX_REQUEST_LINE
    ensures FindCrlf(x, 0) == |RequestLine(m)|
    ensures StepRequestLine(p, x, r)
         == Continue(p.(consumed := p.consumed + |RequestLine(m)| + 2, state := AtHeaders), Started(m))
  {
    hide RequestLine, RequestOfLine, RequestFor;
    RequestLineReadBack(m);
    TargetReadBack(m);
    assert x[0..] == x;
    LineAt(x, 0, RequestLine(m), tail);
  }

  // ----- the header block -----

  /** Whether a list of valid fields gets through the header loop and its size limit. */
  predicate FieldsFit(fields: seq<Header>) {
    |fields| <= MAX_HEADERS && LengthsOk(fields) && |EncodeFields(fields)| <= MAX_HEADER_SIZE + 2
  }

  /** The header step on written fields: it goes on to the framing if they fit, and rejects them if not. */
  lemma HeadersStep(p: Parser, x: string, r: Request, fields: seq<Header>, tail: string)
    requires Valid(p) && p.state == AtHeaders && r.headers == []
    requires ValidFields(fields) && fields != [] && x == EncodeFields(fields) + CRLF + tail
    ensures FindBlankLine(x, 0) == |EncodeFields(fields)| - 2
    ensures FieldsFit(fields) ==>
              var q := p.(consumed := p.consumed + |EncodeFields(fields)| + 2);
              StepHeaders(p, x, r) == Framing(q, WithHeaders(r, fields))
    ensures !FieldsFit(fields) ==> Rejected(StepHeaders(p, x, r))
  {
    hide EncodeFields, Framing, ParseHeaderLines, LengthsAgree, FindBlankLine;
    BlankLineAfterFields(fields, tail);
    var block := x[..FindBlankLine(x, 0) + 4];
    assert block == EncodeFields(fields) + CRLF + "";
    assert block[0..] == block;
    assert r.headers + fields == fields;
    FieldsReadBack(block, 0, 0, r, fields, "");
    assert FieldsFit(fields) ==> ParseHeaders(block, r) == (Complete, WithHeaders(r, fields));
  }

  /** The value of the framing header, if it is of this kind. */
  function LengthText(m: Message): string { if m.payload.Sized? then m.framing.value else "" }

  function CodingText(m: Message): string { if m.payload.Chunked? then m.framing.value else "" }

  lemma FramingNames(m: Message)
    requires WellFormed(m)
    ensures ValidFields(AllFields(m))
    ensures FirstValue(AllFields(m), "Content-Length") == LengthText(m)
    ensures FirstValue(AllFields(m), "Transfer-Encoding") == CodingText(m)
    ensures LengthsOk(AllFields(m))
  {
    var framing := FramingFields(m);
    AppendedFirstValue(m.fields, framing, "Content-Length");
    AppendedFirstValue(m.fields, framing, "Transfer-Encoding");
    FramingFieldsFacts(m);
    hide ValidFraming, ValidPayload, ValidTarget, RequestLine, EncodeFields, SameText, ValidField, FirstValue;
    NoSuchName(m.fields, "Content-Length");
    NoSuchName(m.fields, "Transfer-Encoding");
    LengthsAppend(m.fields, framing, LengthText(m));
    AgreedLengthsOk(AllFields(m), LengthText(m));
    forall i | 0 <= i < |AllFields(m)| ensures ValidField(AllFields(m)[i]) {
      assert AllFields(m)[i] == if i < |m.fields| then m.fields[i] else framing[i - |m.fields|];
    }
  }

  /** A letter, or the character itself. */
  lemma SameLetterIsToken(c: char, d: char)
    requires SameLetter(c, d)
    ensures IsTokenChar(c) <==> IsTokenChar(d)
    ensures IsFieldChar(c) <==> IsFieldChar(d)
    ensures IsOws(c) <==> IsOws(d)
  {
    LowerMeans(c, d);
    hide SameLetter;
  }

  lemma SameLettersAreToken(a: string, b: string)
    requires SameLetters(a, b)
    ensures IsToken(b) ==> IsToken(a)
    ensures IsFieldText(b) ==> IsFieldText(a)
    ensures IsTrimmed(b) ==> IsTrimmed(a)
  {
    hide SameLetter, IsTokenChar, IsFieldChar, IsOws;
    forall i | 0 <= i < |a|
      ensures (IsTokenChar(a[i]) <==> IsTokenChar(b[i])) && (IsFieldChar(a[i]) <==> IsFieldChar(b[i]))
      ensures IsOws(a[i]) <==> IsOws(b[i])
    {
      SameLetterIsToken(a[i], b[i]);
    }
  }

  lemma FramingFieldsFacts(m: Message)
    requires ValidFraming(m)
    ensures ValidFields(FramingFields(m)) && LengthsAgree(FramingFields(m), LengthText(m))
    ensures FirstValue(FramingFields(m), "Content-Length") == LengthText(m)
    ensures FirstValue(FramingFields(m), "Transfer-Encoding") == CodingText(m)
  {
    hide IsToken, IsFieldText, IsTrimmed, SpellsDec, SameLetters;
    FramingNamesAreTokens();
    if !m.payload.NoBody? {
      var f := m.framing;
      SameTextMeans(f.name, "Content-Length");
      SameTextMeans(f.name, "Transfer-Encoding");
      SameLettersAreToken(f.name, if m.payload.Sized? then "Content-Length" else "Transfer-Encoding");
      if m.payload.Sized? {
        DecSpelled(f.value, |m.payload.data|);
        DigitsAreFieldText(f.value);
      } else {
        SameLettersAreToken(f.value, "chunked");
      }
      DifferentNames(f.name);
    }
  }

  lemma DifferentNames(name: string)
    ensures !(SameText(name, "Content-Length") && SameText(name, "Transfer-Encoding"))
  {}

  lemma FramingNamesAreTokens()
    ensures IsToken("Content-Length") && IsToken("Transfer-Encoding")
    ensures IsFieldText("chunked") && IsTrimmed("chunked")
  {
    AlphaNames("Content", "Length");
    AlphaNames("Transfer", "Encoding");
    assert "Content" + "-" + "Length" == "Content-Length";
    assert "Transfer" + "-" + "Encoding" == "Transfer-Encoding";
  }

  // ----- the whole request -----

  predicate RoomyPayload(payload: Payload) {
    payload.Chunked? ==> RoomyChunks(payload.chunks) && RoomyLast(payload.last, payload.trailers)
  }

  /** The sizes a sender must respect so that the request survives every fragmentation. */
  predicate Roomy(m: Message) {
    && |RequestLine(m)| + 1 <= MAX_REQUEST_LINE
    && |EncodeFields(AllFields(m))| + 1 <= MAX_HEADER_SIZE
    && RoomyPayload(m.payload)
  }

  /** What the header block of a message leads to. */
  lemma FramingOf(p: Parser, m: Message, r: Request)
    requires WellFormed(m) && r.headers == AllFields(m)
    ensures Framing(p, r) ==
            match m.payload
            case NoBody => Stop(Complete, p.(bodySize := 0, state := AtComplete), WithBody(r, ""))
            case Sized(data) =>
              if data == "" then Stop(Complete, p.(bodySize := 0, state := AtComplete), WithBody(r, ""))
              else Continue(p.(bodySize := |data|, state := AtBody), r)
            case Chunked(_, _, _) => Continue(p.(body := "", chunkSize := 0, chunkBytesRead := 0, state := AtChunkSize), r)
  {
    FramingNames(m);
    FramingValue(m);
    if m.payload.Sized? { SizedFits(m); }
    hide WellFormed, AllFields, FirstValue, ContentLengthOf, Trimmed, SameText, ValidFields, LengthsOk;
  }

  lemma FramingValue(m: Message)
    requires WellFormed(m)
    ensures m.payload.Sized? ==> LengthText(m) != "" && ContentLengthOf(LengthText(m)) == Some(|m.payload.data|)
    ensures m.payload.Chunked? ==> CodingText(m) != "" && SameText(Trimmed(CodingText(m)), "chunked")
  {
    var v := m.framing.value;
    if m.payload.Sized? {
      DecSpelled(v, |m.payload.data|);
    } else if m.payload.Chunked? {
      FramingNamesAreTokens();
      SameLettersAreToken(v, "chunked");
      SameTextMeans(v, "chunked");
      assert "" + v + "" == v;
      TrimmedIsTheCore("", v, "");
    }
  }

  lemma SizedFits(m: Message)
    requires WellFormed(m) && m.payload.Sized?
    ensures |m.payload.data| <= MAX_BODY_SIZE
  {}

  lemma SizedRead(p: Parser, data: string, r: Request, bytes: string, tail: string)
    requires Valid(p) && p.state == AtBody && p.consumed <= |data| && p.bodySize == |bytes|
    requires data[p.consumed..] == bytes + tail
    ensures Delivers(p, r, data, WithBody(r, bytes), p.consumed + |bytes|)
    ensures HasSlack(p, data, r)
  {
    assert data[p.consumed..][..|bytes|] == bytes;
    LastStep(p, data, r);
  }

  lemma ChunkedRead(p: Parser, data: string, r: Request, payload: Payload, tail: string)
    requires Valid(p) && p.state == AtChunkSize && p.consumed <= |data| && p.body == ""
    requires payload.Chunked? && ValidPayload(payload) && data[p.consumed..] == EncodePayload(payload) + tail
    ensures Delivers(p, r, data, WithBody(r, BodyOf(payload)), p.consumed + |EncodePayload(payload)|)
    ensures HasSlack(p, data, r) <==> RoomyPayload(payload)
  {
    hide Run, HasSlack, SameCall, Delivers, WithBody, EncodeChunks, EncodeLast, ChunkBytes, ValidChunks, IsChunkLine,
         ValidTrailers, RoomyChunks, RoomyLast, AfterChunks, Sound;
    var last := EncodeLast(payload.last, payload.trailers);
    assert EncodePayload(payload) + tail == EncodeChunks(payload.chunks) + (last + tail);
    ChunksRead(p, data, r, payload.chunks, last + tail);
    var q := AfterChunks(p, payload.chunks);
    assert q.body == BodyOf(payload);
    LastRead(q, data, r, payload.last, payload.trailers, tail);
    SameCallDelivers(p, r, q, r, data, WithBody(r, BodyOf(payload)), p.consumed + |EncodePayload(payload)|);
  }

  /** What a call delivers after a step, and whether the rest of it has slack. */
  predicate DeliversAfter(o: Outcome, data: string, request: Request, consumed: nat)
    requires Valid(o.parser)
  {
    if o.Continue? then Delivers(o.parser, o.request, data, request, consumed)
    else o.result == Complete && o.request == request && o.parser.consumed == consumed
  }

  predicate SlackAfter(o: Outcome, data: string)
    requires Valid(o.parser)
  {
    o.Continue? ==> HasSlack(o.parser, data, o.request)
  }

  lemma StepThenAfter(p: Parser, data: string, r: Request, request: Request, consumed: nat)
    requires Valid(p)
    ensures DeliversAfter(Step(p, data, r), data, request, consumed) ==> Delivers(p, r, data, request, consumed)
    ensures HasSlack(p, data, r) <==> StepHasSlack(p, data) && SlackAfter(Step(p, data, r), data)
  {
    hide StepRequestLine, StepHeaders, StepBody, StepChunkSize, StepChunkData, StepChunkDataCrlf, StepChunkTrailer;
  }

  lemma StepAtHeaders(p: Parser, data: string, r: Request)
    requires Valid(p) && p.state == AtHeaders && p.consumed <= |data|
    ensures Step(p, data, r) == StepHeaders(p, data[p.consumed..], r)
    ensures StepHasSlack(p, data) <==> FindBlankLine(data[p.consumed..], 0) + 3 <= MAX_HEADER_SIZE
  {
    hide StepHeaders, FindBlankLine;
  }

  lemma FieldsFacts(m: Message)
    requires WellFormed(m)
    ensures ValidFields(AllFields(m)) && AllFields(m) != [] && FieldsFit(AllFields(m))
  {
    FramingNames(m);
  }

  /** A list of written fields after the request line of a message. */
  lemma HeadersRead(p: Parser, data: string, m: Message, fields: seq<Header>, body: string)
    requires Valid(p) && p.state == AtHeaders && p.consumed <= |data|
    requires ValidFields(fields) && fields != [] && data[p.consumed..] == EncodeFields(fields) + CRLF + body
    ensures
      var q := p.(consumed := p.consumed + |EncodeFields(fields)| + 2);
      && q.consumed <= |data| && data[q.consumed..] == body
      && (FieldsFit(fields) ==> Step(p, data, Started(m)) == Framing(q, WithHeaders(Started(m), fields)))
      && (!FieldsFit(fields) ==> Rejected(Step(p, data, Started(m))))
      && (StepHasSlack(p, data) <==> |EncodeFields(fields)| + 1 <= MAX_HEADER_SIZE)
  {
    hide EncodeFields, Step, StepHeaders, StepHasSlack, Framing, WithHeaders, Started, ValidFields, FieldsFit, FindBlankLine,
         Sound;
    var x, block := data[p.consumed..], EncodeFields(fields);
    StepAtHeaders(p, data, Started(m));
    StartedEmpty(m);
    HeadersStep(p, x, Started(m), fields, body);
    SuffixAfter(x, block, body);
    assert data[p.consumed + |block| + 2..] == x[|block| + 2..];
  }

  lemma SuffixAfter(x: string, line: string, body: string)
    requires x == line + CRLF + body
    ensures |line| + 2 <= |x| && x[|line| + 2..] == body
  {}

  lemma RequestOfParts(m: Message)
    ensures RequestOf(m) == WithBody(WithHeaders(Started(m), AllFields(m)), BodyOf(m.payload))
  {}

  lemma HeadersGiven(r: Request, fields: seq<Header>)
    ensures WithHeaders(r, fields).headers == fields
  {}

  lemma StartedEmpty(m: Message)
    ensures Started(m).headers == []
  {}

  /** From the end of the header block on. */
  lemma BodyRead(q: Parser, data: string, r: Request, m: Message, tail: string)
    requires q.consumed <= |data| && 0 < q.consumed && WellFormed(m) && r.headers == AllFields(m)
    requires Valid(Framing(q, r).parser) && data[q.consumed..] == EncodePayload(m.payload) + tail
    ensures DeliversAfter(Framing(q, r), data, WithBody(r, BodyOf(m.payload)), q.consumed + |EncodePayload(m.payload)|)
    ensures SlackAfter(Framing(q, r), data) <==> RoomyPayload(m.payload)
  {
    FramingOf(q, m, r);
    hide Framing, Run, HasSlack, Delivers, AllFields, EncodeFields, EncodeChunks, EncodeLast, ChunkBytes, ValidTarget, RequestLine,
         RoomyChunks, RoomyLast;
    var o := Framing(q, r);
    if m.payload.Sized? && o.Continue? {
      SizedRead(o.parser, data, r, m.payload.data, tail);
    } else if m.payload.Chunked? {
      ChunkedRead(o.parser, data, r, m.payload, tail);
    }
  }

  lemma EncodeParts(m: Message, rest: string)
    ensures Encode(m) + rest == RequestLine(m) + CRLF + (EncodeFields(AllFields(m)) + CRLF + (EncodePayload(m.payload) + rest))
    ensures |Encode(m)| == |RequestLine(m)| + 2 + |EncodeFields(AllFields(m))| + 2 + |EncodePayload(m.payload)|
  {
    hide RequestLine, EncodeFields, AllFields, EncodePayload;
    Regroup(RequestLine(m), CRLF, EncodeFields(AllFields(m)), CRLF, EncodePayload(m.payload), rest);
  }

  lemma Regroup(a: string, b: string, c: string, d: string, e: string, f: string)
    ensures a + b + c + d + e + f == a + b + (c + d + (e + f))
  {
    Associates(a + b + c + d, e, f);
    Associates(a + b + c, d, e + f);
    Associates(a + b, c, d + (e + f));
    Associates(c, d, e + f);
  }

  lemma RequestLineRead(data: string, m: Message, r: Request, tail: string)
    requires SendableLine(m) && data == RequestLine(m) + CRLF + tail
    ensures
      var p := INITIAL.(consumed := |RequestLine(m)| + 2, state := AtHeaders);
      && p.consumed <= |data| && data[p.consumed..] == tail
      && SameCall(INITIAL, r, p, Started(m), data)
      && (HasSlack(INITIAL, data, r) <==> |RequestLine(m)| + 1 <= MAX_REQUEST_LINE && HasSlack(p, data, Started(m)))
  {
    hide Run, HasSlack, SameCall, RequestLine, AllFields, Started, StepRequestLine, StepHeaders, StepBody, StepChunkSize,
         StepChunkData, StepChunkDataCrlf, StepChunkTrailer, FindBlankLine, FindCrlf, ValidTarget, ValidPayload, ValidFields,
         HasName;
    assert data[0..] == data;
    RequestLineStep(INITIAL, data, r, m, tail);
    OneStep(INITIAL, data, r, INITIAL.(consumed := |RequestLine(m)| + 2, state := AtHeaders), Started(m));
    SuffixAfter(data, RequestLine(m), tail);
  }

  /** A call whose first step frames the body, from the point where the body starts. */
  lemma FramedBodyRead(p: Parser, q: Parser, data: string, s: Request, m: Message, rest: string)
    requires Valid(p) && WellFormed(m) && s.headers == AllFields(m) && Step(p, data, Started(m)) == Framing(q, s)
    requires 0 < q.consumed <= |data| && data[q.consumed..] == EncodePayload(m.payload) + rest
    ensures Delivers(p, Started(m), data, WithBody(s, BodyOf(m.payload)), q.consumed + |EncodePayload(m.payload)|)
    ensures HasSlack(p, data, Started(m)) <==> StepHasSlack(p, data) && RoomyPayload(m.payload)
  {
    hide Run, HasSlack, Delivers, WithBody, Started, AllFields, EncodePayload, Step, Framing, RoomyPayload, BodyOf,
         DeliversAfter, SlackAfter, StepHasSlack, WellFormed, Valid, Sound;
    BodyRead(q, data, s, m, rest);
    StepThenAfter(p, data, Started(m), WithBody(s, BodyOf(m.payload)), q.consumed + |EncodePayload(m.payload)|);
  }

  lemma HeadersAndBodyRead(p: Parser, data: string, m: Message, rest: string)
    requires Valid(p) && p.state == AtHeaders && p.consumed <= |data| && WellFormed(m)
    requires data[p.consumed..] == EncodeFields(AllFields(m)) + CRLF + (EncodePayload(m.payload) + rest)
    ensures Delivers(p, Started(m), data, RequestOf(m),
                     p.consumed + |EncodeFields(AllFields(m))| + 2 + |EncodePayload(m.payload)|)
    ensures HasSlack(p, data, Started(m)) <==>
              |EncodeFields(AllFields(m))| + 1 <= MAX_HEADER_SIZE && RoomyPayload(m.payload)
  {
    hide *;
    FieldsFacts(m);
    HeadersRead(p, data, m, AllFields(m), EncodePayload(m.payload) + rest);
    var q := p.(consumed := p.consumed + |EncodeFields(AllFields(m))| + 2);
    HeadersGiven(Started(m), AllFields(m));
    FramedBodyRead(p, q, data, WithHeaders(Started(m), AllFields(m)), m, rest);
    RequestOfParts(m);
  }

  /** Whatever follows a well-formed request, one call delivers exactly that request and counts
      exactly its bytes.  The call has slack exactly when the request is roomy. */
  lemma RequestRoundTrip(m: Message, rest: string, r: Request)
    requires WellFormed(m)
    ensures Delivers(INITIAL, r, Encode(m) + rest, RequestOf(m), |Encode(m)|)
    ensures HasSlack(INITIAL, Encode(m) + rest, r) <==> Roomy(m)
  {
    hide Run, HasSlack, SameCall, Delivers, RequestOf, Started, RequestLine, EncodeFields, AllFields, EncodePayload,
         Encode, RoomyPayload, SendableLine, ValidFields, ValidPayload, HasName;
    var data := Encode(m) + rest;
    EncodeParts(m, rest);
    RequestLineRead(data, m, r, EncodeFields(AllFields(m)) + CRLF + (EncodePayload(m.payload) + rest));
    var p := INITIAL.(consumed := |RequestLine(m)| + 2, state := AtHeaders);
    HeadersAndBodyRead(p, data, m, rest);
    SameCallDelivers(INITIAL, r, p, Started(m), data, RequestOf(m), |Encode(m)|);
  }

  // ----- messages without a header line -----

  lemma NoFields(r: Request)
    requires r.headers == []
    ensures FirstValue(r.headers, "Content-Length") == "" && FirstValue(r.headers, "Transfer-Encoding") == ""
  {}

  lemma StartsWithLineEnd(block: string, r: Request)
    requires CrlfAt(block, 0)
    ensures ParseHeaders(block, r) == (Complete, r)
  {
    assert FindCrlf(block, 0) == 0;
    assert TurnAt(block, 0) == EmptyLine;
  }

  /** The header step where a line end comes first.  The header loop stops at once, and whatever stands
      before the first empty line is counted as consumed, unread. */
  lemma NoHeaderStep(p: Parser, x: string, r: Request)
    requires Valid(p) && p.state == AtHeaders && r.headers == [] && CrlfAt(x, 0)
    ensures
      var k := FindBlankLine(x, 0);
      if k == NPOS then
        StepHeaders(p, x, r) == if |x| > MAX_HEADER_SIZE then Fail(p, r) else Stop(Incomplete, p, r)
      else
        StepHeaders(p, x, r) ==
        if k > MAX_HEADER_SIZE then Fail(p, r)
        else Stop(Complete, p.(consumed := p.consumed + k + 4, bodySize := 0, state := AtComplete), WithBody(r, ""))
  {
    NoFields(r);
    hide FindBlankLine, ParseHeaders, FirstValue;
    var k := FindBlankLine(x, 0);
    if k != NPOS { StartsWithLineEnd(x[..k + 4], r); }
  }

  lemma EncodeWithoutFields(m: Message, rest: string)
    requires AllFields(m) == []
    ensures Encode(m) + rest == RequestLine(m) + CRLF + (CRLF + rest) && |Encode(m)| == |RequestLine(m)| + 4
    ensures RequestOf(m) == WithBody(Started(m), "")
  {
    assert m.payload.NoBody?;
    assert EncodeFields(AllFields(m)) == "" && EncodePayload(m.payload) == "";
    EncodeParts(m, rest);
    hide RequestLine;
    assert "" + CRLF + ("" + rest) == CRLF + rest;
  }

  /** What one call makes of a message without a header line and the bytes that follow it. */
  lemma NoHeaderRead(m: Message, rest: string, r: Request)
    requires SendableLine(m) && AllFields(m) == []
    ensures
      var data, k := Encode(m) + rest, FindBlankLine(CRLF + rest, 0);
      if k == NPOS then
        Run(INITIAL, data, r).result == if |rest| + 2 > MAX_HEADER_SIZE then Invalid else Incomplete
      else if k > MAX_HEADER_SIZE then Run(INITIAL, data, r).result == Invalid
      else Delivers(INITIAL, r, data, RequestOf(m), |Encode(m)| + k + 2)
  {
    hide Run, HasSlack, SendableLine, RequestLine, AllFields, SameCall, Encode, RequestOf, FindBlankLine, StepHeaders, Started;
    var data, x := Encode(m) + rest, CRLF + rest;
    EncodeWithoutFields(m, rest);
    RequestLineRead(data, m, r, x);
    var p := INITIAL.(consumed := |RequestLine(m)| + 2, state := AtHeaders);
    StepAtHeaders(p, data, Started(m));
    StartedEmpty(m);
    NoHeaderStep(p, x, Started(m));
    LastStep(p, data, Started(m));
    SameCallResult(INITIAL, r, p, Started(m), data);
  }

  lemma SameCallResult(p: Parser, r: Request, q: Parser, s: Request, data: string)
    requires Valid(p) && Valid(q) && SameCall(p, r, q, s, data)
    ensures Run(p, data, r) == Run(q, data, s)
  {}

  /** Alone, it waits for more bytes, on its own empty line. */
  lemma NoHeaderLineWaits(m: Message, r: Request)
    requires SendableLine(m) && AllFields(m) == []
    ensures Run(INITIAL, Encode(m), r).result == Incomplete
  {
    NoHeaderRead(m, "", r);
    hide Run, Encode, AllFields, SendableLine;
    assert Encode(m) + "" == Encode(m) && CRLF + "" == CRLF;
    FirstBlankLine(CRLF, 0);
  }

  /** One call reads back a message, whatever follows it, exactly when it has a header line. */
  lemma RoundTripIffHeader(m: Message, rest: string, r: Request)
    requires Sendable(m)
    ensures Delivers(INITIAL, r, Encode(m) + rest, RequestOf(m), |Encode(m)|) <==> AllFields(m) != []
  {
    hide Run, Encode, AllFields, RequestOf, FindBlankLine, SendableLine, ValidFields, ValidPayload, HasName;
    if AllFields(m) == [] {
      NoHeaderRead(m, rest, r);
    } else {
      RequestRoundTrip(m, rest, r);
    }
  }

  lemma LineFacts(m: Message)
    requires SendableLine(m)
    ensures RequestLine(m) != "" && forall i :: 0 <= i < |RequestLine(m)| ==> RequestLine(m)[i] != '\r'
  {
    RequestLineReadBack(m);
  }

  /** The first empty line of a message is the one after its header lines, also where a line end comes first. */
  lemma BlankLineOfHead(line: string, fields: seq<Header>, tail: string)
    requires line != "" && forall i :: 0 <= i < |line| ==> line[i] != '\r'
    requires fields != [] && ValidFields(fields)
    ensures FindBlankLine(CRLF + (line + CRLF + (EncodeFields(fields) + CRLF + tail)), 0)
         == |line| + 2 + |EncodeFields(fields)|
  {
    hide EncodeFields, FindBlankLine, ValidFields;
    var block := EncodeFields(fields);
    var a, t := CRLF + line + CRLF, block + CRLF + tail;
    BlankLineAfterFields(fields, tail);
    assert t[0] == block[0];
    NoBlankAround(line, t);
    BlankLineShift(a, t);
    Associates(CRLF, line + CRLF, t);
    Associates(CRLF, line, CRLF);
  }

  lemma NoBlankAround(line: string, t: string)
    requires line != "" && t != "" && t[0] != '\r' && forall i :: 0 <= i < |line| ==> line[i] != '\r'
    ensures forall i :: 0 <= i < |line| + 4 ==> !BlankLineAt(CRLF + line + CRLF + t, i)
  {
    var s := CRLF + line + CRLF + t;
    assert s[2] == line[0] && s[|line| + 4] == t[0];
    forall i | 0 <= i < |line| + 4 ensures !BlankLineAt(s, i) {
      if 2 <= i < |line| + 2 { assert s[i] == line[i - 2]; }
    }
  }

  /** A message without a header line swallows the head of the next one: its request line and its headers
      are counted as consumed with it, and what is left of the next message is its payload. */
  lemma SwallowsNextHead(m: Message, next: Message, rest: string, r: Request)
    requires SendableLine(m) && AllFields(m) == [] && WellFormed(next)
    requires |RequestLine(next)| + 2 + |EncodeFields(AllFields(next))| <= MAX_HEADER_SIZE
    ensures
      var data, consumed := Encode(m) + (Encode(next) + rest),
                            |Encode(m)| + |RequestLine(next)| + 2 + |EncodeFields(AllFields(next))| + 2;
      && Delivers(INITIAL, r, data, RequestOf(m), consumed)
      && consumed <= |data| && data[consumed..] == EncodePayload(next.payload) + rest
  {
    hide Run, Encode, AllFields, RequestOf, FindBlankLine, SendableLine, RequestLine, EncodeFields, EncodePayload, ValidPayload,
         HasName;
    var head, line, block, payload := Encode(m), RequestLine(next), EncodeFields(AllFields(next)), EncodePayload(next.payload);
    NoHeaderRead(m, Encode(next) + rest, r);
    LineFacts(next);
    FieldsFacts(next);
    EncodeParts(next, rest);
    hide ValidFields, FieldsFit;
    BlankLineOfHead(line, AllFields(next), payload + rest);
    Associates(line + CRLF, block + CRLF, payload + rest);
    SuffixOf(head, line + CRLF + (block + CRLF + (payload + rest)), line + CRLF + (block + CRLF), payload + rest);
  }

  lemma SuffixOf(a: string, b: string, c: string, d: string)
    requires b == c + d
    ensures |a| + |c| <= |a + b| && (a + b)[|a| + |c|..] == d
  {}
}
