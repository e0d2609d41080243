/** The server loop gives every read event a fresh request (src/network/TcpServer.cpp:184), although the
    parser relies on being given the same one again. */
module FreshRequests {
  import opened Acceptance
  import opened ByteStrings
  import opened ChunkEncoding
  import opened FieldEncoding
  import opened Fragmentation
  import opened HttpHeaderList
  import opened HttpMessages
  import opened HttpUtils
  import opened ParserSpec
  import opened RequestEncoding

  /** The parts of a request that its request line sets. */
  predicate SameLine(q: Request, r: Request) {
    && q.method_ == r.method_ && q.target == r.target && q.version == r.version
    && q.path == r.path && q.queries == r.queries && q.params == r.params
  }

  /** Past the request line, what it set is never set again. */
  lemma {:induction false} LineIsKept(p: Parser, data: string, r: Request)
    requires Valid(p) && p.state != AtRequestLine
    ensures SameLine(Run(p, data, r).request, r) && Run(p, data, r).parser.state != AtRequestLine
    decreases |data| - p.consumed
  {
    hide SameLine;
    StepKeepsLine(p, data, r);
    var o := Step(p, data, r);
    if o.Continue? {
      LineIsKept(o.parser, data, o.request);
      SameLineTwice(Run(p, data, r).request, o.request, r);
    }
  }

  lemma SameLineTwice(q: Request, s: Request, r: Request)
    requires SameLine(q, s) && SameLine(s, r)
    ensures SameLine(q, r)
  {}

  lemma StepKeepsLine(p: Parser, data: string, r: Request)
    requires Valid(p) && p.state != AtRequestLine
    ensures SameLine(Step(p, data, r).request, r) && Step(p, data, r).parser.state != AtRequestLine
  {
    if p.state == AtHeaders {
      hide StepHeaders, Sound;
      if p.consumed <= |data| { HeadersKeepLine(p, data[p.consumed..], r); }
    } else {
      hide Sound, FindCrlf, FindBlankLine, TrailersOk, ChunkSizeOf, SizeText, StepRequestLine, StepHeaders;
    }
  }

  lemma HeadersKeepLine(p: Parser, x: string, r: Request)
    requires Valid(p) && p.state == AtHeaders
    ensures SameLine(StepHeaders(p, x, r).request, r) && StepHeaders(p, x, r).parser.state != AtRequestLine
  {
    hide FindBlankLine, ContentLengthOf, ParseHeaderLines, FirstValue, TrimLeft, TrimRight, SameText;
    if FindBlankLine(x, 0) != NPOS {
      FieldsKeepLine(x[..FindBlankLine(x, 0) + 4], 0, 0, r);
    }
  }

  lemma {:induction false} FieldsKeepLine(data: string, position: nat, count: nat, r: Request)
    ensures SameLine(ParseHeaderLines(data, position, count, r).1, r)
    decreases |data| - position
  {
    hide TurnAt, LengthConflict;
    var turn := TurnAt(data, position);
    if turn.FieldFound? { FieldsKeepLine(data, turn.next, count + 1, AddField(r, turn.field)); }
  }

  lemma AcceptedMethodIsKnown(data: string, r: Request)
    requires Run(INITIAL, data, r).result == Complete
    ensures Run(INITIAL, data, r).request.method_ != UNKNOWN
  {
    var o := Step(INITIAL, data, r);
    assert data[0..] == data;
    assert o.Continue? && o.request.method_ != UNKNOWN by { hide AddQueries, FindCrlf, FindChar; }
    LineIsKept(o.parser, data, o.request);
  }

  lemma LineEndLeavesRequestLine(d: string, r: Request)
    requires Run(INITIAL, d, r).result == Incomplete
    ensures FindCrlf(d, 0) == NPOS ==> Run(INITIAL, d, r) == Parsed(Incomplete, INITIAL, r)
    ensures FindCrlf(d, 0) != NPOS ==> Run(INITIAL, d, r).parser.state != AtRequestLine
  {
    hide FindCrlf, ParseRequestLine;
    assert d[0..] == d;
    var o := Step(INITIAL, d, r);
    if o.Continue? { LineIsKept(o.parser, d, o.request); }
    else { RequestLineNeverIncomplete(d, r); }
  }

  lemma RequestLineNeverIncomplete(d: string, r: Request)
    ensures FindCrlf(d, 0) != NPOS ==> ParseRequestLine(d, r).0 != Incomplete
  {}

  /** Reads in turn, each with a fresh request (src/network/TcpServer.cpp:184), until one returns something
      other than Incomplete. */
  function FeedFresh(p: Parser, buffer: string, fragments: seq<string>): Parsed
    requires Valid(p) && fragments != []
    decreases |fragments|
  {
    var out := Run(p, buffer + fragments[0], FRESH_REQUEST);
    if out.result != Incomplete || |fragments| == 1 then out
    else FeedFresh(out.parser, buffer + fragments[0], fragments[1..])
  }

  /** The buffer at the first read that holds a complete line, or at the last one. */
  function FirstLineRead(buffer: string, fragments: seq<string>): string
    requires fragments != []
    decreases |fragments|
  {
    var next := buffer + fragments[0];
    if FindCrlf(next, 0) != NPOS || |fragments| == 1 then next else FirstLineRead(next, fragments[1..])
  }

  /** Once an earlier read has taken the request line, every later request comes out without one. */
  lemma {:induction false} LineIsLost(p: Parser, buffer: string, fragments: seq<string>)
    requires Valid(p) && p.state != AtRequestLine && fragments != []
    ensures SameLine(FeedFresh(p, buffer, fragments).request, FRESH_REQUEST)
    decreases |fragments|
  {
    hide Run, SameLine;
    LineIsKept(p, buffer + fragments[0], FRESH_REQUEST);
    var out := Run(p, buffer + fragments[0], FRESH_REQUEST);
    if out.result == Incomplete && |fragments| != 1 {
      LineIsLost(out.parser, buffer + fragments[0], fragments[1..]);
    }
  }

  // ----- the parser goes the same way -----

  lemma {:induction false} HeaderLinesIgnoreRequest(data: string, position: nat, count: nat, r: Request, s: Request)
    requires r.headers == s.headers
    ensures var a, b := ParseHeaderLines(data, position, count, r), ParseHeaderLines(data, position, count, s);
            a.0 == b.0 && a.1.headers == b.1.headers && a.2 == b.2
    decreases |data| - position
  {
    hide TurnAt, LengthConflict;
    var turn := TurnAt(data, position);
    if turn.FieldFound? {
      HeaderLinesIgnoreRequest(data, turn.next, count + 1, AddField(r, turn.field), AddField(s, turn.field));
    }
  }

  /** The same verdict and the same parser. */
  predicate SameWay(a: Outcome, b: Outcome) {
    a.parser == b.parser && a.Stop? == b.Stop? && (a.Stop? ==> a.result == b.result)
  }

  lemma FramingIgnoresRequest(p: Parser, r: Request, s: Request)
    requires r.headers == s.headers
    ensures SameWay(Framing(p, r), Framing(p, s))
  {
    hide FirstValue, ContentLengthOf, TrimLeft, TrimRight;
  }

  lemma HeadersIgnoreRequest(p: Parser, x: string, r: Request, s: Request)
    requires Valid(p) && p.state == AtHeaders && r.headers == s.headers
    ensures SameWay(StepHeaders(p, x, r), StepHeaders(p, x, s))
  {
    hide ParseHeaderLines, Framing, FindBlankLine;
    var headersEnd := FindBlankLine(x, 0);
    if headersEnd != NPOS {
      var block := x[..headersEnd + 4];
      HeaderLinesIgnoreRequest(block, 0, 0, r, s);
      FramingIgnoresRequest(p.(consumed := p.consumed + headersEnd + 4), ParseHeaders(block, r).1, ParseHeaders(block, s).1);
    }
  }

  lemma RequestLineIgnoresRequest(p: Parser, x: string, r: Request, s: Request)
    requires Valid(p) && p.state == AtRequestLine
    ensures SameWay(StepRequestLine(p, x, r), StepRequestLine(p, x, s))
    ensures StepRequestLine(p, x, r).Continue? ==> StepRequestLine(p, x, r) == StepRequestLine(p, x, s)
  {
    hide RequestOfLine, FindCrlf;
  }

  lemma StepIgnoresRequest(p: Parser, data: string, r: Request, s: Request)
    requires Valid(p) && (p.state == AtHeaders ==> r.headers == s.headers)
    ensures SameWay(Step(p, data, r), Step(p, data, s))
    ensures Step(p, data, r).Continue? && Step(p, data, r).parser.state == AtHeaders ==>
              Step(p, data, r).request == Step(p, data, s).request
  {
    if p.consumed <= |data| {
      var x := data[p.consumed..];
      if p.state == AtHeaders { HeadersIgnoreRequest(p, x, r, s); }
      if p.state == AtRequestLine { RequestLineIgnoresRequest(p, x, r, s); }
    }
    hide StepRequestLine, StepHeaders, FindCrlf, FindBlankLine, TrailersOk, ChunkSizeOf, SizeText, Sound;
  }

  lemma {:induction false} RunIgnoresRequest(p: Parser, data: string, r: Request, s: Request)
    requires Valid(p) && (p.state == AtHeaders ==> r.headers == s.headers)
    ensures Run(p, data, r).result == Run(p, data, s).result && Run(p, data, r).parser == Run(p, data, s).parser
    decreases |data| - p.consumed
  {
    hide SameLine;
    StepIgnoresRequest(p, data, r, s);
    var o := Step(p, data, r);
    if o.Continue? { RunIgnoresRequest(o.parser, data, o.request, Step(p, data, s).request); }
  }

  lemma HeadersEmpty(p: Parser, r: Request)
    requires Consistent(p, r) && p.state == AtHeaders
    ensures r.headers == []
  {}

  /** A fresh request for every read and one request for all of them lead to the same verdict. */
  lemma {:induction false} FeedsAgree(p: Parser, r: Request, buffer: string, fragments: seq<string>)
    requires Valid(p) && Consistent(p, r) && fragments != []
    ensures FeedFresh(p, buffer, fragments).result == FeedAll(p, r, buffer, fragments).result
    decreases |fragments|
  {
    hide Run, Consistent;
    var next := buffer + fragments[0];
    if p.state == AtHeaders { HeadersEmpty(p, r); }
    RunIgnoresRequest(p, next, r, FRESH_REQUEST);
    RunKeepsConsistent(p, next, r);
    var out := Run(p, next, r);
    if out.result == Incomplete && |fragments| != 1 {
      FeedsAgree(out.parser, out.request, next, fragments[1..]);
    }
  }

  lemma InitialIsConsistent(r: Request)
    ensures Consistent(INITIAL, r)
  {}

  // ----- what is lost -----

  lemma {:induction false} FreshReads(buffer: string, fragments: seq<string>)
    requires fragments != [] && FindCrlf(buffer, 0) == NPOS
    requires FeedFresh(INITIAL, buffer, fragments).result == Complete
    requires Run(INITIAL, buffer + Concat(fragments), FRESH_REQUEST).result == Complete
    ensures FeedFresh(INITIAL, buffer, fragments) == Run(INITIAL, buffer + Concat(fragments), FRESH_REQUEST)
       <==> Run(INITIAL, FirstLineRead(buffer, fragments), FRESH_REQUEST).result == Complete
    ensures Run(INITIAL, FirstLineRead(buffer, fragments), FRESH_REQUEST).result != Complete ==>
              SameLine(FeedFresh(INITIAL, buffer, fragments).request, FRESH_REQUEST)
    decreases |fragments|
  {
    hide Run, FindCrlf;
    var next, whole := buffer + fragments[0], buffer + Concat(fragments);
    ConcatSplits(buffer, fragments);
    var out := Run(INITIAL, next, FRESH_REQUEST);
    AcceptedMethodIsKnown(whole, FRESH_REQUEST);
    if out.result == Complete {
      CompleteIsStable(INITIAL, next, whole, FRESH_REQUEST);
      CompletedHoldsLine(next, FRESH_REQUEST);
    } else if |fragments| != 1 {
      LineEndLeavesRequestLine(next, FRESH_REQUEST);
      if FindCrlf(next, 0) == NPOS {
        FreshReads(next, fragments[1..]);
      } else {
        LineIsLost(out.parser, next, fragments[1..]);
      }
    }
  }

  /** With a fresh request for every read, a completed request is what one call on the whole stream makes of
      it exactly when the read that brought the first line was also the one that completed it.  Otherwise its
      method, target, version, path and queries are those of a fresh request. */
  lemma FreshRequestPerRead(fragments: seq<string>)
    requires fragments != [] && FeedFresh(INITIAL, "", fragments).result == Complete
    ensures FeedFresh(INITIAL, "", fragments) == Run(INITIAL, Concat(fragments), FRESH_REQUEST)
       <==> Run(INITIAL, FirstLineRead("", fragments), FRESH_REQUEST).result == Complete
    ensures Run(INITIAL, FirstLineRead("", fragments), FRESH_REQUEST).result != Complete ==>
              SameLine(FeedFresh(INITIAL, "", fragments).request, FRESH_REQUEST)
  {
    hide Run, FeedFresh, FeedAll, FirstLineRead, SameLine, Consistent, Concat;
    InitialIsConsistent(FRESH_REQUEST);
    FeedsAgree(INITIAL, FRESH_REQUEST, "", fragments);
    FragmentedRunIsOneShot(INITIAL, FRESH_REQUEST, "", fragments);
    assert "" + Concat(fragments) == Concat(fragments);
    assert FindCrlf("", 0) == NPOS;
    FreshReads("", fragments);
  }

  // ----- by size -----

  /** Of a stream that completes a request, exactly the prefixes that hold all the bytes of the request do. */
  lemma CompleteIffAllBytes(d: string, e: string, r: Request)
    requires d <= e && Run(INITIAL, e, r).result == Complete
    ensures Run(INITIAL, d, r).result == Complete <==> Run(INITIAL, e, r).parser.consumed <= |d|
  {
    var n := Run(INITIAL, e, r).parser.consumed;
    OnlyConsumedBytesMatter(INITIAL, e, r);
    hide Run;
    if n <= |d| {
      assert e[..n] <= d;
      CompleteIsStable(INITIAL, e[..n], d, r);
    }
    if Run(INITIAL, d, r).result == Complete {
      CompleteIsStable(INITIAL, d, e, r);
      ConsumedFits(d, r);
    }
  }

  lemma ConsumedFits(d: string, r: Request)
    ensures Run(INITIAL, d, r).parser.consumed <= |d|
  {}

  lemma {:induction false} FirstLineReadIsPrefix(buffer: string, fragments: seq<string>)
    requires fragments != []
    ensures FirstLineRead(buffer, fragments) <= buffer + Concat(fragments)
    decreases |fragments|
  {
    hide FindCrlf;
    ConcatSplits(buffer, fragments);
    if |fragments| != 1 { FirstLineReadIsPrefix(buffer + fragments[0], fragments[1..]); }
  }

  /** A well-formed message, with anything after it, comes out right exactly when the first read that held a
      complete line already held the whole message. */
  lemma MessageSurvivesIff(m: Message, rest: string, fragments: seq<string>)
    requires WellFormed(m) && fragments != [] && Concat(fragments) == Encode(m) + rest
    requires FeedFresh(INITIAL, "", fragments).result == Complete
    ensures FeedFresh(INITIAL, "", fragments).request == RequestOf(m) <==> |Encode(m)| <= |FirstLineRead("", fragments)|
  {
    hide Run, FeedFresh, FirstLineRead, Encode, RequestOf, WellFormed, HasSlack, Concat, FindCrlf, SameLine;
    var e, first := Concat(fragments), FirstLineRead("", fragments);
    RequestRoundTrip(m, rest, FRESH_REQUEST);
    FirstLineReadIsPrefix("", fragments);
    assert "" + e == e;
    CompleteIffAllBytes(first, e, FRESH_REQUEST);
    FreshRequestPerRead(fragments);
    LostIsNotSent(FeedFresh(INITIAL, "", fragments).request, m);
  }

  lemma LostIsNotSent(q: Request, m: Message)
    requires WellFormed(m)
    ensures SameLine(q, FRESH_REQUEST) ==> q != RequestOf(m)
  {}

  /** For instance, every well-formed message that arrives in two reads, its request line in the first,
      is completed without its method, path and queries. */
  lemma HeadInFirstRead(m: Message)
    requires WellFormed(m)
    ensures
      var rest := EncodeFields(AllFields(m)) + CRLF + EncodePayload(m.payload);
      var fragments := [RequestLine(m) + CRLF, rest];
      && Concat(fragments) == Encode(m) && FeedFresh(INITIAL, "", fragments).result == Complete
      && SameLine(FeedFresh(INITIAL, "", fragments).request, FRESH_REQUEST)
      && FeedFresh(INITIAL, "", fragments).request != RequestOf(m)
  {
    hide Run, Encode, EncodeFields, EncodePayload, AllFields, RequestLine, RequestOf, ValidFields, ValidPayload, HasName,
         SendableLine, HasSlack;
    var first, rest := RequestLine(m) + CRLF, EncodeFields(AllFields(m)) + CRLF + EncodePayload(m.payload);
    RequestRoundTrip(m, "", FRESH_REQUEST);
    WholeMessage(m);
    FirstReadWaits(m);
    IncompleteResumes(INITIAL, first, Encode(m), FRESH_REQUEST);
    TwoReads(first, rest);
    FeedsAgreeOnTwo(first, rest);
    AcceptedMethodIsKnown(Encode(m), FRESH_REQUEST);
  }

  lemma WholeMessage(m: Message)
    ensures Encode(m) + "" == Encode(m)
    ensures Encode(m) == (RequestLine(m) + CRLF) + (EncodeFields(AllFields(m)) + CRLF + EncodePayload(m.payload))
  {
    EncodeParts(m, "");
    hide Encode, EncodeFields, EncodePayload, AllFields, RequestLine;
    assert EncodePayload(m.payload) + "" == EncodePayload(m.payload);
    assert Encode(m) + "" == Encode(m);
  }

  lemma FirstReadWaits(m: Message)
    requires SendableLine(m)
    ensures Run(INITIAL, RequestLine(m) + CRLF, FRESH_REQUEST).result == Incomplete
    ensures Run(INITIAL, RequestLine(m) + CRLF, FRESH_REQUEST).parser.state != AtRequestLine
  {
    hide Run, HasSlack, SendableLine, RequestLine, SameCall, StepHeaders, Started;
    var data := RequestLine(m) + CRLF;
    assert data + "" == data;
    RequestLineRead(data, m, FRESH_REQUEST, "");
    var p := INITIAL.(consumed := |RequestLine(m)| + 2, state := AtHeaders);
    StepAtHeaders(p, data, Started(m));
    NothingWaits(p, Started(m));
    LastStep(p, data, Started(m));
    SameCallResult(INITIAL, FRESH_REQUEST, p, Started(m), data);
  }

  lemma NothingWaits(p: Parser, r: Request)
    requires Valid(p) && p.state == AtHeaders
    ensures StepHeaders(p, "", r) == Stop(Incomplete, p, r)
  {}

  lemma TwoReads(first: string, rest: string)
    requires Run(INITIAL, first, FRESH_REQUEST).result == Incomplete
    requires Run(INITIAL, first, FRESH_REQUEST).parser.state != AtRequestLine
    ensures SameLine(FeedFresh(INITIAL, "", [first, rest]).request, FRESH_REQUEST)
    ensures Concat([first, rest]) == first + rest
  {
    hide Run, SameLine;
    TwoPieces(first, rest);
    assert "" + first == first && [first, rest][1..] == [rest];
    LineIsLost(Run(INITIAL, first, FRESH_REQUEST).parser, first, [rest]);
  }

  lemma FeedsAgreeOnTwo(first: string, rest: string)
    requires Run(INITIAL, first, FRESH_REQUEST).result == Incomplete
    requires Run(INITIAL, first + rest, FRESH_REQUEST).result == Complete
    ensures FeedFresh(INITIAL, "", [first, rest]).result == Complete
  {
    hide Run, Consistent;
    InitialIsConsistent(FRESH_REQUEST);
    FeedsAgree(INITIAL, FRESH_REQUEST, "", [first, rest]);
    IncompleteResumes(INITIAL, first, first + rest, FRESH_REQUEST);
    assert "" + first == first && [first, rest][1..] == [rest];
  }

  lemma CompletedHoldsLine(d: string, r: Request)
    requires Run(INITIAL, d, r).result == Complete
    ensures FindCrlf(d, 0) != NPOS
  {
    assert d[0..] == d;
    hide FindCrlf, ParseRequestLine;
  }
}
