/** Which header lists the parser accepts after a valid request line (src/http/HttpParser.cpp:95-189,
    480-538), and when a request that names both framings is among them. */
module HeadAcceptance {
  import opened Acceptance
  import opened ByteStrings
  import opened ChunkEncoding
  import opened FieldEncoding
  import opened Fragmentation
  import opened HttpHeaderList
  import opened HttpMessages
  import opened HttpUtils
  import opened ParserSpec
  import opened RequestEncoding

  const LENGTH := "Content-Length"
  const CODING := "Transfer-Encoding"

  predicate IsChunked(coding: string) { SameText(Trimmed(coding), "chunked") }

  predicate IsBodySize(length: string) {
    ContentLengthOf(length).Some? && ContentLengthOf(length).value <= MAX_BODY_SIZE
  }

  /** Not both framings by their first values, and the one there is can be carried out. */
  predicate FramingFits(fields: seq<Header>) {
    var length, coding := FirstValue(fields, LENGTH), FirstValue(fields, CODING);
    && (length == "" || coding == "")
    && (coding != "" ==> IsChunked(coding))
    && (length != "" ==> IsBodySize(length))
  }

  /** The request line of a message, these fields, and what follows them. */
  function HeadThen(m: Message, fields: seq<Header>, rest: string): string {
    RequestLine(m) + CRLF + (EncodeFields(fields) + CRLF + rest)
  }

  predicate Accepts(m: Message, fields: seq<Header>, r: Request, rest: string) {
    Run(INITIAL, HeadThen(m, fields, rest), r).result == Complete
  }

  /** A call on such a stream is a call that starts at the framing. */
  lemma HeadRead(m: Message, fields: seq<Header>, rest: string, r: Request) returns (q: Parser)
    requires SendableLine(m) && ValidFields(fields) && fields != []
    ensures
      var data, p := HeadThen(m, fields, rest), INITIAL.(consumed := |RequestLine(m)| + 2, state := AtHeaders);
      && q == p.(consumed := p.consumed + |EncodeFields(fields)| + 2)
      && q.consumed <= |data| && data[q.consumed..] == rest
      && Run(INITIAL, data, r) == Run(p, data, Started(m))
      && (FieldsFit(fields) ==> Step(p, data, Started(m)) == Framing(q, WithHeaders(Started(m), fields)))
      && (!FieldsFit(fields) ==> Rejected(Step(p, data, Started(m))))
  {
    hide Run, HasSlack, SameCall, RequestLine, EncodeFields, Started, WithHeaders, Framing, Step, StepHasSlack, SendableLine,
         ValidFields, FieldsFit, Sound;
    var data, p := HeadThen(m, fields, rest), INITIAL.(consumed := |RequestLine(m)| + 2, state := AtHeaders);
    q := p.(consumed := p.consumed + |EncodeFields(fields)| + 2);
    RequestLineRead(data, m, r, EncodeFields(fields) + CRLF + rest);
    HeadersRead(p, data, m, fields, rest);
    SameCallResult(INITIAL, r, p, Started(m), data);
  }

  lemma FramingRejects(q: Parser, s: Request)
    requires !FramingFits(s.headers)
    ensures Rejected(Framing(q, s))
  {
    hide FirstValue, ContentLengthOf, TrimLeft, TrimRight, SameText;
  }

  /** What a stream with fitting fields does after its header block. */
  lemma FramingGoesOn(q: Parser, s: Request)
    requires FramingFits(s.headers) && 0 < q.consumed
    ensures
      var length, coding, o := FirstValue(s.headers, LENGTH), FirstValue(s.headers, CODING), Framing(q, s);
      if coding != "" then
        o == Continue(q.(body := "", chunkSize := 0, chunkBytesRead := 0, state := AtChunkSize), s)
      else if length == "" || ContentLengthOf(length).value == 0 then
        o == Stop(Complete, q.(bodySize := 0, state := AtComplete), WithBody(s, ""))
      else o == Continue(q.(bodySize := ContentLengthOf(length).value, state := AtBody), s)
  {
    hide FirstValue, ContentLengthOf, TrimLeft, TrimRight, SameText;
  }

  /** A body that fits the framing. */
  function BodyFor(fields: seq<Header>): string {
    var length, coding := FirstValue(fields, LENGTH), FirstValue(fields, CODING);
    if coding != "" then EncodeLast("0", "")
    else if IsBodySize(length) then seq(ContentLengthOf(length).value, i => 'x')
    else ""
  }

  lemma NoLast()
    ensures IsChunkLine("0", 0) && ValidTrailers("") && EncodeLast("0", "") + "" == EncodeLast("0", "")
  {
    assert ToHex(0) + "" == "0";
    ShortestChunkLine(0, "");
  }

  lemma BodyCompletes(q: Parser, data: string, s: Request)
    requires FramingFits(s.headers) && 0 < q.consumed <= |data| && data[q.consumed..] == BodyFor(s.headers)
    ensures
      var o := Framing(q, s);
      Valid(o.parser) && if o.Continue? then Run(o.parser, data, o.request).result == Complete else o.result == Complete
  {
    FramingGoesOn(q, s);
    hide Framing, FirstValue, ContentLengthOf, Run, HasSlack, IsChunkLine, ValidTrailers, EncodeLast, IsChunked;
    var length, coding, o := FirstValue(s.headers, LENGTH), FirstValue(s.headers, CODING), Framing(q, s);
    if coding != "" {
      NoLast();
      LastRead(o.parser, data, s, "0", "", "");
    } else if o.Continue? {
      var bytes := BodyFor(s.headers);
      assert bytes + "" == bytes;
      SizedRead(o.parser, data, s, bytes, "");
    }
  }

  lemma AfterStep(p: Parser, data: string, r: Request)
    requires Valid(p)
    ensures Rejected(Step(p, data, r)) ==> Run(p, data, r).result == Invalid
    ensures var o := Step(p, data, r);
            Run(p, data, r).result == if o.Continue? then Run(o.parser, data, o.request).result else o.result
  {
    hide Step;
  }

  lemma HeadCompletes(m: Message, fields: seq<Header>, r: Request)
    requires SendableLine(m) && ValidFields(fields) && fields != [] && FieldsFit(fields) && FramingFits(fields)
    ensures Accepts(m, fields, r, BodyFor(fields))
  {
    hide Run, Step, Framing, RequestLine, EncodeFields, Started, SendableLine, ValidFields, FieldsFit, FramingFits, HeadThen,
         WithHeaders, BodyFor, Sound;
    var p, s := INITIAL.(consumed := |RequestLine(m)| + 2, state := AtHeaders), WithHeaders(Started(m), fields);
    var data := HeadThen(m, fields, BodyFor(fields));
    var q := HeadRead(m, fields, BodyFor(fields), r);
    HeadersGiven(Started(m), fields);
    BodyCompletes(q, data, s);
    AfterStep(p, data, Started(m));
  }

  lemma BareHead(m: Message) returns (bare: Message)
    requires SendableLine(m)
    ensures SendableLine(bare) && AllFields(bare) == [] && HeadThen(m, [], CRLF) == Encode(bare) + CRLF
  {
    bare := m.(fields := [], payload := NoBody);
    SameRequestLine(m, bare);
    assert Target(bare) == Target(m);
    EncodeWithoutFields(bare, CRLF);
    hide RequestLine, Encode;
    assert "" + CRLF + CRLF == CRLF + CRLF;
  }

  lemma TwoLineEnds()
    ensures FindBlankLine(CRLF + CRLF, 0) == 0
  {
    assert BlankLineAt(CRLF + CRLF, 0);
  }

  /** Without header lines, the message ends at the next empty line; an empty line may follow at once. */
  lemma NoFieldsComplete(m: Message, r: Request)
    requires SendableLine(m)
    ensures Accepts(m, [], r, CRLF)
  {
    hide Run, SendableLine, Delivers, HeadThen, AllFields, Encode, FindBlankLine, RequestOf;
    var bare := BareHead(m);
    TwoLineEnds();
    NoHeaderRead(bare, CRLF, r);
    DeliversCompletes(Encode(bare) + CRLF, r, RequestOf(bare), |Encode(bare)| + 2);
  }

  lemma SameRequestLine(m: Message, n: Message)
    requires n.method_ == m.method_ && n.path == m.path && n.query == m.query
    ensures RequestLine(n) == RequestLine(m)
  {}

  lemma DeliversCompletes(data: string, r: Request, request: Request, consumed: nat)
    requires Delivers(INITIAL, r, data, request, consumed)
    ensures Run(INITIAL, data, r).result == Complete
  {}

  lemma NoFieldsFit()
    ensures FieldsFit([]) && FramingFits([])
  {}

  /** Fields that do not fit get the request rejected, whatever follows. */
  lemma HeadRejected(m: Message, fields: seq<Header>, r: Request, rest: string)
    requires SendableLine(m) && ValidFields(fields) && !(FieldsFit(fields) && FramingFits(fields))
    ensures Run(INITIAL, HeadThen(m, fields, rest), r).result == Invalid && !Accepts(m, fields, r, rest)
  {
    NoFieldsFit();
    hide Run, Step, Framing, RequestLine, EncodeFields, Started, SendableLine, ValidFields, FieldsFit, FramingFits, HeadThen,
         WithHeaders, Sound;
    var p, s := INITIAL.(consumed := |RequestLine(m)| + 2, state := AtHeaders), WithHeaders(Started(m), fields);
    var q := HeadRead(m, fields, rest, r);
    HeadersGiven(Started(m), fields);
    if !FramingFits(fields) { FramingRejects(q, s); }
    AfterStep(p, HeadThen(m, fields, rest), Started(m));
  }

  /** Some bytes after the head complete the request if and only if the fields get through the header loop,
      and the first Content-Length and the first Transfer-Encoding are not both there and can be carried out. */
  lemma HeadAcceptedIff(m: Message, fields: seq<Header>, r: Request)
    requires SendableLine(m) && ValidFields(fields)
    ensures (exists rest :: Accepts(m, fields, r, rest)) <==> FieldsFit(fields) && FramingFits(fields)
  {
    NoFieldsFit();
    hide SendableLine, ValidFields, FieldsFit, FramingFits, Accepts, BodyFor;
    if fields == [] {
      NoFieldsComplete(m, r);
    } else if FieldsFit(fields) && FramingFits(fields) {
      HeadCompletes(m, fields, r);
    } else {
      forall rest ensures !Accepts(m, fields, r, rest) {
        HeadRejected(m, fields, r, rest);
      }
    }
  }

  // ----- by the values of the two names -----

  predicate AllAre(values: seq<string>, v: string) { forall i :: 0 <= i < |values| ==> values[i] == v }

  lemma AllAreCons(value: string, rest: seq<string>, v: string)
    ensures AllAre([value] + rest, v) <==> value == v && AllAre(rest, v)
  {
    var values := [value] + rest;
    assert forall i :: 0 <= i < |rest| ==> rest[i] == values[i + 1];
    assert values[0] == value;
  }

  lemma LengthsAgreeCons(f: Header, rest: seq<Header>, v: string)
    ensures LengthsAgree([f] + rest, v) <==> LengthsAgree(rest, v) && (SameText(f.name, LENGTH) ==> f.value == v)
  {
    hide SameText;
    var fields := [f] + rest;
    assert fields[0] == f && forall i :: 0 <= i < |rest| ==> rest[i] == fields[i + 1];
  }

  lemma {:induction false} LengthsAgreeIff(fields: seq<Header>, v: string)
    ensures LengthsAgree(fields, v) <==> AllAre(ValuesOf(fields, LENGTH), v)
  {
    hide AllAre, LengthsAgree, SameText;
    if fields == [] {
      NoneDisagree(v);
    } else {
      var first, rest := fields[0], ValuesOf(fields[1..], LENGTH);
      LengthsAgreeIff(fields[1..], v);
      assert fields == [first] + fields[1..];
      LengthsAgreeCons(first, fields[1..], v);
      AllAreCons(first.value, rest, v);
      assert [] + rest == rest;
    }
  }

  lemma NoneDisagree(v: string)
    ensures LengthsAgree([], v) && AllAre([], v)
  {}

  predicate AllEqual(values: seq<string>) { values != [] ==> AllAre(values, values[0]) }

  /** A request that names both framings is accepted, with some body, exactly when the first value of one of
      them is empty and the other is empty too or can be carried out: chunked, or lengths that agree. */
  lemma BothFramingsIff(m: Message, fields: seq<Header>, r: Request)
    requires SendableLine(m) && ValidFields(fields)
    requires |fields| <= MAX_HEADERS && |EncodeFields(fields)| <= MAX_HEADER_SIZE + 2
    requires HasName(fields, LENGTH) && HasName(fields, CODING)
    ensures
      var lengths, codings := ValuesOf(fields, LENGTH), ValuesOf(fields, CODING);
      && lengths != [] && codings != []
      && ((exists rest :: Accepts(m, fields, r, rest)) <==>
            || (lengths[0] == "" && (codings[0] == "" || IsChunked(codings[0])))
            || (codings[0] == "" && AllEqual(lengths) && IsBodySize(lengths[0])))
  {
    hide Accepts, IsChunked, SendableLine, ValidFields, EncodeFields, ContentLengthOf;
    ValuesDecide(fields, LENGTH);
    ValuesDecide(fields, CODING);
    LengthsAgreeIff(fields, FirstValue(fields, LENGTH));
    hide ValuesOf, FirstValue, LengthsAgree;
    EmptyIsNoSize();
    HeadAcceptedIff(m, fields, r);
  }

  lemma EmptyIsNoSize()
    ensures !IsBodySize("")
  {}

  /** An accepted request by the values of the two names: if both occur, the first value of one of them is
      empty; and if the first length is not empty, all are equal to it and it is that of the body.  So among
      requests without empty values for these names the framing is single. */
  predicate SinglyFramed(q: Request) {
    var lengths, codings := ValuesOf(q.headers, LENGTH), ValuesOf(q.headers, CODING);
    && (lengths != [] && codings != [] ==> lengths[0] == "" || codings[0] == "")
    && (lengths != [] && lengths[0] != "" ==> AllEqual(lengths) && ContentLengthOf(lengths[0]) == Some(|q.body|))
    && (codings != [] && codings[0] != "" ==> IsChunked(codings[0]))
    && ("" !in lengths && "" !in codings ==> !HasName(q.headers, LENGTH) || !HasName(q.headers, CODING))
    && (lengths == [] && codings == [] ==> q.body == "")
  }

  lemma AcceptedIsSinglyFramed(q: Request)
    requires HeadAccepted(q) && BodyFramed(q)
    ensures SinglyFramed(q)
  {
    hide LineAccepted, ContentLengthOf, TrimLeft, TrimRight;
    ValuesDecide(q.headers, LENGTH);
    ValuesDecide(q.headers, CODING);
    LengthsAgreeIff(q.headers, FirstValue(q.headers, LENGTH));
    hide ValuesOf, FirstValue, LengthsAgree, HasName;
    var lengths, codings := ValuesOf(q.headers, LENGTH), ValuesOf(q.headers, CODING);
    assert lengths != [] ==> lengths[0] in lengths;
    assert codings != [] ==> codings[0] in codings;
  }

  /** Whatever the bytes and however they are cut, a completed request is framed as `SinglyFramed` says. */
  lemma CompletedIsSinglyFramed(r: Request, fragments: seq<string>)
    requires fragments != [] && FeedAll(INITIAL, r, "", fragments).result == Complete
    ensures SinglyFramed(FeedAll(INITIAL, r, "", fragments).request)
  {
    hide FeedAll, HeadAccepted, BodyFramed, SinglyFramed;
    CompletedRequestIsAccepted(r, fragments);
    AcceptedIsSinglyFramed(FeedAll(INITIAL, r, "", fragments).request);
  }
}
