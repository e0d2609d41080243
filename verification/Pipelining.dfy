/** A connection that parses one request after another from a buffer that grows as bytes arrive
    (src/network/ClientConnection.cpp:89-99, parseRequest and consumeParsedRequest in turn). */
module Pipelining {
  import opened ByteStrings
  import opened ChunkEncoding
  import opened FieldEncoding
  import opened Fragmentation
  import opened HttpMessages
  import opened ParserSpec
  import opened RequestEncoding

  /** What a connection holds between two reads, and whether it gave up on a rejected request. */
  datatype Session = Session(parser: Parser, request: Request, buffer: string, failed: bool)

  /** The requests delivered by one read, and the session it leaves. */
  datatype Delivery = Delivery(requests: seq<Request>, session: Session)

  const FRESH_SESSION := Session(INITIAL, FRESH_REQUEST, "", false)

  predicate ValidSession(s: Session) {
    Valid(s.parser) && s.parser.consumed <= |s.buffer|
  }

  /** Parse, hand over the request, drop its bytes, reset the parser, and start again, until the
      buffer holds no further complete request. */
  function Pump(s: Session): (d: Delivery)
    requires ValidSession(s)
    ensures ValidSession(d.session)
    decreases |s.buffer|
  {
    var out := Run(s.parser, s.buffer, s.request);
    match out.result
    case Incomplete => Delivery([], s.(parser := out.parser, request := out.request))
    case Invalid => Delivery([], s.(parser := out.parser, request := out.request, failed := true))
    case Complete =>
      var more := Pump(Session(INITIAL, FRESH_REQUEST, s.buffer[out.parser.consumed..], s.failed));
      Delivery([out.request] + more.requests, more.session)
  }

  /** One read: the bytes are appended to the buffer, and the buffer is pumped. */
  function Read(s: Session, bytes: string): (d: Delivery)
    requires ValidSession(s)
    ensures ValidSession(d.session)
  {
    Pump(s.(buffer := s.buffer + bytes))
  }

  /** Reads in turn, as long as no request was rejected. */
  function ReadAll(s: Session, pieces: seq<string>): (d: Delivery)
    requires ValidSession(s)
    ensures ValidSession(d.session)
    decreases |pieces|
  {
    if pieces == [] || s.failed then Delivery([], s)
    else
      var first := Read(s, pieces[0]);
      var rest := ReadAll(first.session, pieces[1..]);
      Delivery(first.requests + rest.requests, rest.session)
  }

  // ----- cutting a read in two -----

  function AndThen(requests: seq<Request>, d: Delivery): Delivery {
    Delivery(requests + d.requests, d.session)
  }

  /** Reading `a` and then `b` delivers what reading `a + b` at once delivers, and leaves the same
      session. */
  lemma {:induction false} ReadsCompose(s: Session, b: string)
    requires ValidSession(s) && !s.failed && !Pump(s).session.failed
    ensures Pump(s.(buffer := s.buffer + b)) == AndThen(Pump(s).requests, Read(Pump(s).session, b))
    decreases |s.buffer|
  {
    hide Run;
    var whole := s.buffer + b;
    var out := Run(s.parser, s.buffer, s.request);
    if out.result == Incomplete {
      IncompleteResumes(s.parser, s.buffer, whole, s.request);
      PumpDependsOnRun(s.(buffer := whole), s.(parser := out.parser, request := out.request, buffer := whole));
    } else {
      CompleteIsStable(s.parser, s.buffer, whole, s.request);
      var next := Session(INITIAL, FRESH_REQUEST, s.buffer[out.parser.consumed..], s.failed);
      assert whole[out.parser.consumed..] == next.buffer + b;
      ReadsCompose(next, b);
      var more := Pump(next);
      assert [out.request] + (more.requests + Read(more.session, b).requests)
          == ([out.request] + more.requests) + Read(more.session, b).requests;
    }
  }

  lemma PumpDependsOnRun(s: Session, t: Session)
    requires ValidSession(s) && ValidSession(t) && s.buffer == t.buffer && s.failed == t.failed
    requires Run(s.parser, s.buffer, s.request) == Run(t.parser, t.buffer, t.request)
    ensures Pump(s) == Pump(t)
  {
    hide Run;
  }

  /** Pumping an already pumped session changes nothing. */
  lemma EmptyRead(s: Session)
    requires ValidSession(s) && !s.failed && !Pump(s).session.failed
    ensures Read(Pump(s).session, "") == Delivery([], Pump(s).session)
  {
    ReadsCompose(s, "");
    assert s.buffer + "" == s.buffer;
    var d := Pump(s);
    assert |d.requests| == |d.requests| + |Read(d.session, "").requests|;
  }

  /** More bytes never take back a request that was delivered. */
  lemma {:induction false} PumpPrefix(s: Session, b: string)
    requires ValidSession(s)
    ensures Pump(s).requests <= Pump(s.(buffer := s.buffer + b)).requests
    decreases |s.buffer|
  {
    hide Run;
    var whole := s.buffer + b;
    var out := Run(s.parser, s.buffer, s.request);
    if out.result == Complete {
      CompleteIsStable(s.parser, s.buffer, whole, s.request);
      var next := Session(INITIAL, FRESH_REQUEST, s.buffer[out.parser.consumed..], s.failed);
      assert whole[out.parser.consumed..] == next.buffer + b;
      PumpPrefix(next, b);
    }
  }

  /** However the bytes are cut into reads, what is delivered is a prefix of what a single read of all of them
      delivers; if the single read ends with a rejection, so does every cut; and a cut that ends without one
      delivers the same requests as the single read and leaves the same session. */
  lemma {:induction false} FragmentationInvisible(s: Session, pieces: seq<string>)
    requires ValidSession(s) && !s.failed && Pump(s) == Delivery([], s)
    ensures ReadAll(s, pieces).requests <= Read(s, Concat(pieces)).requests
    ensures Read(s, Concat(pieces)).session.failed ==> ReadAll(s, pieces).session.failed
    ensures !ReadAll(s, pieces).session.failed ==> ReadAll(s, pieces) == Read(s, Concat(pieces))
    decreases |pieces|
  {
    hide Pump;
    if pieces == [] {
      assert s.buffer + "" == s.buffer;
    } else {
      var t, first, rest := s.(buffer := s.buffer + pieces[0]), Read(s, pieces[0]), Concat(pieces[1..]);
      ConcatUnfolds(pieces);
      hide Concat;
      Associates(s.buffer, pieces[0], rest);
      if first.session.failed {
        PumpPrefix(t, rest);
        FailedReads(first.session, pieces[1..]);
        assert first.requests + [] == first.requests;
      } else {
        ReadsCompose(t, rest);
        EmptyRead(t);
        assert first.session.buffer + "" == first.session.buffer;
        FragmentationInvisible(first.session, pieces[1..]);
      }
    }
  }

  lemma FailedReads(s: Session, pieces: seq<string>)
    requires ValidSession(s) && s.failed
    ensures ReadAll(s, pieces) == Delivery([], s)
  {}

  lemma FailureLasts(s: Session, pieces: seq<string>)
    requires ValidSession(s)
    ensures s.failed ==> ReadAll(s, pieces).session.failed
  {}

  // ----- streams of well-formed requests -----

  function EncodeAll(messages: seq<Message>): string {
    if messages == [] then "" else Encode(messages[0]) + EncodeAll(messages[1..])
  }

  function RequestsOf(messages: seq<Message>): seq<Request> {
    if messages == [] then [] else [RequestOf(messages[0])] + RequestsOf(messages[1..])
  }

  predicate AllWellFormed(messages: seq<Message>) {
    forall i :: 0 <= i < |messages| ==> WellFormed(messages[i])
  }

  predicate AllRoomy(messages: seq<Message>) {
    forall i :: 0 <= i < |messages| ==> Roomy(messages[i])
  }

  function Holding(buffer: string): Session { FRESH_SESSION.(buffer := buffer) }

  lemma DeliveredPump(data: string, request: Request, consumed: nat)
    requires Delivers(INITIAL, FRESH_REQUEST, data, request, consumed)
    ensures consumed <= |data| && Pump(Holding(data)) == AndThen([request], Pump(Holding(data[consumed..])))
  {
    hide Run;
  }

  lemma FirstDelivered(m: Message, rest: string)
    requires WellFormed(m)
    ensures Pump(Holding(Encode(m) + rest)) == AndThen([RequestOf(m)], Pump(Holding(rest)))
  {
    hide Encode, RequestOf, WellFormed, Roomy, Run, Pump, HasSlack;
    RequestRoundTrip(m, rest, FRESH_REQUEST);
    DeliveredPump(Encode(m) + rest, RequestOf(m), |Encode(m)|);
    assert (Encode(m) + rest)[|Encode(m)|..] == rest;
  }

  /** A pipeline is taken apart exactly: its requests in order, and the bytes after them untouched. */
  lemma {:induction false} PipelineSeparates(messages: seq<Message>, rest: string)
    requires AllWellFormed(messages)
    ensures Pump(Holding(EncodeAll(messages) + rest)) == AndThen(RequestsOf(messages), Pump(Holding(rest)))
    decreases |messages|
  {
    hide Pump, WellFormed, Encode, RequestOf;
    if messages == [] {
      assert EncodeAll(messages) + rest == rest;
    } else {
      var more := EncodeAll(messages[1..]) + rest;
      assert EncodeAll(messages) + rest == Encode(messages[0]) + more;
      FirstDelivered(messages[0], more);
      PipelineSeparates(messages[1..], rest);
      var d := Pump(Holding(rest));
      assert [RequestOf(messages[0])] + (RequestsOf(messages[1..]) + d.requests)
          == ([RequestOf(messages[0])] + RequestsOf(messages[1..])) + d.requests;
    }
  }

  lemma NothingToPump()
    ensures Pump(FRESH_SESSION) == Delivery([], FRESH_SESSION)
  {
    EmptyBufferWaits(FRESH_REQUEST);
  }

  /** No prefix of a roomy stream is rejected. */
  lemma {:induction false} PrefixNeverFails(messages: seq<Message>, d: string)
    requires AllWellFormed(messages) && AllRoomy(messages) && d <= EncodeAll(messages)
    ensures !Pump(Holding(d)).session.failed
    decreases |messages|
  {
    hide WellFormed, Roomy, Encode, RequestOf, HasSlack;
    if messages == [] {
      NothingToPump();
    } else {
      var m, rest := messages[0], EncodeAll(messages[1..]);
      var whole := Encode(m) + rest;
      RequestRoundTrip(m, rest, FRESH_REQUEST);
      SlackAcceptsPrefixes(INITIAL, d, whole, FRESH_REQUEST);
      if Run(INITIAL, d, FRESH_REQUEST).result == Complete {
        CompleteIsStable(INITIAL, d, whole, FRESH_REQUEST);
        hide Run;
        var n := |Encode(m)|;
        assert whole[n..] == rest && d[n..] <= whole[n..];
        PrefixNeverFails(messages[1..], d[n..]);
      }
    }
  }

  lemma {:induction false} RoomyReadsNeverFail(messages: seq<Message>, d: string, pieces: seq<string>)
    requires AllWellFormed(messages) && AllRoomy(messages) && d + Concat(pieces) <= EncodeAll(messages)
    ensures !ReadAll(Pump(Holding(d)).session, pieces).session.failed
    decreases |pieces|
  {
    hide Pump, AllWellFormed, AllRoomy, EncodeAll;
    assert d <= d + Concat(pieces);
    PrefixNeverFails(messages, d);
    if pieces != [] {
      assert d + Concat(pieces) == (d + pieces[0]) + Concat(pieces[1..]);
      ReadsCompose(Holding(d), pieces[0]);
      RoomyReadsNeverFail(messages, d + pieces[0], pieces[1..]);
    }
  }

  /** Any pipeline of well-formed, roomy requests, cut into reads in any way, is delivered exactly
      and in order, and leaves the connection as it was before the first byte. */
  lemma PipelineDelivered(messages: seq<Message>, pieces: seq<string>)
    requires AllWellFormed(messages) && AllRoomy(messages) && Concat(pieces) == EncodeAll(messages)
    ensures ReadAll(FRESH_SESSION, pieces) == Delivery(RequestsOf(messages), FRESH_SESSION)
  {
    hide Pump, AllWellFormed, AllRoomy, EncodeAll, RequestsOf;
    NothingToPump();
    assert "" + Concat(pieces) == EncodeAll(messages) + "" == Concat(pieces);
    RoomyReadsNeverFail(messages, "", pieces);
    FragmentationInvisible(FRESH_SESSION, pieces);
    PipelineSeparates(messages, "");
    assert RequestsOf(messages) + [] == RequestsOf(messages);
  }

  // ----- streams that do not survive -----

  /** A message without a header line is delivered, but the head of the next one goes with it: the parser
      starts again in the middle of that message, at its payload. */
  lemma HeaderlessSwallows(m: Message, next: Message, rest: string)
    requires SendableLine(m) && AllFields(m) == [] && WellFormed(next)
    requires |RequestLine(next)| + 2 + |EncodeFields(AllFields(next))| <= MAX_HEADER_SIZE
    ensures Pump(Holding(Encode(m) + (Encode(next) + rest)))
         == AndThen([RequestOf(m)], Pump(Holding(EncodePayload(next.payload) + rest)))
  {
    hide Encode, RequestOf, WellFormed, SendableLine, RequestLine, AllFields, EncodeFields, EncodePayload, Delivers, Pump;
    SwallowsNextHead(m, next, rest, FRESH_REQUEST);
    DeliveredPump(Encode(m) + (Encode(next) + rest), RequestOf(m),
                  |Encode(m)| + |RequestLine(next)| + 2 + |EncodeFields(AllFields(next))| + 2);
  }

  /** So a message without a body, sent after it, is never delivered. */
  lemma NextIsLost(m: Message, next: Message, rest: string)
    requires SendableLine(m) && AllFields(m) == [] && WellFormed(next) && next.payload == NoBody
    requires |RequestLine(next)| + 2 + |EncodeFields(AllFields(next))| <= MAX_HEADER_SIZE
    ensures Pump(Holding(Encode(m) + (Encode(next) + rest))) == AndThen([RequestOf(m)], Pump(Holding(rest)))
  {
    hide Pump, Encode, RequestOf, WellFormed, SendableLine, RequestLine, AllFields, EncodeFields;
    HeaderlessSwallows(m, next, rest);
    assert EncodePayload(next.payload) + rest == rest;
  }

  lemma RejectedPump(d: string)
    requires Run(INITIAL, d, FRESH_REQUEST).result == Invalid
    ensures Pump(Holding(d)).session.failed
  {
    hide Run;
  }

  lemma SplitAllWellFormed(messages: seq<Message>, k: nat)
    requires AllWellFormed(messages) && k < |messages|
    ensures AllWellFormed(messages[..k]) && WellFormed(messages[k])
    ensures EncodeAll(messages) == EncodeAll(messages[..k]) + (Encode(messages[k]) + EncodeAll(messages[k + 1..]))
    decreases k
  {
    hide Encode, WellFormed;
    if k == 0 {
      assert messages[..0] == [];
      assert "" + (Encode(messages[0]) + EncodeAll(messages[1..])) == Encode(messages[0]) + EncodeAll(messages[1..]);
    } else {
      var more := messages[1..];
      SplitAllWellFormed(more, k - 1);
      assert messages[..k][1..] == more[..k - 1] && more[k - 1] == messages[k] && more[k..] == messages[k + 1..];
      Associates(Encode(messages[0]), EncodeAll(more[..k - 1]), Encode(messages[k]) + EncodeAll(messages[k + 1..]));
    }
  }

  /** Without slack in its `k`th message, the stream has a prefix at which the connection gives up. */
  lemma UnroomyPrefixFails(messages: seq<Message>, k: nat) returns (d: string)
    requires AllWellFormed(messages) && k < |messages| && !Roomy(messages[k])
    ensures d <= EncodeAll(messages) && Pump(Holding(d)).session.failed
  {
    hide Encode, EncodeAll, Roomy, WellFormed, Pump, RequestsOf, Run, HasSlack;
    SplitAllWellFormed(messages, k);
    var before, whole := EncodeAll(messages[..k]), Encode(messages[k]) + EncodeAll(messages[k + 1..]);
    RequestRoundTrip(messages[k], EncodeAll(messages[k + 1..]), FRESH_REQUEST);
    assert Run(INITIAL, whole, FRESH_REQUEST).result == Complete;
    var cut := WithoutSlack(INITIAL, whole, FRESH_REQUEST);
    d := before + cut;
    PipelineSeparates(messages[..k], cut);
    RejectedPump(cut);
    assert whole == cut + whole[|cut|..];
    assert before + whole == d + whole[|cut|..];
  }

  lemma CutAt(d: string, t: string)
    requires Pump(Holding(d)).session.failed
    ensures ReadAll(FRESH_SESSION, [d, t]).session.failed
  {
    hide Pump;
    assert "" + d == d;
    assert [d, t][1..] == [t];
    FailureLasts(Pump(Holding(d)).session, [t]);
  }

  predicate SurvivesCuts(messages: seq<Message>, pieces: seq<string>) {
    Concat(pieces) == EncodeAll(messages) ==>
      ReadAll(FRESH_SESSION, pieces) == Delivery(RequestsOf(messages), FRESH_SESSION)
  }

  /** A pipeline of well-formed messages survives every cut into reads if and only if all of them are roomy. */
  lemma PipelineIffRoomy(messages: seq<Message>)
    requires AllWellFormed(messages)
    ensures AllRoomy(messages) <==> forall pieces :: SurvivesCuts(messages, pieces)
  {
    hide AllWellFormed, EncodeAll, Roomy, Pump, ReadAll, RequestsOf;
    if AllRoomy(messages) {
      forall pieces: seq<string> ensures SurvivesCuts(messages, pieces) {
        if Concat(pieces) == EncodeAll(messages) { PipelineDelivered(messages, pieces); }
      }
    } else {
      var k :| 0 <= k < |messages| && !Roomy(messages[k]);
      var d := UnroomyPrefixFails(messages, k);
      var t := EncodeAll(messages)[|d|..];
      TwoPieces(d, t);
      CutAt(d, t);
      assert !SurvivesCuts(messages, [d, t]);
    }
  }
}
