/** Inputs at which the parser does not do what one would expect of it. */
module Counterexamples {
  import opened ByteStrings
  import opened ChunkEncoding
  import opened FieldEncoding
  import opened Fragmentation
  import opened FreshRequests
  import opened HeadAcceptance
  import opened HttpHeaderList
  import opened HttpMessages
  import opened HttpUtils
  import opened ParserSpec
  import opened Pipelining
  import opened RequestEncoding

  const ONE_FIELD := [Header("a", "b")]

  lemma OneFieldIsValid()
    ensures ValidFields(ONE_FIELD) && EncodeFields(ONE_FIELD) == "a: b\r\n"
    ensures !HasName(ONE_FIELD, LENGTH) && !HasName(ONE_FIELD, CODING)
  {
    assert FieldLine(ONE_FIELD[0]) == "a: b";
    assert EncodeFields(ONE_FIELD) == "a: b" + CRLF + "";
  }

  function Get(path: string, fields: seq<Header>): Message { Message(GET, path, [], fields, NoBody, NO_FRAMING) }

  lemma SlashesAreSendable(n: nat, fields: seq<Header>)
    requires 0 < n <= 8179
    ensures SendableLine(Get(seq(n, i => '/'), fields)) && |RequestLine(Get(seq(n, i => '/'), fields))| == n + 13
  {}

  lemma GetIsWellFormed(n: nat)
    requires 0 < n <= 8179
    ensures WellFormed(Get(seq(n, i => '/'), ONE_FIELD))
  {
    SlashesAreSendable(n, ONE_FIELD);
    OneFieldIsValid();
    hide SendableLine, EncodeFields, ValidFields, HasName;
    assert ONE_FIELD + [] == ONE_FIELD;
  }

  /** A request line of 8192 bytes: accepted in one piece, and rejected when cut before its last byte. */
  const LONG := Get(seq(8179, i => '/'), ONE_FIELD)

  lemma LongLineLacksSlack(r: Request)
    ensures WellFormed(LONG) && !Roomy(LONG) && Run(INITIAL, Encode(LONG), r).result == Complete
    ensures !HasSlack(INITIAL, Encode(LONG), r)
  {
    GetIsWellFormed(8179);
    SlashesAreSendable(8179, ONE_FIELD);
    hide WellFormed, RequestLine, Encode, Run, HasSlack;
    RequestRoundTrip(LONG, "", r);
    assert Encode(LONG) + "" == Encode(LONG);
  }

  lemma LongLineIsCutApart(r: Request)
    ensures exists fragments: seq<string> ::
              fragments != [] && Concat(fragments) == Encode(LONG)
              && FeedAll(INITIAL, r, "", fragments) != Run(INITIAL, Encode(LONG), r)
  {
    hide Run, HasSlack, FeedAll, Concat, Encode, WellFormed, Roomy;
    LongLineLacksSlack(r);
    FragmentationIffSlack(Encode(LONG), r);
  }

  const SHORT := Get(seq(1, i => '/'), ONE_FIELD)

  /** With a fresh request per read, "GET / HTTP/1.1" in the first read is lost. */
  lemma ShortLineIsLost()
    ensures
      var fragments := [RequestLine(SHORT) + CRLF, "a: b\r\n\r\n"];
      var out := FeedFresh(INITIAL, "", fragments);
      && Concat(fragments) == Encode(SHORT) && out.result == Complete
      && out.request.method_ == UNKNOWN && out.request.path == "" && out.request.queries == map[]
      && RequestOf(SHORT).method_ == GET && RequestOf(SHORT).path == "/"
  {
    GetIsWellFormed(1);
    OneFieldIsValid();
    hide FeedFresh, Concat, Encode, RequestLine, WellFormed, EncodeFields;
    assert ONE_FIELD + [] == ONE_FIELD;
    assert "a: b\r\n" + CRLF + "" == "a: b\r\n\r\n";
    HeadInFirstRead(SHORT);
  }

  /** Two requests in a pipeline, the first without a header line: the second is never delivered. */
  lemma SecondRequestIsSwallowed()
    ensures
      var first := Get(seq(1, i => '/'), []);
      Pump(Holding(Encode(first) + Encode(SHORT))) == Delivery([RequestOf(first)], FRESH_SESSION)
  {
    var first := Get(seq(1, i => '/'), []);
    GetIsWellFormed(1);
    SlashesAreSendable(1, []);
    SlashesAreSendable(1, ONE_FIELD);
    OneFieldIsValid();
    hide Pump, Encode, RequestLine, WellFormed, EncodeFields, SendableLine, RequestOf;
    assert ONE_FIELD + [] == ONE_FIELD;
    NextIsLost(first, SHORT, "");
    assert Encode(SHORT) + "" == Encode(SHORT);
    NothingToPump();
    assert [RequestOf(first)] + [] == [RequestOf(first)];
  }

  // ----- empty values of the framing headers -----

  const POST_ROOT := Message(POST, seq(1, i => '/'), [], [], NoBody, NO_FRAMING)

  lemma PostIsSendable()
    ensures SendableLine(POST_ROOT)
  {}

  lemma NamesAreValid(value: string)
    requires IsFieldText(value) && IsTrimmed(value)
    ensures ValidField(Header(LENGTH, value)) && ValidField(Header(CODING, value))
    ensures !SameText(LENGTH, CODING) && !SameText(CODING, LENGTH) && SameText(LENGTH, LENGTH) && SameText(CODING, CODING)
  {
    FramingNamesAreTokens();
  }

  /** Two lengths that contradict each other, the first of them empty. */
  const TWO_LENGTHS := [Header(LENGTH, ""), Header(LENGTH, "5")]

  /** A list of fields, one field at a time. */
  lemma OneMore(f: Header, rest: seq<Header>, name: string)
    ensures |EncodeFields([f] + rest)| == |f.name| + |f.value| + 4 + |EncodeFields(rest)|
    ensures FirstValue([f] + rest, name) == if SameText(f.name, name) then f.value else FirstValue(rest, name)
    ensures ValuesOf([f] + rest, name) == (if SameText(f.name, name) then [f.value] else []) + ValuesOf(rest, name)
  {
    assert ([f] + rest)[1..] == rest;
  }

  lemma NoMore(name: string)
    ensures EncodeFields([]) == "" && FirstValue([], name) == "" && ValuesOf([], name) == []
  {}

  lemma TwoLengthsFit()
    ensures ValidFields(TWO_LENGTHS) && FieldsFit(TWO_LENGTHS) && FramingFits(TWO_LENGTHS)
    ensures FirstValue(TWO_LENGTHS, LENGTH) == "" && FirstValue(TWO_LENGTHS, CODING) == ""
    ensures !LengthsAgree(TWO_LENGTHS, "") && !LengthsAgree(TWO_LENGTHS, "5")
  {
    NamesAreValid("");
    NamesAreValid("5");
    hide SameText, ValidField, EncodeFields, FirstValue, ValuesOf;
    var a, b := Header(LENGTH, ""), Header(LENGTH, "5");
    NoMore(LENGTH);
    NoMore(CODING);
    OneMore(b, [], LENGTH);
    OneMore(b, [], CODING);
    OneMore(a, [b], LENGTH);
    OneMore(a, [b], CODING);
    assert [b] + [] == [b] && [a] + [b] == TWO_LENGTHS;
    assert TWO_LENGTHS[0] == a && TWO_LENGTHS[1] == b;
  }

  /** They are accepted, and the body is empty, whatever follows. */
  lemma ContradictingLengthsAccepted(rest: string, r: Request)
    ensures Delivers(INITIAL, r, HeadThen(POST_ROOT, TWO_LENGTHS, rest),
                     WithBody(WithHeaders(Started(POST_ROOT), TWO_LENGTHS), ""), |HeadThen(POST_ROOT, TWO_LENGTHS, "")|)
  {
    PostIsSendable();
    TwoLengthsFit();
    hide RequestLine, EncodeFields, Started, WithHeaders, WithBody, Framing, Step, SendableLine, ValidFields, FieldsFit,
         FramingFits, FirstValue, Run, Sound;
    var q := HeadRead(POST_ROOT, TWO_LENGTHS, rest, r);
    var p, s := INITIAL.(consumed := |RequestLine(POST_ROOT)| + 2, state := AtHeaders),
                WithHeaders(Started(POST_ROOT), TWO_LENGTHS);
    HeadersGiven(Started(POST_ROOT), TWO_LENGTHS);
    FramingGoesOn(q, s);
    LastStep(p, HeadThen(POST_ROOT, TWO_LENGTHS, rest), Started(POST_ROOT));
  }

  /** Both framings, the first coding empty: the body is framed by its length. */
  const BOTH := [Header(CODING, ""), Header(CODING, "chunked"), Header(LENGTH, "5")]

  lemma BothByName(name: string)
    requires name == LENGTH || name == CODING
    ensures FirstValue(BOTH, name) == if name == LENGTH then "5" else ""
    ensures ValuesOf(BOTH, name) == if name == LENGTH then ["5"] else ["", "chunked"]
    ensures |EncodeFields(BOTH)| == 68
  {
    NamesAreValid("");
    hide SameText, EncodeFields, FirstValue, ValuesOf;
    var a, b, c := Header(CODING, ""), Header(CODING, "chunked"), Header(LENGTH, "5");
    NoMore(name);
    OneMore(c, [], name);
    OneMore(b, [c], name);
    OneMore(a, [b, c], name);
    assert [c] + [] == [c] && [b] + [c] == [b, c] && [a] + [b, c] == BOTH;
  }

  lemma BothAreValid()
    ensures ValidFields(BOTH)
  {
    NamesAreValid("");
    NamesAreValid("5");
    FramingNamesAreTokens();
    NamesAreValid("chunked");
    hide ValidField;
  }

  lemma BothFit()
    ensures ValidFields(BOTH) && FieldsFit(BOTH) && FramingFits(BOTH) && HasName(BOTH, LENGTH) && HasName(BOTH, CODING)
    ensures FirstValue(BOTH, LENGTH) == "5" && FirstValue(BOTH, CODING) == "" && ContentLengthOf("5") == Some(5)
    ensures ValuesOf(BOTH, CODING) == ["", "chunked"]
  {
    BothAreValid();
    BothByName(LENGTH);
    BothByName(CODING);
    FiveIsFive();
    OnlyLength();
    ValuesDecide(BOTH, LENGTH);
    ValuesDecide(BOTH, CODING);
    hide SameText, ValidFields, EncodeFields, FirstValue, ValuesOf, ContentLengthOf, HasName, LengthsOk;
  }

  lemma OnlyLength()
    ensures LengthsOk(BOTH)
  {
    hide EncodeFields;
    AgreedLengthsOk(BOTH, "5");
  }

  lemma FiveIsFive()
    ensures ContentLengthOf("5") == Some(5)
  {
    assert "5"[..0] == "" && DecValue("5") == 5;
  }

  lemma BothFramingsAccepted(rest: string, r: Request)
    ensures Delivers(INITIAL, r, HeadThen(POST_ROOT, BOTH, "hello" + rest),
                     WithBody(WithHeaders(Started(POST_ROOT), BOTH), "hello"), |HeadThen(POST_ROOT, BOTH, "hello")|)
  {
    PostIsSendable();
    BothFit();
    hide RequestLine, EncodeFields, Started, WithHeaders, WithBody, Framing, Step, SendableLine, ValidFields, FieldsFit,
         FramingFits, FirstValue, HasName, ValuesOf, Run, Sound, HasSlack;
    var q := HeadRead(POST_ROOT, BOTH, "hello" + rest, r);
    var p, s := INITIAL.(consumed := |RequestLine(POST_ROOT)| + 2, state := AtHeaders), WithHeaders(Started(POST_ROOT), BOTH);
    HeadersGiven(Started(POST_ROOT), BOTH);
    FramingGoesOn(q, s);
    var data, body := HeadThen(POST_ROOT, BOTH, "hello" + rest), Framing(q, s).parser;
    OneStep(p, data, Started(POST_ROOT), body, s);
    SizedRead(body, data, s, "hello", rest);
    SameCallDelivers(p, Started(POST_ROOT), body, s, data, WithBody(s, "hello"), q.consumed + 5);
  }
}
