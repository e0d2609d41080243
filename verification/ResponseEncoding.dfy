/** Serializing a response (src/http/HttpResponse.cpp:78-118), and reading its header block back. */
module ResponseEncoding {
  import opened ByteStrings
  import opened FieldEncoding
  import opened HttpHeaderList
  import opened HttpMessages
  import opened HttpUtils
  import opened ParserSpec

  function StatusLine(status: HttpStatus): string {
    "HTTP/1.1 " + ToDec(StatusCode(status)) + " " + ReasonPhrase(status)
  }

  /** The headers on the wire: the given ones, with one computed Content-Length in place of any other. */
  function SentFields(response: Response): seq<Header> {
    Without(response.headers, "Content-Length") + [Header("Content-Length", ToDec(|response.body|))]
  }

  /** What follows the status line. */
  function HeadersAndBody(response: Response): string {
    EncodeFields(SentFields(response)) + CRLF + response.body
  }

  lemma {:induction false} EncodeAppended(fields: seq<Header>, f: Header)
    ensures EncodeFields(fields + [f]) == EncodeFields(fields) + FieldLine(f) + CRLF
  {
    hide FieldLine;
    if fields == [] {
      assert [f][1..] == [];
      assert fields + [f] == [f];
      assert EncodeFields([f]) == FieldLine(f) + CRLF + "";
    } else {
      assert (fields + [f])[1..] == fields[1..] + [f];
      EncodeAppended(fields[1..], f);
      assert FieldLine(fields[0]) + CRLF + (EncodeFields(fields[1..]) + FieldLine(f) + CRLF)
          == (FieldLine(fields[0]) + CRLF + EncodeFields(fields[1..])) + FieldLine(f) + CRLF;
    }
  }

  lemma LineThenRest(before: string, f: Header, rest: seq<Header>)
    ensures before + EncodeFields([f] + rest) == (before + FieldLine(f) + CRLF) + EncodeFields(rest)
  {
    hide FieldLine;
    assert ([f] + rest)[1..] == rest;
    assert before + (FieldLine(f) + CRLF + EncodeFields(rest)) == (before + FieldLine(f) + CRLF) + EncodeFields(rest);
  }

  method Serialize(response: HttpResponse) returns (result: string)
    ensures result == StatusLine(response.View().status) + CRLF + HeadersAndBody(response.View())
  {
    hide EncodeFields, FieldLine, ReasonPhrase, StatusCode, ToDec;
    var status, fields, body := response.status, response.headers.headers, response.body;
    result := "HTTP/1.1 " + ToDec(StatusCode(status)) + " " + ReasonPhrase(status);
    result := result + CRLF;
    ghost var start := result;
    result := SerializeFields(result, fields);
    result := result + FieldLine(Header("Content-Length", ToDec(|body|))) + CRLF;
    EncodeAppended(Without(fields, "Content-Length"), Header("Content-Length", ToDec(|body|)));
    result := result + CRLF;
    result := result + body;
    assert result == start + (EncodeFields(SentFields(response.View())) + CRLF + body);
  }

  /** The header loop of `serialize`. */
  method SerializeFields(start: string, fields: seq<Header>) returns (result: string)
    ensures result == start + EncodeFields(Without(fields, "Content-Length"))
  {
    result := start;
    var i := 0;
    assert fields[0..] == fields;
    while i < |fields|
      invariant 0 <= i <= |fields|
      invariant result + EncodeFields(Without(fields[i..], "Content-Length"))
             == start + EncodeFields(Without(fields, "Content-Length"))
    {
      hide EncodeFields, FieldLine;
      var skip := EqualsIgnoreCase(fields[i].name, "Content-Length");
      assert fields[i..][1..] == fields[i + 1..];
      ghost var rest := Without(fields[i + 1..], "Content-Length");
      if skip {
        assert [] + rest == rest;
      } else {
        LineThenRest(result, fields[i], rest);
        result := result + FieldLine(fields[i]) + CRLF;
      }
      i := i + 1;
    }
    assert result + "" == result;
  }

  // ----- reading it back -----

  lemma LengthFieldValid(n: nat)
    ensures ValidField(Header("Content-Length", ToDec(n)))
  {
    hide ToDec;
    DigitsAreFieldText(ToDec(n));
    assert "Content" + "-" + "Length" == "Content-Length";
    AlphaNames("Content", "Length");
  }

  lemma SentFieldsFacts(response: Response)
    requires ValidFields(Without(response.headers, "Content-Length"))
    ensures ValidFields(SentFields(response))
    ensures LengthsAgree(SentFields(response), ToDec(|response.body|))
    ensures ValuesOf(SentFields(response), "Content-Length") == [ToDec(|response.body|)]
  {
    hide ToDec;
    var kept, length := Without(response.headers, "Content-Length"), Header("Content-Length", ToDec(|response.body|));
    LengthFieldValid(|response.body|);
    hide ValidField;
    forall i | 0 <= i < |kept + [length]| ensures ValidField((kept + [length])[i]) {
      assert (kept + [length])[i] == if i < |kept| then kept[i] else length;
    }
    WithoutHasNone(response.headers, "Content-Length");
    AppendedValues(kept, [length], "Content-Length");
    ValuesDecide(kept, "Content-Length");
    assert ValuesOf([length], "Content-Length") == [length.value] + ValuesOf([], "Content-Length");
    LengthsAppend(kept, [length], length.value);
  }

  /** The header block a response is serialized to, parsed: the original headers without any
      Content-Length, then exactly one, which gives the length of the body that follows. */
  lemma HeaderBlockRoundTrip(response: Response)
    requires ValidFields(Without(response.headers, "Content-Length"))
    requires |Without(response.headers, "Content-Length")| < MAX_HEADERS && |response.body| <= SIZE_MAX
    ensures
      var parsed := ParseHeaderLines(HeadersAndBody(response), 0, 0, FRESH_REQUEST);
      && parsed.0 == Complete && parsed.1 == WithHeaders(FRESH_REQUEST, Without(response.headers, "Content-Length")
                                                  + [Header("Content-Length", ToDec(|response.body|))])
      && parsed.2 + 2 <= |HeadersAndBody(response)| && HeadersAndBody(response)[parsed.2 + 2..] == response.body
    ensures ValuesOf(SentFields(response), "Content-Length") == [ToDec(|response.body|)]
    ensures ContentLengthOf(ToDec(|response.body|)) == Some(|response.body|)
  {
    hide ToDec, EncodeFields, ParseHeaderLines, Without, ValidFields, LengthsAgree;
    var data, fields := HeadersAndBody(response), SentFields(response);
    SentFieldsFacts(response);
    assert data[0..] == data;
    assert FRESH_REQUEST.headers + fields == fields;
    AgreedLengthsOk(fields, ToDec(|response.body|));
    FieldsReadBack(data, 0, 0, FRESH_REQUEST, fields, response.body);
    DecRoundTrip(|response.body|);
    assert data[|EncodeFields(fields)| + 2..] == response.body;
  }

  // ----- as text -----

  /** The code of every status, as text. */
  function CodeText(status: HttpStatus): string {
    match status
    case SwitchingProtocols => "101"
    case OK => "200" case Created => "201" case NoContent => "204"
    case BadRequest => "400" case Unauthorized => "401" case Forbidden => "403" case NotFound => "404"
    case MethodNotAllowed => "405" case TooManyRequests => "429"
    case InternalServerError => "500" case NotImplemented => "501" case ServiceUnavailable => "503"
  }

  /** The reason phrase of section 15 of RFC 9110; two statuses have none of their own here. */
  function PhraseText(status: HttpStatus): string {
    if status == OK then "OK" else if status == Created then "Created" else if status == NoContent then "No Content"
    else if status == BadRequest then "Bad Request" else if status == Unauthorized then "Unauthorized"
    else if status == Forbidden then "Forbidden" else if status == NotFound then "Not Found"
    else if status == MethodNotAllowed then "Method Not Allowed"
    else if status == InternalServerError then "Internal Server Error"
    else if status == NotImplemented then "Not Implemented"
    else if status == ServiceUnavailable then "Service Unavailable"
    else "Unknown"
  }

  function Digit(d: nat): char
    requires d < 10
  {
    (d + '0' as int) as char
  }

  lemma ThreeDigits(n: nat)
    requires 100 <= n < 1000
    ensures ToDec(n) == [Digit(n / 100), Digit(n / 10 % 10), Digit(n % 10)]
  {
    assert n / 10 / 10 == n / 100 < 10;
    assert ToDec(n / 100) == [Digit(n / 100)];
    assert ToDec(n / 10) == [Digit(n / 100)] + [Digit(n / 10 % 10)];
    assert ToDec(n) == ToDec(n / 10) + [Digit(n % 10)];
  }

  lemma CodeTextIs(status: HttpStatus)
    ensures ToDec(StatusCode(status)) == CodeText(status)
  {
    ThreeDigits(StatusCode(status));
    hide ToDec;
    var n, text := StatusCode(status), CodeText(status);
    assert |text| == 3 && text[0] == Digit(n / 100) && text[1] == Digit(n / 10 % 10) && text[2] == Digit(n % 10);
  }

  lemma StatusLineMeans(status: HttpStatus)
    ensures StatusLine(status) == "HTTP/1.1 " + CodeText(status) + " " + PhraseText(status)
  {
    CodeTextIs(status);
    hide ToDec, CodeText, StatusCode;
  }

  /** The response of tests/http/HttpResponseTests.cpp:36-48, as text. */
  lemma SerializesProperly()
    ensures
      var response := Response(Created, [Header("Content-Type", "text/plain")], "Hello World");
      StatusLine(response.status) + CRLF + HeadersAndBody(response)
      == "HTTP/1.1 201 Created\r\n" + "Content-Type: text/plain\r\n" + "Content-Length: 11\r\n\r\n" + "Hello World"
  {
    var f, g := Header("Content-Type", "text/plain"), Header("Content-Length", "11");
    var response := Response(Created, [f], "Hello World");
    StatusLineMeans(Created);
    assert "HTTP/1.1 " + "201" == "HTTP/1.1 201" && "HTTP/1.1 201" + " " == "HTTP/1.1 201 ";
    assert "HTTP/1.1 201 " + "Created" == "HTTP/1.1 201 Created";
    assert "HTTP/1.1 201 Created" + CRLF == "HTTP/1.1 201 Created\r\n";
    ExampleFields();
    TwoLines(f, g);
    hide EncodeFields, SentFields, FieldLine, StatusLine;
    assert "Content-Type: text/plain" + CRLF == "Content-Type: text/plain\r\n";
    assert "Content-Length: 11" + CRLF + CRLF == "Content-Length: 11\r\n\r\n";
    var a, b, c := "HTTP/1.1 201 Created\r\n", "Content-Type: text/plain\r\n", "Content-Length: 11" + CRLF;
    assert HeadersAndBody(response) == b + c + CRLF + "Hello World";
    Associates(a, b + c + CRLF, "Hello World");
    Associates(a, b + c, CRLF);
    Associates(a, b, c);
    Associates(a + b, c, CRLF);
  }

  lemma ExampleFields()
    ensures
      var f, g := Header("Content-Type", "text/plain"), Header("Content-Length", "11");
      && SentFields(Response(Created, [f], "Hello World")) == [f, g]
      && FieldLine(f) == "Content-Type: text/plain" && FieldLine(g) == "Content-Length: 11"
  {
    var f := Header("Content-Type", "text/plain");
    WithoutOne(f, "Content-Length");
    assert |"Content-Type"| == 12 && |"Content-Length"| == 14;
    assert ToDec(11) == ToDec(1) + ['1'] && ToDec(1) == ['1'];
    assert ToDec(11) == "11";
    hide ToDec, Without;
    assert |"Hello World"| == 11;
    assert "Content-Type" + ": " == "Content-Type: " && "Content-Length" + ": " == "Content-Length: ";
    assert "Content-Type: " + "text/plain" == "Content-Type: text/plain" && "Content-Length: " + "11" == "Content-Length: 11";
    var g := Header("Content-Length", "11");
    assert FieldLine(f) == "Content-Type" + ": " + "text/plain" && FieldLine(g) == "Content-Length" + ": " + "11";
    assert [f] + [g] == [f, g];
  }

  lemma TwoLines(f: Header, g: Header)
    ensures EncodeFields([f, g]) == FieldLine(f) + CRLF + (FieldLine(g) + CRLF)
  {
    assert [f, g][1..] == [g] && [g][1..] == [];
    assert EncodeFields([g]) == FieldLine(g) + CRLF + "";
    assert FieldLine(g) + CRLF + "" == FieldLine(g) + CRLF;
  }
}
