/** Request and response objects (src/http/HttpRequest.cpp, src/http/HttpResponse.cpp), with the
    values they hold. */
module HttpMessages {
  import opened ByteStrings
  import opened HttpHeaderList
  import opened HttpUtils

  /** The value of an `HttpRequest`. */
  datatype Request = Request(
    method_: HttpMethod, target: string, version: string, path: string,
    headers: seq<Header>, body: string,
    queries: map<string, string>, params: map<string, string>)

  const FRESH_REQUEST := Request(UNKNOWN, "", "", "", [], "", map[], map[])

  function WithBody(r: Request, text: string): Request { r.(body := text) }

  function WithHeaders(r: Request, fields: seq<Header>): Request { r.(headers := fields) }

  function WithParams(r: Request, params: map<string, string>): Request { r.(params := params) }

  /** `std::unordered_map::emplace`: a key that is present keeps its value. */
  function Emplace(m: map<string, string>, key: string, value: string): map<string, string> {
    if key in m then m else m[key := value]
  }

  class HttpRequest {
    var method_: HttpMethod
    var target: string
    var version: string
    var path: string
    const headers: HttpHeaders
    var body: string
    var queries: map<string, string>
    var params: map<string, string>

    ghost function View(): Request
      reads this, headers
    {
      Request(method_, target, version, path, headers.headers, body, queries, params)
    }

    constructor ()
      ensures View() == Request(UNKNOWN, "", "", "", [], "", map[], map[]) == FRESH_REQUEST && fresh(headers)
    {
      method_, target, version, path := UNKNOWN, "", "", "";
      headers := new HttpHeaders();
      body, queries, params := "", map[], map[];
    }

    /** Copy assignment. */
    method Assign(value: Request)
      modifies this, headers
      ensures View() == value
    {
      method_, target, version, path := value.method_, value.target, value.version, value.path;
      headers.headers := value.headers;
      body, queries, params := value.body, value.queries, value.params;
    }

    method Snapshot() returns (value: Request)
      ensures value == View()
    {
      value := Request(method_, target, version, path, headers.headers, body, queries, params);
    }

    method AddHeader(name: string, value: string)
      modifies headers
      ensures View() == old(View()).(headers := old(View()).headers + [Header(name, value)])
    {
      headers.Add(name, value);
    }

    method GetHeader(name: string) returns (value: string)
      ensures value == FirstValue(View().headers, name)
    {
      value := headers.Get(name);
    }

    method SetBody(text: string)
      modifies this
      ensures View() == old(View()).(body := text)
    {
      body := text;
    }

    method SetPath(text: string)
      modifies this
      ensures View() == old(View()).(path := text)
    {
      path := text;
    }

    method AddQuery(key: string, value: string)
      modifies this
      ensures View() == old(View()).(queries := Emplace(old(View()).queries, key, value))
    {
      if key !in queries { queries := queries[key := value]; }
    }

    method SetParam(key: string, value: string)
      modifies this
      ensures View() == old(View()).(params := old(View()).params[key := value])
    {
      params := params[key := value];
    }
  }

  // ----- responses -----

  datatype HttpStatus =
    | SwitchingProtocols | OK | Created | NoContent | BadRequest | Unauthorized | Forbidden | NotFound
    | MethodNotAllowed | TooManyRequests | InternalServerError | NotImplemented | ServiceUnavailable

  function StatusCode(status: HttpStatus): nat {
    match status
    case SwitchingProtocols => 101
    case OK => 200 case Created => 201 case NoContent => 204
    case BadRequest => 400 case Unauthorized => 401 case Forbidden => 403 case NotFound => 404
    case MethodNotAllowed => 405 case TooManyRequests => 429
    case InternalServerError => 500 case NotImplemented => 501 case ServiceUnavailable => 503
  }

  function ReasonPhrase(status: HttpStatus): string {
    match status
    case OK => "OK"
    case Created => "Created"
    case NoContent => "No Content"
    case BadRequest => "Bad Request"
    case Unauthorized => "Unauthorized"
    case Forbidden => "Forbidden"
    case NotFound => "Not Found"
    case MethodNotAllowed => "Method Not Allowed"
    case InternalServerError => "Internal Server Error"
    case NotImplemented => "Not Implemented"
    case ServiceUnavailable => "Service Unavailable"
    case _ => "Unknown"
  }

  /** The value of an `HttpResponse`. */
  datatype Response = Response(status: HttpStatus, headers: seq<Header>, body: string)

  const FRESH_RESPONSE := Response(OK, [], "")

  class HttpResponse {
    var status: HttpStatus
    const headers: HttpHeaders
    var body: string

    ghost function View(): Response
      reads this, headers
    {
      Response(status, headers.headers, body)
    }

    constructor ()
      ensures View() == Response(OK, [], "") == FRESH_RESPONSE && fresh(headers)
    {
      status := OK;
      headers := new HttpHeaders();
      body := "";
    }

    method Assign(value: Response)
      modifies this, headers
      ensures View() == value
    {
      status, headers.headers, body := value.status, value.headers, value.body;
    }

    method Snapshot() returns (value: Response)
      ensures value == View()
    {
      value := Response(status, headers.headers, body);
    }

    method SetStatus(value: HttpStatus)
      modifies this
      ensures View() == old(View()).(status := value)
    {
      status := value;
    }

    method SetHeader(name: string, value: string)
      modifies headers
      ensures View() == old(View()).(headers := Without(old(View()).headers, name) + [Header(name, value)])
    {
      headers.Set(name, value);
    }

    method SetBody(text: string)
      modifies this
      ensures View() == old(View()).(body := text)
    {
      body := text;
    }
  }
}
