/** The request parser object (src/http/HttpParser.cpp, include/http/http/HttpParser.hpp): every
    method is proved to compute the function of the same step in ParserSpec.dfy. */
module HttpRequestParser {
  import opened ByteStrings
  import opened HttpHeaderList
  import opened HttpMessages
  import Utils = HttpUtils
  import opened ParserSpec

  class HttpParser {
    var state: State
    var consumed: nat
    var bodySize: nat
    var chunkSize: nat
    var chunkBytesRead: nat
    var body: string

    ghost function View(): Parser
      reads this
    {
      Parser(state, consumed, bodySize, chunkSize, chunkBytesRead, body)
    }

    constructor ()
      ensures View() == INITIAL && Valid(View())
    {
      state, consumed, bodySize, chunkSize, chunkBytesRead, body := AtRequestLine, 0, 0, 0, 0, "";
    }

    method Reset()
      modifies this
      ensures View() == INITIAL && Valid(View())
    {
      state, consumed, bodySize, chunkSize, chunkBytesRead, body := AtRequestLine, 0, 0, 0, 0, "";
    }

    method ConsumedBytes() returns (n: nat)
      ensures n == View().consumed
    {
      n := consumed;
    }

    /** The outcome a step method reports through its return value and the two objects. */
    ghost function Reported(result: Option<ParseResult>, request: HttpRequest): Outcome
      reads this, request, request.headers
    {
      if result.None? then Continue(View(), request.View()) else Stop(result.value, View(), request.View())
    }

    method Parse(data: string, request: HttpRequest) returns (result: ParseResult)
      requires Valid(View())
      modifies this, request, request.headers
      ensures Parsed(result, View(), request.View()) == Run(old(View()), data, old(request.View()))
      ensures Valid(View())
    {
      hide StepRequestLine, StepHeaders, StepBody, StepChunkSize, StepChunkData, StepChunkDataCrlf, StepChunkTrailer;
      while true
        invariant Valid(View())
        invariant Run(View(), data, request.View()) == Run(old(View()), data, old(request.View()))
        decreases |data| - consumed
      {
        ghost var p, r := View(), request.View();
        var stop: Option<ParseResult>;
        match state {
          case AtRequestLine => stop := HandleRequestLine(data, request);
          case AtHeaders => stop := HandleHeaders(data, request);
          case AtBody => stop := HandleBody(data, request);
          case AtChunkSize => stop := HandleChunkSize(data, request);
          case AtChunkData => stop := HandleChunkData(data, request);
          case AtChunkDataCrlf => stop := HandleChunkDataCrlf(data, request);
          case AtChunkTrailer => stop := HandleChunkTrailer(data, request);
          case AtComplete => return Complete;
          case AtError => return Invalid;
        }
        assert Reported(stop, request) == Step(p, data, r);
        if stop.Some? { return stop.value; }
      }
    }

    method Fail() returns (result: Option<ParseResult>)
      modifies this
      ensures result == Some(Invalid) && View() == old(View()).(state := AtError)
    {
      state := AtError;
      result := Some(Invalid);
    }

    method HandleRequestLine(data: string, request: HttpRequest) returns (result: Option<ParseResult>)
      requires Valid(View()) && state == AtRequestLine
      modifies this, request, request.headers
      ensures Reported(result, request) == Step(old(View()), data, old(request.View()))
    {
      hide Sound, StepHeaders, StepBody, StepChunkSize, StepChunkData, StepChunkDataCrlf, StepChunkTrailer;
      if consumed > |data| { result := Fail(); return; }
      var remaining := data[consumed..];
      var lineEnd := FindCrlf(remaining, 0);
      if lineEnd == NPOS {
        if |remaining| > MAX_REQUEST_LINE { result := Fail(); return; }
        return Some(Incomplete);
      }
      if lineEnd > MAX_REQUEST_LINE { result := Fail(); return; }
      var parsed := ParseRequestLineInto(remaining, request);
      if parsed == Incomplete { return Some(Incomplete); }
      if parsed == Invalid { result := Fail(); return; }
      consumed := consumed + lineEnd + 2;
      state := AtHeaders;
      return None;
    }

    method HandleHeaders(data: string, request: HttpRequest) returns (result: Option<ParseResult>)
      requires Valid(View()) && state == AtHeaders
      modifies this, request, request.headers
      ensures Reported(result, request) == Step(old(View()), data, old(request.View()))
    {
      hide Sound, StepRequestLine, StepBody, StepChunkSize, StepChunkData, StepChunkDataCrlf, StepChunkTrailer;
      if consumed > |data| { result := Fail(); return; }
      var remaining := data[consumed..];
      var headersEnd := FindBlankLine(remaining, 0);
      if headersEnd == NPOS {
        if |remaining| > MAX_HEADER_SIZE { result := Fail(); return; }
        return Some(Incomplete);
      }
      if headersEnd > MAX_HEADER_SIZE { result := Fail(); return; }
      var parsed := ParseHeadersInto(remaining[..headersEnd + 4], request);
      if parsed == Incomplete { return Some(Incomplete); }
      if parsed == Invalid { result := Fail(); return; }
      consumed := consumed + headersEnd + 4;
      result := ChooseFraming(request);
    }

    /** The second half of `handleHeaders`. */
    method ChooseFraming(request: HttpRequest) returns (result: Option<ParseResult>)
      modifies this, request
      ensures Reported(result, request) == Framing(old(View()), old(request.View()))
    {
      var contentLength := request.GetHeader("Content-Length");
      var transferEncoding := request.GetHeader("Transfer-Encoding");
      if contentLength != "" && transferEncoding != "" { result := Fail(); return; }
      if transferEncoding != "" {
        var coding := Utils.TrimOws(transferEncoding);
        var chunked := Utils.EqualsIgnoreCase(coding, "chunked");
        if !chunked { result := Fail(); return; }
        body := "";
        chunkSize := 0;
        chunkBytesRead := 0;
        state := AtChunkSize;
        return None;
      }
      if contentLength == "" {
        bodySize := 0;
        request.SetBody("");
        state := AtComplete;
        return Some(Complete);
      }
      bodySize := 0;
      var ok, size := Utils.ParseContentLength(contentLength, bodySize);
      bodySize := size;
      if !ok { result := Fail(); return; }
      if bodySize > MAX_BODY_SIZE { result := Fail(); return; }
      if bodySize == 0 {
        request.SetBody("");
        state := AtComplete;
        return Some(Complete);
      }
      state := AtBody;
      return None;
    }

    method HandleBody(data: string, request: HttpRequest) returns (result: Option<ParseResult>)
      requires Valid(View()) && state == AtBody
      modifies this, request
      ensures Reported(result, request) == Step(old(View()), data, old(request.View()))
    {
      hide Sound, StepRequestLine, StepHeaders, StepChunkSize, StepChunkData, StepChunkDataCrlf, StepChunkTrailer;
      if consumed > |data| { result := Fail(); return; }
      var available := |data| - consumed;
      if available < bodySize { return Some(Incomplete); }
      request.SetBody(data[consumed..][..bodySize]);
      consumed := consumed + bodySize;
      state := AtComplete;
      return Some(Complete);
    }

    method HandleChunkSize(data: string, request: HttpRequest) returns (result: Option<ParseResult>)
      requires Valid(View()) && state == AtChunkSize
      modifies this
      ensures Reported(result, request) == Step(old(View()), data, old(request.View()))
    {
      hide Sound, StepRequestLine, StepHeaders, StepBody, StepChunkData, StepChunkDataCrlf, StepChunkTrailer;
      hide SizeText, Utils.ChunkSizeOf, Utils.AllHex, Utils.HexValue, FindCrlf;
      if consumed > |data| { result := Fail(); return; }
      var remaining := data[consumed..];
      var lineEnd := FindCrlf(remaining, 0);
      if lineEnd == NPOS {
        if |remaining| > MAX_CHUNK_LINE_SIZE { result := Fail(); return; }
        return Some(Incomplete);
      }
      if lineEnd > MAX_CHUNK_LINE_SIZE { result := Fail(); return; }
      var line := ChunkSizeText(remaining[..lineEnd]);
      var ok, size := Utils.ParseChunkSize(line, chunkSize);
      chunkSize := size;
      if !ok { result := Fail(); return; }
      if chunkSize > MAX_BODY_SIZE || |body| > MAX_BODY_SIZE - chunkSize { result := Fail(); return; }
      consumed := consumed + lineEnd + 2;
      chunkBytesRead := 0;
      state := if chunkSize == 0 then AtChunkTrailer else AtChunkData;
      return None;
    }

    method ChunkSizeText(chunkLine: string) returns (line: string)
      ensures line == SizeText(chunkLine)
    {
      line := chunkLine;
      var semicolon := FindChar(line, ';', 0);
      if semicolon != NPOS { line := line[..semicolon]; }
      line := Utils.TrimOws(line);
    }

    method HandleChunkData(data: string, request: HttpRequest) returns (result: Option<ParseResult>)
      requires Valid(View()) && state == AtChunkData
      modifies this
      ensures Reported(result, request) == Step(old(View()), data, old(request.View()))
    {
      hide Sound, StepRequestLine, StepHeaders, StepBody, StepChunkSize, StepChunkDataCrlf, StepChunkTrailer;
      if consumed > |data| { result := Fail(); return; }
      var available := |data| - consumed;
      var remainingChunkBytes := chunkSize - chunkBytesRead;
      var bytesToCopy := Min(available, remainingChunkBytes);
      assert data[consumed..][..bytesToCopy] == data[consumed..consumed + bytesToCopy];
      if bytesToCopy > 0 {
        body := body + data[consumed..consumed + bytesToCopy];
        consumed := consumed + bytesToCopy;
        chunkBytesRead := chunkBytesRead + bytesToCopy;
      } else {
        assert body + "" == body;
      }
      if chunkBytesRead < chunkSize { return Some(Incomplete); }
      state := AtChunkDataCrlf;
      return None;
    }

    method HandleChunkDataCrlf(data: string, request: HttpRequest) returns (result: Option<ParseResult>)
      requires Valid(View()) && state == AtChunkDataCrlf
      modifies this
      ensures Reported(result, request) == Step(old(View()), data, old(request.View()))
    {
      hide Sound, StepRequestLine, StepHeaders, StepBody, StepChunkSize, StepChunkData, StepChunkTrailer;
      if consumed > |data| { result := Fail(); return; }
      var available := |data| - consumed;
      if available < 2 { return Some(Incomplete); }
      if data[consumed] != '\r' || data[consumed + 1] != '\n' { result := Fail(); return; }
      consumed := consumed + 2;
      state := AtChunkSize;
      return None;
    }

    method HandleChunkTrailer(data: string, request: HttpRequest) returns (result: Option<ParseResult>)
      requires Valid(View()) && state == AtChunkTrailer
      modifies this, request
      ensures Reported(result, request) == Step(old(View()), data, old(request.View()))
    {
      hide Sound, StepRequestLine, StepHeaders, StepBody, StepChunkSize, StepChunkData, StepChunkDataCrlf;
      hide TrailersOk, FindBlankLine;
      if consumed > |data| { result := Fail(); return; }
      var remaining := data[consumed..];
      if |remaining| >= 2 && remaining[0] == '\r' && remaining[1] == '\n' {
        consumed := consumed + 2;
        request.SetBody(body);
        body := "";
        state := AtComplete;
        return Some(Complete);
      }
      var trailerEnd := FindBlankLine(remaining, 0);
      if trailerEnd == NPOS {
        if |remaining| > MAX_HEADER_SIZE { result := Fail(); return; }
        return Some(Incomplete);
      }
      var trailers := remaining[..trailerEnd + 2];
      var ok := ScanTrailers(trailers);
      if !ok { result := Fail(); return; }
      consumed := consumed + trailerEnd + 4;
      request.SetBody(body);
      body := "";
      state := AtComplete;
      return Some(Complete);
    }

    /** The trailer loop of `handleChunkTrailer`; a false result is its `fail()`. */
    method ScanTrailers(trailers: string) returns (ok: bool)
      ensures ok == TrailersOk(trailers, 0, 0)
    {
      hide FieldOfLine;
      var position, trailerCount := 0, 0;
      while position < |trailers|
        invariant TrailersOk(trailers, position, trailerCount) == TrailersOk(trailers, 0, 0)
        decreases |trailers| - position
      {
        var lineEnd := FindCrlf(trailers, position);
        if lineEnd == NPOS { return false; }
        if lineEnd == position { break; }
        var field := CheckLine(trailers[position..lineEnd]);
        if field.None? { return false; }
        trailerCount := trailerCount + 1;
        if trailerCount > MAX_HEADERS { return false; }
        position := lineEnd + 2;
      }
      return true;
    }

    /** The part the header loop and the trailer loop share: split at the colon and validate. */
    method CheckLine(line: string) returns (field: Option<Header>)
      ensures field == FieldOfLine(line)
    {
      var colon := FindChar(line, ':', 0);
      if colon == NPOS { return None; }
      var name := line[..colon];
      var value := Utils.TrimOws(line[colon + 1..]);
      var nameOk := Utils.IsValidHeaderName(name);
      if !nameOk { return None; }
      var valueOk := Utils.IsValidHeaderValue(value);
      if !valueOk { return None; }
      return Some(Header(name, value));
    }

    method ParseRequestLineInto(data: string, request: HttpRequest) returns (result: ParseResult)
      modifies request, request.headers
      ensures (result, request.View()) == ParseRequestLine(data, old(request.View()))
    {
      hide FindCrlf, FindChar, RequestFor, Utils.ParseMethod;
      var lineEnd := FindCrlf(data, 0);
      if lineEnd == NPOS { return Incomplete; }
      if lineEnd > MAX_REQUEST_LINE { return Invalid; }
      var line := data[..lineEnd];
      var firstSpace := FindChar(line, ' ', 0);
      if firstSpace == NPOS { return Invalid; }
      var secondSpace := FindChar(line, ' ', firstSpace + 1);
      if secondSpace == NPOS { return Invalid; }
      if FindChar(line, ' ', secondSpace + 1) != NPOS { return Invalid; }
      var name, target, version := line[..firstSpace], line[firstSpace + 1..secondSpace], line[secondSpace + 1..];
      if name == "" || target == "" || version == "" { return Invalid; }
      if version != "HTTP/1.1" { return Invalid; }
      var parsedMethod := Utils.ParseMethod(name);
      if parsedMethod == Utils.UNKNOWN { return Invalid; }
      request.Assign(FRESH_REQUEST.(method_ := parsedMethod, target := target, version := version));
      FillTarget(target, request);
      return Complete;
    }

    /** The path and the queries of the target, set on a request that has neither. */
    method FillTarget(target: string, request: HttpRequest)
      requires request.View() == FRESH_REQUEST.(method_ := request.method_, target := target, version := request.version)
      modifies request
      ensures request.View() == RequestFor(old(request.method_), target, old(request.version))
    {
      hide AddQueries;
      var questionMark := FindChar(target, '?', 0);
      if questionMark == NPOS {
        request.SetPath(target);
        return;
      }
      request.SetPath(target[..questionMark]);
      FillQueries(target[questionMark + 1..], request);
    }

    /** The query loop of `parseRequestLine`. */
    method FillQueries(query: string, request: HttpRequest)
      modifies request
      ensures request.View() == old(request.View()).(queries := AddQueries(query, 0, old(request.queries)))
    {
      hide AddPair;
      var start := 0;
      ghost var before := request.View();
      while start < |query|
        invariant request.View() == before.(queries := request.queries)
        invariant AddQueries(query, start, request.queries) == AddQueries(query, 0, before.queries)
        decreases |query| - start
      {
        var amp := FindChar(query, '&', start);
        var pair := if amp == NPOS then query[start..] else query[start..amp];
        AddPairTo(pair, request);
        if amp == NPOS { return; }
        start := amp + 1;
      }
    }

    method AddPairTo(pair: string, request: HttpRequest)
      modifies request
      ensures request.View() == old(request.View()).(queries := AddPair(pair, old(request.queries)))
    {
      var eq := FindChar(pair, '=', 0);
      if eq == NPOS && pair == "" { return; }
      var keyText, valueText := if eq == NPOS then pair else pair[..eq], if eq == NPOS then "" else pair[eq + 1..];
      var key := Utils.UrlDecode(keyText);
      var value := Utils.UrlDecode(valueText);
      request.AddQuery(key, value);
    }

    method ParseHeadersInto(data: string, request: HttpRequest) returns (result: ParseResult)
      modifies request.headers
      ensures (result, request.View()) == ParseHeaders(data, old(request.View()))
    {
      hide FieldOfLine;
      var position, headerCount := 0, 0;
      while position < |data|
        invariant ParseHeaderLines(data, position, headerCount, request.View())
               == ParseHeaderLines(data, 0, 0, old(request.View()))
        decreases |data| - position
      {
        var lineEnd := FindCrlf(data, position);
        if lineEnd == NPOS { return Incomplete; }
        if lineEnd == position { return Complete; }
        var field := CheckLine(data[position..lineEnd]);
        if field.None? { return Invalid; }
        headerCount := headerCount + 1;
        if headerCount > MAX_HEADERS { return Invalid; }
        var isLength := Utils.EqualsIgnoreCase(field.value.name, "Content-Length");
        if isLength {
          var existing := request.GetHeader("Content-Length");
          if existing != "" && existing != field.value.value { return Invalid; }
        }
        request.AddHeader(field.value.name, field.value.value);
        position := lineEnd + 2;
      }
      return Incomplete;
    }
  }
}
