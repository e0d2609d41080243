# Verified model of the HTTP server's protocol cores

This project models, in Dafny 4.11, the four parts of the server whose correctness is not visible from
reading one function, and proves what they are for:

* **The incremental HTTP/1.1 request parser** (sections 2, 6 and 7.1 of RFC 9112). `ParserSpec.dfy` is one
  `parse` call as a function of parser state, buffer and request; `HttpParser.dfy` is the object with its
  fields and loops, each method proved to compute that function. `Fragmentation.dfy` relates calls on growing
  buffers to one call on the whole stream, `FreshRequests.dfy` does so for the server loop's use of the parser,
  `Acceptance.dfy`, `HeadAcceptance.dfy` and `ChunkDecoding.dfy` say which requests are accepted and what was on
  the wire, `Counterexamples.dfy` holds inputs with unexpected results, `ChunkEncoding.dfy`,
  `FieldEncoding.dfy`, `QueryEncoding.dfy` and `RequestEncoding.dfy` write requests and prove that they are read
  back, and `Pipelining.dfy` and `ClientConnection.dfy` do so for streams of requests on one connection.
  `ResponseEncoding.dfy` is `serialize`; `HttpUtils.dfy`, `HttpHeaders.dfy` and `HttpMessages.dfy` are the parts
  they share, and `TextMeaning.dfy` and `LineMeaning.dfy` say what these mean, character by character.
* **The bounded ring-buffer thread pool.** `ThreadPool.dfy` is a transition system with any number of producers
  and workers and one destructor, one atomic operation a step; `ThreadPoolSafety.dfy` proves its invariant,
  `ThreadPoolRuns.dfy` what it means for every run, `ThreadPoolTasks.dfy` what becomes of every task, and
  `ThreadPoolShutdown.dfy` how the pool ends. `TaskRing.dfy` has the two critical sections on an array.
* **The WebSocket frame codec** (sections 5.2 and 5.3 of RFC 6455) over the read buffer: `WebSocketSpec.dfy` and
  `WebSocketStream.dfy`, with the methods in `ClientConnection.dfy`; `WebSocketExamples.dfy` has the examples of the
  RFC.
* **Routing**: `PathMatching.dfy` and `Router.dfy`.

Code that updates fields or runs loops is a class or a method here too. Its contract equates the result and the
new state with a specification function, and the lemmas say what those functions mean: round trips, exact conditions,
invariants over runs, and literal texts and tables. `dafny verify dfyconfig.toml` checks everything.

## Where the code differs from what one would expect

The code was kept as it is. Each item but the last is proved: an input, and the exact condition.

* The size limits are a few bytes stricter while a delimiter has not been seen than once it has. A request at
  the limit is accepted in one piece and rejected in some fragmentation (`Counterexamples.LongLineIsCutApart`).
  `Fragmentation.FragmentationIffSlack` gives the exact condition, `RequestEncoding.RequestRoundTrip` gives it in
  terms of the sizes of a message, and `Pipelining.PipelineIffRoomy` for whole pipelines.
* Documentation/HTTP.md:7 calls the parser fragment-safe. That needs the caller to keep its request object, as
  tests/http/HttpParserTests.cpp:43-58 does. src/network/TcpServer.cpp:184 makes a new one for every event;
  `FreshRequests.FreshRequestPerRead` and `FreshRequests.MessageSurvivesIff` say exactly when that loses the
  request line, and `Counterexamples.ShortLineIsLost` is such a request.
* A request without header lines is not completed on its own empty line, and when more bytes follow it takes
  everything up to the next empty line with it (`RequestEncoding.RoundTripIffHeader`,
  `RequestEncoding.NoHeaderRead`, `Counterexamples.SecondRequestIsSwallowed`).
* A Content-Length or Transfer-Encoding whose first value is empty counts as absent, whatever later headers of
  the same name say. So contradicting lengths are accepted, and so is a request that names both framings
  (`Counterexamples.ContradictingLengthsAccepted`, `Counterexamples.BothFramingsAccepted`);
  `HeadAcceptance.HeadAcceptedIff` and `HeadAcceptance.BothFramingsIff` say exactly when.
* Tasks can still be in the ring when the destructor is done, and are then dropped
  (`ThreadPoolShutdown.ATaskIsDropped`); `ThreadPoolShutdown.TasksTakenByTheEnd` says which are taken.
* A parameter name that a route uses twice keeps only the last capture (`PathMatching.CapturesRebuildPath`,
  `PathMatching.RepeatedNameLosesSegment`).
* A path that equals its route, colons included, is matched without storing captures, so a capture that an
  earlier route left stays (`RequestRouter.StaleCapture`); `PathMatching.ParametersRebuildPath` and
  `RequestRouter.DispatchedRebuild` say exactly when the parameters rebuild the path.
* Documentation/Concurrency.md:24-28 has `pending_tasks_` incremented after the write and decremented after
  a task has run. The code increments first and decrements before it runs; the model follows the code.

## Model

| member | source | states |
|---|---|---|
| `ParserSpec.Run` | src/http/HttpParser.cpp:16-53 | A whole `parse` call terminates on every buffer, keeps the parser invariant (chunk counters in order, no collected body over 10 MiB), never counts more bytes than the buffer holds, ends Complete or Invalid exactly when the state says so, and a finished parser changes nothing until it is reset |
| `ParserSpec.Step` | src/http/HttpParser.cpp:20-46 | One turn of the loop keeps the invariant and stays inside the buffer, and a turn that continues has moved forward |
| `HttpRequestParser.HttpParser.Parse` | src/http/HttpParser.cpp:16-53 | The loop over the object's fields computes `Run`: same verdict, same parser, same request |
| `HttpRequestParser.HttpParser.HandleRequestLine` | src/http/HttpParser.cpp:55-93 | The step on the object is the step of the specification |
| `HttpRequestParser.HttpParser.HandleHeaders` | src/http/HttpParser.cpp:95-189 | The step on the object is the step of the specification |
| `HttpRequestParser.HttpParser.ChooseFraming` | src/http/HttpParser.cpp:132-188 | The choice between no body, a sized body and chunks, with its four rejections |
| `HttpRequestParser.HttpParser.HandleBody` | src/http/HttpParser.cpp:191-209 | The step on the object is the step of the specification |
| `HttpRequestParser.HttpParser.HandleChunkSize` | src/http/HttpParser.cpp:211-258 | The step on the object is the step of the specification, including the value a failed size leaves behind |
| `HttpRequestParser.HttpParser.HandleChunkData` | src/http/HttpParser.cpp:260-286 | The step on the object is the step of the specification |
| `HttpRequestParser.HttpParser.HandleChunkDataCrlf` | src/http/HttpParser.cpp:288-308 | The step on the object is the step of the specification |
| `HttpRequestParser.HttpParser.HandleChunkTrailer` | src/http/HttpParser.cpp:310-391 | The step on the object is the step of the specification |
| `HttpRequestParser.HttpParser.ScanTrailers` | src/http/HttpParser.cpp:340-382 | The trailer loop decides `TrailersOk` |
| `HttpRequestParser.HttpParser.ParseRequestLineInto` | src/http/HttpParser.cpp:393-478 | The request line is split, checked and stored as the specification says, or the request is left alone |
| `HttpRequestParser.HttpParser.FillQueries` | src/http/HttpParser.cpp:456-475 | The query loop stores what `AddQueries` computes |
| `HttpRequestParser.HttpParser.ParseHeadersInto` | src/http/HttpParser.cpp:480-538 | The header loop adds the headers the specification adds, with the same verdict |
| `HttpRequestParser.HttpParser.Reset` | src/http/HttpParser.cpp:540-549 | After a reset the parser is as new |
| `Fragmentation.StepIsStable` | src/http/HttpParser.cpp:55-391 | A step that advanced or completed would have done the same with more bytes in the buffer |
| `Fragmentation.StepResumes` | src/http/HttpParser.cpp:55-391 | A step that ran out of bytes kept the request, and can be taken up again on the longer buffer |
| `Fragmentation.CompleteIsStable` | src/http/HttpParser.cpp:16-53 | A call that completed would have returned the same with more bytes |
| `Fragmentation.IncompleteResumes` | src/http/HttpParser.cpp:16-53 | A call that ran out of bytes loses nothing: the next call on the grown buffer gives what one call on it gives, whatever the verdict |
| `Fragmentation.FragmentedRunIsOneShot` | src/http/HttpParser.cpp:16-391 | For every cut of a stream into growing buffers, unless a fragment was rejected, the last call returns exactly what one call on the whole stream returns: verdict, request and consumed bytes |
| `Fragmentation.SlackAcceptsFragments` | src/http/HttpParser.cpp:63-72 | With slack at every delimiter, every fragmentation of an accepted stream is accepted |
| `Fragmentation.WithoutSlack` | src/http/HttpParser.cpp:222-231 | Without slack there is a prefix of the accepted stream that the parser rejects |
| `Fragmentation.FragmentationIffSlack` | src/http/HttpParser.cpp:16-391 | An accepted stream gives the same result under all fragmentations if and only if it has slack: at most 8191 bytes of request line, 127 of every chunk line, and 16383 of header lines and of trailer lines with their line ends |
| `Fragmentation.OnlyConsumedBytesMatter` | src/http/HttpParser.cpp:16-53 | A completed call read exactly the bytes it counts as consumed |
| `Fragmentation.HeaderScanners` | src/http/HttpParser.cpp:103-130 | On the block cut at the first empty line the header loop never runs out of bytes, and if it accepts, it stopped at that same empty line; except that a block which starts with a line end is always accepted, at position 0, with the rest of it unread |
| `Fragmentation.TrailerScanners` | src/http/HttpParser.cpp:340-382 | The trailer loop accepts its block exactly when every byte of it belongs to a valid field line: its npos and empty-line exits are never taken |
| `FreshRequests.FeedsAgree` | src/network/TcpServer.cpp:184-190 | A fresh request object per read event and one object for all of them lead to the same verdict |
| `FreshRequests.FreshRequestPerRead` | src/network/TcpServer.cpp:184-190 | With a fresh request object per read event, for any number of reads, a completed request comes out right if and only if the read that brought its first line also completed it; otherwise its method, target, version, path and queries are lost |
| `FreshRequests.CompleteIffAllBytes` | src/http/HttpParser.cpp:16-53 | Of a stream that completes a request, exactly the prefixes that hold all its bytes complete it |
| `FreshRequests.MessageSurvivesIff` | src/network/TcpServer.cpp:184-190 | With a fresh request object per read event, a well-formed message comes out right if and only if the first read that held a complete line held the whole message |
| `FreshRequests.HeadInFirstRead` | src/network/TcpServer.cpp:184-190 | Every well-formed message whose request line arrives in a read of its own is completed without that line |
| `Counterexamples.ShortLineIsLost` | src/network/TcpServer.cpp:184-190 | An input: GET / with one header, cut after the request line |
| `Counterexamples.LongLineLacksSlack` | src/http/HttpParser.cpp:63-76 | An input: a well-formed message with a request line of 8192 bytes is accepted in one piece and has no slack |
| `Counterexamples.LongLineIsCutApart` | src/http/HttpParser.cpp:63-76 | So some fragmentation of it ends differently |
| `Acceptance.FieldsAreAccepted` | src/http/HttpParser.cpp:485-537 | Every header that is kept is a token with a valid, trimmed value; there are at most 100; and none contradicts the first Content-Length, unless that one is empty |
| `Acceptance.RunKeepsConsistent` | src/http/HttpParser.cpp:16-53 | In every state the parser and the request agree: in the body states the announced size, or the chunked coding, is that of the headers |
| `Acceptance.CompletedRequestIsAccepted` | src/http/HttpParser.cpp:16-391 | Every completed request, from any bytes in any fragmentation, has a known method, a target without spaces with its own path and queries, valid fields, and a body framed by what the look-up of the two framing headers returns, which is their first values: of the length the one says, or chunked, or empty |
| `HeadAcceptance.HeadAcceptedIff` | src/http/HttpParser.cpp:95-189 | For any list of valid fields, also the empty one, after a valid request line, some continuation is accepted if and only if the fields get through the header loop, and the first Content-Length and first Transfer-Encoding are not both non-empty and can be carried out |
| `HeadAcceptance.HeadRejected` | src/http/HttpParser.cpp:95-189 | Otherwise every continuation is rejected |
| `HeadAcceptance.BothFramingsIff` | src/http/HttpParser.cpp:132-188 | A request that names both framing headers can be accepted exactly when the first value of one of them is empty, and the other is empty too, or chunked, or gives agreeing lengths |
| `HeadAcceptance.CompletedIsSinglyFramed` | src/http/HttpParser.cpp:132-188 | Of all the values of the two names in a completed request: if both names occur, the first value of one is empty; if the first length is not empty, all lengths equal it and it is that of the body; without empty values, only one of the names occurs |
| `Counterexamples.ContradictingLengthsAccepted` | src/http/HttpParser.cpp:522-530 | An input: an empty Content-Length followed by Content-Length 5 is accepted with an empty body, whatever follows |
| `Counterexamples.BothFramingsAccepted` | src/http/HttpParser.cpp:132-142 | An input: an empty Transfer-Encoding, then chunked, then Content-Length 5 is accepted with a body of five bytes |
| `FieldEncoding.FieldLineFacts` | src/http/HttpParser.cpp:496-516 | A written field line is read back as that field |
| `FieldEncoding.BlankLineAfterFields` | src/http/HttpParser.cpp:103-103 | The first empty line after written fields is the one that ends them |
| `FieldEncoding.FieldsReadBack` | src/http/HttpParser.cpp:480-538 | The header loop accepts a written list of valid fields if and only if it is not too long and no length contradicts a non-empty first one; then it reads back exactly those fields, at any offset, and stops at the empty line; otherwise it rejects |
| `FieldEncoding.TrailersAccepted` | src/http/HttpParser.cpp:340-382 | The trailer loop accepts any list of at most 100 written fields |
| `QueryEncoding.SpelledIsDecoded` | src/http/HttpUtils.cpp:157-190 | Decoding inverts every spelling of a byte string: characters as they are, a space as a plus, or any byte as a percent sign and two digits in any letter case |
| `QueryEncoding.PercentEncodeSpells` | src/http/HttpUtils.cpp:157-190 | Percent-encoding all but the unreserved characters is one of these spellings |
| `QueryEncoding.ItemAdded` | src/http/HttpParser.cpp:461-470 | A key with a value, a key alone, which gets an empty value, and nothing at all, as they stand between two ampersands |
| `QueryEncoding.QueryReadBack` | src/http/HttpParser.cpp:456-475 | Parsing a query of any such items, in any spelling, gives the first-wins map of its pairs |
| `QueryEncoding.FirstWinsMeaning` | src/http/HttpRequest.cpp:62-64 | The keys of that map are those of the list, and each has the value of its first pair |
| `ChunkEncoding.ChunkLineForm` | src/http/HttpParser.cpp:233-245 | A hexadecimal number, with any whitespace around it and any extension, is a chunk line of its value |
| `ChunkEncoding.ChunksRead` | src/http/HttpParser.cpp:211-308 | Any list of non-empty chunks of arbitrary bytes, with any spelling of the sizes and any extensions, is decoded into the concatenation, and exactly its bytes are consumed, whatever follows |
| `ChunkEncoding.BlankLineAfterTrailers` | src/http/HttpParser.cpp:329-340 | The first empty line after valid trailer lines is the one that ends them |
| `ChunkDecoding.ChunksOnTheWire` | src/http/HttpParser.cpp:211-391 | The converse: whatever completes a chunked body is chunk lines with their data, a line that says zero and valid trailer lines, exactly as many bytes as were consumed, and the body is the data of the chunks |
| `ChunkDecoding.ChunkedIff` | src/http/HttpParser.cpp:211-391 | From the end of the header block on, a chunked body is completed if and only if the bytes start with one, of at most 10 MiB |
| `ChunkDecoding.CompletedBodyOnTheWire` | src/http/HttpParser.cpp:16-391 | For every completed request, from any bytes in any fragmentation, the bytes between its header block and the end of what was consumed are its body: as it is, or, if a Transfer-Encoding was found, a chunked text that decodes to it |
| `RequestEncoding.ChunkedRead` | src/http/HttpParser.cpp:211-391 | A whole chunked body, with its last chunk and any valid trailers, completes with the concatenated body |
| `RequestEncoding.HeadersStep` | src/http/HttpParser.cpp:95-130 | The header step on written fields goes on to the framing if they fit the limits and their lengths agree, and rejects them if not |
| `RequestEncoding.FramingOf` | src/http/HttpParser.cpp:132-188 | What the headers of a well-formed message lead to |
| `RequestEncoding.RequestRoundTrip` | src/http/HttpParser.cpp:16-391 | Whatever bytes follow a well-formed request, its framing header in any letter case, one call delivers exactly that request and counts exactly its bytes; and it has slack exactly when its sizes are the ones listed in `Roomy` |
| `RequestEncoding.NoHeaderLineWaits` | src/http/HttpParser.cpp:103-112 | Alone, a request without any header line waits for more bytes on its own empty line |
| `RequestEncoding.RoundTripIffHeader` | src/http/HttpParser.cpp:103-112 | Whatever follows, one call reads a sendable message back if and only if it has at least one header line |
| `RequestEncoding.NoHeaderRead` | src/http/HttpParser.cpp:103-130 | What one call makes of a message without a header line and any bytes after it: everything up to the next empty line is counted as consumed with it, if that is found within the limit; else it waits or is rejected |
| `RequestEncoding.SwallowsNextHead` | src/http/HttpParser.cpp:103-130 | Of a well-formed message that follows, the request line and the headers are swallowed, and its payload is left |
| `Pipelining.HeaderlessSwallows` | src/network/ClientConnection.cpp:89-99 | In a pipeline, the message without a header line is delivered and parsing goes on at the payload of the next one |
| `Pipelining.NextIsLost` | src/network/ClientConnection.cpp:89-99 | So a next message without a body is never delivered |
| `Counterexamples.SecondRequestIsSwallowed` | src/http/HttpParser.cpp:103-130 | An input: of two GET requests in a pipeline, the first without headers, only the first is delivered |
| `Pipelining.ReadsCompose` | src/network/ClientConnection.cpp:89-99 | Reading two pieces in turn delivers what reading them at once delivers, and leaves the same session |
| `Pipelining.FragmentationInvisible` | src/network/ClientConnection.cpp:89-99 | For every cut into reads, what is delivered is a prefix of what a single read delivers; a stream that a single read rejects is rejected in every cut; and a cut that ends without a rejection delivers the same and leaves the same session |
| `Pipelining.PipelineSeparates` | src/network/ClientConnection.cpp:89-99 | A concatenation of well-formed requests is taken apart into exactly those, in order, and the bytes after them are untouched |
| `Pipelining.PrefixNeverFails` | src/network/ClientConnection.cpp:89-91 | No prefix of a stream of roomy requests is rejected |
| `Pipelining.PipelineDelivered` | src/network/ClientConnection.cpp:89-99 | Any pipeline of well-formed, roomy requests, cut into reads in any way, is delivered exactly and leaves the connection as it was |
| `Pipelining.PipelineIffRoomy` | src/network/ClientConnection.cpp:89-99 | A pipeline of well-formed requests survives every cut into reads if and only if all of them are roomy |
| `Connection.ClientConnection.ParseRequest` | src/network/ClientConnection.cpp:89-91 | One call of the parser on the read buffer; the consumed bytes stay within the buffer |
| `Connection.ClientConnection.ConsumeParsedRequest` | src/network/ClientConnection.cpp:93-99 | The consumed bytes are dropped and the parser is reset; `consume` never throws |
| `Connection.ClientConnection.NextRequest` | src/network/ClientConnection.cpp:89-99 | Parsing and consuming one request is one turn of the session that the pipelining results are about |
| `Connection.ReadBuffer.Append` | src/network/ReadBuffer.cpp:11-13 | The buffer grows at its end |
| `Connection.ReadBuffer.Consume` | src/network/ReadBuffer.cpp:27-34 | The first bytes go, or the exception is thrown and nothing changes, exactly when more is asked for than is there |
| `TextMeaning.SameTextMeans` | src/http/HttpHeaders.cpp:9-21 | Names are compared without regard to case: equal length, and at each place the same character or the same letter of the two listed alphabets |
| `TextMeaning.FromHexMeans` | src/http/HttpUtils.cpp:131-145 | Exactly the sixteen digits in either letter case have a value, each its own |
| `TextMeaning.HexSpelled` | src/http/HttpUtils.cpp:121-155 | A text is hexadecimal of the value n exactly when its characters are the listed digits of n, in any letter case, with any leading zeros |
| `TextMeaning.DecSpelled` | src/http/HttpUtils.cpp:105-119 | The same for decimal texts |
| `TextMeaning.ToDecMeans` | src/http/HttpResponse.cpp:110-110 | The text of a number is its digits without leading zeros |
| `TextMeaning.TokenCharMeans` | src/http/HttpUtils.cpp:72-83 | The characters of a header name are the listed letters, digits and fifteen marks |
| `TextMeaning.FieldCharMeans` | src/http/HttpUtils.cpp:88-100 | A header value may hold a tab, and every byte from the space on except 127 |
| `TextMeaning.NameAndValueMean` | src/http/HttpUtils.cpp:67-103 | A header name is a non-empty text of those characters, and a header value a possibly empty text of these |
| `TextMeaning.TrimMeans` | src/http/HttpUtils.cpp:37-47 | What trimming takes off is spaces and tabs only, and neither end of what is left is one |
| `TextMeaning.ParseMethodMeans` | src/http/HttpUtils.cpp:6-35 | Nine names are known, each its own method, and every other text is UNKNOWN |
| `TextMeaning.UrlDecodedMeans` | src/http/HttpUtils.cpp:157-190 | A plus is a space; a percent sign with two hexadecimal digits, in any letter case, is their byte; without them it stays, and so does every other character |
| `TextMeaning.UrlTokenMeans` | src/http/HttpUtils.cpp:157-190 | The byte at the front of an encoded text, and how many characters spell it |
| `LineMeaning.FieldOfLineIff` | src/http/HttpParser.cpp:357-373 | A line is taken as a field exactly when it is its name, a colon, and its value with any spaces and tabs around it |
| `LineMeaning.ChunkLineIff` | src/http/HttpParser.cpp:218-245 | A chunk line gives the size n exactly when it is at most 128 bytes: hexadecimal digits of n, spaces and tabs around them, and an extension |
| `LineMeaning.RequestLineIff` | src/http/HttpParser.cpp:55-93 | The request step goes on exactly when the line is at most 8192 bytes: a known method, a target without spaces and HTTP/1.1, one space between them; every other line is rejected |
| `LineMeaning.LimitsMeans` | include/http/http/HttpParser.hpp:17-21 | The five limits as numbers |
| `HttpUtils.TrimOws` | src/http/HttpUtils.cpp:37-47 | The value without optional whitespace at either end |
| `HttpUtils.TrimmedIsTheCore` | src/http/HttpUtils.cpp:37-47 | Trimming removes the whitespace around a trimmed value and nothing else |
| `HttpUtils.EqualsIgnoreCase` | src/http/HttpUtils.cpp:49-65 | Equal length and equal lower-case characters |
| `HttpUtils.IsValidHeaderName` | src/http/HttpUtils.cpp:67-85 | Exactly the tokens of RFC 9110, section 5.6.2 |
| `HttpUtils.IsValidHeaderValue` | src/http/HttpUtils.cpp:87-103 | Exactly the texts without control characters other than tab |
| `HttpUtils.ParseContentLength` | src/http/HttpUtils.cpp:105-119 | Success exactly on a non-empty string of digits whose value fits in 64 bits, with that value; otherwise the argument is unchanged |
| `HttpUtils.DecRoundTrip` | src/http/HttpResponse.cpp:110-110 | The decimal text of a number denotes that number |
| `HttpUtils.ParseChunkSize` | src/http/HttpUtils.cpp:121-155 | Success exactly on a non-empty hexadecimal string whose mathematical value fits in 64 bits, with that value |
| `HttpUtils.ChunkSizeExact` | src/http/HttpUtils.cpp:121-155 | The same, of the function that the parser specification uses |
| `HttpUtils.DivisionGuardIsOverflow` | src/http/HttpUtils.cpp:147-149 | The division guard fires exactly when the next accumulator would not fit in 64 bits |
| `HttpUtils.HexPrefixIsSmaller` | src/http/HttpUtils.cpp:147-149 | More digits never make the number smaller, so reporting overflow early is right |
| `HttpUtils.HexRoundTrip` | src/http/HttpUtils.cpp:121-155 | The hexadecimal text of a number denotes that number |
| `HttpUtils.UrlDecode` | src/http/HttpUtils.cpp:157-190 | The decoding loop computes `UrlDecoded`, and its output is never longer than its input |
| `HttpUtils.UrlDecodeInvertsPercentEncode` | src/http/HttpUtils.cpp:157-190 | Decoding a percent-encoded byte string gives it back |
| `HttpHeaderList.HttpHeaders.Add` | src/http/HttpHeaders.cpp:23-25 | The header is appended |
| `HttpHeaderList.HttpHeaders.Set` | src/http/HttpHeaders.cpp:27-31 | Every header with the name goes, whatever its case, and the new one is appended |
| `HttpHeaderList.HttpHeaders.Get` | src/http/HttpHeaders.cpp:33-40 | The value of the first header with the name, or the empty string |
| `HttpHeaderList.HttpHeaders.Values` | src/http/HttpHeaders.cpp:42-50 | All values of the name, in order |
| `HttpHeaderList.HttpHeaders.Contains` | src/http/HttpHeaders.cpp:52-59 | Whether some header has the name |
| `HttpHeaderList.ValuesDecide` | src/http/HttpHeaders.cpp:33-59 | `get` and `contains` read the list that `values` returns |
| `HttpHeaderList.AppendedWithout` | src/http/HttpHeaders.cpp:28-29 | What `set` keeps of two lists is what it keeps of the first, then of the second |
| `HttpHeaderList.WithoutOne` | src/http/HttpHeaders.cpp:28-29 | And of one header, nothing if it has the name, and otherwise the header |
| `HttpHeaderList.SetReplaces` | src/http/HttpHeaders.cpp:27-50 | After `set`, the new value is the only one of that name, and every other name has the values it had |
| `HttpHeaderList.AppendedFirstValue` | src/http/HttpHeaders.cpp:23-40 | An added header is what `get` returns exactly when the name was absent |
| `ResponseEncoding.Serialize` | src/http/HttpResponse.cpp:78-118 | Status line, the given headers without any Content-Length, one computed Content-Length, an empty line, the body |
| `ResponseEncoding.SerializeFields` | src/http/HttpResponse.cpp:96-107 | The header loop leaves out every Content-Length and keeps the order of the others |
| `ResponseEncoding.StatusLineMeans` | src/http/HttpResponse.cpp:84-94 | The status line of every status, as text |
| `ResponseEncoding.SerializesProperly` | tests/http/HttpResponseTests.cpp:36-48 | The response of the test, as text |
| `ResponseEncoding.HeaderBlockRoundTrip` | src/http/HttpResponse.cpp:96-115 | The parser's header loop reads a serialized response back: the original headers minus any Content-Length plus exactly one, whose parsed value is the length of the body that follows |
| `WebSocketSpec.XorByteMeans` | src/network/ClientConnection.cpp:214-214 | A bit of the combined byte is set exactly when it is set in one of the two |
| `WebSocketSpec.MaskedMeans` | src/network/ClientConnection.cpp:213-215 | Byte i of the payload is combined, bit by bit, with byte i modulo 4 of the key |
| `WebSocketSpec.XorByteTwice` | src/network/ClientConnection.cpp:213-215 | Masking a byte twice gives it back |
| `WebSocketSpec.MaskedTwice` | src/network/ClientConnection.cpp:213-215 | Unmasking undoes masking, for every payload and key |
| `WebSocketSpec.BigEndianRoundTrip` | src/network/ClientConnection.cpp:247-249 | The bytes of a length denote that length |
| `WebSocketSpec.BytesAreBigEndian` | src/network/ClientConnection.cpp:187-190 | Length bytes are the encoding of the number they denote |
| `WebSocketSpec.FrameRoundTrip` | src/network/ClientConnection.cpp:158-226 | Any frame, masked or not, in any length encoding, with any reserved bits, is read back exactly, and exactly its bytes are counted, whatever follows |
| `WebSocketSpec.OnlyFramesAreRead` | src/network/ClientConnection.cpp:158-226 | Whatever the parser reads is a frame: the bytes it takes are an encoding of the frame it returns |
| `WebSocketSpec.ServerMessageReadBack` | src/network/ClientConnection.cpp:228-257 | What the sender writes, the parser reads back |
| `WebSocketSpec.ServerWireIsShortest` | src/network/ClientConnection.cpp:228-253 | No other frame with the same payload is shorter than the one the sender writes, and its first byte is FIN and the opcode |
| `WebSocketExamples.UnmaskedText` | src/network/ClientConnection.cpp:158-226 | The unmasked text message of section 5.7 of RFC 6455, byte by byte, whatever follows |
| `WebSocketExamples.MaskedText` | src/network/ClientConnection.cpp:158-226 | The masked one |
| `WebSocketExamples.FragmentedText` | src/network/ClientConnection.cpp:158-226 | The fragmented one |
| `WebSocketExamples.PingAndPong` | src/network/ClientConnection.cpp:158-226 | The ping and the masked pong |
| `WebSocketExamples.BinaryData` | src/network/ClientConnection.cpp:158-257 | The frames of 256 and of 65536 bytes, as read and as sent |
| `WebSocketExamples.TwoBytesMean` | src/network/ClientConnection.cpp:182-182 | The first byte of a two-byte length counts 256 |
| `WebSocketExamples.EightBytesMean` | src/network/ClientConnection.cpp:187-190 | The bytes of an eight-byte length, from the most significant on |
| `WebSocketStream.FrameIsStable` | src/network/ClientConnection.cpp:158-226 | A frame that was read would have been read with more bytes in the buffer |
| `WebSocketStream.StrictPrefixNeedsMore` | src/network/ClientConnection.cpp:162-208 | Every strict prefix of a frame is Incomplete |
| `WebSocketStream.LengthErrorIsWrapAround` | src/network/ClientConnection.cpp:205-212 | The length exception is thrown exactly when the header has arrived and the 64-bit sum of header and payload length wraps around |
| `WebSocketStream.DrainsCompose` | src/network/ClientConnection.cpp:158-226 | Draining a buffer, then more bytes, is draining all of them |
| `WebSocketStream.CutsAreInvisible` | src/network/ClientConnection.cpp:158-226 | For any bytes and any cut into pieces, the frames and the verdict are those of the whole stream |
| `WebSocketStream.StreamRoundTrip` | src/network/ClientConnection.cpp:158-226 | Any list of frames in any fragmentation is decoded into exactly that list and leaves an empty buffer |
| `Connection.ClientConnection.ParseWebSocketFrame` | src/network/ClientConnection.cpp:158-226 | The method on the read buffer computes `ParseFrame` and drops exactly the bytes of a frame that was read; otherwise the buffer is unchanged |
| `Connection.ClientConnection.ReadLength` | src/network/ClientConnection.cpp:172-192 | The declared length in its three encodings; it always fits in 64 bits |
| `Connection.ClientConnection.Unmask` | src/network/ClientConnection.cpp:211-215 | The payload loop computes `Masked` |
| `Connection.ClientConnection.WebSocketMessage` | src/network/ClientConnection.cpp:228-253 | The bytes built for a message are the encoding of a final, unmasked frame with the shortest length form |
| `ThreadPoolSafety.StepKeepsInv` | src/concurrency/ThreadPool.cpp:5-65 | Every step of every thread keeps the invariant, shutdown included |
| `ThreadPoolRuns.ReachableInv` | src/concurrency/ThreadPool.cpp:5-65 | Every reachable state, for any number of producers and workers, satisfies it |
| `ThreadPoolRuns.PermitsConserved` | src/concurrency/ThreadPool.cpp:9-25 | Space permits, holders of space and waiting tasks always add up to 1024; task permits, their holders and exited workers to the waiting tasks plus the destructor's releases |
| `ThreadPoolRuns.RefinesQueue` | src/concurrency/ThreadPool.cpp:15-22 | In every interleaving a write appends to a queue of at most 1024 tasks, a take hands over its oldest task, and no other step changes it |
| `ThreadPoolRuns.RingGeometry` | src/concurrency/ThreadPool.cpp:59-60 | Whenever the lock is free, `tail_` is `head_` plus the number of waiting tasks modulo 1024, and the slots between hold them in order |
| `ThreadPoolRuns.SlotsAreRespected` | src/concurrency/ThreadPool.cpp:21-59 | A write always hits an empty slot and a take always finds a task |
| `ThreadPoolRuns.TakenIsPrefix` | src/concurrency/ThreadPool.cpp:21-22 | The tasks taken are the first ones written, none skipped or taken twice |
| `ThreadPoolTasks.ProducerHolds` | src/concurrency/ThreadPool.cpp:51-60 | A producer keeps the task it was given until it writes that task |
| `ThreadPoolTasks.WorkerHolds` | src/concurrency/ThreadPool.cpp:21-31 | A worker keeps the task it took until it has run it |
| `ThreadPoolTasks.TasksAccounted` | src/concurrency/ThreadPool.cpp:15-64 | At every point of every run, for every task: as often as `enqueue` was entered with it, it was run, or a worker has taken it and not finished it, or it waits in the ring, or a producer has not written it yet |
| `ThreadPoolTasks.TakersAlwaysHold` | src/concurrency/ThreadPool.cpp:29-31 | A worker that has taken from the ring holds a task, so the test before the call never skips one |
| `ThreadPoolTasks.WaitsOnly` | src/concurrency/ThreadPool.cpp:8-63 | Exactly who waits: a producer for space, a worker for a permit, both for the lock, and the destructor for the worker it joins; everybody else can move |
| `ThreadPoolRuns.PendingNeverWraps` | src/concurrency/ThreadPool.cpp:27-52 | `pending_tasks_` is at least the number of waiting tasks, and no decrement wraps around |
| `ThreadPoolRuns.NoLostWakeup` | src/concurrency/ThreadPool.cpp:9-64 | Before shutdown, with no thread in between, there is exactly one permit for every waiting task |
| `ThreadPoolRuns.NeverDeadlocks` | src/concurrency/ThreadPool.cpp:8-65 | Before shutdown, in every reachable state with at least one worker, as long as an enqueue is under way or a task is waiting, a worker or a producer inside enqueue can move |
| `ThreadPoolRuns.CommittedFindTasks` | src/concurrency/ThreadPool.cpp:11-22 | Workers past the stop check that have not dequeued yet never outnumber the waiting tasks, even during shutdown |
| `ThreadPoolRuns.RetiringStaysRetiring` | src/concurrency/ThreadPool.cpp:9-13 | A worker that is parked or has just acquired a permit when `stop_` is set never dequeues again |
| `ThreadPoolRuns.PermitForEveryWorker` | src/concurrency/ThreadPool.cpp:40-42 | Once the destructor made its releases, every worker that is parked or will come back to park has a permit of its own |
| `ThreadPoolRuns.JoinNeverStuck` | src/concurrency/ThreadPool.cpp:44-48 | A worker being joined can always move, unless it spins on the lock, and then the lock's holder can |
| `ThreadPoolRuns.ShutdownIsBounded` | src/concurrency/ThreadPool.cpp:37-49 | After `stop_` is set, all workers together take a bounded number of steps in any interleaving |
| `ThreadPoolRuns.RankBound` | src/concurrency/ThreadPool.cpp:37-49 | That bound is at most nine steps a worker |
| `ThreadPoolShutdown.TasksTakenByTheEnd` | src/concurrency/ThreadPool.cpp:9-22 | In every run from a state with `stop_` set to the end of the destructor, the tasks taken are exactly the first ones written, as many as were taken before plus one for each worker past the stop check; the others are dropped, so all are taken if and only if no more were written |
| `ThreadPoolShutdown.ATaskIsDropped` | src/concurrency/ThreadPool.cpp:11-13 | A run from an initial state in which a task is written and never taken |
| `ThreadPoolShutdown.ShutdownEnds` | src/concurrency/ThreadPool.cpp:37-49 | After `stop_` is set, workers and destructor take at most eleven steps for each worker and three more, and while the destructor is not done one of them or the holder of the lock can move; so a run these cannot continue ends with the destructor done |
| `TaskRing.Ring.Store` | src/concurrency/ThreadPool.cpp:59-60 | The critical section of `enqueue` appends to the waiting tasks, on the array |
| `TaskRing.Ring.Take` | src/concurrency/ThreadPool.cpp:21-22 | The critical section of a worker removes the oldest waiting task and returns it, on the array |
| `PathMatching.SplitPath` | src/http/Router.cpp:36-53 | The loop returns the segments of the specification |
| `PathMatching.SegmentsAreClean` | src/http/Router.cpp:36-53 | Every segment is non-empty and free of the delimiter |
| `PathMatching.SplitInvertsJoin` | src/http/Router.cpp:36-53 | Splitting the join of any clean segments, with any runs of delimiters around them, gives them back |
| `PathMatching.MatchDynamicPath` | src/http/Router.cpp:55-82 | The match as the specification decides it; on success the captures are stored in order, on failure the request is unchanged |
| `PathMatching.MatchExact` | src/http/Router.cpp:57-79 | A path matches if and only if it equals the route, or the route has a colon and both have the same number of segments with every literal one equal |
| `PathMatching.CapturesRebuildPath` | src/http/Router.cpp:66-80 | Putting the captures back into the pattern gives the path's segments, if and only if a parameter name used twice stands for one value |
| `PathMatching.ParametersRebuildPath` | src/http/Router.cpp:55-82 | The parameters of a matched request rebuild its path exactly when: for a path that equals the route, which is matched without storing captures, the parameters there were hold no other values for its names; otherwise, a name used twice stands for one value |
| `PathMatching.RepeatedNameLosesSegment` | src/http/Router.cpp:66-80 | An input: the route /:a/:a takes /x/y and its parameters do not rebuild that path |
| `RequestRouter.Router.Handle` | src/http/Router.cpp:140-193 | The loops over middleware and routes compute `Handled` on the request and a fresh response |
| `RequestRouter.Router.RunMiddlewares` | src/http/Router.cpp:143-147 | The middleware loop ends at the first one that does not pass |
| `RequestRouter.ChainMeans` | src/http/Router.cpp:143-147 | Each middleware gets what the one before it left; the result is that of the first one that does not pass, or of the last if all pass, and it is a pass exactly then |
| `RequestRouter.ChainHasTrace` | src/http/Router.cpp:143-147 | Every chain of middleware has such a sequence of turns |
| `RequestRouter.DispatchMeans` | src/http/Router.cpp:170-180 | The handler runs exactly when every middleware of the route passed, on what the last one left |
| `RequestRouter.HandledMeans` | src/http/Router.cpp:140-147 | The routes are looked at exactly when every global middleware passed, starting from an empty response with status 200; otherwise the response is what the refusing one left |
| `RequestRouter.PathMatchesMeans` | src/http/Router.cpp:153-159 | A mounted prefix matches exactly the paths that begin with it and captures nothing; any other route matches by its segments |
| `RequestRouter.Router.MatchRoute` | src/http/Router.cpp:153-159 | The matching step, prefix or pattern, and its effect on the parameters |
| `RequestRouter.Router.Register` | src/http/Router.cpp:86-138 | A route is appended |
| `RequestRouter.Router.ServeFiles` | src/http/Router.cpp:195-256 | A prefix route is appended, on a path that ends in a slash |
| `RequestRouter.MountPathMeans` | src/http/Router.cpp:195-197 | The path of a mounted directory ends in a slash, is the mount point with at most that slash added, and mounting it again changes nothing |
| `RequestRouter.ScanExact` | src/http/Router.cpp:149-192 | The scan runs the first route that matches path and method, on a request that carries the captures of all path-matching routes up to it; else 405 exactly when some route matches the path, and 404 exactly when none does |
| `RequestRouter.DispatchExact` | src/http/Router.cpp:140-193 | The same of the whole of `handle`, after all global middleware passed; if one stops, its response is returned and no route is looked at |
| `RequestRouter.LaterRoutesDoNotRun` | src/http/Router.cpp:149-180 | Nothing registered after the dispatched route changes the answer |
| `RequestRouter.DispatchedRebuild` | src/http/Router.cpp:57-80 | The same for the request the dispatched handler sees: exactly when the routes before it left no other values, if its path equals the route, and otherwise exactly when a name used twice stands for one value |
| `RequestRouter.StaleCapture` | src/http/Router.cpp:57-58 | An input: with POST /:id/:y registered before GET /a/:id, the handler of the second sees a as the id of GET /a/:id |
| `RequestRouter.DispatchedParameters` | src/http/Router.cpp:76-80 | Of the parameters the dispatched route sees, its own captures have the values it alone gives them |

## Left out

- TLS, sockets, epoll, HTTP/2 callbacks, hashing, MongoDB, Redis, JWT, libsodium, logging and environment loading: foreign calls whose behaviour is not in the source.
- The connection map and oneshot ownership in src/network/TcpServer.cpp, idle timeouts, and the upgrade handshake: only the use of a fresh request per read event is modelled.
- Sending: a send that stops early depends on the TLS layer, so `sendWebSocketMessage` and `serialize` are modelled up to the bytes they build.
- Reading files, MIME types, controllers, repositories, telemetry and the rate limiter: wrappers around the filesystem and services; the file handler is a parameter of the mounted route.
- Route handlers and middleware are arbitrary functions from request and response to request and response; effects outside these two, and exceptions, are not modelled. WebSocket routes (src/http/Router.cpp:262-275) are a map lookup and are left out.
- The JSON body of a request, move semantics and allocation failure: a moved-from `body_` is modelled as empty, which is what the next chunked body sets it to before use.
- Simple accessors (`size`, `empty`, `target`, `version`, status setters and the like): nothing to prove beyond their bodies.
- Memory order: each semaphore, atomic and lock operation, and each store to the ring or its positions inside the lock, is one step of a sequentially consistent execution. Fairness is not assumed: the results say that a thread can move, not that the scheduler lets it.
- Empty `std::function` tasks: a task is an identifier, and an empty slot of the ring is the absence of one.
- 64-bit counters: `consumed_`, sizes and positions are unbounded naturals, because they are proved to stay within the length of a buffer; `pending_tasks_` is an integer, proved never to be negative. Where the source's arithmetic can wrap (chunk sizes, frame lengths) the 64-bit limit is written out.
- `std::from_chars` and `std::to_string` are library calls and modelled by their results. `std::string::find`, `rfind` and `erase_if` likewise.
- Text is a sequence of characters of which bytes are a part; where the value of a byte matters (percent-encoding, WebSocket frames, the read buffer) the type is bytes. `std::isalnum` and `std::tolower` are those of the C locale.
- Connection.ClientConnection.ParseWebSocketFrame: requires that the buffer is no longer than the largest possible `std::string`; the exception of `resize` is a separate verdict.
