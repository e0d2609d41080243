/** Route registration and dispatch (src/http/Router.cpp:84-193, 258-260). */
module RequestRouter {
  import opened ByteStrings
  import opened HttpMessages
  import opened HttpUtils
  import opened PathMatching

  /** A handler or middleware may change the request and the response it gets; middleware also says
      whether to go on. */
  type Handler = (Request, Response) -> (Request, Response)

  datatype Turn = Turn(passed: bool, request: Request, response: Response)

  type Middleware = (Request, Response) -> Turn

  datatype Route = Route(
    method_: HttpMethod, path: string, handler: Handler, isPrefix: bool, middlewares: seq<Middleware>)

  // ----- one request, on values -----

  function RunChain(chain: seq<Middleware>, q: Request, s: Response): Turn
    decreases |chain|
  {
    if chain == [] then Turn(true, q, s)
    else
      var turn := chain[0](q, s);
      if turn.passed then RunChain(chain[1..], turn.request, turn.response) else turn
  }

  predicate PathMatches(route: Route, path: string) {
    if route.isPrefix then route.path <= path else MatchPath(route.path, path).Some?
  }

  /** The parameters a route sets when it matches the path. */
  function Captures(route: Route, path: string): seq<Capture> {
    if route.isPrefix || MatchPath(route.path, path).None? then [] else MatchPath(route.path, path).value
  }

  function Captured(route: Route, q: Request): Request {
    WithParams(q, Overlay(q.params, Captures(route, q.path)))
  }

  function Dispatch(route: Route, q: Request, s: Response): (Request, Response) {
    var turn := RunChain(route.middlewares, q, s);
    if turn.passed then route.handler(turn.request, turn.response) else (turn.request, turn.response)
  }

  function Refusal(s: Response, status: HttpStatus, text: string): Response {
    Response(status, s.headers, text)
  }

  /** The scan over the routes; `found` says that an earlier route matched the path. */
  function Scan(routes: seq<Route>, q: Request, s: Response, found: bool): (Request, Response)
    decreases |routes|
  {
    if routes == [] then
      (q, if found then Refusal(s, MethodNotAllowed, "Method Not Allowed") else Refusal(s, NotFound, "Not Found"))
    else if !PathMatches(routes[0], q.path) then Scan(routes[1..], q, s, found)
    else if routes[0].method_ != q.method_ then Scan(routes[1..], Captured(routes[0], q), s, true)
    else Dispatch(routes[0], Captured(routes[0], q), s)
  }

  function Handled(globals: seq<Middleware>, routes: seq<Route>, q: Request): (Request, Response) {
    var turn := RunChain(globals, q, FRESH_RESPONSE);
    if turn.passed then Scan(routes, turn.request, turn.response, false) else (turn.request, turn.response)
  }

  /** A mounted directory always ends in a slash. */
  function MountPath(mountPoint: string): string
    requires mountPoint != ""
  {
    if mountPoint[|mountPoint| - 1] == '/' then mountPoint else mountPoint + "/"
  }

  /** The prefix of a mounted directory ends in a slash, is the mount point up to that slash, and stays the same
      when it is mounted again. */
  lemma MountPathMeans(mountPoint: string)
    requires mountPoint != ""
    ensures var prefix := MountPath(mountPoint);
            && prefix != "" && prefix[|prefix| - 1] == '/' && MountPath(prefix) == prefix
            && (prefix == mountPoint || prefix == mountPoint + "/")
  {}

  // ----- the router -----

  class Router {
    var routes: seq<Route>
    var globals: seq<Middleware>

    constructor ()
      ensures routes == [] && globals == []
    {
      routes, globals := [], [];
    }

    /** `get`, `post`, `put`, `patch`, `del` and `head` are this, each with its own method. */
    method Register(verb: HttpMethod, path: string, middlewares: seq<Middleware>, handler: Handler)
      modifies this
      ensures routes == old(routes) + [Route(verb, path, handler, false, middlewares)] && globals == old(globals)
    {
      routes := routes + [Route(verb, path, handler, false, middlewares)];
    }

    /** `serveFiles`, with the handler that reads the files as a parameter. */
    method ServeFiles(mountPoint: string, fileHandler: Handler)
      requires mountPoint != ""
      modifies this
      ensures routes == old(routes) + [Route(GET, MountPath(mountPoint), fileHandler, true, [])]
      ensures globals == old(globals)
    {
      var path := mountPoint;
      if path[|path| - 1] != '/' { path := path + "/"; }
      routes := routes + [Route(GET, path, fileHandler, true, [])];
    }

    method Use(middleware: Middleware)
      modifies this
      ensures globals == old(globals) + [middleware] && routes == old(routes)
    {
      globals := globals + [middleware];
    }

    method Handle(request: HttpRequest) returns (response: HttpResponse)
      modifies request, request.headers
      ensures fresh(response) && fresh(response.headers)
      ensures (request.View(), response.View()) == Handled(globals, routes, old(request.View()))
    {
      hide RunChain, PathMatches, Captured, Dispatch, MatchPath;
      response := new HttpResponse();
      var passed := RunMiddlewares(globals, request, response);
      if !passed { return; }
      var pathFound := false;
      ghost var start := Scan(routes, request.View(), response.View(), false);
      var i := 0;
      assert routes[0..] == routes;
      while i < |routes|
        invariant 0 <= i <= |routes|
        invariant Scan(routes[i..], request.View(), response.View(), pathFound) == start
      {
        var route := routes[i];
        assert routes[i..][0] == route && routes[i..][1..] == routes[i + 1..];
        var matches := MatchRoute(route, request);
        i := i + 1;
        if !matches { continue; }
        pathFound := true;
        if route.method_ != request.method_ { continue; }
        RunRoute(route, request, response);
        return;
      }
      if pathFound {
        response.SetStatus(MethodNotAllowed);
        response.SetBody("Method Not Allowed");
      } else {
        response.SetStatus(NotFound);
        response.SetBody("Not Found");
      }
    }

    /** The matching step, which stores the captures in the request. */
    static method MatchRoute(route: Route, request: HttpRequest) returns (matches: bool)
      modifies request
      ensures matches == PathMatches(route, old(request.path))
      ensures request.method_ == old(request.method_)
      ensures request.View() == if matches then Captured(route, old(request.View())) else old(request.View())
    {
      if route.isPrefix {
        return route.path <= request.path;
      }
      matches := MatchDynamicPath(route.path, request.path, request);
    }

    static method RunRoute(route: Route, request: HttpRequest, response: HttpResponse)
      requires request.headers != response.headers
      modifies request, request.headers, response, response.headers
      ensures (request.View(), response.View()) == Dispatch(route, old(request.View()), old(response.View()))
    {
      hide RunChain;
      var passed := RunMiddlewares(route.middlewares, request, response);
      if passed {
        var q := request.Snapshot();
        var s := response.Snapshot();
        var after := route.handler(q, s);
        request.Assign(after.0);
        response.Assign(after.1);
      }
    }

    /** The middleware loop: it ends at the first one that does not pass. */
    static method RunMiddlewares(chain: seq<Middleware>, request: HttpRequest, response: HttpResponse)
      returns (passed: bool)
      requires request.headers != response.headers
      modifies request, request.headers, response, response.headers
      ensures Turn(passed, request.View(), response.View())
           == RunChain(chain, old(request.View()), old(response.View()))
    {
      var i := 0;
      assert chain[0..] == chain;
      while i < |chain|
        invariant 0 <= i <= |chain|
        invariant RunChain(chain[i..], request.View(), response.View())
               == RunChain(chain, old(request.View()), old(response.View()))
      {
        var q := request.Snapshot();
        var s := response.Snapshot();
        var turn := chain[i](q, s);
        request.Assign(turn.request);
        response.Assign(turn.response);
        assert chain[i..][1..] == chain[i + 1..];
        if !turn.passed { return false; }
        i := i + 1;
      }
      return true;
    }
  }

  // ----- what a chain of middleware does -----

  /** The turns that were taken: each middleware gets what the one before it left, starting with the request
      and response given; all but the last turn passed; and if not every middleware had a turn, the last did
      not pass. */
  ghost predicate IsTrace(chain: seq<Middleware>, q: Request, s: Response, turns: seq<Turn>) {
    && |turns| <= |chain|
    && (turns != [] ==> turns[0] == chain[0](q, s))
    && (forall i :: 0 < i < |turns| ==> turns[i] == chain[i](turns[i - 1].request, turns[i - 1].response))
    && (forall i :: 0 <= i < |turns| - 1 ==> turns[i].passed)
    && (|turns| < |chain| ==> turns != [] && !turns[|turns| - 1].passed)
  }

  /** The result of a trace: that of its last turn. */
  function LastTurn(q: Request, s: Response, turns: seq<Turn>): Turn {
    if turns == [] then Turn(true, q, s) else turns[|turns| - 1]
  }

  lemma TraceTail(chain: seq<Middleware>, q: Request, s: Response, turns: seq<Turn>)
    requires IsTrace(chain, q, s, turns) && turns != []
    ensures turns[0].passed ==> IsTrace(chain[1..], turns[0].request, turns[0].response, turns[1..])
    ensures !turns[0].passed ==> |turns| == 1
  {
    var more := turns[1..];
    if turns[0].passed {
      assert forall i :: 0 <= i < |more| ==> more[i] == turns[i + 1];
      assert forall i :: 0 <= i < |chain| - 1 ==> chain[1..][i] == chain[i + 1];
    }
  }

  /** A chain gives what the last turn of its trace left: that of the first middleware that does not pass, or
      of the last one if all pass. */
  lemma {:induction false} ChainMeans(chain: seq<Middleware>, q: Request, s: Response, turns: seq<Turn>)
    requires IsTrace(chain, q, s, turns)
    ensures RunChain(chain, q, s) == LastTurn(q, s, turns)
    ensures RunChain(chain, q, s).passed <==> |turns| == |chain| && forall i :: 0 <= i < |turns| ==> turns[i].passed
    decreases |chain|
  {
    if turns != [] {
      TraceTail(chain, q, s, turns);
      if turns[0].passed {
        var more := turns[1..];
        ChainMeans(chain[1..], turns[0].request, turns[0].response, more);
        assert forall i :: 0 <= i < |more| ==> more[i] == turns[i + 1];
      }
    }
  }

  /** Every chain has a trace. */
  lemma {:induction false} ChainHasTrace(chain: seq<Middleware>, q: Request, s: Response) returns (turns: seq<Turn>)
    ensures IsTrace(chain, q, s, turns)
    decreases |chain|
  {
    if chain == [] {
      turns := [];
    } else {
      var first := chain[0](q, s);
      if first.passed {
        var more := ChainHasTrace(chain[1..], first.request, first.response);
        turns := [first] + more;
        TraceCons(chain, q, s, first, more);
      } else {
        turns := [first];
      }
    }
  }

  lemma TraceCons(chain: seq<Middleware>, q: Request, s: Response, first: Turn, more: seq<Turn>)
    requires chain != [] && first == chain[0](q, s) && first.passed
    requires IsTrace(chain[1..], first.request, first.response, more)
    ensures IsTrace(chain, q, s, [first] + more)
  {
    var turns := [first] + more;
    assert forall i :: 0 <= i < |chain| - 1 ==> chain[1..][i] == chain[i + 1];
    forall i | 0 < i < |turns| ensures turns[i] == chain[i](turns[i - 1].request, turns[i - 1].response) {
      assert turns[i] == more[i - 1];
      if i != 1 { assert turns[i - 1] == more[i - 2]; }
    }
    forall i | 0 <= i < |turns| - 1 ensures turns[i].passed {
      if i != 0 { assert turns[i] == more[i - 1]; }
    }
  }

  /** The handler of a dispatched route runs exactly when every middleware of the route passed, on what the last
      of them left; otherwise the response is what the refusing one left. */
  lemma DispatchMeans(route: Route, q: Request, s: Response, turns: seq<Turn>)
    requires IsTrace(route.middlewares, q, s, turns)
    ensures
      var last := LastTurn(q, s, turns);
      Dispatch(route, q, s) ==
      if |turns| == |route.middlewares| && (forall i :: 0 <= i < |turns| ==> turns[i].passed)
      then route.handler(last.request, last.response)
      else (last.request, last.response)
  {
    ChainMeans(route.middlewares, q, s, turns);
    hide RunChain, IsTrace;
  }

  /** The whole of `handle`: the routes are looked at exactly when every global middleware passed; otherwise the
      response is what the refusing one left.  The first of them gets a response with status 200 and nothing else. */
  lemma HandledMeans(globals: seq<Middleware>, routes: seq<Route>, q: Request, turns: seq<Turn>)
    requires IsTrace(globals, q, Response(OK, [], ""), turns)
    ensures
      var last := LastTurn(q, Response(OK, [], ""), turns);
      Handled(globals, routes, q) ==
      if |turns| == |globals| && (forall i :: 0 <= i < |turns| ==> turns[i].passed)
      then Specified(routes, last.request, last.response)
      else (last.request, last.response)
  {
    ChainMeans(globals, q, FRESH_RESPONSE, turns);
    DispatchExact(globals, routes, q);
    hide RunChain, IsTrace, Specified, Scan;
  }

  // ----- which paths a route matches -----

  /** A mounted prefix matches the paths that begin with it, and captures nothing; any other route matches its
      own path, and, if it holds a ':', the paths with the same segments except where it has a parameter. */
  lemma PathMatchesMeans(route: Route, path: string)
    ensures route.isPrefix ==>
              Captures(route, path) == [] && (PathMatches(route, path) <==> exists rest: string :: path == route.path + rest)
    ensures !route.isPrefix ==>
              (PathMatches(route, path) <==>
                 route.path == path || (':' in route.path && SegmentsMatch(Segments(route.path), Segments(path))))
  {
    hide MatchPath, Segments, SegmentsMatch;
    MatchExact(route.path, path);
    if route.isPrefix && route.path <= path { assert path == route.path + path[|route.path|..]; }
  }

  // ----- what dispatch means -----

  predicate FullMatch(route: Route, q: Request) {
    PathMatches(route, q.path) && route.method_ == q.method_
  }

  /** The first route that matches the path and the method. */
  function FirstFull(routes: seq<Route>, q: Request): (k: nat)
    ensures k <= |routes| && (k < |routes| ==> PathMatches(routes[k], q.path) && routes[k].method_ == q.method_)
    ensures forall i :: 0 <= i < k ==> !(PathMatches(routes[i], q.path) && routes[i].method_ == q.method_)
    decreases |routes|
  {
    if routes == [] || FullMatch(routes[0], q) then 0 else FirstFull(routes[1..], q) + 1
  }

  /** The captures of all routes that match the path, in the order of the routes. */
  function AllCaptures(routes: seq<Route>, path: string): seq<Capture>
    decreases |routes|
  {
    if routes == [] then [] else Captures(routes[0], path) + AllCaptures(routes[1..], path)
  }

  function WithCaptures(q: Request, captures: seq<Capture>): Request {
    WithParams(q, Overlay(q.params, captures))
  }

  predicate SomePath(routes: seq<Route>, path: string) {
    exists i :: 0 <= i < |routes| && PathMatches(routes[i], path)
  }

  /** The handler that may run is that of the first route matching path and method, on a request that
      carries the captures of all path-matching routes up to it.  Otherwise the result is 405 exactly
      when some route matches the path, and 404 exactly when none does. */
  ghost function Specified(routes: seq<Route>, q: Request, s: Response): (Request, Response) {
    var k := FirstFull(routes, q);
    if k < |routes| then Dispatch(routes[k], WithCaptures(q, AllCaptures(routes[..k + 1], q.path)), s)
    else if SomePath(routes, q.path) then
      (WithCaptures(q, AllCaptures(routes, q.path)), Response(MethodNotAllowed, s.headers, "Method Not Allowed"))
    else (q, Response(NotFound, s.headers, "Not Found"))
  }

  lemma {:induction false} OverlayAppends(params: map<string, string>, xs: seq<Capture>, ys: seq<Capture>)
    ensures Overlay(params, xs + ys) == Overlay(Overlay(params, xs), ys)
    decreases |xs|
  {
    if xs == [] {
      assert xs + ys == ys;
    } else {
      assert (xs + ys)[1..] == xs[1..] + ys;
      OverlayAppends(params[xs[0].0 := xs[0].1], xs[1..], ys);
    }
  }

  /** Capturing for the first route and then for the others is capturing for all. */
  lemma CaptureInTurn(route: Route, routes: seq<Route>, q: Request)
    ensures WithCaptures(Captured(route, q), AllCaptures(routes, q.path))
         == WithCaptures(q, AllCaptures([route] + routes, q.path))
  {
    assert ([route] + routes)[1..] == routes;
    OverlayAppends(q.params, Captures(route, q.path), AllCaptures(routes, q.path));
  }

  lemma NoPathNoCaptures(route: Route, q: Request)
    requires !PathMatches(route, q.path)
    ensures Captured(route, q) == q
  {}

  lemma OneRoute(route: Route, q: Request)
    ensures WithCaptures(q, AllCaptures([route], q.path)) == Captured(route, q)
  {
    hide Captures, Overlay;
    assert Captures(route, q.path) + [] == Captures(route, q.path);
  }

  /** What the scan comes to, seen from its first full match. */
  predicate ScanIsExact(routes: seq<Route>, q: Request, s: Response, found: bool) {
    Scan(routes, q, s, found) ==
    var k := FirstFull(routes, q);
    if k < |routes| then Dispatch(routes[k], WithCaptures(q, AllCaptures(routes[..k + 1], q.path)), s)
    else (WithCaptures(q, AllCaptures(routes, q.path)),
          if found || SomePath(routes, q.path) then Response(MethodNotAllowed, s.headers, "Method Not Allowed")
          else Response(NotFound, s.headers, "Not Found"))
  }

  lemma ScanFullMatch(route: Route, rest: seq<Route>, q: Request, s: Response, found: bool)
    requires FullMatch(route, q)
    ensures ScanIsExact([route] + rest, q, s, found)
  {
    hide PathMatches, Captures, Overlay, Dispatch, AllCaptures;
    assert ([route] + rest)[..1] == [route];
    OneRoute(route, q);
  }

  lemma ScanStep(route: Route, rest: seq<Route>, q: Request, s: Response, found: bool)
    requires !FullMatch(route, q)
    ensures FirstFull([route] + rest, q) == FirstFull(rest, q) + 1
    ensures Scan([route] + rest, q, s, found) == Scan(rest, Captured(route, q), s, found || PathMatches(route, q.path))
    ensures Captured(route, q).path == q.path && Captured(route, q).method_ == q.method_
  {
    if !PathMatches(route, q.path) { NoPathNoCaptures(route, q); }
    hide PathMatches, Captures, Overlay, Dispatch;
    assert ([route] + rest)[1..] == rest;
  }

  lemma ScanSkips(route: Route, rest: seq<Route>, q: Request, s: Response, found: bool)
    requires !FullMatch(route, q) && ScanIsExact(rest, Captured(route, q), s, found || PathMatches(route, q.path))
    ensures ScanIsExact([route] + rest, q, s, found)
  {
    hide PathMatches, Captures, Overlay, Dispatch, AllCaptures, SomePath, WithCaptures;
    var routes, next := [route] + rest, Captured(route, q);
    ScanStep(route, rest, q, s, found);
    FirstFullOf(rest, q, next);
    hide Scan, FirstFull, FullMatch, Captured;
    var k := FirstFull(rest, q);
    CaptureInTurn(route, rest, q);
    if k < |rest| {
      assert routes[..k + 2] == [route] + rest[..k + 1];
      CaptureInTurn(route, rest[..k + 1], q);
    }
    assert routes[1..] == rest;
    SomePathStep(routes, q.path);
  }

  /** The scan, where `found` says whether an earlier route matched the path. */
  lemma {:induction false} ScanExact(routes: seq<Route>, q: Request, s: Response, found: bool)
    ensures ScanIsExact(routes, q, s, found)
    decreases |routes|
  {
    if routes != [] {
      hide ScanIsExact, PathMatches, Captured;
      assert routes == [routes[0]] + routes[1..];
      if FullMatch(routes[0], q) {
        ScanFullMatch(routes[0], routes[1..], q, s, found);
      } else {
        ScanExact(routes[1..], Captured(routes[0], q), s, found || PathMatches(routes[0], q.path));
        ScanSkips(routes[0], routes[1..], q, s, found);
      }
    }
  }

  lemma SomePathStep(routes: seq<Route>, path: string)
    requires routes != []
    ensures SomePath(routes, path) <==> PathMatches(routes[0], path) || SomePath(routes[1..], path)
  {
    hide PathMatches;
    if SomePath(routes[1..], path) {
      var i :| 0 <= i < |routes[1..]| && PathMatches(routes[1..][i], path);
      assert PathMatches(routes[i + 1], path);
    }
    if SomePath(routes, path) && !PathMatches(routes[0], path) {
      var i :| 0 <= i < |routes| && PathMatches(routes[i], path);
      assert PathMatches(routes[1..][i - 1], path);
    }
  }

  /** Only the path and the method decide which route is meant. */
  lemma {:induction false} FirstFullOf(routes: seq<Route>, q: Request, q': Request)
    requires q.path == q'.path && q.method_ == q'.method_
    ensures FirstFull(routes, q) == FirstFull(routes, q')
    decreases |routes|
  {
    hide PathMatches;
    if routes != [] { FirstFullOf(routes[1..], q, q'); }
  }

  lemma {:induction false} NoPathCapturesNothing(routes: seq<Route>, q: Request)
    requires !SomePath(routes, q.path)
    ensures AllCaptures(routes, q.path) == []
    decreases |routes|
  {
    if routes != [] {
      SomePathStep(routes, q.path);
      NoPathCapturesNothing(routes[1..], q);
    }
  }

  /** Dispatch does what `Specified` says. */
  lemma DispatchExact(globals: seq<Middleware>, routes: seq<Route>, q: Request)
    ensures Handled(globals, routes, q) ==
            var turn := RunChain(globals, q, FRESH_RESPONSE);
            if turn.passed then Specified(routes, turn.request, turn.response) else (turn.request, turn.response)
  {
    hide RunChain, Scan, FirstFull, AllCaptures, Dispatch, PathMatches;
    var turn := RunChain(globals, q, FRESH_RESPONSE);
    ScanExact(routes, turn.request, turn.response, false);
    if !SomePath(routes, turn.request.path) { NoPathCapturesNothing(routes, turn.request); }
  }

  /** Nothing registered after the route that is meant can change the answer. */
  lemma LaterRoutesDoNotRun(routes: seq<Route>, more: seq<Route>, q: Request, s: Response)
    requires FirstFull(routes, q) < |routes|
    ensures Scan(routes + more, q, s, false) == Scan(routes, q, s, false)
  {
    hide Dispatch, Overlay, AllCaptures, PathMatches;
    var k := FirstFull(routes, q);
    ScanExact(routes, q, s, false);
    ScanExact(routes + more, q, s, false);
    assert forall i :: 0 <= i <= k ==> (routes + more)[i] == routes[i];
    assert FullMatch((routes + more)[k], q);
    assert FirstFull(routes + more, q) == k;
    assert (routes + more)[..k + 1] == routes[..k + 1];
  }

  /** A parameter that the dispatched route captures has the value of its own capture, whatever the
      earlier routes captured and the request held. */
  lemma {:induction false} OwnCapturesWin(params: map<string, string>, other: map<string, string>,
                                          own: seq<Capture>, i: nat)
    requires i < |own|
    ensures own[i].0 in Overlay(params, own) && own[i].0 in Overlay(other, own)
    ensures Overlay(params, own)[own[i].0] == Overlay(other, own)[own[i].0]
    decreases |own|
  {
    var more, less := params[own[0].0 := own[0].1], other[own[0].0 := own[0].1];
    SameKeyKept(more, less, own[1..], own[0].0);
    if i != 0 {
      assert own[1..][i - 1] == own[i];
      OwnCapturesWin(more, less, own[1..], i - 1);
    }
  }

  lemma {:induction false} SameKeyKept(params: map<string, string>, other: map<string, string>,
                                       captures: seq<Capture>, key: string)
    requires key in params && key in other && params[key] == other[key]
    ensures key in Overlay(params, captures) && key in Overlay(other, captures)
    ensures Overlay(params, captures)[key] == Overlay(other, captures)[key]
    decreases |captures|
  {
    if captures != [] {
      SameKeyKept(params[captures[0].0 := captures[0].1], other[captures[0].0 := captures[0].1], captures[1..], key);
    }
  }

  lemma AllCapturesAppend(routes: seq<Route>, route: Route, path: string)
    ensures AllCaptures(routes + [route], path) == AllCaptures(routes, path) + Captures(route, path)
    decreases |routes|
  {
    hide Captures;
    var own := Captures(route, path);
    if routes == [] {
      assert [route][1..] == [] && routes + [route] == [route] && own + [] == own && [] + own == own;
    } else {
      assert (routes + [route])[1..] == routes[1..] + [route];
      AllCapturesAppend(routes[1..], route, path);
      Associates(Captures(routes[0], path), AllCaptures(routes[1..], path), own);
    }
  }

  /** In the request that the route at `k` sees, its own captures are overlaid last, so each of its
      parameters has the value it alone gives it. */
  lemma DispatchedParameters(routes: seq<Route>, k: nat, q: Request, i: nat)
    requires k < |routes| && i < |Captures(routes[k], q.path)|
    ensures var own := Captures(routes[k], q.path);
            var seen := WithCaptures(q, AllCaptures(routes[..k + 1], q.path)).params;
            && own[i].0 in seen && own[i].0 in Overlay(map[], own)
            && seen[own[i].0] == Overlay(map[], own)[own[i].0]
  {
    hide Overlay, Captures;
    assert routes[..k + 1] == routes[..k] + [routes[k]];
    AllCapturesAppend(routes[..k], routes[k], q.path);
    var earlier, own := AllCaptures(routes[..k], q.path), Captures(routes[k], q.path);
    OverlayAppends(q.params, earlier, own);
    OwnCapturesWin(Overlay(q.params, earlier), map[], own, i);
  }

  /** When the dispatched handler can rebuild the path from its parameters: for a path that equals the route,
      exactly when the earlier routes and middleware left no other values; otherwise exactly when a name used
      twice stands for one value. */
  lemma DispatchedRebuild(routes: seq<Route>, k: nat, q: Request)
    requires k < |routes| && !routes[k].isPrefix && PathMatches(routes[k], q.path)
    ensures
      var pattern, seen := Segments(routes[k].path), WithCaptures(q, AllCaptures(routes[..k + 1], q.path)).params;
      Substitute(pattern, seen) == Segments(q.path)
      <==> if routes[k].path == q.path
           then NoStale(pattern, WithCaptures(q, AllCaptures(routes[..k], q.path)).params)
           else NamesAgree(pattern, Segments(q.path))
  {
    var earlier, own := AllCaptures(routes[..k], q.path), Captures(routes[k], q.path);
    assert own == MatchPath(routes[k].path, q.path).value;
    hide Overlay, Captures, MatchPath, Substitute, NoStale, NamesAgree, Segments;
    assert routes[..k + 1] == routes[..k] + [routes[k]];
    AllCapturesAppend(routes[..k], routes[k], q.path);
    OverlayAppends(q.params, earlier, own);
    ParametersRebuildPath(routes[k].path, q.path, Overlay(q.params, earlier));
  }

  const FIRST_PATTERN := "/:id/:y"
  const SECOND_PATTERN := "/a/:id"

  /** A capture of an earlier route stays: with "POST /:id/:y" registered before "GET /a/:id", the handler of
      the second, asked for GET /a/:id, sees "a" as its `id`. */
  lemma StaleCapture(first: Handler, second: Handler)
    ensures
      var routes := [Route(POST, FIRST_PATTERN, first, false, []), Route(GET, SECOND_PATTERN, second, false, [])];
      var q := FRESH_REQUEST.(method_ := GET, path := SECOND_PATTERN);
      var seen := WithCaptures(q, AllCaptures(routes[..2], q.path)).params;
      && FirstFull(routes, q) == 1 && Scan(routes, q, FRESH_RESPONSE, false).1
                                   == second(q.(params := seen), FRESH_RESPONSE).1
      && "id" in seen && seen["id"] == "a"
      && Substitute(Segments(SECOND_PATTERN), seen) != Segments(SECOND_PATTERN)
  {
    var one, two := Route(POST, FIRST_PATTERN, first, false, []), Route(GET, SECOND_PATTERN, second, false, []);
    var routes, q := [one, two], FRESH_REQUEST.(method_ := GET, path := SECOND_PATTERN);
    StaleMatch();
    hide SplitFrom, MatchSegments, MatchPath, Substitute, Overlay;
    assert Captures(one, q.path) == [("id", "a"), ("y", ":id")] && Captures(two, q.path) == [];
    assert routes[1..] == [two] && [two][1..] == [] && routes[..2] == routes && routes[..1] == [one] && [one][1..] == [];
    assert !FullMatch(one, q) && FullMatch(two, q);
    assert FirstFull([two], q) == 0 && FirstFull(routes, q) == 1;
    ScanExact(routes, q, FRESH_RESPONSE, false);
    var own := Captures(one, q.path);
    assert AllCaptures([two], q.path) == [] + AllCaptures([], q.path) == [];
    assert AllCaptures(routes, q.path) == own + [] == own;
    StaleOverlay(q.params);
    DispatchedRebuild(routes, 1, q);
    assert AllCaptures([one], q.path) == own + [] == own;
    assert Segments(SECOND_PATTERN)[1][1..] == "id";
  }

  lemma StaleMatch()
    ensures Segments(SECOND_PATTERN) == ["a", ":id"]
    ensures MatchPath(FIRST_PATTERN, SECOND_PATTERN) == Some([("id", "a"), ("y", ":id")])
    ensures MatchPath(SECOND_PATTERN, SECOND_PATTERN) == Some([])
  {
    PatternSegments();
    HoldsColon();
    hide SplitFrom, FindChar, MatchSegments;
    TwoCaptures(":id", ":y", "a", ":id");
    assert ":id"[1..] == "id" && ":y"[1..] == "y";
  }

  lemma PatternSegments()
    ensures Segments(FIRST_PATTERN) == [":id", ":y"] && Segments(SECOND_PATTERN) == ["a", ":id"]
  {
    hide SplitFrom;
    assert "/" + ":id" == "/:id" && "/:id" + "/" == "/:id/" && "/:id/" + ":y" == FIRST_PATTERN;
    assert "/" + "a" == "/a" && "/a" + "/" == "/a/" && "/a/" + ":id" == SECOND_PATTERN;
    TwoSegments(FIRST_PATTERN, ":id", ":y");
    TwoSegments(SECOND_PATTERN, "a", ":id");
  }

  lemma HoldsColon()
    ensures FindChar(FIRST_PATTERN, ':', 0) != NPOS && FIRST_PATTERN != SECOND_PATTERN
  {
    FirstChar(FIRST_PATTERN, ':', 0);
    assert FIRST_PATTERN[1] == ':' && SECOND_PATTERN[1] == 'a';
  }

  lemma TwoCaptures(a: string, b: string, x: string, y: string)
    requires IsParameter(a) && IsParameter(b)
    ensures MatchSegments([a, b], [x, y]) == Some([(a[1..], x), (b[1..], y)])
  {
    assert [a, b][1..] == [b] && [x, y][1..] == [y] && [b][1..] == [] && [y][1..] == [];
    assert MatchSegments([b], [y]) == Some([(b[1..], y)] + []);
    assert [(a[1..], x)] + ([(b[1..], y)] + []) == [(a[1..], x), (b[1..], y)];
  }

  lemma StaleOverlay(params: map<string, string>)
    ensures var after := Overlay(params, [("id", "a"), ("y", ":id")]);
            "id" in after && after["id"] == "a"
  {
    var two := [("id", "a"), ("y", ":id")];
    assert two[1..] == [("y", ":id")] && two[1..][1..] == [];
    assert Overlay(params["id" := "a"], two[1..]) == Overlay(params["id" := "a"]["y" := ":id"], []);
  }
}
