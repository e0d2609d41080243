/** Path segments and patterns with parameters (src/http/Router.cpp:36-82). */
module PathMatching {
  import opened ByteStrings
  import opened HttpMessages

  // ----- splitting -----

  /** The segments from `start` on. */
  function SplitFrom(s: string, start: nat, delim: char): seq<string>
    decreases |s| - start
  {
    if |s| <= start then []
    else
      var end := FindChar(s, delim, start);
      if end == NPOS then [s[start..]]
      else if end == start then SplitFrom(s, start + 1, delim)
      else [s[start..end]] + SplitFrom(s, end + 1, delim)
  }

  method SplitPath(s: string, delim: char) returns (result: seq<string>)
    ensures result == SplitFrom(s, 0, delim)
  {
    result := [];
    var start := 0;
    while start < |s|
      invariant result + SplitFrom(s, start, delim) == SplitFrom(s, 0, delim)
      decreases |s| - start
    {
      var end := FindChar(s, delim, start);
      if end == NPOS {
        if start < |s| && s[start..] != "" {
          result := result + [s[start..]];
        }
        return;
      }
      ghost var rest := SplitFrom(s, end + 1, delim);
      if end > start {
        Associates(result, [s[start..end]], rest);
        result := result + [s[start..end]];
      }
      start := end + 1;
    }
    assert result + [] == result;
  }

  predicate CleanSegment(segment: string, delim: char) {
    segment != "" && forall i :: 0 <= i < |segment| ==> segment[i] != delim
  }

  /** Every segment is non-empty and free of the delimiter. */
  lemma {:induction false} SegmentsAreClean(s: string, start: nat, delim: char)
    ensures forall i :: 0 <= i < |SplitFrom(s, start, delim)| ==> CleanSegment(SplitFrom(s, start, delim)[i], delim)
    decreases |s| - start
  {
    if start < |s| {
      FirstChar(s, delim, start);
      var end := FindChar(s, delim, start);
      if end == NPOS {
        assert CleanSegment(s[start..], delim);
      } else {
        SegmentsAreClean(s, end + 1, delim);
        if end > start { assert CleanSegment(s[start..end], delim); }
      }
    }
  }

  function Repeat(delim: char, n: nat): string { seq(n, i => delim) }

  /** Segments, each before and after a run of delimiters; `gaps[i]` is the run before segment `i`. */
  function Join(segments: seq<string>, gaps: seq<nat>, delim: char): string
    requires |gaps| == |segments| + 1
  {
    if segments == [] then Repeat(delim, gaps[0])
    else Repeat(delim, gaps[0]) + segments[0] + Join(segments[1..], gaps[1..], delim)
  }

  /** Runs between two segments are not empty; the first and the last run may be. */
  predicate Separated(segments: seq<string>, gaps: seq<nat>) {
    |gaps| == |segments| + 1 && forall i :: 1 <= i < |segments| ==> 0 < gaps[i]
  }

  lemma SkipOne(s: string, start: nat, delim: char)
    requires start < |s| && s[start] == delim
    ensures SplitFrom(s, start, delim) == SplitFrom(s, start + 1, delim)
  {
    CharIsFirst(s, delim, start, start);
  }

  lemma {:induction false} SkipDelimiters(s: string, start: nat, n: nat, delim: char)
    requires start + n <= |s| && forall i :: start <= i < start + n ==> s[i] == delim
    ensures SplitFrom(s, start, delim) == SplitFrom(s, start + n, delim)
    decreases n
  {
    hide SplitFrom;
    if n != 0 {
      SkipOne(s, start, delim);
      SkipDelimiters(s, start + 1, n - 1, delim);
    }
  }

  lemma SegmentThenRest(s: string, start: nat, end: nat, delim: char)
    requires start < end <= |s| && (end < |s| ==> s[end] == delim)
    requires forall i :: start <= i < end ==> s[i] != delim
    ensures SplitFrom(s, start, delim) == [s[start..end]] + SplitFrom(s, end, delim)
  {
    CharIsFirst(s, delim, start, end);
    if end < |s| {
      SkipOne(s, end, delim);
    } else {
      assert s[start..] == s[start..end] && [s[start..]] + [] == [s[start..]];
    }
  }

  lemma OneSegment(s: string, start: nat, segment: string, rest: string, delim: char)
    requires start <= |s| && s[start..] == segment + rest && CleanSegment(segment, delim)
    requires rest == "" || rest[0] == delim
    ensures start + |segment| <= |s| && s[start + |segment|..] == rest
    ensures SplitFrom(s, start, delim) == [segment] + SplitFrom(s, start + |segment|, delim)
  {
    hide SplitFrom;
    var tail, end := s[start..], start + |segment|;
    forall i | start <= i < end ensures s[i] != delim {
      assert s[i] == tail[i - start] == segment[i - start];
    }
    assert s[start..end] == tail[..|segment|] == segment;
    assert s[end..] == tail[|segment|..] == rest;
    if rest != "" { assert s[end] == tail[|segment|] == rest[0]; }
    SegmentThenRest(s, start, end, delim);
  }

  /** The run of delimiters in front is skipped. */
  lemma SkipGap(s: string, start: nat, n: nat, rest: string, delim: char)
    requires start <= |s| && s[start..] == Repeat(delim, n) + rest
    ensures start + n <= |s| && s[start + n..] == rest
    ensures SplitFrom(s, start, delim) == SplitFrom(s, start + n, delim)
  {
    hide SplitFrom;
    var tail := s[start..];
    assert tail[n..] == rest;
    forall i | start <= i < start + n ensures s[i] == delim {
      assert s[i] == tail[i - start] == Repeat(delim, n)[i - start];
    }
    SkipDelimiters(s, start, n, delim);
  }

  lemma GapThenSegment(s: string, start: nat, n: nat, segment: string, rest: string, delim: char)
    requires start <= |s| && s[start..] == Repeat(delim, n) + (segment + rest) && CleanSegment(segment, delim)
    requires rest == "" || rest[0] == delim
    ensures start + n + |segment| <= |s| && s[start + n + |segment|..] == rest
    ensures SplitFrom(s, start, delim) == [segment] + SplitFrom(s, start + n + |segment|, delim)
  {
    hide SplitFrom, Repeat, CleanSegment;
    SkipGap(s, start, n, segment + rest, delim);
    OneSegment(s, start + n, segment, rest, delim);
  }

  /** After the first segment the joined text is over or goes on with a delimiter. */
  lemma JoinStartsWithGap(segments: seq<string>, gaps: seq<nat>, delim: char)
    requires |gaps| == |segments| + 1 && (segments != [] ==> 0 < gaps[0])
    ensures Join(segments, gaps, delim) == "" || Join(segments, gaps, delim)[0] == delim
  {
    if segments == [] {
      assert Join(segments, gaps, delim) == Repeat(delim, gaps[0]);
    } else {
      assert (Repeat(delim, gaps[0]) + segments[0] + Join(segments[1..], gaps[1..], delim))[0] == delim;
    }
  }

  lemma JoinStep(segments: seq<string>, gaps: seq<nat>, delim: char)
    requires |gaps| == |segments| + 1 && segments != []
    ensures Join(segments, gaps, delim) == Repeat(delim, gaps[0]) + (segments[0] + Join(segments[1..], gaps[1..], delim))
  {
    Associates(Repeat(delim, gaps[0]), segments[0], Join(segments[1..], gaps[1..], delim));
  }

  /** Splitting undoes joining, whatever the runs of delimiters around the segments. */
  lemma {:induction false} SplitInvertsJoin(s: string, start: nat, segments: seq<string>, gaps: seq<nat>, delim: char)
    requires Separated(segments, gaps) && start <= |s| && s[start..] == Join(segments, gaps, delim)
    requires forall i :: 0 <= i < |segments| ==> CleanSegment(segments[i], delim)
    ensures SplitFrom(s, start, delim) == segments
    decreases |segments|
  {
    hide Repeat, CleanSegment, SplitFrom, Join;
    if segments == [] {
      OnlyGap(s, start, gaps, delim);
    } else {
      var rest := Join(segments[1..], gaps[1..], delim);
      JoinStep(segments, gaps, delim);
      SeparatedTail(segments, gaps);
      hide Separated;
      JoinStartsWithGap(segments[1..], gaps[1..], delim);
      GapThenSegment(s, start, gaps[0], segments[0], rest, delim);
      SplitInvertsJoin(s, start + gaps[0] + |segments[0]|, segments[1..], gaps[1..], delim);
    }
  }

  lemma OnlyGap(s: string, start: nat, gaps: seq<nat>, delim: char)
    requires |gaps| == 1 && start <= |s| && s[start..] == Join([], gaps, delim)
    ensures SplitFrom(s, start, delim) == []
  {
    assert Repeat(delim, gaps[0]) + "" == Repeat(delim, gaps[0]);
    SkipGap(s, start, gaps[0], "", delim);
  }

  lemma SeparatedTail(segments: seq<string>, gaps: seq<nat>)
    requires Separated(segments, gaps) && segments != []
    ensures Separated(segments[1..], gaps[1..]) && (segments[1..] != [] ==> 0 < gaps[1..][0])
  {}

  // ----- matching -----

  type Capture = (string, string)

  predicate IsParameter(segment: string) { segment != "" && segment[0] == ':' }

  /** The captures of a segment-by-segment match, in order. */
  function MatchSegments(pattern: seq<string>, path: seq<string>): Option<seq<Capture>>
    requires |pattern| == |path|
    decreases |pattern|
  {
    if pattern == [] then Some([])
    else if !IsParameter(pattern[0]) && pattern[0] != path[0] then None
    else
      var rest := MatchSegments(pattern[1..], path[1..]);
      if rest.None? then None
      else Some((if IsParameter(pattern[0]) then [(pattern[0][1..], path[0])] else []) + rest.value)
  }

  function Segments(path: string): seq<string> { SplitFrom(path, 0, '/') }

  /** None if the path does not match, otherwise the captures. */
  function MatchPath(route: string, path: string): Option<seq<Capture>> {
    if route == path then Some([])
    else if FindChar(route, ':', 0) == NPOS then None
    else if |Segments(route)| != |Segments(path)| then None
    else MatchSegments(Segments(route), Segments(path))
  }

  /** `setParam` for each capture in turn. */
  function Overlay(params: map<string, string>, captures: seq<Capture>): map<string, string>
    decreases |captures|
  {
    if captures == [] then params else Overlay(params[captures[0].0 := captures[0].1], captures[1..])
  }

  method MatchDynamicPath(route: string, path: string, request: HttpRequest) returns (matches: bool)
    modifies request
    ensures matches <==> MatchPath(route, path).Some?
    ensures request.View() ==
            if matches then old(request.View()).(params := Overlay(old(request.params), MatchPath(route, path).value))
            else old(request.View())
  {
    if route == path { return true; }
    if FindChar(route, ':', 0) == NPOS { return false; }
    var routeSegments := SplitPath(route, '/');
    var pathSegments := SplitPath(path, '/');
    if |routeSegments| != |pathSegments| { return false; }
    var ok, captures := CaptureSegments(routeSegments, pathSegments);
    if !ok { return false; }
    SetParams(captures, request);
    return true;
  }

  /** The segment loop. */
  method CaptureSegments(pattern: seq<string>, path: seq<string>) returns (ok: bool, captures: seq<Capture>)
    requires |pattern| == |path|
    ensures ok <==> MatchSegments(pattern, path).Some?
    ensures ok ==> MatchSegments(pattern, path) == Some(captures)
  {
    captures := [];
    var i := 0;
    assert pattern[0..] == pattern && path[0..] == path;
    assert forall rest: seq<Capture> :: [] + rest == rest;
    while i < |pattern|
      invariant 0 <= i <= |pattern|
      invariant MatchSegments(pattern, path) ==
                var rest := MatchSegments(pattern[i..], path[i..]);
                if rest.None? then None else Some(captures + rest.value)
    {
      assert pattern[i..][1..] == pattern[i + 1..] && path[i..][1..] == path[i + 1..];
      ghost var rest := MatchSegments(pattern[i + 1..], path[i + 1..]);
      if pattern[i] != "" && pattern[i][0] == ':' {
        if rest.Some? { Associates(captures, [(pattern[i][1..], path[i])], rest.value); }
        captures := captures + [(pattern[i][1..], path[i])];
      } else if pattern[i] != path[i] {
        return false, captures;
      } else {
        if rest.Some? { assert [] + rest.value == rest.value; }
      }
      i := i + 1;
    }
    assert captures + [] == captures;
    return true, captures;
  }

  /** The loop that stores the captures. */
  method SetParams(captures: seq<Capture>, request: HttpRequest)
    modifies request
    ensures request.View() == old(request.View()).(params := Overlay(old(request.params), captures))
  {
    var i := 0;
    ghost var before := request.View();
    assert captures[0..] == captures;
    while i < |captures|
      invariant 0 <= i <= |captures|
      invariant request.View() == before.(params := request.params)
      invariant Overlay(request.params, captures[i..]) == Overlay(before.params, captures)
    {
      assert captures[i..][1..] == captures[i + 1..];
      request.SetParam(captures[i].0, captures[i].1);
      i := i + 1;
    }
  }

  // ----- what a match means -----

  /** Segment by segment, a parameter or the same literal. */
  predicate SegmentsMatch(pattern: seq<string>, path: seq<string>) {
    && |pattern| == |path|
    && forall i :: 0 <= i < |pattern| ==> (pattern[i] != "" && pattern[i][0] == ':') || pattern[i] == path[i]
  }

  lemma {:induction false} MatchSegmentsExact(pattern: seq<string>, path: seq<string>)
    requires |pattern| == |path|
    ensures MatchSegments(pattern, path).Some? <==> SegmentsMatch(pattern, path)
  {
    if pattern != [] {
      MatchSegmentsExact(pattern[1..], path[1..]);
      if SegmentsMatch(pattern[1..], path[1..]) && (IsParameter(pattern[0]) || pattern[0] == path[0]) {
        forall i | 0 <= i < |pattern| ensures IsParameter(pattern[i]) || pattern[i] == path[i] {
          if i != 0 { assert pattern[1..][i - 1] == pattern[i] && path[1..][i - 1] == path[i]; }
        }
      }
      if SegmentsMatch(pattern, path) {
        forall i | 0 <= i < |pattern[1..]| ensures IsParameter(pattern[1..][i]) || pattern[1..][i] == path[1..][i] {
          assert IsParameter(pattern[i + 1]) || pattern[i + 1] == path[i + 1];
        }
      }
    }
  }

  /** A path matches exactly when it equals the route, or the route holds a ':' and both have the same
      number of segments, with every literal segment of the route equal to that of the path. */
  lemma MatchExact(route: string, path: string)
    ensures MatchPath(route, path).Some?
       <==> route == path || (':' in route && SegmentsMatch(Segments(route), Segments(path)))
  {
    hide SplitFrom;
    FirstChar(route, ':', 0);
    if |Segments(route)| == |Segments(path)| {
      MatchSegmentsExact(Segments(route), Segments(path));
    }
  }

  /** Every parameter segment replaced by the value its name has. */
  function Substitute(pattern: seq<string>, params: map<string, string>): seq<string>
    decreases |pattern|
  {
    if pattern == [] then []
    else [if IsParameter(pattern[0]) && pattern[0][1..] in params then params[pattern[0][1..]] else pattern[0]]
         + Substitute(pattern[1..], params)
  }

  lemma {:induction false} OverlayKeeps(params: map<string, string>, captures: seq<Capture>, key: string)
    requires key in params && forall i :: 0 <= i < |captures| ==> captures[i].0 != key
    ensures key in Overlay(params, captures) && Overlay(params, captures)[key] == params[key]
    decreases |captures|
  {
    if captures != [] {
      assert captures[0].0 != key;
      forall i | 0 <= i < |captures[1..]| ensures captures[1..][i].0 != key { assert captures[i + 1].0 != key; }
      OverlayKeeps(params[captures[0].0 := captures[0].1], captures[1..], key);
    }
  }

  /** The names captured are parameter names of the pattern. */
  lemma {:induction false} CapturedNames(pattern: seq<string>, path: seq<string>, name: string)
    requires |pattern| == |path| && MatchSegments(pattern, path).Some?
    requires forall i :: 0 <= i < |pattern| && IsParameter(pattern[i]) ==> pattern[i][1..] != name
    ensures forall i :: 0 <= i < |MatchSegments(pattern, path).value| ==> MatchSegments(pattern, path).value[i].0 != name
  {
    if pattern != [] {
      assert IsParameter(pattern[0]) ==> pattern[0][1..] != name;
      forall i | 0 <= i < |pattern[1..]| && IsParameter(pattern[1..][i]) ensures pattern[1..][i][1..] != name {
        assert pattern[1..][i] == pattern[i + 1];
      }
      CapturedNames(pattern[1..], path[1..], name);
    }
  }

  /** Of two parameters with one name the later wins. */
  lemma {:induction false} LastUseWins(pattern: seq<string>, path: seq<string>, params: map<string, string>, i: nat)
    requires |pattern| == |path| && MatchSegments(pattern, path).Some?
    requires i < |pattern| && IsParameter(pattern[i])
    requires forall j :: i < j < |pattern| ==> pattern[j] != pattern[i]
    ensures var after := Overlay(params, MatchSegments(pattern, path).value);
            pattern[i][1..] in after && after[pattern[i][1..]] == path[i]
    decreases |pattern|
  {
    var rest := MatchSegments(pattern[1..], path[1..]).value;
    var more := if IsParameter(pattern[0]) then params[pattern[0][1..] := path[0]] else params;
    assert Overlay(params, MatchSegments(pattern, path).value) == Overlay(more, rest) by {
      if IsParameter(pattern[0]) {
        assert ([(pattern[0][1..], path[0])] + rest)[1..] == rest;
      } else {
        assert [] + rest == rest;
      }
    }
    if i == 0 {
      forall j | 0 <= j < |pattern[1..]| && IsParameter(pattern[1..][j])
        ensures pattern[1..][j][1..] != pattern[0][1..]
      {
        assert pattern[1..][j] == pattern[j + 1] != pattern[0];
        assert pattern[j + 1] == [':'] + pattern[j + 1][1..] && pattern[0] == [':'] + pattern[0][1..];
      }
      CapturedNames(pattern[1..], path[1..], pattern[0][1..]);
      OverlayKeeps(more, rest, pattern[0][1..]);
    } else {
      forall j | i - 1 < j < |pattern[1..]| ensures pattern[1..][j] != pattern[1..][i - 1] {
        assert pattern[1..][j] == pattern[j + 1];
      }
      LastUseWins(pattern[1..], path[1..], more, i - 1);
    }
  }

  lemma LastUse(pattern: seq<string>, i: nat, from: nat) returns (last: nat)
    requires i <= from < |pattern| && forall j :: from < j < |pattern| ==> pattern[j] != pattern[i]
    ensures i <= last < |pattern| && pattern[last] == pattern[i]
    ensures forall j :: last < j < |pattern| ==> pattern[j] != pattern[i]
    decreases from
  {
    if pattern[from] == pattern[i] { last := from; } else { last := LastUse(pattern, i, from - 1); }
  }

  lemma {:induction false} SubstituteAt(pattern: seq<string>, params: map<string, string>)
    ensures |Substitute(pattern, params)| == |pattern|
    ensures forall i :: 0 <= i < |pattern| ==>
      Substitute(pattern, params)[i] ==
      if IsParameter(pattern[i]) && pattern[i][1..] in params then params[pattern[i][1..]] else pattern[i]
    decreases |pattern|
  {
    if pattern != [] {
      SubstituteAt(pattern[1..], params);
      forall i | 0 < i < |pattern| ensures Substitute(pattern, params)[i] == Substitute(pattern[1..], params)[i - 1] {}
    }
  }

  /** A parameter name used twice stands for the same segment of the path. */
  predicate NamesAgree(pattern: seq<string>, path: seq<string>) {
    |pattern| == |path| &&
    forall i, j :: 0 <= i < j < |pattern| && IsParameter(pattern[i]) && pattern[i] == pattern[j] ==> path[i] == path[j]
  }

  /** Putting the captures back into the pattern gives the segments of the path, exactly when a name used
      twice stands for one value, and so always when the names are distinct: a later capture overwrites
      an earlier one. */
  lemma CapturesRebuildPath(pattern: seq<string>, path: seq<string>, params: map<string, string>)
    requires |pattern| == |path| && MatchSegments(pattern, path).Some?
    ensures Substitute(pattern, Overlay(params, MatchSegments(pattern, path).value)) == path
       <==> NamesAgree(pattern, path)
  {
    hide MatchSegments, Overlay, Substitute;
    var after := Overlay(params, MatchSegments(pattern, path).value);
    SubstituteAt(pattern, after);
    if NamesAgree(pattern, path) {
      forall i | 0 <= i < |pattern| ensures Substitute(pattern, after)[i] == path[i] {
        if IsParameter(pattern[i]) {
          var last := LastUse(pattern, i, |pattern| - 1);
          LastUseWins(pattern, path, params, last);
        } else {
          MatchSegmentsExact(pattern, path);
        }
      }
    }
  }

  /** Every parameter of the pattern that has a value has its own segment as that value. */
  predicate NoStale(pattern: seq<string>, params: map<string, string>) {
    forall i :: 0 <= i < |pattern| && IsParameter(pattern[i]) && pattern[i][1..] in params ==>
      params[pattern[i][1..]] == pattern[i]
  }

  /** A path that equals its route is matched without storing captures, so the parameters must not hold
      other values already. */
  lemma UnchangedRebuild(pattern: seq<string>, params: map<string, string>)
    ensures Substitute(pattern, params) == pattern <==> NoStale(pattern, params)
  {
    SubstituteAt(pattern, params);
    hide Substitute;
    if NoStale(pattern, params) {
      forall i | 0 <= i < |pattern| ensures Substitute(pattern, params)[i] == pattern[i] {}
    }
  }

  /** When the parameters of a matched request rebuild the request's path.  If the path equals the route, no
      capture is stored, so it depends on the parameters there were; otherwise, exactly when a name used twice
      stands for one value. */
  lemma ParametersRebuildPath(route: string, path: string, params: map<string, string>)
    requires MatchPath(route, path).Some?
    ensures Substitute(Segments(route), Overlay(params, MatchPath(route, path).value)) == Segments(path)
       <==> if route == path then NoStale(Segments(route), params) else NamesAgree(Segments(route), Segments(path))
  {
    hide SplitFrom;
    if route == path {
      UnchangedRebuild(Segments(route), params);
    } else {
      CapturesRebuildPath(Segments(route), Segments(path), params);
    }
  }

  /** With a name used twice, the parameters need not: "/:a/:a" takes "/x/y" and keeps only "y". */
  lemma RepeatedNameLosesSegment(params: map<string, string>)
    ensures Segments("/:a/:a") == [":a", ":a"] && Segments("/x/y") == ["x", "y"]
    ensures MatchPath("/:a/:a", "/x/y").Some?
    ensures Substitute(Segments("/:a/:a"), Overlay(params, MatchPath("/:a/:a", "/x/y").value)) != Segments("/x/y")
  {
    assert "/" + ":a" == "/:a" && "/:a" + "/" == "/:a/" && "/:a/" + ":a" == "/:a/:a";
    assert "/" + "x" == "/x" && "/x" + "/" == "/x/" && "/x/" + "y" == "/x/y";
    TwoSegments("/:a/:a", ":a", ":a");
    TwoSegments("/x/y", "x", "y");
    hide SplitFrom, MatchSegments, Overlay, Substitute, FindChar;
    var pattern, path := [":a", ":a"], ["x", "y"];
    FirstChar("/:a/:a", ':', 0);
    MatchSegmentsExact(pattern, path);
    CapturesRebuildPath(pattern, path, params);
    assert pattern[0] == pattern[1] && path[0] != path[1];
  }

  lemma TwoSegments(s: string, a: string, b: string)
    requires s == "/" + a + "/" + b && CleanSegment(a, '/') && CleanSegment(b, '/')
    ensures Segments(s) == [a, b]
  {
    hide SplitFrom;
    var segments, gaps := [a, b], [1, 1, 0];
    assert segments[1..] == [b] && gaps[1..] == [1, 0] && segments[1..][1..] == [] && gaps[1..][1..] == [0];
    assert Repeat('/', 1) == "/" && Repeat('/', 0) == "";
    assert Join(segments[1..], gaps[1..], '/') == "/" + b + "";
    assert Join(segments, gaps, '/') == "/" + a + ("/" + b + "");
    assert s[0..] == Join(segments, gaps, '/');
    SplitInvertsJoin(s, 0, segments, gaps, '/');
  }
}
