/** Which lines the parser takes: request lines, field lines and chunk lines, by their text. */
module LineMeaning {
  import opened Acceptance
  import opened ByteStrings
  import opened ChunkEncoding
  import opened FieldEncoding
  import opened Fragmentation
  import opened HttpHeaderList
  import opened HttpMessages
  import opened HttpUtils
  import opened ParserSpec
  import opened TextMeaning

  // ----- field lines -----

  lemma BlankIsOws(s: string)
    ensures IsBlank(s) <==> AllOws(s)
  {
    assert forall i :: 0 <= i < |s| ==> (s[i] in " \t" <==> IsOws(s[i]));
  }

  /** A name, a colon, and the value with any spaces and tabs around it. */
  ghost predicate IsFieldLine(line: string, f: Header) {
    ValidField(f) && exists a: string, b: string :: IsBlank(a) && IsBlank(b) && line == f.name + ":" + a + f.value + b
  }

  lemma FieldLineTaken(line: string, f: Header, a: string, b: string)
    requires ValidField(f) && IsBlank(a) && IsBlank(b) && line == f.name + ":" + a + f.value + b
    ensures FieldOfLine(line) == Some(f)
  {
    BlankIsOws(a);
    BlankIsOws(b);
    Associates(f.name + ":", a + f.value, b);
    Associates(f.name + ":", a, f.value);
    ColonFound(line, f.name, a + f.value + b);
    TrimmedIsTheCore(a, f.value, b);
    hide Trimmed, FindChar, IsToken, IsFieldText, IsTrimmed;
  }

  lemma ColonFound(line: string, name: string, rest: string)
    requires IsToken(name) && line == name + ":" + rest
    ensures FindChar(line, ':', 0) == |name| && line[..|name|] == name && line[|name| + 1..] == rest
  {
    hide FindChar;
    forall i | 0 <= i < |name| ensures line[i] != ':' { assert line[i] == name[i] && IsTokenChar(name[i]); }
    CharIsFirst(line, ':', 0, |name|);
  }

  /** The header loop and the trailer loop take a line as a field exactly when it is written so. */
  lemma FieldOfLineIff(line: string, f: Header)
    ensures FieldOfLine(line) == Some(f) <==> IsFieldLine(line, f)
  {
    hide ValidField, FindChar, TrimLeft, TrimRight;
    if FieldOfLine(line) == Some(f) {
      FieldIsValid(line);
      var colon := FindChar(line, ':', 0);
      var a, b := TrimMeans(line[colon + 1..]);
      assert line == line[..colon] + ":" + line[colon + 1..];
      Associates(f.name + ":", a + f.value, b);
      Associates(f.name + ":", a, f.value);
      assert line == f.name + ":" + a + f.value + b;
    }
    if IsFieldLine(line, f) {
      var a: string, b: string :| IsBlank(a) && IsBlank(b) && line == f.name + ":" + a + f.value + b;
      FieldLineTaken(line, f, a, b);
    }
  }

  // ----- chunk lines -----

  /** A hexadecimal number of value `n`, spaces and tabs around it, and an extension. */
  predicate ChunkLineParts(line: string, n: nat, a: string, hex: string, b: string, extension: string) {
    && IsBlank(a) && IsBlank(b) && hex != "" && SpellsHex(hex, n) && ValidExtension(extension)
    && line == a + hex + b + extension
  }

  lemma ChunkLineHasParts(line: string, n: nat) returns (a: string, hex: string, b: string, extension: string)
    requires IsChunkLine(line, n)
    ensures ChunkLineParts(line, n, a, hex, b, extension)
  {
    hide TrimLeft, TrimRight, SpellsHex, AllHex, HexValue;
    var semicolon := FindChar(line, ';', 0);
    hide FindChar;
    var size := if semicolon == NPOS then line else line[..semicolon];
    extension := if semicolon == NPOS then "" else line[semicolon..];
    hex := SizeText(line);
    a, b := TrimMeans(size);
    HexSpelled(hex, n);
    assert line == size + extension;
    forall i | 0 <= i < |extension| ensures !CrlfAt(extension, i) { assert !CrlfAt(line, |size| + i); }
  }

  lemma PartsMakeChunkLine(line: string, n: nat, a: string, hex: string, b: string, extension: string)
    requires ChunkLineParts(line, n, a, hex, b, extension) && |line| <= MAX_CHUNK_LINE_SIZE
    ensures IsChunkLine(line, n)
  {
    BlankIsOws(a);
    BlankIsOws(b);
    HexSpelled(hex, n);
    hide IsChunkLine, AllHex, HexValue, SpellsHex, ValidExtension;
    ChunkLineForm(a, hex, b, extension);
  }

  /** The chunk lines that the parser takes as the size `n`: at most 128 bytes of this form. */
  lemma ChunkLineIff(line: string, n: nat)
    ensures IsChunkLine(line, n)
       <==> |line| <= 128 && exists a, hex, b, extension :: ChunkLineParts(line, n, a, hex, b, extension)
  {
    hide ChunkLineParts;
    if IsChunkLine(line, n) {
      var a, hex, b, extension := ChunkLineHasParts(line, n);
    }
    hide IsChunkLine;
    if a, hex, b, extension :| ChunkLineParts(line, n, a, hex, b, extension) && |line| <= 128 {
      PartsMakeChunkLine(line, n, a, hex, b, extension);
    }
  }

  // ----- request lines -----

  predicate RequestLineParts(line: string, name: string, target: string) {
    && name in METHODS && target != "" && (forall i :: 0 <= i < |target| ==> target[i] != ' ')
    && line == name + " " + target + " " + "HTTP/1.1"
  }

  lemma SplitAtSpaces(line: string, first: nat, second: nat)
    requires first < second < |line| && line[first] == ' ' && line[second] == ' '
    ensures line == line[..first] + " " + line[first + 1..second] + " " + line[second + 1..]
  {
    var head := line[..first] + " " + line[first + 1..second];
    assert head == line[..second];
    assert line[..second] + " " == line[..second + 1];
    assert line[..second + 1] + line[second + 1..] == line;
  }

  lemma RequestOfLineSplits(line: string) returns (first: nat, second: nat)
    requires RequestOfLine(line).Some?
    ensures first < second < |line| && line[first] == ' ' && line[second] == ' '
    ensures forall i :: first < i < second ==> line[i] != ' '
    ensures line[second + 1..] == "HTTP/1.1" && ParseMethod(line[..first]) != UNKNOWN && line[first + 1..second] != ""
    ensures RequestOfLine(line) == Some(RequestFor(ParseMethod(line[..first]), line[first + 1..second], "HTTP/1.1"))
  {
    first := FindChar(line, ' ', 0);
    FirstChar(line, ' ', first + 1);
    second := FindChar(line, ' ', first + 1);
    hide FindChar, ParseMethod, RequestFor;
  }

  lemma RequestForSets(m: HttpMethod, target: string, version: string)
    ensures RequestFor(m, target, version).target == target && RequestFor(m, target, version).method_ == m
  {
    hide AddQueries, FindChar;
  }

  lemma RequestLineHasParts(line: string) returns (name: string, target: string)
    requires RequestOfLine(line).Some?
    ensures RequestLineParts(line, name, target) && RequestOfLine(line).value.target == target
    ensures RequestOfLine(line).value.method_ == ParseMethod(name)
  {
    var first, second := RequestOfLineSplits(line);
    name, target := line[..first], line[first + 1..second];
    ParseMethodMeans(name);
    RequestForSets(ParseMethod(name), target, "HTTP/1.1");
    SplitAtSpaces(line, first, second);
    hide RequestOfLine, ParseMethod, RequestFor, METHODS, METHOD_VALUES;
  }

  lemma MethodNamesAreLine(name: string)
    requires name in METHODS
    ensures name != "" && forall i :: 0 <= i < |name| ==> name[i] != ' '
  {
    var k :| 0 <= k < 9 && METHODS[k] == name;
    ParseMethodMeans(name);
    assert ParseMethod(name) == METHOD_VALUES[k];
    hide METHODS, METHOD_VALUES;
    KnownMethodNames(name);
  }

  lemma KnownMethodNames(name: string)
    requires ParseMethod(name) != UNKNOWN
    ensures name != "" && forall i :: 0 <= i < |name| ==> name[i] != ' '
  {}

  predicate Spaceless(s: string) { forall i :: 0 <= i < |s| ==> s[i] != ' ' }

  /** The search for a space stops behind a part without one. */
  lemma PartFound(line: string, from: nat, part: string, rest: string)
    requires from <= |line| && line[from..] == part + rest && Spaceless(part) && (rest != "" ==> rest[0] == ' ')
    ensures FindChar(line, ' ', from) == if rest == "" then NPOS else from + |part|
    ensures from + |part| <= |line| && line[from..from + |part|] == part && line[from + |part|..] == rest
  {
    hide FindChar;
    var tail := line[from..];
    forall i | from <= i < from + |part| ensures line[i] != ' ' { assert line[i] == tail[i - from] == part[i - from]; }
    assert tail[..|part|] == part && tail[|part|..] == rest;
    if rest != "" { assert line[from + |part|] == tail[|part|] == rest[0]; }
    CharIsFirst(line, ' ', from, from + |part|);
  }

  lemma PartThenSpace(line: string, from: nat, part: string, rest: string)
    requires from <= |line| && line[from..] == part + (" " + rest) && Spaceless(part)
    ensures FindChar(line, ' ', from) == from + |part| && line[from..from + |part|] == part
    ensures from + |part| < |line| && line[from + |part| + 1..] == rest
  {
    hide FindChar, Spaceless;
    PartFound(line, from, part, " " + rest);
    assert line[from + |part| + 1..] == line[from + |part|..][1..];
  }

  lemma LineOfSpaces(line: string, first: nat, second: nat)
    requires FindChar(line, ' ', 0) == first && FindChar(line, ' ', first + 1) == second
    requires FindChar(line, ' ', second + 1) == NPOS
    requires ParseMethod(line[..first]) != UNKNOWN && line[first + 1..second] != "" && line[second + 1..] == "HTTP/1.1"
    ensures RequestOfLine(line).Some?
  {
    assert ParseMethod("") == UNKNOWN;
    hide ParseMethod, RequestFor, FindChar;
  }

  lemma Regrouped(a: string, b: string, c: string, gap: string)
    ensures a + gap + b + gap + c == a + (gap + (b + (gap + c)))
  {
    Associates(a, gap, b);
    Associates(a, gap + b, gap);
    Associates(a, gap + b + gap, c);
    Associates(gap, b, gap);
    Associates(gap, b + gap, c);
    Associates(b, gap, c);
  }

  /** The last two parts, from `from` on. */
  lemma LastPartsFound(line: string, from: nat, b: string, c: string)
    requires from <= |line| && line[from..] == b + (" " + c) && Spaceless(b) && Spaceless(c)
    ensures from + |b| < |line| && FindChar(line, ' ', from) == from + |b|
    ensures FindChar(line, ' ', from + |b| + 1) == NPOS
    ensures line[from..from + |b|] == b && line[from + |b| + 1..] == c
  {
    hide FindChar, Spaceless;
    PartThenSpace(line, from, b, c);
    NoMoreParts(line, from + |b| + 1, c);
  }

  lemma NoMoreParts(line: string, from: nat, c: string)
    requires from <= |line| && line[from..] == c && Spaceless(c)
    ensures FindChar(line, ' ', from) == NPOS
  {
    hide FindChar;
    assert c + "" == c;
    PartFound(line, from, c, "");
  }

  lemma SpacesFound(line: string, from: nat, a: string, rest: string, b: string, c: string)
    requires from <= |line| && line[from..] == a + (" " + rest) && rest == b + (" " + c)
    requires Spaceless(a) && Spaceless(b) && Spaceless(c)
    ensures from + |a| < |line| && FindChar(line, ' ', from) == from + |a| && line[from..from + |a|] == a
    ensures
      var second := from + |a| + 1 + |b|;
      && FindChar(line, ' ', from + |a| + 1) == second < |line| && FindChar(line, ' ', second + 1) == NPOS
      && line[from + |a| + 1..second] == b && line[second + 1..] == c
  {
    PartThenSpace(line, from, a, rest);
    LastPartsFound(line, from + |a| + 1, b, c);
    hide *;
  }

  lemma PartsMakeRequestLine(line: string, name: string, target: string)
    requires RequestLineParts(line, name, target)
    ensures RequestOfLine(line).Some?
  {
    ParseMethodMeans(name);
    MethodNamesAreLine(name);
    Regrouped(name, target, "HTTP/1.1", " ");
    assert line[0..] == line;
    SpacesFound(line, 0, name, target + (" " + "HTTP/1.1"), target, "HTTP/1.1");
    hide ParseMethod, FindChar, RequestOfLine, Spaceless, METHODS, METHOD_VALUES;
    assert line[..|name|] == line[0..|name|];
    LineOfSpaces(line, |name|, |name| + 1 + |target|);
  }

  /** The request step goes on exactly when the first line is a known method, a target without spaces and
      HTTP/1.1, one space between them, in at most 8192 bytes; any other line is rejected. */
  lemma RequestLineIff(p: Parser, x: string, r: Request)
    requires Valid(p) && p.state == AtRequestLine && FindCrlf(x, 0) != NPOS
    ensures
      var line, o := x[..FindCrlf(x, 0)], StepRequestLine(p, x, r);
      && (o.Continue? <==> |line| <= 8192 && exists name, target :: RequestLineParts(line, name, target))
      && (!o.Continue? ==> Rejected(o))
  {
    hide RequestOfLine, RequestLineParts, FindCrlf;
    var line := x[..FindCrlf(x, 0)];
    if RequestOfLine(line).Some? {
      var name, target := RequestLineHasParts(line);
    }
    if name, target :| RequestLineParts(line, name, target) {
      PartsMakeRequestLine(line, name, target);
    }
  }

  /** The limits of include/http/http/HttpParser.hpp:17-21, of a `size_t`, and of the pool's ring. */
  lemma LimitsMeans()
    ensures MAX_REQUEST_LINE == 8192 && MAX_HEADER_SIZE == 16384 && MAX_HEADERS == 100
    ensures MAX_BODY_SIZE == 10485760 && MAX_CHUNK_LINE_SIZE == 128
    ensures SIZE_MAX == 18446744073709551615
  {}
}
