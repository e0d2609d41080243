/** Header lines on the wire: writing a list of fields and reading it back. */
module FieldEncoding {
  import opened ByteStrings
  import opened HttpHeaderList
  import opened HttpMessages
  import opened HttpUtils
  import opened ParserSpec

  const CRLF := "\r\n"

  /** A field a sender may write: a token, and a valid value without whitespace around it. */
  predicate ValidField(f: Header) {
    IsToken(f.name) && IsFieldText(f.value) && IsTrimmed(f.value)
  }

  predicate ValidFields(fields: seq<Header>) {
    forall i :: 0 <= i < |fields| ==> ValidField(fields[i])
  }

  function FieldLine(f: Header): string { f.name + ": " + f.value }

  function EncodeFields(fields: seq<Header>): string {
    if fields == [] then "" else FieldLine(fields[0]) + CRLF + EncodeFields(fields[1..])
  }

  predicate NoCrlf(s: string) { forall i :: 0 <= i < |s| ==> !CrlfAt(s, i) }

  // ----- finding the ends of what was written -----

  lemma LineEnd(data: string, position: nat, line: string)
    requires NoCrlf(line) && position + |line| + 2 <= |data|
    requires data[position..position + |line|] == line && CrlfAt(data, position + |line|)
    ensures FindCrlf(data, position) == position + |line|
  {
    FirstCrlf(data, position);
    forall i | position <= i < position + |line|
      ensures !CrlfAt(data, i)
    {
      assert data[i] == line[i - position];
      if i + 1 < position + |line| {
        assert data[i + 1] == line[i + 1 - position];
        assert !CrlfAt(line, i - position);
      }
    }
  }

  lemma FieldLineFacts(f: Header)
    requires ValidField(f)
    ensures forall i :: 0 <= i < |FieldLine(f)| ==> FieldLine(f)[i] != '\r'
    ensures NoCrlf(FieldLine(f)) && 3 <= |FieldLine(f)|
    ensures FieldOfLine(FieldLine(f)) == Some(f)
  {
    var line := FieldLine(f);
    forall i | 0 <= i < |f.name| ensures line[i] != ':' && line[i] != '\r' {
      assert line[i] == f.name[i] && IsTokenChar(f.name[i]);
    }
    forall i | 0 <= i < |line| ensures line[i] != '\r' {
      if |f.name| + 2 <= i { assert line[i] == f.value[i - |f.name| - 2]; }
    }
    CharIsFirst(line, ':', 0, |f.name|);
    assert line[..|f.name|] == f.name;
    assert line[|f.name| + 1..] == " " + f.value + "";
    TrimmedIsTheCore(" ", f.value, "");
  }

  /** Searching past a part in which no empty line starts. */
  lemma BlankLineShift(a: string, t: string)
    requires FindBlankLine(t, 0) != NPOS
    requires forall i :: 0 <= i < |a| ==> !BlankLineAt(a + t, i)
    ensures FindBlankLine(a + t, 0) == |a| + FindBlankLine(t, 0)
  {
    var s, k := a + t, FindBlankLine(t, 0);
    FirstBlankLine(s, 0);
    FirstBlankLine(t, 0);
    assert BlankLineAt(s, |a| + k);
    forall i | |a| <= i < |a| + k ensures !BlankLineAt(s, i) {
      assert !BlankLineAt(t, i - |a|);
    }
  }

  /** No empty line starts inside a written line that a byte other than CR follows. */
  lemma NoBlankInLine(f: Header, t: string)
    requires ValidField(f) && (t != "" ==> t[0] != '\r')
    ensures forall i :: 0 <= i < |FieldLine(f)| + 2 ==> !BlankLineAt(FieldLine(f) + CRLF + t, i)
  {
    FieldLineFacts(f);
    var line, s := FieldLine(f), FieldLine(f) + CRLF + t;
    forall i | 0 <= i < |line| + 2 ensures !BlankLineAt(s, i) {
      if i < |line| { assert s[i] == line[i]; }
      if i == |line| && t != "" { assert s[|line| + 2] == t[0]; }
    }
  }

  lemma BlankLineAfterOne(f: Header, tail: string)
    requires ValidField(f)
    ensures FindBlankLine(FieldLine(f) + CRLF + (CRLF + tail), 0) == |FieldLine(f)|
  {
    FieldLineFacts(f);
    hide FieldLine, FindBlankLine;
    var line, s := FieldLine(f), FieldLine(f) + CRLF + (CRLF + tail);
    assert s[|line|..|line| + 4] == CRLF + CRLF;
    assert BlankLineAt(s, |line|);
    forall i | 0 <= i < |line| ensures !BlankLineAt(s, i) { assert s[i] == line[i]; }
    FirstBlankLine(s, 0);
  }

  lemma EncodeUnfolds(fields: seq<Header>, tail: string)
    requires fields != []
    ensures EncodeFields(fields) + CRLF + tail
         == FieldLine(fields[0]) + CRLF + (EncodeFields(fields[1..]) + CRLF + tail)
    ensures EncodeFields(fields) == FieldLine(fields[0]) + CRLF + EncodeFields(fields[1..])
  {}

  /** The first empty line after a non-empty list of fields is the one that ends the list. */
  lemma {:induction false} BlankLineAfterFields(fields: seq<Header>, tail: string)
    requires fields != [] && ValidFields(fields)
    ensures FindBlankLine(EncodeFields(fields) + CRLF + tail, 0) == |EncodeFields(fields)| - 2
    ensures 2 < |EncodeFields(fields)| && EncodeFields(fields)[0] != '\r'
  {
    hide FieldLine, FindBlankLine, ValidField;
    var line, more := FieldLine(fields[0]), EncodeFields(fields[1..]);
    var t := more + CRLF + tail;
    FieldLineFacts(fields[0]);
    EncodeUnfolds(fields, tail);
    assert EncodeFields(fields)[0] == line[0];
    if fields[1..] == [] {
      assert t == CRLF + tail;
      BlankLineAfterOne(fields[0], tail);
    } else {
      BlankLineAfterFields(fields[1..], tail);
      assert t[0] == more[0];
      NoBlankInLine(fields[0], t);
      assert line + CRLF + t == (line + CRLF) + t;
      BlankLineShift(line + CRLF, t);
    }
  }

  // ----- reading the lines back -----

  /** Every Content-Length among the fields has the value `v`. */
  predicate LengthsAgree(fields: seq<Header>, v: string) {
    forall i :: 0 <= i < |fields| && SameText(fields[i].name, "Content-Length") ==> fields[i].value == v
  }

  lemma LengthsAppend(xs: seq<Header>, ys: seq<Header>, v: string)
    requires !HasName(xs, "Content-Length") && LengthsAgree(ys, v)
    ensures LengthsAgree(xs + ys, v)
  {
    forall i | |xs| <= i < |xs + ys| && SameText((xs + ys)[i].name, "Content-Length") ensures (xs + ys)[i].value == v {
      assert (xs + ys)[i] == ys[i - |xs|];
    }
    forall i | 0 <= i < |xs| ensures !SameText((xs + ys)[i].name, "Content-Length") {
      assert (xs + ys)[i] == xs[i];
    }
  }

  predicate AllAlpha(s: string) { forall i :: 0 <= i < |s| ==> 'A' <= s[i] <= 'Z' || 'a' <= s[i] <= 'z' }

  lemma AlphaNames(a: string, b: string)
    requires AllAlpha(a) && AllAlpha(b)
    ensures IsToken(a + "-" + b)
  {}

  lemma DigitsAreFieldText(s: string)
    requires AllDigits(s)
    ensures IsFieldText(s) && IsTrimmed(s)
  {
    forall i | 0 <= i < |s| ensures IsFieldChar(s[i]) && !IsOws(s[i]) {
      assert IsDigit(s[i]);
    }
  }

  lemma {:induction false} AgreedLength(fields: seq<Header>, v: string)
    requires LengthsAgree(fields, v)
    ensures FirstValue(fields, "Content-Length") in {"", v}
  {
    if fields != [] {
      forall i | 0 <= i < |fields[1..]| && SameText(fields[1..][i].name, "Content-Length")
        ensures fields[1..][i].value == v
      {
        assert fields[1..][i] == fields[i + 1];
      }
      AgreedLength(fields[1..], v);
    }
  }

  /** A written line at a position, and what follows it. */
  lemma LineAt(data: string, position: nat, line: string, rest: string)
    requires position <= |data| && data[position..] == line + CRLF + rest && NoCrlf(line)
    ensures FindCrlf(data, position) == position + |line|
    ensures data[position..position + |line|] == line
    ensures position + |line| + 2 <= |data| && data[position + |line| + 2..] == rest
  {
    var s := data[position..];
    assert data[position..position + |line|] == s[..|line|] == line;
    assert CrlfAt(s, |line|);
    assert CrlfAt(data, position + |line|);
    assert data[position + |line| + 2..] == s[|line| + 2..];
    LineEnd(data, position, line);
  }

  /** One turn of the loops, at the start of a written field. */
  lemma OneFieldRead(data: string, position: nat, f: Header, line: string, rest: string)
    requires ValidField(f) && line == FieldLine(f)
    requires position <= |data| && data[position..] == line + CRLF + rest
    ensures position + |line| + 2 <= |data| && data[position + |line| + 2..] == rest
    ensures TurnAt(data, position) == FieldFound(f, position + |line| + 2)
  {
    hide FieldOfLine, FieldLine;
    FieldLineFacts(f);
    LineAt(data, position, line, rest);
  }

  lemma BlankLineRead(data: string, position: nat, tail: string)
    requires position <= |data| && data[position..] == CRLF + tail
    ensures TurnAt(data, position) == EmptyLine
  {
    assert data[position..] == "" + CRLF + tail;
    LineAt(data, position, "", tail);
  }

  /** What the header loop demands of the lengths: if the first one is not empty, the others repeat it. */
  predicate LengthsOk(fields: seq<Header>) {
    FirstValue(fields, "Content-Length") == "" || LengthsAgree(fields, FirstValue(fields, "Content-Length"))
  }

  lemma AgreedLengthsOk(fields: seq<Header>, v: string)
    requires LengthsAgree(fields, v)
    ensures LengthsOk(fields)
  {
    AgreedLength(fields, v);
  }

  lemma OneMoreLength(before: seq<Header>, f: Header)
    requires LengthsOk(before) && !LengthConflict(before, f)
    ensures LengthsOk(before + [f])
  {
    AppendedFirstValue(before, [f], "Content-Length");
    assert FirstValue([f], "Content-Length") == if SameText(f.name, "Content-Length") then f.value else "";
    if HasName(before, "Content-Length") {
      if FirstValue(before, "Content-Length") != "" {
        forall i | 0 <= i < |before + [f]| && SameText((before + [f])[i].name, "Content-Length")
          ensures (before + [f])[i].value == FirstValue(before, "Content-Length")
        {
          if i < |before| { assert (before + [f])[i] == before[i]; }
        }
      }
    } else {
      LengthsAppend(before, [f], f.value);
    }
  }

  /** A conflict that the loop finds is one that no later field can mend. */
  lemma ConflictSpoils(before: seq<Header>, f: Header, after: seq<Header>)
    requires LengthConflict(before, f)
    ensures !LengthsOk(before + ([f] + after))
  {
    var all := before + ([f] + after);
    if !HasName(before, "Content-Length") { NoSuchName(before, "Content-Length"); }
    AppendedFirstValue(before, [f] + after, "Content-Length");
    assert all[|before|] == f;
  }

  /** The header loop on written fields.  It reads back exactly these, and stops at the empty line, if and
      only if they are not too many and no length contradicts a non-empty first one; otherwise it rejects. */
  lemma {:induction false} FieldsReadBack(
      data: string, position: nat, count: nat, r: Request, fields: seq<Header>, tail: string)
    requires ValidFields(fields) && count <= MAX_HEADERS && LengthsOk(r.headers)
    requires position <= |data| && data[position..] == EncodeFields(fields) + CRLF + tail
    ensures ParseHeaderLines(data, position, count, r).0 == Complete
       <==> count + |fields| <= MAX_HEADERS && LengthsOk(r.headers + fields)
    ensures ParseHeaderLines(data, position, count, r).0 == Complete ==>
              var parsed := ParseHeaderLines(data, position, count, r);
              parsed.1 == WithHeaders(r, r.headers + fields) && parsed.2 == position + |EncodeFields(fields)|
    ensures ParseHeaderLines(data, position, count, r).0 != Incomplete
    decreases |fields|
  {
    hide TurnAt, LengthConflict, FieldLine, ValidField, LengthsOk;
    if fields == [] {
      assert data[position..] == CRLF + tail;
      BlankLineRead(data, position, tail);
      assert r.headers + fields == r.headers;
    } else {
      var f, line := fields[0], FieldLine(fields[0]);
      EncodeUnfolds(fields, tail);
      OneFieldRead(data, position, f, line, EncodeFields(fields[1..]) + CRLF + tail);
      assert fields == [f] + fields[1..];
      Associates(r.headers, [f], fields[1..]);
      if LengthConflict(r.headers, f) {
        ConflictSpoils(r.headers, f, fields[1..]);
      } else if count + 1 <= MAX_HEADERS {
        OneMoreLength(r.headers, f);
        FieldsReadBack(data, position + |line| + 2, count + 1, AddField(r, f), fields[1..], tail);
      }
    }
  }

  lemma EndOfBlock(data: string, position: nat)
    requires |data| <= position
    ensures TurnAt(data, position) == OutOfBytes
  {}

  /** The trailer loop accepts written fields. */
  lemma {:induction false} TrailersAccepted(data: string, position: nat, count: nat, fields: seq<Header>)
    requires ValidFields(fields) && count + |fields| <= MAX_HEADERS
    requires position <= |data| && data[position..] == EncodeFields(fields)
    ensures TrailersOk(data, position, count)
    decreases |fields|
  {
    hide TurnAt, FieldLine, ValidField;
    if fields == [] {
      EndOfBlock(data, position);
    } else {
      EncodeUnfolds(fields, "");
      var line := FieldLine(fields[0]);
      OneFieldRead(data, position, fields[0], line, EncodeFields(fields[1..]));
      TrailersAccepted(data, position + |line| + 2, count + 1, fields[1..]);
    }
  }
}
