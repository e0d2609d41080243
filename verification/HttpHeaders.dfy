/** The ordered, case-insensitive header list (src/http/HttpHeaders.cpp). */
module HttpHeaderList {
  import opened ByteStrings
  import Utils = HttpUtils

  datatype Header = Header(name: string, value: string)

  /** The value of the first header with this name, or the empty string. */
  function FirstValue(headers: seq<Header>, name: string): string {
    if headers == [] then ""
    else if Utils.SameText(headers[0].name, name) then headers[0].value
    else FirstValue(headers[1..], name)
  }

  /** The values of all headers with this name, in order. */
  function ValuesOf(headers: seq<Header>, name: string): seq<string> {
    if headers == [] then []
    else (if Utils.SameText(headers[0].name, name) then [headers[0].value] else []) + ValuesOf(headers[1..], name)
  }

  /** The headers with another name, in order. */
  function Without(headers: seq<Header>, name: string): seq<Header> {
    if headers == [] then []
    else (if Utils.SameText(headers[0].name, name) then [] else [headers[0]]) + Without(headers[1..], name)
  }

  predicate HasName(headers: seq<Header>, name: string) {
    exists i :: 0 <= i < |headers| && Utils.SameText(headers[i].name, name)
  }

  class HttpHeaders {
    var headers: seq<Header>

    constructor ()
      ensures headers == []
    {
      headers := [];
    }

    method Add(name: string, value: string)
      modifies this
      ensures headers == old(headers) + [Header(name, value)]
    {
      headers := headers + [Header(name, value)];
    }

    method Set(name: string, value: string)
      modifies this
      ensures headers == Without(old(headers), name) + [Header(name, value)]
    {
      var kept, i := [], 0;
      assert headers[0..] == headers;
      while i < |headers|
        invariant 0 <= i <= |headers| && headers == old(headers)
        invariant kept + Without(headers[i..], name) == Without(headers, name)
      {
        var same := Utils.EqualsIgnoreCase(headers[i].name, name);
        var part := if same then [] else [headers[i]];
        assert headers[i..][1..] == headers[i + 1..];
        Associates(kept, part, Without(headers[i + 1..], name));
        kept := kept + part;
        i := i + 1;
      }
      assert kept + [] == kept;
      headers := kept + [Header(name, value)];
    }

    method Get(name: string) returns (value: string)
      ensures value == FirstValue(headers, name)
    {
      var i := 0;
      assert headers[0..] == headers;
      while i < |headers|
        invariant 0 <= i <= |headers|
        invariant FirstValue(headers[i..], name) == FirstValue(headers, name)
      {
        var same := Utils.EqualsIgnoreCase(headers[i].name, name);
        if same { return headers[i].value; }
        assert headers[i..][1..] == headers[i + 1..];
        i := i + 1;
      }
      return "";
    }

    method Values(name: string) returns (result: seq<string>)
      ensures result == ValuesOf(headers, name)
    {
      result := [];
      var i := 0;
      assert headers[0..] == headers;
      while i < |headers|
        invariant 0 <= i <= |headers|
        invariant result + ValuesOf(headers[i..], name) == ValuesOf(headers, name)
      {
        var same := Utils.EqualsIgnoreCase(headers[i].name, name);
        var found := if same then [headers[i].value] else [];
        assert headers[i..][1..] == headers[i + 1..];
        Associates(result, found, ValuesOf(headers[i + 1..], name));
        result := result + found;
        i := i + 1;
      }
    }

    method Contains(name: string) returns (found: bool)
      ensures found == HasName(headers, name)
    {
      var i := 0;
      while i < |headers|
        invariant 0 <= i <= |headers|
        invariant forall k :: 0 <= k < i ==> !Utils.SameText(headers[k].name, name)
      {
        found := Utils.EqualsIgnoreCase(headers[i].name, name);
        if found { return true; }
        i := i + 1;
      }
      return false;
    }
  }

  // ----- how the operations fit together -----

  lemma {:induction false} AppendedValues(xs: seq<Header>, ys: seq<Header>, name: string)
    ensures ValuesOf(xs + ys, name) == ValuesOf(xs, name) + ValuesOf(ys, name)
  {
    if xs == [] {
      assert xs + ys == ys;
    } else {
      assert (xs + ys)[1..] == xs[1..] + ys;
      AppendedValues(xs[1..], ys, name);
    }
  }

  /** The first match wins: a header added at the end is seen only if the name was absent. */
  lemma AppendedFirstValue(xs: seq<Header>, ys: seq<Header>, name: string)
    ensures FirstValue(xs + ys, name) == if HasName(xs, name) then FirstValue(xs, name) else FirstValue(ys, name)
  {
    AppendedValues(xs, ys, name);
    ValuesDecide(xs, name);
    ValuesDecide(ys, name);
    ValuesDecide(xs + ys, name);
  }

  lemma NoSuchName(headers: seq<Header>, name: string)
    requires !HasName(headers, name)
    ensures FirstValue(headers, name) == "" && Without(headers, name) == headers
  {
    ValuesDecide(headers, name);
    WithoutAbsent(headers, name);
  }

  lemma {:induction false} WithoutAbsent(headers: seq<Header>, name: string)
    requires !HasName(headers, name)
    ensures Without(headers, name) == headers
  {
    if headers != [] {
      forall i | 0 <= i < |headers[1..]| ensures !Utils.SameText(headers[1..][i].name, name) {
        assert !Utils.SameText(headers[i + 1].name, name);
      }
      WithoutAbsent(headers[1..], name);
      assert !Utils.SameText(headers[0].name, name);
    }
  }

  /** `Without` keeps the headers with another name, in their order. */
  lemma {:induction false} AppendedWithout(xs: seq<Header>, ys: seq<Header>, name: string)
    ensures Without(xs + ys, name) == Without(xs, name) + Without(ys, name)
  {
    if xs == [] {
      assert xs + ys == ys;
    } else {
      assert (xs + ys)[1..] == xs[1..] + ys;
      AppendedWithout(xs[1..], ys, name);
    }
  }

  lemma WithoutOne(h: Header, name: string)
    ensures Without([h], name) == if Utils.SameText(h.name, name) then [] else [h]
  {
    assert [h][1..] == [];
  }

  lemma {:induction false} WithoutHasNone(headers: seq<Header>, name: string)
    ensures ValuesOf(Without(headers, name), name) == []
  {
    if headers != [] {
      var first := if Utils.SameText(headers[0].name, name) then [] else [headers[0]];
      WithoutHasNone(headers[1..], name);
      AppendedValues(first, Without(headers[1..], name), name);
    }
  }

  /** `get` and `contains` read the list that `values` returns. */
  lemma {:induction false} ValuesDecide(headers: seq<Header>, name: string)
    ensures HasName(headers, name) <==> ValuesOf(headers, name) != []
    ensures FirstValue(headers, name) == if ValuesOf(headers, name) == [] then "" else ValuesOf(headers, name)[0]
  {
    if headers != [] {
      ValuesDecide(headers[1..], name);
      assert headers == [headers[0]] + headers[1..];
      if HasName(headers[1..], name) {
        var i :| 0 <= i < |headers[1..]| && Utils.SameText(headers[1..][i].name, name);
        assert Utils.SameText(headers[i + 1].name, name);
      }
      if HasName(headers, name) && !Utils.SameText(headers[0].name, name) {
        var i :| 0 <= i < |headers| && Utils.SameText(headers[i].name, name);
        assert Utils.SameText(headers[1..][i - 1].name, name);
      }
    }
  }

  lemma SameTextEquivalence(a: string, b: string, c: string)
    ensures Utils.SameText(a, b) == Utils.SameText(b, a)
    ensures Utils.SameText(a, b) && Utils.SameText(b, c) ==> Utils.SameText(a, c)
  {
    if Utils.SameText(a, b) && Utils.SameText(b, c) {
      forall i | 0 <= i < |a| ensures Utils.ToLower(a[i]) == Utils.ToLower(c[i]) {
        assert Utils.ToLower(b[i]) == Utils.ToLower(c[i]);
      }
    }
  }

  /** `set` leaves exactly one header with its name, and every other name as it was. */
  lemma {:induction false} SetReplaces(headers: seq<Header>, name: string, value: string, other: string)
    ensures ValuesOf(Without(headers, name) + [Header(name, value)], other) ==
            if Utils.SameText(name, other) then [value] else ValuesOf(headers, other)
  {
    hide Utils.SameText;
    if headers == [] {
      assert Without(headers, name) + [Header(name, value)] == [Header(name, value)];
    } else {
      SetReplaces(headers[1..], name, value, other);
      var first := if Utils.SameText(headers[0].name, name) then [] else [headers[0]];
      var rest := Without(headers[1..], name) + [Header(name, value)];
      assert Without(headers, name) + [Header(name, value)] == first + rest;
      AppendedValues(first, rest, other);
      SameTextEquivalence(headers[0].name, name, other);
      SameTextEquivalence(headers[0].name, other, name);
      SameTextEquivalence(name, other, name);
      SameTextEquivalence(name, headers[0].name, other);
    }
  }
}
