/** Query strings: writing a list of pairs, in any of the spellings that mean it, and reading it back. */
module QueryEncoding {
  import opened ByteStrings
  import opened HttpMessages
  import opened HttpUtils
  import opened ParserSpec
  import opened TextMeaning

  // ----- spelling bytes -----

  /** The characters that mean themselves in a key; in a value, '=' does too. */
  predicate IsPlain(c: char, inValue: bool) { c !in "%+& \r" && (c == '=' ==> inValue) }

  /** One byte: as it is, a space as '+', or as '%' and two hexadecimal digits in any letter case. */
  predicate SpellsByte(piece: string, b: Byte, inValue: bool) {
    || (piece == [b] && IsPlain(b, inValue))
    || (piece == "+" && b == ' ')
    || (&& |piece| == 3 && piece[0] == '%'
        && IsHexDigitOf(piece[1], b as int / 16) && IsHexDigitOf(piece[2], b as int % 16))
  }

  function PieceWidth(text: string): nat
    requires text != ""
  {
    if text[0] == '%' then 3 else 1
  }

  /** A text that spells these bytes, one after the other. */
  predicate Spells(text: string, bytes: ByteString, inValue: bool)
    decreases |bytes|
  {
    if bytes == [] then text == ""
    else
      && text != "" && PieceWidth(text) <= |text|
      && SpellsByte(text[..PieceWidth(text)], bytes[0], inValue)
      && Spells(text[PieceWidth(text)..], bytes[1..], inValue)
  }

  predicate IsTextChar(c: char, inValue: bool) { c !in "& \r" && (c == '=' ==> inValue) }

  lemma HexDigitIsText(c: char, d: nat)
    requires IsHexDigitOf(c, d)
    ensures IsTextChar(c, false)
  {
    FromHexMeans(c);
    assert FromHex(c) == d;
  }

  lemma PlainPieceDecodes(text: string, b: Byte, inValue: bool)
    requires text != "" && text[0] != '%' && SpellsByte([text[0]], b, inValue)
    ensures UrlDecoded(text) == [b] + UrlDecoded(text[1..])
    ensures IsTextChar(text[0], inValue)
  {
    UrlDecodedMeans(text, 0, 0);
    hide UrlDecoded, IsHexDigitOf, IsHexDigit;
    assert [text[0]] == [b] ==> text[0] == b;
    assert [text[0]] == "+" ==> text[0] == '+';
  }

  lemma HexPieceDecodes(text: string, b: Byte, inValue: bool)
    requires 3 <= |text| && text[0] == '%' && SpellsByte(text[..3], b, inValue)
    ensures UrlDecoded(text) == [b] + UrlDecoded(text[3..])
    ensures IsTextChar(text[0], inValue) && IsTextChar(text[1], inValue) && IsTextChar(text[2], inValue)
  {
    hide UrlDecoded, IsHexDigitOf, IsHexDigit;
    var piece := text[..3];
    assert piece[0] == text[0] && piece[1] == text[1] && piece[2] == text[2];
    assert |piece| == 3 && |[b]| == 1 && |"+"| == 1;
    HexDigitIsText(text[1], b as int / 16);
    HexDigitIsText(text[2], b as int % 16);
    UrlDecodedMeans(text, b as int / 16, b as int % 16);
    assert b as int / 16 * 16 + b as int % 16 == b as int;
  }

  lemma PieceDecodes(text: string, b: Byte, inValue: bool)
    requires text != "" && PieceWidth(text) <= |text| && SpellsByte(text[..PieceWidth(text)], b, inValue)
    ensures UrlDecoded(text) == [b] + UrlDecoded(text[PieceWidth(text)..])
    ensures forall i :: 0 <= i < PieceWidth(text) ==> IsTextChar(text[i], inValue)
  {
    hide UrlDecoded, SpellsByte, IsTextChar;
    if text[0] == '%' {
      HexPieceDecodes(text, b, inValue);
    } else {
      assert text[..1] == [text[0]];
      PlainPieceDecodes(text, b, inValue);
    }
  }

  /** Decoding inverts every spelling. */
  lemma {:induction false} SpelledIsDecoded(text: string, bytes: ByteString, inValue: bool)
    requires Spells(text, bytes, inValue)
    ensures UrlDecoded(text) == bytes
    ensures forall i :: 0 <= i < |text| ==> IsTextChar(text[i], inValue)
    decreases |bytes|
  {
    hide SpellsByte, IsTextChar;
    if bytes != [] {
      hide UrlDecoded;
      var w := PieceWidth(text);
      PieceDecodes(text, bytes[0], inValue);
      SpelledIsDecoded(text[w..], bytes[1..], inValue);
      assert forall i :: w <= i < |text| ==> text[i] == text[w..][i - w];
    }
  }

  /** Percent-encoding everything but the unreserved characters is one of the spellings. */
  lemma {:induction false} PercentEncodeSpells(s: ByteString, inValue: bool)
    ensures Spells(PercentEncode(s), s, inValue)
  {
    if s != [] {
      var e, rest, b := PercentEncode(s), PercentEncode(s[1..]), s[0] as int;
      PercentEncodeSpells(s[1..], inValue);
      if IsUnreserved(s[0]) {
        assert e[..1] == [s[0]] && e[1..] == rest;
      } else {
        assert e == ['%', HexDigit(b / 16), HexDigit(b % 16)] + rest;
        assert e[..3] == ['%', HexDigit(b / 16), HexDigit(b % 16)] && e[3..] == rest;
        FromHexMeans(HexDigit(b / 16));
        FromHexMeans(HexDigit(b % 16));
      }
    }
  }

  // ----- items -----

  type Pair = (ByteString, ByteString)

  /** What may stand between two '&': a key and a value, a key alone, or nothing; each as it is spelled. */
  datatype Item =
    | KeyValue(key: ByteString, value: ByteString, keyText: string, valueText: string)
    | KeyOnly(key: ByteString, keyText: string)
    | Nothing

  predicate ValidItem(item: Item) {
    match item
    case KeyValue(key, value, keyText, valueText) => Spells(keyText, key, false) && Spells(valueText, value, true)
    case KeyOnly(key, keyText) => keyText != "" && Spells(keyText, key, false)
    case Nothing => true
  }

  predicate ValidItems(items: seq<Item>) { forall i :: 0 <= i < |items| ==> ValidItem(items[i]) }

  function ItemText(item: Item): string {
    match item
    case KeyValue(_, _, keyText, valueText) => keyText + "=" + valueText
    case KeyOnly(_, keyText) => keyText
    case Nothing => ""
  }

  function QueryText(items: seq<Item>): string {
    if items == [] then ""
    else if |items| == 1 then ItemText(items[0])
    else ItemText(items[0]) + "&" + QueryText(items[1..])
  }

  /** The pair an item stands for; a key alone has an empty value. */
  function PairOf(item: Item): seq<Pair> {
    match item
    case KeyValue(key, value, _, _) => [(key, value)]
    case KeyOnly(key, _) => [(key, [])]
    case Nothing => []
  }

  function PairsOf(items: seq<Item>): seq<Pair> {
    if items == [] then [] else PairOf(items[0]) + PairsOf(items[1..])
  }

  /** The map that keeps the first value of every key. */
  function FirstWins(pairs: seq<Pair>, queries: map<string, string>): map<string, string> {
    if pairs == [] then queries else FirstWins(pairs[1..], Emplace(queries, pairs[0].0, pairs[0].1))
  }

  /** The first pair with this key is the one at `i`. */
  predicate FirstPairAt(pairs: seq<Pair>, key: string, i: int) {
    0 <= i < |pairs| && pairs[i].0 == key && forall j :: 0 <= j < i ==> pairs[j].0 != key
  }

  /** What `FirstWins` means: the keys are those of the list, and each has the value of its first pair. */
  lemma {:induction false} FirstWinsMeaning(pairs: seq<Pair>, queries: map<string, string>, key: string)
    ensures key in FirstWins(pairs, queries) <==> key in queries || exists i :: 0 <= i < |pairs| && pairs[i].0 == key
    ensures key in queries ==> FirstWins(pairs, queries)[key] == queries[key]
    ensures key !in queries ==> forall i :: FirstPairAt(pairs, key, i) ==> FirstWins(pairs, queries)[key] == pairs[i].1
  {
    if pairs != [] {
      var more := Emplace(queries, pairs[0].0, pairs[0].1);
      FirstWinsMeaning(pairs[1..], more, key);
      assert forall i :: 0 < i < |pairs| ==> pairs[i] == pairs[1..][i - 1];
      forall i | key !in queries && FirstPairAt(pairs, key, i)
        ensures FirstWins(pairs, queries)[key] == pairs[i].1
      {
        if i != 0 {
          assert pairs[0].0 != key;
          assert FirstPairAt(pairs[1..], key, i - 1);
        }
      }
    }
  }

  predicate IsQueryChar(c: char) { c != ' ' && c != '\r' }

  lemma ItemTextFacts(item: Item)
    requires ValidItem(item)
    ensures forall i :: 0 <= i < |ItemText(item)| ==> ItemText(item)[i] != '&' && IsQueryChar(ItemText(item)[i])
  {
    match item
    case KeyValue(key, value, keyText, valueText) =>
      SpelledIsDecoded(keyText, key, false);
      SpelledIsDecoded(valueText, value, true);
      hide Spells;
      var text := ItemText(item);
      forall i | 0 <= i < |text| ensures text[i] != '&' && IsQueryChar(text[i]) {
        if i < |keyText| { assert text[i] == keyText[i] && IsTextChar(keyText[i], false); }
        else if |keyText| < i {
          assert text[i] == valueText[i - |keyText| - 1] && IsTextChar(valueText[i - |keyText| - 1], true);
        }
      }
    case KeyOnly(key, keyText) => SpelledIsDecoded(keyText, key, false);
    case Nothing =>
  }

  /** What the loop body does with the text of an item. */
  lemma ItemAdded(item: Item, queries: map<string, string>)
    requires ValidItem(item)
    ensures AddPair(ItemText(item), queries) == FirstWins(PairOf(item), queries)
  {
    match item
    case KeyValue(key, value, keyText, valueText) =>
      SpelledIsDecoded(keyText, key, false);
      SpelledIsDecoded(valueText, value, true);
      hide Spells, UrlDecoded;
      var text := ItemText(item);
      forall i | 0 <= i < |keyText| ensures text[i] != '=' { assert text[i] == keyText[i] && IsTextChar(keyText[i], false); }
      CharIsFirst(text, '=', 0, |keyText|);
      hide FindChar;
      assert text[..|keyText|] == keyText && text[|keyText| + 1..] == valueText;
      OnePair((key, value), queries);
    case KeyOnly(key, keyText) =>
      SpelledIsDecoded(keyText, key, false);
      hide Spells, UrlDecoded;
      forall i | 0 <= i < |keyText| ensures keyText[i] != '=' { assert IsTextChar(keyText[i], false); }
      CharIsFirst(keyText, '=', 0, |keyText|);
      hide FindChar;
      OnePair((key, []), queries);
    case Nothing =>
  }

  lemma OnePair(pair: Pair, queries: map<string, string>)
    ensures FirstWins([pair], queries) == Emplace(queries, pair.0, pair.1)
  {
    assert [pair][1..] == [];
  }

  lemma {:induction false} FirstWinsAppends(xs: seq<Pair>, ys: seq<Pair>, queries: map<string, string>)
    ensures FirstWins(xs + ys, queries) == FirstWins(ys, FirstWins(xs, queries))
    decreases |xs|
  {
    if xs == [] {
      assert xs + ys == ys;
    } else {
      assert (xs + ys)[1..] == xs[1..] + ys;
      FirstWinsAppends(xs[1..], ys, Emplace(queries, xs[0].0, xs[0].1));
    }
  }

  lemma {:induction false} QueryTextAlphabet(items: seq<Item>)
    requires ValidItems(items)
    ensures forall i :: 0 <= i < |QueryText(items)| ==> IsQueryChar(QueryText(items)[i])
    decreases |items|
  {
    if items != [] {
      ItemTextFacts(items[0]);
      hide ItemText, ValidItem, IsQueryChar;
      AmpIsQueryChar();
      if |items| > 1 {
        var first, more := ItemText(items[0]), QueryText(items[1..]);
        QueryTextAlphabet(items[1..]);
        forall i | 0 <= i < |QueryText(items)| ensures IsQueryChar(QueryText(items)[i]) {
          if i < |first| { assert QueryText(items)[i] == first[i]; }
          else if |first| < i { assert QueryText(items)[i] == more[i - |first| - 1]; }
        }
      }
    }
  }

  lemma AmpIsQueryChar()
    ensures IsQueryChar('&')
  {}

  /** One turn of the query loop, on a pair that ends the query or that a '&' follows. */
  lemma PairRead(query: string, start: nat, pair: string, rest: string)
    requires start < |query| && forall i :: 0 <= i < |pair| ==> pair[i] != '&'
    requires query[start..] == pair || query[start..] == pair + "&" + rest
    ensures query[start..] == pair ==> PairAt(query, start) == (pair, NPOS)
    ensures query[start..] == pair + "&" + rest ==>
              PairAt(query, start) == (pair, start + |pair| + 1) && query[start + |pair| + 1..] == rest
  {
    var s := query[start..];
    forall i | start <= i < start + |pair| ensures query[i] != '&' {
      assert query[i] == s[i - start];
    }
    if s == pair {
      CharIsFirst(query, '&', start, |query|);
    } else {
      assert s == pair + "&" + rest;
      assert s[|pair|] == '&';
      assert query[start + |pair|] == '&';
      CharIsFirst(query, '&', start, start + |pair|);
      assert query[start..start + |pair|] == s[..|pair|] == pair;
      assert query[start + |pair| + 1..] == s[|pair| + 1..];
    }
  }

  /** Reading back what was written gives the first-wins map of the pairs. */
  lemma {:induction false} QueryReadBack(query: string, start: nat, items: seq<Item>, queries: map<string, string>)
    requires ValidItems(items) && start <= |query| && query[start..] == QueryText(items)
    ensures AddQueries(query, start, queries) == FirstWins(PairsOf(items), queries)
    decreases |items|
  {
    hide AddPair, ItemText, PairAt, Emplace, FirstWins, ValidItem, PairOf;
    NothingWon(queries);
    if items != [] {
      var item, text := items[0], ItemText(items[0]);
      ItemTextFacts(item);
      ItemAdded(item, queries);
      var rest := if |items| == 1 then "" else QueryText(items[1..]);
      var next := FirstWins(PairOf(item), queries);
      FirstWinsAppends(PairOf(item), PairsOf(items[1..]), queries);
      if |items| == 1 {
        assert items[1..] == [];
        NothingWon(next);
        if text == "" { NothingAdded(queries); } else { PairRead(query, start, text, rest); }
      } else {
        PairRead(query, start, text, rest);
        QueryReadBack(query, start + |text| + 1, items[1..], next);
      }
    }
  }

  lemma NothingWon(queries: map<string, string>)
    ensures FirstWins([], queries) == queries
  {}

  lemma NothingAdded(queries: map<string, string>)
    ensures AddPair("", queries) == queries
  {}
}
