/** Text helpers of the HTTP layer (src/http/HttpUtils.cpp): each loop is a method, proved
    against a function or a mathematical definition. */
module HttpUtils {
  import opened ByteStrings

  /** `std::numeric_limits<std::size_t>::max()` */
  const SIZE_MAX: nat := 0xFFFF_FFFF_FFFF_FFFF

  datatype HttpMethod = GET | POST | PUT | PATCH | DELETE | HEAD | OPTIONS | CONNECT | TRACE | UNKNOWN

  function ParseMethod(name: string): HttpMethod {
    if name == "GET" then GET
    else if name == "POST" then POST
    else if name == "PUT" then PUT
    else if name == "PATCH" then PATCH
    else if name == "DELETE" then DELETE
    else if name == "HEAD" then HEAD
    else if name == "OPTIONS" then OPTIONS
    else if name == "CONNECT" then CONNECT
    else if name == "TRACE" then TRACE
    else UNKNOWN
  }

  // ----- optional whitespace -----

  predicate IsOws(c: char) { c == ' ' || c == '\t' }

  predicate AllOws(s: string) { forall i :: 0 <= i < |s| ==> IsOws(s[i]) }

  /** Neither end is optional whitespace. */
  predicate IsTrimmed(s: string) {
    s != "" ==> !IsOws(s[0]) && !IsOws(s[|s| - 1])
  }

  function TrimLeft(s: string): string {
    if s != "" && IsOws(s[0]) then TrimLeft(s[1..]) else s
  }

  function TrimRight(s: string): string {
    if s != "" && IsOws(s[|s| - 1]) then TrimRight(s[..|s| - 1]) else s
  }

  function Trimmed(s: string): string { TrimRight(TrimLeft(s)) }

  method TrimOws(value: string) returns (r: string)
    ensures r == Trimmed(value)
    ensures IsTrimmed(r)
  {
    r := value;
    while r != "" && IsOws(r[0])
      invariant TrimLeft(r) == TrimLeft(value)
      decreases |r|
    {
      r := r[1..];
    }
    while r != "" && IsOws(r[|r| - 1])
      invariant TrimRight(r) == Trimmed(value)
      invariant r == "" || !IsOws(r[0])
      decreases |r|
    {
      r := r[..|r| - 1];
    }
  }

  lemma {:induction false} TrimLeftDrops(a: string, t: string)
    requires AllOws(a) && (t == "" || !IsOws(t[0]))
    ensures TrimLeft(a + t) == t
  {
    if a == "" {
      assert a + t == t;
    } else {
      assert (a + t)[1..] == a[1..] + t;
      TrimLeftDrops(a[1..], t);
    }
  }

  lemma {:induction false} TrimRightDrops(t: string, b: string)
    requires AllOws(b) && (t == "" || !IsOws(t[|t| - 1]))
    ensures TrimRight(t + b) == t
  {
    if b == "" {
      assert t + b == t;
    } else {
      assert (t + b)[..|t + b| - 1] == t + b[..|b| - 1];
      TrimRightDrops(t, b[..|b| - 1]);
    }
  }

  /** Trimming removes the whitespace around a value and nothing else. */
  lemma TrimmedIsTheCore(a: string, t: string, b: string)
    requires AllOws(a) && AllOws(b) && IsTrimmed(t)
    ensures Trimmed(a + t + b) == t
  {
    if t == "" {
      TrimLeftDrops(a + b, "");
      assert a + t + b == a + b + "";
    } else {
      assert a + t + b == a + (t + b);
      TrimLeftDrops(a, t + b);
      TrimRightDrops(t, b);
    }
  }

  // ----- names and values -----

  /** `std::tolower` in the C locale */
  function ToLower(c: char): char {
    if 'A' <= c <= 'Z' then (c as int + 32) as char else c
  }

  predicate SameText(a: string, b: string) {
    |a| == |b| && forall i :: 0 <= i < |a| ==> ToLower(a[i]) == ToLower(b[i])
  }

  method EqualsIgnoreCase(lhs: string, rhs: string) returns (r: bool)
    ensures r == SameText(lhs, rhs)
  {
    if |lhs| != |rhs| { return false; }
    var i := 0;
    while i < |lhs|
      invariant 0 <= i <= |lhs|
      invariant forall k :: 0 <= k < i ==> ToLower(lhs[k]) == ToLower(rhs[k])
    {
      if ToLower(lhs[i]) != ToLower(rhs[i]) { return false; }
      i := i + 1;
    }
    return true;
  }

  predicate IsTokenChar(c: char) {
    '0' <= c <= '9' || 'A' <= c <= 'Z' || 'a' <= c <= 'z' || c in "!#$%&'*+-.^_`|~"
  }

  predicate IsToken(s: string) {
    s != "" && forall i :: 0 <= i < |s| ==> IsTokenChar(s[i])
  }

  predicate IsFieldChar(c: char) {
    c != '\r' && c != '\n' && (c as int < 0x20 ==> c == '\t') && c as int != 0x7F
  }

  predicate IsFieldText(s: string) {
    forall i :: 0 <= i < |s| ==> IsFieldChar(s[i])
  }

  method IsValidHeaderName(name: string) returns (r: bool)
    ensures r == IsToken(name)
  {
    if name == "" { return false; }
    for i := 0 to |name|
      invariant forall k :: 0 <= k < i ==> IsTokenChar(name[k])
    {
      if !IsTokenChar(name[i]) { return false; }
    }
    return true;
  }

  method IsValidHeaderValue(value: string) returns (r: bool)
    ensures r == IsFieldText(value)
  {
    for i := 0 to |value|
      invariant forall k :: 0 <= k < i ==> IsFieldChar(value[k])
    {
      if value[i] == '\r' || value[i] == '\n' { return false; }
      if value[i] as int < 0x20 && value[i] != '\t' { return false; }
      if value[i] as int == 0x7F { return false; }
    }
    return true;
  }

  // ----- decimal numbers -----

  predicate IsDigit(c: char) { '0' <= c <= '9' }

  predicate AllDigits(s: string) { forall i :: 0 <= i < |s| ==> IsDigit(s[i]) }

  /** The number a string of decimal digits denotes. */
  function DecValue(s: string): nat
    requires AllDigits(s)
  {
    if s == "" then 0 else DecValue(s[..|s| - 1]) * 10 + (s[|s| - 1] as int - '0' as int)
  }

  /** `std::to_string` of an unsigned number */
  function ToDec(n: nat): (s: string)
    ensures s != "" && AllDigits(s)
  {
    var last := [(n % 10 + '0' as int) as char];
    if n < 10 then last else ToDec(n / 10) + last
  }

  lemma {:induction false} DecRoundTrip(n: nat)
    ensures DecValue(ToDec(n)) == n
  {
    if n >= 10 {
      DecRoundTrip(n / 10);
      var s := ToDec(n);
      assert s[..|s| - 1] == ToDec(n / 10);
    }
  }

  /** What `std::from_chars` makes of digits: the number, unless it does not fit in 64 bits. */
  function FromChars(digits: string): Option<nat>
    requires AllDigits(digits)
  {
    if DecValue(digits) <= SIZE_MAX then Some(DecValue(digits)) else None
  }

  /** The length a header value gives. */
  function ContentLengthOf(value: string): Option<nat> {
    if value != "" && AllDigits(value) then FromChars(value) else None
  }

  /** `result` is an in-out parameter of the source: `initial` is its value before the call. */
  method ParseContentLength(value: string, initial: nat) returns (ok: bool, result: nat)
    ensures ok <==> value != "" && AllDigits(value) && DecValue(value) <= SIZE_MAX
    ensures result == if ok then DecValue(value) else initial
  {
    result := initial;
    if value == "" { return false, initial; }
    for i := 0 to |value|
      invariant forall k :: 0 <= k < i ==> IsDigit(value[k])
    {
      if value[i] < '0' || value[i] > '9' { return false, initial; }
    }
    var parsed := FromChars(value);
    if parsed.None? { return false, initial; }
    return true, parsed.value;
  }

  // ----- hexadecimal numbers -----

  /** The value of a hexadecimal digit, or -1. */
  function FromHex(c: char): (d: int)
    ensures -1 <= d < 16
  {
    if '0' <= c <= '9' then c as int - '0' as int
    else if 'a' <= c <= 'f' then c as int - 'a' as int + 10
    else if 'A' <= c <= 'F' then c as int - 'A' as int + 10
    else -1
  }

  predicate AllHex(s: string) { forall i :: 0 <= i < |s| ==> FromHex(s[i]) != -1 }

  /** The number a string of hexadecimal digits denotes. */
  function HexValue(s: string): nat
    requires AllHex(s)
  {
    if s == "" then 0 else HexValue(s[..|s| - 1]) * 16 + FromHex(s[|s| - 1])
  }

  /** The scan the source makes from the left: the verdict, and the accumulator it stops with. */
  function ScanHex(s: string, acc: nat): (bool, nat) {
    if s == "" then (true, acc)
    else if FromHex(s[0]) == -1 then (false, acc)
    else if acc > (SIZE_MAX - FromHex(s[0])) / 16 then (false, acc)
    else ScanHex(s[1..], acc * 16 + FromHex(s[0]))
  }

  /** The verdict and the value a chunk-size text yields; an empty text changes nothing. */
  function ChunkSizeOf(value: string, initial: nat): (bool, nat) {
    if value == "" then (false, initial) else ScanHex(value, 0)
  }

  /** Appending digits never makes the number smaller, so an overflow can be reported early. */
  lemma {:induction false} HexPrefixIsSmaller(s: string, k: nat)
    requires AllHex(s) && k <= |s|
    ensures HexValue(s[..k]) <= HexValue(s)
    decreases |s|
  {
    if k < |s| {
      HexPrefixIsSmaller(s[..|s| - 1], k);
      assert s[..|s| - 1][..k] == s[..k];
    } else {
      assert s[..k] == s;
    }
  }

  lemma HexSnoc(s: string, k: nat)
    requires k < |s| && AllHex(s[..k + 1])
    ensures AllHex(s[..k]) && HexValue(s[..k + 1]) == HexValue(s[..k]) * 16 + FromHex(s[k])
  {
    var t := s[..k + 1];
    assert t[..|t| - 1] == s[..k];
    assert t[|t| - 1] == s[k];
    forall i | 0 <= i < k ensures FromHex(s[..k][i]) != -1 {
      assert s[..k][i] == t[i];
    }
  }

  /** The division guard fires exactly when the next accumulator would exceed 64 bits. */
  lemma DivisionGuardIsOverflow(acc: nat, digit: nat)
    requires digit < 16
    ensures acc > (SIZE_MAX - digit) / 16 <==> acc * 16 + digit > SIZE_MAX
  {}

  /** One turn of the loop: a wrong character or an overflow decides the verdict, and otherwise the value
      grows by the digit. */
  lemma OneDigit(value: string, i: nat)
    requires i < |value| && AllHex(value[..i])
    ensures FromHex(value[i]) == -1 ==> !AllHex(value)
    ensures FromHex(value[i]) != -1 ==>
              && AllHex(value[..i + 1]) && HexValue(value[..i + 1]) == HexValue(value[..i]) * 16 + FromHex(value[i])
              && (AllHex(value) ==> HexValue(value[..i + 1]) <= HexValue(value))
  {
    if FromHex(value[i]) != -1 {
      assert AllHex(value[..i + 1]);
      HexSnoc(value, i);
      if AllHex(value) { HexPrefixIsSmaller(value, i + 1); }
    }
  }

  lemma NoDigits()
    ensures AllHex("") && HexValue("") == 0
  {}

  method ParseChunkSize(value: string, initial: nat) returns (ok: bool, result: nat)
    ensures ok <==> value != "" && AllHex(value) && HexValue(value) <= SIZE_MAX
    ensures ok ==> result == HexValue(value)
    ensures (ok, result) == ChunkSizeOf(value, initial)
  {
    hide AllHex, HexValue, FromHex;
    result := initial;
    if value == "" { return false, initial; }
    result := 0;
    var i := 0;
    assert value[0..] == value && value[..0] == "";
    NoDigits();
    while i < |value|
      invariant 0 <= i <= |value|
      invariant AllHex(value[..i]) && result == HexValue(value[..i]) <= SIZE_MAX
      invariant ScanHex(value[i..], result) == ScanHex(value, 0)
    {
      var digit := FromHex(value[i]);
      assert value[i..][0] == value[i] && value[i..][1..] == value[i + 1..];
      OneDigit(value, i);
      if digit == -1 { return false, result; }
      DivisionGuardIsOverflow(result, digit);
      if result > (SIZE_MAX - digit) / 16 { return false, result; }
      result := result * 16 + digit;
      i := i + 1;
    }
    assert value[..i] == value;
    return true, result;
  }

  /** The same exact condition, on the function the parser's specification uses. */
  lemma ChunkSizeExact(value: string, initial: nat)
    ensures ChunkSizeOf(value, initial).0 <==> value != "" && AllHex(value) && HexValue(value) <= SIZE_MAX
    ensures ChunkSizeOf(value, initial).0 ==> ChunkSizeOf(value, initial).1 == HexValue(value)
  {
    if value != "" {
      assert value[..0] == "" && value[0..] == value;
      ScanHexExact(value, 0);
    }
  }

  lemma {:induction false} ScanHexExact(value: string, i: nat)
    requires i <= |value| && AllHex(value[..i]) && HexValue(value[..i]) <= SIZE_MAX
    ensures ScanHex(value[i..], HexValue(value[..i])).0 <==> AllHex(value) && HexValue(value) <= SIZE_MAX
    ensures ScanHex(value[i..], HexValue(value[..i])).0 ==>
              ScanHex(value[i..], HexValue(value[..i])).1 == HexValue(value)
    decreases |value| - i
  {
    if i == |value| {
      assert value[..i] == value;
    } else {
      assert value[i..][0] == value[i] && value[i..][1..] == value[i + 1..];
      if FromHex(value[i]) != -1 {
        assert AllHex(value[..i + 1]);
        HexSnoc(value, i);
        DivisionGuardIsOverflow(HexValue(value[..i]), FromHex(value[i]));
        if HexValue(value[..i + 1]) <= SIZE_MAX {
          ScanHexExact(value, i + 1);
        } else if AllHex(value) {
          HexPrefixIsSmaller(value, i + 1);
        }
      }
    }
  }

  function HexDigit(d: nat): (c: char)
    requires d < 16
    ensures FromHex(c) == d
  {
    if d < 10 then (d + '0' as int) as char else (d - 10 + 'A' as int) as char
  }

  /** Hexadecimal text of a number, without leading zeros. */
  function ToHex(n: nat): (s: string)
    ensures s != "" && AllHex(s)
  {
    if n < 16 then [HexDigit(n)] else ToHex(n / 16) + [HexDigit(n % 16)]
  }

  lemma {:induction false} HexRoundTrip(n: nat)
    ensures HexValue(ToHex(n)) == n
  {
    if n >= 16 {
      HexRoundTrip(n / 16);
      var s := ToHex(n);
      assert s[..|s| - 1] == ToHex(n / 16);
    }
  }

  // ----- percent decoding -----

  /** The first byte that an encoded text stands for, and how many characters spell it. */
  function UrlToken(s: string): (char, nat)
    requires s != ""
  {
    if s[0] == '+' then (' ', 1)
    else if s[0] == '%' && 2 < |s| && FromHex(s[1]) != -1 && FromHex(s[2]) != -1 then
      ((FromHex(s[1]) * 16 + FromHex(s[2])) as char, 3)
    else (s[0], 1)
  }

  function UrlDecoded(s: string): string {
    if s == "" then "" else [UrlToken(s).0] + UrlDecoded(s[UrlToken(s).1..])
  }

  method UrlDecode(value: string) returns (result: string)
    ensures result == UrlDecoded(value)
    ensures |result| <= |value|
  {
    hide UrlToken;
    result := "";
    var i := 0;
    assert value[0..] == value;
    while i < |value|
      invariant 0 <= i <= |value| && |result| <= i
      invariant result + UrlDecoded(value[i..]) == UrlDecoded(value)
    {
      var c, width := DecodeAt(value, i);
      assert value[i..][width..] == value[i + width..];
      assert result + ([c] + UrlDecoded(value[i + width..])) == (result + [c]) + UrlDecoded(value[i + width..]);
      result := result + [c];
      i := i + width;
    }
  }

  /** The body of the decoding loop. */
  method DecodeAt(value: string, i: nat) returns (c: char, width: nat)
    requires i < |value|
    ensures (c, width) == UrlToken(value[i..]) && 0 < width && i + width <= |value|
  {
    if value[i] == '+' {
      return ' ', 1;
    } else if value[i] == '%' && i + 2 < |value| {
      var d1, d2 := FromHex(value[i + 1]), FromHex(value[i + 2]);
      if d1 != -1 && d2 != -1 {
        return (d1 * 16 + d2) as char, 3;
      } else {
        return '%', 1;
      }
    } else {
      return value[i], 1;
    }
  }

  /** The unreserved characters of section 2.3 of RFC 3986 */
  predicate IsUnreserved(c: char) {
    '0' <= c <= '9' || 'A' <= c <= 'Z' || 'a' <= c <= 'z' || c in "-._~"
  }

  /** Percent-encoding, section 2.1 of RFC 3986 */
  function PercentEncode(s: ByteString): string {
    if s == [] then ""
    else if IsUnreserved(s[0]) then [s[0]] + PercentEncode(s[1..])
    else ['%', HexDigit(s[0] as int / 16), HexDigit(s[0] as int % 16)] + PercentEncode(s[1..])
  }

  lemma {:induction false} UrlDecodeInvertsPercentEncode(s: ByteString)
    ensures UrlDecoded(PercentEncode(s)) == s
  {
    if s != [] {
      UrlDecodeInvertsPercentEncode(s[1..]);
      var e := PercentEncode(s);
      if IsUnreserved(s[0]) {
        assert e[1..] == PercentEncode(s[1..]);
      } else {
        assert e[3..] == PercentEncode(s[1..]);
        assert e[0] == '%' && FromHex(e[1]) == s[0] as int / 16 && FromHex(e[2]) == s[0] as int % 16;
      }
    }
  }

  /** Encoded text is made of unreserved characters and '%'. */
  lemma {:induction false} PercentEncodeAlphabet(s: ByteString)
    ensures forall i :: 0 <= i < |PercentEncode(s)| ==>
              IsUnreserved(PercentEncode(s)[i]) || PercentEncode(s)[i] == '%'
  {
    if s != [] {
      PercentEncodeAlphabet(s[1..]);
      assert IsUnreserved(HexDigit(s[0] as int / 16)) && IsUnreserved(HexDigit(s[0] as int % 16));
    }
  }
}
