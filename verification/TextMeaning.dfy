/** What the text helpers mean, by the characters themselves: letters and digits are listed, and nothing is
    computed from character codes. */
module TextMeaning {
  import opened ByteStrings
  import opened HttpUtils

  const UPPER := "ABCDEFGHIJKLMNOPQRSTUVWXYZ"
  const LOWER := "abcdefghijklmnopqrstuvwxyz"
  const DIGITS := "0123456789"
  const HEX_UPPER := "0123456789ABCDEF"
  const HEX_LOWER := "0123456789abcdef"
  const TOKEN_MARKS := "!#$%&'*+-.^_`|~"

  // ----- letter case -----

  /** Entry `k` of both alphabets, in either order. */
  predicate OtherCaseAt(c: char, d: char, k: int) {
    0 <= k < 26 && ((c == UPPER[k] && d == LOWER[k]) || (c == LOWER[k] && d == UPPER[k]))
  }

  /** The same character, or the same letter in the other case. */
  predicate SameLetter(c: char, d: char) { c == d || exists k :: 0 <= k < 26 && OtherCaseAt(c, d, k) }

  predicate SameLetters(a: string, b: string) {
    |a| == |b| && forall i :: 0 <= i < |a| ==> SameLetter(a[i], b[i])
  }

  lemma LetterAt(k: nat)
    requires k < 26
    ensures UPPER[k] == ('A' as int + k) as char && LOWER[k] == ('a' as int + k) as char
  {}

  lemma OtherCaseMeans(c: char, d: char, k: nat)
    requires k < 26
    ensures OtherCaseAt(c, d, k) <==>
              || (c as int == 'A' as int + k && d as int == 'a' as int + k)
              || (c as int == 'a' as int + k && d as int == 'A' as int + k)
  {
    LetterAt(k);
  }

  lemma LowerMeans(c: char, d: char)
    ensures ToLower(c) == ToLower(d) <==> SameLetter(c, d)
  {
    hide OtherCaseAt;
    if ToLower(c) == ToLower(d) && c != d {
      var k := if 'A' <= c <= 'Z' then c as int - 'A' as int else c as int - 'a' as int;
      OtherCaseMeans(c, d, k);
      assert OtherCaseAt(c, d, k);
    }
    if k :| 0 <= k < 26 && OtherCaseAt(c, d, k) { OtherCaseMeans(c, d, k); }
  }

  /** Names are compared without regard to letter case, and otherwise character by character. */
  lemma SameTextMeans(a: string, b: string)
    ensures SameText(a, b) <==> SameLetters(a, b)
  {
    hide ToLower, SameLetter;
    if |a| == |b| {
      forall i | 0 <= i < |a| ensures ToLower(a[i]) == ToLower(b[i]) <==> SameLetter(a[i], b[i]) {
        LowerMeans(a[i], b[i]);
      }
    }
  }

  // ----- numbers -----

  predicate IsHexDigitOf(c: char, d: nat) { d < 16 && (c == HEX_UPPER[d] || c == HEX_LOWER[d]) }

  predicate IsHexDigit(c: char) { c in HEX_UPPER || c in HEX_LOWER }

  lemma FromHexMeans(c: char)
    ensures forall d :: 0 <= d < 16 ==> (FromHex(c) == d <==> IsHexDigitOf(c, d))
    ensures FromHex(c) == -1 <==> !IsHexDigit(c)
  {
    forall d | 0 <= d < 16 ensures FromHex(c) == d <==> IsHexDigitOf(c, d) { HexDigitAt(c, d); }
    if FromHex(c) != -1 {
      assert IsHexDigitOf(c, FromHex(c));
    } else {
      forall d | 0 <= d < 16 ensures c != HEX_UPPER[d] && c != HEX_LOWER[d] { assert !IsHexDigitOf(c, d); }
    }
  }

  lemma HexDigitAt(c: char, d: nat)
    requires d < 16
    ensures FromHex(c) == d <==> IsHexDigitOf(c, d)
  {
    assert HEX_UPPER[d] == if d < 10 then ('0' as int + d) as char else ('A' as int + d - 10) as char;
    assert HEX_LOWER[d] == if d < 10 then ('0' as int + d) as char else ('a' as int + d - 10) as char;
  }

  /** Hexadecimal digits of `n`, in any letter case and with any leading zeros. */
  predicate SpellsHex(s: string, n: nat)
    decreases |s|
  {
    if s == "" then n == 0 else IsHexDigitOf(s[|s| - 1], n % 16) && SpellsHex(s[..|s| - 1], n / 16)
  }

  lemma {:induction false} HexSpelled(s: string, n: nat)
    ensures SpellsHex(s, n) <==> AllHex(s) && HexValue(s) == n
    decreases |s|
  {
    if s != "" {
      var last, front := s[|s| - 1], s[..|s| - 1];
      FromHexMeans(last);
      HexSpelled(front, n / 16);
      hide FromHex, IsHexDigitOf, IsHexDigit;
      assert forall i :: 0 <= i < |front| ==> front[i] == s[i];
      assert AllHex(s) <==> AllHex(front) && FromHex(last) != -1;
      if AllHex(s) { LastDigit(HexValue(front), FromHex(last), 16, n); }
    }
  }

  lemma LastDigit(high: nat, digit: nat, base: nat, n: nat)
    requires base == 10 || base == 16
    requires digit < base
    ensures high * base + digit == n <==> high == n / base && digit == n % base
  {}

  predicate IsDigitOf(c: char, d: nat) { d < 10 && c == DIGITS[d] }

  lemma DigitMeans(c: char)
    ensures forall d :: 0 <= d < 10 ==> (IsDigit(c) && c as int - '0' as int == d <==> IsDigitOf(c, d))
    ensures IsDigit(c) <==> c in DIGITS
  {
    forall d | 0 <= d < 10 ensures IsDigit(c) && c as int - '0' as int == d <==> IsDigitOf(c, d) {
      assert DIGITS[d] == ('0' as int + d) as char;
    }
    if IsDigit(c) {
      assert IsDigitOf(c, c as int - '0' as int);
    } else {
      forall d | 0 <= d < 10 ensures c != DIGITS[d] { assert !IsDigitOf(c, d); }
    }
  }

  /** Decimal digits of `n`, with any leading zeros. */
  predicate SpellsDec(s: string, n: nat)
    decreases |s|
  {
    if s == "" then n == 0 else IsDigitOf(s[|s| - 1], n % 10) && SpellsDec(s[..|s| - 1], n / 10)
  }

  lemma {:induction false} DecSpelled(s: string, n: nat)
    ensures SpellsDec(s, n) <==> AllDigits(s) && DecValue(s) == n
    decreases |s|
  {
    if s != "" {
      var last, front := s[|s| - 1], s[..|s| - 1];
      DigitMeans(last);
      DecSpelled(front, n / 10);
      hide IsDigit, IsDigitOf;
      assert forall i :: 0 <= i < |front| ==> front[i] == s[i];
      assert AllDigits(s) <==> AllDigits(front) && IsDigit(last);
      if AllDigits(s) {
        DigitRange(last);
        LastDigit(DecValue(front), last as int - '0' as int, 10, n);
      }
    }
  }

  lemma DigitRange(c: char)
    requires IsDigit(c)
    ensures 0 <= c as int - '0' as int < 10
  {}

  /** The text of a number: its digits, without leading zeros. */
  predicate IsDecimalOf(s: string, n: nat) { SpellsDec(s, n) && s != "" && (s[0] == '0' ==> s == "0") }

  lemma {:induction false} ToDecMeans(n: nat)
    ensures IsDecimalOf(ToDec(n), n)
  {
    DecRoundTrip(n);
    DecSpelled(ToDec(n), n);
    NoLeadingZero(n);
  }

  lemma {:induction false} NoLeadingZero(n: nat)
    ensures ToDec(n)[0] == '0' ==> n == 0 && ToDec(n) == "0"
  {
    if n >= 10 {
      NoLeadingZero(n / 10);
      assert ToDec(n)[0] == ToDec(n / 10)[0];
    }
  }

  // ----- names, values, whitespace -----

  lemma LettersMeans(c: char)
    ensures 'A' <= c <= 'Z' <==> c in UPPER
    ensures 'a' <= c <= 'z' <==> c in LOWER
  {
    forall k | 0 <= k < 26 ensures UPPER[k] as int == 'A' as int + k && LOWER[k] as int == 'a' as int + k { LetterAt(k); }
    if 'A' <= c <= 'Z' { assert UPPER[c as int - 'A' as int] == c; }
    if 'a' <= c <= 'z' { assert LOWER[c as int - 'a' as int] == c; }
  }

  lemma TokenCharMeans(c: char)
    ensures IsTokenChar(c) <==> c in UPPER || c in LOWER || c in DIGITS || c in TOKEN_MARKS
  {
    DigitMeans(c);
    LettersMeans(c);
  }

  /** A header value may hold a tab, a space, and every other byte that is not a control character. */
  lemma FieldCharMeans(c: char)
    ensures IsFieldChar(c) <==> c == '\t' || (' ' <= c && c as int != 127)
  {}

  /** A header name is not empty and made of letters, digits and fifteen marks; a value may also be empty. */
  lemma NameAndValueMean(s: string)
    ensures IsToken(s)
       <==> s != "" && forall i :: 0 <= i < |s| ==> s[i] in UPPER || s[i] in LOWER || s[i] in DIGITS || s[i] in TOKEN_MARKS
    ensures IsFieldText(s) <==> forall i :: 0 <= i < |s| ==> s[i] == '\t' || (' ' <= s[i] && s[i] as int != 127)
  {
    hide IsTokenChar, IsFieldChar, UPPER, LOWER, DIGITS, TOKEN_MARKS;
    forall i | 0 <= i < |s|
      ensures IsTokenChar(s[i]) <==> s[i] in UPPER || s[i] in LOWER || s[i] in DIGITS || s[i] in TOKEN_MARKS
      ensures IsFieldChar(s[i]) <==> s[i] == '\t' || (' ' <= s[i] && s[i] as int != 127)
    {
      TokenCharMeans(s[i]);
      FieldCharMeans(s[i]);
    }
  }

  predicate IsBlank(s: string) { forall i :: 0 <= i < |s| ==> s[i] in " \t" }

  /** Trimming takes spaces and tabs off both ends, all of them, and nothing else. */
  lemma TrimMeans(s: string) returns (a: string, b: string)
    ensures s == a + Trimmed(s) + b && IsBlank(a) && IsBlank(b)
    ensures Trimmed(s) != "" ==> Trimmed(s)[0] !in " \t" && Trimmed(s)[|Trimmed(s)| - 1] !in " \t"
  {
    a := TrimLeftMeans(s);
    b := TrimRightMeans(TrimLeft(s));
    Associates(a, Trimmed(s), b);
  }

  lemma {:induction false} TrimLeftMeans(s: string) returns (a: string)
    ensures s == a + TrimLeft(s) && IsBlank(a)
    ensures TrimLeft(s) != "" ==> TrimLeft(s)[0] !in " \t"
  {
    if s != "" && IsOws(s[0]) {
      var more := TrimLeftMeans(s[1..]);
      a := [s[0]] + more;
      assert s == [s[0]] + s[1..];
    } else {
      a := "";
      assert "" + s == s;
    }
  }

  lemma {:induction false} TrimRightMeans(s: string) returns (b: string)
    ensures s == TrimRight(s) + b && IsBlank(b)
    ensures TrimRight(s) != "" ==> TrimRight(s)[|TrimRight(s)| - 1] !in " \t" && TrimRight(s)[0] == s[0]
  {
    if s != "" && IsOws(s[|s| - 1]) {
      var more := TrimRightMeans(s[..|s| - 1]);
      b := more + [s[|s| - 1]];
      assert s == s[..|s| - 1] + [s[|s| - 1]];
      Associates(TrimRight(s), more, [s[|s| - 1]]);
    } else {
      b := "";
      assert s + "" == s;
    }
  }

  const METHODS := ["GET", "POST", "PUT", "PATCH", "DELETE", "HEAD", "OPTIONS", "CONNECT", "TRACE"]
  const METHOD_VALUES := [GET, POST, PUT, PATCH, DELETE, HEAD, OPTIONS, CONNECT, TRACE]

  /** Nine method names are known, in upper case, and everything else is UNKNOWN. */
  lemma ParseMethodMeans(name: string)
    ensures forall i :: 0 <= i < 9 ==> (name == METHODS[i] <==> ParseMethod(name) == METHOD_VALUES[i])
    ensures ParseMethod(name) == UNKNOWN <==> name !in METHODS
  {
    assert METHODS[0] == "GET" && METHODS[1] == "POST" && METHODS[2] == "PUT" && METHODS[3] == "PATCH";
    assert METHODS[4] == "DELETE" && METHODS[5] == "HEAD" && METHODS[6] == "OPTIONS" && METHODS[7] == "CONNECT";
    assert METHODS[8] == "TRACE";
  }

  // ----- percent decoding -----

  /** One token of decoding, by what the text starts with. */
  lemma UrlTokenMeans(s: string, hi: nat, lo: nat)
    requires s != ""
    ensures s[0] == '+' ==> UrlToken(s) == (' ', 1)
    ensures s[0] !in "+%" ==> UrlToken(s) == (s[0], 1)
    ensures s[0] == '%' && 3 <= |s| && IsHexDigitOf(s[1], hi) && IsHexDigitOf(s[2], lo) ==>
              UrlToken(s) == ((hi * 16 + lo) as char, 3)
    ensures s[0] == '%' && (|s| < 3 || !IsHexDigit(s[1]) || !IsHexDigit(s[2])) ==> UrlToken(s) == ('%', 1)
  {
    if 3 <= |s| {
      FromHexMeans(s[1]);
      FromHexMeans(s[2]);
      assert IsHexDigitOf(s[1], hi) ==> hi < 16 && FromHex(s[1]) == hi;
      assert IsHexDigitOf(s[2], lo) ==> lo < 16 && FromHex(s[2]) == lo;
    }
    hide FromHex, IsHexDigitOf, IsHexDigit;
  }

  /** Decoding, by what the text starts with. */
  lemma UrlDecodedMeans(s: string, hi: nat, lo: nat)
    requires s != ""
    ensures s[0] == '+' ==> UrlDecoded(s) == " " + UrlDecoded(s[1..])
    ensures s[0] !in "+%" ==> UrlDecoded(s) == [s[0]] + UrlDecoded(s[1..])
    ensures s[0] == '%' && 3 <= |s| && IsHexDigitOf(s[1], hi) && IsHexDigitOf(s[2], lo) ==>
              UrlDecoded(s) == [(hi * 16 + lo) as char] + UrlDecoded(s[3..])
    ensures s[0] == '%' && (|s| < 3 || !IsHexDigit(s[1]) || !IsHexDigit(s[2])) ==>
              UrlDecoded(s) == "%" + UrlDecoded(s[1..])
  {
    UrlTokenMeans(s, hi, lo);
    hide UrlToken;
    var token := UrlToken(s);
    assert UrlDecoded(s) == [token.0] + UrlDecoded(s[token.1..]);
    hide *;
  }
}
