/** Byte strings, and the searches that the C++ standard library offers on them.

    HTTP text is modelled as `string`: a char stands for the byte with its code, and what is
    proved about every string holds in particular of every byte string.  `Byte` names the chars
    that do stand for a byte; it is used where the numeric value of a byte matters. */
module ByteStrings {

  datatype Option<+T> = None | Some(value: T)

  type Byte = c: char | c as int < 256

  type ByteString = seq<Byte>

  /** `std::string_view::npos` */
  const NPOS: int := -1

  predicate CrlfAt(s: string, i: int) {
    0 <= i && i + 1 < |s| && s[i] == '\r' && s[i + 1] == '\n'
  }

  /** An empty line: the four bytes CR LF CR LF start at `i`. */
  predicate BlankLineAt(s: string, i: int) {
    CrlfAt(s, i) && CrlfAt(s, i + 2)
  }

  /** `s.find("\r\n", from)` */
  function FindCrlf(s: string, from: nat): (r: int)
    ensures r == NPOS || (from <= r && CrlfAt(s, r))
    decreases |s| - from
  {
    if |s| <= from then NPOS
    else if CrlfAt(s, from) then from
    else FindCrlf(s, from + 1)
  }

  /** `s.find("\r\n\r\n")` */
  function FindBlankLine(s: string, from: nat): (r: int)
    ensures r == NPOS || (from <= r && BlankLineAt(s, r))
    decreases |s| - from
  {
    if |s| <= from then NPOS
    else if BlankLineAt(s, from) then from
    else FindBlankLine(s, from + 1)
  }

  /** `s.find(c, from)` */
  function FindChar(s: string, c: char, from: nat): (r: int)
    ensures r == NPOS || (from <= r < |s| && s[r] == c)
    decreases |s| - from
  {
    if |s| <= from then NPOS
    else if s[from] == c then from
    else FindChar(s, c, from + 1)
  }

  // ----- the searches return the first match -----

  lemma FirstCrlf(s: string, from: nat)
    ensures FindCrlf(s, from) == NPOS ==> forall i :: from <= i ==> !CrlfAt(s, i)
    ensures FindCrlf(s, from) != NPOS ==> forall i :: from <= i < FindCrlf(s, from) ==> !CrlfAt(s, i)
    decreases |s| - from
  {
    if from < |s| && !CrlfAt(s, from) { FirstCrlf(s, from + 1); }
  }

  lemma FirstBlankLine(s: string, from: nat)
    ensures FindBlankLine(s, from) == NPOS ==> forall i :: from <= i ==> !BlankLineAt(s, i)
    ensures FindBlankLine(s, from) != NPOS ==> forall i :: from <= i < FindBlankLine(s, from) ==> !BlankLineAt(s, i)
    decreases |s| - from
  {
    if from < |s| && !BlankLineAt(s, from) { FirstBlankLine(s, from + 1); }
  }

  lemma FirstChar(s: string, c: char, from: nat)
    ensures FindChar(s, c, from) == NPOS ==> forall i :: from <= i < |s| ==> s[i] != c
    ensures FindChar(s, c, from) != NPOS ==> forall i :: from <= i < FindChar(s, c, from) ==> s[i] != c
    decreases |s| - from
  {
    if from < |s| && s[from] != c { FirstChar(s, c, from + 1); }
  }

  /** The place of the first match, for a caller that knows it. */
  lemma CharIsFirst(s: string, c: char, from: nat, k: nat)
    requires from <= k <= |s| && (k < |s| ==> s[k] == c)
    requires forall i :: from <= i < k ==> s[i] != c
    ensures FindChar(s, c, from) == if k < |s| then k else NPOS
  {
    FirstChar(s, c, from);
  }

  /** A delimiter that was found stays where it is when more bytes arrive. */
  lemma FoundStaysFound(s: string, t: string)
    requires s <= t
    ensures FindCrlf(s, 0) != NPOS ==> FindCrlf(t, 0) == FindCrlf(s, 0)
    ensures FindBlankLine(s, 0) != NPOS ==> FindBlankLine(t, 0) == FindBlankLine(s, 0)
  {
    FirstCrlf(s, 0);
    FirstCrlf(t, 0);
    FirstBlankLine(s, 0);
    FirstBlankLine(t, 0);
    forall i | 0 <= i < |s|
      ensures CrlfAt(s, i) == (i + 1 < |s| && CrlfAt(t, i))
      ensures BlankLineAt(s, i) == (i + 3 < |s| && BlankLineAt(t, i))
    {}
  }

  /** A delimiter that lies inside a prefix is found there. */
  lemma FoundInPrefix(x: string, y: string)
    requires x <= y
    ensures FindCrlf(y, 0) != NPOS && FindCrlf(y, 0) + 2 <= |x| ==> FindCrlf(x, 0) == FindCrlf(y, 0)
    ensures FindBlankLine(y, 0) != NPOS && FindBlankLine(y, 0) + 4 <= |x| ==> FindBlankLine(x, 0) == FindBlankLine(y, 0)
  {
    FirstCrlf(x, 0);
    FirstBlankLine(x, 0);
    if FindCrlf(y, 0) != NPOS && FindCrlf(y, 0) + 2 <= |x| {
      assert CrlfAt(x, FindCrlf(y, 0));
    }
    if FindBlankLine(y, 0) != NPOS && FindBlankLine(y, 0) + 4 <= |x| {
      assert BlankLineAt(x, FindBlankLine(y, 0));
    }
    FoundStaysFound(x, y);
  }

  lemma Associates<T>(a: seq<T>, b: seq<T>, c: seq<T>)
    ensures a + (b + c) == (a + b) + c
  {}

  function Concat<T>(parts: seq<seq<T>>): seq<T> {
    if parts == [] then [] else parts[0] + Concat(parts[1..])
  }

  lemma ConcatUnfolds<T>(parts: seq<seq<T>>)
    requires parts != []
    ensures Concat(parts) == parts[0] + Concat(parts[1..])
    ensures |parts| == 1 ==> Concat(parts) == parts[0]
  {
    if |parts| == 1 {
      assert parts[1..] == [];
      assert parts[0] + [] == parts[0];
    }
  }
}
