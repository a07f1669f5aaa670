/**
 * The JavaScript string operations the order flow relies on, on `string` (a sequence of
 * code points): `indexOf`, `lastIndexOf`, `substring`, `replace(/x/g, y)`, `includes`,
 * `trim`, `toLowerCase` (ASCII letters only), `split` on one character and `parseInt`
 * on a run of decimal digits.
 */
module JsText {

  // ---------------------------------------------------------------------------
  // Searching for one character

  /** `s.indexOf(c)`: the first position of `c`, or -1. */
  function IndexOf(s: string, c: char): (r: int)
    ensures -1 <= r < |s|
    ensures r == -1 <==> c !in s
    ensures r >= 0 ==> s[r] == c && c !in s[..r]
  {
    if s == [] then -1
    else if s[0] == c then 0
    else
      var k := IndexOf(s[1..], c);
      assert s[1..][..if k < 0 then 0 else k] == s[1..if k < 0 then 1 else k + 1];
      if k == -1 then -1 else k + 1
  }

  /** `s.lastIndexOf(c)`: the last position of `c`, or -1. */
  function LastIndexOf(s: string, c: char): (r: int)
    ensures -1 <= r < |s|
    ensures r == -1 <==> c !in s
    ensures r >= 0 ==> s[r] == c && c !in s[r + 1..]
  {
    if s == [] then -1
    else if s[|s| - 1] == c then |s| - 1
    else
      var k := LastIndexOf(s[..|s| - 1], c);
      if k >= 0 then
        LastSuffix(s, k);
        k
      else
        assert s == s[..|s| - 1] + [s[|s| - 1]];
        -1
  }

  /** The text after position `k` is the text after it in all but the last character, then the last. */
  lemma LastSuffix(s: string, k: nat)
    requires k < |s| - 1
    ensures s[k + 1..] == s[..|s| - 1][k + 1..] + [s[|s| - 1]]
  {
  }

  /**
   * `s.substring(a, b)` for in-range arguments: JavaScript swaps the arguments when
   * `a > b`, so the result is always the text between the smaller and the larger index.
   */
  function Substring(s: string, a: nat, b: nat): (r: string)
    requires a <= |s| && b <= |s|
    ensures a <= b ==> r == s[a..b]
    ensures b < a ==> r == s[b..a]
  {
    if a <= b then s[a..b] else s[b..a]
  }

  /**
   * The order of the arguments does not matter: both orders give the |a - b| characters
   * that start at the smaller index.
   */
  lemma SubstringSymmetric(s: string, a: nat, b: nat)
    requires a <= |s| && b <= |s|
    ensures Substring(s, a, b) == Substring(s, b, a)
    ensures |Substring(s, a, b)| == if a <= b then b - a else a - b
    ensures forall i :: 0 <= i < |Substring(s, a, b)| ==>
      Substring(s, a, b)[i] == s[(if a <= b then a else b) + i]
  {
  }

  /** `s.replace(/from/g, to)` for a one-character pattern. */
  function ReplaceAll(s: string, from: char, to: char): (r: string)
    ensures |r| == |s|
    ensures from != to ==> from !in r
    ensures forall i :: 0 <= i < |s| && s[i] != from ==> r[i] == s[i]
    ensures forall i :: 0 <= i < |s| && s[i] == from ==> r[i] == to
  {
    seq(|s|, i requires 0 <= i < |s| => if s[i] == from then to else s[i])
  }

  /** Rewriting works character by character, so it distributes over concatenation. */
  lemma ReplaceAllAppend(a: string, b: string, from: char, to: char)
    ensures ReplaceAll(a + b, from, to) == ReplaceAll(a, from, to) + ReplaceAll(b, from, to)
  {
  }

  // ---------------------------------------------------------------------------
  // Substring containment

  predicate StartsWith(s: string, prefix: string) {
    |prefix| <= |s| && s[..|prefix|] == prefix
  }

  /** `haystack.includes(needle)`, by trying every start position in turn. */
  predicate Includes(haystack: string, needle: string)
    decreases |haystack|
  {
    StartsWith(haystack, needle) || (|needle| < |haystack| && Includes(haystack[1..], needle))
  }

  /** `needle` occurs in `haystack` starting at position `i`. */
  predicate OccursAt(haystack: string, needle: string, i: int) {
    0 <= i <= |haystack| - |needle| && haystack[i..i + |needle|] == needle
  }

  /** `Includes` agrees with the textbook definition: `needle` occurs at some position. */
  lemma {:induction false} IncludesIff(haystack: string, needle: string)
    ensures Includes(haystack, needle) <==> exists i :: OccursAt(haystack, needle, i)
    decreases |haystack|
  {
    if StartsWith(haystack, needle) {
      assert OccursAt(haystack, needle, 0);
    } else if |needle| < |haystack| {
      IncludesIff(haystack[1..], needle);
      if exists i :: OccursAt(haystack, needle, i) {
        var i :| OccursAt(haystack, needle, i);
        assert i != 0;
        assert haystack[1..][i - 1..i - 1 + |needle|] == haystack[i..i + |needle|];
        assert OccursAt(haystack[1..], needle, i - 1);
      }
      if Includes(haystack[1..], needle) {
        var j :| OccursAt(haystack[1..], needle, j);
        assert haystack[1..][j..j + |needle|] == haystack[j + 1..j + 1 + |needle|];
        assert OccursAt(haystack, needle, j + 1);
      }
    } else {
      if |needle| == |haystack| {
        assert haystack[0..|needle|] == haystack[..|needle|];
      }
    }
  }

  /** A witness position is enough for `Includes`. */
  lemma IncludesAt(haystack: string, needle: string, i: nat)
    requires OccursAt(haystack, needle, i)
    ensures Includes(haystack, needle)
  {
    IncludesIff(haystack, needle);
  }

  /** A string holding a character that `haystack` lacks is not contained in it. */
  lemma {:induction false} NotIncludesByChar(haystack: string, needle: string, c: char)
    requires c in needle && c !in haystack
    ensures !Includes(haystack, needle)
    decreases |haystack|
  {
    if |needle| <= |haystack| {
      assert c !in haystack[..|needle|];
    }
    if |needle| < |haystack| {
      NotIncludesByChar(haystack[1..], needle, c);
    }
  }

  /** A string is never contained in a strictly shorter one. */
  lemma NotIncludesLonger(haystack: string, needle: string)
    requires |haystack| < |needle|
    ensures !Includes(haystack, needle)
  {
  }

  // ---------------------------------------------------------------------------
  // Case and white space

  /** `toLowerCase` on one character: only the ASCII capitals are mapped. */
  function LowerChar(c: char): char {
    if 'A' <= c <= 'Z' then (c as int + 32) as char else c
  }

  /** `s.toLowerCase()`, restricted to ASCII letters. */
  function Lower(s: string): string {
    seq(|s|, i requires 0 <= i < |s| => LowerChar(s[i]))
  }

  /** Lower-casing leaves no ASCII capital behind, so doing it twice changes nothing. */
  lemma LowerIdempotent(s: string)
    ensures forall i :: 0 <= i < |s| ==> !('A' <= Lower(s)[i] <= 'Z')
    ensures Lower(Lower(s)) == Lower(s)
  {
  }

  /** The code points JavaScript's `trim` and the regular-expression class `\s` treat as white space. */
  predicate IsWhiteSpace(c: char) {
    || c == '\t' || c == '\n' || c == '\U{000B}' || c == '\U{000C}' || c == '\r' || c == ' '
    || c == '\U{00A0}' || c == '\U{1680}' || ('\U{2000}' <= c <= '\U{200A}')
    || c == '\U{2028}' || c == '\U{2029}' || c == '\U{202F}' || c == '\U{205F}'
    || c == '\U{3000}' || c == '\U{FEFF}'
  }

  /** The position of the first character at or after `i` that is not white space, or `|s|`. */
  function SkipSpace(s: string, i: nat): (k: nat)
    requires i <= |s|
    ensures i <= k <= |s|
    decreases |s| - i
  {
    if i < |s| && IsWhiteSpace(s[i]) then SkipSpace(s, i + 1) else i
  }

  /** The end of `s[..j]` once white space at its back is dropped. */
  function SkipSpaceBack(s: string, j: nat): (k: nat)
    requires j <= |s|
    ensures k <= j
  {
    if j > 0 && IsWhiteSpace(s[j - 1]) then SkipSpaceBack(s, j - 1) else j
  }

  /** `s.trimStart()`. */
  function TrimStart(s: string): string {
    s[SkipSpace(s, 0)..]
  }

  /** `s.trimEnd()`. */
  function TrimEnd(s: string): string {
    s[..SkipSpaceBack(s, |s|)]
  }

  /** `s.trim()`. */
  function Trim(s: string): string {
    TrimEnd(TrimStart(s))
  }

  lemma {:induction false} SkipSpaceSpec(s: string, i: nat)
    requires i <= |s|
    ensures i <= SkipSpace(s, i) <= |s|
    ensures forall k :: i <= k < SkipSpace(s, i) ==> IsWhiteSpace(s[k])
    ensures SkipSpace(s, i) == |s| || !IsWhiteSpace(s[SkipSpace(s, i)])
    decreases |s| - i
  {
    if i < |s| && IsWhiteSpace(s[i]) {
      SkipSpaceSpec(s, i + 1);
    }
  }

  lemma {:induction false} SkipSpaceBackSpec(s: string, j: nat)
    requires j <= |s|
    ensures SkipSpaceBack(s, j) <= j
    ensures forall k :: SkipSpaceBack(s, j) <= k < j ==> IsWhiteSpace(s[k])
    ensures SkipSpaceBack(s, j) == 0 || !IsWhiteSpace(s[SkipSpaceBack(s, j) - 1])
  {
    if j > 0 && IsWhiteSpace(s[j - 1]) {
      SkipSpaceBackSpec(s, j - 1);
    }
  }

  /** `SkipSpace` stops at the first character that is not white space. */
  lemma {:induction false} SkipSpaceStops(s: string, i: nat, k: nat)
    requires i <= k <= |s|
    requires forall j :: i <= j < k ==> IsWhiteSpace(s[j])
    requires k == |s| || !IsWhiteSpace(s[k])
    ensures SkipSpace(s, i) == k
    decreases k - i
  {
    if i < k {
      SkipSpaceStops(s, i + 1, k);
    }
  }

  /** White space around a core with no white space at its ends is exactly what `trim` removes. */
  lemma TrimAround(ws1: string, core: string, ws2: string)
    requires forall j :: 0 <= j < |ws1| ==> IsWhiteSpace(ws1[j])
    requires forall j :: 0 <= j < |ws2| ==> IsWhiteSpace(ws2[j])
    requires core != [] && !IsWhiteSpace(core[0]) && !IsWhiteSpace(core[|core| - 1])
    ensures Trim(ws1 + core + ws2) == core
  {
    var s := ws1 + core + ws2;
    SkipSpaceStops(s, 0, |ws1|);
    var t := s[|ws1|..];
    assert t == core + ws2;
    SkipSpaceBackStops(t, |t|, |core|);
    assert t[..|core|] == core;
  }

  /** `SkipSpaceBack` stops after the last character that is not white space. */
  lemma {:induction false} SkipSpaceBackStops(s: string, j: nat, k: nat)
    requires k <= j <= |s|
    requires forall i :: k <= i < j ==> IsWhiteSpace(s[i])
    requires k == 0 || !IsWhiteSpace(s[k - 1])
    ensures SkipSpaceBack(s, j) == k
    decreases j - k
  {
    if k < j {
      SkipSpaceBackStops(s, j - 1, k);
    }
  }

  /** `trimStart` drops the white space at the front and nothing else. */
  lemma TrimStartSpec(s: string)
    ensures var r := TrimStart(s);
      && |r| <= |s| && r == s[|s| - |r|..]
      && (forall i :: 0 <= i < |s| - |r| ==> IsWhiteSpace(s[i]))
      && (r == [] || !IsWhiteSpace(r[0]))
  {
    SkipSpaceSpec(s, 0);
  }

  /** `trimEnd` drops the white space at the back and nothing else. */
  lemma TrimEndSpec(s: string)
    ensures var r := TrimEnd(s);
      && |r| <= |s| && r == s[..|r|]
      && (forall i :: |r| <= i < |s| ==> IsWhiteSpace(s[i]))
      && (r == [] || !IsWhiteSpace(r[|r| - 1]))
  {
    SkipSpaceBackSpec(s, |s|);
  }

  /** A string with no white space at either end is its own trim. */
  lemma TrimUnchanged(s: string)
    requires s == [] || (!IsWhiteSpace(s[0]) && !IsWhiteSpace(s[|s| - 1]))
    ensures Trim(s) == s
  {
    assert s[0..] == s;
  }

  /** Trimming an already trimmed string changes nothing. */
  lemma TrimIdempotent(s: string)
    ensures Trim(Trim(s)) == Trim(s)
  {
    var t := Trim(s);
    TrimStartSpec(s);
    TrimEndSpec(TrimStart(s));
    if t != [] {
      TrimEndSpec(t);
      assert TrimStart(t) == t;
    }
  }

  // ---------------------------------------------------------------------------
  // Splitting on one separator

  /** `s.split(sep)` for a one-character separator: always at least one part. */
  function Split(s: string, sep: char): (parts: seq<string>)
    ensures |parts| >= 1
    ensures forall k :: 0 <= k < |parts| ==> sep !in parts[k]
    decreases |s|
  {
    var k := IndexOf(s, sep);
    if k == -1 then [s] else [s[..k]] + Split(s[k + 1..], sep)
  }

  /** `parts.join(sep)`. */
  function Join(parts: seq<string>, sep: char): string
    requires |parts| >= 1
  {
    if |parts| == 1 then parts[0] else parts[0] + [sep] + Join(parts[1..], sep)
  }

  /** Splitting loses nothing: joining the parts back gives the original text. */
  lemma {:induction false} JoinSplit(s: string, sep: char)
    ensures Join(Split(s, sep), sep) == s
    decreases |s|
  {
    var k := IndexOf(s, sep);
    if k != -1 {
      SplitAtFirst(s, sep, k);
      CutAt(s, k);
      JoinSplit(s[k + 1..], sep);
      JoinCons(s[..k], Split(s[k + 1..], sep), sep);
    }
  }

  /** A text is what comes before position `k`, the character there, and what comes after. */
  lemma CutAt(s: string, k: nat)
    requires k < |s|
    ensures s == s[..k] + [s[k]] + s[k + 1..]
  {
  }

  /** Joining a first part onto further parts puts one separator between them. */
  lemma JoinCons(first: string, rest: seq<string>, sep: char)
    requires |rest| >= 1
    ensures Join([first] + rest, sep) == first + [sep] + Join(rest, sep)
  {
    assert ([first] + rest)[1..] == rest;
  }

  /** Splitting undoes joining parts that do not contain the separator. */
  lemma {:induction false} SplitJoin(parts: seq<string>, sep: char)
    requires |parts| >= 1
    requires forall k :: 0 <= k < |parts| ==> sep !in parts[k]
    ensures Split(Join(parts, sep), sep) == parts
    decreases |parts|
  {
    var s := Join(parts, sep);
    if |parts| == 1 {
      assert IndexOf(s, sep) == -1;
    } else {
      var rest := Join(parts[1..], sep);
      assert s == parts[0] + [sep] + rest;
      assert s[|parts[0]|] == sep;
      assert s[..|parts[0]|] == parts[0];
      var k := IndexOf(s, sep);
      assert k == |parts[0]|;
      assert s[k + 1..] == rest;
      SplitJoin(parts[1..], sep);
    }
  }

  /** The first occurrence is the one before which the character does not occur. */
  lemma IndexOfAt(s: string, c: char, k: nat)
    requires k < |s| && s[k] == c && c !in s[..k]
    ensures IndexOf(s, c) == k
  {
  }

  /** Splitting cuts at the first separator. */
  lemma SplitAtFirst(s: string, sep: char, k: nat)
    requires k < |s| && s[k] == sep && sep !in s[..k]
    ensures Split(s, sep) == [s[..k]] + Split(s[k + 1..], sep)
  {
    IndexOfAt(s, sep, k);
  }

  /** Sequence concatenation regroups freely; stated once so that callers need not re-derive it. */
  lemma ConcatAssociative<T>(x: seq<T>, y: seq<T>, z: seq<T>)
    ensures x + (y + z) == (x + y) + z
  {
  }

  /** A first part free of the separator is cut off whole. */
  lemma SplitAfterWhole(a: string, b: string, sep: char)
    requires sep !in a
    ensures Split(a + [sep] + b, sep) == [a] + Split(b, sep)
  {
    var s := a + [sep] + b;
    assert s[..|a|] == a && s[|a| + 1..] == b;
    SplitAtFirst(s, sep, |a|);
  }

  /** Text on either side of a separator is split independently. */
  lemma {:induction false} SplitAppend(a: string, b: string, sep: char)
    ensures Split(a + [sep] + b, sep) == Split(a, sep) + Split(b, sep)
    decreases |a|
  {
    var s := a + [sep] + b;
    var k := IndexOf(a, sep);
    if k == -1 {
      SplitAfterWhole(a, b, sep);
    } else {
      var rest := a[k + 1..];
      assert s[..k] == a[..k] && s[k + 1..] == rest + [sep] + b;
      SplitAtFirst(s, sep, k);
      SplitAtFirst(a, sep, k);
      SplitAppend(rest, b, sep);
      ConcatAssociative([a[..k]], Split(rest, sep), Split(b, sep));
    }
  }

  // ---------------------------------------------------------------------------
  // Decimal digits

  predicate IsDigit(c: char) {
    '0' <= c <= '9'
  }

  predicate AllDigits(s: string) {
    forall i :: 0 <= i < |s| ==> IsDigit(s[i])
  }

  /** `Number.parseInt(d)` for a non-empty run of decimal digits, read left to right. */
  function DigitsValue(d: string): (n: nat)
    requires AllDigits(d)
    ensures |d| == 1 ==> n == d[0] as int - '0' as int
  {
    if d == [] then 0 else DigitsValue(d[..|d| - 1]) * 10 + (d[|d| - 1] as int - '0' as int)
  }

  /** A run of digits other than zeros denotes a positive number. */
  lemma {:induction false} DigitsValuePositive(d: string, k: nat)
    requires AllDigits(d) && k < |d| && d[k] != '0'
    ensures DigitsValue(d) > 0
  {
    if k < |d| - 1 {
      DigitsValuePositive(d[..|d| - 1], k);
    }
  }
}
