/**
 * The regular expression `/(?:(\d+)\s*x\s*)?([a-zA-Z\s]+?)(?:\s*x?\s*(\d+))?$/i` with which
 * the comma-separated order parser reads one part, as JavaScript's backtracking `match`
 * runs it: the leftmost start position at which a match exists wins, and at that position
 * the optional leading group is tried first, each `\s*` and `\d+` takes as much as it can,
 * the name group `+?` as little as it can, and the optional trailing group is tried before
 * it is skipped. `x` matches either case (the `i` flag); `\s` is the white space of `trim`.
 */
module OrderPattern {
  import opened Wrappers
  import JsText

  /** The captures of a successful match: group 1, group 2 and group 3. */
  datatype PatternMatch = PatternMatch(lead: Option<string>, name: string, tail: Option<string>)

  predicate IsLetter(c: char) {
    'a' <= c <= 'z' || 'A' <= c <= 'Z'
  }

  /** The class `[a-zA-Z\s]`. */
  predicate IsNameChar(c: char) {
    IsLetter(c) || JsText.IsWhiteSpace(c)
  }

  /** The pattern character `x` under the `i` flag. */
  predicate IsX(c: char) {
    c == 'x' || c == 'X'
  }

  /** Where a greedy `\d+`/`\d*` starting at `i` stops. */
  function SkipDigits(s: string, i: nat): (k: nat)
    requires i <= |s|
    ensures i <= k <= |s|
    ensures k == |s| || !JsText.IsDigit(s[k])
    decreases |s| - i
  {
    if i < |s| && JsText.IsDigit(s[i]) then SkipDigits(s, i + 1) else i
  }

  /** Everything `SkipDigits` passes over is a digit. */
  lemma {:induction false} SkipDigitsRun(s: string, i: nat)
    requires i <= |s|
    ensures forall j :: i <= j < SkipDigits(s, i) ==> JsText.IsDigit(s[j])
    decreases |s| - i
  {
    if i < |s| && JsText.IsDigit(s[i]) {
      SkipDigitsRun(s, i + 1);
    }
  }

  /**
   * `\s*x?\s*(\d+)$` against `s[i..]`: the position where the captured digits start, or
   * `None`. Giving back characters to an earlier `\s*` or to `x?` never helps, since what
   * follows them needs a digit, so the greedy choices are the only ones that can succeed.
   */
  function TailAt(s: string, i: nat): (r: Option<nat>)
    requires i <= |s|
    ensures r.Some? ==> i <= r.value < |s| && SkipDigits(s, r.value) == |s|
    ensures r.Some? ==> JsText.IsDigit(s[|s| - 1])
  {
    var a := JsText.SkipSpace(s, i);
    var b := if a < |s| && IsX(s[a]) then a + 1 else a;
    var c := JsText.SkipSpace(s, b);
    if c < |s| && SkipDigits(s, c) == |s| then
      SkipDigitsRun(s, c);
      Some(c)
    else None
  }

  /** The trailing group, when found, is a non-empty run of digits reaching the end. */
  lemma TailDigits(s: string, i: nat)
    requires i <= |s| && TailAt(s, i).Some?
    ensures s[TailAt(s, i).value..] != [] && JsText.AllDigits(s[TailAt(s, i).value..])
  {
    var c := TailAt(s, i).value;
    SkipDigitsRun(s, c);
    assert forall j :: 0 <= j < |s[c..]| ==> s[c..][j] == s[c + j];
  }

  /**
   * The lazy name group `([a-zA-Z\s]+?)` started at `a`, currently tried with end `e`,
   * followed by the optional trailing group and `$`: the first end (shortest name) at which
   * the rest is the trailing group, or is empty. Yields the name's end and the digits' start.
   */
  function NameEnd(s: string, a: nat, e: nat): (r: Option<(nat, Option<nat>)>)
    requires a < e <= |s|
    ensures r.Some? ==> e <= r.value.0 <= |s|
    ensures r.Some? && r.value.1.None? ==> r.value.0 == |s|
    ensures r.Some? && r.value.1.Some? ==> r.value.0 <= r.value.1.value < |s|
    decreases |s| - e
  {
    if !IsNameChar(s[e - 1]) then None
    else if TailAt(s, e).Some? then Some((e, TailAt(s, e)))
    else if e == |s| then Some((e, None))
    else NameEnd(s, a, e + 1)
  }

  /** The name group, once it has passed `e - 1` name characters, consists of name characters only. */
  lemma {:induction false} NameEndChars(s: string, a: nat, e: nat)
    requires a < e <= |s|
    requires forall j :: a <= j < e - 1 ==> IsNameChar(s[j])
    ensures NameEnd(s, a, e).Some? ==> forall j :: a <= j < NameEnd(s, a, e).value.0 ==> IsNameChar(s[j])
    decreases |s| - e
  {
    if IsNameChar(s[e - 1]) && TailAt(s, e).None? && e < |s| {
      NameEndChars(s, a, e + 1);
    }
  }

  /** The name group and what follows it, with the name starting at `a`. */
  function NameAt(s: string, a: nat): (r: Option<(nat, Option<nat>)>)
    requires a <= |s|
    ensures r.Some? ==> a < r.value.0 <= |s|
    ensures r.Some? && r.value.1.None? ==> r.value.0 == |s|
    ensures r.Some? && r.value.1.Some? ==> r.value.0 <= r.value.1.value < |s|
  {
    if a < |s| then NameEnd(s, a, a + 1) else None
  }

  /**
   * The `\s*` between the leading group's `x` and the name gives back one character at a
   * time: the name is tried from `a` down to `lo`. Yields the name's start as well.
   */
  function NameBack(s: string, lo: nat, a: nat): (r: Option<(nat, nat, Option<nat>)>)
    requires lo <= a <= |s|
    ensures r.Some? ==> lo <= r.value.0 <= a
    decreases a - lo
  {
    if NameAt(s, a).Some? then Some((a, NameAt(s, a).value.0, NameAt(s, a).value.1))
    else if a == lo then None
    else NameBack(s, lo, a - 1)
  }

  /** The start `NameBack` settles on is one where the name group succeeds, with the same end and trailing digits. */
  lemma {:induction false} NameBackFound(s: string, lo: nat, a: nat)
    requires lo <= a <= |s| && NameBack(s, lo, a).Some?
    ensures NameAt(s, NameBack(s, lo, a).value.0) == Some((NameBack(s, lo, a).value.1, NameBack(s, lo, a).value.2))
    decreases a - lo
  {
    if NameAt(s, a).None? {
      NameBackFound(s, lo, a - 1);
    }
  }

  /** Trailing digits reported by the name group are where the trailing group, tried at the name's end, puts them. */
  lemma {:induction false} NameEndTail(s: string, a: nat, e: nat)
    requires a < e <= |s|
    ensures NameEnd(s, a, e).Some? && NameEnd(s, a, e).value.1.Some? ==>
      NameEnd(s, a, e).value.1 == TailAt(s, NameEnd(s, a, e).value.0)
    decreases |s| - e
  {
    if IsNameChar(s[e - 1]) && TailAt(s, e).None? && e < |s| {
      NameEndTail(s, a, e + 1);
    }
  }

  /** The three well-formedness facts of a capture: digit groups are non-empty digits, the name is non-empty name characters. */
  predicate WellFormed(m: PatternMatch) {
    && (m.lead.Some? ==> m.lead.value != [] && JsText.AllDigits(m.lead.value))
    && (m.tail.Some? ==> m.tail.value != [] && JsText.AllDigits(m.tail.value))
    && m.name != [] && forall j :: 0 <= j < |m.name| ==> IsNameChar(m.name[j])
  }

  /** The captures once the name group has been placed at `a` with end `e` and trailing digits from `t`. */
  function Captures(s: string, lead: Option<string>, a: nat, e: nat, t: Option<nat>): (m: PatternMatch)
    requires a <= |s| && NameAt(s, a) == Some((e, t))
    requires lead.Some? ==> lead.value != [] && JsText.AllDigits(lead.value)
    ensures WellFormed(m)
  {
    NameRun(s, a, e, t);
    PatternMatch(lead, s[a..e], if t.Some? then Some(s[t.value..]) else None)
  }

  /**
   * The pattern from a digit at `i`: the leading group's digits, white space and `x`, then
   * the name, giving back the white space after the `x` one character at a time.
   */
  function LeadMatch(s: string, i: nat): (r: Option<PatternMatch>)
    requires i < |s| && JsText.IsDigit(s[i])
    ensures r.Some? ==> WellFormed(r.value)
  {
    var j := SkipDigits(s, i);
    var k1 := JsText.SkipSpace(s, j);
    if k1 < |s| && IsX(s[k1]) then
      var k2 := JsText.SkipSpace(s, k1 + 1);
      var back := NameBack(s, k1 + 1, k2);
      if back.None? then None
      else
        NameBackFound(s, k1 + 1, k2);
        DigitRun(s, i, j);
        Some(Captures(s, Some(s[i..j]), back.value.0, back.value.1, back.value.2))
    else None
  }

  /**
   * The whole pattern tried from start `i`. With a digit at `i` only the leading group can
   * match (the name class has no digits); elsewhere only the name can start there.
   */
  function MatchAt(s: string, i: nat): (r: Option<PatternMatch>)
    requires i <= |s|
    ensures r.Some? ==> WellFormed(r.value)
  {
    if i < |s| && JsText.IsDigit(s[i]) then LeadMatch(s, i)
    else
      var name := NameAt(s, i);
      if name.None? then None
      else Some(Captures(s, None, i, name.value.0, name.value.1))
  }

  /** The digits a greedy `\d+` takes from a digit at `i`: a non-empty run of digits. */
  lemma DigitRun(s: string, i: nat, j: nat)
    requires i < |s| && JsText.IsDigit(s[i]) && j == SkipDigits(s, i)
    ensures s[i..j] != [] && JsText.AllDigits(s[i..j])
  {
    SkipDigitsRun(s, i);
    assert s[i..j][0] == s[i];
  }

  /** What the name group found at `a` captures: a non-empty run of name characters, then the trailing digits if any. */
  lemma NameRun(s: string, a: nat, e: nat, t: Option<nat>)
    requires a <= |s| && NameAt(s, a) == Some((e, t))
    ensures a < e <= |s| && s[a..e] != [] && forall j :: 0 <= j < |s[a..e]| ==> IsNameChar(s[a..e][j])
    ensures t.Some? ==> t.value < |s| && s[t.value..] != [] && JsText.AllDigits(s[t.value..])
  {
    NameEndChars(s, a, a + 1);
    assert forall j :: 0 <= j < |s[a..e]| ==> s[a..e][j] == s[a + j];
    if t.Some? {
      NameEndTail(s, a, a + 1);
      TailDigits(s, e);
    }
  }

  /** The leftmost start at or after `i` where the pattern matches. */
  function MatchFrom(s: string, i: nat): (r: Option<PatternMatch>)
    requires i <= |s|
    ensures r.Some? ==> exists k :: i <= k <= |s| && MatchAt(s, k) == r
    decreases |s| - i
  {
    if MatchAt(s, i).Some? then MatchAt(s, i)
    else if i == |s| then None
    else MatchFrom(s, i + 1)
  }

  /** `s.match(pattern)`: `None` for JavaScript's `null`. */
  function Match(s: string): (r: Option<PatternMatch>)
    ensures r.Some? ==> WellFormed(r.value)
  {
    MatchFrom(s, 0)
  }

  // ---------------------------------------------------------------------------
  // The documented shapes

  lemma {:induction false} SkipDigitsStops(s: string, i: nat, k: nat)
    requires i <= k <= |s|
    requires forall j :: i <= j < k ==> JsText.IsDigit(s[j])
    requires k == |s| || !JsText.IsDigit(s[k])
    ensures SkipDigits(s, i) == k
    decreases k - i
  {
    if i < k {
      SkipDigitsStops(s, i + 1, k);
    }
  }

  /** A name running to the end of a text that does not end in a digit takes all of it. */
  lemma {:induction false} NameEndToEnd(s: string, a: nat, e: nat)
    requires a < e <= |s|
    requires forall j :: a <= j < |s| ==> IsNameChar(s[j])
    ensures NameEnd(s, a, e) == Some((|s|, None))
    decreases |s| - e
  {
    assert !JsText.IsDigit(s[|s| - 1]) by {
      assert IsNameChar(s[|s| - 1]);
    }
    NoTailBeforeNonDigit(s, e);
    assert IsNameChar(s[e - 1]);
    if e < |s| {
      NameEndToEnd(s, a, e + 1);
      assert NameEnd(s, a, e) == Some((|s|, None));
    } else {
      assert NameEnd(s, a, e) == Some((e, None));
    }
  }

  /** The trailing group needs a digit at the very end of the text. */
  lemma NoTailBeforeNonDigit(s: string, i: nat)
    requires i <= |s| && s != [] && !JsText.IsDigit(s[|s| - 1])
    ensures TailAt(s, i).None?
  {
  }

  /**
   * Inside a name of letters other than `x` that ends in a letter, no shorter name can be
   * followed by the trailing group: the name is tried on to its full length `n`.
   */
  lemma {:induction false} NameEndInner(s: string, n: nat, e: nat)
    requires 0 < e <= n <= |s|
    requires forall j :: 0 <= j < n ==> IsNameChar(s[j]) && !IsX(s[j])
    requires !JsText.IsWhiteSpace(s[n - 1])
    ensures NameEnd(s, 0, e) == NameEnd(s, 0, n)
    decreases n - e
  {
    if e < n {
      NoTailInsideName(s, n, e);
      NameEndInner(s, n, e + 1);
    }
  }

  /** The trailing group cannot start inside a name of letters other than `x` ending in a letter. */
  lemma NoTailInsideName(s: string, n: nat, e: nat)
    requires e < n <= |s|
    requires forall j :: e <= j < n ==> IsNameChar(s[j]) && !IsX(s[j])
    requires !JsText.IsWhiteSpace(s[n - 1])
    ensures TailAt(s, e).None?
  {
    var k := JsText.SkipSpace(s, e);
    JsText.SkipSpaceSpec(s, e);
    assert k < n;
    assert !JsText.IsDigit(s[k]) && !IsX(s[k]);
    assert JsText.SkipSpace(s, k) == k;
  }

  /** A name from the start, of letters other than `x` ending in a letter, then the trailing group. */
  lemma NameFirstAt(s: string, n: nat, c: nat)
    requires 0 < n <= |s|
    requires forall j :: 0 <= j < n ==> IsNameChar(s[j]) && !IsX(s[j])
    requires !JsText.IsWhiteSpace(s[n - 1])
    requires TailAt(s, n) == Some(c)
    ensures Match(s) == Some(PatternMatch(None, s[..n], Some(s[c..])))
  {
    NameEndInner(s, n, 1);
    assert !JsText.IsDigit(s[0]);
    assert MatchAt(s, 0) == Some(PatternMatch(None, s[0..n], Some(s[c..])));
  }

  /** White space, at most one `x`, white space and digits after position `|pre|` form the trailing group. */
  lemma TailAfterSeparator(pre: string, ws1: string, xs: string, ws2: string, digits: string)
    requires forall j :: 0 <= j < |ws1| ==> JsText.IsWhiteSpace(ws1[j])
    requires |xs| <= 1 && forall j :: 0 <= j < |xs| ==> IsX(xs[j])
    requires forall j :: 0 <= j < |ws2| ==> JsText.IsWhiteSpace(ws2[j])
    requires digits != [] && JsText.AllDigits(digits)
    ensures var s := pre + ws1 + xs + ws2 + digits;
      TailAt(s, |pre|) == Some(|pre| + |ws1| + |xs| + |ws2|)
  {
    var s := pre + ws1 + xs + ws2 + digits;
    var n := |pre|;
    var c := n + |ws1| + |xs| + |ws2|;
    SkipDigitsStops(s, c, |s|);
    if xs == [] {
      JsText.SkipSpaceStops(s, n, c);
      JsText.SkipSpaceStops(s, c, c);
    } else {
      JsText.SkipSpaceStops(s, n, n + |ws1|);
      JsText.SkipSpaceStops(s, n + |ws1| + 1, c);
    }
  }

  /** A word made of letters other than x: name characters, none of them white space. */
  lemma WordChars(word: string)
    requires forall c :: c in word ==> IsLetter(c) && !IsX(c)
    ensures forall j :: 0 <= j < |word| ==> IsNameChar(word[j]) && !IsX(word[j]) && !JsText.IsWhiteSpace(word[j])
  {
    forall j | 0 <= j < |word|
      ensures IsNameChar(word[j]) && !IsX(word[j]) && !JsText.IsWhiteSpace(word[j])
    {
      assert word[j] in word;
    }
  }

  /**
   * "Burger x2", "Burger 2", "Burger X 2": a name of letters and inner white space without
   * `x`, then white space, at most one `x` and white space, then digits. The name is taken
   * whole and the digits go to group 3.
   */
  lemma NameThenQuantity(name: string, ws1: string, xs: string, ws2: string, digits: string)
    requires name != [] && !JsText.IsWhiteSpace(name[|name| - 1])
    requires forall j :: 0 <= j < |name| ==> IsNameChar(name[j]) && !IsX(name[j])
    requires forall j :: 0 <= j < |ws1| ==> JsText.IsWhiteSpace(ws1[j])
    requires |xs| <= 1 && forall j :: 0 <= j < |xs| ==> IsX(xs[j])
    requires forall j :: 0 <= j < |ws2| ==> JsText.IsWhiteSpace(ws2[j])
    requires digits != [] && JsText.AllDigits(digits)
    ensures Match(name + ws1 + xs + ws2 + digits) == Some(PatternMatch(None, name, Some(digits)))
  {
    var s := name + ws1 + xs + ws2 + digits;
    var n := |name|;
    var c := n + |ws1| + |xs| + |ws2|;
    TailAfterSeparator(name, ws1, xs, ws2, digits);
    assert s[..n] == name && s[c..] == digits;
    NameFirstAt(s, n, c);
  }

  /** Leading digits, white space, `x`, white space, then a name running to the end. */
  lemma LeadThenNameAt(s: string, d: nat, k1: nat, k2: nat)
    requires 0 < |s| && JsText.IsDigit(s[0]) && SkipDigits(s, 0) == d
    requires JsText.SkipSpace(s, d) == k1 && k1 < |s| && IsX(s[k1])
    requires JsText.SkipSpace(s, k1 + 1) == k2 && k2 < |s|
    requires forall j :: k2 <= j < |s| ==> IsNameChar(s[j])
    ensures Match(s) == Some(PatternMatch(Some(s[..d]), s[k2..], None))
  {
    NameEndToEnd(s, k2, k2 + 1);
    DigitRun(s, 0, d);
    LeadMatchAt(s, 0, d, k1, k2, |s|, None);
    assert MatchAt(s, 0) == LeadMatch(s, 0);
    assert s[0..d] == s[..d] && s[k2..|s|] == s[k2..];
  }

  /**
   * The match from a digit at `i` once the leading group's `x` is found, when the name
   * group already succeeds where the white space after the `x` ends.
   */
  lemma LeadMatchAt(s: string, i: nat, j: nat, k1: nat, k2: nat, e: nat, t: Option<nat>)
    requires i < |s| && JsText.IsDigit(s[i]) && SkipDigits(s, i) == j
    requires JsText.SkipSpace(s, j) == k1 && k1 < |s| && IsX(s[k1])
    requires JsText.SkipSpace(s, k1 + 1) == k2
    requires NameAt(s, k2) == Some((e, t))
    requires s[i..j] != [] && JsText.AllDigits(s[i..j])
    ensures LeadMatch(s, i) == Some(Captures(s, Some(s[i..j]), k2, e, t))
  {
    assert NameBack(s, k1 + 1, k2) == Some((k2, e, t));
  }

  /**
   * "2x Burger", "2 X Soft Drink": digits, white space, one `x`, white space, then a name
   * starting with a letter. The digits go to group 1 and the name runs to the end.
   */
  lemma QuantityThenName(digits: string, ws1: string, xc: char, ws2: string, name: string)
    requires digits != [] && JsText.AllDigits(digits)
    requires forall j :: 0 <= j < |ws1| ==> JsText.IsWhiteSpace(ws1[j])
    requires IsX(xc)
    requires forall j :: 0 <= j < |ws2| ==> JsText.IsWhiteSpace(ws2[j])
    requires name != [] && IsLetter(name[0])
    requires forall j :: 0 <= j < |name| ==> IsNameChar(name[j])
    ensures Match(digits + ws1 + [xc] + ws2 + name) == Some(PatternMatch(Some(digits), name, None))
  {
    var s := digits + ws1 + [xc] + ws2 + name;
    var d := |digits|;
    var k1 := d + |ws1|;
    var k2 := k1 + 1 + |ws2|;
    SkipDigitsStops(s, 0, d);
    JsText.SkipSpaceStops(s, d, k1);
    JsText.SkipSpaceStops(s, k1 + 1, k2);
    assert s[..d] == digits && s[k2..] == name;
    LeadThenNameAt(s, d, k1, k2);
  }

  /** "Burger", "Soft Drink": letters and white space only, all of it the name, no number. */
  lemma NameOnly(name: string)
    requires name != [] && forall j :: 0 <= j < |name| ==> IsNameChar(name[j])
    ensures Match(name) == Some(PatternMatch(None, name, None))
  {
    NameEndToEnd(name, 0, 1);
    assert !JsText.IsDigit(name[0]) && name[0..|name|] == name;
    assert MatchAt(name, 0) == Some(PatternMatch(None, name[0..|name|], None));
  }

  /** An empty part has no match. */
  lemma EmptyHasNoMatch()
    ensures Match("") == None
  {
  }
}
