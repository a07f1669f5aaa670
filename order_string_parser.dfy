/**
 * The two finalized-order parsers. `ParseOrderString` cuts the list out of a text such as
 * "✅ Client 27: [{'item': 'Soft Drink', 'quantity': 2}]", turns its single quotes into
 * double quotes, decodes it as JSON and matches every record against the catalog;
 * `ParseSimpleOrderString` reads a comma-separated text such as "Burger x2, Fries x1".
 * Neither ever fails: every problem yields fewer (or no) entries.
 */
module OrderStringParser {
  import opened Wrappers
  import opened Types
  import MenuData
  import JsText
  import OrderPattern
  import FixedTexts

  /**
   * One element of the decoded JSON list, as far as the parser looks at it: `item` is
   * `None` when the element has no string `item` field (calling `toLowerCase` on it throws),
   * `quantity` is `None` when the field is not a number (the test `quantity > 0` is false).
   */
  datatype RawRecord = RawRecord(item: Option<string>, quantity: Option<real>)

  /**
   * `JSON.parse`, restricted to what the parser needs: `None` when the text is not valid
   * JSON or is not a list (both end in the parser's `catch`), otherwise the list's elements.
   */
  type Decoder = string -> Option<seq<RawRecord>>

  /** `ParsedOrderItem`: a catalog entry and the quantity ordered. */
  datatype ParsedOrderItem = ParsedOrderItem(item: MenuItem, quantity: real)

  /** What every entry either parser produces satisfies. */
  predicate ValidEntry(p: ParsedOrderItem) {
    p.item in MenuData.MenuItems && p.quantity > 0.0
  }

  // ---------------------------------------------------------------------------
  // The bracketed list

  /**
   * The text handed to `JSON.parse`: from the first '[' through the last ']' (JavaScript's
   * `substring` swaps its arguments when the last ']' comes before the first '['), with
   * every single quote replaced by a double quote. `None` when either bracket is missing.
   */
  function ArrayText(orderString: string): (r: Option<string>)
    ensures r.None? <==> '[' !in orderString || ']' !in orderString
    ensures r.Some? ==> '\'' !in r.value
  {
    var jsonStart := JsText.IndexOf(orderString, '[');
    var jsonEnd := JsText.LastIndexOf(orderString, ']');
    if jsonStart == -1 || jsonEnd == -1 then None
    else Some(JsText.ReplaceAll(JsText.Substring(orderString, jsonStart, jsonEnd + 1), '\'', '"'))
  }

  /**
   * When the first '[' comes before the last ']', the decoded text is exactly the span
   * between them, brackets included, with quotes rewritten.
   */
  lemma ArrayTextSpan(orderString: string, i: nat, j: nat)
    requires i <= j < |orderString|
    requires orderString[i] == '[' && '[' !in orderString[..i]
    requires orderString[j] == ']' && ']' !in orderString[j + 1..]
    ensures ArrayText(orderString) == Some(JsText.ReplaceAll(orderString[i..j + 1], '\'', '"'))
    ensures var t := ArrayText(orderString).value; t[0] == '[' && t[|t| - 1] == ']'
  {
    var jsonStart := JsText.IndexOf(orderString, '[');
    var jsonEnd := JsText.LastIndexOf(orderString, ']');
    assert jsonStart == i && jsonEnd == j;
  }

  /** A text that starts with '[' and ends with ']' is decoded whole, quotes rewritten. */
  lemma ArrayTextWhole(orderString: string)
    requires |orderString| >= 1 && orderString[0] == '[' && orderString[|orderString| - 1] == ']'
    ensures ArrayText(orderString) == Some(JsText.ReplaceAll(orderString, '\'', '"'))
  {
    assert orderString[0..|orderString|] == orderString;
  }

  /**
   * When the last ']' comes before the first '[', the swapped `substring` yields the text
   * strictly between them, which holds no bracket at all, so no JSON list can come of it.
   */
  lemma ArrayTextReversed(orderString: string, i: nat, j: nat)
    requires j < i < |orderString|
    requires orderString[i] == '[' && '[' !in orderString[..i]
    requires orderString[j] == ']' && ']' !in orderString[j + 1..]
    ensures ArrayText(orderString).Some?
    ensures '[' !in ArrayText(orderString).value && ']' !in ArrayText(orderString).value
  {
    var jsonStart := JsText.IndexOf(orderString, '[');
    var jsonEnd := JsText.LastIndexOf(orderString, ']');
    assert jsonStart == i && jsonEnd == j;
    var span := orderString[j + 1..i];
    assert span == orderString[..i][j + 1..];
    assert span == orderString[j + 1..][..i - j - 1];
    var t := ArrayText(orderString).value;
    assert t == JsText.ReplaceAll(span, '\'', '"');
    forall k | 0 <= k < |t| ensures t[k] != '[' && t[k] != ']' {
      assert span[k] in orderString[..i] && span[k] in orderString[j + 1..];
    }
  }

  // ---------------------------------------------------------------------------
  // Matching records against the catalog

  /**
   * One turn of the matching loop for a record whose name is a string: the name is
   * lower-cased and trimmed, the first catalog entry passing the containment test is
   * taken, and the record is kept only with a positive numeric quantity.
   */
  function MatchRecord(name: string, quantity: Option<real>): (r: Option<ParsedOrderItem>)
    ensures r.Some? ==> ValidEntry(r.value)
    ensures r.Some? <==> MenuData.MatchName(JsText.Trim(JsText.Lower(name))).Some?
                         && quantity.Some? && quantity.value > 0.0
    ensures r.Some? ==> r.value == ParsedOrderItem(MenuData.MatchName(JsText.Trim(JsText.Lower(name))).value, quantity.value)
  {
    var menuItem := MenuData.MatchName(JsText.Trim(JsText.Lower(name)));
    MenuData.MatchNameSpec(JsText.Trim(JsText.Lower(name)));
    if menuItem.Some? && quantity.Some? && quantity.value > 0.0 then
      Some(ParsedOrderItem(menuItem.value, quantity.value))
    else
      None
  }

  /**
   * One record's contribution: its match, or nothing. A record without a string name
   * contributes nothing here; `ParseOrder` never gets that far with one.
   */
  function Kept(r: RawRecord): (out: seq<ParsedOrderItem>)
    ensures |out| <= 1
    ensures forall k :: 0 <= k < |out| ==> ValidEntry(out[k])
  {
    if r.item.None? then []
    else
      var kept := MatchRecord(r.item.value, r.quantity);
      if kept.Some? then [kept.value] else []
  }

  /**
   * The outputs of one loop turn per element, concatenated in input order; `keep` is one
   * turn of the loop (`Kept` for the list parser, `PartEntry` for the comma-separated one).
   */
  function Collect<T>(xs: seq<T>, keep: T -> seq<ParsedOrderItem>): seq<ParsedOrderItem> {
    if xs == [] then []
    else Collect(xs[..|xs| - 1], keep) + keep(xs[|xs| - 1])
  }

  /** The entries kept from a run of records, in order. */
  function MatchRecords(records: seq<RawRecord>): seq<ParsedOrderItem> {
    Collect(records, Kept)
  }

  /** At most one entry per record, every entry a catalog item with a positive quantity. */
  lemma MatchRecordsValid(records: seq<RawRecord>)
    ensures |MatchRecords(records)| <= |records|
    ensures forall k :: 0 <= k < |MatchRecords(records)| ==> ValidEntry(MatchRecords(records)[k])
  {
    CollectValid(records, Kept);
  }

  /** A loop whose every turn adds at most one valid entry yields at most one per element. */
  lemma {:induction false} CollectValid<T>(xs: seq<T>, keep: T -> seq<ParsedOrderItem>)
    requires forall x :: |keep(x)| <= 1
    requires forall x, k :: 0 <= k < |keep(x)| ==> ValidEntry(keep(x)[k])
    ensures |Collect(xs, keep)| <= |xs|
    ensures forall k :: 0 <= k < |Collect(xs, keep)| ==> ValidEntry(Collect(xs, keep)[k])
  {
    if xs != [] {
      CollectValid(xs[..|xs| - 1], keep);
    }
  }

  /** The output keeps the input's order: matching a concatenation concatenates the results. */
  lemma {:induction false} CollectAppend<T>(a: seq<T>, b: seq<T>, keep: T -> seq<ParsedOrderItem>)
    ensures Collect(a + b, keep) == Collect(a, keep) + Collect(b, keep)
    decreases |b|
  {
    if b != [] {
      var b' := b[..|b| - 1];
      assert (a + b)[..|a + b| - 1] == a + b';
      assert (a + b)[|a + b| - 1] == b[|b| - 1];
      CollectAppend(a, b', keep);
    } else {
      assert a + b == a;
    }
  }

  /** Matching one more record of a run appends that record's contribution. */
  lemma CollectPrefix<T>(xs: seq<T>, i: nat, keep: T -> seq<ParsedOrderItem>)
    requires i < |xs|
    ensures Collect(xs[..i + 1], keep) == Collect(xs[..i], keep) + keep(xs[i])
  {
    assert xs[..i + 1][..i] == xs[..i];
  }

  /** One element contributes its own output. */
  lemma CollectSingle<T>(x: T, keep: T -> seq<ParsedOrderItem>)
    ensures Collect([x], keep) == keep(x)
  {
    assert [x][..0] == [];
  }

  /** A single record yields its match, or nothing when it is unmatched or not positive. */
  lemma MatchRecordsSingle(r: RawRecord)
    requires r.item.Some?
    ensures MatchRecords([r]) ==
      var kept := MatchRecord(r.item.value, r.quantity);
      if kept.Some? then [kept.value] else []
  {
    assert [r][..0] == [];
    assert Collect([r], Kept) == Collect([], Kept) + Kept(r);
  }

  /** Some element has no string name: matching it throws. */
  predicate HasNonStringName(records: seq<RawRecord>) {
    exists j :: 0 <= j < |records| && records[j].item.None?
  }

  /**
   * `parseOrderString` as a function of the text and the decoder: empty when a bracket is
   * missing, when decoding fails or when some record's name is not a string (the `catch`);
   * otherwise the matched records in input order.
   */
  function ParseOrder(orderString: string, decode: Decoder): (r: seq<ParsedOrderItem>)
    ensures '[' !in orderString || ']' !in orderString ==> r == []
    ensures ArrayText(orderString).Some? && decode(ArrayText(orderString).value).None? ==> r == []
    ensures forall k :: 0 <= k < |r| ==> ValidEntry(r[k])
    ensures r != [] ==> ArrayText(orderString).Some? && decode(ArrayText(orderString).value).Some?
                        && |r| <= |decode(ArrayText(orderString).value).value|
  {
    match ArrayText(orderString)
    case None => []
    case Some(text) =>
      match decode(text)
      case None => []
      case Some(records) =>
        if HasNonStringName(records) then []
        else MatchRecordsValid(records); MatchRecords(records)
  }

  /**
   * The matching loop of `parseOrderString`: each record in turn is matched and, when
   * kept, pushed; a record without a string name throws, and the `catch` yields nothing.
   * The loop is stated for any one-turn outcome `keep`; the parser passes `Kept`.
   */
  method MatchAll(records: seq<RawRecord>, keep: RawRecord -> seq<ParsedOrderItem>)
    returns (parsedItems: seq<ParsedOrderItem>)
    ensures parsedItems == if HasNonStringName(records) then [] else Collect(records, keep)
  {
    parsedItems := [];
    var i := 0;
    while i < |records|
      invariant 0 <= i <= |records|
      invariant forall j :: 0 <= j < i ==> records[j].item.Some?
      invariant parsedItems == Collect(records[..i], keep)
    {
      var rawItem := records[i];
      if rawItem.item.None? {
        assert HasNonStringName(records);
        return [];
      }
      CollectPrefix(records, i, keep);
      parsedItems := parsedItems + keep(rawItem);
      i := i + 1;
    }
    assert records[..i] == records;
  }

  /** `parseOrderString`: the extraction of the list, its decoding, then the matching loop. */
  method ParseOrderString(orderString: string, decode: Decoder) returns (parsedItems: seq<ParsedOrderItem>)
    ensures parsedItems == ParseOrder(orderString, decode)
  {
    var text := ArrayText(orderString);
    if text.None? {
      return [];
    }
    var rawItems := decode(text.value);
    if rawItems.None? {
      return [];
    }
    parsedItems := MatchAll(rawItems.value, Kept);
  }

  /** A text whose first '[' opens a list running to its end is decoded from that '['. */
  lemma ArrayTextAfter(prefix: string, list: string)
    requires '[' !in prefix
    requires |list| >= 1 && list[0] == '[' && list[|list| - 1] == ']'
    ensures ArrayText(prefix + list) == Some(JsText.ReplaceAll(list, '\'', '"'))
  {
    var s := prefix + list;
    var i, j := |prefix|, |s| - 1;
    assert '[' !in s[..i] by {
      assert s[..i] == prefix;
    }
    assert ']' !in s[j + 1..] by {
      assert s[j + 1..] == [];
    }
    ArrayTextSpan(s, i, j);
    assert s[i..j + 1] == list;
  }

  /** The finalized-order text of the source's documentation. */
  const DocumentedOrder: string := "✅ Client 27: " + FixedTexts.DocumentedList

  /** The list cut out of the documented example, quotes rewritten. */
  lemma DocumentedText()
    ensures ArrayText(DocumentedOrder) == Some(FixedTexts.DocumentedJson)
  {
    DocumentedParts();
    ArrayTextAfter("✅ Client 27: ", FixedTexts.DocumentedList);
    FixedTexts.DocumentedQuotes();
  }

  /** The documented text is a prefix without '[' followed by the list. */
  lemma DocumentedParts()
    ensures '[' !in "✅ Client 27: "
  {
  }

  /** The example of the source's documentation, under a decoder that reads it as JSON would. */
  lemma DocumentedExample(decode: Decoder)
    requires decode(FixedTexts.DocumentedJson) == Some([RawRecord(Some("Soft Drink"), Some(2.0))])
    ensures ParseOrder(DocumentedOrder, decode) == [ParsedOrderItem(MenuData.Drink, 2.0)]
  {
    DocumentedText();
    var r := RawRecord(Some("Soft Drink"), Some(2.0));
    assert !HasNonStringName([r]);
    ParseOrderDecoded(DocumentedOrder, decode, FixedTexts.DocumentedJson, [r]);
    MatchRecordsSingle(r);
    SoftDrinkMatched();
  }

  /** A decoded list without a non-string name parses to its matched records. */
  lemma ParseOrderDecoded(orderString: string, decode: Decoder, text: string, records: seq<RawRecord>)
    requires ArrayText(orderString) == Some(text) && decode(text) == Some(records)
    requires !HasNonStringName(records)
    ensures ParseOrder(orderString, decode) == MatchRecords(records)
  {
  }

  /** The record name "Soft Drink" with quantity 2 is matched to the drink. */
  lemma SoftDrinkMatched()
    ensures MatchRecord("Soft Drink", Some(2.0)) == Some(ParsedOrderItem(MenuData.Drink, 2.0))
  {
    MenuData.LowerNames();
    JsText.TrimUnchanged("soft drink");
    MenuData.ExactNameSelectsEntry(MenuData.Drink);
  }

  /** "nonexistent" passes the containment test with no catalog entry. */
  lemma NonexistentMatchesNothing()
    ensures MenuData.MatchName("nonexistent") == None
  {
    MenuData.LowerNames();
    FixedTexts.NonexistentInNoName();
    FixedTexts.NoNameInNonexistent();
    assert !MenuData.NameMatches("nonexistent", MenuData.Burger);
    assert !MenuData.NameMatches("nonexistent", MenuData.Fries);
    assert !MenuData.NameMatches("nonexistent", MenuData.Drink);
    MenuData.MatchNameFirstWins("nonexistent");
  }

  /** The list of the unknown-item example, quotes rewritten. */
  lemma UnknownText()
    ensures ArrayText(FixedTexts.UnknownList) == Some(FixedTexts.UnknownJson)
  {
    ArrayTextWhole(FixedTexts.UnknownList);
    FixedTexts.UnknownQuotes();
  }

  /** A name that no catalog name contains, and that contains none of them, yields nothing. */
  lemma UnknownItemExample(decode: Decoder)
    requires decode(FixedTexts.UnknownJson) == Some([RawRecord(Some("nonexistent"), Some(5.0))])
    ensures ParseOrder(FixedTexts.UnknownList, decode) == []
  {
    UnknownText();
    var r := RawRecord(Some("nonexistent"), Some(5.0));
    assert !HasNonStringName([r]);
    ParseOrderDecoded(FixedTexts.UnknownList, decode, FixedTexts.UnknownJson, [r]);
    MatchRecordsSingle(r);
    NonexistentUnmatched();
  }

  /** The record name "nonexistent" is kept by no catalog entry. */
  lemma NonexistentUnmatched()
    ensures MatchRecord("nonexistent", Some(5.0)) == None
  {
    FixedTexts.NonexistentLowered();
    JsText.TrimUnchanged("nonexistent");
    NonexistentMatchesNothing();
  }

  /** A record whose name is empty (or only white space) is matched to the burger. */
  lemma BlankNameIsBurger(name: string, quantity: real)
    requires JsText.Trim(JsText.Lower(name)) == ""
    requires quantity > 0.0
    ensures MatchRecord(name, Some(quantity)) == Some(ParsedOrderItem(MenuData.Burger, quantity))
  {
    MenuData.EmptyNameSelectsBurger();
  }

  // ---------------------------------------------------------------------------
  // The comma-separated form

  /** `Number.parseInt(match[1] || match[3] || "1")`: the leading number, else the trailing one, else 1. */
  function PartQuantity(m: OrderPattern.PatternMatch): (q: nat)
    requires m.lead.Some? ==> JsText.AllDigits(m.lead.value)
    requires m.tail.Some? ==> JsText.AllDigits(m.tail.value)
    ensures m.lead.None? && m.tail.None? ==> q == 1
  {
    JsText.DigitsValue(if m.lead.Some? then m.lead.value else if m.tail.Some? then m.tail.value else "1")
  }

  /**
   * One trimmed part: no entry when the pattern does not match; otherwise the trimmed,
   * lower-cased name is matched against the catalog as the list parser does, and the entry
   * is kept only with a positive quantity.
   */
  function PartEntry(part: string): (r: seq<ParsedOrderItem>)
    ensures |r| <= 1
    ensures forall k :: 0 <= k < |r| ==> ValidEntry(r[k])
  {
    match OrderPattern.Match(part)
    case None => []
    case Some(m) =>
      var quantity := PartQuantity(m);
      var menuItem := MenuData.MatchName(JsText.Lower(JsText.Trim(m.name)));
      MenuData.MatchNameSpec(JsText.Lower(JsText.Trim(m.name)));
      if menuItem.Some? && quantity > 0 then [ParsedOrderItem(menuItem.value, quantity as real)] else []
  }

  /** `parts.map((s) => s.trim())`. */
  function TrimAll(parts: seq<string>): (r: seq<string>)
    ensures |r| == |parts|
    ensures forall k :: 0 <= k < |parts| ==> r[k] == JsText.Trim(parts[k])
  {
    seq(|parts|, k requires 0 <= k < |parts| => JsText.Trim(parts[k]))
  }

  /** Trimming part by part commutes with concatenation. */
  lemma TrimAllAppend(a: seq<string>, b: seq<string>)
    ensures TrimAll(a + b) == TrimAll(a) + TrimAll(b)
  {
  }

  /** Trimming the parts a second time changes none of them. */
  lemma TrimAllIdempotent(parts: seq<string>)
    ensures TrimAll(TrimAll(parts)) == TrimAll(parts)
  {
    forall k | 0 <= k < |parts|
      ensures JsText.Trim(JsText.Trim(parts[k])) == JsText.Trim(parts[k])
    {
      JsText.TrimIdempotent(parts[k]);
    }
  }

  /** `parseSimpleOrderString` as a function: one entry at most per comma-separated part. */
  function ParseSimple(orderString: string): seq<ParsedOrderItem> {
    Collect(TrimAll(JsText.Split(orderString, ',')), PartEntry)
  }

  /** `parseSimpleOrderString`: split, trim, then the loop that pushes each part's match. */
  method ParseSimpleOrderString(orderString: string) returns (parsedItems: seq<ParsedOrderItem>)
    ensures parsedItems == ParseSimple(orderString)
  {
    parsedItems := [];
    var parts := TrimAll(JsText.Split(orderString, ','));
    var i := 0;
    while i < |parts|
      invariant 0 <= i <= |parts|
      invariant parsedItems == Collect(parts[..i], PartEntry)
    {
      CollectPrefix(parts, i, PartEntry);
      parsedItems := parsedItems + PartEntry(parts[i]);
      i := i + 1;
    }
    assert parts[..i] == parts;
  }

  /** Every entry is a catalog item with a positive quantity, at most one per comma-separated part. */
  lemma ParseSimpleValid(orderString: string)
    ensures |ParseSimple(orderString)| <= |JsText.Split(orderString, ',')|
    ensures forall k :: 0 <= k < |ParseSimple(orderString)| ==> ValidEntry(ParseSimple(orderString)[k])
  {
    CollectValid(TrimAll(JsText.Split(orderString, ',')), PartEntry);
  }

  /** Parts are read independently: the text before a comma and the text after it add up. */
  lemma ParseSimpleAppend(a: string, b: string)
    ensures ParseSimple(a + [','] + b) == ParseSimple(a) + ParseSimple(b)
  {
    JsText.SplitAppend(a, b, ',');
    var partsA := JsText.Split(a, ',');
    var partsB := JsText.Split(b, ',');
    TrimAllAppend(partsA, partsB);
    CollectAppend(TrimAll(partsA), TrimAll(partsB), PartEntry);
  }

  /** A text without a comma is one part, trimmed. */
  lemma ParseSimpleOnePart(part: string)
    requires ',' !in part
    ensures ParseSimple(part) == PartEntry(JsText.Trim(part))
  {
    assert JsText.Split(part, ',') == [part];
    assert TrimAll([part]) == [JsText.Trim(part)];
    CollectSingle(JsText.Trim(part), PartEntry);
  }

  /**
   * "Name xN", "Name x N" and "Name N": the name selects the entry and the number after it
   * is the quantity; the entry is dropped when nothing matches or the number is zero.
   */
  lemma NameQuantityPart(name: string, ws1: string, xs: string, ws2: string, digits: string)
    requires name != [] && !JsText.IsWhiteSpace(name[|name| - 1])
    requires forall j :: 0 <= j < |name| ==> OrderPattern.IsNameChar(name[j]) && !OrderPattern.IsX(name[j])
    requires forall j :: 0 <= j < |ws1| ==> JsText.IsWhiteSpace(ws1[j])
    requires |xs| <= 1 && forall j :: 0 <= j < |xs| ==> OrderPattern.IsX(xs[j])
    requires forall j :: 0 <= j < |ws2| ==> JsText.IsWhiteSpace(ws2[j])
    requires digits != [] && JsText.AllDigits(digits)
    ensures PartEntry(name + ws1 + xs + ws2 + digits) ==
      var menuItem := MenuData.MatchName(JsText.Lower(JsText.Trim(name)));
      var quantity := JsText.DigitsValue(digits);
      if menuItem.Some? && quantity > 0 then [ParsedOrderItem(menuItem.value, quantity as real)] else []
  {
    OrderPattern.NameThenQuantity(name, ws1, xs, ws2, digits);
  }

  /** "Nx Name" and "N x Name": the number before the x is the quantity. */
  lemma QuantityNamePart(digits: string, ws1: string, xc: char, ws2: string, name: string)
    requires digits != [] && JsText.AllDigits(digits)
    requires forall j :: 0 <= j < |ws1| ==> JsText.IsWhiteSpace(ws1[j])
    requires OrderPattern.IsX(xc)
    requires forall j :: 0 <= j < |ws2| ==> JsText.IsWhiteSpace(ws2[j])
    requires name != [] && OrderPattern.IsLetter(name[0])
    requires forall j :: 0 <= j < |name| ==> OrderPattern.IsNameChar(name[j])
    ensures PartEntry(digits + ws1 + [xc] + ws2 + name) ==
      var menuItem := MenuData.MatchName(JsText.Lower(JsText.Trim(name)));
      var quantity := JsText.DigitsValue(digits);
      if menuItem.Some? && quantity > 0 then [ParsedOrderItem(menuItem.value, quantity as real)] else []
  {
    OrderPattern.QuantityThenName(digits, ws1, xc, ws2, name);
  }

  /** "Name" alone: quantity 1. */
  lemma NameOnlyPart(name: string)
    requires name != [] && forall j :: 0 <= j < |name| ==> OrderPattern.IsNameChar(name[j])
    ensures PartEntry(name) ==
      var menuItem := MenuData.MatchName(JsText.Lower(JsText.Trim(name)));
      if menuItem.Some? then [ParsedOrderItem(menuItem.value, 1.0)] else []
  {
    OrderPattern.NameOnly(name);
    NoNumberEntry(name, OrderPattern.PatternMatch(None, name, None));
  }

  /** A match without numbers gives quantity 1. */
  lemma NoNumberEntry(part: string, m: OrderPattern.PatternMatch)
    requires OrderPattern.Match(part) == Some(m) && m.lead.None? && m.tail.None?
    ensures PartEntry(part) ==
      var menuItem := MenuData.MatchName(JsText.Lower(JsText.Trim(m.name)));
      if menuItem.Some? then [ParsedOrderItem(menuItem.value, 1.0)] else []
  {
    assert PartQuantity(m) == 1;
  }

  /**
   * A word of letters other than x, lower-cased as `lower`, and a non-empty digit run
   * denoting the positive `count`.
   */
  predicate WordAndCount(word: string, lower: string, digits: string, count: nat) {
    && word != [] && (forall c :: c in word ==> OrderPattern.IsLetter(c) && !OrderPattern.IsX(c))
    && JsText.Lower(word) == lower
    && digits != [] && JsText.AllDigits(digits) && JsText.DigitsValue(digits) == count && count > 0
  }

  /** A one-word name, " x" and a positive count: that entry, that many times. */
  lemma WordQuantityPart(word: string, lower: string, digits: string, count: nat, m: MenuItem)
    requires WordAndCount(word, lower, digits, count) && MenuData.MatchName(lower) == Some(m)
    ensures PartEntry(word + " x" + digits) == [ParsedOrderItem(m, count as real)]
  {
    OrderPattern.WordChars(word);
    JsText.TrimUnchanged(word);
    SeparatorShape(word, digits);
    NameQuantityPart(word, " ", "x", "", digits);
  }

  /** " x" is a space, an x and no further white space. */
  lemma SeparatorShape(word: string, digits: string)
    ensures word + " x" + digits == word + " " + "x" + "" + digits
  {
    JsText.ConcatAssociative(word, " ", "x");
    assert " " + "x" == " x";
    assert word + " " + "x" + "" == word + " " + "x";
  }

  /** The three parts of the documented example, before trimming. */
  const BurgerPart: string := "Burger" + " x" + "2"
  const FriesPart: string := " " + ("Fries" + " x" + "1")
  const DrinkPart: string := " " + ("Drink" + " x" + "3")

  /** The documented comma-separated example, "Burger x2, Fries x1, Drink x3". */
  const SimpleDocumentedOrder: string := BurgerPart + [','] + (FriesPart + [','] + DrinkPart)

  /** "Burger" and "2" satisfy `WordAndCount`. */
  lemma BurgerWord()
    ensures WordAndCount("Burger", "burger", "2", 2)
  {
    assert JsText.Lower("Burger") == "burger";
  }

  /** "Burger x2" is 2 of the burger entry. */
  lemma BurgerEntry()
    ensures PartEntry("Burger" + " x" + "2") == [ParsedOrderItem(MenuData.Burger, 2.0)]
  {
    BurgerWord();
    MenuData.BurgerWordSelectsBurger();
    WordQuantityPart("Burger", "burger", "2", 2, MenuData.Burger);
  }

  lemma TrimmedBurger()
    ensures PartEntry(JsText.Trim(BurgerPart)) == [ParsedOrderItem(MenuData.Burger, 2.0)]
  {
    JsText.TrimUnchanged(BurgerPart);
    BurgerEntry();
  }

  lemma SimpleBurger()
    ensures ParseSimple(BurgerPart) == [ParsedOrderItem(MenuData.Burger, 2.0)]
  {
    ParseSimpleOnePart(BurgerPart);
    TrimmedBurger();
  }

  /** "Fries" and "1" satisfy `WordAndCount`. */
  lemma FriesWord()
    ensures WordAndCount("Fries", "fries", "1", 1)
  {
    assert JsText.Lower("Fries") == "fries";
  }

  /** "Fries x1" is 1 of the fries entry. */
  lemma FriesEntry()
    ensures PartEntry("Fries" + " x" + "1") == [ParsedOrderItem(MenuData.Fries, 1.0)]
  {
    FriesWord();
    MenuData.FriesWordSelectsFries();
    WordQuantityPart("Fries", "fries", "1", 1, MenuData.Fries);
  }

  lemma TrimmedFries()
    ensures PartEntry(JsText.Trim(FriesPart)) == [ParsedOrderItem(MenuData.Fries, 1.0)]
  {
    JsText.TrimAround(" ", "Fries" + " x" + "1", "");
    assert FriesPart == " " + ("Fries" + " x" + "1") + "";
    FriesEntry();
  }

  lemma SimpleFries()
    ensures ParseSimple(FriesPart) == [ParsedOrderItem(MenuData.Fries, 1.0)]
  {
    ParseSimpleOnePart(FriesPart);
    TrimmedFries();
  }

  /** "Drink" and "3" satisfy `WordAndCount`. */
  lemma DrinkWord()
    ensures WordAndCount("Drink", "drink", "3", 3)
  {
    assert JsText.Lower("Drink") == "drink";
  }

  /** "Drink x3" is 3 of the drink entry. */
  lemma DrinkEntry()
    ensures PartEntry("Drink" + " x" + "3") == [ParsedOrderItem(MenuData.Drink, 3.0)]
  {
    DrinkWord();
    MenuData.DrinkWordSelectsDrink();
    WordQuantityPart("Drink", "drink", "3", 3, MenuData.Drink);
  }

  lemma TrimmedDrink()
    ensures PartEntry(JsText.Trim(DrinkPart)) == [ParsedOrderItem(MenuData.Drink, 3.0)]
  {
    JsText.TrimAround(" ", "Drink" + " x" + "3", "");
    assert DrinkPart == " " + ("Drink" + " x" + "3") + "";
    DrinkEntry();
  }

  lemma SimpleDrink()
    ensures ParseSimple(DrinkPart) == [ParsedOrderItem(MenuData.Drink, 3.0)]
  {
    ParseSimpleOnePart(DrinkPart);
    TrimmedDrink();
  }

  /** The documented example yields two burgers, one fries and three drinks, in that order. */
  lemma SimpleDocumentedExample()
    ensures ParseSimple(SimpleDocumentedOrder) == [
      ParsedOrderItem(MenuData.Burger, 2.0),
      ParsedOrderItem(MenuData.Fries, 1.0),
      ParsedOrderItem(MenuData.Drink, 3.0)]
  {
    ParseSimpleThree(BurgerPart, FriesPart, DrinkPart);
    SimpleBurger();
    SimpleFries();
    SimpleDrink();
    ThreeEntries(ParsedOrderItem(MenuData.Burger, 2.0), ParsedOrderItem(MenuData.Fries, 1.0),
      ParsedOrderItem(MenuData.Drink, 3.0));
  }

  /** Three one-entry results concatenate to the three entries. */
  lemma ThreeEntries(x: ParsedOrderItem, y: ParsedOrderItem, z: ParsedOrderItem)
    ensures [x] + ([y] + [z]) == [x, y, z]
  {
  }

  /** Three texts joined by commas are read part by part. */
  lemma ParseSimpleThree(a: string, b: string, c: string)
    ensures ParseSimple(a + [','] + (b + [','] + c)) == ParseSimple(a) + (ParseSimple(b) + ParseSimple(c))
  {
    ParseSimpleAppend(a, b + [','] + c);
    ParseSimpleAppend(b, c);
  }
}
