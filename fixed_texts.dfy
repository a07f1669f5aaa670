/**
 * Facts about the fixed texts the system compares: the lower-cased catalog names, the word
 * "nonexistent" of the unknown-item example, and the two example lists with their quotes
 * rewritten. They need only the text operations, so they are stated apart from the catalog.
 * Each fact about a pair of literal texts is proved in a lemma of its own, which keeps
 * every proof small; the grouping lemmas only collect them.
 */
module FixedTexts {
  import JsText

  /** The catalog names, lower-cased. */
  lemma NamesLowered()
    ensures JsText.Lower("Classic Burger") == "classic burger"
    ensures JsText.Lower("French Fries") == "french fries"
    ensures JsText.Lower("Soft Drink") == "soft drink"
  {
    BurgerLowered();
    FriesLowered();
    DrinkLowered();
  }

  lemma BurgerLowered()
    ensures JsText.Lower("Classic Burger") == "classic burger"
  {
  }

  lemma FriesLowered()
    ensures JsText.Lower("French Fries") == "french fries"
  {
  }

  lemma DrinkLowered()
    ensures JsText.Lower("Soft Drink") == "soft drink"
  {
  }

  /** "classic burger" has no 'f' and no 'o', so it holds neither other name. */
  lemma BurgerNameApart()
    ensures !JsText.Includes("classic burger", "french fries")
    ensures !JsText.Includes("classic burger", "soft drink")
  {
    FriesNotInBurger();
    DrinkNotInBurger();
  }

  lemma FriesNotInBurger()
    ensures !JsText.Includes("classic burger", "french fries")
  {
    JsText.NotIncludesByChar("classic burger", "french fries", 'f');
  }

  lemma DrinkNotInBurger()
    ensures !JsText.Includes("classic burger", "soft drink")
  {
    JsText.NotIncludesByChar("classic burger", "soft drink", 'o');
  }

  /** "french fries" is shorter than "classic burger" and has no 'o'. */
  lemma FriesNameApart()
    ensures !JsText.Includes("french fries", "classic burger")
    ensures !JsText.Includes("french fries", "soft drink")
  {
    JsText.NotIncludesLonger("french fries", "classic burger");
    JsText.NotIncludesByChar("french fries", "soft drink", 'o');
  }

  /** "soft drink" is shorter than both other names. */
  lemma DrinkNameApart()
    ensures !JsText.Includes("soft drink", "classic burger")
    ensures !JsText.Includes("soft drink", "french fries")
  {
    JsText.NotIncludesLonger("soft drink", "classic burger");
    JsText.NotIncludesLonger("soft drink", "french fries");
  }

  /** "nonexistent" has no capital. */
  lemma NonexistentLowered()
    ensures JsText.Lower("nonexistent") == "nonexistent"
  {
  }

  /** No lower-cased catalog name contains "nonexistent": none has an 'x'. */
  lemma NonexistentInNoName()
    ensures !JsText.Includes("classic burger", "nonexistent")
    ensures !JsText.Includes("french fries", "nonexistent")
    ensures !JsText.Includes("soft drink", "nonexistent")
  {
    NonexistentNotInBurger();
    NonexistentNotInFries();
    NonexistentNotInDrink();
  }

  lemma NonexistentNotInBurger()
    ensures !JsText.Includes("classic burger", "nonexistent")
  {
    JsText.NotIncludesByChar("classic burger", "nonexistent", 'x');
  }

  lemma NonexistentNotInFries()
    ensures !JsText.Includes("french fries", "nonexistent")
  {
    JsText.NotIncludesByChar("french fries", "nonexistent", 'x');
  }

  lemma NonexistentNotInDrink()
    ensures !JsText.Includes("soft drink", "nonexistent")
  {
    JsText.NotIncludesByChar("soft drink", "nonexistent", 'x');
  }

  /** "nonexistent" contains no lower-cased catalog name. */
  lemma NoNameInNonexistent()
    ensures !JsText.Includes("nonexistent", "classic burger")
    ensures !JsText.Includes("nonexistent", "french fries")
    ensures !JsText.Includes("nonexistent", "soft drink")
  {
    JsText.NotIncludesLonger("nonexistent", "classic burger");
    JsText.NotIncludesLonger("nonexistent", "french fries");
    JsText.NotIncludesByChar("nonexistent", "soft drink", 'f');
  }

  /** The list of the documented example, as sent and as handed to the JSON decoder. */
  const DocumentedList: string := "[{'item': " + "'Soft Drink', " + "'quantity': 2}]"
  const DocumentedJson: string := "[{\"item\": " + "\"Soft Drink\", " + "\"quantity\": 2}]"

  /** The documented example's list, single quotes rewritten to double quotes. */
  lemma DocumentedQuotes()
    ensures JsText.ReplaceAll(DocumentedList, '\'', '"') == DocumentedJson
  {
    var a, b, c := "[{'item': ", "'Soft Drink', ", "'quantity': 2}]";
    JsText.ReplaceAllAppend(a, b, '\'', '"');
    JsText.ReplaceAllAppend(a + b, c, '\'', '"');
    assert JsText.ReplaceAll(a, '\'', '"') == "[{\"item\": ";
    assert JsText.ReplaceAll(b, '\'', '"') == "\"Soft Drink\", ";
    assert JsText.ReplaceAll(c, '\'', '"') == "\"quantity\": 2}]";
  }

  /** The list of the unknown-item example, as sent and as handed to the JSON decoder. */
  const UnknownList: string := "[{'item': " + "'nonexistent', " + "'quantity': 5}]"
  const UnknownJson: string := "[{\"item\": " + "\"nonexistent\", " + "\"quantity\": 5}]"

  /** The unknown-item example's list, single quotes rewritten to double quotes. */
  lemma UnknownQuotes()
    ensures JsText.ReplaceAll(UnknownList, '\'', '"') == UnknownJson
  {
    var a, b, c := "[{'item': ", "'nonexistent', ", "'quantity': 5}]";
    JsText.ReplaceAllAppend(a, b, '\'', '"');
    JsText.ReplaceAllAppend(a + b, c, '\'', '"');
    assert JsText.ReplaceAll(a, '\'', '"') == "[{\"item\": ";
    assert JsText.ReplaceAll(b, '\'', '"') == "\"nonexistent\", ";
    assert JsText.ReplaceAll(c, '\'', '"') == "\"quantity\": 5}]";
  }
}
