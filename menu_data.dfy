/** The fixed three-item catalog (`MENU_ITEMS`) and the catalog look-ups built on it. */
module MenuData {
  import opened Wrappers
  import opened Types
  import JsArray
  import JsText
  import FixedTexts

  const PlaceholderImage: string := "/placeholder.svg?height=200&width=200"

  const Burger: MenuItem :=
    MenuItem("burger", "Classic Burger", 5.49, PlaceholderImage, "🍔", "Make a FIST (closed hand)")
  const Fries: MenuItem :=
    MenuItem("fries", "French Fries", 2.19, PlaceholderImage, "🍟", "Show OPEN HAND (5 fingers spread)")
  const Drink: MenuItem :=
    MenuItem("drink", "Soft Drink", 1.29, PlaceholderImage, "🥤", "Make a 'C' SHAPE (like holding a cup)")

  /** `MENU_ITEMS`, in display order. */
  const MenuItems: seq<MenuItem> := [Burger, Fries, Drink]

  /** `MENU_ITEMS.find((m) => m.id === id)`. */
  function FindById(id: string): (r: Option<MenuItem>)
    ensures r.Some? ==> r.value in MenuItems && r.value.id == id
    ensures r.None? <==> forall m :: m in MenuItems ==> m.id != id
  {
    JsArray.Find(MenuItems, (m: MenuItem) => m.id == id)
  }

  /**
   * The matching test both order parsers apply to a record name that is already
   * lower-cased and trimmed: the lower-cased catalog name contains it, or it contains
   * the lower-cased catalog name.
   */
  predicate NameMatches(itemName: string, m: MenuItem) {
    JsText.Includes(JsText.Lower(m.name), itemName) || JsText.Includes(itemName, JsText.Lower(m.name))
  }

  /** `MENU_ITEMS.find(...)` with the matching test above. */
  function MatchName(itemName: string): Option<MenuItem> {
    JsArray.Find(MenuItems, (m: MenuItem) => NameMatches(itemName, m))
  }

  /** A match is a catalog entry passing the test, and there is none exactly when no entry passes. */
  lemma MatchNameSpec(itemName: string)
    ensures MatchName(itemName).Some? ==>
      MatchName(itemName).value in MenuItems && NameMatches(itemName, MatchName(itemName).value)
    ensures MatchName(itemName).None? <==> forall m :: m in MenuItems ==> !NameMatches(itemName, m)
  {
  }

  // ---------------------------------------------------------------------------
  // Facts about the catalog

  /** Exactly three entries, burger, fries and drink, in that order, at the listed prices. */
  lemma CatalogContents()
    ensures |MenuItems| == 3
    ensures MenuItems[0].id == "burger" && MenuItems[0].name == "Classic Burger" && MenuItems[0].price == 5.49
    ensures MenuItems[1].id == "fries" && MenuItems[1].name == "French Fries" && MenuItems[1].price == 2.19
    ensures MenuItems[2].id == "drink" && MenuItems[2].name == "Soft Drink" && MenuItems[2].price == 1.29
  {
  }

  /** The ids are pairwise distinct, so an id names at most one entry. */
  lemma IdsDistinct()
    ensures forall i, j :: 0 <= i < j < |MenuItems| ==> MenuItems[i].id != MenuItems[j].id
  {
  }

  /** Every price is positive. */
  lemma PricesPositive()
    ensures forall m :: m in MenuItems ==> m.price > 0.0
  {
  }

  /** The lower-cased names the matching test compares against. */
  lemma LowerNames()
    ensures JsText.Lower(Burger.name) == "classic burger"
    ensures JsText.Lower(Fries.name) == "french fries"
    ensures JsText.Lower(Drink.name) == "soft drink"
  {
    FixedTexts.NamesLowered();
  }

  /** The six containment facts between the lower-cased names. */
  lemma LowerNamesApart()
    ensures !JsText.Includes("classic burger", "french fries")
    ensures !JsText.Includes("classic burger", "soft drink")
    ensures !JsText.Includes("french fries", "classic burger")
    ensures !JsText.Includes("french fries", "soft drink")
    ensures !JsText.Includes("soft drink", "classic burger")
    ensures !JsText.Includes("soft drink", "french fries")
  {
    FixedTexts.BurgerNameApart();
    FixedTexts.FriesNameApart();
    FixedTexts.DrinkNameApart();
  }

  /** No lower-cased catalog name contains another one (so, in particular, they are distinct). */
  lemma NamesContainmentFree()
    ensures forall m1, m2 :: m1 in MenuItems && m2 in MenuItems && m1 != m2 ==>
      !JsText.Includes(JsText.Lower(m1.name), JsText.Lower(m2.name))
  {
    forall m1, m2 | m1 in MenuItems && m2 in MenuItems && m1 != m2
      ensures !JsText.Includes(JsText.Lower(m1.name), JsText.Lower(m2.name))
    {
      InCatalog(m1);
      InCatalog(m2);
      LowerNames();
      LowerNamesApart();
    }
  }

  /** A catalog entry is one of the three. */
  lemma InCatalog(m: MenuItem)
    requires m in MenuItems
    ensures m == Burger || m == Fries || m == Drink
  {
  }

  /** Looking up an id finds the entry with that id, if there is one. */
  lemma FindByIdResolves(id: string)
    ensures FindById(id) ==
      if id == "burger" then Some(Burger)
      else if id == "fries" then Some(Fries)
      else if id == "drink" then Some(Drink)
      else None
  {
    var p := (m: MenuItem) => m.id == id;
    var k := JsArray.FindIndex(MenuItems, p);
    assert MenuItems[0] == Burger && MenuItems[1] == Fries && MenuItems[2] == Drink;
    assert p(Burger) == (id == "burger") && p(Fries) == (id == "fries") && p(Drink) == (id == "drink");
    if id == "burger" {
      assert k == 0;
    } else if id == "fries" {
      assert k == 1;
    } else if id == "drink" {
      assert k == 2;
    } else {
      assert k == -1;
    }
  }

  /** Matching picks the first catalog entry, in catalog order, that passes the test. */
  lemma MatchNameFirstWins(itemName: string)
    ensures MatchName(itemName) ==
      if NameMatches(itemName, Burger) then Some(Burger)
      else if NameMatches(itemName, Fries) then Some(Fries)
      else if NameMatches(itemName, Drink) then Some(Drink)
      else None
  {
    var p := (m: MenuItem) => NameMatches(itemName, m);
    var k := JsArray.FindIndex(MenuItems, p);
    assert MenuItems[0] == Burger && MenuItems[1] == Fries && MenuItems[2] == Drink;
    assert p(Burger) == NameMatches(itemName, Burger);
    assert p(Fries) == NameMatches(itemName, Fries);
    assert p(Drink) == NameMatches(itemName, Drink);
    if p(Burger) {
      assert k == 0;
    } else if p(Fries) {
      assert k == 1;
    } else if p(Drink) {
      assert k == 2;
    } else {
      assert k == -1;
    }
  }

  /** The lower-cased exact name of an entry selects that entry. */
  lemma ExactNameSelectsEntry(m: MenuItem)
    requires m in MenuItems
    ensures MatchName(JsText.Lower(m.name)) == Some(m)
  {
    NamesContainmentFree();
    MatchNameFirstWins(JsText.Lower(m.name));
    assert MenuItems[0] == Burger && MenuItems[1] == Fries && MenuItems[2] == Drink;
  }

  /** An empty record name is contained in every name, so it selects the first entry. */
  lemma EmptyNameSelectsBurger()
    ensures MatchName("") == Some(Burger)
  {
    MatchNameFirstWins("");
  }

  /** Each one-word name is contained in the lower-cased name of its entry. */
  lemma WordsInNames()
    ensures JsText.Includes("classic burger", "burger")
    ensures JsText.Includes("french fries", "fries")
    ensures JsText.Includes("soft drink", "drink")
  {
    JsText.IncludesAt("classic burger", "burger", 8);
    JsText.IncludesAt("french fries", "fries", 7);
    JsText.IncludesAt("soft drink", "drink", 5);
  }

  /** "burger" is contained in "classic burger" only. */
  lemma BurgerWordSelectsBurger()
    ensures MatchName("burger") == Some(Burger)
  {
    LowerNames();
    WordsInNames();
    MatchNameFirstWins("burger");
  }

  /** "fries" is contained in "french fries" and not in "classic burger". */
  lemma FriesWordSelectsFries()
    ensures MatchName("fries") == Some(Fries)
  {
    LowerNames();
    WordsInNames();
    JsText.NotIncludesByChar("classic burger", "fries", 'f');
    JsText.NotIncludesLonger("fries", "classic burger");
    MatchNameFirstWins("fries");
  }

  /** Neither of "drink" and "classic burger" contains the other. */
  lemma DrinkWordApartFromBurger()
    ensures !JsText.Includes("classic burger", "drink") && !JsText.Includes("drink", "classic burger")
  {
    JsText.NotIncludesByChar("classic burger", "drink", 'd');
    JsText.NotIncludesLonger("drink", "classic burger");
  }

  /** Neither of "drink" and "french fries" contains the other. */
  lemma DrinkWordApartFromFries()
    ensures !JsText.Includes("french fries", "drink") && !JsText.Includes("drink", "french fries")
  {
    JsText.NotIncludesByChar("french fries", "drink", 'd');
    JsText.NotIncludesLonger("drink", "french fries");
  }

  /** "drink" is contained in "soft drink" and in neither of the names before it. */
  lemma DrinkWordSelectsDrink()
    ensures MatchName("drink") == Some(Drink)
  {
    LowerNames();
    WordsInNames();
    DrinkWordApartFromBurger();
    DrinkWordApartFromFries();
    MatchNameFirstWins("drink");
  }
}
