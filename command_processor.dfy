/**
 * The gesture command interpreter: a pure map from a command token and the current
 * stage name to the action the order page should take.
 */
module CommandProcessor {
  import opened Wrappers
  import opened Types
  import MenuData
  import JsText

  datatype CommandType = Item | Quantity | Finish | Unknown

  /**
   * What a command asks for. `item` is set only for `Item`, `quantity` only for
   * `Quantity`; `nextStage` names the stage the command asks to move to.
   */
  datatype CommandResult = CommandResult(
    kind: CommandType,
    item: Option<MenuItem>,
    quantity: Option<int>,
    shouldTransition: bool,
    nextStage: Option<string>)

  /** `ITEM_COMMANDS`: gesture letter to catalog id. */
  const ItemCommands: map<string, string> := map["B" := "burger", "F" := "fries", "D" := "drink"]

  /** `QUANTITY_COMMANDS`. */
  const QuantityCommands: seq<string> := ["1", "2", "3"]

  /** `FINISH_COMMAND`. */
  const FinishCommand: string := "FINISH"

  /**
   * `processCommandString`. The letter tables are consulted only in stage "menu", the
   * digit table only in stage "quantity-select", the finish token in every stage.
   */
  function ProcessCommandString(command: string, currentStage: string): (r: CommandResult)
    ensures r.shouldTransition <==> r.kind != Unknown
    ensures r.kind == Item ==> r.item.Some? && r.item.value in MenuData.MenuItems
                               && r.nextStage == Some("quantity-select")
    ensures r.kind == Quantity ==> r.quantity.Some? && 1 <= r.quantity.value <= 3
                                   && r.nextStage == Some("adding-item")
    ensures r.kind == Finish ==> r.nextStage == Some("confirming")
    ensures r.kind != Item ==> r.item.None?
    ensures r.kind != Quantity ==> r.quantity.None?
    ensures r.kind == Unknown ==> r.nextStage.None?
  {
    if command in ItemCommands && currentStage == "menu"
       && MenuData.FindById(ItemCommands[command]).Some? then
      CommandResult(Item, MenuData.FindById(ItemCommands[command]), None, true, Some("quantity-select"))
    else if command in QuantityCommands && currentStage == "quantity-select" then
      assert JsText.AllDigits(command) && |command| == 1 && '1' <= command[0] <= '3';
      CommandResult(Quantity, None, Some(JsText.DigitsValue(command)), true, Some("adding-item"))
    else if command == FinishCommand then
      CommandResult(Finish, None, None, true, Some("confirming"))
    else
      CommandResult(Unknown, None, None, false, None)
  }

  /** The catalog finds an entry for each id of `ITEM_COMMANDS`. */
  lemma ItemIdsFound()
    ensures MenuData.FindById("burger") == Some(MenuData.Burger)
    ensures MenuData.FindById("fries") == Some(MenuData.Fries)
    ensures MenuData.FindById("drink") == Some(MenuData.Drink)
  {
    assert MenuData.FindById("burger") == Some(MenuData.Burger) by { MenuData.FindByIdResolves("burger"); }
    assert MenuData.FindById("fries") == Some(MenuData.Fries) by { MenuData.FindByIdResolves("fries"); }
    assert MenuData.FindById("drink") == Some(MenuData.Drink) by { MenuData.FindByIdResolves("drink"); }
  }

  /** The catalog look-up behind every letter of `ITEM_COMMANDS` succeeds. */
  lemma ItemCommandsResolve()
    ensures forall token :: token in ItemCommands ==> MenuData.FindById(ItemCommands[token]).Some?
  {
    forall token | token in ItemCommands
      ensures MenuData.FindById(ItemCommands[token]).Some?
    {
      ItemCommandEntries();
      assert token in {"B", "F", "D"};
      LetterResolves(token);
    }
  }

  /** The look-up behind one letter succeeds. */
  lemma LetterResolves(token: string)
    requires token in {"B", "F", "D"}
    ensures token in ItemCommands && MenuData.FindById(ItemCommands[token]).Some?
  {
    ItemIdsFound();
    ItemCommandEntries();
    if token == "B" {
      assert ItemCommands[token] == "burger";
    } else if token == "F" {
      assert ItemCommands[token] == "fries";
    } else {
      assert ItemCommands[token] == "drink";
    }
  }

  /** The three entries of `ITEM_COMMANDS`. */
  lemma ItemCommandEntries()
    ensures "B" in ItemCommands && ItemCommands["B"] == "burger"
    ensures "F" in ItemCommands && ItemCommands["F"] == "fries"
    ensures "D" in ItemCommands && ItemCommands["D"] == "drink"
    ensures ItemCommands.Keys == {"B", "F", "D"}
  {
    assert "B" != "F" && "B" != "D" && "F" != "D" by {
      assert "B"[0] != "F"[0] && "B"[0] != "D"[0] && "F"[0] != "D"[0];
    }
  }

  /** A letter whose id resolves selects that entry in stage "menu". */
  lemma ItemTokenSelects(token: string, item: MenuItem)
    requires token in ItemCommands && MenuData.FindById(ItemCommands[token]) == Some(item)
    ensures ProcessCommandString(token, "menu")
      == CommandResult(Item, Some(item), None, true, Some("quantity-select"))
  {
  }

  /** In stage "menu", "B", "F" and "D" select the burger, the fries and the drink. */
  lemma ItemTokensInMenu()
    ensures ProcessCommandString("B", "menu")
      == CommandResult(Item, Some(MenuData.Burger), None, true, Some("quantity-select"))
    ensures ProcessCommandString("F", "menu")
      == CommandResult(Item, Some(MenuData.Fries), None, true, Some("quantity-select"))
    ensures ProcessCommandString("D", "menu")
      == CommandResult(Item, Some(MenuData.Drink), None, true, Some("quantity-select"))
  {
    ItemIdsFound();
    ItemCommandEntries();
    ItemTokenSelects("B", MenuData.Burger);
    ItemTokenSelects("F", MenuData.Fries);
    ItemTokenSelects("D", MenuData.Drink);
  }

  /** In stage "quantity-select", "1", "2" and "3" select that quantity. */
  lemma QuantityTokensInQuantitySelect()
    ensures forall n :: 1 <= n <= 3 ==>
      ProcessCommandString([('0' as int + n) as char], "quantity-select")
        == CommandResult(Quantity, None, Some(n), true, Some("adding-item"))
  {
    assert QuantityCommands == ["1", "2", "3"];
    assert "1" in QuantityCommands && "2" in QuantityCommands && "3" in QuantityCommands;
  }

  /** "FINISH" asks for "confirming" whatever the stage. */
  lemma FinishInEveryStage(currentStage: string)
    ensures ProcessCommandString(FinishCommand, currentStage)
      == CommandResult(Finish, None, None, true, Some("confirming"))
  {
  }

  /**
   * The complete classification: an item needs one of the three letters in stage "menu",
   * a quantity one of the three digits in stage "quantity-select", finish the exact token
   * "FINISH"; every other combination (item letters outside "menu", digits outside
   * "quantity-select", lower-case letters, "4", ...) is ignored.
   */
  lemma Classification(command: string, currentStage: string)
    ensures ProcessCommandString(command, currentStage).kind == Item
      <==> (command == "B" || command == "F" || command == "D") && currentStage == "menu"
    ensures ProcessCommandString(command, currentStage).kind == Quantity
      <==> (command == "1" || command == "2" || command == "3") && currentStage == "quantity-select"
    ensures ProcessCommandString(command, currentStage).kind == Finish
      <==> command == "FINISH"
    ensures ProcessCommandString(command, currentStage).kind == Unknown
      <==> !((command == "B" || command == "F" || command == "D") && currentStage == "menu")
           && !((command == "1" || command == "2" || command == "3") && currentStage == "quantity-select")
           && command != "FINISH"
  {
    var isLetter := command == "B" || command == "F" || command == "D";
    var isDigit := command == "1" || command == "2" || command == "3";
    assert command in ItemCommands <==> isLetter by {
      ItemCommandEntries();
      assert command in ItemCommands <==> command in {"B", "F", "D"};
    }
    assert command in QuantityCommands <==> isDigit;
    if isLetter {
      LetterResolves(command);
      assert !isDigit && command != "FINISH";
    } else if isDigit {
      assert command != "FINISH";
    }
  }
}
