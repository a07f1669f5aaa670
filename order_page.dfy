/**
 * The order page (`app/order/page.tsx`): the flow stage, the cart and the selection, the
 * handlers that the two pollers and the manual controls call, and the totals derived from
 * the cart.
 *
 * A handler runs to completion as one step. Its pauses (`setTimeout` and the awaited
 * delays) are not modelled; each handler returns instead the stages it passes through, in
 * order, so that intermediate stages such as "adding-item" remain visible.
 */
module OrderFlow {
  import opened Wrappers
  import opened Types
  import MenuData
  import CommandProcessor
  import OrderStringParser
  import GesturePolling
  import FinalizedOrderPolling

  /** `FlowStage`. "ordering" is declared but no handler ever enters it. */
  datatype FlowStage = Menu | QuantitySelect | AddingItem | Ordering | Confirming | Complete {
    /** The string the source uses for the stage, as passed to `processCommandString`. */
    function Name(): string {
      match this
      case Menu => "menu"
      case QuantitySelect => "quantity-select"
      case AddingItem => "adding-item"
      case Ordering => "ordering"
      case Confirming => "confirming"
      case Complete => "complete"
    }
  }

  /** The command interpreter sees stage "menu" and stage "quantity-select" exactly when the page is in them. */
  lemma StageNames(stage: FlowStage)
    ensures stage.Name() == "menu" <==> stage == Menu
    ensures stage.Name() == "quantity-select" <==> stage == QuantitySelect
  {
    match stage
    case Menu =>
    case QuantitySelect =>
    case AddingItem =>
      assert stage.Name()[0] == 'a';
    case Ordering =>
      assert stage.Name()[0] == 'o';
    case Confirming =>
      assert stage.Name()[0] == 'c';
    case Complete =>
      assert stage.Name()[0] == 'c';
  }

  // ---------------------------------------------------------------------------
  // Cart lines and totals

  /** `{...item, quantity, confirmed: true}`: the line every handler appends. */
  function Line(item: MenuItem, quantity: real): OrderItem {
    OrderItem(item, quantity, true)
  }

  /** One confirmed line per parsed entry, in order. */
  function Lines(parsed: seq<OrderStringParser.ParsedOrderItem>): (r: seq<OrderItem>)
    ensures |r| == |parsed|
    ensures forall k :: 0 <= k < |parsed| ==> r[k] == Line(parsed[k].item, parsed[k].quantity)
  {
    seq(|parsed|, k requires 0 <= k < |parsed| => Line(parsed[k].item, parsed[k].quantity))
  }

  /** One more parsed entry adds one more line at the end. */
  lemma LinesPrefix(parsed: seq<OrderStringParser.ParsedOrderItem>, i: nat)
    requires i < |parsed|
    ensures Lines(parsed[..i + 1]) == Lines(parsed[..i]) + [Line(parsed[i].item, parsed[i].quantity)]
  {
    assert Lines(parsed[..i + 1])[..i] == Lines(parsed[..i]);
  }

  function LineTotal(line: OrderItem): real {
    line.item.price * line.quantity
  }

  /** Price times quantity of each parsed entry, added up from the first entry to the last. */
  function ParsedTotal(parsed: seq<OrderStringParser.ParsedOrderItem>): real {
    if parsed == [] then 0.0 else parsed[0].item.price * parsed[0].quantity + ParsedTotal(parsed[1..])
  }

  /** `orderItems.reduce((sum, item) => sum + item.price * item.quantity, 0)`. */
  function Subtotal(items: seq<OrderItem>): real {
    if items == [] then 0.0 else Subtotal(items[..|items| - 1]) + LineTotal(items[|items| - 1])
  }

  /** `subtotal * 0.08`. */
  function Tax(items: seq<OrderItem>): real {
    Subtotal(items) * 0.08
  }

  /** `subtotal + tax`: the subtotal plus eight percent. */
  function Total(items: seq<OrderItem>): (t: real)
    ensures t == Subtotal(items) * 1.08
  {
    Subtotal(items) + Tax(items)
  }

  /** The subtotal of a cart is the sum of the subtotals of its two halves. */
  lemma {:induction false} SubtotalAppend(a: seq<OrderItem>, b: seq<OrderItem>)
    ensures Subtotal(a + b) == Subtotal(a) + Subtotal(b)
    decreases |b|
  {
    if b != [] {
      var b' := b[..|b| - 1];
      assert (a + b)[..|a + b| - 1] == a + b';
      assert (a + b)[|a + b| - 1] == b[|b| - 1];
      SubtotalAppend(a, b');
    } else {
      assert a + b == a;
    }
  }

  /** The lines of parsed entries add up to the entries' price times quantity. */
  lemma {:induction false} LinesSubtotal(parsed: seq<OrderStringParser.ParsedOrderItem>)
    ensures Subtotal(Lines(parsed)) == ParsedTotal(parsed)
  {
    if parsed != [] {
      var first := Line(parsed[0].item, parsed[0].quantity);
      assert Lines(parsed) == [first] + Lines(parsed[1..]);
      SubtotalAppend([first], Lines(parsed[1..]));
      assert Subtotal([first]) == Subtotal([]) + LineTotal(first) by {
        assert [first][..0] == [];
      }
      LinesSubtotal(parsed[1..]);
    }
  }

  /** A line of a catalog entry with a positive quantity. */
  predicate PricedLine(line: OrderItem) {
    line.item in MenuData.MenuItems && line.quantity > 0.0
  }

  /** A cart of such lines has a non-negative subtotal, and a positive one unless it is empty. */
  lemma {:induction false} SubtotalPositive(items: seq<OrderItem>)
    requires forall k :: 0 <= k < |items| ==> PricedLine(items[k])
    ensures Subtotal(items) >= 0.0
    ensures items != [] ==> Subtotal(items) > 0.0
  {
    if items != [] {
      SubtotalPositive(items[..|items| - 1]);
      MenuData.PricesPositive();
      var last := items[|items| - 1];
      assert PricedLine(last);
      assert last.item.price > 0.0;
    }
  }

  /** Repeated per item by `handleFinalizedOrder`: shown, added, back to the menu. */
  function ItemVisits(n: nat): seq<FlowStage> {
    if n == 0 then [] else ItemVisits(n - 1) + [QuantitySelect, AddingItem, Menu]
  }

  // ---------------------------------------------------------------------------
  // The page

  /** The part of the page a command can change. */
  datatype PageView = PageView(stage: FlowStage, orderItems: seq<OrderItem>, selectedItem: Option<MenuItem>,
                               selectedQuantity: real)

  /**
   * What `handleCommand` does: the command is classified against the current stage. An
   * item is selected and the page asks for a quantity. A quantity with an item selected
   * appends one confirmed line and returns to the menu. Finishing with a non-empty cart
   * goes through "confirming" to "complete". An ignored command, and any other classified
   * one, changes nothing. `visited` lists the stages passed through, in order.
   */
  predicate CommandEffect(before: PageView, command: string, after: PageView, visited: seq<FlowStage>) {
    var result := CommandProcessor.ProcessCommandString(command, before.stage.Name());
    if result.kind == CommandProcessor.Item then
      && after == before.(stage := QuantitySelect, selectedItem := result.item)
      && visited == [QuantitySelect]
    else if result.kind == CommandProcessor.Quantity && before.selectedItem.Some? then
      && after == PageView(Menu, before.orderItems + [Line(before.selectedItem.value, result.quantity.value as real)],
                           None, result.quantity.value as real)
      && visited == [AddingItem, Menu]
    else if result.kind == CommandProcessor.Finish && |before.orderItems| > 0 then
      && after == before.(stage := Complete)
      && visited == [Confirming, Complete]
    else
      after == before && visited == []
  }

  /**
   * A command adds at most one line: only a digit in "quantity-select" with an item
   * selected adds one, for that item and 1 to 3 of it. "complete" is entered only by
   * "FINISH" with a non-empty cart, which it leaves as it was.
   */
  lemma CommandAddsAtMostOneLine(before: PageView, command: string, after: PageView, visited: seq<FlowStage>)
    requires CommandEffect(before, command, after, visited)
    ensures before.orderItems <= after.orderItems && |after.orderItems| <= |before.orderItems| + 1
    ensures |after.orderItems| > |before.orderItems| ==>
      && before.stage == QuantitySelect && (command == "1" || command == "2" || command == "3")
      && before.selectedItem.Some?
      && after.orderItems == before.orderItems + [Line(before.selectedItem.value, after.selectedQuantity)]
      && 1.0 <= after.selectedQuantity <= 3.0
    ensures after.stage == Complete && before.stage != Complete ==>
      command == "FINISH" && before.orderItems != [] && after.orderItems == before.orderItems
  {
    CommandProcessor.Classification(command, before.stage.Name());
    StageNames(before.stage);
  }

  class OrderPage {
    var stage: FlowStage
    var orderItems: seq<OrderItem>
    var selectedItem: Option<MenuItem>
    var selectedQuantity: real
    /** `clientId`: a string, or `None` for the `undefined` the order poller passes. */
    var clientId: Option<string>

    /** "ordering" is never entered, and "quantity-select" always has an item selected. */
    predicate Valid()
      reads this
    {
      stage != Ordering && (stage == QuantitySelect ==> selectedItem.Some?)
    }

    /** The fields a command can change. */
    function View(): PageView
      reads this
    {
      PageView(stage, orderItems, selectedItem, selectedQuantity)
    }

    constructor()
      ensures stage == Menu && orderItems == [] && selectedItem.None?
      ensures selectedQuantity == 1.0 && clientId == Some("")
      ensures Valid()
    {
      stage := Menu;
      orderItems := [];
      selectedItem := None;
      selectedQuantity := 1.0;
      clientId := Some("");
    }

    /** `handleCommand`: the command's effect on the page, as `CommandEffect` describes it. */
    method HandleCommand(command: string) returns (visited: seq<FlowStage>)
      requires Valid()
      modifies this
      ensures Valid()
      ensures clientId == old(clientId)
      ensures CommandEffect(old(View()), command, View(), visited)
    {
      visited := [];
      var result := CommandProcessor.ProcessCommandString(command, stage.Name());
      if !result.shouldTransition {
        return;
      }
      if result.kind == CommandProcessor.Item && result.item.Some? {
        selectedItem := result.item;
        stage := QuantitySelect;
        visited := [QuantitySelect];
        return;
      }
      if result.kind == CommandProcessor.Quantity && result.quantity.Some? && result.quantity.value != 0
         && selectedItem.Some? {
        selectedQuantity := result.quantity.value as real;
        var newItem := Line(selectedItem.value, result.quantity.value as real);
        orderItems := orderItems + [newItem];
        stage := AddingItem;
        selectedItem := None;
        stage := Menu;
        visited := [AddingItem, Menu];
        return;
      }
      if result.kind == CommandProcessor.Finish && |orderItems| > 0 {
        stage := Confirming;
        stage := Complete;
        visited := [Confirming, Complete];
        return;
      }
    }

    /**
     * `handleFinalizedOrder`: records the client id, parses the order text and, when
     * anything was parsed, walks through the entries in order, showing each one and
     * appending its confirmed line, then goes through "confirming" to "complete". When
     * nothing was parsed only the client id changes.
     */
    method HandleFinalizedOrder(orderData: string, clientId: Option<string>, decode: OrderStringParser.Decoder)
      returns (visited: seq<FlowStage>)
      requires Valid()
      modifies this
      ensures Valid()
      ensures this.clientId == clientId
      ensures
        var parsed := OrderStringParser.ParseOrder(orderData, decode);
        if parsed == [] then
          && visited == [] && stage == old(stage) && orderItems == old(orderItems)
          && selectedItem == old(selectedItem) && selectedQuantity == old(selectedQuantity)
        else
          && orderItems == old(orderItems) + Lines(parsed)
          && stage == Complete && selectedItem.None?
          && selectedQuantity == parsed[|parsed| - 1].quantity
          && visited == ItemVisits(|parsed|) + [Confirming, Complete]
    {
      this.clientId := clientId;
      visited := [];
      var parsedItems := OrderStringParser.ParseOrderString(orderData, decode);
      if |parsedItems| == 0 {
        return;
      }
      visited := ShowParsedItems(parsedItems);
    }

    /**
     * The loop of `handleFinalizedOrder` and what follows it: for each entry, select the
     * item, show its quantity, append its line and return to the menu; then "confirming"
     * and "complete".
     */
    method ShowParsedItems(parsedItems: seq<OrderStringParser.ParsedOrderItem>) returns (visited: seq<FlowStage>)
      requires Valid() && parsedItems != []
      modifies this
      ensures Valid()
      ensures clientId == old(clientId)
      ensures orderItems == old(orderItems) + Lines(parsedItems)
      ensures stage == Complete && selectedItem.None?
      ensures selectedQuantity == parsedItems[|parsedItems| - 1].quantity
      ensures visited == ItemVisits(|parsedItems|) + [Confirming, Complete]
    {
      visited := [];
      var i := 0;
      while i < |parsedItems|
        invariant 0 <= i <= |parsedItems|
        invariant clientId == old(clientId)
        invariant orderItems == old(orderItems) + Lines(parsedItems[..i])
        invariant visited == ItemVisits(i)
        invariant i > 0 ==> stage == Menu && selectedItem.None? && selectedQuantity == parsedItems[i - 1].quantity
        invariant Valid()
      {
        var entry := parsedItems[i];
        selectedItem := Some(entry.item);
        stage := QuantitySelect;
        selectedQuantity := entry.quantity;
        LinesPrefix(parsedItems, i);
        orderItems := orderItems + [Line(entry.item, entry.quantity)];
        stage := AddingItem;
        selectedItem := None;
        stage := Menu;
        visited := visited + [QuantitySelect, AddingItem, Menu];
        i := i + 1;
      }
      assert parsedItems[..i] == parsedItems;
      stage := Confirming;
      stage := Complete;
      visited := visited + [Confirming, Complete];
    }

    /** `handleItemClick`: select the item and ask for a quantity, unless an order is being processed. */
    method HandleItemClick(item: MenuItem, isOrderProcessing: bool)
      requires Valid()
      modifies this
      ensures Valid()
      ensures isOrderProcessing ==> unchanged(this)
      ensures !isOrderProcessing ==>
        && selectedItem == Some(item) && stage == QuantitySelect
        && orderItems == old(orderItems) && selectedQuantity == old(selectedQuantity) && clientId == old(clientId)
    {
      if isOrderProcessing {
        return;
      }
      selectedItem := Some(item);
      stage := QuantitySelect;
    }

    /**
     * `handleQuantitySelect`: with an item selected and no order being processed, append
     * its confirmed line and return to the menu; otherwise nothing. The quantity shown
     * (`selectedQuantity`) is not updated on this path.
     */
    method HandleQuantitySelect(quantity: real, isOrderProcessing: bool) returns (visited: seq<FlowStage>)
      requires Valid()
      modifies this
      ensures Valid()
      ensures old(selectedItem).None? || isOrderProcessing ==> unchanged(this) && visited == []
      ensures old(selectedItem).Some? && !isOrderProcessing ==>
        && orderItems == old(orderItems) + [Line(old(selectedItem).value, quantity)]
        && selectedItem.None? && stage == Menu && visited == [AddingItem, Menu]
        && selectedQuantity == old(selectedQuantity) && clientId == old(clientId)
    {
      visited := [];
      if selectedItem.None? || isOrderProcessing {
        return;
      }
      var newItem := Line(selectedItem.value, quantity);
      orderItems := orderItems + [newItem];
      stage := AddingItem;
      selectedItem := None;
      stage := Menu;
      visited := [AddingItem, Menu];
    }

    /**
     * `handleFinishOrder`: unless an order is being processed, go through "confirming" to
     * "complete". Unlike the FINISH command, it does not look at the cart.
     */
    method HandleFinishOrder(isOrderProcessing: bool) returns (visited: seq<FlowStage>)
      requires Valid()
      modifies this
      ensures Valid()
      ensures isOrderProcessing ==> unchanged(this) && visited == []
      ensures !isOrderProcessing ==>
        && stage == Complete && visited == [Confirming, Complete]
        && orderItems == old(orderItems) && selectedItem == old(selectedItem)
        && selectedQuantity == old(selectedQuantity) && clientId == old(clientId)
    {
      visited := [];
      if isOrderProcessing {
        return;
      }
      stage := Confirming;
      stage := Complete;
      visited := [Confirming, Complete];
    }

    /** The quantity dialog's cancel: drop the selection and go back to the menu. */
    method CancelQuantitySelect(isOrderProcessing: bool)
      requires Valid()
      modifies this
      ensures Valid()
      ensures isOrderProcessing ==> unchanged(this)
      ensures !isOrderProcessing ==>
        && selectedItem.None? && stage == Menu
        && orderItems == old(orderItems) && selectedQuantity == old(selectedQuantity) && clientId == old(clientId)
    {
      if !isOrderProcessing {
        selectedItem := None;
        stage := Menu;
      }
    }

    /**
     * "New Order" on the complete screen: empty the cart, clear the client id, go back to
     * the menu and re-arm the order poller. The selection is left as it is.
     */
    method NewOrder(poller: FinalizedOrderPolling.FinalizedOrderPoller)
      requires Valid() && poller.Valid()
      modifies this, poller
      ensures Valid() && poller.Valid()
      ensures orderItems == [] && clientId == Some("") && stage == Menu
      ensures selectedItem == old(selectedItem) && selectedQuantity == old(selectedQuantity)
      ensures !poller.hasProcessedOrder && poller.currentOrder.None? && !poller.isProcessing
      ensures poller.lastProcessedId.None?
    {
      orderItems := [];
      clientId := Some("");
      stage := Menu;
      poller.ResetPolling();
    }
  }

  // ---------------------------------------------------------------------------
  // The page wired to its pollers

  /**
   * One gesture tick with the page's `handleCommand` as handler: the consumed row's command
   * has its `CommandEffect` on the page. The page's handler always returns, so the tick
   * ends in `Complete` with the update's outcome.
   */
  method GestureTick(page: OrderPage, poller: GesturePolling.GesturePoller, table: GesturePolling.CommandTable,
                     fetchFailed: bool, updateApplied: bool)
    returns (visited: seq<FlowStage>)
    requires page.Valid() && poller.Valid() && !poller.processingRef
    modifies page, poller, table
    ensures page.Valid() && poller.Valid() && !poller.processingRef
    ensures old(page.orderItems) <= page.orderItems
    ensures
      var next := GesturePolling.NextRow(old(table.rows), old(poller.lastProcessedId));
      if !poller.enabled || fetchFailed || next.None? then
        unchanged(page) && unchanged(table) && visited == []
        && poller.lastProcessedId == old(poller.lastProcessedId)
      else
        && poller.lastProcessedId == next.value.id
        && table.rows == (if updateApplied then GesturePolling.MarkProcessed(old(table.rows), next.value.id)
                          else old(table.rows))
        && CommandEffect(old(page.View()), next.value.command, page.View(), visited)
        && page.clientId == old(page.clientId)
  {
    visited := [];
    var command := poller.Poll(table, fetchFailed);
    if command.Some? {
      visited := page.HandleCommand(command.value);
      poller.Complete(table, GesturePolling.Handled(updateApplied));
    }
  }

  /**
   * One finalized-order tick with the page's `handleFinalizedOrder` as handler. The hook
   * passes the content only, so the page records an undefined client id. The page's
   * handler never throws (an unparseable text is answered with an empty list), so the
   * poller always records success: with `stopAfterProcessing`, even a text that added
   * nothing to the cart stops the poller.
   */
  method FinalizedOrderTick(page: OrderPage, poller: FinalizedOrderPolling.FinalizedOrderPoller,
                            fetch: FinalizedOrderPolling.Fetch, now: int, decode: OrderStringParser.Decoder)
    returns (visited: seq<FlowStage>)
    requires page.Valid() && poller.Valid() && !poller.isProcessing
    modifies page, poller
    ensures page.Valid() && poller.Valid() && !poller.isProcessing
    ensures old(page.orderItems) <= page.orderItems
    ensures old(poller.Stopped()) ==> unchanged(poller) && unchanged(page) && visited == []
    ensures
      var newest := if fetch.Fetched? then FinalizedOrderPolling.Newest(fetch.rows) else None;
      if !old(poller.Stopped()) && newest.Some? && old(poller.lastProcessedId) != Some(newest.value.id) then
        && poller.hasProcessedOrder && poller.lastProcessedId == Some(newest.value.id)
        && page.clientId.None?
        && var parsed := OrderStringParser.ParseOrder(newest.value.content, decode);
        && page.orderItems == old(page.orderItems) + Lines(parsed)
        && page.stage == (if parsed == [] then old(page.stage) else Complete)
        && visited == (if parsed == [] then [] else ItemVisits(|parsed|) + [Confirming, Complete])
      else
        unchanged(page) && visited == [] && poller.hasProcessedOrder == old(poller.hasProcessedOrder)
  {
    visited := [];
    var order := poller.Poll(fetch, now);
    if order.Some? {
      visited := page.HandleFinalizedOrder(order.value, None, decode);
      poller.HandlerDone(true);
    }
  }

  /**
   * An order text that yields no entry still counts as handled: with `stopAfterProcessing`
   * the tick leaves the page as it was (apart from the client id) and the poller stopped,
   * so the next tick takes no row at all, whatever the table holds by then.
   */
  method UnparseableOrderStopsPolling(page: OrderPage, poller: FinalizedOrderPolling.FinalizedOrderPoller,
                                      rows: seq<FinalizedOrderPolling.StringsRow>, now: int,
                                      later: FinalizedOrderPolling.Fetch, now2: int,
                                      decode: OrderStringParser.Decoder)
    returns (first: seq<FlowStage>, second: seq<FlowStage>)
    requires page.Valid() && poller.Valid() && !poller.Stopped() && poller.stopAfterProcessing
    requires rows != []
    requires poller.lastProcessedId != Some(FinalizedOrderPolling.Newest(rows).value.id)
    requires OrderStringParser.ParseOrder(FinalizedOrderPolling.Newest(rows).value.content, decode) == []
    modifies page, poller
    ensures first == [] && second == []
    ensures page.orderItems == old(page.orderItems) && page.stage == old(page.stage)
    ensures poller.Stopped()
  {
    first := FinalizedOrderTick(page, poller, FinalizedOrderPolling.Fetched(rows), now, decode);
    assert Lines([]) == [];
    assert page.orderItems == old(page.orderItems) + [];
    second := FinalizedOrderTick(page, poller, later, now2, decode);
  }
}
