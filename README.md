# ASL Express ordering kiosk — a Dafny model of its order flow

ASL Express is a touch-free ordering kiosk. A hand-gesture sensor writes command tokens
("B", "F", "D", "1"–"3", "FINISH") into a command table. A back end writes finalized order
texts such as `✅ Client 27: [{'item': 'Soft Drink', 'quantity': 2}]` into a strings table.
The order page polls both tables, interprets what it finds against a three-item menu, and
walks a small stage machine (menu → quantity-select → adding-item → menu … → confirming →
complete). It keeps a cart and shows its subtotal, 8 % tax and total.

This project models that core:

- the menu catalog and the name matching both order parsers use (`MenuData`), with
  the facts about its fixed name texts and the documented example lists (`FixedTexts`);
- the JavaScript string and array built-ins the parsers rely on (`JsText`, `JsArray`);
- the command interpreter `processCommandString` (`CommandProcessor`);
- the list parser `parseOrderString` and the comma-separated parser
  `parseSimpleOrderString`, including the regular expression
  `/(?:(\d+)\s*x\s*)?([a-zA-Z\s]+?)(?:\s*x?\s*(\d+))?$/i` (`OrderStringParser`,
  `OrderPattern`);
- the two polling hooks as classes whose methods update their state step by step
  (`GesturePolling`, `FinalizedOrderPolling`);
- the order page as a class with one method per handler, its totals, and the page wired
  to its pollers (`OrderFlow`);
- the two countdown dialogs (`ItemQuantityModal`, `ConfirmationModal`).

## How the model is built

**Parsers.** They are pure functions (`ParseOrder`, `ParseSimple`). The source's loops
are methods (`ParseOrderString`, `ParseSimpleOrderString`) proved equal to those
functions. Both loops are one fold, `Collect`, over a one-turn outcome. So the order, the
bound of one entry per input element and the validity of each entry are proved once.

`JSON.parse` is a parameter, `decode`, that returns the decoded records or `None` for
invalid text. A record's `item` is `None` when it is not a string; calling
`toLowerCase` on it throws, so the whole parse yields nothing. Its `quantity` is the
number JavaScript's `>` compares against zero.

**Regular expression.** It is modelled by its own search: the leftmost start, the lazy
name group, and the greedy optional groups. Lemmas give its result on the shapes the
source documents: "Burger x2", "Burger 2", "2x Burger" and "Burger".

**Pollers.** Each `await` of a handler splits a tick in two:

- `Poll` runs up to the handler call and returns what the handler receives.
- `Complete` (gesture poller) or `HandlerDone` (finalized-order poller) runs what follows.
  It receives how the handler ended.

Query results and the clock are parameters. `OrderFlow.GestureTick` and
`OrderFlow.FinalizedOrderTick` run a whole tick with the page's own handler in between.

**Page and dialogs.** A handler runs as one step. Its `setTimeout` pauses are not
modelled. Each handler returns, in order, the stages it passes through, so the
"adding-item" and "confirming" stages stay visible. The dialogs' one-second intervals
are `Tick` methods. Each is proved equal to a pure `Step` function, and the countdown
properties are lemmas about iterating `Step`.

**What the page's handlers reveal.** `handleFinalizedOrder` never throws. It answers an
unparseable order text with an early return. The finalized-order hook therefore records
even such a text as a handled order. With `stopAfterProcessing` set (as the page sets it)
polling then stops while the page stays on the menu. `OrderFlow.UnparseableOrderStopsPolling`
states this. Polling resumes only through "New Order" on the complete screen.

## Model

| member | source | states |
|---|---|---|
| JsArray.FindIndex | lib/order-string-parser.ts:41-47 | the index of the first element passing the test, -1 exactly when none passes; no earlier element passes |
| JsArray.Find | lib/command-processor.ts:59 | `find`: `None` exactly when no element passes; otherwise an element that passes, with no passing element before it |
| JsText.IndexOf | lib/order-string-parser.ts:16 | -1 exactly when the character is absent; otherwise its position, with no occurrence before |
| JsText.LastIndexOf | lib/order-string-parser.ts:17 | -1 exactly when the character is absent; otherwise its position, with no occurrence after |
| JsText.SubstringSymmetric | lib/order-string-parser.ts:24 | `substring` ignores the order of its arguments: both orders give the characters from the smaller index up to the larger one |
| JsText.ReplaceAll | lib/order-string-parser.ts:27 | same length; every `from` becomes `to`, every other character is kept, no `from` remains |
| JsText.IncludesIff | lib/order-string-parser.ts:46 | `includes` holds exactly when the needle occurs at some position |
| JsText.TrimStartSpec | lib/order-string-parser.ts:42 | the result is a suffix, the dropped front is all white space, and the result does not start with white space |
| JsText.TrimEndSpec | lib/order-string-parser.ts:42 | the result is a prefix, the dropped back is all white space, and the result does not end with white space |
| JsText.TrimIdempotent | lib/order-string-parser.ts:85 | trimming twice is trimming once |
| JsText.LowerIdempotent | lib/order-string-parser.ts:42 | no capital is left after lower-casing, so lower-casing twice changes nothing |
| JsText.JoinSplit | lib/order-string-parser.ts:76 | splitting loses nothing: joining the parts back gives the text |
| JsText.SplitJoin | lib/order-string-parser.ts:76 | splitting undoes joining parts free of the separator |
| JsText.SplitAppend | lib/order-string-parser.ts:76 | text on either side of a separator splits independently |
| JsText.DigitsValuePositive | lib/order-string-parser.ts:84 | `parseInt` of a digit run with a non-zero digit is positive |
| MenuData.FindById | lib/command-processor.ts:59 | the catalog entry with that id, `None` exactly when no entry has it |
| MenuData.MatchNameSpec | lib/order-string-parser.ts:41-47 | the match is a catalog entry passing the two-way containment test, and there is none exactly when no entry passes |
| MenuData.CatalogContents | lib/menu-data.ts:3-28 | exactly three entries: burger 5.49, fries 2.19, drink 1.29, in that order |
| MenuData.IdsDistinct | lib/menu-data.ts:3-28 | catalog ids are pairwise distinct |
| MenuData.PricesPositive | lib/menu-data.ts:3-28 | every price is positive |
| MenuData.LowerNames | lib/menu-data.ts:6-23 | the lower-cased names are "classic burger", "french fries", "soft drink" |
| MenuData.NamesContainmentFree | lib/menu-data.ts:6-23 | no lower-cased name contains another |
| MenuData.FindByIdResolves | lib/command-processor.ts:59 | "burger", "fries" and "drink" find their entries; every other id finds nothing |
| MenuData.MatchNameFirstWins | lib/order-string-parser.ts:41-47 | matching takes the first entry in catalog order that passes the test |
| MenuData.ExactNameSelectsEntry | lib/order-string-parser.ts:41-47 | an entry's exact lower-cased name selects that entry |
| MenuData.EmptyNameSelectsBurger | lib/order-string-parser.ts:41-47 | an empty name is contained in every name, so it selects the burger |
| MenuData.BurgerWordSelectsBurger | lib/order-string-parser.ts:87-89 | "burger" selects the burger |
| MenuData.FriesWordSelectsFries | lib/order-string-parser.ts:87-89 | "fries" selects the fries, not the burger |
| MenuData.DrinkWordSelectsDrink | lib/order-string-parser.ts:87-89 | "drink" selects the drink, not an earlier entry |
| CommandProcessor.ProcessCommandString | lib/command-processor.ts:55-97 | transition exactly when the kind is not UNKNOWN; an ITEM carries a catalog entry and asks for "quantity-select"; a QUANTITY is 1..3 and asks for "adding-item"; FINISH asks for "confirming" |
| CommandProcessor.ItemCommandsResolve | lib/command-processor.ts:57-61 | the catalog look-up behind every item letter succeeds |
| CommandProcessor.ItemTokensInMenu | lib/command-processor.ts:57-68 | in "menu", "B"/"F"/"D" give ITEM burger/fries/drink with next stage "quantity-select" |
| CommandProcessor.QuantityTokensInQuantitySelect | lib/command-processor.ts:72-81 | in "quantity-select", "1"/"2"/"3" give QUANTITY 1/2/3 with next stage "adding-item" |
| CommandProcessor.FinishInEveryStage | lib/command-processor.ts:84-90 | "FINISH" gives FINISH with next stage "confirming" in every stage |
| CommandProcessor.Classification | lib/command-processor.ts:55-97 | each kind, both directions: ITEM exactly for the letters in "menu", QUANTITY exactly for the digits in "quantity-select", FINISH exactly for "FINISH", UNKNOWN otherwise |
| OrderPattern.TailAt | lib/order-string-parser.ts:81 | the trailing group, when it matches, is a digit run that ends the text |
| OrderPattern.Match | lib/order-string-parser.ts:81 | a match has a non-empty name of letters and white space; each number group it has is a non-empty digit run |
| OrderPattern.NameThenQuantity | lib/order-string-parser.ts:81 | "Name xN" / "Name N": the whole name in group 2, the digits in group 3 |
| OrderPattern.QuantityThenName | lib/order-string-parser.ts:81 | "Nx Name": the digits in group 1, the name to the end in group 2 |
| OrderPattern.NameOnly | lib/order-string-parser.ts:81 | a text of letters and white space is all name, with no number |
| OrderPattern.EmptyHasNoMatch | lib/order-string-parser.ts:81 | the empty text does not match |
| OrderStringParser.ArrayText | lib/order-string-parser.ts:16-27 | `None` exactly when a '[' or a ']' is missing; the text returned has no single quote |
| OrderStringParser.ArrayTextSpan | lib/order-string-parser.ts:16-27 | with the first '[' before the last ']', the span between them, brackets included, quotes rewritten |
| OrderStringParser.ArrayTextReversed | lib/order-string-parser.ts:24 | with the last ']' before the first '[', the swapped `substring` holds no bracket at all |
| OrderStringParser.MatchRecord | lib/order-string-parser.ts:41-57 | an entry exactly when the lower-cased, trimmed name matches and the quantity is a positive number; the entry is that match with that quantity, and valid |
| OrderStringParser.Kept | lib/order-string-parser.ts:39-58 | one loop turn keeps at most one valid entry |
| OrderStringParser.MatchRecordsValid | lib/order-string-parser.ts:39-58 | at most one entry per record; every entry is a catalog item with a positive quantity |
| OrderStringParser.CollectAppend | lib/order-string-parser.ts:39-58 | input order is kept: matching a concatenation concatenates the results |
| OrderStringParser.MatchRecordsSingle | lib/order-string-parser.ts:39-58 | one record yields its match, or nothing |
| OrderStringParser.ParseOrder | lib/order-string-parser.ts:14-65 | empty when a bracket is missing or decoding fails; every entry valid; a non-empty result came from a decoded list and is no longer than it |
| OrderStringParser.MatchAll | lib/order-string-parser.ts:39-64 | the loop's result is the fold of the records, or empty when a record's name is not a string |
| OrderStringParser.ParseOrderString | lib/order-string-parser.ts:14-65 | the method equals `ParseOrder` |
| OrderStringParser.ParseOrderDecoded | lib/order-string-parser.ts:14-65 | once the list is cut out and decoded with string names only, the result is the matched records in order |
| OrderStringParser.DocumentedText | lib/order-string-parser.ts:11-27 | the documented example's cut-out list, quotes rewritten |
| OrderStringParser.DocumentedExample | lib/order-string-parser.ts:11-14 | the documented example parses to exactly one entry: 2 soft drinks |
| OrderStringParser.NonexistentMatchesNothing | lib/order-string-parser.ts:41-47 | "nonexistent" matches no catalog entry |
| OrderStringParser.UnknownItemExample | lib/order-string-parser.ts:41-57 | a list holding only an unknown name parses to nothing |
| OrderStringParser.BlankNameIsBurger | lib/order-string-parser.ts:41-47 | a blank record name with a positive quantity is taken as the burger |
| OrderStringParser.PartQuantity | lib/order-string-parser.ts:84 | with neither number group, the quantity is 1 |
| OrderStringParser.PartEntry | lib/order-string-parser.ts:81-96 | one part yields at most one valid entry |
| OrderStringParser.TrimAllAppend | lib/order-string-parser.ts:76 | trimming part by part commutes with concatenating lists of parts |
| OrderStringParser.TrimAllIdempotent | lib/order-string-parser.ts:76 | trimmed parts are left alone by a second trim |
| OrderStringParser.ParseSimpleOrderString | lib/order-string-parser.ts:71-105 | the method equals `ParseSimple` |
| OrderStringParser.ParseSimpleValid | lib/order-string-parser.ts:76-98 | at most one entry per comma-separated part; every entry valid |
| OrderStringParser.ParseSimpleAppend | lib/order-string-parser.ts:76-98 | parts are read independently: the results on either side of a comma concatenate |
| OrderStringParser.ParseSimpleOnePart | lib/order-string-parser.ts:76 | a text without a comma is one trimmed part |
| OrderStringParser.NameQuantityPart | lib/order-string-parser.ts:81-96 | "Name xN": the matched entry with quantity N, or nothing when unmatched or N is 0 |
| OrderStringParser.QuantityNamePart | lib/order-string-parser.ts:81-96 | "Nx Name": the matched entry with quantity N, or nothing |
| OrderStringParser.NameOnlyPart | lib/order-string-parser.ts:81-96 | "Name": the matched entry with quantity 1, or nothing |
| OrderStringParser.WordQuantityPart | lib/order-string-parser.ts:81-96 | a one-word name, " x" and a positive count give that entry that many times |
| OrderStringParser.SimpleDocumentedExample | lib/order-string-parser.ts:69-98 | "Burger x2, Fries x1, Drink x3" parses to 2 burgers, 1 fries, 3 drinks, in that order |
| GesturePolling.NextRow | lib/hooks/use-gesture-polling.ts:45-51 | the eligible row (unprocessed, id above the last) with the smallest id; `None` exactly when no row is eligible |
| GesturePolling.MarkProcessedOnlyThatRow | lib/hooks/use-gesture-polling.ts:73-76 | with unique ids, only the consumed row changes, and only its flag |
| GesturePolling.MarkingDoesNotChangeNext | lib/hooks/use-gesture-polling.ts:73-78 | whether or not the update took effect, the next query selects the same row |
| GesturePolling.GesturePoller.constructor | lib/hooks/use-gesture-polling.ts:27-31 | no command shown, not processing, last id 0, latch clear |
| GesturePolling.GesturePoller.Poll | lib/hooks/use-gesture-polling.ts:39-70 | no change when disabled, latched, on a query error or with no row; otherwise the latch is set and the next row's command is shown and handed over |
| GesturePolling.GesturePoller.Complete | lib/hooks/use-gesture-polling.ts:70-92 | after the handler: the row is marked (if the update applies), the last id becomes its id and strictly grows, and the latch clears; after a throw only the latch clears |
| GesturePolling.ThrownCommandIsRetried | lib/hooks/use-gesture-polling.ts:88-92 | a command whose handling throws is handed over again by the next tick |
| FinalizedOrderPolling.Newest | lib/hooks/use-finalized-order-polling.ts:40-44 | a row no other row is newer than; `None` exactly for an empty table |
| FinalizedOrderPolling.FinalizedOrderPoller.constructor | lib/hooks/use-finalized-order-polling.ts:26-30 | nothing shown, idle, never polled, nothing handled, no last id |
| FinalizedOrderPolling.FinalizedOrderPoller.Poll | lib/hooks/use-finalized-order-polling.ts:32-63 | no change when stopped or when the query throws; otherwise the poll time is set, and a newest row with a new id is recorded, shown and handed over |
| FinalizedOrderPolling.FinalizedOrderPoller.HandlerDone | lib/hooks/use-finalized-order-polling.ts:63-75 | success records a handled order and clears the shown order; a throw only clears the busy flag, keeping the id |
| FinalizedOrderPolling.FinalizedOrderPoller.ResetPolling | lib/hooks/use-finalized-order-polling.ts:78-84 | not handled, nothing shown, idle, no last id |
| FinalizedOrderPolling.ResetThenPoll | lib/hooks/use-finalized-order-polling.ts:53-84 | after a reset the newest row is handed over again, even one handled before |
| OrderFlow.StageNames | app/order/page.tsx:16 | a stage's name is "menu" or "quantity-select" exactly when the stage is that one |
| OrderFlow.LinesPrefix | app/order/page.tsx:128-133 | one more parsed entry appends exactly its confirmed line at the end |
| OrderFlow.LinesSubtotal | app/order/page.tsx:128-133 | the confirmed lines of parsed entries have the entries' summed price × quantity as subtotal |
| OrderFlow.Total | app/order/page.tsx:205-207 | total = subtotal + 8 % tax = subtotal × 1.08 |
| OrderFlow.SubtotalAppend | app/order/page.tsx:205 | the subtotal of a concatenation is the sum of the subtotals |
| OrderFlow.SubtotalPositive | app/order/page.tsx:205 | a cart of catalog lines with positive quantities has a non-negative subtotal, positive when non-empty |
| OrderFlow.OrderPage.constructor | app/order/page.tsx:40-44 | stage "menu", empty cart, nothing selected, quantity 1, empty client id |
| OrderFlow.CommandAddsAtMostOneLine | app/order/page.tsx:46-99 | a command adds at most one line, only a digit in quantity-select with an item selected, 1 to 3 of that item; complete is entered only by FINISH with a non-empty cart |
| OrderFlow.OrderPage.HandleCommand | app/order/page.tsx:46-99 | the page changes as `CommandEffect` relates it to the command's classification in the old stage: ignored ⇒ nothing; ITEM ⇒ selected and quantity-select; QUANTITY with a selection ⇒ one confirmed line appended, back to menu; FINISH with a non-empty cart ⇒ confirming, complete; the client id is kept |
| OrderFlow.OrderPage.HandleFinalizedOrder | app/order/page.tsx:101-150 | the client id is recorded; an empty parse changes nothing else; otherwise one confirmed line per parsed entry is appended in order and the page ends in complete |
| OrderFlow.OrderPage.ShowParsedItems | app/order/page.tsx:115-149 | each entry is shown, appended and left, in order; then confirming and complete |
| OrderFlow.OrderPage.HandleItemClick | app/order/page.tsx:171-175 | no change while an order is processed; otherwise the item is selected and quantity-select shown |
| OrderFlow.OrderPage.HandleQuantitySelect | app/order/page.tsx:178-193 | no change while processing or with nothing selected; otherwise one confirmed line is appended and the page returns to menu |
| OrderFlow.OrderPage.HandleFinishOrder | app/order/page.tsx:196-202 | no change while processing; otherwise confirming then complete, the cart untouched |
| OrderFlow.OrderPage.CancelQuantitySelect | app/order/page.tsx:355-360 | no change while processing; otherwise the selection is dropped and the page returns to menu |
| OrderFlow.OrderPage.NewOrder | app/order/page.tsx:215-220 | empty cart, empty client id, stage menu, and the order poller re-armed |
| OrderFlow.GestureTick | app/order/page.tsx:152-155 | a gesture tick with the page's handler: without a row nothing changes; with one, the consumed row's command has its `CommandEffect` on the page, the row is marked if the update applies, and its id becomes the last id |
| OrderFlow.FinalizedOrderTick | app/order/page.tsx:157-168 | an order tick with the page's handler: a new newest row's parsed lines are appended, the client id becomes undefined, and the order counts as handled even when nothing parsed |
| OrderFlow.UnparseableOrderStopsPolling | app/order/page.tsx:106-112 | an order text that parses to nothing leaves cart and stage as they were and stops the poller, so the next tick takes nothing |
| ItemQuantityModal.StepKeepsValid | components/item-quantity-modal.tsx:17-31 | a tick keeps the countdown in 0..10, never changes the quantity, and reports only the quantity from the confirmation prompt |
| ItemQuantityModal.FiresOnlyWhenConfirmRunsOut | components/item-quantity-modal.tsx:19-28 | a tick reports exactly when the confirmation prompt has at most one second left |
| ItemQuantityModal.SelectKeepsValid | components/item-quantity-modal.tsx:37-41 | a quantity button shows that quantity in the confirmation prompt with ten seconds |
| ItemQuantityModal.CountsDown | components/item-quantity-modal.tsx:30 | with more than k seconds left, k ticks only count down, silently |
| ItemQuantityModal.ConfirmsOnTenthTick | components/item-quantity-modal.tsx:17-31 | from a fresh confirmation prompt the tenth tick reports the quantity, none before it |
| ItemQuantityModal.SelectedQuantityConfirmedOnTenthTick | components/item-quantity-modal.tsx:37-41 | a quantity picked with a button is reported on the tenth tick after it |
| ItemQuantityModal.LeftAloneConfirmsOnTwentiethTick | components/item-quantity-modal.tsx:17-31 | left alone in a fresh quantity prompt, the dialog reports on the twentieth tick, none before |
| ItemQuantityModal.DefaultConfirmedOnTwentiethTick | components/item-quantity-modal.tsx:13-31 | untouched from mounting, quantity 1 is reported on the twentieth tick, none before |
| ItemQuantityModal.ReportsAgainAfterTimeout | components/item-quantity-modal.tsx:19-28 | after the confirmation has run out, each further tick reports the quantity again |
| ItemQuantityModal.Dialog.constructor | components/item-quantity-modal.tsx:13-15 | quantity 1, quantity prompt, ten seconds; within bounds |
| ItemQuantityModal.Dialog.Tick | components/item-quantity-modal.tsx:17-31 | the new state and the report are those of `Step`, and the bounds are kept |
| ItemQuantityModal.Dialog.HandleQuantitySelect | components/item-quantity-modal.tsx:37-41 | the new state is that quantity, the confirmation prompt, ten seconds, within bounds |
| ItemQuantityModal.Dialog.HandleConfirm | components/item-quantity-modal.tsx:43-46 | reports the quantity shown |
| ConfirmationModal.StepAnswersYes | components/confirmation-modal.tsx:17-26 | a tick answers exactly when at most one second is left, always yes, and never counts below zero |
| ConfirmationModal.CountsDown | components/confirmation-modal.tsx:24 | with more than k seconds left, k ticks count down by k, silently |
| ConfirmationModal.FirstAnswerAfter | components/confirmation-modal.tsx:17-26 | with t seconds shown, the t-th tick is the first to answer, and it answers yes |
| ConfirmationModal.AutoConfirmOnTenthTick | components/confirmation-modal.tsx:14-26 | from mounting, yes is reported on the tenth tick, none before |
| ConfirmationModal.Dialog.constructor | components/confirmation-modal.tsx:14 | ten seconds shown |
| ConfirmationModal.Dialog.Tick | components/confirmation-modal.tsx:17-26 | the new count and the answer are those of `Step` |
| ConfirmationModal.Dialog.No | components/confirmation-modal.tsx:63 | NO answers false |
| ConfirmationModal.Dialog.Yes | components/confirmation-modal.tsx:71 | YES answers true |

## Left out

- Database access: client creation, the queries and the updates. Query results and update
  outcomes are parameters (`fetchFailed`, `Fetch`, `Completion`). The rows are sequences.
- Timers: `setInterval` periods, the `setTimeout` pauses inside the handlers, and the
  gesture poller's settle delay. Each handler and each half-tick is one atomic step.
  React re-renders, stale closures and interleavings between the two pollers are not
  modelled.
- Speech synthesis (`playAudio`), console logging, `router.push`, and the random order
  number shown when the client id is empty.
- The clock: `lastPollTime` stores a `now` parameter.
- `JSON.parse`: an abstract `decode` parameter.
- OrderStringParser.ParseOrder: the record quantity is the number JavaScript compares with
  zero. The source pushes the raw field, which may be a numeric string such as "2"; the
  model keeps the compared number instead.
- OrderStringParser.ParseSimpleOrderString: its `catch` cannot be reached on any input and
  is not modelled.
- OrderPattern.Match: the search is exact for the documented shapes. It is not proved to
  agree with JavaScript's backtracking on every input.
- JsText.Lower: lower-casing maps the ASCII capitals only. JavaScript's `toLowerCase` also
  maps non-ASCII letters. Trimming (`JsText.Trim`) uses JavaScript's full white-space and
  line-terminator set, Unicode spaces included.
- JsText.DigitsValue: `parseInt` of a very long digit run loses precision in JavaScript.
  The model's integers are exact.
- OrderFlow.Subtotal and OrderFlow.Total: prices and totals are exact reals. IEEE rounding
  and the `toFixed(2)` display are not modelled.
- OrderFlow.GestureTick: the page's `handleCommand` never throws. So only a handler that
  returns is wired in; the thrown path is covered by `GesturePolling.ThrownCommandIsRetried`.
- ItemQuantityModal.Dialog.HandleQuantitySelect: the buttons offer 1 to 9, but the model
  accepts any integer, as the handler itself does.
- Render-only components (receipt panel, complete screen, item cards, other dialogs), the
  landing page's sensor polling, the sensor HTTP route and the serial/Bluetooth scripts are
  not part of this model. They hold no state beyond what they display.
