/**
 * The finalized-order poller (`useFinalizedOrderPolling`): every tick reads the newest row
 * of the strings table and, when its id differs from the last one taken, hands its content
 * to the page once. With `stopAfterProcessing` it stops after the first order handled until
 * `ResetPolling` re-arms it.
 *
 * As for the gesture poller, a tick is split at its `await` of the handler: `Poll` runs up
 * to the handler call, `HandlerDone` runs what follows. The clock reading stored in
 * `lastPollTime` is a parameter.
 */
module FinalizedOrderPolling {
  import opened Wrappers

  /** A row of the strings table, as far as the poller reads it. */
  datatype StringsRow = StringsRow(id: string, content: string, createdAt: int)

  /** What the query came back with. */
  datatype Fetch =
    | Fetched(rows: seq<StringsRow>)   // the rows, newest first or not: only the newest is used
    | FetchError                       // the query reported an error
    | FetchThrew                       // creating the client or the query threw

  /**
   * `ORDER BY created_at DESC LIMIT 1`: a row no other row is newer than (the earliest
   * listed among equally new rows), or none for an empty table.
   */
  function Newest(rows: seq<StringsRow>): (r: Option<StringsRow>)
    ensures r.None? <==> rows == []
    ensures r.Some? ==> r.value in rows && forall row :: row in rows ==> row.createdAt <= r.value.createdAt
  {
    if rows == [] then None
    else
      var rest := Newest(rows[1..]);
      assert forall row :: row in rows ==> row == rows[0] || row in rows[1..];
      if rest.None? || rest.value.createdAt <= rows[0].createdAt then Some(rows[0]) else rest
  }

  class FinalizedOrderPoller {
    const enabled: bool
    const stopAfterProcessing: bool
    var currentOrder: Option<string>
    var isProcessing: bool
    var lastPollTime: Option<int>
    var hasProcessedOrder: bool
    var lastProcessedId: Option<string>

    /** While an order is being handled, its content is shown and its id already recorded. */
    predicate Valid()
      reads this
    {
      isProcessing ==> currentOrder.Some? && lastProcessedId.Some?
    }

    /** The tick's guard: disabled, busy, or stopped after an order. */
    predicate Stopped()
      reads this
    {
      !enabled || isProcessing || (stopAfterProcessing && hasProcessedOrder)
    }

    constructor(enabled: bool, stopAfterProcessing: bool)
      ensures this.enabled == enabled && this.stopAfterProcessing == stopAfterProcessing
      ensures currentOrder.None? && !isProcessing && lastPollTime.None?
      ensures !hasProcessedOrder && lastProcessedId.None?
      ensures Valid()
    {
      this.enabled := enabled;
      this.stopAfterProcessing := stopAfterProcessing;
      currentOrder := None;
      isProcessing := false;
      lastPollTime := None;
      hasProcessedOrder := false;
      lastProcessedId := None;
    }

    /**
     * A tick, up to the handler call. A stopped poller, or a query that throws, changes
     * nothing. Otherwise the poll time is recorded; then, when the newest row's id is not
     * the last one taken, that id is recorded before the handler runs, the content is
     * shown, the poller is marked busy, and the content is returned for the handler.
     */
    method Poll(fetch: Fetch, now: int) returns (order: Option<string>)
      requires Valid()
      modifies this
      ensures Valid()
      ensures old(Stopped()) || fetch.FetchThrew? ==> order.None? && unchanged(this)
      ensures !old(Stopped()) && !fetch.FetchThrew? ==> lastPollTime == Some(now)
      ensures hasProcessedOrder == old(hasProcessedOrder)
      ensures
        var newest := if fetch.Fetched? then Newest(fetch.rows) else None;
        if !old(Stopped()) && newest.Some? && old(lastProcessedId) != Some(newest.value.id) then
          order == Some(newest.value.content)
          && currentOrder == order && isProcessing && lastProcessedId == Some(newest.value.id)
        else
          order.None?
          && currentOrder == old(currentOrder) && isProcessing == old(isProcessing)
          && lastProcessedId == old(lastProcessedId)
    {
      order := None;
      if !enabled || isProcessing || (stopAfterProcessing && hasProcessedOrder) {
        return;
      }
      match fetch
      case FetchThrew =>
        isProcessing := false;
      case FetchError =>
        lastPollTime := Some(now);
      case Fetched(rows) =>
        lastPollTime := Some(now);
        var newest := Newest(rows);
        if newest.Some? {
          var row := newest.value;
          if lastProcessedId != Some(row.id) {
            currentOrder := Some(row.content);
            isProcessing := true;
            lastProcessedId := Some(row.id);
            order := Some(row.content);
          }
        }
    }

    /**
     * The rest of the tick, after the handler. On success the poller records that an
     * order was handled and goes idle; when the handler throws it only goes idle: the
     * shown content stays, the id stays recorded, so that row is not taken again.
     */
    method HandlerDone(succeeded: bool)
      requires Valid() && isProcessing
      modifies this
      ensures Valid()
      ensures !isProcessing && lastProcessedId == old(lastProcessedId) && lastPollTime == old(lastPollTime)
      ensures succeeded ==> hasProcessedOrder && currentOrder.None?
      ensures !succeeded ==> hasProcessedOrder == old(hasProcessedOrder) && currentOrder == old(currentOrder)
    {
      if succeeded {
        hasProcessedOrder := true;
        currentOrder := None;
        isProcessing := false;
      } else {
        isProcessing := false;
      }
    }

    /** `resetPolling`: re-arms the poller and forgets the last id, so any row can be taken again. */
    method ResetPolling()
      requires Valid()
      modifies this
      ensures Valid()
      ensures !hasProcessedOrder && currentOrder.None? && !isProcessing && lastProcessedId.None?
      ensures lastPollTime == old(lastPollTime)
    {
      hasProcessedOrder := false;
      currentOrder := None;
      isProcessing := false;
      lastProcessedId := None;
    }
  }

  /**
   * Reset makes the newest row new again: an enabled poller that has been reset hands the
   * newest row's content to the handler on its next successful query, even if that very
   * row was handled before.
   */
  method ResetThenPoll(poller: FinalizedOrderPoller, rows: seq<StringsRow>, now: int)
    returns (order: Option<string>)
    requires poller.Valid() && poller.enabled && rows != []
    modifies poller
    ensures order == Some(Newest(rows).value.content)
    ensures poller.lastProcessedId == Some(Newest(rows).value.id) && poller.isProcessing
  {
    poller.ResetPolling();
    order := poller.Poll(Fetched(rows), now);
  }
}
