/**
 * The gesture-command poller (`useGesturePolling`): every tick asks the command table for
 * the unprocessed row with the smallest id above the last one consumed, hands its command
 * to the page, marks the row processed and remembers its id. A latch keeps ticks from
 * overlapping while a command is being handled.
 *
 * One tick is split at its `await` of the handler: `Poll` runs up to the handler call and
 * returns the command to hand over, `Complete` runs what follows once the handler is done.
 */
module GesturePolling {
  import opened Wrappers

  /** A row of the command table: primary key, gesture token, processed flag. */
  datatype CommandRow = CommandRow(id: int, command: string, processed: bool)

  /** The query's filter: not yet processed, and newer than the last row consumed. */
  predicate Eligible(row: CommandRow, lastProcessedId: int) {
    !row.processed && row.id > lastProcessedId
  }

  /**
   * The query `processed = false AND id > lastProcessedId ORDER BY id LIMIT 1`: the eligible
   * row with the smallest id (the earliest such row when ids repeat), or none.
   */
  function NextRow(rows: seq<CommandRow>, lastProcessedId: int): (r: Option<CommandRow>)
    ensures r.Some? ==> r.value in rows && Eligible(r.value, lastProcessedId)
    ensures r.Some? ==> forall row :: row in rows && Eligible(row, lastProcessedId) ==> r.value.id <= row.id
    ensures r.None? <==> forall row :: row in rows ==> !Eligible(row, lastProcessedId)
  {
    if rows == [] then None
    else
      var rest := NextRow(rows[1..], lastProcessedId);
      assert forall row :: row in rows ==> row == rows[0] || row in rows[1..];
      if Eligible(rows[0], lastProcessedId) && (rest.None? || rows[0].id <= rest.value.id) then Some(rows[0])
      else rest
  }

  /** The update `SET processed = true WHERE id = id`. */
  function MarkProcessed(rows: seq<CommandRow>, id: int): (r: seq<CommandRow>)
    ensures |r| == |rows|
    ensures forall j :: 0 <= j < |rows| ==>
      r[j] == if rows[j].id == id then rows[j].(processed := true) else rows[j]
  {
    seq(|rows|, j requires 0 <= j < |rows| => if rows[j].id == id then rows[j].(processed := true) else rows[j])
  }

  /** The table's primary key: no two rows share an id. */
  predicate IdsUnique(rows: seq<CommandRow>) {
    forall i, j :: 0 <= i < j < |rows| ==> rows[i].id != rows[j].id
  }

  /**
   * With unique ids, marking a row touches that row and no other: every other row, and the
   * marked row's id and command, are as they were.
   */
  lemma MarkProcessedOnlyThatRow(rows: seq<CommandRow>, k: nat)
    requires IdsUnique(rows) && k < |rows|
    ensures MarkProcessed(rows, rows[k].id)[k] == rows[k].(processed := true)
    ensures forall j :: 0 <= j < |rows| && j != k ==> MarkProcessed(rows, rows[k].id)[j] == rows[j]
  {
    forall j | 0 <= j < |rows| && j != k
      ensures MarkProcessed(rows, rows[k].id)[j] == rows[j]
    {
      if j < k {
        assert rows[j].id != rows[k].id;
      } else {
        assert rows[k].id != rows[j].id;
      }
    }
  }

  /**
   * Whether the update took effect or not, the next query selects the same row: the
   * consumed row is filtered out by its id alone. This is why leaving the update's result
   * unchecked never makes a command run twice.
   */
  lemma {:induction false} MarkingDoesNotChangeNext(rows: seq<CommandRow>, id: int)
    ensures NextRow(MarkProcessed(rows, id), id) == NextRow(rows, id)
  {
    if rows != [] {
      var marked := MarkProcessed(rows, id);
      assert marked[1..] == MarkProcessed(rows[1..], id);
      MarkingDoesNotChangeNext(rows[1..], id);
      assert Eligible(marked[0], id) == Eligible(rows[0], id);
    }
  }

  /** The gesture command table: the rows `Complete` updates in place. */
  class CommandTable {
    var rows: seq<CommandRow>

    constructor(rows0: seq<CommandRow>)
      ensures rows == rows0
    {
      rows := rows0;
    }
  }

  /** How the work after the handler call ended. */
  datatype Completion =
    | Handled(updateApplied: bool)   // the handler returned; the update applied or reported an error
    | Threw                          // the handler or the update threw

  /** The hook's state: its two state variables, the processing latch and the row in hand. */
  class GesturePoller {
    const enabled: bool
    var currentCommand: string
    var isProcessing: bool
    var lastProcessedId: int
    var processingRef: bool
    /** The row fetched by the tick in progress (the `commandRow` the tick holds on to). */
    var pending: Option<CommandRow>

    /**
     * The latch is set exactly while a tick is between its handler call and its end, the
     * displayed flag follows it, and the row in hand is newer than the last one consumed.
     */
    predicate Valid()
      reads this
    {
      && (processingRef <==> pending.Some?)
      && (processingRef ==> isProcessing)
      && (pending.Some? ==> pending.value.id > lastProcessedId)
    }

    constructor(enabled: bool)
      ensures this.enabled == enabled
      ensures currentCommand == "" && !isProcessing && lastProcessedId == 0
      ensures !processingRef && pending.None?
      ensures Valid()
    {
      this.enabled := enabled;
      currentCommand := "";
      isProcessing := false;
      lastProcessedId := 0;
      processingRef := false;
      pending := None;
    }

    /**
     * A tick, up to the handler call. Nothing happens when the poller is disabled, while
     * the latch is set, when the query fails or when it finds no row; otherwise the latch
     * is set, the command is shown and returned for the handler, and the row is held.
     */
    method Poll(table: CommandTable, fetchFailed: bool) returns (command: Option<string>)
      requires Valid()
      modifies this
      ensures Valid()
      ensures
        var next := NextRow(table.rows, old(lastProcessedId));
        if !enabled || old(processingRef) || fetchFailed || next.None? then
          command.None?
          && currentCommand == old(currentCommand) && isProcessing == old(isProcessing)
          && processingRef == old(processingRef) && pending == old(pending)
        else
          command == Some(next.value.command) && pending == Some(next.value)
          && processingRef && isProcessing && currentCommand == next.value.command
      ensures lastProcessedId == old(lastProcessedId)
    {
      command := None;
      if !enabled || processingRef {
        return;
      }
      if fetchFailed {
        return;
      }
      var next := NextRow(table.rows, lastProcessedId);
      if next.Some? {
        var commandRow := next.value;
        processingRef := true;
        isProcessing := true;
        currentCommand := commandRow.command;
        pending := Some(commandRow);
        command := Some(commandRow.command);
      }
    }

    /**
     * The rest of the tick, after the handler. When the handler returns, the row is marked
     * (unless the update reports an error, which goes unchecked), its id becomes
     * `lastProcessedId` and the latch and the shown command are cleared. When something
     * throws, only the latch is cleared: the row stays unprocessed and its id is not
     * recorded, so the next tick fetches it again.
     */
    method Complete(table: CommandTable, completion: Completion)
      requires Valid() && pending.Some?
      modifies this, table
      ensures Valid()
      ensures !processingRef && !isProcessing && pending.None?
      ensures completion.Handled? ==>
        && table.rows == (if completion.updateApplied then MarkProcessed(old(table.rows), old(pending).value.id)
                          else old(table.rows))
        && lastProcessedId == old(pending).value.id
        && lastProcessedId > old(lastProcessedId)
        && currentCommand == ""
      ensures completion.Threw? ==>
        && table.rows == old(table.rows)
        && lastProcessedId == old(lastProcessedId)
        && currentCommand == old(currentCommand)
    {
      var commandRow := pending.value;
      pending := None;
      match completion
      case Handled(updateApplied) =>
        if updateApplied {
          table.rows := MarkProcessed(table.rows, commandRow.id);
        }
        lastProcessedId := commandRow.id;
        processingRef := false;
        isProcessing := false;
        currentCommand := "";
      case Threw =>
        processingRef := false;
        isProcessing := false;
    }
  }

  /**
   * A command whose handling throws is handed over again by the next tick: the failed
   * tick leaves the table and `lastProcessedId` as they were, so the query finds the
   * same row.
   */
  method ThrownCommandIsRetried(poller: GesturePoller, table: CommandTable)
    returns (first: Option<string>, second: Option<string>)
    requires poller.Valid() && poller.enabled && !poller.processingRef
    requires NextRow(table.rows, poller.lastProcessedId).Some?
    modifies poller, table
    ensures first.Some? && second == first
    ensures first == Some(NextRow(old(table.rows), old(poller.lastProcessedId)).value.command)
  {
    first := poller.Poll(table, false);
    poller.Complete(table, Threw);
    second := poller.Poll(table, false);
  }
}
