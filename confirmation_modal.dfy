/**
 * The item confirmation dialog (`components/confirmation-modal.tsx`): "Did you want this?"
 * with YES and NO buttons and a ten-second countdown that answers YES by itself. The
 * one-second interval is modelled as a tick; the `onConfirm` callback as the answer a tick
 * or a button reports.
 */
module ConfirmationModal {
  import opened Wrappers

  /** Seconds shown on mounting. */
  const InitialTimeLeft: int := 10

  /** What one tick does: the seconds left afterwards, and the answer reported, if any. */
  datatype TickResult = TickResult(timeLeft: int, fired: Option<bool>)

  /** The interval callback: above one second it counts down; otherwise it answers YES and shows zero. */
  function Step(timeLeft: int): TickResult {
    if timeLeft <= 1 then TickResult(0, Some(true)) else TickResult(timeLeft - 1, None)
  }

  /** The seconds left after `n` ticks. */
  function After(timeLeft: int, n: nat): int {
    if n == 0 then timeLeft else Step(After(timeLeft, n - 1)).timeLeft
  }

  /** What the `n`-th tick (counting from 1) reports. */
  function FiredAt(timeLeft: int, n: nat): Option<bool>
    requires n >= 1
  {
    Step(After(timeLeft, n - 1)).fired
  }

  /** A tick only ever answers YES, it answers exactly when at most one second is left, and the count never goes below zero. */
  lemma StepAnswersYes(timeLeft: int)
    requires timeLeft >= 0
    ensures Step(timeLeft).fired.Some? <==> timeLeft <= 1
    ensures Step(timeLeft).fired.Some? ==> Step(timeLeft).fired == Some(true)
    ensures 0 <= Step(timeLeft).timeLeft < timeLeft || timeLeft == 0
  {
  }

  /** With more than `k` seconds left, `k` ticks count down by `k` and none of them answers. */
  lemma {:induction false} CountsDown(timeLeft: int, k: nat)
    requires timeLeft > k
    ensures After(timeLeft, k) == timeLeft - k
    ensures forall j :: 1 <= j <= k ==> FiredAt(timeLeft, j).None?
  {
    if k > 0 {
      CountsDown(timeLeft, k - 1);
    }
  }

  /** With `t` seconds shown (`t` at least 1), the `t`-th tick is the first to answer, and it answers YES. */
  lemma {:induction false} FirstAnswerAfter(t: int)
    requires t >= 1
    ensures forall j :: 1 <= j < t ==> FiredAt(t, j).None?
    ensures FiredAt(t, t) == Some(true)
    ensures After(t, t) == 0
  {
    CountsDown(t, t - 1);
  }

  /** From mounting, YES is reported on the tenth tick and not before. */
  lemma AutoConfirmOnTenthTick()
    ensures forall j :: 1 <= j < 10 ==> FiredAt(InitialTimeLeft, j).None?
    ensures FiredAt(InitialTimeLeft, 10) == Some(true)
  {
    FirstAnswerAfter(InitialTimeLeft);
  }

  /** The dialog as a component: its countdown and its handlers. */
  class Dialog {
    var timeLeft: int

    constructor()
      ensures timeLeft == InitialTimeLeft
    {
      timeLeft := InitialTimeLeft;
    }

    /** One second of the interval; returns the answer passed to `onConfirm`, if any. */
    method Tick() returns (fired: Option<bool>)
      modifies this
      ensures TickResult(timeLeft, fired) == Step(old(timeLeft))
    {
      fired := None;
      var prev := timeLeft;
      if prev <= 1 {
        fired := Some(true);
        timeLeft := 0;
      } else {
        timeLeft := prev - 1;
      }
    }

    /** The NO button: answers no, whatever the countdown shows. */
    method No() returns (confirmed: bool)
      ensures !confirmed
    {
      confirmed := false;
    }

    /** The YES button: answers yes, whatever the countdown shows. */
    method Yes() returns (confirmed: bool)
      ensures confirmed
    {
      confirmed := true;
    }
  }
}
