/**
 * The item quantity dialog (`components/item-quantity-modal.tsx`): a quantity prompt that
 * picks 1 by itself after ten seconds, then a confirmation prompt that confirms by itself
 * after ten more. The one-second interval is modelled as a tick; the `onConfirm` callback
 * as the quantity a tick or the "Yes" button reports.
 */
module ItemQuantityModal {
  import opened Wrappers

  datatype Prompt = QuantityPrompt | ConfirmPrompt

  /** The dialog's three state variables. */
  datatype ModalState = ModalState(quantity: int, prompt: Prompt, countdown: int)

  /** The state on mounting: quantity 1, the quantity prompt, ten seconds to go. */
  const Initial: ModalState := ModalState(1, QuantityPrompt, 10)

  /** The dialog never goes outside these bounds, and the quantity prompt always holds the default 1. */
  predicate ValidState(s: ModalState) {
    0 <= s.countdown <= 10 && (s.prompt == QuantityPrompt ==> s.quantity == 1)
  }

  /** What one tick does: the next state, and the quantity reported through `onConfirm`, if any. */
  datatype TickResult = TickResult(next: ModalState, fired: Option<int>)

  /**
   * The interval callback. Above one second it counts down. At one second or less the
   * quantity prompt turns into the confirmation prompt with ten fresh seconds; the
   * confirmation prompt reports the quantity and sets the countdown to zero.
   */
  function Step(s: ModalState): TickResult {
    if s.countdown <= 1 then
      if s.prompt == QuantityPrompt then TickResult(s.(prompt := ConfirmPrompt, countdown := 10), None)
      else TickResult(s.(countdown := 0), Some(s.quantity))
    else TickResult(s.(countdown := s.countdown - 1), None)
  }

  /** A quantity button: that quantity, the confirmation prompt, ten fresh seconds. */
  function Select(s: ModalState, quantity: int): ModalState {
    ModalState(quantity, ConfirmPrompt, 10)
  }

  /** The state after `n` ticks. */
  function After(s: ModalState, n: nat): ModalState {
    if n == 0 then s else Step(After(s, n - 1)).next
  }

  /** What the `n`-th tick (counting from 1) reports. */
  function FiredAt(s: ModalState, n: nat): Option<int>
    requires n >= 1
  {
    Step(After(s, n - 1)).fired
  }

  /** A tick keeps the dialog within its bounds and never changes the quantity. */
  lemma StepKeepsValid(s: ModalState)
    requires ValidState(s)
    ensures ValidState(Step(s).next) && Step(s).next.quantity == s.quantity
    ensures Step(s).fired.Some? ==> s.prompt == ConfirmPrompt && Step(s).fired == Some(s.quantity)
  {
  }

  /** Only the confirmation prompt reports, and only when its countdown has run out. */
  lemma FiresOnlyWhenConfirmRunsOut(s: ModalState)
    ensures Step(s).fired.Some? <==> s.prompt == ConfirmPrompt && s.countdown <= 1
  {
  }

  /** Selecting a quantity from a valid state leads to a valid state showing that quantity. */
  lemma SelectKeepsValid(s: ModalState, quantity: int)
    ensures ValidState(Select(s, quantity)) && Select(s, quantity).quantity == quantity
    ensures Select(s, quantity).prompt == ConfirmPrompt && Select(s, quantity).countdown == 10
  {
  }

  /** With more than `k` seconds left, `k` ticks only count down, and none of them reports. */
  lemma {:induction false} CountsDown(s: ModalState, k: nat)
    requires s.countdown > k
    ensures After(s, k) == s.(countdown := s.countdown - k)
    ensures forall j :: 1 <= j <= k ==> FiredAt(s, j).None?
  {
    if k > 0 {
      CountsDown(s, k - 1);
      assert After(s, k) == Step(After(s, k - 1)).next;
    }
  }

  /** From the confirmation prompt with ten seconds left, the tenth tick reports the quantity and none before it. */
  lemma {:induction false} ConfirmsOnTenthTick(s: ModalState)
    requires s.prompt == ConfirmPrompt && s.countdown == 10
    ensures forall j :: 1 <= j < 10 ==> FiredAt(s, j).None?
    ensures FiredAt(s, 10) == Some(s.quantity)
    ensures After(s, 10) == s.(countdown := 0)
  {
    CountsDown(s, 9);
  }

  /** A quantity picked with a button is reported on the tenth tick after it. */
  lemma SelectedQuantityConfirmedOnTenthTick(s: ModalState, quantity: int)
    ensures FiredAt(Select(s, quantity), 10) == Some(quantity)
    ensures forall j :: 1 <= j < 10 ==> FiredAt(Select(s, quantity), j).None?
  {
    ConfirmsOnTenthTick(Select(s, quantity));
  }

  /** `n` + `m` ticks are `n` ticks followed by `m` more. */
  lemma {:induction false} AfterAdd(s: ModalState, n: nat, m: nat)
    ensures After(s, n + m) == After(After(s, n), m)
  {
    if m > 0 {
      AfterAdd(s, n, m - 1);
    }
  }

  /** The `j`-th tick after `n` ticks is the `n + j`-th tick. */
  lemma ShiftFired(s: ModalState, n: nat, j: nat)
    requires j >= 1
    ensures FiredAt(s, n + j) == FiredAt(After(s, n), j)
  {
    var k: nat := j - 1;
    AfterAdd(s, n, k);
    assert After(s, n + j - 1) == After(After(s, n), k) by {
      assert n + j - 1 == n + k;
    }
  }

  /**
   * Left alone in the quantity prompt with ten seconds to go, the dialog reports its
   * quantity on the twentieth tick and not before: ten seconds of quantity prompt, then
   * ten of confirmation prompt.
   */
  lemma {:induction false} LeftAloneConfirmsOnTwentiethTick(s: ModalState)
    requires s.prompt == QuantityPrompt && s.countdown == 10
    ensures forall j :: 1 <= j < 20 ==> FiredAt(s, j).None?
    ensures FiredAt(s, 20) == Some(s.quantity)
  {
    CountsDown(s, 9);
    var confirm := After(s, 10);
    assert confirm == s.(prompt := ConfirmPrompt, countdown := 10);
    ConfirmsOnTenthTick(confirm);
    forall j | 10 < j <= 20
      ensures FiredAt(s, j) == FiredAt(confirm, j - 10)
    {
      ShiftFired(s, 10, j - 10);
    }
  }

  /** Untouched from mounting, the dialog reports the default quantity 1 on the twentieth tick and not before. */
  lemma DefaultConfirmedOnTwentiethTick()
    ensures forall j :: 1 <= j < 20 ==> FiredAt(Initial, j).None?
    ensures FiredAt(Initial, 20) == Some(1)
  {
    LeftAloneConfirmsOnTwentiethTick(Initial);
  }

  /**
   * Once the confirmation countdown has run out, every further tick reports the quantity
   * again: the interval keeps running until the dialog is removed.
   */
  lemma ReportsAgainAfterTimeout(s: ModalState)
    requires s.prompt == ConfirmPrompt && s.countdown <= 1
    ensures Step(s).fired == Some(s.quantity)
    ensures Step(Step(s).next).fired == Some(s.quantity)
  {
  }

  /** The dialog as a component: its state variables and its handlers. */
  class Dialog {
    var quantity: int
    var prompt: Prompt
    var countdown: int

    function State(): ModalState
      reads this
    {
      ModalState(quantity, prompt, countdown)
    }

    /** The state variables stay within the bounds of `ValidState`. */
    predicate Valid()
      reads this
    {
      ValidState(State())
    }

    constructor()
      ensures State() == Initial && Valid()
    {
      quantity := 1;
      prompt := QuantityPrompt;
      countdown := 10;
    }

    /** One second of the interval; returns the quantity passed to `onConfirm`, if any. */
    method Tick() returns (fired: Option<int>)
      requires Valid()
      modifies this
      ensures Valid()
      ensures TickResult(State(), fired) == Step(old(State()))
    {
      StepKeepsValid(State());
      fired := None;
      var prev := countdown;
      if prev <= 1 {
        if prompt == QuantityPrompt {
          prompt := ConfirmPrompt;
          countdown := 10;
        } else {
          fired := Some(quantity);
          countdown := 0;
        }
      } else {
        countdown := prev - 1;
      }
    }

    /** `handleQuantitySelect`. */
    method HandleQuantitySelect(qty: int)
      requires Valid()
      modifies this
      ensures Valid()
      ensures State() == Select(old(State()), qty)
    {
      quantity := qty;
      prompt := ConfirmPrompt;
      countdown := 10;
    }

    /** `handleConfirm` ("Yes, Add It"): reports the quantity shown, changing nothing. */
    method HandleConfirm() returns (confirmed: int)
      ensures confirmed == quantity
    {
      confirmed := quantity;
    }
  }
}
