/**
 * The trade-selection loop run while a villager's trading window is open.
 *
 * Offers are examined by index. A disabled offer is skipped. The first enabled
 * offer whose first input costs more emeralds than the bot holds ends the loop,
 * whatever its output. An enabled, affordable offer is traded when its output
 * is wanted; a failed trade is logged and the loop goes on.
 *
 * Two things the game supplies are inputs here: whether each trade succeeds,
 * and how the emerald count changes. A successful trade is taken to spend its
 * first input's count of emeralds; a failed one spends nothing.
 */
module Trading {
  import opened Wrappers
  import opened Items
  import Text

  /** A villager trade slot: `disabled`, `inputItem1?.count` and `outputItem?.name`. */
  datatype Offer = Offer(disabled: bool, inputCount: Option<nat>, outputName: Option<string>)

  /** `trade.inputItem1?.count || 0`: a missing first input costs nothing. */
  function Cost(o: Offer): nat {
    o.inputCount.GetOr(0)
  }

  /** `trade.outputItem?.name || ''`. */
  function Sell(o: Offer): string {
    o.outputName.GetOr("")
  }

  /** What one iteration of the loop does with one offer. */
  datatype Step =
    | Disabled          // `continue`
    | OutOfEmeralds     // `break`: the loop ends here
    | NotWanted         // enabled and affordable, output not wanted
    | Traded(ok: bool)  // `bot.trade` called; `ok` says whether it succeeded

  /** The step taken for offer `o` when the bot holds `balance` emeralds. */
  function StepFor(o: Offer, ok: bool, balance: int): Step {
    if o.disabled then Disabled
    else if balance < Cost(o) then OutOfEmeralds
    else if !Wanted(Sell(o)) then NotWanted
    else Traded(ok)
  }

  /** Emeralds spent by the successful trades of a run's first `|trace|` steps. */
  function Spent(offers: seq<Offer>, trace: seq<Step>): int
    requires |trace| <= |offers|
    decreases |trace|
  {
    if |trace| == 0 then 0
    else
      var n := |trace| - 1;
      Spent(offers, trace[..n]) + (if trace[n] == Traded(true) then Cost(offers[n]) else 0)
  }

  /** Emeralds held when the loop reaches offer `j`. */
  function BalanceAt(offers: seq<Offer>, trace: seq<Step>, emeralds: nat, j: nat): int
    requires j <= |trace| <= |offers|
  {
    emeralds - Spent(offers, trace[..j])
  }

  /**
   * `trace` is the record of one run of the loop over `offers`, starting with
   * `emeralds`, where `outcomes[j]` says whether trading offer `j` succeeds:
   * every step is the one `StepFor` prescribes at the balance of that moment,
   * only the last step may end the loop, and the loop covers every offer unless
   * it ended early.
   */
  predicate IsTradeRun(offers: seq<Offer>, outcomes: seq<bool>, emeralds: nat, trace: seq<Step>)
    requires |outcomes| == |offers|
  {
    && |trace| <= |offers|
    && (forall j :: 0 <= j < |trace| ==>
          trace[j] == StepFor(offers[j], outcomes[j], BalanceAt(offers, trace, emeralds, j)))
    && (forall j :: 0 <= j < |trace| - 1 ==> trace[j] != OutOfEmeralds)
    && (|trace| < |offers| ==> |trace| > 0 && trace[|trace| - 1] == OutOfEmeralds)
  }

  lemma SpentPrefix(offers: seq<Offer>, trace: seq<Step>, s: Step)
    requires |trace| < |offers|
    ensures Spent(offers, trace + [s])
         == Spent(offers, trace) + (if s == Traded(true) then Cost(offers[|trace|]) else 0)
  {
    assert (trace + [s])[..|trace|] == trace;
  }

  /** Appending a step leaves the balance at every earlier offer as it was. */
  lemma BalanceExtend(offers: seq<Offer>, trace: seq<Step>, s: Step, emeralds: nat)
    requires |trace| < |offers|
    ensures forall j :: 0 <= j <= |trace| ==>
              BalanceAt(offers, trace + [s], emeralds, j) == BalanceAt(offers, trace, emeralds, j)
  {
    forall j | 0 <= j <= |trace|
      ensures BalanceAt(offers, trace + [s], emeralds, j) == BalanceAt(offers, trace, emeralds, j)
    {
      assert (trace + [s])[..j] == trace[..j];
    }
  }

  /**
   * The loop of `tradeWithVillager`: `trace` records what happened to each
   * offer it reached and `left` is the emerald count afterwards.
   */
  method TradeLoop(offers: seq<Offer>, outcomes: seq<bool>, emeralds: nat) returns (trace: seq<Step>, left: nat)
    requires |outcomes| == |offers|
    ensures IsTradeRun(offers, outcomes, emeralds, trace)
    ensures left as int == emeralds - Spent(offers, trace)
  {
    trace, left := [], emeralds;
    var i := 0;
    while i < |offers|
      invariant 0 <= i <= |offers| && |trace| == i
      invariant forall j :: 0 <= j < i ==>
                  trace[j] == StepFor(offers[j], outcomes[j], BalanceAt(offers, trace, emeralds, j))
      invariant forall j :: 0 <= j < i ==> trace[j] != OutOfEmeralds
      invariant left as int == emeralds - Spent(offers, trace)
    {
      var o := offers[i];
      var step;
      if o.disabled {
        step := Disabled;
      } else if left < Cost(o) {
        step := OutOfEmeralds;
      } else if !Wanted(Sell(o)) {
        step := NotWanted;
      } else {
        step := Traded(outcomes[i]);
      }
      assert step == StepFor(o, outcomes[i], left);
      SpentPrefix(offers, trace, step);
      BalanceExtend(offers, trace, step, emeralds);
      trace := trace + [step];
      if step == OutOfEmeralds {
        break;
      }
      if step == Traded(true) {
        left := left - Cost(o);
      }
      i := i + 1;
    }
  }

  /** A run is determined by its inputs: two runs over the same offers and outcomes agree. */
  lemma TradeRunUnique(offers: seq<Offer>, outcomes: seq<bool>, emeralds: nat, t1: seq<Step>, t2: seq<Step>)
    requires |outcomes| == |offers|
    requires IsTradeRun(offers, outcomes, emeralds, t1) && IsTradeRun(offers, outcomes, emeralds, t2)
    ensures t1 == t2
  {
    var m := if |t1| <= |t2| then |t1| else |t2|;
    RunsAgree(offers, outcomes, emeralds, t1, t2, m);
    assert t1 == t1[..m] == t2[..m] == t2;
  }

  lemma {:induction false} RunsAgree(offers: seq<Offer>, outcomes: seq<bool>, emeralds: nat, t1: seq<Step>, t2: seq<Step>, k: nat)
    requires |outcomes| == |offers|
    requires IsTradeRun(offers, outcomes, emeralds, t1) && IsTradeRun(offers, outcomes, emeralds, t2)
    requires k <= |t1| && k <= |t2|
    ensures t1[..k] == t2[..k]
    decreases k
  {
    if k > 0 {
      var j := k - 1;
      RunsAgree(offers, outcomes, emeralds, t1, t2, j);
      assert t1[..j] == t2[..j];
      assert BalanceAt(offers, t1, emeralds, j) == BalanceAt(offers, t2, emeralds, j);
      assert t1[j] == t2[j];
      assert t1[..k] == t1[..j] + [t1[j]];
      assert t2[..k] == t2[..j] + [t2[j]];
    }
  }

  /**
   * The balance never goes negative: every traded offer was affordable when it
   * was traded, so the emeralds spent up to any point never exceed the start.
   */
  lemma {:induction false} SpentWithinBalance(offers: seq<Offer>, outcomes: seq<bool>, emeralds: nat, trace: seq<Step>, j: nat)
    requires |outcomes| == |offers|
    requires IsTradeRun(offers, outcomes, emeralds, trace)
    requires j <= |trace|
    ensures 0 <= Spent(offers, trace[..j]) <= emeralds
    decreases j
  {
    if j > 0 {
      var i := j - 1;
      SpentWithinBalance(offers, outcomes, emeralds, trace, i);
      assert trace[..j][..i] == trace[..i];
      assert trace[i] == StepFor(offers[i], outcomes[i], BalanceAt(offers, trace, emeralds, i));
    }
  }

  /**
   * What a run promises about each offer: it is traded exactly when it is
   * enabled, affordable at that point and wanted; the loop ends at the first
   * enabled offer that is unaffordable, so no later offer is reached even if it
   * would be affordable; and a failed trade does not end the loop.
   */
  lemma TradeRunFacts(offers: seq<Offer>, outcomes: seq<bool>, emeralds: nat, trace: seq<Step>)
    requires |outcomes| == |offers|
    requires IsTradeRun(offers, outcomes, emeralds, trace)
    ensures forall j :: 0 <= j < |trace| ==>
              (trace[j].Traded? <==> !offers[j].disabled && Wanted(Sell(offers[j]))
                                     && Cost(offers[j]) <= BalanceAt(offers, trace, emeralds, j))
    ensures forall j :: 0 <= j < |trace| && trace[j].Traded? ==> trace[j].ok == outcomes[j]
    ensures forall j :: 0 <= j < |trace| && !offers[j].disabled && BalanceAt(offers, trace, emeralds, j) < Cost(offers[j])
              ==> |trace| == j + 1
    ensures forall j :: 0 <= j < |trace| && trace[j] == Traded(false) && j + 1 < |offers| ==> j + 1 < |trace|
  {
  }

  /** The session's outcome, seen from `tradeWithVillager`. */
  datatype Session =
    | NoWindow                                                 // the trading window did not open
    | NoTrades                                                 // the villager offers nothing
    | Finished(trace: seq<Step>, left: nat, deposits: bool)    // the loop ran; `deposits` says whether `depositItems` follows

  /**
   * `tradeWithVillager`: `window` is the offer list of the opened window, or
   * `None` when it failed to open. An empty offer list closes the window and
   * returns without depositing; otherwise the loop runs, and the deposit
   * follows exactly when a deposit chest is set.
   */
  method TradeWithVillager(window: Option<seq<Offer>>, outcomes: seq<bool>, emeralds: nat, depositChestSet: bool)
    returns (s: Session)
    requires window.Some? ==> |outcomes| == |window.value|
    ensures window.None? <==> s == NoWindow
    ensures window == Some([]) <==> s == NoTrades
    ensures s.Finished? ==>
              && window.Some?
              && IsTradeRun(window.value, outcomes, emeralds, s.trace)
              && s.left as int == emeralds - Spent(window.value, s.trace)
              && s.deposits == depositChestSet
  {
    if window.None? {
      return NoWindow;
    }
    var offers := window.value;
    if |offers| == 0 {
      return NoTrades;
    }
    var trace, left := TradeLoop(offers, outcomes, emeralds);
    s := Finished(trace, left, depositChestSet);
  }

  /**
   * The short-circuit: offers [affordable and wanted, unaffordable, affordable
   * and wanted] with 10 emeralds covering only the first. The loop trades the
   * first, stops at the second and never reaches the third.
   */
  lemma ShortCircuitExample(outcomes: seq<bool>, trace: seq<Step>)
    requires |outcomes| == 3
    requires IsTradeRun([Offer(false, Some(5), Some("glass")), Offer(false, Some(20), Some("glass")),
                         Offer(false, Some(1), Some("glass"))], outcomes, 10, trace)
    ensures trace == [Traded(outcomes[0]), OutOfEmeralds]
  {
    var offers := [Offer(false, Some(5), Some("glass")), Offer(false, Some(20), Some("glass")),
                   Offer(false, Some(1), Some("glass"))];
    var expected := [Traded(outcomes[0]), OutOfEmeralds];
    assert Wanted("glass") by { assert Text.IsPrefix("glass", "glass"); }
    assert expected[..1] == [Traded(outcomes[0])];
    assert Spent(offers, expected[..1]) == (if outcomes[0] then 5 else 0);
    assert IsTradeRun(offers, outcomes, 10, expected);
    TradeRunUnique(offers, outcomes, 10, trace, expected);
  }

  /** A single affordable bottle offer with 10 emeralds: one trade, 5 emeralds left. */
  lemma SingleTradeExample(trace: seq<Step>)
    requires IsTradeRun([Offer(false, Some(5), Some("experience_bottle"))], [true], 10, trace)
    ensures trace == [Traded(true)]
    ensures 10 - Spent([Offer(false, Some(5), Some("experience_bottle"))], trace) == 5
  {
    var offers := [Offer(false, Some(5), Some("experience_bottle"))];
    assert Wanted("experience_bottle") by { assert Text.IsPrefix("experience_bottle", "experience_bottle"); }
    assert IsTradeRun(offers, [true], 10, [Traded(true)]);
    TradeRunUnique(offers, [true], 10, trace, [Traded(true)]);
    assert trace[..0] == [];
  }
}
