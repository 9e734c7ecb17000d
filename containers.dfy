/**
 * Chest interactions: depositing the wanted items into the deposit chest and
 * topping emeralds up from the refill chest. A chest is modelled by its
 * contents, or `None` when its block is not found or it fails to open; each
 * transfer's success is an input.
 */
module Containers {
  import opened Wrappers
  import opened Items
  import opened Bounds

  // ---------------------------------------------------------------------------
  // depositItems
  // ---------------------------------------------------------------------------

  /** Stack `s` leaves the inventory when its name is wanted and its transfer succeeds. */
  predicate Moves(s: Stack, ok: bool) {
    Wanted(s.name) && ok
  }

  /** The stacks left in the inventory, in their order. */
  function Kept(inventory: seq<Stack>, outcomes: seq<bool>): (r: seq<Stack>)
    requires |outcomes| == |inventory|
    ensures forall s :: s in r ==> s in inventory
    decreases |inventory|
  {
    if |inventory| == 0 then []
    else
      var n := |inventory| - 1;
      Kept(inventory[..n], outcomes[..n]) + (if Moves(inventory[n], outcomes[n]) then [] else [inventory[n]])
  }

  /** The stacks transferred into the chest, whole, in inventory order. */
  function Moved(inventory: seq<Stack>, outcomes: seq<bool>): (r: seq<Stack>)
    requires |outcomes| == |inventory|
    ensures forall s :: s in r ==> s in inventory && Wanted(s.name)
    decreases |inventory|
  {
    if |inventory| == 0 then []
    else
      var n := |inventory| - 1;
      Moved(inventory[..n], outcomes[..n]) + (if Moves(inventory[n], outcomes[n]) then [inventory[n]] else [])
  }

  datatype DepositReport =
    | ChestUnavailable   // block not found or chest failed to open
    | NothingDeposited   // "No items to deposit"
    | Deposited          // at least one stack went in

  /**
   * `depositItems`: over a snapshot of the inventory, every stack whose name is
   * wanted is deposited with its full count; `outcomes[k]` says whether the
   * deposit of stack `k` succeeds, and a failure does not stop the loop. The
   * report says "nothing deposited" exactly when no deposit succeeded.
   */
  method DepositItems(inventory: seq<Stack>, chest: Option<seq<Stack>>, outcomes: seq<bool>)
    returns (inventory': seq<Stack>, chest': Option<seq<Stack>>, report: DepositReport)
    requires |outcomes| == |inventory|
    ensures chest.None? ==> inventory' == inventory && chest' == None && report == ChestUnavailable
    ensures chest.Some? ==> inventory' == Kept(inventory, outcomes)
    ensures chest.Some? ==> chest' == Some(chest.value + Moved(inventory, outcomes))
    ensures chest.Some? ==> report != ChestUnavailable
    ensures report == Deposited <==> chest.Some? && exists k :: 0 <= k < |inventory| && Moves(inventory[k], outcomes[k])
  {
    if chest.None? {
      return inventory, None, ChestUnavailable;
    }
    var kept, moved, deposited := [], [], false;
    for k := 0 to |inventory|
      invariant kept == Kept(inventory[..k], outcomes[..k])
      invariant moved == Moved(inventory[..k], outcomes[..k])
      invariant deposited <==> exists j :: 0 <= j < k && Moves(inventory[j], outcomes[j])
    {
      assert inventory[..k + 1][..k] == inventory[..k];
      assert outcomes[..k + 1][..k] == outcomes[..k];
      var item := inventory[k];
      if Wanted(item.name) && outcomes[k] {
        moved := moved + [item];
        deposited := true;
      } else {
        kept := kept + [item];
      }
    }
    assert inventory[..|inventory|] == inventory;
    assert outcomes[..|outcomes|] == outcomes;
    inventory', chest' := kept, Some(chest.value + moved);
    report := if deposited then Deposited else NothingDeposited;
  }

  /** Every stack ends up either kept or moved: the count of every item is split between the two. */
  lemma {:induction false} KeptMovedSplit(inventory: seq<Stack>, outcomes: seq<bool>, name: string)
    requires |outcomes| == |inventory|
    ensures CountOf(Kept(inventory, outcomes), name) + CountOf(Moved(inventory, outcomes), name)
         == CountOf(inventory, name)
    decreases |inventory|
  {
    if |inventory| > 0 {
      var n := |inventory| - 1;
      var s := inventory[n];
      var k0, m0 := Kept(inventory[..n], outcomes[..n]), Moved(inventory[..n], outcomes[..n]);
      var kTail: seq<Stack> := if Moves(s, outcomes[n]) then [] else [s];
      var mTail: seq<Stack> := if Moves(s, outcomes[n]) then [s] else [];
      assert Kept(inventory, outcomes) == k0 + kTail;
      assert Moved(inventory, outcomes) == m0 + mTail;
      KeptMovedSplit(inventory[..n], outcomes[..n], name);
      CountOfAppend(k0, kTail, name);
      CountOfAppend(m0, mTail, name);
      assert CountOf([s], name) == (if s.name == name then s.count else 0) by {
        assert [s][..0] == [];
      }
      assert CountOf(kTail, name) + CountOf(mTail, name) == CountOf([s], name);
    }
  }

  /** A deposit neither creates nor destroys items: inventory plus chest is the same before and after. */
  lemma DepositConserves(inventory: seq<Stack>, chest: seq<Stack>, outcomes: seq<bool>, name: string)
    requires |outcomes| == |inventory|
    ensures CountOf(Kept(inventory, outcomes), name) + CountOf(chest + Moved(inventory, outcomes), name)
         == CountOf(inventory, name) + CountOf(chest, name)
  {
    KeptMovedSplit(inventory, outcomes, name);
    CountOfAppend(chest, Moved(inventory, outcomes), name);
  }

  /** Items whose names are not wanted are never moved: their counts stay as they were. */
  lemma UnwantedUntouched(inventory: seq<Stack>, outcomes: seq<bool>, name: string)
    requires |outcomes| == |inventory|
    requires !Wanted(name)
    ensures CountOf(Kept(inventory, outcomes), name) == CountOf(inventory, name)
  {
    KeptMovedSplit(inventory, outcomes, name);
    var m := Moved(inventory, outcomes);
    assert forall k :: 0 <= k < |m| ==> m[k].name != name by {
      forall k | 0 <= k < |m| ensures m[k].name != name {
        assert m[k] in m;
      }
    }
  }

  /** Exactly the stacks that do not move stay, in their order. */
  lemma {:induction false} KeptIsFilter(inventory: seq<Stack>, outcomes: seq<bool>, s: Stack)
    requires |outcomes| == |inventory|
    ensures s in Kept(inventory, outcomes) <==>
              exists k :: 0 <= k < |inventory| && inventory[k] == s && !Moves(s, outcomes[k])
    decreases |inventory|
  {
    if |inventory| > 0 {
      var n := |inventory| - 1;
      KeptIsFilter(inventory[..n], outcomes[..n], s);
      if exists k :: 0 <= k < n && inventory[..n][k] == s && !Moves(s, outcomes[..n][k]) {
        var k :| 0 <= k < n && inventory[..n][k] == s && !Moves(s, outcomes[..n][k]);
        assert inventory[k] == s && outcomes[k] == outcomes[..n][k];
      }
      if k :| 0 <= k < |inventory| && inventory[k] == s && !Moves(s, outcomes[k]) {
        if k < n {
          assert inventory[..n][k] == s && outcomes[..n][k] == outcomes[k];
        }
      }
    }
  }

  /** When every transfer succeeds, no wanted item is left in the inventory. */
  lemma {:induction false} AllDepositedWhenAllSucceed(inventory: seq<Stack>, outcomes: seq<bool>, name: string)
    requires |outcomes| == |inventory|
    requires forall k :: 0 <= k < |outcomes| ==> outcomes[k]
    requires Wanted(name)
    ensures CountOf(Kept(inventory, outcomes), name) == 0
    decreases |inventory|
  {
    if |inventory| > 0 {
      var n := |inventory| - 1;
      AllDepositedWhenAllSucceed(inventory[..n], outcomes[..n], name);
      var s := inventory[n];
      var kept := Kept(inventory[..n], outcomes[..n]);
      assert outcomes[n];
      if s.name == name {
        assert Moves(s, outcomes[n]);
        assert Kept(inventory, outcomes) == kept + [] == kept;
      } else {
        var tail: seq<Stack> := if Moves(s, outcomes[n]) then [] else [s];
        assert Kept(inventory, outcomes) == kept + tail;
        CountOfAppend(kept, tail, name);
        assert [s][..0] == [];
        assert CountOf(tail, name) == 0;
      }
    }
  }

  // ---------------------------------------------------------------------------
  // refillEmeralds
  // ---------------------------------------------------------------------------

  /** Emerald count below which a refill is attempted. */
  const LowWater: nat := 16

  /** Emerald count a refill tops up to and never exceeds. */
  const Cap: nat := 64

  /** `stacks.find(i => i.name === name)`, as the index of the first stack so named. */
  function FindNamed(stacks: seq<Stack>, name: string): (r: Option<nat>)
    ensures r.None? <==> forall k :: 0 <= k < |stacks| ==> stacks[k].name != name
    ensures r.Some? ==> r.value < |stacks| && stacks[r.value].name == name
    ensures r.Some? ==> forall k :: 0 <= k < r.value ==> stacks[k].name != name
    decreases |stacks|
  {
    if |stacks| == 0 then None
    else if stacks[0].name == name then Some(0)
    else match FindNamed(stacks[1..], name)
      case None => None
      case Some(i) => Some(i + 1)
  }

  datatype RefillOutcome =
    | NoRefillChest      // no refill chest set
    | RefillUnavailable  // block not found or chest failed to open
    | AlreadyEnough      // holding LowWater or more
    | NoEmeralds         // the chest has no emerald stack
    | Withdraw(amount: nat)

  /**
   * `refillEmeralds`: with the refill chest open and fewer than 16 emeralds
   * held, take from the chest's first emerald stack as many as it holds but no
   * more than brings the bot to 64.
   */
  function Refill(refillChest: Option<Pos>, chest: Option<seq<Stack>>, inventory: seq<Stack>): (r: RefillOutcome)
    ensures r == NoRefillChest <==> refillChest.None?
    ensures r == RefillUnavailable <==> refillChest.Some? && chest.None?
    ensures r == AlreadyEnough <==> refillChest.Some? && chest.Some? && CountOf(inventory, "emerald") >= LowWater
    ensures r == NoEmeralds <==>
              refillChest.Some? && chest.Some? && CountOf(inventory, "emerald") < LowWater
              && FindNamed(chest.value, "emerald").None?
    ensures r.Withdraw? ==>
              && refillChest.Some? && chest.Some? && CountOf(inventory, "emerald") < LowWater
              && FindNamed(chest.value, "emerald").Some?
              && var stack := chest.value[FindNamed(chest.value, "emerald").value];
                 var held := CountOf(inventory, "emerald");
                 && r.amount <= stack.count
                 && held + r.amount <= Cap
                 && (r.amount == stack.count || held + r.amount == Cap)
                 && (stack.count > 0 ==> r.amount > 0)
  {
    if refillChest.None? then NoRefillChest
    else if chest.None? then RefillUnavailable
    else
      var held := CountOf(inventory, "emerald");
      if held >= LowWater then AlreadyEnough
      else match FindNamed(chest.value, "emerald")
        case None => NoEmeralds
        case Some(i) => Withdraw(Min(chest.value[i].count, Cap - held))
  }

  /** After a withdrawal the emeralds in the inventory are still at most 64. */
  lemma RefillStaysUnderCap(refillChest: Option<Pos>, chest: Option<seq<Stack>>, inventory: seq<Stack>)
    requires Refill(refillChest, chest, inventory).Withdraw?
    ensures var n := Refill(refillChest, chest, inventory).amount;
            CountOf(inventory + [Stack("emerald", n)], "emerald") <= Cap
  {
    var n := Refill(refillChest, chest, inventory).amount;
    CountOfAppend(inventory, [Stack("emerald", n)], "emerald");
    assert [Stack("emerald", n)][..0] == [];
  }

  /** Holding 60 emeralds is enough: nothing is withdrawn even from a full chest. */
  lemma RefillNotNeededExample(at: Pos)
    ensures Refill(Some(at), Some([Stack("emerald", 64)]), [Stack("emerald", 60)]) == AlreadyEnough
  {
    assert [Stack("emerald", 60)][..0] == [];
  }

  /** Holding 10 emeralds tops up to 64 from a stack of 100, or takes all of a stack of 20. */
  lemma RefillExamples(at: Pos)
    ensures Refill(Some(at), Some([Stack("dirt", 5), Stack("emerald", 100)]), [Stack("emerald", 10)]) == Withdraw(54)
    ensures Refill(Some(at), Some([Stack("emerald", 20)]), [Stack("emerald", 10)]) == Withdraw(20)
  {
    assert [Stack("emerald", 10)][..0] == [];
  }
}
