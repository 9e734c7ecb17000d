/** Item stacks, inventory counts and the item-name matcher shared by trading and depositing. */
module Items {
  import Text

  /** One inventory or container slot: an item name and how many of it. */
  datatype Stack = Stack(name: string, count: nat)

  /** `inventory.count(id)`: the number of items called `name` over all stacks. */
  function CountOf(stacks: seq<Stack>, name: string): (n: nat)
    ensures n == 0 <== forall k :: 0 <= k < |stacks| ==> stacks[k].name != name || stacks[k].count == 0
    decreases |stacks|
  {
    if |stacks| == 0 then 0
    else CountOf(stacks[..|stacks| - 1], name)
         + (if stacks[|stacks| - 1].name == name then stacks[|stacks| - 1].count else 0)
  }

  lemma {:induction false} CountOfAppend(a: seq<Stack>, b: seq<Stack>, name: string)
    ensures CountOf(a + b, name) == CountOf(a, name) + CountOf(b, name)
    decreases |b|
  {
    if |b| == 0 {
      assert a + b == a;
    } else {
      var n := |b| - 1;
      assert (a + b)[..|a + b| - 1] == a + b[..n];
      CountOfAppend(a, b[..n], name);
    }
  }

  /**
   * The items the bot trades for and deposits: any whose name contains
   * `glass` or `experience_bottle` (case-sensitive).
   */
  predicate Wanted(name: string) {
    Text.Contains(name, "glass") || Text.Contains(name, "experience_bottle")
  }

  /** A name is wanted exactly when one of the two keywords occurs in it. */
  lemma WantedIffOccurs(name: string)
    ensures Wanted(name) <==>
      ((exists i: nat :: Text.OccursAt(name, "glass", i)) || (exists i: nat :: Text.OccursAt(name, "experience_bottle", i)))
  {
    Text.ContainsIffOccurs(name, "glass");
    Text.ContainsIffOccurs(name, "experience_bottle");
  }

  /** Glass variants and experience bottles are wanted. */
  lemma WantedGlass()
    ensures Wanted("glass_pane") && Wanted("red_stained_glass") && Wanted("experience_bottle")
  {
    assert Text.IsPrefix("glass", "glass_pane");
    assert Text.IsPrefix("experience_bottle", "experience_bottle");
    assert Text.OccursAt("red_stained_glass", "glass", 12);
    Text.ContainsIffOccurs("red_stained_glass", "glass");
  }

  /** Emerald blocks are not wanted. */
  lemma NotWantedEmeraldBlock()
    ensures !Wanted("emerald_block")
  {
    var name := "emerald_block";
    assert 'g' !in name && 'x' !in name;
    Text.MissingCharNotContained(name, "glass", 'g');
    Text.MissingCharNotContained(name, "experience_bottle", 'x');
  }

  /** The match is case-sensitive: an upper-case spelling is not wanted. */
  lemma NotWantedUpperCase()
    ensures !Wanted("GLASS")
  {
    Text.MissingCharNotContained("GLASS", "glass", 'g');
    Text.MissingCharNotContained("GLASS", "experience_bottle", 'x');
  }
}
