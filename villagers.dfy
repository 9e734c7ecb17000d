/**
 * Villager discovery and one scan pass of the main loop: the pass goes through
 * the villagers in discovery order, stops once the run flag is off, skips
 * villagers outside the bounds and visits (paths to and trades with) the rest.
 */
module Villagers {
  import opened Wrappers
  import opened Bounds
  import Text

  /**
   * The fields of an entity the filter looks at: `type` (an absent type is the
   * empty string), `displayName` rendered as a string, `name`, and `position`.
   */
  datatype Entity = Entity(kind: string, displayName: Option<string>, name: Option<string>, position: Vec3)

  /** The predicate of `getNearbyVillagers`; a missing or empty display name rejects the entity. */
  predicate IsVillager(e: Entity) {
    && (e.kind == "passive" || e.kind == "villager")
    && e.displayName.Some? && e.displayName.value != ""
    && (e.displayName.value == "Villager" || Text.Contains(e.displayName.value, "Villager")
        || e.name == Some("villager"))
  }

  /**
   * The exact-name test is subsumed by the substring test: an entity is a
   * villager when its type fits, it has a display name, and the display name
   * contains `Villager` or its `name` is `villager`.
   */
  lemma IsVillagerSimplified(e: Entity)
    ensures IsVillager(e) <==>
      && (e.kind == "passive" || e.kind == "villager")
      && e.displayName.Some? && e.displayName.value != ""
      && (Text.Contains(e.displayName.value, "Villager") || e.name == Some("villager"))
  {
    if e.displayName == Some("Villager") {
      Text.ContainsSelf("Villager");
    }
  }

  /**
   * `getNearbyVillagers`: the entries of the entity table (a `None` entry is a
   * null value) that are villagers, in table order, each as often as it occurs.
   */
  function NearbyVillagers(entities: seq<Option<Entity>>): (r: seq<Entity>)
    ensures forall e :: e in r ==> IsVillager(e)
    ensures forall e {:trigger multiset(r)[e]} ::
              multiset(r)[e] == if IsVillager(e) then multiset(entities)[Some(e)] else 0
    decreases |entities|
  {
    if |entities| == 0 then []
    else
      var n := |entities| - 1;
      assert entities == entities[..n] + [entities[n]];
      NearbyVillagers(entities[..n])
      + (if entities[n].Some? && IsVillager(entities[n].value) then [entities[n].value] else [])
  }

  /** The filter keeps table order: the villagers of two tables in a row are those of the first, then of the second. */
  lemma {:induction false} NearbyVillagersAppend(a: seq<Option<Entity>>, b: seq<Option<Entity>>)
    ensures NearbyVillagers(a + b) == NearbyVillagers(a) + NearbyVillagers(b)
    decreases |b|
  {
    if |b| == 0 {
      assert a + b == a;
    } else {
      var n := |b| - 1;
      assert (a + b)[..|a + b| - 1] == a + b[..n];
      assert (a + b)[|a + b| - 1] == b[n];
      NearbyVillagersAppend(a, b[..n]);
    }
  }

  /** One table entry is kept, as itself, exactly when it is a villager. */
  lemma NearbyVillagersSingle(x: Option<Entity>)
    ensures NearbyVillagers([x]) == if x.Some? && IsVillager(x.value) then [x.value] else []
  {
    assert [x][..0] == [];
  }

  /** What the pass sees of the shared run state when it reaches a villager. */
  datatype Observation = Observation(running: bool, bound1: Option<Pos>, bound2: Option<Pos>)

  /** The run flag has been on at every check up to and including villager `k`. */
  predicate StillRunning(seen: seq<Observation>, k: nat)
    requires k < |seen|
  {
    forall j :: 0 <= j <= k ==> seen[j].running
  }

  /** Villager `k` is visited: the pass reached it and it is inside the bounds seen then. */
  predicate Visits(villagers: seq<Entity>, seen: seq<Observation>, k: nat)
    requires |seen| == |villagers|
  {
    k < |villagers| && StillRunning(seen, k)
    && WithinBounds(seen[k].bound1, seen[k].bound2, villagers[k].position)
  }

  /**
   * One pass of the `for` loop in `mainLoop`. Other commands may change the run
   * flag and the bounds while the pass waits, so `seen[k]` is the state the
   * pass reads when it reaches villager `k`. The result lists the villagers
   * visited, in order: exactly those reached while running and inside bounds.
   */
  method ScanPass(villagers: seq<Entity>, seen: seq<Observation>) returns (visited: seq<nat>)
    requires |seen| == |villagers|
    ensures forall i, j :: 0 <= i < j < |visited| ==> visited[i] < visited[j]
    ensures forall k: nat :: k in visited <==> Visits(villagers, seen, k)
  {
    visited := [];
    var k := 0;
    while k < |villagers|
      invariant 0 <= k <= |villagers|
      invariant forall j :: 0 <= j < k ==> seen[j].running
      invariant forall i :: 0 <= i < |visited| ==> visited[i] < k
      invariant forall i, j :: 0 <= i < j < |visited| ==> visited[i] < visited[j]
      invariant forall m: nat :: m in visited <==> m < k && Visits(villagers, seen, m)
    {
      if !seen[k].running {
        break;
      }
      if WithinBounds(seen[k].bound1, seen[k].bound2, villagers[k].position) {
        visited := visited + [k];
      }
      k := k + 1;
    }
  }

  /**
   * Stopping takes effect before the next villager: once the flag is seen off
   * at villager `k`, neither `k` nor any later villager is visited.
   */
  lemma StopHaltsPass(villagers: seq<Entity>, seen: seq<Observation>, k: nat, m: nat)
    requires |seen| == |villagers|
    requires k <= m < |villagers|
    requires !seen[k].running
    ensures !Visits(villagers, seen, m)
  {
  }
}
