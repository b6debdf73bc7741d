// Goals and the task generator: exploration tasks sampled from the seven
// exploration locations, and the regenerated daily goal list (base tasks plus
// fresh exploration tasks, shuffled, all not yet completed).
module Tasks {
  import opened Shuffle
  import opened Locations

  /** A goal of a resident's day: what to do, where, and whether it is done. */
  datatype Goal = Goal(task: string, location: string, completed: bool)

  /**
   * `s.replace('_', ' ')` with a string pattern: only the FIRST underscore
   * becomes a space.
   */
  function ReplaceFirstUnderscore(s: string): (r: string)
    ensures |r| == |s|
    ensures forall k :: 0 <= k < |s| ==> r[k] == if s[k] == '_' && '_' !in s[..k] then ' ' else s[k]
  {
    if |s| == 0 then s
    else if s[0] == '_' then [' '] + s[1..]
    else
      var rest := ReplaceFirstUnderscore(s[1..]);
      assert forall k :: 1 <= k < |s| ==> s[1..][..k - 1] == s[1..k];
      [s[0]] + rest
  }

  /** The goal `Explore <location>` for one exploration location. */
  function ExploreGoal(location: string): Goal
  {
    Goal("Explore " + ReplaceFirstUnderscore(location), location, false)
  }

  /** The draws consumed by one call of the exploration task generator. */
  datatype ExplorationRolls = ExplorationRolls(order: seq<real>, count: real)

  predicate ValidExplorationRolls(rolls: ExplorationRolls)
  {
    RollsFor(|EXPLORATION_LOCATIONS|, rolls.order) && IsRoll(rolls.count)
  }

  /** `2 + Math.floor(Math.random() * 2)`. */
  function TaskCount(roll: real): (n: nat)
    requires IsRoll(roll)
    ensures 2 <= n <= 3
  {
    2 + Draw(roll, 2)
  }

  lemma NoUnderscoreUnchanged(s: string)
    requires '_' !in s
    ensures ReplaceFirstUnderscore(s) == s
  {
  }

  /**
   * `generateExplorationTasks`: the first 2 or 3 of the shuffled exploration
   * locations, each as an `Explore <location>` goal that is not completed.
   */
  function ExplorationTasks(rolls: ExplorationRolls): (r: seq<Goal>)
    requires ValidExplorationRolls(rolls)
    ensures 2 <= |r| <= 3
    ensures forall i :: 0 <= i < |r| ==>
      r[i].location in EXPLORATION_LOCATIONS && r[i].task == "Explore " + r[i].location && !r[i].completed
    ensures forall i, j :: 0 <= i < j < |r| ==> r[i].location != r[j].location
  {
    var shuffled := Shuffled(EXPLORATION_LOCATIONS, rolls.order);
    ExplorationLocationsWellFormed();
    ShuffledSameElements(EXPLORATION_LOCATIONS, rolls.order);
    ShuffledDistinct(EXPLORATION_LOCATIONS, rolls.order);
    var n := TaskCount(rolls.count);
    var r := seq(n, i requires 0 <= i < n => ExploreGoal(shuffled[i]));
    assert forall i :: 0 <= i < n ==> shuffled[i] in EXPLORATION_LOCATIONS && r[i].location == shuffled[i];
    assert forall l :: l in EXPLORATION_LOCATIONS ==> ReplaceFirstUnderscore(l) == l by {
      forall l | l in EXPLORATION_LOCATIONS ensures ReplaceFirstUnderscore(l) == l {
        NoUnderscoreUnchanged(l);
      }
    }
    r
  }

  /** The goal with its completed flag cleared (`{ ...task, completed: false }`). */
  function Reset(g: Goal): Goal
  {
    g.(completed := false)
  }

  function ResetAll(goals: seq<Goal>): (r: seq<Goal>)
    ensures |r| == |goals|
    ensures forall k :: 0 <= k < |goals| ==> r[k] == Reset(goals[k])
  {
    seq(|goals|, k requires 0 <= k < |goals| => Reset(goals[k]))
  }

  /** The draws consumed by one regeneration of a goal list with `baseCount` base tasks. */
  datatype RegenRolls = RegenRolls(exploration: ExplorationRolls, order: seq<real>)

  predicate ValidRegenRolls(rolls: RegenRolls, baseCount: nat)
  {
    ValidExplorationRolls(rolls.exploration) && RollsFor(baseCount + 3, rolls.order)
  }

  /**
   * The goal list a resident starts the day with: its base tasks followed by
   * the exploration tasks, shuffled (the goal records are shared, not copied).
   */
  function InitialGoals(base: seq<Goal>, exploration: seq<Goal>, order: seq<real>): (r: seq<Goal>)
    requires RollsFor(|base| + |exploration|, order)
    ensures multiset(r) == multiset(base + exploration)
  {
    ShuffledIsPermutation(base + exploration, order);
    Shuffled(base + exploration, order)
  }

  /**
   * The regenerated goal list: a permutation of the base tasks followed by
   * 2 or 3 fresh exploration tasks, with every completed flag cleared.
   */
  function RegeneratedGoals(base: seq<Goal>, rolls: RegenRolls): (r: seq<Goal>)
    requires ValidRegenRolls(rolls, |base|)
    ensures |base| + 2 <= |r| <= |base| + 3
    ensures forall k :: 0 <= k < |r| ==> !r[k].completed
    ensures multiset(r) == multiset(ResetAll(base + ExplorationTasks(rolls.exploration)))
  {
    var all := base + ExplorationTasks(rolls.exploration);
    ResetCommutesWithShuffle(all, rolls.order);
    ShuffledIsPermutation(ResetAll(all), rolls.order);
    ResetAll(Shuffled(all, rolls.order))
  }

  lemma ResetCommutesWithSwap(s: seq<Goal>, i: nat, j: nat)
    requires i < |s| && j < |s|
    ensures ResetAll(Swap(s, i, j)) == Swap(ResetAll(s), i, j)
  {
    var a := ResetAll(Swap(s, i, j));
    var b := Swap(ResetAll(s), i, j);
    assert |a| == |b|;
    forall k | 0 <= k < |a| ensures a[k] == b[k] {
    }
  }

  lemma {:induction false} ResetCommutesWithShuffleDown(s: seq<Goal>, i: int, order: seq<real>)
    requires -1 <= i < |s| && RollsFor(|s|, order)
    ensures ResetAll(ShuffleDown(s, i, order)) == ShuffleDown(ResetAll(s), i, order)
    decreases i
  {
    if i > 0 {
      var j := Draw(order[|s| - 1 - i], i + 1);
      ResetCommutesWithSwap(s, i, j);
      ResetCommutesWithShuffleDown(Swap(s, i, j), i - 1, order);
    }
  }

  /** Clearing the flags before or after shuffling gives the same list. */
  lemma ResetCommutesWithShuffle(all: seq<Goal>, order: seq<real>)
    requires RollsFor(|all|, order)
    ensures ResetAll(Shuffled(all, order)) == Shuffled(ResetAll(all), order)
  {
    ResetCommutesWithShuffleDown(all, |all| - 1, order);
  }

  /**
   * Regeneration keeps every base task (with its flag cleared) and draws every
   * other goal from the exploration locations.
   */
  lemma RegenerationKeepsBaseTasks(base: seq<Goal>, rolls: RegenRolls)
    requires ValidRegenRolls(rolls, |base|)
    ensures forall g :: g in base ==> Reset(g) in RegeneratedGoals(base, rolls)
    ensures forall g :: g in RegeneratedGoals(base, rolls) ==>
      (exists b :: b in base && g == Reset(b)) || g.location in EXPLORATION_LOCATIONS
  {
    var explore := ExplorationTasks(rolls.exploration);
    var all := base + explore;
    var r := RegeneratedGoals(base, rolls);
    forall g | g in base ensures Reset(g) in r {
      var k :| 0 <= k < |base| && base[k] == g;
      assert ResetAll(all)[k] == Reset(g);
      assert Reset(g) in multiset(ResetAll(all));
    }
    forall g | g in r
      ensures (exists b :: b in base && g == Reset(b)) || g.location in EXPLORATION_LOCATIONS
    {
      assert g in multiset(ResetAll(all));
      var k :| 0 <= k < |all| && ResetAll(all)[k] == g;
      if k < |base| {
        assert base[k] in base && g == Reset(base[k]);
      } else {
        assert explore[k - |base|].location == g.location;
      }
    }
  }

  /**
   * The goal at `index` marked completed, in place in the source (`goal.completed
   * = true`); an index past the end leaves the list as it is.
   */
  function MarkCompleted(goals: seq<Goal>, index: nat): (r: seq<Goal>)
    ensures |r| == |goals|
    ensures index < |goals| ==> r[index] == goals[index].(completed := true)
    ensures forall k :: 0 <= k < |goals| && k != index ==> r[k] == goals[k]
  {
    if index < |goals| then goals[index := goals[index].(completed := true)] else goals
  }
}
