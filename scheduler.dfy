// The per-character transition of one animation tick: the player follows its
// click target; a resident works on its current goal, explores around it,
// regenerates an exhausted goal list, or travels to its next goal, possibly
// starting an encounter with a resident nearby on the way.
module Scheduler {
  import opened Common
  import opened Geometry
  import opened Shuffle
  import opened Locations
  import opened Tasks
  import opened Residents
  import opened Encounters

  const ANIMATION_TICK_SPEED: nat := 15
  const GOAL_REACH_THRESHOLD: real := 5.0
  const TASK_DURATION: int := 5000
  const EXPLORATION_DURATION: int := 3000
  const TASK_REGENERATION_PAUSE: int := 5000
  /** The player stops once closer than this to its target. */
  const PLAYER_ARRIVAL_DISTANCE: real := 8.0
  /** The player's walk cycle only advances while further than this from its target. */
  const PLAYER_ANIMATION_DISTANCE: real := 3.0

  /**
   * `start && now - start >= duration`: a start time of 0 is falsy in the
   * source, so a timer started at time 0 never expires.
   */
  predicate TimerExpired(start: Option<int>, now: int, duration: int)
  {
    start.Some? && start.value != 0 && now - start.value >= duration
  }

  /**
   * What a tick reads besides the character itself: the time, whether this
   * tick advances animations, the reservation and cooldown tables, the two
   * conversation flags, every character as it was before the tick, and the
   * resident definitions.
   */
  datatype Env = Env(
    now: int,
    shouldUpdateFrame: bool,
    interactions: Reservations,
    lastInteraction: LastInteractions,
    activeInteraction: bool,
    playerConversationActive: bool,
    all: seq<Character>,
    defs: seq<Definition>)

  /**
   * The values a tick takes for one character from outside the model: the
   * step vector toward its target (direction times speed), the polar offset
   * of a new exploration target, the encounter roll, and the draws of a goal
   * regeneration.
   */
  datatype TickDraws = TickDraws(step: Point, offset: Point, encounterRoll: real, regen: RegenRolls)

  predicate ValidDraws(d: TickDraws, defs: seq<Definition>)
  {
    IsRoll(d.encounterRoll) && ValidExplorationRolls(d.regen.exploration)
    && forall def :: def in defs ==> ValidRegenRolls(d.regen, |def.baseTasks|)
  }

  /** Every sprite sheet direction has at least one frame. */
  predicate Animated(s: SpriteFrames)
  {
    s.up > 0 && s.down > 0 && s.left > 0 && s.right > 0
  }

  /** The result of one character's tick: its new record and the encounter it started, if any. */
  datatype StepResult = StepResult(next: Character, encounter: Option<Encounter>)

  /** Stopped, on frame 0, idle. */
  function Idled(c: Character): Character
  {
    c.(isMoving := false, animationFrame := 0, activityState := Idle)
  }

  /** Stopped, on frame 0, in the same activity. */
  function Paused(c: Character): Character
  {
    c.(isMoving := false, animationFrame := 0)
  }

  /** The character after a step: moved to `p`, facing `dir`, walking, its frame advanced on animation ticks. */
  function Walked(c: Character, p: Point, dir: Direction, advance: bool): Character
    requires Animated(c.sprites)
  {
    c.(x := p.x, y := p.y, isMoving := true, direction := dir,
       animationFrame := NextFrame(c.animationFrame, c.sprites.Count(dir), advance))
  }

  /** The character is stopped, on frame 0, idle, and nothing else about it changed. */
  predicate IsIdled(r: Character, c: Character)
  {
    r == c.(isMoving := false, animationFrame := 0, activityState := Idle)
  }

  /** The player's tick. */
  function StepPlayer(c: Character, env: Env, step: Point): (r: Character)
    requires Animated(c.sprites)
    ensures (c.isInPlayerConversation || env.playerConversationActive || Reserved(env.interactions, c.id, env.now)
             || c.playerTarget.None?) ==> IsIdled(r, c)
    ensures !c.isInPlayerConversation && !env.playerConversationActive && !Reserved(env.interactions, c.id, env.now)
            && c.playerTarget.Some? ==>
      var t := c.playerTarget.value;
      if Closer(c.Position(), t, PLAYER_ARRIVAL_DISTANCE) then
        IsIdled(r, c.(playerTarget := None))
      else
        r == c.(x := r.x, y := r.y, direction := r.direction, animationFrame := r.animationFrame, isMoving := true)
        && r.Position() == ClampToPlayerMap(Point(c.x + step.x, c.y + step.y))
        && OnPlayerMap(r.Position())
        && r.direction == PlayerFacing(c.direction, step.x, step.y)
        && r.animationFrame == NextFrame(c.animationFrame, c.sprites.Count(r.direction),
             env.shouldUpdateFrame && SquaredLength(t.x - c.x, t.y - c.y) > PLAYER_ANIMATION_DISTANCE * PLAYER_ANIMATION_DISTANCE)
  {
    if c.isInPlayerConversation || env.playerConversationActive then Idled(c)
    else if Reserved(env.interactions, c.id, env.now) then Idled(c)
    else match c.playerTarget
      case None => Idled(c)
      case Some(t) =>
        if Closer(c.Position(), t, PLAYER_ARRIVAL_DISTANCE) then Idled(c.(playerTarget := None))
        else
          var p := ClampToPlayerMap(Point(c.x + step.x, c.y + step.y));
          var far := SquaredLength(t.x - c.x, t.y - c.y) > PLAYER_ANIMATION_DISTANCE * PLAYER_ANIMATION_DISTANCE;
          Walked(c, p, PlayerFacing(c.direction, step.x, step.y), env.shouldUpdateFrame && far)
  }

  /**
   * A working resident: once its task timer has run for the task duration,
   * the current goal is completed, the cursor moves to the next goal, and the
   * resident starts exploring around where it stands; before that it only
   * stands still.
   */
  function StepWorking(c: Character, now: int, offset: Point): (r: Character)
    ensures TimerExpired(c.taskStartTime, now, TASK_DURATION) ==>
      r == c.(activityState := Exploring, explorationStartTime := Some(now), explorationTarget := r.explorationTarget,
              basePosition := Some(c.Position()), currentGoalIndex := c.currentGoalIndex + 1, dailyGoals := r.dailyGoals)
      && r.explorationTarget.Some? && InExplorationBox(r.explorationTarget.value)
      && r.explorationTarget.value == ExplorationTarget(c.Position(), offset)
      && r.dailyGoals == MarkCompleted(c.dailyGoals, c.currentGoalIndex)
      && |r.dailyGoals| == |c.dailyGoals|
      && (c.currentGoalIndex < |c.dailyGoals| ==>
            r.dailyGoals[c.currentGoalIndex] == c.dailyGoals[c.currentGoalIndex].(completed := true))
      && forall k :: 0 <= k < |c.dailyGoals| && k != c.currentGoalIndex ==> r.dailyGoals[k] == c.dailyGoals[k]
    ensures !TimerExpired(c.taskStartTime, now, TASK_DURATION) ==> r == Paused(c)
  {
    if TimerExpired(c.taskStartTime, now, TASK_DURATION) then
      c.(activityState := Exploring,
         explorationStartTime := Some(now),
         explorationTarget := Some(ExplorationTarget(c.Position(), offset)),
         basePosition := Some(c.Position()),
         currentGoalIndex := c.currentGoalIndex + 1,
         dailyGoals := MarkCompleted(c.dailyGoals, c.currentGoalIndex))
    else Paused(c)
  }

  /**
   * The point a new exploration target is drawn around: `basePosition?.x ||
   * char.x` for each coordinate, so an absent base, or a base coordinate of
   * 0, falls back on the resident's own coordinate.
   */
  function ExplorationAnchor(c: Character): (p: Point)
    ensures c.basePosition.None? ==> p == c.Position()
    ensures c.basePosition.Some? && c.basePosition.value.x != 0.0 ==> p.x == c.basePosition.value.x
    ensures c.basePosition.Some? && c.basePosition.value.x == 0.0 ==> p.x == c.x
    ensures c.basePosition.Some? && c.basePosition.value.y != 0.0 ==> p.y == c.basePosition.value.y
    ensures c.basePosition.Some? && c.basePosition.value.y == 0.0 ==> p.y == c.y
  {
    match c.basePosition
      case None => c.Position()
      case Some(b) => Point(if b.x != 0.0 then b.x else c.x, if b.y != 0.0 then b.y else c.y)
  }

  /**
   * An exploring resident: once its exploration timer has run for the
   * exploration duration it returns to its goals with the exploration fields
   * cleared; before that, reaching its target only draws a new target around
   * the anchor, and otherwise it steps toward the target at reduced speed.
   * Without a target it is left as it is.
   */
  function StepExploring(c: Character, env: Env, d: TickDraws): (r: Character)
    requires Animated(c.sprites)
    ensures TimerExpired(c.explorationStartTime, env.now, EXPLORATION_DURATION) ==>
      r == c.(activityState := Moving, explorationTarget := None, explorationStartTime := None, basePosition := None)
    ensures !TimerExpired(c.explorationStartTime, env.now, EXPLORATION_DURATION) && c.explorationTarget.None? ==> r == c
    ensures !TimerExpired(c.explorationStartTime, env.now, EXPLORATION_DURATION) && c.explorationTarget.Some? ==>
      if Closer(c.Position(), c.explorationTarget.value, GOAL_REACH_THRESHOLD) then
        r == c.(explorationTarget := r.explorationTarget)
        && r.explorationTarget == Some(ExplorationTarget(ExplorationAnchor(c), d.offset))
        && InExplorationBox(r.explorationTarget.value)
      else
        r == c.(x := r.x, y := r.y, direction := r.direction, animationFrame := r.animationFrame, isMoving := true)
        && r.Position() == ClampToMap(Point(c.x + d.step.x, c.y + d.step.y)) && OnMap(r.Position())
        && r.direction == StepFacing(d.step.x, d.step.y)
        && r.animationFrame == NextFrame(c.animationFrame, c.sprites.Count(r.direction), env.shouldUpdateFrame)
  {
    if TimerExpired(c.explorationStartTime, env.now, EXPLORATION_DURATION) then
      c.(activityState := Moving, explorationTarget := None, explorationStartTime := None, basePosition := None)
    else match c.explorationTarget
      case None => c
      case Some(t) =>
        if Closer(c.Position(), t, GOAL_REACH_THRESHOLD) then
          c.(explorationTarget := Some(ExplorationTarget(ExplorationAnchor(c), d.offset)))
        else
          Walked(c, ClampToMap(Point(c.x + d.step.x, c.y + d.step.y)), StepFacing(d.step.x, d.step.y), env.shouldUpdateFrame)
  }

  /**
   * A resident waiting for new goals: once the pause has run and its
   * definition is found, its goals become the regenerated list (the base
   * tasks and 2 or 3 fresh exploration tasks, shuffled, none completed), the
   * cursor returns to 0 and it travels again; otherwise it stands still.
   */
  function StepRegenerating(c: Character, env: Env, regen: RegenRolls): (r: Character)
    requires ValidExplorationRolls(regen.exploration)
    requires forall def :: def in env.defs ==> ValidRegenRolls(regen, |def.baseTasks|)
    ensures TimerExpired(c.taskStartTime, env.now, TASK_REGENERATION_PAUSE) && FindDefinition(env.defs, c.id).Some? ==>
      var def := FindDefinition(env.defs, c.id).value;
      r == c.(dailyGoals := r.dailyGoals, currentGoalIndex := 0, activityState := Moving, taskStartTime := None)
      && def.id == c.id
      && |def.baseTasks| + 2 <= |r.dailyGoals| <= |def.baseTasks| + 3
      && (forall k :: 0 <= k < |r.dailyGoals| ==> !r.dailyGoals[k].completed)
      && multiset(r.dailyGoals) == multiset(ResetAll(def.baseTasks + ExplorationTasks(regen.exploration)))
    ensures !(TimerExpired(c.taskStartTime, env.now, TASK_REGENERATION_PAUSE) && FindDefinition(env.defs, c.id).Some?) ==>
      r == Paused(c)
  {
    if TimerExpired(c.taskStartTime, env.now, TASK_REGENERATION_PAUSE) then
      match FindDefinition(env.defs, c.id)
        case Some(def) =>
          c.(dailyGoals := RegeneratedGoals(def.baseTasks, regen), currentGoalIndex := 0,
             activityState := Moving, taskStartTime := None)
        case None => Paused(c)
    else Paused(c)
  }

  /**
   * A resident with no encounter this tick heading for its current goal: an
   * exhausted goal list starts the regeneration pause; a goal at an unknown
   * location is completed and skipped; a reached goal starts work; otherwise
   * the resident steps toward the goal.
   */
  function Travel(c: Character, env: Env, step: Point): (r: Character)
    requires Animated(c.sprites)
    ensures c.currentGoalIndex >= |c.dailyGoals| ==>
      r == c.(isMoving := false, animationFrame := 0, activityState := RegeneratingTasks, taskStartTime := Some(env.now))
    ensures c.currentGoalIndex < |c.dailyGoals| && LocationOf(c.dailyGoals[c.currentGoalIndex].location).None? ==>
      r == c.(dailyGoals := r.dailyGoals, isMoving := false, currentGoalIndex := c.currentGoalIndex + 1, activityState := Moving)
      && r.dailyGoals == MarkCompleted(c.dailyGoals, c.currentGoalIndex)
      && r.dailyGoals[c.currentGoalIndex].completed
    ensures c.currentGoalIndex < |c.dailyGoals| && LocationOf(c.dailyGoals[c.currentGoalIndex].location).Some? ==>
      var target := LocationOf(c.dailyGoals[c.currentGoalIndex].location).value;
      if Closer(c.Position(), target, GOAL_REACH_THRESHOLD) then
        r == c.(isMoving := false, animationFrame := 0, activityState := Working, taskStartTime := Some(env.now))
      else
        r == c.(x := r.x, y := r.y, direction := r.direction, animationFrame := r.animationFrame, isMoving := true)
        && r.Position() == ClampToMap(Point(c.x + step.x, c.y + step.y)) && OnMap(r.Position())
        && r.direction == StepFacing(step.x, step.y)
        && r.animationFrame == NextFrame(c.animationFrame, c.sprites.Count(r.direction), env.shouldUpdateFrame)
  {
    if c.currentGoalIndex >= |c.dailyGoals| then
      c.(isMoving := false, animationFrame := 0, activityState := RegeneratingTasks, taskStartTime := Some(env.now))
    else
      var goal := c.dailyGoals[c.currentGoalIndex];
      match LocationOf(goal.location)
        case None =>
          c.(dailyGoals := MarkCompleted(c.dailyGoals, c.currentGoalIndex), isMoving := false,
             currentGoalIndex := c.currentGoalIndex + 1, activityState := Moving)
        case Some(target) =>
          if Closer(c.Position(), target, GOAL_REACH_THRESHOLD) then
            c.(isMoving := false, animationFrame := 0, activityState := Working, taskStartTime := Some(env.now))
          else
            Walked(c, ClampToMap(Point(c.x + step.x, c.y + step.y)), StepFacing(step.x, step.y), env.shouldUpdateFrame)
  }

  /**
   * The gate on encounters as the source writes it,
   * `!activeInteraction || playerConversation?.isActive`: it lets encounters
   * start while the player is in a conversation.
   */
  predicate EncounterGateAsWritten(activeInteraction: bool, playerConversationActive: bool)
  {
    !activeInteraction || playerConversationActive
  }

  /** The gate as its comment intends: no encounter while one is under way or the player is talking. */
  predicate EncounterGate(activeInteraction: bool, playerConversationActive: bool)
  {
    !activeInteraction && !playerConversationActive
  }

  /**
   * A resident on its way (moving, or idle and free again), under a given
   * encounter gate: when the gate is open and an encounter starts, the
   * resident stops, idle, and the encounter is reported; otherwise it travels.
   */
  function StepMovingGated(c: Character, env: Env, d: TickDraws, gate: bool): (res: StepResult)
    requires Animated(c.sprites)
    ensures var e := EncounterFor(c, env.all, d.encounterRoll, env.lastInteraction, env.now);
      if gate && e.Some? then IsIdled(res.next, c) && res.encounter == e
      else res.next == Travel(c, env, d.step) && res.encounter.None?
  {
    var e := if gate then EncounterFor(c, env.all, d.encounterRoll, env.lastInteraction, env.now) else None;
    if e.Some? then StepResult(Idled(c), e) else StepResult(Travel(c, env, d.step), None)
  }

  /** The moving branch as the source writes it. */
  function StepMovingAsWritten(c: Character, env: Env, d: TickDraws): (res: StepResult)
    requires Animated(c.sprites)
    ensures res.encounter.Some? ==> EncounterGateAsWritten(env.activeInteraction, env.playerConversationActive)
  {
    StepMovingGated(c, env, d, EncounterGateAsWritten(env.activeInteraction, env.playerConversationActive))
  }

  /** The moving branch with the intended gate; the rest of the model uses this one. */
  function StepMoving(c: Character, env: Env, d: TickDraws): (res: StepResult)
    requires Animated(c.sprites)
    ensures res.encounter.Some? ==> !env.activeInteraction && !env.playerConversationActive
  {
    StepMovingGated(c, env, d, EncounterGate(env.activeInteraction, env.playerConversationActive))
  }

  /**
   * A resident's tick: one in a conversation with the player, or reserved by
   * an encounter, stands idle and nothing else changes; otherwise its
   * activity decides. An idle resident that is free again is handled as a
   * moving one.
   */
  function StepResident(c: Character, env: Env, d: TickDraws): (res: StepResult)
    requires Animated(c.sprites) && ValidDraws(d, env.defs)
    ensures c.isInPlayerConversation || Reserved(env.interactions, c.id, env.now) ==>
      IsIdled(res.next, c) && res.encounter.None?
    ensures res.encounter.Some? ==> c.activityState == Moving || c.activityState == Idle
    ensures (!c.isInPlayerConversation && !Reserved(env.interactions, c.id, env.now)
             && (c.activityState == Moving || c.activityState == Idle)) ==> res == StepMoving(c, env, d)
  {
    if c.isInPlayerConversation || Reserved(env.interactions, c.id, env.now) then StepResult(Idled(c), None)
    else match c.activityState
      case Working => StepResult(StepWorking(c, env.now, d.offset), None)
      case Exploring => StepResult(StepExploring(c, env, d), None)
      case RegeneratingTasks => StepResult(StepRegenerating(c, env, d.regen), None)
      case Moving => StepMoving(c, env, d)
      case Idle => StepMoving(c, env, d)
  }

  /** One character's tick. */
  function StepCharacter(c: Character, env: Env, d: TickDraws): (res: StepResult)
    requires Animated(c.sprites) && ValidDraws(d, env.defs)
    ensures c.isPlayerControlled ==> res == StepResult(StepPlayer(c, env, d.step), None)
    ensures !c.isPlayerControlled ==> res == StepResident(c, env, d)
  {
    if c.isPlayerControlled then StepResult(StepPlayer(c, env, d.step), None)
    else StepResident(c, env, d)
  }

  // ---------------------------------------------------------------------------
  // Transition properties of a resident's tick.

  /**
   * A tick never changes who a character is, its sprites, its history or
   * whether it is in a conversation with the player.
   */
  lemma StepKeepsIdentity(c: Character, env: Env, d: TickDraws)
    requires Animated(c.sprites) && ValidDraws(d, env.defs)
    ensures var r := StepCharacter(c, env, d).next;
      r.id == c.id && r.name == c.name && r.personality == c.personality
      && r.isPlayerControlled == c.isPlayerControlled && r.sprites == c.sprites
      && r.conversationHistory == c.conversationHistory && r.isInPlayerConversation == c.isInPlayerConversation
  {
    var res := StepCharacter(c, env, d);
    if c.isPlayerControlled {
      assert res.next == StepPlayer(c, env, d.step);
    } else if c.isInPlayerConversation || Reserved(env.interactions, c.id, env.now) {
      assert res.next == Idled(c);
    } else {
      match c.activityState
      case Working => assert res.next == StepWorking(c, env.now, d.offset);
      case Exploring => assert res.next == StepExploring(c, env, d);
      case RegeneratingTasks => assert res.next == StepRegenerating(c, env, d.regen);
      case Moving => assert res == StepMoving(c, env, d);
      case Idle => assert res == StepMoving(c, env, d);
    }
  }

  /** A resident not held by a conversation or a reservation. */
  predicate Free(c: Character, env: Env)
  {
    !c.isPlayerControlled && !c.isInPlayerConversation && !Reserved(env.interactions, c.id, env.now)
  }

  /**
   * A working resident leaves work only once the task duration has passed,
   * and then completes its goal, advances its cursor by exactly one and
   * starts exploring from where it stands; before that it stays at work.
   */
  lemma WorkingTransition(c: Character, env: Env, d: TickDraws)
    requires Animated(c.sprites) && ValidDraws(d, env.defs)
    requires Free(c, env) && c.activityState == Working
    ensures var r := StepCharacter(c, env, d).next;
      (r.activityState != Working <==> TimerExpired(c.taskStartTime, env.now, TASK_DURATION))
      && (r.activityState != Working ==>
            r.activityState == Exploring && r.currentGoalIndex == c.currentGoalIndex + 1
            && r.explorationStartTime == Some(env.now) && r.basePosition == Some(c.Position())
            && (c.currentGoalIndex < |c.dailyGoals| ==> r.dailyGoals[c.currentGoalIndex].completed))
      && (r.activityState == Working ==> r == Paused(c))
  {
  }

  /**
   * An exploring resident returns to its goals only once the exploration
   * duration has passed, with every exploration field cleared; before that,
   * reaching its target changes nothing but the target.
   */
  lemma ExploringTransition(c: Character, env: Env, d: TickDraws)
    requires Animated(c.sprites) && ValidDraws(d, env.defs)
    requires Free(c, env) && c.activityState == Exploring
    ensures var r := StepCharacter(c, env, d).next;
      (r.activityState == Moving <==> TimerExpired(c.explorationStartTime, env.now, EXPLORATION_DURATION))
      && (r.activityState == Moving ==>
            r.explorationTarget.None? && r.explorationStartTime.None? && r.basePosition.None?)
      && (r.activityState != Moving && c.explorationTarget.Some?
          && Closer(c.Position(), c.explorationTarget.value, GOAL_REACH_THRESHOLD) ==>
            r == c.(explorationTarget := r.explorationTarget))
  {
  }

  /**
   * A free resident on its way, with no encounter started, whose cursor is
   * past the end of its goals starts the regeneration pause now.
   */
  lemma ExhaustionStartsRegeneration(c: Character, env: Env, d: TickDraws)
    requires Animated(c.sprites) && ValidDraws(d, env.defs)
    requires Free(c, env) && (c.activityState == Moving || c.activityState == Idle)
    requires c.currentGoalIndex >= |c.dailyGoals|
    ensures var res := StepCharacter(c, env, d);
      res.encounter.None? ==>
        res.next.activityState == RegeneratingTasks && res.next.taskStartTime == Some(env.now)
        && res.next.dailyGoals == c.dailyGoals && res.next.currentGoalIndex == c.currentGoalIndex
  {
  }

  /**
   * A regenerating resident gets new goals only once the pause has passed,
   * and then every base task of its definition comes back not completed.
   */
  lemma RegenerationTransition(c: Character, env: Env, d: TickDraws)
    requires Animated(c.sprites) && ValidDraws(d, env.defs)
    requires Free(c, env) && c.activityState == RegeneratingTasks
    ensures var r := StepCharacter(c, env, d).next;
      (r.activityState == Moving <==>
        TimerExpired(c.taskStartTime, env.now, TASK_REGENERATION_PAUSE) && FindDefinition(env.defs, c.id).Some?)
      && (r.activityState == Moving ==>
            r.currentGoalIndex == 0 && r.taskStartTime.None?
            && forall g :: g in FindDefinition(env.defs, c.id).value.baseTasks ==> Reset(g) in r.dailyGoals)
      && (r.activityState != Moving ==> r == Paused(c))
  {
    var r := StepCharacter(c, env, d).next;
    if r.activityState == Moving {
      var def := FindDefinition(env.defs, c.id).value;
      RegenerationKeepsBaseTasks(def.baseTasks, d.regen);
    }
  }

  /**
   * An encounter starts only for a free resident on its way, when no other
   * encounter is under way and the player is not talking, with the first
   * character near it, on a roll below the probability, and when both
   * cooldowns are over; the initiator then stands idle.
   */
  lemma EncounterConditions(c: Character, env: Env, d: TickDraws)
    requires Animated(c.sprites) && ValidDraws(d, env.defs)
    ensures var res := StepCharacter(c, env, d);
      res.encounter.Some? ==>
        Free(c, env) && (c.activityState == Moving || c.activityState == Idle)
        && !env.activeInteraction && !env.playerConversationActive
        && |FindNearby(c, env.all)| > 0 && res.encounter.value.partner == FindNearby(c, env.all)[0]
        && res.encounter.value.initiator == c && res.encounter.value.now == env.now
        && Near(c, res.encounter.value.partner)
        && d.encounterRoll < INTERACTION_PROBABILITY
        && CooledDown(env.lastInteraction, c.id, env.now)
        && CooledDown(env.lastInteraction, res.encounter.value.partner.id, env.now)
        && IsIdled(res.next, c)
    ensures var e := EncounterFor(c, env.all, d.encounterRoll, env.lastInteraction, env.now);
      Free(c, env) && (c.activityState == Moving || c.activityState == Idle)
      && !env.activeInteraction && !env.playerConversationActive && e.Some? ==>
        StepCharacter(c, env, d).encounter == e
  {
  }

  /**
   * The source's gate lets an encounter start while the player is talking:
   * two residents side by side, both cooled down, and a low roll, with an
   * encounter flag already raised by the player's conversation.
   */
  lemma GateAsWrittenAdmitsEncounterDuringPlayerConversation()
    ensures exists c: Character, env: Env, d: TickDraws ::
      Animated(c.sprites) && env.playerConversationActive
      && StepMovingAsWritten(c, env, d).encounter.Some?
      && StepMoving(c, env, d).encounter.None?
  {
    var frames := SpriteFrames(6, 6, 6, 6);
    var a := Character(1, "A", "", 100.0, 100.0, frames, Down, 0, false, 0, [], Moving, None, None, None, None, [], false, None, false);
    var b := a.(id := 2, name := "B");
    var env := Env(30000, false, map[], map[], true, true, [a, b], []);
    var d := TickDraws(Point(0.0, 0.0), Point(0.0, 0.0), 0.0, RegenRolls(ExplorationRolls([], 0.0), []));
    assert Near(a, b);
    assert FindNearby(a, [b]) == [b];
    assert FindNearby(a, [a, b]) == [b];
    assert StepMovingAsWritten(a, env, d).encounter.Some?;
  }

  /** Two characters on the same spot find each other. */
  lemma SameSpotNearby(x: Character, y: Character)
    requires x.id != y.id && x.x == y.x && x.y == y.y
    ensures FindNearby(x, [x, y]) == [y] && FindNearby(y, [x, y]) == [x]
  {
    assert Near(x, y) && Near(y, x);
    assert [x, y][1..] == [y];
    assert [y][1..] == [];
  }

  /** The encounters of a two-character tick in which both started one. */
  lemma TwoStarted(results: seq<StepResult>)
    requires |results| == 2 && results[0].encounter.Some? && results[1].encounter.Some?
    ensures StartedEncounters(results) == [results[0].encounter.value, results[1].encounter.value]
  {
    assert results[1..][1..] == [];
  }

  /**
   * Every resident of a tick reads the same snapshot of the flag and the
   * cooldowns, so one tick can start two encounters at once: here two free
   * residents on the same spot each start one with the other.
   */
  lemma OneTickCanStartOverlappingEncounters()
    ensures exists chars: seq<Character>, env: Env, draws: seq<TickDraws> ::
      TickReady(chars, env, draws) && !env.activeInteraction && !env.playerConversationActive
      && |chars| == 2
      && StartedEncounters(Steps(chars, env, draws))
         == [Encounter(chars[0], chars[1], env.now), Encounter(chars[1], chars[0], env.now)]
  {
    var frames := SpriteFrames(6, 6, 6, 6);
    var a := Character(1, "A", "", 100.0, 100.0, frames, Down, 0, false, 0, [], Moving, None, None, None, None, [], false, None, false);
    var b := a.(id := 2, name := "B");
    var env := Env(30000, false, map[], map[], false, false, [a, b], []);
    var d := TickDraws(Point(0.0, 0.0), Point(0.0, 0.0), 0.0, RegenRolls(ExplorationRolls([0.0, 0.0, 0.0, 0.0, 0.0, 0.0], 0.0), []));
    assert ValidDraws(d, []);
    SameSpotResidentsMeet(a, b, env, d);
  }

  /** Two free residents on the same spot, both due for an encounter, each start one with the other. */
  lemma SameSpotResidentsMeet(a: Character, b: Character, env: Env, d: TickDraws)
    requires a.id != b.id && a.x == b.x && a.y == b.y && env.all == [a, b]
    requires Free(a, env) && Free(b, env) && a.activityState == Moving && b.activityState == Moving
    requires Animated(a.sprites) && Animated(b.sprites) && ValidDraws(d, env.defs)
    requires !env.activeInteraction && !env.playerConversationActive && d.encounterRoll < INTERACTION_PROBABILITY
    requires CooledDown(env.lastInteraction, a.id, env.now) && CooledDown(env.lastInteraction, b.id, env.now)
    ensures TickReady([a, b], env, [d, d])
    ensures StartedEncounters(Steps([a, b], env, [d, d])) == [Encounter(a, b, env.now), Encounter(b, a, env.now)]
  {
    SameSpotNearby(a, b);
    EncounterConditions(a, env, d);
    EncounterConditions(b, env, d);
    var results := Steps([a, b], env, [d, d]);
    TwoStarted(results);
  }



  // ---------------------------------------------------------------------------
  // What every tick keeps.

  /**
   * The state a resident record keeps between ticks: a uniform sprite sheet
   * with the frame inside it, the goal cursor at most one past the end, a
   * working resident on an existing goal, an exploring one with a target
   * and a base, and the position inside the area its clamps allow.
   */
  predicate CharInvariant(c: Character)
  {
    c.sprites.Uniform() && c.animationFrame < c.sprites.up
    && c.currentGoalIndex <= |c.dailyGoals|
    && (c.activityState == Working ==> c.currentGoalIndex < |c.dailyGoals|)
    && (c.activityState == Exploring ==> c.explorationTarget.Some? && c.basePosition.Some?)
    && (if c.isPlayerControlled then OnPlayerMap(c.Position()) else OnMap(c.Position()))
  }

  lemma UniformAnimated(s: SpriteFrames)
    requires s.Uniform()
    ensures Animated(s)
    ensures forall dir: Direction :: s.Count(dir) == s.up
  {
    forall dir: Direction ensures s.Count(dir) == s.up {
      match dir
      case Up =>
      case Down =>
      case Left =>
      case Right =>
    }
  }

  /**
   * A resident set up from a definition with a uniform sprite sheet, standing
   * inside the area its clamps allow, starts with the record invariant.
   */
  lemma InitialCharacterValid(def: Definition, draws: SetupDraws)
    requires ValidSetupDraws(def, draws) && def.sprites.Uniform()
    requires if def.isPlayerControlled then OnPlayerMap(Point(def.x, def.y)) else OnMap(Point(def.x, def.y))
    ensures CharInvariant(InitialCharacter(def, draws))
  {
  }

  /** Every tick keeps the record invariant of every character. */
  lemma StepPreservesInvariant(c: Character, env: Env, d: TickDraws)
    requires CharInvariant(c) && ValidDraws(d, env.defs)
    ensures Animated(c.sprites)
    ensures CharInvariant(StepCharacter(c, env, d).next)
  {
    UniformAnimated(c.sprites);
    var res := StepCharacter(c, env, d);
    if c.isPlayerControlled {
      assert res.next == StepPlayer(c, env, d.step);
    } else if c.isInPlayerConversation || Reserved(env.interactions, c.id, env.now) {
      assert res.next == Idled(c);
    } else {
      match c.activityState
      case Working => assert res.next == StepWorking(c, env.now, d.offset);
      case Exploring => assert res.next == StepExploring(c, env, d);
      case RegeneratingTasks => assert res.next == StepRegenerating(c, env, d.regen);
      case Moving => MovingPreservesInvariant(c, env, d);
      case Idle => MovingPreservesInvariant(c, env, d);
    }
  }

  lemma MovingPreservesInvariant(c: Character, env: Env, d: TickDraws)
    requires CharInvariant(c) && !c.isPlayerControlled && ValidDraws(d, env.defs)
    requires c.activityState == Moving || c.activityState == Idle
    requires !c.isInPlayerConversation && !Reserved(env.interactions, c.id, env.now)
    ensures Animated(c.sprites)
    ensures CharInvariant(StepCharacter(c, env, d).next)
  {
    UniformAnimated(c.sprites);
    var res := StepCharacter(c, env, d);
    assert res == StepMoving(c, env, d);
    var e := EncounterFor(c, env.all, d.encounterRoll, env.lastInteraction, env.now);
    if !(EncounterGate(env.activeInteraction, env.playerConversationActive) && e.Some?) {
      assert res.next == Travel(c, env, d.step);
    }
  }

  // ---------------------------------------------------------------------------
  // One tick over every character.

  /** Every character can be animated and has valid draws for this tick. */
  predicate TickReady(chars: seq<Character>, env: Env, draws: seq<TickDraws>)
  {
    |draws| == |chars| && forall k :: 0 <= k < |chars| ==> Animated(chars[k].sprites) && ValidDraws(draws[k], env.defs)
  }

  /** `prevChars.map(...)`: every character's tick, in order. */
  function Steps(chars: seq<Character>, env: Env, draws: seq<TickDraws>): (r: seq<StepResult>)
    requires TickReady(chars, env, draws)
    ensures |r| == |chars|
    ensures forall k :: 0 <= k < |chars| ==> r[k] == StepCharacter(chars[k], env, draws[k])
  {
    seq(|chars|, k requires 0 <= k < |chars| => StepCharacter(chars[k], env, draws[k]))
  }

  function NextCharacters(results: seq<StepResult>): (r: seq<Character>)
    ensures |r| == |results|
    ensures forall k :: 0 <= k < |results| ==> r[k] == results[k].next
  {
    seq(|results|, k requires 0 <= k < |results| => results[k].next)
  }

  /**
   * The encounters started during a tick, in the order of their initiators:
   * every listed encounter was started by some character, and every encounter
   * some character started is listed.
   */
  function StartedEncounters(results: seq<StepResult>): (es: seq<Encounter>)
    ensures |es| <= |results|
    ensures forall e :: e in es ==> exists k :: 0 <= k < |results| && results[k].encounter == Some(e)
    ensures forall k :: 0 <= k < |results| && results[k].encounter.Some? ==> results[k].encounter.value in es
    ensures (forall k :: 0 <= k < |results| ==> results[k].encounter.None?) <==> es == []
    decreases |results|
  {
    if |results| == 0 then []
    else
      var rest := StartedEncounters(results[1..]);
      assert forall e :: e in rest ==> exists k :: 0 <= k < |results| && results[k].encounter == Some(e) by {
        forall e | e in rest ensures exists k :: 0 <= k < |results| && results[k].encounter == Some(e) {
          var j :| 0 <= j < |results[1..]| && results[1..][j].encounter == Some(e);
          assert results[j + 1] == results[1..][j];
        }
      }
      assert (forall k :: 0 <= k < |results[1..]| ==> results[1..][k].encounter.None?)
             <==> (forall k :: 1 <= k < |results| ==> results[k].encounter.None?) by {
        forall k | 1 <= k < |results| ensures results[k] == results[1..][k - 1] { }
      }
      assert forall k :: 1 <= k < |results| && results[k].encounter.Some? ==> results[k].encounter.value in rest by {
        forall k | 1 <= k < |results| && results[k].encounter.Some? ensures results[k].encounter.value in rest {
          assert results[k] == results[1..][k - 1];
        }
      }
      match results[0].encounter
        case Some(e) => [e] + rest
        case None => rest
  }

  /**
   * The encounters of a tick all start at its time, each between a resident
   * of the tick and the first character near it, when neither the player is
   * talking nor another encounter is under way.
   */
  lemma TickEncounters(chars: seq<Character>, env: Env, draws: seq<TickDraws>)
    requires TickReady(chars, env, draws)
    ensures var es := StartedEncounters(Steps(chars, env, draws));
      (forall k :: 0 <= k < |es| ==>
         es[k].now == env.now && es[k].initiator in chars && !es[k].initiator.isPlayerControlled
         && Near(es[k].initiator, es[k].partner) && es[k].partner in env.all)
      && (|es| > 0 ==> !env.activeInteraction && !env.playerConversationActive)
  {
    var results := Steps(chars, env, draws);
    var es := StartedEncounters(results);
    forall k | 0 <= k < |es|
      ensures es[k].now == env.now && es[k].initiator in chars && !es[k].initiator.isPlayerControlled
              && Near(es[k].initiator, es[k].partner) && es[k].partner in env.all
      ensures !env.activeInteraction && !env.playerConversationActive
    {
      assert es[k] in es;
      var j :| 0 <= j < |results| && results[j].encounter == Some(es[k]);
      EncounterConditions(chars[j], env, draws[j]);
    }
  }

  /** A tick keeps the record invariant of every character. */
  lemma TickPreservesInvariant(chars: seq<Character>, env: Env, draws: seq<TickDraws>)
    requires |draws| == |chars| && forall k :: 0 <= k < |chars| ==> CharInvariant(chars[k]) && ValidDraws(draws[k], env.defs)
    ensures TickReady(chars, env, draws)
    ensures forall k :: 0 <= k < |chars| ==> CharInvariant(NextCharacters(Steps(chars, env, draws))[k])
  {
    forall k | 0 <= k < |chars| ensures Animated(chars[k].sprites) {
      StepPreservesInvariant(chars[k], env, draws[k]);
    }
    forall k | 0 <= k < |chars| ensures CharInvariant(NextCharacters(Steps(chars, env, draws))[k]) {
      StepPreservesInvariant(chars[k], env, draws[k]);
    }
  }
}
