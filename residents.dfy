// The resident record, the static definition it is built from, and the two
// history updates that append an exchange to the participants' records.
module Residents {
  import opened Common
  import opened Geometry
  import opened Shuffle
  import opened Tasks

  datatype ActivityState = Moving | Working | Exploring | Idle | RegeneratingTasks

  /** One line of a resident's conversation history, as that resident sees it. */
  datatype ConversationEntry = ConversationEntry(speaker: string, message: string, isSender: bool)

  /**
   * A resident (or the player) on the map. Optional properties of the record
   * are `Option`s; an absent `isInPlayerConversation` is `false`.
   */
  datatype Character = Character(
    id: int,
    name: string,
    personality: string,
    x: real,
    y: real,
    sprites: SpriteFrames,
    direction: Direction,
    animationFrame: nat,
    isMoving: bool,
    currentGoalIndex: nat,
    dailyGoals: seq<Goal>,
    activityState: ActivityState,
    taskStartTime: Option<int>,
    explorationStartTime: Option<int>,
    explorationTarget: Option<Point>,
    basePosition: Option<Point>,
    conversationHistory: seq<ConversationEntry>,
    isPlayerControlled: bool,
    playerTarget: Option<Point>,
    isInPlayerConversation: bool)
  {
    function Position(): Point
    {
      Point(x, y)
    }
  }

  /** A resident as the town defines it before the day starts. */
  datatype Definition = Definition(
    id: int,
    name: string,
    x: real,
    y: real,
    sprites: SpriteFrames,
    personalityKeywords: string,
    baseTasks: seq<Goal>,
    isPlayerControlled: bool)

  const PLAYER_PERSONALITY: string :=
    "You are the protagonist of this story. Your actions shape the world around you."
  const PERSONALITY_FALLBACK_PREFIX: string := "Failed to generate personality. Base traits: "

  /**
   * The personality text of a resident: fixed for the player; otherwise the
   * generated text, or the keywords behind a fixed prefix when generation fails.
   */
  function Personality(def: Definition, generated: Option<string>): (p: string)
    ensures def.isPlayerControlled ==> p == PLAYER_PERSONALITY
    ensures !def.isPlayerControlled && generated.Some? ==> p == generated.value
    ensures !def.isPlayerControlled && generated.None? ==>
      p == PERSONALITY_FALLBACK_PREFIX + def.personalityKeywords
      && p[|PERSONALITY_FALLBACK_PREFIX|..] == def.personalityKeywords
  {
    if def.isPlayerControlled then PLAYER_PERSONALITY
    else match generated
      case Some(text) => text
      case None => PERSONALITY_FALLBACK_PREFIX + def.personalityKeywords
  }

  /** The draws and service replies consumed while one resident is set up. */
  datatype SetupDraws = SetupDraws(generated: Option<string>, exploration: ExplorationRolls, order: seq<real>)

  predicate ValidSetupDraws(def: Definition, draws: SetupDraws)
  {
    ValidExplorationRolls(draws.exploration) && RollsFor(|def.baseTasks| + 3, draws.order)
  }

  /** The exploration tasks a resident starts with: none for the player. */
  function InitialExploration(def: Definition, draws: SetupDraws): (r: seq<Goal>)
    requires ValidExplorationRolls(draws.exploration)
    ensures def.isPlayerControlled ==> r == []
    ensures !def.isPlayerControlled ==> 2 <= |r| <= 3
  {
    if def.isPlayerControlled then [] else ExplorationTasks(draws.exploration)
  }

  /**
   * The record a resident starts the day with: facing down, standing still,
   * at the first goal of its shuffled base and exploration tasks, moving.
   */
  function InitialCharacter(def: Definition, draws: SetupDraws): (c: Character)
    requires ValidSetupDraws(def, draws)
    ensures c.id == def.id && c.name == def.name && c.x == def.x && c.y == def.y
    ensures c.sprites == def.sprites && c.isPlayerControlled == def.isPlayerControlled
    ensures c.personality == Personality(def, draws.generated)
    ensures multiset(c.dailyGoals) == multiset(def.baseTasks + InitialExploration(def, draws))
    ensures c.currentGoalIndex == 0 && c.activityState == Moving
    ensures c.direction == Down && c.animationFrame == 0 && !c.isMoving
    ensures c.conversationHistory == [] && !c.isInPlayerConversation
    ensures c.taskStartTime.None? && c.explorationStartTime.None? && c.explorationTarget.None?
    ensures c.basePosition.None? && c.playerTarget.None?
  {
    var exploration := InitialExploration(def, draws);
    Character(def.id, def.name, Personality(def, draws.generated), def.x, def.y, def.sprites, Down, 0, false,
              0, InitialGoals(def.baseTasks, exploration, draws.order), Moving, None, None, None, None,
              [], def.isPlayerControlled, None, false)
  }

  /** The definition with the given id (`characterDefinitions.find`). */
  function FindDefinition(defs: seq<Definition>, id: int): (r: Option<Definition>)
    ensures r.Some? <==> exists k :: 0 <= k < |defs| && defs[k].id == id
    ensures r.Some? ==> r.value in defs && r.value.id == id
  {
    if |defs| == 0 then None
    else if defs[0].id == id then Some(defs[0])
    else FindDefinition(defs[1..], id)
  }

  /** The two entries one participant of an exchange appends, as that participant sees them. */
  function ExchangeEntries(speaker1: string, message1: string, sender1: bool,
                           speaker2: string, message2: string, sender2: bool): seq<ConversationEntry>
  {
    [ConversationEntry(speaker1, message1, sender1), ConversationEntry(speaker2, message2, sender2)]
  }

  /** `addConversationToHistory`, on one record. */
  function RecordExchange(c: Character, char1: Character, char2: Character, m1: string, m2: string): Character
  {
    if c.id == char1.id then
      c.(conversationHistory := c.conversationHistory + ExchangeEntries(char1.name, m1, true, char2.name, m2, false))
    else if c.id == char2.id then
      c.(conversationHistory := c.conversationHistory + ExchangeEntries(char1.name, m1, false, char2.name, m2, true))
    else c
  }

  /**
   * `addConversationToHistory`: each participant's history grows by exactly
   * two entries, char1's line then char2's, and a participant is the sender of
   * its own line only; every other record, and every other field, is unchanged.
   */
  function AddConversationToHistory(chars: seq<Character>, char1: Character, char2: Character,
                                    m1: string, m2: string): (r: seq<Character>)
    ensures |r| == |chars|
    ensures forall k :: 0 <= k < |chars| ==>
      r[k] == chars[k].(conversationHistory := r[k].conversationHistory)
    ensures forall k :: 0 <= k < |chars| && chars[k].id != char1.id && chars[k].id != char2.id ==>
      r[k] == chars[k]
    ensures forall k :: 0 <= k < |chars| && (chars[k].id == char1.id || chars[k].id == char2.id) ==>
      r[k].conversationHistory == chars[k].conversationHistory
        + [ ConversationEntry(char1.name, m1, chars[k].id == char1.id),
            ConversationEntry(char2.name, m2, chars[k].id != char1.id) ]
  {
    seq(|chars|, k requires 0 <= k < |chars| => RecordExchange(chars[k], char1, char2, m1, m2))
  }

  /**
   * The two participants record the same exchange, with the sender flag of
   * every entry inverted between the two views.
   */
  lemma ConversationViewsInverted(chars: seq<Character>, char1: Character, char2: Character,
                                  m1: string, m2: string, i: nat, j: nat)
    requires i < |chars| && j < |chars| && chars[i].id == char1.id && chars[j].id == char2.id
    requires char1.id != char2.id
    ensures var r := AddConversationToHistory(chars, char1, char2, m1, m2);
      var h1 := r[i].conversationHistory[|chars[i].conversationHistory|..];
      var h2 := r[j].conversationHistory[|chars[j].conversationHistory|..];
      && |h1| == 2 && |h2| == 2
      && h1[0].speaker == h2[0].speaker && h1[0].message == h2[0].message && h1[0].isSender && !h2[0].isSender
      && h1[1].speaker == h2[1].speaker && h1[1].message == h2[1].message && !h1[1].isSender && h2[1].isSender
  {
    var r := AddConversationToHistory(chars, char1, char2, m1, m2);
    assert r[i].conversationHistory[|chars[i].conversationHistory|..]
      == [ConversationEntry(char1.name, m1, true), ConversationEntry(char2.name, m2, false)];
    assert r[j].conversationHistory[|chars[j].conversationHistory|..]
      == [ConversationEntry(char1.name, m1, false), ConversationEntry(char2.name, m2, true)];
  }

  /** The name under which the player speaks in every history. */
  const PLAYER_SPEAKER: string := "Prota"

  /** `addPlayerConversationToHistory`, on one record. */
  function RecordPlayerExchange(c: Character, playerId: int, target: Character,
                                playerMessage: string, reply: string): Character
  {
    if c.id == playerId || c.id == target.id then
      c.(conversationHistory := c.conversationHistory
           + ExchangeEntries(PLAYER_SPEAKER, playerMessage, c.id == playerId, target.name, reply, c.id == target.id))
    else c
  }

  /**
   * `addPlayerConversationToHistory`: the player and the resident talked to
   * each get two entries, the player's message (as "Prota") and then the
   * reply, each flagged as sent by the record that said it; every other
   * record, and every other field, is unchanged.
   */
  function AddPlayerConversationToHistory(chars: seq<Character>, playerId: int, target: Character,
                                          playerMessage: string, reply: string): (r: seq<Character>)
    ensures |r| == |chars|
    ensures forall k :: 0 <= k < |chars| ==>
      r[k] == chars[k].(conversationHistory := r[k].conversationHistory)
    ensures forall k :: 0 <= k < |chars| && chars[k].id != playerId && chars[k].id != target.id ==>
      r[k] == chars[k]
    ensures forall k :: 0 <= k < |chars| && (chars[k].id == playerId || chars[k].id == target.id) ==>
      r[k].conversationHistory == chars[k].conversationHistory
        + [ ConversationEntry(PLAYER_SPEAKER, playerMessage, chars[k].id == playerId),
            ConversationEntry(target.name, reply, chars[k].id == target.id) ]
  {
    seq(|chars|, k requires 0 <= k < |chars| => RecordPlayerExchange(chars[k], playerId, target, playerMessage, reply))
  }
}
