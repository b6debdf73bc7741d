// The town's mutable state and the operations that change it: the animation
// tick, and the effects of the cues of an encounter and of the player's
// conversation.
module TownState {
  import opened Common
  import opened Residents
  import opened Encounters
  import opened Scheduler
  import Player
  import Dialogue

  class Town {
    /** Every resident and the player, in definition order. */
    var characters: seq<Character>
    /** Reservation end times, by resident id. */
    var interactions: Reservations
    /** Start times of the last encounters, by resident id. */
    var lastInteractionTime: LastInteractions
    /** Raised while an encounter or a conversation with the player is under way. */
    var activeInteraction: bool
    var playerConversation: Option<Player.PlayerConversation>
    /** The text the player is typing. */
    var playerMessage: string
    /** Ticks since the town started; every 15th one advances the animations. */
    var gameTick: nat

    /** Every record keeps its invariant. */
    ghost predicate Valid()
      reads this
    {
      forall k :: 0 <= k < |characters| ==> CharInvariant(characters[k])
    }

    /**
     * A town with the given records, no reservations, no cooldowns and nothing
     * under way; records that keep their invariant make a valid town.
     */
    constructor(chars: seq<Character>)
      requires forall k :: 0 <= k < |chars| ==> CharInvariant(chars[k])
      ensures Valid()
      ensures characters == chars && interactions == map[] && lastInteractionTime == map[]
      ensures !activeInteraction && playerConversation.None? && playerMessage == [] && gameTick == 0
    {
      characters := chars;
      interactions := map[];
      lastInteractionTime := map[];
      activeInteraction := false;
      playerConversation := None;
      playerMessage := "";
      gameTick := 0;
    }

    /** Whether the player's conversation is active (`playerConversation?.isActive`). */
    function PlayerTalking(): bool
      reads this
    {
      playerConversation.Some? && playerConversation.value.isActive
    }

    /**
     * `updateCharacters`: counts the tick, advances animations on every 15th
     * one, applies every character's tick to the records as they were, and
     * writes the reservations and cooldowns of the encounters started,
     * raising the encounter flag when there is one.
     */
    method Tick(now: int, defs: seq<Definition>, draws: seq<TickDraws>) returns (started: seq<Encounter>)
      requires Valid()
      requires |draws| == |characters| && forall k :: 0 <= k < |draws| ==> ValidDraws(draws[k], defs)
      modifies this
      ensures Valid()
      ensures gameTick == old(gameTick) + 1
      ensures var env := Env(now, gameTick % ANIMATION_TICK_SPEED == 0, old(interactions), old(lastInteractionTime),
                             old(activeInteraction), old(PlayerTalking()), old(characters), defs);
        TickReady(old(characters), env, draws)
        && characters == NextCharacters(Steps(old(characters), env, draws))
        && started == StartedEncounters(Steps(old(characters), env, draws))
      ensures |characters| == |old(characters)|
      ensures interactions == ReserveAll(old(interactions), started)
      ensures lastInteractionTime == StampAll(old(lastInteractionTime), started)
      ensures activeInteraction == (old(activeInteraction) || |started| > 0)
      ensures |started| > 0 ==> !old(activeInteraction) && !old(PlayerTalking())
      ensures forall k :: 0 <= k < |started| ==> started[k].now == now
      ensures playerConversation == old(playerConversation) && playerMessage == old(playerMessage)
    {
      gameTick := gameTick + 1;
      var shouldUpdateFrame := gameTick % ANIMATION_TICK_SPEED == 0;
      var env := Env(now, shouldUpdateFrame, interactions, lastInteractionTime, activeInteraction,
                     PlayerTalking(), characters, defs);
      TickPreservesInvariant(characters, env, draws);
      TickEncounters(characters, env, draws);
      var results := Steps(characters, env, draws);
      started := StartedEncounters(results);
      characters := NextCharacters(results);
      interactions := ReserveAll(interactions, started);
      lastInteractionTime := StampAll(lastInteractionTime, started);
      if |started| > 0 {
        activeInteraction := true;
      }
    }

    /** The history cue of an encounter: both participants record the exchange. */
    method RecordConversation(char1: Character, char2: Character, message1: string, message2: string)
      requires Valid()
      modifies this
      ensures Valid()
      ensures characters == AddConversationToHistory(old(characters), char1, char2, message1, message2)
      ensures interactions == old(interactions) && lastInteractionTime == old(lastInteractionTime)
      ensures activeInteraction == old(activeInteraction) && playerConversation == old(playerConversation)
      ensures playerMessage == old(playerMessage) && gameTick == old(gameTick)
    {
      characters := AddConversationToHistory(characters, char1, char2, message1, message2);
    }

    /** The release cue of an encounter: both reservations are removed and the encounter flag is lowered. */
    method ReleaseEncounter(initiatorId: int, partnerId: int)
      modifies this
      ensures interactions == Release(old(interactions), initiatorId, partnerId)
      ensures !activeInteraction
      ensures characters == old(characters) && lastInteractionTime == old(lastInteractionTime)
      ensures playerConversation == old(playerConversation) && playerMessage == old(playerMessage)
      ensures gameTick == old(gameTick)
    {
      interactions := Release(interactions, initiatorId, partnerId);
      activeInteraction := false;
    }

    /** `handleMapClick`: the player heads for the clicked point. */
    method ClickMap(p: Point)
      requires Valid()
      modifies this
      ensures Valid()
      ensures characters == Player.ClickMap(old(characters), p)
      ensures interactions == old(interactions) && lastInteractionTime == old(lastInteractionTime)
      ensures activeInteraction == old(activeInteraction) && playerConversation == old(playerConversation)
      ensures playerMessage == old(playerMessage) && gameTick == old(gameTick)
    {
      characters := Player.ClickMap(characters, p);
    }

    /** `startPlayerConversation`, at once: the player approaches, the resident is held. */
    method ApproachResident(target: Character)
      requires Valid()
      modifies this
      ensures Valid()
      ensures characters == Player.StartPlayerConversation(old(characters), target)
      ensures interactions == old(interactions) && lastInteractionTime == old(lastInteractionTime)
      ensures activeInteraction == old(activeInteraction) && playerConversation == old(playerConversation)
      ensures playerMessage == old(playerMessage) && gameTick == old(gameTick)
    {
      characters := Player.StartPlayerConversation(characters, target);
    }

    /**
     * `startPlayerConversation`, 2000 ms later: the conversation opens on the
     * player's turn and the encounter flag is raised. Nothing checks whether
     * there is a player or whether the approach happened.
     */
    method OpenPlayerConversation(target: Character)
      modifies this
      ensures playerConversation == Some(Player.OpenedConversation(target)) && PlayerTalking()
      ensures activeInteraction
      ensures characters == old(characters) && interactions == old(interactions)
      ensures lastInteractionTime == old(lastInteractionTime)
      ensures playerMessage == old(playerMessage) && gameTick == old(gameTick)
    {
      playerConversation := Some(Player.OpenedConversation(target));
      activeInteraction := true;
    }

    /**
     * `sendPlayerMessage`, up to the request: `sent` tells whether the message
     * goes out; only then does the conversation wait for the reply.
     */
    method SendPlayerMessage() returns (sent: bool)
      modifies this
      ensures sent <==> old(playerConversation).Some? && !Dialogue.IsBlank(old(playerMessage))
                        && Player.FindPlayer(old(characters)).Some?
      ensures sent ==> playerConversation == Player.SubmitPlayerMessage(old(playerConversation), old(playerMessage), old(characters))
      ensures sent ==> playerConversation.Some? && playerConversation.value.isWaitingForResponse
                       && !playerConversation.value.isPlayerTurn
      ensures !sent ==> playerConversation == old(playerConversation)
      ensures characters == old(characters) && interactions == old(interactions)
      ensures lastInteractionTime == old(lastInteractionTime) && activeInteraction == old(activeInteraction)
      ensures playerMessage == old(playerMessage) && gameTick == old(gameTick)
    {
      var next := Player.SubmitPlayerMessage(playerConversation, playerMessage, characters);
      sent := next.Some?;
      if sent {
        playerConversation := next;
      }
    }

    /**
     * `sendPlayerMessage`, 1500 ms after the request ended: with a reply text
     * the exchange is recorded, the conversation resumes and the typed text is
     * cleared; after an unsuccessful status nothing changes.
     */
    method ReceiveReply(player: Character, target: Character, message: string, outcome: Player.ReplyOutcome)
      requires Valid()
      modifies this
      ensures Valid()
      ensures var effect := Player.DeliverReply(old(characters), old(playerConversation), player, target, message, outcome);
        characters == effect.chars && playerConversation == effect.conversation
      ensures playerMessage == if Player.ReplyText(outcome).Some? then [] else old(playerMessage)
      ensures interactions == old(interactions) && lastInteractionTime == old(lastInteractionTime)
      ensures activeInteraction == old(activeInteraction) && gameTick == old(gameTick)
    {
      var effect := Player.DeliverReply(characters, playerConversation, player, target, message, outcome);
      characters := effect.chars;
      playerConversation := effect.conversation;
      if Player.ReplyText(outcome).Some? {
        playerMessage := "";
      }
    }

    /**
     * `endPlayerConversation`, 50 ms later: the conversation and the typed
     * text are cleared, the encounter flag is lowered, and no record is held
     * in a conversation with the player.
     */
    method EndPlayerConversation()
      requires Valid()
      modifies this
      ensures Valid()
      ensures playerConversation.None? && playerMessage == [] && !activeInteraction
      ensures characters == Player.EndPlayerConversation(old(characters))
      ensures forall k :: 0 <= k < |characters| ==> !characters[k].isInPlayerConversation
      ensures interactions == old(interactions) && lastInteractionTime == old(lastInteractionTime)
      ensures gameTick == old(gameTick)
    {
      playerConversation := None;
      playerMessage := "";
      activeInteraction := false;
      characters := Player.EndPlayerConversation(characters);
    }
  }
}
