// The player's side of the town: walking to a clicked point, approaching a
// resident for a conversation, sending a message and recording the reply,
// and ending the conversation.
module Player {
  import opened Common
  import opened Residents
  import Dialogue

  /** The player's conversation with one resident. */
  datatype PlayerConversation = PlayerConversation(
    targetCharacter: Character,
    isActive: bool,
    isPlayerTurn: bool,
    currentMessage: string,
    isWaitingForResponse: bool)

  /** The player stops this far to the right of the resident it approaches. */
  const APPROACH_OFFSET: real := 50.0
  /** Delay (ms) between the approach and the opening of the conversation. */
  const OPEN_DELAY: int := 2000
  /** Delay (ms) between the outcome of the reply request and its display and recording. */
  const REPLY_DELAY: int := 1500
  const FALLBACK_REPLY: string := "I'm not sure how to respond to that right now."

  /** `characters.find(char => char.isPlayerControlled)`. */
  function FindPlayer(chars: seq<Character>): (r: Option<Character>)
    ensures r.Some? <==> exists k :: 0 <= k < |chars| && chars[k].isPlayerControlled
    ensures r.Some? ==> r.value in chars && r.value.isPlayerControlled
  {
    if |chars| == 0 then None
    else if chars[0].isPlayerControlled then Some(chars[0])
    else FindPlayer(chars[1..])
  }

  /** `handleMapClick`, on one record. */
  function Clicked(c: Character, p: Point): Character
  {
    if c.isPlayerControlled then c.(playerTarget := Some(p), activityState := Moving) else c
  }

  /**
   * `handleMapClick`: when there is a player, every player-controlled record
   * heads for the clicked point, moving; every other record is unchanged.
   * Without a player nothing changes.
   */
  function ClickMap(chars: seq<Character>, p: Point): (r: seq<Character>)
    ensures |r| == |chars|
    ensures FindPlayer(chars).None? ==> r == chars
    ensures forall k :: 0 <= k < |chars| && !chars[k].isPlayerControlled ==> r[k] == chars[k]
    ensures forall k :: 0 <= k < |chars| && chars[k].isPlayerControlled ==>
      r[k] == chars[k].(playerTarget := Some(p), activityState := Moving)
  {
    if FindPlayer(chars).None? then chars
    else seq(|chars|, k requires 0 <= k < |chars| => Clicked(chars[k], p))
  }

  /** `startPlayerConversation`, on one record. */
  function Approached(c: Character, target: Character): Character
  {
    if c.isPlayerControlled then
      c.(playerTarget := Some(Point(target.x + APPROACH_OFFSET, target.y)), activityState := Moving)
    else if c.id == target.id then
      c.(isInPlayerConversation := true, activityState := Idle)
    else c
  }

  /**
   * `startPlayerConversation`, at once: the player heads for a point 50 to
   * the right of the resident, moving, and the resident is held in the
   * conversation, idle; every other record is unchanged. Without a player
   * nothing changes.
   */
  function StartPlayerConversation(chars: seq<Character>, target: Character): (r: seq<Character>)
    ensures |r| == |chars|
    ensures FindPlayer(chars).None? ==> r == chars
    ensures FindPlayer(chars).Some? ==> forall k :: 0 <= k < |chars| ==>
      if chars[k].isPlayerControlled then
        r[k] == chars[k].(playerTarget := Some(Point(target.x + APPROACH_OFFSET, target.y)), activityState := Moving)
      else if chars[k].id == target.id then
        r[k] == chars[k].(isInPlayerConversation := true, activityState := Idle)
      else r[k] == chars[k]
  {
    if FindPlayer(chars).None? then chars
    else seq(|chars|, k requires 0 <= k < |chars| => Approached(chars[k], target))
  }

  /** The conversation opened 2000 ms after the approach: active, the player's turn, no message yet. */
  function OpenedConversation(target: Character): (conv: PlayerConversation)
    ensures conv.targetCharacter == target && conv.isActive && conv.isPlayerTurn
    ensures conv.currentMessage == [] && !conv.isWaitingForResponse
  {
    PlayerConversation(target, true, true, "", false)
  }

  /**
   * `sendPlayerMessage`, up to the request: without a conversation, with a
   * message that is blank once trimmed, or without a player nothing is sent;
   * otherwise the turn passes to the resident and the conversation waits for
   * the reply to the message.
   */
  function SubmitPlayerMessage(conv: Option<PlayerConversation>, message: string, chars: seq<Character>)
    : (r: Option<PlayerConversation>)
    ensures r.Some? <==> conv.Some? && !Dialogue.IsBlank(message) && FindPlayer(chars).Some?
    ensures r.Some? ==> r.value == conv.value.(isPlayerTurn := false, isWaitingForResponse := true, currentMessage := message)
  {
    if conv.None? || Dialogue.IsBlank(message) || FindPlayer(chars).None? then None
    else Some(conv.value.(isPlayerTurn := false, isWaitingForResponse := true, currentMessage := message))
  }

  /**
   * How the reply request ended: a reply from a successful response, a
   * response with an unsuccessful status, or a failure (network error or a
   * body that is not JSON).
   */
  datatype ReplyOutcome = Replied(text: string) | NotOk | Failed

  /**
   * The reply shown and recorded: the text received, the fixed fallback on a
   * failure, and nothing at all for an unsuccessful status.
   */
  function ReplyText(outcome: ReplyOutcome): (r: Option<string>)
    ensures outcome.Replied? ==> r == Some(outcome.text)
    ensures outcome.Failed? ==> r == Some(FALLBACK_REPLY)
    ensures outcome.NotOk? ==> r.None?
  {
    match outcome
      case Replied(text) => Some(text)
      case NotOk => None
      case Failed => Some(FALLBACK_REPLY)
  }

  /** The conversation after a reply, if it still exists: the player's turn again, no message, not waiting. */
  function ResumedConversation(conv: Option<PlayerConversation>): (r: Option<PlayerConversation>)
    ensures conv.None? ==> r.None?
    ensures conv.Some? ==>
      r.Some? && r.value.targetCharacter == conv.value.targetCharacter && r.value.isActive == conv.value.isActive
      && r.value.isPlayerTurn && !r.value.isWaitingForResponse && r.value.currentMessage == []
  {
    match conv
      case None => None
      case Some(p) => Some(p.(isPlayerTurn := true, isWaitingForResponse := false, currentMessage := ""))
  }

  /** The records and the conversation 1500 ms after the reply request ended. */
  datatype ReplyEffect = ReplyEffect(chars: seq<Character>, conversation: Option<PlayerConversation>)

  /**
   * The reply delivered: when there is a reply text, both the player's and
   * the resident's histories record the exchange and the conversation (if it
   * was not ended meanwhile) resumes; an unsuccessful status changes nothing,
   * so the conversation keeps waiting.
   */
  function DeliverReply(chars: seq<Character>, conv: Option<PlayerConversation>, player: Character,
                        target: Character, message: string, outcome: ReplyOutcome): (r: ReplyEffect)
    ensures ReplyText(outcome).None? ==> r == ReplyEffect(chars, conv)
    ensures ReplyText(outcome).Some? ==>
      r.chars == AddPlayerConversationToHistory(chars, player.id, target, message, ReplyText(outcome).value)
      && r.conversation == ResumedConversation(conv)
  {
    match ReplyText(outcome)
      case None => ReplyEffect(chars, conv)
      case Some(reply) =>
        ReplyEffect(AddPlayerConversationToHistory(chars, player.id, target, message, reply), ResumedConversation(conv))
  }

  /** `endPlayerConversation`, 50 ms later: no record is held in a conversation with the player any longer. */
  function EndPlayerConversation(chars: seq<Character>): (r: seq<Character>)
    ensures |r| == |chars|
    ensures forall k :: 0 <= k < |chars| ==> r[k] == chars[k].(isInPlayerConversation := false)
  {
    seq(|chars|, k requires 0 <= k < |chars| => chars[k].(isInPlayerConversation := false))
  }

  /**
   * Ending a conversation undoes the hold that starting it put on the
   * resident: afterwards no record is held, and every record differs from
   * the record before the start only in the player's target and activity
   * and the resident's activity.
   */
  lemma EndUndoesStart(chars: seq<Character>, target: Character)
    requires forall k :: 0 <= k < |chars| ==> !chars[k].isInPlayerConversation
    ensures var r := EndPlayerConversation(StartPlayerConversation(chars, target));
      |r| == |chars|
      && forall k :: 0 <= k < |chars| ==>
           !r[k].isInPlayerConversation
           && r[k] == chars[k].(playerTarget := r[k].playerTarget, activityState := r[k].activityState)
           && (!chars[k].isPlayerControlled && chars[k].id != target.id ==> r[k] == chars[k])
  {
  }

  /**
   * Every exchange of a player conversation grows the player's and the
   * resident's histories by two entries, and the reply shown is never empty
   * when the request failed.
   */
  lemma ReplyRecorded(chars: seq<Character>, conv: Option<PlayerConversation>, player: Character,
                      target: Character, message: string, outcome: ReplyOutcome, k: nat)
    requires k < |chars| && (chars[k].id == player.id || chars[k].id == target.id)
    requires !outcome.NotOk?
    ensures var r := DeliverReply(chars, conv, player, target, message, outcome);
      |r.chars[k].conversationHistory| == |chars[k].conversationHistory| + 2
      && r.chars[k].conversationHistory[|chars[k].conversationHistory|].message == message
      && r.chars[k].conversationHistory[|chars[k].conversationHistory| + 1].speaker == target.name
      && (outcome.Failed? ==> r.chars[k].conversationHistory[|chars[k].conversationHistory| + 1].message == FALLBACK_REPLY)
  {
  }
}
