# Town resident scheduler

A model of the town simulation in `src/components/Town.tsx`. The town holds a
player and a group of residents on an 800×600 map. On every animation tick,
each resident takes one step of a small state machine:

- it travels to the location of its current daily goal;
- it works there for 5 s;
- it explores around the place for 3 s;
- it moves on to the next goal;
- when its goal list is exhausted, it pauses for 5 s and draws a fresh one.

A resident may start an encounter with any character within 60 pixels of it,
the player included. An encounter reserves both of them, plays a two-line dialogue on a fixed
timeline, records the exchange in both histories and releases them. The player
walks to where the map is clicked. The player can also hold a conversation with
one resident, which keeps that resident idle until the conversation ends.

The modules follow the parts of the component:

- `Common`: options and points.
- `Geometry`: the clamps, facings and animation frames.
- `Locations`: the location table.
- `Shuffle`: the Fisher–Yates shuffle. It is an array method proved against a
  function on sequences.
- `Tasks`: goals, exploration tasks and regeneration.
- `Residents`: the character record, its setup and the two history updates.
- `Dialogue`: the parsing of an encounter's dialogue and its timeline. The
  timeline is built by a loop method proved against a function.
- `Encounters`: nearby residents, the reservation and cooldown tables, and
  encounter start and release.
- `Scheduler`: the per-character tick and the tick over all characters.
- `Player`: the click, the approach, the messages, the replies and the end of a
  conversation.
- `TownState`: the `Town` class. Its fields are the component's state, and its
  methods change them, including the `gameTick` counter.

Some JavaScript behaviour is modelled literally:

- A timer started at time 0 is falsy, so it never expires.
- `basePosition?.x || char.x` falls back on the resident's own coordinate when
  the base coordinate is 0.
- A reservation whose end time is 0 counts as none.
- A missing cooldown entry counts as 0.
- `location.replace('_', ' ')` replaces only the first underscore.
- The `Name:` prefix and the surrounding quotes are stripped as the two
  regular expressions do.
- Blank lines are the ones that `trim()` empties, using the full JavaScript
  whitespace set.

The code and the specification of the system disagree in four places. The
model follows the code in each. The one bug found (see "## Findings") is
modelled both ways, and the tick over all characters runs the corrected
program (see "## Left out"). The four disagreements:

- **Facing ties.** A resident's facing goes vertical when the two step
  components have equal magnitude. The test is a strict `>`
  (`Geometry.TiesFaceVertically`).
- **Reservation vs release.** The reservation written when an encounter starts
  ends at `now + 14000`, counted from the tick. The release happens
  `6000·min(n, 2) + 1000` ms after the dialogue text arrives, so it also
  depends on how long the dialogue service takes. The two figures differ, and
  the reservation can end before the release: with two lines, a delay of
  1000 ms or more is enough (`Encounters.ReservationCoversRelease`,
  `Encounters.SlowFallbackOutlastsReservation`). The residents then walk on
  while their bubbles are still scheduled.
- **Several encounters in one tick.** Every resident in one tick reads the same
  snapshot of the encounter flag and the cooldowns (`src/components/Town.tsx:1300`,
  `:1308-1314`). So one tick can start both A→B and B→A, or A→B and C→B, and
  those encounters overlap (`Scheduler.OneTickCanStartOverlappingEncounters`).
- **Unsuccessful reply status.** A reply request answered with an unsuccessful
  HTTP status shows and records nothing. It also leaves the conversation
  waiting, because only a thrown error leads to the fallback reply
  (`Player.DeliverReply`).

## Model

| member | source | states |
|---|---|---|
| Geometry.Clamp | src/components/Town.tsx:525-526 | `Math.max(lo, Math.min(hi, v))` lies in [lo, hi], is `v` itself when `v` is inside, and otherwise is the bound `v` passed |
| Geometry.ClampNonExpansive | src/components/Town.tsx:525-526 | clamping never moves a value further from any point of the interval |
| Geometry.ClampToMap | src/components/Town.tsx:1392-1393 | after a resident's step the position is on the map [0, 752]×[0, 552], unchanged when it already was |
| Geometry.ClampToPlayerMap | src/components/Town.tsx:1126-1127 | after a player step the position is half a tile inside every edge, [24, 776]×[24, 576], unchanged when it already was |
| Geometry.ExplorationTarget | src/components/Town.tsx:515-529 | an exploration target always lies a full tile inside the map, and is the offset base point itself whenever that point is inside |
| Geometry.ExplorationTargetWithinRadius | src/components/Town.tsx:519-526 | from a base inside the exploration box, an offset within the 40-pixel radius gives a target still within 40 of the base: the clamp only pulls the target toward the base |
| Geometry.StepFacing | src/components/Town.tsx:1395-1400 | a resident faces left or right exactly when the horizontal step component is strictly larger in magnitude; it faces right exactly when that step goes right, and down exactly when the vertical step goes down |
| Geometry.TiesFaceVertically | src/components/Town.tsx:1396 | a step with equal components faces up or down |
| Geometry.PlayerFacing | src/components/Town.tsx:1129-1137 | the player turns to an axis only when it dominates the other by more than 0.3; within the threshold the current facing is kept |
| Geometry.NextFrame | src/components/Town.tsx:1402-1405 | on animation ticks the frame advances by one and wraps to 0 after the last; on other ticks it stays put |
| Locations.LocationOf | src/components/Town.tsx:23-49 | a location name resolves exactly when it is one of the 23 keys of the table, to its coordinates |
| Locations.ExplorationLocationsRegistered | src/components/Town.tsx:63-71 | each of the seven exploration locations is a key of the location table |
| Locations.ExplorationLocationsWellFormed | src/components/Town.tsx:63-71 | the seven exploration locations are distinct and contain no underscore |
| Shuffle.Draw | src/components/Town.tsx:55 | `Math.floor(Math.random() * (i + 1))` is an index at most `i` |
| Shuffle.Swap | src/components/Town.tsx:56 | the swap exchanges the two positions and leaves every other position alone |
| Shuffle.ShuffledIsPermutation | src/components/Town.tsx:52-59 | the shuffled copy has the input's length and the input's multiset of elements |
| Shuffle.ShuffledSameElements | src/components/Town.tsx:52-59 | an element is in the shuffled copy exactly when it is in the input |
| Shuffle.ShuffledDistinct | src/components/Town.tsx:52-59 | shuffling a list without repeats gives a list without repeats |
| Shuffle.ShuffleArray | src/components/Town.tsx:52-59 | the in-place loop over a fresh copy computes exactly the shuffle function, so by the lemmas above it returns a permutation; the argument array is not modified |
| Tasks.ReplaceFirstUnderscore | src/components/Town.tsx:76 | only the first underscore of a location becomes a space; the length and every other character are kept |
| Tasks.TaskCount | src/components/Town.tsx:73 | `2 + Math.floor(Math.random() * 2)` is 2 or 3 |
| Tasks.ExplorationTasks | src/components/Town.tsx:62-80 | 2 or 3 goals, at pairwise distinct exploration locations, each `Explore <location>` and not completed |
| Tasks.InitialGoals | src/components/Town.tsx:482-483 | a resident's first goal list is a permutation of its base tasks followed by its exploration tasks |
| Tasks.RegeneratedGoals | src/components/Town.tsx:1281-1287 | a regenerated list holds the base count plus 2 or 3 goals, none completed; it is a permutation of the base and fresh exploration tasks with their flags cleared |
| Tasks.ResetCommutesWithShuffle | src/components/Town.tsx:1283-1287 | clearing the completed flags after the shuffle gives the same list as clearing them before |
| Tasks.RegenerationKeepsBaseTasks | src/components/Town.tsx:1281-1287 | every base task comes back, not completed, in the regenerated list; every other goal there is at an exploration location |
| Tasks.MarkCompleted | src/components/Town.tsx:1192-1195 | only the goal at the cursor becomes completed, and an index past the end changes nothing |
| Residents.Personality | src/components/Town.tsx:474-476 | the player has the fixed protagonist text. A resident has the generated text, or the fallback prefix followed by its keywords when generation fails |
| Residents.InitialExploration | src/components/Town.tsx:479-481 | the player gets no exploration tasks; a resident gets 2 or 3 |
| Residents.InitialCharacter | src/components/Town.tsx:470-497 | a record starts from its definition: facing down, frame 0, standing, cursor 0, moving, empty history, no timers or targets, and goals that are a permutation of base plus exploration tasks |
| Residents.FindDefinition | src/components/Town.tsx:1279 | a definition is found exactly when one has the resident's id, and what is found has that id |
| Residents.AddConversationToHistory | src/components/Town.tsx:661-708 | each participant's history grows by exactly two entries, char1's line then char2's. A participant is the sender of its own line only. Non-participants and all other fields are unchanged |
| Residents.ConversationViewsInverted | src/components/Town.tsx:667-696 | the two participants record the same two lines with every sender flag inverted between their views |
| Residents.AddPlayerConversationToHistory | src/components/Town.tsx:987-1023 | the player and the resident each gain the player's message (as "Prota") then the reply, flagged as sent by whoever said it. Every other record and field is unchanged |
| Dialogue.SplitLines | src/components/Town.tsx:716 | `split('\n')` yields at least one piece, and no piece contains a newline |
| Dialogue.JoinSplit | src/components/Town.tsx:716 | joining the pieces of a split with newlines gives back the dialogue |
| Dialogue.SplitJoin | src/components/Town.tsx:716 | splitting lines that contain no newline, once joined, gives back those lines |
| Dialogue.NonBlankLinesMembers | src/components/Town.tsx:716 | a line survives the filter exactly when it is one of the lines that `trim()` does not empty |
| Dialogue.NonBlankLinesConcat | src/components/Town.tsx:716 | the filter keeps the lines' order: filtering a concatenation is filtering each part |
| Dialogue.NonBlankLinesSingle | src/components/Town.tsx:716 | a single line is kept exactly when `trim()` does not empty it |
| Dialogue.DialogueLinesWellFormed | src/components/Town.tsx:716 | the dialogue lines contain no newline and none of them is blank |
| Dialogue.DropLeadingWhitespaceSpec | src/components/Town.tsx:732 | `\s*` removes a whitespace prefix, up to the first non-whitespace character |
| Dialogue.StripSpeakerSpec | src/components/Town.tsx:732 | the speaker prefix `Name:` and the whitespace after it are removed when the line starts with it; otherwise the line is kept |
| Dialogue.StripSpeakerOfPrefixed | src/components/Town.tsx:732 | a line `Name:` + whitespace + text, where the text does not start with whitespace, is reduced to the text |
| Dialogue.StripQuotesOfQuoted | src/components/Town.tsx:733 | one leading and one trailing quote character are removed |
| Dialogue.StripQuotesOfUnquoted | src/components/Town.tsx:733 | a text with no surrounding quotes is unchanged |
| Dialogue.SlotStartIsProduct | src/components/Town.tsx:784 | the i-th line starts 6000·i ms after the dialogue arrives |
| Dialogue.ShownMessages | src/components/Town.tsx:725-743 | at most two lines are shown |
| Dialogue.CuesInSlots | src/components/Town.tsx:745-784 | the cues of the shown lines run in chronological order, and the four cues of line i lie within that line's own 6000 ms slot [6000·i, 6000·(i+1)) |
| Dialogue.StartConversation | src/components/Town.tsx:716-805 | the loop that accumulates `currentTimeout` schedules exactly the timeline of the shown lines |
| Dialogue.TimelineShape | src/components/Town.tsx:787-805 | the timeline is chronological. The history is recorded only when both messages are non-empty, and the only record is the first message then the second, at the end of the last slot. The release comes last, 1000 ms after the slots |
| Dialogue.ReleaseTime | src/components/Town.tsx:794-805 | the last cue is the release, 6000·min(n, 2) + 1000 ms after the dialogue text arrives for n dialogue lines, so at most 13000 ms |
| Encounters.ReservationCoversRelease | src/components/Town.tsx:1316-1325 | a participant is still reserved at the release exactly when the dialogue's delay is below 14000 − 1000 − 6000·min(n, 2) ms, because the reservation counts from the tick and the release from the arrival of the text |
| Encounters.SlowFallbackOutlastsReservation | src/components/Town.tsx:651-656 | when the service fails after 1000 ms or more, neither participant is reserved any longer when the two-line fallback greeting is released |
| Dialogue.FallbackTexts | src/components/Town.tsx:656 | for names without newlines, the fallback dialogue shows "Hello <second>!" then "Hey there, <first>!" |
| Dialogue.FallbackRecorded | src/components/Town.tsx:651-656 | when the dialogue service fails, the fallback greeting always leads to a recorded history exchange |
| Encounters.FindNearby | src/components/Town.tsx:531-542 | only other characters closer than 60 are found, each taken from the input |
| Encounters.FindNearbyComplete | src/components/Town.tsx:531-542 | every other character closer than 60 is found |
| Encounters.FindNearbyFirst | src/components/Town.tsx:531-542 | the first character found is the first near one in the input's order |
| Encounters.LastInteraction | src/components/Town.tsx:1308-1310 | `lastInteractionTime[id] \|\| 0`: the recorded time, or 0 when there is none |
| Encounters.EncounterFor | src/components/Town.tsx:1301-1315 | an encounter starts exactly when someone is near, the roll is below 0.003, and both cooldowns are over. It is with the first character found, and that partner is near |
| Encounters.Reserve | src/components/Town.tsx:1316-1325 | both participants are reserved until now + 14000, and every other reservation is kept |
| Encounters.Stamp | src/components/Town.tsx:1327-1331 | both participants' last encounter is now, and every other entry is kept |
| Encounters.EncounterTables | src/components/Town.tsx:1316-1331 | after all encounters of a tick, every participant is reserved until now + 14000 and stamped now. Everyone else's entries are unchanged, and none is removed |
| Encounters.ParticipantsReserved | src/components/Town.tsx:1174-1186 | a participant counts as reserved at every time before its reservation ends |
| Encounters.Release | src/components/Town.tsx:797-805 | the release deletes both participants' reservations and keeps the others |
| Encounters.ReleaseFrees | src/components/Town.tsx:797-805 | once released, neither participant is reserved at any time; others are unaffected |
| Scheduler.StepPlayer | src/components/Town.tsx:1074-1160 | the player is held idle during a conversation, a reservation, or with no target, and stops within 8 of its target. Otherwise it steps into the player area, with hysteresis facing, animating only while further than 3; nothing else changes |
| Scheduler.StepWorking | src/components/Town.tsx:1190-1213 | after 5000 ms of work the cursor's goal is completed, keeping its task and location, every other goal is unchanged, and the cursor advances by one. The resident explores from where it stands toward a target in the exploration box. Before that only `isMoving` and the frame reset |
| Scheduler.ExplorationAnchor | src/components/Town.tsx:1235-1238 | a new exploration target is drawn around the base position, coordinate by coordinate; without a base, or for a base coordinate of 0, that coordinate is the resident's own |
| Scheduler.StepExploring | src/components/Town.tsx:1215-1275 | after 3000 ms the resident moves on with target, start and base cleared. Before that, reaching the target changes only the target, and otherwise it steps on the map; without a target it is left as it is |
| Scheduler.StepRegenerating | src/components/Town.tsx:1277-1294 | after the 5000 ms pause, with a definition found, the goals become a regenerated list of base plus 2–3 exploration tasks, none completed, with cursor 0 and timer cleared. Otherwise the resident only stops |
| Scheduler.Travel | src/components/Town.tsx:1348-1414 | an exhausted list starts the regeneration pause now. An unknown location completes and skips the goal. A goal within 5 starts work now. Otherwise the resident steps toward the goal on the map |
| Scheduler.StepMovingGated | src/components/Town.tsx:1299-1346 | with the gate open and an encounter due, the initiator stops, idle, and the encounter is reported; otherwise the resident travels |
| Scheduler.StepMovingAsWritten | src/components/Town.tsx:1300 | with the source's gate, an encounter can start only when no encounter is under way or the player is talking |
| Scheduler.StepMoving | src/components/Town.tsx:1299-1300 | with the intended gate, an encounter starts only when no encounter is under way and the player is not talking |
| Scheduler.StepResident | src/components/Town.tsx:1164-1298 | a resident in a conversation with the player, or reserved, becomes idle, stopped, frame 0, with nothing else changed. A free resident that is moving or idle takes the moving branch, and only such a resident starts encounters |
| Scheduler.StepCharacter | src/components/Town.tsx:1072-1075 | the player takes the player's tick and starts no encounter; a resident takes the resident's tick |
| Scheduler.StepKeepsIdentity | src/components/Town.tsx:1072-1418 | no tick changes a character's id, name, personality, control, sprites, history or conversation hold |
| Scheduler.WorkingTransition | src/components/Town.tsx:1190-1213 | a free working resident leaves work exactly when 5000 ms have passed, completing its goal, advancing the cursor by one, and exploring from its position since now |
| Scheduler.ExploringTransition | src/components/Town.tsx:1215-1243 | a free exploring resident returns to moving exactly when 3000 ms have passed, with all exploration fields cleared; reaching the target earlier changes only the target |
| Scheduler.ExhaustionStartsRegeneration | src/components/Town.tsx:1348-1358 | a free resident on its way whose cursor is past its goals, with no encounter, starts regenerating now, goals untouched |
| Scheduler.RegenerationTransition | src/components/Town.tsx:1277-1294 | a free regenerating resident gets new goals exactly when the pause has passed and its definition exists. Every base task then comes back not completed, with cursor 0 |
| Scheduler.EncounterConditions | src/components/Town.tsx:1299-1343 | an encounter starts only for a free resident on its way, with no encounter under way and the player not talking. It is with the first near character, on a low roll, with both cooldowns over, and the initiator becomes idle. Conversely, under those conditions the resident does start that encounter |
| Scheduler.GateAsWrittenAdmitsEncounterDuringPlayerConversation | src/components/Town.tsx:1299-1300 | two residents side by side start an encounter under the source's gate while the player is talking, and do not under the intended gate |
| Scheduler.SameSpotResidentsMeet | src/components/Town.tsx:1300-1315 | two free moving residents on the same spot, both due for an encounter, each start one with the other in the same tick |
| Scheduler.OneTickCanStartOverlappingEncounters | src/components/Town.tsx:1300-1315 | there is a tick in which two residents start encounters with each other at once |
| Scheduler.InitialCharacterValid | src/components/Town.tsx:470-497 | a record set up from a uniform sprite sheet inside its area starts with the record invariant |
| Scheduler.StepPreservesInvariant | src/components/Town.tsx:1072-1418 | each tick keeps the record invariant: uniform sprites with the frame inside them, cursor at most one past the goals, a working resident on an existing goal, an exploring one with target and base, and the position inside its clamp area |
| Scheduler.StartedEncounters | src/components/Town.tsx:1316-1343 | every listed encounter was started by a character of the tick, and every encounter a character started is listed; the list is empty exactly when none was started |
| Scheduler.TickEncounters | src/components/Town.tsx:1299-1343 | every encounter of a tick starts now, by a resident of the tick, with a character near it, and only when no encounter is under way and the player is not talking |
| Scheduler.TickPreservesInvariant | src/components/Town.tsx:1071-1420 | a tick keeps every character's record invariant |
| Player.FindPlayer | src/components/Town.tsx:810 | the player is found exactly when some record is player-controlled |
| Player.ClickMap | src/components/Town.tsx:1440-1462 | with a player, the player heads for the clicked point, moving, and nobody else changes; without a player nothing changes |
| Player.StartPlayerConversation | src/components/Town.tsx:809-832 | the player heads for 50 to the right of the resident, moving. The resident is held in the conversation, idle. Everyone else is unchanged, and without a player nothing changes |
| Player.OpenedConversation | src/components/Town.tsx:835-845 | the conversation opens active, on the player's turn, with no message and not waiting |
| Player.SubmitPlayerMessage | src/components/Town.tsx:849-868 | a message goes out exactly when there is a conversation, a player and a message that is not blank once trimmed. The turn then passes and the conversation waits for that message's reply |
| Player.ReplyText | src/components/Town.tsx:900-946 | the reply is the received text, the fixed fallback on a failure, and nothing on an unsuccessful status |
| Player.DeliverReply | src/components/Town.tsx:900-983 | a reply text is recorded in both histories and the conversation, if still there, resumes on the player's turn; an unsuccessful status changes nothing |
| Player.EndPlayerConversation | src/components/Town.tsx:1057-1063 | no record is held in a conversation with the player any longer, and nothing else changes |
| Player.EndUndoesStart | src/components/Town.tsx:809-832 | ending after starting releases every hold; records differ from before only in the player's target and the activities |
| Player.ReplyRecorded | src/components/Town.tsx:963-968 | with a reply text, each side's history gains the player's message then the resident's reply, which on failure is the fallback |
| TownState.Town.constructor | src/components/Town.tsx:432-449 | a town starts with no reservations, no cooldowns, nothing under way and the tick counter at 0; records that keep their invariant give a valid town |
| TownState.Town.Tick | src/components/Town.tsx:1066-1421 | the tick counter grows by one and animations advance on every 15th tick. Every record takes its tick from the records as they were. The encounters started are reserved and stamped, the encounter flag is raised when there is one, and the record invariant is kept |
| TownState.Town.RecordConversation | src/components/Town.tsx:788-792 | the history cue records the exchange in both participants' histories and changes nothing else |
| TownState.Town.ReleaseEncounter | src/components/Town.tsx:797-805 | the release cue removes both reservations and lowers the encounter flag |
| TownState.Town.ClickMap | src/components/Town.tsx:1440-1462 | a click sends the player toward the point and keeps the record invariant |
| TownState.Town.ApproachResident | src/components/Town.tsx:809-832 | the approach moves the player and holds the resident, keeping the record invariant |
| TownState.Town.OpenPlayerConversation | src/components/Town.tsx:835-845 | 2000 ms later the conversation opens active and the encounter flag is raised |
| TownState.Town.SendPlayerMessage | src/components/Town.tsx:849-868 | a message is sent exactly when the conversation, the player and a non-blank message exist; only then does the conversation wait |
| TownState.Town.ReceiveReply | src/components/Town.tsx:900-983 | a reply text is recorded, the conversation resumes and the typed text is cleared; an unsuccessful status changes nothing |
| TownState.Town.EndPlayerConversation | src/components/Town.tsx:1057-1063 | the conversation and typed text are cleared, the encounter flag is lowered, and no record stays held |

## Left out

- The network calls become inputs. The generated personality, the dialogue text and the reply to the player are each an optional string or an outcome, with the source's fixed fallbacks. The prompts are not modelled.
- The timers become data. `setTimeout`, `requestAnimationFrame` and the React effects are represented as cues with their delays (`Dialogue.Scheduled`) and as `Town` methods to call when each delay has passed.
- Stale reads are not modelled. The source's state setters run later and its callbacks read state captured earlier. Each tick here reads one snapshot of the tables and flags, and each timer effect applies to the state current when it fires.
- The DOM is not modelled: the typing indicators and message bubbles, their 300 ms fade-out and removal, the history panel, the click indicator, the conversation dialog, image preloading, JSX and CSS.
- Floating point is not modelled. Positions are exact reals, and distance tests compare squared distances. The step vectors (direction over distance times speed, the player's speed multiplier, the 0.7 exploration factor) and the polar offsets of exploration targets (`Math.cos`/`Math.sin` of random draws) are inputs, and only their use is modelled.
- `Scheduler.StepExploring` and `Scheduler.Travel` do not relate the direction of the step to the target, because the step vector is an input; only the clamp, the facing and the frame are stated.
- `Math.random` draws are inputs in [0, 1). Validity of the draws is a precondition of the members that consume them.
- Sprite sheets are assumed to have at least one frame per direction, which every sheet of the town has. With an empty sheet the source's `% length` would produce NaN.
- Aliasing of goal objects is not modelled. The source completes a goal in place on an object that the initial shuffle shares with the definition's base tasks. The model updates the resident's goal list at the cursor. The shared object is only read again by a regeneration, which clears the flag anyway.
- Speaker names are used literally in the `Name:` prefix match. A name containing regular-expression metacharacters would be read as a pattern by the source.
- JavaScript object keys are modelled as integer ids. `id.toString()` keys and the string-keyed maps are not.
- Scheduler.StepResident, Scheduler.StepCharacter, Scheduler.Steps, Scheduler.TickEncounters, TownState.Town.Tick: the tick modelled is the corrected program. Its moving branch opens to encounters only when no encounter is under way and the player is not talking (`Scheduler.StepMoving`), where the source at `src/components/Town.tsx:1300` also opens it during an active player conversation. The gate as written is modelled for one resident (`Scheduler.StepMovingAsWritten`), not for a whole tick; see "## Findings".
- `Locations.LocationOf` resolves only the table's own keys. A JavaScript object lookup (`src/components/Town.tsx:1360`) also resolves inherited names such as `constructor` or `toString`. No goal uses such a name.
- `src/index.tsx`, `src/App.tsx` and `src/types/Character.ts` are not part of this model. They hold I/O, a wrapper and a type with no logic.

## Findings

| source | as written | input that shows it | evidently intended | confidence | as-written member | corrected member |
|---|---|---|---|---|---|---|
| src/components/Town.tsx:1299-1300 | the gate `!activeInteraction \|\| playerConversation?.isActive`, under the comment "Skip automatic interactions during player conversations", lets residents start encounters while the player's conversation is active | an open player conversation (`activeInteraction` true, `isActive` true); two free residents 0 apart, both cooled down; roll 0.0 | `!activeInteraction && !playerConversation?.isActive`: no encounter while one is under way or the player is talking | medium, not executed | Scheduler.StepMovingAsWritten, Scheduler.GateAsWrittenAdmitsEncounterDuringPlayerConversation | Scheduler.StepMoving, Scheduler.TickEncounters |
