// Encounter coordination between residents: who is near whom, the cooldown
// and reservation tables keyed by resident id, and what starting and releasing
// an encounter writes into them.
module Encounters {
  import opened Common
  import opened Residents
  import Dialogue

  const INTERACTION_DISTANCE: real := 60.0
  const INTERACTION_COOLDOWN: int := 25000
  const INTERACTION_PROBABILITY: real := 0.003

  /** `other` counts as near `c`: another id, closer than the interaction distance. */
  predicate Near(c: Character, other: Character)
  {
    other.id != c.id && Closer(c.Position(), other.Position(), INTERACTION_DISTANCE)
  }

  /** `findNearbyCharacters`: the characters near `c`, in their order in `all`. */
  function FindNearby(c: Character, all: seq<Character>): (r: seq<Character>)
    ensures |r| <= |all|
    ensures forall o :: o in r ==> o in all && Near(c, o)
  {
    if |all| == 0 then []
    else (if Near(c, all[0]) then [all[0]] else []) + FindNearby(c, all[1..])
  }

  /** Every character near `c` is found. */
  lemma {:induction false} FindNearbyComplete(c: Character, all: seq<Character>)
    ensures forall o :: o in all && Near(c, o) ==> o in FindNearby(c, all)
  {
    if |all| > 0 {
      FindNearbyComplete(c, all[1..]);
      assert all == [all[0]] + all[1..];
    }
  }

  /**
   * The first character found is the first near one in `all`: every
   * character before it is not near `c`.
   */
  lemma {:induction false} FindNearbyFirst(c: Character, all: seq<Character>)
    requires |FindNearby(c, all)| > 0
    ensures exists k :: 0 <= k < |all| && all[k] == FindNearby(c, all)[0]
                        && forall j :: 0 <= j < k ==> !Near(c, all[j])
  {
    if Near(c, all[0]) {
      assert all[0] == FindNearby(c, all)[0];
    } else {
      assert FindNearby(c, all) == FindNearby(c, all[1..]);
      FindNearbyFirst(c, all[1..]);
      var k :| 0 <= k < |all[1..]| && all[1..][k] == FindNearby(c, all[1..])[0]
               && forall j :: 0 <= j < k ==> !Near(c, all[1..][j]);
      assert all[k + 1] == FindNearby(c, all)[0];
      assert forall j :: 1 <= j < k + 1 ==> all[j] == all[1..][j - 1];
    }
  }

  /** End times of reserved residents, by id (`interactions`). */
  type Reservations = map<int, int>
  /** Start times of residents' last encounters, by id (`lastInteractionTime`). */
  type LastInteractions = map<int, int>

  /** `interactions[id] && interactions[id] > now`: a reservation that has not ended; an end time of 0 counts as none. */
  predicate Reserved(interactions: Reservations, id: int, now: int)
  {
    id in interactions && interactions[id] != 0 && interactions[id] > now
  }

  /** `lastInteractionTime[id] || 0`. */
  function LastInteraction(last: LastInteractions, id: int): (t: int)
    ensures id in last ==> t == last[id]
    ensures id !in last ==> t == 0
  {
    if id in last then last[id] else 0
  }

  /** The cooldown of `id` is over at `now`. */
  predicate CooledDown(last: LastInteractions, id: int, now: int)
  {
    now - LastInteraction(last, id) > INTERACTION_COOLDOWN
  }

  /** An encounter started during a tick: who started it, with whom, and when. */
  datatype Encounter = Encounter(initiator: Character, partner: Character, now: int)

  /**
   * The encounter a resident on its way starts, if any: with the first
   * character near it, when the roll is below the interaction probability and
   * both cooldowns are over.
   */
  function EncounterFor(c: Character, all: seq<Character>, roll: real, last: LastInteractions, now: int): (e: Option<Encounter>)
    ensures e.Some? <==>
      |FindNearby(c, all)| > 0 && roll < INTERACTION_PROBABILITY
      && CooledDown(last, c.id, now) && CooledDown(last, FindNearby(c, all)[0].id, now)
    ensures e.Some? ==> e.value == Encounter(c, FindNearby(c, all)[0], now) && Near(c, e.value.partner)
  {
    var nearby := FindNearby(c, all);
    if |nearby| > 0 && roll < INTERACTION_PROBABILITY then
      var other := nearby[0];
      if CooledDown(last, c.id, now) && CooledDown(last, other.id, now) then Some(Encounter(c, other, now))
      else None
    else None
  }

  /** Both participants of an encounter are reserved until now + 14000. */
  function Reserve(interactions: Reservations, e: Encounter): (r: Reservations)
    ensures r.Keys == interactions.Keys + {e.initiator.id, e.partner.id}
    ensures r[e.initiator.id] == e.now + Dialogue.RESERVATION_ESTIMATE
    ensures r[e.partner.id] == e.now + Dialogue.RESERVATION_ESTIMATE
    ensures forall id :: id in interactions && id != e.initiator.id && id != e.partner.id ==> r[id] == interactions[id]
  {
    var endTime := e.now + Dialogue.RESERVATION_ESTIMATE;
    interactions[e.initiator.id := endTime][e.partner.id := endTime]
  }

  /** Both participants of an encounter had their last encounter now. */
  function Stamp(last: LastInteractions, e: Encounter): (r: LastInteractions)
    ensures r.Keys == last.Keys + {e.initiator.id, e.partner.id}
    ensures r[e.initiator.id] == e.now && r[e.partner.id] == e.now
    ensures forall id :: id in last && id != e.initiator.id && id != e.partner.id ==> r[id] == last[id]
  {
    last[e.initiator.id := e.now][e.partner.id := e.now]
  }

  /** The reservations after the encounters of one tick, written in order. */
  function ReserveAll(interactions: Reservations, es: seq<Encounter>): Reservations
    decreases |es|
  {
    if |es| == 0 then interactions else ReserveAll(Reserve(interactions, es[0]), es[1..])
  }

  /** The cooldown table after the encounters of one tick, written in order. */
  function StampAll(last: LastInteractions, es: seq<Encounter>): LastInteractions
    decreases |es|
  {
    if |es| == 0 then last else StampAll(Stamp(last, es[0]), es[1..])
  }

  predicate Participates(id: int, es: seq<Encounter>)
  {
    exists k :: 0 <= k < |es| && (es[k].initiator.id == id || es[k].partner.id == id)
  }

  /**
   * After the encounters of a tick all started at `now`, every participant is
   * reserved until now + 14000 and stamped with now; every other entry of both
   * tables is unchanged, and no entry is removed.
   */
  lemma {:induction false} EncounterTables(interactions: Reservations, last: LastInteractions, es: seq<Encounter>, now: int, id: int)
    requires forall k :: 0 <= k < |es| ==> es[k].now == now
    ensures Participates(id, es) ==>
      id in ReserveAll(interactions, es) && ReserveAll(interactions, es)[id] == now + Dialogue.RESERVATION_ESTIMATE
      && id in StampAll(last, es) && StampAll(last, es)[id] == now
    ensures !Participates(id, es) ==>
      (id in ReserveAll(interactions, es) <==> id in interactions)
      && (id in interactions ==> ReserveAll(interactions, es)[id] == interactions[id])
      && (id in StampAll(last, es) <==> id in last)
      && (id in last ==> StampAll(last, es)[id] == last[id])
    decreases |es|
  {
    if |es| > 0 {
      var e := es[0];
      EncounterTables(Reserve(interactions, e), Stamp(last, e), es[1..], now, id);
      if Participates(id, es[1..]) {
        var k :| 0 <= k < |es[1..]| && (es[1..][k].initiator.id == id || es[1..][k].partner.id == id);
        assert es[k + 1] == es[1..][k];
      }
      if Participates(id, es) && e.initiator.id != id && e.partner.id != id {
        var k :| 0 <= k < |es| && (es[k].initiator.id == id || es[k].partner.id == id);
        assert 0 < k;
        assert es[1..][k - 1] == es[k];
      }
      if !Participates(id, es) {
        assert e.initiator.id != id && e.partner.id != id;
        forall k | 0 <= k < |es[1..]| ensures es[1..][k].initiator.id != id && es[1..][k].partner.id != id {
          assert es[1..][k] == es[k + 1];
        }
      }
    }
  }

  /**
   * Every participant of an encounter started at `now` counts as reserved at
   * any later time before the reservation ends, so later ticks hold it idle.
   */
  lemma ParticipantsReserved(interactions: Reservations, es: seq<Encounter>, now: int, id: int, t: int)
    requires forall k :: 0 <= k < |es| ==> es[k].now == now
    requires Participates(id, es) && now >= 0 && t < now + Dialogue.RESERVATION_ESTIMATE
    ensures Reserved(ReserveAll(interactions, es), id, t)
  {
    EncounterTables(interactions, map[], es, now, id);
  }

  /**
   * Whether a participant is still reserved when its encounter is released.
   * The reservation ends 14000 ms after the tick that started the encounter;
   * the release comes `latency` ms later, once the dialogue text has arrived,
   * plus 6000 ms per line shown (at most two) plus 1000 ms. So the
   * participant is still reserved at the release exactly when the latency is
   * below what the shown lines leave of the 14000 ms.
   */
  lemma ReservationCoversRelease(interactions: Reservations, e: Encounter, dialogue: string, latency: nat, id: int)
    requires e.now >= 0 && (id == e.initiator.id || id == e.partner.id)
    ensures var s := Dialogue.ConversationSchedule(dialogue, e.initiator.name, e.partner.name);
      var release := e.now + latency + s[|s| - 1].offset;
      s[|s| - 1].cue == Dialogue.Release
      && (Reserved(Reserve(interactions, e), id, release) <==>
            latency < Dialogue.RESERVATION_ESTIMATE - Dialogue.RELEASE_DELAY
                      - Dialogue.LINE_SLOT * Dialogue.MinLines(|Dialogue.DialogueLines(dialogue)|))
  {
    Dialogue.ReleaseTime(dialogue, e.initiator.name, e.partner.name);
  }

  /**
   * When the dialogue service fails after a second or more, the two-line
   * fallback greeting is released after both reservations have ended: for
   * the last 1000 ms or more of the encounter neither participant counts as
   * reserved.
   */
  lemma SlowFallbackOutlastsReservation(interactions: Reservations, e: Encounter, latency: nat)
    requires e.now >= 0 && latency >= 1000
    requires '\n' !in e.initiator.name && '\n' !in e.partner.name
    ensures var s := Dialogue.ConversationSchedule(Dialogue.DialogueText(None, e.initiator.name, e.partner.name),
                                                   e.initiator.name, e.partner.name);
      var release := e.now + latency + s[|s| - 1].offset;
      !Reserved(Reserve(interactions, e), e.initiator.id, release)
      && !Reserved(Reserve(interactions, e), e.partner.id, release)
  {
    var dialogue := Dialogue.DialogueText(None, e.initiator.name, e.partner.name);
    Dialogue.FallbackLines(e.initiator.name, e.partner.name);
    assert |Dialogue.DialogueLines(dialogue)| == 2;
    ReservationCoversRelease(interactions, e, dialogue, latency, e.initiator.id);
    ReservationCoversRelease(interactions, e, dialogue, latency, e.partner.id);
  }

  /** The release of an encounter: both participants' reservations are removed. */
  function Release(interactions: Reservations, initiatorId: int, partnerId: int): (r: Reservations)
    ensures r.Keys == interactions.Keys - {initiatorId, partnerId}
    ensures forall id :: id in r ==> r[id] == interactions[id]
  {
    interactions - {initiatorId, partnerId}
  }

  /**
   * Once an encounter is released, neither participant is reserved any
   * longer, at any time; other reservations are untouched.
   */
  lemma ReleaseFrees(interactions: Reservations, initiatorId: int, partnerId: int, now: int, id: int)
    ensures id == initiatorId || id == partnerId ==> !Reserved(Release(interactions, initiatorId, partnerId), id, now)
    ensures id != initiatorId && id != partnerId ==>
      (Reserved(Release(interactions, initiatorId, partnerId), id, now) <==> Reserved(interactions, id, now))
  {
  }
}
