/** The `sos_signal` table, changed in place one call at a time (packages/db/src/sos.ts:198-223, 327-387). */
module SosBoard {
  import opened Runs
  import opened SosCap

  class Board {
    var signals: map<nat, Signal>

    constructor ()
      ensures signals == map[]
    {
      signals := map[];
    }

    /** Counts the author's open signals and inserts under the cap, or answers `None`. */
    method InsertSosSignalUnderCap(author: nat, cap: nat, newId: nat) returns (raised: Option<nat>)
      requires newId !in signals
      modifies this
      ensures raised == if |OpenBy(old(signals), author)| < cap then Some(newId) else None
      ensures signals == if raised.Some? then old(signals)[newId := Signal(author, false, false)] else old(signals)
      ensures raised.Some? <==>
              |set id | id in old(signals) && old(signals)[id].author == author
                        && !old(signals)[id].closed && !old(signals)[id].removed| < cap
      ensures |OpenBy(old(signals), author)| <= cap ==> |OpenBy(signals, author)| <= cap
      ensures forall other :: other != author ==> OpenBy(signals, other) == OpenBy(old(signals), other)
    {
      var open := set id | id in signals && signals[id].author == author && Counts(signals[id]);
      assert open == OpenBy(signals, author);
      OpenIsOpen(signals, author);
      if |open| >= cap {
        return None;
      }
      OneMore(signals, newId, author, author);
      signals := signals[newId := Signal(author, false, false)];
      raised := Some(newId);
    }

    /** Closes an open standing signal, once; a second press answers `false` and changes nothing. */
    method CloseSosSignal(id: nat) returns (closed: bool)
      modifies this
      ensures closed == (id in old(signals) && !old(signals)[id].closed && !old(signals)[id].removed)
      ensures signals == if closed then old(signals)[id := old(signals)[id].(closed := true)] else old(signals)
      ensures forall author :: OpenBy(signals, author) == OpenBy(old(signals), author) - (if closed then {id} else {})
    {
      closed := id in signals && Counts(signals[id]);
      if closed {
        signals := signals[id := signals[id].(closed := true)];
      }
    }

    /** Marks a standing signal removed, open or closed; the row and its author stay. */
    method RemoveSosSignal(id: nat) returns (removed: bool)
      modifies this
      ensures removed == (id in old(signals) && !old(signals)[id].removed)
      ensures signals == if removed then old(signals)[id := old(signals)[id].(removed := true)] else old(signals)
      ensures forall author :: OpenBy(signals, author) == OpenBy(old(signals), author) - (if removed then {id} else {})
    {
      removed := id in signals && !signals[id].removed;
      if removed {
        signals := signals[id := signals[id].(removed := true)];
      }
    }

    /** Hands every signal of a leaving member to their placeholder, open and closed alike. */
    method ReassignSosOfDeletedAuthor(leaver: nat, placeholder: nat) returns (count: nat)
      requires leaver != placeholder
      modifies this
      ensures count == |SignalsBy(old(signals), leaver)|
      ensures SignalsBy(signals, leaver) == {}
      ensures SignalsBy(signals, placeholder) == SignalsBy(old(signals), leaver) + SignalsBy(old(signals), placeholder)
      ensures OpenBy(signals, placeholder) == OpenBy(old(signals), leaver) + OpenBy(old(signals), placeholder)
      ensures HandedOver(old(signals), signals, leaver, placeholder)
    {
      var moving := SignalsBy(signals, leaver);
      count := |moving|;
      signals := map id | id in signals :: if id in moving then signals[id].(author := placeholder) else signals[id];
    }
  }
}
