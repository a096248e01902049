/** A single trace (internal/nettrace/trace.go). Its events are kept as `EventBuffer` says. */
module Traces {
  import opened Common
  import opened EventRing
  import EB = EventBuffer

  class Trace {
    const id: Id
    const family: string
    const start: Time
    var parent: Trace?
    var end: Time
    var isError: bool
    var maxEvents: nat
    var cutoff: nat
    var firstEvents: seq<Event<Trace>>
    var lastEvents: EvtRing?<Trace>

    ghost predicate Valid()
      reads this`maxEvents, this`cutoff, this`lastEvents, lastEvents
    {
      && EB.MIN_MAX_EVENTS <= maxEvents
      && cutoff == maxEvents / 3
      && (lastEvents != null ==> lastEvents.Valid() && 0 < lastEvents.max)
    }

    /** The stored events are the buffer `b`. */
    ghost predicate Holds(b: EB.Buffer<Trace>)
      reads this`maxEvents, this`cutoff, this`firstEvents, this`lastEvents, lastEvents
    {
      && Valid()
      && maxEvents == b.limit
      && firstEvents == b.first
      && (lastEvents == null <==> b.ring.None?)
      && (lastEvents != null ==> lastEvents.max == b.ring.value.max && lastEvents.Holds(b.ring.value.given))
    }

    /** What `Events` returns. */
    ghost function Stored(): seq<Event<Trace>>
      requires Valid()
      reads this`maxEvents, this`cutoff, this`firstEvents, this`lastEvents, lastEvents
    {
      if lastEvents == null then firstEvents else
        firstEvents
        + (if lastEvents.firstDrop != 0 then [EB.Drop(lastEvents.firstDrop)] else [])
        + lastEvents.InOrder()
    }

    lemma StoredIsShown(b: EB.Buffer<Trace>)
      requires Holds(b)
      ensures Stored() == EB.Shown(b)
    {
      hide Last, Dropped, FirstStamp, Unrolled;
    }

    constructor (id: Id, family: string, start: Time, parent: Trace?)
      ensures this.id == id && this.family == family && this.start == start && this.parent == parent
      ensures end == 0 && !isError
      ensures Holds(EB.NewBuffer()) && lastEvents == null
    {
      this.id, this.family, this.start, this.parent := id, family, start, parent;
      end, isError := 0, false;
      maxEvents, cutoff := EB.DEFAULT_MAX_EVENTS, EB.DEFAULT_MAX_EVENTS / 3;
      firstEvents, lastEvents := [], null;
    }

    method SetMaxEvents(n: int, ghost b: EB.Buffer<Trace>)
      requires Holds(b)
      modifies this`maxEvents, this`cutoff
      ensures Holds(EB.WithLimit(b, n))
    {
      var limit := n;
      if limit < EB.MIN_MAX_EVENTS {
        limit := EB.MIN_MAX_EVENTS;
      }
      maxEvents := limit;
      cutoff := limit / 3;
    }

    method Append(evt: Event<Trace>, ghost b: EB.Buffer<Trace>)
      requires Holds(b)
      modifies this`firstEvents, this`lastEvents, lastEvents
      ensures Holds(EB.Append(b, evt))
      ensures lastEvents == old(lastEvents) || fresh(lastEvents)
    {
      if |firstEvents| < cutoff {
        firstEvents := firstEvents + [evt];
        return;
      }
      if lastEvents == null {
        var ring := new EvtRing<Trace>(maxEvents - cutoff);
        ring.Add(evt, []);
        lastEvents := ring;
      } else {
        lastEvents.Add(evt, b.ring.value.given);
      }
    }

    method Link(other: Trace, msg: string, now: Time, ghost b: EB.Buffer<Trace>)
      requires Holds(b)
      modifies this`firstEvents, this`lastEvents, lastEvents
      ensures Holds(EB.Append(b, Event(now, LINK, Some(other), msg)))
      ensures lastEvents == old(lastEvents) || fresh(lastEvents)
    {
      Append(Event(now, LINK, Some(other), msg), b);
    }

    method SetError()
      modifies this`isError
      ensures isError
    {
      isError := true;
    }

    method Printf(msg: string, now: Time, ghost b: EB.Buffer<Trace>)
      requires Holds(b)
      modifies this`firstEvents, this`lastEvents, lastEvents
      ensures Holds(EB.Append(b, Event(now, LOG, None, msg)))
      ensures lastEvents == old(lastEvents) || fresh(lastEvents)
    {
      Append(Event(now, LOG, None, msg), b);
    }

    /** A copy of the stored events. */
    method Events() returns (evts: seq<Event<Trace>>)
      requires Valid()
      ensures evts == Stored()
    {
      evts := firstEvents;
      if lastEvents == null {
        return;
      }
      if lastEvents.firstDrop != 0 {
        evts := evts + [EB.Drop(lastEvents.firstDrop)];
      }
      var newest := lastEvents.Do();
      evts := evts + newest;
    }
  }
}
