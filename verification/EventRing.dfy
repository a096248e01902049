/** The overwriting ring that holds the newest events of a trace (internal/nettrace/evtring.go). */
module EventRing {
  import opened Common

  /** Nanoseconds; 0 is Go's zero `time.Time`. */
  type Time = nat

  datatype EventType = LOG | CHILD | LINK | DROP

  /** `R` is the type of trace references. */
  datatype Event<+R> = Event(when: Time, typ: EventType, ref: Option<R>, msg: string)

  /** The last `n` elements of `s`, or all of it when it is shorter. */
  function Last<T>(s: seq<T>, n: nat): seq<T> {
    if |s| <= n then s else s[|s| - n..]
  }

  /** What `Last` leaves behind. */
  function Dropped<T>(s: seq<T>, n: nat): seq<T> {
    if |s| <= n then [] else s[..|s| - n]
  }

  /** The first non-zero time stamp in `s`, or zero when there is none. */
  function FirstStamp<R>(s: seq<Event<R>>): Time {
    if s == [] then 0 else if s[0].when != 0 then s[0].when else FirstStamp(s[1..])
  }

  lemma {:induction false} FirstStampAppend<R>(s: seq<Event<R>>, e: Event<R>)
    ensures FirstStamp(s + [e]) == if FirstStamp(s) != 0 then FirstStamp(s) else e.when
  {
    if s == [] {
    } else {
      assert (s + [e])[1..] == s[1..] + [e];
      FirstStampAppend(s[1..], e);
    }
  }

  /** The elements of `evts` from the one after `pos` round to the one at `pos`. */
  ghost function Unrolled<T>(evts: seq<T>, pos: int): seq<T>
    requires -1 <= pos < |evts|
  {
    evts[pos + 1..] + evts[..pos + 1]
  }

  /** Overwriting the slot after `pos` drops the oldest element and appends the new one. */
  lemma OverwriteOldest<T>(evts: seq<T>, pos: int, next: int, e: T)
    requires 0 <= pos < |evts|
    requires next == if pos + 1 < |evts| then pos + 1 else 0
    ensures Unrolled(evts, pos)[0] == evts[next]
    ensures Unrolled(evts[next := e], next) == Unrolled(evts, pos)[1..] + [e]
  {
    if pos + 1 < |evts| {
      assert evts[next := e][next + 1..] == evts[pos + 1..][1..];
      assert evts[next := e][..next + 1] == evts[..pos + 1] + [e];
    } else {
      assert evts[next := e][1..] == evts[1..];
    }
  }

  lemma LastAppend<T>(g: seq<T>, n: nat, e: T)
    requires 0 < n
    ensures |g| < n ==> Last(g + [e], n) == Last(g, n) + [e] && Dropped(g + [e], n) == Dropped(g, n)
    ensures n <= |g| ==> Last(g + [e], n) == Last(g, n)[1..] + [e]
                         && Dropped(g + [e], n) == Dropped(g, n) + [Last(g, n)[0]]
  {
  }

  /** An index less than one lap past the end wraps around once. */
  lemma Wrap(x: nat, n: nat)
    requires 0 < n && x < 2 * n
    ensures x % n == if x < n then x else x - n
  {
    if n <= x {
      assert x == 1 * n + (x - n);
    }
  }

  /** The walk that starts after `pos` and wraps around visits the elements in order. */
  lemma UnrolledAt<T>(evts: seq<T>, pos: int, i: nat)
    requires -1 <= pos < |evts| && i < |evts|
    ensures Unrolled(evts, pos)[i] == evts[(pos + 1 + i) % |evts|]
  {
    Wrap(pos + 1 + i, |evts|);
  }

  class EvtRing<R> {
    const max: nat
    var evts: seq<Event<R>>
    var pos: int
    var firstDrop: Time

    ghost predicate Valid()
      reads this
    {
      && |evts| <= max
      && -1 <= pos < |evts|
      && (|evts| < max ==> pos == |evts| - 1)
      && (evts != [] ==> 0 <= pos)
    }

    /** The stored events, oldest first. */
    ghost function InOrder(): seq<Event<R>>
      requires Valid()
      reads this
    {
      Unrolled(evts, pos)
    }

    /** The ring has been given exactly the events `g`, in that order. */
    ghost predicate Holds(g: seq<Event<R>>)
      reads this
    {
      && Valid()
      && InOrder() == Last(g, max)
      && firstDrop == FirstStamp(Dropped(g, max))
    }

    constructor (n: nat)
      ensures max == n
      ensures Holds([])
    {
      max := n;
      evts := [];
      pos := -1;
      firstDrop := 0;
    }

    method Add(e: Event<R>, ghost g: seq<Event<R>>)
      requires 0 < max
      requires Holds(g)
      modifies this
      ensures Holds(g + [e])
    {
      LastAppend(g, max, e);
      if |evts| < max {
        evts := evts + [e];
        pos := pos + 1;
        return;
      }
      Wrap(pos + 1, max);
      ghost var was := pos;
      pos := (pos + 1) % max;
      OverwriteOldest(evts, was, pos, e);
      FirstStampAppend(Dropped(g, max), evts[pos]);
      if firstDrop == 0 {
        firstDrop := evts[pos].when;
      }
      evts := evts[pos := e];
    }

    /** Visits the stored events from older to newer; `visited` is the order of the visits. */
    method Do() returns (visited: seq<Event<R>>)
      requires Valid()
      ensures visited == InOrder()
    {
      visited := [];
      for i := 0 to |evts|
        invariant visited == InOrder()[..i]
      {
        UnrolledAt(evts, pos, i);
        var at := (pos + 1 + i) % |evts|;
        visited := visited + [evts[at]];
      }
    }
  }
}
