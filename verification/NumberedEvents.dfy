/** Events that refer to traces by number, and what they are once the numbers stand for traces. */
module NumberedEvents {
  import opened Common
  import opened EventRing
  import EB = EventBuffer

  /** The numbers are those of the first `n` traces. */
  predicate RefBelow(e: Event<nat>, n: nat) {
    e.ref.Some? ==> e.ref.value < n
  }

  predicate AllBelow(s: seq<Event<nat>>, n: nat) {
    forall i | 0 <= i < |s| :: RefBelow(s[i], n)
  }

  predicate Below(b: EB.Buffer<nat>, n: nat) {
    AllBelow(b.first, n) && AllBelow(EB.InRing(b), n)
  }

  function EventOf<R>(e: Event<nat>, ts: seq<R>): Event<R> {
    Event(e.when, e.typ, if e.ref.Some? && e.ref.value < |ts| then Some(ts[e.ref.value]) else None, e.msg)
  }

  function EventsOf<R>(s: seq<Event<nat>>, ts: seq<R>): seq<Event<R>> {
    seq(|s|, i requires 0 <= i < |s| => EventOf(s[i], ts))
  }

  function BufferOf<R>(b: EB.Buffer<nat>, ts: seq<R>): EB.Buffer<R> {
    EB.Buffer(b.limit, EventsOf(b.first, ts),
              if b.ring.Some? then Some(EB.Ring(b.ring.value.max, EventsOf(b.ring.value.given, ts))) else None)
  }

  lemma EventsAppend<R>(s: seq<Event<nat>>, e: Event<nat>, ts: seq<R>)
    ensures EventsOf(s + [e], ts) == EventsOf(s, ts) + [EventOf(e, ts)]
  {
    hide EventOf;
  }

  lemma AppendOf<R>(b: EB.Buffer<nat>, e: Event<nat>, ts: seq<R>)
    ensures BufferOf(EB.Append(b, e), ts) == EB.Append(BufferOf(b, ts), EventOf(e, ts))
  {
    assert |EventsOf(b.first, ts)| == |b.first| && EventsOf([], ts) == [];
    EventsAppend(b.first, e, ts);
    EventsAppend(EB.RingOf(b).given, e, ts);
    hide EventsOf, EventOf;
  }

  lemma AppendBelow(b: EB.Buffer<nat>, e: Event<nat>, n: nat)
    requires Below(b, n) && RefBelow(e, n)
    ensures Below(EB.Append(b, e), n)
  {
    hide RefBelow;
  }

  /** More traces change nothing for events that refer to earlier ones. */
  lemma EventsOfMore<R>(s: seq<Event<nat>>, ts: seq<R>, t: R)
    requires AllBelow(s, |ts|)
    ensures EventsOf(s, ts + [t]) == EventsOf(s, ts) && AllBelow(s, |ts| + 1)
  {
    forall i | 0 <= i < |s| ensures EventOf(s[i], ts + [t]) == EventOf(s[i], ts) && RefBelow(s[i], |ts| + 1) {
      assert RefBelow(s[i], |ts|);
    }
  }

  lemma BufferOfMore<R>(b: EB.Buffer<nat>, ts: seq<R>, t: R)
    requires Below(b, |ts|)
    ensures BufferOf(b, ts + [t]) == BufferOf(b, ts) && Below(b, |ts| + 1)
  {
    EventsOfMore(b.first, ts, t);
    EventsOfMore(EB.InRing(b), ts, t);
    hide EventsOf, AllBelow;
  }

  lemma {:induction false} FirstStampOf<R>(s: seq<Event<nat>>, ts: seq<R>)
    ensures FirstStamp(EventsOf(s, ts)) == FirstStamp(s)
  {
    if s != [] {
      FirstStampOf(s[1..], ts);
      assert EventsOf(s, ts)[1..] == EventsOf(s[1..], ts);
    }
  }

  lemma EventsConcat<R>(s: seq<Event<nat>>, s': seq<Event<nat>>, ts: seq<R>)
    ensures EventsOf(s + s', ts) == EventsOf(s, ts) + EventsOf(s', ts)
  {
    hide EventOf;
  }

  lemma EventsParts<R>(s: seq<Event<nat>>, n: nat, ts: seq<R>)
    ensures Last(EventsOf(s, ts), n) == EventsOf(Last(s, n), ts)
    ensures Dropped(EventsOf(s, ts), n) == EventsOf(Dropped(s, n), ts)
  {
    hide EventOf;
  }

  /** What is shown depends on the events alone, whatever their numbers stand for. */
  lemma ShownOf<R>(b: EB.Buffer<nat>, ts: seq<R>)
    ensures EB.Shown(BufferOf(b, ts)) == EventsOf(EB.Shown(b), ts)
  {
    if b.ring.Some? {
      var r := b.ring.value;
      var newest, drop := Last(r.given, r.max), FirstStamp(Dropped(r.given, r.max));
      EventsParts(r.given, r.max, ts);
      FirstStampOf(Dropped(r.given, r.max), ts);
      assert EventsOf([EB.Drop(drop)], ts) == [EB.Drop(drop)] && EventsOf([], ts) == [];
      var marker: seq<Event<nat>> := if drop != 0 then [EB.Drop(drop)] else [];
      EventsConcat(b.first, marker, ts);
      EventsConcat(b.first + marker, newest, ts);
      hide EventsOf, FirstStamp, Last, Dropped;
    }
  }

  lemma ShownBelow(b: EB.Buffer<nat>, n: nat)
    requires Below(b, n)
    ensures AllBelow(EB.Shown(b), n)
  {
    hide FirstStamp, Last, Dropped;
    forall e | e in EB.Shown(b) ensures RefBelow(e, n) {
      if e.ref.Some? {
        EB.ShownRefs(b, e);
      }
    }
  }

  /** A number is referred to exactly when what it stands for is. */
  lemma RefsOf<R>(s: seq<Event<nat>>, ts: seq<R>, k: nat)
    requires AllBelow(s, |ts|) && k < |ts| && forall i | 0 <= i < |ts| && ts[i] == ts[k] :: i == k
    ensures (exists e | e in EventsOf(s, ts) :: e.ref == Some(ts[k])) <==> (exists e | e in s :: e.ref == Some(k))
  {
    if e :| e in s && e.ref == Some(k) {
      var i :| 0 <= i < |s| && s[i] == e;
      assert EventsOf(s, ts)[i].ref == Some(ts[k]);
    }
    if e :| e in EventsOf(s, ts) && e.ref == Some(ts[k]) {
      var i :| 0 <= i < |s| && EventsOf(s, ts)[i] == e;
      assert RefBelow(s[i], |ts|) && s[i].ref == Some(k);
    }
  }

  // ---------- the buffers of all the traces ----------

  /** The buffers of the traces are these, once the numbers stand for the traces. */
  ghost predicate BuffersAre<R>(ts: seq<R>, ns: seq<EB.Buffer<nat>>, bs: map<R, EB.Buffer<R>>) {
    && |ts| == |ns|
    && (forall i, j | 0 <= i < j < |ts| :: ts[i] != ts[j])
    && (forall i | 0 <= i < |ts| :: ts[i] in bs && Below(ns[i], |ts|) && bs[ts[i]] == BufferOf(ns[i], ts))
  }

  lemma BuffersCreated<R>(ts: seq<R>, ns: seq<EB.Buffer<nat>>, bs: map<R, EB.Buffer<R>>, t: R)
    requires BuffersAre(ts, ns, bs) && t !in bs
    ensures BuffersAre(ts + [t], ns + [EB.NewBuffer()], bs[t := EB.NewBuffer()])
  {
    assert BufferOf(EB.NewBuffer(), ts + [t]) == EB.NewBuffer() && Below(EB.NewBuffer(), |ts| + 1);
    hide BufferOf, Below;
    forall i | 0 <= i < |ts| ensures BufferOf(ns[i], ts + [t]) == BufferOf(ns[i], ts) && Below(ns[i], |ts| + 1) {
      BufferOfMore(ns[i], ts, t);
    }
  }

  /** One buffer changes, alike on both sides. */
  lemma BuffersSet<R>(ts: seq<R>, ns: seq<EB.Buffer<nat>>, bs: map<R, EB.Buffer<R>>, k: nat, n: EB.Buffer<nat>)
    requires BuffersAre(ts, ns, bs) && k < |ts| && Below(n, |ts|)
    ensures BuffersAre(ts, ns[k := n], bs[ts[k] := BufferOf(n, ts)])
  {
    hide BufferOf, Below;
  }

  lemma BuffersGiven<R>(ts: seq<R>, ns: seq<EB.Buffer<nat>>, bs: map<R, EB.Buffer<R>>, k: nat, e: Event<nat>)
    requires BuffersAre(ts, ns, bs) && k < |ts| && RefBelow(e, |ts|)
    ensures ts[k] in bs && k < |ns|
    ensures BuffersAre(ts, ns[k := EB.Append(ns[k], e)], bs[ts[k] := EB.Append(bs[ts[k]], EventOf(e, ts))])
  {
    AppendOf(ns[k], e, ts);
    AppendBelow(ns[k], e, |ts|);
    hide BufferOf, Below, EB.Append, EventOf;
    BuffersSet(ts, ns, bs, k, EB.Append(ns[k], e));
  }

  lemma BuffersLimited<R>(ts: seq<R>, ns: seq<EB.Buffer<nat>>, bs: map<R, EB.Buffer<R>>, k: nat, n: int)
    requires BuffersAre(ts, ns, bs) && k < |ts|
    ensures ts[k] in bs && k < |ns|
    ensures BuffersAre(ts, ns[k := EB.WithLimit(ns[k], n)], bs[ts[k] := EB.WithLimit(bs[ts[k]], n)])
  {
    BuffersSet(ts, ns, bs, k, EB.WithLimit(ns[k], n));
    hide Below;
  }
}
