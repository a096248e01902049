/** The two-part buffer of the events of a trace, as values (internal/nettrace/trace.go): a slice for the first ones and
    a ring for the newest. What it shows as long as its limit is set first, and what happens when it is set late. */
module EventBuffer {
  import opened Common
  import opened EventRing

  const DEFAULT_MAX_EVENTS: nat := 30
  const MIN_MAX_EVENTS: nat := 6

  /** The marker that stands for the dropped events: it carries a time and nothing else. */
  function Drop<R>(when: Time): Event<R> {
    Event(when, DROP, None, "")
  }

  /** What a trace limited to `m` events still shows after being given the events `h`: the first third of the
      limit, a marker once anything was lost, and the newest events. */
  function Retained<R>(h: seq<Event<R>>, m: nat): seq<Event<R>> {
    var c := m / 3;
    if |h| <= c then h else
      var first := FirstStamp(Dropped(h[c..], m - c));
      h[..c] + (if first != 0 then [Drop(first)] else []) + Last(h[c..], m - c)
  }

  /** Nothing is lost, moved or marked until the limit is passed. */
  lemma RetainedWithinLimit<R>(h: seq<Event<R>>, m: nat)
    requires |h| <= m
    ensures Retained(h, m) == h
  {
    if m / 3 < |h| {
      assert h == h[..m / 3] + h[m / 3..];
    }
  }

  /** Past the limit: the first third, one marker stamped with the time of the first event lost, and the newest
      two thirds. The result is one longer than the limit and no later event can change that. */
  lemma RetainedPastLimit<R>(h: seq<Event<R>>, m: nat)
    requires m < |h|
    requires h[m / 3].when != 0
    ensures var c := m / 3;
            Retained(h, m) == h[..c] + [Event(h[c].when, DROP, None, "")] + h[|h| - (m - c)..]
    ensures |Retained(h, m)| == m + 1
    ensures Retained(h, m)[m / 3] == Event(h[m / 3].when, DROP, None, "")
    ensures forall i | 0 <= i <= m && i != m / 3 :: Retained(h, m)[i] in h
  {
    var c, shown := m / 3, Retained(h, m);
    RetainedShape(h, m);
    hide *;
    forall i | 0 <= i <= m && i != c ensures shown[i] in h {
      InThree(h[..c], [Event(h[c].when, DROP, None, "")], h[|h| - (m - c)..], i);
      SliceIn(h, c, |h| - (m - c));
    }
  }

  lemma LastIn<T>(s: seq<T>, n: nat, x: T)
    requires x in Last(s, n)
    ensures x in s
  {
  }

  lemma RetainedShape<R>(h: seq<Event<R>>, m: nat)
    requires m < |h|
    requires h[m / 3].when != 0
    ensures var c := m / 3;
            Retained(h, m) == h[..c] + [Event(h[c].when, DROP, None, "")] + h[|h| - (m - c)..]
  {
    var c := m / 3;
    var dropped := Dropped(h[c..], m - c);
    assert dropped[0] == h[c];
    assert Last(h[c..], m - c) == h[|h| - (m - c)..];
    hide Last, Dropped;
  }

  lemma InThree<T>(a: seq<T>, b: seq<T>, c: seq<T>, i: nat)
    requires i < |a + b + c|
    ensures if i < |a| then (a + b + c)[i] in a
            else if i < |a| + |b| then (a + b + c)[i] == b[i - |a|] else (a + b + c)[i] in c
  {
  }

  lemma SliceIn<T>(s: seq<T>, i: nat, j: nat)
    requires i <= |s| && j <= |s|
    ensures forall x | x in s[..i] :: x in s
    ensures forall x | x in s[j..] :: x in s
  {
  }

  /** Whatever the times are, a marker is only ever shown after the first third, with the first time there is among the
      events lost. */
  lemma OnlyMarker<R>(h: seq<Event<R>>, m: nat, i: nat)
    requires i < |Retained(h, m)| && Retained(h, m)[i] !in h
    ensures m < |h| && i == m / 3 && exists j | m / 3 <= j < |h| - (m - m / 3) ::
              && h[j].when != 0 && (forall k | m / 3 <= k < j :: h[k].when == 0)
              && Retained(h, m)[i] == Event(h[j].when, DROP, None, "")
  {
    var c, shown := m / 3, Retained(h, m);
    if |h| > c {
      var dropped, newest := Dropped(h[c..], m - c), Last(h[c..], m - c);
      var first := FirstStamp(dropped);
      var marks := if first != 0 then [Drop(first)] else [];
      assert shown == h[..c] + marks + newest;
      forall x | x in newest ensures x in h {
        LastIn(h[c..], m - c, x);
      }
      SliceIn(h, c, c);
      InThree(h[..c], marks, newest, i);
      MarkedAt(h, m);
    }
  }

  lemma MarkedAt<R>(h: seq<Event<R>>, m: nat)
    requires m / 3 < |h| && FirstStamp(Dropped(h[m / 3..], m - m / 3)) != 0
    ensures m < |h| && exists j | m / 3 <= j < |h| - (m - m / 3) ::
              && h[j].when != 0 && (forall k | m / 3 <= k < j :: h[k].when == 0)
              && FirstStamp(Dropped(h[m / 3..], m - m / 3)) == h[j].when
  {
    var c := m / 3;
    var dropped := Dropped(h[c..], m - c);
    assert dropped != [];
    var j := FirstStampAt(dropped);
    hide FirstStamp;
    assert forall k | 0 <= k < |dropped| :: dropped[k] == h[c + k];
    forall k | c <= k < c + j ensures h[k].when == 0 {
      assert dropped[k - c] == h[k];
    }
    assert h[c + j].when != 0;
  }

  lemma {:induction false} FirstStampAt<R>(s: seq<Event<R>>) returns (j: nat)
    requires FirstStamp(s) != 0
    ensures j < |s| && s[j].when == FirstStamp(s) && forall k | 0 <= k < j :: s[k].when == 0
  {
    if s[0].when != 0 {
      j := 0;
    } else {
      j := FirstStampAt(s[1..]);
      j := j + 1;
    }
  }

  lemma {:induction false} FirstStampZero<R>(s: seq<Event<R>>)
    ensures FirstStamp(s) == 0 <==> forall i | 0 <= i < |s| :: s[i].when == 0
  {
    if s != [] {
      FirstStampZero(s[1..]);
      if s[0].when == 0 {
        forall i | 0 < i < |s| && FirstStamp(s) == 0 ensures s[i].when == 0 {
          assert s[i] == s[1..][i - 1];
        }
        if forall i | 0 <= i < |s| :: s[i].when == 0 {
          assert forall i | 0 <= i < |s[1..]| :: s[1..][i] == s[i + 1];
        }
      }
    }
  }

  /** Exactly when the marker is missing although events were lost: every lost event had a zero time stamp. */
  lemma MarkerMissing<R>(h: seq<Event<R>>, m: nat)
    requires m < |h|
    ensures |Retained(h, m)| == m <==> forall i | m / 3 <= i < |h| - (m - m / 3) :: h[i].when == 0
  {
    var c := m / 3;
    var dropped := Dropped(h[c..], m - c);
    FirstStampZero(dropped);
    assert forall i | 0 <= i < |dropped| :: dropped[i] == h[c + i];
    assert forall i | c <= i < |h| - (m - c) :: h[i] == dropped[i - c];
  }

  // ---------- the buffer ----------

  /** All the events ever put in a ring of the given size. */
  datatype Ring<+R> = Ring(max: nat, given: seq<Event<R>>)

  datatype Buffer<+R> = Buffer(limit: nat, first: seq<Event<R>>, ring: Option<Ring<R>>)

  function NewBuffer<R>(): Buffer<R> {
    Buffer(DEFAULT_MAX_EVENTS, [], None)
  }

  /** The events in the ring, none if there is none yet. */
  function InRing<R>(b: Buffer<R>): seq<Event<R>> {
    if b.ring.Some? then b.ring.value.given else []
  }

  /** The ring, or the one that the next event in it will make. */
  function RingOf<R>(b: Buffer<R>): Ring<R> {
    if b.ring.Some? then b.ring.value else Ring(b.limit - b.limit / 3, [])
  }

  /** The slice takes events while it has room under the present limit; the ring takes the others. */
  function Append<R>(b: Buffer<R>, e: Event<R>): Buffer<R> {
    if |b.first| < b.limit / 3 then b.(first := b.first + [e])
    else b.(ring := Some(Ring(RingOf(b).max, RingOf(b).given + [e])))
  }

  function AtLeastSix(n: int): nat {
    if n < MIN_MAX_EVENTS then MIN_MAX_EVENTS else n
  }

  function WithLimit<R>(b: Buffer<R>, n: int): Buffer<R> {
    b.(limit := AtLeastSix(n))
  }

  /** What is shown: the slice, a marker once anything with a time was dropped, and the newest in the ring. */
  function Shown<R>(b: Buffer<R>): seq<Event<R>> {
    if b.ring.None? then b.first else
      var r := b.ring.value;
      var drop := FirstStamp(Dropped(r.given, r.max));
      b.first + (if drop != 0 then [Drop(drop)] else []) + Last(r.given, r.max)
  }

  /** The order in which events are shown, had none been dropped. */
  function Order<R>(b: Buffer<R>): seq<Event<R>> {
    b.first + InRing(b)
  }

  function AppendAll<R>(b: Buffer<R>, es: seq<Event<R>>): Buffer<R> {
    if es == [] then b else Append(AppendAll(b, es[..|es| - 1]), es[|es| - 1])
  }

  /** Every event shown that refers to a trace is one that was given. */
  lemma ShownRefs<R>(b: Buffer<R>, e: Event<R>)
    requires e in Shown(b) && e.ref.Some?
    ensures e in b.first || e in InRing(b)
  {
    if b.ring.Some? {
      hide Last, Dropped, FirstStamp;
      var r := b.ring.value;
      if e !in b.first {
        assert e in Last(r.given, r.max);
        LastIn(r.given, r.max, e);
      }
    }
  }

  // ---------- a limit set before the first event ----------

  /** The buffer that was given the events `h` under the limit `m`. */
  function Recorded<R>(h: seq<Event<R>>, m: nat): Buffer<R> {
    var c := m / 3;
    if |h| <= c then Buffer(m, h, None) else Buffer(m, h[..c], Some(Ring(m - c, h[c..])))
  }

  /** It shows what should be retained of the events, all in their order. */
  lemma ShownRecorded<R>(h: seq<Event<R>>, m: nat)
    ensures Shown(Recorded(h, m)) == Retained(h, m)
    ensures Order(Recorded(h, m)) == h
  {
    hide FirstStamp, Last, Dropped;
    if |h| > m / 3 {
      assert h[..m / 3] + h[m / 3..] == h;
    }
  }

  /** Room left in the slice. */
  function Room<R>(b: Buffer<R>): nat {
    if |b.first| < b.limit / 3 then b.limit / 3 - |b.first| else 0
  }

  /** Of many events the first ones fill the slice, and the others go to the ring. */
  function Filled<R>(b: Buffer<R>, es: seq<Event<R>>): Buffer<R> {
    if |es| <= Room(b) then b.(first := b.first + es)
    else b.(first := b.first + es[..Room(b)], ring := Some(Ring(RingOf(b).max, RingOf(b).given + es[Room(b)..])))
  }

  lemma FilledNext<R>(b: Buffer<R>, es: seq<Event<R>>, e: Event<R>)
    ensures Append(Filled(b, es), e) == Filled(b, es + [e])
  {
    var room, all := Room(b), es + [e];
    if |es| < room {
      assert b.first + es + [e] == b.first + all;
    } else {
      assert all[..room] == es[..room] && all[room..] == es[room..] + [e];
      assert RingOf(b).given + es[room..] + [e] == RingOf(b).given + all[room..];
      assert |es| == room ==> es[..room] == es && es[room..] == [];
    }
  }

  lemma {:induction false} AppendAllFills<R>(b: Buffer<R>, es: seq<Event<R>>)
    ensures AppendAll(b, es) == Filled(b, es)
  {
    if es == [] {
      assert b.first + es == b.first;
    } else {
      hide Filled;
      var before, last := es[..|es| - 1], es[|es| - 1];
      AppendAllFills(b, before);
      FilledNext(b, before, last);
      assert before + [last] == es;
    }
  }

  lemma RecordedFilled<R>(h: seq<Event<R>>, m: nat, es: seq<Event<R>>)
    ensures Filled(Recorded(h, m), es) == Recorded(h + es, m)
  {
    var c, room := m / 3, Room(Recorded(h, m));
    if |h| <= c && |h + es| > c {
      assert (h + es)[..c] == h + es[..room] && (h + es)[c..] == [] + es[room..];
    } else if |h| > c {
      assert (h + es)[..c] == h[..c] && (h + es)[c..] == h[c..] + es;
      assert es[..0] == [] && es[0..] == es;
      assert |es| == 0 ==> h + es == h;
    }
  }

  lemma AppendAllRecorded<R>(h: seq<Event<R>>, m: nat, es: seq<Event<R>>)
    ensures AppendAll(Recorded(h, m), es) == Recorded(h + es, m)
  {
    AppendAllFills(Recorded(h, m), es);
    RecordedFilled(h, m, es);
  }

  /** A buffer whose limit is set before its first event shows of any events exactly what should be retained. */
  lemma LimitFirst<R>(n: int, es: seq<Event<R>>)
    ensures AppendAll(WithLimit(NewBuffer<R>(), n), es) == Recorded(es, AtLeastSix(n))
    ensures Shown(Recorded(es, AtLeastSix(n))) == Retained(es, AtLeastSix(n))
  {
    assert WithLimit(NewBuffer<R>(), n) == Recorded([], AtLeastSix(n));
    assert [] + es == es;
    hide *;
    AppendAllRecorded([], AtLeastSix(n), es);
    ShownRecorded(es, AtLeastSix(n));
  }

  // ---------- a limit set late ----------

  /** A buffer that has been given `h` under one limit, and then `es` under another. */
  function Late<R>(h: seq<Event<R>>, m: nat, n: int, es: seq<Event<R>>): Buffer<R> {
    AppendAll(WithLimit(Recorded(h, m), n), es)
  }

  /** Twelve events under a limit of thirty, two of them in the ring; a higher limit makes room in the slice, and the
      next event is shown before those two. */
  lemma LateLimitMisorders<R>(h: seq<Event<R>>, e: Event<R>)
    requires |h| == 12
    ensures Shown(Late(h, 30, 60, [e])) == h[..10] + [e] + h[10..]
  {
    var b := WithLimit(Recorded(h, 30), 60);
    AppendAllFills(b, [e]);
    assert Filled(b, [e]) == b.(first := h[..10] + [e]);
    assert FirstStamp(Dropped(h[10..], 20)) == 0;
  }

  /** With the ring in use and no room in the slice, all later events go to the ring. */
  lemma OnlyRing<R>(h: seq<Event<R>>, m: nat, n: int, es: seq<Event<R>>)
    requires m / 3 < |h| && AtLeastSix(n) / 3 <= m / 3
    ensures Late(h, m, n, es) ==
            Buffer(AtLeastSix(n), h[..m / 3], Some(Ring(m - m / 3, h[m / 3..] + es)))
  {
    var c := m / 3;
    AppendAllFills(WithLimit(Recorded(h, m), n), es);
    assert es[..0] == [] && es[0..] == es && h[..c] + [] == h[..c];
    if es == [] {
      assert h[c..] + es == h[c..];
    }
  }

  lemma OrderFilled<R>(b: Buffer<R>, es: seq<Event<R>>)
    requires b.ring.None?
    ensures Order(Filled(b, es)) == b.first + es
  {
    var room := Room(b);
    if |es| > room {
      assert es == es[..room] + es[room..];
      assert (b.first + es[..room]) + ([] + es[room..]) == b.first + es;
    }
  }

  lemma OrderLate<R>(h: seq<Event<R>>, m: nat, n: int, es: seq<Event<R>>)
    requires |h| <= m / 3 || AtLeastSix(n) / 3 <= m / 3
    ensures Order(Late(h, m, n, es)) == h + es
  {
    if |h| <= m / 3 {
      AppendAllFills(WithLimit(Recorded(h, m), n), es);
      hide Filled;
      OrderFilled(WithLimit(Recorded(h, m), n), es);
    } else {
      OnlyRing(h, m, n, es);
      hide Late;
      assert h[..m / 3] + (h[m / 3..] + es) == h + es;
    }
  }

  /** An event unlike another, with a time. */
  function Unlike<R>(e: Event<R>): Event<R> {
    Event(e.when + 1, LOG, None, "")
  }

  lemma MisorderedLate<R>(h: seq<Event<R>>, m: nat, n: int)
    requires m / 3 < |h| && m / 3 < AtLeastSix(n) / 3
    ensures var e := Unlike(h[m / 3]);
            Order(Late(h, m, n, [e])) != h + [e] && Shown(Late(h, m, n, [e])) != Retained(h + [e], AtLeastSix(n))
  {
    var c, e, k := m / 3, Unlike(h[m / 3]), AtLeastSix(n);
    var b := WithLimit(Recorded(h, m), n);
    AppendAllFills(b, [e]);
    assert Filled(b, [e]) == b.(first := h[..c] + [e]);
    assert Order(Late(h, m, n, [e]))[c] == e && Shown(Late(h, m, n, [e]))[c] == e;
    assert (h + [e])[c] == h[c];
    assert Retained(h + [e], k)[c] == h[c];
  }

  /** A late limit keeps all later events in order exactly when the ring was not yet in use or the slice gets no
      room. */
  lemma OrderIff<R>(h: seq<Event<R>>, m: nat, n: int)
    ensures (forall es: seq<Event<R>> :: Order(Late(h, m, n, es)) == h + es) <==>
            |h| <= m / 3 || AtLeastSix(n) / 3 <= m / 3
  {
    if |h| <= m / 3 || AtLeastSix(n) / 3 <= m / 3 {
      forall es: seq<Event<R>> ensures Order(Late(h, m, n, es)) == h + es {
        OrderLate(h, m, n, es);
      }
    } else {
      MisorderedLate(h, m, n);
    }
  }

  lemma StampedDrop<R>(s: seq<Event<R>>, n: nat, i: nat)
    requires i < |s| - n && s[i].when != 0
    ensures FirstStamp(Dropped(s, n)) != 0
  {
    assert Dropped(s, n)[i] == s[i];
    FirstStampZero(Dropped(s, n));
  }

  lemma RetainedLength<R>(h: seq<Event<R>>, m: nat)
    ensures |Retained(h, m)| <= m + 1
  {
    hide FirstStamp;
  }

  /** Once an event with a time has been lost, one more is shown than the limit. */
  lemma RetainedFull<R>(h: seq<Event<R>>, m: nat, i: nat)
    requires m / 3 <= i < |h| - (m - m / 3) && h[i].when != 0
    ensures |Retained(h, m)| == m + 1
  {
    var c := m / 3;
    assert h[c..][i - c] == h[i];
    StampedDrop(h[c..], m - c, i - c);
    hide FirstStamp;
  }

  lemma ShownFull<R>(limit: nat, first: seq<Event<R>>, max: nat, given: seq<Event<R>>, i: nat)
    requires i < |given| - max && given[i].when != 0
    ensures |Shown(Buffer(limit, first, Some(Ring(max, given))))| == |first| + 1 + max
  {
    StampedDrop(given, max, i);
    hide FirstStamp;
  }

  /** The slice is longer than the new limit allows: more is shown in the end. */
  lemma TooMuchLate<R>(h: seq<Event<R>>, m: nat, n: int, es: seq<Event<R>>)
    requires AtLeastSix(n) / 3 < |h| <= m / 3
    requires |es| > AtLeastSix(n) - AtLeastSix(n) / 3 && es[0].when != 0
    ensures Shown(Late(h, m, n, es)) != Retained(h + es, AtLeastSix(n))
  {
    var k := AtLeastSix(n);
    var c := k / 3;
    var b := WithLimit(Recorded(h, m), n);
    AppendAllFills(b, es);
    assert h + es[..0] == h && [] + es[0..] == es;
    assert Filled(b, es) == Buffer(k, h, Some(Ring(k - c, es)));
    hide Filled, Retained, Shown, AppendAll;
    ShownFull(k, h, k - c, es, 0);
    RetainedLength(h + es, k);
  }

  /** The ring keeps the size it was made with: in the end the old number of events is shown, not the new one. */
  lemma OldSizeLate<R>(h: seq<Event<R>>, m: nat, n: int, es: seq<Event<R>>)
    requires m / 3 < |h| && AtLeastSix(n) / 3 <= m / 3 && AtLeastSix(n) != m
    requires |es| > m + AtLeastSix(n) && es[0].when != 0
    ensures Shown(Late(h, m, n, es)) != Retained(h + es, AtLeastSix(n))
  {
    var k, c := AtLeastSix(n), m / 3;
    OnlyRing(h, m, n, es);
    hide Retained, Shown, Late;
    assert (h[c..] + es)[|h| - c] == es[0] && (h + es)[|h|] == es[0];
    ShownFull(k, h[..c], m - c, h[c..] + es, |h| - c);
    RetainedFull(h + es, k, |h|);
  }

  lemma RetainedLate<R>(h: seq<Event<R>>, m: nat, n: int, es: seq<Event<R>>)
    requires AtLeastSix(n) == m || (|h| <= m / 3 && |h| <= AtLeastSix(n) / 3)
    ensures Shown(Late(h, m, n, es)) == Retained(h + es, AtLeastSix(n))
  {
    var k := AtLeastSix(n);
    assert WithLimit(Recorded(h, m), n) == Recorded(h, k);
    AppendAllRecorded(h, k, es);
    ShownRecorded(h + es, k);
    hide Recorded, Shown, Retained;
  }

  function Stamped<R>(n: nat): (es: seq<Event<R>>)
    ensures |es| == n && forall i | 0 <= i < n :: es[i].when != 0
  {
    seq(n, _ => Event(1, LOG, None, ""))
  }

  /** A late limit shows of all later events exactly what should be retained under it when it is not a change, or when
      all the events so far are in the slice and fit it under the new limit. */
  lemma RetentionIff<R>(h: seq<Event<R>>, m: nat, n: int)
    ensures (forall es: seq<Event<R>> :: Shown(Late(h, m, n, es)) == Retained(h + es, AtLeastSix(n))) <==>
            AtLeastSix(n) == m || (|h| <= m / 3 && |h| <= AtLeastSix(n) / 3)
  {
    hide Late, Shown, Retained, Stamped, AtLeastSix;
    var k := AtLeastSix(n);
    if k == m || (|h| <= m / 3 && |h| <= k / 3) {
      forall es: seq<Event<R>> ensures Shown(Late(h, m, n, es)) == Retained(h + es, k) {
        RetainedLate(h, m, n, es);
      }
    } else if |h| <= m / 3 {
      TooMuchLate(h, m, n, Stamped(m + k + 1));
    } else if m / 3 < k / 3 {
      MisorderedLate(h, m, n);
    } else {
      OldSizeLate(h, m, n, Stamped(m + k + 1));
    }
  }
}
