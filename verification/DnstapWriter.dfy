/** The export of captured records over one connection after another (internal/dnstap/dnstap.go): the bounded
    queue, the greeting of each connection, and what a broken write leaves behind. */
module DnstapWriter {
  import opened Common
  import opened DnstapWire
  import opened DnstapStream

  const QUEUE_SIZE: nat := 1024

  const CONTENT_TYPE: string := "protobuf:dnstap.Dnstap"

  function Ascii(s: string): bytes {
    seq(|s|, i requires 0 <= i < |s| => s[i] as int % 256)
  }

  /** What is written first on a connection. */
  function Greeting(): seq<Item> {
    [Control(READY, Ascii(CONTENT_TYPE)), Control(START, Ascii(CONTENT_TYPE))]
  }

  // ---------- connections ----------

  /** How a write went: all of it arrived, or it broke after the first `n` bytes. */
  datatype Outcome = Written | Broken(n: nat)

  function Arrived(bs: bytes, o: Outcome): bytes {
    if o.Written? || |bs| <= o.n then bs else bs[..o.n]
  }

  predicate Whole(bs: bytes, o: Outcome) {
    o.Written? || |bs| <= o.n
  }

  /** `Greeted(n)` has sent `n` items of the greeting. */
  datatype Phase = Greeted(n: nat) | Streaming | Closed

  /** The bytes received on a connection; and, to tell what they should be, how much of the greeting and which
      records arrived in whole. Records are named by the order of their capture. */
  datatype Conn = Conn(wire: bytes, phase: Phase, greeted: nat, sent: seq<nat>)

  const NEW_CONN: Conn := Conn([], Greeted(0), 0, [])

  /** The write of an item, and the phase that follows if it goes well. */
  function Write(c: Conn, it: Item, o: Outcome, next: Phase): Conn {
    c.(wire := c.wire + Arrived(EncodeItem(it), o), phase := if o.Written? then next else Closed)
  }

  // ---------- the exporter ----------

  datatype Exporter = Exporter(
    captured: seq<Record>, queue: seq<nat>, conns: seq<Conn>, lost: seq<nat>, dropped: seq<nat>)

  const IDLE: Exporter := Exporter([], [], [], [], [])

  datatype Event = Capture(r: Record) | Dial | Greet(o: Outcome) | Export(o: Outcome)

  /** The connection in use. */
  function Current(s: Exporter): Conn
    requires s.conns != []
  {
    s.conns[|s.conns| - 1]
  }

  function SetCurrent(s: Exporter, c: Conn): Exporter
    requires s.conns != []
  {
    s.(conns := s.conns[..|s.conns| - 1] + [c])
  }

  ghost predicate Fits(r: Record) {
    Packs(r) ==> |FrameOf(r).value| < TWO_32
  }

  predicate Enabled(s: Exporter, ev: Event) {
    match ev
    case Capture(r) => true
    case Dial => s.conns == [] || Current(s).phase.Closed?
    case Greet(_) => s.conns != [] && Current(s).phase.Greeted? && Current(s).phase.n < 2
    case Export(_) =>
      s.conns != [] && Current(s).phase.Streaming? && s.queue != [] && s.queue[0] < |s.captured|
  }

  /** The queue never makes the caller wait: when it is full, the record is dropped. */
  function AfterCapture(s: Exporter, r: Record): Exporter {
    var s' := s.(captured := s.captured + [r]);
    if |s.queue| < QUEUE_SIZE then s'.(queue := s.queue + [|s.captured|])
    else s'.(dropped := s.dropped + [|s.captured|])
  }

  function GreetConn(c: Conn, o: Outcome): Conn
    requires c.phase.Greeted? && c.phase.n < 2
  {
    var n := c.phase.n;
    var it := Greeting()[n];
    Write(c, it, o, if n == 0 then Greeted(1) else Streaming)
      .(greeted := if Whole(EncodeItem(it), o) then n + 1 else n)
  }

  function AfterGreet(s: Exporter, o: Outcome): Exporter
    requires Enabled(s, Greet(o))
  {
    SetCurrent(s, GreetConn(Current(s), o))
  }

  /** The record is counted as sent if all of its frame arrived. */
  function ExportConn(c: Conn, i: nat, frame: bytes, o: Outcome): Conn {
    var it := Data(frame);
    var w := Write(c, it, o, Streaming);
    if Whole(EncodeItem(it), o) then w.(sent := c.sent + [i]) else w
  }

  function AfterExport(s: Exporter, o: Outcome): Exporter
    requires Enabled(s, Export(o))
  {
    var i := s.queue[0];
    var taken := s.(queue := s.queue[1..]);
    match FrameOf(s.captured[i])
    case None => taken.(lost := s.lost + [i])
    case Some(frame) =>
      var s' := SetCurrent(taken, ExportConn(Current(s), i, frame, o));
      if Whole(EncodeItem(Data(frame)), o) then s' else s'.(lost := s.lost + [i])
  }

  function Next(s: Exporter, ev: Event): Exporter
    requires Enabled(s, ev)
  {
    match ev
    case Capture(r) => AfterCapture(s, r)
    case Dial => s.(conns := s.conns + [NEW_CONN])
    case Greet(o) => AfterGreet(s, o)
    case Export(o) => AfterExport(s, o)
  }

  ghost predicate IsRun(ss: seq<Exporter>, evs: seq<Event>) {
    && |ss| == |evs| + 1
    && ss[0] == IDLE
    && forall i | 0 <= i < |evs| :: Enabled(ss[i], evs[i]) && ss[i + 1] == Next(ss[i], evs[i])
  }

  // ---------- what arrives ----------

  /** The records sent on all the connections, in order. */
  function AllSent(conns: seq<Conn>): seq<nat> {
    if conns == [] then [] else AllSent(conns[..|conns| - 1]) + conns[|conns| - 1].sent
  }

  ghost predicate Increasing(s: seq<nat>, bound: nat) {
    && (forall i, j | 0 <= i < j < |s| :: s[i] < s[j])
    && (forall i | 0 <= i < |s| :: s[i] < bound)
  }

  ghost predicate CanBeSent(captured: seq<Record>, i: nat) {
    i < |captured| && Packs(captured[i]) && Fits(captured[i])
  }

  ghost function DataItem(captured: seq<Record>, i: nat): Item
    requires CanBeSent(captured, i)
  {
    Data(FrameOf(captured[i]).value)
  }

  ghost function DataItems(captured: seq<Record>, sent: seq<nat>): seq<Item>
    requires forall i | 0 <= i < |sent| :: CanBeSent(captured, sent[i])
  {
    if sent == [] then []
    else DataItems(captured, sent[..|sent| - 1]) + [DataItem(captured, sent[|sent| - 1])]
  }

  ghost predicate SentOk(c: Conn, captured: seq<Record>) {
    && (forall i | 0 <= i < |c.sent| :: CanBeSent(captured, c.sent[i]))
    && c.greeted <= 2
    && (c.greeted < 2 ==> c.sent == [])
    && (c.phase.Greeted? ==> c.greeted == c.phase.n < 2)
    && (c.phase.Streaming? ==> c.greeted == 2)
  }

  /** The items that arrived in whole. */
  ghost function Items(c: Conn, captured: seq<Record>): seq<Item>
    requires SentOk(c, captured)
  {
    Greeting()[..c.greeted] + DataItems(captured, c.sent)
  }

  /** The bytes are those items and, on a connection that broke, at most part of another. */
  ghost predicate ConnOk(c: Conn, captured: seq<Record>) {
    && SentOk(c, captured)
    && exists tail :: IsTail(c, captured, tail)
  }

  ghost predicate IsTail(c: Conn, captured: seq<Record>, tail: bytes)
    requires SentOk(c, captured)
  {
    && c.wire == EncodeItems(Items(c, captured)) + tail
    && NextItem(tail).None?
    && (!c.phase.Closed? ==> tail == [])
  }

  // ---------- every step keeps it ----------

  /** After a write of an item to a stream of whole ones there is one more of them, or part of one at the end. */
  lemma {:induction false} WriteItem(items: seq<Item>, it: Item, o: Outcome)
    requires Sendable(it)
    ensures var tail := if Whole(EncodeItem(it), o) then [] else Arrived(EncodeItem(it), o);
            && NextItem(tail).None?
            && EncodeItems(items) + Arrived(EncodeItem(it), o) ==
               EncodeItems(if Whole(EncodeItem(it), o) then items + [it] else items) + tail
  {
    EncodeItemsAppend(items, it);
    if !Whole(EncodeItem(it), o) {
      PartialItem(it, o.n);
    }
  }

  lemma GreetingSendable()
    ensures |Greeting()| == 2 && Sendable(Greeting()[0]) && Sendable(Greeting()[1])
  {
  }

  lemma {:induction false} DataItemsExtend(captured: seq<Record>, r: Record, sent: seq<nat>)
    requires forall i | 0 <= i < |sent| :: CanBeSent(captured, sent[i])
    ensures forall i | 0 <= i < |sent| :: CanBeSent(captured + [r], sent[i])
    ensures DataItems(captured + [r], sent) == DataItems(captured, sent)
  {
    forall i | 0 <= i < |sent| ensures CanBeSent(captured + [r], sent[i]) {
      assert (captured + [r])[sent[i]] == captured[sent[i]];
    }
    if sent != [] {
      DataItemsExtend(captured, r, sent[..|sent| - 1]);
      assert (captured + [r])[sent[|sent| - 1]] == captured[sent[|sent| - 1]];
    }
  }

  lemma ConnExtend(c: Conn, captured: seq<Record>, r: Record)
    requires ConnOk(c, captured)
    ensures ConnOk(c, captured + [r])
  {
    DataItemsExtend(captured, r, c.sent);
    var tail :| IsTail(c, captured, tail);
    assert IsTail(c, captured + [r], tail);
  }

  lemma GreetingItems(c: Conn, captured: seq<Record>)
    requires c.sent == [] && c.greeted <= 2
    requires (c.phase.Greeted? ==> c.greeted == c.phase.n < 2) && (c.phase.Streaming? ==> c.greeted == 2)
    ensures SentOk(c, captured) && Items(c, captured) == Greeting()[..c.greeted]
  {
  }

  /** A connection on which the next part of the greeting is written. */
  lemma ConnGreeted(c: Conn, captured: seq<Record>, o: Outcome)
    requires ConnOk(c, captured) && c.phase.Greeted? && c.phase.n < 2
    ensures ConnOk(GreetConn(c, o), captured)
  {
    var n := c.phase.n;
    var it, c' := Greeting()[n], GreetConn(c, o);
    GreetingSendable();
    GreetingItems(c, captured);
    GreetingItems(c', captured);
    assert c.wire == EncodeItems(Items(c, captured)) by {
      var tail :| IsTail(c, captured, tail);
    }
    assert Greeting()[..n + 1] == Greeting()[..n] + [it];
    WriteItem(Greeting()[..n], it, o);
    hide EncodeItem, EncodeItems, NextItem, Greeting, Items, Arrived, SentOk;
    assert IsTail(c', captured, if Whole(EncodeItem(it), o) then [] else Arrived(EncodeItem(it), o));
  }

  lemma DataItemsAppend(captured: seq<Record>, sent: seq<nat>, i: nat)
    requires forall j | 0 <= j < |sent| :: CanBeSent(captured, sent[j])
    requires CanBeSent(captured, i)
    ensures forall j | 0 <= j < |sent + [i]| :: CanBeSent(captured, (sent + [i])[j])
    ensures DataItems(captured, sent + [i]) == DataItems(captured, sent) + [DataItem(captured, i)]
  {
    assert (sent + [i])[..|sent|] == sent;
  }

  lemma DataSendable(r: Record)
    requires Packs(r) && Fits(r)
    ensures Sendable(Data(FrameOf(r).value))
  {
    FrameDecodes(r);
  }

  lemma ItemsAppend(c: Conn, captured: seq<Record>, i: nat)
    requires SentOk(c, captured) && c.greeted == 2 && CanBeSent(captured, i)
    ensures SentOk(c.(sent := c.sent + [i]), captured)
    ensures Items(c.(sent := c.sent + [i]), captured) == Items(c, captured) + [DataItem(captured, i)]
  {
    DataItemsAppend(captured, c.sent, i);
    hide Greeting, DataItem, CanBeSent;
  }

  /** Items depend on what arrived, not on the bytes or on the phase. */
  lemma SameItems(c: Conn, wire: bytes, phase: Phase, captured: seq<Record>)
    requires SentOk(c, captured) && c.greeted == 2 && !phase.Greeted?
    ensures SentOk(c.(wire := wire, phase := phase), captured)
    ensures Items(c.(wire := wire, phase := phase), captured) == Items(c, captured)
  {
  }

  /** A connection on which a record is written, and the record has been counted if it arrived. */
  lemma ConnWritten(c: Conn, captured: seq<Record>, i: nat, o: Outcome)
    requires ConnOk(c, captured) && c.phase.Streaming? && CanBeSent(captured, i)
    ensures ConnOk(ExportConn(c, i, FrameOf(captured[i]).value, o), captured)
  {
    var it := DataItem(captured, i);
    var w := Write(c, it, o, Streaming);
    DataSendable(captured[i]);
    WriteItem(Items(c, captured), it, o);
    SameItems(c, w.wire, w.phase, captured);
    ItemsAppend(w, captured, i);
    assert c.wire == EncodeItems(Items(c, captured)) && (w.phase.Closed? <==> !o.Written?) by {
      var tail :| IsTail(c, captured, tail);
    }
    assert it == Data(FrameOf(captured[i]).value);
    hide EncodeItem, EncodeItems, NextItem, Items, DataItem, FrameOf, Arrived, SentOk;
    if Whole(EncodeItem(it), o) {
      assert IsTail(w.(sent := c.sent + [i]), captured, []);
    } else {
      assert IsTail(w, captured, Arrived(EncodeItem(it), o));
    }
  }

  ghost predicate ConnsOk(conns: seq<Conn>, captured: seq<Record>) {
    forall k | 0 <= k < |conns| :: ConnOk(conns[k], captured)
  }

  lemma AllSentReplace(conns: seq<Conn>, c: Conn)
    requires conns != []
    ensures AllSent(conns[..|conns| - 1] + [c]) == AllSent(conns[..|conns| - 1]) + c.sent
    ensures AllSent(conns) == AllSent(conns[..|conns| - 1]) + conns[|conns| - 1].sent
  {
    var conns' := conns[..|conns| - 1] + [c];
    assert conns'[..|conns'| - 1] == conns[..|conns| - 1];
  }

  /** One more record sent on the last connection is one more sent on all of them. */
  lemma AllSentGrows(conns: seq<Conn>, c: Conn)
    requires conns != []
    ensures forall i | c.sent == conns[|conns| - 1].sent + [i] ::
              AllSent(conns[..|conns| - 1] + [c]) == AllSent(conns) + [i]
    ensures c.sent == conns[|conns| - 1].sent ==> AllSent(conns[..|conns| - 1] + [c]) == AllSent(conns)
  {
    AllSentReplace(conns, c);
    hide AllSent;
    var before, last := AllSent(conns[..|conns| - 1]), conns[|conns| - 1].sent;
    forall i | c.sent == last + [i] ensures before + c.sent == (before + last) + [i] {
    }
  }

  lemma AllSentDial(conns: seq<Conn>)
    ensures AllSent(conns + [NEW_CONN]) == AllSent(conns)
  {
    assert (conns + [NEW_CONN])[..|conns|] == conns;
  }

  /** How often record `i` is among those sent, queued, lost and dropped, all taken together. */
  ghost function Times(i: nat, sent: seq<nat>, queue: seq<nat>, lost: seq<nat>, dropped: seq<nat>): nat {
    multiset(sent)[i] + multiset(queue)[i] + multiset(lost)[i] + multiset(dropped)[i]
  }

  /** The first `n` records are shared out: each of them is in one place, once. */
  ghost predicate SharedOut(n: nat, sent: seq<nat>, queue: seq<nat>, lost: seq<nat>, dropped: seq<nat>) {
    forall i: nat :: Times(i, sent, queue, lost, dropped) == if i < n then 1 else 0
  }

  lemma SharedNext(n: nat, sent: seq<nat>, queue: seq<nat>, lost: seq<nat>, dropped: seq<nat>)
    requires SharedOut(n, sent, queue, lost, dropped)
    ensures SharedOut(n + 1, sent, queue + [n], lost, dropped)
    ensures SharedOut(n + 1, sent, queue, lost, dropped + [n])
  {
    forall i: nat
      ensures Times(i, sent, queue + [n], lost, dropped) == if i < n + 1 then 1 else 0
      ensures Times(i, sent, queue, lost, dropped + [n]) == if i < n + 1 then 1 else 0
    {
      assert Times(i, sent, queue, lost, dropped) == if i < n then 1 else 0;
    }
  }

  /** The oldest record in the queue goes elsewhere. */
  lemma SharedMoved(n: nat, sent: seq<nat>, queue: seq<nat>, lost: seq<nat>, dropped: seq<nat>)
    requires SharedOut(n, sent, queue, lost, dropped) && queue != []
    ensures SharedOut(n, sent + [queue[0]], queue[1..], lost, dropped)
    ensures SharedOut(n, sent, queue[1..], lost + [queue[0]], dropped)
  {
    var x, rest := queue[0], queue[1..];
    assert queue == [x] + rest;
    forall i: nat
      ensures Times(i, sent + [x], rest, lost, dropped) == if i < n then 1 else 0
      ensures Times(i, sent, rest, lost + [x], dropped) == if i < n then 1 else 0
    {
      assert Times(i, sent, queue, lost, dropped) == if i < n then 1 else 0;
    }
  }

  /** Accounting: each record captured was sent, is queued, was lost or was dropped, one of these and once; and those
      sent and queued are in the order of capture. */
  ghost predicate Accounted(s: Exporter) {
    && |s.queue| <= QUEUE_SIZE
    && Increasing(AllSent(s.conns) + s.queue, |s.captured|)
    && SharedOut(|s.captured|, AllSent(s.conns), s.queue, s.lost, s.dropped)
    && |s.captured| == |AllSent(s.conns)| + |s.queue| + |s.lost| + |s.dropped|
  }

  lemma AccountedAfterCapture(s: Exporter, r: Record)
    requires Accounted(s)
    ensures Accounted(AfterCapture(s, r))
  {
    assert AllSent(s.conns) + (s.queue + [|s.captured|]) == (AllSent(s.conns) + s.queue) + [|s.captured|];
    SharedNext(|s.captured|, AllSent(s.conns), s.queue, s.lost, s.dropped);
    hide SharedOut, AllSent;
  }

  lemma IncreasingWithout(a: seq<nat>, q: seq<nat>, bound: nat)
    requires q != [] && Increasing(a + q, bound)
    ensures Increasing(a + q[1..], bound)
  {
    var s, t := a + q, a + q[1..];
    forall i | 0 <= i < |t| ensures t[i] == s[if i < |a| then i else i + 1] {
    }
  }

  /** What an export does to the connections, the losses and the queue: the record taken is sent or lost. */
  lemma ExportCases(s: Exporter, o: Outcome)
    requires Enabled(s, Export(o))
    ensures var s', i := AfterExport(s, o), s.queue[0];
            && s'.queue == s.queue[1..] && s'.captured == s.captured && s'.dropped == s.dropped
            && ((s'.lost == s.lost + [i] && AllSent(s'.conns) == AllSent(s.conns))
                || (s'.lost == s.lost && AllSent(s'.conns) == AllSent(s.conns) + [i]))
  {
    var i := s.queue[0];
    if FrameOf(s.captured[i]).Some? {
      var frame := FrameOf(s.captured[i]).value;
      hide EncodeItem, FrameOf, Arrived;
      AllSentGrows(s.conns, ExportConn(Current(s), i, frame, o));
      hide AllSent;
    }
  }

  lemma MoveOver(sent: seq<nat>, queue: seq<nat>)
    requires queue != []
    ensures (sent + [queue[0]]) + queue[1..] == sent + queue
  {
  }

  lemma AccountedAfterExport(s: Exporter, o: Outcome)
    requires Accounted(s) && Enabled(s, Export(o))
    ensures Accounted(AfterExport(s, o))
  {
    var i, rest, sent := s.queue[0], s.queue[1..], AllSent(s.conns);
    hide AfterExport, AllSent, Increasing, Enabled, SharedOut;
    ExportCases(s, o);
    SharedMoved(|s.captured|, sent, s.queue, s.lost, s.dropped);
    IncreasingWithout(sent, s.queue, |s.captured|);
    MoveOver(sent, s.queue);
  }

  lemma AccountedAfterDial(s: Exporter)
    requires Accounted(s) && Enabled(s, Event.Dial)
    ensures Accounted(Next(s, Event.Dial))
  {
    hide SharedOut, Increasing;
    AllSentDial(s.conns);
  }

  lemma AccountedAfterGreet(s: Exporter, o: Outcome)
    requires Accounted(s) && Enabled(s, Greet(o))
    ensures Accounted(AfterGreet(s, o))
  {
    hide EncodeItem, Greeting, Arrived, SharedOut, Increasing;
    AllSentReplace(s.conns, Current(AfterGreet(s, o)));
  }

  lemma AccountedNext(s: Exporter, ev: Event)
    requires Accounted(s) && Enabled(s, ev)
    ensures Accounted(Next(s, ev))
  {
    hide Accounted, AfterCapture, AfterGreet, AfterExport;
    match ev
    case Capture(r) => AccountedAfterCapture(s, r);
    case Dial => AccountedAfterDial(s);
    case Greet(o) => AccountedAfterGreet(s, o);
    case Export(o) => AccountedAfterExport(s, o);
  }

  lemma ConnsOkCapture(s: Exporter, r: Record)
    requires ConnsOk(s.conns, s.captured)
    ensures ConnsOk(s.conns, s.captured + [r])
  {
    forall k | 0 <= k < |s.conns| ensures ConnOk(s.conns[k], s.captured + [r]) {
      ConnExtend(s.conns[k], s.captured, r);
    }
  }

  lemma NewConnOk(captured: seq<Record>)
    ensures ConnOk(NEW_CONN, captured)
  {
    GreetingItems(NEW_CONN, captured);
    assert IsTail(NEW_CONN, captured, []);
  }

  lemma ConnsOkSet(s: Exporter, c: Conn)
    requires s.conns != [] && ConnsOk(s.conns, s.captured) && ConnOk(c, s.captured)
    ensures ConnsOk(SetCurrent(s, c).conns, s.captured)
  {
    hide ConnOk;
  }

  /** What an export does to the connections. */
  lemma ExportConns(s: Exporter, o: Outcome)
    requires Enabled(s, Export(o))
    ensures s.conns != [] && s.queue[0] < |s.captured| && Current(s).phase.Streaming?
    ensures var i := s.queue[0];
            AfterExport(s, o).conns ==
            if Packs(s.captured[i]) then SetCurrent(s, ExportConn(Current(s), i, FrameOf(s.captured[i]).value, o)).conns
            else s.conns
  {
    hide ExportConn, EncodeItem, Encode, FrameFields, Arrived;
  }

  lemma ConnsOkExport(s: Exporter, o: Outcome)
    requires Enabled(s, Export(o)) && ConnsOk(s.conns, s.captured) && Fits(s.captured[s.queue[0]])
    ensures ConnsOk(AfterExport(s, o).conns, s.captured)
  {
    ExportConns(s, o);
    var i := s.queue[0];
    if Packs(s.captured[i]) {
      assert CanBeSent(s.captured, i) && ConnOk(Current(s), s.captured);
      hide *;
      ConnWritten(Current(s), s.captured, i, o);
      ConnsOkSet(s, ExportConn(Current(s), i, FrameOf(s.captured[i]).value, o));
    }
  }

  lemma ConnsOkGreet(s: Exporter, o: Outcome)
    requires Enabled(s, Greet(o)) && ConnsOk(s.conns, s.captured)
    ensures ConnsOk(AfterGreet(s, o).conns, s.captured)
  {
    assert ConnOk(Current(s), s.captured);
    ConnGreeted(Current(s), s.captured, o);
    ConnsOkSet(s, GreetConn(Current(s), o));
  }

  /** No frame is too long for its length word. */
  ghost predicate AllFit(captured: seq<Record>) {
    forall i | 0 <= i < |captured| :: Fits(captured[i])
  }

  lemma ConnsOkNext(s: Exporter, ev: Event)
    requires Enabled(s, ev) && ConnsOk(s.conns, s.captured)
    requires AllFit(s.captured)
    ensures ConnsOk(Next(s, ev).conns, Next(s, ev).captured)
  {
    hide ConnOk, AfterExport, AfterGreet;
    match ev
    case Capture(r) => ConnsOkCapture(s, r);
    case Dial => NewConnOk(s.captured);
    case Greet(o) =>
      ConnsOkGreet(s, o);
      CapturedNext(s, ev);
    case Export(o) =>
      ConnsOkExport(s, o);
      CapturedNext(s, ev);
  }

  /** In every state of every run each record is accounted for; and as long as all frames fit, so is every byte. */
  lemma {:induction false} RunKeeps(ss: seq<Exporter>, evs: seq<Event>, i: nat)
    requires IsRun(ss, evs) && i < |ss|
    ensures Accounted(ss[i])
    ensures AllFit(ss[i].captured) ==> ConnsOk(ss[i].conns, ss[i].captured)
  {
    if i > 0 {
      var s, ev := ss[i - 1], evs[i - 1];
      RunKeeps(ss, evs, i - 1);
      AccountedNext(s, ev);
      CapturedNext(s, ev);
      if AllFit(ss[i].captured) {
        FitBefore(s.captured, ss[i].captured);
        ConnsOkNext(s, ev);
      }
    }
  }

  lemma FitBefore(before: seq<Record>, after: seq<Record>)
    requires before <= after && AllFit(after)
    ensures AllFit(before)
  {
    hide Fits;
    forall i | 0 <= i < |before| ensures Fits(before[i]) {
      assert before[i] == after[i];
    }
  }

  /** Captured records are never forgotten or replaced. */
  lemma CapturedNext(s: Exporter, ev: Event)
    requires Enabled(s, ev)
    ensures Next(s, ev).captured == if ev.Capture? then s.captured + [ev.r] else s.captured
  {
  }

  // ---------- what it means for a reader ----------

  /** Each connection, whether open or broken in the middle of a write, decodes to the start of the greeting and,
      only after all of it, data frames: those of captured records, in the order of capture. */
  lemma StreamsDecode(ss: seq<Exporter>, evs: seq<Event>, i: nat, k: nat)
    requires IsRun(ss, evs) && i < |ss| && k < |ss[i].conns|
    requires AllFit(ss[i].captured)
    ensures var c, captured := ss[i].conns[k], ss[i].captured;
            && SentOk(c, captured)
            && DecodeStream(c.wire).0 == Greeting()[..c.greeted] + DataItems(captured, c.sent)
            && (!c.phase.Closed? ==> DecodeStream(c.wire).1 == [])
    ensures var c, captured := ss[i].conns[k], ss[i].captured;
            var items := DecodeStream(c.wire).0;
            && c.greeted <= 2 && |items| == c.greeted + |c.sent| && (c.sent != [] ==> c.greeted == 2)
            && (c.greeted >= 1 ==> IsControl(items[0], 4, "protobuf:dnstap.Dnstap"))
            && (c.greeted == 2 ==> IsControl(items[1], 2, "protobuf:dnstap.Dnstap"))
            && forall n | 0 <= n < |c.sent| ::
                 c.sent[n] < |captured| && FrameOf(captured[c.sent[n]]).Some?
                 && items[c.greeted + n] == Data(FrameOf(captured[c.sent[n]]).value)
  {
    RunKeeps(ss, evs, i);
    assert ConnOk(ss[i].conns[k], ss[i].captured);
    hide *;
    ConnDecodes(ss[i].conns[k], ss[i].captured);
    ItemsAre(ss[i].conns[k], ss[i].captured);
  }

  /** A control frame of the type, 4 for READY and 2 for START, with the content type as its text. */
  predicate IsControl(it: Item, typ: nat, contentType: string) {
    && it.Control? && it.typ == typ && |it.contentType| == |contentType|
    && forall i | 0 <= i < |contentType| :: it.contentType[i] as int == contentType[i] as int
  }

  lemma GreetingIs()
    ensures |Greeting()| == 2
    ensures IsControl(Greeting()[0], 4, "protobuf:dnstap.Dnstap")
    ensures IsControl(Greeting()[1], 2, "protobuf:dnstap.Dnstap")
  {
  }

  lemma ItemsAre(c: Conn, captured: seq<Record>)
    requires SentOk(c, captured)
    ensures c.greeted <= |Greeting()|
    ensures var items := Greeting()[..c.greeted] + DataItems(captured, c.sent);
            && c.greeted <= 2 && |items| == c.greeted + |c.sent| && (c.sent != [] ==> c.greeted == 2)
            && (c.greeted >= 1 ==> IsControl(items[0], 4, "protobuf:dnstap.Dnstap"))
            && (c.greeted == 2 ==> IsControl(items[1], 2, "protobuf:dnstap.Dnstap"))
            && forall n | 0 <= n < |c.sent| ::
                 c.sent[n] < |captured| && FrameOf(captured[c.sent[n]]).Some?
                 && items[c.greeted + n] == Data(FrameOf(captured[c.sent[n]]).value)
  {
    GreetingIs();
    DataItemsSendable(captured, c.sent);
    hide Greeting, DataItems, Sendable, Fits, FrameFields, IsControl;
  }

  lemma ConnDecodes(c: Conn, captured: seq<Record>)
    requires ConnOk(c, captured)
    ensures SentOk(c, captured)
    ensures DecodeStream(c.wire).0 == Greeting()[..c.greeted] + DataItems(captured, c.sent)
    ensures !c.phase.Closed? ==> DecodeStream(c.wire).1 == []
  {
    var tail :| IsTail(c, captured, tail);
    GreetingSendable();
    DataItemsSendable(captured, c.sent);
    hide EncodeItem, NextItem, Sendable, Greeting, FrameOf, CanBeSent;
    StreamDecodes(Items(c, captured), tail);
  }

  lemma DataItemSendable(captured: seq<Record>, i: nat)
    requires CanBeSent(captured, i)
    ensures Sendable(DataItem(captured, i))
  {
    DataSendable(captured[i]);
  }

  lemma {:induction false} DataItemsSendable(captured: seq<Record>, sent: seq<nat>)
    requires forall i | 0 <= i < |sent| :: CanBeSent(captured, sent[i])
    ensures |DataItems(captured, sent)| == |sent|
    ensures forall i | 0 <= i < |sent| ::
              && DataItems(captured, sent)[i] == DataItem(captured, sent[i])
              && Sendable(DataItems(captured, sent)[i])
  {
    hide CanBeSent, DataItem, Sendable;
    if sent != [] {
      var before, last := sent[..|sent| - 1], sent[|sent| - 1];
      assert DataItems(captured, sent) == DataItems(captured, before) + [DataItem(captured, last)];
      DataItemsSendable(captured, before);
      DataItemSendable(captured, last);
      hide DataItems;
      assert forall i | 0 <= i < |before| :: sent[i] == before[i];
    }
  }

  /** Over all the connections, records arrive in the order of their capture and none arrives twice; and the records
      captured are shared out, each in one place and once, among those that have arrived, are queued, were lost to an
      error, or were dropped because the queue was full. */
  lemma Delivery(ss: seq<Exporter>, evs: seq<Event>, i: nat)
    requires IsRun(ss, evs) && i < |ss|
    ensures var s := ss[i];
            && (forall a, b | 0 <= a < b < |AllSent(s.conns)| :: AllSent(s.conns)[a] < AllSent(s.conns)[b])
            && SharedOut(|s.captured|, AllSent(s.conns), s.queue, s.lost, s.dropped)
            && |s.captured| == |AllSent(s.conns)| + |s.queue| + |s.lost| + |s.dropped|
            && |s.queue| <= 1024
  {
    RunKeeps(ss, evs, i);
    hide SharedOut;
    var s := ss[i];
    var all := AllSent(s.conns) + s.queue;
    assert forall a | 0 <= a < |AllSent(s.conns)| :: all[a] == AllSent(s.conns)[a];
  }

  /** In particular none that was lost or dropped has arrived or is queued. */
  lemma GoneIsGone(ss: seq<Exporter>, evs: seq<Event>, i: nat, r: nat)
    requires IsRun(ss, evs) && i < |ss| && (r in ss[i].lost || r in ss[i].dropped)
    ensures r < |ss[i].captured| && r !in AllSent(ss[i].conns) && r !in ss[i].queue
    ensures r !in ss[i].lost || r !in ss[i].dropped
  {
    Delivery(ss, evs, i);
    var s := ss[i];
    assert Times(r, AllSent(s.conns), s.queue, s.lost, s.dropped) == if r < |s.captured| then 1 else 0;
    assert r in s.lost <==> r in multiset(s.lost);
    assert r in s.dropped <==> r in multiset(s.dropped);
    assert r in s.queue <==> r in multiset(s.queue);
    assert r in AllSent(s.conns) <==> r in multiset(AllSent(s.conns));
  }

  /** Event `j` captured the record while 1024 others were queued. */
  ghost predicate DroppedAt(ss: seq<Exporter>, evs: seq<Event>, j: nat, r: nat)
    requires j < |ss| && j < |evs|
  {
    evs[j].Capture? && r == |ss[j].captured| && |ss[j].queue| == 1024
  }

  /** Event `j` took the record from the queue, and it could not be packed or the write broke before its end. */
  ghost predicate LostAt(ss: seq<Exporter>, evs: seq<Event>, j: nat, r: nat)
    requires j < |ss| && j < |evs|
  {
    && evs[j].Export? && ss[j].queue != [] && ss[j].queue[0] == r < |ss[j].captured|
    && match FrameOf(ss[j].captured[r])
       case None => true
       case Some(frame) => evs[j].o.Broken? && evs[j].o.n < |EncodeItem(Data(frame))|
  }

  lemma GoneNext(s: Exporter, ev: Event, r: nat)
    requires Enabled(s, ev) && |s.queue| <= 1024
    ensures r in Next(s, ev).dropped ==>
              r in s.dropped || (ev.Capture? && r == |s.captured| && |s.queue| == 1024)
    ensures r in Next(s, ev).lost ==>
              || r in s.lost
              || (ev.Export? && s.queue[0] == r
                  && match FrameOf(s.captured[r])
                     case None => true
                     case Some(frame) => ev.o.Broken? && ev.o.n < |EncodeItem(Data(frame))|)
  {
    hide EncodeItem, FrameFields, Encode;
  }

  /** Records are only ever dropped because the queue was full, and only ever lost because they could not be packed or
      written; so as long as none of this happens every record captured arrives or is still queued. */
  lemma {:induction false} WhyGone(ss: seq<Exporter>, evs: seq<Event>, i: nat, r: nat)
    requires IsRun(ss, evs) && i < |ss|
    ensures r in ss[i].dropped ==> exists j | 0 <= j < i :: DroppedAt(ss, evs, j, r)
    ensures r in ss[i].lost ==> exists j | 0 <= j < i :: LostAt(ss, evs, j, r)
  {
    if i > 0 {
      WhyGone(ss, evs, i - 1, r);
      Delivery(ss, evs, i - 1);
      GoneNext(ss[i - 1], evs[i - 1], r);
      hide Next, EncodeItem, FrameOf, SharedOut, AllSent;
      if r in ss[i].dropped && r !in ss[i - 1].dropped {
        assert DroppedAt(ss, evs, i - 1, r);
      }
      if r in ss[i].lost && r !in ss[i - 1].lost {
        assert LostAt(ss, evs, i - 1, r);
      }
    }
  }

  // ---------- nothing gets stuck ----------

  /** The events lead from one state to the other. */
  ghost predicate Leads(s: Exporter, evs: seq<Event>, t: Exporter)
    decreases |evs|
  {
    if evs == [] then s == t else Enabled(s, evs[0]) && Leads(Next(s, evs[0]), evs[1..], t)
  }

  /** They are the exporter's own, and everything goes well. */
  predicate AllWell(evs: seq<Event>) {
    forall i | 0 <= i < |evs| :: evs[i] == Event.Dial || evs[i] == Greet(Written) || evs[i] == Export(Written)
  }

  lemma LeadsFirst(s: Exporter, ev: Event, evs: seq<Event>, t: Exporter)
    requires Enabled(s, ev) && Leads(Next(s, ev), evs, t) && AllWell(evs) && AllWell([ev])
    ensures Leads(s, [ev] + evs, t) && AllWell([ev] + evs)
  {
    assert ([ev] + evs)[1..] == evs;
  }

  lemma {:induction false} LeadsThen(s: Exporter, a: seq<Event>, t: Exporter, b: seq<Event>, u: Exporter)
    requires Leads(s, a, t) && Leads(t, b, u)
    ensures Leads(s, a + b, u)
    decreases |a|
  {
    hide Next, Enabled;
    if a == [] {
      assert a + b == b;
    } else {
      assert (a + b)[1..] == a[1..] + b && (a + b)[0] == a[0];
      LeadsThen(Next(s, a[0]), a[1..], t, b, u);
    }
  }

  /** Nothing but the connections differs, and the same records have been sent on them. */
  ghost predicate SameButConns(s: Exporter, t: Exporter) {
    s.captured == t.captured && s.queue == t.queue && s.lost == t.lost && s.dropped == t.dropped
    && AllSent(s.conns) == AllSent(t.conns)
  }

  ghost predicate PhaseOk(s: Exporter) {
    s.conns != [] && Current(s).phase.Greeted? ==> Current(s).phase.n < 2
  }

  ghost predicate IsStreaming(s: Exporter) {
    s.conns != [] && Current(s).phase.Streaming?
  }

  lemma PhaseNext(s: Exporter, ev: Event)
    requires Enabled(s, ev) && PhaseOk(s)
    ensures PhaseOk(Next(s, ev))
  {
    hide EncodeItem, FrameOf, Greeting, Arrived;
  }

  lemma {:induction false} RunPhases(ss: seq<Exporter>, evs: seq<Event>, i: nat)
    requires IsRun(ss, evs) && i < |ss|
    ensures PhaseOk(ss[i])
  {
    if i > 0 {
      RunPhases(ss, evs, i - 1);
      hide Next, Enabled, PhaseOk;
      PhaseNext(ss[i - 1], evs[i - 1]);
    }
  }

  lemma GreetWell(s: Exporter)
    requires s.conns != [] && Current(s).phase.Greeted? && Current(s).phase.n < 2
    ensures Enabled(s, Greet(Written))
    ensures var t := Next(s, Greet(Written));
            && SameButConns(s, t) && t.conns != []
            && Current(t).phase == if Current(s).phase.n == 0 then Greeted(1) else Streaming
  {
    hide EncodeItem, Greeting, Arrived;
    AllSentReplace(s.conns, GreetConn(Current(s), Written));
  }

  lemma DialWell(s: Exporter)
    requires s.conns == [] || Current(s).phase.Closed?
    ensures Enabled(s, Event.Dial)
    ensures var t := Next(s, Event.Dial);
            SameButConns(s, t) && t.conns != [] && Current(t).phase == Greeted(0)
  {
    AllSentDial(s.conns);
    hide AllSent;
  }

  /** How many steps a connection is away from streaming. */
  ghost function StepsAway(s: Exporter): nat {
    if s.conns == [] || Current(s).phase.Closed? then 3
    else if Current(s).phase == Greeted(0) then 2
    else if Current(s).phase.Greeted? then 1
    else 0
  }

  /** One step brings the connection closer. */
  lemma StepCloser(s: Exporter) returns (ev: Event)
    requires PhaseOk(s) && StepsAway(s) > 0
    ensures ev == Event.Dial || ev == Greet(Written)
    ensures Enabled(s, ev) && SameButConns(s, Next(s, ev))
    ensures PhaseOk(Next(s, ev)) && StepsAway(Next(s, ev)) < StepsAway(s)
  {
    hide SameButConns, EncodeItem, Greeting, AllSent;
    if StepsAway(s) == 3 {
      ev := Event.Dial;
      DialWell(s);
    } else {
      ev := Greet(Written);
      GreetWell(s);
    }
    hide Next, Enabled;
  }

  /** A connection can be opened and greeted. */
  lemma Connects(s: Exporter) returns (evs: seq<Event>, t: Exporter)
    requires PhaseOk(s)
    ensures Leads(s, evs, t) && AllWell(evs) && SameButConns(s, t) && IsStreaming(t)
    decreases StepsAway(s)
  {
    if StepsAway(s) == 0 {
      evs, t := [], s;
    } else {
      hide *;
      var ev := StepCloser(s);
      evs, t := Connects(Next(s, ev));
      OneStep(ev);
      LeadsFirst(s, ev, evs, t);
      SameTwice(s, Next(s, ev), t);
      evs := [ev] + evs;
    }
  }

  lemma OneStep(ev: Event)
    requires ev == Event.Dial || ev == Greet(Written) || ev == Export(Written)
    ensures AllWell([ev])
  {
  }

  lemma SameTwice(s: Exporter, t: Exporter, u: Exporter)
    requires SameButConns(s, t) && SameButConns(t, u)
    ensures SameButConns(s, u)
  {
  }

  lemma ExportWell(s: Exporter)
    requires IsStreaming(s) && s.queue != [] && s.queue[0] < |s.captured| && Packs(s.captured[s.queue[0]])
    ensures Enabled(s, Export(Written))
    ensures var t := Next(s, Export(Written));
            && IsStreaming(t) && t.captured == s.captured && t.lost == s.lost && t.dropped == s.dropped
            && t.queue == s.queue[1..] && AllSent(t.conns) == AllSent(s.conns) + [s.queue[0]]
  {
    hide EncodeItem, Encode, FrameFields, Arrived;
    AllSentGrows(s.conns, ExportConn(Current(s), s.queue[0], FrameOf(s.captured[s.queue[0]]).value, Written));
    hide AllSent;
  }

  lemma {:induction false} Drains(s: Exporter) returns (evs: seq<Event>, t: Exporter)
    requires IsStreaming(s)
    requires forall q | q in s.queue :: q < |s.captured| && Packs(s.captured[q])
    ensures Leads(s, evs, t) && AllWell(evs)
    ensures t.queue == [] && AllSent(t.conns) == AllSent(s.conns) + s.queue
    ensures t.captured == s.captured && t.lost == s.lost && t.dropped == s.dropped
    decreases |s.queue|
  {
    hide AllSent, Enabled, Next, IsStreaming;
    if s.queue == [] {
      evs, t := [], s;
    } else {
      assert s.queue[0] in s.queue;
      ExportWell(s);
      assert forall q | q in s.queue[1..] :: q in s.queue;
      evs, t := Drains(Next(s, Export(Written)));
      OneStep(Export(Written));
      LeadsFirst(s, Export(Written), evs, t);
      evs := [Export(Written)] + evs;
      assert s.queue == [s.queue[0]] + s.queue[1..];
    }
  }

  /** From every state that can be reached, if all goes well from then on, every queued record that packs arrives, in
      order, and none is lost: the exporter never gets stuck. */
  lemma NeverStuck(ss: seq<Exporter>, evs: seq<Event>, i: nat) returns (more: seq<Event>, t: Exporter)
    requires IsRun(ss, evs) && i < |ss|
    requires forall q | q in ss[i].queue && q < |ss[i].captured| :: Packs(ss[i].captured[q])
    ensures Leads(ss[i], more, t) && AllWell(more)
    ensures t.queue == [] && AllSent(t.conns) == AllSent(ss[i].conns) + ss[i].queue
    ensures t.captured == ss[i].captured && t.lost == ss[i].lost && t.dropped == ss[i].dropped
  {
    RunPhases(ss, evs, i);
    RunKeeps(ss, evs, i);
    var s := ss[i];
    var all := AllSent(s.conns) + s.queue;
    forall q | q in s.queue ensures q < |s.captured| {
      var k :| 0 <= k < |s.queue| && s.queue[k] == q;
      assert all[|AllSent(s.conns)| + k] == q;
    }
    hide AllSent, Leads, SharedOut, ConnsOk, PhaseOk, IsStreaming, Next, Enabled, FrameOf;
    var first, open := Connects(s);
    var rest;
    assert open.queue == s.queue && open.captured == s.captured;
    forall q | q in open.queue ensures q < |open.captured| && Packs(open.captured[q]) {
    }
    rest, t := Drains(open);
    LeadsThen(s, first, open, rest, t);
    more := first + rest;
  }

  // ---------- the writer ----------

  /** What the program sees of an export: the queue, the bytes written and the phase. */
  lemma ExportSeen(s: Exporter, o: Outcome)
    requires Enabled(s, Export(o))
    ensures var t, frame := AfterExport(s, o), FrameOf(s.captured[s.queue[0]]);
            && t.queue == s.queue[1..] && t.captured == s.captured && |t.conns| == |s.conns|
            && (forall k | 0 <= k < |s.conns| - 1 :: t.conns[k] == s.conns[k])
            && Current(t).wire ==
               Current(s).wire + (if frame.Some? then Arrived(EncodeItem(Data(frame.value)), o) else [])
            && Current(t).phase == if frame.None? || o.Written? then Streaming else Closed
  {
    hide EncodeItem, FrameOf, Arrived;
    assert Current(s).wire + [] == Current(s).wire;
  }

  /** The queue and the connections as the program has them. */
  class Writer {
    var ch: seq<Record>
    var wires: seq<bytes>
    var phase: Phase

    /** The writer is the exporter `s`. */
    ghost predicate Models(s: Exporter)
      reads this
    {
      && |ch| == |s.queue|
      && (forall i | 0 <= i < |ch| :: s.queue[i] < |s.captured| && ch[i] == s.captured[s.queue[i]])
      && |wires| == |s.conns|
      && (forall k | 0 <= k < |wires| :: wires[k] == s.conns[k].wire)
      && phase == if s.conns == [] then Closed else Current(s).phase
    }

    constructor ()
      ensures Models(IDLE)
    {
      ch, wires, phase := [], [], Closed;
    }

    /** Records a query and its response, without ever waiting. */
    method Capture(r: Record, ghost s: Exporter)
      requires Models(s)
      modifies this`ch
      ensures Models(AfterCapture(s, r))
    {
      if |ch| < QUEUE_SIZE {
        ch := ch + [r];
      }
    }

    method Dial(ghost s: Exporter)
      requires Models(s) && phase.Closed?
      modifies this`wires, this`phase
      ensures Enabled(s, Event.Dial) && Models(Next(s, Event.Dial))
    {
      wires := wires + [[]];
      phase := Greeted(0);
    }

    method Send(it: Item, o: Outcome, next: Phase)
      requires wires != []
      modifies this`wires, this`phase
      ensures wires == old(wires[|wires| - 1 := wires[|wires| - 1] + Arrived(EncodeItem(it), o)])
      ensures phase == if o.Written? then next else Closed
    {
      var last := |wires| - 1;
      wires := wires[last := wires[last] + Arrived(EncodeItem(it), o)];
      phase := if o.Written? then next else Closed;
    }

    /** Writes the next part of the greeting. */
    method Greet(o: Outcome, ghost s: Exporter)
      requires Models(s) && phase.Greeted? && phase.n < 2
      modifies this`wires, this`phase
      ensures Enabled(s, Event.Greet(o)) && Models(AfterGreet(s, o))
    {
      if phase.n == 0 {
        Send(Control(READY, Ascii(CONTENT_TYPE)), o, Greeted(1));
      } else {
        Send(Control(START, Ascii(CONTENT_TYPE)), o, Streaming);
      }
    }

    /** Takes the oldest record from the queue and writes its frame. */
    method Export(o: Outcome, ghost s: Exporter)
      requires Models(s) && phase.Streaming? && ch != []
      modifies this
      ensures Enabled(s, Event.Export(o)) && Models(AfterExport(s, o))
    {
      assert Enabled(s, Event.Export(o)) && s.captured[s.queue[0]] == ch[0];
      ExportSeen(s, o);
      hide AfterExport, FrameOf, EncodeItem, Arrived, ReadMessage, IsMessage;
      var r := ch[0];
      ch := ch[1..];
      var frame := Frame(r);
      if frame.Some? {
        Send(Data(frame.value), o, Streaming);
      }
    }
  }
}
