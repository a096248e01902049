/** Whole runs of the tracing library (internal/nettrace/trace.go), from nothing: what any sequence of calls makes of
    it, and what can be found after them. */
module TracingRun {
  import opened Common
  import opened EventRing
  import opened Histogram
  import opened NumberedEvents
  import opened Store
  import opened Traces
  import opened Tracing
  import EB = EventBuffer
  import FS = FamilySpec

  /** A call. Traces are numbered in the order of their creation. */
  datatype Command =
    | New(family: string, start: Time, unique: nat)
    | Child(parent: nat, family: string, start: Time, unique: nat, now: Time)
    | Log(k: nat, msg: string, now: Time)
    | Link(k: nat, other: nat, msg: string, now: Time)
    | Limit(k: nat, n: int)
    | Fail(k: nat)
    | End(k: nat, now: Time)

  datatype Entry = Entry(id: Id, family: string, start: Time, parent: Option<nat>, isError: bool)

  /** What the calls so far amount to: the traces there have been, the events of each, and what has happened in each
      family. */
  datatype World = World(entries: seq<Entry>, buffers: seq<EB.Buffer<nat>>, logs: Logs)

  const NOTHING: World := World([], [], map[])

  predicate IsUnused(w: World, id: Id) {
    forall i | 0 <= i < |w.entries| :: w.entries[i].id != id
  }

  ghost function Created(w: World, id: Id, family: string, start: Time, parent: Option<nat>): World {
    World(w.entries + [Entry(id, family, start, parent, false)], w.buffers + [EB.NewBuffer()],
          Logged(w.logs, family, FS.Create(id)))
  }

  function Given(w: World, k: nat, e: Event<nat>): World {
    if k < |w.buffers| then w.(buffers := w.buffers[k := EB.Append(w.buffers[k], e)]) else w
  }

  function Limited(w: World, k: nat, n: int): World {
    if k < |w.buffers| then w.(buffers := w.buffers[k := EB.WithLimit(w.buffers[k], n)]) else w
  }

  /** The event that a new trace, the next one to be made, gives its parent. */
  function ChildEvent(w: World, now: Time): Event<nat> {
    Event(now, CHILD, Some(|w.entries|), "")
  }

  /** The trace is active, and its latency would fit a duration. */
  ghost predicate CanEnd(w: World, k: nat, now: Time) {
    && k < |w.entries|
    && FS.IsActive(LogOf(w.logs, w.entries[k].family), w.entries[k].id)
    && w.entries[k].start <= now && now - w.entries[k].start < TWO_63
  }

  /** What a call does; nothing when it cannot be made: an identifier is not used twice, and only what is active
      ends. */
  ghost function Next(w: World, c: Command): World {
    match c
    case New(family, start, unique) =>
      var id := NewId(family, start, unique);
      if IsUnused(w, id) then Created(w, id, family, start, None) else w
    case Child(parent, family, start, unique, now) =>
      var id := NewId(family, start, unique);
      if parent < |w.entries| && IsUnused(w, id) then
        Given(Created(w, id, family, start, Some(parent)), parent, ChildEvent(w, now))
      else w
    case Log(k, msg, now) => Given(w, k, Event(now, LOG, None, msg))
    case Link(k, other, msg, now) =>
      if other < |w.entries| then Given(w, k, Event(now, LINK, Some(other), msg)) else w
    case Limit(k, n) => Limited(w, k, n)
    case Fail(k) => if k < |w.entries| then w.(entries := w.entries[k := w.entries[k].(isError := true)]) else w
    case End(k, now) =>
      if CanEnd(w, k, now) then
        var e := w.entries[k];
        w.(logs := Logged(w.logs, e.family, FS.Finish(e.id, now - e.start, BucketOf(now - e.start), e.isError)))
      else w
  }

  /** After the first `n` of the calls. */
  ghost function After(cs: seq<Command>, n: nat): World
    requires n <= |cs|
  {
    if n == 0 then NOTHING else Next(After(cs, n - 1), cs[n - 1])
  }

  // ---------- the events of one trace ----------

  /** The event that a call gives to trace `k`, if any. */
  ghost function Tells(w: World, c: Command, k: nat): Option<Event<nat>> {
    match c
    case Log(j, msg, now) => if j == k < |w.entries| then Some(Event(now, LOG, None, msg)) else None
    case Link(j, other, msg, now) =>
      if j == k < |w.entries| && other < |w.entries| then Some(Event(now, LINK, Some(other), msg)) else None
    case Child(parent, family, start, unique, now) =>
      if parent == k < |w.entries| && IsUnused(w, NewId(family, start, unique)) then Some(ChildEvent(w, now)) else None
    case _ => None
  }

  /** All that the first `n` calls give to trace `k`. */
  ghost function Told(cs: seq<Command>, n: nat, k: nat): seq<Event<nat>>
    requires n <= |cs|
  {
    if n == 0 then [] else
      match Tells(After(cs, n - 1), cs[n - 1], k)
      case None => Told(cs, n - 1, k)
      case Some(e) => Told(cs, n - 1, k) + [e]
  }

  /** The limit of trace `k` is only set while it has no events. */
  ghost predicate LimitedFirst(cs: seq<Command>, n: nat, k: nat)
    requires n <= |cs|
  {
    forall i | 0 <= i < n && cs[i].Limit? && cs[i].k == k :: Told(cs, i, k) == []
  }

  lemma BufferNext(w: World, c: Command, k: nat)
    requires |w.entries| == |w.buffers|
    ensures var w' := Next(w, c);
            && |w'.entries| == |w'.buffers| >= |w.buffers|
            && (k < |w.buffers| ==>
                  w'.buffers[k] == match Tells(w, c, k)
                                   case Some(e) => EB.Append(w.buffers[k], e)
                                   case None =>
                                     if c.Limit? && c.k == k then EB.WithLimit(w.buffers[k], c.n) else w.buffers[k])
            && (k >= |w.buffers| ==>
                  Tells(w, c, k).None? && (k < |w'.buffers| ==> w'.buffers[k] == EB.NewBuffer()))
  {
    hide EB.Append, EB.WithLimit, NewId, IsUnused, CanEnd, Logged;
  }

  lemma RecordedNext(h: seq<Event<nat>>, m: nat, e: Event<nat>)
    ensures EB.Append(EB.Recorded(h, m), e) == EB.Recorded(h + [e], m)
  {
    EB.AppendAllRecorded(h, m, [e]);
    assert [e][..0] == [];
    assert EB.AppendAll(EB.Recorded(h, m), [e][..0]) == EB.Recorded(h, m);
    hide EB.Recorded, EB.Append;
  }

  /** Until it exists, a trace is told nothing; after that its buffer records what it is told, as long as its limit is
      only set while it has no events. */
  ghost predicate Records(w: World, k: nat, h: seq<Event<nat>>) {
    && |w.entries| == |w.buffers|
    && if k < |w.buffers| then w.buffers[k] == EB.Recorded(h, w.buffers[k].limit) else h == []
  }

  lemma RecordsNext(w: World, c: Command, k: nat, h: seq<Event<nat>>)
    requires Records(w, k, h)
    requires c.Limit? && c.k == k ==> h == []
    ensures Records(Next(w, c), k, match Tells(w, c, k) case None => h case Some(e) => h + [e])
  {
    BufferNext(w, c, k);
    hide Next, Tells, EB.Append;
    if k < |w.buffers| && Tells(w, c, k).Some? {
      RecordedNext(h, w.buffers[k].limit, Tells(w, c, k).value);
    }
  }

  lemma {:induction false} RunRecords(cs: seq<Command>, n: nat, k: nat)
    requires n <= |cs| && LimitedFirst(cs, n, k)
    ensures Records(After(cs, n), k, Told(cs, n, k))
  {
    hide Next, Tells, Records;
    if n > 0 {
      RunRecords(cs, n - 1, k);
      RecordsNext(After(cs, n - 1), cs[n - 1], k, Told(cs, n - 1, k));
    } else {
      NothingRecorded(k);
    }
  }

  lemma NothingRecorded(k: nat)
    ensures Records(NOTHING, k, [])
  {
  }

  /** A trace whose limit is only set while it has no events shows what should be retained of all it is told, whatever
      else the calls do. */
  lemma ShowsRetained(cs: seq<Command>, n: nat, k: nat)
    requires n <= |cs| && k < |After(cs, n).buffers| && LimitedFirst(cs, n, k)
    ensures var b := After(cs, n).buffers[k]; EB.Shown(b) == EB.Retained(Told(cs, n, k), b.limit)
  {
    RunRecords(cs, n, k);
    hide After, Told, EB.Shown, EB.Retained, EB.Recorded;
    EB.ShownRecorded(Told(cs, n, k), After(cs, n).buffers[k].limit);
  }

  /** No call gives a trace a marker. */
  lemma {:induction false} ToldNoMarker(cs: seq<Command>, n: nat, k: nat)
    requires n <= |cs|
    ensures forall i | 0 <= i < |Told(cs, n, k)| :: Told(cs, n, k)[i].typ != DROP
  {
    hide IsUnused, NewId, Next;
    if n > 0 {
      ToldNoMarker(cs, n - 1, k);
    }
  }

  /** The limit of trace `k`: 30 until a call sets it, and then what the last such call says, but at least 6. */
  ghost function LimitAfter(cs: seq<Command>, n: nat, k: nat): nat
    requires n <= |cs|
  {
    if n == 0 then 30
    else if cs[n - 1].Limit? && cs[n - 1].k == k < |After(cs, n - 1).buffers| then
      if cs[n - 1].n < 6 then 6 else cs[n - 1].n
    else LimitAfter(cs, n - 1, k)
  }

  ghost predicate LimitOk(w: World, k: nat, limit: nat) {
    && |w.entries| == |w.buffers|
    && if k < |w.buffers| then w.buffers[k].limit == limit else limit == 30
  }

  lemma LimitNext(w: World, c: Command, k: nat, limit: nat)
    requires LimitOk(w, k, limit)
    ensures LimitOk(Next(w, c), k,
                    if c.Limit? && c.k == k < |w.buffers| then if c.n < 6 then 6 else c.n else limit)
  {
    BufferNext(w, c, k);
    hide Next, NewId, IsUnused;
  }

  lemma {:induction false} LimitIs(cs: seq<Command>, n: nat, k: nat)
    requires n <= |cs|
    ensures LimitOk(After(cs, n), k, LimitAfter(cs, n, k))
  {
    hide Next, LimitOk;
    if n > 0 {
      LimitIs(cs, n - 1, k);
      LimitNext(After(cs, n - 1), cs[n - 1], k, LimitAfter(cs, n - 1, k));
    } else {
      NoLimitYet(k);
    }
  }

  lemma NoLimitYet(k: nat)
    ensures LimitOk(NOTHING, k, 30)
  {
  }

  // ---------- the objects ----------

  /** The parent by its number, if there is one. */
  function ParentOf(ts: seq<Trace>, parent: Option<nat>): Trace? {
    if parent.Some? && parent.value < |ts| then ts[parent.value] else null
  }

  ghost predicate IsEntry(ts: seq<Trace>, t: Trace, e: Entry)
    reads t`isError, t`parent
  {
    && t.id == e.id && t.family == e.family && t.start == e.start && t.isError == e.isError
    && (e.parent.Some? ==> e.parent.value < |ts|) && t.parent == ParentOf(ts, e.parent)
  }

  ghost predicate AreEntries(ts: seq<Trace>, es: seq<Entry>)
    reads ts`isError, ts`parent
  {
    |ts| == |es| && forall i | 0 <= i < |ts| :: IsEntry(ts, ts[i], es[i])
  }

  ghost predicate Distinct(es: seq<Entry>) {
    forall i, j | 0 <= i < j < |es| :: es[i].id != es[j].id
  }

  /** The library has become what the calls amount to. */
  ghost predicate RunOk(families: FamilyMap, ts: seq<Trace>, w: World, bs: Buffers)
    reads set n, o | n in families && o in families[n].Footprint() :: o
    reads bs.Keys`maxEvents, bs.Keys`cutoff, bs.Keys`firstEvents, bs.Keys`lastEvents, bs.Keys`parent
    reads ts`isError, ts`parent
    reads set t | t in bs && t.lastEvents != null :: t.lastEvents
  {
    && StoreOk(families, w.logs, bs)
    && Distinct(w.entries) && AreEntries(ts, w.entries) && bs.Keys == (set t | t in ts)
    && BuffersAre(ts, w.buffers, bs)
  }

  /** All the objects there are. */
  ghost function Everything(families: FamilyMap, ts: seq<Trace>): set<object>
    reads ts`lastEvents
  {
    var traces: set<object> := set t: Trace | t in ts;
    var rings: set<object> := set t: Trace | t in ts && t.lastEvents != null :: t.lastEvents;
    (set n, o | n in families && o in families[n].Footprint() :: o) + traces + rings
  }

  lemma RunParts(families: FamilyMap, ts: seq<Trace>, w: World, bs: Buffers)
    ensures RunOk(families, ts, w, bs) <==>
            && StoreOk(families, w.logs, bs)
            && Distinct(w.entries) && AreEntries(ts, w.entries) && bs.Keys == (set t | t in ts)
            && BuffersAre(ts, w.buffers, bs)
  {
  }

  lemma EntryAdded(ts: seq<Trace>, es: seq<Entry>, tr: Trace, e: Entry)
    requires AreEntries(ts, es) && IsEntry(ts, tr, e)
    ensures AreEntries(ts + [tr], es + [e])
  {
  }

  lemma DistinctAdded(w: World, e: Entry)
    requires Distinct(w.entries) && IsUnused(w, e.id)
    ensures Distinct(w.entries + [e])
  {
  }

  /** One more trace. */
  lemma RunCreated(families: FamilyMap, ts: seq<Trace>, w: World, bs: Buffers, tr: Trace, parent: Option<nat>)
    requires AreEntries(ts, w.entries) && bs.Keys == (set t | t in ts) && BuffersAre(ts, w.buffers, bs)
    requires tr !in bs && IsEntry(ts, tr, Entry(tr.id, tr.family, tr.start, parent, false))
    requires Distinct(w.entries) && IsUnused(w, tr.id)
    requires StoreOk(families, Logged(w.logs, tr.family, FS.Create(tr.id)), bs[tr := EB.NewBuffer()])
    ensures RunOk(families, ts + [tr], Created(w, tr.id, tr.family, tr.start, parent), bs[tr := EB.NewBuffer()])
  {
    hide StoreOk, Logged, AreEntries, IsEntry, BuffersAre, EB.NewBuffer;
    EntryAdded(ts, w.entries, tr, Entry(tr.id, tr.family, tr.start, parent, false));
    DistinctAdded(w, Entry(tr.id, tr.family, tr.start, parent, false));
    hide Distinct, IsUnused;
    BuffersCreated(ts, w.buffers, bs, tr);
    MoreKeys(bs, tr, EB.NewBuffer());
    SetOfMore(ts, tr);
  }

  predicate NoneHas(ts: seq<Trace>, id: Id) {
    forall i | 0 <= i < |ts| :: ts[i].id != id
  }

  /** An identifier is unused when no trace has it. */
  lemma UnusedIff(ts: seq<Trace>, id: Id, w: World)
    requires AreEntries(ts, w.entries)
    ensures NoneHas(ts, id) <==> IsUnused(w, id)
    ensures NoneHas(ts, id) <==> forall t | t in ts :: t.id != id
  {
  }

  lemma AmongEverything(families: FamilyMap, ts: seq<Trace>)
    ensures forall t | t in ts :: t in Everything(families, ts)
    ensures forall t | t in ts && t.lastEvents != null :: t.lastEvents in Everything(families, ts)
    ensures forall n | n in families :: families[n].Footprint() <= Everything(families, ts)
  {
  }

  method AddNew(families: FamilyMap, ts: seq<Trace>, family: string, start: Time, unique: nat,
                ghost w: World, ghost bs: Buffers)
    returns (families': FamilyMap, ts': seq<Trace>, ghost bs': Buffers)
    requires RunOk(families, ts, w, bs)
    requires IsUnused(w, NewId(family, start, unique)) && forall t | t in ts :: t.id != NewId(family, start, unique)
    modifies Everything(families, ts)
    ensures RunOk(families', ts', Created(w, NewId(family, start, unique), family, start, None), bs')
    ensures fresh(Everything(families', ts') - old(Everything(families, ts)))
  {
    RunParts(families, ts, w, bs);
    hide RunOk, Distinct, AreEntries, StoreOk, Logged, NewId, IsUnused, Created, BuffersAre, EB.NewBuffer;
    assert family in families ==> families[family] in families[family].Footprint();
    var tr;
    tr, families' := NewTrace(families, family, start, unique, w.logs, bs);
    assert AreEntries(ts, w.entries);
    RunCreated(families', ts, w, bs, tr, None);
    ts', bs' := ts + [tr], bs[tr := EB.NewBuffer()];
  }

  method DoNew(families: FamilyMap, ts: seq<Trace>, family: string, start: Time, unique: nat,
               ghost w: World, ghost bs: Buffers)
    returns (families': FamilyMap, ts': seq<Trace>, ghost bs': Buffers)
    requires RunOk(families, ts, w, bs)
    modifies Everything(families, ts)
    ensures RunOk(families', ts', Next(w, New(family, start, unique)), bs')
    ensures fresh(Everything(families', ts') - old(Everything(families, ts)))
  {
    RunParts(families, ts, w, bs);
    UnusedIff(ts, NewId(family, start, unique), w);
    hide RunOk, AreEntries, StoreOk, NewId, NoneHas, IsUnused, Created, Given, Everything, BuffersAre;
    if NoneHas(ts, NewId(family, start, unique)) {
      families', ts', bs' := AddNew(families, ts, family, start, unique, w, bs);
    } else {
      families', ts', bs' := families, ts, bs;
    }
  }

  /** The buffers once a child has been made. */
  ghost function ChildAdded(bs: Buffers, tr: Trace, c: Trace, now: Time): Buffers
    requires tr in bs
  {
    bs[c := EB.NewBuffer()][tr := EB.Append(bs[tr], Event(now, CHILD, Some(c), ""))]
  }

  /** The number of a trace that does not exist yet stands for it as soon as it does. */
  lemma ChildEventIs(ts: seq<Trace>, w: World, c: Trace, now: Time)
    requires |ts| == |w.entries|
    ensures EventOf(ChildEvent(w, now), ts + [c]) == Event(now, CHILD, Some(c), "")
    ensures RefBelow(ChildEvent(w, now), |ts + [c]|)
  {
  }

  lemma BuffersChild(ts: seq<Trace>, w: World, bs: Buffers, k: nat, c: Trace, now: Time)
    requires BuffersAre(ts, w.buffers, bs) && |ts| == |w.entries| && k < |ts| && ts[k] in bs && c !in bs
    ensures k < |w.buffers| && ChildAdded(bs, ts[k], c, now).Keys == bs.Keys + {c}
    ensures BuffersAre(ts + [c], (w.buffers + [EB.NewBuffer()])[k := EB.Append(w.buffers[k], ChildEvent(w, now))],
                       ChildAdded(bs, ts[k], c, now))
  {
    assert |ts| == |w.buffers|;
    ChildEventIs(ts, w, c, now);
    hide BuffersAre, EB.Append, EventOf, EB.NewBuffer, ChildEvent, RefBelow;
    BuffersCreated(ts, w.buffers, bs, c);
    BuffersGiven(ts + [c], w.buffers + [EB.NewBuffer()], bs[c := EB.NewBuffer()], k, ChildEvent(w, now));
    MoreKeys(bs, c, EB.NewBuffer());
    SameKeys(bs[c := EB.NewBuffer()], ts[k], EB.Append(bs[ts[k]], Event(now, CHILD, Some(c), "")));
  }

  lemma ChildEntry(ts: seq<Trace>, es: seq<Entry>, k: nat, c: Trace)
    requires AreEntries(ts, es) && k < |ts| && c.parent == ts[k] && !c.isError
    ensures |ts| == |es| && AreEntries(ts + [c], es + [Entry(c.id, c.family, c.start, Some(k), false)])
  {
    EntryAdded(ts, es, c, Entry(c.id, c.family, c.start, Some(k), false));
    hide AreEntries;
  }

  lemma SetOfMore<T>(ts: seq<T>, c: T)
    ensures (set t | t in ts + [c]) == (set t | t in ts) + {c}
  {
  }

  lemma RunChild(families: FamilyMap, ts: seq<Trace>, w: World, bs: Buffers, k: nat, c: Trace, now: Time)
    requires AreEntries(ts, w.entries) && bs.Keys == (set t | t in ts) && BuffersAre(ts, w.buffers, bs)
    requires k < |ts| && ts[k] in bs && c !in bs && c.parent == ts[k] && !c.isError
    requires Distinct(w.entries) && IsUnused(w, c.id)
    requires StoreOk(families, Logged(w.logs, c.family, FS.Create(c.id)), ChildAdded(bs, ts[k], c, now))
    ensures RunOk(families, ts + [c],
                  Given(Created(w, c.id, c.family, c.start, Some(k)), k, ChildEvent(w, now)),
                  ChildAdded(bs, ts[k], c, now))
  {
    hide StoreOk, Logged, AreEntries, IsEntry, BuffersAre, EB.Append, EB.NewBuffer, ChildEvent, ChildAdded, Distinct,
         IsUnused;
    ChildEntry(ts, w.entries, k, c);
    DistinctAdded(w, Entry(c.id, c.family, c.start, Some(k), false));
    BuffersChild(ts, w, bs, k, c, now);
    SetOfMore(ts, c);
  }

  method AddChildOf(families: FamilyMap, ts: seq<Trace>, tr: Trace,
                    family: string, start: Time, unique: nat, now: Time,
                    ghost k: nat, ghost w: World, ghost bs: Buffers)
    returns (families': FamilyMap, c: Trace, ghost bs': Buffers)
    requires RunOk(families, ts, w, bs) && k < |ts| && tr == ts[k]
    requires IsUnused(w, NewId(family, start, unique)) && forall t | t in ts :: t.id != NewId(family, start, unique)
    modifies if family in families then {families[family]} else {}
    modifies tr`firstEvents, tr`lastEvents, tr.lastEvents
    ensures RunOk(families', ts + [c],
                  Given(Created(w, NewId(family, start, unique), family, start, Some(k)), k, ChildEvent(w, now)), bs')
    ensures fresh(c) && c.lastEvents == null
    ensures tr.lastEvents == old(tr.lastEvents) || fresh(tr.lastEvents)
    ensures family in families' && families' == families[family := families'[family]]
    ensures if family in families then families' == families else fresh(families'[family].Footprint())
  {
    RunParts(families, ts, w, bs);
    hide RunOk, Distinct, AreEntries, StoreOk, Logged, NewId, IsUnused, Created, Given, BuffersAre, EB.NewBuffer,
         EB.Append;
    assert tr in bs.Keys;
    c, families' := NewChild(families, tr, family, start, now, unique, w.logs, bs);
    assert AreEntries(ts, w.entries);
    RunChild(families', ts, w, bs, k, c, now);
    bs' := ChildAdded(bs, tr, c, now);
  }

  /** What there is with one more trace. */
  lemma OneMore(families: FamilyMap, families': FamilyMap, name: string, ts: seq<Trace>, c: Trace)
    requires name in families' && families' == families[name := families'[name]] && c.lastEvents == null
    ensures Everything(families', ts + [c]) <= Everything(families, ts) + families'[name].Footprint() + {c}
  {
  }

  /** Only the ring of one trace can be new. */
  lemma OneRing(families: FamilyMap, ts: seq<Trace>, tr: Trace, before: set<object>)
    requires tr in ts && forall n | n in families :: families[n].Footprint() <= before
    requires forall t | t in ts :: t in before && (t != tr && t.lastEvents != null ==> t.lastEvents in before)
    ensures forall o | o in Everything(families, ts) && o !in before :: tr.lastEvents == o
  {
  }

  method AddChild(families: FamilyMap, ts: seq<Trace>, parent: nat, family: string, start: Time, unique: nat, now: Time,
                  ghost w: World, ghost bs: Buffers)
    returns (families': FamilyMap, ts': seq<Trace>, ghost bs': Buffers)
    requires RunOk(families, ts, w, bs) && parent < |ts|
    requires IsUnused(w, NewId(family, start, unique)) && forall t | t in ts :: t.id != NewId(family, start, unique)
    modifies Everything(families, ts)
    ensures RunOk(families', ts',
                  Given(Created(w, NewId(family, start, unique), family, start, Some(parent)), parent,
                        ChildEvent(w, now)), bs')
    ensures fresh(Everything(families', ts') - old(Everything(families, ts)))
  {
    hide RunOk, IsUnused, Created, NewId, Given, ChildEvent, Everything;
    AmongEverything(families, ts);
    ghost var before := Everything(families, ts);
    var tr, c := ts[parent], ts[parent];
    assert family in families ==> families[family] in families[family].Footprint();
    families', c, bs' := AddChildOf(families, ts, tr, family, start, unique, now, parent, w, bs);
    ts' := ts + [c];
    OneRing(families, ts, tr, before);
    OneMore(families, families', family, ts, c);
  }

  method DoChild(families: FamilyMap, ts: seq<Trace>, parent: nat, family: string, start: Time, unique: nat, now: Time,
                 ghost w: World, ghost bs: Buffers)
    returns (families': FamilyMap, ts': seq<Trace>, ghost bs': Buffers)
    requires RunOk(families, ts, w, bs)
    modifies Everything(families, ts)
    ensures RunOk(families', ts', Next(w, Child(parent, family, start, unique, now)), bs')
    ensures fresh(Everything(families', ts') - old(Everything(families, ts)))
  {
    RunParts(families, ts, w, bs);
    assert |ts| == |w.entries|;
    UnusedIff(ts, NewId(family, start, unique), w);
    hide RunOk, AreEntries, StoreOk, NewId, NoneHas, IsUnused, Created, Given, Everything, BuffersAre;
    if parent < |ts| && NoneHas(ts, NewId(family, start, unique)) {
      families', ts', bs' := AddChild(families, ts, parent, family, start, unique, now, w, bs);
    } else {
      families', ts', bs' := families, ts, bs;
    }
  }

  lemma EventIn(ts: seq<Trace>, bs: Buffers, k: nat, e: Event<nat>)
    requires bs.Keys == (set t | t in ts) && k < |ts| && RefBelow(e, |ts|)
    ensures ts[k] in bs && RefIn(EventOf(e, ts), bs.Keys)
  {
  }

  lemma RunGiven(families: FamilyMap, ts: seq<Trace>, w: World, bs: Buffers, k: nat, e: Event<nat>)
    requires Distinct(w.entries) && AreEntries(ts, w.entries) && bs.Keys == (set t | t in ts)
    requires BuffersAre(ts, w.buffers, bs) && k < |ts| && RefBelow(e, |ts|) && ts[k] in bs
    requires StoreOk(families, w.logs, bs[ts[k] := EB.Append(bs[ts[k]], EventOf(e, ts))])
    ensures RunOk(families, ts, Given(w, k, e), bs[ts[k] := EB.Append(bs[ts[k]], EventOf(e, ts))])
  {
    hide StoreOk, AreEntries, EB.Append, EventOf, BuffersAre, Distinct;
    BuffersGiven(ts, w.buffers, bs, k, e);
    SameKeys(bs, ts[k], EB.Append(bs[ts[k]], EventOf(e, ts)));
  }

  lemma RunLimited(families: FamilyMap, ts: seq<Trace>, w: World, bs: Buffers, k: nat, n: int)
    requires Distinct(w.entries) && AreEntries(ts, w.entries) && bs.Keys == (set t | t in ts)
    requires BuffersAre(ts, w.buffers, bs) && k < |ts| && ts[k] in bs
    requires StoreOk(families, w.logs, bs[ts[k] := EB.WithLimit(bs[ts[k]], n)])
    ensures RunOk(families, ts, Limited(w, k, n), bs[ts[k] := EB.WithLimit(bs[ts[k]], n)])
  {
    hide StoreOk, AreEntries, EB.WithLimit, BuffersAre, Distinct;
    BuffersLimited(ts, w.buffers, bs, k, n);
    SameKeys(bs, ts[k], EB.WithLimit(bs[ts[k]], n));
  }

  /** A message, or a link to another trace. */
  method DoAppend(families: FamilyMap, ts: seq<Trace>, k: nat, evt: Event<Trace>,
                  ghost e: Event<nat>, ghost w: World, ghost bs: Buffers)
    returns (ghost bs': Buffers)
    requires RunOk(families, ts, w, bs) && k < |ts| && RefBelow(e, |ts|) && evt == EventOf(e, ts)
    modifies Everything(families, ts)
    ensures RunOk(families, ts, Given(w, k, e), bs')
    ensures fresh(Everything(families, ts) - old(Everything(families, ts)))
  {
    hide RunOk, AreEntries, StoreOk, RefIn, RefBelow, EB.Append, EventOf, BuffersAre, Distinct, Given;
    RunParts(families, ts, w, bs);
    EventIn(ts, bs, k, e);
    var tr := ts[k];
    bs' := bs[tr := EB.Append(bs[tr], evt)];
    Tracing.Append(families, tr, evt, w.logs, bs);
    assert AreEntries(ts, w.entries);
    RunGiven(families, ts, w, bs, k, e);
  }

  method DoLimit(families: FamilyMap, ts: seq<Trace>, k: nat, n: int, ghost w: World, ghost bs: Buffers)
    returns (ghost bs': Buffers)
    requires RunOk(families, ts, w, bs) && k < |ts|
    modifies Everything(families, ts)
    ensures RunOk(families, ts, Limited(w, k, n), bs')
    ensures Everything(families, ts) == old(Everything(families, ts))
  {
    RunParts(families, ts, w, bs);
    hide RunOk, AreEntries, StoreOk, EB.WithLimit, BuffersAre, Distinct, Limited;
    var tr := ts[k];
    assert tr in bs.Keys;
    bs' := bs[tr := EB.WithLimit(bs[tr], n)];
    Tracing.SetMaxEvents(families, tr, n, w.logs, bs);
    assert AreEntries(ts, w.entries);
    RunLimited(families, ts, w, bs, k, n);
  }

  ghost function FailedAt(es: seq<Entry>, k: nat): seq<Entry>
    requires k < |es|
  {
    es[k := es[k].(isError := true)]
  }

  method FailTrace(tr: Trace, ghost ts: seq<Trace>, ghost k: nat, ghost es: seq<Entry>)
    requires AreEntries(ts, es) && Distinct(es) && k < |ts| && ts[k] == tr
    requires forall i | 0 <= i < |ts| && i != k :: ts[i] != tr
    modifies tr`isError
    ensures AreEntries(ts, FailedAt(es, k)) && Distinct(FailedAt(es, k))
  {
    tr.SetError();
  }

  method DoFail(families: FamilyMap, ts: seq<Trace>, k: nat, ghost w: World, ghost bs: Buffers)
    requires RunOk(families, ts, w, bs) && k < |ts|
    modifies Everything(families, ts)
    ensures RunOk(families, ts, Next(w, Fail(k)), bs) && Everything(families, ts) == old(Everything(families, ts))
  {
    hide RunOk, StoreOk, AreEntries, Distinct, FailedAt, Next, Everything;
    AmongEverything(families, ts);
    RunParts(families, ts, w, bs);
    OnlyOne(families, ts, w, bs, k);
    var tr := ts[k];
    Outside(families, tr);
    FailTrace(tr, ts, k, w.entries);
    assert StoreOk(families, w.logs, bs);
    FailNext(w, k);
    RunParts(families, ts, Next(w, Fail(k)), bs);
  }

  lemma FailNext(w: World, k: nat)
    requires k < |w.entries|
    ensures Next(w, Fail(k)) == World(FailedAt(w.entries, k), w.buffers, w.logs)
  {
  }

  /** The traces are distinct. */
  lemma OnlyOne(families: FamilyMap, ts: seq<Trace>, w: World, bs: Buffers, k: nat)
    requires RunOk(families, ts, w, bs) && k < |ts|
    ensures |ts| == |w.entries| && forall i | 0 <= i < |ts| && i != k :: ts[i] != ts[k]
  {
  }

  method DoEnd(families: FamilyMap, ts: seq<Trace>, k: nat, now: Time, ghost w: World, ghost bs: Buffers)
    requires RunOk(families, ts, w, bs) && k < |ts|
    modifies Everything(families, ts)
    ensures RunOk(families, ts, Next(w, End(k, now)), bs) && Everything(families, ts) == old(Everything(families, ts))
  {
    hide RunOk, StoreOk, AreEntries, Distinct, Next, Everything, CanEnd;
    AmongEverything(families, ts);
    RunParts(families, ts, w, bs);
    var tr := ts[k];
    CanEndIff(families, ts, w, bs, k, now);
    if tr.family in families && tr.id in families[tr.family].active && tr.start <= now && now - tr.start < TWO_63 {
      EndTrace(families, ts, k, now, w, bs);
    }
  }

  lemma CanEndIff(families: FamilyMap, ts: seq<Trace>, w: World, bs: Buffers, k: nat, now: Time)
    requires RunOk(families, ts, w, bs) && k < |ts|
    ensures ts[k] in bs
    ensures CanEnd(w, k, now) <==>
            && ts[k].family in families && ts[k].id in families[ts[k].family].active
            && ts[k].start <= now && now - ts[k].start < TWO_63
    ensures !CanEnd(w, k, now) ==> Next(w, End(k, now)) == w
  {
    RunParts(families, ts, w, bs);
    hide StoreOk, Distinct, RunOk;
    ActiveIff(families, w.logs, bs, ts[k]);
    FS.ActiveMeansUnfinished(LogOf(w.logs, ts[k].family), ts[k].id);
  }

  method EndTrace(families: FamilyMap, ts: seq<Trace>, k: nat, now: Time, ghost w: World, ghost bs: Buffers)
    requires RunOk(families, ts, w, bs) && CanEnd(w, k, now) && k < |ts| && ts[k] in bs && ts[k].family in families
    requires ts[k].id in families[ts[k].family].active && ts[k].start <= now && now - ts[k].start < TWO_63
    modifies Everything(families, ts)
    ensures RunOk(families, ts, Next(w, End(k, now)), bs) && Everything(families, ts) == old(Everything(families, ts))
  {
    hide RunOk, StoreOk, AreEntries, Distinct, Next, CanEnd, Logged, FinishOp, Everything;
    var tr := ts[k];
    AmongEverything(families, ts);
    RunParts(families, ts, w, bs);
    EndNext(ts, w, k, now);
    FinishKept(families, tr, ts, now, w.logs, w.entries, bs);
    RunParts(families, ts, Next(w, End(k, now)), bs);
  }

  /** A finish leaves alone what else there is to a trace. */
  method FinishKept(families: FamilyMap, tr: Trace, ghost ts: seq<Trace>, now: Time,
                    ghost logs: Logs, ghost es: seq<Entry>, ghost bs: Buffers)
    requires StoreOk(families, logs, bs) && tr in bs && AreEntries(ts, es)
    requires tr.family in families && tr.id in families[tr.family].active
    requires tr.start <= now && now - tr.start < TWO_63
    modifies tr`end, families[tr.family].Footprint()
    ensures StoreOk(families, Logged(logs, tr.family, FinishOp(tr, now, old(tr.isError))), bs) && AreEntries(ts, es)
    ensures forall t | t in ts :: t.lastEvents == old(t.lastEvents)
  {
    hide StoreOk, AreEntries, Logged, FinishOp;
    Finish(families, tr, now, logs, bs);
  }

  lemma EndNext(ts: seq<Trace>, w: World, k: nat, now: Time)
    requires AreEntries(ts, w.entries) && CanEnd(w, k, now)
    ensures Next(w, End(k, now)) ==
            World(w.entries, w.buffers, Logged(w.logs, ts[k].family, FinishOp(ts[k], now, ts[k].isError)))
  {
  }

  // ---------- any sequence of calls ----------

  /** One call, if it can be made. */
  method Do(families: FamilyMap, ts: seq<Trace>, c: Command, ghost w: World, ghost bs: Buffers)
    returns (families': FamilyMap, ts': seq<Trace>, ghost bs': Buffers)
    requires RunOk(families, ts, w, bs)
    modifies Everything(families, ts)
    ensures RunOk(families', ts', Next(w, c), bs')
    ensures fresh(Everything(families', ts') - old(Everything(families, ts)))
  {
    LengthIs(families, ts, w, bs);
    Skipped(w, c);
    NextIs(w, c);
    if c.Log? {
      PlainEvent(ts, LOG, None, c.now, c.msg);
    } else if c.Link? && c.other < |ts| {
      PlainEvent(ts, LINK, Some(c.other), c.now, c.msg);
    }
    hide RunOk, Everything, Next, Given, Limited, EventOf;
    families', ts', bs' := families, ts, bs;
    match c
    case New(family, start, unique) =>
      families', ts', bs' := DoNew(families, ts, family, start, unique, w, bs);
    case Child(parent, family, start, unique, now) =>
      families', ts', bs' := DoChild(families, ts, parent, family, start, unique, now, w, bs);
    case Log(k, msg, now) =>
      if k < |ts| {
        bs' := DoAppend(families, ts, k, Event(now, LOG, None, msg), Event(now, LOG, None, msg), w, bs);
      }
    case Link(k, other, msg, now) =>
      if k < |ts| && other < |ts| {
        bs' := DoAppend(families, ts, k, Event(now, LINK, Some(ts[other]), msg),
                        Event(now, LINK, Some(other), msg), w, bs);
      }
    case Limit(k, n) =>
      if k < |ts| {
        bs' := DoLimit(families, ts, k, n, w, bs);
      }
    case Fail(k) =>
      if k < |ts| {
        DoFail(families, ts, k, w, bs);
      }
    case End(k, now) =>
      if k < |ts| {
        DoEnd(families, ts, k, now, w, bs);
      }
  }

  /** The same, with the new objects named. */
  method DoMore(families: FamilyMap, ts: seq<Trace>, c: Command, ghost w: World, ghost bs: Buffers)
    returns (families': FamilyMap, ts': seq<Trace>, ghost bs': Buffers, ghost more: set<object>)
    requires RunOk(families, ts, w, bs)
    modifies Everything(families, ts)
    ensures RunOk(families', ts', Next(w, c), bs')
    ensures Everything(families', ts') <= old(Everything(families, ts)) + more && fresh(more)
  {
    hide *;
    ghost var before := Everything(families, ts);
    families', ts', bs' := Do(families, ts, c, w, bs);
    more := Everything(families', ts') - before;
  }

  lemma LengthIs(families: FamilyMap, ts: seq<Trace>, w: World, bs: Buffers)
    requires RunOk(families, ts, w, bs)
    ensures |ts| == |w.entries| == |w.buffers|
  {
    hide StoreOk;
  }

  /** Calls about traces that do not exist. */
  lemma Skipped(w: World, c: Command)
    requires |w.entries| == |w.buffers|
    ensures !c.New? && !c.Child? && c.k >= |w.entries| ==> Next(w, c) == w
    ensures c.Link? && c.other >= |w.entries| ==> Next(w, c) == w
  {
  }

  /** What an event by numbers is. */
  lemma PlainEvent(ts: seq<Trace>, typ: EventType, ref: Option<nat>, now: Time, msg: string)
    requires ref.Some? ==> ref.value < |ts|
    ensures EventOf(Event(now, typ, ref, msg), ts) ==
            Event(now, typ, if ref.Some? then Some(ts[ref.value]) else None, msg)
  {
  }

  /** What each call does, when it can be made, in terms of the identifiers, times and marks of the traces. */
  lemma NextIs(w: World, c: Command)
    ensures c.New? && IsUnused(w, NewId(c.family, c.start, c.unique)) ==>
              var w', id := Next(w, c), NewId(c.family, c.start, c.unique);
              && w'.entries == w.entries + [Entry(id, c.family, c.start, None, false)]
              && w'.logs == w.logs[c.family := LogOf(w.logs, c.family) + [FS.Create(id)]]
    ensures c.Child? && c.parent < |w.entries| && IsUnused(w, NewId(c.family, c.start, c.unique)) ==>
              var w', id := Next(w, c), NewId(c.family, c.start, c.unique);
              && w'.entries == w.entries + [Entry(id, c.family, c.start, Some(c.parent), false)]
              && w'.logs == w.logs[c.family := LogOf(w.logs, c.family) + [FS.Create(id)]]
    ensures c.Fail? && c.k < |w.entries| ==>
              Next(w, c) == w.(entries := w.entries[c.k := w.entries[c.k].(isError := true)])
    ensures c.End? && CanEnd(w, c.k, c.now) ==>
              var e := w.entries[c.k];
              var b := BucketOf(c.now - e.start);
              && InBucket(c.now - e.start, b)
              && Next(w, c) == w.(logs := w.logs[e.family :=
                   LogOf(w.logs, e.family) + [FS.Finish(e.id, c.now - e.start, b, e.isError)]])
    ensures c.Log? ==> Next(w, c) == Given(w, c.k, Event(c.now, LOG, None, c.msg))
    ensures c.Link? && c.other < |w.entries| ==> Next(w, c) == Given(w, c.k, Event(c.now, LINK, Some(c.other), c.msg))
    ensures c.Limit? ==> Next(w, c) == Limited(w, c.k, c.n)
  {
    hide NewId, IsUnused, FS.IsActive, EB.NewBuffer, EB.Append;
  }

  lemma AfterNext(cs: seq<Command>, n: nat)
    requires n < |cs|
    ensures After(cs, n + 1) == Next(After(cs, n), cs[n])
  {
  }

  lemma NothingDone()
    ensures RunOk(map[], [], NOTHING, map[]) && Everything(map[], []) == {}
  {
    NothingStored();
  }

  /** Any sequence of calls whatever, from nothing. */
  method Run(cs: seq<Command>) returns (families: FamilyMap, ts: seq<Trace>, ghost bs: Buffers)
    ensures RunOk(families, ts, After(cs, |cs|), bs)
    ensures fresh(Everything(families, ts))
  {
    hide RunOk, Everything, Next;
    families, ts, bs := map[], [], map[];
    NothingDone();
    ghost var w, all: set<object> := NOTHING, {};
    for i := 0 to |cs|
      invariant w == After(cs, i)
      invariant RunOk(families, ts, w, bs)
      invariant Everything(families, ts) <= all && fresh(all)
    {
      ghost var more;
      families, ts, bs, more := DoMore(families, ts, cs[i], w, bs);
      AfterNext(cs, i);
      w, all := Next(w, cs[i]), all + more;
    }
  }

  /** The name of the family of trace `k` has no `!`, and the calls leave the trace retained. */
  ghost predicate RetainedAt(w: World, k: nat)
    requires k < |w.entries|
  {
    '!' !in w.entries[k].family && FS.Retains(LogOf(w.logs, w.entries[k].family), w.entries[k].id)
  }

  /** Trace `k` is the parent of trace `j`, or an event that `j` shows refers to it. */
  ghost predicate MentionedBy(w: World, j: nat, k: nat)
    requires j < |w.entries| && j < |w.buffers|
  {
    w.entries[j].parent == Some(k) || exists e | e in EB.Shown(w.buffers[j]) :: e.ref == Some(k)
  }

  /** After any sequence of calls, the identifier of a trace finds that trace exactly when the name of its family is
      free of the separator and the calls leave it retained: it has not finished, or fewer than ten traces finished
      after it in its bucket, or it failed and fewer than ten that failed finished after it. Failing that, it is found
      through another trace exactly when that one is found so and mentions it. */
  method RunThenFind(cs: seq<Command>, k: nat, via: Option<nat>) returns (ts: seq<Trace>, r: Trace?)
    requires k < |After(cs, |cs|).entries| == |After(cs, |cs|).buffers|
    requires via.Some? ==> via.value < |After(cs, |cs|).entries|
    ensures AreEntries(ts, After(cs, |cs|).entries)
    ensures var w := After(cs, |cs|);
            r == if RetainedAt(w, k) || (via.Some? && RetainedAt(w, via.value) && MentionedBy(w, via.value, k))
                 then ts[k] else null
  {
    hide *;
    ghost var w := After(cs, |cs|);
    var families;
    ghost var bs;
    families, ts, bs := Run(cs);
    EntryIs(families, ts, w, bs, k);
    if via.Some? {
      EntryIs(families, ts, w, bs, via.value);
      IdsNotEmpty(cs, |cs|, via.value);
      FoundViaIff(families, ts, w, bs, via.value, k);
    } else {
      NotViaNone(w.logs, bs, ts[k]);
    }
    r := Find(families, ts[k].id, if via.Some? then ts[via.value].id else "", w.logs, bs);
  }

  lemma NotViaNone(logs: Logs, bs: Buffers, tr: Trace)
    ensures !FoundVia(logs, bs, "", tr)
  {
  }

  lemma EntryIs(families: FamilyMap, ts: seq<Trace>, w: World, bs: Buffers, k: nat)
    requires RunOk(families, ts, w, bs) && k < |w.entries|
    ensures StoreOk(families, w.logs, bs) && AreEntries(ts, w.entries)
    ensures k < |ts| && ts[k] in bs && ts[k].id == w.entries[k].id
    ensures CanFind(w.logs, ts[k]) <==> RetainedAt(w, k)
  {
    RunParts(families, ts, w, bs);
    hide RunOk, StoreOk, FS.Retains, LogOf, BuffersAre;
    assert IsEntry(ts, ts[k], w.entries[k]);
  }

  lemma {:induction false} IdsNotEmpty(cs: seq<Command>, n: nat, k: nat)
    requires n <= |cs| && k < |After(cs, n).entries|
    ensures After(cs, n).entries[k].id != ""
  {
    hide Next;
    IdNext(After(cs, n - 1), cs[n - 1], k);
    if k < |After(cs, n - 1).entries| {
      IdsNotEmpty(cs, n - 1, k);
    }
  }

  lemma IdNext(w: World, c: Command, k: nat)
    requires k < |Next(w, c).entries|
    ensures k < |w.entries| ==> Next(w, c).entries[k].id == w.entries[k].id
    ensures k >= |w.entries| ==> Next(w, c).entries[k].id != ""
  {
    hide IsUnused, CanEnd, Logged, EB.Append;
  }

  /** Finding a trace through another one, in terms of the calls. */
  lemma FoundViaIff(families: FamilyMap, ts: seq<Trace>, w: World, bs: Buffers, j: nat, k: nat)
    requires RunOk(families, ts, w, bs) && k < |w.entries| && j < |w.entries| && w.entries[j].id != ""
    ensures j < |ts| && k < |ts| && |w.entries| == |w.buffers|
    ensures FoundVia(w.logs, bs, ts[j].id, ts[k]) <==> RetainedAt(w, j) && MentionedBy(w, j, k)
  {
    LengthIs(families, ts, w, bs);
    EntryIs(families, ts, w, bs, j);
    EntryIs(families, ts, w, bs, k);
    OneWithId(families, ts, w, bs, j);
    MentionedIff(families, ts, w, bs, j, k);
    hide RunOk, StoreOk, CanFind, RetainedAt, MentionedBy, Mentions, AreEntries;
    if FoundVia(w.logs, bs, ts[j].id, ts[k]) {
      var ref :| ref in bs && ref.id == ts[j].id && CanFind(w.logs, ref) && Mentions(bs, ref, ts[k]);
      assert ref == ts[j];
    }
  }

  lemma OneWithId(families: FamilyMap, ts: seq<Trace>, w: World, bs: Buffers, j: nat)
    requires RunOk(families, ts, w, bs) && j < |ts|
    ensures forall t | t in bs && t.id == ts[j].id :: t == ts[j]
  {
    RunParts(families, ts, w, bs);
    StoreParts(families, w.logs, bs);
    assert ts[j] in bs;
    hide StoreOk, RunOk, AreEntries, BuffersAre;
    IdsDiffer(bs, ts[j]);
  }

  lemma MentionedIff(families: FamilyMap, ts: seq<Trace>, w: World, bs: Buffers, j: nat, k: nat)
    requires RunOk(families, ts, w, bs) && k < |ts| && j < |ts| == |w.entries| == |w.buffers|
    requires ts[j] in bs
    ensures Mentions(bs, ts[j], ts[k]) <==> MentionedBy(w, j, k)
  {
    RunParts(families, ts, w, bs);
    hide StoreOk, RunOk;
    assert IsEntry(ts, ts[j], w.entries[j]);
    assert Below(w.buffers[j], |ts|) && bs[ts[j]] == BufferOf(w.buffers[j], ts);
    forall i | 0 <= i < |ts| && ts[i] == ts[k] ensures i == k {
    }
    hide BuffersAre, AreEntries;
    ShownOf(w.buffers[j], ts);
    ShownBelow(w.buffers[j], |ts|);
    hide EB.Shown, BufferOf, Below;
    RefsOf(EB.Shown(w.buffers[j]), ts, k);
  }

  /** After any sequence of calls, the events of a trace are those of its buffer; and so, if its limit is only set while
      it has none, what should be retained of all that the calls tell it: everything within the limit, and past it the
      first third, one marker at the time of the first event lost, and the newest ones. */
  method RunThenEvents(cs: seq<Command>, k: nat) returns (ts: seq<Trace>, evts: seq<Event<Trace>>)
    requires k < |After(cs, |cs|).buffers|
    ensures AreEntries(ts, After(cs, |cs|).entries)
    ensures evts == EventsOf(EB.Shown(After(cs, |cs|).buffers[k]), ts)
    ensures var h, m := Told(cs, |cs|, k), LimitAfter(cs, |cs|, k);
            LimitedFirst(cs, |cs|, k) ==>
              && evts == EventsOf(EB.Retained(h, m), ts)
              && (|h| <= m ==> evts == EventsOf(h, ts))
              && (|h| > m && h[m / 3].when != 0 ==>
                    evts == EventsOf(h[..m / 3], ts) + [Event(h[m / 3].when, DROP, None, "")]
                            + EventsOf(h[|h| - (m - m / 3)..], ts))
    ensures forall i | 0 <= i < |Told(cs, |cs|, k)| :: Told(cs, |cs|, k)[i].typ != DROP
  {
    hide *;
    ghost var w := After(cs, |cs|);
    var families;
    ghost var bs;
    families, ts, bs := Run(cs);
    LengthIs(families, ts, w, bs);
    ShowsBuffer(families, ts, w, bs, k);
    ToldNoMarker(cs, |cs|, k);
    LimitKnown(cs, k);
    if LimitedFirst(cs, |cs|, k) {
      ShowsRetained(cs, |cs|, k);
      RetainedOf(Told(cs, |cs|, k), LimitAfter(cs, |cs|, k), ts);
    }
    evts := ts[k].Events();
  }

  lemma LimitKnown(cs: seq<Command>, k: nat)
    requires k < |After(cs, |cs|).buffers|
    ensures After(cs, |cs|).buffers[k].limit == LimitAfter(cs, |cs|, k)
  {
    LimitIs(cs, |cs|, k);
    hide After, LimitAfter;
  }

  lemma RetainedOf(h: seq<Event<nat>>, m: nat, ts: seq<Trace>)
    ensures |h| <= m ==> EB.Retained(h, m) == h
    ensures |h| > m && h[m / 3].when != 0 ==>
              EventsOf(EB.Retained(h, m), ts) ==
              EventsOf(h[..m / 3], ts) + [Event(h[m / 3].when, DROP, None, "")]
              + EventsOf(h[|h| - (m - m / 3)..], ts)
  {
    hide EB.Retained, EventsOf;
    if |h| <= m {
      EB.RetainedWithinLimit(h, m);
    } else if h[m / 3].when != 0 {
      EB.RetainedPastLimit(h, m);
      MarkerBetween(h[..m / 3], h[m / 3].when, h[|h| - (m - m / 3)..], ts);
    }
  }

  lemma MarkerBetween(a: seq<Event<nat>>, when: Time, b: seq<Event<nat>>, ts: seq<Trace>)
    ensures EventsOf(a + [Event(when, DROP, None, "")] + b, ts) ==
            EventsOf(a, ts) + [Event(when, DROP, None, "")] + EventsOf(b, ts)
  {
    var marker: seq<Event<nat>> := [Event(when, DROP, None, "")];
    EventsConcat(a, marker, ts);
    EventsConcat(a + marker, b, ts);
    assert EventsOf(marker, ts) == [Event(when, DROP, None, "")];
  }

  lemma ShowsBuffer(families: FamilyMap, ts: seq<Trace>, w: World, bs: Buffers, k: nat)
    requires RunOk(families, ts, w, bs) && k < |ts| == |w.buffers|
    ensures ts[k].Valid() && ts[k].Stored() == EventsOf(EB.Shown(w.buffers[k]), ts)
    ensures AreEntries(ts, w.entries)
  {
    RunParts(families, ts, w, bs);
    assert ts[k] in bs && bs[ts[k]] == BufferOf(w.buffers[k], ts);
    hide StoreOk, RunOk, BufferOf, EventsOf, EB.Shown, BuffersAre, AreEntries, Trace.Stored, Trace.Valid;
    ShownOf(w.buffers[k], ts);
    HoldsIn(families, w.logs, bs, ts[k]);
  }

  lemma HoldsIn(families: FamilyMap, logs: Logs, bs: Buffers, tr: Trace)
    requires StoreOk(families, logs, bs) && tr in bs
    ensures tr.Valid() && tr.Stored() == EB.Shown(bs[tr])
  {
    hide FamiliesOk, KeptIn, AreLogs, Identified, OwnRings, RefsIn, ParentsIn;
    tr.StoredIsShown(bs[tr]);
  }
}
