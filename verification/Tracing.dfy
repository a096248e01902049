/** The whole state of the tracing library (internal/nettrace/trace.go): all the families, and all the traces there have
    ever been. What the other modules ask of a family or a trace holds here of every one of them, always. */
module Tracing {
  import opened Common
  import opened EventRing
  import opened Families
  import opened Histogram
  import opened Store
  import opened Traces
  import AE = AllEvents
  import EB = EventBuffer
  import FS = FamilySpec

  type FamilyMap = map<string, FamilyTraces>

  /** The events of each trace, for all the traces there have ever been. */
  type Buffers = map<Trace, EB.Buffer<Trace>>

  /** No two families share an object. */
  ghost predicate Apart(families: FamilyMap) {
    forall m, n | m in families && n in families && m != n :: families[m].Footprint() !! families[n].Footprint()
  }

  ghost predicate FamiliesOk(families: FamilyMap, fs: map<string, FS.Family>)
    reads set n, o | n in families && o in families[n].Footprint() :: o
  {
    && families.Keys == fs.Keys
    && (forall n | n in families :: FamilyOk(n, families[n], fs[n]))
    && Apart(families)
  }

  /** The family keeps none but these traces. */
  ghost predicate KeepsOnly(ft: FamilyTraces, ts: set<Trace>)
    reads ft.Footprint()
  {
    ft.RingsValid() && ft.Kept() <= ts
  }

  ghost predicate KeptIn(families: FamilyMap, ts: set<Trace>)
    reads set n, o | n in families && o in families[n].Footprint() :: o
  {
    forall n | n in families :: KeepsOnly(families[n], ts)
  }

  /** Identifiers tell all the traces apart, and name their family if they can. */
  ghost predicate Identified(ts: set<Trace>) {
    && (forall t, u | t in ts && u in ts && t.id == u.id :: t == u)
    && (forall t | t in ts :: FamilyOf(t.id) == t.family <==> SEPARATOR !in t.family)
  }

  /** No two traces share a ring of events. */
  ghost predicate OwnRings(ts: set<Trace>)
    reads ts`lastEvents
  {
    forall t, u | t in ts && u in ts && t != u && t.lastEvents != null :: t.lastEvents != u.lastEvents
  }

  ghost predicate AllHold(bs: Buffers)
    reads bs.Keys`maxEvents, bs.Keys`cutoff, bs.Keys`firstEvents, bs.Keys`lastEvents
    reads set t | t in bs && t.lastEvents != null :: t.lastEvents
  {
    forall t | t in bs :: t.Holds(bs[t])
  }

  /** The event, if it refers to a trace, refers to one of these. */
  ghost predicate RefIn(e: Event<Trace>, ts: set<Trace>) {
    e.ref.Some? ==> e.ref.value in ts
  }

  ghost predicate BufferIn(b: EB.Buffer<Trace>, ts: set<Trace>) {
    (forall e | e in b.first :: RefIn(e, ts)) && (forall e | e in EB.InRing(b) :: RefIn(e, ts))
  }

  /** Traces refer to nothing but traces. */
  ghost predicate RefsIn(bs: Buffers) {
    forall t | t in bs :: BufferIn(bs[t], bs.Keys)
  }

  ghost predicate ParentsIn(ts: set<Trace>)
    reads ts`parent
  {
    forall t | t in ts && t.parent != null :: t.parent in ts
  }

  ghost predicate TracesOk(bs: Buffers)
    reads bs.Keys`maxEvents, bs.Keys`cutoff, bs.Keys`firstEvents, bs.Keys`lastEvents, bs.Keys`parent
    reads set t | t in bs && t.lastEvents != null :: t.lastEvents
  {
    Identified(bs.Keys) && OwnRings(bs.Keys) && AllHold(bs) && RefsIn(bs) && ParentsIn(bs.Keys)
  }

  /** The other families do not notice what happens to one. */
  method RegisterAmong(families: FamilyMap, tr: Trace, ghost fs: map<string, FS.Family>, ghost ts: set<Trace>)
    requires FamiliesOk(families, fs) && KeptIn(families, ts)
    requires tr.family in families && !FS.Found(fs[tr.family], tr.id)
    modifies families[tr.family]
    ensures FamiliesOk(families, fs[tr.family := FS.Step(fs[tr.family], FS.Create(tr.id))])
    ensures KeptIn(families, ts + {tr})
    ensures families[tr.family].active == old(families[tr.family].active)[tr.id := tr]
  {
    hide FamilyOk, FS.Found, FS.Step, FamilyTraces.RingsValid, FamilyTraces.Kept;
    var name := tr.family;
    var ft := families[name];
    assert KeepsOnly(ft, ts);
    RegisterIn(ft, tr, fs[name]);
    forall n | n in families && n != name
      ensures FamilyOk(n, families[n], fs[n]) && KeepsOnly(families[n], ts)
    {
      assert ft !in families[n].Footprint();
    }
    assert KeepsOnly(ft, ts + {tr});
  }

  method FinishAmong(families: FamilyMap, tr: Trace, ghost fs: map<string, FS.Family>, ghost ts: set<Trace>)
    returns (ghost op: FS.Op)
    requires FamiliesOk(families, fs) && KeptIn(families, ts)
    requires tr.family in families
    requires tr.id in families[tr.family].active && families[tr.family].active[tr.id] == tr
    requires tr.start <= tr.end && tr.end - tr.start < TWO_63
    modifies families[tr.family].Footprint()
    ensures op.Finish? && FS.IsOp(op) && op.id == tr.id
    ensures op.latency == old(tr.end) - tr.start && op.isError == old(tr.isError)
    ensures FamiliesOk(families, fs[tr.family := FS.Step(fs[tr.family], op)])
    ensures KeptIn(families, ts)
  {
    hide FamilyOk, FS.Step, FS.IsOp, FamilyTraces.RingsValid, FamilyTraces.Kept;
    var name := tr.family;
    var ft := families[name];
    assert KeepsOnly(ft, ts);
    op := FinishIn(ft, tr, fs[name]);
    forall n | n in families && n != name
      ensures FamilyOk(n, families[n], fs[n]) && KeepsOnly(families[n], ts)
    {
      assert ft.Footprint() !! families[n].Footprint();
    }
    assert KeepsOnly(ft, ts);
  }

  lemma FamilyAdded(families: FamilyMap, fs: map<string, FS.Family>, ts: set<Trace>, name: string, ft: FamilyTraces)
    requires FamiliesOk(families, fs) && KeptIn(families, ts) && name !in families
    requires FamilyOk(name, ft, FS.EMPTY) && KeepsOnly(ft, ts)
    requires forall n | n in families :: families[n].Footprint() !! ft.Footprint()
    ensures FamiliesOk(families[name := ft], fs[name := FS.EMPTY])
    ensures KeptIn(families[name := ft], ts)
  {
    hide FamilyOk, KeepsOnly, FamilyTraces.Footprint;
    var families', fs' := families[name := ft], fs[name := FS.EMPTY];
    assert families'.Keys == families.Keys + {name} && fs'.Keys == fs.Keys + {name};
    forall n | n in families' ensures FamilyOk(n, families'[n], fs'[n]) && KeepsOnly(families'[n], ts) {
      assert n != name ==> families'[n] == families[n] && fs'[n] == fs[n];
    }
  }

  method AddFamily(families: FamilyMap, name: string, ghost fs: map<string, FS.Family>, ghost ts: set<Trace>)
    returns (families': FamilyMap)
    requires FamiliesOk(families, fs) && KeptIn(families, ts) && name !in families
    ensures name in families' && families' == families[name := families'[name]]
    ensures fresh(families'[name].Footprint())
    ensures FamiliesOk(families', fs[name := FS.EMPTY]) && KeptIn(families', ts)
  {
    hide FamiliesOk, KeptIn, FamilyOk, FamilyTraces.RingsValid, FamilyTraces.Kept;
    var ft;
    ft, families' := GetFamily(families, name, FS.EMPTY);
    assert KeepsOnly(ft, ts);
    forall n | n in families ensures families[n].Footprint() !! ft.Footprint() {
    }
    FamilyAdded(families, fs, ts, name, ft);
  }

  lemma UpdateTwice<K, V>(m: map<K, V>, k: K, v: V, w: V)
    ensures m[k := v][k := w] == m[k := w]
  {
  }

  lemma SameMap<K, V>(m: map<K, V>, k: K)
    requires k in m
    ensures m[k := m[k]] == m
  {
  }

  /** The family with the name, as it was before its first trace if there is none yet. */
  ghost function FamilyNamed(fs: map<string, FS.Family>, name: string): FS.Family {
    if name in fs then fs[name] else FS.EMPTY
  }

  /** The families with one for the name, a new one if there is none yet. */
  method WithFamily(families: FamilyMap, name: string, ghost fs: map<string, FS.Family>, ghost ts: set<Trace>)
    returns (families': FamilyMap, ghost fs': map<string, FS.Family>)
    requires FamiliesOk(families, fs) && KeptIn(families, ts)
    ensures name in families' && families' == families[name := families'[name]]
    ensures if name in families then families' == families else fresh(families'[name].Footprint())
    ensures fs' == fs[name := FamilyNamed(fs, name)]
    ensures FamiliesOk(families', fs') && KeptIn(families', ts)
  {
    assert name in families <==> name in fs;
    assert FamilyNamed(fs, name) == if name in fs then fs[name] else FS.EMPTY;
    hide *;
    if name in families {
      families', fs' := families, fs;
      SameMap(families, name);
      SameMap(fs, name);
    } else {
      families' := AddFamily(families, name, fs, ts);
      fs' := fs[name := FS.EMPTY];
    }
  }

  /** An identifier that no trace has cannot be found in any family. */
  lemma NewNotFound(families: FamilyMap, fs: map<string, FS.Family>, ts: set<Trace>, name: string, id: Id)
    requires FamiliesOk(families, fs) && KeptIn(families, ts) && name in families
    requires forall t | t in ts :: t.id != id
    ensures !FS.Found(fs[name], id)
  {
    assert FamilyOk(name, families[name], fs[name]) && KeepsOnly(families[name], ts);
    hide FS.Found, FS.Consistent;
    families[name].KeptIffFound(fs[name], id);
  }

  lemma TraceAdded(bs: Buffers, tr: Trace)
    requires TracesOk(bs) && tr !in bs && tr.Holds(EB.NewBuffer()) && tr.lastEvents == null && tr.parent == null
    requires forall t | t in bs :: t.id != tr.id
    requires FamilyOf(tr.id) == tr.family <==> SEPARATOR !in tr.family
    ensures TracesOk(bs[tr := EB.NewBuffer()])
  {
    hide Trace.Holds, FamilyOf;
    assert bs[tr := EB.NewBuffer()].Keys == bs.Keys + {tr};
  }

  lemma RefsStay(bs: Buffers, tr: Trace, b: EB.Buffer<Trace>)
    requires RefsIn(bs) && tr in bs && BufferIn(b, bs.Keys)
    ensures RefsIn(bs[tr := b])
  {
    SameKeys(bs, tr, b);
    hide BufferIn;
  }

  lemma RefsAppended(bs: Buffers, tr: Trace, e: Event<Trace>)
    requires RefsIn(bs) && tr in bs && RefIn(e, bs.Keys)
    ensures RefsIn(bs[tr := EB.Append(bs[tr], e)])
  {
    assert BufferIn(bs[tr], bs.Keys);
    hide RefsIn;
    RefsStay(bs, tr, EB.Append(bs[tr], e));
  }

  lemma RefsLimited(bs: Buffers, tr: Trace, n: int)
    requires RefsIn(bs) && tr in bs
    ensures RefsIn(bs[tr := EB.WithLimit(bs[tr], n)])
  {
    assert BufferIn(bs[tr], bs.Keys);
    hide RefsIn;
    RefsStay(bs, tr, EB.WithLimit(bs[tr], n));
  }

  /** No other trace notices that an event is given to one. */
  method AppendAmong(tr: Trace, evt: Event<Trace>, ghost bs: Buffers)
    requires TracesOk(bs) && tr in bs && RefIn(evt, bs.Keys)
    modifies tr`firstEvents, tr`lastEvents, tr.lastEvents
    ensures TracesOk(bs[tr := EB.Append(bs[tr], evt)])
    ensures tr.lastEvents == old(tr.lastEvents) || fresh(tr.lastEvents)
  {
    hide Trace.Holds, Identified, RefsIn, RefIn, EB.Append;
    RefsAppended(bs, tr, evt);
    SameKeys(bs, tr, EB.Append(bs[tr], evt));
    tr.Append(evt, bs[tr]);
    forall t | t in bs && t != tr ensures t.Holds(bs[t]) && t.lastEvents == old(t.lastEvents) {
    }
  }

  /** Nor that its limit is set. */
  method LimitAmong(tr: Trace, n: int, ghost bs: Buffers)
    requires TracesOk(bs) && tr in bs
    modifies tr`maxEvents, tr`cutoff
    ensures TracesOk(bs[tr := EB.WithLimit(bs[tr], n)])
  {
    hide Trace.Holds, Identified, RefsIn, EB.WithLimit;
    RefsLimited(bs, tr, n);
    SameKeys(bs, tr, EB.WithLimit(bs[tr], n));
    tr.SetMaxEvents(n, bs[tr]);
    forall t | t in bs && t != tr ensures t.Holds(bs[t]) {
    }
  }

  method AdoptAmong(c: Trace, tr: Trace, ghost bs: Buffers)
    requires TracesOk(bs) && c in bs && tr in bs
    modifies c`parent
    ensures TracesOk(bs) && c.parent == tr
  {
    hide Identified, OwnRings, AllHold, RefsIn;
    c.parent := tr;
  }

  lemma SameKeys<K, V>(m: map<K, V>, k: K, v: V)
    requires k in m
    ensures m[k := v].Keys == m.Keys
  {
  }

  lemma MoreKeys<K, V>(m: map<K, V>, k: K, v: V)
    ensures m[k := v].Keys == m.Keys + {k}
  {
  }

  // ---------- the state of the library ----------

  /** What has happened in each family. */
  type Logs = map<string, seq<FS.Op>>

  ghost function LogOf(logs: Logs, name: string): seq<FS.Op> {
    if name in logs then logs[name] else []
  }

  ghost function Logged(logs: Logs, name: string, op: FS.Op): Logs {
    logs[name := LogOf(logs, name) + [op]]
  }

  ghost predicate AreLogs(logs: Logs) {
    forall n | n in logs :: FS.AreOps(logs[n])
  }

  /** What the families have become. */
  ghost function States(logs: Logs): map<string, FS.Family>
    requires AreLogs(logs)
  {
    map n | n in logs :: FS.Run(logs[n])
  }

  /** All the families with what has happened in them, and all the traces there have ever been with their events: the
      state of the library is in order. */
  ghost predicate StoreOk(families: FamilyMap, logs: Logs, bs: Buffers)
    reads set n, o | n in families && o in families[n].Footprint() :: o
    reads bs.Keys`maxEvents, bs.Keys`cutoff, bs.Keys`firstEvents, bs.Keys`lastEvents, bs.Keys`parent
    reads set t | t in bs && t.lastEvents != null :: t.lastEvents
  {
    AreLogs(logs) && FamiliesOk(families, States(logs)) && KeptIn(families, bs.Keys) && TracesOk(bs)
  }

  lemma StoreParts(families: FamilyMap, logs: Logs, bs: Buffers)
    ensures StoreOk(families, logs, bs) <==>
            AreLogs(logs) && FamiliesOk(families, States(logs)) && KeptIn(families, bs.Keys) && TracesOk(bs)
  {
  }

  /** Before anything has happened. */
  lemma NothingStored()
    ensures StoreOk(map[], map[], map[])
  {
  }

  lemma RunNext(ops: seq<FS.Op>, op: FS.Op)
    requires FS.AreOps(ops) && FS.IsOp(op)
    ensures FS.AreOps(ops + [op]) && FS.Run(ops + [op]) == FS.Step(FS.Run(ops), op)
  {
    assert (ops + [op])[..|ops|] == ops;
  }

  lemma LogIsOps(logs: Logs, name: string)
    requires AreLogs(logs)
    ensures FS.AreOps(LogOf(logs, name))
    ensures FamilyNamed(States(logs), name) == FS.Run(LogOf(logs, name))
  {
  }

  lemma StatesNext(logs: Logs, name: string, op: FS.Op)
    requires AreLogs(logs) && FS.IsOp(op)
    ensures AreLogs(Logged(logs, name, op)) && |FamilyNamed(States(logs), name).finished| == N_BUCKETS
    ensures States(Logged(logs, name, op)) == States(logs)[name := FS.Step(FamilyNamed(States(logs), name), op)]
  {
    LogIsOps(logs, name);
    RunNext(LogOf(logs, name), op);
  }

  /** A new trace becomes active in its family, which is new if the trace is the first one in it. */
  method Register(families: FamilyMap, tr: Trace, ghost logs: Logs, ghost ts: set<Trace>)
    returns (families': FamilyMap)
    requires AreLogs(logs) && FamiliesOk(families, States(logs)) && KeptIn(families, ts)
    requires forall t | t in ts :: t.id != tr.id
    modifies if tr.family in families then {families[tr.family]} else {}
    ensures AreLogs(Logged(logs, tr.family, FS.Create(tr.id)))
    ensures FamiliesOk(families', States(Logged(logs, tr.family, FS.Create(tr.id)))) && KeptIn(families', ts + {tr})
    ensures tr.family in families' && families' == families[tr.family := families'[tr.family]]
    ensures if tr.family in families then families' == families else fresh(families'[tr.family].Footprint())
  {
    ghost var fs, fs' := States(logs), States(logs);
    ghost var op := FS.Create(tr.id);
    StatesNext(logs, tr.family, op);
    ghost var f := FS.Step(FamilyNamed(fs, tr.family), op);
    hide *;
    families', fs' := WithFamily(families, tr.family, fs, ts);
    NewNotFound(families', fs', ts, tr.family, tr.id);
    RegisterAmong(families', tr, fs', ts);
    UpdateTwice(fs, tr.family, FamilyNamed(fs, tr.family), f);
  }

  /** No family holds a trace, or what a trace is made of. */
  lemma Outside(families: FamilyMap, tr: Trace)
    ensures forall n | n in families ::
              tr !in families[n].Footprint() && (tr.lastEvents != null ==> tr.lastEvents !in families[n].Footprint())
  {
  }

  method NewTrace(families: FamilyMap, family: string, start: Time, unique: nat, ghost logs: Logs, ghost bs: Buffers)
    returns (tr: Trace, families': FamilyMap)
    requires StoreOk(families, logs, bs)
    requires forall t | t in bs :: t.id != NewId(family, start, unique)
    modifies if family in families then {families[family]} else {}
    ensures fresh(tr) && tr.id == NewId(family, start, unique) && tr.family == family && tr.start == start
    ensures tr.parent == null && tr.lastEvents == null && !tr.isError
    ensures StoreOk(families', Logged(logs, family, FS.Create(tr.id)), bs[tr := EB.NewBuffer()])
    ensures family in families' && families' == families[family := families'[family]]
    ensures if family in families then families' == families else fresh(families'[family].Footprint())
  {
    StoreParts(families, logs, bs);
    hide StoreOk, AreLogs, FamiliesOk, KeptIn, TracesOk, Logged, NewId, FamilyOf;
    tr := new Trace(NewId(family, start, unique), family, start, null);
    FamilyOfNewId(family, start, unique);
    Outside(families, tr);
    assert FamiliesOk(families, States(logs)) && KeptIn(families, bs.Keys) && TracesOk(bs);
    TraceAdded(bs, tr);
    MoreKeys(bs, tr, EB.NewBuffer());
    families' := Register(families, tr, logs, bs.Keys);
    assert TracesOk(bs[tr := EB.NewBuffer()]);
    StoreParts(families', Logged(logs, family, FS.Create(tr.id)), bs[tr := EB.NewBuffer()]);
  }

  /** Gives a trace an event, which may refer to any trace. */
  method Append(families: FamilyMap, tr: Trace, evt: Event<Trace>, ghost logs: Logs, ghost bs: Buffers)
    requires StoreOk(families, logs, bs) && tr in bs && RefIn(evt, bs.Keys)
    modifies tr`firstEvents, tr`lastEvents, tr.lastEvents
    ensures StoreOk(families, logs, bs[tr := EB.Append(bs[tr], evt)])
    ensures tr.lastEvents == old(tr.lastEvents) || fresh(tr.lastEvents)
  {
    hide AreLogs, FamiliesOk, KeptIn, TracesOk, EB.Append;
    SameKeys(bs, tr, EB.Append(bs[tr], evt));
    Outside(families, tr);
    AppendAmong(tr, evt, bs);
    assert FamiliesOk(families, States(logs)) && KeptIn(families, bs.Keys);
  }

  /** Sets the limit of a trace, at any time. */
  method SetMaxEvents(families: FamilyMap, tr: Trace, n: int, ghost logs: Logs, ghost bs: Buffers)
    requires StoreOk(families, logs, bs) && tr in bs
    modifies tr`maxEvents, tr`cutoff
    ensures StoreOk(families, logs, bs[tr := EB.WithLimit(bs[tr], n)])
  {
    hide AreLogs, FamiliesOk, KeptIn, TracesOk, EB.WithLimit;
    SameKeys(bs, tr, EB.WithLimit(bs[tr], n));
    Outside(families, tr);
    LimitAmong(tr, n, bs);
    assert FamiliesOk(families, States(logs)) && KeptIn(families, bs.Keys);
  }

  method Adopt(families: FamilyMap, c: Trace, tr: Trace, ghost logs: Logs, ghost bs: Buffers)
    requires StoreOk(families, logs, bs) && c in bs && tr in bs
    modifies c`parent
    ensures StoreOk(families, logs, bs) && c.parent == tr
  {
    hide AreLogs, FamiliesOk, KeptIn, TracesOk;
    Outside(families, c);
    AdoptAmong(c, tr, bs);
    assert FamiliesOk(families, States(logs)) && KeptIn(families, bs.Keys);
  }

  /** A new trace whose parent is `tr`, which gets an event that refers to it. */
  method NewChild(families: FamilyMap, tr: Trace, family: string, start: Time, now: Time, unique: nat,
                  ghost logs: Logs, ghost bs: Buffers)
    returns (c: Trace, families': FamilyMap)
    requires StoreOk(families, logs, bs) && tr in bs
    requires forall t | t in bs :: t.id != NewId(family, start, unique)
    modifies if family in families then {families[family]} else {}
    modifies tr`firstEvents, tr`lastEvents, tr.lastEvents
    ensures fresh(c) && c.id == NewId(family, start, unique) && c.family == family && c.start == start
    ensures c.parent == tr && c.lastEvents == null && !c.isError
    ensures StoreOk(families', Logged(logs, family, FS.Create(c.id)),
                    bs[c := EB.NewBuffer()][tr := EB.Append(bs[tr], Event(now, CHILD, Some(c), ""))])
    ensures tr.lastEvents == old(tr.lastEvents) || fresh(tr.lastEvents)
    ensures family in families' && families' == families[family := families'[family]]
    ensures if family in families then families' == families else fresh(families'[family].Footprint())
  {
    hide StoreOk, Logged, NewId, EB.Append, EB.NewBuffer;
    c, families' := NewTrace(families, family, start, unique, logs, bs);
    ghost var logs', bs' := Logged(logs, family, FS.Create(c.id)), bs[c := EB.NewBuffer()];
    Adopt(families', c, tr, logs', bs');
    Append(families', tr, Event(now, CHILD, Some(c), ""), logs', bs');
  }

  /** A trace is active in its family exactly when the log says so; an identifier is that of one trace only. */
  lemma ActiveIff(families: FamilyMap, logs: Logs, bs: Buffers, tr: Trace)
    requires StoreOk(families, logs, bs) && tr in bs
    ensures FS.AreOps(LogOf(logs, tr.family))
    ensures tr.family in families && tr.id in families[tr.family].active <==>
            tr.id in FS.Run(LogOf(logs, tr.family)).active
    ensures tr.family in families && tr.id in families[tr.family].active ==>
              families[tr.family].active[tr.id] == tr
  {
    LogIsOps(logs, tr.family);
    if tr.family in families {
      var ft := families[tr.family];
      assert FamilyOk(tr.family, ft, States(logs)[tr.family]) && KeepsOnly(ft, bs.Keys);
      assert tr.id in ft.active ==> ft.active[tr.id] in ft.Kept();
      hide Trace.Holds, FS.Consistent, FamilyOf, FS.Run, FamiliesOk, AreLogs;
    }
  }

  /** The finish of a trace, as logged. */
  ghost function FinishOp(tr: Trace, now: Time, isError: bool): (op: FS.Op)
    requires tr.start <= now && now - tr.start < TWO_63
    ensures FS.IsOp(op)
  {
    FS.Finish(tr.id, now - tr.start, BucketOf(now - tr.start), isError)
  }

  /** A trace ends: its family takes the step, and no other family is touched. */
  method Finish(families: FamilyMap, tr: Trace, now: Time, ghost logs: Logs, ghost bs: Buffers)
    requires StoreOk(families, logs, bs) && tr in bs
    requires tr.family in families && tr.id in families[tr.family].active
    requires tr.start <= now && now - tr.start < TWO_63
    modifies tr`end, families[tr.family].Footprint()
    ensures StoreOk(families, Logged(logs, tr.family, FinishOp(tr, now, tr.isError)), bs)
  {
    hide StoreOk, Logged, FinishOp;
    Outside(families, tr);
    tr.end := now;
    assert StoreOk(families, logs, bs);
    FinishEnded(families, tr, now, tr.isError, logs, bs);
  }

  method FinishEnded(families: FamilyMap, tr: Trace, ghost now: Time, ghost isError: bool,
                     ghost logs: Logs, ghost bs: Buffers)
    requires StoreOk(families, logs, bs) && tr in bs
    requires tr.family in families && tr.id in families[tr.family].active
    requires tr.end == now && tr.isError == isError && tr.start <= now && now - tr.start < TWO_63
    modifies families[tr.family].Footprint()
    ensures StoreOk(families, Logged(logs, tr.family, FinishOp(tr, now, isError)), bs)
  {
    hide StoreOk, AreLogs, FamiliesOk, KeptIn, TracesOk, FS.Step, FS.IsOp, Logged, LogOf, States, FamilyNamed, FinishOp;
    ghost var op := FinishOp(tr, now, isError);
    StoreParts(families, logs, bs);
    ActiveIff(families, logs, bs, tr);
    StatesNext(logs, tr.family, op);
    NamedIs(families, logs, tr.family);
    ghost var taken := FinishAmong(families, tr, States(logs), bs.Keys);
    SameFinish(tr, now, isError, taken);
    assert TracesOk(bs);
    StoreParts(families, Logged(logs, tr.family, op), bs);
  }

  lemma SameFinish(tr: Trace, now: Time, isError: bool, op: FS.Op)
    requires tr.start <= now && now - tr.start < TWO_63 && FS.IsOp(op)
    requires op.Finish? && op.id == tr.id && op.latency == now - tr.start && op.isError == isError
    ensures op == FinishOp(tr, now, isError)
  {
    BucketUnique(op.latency, op.bucket, BucketOf(op.latency));
  }

  lemma NamedIs(families: FamilyMap, logs: Logs, name: string)
    requires AreLogs(logs) && FamiliesOk(families, States(logs)) && name in families
    ensures name in States(logs) && FamilyNamed(States(logs), name) == States(logs)[name]
  {
  }

  // ---------- what can be found ----------

  /** Any identifier can be looked up, and what is found under it is in order. */
  lemma SearchableAlways(families: FamilyMap, logs: Logs, bs: Buffers, id: Id)
    requires StoreOk(families, logs, bs)
    ensures Searchable(families, id) && AllValid(KeptAs(families, id)) && KeptAs(families, id) <= bs.Keys
  {
    var name := FamilyOf(id);
    hide FamilyOf, FS.Consistent, FS.Run;
    if name in families {
      assert FamilyOk(name, families[name], States(logs)[name]) && KeepsOnly(families[name], bs.Keys);
      forall t | t in KeptAs(families, id) ensures t.Valid() {
        assert t.Holds(bs[t]);
      }
    }
  }

  lemma IdsDiffer(bs: Buffers, tr: Trace)
    requires TracesOk(bs) && tr in bs
    ensures forall t | t in bs && t.id == tr.id :: t == tr
    ensures FamilyOf(tr.id) == tr.family <==> SEPARATOR !in tr.family
  {
    hide FamilyOf, Trace.Holds;
  }

  /** Whether a lookup of the trace in its own family has to find it. */
  ghost predicate CanFind(logs: Logs, tr: Trace) {
    SEPARATOR !in tr.family && FS.Retains(LogOf(logs, tr.family), tr.id)
  }

  /** Of all the traces there have ever been, exactly those are kept under their identifiers whose families have names
      without the separator and retain them. */
  lemma KeptAsRetained(families: FamilyMap, logs: Logs, bs: Buffers, tr: Trace)
    requires StoreOk(families, logs, bs) && tr in bs
    ensures Searchable(families, tr.id)
    ensures KeptAs(families, tr.id) == if CanFind(logs, tr) then {tr} else {}
  {
    SearchableAlways(families, logs, bs, tr.id);
    StoreParts(families, logs, bs);
    IdsDiffer(bs, tr);
    RetainedIffFound(families, logs, tr.family, tr.id);
    hide StoreOk, AreLogs, TracesOk, FamilyOf, FS.Retains, FS.Found, FamiliesOk, KeptIn, States, LogOf, Searchable;
    var name := FamilyOf(tr.id);
    if name in families {
      KeptUnder(families, States(logs), bs.Keys, name, tr);
    }
  }

  lemma RetainedIffFound(families: FamilyMap, logs: Logs, name: string, id: Id)
    requires AreLogs(logs) && FamiliesOk(families, States(logs))
    ensures FS.Retains(LogOf(logs, name), id) <==> name in families && name in logs && FS.Found(States(logs)[name], id)
  {
    LogIsOps(logs, name);
    FS.Retention(LogOf(logs, name), id);
    hide FS.Retains, FamilyOk, Apart;
  }

  /** A family keeps under the identifier of a trace that trace or nothing, and nothing if it is of another family. */
  lemma KeptUnder(families: FamilyMap, fs: map<string, FS.Family>, ts: set<Trace>, name: string, tr: Trace)
    requires FamiliesOk(families, fs) && KeptIn(families, ts) && name in families
    requires forall t | t in ts && t.id == tr.id :: t == tr
    ensures families[name].RingsValid()
    ensures families[name].KeptAs(tr.id) == if name == tr.family && FS.Found(fs[name], tr.id) then {tr} else {}
  {
    assert FamilyOk(name, families[name], fs[name]) && KeepsOnly(families[name], ts);
    OwnOnly(name, families[name], fs[name], ts, tr);
  }

  lemma OwnOnly(name: string, ft: FamilyTraces, f: FS.Family, ts: set<Trace>, tr: Trace)
    requires FamilyOk(name, ft, f) && KeepsOnly(ft, ts)
    requires forall t | t in ts && t.id == tr.id :: t == tr
    ensures ft.KeptAs(tr.id) == if name == tr.family && FS.Found(f, tr.id) then {tr} else {}
  {
    hide FS.Found, FS.Consistent;
    ft.KeptIffFound(f, tr.id);
    hide FamilyTraces.Models, FamilyTraces.Kept, FamilyTraces.RingsValid;
    forall t | t in ft.KeptAs(tr.id) ensures t == tr && name == tr.family {
      assert t in ts;
    }
  }

  /** What a trace refers to is a trace. */
  lemma RefersInside(bs: Buffers, ref: Trace, r: Trace)
    requires TracesOk(bs) && ref in bs && RefersTo(ref, r)
    ensures r in bs
  {
    hide Identified, OwnRings, EB.Shown;
    if ref.parent != r {
      var i :| 0 <= i < |ref.Stored()| && ref.Stored()[i].ref == Some(r);
      ref.StoredIsShown(bs[ref]);
      EB.ShownRefs(bs[ref], ref.Stored()[i]);
      assert BufferIn(bs[ref], bs.Keys);
    }
  }

  /** `tr` is the parent of `ref`, or one of the events that `ref` shows refers to it. */
  ghost predicate Mentions(bs: Buffers, ref: Trace, tr: Trace)
    requires ref in bs
    reads ref`parent
  {
    ref.parent == tr || exists e | e in EB.Shown(bs[ref]) :: e.ref == Some(tr)
  }

  /** A trace with the identifier can be found, and mentions `tr`. */
  ghost predicate FoundVia(logs: Logs, bs: Buffers, refId: Id, tr: Trace)
    reads bs.Keys`parent
  {
    refId != "" && exists ref | ref in bs :: ref.id == refId && CanFind(logs, ref) && Mentions(bs, ref, tr)
  }

  lemma MentionsIff(bs: Buffers, ref: Trace, tr: Trace)
    requires TracesOk(bs) && ref in bs && tr in bs
    ensures RefersTo(ref, tr) <==> Mentions(bs, ref, tr)
    ensures RefersToNone(ref, tr.id) <==> !Mentions(bs, ref, tr)
  {
    hide OwnRings, FamilyOf, EB.Shown, Trace.Stored;
    ref.StoredIsShown(bs[ref]);
    if ref.parent != null && ref.parent.id == tr.id {
      assert ref.parent in bs;
    }
    forall i | 0 <= i < |ref.Stored()| && ref.Stored()[i].ref.Some? && ref.Stored()[i].ref.value.id == tr.id
      ensures ref.Stored()[i].ref == Some(tr)
    {
      EB.ShownRefs(bs[ref], ref.Stored()[i]);
      assert BufferIn(bs[ref], bs.Keys);
    }
  }

  /** Finds a trace, decided for every one there has ever been: it is found if its family retains it under a name free
      of the separator, or if the trace of the reference, which has to be found so itself, mentions it; otherwise
      nothing is. */
  method Find(families: FamilyMap, traceId: Id, refId: Id, ghost logs: Logs, ghost bs: Buffers) returns (r: Trace?)
    requires StoreOk(families, logs, bs)
    ensures r != null ==> r.id == traceId && r in bs
    ensures forall tr | tr in bs && tr.id == traceId ::
              r == if CanFind(logs, tr) || FoundVia(logs, bs, refId, tr) then tr else null
  {
    StoreParts(families, logs, bs);
    hide StoreOk, AreLogs, FamiliesOk, KeptIn, TracesOk, Searchable, KeptAs, AllValid, RefersTo, RefersToNone, FamilyOf,
         CanFind, FoundVia;
    SearchableAlways(families, logs, bs, traceId);
    SearchableAlways(families, logs, bs, refId);
    r := FindInFamilies(families, traceId, refId);
    forall n | n in families ensures unchanged(families[n].Footprint()) {
    }
    assert FamiliesOk(families, States(logs)) && KeptIn(families, bs.Keys) && TracesOk(bs);
    StoreParts(families, logs, bs);
    SearchableAlways(families, logs, bs, traceId);
    SearchableAlways(families, logs, bs, refId);
    assert KeptAs(families, traceId) == old(KeptAs(families, traceId));
    assert KeptAs(families, refId) == old(KeptAs(families, refId));
    FoundIs(families, traceId, refId, logs, bs, r);
  }

  /** What `FindInFamilies` says, in terms of what there has been. */
  lemma FoundIs(families: FamilyMap, traceId: Id, refId: Id, logs: Logs, bs: Buffers, r: Trace?)
    requires StoreOk(families, logs, bs)
    requires Searchable(families, traceId) && Searchable(families, refId)
    requires KeptAs(families, traceId) <= bs.Keys && KeptAs(families, refId) <= bs.Keys
    requires r != null ==> r.id == traceId
    requires KeptAs(families, traceId) != {} ==> r != null && KeptAs(families, traceId) == {r}
    requires KeptAs(families, traceId) == {} && r != null ==>
               refId != "" && exists ref | ref in KeptAs(families, refId) :: RefersTo(ref, r)
    requires r == null && refId != "" ==> forall ref | ref in KeptAs(families, refId) :: RefersToNone(ref, traceId)
    ensures r != null ==> r in bs
    ensures forall tr | tr in bs && tr.id == traceId ::
              r == if CanFind(logs, tr) || FoundVia(logs, bs, refId, tr) then tr else null
  {
    StoreParts(families, logs, bs);
    hide StoreOk, AreLogs, FamiliesOk, KeptIn, TracesOk, Searchable, KeptAs, RefersTo, RefersToNone, FamilyOf, CanFind,
         Mentions;
    if r != null && r !in KeptAs(families, traceId) {
      var ref :| ref in KeptAs(families, refId) && RefersTo(ref, r);
      RefersInside(bs, ref, r);
    }
    forall tr | tr in bs && tr.id == traceId
      ensures r == if CanFind(logs, tr) || FoundVia(logs, bs, refId, tr) then tr else null
    {
      KeptAsRetained(families, logs, bs, tr);
      IdsDiffer(bs, tr);
      if !CanFind(logs, tr) {
        if r == null {
          forall ref | ref in bs && ref.id == refId && CanFind(logs, ref) && refId != ""
            ensures !Mentions(bs, ref, tr)
          {
            KeptAsRetained(families, logs, bs, ref);
            MentionsIff(bs, ref, tr);
          }
        } else {
          var ref :| ref in KeptAs(families, refId) && RefersTo(ref, r);
          KeptHas(families, refId, ref);
          KeptAsRetained(families, logs, bs, ref);
          MentionsIff(bs, ref, tr);
        }
      }
    }
  }

  lemma KeptHas(families: FamilyMap, id: Id, t: Trace)
    requires Searchable(families, id) && t in KeptAs(families, id)
    ensures t.id == id
  {
  }

  // ---------- all the events ----------

  /** The stored events of all the traces. */
  ghost function Snapshot(bs: Buffers): AE.Graph {
    map t | t in bs :: EB.Shown(bs[t])
  }

  lemma SnapshotIsGraph(bs: Buffers)
    requires TracesOk(bs)
    ensures AE.IsGraph(Snapshot(bs)) && AE.IsSnapshot(Snapshot(bs))
  {
    assert forall t | t in bs :: t.Holds(bs[t]);
    var g: AE.Graph := Snapshot(bs);
    hide Trace.Stored, EB.Shown, FamilyOf;
    forall t: Trace, i | t in g && 0 <= i < |g[t]| && g[t][i].ref.Some? ensures g[t][i].ref.value in g {
      assert BufferIn(bs[t], bs.Keys);
      EB.ShownRefs(bs[t], g[t][i]);
    }
    forall t | t in g ensures t.Valid() && t.Stored() == g[t] {
      t.StoredIsShown(bs[t]);
    }
  }

  /** The events of a trace and of all that it leads to can be gathered at any time. */
  method AllEvents(tr: Trace, ghost families: FamilyMap, ghost logs: Logs, ghost bs: Buffers)
    returns (evts: seq<AE.TraceAndEvent>)
    requires StoreOk(families, logs, bs) && tr in bs
    ensures forall i, j | 0 <= i < j < |evts| :: evts[i].event.when <= evts[j].event.when
    ensures forall t {:trigger AE.EventsOf(evts, t)} | t in bs ::
              multiset(AE.EventsOf(evts, t)) ==
              if AE.Reachable(Snapshot(bs), tr, t) then multiset(EB.Shown(bs[t])) else multiset{}
    ensures AE.DepthsAreWalks(Snapshot(bs), tr, 0, evts) && AE.OneDepthPerTrace(evts)
  {
    StoreParts(families, logs, bs);
    hide StoreOk, TracesOk, AE.IsGraph, AE.IsSnapshot, AE.DepthsAreWalks, AE.OneDepthPerTrace, EB.Shown;
    SnapshotIsGraph(bs);
    evts := AE.AllEvents(tr, Snapshot(bs));
  }
}
