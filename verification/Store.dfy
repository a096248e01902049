/** All the families of traces, and looking up a trace by its identifier (internal/nettrace/trace.go). */
module Store {
  import opened Common
  import opened EventRing
  import opened Text
  import opened Traces
  import opened Families
  import FS = FamilySpec

  // ---------- identifiers ----------

  const SEPARATOR: char := '!'

  /** "family!timestamp!unique number". */
  function NewId(family: string, ts: Time, unique: nat): Id {
    family + [SEPARATOR] + Decimal(ts) + [SEPARATOR] + Decimal(unique)
  }

  /** What comes before the first separator, or all of an identifier that has none. */
  function FamilyOf(id: Id): string {
    if id == "" || id[0] == SEPARATOR then "" else [id[0]] + FamilyOf(id[1..])
  }

  lemma {:induction false} FamilyOfPrefix(family: string, rest: string)
    ensures FamilyOf(family + [SEPARATOR] + rest) == family <==> SEPARATOR !in family
    ensures FamilyOf(family + [SEPARATOR] + rest) <= family
  {
    var id := family + [SEPARATOR] + rest;
    if family != "" && family[0] != SEPARATOR {
      assert id[1..] == family[1..] + [SEPARATOR] + rest;
      FamilyOfPrefix(family[1..], rest);
      assert SEPARATOR in family <==> SEPARATOR in family[1..];
      assert FamilyOf(id) == [family[0]] + FamilyOf(id[1..]);
      assert family == [family[0]] + family[1..];
    }
  }

  /** The family can be read back from an identifier exactly when its name is free of the separator. */
  lemma FamilyOfNewId(family: string, ts: Time, unique: nat)
    ensures FamilyOf(NewId(family, ts, unique)) == family <==> '!' !in family
  {
    var rest := Decimal(ts) + [SEPARATOR] + Decimal(unique);
    assert NewId(family, ts, unique) == family + [SEPARATOR] + rest;
    FamilyOfPrefix(family, rest);
  }

  /** What comes after the last separator. */
  function LastPart(id: Id): string {
    if id == "" || id[|id| - 1] == SEPARATOR then "" else LastPart(id[..|id| - 1]) + [id[|id| - 1]]
  }

  lemma {:induction false} LastPartIs(p: string, a: string)
    requires SEPARATOR !in a
    ensures LastPart(p + [SEPARATOR] + a) == a
  {
    var s := p + [SEPARATOR] + a;
    if a != "" {
      var n := |a| - 1;
      LastPartIs(p, a[..n]);
      assert s[..|s| - 1] == p + [SEPARATOR] + a[..n];
      assert a == a[..n] + [a[n]];
    }
  }

  lemma SameTail(p: string, a: string, q: string, b: string)
    requires SEPARATOR !in a && SEPARATOR !in b
    requires p + [SEPARATOR] + a == q + [SEPARATOR] + b
    ensures p == q && a == b
  {
    hide LastPart;
    var s := p + [SEPARATOR] + a;
    LastPartIs(p, a);
    LastPartIs(q, b);
    assert p == s[..|s| - |a| - 1] && q == s[..|s| - |b| - 1];
  }

  lemma DecimalsDiffer(m: nat, n: nat)
    requires Decimal(m) == Decimal(n)
    ensures m == n
  {
    NumeralOfDecimal(m);
    NumeralOfDecimal(n);
  }

  lemma DecimalPlain(n: nat)
    ensures SEPARATOR !in Decimal(n)
  {
    NumeralOfDecimal(n);
  }

  /** No two families, times or numbers make the same identifier, whatever the names of the families contain. */
  lemma NewIdInjective(family: string, ts: Time, unique: nat, family': string, ts': Time, unique': nat)
    requires NewId(family, ts, unique) == NewId(family', ts', unique')
    ensures family == family' && ts == ts' && unique == unique'
  {
    DecimalPlain(ts);
    DecimalPlain(unique);
    DecimalPlain(ts');
    DecimalPlain(unique');
    SameTail(family + [SEPARATOR] + Decimal(ts), Decimal(unique),
             family' + [SEPARATOR] + Decimal(ts'), Decimal(unique'));
    SameTail(family, Decimal(ts), family', Decimal(ts'));
    DecimalsDiffer(ts, ts');
    DecimalsDiffer(unique, unique');
  }

  // ---------- the families ----------

  /** The kept traces belong to the family `name`, and no two of them share an identifier. */
  ghost predicate Filed(name: string, kept: set<Trace>) {
    && (forall t | t in kept :: t.family == name)
    && (forall t, u | t in kept && u in kept && t.id == u.id :: t == u)
  }

  /** The family `name` is stored in `ft`, and is `f`. */
  ghost predicate FamilyOk(name: string, ft: FamilyTraces, f: FS.Family)
    reads ft.Footprint()
  {
    ft.Models(f) && FS.Consistent(f) && Filed(name, ft.Kept())
  }

  /** The family with the name, a new one if there is none yet. */
  method GetFamily(families: map<string, FamilyTraces>, family: string, ghost f: FS.Family)
    returns (ft: FamilyTraces, families': map<string, FamilyTraces>)
    requires if family in families then FamilyOk(family, families[family], f) else f == FS.EMPTY
    ensures families' == families[family := ft]
    ensures FamilyOk(family, ft, f)
    ensures ft.RingsValid()
    ensures if family in families then ft == families[family] else fresh(ft.Footprint()) && ft.Kept() == {}
  {
    hide FS.Consistent, TraceRing.Valid;
    if family in families {
      return families[family], families;
    }
    ft := new FamilyTraces();
    FS.EmptyIsConsistent();
    families' := families[family := ft];
  }

  method RegisterIn(ft: FamilyTraces, tr: Trace, ghost f: FS.Family)
    requires FamilyOk(tr.family, ft, f)
    requires !FS.Found(f, tr.id)
    modifies ft
    ensures FamilyOk(tr.family, ft, FS.Step(f, FS.Create(tr.id)))
    ensures ft.active == old(ft.active)[tr.id := tr]
    ensures ft.RingsValid() && ft.Kept() <= old(ft.Kept()) + {tr}
  {
    forall t | t in ft.Kept() ensures FS.Found(f, t.id) {
      ft.KeptIsFound(f, t);
    }
    FS.StepConsistent(f, FS.Create(tr.id));
    FiledWith(tr.family, ft.Kept(), tr);
    ft.Register(tr, f);
  }

  /** A trace with an identifier of its own can be added, and any trace can be dropped. */
  lemma FiledWith(name: string, kept: set<Trace>, tr: Trace)
    requires Filed(name, kept)
    requires tr.family == name
    requires forall t | t in kept :: t.id == tr.id ==> t == tr
    ensures forall less: set<Trace> | less <= kept + {tr} :: Filed(name, less)
  {
  }

  /** The family takes the step of a trace that has ended. */
  method FinishIn(ft: FamilyTraces, tr: Trace, ghost f: FS.Family) returns (ghost op: FS.Op)
    requires FamilyOk(tr.family, ft, f)
    requires tr.id in ft.active && ft.active[tr.id] == tr
    requires tr.start <= tr.end && tr.end - tr.start < TWO_63
    modifies ft, ft.finished, ft.errors, ft.latencies, ft.latencies.count
    ensures op.Finish? && FS.IsOp(op) && op.id == tr.id
    ensures op.latency == old(tr.end) - tr.start && op.isError == old(tr.isError)
    ensures FamilyOk(tr.family, ft, FS.Step(f, op))
    ensures ft.RingsValid() && ft.Kept() <= old(ft.Kept())
  {
    FiledWith(tr.family, ft.Kept(), tr);
    assert tr in ft.Kept();
    op := ft.Finalize(tr, f);
    assert ft.Kept() <= old(ft.Kept());
    FS.StepConsistent(f, op);
  }

  // ---------- looking a trace up ----------

  /** The family that the identifier names, if there is one, can tell its traces apart. */
  ghost predicate Searchable(families: map<string, FamilyTraces>, id: Id)
    reads if FamilyOf(id) in families then families[FamilyOf(id)].Footprint() else {}
  {
    FamilyOf(id) in families ==> families[FamilyOf(id)].WellKept()
  }

  /** What its own family keeps under an identifier: one trace or none. */
  ghost function KeptAs(families: map<string, FamilyTraces>, id: Id): set<Trace>
    requires Searchable(families, id)
    reads if FamilyOf(id) in families then families[FamilyOf(id)].Footprint() else {}
  {
    if FamilyOf(id) in families then families[FamilyOf(id)].KeptAs(id) else {}
  }

  /** A family that is kept in order can be searched; it finds a trace under an identifier exactly when the trace
      is active or still in one of the rings, and an active trace is always the one found. */
  lemma {:induction false} KeptAsFound(families: map<string, FamilyTraces>, f: FS.Family, id: Id)
    requires FamilyOf(id) in families && FamilyOk(FamilyOf(id), families[FamilyOf(id)], f)
    ensures Searchable(families, id)
    ensures KeptAs(families, id) != {} <==> FS.Found(f, id)
    ensures id in families[FamilyOf(id)].active ==> KeptAs(families, id) == {families[FamilyOf(id)].active[id]}
  {
    families[FamilyOf(id)].KeptIffFound(f, id);
  }

  ghost predicate AllValid(ts: set<Trace>)
    reads ts, set t | t in ts && t.lastEvents != null :: t.lastEvents
  {
    forall t | t in ts :: t.Valid()
  }

  /** `t` is the parent of `ref`, or one of the events of `ref` refers to it. */
  ghost predicate RefersTo(ref: Trace, t: Trace)
    reads ref, ref.lastEvents
  {
    && ref.Valid()
    && (ref.parent == t || exists i | 0 <= i < |ref.Stored()| :: ref.Stored()[i].ref == Some(t))
  }

  /** `ref` refers to no trace with the identifier. */
  ghost predicate RefersToNone(ref: Trace, id: Id)
    reads ref, ref.lastEvents
  {
    && ref.Valid()
    && (ref.parent != null ==> ref.parent.id != id)
    && (forall i | 0 <= i < |ref.Stored()| && ref.Stored()[i].ref.Some? :: ref.Stored()[i].ref.value.id != id)
  }

  /** The trace with the identifier, from the family that the identifier names. */
  method FindDirectly(families: map<string, FamilyTraces>, traceId: Id) returns (r: Trace?)
    requires Searchable(families, traceId)
    ensures KeptAs(families, traceId) == if r == null then {} else {r}
  {
    var family := FamilyOf(traceId);
    if family in families {
      r := families[family].Find(traceId);
    } else {
      r := null;
    }
  }

  /** The parent of `ref`, or the first trace its events refer to, with the identifier. */
  method FindVia(ref: Trace, traceId: Id) returns (r: Trace?)
    requires ref.Valid()
    ensures r != null ==> r.id == traceId && RefersTo(ref, r)
    ensures r == null ==> RefersToNone(ref, traceId)
    ensures ref.parent != null && ref.parent.id == traceId ==> r == ref.parent
    ensures forall i | 0 <= i < |ref.Stored()| && ref.Stored()[i].ref.Some? ::
              ref.Stored()[i].ref.value.id == traceId ==> r != null
    ensures r != null ==> r == ref.parent || exists i | 0 <= i < |ref.Stored()| :: ref.Stored()[i].ref == Some(r)
  {
    if ref.parent != null && ref.parent.id == traceId {
      return ref.parent;
    }
    var evts := ref.Events();
    for i := 0 to |evts|
      invariant forall k | 0 <= k < i && evts[k].ref.Some? :: evts[k].ref.value.id != traceId
    {
      if evts[i].ref.Some? && evts[i].ref.value.id == traceId {
        return evts[i].ref.value;
      }
    }
    r := null;
  }

  /** The trace with identifier `traceId`: the one its family keeps or, failing that, the one with that identifier
      that the trace `refId` refers to. An empty `refId` means there is none; the nested call has none. */
  method FindInFamilies(families: map<string, FamilyTraces>, traceId: Id, refId: Id)
    returns (r: Trace?)
    requires Searchable(families, traceId)
    requires refId != "" ==> Searchable(families, refId) && AllValid(KeptAs(families, refId))
    ensures r != null ==> r.id == traceId
    ensures KeptAs(families, traceId) != {} ==> r != null && KeptAs(families, traceId) == {r}
    ensures KeptAs(families, traceId) == {} && r != null ==>
              refId != "" && exists ref | ref in KeptAs(families, refId) :: RefersTo(ref, r)
    ensures r == null && refId != "" ==> forall ref | ref in KeptAs(families, refId) :: RefersToNone(ref, traceId)
    decreases refId != "", 1
  {
    r := FindDirectly(families, traceId);
    if r != null {
      assert r in KeptAs(families, traceId);
    } else if refId != "" {
      r := FindByReference(families, traceId, refId);
    }
  }

  /** The trace with identifier `traceId` that the trace `refId` refers to. */
  method FindByReference(families: map<string, FamilyTraces>, traceId: Id, refId: Id)
    returns (r: Trace?)
    requires Searchable(families, refId) && AllValid(KeptAs(families, refId))
    ensures r != null ==> r.id == traceId && exists ref | ref in KeptAs(families, refId) :: RefersTo(ref, r)
    ensures r == null ==> forall ref | ref in KeptAs(families, refId) :: RefersToNone(ref, traceId)
    decreases true, 0
  {
    var ref := FindInFamilies(families, refId, "");
    if ref == null {
      assert KeptAs(families, refId) == {};
      return null;
    }
    assert KeptAs(families, refId) == {ref};
    r := FindVia(ref, traceId);
    assert KeptAs(families, refId) == {ref};
  }
}
