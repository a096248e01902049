/** The traces kept for one family, as the source stores them (internal/nettrace/trace.go): a map of active traces,
    eight rings of finished ones, a ring of failed ones and a histogram. Each method is related to `FamilySpec`. */
module Families {
  import opened Common
  import opened EventRing
  import opened Histogram
  import opened Traces
  import opened Sorting
  import FS = FamilySpec

  // ---------- traceRing ----------

  function NonNull(s: seq<Trace?>): seq<Trace> {
    if s == [] then [] else (if s[0] == null then [] else [s[0] as Trace]) + NonNull(s[1..])
  }

  lemma {:induction false} NonNullConcat(s: seq<Trace?>, t: seq<Trace?>)
    ensures NonNull(s + t) == NonNull(s) + NonNull(t)
  {
    if s == [] {
      assert s + t == t;
    } else {
      assert (s + t)[1..] == s[1..] + t;
      NonNullConcat(s[1..], t);
    }
  }

  /** Empty slots come first, and there are `n` full ones. */
  ghost predicate EmptyFirst(s: seq<Trace?>, n: nat) {
    n <= |s| && forall i | 0 <= i < |s| :: s[i] == null <==> i < |s| - n
  }

  lemma {:induction false} EmptyFirstNonNull(s: seq<Trace?>, n: nat)
    requires EmptyFirst(s, n)
    ensures |NonNull(s)| == n
    ensures s != [] && s[0] != null ==> n == |s| && NonNull(s) == [s[0] as Trace] + NonNull(s[1..])
    ensures s != [] && s[0] == null ==> NonNull(s) == NonNull(s[1..])
  {
    if s != [] {
      EmptyFirstNonNull(s[1..], if s[0] == null then n else n - 1);
    }
  }

  class TraceRing {
    const max: nat
    var slots: seq<Trace?>
    var head: nat
    var l: nat
    ghost var contents: seq<Trace>  // the traces held, oldest first

    ghost predicate Valid()
      reads this
    {
      && 0 < max == |slots|
      && head < max
      && EmptyFirst(Around(), l)
      && contents == NonNull(Around())
    }

    /** The slots in the order the ring is walked, starting with the next one to be overwritten. */
    ghost function Around(): seq<Trace?>
      requires head <= |slots|
      reads this
    {
      slots[head..] + slots[..head]
    }

    constructor (n: nat)
      requires 0 < n
      ensures Valid() && max == n
      ensures contents == []
    {
      max := n;
      slots := seq(n, _ => null);
      head, l, contents := 0, 0, [];
      new;
      EmptyFirstNonNull(Around(), 0);
    }

    method Add(tr: Trace)
      requires Valid()
      modifies this
      ensures Valid()
      ensures contents == Last(old(contents) + [tr], max)
    {
      hide EmptyFirst, NonNull;
      RingAdvance(Around(), l, tr);
      AroundAdvance(slots, head, tr);
      slots := slots[head := tr];
      Wrap(head + 1, max);
      head := (head + 1) % max;
      if l < max {
        l := l + 1;
      }
      contents := Last(contents + [tr], max);
    }

    method Len() returns (n: nat)
      requires Valid()
      ensures n == |contents|
    {
      EmptyFirstNonNull(Around(), l);
      n := l;
    }

    /** Visits the traces from older to newer, skipping the empty slots. */
    method Do() returns (visited: seq<Trace>)
      requires Valid()
      ensures visited == contents
    {
      visited := [];
      ghost var around := Around();
      for i := 0 to max
        invariant visited == NonNull(around[..i])
      {
        Wrap(head + i, max);
        var x := slots[(head + i) % max];
        assert x == around[i];
        assert around[..i + 1] == around[..i] + [around[i]];
        NonNullConcat(around[..i], [around[i]]);
        if x != null {
          visited := visited + [x];
        }
      }
      assert around[..max] == around;
    }
  }

  lemma LastDropsFirst<T>(x: T, rest: seq<T>, y: T)
    ensures Last([x] + rest + [y], |rest| + 1) == rest + [y]
  {
  }

  lemma SlotsAdvance(around: seq<Trace?>, l: nat, tr: Trace)
    requires around != [] && EmptyFirst(around, l)
    ensures EmptyFirst(around[1..] + [tr], if l < |around| then l + 1 else l)
  {
  }

  /** Dropping the first slot and filling a new last one keeps the newest traces. */
  lemma RingAdvance(around: seq<Trace?>, l: nat, tr: Trace)
    requires around != [] && EmptyFirst(around, l)
    ensures EmptyFirst(around[1..] + [tr], if l < |around| then l + 1 else l)
    ensures NonNull(around[1..] + [tr]) == Last(NonNull(around) + [tr], |around|)
  {
    SlotsAdvance(around, l, tr);
    EmptyFirstNonNull(around, l);
    NonNullConcat(around[1..], [tr]);
    assert NonNull([tr]) == [tr];
    assert around[0] == null <==> l < |around|;
    hide *;
    if around[0] == null {
      TakesAll(NonNull(around), tr, |around|);
    } else {
      LastDropsFirst(around[0] as Trace, NonNull(around[1..]), tr);
    }
  }

  lemma TakesAll<T>(s: seq<T>, x: T, n: nat)
    requires |s| < n
    ensures Last(s + [x], n) == s + [x]
  {
  }

  lemma AroundAdvance(slots: seq<Trace?>, head: nat, tr: Trace)
    requires head < |slots|
    ensures var next := if head + 1 < |slots| then head + 1 else 0;
            var s := slots[head := tr];
            s[next..] + s[..next] == (slots[head..] + slots[..head])[1..] + [tr]
  {
    var s := slots[head := tr];
    if head + 1 < |slots| {
      assert s[head + 1..] == slots[head..][1..];
      assert s[..head + 1] == slots[..head] + [tr];
    } else {
      assert s[..] == s;
      assert slots[head..] == [slots[head]];
    }
  }

  // ---------- familyTraces ----------

  function Ids(ts: seq<Trace>): (r: seq<Id>)
    ensures |r| == |ts| && forall i | 0 <= i < |ts| :: r[i] == ts[i].id
  {
    if ts == [] then [] else [ts[0].id] + Ids(ts[1..])
  }

  lemma IdsOfLast(ts: seq<Trace>, tr: Trace, n: nat)
    ensures Ids(Last(ts + [tr], n)) == Last(Ids(ts) + [tr.id], n)
  {
    var a, b := Ids(Last(ts + [tr], n)), Last(Ids(ts) + [tr.id], n);
    assert |a| == |b|;
    forall i | 0 <= i < |a| ensures a[i] == b[i] {
      assert a[i] == Last(ts + [tr], n)[i].id;
    }
  }

  method NewRings() returns (rings: seq<TraceRing>)
    ensures |rings| == N_BUCKETS && fresh(rings)
    ensures forall b | 0 <= b < N_BUCKETS ::
              rings[b].Valid() && rings[b].max == FS.TRACES_IN_BUCKET && rings[b].contents == []
    ensures forall a, b | 0 <= a < b < N_BUCKETS :: rings[a] != rings[b]
  {
    hide TraceRing.Valid;
    rings := [];
    for i := 0 to N_BUCKETS
      invariant |rings| == i && fresh(rings)
      invariant forall b | 0 <= b < i ::
                  rings[b].Valid() && rings[b].max == FS.TRACES_IN_BUCKET && rings[b].contents == []
      invariant forall a, b | 0 <= a < b < i :: rings[a] != rings[b]
    {
      var ring := new TraceRing(FS.TRACES_IN_BUCKET);
      rings := rings + [ring];
    }
  }

  method AddTo(ring: TraceRing, tr: Trace, ghost ids: seq<Id>)
    requires ring.Valid() && ring.max == FS.TRACES_IN_BUCKET && Ids(ring.contents) == ids
    modifies ring
    ensures ring.Valid() && Ids(ring.contents) == FS.Push(ids, tr.id)
    ensures forall t | t in ring.contents :: t in old(ring.contents) || t == tr
  {
    IdsOfLast(ring.contents, tr, ring.max);
    ring.Add(tr);
  }

  /** The last trace of the ring with the given identifier. */
  method FindIn(ring: TraceRing, id: Id) returns (found: Trace?)
    requires ring.Valid()
    ensures found != null ==> found.id == id && found in ring.contents
    ensures found == null ==> forall t | t in ring.contents :: t.id != id
  {
    found := null;
    var ts := ring.Do();
    for i := 0 to |ts|
      invariant found != null ==> found.id == id && found in ts
      invariant found == null ==> forall k | 0 <= k < i :: ts[k].id != id
    {
      if ts[i].id == id {
        found := ts[i];
      }
    }
  }

  class FamilyTraces {
    var active: map<Id, Trace>
    const finished: seq<TraceRing>
    const errors: TraceRing
    const latencies: Histogram

    ghost predicate RingsValid()
      reads finished, errors
    {
      && |finished| == N_BUCKETS
      && (forall b | 0 <= b < N_BUCKETS ::
            finished[b].Valid() && finished[b].max == FS.TRACES_IN_BUCKET && finished[b] != errors)
      && (forall a, b | 0 <= a < b < N_BUCKETS :: finished[a] != finished[b])
      && errors.Valid() && errors.max == FS.TRACES_IN_BUCKET
    }

    /** The rings hold what those of the family `f` do. */
    ghost predicate RingsModel(f: FS.Family)
      reads finished, errors
    {
      && RingsValid()
      && |f.finished| == N_BUCKETS
      && (forall b | 0 <= b < N_BUCKETS :: Ids(finished[b].contents) == f.finished[b])
      && Ids(errors.contents) == f.errors
    }

    /** The stored state is the family `f`. */
    ghost predicate Models(f: FS.Family)
      reads this, finished, errors, latencies, latencies.count
    {
      && active.Keys == f.active
      && (forall id | id in active :: active[id].id == id)
      && RingsModel(f)
      && latencies.Records(f.samples)
    }

    /** The traces held by some ring. */
    ghost function InRings(): set<Trace>
      requires RingsValid()
      reads finished, errors
    {
      (set b, t | 0 <= b < N_BUCKETS && t in finished[b].contents :: t) + (set t | t in errors.contents)
    }

    /** The traces that can still be found. */
    ghost function Kept(): set<Trace>
      requires RingsValid()
      reads this, finished, errors
    {
      active.Values + InRings()
    }

    /** Everything the family writes to. */
    ghost function Footprint(): set<object> {
      {this, errors, latencies, latencies.count} + set r | r in finished
    }

    constructor ()
      ensures Models(FS.EMPTY)
      ensures fresh(finished) && fresh(errors) && fresh(latencies) && fresh(latencies.count)
      ensures Kept() == {}
    {
      active := map[];
      var rings := NewRings();
      finished := rings;
      errors := new TraceRing(FS.TRACES_IN_BUCKET);
      latencies := new Histogram();
      new;
      EmptyRings();
    }

    lemma EmptyRings()
      requires RingsValid()
      requires forall b | 0 <= b < N_BUCKETS :: finished[b].contents == []
      requires errors.contents == []
      ensures RingsModel(FS.EMPTY)
    {
      forall b | 0 <= b < N_BUCKETS ensures Ids(finished[b].contents) == FS.EMPTY.finished[b] {
        assert finished[b].contents == [];
      }
    }

    /** Registers a new trace. */
    method Register(tr: Trace, ghost f: FS.Family)
      requires Models(f)
      modifies this
      ensures Models(FS.Step(f, FS.Create(tr.id)))
      ensures active == old(active)[tr.id := tr]
      ensures Kept() <= old(Kept()) + {tr}
    {
      active := active[tr.id := tr];
    }

    /** Moves a finished trace out of the active ones; `op` is the step taken. */
    method Finalize(tr: Trace, ghost f: FS.Family) returns (ghost op: FS.Op)
      requires Models(f)
      requires tr.start <= tr.end && tr.end - tr.start < TWO_63
      modifies this, finished, errors, latencies, latencies.count
      ensures op.Finish? && FS.IsOp(op) && op.id == tr.id
      ensures op.latency == old(tr.end) - tr.start && op.isError == old(tr.isError)
      ensures Models(FS.Step(f, op))
      ensures active == old(active) - {tr.id}
      ensures InRings() <= old(InRings()) + {tr}
    {
      hide RingsModel, RingsValid, InRings, FS.Push, TraceRing.Valid, Histogram.Records;
      var latency := tr.end - tr.start;
      var bucket := FindBucket(latency);
      op := FS.Finish(tr.id, latency, bucket, tr.isError);
      Move(tr, bucket, tr.isError, f, latency);
      AddLatency(bucket, latency, f.samples);
    }

    /** Out of the active traces and into the rings. */
    method Move(tr: Trace, b: nat, isError: bool, ghost f: FS.Family, ghost latency: nat)
      requires RingsModel(f) && b < N_BUCKETS
      modifies this, finished, errors
      ensures RingsValid() && RingsModel(FS.Step(f, FS.Finish(tr.id, latency, b, isError)))
      ensures active == old(active) - {tr.id}
      ensures InRings() <= old(InRings()) + {tr}
    {
      active := active - {tr.id};
      AddToRings(tr, b, isError, f, latency);
    }

    method AddLatency(b: nat, latency: nat, ghost xs: seq<Sample>)
      requires RingsValid() && latencies.Records(xs) && latency < TWO_63 && b < N_BUCKETS
      modifies latencies, latencies.count
      ensures latencies.Records(xs + [Sample(b, latency)])
      ensures unchanged(finished) && unchanged(errors)
    {
      latencies.Add(b, latency, xs);
    }

    method AddToRings(tr: Trace, b: nat, isError: bool, ghost f: FS.Family, ghost latency: nat)
      requires RingsModel(f) && b < N_BUCKETS
      modifies finished, errors
      ensures RingsModel(FS.Step(f, FS.Finish(tr.id, latency, b, isError)))
      ensures InRings() <= old(InRings()) + {tr}
    {
      AddFinished(tr, b, f);
      if isError {
        AddError(tr, f.(finished := f.finished[b := FS.Push(f.finished[b], tr.id)]));
      }
    }

    method AddFinished(tr: Trace, b: nat, ghost f: FS.Family)
      requires RingsModel(f) && b < N_BUCKETS
      modifies finished[b]
      ensures RingsModel(f.(finished := f.finished[b := FS.Push(f.finished[b], tr.id)]))
      ensures InRings() <= old(InRings()) + {tr}
    {
      hide TraceRing.Valid, FS.Push;
      assert forall a | 0 <= a < N_BUCKETS && a != b :: finished[a] != finished[b];
      AddTo(finished[b], tr, f.finished[b]);
    }

    method AddError(tr: Trace, ghost f: FS.Family)
      requires RingsModel(f)
      modifies errors
      ensures RingsModel(f.(errors := FS.Push(f.errors, tr.id)))
      ensures InRings() <= old(InRings()) + {tr}
    {
      AddTo(errors, tr, f.errors);
    }

    /** Identifiers tell the kept traces apart. */
    ghost predicate WellKept()
      reads this, finished, errors
    {
      && RingsValid()
      && (forall id | id in active :: active[id].id == id)
      && (forall t, u | t in Kept() && u in Kept() && t.id == u.id :: t == u)
    }

    /** The traces kept under an identifier: one or none. */
    ghost function KeptAs(id: Id): set<Trace>
      requires RingsValid()
      reads this, finished, errors
    {
      set t | t in Kept() && t.id == id
    }

    /** The trace with the given identifier, if it is still kept. */
    method Find(id: Id) returns (tr: Trace?)
      requires WellKept()
      ensures KeptAs(id) == if tr == null then {} else {tr}
    {
      if id in active {
        return active[id];
      }
      for b := 0 to N_BUCKETS
        invariant forall a, t | 0 <= a < b && t in finished[a].contents :: t.id != id
      {
        var found := FindIn(finished[b], id);
        if found != null {
          assert found in InRings();
          return found;
        }
      }
      tr := FindIn(errors, id);
    }

    lemma KeptIffFound(f: FS.Family, id: Id)
      requires Models(f)
      ensures KeptAs(id) != {} <==> FS.Found(f, id)
      ensures id in active ==> active[id] in KeptAs(id)
    {
      if id in f.active {
        assert active[id] in KeptAs(id);
      } else if b :| 0 <= b < N_BUCKETS && id in f.finished[b] {
        var k :| 0 <= k < |f.finished[b]| && f.finished[b][k] == id;
        assert Ids(finished[b].contents)[k] == id;
        assert finished[b].contents[k] in finished[b].contents;
        assert finished[b].contents[k] in KeptAs(id);
      } else if id in f.errors {
        var k :| 0 <= k < |f.errors| && f.errors[k] == id;
        assert errors.contents[k] in KeptAs(id);
      }
      if t :| t in KeptAs(id) {
        KeptIsFound(f, t);
      }
    }

    lemma KeptIsFound(f: FS.Family, t: Trace)
      requires Models(f) && t in Kept()
      ensures FS.Found(f, t.id)
    {
      if t !in active.Values {
        if b :| 0 <= b < N_BUCKETS && t in finished[b].contents {
          IdOf(finished[b].contents, t);
        } else {
          IdOf(errors.contents, t);
        }
      }
    }

    /** The traces in the rings of the buckets from `from` up to `to`. */
    ghost function Buckets(from: nat, to: nat): set<Trace>
      requires RingsValid() && to <= N_BUCKETS
      reads finished, errors
    {
      set c, t | from <= c < to && t in finished[c].contents :: t
    }

    /** The traces asked for, each once, the newest start first. */
    method TracesFor(b: int, allgt: bool, ghost f: FS.Family) returns (trs: seq<Trace>)
      requires Models(f) && FS.Consistent(f)
      requires -2 <= b
      ensures FS.NoDuplicates(trs)
      ensures b == -2 ==> forall t :: t in trs <==> t in errors.contents
      ensures b == -1 ==> forall t :: t in trs <==> t in active.Values
      ensures 0 <= b < N_BUCKETS ==>
                forall t :: t in trs <==>
                  exists c | b <= c < N_BUCKETS :: (allgt || c == b) && t in finished[c].contents
      ensures b >= N_BUCKETS ==> trs == []
      ensures forall i, j | 0 <= i < j < |trs| :: trs[i].start >= trs[j].start
    {
      trs := [];
      if b == -2 {
        trs := errors.Do();
        DistinctIds(trs);
      } else if b == -1 {
        trs := ActiveTraces(f);
      } else if b < N_BUCKETS {
        trs := FromBuckets(b, if allgt then N_BUCKETS else b + 1, f);
      }
      var sorted := Sort(trs, Newer);
      Permuted(trs, sorted);
      trs := sorted;
    }

    /** The rings of the buckets from `from` up to `to`, one after the other. */
    method FromBuckets(from: nat, to: nat, ghost f: FS.Family) returns (trs: seq<Trace>)
      requires RingsModel(f) && FS.Consistent(f)
      requires from < to <= N_BUCKETS
      ensures FS.NoDuplicates(trs)
      ensures forall t :: t in trs <==> t in Buckets(from, to)
    {
      FirstBucket(f, from);
      hide FS.Consistent, FS.NoDuplicates, FS.RingConsistent, TraceRing.Valid, Buckets;
      trs := finished[from].Do();
      for i := from + 1 to to
        invariant FS.NoDuplicates(trs)
        invariant forall t :: t in trs <==> t in Buckets(from, i)
      {
        BucketApart(f, from, i);
        BucketsNext(from, i);
        var more := finished[i].Do();
        AppendDistinct(trs, more);
        trs := trs + more;
      }
    }

    lemma FirstBucket(f: FS.Family, from: nat)
      requires RingsModel(f) && FS.Consistent(f) && from < N_BUCKETS
      ensures FS.NoDuplicates(finished[from].contents)
      ensures forall t :: t in Buckets(from, from + 1) <==> t in finished[from].contents
    {
      assert FS.RingConsistent(f, from) && Ids(finished[from].contents) == f.finished[from];
      assert FS.NoDuplicates(f.finished[from]);
      hide FS.Consistent, FS.NoDuplicates, FS.RingConsistent, TraceRing.Valid, Ids;
      DistinctIds(finished[from].contents);
    }

    /** Ranges over the map of active traces, in whatever order the map gives. */
    method ActiveTraces(ghost f: FS.Family) returns (trs: seq<Trace>)
      requires Models(f)
      ensures FS.NoDuplicates(trs)
      ensures forall t :: t in trs <==> t in active.Values
    {
      trs := [];
      var left := active.Keys;
      while left != {}
        invariant left <= active.Keys
        invariant FS.NoDuplicates(trs)
        invariant forall t :: t in trs <==> t.id in active && t.id !in left && active[t.id] == t
        decreases left
      {
        var id :| id in left;
        AppendDistinct(trs, [active[id]]);
        trs := trs + [active[id]];
        left := left - {id};
      }
    }

    lemma BucketsNext(from: nat, c: nat)
      requires RingsValid() && from <= c < N_BUCKETS
      ensures forall t :: t in Buckets(from, c + 1) <==> t in Buckets(from, c) || t in finished[c].contents
    {
    }

    /** The ring of a bucket repeats no trace and shares none with the buckets before it. */
    lemma BucketApart(f: FS.Family, from: nat, c: nat)
      requires RingsModel(f) && FS.Consistent(f) && from < c < N_BUCKETS
      ensures FS.NoDuplicates(finished[c].contents)
      ensures forall t | t in Buckets(from, c) :: t !in finished[c].contents
    {
      assert FS.RingConsistent(f, c);
      DistinctIds(finished[c].contents);
      forall a, t | from <= a < c && t in finished[a].contents ensures t !in finished[c].contents {
        assert FS.Disjoint(f.finished[a], f.finished[c]);
        SharesNone(finished[a].contents, finished[c].contents, t);
      }
    }
  }

  lemma SharesNone(s: seq<Trace>, r: seq<Trace>, t: Trace)
    requires FS.Disjoint(Ids(s), Ids(r)) && t in s
    ensures t !in r
  {
    IdOf(s, t);
    if t in r {
      IdOf(r, t);
    }
  }

  predicate Newer(a: Trace, b: Trace) {
    a.start > b.start
  }

  lemma IdOf(ts: seq<Trace>, t: Trace)
    requires t in ts
    ensures t.id in Ids(ts)
  {
    var k :| 0 <= k < |ts| && ts[k] == t;
    assert Ids(ts)[k] == t.id;
  }

  lemma DistinctIds(ts: seq<Trace>)
    requires FS.NoDuplicates(Ids(ts))
    ensures FS.NoDuplicates(ts)
  {
    forall i, j | 0 <= i < j < |ts| ensures ts[i] != ts[j] {
      assert Ids(ts)[i] != Ids(ts)[j];
    }
  }

  lemma AppendDistinct(s: seq<Trace>, t: seq<Trace>)
    requires FS.NoDuplicates(s) && FS.NoDuplicates(t) && forall x | x in s :: x !in t
    ensures FS.NoDuplicates(s + t)
  {
    forall i, j | 0 <= i < j < |s + t| ensures (s + t)[i] != (s + t)[j] {
      if i < |s| <= j {
        assert (s + t)[i] in s && t[j - |s|] in t;
      }
    }
  }

  lemma Permuted(s: seq<Trace>, r: seq<Trace>)
    requires multiset(s) == multiset(r) && FS.NoDuplicates(s)
    ensures FS.NoDuplicates(r)
    ensures forall t :: t in s <==> t in r
  {
    forall t ensures t in s <==> t in r {
      assert t in s <==> t in multiset(s);
      assert t in r <==> t in multiset(r);
    }
    forall i, j | 0 <= i < j < |r| ensures r[i] != r[j] {
      AtMostOnce(s, r[i]);
      OnceBefore(r, i, j);
    }
  }

  lemma OnceBefore(r: seq<Trace>, i: nat, j: nat)
    requires i < j < |r|
    ensures r[i] == r[j] ==> multiset(r)[r[i]] >= 2
  {
    assert r == r[..j] + (r[j..]);
    assert r[i] == r[..j][i] && r[j] == r[j..][0];
    assert r[i] in multiset(r[..j]) && r[j] in multiset(r[j..]);
  }

  lemma {:induction false} AtMostOnce(s: seq<Trace>, x: Trace)
    requires FS.NoDuplicates(s)
    ensures multiset(s)[x] <= 1
  {
    if s != [] {
      AtMostOnce(s[1..], x);
      assert s == [s[0]] + s[1..];
      if s[0] == x {
        assert x !in s[1..];
      }
    }
  }
}
