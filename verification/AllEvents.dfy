/** Gathering the events of a trace and of every trace it leads to (internal/nettrace/http.go). References
    between traces may form cycles; the set of traces already seen is what makes the walk stop. */
module AllEvents {
  import opened Common
  import opened EventRing
  import opened Traces
  import opened Sorting

  datatype TraceAndEvent = TraceAndEvent(trace: Trace, event: Event<Trace>, depth: nat)

  /** The traces marked so far, shared by all the recursive calls. */
  class SeenMap {
    var ids: set<Id>

    constructor ()
      ensures ids == {}
    {
      ids := {};
    }
  }

  // ---------- the graph of traces ----------

  /** The stored events of every trace, at one instant. */
  type Graph = map<Trace, seq<Event<Trace>>>

  ghost predicate Closed(g: Graph) {
    forall t, i | t in g && 0 <= i < |g[t]| && g[t][i].ref.Some? :: g[t][i].ref.value in g
  }

  ghost predicate UniqueIds(g: Graph) {
    forall t, u | t in g && u in g && t.id == u.id :: t == u
  }

  ghost predicate IsGraph(g: Graph) {
    Closed(g) && UniqueIds(g)
  }

  /** `g` is what the traces hold now. */
  ghost predicate IsSnapshot(g: Graph)
    reads g.Keys, set t | t in g && t.lastEvents != null :: t.lastEvents
  {
    forall t | t in g :: t.Valid() && t.Stored() == g[t]
  }

  ghost predicate Edge(g: Graph, a: Trace, b: Trace) {
    a in g && exists i | 0 <= i < |g[a]| :: g[a][i].ref == Some(b)
  }

  /** There is a chain of `n` references from `a` to `b`. */
  ghost predicate Walk(g: Graph, a: Trace, b: Trace, n: nat)
    decreases n
  {
    if n == 0 then a == b else exists m | m in g :: Edge(g, a, m) && Walk(g, m, b, n - 1)
  }

  ghost predicate Reachable(g: Graph, a: Trace, b: Trace) {
    exists n: nat :: Walk(g, a, b, n)
  }

  /** A set of traces that contains `a` and every trace its members refer to contains all that `a` reaches. */
  lemma {:induction false} ClosedSetHasWalk(g: Graph, ids: set<Id>, a: Trace, b: Trace, n: nat)
    requires a in g && a.id in ids
    requires forall t | t in g && t.id in ids :: RefsSeen(g, t, ids)
    requires Walk(g, a, b, n)
    ensures b.id in ids
    decreases n
  {
    if n > 0 {
      var m :| m in g && Edge(g, a, m) && Walk(g, m, b, n - 1);
      ClosedSetHasWalk(g, ids, m, b, n - 1);
    }
  }

  // ---------- what one call adds ----------

  /** The events listed for trace `t`, in the order they are listed. */
  ghost function EventsOf(es: seq<TraceAndEvent>, t: Trace): seq<Event<Trace>> {
    if es == [] then []
    else Own(es[0], t) + EventsOf(es[1..], t)
  }

  ghost function Own(x: TraceAndEvent, t: Trace): seq<Event<Trace>> {
    if x.trace == t then [x.event] else []
  }

  lemma EventsOfCons(x: TraceAndEvent, rest: seq<TraceAndEvent>, t: Trace)
    ensures EventsOf([x] + rest, t) == Own(x, t) + EventsOf(rest, t)
  {
    assert ([x] + rest)[1..] == rest;
  }

  lemma Associative<T>(a: seq<T>, b: seq<T>, c: seq<T>)
    ensures (a + b) + c == a + (b + c)
  {
  }

  lemma {:induction false} EventsOfConcat(a: seq<TraceAndEvent>, b: seq<TraceAndEvent>, t: Trace)
    ensures EventsOf(a + b, t) == EventsOf(a, t) + EventsOf(b, t)
  {
    if a == [] {
      assert a + b == b;
    } else {
      hide EventsOf, Own;
      var rest := a[1..];
      EventsOfConcat(rest, b, t);
      EventsOfCons(a[0], rest, t);
      EventsOfCons(a[0], rest + b, t);
      assert a == [a[0]] + rest;
      Associative([a[0]], rest, b);
      Associative(Own(a[0], t), EventsOf(rest, t), EventsOf(b, t));
    }
  }

  lemma {:induction false} EventsOfAbsent(es: seq<TraceAndEvent>, t: Trace)
    requires forall x | x in es :: x.trace != t
    ensures EventsOf(es, t) == []
  {
    if es != [] {
      EventsOfAbsent(es[1..], t);
    }
  }

  /** Moving one entry to the front keeps the multiset of the events. */
  lemma EventsOfMoved(b: seq<TraceAndEvent>, k: nat, t: Trace)
    requires k < |b|
    ensures multiset(EventsOf(b, t)) == multiset(Own(b[k], t)) + multiset(EventsOf(b[..k] + b[k + 1..], t))
  {
    assert b == b[..k] + ([b[k]] + b[k + 1..]);
    EventsOfConcat(b[..k], [b[k]] + b[k + 1..], t);
    EventsOfCons(b[k], b[k + 1..], t);
    EventsOfConcat(b[..k], b[k + 1..], t);
  }

  lemma RemoveOne<T>(a: seq<T>, b: seq<T>, k: nat)
    requires a != [] && k < |b| && b[k] == a[0] && multiset(a) == multiset(b)
    ensures multiset(a[1..]) == multiset(b[..k] + b[k + 1..])
  {
    assert a == [a[0]] + a[1..];
    assert b == b[..k] + ([b[k]] + b[k + 1..]);
    assert multiset(a[1..]) == multiset(a) - multiset{a[0]};
    assert multiset(b[..k] + b[k + 1..]) == multiset(b) - multiset{b[k]};
  }

  lemma {:induction false} EventsOfPermuted(a: seq<TraceAndEvent>, b: seq<TraceAndEvent>, t: Trace)
    requires multiset(a) == multiset(b)
    ensures multiset(EventsOf(a, t)) == multiset(EventsOf(b, t))
  {
    if a == [] {
      assert |multiset(b)| == 0;
    } else {
      hide EventsOf, Own;
      assert a[0] in multiset(b);
      var k :| 0 <= k < |b| && b[k] == a[0];
      RemoveOne(a, b, k);
      EventsOfPermuted(a[1..], b[..k] + b[k + 1..], t);
      EventsOfMoved(b, k, t);
      EventsOfCons(a[0], a[1..], t);
      assert a == [a[0]] + a[1..];
    }
  }

  /** Each trace marked since `before` is listed once, with all its events in order; no other trace is. */
  ghost predicate ListsOnce(g: Graph, before: set<Id>, after: set<Id>, es: seq<TraceAndEvent>) {
    forall t {:trigger EventsOf(es, t)} | t in g :: EventsOf(es, t) == if t.id in after - before then g[t] else []
  }

  /** The depth of every entry is the length of a chain of references from `from`, below `depth`. */
  ghost predicate DepthsAreWalks(g: Graph, from: Trace, depth: nat, es: seq<TraceAndEvent>) {
    forall x | x in es :: x.trace in g && depth <= x.depth && Walk(g, from, x.trace, x.depth - depth)
  }

  ghost predicate OfMarked(before: set<Id>, after: set<Id>, es: seq<TraceAndEvent>) {
    forall x | x in es :: x.trace.id in after - before
  }

  ghost predicate OneDepthPerTrace(es: seq<TraceAndEvent>) {
    forall x, y | x in es && y in es && x.trace == y.trace :: x.depth == y.depth
  }

  ghost predicate MarksReached(g: Graph, from: Trace, before: set<Id>, after: set<Id>) {
    && before <= after
    && forall t {:trigger Reachable(g, from, t)} | t in g && t.id in after - before :: Reachable(g, from, t)
  }

  /** All that the entries `es`, gathered from `from`, promise about the traces marked between `before` and
      `after`. */
  ghost predicate Gathers(g: Graph, from: Trace, depth: nat, before: set<Id>, after: set<Id>,
                          es: seq<TraceAndEvent>)
  {
    && MarksReached(g, from, before, after)
    && ListsOnce(g, before, after, es)
    && OfMarked(before, after, es)
    && DepthsAreWalks(g, from, depth, es)
    && OneDepthPerTrace(es)
  }

  lemma ReachableVia(g: Graph, a: Trace, m: Trace, b: Trace)
    requires m in g && Edge(g, a, m) && Reachable(g, m, b)
    ensures Reachable(g, a, b)
  {
    var n: nat :| Walk(g, m, b, n);
    assert Walk(g, a, b, n + 1);
  }

  lemma MarksReachedThen(g: Graph, from: Trace, sub: Trace, before: set<Id>, mid: set<Id>, after: set<Id>)
    requires Edge(g, from, sub) && sub in g
    requires MarksReached(g, from, before, mid) && MarksReached(g, sub, mid, after)
    ensures MarksReached(g, from, before, after)
  {
    forall t | t in g && t.id in after - before ensures Reachable(g, from, t) {
      if t.id !in mid {
        ReachableVia(g, from, sub, t);
      }
    }
  }

  lemma ListsOnceThen(g: Graph, before: set<Id>, mid: set<Id>, after: set<Id>,
                      first: seq<TraceAndEvent>, second: seq<TraceAndEvent>)
    requires before <= mid <= after
    requires ListsOnce(g, before, mid, first) && ListsOnce(g, mid, after, second)
    ensures ListsOnce(g, before, after, first + second)
  {
    forall t | t in g ensures EventsOf(first + second, t) == if t.id in after - before then g[t] else [] {
      EventsOfConcat(first, second, t);
    }
  }

  lemma DepthsAreWalksThen(g: Graph, from: Trace, sub: Trace, depth: nat,
                           first: seq<TraceAndEvent>, second: seq<TraceAndEvent>)
    requires Edge(g, from, sub) && sub in g
    requires DepthsAreWalks(g, from, depth, first) && DepthsAreWalks(g, sub, depth + 1, second)
    ensures DepthsAreWalks(g, from, depth, first + second)
  {
    forall x | x in first + second
      ensures x.trace in g && depth <= x.depth && Walk(g, from, x.trace, x.depth - depth)
    {
      if x !in first {
        assert x in second;
        assert Walk(g, sub, x.trace, x.depth - (depth + 1));
      }
    }
  }

  /** What a referenced trace gathers one level down continues what was gathered before it. */
  lemma GathersThen(g: Graph, from: Trace, sub: Trace, depth: nat, before: set<Id>, mid: set<Id>, after: set<Id>,
                    first: seq<TraceAndEvent>, second: seq<TraceAndEvent>)
    requires Edge(g, from, sub) && sub in g
    requires Gathers(g, from, depth, before, mid, first)
    requires Gathers(g, sub, depth + 1, mid, after, second)
    ensures Gathers(g, from, depth, before, after, first + second)
  {
    MarksReachedThen(g, from, sub, before, mid, after);
    ListsOnceThen(g, before, mid, after, first, second);
    DepthsAreWalksThen(g, from, sub, depth, first, second);
  }

  /** The first `n` events of one trace, each an entry at the given depth. */
  ghost function Entries(tr: Trace, evts: seq<Event<Trace>>, depth: nat, n: nat): seq<TraceAndEvent>
    requires n <= |evts|
  {
    if n == 0 then [] else Entries(tr, evts, depth, n - 1) + [TraceAndEvent(tr, evts[n - 1], depth)]
  }

  lemma {:induction false} EntriesListed(tr: Trace, evts: seq<Event<Trace>>, depth: nat, n: nat)
    requires n <= |evts|
    ensures EventsOf(Entries(tr, evts, depth, n), tr) == evts[..n]
    ensures forall x | x in Entries(tr, evts, depth, n) :: x.trace == tr && x.depth == depth
  {
    if n > 0 {
      var last := TraceAndEvent(tr, evts[n - 1], depth);
      EntriesListed(tr, evts, depth, n - 1);
      EventsOfConcat(Entries(tr, evts, depth, n - 1), [last], tr);
      assert [last] + [] == [last];
      EventsOfCons(last, [], tr);
      assert evts[..n] == evts[..n - 1] + [evts[n - 1]];
    }
  }

  /** A trace's own events, listed at the depth of the call. */
  lemma GathersOwn(g: Graph, tr: Trace, depth: nat, before: set<Id>)
    requires IsGraph(g) && tr in g && tr.id !in before
    ensures Gathers(g, tr, depth, before, before + {tr.id}, Entries(tr, g[tr], depth, |g[tr]|))
  {
    var es := Entries(tr, g[tr], depth, |g[tr]|);
    EntriesListed(tr, g[tr], depth, |g[tr]|);
    assert g[tr][..|g[tr]|] == g[tr];
    forall t | t in g && t != tr ensures EventsOf(es, t) == [] {
      EventsOfAbsent(es, t);
    }
    assert Walk(g, tr, tr, 0);
  }

  /** Nothing new is marked, nothing is listed. */
  lemma GathersNothing(g: Graph, tr: Trace, depth: nat, ids: set<Id>)
    ensures Gathers(g, tr, depth, ids, ids, [])
  {
  }

  // ---------- the walk ----------

  ghost function Unseen(g: Graph, ids: set<Id>): set<Trace> {
    set t | t in g && t.id !in ids
  }

  /** All the traces that `t` refers to are marked. */
  ghost predicate RefsSeen(g: Graph, t: Trace, ids: set<Id>) {
    forall u {:trigger Edge(g, t, u)} | u in g && Edge(g, t, u) :: u.id in ids
  }

  /** Every trace marked since `before`, other than those in `open`, has all its references marked. */
  ghost predicate Explored(g: Graph, before: set<Id>, ids: set<Id>, open: set<Trace>) {
    forall t {:trigger RefsSeen(g, t, ids)} | t in g && t.id in ids - before && t !in open :: RefsSeen(g, t, ids)
  }

  lemma ExploredThen(g: Graph, before: set<Id>, mid: set<Id>, after: set<Id>, open: set<Trace>)
    requires before <= mid <= after
    requires Explored(g, before, mid, open) && Explored(g, mid, after, {})
    ensures Explored(g, before, after, open)
  {
    forall t | t in g && t.id in after - before && t !in open ensures RefsSeen(g, t, after) {
      assert RefsSeen(g, t, mid) || RefsSeen(g, t, after);
    }
  }

  ghost predicate AllMarked(ts: seq<Trace>, ids: set<Id>) {
    forall k | 0 <= k < |ts| :: ts[k].id in ids
  }

  lemma AllMarkedThen(ts: seq<Trace>, i: nat, mid: set<Id>, after: set<Id>)
    requires i < |ts| && mid <= after
    requires AllMarked(ts[..i], mid) && ts[i].id in after
    ensures AllMarked(ts[..i + 1], after)
  {
    assert ts[..i + 1] == ts[..i] + [ts[i]];
  }

  /** Where the second loop stands once it has visited the traces `visited`, all referenced by `tr`. */
  ghost predicate Progress(g: Graph, tr: Trace, depth: nat, before: set<Id>, ids: set<Id>,
                           es: seq<TraceAndEvent>, visited: seq<Trace>)
  {
    && tr.id in ids
    && Gathers(g, tr, depth, before, ids, es)
    && Explored(g, before, ids, {tr})
    && AllMarked(visited, ids)
  }

  lemma ProgressThen(g: Graph, tr: Trace, depth: nat, before: set<Id>, mid: set<Id>, after: set<Id>,
                     es: seq<TraceAndEvent>, sub: seq<TraceAndEvent>, refs: seq<Trace>, i: nat)
    requires i < |refs| && refs[i] in g && Edge(g, tr, refs[i])
    requires Progress(g, tr, depth, before, mid, es, refs[..i])
    requires Gathers(g, refs[i], depth + 1, mid, after, sub) && refs[i].id in after && Explored(g, mid, after, {})
    ensures Progress(g, tr, depth, before, after, es + sub, refs[..i + 1])
    ensures mid <= after
  {
    GathersThen(g, tr, refs[i], depth, before, mid, after, es, sub);
    ExploredThen(g, before, mid, after, {tr});
    AllMarkedThen(refs, i, mid, after);
  }

  lemma ProgressDone(g: Graph, tr: Trace, depth: nat, before: set<Id>, ids: set<Id>,
                     es: seq<TraceAndEvent>, refs: seq<Trace>)
    requires Progress(g, tr, depth, before, ids, es, refs)
    requires forall u | u in g && Edge(g, tr, u) :: u in refs
    ensures tr.id in ids
    ensures Gathers(g, tr, depth, before, ids, es)
    ensures Explored(g, before, ids, {})
  {
    assert RefsSeen(g, tr, ids);
    forall t | t in g && t.id in ids - before ensures RefsSeen(g, t, ids) {
      assert t == tr || RefsSeen(g, t, ids);
    }
  }

  /** Appends to `evts` the entries `es` of every unseen trace that `tr` leads to. */
  method AppendAllEvents(tr: Trace, evts: seq<TraceAndEvent>, seen: SeenMap, depth: nat, ghost g: Graph)
    returns (r: seq<TraceAndEvent>, ghost es: seq<TraceAndEvent>)
    requires IsGraph(g) && IsSnapshot(g) && tr in g
    modifies seen
    ensures r == evts + es
    ensures Gathers(g, tr, depth, old(seen.ids), seen.ids, es)
    ensures tr.id in seen.ids
    ensures Explored(g, old(seen.ids), seen.ids, {})
    decreases Unseen(g, seen.ids), 0
  {
    if tr.id in seen.ids {
      r, es := evts, [];
      GathersNothing(g, tr, depth, seen.ids);
      return;
    }
    seen.ids := seen.ids + {tr.id};

    var subTraces: seq<Trace>;
    r, subTraces, es := AppendOwn(tr, evts, depth, g, old(seen.ids));
    assert tr in old(Unseen(g, seen.ids));

    r, es := AppendReferenced(tr, r, seen, depth, g, subTraces, old(seen.ids), evts, es);
  }

  /** The second loop: visits the traces `tr` refers to, one level down. `own` is what the first loop listed. */
  method AppendReferenced(tr: Trace, evts: seq<TraceAndEvent>, seen: SeenMap, depth: nat, ghost g: Graph,
                          subTraces: seq<Trace>, ghost before: set<Id>,
                          ghost base: seq<TraceAndEvent>, ghost own: seq<TraceAndEvent>)
    returns (r: seq<TraceAndEvent>, ghost es: seq<TraceAndEvent>)
    requires IsGraph(g) && IsSnapshot(g) && tr in g
    requires forall k | 0 <= k < |subTraces| :: subTraces[k] in g && Edge(g, tr, subTraces[k])
    requires forall u | u in g && Edge(g, tr, u) :: u in subTraces
    requires evts == base + own
    requires Progress(g, tr, depth, before, seen.ids, own, [])
    modifies seen
    ensures r == base + es
    ensures Gathers(g, tr, depth, before, seen.ids, es)
    ensures tr.id in seen.ids
    ensures Explored(g, before, seen.ids, {})
    decreases Unseen(g, seen.ids), 2
  {
    hide *;
    r, es := evts, own;
    for i := 0 to |subTraces|
      invariant IsSnapshot(g)
      invariant old(seen.ids) <= seen.ids
      invariant r == base + es
      invariant Progress(g, tr, depth, before, seen.ids, es, subTraces[..i])
    {
      UnseenShrinks(g, old(seen.ids), seen.ids);
      r, es := VisitReferenced(tr, r, seen, depth, g, subTraces, i, before, base, es);
    }
    assert subTraces[..|subTraces|] == subTraces;
    ProgressDone(g, tr, depth, before, seen.ids, es, subTraces);
  }

  /** One round of the second loop. */
  method VisitReferenced(tr: Trace, evts: seq<TraceAndEvent>, seen: SeenMap, depth: nat, ghost g: Graph,
                         subTraces: seq<Trace>, i: nat, ghost before: set<Id>,
                         ghost base: seq<TraceAndEvent>, ghost es: seq<TraceAndEvent>)
    returns (r: seq<TraceAndEvent>, ghost es': seq<TraceAndEvent>)
    requires IsGraph(g) && IsSnapshot(g) && i < |subTraces|
    requires subTraces[i] in g && Edge(g, tr, subTraces[i])
    requires evts == base + es
    requires Progress(g, tr, depth, before, seen.ids, es, subTraces[..i])
    modifies seen
    ensures old(seen.ids) <= seen.ids
    ensures r == base + es'
    ensures Progress(g, tr, depth, before, seen.ids, es', subTraces[..i + 1])
    decreases Unseen(g, seen.ids), 1
  {
    hide *;
    ghost var sub;
    r, sub := AppendAllEvents(subTraces[i], evts, seen, depth + 1, g);
    ProgressThen(g, tr, depth, before, old(seen.ids), seen.ids, es, sub, subTraces, i);
    es' := es + sub;
    Associative(base, es, sub);
  }

  lemma UnseenShrinks(g: Graph, ids: set<Id>, more: set<Id>)
    requires ids <= more
    ensures Unseen(g, more) <= Unseen(g, ids)
  {
  }

  /** The first loop: lists the events of `tr` itself and collects the traces they refer to. */
  method AppendOwn(tr: Trace, evts: seq<TraceAndEvent>, depth: nat, ghost g: Graph, ghost before: set<Id>)
    returns (r: seq<TraceAndEvent>, subTraces: seq<Trace>, ghost es: seq<TraceAndEvent>)
    requires IsGraph(g) && IsSnapshot(g) && tr in g && tr.id !in before
    ensures r == evts + es
    ensures Gathers(g, tr, depth, before, before + {tr.id}, es)
    ensures forall k | 0 <= k < |subTraces| :: subTraces[k] in g && Edge(g, tr, subTraces[k])
    ensures forall u | u in g && Edge(g, tr, u) :: u in subTraces
  {
    var trevts := tr.Events();
    assert trevts == g[tr];
    assert Entries(tr, trevts, depth, 0) == [] && RefsOf(trevts, 0) == [];
    hide *;
    r, subTraces, es := evts, [], [];
    for i := 0 to |trevts|
      invariant r == evts + es
      invariant es == Entries(tr, trevts, depth, i)
      invariant subTraces == RefsOf(trevts, i)
    {
      OneMoreEvent(tr, trevts, depth, i);
      Associative(evts, es, [TraceAndEvent(tr, trevts[i], depth)]);
      r := r + [TraceAndEvent(tr, trevts[i], depth)];
      es := es + [TraceAndEvent(tr, trevts[i], depth)];
      if trevts[i].ref.Some? {
        subTraces := subTraces + [trevts[i].ref.value];
      }
    }
    GathersOwn(g, tr, depth, before);
    RefsAreEdges(g, tr);
  }

  lemma OneMoreEvent(tr: Trace, evts: seq<Event<Trace>>, depth: nat, n: nat)
    requires n < |evts|
    ensures Entries(tr, evts, depth, n + 1) == Entries(tr, evts, depth, n) + [TraceAndEvent(tr, evts[n], depth)]
    ensures RefsOf(evts, n + 1) ==
            if evts[n].ref.Some? then RefsOf(evts, n) + [evts[n].ref.value] else RefsOf(evts, n)
  {
  }

  /** The traces that the first `n` events refer to, in order. */
  ghost function RefsOf(evts: seq<Event<Trace>>, n: nat): seq<Trace>
    requires n <= |evts|
  {
    if n == 0 then []
    else if evts[n - 1].ref.Some? then RefsOf(evts, n - 1) + [evts[n - 1].ref.value]
    else RefsOf(evts, n - 1)
  }

  lemma {:induction false} RefsOfMembers(evts: seq<Event<Trace>>, n: nat, u: Trace)
    requires n <= |evts|
    ensures u in RefsOf(evts, n) <==> exists k | 0 <= k < n :: evts[k].ref == Some(u)
  {
    if n > 0 {
      RefsOfMembers(evts, n - 1, u);
      if evts[n - 1].ref == Some(u) {
        assert RefsOf(evts, n)[|RefsOf(evts, n - 1)|] == u;
      }
    }
  }

  lemma RefsAreEdges(g: Graph, tr: Trace)
    requires IsGraph(g) && tr in g
    ensures var refs := RefsOf(g[tr], |g[tr]|);
            && (forall k | 0 <= k < |refs| :: refs[k] in g && Edge(g, tr, refs[k]))
            && (forall u | u in g && Edge(g, tr, u) :: u in refs)
  {
    var refs := RefsOf(g[tr], |g[tr]|);
    forall k | 0 <= k < |refs| ensures refs[k] in g && Edge(g, tr, refs[k]) {
      RefsOfMembers(g[tr], |g[tr]|, refs[k]);
    }
    forall u | u in g && Edge(g, tr, u) ensures u in refs {
      RefsOfMembers(g[tr], |g[tr]|, u);
    }
  }

  // ---------- the result ----------

  predicate Before(a: TraceAndEvent, b: TraceAndEvent) {
    a.event.when < b.event.when
  }

  /** All the events of the traces that `tr` leads to, sorted by time: every trace reachable through references
      contributes its events exactly once, no other trace contributes any, and each trace is shown at one depth,
      which is the length of a chain of references from `tr`. */
  method AllEvents(tr: Trace, ghost g: Graph) returns (evts: seq<TraceAndEvent>)
    requires IsGraph(g) && IsSnapshot(g) && tr in g
    ensures forall i, j | 0 <= i < j < |evts| :: evts[i].event.when <= evts[j].event.when
    ensures forall t {:trigger EventsOf(evts, t)} | t in g && Reachable(g, tr, t) ::
              multiset(EventsOf(evts, t)) == multiset(g[t])
    ensures forall t {:trigger EventsOf(evts, t)} | t in g && !Reachable(g, tr, t) ::
              multiset(EventsOf(evts, t)) == multiset{}
    ensures DepthsAreWalks(g, tr, 0, evts)
    ensures OneDepthPerTrace(evts)
  {
    var seen := new SeenMap();
    ghost var es;
    var all: seq<TraceAndEvent>;
    all, es := AppendAllEvents(tr, [], seen, 0, g);
    assert all == es;
    evts := Sort(all, Before);
    MarkedIffReachable(g, tr, seen.ids);
    ListedAfterSort(all, evts, g, tr, seen.ids);
  }

  /** Sorting changes the order of the entries and nothing else. */
  lemma ListedAfterSort(all: seq<TraceAndEvent>, evts: seq<TraceAndEvent>, g: Graph, tr: Trace, ids: set<Id>)
    requires multiset(evts) == multiset(all)
    requires Gathers(g, tr, 0, {}, ids, all)
    ensures forall t {:trigger EventsOf(evts, t)} | t in g ::
              multiset(EventsOf(evts, t)) == multiset(if t.id in ids then g[t] else [])
    ensures DepthsAreWalks(g, tr, 0, evts)
    ensures OneDepthPerTrace(evts)
  {
    forall t | t in g ensures multiset(EventsOf(evts, t)) == multiset(if t.id in ids then g[t] else []) {
      EventsOfPermuted(evts, all, t);
    }
    forall x | x in evts ensures x in all {
      assert x in multiset(evts);
    }
  }

  /** The walk from `tr` marks exactly the traces `tr` reaches. */
  lemma MarkedIffReachable(g: Graph, tr: Trace, ids: set<Id>)
    requires tr in g && tr.id in ids
    requires MarksReached(g, tr, {}, ids)
    requires Explored(g, {}, ids, {})
    ensures forall t | t in g :: t.id in ids <==> Reachable(g, tr, t)
  {
    forall t | t in g && Reachable(g, tr, t) ensures t.id in ids {
      var n: nat :| Walk(g, tr, t, n);
      assert forall u | u in g && u.id in ids :: RefsSeen(g, u, ids);
      ClosedSetHasWalk(g, ids, tr, t, n);
    }
  }
}
