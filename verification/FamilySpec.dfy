/** The traces kept for one family, as values: what is active, what each ring of finished traces still holds, and
    which finished traces can still be found after any run of creations and finishes. */
module FamilySpec {
  import opened Common
  import opened EventRing
  import opened Histogram

  const TRACES_IN_BUCKET: nat := 10

  datatype Family = Family(active: set<Id>, finished: seq<seq<Id>>, errors: seq<Id>, samples: seq<Sample>)

  /** `bucket` is the bucket of `latency`. */
  datatype Op = Create(id: Id) | Finish(id: Id, latency: nat, bucket: nat, isError: bool)

  const EMPTY: Family := Family({}, [[], [], [], [], [], [], [], []], [], [])

  ghost predicate IsOp(op: Op) {
    op.Finish? ==> op.latency < TWO_63 && InBucket(op.latency, op.bucket)
  }

  /** A full ring forgets its oldest trace. */
  function Push(ring: seq<Id>, id: Id): seq<Id> {
    Last(ring + [id], TRACES_IN_BUCKET)
  }

  /** One locked region of the source: registering a new trace, or `finalize`. */
  function Step(f: Family, op: Op): Family
    requires |f.finished| == N_BUCKETS
    requires op.Finish? ==> op.bucket < N_BUCKETS
  {
    match op
    case Create(id) => f.(active := f.active + {id})
    case Finish(id, latency, b, isError) =>
      Family(f.active - {id},
             f.finished[b := Push(f.finished[b], id)],
             if isError then Push(f.errors, id) else f.errors,
             f.samples + [Sample(b, latency)])
  }

  ghost predicate AreOps(ops: seq<Op>) {
    forall k | 0 <= k < |ops| :: IsOp(ops[k])
  }

  ghost function Run(ops: seq<Op>): (f: Family)
    requires AreOps(ops)
    ensures |f.finished| == N_BUCKETS
  {
    if ops == [] then EMPTY else Step(Run(ops[..|ops| - 1]), ops[|ops| - 1])
  }

  // ---------- retention ----------

  ghost predicate Found(f: Family, id: Id) {
    || id in f.active
    || (exists b | 0 <= b < |f.finished| :: id in f.finished[b])
    || id in f.errors
  }

  /** The rings of a family. */
  datatype Ring = OfBucket(b: nat) | OfErrors

  /** The operation puts its trace in the ring. */
  predicate Fills(ring: Ring, op: Op) {
    op.Finish? && match ring case OfBucket(b) => op.bucket == b case OfErrors => op.isError
  }

  /** The traces ever put in the ring, in order. */
  ghost function Put(ops: seq<Op>, ring: Ring): seq<Id> {
    if ops == [] then [] else
      Put(ops[..|ops| - 1], ring) + if Fills(ring, ops[|ops| - 1]) then [ops[|ops| - 1].id] else []
  }

  lemma LastOfLast<T>(s: seq<T>, x: T, n: nat)
    requires 0 < n
    ensures Last(Last(s, n) + [x], n) == Last(s + [x], n)
    ensures Last(s + [x], n) == Last(s, n - 1) + [x]
  {
  }

  /** A ring holds the newest ten of all the traces that were ever put in it. */
  lemma {:induction false} RingsHoldNewest(ops: seq<Op>)
    requires AreOps(ops)
    ensures forall b: nat | b < N_BUCKETS ::
              Run(ops).finished[b] == Last(Put(ops, OfBucket(b)), TRACES_IN_BUCKET)
    ensures Run(ops).errors == Last(Put(ops, OfErrors), TRACES_IN_BUCKET)
  {
    if ops != [] {
      var before, last := ops[..|ops| - 1], ops[|ops| - 1];
      RingsHoldNewest(before);
      forall b: nat | b < N_BUCKETS
        ensures Run(ops).finished[b] == Last(Put(ops, OfBucket(b)), TRACES_IN_BUCKET)
      {
        LastOfLast(Put(before, OfBucket(b)), last.id, TRACES_IN_BUCKET);
      }
      LastOfLast(Put(before, OfErrors), last.id, TRACES_IN_BUCKET);
    }
  }

  /** Operation `k` put `id` in the ring, and fewer than `n` traces were put in it later. */
  ghost predicate NewestAt(ops: seq<Op>, ring: Ring, id: Id, n: nat, k: nat) {
    k < |ops| && Fills(ring, ops[k]) && ops[k].id == id && |Put(ops[k + 1..], ring)| < n
  }

  ghost predicate AmongNewest(ops: seq<Op>, ring: Ring, id: Id, n: nat) {
    exists k: nat :: NewestAt(ops, ring, id, n, k)
  }

  lemma NewestAtAppend(ops: seq<Op>, op: Op, ring: Ring, id: Id, n: nat, k: nat)
    requires k < |ops|
    ensures NewestAt(ops + [op], ring, id, n, k) <==>
            if Fills(ring, op) then n > 0 && NewestAt(ops, ring, id, n - 1, k) else NewestAt(ops, ring, id, n, k)
  {
    var all := ops + [op];
    assert all[k + 1..] == ops[k + 1..] + [op];
    assert all[k + 1..][..|ops[k + 1..]|] == ops[k + 1..];
    assert all[k] == ops[k];
  }

  lemma {:induction false} AmongNewestAppend(ops: seq<Op>, op: Op, ring: Ring, id: Id, n: nat)
    ensures AmongNewest(ops + [op], ring, id, n) <==>
            if Fills(ring, op) then n > 0 && (op.id == id || AmongNewest(ops, ring, id, n - 1))
            else AmongNewest(ops, ring, id, n)
  {
    var m := if Fills(ring, op) && n > 0 then n - 1 else n;
    assert (ops + [op])[|ops| + 1..] == [];
    assert NewestAt(ops + [op], ring, id, n, |ops|) <==> Fills(ring, op) && op.id == id && n > 0;
    if k: nat :| NewestAt(ops + [op], ring, id, n, k) {
      if k < |ops| {
        NewestAtAppend(ops, op, ring, id, n, k);
      }
    }
    if k: nat :| NewestAt(ops, ring, id, m, k) {
      NewestAtAppend(ops, op, ring, id, n, k);
    }
  }

  lemma InAppend<T>(s: seq<T>, x: T, y: T)
    ensures y in s + [x] <==> y in s || y == x
  {
  }

  lemma PutAppend(ops: seq<Op>, op: Op, ring: Ring)
    ensures Put(ops + [op], ring) == if Fills(ring, op) then Put(ops, ring) + [op.id] else Put(ops, ring)
  {
    assert (ops + [op])[..|ops|] == ops;
  }

  lemma NoneAreNewest(ops: seq<Op>, ring: Ring, id: Id, n: nat)
    requires ops == [] || n == 0
    ensures Last(Put(ops, ring), n) == [] && !AmongNewest(ops, ring, id, n)
  {
  }

  lemma {:induction false} NewestAreLast(ops: seq<Op>, ring: Ring, id: Id, n: nat)
    ensures id in Last(Put(ops, ring), n) <==> AmongNewest(ops, ring, id, n)
  {
    hide *;
    if ops == [] || n == 0 {
      NoneAreNewest(ops, ring, id, n);
    } else {
      var before, last := ops[..|ops| - 1], ops[|ops| - 1];
      assert ops == before + [last];
      AmongNewestAppend(before, last, ring, id, n);
      PutAppend(before, last, ring);
      if Fills(ring, last) {
        LastOfLast(Put(before, ring), last.id, n);
        InAppend(Last(Put(before, ring), n - 1), last.id, id);
        NewestAreLast(before, ring, id, n - 1);
      } else {
        NewestAreLast(before, ring, id, n);
      }
    }
  }

  /** Operation `k` created `id`, and no later one finished it. */
  ghost predicate ActiveSince(ops: seq<Op>, id: Id, k: nat) {
    k < |ops| && ops[k] == Create(id) && forall j | k < j < |ops| :: !(ops[j].Finish? && ops[j].id == id)
  }

  ghost predicate IsActive(ops: seq<Op>, id: Id) {
    exists k: nat :: ActiveSince(ops, id, k)
  }

  lemma ActiveSinceAppend(ops: seq<Op>, op: Op, id: Id, k: nat)
    requires k < |ops|
    ensures ActiveSince(ops + [op], id, k) <==> ActiveSince(ops, id, k) && !(op.Finish? && op.id == id)
  {
    var all := ops + [op];
    assert forall j | 0 <= j < |ops| :: all[j] == ops[j];
    assert all[|ops|] == op;
  }

  lemma IsActiveAppend(ops: seq<Op>, op: Op, id: Id)
    ensures IsActive(ops + [op], id) <==> op == Create(id) || (IsActive(ops, id) && !(op.Finish? && op.id == id))
  {
    assert ActiveSince(ops + [op], id, |ops|) <==> op == Create(id);
    if k: nat :| ActiveSince(ops + [op], id, k) {
      if k < |ops| {
        ActiveSinceAppend(ops, op, id, k);
      }
    }
    if k: nat :| ActiveSince(ops, id, k) {
      ActiveSinceAppend(ops, op, id, k);
    }
  }

  lemma {:induction false} ActiveMeansUnfinished(ops: seq<Op>, id: Id)
    requires AreOps(ops)
    ensures id in Run(ops).active <==> IsActive(ops, id)
  {
    if ops != [] {
      var before, last := ops[..|ops| - 1], ops[|ops| - 1];
      assert ops == before + [last];
      ActiveMeansUnfinished(before, id);
      IsActiveAppend(before, last, id);
    }
  }

  /** The traces finished at `k` and still among the ten newest of their bucket, or of the errors. */
  ghost predicate StillKept(ops: seq<Op>, k: nat)
    requires k < |ops| && ops[k].Finish?
  {
    || |Put(ops[k + 1..], OfBucket(ops[k].bucket))| < 10
    || (ops[k].isError && |Put(ops[k + 1..], OfErrors)| < 10)
  }

  /** The trace was created and has not finished; or it finished and fewer than ten traces finished after it in its
      latency bucket; or it failed and fewer than ten traces that failed finished after it. */
  ghost predicate Retains(ops: seq<Op>, id: Id) {
    || IsActive(ops, id)
    || exists k | 0 <= k < |ops| :: ops[k].Finish? && ops[k].id == id && StillKept(ops, k)
  }

  /** After any run, exactly those traces can be found. */
  lemma {:induction false} Retention(ops: seq<Op>, id: Id)
    requires AreOps(ops)
    ensures Found(Run(ops), id) <==> Retains(ops, id)
  {
    var f := Run(ops);
    ActiveMeansUnfinished(ops, id);
    RingsHoldNewest(ops);
    forall b: nat | b < N_BUCKETS
      ensures id in f.finished[b] <==> AmongNewest(ops, OfBucket(b), id, TRACES_IN_BUCKET)
    {
      NewestAreLast(ops, OfBucket(b), id, TRACES_IN_BUCKET);
    }
    NewestAreLast(ops, OfErrors, id, TRACES_IN_BUCKET);
    if k :| 0 <= k < |ops| && ops[k].Finish? && ops[k].id == id && StillKept(ops, k) {
      KeptIsFound(ops, k);
    }
    if b: nat :| b < N_BUCKETS && id in f.finished[b] {
      var k: nat :| NewestAt(ops, OfBucket(b), id, TRACES_IN_BUCKET, k);
      assert StillKept(ops, k);
    }
    if id in f.errors {
      var k: nat :| NewestAt(ops, OfErrors, id, TRACES_IN_BUCKET, k);
      assert StillKept(ops, k);
    }
  }

  lemma KeptIsFound(ops: seq<Op>, k: nat)
    requires AreOps(ops) && k < |ops| && ops[k].Finish? && StillKept(ops, k)
    ensures Found(Run(ops), ops[k].id)
  {
    var id, b := ops[k].id, ops[k].bucket;
    assert IsOp(ops[k]);
    RingsHoldNewest(ops);
    if |Put(ops[k + 1..], OfBucket(b))| < TRACES_IN_BUCKET {
      assert NewestAt(ops, OfBucket(b), id, TRACES_IN_BUCKET, k);
      NewestAreLast(ops, OfBucket(b), id, TRACES_IN_BUCKET);
      assert id in Run(ops).finished[b];
    } else {
      assert NewestAt(ops, OfErrors, id, TRACES_IN_BUCKET, k);
      NewestAreLast(ops, OfErrors, id, TRACES_IN_BUCKET);
    }
  }

  // ---------- what the histogram is given ----------

  /** The finishes, in order. */
  function Finishes(ops: seq<Op>): seq<Op> {
    if ops == [] then []
    else Finishes(ops[..|ops| - 1]) + if ops[|ops| - 1].Finish? then [ops[|ops| - 1]] else []
  }

  /** The histogram has one sample for every finish, in order, with its bucket and its latency. */
  lemma {:induction false} SamplesAreFinishes(ops: seq<Op>)
    requires AreOps(ops)
    ensures |Run(ops).samples| == |Finishes(ops)|
    ensures forall i | 0 <= i < |Finishes(ops)| ::
              && Finishes(ops)[i].Finish?
              && Run(ops).samples[i].bucket == Finishes(ops)[i].bucket
              && Run(ops).samples[i].latency == Finishes(ops)[i].latency
  {
    if ops != [] {
      SamplesAreFinishes(ops[..|ops| - 1]);
      hide IsOp, Push;
    }
  }

  // ---------- consistency ----------

  ghost predicate NoDuplicates<T>(s: seq<T>) {
    forall i, j | 0 <= i < j < |s| :: s[i] != s[j]
  }

  /** Active and finished traces are distinct, no trace is in two rings or twice in one, and each ring holds as
      many traces as its bucket counts, up to ten. */
  ghost predicate Consistent(f: Family) {
    && |f.finished| == N_BUCKETS
    && (forall b | 0 <= b < N_BUCKETS :: RingConsistent(f, b))
    && (forall b, c | 0 <= b < c < N_BUCKETS :: Disjoint(f.finished[b], f.finished[c]))
    && NoDuplicates(f.errors)
    && (forall id | id in f.errors :: id !in f.active)
    && AreSamples(f.samples) && WellFiled(f.samples)
  }

  ghost predicate Disjoint<T>(s: seq<T>, t: seq<T>) {
    forall x | x in s :: x !in t
  }

  ghost predicate RingConsistent(f: Family, b: nat)
    requires b < |f.finished|
  {
    && NoDuplicates(f.finished[b])
    && (forall id | id in f.finished[b] :: id !in f.active)
    && |f.finished[b]| == Min(TRACES_IN_BUCKET, CountIn(f.samples, b))
  }

  function Min(a: nat, b: nat): nat {
    if a < b then a else b
  }

  lemma LastNoDuplicates<T>(s: seq<T>, x: T, n: nat)
    requires 0 < n && NoDuplicates(s) && x !in s
    ensures NoDuplicates(Last(s + [x], n))
    ensures forall y | y in Last(s + [x], n) :: y in s || y == x
    ensures |Last(s + [x], n)| == Min(n, |s| + 1)
  {
  }

  /** What the callers guarantee: a new trace has an unused identifier, and only an active trace finishes. */
  ghost predicate Allowed(f: Family, op: Op) {
    IsOp(op) && if op.Create? then !Found(f, op.id) else op.id in f.active
  }

  /** Every permitted step keeps the family consistent. */
  lemma StepConsistent(f: Family, op: Op)
    requires Consistent(f) && Allowed(f, op)
    ensures Consistent(Step(f, op))
  {
    var f' := Step(f, op);
    match op
    case Create(id) =>
      forall b | 0 <= b < N_BUCKETS ensures RingConsistent(f', b) {
        assert RingConsistent(f, b);
      }
    case Finish(id, latency, c, isError) =>
      FinishKeepsSamples(f, op);
      forall b | 0 <= b < N_BUCKETS ensures RingConsistent(f', b) {
        FinishKeepsRing(f, op, b);
      }
      forall a, b | 0 <= a < b < N_BUCKETS ensures Disjoint(f'.finished[a], f'.finished[b]) {
        FinishKeepsDisjoint(f, op, a, b);
      }
      LastNoDuplicates(f.errors, id, TRACES_IN_BUCKET);
  }

  lemma FinishKeepsSamples(f: Family, op: Op)
    requires Consistent(f) && op.Finish? && IsOp(op)
    ensures AreSamples(Step(f, op).samples) && WellFiled(Step(f, op).samples)
    ensures forall b: nat {:trigger CountIn(f.samples, b)} ::
              CountIn(Step(f, op).samples, b) == CountIn(f.samples, b) + if op.bucket == b then 1 else 0
  {
    CountAppend(f.samples, Sample(op.bucket, op.latency));
  }

  lemma FinishKeepsRing(f: Family, op: Op, b: nat)
    requires Consistent(f) && op.Finish? && Allowed(f, op) && b < N_BUCKETS
    ensures RingConsistent(Step(f, op), b)
  {
    FinishKeepsSamples(f, op);
    assert RingConsistent(f, b);
    LastNoDuplicates(f.finished[b], op.id, TRACES_IN_BUCKET);
  }

  lemma FinishKeepsDisjoint(f: Family, op: Op, a: nat, b: nat)
    requires Consistent(f) && op.Finish? && Allowed(f, op) && a < b < N_BUCKETS
    ensures Disjoint(Step(f, op).finished[a], Step(f, op).finished[b])
  {
    assert RingConsistent(f, a) && RingConsistent(f, b) && Disjoint(f.finished[a], f.finished[b]);
    LastNoDuplicates(f.finished[a], op.id, TRACES_IN_BUCKET);
    LastNoDuplicates(f.finished[b], op.id, TRACES_IN_BUCKET);
  }

  /** A run in which every creation uses a new identifier and every finish is the first of an active trace. */
  ghost predicate Proper(ops: seq<Op>)
    requires AreOps(ops)
  {
    ops != [] ==> Proper(ops[..|ops| - 1]) && Follows(ops[..|ops| - 1], ops[|ops| - 1])
  }

  ghost predicate Follows(before: seq<Op>, op: Op)
    requires AreOps(before)
  {
    && (op.Create? ==> forall k | 0 <= k < |before| :: before[k].id != op.id)
    && (op.Finish? ==> op.id in Run(before).active)
  }

  ghost function Created(ops: seq<Op>): nat {
    if ops == [] then 0 else Created(ops[..|ops| - 1]) + if ops[|ops| - 1].Create? then 1 else 0
  }

  lemma {:induction false} FoundWasCreated(ops: seq<Op>, id: Id)
    requires AreOps(ops) && Found(Run(ops), id)
    ensures exists k | 0 <= k < |ops| :: ops[k].id == id
  {
    Retention(ops, id);
    if IsActive(ops, id) {
      var k: nat :| ActiveSince(ops, id, k);
      assert ops[k].id == id;
    }
  }

  lemma ProperIsAllowed(before: seq<Op>, op: Op)
    requires AreOps(before) && IsOp(op) && Follows(before, op)
    ensures Allowed(Run(before), op)
  {
    if op.Create? && Found(Run(before), op.id) {
      FoundWasCreated(before, op.id);
    }
  }

  lemma StepCounts(f: Family, op: Op)
    requires |f.finished| == N_BUCKETS && Allowed(f, op)
    ensures var f' := Step(f, op);
            |f'.active| + |f'.samples| == |f.active| + |f.samples| + if op.Create? then 1 else 0
  {
  }

  /** In every proper run the family stays consistent, and every trace created is either active or counted once in
      the histogram. */
  lemma {:induction false} RunConsistent(ops: seq<Op>)
    requires AreOps(ops) && Proper(ops)
    ensures Consistent(Run(ops))
    ensures Created(ops) == |Run(ops).active| + |Run(ops).samples|
  {
    hide Consistent, Allowed, Step, IsOp, Follows;
    if ops != [] {
      var before, last := ops[..|ops| - 1], ops[|ops| - 1];
      RunConsistent(before);
      ProperIsAllowed(before, last);
      StepConsistent(Run(before), last);
      StepCounts(Run(before), last);
    } else {
      EmptyIsConsistent();
    }
  }

  lemma EmptyIsConsistent()
    ensures Consistent(EMPTY)
  {
    assert forall b | 0 <= b < N_BUCKETS :: RingConsistent(EMPTY, b);
  }

  /** Every trace in the ring of bucket `b` finished with a latency of that bucket. */
  lemma {:induction false} RingLatencies(ops: seq<Op>, b: nat, id: Id)
    requires AreOps(ops) && b < N_BUCKETS && id in Run(ops).finished[b]
    ensures exists k | 0 <= k < |ops| :: ops[k].Finish? && ops[k].id == id && InBucket(ops[k].latency, b)
  {
    RingsHoldNewest(ops);
    NewestAreLast(ops, OfBucket(b), id, TRACES_IN_BUCKET);
    var k: nat :| NewestAt(ops, OfBucket(b), id, TRACES_IN_BUCKET, k);
    assert IsOp(ops[k]);
  }
}
