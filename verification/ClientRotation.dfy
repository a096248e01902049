/** Replacing the HTTP client after errors (internal/httpresolver/resolver.go). Times are in nanoseconds; 0 is
    Go's zero time, which no clock reads. A client is known by a number. */
module ClientRotation {
  import opened Common

  type Time = nat
  type Client = nat

  const ZERO: Time := 0
  const PATIENCE: nat := 10_000_000_000

  datatype State = State(client: Client, firstErr: Time)

  /** A query that captured the client `using` ends, or the maintenance loop looks; `created` is what making a
      new client would give then. */
  datatype Event =
    | Done(using: Client, failed: bool, at: Time)
    | Check(created: Option<Client>, at: Time)

  class HttpsResolver {
    var client: Client
    var firstErr: Time

    function View(): State
      reads this
    {
      State(client, firstErr)
    }

    constructor (c: Client)
      ensures View() == State(c, ZERO)
    {
      client, firstErr := c, ZERO;
    }

    /** The first step of a query; the rest of it goes on without the lock. */
    method CaptureClient() returns (c: Client)
      ensures c == client
    {
      c := client;
    }

    method SetClientError(failed: bool, now: Time, ghost using: Client)
      modifies this
      ensures View() == Step(old(View()), Done(using, failed, now))
    {
      if !failed {
        firstErr := ZERO;
      } else {
        if firstErr == ZERO {
          firstErr := now;
        }
      }
    }

    method MaybeRotateClient(created: Option<Client>, now: Time)
      modifies this
      ensures View() == Step(old(View()), Check(created, now))
    {
      if firstErr == ZERO {
        return;
      }
      if now - firstErr > PATIENCE {
        if created.None? {
          return;
        }
        client := created.value;
        firstErr := ZERO;
      }
    }
  }

  // ---------- runs ----------

  predicate Due(s: State, at: Time) {
    s.firstErr != ZERO && at - s.firstErr > PATIENCE
  }

  function Step(s: State, e: Event): State {
    match e
    case Done(_, failed, at) =>
      if !failed then s.(firstErr := ZERO) else if s.firstErr == ZERO then s.(firstErr := at) else s
    case Check(created, at) =>
      if Due(s, at) && created.Some? then State(created.value, ZERO) else s
  }

  /** The state after the first `n` events. */
  function Run(c: Client, es: seq<Event>, n: nat): State
    requires n <= |es|
  {
    if n == 0 then State(c, ZERO) else Step(Run(c, es, n - 1), es[n - 1])
  }

  /** Time does not go back, and a query uses a client that was current at some moment before it ended. Nothing
      orders the queries: one that began before a rotation may end long after it. */
  ghost predicate IsRun(c: Client, es: seq<Event>) {
    && (forall i | 0 <= i < |es| :: es[i].at != ZERO)
    && (forall i, j | 0 <= i < j < |es| :: es[i].at <= es[j].at)
    && (forall i | 0 <= i < |es| && es[i].Done? :: exists k | 0 <= k <= i :: Run(c, es, k).client == es[i].using)
  }

  predicate Failure(e: Event) {
    e.Done? && e.failed
  }

  predicate Success(e: Event) {
    e.Done? && !e.failed
  }

  /** The event at `k` replaces the client. */
  predicate Rotates(c: Client, es: seq<Event>, k: nat)
    requires k < |es|
  {
    es[k].Check? && es[k].created.Some? && Due(Run(c, es, k), es[k].at)
  }

  predicate Resets(c: Client, es: seq<Event>, k: nat)
    requires k < |es|
  {
    Success(es[k]) || Rotates(c, es, k)
  }

  /** Some event after `i` and before `n` is a success or a rotation. */
  ghost predicate ResetBetween(c: Client, es: seq<Event>, i: int, n: nat)
    requires -1 <= i && n <= |es|
  {
    exists k | i < k < n :: Resets(c, es, k)
  }

  /** Event `j` is the earliest failure since the last success or rotation among the first `n` events. */
  ghost predicate FirstFailure(c: Client, es: seq<Event>, n: nat, j: nat)
    requires n <= |es|
  {
    && j < n && Failure(es[j])
    && !ResetBetween(c, es, j, n)
    && (forall i | 0 <= i < j && Failure(es[i]) :: ResetBetween(c, es, i, j))
  }

  lemma ResetBetweenNext(c: Client, es: seq<Event>, m: nat, n: nat)
    requires n == m + 1 <= |es|
    ensures forall i | -1 <= i < m :: ResetBetween(c, es, i, n) <==> ResetBetween(c, es, i, m) || Resets(c, es, m)
    ensures !ResetBetween(c, es, m, n)
  {
    forall i | -1 <= i < m
      ensures ResetBetween(c, es, i, n) <==> ResetBetween(c, es, i, m) || Resets(c, es, m)
    {
      if Resets(c, es, m) {
        assert ResetBetween(c, es, i, n);
      }
    }
  }

  /** After a success or a rotation no failure counts. */
  lemma ResetForgets(c: Client, es: seq<Event>, m: nat, n: nat)
    requires n == m + 1 <= |es| && Resets(c, es, m)
    ensures forall j: nat :: !FirstFailure(c, es, n, j)
    ensures !Failure(es[m])
  {
    ResetBetweenNext(c, es, m, n);
  }

  lemma FailureIsFirst(c: Client, es: seq<Event>, m: nat, n: nat)
    requires n == m + 1 <= |es| && Failure(es[m])
    requires forall i | 0 <= i < m && Failure(es[i]) :: ResetBetween(c, es, i, m)
    ensures forall j: nat :: FirstFailure(c, es, n, j) <==> j == m
  {
    ResetBetweenNext(c, es, m, n);
    assert FirstFailure(c, es, n, m);
  }

  lemma FirstFailureStays(c: Client, es: seq<Event>, m: nat, n: nat)
    requires n == m + 1 <= |es| && !Resets(c, es, m)
    requires Failure(es[m]) ==> exists j: nat :: FirstFailure(c, es, m, j)
    ensures forall j: nat :: FirstFailure(c, es, n, j) <==> FirstFailure(c, es, m, j)
  {
    ResetBetweenNext(c, es, m, n);
    if Failure(es[m]) {
      var j: nat :| FirstFailure(c, es, m, j);
      assert !FirstFailure(c, es, n, m);
    }
  }

  lemma FirstFailureKept(c: Client, es: seq<Event>, n: nat, j: nat)
    requires n <= |es| && FirstFailure(c, es, n, j)
    ensures j < n && Failure(es[j]) && !ResetBetween(c, es, j, n)
  {
  }

  /** What one event does to `firstErr`. */
  lemma FirstErrNext(c: Client, es: seq<Event>, m: nat, n: nat)
    requires n == m + 1 <= |es|
    ensures var before := Run(c, es, m).firstErr;
            Run(c, es, n).firstErr == if Resets(c, es, m) then ZERO
                                      else if before == ZERO && Failure(es[m]) then es[m].at else before
  {
  }

  ghost predicate FirstErrOk(c: Client, es: seq<Event>, n: nat)
    requires n <= |es|
  {
    && (Run(c, es, n).firstErr != ZERO <==> exists j: nat :: FirstFailure(c, es, n, j))
    && (forall j: nat | FirstFailure(c, es, n, j) :: Run(c, es, n).firstErr == es[j].at)
    && (Run(c, es, n).firstErr == ZERO <==>
          forall i | 0 <= i < n && Failure(es[i]) :: ResetBetween(c, es, i, n))
  }

  lemma FirstErrOkNext(c: Client, es: seq<Event>, m: nat, n: nat)
    requires n == m + 1 <= |es| && es[m].at != ZERO && FirstErrOk(c, es, m)
    ensures FirstErrOk(c, es, n)
  {
    hide Run, Resets, FirstFailure, ResetBetween;
    FirstErrNext(c, es, m, n);
    ResetBetweenNext(c, es, m, n);
    if Resets(c, es, m) {
      ResetForgets(c, es, m, n);
    } else if Run(c, es, m).firstErr != ZERO {
      FirstFailureStays(c, es, m, n);
      var j: nat :| FirstFailure(c, es, m, j);
      FirstFailureKept(c, es, m, j);
      assert FirstFailure(c, es, n, j);
      FirstFailureKept(c, es, n, j);
    } else if Failure(es[m]) {
      FailureIsFirst(c, es, m, n);
      assert FirstFailure(c, es, n, m);
    } else {
      FirstFailureStays(c, es, m, n);
    }
  }

  lemma FirstErrOkFirst(c: Client, es: seq<Event>)
    ensures FirstErrOk(c, es, 0)
  {
  }

  lemma {:induction false} FirstErrAlwaysOk(c: Client, es: seq<Event>, n: nat)
    requires n <= |es| && IsRun(c, es)
    ensures FirstErrOk(c, es, n)
  {
    assert n > 0 ==> es[n - 1].at != ZERO;
    hide *;
    if n == 0 {
      FirstErrOkFirst(c, es);
    } else {
      FirstErrAlwaysOk(c, es, n - 1);
      FirstErrOkNext(c, es, n - 1, n);
    }
  }

  /** What `firstErr` means: it is the time of the earliest failure since the last success or rotation, and zero
      exactly when there has been none. */
  lemma FirstErrIsEarliest(c: Client, es: seq<Event>, n: nat)
    requires n <= |es| && IsRun(c, es)
    ensures Run(c, es, n).firstErr != ZERO <==> exists j: nat :: FirstFailure(c, es, n, j)
    ensures forall j: nat | FirstFailure(c, es, n, j) :: Run(c, es, n).firstErr == es[j].at
    ensures Run(c, es, n).firstErr == ZERO <==>
            forall i | 0 <= i < n && Failure(es[i]) :: ResetBetween(c, es, i, n)
  {
    FirstErrAlwaysOk(c, es, n);
    hide Run, FirstFailure, ResetBetween, IsRun;
  }

  /** A client is replaced exactly when a new one can be made and the earliest failure since the last success or
      rotation is more than ten seconds old. */
  lemma RotatesIff(c: Client, es: seq<Event>, k: nat)
    requires k < |es| && IsRun(c, es)
    ensures Rotates(c, es, k) <==>
            && es[k].Check? && es[k].created.Some?
            && exists j: nat :: FirstFailure(c, es, k, j) && es[k].at - es[j].at > 10_000_000_000
    ensures Run(c, es, k + 1).client ==
            if Rotates(c, es, k) then es[k].created.value else Run(c, es, k).client
  {
    FirstErrIsEarliest(c, es, k);
  }

  /** In plain terms: a client is replaced exactly when a new one can be made and some failure is more than ten seconds
      old with neither a success nor a rotation since. */
  lemma RotatesWhen(c: Client, es: seq<Event>, k: nat)
    requires k < |es| && IsRun(c, es)
    ensures Rotates(c, es, k) <==>
            && es[k].Check? && es[k].created.Some?
            && exists j | 0 <= j < k :: FailedSince(c, es, j, k) && es[k].at - es[j].at > 10_000_000_000
  {
    RotatesIff(c, es, k);
    FirstErrIsEarliest(c, es, k);
    if j: nat :| FirstFailure(c, es, k, j) && es[k].at - es[j].at > 10_000_000_000 {
      FirstFailureKept(c, es, k, j);
      SinceIff(c, es, j, k);
    }
    hide Run, FirstFailure, Rotates;
    if i: nat :| i < k && FailedSince(c, es, i, k) && es[k].at - es[i].at > 10_000_000_000 {
      SinceIff(c, es, i, k);
      assert Run(c, es, k).firstErr != ZERO;
      var j: nat :| FirstFailure(c, es, k, j);
      FirstIsNoLater(c, es, k, j, i);
      if j < i {
        Ordered(c, es, j, i);
      }
    }
  }

  /** Event `j` is a failure, and none after it and before `k` is a success or a rotation. */
  ghost predicate FailedSince(c: Client, es: seq<Event>, j: nat, k: nat)
    requires j < k <= |es|
  {
    es[j].Done? && es[j].failed && forall i | j < i < k :: !(es[i].Done? && !es[i].failed) && !Rotates(c, es, i)
  }

  lemma SinceIff(c: Client, es: seq<Event>, j: nat, k: nat)
    requires j < k <= |es|
    ensures FailedSince(c, es, j, k) <==> Failure(es[j]) && !ResetBetween(c, es, j, k)
  {
    hide Rotates;
    if FailedSince(c, es, j, k) {
      forall i | j < i < k ensures !Resets(c, es, i) {
      }
    } else if Failure(es[j]) {
      var i :| j < i < k && ((es[i].Done? && !es[i].failed) || Rotates(c, es, i));
      assert Resets(c, es, i);
    }
  }

  lemma FirstIsNoLater(c: Client, es: seq<Event>, k: nat, j: nat, i: nat)
    requires k <= |es| && FirstFailure(c, es, k, j)
    requires i < k && Failure(es[i]) && !ResetBetween(c, es, i, k)
    ensures j <= i
  {
    hide Resets;
    if i < j {
      ResetLater(c, es, i, j, k);
    }
  }

  lemma ResetLater(c: Client, es: seq<Event>, i: nat, j: nat, k: nat)
    requires j <= k <= |es| && ResetBetween(c, es, i, j)
    ensures ResetBetween(c, es, i, k)
  {
    hide Resets;
    var m :| i < m < j && Resets(c, es, m);
  }

  lemma ResetBeforeFailure(c: Client, es: seq<Event>, i: nat, j: nat, k: nat)
    requires i < k <= |es| && Resets(c, es, i) && FirstFailure(c, es, k, j)
    ensures i < j < k
  {
    FirstFailureKept(c, es, k, j);
    hide FirstFailure;
  }

  lemma Ordered(c: Client, es: seq<Event>, i: nat, j: nat)
    requires IsRun(c, es) && i < j < |es|
    ensures es[i].at <= es[j].at
  {
  }

  /** No query has succeeded, and no client was replaced, in the ten seconds before a rotation. */
  lemma QuietBeforeRotation(c: Client, es: seq<Event>, k: nat, i: nat)
    requires i < k < |es| && IsRun(c, es)
    requires Rotates(c, es, k) && ((es[i].Done? && !es[i].failed) || Rotates(c, es, i))
    ensures es[k].at - es[i].at > 10_000_000_000
  {
    RotatesIff(c, es, k);
    assert Resets(c, es, i);
    hide *;
    var j: nat :| FirstFailure(c, es, k, j) && es[k].at - es[j].at > 10_000_000_000;
    ResetBeforeFailure(c, es, i, j, k);
    Ordered(c, es, i, j);
  }

  // ---------- how often clients are replaced ----------

  function Rotations(c: Client, es: seq<Event>, a: nat, b: nat): nat
    requires a <= b <= |es|
  {
    if a == b then 0 else Rotations(c, es, a, b - 1) + if Rotates(c, es, b - 1) then 1 else 0
  }

  /** Every rotation after the first in a stretch of a run takes more than ten seconds: the one at `last` comes
      that much later than the first event. */
  lemma {:induction false} RotationsTakeTime(c: Client, es: seq<Event>, a: nat, b: nat) returns (last: nat)
    requires a <= b <= |es| && IsRun(c, es) && Rotations(c, es, a, b) > 0
    ensures a <= last < b && Rotates(c, es, last)
    ensures es[last].at - es[a].at >= (Rotations(c, es, a, b) - 1) * (PATIENCE + 1)
  {
    assert es[a].at <= es[b - 1].at;
    var m := b - 1;
    var before, here := Rotations(c, es, a, m), if Rotates(c, es, m) then 1 else 0;
    assert Rotations(c, es, a, b) == before + here;
    hide *;
    if Rotates(c, es, m) {
      last := m;
      if before > 0 {
        var earlier := RotationsTakeTime(c, es, a, m);
        QuietBeforeRotation(c, es, last, earlier);
      }
    } else {
      last := RotationsTakeTime(c, es, a, m);
    }
  }

  /** No thirty seconds see more than three rotations. */
  lemma AtMostThree(c: Client, es: seq<Event>, a: nat, b: nat)
    requires a < b <= |es| && IsRun(c, es)
    requires es[b - 1].at - es[a].at <= 30_000_000_000
    ensures Rotations(c, es, a, b) <= 3
  {
    if Rotations(c, es, a, b) > 3 {
      var last := RotationsTakeTime(c, es, a, b);
    }
  }

  // ---------- whose failure it was ----------

  lemma {:induction false} SameClient(c: Client, es: seq<Event>, j: nat, k: nat)
    requires j <= k <= |es| && forall i | j <= i < k :: !Rotates(c, es, i)
    ensures Run(c, es, k).client == Run(c, es, j).client
  {
    if j < k {
      SameClient(c, es, j, k - 1);
      assert !Rotates(c, es, k - 1);
    }
  }

  /** The client stays the same from the failure that gets it replaced until it is replaced. */
  lemma ClientSinceFailure(c: Client, es: seq<Event>, j: nat, k: nat)
    requires k <= |es| && FirstFailure(c, es, k, j)
    ensures forall i | j <= i <= k :: Run(c, es, i).client == Run(c, es, k).client
  {
    FirstFailureKept(c, es, k, j);
    hide FirstFailure, Run, Due;
    forall i | j <= i < k ensures !Rotates(c, es, i) {
      assert j < i ==> !Resets(c, es, i);
    }
    forall i | j <= i <= k ensures Run(c, es, i).client == Run(c, es, k).client {
      SameClient(c, es, i, k);
    }
  }

  /** A client is replaced for a failure of its own exactly when the failure was reported while the client that had
      failed was still the current one. */
  lemma BlameIff(c: Client, es: seq<Event>, j: nat, k: nat)
    requires k < |es| && Rotates(c, es, k) && FirstFailure(c, es, k, j)
    ensures es[j].using == Run(c, es, k).client <==> es[j].using == Run(c, es, j).client
  {
    ClientSinceFailure(c, es, j, k);
  }

  /** When every failure is reported on the current client, each client that is replaced has failed, more than ten
      seconds before. */
  lemma ReplacedForOwnFailure(c: Client, es: seq<Event>, k: nat)
    requires k < |es| && IsRun(c, es) && Rotates(c, es, k)
    requires forall i | 0 <= i < k && Failure(es[i]) :: es[i].using == Run(c, es, i).client
    ensures exists j | 0 <= j < k ::
              Failure(es[j]) && es[j].using == Run(c, es, k).client && es[k].at - es[j].at > PATIENCE
  {
    RotatesIff(c, es, k);
    var j: nat :| FirstFailure(c, es, k, j) && es[k].at - es[j].at > PATIENCE;
    BlameIff(c, es, j, k);
  }

  /** A client can only be replaced for the failure of another if the query that failed was under way during an earlier
      rotation, more than ten seconds before. In particular the first client of all is only replaced for a failure of
      its own. */
  lemma BlamelessAfterRotation(c: Client, es: seq<Event>, j: nat, k: nat)
    requires k < |es| && IsRun(c, es) && Rotates(c, es, k) && FirstFailure(c, es, k, j)
    requires es[j].using != Run(c, es, k).client
    ensures exists i, r | 0 <= i <= r < j ::
              Run(c, es, i).client == es[j].using && Rotates(c, es, r) && es[k].at - es[r].at > PATIENCE
  {
    BlameIff(c, es, j, k);
    var i :| 0 <= i <= j && Run(c, es, i).client == es[j].using;
    if forall r | i <= r < j :: !Rotates(c, es, r) {
      SameClient(c, es, i, j);
    } else {
      var r :| i <= r < j && Rotates(c, es, r);
      QuietBeforeRotation(c, es, k, r);
    }
  }

  // ---------- queries and looks, interleaved ----------

  /** The query `q` begins, or ends; or the maintenance loop looks. */
  datatype Call =
    | Begin(q: nat, at: Time)
    | End(q: nat, failed: bool, at: Time)
    | Look(created: Option<Client>, at: Time)

  /** The events so far, and the clients that the queries under way have captured. */
  datatype Progress = Progress(es: seq<Event>, using: map<nat, Client>)

  function Current(c: Client, es: seq<Event>): State {
    Run(c, es, |es|)
  }

  /** What a call adds; nothing when a query begins twice or ends without having begun. */
  function Advance(c: Client, p: Progress, call: Call): Progress {
    match call
    case Begin(q, _) => if q in p.using then p else p.(using := p.using[q := Current(c, p.es).client])
    case End(q, failed, at) =>
      if q in p.using then Progress(p.es + [Done(p.using[q], failed, at)], p.using - {q}) else p
    case Look(created, at) => p.(es := p.es + [Check(created, at)])
  }

  function After(c: Client, calls: seq<Call>, n: nat): Progress
    requires n <= |calls|
  {
    if n == 0 then Progress([], map[]) else Advance(c, After(c, calls, n - 1), calls[n - 1])
  }

  /** Time does not go back. */
  ghost predicate InOrder(calls: seq<Call>) {
    && (forall i | 0 <= i < |calls| :: calls[i].at != ZERO)
    && (forall i, j | 0 <= i < j < |calls| :: calls[i].at <= calls[j].at)
  }

  ghost predicate WasCurrent(c: Client, es: seq<Event>, n: nat, client: Client)
    requires n <= |es|
  {
    exists k | 0 <= k <= n :: Run(c, es, k).client == client
  }

  /** The events make a run that ends no later than `now`, and each query under way has captured a client that was
      current. */
  ghost predicate ProgressOk(c: Client, p: Progress, now: Time) {
    && IsRun(c, p.es)
    && (forall i | 0 <= i < |p.es| :: p.es[i].at <= now)
    && (forall q | q in p.using :: WasCurrent(c, p.es, |p.es|, p.using[q]))
  }

  lemma {:induction false} RunPrefix(c: Client, es: seq<Event>, e: Event, k: nat)
    requires k <= |es|
    ensures Run(c, es + [e], k) == Run(c, es, k)
  {
    if k > 0 {
      RunPrefix(c, es, e, k - 1);
      assert (es + [e])[k - 1] == es[k - 1];
    }
    hide Step;
  }

  lemma CurrentNext(c: Client, es: seq<Event>, e: Event)
    ensures Current(c, es + [e]) == Step(Current(c, es), e)
  {
    RunPrefix(c, es, e, |es|);
    hide Step;
  }

  lemma StaysCurrent(c: Client, es: seq<Event>, e: Event, n: nat, client: Client)
    requires n <= |es| && WasCurrent(c, es, n, client)
    ensures WasCurrent(c, es + [e], n, client)
  {
    hide Step;
    var k :| 0 <= k <= n && Run(c, es, k).client == client;
    RunPrefix(c, es, e, k);
  }

  lemma IsRunNext(c: Client, es: seq<Event>, e: Event)
    requires IsRun(c, es) && e.at != ZERO && forall i | 0 <= i < |es| :: es[i].at <= e.at
    requires e.Done? ==> WasCurrent(c, es, |es|, e.using)
    ensures IsRun(c, es + [e])
  {
    hide Step, Run;
    var es' := es + [e];
    forall i | 0 <= i < |es'| && es'[i].Done? ensures WasCurrent(c, es', i, es'[i].using) {
      if i < |es| {
        assert WasCurrent(c, es, i, es[i].using);
      }
      StaysCurrent(c, es, e, i, es'[i].using);
    }
  }

  lemma AdvanceKeeps(c: Client, p: Progress, call: Call, now: Time)
    requires ProgressOk(c, p, now) && now <= call.at && call.at != ZERO
    ensures ProgressOk(c, Advance(c, p, call), call.at)
  {
    var p' := Advance(c, p, call);
    hide IsRun, Run;
    if |p'.es| > |p.es| {
      var e := p'.es[|p.es|];
      assert p'.es == p.es + [e];
      IsRunNext(c, p.es, e);
      forall q | q in p'.using ensures WasCurrent(c, p'.es, |p'.es|, p'.using[q]) {
        StaysCurrent(c, p.es, e, |p.es|, p.using[q]);
      }
    } else {
      assert Current(c, p.es).client == Run(c, p.es, |p.es|).client;
    }
  }

  /** However queries overlap with each other and with the maintenance loop, what happens is a run: each query ends on
      a client that was current when it began. */
  lemma {:induction false} CallsMakeRun(c: Client, calls: seq<Call>, n: nat)
    requires n <= |calls| && InOrder(calls)
    ensures ProgressOk(c, After(c, calls, n), if n == 0 then ZERO else calls[n - 1].at)
  {
    hide Advance, ProgressOk;
    if n > 0 {
      CallsMakeRun(c, calls, n - 1);
      AdvanceKeeps(c, After(c, calls, n - 1), calls[n - 1], if n == 1 then ZERO else calls[n - 2].at);
    } else {
      EmptyProgress(c);
    }
  }

  lemma EmptyProgress(c: Client)
    ensures ProgressOk(c, Progress([], map[]), ZERO)
  {
  }

  /** The object follows the run that its calls make. */
  method Play(c: Client, calls: seq<Call>) returns (r: HttpsResolver)
    requires InOrder(calls)
    ensures fresh(r)
    ensures var es := After(c, calls, |calls|).es; IsRun(c, es) && r.View() == Current(c, es)
  {
    r := new HttpsResolver(c);
    var using: map<nat, Client> := map[];
    for n := 0 to |calls|
      invariant fresh(r)
      invariant using == After(c, calls, n).using
      invariant r.View() == Current(c, After(c, calls, n).es)
    {
      hide Step, Run, Current;
      ghost var p := After(c, calls, n);
      match calls[n]
      case Begin(q, _) =>
        if q !in using {
          var client := r.CaptureClient();
          using := using[q := client];
        }
      case End(q, failed, at) =>
        if q in using {
          CurrentNext(c, p.es, Done(using[q], failed, at));
          r.SetClientError(failed, at, using[q]);
          using := using - {q};
        }
      case Look(created, at) =>
        CurrentNext(c, p.es, Check(created, at));
        r.MaybeRotateClient(created, at);
    }
    CallsMakeRun(c, calls, |calls|);
  }

  function Seconds(n: nat): Time {
    n * 1_000_000_000
  }

  /** A failure on the old client that comes in late counts against the new one: the client made at 12 s is
      replaced at 24 s although no query on it has failed. */
  lemma LateFailureRotates() returns (es: seq<Event>)
    ensures IsRun(0, es) && |es| == 4
    ensures Rotates(0, es, 1) && Rotates(0, es, 3)
    ensures forall i | 0 <= i < 3 && Failure(es[i]) :: es[i].using != Run(0, es, 3).client
  {
    es := [Done(0, true, Seconds(1)), Check(Some(1), Seconds(12)), Done(0, true, Seconds(13)),
           Check(Some(2), Seconds(24))];
    assert Run(0, es, 0) == State(0, ZERO);
    assert Run(0, es, 1) == State(0, Seconds(1));
    assert Run(0, es, 2) == State(1, ZERO);
    assert Run(0, es, 3) == State(1, Seconds(13));
  }
}
