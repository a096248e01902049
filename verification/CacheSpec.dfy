/** The caching resolver as values (internal/dnsserver/resolver.go): what each step between two releases of the
    lock does to the cache, and what holds after any sequence of such steps, whatever the backing resolver says and
    whenever collections run. TTLs are whole seconds; the clock is in nanoseconds. */
module CacheSpec {
  import opened Common

  datatype Question = Question(name: string, qtype: nat, qclass: nat)

  /** The fields of a DNS message that the code reads or writes. `RR` is the type of its resource records. */
  datatype Msg<+RR> = Msg(
    id: nat, response: bool, opcode: nat, authoritative: bool, truncated: bool, rcode: nat,
    question: seq<Question>, answer: seq<RR>, ns: seq<RR>, extra: seq<RR>)

  datatype Query = Query(id: nat, question: seq<Question>)

  /** What the backing resolver returns. */
  datatype Result<+RR> = Answered(reply: Msg<RR>) | Failed(error: string)

  /** A resource record: its TTL, and everything else. */
  datatype Rec = Rec(data: string, ttl: nat)

  const RCODE_SUCCESS: nat := 0
  const OPCODE_QUERY: nat := 0

  const MAX_CACHE_SIZE: nat := 2000
  const MIN_TTL: nat := 120
  const MAX_TTL: nat := 7200
  const PERIOD: nat := 30

  // ---------- what is cached ----------

  datatype Refusal =
    | UnsuccessfulQuery | NotAResponse | NotAQuery | EmptyAnswer | WrongQuestionCount | TruncatedReply | OtherQuestion

  /** Why a reply is not cached, if it is not. */
  function WantToCache<RR>(question: Question, reply: Msg<RR>): Option<Refusal> {
    if reply.rcode != RCODE_SUCCESS then Some(UnsuccessfulQuery)
    else if !reply.response then Some(NotAResponse)
    else if reply.opcode != OPCODE_QUERY then Some(NotAQuery)
    else if |reply.answer| == 0 then Some(EmptyAnswer)
    else if |reply.question| != 1 then Some(WrongQuestionCount)
    else if reply.truncated then Some(TruncatedReply)
    else if reply.question[0] != question then Some(OtherQuestion)
    else None
  }

  function LimitTtl(ttl: nat): nat {
    if ttl > MAX_TTL then MAX_TTL else ttl
  }

  /** The TTL of an answer is that of its first record. */
  function GetTtl(answer: seq<Rec>): nat
    requires answer != []
  {
    answer[0].ttl
  }

  /** Every record gets the one TTL. */
  function SetTtl(answer: seq<Rec>, ttl: nat): seq<Rec> {
    seq(|answer|, i requires 0 <= i < |answer| => Rec(answer[i].data, ttl))
  }

  function Data(answer: seq<Rec>): seq<string> {
    seq(|answer|, i requires 0 <= i < |answer| => answer[i].data)
  }

  function HitReply<RR>(query: Query, answer: seq<RR>): Msg<RR> {
    Msg(query.id, true, OPCODE_QUERY, false, false, RCODE_SUCCESS, query.question, answer, [], [])
  }

  // ---------- the steps ----------

  /** Where a query in progress is: about to look in the cache, waiting for the backing resolver on behalf of the
      caller alone, waiting for it after a miss, or about to store what it said. */
  datatype Stage<+RR> =
    | Entered(query: Query)
    | Bypassing(query: Query)
    | Asking(query: Query, question: Question)
    | Storing(query: Query, question: Question, reply: Msg<RR>)

  type Entries = map<Question, seq<Rec>>

  datatype Cache = Cache(
    entries: Entries, inflight: map<nat, Stage<Rec>>,
    total: nat, bypassed: nat, hits: nat, misses: nat, recorded: nat)

  const EMPTY: Cache := Cache(map[], map[], 0, 0, 0, 0, 0)

  ghost predicate NonEmptyEntries(c: Cache) {
    forall q | q in c.entries :: c.entries[q] != []
  }

  function Enter(c: Cache, k: nat, query: Query): Cache {
    c.(total := c.total + 1, inflight := c.inflight[k := Entered(query)])
  }

  predicate IsHit(c: Cache, query: Query) {
    |query.question| == 1 && query.question[0] in c.entries
  }

  function Lookup(c: Cache, k: nat): Cache
    requires k in c.inflight && c.inflight[k].Entered?
  {
    var query := c.inflight[k].query;
    if |query.question| != 1 then
      c.(bypassed := c.bypassed + 1, inflight := c.inflight[k := Bypassing(query)])
    else if IsHit(c, query) then
      c.(hits := c.hits + 1, inflight := c.inflight - {k})
    else
      c.(misses := c.misses + 1, inflight := c.inflight[k := Asking(query, query.question[0])])
  }

  /** Whether a reply to a missed question goes on to be stored. */
  predicate Storable<RR>(question: Question, result: Result<RR>, ttl: RR -> nat) {
    && result.Answered?
    && WantToCache(question, result.reply).None?
    && LimitTtl(ttl(result.reply.answer[0])) >= MIN_TTL
  }

  function RecTtl(r: Rec): nat {
    r.ttl
  }

  function BackendReturns(c: Cache, k: nat, result: Result<Rec>): Cache
    requires k in c.inflight && (c.inflight[k].Asking? || c.inflight[k].Bypassing?)
  {
    var stage := c.inflight[k];
    if stage.Asking? && Storable(stage.question, result, RecTtl) then
      c.(inflight := c.inflight[k := Storing(stage.query, stage.question, result.reply)])
    else
      c.(inflight := c.inflight - {k})
  }

  predicate HasRoom(c: Cache) {
    |c.entries| < MAX_CACHE_SIZE
  }

  /** The answer of a reply as it is put in the cache. */
  function StoredAnswer(answer: seq<Rec>): seq<Rec>
    requires answer != []
  {
    SetTtl(answer, LimitTtl(GetTtl(answer)))
  }

  function Store(c: Cache, k: nat): Cache
    requires k in c.inflight && c.inflight[k].Storing? && c.inflight[k].reply.answer != []
  {
    var Storing(_, question, reply) := c.inflight[k];
    var done := c.(inflight := c.inflight - {k});
    if HasRoom(c) then
      done.(entries := c.entries[question := StoredAnswer(reply.answer)], recorded := c.recorded + 1)
    else done
  }

  function Collect(c: Cache): Cache
    requires NonEmptyEntries(c)
  {
    c.(entries := map q | q in c.entries && GetTtl(c.entries[q]) > PERIOD ::
                    SetTtl(c.entries[q], GetTtl(c.entries[q]) - PERIOD))
  }

  function Flush(c: Cache): Cache {
    c.(entries := map[])
  }

  // ---------- any sequence of steps ----------

  datatype Event =
    | DoEnter(k: nat, query: Query)
    | DoLookup(k: nat)
    | DoReturn(k: nat, result: Result<Rec>)
    | DoStore(k: nat)
    | DoCollect
    | DoFlush
    | DoWait(d: nat)

  predicate CanStore(c: Cache, k: nat) {
    k in c.inflight && c.inflight[k].Storing? && c.inflight[k].reply.answer != []
  }

  /** What an event does to the cache; nothing when it cannot happen. */
  ghost function Apply(c: Cache, ev: Event): Cache {
    match ev
    case DoEnter(k, query) => if k in c.inflight then c else Enter(c, k, query)
    case DoLookup(k) => if k in c.inflight && c.inflight[k].Entered? then Lookup(c, k) else c
    case DoReturn(k, result) =>
      if k in c.inflight && (c.inflight[k].Asking? || c.inflight[k].Bypassing?) then BackendReturns(c, k, result) else c
    case DoStore(k) => if CanStore(c, k) then Store(c, k) else c
    case DoCollect => if NonEmptyEntries(c) then Collect(c) else c
    case DoFlush => Flush(c)
    case DoWait(_) => c
  }

  ghost function ApplyAll(c: Cache, evs: seq<Event>): Cache {
    if evs == [] then c else Apply(ApplyAll(c, evs[..|evs| - 1]), evs[|evs| - 1])
  }

  /** An answer as the cache holds it: some records, all with one TTL, of at most two hours. */
  ghost predicate AnswerOk(answer: seq<Rec>) {
    && answer != []
    && (forall i | 0 <= i < |answer| :: answer[i].ttl == GetTtl(answer))
    && 0 < GetTtl(answer) <= MAX_TTL
  }

  ghost predicate EntriesOk(entries: Entries) {
    |entries| <= MAX_CACHE_SIZE && forall q | q in entries :: AnswerOk(entries[q])
  }

  ghost predicate StoringOk(stage: Stage<Rec>) {
    stage.Storing? ==>
      WantToCache(stage.question, stage.reply).None? && MIN_TTL <= LimitTtl(GetTtl(stage.reply.answer))
  }

  ghost predicate InflightOk(c: Cache) {
    forall k | k in c.inflight :: StoringOk(c.inflight[k])
  }

  /** The queries that have been counted in the total but not yet as a bypass, a hit or a miss. */
  ghost function Unclassified(c: Cache): set<nat> {
    set k | k in c.inflight && c.inflight[k].Entered?
  }

  /** The misses that may still be recorded. */
  ghost function Recordable(c: Cache): set<nat> {
    set k | k in c.inflight && (c.inflight[k].Asking? || c.inflight[k].Storing?)
  }

  ghost predicate CountersOk(c: Cache) {
    && c.total == c.bypassed + c.hits + c.misses + |Unclassified(c)|
    && c.recorded + |Recordable(c)| <= c.misses
  }

  ghost predicate CacheOk(c: Cache) {
    EntriesOk(c.entries) && InflightOk(c) && CountersOk(c)
  }

  lemma EntriesAfterStore(entries: Entries, q: Question, answer: seq<Rec>)
    requires EntriesOk(entries) && |entries| < MAX_CACHE_SIZE
    requires answer != [] && MIN_TTL <= LimitTtl(GetTtl(answer))
    ensures EntriesOk(entries[q := StoredAnswer(answer)])
  {
    assert entries[q := StoredAnswer(answer)].Keys == entries.Keys + {q};
  }

  lemma EntriesAfterCollect(c: Cache)
    requires EntriesOk(c.entries) && NonEmptyEntries(c)
    ensures EntriesOk(Collect(c).entries)
  {
    SubsetSize(Collect(c).entries.Keys, c.entries.Keys);
  }

  lemma {:induction false} SubsetSize<T>(a: set<T>, b: set<T>)
    requires a <= b
    ensures |a| <= |b|
  {
    if x :| x in a {
      SubsetSize(a - {x}, b - {x});
    }
  }

  lemma EntriesKept(c: Cache, ev: Event)
    requires EntriesOk(c.entries) && InflightOk(c)
    ensures EntriesOk(Apply(c, ev).entries)
  {
    match ev
    case DoStore(k) =>
      if CanStore(c, k) && HasRoom(c) {
        assert StoringOk(c.inflight[k]);
        EntriesAfterStore(c.entries, c.inflight[k].question, c.inflight[k].reply.answer);
      }
    case DoCollect =>
      if NonEmptyEntries(c) {
        EntriesAfterCollect(c);
      }
    case _ =>
  }

  lemma InflightKept(c: Cache, ev: Event)
    requires InflightOk(c)
    ensures InflightOk(Apply(c, ev))
  {
  }

  lemma CountersAfterEnter(c: Cache, k: nat, query: Query)
    requires CountersOk(c) && k !in c.inflight
    ensures CountersOk(Enter(c, k, query))
  {
    var c' := Enter(c, k, query);
    assert Unclassified(c') == Unclassified(c) + {k};
    assert Recordable(c') == Recordable(c);
  }

  lemma CountersAfterLookup(c: Cache, k: nat)
    requires CountersOk(c) && k in c.inflight && c.inflight[k].Entered?
    ensures CountersOk(Lookup(c, k))
  {
    var c' := Lookup(c, k);
    assert Unclassified(c') == Unclassified(c) - {k};
    assert k in Unclassified(c) && k !in Recordable(c);
    assert Recordable(c') == if c'.misses > c.misses then Recordable(c) + {k} else Recordable(c);
  }

  lemma CountersAfterReturn(c: Cache, k: nat, result: Result<Rec>)
    requires CountersOk(c) && k in c.inflight && (c.inflight[k].Asking? || c.inflight[k].Bypassing?)
    ensures CountersOk(BackendReturns(c, k, result))
  {
    var c' := BackendReturns(c, k, result);
    assert Unclassified(c') == Unclassified(c);
    assert Recordable(c') <= Recordable(c);
    SubsetSize(Recordable(c'), Recordable(c));
  }

  lemma CountersAfterStore(c: Cache, k: nat)
    requires CountersOk(c) && k in c.inflight && c.inflight[k].Storing? && c.inflight[k].reply.answer != []
    ensures CountersOk(Store(c, k))
  {
    var c' := Store(c, k);
    assert Unclassified(c') == Unclassified(c);
    assert Recordable(c') == Recordable(c) - {k};
    assert k in Recordable(c);
  }

  lemma CountersKept(c: Cache, ev: Event)
    requires CountersOk(c)
    ensures CountersOk(Apply(c, ev))
  {
    match ev
    case DoEnter(k, query) => if k !in c.inflight { CountersAfterEnter(c, k, query); }
    case DoLookup(k) => if k in c.inflight && c.inflight[k].Entered? { CountersAfterLookup(c, k); }
    case DoReturn(k, result) =>
      if k in c.inflight && (c.inflight[k].Asking? || c.inflight[k].Bypassing?) {
        CountersAfterReturn(c, k, result);
      }
    case DoStore(k) => if CanStore(c, k) { CountersAfterStore(c, k); }
    case _ =>
  }

  /** Every step keeps the bound, the counters and the shape of what is cached or about to be. */
  lemma StepKeepsCache(c: Cache, ev: Event)
    requires CacheOk(c)
    ensures CacheOk(Apply(c, ev))
  {
    hide EntriesOk, InflightOk, CountersOk, Apply;
    EntriesKept(c, ev);
    InflightKept(c, ev);
    CountersKept(c, ev);
  }

  lemma {:induction false} StepsKeepCache(evs: seq<Event>)
    ensures CacheOk(ApplyAll(EMPTY, evs))
  {
    if evs != [] {
      StepsKeepCache(evs[..|evs| - 1]);
      StepKeepsCache(ApplyAll(EMPTY, evs[..|evs| - 1]), evs[|evs| - 1]);
    }
  }

  /** After any sequence of steps whatever: the cache has not outgrown its limit, however many misses are in progress;
      every answer in it has records, all with one TTL of at most two hours; every query is counted once, as soon as it
      has looked in the cache; and nothing is recorded without a miss. */
  lemma CacheBounded(evs: seq<Event>)
    ensures var c := ApplyAll(EMPTY, evs);
            && |c.entries| <= MAX_CACHE_SIZE
            && (forall q | q in c.entries :: AnswerOk(c.entries[q]))
            && c.recorded <= c.misses
            && c.bypassed + c.hits + c.misses <= c.total
            && (c.inflight == map[] ==> c.total == c.bypassed + c.hits + c.misses)
  {
    StepsKeepCache(evs);
    hide ApplyAll;
    var c := ApplyAll(EMPTY, evs);
    if c.inflight == map[] {
      assert Unclassified(c) == {};
    }
  }

  // ---------- what is remembered of a run ----------

  const SECOND: nat := 1_000_000_000
  const TICK: nat := PERIOD * SECOND

  /** When an entry was last stored: the time, how many collections there had been, and the answer as the backing
      resolver gave it. */
  datatype Stamp = Stamp(at: nat, tick: nat, origin: seq<Rec>)

  /** A reply served from the cache, when, after how many collections, and where its entry came from. */
  datatype Hit = Hit(query: Query, reply: Msg<Rec>, at: nat, tick: nat, stamp: Stamp)

  /** The cache, the clock, the number of collections so far, and a record of what happened. */
  datatype System = System(cache: Cache, clock: nat, ticks: nat, stamps: map<Question, Stamp>, served: seq<Hit>)

  const START: System := System(EMPTY, 0, 0, map[], [])

  /** The query `k` is about to find an answer in the cache. */
  predicate WillHit(s: System, k: nat) {
    && k in s.cache.inflight && s.cache.inflight[k].Entered?
    && IsHit(s.cache, s.cache.inflight[k].query)
  }

  ghost function Next(s: System, ev: Event): System {
    var c, s' := s.cache, s.(cache := Apply(s.cache, ev));
    match ev
    case DoLookup(k) =>
      if WillHit(s, k) && c.inflight[k].query.question[0] in s.stamps then
        var query := c.inflight[k].query;
        var q := query.question[0];
        s'.(served := s.served + [Hit(query, HitReply(query, c.entries[q]), s.clock, s.ticks, s.stamps[q])])
      else s'
    case DoStore(k) =>
      if CanStore(c, k) && HasRoom(c) then
        s'.(stamps := s.stamps[c.inflight[k].question := Stamp(s.clock, s.ticks, c.inflight[k].reply.answer)])
      else s'
    case DoCollect =>
      s'.(ticks := s.ticks + 1, stamps := map q | q in s.stamps && q in s'.cache.entries :: s.stamps[q])
    case DoFlush => s'.(stamps := map[])
    case DoWait(d) => s'.(clock := s.clock + d)
    case _ => s'
  }

  /** The state after the first `n` of the events. */
  ghost function At(evs: seq<Event>, n: nat): System
    requires n <= |evs|
  {
    if n == 0 then START else Next(At(evs, n - 1), evs[n - 1])
  }

  lemma AtNext(evs: seq<Event>, n: nat)
    requires n < |evs|
    ensures At(evs, n + 1) == Next(At(evs, n), evs[n])
  {
  }

  /** The caches of a run are those that its events give. */
  lemma {:induction false} RunApplies(evs: seq<Event>, n: nat)
    requires n <= |evs|
    ensures At(evs, n).cache == ApplyAll(EMPTY, evs[..n])
  {
    if n > 0 {
      RunApplies(evs, n - 1);
      assert evs[..n][..n - 1] == evs[..n - 1];
    }
    hide Apply;
  }

  /** The TTL that an answer is stored with. */
  function StoredTtl(stamp: Stamp): nat
    requires stamp.origin != []
  {
    LimitTtl(GetTtl(stamp.origin))
  }

  /** The answer has been through `n` collections since it was stored, and is still there. */
  ghost predicate Survives(stamp: Stamp, n: nat) {
    && stamp.origin != []
    && MIN_TTL <= StoredTtl(stamp)
    && PERIOD * n < StoredTtl(stamp)
  }

  /** What is then left of it. */
  function Aged(stamp: Stamp, n: nat): seq<Rec>
    requires stamp.origin != [] && PERIOD * n <= StoredTtl(stamp)
  {
    SetTtl(stamp.origin, StoredTtl(stamp) - PERIOD * n)
  }

  lemma AgedAgain(stamp: Stamp, n: nat)
    requires Survives(stamp, n)
    ensures Aged(stamp, n) != [] && GetTtl(Aged(stamp, n)) == StoredTtl(stamp) - PERIOD * n
    ensures Data(Aged(stamp, n)) == Data(stamp.origin)
    ensures GetTtl(Aged(stamp, n)) > PERIOD <==> Survives(stamp, n + 1)
    ensures Survives(stamp, n + 1) ==> SetTtl(Aged(stamp, n), GetTtl(Aged(stamp, n)) - PERIOD) == Aged(stamp, n + 1)
  {
  }

  ghost predicate StampOk(stamp: Stamp, answer: seq<Rec>, clock: nat, ticks: nat) {
    && stamp.at <= clock && stamp.tick <= ticks
    && Survives(stamp, ticks - stamp.tick)
    && answer == Aged(stamp, ticks - stamp.tick)
  }

  ghost predicate StampsOk(s: System) {
    && s.stamps.Keys == s.cache.entries.Keys
    && forall q | q in s.stamps :: StampOk(s.stamps[q], s.cache.entries[q], s.clock, s.ticks)
  }

  ghost predicate HitOk(h: Hit) {
    && |h.query.question| == 1
    && h.reply == HitReply(h.query, h.reply.answer)
    && StampOk(h.stamp, h.reply.answer, h.at, h.tick)
  }

  ghost predicate ServedOk(s: System) {
    forall i | 0 <= i < |s.served| :: HitOk(s.served[i])
  }

  lemma StampsAfterStore(s: System, k: nat)
    requires StampsOk(s) && InflightOk(s.cache) && CanStore(s.cache, k)
    ensures StampsOk(Next(s, DoStore(k)))
  {
    assert StoringOk(s.cache.inflight[k]);
    if HasRoom(s.cache) {
      var answer := s.cache.inflight[k].reply.answer;
      assert StoredAnswer(answer) == Aged(Stamp(s.clock, s.ticks, answer), 0);
    }
  }

  lemma StampsAfterCollect(s: System)
    requires StampsOk(s)
    ensures StampsOk(Next(s, DoCollect))
  {
    forall q | q in s.stamps {
      AgedAgain(s.stamps[q], s.ticks - s.stamps[q].tick);
    }
    hide Aged, SetTtl, Survives;
    assert NonEmptyEntries(s.cache);
  }

  lemma StampsKept(s: System, ev: Event)
    requires StampsOk(s) && InflightOk(s.cache)
    ensures StampsOk(Next(s, ev))
  {
    match ev
    case DoStore(k) =>
      if CanStore(s.cache, k) {
        StampsAfterStore(s, k);
      }
    case DoCollect => StampsAfterCollect(s);
    case _ =>
  }

  lemma ServedKept(s: System, ev: Event)
    requires StampsOk(s) && ServedOk(s)
    ensures ServedOk(Next(s, ev))
  {
    hide Survives, Aged, Apply;
  }

  /** In the state after `n` events each entry is the last answer stored for its question, with one TTL for all its
      records: that of the first one, capped, less a period for every collection since. */
  ghost predicate RunOk(evs: seq<Event>, n: nat)
    requires n <= |evs|
  {
    StampsOk(At(evs, n)) && ServedOk(At(evs, n)) && CacheOk(At(evs, n).cache)
  }

  lemma StartOk(evs: seq<Event>)
    ensures RunOk(evs, 0)
  {
  }

  lemma StampsAndHitsKept(s: System, ev: Event)
    requires StampsOk(s) && ServedOk(s) && CacheOk(s.cache)
    ensures StampsOk(Next(s, ev)) && ServedOk(Next(s, ev)) && CacheOk(Next(s, ev).cache)
  {
    assert Next(s, ev).cache == Apply(s.cache, ev);
    hide StampsOk, ServedOk, Next, Apply, EntriesOk, CountersOk;
    StampsKept(s, ev);
    ServedKept(s, ev);
    StepKeepsCache(s.cache, ev);
  }

  lemma NextOk(evs: seq<Event>, m: nat, n: nat)
    requires n == m + 1 <= |evs| && RunOk(evs, m)
    ensures RunOk(evs, n)
  {
    AtNext(evs, m);
    StampsAndHitsKept(At(evs, m), evs[m]);
    hide StampsOk, ServedOk, CacheOk, Next;
  }

  lemma {:induction false} RunKeepsStamps(evs: seq<Event>, n: nat)
    requires n <= |evs|
    ensures RunOk(evs, n)
  {
    hide *;
    if n == 0 {
      StartOk(evs);
    } else {
      RunKeepsStamps(evs, n - 1);
      NextOk(evs, n - 1, n);
    }
  }

  // ---------- what it means for callers ----------

  /** A reply is cached exactly when it is a complete, successful answer to the question that was asked. */
  lemma WantedIff<RR>(question: Question, reply: Msg<RR>)
    ensures WantToCache(question, reply).None? <==>
            && reply.rcode == RCODE_SUCCESS && reply.response && reply.opcode == OPCODE_QUERY && !reply.truncated
            && reply.answer != [] && reply.question == [question]
  {
    if |reply.question| == 1 {
      assert reply.question == [reply.question[0]];
    }
  }

  /** Collections come from a ticker: none of those in the first `n` events is early. */
  ghost predicate NeverEarly(evs: seq<Event>, n: nat)
    requires n <= |evs|
  {
    forall m | 0 <= m <= n :: At(evs, m).ticks * TICK <= At(evs, m).clock
  }

  /** At most `missed` collections are overdue. */
  predicate KeepsUp(clock: nat, ticks: nat, missed: nat) {
    clock < (ticks + 1 + missed) * TICK
  }

  /** At most `missed` collections are overdue whenever one of the first `n` events is a lookup. */
  ghost predicate LookupsKeepUp(evs: seq<Event>, n: nat, missed: nat)
    requires n <= |evs|
  {
    forall m | 0 <= m < n && evs[m].DoLookup? :: KeepsUp(At(evs, m).clock, At(evs, m).ticks, missed)
  }

  ghost predicate StampOnTime(stamp: Stamp) {
    stamp.tick * TICK <= stamp.at
  }

  /** What is cached, and what has been served, was not stored before its time. */
  ghost predicate StampsOnTime(s: System) {
    && (forall q | q in s.stamps :: StampOnTime(s.stamps[q]))
    && (forall i | 0 <= i < |s.served| :: StampOnTime(s.served[i].stamp))
  }

  ghost predicate ServedInTime(s: System, missed: nat) {
    forall i | 0 <= i < |s.served| :: KeepsUp(s.served[i].at, s.served[i].tick, missed)
  }

  lemma {:induction false} RunOnTime(evs: seq<Event>, n: nat)
    requires n <= |evs| && NeverEarly(evs, n)
    ensures StampsOnTime(At(evs, n))
  {
    hide Apply;
    if n > 0 {
      RunOnTime(evs, n - 1);
      AtNext(evs, n - 1);
      assert At(evs, n - 1).ticks * TICK <= At(evs, n - 1).clock;
    }
  }

  lemma {:induction false} RunServedInTime(evs: seq<Event>, n: nat, missed: nat)
    requires n <= |evs| && LookupsKeepUp(evs, n, missed)
    ensures ServedInTime(At(evs, n), missed)
  {
    hide Apply, KeepsUp;
    if n > 0 {
      RunServedInTime(evs, n - 1, missed);
      AtNext(evs, n - 1);
    }
  }

  /** A collection has run for every full period that an entry has been in the cache, but for those missed. */
  lemma Age(stamp: Stamp, clock: nat, ticks: nat, missed: nat)
    requires stamp.tick <= ticks && stamp.at <= clock && StampOnTime(stamp) && KeepsUp(clock, ticks, missed)
    ensures clock - stamp.at < (ticks - stamp.tick + 1 + missed) * TICK
    ensures (clock - stamp.at) / TICK <= ticks - stamp.tick + missed
  {
  }

  /** How old an answer with the stamp can be: its TTL has run down by a period for every full period since it was
      stored, but for the `missed` ones, and it is gone a period after the end of its TTL, and one more for each of
      them. */
  ghost predicate NotStale(stamp: Stamp, answer: seq<Rec>, clock: nat, missed: nat)
    requires stamp.origin != [] && answer != [] && stamp.at <= clock
  {
    && GetTtl(answer) + PERIOD * ((clock - stamp.at) / TICK) <= StoredTtl(stamp) + PERIOD * missed
    && clock - stamp.at < (StoredTtl(stamp) + PERIOD * (1 + missed)) * SECOND
  }

  lemma StampShape(stamp: Stamp, answer: seq<Rec>, clock: nat, ticks: nat)
    requires StampOk(stamp, answer, clock, ticks)
    ensures stamp.origin != [] && stamp.at <= clock && AnswerOk(answer)
  {
    AgedAgain(stamp, ticks - stamp.tick);
  }

  lemma StampNotStale(stamp: Stamp, answer: seq<Rec>, clock: nat, ticks: nat, missed: nat)
    requires StampOk(stamp, answer, clock, ticks) && StampOnTime(stamp) && KeepsUp(clock, ticks, missed)
    ensures stamp.origin != [] && stamp.at <= clock && answer != []
    ensures NotStale(stamp, answer, clock, missed)
  {
    AgedAgain(stamp, ticks - stamp.tick);
    Age(stamp, clock, ticks, missed);
  }

  /** Every cached answer is the one last stored for its question, each of its records with what is left of the one
      TTL. */
  lemma CachedAnswersAge(evs: seq<Event>, n: nat, q: Question)
    requires n <= |evs| && q in At(evs, n).cache.entries
    ensures var s := At(evs, n);
            && q in s.stamps
            && AnswerOk(s.cache.entries[q])
            && StampOk(s.stamps[q], s.cache.entries[q], s.clock, s.ticks)
  {
    RunKeepsStamps(evs, n);
    var s := At(evs, n);
    assert StampOk(s.stamps[q], s.cache.entries[q], s.clock, s.ticks);
    StampShape(s.stamps[q], s.cache.entries[q], s.clock, s.ticks);
    hide *;
  }

  /** In a run whose collections are never early, an entry is not stale in any state in which they have kept up with
      the clock, whether or not they had before. */
  lemma EntriesNotStale(evs: seq<Event>, n: nat, q: Question, missed: nat)
    requires n <= |evs| && q in At(evs, n).cache.entries
    requires NeverEarly(evs, n) && KeepsUp(At(evs, n).clock, At(evs, n).ticks, missed)
    ensures var s := At(evs, n);
            && q in s.stamps && s.stamps[q].origin != [] && s.cache.entries[q] != [] && s.stamps[q].at <= s.clock
            && NotStale(s.stamps[q], s.cache.entries[q], s.clock, missed)
  {
    CachedAnswersAge(evs, n, q);
    RunOnTime(evs, n);
    var s := At(evs, n);
    hide At, StampOk, StampOnTime, KeepsUp, NotStale, NeverEarly;
    StampNotStale(s.stamps[q], s.cache.entries[q], s.clock, s.ticks, missed);
  }

  /** A lookup that finds its question is answered, at that moment, with exactly what the cache holds. */
  lemma HitIsServed(evs: seq<Event>, n: nat, k: nat)
    requires n < |evs| && evs[n] == DoLookup(k) && WillHit(At(evs, n), k)
    ensures var s := At(evs, n);
            var query := s.cache.inflight[k].query;
            var q := query.question[0];
            && q in s.stamps
            && At(evs, n + 1).served ==
               s.served + [Hit(query, HitReply(query, s.cache.entries[q]), s.clock, s.ticks, s.stamps[q])]
  {
    RunKeepsStamps(evs, n);
  }

  /** The event is the backing resolver's reply to the question, and the answer in it is fit to be cached. */
  ghost predicate Gives(s: System, ev: Event, q: Question, answer: seq<Rec>) {
    && ev.DoReturn? && ev.result.Answered?
    && ev.k in s.cache.inflight && s.cache.inflight[ev.k].Asking? && s.cache.inflight[ev.k].question == q
    && WantToCache(q, ev.result.reply).None?
    && ev.result.reply.answer == answer
  }

  /** One of the first `n` events is such a reply. */
  ghost predicate Given(evs: seq<Event>, n: nat, q: Question, answer: seq<Rec>)
    requires n <= |evs|
  {
    exists j | 0 <= j < n :: Gives(At(evs, j), evs[j], q, answer)
  }

  ghost predicate StoringGiven(evs: seq<Event>, n: nat, s: System)
    requires n <= |evs|
  {
    forall k | k in s.cache.inflight && s.cache.inflight[k].Storing? ::
      Given(evs, n, s.cache.inflight[k].question, s.cache.inflight[k].reply.answer)
  }

  ghost predicate StampsGiven(evs: seq<Event>, n: nat, s: System)
    requires n <= |evs|
  {
    forall q | q in s.stamps :: Given(evs, n, q, s.stamps[q].origin)
  }

  ghost predicate ServedGiven(evs: seq<Event>, n: nat, s: System)
    requires n <= |evs|
  {
    forall i | 0 <= i < |s.served| ::
      |s.served[i].query.question| == 1 && Given(evs, n, s.served[i].query.question[0], s.served[i].stamp.origin)
  }

  lemma GivenLater(evs: seq<Event>, m: nat, n: nat)
    requires n == m + 1 <= |evs|
    ensures forall q, answer :: Given(evs, m, q, answer) ==> Given(evs, n, q, answer)
    ensures forall q, answer :: Gives(At(evs, m), evs[m], q, answer) ==> Given(evs, n, q, answer)
  {
    hide Gives, At;
  }

  lemma NextStoring(s: System, ev: Event, k: nat)
    requires k in Next(s, ev).cache.inflight && Next(s, ev).cache.inflight[k].Storing?
    ensures var stage := Next(s, ev).cache.inflight[k];
            || (k in s.cache.inflight && s.cache.inflight[k] == stage)
            || Gives(s, ev, stage.question, stage.reply.answer)
  {
  }

  lemma NextStamp(s: System, ev: Event, q: Question)
    requires q in Next(s, ev).stamps
    ensures || (q in s.stamps && s.stamps[q] == Next(s, ev).stamps[q])
            || exists k | k in s.cache.inflight && s.cache.inflight[k].Storing? ::
                 s.cache.inflight[k].question == q && s.cache.inflight[k].reply.answer == Next(s, ev).stamps[q].origin
  {
  }

  lemma NextServed(s: System, ev: Event, i: nat)
    requires i < |Next(s, ev).served|
    ensures var hit := Next(s, ev).served[i];
            || (i < |s.served| && hit == s.served[i])
            || (|hit.query.question| == 1 && hit.query.question[0] in s.stamps
                && hit.stamp == s.stamps[hit.query.question[0]])
  {
  }

  /** What is about to be stored, what is stored and what has been served was all given by the backing resolver. */
  ghost predicate AllGiven(evs: seq<Event>, n: nat)
    requires n <= |evs|
  {
    StoringGiven(evs, n, At(evs, n)) && StampsGiven(evs, n, At(evs, n)) && ServedGiven(evs, n, At(evs, n))
  }

  lemma StoringGivenKept(evs: seq<Event>, m: nat, n: nat, s: System)
    requires n == m + 1 <= |evs| && s == At(evs, m)
    requires StoringGiven(evs, m, s)
    ensures StoringGiven(evs, n, Next(s, evs[m]))
  {
    GivenLater(evs, m, n);
    hide Given, Gives, At, Next;
    var s' := Next(s, evs[m]);
    forall k | k in s'.cache.inflight && s'.cache.inflight[k].Storing?
      ensures Given(evs, n, s'.cache.inflight[k].question, s'.cache.inflight[k].reply.answer)
    {
      NextStoring(s, evs[m], k);
    }
  }

  lemma StampsGivenKept(evs: seq<Event>, m: nat, n: nat, s: System)
    requires n == m + 1 <= |evs| && s == At(evs, m)
    requires StoringGiven(evs, m, s) && StampsGiven(evs, m, s)
    ensures StampsGiven(evs, n, Next(s, evs[m]))
  {
    GivenLater(evs, m, n);
    hide Given, Gives, At, Next;
    var s' := Next(s, evs[m]);
    forall q | q in s'.stamps ensures Given(evs, n, q, s'.stamps[q].origin) {
      NextStamp(s, evs[m], q);
    }
  }

  lemma ServedGivenKept(evs: seq<Event>, m: nat, n: nat, s: System)
    requires n == m + 1 <= |evs| && s == At(evs, m)
    requires StampsGiven(evs, m, s) && ServedGiven(evs, m, s)
    ensures ServedGiven(evs, n, Next(s, evs[m]))
  {
    GivenLater(evs, m, n);
    hide Given, Gives, At, Next;
    var s' := Next(s, evs[m]);
    forall i | 0 <= i < |s'.served|
      ensures var hit := s'.served[i];
              |hit.query.question| == 1 && Given(evs, n, hit.query.question[0], hit.stamp.origin)
    {
      NextServed(s, evs[m], i);
    }
  }

  lemma GivenKept(evs: seq<Event>, m: nat, n: nat)
    requires n == m + 1 <= |evs| && AllGiven(evs, m)
    ensures AllGiven(evs, n)
  {
    var s := At(evs, m);
    AtNext(evs, m);
    StoringGivenKept(evs, m, n, s);
    StampsGivenKept(evs, m, n, s);
    ServedGivenKept(evs, m, n, s);
    hide StoringGiven, StampsGiven, ServedGiven, Next;
  }

  lemma StartGiven(evs: seq<Event>)
    ensures AllGiven(evs, 0)
  {
  }

  lemma {:induction false} RunGiven(evs: seq<Event>, n: nat)
    requires n <= |evs|
    ensures AllGiven(evs, n)
  {
    hide *;
    if n == 0 {
      StartGiven(evs);
    } else {
      RunGiven(evs, n - 1);
      GivenKept(evs, n - 1, n);
    }
  }

  /** Whatever the backing resolver says and however its replies change, a reply served from the cache carries the data
      of one that it gave, in this run, to the very question asked. */
  lemma HitsComeFromBackend(evs: seq<Event>, n: nat, i: nat)
    requires n <= |evs| && i < |At(evs, n).served|
    ensures var hit := At(evs, n).served[i];
            && |hit.query.question| == 1
            && hit.reply == HitReply(hit.query, hit.reply.answer)
            && Given(evs, n, hit.query.question[0], hit.stamp.origin)
            && Data(hit.reply.answer) == Data(hit.stamp.origin)
  {
    RunGiven(evs, n);
    RunKeepsStamps(evs, n);
    hide At, Given;
    var hit := At(evs, n).served[i];
    assert HitOk(hit);
    AgedAgain(hit.stamp, hit.tick - hit.stamp.tick);
  }

  /** The data the backing resolver has for each question. */
  type Oracle = Question -> seq<string>

  /** The data of a reply depends on nothing but the question. */
  ghost predicate Steady(evs: seq<Event>, oracle: Oracle) {
    forall j, q, answer | 0 <= j < |evs| && Gives(At(evs, j), evs[j], q, answer) :: Data(answer) == oracle(q)
  }

  /** If the data depends on nothing but the question, a reply served from the cache agrees with any that the backing
      resolver would have given instead: same outcome, same question, same data, whatever happened in between. */
  lemma HitsAgreeWithBackend(evs: seq<Event>, n: nat, i: nat, oracle: Oracle, direct: Msg<Rec>)
    requires n <= |evs| && i < |At(evs, n).served| && Steady(evs, oracle)
    requires forall q | At(evs, n).served[i].query.question == [q] ::
               WantToCache(q, direct).None? && Data(direct.answer) == oracle(q)
    ensures var hit := At(evs, n).served[i];
            && hit.reply.id == hit.query.id
            && hit.reply.rcode == direct.rcode
            && hit.reply.question == hit.query.question == direct.question
            && Data(hit.reply.answer) == Data(direct.answer)
  {
    HitsComeFromBackend(evs, n, i);
    var hit := At(evs, n).served[i];
    var q := hit.query.question[0];
    assert hit.query.question == [q];
    WantedIff(q, direct);
  }

  /** A reply served from the cache is the answer last stored for its question, less what the collections since have
      taken from its TTL. */
  lemma HitsAge(evs: seq<Event>, n: nat, i: nat)
    requires n <= |evs| && i < |At(evs, n).served|
    ensures var hit := At(evs, n).served[i];
            && AnswerOk(hit.reply.answer)
            && StampOk(hit.stamp, hit.reply.answer, hit.at, hit.tick)
  {
    RunKeepsStamps(evs, n);
    var hit := At(evs, n).served[i];
    assert HitOk(hit);
    StampShape(hit.stamp, hit.reply.answer, hit.at, hit.tick);
    hide *;
  }

  /** In a run whose collections are never early and keep up with the clock at every lookup, but for the `missed` ones,
      no reply served from the cache is stale. */
  lemma HitsNotStale(evs: seq<Event>, n: nat, i: nat, missed: nat)
    requires n <= |evs| && i < |At(evs, n).served|
    requires NeverEarly(evs, n) && LookupsKeepUp(evs, n, missed)
    ensures var hit := At(evs, n).served[i];
            && hit.stamp.origin != [] && hit.reply.answer != [] && hit.stamp.at <= hit.at
            && NotStale(hit.stamp, hit.reply.answer, hit.at, missed)
  {
    HitsAge(evs, n, i);
    RunOnTime(evs, n);
    RunServedInTime(evs, n, missed);
    var hit := At(evs, n).served[i];
    hide At, StampOk, StampOnTime, KeepsUp, NotStale, NeverEarly, LookupsKeepUp;
    StampNotStale(hit.stamp, hit.reply.answer, hit.at, hit.tick, missed);
  }

  // ---------- TTLs that grow ----------

  /** A record with a short TTL behind one with a long TTL gets the long one. */
  lemma TtlGrows()
    ensures StoredAnswer([Rec("a", 7200), Rec("b", 5)]) == [Rec("a", 7200), Rec("b", 7200)]
  {
  }

  /** Storing an answer makes no TTL longer exactly when none is shorter than the first one, capped. */
  lemma StoredTtlsIff(a: seq<Rec>)
    requires a != []
    ensures (forall i | 0 <= i < |a| :: StoredAnswer(a)[i].ttl <= a[i].ttl) <==>
            (forall i | 0 <= i < |a| :: LimitTtl(a[0].ttl) <= a[i].ttl)
  {
    var ttl := LimitTtl(a[0].ttl);
    assert forall i | 0 <= i < |a| :: StoredAnswer(a)[i].ttl == ttl;
  }

  /** The same holds of every reply ever served from the cache, taking into account the collections since: exactly then
      no record in it outlives what the backing resolver said. */
  lemma HitTtlsIff(evs: seq<Event>, n: nat, i: nat)
    requires n <= |evs| && i < |At(evs, n).served|
    ensures var hit := At(evs, n).served[i];
            var answer, origin := hit.reply.answer, hit.stamp.origin;
            && |answer| == |origin| > 0 && hit.stamp.tick <= hit.tick
            && ((forall m | 0 <= m < |answer| ::
                   answer[m].ttl + PERIOD * (hit.tick - hit.stamp.tick) <= origin[m].ttl) <==>
                (forall m | 0 <= m < |origin| :: LimitTtl(origin[0].ttl) <= origin[m].ttl))
  {
    RunKeepsStamps(evs, n);
    hide At;
    var hit := At(evs, n).served[i];
    assert HitOk(hit);
    var left := StoredTtl(hit.stamp) - PERIOD * (hit.tick - hit.stamp.tick);
    assert forall m | 0 <= m < |hit.reply.answer| :: hit.reply.answer[m].ttl == left;
  }
}
