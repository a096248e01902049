/** The caching resolver with its records as objects (internal/dnsserver/resolver.go). Each method is one stretch
    of the source between two releases of its lock, so a run is any sequence of calls. `published` collects every
    record that some caller or the cache has been given: none of them is ever written again. */
module CachingResolver {
  import opened Common
  import opened CacheSpec
  import opened CacheServing

  class RR {
    const data: string
    var ttl: nat

    constructor (data: string, ttl: nat)
      ensures this.data == data && this.ttl == ttl
    {
      this.data, this.ttl := data, ttl;
    }
  }

  ghost function Recs(rrs: seq<RR>): seq<Rec>
    reads rrs
  {
    seq(|rrs|, i requires 0 <= i < |rrs| reads rrs => Rec(rrs[i].data, rrs[i].ttl))
  }

  /** All the records of a reply. */
  ghost function Records(reply: Msg<RR>): set<RR> {
    (set rr | rr in reply.answer) + (set rr | rr in reply.ns) + (set rr | rr in reply.extra)
  }

  ghost function MsgView(reply: Msg<RR>): Msg<Rec>
    reads Records(reply)
  {
    Msg(reply.id, reply.response, reply.opcode, reply.authoritative, reply.truncated, reply.rcode, reply.question,
        Recs(reply.answer), Recs(reply.ns), Recs(reply.extra))
  }

  ghost function Held(stage: Stage<RR>): set<RR> {
    if stage.Storing? then Records(stage.reply) else {}
  }

  ghost function StageView(stage: Stage<RR>): Stage<Rec>
    reads Held(stage)
  {
    match stage
    case Entered(query) => Entered(query)
    case Bypassing(query) => Bypassing(query)
    case Asking(query, question) => Asking(query, question)
    case Storing(query, question, reply) => Storing(query, question, MsgView(reply))
  }

  /** The stage is the one seen; a reply to be stored has records, and they are all among the pending ones. */
  ghost predicate HoldsStage(stage: Stage<RR>, seen: Stage<Rec>, pending: set<RR>)
    reads pending
  {
    && Held(stage) <= pending
    && (stage.Storing? ==> stage.reply.answer != [])
    && StageView(stage) == seen
  }

  /** No two queries hold a record in common. */
  ghost predicate Apart(inflight: map<nat, Stage<RR>>) {
    forall k, l | k in inflight && l in inflight && k != l :: Held(inflight[k]) !! Held(inflight[l])
  }

  lemma ApartUpdate(inflight: map<nat, Stage<RR>>, k: nat, stage: Stage<RR>)
    requires Apart(inflight)
    requires forall l | l in inflight && l != k :: Held(stage) !! Held(inflight[l])
    ensures Apart(inflight[k := stage]) && Apart(inflight - {k})
  {
  }

  ghost function ResultRecords(result: Result<RR>): set<RR> {
    if result.Answered? then Records(result.reply) else {}
  }

  ghost function ResultView(result: Result<RR>): Result<Rec>
    reads ResultRecords(result)
  {
    match result
    case Answered(reply) => Answered(MsgView(reply))
    case Failed(error) => Failed(error)
  }

  /** Whether a reply goes on to be stored. */
  predicate WillStore(stage: Stage<RR>, result: Result<RR>)
    requires stage.Asking? || stage.Bypassing?
    reads ResultRecords(result)
  {
    if stage.Asking? && result.Answered? && WantToCache(stage.question, result.reply).None?
    then LimitTtl(result.reply.answer[0].ttl) >= MIN_TTL
    else false
  }

  lemma WillStoreIff(stage: Stage<RR>, result: Result<RR>)
    requires stage.Asking? || stage.Bypassing?
    ensures WillStore(stage, result) <==>
            stage.Asking? && result.Answered? && Complete(stage.question, result.reply)
            && result.reply.answer[0].ttl >= 120
  {
    if stage.Asking? && result.Answered? {
      WantedIff(stage.question, result.reply);
    }
  }

  /** The decision and its effect do not depend on who the records are. */
  lemma StoringSeen(stage: Stage<RR>, result: Result<RR>, c: Cache, k: nat)
    requires stage.Asking? || stage.Bypassing?
    requires k in c.inflight && c.inflight[k] == StageView(stage)
    ensures WillStore(stage, result) ==>
              && result.Answered? && result.reply.answer != [] && ResultRecords(result) == Records(result.reply)
              && CacheSpec.BackendReturns(c, k, ResultView(result)) ==
                 c.(inflight := c.inflight[k := Storing(stage.query, stage.question, MsgView(result.reply))])
    ensures !WillStore(stage, result) ==>
              CacheSpec.BackendReturns(c, k, ResultView(result)) == c.(inflight := c.inflight - {k})
  {
    if stage.Asking? && result.Answered? {
      assert WantToCache(stage.question, result.reply) == WantToCache(stage.question, MsgView(result.reply));
    }
  }

  /** What a collection does to one entry. */
  ghost function CollectOne(entries: Entries, q: Question): Entries
    requires q in entries && entries[q] != []
  {
    if GetTtl(entries[q]) > PERIOD then entries[q := SetTtl(entries[q], GetTtl(entries[q]) - PERIOD)]
    else entries - {q}
  }

  /** The entries still to do are as they were; the others have been collected. */
  ghost predicate PartlyCollected(before: Entries, todo: set<Question>, now: Entries) {
    && (forall q | q in before :: before[q] != [])
    && todo <= before.Keys
    && (forall q :: q in now <==> q in before && (q in todo || GetTtl(before[q]) > PERIOD))
    && (forall q | q in now ::
          now[q] == if q in todo then before[q] else SetTtl(before[q], GetTtl(before[q]) - PERIOD))
  }

  lemma CollectedOne(before: Entries, todo: set<Question>, now: Entries, q: Question)
    requires PartlyCollected(before, todo, now) && q in todo
    ensures q in now && now[q] != [] && PartlyCollected(before, todo - {q}, CollectOne(now, q))
  {
  }

  lemma CollectedAll(c: Cache, now: Entries)
    requires NonEmptyEntries(c) && PartlyCollected(c.entries, {}, now)
    ensures CacheSpec.Collect(c) == c.(entries := now)
  {
    assert CacheSpec.Collect(c).entries == now;
  }

  lemma StoreCases(c: Cache, k: nat)
    requires k in c.inflight && c.inflight[k].Storing? && c.inflight[k].reply.answer != []
    ensures var done := c.(inflight := c.inflight - {k});
            CacheSpec.Store(c, k) ==
            if |c.entries| < MAX_CACHE_SIZE then
              done.(entries := c.entries[c.inflight[k].question := StoredAnswer(c.inflight[k].reply.answer)],
                    recorded := c.recorded + 1)
            else done
  {
  }

  lemma LookupCases(c: Cache, k: nat)
    requires k in c.inflight && c.inflight[k].Entered?
    ensures var query := c.inflight[k].query;
            && (IsHit(c, query) <==> |query.question| == 1 && query.question[0] in c.entries)
            && CacheSpec.Lookup(c, k) ==
               if |query.question| != 1 then
                 c.(bypassed := c.bypassed + 1, inflight := c.inflight[k := Bypassing(query)])
               else if query.question[0] in c.entries then c.(hits := c.hits + 1, inflight := c.inflight - {k})
               else c.(misses := c.misses + 1, inflight := c.inflight[k := Asking(query, query.question[0])])
  {
  }

  // ---------- on slices of records ----------

  method SetTtls(answer: seq<RR>, ttl: nat)
    modifies answer
    ensures Recs(answer) == SetTtl(old(Recs(answer)), ttl)
    ensures forall rr | rr in answer :: rr.ttl == ttl
  {
    for i := 0 to |answer|
      invariant forall k | 0 <= k < i :: answer[k].ttl == ttl
    {
      answer[i].ttl := ttl;
    }
  }

  method CopyRRs(a: seq<RR>) returns (b: seq<RR>)
    ensures fresh(b)
    ensures Recs(b) == Recs(a)
  {
    b := [];
    for i := 0 to |a|
      invariant |b| == i && fresh(b)
      invariant forall k | 0 <= k < i :: b[k].data == a[k].data && b[k].ttl == a[k].ttl
    {
      var rr := new RR(a[i].data, a[i].ttl);
      b := b + [rr];
    }
  }

  /** Records of its own, with the given TTL. */
  method AgedCopy(a: seq<RR>, ttl: nat) returns (b: seq<RR>)
    ensures fresh(b) && |b| == |a|
    ensures Recs(b) == SetTtl(Recs(a), ttl)
  {
    b := CopyRRs(a);
    SetTtls(b, ttl);
  }

  method NewRRs(recs: seq<Rec>) returns (b: seq<RR>)
    ensures fresh(b)
    ensures Recs(b) == recs
  {
    b := [];
    for i := 0 to |recs|
      invariant |b| == i && fresh(b)
      invariant forall k | 0 <= k < i :: Rec(b[k].data, b[k].ttl) == recs[k]
    {
      var rr := new RR(recs[i].data, recs[i].ttl);
      b := b + [rr];
    }
  }

  /** A backing resolver hands out records that no one else has. */
  method NewResult(seen: Result<Rec>) returns (result: Result<RR>)
    ensures fresh(ResultRecords(result))
    ensures ResultView(result) == seen
  {
    match seen
    case Failed(error) => result := Failed(error);
    case Answered(m) =>
      var answer := NewRRs(m.answer);
      var ns := NewRRs(m.ns);
      var extra := NewRRs(m.extra);
      result := Answered(Msg(m.id, m.response, m.opcode, m.authoritative, m.truncated, m.rcode, m.question,
                             answer, ns, extra));
  }

  class CachingResolver {
    var answer: map<Question, seq<RR>>
    var inflight: map<nat, Stage<RR>>
    var total: nat
    var bypassed: nat
    var hits: nat
    var misses: nat
    var recorded: nat
    ghost var published: set<RR>  // given to some caller or to the cache
    ghost var pending: set<RR>    // held by the queries about to store a reply

    /** The cache holds the entries, all of published records. */
    ghost predicate HoldsEntries(entries: Entries)
      reads this`answer, this`published, published
    {
      && answer.Keys == entries.Keys
      && forall q | q in answer ::
           answer[q] != [] && (forall rr | rr in answer[q] :: rr in published) && Recs(answer[q]) == entries[q]
    }

    /** The queries in progress are at the stages; no two of them hold a record in common. */
    ghost predicate HoldsQueries(stages: map<nat, Stage<Rec>>)
      reads this`inflight, this`pending, pending
    {
      && inflight.Keys == stages.Keys
      && (forall k | k in inflight :: HoldsStage(inflight[k], stages[k], pending))
      && Apart(inflight)
    }

    /** The stored state is the cache `c`, and nothing that a query still holds has been published. */
    ghost predicate Models(c: Cache)
      reads this, published, pending
    {
      && HoldsEntries(c.entries)
      && HoldsQueries(c.inflight)
      && published !! pending
      && total == c.total && bypassed == c.bypassed && hits == c.hits && misses == c.misses
      && recorded == c.recorded
    }

    constructor ()
      ensures Models(EMPTY) && published == {} && pending == {}
    {
      answer, inflight := map[], map[];
      total, bypassed, hits, misses, recorded := 0, 0, 0, 0, 0;
      published, pending := {}, {};
    }

    // ---------- moving a query along ----------

    method Advance(k: nat, stage: Stage<RR>, ghost stages: map<nat, Stage<Rec>>)
      requires HoldsQueries(stages) && !stage.Storing?
      modifies this`inflight
      ensures inflight == old(inflight)[k := stage]
      ensures HoldsQueries(stages[k := StageView(stage)])
    {
      ApartUpdate(inflight, k, stage);
      hide Apart;
      inflight := inflight[k := stage];
    }

    method Leave(k: nat, ghost stages: map<nat, Stage<Rec>>)
      requires HoldsQueries(stages)
      modifies this`inflight
      ensures inflight == old(inflight) - {k}
      ensures HoldsQueries(stages - {k})
    {
      inflight := inflight - {k};
    }

    method Hold(k: nat, query: Query, question: Question, reply: Msg<RR>, ghost stages: map<nat, Stage<Rec>>)
      requires HoldsQueries(stages)
      requires k in inflight && !inflight[k].Storing? && reply.answer != [] && Records(reply) !! pending
      modifies this`inflight, this`pending
      ensures inflight == old(inflight)[k := Storing(query, question, reply)]
      ensures pending == old(pending) + Records(reply)
      ensures HoldsQueries(stages[k := Storing(query, question, old(MsgView(reply)))])
    {
      inflight := inflight[k := Storing(query, question, reply)];
      pending := pending + Records(reply);
    }

    /** The query gives up the records it held. */
    method Release(k: nat, ghost stages: map<nat, Stage<Rec>>)
      requires HoldsQueries(stages)
      requires k in inflight && inflight[k].Storing?
      modifies this`inflight, this`pending
      ensures inflight == old(inflight) - {k}
      ensures pending == old(pending) - old(Records(inflight[k].reply))
      ensures HoldsQueries(stages - {k})
    {
      pending := pending - Records(inflight[k].reply);
      inflight := inflight - {k};
    }

    method MoveTo(k: nat, stage: Stage<RR>, ghost c: Cache)
      requires Models(c) && !stage.Storing?
      modifies this`inflight
      ensures inflight == old(inflight)[k := stage]
      ensures Models(c.(inflight := c.inflight[k := StageView(stage)]))
    {
      hide HoldsEntries, HoldsQueries;
      Advance(k, stage, c.inflight);
    }

    /** The query is over and its caller has been given the records. */
    method Finish(k: nat, ghost rrs: set<RR>, ghost c: Cache)
      requires Models(c) && rrs !! pending
      modifies this`inflight, this`published
      ensures inflight == old(inflight) - {k} && published == old(published) + rrs
      ensures Models(c.(inflight := c.inflight - {k}))
    {
      Publish(rrs, c.entries);
      hide HoldsEntries, HoldsQueries;
      Leave(k, c.inflight);
    }

    ghost method Publish(rrs: set<RR>, entries: Entries)
      requires HoldsEntries(entries)
      modifies this`published
      ensures published == old(published) + rrs
      ensures HoldsEntries(entries)
    {
      published := published + rrs;
    }

    lemma Seen(c: Cache, k: nat)
      requires Models(c) && k in inflight
      ensures k in c.inflight && c.inflight[k] == StageView(inflight[k])
      ensures c.entries.Keys == answer.Keys
      ensures forall q, rr | q in answer && rr in answer[q] :: rr in published
    {
    }

    /** Writes the TTLs of a reply that no one else holds, caches its answer and publishes it. */
    method PutNew(question: Question, reply: Msg<RR>, ghost entries: Entries)
      requires HoldsEntries(entries) && reply.answer != [] && Records(reply) !! published
      modifies this`answer, this`recorded, this`published, reply.answer
      ensures answer == old(answer)[question := reply.answer]
      ensures recorded == old(recorded) + 1
      ensures published == old(published) + Records(reply)
      ensures HoldsEntries(entries[question := StoredAnswer(old(Recs(reply.answer)))])
    {
      var ttl := LimitTtl(reply.answer[0].ttl);
      assert StoredAnswer(Recs(reply.answer)) == SetTtl(Recs(reply.answer), ttl);
      WriteUnpublished(reply.answer, ttl, entries);
      answer := answer[question := reply.answer];
      recorded := recorded + 1;
      published := published + Records(reply);
    }

    method WriteUnpublished(rrs: seq<RR>, ttl: nat, ghost entries: Entries)
      requires HoldsEntries(entries) && forall rr | rr in rrs :: rr !in published
      modifies rrs
      ensures HoldsEntries(entries)
      ensures Recs(rrs) == SetTtl(old(Recs(rrs)), ttl)
    {
      SetTtls(rrs, ttl);
      forall q | q in answer ensures Recs(answer[q]) == old(Recs(answer[q])) {
        assert forall rr | rr in answer[q] :: rr in published && rr !in rrs;
      }
    }

    // ---------- the steps ----------

    /** A query arrives. */
    method Enter(k: nat, query: Query, ghost c: Cache)
      requires Models(c) && k !in inflight
      modifies this
      ensures published == old(published) && pending == old(pending)
      ensures Models(CacheSpec.Enter(c, k, query))
    {
      total := total + 1;
      MoveTo(k, Entered(query), c.(total := c.total + 1));
    }

    /** It passes the cache by, or looks in it. A hit is answered at once, with the cached records themselves. */
    method Lookup(k: nat, ghost c: Cache) returns (reply: Option<Msg<RR>>)
      requires Models(c) && k in inflight && inflight[k].Entered?
      modifies this
      ensures published == old(published) && pending == old(pending) && answer == old(answer)
      ensures Models(CacheSpec.Lookup(c, k))
      ensures reply.Some? <==> IsHit(c, old(inflight[k].query))
      ensures reply.Some? ==>
                var query := old(inflight[k].query);
                var q := query.question[0];
                && query.question == [q] && q in answer
                && reply.value == Msg(query.id, true, 0, false, false, 0, [q], answer[q], [], [])
                && Records(reply.value) <= published
    {
      hide Models, CacheSpec.Lookup, IsHit;
      Seen(c, k);
      LookupCases(c, k);
      var query := inflight[k].query;
      if |query.question| != 1 {
        reply := None;
        Bypass(k, query, c);
      } else if query.question[0] in answer {
        reply := Some(HitReply(query, answer[query.question[0]]));
        Hit(k, c);
      } else {
        reply := None;
        Miss(k, query, c);
      }
    }

    method Bypass(k: nat, query: Query, ghost c: Cache)
      requires Models(c)
      modifies this`bypassed, this`inflight
      ensures Models(c.(bypassed := c.bypassed + 1, inflight := c.inflight[k := Bypassing(query)]))
    {
      hide HoldsEntries, HoldsQueries;
      bypassed := bypassed + 1;
      MoveTo(k, Bypassing(query), c.(bypassed := c.bypassed + 1));
    }

    method Hit(k: nat, ghost c: Cache)
      requires Models(c)
      modifies this`hits, this`inflight
      ensures Models(c.(hits := c.hits + 1, inflight := c.inflight - {k}))
    {
      hide HoldsEntries, HoldsQueries;
      hits := hits + 1;
      Leave(k, c.inflight);
    }

    method Miss(k: nat, query: Query, ghost c: Cache)
      requires Models(c) && |query.question| == 1
      modifies this`misses, this`inflight
      ensures Models(c.(misses := c.misses + 1, inflight := c.inflight[k := Asking(query, query.question[0])]))
    {
      hide HoldsEntries, HoldsQueries;
      misses := misses + 1;
      MoveTo(k, Asking(query, query.question[0]), c.(misses := c.misses + 1));
    }

    /** The backing resolver answers, with records of its own. The caller gets the result, unless it is to be stored
        first. */
    method BackendReturns(k: nat, result: Result<RR>, ghost c: Cache) returns (passed: Option<Result<RR>>)
      requires Models(c) && k in inflight && (inflight[k].Asking? || inflight[k].Bypassing?)
      requires ResultRecords(result) !! published + pending
      modifies this
      ensures old(published) <= published && pending <= old(pending) + ResultRecords(result)
      ensures Models(CacheSpec.BackendReturns(c, k, old(ResultView(result))))
      ensures passed == if k in inflight then None else Some(result)
      ensures passed.None? <==>
                && old(inflight[k].Asking?) && result.Answered?
                && Complete(old(inflight[k].question), result.reply) && old(result.reply.answer[0].ttl) >= 120
      ensures passed.Some? ==> ResultRecords(result) <= published
    {
      var stage := inflight[k];
      var store := WillStore(stage, result);
      WillStoreIff(stage, result);
      hide *;
      Seen(c, k);
      StoringSeen(stage, result, c, k);
      if store {
        KeepForStoring(k, stage, result.reply, c);
        passed := None;
      } else {
        Finish(k, ResultRecords(result), c);
        passed := Some(result);
      }
    }

    method KeepForStoring(k: nat, stage: Stage<RR>, reply: Msg<RR>, ghost c: Cache)
      requires Models(c) && k in inflight && inflight[k] == stage && stage.Asking?
      requires reply.answer != [] && Records(reply) !! published + pending
      modifies this`inflight, this`pending
      ensures inflight == old(inflight)[k := Storing(stage.query, stage.question, reply)]
      ensures pending == old(pending) + Records(reply)
      ensures Models(c.(inflight := c.inflight[k := Storing(stage.query, stage.question, old(MsgView(reply)))]))
    {
      hide HoldsEntries, HoldsQueries;
      Hold(k, stage.query, stage.question, reply, c.inflight);
    }

    /** The reply is put in the cache, if there is room, and given to the caller. Only now are its TTLs written,
        while no one else has its records. */
    method Store(k: nat, ghost c: Cache) returns (reply: Msg<RR>)
      requires Models(c) && k in inflight && inflight[k].Storing?
      modifies this, inflight[k].reply.answer
      ensures reply == old(inflight[k].reply)
      ensures published == old(published) + Records(reply) && pending <= old(pending)
      ensures forall rr | rr in old(published) :: rr.ttl == old(rr.ttl)
      ensures c.inflight[k].Storing? && c.inflight[k].reply.answer != [] && Models(CacheSpec.Store(c, k))
    {
      hide *;
      var question := inflight[k].question;
      reply := inflight[k].reply;
      SeenStoring(c, k);
      StoreCases(c, k);
      ReleaseReply(k, c);
      if |answer| < MAX_CACHE_SIZE {
        Insert(question, reply, c.(inflight := c.inflight - {k}));
      } else {
        PublishReply(reply, c.(inflight := c.inflight - {k}));
      }
    }

    method ReleaseReply(k: nat, ghost c: Cache)
      requires Models(c) && k in inflight && inflight[k].Storing?
      modifies this`inflight, this`pending
      ensures Models(c.(inflight := c.inflight - {k}))
      ensures old(Records(inflight[k].reply)) !! published + pending
      ensures pending <= old(pending)
    {
      hide HoldsEntries;
      ghost var rrs := Records(inflight[k].reply);
      assert rrs <= pending;
      Release(k, c.inflight);
    }

    method Insert(question: Question, reply: Msg<RR>, ghost c: Cache)
      requires Models(c) && reply.answer != [] && Records(reply) !! published + pending
      modifies this`answer, this`recorded, this`published, reply.answer
      ensures published == old(published) + Records(reply)
      ensures forall rr | rr in old(published) :: rr.ttl == old(rr.ttl)
      ensures Models(c.(entries := c.entries[question := StoredAnswer(old(Recs(reply.answer)))],
                        recorded := c.recorded + 1))
    {
      hide HoldsEntries, HoldsQueries, StoredAnswer;
      PutNew(question, reply, c.entries);
    }

    method PublishReply(reply: Msg<RR>, ghost c: Cache)
      requires Models(c) && Records(reply) !! published + pending
      modifies this`published
      ensures published == old(published) + Records(reply)
      ensures Models(c)
    {
      Publish(Records(reply), c.entries);
    }

    lemma SeenStoring(c: Cache, k: nat)
      requires Models(c) && k in inflight && inflight[k].Storing?
      ensures k in c.inflight
      ensures c.inflight[k] == Storing(inflight[k].query, inflight[k].question, MsgView(inflight[k].reply))
      ensures |c.entries| == |answer|
      ensures inflight[k].reply.answer != [] && Records(inflight[k].reply) <= pending
      ensures c.inflight[k].reply.answer == Recs(inflight[k].reply.answer) != []
    {
      assert |c.entries.Keys| == |answer.Keys|;
    }

    /** Every entry gets older by a period, or goes. The records that others may have are left alone: an entry that
        stays is replaced by a copy. */
    method Collect(ghost c: Cache)
      requires Models(c)
      modifies this`answer, this`published
      ensures old(published) <= published
      ensures NonEmptyEntries(c) && Models(CacheSpec.Collect(c))
    {
      hide HoldsEntries, HoldsQueries;
      var todo := answer.Keys;
      ghost var entries := c.entries;
      SeenEntries(c);
      while todo != {}
        invariant HoldsEntries(entries)
        invariant HoldsQueries(c.inflight)
        invariant old(published) <= published && published !! pending
        invariant PartlyCollected(c.entries, todo, entries)
        decreases todo
      {
        var q :| q in todo;
        CollectedOne(c.entries, todo, entries, q);
        CollectEntry(q, entries);
        entries := CollectOne(entries, q);
        todo := todo - {q};
      }
      CollectedAll(c, entries);
    }

    lemma SeenEntries(c: Cache)
      requires Models(c)
      ensures NonEmptyEntries(c) && answer.Keys == c.entries.Keys
    {
      forall q | q in c.entries ensures c.entries[q] != [] {
        assert |Recs(answer[q])| == |answer[q]|;
      }
    }

    method CollectEntry(q: Question, ghost entries: Entries)
      requires HoldsEntries(entries) && q in entries && entries[q] != []
      modifies this`answer, this`published
      ensures old(published) <= published && fresh(published - old(published))
      ensures HoldsEntries(CollectOne(entries, q))
    {
      var newTtl: int := answer[q][0].ttl - PERIOD;
      assert GetTtl(entries[q]) == answer[q][0].ttl by {
        assert Recs(answer[q]) == entries[q];
      }
      hide HoldsEntries, SetTtl, GetTtl;
      if newTtl > 0 {
        AgeEntry(q, newTtl, entries);
      } else {
        DropEntry(q, entries);
      }
    }

    method AgeEntry(q: Question, newTtl: nat, ghost entries: Entries)
      requires HoldsEntries(entries) && q in entries && entries[q] != []
      modifies this`answer, this`published
      ensures old(published) <= published && fresh(published - old(published))
      ensures HoldsEntries(entries[q := SetTtl(entries[q], newTtl)])
    {
      assert q in answer && Recs(answer[q]) == entries[q] && answer[q] != [];
      hide Recs, SetTtl, GetTtl;
      var newAnswer := AgedCopy(answer[q], newTtl);
      answer := answer[q := newAnswer];
      published := published + set rr | rr in newAnswer;
    }

    method DropEntry(q: Question, ghost entries: Entries)
      requires HoldsEntries(entries)
      modifies this`answer
      ensures HoldsEntries(entries - {q})
    {
      hide Recs;
      answer := answer - {q};
    }

    /** The cache is emptied. */
    method Flush(ghost c: Cache)
      requires Models(c)
      modifies this
      ensures published == old(published) && pending == old(pending)
      ensures Models(CacheSpec.Flush(c)) && answer == map[] && inflight == old(inflight)
    {
      answer := map[];
    }
  }

  // ---------- any interleaving ----------

  /** One event, if it can happen: the cache that is seen changes as `Apply` says, and no record that was published
      before is written. */
  method Do(r: CachingResolver, ev: Event, ghost c: Cache)
    requires r.Models(c)
    modifies r, r.pending
    ensures r.Models(Apply(c, ev))
    ensures old(r.published) <= r.published && fresh(r.pending - old(r.pending))
    ensures forall rr | rr in old(r.published) :: rr.ttl == old(rr.ttl)
  {
    StagesSeen(r, c);
    hide r.Models, CacheSpec.Enter, CacheSpec.Lookup, CacheSpec.BackendReturns, CacheSpec.Store, CacheSpec.Collect,
         CacheSpec.Flush, HitReply, IsHit, ResultView, NonEmptyEntries;
    match ev
    case DoEnter(k, query) =>
      if k !in r.inflight {
        r.Enter(k, query, c);
      }
    case DoLookup(k) =>
      if k in r.inflight && r.inflight[k].Entered? {
        var _ := r.Lookup(k, c);
      }
    case DoReturn(k, seen) =>
      if k in r.inflight && (r.inflight[k].Asking? || r.inflight[k].Bypassing?) {
        var result := NewResult(seen);
        var _ := r.BackendReturns(k, result, c);
      }
    case DoStore(k) =>
      if k in r.inflight && r.inflight[k].Storing? {
        var _ := r.Store(k, c);
      }
    case DoCollect => r.Collect(c);
    case DoFlush => r.Flush(c);
    case DoWait(_) =>
  }

  lemma StagesSeen(r: CachingResolver, c: Cache)
    requires r.Models(c)
    ensures r.inflight.Keys == c.inflight.Keys
    ensures forall k | k in r.inflight ::
              && (r.inflight[k].Entered? <==> c.inflight[k].Entered?)
              && (r.inflight[k].Asking? <==> c.inflight[k].Asking?)
              && (r.inflight[k].Bypassing? <==> c.inflight[k].Bypassing?)
              && (c.inflight[k].Storing? ==> c.inflight[k].reply.answer != [])
    ensures forall k | k in r.inflight && r.inflight[k].Storing? :: Records(r.inflight[k].reply) <= r.pending
    ensures r.published !! r.pending
  {
    forall k | k in r.inflight && r.inflight[k].Storing? ensures c.inflight[k].reply.answer != [] {
      r.SeenStoring(c, k);
    }
  }

  /** Any sequence of events whatever: every record published before it, and so by the time of any event in it,
      still has its TTL at the end. */
  method Run(r: CachingResolver, evs: seq<Event>, ghost c: Cache)
    requires r.Models(c)
    modifies r, r.pending
    ensures r.Models(ApplyAll(c, evs))
    ensures old(r.published) <= r.published
    ensures forall rr | rr in old(r.published) :: rr.ttl == old(rr.ttl)
  {
    ghost var now := c;
    for i := 0 to |evs|
      invariant now == ApplyAll(c, evs[..i])
      invariant r.Models(now)
      invariant old(r.published) <= r.published && fresh(r.pending - old(r.pending))
      invariant forall rr | rr in old(r.published) :: rr.ttl == old(rr.ttl)
    {
      hide r.Models, Apply;
      assert evs[..i + 1][..i] == evs[..i];
      Do(r, evs[i], now);
      now := Apply(now, evs[i]);
    }
    assert evs[..|evs|] == evs;
  }

  /** So a resolver that started empty has, after any sequence of events, at most the entries allowed, each of records
      that all have one TTL of at most two hours; and its counters add up. */
  lemma ReachableBounded(r: CachingResolver, evs: seq<Event>)
    requires r.Models(ApplyAll(EMPTY, evs))
    ensures |r.answer| <= MAX_CACHE_SIZE
    ensures forall q | q in r.answer ::
              r.answer[q] != [] && forall rr | rr in r.answer[q] :: 0 < rr.ttl == r.answer[q][0].ttl <= MAX_TTL
    ensures r.recorded <= r.misses && r.bypassed + r.hits + r.misses <= r.total
    ensures r.inflight == map[] ==> r.total == r.bypassed + r.hits + r.misses
  {
    CacheBounded(evs);
    hide ApplyAll;
    var c := ApplyAll(EMPTY, evs);
    assert |r.answer.Keys| == |c.entries.Keys|;
    forall q | q in r.answer
      ensures r.answer[q] != [] && forall rr | rr in r.answer[q] :: 0 < rr.ttl == r.answer[q][0].ttl <= MAX_TTL
    {
      assert AnswerOk(c.entries[q]) && Recs(r.answer[q]) == c.entries[q];
      forall rr | rr in r.answer[q] ensures 0 < rr.ttl == r.answer[q][0].ttl <= MAX_TTL {
        var i :| 0 <= i < |r.answer[q]| && r.answer[q][i] == rr;
        assert Recs(r.answer[q])[i].ttl == rr.ttl;
      }
    }
    if r.inflight == map[] {
      assert c.inflight.Keys == {};
    }
  }
}
