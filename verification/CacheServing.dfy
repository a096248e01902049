/** What the cache is for (internal/dnsserver/resolver.go): which replies are kept, for how long, and that they are
    served meanwhile. All of it is stated in numbers and fields, over any run. */
module CacheServing {
  import opened Common
  import opened CacheSpec

  /** The reply is a complete, successful answer to the question. */
  predicate Complete<RR>(q: Question, reply: Msg<RR>) {
    && reply.rcode == 0 && reply.response && reply.opcode == 0 && !reply.truncated
    && reply.question == [q] && reply.answer != []
  }

  /** The same records, all with the one TTL. */
  predicate IsCopy(entry: seq<Rec>, answer: seq<Rec>, ttl: nat) {
    && |entry| == |answer|
    && forall i | 0 <= i < |entry| :: entry[i].data == answer[i].data && entry[i].ttl == ttl
  }

  /** The TTL of the first record, but at most two hours. */
  function CappedTtl(answer: seq<Rec>): nat
    requires answer != []
  {
    if answer[0].ttl <= 7200 then answer[0].ttl else 7200
  }

  // ---------- which replies are stored ----------

  /** A query that missed goes on to store the reply exactly when that is complete and its first TTL is at least two
      minutes; otherwise it is over, and nothing else has changed. */
  lemma ReturnIff(evs: seq<Event>, n: nat, k: nat, result: Result<Rec>)
    requires n < |evs| && evs[n] == DoReturn(k, result)
    requires k in At(evs, n).cache.inflight && At(evs, n).cache.inflight[k].Asking?
    ensures var c, c' := At(evs, n).cache, At(evs, n + 1).cache;
            var query, q := c.inflight[k].query, c.inflight[k].question;
            c' == c.(inflight :=
              if result.Answered? && Complete(q, result.reply) && result.reply.answer[0].ttl >= 120
              then c.inflight[k := Storing(query, q, result.reply)]
              else c.inflight - {k})
  {
    AtNext(evs, n);
    if result.Answered? {
      WantedIff(At(evs, n).cache.inflight[k].question, result.reply);
    }
  }

  /** A query keeps the reply until it stores it. */
  lemma {:induction false} StoringStays(evs: seq<Event>, n: nat, m: nat, k: nat)
    requires n <= m <= |evs| && k in At(evs, n).cache.inflight && At(evs, n).cache.inflight[k].Storing?
    requires forall j | n <= j < m :: evs[j] != DoStore(k)
    ensures k in At(evs, m).cache.inflight && At(evs, m).cache.inflight[k] == At(evs, n).cache.inflight[k]
    decreases m
  {
    if n < m {
      StoringStays(evs, n, m - 1, k);
      AtNext(evs, m - 1);
      StageStays(At(evs, m - 1), evs[m - 1], k);
    }
    hide Next, Apply;
  }

  lemma StageStays(s: System, ev: Event, k: nat)
    requires k in s.cache.inflight && s.cache.inflight[k].Storing? && ev != DoStore(k)
    ensures k in Next(s, ev).cache.inflight && Next(s, ev).cache.inflight[k] == s.cache.inflight[k]
  {
  }

  /** Storing a reply, while there are fewer than 2000 entries: its records are in the cache under the question, all
      with the TTL of the first, capped; otherwise the query is just over. */
  lemma StoreAdds(evs: seq<Event>, m: nat, k: nat)
    requires m < |evs| && evs[m] == DoStore(k)
    requires k in At(evs, m).cache.inflight && At(evs, m).cache.inflight[k].Storing?
    ensures var c, c' := At(evs, m).cache, At(evs, m + 1).cache;
            var q, answer := c.inflight[k].question, c.inflight[k].reply.answer;
            && answer != []
            && c'.inflight == c.inflight - {k}
            && if |c.entries| < 2000
               then
                 && q in c'.entries && IsCopy(c'.entries[q], answer, CappedTtl(answer))
                 && c'.entries == c.entries[q := c'.entries[q]] && c'.recorded == c.recorded + 1
               else c'.entries == c.entries && c'.recorded == c.recorded
  {
    AtNext(evs, m);
    RunKeepsStamps(evs, m);
    assert StoringOk(At(evs, m).cache.inflight[k]);
    hide *;
    StoreStep(At(evs, m), k);
  }

  lemma StoreStep(s: System, k: nat)
    requires k in s.cache.inflight && s.cache.inflight[k].Storing? && StoringOk(s.cache.inflight[k])
    ensures var c, c' := s.cache, Next(s, DoStore(k)).cache;
            var q, answer := c.inflight[k].question, c.inflight[k].reply.answer;
            && answer != []
            && c'.inflight == c.inflight - {k}
            && if |c.entries| < 2000
               then
                 && q in c'.entries && IsCopy(c'.entries[q], answer, CappedTtl(answer))
                 && c'.entries == c.entries[q := c'.entries[q]] && c'.recorded == c.recorded + 1
               else c'.entries == c.entries && c'.recorded == c.recorded
  {
  }

  /** A flush leaves no entry, and changes nothing else. */
  lemma FlushEmpties(evs: seq<Event>, n: nat)
    requires n < |evs| && evs[n] == DoFlush
    ensures At(evs, n + 1).cache == At(evs, n).cache.(entries := map[])
  {
    AtNext(evs, n);
    hide At;
  }

  // ---------- how long they stay ----------

  /** A query stores a reply to the question. */
  predicate StoresFor(s: System, ev: Event, q: Question) {
    && ev.DoStore? && ev.k in s.cache.inflight
    && s.cache.inflight[ev.k].Storing? && s.cache.inflight[ev.k].question == q
  }

  /** From the first `m` events to the first `n` there is no flush and no store for the question. */
  ghost predicate Undisturbed(evs: seq<Event>, m: nat, n: nat, q: Question)
    requires m <= n <= |evs|
  {
    forall j | m <= j < n :: !evs[j].DoFlush? && !StoresFor(At(evs, j), evs[j], q)
  }

  /** How many collections there are in between. */
  function Collections(evs: seq<Event>, m: nat, n: nat): nat
    requires m <= n <= |evs|
  {
    if m == n then 0 else Collections(evs, m, n - 1) + if evs[n - 1].DoCollect? then 1 else 0
  }

  /** What is left of an answer that was stored with the TTL, after `passed` seconds' worth of collections. */
  ghost predicate IsLeft(entries: Entries, q: Question, answer: seq<Rec>, ttl: nat, passed: nat) {
    if passed < ttl then q in entries && IsCopy(entries[q], answer, ttl - passed) else q !in entries
  }

  lemma EntryNext(s: System, ev: Event, q: Question, answer: seq<Rec>, ttl: nat, passed: nat)
    requires NonEmptyEntries(s.cache) && answer != []
    requires !ev.DoFlush? && !StoresFor(s, ev, q)
    requires IsLeft(s.cache.entries, q, answer, ttl, passed)
    ensures IsLeft(Next(s, ev).cache.entries, q, answer, ttl, if ev.DoCollect? then passed + 30 else passed)
  {
    if ev.DoCollect? {
      assert Next(s, ev).cache == Collect(s.cache);
      hide Next, Apply;
      CollectNext(s.cache, q, answer, ttl, passed);
    } else {
      SameEntry(s, ev, q);
      hide Next, Apply, IsCopy;
    }
  }

  lemma CollectNext(c: Cache, q: Question, answer: seq<Rec>, ttl: nat, passed: nat)
    requires NonEmptyEntries(c) && answer != [] && IsLeft(c.entries, q, answer, ttl, passed)
    ensures IsLeft(Collect(c).entries, q, answer, ttl, passed + 30)
  {
  }

  /** No other event touches the entry. */
  lemma SameEntry(s: System, ev: Event, q: Question)
    requires !ev.DoCollect? && !ev.DoFlush? && !StoresFor(s, ev, q)
    ensures q in Next(s, ev).cache.entries <==> q in s.cache.entries
    ensures q in s.cache.entries ==> Next(s, ev).cache.entries[q] == s.cache.entries[q]
  {
    assert Next(s, ev).cache == Apply(s.cache, ev);
    hide Next, StoredAnswer;
    if !ev.DoStore? {
      OtherEvents(s.cache, ev);
    }
  }

  lemma OtherEvents(c: Cache, ev: Event)
    requires !ev.DoCollect? && !ev.DoFlush? && !ev.DoStore?
    ensures Apply(c, ev).entries == c.entries
  {
  }

  /** The answer stays, and gets thirty seconds older with every collection, up to the one that ends its TTL. */
  lemma {:induction false} EntryStays(evs: seq<Event>, m: nat, n: nat, q: Question, answer: seq<Rec>, ttl: nat)
    requires m <= n <= |evs| && answer != [] && 0 < ttl
    requires q in At(evs, m).cache.entries && IsCopy(At(evs, m).cache.entries[q], answer, ttl)
    requires Undisturbed(evs, m, n, q)
    ensures IsLeft(At(evs, n).cache.entries, q, answer, ttl, 30 * Collections(evs, m, n))
    decreases n
  {
    hide Next, IsCopy;
    if m < n {
      EntryStays(evs, m, n - 1, q, answer, ttl);
      AtNext(evs, n - 1);
      NoneEmpty(evs, n - 1);
      hide IsLeft;
      EntryNext(At(evs, n - 1), evs[n - 1], q, answer, ttl, 30 * Collections(evs, m, n - 1));
    }
  }

  lemma NoneEmpty(evs: seq<Event>, n: nat)
    requires n <= |evs|
    ensures NonEmptyEntries(At(evs, n).cache)
  {
    RunKeepsStamps(evs, n);
    hide At, StampsOk, ServedOk, InflightOk, CountersOk;
  }

  // ---------- and are served meanwhile ----------

  /** The reply that a query gets from the cache. */
  ghost predicate IsCachedReply(reply: Msg<Rec>, query: Query, answer: seq<Rec>, ttl: nat) {
    && reply.id == query.id && reply.question == query.question
    && reply.response && reply.opcode == 0 && !reply.authoritative && !reply.truncated && reply.rcode == 0
    && IsCopy(reply.answer, answer, ttl) && reply.ns == [] && reply.extra == []
  }

  /** A query for the question, and no other, is a hit exactly while the answer has TTL left, and then gets its data. */
  lemma LookupServed(evs: seq<Event>, n: nat, k: nat, q: Question, answer: seq<Rec>, ttl: nat, passed: nat)
    requires n < |evs| && evs[n] == DoLookup(k)
    requires k in At(evs, n).cache.inflight && At(evs, n).cache.inflight[k].Entered?
    requires At(evs, n).cache.inflight[k].query.question == [q]
    requires IsLeft(At(evs, n).cache.entries, q, answer, ttl, passed)
    ensures var s, s' := At(evs, n), At(evs, n + 1);
            var query := s.cache.inflight[k].query;
            if passed < ttl
            then
              && s'.cache.hits == s.cache.hits + 1 && k !in s'.cache.inflight
              && |s'.served| == |s.served| + 1 && s'.served[..|s.served|] == s.served
              && s'.served[|s.served|].query == query
              && IsCachedReply(s'.served[|s.served|].reply, query, answer, ttl - passed)
            else
              && s'.cache.misses == s.cache.misses + 1 && s'.served == s.served
              && k in s'.cache.inflight && s'.cache.inflight[k] == Asking(query, q)
  {
    AtNext(evs, n);
    RunKeepsStamps(evs, n);
    assert At(evs, n).stamps.Keys == At(evs, n).cache.entries.Keys;
    hide *;
    LookupStep(At(evs, n), k, q, answer, ttl, passed);
  }

  lemma LookupStep(s: System, k: nat, q: Question, answer: seq<Rec>, ttl: nat, passed: nat)
    requires s.stamps.Keys == s.cache.entries.Keys
    requires k in s.cache.inflight && s.cache.inflight[k].Entered? && s.cache.inflight[k].query.question == [q]
    requires IsLeft(s.cache.entries, q, answer, ttl, passed)
    ensures var s' := Next(s, DoLookup(k));
            var query := s.cache.inflight[k].query;
            if passed < ttl
            then
              && s'.cache.hits == s.cache.hits + 1 && k !in s'.cache.inflight
              && |s'.served| == |s.served| + 1 && s'.served[..|s.served|] == s.served
              && s'.served[|s.served|].query == query
              && IsCachedReply(s'.served[|s.served|].reply, query, answer, ttl - passed)
            else
              && s'.cache.misses == s.cache.misses + 1 && s'.served == s.served
              && k in s'.cache.inflight && s'.cache.inflight[k] == Asking(query, q)
  {
    hide IsCopy;
  }

  /** A query with no question, or with several, passes the cache by, before and after the backing resolver answers. */
  lemma PassedBy(evs: seq<Event>, n: nat, k: nat)
    requires n < |evs| && k in At(evs, n).cache.inflight
    ensures var c, c' := At(evs, n).cache, At(evs, n + 1).cache;
            && (evs[n] == DoLookup(k) && c.inflight[k].Entered? && |c.inflight[k].query.question| != 1 ==>
                  c' == c.(bypassed := c.bypassed + 1, inflight := c.inflight[k := Bypassing(c.inflight[k].query)]))
            && (evs[n].DoReturn? && evs[n].k == k && c.inflight[k].Bypassing? ==>
                  c' == c.(inflight := c.inflight - {k}))
  {
    AtNext(evs, n);
    hide At;
  }

  /** From end to end, over any run: the reply of event `n` to a miss is complete and has a first TTL of at least two
      minutes; event `m` is the first store of that query and finds fewer than 2000 entries; nothing else is stored for
      the question before event `l`, a lookup of the same question, and the cache is not flushed. Then the lookup is a
      hit with the data of the reply exactly when the collections in between have not used up its TTL. */
  lemma StoredThenServed(evs: seq<Event>, n: nat, m: nat, l: nat, k: nat, k': nat, reply: Msg<Rec>)
    requires n < m < l < |evs|
    requires evs[n] == DoReturn(k, Answered(reply)) && evs[m] == DoStore(k) && evs[l] == DoLookup(k')
    requires k in At(evs, n).cache.inflight && At(evs, n).cache.inflight[k].Asking?
    requires var q := At(evs, n).cache.inflight[k].question;
             && Complete(q, reply) && reply.answer[0].ttl >= 120
             && Undisturbed(evs, m + 1, l, q)
             && k' in At(evs, l).cache.inflight && At(evs, l).cache.inflight[k'].Entered?
             && At(evs, l).cache.inflight[k'].query.question == [q]
    requires forall j | n < j < m :: evs[j] != DoStore(k)
    requires |At(evs, m).cache.entries| < 2000
    ensures var s, s' := At(evs, l), At(evs, l + 1);
            var query, ttl := s.cache.inflight[k'].query, CappedTtl(reply.answer);
            var passed := 30 * Collections(evs, m + 1, l);
            && (s'.cache.hits == s.cache.hits + 1 <==> passed < ttl)
            && (passed < ttl ==>
                  && |s'.served| == |s.served| + 1
                  && IsCachedReply(s'.served[|s.served|].reply, query, reply.answer, ttl - passed))
            && (passed >= ttl ==> s'.cache.misses == s.cache.misses + 1 && s'.served == s.served)
  {
    var q, ttl := At(evs, n).cache.inflight[k].question, CappedTtl(reply.answer);
    assert ttl > 0 && reply.answer != [];
    hide *;
    StoredAt(evs, n, m, k, reply);
    EntryStays(evs, m + 1, l, q, reply.answer, ttl);
    LookupServed(evs, l, k', q, reply.answer, ttl, 30 * Collections(evs, m + 1, l));
    HitOrMiss(evs, l, k');
  }

  /** The first half: from the reply to the entry. */
  lemma StoredAt(evs: seq<Event>, n: nat, m: nat, k: nat, reply: Msg<Rec>)
    requires n < m < |evs| && evs[n] == DoReturn(k, Answered(reply)) && evs[m] == DoStore(k)
    requires k in At(evs, n).cache.inflight && At(evs, n).cache.inflight[k].Asking?
    requires Complete(At(evs, n).cache.inflight[k].question, reply) && reply.answer[0].ttl >= 120
    requires forall j | n < j < m :: evs[j] != DoStore(k)
    requires |At(evs, m).cache.entries| < 2000
    ensures var q, entries := At(evs, n).cache.inflight[k].question, At(evs, m + 1).cache.entries;
            q in entries && IsCopy(entries[q], reply.answer, CappedTtl(reply.answer))
  {
    assert reply.answer != [];
    hide *;
    ReturnIff(evs, n, k, Answered(reply));
    StoringStays(evs, n + 1, m, k);
    StoreAdds(evs, m, k);
  }

  lemma HitOrMiss(evs: seq<Event>, n: nat, k: nat)
    requires n < |evs| && evs[n] == DoLookup(k)
    ensures At(evs, n + 1).cache.misses == At(evs, n).cache.misses + 1 ==>
              At(evs, n + 1).cache.hits == At(evs, n).cache.hits
  {
    AtNext(evs, n);
  }
}
