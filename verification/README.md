# Verified model of dnss

dnss is a DNS-over-HTTPS proxy. This project models its stateful parts in Dafny and proves what they are for.
`dafny verify dfyconfig.toml` checks everything.

* **Traces** (`EventRing`, `EventBuffer`, `Traces`, `Histogram`, `FamilySpec`, `Families`, `Store`, `AllEvents`,
  `Tracing`, `NumberedEvents`, `TracingRun`, with `Sorting` for Go's `sort.Slice`). A trace keeps the first third of its
  events in a slice and the newest ones in an overwriting ring. A family keeps its active traces in a map, the finished
  ones in eight latency rings, the failed ones in a ring of their own, and a histogram. `allEvents` walks the references
  between traces, which may form cycles.
  The classes have the fields of the source and update them in place; `Trace.Holds(b)`, `EvtRing.Holds(g)`,
  `Histogram.Records(xs)` and `FamilyTraces.Models(f)` say which value or history they stand for. `EventBuffer` and
  `FamilySpec` are those values, and hold the theorems about them. `Tracing` puts everything together: its `StoreOk` says
  that all families are what their logs of creations and finishes make them, that all traces there have ever been hold
  their buffers, and that nothing is shared; every operation keeps it. `TracingRun` starts from nothing and makes any
  sequence of calls: what can be found and what is shown afterwards is a function of the calls.
* **The caching resolver** (`CacheSpec`, `CacheServing`, `CachingResolver`). `CacheSpec` has the steps between two
  releases of the lock as functions on values, and what holds after any sequence of them, whatever the backing resolver
  answers and whenever collections run. `CacheServing` says which replies are kept, for how long, and that they are
  served meanwhile, in plain numbers and fields.
  `CachingResolver` has the same steps as methods on objects that share resource records; it is proved to refine
  `CacheSpec` and never to write a record that anyone else may have.
* **dnstap** (`DnstapWire`, `DnstapStream`, `DnstapWriter`). The protobuf encoding of a record, the framing of the
  stream, and the export loop with its bounded queue, each with the decoder that a reader would use.
* **The override map** (`DomainMap`, with `Text` for the string functions), **client rotation** (`ClientRotation`) and
  **the domain ranking** (`Ranking`).

Conventions: a `ghost` argument is the history or value that a method's object stands for. Clocks, random numbers,
what the network does and what the backing resolver answers are arguments or events. Where Go walks a map, the model
takes the keys in an arbitrary order.

Some results say where the code does less than its names or comments suggest; the model follows the code:

* The reported average latency is the true one exactly while the latencies add up to less than 2^64 ns
  (`Histogram.ReportedMeanExact`): the sum wraps as a signed number but is divided as an unsigned one. Three of the
  longest latencies are reported to take less than any of them (`Histogram.MeanWraps`).
* A trace in a family whose name contains `!` cannot be found by its identifier, even while it is active; any other
  retained trace can (`Tracing.KeptAsRetained`).
* The documentation of `SetMaxEvents` asks for it to come before the first event. A later call can change the order in
  which events are shown (`EventBuffer.LateLimitMisorders`: from 30 to 60 after twelve events). Events stay in order,
  whatever comes later, exactly when the ring was not yet in use or the slice gets no room (`EventBuffer.OrderIff`), and
  what should be retained under the new limit is shown exactly when the limit does not change or all the events so far
  are within the first thirds of both limits (`EventBuffer.RetentionIff`).
* All records of a cached answer take the TTL of the first one, capped. That makes no TTL longer exactly when none is
  shorter than the first (`CacheSpec.StoredTtlsIff`, `CacheSpec.HitTtlsIff`); otherwise records outlive what the
  backing resolver said (`CacheSpec.TtlGrows`).
* `dnstap` frames survive the framing exactly when they are not empty and shorter than 2^32 bytes
  (`DnstapStream.DataDecodesIff`); a frame made from a record is never empty (`DnstapWire.FrameDecodes`).
* An override for the root is never used, although it is at or above every name: the most specific match starts from
  zero labels (`DomainMap.DomainMap.GetMostSpecific`, `DomainMap.RootNeverFound`).
* A failure reported late by a query on the old HTTP client counts against the new one, and can get it replaced although
  no query on it has failed (`ClientRotation.LateFailureRotates`). That needs a query that was under way during an
  earlier rotation (`ClientRotation.BlamelessAfterRotation`), and a client is replaced for a failure of its own exactly
  when that was reported while the client was current (`ClientRotation.BlameIff`).

## Model

| member | source | states |
|---|---|---|
| EventRing.EvtRing.Add | internal/nettrace/evtring.go:19-34 | a ring given exactly the events `g` becomes one given `g + [e]`: it holds the newest `max` in order, and `firstDrop` is the first non-zero time among those lost |
| EventRing.EvtRing.Do | internal/nettrace/evtring.go:36-42 | the index walk with wrap-around visits the stored events from oldest to newest, each once |
| EventRing.OverwriteOldest | internal/nettrace/evtring.go:26-33 | writing the slot after `pos` drops exactly the oldest element and appends the new one to the unrolled ring |
| EventBuffer.LimitFirst | internal/nettrace/trace.go:157-215 | a buffer whose limit is set before its first event shows, after any events, exactly what should be retained of them under that limit |
| EventBuffer.RetainedWithinLimit | internal/nettrace/trace.go:263-287 | a history within the limit is returned whole, in order and without a marker |
| EventBuffer.RetainedPastLimit | internal/nettrace/trace.go:263-287 | a longer one shows its first third, one `DROP` marker with the time of the first event lost and nothing else in it, and the newest two thirds: one more entry than the limit, whatever comes later |
| EventBuffer.OnlyMarker | internal/nettrace/trace.go:263-287 | whatever the times are, all that is shown was given, but for one `DROP` marker after the first third, with the first time there is among the events lost |
| EventBuffer.MarkerMissing | internal/nettrace/evtring.go:28-31 | the marker is missing, although events were lost, exactly when every lost event has a zero time |
| EventBuffer.AppendAllFills | internal/nettrace/trace.go:157-172 | of any events given to any buffer the first ones fill what room the slice has, and the others go to the ring |
| EventBuffer.ShownRefs | internal/nettrace/trace.go:263-287 | every event shown that refers to a trace is one that was given |
| EventBuffer.LateLimitMisorders | internal/nettrace/trace.go:205-215 | twelve events under a limit of 30, then a limit of 60: the next event is shown before two earlier ones |
| EventBuffer.OrderIff | internal/nettrace/trace.go:205-215 | after a late call all further events, whatever they are, stay in order if and only if the ring was not in use or the first third does not grow |
| EventBuffer.RetentionIff | internal/nettrace/trace.go:205-215 | after a late call, whatever comes later, what is shown is what should be retained under the new limit if and only if the limit does not change or the events so far are within both first thirds |
| Traces.Trace.constructor | internal/nettrace/trace.go:120-135 | a new trace holds the empty buffer under the default limit of 30 |
| Traces.Trace.SetMaxEvents | internal/nettrace/trace.go:205-215 | sets the limit, but never below 6, and with it the room of the slice; at any time |
| Traces.Trace.Append | internal/nettrace/trace.go:157-172 | the buffer takes one more event: in the slice while that has room under the present limit, else in the ring, which is made for the first one |
| Traces.Trace.Link | internal/nettrace/trace.go:195-203 | the buffer takes one event that refers to the other trace |
| Traces.Trace.Printf | internal/nettrace/trace.go:223-231 | the buffer takes one message that refers to no trace |
| Traces.Trace.SetError | internal/nettrace/trace.go:217-221 | marks the trace and changes nothing else |
| Traces.Trace.Events | internal/nettrace/trace.go:263-287 | returns the first part, a marker if anything with a time was dropped, and the ring in order |
| Traces.Trace.StoredIsShown | internal/nettrace/trace.go:263-287 | what `Events` returns is a function of the buffer: of the limits and events given, in their order |
| Histogram.FindBucket | internal/nettrace/trace.go:317-326 | finds the bucket whose half-open range contains a non-negative latency, the ranges being given in nanoseconds; -1 for a negative one |
| Histogram.BucketUnique | internal/nettrace/trace.go:304-315 | a latency has one bucket |
| Histogram.Histogram.Add | internal/nettrace/histogram.go:16-27 | a histogram given exactly the samples `xs` becomes one given `xs + [x]`: counts per bucket, total, least, greatest, and the sum in a wrapping signed word |
| Histogram.Histogram.Snapshot | internal/nettrace/histogram.go:43-71 | reports for every bucket its count, its share and the share of all samples up to it, and the least, the greatest and the average |
| Histogram.CountsAddUp | internal/nettrace/histogram.go:55-68 | the counts of the buckets share out all the samples, so the last running count is the total |
| Histogram.UpToIsBelow | internal/nettrace/histogram.go:55-68 | the running count at a bucket is the number of latencies below the start of the next one |
| Histogram.FloorSumAtMostSum | internal/nettrace/histogram.go:24-26 | counting every sample at the start of its bucket never exceeds the sum of the latencies |
| Histogram.SumBetween | internal/nettrace/histogram.go:16-27 | total times least <= sum <= total times greatest |
| Histogram.CumulativePercent | internal/nettrace/histogram.go:55-68 | the cumulative percentages are the sums of those of the buckets, never fall, and end at a hundred unless there is no sample |
| Histogram.LineShows | internal/nettrace/histogram.go:55-68 | the line of a bucket shows how many latencies there are from its start up to the next one, how many percent of all samples they are, and how many percent are below the next start |
| Histogram.ReportedMeanExact | internal/nettrace/histogram.go:51-53 | the reported average is the true one if and only if the latencies add up to less than 2^64 ns; the true one lies between least and greatest |
| Histogram.MeanWraps | internal/nettrace/histogram.go:51-53 | three samples whose reported average is below the least of them |
| FamilySpec.RingsHoldNewest | internal/nettrace/trace.go:473-494 | after any run each ring holds the newest ten of all the traces ever put in it |
| FamilySpec.NewestAreLast | internal/nettrace/trace.go:344-350 | a trace is among the last `n` put in a ring if and only if fewer than `n` were put in after it |
| FamilySpec.ActiveMeansUnfinished | internal/nettrace/trace.go:145-147 | after any run a trace is active if and only if it was created and not finished since |
| FamilySpec.Retention | internal/nettrace/trace.go:441-494 | after any run a trace can be found if and only if it is active, or fewer than ten traces finished after it in its bucket, or it failed and fewer than ten failed traces finished after it |
| FamilySpec.StepConsistent | internal/nettrace/trace.go:473-494 | every creation with a new identifier and every finish of an active trace keep the family consistent: active and finished disjoint, no trace in two latency rings or twice in one, ring length = min(10, bucket count) |
| FamilySpec.RunConsistent | internal/nettrace/trace.go:120-150 | so every proper run does, and traces created = active + counted in the histogram |
| FamilySpec.RingLatencies | internal/nettrace/trace.go:482-484 | every trace in the ring of a bucket finished with a latency of that bucket |
| FamilySpec.SamplesAreFinishes | internal/nettrace/trace.go:473-494 | after any run the histogram has one sample for every finish, in order, with the latency and the bucket of that trace |
| Families.TraceRing.Add | internal/nettrace/trace.go:344-350 | the ring holds the last `max` of what it held followed by the new trace |
| Families.TraceRing.Len | internal/nettrace/trace.go:352-354 | the length field counts the traces held |
| Families.TraceRing.Do | internal/nettrace/trace.go:356-363 | visits the traces held, from oldest to newest, and skips empty slots |
| Families.FamilyTraces.constructor | internal/nettrace/trace.go:382-390 | a new family is the empty one |
| Families.FamilyTraces.Register | internal/nettrace/trace.go:145-147 | takes the family the creation step, and adds only the new trace to what is kept |
| Families.FamilyTraces.Finalize | internal/nettrace/trace.go:473-494 | takes the family the finish step of the trace's own latency, bucket and error mark, and keeps nothing new |
| Families.FamilyTraces.Find | internal/nettrace/trace.go:441-471 | returns the one kept trace with the identifier, or null when none is kept |
| Families.FamilyTraces.KeptIffFound | internal/nettrace/trace.go:441-471 | a trace is kept under an identifier if and only if the retention theorem says it can be found; an active one always |
| Families.FamilyTraces.TracesFor | internal/nettrace/trace.go:410-439 | lists exactly the errors (-2), the active traces (-1), or the ring of bucket `b` (with `allgt` all from `b` on), each trace once, newest start first |
| Store.FamilyOfNewId | internal/nettrace/trace.go:23-36 | the family is read back from a new identifier if and only if its name has no `!` |
| Store.NewIdInjective | internal/nettrace/trace.go:23-30 | no two families, times or random numbers make the same identifier, whatever the names of the families contain |
| Store.KeptAsFound | internal/nettrace/trace.go:523-535 | a consistent family can be searched; it finds exactly the traces the retention theorem promises, and for an active identifier the active trace |
| Store.FindVia | internal/nettrace/trace.go:545-555 | returns the parent if it has the identifier, else a trace that an event refers to, and null if and only if none of them has it |
| Store.FindInFamilies | internal/nettrace/trace.go:523-558 | returns only a trace with the identifier asked for: the kept one if there is one, else one that the reference refers to; null only if neither exists; at most one nested call |
| Tracing.NothingStored | internal/nettrace/trace.go:506-509 | everything is in order before the first trace |
| Tracing.NewTrace | internal/nettrace/trace.go:120-150 | with an unused identifier, for any name of a family: the creation is logged in its family, made if need be; everything stays in order and no other family changes |
| Tracing.NewChild | internal/nettrace/trace.go:180-193 | the same for a child, whose parent gets one more event, which refers to it |
| Tracing.Append | internal/nettrace/trace.go:157-203 | an event that refers to any trace goes to the buffer of one trace and to no other: no two traces share a ring |
| Tracing.SetMaxEvents | internal/nettrace/trace.go:205-215 | sets the limit of any trace at any time, and everything stays in order |
| Tracing.Finish | internal/nettrace/trace.go:240-249 | the finish of an active trace, with its own latency, bucket and error mark, is logged in its family; every other family, and the events of every trace, stay as they were |
| Tracing.ActiveIff | internal/nettrace/trace.go:145-147 | a trace is in the map of its family if and only if the log says that it is active, and then under its own identifier |
| Tracing.SearchableAlways | internal/nettrace/trace.go:523-558 | whenever everything is in order, any identifier can be looked up, and what is found is a valid trace |
| Tracing.KeptAsRetained | internal/nettrace/trace.go:523-535 | of all the traces there have ever been, exactly those are kept under their identifiers whose families have names without `!` and retain them |
| Tracing.Find | internal/nettrace/trace.go:523-558 | decides every lookup: a trace there has ever been is found by its identifier if and only if its family has a name without `!` and retains it, or the trace of the reference is found so itself and is its child or shows an event that refers to it |
| Tracing.SnapshotIsGraph | internal/nettrace/http.go:166-188 | the stored events of all the traces always form a closed graph with unique identifiers |
| Tracing.AllEvents | internal/nettrace/http.go:151-164 | so the events of any trace can be gathered at any time: sorted, exactly what the buffers show of every trace reachable from it, at depths that are lengths of reference chains, one per trace |
| TracingRun.Do | internal/nettrace/trace.go:120-249 | any call, on any traces, takes the objects from what the calls so far amount to to what they amount to with it |
| TracingRun.NextIs | internal/nettrace/trace.go:120-249 | what the calls amount to, case by case: new traces with their identifiers and parents, events, error marks, and finishes with the latency and error mark of the trace |
| TracingRun.CanEndIff | internal/nettrace/trace.go:240-249 | a trace is active, and can end, if and only if the calls so far have created it and not ended it |
| TracingRun.Run | internal/nettrace/trace.go:120-249 | so after any sequence of calls, from nothing, everything is in order, and the traces, their parents, events and error marks are those of the calls |
| TracingRun.RunThenFind | internal/nettrace/trace.go:441-558 | after any sequence of calls the identifier of any trace finds it if and only if the name of its family has no `!` and the calls leave it retained (not finished, or fewer than ten finished after it in its bucket, or failed and fewer than ten failed ones finished after it), or the trace given as reference is so and mentions it |
| TracingRun.ShowsRetained | internal/nettrace/trace.go:157-215 | a trace whose limit is only set while it has no events records all that any calls tell it and nothing else |
| TracingRun.LimitIs | internal/nettrace/trace.go:120-215 | the limit of a trace is 30 until a call sets it, and then what the last such call says but at least 6 |
| TracingRun.RunThenEvents | internal/nettrace/trace.go:263-287 | after any sequence of calls the events of a trace are those of its buffer and so, with its limit set first: all it was told, in order; or past the limit the first third, one `DROP` marker at the time of the first event lost, and the newest; and it is told no markers |
| NumberedEvents.ShownOf | internal/nettrace/trace.go:263-287 | what is shown does not depend on which traces the events refer to |
| AllEvents.AppendAllEvents | internal/nettrace/http.go:166-188 | terminates on every graph; appends every newly marked trace's events once and in order, at a depth that is the length of a real chain of references, and marks only reachable traces, with all they refer to |
| AllEvents.AppendOwn | internal/nettrace/http.go:174-181 | lists the trace's own events and collects exactly the traces they refer to |
| AllEvents.VisitReferenced | internal/nettrace/http.go:183-185 | one round of the second loop continues what was gathered before it with all that one referenced trace leads to |
| AllEvents.MarkedIffReachable | internal/nettrace/http.go:166-188 | the traces marked by a complete walk are exactly those reachable from its start |
| AllEvents.AllEvents | internal/nettrace/http.go:151-164 | sorted by time; exactly the reachable traces contribute, each its events once; depths are lengths of reference chains, one per trace |
| Sorting.Sort | internal/nettrace/http.go:158-161 | what callers may assume of `sort.Slice`: a permutation in which no later element is less than an earlier one |
| CacheSpec.WantedIff | internal/dnsserver/resolver.go:201-221 | a reply is cached if and only if it is a complete, successful, non-empty answer to exactly the question asked |
| CacheSpec.StepKeepsCache | internal/dnsserver/resolver.go:171-324 | every locked step keeps the bound on the cache, the counters, and the shape of what is cached or about to be |
| CacheSpec.CacheBounded | internal/dnsserver/resolver.go:257-324 | after any sequence of steps, whatever the backing resolver says: at most 2000 entries, each of records with one TTL in (0, 2 h]; total = bypassed + hits + misses whenever no query is in progress; recorded <= misses |
| CacheSpec.RunApplies | internal/dnsserver/resolver.go:257-324 | the caches of a run with clock and record are those its events give, which are the ones the objects go through |
| CacheSpec.CachedAnswersAge | internal/dnsserver/resolver.go:171-199 | in every run every entry is the answer last stored for its question with one TTL: that of its first record, capped, less 30 s for every collection since |
| CacheSpec.HitsAge | internal/dnsserver/resolver.go:269-289 | the same of every reply ever served from the cache, counting the collections before it was served |
| CacheSpec.EntriesNotStale | internal/dnsserver/resolver.go:171-199 | in a run whose collections never come before their time, in any state with at most m collections overdue, an entry stored with TTL T shows at most T - 30 floor(age/30) + 30 m and is gone before age T + 30 (1 + m) s |
| CacheSpec.HitsNotStale | internal/dnsserver/resolver.go:269-289 | if moreover at most m collections are overdue at every lookup, the same of every reply served from the cache |
| CacheSpec.HitIsServed | internal/dnsserver/resolver.go:269-289 | a hit is answered with what the cache holds at that moment |
| CacheSpec.HitsComeFromBackend | internal/dnsserver/resolver.go:257-324 | in any run, with a backing resolver that may change its mind, every hit carries the data of a reply that it gave in that run to that very question and that passed `wantToCache` |
| CacheSpec.HitsAgreeWithBackend | internal/dnsserver/resolver.go:257-324 | so if its data depends only on the question, every hit has the outcome, question and data of a direct query |
| CacheSpec.TtlGrows | internal/dnsserver/resolver.go:304-318 | TTLs of 7200 and 5 are stored as 7200 and 7200 |
| CacheSpec.StoredTtlsIff | internal/dnsserver/resolver.go:223-247 | storing makes no TTL longer if and only if none is shorter than the first one, capped |
| CacheSpec.HitTtlsIff | internal/dnsserver/resolver.go:269-289 | exactly then no record of a hit outlives what the backing resolver said, counting the collections since |
| CacheServing.ReturnIff | internal/dnsserver/resolver.go:294-311 | a query that missed goes on to store the reply if and only if that is complete and successful and its first TTL is at least 120 s; otherwise it is over and nothing else has changed |
| CacheServing.StoreAdds | internal/dnsserver/resolver.go:313-323 | a store that finds fewer than 2000 entries puts the records of the reply under the question, all with the TTL of the first but at most 7200 s, and counts it; otherwise nothing is stored |
| CacheServing.EntryStays | internal/dnsserver/resolver.go:171-199 | until a flush or another store for the question the entry stays, 30 s older with every collection, up to the collection that ends its TTL, and is gone from then on |
| CacheServing.LookupServed | internal/dnsserver/resolver.go:257-292 | a query for the question is answered from the cache if and only if TTL is left, with its own identifier and question, a successful, complete, non-authoritative response, and those records; otherwise it is a miss |
| CacheServing.StoredThenServed | internal/dnsserver/resolver.go:257-324 | from end to end over any run: a complete reply with a first TTL of at least 120 s, stored while there is room, is what a later query for its question gets if and only if the collections in between have not used up the TTL |
| CacheServing.PassedBy | internal/dnsserver/resolver.go:257-267 | a query without exactly one question passes the cache by |
| CacheServing.FlushEmpties | internal/dnsserver/resolver.go:163-169 | a flush leaves no entry |
| CachingResolver.SetTtls | internal/dnsserver/resolver.go:243-247 | every record gets the one TTL and keeps its data |
| CachingResolver.CopyRRs | internal/dnsserver/resolver.go:249-255 | equal records in new objects, the originals unchanged |
| CachingResolver.CachingResolver.Lookup | internal/dnsserver/resolver.go:257-292 | refines the lookup step; a hit is the very records cached for the question, which count as published, in a successful response with the identifier of the query |
| CachingResolver.CachingResolver.BackendReturns | internal/dnsserver/resolver.go:294-311 | refines the reply step; the reply is held for storing if and only if the query missed, the reply is complete and successful and its first TTL is at least 120 s; what is passed on at once counts as published, what is to be stored is held by this query alone |
| CachingResolver.CachingResolver.Store | internal/dnsserver/resolver.go:313-323 | refines the store step, and writes TTLs only of records no one else has |
| CachingResolver.CachingResolver.CollectEntry | internal/dnsserver/resolver.go:180-193 | one entry ages or goes, by its first TTL, and no published record is written |
| CachingResolver.CachingResolver.AgeEntry | internal/dnsserver/resolver.go:183-189 | an aged entry is made of new objects that no one else has |
| CachingResolver.CachingResolver.Collect | internal/dnsserver/resolver.go:178-195 | the loop over the map, in any order, refines the collection step and writes no published record |
| CachingResolver.CachingResolver.Flush | internal/dnsserver/resolver.go:163-169 | empties the cache and touches no query and no record |
| CachingResolver.Do | internal/dnsserver/resolver.go:163-324 | one event of any kind refines its step, and every record published before keeps its TTL |
| CachingResolver.Run | internal/dnsserver/resolver.go:163-324 | over any sequence of lookups, replies, stores, collections and flushes no record that a caller or the cache has been given is ever written |
| CachingResolver.ReachableBounded | internal/dnsserver/resolver.go:163-324 | after any sequence of them the objects obey the bound, the common TTL and the counters |
| DnstapWire.UvarintDecodes | internal/dnstap/dnstap.go:173-176 | decoding a varint gives back the number and where it ends, whatever follows |
| DnstapWire.UvarintLength | internal/dnstap/dnstap.go:173-176 | a 64-bit number takes one to ten bytes |
| DnstapWire.FieldDecodes | internal/dnstap/dnstap.go:173-185 | a non-empty field is read back, with its number and its exact extent, whatever follows |
| DnstapWire.EncodeDecodes | internal/dnstap/dnstap.go:173-185 | any sequence of fields decodes to itself without its empty byte fields, and nothing is left over |
| DnstapWire.FamilyMatchesAddress | internal/dnstap/dnstap.go:194-226 | the address sent has the length of the family sent with it, and is the same address |
| DnstapWire.AddressSent | internal/dnstap/dnstap.go:194-226 | of each kind of peer: four bytes are sent as they are and sixteen that stand for an IPv4 address as their last four, with the family of IPv4; any other sixteen as they are with that of IPv6; and nothing without an address |
| DnstapWire.Port | internal/dnstap/dnstap.go:228-248 | the digit loop computes the numeral modulo 2^64, and zero if there is anything but digits |
| DnstapWire.PortArrives | internal/dnstap/dnstap.go:228-248 | a port below 2^16 is sent as that number from any kind of address |
| DnstapWire.NoPort | internal/dnstap/dnstap.go:228-248 | text that does not split, or a port that is not a numeral, is sent as port zero |
| DnstapWire.Message | internal/dnstap/dnstap.go:127-140 | the bytes built by successive appends are the encoding of the thirteen message fields, ports and addresses taken from the peers |
| DnstapWire.Frame | internal/dnstap/dnstap.go:117-146 | fails if and only if packing either message fails; else a reader finds each part of the record in its own field of the frame |
| DnstapWire.FrameDecodes | internal/dnstap/dnstap.go:117-146 | a frame is never empty, and decodes at both levels to exactly the fields written, in order, without the empty ones |
| DnstapWire.FrameIsRead | internal/dnstap/dnstap.go:117-146 | a reader that decodes a frame, and the message in it, finds type 6 in field 1, the family, address and port of the remote end in 2, 4 and 6, the protocol in 3, the address and port of the local end in 5 and 7, the query with its time in 10, 8 and 9, and the response with its time in 13, 11 and 12; an address or message is there if and only if it is not empty |
| DnstapWire.FrameInjective | internal/dnstap/dnstap.go:117-146 | records with the same frame have the same fields, apart from empty ones |
| DnstapStream.WordDecodes | internal/dnstap/dnstap.go:166-170 | a big-endian length word is read back modulo 2^32 |
| DnstapStream.ControlDecodes | internal/dnstap/dnstap.go:148-158 | a control payload gives back its type and content type |
| DnstapStream.ItemDecodes | internal/dnstap/dnstap.go:148-171 | a control or data item is read back with its exact extent, whatever follows |
| DnstapStream.DataDecodesIff | internal/dnstap/dnstap.go:166-171 | a data frame is read back as itself if and only if it is not empty and shorter than 2^32 bytes |
| DnstapStream.PartialItem | internal/dnstap/dnstap.go:148-171 | no proper prefix of an item reads as an item |
| DnstapStream.StreamDecodes | internal/dnstap/dnstap.go:148-171 | whole items followed by at most part of one decode to exactly those items and that part |
| DnstapWriter.RunKeeps | internal/dnstap/dnstap.go:69-115 | in every reachable state each record captured is in one place, once: sent on some connection, queued, lost or dropped; and as long as all frames fit their length word, every connection holds whole items and at most part of one |
| DnstapWriter.StreamsDecode | internal/dnstap/dnstap.go:81-115 | each connection, open or broken in the middle of a write, decodes to a READY frame (4), a START frame (2), both with the content type of dnstap, and then the data frames of captured records, or to a beginning of that |
| DnstapWriter.Delivery | internal/dnstap/dnstap.go:69-115 | in every run, over all connections, records arrive in the order of capture, none twice; those that arrived, are queued, were lost and were dropped share out the records captured; at most 1024 are queued |
| DnstapWriter.GoneIsGone | internal/dnstap/dnstap.go:69-115 | a record lost or dropped is on no connection and not in the queue |
| DnstapWriter.WhyGone | internal/dnstap/dnstap.go:69-115 | a record was dropped only if 1024 others were queued when it was captured, and lost only if it did not pack or its write broke before the end |
| DnstapWriter.NeverStuck | internal/dnstap/dnstap.go:81-115 | from every reachable state, if all goes well from then on, every queued record that packs arrives, in order, and none is lost |
| DnstapWriter.Writer.Capture | internal/dnstap/dnstap.go:69-79 | never waits: queues the record, or drops it when 1024 are queued |
| DnstapWriter.Writer.Dial | internal/dnstap/dnstap.go:81-90 | opens a connection only when there is none in use |
| DnstapWriter.WriteItem | internal/dnstap/dnstap.go:162-170 | after a write that may break anywhere, a stream of whole items has one more of them, or ends in a part that reads as no item |
| DnstapWriter.Writer.Greet | internal/dnstap/dnstap.go:91-100 | writes READY and then START as the exporter's greeting step |
| DnstapWriter.Writer.Export | internal/dnstap/dnstap.go:102-113 | takes the oldest queued record and writes its frame as the exporter's step; one that fails to pack is lost |
| DomainMap.DomainMap.Set | internal/dnsserver/domainmap.go:14-16 | sets the value of the canonical name and no other |
| DomainMap.CaseIgnored | internal/dnsserver/domainmap.go:14-23 | names that differ in case only set and find the same entry |
| DomainMap.DotIgnored | internal/dnsserver/domainmap.go:14-23 | so do a name and the same name with a dot at the end |
| DomainMap.SameNameIff | internal/dnsserver/domainmap.go:14-23 | two spellings are of one name if and only if they are the same text but for the case of letters and one final dot |
| DomainMap.EndsIff | internal/dnsserver/domainmap.go:32-34 | a name is at or above another, label by label, if and only if its text is that of the other or follows some dot in it |
| DomainMap.DomainMap.GetExact | internal/dnsserver/domainmap.go:18-23 | finds the value last set for the name, under any spelling of it, and nothing if it was never set |
| DomainMap.DomainMap.GetMostSpecific | internal/dnsserver/domainmap.go:27-47 | succeeds if and only if the labels of the name end in those of some entry other than the root, and returns the value of one with the most labels, for every order of the walk; as text: the value last set for the longest name that the domain is, or that follows a dot in it |
| DomainMap.MostSpecificUnique | internal/dnsserver/domainmap.go:27-47 | there is only one such entry |
| DomainMap.LookupDetermined | internal/dnsserver/domainmap.go:27-47 | so the result depends on the map and the name alone, not on the order of the walk |
| DomainMap.RootNeverFound | internal/dnsserver/domainmap.go:29-44 | with an entry for the root and no other, nothing is found for any name |
| DomainMap.DomainMapFromString | internal/dnsserver/domainmap.go:52-67 | the loop fails, or builds a new map, as the fold over the parts does |
| DomainMap.ParseFails | internal/dnsserver/domainmap.go:55-64 | parsing fails if and only if some comma-separated part has something besides white space but no colon |
| DomainMap.LastValueWins | internal/dnsserver/domainmap.go:52-67 | otherwise the keys are the canonical names of the parts, each with the value of its last part |
| DomainMap.NameReadBackIff | internal/dnsserver/domainmap.go:14-16 | the printed form of a name is read back as that name if and only if the name is canonical: lower-case labels without dots, and not a single empty label |
| DomainMap.PairReadBack | internal/dnsserver/domainmap.go:55-64 | a printed entry is read back; its value may contain colons |
| DomainMap.SpacesIgnored | internal/dnsserver/domainmap.go:55-64 | white space around a part, a name or a value makes no difference |
| DomainMap.PrintThenParse | internal/dnsserver/domainmap.go:49-67 | printing a map with canonical keys, in any order of its entries, and parsing gives back the map |
| Text.TrimKeeps | internal/dnsserver/domainmap.go:56-57 | trimming keeps every character that is not white space, and leaves nothing exactly of a blank string |
| Text.SplitJoin | internal/dnsserver/domainmap.go:55 | splitting undoes joining when no piece contains the separator |
| Text.JoinSplit | internal/dnsserver/domainmap.go:55 | joining undoes splitting |
| Text.TrimAround | internal/dnsserver/domainmap.go:56-57 | trimming takes away exactly the white space around |
| Text.NumeralOfDecimal | internal/dnstap/dnstap.go:228-248 | a number written in decimal is read back |
| ClientRotation.HttpsResolver.SetClientError | internal/httpresolver/resolver.go:145-157 | takes the state the step of a query that ends, on whatever client |
| ClientRotation.HttpsResolver.MaybeRotateClient | internal/httpresolver/resolver.go:165-200 | takes the state the maintenance step; without a new client nothing changes |
| ClientRotation.CallsMakeRun | internal/httpresolver/resolver.go:159-227 | however queries, which capture the client when they begin, overlap with each other and with the maintenance loop, what happens is a run: each query ends on a client that was current |
| ClientRotation.Play | internal/httpresolver/resolver.go:145-227 | the object goes through the states of that run |
| ClientRotation.FirstErrIsEarliest | internal/httpresolver/resolver.go:145-157 | in every run `firstErr` is the time of the earliest failure since the last success or rotation, and zero if and only if there has been none |
| ClientRotation.RotatesIff | internal/httpresolver/resolver.go:165-200 | the client is replaced, by the new one, if and only if a new one can be made and that failure is more than 10 s old; otherwise it stays |
| ClientRotation.RotatesWhen | internal/httpresolver/resolver.go:145-200 | in plain terms: if and only if a new one can be made and some failure is more than 10 s old with neither a success nor a rotation since |
| ClientRotation.QuietBeforeRotation | internal/httpresolver/resolver.go:176-199 | no success and no other rotation in the ten seconds before a rotation |
| ClientRotation.RotationsTakeTime | internal/httpresolver/resolver.go:176-199 | in any stretch of a run each rotation after the first takes more than ten seconds |
| ClientRotation.AtMostThree | internal/httpresolver/resolver.go:165-200 | no thirty seconds of any run see more than three rotations |
| ClientRotation.ClientSinceFailure | internal/httpresolver/resolver.go:165-200 | the client stays the same from the failure that gets it replaced until it is replaced |
| ClientRotation.BlameIff | internal/httpresolver/resolver.go:219-227 | a client is replaced for a failure of its own if and only if that was reported while the client of the failed query was current |
| ClientRotation.ReplacedForOwnFailure | internal/httpresolver/resolver.go:219-227 | when every failure is reported on the current client, every client replaced has failed more than ten seconds before |
| ClientRotation.BlamelessAfterRotation | internal/httpresolver/resolver.go:219-227 | a client replaced for the failure of another was preceded by a rotation, more than ten seconds before, while the failed query was under way; so the first client is never replaced without its own failure |
| ClientRotation.LateFailureRotates | internal/httpresolver/resolver.go:219-227 | a run in which a client is replaced although no query on it has failed, because of a late failure on the old one |
| Ranking.DomainStats.RecordDomainQuery | internal/stats/stats.go:34-47 | counts the query under its name as the map step says, and skips a blank one |
| Ranking.CountedUnlessBlank | internal/stats/stats.go:35-42 | a query is counted under some name if and only if it is not blank |
| Ranking.CountedName | internal/stats/stats.go:35-42 | what it is counted under: every character lowered, white space around it ignored, and without one dot at the end unless that is all there is |
| Ranking.CountsAreQueries | internal/stats/stats.go:44-46 | after any run each name's count is the number of queries for it, and only names with queries are present |
| Ranking.CountsAddUp | internal/stats/stats.go:34-47 | after any run the counts, added in any order, make the number of queries that were not blank |
| Ranking.StrLessTotal | internal/stats/stats.go:87-92 | the order of names is total and strict |
| Ranking.StrLessIff | internal/stats/stats.go:87-92 | a name is less than another if and only if they agree up to some place where it ends or has the smaller character |
| Ranking.DomainStats.TopDomains | internal/stats/stats.go:74-98 | min(limit, n) entries with their counts: of two listed the earlier has the greater count or, the counts being equal, the earlier name; and so has every one listed against every one left out; none for a limit that is not positive |
| Ranking.RankingUnique | internal/stats/stats.go:74-98 | the ranking depends on the counts alone, not on the order of the map, and a longer one begins with a shorter one |

## Left out

* Sockets, HTTP and TLS, start-up and flags, the DNS servers themselves, HTML and JSON output, logging and `DumpCache`:
  plumbing around library code.
* DNS packing and `dns.Copy`: a message is a record of the fields the code reads, a resource record is an object with a
  TTL and opaque data, and packing is a parameter that may fail.
- Histogram.Histogram.Snapshot: gives percentages as exact numbers where the source rounds to `float32`; counts are unbounded where the source has `uint64`.
- Families.FamilyTraces.Finalize: demands a latency that is not negative, since the source indexes its rings with -1 otherwise.
- Families.FamilyTraces.TracesFor: demands a bucket of at least -2, since the source indexes its rings with anything lower.
- Tracing.Finish: demands an active trace, so that a trace finishes once; TracingRun.Do skips a finish of any other, and the creation of an identifier that is in use.
- AllEvents.AllEvents: works on a fixed snapshot of the traces, although the source locks one trace at a time and others may be added to meanwhile.
- CacheSpec.CacheBounded: the counter of a hit, a miss or a bypass changes in the same step as the lookup; counters are unbounded.
- CacheSpec.CachedAnswersAge: TTLs are whole seconds and the period is 30 s, as configured.
- CachingResolver.CachingResolver.BackendReturns: supposes that a backing resolver hands out records that no one else holds.
- DnstapWriter.StreamsDecode: supposes frames shorter than 2^32 bytes, which DnstapStream.DataDecodesIff shows to be needed.
- DnstapWire.Message: splitting the text of an unusual address and parsing the host in it are library functions, whose results are given; conformance to the published dnstap schema is not part of this model.
- DomainMap.DomainMap.GetMostSpecific: names are sequences of lower-case labels, with ASCII case folding as in the DNS library; escapes in names are not modelled.
- DomainMap.PrintThenParse: is for canonical names and values without the separators or white space at the ends, which is what the syntax can express.
- ClientRotation.HttpsResolver.MaybeRotateClient: a client is a number, and whether a new one can be made is an argument.
- Ranking.DomainStats.RecordDomainQuery: how a character is lowered is a parameter, so that any Unicode table will do; text is a sequence of characters, not of bytes that may be malformed.
- Ranking.DomainStats.TopDomains: counts are unbounded where the source has `int64`.
* Locks and goroutines: each locked region is one step, and runs interleave steps freely.
* The global `families` map is passed as a value; `container/ring` is a cyclic buffer of slots; the `seen` map is a set.
* New identifiers are unused, and the clock does not go back; both are inputs.
