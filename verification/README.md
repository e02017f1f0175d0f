# Stateful components of the WASI runtime, modelled in Dafny

The repository is a runtime for WebAssembly guests with in-memory default backends for the WASI
interfaces. Most of it is glue; this project models the small stateful algorithms in it as they are
coded and proves what they promise over all inputs, runs and interleavings.

| file | component |
|---|---|
| `CacheControl.dfy`, `CachedResponse.dfy`, `HttpCache.dfy` | the outbound HTTP cache: directive parser (section 5.2.1 of RFC 9111, section 13.1.2 of RFC 9110), response record, `handle` |
| `TtlCache.dfy`, `TtlInterleaving.dfy` | the TTL envelope cache under it, run alone and with every bucket operation a separate step |
| `KeyValueStore.dfy`, `Counter.dfy` | the two-level in-memory map, its batch operations, and `increment` |
| `TokenCache.dfy` | the OAuth token cache with its double-checked lock |
| `OtelValues.dfy`, `SpanGrouping.dfy`, `TraceState.dfy`, `Timestamps.dfy` | trace export: equality and hashing of scopes, grouping, `tracestate`, times |
| `PeerRegistry.dfy` | the WebSocket peer map and message router |
| `Blobstore.dfy` | the blobstore with its shared container tables |
| `RuntimeMacro.dfy` | name resolution in the code that `runtime!` generates |
| `Strings.dfy`, `Sequences.dfy`, `Wrappers.dfy` | splitting and joining, reordering, option, result and integer types |

Conventions. Code that changes state is a class or a method with a loop, specified by a function of the old
state; the lemmas are about those functions. Runs are lists of actions applied by a total step function: an
action that is not enabled changes nothing, so a statement about every list is a statement about every run.
Every lemma spells its induction out (`{:induction false}`). Clock readings are inputs. JSON, rkyv and
socket-address text are pairs of functions passed in with a `Lawful` predicate (decoding undoes encoding);
nothing else is known about them. Times are nanoseconds.

The HTTP statements compose: `HitIsFreshLastStore`, `FreshStoreIsHit` and `CacheIsTransparent` speak about
`Handled`, which runs the parser, the response codec, the envelope and the bucket together, and `Client.Handle`
is the imperative code proved equal to it.

Where the code differs from its own comments, tests or interface text, the model follows the code:

- a `no-cache` request has no entity tag, so it is accepted without `If-None-Match` and never stored
  (`NoCacheNeverStores`), although crates/wasi-http/src/guest/cache.rs:112-113 says it updates the cache;
- a `no-store` request gets its `ETag` replaced by an empty one (`NoStoreReplacesEtag`);
- a zero `max-age` makes acceptance depend on the order of directives (`OrderIrrelevantIff`);
- the token returned can already have expired, after a fetch as long as the shortest lifetime (`CommitIsLiveIff`)
  or after any wait for the lock (`HitIsLiveIff`);
- a reader of an expired entry can delete a value stored meanwhile (`EntrySurvivesIff`,
  `StaleReaderDeletesFreshValue`);
- `increment` errors on a missing key, pads short values behind, and loses updates when calls overlap
  (`NothingLostIff`), although it is documented as atomic and as creating the key;
- `get_many` skips missing keys instead of answering `none` (`PresentIsPositional`);
- spans whose scope attributes hold a scalar zero or a NaN violate the hash map's key laws (`HashLawIff`);
- deleting a container leaves its objects readable through handles already issued (`HandleReadsItsOrigin`).

## Model

| member | source | states |
|---|---|---|
| HttpCache.HitIsFreshLastStore | crates/wasi-http/src/guest/cache.rs:64-80 | in every run a hit is the response of the latest call that stored under the tag, read before the truncated end of its lifetime |
| HttpCache.FreshStoreIsHit | crates/wasi-http/src/guest/cache.rs:88-101 | once stored, a response answers every later lookup of its tag before the truncated expiry; no call in between can replace it |
| HttpCache.FreshWindow | crates/wasi-keyvalue/src/guest/cache.rs:94-112 | the window is `max-age` seconds from the whole second of the store, at most one second short of exact |
| HttpCache.CacheIsTransparent | crates/wasi-http/src/guest/outgoing.rs:23-85 | if the origin's response, however its body is split into chunks, is a function of the tag, every call of every run returns what the uncached path returns |
| HttpCache.UncachedSetsEtag | crates/wasi-http/src/guest/outgoing.rs:49-80 | status and all other headers are the origin's, the body is every chunk in order; `ETag` is the control's tag alone |
| HttpCache.EntryComesFromLastStore | crates/wasi-http/src/guest/cache.rs:88-101 | whatever a bucket holds under a tag is the envelope of the latest response stored under it |
| HttpCache.FreshEntryStays | crates/wasi-http/src/guest/cache.rs:64-101 | a fresh entry is neither overwritten nor swept by any calls |
| HttpCache.HandledEntry | crates/wasi-http/src/guest/outgoing.rs:29-80 | one call touches only the entry of its own tag and writes it only when it stores |
| HttpCache.NoCacheNeverStores | crates/wasi-http/src/guest/cache.rs:88-92 | a `no-cache` call leaves the bucket as it was |
| HttpCache.NoStoreReplacesEtag | crates/wasi-http/src/guest/outgoing.rs:75-79 | a `no-store` answer equals the origin's exactly if the origin sent one empty tag |
| HttpCache.Client.Handle | crates/wasi-http/src/guest/outgoing.rs:23-85 | the imperative call computes `Handled` on its bucket and leaves every other bucket unchanged |
| HttpCache.Client.Lookup | crates/wasi-http/src/guest/cache.rs:64-80 | the lookup answers what the TTL cache shows, decoded, and sweeps only an expired entry |
| HttpCache.Client.Put | crates/wasi-http/src/guest/cache.rs:88-101 | the store writes the enveloped record exactly when the control asks for it |
| HttpCache.ReadBody | crates/wasi-http/src/guest/outgoing.rs:49-71 | every chunk read stands in the body at the offset of the chunks before it, the chunk of the ending read follows, and nothing else is in it |
| HttpCache.NoHeaderPassesThrough | crates/wasi-http/src/guest/outgoing.rs:29-84 | without `Cache-Control` status, headers and whole body are the origin's, its failure is passed on, and the bucket is untouched |
| HttpCache.MissAbortsIff | crates/wasi-http/src/guest/cache.rs:88-101 | a storing miss aborts exactly if the lifetime or the expiry date is impossible; otherwise the tagged response is returned |
| CachedResponse.RoundTrip | crates/wasi-http/src/guest/cache.rs:221-247 | rebuilding a flattened response restores status, body and every name's values in order |
| CachedResponse.RoundTripIsExactIff | crates/wasi-http/src/guest/cache.rs:221-247 | the round trip is the identity exactly if all header values are visible ASCII |
| CachedResponse.FromSerialized | crates/wasi-http/src/guest/cache.rs:237-247 | the rebuild loop, with its errors for invalid status, names and values |
| CachedResponse.InsertSetsOne | crates/wasi-http/src/guest/outgoing.rs:77-77 | inserting a header leaves one value under its name and all other names alone |
| CachedResponse.FlattenForm | crates/wasi-http/src/guest/cache.rs:221-235 | the flattened list keeps the order of headers and values; a value outside visible ASCII becomes empty |
| CachedResponse.BuiltForm | crates/wasi-http/src/guest/cache.rs:237-247 | for any record: rebuilding fails exactly for a bad status, name or value; else each name has its values in order, whatever the letter case |
| CacheControl.Parse | crates/wasi-http/src/guest/cache.rs:126-199 | the directive loop computes the declarative parse, and a `no-store` result has neither `no-cache` nor an age |
| CacheControl.ScanAcceptsIff | crates/wasi-http/src/guest/cache.rs:142-175 | a directive list is accepted exactly if acceptable; then the flags and the last age are reported |
| CacheControl.ParsedControlIsOneOfThree | crates/wasi-http/src/guest/cache.rs:177-197 | success is `no-store` alone, `no-cache` without a tag, or neither with one strong comma-free tag |
| CacheControl.OrderIrrelevantIff | crates/wasi-http/src/guest/cache.rs:142-175 | acceptance survives every permutation except exactly for lists with `no-store` and a zero age, otherwise in order |
| CacheControl.HeaderOrderIrrelevant | crates/wasi-http/src/guest/cache.rs:126-199 | with positive ages, permuting the directives of a header string changes neither the verdict of the whole parse nor flags nor tag |
| CacheControl.MaxAgeIsRead | crates/wasi-http/src/guest/cache.rs:164-172 | a decimal age, blanks around the directive allowed, is read as that number if it fits 64 bits, else malformed |
| CacheControl.ClassifyIff | crates/wasi-http/src/guest/cache.rs:142-175 | for any text between commas: it counts as `no-store` or `no-cache` exactly if it is that word in any letter case between blanks, as an age exactly if it begins with `max-age=`, and is ignored otherwise |
| CacheControl.ClassifyAgeIff | crates/wasi-http/src/guest/cache.rs:164-172 | the age read is `n` exactly if a numeral of value `n` below 2^64 follows, blanks around it allowed |
| CacheControl.ParsedFlagsIff | crates/wasi-http/src/guest/cache.rs:142-162 | in a parsed header a flag is set exactly if a text between its commas says so |
| CacheControl.ParsedAcceptsIff | crates/wasi-http/src/guest/cache.rs:129-198 | the two headers are accepted exactly if the directives are acceptable and, unless a flag is set, there is one strong comma-free visible tag |
| TtlCache.CacheRefinesTimedMap | crates/wasi-keyvalue/src/guest/cache.rs:33-134 | every run of get, set and delete answers as a timed map does; lazy deletion is unobservable |
| TtlCache.PlainValueIsKeptIff | crates/wasi-keyvalue/src/guest/cache.rs:39-43 | a value set without lifetime is readable for ever exactly if it does not decode as an envelope |
| TtlCache.Cache.Get | crates/wasi-keyvalue/src/guest/cache.rs:33-52 | returns the value visible now and deletes an expired entry, in this bucket only |
| TtlCache.Cache.Set | crates/wasi-keyvalue/src/guest/cache.rs:60-76 | returns the previous visible value and stores the payload, or aborts on an impossible expiry before touching anything |
| TtlCache.SetWithLifetime | crates/wasi-keyvalue/src/guest/cache.rs:60-112 | for every 64-bit lifetime: exactly when a set is accepted, and that the value is then visible exactly until the whole second of the call plus the lifetime |
| TtlCache.ExpiryTruncation | crates/wasi-keyvalue/src/guest/cache.rs:100-112 | the expiry is cut to whole seconds, never later and less than a second earlier than exact |
| TtlCache.HugeLifetimes | crates/wasi-keyvalue/src/guest/cache.rs:64-64 | lifetimes above the duration type abort, or after the signed cast are stored already expired |
| TtlInterleaving.ReturnedValueWasSet | crates/wasi-keyvalue/src/guest/cache.rs:35-75 | under every interleaving a returned value is one an earlier action set for that key, and its lifetime, counted from the clock of that very action, had not run out at the clock of the step that checked it |
| TtlInterleaving.EntrySurvivesIff | crates/wasi-keyvalue/src/guest/cache.rs:35-51 | in any state, an unexpired entry survives every interleaving of readers below its expiry exactly if no client is about to delete it, holds a read of an entry that expires by then, or is about to write something else |
| TtlInterleaving.EntrySurvives | crates/wasi-keyvalue/src/guest/cache.rs:35-51 | the sufficient half, with the condition kept by every such run |
| TtlInterleaving.HarmfulClientRuins | crates/wasi-keyvalue/src/guest/cache.rs:46-75 | the necessary half: any one harmful client, by its own steps, deletes or replaces the unexpired entry |
| TtlInterleaving.StaleReaderDeletesFreshValue | crates/wasi-keyvalue/src/guest/cache.rs:46-48 | over any expired entry, any completed set by any client can be lost at once to any earlier reader |
| KeyValueStore.KeyValueDefault.OpenBucket | crates/wasi-keyvalue/src/host/default_impl.rs:47-61 | opening keeps an existing bucket and creates a missing one empty |
| KeyValueStore.InMemBucket.Set | crates/wasi-keyvalue/src/host/default_impl.rs:92-105 | sets one key of this bucket, creating the bucket if needed |
| KeyValueStore.InMemBucket.Delete | crates/wasi-keyvalue/src/host/default_impl.rs:107-122 | removes one key; a missing bucket stays missing |
| KeyValueStore.InMemBucket.Exists | crates/wasi-keyvalue/src/host/default_impl.rs:124-137 | true exactly if the bucket exists and holds the key |
| KeyValueStore.GetManyAfterSetMany | crates/wasi-keyvalue/src/host/batch_impl.rs:11-35 | reading back a batch gives one pair per request, with the last value written for its key |
| KeyValueStore.PresentIsPositional | crates/wasi-keyvalue/src/host/batch_impl.rs:16-23 | answers line up with requests exactly if every requested key exists |
| KeyValueStore.PresentForm | crates/wasi-keyvalue/src/host/batch_impl.rs:11-23 | requests are answered one by one and in order, missing keys with nothing |
| KeyValueStore.WrittenHoldsLast | crates/wasi-keyvalue/src/host/batch_impl.rs:26-35 | after a batch write a key holds its last pair's value, others are unchanged |
| KeyValueStore.InMemBucket.DeleteMany | crates/wasi-keyvalue/src/host/batch_impl.rs:37-47 | removes exactly the listed keys |
| Counter.Increment | crates/wasi-keyvalue/src/host/atomics_impl.rs:24-43 | errors on a missing key, else returns and stores the decoded value plus the delta |
| Counter.SerialResults | crates/wasi-keyvalue/src/host/atomics_impl.rs:30-42 | each call of a serial list returns its partial sum, exact while it fits 64 bits |
| Counter.SerialIncrements | crates/wasi-keyvalue/src/host/atomics_impl.rs:30-42 | serial increments leave the eight-byte encoding of the whole sum |
| Counter.DecodeEncode | crates/wasi-keyvalue/src/host/atomics_impl.rs:31-38 | the big-endian two's-complement encoding round-trips for every 64-bit integer |
| Counter.EncodeDecode | crates/wasi-keyvalue/src/host/atomics_impl.rs:31-38 | and for every eight bytes |
| Counter.FromBeAppend | crates/wasi-keyvalue/src/host/atomics_impl.rs:31-36 | each byte counts 256 times for every byte behind it |
| Counter.LongValuesAreCut | crates/wasi-keyvalue/src/host/atomics_impl.rs:32-35 | of a longer value only the first eight bytes count |
| Counter.ShortValuesAreScaled | crates/wasi-keyvalue/src/host/atomics_impl.rs:32-35 | a short value is padded behind and so scaled by 256 per missing byte |
| Counter.LastWriteHoldsSubset | crates/wasi-keyvalue/src/host/atomics_impl.rs:26-38 | interleaved, the value is the initial one plus a sub-collection of the deltas containing the last writer's |
| Counter.NothingLostIff | crates/wasi-keyvalue/src/host/atomics_impl.rs:26-38 | all writes are contained exactly if none came between another one and its read |
| Counter.UndisturbedKeepsAll | crates/wasi-keyvalue/src/host/atomics_impl.rs:26-38 | then the stored value is the initial one plus all deltas written |
| Counter.OverlappingCallsLoseOne | crates/wasi-keyvalue/src/host/atomics_impl.rs:26-38 | two overlapping calls keep only the second delta, for all deltas |
| TokenCache.RefreshesAreAmortised | crates/wasi-identity/src/host/default_impl.rs:129-162 | in every interleaving the number of refreshes is bounded by elapsed time over the shortest lifetime |
| TokenCache.ExpiryPaysForLifetimes | crates/wasi-identity/src/host/default_impl.rs:91-101 | the expiry is at least creation plus all lifetimes ever cached |
| TokenCache.ReturnedTokenIsValid | crates/wasi-identity/src/host/default_impl.rs:132-161 | a returned token was cached with the recorded expiry and outlives the caller's entry reading |
| TokenCache.ReturnedTokenComesFromAnswer | crates/wasi-identity/src/host/default_impl.rs:71-101 | over every run a returned token's text is the secret of an answer received in it, and its expiry is the clock of that call's commit plus the answer's lifetime, an hour if it names none |
| TokenCache.PlaceholderNeverReturned | crates/wasi-identity/src/host/default_impl.rs:119-137 | every returned token carries an answer of the run; the initial empty one is never returned |
| TokenCache.WritersAreSpaced | crates/wasi-identity/src/host/default_impl.rs:155-159 | a token is replaced only by callers that entered at or after its expiry |
| TokenCache.LaterReturnsAreFresher | crates/wasi-identity/src/host/default_impl.rs:129-162 | the expiry never decreases, and calls completing later return tokens at least as fresh |
| TokenCache.CommitIsLiveIff | crates/wasi-identity/src/host/default_impl.rs:130-161 | over all runs, a call that fetched is guaranteed a token live on return exactly if less time passed since its entry than the shortest token lifetime |
| TokenCache.CommitReturnsLiveToken | crates/wasi-identity/src/host/default_impl.rs:155-161 | the sufficient half, per run |
| TokenCache.HitIsLiveIff | crates/wasi-identity/src/host/default_impl.rs:130-137 | over all runs, a call that finds a token is guaranteed a live one exactly if no time passed between its entry reading and its check, however long tokens live |
| TokenCache.SlowFetchReturnsExpired | crates/wasi-identity/src/host/default_impl.rs:130-161 | for every longer fetch, a two-caller run whose second caller returns the first one's expired token |
| TokenCache.TokenManager.Token | crates/wasi-identity/src/host/default_impl.rs:129-162 | the uncontended call: hit, failed fetch, or the answer's secret cached for the answer's lifetime or an hour |
| TokenCache.TokenManager.Commit | crates/wasi-identity/src/host/default_impl.rs:155-161 | the second lock hold |
| OtelValues.HashLawIff | crates/wasi-otel/src/host/types_impl.rs:113-163 | equality implies equal hashing exactly for scopes without scalar zeros (or with a NaN) |
| OtelValues.ReflexiveIff | crates/wasi-otel/src/host/types_impl.rs:97-154 | a scope equals itself exactly if no attribute holds a NaN |
| OtelValues.EqScopesFeedAlike | crates/wasi-otel/src/host/types_impl.rs:113-163 | equal lawful scopes write the same to any hasher |
| OtelValues.EqDoublesCastAlike | crates/wasi-otel/src/host/types_impl.rs:123-125 | the cast used for arrays does not tell equal doubles apart |
| OtelValues.CastTruncates | crates/wasi-otel/src/host/types_impl.rs:123-125 | that cast is truncation toward zero of the IEEE 754 double |
| OtelValues.ScopeEqIff | crates/wasi-otel/src/host/types_impl.rs:97-145 | two scopes are equal exactly if neither holds a NaN and they are identical up to the sign of zeros |
| OtelValues.ScopeFeedIff | crates/wasi-otel/src/host/types_impl.rs:77-163 | exactly which scopes no hasher can tell apart: the same but for empty arrays and for number arrays equal after the cast |
| SpanGrouping.ExportIsFaithful | crates/wasi-otel/src/host/tracing_impl.rs:51-72 | for all scopes the export holds every span as often as the input; no group is empty, `spans[0]` names it, input order is kept |
| SpanGrouping.ExportIsPartitionIff | crates/wasi-otel/src/host/tracing_impl.rs:51-72 | for every hasher and iteration order the export is the partition by scope, exactly if no input scope holds a NaN and equal input scopes write the same to the hasher |
| SpanGrouping.ExportIsPartition | crates/wasi-otel/src/host/tracing_impl.rs:51-72 | in particular without NaN and scalar minus zero: exported groups have pairwise distinct scopes, and each span lies in the group of its scope |
| SpanGrouping.GroupsPartition | crates/wasi-otel/src/host/tracing_impl.rs:51-72 | the same for the map's values, in any order of its entries: one group per scope with all its spans in input order |
| SpanGrouping.SpansAreConserved | crates/wasi-otel/src/host/tracing_impl.rs:55-72 | for all scopes the groups hold exactly the multiset of spans |
| SpanGrouping.GroupsAreSound | crates/wasi-otel/src/host/tracing_impl.rs:65-72 | no group is empty, `spans[0]` names it, and its spans keep input order |
| SpanGrouping.NaNScopesNeverGroup | crates/wasi-otel/src/host/tracing_impl.rs:55-62 | spans of a scope with a NaN each get a group of their own |
| SpanGrouping.ResourceSpans | crates/wasi-otel/src/host/tracing_impl.rs:51-84 | the grouping loop over the table and the conversion of its values |
| SpanGrouping.Reparent | crates/wasi-otel/src/host/tracing_impl.rs:28-36 | the in-place loop gives every span the parent's trace id, the remote flag and the parent's span id, and keeps its own id, name and scope |
| SpanGrouping.ReparentingCommutesWithGrouping | crates/wasi-otel/src/host/tracing_impl.rs:28-40 | grouping re-parented spans is re-parenting the groups |
| TraceState.ParsePrintIff | crates/wasi-otel/src/guest/tracing.rs:119-130 | parsing undoes printing exactly for pairs without stray separators |
| TraceState.PrintParseIff | crates/wasi-otel/src/host/tracing_impl.rs:88-90 | printing undoes parsing exactly for headers whose members all contain '=', and the empty one |
| TraceState.PrintParseIsIdempotent | crates/wasi-otel/src/host/tracing_impl.rs:88-90 | parse-then-print is idempotent on all strings |
| TraceState.PrintedForm | crates/wasi-otel/src/host/tracing_impl.rs:88-90 | pairs are printed in list order, key, '=', value, with commas between |
| TraceState.ParsedForm | crates/wasi-otel/src/guest/tracing.rs:119-130 | for any header: members are read one by one in order, split at the first '=', and dropped without one |
| Timestamps.FlatteningIsExactIff | crates/wasi-otel/src/host/types_impl.rs:165-169 | flattening is exact exactly up to (18446744073, 709551615) |
| Timestamps.FlatteningPreservesOrder | crates/wasi-otel/src/host/types_impl.rs:165-169 | on times that fit it preserves and reflects the order |
| Timestamps.SystemTimeRoundTripIff | crates/wasi-otel/src/guest/convert.rs:80-88 | a system time survives guest and host exactly between the epoch and 2^64 nanoseconds |
| Timestamps.ConversionsInNumbers | crates/wasi-otel/src/guest/convert.rs:80-88 | seconds and a subsecond rest that add up to the time, zero before the epoch; flattening is that count modulo 2^64 |
| PeerRegistry.MailboxesMatchHistory | crates/wasi-websockets/src/host/server.rs:59-145 | over every run with addresses reused only after removal, domain and outboxes are what the history says |
| PeerRegistry.FiltersMatchHistory | crates/wasi-websockets/src/host/server.rs:102-145 | over the same runs each client's filter is the last JSON text its own connection sent |
| PeerRegistry.TargetsForm | crates/wasi-websockets/src/host/server.rs:72-75 | for any recipient string the pieces between commas are parsed one by one; one that is no address is skipped |
| PeerRegistry.RoutedForm | crates/wasi-websockets/src/host/server.rs:69-90 | what one message does to every peer: one copy for "all", else one per mention, none to service peers |
| PeerRegistry.Registry.Accept | crates/wasi-websockets/src/host/server.rs:106-117 | registers the address with no filter and an empty outbox, as a service exactly if it is a loopback address |
| PeerRegistry.CleanupIsSafeIff | crates/wasi-websockets/src/host/server.rs:144-144 | removing one connection keeps the map exact exactly if no other live one has its address |
| PeerRegistry.SentToEachCounts | crates/wasi-websockets/src/host/server.rs:72-90 | a targeted message gives one copy per mention to clients, none to service peers |
| PeerRegistry.SendToListedIsSendToAll | crates/wasi-websockets/src/host/default_impl.rs:65-111 | sending to the listed peers equals sending to all, in every state |
| PeerRegistry.Registry.SendMessage | crates/wasi-websockets/src/host/server.rs:59-93 | the routing loops |
| PeerRegistry.Registry.GetPeers | crates/wasi-websockets/src/host/default_impl.rs:65-82 | lists every client once with its filter, and no service peer |
| PeerRegistry.Registry.SendPeers | crates/wasi-websockets/src/host/default_impl.rs:85-97 | routes to the joined names; for the addresses of any listing of the clients it does what `send_all` does |
| PeerRegistry.Registry.SendAll | crates/wasi-websockets/src/host/default_impl.rs:100-111 | every peer but the service ones gets the message once |
| PeerRegistry.Registry.SetFilter | crates/wasi-websockets/src/host/server.rs:126-128 | sets the query of a registered peer only |
| Blobstore.RunMatchesHistory | crates/wasi-blobstore/src/host/default_impl.rs:48-191 | in every run each epoch's table is what the calls through its handles left; names and handles refer to the right epochs |
| Blobstore.ObserveIff | crates/wasi-blobstore/src/host/default_impl.rs:48-75 | two handles observe each other's writes exactly if they stem from the same creation |
| Blobstore.HandleReadsItsOrigin | crates/wasi-blobstore/src/host/default_impl.rs:77-89 | what a handle reads does not depend on re-creation or deletion of the name |
| Blobstore.RecreatedContainerIsIsolated | crates/wasi-blobstore/src/host/default_impl.rs:48-61 | a re-created container is empty and no stale handle affects it; bytes read earlier never change |
| Blobstore.Container.Clear | crates/wasi-blobstore/src/host/container_impl.rs:103-112 | sequential clearing leaves the table empty |
| Blobstore.Container.DeleteObjects | crates/wasi-blobstore/src/host/container_impl.rs:78-87 | deletes exactly the listed objects |
| Blobstore.Host.CreateContainer | crates/wasi-blobstore/src/host/default_impl.rs:48-61 | on the heap: a fresh table under the name, refining the epoch specification |
| Blobstore.Host.GetContainer | crates/wasi-blobstore/src/host/default_impl.rs:63-75 | on the heap: a clone sharing the table now under the name, or an error |
| Blobstore.Host.WriteData | crates/wasi-blobstore/src/host/container_impl.rs:48-61 | on the heap: changes the one shared table, refining the epoch specification |
| Blobstore.Host.GetData | crates/wasi-blobstore/src/host/container_impl.rs:33-46 | answers from the handle's epoch, with errors for unknown handles and objects |
| RuntimeMacro.ReferencesResolveIff | crates/runtime-macro/src/expand.rs:163-171 | every `self.<field>` names a declared field exactly under a condition on the longer paths; plain backends always resolve |
| RuntimeMacro.SnakeIsInvertibleIff | crates/runtime-macro/src/expand.rs:215-235 | `field_ident` has a left inverse, which recovers exactly the camel-case names |
| RuntimeMacro.SnakeIsInjective | crates/runtime-macro/src/expand.rs:215-235 | two camel-case names have the same field name exactly if they are the same |
| RuntimeMacro.SmallStartCollides | crates/runtime-macro/src/expand.rs:215-235 | every name that starts small shares its field name with the capitalised one |
| RuntimeMacro.ContextFieldsAreDistinct | crates/runtime-macro/src/expand.rs:145-155 | for plain camel-case backends the context fields are pairwise distinct |
| RuntimeMacro.KeptBackendsAllHaveFields | crates/runtime-macro/src/expand.rs:145-155 | the second deduplication drops nothing |
| RuntimeMacro.KeptIff | crates/runtime-macro/src/runtime.rs:37-44 | which backends deduplication keeps, each identifier once |
| RuntimeMacro.ParseBackends | crates/runtime-macro/src/runtime.rs:37-44 | the deduplication loop |
| RuntimeMacro.FieldIdent | crates/runtime-macro/src/expand.rs:215-235 | the name holds every character of the last segment in order, capitals as small letters behind an underscore unless first, and no other character |
| RuntimeMacro.KeptInOrder | crates/runtime-macro/src/runtime.rs:37-44 | kept backends come in the order of their first mention |
| RuntimeMacro.SecondLongPathDangles | crates/runtime-macro/src/runtime.rs:40-42 | two different longer paths leave a dangling reference |

## Left out

- Sockets, HTTP transport, the OAuth exchange, the gRPC export, component linking and compilation, SQL, messaging, vault and configuration: I/O, foreign libraries or one-branch code.
- serde_json, rkyv, chrono and socket-address internals: inverse pairs of functions; the range of the date type is a parameter.
- TokenCache.TokenManager.Token: requested scopes are not modelled, because the cache ignores them; the overflow of the clock type is not modelled either.
- TtlCache.Cache.Get: errors of the bucket interface are not modelled, because the in-memory host never returns one.
- HttpCache.Client.Handle: the capacity reserved from `Content-Length` and header-map size limits have no counterpart, because they do not change the response; the conversion of the tag to a header value cannot fail for parsed tags and has no branch.
- Counter.Increment: 64-bit overflow wraps as in a release build; a debug build aborts instead.
- Timestamps.FlatteningIsExactIff: overflow wraps as in a release build; a debug build aborts instead.
- SpanGrouping.ResourceSpans: the conversion of attributes, events, links and the resource to the export format is field-wise and left out.
- SpanGrouping.NaNScopesNeverGroup: for unlawful scopes a real hash table may also meet equal keys of different hash in one probe group; the model compares keys of equal hash only.
- PeerRegistry.MailboxesMatchHistory: the moment between a channel closing and its entry leaving the map is one step, and messages are delivered into the channel, not over the network.
- PeerRegistry.Registry.SendMessage: the JSON text around the message is not modelled; an unparsable one is ignored by the code.
- Blobstore.Container.GetData: the range arguments are ignored, as in the code; object metadata, streams, copy and move are left out.
- Blobstore.Host.WriteData: dropping a handle from the resource table is left out.
- RuntimeMacro.FieldIdent: identifiers are ASCII and carry no generic arguments.
