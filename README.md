# Subway core: caches, event dispatch, guards, extensions and secure random numbers

This project models the shared core of Subway, a C# toolkit for web
services. It covers the following parts:

- **Local caches.** `InMemoryCacheProvider` sits over a size-limited
  `MemoryCache`. `OldInMemoryCacheProvider` keeps an extra
  `ConcurrentDictionary` index of its keys, which post-eviction callbacks
  prune. Both providers share one static cancellation token, whose
  cancellation is meant to expire every entry at once (`Flush`).
- **Remote cache.** `RedisCacheProvider` offers the same operations over a
  Redis database. `RedisDatabaseProvider` opens one lazy connection and
  discovers the master servers of that connection.
- **Event dispatch.** `SubscriberService` resolves the consumers registered
  for an event type. `EventPublisher` hands the message to each consumer in
  ascending `Order`, and stops at the first handler that throws.
- **Guards.** `Ensure` wraps a parameter name and value in `Validation<T>`,
  and its guards throw or pass the validation on for chaining.
- **Extension methods** over enumerables, strings and dates.
- **`SecureRandomProvider`**: integers, booleans and strings drawn from a
  shared buffer of cryptographic random bytes.

There is one Dafny module per source file. `Runtime` holds the C# notions
the other modules share: `null` as `Nullable<T>`, a thrown exception as
`Result<T>`/`Outcome`, `Int32`/`UInt32`/`Int64`/`UInt64` ranges with their
wrap-around casts, and `is T` type tests. A runtime type is a name, and
`is T` holds only for an instance of exactly that type. `CacheCommon` holds the key
validation and the shared cancellation token (`TokenRegistry`). `Text`
holds the separated concatenation that the StringBuilder loops build.

Objects whose fields the code updates in place are classes. Their methods
say in `modifies`/`ensures` what the new state is; their `reads` frames
cover the functions over that state. The following are classes: the cache
providers, the token source, the Redis connection holder, the publisher and
the random provider with its `array` buffer. Everything else is functions
and lemmas over values.

The environment is passed in as parameters:

- the JSON serializer is a pair of total functions, with `RoundTrips` as
  the assumption a caller states;
- the Redis server is the `data` map plus a log of the commands sent;
- the cluster topology is the list of `ServerInfo` values the connection
  reports;
- the registered consumers are a list of `Registration`s, each consumer
  saying whether its handler throws;
- `RNGCryptoServiceProvider` is an `entropy` function from (fill number,
  position) to a byte;
- `DateTime.UtcNow` is the parameter `now`, in ticks;
- the `acquire`/`factory` callbacks are the value they return;
- `TryParse` and `Convert.ToDateTime` are oracle functions.

A few details of the source behaviour, as modelled:

- `EqualTo` and `NotEqualTo` both call `Value.Equals`. For a reference `T`
  a null value throws `NullReferenceException`. A null `Nullable<U>` struct
  does not throw: it equals only null. The parameter `nullableStruct` says
  which kind `T` is.
- `GenerateInt` folds the sign with an unchecked negation, so the raw word
  `0x80000000` yields `int.MinValue`. `SecureRandom.SignFold32` states this
  exactly.
- An `ArgumentException` built without a parameter name is
  `ArgumentException("")`.
- A null key that passes the pair check of the Redis provider reaches
  StackExchange.Redis. The model treats that as an `ArgumentException("")`.

## Model

| member | source | states |
|---|---|---|
| CacheCommon.IsValidKey | src/cache/Cnd.Cache.InMemory/OldInMemoryCacheProvider.cs:250-261 | a key is valid exactly when it is non-null and non-empty |
| CacheCommon.IsValidPair | src/cache/Cnd.Cache.InMemory/OldInMemoryCacheProvider.cs:231-248 | a key/value pair is rejected exactly when the key is null or empty and the value is not null |
| CacheCommon.PairValidityFollowsKeyValidity | src/cache/Cnd.Cache.Redis/RedisCacheProvider.cs:382-412 | a valid key makes every pair valid; a valid pair with a value has a valid key; a valid pair with an invalid key has a null value |
| CacheCommon.TokenRegistry.constructor | src/cache/Cnd.Cache.InMemory/InMemoryCacheProvider.cs:14 | the shared token source starts with one live token and nothing cancelled |
| CacheCommon.TokenRegistry.Cancel | src/cache/Cnd.Cache.InMemory/InMemoryCacheProvider.cs:144 | cancelling adds exactly that token to the cancelled ones and leaves the current token alone |
| CacheCommon.TokenRegistry.InstallNew | src/cache/Cnd.Cache.InMemory/InMemoryCacheProvider.cs:148 | a new, uncancelled token becomes current; cancellations are kept |
| InMemoryCache.EntryOptionsFor | src/cache/Cnd.Cache.InMemory/InMemoryCacheProvider.cs:151-160 | entry options exist exactly when both expirations are positive; they carry size 1, both expirations and the current token, and no eviction callback |
| InMemoryCache.Admit | src/cache/Cnd.Cache.InMemory/InMemoryCacheProvider.cs:30-34 | under the size limit the entry is stored; at the limit the key's old entry is dropped instead; other keys are untouched and the limit holds |
| InMemoryCache.AdmitThenFind | src/cache/Cnd.Cache.InMemory/InMemoryCacheProvider.cs:30-34 | after admission the key is present exactly when there was room, holding the new entry, and the count stays within the limit |
| InMemoryCache.Construction | src/cache/Cnd.Cache.InMemory/InMemoryCacheProvider.cs:30-34 | construction completes exactly for a non-negative CacheSize; a negative one throws ArgumentOutOfRangeException("value") from the SizeLimit setter |
| InMemoryCache.InMemoryCacheProvider.constructor | src/cache/Cnd.Cache.InMemory/InMemoryCacheProvider.cs:19-35 | for options whose construction completes, a new provider has an empty cache over the given options and the shared token |
| InMemoryCache.InMemoryCacheProvider.SetOutcome | src/cache/Cnd.Cache.InMemory/InMemoryCacheProvider.cs:48-57 | a set completes exactly when the key is non-null and both expirations are positive |
| InMemoryCache.InMemoryCacheProvider.Set | src/cache/Cnd.Cache.InMemory/InMemoryCacheProvider.cs:42-46 | uses the configured expirations; on success the entry is admitted under the size limit with the current token, on failure nothing changes |
| InMemoryCache.InMemoryCacheProvider.SetWithExpirations | src/cache/Cnd.Cache.InMemory/InMemoryCacheProvider.cs:48-57 | as Set with the given sliding and absolute expirations |
| InMemoryCache.InMemoryCacheProvider.Get | src/cache/Cnd.Cache.InMemory/InMemoryCacheProvider.cs:59-74 | a null key throws; otherwise the result has the requested type, is the live stored value when non-null, and is that value whenever it is of the type |
| InMemoryCache.InMemoryCacheProvider.GetOrAcquire | src/cache/Cnd.Cache.InMemory/InMemoryCacheProvider.cs:76-102 | a live value of the type is returned without calling acquire; otherwise acquire runs and its result is stored and returned, or the entry options throw and nothing is stored |
| InMemoryCache.InMemoryCacheProvider.Remove | src/cache/Cnd.Cache.InMemory/InMemoryCacheProvider.cs:104-107 | a null key throws; otherwise exactly that key leaves the cache |
| InMemoryCache.InMemoryCacheProvider.RemovePattern | src/cache/Cnd.Cache.InMemory/InMemoryCacheProvider.cs:109-112 | always throws NotImplementedException |
| InMemoryCache.InMemoryCacheProvider.Exists | src/cache/Cnd.Cache.InMemory/InMemoryCacheProvider.cs:114-118 | a null key throws; otherwise true exactly when the key holds a live entry |
| InMemoryCache.InMemoryCacheProvider.Refresh | src/cache/Cnd.Cache.InMemory/InMemoryCacheProvider.cs:120-125 | removes the key, then sets it with the configured expirations; a failing set leaves the key removed |
| InMemoryCache.InMemoryCacheProvider.RefreshWithExpiration | src/cache/Cnd.Cache.InMemory/InMemoryCacheProvider.cs:127-133 | ignores the given expiration: same new state as Refresh |
| InMemoryCache.InMemoryCacheProvider.Flush | src/cache/Cnd.Cache.InMemory/InMemoryCacheProvider.cs:135-149 | as written: installs a new token without cancelling the old one, so every entry stays exactly as live as before |
| InMemoryCache.InMemoryCacheProvider.FlushAndExpire | src/cache/Cnd.Cache.InMemory/InMemoryCacheProvider.cs:142-148 | with the guard corrected: the old token is cancelled, so every entry made under it stops being live |
| InMemoryCache.InMemoryCacheProvider.Count | src/cache/Cnd.Cache.InMemory/InMemoryCacheProvider.cs:162 | the number of stored entries, never above the configured size |
| InMemoryCache.FlushKeepsEntries | src/cache/Cnd.Cache.InMemory/InMemoryCacheProvider.cs:142 | a value set before Flush is still returned after it |
| InMemoryCache.IntendedFlushExpiresEntries | src/cache/Cnd.Cache.InMemory/InMemoryCacheProvider.cs:142-148 | with the corrected flush the same value is gone |
| OldInMemoryCache.TryAdd | src/cache/Cnd.Cache.InMemory/OldInMemoryCacheProvider.cs:53 | ConcurrentDictionary.TryAdd: adds the key with the flag only when absent; existing flags are kept |
| OldInMemoryCache.TryRemove | src/cache/Cnd.Cache.InMemory/OldInMemoryCacheProvider.cs:213 | removes the key and reports whether it was there |
| OldInMemoryCache.TryUpdate | src/cache/Cnd.Cache.InMemory/OldInMemoryCacheProvider.cs:215 | replaces the flag only when it equals the comparison value; the key set and other flags are unchanged |
| OldInMemoryCache.EntryOptionsFor | src/cache/Cnd.Cache.InMemory/OldInMemoryCacheProvider.cs:220-229 | options exist exactly for a positive expiration; absolute expiration, the current token and the eviction callback, with no size or sliding expiration |
| OldInMemoryCache.FalseFlagged | src/cache/Cnd.Cache.InMemory/OldInMemoryCacheProvider.cs:194 | the keys whose flag is false; none while all flags are true |
| OldInMemoryCache.AfterTryRemoveKey | src/cache/Cnd.Cache.InMemory/OldInMemoryCacheProvider.cs:209-218 | the index without the key, or unchanged for the empty key |
| OldInMemoryCache.OldInMemoryCacheProvider.constructor | src/cache/Cnd.Cache.InMemory/OldInMemoryCacheProvider.cs:19-27 | an empty cache and an empty key index over the shared token |
| OldInMemoryCache.OldInMemoryCacheProvider.Set | src/cache/Cnd.Cache.InMemory/OldInMemoryCacheProvider.cs:33-41 | an invalid pair does nothing; a null key with a null value throws; otherwise the value is stored for 600 seconds and the key is indexed |
| OldInMemoryCache.OldInMemoryCacheProvider.SetWithExpiration | src/cache/Cnd.Cache.InMemory/OldInMemoryCacheProvider.cs:43-55 | as Set with the given expiration; a non-positive one throws before anything is stored |
| OldInMemoryCache.OldInMemoryCacheProvider.Get | src/cache/Cnd.Cache.InMemory/OldInMemoryCacheProvider.cs:57-75 | null for an invalid key; otherwise a value of the requested type that is the live stored one when non-null, and is it whenever it has the type |
| OldInMemoryCache.OldInMemoryCacheProvider.GetOrAcquire | src/cache/Cnd.Cache.InMemory/OldInMemoryCacheProvider.cs:77-111 | null for an invalid key; a live value of the type without calling acquire; otherwise acquire's result, stored and indexed |
| OldInMemoryCache.OldInMemoryCacheProvider.Remove | src/cache/Cnd.Cache.InMemory/OldInMemoryCacheProvider.cs:113-120 | removes a valid key from the cache and leaves the key index as it was |
| OldInMemoryCache.OldInMemoryCacheProvider.RemovePattern | src/cache/Cnd.Cache.InMemory/OldInMemoryCacheProvider.cs:122-131 | a null pattern throws once the index is non-empty; otherwise every indexed non-empty key starting with the pattern leaves the cache |
| OldInMemoryCache.OldInMemoryCacheProvider.Exists | src/cache/Cnd.Cache.InMemory/OldInMemoryCacheProvider.cs:133-142 | true exactly for a valid key holding a live entry |
| OldInMemoryCache.OldInMemoryCacheProvider.Refresh | src/cache/Cnd.Cache.InMemory/OldInMemoryCacheProvider.cs:144-152 | for a valid pair: removes then sets the key for 600 seconds |
| OldInMemoryCache.OldInMemoryCacheProvider.RefreshWithExpiration | src/cache/Cnd.Cache.InMemory/OldInMemoryCacheProvider.cs:154-162 | removes then sets with the given expiration; a non-positive one throws after the removal |
| OldInMemoryCache.OldInMemoryCacheProvider.Flush | src/cache/Cnd.Cache.InMemory/OldInMemoryCacheProvider.cs:164-178 | as written: a new token is installed and nothing is cancelled, so no entry expires |
| OldInMemoryCache.OldInMemoryCacheProvider.FlushAndExpire | src/cache/Cnd.Cache.InMemory/OldInMemoryCacheProvider.cs:171-177 | with the guard corrected: every entry under the old token stops being live |
| OldInMemoryCache.OldInMemoryCacheProvider.PostEviction | src/cache/Cnd.Cache.InMemory/OldInMemoryCacheProvider.cs:180-190 | a replaced entry leaves the index alone; any other eviction drops the false-flagged keys, then the evicted key |
| OldInMemoryCache.OldInMemoryCacheProvider.ClearKeys | src/cache/Cnd.Cache.InMemory/OldInMemoryCacheProvider.cs:192-198 | drops exactly the non-empty false-flagged keys; with every flag true it changes nothing |
| OldInMemoryCache.OldInMemoryCacheProvider.RemoveKey | src/cache/Cnd.Cache.InMemory/OldInMemoryCacheProvider.cs:200-207 | returns the key and removes it from the index when valid |
| OldInMemoryCache.OldInMemoryCacheProvider.TryRemoveKey | src/cache/Cnd.Cache.InMemory/OldInMemoryCacheProvider.cs:209-218 | removes a valid key from the index; the fallback update never runs on a present key |
| OldInMemoryCache.RemovePatternScenario | src/cache/Cnd.Cache.InMemory/OldInMemoryCacheProvider.cs:122-131 | removing the pattern "foo-" takes foo-1 and foo-2 and keeps bar-1, while the index keeps all three |
| RedisCache.ProtectCache | src/cache/Cnd.Cache.Redis/RedisCacheProvider.cs:98-109 | protection returns the data unchanged |
| RedisCache.UnProtectCache | src/cache/Cnd.Cache.Redis/RedisCacheProvider.cs:251-262 | unprotection returns the value unchanged, null included |
| RedisCache.ProtectionRoundTrips | src/cache/Cnd.Cache.Redis/RedisCacheProvider.cs:98-109 | unprotecting protected data gives the data back |
| RedisCache.SetAll | src/cache/Cnd.Cache.Redis/RedisCacheProvider.cs:70-85 | a multi-key SET adds exactly the given keys, without a TTL, and keeps every other key |
| RedisCache.SetAllLastWins | src/cache/Cnd.Cache.Redis/RedisCacheProvider.cs:76-82 | a key given more than once ends with its last value |
| RedisCache.DeleteAll | src/cache/Cnd.Cache.Redis/RedisCacheProvider.cs:191-203 | a multi-key DEL removes exactly the listed keys |
| RedisCache.NonEmptyKeys | src/cache/Cnd.Cache.Redis/RedisCacheProvider.cs:345 | the non-null, non-empty keys, and only those |
| RedisCache.SerializePairs | src/cache/Cnd.Cache.Redis/RedisCacheProvider.cs:76-82 | each pair keeps its key and serializes its value, in order |
| RedisCache.Decode | src/cache/Cnd.Cache.Redis/RedisCacheProvider.cs:271-284 | a well-typed serializer yields a value of the requested type |
| RedisCache.DecodeSerialized | src/cache/Cnd.Cache.Redis/RedisCacheProvider.cs:47-57 | a value stored by a round-tripping serializer is read back unchanged |
| RedisCache.ToInt32Congruent | src/cache/Cnd.Cache.Redis/RedisCacheProvider.cs:358 | the (int) cast depends only on the value modulo 2^32 |
| RedisCache.ToInt32Add | src/cache/Cnd.Cache.Redis/RedisCacheProvider.cs:356-361 | summing the wrapped sizes gives the wrap of the whole sum |
| RedisCache.CollectResponse | src/cache/Cnd.Cache.Redis/RedisCacheProvider.cs:149-166 | as written: a null result throws; otherwise one value per result, or in secure mode each value twice |
| RedisCache.CollectResponseIntended | src/cache/Cnd.Cache.Redis/RedisCacheProvider.cs:149-166 | corrected: exactly one element per result, in order, in both modes: the deserialized text, or null for a missing key, never throwing |
| RedisCache.Sent | src/cache/Cnd.Cache.Redis/RedisCacheProvider.cs:70-85 | a bulk command over an empty array sends nothing; any other command is sent as issued |
| RedisCache.Lookup | src/cache/Cnd.Cache.Redis/RedisCacheProvider.cs:147 | a multi-key GET returns each key's payload, or null for a missing key |
| RedisCache.LookupHasNull | src/cache/Cnd.Cache.Redis/RedisCacheProvider.cs:147 | the reply holds a null exactly when some key is missing |
| RedisCache.RedisCacheProvider.constructor | src/cache/Cnd.Cache.Redis/RedisCacheProvider.cs:23-36 | the provider over the database, options, serializer and servers, with no command sent |
| RedisCache.RedisCacheProvider.Payload | src/cache/Cnd.Cache.Redis/RedisCacheProvider.cs:53-55 | the stored text is the serialized value, in both modes |
| RedisCache.RedisCacheProvider.Set | src/cache/Cnd.Cache.Redis/RedisCacheProvider.cs:41-45 | an invalid pair sends nothing; a valid pair with a null key raises ArgumentException; otherwise one SET with the configured TTL stores the serialized value |
| RedisCache.RedisCacheProvider.SetWithExpiration | src/cache/Cnd.Cache.Redis/RedisCacheProvider.cs:47-57 | as Set with the given TTL |
| RedisCache.RedisCacheProvider.SetStringAsync | src/cache/Cnd.Cache.Redis/RedisCacheProvider.cs:59-68 | as Set, with the configured TTL |
| RedisCache.RedisCacheProvider.SetStringAsyncWithExpiration | src/cache/Cnd.Cache.Redis/RedisCacheProvider.cs:87-96 | as Set, with the given TTL |
| RedisCache.RedisCacheProvider.SetKeysAsync | src/cache/Cnd.Cache.Redis/RedisCacheProvider.cs:70-85 | null sends nothing; otherwise one multi-key SET of all serialized pairs, which an empty list keeps from reaching the server |
| RedisCache.RedisCacheProvider.Get | src/cache/Cnd.Cache.Redis/RedisCacheProvider.cs:264-293 | no read for an invalid key; otherwise one GET whose result is the decoded stored value, or null when missing |
| RedisCache.RedisCacheProvider.GetStringAsync | src/cache/Cnd.Cache.Redis/RedisCacheProvider.cs:111-139 | as Get |
| RedisCache.RedisCacheProvider.GetOrFactory | src/cache/Cnd.Cache.Redis/RedisCacheProvider.cs:205-249 | a stored value is returned without calling the factory; otherwise the factory runs, and a non-null result is stored with the configured TTL and returned |
| RedisCache.RedisCacheProvider.GetKeysAsync | src/cache/Cnd.Cache.Redis/RedisCacheProvider.cs:142-175 | as written: one multi-key GET; a missing key throws the serializer's ArgumentNullException; otherwise one value per key, or each twice in secure mode |
| RedisCache.RedisCacheProvider.GetKeysAsyncIntended | src/cache/Cnd.Cache.Redis/RedisCacheProvider.cs:142-175 | corrected: one element per key, in key order: the decoded stored value, or null for a missing key |
| RedisCache.RedisCacheProvider.Remove | src/cache/Cnd.Cache.Redis/RedisCacheProvider.cs:295-306 | a valid key gets one DEL and leaves the store; otherwise nothing is sent |
| RedisCache.RedisCacheProvider.RemoveStringAsync | src/cache/Cnd.Cache.Redis/RedisCacheProvider.cs:177-188 | as Remove |
| RedisCache.RedisCacheProvider.RemoveKeysAsync | src/cache/Cnd.Cache.Redis/RedisCacheProvider.cs:191-203 | null sends nothing; otherwise one multi-key DEL of all the keys, none reaching the server for an empty list |
| RedisCache.RedisCacheProvider.RemoveAll | src/cache/Cnd.Cache.Redis/RedisCacheProvider.cs:337-350 | null throws; no DEL when no key is non-empty; otherwise one DEL of the non-empty keys |
| RedisCache.RedisCacheProvider.Exists | src/cache/Cnd.Cache.Redis/RedisCacheProvider.cs:308-316 | true exactly for a valid stored key; only a valid key is queried |
| RedisCache.RedisCacheProvider.Refresh | src/cache/Cnd.Cache.Redis/RedisCacheProvider.cs:318-325 | for a valid pair the key ends holding the value with the configured TTL |
| RedisCache.RedisCacheProvider.RefreshWithExpiration | src/cache/Cnd.Cache.Redis/RedisCacheProvider.cs:327-335 | for a valid pair: DEL, when the key is valid, then SET with the given TTL |
| RedisCache.RedisCacheProvider.GetCount | src/cache/Cnd.Cache.Redis/RedisCacheProvider.cs:352-362 | the sum of the master servers' sizes, wrapped to 32 bits, and exactly the sum while it fits |
| RedisCache.RedisCacheProvider.Flush | src/cache/Cnd.Cache.Redis/RedisCacheProvider.cs:364-375 | assuming admin mode, every master server is emptied; with no master nothing changes |
| RedisCache.RedisCacheProvider.RemovePattern | src/cache/Cnd.Cache.Redis/RedisCacheProvider.cs:377-380 | does nothing at all |
| RedisCache.RedisCacheProvider.Count | src/cache/Cnd.Cache.Redis/RedisCacheProvider.cs:419-422 | always throws NotImplementedException |
| RedisCache.RedisCacheProvider.SetSlidingAbsolute | src/cache/Cnd.Cache.Redis/RedisCacheProvider.cs:414-417 | always throws NotImplementedException |
| RedisCache.SetThenGet | src/cache/Cnd.Cache.Redis/RedisCacheProvider.cs:47-57 | with a round-tripping serializer, a value set under a key is read back, in either mode |
| RedisCache.MissingKeyThrows | src/cache/Cnd.Cache.Redis/RedisCacheProvider.cs:147-163 | as written: with "a" stored and "b" missing, the multi-get of both throws ArgumentNullException |
| RedisCache.MissingKeyIntended | src/cache/Cnd.Cache.Redis/RedisCacheProvider.cs:147-163 | corrected: the same call yields the stored value and a null |
| RedisCache.SecureGetKeysDuplicates | src/cache/Cnd.Cache.Redis/RedisCacheProvider.cs:152-164 | in secure mode two stored values come back as four, each repeated |
| RedisDatabase.NonReplicaNodes | src/cache/Cnd.Cache.Redis/RedisDatabaseProvider.cs:86 | exactly the endpoints of the cluster nodes that are not replicas |
| RedisDatabase.NonReplicaNodesSingle | src/cache/Cnd.Cache.Redis/RedisDatabaseProvider.cs:86 | one node contributes its endpoint exactly when it is not a replica |
| RedisDatabase.NonReplicaNodesConcat | src/cache/Cnd.Cache.Redis/RedisDatabaseProvider.cs:86 | the selection keeps configuration order: a concatenation of node lists selects the first part's endpoints, then the second's |
| RedisDatabase.Contribution | src/cache/Cnd.Cache.Redis/RedisDatabaseProvider.cs:84-94 | a cluster server adds exactly its non-replica nodes, in configuration order; a standalone master adds its own endpoint |
| RedisDatabase.FirstStopDecides | src/cache/Cnd.Cache.Redis/RedisDatabaseProvider.cs:76-99 | the masters are the contribution of the first connected cluster or standalone master |
| RedisDatabase.NoStopNoMasters | src/cache/Cnd.Cache.Redis/RedisDatabaseProvider.cs:76-99 | with no such server the list is empty |
| RedisDatabase.SkippedEndpoint | src/cache/Cnd.Cache.Redis/RedisDatabaseProvider.cs:82-95 | a disconnected endpoint, a replica or a server of another type is skipped |
| RedisDatabase.AtMostOneContributes | src/cache/Cnd.Cache.Redis/RedisDatabaseProvider.cs:87-93 | the result is empty or comes from one server, the first that stops the scan |
| RedisDatabase.ScanMasters | src/cache/Cnd.Cache.Redis/RedisDatabaseProvider.cs:76-99 | the loop with its breaks computes exactly that list |
| RedisDatabase.RedisDatabaseProvider.constructor | src/cache/Cnd.Cache.Redis/RedisDatabaseProvider.cs:18-23 | no connection is made at construction |
| RedisDatabase.RedisDatabaseProvider.Multiplexer | src/cache/Cnd.Cache.Redis/RedisDatabaseProvider.cs:15-23 | the lazy connection is made on first use, once, and reused afterwards |
| RedisDatabase.RedisDatabaseProvider.GetDatabase | src/cache/Cnd.Cache.Redis/RedisDatabaseProvider.cs:25-28 | the configured database of the one connection |
| RedisDatabase.RedisDatabaseProvider.GetSubscriber | src/cache/Cnd.Cache.Redis/RedisDatabaseProvider.cs:30-33 | the subscriber of the one connection |
| RedisDatabase.RedisDatabaseProvider.GetMastersServersEndpoints | src/cache/Cnd.Cache.Redis/RedisDatabaseProvider.cs:76-99 | the master endpoints of the connection's topology |
| RedisDatabase.RedisDatabaseProvider.GetServers | src/cache/Cnd.Cache.Redis/RedisDatabaseProvider.cs:35-43 | one server handle per master endpoint, in order, on the one connection |
| RedisDatabase.SharedConnection | src/cache/Cnd.Cache.Redis/RedisDatabaseProvider.cs:22-43 | database, subscriber and servers all come from a single connection |
| Events.Resolve | src/core/Cnd.Core.Common/Events/SubscriberService.cs:21-30 | the consumers registered for the event type, in registration order |
| Events.ResolveMembers | src/core/Cnd.Core.Common/Events/SubscriberService.cs:21-30 | a consumer is resolved exactly when it is registered for that type |
| Events.ResolveNone | src/core/Cnd.Core.Common/Events/SubscriberService.cs:21-30 | with nothing registered for the type, no consumer |
| Events.WithOrder | src/core/Cnd.Core.Common/Events/EventPublisher.cs:23 | the consumers of one Order, in list order: never more than the list |
| Events.InsertByOrder | src/core/Cnd.Core.Common/Events/EventPublisher.cs:23 | one insertion step of the stable OrderBy, one consumer longer |
| Events.SortByOrder | src/core/Cnd.Core.Common/Events/EventPublisher.cs:23 | OrderBy(c => c.Order) keeps the number of consumers; its order and permutation are the lemmas below |
| Events.InsertByOrderCorrect | src/core/Cnd.Core.Common/Events/EventPublisher.cs:23 | inserting by Order adds the one consumer and keeps a sorted list sorted |
| Events.InsertByOrderPermutes | src/core/Cnd.Core.Common/Events/EventPublisher.cs:23 | insertion adds exactly one consumer |
| Events.InsertByOrderSorted | src/core/Cnd.Core.Common/Events/EventPublisher.cs:23 | insertion keeps ascending Order |
| Events.SortByOrderCorrect | src/core/Cnd.Core.Common/Events/EventPublisher.cs:23 | OrderBy is a permutation sorted by ascending Order |
| Events.WithOrderConcat | src/core/Cnd.Core.Common/Events/EventPublisher.cs:23 | the consumers of one Order in a concatenation are those of each part |
| Events.InsertKeepsTies | src/core/Cnd.Core.Common/Events/EventPublisher.cs:23 | an inserted consumer follows the consumers of equal Order |
| Events.SortIsStable | src/core/Cnd.Core.Common/Events/EventPublisher.cs:23 | OrderBy is stable: consumers of equal Order keep registration order |
| Events.Invocations | src/core/Cnd.Core.Common/Events/EventPublisher.cs:23-26 | one handler call per consumer, in order, each with the message |
| Events.InvocationsSnoc | src/core/Cnd.Core.Common/Events/EventPublisher.cs:23-26 | one more consumer adds its one call at the end |
| Events.SubscriberService.constructor | src/core/Cnd.Core.Common/Events/SubscriberService.cs:11-14 | the service over the registrations of the service provider |
| Events.SubscriberService.GetSubscribers | src/core/Cnd.Core.Common/Events/SubscriberService.cs:15-31 | the loop collects exactly the resolved consumers |
| Events.EventPublisher.constructor | src/core/Cnd.Core.Common/Events/EventPublisher.cs:13-17 | the publisher over the subscriber service |
| Events.EventPublisher.PublishAsync | src/core/Cnd.Core.Common/Events/EventPublisher.cs:19-27 | completes exactly when no handler throws, having called every consumer in Order; otherwise rethrows the first failure after calling the consumers up to it |
| Events.EventPublisher.PublishToConsumerAsync | src/core/Cnd.Core.Common/Events/EventPublisher.cs:29-40 | calls the handler once and rethrows exactly its exception |
| Events.PublishWithoutConsumers | src/core/Cnd.Core.Common/Events/EventPublisher.cs:19-27 | with no consumer for the type nothing is called and publishing completes |
| Events.ResolveTwo | src/core/Cnd.Core.Common/Events/SubscriberService.cs:21-30 | two registrations of the type resolve to both, in order |
| Events.SortTwo | src/core/Cnd.Core.Common/Events/EventPublisher.cs:23 | two consumers sorted: the lower Order first, ties kept |
| Events.PlaygroundDispatchOrder | sandbox/mvc/Cnd.Sandbox.Mvc.Playground/Startup.cs:30-33 | in either registration order, ProfileUpdatedConsumer (Order 1) precedes RandomConsumer (Order 2) |
| Events.PlaygroundInvocations | sandbox/mvc/Cnd.Sandbox.Mvc.Playground/Events/ProfileUpdated.cs:10-37 | neither playground consumer fails and both are called, Order 1 first |
| Events.ProfileUpdatedScenario | sandbox/mvc/Cnd.Sandbox.Mvc.Playground/Events/ProfileUpdated.cs:12-24 | publishing a profile update calls the two consumers in Order and completes |
| Guard.That | src/core/Cnd.Core.Common/Guard/Ensure.cs:12-15 | a validation of exactly that name and value |
| Guard.NotNull | src/core/Cnd.Core.Common/Guard/Ensure.cs:18-39 | passes exactly a non-null value, else ArgumentNullException(name) |
| Guard.NotNullEnumerable | src/core/Cnd.Core.Common/Guard/Ensure.cs:87-95 | passes exactly a non-null sequence, else ArgumentException(name) |
| Guard.NotNullOrEmpty | src/core/Cnd.Core.Common/Guard/Ensure.cs:42-50 | passes exactly a non-empty string, else ArgumentNullException(name) |
| Guard.NotEmptyString | src/core/Cnd.Core.Common/Guard/Ensure.cs:53-61 | passes a non-empty string; null throws NullReferenceException and empty ArgumentException(name) |
| Guard.NotEmptyCollection | src/core/Cnd.Core.Common/Guard/Ensure.cs:64-73 | passes a non-empty collection; null throws NullReferenceException and empty ArgumentException(name) |
| Guard.NotEmptyEnumerable | src/core/Cnd.Core.Common/Guard/Ensure.cs:76-84 | passes a non-empty sequence; null throws ArgumentNullException("source") and empty ArgumentException(name) |
| Guard.NotEmptyDictionary | src/core/Cnd.Core.Common/Guard/Ensure.cs:98-106 | passes a non-empty dictionary; null throws NullReferenceException and empty ArgumentException(name) |
| Guard.NotZero | src/core/Cnd.Core.Common/Guard/Ensure.cs:120-129 | rejects exactly zero |
| Guard.NotNegative | src/core/Cnd.Core.Common/Guard/Ensure.cs:132-141 | rejects exactly the negatives |
| Guard.CompareTo | src/core/Cnd.Core.Common/Guard/Ensure.cs:123 | the sign of the comparison of two integers |
| Guard.Positive | src/core/Cnd.Core.Common/Guard/Ensure.cs:144-153 | passes exactly the values above zero |
| Guard.NotDefault | src/core/Cnd.Core.Common/Guard/Ensure.cs:156-164 | rejects exactly the default value, naming the parameter |
| Guard.OneOf | src/core/Cnd.Core.Common/Guard/Ensure.cs:167-177 | passes exactly a member of the values; a null array throws ArgumentNullException("array") |
| Guard.GreaterThan | src/core/Cnd.Core.Common/Guard/Ensure.cs:180-190 | passes exactly the values above the bound, else ArgumentOutOfRangeException(name) |
| Guard.GreaterThanOrEqualTo | src/core/Cnd.Core.Common/Guard/Ensure.cs:193-203 | passes exactly the values at or above the bound |
| Guard.LessThan | src/core/Cnd.Core.Common/Guard/Ensure.cs:206-216 | passes exactly the values below the bound |
| Guard.LessThanOrEqualTo | src/core/Cnd.Core.Common/Guard/Ensure.cs:219-229 | passes exactly the values at or below the bound |
| Guard.EqualTo | src/core/Cnd.Core.Common/Guard/Ensure.cs:232-241 | a null reference throws NullReferenceException; otherwise, a null Nullable<U> included, it passes exactly a value equal to the other, else ArgumentException(name) |
| Guard.NotEqualTo | src/core/Cnd.Core.Common/Guard/Ensure.cs:244-252 | a null reference throws NullReferenceException; otherwise, a null Nullable<U> included, it passes exactly a value different from the other, else ArgumentException(name) |
| Guard.InRange | src/core/Cnd.Core.Common/Guard/Ensure.cs:255-266 | throws exactly outside the inclusive range |
| Guard.PositiveIsNotNegativeAndNotZero | src/core/Cnd.Core.Common/Guard/Ensure.cs:120-153 | Positive passes exactly when NotNegative and NotZero both pass |
| Guard.ComparisonsRelate | src/core/Cnd.Core.Common/Guard/Ensure.cs:180-229 | each strict comparison is the complement of the opposite non-strict one and implies its own non-strict one; both non-strict pass only at the bound |
| Guard.InRangeIsBothBounds | src/core/Cnd.Core.Common/Guard/Ensure.cs:255-266 | InRange is GreaterThanOrEqualTo the lower and LessThanOrEqualTo the upper; an empty range rejects everything |
| Guard.EqualToComplementsNotEqualTo | src/core/Cnd.Core.Common/Guard/Ensure.cs:232-252 | for a non-null value or any Nullable<U> exactly one of the two passes and the other throws ArgumentException(name); for a null reference both throw NullReferenceException |
| Guard.NullNullableStruct | src/core/Cnd.Core.Common/Guard/Ensure.cs:232-252 | for a null int?: EqualTo(null) passes, NotEqualTo(null) throws ArgumentException("p"), EqualTo(3) throws and NotEqualTo(3) passes |
| Guard.OneOfNothingThrows | src/core/Cnd.Core.Common/Guard/Ensure.cs:167-177 | no value is one of no values |
| Guard.StringGuardsAgree | src/core/Cnd.Core.Common/Guard/Ensure.cs:42-61 | the two string guards pass the same strings but throw different exceptions for the empty one |
| Guard.ChainReturnsInput | src/core/Cnd.Core.Common/Guard/Ensure.cs:144-153 | a passing guard hands the same validation to the next guard |
| EnumerableExtensions.FirstFailure | src/core/Cnd.Core.Common/Extensions/EnumerableExtensions.cs:20-23 | the index of the first element whose action throws, all before it completing |
| EnumerableExtensions.ForEach | src/core/Cnd.Core.Common/Extensions/EnumerableExtensions.cs:14-24 | a null action, then a null source, throws; otherwise the action runs on each element in order up to and including the first that throws |
| EnumerableExtensions.IsNullOrEmptyOverloads | src/core/Cnd.Core.Common/Extensions/EnumerableExtensions.cs:26-45 | the enumerable overload is true for null or no elements; the reference overload only for null |
| EnumerableExtensions.AnyContained | src/core/Cnd.Core.Common/Extensions/EnumerableExtensions.cs:48-56 | true exactly when some item is contained; no items gives false even for a null source |
| EnumerableExtensions.ContainsAny | src/core/Cnd.Core.Common/Extensions/EnumerableExtensions.cs:48-56 | null items throw ArgumentNullException("source"); otherwise as AnyContained |
| EnumerableExtensions.ContainsAnyMeansSomeShared | src/core/Cnd.Core.Common/Extensions/EnumerableExtensions.cs:48-56 | for non-null arguments, true exactly when the two share an element |
| EnumerableExtensions.Pieces | src/core/Cnd.Core.Common/Extensions/EnumerableExtensions.cs:81-92 | each value is rendered, and a default value contributes nothing |
| EnumerableExtensions.Rendered | src/core/Cnd.Core.Common/Extensions/EnumerableExtensions.cs:155 | each value rendered as Append renders it |
| EnumerableExtensions.Join | src/core/Cnd.Core.Common/Extensions/EnumerableExtensions.cs:63-97 | null throws; otherwise the pieces with the separator between consecutive ones |
| EnumerableExtensions.JoinWithComma | src/core/Cnd.Core.Common/Extensions/EnumerableExtensions.cs:58-61 | Join with "," |
| EnumerableExtensions.JoinSeparators | src/core/Cnd.Core.Common/Extensions/EnumerableExtensions.cs:86-93 | with a separator no piece contains, n values give n - 1 separators and splitting gives the pieces back |
| EnumerableExtensions.JoinDefaults | src/core/Cnd.Core.Common/Extensions/EnumerableExtensions.cs:81-92 | n default values join to n - 1 separators and nothing else |
| EnumerableExtensions.ToString | src/core/Cnd.Core.Common/Extensions/EnumerableExtensions.cs:143-160 | null throws NullReferenceException; otherwise every rendered value with the separator between consecutive ones |
| EnumerableExtensions.ToStringBetweenOnly | src/core/Cnd.Core.Common/Extensions/EnumerableExtensions.cs:150-156 | the text starts with the first value and ends with the last: no leading or trailing separator |
| EnumerableExtensions.JoinIsToStringWithoutDefaults | src/core/Cnd.Core.Common/Extensions/EnumerableExtensions.cs:63-97 | without default values Join and ToString give the same text |
| EnumerableExtensions.ChunksFlatten | src/core/Cnd.Core.Common/Extensions/EnumerableExtensions.cs:131-135 | the chunks concatenate back to the source |
| EnumerableExtensions.ChunksWellChunked | src/core/Cnd.Core.Common/Extensions/EnumerableExtensions.cs:131-135 | every chunk is non-empty, all but the last have exactly the chunk size, and an empty source has no chunks |
| EnumerableExtensions.Partition | src/core/Cnd.Core.Common/Extensions/EnumerableExtensions.cs:126-136 | a chunk size of 1 or less throws first, then a null source; otherwise the chunks |
| EnumerableExtensions.Push | src/core/Cnd.Core.Common/Extensions/EnumerableExtensions.cs:109 | pushing puts the element on top and keeps the rest |
| EnumerableExtensions.Reverse | src/core/Cnd.Core.Common/Extensions/EnumerableExtensions.cs:107 | the elements in reverse order |
| EnumerableExtensions.ReverseReverse | src/core/Cnd.Core.Common/Extensions/EnumerableExtensions.cs:107 | reversing twice gives the source |
| EnumerableExtensions.PopAllReverses | src/core/Cnd.Core.Common/Extensions/EnumerableExtensions.cs:104-113 | popping a stack empty yields its pushes in reverse |
| EnumerableExtensions.ToStack | src/core/Cnd.Core.Common/Extensions/EnumerableExtensions.cs:104-113 | null throws; otherwise the stack holds the source pushed in reverse |
| EnumerableExtensions.ToStackPopsInSourceOrder | src/core/Cnd.Core.Common/Extensions/EnumerableExtensions.cs:104-113 | popping that stack gives the source in its own order, the first element on top |
| EnumerableExtensions.Enqueue | src/core/Cnd.Core.Common/Extensions/EnumerableExtensions.cs:120 | enqueueing puts the element at the back and keeps the rest |
| EnumerableExtensions.DequeueAllInOrder | src/core/Cnd.Core.Common/Extensions/EnumerableExtensions.cs:115-124 | dequeueing yields the elements in enqueue order |
| EnumerableExtensions.ToQueue | src/core/Cnd.Core.Common/Extensions/EnumerableExtensions.cs:115-124 | null throws NullReferenceException; otherwise dequeueing gives the source in order |
| StringExtensions.IsEmpty | src/core/Cnd.Core.Common/Extensions/StringExtensions.cs:20-23 | null throws NullReferenceException; otherwise true exactly for the empty string |
| StringExtensions.IsEmptyAndIsNullOrEmpty | src/core/Cnd.Core.Common/Extensions/StringExtensions.cs:20-48 | on non-null text IsEmpty and IsNullOrEmpty agree; IsNullOrEmpty holds exactly for null and "" |
| StringExtensions.SafeParse | src/core/Cnd.Core.Common/Extensions/StringExtensions.cs:57-70 | null or empty throws ArgumentNullException; otherwise the parsed number, or the default when parsing fails |
| StringExtensions.SafeIntParse | src/core/Cnd.Core.Common/Extensions/StringExtensions.cs:57-70 | as SafeParse with 0 as the default |
| StringExtensions.SafeLongParse | src/core/Cnd.Core.Common/Extensions/StringExtensions.cs:147-160 | as SafeParse with 0 as the default |
| StringExtensions.SafeBoolParse | src/core/Cnd.Core.Common/Extensions/StringExtensions.cs:169-182 | true exactly when the text parses as true; null or empty throws |
| StringExtensions.SafeIntParseReadsDecimal | src/core/Cnd.Core.Common/Extensions/StringExtensions.cs:57-70 | with a decimal parser, SafeIntParse reads back the decimal text of any Int32 value that is not negative |
| StringExtensions.Quoted | src/core/Cnd.Core.Common/Extensions/StringExtensions.cs:198 | the text between two single quotes, null as the empty text |
| StringExtensions.Quote | src/core/Cnd.Core.Common/Extensions/StringExtensions.cs:189-200 | null gives nothing; otherwise one quoted string per input, and unquoting gives the input's text back |
| StringExtensions.Texts | src/core/Cnd.Core.Common/Extensions/StringExtensions.cs:212 | each string as Append writes it, null as empty |
| StringExtensions.TerminatedIsInterleaved | src/core/Cnd.Core.Common/Extensions/StringExtensions.cs:209-215 | appending the separator after every part is the separated text plus one separator |
| StringExtensions.JoinWith | src/core/Cnd.Core.Common/Extensions/StringExtensions.cs:202-216 | null or empty throws ArgumentException; otherwise the texts with the prefix character between consecutive ones and none at the end |
| StringExtensions.JoinWithLengthAndSplit | src/core/Cnd.Core.Common/Extensions/StringExtensions.cs:202-216 | the joined length is the texts' length plus one per gap; with a prefix no text contains, splitting gives the texts back |
| StringExtensions.CodeUnits | src/core/Cnd.Core.Common/Extensions/StringExtensions.cs:225 | the UTF-16 code units of the text: one per basic-plane character, at most two per character |
| StringExtensions.GetBytes | src/core/Cnd.Core.Common/Extensions/StringExtensions.cs:223-228 | null throws NullReferenceException; otherwise two bytes per code unit |
| StringExtensions.UnitsOf | src/core/Cnd.Core.Common/Extensions/StringExtensions.cs:226 | bytes read back two at a time as code units |
| StringExtensions.GetBytesRoundTrip | src/core/Cnd.Core.Common/Extensions/StringExtensions.cs:223-228 | reading the bytes back gives the string's code units |
| StringExtensions.FromMf | src/core/Cnd.Core.Common/Extensions/StringExtensions.cs:234-246 | null or empty gives "01/01/1900"; otherwise the reformatted date |
| StringExtensions.ToMf | src/core/Cnd.Core.Common/Extensions/StringExtensions.cs:252-264 | null or empty gives "1900-01-01"; otherwise the reformatted date |
| Text.Occurrences | src/core/Cnd.Core.Common/Extensions/StringExtensions.cs:209-215 | counts a character: zero exactly when it is absent |
| Text.Split | src/core/Cnd.Core.Common/Extensions/StringExtensions.cs:209-215 | the runs between separators, one more than there are separators |
| Text.InterleaveSnoc | src/core/Cnd.Core.Common/Extensions/EnumerableExtensions.cs:86-93 | one more part adds a separator and the part at the end |
| Text.TotalLengthSnoc | src/core/Cnd.Core.Common/Extensions/EnumerableExtensions.cs:86-93 | one more part adds its length |
| Text.InterleaveLength | src/core/Cnd.Core.Common/Extensions/EnumerableExtensions.cs:86-93 | the joined length is the parts' length plus n - 1 separators |
| Text.OccurrencesConcat | src/core/Cnd.Core.Common/Extensions/StringExtensions.cs:209-215 | counts add over concatenation |
| Text.InterleaveSeparators | src/core/Cnd.Core.Common/Extensions/StringExtensions.cs:209-215 | with a separator no part contains, the text holds exactly n - 1 separators |
| Text.SplitFreePrefix | src/core/Cnd.Core.Common/Extensions/StringExtensions.cs:209-215 | a prefix without the separator extends the first run |
| Text.SplitInterleave | src/core/Cnd.Core.Common/Extensions/StringExtensions.cs:209-215 | splitting the joined text on a separator no part contains gives the parts back |
| Text.InterleaveStartsWithFirst | src/core/Cnd.Core.Common/Extensions/EnumerableExtensions.cs:150-156 | the joined text starts with the first part |
| Text.InterleaveEndsWithLast | src/core/Cnd.Core.Common/Extensions/EnumerableExtensions.cs:150-156 | the joined text ends with the last part |
| DatetimeExtensions.Classify | src/core/Cnd.Core.Common/Extensions/DatetimeExtensions.cs:9-68 | as written: " today" under a day, yesterday or tomorrow under two, days under 30 days, months under 12 months, years beyond, with the direction of a positive span as past; the counts are stated by DaysCount, MonthsCount and YearsCount |
| DatetimeExtensions.PhraseDirection | src/core/Cnd.Core.Common/Extensions/DatetimeExtensions.cs:29-65 | a phrase with a count ends in " ago" for the past and " later" for the future |
| DatetimeExtensions.ToRelativeTime | src/core/Cnd.Core.Common/Extensions/DatetimeExtensions.cs:9-68 | as written: " today" under a day; "yesterday" or "tomorrow" under two days; beyond, a phrase ending " ago" exactly for a positive span and " later" otherwise |
| DatetimeExtensions.ToRelativeTimeIntended | src/core/Cnd.Core.Common/Extensions/DatetimeExtensions.cs:9-68 | corrected: the same wording by band and direction, with the counts of ClassifyIntended |
| DatetimeExtensions.WholeDays | src/core/Cnd.Core.Common/Extensions/DatetimeExtensions.cs:29 | TimeSpan.Days: whole days truncated toward zero, with the span's sign |
| DatetimeExtensions.TodayBothWays | src/core/Cnd.Core.Common/Extensions/DatetimeExtensions.cs:20-48 | within a day either way the phrase is " today" |
| DatetimeExtensions.YesterdayOrTomorrow | src/core/Cnd.Core.Common/Extensions/DatetimeExtensions.cs:25-50 | from one to two days away the phrase is "yesterday" in the past and "tomorrow" otherwise |
| DatetimeExtensions.DaysCount | src/core/Cnd.Core.Common/Extensions/DatetimeExtensions.cs:28-53 | from two to thirty days the phrase gives the whole days, 2 to 29 |
| DatetimeExtensions.MonthsCount | src/core/Cnd.Core.Common/Extensions/DatetimeExtensions.cs:31-60 | past months are n / 30 for n whole days, future months n / 30 rounded up |
| DatetimeExtensions.YearsCount | src/core/Cnd.Core.Common/Extensions/DatetimeExtensions.cs:37-66 | past years are n / 365, future years n / 365 rounded up |
| DatetimeExtensions.FloorOfNegativeMonths | src/core/Cnd.Core.Common/Extensions/DatetimeExtensions.cs:57 | the floor of -n / 30 is minus n / 30 rounded up |
| DatetimeExtensions.FloorOfNegativeYears | src/core/Cnd.Core.Common/Extensions/DatetimeExtensions.cs:63 | the floor of -n / 365 is minus n / 365 rounded up |
| DatetimeExtensions.ClassifyIntended | src/core/Cnd.Core.Common/Extensions/DatetimeExtensions.cs:9-68 | corrected: the same bands as Classify; n whole days of span give n days, n / 30 months or n / 365 years in either direction, the direction being past exactly for a positive span |
| DatetimeExtensions.IntendedAgreesWithAsWritten | src/core/Cnd.Core.Common/Extensions/DatetimeExtensions.cs:20-53 | the corrected and the written choices agree for the past and for anything under thirty days |
| DatetimeExtensions.IntendedIsSymmetric | src/core/Cnd.Core.Common/Extensions/DatetimeExtensions.cs:20-67 | corrected: an instant d ahead gets the same count as one d behind |
| DatetimeExtensions.FutureMonthOvercounted | src/core/Cnd.Core.Common/Extensions/DatetimeExtensions.cs:55-60 | 31 days back is one month, but 31 days ahead is two months as written and one month corrected |
| DatetimeExtensions.FutureMonthPhrases | src/core/Cnd.Core.Common/Extensions/DatetimeExtensions.cs:35-59 | those choices read "one month ago", "2 months later" and "one month later" |
| Runtime.ToInt32 | src/cache/Cnd.Cache.Redis/RedisCacheProvider.cs:358 | the unchecked (int) cast: congruent modulo 2^32 and the identity on the Int32 range |
| Runtime.ToInt64 | src/core/Cnd.Core.Common/Random/SecureRandomProvider.cs:130-132 | the unchecked (long) cast: congruent modulo 2^64 and the identity on the Int64 range |
| Runtime.NatToStringRoundTrip | src/core/Cnd.Core.Common/Extensions/DatetimeExtensions.cs:29 | the decimal text of a count reads back as that count |
| Runtime.NatToStringInjective | src/core/Cnd.Core.Common/Extensions/DatetimeExtensions.cs:29 | different counts have different texts |
| SecureRandom.LittleEndian | src/core/Cnd.Core.Common/Random/SecureRandomProvider.cs:83 | BitConverter's little-endian value of n bytes lies below 256^n |
| SecureRandom.LittleEndianOfBytes | src/core/Cnd.Core.Common/Random/SecureRandomProvider.cs:83 | the value of the bytes of x is x |
| SecureRandom.LittleEndianParity | src/core/Cnd.Core.Common/Random/SecureRandomProvider.cs:74-75 | the word's parity is the first byte's parity |
| SecureRandom.ReadUnsigned | src/core/Cnd.Core.Common/Random/SecureRandomProvider.cs:229 | ToUInt32/ToUInt64 succeed exactly when the bytes are in range; a bad start throws ArgumentOutOfRangeException("startIndex"), a short tail ArgumentException("value") |
| SecureRandom.SignFold32 | src/core/Cnd.Core.Common/Random/SecureRandomProvider.cs:87 | values below 2^31 are kept, larger ones negated; the result is negative only for 0x80000000; parity is kept |
| SecureRandom.SignFold64 | src/core/Cnd.Core.Common/Random/SecureRandomProvider.cs:130-132 | the same fold on 64 bits |
| SecureRandom.Ranged32 | src/core/Cnd.Core.Common/Random/SecureRandomProvider.cs:99-116 | for a maximum up to 2^31 the result lies in [minimum, maximum); above it, the result is non-negative or int.MinValue |
| SecureRandom.Ranged64 | src/core/Cnd.Core.Common/Random/SecureRandomProvider.cs:144-160 | for a maximum up to 2^63 the result lies in [minimum, maximum) |
| SecureRandom.Distinct | src/core/Cnd.Core.Common/Random/SecureRandomProvider.cs:202 | Distinct keeps every character, once each |
| SecureRandom.Chosen | src/core/Cnd.Core.Common/Random/SecureRandomProvider.cs:210-211 | the characters drawn from are the given ones, deduplicated or not |
| SecureRandom.CheckCharacters | src/core/Cnd.Core.Common/Random/SecureRandomProvider.cs:200-216 | the checks in source order: null, at most one distinct character, zero length, then 256 not divisible by the count; success gives 2 to 256 characters |
| SecureRandom.UnsignedLength | src/core/Cnd.Core.Common/Random/SecureRandomProvider.cs:179-182 | the negated length, with int.MinValue cast to 2^31 |
| SecureRandom.DistinctOfDistinct | src/core/Cnd.Core.Common/Random/SecureRandomProvider.cs:202 | Distinct leaves a sequence of pairwise different characters as it is |
| SecureRandom.CharsetDistinct | src/core/Cnd.Core.Common/Random/SecureRandomProvider.cs:22 | STRING_CHARSET holds 64 pairwise different characters |
| SecureRandom.CharsetPasses | src/core/Cnd.Core.Common/Random/SecureRandomProvider.cs:171-175 | for a non-zero length STRING_CHARSET passes every check and is drawn from as it is |
| SecureRandom.DistinctHasTwo | src/core/Cnd.Core.Common/Random/SecureRandomProvider.cs:204 | two different characters pass the distinctness check |
| SecureRandom.CountResidueBlock | src/core/Cnd.Core.Common/Random/SecureRandomProvider.cs:215-216 | the first m values after q·size add one hit to residue j exactly when j < m |
| SecureRandom.CountResidueMultiple | src/core/Cnd.Core.Common/Random/SecureRandomProvider.cs:215-216 | q·size values hit every residue q times |
| SecureRandom.EvenlyDrawn | src/core/Cnd.Core.Common/Random/SecureRandomProvider.cs:215-216 | when the count divides 256, every character is picked by exactly 256 / count byte values |
| SecureRandom.Fill | src/core/Cnd.Core.Common/Random/SecureRandomProvider.cs:53-60 | a refill writes the next entropy block over the whole buffer |
| SecureRandom.DrawnAsWritten | src/core/Cnd.Core.Common/Random/SecureRandomProvider.cs:228-230 | a drawn character is one of the valid characters |
| SecureRandom.SecureRandomProvider.constructor | src/core/Cnd.Core.Common/Random/SecureRandomProvider.cs:42-51 | a size below 1 becomes 1024; no buffer yet |
| SecureRandom.SecureRandomProvider.Default | src/core/Cnd.Core.Common/Random/SecureRandomProvider.cs:37-40 | a 1024-byte buffer length |
| SecureRandom.SecureRandomProvider.GetBytes | src/core/Cnd.Core.Common/Random/SecureRandomProvider.cs:53-60 | the buffer is overwritten with the next fill and the index is kept |
| SecureRandom.SecureRandomProvider.InitSharedBuffer | src/core/Cnd.Core.Common/Random/SecureRandomProvider.cs:53-60 | a buffer of the configured length, freshly filled, read from index 0 |
| SecureRandom.SecureRandomProvider.RequestBuffer | src/core/Cnd.Core.Common/Random/SecureRandomProvider.cs:62-72 | more than the buffer length throws; otherwise enough bytes remain after refilling exactly when the rest is too short |
| SecureRandom.SecureRandomProvider.GenerateInt | src/core/Cnd.Core.Common/Random/SecureRandomProvider.cs:77-89 | the sign-folded value of the next four buffer bytes, which it consumes |
| SecureRandom.SecureRandomProvider.GenerateBool | src/core/Cnd.Core.Common/Random/SecureRandomProvider.cs:74-75 | true exactly when the first of those bytes is even |
| SecureRandom.SecureRandomProvider.GenerateIntInRange | src/core/Cnd.Core.Common/Random/SecureRandomProvider.cs:91-118 | minimum above maximum, or equal to it, throws without using the buffer; otherwise the ranged value of the next four bytes |
| SecureRandom.SecureRandomProvider.GenerateLong | src/core/Cnd.Core.Common/Random/SecureRandomProvider.cs:120-134 | the sign-folded value of the next eight bytes |
| SecureRandom.SecureRandomProvider.GenerateLongInRange | src/core/Cnd.Core.Common/Random/SecureRandomProvider.cs:136-162 | the same checks, then the ranged value of the next eight bytes |
| SecureRandom.SecureRandomProvider.GenerateStringFrom | src/core/Cnd.Core.Common/Random/SecureRandomProvider.cs:200-239 | as written: the character checks throw first; then the string has the length and valid characters, each drawn from a fresh fill at one fixed index, and it fails exactly when fewer than four bytes lie past that index |
| SecureRandom.SecureRandomProvider.DrawCharacters | src/core/Cnd.Core.Common/Random/SecureRandomProvider.cs:226-231 | the loop refills before every character and reads at the unchanged index |
| SecureRandom.SecureRandomProvider.GenerateStringFromIntended | src/core/Cnd.Core.Common/Random/SecureRandomProvider.cs:224-235 | corrected: the i-th character is picked by the i-th reserved byte, and the string always succeeds once the checks pass |
| SecureRandom.SecureRandomProvider.GenerateStringWith | src/core/Cnd.Core.Common/Random/SecureRandomProvider.cs:241-247 | a negative length is negated, then as GenerateStringFrom |
| SecureRandom.SecureRandomProvider.GenerateStringUnsigned | src/core/Cnd.Core.Common/Random/SecureRandomProvider.cs:171-175 | over STRING_CHARSET: zero length throws ArgumentException("length") without touching the buffer; a length above the buffer throws ArgumentOutOfRangeException; otherwise success exactly when four bytes lie past the start; on success the characters come from the charset |
| SecureRandom.SecureRandomProvider.GenerateString | src/core/Cnd.Core.Common/Random/SecureRandomProvider.cs:177-183 | a negative length is negated; length 0 throws ArgumentException("length") without touching the buffer; a length above the buffer throws ArgumentOutOfRangeException; otherwise success exactly when four bytes lie past the start; on success the string has that length over STRING_CHARSET |
| SecureRandom.ShortRemainderFails | src/core/Cnd.Core.Common/Random/SecureRandomProvider.cs:224-230 | on a 1024-byte buffer, after a 1022-character string a 2-character string throws ArgumentException |
| SecureRandom.ShortRemainderIntended | src/core/Cnd.Core.Common/Random/SecureRandomProvider.cs:224-235 | the corrected version gives both strings |

## Left out

- Concurrency: `lock`, asynchronous tasks (`async`/`await` run to completion in order), the atomicity of `ConcurrentDictionary` and the thread safety of `Lazy<T>`.
- Time: the expiration scan and sliding or absolute expiry in `MemoryCache`, and TTLs counting down in Redis. Expirations are whole seconds, and the TTL is only recorded.
- Logging and the `LoggingEnabled` switches, which change no result.
- Floating point: `GenerateDouble` and `GenerateFloat`, `SafeFloatParse`, `SafeDoubleParse` and `SafeDecimalParse`. In `ToRelativeTime` the double `TotalSeconds` is replaced by exact ticks.
- `int.TryParse`, `long.TryParse`, `bool.TryParse`, `Convert.ToDateTime` and the culture-dependent date formats are oracle parameters, because .NET parsing depends on culture.
- StackExchange.Redis and MemoryCache internals. They are reduced to a key map and a command log, and the serializer to two total functions.
- `GetConnectionString` and `CreateConnectionMultiplexer`: configuration text, `int.Parse` of ports and the network connection. The connection is a given topology.
- `GetServers` is a lazy `yield` enumerable that redoes master discovery each time it is enumerated. The model computes it once.
- `Partition`, `Quote` and `GetServers` are lazy. The model computes their results eagerly.
- `SecureRandomProvider._prng` is static and shared by all instances. Here each provider owns its `entropy` source, and disposal is not modelled.
- `ToReadOnlyCollection`, `ToHashSet`, `StringExtensions.IsNull`, `ToSecureString` and `ISubscriber` passthroughs: library wrappers with no logic of their own.
- A `Join` separator that is null: `StringBuilder.Append(null)` appends nothing, so the model takes the separator as a string.
- RedisCache.RedisCacheProvider.GetCount: the servers' `DatabaseSize` values are a field of their own, not tied to the stored keys. Writes leave them unchanged, so a SET of a new key does not change GetCount; only Flush sets them to zero.
- OldInMemoryCache.OldInMemoryCacheProvider.RemovePattern: `key.StartsWith(pattern)` compares by the current culture in .NET, which ignores some characters such as U+00AD. The model compares ordinally, character by character.
- RedisCache.RedisCacheProvider.SetKeysAsync, RedisCache.RedisCacheProvider.GetKeysAsync and RedisCache.RedisCacheProvider.RemoveKeysAsync take lists of non-null keys. A null key inside the list, which StackExchange.Redis rejects with an ArgumentException, is not expressible.
- InMemoryCache.InMemoryCacheProvider.constructor: a Dafny constructor cannot throw, so it requires options that `InMemoryCache.Construction` accepts. The throw for a negative CacheSize is stated by `Construction`.
- Type tests (`Runtime.HasType`, `Runtime.IsInstanceOf`): a runtime type is a name, and `is T` is exact type identity. An instance of a subclass or of a class implementing interface `T`, for which `is T` holds in C#, fails the test here.
- SecureRandom.Ranged64: states the range only for a maximum up to 2^63. Above that, the sign fold of the 64-bit result is left as computed.
- RedisCache.RedisCacheProvider.Flush: assumes the connection runs in admin mode. StackExchange.Redis refuses FLUSHDB unless `AllowAdmin` is set, and `GetConnectionString` never sets it, so with that configuration Flush would throw at the first master and empty nothing. The model does not capture that refusal.
- RedisCache.RedisCacheProvider.Set, RedisCache.RedisCacheProvider.SetWithExpiration, RedisCache.RedisCacheProvider.SetStringAsync, RedisCache.RedisCacheProvider.SetStringAsyncWithExpiration, RedisCache.RedisCacheProvider.GetOrFactory, RedisCache.RedisCacheProvider.Refresh and RedisCache.RedisCacheProvider.RefreshWithExpiration: a TTL of zero or less is assumed to be accepted and stored. A Redis server rejects such an expiry with "invalid expire time", and StackExchange.Redis then throws; the model does not capture that error.
- The serializer's error on a null text is the Newtonsoft.Json-based one, ArgumentNullException("s"). The System.Text.Json-based serializer would throw ArgumentNullException("json").
- RedisCache.RedisCacheProvider.Refresh: states the new data but not the command log, because the log depends on which nested checks pass.

## Findings

| source | as written | input that shows it | evidently intended | confidence | as-written member | corrected member |
|---|---|---|---|---|---|---|
| src/cache/Cnd.Cache.InMemory/InMemoryCacheProvider.cs:142 | `Flush` cancels the shared token only when cancellation was already requested, so a live token is never cancelled and it just installs a new one | set "firat", call `Flush`, then `Get("firat")` still returns the value | cancel the current token when it has not been cancelled (`!IsCancellationRequested`), so every entry made under it expires | not executed | InMemoryCache.FlushKeepsEntries | InMemoryCache.IntendedFlushExpiresEntries |
| src/cache/Cnd.Cache.InMemory/OldInMemoryCacheProvider.cs:171 | the same inverted guard in the older provider | set "a", call `Flush`: the entry of "a" is still live | the same correction | not executed | OldInMemoryCache.OldInMemoryCacheProvider.Flush | OldInMemoryCache.OldInMemoryCacheProvider.FlushAndExpire |
| src/cache/Cnd.Cache.Redis/RedisCacheProvider.cs:154-163 | in secure mode each result is added twice, once unprotected and once as it is | secure mode, keys "a" and "b" holding v1 and v2: `GetKeysAsync` returns v1, v1, v2, v2 | add the unprotected value in secure mode and the plain one otherwise: one value per key | not executed | RedisCache.SecureGetKeysDuplicates | RedisCache.RedisCacheProvider.GetKeysAsyncIntended |
| src/cache/Cnd.Cache.Redis/RedisCacheProvider.cs:161 | the response loop hands every MGET result to the serializer, a null result for a missing key included, while `Get` checks `IsNull` first | "a" stored, "b" missing: `GetKeysAsync(["a", "b"])` throws ArgumentNullException from the serializer | read a missing key as null, as `Get` does, giving [value of "a", null] | not executed | RedisCache.MissingKeyThrows | RedisCache.MissingKeyIntended |
| src/core/Cnd.Core.Common/Extensions/DatetimeExtensions.cs:55-66 | in the future branch the day count is negative, so `Math.Floor` rounds the months and years away from zero | an instant 31 days ahead reads "2 months later", while 31 days back reads "one month ago" | count months and years from the span's length, as in the past branch, giving "one month later" | not executed | DatetimeExtensions.FutureMonthOvercounted | DatetimeExtensions.IntendedIsSymmetric |
| src/core/Cnd.Core.Common/Random/SecureRandomProvider.cs:224-230 | `GenerateString` reserves `length` bytes but reads four bytes at the unchanged index for every character, after refilling the whole buffer | default 1024-byte buffer: a 1022-character string, then a 2-character one, throws ArgumentException from `ToUInt32` | pick the i-th character with the i-th reserved byte | not executed | SecureRandom.ShortRemainderFails | SecureRandom.ShortRemainderIntended |
