# Redis-style response cache of a Next.js demo, modelled in Dafny

The application caches API responses in an in-process stand-in for Redis.
`MockRedis` keeps the stored strings in a `Map`, plus one expiry timer per
key set with `'EX'`. It answers `get`, `set`, `del` and `keys` (a `*`
glob). Two helpers sit on top of it:

- `fetchWithCache` reads through the cache. On a miss it calls a producer,
  stores the JSON text with a time-to-live and returns the value. If anything
  goes wrong, it calls the producer once more.
- `clearCache` deletes every key that matches a pattern.

The posts the application downloads are post-processed before they are
cached. Each post's title and body are replaced by entries of two fixed
15-entry tables, chosen by the post's id.

The project has five modules:

- `Glob` (glob.dfy) says which keys the anchored regular expression built by
  `keys` accepts. It is proved equal to an independent description: the
  strings obtained by filling every `*` with text that contains no line
  terminator.
- `KeyOrder` (keyorder.dfy) covers the iteration order of a JavaScript `Map`
  and what deletion does to it.
- `Redis` (redis.dfy) holds the class `MockRedis` and the helpers
  `FetchWithCache` and `ClearCache`.
  - The class keeps `cache`, `order` (the `Map`'s insertion order), `deadlines`
    (one pending timer per key) and a logical clock `now` in milliseconds.
  - `Fire` is one timer callback, and `AdvanceTo` lets time pass.
  - `Valid()` is the invariant: every timer belongs to a stored key, and
    `order` lists each stored key exactly once.
- `Api` (api.dfy) holds `transformTitle`, `transformBody` and the
  `posts.map` step of `fetchPosts`.
- `Scenarios` (scenarios.dfy) has concrete runs of the store. Each states what
  a caller observes.

## Model

| member | source | states |
|---|---|---|
| `Glob.ExpansionMatches` | lib/redis.ts:50-51 | The expression accepts every string obtained by replacing each `*` of the pattern with text free of line terminators. |
| `Glob.MatchIsExpansion` | lib/redis.ts:50-51 | Every string the expression accepts is such an expansion of the pattern, so the two descriptions agree. |
| `Glob.LiteralMatchesOnlyItself` | lib/redis.ts:50 | Because of the `^` and `$` anchors, a pattern without `*` accepts exactly itself. |
| `Glob.StarMatchesOneLine` | lib/redis.ts:50 | The pattern `*` (regex `^.*$`) accepts exactly the strings that contain no line terminator. |
| `Glob.PrefixStarMatches` | lib/redis.ts:50-51 | For a prefix without `*`, `prefix*` accepts exactly the strings that start with the prefix and continue without a line terminator. |
| `KeyOrder.WithoutMembers` | lib/redis.ts:38 | Deleting keys from the `Map` keeps exactly the keys not deleted. |
| `KeyOrder.WithoutIsSubsequence` | lib/redis.ts:38 | The remaining keys keep their relative iteration order. |
| `KeyOrder.WithoutNoDups` | lib/redis.ts:38 | Deleting never makes a key appear twice. |
| `KeyOrder.WithoutWithout` | lib/redis.ts:36-45 | Deleting one set of keys and then another equals deleting their union. This is why one deletion per loop step composes. |
| `KeyOrder.WithoutAbsent` | lib/redis.ts:37 | Deleting keys that are not present leaves the order unchanged. |
| `Redis.ReadAfterWrite` | lib/redis.ts:9-13 | After `cache.set(key, value)`, `get(key)` answers the value if it is non-empty and null for `""`. Every other key reads as before. |
| `Redis.ReadAfterDelete` | lib/redis.ts:9 | After deleting a set of keys, they read as null and every other key reads as before. |
| `Redis.FilterMatchingMembers` | lib/redis.ts:51 | The filter keeps exactly the keys the pattern matches. |
| `Redis.FilterMatchingOrdered` | lib/redis.ts:51 | The filter keeps the keys in `Map` order, and returns no key twice when the keys have no repetitions. |
| `Redis.PresentBounds` | lib/redis.ts:34-47 | The count `del` returns is at most the number of arguments and at most the number of stored keys. |
| `Redis.CountStep` | lib/redis.ts:37-43 | One more `del` argument adds 1 to the count exactly when that key is stored and not among the arguments already handled. Otherwise the count stays the same. |
| `Redis.PresentDistinct` | lib/redis.ts:34-47 | When the arguments are distinct and all stored, `del` counts every one of them. |
| `Redis.MockRedis.constructor` | lib/redis.ts:4-6 | A new store is empty, has no timers and satisfies the invariant. |
| `Redis.MockRedis.Get` | lib/redis.ts:8-10 | The stored string when it is non-empty. Null when the key is absent or holds `""`. |
| `Redis.MockRedis.Set` | lib/redis.ts:12-32 | Stores the value. A new key goes to the end of the order. With `'EX'` and a non-zero time, the key's timer is replaced by one due at `now + TimerDelay(time*1000)` ms. Otherwise the timers are untouched. Answers `'OK'`, keeps the invariant and leaves no overdue timer. |
| `Redis.MockRedis.Remove` | lib/redis.ts:37-44 | One loop step of `del`: reports whether the key was stored, and removes it, its timer and its place in the order. |
| `Redis.MockRedis.Del` | lib/redis.ts:34-47 | Removes exactly the argument keys and their timers, and nothing else. Keeps the order of the rest. Returns the number of distinct arguments that were stored. |
| `Redis.MockRedis.Keys` | lib/redis.ts:49-52 | Returns exactly the stored keys the pattern matches, each once, in `Map` insertion order. Changes nothing. |
| `Redis.MockRedis.Fire` | lib/redis.ts:23-26 | A due timer deletes its key from both maps and from the order. Nothing else changes. |
| `Redis.MockRedis.AdvanceTo` | lib/redis.ts:23-26 | Moving the clock to `t` runs exactly the timers due by `t`. Afterwards no timer is overdue, and the invariant holds. |
| `Redis.FetchWithCache` | lib/redis.ts:61-88 | Hit: the decoded text, with no producer call and no change to the store. Undecodable text: the producer's first outcome. Miss: while the producer's first call is awaited, the clock moves on and the timers due by then fire. Then its value is stored under the key, with a timer counted from that later clock reading (no timer for TTL 0), and returned. A rejected fetch or unserialisable value: the producer is called again and its second outcome is returned. |
| `Redis.ClearCache` | lib/redis.ts:91-97 | Afterwards no stored key matches the pattern. Exactly the matching keys and their timers are gone. When nothing matches, nothing changes. |
| `Api.PickCases` | lib/api.ts:73 | The entry at JavaScript's truncating `id % n`, or the fallback where that entry is undefined. Non-negative ids give entry `id mod n`. Negative multiples of `n` give entry 0 (the index is `-0`). Other negative ids give the fallback. |
| `Api.PickRange` | lib/api.ts:73 | The answer is always a table entry or the fallback. |
| `Api.TitlesFilled` | lib/api.ts:55-71 | The title table has 15 entries, none of them empty. |
| `Api.BodiesFilled` | lib/api.ts:77-93 | The body table has 15 entries, none of them empty. |
| `Api.TransformTitle` | lib/api.ts:54-74 | Non-negative id: `titles[id % 15]`. Negative multiple of 15: `titles[0]`. Any other negative id: the original title. |
| `Api.TransformBody` | lib/api.ts:76-96 | Non-negative id: `bodies[id % 15]`. Negative multiple of 15: `bodies[0]`. Any other negative id: the original body. |
| `Api.TitleIgnoresText` | lib/api.ts:73 | For a non-negative id, the new title does not depend on the old one. |
| `Api.BodyIgnoresText` | lib/api.ts:95 | For a non-negative id, the new body does not depend on the old one. |
| `Api.TitlePeriodic` | lib/api.ts:55-73 | Non-negative ids 15 apart get the same title. |
| `Api.BodyPeriodic` | lib/api.ts:77-95 | Non-negative ids 15 apart get the same body. |
| `Api.TitleRange` | lib/api.ts:73 | The new title is a table entry or the original title. |
| `Api.BodyRange` | lib/api.ts:95 | The new body is a table entry or the original body. |
| `Api.TransformPosts` | lib/api.ts:25-29 | One post out per post in, same length and order. Each keeps its `id` and `userId`, and gets the transformed title and body. |
| `Api.TransformPostIdempotent` | lib/api.ts:25-29 | Transforming a post twice equals transforming it once. |
| `Api.TransformPostsIdempotent` | lib/api.ts:25-29 | Post-processing a list that was already post-processed changes nothing. |
| `Scenarios.StoreAndRead` | lib/redis.ts:8-13 | A stored string reads back. A stored `""` and an absent key both read as null. |
| `Scenarios.ExpiresAfterTtl` | lib/redis.ts:16-28 | With `'EX'` 300, the key reads back at 299 999 ms and is gone at 300 000 ms. |
| `Scenarios.OverwriteWithExpiryRearms` | lib/redis.ts:16-28 | `set(k, v1, 'EX', 1)` then `set(k, v2, 'EX', 100)`: `v2` survives at 1.5 s and is gone at 100 s. |
| `Scenarios.OverwriteWithoutExpiryKeepsTimer` | lib/redis.ts:13-16 | `set(k, v2)` without `'EX'` leaves the old one-second timer pending. At 1 s that timer deletes `v2`. |
| `Scenarios.DelCountsDistinctStoredKeys` | lib/redis.ts:34-47 | With `a` and `b` stored, `del('a', 'a', 'zz')` returns 1 and leaves only `b`. |
| `Scenarios.ClearByPrefix` | lib/redis.ts:91-97 | `clearCache('posts:*')` removes `posts:1` and `posts:2` and leaves `users:1` readable. |
| `Scenarios.ClearExactKey` | lib/redis.ts:91-97 | `clearCache('posts')` removes the key `posts` that was stored with a TTL. |
| `Scenarios.FetchTwice` | lib/redis.ts:61-88 | Two reads through the cache: the first calls the producer once and stores its value. The second returns the same value without calling the producer, however long the first fetch took. This holds when the codec reads back what it writes. |

## Left out

- Real time. `setTimeout` and `clearTimeout` become deadlines on a logical millisecond clock. `Fire` and `AdvanceTo` run the callbacks that are due. `AdvanceTo` runs all timers due by the new reading at once, in no particular order; each callback touches only its own key. Node's fallback to 1 ms for delays outside 1..2147483647 is modelled.
- Numbers. Ids, `time` and `ttl` are integers. Fractional values, `NaN` and infinities are not modelled, and neither is `time`'s truthiness beyond "non-zero". `fetchWithCache`'s default TTL of 3600 is not modelled: `FetchWithCache` always takes the TTL.
- Asynchrony. Every store operation runs to completion. Interleavings of concurrent callers are not modelled. The only await that lets time pass is the producer call in `fetchWithCache`'s `try`, and there the timers that fall due do fire. The producer call in the `catch` is handed to the caller unawaited, so it changes nothing here.
- JSON. `JSON.stringify` and `JSON.parse` are a `Codec` pair whose encoding or decoding may fail. That they round-trip, and that JSON text is never empty, are hypotheses where needed. `JSON.stringify` returning `undefined` instead of throwing is not modelled; in the source it would store `undefined`.
- The producer. It is `fetcher(n)`, the outcome of its n-th call. Its side effects are not modelled.
- Redis.MockRedis.Keys: requires a pattern whose only special character is `*`. What `new RegExp` does with other metacharacters is not modelled, including the exception for malformed patterns.
- Redis.ClearCache: requires such a pattern too, for the same reason.
- Strings. Keys are modelled as sequences of Unicode characters, not UTF-16 code units. For `.*`, which never matches a line terminator, the two views accept the same keys.
- Store failures. `MockRedis` never throws, so the only failures in `fetchWithCache`'s `try` are the producer's and JSON's. A failing store behind the same interface is not modelled.
- `clearCache` resolves to nothing. The count that `del` returns is dropped, as in the source.
- Overwriting. A `set` without `'EX'`, or with time 0, does not cancel a pending timer for the key. Only the `'EX'` branch with a non-zero time (lib/redis.ts:16-20) clears an earlier timer; `Scenarios.OverwriteWithoutExpiryKeepsTimer` shows the consequence.
- Posts. A post has exactly the four fields `id`, `title`, `body` and `userId`. Other fields that the object spread would copy are not modelled.
- Not modelled:
  - the network fetches in `fetchPosts` and `fetchUsers`;
  - `measureExecutionTime`;
  - the singleton wiring, the cast to `Redis`, and the console logging;
  - the React/Next.js pages, components and route handlers.
