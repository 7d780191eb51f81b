# BettererCache in Dafny

This project models `BettererCache`, the incremental-build cache of betterer
(packages/betterer/src/context/cache.ts). The cache keeps a map from each file's
normalised path, relative to the cache file's directory, to the hash of that file's
content. It has three operations:

- `checkCache` takes a list of candidate files. It returns the files that are new or
  changed, and it records the fresh hash of every readable file.
- `writeCache` persists the map as JSON.
- `_readCache` loads the persisted map. The read is memoised, so it happens at most once
  per instance.

Files:

- `wrappers.dfy`: `Option` (the source's `null`) and `Result` (a thrown error).
- `collaborators.dfy`: what the cache calls but does not define. The file system is a map
  that `Read` looks up. A write is a recorded `Write(path, text)` effect. `Env` bundles
  `createHash`, the relative-key function and the JSON `stringify`/`parse` pair as
  uninterpreted function values.
- `cache.dfy`: the class `BettererCache`, with the fields `cache`, `cachePath`, `cacheMap`
  and the memoised `reading`. It also holds the pure specification of one reconciliation
  pass: `Changed` is the test on line 51, `Visit` is one file's turn and `Reconcile` is a
  whole pass. `Load` gives the map a call starts from. `CheckCache` and `ReadCache` are
  proved against these functions.
- `cache_properties.dfy`: lemmas about `Reconcile` and the store. They cover what gets
  reported, which keys are written, last-write-wins, change detection, and the store round
  trip.
- `cache_scenarios.dfy`: clients that run whole sessions. They cover a disabled cache, a
  re-run after `writeCache`, a re-run after one file changed, and two calls on one
  instance.

The pure functions in `cache.dfy` have no table row of their own, because the table names
the methods and lemmas that state properties of them:

- `Changed` is the test on line 51.
- `Visit` is one file's turn of `checkCache` (lines 40-55).
- `Reconcile` is a whole pass over the inputs in order (lines 37-57).
- `Memoised` is the `_reading` memo (lines 66-68). It holds the first read of the store
  and never reads again.
- `Load` gives the map a call starts from (lines 69-74).

Notes on the code:

- Line 51 reports a file whose stored value is falsy as well as one whose stored value
  differs. So an empty stored hash counts as changed, and a file whose fresh hash is empty
  is reported on every call.
- Lines 66-68 read the store text once per instance. But when that text is non-empty,
  lines 69-74 parse it again and replace `_cacheMap` on every enabled `checkCache`. A
  second call on the same instance therefore discards the first call's updates.
  `CacheScenarios.RepeatedCheck` shows this.
- At line 74, `JSON.parse` throws on a malformed store and the error leaves `checkCache`.
  The model returns `Failure(MalformedStore(text))` and leaves the map as it was. Because
  the text is memoised, every later call fails the same way.

## Model

| member | source | states |
|---|---|---|
| `Cache.BettererCache.constructor` | packages/betterer/src/context/cache.ts:13-21 | The cache takes `cache` and `cachePath` from the config. It starts with an empty map and with nothing read. |
| `Cache.BettererCache.WriteCache` | packages/betterer/src/context/cache.ts:23-28 | When enabled, the only write puts the serialisation of the current map at `cachePath`. When disabled, nothing is written. The instance's state is unchanged either way. |
| `Cache.BettererCache.ReadCache` | packages/betterer/src/context/cache.ts:62-75 | When disabled, nothing changes. When enabled, the store is read only if it was never read before. The map becomes `Load` of the old map and the memoised text, or the method reports `MalformedStore` and keeps the map. |
| `Cache.BettererCache.CheckCache` | packages/betterer/src/context/cache.ts:30-60 | When disabled, the input comes back unchanged and neither the map nor the memo is touched. When enabled, the memo reads the store at most once, and the load's failure is passed on. Otherwise the result and the new map are those of `Reconcile`, run from the loaded map over the inputs in order. |
| `CacheProperties.ReconcileReportsExactly` | packages/betterer/src/context/cache.ts:39-53 | A path is reported if and only if it is one of the inputs, it is readable, and `Changed` held for its key against the map as it stood at that path's turn. |
| `CacheProperties.ReconcileReportsReadableInputs` | packages/betterer/src/context/cache.ts:37-53 | Every reported path is one of the inputs, and its read returned content. |
| `CacheProperties.ReconcileSkipsUnreadable` | packages/betterer/src/context/cache.ts:40-43 | An unreadable path is never reported. Its key keeps its loaded presence and value unless a readable input has the same key. |
| `CacheProperties.ReconcileFrame` | packages/betterer/src/context/cache.ts:55 | After a pass, the map's keys are the loaded keys plus the keys of the readable inputs. Every other key keeps its loaded value. |
| `CacheProperties.ReconcileLastWriteWins` | packages/betterer/src/context/cache.ts:45-55 | A readable input that no later readable input shares a key with leaves its key mapped to the hash of its own content. |
| `CacheProperties.ReconcileLeavesUpToDate` | packages/betterer/src/context/cache.ts:45-55 | When readable inputs that share a key have equal hashes, every readable input's key ends up holding that input's fresh hash. |
| `CacheProperties.ReconcileReportsAgainstLoaded` | packages/betterer/src/context/cache.ts:50-53 | When distinct readable inputs have distinct keys, a path is reported if and only if it is a readable input and `Changed` holds for its key against the loaded map. This does not depend on the order of the inputs. |
| `CacheProperties.ReconcileFirstRun` | packages/betterer/src/context/cache.ts:50-53 | With none of the readable keys stored and with distinct keys, the reported paths are exactly the readable inputs. |
| `CacheProperties.ReconcileQuietWhenUpToDate` | packages/betterer/src/context/cache.ts:50-55 | Suppose the map already holds every readable input's non-empty fresh hash. Then nothing is reported and the map does not change. |
| `CacheProperties.ReconcileReadsOnlyInputs` | packages/betterer/src/context/cache.ts:39-40 | Two file systems that agree on the inputs give the same report and the same map. |
| `CacheProperties.ReconcileDetectsSoleChange` | packages/betterer/src/context/cache.ts:45-55 | Start from a map that is up to date, with distinct keys and non-empty hashes. Give one input content with a different hash. The pass then reports that input once and records its new hash, and nothing else changes. |
| `CacheProperties.StoreRoundTrip` | packages/betterer/src/context/cache.ts:69-74 | With a JSON codec that round-trips, loading the text that `writeCache` stored yields exactly the written map. |
| `CacheScenarios.DisabledCache` | packages/betterer/src/context/cache.ts:23-33 | A disabled cache returns its input, writes nothing, never reads the store and keeps an empty map. |
| `CacheScenarios.RerunAfterWrite` | packages/betterer/src/context/cache.ts:23-75 | Check, write, then check the unmodified files again from a fresh instance. The second run reports nothing, provided that readable inputs sharing a key have equal hashes, every readable input's hash is non-empty, the cache path is not an input, and the codec round-trips. The first run fails exactly when a non-empty store does not parse. |
| `CacheScenarios.RerunAfterOneChange` | packages/betterer/src/context/cache.ts:23-75 | Check and write, then change one input's content so its hash differs. A fresh instance then reports exactly that input. This needs distinct keys for distinct readable inputs, non-empty hashes after the change, a cache path that is not an input, and a codec that round-trips. |
| `CacheScenarios.RepeatedCheck` | packages/betterer/src/context/cache.ts:62-75 | Take two calls on one instance with a non-empty store. The second call starts again from the parsed store and gives the same answer as the first. With a missing or empty store, the first call succeeds and, when readable inputs sharing a key have equal hashes and every readable input's hash is non-empty, the second call reports nothing. |

## Left out

- Concurrency of `Promise.all` (lines 38-57): the model visits the files sequentially, in input order. Each per-file body after `await read` runs without interruption, so the final state equals that of some serial order. The real result array follows the order in which reads complete, and the model does not capture other orders. Two `checkCache` calls that overlap on one instance are not modelled either.
- `Cache.BettererCache.CheckCache`: returns the reported paths in input order, where the source returns them in read-completion order. This makes its result more specific than the source promises.
- `CacheProperties.ReconcileReportsExactly`: describes the run in input order only. When two different paths share a key, which of them is reported can depend on the order, and the source's order is that of read completion. Membership is order-independent only when distinct readable inputs have distinct keys (`CacheProperties.ReconcileReportsAgainstLoaded`).
- `CacheProperties.ReconcileLastWriteWins`: "last" means last in input order. In the source it is the last read to complete, so with shared keys the surviving hash can differ.
- Real file I/O (`../reader`, `../writer`): reading is a lookup in a file-system map, and a missing key stands for `null`. `writeCache` returns the write it would perform instead of performing it, so a failing write is not modelled.
- `createHash` (`../hasher`), `normalisedPath`/`path.relative`/`path.dirname` and `JSON.stringify`/`JSON.parse` are uninterpreted function values. The model does not assume the hash is injective or non-empty. It does not assume the key function is injective either; the lemmas that need distinct keys require them.
- The `as BettererCacheMap` cast: `parse` yields a string-to-string map or fails. JSON whose top level is not an object, or whose values are not strings, is not distinguished. Object prototype keys such as `__proto__` are not modelled.
- packages/betterer/src/config/config.ts (`createConfig`) is not part of this model. The cache reads only `cache` and `cachePath` from the config, and these are given directly.
