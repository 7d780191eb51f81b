/**
 * Clients of `BettererCache` that run whole sessions, and what its contracts let them
 * conclude about them: a disabled cache, a re-run after `writeCache`, a
 * re-run after one file changed, and two `checkCache` calls on one instance.
 */
module CacheScenarios {
  import opened Wrappers
  import opened Collaborators
  import opened Cache
  import opened CacheProperties

  /** The store's text at the cache path is present and truthy, so `_readCache` parses it. */
  predicate StoreNonEmpty(fs: FileSystem, cachePath: Path)
  {
    Read(fs, cachePath).Some? && Read(fs, cachePath).value != ""
  }

  /**
   * With caching off, `checkCache` hands back its input, `writeCache` writes nothing, the
   * store is never read and the map stays empty.
   */
  method DisabledCache(cachePath: Path, env: Env, filePaths: seq<Path>, fs: FileSystem)
    returns (r: Result<seq<Path>, CacheError>, w: Option<Write>, after: CacheMap, reading: StoreRead)
    ensures r == Success(filePaths) && w == None
    ensures after == map[] && reading == Unread
  {
    var c := new BettererCache(Config(false, cachePath), env);
    r := c.CheckCache(filePaths, fs);
    w := c.WriteCache();
    after, reading := c.cacheMap, c.reading;
  }

  /**
   * A run that checks `filePaths` and writes the cache, followed by a fresh instance over the
   * unmodified files: the second run reports nothing. The first run fails only on a
   * non-empty store that does not parse.
   */
  method RerunAfterWrite(config: Config, env: Env, filePaths: seq<Path>, fs: FileSystem)
    returns (first: Result<seq<Path>, CacheError>, second: Result<seq<Path>, CacheError>)
    requires config.cache && CodecRoundTrips(env)
    requires config.cachePath !in filePaths
    requires KeysConsistent(env, config.cachePath, fs, filePaths)
    requires HashesNonEmpty(env, fs, filePaths)
    ensures first.Failure? <==> StoreNonEmpty(fs, config.cachePath) && env.parse(Read(fs, config.cachePath).value).None?
    ensures first.Success? ==> second == Success([])
  {
    var a := new BettererCache(config, env);
    first := a.CheckCache(filePaths, fs);
    var w := a.WriteCache();
    var written := ApplyWrite(fs, w.value);
    var b := new BettererCache(config, env);
    second := b.CheckCache(filePaths, written);
    if first.Success? {
      var m := a.cacheMap;
      StoreRoundTrip(env, map[], m);
      ReconcileLeavesUpToDate(env, config.cachePath, fs, Load(env, map[], Read(fs, config.cachePath)).value, filePaths);
      ReconcileReadsOnlyInputs(env, config.cachePath, fs, written, m, filePaths);
      ReconcileQuietWhenUpToDate(env, config.cachePath, fs, m, filePaths);
    }
  }

  /**
   * A run that checks and writes the cache, then one file `q` gets content with a different
   * hash, then a fresh instance checks the same files: it reports exactly `q`.
   */
  method RerunAfterOneChange(config: Config, env: Env, filePaths: seq<Path>, fs: FileSystem, q: Path, content: string)
    returns (first: Result<seq<Path>, CacheError>, second: Result<seq<Path>, CacheError>)
    requires config.cache && CodecRoundTrips(env)
    requires config.cachePath !in filePaths && q in filePaths
    requires Read(fs, q).Some? && env.createHash(content) != HashOf(env, fs, q)
    requires KeysDistinct(env, config.cachePath, fs, filePaths)
    requires HashesNonEmpty(env, fs[q := content], filePaths)
    ensures first.Success? ==> second == Success([q])
  {
    var a := new BettererCache(config, env);
    first := a.CheckCache(filePaths, fs);
    var w := a.WriteCache();
    var edited := ApplyWrite(fs, w.value)[q := content];
    var b := new BettererCache(config, env);
    second := b.CheckCache(filePaths, edited);
    if first.Success? {
      var m := a.cacheMap;
      StoreRoundTrip(env, map[], m);
      ReconcileLeavesUpToDate(env, config.cachePath, fs, Load(env, map[], Read(fs, config.cachePath)).value, filePaths);
      ReconcileReadsOnlyInputs(env, config.cachePath, fs[q := content], edited, m, filePaths);
      ReconcileDetectsSoleChange(env, config.cachePath, fs, m, filePaths, q, content);
    }
  }

  /**
   * Two `checkCache` calls on one instance over the same files. With a non-empty store, the
   * memoised text is parsed again and replaces the map, so the second call discards the
   * first call's updates and gives the same answer. Without a store, the first call's
   * updates stand and the second call reports nothing.
   */
  method RepeatedCheck(config: Config, env: Env, filePaths: seq<Path>, fs: FileSystem)
    returns (first: Result<seq<Path>, CacheError>, second: Result<seq<Path>, CacheError>)
    requires config.cache
    ensures StoreNonEmpty(fs, config.cachePath) ==> first == second
    ensures (!StoreNonEmpty(fs, config.cachePath) &&
             KeysConsistent(env, config.cachePath, fs, filePaths) && HashesNonEmpty(env, fs, filePaths)) ==>
      first.Success? && second == Success([])
  {
    var c := new BettererCache(config, env);
    first := c.CheckCache(filePaths, fs);
    second := c.CheckCache(filePaths, fs);
    if !StoreNonEmpty(fs, config.cachePath) && KeysConsistent(env, config.cachePath, fs, filePaths) &&
       HashesNonEmpty(env, fs, filePaths) {
      ReconcileLeavesUpToDate(env, config.cachePath, fs, map[], filePaths);
      ReconcileQuietWhenUpToDate(env, config.cachePath, fs, Reconcile(env, config.cachePath, fs, map[], filePaths).cacheMap, filePaths);
    }
  }
}
