/**
 * `BettererCache` (packages/betterer/src/context/cache.ts): the incremental-build cache that
 * keeps a map from each file's normalised relative path to the hash of its content, tells
 * which candidate files are new or changed, and persists the map on request.
 *
 * The pure functions below specify one reconciliation pass; the class holds the mutable
 * state and its methods are proved against those functions.
 */
module Cache {
  import opened Wrappers
  import opened Collaborators

  /** The two fields of `BettererConfig` the cache reads. */
  datatype Config = Config(cache: bool, cachePath: Path)

  /** `JSON.parse` threw on the stored text, so `checkCache` rejects. */
  datatype CacheError = MalformedStore(text: string)

  /** The memoised `_reading` promise: not started yet, or settled with the store's text or `null`. */
  datatype StoreRead = Unread | Settled(stored: Option<string>)

  /** The key under which a file's hash is kept. */
  function Key(env: Env, cachePath: Path, p: Path): string
  {
    env.relativeKey(cachePath, p)
  }

  /**
   * The test of line 51, `!map[key] || map[key] !== hash`: a file needs reprocessing unless
   * its key holds exactly the new hash and that hash is truthy (non-empty).
   */
  predicate Changed(m: CacheMap, key: string, hash: string)
    ensures Changed(m, key, hash) <==> !(key in m && m[key] == hash && hash != "")
  {
    key !in m || m[key] == "" || m[key] != hash
  }

  /** The paths reported so far and the map as it stands, during one pass of `checkCache`. */
  datatype Reconciled = Reconciled(notCached: seq<Path>, cacheMap: CacheMap)

  /**
   * One file's turn in `checkCache`: an unreadable file is skipped; a readable one is
   * reported when `Changed`, and its key is overwritten with the fresh hash either way.
   */
  function Visit(env: Env, cachePath: Path, fs: FileSystem, s: Reconciled, p: Path): Reconciled
  {
    match Read(fs, p)
    case None => s
    case Some(content) =>
      var hash := env.createHash(content);
      var key := Key(env, cachePath, p);
      Reconciled(if Changed(s.cacheMap, key, hash) then s.notCached + [p] else s.notCached,
                 s.cacheMap[key := hash])
  }

  /** A whole pass over `ps`, one file after the other, starting from the map `m`. */
  function Reconcile(env: Env, cachePath: Path, fs: FileSystem, m: CacheMap, ps: seq<Path>): Reconciled
    decreases |ps|
  {
    if ps == [] then Reconciled([], m)
    else Visit(env, cachePath, fs, Reconcile(env, cachePath, fs, m, ps[..|ps| - 1]), ps[|ps| - 1])
  }

  /**
   * The map `checkCache` starts from once `_readCache` has run with the memoised store text
   * `stored`: the current map when the store is missing or empty, otherwise the parse of
   * the text, or the error `JSON.parse` throws.
   */
  function Load(env: Env, m: CacheMap, stored: Option<string>): (r: Result<CacheMap, CacheError>)
    ensures (stored == None || stored == Some("")) ==> r == Success(m)
    ensures stored.Some? && stored.value != "" ==>
      (r.Success? <==> env.parse(stored.value).Some?) &&
      (r.Success? ==> r.value == env.parse(stored.value).value) &&
      (r.Failure? ==> r.error == MalformedStore(stored.value))
  {
    match stored
    case None => Success(m)
    case Some(text) =>
      if text == "" then Success(m)
      else match env.parse(text)
        case None => Failure(MalformedStore(text))
        case Some(parsed) => Success(parsed)
  }

  /** The store text the memo holds after `_readCache`: the earlier read, or a read of `fs` now. */
  function Memoised(reading: StoreRead, fs: FileSystem, cachePath: Path): StoreRead
  {
    if reading.Unread? then Settled(Read(fs, cachePath)) else reading
  }

  class BettererCache {
    const cache: bool
    const cachePath: Path
    const env: Env
    var cacheMap: CacheMap
    var reading: StoreRead

    /** A new cache takes its settings from `config`; its map is empty and nothing is read yet. */
    constructor (config: Config, env: Env)
      ensures cache == config.cache && cachePath == config.cachePath && this.env == env
      ensures cacheMap == map[] && reading == Unread
    {
      cache := config.cache;
      cachePath := config.cachePath;
      this.env := env;
      cacheMap := map[];
      reading := Unread;
    }

    /**
     * `writeCache`: with caching on, the one write it performs puts the serialisation of
     * the current map at the cache path; with caching off, it writes nothing.
     */
    method WriteCache() returns (w: Option<Write>)
      ensures cache ==> w == Some(Write(cachePath, env.stringify(cacheMap)))
      ensures !cache ==> w == None
    {
      if !cache {
        return None;
      }
      w := Some(Write(cachePath, env.stringify(cacheMap)));
    }

    /**
     * `_readCache`: reads the store at most once per instance, and with a non-empty store
     * replaces the map by that text's parse on every call.
     */
    method ReadCache(fs: FileSystem) returns (err: Option<CacheError>)
      modifies this
      ensures !cache ==> err == None && cacheMap == old(cacheMap) && reading == old(reading)
      ensures cache ==> reading == Memoised(old(reading), fs, cachePath)
      ensures cache ==> match Load(env, old(cacheMap), reading.stored)
        case Success(loaded) => err == None && cacheMap == loaded
        case Failure(e) => err == Some(e) && cacheMap == old(cacheMap)
    {
      if !cache {
        return None;
      }
      if reading.Unread? {
        reading := Settled(Read(fs, cachePath));
      }
      var stored := reading.stored;
      if stored == None || stored.value == "" {
        return None;
      }
      match env.parse(stored.value)
      case None =>
        err := Some(MalformedStore(stored.value));
      case Some(parsed) =>
        cacheMap := parsed;
        err := None;
    }

    /**
     * `checkCache`: with caching off, returns its input and touches nothing. With caching
     * on, loads the store (once per instance, re-parsed every call) and then visits the
     * files in order, as `Reconcile` says.
     */
    method CheckCache(filePaths: seq<Path>, fs: FileSystem) returns (r: Result<seq<Path>, CacheError>)
      modifies this
      ensures !cache ==> r == Success(filePaths) && cacheMap == old(cacheMap) && reading == old(reading)
      ensures cache ==> reading == Memoised(old(reading), fs, cachePath)
      ensures cache ==> match Load(env, old(cacheMap), reading.stored)
        case Failure(e) => r == Failure(e) && cacheMap == old(cacheMap)
        case Success(start) =>
          r == Success(Reconcile(env, cachePath, fs, start, filePaths).notCached) &&
          cacheMap == Reconcile(env, cachePath, fs, start, filePaths).cacheMap
    {
      if !cache {
        return Success(filePaths);
      }
      var err := ReadCache(fs);
      if err.Some? {
        return Failure(err.value);
      }
      ghost var start := cacheMap;
      var notCached: seq<Path> := [];
      var i := 0;
      while i < |filePaths|
        invariant 0 <= i <= |filePaths|
        invariant cache && reading == Memoised(old(reading), fs, cachePath)
        invariant Reconciled(notCached, cacheMap) == Reconcile(env, cachePath, fs, start, filePaths[..i])
      {
        var filePath := filePaths[i];
        assert filePaths[..i + 1][..i] == filePaths[..i];
        var content := Read(fs, filePath);
        if content.Some? {
          var hash := env.createHash(content.value);
          var relativePath := env.relativeKey(cachePath, filePath);
          if relativePath !in cacheMap || cacheMap[relativePath] == "" || cacheMap[relativePath] != hash {
            notCached := notCached + [filePath];
          }
          cacheMap := cacheMap[relativePath := hash];
        }
        i := i + 1;
      }
      assert filePaths[..i] == filePaths;
      r := Success(notCached);
    }
  }
}
