/**
 * The collaborators of the cache that live outside packages/betterer/src/context/cache.ts:
 * the file reader and writer, the content hasher, the relative-path key function and the
 * JSON codec of the persisted map. None of them is modelled in detail; each is a value the
 * cache is given.
 */
module Collaborators {
  import opened Wrappers

  type Path = string

  /** `BettererCacheMap`: a normalised relative path mapped to the hash of that file's content. */
  type CacheMap = map<string, string>

  /** The file system as `read` sees it: a path that is not a key cannot be read. */
  type FileSystem = map<Path, string>

  /** `read` from ../reader: the file's text, or `null` (None) when it cannot be read. */
  function Read(fs: FileSystem, p: Path): Option<string>
  {
    if p in fs then Some(fs[p]) else None
  }

  /** A `write(text, path)` call from ../writer, recorded as an effect instead of performed. */
  datatype Write = Write(path: Path, text: string)

  /** The file system after a recorded write: the file at `w.path` now holds `w.text`. */
  function ApplyWrite(fs: FileSystem, w: Write): (r: FileSystem)
    ensures Read(r, w.path) == Some(w.text)
    ensures forall p :: p != w.path ==> Read(r, p) == Read(fs, p)
  {
    fs[w.path := w.text]
  }

  /**
   * The pure collaborators, left uninterpreted:
   *  - createHash: `createHash` from ../hasher (neither injective nor non-empty is assumed);
   *  - relativeKey: `normalisedPath(path.relative(path.dirname(cachePath), filePath))`,
   *    given the cache path and the file path;
   *  - stringify: `JSON.stringify(map, null, '  ')`;
   *  - parse: `JSON.parse(text) as BettererCacheMap`, None where it throws.
   */
  datatype Env = Env(
    createHash: string -> string,
    relativeKey: (Path, Path) -> string,
    stringify: CacheMap -> string,
    parse: string -> Option<CacheMap>)

  /**
   * What JSON promises of the codec: every map serialises to non-empty text (at least `{}`)
   * that parses back to the same map.
   */
  ghost predicate CodecRoundTrips(env: Env)
  {
    forall m: CacheMap {:trigger env.stringify(m)} ::
      env.stringify(m) != "" && env.parse(env.stringify(m)) == Some(m)
  }
}
