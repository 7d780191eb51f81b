/**
 * Properties of one reconciliation pass of `checkCache`, and of the persisted store, stated
 * over the functions that the methods of `BettererCache` are proved against.
 */
module CacheProperties {
  import opened Wrappers
  import opened Collaborators
  import opened Cache

  /** The keys written by a pass over `ps`: those of the readable files. */
  ghost function ReadableKeys(env: Env, cachePath: Path, fs: FileSystem, ps: seq<Path>): set<string>
  {
    set i | 0 <= i < |ps| && Read(fs, ps[i]).Some? :: Key(env, cachePath, ps[i])
  }

  /** The fresh hash of a readable file. */
  function HashOf(env: Env, fs: FileSystem, p: Path): string
    requires Read(fs, p).Some?
  {
    env.createHash(Read(fs, p).value)
  }

  /** No readable file after position `i` of `ps` shares the key of `ps[i]`. */
  ghost predicate LastWithKey(env: Env, cachePath: Path, fs: FileSystem, ps: seq<Path>, i: int)
    requires 0 <= i < |ps|
  {
    forall j :: i < j < |ps| && Read(fs, ps[j]).Some? ==> Key(env, cachePath, ps[j]) != Key(env, cachePath, ps[i])
  }

  /** Readable files that share a key have the same hash (true when keys are distinct). */
  ghost predicate KeysConsistent(env: Env, cachePath: Path, fs: FileSystem, ps: seq<Path>)
  {
    forall i, j ::
      (0 <= i < |ps| && 0 <= j < |ps| && Read(fs, ps[i]).Some? && Read(fs, ps[j]).Some? &&
       Key(env, cachePath, ps[i]) == Key(env, cachePath, ps[j])) ==>
      HashOf(env, fs, ps[i]) == HashOf(env, fs, ps[j])
  }

  /** Distinct readable files have distinct keys. */
  ghost predicate KeysDistinct(env: Env, cachePath: Path, fs: FileSystem, ps: seq<Path>)
  {
    forall i, j ::
      (0 <= i < |ps| && 0 <= j < |ps| && Read(fs, ps[i]).Some? && Read(fs, ps[j]).Some? &&
       Key(env, cachePath, ps[i]) == Key(env, cachePath, ps[j])) ==>
      ps[i] == ps[j]
  }

  /** Every readable file in `ps` has a non-empty (truthy) hash. */
  ghost predicate HashesNonEmpty(env: Env, fs: FileSystem, ps: seq<Path>)
  {
    forall i :: 0 <= i < |ps| && Read(fs, ps[i]).Some? ==> HashOf(env, fs, ps[i]) != ""
  }

  /** The map `m` already holds the fresh hash of every readable file in `ps`. */
  ghost predicate UpToDate(env: Env, cachePath: Path, fs: FileSystem, m: CacheMap, ps: seq<Path>)
  {
    forall i :: 0 <= i < |ps| && Read(fs, ps[i]).Some? ==>
      Key(env, cachePath, ps[i]) in m && m[Key(env, cachePath, ps[i])] == HashOf(env, fs, ps[i])
  }

  lemma PrefixOfPrefix(ps: seq<Path>, i: int)
    requires 0 <= i < |ps|
    ensures ps[..|ps| - 1][..i] == ps[..i]
  {
  }

  /** A pass reports a file exactly when it is readable and, at its turn, `Changed` held. */
  lemma {:induction false} ReconcileReportsExactly(env: Env, cachePath: Path, fs: FileSystem, m: CacheMap, ps: seq<Path>)
    ensures forall p :: p in Reconcile(env, cachePath, fs, m, ps).notCached <==>
      exists i :: 0 <= i < |ps| && ps[i] == p && Read(fs, ps[i]).Some? &&
        Changed(Reconcile(env, cachePath, fs, m, ps[..i]).cacheMap, Key(env, cachePath, p), HashOf(env, fs, p))
    decreases |ps|
  {
    if ps != [] {
      var qs, x := ps[..|ps| - 1], ps[|ps| - 1];
      ReconcileReportsExactly(env, cachePath, fs, m, qs);
      assert ps[..|ps| - 1] == qs;
      forall i | 0 <= i < |qs|
        ensures ps[..i] == qs[..i] && ps[i] == qs[i]
      {
        PrefixOfPrefix(ps, i);
      }
    }
  }

  /** Only inputs are reported, and only readable ones: an unreadable file is never reported. */
  lemma {:induction false} ReconcileReportsReadableInputs(env: Env, cachePath: Path, fs: FileSystem, m: CacheMap, ps: seq<Path>)
    ensures forall p :: p in Reconcile(env, cachePath, fs, m, ps).notCached ==> p in ps && Read(fs, p).Some?
  {
    ReconcileReportsExactly(env, cachePath, fs, m, ps);
  }

  /**
   * A pass writes exactly the keys of the readable files: the new map has the old keys plus
   * those, and a key no readable file maps to keeps its value.
   */
  lemma {:induction false} ReconcileFrame(env: Env, cachePath: Path, fs: FileSystem, m: CacheMap, ps: seq<Path>)
    ensures Reconcile(env, cachePath, fs, m, ps).cacheMap.Keys == m.Keys + ReadableKeys(env, cachePath, fs, ps)
    ensures forall k :: k in m && k !in ReadableKeys(env, cachePath, fs, ps) ==>
      Reconcile(env, cachePath, fs, m, ps).cacheMap[k] == m[k]
    decreases |ps|
  {
    if ps != [] {
      var qs, x := ps[..|ps| - 1], ps[|ps| - 1];
      ReconcileFrame(env, cachePath, fs, m, qs);
      assert ps == qs + [x];
      var rk := ReadableKeys(env, cachePath, fs, ps);
      var qk := ReadableKeys(env, cachePath, fs, qs);
      if Read(fs, x).Some? {
        assert rk == qk + {Key(env, cachePath, x)} by {
          forall k | k in rk ensures k in qk + {Key(env, cachePath, x)} {
            var i :| 0 <= i < |ps| && Read(fs, ps[i]).Some? && k == Key(env, cachePath, ps[i]);
            if i < |qs| { assert ps[i] == qs[i]; }
          }
          forall k | k in qk ensures k in rk {
            var i :| 0 <= i < |qs| && Read(fs, qs[i]).Some? && k == Key(env, cachePath, qs[i]);
            assert ps[i] == qs[i];
          }
          assert Key(env, cachePath, ps[|qs|]) in rk;
        }
      } else {
        assert rk == qk by {
          forall k | k in rk ensures k in qk {
            var i :| 0 <= i < |ps| && Read(fs, ps[i]).Some? && k == Key(env, cachePath, ps[i]);
            assert i < |qs| && ps[i] == qs[i];
          }
          forall k | k in qk ensures k in rk {
            var i :| 0 <= i < |qs| && Read(fs, qs[i]).Some? && k == Key(env, cachePath, qs[i]);
            assert ps[i] == qs[i];
          }
        }
      }
    }
  }

  /** Last write wins: a key ends up holding the hash of the last readable file with that key. */
  lemma {:induction false} ReconcileLastWriteWins(env: Env, cachePath: Path, fs: FileSystem, m: CacheMap, ps: seq<Path>, i: int)
    requires 0 <= i < |ps| && Read(fs, ps[i]).Some?
    requires LastWithKey(env, cachePath, fs, ps, i)
    ensures Key(env, cachePath, ps[i]) in Reconcile(env, cachePath, fs, m, ps).cacheMap
    ensures Reconcile(env, cachePath, fs, m, ps).cacheMap[Key(env, cachePath, ps[i])] == HashOf(env, fs, ps[i])
    decreases |ps|
  {
    var qs, x := ps[..|ps| - 1], ps[|ps| - 1];
    if i < |qs| {
      assert qs[i] == ps[i];
      assert LastWithKey(env, cachePath, fs, qs, i) by {
        forall j | i < j < |qs| && Read(fs, qs[j]).Some?
          ensures Key(env, cachePath, qs[j]) != Key(env, cachePath, qs[i])
        {
          assert qs[j] == ps[j];
        }
      }
      ReconcileLastWriteWins(env, cachePath, fs, m, qs, i);
    }
  }

  /** When readable files that share a key agree on the hash, a pass leaves the map up to date. */
  lemma {:induction false} ReconcileLeavesUpToDate(env: Env, cachePath: Path, fs: FileSystem, m: CacheMap, ps: seq<Path>)
    requires KeysConsistent(env, cachePath, fs, ps)
    ensures UpToDate(env, cachePath, fs, Reconcile(env, cachePath, fs, m, ps).cacheMap, ps)
  {
    var m' := Reconcile(env, cachePath, fs, m, ps).cacheMap;
    forall i | 0 <= i < |ps| && Read(fs, ps[i]).Some?
      ensures Key(env, cachePath, ps[i]) in m' && m'[Key(env, cachePath, ps[i])] == HashOf(env, fs, ps[i])
    {
      var last := LastIndexWithKey(env, cachePath, fs, ps, i);
      ReconcileLastWriteWins(env, cachePath, fs, m, ps, last);
    }
  }

  /** The last readable position at or after `i` whose file has the key of `ps[i]`. */
  lemma LastIndexWithKey(env: Env, cachePath: Path, fs: FileSystem, ps: seq<Path>, i: int) returns (last: int)
    requires 0 <= i < |ps| && Read(fs, ps[i]).Some?
    ensures i <= last < |ps| && Read(fs, ps[last]).Some?
    ensures Key(env, cachePath, ps[last]) == Key(env, cachePath, ps[i])
    ensures LastWithKey(env, cachePath, fs, ps, last)
    decreases |ps| - i
  {
    var k := Key(env, cachePath, ps[i]);
    if j :| i < j < |ps| && Read(fs, ps[j]).Some? && Key(env, cachePath, ps[j]) == k {
      last := LastIndexWithKey(env, cachePath, fs, ps, j);
    } else {
      last := i;
    }
  }

  /**
   * An unreadable input is never reported, and its key keeps the value it had after loading
   * unless some readable input has the same key.
   */
  lemma {:induction false} ReconcileSkipsUnreadable(env: Env, cachePath: Path, fs: FileSystem, m: CacheMap, ps: seq<Path>, p: Path)
    requires Read(fs, p).None?
    ensures p !in Reconcile(env, cachePath, fs, m, ps).notCached
    ensures Key(env, cachePath, p) !in ReadableKeys(env, cachePath, fs, ps) ==>
      (Key(env, cachePath, p) in Reconcile(env, cachePath, fs, m, ps).cacheMap <==> Key(env, cachePath, p) in m) &&
      (Key(env, cachePath, p) in m ==> Reconcile(env, cachePath, fs, m, ps).cacheMap[Key(env, cachePath, p)] == m[Key(env, cachePath, p)])
  {
    ReconcileReportsReadableInputs(env, cachePath, fs, m, ps);
    ReconcileFrame(env, cachePath, fs, m, ps);
  }

  /**
   * With no store (none of the readable keys known) and distinct keys, every readable input
   * is reported and nothing else.
   */
  lemma ReconcileFirstRun(env: Env, cachePath: Path, fs: FileSystem, m: CacheMap, ps: seq<Path>)
    requires KeysDistinct(env, cachePath, fs, ps)
    requires forall i :: 0 <= i < |ps| && Read(fs, ps[i]).Some? ==> Key(env, cachePath, ps[i]) !in m
    ensures forall p :: p in Reconcile(env, cachePath, fs, m, ps).notCached <==> p in ps && Read(fs, p).Some?
  {
    ReconcileReportsExactly(env, cachePath, fs, m, ps);
    forall p | p in ps && Read(fs, p).Some?
      ensures p in Reconcile(env, cachePath, fs, m, ps).notCached
    {
      var i := FirstIndex(ps, p);
      var k := Key(env, cachePath, p);
      ReconcileFrame(env, cachePath, fs, m, ps[..i]);
      assert k !in ReadableKeys(env, cachePath, fs, ps[..i]);
      assert Changed(Reconcile(env, cachePath, fs, m, ps[..i]).cacheMap, k, HashOf(env, fs, p));
    }
  }

  /**
   * With distinct keys the order of the inputs does not decide what is reported: a file is
   * reported exactly when it is a readable input and `Changed` holds against the loaded map.
   */
  lemma {:induction false} ReconcileReportsAgainstLoaded(env: Env, cachePath: Path, fs: FileSystem, m: CacheMap, ps: seq<Path>)
    requires KeysDistinct(env, cachePath, fs, ps)
    ensures forall p :: p in Reconcile(env, cachePath, fs, m, ps).notCached <==>
      p in ps && Read(fs, p).Some? && Changed(m, Key(env, cachePath, p), HashOf(env, fs, p))
  {
    ReconcileReportsExactly(env, cachePath, fs, m, ps);
    forall p | p in ps && Read(fs, p).Some?
      ensures p in Reconcile(env, cachePath, fs, m, ps).notCached <==>
        Changed(m, Key(env, cachePath, p), HashOf(env, fs, p))
    {
      var k, h := Key(env, cachePath, p), HashOf(env, fs, p);
      var i := FirstIndex(ps, p);
      ReconcileFrame(env, cachePath, fs, m, ps[..i]);
      assert k !in ReadableKeys(env, cachePath, fs, ps[..i]);
      if !Changed(m, k, h) {
        forall j | 0 <= j < |ps| && ps[j] == p
          ensures !Changed(Reconcile(env, cachePath, fs, m, ps[..j]).cacheMap, k, h)
        {
          if j != i {
            assert i < j;
            assert ps[..j][i] == p;
            var last := LastIndexWithKey(env, cachePath, fs, ps[..j], i);
            ReconcileLastWriteWins(env, cachePath, fs, m, ps[..j], last);
            assert ps[..j][last] == ps[last];
            assert ps[last] == p;
          }
        }
      }
    }
  }

  /** The first position of `p` in `ps`. */
  lemma FirstIndex(ps: seq<Path>, p: Path) returns (i: int)
    requires p in ps
    ensures 0 <= i < |ps| && ps[i] == p && p !in ps[..i]
  {
    i := 0;
    while ps[i] != p
      invariant 0 <= i < |ps| && p !in ps[..i]
      decreases |ps| - i
    {
      assert ps[..i + 1] == ps[..i] + [ps[i]];
      i := i + 1;
    }
  }

  /** A map that already holds every readable input's non-empty hash reports nothing and is not changed. */
  lemma {:induction false} ReconcileQuietWhenUpToDate(env: Env, cachePath: Path, fs: FileSystem, m: CacheMap, ps: seq<Path>)
    requires UpToDate(env, cachePath, fs, m, ps)
    requires HashesNonEmpty(env, fs, ps)
    ensures Reconcile(env, cachePath, fs, m, ps) == Reconciled([], m)
    decreases |ps|
  {
    if ps != [] {
      var qs := ps[..|ps| - 1];
      assert forall i :: 0 <= i < |qs| ==> qs[i] == ps[i];
      ReconcileQuietWhenUpToDate(env, cachePath, fs, m, qs);
    }
  }

  /** A pass reads nothing but its inputs: two file systems that agree on them give the same pass. */
  lemma {:induction false} ReconcileReadsOnlyInputs(env: Env, cachePath: Path, fs: FileSystem, fs': FileSystem, m: CacheMap, ps: seq<Path>)
    requires forall p :: p in ps ==> Read(fs, p) == Read(fs', p)
    ensures Reconcile(env, cachePath, fs, m, ps) == Reconcile(env, cachePath, fs', m, ps)
    decreases |ps|
  {
    if ps != [] {
      var qs := ps[..|ps| - 1];
      assert forall p :: p in qs ==> p in ps;
      assert ps[|ps| - 1] in ps;
      ReconcileReadsOnlyInputs(env, cachePath, fs, fs', m, qs);
    }
  }

  /**
   * Change detection: against a map that is up to date for `fs`, changing the content of the
   * one file `q` to text with a different hash makes the pass report `q` once and nothing else,
   * and record the new hash.
   */
  lemma {:induction false} ReconcileDetectsSoleChange(
    env: Env, cachePath: Path, fs: FileSystem, m: CacheMap, ps: seq<Path>, q: Path, content: string)
    requires Read(fs, q).Some? && env.createHash(content) != HashOf(env, fs, q)
    requires UpToDate(env, cachePath, fs, m, ps)
    requires KeysDistinct(env, cachePath, fs, ps)
    requires HashesNonEmpty(env, fs[q := content], ps)
    ensures Reconcile(env, cachePath, fs[q := content], m, ps) ==
      if q in ps then Reconciled([q], m[Key(env, cachePath, q) := env.createHash(content)])
      else Reconciled([], m)
    decreases |ps|
  {
    if ps != [] {
      var fs' := fs[q := content];
      var qs, x := ps[..|ps| - 1], ps[|ps| - 1];
      assert forall i :: 0 <= i < |qs| ==> qs[i] == ps[i];
      assert ps == qs + [x];
      ReconcileDetectsSoleChange(env, cachePath, fs, m, qs, q, content);
      if x != q && Read(fs, x).Some? && q in ps {
        var j :| 0 <= j < |ps| && ps[j] == q;
        assert Read(fs, ps[j]).Some? && ps[|ps| - 1] != ps[j];
        assert Key(env, cachePath, x) != Key(env, cachePath, q);
      }
    }
  }

  /** What `writeCache` stores is loaded back unchanged by any later instance. */
  lemma StoreRoundTrip(env: Env, m: CacheMap, written: CacheMap)
    requires CodecRoundTrips(env)
    ensures Load(env, m, Some(env.stringify(written))) == Success(written)
  {
  }
}
