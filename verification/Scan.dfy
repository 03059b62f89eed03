// Scans narrowed by a prefix: the hashes an iterator gets from the prefix tree, set against
// what the cache stores, and against the keys a glob pattern describes.
module Scan {
  import opened Common
  import opened Glob
  import opened RadixSpec
  import opened RadixSearch
  import opened CacheSpec
  import opened Cache

  function Matching(stored: set<Str>, prefix: Str): set<Str> {
    set k | k in stored && IsPrefix(prefix, k)
  }

  // The hashes of distinct stored keys that start with the prefix: all of them, or as many
  // as the limit allows.
  ghost predicate Page(stored: set<Str>, hasher: Str -> Hash, prefix: Str, limit: nat, keys: seq<Str>,
                       hashes: seq<Hash>) {
    && |keys| == |hashes|
    && (forall i, j :: 0 <= i < j < |keys| ==> keys[i] != keys[j])
    && (forall i :: 0 <= i < |keys| ==> keys[i] in Matching(stored, prefix) && hashes[i] == hasher(keys[i]))
    && |hashes| == (if |Matching(stored, prefix)| < limit then |Matching(stored, prefix)| else limit)
  }

  lemma SearchIsPage(t: Trie, hasher: Str -> Hash, prefix: Str, limit: nat, keys: seq<Str>, hashes: seq<Hash>)
    requires Compressed(t) && HashesFrom(t, hasher) && SearchResult(t, prefix, limit, keys, hashes)
    ensures Page(Keys(t), hasher, prefix, limit, keys, hashes)
  {
    hide Lookup, Keys, Compressed;
    forall i | 0 <= i < |keys| ensures keys[i] in Keys(t) && hashes[i] == hasher(keys[i]) {
      KeysAreLookups(t, keys[i]);
    }
    assert Matching(Keys(t), prefix) == MatchingKeys(t, prefix);
  }

  // A page short of its limit misses no key.
  lemma ShortPageIsComplete(stored: set<Str>, hasher: Str -> Hash, prefix: Str, limit: nat, keys: seq<Str>,
                            hashes: seq<Hash>, k: Str)
    requires Page(stored, hasher, prefix, limit, keys, hashes) && |hashes| < limit
    requires k in stored && IsPrefix(prefix, k)
    ensures hasher(k) in hashes
  {
    var all := Matching(stored, prefix);
    assert k in all && |all - {k}| == |all| - 1;
    if k !in keys { DistinctCount(keys, all - {k}); }
    var i :| 0 <= i < |keys| && keys[i] == k;
    assert hashes[i] == hasher(k);
  }

  // fetchPrefixPage's search, for a cache with prefix search enabled.
  method PrefixHashes<V(!new)>(cache: Cache<V>, prefix: Str, limit: int) returns (hashes: seq<Hash>)
    requires cache.Valid() && cache.prefixSearch
    ensures exists keys :: Page(cache.store.contents.Keys, cache.store.hasher, prefix, Limit(limit), keys, hashes)
    ensures var n := |Matching(cache.store.contents.Keys, prefix)|;
      && (limit > 0 ==> |hashes| == if n < limit then n else limit)
      && (limit <= 0 ==> |hashes| == if n < 100 then n else 100)
  {
    hide Cache.Remembers, Page, SearchResult, HashesFrom, Keys;
    cache.tree.InShape();
    hashes := FindByPrefix(cache.tree, prefix, limit);
    assert Matching(cache.store.contents.Keys, prefix) == MatchingKeys(cache.tree.root.model, prefix);
    ghost var keys :| SearchResult(cache.tree.root.model, prefix, Limit(limit), keys, hashes);
    SearchIsPage(cache.tree.root.model, cache.store.hasher, prefix, Limit(limit), keys, hashes);
  }

  // ScanMatch: the pattern's literal prefix narrows the search; without one the store itself
  // is scanned (None).  A page short of its limit has the hash of every stored key the
  // pattern describes.
  method PatternHashes<V(!new)>(cache: Cache<V>, pattern: Str, limit: int) returns (r: Option<seq<Hash>>)
    requires cache.Valid() && cache.prefixSearch && !Parse(pattern).Stuck?
    ensures match CompileResult(pattern)
      case Err(_) => r == Some([])
      case Ok(p) =>
        && (r.None? <==> p.prefix == [])
        && (r.Some? ==>
           exists keys :: Page(cache.store.contents.Keys, cache.store.hasher, p.prefix, Limit(limit), keys, r.value))
        && (r.Some? && |r.value| < (if limit > 0 then limit else 100) ==>
              forall k :: k in cache.store.contents && Describes(pattern, k) ==> cache.store.hasher(k) in r.value)
  {
    hide Cache.Valid, Page, Describes, Parse, ExtractPrefix;
    var compiled := Compile(pattern);
    match compiled {
      case Err(_) => return Some([]);
      case Ok(p) =>
        if p.prefix == [] { return None; }
        var hashes := PrefixHashes(cache, p.prefix, limit);
        ghost var stored, hasher := cache.store.contents.Keys, cache.store.hasher;
        ghost var keys :| Page(stored, hasher, p.prefix, Limit(limit), keys, hashes);
        if |hashes| < Limit(limit) {
          forall k | k in stored && Describes(pattern, k) ensures hasher(k) in hashes {
            PrefixOfDescribed(pattern, k);
            ShortPageIsComplete(stored, hasher, p.prefix, Limit(limit), keys, hashes, k);
          }
        }
        return Some(hashes);
    }
  }
}
