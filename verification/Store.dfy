// The sharded store: entries filed by hash in the maps of a fixed number of shards, with one
// counter for the size of them all.
module Store {
  import opened Common

  // expireAt in nanoseconds since the epoch; 0 for an entry that never expires.
  datatype Entry<V> = Entry(key: Str, value: V, keyHash: Hash, expireAt: int, cost: int)

  predicate Expired<V>(e: Entry<V>, now: int) { e.expireAt > 0 && now > e.expireAt }

  // What a read at `now` finds: expired entries still stored count for nothing.
  function Live<V>(contents: map<Str, Entry<V>>, key: Str, now: int): Option<Entry<V>> {
    if key in contents && !Expired(contents[key], now) then Some(contents[key]) else None
  }

  function Find<V>(contents: map<Str, Entry<V>>, key: Str): Option<Entry<V>> {
    if key in contents then Some(contents[key]) else None
  }

  // The number of entries in all shards together.
  ghost function ShardSizes<V>(shards: seq<map<Str, Entry<V>>>): nat {
    if shards == [] then 0 else ShardSizes(shards[..|shards| - 1]) + |shards[|shards| - 1]|
  }

  lemma {:induction false} OneShardChanged<V>(shards: seq<map<Str, Entry<V>>>, i: nat, m: map<Str, Entry<V>>)
    requires i < |shards|
    ensures ShardSizes(shards[i := m]) == ShardSizes(shards) + |m| - |shards[i]|
  {
    var n := |shards| - 1;
    if i < n {
      OneShardChanged(shards[..n], i, m);
      assert shards[i := m][..n] == shards[..n][i := m];
    } else {
      assert shards[i := m][..n] == shards[..n];
    }
  }

  lemma {:induction false} EmptyShards<V>(shards: seq<map<Str, Entry<V>>>)
    requires forall i :: 0 <= i < |shards| ==> shards[i] == map[]
    ensures ShardSizes(shards) == 0
  {
    if shards != [] { EmptyShards(shards[..|shards| - 1]); }
  }

  lemma PutGrows<V>(m: map<Str, Entry<V>>, key: Str, e: Entry<V>)
    ensures |m[key := e]| == |m| + (if key in m then 0 else 1)
  {
    assert m[key := e].Keys == m.Keys + {key};
  }

  lemma RemoveShrinks<V>(m: map<Str, Entry<V>>, key: Str)
    ensures |m - {key}| == |m| - (if key in m then 1 else 0)
  {
    assert (m - {key}).Keys == m.Keys - {key};
  }

  // keyHash & shardMask: the number of shards is a power of two.
  function ShardOf(keyHash: Hash, n: nat): (i: nat)
    requires n > 0
    ensures i < n
  {
    keyHash % n
  }

  // Every shard is some hash's.
  lemma EveryShardIsUsed(h: Hash, n: nat)
    requires h < n
    ensures ShardOf(h, n) == h
  {
    RemainderIs(h, 0, h, n);
  }

  // An entry filed under its own key and hash, in the shard the hash names.
  ghost predicate Filed<V>(hasher: Str -> Hash, n: nat, i: nat, key: Str, e: Entry<V>)
    requires n > 0
  {
    i == ShardOf(hasher(key), n) && e.key == key && e.keyHash == hasher(key)
  }

  // The shards hold these contents, every entry in its own shard and nowhere else.
  ghost predicate Holds<V>(shards: seq<map<Str, Entry<V>>>, hasher: Str -> Hash, contents: map<Str, Entry<V>>) {
    && |shards| > 0
    && (forall i, k :: 0 <= i < |shards| && k in shards[i] ==>
       Filed(hasher, |shards|, i, k, shards[i][k]) && k in contents)
    && (forall k :: k in contents ==> var sh := shards[ShardOf(hasher(k), |shards|)]; k in sh && sh[k] == contents[k])
  }

  lemma HoldsSome<V>(shards: seq<map<Str, Entry<V>>>, hasher: Str -> Hash, contents: map<Str, Entry<V>>)
    requires Holds(shards, hasher, contents)
    ensures |shards| > 0
  {
  }

  // A key is in the shard of its hash when it is stored, and in no other shard.
  lemma AtHome<V>(shards: seq<map<Str, Entry<V>>>, hasher: Str -> Hash, contents: map<Str, Entry<V>>, j: nat, k: Str)
    requires Holds(shards, hasher, contents) && j < |shards|
    ensures k in shards[j] <==> k in contents && j == ShardOf(hasher(k), |shards|)
    ensures k in shards[j] ==> shards[j][k] == contents[k] && Filed(hasher, |shards|, j, k, shards[j][k])
  {
    hide ShardOf;
    if k in shards[j] { assert Filed(hasher, |shards|, j, k, shards[j][k]); }
  }

  // Two maps that differ at most in one key.
  ghost predicate SameBut<V>(a: map<Str, Entry<V>>, b: map<Str, Entry<V>>, key: Str) {
    forall k :: k != key ==> (k in a <==> k in b) && (k in a ==> a[k] == b[k])
  }

  lemma WithoutKey<V>(m: map<Str, Entry<V>>, key: Str)
    ensures SameBut(m, m - {key}, key) && key !in m - {key}
  {
  }

  // What changes in the shard of a key, and in the contents, is that key.
  lemma HoldsAfterChange<V>(shards: seq<map<Str, Entry<V>>>, hasher: Str -> Hash, contents: map<Str, Entry<V>>,
                            key: Str, sh: map<Str, Entry<V>>, now: map<Str, Entry<V>>)
    requires Holds(shards, hasher, contents)
    requires SameBut(shards[ShardOf(hasher(key), |shards|)], sh, key) && SameBut(contents, now, key)
    requires key in sh <==> key in now
    requires key in now ==>
             sh[key] == now[key] && Filed(hasher, |shards|, ShardOf(hasher(key), |shards|), key, now[key])
    ensures Holds(shards[ShardOf(hasher(key), |shards|) := sh], hasher, now)
  {
    hide ShardOf, Holds, Filed;
    var after := shards[ShardOf(hasher(key), |shards|) := sh];
    forall j, k | 0 <= j < |after| && k in after[j] ensures k in now && Filed(hasher, |after|, j, k, after[j][k]) {
      AtHome(shards, hasher, contents, j, k);
    }
    forall k | k in now ensures var home := after[ShardOf(hasher(k), |after|)]; k in home && home[k] == now[k] {
      AtHome(shards, hasher, contents, ShardOf(hasher(k), |after|), k);
    }
    HoldsFromHomes(after, hasher, now);
  }

  // Shards in which every key is at home hold the contents.
  lemma HoldsFromHomes<V>(shards: seq<map<Str, Entry<V>>>, hasher: Str -> Hash, contents: map<Str, Entry<V>>)
    requires |shards| > 0
    requires forall j, k :: 0 <= j < |shards| && k in shards[j] ==>
             k in contents && Filed(hasher, |shards|, j, k, shards[j][k])
    requires forall k :: k in contents ==>
             var sh := shards[ShardOf(hasher(k), |shards|)]; k in sh && sh[k] == contents[k]
    ensures Holds(shards, hasher, contents)
  {
  }

  lemma HoldsAfterPut<V>(shards: seq<map<Str, Entry<V>>>, hasher: Str -> Hash, contents: map<Str, Entry<V>>,
                         e: Entry<V>)
    requires Holds(shards, hasher, contents) && e.keyHash == hasher(e.key)
    ensures |shards| > 0
    ensures var i := ShardOf(e.keyHash, |shards|);
      && (e.key in shards[i] <==> e.key in contents)
      && Holds(shards[i := shards[i][e.key := e]], hasher, contents[e.key := e])
      && ShardSizes(shards[i := shards[i][e.key := e]]) == ShardSizes(shards) + (if e.key in contents then 0 else 1)
  {
    hide ShardOf, ShardSizes, Holds;
    HoldsSome(shards, hasher, contents);
    var i := ShardOf(e.keyHash, |shards|);
    AtHome(shards, hasher, contents, i, e.key);
    PutGrows(shards[i], e.key, e);
    OneShardChanged(shards, i, shards[i][e.key := e]);
    HoldsAfterChange(shards, hasher, contents, e.key, shards[i][e.key := e], contents[e.key := e]);
  }

  lemma HoldsAfterTakeOut<V>(shards: seq<map<Str, Entry<V>>>, hasher: Str -> Hash, contents: map<Str, Entry<V>>,
                             key: Str)
    requires Holds(shards, hasher, contents)
    ensures |shards| > 0
    ensures var i := ShardOf(hasher(key), |shards|);
      && (key in shards[i] <==> key in contents)
      && Holds(shards[i := shards[i] - {key}], hasher, contents - {key})
      && ShardSizes(shards[i := shards[i] - {key}]) == ShardSizes(shards) - (if key in contents then 1 else 0)
  {
    hide ShardOf, ShardSizes, Holds, Filed, SameBut;
    HoldsSome(shards, hasher, contents);
    var i := ShardOf(hasher(key), |shards|);
    AtHome(shards, hasher, contents, i, key);
    RemoveShrinks(shards[i], key);
    OneShardChanged(shards, i, shards[i] - {key});
    WithoutKey(shards[i], key);
    WithoutKey(contents, key);
    HoldsAfterChange(shards, hasher, contents, key, shards[i] - {key}, contents - {key});
  }

  class ShardedStore<V> {
    const shards: array<map<Str, Entry<V>>>
    const hasher: Str -> Hash
    var size: int
    ghost var contents: map<Str, Entry<V>>

    ghost predicate Valid()
      reads this, shards
    {
      Holds(shards[..], hasher, contents) && size == |contents| == ShardSizes(shards[..])
    }

    constructor (shardCount: nat, hasher: Str -> Hash)
      requires shardCount > 0
      ensures Valid() && fresh(shards) && contents == map[] && this.hasher == hasher
    {
      shards := new map<Str, Entry<V>>[shardCount](_ => map[]);
      this.hasher := hasher;
      size := 0;
      contents := map[];
      new;
      EmptyShards(shards[..]);
    }

    method GetByHash(key: Str, keyHash: Hash, now: int) returns (r: Option<Entry<V>>)
      requires Valid() && keyHash == hasher(key)
      ensures r == Live(contents, key, now)
    {
      var sh := shards[ShardOf(keyHash, shards.Length)];
      if key !in sh { return None; }
      var entry := sh[key];
      if entry.expireAt > 0 && now > entry.expireAt { return None; }
      r := Some(entry);
    }

    method PeekByHash(key: Str, keyHash: Hash) returns (r: Option<Entry<V>>)
      requires Valid() && keyHash == hasher(key)
      ensures r == Find(contents, key)
      ensures r.Some? ==> r.value.key == key && r.value.keyHash == keyHash
    {
      var sh := shards[ShardOf(keyHash, shards.Length)];
      r := if key in sh then Some(sh[key]) else None;
    }

    // Write an entry into the map of its shard.
    method Put(e: Entry<V>)
      requires Valid() && e.keyHash == hasher(e.key)
      modifies shards, this`contents, this`size
      ensures Valid() && contents == old(contents)[e.key := e]
    {
      hide ShardOf, ShardSizes, Holds;
      HoldsAfterPut(shards[..], hasher, contents, e);
      PutGrows(contents, e.key, e);
      var i := ShardOf(e.keyHash, shards.Length);
      if e.key !in shards[i] { size := size + 1; }
      shards[i] := shards[i][e.key := e];
      assert shards[..] == old(shards[..])[i := shards[i]];
      contents := contents[e.key := e];
    }

    method TakeOut(key: Str)
      requires Valid()
      modifies shards, this`contents, this`size
      ensures Valid() && contents == old(contents) - {key}
    {
      hide ShardOf, ShardSizes, Holds;
      HoldsAfterTakeOut(shards[..], hasher, contents, key);
      RemoveShrinks(contents, key);
      var i := ShardOf(hasher(key), shards.Length);
      if key in shards[i] { size := size - 1; }
      shards[i] := shards[i] - {key};
      assert shards[..] == old(shards[..])[i := shards[i]];
      contents := contents - {key};
    }

    // Set: a zero hash means that the caller leaves hashing to the store.
    method Set(e: Entry<V>) returns (prev: Option<Entry<V>>)
      requires Valid() && (e.keyHash == 0 || e.keyHash == hasher(e.key))
      modifies shards, this`contents, this`size
      ensures Valid() && prev == Find(old(contents), e.key)
      ensures contents == old(contents)[e.key := e.(keyHash := hasher(e.key))]
    {
      var entry := if e.keyHash == 0 then e.(keyHash := hasher(e.key)) else e;
      prev := PeekByHash(entry.key, entry.keyHash);
      Put(entry);
    }

    method DeleteByHash(key: Str, keyHash: Hash) returns (deleted: Option<Entry<V>>)
      requires Valid() && keyHash == hasher(key)
      modifies shards, this`contents, this`size
      ensures Valid() && deleted == Find(old(contents), key) && contents == old(contents) - {key}
    {
      deleted := PeekByHash(key, keyHash);
      TakeOut(key);
    }

    // UpdateExistingByHash: a fresh snapshot replaces the entry; absent keys stay absent.
    method UpdateExistingByHash(key: Str, keyHash: Hash, value: V, cost: int, expireAt: int)
      returns (prev: Option<Entry<V>>, updated: bool, costDelta: int)
      requires Valid() && keyHash == hasher(key)
      modifies shards, this`contents, this`size
      ensures Valid() && prev == Find(old(contents), key) && updated == prev.Some?
      ensures costDelta == if updated then cost - prev.value.cost else 0
      ensures contents == if updated then old(contents)[key := Entry(key, value, keyHash, expireAt, cost)]
              else old(contents)
    {
      prev := PeekByHash(key, keyHash);
      if prev.None? { return None, false, 0; }
      updated, costDelta := true, cost - prev.value.cost;
      Put(Entry(prev.value.key, value, prev.value.keyHash, expireAt, cost));
    }

    // DeleteIfExpired: only while the entry still has the expiry that was scheduled, and only
    // strictly after it.
    method DeleteIfExpired(key: Str, keyHash: Hash, expireAt: int, now: int) returns (deleted: Option<Entry<V>>)
      requires Valid() && keyHash == hasher(key)
      modifies shards, this`contents, this`size
      ensures Valid()
      ensures deleted == if key in old(contents) && old(contents)[key].expireAt == expireAt && 0 < expireAt < now
                         then Some(old(contents)[key]) else None
      ensures contents == if deleted.Some? then old(contents) - {key} else old(contents)
    {
      deleted := PeekByHash(key, keyHash);
      if deleted.Some? && deleted.value.expireAt == expireAt &&
         deleted.value.expireAt > 0 && now > deleted.value.expireAt
      {
        TakeOut(key);
      } else {
        deleted := None;
      }
    }

    method Clear()
      requires Valid()
      modifies shards, this`contents, this`size
      ensures Valid() && contents == map[]
    {
      for i := 0 to shards.Length
        invariant forall j :: 0 <= j < i ==> shards[j] == map[]
      {
        shards[i] := map[];
      }
      size := 0;
      contents := map[];
      EmptyShards(shards[..]);
    }
  }
}
