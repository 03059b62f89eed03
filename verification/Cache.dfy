// The cache: store, policy, prefix tree, cost counter and timing wheel kept in step by every
// synchronous operation.  Time comes in as `now`.
module Cache {
  import opened Common
  import opened Store
  import opened SampledLfu
  import opened Policy
  import opened TinyLfu
  import opened ExpiryWheel
  import opened Radix
  import opened CacheSpec

  datatype WriteItem<V> = WriteItem(entry: Entry<V>, isSet: bool)

  class Cache<V(!new)> {
    const store: ShardedStore<V>
    const policy: Policer<Str>
    const wheel: Wheel<Str>
    // The tree is kept only while prefix search is enabled.
    const prefixSearch: bool
    const tree: Tree
    const defaultTTL: int
    const costFunc: Option<V -> int>
    var liveCost: int
    // The operations so far, the latest reading of the clock, and for every key with a time limit
    // the tick by which the wheel drains its event.
    ghost var log: seq<Past<V>>
    ghost var clock: nat
    ghost var due: map<Str, int>

    // The parts are sound, and share nothing.
    ghost predicate PartsValid()
      reads store, store.shards, policy, policy.admit, policy.evict, policy.admit.freq.rows, policy.admit.door.bits
      reads wheel, wheel.buckets, tree, tree.root, tree.root.repr
    {
      && store.Valid() && policy.Valid() && wheel.Valid() && tree.Valid()
      && store.shards as object != wheel.buckets as object
      && store.shards as object != policy.admit.door.bits as object
      && wheel.buckets as object != policy.admit.door.bits as object
    }

    // The prefix tree, if there is one, lists just these keys, each under its own hash.
    ghost predicate Lists(keys: set<Str>)
      reads tree, tree.root
    {
      prefixSearch ==> tree.Stored() == keys && HashesFrom(tree.root.model, store.hasher)
    }

    // The cost counter and the prefix tree follow the store.
    ghost predicate InStep()
      reads this`liveCost, store, tree, tree.root
    {
      liveCost == Sum(CostOf(store.contents)) && Lists(store.contents.Keys)
    }

    // So does the policy: the same keys, with the same hashes and costs.
    ghost predicate Agree()
      reads this`liveCost, store, policy, policy.evict, tree, tree.root
    {
      InStep() && policy.Tracking() == Shadow(store.contents)
    }

    ghost predicate Remembers()
      reads this, store, wheel
    {
      Recalls(store.contents, log, clock, wheel.pending, store.hasher, wheel.currentTick, wheel.resolution, due)
    }

    ghost predicate Valid()
      reads this, store, store.shards, policy, policy.admit, policy.evict, policy.admit.freq.rows,
            policy.admit.door.bits
      reads wheel, wheel.buckets, tree, tree.root, tree.root.repr
    {
      PartsValid() && Agree() && Remembers()
    }

    // The books agree: one set of keys, one total cost, whichever part is asked.
    lemma BooksAgree()
      requires Valid()
      ensures policy.Tracking().Keys == store.contents.Keys &&
              policy.evict.numEntries == store.size == ShardSizes(store.shards[..])
      ensures policy.Tracking() == Shadow(store.contents)
      ensures prefixSearch ==> tree.Stored() == store.contents.Keys && tree.size == store.size
      ensures prefixSearch ==> HashesFrom(tree.root.model, store.hasher)
      ensures liveCost == Sum(CostOf(store.contents)) == policy.evict.usedCost
    {
      ShadowCosts(store.contents);
      SameSize(store.contents, policy.Tracking());
    }

    constructor (store: ShardedStore<V>, policy: Policer<Str>, wheel: Wheel<Str>, prefixSearch: bool,
                 defaultTTL: int, costFunc: Option<V -> int>, now: nat)
      requires store.Valid() && policy.Valid() && wheel.Valid()
      requires store.shards as object != wheel.buckets as object
      requires store.shards as object != policy.admit.door.bits as object
      requires wheel.buckets as object != policy.admit.door.bits as object
      requires store.contents == map[] && policy.Tracking() == map[] && wheel.pending == multiset{}
      requires wheel.resolution > 0 && wheel.currentTick <= now / wheel.resolution
      ensures Valid() && log == [] && clock == now && due == map[] && this.store == store && this.policy == policy &&
              this.wheel == wheel
      ensures this.prefixSearch == prefixSearch && this.defaultTTL == defaultTTL && this.costFunc == costFunc
    {
      hide ShardedStore.Valid, Policer.Valid, Wheel.Valid, Tree.Valid, Costs;
      this.store := store;
      this.policy := policy;
      this.wheel := wheel;
      this.prefixSearch := prefixSearch;
      this.defaultTTL := defaultTTL;
      this.costFunc := costFunc;
      tree := new Tree();
      liveCost := 0;
      log := [];
      clock := now;
      due := map[];
      new;
      assert CostOf(store.contents) == map[];
      assert policy.Tracking() == Shadow(store.contents);
    }

    // ----- reading -----

    // Get: the answer the history gives.
    method Get(key: Str, now: nat) returns (r: Option<V>)
      requires Valid() && clock <= now
      modifies this`clock
      ensures Valid() && clock == now
      ensures r == Answer(log, key, now)
    {
      hide ShardedStore.Valid, Policer.Valid, Wheel.Valid, Tree.Valid, Live, Answer, Armed, Hashed, Faithful, Ahead;
      var keyHash := store.hasher(key);
      var entry := store.GetByHash(key, keyHash, now);
      ReadIsAnswer(store.contents, log, clock, key, now);
      RecallsLater(store.contents, log, clock, wheel.pending, store.hasher, wheel.currentTick, wheel.resolution, due,
                   now);
      clock := now;
      r := if entry.None? then None else Some(entry.value.value);
    }

    // ----- writing -----

    // The prefix tree forgets a key, if there is a tree.
    method Unlist(key: Str, ghost keys: set<Str>)
      requires tree.Valid() && Lists(keys)
      modifies tree, tree.root.repr
      ensures tree.Valid() && tree.root == old(tree.root) && tree.root.repr <= old(tree.root.repr)
      ensures Lists(keys - {key})
    {
      hide Tree.Valid, Tree.Stored, HashesFrom;
      if prefixSearch {
        tree.InShape();
        HashesAfterDelete(tree.root.model, store.hasher, key);
        var _ := tree.DeleteKey(key);
      }
    }

    // The store gives up an entry and the counter its cost.
    method Withdraw(key: Str, keyHash: Hash) returns (deleted: Option<Entry<V>>)
      requires store.Valid() && liveCost == Sum(CostOf(store.contents)) && keyHash == store.hasher(key)
      modifies store, store.shards, this`liveCost
      ensures store.Valid() && liveCost == Sum(CostOf(store.contents))
      ensures deleted == Find(old(store.contents), key) && store.contents == old(store.contents) - {key}
    {
      hide ShardedStore.Valid, Sum, CostOf;
      CostAfterRemove(store.contents, key);
      deleted := store.DeleteByHash(key, keyHash);
      if deleted.Some? {
        liveCost := liveCost - deleted.value.cost;
      }
    }

    // evictVictim: the policy has let go of the key; store, counter and tree follow.
    method EvictVictim(victim: Victim<Str>)
      requires PartsValid() && InStep() && victim.keyHash == store.hasher(victim.key)
      modifies store, store.shards, tree, tree.root.repr, this`liveCost
      ensures PartsValid() && InStep() && tree.root == old(tree.root) && tree.root.repr <= old(tree.root.repr)
      ensures store.contents == old(store.contents) - {victim.key}
    {
      hide ShardedStore.Valid, Policer.Valid, Wheel.Valid, Tree.Valid, Cache.Lists, Sum, CostOf;
      var deleted := Withdraw(victim.key, victim.keyHash);
      if deleted.None? {
        assert store.contents == old(store.contents);
        return;
      }
      Unlist(victim.key, old(store.contents.Keys));
    }

    // doDelete.
    method DoDelete(key: Str, keyHash: Hash) returns (found: bool)
      requires Valid() && keyHash == store.hasher(key)
      modifies this, store, store.shards, policy.evict, tree, tree.root.repr
      ensures Valid() && tree.root == old(tree.root) && tree.root.repr <= old(tree.root.repr)
      ensures found == (key in old(store.contents)) && store.contents == old(store.contents) - {key}
      ensures log == old(log) + [WasDeleted(key)] && clock == old(clock) && due == old(due)
    {
      hide ShardedStore.Valid, Policer.Valid, Wheel.Valid, Tree.Valid, Cache.Lists, Sum, CostOf, Shadow, Recalls;
      RecallsAfterDelete(store.contents, log, clock, wheel.pending, store.hasher, wheel.currentTick, wheel.resolution,
                         due, key);
      ShadowAfterRemove(store.contents, key);
      log := log + [WasDeleted(key)];
      var deleted := Withdraw(key, keyHash);
      if deleted.None? {
        assert store.contents == old(store.contents);
        return false;
      }
      policy.Del(key);
      Unlist(key, old(store.contents.Keys));
      found := true;
    }

    lemma StoreIsKeyed()
      requires store.Valid()
      ensures Keyed(store.contents, store.hasher)
    {
      forall k | k in store.contents
        ensures store.contents[k].key == k && store.contents[k].keyHash == store.hasher(k)
      {
        var i := ShardOf(store.hasher(k), store.shards.Length);
        assert k in store.shards[..][i] && Filed(store.hasher, store.shards.Length, i, k, store.shards[..][i][k]);
      }
    }

    // The store replaces an entry and the counter takes the difference.
    method Revise(key: Str, keyHash: Hash, value: V, cost: int, expireAt: int) returns (updated: bool, costDelta: int)
      requires store.Valid() && liveCost == Sum(CostOf(store.contents)) && keyHash == store.hasher(key)
      modifies store, store.shards, this`liveCost
      ensures store.Valid() && liveCost == Sum(CostOf(store.contents))
      ensures updated == (key in old(store.contents))
      ensures updated ==> costDelta == cost - old(store.contents)[key].cost
      ensures store.contents ==
              if updated then old(store.contents)[key := Entry(key, value, keyHash, expireAt, cost)]
                else old(store.contents)
    {
      hide ShardedStore.Valid, Sum, CostOf;
      CostAfterPut(store.contents, key, Entry(key, value, keyHash, expireAt, cost));
      var _, u, d := store.UpdateExistingByHash(key, keyHash, value, cost, expireAt);
      updated, costDelta := u, d;
      if updated && costDelta != 0 {
        liveCost := liveCost + costDelta;
      }
    }

    // Store, counter and policy take the new value, cost and expiry; the policy hears of it only
    // when the cost changes.
    method ReviseTracked(e: Entry<V>) returns (updated: bool)
      requires store.Valid() && policy.Valid() && liveCost == Sum(CostOf(store.contents))
      requires policy.Tracking() == Shadow(store.contents)
      requires e.key in store.contents && e.keyHash == store.hasher(e.key)
      modifies store, store.shards, this`liveCost, policy.evict
      ensures store.Valid() && policy.Valid() && liveCost == Sum(CostOf(store.contents))
      ensures policy.Tracking() == Shadow(store.contents)
      ensures updated && store.contents == old(store.contents)[e.key := e]
      ensures e.cost == old(store.contents)[e.key].cost ==> unchanged(policy.evict)
    {
      hide ShardedStore.Valid, Policer.Valid, Sum, CostOf, Shadow;
      ShadowAfterUpdate(e);
      var costDelta;
      updated, costDelta := Revise(e.key, e.keyHash, e.value, e.cost, e.expireAt);
      if costDelta != 0 {
        policy.Update(e.key, e.keyHash, e.cost);
      }
    }

    // The books of an overwritten entry, its new time limit scheduled beside the one it replaces.
    method Overwrite(e: Entry<V>) returns (updated: bool)
      requires PartsValid() && Agree() && e.key in store.contents && e.keyHash == store.hasher(e.key)
      modifies store, store.shards, this`liveCost, policy.evict, wheel`pending, wheel.buckets
      ensures PartsValid() && Agree() && updated && store.contents == old(store.contents)[e.key := e]
      ensures wheel.pending == Watched(old(wheel.pending), EventOf(e))
      ensures e.cost == old(store.contents)[e.key].cost ==> unchanged(policy.evict)
    {
      hide ShardedStore.Valid, Policer.Valid, Wheel.Valid, Tree.Valid, Cache.Lists, Sum, CostOf, Shadow, Watched;
      updated := ReviseTracked(e);
      assert store.contents.Keys == old(store.contents).Keys;
      Watch(e.key, e.keyHash, e.expireAt);
    }

    // tryUpdateExisting: overwriting evicts nobody.
    method TryUpdateExisting(key: Str, value: V, keyHash: Hash, cost: int, expireAt: int) returns (updated: bool)
      requires Valid() && keyHash == store.hasher(key)
      modifies this, store, store.shards, policy.evict, wheel`pending, wheel.buckets
      ensures Valid() && clock == old(clock) && wheel.resolution > 0
      ensures updated == (key in old(store.contents))
      ensures !updated ==> store.contents == old(store.contents) && log == old(log) && due == old(due)
      ensures !updated || cost == old(store.contents)[key].cost ==> unchanged(policy.evict)
      ensures updated ==> store.contents == old(store.contents)[key := Entry(key, value, keyHash, expireAt, cost)]
      ensures updated ==> log == old(log) + [WasSet(key, value, expireAt, {})]
      ensures updated ==> due == DueAfter(old(due), store.contents[key], wheel.currentTick, wheel.resolution)
      ensures wheel.pending == if updated then Watched(old(wheel.pending), Event(key, keyHash, expireAt))
              else old(wheel.pending)
    {
      hide Cache.Agree, Recalls, Watched, DueAfter, ShardedStore.Valid, Policer.Valid, Wheel.Valid, Tree.Valid;
      wheel.Ticking();
      var present := store.PeekByHash(key, keyHash);
      if present.None? { return false; }
      ghost var was := store.contents;
      var entry := Entry(key, value, keyHash, expireAt, cost);
      RecallsAfterSet(was, log, clock, wheel.pending, store.hasher, wheel.currentTick, wheel.resolution, due, entry,
                      {});
      log := log + [WasSet(key, value, expireAt, {})];
      due := DueAfter(due, entry, wheel.currentTick, wheel.resolution);
      updated := Overwrite(entry);
      assert was - {} == was;
    }

    // An overwritten entry is tracked anew, and as before when it costs the same.
    lemma ShadowAfterUpdate(e: Entry<V>)
      requires store.Valid() && e.key in store.contents && e.keyHash == store.hasher(e.key)
      ensures var was := store.contents;
        && was - {} == was && e.key in Shadow(was)
        && Shadow(was[e.key := e]) == Shadow(was)[e.key := Tracked(e.keyHash, e.cost)]
        && (e.cost == was[e.key].cost ==> Shadow(was[e.key := e]) == Shadow(was))
    {
      StoreIsKeyed();
    }

    // A time limit is scheduled.
    method Watch(key: Str, keyHash: Hash, expireAt: int)
      requires wheel.Valid()
      modifies wheel`pending, wheel.buckets
      ensures wheel.Valid()
      ensures wheel.pending == Watched(old(wheel.pending), Event(key, keyHash, expireAt))
    {
      hide Wheel.Valid;
      if expireAt > 0 {
        wheel.Schedule(Event(key, keyHash, expireAt));
      }
    }

    // The victims of a newcomer go one by one.
    method EvictAll(victims: seq<Victim<Str>>)
      requires PartsValid() && InStep()
      requires forall i :: 0 <= i < |victims| ==> victims[i].keyHash == store.hasher(victims[i].key)
      modifies store, store.shards, tree, tree.root.repr, this`liveCost
      ensures PartsValid() && InStep() && tree.root == old(tree.root) && tree.root.repr <= old(tree.root.repr)
      ensures store.contents == old(store.contents) - KeysOf(victims)
    {
      hide ShardedStore.Valid, Policer.Valid, Wheel.Valid, Tree.Valid, Cache.Lists, Sum, CostOf, KeysOf;
      NoneEvicted(store.contents, victims);
      for i := 0 to |victims|
        invariant PartsValid() && InStep() && tree.root == old(tree.root) && tree.root.repr <= old(tree.root.repr)
        invariant store.contents == old(store.contents) - KeysOf(victims[..i])
      {
        OneMoreEvicted(old(store.contents), victims, i);
        EvictVictim(victims[i]);
      }
      assert victims[..|victims|] == victims;
    }

    // The store takes a new entry in and the counter its cost.
    method Deposit(entry: Entry<V>)
      requires store.Valid() && liveCost == Sum(CostOf(store.contents))
      requires entry.keyHash == store.hasher(entry.key) && entry.key !in store.contents
      modifies store, store.shards, this`liveCost
      ensures store.Valid() && liveCost == Sum(CostOf(store.contents)) &&
              store.contents == old(store.contents)[entry.key := entry]
    {
      hide ShardedStore.Valid, Sum, CostOf;
      CostAfterPut(store.contents, entry.key, entry);
      var _ := store.Set(entry);
      liveCost := liveCost + entry.cost;
    }

    // The rest of doSet: the entry is stored, counted, scheduled and listed.
    method StoreEntry(entry: Entry<V>)
      requires PartsValid() && InStep() && entry.keyHash == store.hasher(entry.key) && entry.key !in store.contents
      modifies store, store.shards, wheel`pending, wheel.buckets, tree, tree.root.repr, this`liveCost
      ensures PartsValid() && InStep() && tree.root == old(tree.root) && fresh(tree.root.repr - old(tree.root.repr))
      ensures store.contents == old(store.contents)[entry.key := entry]
      ensures wheel.pending == Watched(old(wheel.pending), EventOf(entry))
    {
      hide ShardedStore.Valid, Policer.Valid, Wheel.Valid, Tree.Valid, Cache.Lists, Sum, CostOf;
      Deposit(entry);
      Watch(entry.key, entry.keyHash, entry.expireAt);
      List(entry.key, entry.keyHash, old(store.contents.Keys));
      assert store.contents.Keys == old(store.contents.Keys) + {entry.key};
    }

    // The prefix tree learns a key, if there is a tree.
    method List(key: Str, keyHash: Hash, ghost keys: set<Str>)
      requires tree.Valid() && Lists(keys) && keyHash == store.hasher(key)
      modifies tree, tree.root.repr
      ensures tree.Valid() && tree.root == old(tree.root) && fresh(tree.root.repr - old(tree.root.repr))
      ensures Lists(keys + {key})
    {
      hide Tree.Valid, Tree.Stored, HashesFrom;
      if prefixSearch {
        tree.InShape();
        HashesAfterInsert(tree.root.model, store.hasher, key);
        tree.InsertKey(key, keyHash);
      }
    }

    // None of the keys is estimated hotter than the newcomer.
    ghost predicate NoHotter(keys: set<Str>, keyHash: Hash)
      reads policy.admit.freq.rows, policy.admit.door.bits
    {
      policy.admit.Shape() && forall k :: k in keys ==>
        policy.admit.EstimateOf(store.hasher(k)) <= policy.admit.EstimateOf(keyHash)
    }

    lemma VictimsNoHotter(victims: seq<Victim<Str>>, keyHash: Hash)
      requires policy.admit.Shape() && forall i :: 0 <= i < |victims| ==>
               victims[i].keyHash == store.hasher(victims[i].key)
      requires forall i :: 0 <= i < |victims| ==>
               policy.admit.EstimateOf(victims[i].keyHash) <= policy.admit.EstimateOf(keyHash)
      ensures NoHotter(KeysOf(victims), keyHash)
    {
      hide TinyLFU.EstimateOf;
    }

    // The policy tracks the newcomer and names its victims.
    method Track(entry: Entry<V>) returns (ok: bool, victims: seq<Victim<Str>>)
      requires store.Valid() && policy.Valid() && policy.Tracking() == Shadow(store.contents)
      requires entry.keyHash == store.hasher(entry.key) && entry.key !in store.contents
      modifies policy.admit, policy.evict, policy.admit.freq.rows, policy.admit.door.bits
      ensures policy.Valid() && ok
      ensures forall i :: 0 <= i < |victims| ==> victims[i].keyHash == store.hasher(victims[i].key)
      ensures policy.Tracking() == Shadow((old(store.contents) - KeysOf(victims))[entry.key := entry])
      ensures policy.admit.exact == ExactIncrement(old(policy.admit.exact), entry.keyHash, policy.admit.resetAt)
      ensures Chosen(old(store.contents), victims, old(policy.evict.maxCost), old(policy.evict.maxEntries))
      ensures KeysOf(victims) <= old(store.contents).Keys && NoHotter(KeysOf(victims), entry.keyHash)
    {
      hide ShardedStore.Valid, Policer.Valid, Shadow, KeysOf, VictimsOk, NeededInTurn, Cache.NoHotter,
        TinyLFU.EstimateOf;
      ghost var was := store.contents;
      StoreIsKeyed();
      var added;
      ghost var samples, sample;
      victims, added, samples, sample := policy.Add(entry.key, entry.keyHash, entry.cost);
      VictimsAreStored(was, store.hasher, victims);
      policy.InShape();
      VictimsNoHotter(victims, entry.keyHash);
      ShadowAfterSet(was, KeysOf(victims), entry);
      ok := added;
    }

    // The first half of doSet: the policy tracks the newcomer and its victims leave.
    method MakeRoom(entry: Entry<V>) returns (ok: bool, ghost victims: seq<Victim<Str>>)
      requires PartsValid() && Agree() && entry.keyHash == store.hasher(entry.key) && entry.key !in store.contents
      modifies this`liveCost, store, store.shards, tree, tree.root.repr
      modifies policy.admit, policy.evict, policy.admit.freq.rows, policy.admit.door.bits
      ensures PartsValid() && InStep() && tree.root == old(tree.root) && tree.root.repr <= old(tree.root.repr)
      ensures ok && store.contents == old(store.contents) - KeysOf(victims)
      ensures policy.Tracking() == Shadow((old(store.contents) - KeysOf(victims))[entry.key := entry])
      ensures policy.admit.exact == ExactIncrement(old(policy.admit.exact), entry.keyHash, policy.admit.resetAt)
      ensures Chosen(old(store.contents), victims, old(policy.evict.maxCost), old(policy.evict.maxEntries))
      ensures KeysOf(victims) <= old(store.contents).Keys && NoHotter(KeysOf(victims), entry.keyHash)
    {
      hide ShardedStore.Valid, Policer.Valid, Wheel.Valid, Tree.Valid, Cache.InStep, Shadow, KeysOf, Chosen,
        Cache.NoHotter;
      var named;
      ok, named := Track(entry);
      victims := named;
      EvictAll(named);
    }

    // doSet, for a key that is not stored.  The policy never refuses it.
    method DoSet(entry: Entry<V>) returns (ok: bool, ghost victims: seq<Victim<Str>>)
      requires Valid() && entry.keyHash == store.hasher(entry.key) && entry.key !in store.contents
      modifies this, store, store.shards, wheel`pending, wheel.buckets, tree, tree.root.repr
      modifies policy.admit, policy.evict, policy.admit.freq.rows, policy.admit.door.bits
      ensures Valid() && clock == old(clock) && tree.root == old(tree.root) &&
              fresh(tree.root.repr - old(tree.root.repr))
      ensures ok && store.contents == (old(store.contents) - KeysOf(victims))[entry.key := entry]
      ensures Chosen(old(store.contents), victims, old(policy.evict.maxCost), old(policy.evict.maxEntries))
      ensures KeysOf(victims) <= old(store.contents).Keys && NoHotter(KeysOf(victims), entry.keyHash)
      ensures log == old(log) + [WasSet(entry.key, entry.value, entry.expireAt, KeysOf(victims))]
      ensures wheel.resolution > 0 && due == DueAfter(old(due), entry, wheel.currentTick, wheel.resolution)
      ensures wheel.pending == Watched(old(wheel.pending), EventOf(entry))
      ensures policy.admit.exact == ExactIncrement(old(policy.admit.exact), entry.keyHash, policy.admit.resetAt)
    {
      hide Cache.PartsValid, Cache.InStep, Shadow, Recalls, Watched, EventOf, DueAfter, KeysOf, Chosen, Cache.NoHotter;
      ghost var was := store.contents;
      ok, victims := MakeRoom(entry);
      RecallsAfterSet(was, log, clock, wheel.pending, store.hasher, wheel.currentTick, wheel.resolution, due, entry,
                      KeysOf(victims));
      log := log + [WasSet(entry.key, entry.value, entry.expireAt, KeysOf(victims))];
      due := DueAfter(due, entry, wheel.currentTick, wheel.resolution);
      StoreEntry(entry);
    }

    // setSync.
    method SetSync(key: Str, value: V, keyHash: Hash, cost: int, expireAt: int)
      returns (ok: bool, ghost victims: seq<Victim<Str>>)
      requires Valid() && keyHash == store.hasher(key)
      modifies this, store, store.shards, wheel`pending, wheel.buckets, tree, tree.root.repr
      modifies policy.admit, policy.evict, policy.admit.freq.rows, policy.admit.door.bits
      ensures Valid() && clock == old(clock) && tree.root == old(tree.root) &&
              fresh(tree.root.repr - old(tree.root.repr))
      ensures ok &&
              store.contents ==
                (old(store.contents) - KeysOf(victims))[key := Entry(key, value, keyHash, expireAt, cost)]
      ensures Chosen(old(store.contents), victims, old(policy.evict.maxCost), old(policy.evict.maxEntries))
      ensures KeysOf(victims) <= old(store.contents).Keys - {key}
      ensures victims != [] ==> key !in old(store.contents) && NoHotter(KeysOf(victims), keyHash)
      ensures log == old(log) + [WasSet(key, value, expireAt, KeysOf(victims))]
      ensures wheel.resolution > 0
      ensures due == DueAfter(old(due), Entry(key, value, keyHash, expireAt, cost), wheel.currentTick, wheel.resolution)
      ensures wheel.pending == Watched(old(wheel.pending), Event(key, keyHash, expireAt))
    {
      hide Cache.Valid, Watched, DueAfter, KeysOf, Chosen, Cache.NoHotter;
      NobodyChosen(store.contents, policy.evict.maxCost, policy.evict.maxEntries);
      var updated := TryUpdateExisting(key, value, keyHash, cost, expireAt);
      victims := [];
      if updated {
        return true, [];
      }
      ok, victims := DoSet(Entry(key, value, keyHash, expireAt, cost));
    }

    // SetWithCost, without a write buffer.  The caller's time to live decides how long the value
    // is read; one of zero or less asks for the default, and without a default for no limit.
    method SetWithCost(key: Str, value: V, cost: int, ttl: int, now: nat)
      returns (ok: bool, ghost victims: seq<Victim<Str>>)
      requires Valid() && clock <= now
      modifies this, store, store.shards, wheel`pending, wheel.buckets, tree, tree.root.repr
      modifies policy.admit, policy.evict, policy.admit.freq.rows, policy.admit.door.bits
      ensures Valid() && clock == now && tree.root == old(tree.root) && fresh(tree.root.repr - old(tree.root.repr))
      ensures ok && store.contents == (old(store.contents) - KeysOf(victims))
                [key := Entry(key, value, store.hasher(key),
                              Deadline(now, ttl, defaultTTL), Price(cost, value, costFunc))]
      ensures Chosen(old(store.contents), victims, old(policy.evict.maxCost), old(policy.evict.maxEntries))
      ensures KeysOf(victims) <= old(store.contents).Keys - {key}
      ensures victims != [] ==> key !in old(store.contents) && NoHotter(KeysOf(victims), store.hasher(key))
      ensures log == old(log) + [WasSet(key, value, Deadline(now, ttl, defaultTTL), KeysOf(victims))]
      ensures forall rest, t :: Spares(rest, key) ==>
                var r := Answer(log + rest, key, t);
                && (ttl > 0 ==> r == if t <= now + ttl then Some(value) else None)
                && (ttl <= 0 < defaultTTL ==> r == if t <= now + defaultTTL then Some(value) else None)
                && (ttl <= 0 && defaultTTL <= 0 ==> r == Some(value))
      ensures key in store.contents && store.contents[key].value == value
      ensures cost > 0 ==> store.contents[key].cost == cost
      ensures cost <= 0 && costFunc.Some? ==> store.contents[key].cost == costFunc.value(value)
      ensures cost <= 0 && costFunc.None? ==> store.contents[key].cost == 1
      ensures var e := Event(key, store.hasher(key), Deadline(now, ttl, defaultTTL));
        wheel.resolution > 0 && due == if e.expireAt > 0 then old(due)[key := Tick(e, wheel.resolution)] else old(due)
      ensures wheel.pending ==
              Watched(old(wheel.pending), Event(key, store.hasher(key), Deadline(now, ttl, defaultTTL)))
    {
      hide Cache.PartsValid, Cache.Agree, Recalls, Watched, KeysOf, Chosen, DueAfter, Tick, Cache.NoHotter,
           Answer, Spares;
      var price := cost;
      if price <= 0 {
        price := if costFunc.Some? then costFunc.value(value) else 1;
      }
      var life := ttl;
      if life <= 0 && defaultTTL > 0 {
        life := defaultTTL;
      }
      var expireAt := 0;
      if life > 0 {
        expireAt := now + life;
      }
      RecallsLater(store.contents, log, clock, wheel.pending, store.hasher, wheel.currentTick, wheel.resolution, due,
                   now);
      clock := now;
      InTime(Entry(key, value, store.hasher(key), expireAt, price));
      ghost var before := log;
      ok, victims := SetSync(key, value, store.hasher(key), price, expireAt);
      LifeTime(before, key, value, expireAt, KeysOf(victims), now, ttl, defaultTTL);
    }

    // A time limit that lies in the future is due at its own tick.
    lemma InTime(e: Entry<V>)
      requires Remembers() && (e.expireAt > 0 ==> clock < e.expireAt)
      ensures wheel.resolution > 0
      ensures DueAfter(due, e, wheel.currentTick, wheel.resolution) ==
              if e.expireAt > 0 then due[e.key := Tick(EventOf(e), wheel.resolution)] else due
    {
      hide Faithful, Armed, Hashed, DueAfter, Tick;
      FiledAhead(due, e, wheel.resolution, wheel.currentTick, clock);
    }

    // ----- the sweep -----

    // The store gives up an expired entry and the counter its cost.
    method WithdrawExpired(item: Event<Str>, now: int) returns (gone: bool)
      requires store.Valid() && liveCost == Sum(CostOf(store.contents)) && item.keyHash == store.hasher(item.key)
      modifies store, store.shards, this`liveCost
      ensures store.Valid() && liveCost == Sum(CostOf(store.contents))
      ensures gone == Expires(old(store.contents), item, now)
      ensures store.contents == if gone then old(store.contents) - {item.key} else old(store.contents)
    {
      hide ShardedStore.Valid, Sum, CostOf;
      CostAfterRemove(store.contents, item.key);
      var entry := store.DeleteIfExpired(item.key, item.keyHash, item.expireAt, now);
      gone := entry.Some?;
      if gone {
        liveCost := liveCost - entry.value.cost;
      }
    }

    // One event of removeExpired: an entry overwritten since, or not yet past, stays.
    method ExpireOne(item: Event<Str>, now: int)
      requires PartsValid() && Agree() && item.keyHash == store.hasher(item.key)
      modifies this`liveCost, store, store.shards, policy.evict, tree, tree.root.repr
      ensures PartsValid() && Agree() && tree.root == old(tree.root) && tree.root.repr <= old(tree.root.repr)
      ensures store.contents == if Expires(old(store.contents), item, now) then old(store.contents) - {item.key}
              else old(store.contents)
    {
      hide ShardedStore.Valid, Policer.Valid, Wheel.Valid, Tree.Valid, Cache.Lists, Sum, CostOf, Shadow;
      ShadowAfterRemove(store.contents, item.key);
      var gone := WithdrawExpired(item, now);
      if !gone { return; }
      policy.Del(item.key);
      Unlist(item.key, old(store.contents.Keys));
    }

    method ExpireAll(events: seq<Event<Str>>, now: int)
      requires PartsValid() && Agree() && forall e :: e in events ==> e.keyHash == store.hasher(e.key)
      modifies this`liveCost, store, store.shards, policy.evict, tree, tree.root.repr
      ensures PartsValid() && Agree() && tree.root == old(tree.root) && tree.root.repr <= old(tree.root.repr)
      ensures store.contents == Swept(old(store.contents), events, now)
    {
      hide ShardedStore.Valid, Policer.Valid, Wheel.Valid, Tree.Valid, Cache.Lists, Sum, CostOf, Shadow, Swept,
           Keyed, Cache.Agree;
      StoreIsKeyed();
      NothingSwept(store.contents, events, now);
      for i := 0 to |events|
        invariant PartsValid() && Agree() && tree.root == old(tree.root) && tree.root.repr <= old(tree.root.repr)
        invariant store.contents == Swept(old(store.contents), events[..i], now)
      {
        SweptOneMore(old(store.contents), store.hasher, events, i, now);
        ExpireOne(events[i], now);
      }
      assert events[..|events|] == events;
    }

    // removeExpired.  No answer changes; of the time limits whose tick has come there remain only
    // those swept at their very moment.
    method RemoveExpired(now: nat) returns (ghost expired: seq<Event<Str>>)
      requires Valid() && clock <= now
      modifies this, store, store.shards, policy.evict, wheel, wheel.buckets, tree, tree.root.repr
      ensures Valid() && clock == now && due == old(due)
      ensures tree.root == old(tree.root) && tree.root.repr <= old(tree.root.repr)
      ensures wheel.resolution > 0 && Advances(old(wheel.pending), old(wheel.currentTick), wheel.resolution, now,
                                               multiset(expired), wheel.pending, wheel.currentTick)
      ensures store.contents == Swept(old(store.contents), expired, now)
      ensures log == old(log) + [WasSwept(now)]
      ensures forall key, t :: Answer(log, key, t) == Answer(old(log), key, t)
      ensures forall k :: k in store.contents && 0 < store.contents[k].expireAt ==>
                WasSwept(store.contents[k].expireAt) in log || (k in due && now / wheel.resolution < due[k])
    {
      hide ShardedStore.Valid, Policer.Valid, Wheel.Valid, Tree.Valid, Cache.Agree, Recalls, Swept, Advances, Answer;
      wheel.Ticking();
      var events := wheel.Advance(now);
      expired := events;
      RecallsAfterSweep(store.contents, log, clock, old(wheel.pending), store.hasher, old(wheel.currentTick),
                        wheel.resolution, due, now, events, wheel.pending, wheel.currentTick);
      ExpireAll(events, now);
      AnswersStay(log, now);
      log := log + [WasSwept(now)];
      clock := now;
      SurvivorsAreAhead(store.contents, log, clock, wheel.pending, store.hasher, wheel.currentTick, wheel.resolution,
                        due);
    }

    // ----- the rest -----

    // Clear: nothing is stored, tracked, scheduled or listed any more.
    method Clear(now: nat)
      requires Valid() && clock <= now
      modifies this, store, store.shards, wheel, wheel.buckets, tree
      modifies policy.admit, policy.evict, policy.admit.freq.rows, policy.admit.door.bits
      ensures Valid() && clock == now && due == map[] && fresh(tree.root.repr - old(tree.root.repr))
      ensures store.contents == map[] && liveCost == 0 && policy.admit.exact == FRESH && log == old(log) + [WasCleared]
      ensures wheel.pending == multiset{} && wheel.resolution > 0 && wheel.currentTick == now / wheel.resolution
    {
      hide ShardedStore.Valid, Policer.Valid, Wheel.Valid, Tree.Valid, Cache.Lists, Recalls, Sum, CostOf, Shadow;
      wheel.Ticking();
      RecallsAfterClear<V>(log, store.hasher, wheel.resolution, now);
      ClearEntries();
      ClearIndexes(now);
      log := log + [WasCleared];
      clock := now;
      due := map[];
      assert store.contents.Keys == {};
    }

    // The half of Clear that empties store, policy and counter.
    method ClearEntries()
      requires store.Valid() && policy.Valid() && store.shards as object != policy.admit.door.bits as object
      modifies this`liveCost, store, store.shards
      modifies policy.admit, policy.evict, policy.admit.freq.rows, policy.admit.door.bits
      ensures store.Valid() && policy.Valid() && store.contents == map[] && policy.Tracking() == map[] && liveCost == 0
      ensures policy.admit.exact == FRESH
    {
      hide ShardedStore.Valid, Policer.Valid;
      store.Clear();
      policy.Clear();
      liveCost := 0;
    }

    // The half that empties wheel and tree.
    method ClearIndexes(now: nat)
      requires wheel.Valid() && tree.Valid()
      modifies wheel, wheel.buckets, tree
      ensures wheel.Valid() && wheel.pending == multiset{} && wheel.resolution > 0 &&
              wheel.currentTick == now / wheel.resolution
      ensures tree.Valid() && fresh(tree.root.repr - old(tree.root.repr)) && Lists({})
    {
      hide Wheel.Valid;
      wheel.Ticking();
      wheel.Clear(now);
      if prefixSearch {
        tree.Clear();
        NothingListed(store.hasher);
      }
    }

    // processReadBatch: replayed hits count towards frequencies and change nothing else.  The
    // lock-free policy takes them at once, the other one by one.
    method ProcessReadBatch(items: seq<Hash>)
      requires Valid()
      modifies policy.admit, policy.admit.freq.rows, policy.admit.door.bits
      ensures Valid()
      ensures policy.admit.exact ==
              if items != [] && policy.lockFree then ExactBatch(old(policy.admit.exact), items, policy.admit.resetAt)
              else ExactAfter(old(policy.admit.exact), items, policy.admit.resetAt)
      ensures items != [] && policy.lockFree ==>
                var aged := old(policy.admit.incrs) + |items| >= policy.admit.resetAt;
                && policy.admit.RecordedAll(items, aged)
                && policy.admit.incrs == if aged then 0 else old(policy.admit.incrs) + |items|
    {
      hide ShardedStore.Valid, Policer.Valid, Wheel.Valid, Tree.Valid, Recalls, ExactIncrement, ExactBatch;
      if items == [] { return; }
      if policy.lockFree {
        policy.AccessBatch(items);
        return;
      }
      for i := 0 to |items|
        invariant Valid()
        invariant policy.admit.exact == ExactAfter(old(policy.admit.exact), items[..i], policy.admit.resetAt)
      {
        policy.Access(items[i]);
        assert items[..i + 1][..i] == items[..i];
      }
      assert items[..|items|] == items;
    }

    // processWriteBatch: the items of a batch take effect one by one, in order.
    method ProcessWriteBatch(items: seq<WriteItem<V>>)
      requires Valid() && forall i :: 0 <= i < |items| ==> items[i].entry.keyHash == store.hasher(items[i].entry.key)
      modifies this, store, store.shards, wheel`pending, wheel.buckets, tree, tree.root.repr
      modifies policy.admit, policy.evict, policy.admit.freq.rows, policy.admit.door.bits
      ensures Valid() && clock == old(clock) && tree.root == old(tree.root) &&
              fresh(tree.root.repr - old(tree.root.repr))
      ensures |log| == |old(log)| + |items| && log[..|old(log)|] == old(log)
      ensures forall i :: 0 <= i < |items| ==> Records(log[|old(log)| + i], items[i])
    {
      hide Cache.Valid;
      for i := 0 to |items|
        invariant Valid() && clock == old(clock) && tree.root == old(tree.root) &&
                  fresh(tree.root.repr - old(tree.root.repr))
        invariant |log| == |old(log)| + i && log[..|old(log)|] == old(log)
        invariant forall j :: 0 <= j < i ==> Records(log[|old(log)| + j], items[j])
      {
        ProcessWrite(items[i]);
      }
    }

    // One item of processWriteBatch.
    method ProcessWrite(item: WriteItem<V>)
      requires Valid() && item.entry.keyHash == store.hasher(item.entry.key)
      modifies this, store, store.shards, wheel`pending, wheel.buckets, tree, tree.root.repr
      modifies policy.admit, policy.evict, policy.admit.freq.rows, policy.admit.door.bits
      ensures Valid() && clock == old(clock) && tree.root == old(tree.root) &&
              fresh(tree.root.repr - old(tree.root.repr))
      ensures |log| == |old(log)| + 1 && log[..|old(log)|] == old(log) && Records(log[|old(log)|], item)
    {
      hide Cache.Valid, Watched, KeysOf, Chosen, DueAfter, Cache.NoHotter;
      var entry := item.entry;
      if item.isSet {
        var _, _ := SetSync(entry.key, entry.value, entry.keyHash, entry.cost, entry.expireAt);
      } else {
        var _ := DoDelete(entry.key, entry.keyHash);
      }
    }
  }

  // The history entry a buffered write leaves behind.
  ghost predicate Records<V>(p: Past<V>, item: WriteItem<V>) {
    if item.isSet
      then p.WasSet? && p.key == item.entry.key && p.value == item.entry.value && p.expireAt == item.entry.expireAt
    else p == WasDeleted(item.entry.key)
  }

  // How long a value is read, by the time to live it was set with.
  lemma LifeTime<V(!new)>(log: seq<Past<V>>, key: Str, value: V, expireAt: int, victims: set<Str>,
                          now: nat, ttl: int, defaultTTL: int)
    requires expireAt == Deadline(now, ttl, defaultTTL)
    ensures forall rest, t :: Spares(rest, key) ==>
              var r := Answer(log + [WasSet(key, value, expireAt, victims)] + rest, key, t);
              && (ttl > 0 ==> r == if t <= now + ttl then Some(value) else None)
              && (ttl <= 0 < defaultTTL ==> r == if t <= now + defaultTTL then Some(value) else None)
              && (ttl <= 0 && defaultTTL <= 0 ==> r == Some(value))
  {
    hide Answer, Spares;
    forall rest, t | Spares(rest, key)
      ensures Answer(log + [WasSet(key, value, expireAt, victims)] + rest, key, t) ==
              if 0 < expireAt < t then None else Some(value)
    {
      SetIsRead(log, key, value, expireAt, victims, rest, t);
    }
  }

  // A time to live of zero or less asks for the default, and without one for no limit.
  function Deadline(now: int, ttl: int, defaultTTL: int): int {
    if ttl > 0 then now + ttl else if defaultTTL > 0 then now + defaultTTL else 0
  }

  function Price<V>(cost: int, value: V, costFunc: Option<V -> int>): int {
    if cost > 0 then cost else if costFunc.Some? then costFunc.value(value) else 1
  }

  lemma NothingSwept<V>(contents: map<Str, Entry<V>>, events: seq<Event<Str>>, now: int)
    ensures Swept(contents, events[..0], now) == contents
  {
  }

  // Victims of a newcomer: distinct stored keys, each taken while what was then tracked was
  // over a limit.
  ghost predicate Chosen<V>(contents: map<Str, Entry<V>>, victims: seq<Victim<Str>>, maxCost: int, maxEntries: int) {
    VictimsOk(Shadow(contents), victims) && NeededInTurn(Shadow(contents), victims, maxCost, maxEntries)
  }

  lemma NobodyChosen<V>(contents: map<Str, Entry<V>>, maxCost: int, maxEntries: int)
    ensures Chosen(contents, [], maxCost, maxEntries) && KeysOf<Str>([]) == {} && contents - KeysOf<Str>([]) == contents
  {
  }

  // Victims of a policy that tracks the contents are stored, under the store's own hash.
  lemma VictimsAreStored<V>(contents: map<Str, Entry<V>>, hasher: Str -> Hash, victims: seq<Victim<Str>>)
    requires Keyed(contents, hasher) && VictimsOk(Shadow(contents), victims)
    ensures KeysOf(victims) <= contents.Keys && (victims == [] ==> KeysOf(victims) == {})
    ensures forall i :: 0 <= i < |victims| ==> victims[i].keyHash == hasher(victims[i].key)
  {
  }

  lemma NoneEvicted<V>(contents: map<Str, Entry<V>>, victims: seq<Victim<Str>>)
    ensures contents - KeysOf(victims[..0]) == contents
  {
  }

  lemma OneMoreEvicted<V>(contents: map<Str, Entry<V>>, victims: seq<Victim<Str>>, i: nat)
    requires i < |victims|
    ensures contents - KeysOf(victims[..i + 1]) == contents - KeysOf(victims[..i]) - {victims[i].key}
  {
    var before, after := victims[..i], victims[..i + 1];
    forall k ensures k in KeysOf(after) <==> k in KeysOf(before) || k == victims[i].key {
      if k in KeysOf(before) {
        var j :| 0 <= j < |before| && before[j].key == k;
        assert after[j].key == k;
      }
      if k == victims[i].key { assert after[i].key == k; }
    }
  }

  lemma SameSize<A, B>(m: map<Str, A>, n: map<Str, B>)
    requires m.Keys == n.Keys
    ensures |m| == |n|
  {
    assert |m| == |m.Keys| && |n| == |n.Keys|;
  }
}
