// Sampled LFU: the tracked keys with their costs, in a map and in a dense array that
// deletion keeps dense by moving the last key into the hole.
module SampledLfu {
  import opened Common

  datatype Tracked = Tracked(keyHash: Hash, cost: int)

  datatype Victim<K> = Victim(key: K, keyHash: Hash)

  function Costs<K>(m: map<K, Tracked>): map<K, int> {
    map k | k in m :: m[k].cost
  }

  // Over the limit on cost or on number; a limit of zero or less is none.
  ghost predicate OverLimit<K>(m: map<K, Tracked>, maxCost: int, maxEntries: int) {
    (maxCost > 0 && Sum(Costs(m)) > maxCost) || (maxEntries > 0 && |m| > maxEntries)
  }

  // The number of keys sampled from n tracked ones.
  function AdaptiveSampleSize(n: nat): nat {
    if n < 100 then n else if n < 1000 then 10 else if n < 10000 then 15 else 20
  }

  lemma TotalAfterPut<K>(m: map<K, Tracked>, key: K, t: Tracked)
    ensures Sum(Costs(m[key := t])) == Sum(Costs(m)) + t.cost - (if key in m then m[key].cost else 0)
    ensures |m[key := t]| == |m| + (if key in m then 0 else 1)
  {
    hide Sum;
    SumPut(Costs(m), key, t.cost);
    CostsPut(m, key, t);
    SizeAfterPut(m, key, t);
  }

  lemma CostsPut<K>(m: map<K, Tracked>, key: K, t: Tracked)
    ensures Costs(m[key := t]) == Costs(m)[key := t.cost]
  {
  }

  lemma SizeAfterPut<K, V>(m: map<K, V>, key: K, v: V)
    ensures |m[key := v]| == |m| + (if key in m then 0 else 1)
  {
    assert m[key := v].Keys == m.Keys + {key};
  }

  lemma TotalAfterRemove<K>(m: map<K, Tracked>, key: K)
    requires key in m
    ensures Sum(Costs(m - {key})) == Sum(Costs(m)) - m[key].cost
    ensures |m - {key}| == |m| - 1
  {
    hide Sum;
    SumRemove(Costs(m), key);
    assert Costs(m - {key}) == Costs(m) - {key};
    assert m.Keys == (m - {key}).Keys + {key};
  }

  // An array and an index that are inverse to each other.
  ghost predicate Dense<K(!new)>(keys: seq<K>, keyIndex: map<K, nat>) {
    && (forall i :: 0 <= i < |keys| ==> keys[i] in keyIndex && keyIndex[keys[i]] == i)
    && (forall k :: k in keyIndex ==> keyIndex[k] < |keys| && keys[keyIndex[k]] == k)
  }

  lemma DenseAppend<K(!new)>(keys: seq<K>, keyIndex: map<K, nat>, key: K)
    requires Dense(keys, keyIndex) && key !in keyIndex
    ensures Dense(keys + [key], keyIndex[key := |keys|])
  {
  }

  // Swap-delete: the last key moves into the hole.
  lemma DenseSwapDelete<K(!new)>(keys: seq<K>, keyIndex: map<K, nat>, key: K)
    requires Dense(keys, keyIndex) && key in keyIndex
    ensures var last, idx := |keys| - 1, keyIndex[key];
      && (idx != last ==> Dense(keys[idx := keys[last]][..last], keyIndex[keys[last] := idx] - {key}))
      && (idx == last ==> Dense(keys[..last], keyIndex - {key}))
      && (keyIndex[keys[last] := idx] - {key}).Keys == keyIndex.Keys - {key}
  {
  }

  // A sample of a map of tracked keys: distinct keys of it, each with its hash.
  ghost predicate SampleOf<K(!new)>(sample: seq<Victim<K>>, tracked: map<K, Tracked>) {
    && |sample| == AdaptiveSampleSize(|tracked|)
    && (forall i :: 0 <= i < |sample| ==>
       sample[i].key in tracked && sample[i].keyHash == tracked[sample[i].key].keyHash)
    && (forall i, j :: 0 <= i < j < |sample| ==> sample[i].key != sample[j].key)
  }

  class SampledLFU<K(==,!new)> {
    var costs: map<K, Tracked>
    var keys: seq<K>
    var keyIndex: map<K, nat>
    var maxCost: int
    var usedCost: int
    var maxEntries: int
    var numEntries: int

    ghost predicate Valid()
      reads this
    {
      && Dense(keys, keyIndex) && keyIndex.Keys == costs.Keys
      && numEntries == |keys| == |costs|
      && usedCost == Sum(Costs(costs))
    }

    constructor (maxCost: int, maxEntries: int)
      ensures Valid() && costs == map[] && this.maxCost == maxCost && this.maxEntries == maxEntries
    {
      costs, keys, keyIndex := map[], [], map[];
      this.maxCost, this.maxEntries := maxCost, maxEntries;
      usedCost, numEntries := 0, 0;
      new;
      assert Costs(costs) == map[];
    }

    method Add(key: K, keyHash: Hash, cost: int)
      requires Valid()
      modifies this`costs, this`keys, this`keyIndex, this`usedCost, this`numEntries
      ensures Valid() && costs == old(costs)[key := Tracked(keyHash, cost)]
    {
      TotalAfterPut(costs, key, Tracked(keyHash, cost));
      if key in costs {
        usedCost := usedCost + (cost - costs[key].cost);
        costs := costs[key := Tracked(keyHash, cost)];
        return;
      }
      DenseAppend(keys, keyIndex, key);
      costs := costs[key := Tracked(keyHash, cost)];
      keyIndex := keyIndex[key := |keys|];
      keys := keys + [key];
      usedCost := usedCost + cost;
      numEntries := numEntries + 1;
    }

    method Del(key: K)
      requires Valid()
      modifies this`costs, this`keys, this`keyIndex, this`usedCost, this`numEntries
      ensures Valid() && costs == old(costs) - {key}
      ensures key !in old(costs) ==> keys == old(keys)
      ensures |keys| == |old(keys)| - (if key in old(costs) then 1 else 0)
    {
      if key !in costs { return; }
      TotalAfterRemove(costs, key);
      usedCost := usedCost - costs[key].cost;
      numEntries := numEntries - 1;
      costs := costs - {key};
      SwapDelete(key);
    }

    // Swap-delete from the dense array.
    method SwapDelete(key: K)
      requires Dense(keys, keyIndex) && key in keyIndex
      modifies this`keys, this`keyIndex
      ensures Dense(keys, keyIndex) && keyIndex.Keys == old(keyIndex).Keys - {key} && |keys| == |old(keys)| - 1
    {
      DenseSwapDelete(keys, keyIndex, key);
      var idx := keyIndex[key];
      var last := |keys| - 1;
      if idx != last {
        keys := keys[idx := keys[last]];
        keyIndex := keyIndex[keys[idx] := idx];
      }
      keys := keys[..last];
      keyIndex := keyIndex - {key};
    }

    method Update(key: K, keyHash: Hash, cost: int)
      requires Valid()
      modifies this`costs, this`usedCost
      ensures Valid()
      ensures costs == if key in old(costs) then old(costs)[key := Tracked(keyHash, cost)] else old(costs)
    {
      if key in costs {
        TotalAfterPut(costs, key, Tracked(keyHash, cost));
        usedCost := usedCost + (cost - costs[key].cost);
        costs := costs[key := Tracked(keyHash, cost)];
      }
    }

    method Clear()
      modifies this`costs, this`keys, this`keyIndex, this`usedCost, this`numEntries
      ensures Valid() && costs == map[] && !NeedsEviction()
    {
      costs, keys, keyIndex := map[], [], map[];
      usedCost, numEntries := 0, 0;
      assert Costs(costs) == map[];
    }

    predicate NeedsEviction()
      reads this
    {
      (maxCost > 0 && usedCost > maxCost) || (maxEntries > 0 && numEntries > maxEntries)
    }

    // The counters tell whether the tracked keys are over a limit.
    lemma EvictionMeansOver()
      requires Valid()
      ensures NeedsEviction() <==> OverLimit(costs, maxCost, maxEntries)
    {
    }

    // Nothing tracked, nothing to evict.
    lemma EvictionNeedsKeys()
      requires Valid() && NeedsEviction()
      ensures keys != []
    {
      assert |costs| == 0 ==> Costs(costs) == map[];
    }

    // All keys when they are few; otherwise keys at random positions, none twice.  The draw
    // that retries until it meets a fresh position is any fresh position here.
    method Sample() returns (sample: seq<Victim<K>>)
      requires Valid()
      ensures SampleOf(sample, costs)
      ensures |sample| ==
              if |costs| < 100 then |costs| else if |costs| < 1000 then 10 else if |costs| < 10000 then 15 else 20
      ensures |costs| < 100 ==> forall k :: k in costs ==> Victim(k, costs[k].keyHash) in sample
    {
      var n := AdaptiveSampleSize(|keys|);
      sample := [];
      if |keys| <= n {
        for i := 0 to |keys|
          invariant |sample| == i
          invariant forall j :: 0 <= j < i ==> sample[j] == Victim(keys[j], costs[keys[j]].keyHash)
        {
          sample := sample + [Victim(keys[i], costs[keys[i]].keyHash)];
        }
        forall k | k in costs ensures Victim(k, costs[k].keyHash) in sample {
          assert sample[keyIndex[k]] == Victim(k, costs[k].keyHash);
        }
        return;
      }
      var seen: set<nat> := {};
      while |sample| < n
        invariant |sample| == |seen| <= n
        invariant forall x :: x in seen ==> x < |keys|
        invariant forall i :: 0 <= i < |sample| ==>
                    sample[i].key in costs && sample[i].keyHash == costs[sample[i].key].keyHash &&
                      keyIndex[sample[i].key] in seen
        invariant forall i, j :: 0 <= i < j < |sample| ==> sample[i].key != sample[j].key
        decreases n - |sample|
      {
        FreshPosition(seen, |keys|);
        var idx: nat :| idx < |keys| && idx !in seen;
        seen := seen + {idx};
        var key := keys[idx];
        sample := sample + [Victim(key, costs[key].keyHash)];
      }
    }
  }

  lemma {:induction false} FreshPosition(seen: set<nat>, n: nat)
    requires |seen| < n
    ensures exists i: nat :: i < n && i !in seen
    decreases n
  {
    if n - 1 in seen {
      FreshPosition(seen - {n - 1}, n - 1);
      var i: nat :| i < n - 1 && i !in seen - {n - 1};
      assert i < n && i !in seen;
    } else {
      assert n - 1 < n && n - 1 !in seen;
    }
  }
}
