// The eviction policy: TinyLFU admission over sampled eviction, and the loop that picks
// victims for a newcomer.
module Policy {
  import opened Common
  import opened Sketch
  import opened Bloom
  import opened TinyLfu
  import opened SampledLfu

  class Policer<K(==,!new)> {
    const admit: TinyLFU
    const evict: SampledLFU<K>
    const lockFree: bool  // the variant that takes a batch of hits at once

    ghost function Repr(): set<object>
      reads {}
    {
      {this, admit, evict, admit.freq.rows, admit.door.bits}
    }

    ghost predicate Valid()
      reads this, admit, evict, admit.freq.rows, admit.door.bits
    {
      admit.Valid() && evict.Valid()
    }

    // The keys tracked, with hash and cost.
    ghost function Tracking(): map<K, Tracked>
      reads this, evict
    {
      evict.costs
    }

    constructor (admit: TinyLFU, evict: SampledLFU<K>, lockFree: bool)
      requires admit.Valid() && evict.Valid()
      ensures Valid() && this.admit == admit && this.evict == evict && this.lockFree == lockFree
    {
      this.lockFree := lockFree;
      this.admit := admit;
      this.evict := evict;
    }

    lemma InShape()
      requires Valid()
      ensures admit.Shape()
    {
    }

    ghost predicate WithinLimits()
      reads evict
    {
      !evict.NeedsEviction()
    }

    // Within the limits, but for one item of the given cost.
    ghost predicate WouldFit(cost: int)
      reads evict
    {
      (evict.maxCost <= 0 || evict.usedCost - cost <= evict.maxCost) &&
        (evict.maxEntries <= 0 || evict.numEntries - 1 <= evict.maxEntries)
    }

    // Every key sampled last was strictly hotter than the newcomer.
    ghost predicate AllHotter(sample: seq<Victim<K>>, incoming: Hash)
      requires admit.Shape()
      reads admit.freq.rows, admit.door.bits
    {
      |sample| > 0 && forall i :: 0 <= i < |sample| ==> admit.EstimateOf(incoming) < admit.EstimateOf(sample[i].keyHash)
    }

    // No hotter than anything else in the sample it came from.
    ghost predicate ColdestOf(victim: Victim<K>, sample: seq<Victim<K>>)
      requires admit.Shape()
      reads admit.freq.rows, admit.door.bits
    {
      victim in sample && forall i :: 0 <= i < |sample| ==>
        admit.EstimateOf(victim.keyHash) <= admit.EstimateOf(sample[i].keyHash)
    }

    // Each victim was the coldest of a sample of what was tracked when its turn came.
    ghost predicate PickedInTurn(tracked: map<K, Tracked>, victims: seq<Victim<K>>, samples: seq<seq<Victim<K>>>)
      requires admit.Shape()
      reads admit.freq.rows, admit.door.bits
    {
      && |samples| == |victims|
      && forall i :: 0 <= i < |victims| ==>
         SampleOf(samples[i], tracked - KeysOf(victims[..i])) && ColdestOf(victims[i], samples[i])
    }

    lemma PickedNext(tracked: map<K, Tracked>, victims: seq<Victim<K>>, samples: seq<seq<Victim<K>>>, v: Victim<K>,
                     sample: seq<Victim<K>>)
      requires admit.Shape() && PickedInTurn(tracked, victims, samples)
      requires SampleOf(sample, tracked - KeysOf(victims)) && ColdestOf(v, sample)
      ensures PickedInTurn(tracked, victims + [v], samples + [sample])
    {
      hide SampleOf, Policer.ColdestOf;
      var vs := victims + [v];
      assert vs[..|victims|] == victims;
      forall i | 0 <= i < |victims| ensures vs[..i] == victims[..i] { }
    }

    // With fewer than a hundred keys each victim is the coldest of all that were tracked when
    // its turn came.
    lemma ColdestOfAll(tracked: map<K, Tracked>, victims: seq<Victim<K>>, samples: seq<seq<Victim<K>>>)
      requires admit.Shape() && PickedInTurn(tracked, victims, samples) && |tracked| < 100
      ensures forall i, k :: 0 <= i < |victims| && k in tracked - KeysOf(victims[..i]) ==>
                admit.EstimateOf(victims[i].keyHash) <= admit.EstimateOf(tracked[k].keyHash)
    {
      hide SampleOf, TinyLFU.EstimateOf, KeysOf;
      forall i, k | 0 <= i < |victims| && k in tracked - KeysOf(victims[..i])
        ensures admit.EstimateOf(victims[i].keyHash) <= admit.EstimateOf(tracked[k].keyHash)
      {
        var rest := tracked - KeysOf(victims[..i]);
        SubsetSize(rest.Keys, tracked.Keys);
        SampleIsAll(samples[i], rest);
        assert Victim(k, rest[k].keyHash) in samples[i];
      }
    }

    // The coldest of a sample: the first with the least estimate.
    method Coldest(sample: seq<Victim<K>>) returns (victim: Victim<K>)
      requires Valid() && |sample| > 0
      ensures ColdestOf(victim, sample)
    {
      hide Mix, Probe, BitOf, TinyLFU.Above, TinyLFU.Sharp, TinyLFU.EstimateOf, Sum, Dense;
      victim := sample[0];
      var lowestFreq := admit.Estimate(victim.keyHash);
      for i := 1 to |sample|
        invariant victim in sample && lowestFreq == admit.EstimateOf(victim.keyHash)
        invariant forall j :: 0 <= j < i ==> lowestFreq <= admit.EstimateOf(sample[j].keyHash)
      {
        var freq := admit.Estimate(sample[i].keyHash);
        if freq < lowestFreq {
          lowestFreq := freq;
          victim := sample[i];
        }
      }
    }

    // Victims are distinct tracked keys, none hotter than the newcomer; eviction stops
    // within the limits or at a sample that is hotter throughout.
    method FindVictims(incoming: Hash)
      returns (victims: seq<Victim<K>>, ghost samples: seq<seq<Victim<K>>>, ghost sample: seq<Victim<K>>)
      requires Valid()
      modifies evict
      ensures Valid() && evict.maxCost == old(evict.maxCost) && evict.maxEntries == old(evict.maxEntries)
      ensures Tracking() == old(Tracking()) - KeysOf(victims)
      ensures VictimsOk(old(Tracking()), victims) && PickedInTurn(old(Tracking()), victims, samples)
      ensures forall i :: 0 <= i < |victims| ==> admit.EstimateOf(victims[i].keyHash) <= admit.EstimateOf(incoming)
      ensures NeededInTurn(old(Tracking()), victims, evict.maxCost, evict.maxEntries)
      ensures WithinLimits() || (SampleOf(sample, Tracking()) && AllHotter(sample, incoming))
    {
      hide Mix, Probe, BitOf, TinyLFU.Above, TinyLFU.Sharp, TinyLFU.EstimateOf, SampledLFU.Valid,
           SampledLFU.NeedsEviction,
           SampleOf, VictimsOk, KeysOf, Policer.ColdestOf, OverLimit;
      victims := [];
      samples := [];
      sample := [];
      NoVictims(Tracking());
      while evict.NeedsEviction()
        invariant Valid() && evict.maxCost == old(evict.maxCost) && evict.maxEntries == old(evict.maxEntries)
        invariant Tracking() == old(Tracking()) - KeysOf(victims)
        invariant VictimsOk(old(Tracking()), victims) && PickedInTurn(old(Tracking()), victims, samples)
        invariant NeededInTurn(old(Tracking()), victims, evict.maxCost, evict.maxEntries)
        invariant forall i :: 0 <= i < |victims| ==> admit.EstimateOf(victims[i].keyHash) <= admit.EstimateOf(incoming)
        decreases |evict.keys|
      {
        var evicted, victim;
        evict.EvictionMeansOver();
        evicted, victim, sample := EvictOne(incoming);
        if !evicted { return; }
        VictimAdded(old(Tracking()), victims, victim);
        PickedNext(old(Tracking()), victims, samples, victim, sample);
        NeededNext(old(Tracking()), victims, victim, evict.maxCost, evict.maxEntries);
        samples := samples + [sample];
        victims := victims + [victim];
      }
    }

    // One iteration: the coldest of a fresh sample goes, unless it is hotter than the newcomer.
    method EvictOne(incoming: Hash) returns (evicted: bool, victim: Victim<K>, ghost sample: seq<Victim<K>>)
      requires Valid() && evict.NeedsEviction()
      modifies evict
      ensures Valid() && evict.maxCost == old(evict.maxCost) && evict.maxEntries == old(evict.maxEntries)
      ensures SampleOf(sample, old(Tracking())) && ColdestOf(victim, sample)
      ensures victim.key in old(Tracking()) && victim.keyHash == old(Tracking())[victim.key].keyHash
      ensures !evicted ==> AllHotter(sample, incoming) && Tracking() == old(Tracking())
      ensures evicted ==> admit.EstimateOf(victim.keyHash) <= admit.EstimateOf(incoming)
      ensures evicted ==> Tracking() == old(Tracking()) - {victim.key} && |evict.keys| < |old(evict.keys)|
    {
      hide Mix, Probe, BitOf, TinyLFU.Above, TinyLFU.Sharp, TinyLFU.EstimateOf, Sum, Dense;
      evict.EvictionNeedsKeys();
      var drawn := evict.Sample();
      sample := drawn;
      victim := Coldest(drawn);
      evicted := admit.Admit(incoming, victim.keyHash);
      if evicted { evict.Del(victim.key); }
    }

    // Add: always accepts; an untracked key may cost tracked ones their place.
    method Add(key: K, keyHash: Hash, cost: int)
      returns (victims: seq<Victim<K>>, added: bool, ghost samples: seq<seq<Victim<K>>>, ghost sample: seq<Victim<K>>)
      requires Valid()
      modifies Repr() - {this}
      ensures Valid() && added && evict.maxCost == old(evict.maxCost) && evict.maxEntries == old(evict.maxEntries)
      ensures (key in old(Tracking()) ==> victims == []) &&
              NeededInTurn(old(Tracking()), victims, evict.maxCost, evict.maxEntries)
      ensures VictimsOk(old(Tracking()), victims) && PickedInTurn(old(Tracking()), victims, samples)
      ensures Tracking() == (old(Tracking()) - KeysOf(victims))[key := Tracked(keyHash, cost)]
      ensures forall i :: 0 <= i < |victims| ==> admit.EstimateOf(victims[i].keyHash) <= admit.EstimateOf(keyHash)
      ensures admit.exact == ExactIncrement(old(admit.exact), keyHash, admit.resetAt)
      ensures admit.Recorded(keyHash, old(admit.incrs) + 1 >= admit.resetAt)
      // Not over the limits before the newcomer came in, or stopped by hotter keys.
      ensures key !in old(Tracking()) ==>
                || ((evict.maxCost <= 0 || evict.usedCost - cost <= evict.maxCost)
                    && (evict.maxEntries <= 0 || evict.numEntries - 1 <= evict.maxEntries))
                || (SampleOf(sample, old(Tracking()) - KeysOf(victims)) && sample != [] &&
                    forall i :: 0 <= i < |sample| ==> admit.EstimateOf(keyHash) < admit.EstimateOf(sample[i].keyHash))
    {
      hide Mix, Probe, BitOf, TinyLFU.Above, TinyLFU.Sharp, TinyLFU.EstimateOf, TinyLFU.Recorded, Sum, Dense,
           ExactIncrement,
           KeysOf, SampleOf, VictimsOk, AdaptiveSampleSize;
      admit.Increment(keyHash);
      sample := [];
      if key in evict.costs {
        evict.Update(key, keyHash, cost);
        NoVictims(old(Tracking()));
        return [], true, [], sample;
      }
      victims, samples, sample := AddNew(key, keyHash, cost);
      added := true;
    }

    // Add, for a key not tracked: make room, then track it.
    method AddNew(key: K, keyHash: Hash, cost: int)
      returns (victims: seq<Victim<K>>, ghost samples: seq<seq<Victim<K>>>, ghost sample: seq<Victim<K>>)
      requires Valid() && key !in Tracking()
      modifies evict
      ensures Valid() && evict.maxCost == old(evict.maxCost) && evict.maxEntries == old(evict.maxEntries)
      ensures VictimsOk(old(Tracking()), victims) && PickedInTurn(old(Tracking()), victims, samples)
      ensures Tracking() == (old(Tracking()) - KeysOf(victims))[key := Tracked(keyHash, cost)]
      ensures forall i :: 0 <= i < |victims| ==> admit.EstimateOf(victims[i].keyHash) <= admit.EstimateOf(keyHash)
      ensures NeededInTurn(old(Tracking()), victims, evict.maxCost, evict.maxEntries)
      ensures WouldFit(cost) || (AllHotter(sample, keyHash) && SampleOf(sample, old(Tracking()) - KeysOf(victims)))
    {
      hide Mix, Probe, BitOf, TinyLFU.Above, TinyLFU.Sharp, TinyLFU.EstimateOf, Sum, Dense, KeysOf, SampleOf, VictimsOk,
           AdaptiveSampleSize, Policer.PickedInTurn, Policer.AllHotter, NeededInTurn;
      victims, samples, sample := FindVictims(keyHash);
      TotalAfterPut(evict.costs, key, Tracked(keyHash, cost));
      evict.Add(key, keyHash, cost);
    }

    // Access: a hit counts towards the key's frequency and touches nothing tracked.
    method Access(keyHash: Hash)
      requires Valid()
      modifies admit, admit.freq.rows, admit.door.bits
      ensures Valid() && admit.exact == ExactIncrement(old(admit.exact), keyHash, admit.resetAt)
      ensures admit.Recorded(keyHash, old(admit.incrs) + 1 >= admit.resetAt)
    {
      hide Mix, Probe, BitOf, TinyLFU.Above, TinyLFU.Sharp, TinyLFU.Recorded, Sum, Dense, ExactIncrement;
      admit.Increment(keyHash);
    }

    // AccessBatch: ageing at most once, at the end of the batch.
    method AccessBatch(keyHashes: seq<Hash>)
      requires Valid()
      modifies admit, admit.freq.rows, admit.door.bits
      ensures Valid() && admit.exact == ExactBatch(old(admit.exact), keyHashes, admit.resetAt)
      ensures admit.RecordedAll(keyHashes, old(admit.incrs) + |keyHashes| >= admit.resetAt)
      ensures admit.incrs ==
              if old(admit.incrs) + |keyHashes| >= admit.resetAt then 0 else old(admit.incrs) + |keyHashes|
    {
      hide Mix, Probe, BitOf, TinyLFU.Above, TinyLFU.Sharp, TinyLFU.RecordedAll, Sum, Dense, ExactBatch;
      admit.IncrementBatch(keyHashes);
    }

    method Clear()
      requires Valid()
      modifies Repr() - {this}
      ensures Valid() && Tracking() == map[] && WithinLimits() && admit.exact == FRESH && admit.Blank()
      ensures evict.maxCost == old(evict.maxCost) && evict.maxEntries == old(evict.maxEntries)
    {
      hide Mix, Probe, BitOf, TinyLFU.Above, TinyLFU.Sharp, TinyLFU.Blank, Sum, Dense;
      admit.Clear();
      evict.Clear();
    }

    method Del(key: K)
      requires Valid()
      modifies evict
      ensures Valid() && Tracking() == old(Tracking()) - {key}
      ensures evict.maxCost == old(evict.maxCost) && evict.maxEntries == old(evict.maxEntries)
    {
      evict.Del(key);
    }

    method Update(key: K, keyHash: Hash, cost: int)
      requires Valid()
      modifies evict
      ensures Valid() && evict.maxCost == old(evict.maxCost) && evict.maxEntries == old(evict.maxEntries)
      ensures Tracking() == if key in old(Tracking()) then old(Tracking())[key := Tracked(keyHash, cost)]
              else old(Tracking())
    {
      evict.Update(key, keyHash, cost);
    }
  }

  function KeysOf<K(==)>(victims: seq<Victim<K>>): set<K> {
    set i | 0 <= i < |victims| :: victims[i].key
  }

  // Distinct keys tracked before, each with the hash it was tracked under.
  ghost predicate VictimsOk<K(!new)>(tracked: map<K, Tracked>, victims: seq<Victim<K>>) {
    && (forall i :: 0 <= i < |victims| ==>
       victims[i].key in tracked && tracked[victims[i].key].keyHash == victims[i].keyHash)
    && (forall i, j :: 0 <= i < j < |victims| ==> victims[i].key != victims[j].key)
  }

  // Each victim was still needed when its turn came: the keys tracked then were over a limit.
  ghost predicate NeededInTurn<K(!new)>(tracked: map<K, Tracked>, victims: seq<Victim<K>>, maxCost: int,
                                        maxEntries: int) {
    forall i :: 0 <= i < |victims| ==> OverLimit(tracked - KeysOf(victims[..i]), maxCost, maxEntries)
  }

  // In the limits' own terms; so there are none when nothing was over its limit to begin with.
  lemma NeededMeansOver<K(!new)>(tracked: map<K, Tracked>, victims: seq<Victim<K>>, maxCost: int, maxEntries: int)
    requires NeededInTurn(tracked, victims, maxCost, maxEntries)
    ensures forall i :: 0 <= i < |victims| ==>
              var rest := tracked - KeysOf(victims[..i]);
              (maxCost > 0 && Sum(Costs(rest)) > maxCost) || (maxEntries > 0 && |rest| > maxEntries)
    ensures victims != [] ==>
              (maxCost > 0 && Sum(Costs(tracked)) > maxCost) || (maxEntries > 0 && |tracked| > maxEntries)
  {
    hide Sum;
    if victims != [] { assert victims[..0] == [] && tracked - KeysOf(victims[..0]) == tracked; }
  }

  // A sample of few keys is all of them.
  lemma {:induction false} SampleIsAll<K(!new)>(sample: seq<Victim<K>>, tracked: map<K, Tracked>)
    requires SampleOf(sample, tracked) && |tracked| < 100
    ensures forall k :: k in tracked ==> Victim(k, tracked[k].keyHash) in sample
  {
    var keys := set i | 0 <= i < |sample| :: sample[i].key;
    DistinctKeys(sample);
    if exists k :: k in tracked && k !in keys {
      var k :| k in tracked && k !in keys;
      assert keys <= tracked.Keys - {k};
      SubsetSize(keys, tracked.Keys - {k});
    }
  }

  lemma {:induction false} DistinctKeys<K(!new)>(sample: seq<Victim<K>>)
    requires forall i, j :: 0 <= i < j < |sample| ==> sample[i].key != sample[j].key
    ensures |set i | 0 <= i < |sample| :: sample[i].key| == |sample|
  {
    if sample != [] {
      var n := |sample| - 1;
      DistinctKeys(sample[..n]);
      var all, rest := (set i | 0 <= i < |sample| :: sample[i].key), (set i | 0 <= i < n :: sample[..n][i].key);
      assert all == rest + {sample[n].key};
    }
  }

  lemma {:induction false} SubsetSize<K>(a: set<K>, b: set<K>)
    requires a <= b
    ensures |a| <= |b|
  {
    if a != {} {
      var x :| x in a;
      SubsetSize(a - {x}, b - {x});
    }
  }

  lemma NeededNext<K(!new)>(tracked: map<K, Tracked>, victims: seq<Victim<K>>, v: Victim<K>, maxCost: int,
                            maxEntries: int)
    requires NeededInTurn(tracked, victims, maxCost, maxEntries) &&
             OverLimit(tracked - KeysOf(victims), maxCost, maxEntries)
    ensures NeededInTurn(tracked, victims + [v], maxCost, maxEntries)
  {
    hide OverLimit, KeysOf;
    var vs := victims + [v];
    assert vs[..|victims|] == victims;
    forall i | 0 <= i < |victims| ensures vs[..i] == victims[..i] { }
  }

  lemma NoVictims<K(!new)>(tracked: map<K, Tracked>)
    ensures VictimsOk(tracked, []) && tracked - KeysOf([]) == tracked
  {
  }

  lemma VictimAdded<K(!new)>(tracked: map<K, Tracked>, victims: seq<Victim<K>>, v: Victim<K>)
    requires VictimsOk(tracked, victims)
    requires v.key in tracked - KeysOf(victims) && tracked[v.key].keyHash == v.keyHash
    ensures VictimsOk(tracked, victims + [v])
    ensures tracked - KeysOf(victims) - {v.key} == tracked - KeysOf(victims + [v])
  {
    assert KeysOf(victims + [v]) == KeysOf(victims) + {v.key} by {
      forall k | k in KeysOf(victims) + {v.key} ensures k in KeysOf(victims + [v]) {
        if k in KeysOf(victims) {
          var i :| 0 <= i < |victims| && victims[i].key == k;
          assert (victims + [v])[i].key == k;
        } else {
          assert (victims + [v])[|victims|].key == k;
        }
      }
    }
  }
}
