// Buffered writes end to end: pushes claim tickets in the ring, the flush loop hands batches
// to processWriteBatch, sweeps run in between, and reads see the history that results.
module Buffered {
  import opened Common
  import opened CacheSpec
  import opened Cache
  import Ring

  // The writes of a history: all but the sweeps.
  function Writes<V>(log: seq<Past<V>>): seq<Past<V>> {
    if log == [] then []
    else
      var n := |log| - 1;
      if log[n].WasSwept? then Writes(log[..n]) else Writes(log[..n]) + [log[n]]
  }

  // A history grown from nothing: every entry is a sweep's, or that of the next write
  // (Cache.ProcessWrite, Cache.RemoveExpired).  Sweeps come at any time, also within a batch.
  ghost predicate Grown<V(!new)>(items: seq<Option<WriteItem<V>>>, log: seq<Past<V>>)
    decreases |log|
  {
    var n, m := |items| - 1, |log| - 1;
    || (items == [] && log == [])
    || (log != [] && log[m].WasSwept? && Grown(items, log[..m]))
    || (log != [] && items != [] && items[n].Some? && Records(log[m], items[n].value) && Grown(items[..n], log[..m]))
  }

  lemma GrowsByWrite<V(!new)>(items: seq<Option<WriteItem<V>>>, log: seq<Past<V>>, item: WriteItem<V>, p: Past<V>)
    requires Grown(items, log) && Records(p, item)
    ensures Grown(items + [Some(item)], log + [p])
  {
    assert (items + [Some(item)])[..|items|] == items && (log + [p])[..|log|] == log;
  }

  lemma GrowsBySweep<V(!new)>(items: seq<Option<WriteItem<V>>>, log: seq<Past<V>>, now: int)
    requires Grown(items, log)
    ensures Grown(items, log + [WasSwept(now)])
  {
    assert (log + [WasSwept(now)])[..|log|] == log;
  }

  // One item of a batch after another, with a sweep between any two: the cache's own methods
  // grow such a history.
  method Work<V(!new)>(cache: Cache<V>, items: seq<WriteItem<V>>, sweeps: seq<Option<nat>>,
                       ghost before: seq<Option<WriteItem<V>>>)
    requires cache.Valid() && |sweeps| == |items| && Grown(before, cache.log)
    requires forall i :: 0 <= i < |items| ==> items[i].entry.keyHash == cache.store.hasher(items[i].entry.key)
    requires forall i :: 0 <= i < |sweeps| && sweeps[i].Some? ==> cache.clock <= sweeps[i].value
    requires forall i, j :: 0 <= i < j < |sweeps| && sweeps[i].Some? && sweeps[j].Some? ==>
             sweeps[i].value <= sweeps[j].value
    modifies cache, cache.store, cache.store.shards, cache.wheel, cache.wheel.buckets, cache.tree, cache.tree.root.repr
    modifies cache.policy.admit, cache.policy.evict, cache.policy.admit.freq.rows, cache.policy.admit.door.bits
    ensures cache.Valid() && Grown(before + Wrapped(items), cache.log)
  {
    hide Grown, Records, Cache.Valid, Swept, Answer;
    assert before + Wrapped(items[..0]) == before;
    for i := 0 to |items|
      invariant cache.Valid() && Grown(before + Wrapped(items[..i]), cache.log)
      invariant cache.tree.root == old(cache.tree.root) && fresh(cache.tree.root.repr - old(cache.tree.root.repr))
      invariant forall j :: i <= j < |sweeps| && sweeps[j].Some? ==> cache.clock <= sweeps[j].value
    {
      ghost var log := cache.log;
      cache.ProcessWrite(items[i]);
      assert cache.log == log + [cache.log[|log|]];
      GrowsByWrite(before + Wrapped(items[..i]), log, items[i], cache.log[|log|]);
      assert before + Wrapped(items[..i]) + [Some(items[i])] == before + Wrapped(items[..i + 1]);
      if sweeps[i].Some? {
        ghost var written := cache.log;
        ghost var expired := cache.RemoveExpired(sweeps[i].value);
        GrowsBySweep(before + Wrapped(items[..i + 1]), written, sweeps[i].value);
      }
    }
    assert items[..|items|] == items;
  }

  function Wrapped<T>(items: seq<T>): (r: seq<Option<T>>)
    ensures |r| == |items| && forall i :: 0 <= i < |r| ==> r[i] == Some(items[i])
  {
    seq(|items|, i requires 0 <= i < |items| => Some(items[i]))
  }

  // The writes of the history are the items, one for one and in order.
  lemma {:induction false} WritesAreItems<V(!new)>(items: seq<Option<WriteItem<V>>>, log: seq<Past<V>>)
    requires Grown(items, log)
    ensures |Writes(log)| == |items|
    ensures forall i :: 0 <= i < |items| ==> items[i].Some? && Records(Writes(log)[i], items[i].value)
    decreases |log|
  {
    var n, m := |items| - 1, |log| - 1;
    if items == [] && log == [] {
    } else if log[m].WasSwept? && Grown(items, log[..m]) {
      WritesAreItems(items, log[..m]);
    } else {
      WritesAreItems(items[..n], log[..m]);
    }
  }

  // In every interleaving of any number of writers with the flush loop and the sweeps, at any
  // moment: the history holds the writes in the order their tickets were claimed, none lost or
  // repeated.  `done` of the popped items, those of the batch in hand included, are worked off.
  lemma WritesInClaimOrder<V(!new)>(cap: nat, batchSize: nat, es: seq<Ring.Event<WriteItem<V>>>,
                                    s: Ring.State<WriteItem<V>>, done: nat, log: seq<Past<V>>)
    requires cap >= 2 && batchSize >= 1 && Ring.ValidRun(Ring.Initial<WriteItem<V>>(cap, batchSize), es)
    requires s == Ring.Exec(Ring.Initial<WriteItem<V>>(cap, batchSize), es)
    requires done <= |Ring.Concat(s.flushed) + s.batch| && Grown((Ring.Concat(s.flushed) + s.batch)[..done], log)
    ensures |Writes(log)| == done <= |s.claims|
    ensures forall n :: 0 <= n < done ==> s.claims[n].Some? && Records(Writes(log)[n], s.claims[n].value)
  {
    hide Ring.Exec, Ring.ValidRun, Writes, Grown, Records, Ring.Concat;
    Ring.PoppedInClaimOrder(cap, batchSize, es);
    WritesAreItems((Ring.Concat(s.flushed) + s.batch)[..done], log);
    forall n | 0 <= n < done ensures s.claims[n].Some? && Records(Writes(log)[n], s.claims[n].value) {
      assert (Ring.Concat(s.flushed) + s.batch)[n] == s.claims[n];
    }
  }

  // Wait: a write acknowledged before the call is in the history when it returns.
  lemma WaitedWriteIsRecorded<V(!new)>(
      cap: nat, batchSize: nat, before: seq<Ring.Event<WriteItem<V>>>, s: Ring.State<WriteItem<V>>, id: nat,
      after: seq<Ring.Event<WriteItem<V>>>, s': Ring.State<WriteItem<V>>, n: nat, log: seq<Past<V>>)
    requires cap >= 2 && batchSize >= 1
    requires Ring.ValidRun(Ring.Initial<WriteItem<V>>(cap, batchSize), before)
    requires s == Ring.Exec(Ring.Initial<WriteItem<V>>(cap, batchSize), before) && n in s.acked
    requires Ring.Enabled(s, Ring.CallFlushSync(id)) && Ring.ValidRun(Ring.Step(s, Ring.CallFlushSync(id)), after)
    requires s' == Ring.Exec(Ring.Step(s, Ring.CallFlushSync(id)), after) && id in s'.done
    requires Grown(Ring.Concat(s'.flushed), log)
    ensures n < |s.claims| && s.claims[n].Some? && n < |Writes(log)| && Records(Writes(log)[n], s.claims[n].value)
  {
    hide Ring.Exec, Ring.ValidRun, Ring.Step, Ring.Enabled, Writes, Grown, Records, Ring.Concat;
    Ring.FlushSyncDelivers(cap, batchSize, before, id, after, n);
    WritesAreItems(Ring.Concat(s'.flushed), log);
  }

  lemma {:induction false} SweepsDoNotCount<V(!new)>(log: seq<Past<V>>, key: Str)
    ensures LastWord(log, key) == LastWord(Writes(log), key)
  {
    if log != [] {
      var n := |log| - 1;
      SweepsDoNotCount(log[..n], key);
      if !log[n].WasSwept? { Appended(Writes(log[..n]), log[n], key); }
    }
  }

  // What a read finds: the value of the n-th recorded write, when that set the key and no
  // later write set, deleted or evicted it, until its time has passed.
  lemma ReadsRecordedWrite<V(!new)>(log: seq<Past<V>>, n: nat, item: WriteItem<V>, now: int)
    requires n < |Writes(log)| && item.isSet && Records(Writes(log)[n], item)
    requires forall m :: n < m < |Writes(log)| ==> !Touches(Writes(log)[m], item.entry.key)
    ensures Answer(log, item.entry.key, now) == if 0 < item.entry.expireAt < now then None else Some(item.entry.value)
  {
    var w, key := Writes(log), item.entry.key;
    SweepsDoNotCount(log, key);
    AnswerIsLastSet(w, key, now);
    assert SetLastAt(w, n, key);
  }
}
