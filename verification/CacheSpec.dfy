// What a cache remembers and what a read of it answers, told by the history of its
// operations, and how the separate books of the cache follow its contents.
module CacheSpec {
  import opened Common
  import opened ExpiryWheel
  import opened SampledLfu
  import opened Store
  import opened RadixSpec

  // ----- the history, and what a read answers -----

  // A set names the keys it evicted.
  datatype Past<V> =
    | WasSet(key: Str, value: V, expireAt: int, victims: set<Str>)
    | WasDeleted(key: Str)
    | WasCleared
    | WasSwept(now: int)

  // The operation decides what a later read of the key finds.
  predicate Touches<V>(p: Past<V>, key: Str) {
    match p
    case WasSet(k, _, _, victims) => k == key || key in victims
    case WasDeleted(k) => k == key
    case WasCleared => true
    case WasSwept(_) => false
  }

  datatype Word<V> = Nothing | Held(value: V, expireAt: int)

  // What the operations so far leave under a key, time apart.
  function LastWord<V>(log: seq<Past<V>>, key: Str): Word<V> {
    if log == [] then Nothing
    else
      var p := log[|log| - 1];
      if !Touches(p, key) then LastWord(log[..|log| - 1], key)
      else if p.WasSet? && p.key == key then Held(p.value, p.expireAt)
      else Nothing
  }

  function Answer<V>(log: seq<Past<V>>, key: Str, now: int): Option<V> {
    var w := LastWord(log, key);
    if w.Held? && !(w.expireAt > 0 && now > w.expireAt) then Some(w.value) else None
  }

  // The i-th operation set the key and nothing since then touched it.
  ghost predicate SetLastAt<V>(log: seq<Past<V>>, i: int, key: Str) {
    && 0 <= i < |log| && log[i].WasSet? && log[i].key == key
    && forall j :: i < j < |log| ==> !Touches(log[j], key)
  }

  // A hit is the value set last, with no delete, clear or eviction since and its time not
  // passed; a miss means that there was no such set or that its time has passed.
  lemma {:induction false} AnswerIsLastSet<V>(log: seq<Past<V>>, key: Str, now: int)
    ensures forall i :: SetLastAt(log, i, key) ==>
              Answer(log, key, now) == if 0 < log[i].expireAt < now then None else Some(log[i].value)
    ensures Answer(log, key, now).Some? ==> exists i :: SetLastAt(log, i, key)
  {
    if log != [] {
      var n := |log| - 1;
      AnswerIsLastSet(log[..n], key, now);
      if Touches(log[n], key) {
        if log[n].WasSet? && log[n].key == key { assert SetLastAt(log, n, key); }
      } else {
        forall i ensures SetLastAt(log, i, key) <==> SetLastAt(log[..n], i, key) {
          if SetLastAt(log[..n], i, key) {
            forall j | i < j < |log| ensures !Touches(log[j], key) { assert j < n ==> log[j] == log[..n][j]; }
          }
          if SetLastAt(log, i, key) {
            assert i != n;
            forall j | i < j < n ensures !Touches(log[..n][j], key) { assert log[j] == log[..n][j]; }
          }
        }
      }
    }
  }

  lemma Appended<V>(log: seq<Past<V>>, p: Past<V>, key: Str)
    ensures LastWord(log + [p], key) ==
      if !Touches(p, key) then LastWord(log, key)
      else if p.WasSet? && p.key == key then Held(p.value, p.expireAt)
      else Nothing
  {
    assert (log + [p])[..|log|] == log;
  }

  // None of these operations touches the key.
  ghost predicate Spares<V>(rest: seq<Past<V>>, key: Str) {
    forall i :: 0 <= i < |rest| ==> !Touches(rest[i], key)
  }

  lemma {:induction false} SparedWord<V>(log: seq<Past<V>>, rest: seq<Past<V>>, key: Str)
    requires Spares(rest, key)
    ensures LastWord(log + rest, key) == LastWord(log, key)
    decreases |rest|
  {
    if rest == [] {
      assert log + rest == log;
    } else {
      var n := |rest| - 1;
      assert (log + rest)[..|log + rest| - 1] == log + rest[..n];
      SparedWord(log, rest[..n], key);
    }
  }

  // A value set is read until its time has passed, whatever happens to other keys.
  lemma SetIsRead<V>(log: seq<Past<V>>, key: Str, value: V, expireAt: int, victims: set<Str>,
                     rest: seq<Past<V>>, t: int)
    requires Spares(rest, key)
    ensures Answer(log + [WasSet(key, value, expireAt, victims)] + rest, key, t) ==
            if 0 < expireAt < t then None else Some(value)
  {
    Appended(log, WasSet(key, value, expireAt, victims), key);
    SparedWord(log + [WasSet(key, value, expireAt, victims)], rest, key);
  }

  // A background sweep changes no answer.
  lemma SweepIsInvisible<V>(log: seq<Past<V>>, sweep: int, key: Str, now: int)
    ensures Answer(log + [WasSwept(sweep)], key, now) == Answer(log, key, now)
  {
    Appended(log, WasSwept(sweep), key);
  }

  // ----- the contents against the history -----

  // What is stored is what was said last; what was said last and is not stored had expired
  // before the clock's reading.
  ghost predicate Faithful<V(!new)>(contents: map<Str, Entry<V>>, log: seq<Past<V>>, clock: int) {
    && (forall k :: k in contents ==> LastWord(log, k) == Held(contents[k].value, contents[k].expireAt))
    && (forall k :: k !in contents && LastWord(log, k).Held? ==> 0 < LastWord(log, k).expireAt < clock)
  }

  lemma ReadIsAnswer<V(!new)>(contents: map<Str, Entry<V>>, log: seq<Past<V>>, clock: int, key: Str, now: int)
    requires Faithful(contents, log, clock) && clock <= now
    ensures var r := Live(contents, key, now); Answer(log, key, now) == if r.Some? then Some(r.value.value) else None
  {
    assert key in contents || !LastWord(log, key).Held? || 0 < LastWord(log, key).expireAt < clock;
  }

  lemma FaithfulLater<V(!new)>(contents: map<Str, Entry<V>>, log: seq<Past<V>>, clock: int, now: int)
    requires Faithful(contents, log, clock) && clock <= now
    ensures Faithful(contents, log, now)
  {
  }

  lemma FaithfulAfterSet<V(!new)>(contents: map<Str, Entry<V>>, log: seq<Past<V>>, clock: int, e: Entry<V>,
                                  victims: set<Str>)
    requires Faithful(contents, log, clock)
    ensures Faithful((contents - victims)[e.key := e], log + [WasSet(e.key, e.value, e.expireAt, victims)], clock)
  {
    hide LastWord;
    forall k { Appended(log, WasSet(e.key, e.value, e.expireAt, victims), k); }
  }

  lemma FaithfulAfterDelete<V(!new)>(contents: map<Str, Entry<V>>, log: seq<Past<V>>, clock: int, key: Str)
    requires Faithful(contents, log, clock)
    ensures Faithful(contents - {key}, log + [WasDeleted(key)], clock)
  {
    hide LastWord;
    forall k { Appended(log, WasDeleted(key), k); }
  }

  lemma FaithfulAfterClear<V(!new)>(log: seq<Past<V>>, clock: int)
    ensures Faithful<V>(map[], log + [WasCleared], clock)
  {
    hide LastWord;
    forall k { Appended(log, WasCleared, k); }
  }

  lemma FaithfulAfterSweep<V(!new)>(contents: map<Str, Entry<V>>, log: seq<Past<V>>, clock: int,
                                    expired: seq<Event<Str>>, now: int)
    requires Faithful(contents, log, clock) && clock <= now
    ensures Faithful(Swept(contents, expired, now), log + [WasSwept(now)], now)
  {
    hide LastWord;
    forall k { Appended(log, WasSwept(now), k); }
  }

  // ----- the sweep -----

  function EventOf<V>(e: Entry<V>): Event<Str> { Event(e.key, e.keyHash, e.expireAt) }

  // Deleted by a sweep at `now` that got these events: scheduled with the expiry it still
  // has, and past it.
  predicate Doomed<V>(e: Entry<V>, expired: seq<Event<Str>>, now: int) {
    EventOf(e) in expired && 0 < e.expireAt < now
  }

  function Swept<V>(contents: map<Str, Entry<V>>, expired: seq<Event<Str>>, now: int): map<Str, Entry<V>> {
    map k | k in contents && !Doomed(contents[k], expired, now) :: contents[k]
  }

  ghost predicate Keyed<V>(contents: map<Str, Entry<V>>, hasher: Str -> Hash) {
    forall k :: k in contents ==> contents[k].key == k && contents[k].keyHash == hasher(k)
  }

  // The entry of the event's key still has the event's expiry, and it is past.
  predicate Expires<V>(contents: map<Str, Entry<V>>, e: Event<Str>, now: int) {
    e.key in contents && contents[e.key].expireAt == e.expireAt && 0 < e.expireAt < now
  }

  // One more event of the sweep: DeleteIfExpired takes away just the entry it dooms.
  lemma SweptOneMore<V>(contents: map<Str, Entry<V>>, hasher: Str -> Hash, expired: seq<Event<Str>>, i: nat, now: int)
    requires Keyed(contents, hasher) && i < |expired| && expired[i].keyHash == hasher(expired[i].key)
    ensures var m, e := Swept(contents, expired[..i], now), expired[i];
      Swept(contents, expired[..i + 1], now) ==
        if Expires(m, e, now) then m - {e.key} else m
  {
    var m, m' := Swept(contents, expired[..i], now), Swept(contents, expired[..i + 1], now);
    assert expired[..i + 1] == expired[..i] + [expired[i]];
    forall k | k in contents
      ensures k in m' <==>
              k in m && !(k == expired[i].key && contents[k].expireAt == expired[i].expireAt &&
                0 < contents[k].expireAt < now)
    {
    }
  }

  // ----- the contents against the wheel -----

  ghost predicate Hashed(pending: multiset<Event<Str>>, hasher: Str -> Hash) {
    forall e :: e in pending ==> e.keyHash == hasher(e.key)
  }

  // Every stored time limit has its event in the wheel, unless a sweep ran at that very
  // moment: the wheel gives the event up at its time, the store the entry only after it.
  ghost predicate Armed<V(!new)>(contents: map<Str, Entry<V>>, pending: multiset<Event<Str>>, log: seq<Past<V>>) {
    forall k :: k in contents && contents[k].expireAt > 0 ==>
      EventOf(contents[k]) in pending || WasSwept(contents[k].expireAt) in log
  }

  // The wheel's events once this one is scheduled; without a positive expiry it is not.
  function Watched(pending: multiset<Event<Str>>, e: Event<Str>): multiset<Event<Str>> {
    if e.expireAt <= 0 then pending else pending + multiset{e}
  }

  lemma ArmedAfterSet<V(!new)>(contents: map<Str, Entry<V>>, pending: multiset<Event<Str>>, log: seq<Past<V>>,
                                   hasher: Str -> Hash, e: Entry<V>, victims: set<Str>)
    requires Armed(contents, pending, log) && Hashed(pending, hasher) && e.keyHash == hasher(e.key)
    ensures var pending' := Watched(pending, EventOf(e));
      && Armed((contents - victims)[e.key := e], pending', log + [WasSet(e.key, e.value, e.expireAt, victims)])
      && Hashed(pending', hasher)
  {
  }

  lemma ArmedAfterDelete<V(!new)>(contents: map<Str, Entry<V>>, pending: multiset<Event<Str>>, log: seq<Past<V>>,
                                  key: Str)
    requires Armed(contents, pending, log)
    ensures Armed(contents - {key}, pending, log + [WasDeleted(key)])
  {
  }

  lemma ArmedAfterSweep<V(!new)>(contents: map<Str, Entry<V>>, pending: multiset<Event<Str>>, cursor: int,
                                 resolution: nat, now: nat, expired: seq<Event<Str>>, pending': multiset<Event<Str>>,
                                 cursor': int, log: seq<Past<V>>, hasher: Str -> Hash)
    requires resolution > 0 && Advances(pending, cursor, resolution, now, multiset(expired), pending', cursor')
    requires Armed(contents, pending, log) && Hashed(pending, hasher)
    ensures Armed(Swept(contents, expired, now), pending', log + [WasSwept(now)]) && Hashed(pending', hasher)
    ensures forall e :: e in expired ==> e.keyHash == hasher(e.key)
  {
    hide Visited, Tick, Bucket;
    forall e: Event<Str> | e in expired ensures e in pending { assert e in multiset(expired); }
    var kept := Swept(contents, expired, now);
    forall k | k in kept && kept[k].expireAt > 0
      ensures EventOf(kept[k]) in pending' || WasSwept(kept[k].expireAt) in log + [WasSwept(now)]
    {
      var e := EventOf(contents[k]);
      if e in pending {
        StaysOrStrands(contents, pending, cursor, resolution, now, expired, pending', cursor', k);
        assert (log + [WasSwept(now)])[|log|] == WasSwept(now);
      } else {
        assert WasSwept(e.expireAt) in log;
      }
    }
  }

  // What a sweep does to an entry whose event is pending.  Returned, the entry goes, except
  // at the very moment of its expiry: then it stays and its event is lost.
  lemma StaysOrStrands<V(!new)>(contents: map<Str, Entry<V>>, pending: multiset<Event<Str>>, cursor: int,
                                resolution: nat, now: nat, expired: seq<Event<Str>>, pending': multiset<Event<Str>>,
                                cursor': int, k: Str)
    requires resolution > 0 && Advances(pending, cursor, resolution, now, multiset(expired), pending', cursor')
    requires k in contents && contents[k].expireAt > 0 && EventOf(contents[k]) in pending
    ensures var e := EventOf(contents[k]);
      && (k in Swept(contents, expired, now) <==> !Returnable(e, cursor, resolution, now) || e.expireAt == now)
      && (e in pending' <==> !Returnable(e, cursor, resolution, now))
  {
    hide Visited, Tick, Bucket;
    var e := EventOf(contents[k]);
    assert e in expired <==> e in multiset(expired);
  }

  // An entry whose event is not pending is beyond the reach of sweeps: they neither delete it
  // nor bring its event back, however many there are.
  datatype Sweep<V> = Sweep(contents: map<Str, Entry<V>>, pending: multiset<Event<Str>>, cursor: int)

  ghost predicate Sweeps<V(!new)>(states: seq<Sweep<V>>, nows: seq<nat>, expired: seq<seq<Event<Str>>>, resolution: nat)
    requires resolution > 0
  {
    && |states| == |nows| + 1 == |expired| + 1
    && forall i {:trigger nows[i]} :: 0 <= i < |nows| ==>
         && Advances(states[i].pending, states[i].cursor, resolution, nows[i], multiset(expired[i]),
            states[i + 1].pending, states[i + 1].cursor)
         && states[i + 1].contents == Swept(states[i].contents, expired[i], nows[i])
  }

  lemma {:induction false} StrandedStays<V(!new)>(states: seq<Sweep<V>>, nows: seq<nat>, expired: seq<seq<Event<Str>>>,
                                                  resolution: nat, k: Str, j: nat)
    requires resolution > 0 && Sweeps(states, nows, expired, resolution) && j < |states|
    requires k in states[0].contents && EventOf(states[0].contents[k]) !in states[0].pending
    ensures k in states[j].contents && states[j].contents[k] == states[0].contents[k]
    ensures EventOf(states[0].contents[k]) !in states[j].pending
  {
    hide Visited, Tick, Bucket;
    if j > 0 {
      StrandedStays(states, nows, expired, resolution, k, j - 1);
      var e := EventOf(states[0].contents[k]);
      assert Advances(states[j - 1].pending, states[j - 1].cursor, resolution, nows[j - 1], multiset(expired[j - 1]),
                      states[j].pending, states[j].cursor);
      assert multiset(expired[j - 1])[e] == 0;
      assert e in expired[j - 1] <==> e in multiset(expired[j - 1]);
    }
  }

  // The first sweep to reach the tick d at which the bucket of a pending event comes round
  // takes the entry away, but for an entry that expires at that very moment.
  lemma SweepIsPrompt<V(!new)>(contents: map<Str, Entry<V>>, pending: multiset<Event<Str>>, cursor: int,
                               resolution: nat, now: nat, expired: seq<Event<Str>>, pending': multiset<Event<Str>>,
                               cursor': int, k: Str, d: int)
    requires resolution > 0 && Advances(pending, cursor, resolution, now, multiset(expired), pending', cursor')
    requires k in contents && contents[k].expireAt > 0 && EventOf(contents[k]) in pending
    requires ComesRound(d, EventOf(contents[k]), resolution) && cursor < d <= now / resolution
    ensures k in Swept(contents, expired, now) <==> contents[k].expireAt == now
  {
    hide Visited, Tick, Bucket;
    var e := EventOf(contents[k]);
    StaysOrStrands(contents, pending, cursor, resolution, now, expired, pending', cursor', k);
    TickBounds(e, resolution, now);
    VisitedAt(d, cursor, now / resolution);
  }

  // ----- the contents against the cursor -----

  // At tick d the cursor passes the bucket of e, and e is due.
  ghost predicate ComesRound(d: int, e: Event<Str>, resolution: nat)
    requires resolution > 0
  {
    Tick(e, resolution) <= d && Bucket(d) == Bucket(Tick(e, resolution))
  }

  // Every stored time limit has a tick by which its event is drained, and that tick lies ahead
  // of the cursor, unless a sweep ran at the limit's very moment.
  ghost predicate Ahead<V(!new)>(contents: map<Str, Entry<V>>, cursor: int, resolution: nat, due: map<Str, int>,
                                 log: seq<Past<V>>) {
    && resolution > 0
    && forall k :: k in contents && contents[k].expireAt > 0 ==>
         && k in due && ComesRound(due[k], EventOf(contents[k]), resolution)
         && (cursor < due[k] || WasSwept(contents[k].expireAt) in log)
  }

  // Written with the cursor here, a time limit is due at its own tick when that lies ahead, and
  // otherwise, too late for that, when its bucket next comes round.
  ghost function DueAfter<V>(due: map<Str, int>, e: Entry<V>, cursor: int, resolution: nat): map<Str, int>
    requires resolution > 0
  {
    if e.expireAt > 0 then due[e.key := DueTick(cursor, Tick(EventOf(e), resolution))] else due
  }

  // A time limit set in the future is due at its own tick.
  lemma FiledAhead<V>(due: map<Str, int>, e: Entry<V>, resolution: nat, cursor: int, now: nat)
    requires resolution > 0 && cursor <= now / resolution && (e.expireAt > 0 ==> now < e.expireAt)
    ensures DueAfter(due, e, cursor, resolution) == if e.expireAt > 0 then due[e.key := Tick(EventOf(e), resolution)]
            else due
  {
    TickBounds(EventOf(e), resolution, now);
  }

  lemma AheadAfterSet<V(!new)>(contents: map<Str, Entry<V>>, cursor: int, resolution: nat, due: map<Str, int>,
                               log: seq<Past<V>>, e: Entry<V>, victims: set<Str>)
    requires Ahead(contents, cursor, resolution, due, log)
    ensures Ahead((contents - victims)[e.key := e], cursor, resolution, DueAfter(due, e, cursor, resolution),
                  log + [WasSet(e.key, e.value, e.expireAt, victims)])
  {
    hide Tick, Bucket;
  }

  lemma AheadAfterSweep<V(!new)>(contents: map<Str, Entry<V>>, pending: multiset<Event<Str>>, cursor: int,
                                 resolution: nat, now: nat, expired: seq<Event<Str>>, pending': multiset<Event<Str>>,
                                 cursor': int, due: map<Str, int>, log: seq<Past<V>>)
    requires Ahead(contents, cursor, resolution, due, log) && Armed(contents, pending, log)
    requires Advances(pending, cursor, resolution, now, multiset(expired), pending', cursor')
    ensures Ahead(Swept(contents, expired, now), cursor', resolution, due, log + [WasSwept(now)])
  {
    hide Visited, Tick, Bucket, ComesRound;
    var kept, said := Swept(contents, expired, now), log + [WasSwept(now)];
    assert said[|log|] == WasSwept(now);
    forall k | k in kept && kept[k].expireAt > 0
      ensures cursor' < due[k] || WasSwept(kept[k].expireAt) in said
    {
      if WasSwept(kept[k].expireAt) !in log && due[k] <= now / resolution {
        SweepIsPrompt(contents, pending, cursor, resolution, now, expired, pending', cursor', k, due[k]);
      }
    }
  }

  // Not every expired entry keeps its event: one that expires at 5, swept at 5.
  lemma SweptAtExpiry(expired: seq<Event<Str>>, pending': multiset<Event<Str>>, cursor': int)
    requires Advances(multiset{Event([7], 9, 5)}, 0, 1, 5, multiset(expired), pending', cursor')
    ensures var contents := map[[7] := Entry([7], true, 9, 5, 1)];
      Swept(contents, expired, 5) == contents && pending' == multiset{}
  {
    var e: Event<Str> := Event([7], 9, 5);
    assert Tick(e, 1) == 5;
    VisitedAt(5, 0, 5);
    assert Returnable(e, 0, 1, 5);
    forall f: Event<Str> ensures pending'[f] == 0 { }
  }

  // ----- the contents against the policy, the cost counter and the tree -----

  function Shadow<V>(contents: map<Str, Entry<V>>): map<Str, Tracked> {
    map k | k in contents :: Tracked(contents[k].keyHash, contents[k].cost)
  }

  function CostOf<V>(contents: map<Str, Entry<V>>): map<Str, int> {
    map k | k in contents :: contents[k].cost
  }

  lemma ShadowCosts<V>(contents: map<Str, Entry<V>>)
    ensures Costs(Shadow(contents)) == CostOf(contents)
  {
  }

  lemma CostAfterPut<V>(contents: map<Str, Entry<V>>, key: Str, e: Entry<V>)
    ensures Sum(CostOf(contents[key := e])) ==
            Sum(CostOf(contents)) + e.cost - (if key in contents then contents[key].cost else 0)
  {
    hide Sum;
    SumPut(CostOf(contents), key, e.cost);
    assert CostOf(contents[key := e]) == CostOf(contents)[key := e.cost];
  }

  lemma CostAfterRemove<V>(contents: map<Str, Entry<V>>, key: Str)
    ensures Sum(CostOf(contents - {key})) == Sum(CostOf(contents)) - (if key in contents then contents[key].cost else 0)
  {
    hide Sum;
    SumRemove(CostOf(contents), key);
    assert CostOf(contents - {key}) == CostOf(contents) - {key};
  }

  lemma ShadowAfterSet<V>(contents: map<Str, Entry<V>>, victims: set<Str>, e: Entry<V>)
    ensures Shadow((contents - victims)[e.key := e]) ==
            (Shadow(contents) - victims)[e.key := Tracked(e.keyHash, e.cost)]
  {
  }

  lemma ShadowAfterRemove<V>(contents: map<Str, Entry<V>>, key: Str)
    ensures Shadow(contents - {key}) == Shadow(contents) - {key}
  {
  }

  // ----- the hashes in the prefix tree -----

  // Whatever the tree lists, it lists under the key's own hash.
  ghost predicate HashesFrom(t: Trie, hasher: Str -> Hash) {
    forall k :: Lookup(t, k).Some? ==> Lookup(t, k).value == hasher(k)
  }

  lemma HashesAfterInsert(t: Trie, hasher: Str -> Hash, key: Str)
    requires Compressed(t) && HashesFrom(t, hasher)
    ensures HashesFrom(Insert(t, key, hasher(key)), hasher)
  {
    hide Lookup, Insert, Compressed;
    forall k { LookupInsert(t, key, hasher(key), k); }
  }

  lemma HashesAfterDelete(t: Trie, hasher: Str -> Hash, key: Str)
    requires Compressed(t) && HashesFrom(t, hasher)
    ensures HashesFrom(Delete(t, key), hasher)
  {
    hide Lookup, Delete, Compressed;
    forall k { LookupDelete(t, key, k); }
  }

  lemma NothingListed(hasher: Str -> Hash)
    ensures Keys(EMPTY_ROOT) == {} && HashesFrom(EMPTY_ROOT, hasher)
  {
  }

  // ----- all that the cache remembers -----

  ghost predicate Recalls<V(!new)>(contents: map<Str, Entry<V>>, log: seq<Past<V>>, clock: nat,
                                   pending: multiset<Event<Str>>, hasher: Str -> Hash, cursor: int, resolution: nat,
                                   due: map<Str, int>) {
    && Faithful(contents, log, clock)
    && Armed(contents, pending, log) && Hashed(pending, hasher)
    && Ahead(contents, cursor, resolution, due, log) && cursor <= clock / resolution
  }

  lemma Later(clock: nat, now: nat, resolution: nat)
    requires resolution > 0 && clock <= now
    ensures clock / resolution <= now / resolution
  {
    var a, b := clock / resolution, now / resolution;
    assert (b + 1) * resolution == b * resolution + resolution;
    if b < a { Monotone(b + 1, a, resolution); }
  }

  lemma RecallsLater<V(!new)>(contents: map<Str, Entry<V>>, log: seq<Past<V>>, clock: nat,
                              pending: multiset<Event<Str>>, hasher: Str -> Hash, cursor: int, resolution: nat,
                              due: map<Str, int>, now: nat)
    requires Recalls(contents, log, clock, pending, hasher, cursor, resolution, due) && clock <= now
    ensures Recalls(contents, log, now, pending, hasher, cursor, resolution, due)
  {
    hide Armed, Hashed, LastWord, Tick;
    FaithfulLater(contents, log, clock, now);
    Later(clock, now, resolution);
  }

  lemma RecallsAfterSet<V(!new)>(contents: map<Str, Entry<V>>, log: seq<Past<V>>, clock: nat,
                                 pending: multiset<Event<Str>>, hasher: Str -> Hash, cursor: int, resolution: nat,
                                 due: map<Str, int>, e: Entry<V>, victims: set<Str>)
    requires Recalls(contents, log, clock, pending, hasher, cursor, resolution, due) && e.keyHash == hasher(e.key)
    ensures resolution > 0
    ensures Recalls((contents - victims)[e.key := e], log + [WasSet(e.key, e.value, e.expireAt, victims)], clock,
                    Watched(pending, EventOf(e)), hasher, cursor, resolution, DueAfter(due, e, cursor, resolution))
  {
    hide Armed, Hashed, Faithful, LastWord, Tick;
    FaithfulAfterSet(contents, log, clock, e, victims);
    ArmedAfterSet(contents, pending, log, hasher, e, victims);
    AheadAfterSet(contents, cursor, resolution, due, log, e, victims);
  }

  lemma RecallsAfterDelete<V(!new)>(contents: map<Str, Entry<V>>, log: seq<Past<V>>, clock: nat,
                                    pending: multiset<Event<Str>>, hasher: Str -> Hash, cursor: int, resolution: nat,
                                    due: map<Str, int>, key: Str)
    requires Recalls(contents, log, clock, pending, hasher, cursor, resolution, due)
    ensures Recalls(contents - {key}, log + [WasDeleted(key)], clock, pending, hasher, cursor, resolution, due)
  {
    hide Armed, Hashed, Faithful, LastWord, Tick;
    FaithfulAfterDelete(contents, log, clock, key);
    ArmedAfterDelete(contents, pending, log, key);
  }

  lemma RecallsAfterClear<V(!new)>(log: seq<Past<V>>, hasher: Str -> Hash, resolution: nat, now: nat)
    requires resolution > 0
    ensures Recalls<V>(map[], log + [WasCleared], now, multiset{}, hasher, now / resolution, resolution, map[])
    ensures Shadow<V>(map[]) == map[] && Sum(CostOf<V>(map[])) == 0
  {
    hide Tick;
    FaithfulAfterClear<V>(log, now);
    assert CostOf<V>(map[]) == map[];
  }

  lemma RecallsAfterSweep<V(!new)>(contents: map<Str, Entry<V>>, log: seq<Past<V>>, clock: nat,
                                   pending: multiset<Event<Str>>, hasher: Str -> Hash, cursor: int, resolution: nat,
                                   due: map<Str, int>, now: nat, expired: seq<Event<Str>>,
                                   pending': multiset<Event<Str>>, cursor': int)
    requires Recalls(contents, log, clock, pending, hasher, cursor, resolution, due) && clock <= now
    requires Advances(pending, cursor, resolution, now, multiset(expired), pending', cursor')
    ensures Recalls(Swept(contents, expired, now), log + [WasSwept(now)], now,
                    pending', hasher, cursor', resolution, due)
    ensures cursor' == now / resolution && forall e :: e in expired ==> e.keyHash == hasher(e.key)
  {
    hide Armed, Hashed, Faithful, Ahead, Swept, LastWord, Tick, Visited, Bucket;
    assert resolution > 0 by { AheadHasResolution(contents, cursor, resolution, due, log); }
    FaithfulAfterSweep(contents, log, clock, expired, now);
    ArmedAfterSweep(contents, pending, cursor, resolution, now, expired, pending', cursor', log, hasher);
    AheadAfterSweep(contents, pending, cursor, resolution, now, expired, pending', cursor', due, log);
    Later(clock, now, resolution);
  }

  lemma AheadHasResolution<V(!new)>(contents: map<Str, Entry<V>>, cursor: int, resolution: nat, due: map<Str, int>,
                                    log: seq<Past<V>>)
    requires Ahead(contents, cursor, resolution, due, log)
    ensures resolution > 0
  {
  }

  // A stored time limit still has its event and its tick ahead of it, except those for which a
  // sweep ran at the very moment of their expiry.
  lemma SurvivorsAreAhead<V(!new)>(contents: map<Str, Entry<V>>, log: seq<Past<V>>, clock: nat,
                                   pending: multiset<Event<Str>>, hasher: Str -> Hash, cursor: int, resolution: nat,
                                   due: map<Str, int>)
    requires Recalls(contents, log, clock, pending, hasher, cursor, resolution, due)
    ensures resolution > 0
    ensures forall k :: k in contents && 0 < contents[k].expireAt && WasSwept(contents[k].expireAt) !in log ==>
              k in due && cursor < due[k] && EventOf(contents[k]) in pending
  {
    hide Tick;
  }

  lemma AnswersStay<V>(log: seq<Past<V>>, sweep: int)
    ensures forall key, now :: Answer(log + [WasSwept(sweep)], key, now) == Answer(log, key, now)
  {
    forall key, now { SweepIsInvisible(log, sweep, key, now); }
  }
}
