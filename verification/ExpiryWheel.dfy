// The timing wheel: 4096 buckets of scheduled expirations, and a cursor that drains the
// buckets it passes.
module ExpiryWheel {
  import opened Common

  const BUCKETS: int := 4096

  // Times are nanoseconds since the epoch; the store schedules only positive ones.
  datatype Event<K> = Event(key: K, keyHash: Hash, expireAt: int)

  // The first tick at which the event is due: expireAt divided by the resolution, rounded up.
  function Tick<K>(e: Event<K>, resolution: nat): int
    requires resolution > 0
  {
    (e.expireAt + resolution - 1) / resolution
  }

  function Bucket(tick: int): (b: nat)
    ensures b < BUCKETS
  {
    tick % BUCKETS
  }

  // Ticks share a bucket exactly when whole rotations lie between them.
  lemma SameBucket(s: int, t: int)
    ensures Bucket(s) == Bucket(t) <==> (s - t) % 4096 == 0
  {
  }

  // It is the one tick t with (t - 1) * resolution < expireAt <= t * resolution.
  lemma TickExactly<K>(e: Event<K>, resolution: nat)
    requires resolution > 0
    ensures (Tick(e, resolution) - 1) * resolution < e.expireAt <= Tick(e, resolution) * resolution
  {
    var x, t := e.expireAt + resolution - 1, Tick(e, resolution);
    assert x == t * resolution + x % resolution;
    assert (t - 1) * resolution == t * resolution - resolution;
  }

  lemma TickBounds<K>(e: Event<K>, resolution: nat, now: nat)
    requires resolution > 0
    ensures Tick(e, resolution) <= now / resolution ==> e.expireAt <= now
    ensures e.expireAt <= now ==> Tick(e, resolution) <= now / resolution + 1
  {
    RoundUp(e.expireAt, resolution, Tick(e, resolution), now, now / resolution);
  }

  // Rounding up to a multiple of r against rounding down.
  lemma RoundUp(x: int, r: nat, t: int, now: int, n: int)
    requires r > 0 && t == (x + r - 1) / r && n == now / r
    ensures t <= n ==> x <= now
    ensures x <= now ==> t <= n + 1
  {
    var a, b := t * r, n * r;
    assert x + r - 1 == a + (x + r - 1) % r;
    assert now == b + now % r;
    if t <= n { Monotone(t, n, r); }
    if t > n + 1 { Monotone(n + 2, t, r); assert (n + 2) * r == b + 2 * r; }
  }

  lemma Monotone(a: int, b: int, r: nat)
    requires a <= b
    ensures a * r <= b * r
  {
    assert b * r - a * r == (b - a) * r;
  }

  // The bucket of the event lies in (from, to].
  predicate Visited(b: nat, from: int, to: int) {
    exists t :: from < t <= to && Bucket(t) == b
  }

  // ----- draining one bucket -----

  function Due<K>(bucket: seq<Event<K>>, now: nat): seq<Event<K>> {
    if bucket == [] then []
    else
      var last := bucket[|bucket| - 1];
      Due(bucket[..|bucket| - 1], now) + (if last.expireAt <= now then [last] else [])
  }

  function Later<K>(bucket: seq<Event<K>>, now: nat): seq<Event<K>> {
    if bucket == [] then []
    else
      var last := bucket[|bucket| - 1];
      Later(bucket[..|bucket| - 1], now) + (if last.expireAt <= now then [] else [last])
  }

  lemma {:induction false} DueOrLater<K>(bucket: seq<Event<K>>, now: nat, e: Event<K>)
    ensures multiset(Due(bucket, now))[e] == if e.expireAt <= now then multiset(bucket)[e] else 0
    ensures multiset(Later(bucket, now))[e] == if e.expireAt <= now then 0 else multiset(bucket)[e]
  {
    if bucket != [] {
      hide Due, Later;
      var n := |bucket| - 1;
      var rest, last := bucket[..n], bucket[n];
      DueOrLater(rest, now, e);
      assert bucket == rest + [last];
      LastDueOrLater(rest, last, now);
      CountOneMore(rest, last, e);
      CountOneMore(Due(rest, now), last, e);
      CountOneMore(Later(rest, now), last, e);
    }
  }

  lemma LastDueOrLater<K>(rest: seq<Event<K>>, last: Event<K>, now: nat)
    ensures Due(rest + [last], now) == if last.expireAt <= now then Due(rest, now) + [last] else Due(rest, now)
    ensures Later(rest + [last], now) == if last.expireAt <= now then Later(rest, now) else Later(rest, now) + [last]
  {
    assert (rest + [last])[..|rest|] == rest;
  }

  lemma CountOneMore<K>(s: seq<Event<K>>, x: Event<K>, e: Event<K>)
    ensures multiset(s + [x])[e] == multiset(s)[e] + (if x == e then 1 else 0)
  {
  }

  // ----- one Advance, on the multiset of pending events -----

  // Exactly the pending events that are due and whose bucket the cursor passes are returned.
  ghost predicate Advances<K(!new)>(pending: multiset<Event<K>>, cursor: int, resolution: nat, now: nat,
                                    returned: multiset<Event<K>>, after: multiset<Event<K>>, cursor': int)
    requires resolution > 0
  {
    && cursor' == (if now / resolution <= cursor then cursor else now / resolution)
    && forall e: Event<K> ::
         && returned[e] == (if Returnable(e, cursor, resolution, now) then pending[e] else 0)
         && after[e] == pending[e] - returned[e]
  }

  ghost predicate Returnable<K>(e: Event<K>, cursor: int, resolution: nat, now: nat)
    requires resolution > 0
  {
    e.expireAt <= now && Visited(Bucket(Tick(e, resolution)), cursor, now / resolution)
  }

  class Wheel<K(==,!new)> {
    const resolution: nat
    var currentTick: int
    const buckets: array<seq<Event<K>>>
    ghost var pending: multiset<Event<K>>

    ghost predicate Valid()
      reads this, buckets
    {
      && resolution > 0
      && buckets.Length == BUCKETS
      && (forall b, e :: 0 <= b < BUCKETS && e in buckets[b] ==> Bucket(Tick(e, resolution)) == b)
      && (forall e: Event<K> :: pending[e] == multiset(buckets[Bucket(Tick(e, resolution))])[e])
    }

    constructor (resolution: nat, now: nat)
      requires resolution > 0
      ensures Valid() && this.resolution == resolution && fresh(buckets)
      ensures pending == multiset{} && currentTick == now / resolution
    {
      this.resolution := resolution;
      currentTick := now / resolution;
      buckets := new seq<Event<K>>[BUCKETS](_ => []);
      pending := multiset{};
    }

    lemma Ticking()
      requires Valid()
      ensures resolution > 0
    {
    }

    method Schedule(e: Event<K>)
      requires Valid()
      modifies buckets, this`pending
      ensures Valid()
      ensures pending == if e.expireAt <= 0 then old(pending) else old(pending) + multiset{e}
    {
      if e.expireAt <= 0 { return; }
      var tick := Tick(e, resolution);
      var idx := Bucket(tick);
      buckets[idx] := buckets[idx] + [e];
      pending := pending + multiset{e};
    }

    method Clear(now: nat)
      requires Valid()
      modifies buckets, this`pending, this`currentTick
      ensures Valid() && pending == multiset{} && currentTick == now / resolution
    {
      hide Tick, Bucket;
      for i := 0 to buckets.Length
        invariant forall b :: 0 <= b < i ==> buckets[b] == []
      {
        buckets[i] := [];
      }
      currentTick := now / resolution;
      pending := multiset{};
    }

    method Advance(now: nat) returns (expired: seq<Event<K>>)
      requires Valid()
      modifies buckets, this`pending, this`currentTick
      ensures Valid()
      ensures Advances(old(pending), old(currentTick), resolution, now, multiset(expired), pending, currentTick)
    {
      hide Bucket, Tick, Visited, DrainedTo, DrainedOne, Advances;
      var nowTick := now / resolution;
      expired := [];
      if nowTick <= currentTick {
        NothingVisited(currentTick, resolution, now, pending);
        return;
      }
      ghost var all := pending;
      NothingDrained(all, currentTick, resolution, now);
      while currentTick < nowTick
        invariant old(currentTick) <= currentTick <= nowTick
        invariant Valid()
        invariant DrainedTo(all, old(currentTick), currentTick, resolution, now, multiset(expired), pending)
      {
        ghost var before, got := pending, multiset(expired);
        currentTick := currentTick + 1;
        var due := Drain(currentTick, now);
        DrainOneMore(all, old(currentTick), currentTick - 1, resolution, now, got, before, multiset(due), pending);
        expired := expired + due;
      }
      AllDrained(all, old(currentTick), resolution, now, multiset(expired), pending);
    }

    // The body of Advance's loop for one tick; items not yet due return to their own bucket.
    method Drain(tick: int, now: nat) returns (due: seq<Event<K>>)
      requires Valid()
      modifies buckets, this`pending
      ensures Valid()
      ensures DrainedOne(old(pending), Bucket(tick), resolution, now, multiset(due), pending)
    {
      var idx := Bucket(tick);
      due := [];
      if |buckets[idx]| == 0 { return; }
      ghost var bucket := buckets[idx];
      due := Sift(idx, now);
      BucketDrained(pending, bucket, idx, resolution, now);
      pending := pending - multiset(due);
      LaterStays(bucket, now);
    }

    // The inner loop: due items leave, the others are filed again, under the same bucket.
    method Sift(idx: nat, now: nat) returns (due: seq<Event<K>>)
      requires resolution > 0 && buckets.Length == BUCKETS && idx < BUCKETS
      requires forall e :: e in buckets[idx] ==> Bucket(Tick(e, resolution)) == idx
      modifies buckets
      ensures due == Due(old(buckets[idx]), now) && buckets[idx] == Later(old(buckets[idx]), now)
      ensures forall b :: 0 <= b < BUCKETS && b != idx ==> buckets[b] == old(buckets[b])
    {
      hide Tick, Bucket;
      var bucket := buckets[idx];
      due := [];
      buckets[idx] := [];
      var i := 0;
      while i < |bucket|
        invariant 0 <= i <= |bucket|
        invariant due == Due(bucket[..i], now) && buckets[idx] == Later(bucket[..i], now)
        invariant forall b :: 0 <= b < BUCKETS && b != idx ==> buckets[b] == old(buckets[b])
      {
        var item := bucket[i];
        assert bucket[..i + 1][..i] == bucket[..i];
        if item.expireAt <= now {
          due := due + [item];
        } else {
          var futureIdx := Bucket(Tick(item, resolution));
          buckets[futureIdx] := buckets[futureIdx] + [item];
        }
        i := i + 1;
      }
      assert bucket[..i] == bucket;
    }
  }

  lemma {:induction false} LaterStays<K>(bucket: seq<Event<K>>, now: nat)
    ensures forall e :: e in Later(bucket, now) ==> e in bucket
  {
    if bucket != [] { LaterStays(bucket[..|bucket| - 1], now); }
  }

  // Taking the due events of one bucket out of the pending ones.
  lemma BucketDrained<K(!new)>(pending: multiset<Event<K>>, bucket: seq<Event<K>>, b: nat, resolution: nat, now: nat)
    requires resolution > 0
    requires forall e :: e in bucket ==> Bucket(Tick(e, resolution)) == b
    requires forall e: Event<K> :: Bucket(Tick(e, resolution)) == b ==> pending[e] == multiset(bucket)[e]
    ensures DrainedOne(pending, b, resolution, now, multiset(Due(bucket, now)), pending - multiset(Due(bucket, now)))
    ensures forall e: Event<K> :: Bucket(Tick(e, resolution)) == b ==>
              (pending - multiset(Due(bucket, now)))[e] == multiset(Later(bucket, now))[e]
    ensures forall e: Event<K> :: Bucket(Tick(e, resolution)) != b ==>
            (pending - multiset(Due(bucket, now)))[e] == pending[e]
  {
    hide Tick, Bucket, Due, Later;
    forall e: Event<K>
      ensures multiset(Due(bucket, now))[e] ==
              (if e.expireAt <= now && Bucket(Tick(e, resolution)) == b then pending[e] else 0)
      ensures Bucket(Tick(e, resolution)) == b ==>
              pending[e] - multiset(Due(bucket, now))[e] == multiset(Later(bucket, now))[e]
    {
      DueOrLater(bucket, now, e);
      assert e in multiset(bucket) <==> e in bucket;
    }
  }

  lemma NothingDrained<K(!new)>(all: multiset<Event<K>>, from: int, resolution: nat, now: nat)
    requires resolution > 0
    ensures DrainedTo(all, from, from, resolution, now, multiset{}, all)
  {
  }

  lemma AllDrained<K(!new)>(all: multiset<Event<K>>, from: int, resolution: nat, now: nat,
                            got: multiset<Event<K>>, rest: multiset<Event<K>>)
    requires resolution > 0 && from < now / resolution &&
             DrainedTo(all, from, now / resolution, resolution, now, got, rest)
    ensures Advances(all, from, resolution, now, got, rest, now / resolution)
  {
    hide Tick, Bucket, Visited;
  }

  // One bucket drained: its due events have gone from `before` to `due`.
  ghost predicate DrainedOne<K(!new)>(before: multiset<Event<K>>, b: nat, resolution: nat, now: nat,
                                      due: multiset<Event<K>>, after: multiset<Event<K>>)
    requires resolution > 0
  {
    forall e: Event<K> ::
      && due[e] == (if e.expireAt <= now && Bucket(Tick(e, resolution)) == b then before[e] else 0)
      && after[e] == before[e] - due[e]
  }

  // The buckets of (from, to] drained: their due events have gone from `all` to `got`.
  ghost predicate DrainedTo<K(!new)>(all: multiset<Event<K>>, from: int, to: int, resolution: nat, now: nat,
                                     got: multiset<Event<K>>, rest: multiset<Event<K>>)
    requires resolution > 0
  {
    forall e: Event<K> ::
      && got[e] == (if e.expireAt <= now && Visited(Bucket(Tick(e, resolution)), from, to) then all[e] else 0)
      && rest[e] == all[e] - got[e]
  }

  lemma VisitedOneMore(b: nat, from: int, to: int)
    requires from <= to
    ensures Visited(b, from, to + 1) <==> Visited(b, from, to) || Bucket(to + 1) == b
  {
    if Bucket(to + 1) == b { assert from < to + 1 <= to + 1; }
    if Visited(b, from, to) {
      var t :| from < t <= to && Bucket(t) == b;
      assert from < t <= to + 1;
    }
  }

  lemma DrainOneMore<K(!new)>(all: multiset<Event<K>>, from: int, to: int, resolution: nat, now: nat,
                              got: multiset<Event<K>>, rest: multiset<Event<K>>, due: multiset<Event<K>>,
                              after: multiset<Event<K>>)
    requires resolution > 0 && from <= to
    requires DrainedTo(all, from, to, resolution, now, got, rest)
    requires DrainedOne(rest, Bucket(to + 1), resolution, now, due, after)
    ensures DrainedTo(all, from, to + 1, resolution, now, got + due, after)
  {
    hide Bucket, Tick, Visited;
    forall e: Event<K>
      ensures (got + due)[e] ==
              (if e.expireAt <= now && Visited(Bucket(Tick(e, resolution)), from, to + 1) then all[e] else 0)
           && after[e] == all[e] - (got + due)[e]
    {
      VisitedOneMore(Bucket(Tick(e, resolution)), from, to);
    }
  }

  lemma NothingVisited<K(!new)>(cursor: int, resolution: nat, now: nat, pending: multiset<Event<K>>)
    requires resolution > 0 && now / resolution <= cursor
    ensures Advances(pending, cursor, resolution, now, multiset{}, pending, cursor)
  {
  }

  // ----- whole runs -----

  datatype Op<K(==)> = Scheduling(e: Event<K>) | Advancing(now: nat, returned: multiset<Event<K>>) |
    Clearing(now: nat, dropped: multiset<Event<K>>)

  datatype State<K(==)> = State(cursor: int, pending: multiset<Event<K>>)

  // One call of Schedule, Advance or Clear, as their postconditions describe it.
  ghost predicate Takes<K(!new)>(s: State<K>, op: Op<K>, resolution: nat, s': State<K>)
    requires resolution > 0
  {
    match op
    case Scheduling(e) =>
      s' == s.(pending := if e.expireAt <= 0 then s.pending else s.pending + multiset{e})
    case Advancing(now, returned) =>
      Advances(s.pending, s.cursor, resolution, now, returned, s'.pending, s'.cursor)
    case Clearing(now, dropped) =>
      dropped == s.pending && s' == State(now / resolution, multiset{})
  }

  ghost predicate Trace<K(!new)>(states: seq<State<K>>, ops: seq<Op<K>>, resolution: nat)
    requires resolution > 0
  {
    |states| == |ops| + 1 && forall i {:trigger ops[i]} :: 0 <= i < |ops| ==>
      Takes(states[i], ops[i], resolution, states[i + 1])
  }

  // How often e is scheduled, and returned, by a stretch of operations.
  ghost function Scheduled<K>(ops: seq<Op<K>>, e: Event<K>): nat {
    if ops == [] then 0
    else Scheduled(ops[..|ops| - 1], e) + (if ops[|ops| - 1] == Scheduling(e) && e.expireAt > 0 then 1 else 0)
  }

  ghost function Returned<K>(ops: seq<Op<K>>, e: Event<K>): nat {
    if ops == [] then 0
    else Returned(ops[..|ops| - 1], e) + (if ops[|ops| - 1].Advancing? then ops[|ops| - 1].returned[e] else 0)
  }

  // How often e was in the wheel when a Clear emptied it.
  ghost function Dropped<K>(ops: seq<Op<K>>, e: Event<K>): nat {
    if ops == [] then 0
    else Dropped(ops[..|ops| - 1], e) + (if ops[|ops| - 1].Clearing? then ops[|ops| - 1].dropped[e] else 0)
  }

  // Nothing is lost and nothing is returned twice: over any stretch of a run, what was
  // pending or scheduled is what was returned, was dropped by a Clear or is pending.
  lemma {:induction false} Conserved<K(!new)>(states: seq<State<K>>, ops: seq<Op<K>>, resolution: nat, lo: nat, hi: nat,
                                              e: Event<K>)
    requires resolution > 0 && Trace(states, ops, resolution) && lo <= hi <= |ops|
    ensures states[lo].pending[e] + Scheduled(ops[lo..hi], e) ==
            Returned(ops[lo..hi], e) + Dropped(ops[lo..hi], e) + states[hi].pending[e]
  {
    hide Trace, Takes;
    if lo < hi {
      TraceAt(states, ops, resolution, hi - 1);
      Conserved(states, ops, resolution, lo, hi - 1, e);
      assert ops[lo..hi][..hi - 1 - lo] == ops[lo..hi - 1] && ops[lo..hi][hi - 1 - lo] == ops[hi - 1];
      OneOp(states[hi - 1], ops[hi - 1], resolution, states[hi], e);
    }
  }

  lemma TraceAt<K(!new)>(states: seq<State<K>>, ops: seq<Op<K>>, resolution: nat, i: nat)
    requires resolution > 0 && Trace(states, ops, resolution) && i < |ops|
    ensures |states| == |ops| + 1 && Takes(states[i], ops[i], resolution, states[i + 1])
  {
  }

  lemma OneOp<K(!new)>(s: State<K>, op: Op<K>, resolution: nat, s': State<K>, e: Event<K>)
    requires resolution > 0 && Takes(s, op, resolution, s')
    ensures s.pending[e] + (if op == Scheduling(e) && e.expireAt > 0 then 1 else 0)
         == (if op.Advancing? then op.returned[e] else 0) + (if op.Clearing? then op.dropped[e] else 0) + s'.pending[e]
  {
    hide Tick, Bucket, Visited;
  }

  // Nothing is returned before its time.
  lemma NeverEarly<K(!new)>(states: seq<State<K>>, ops: seq<Op<K>>, resolution: nat, j: nat, e: Event<K>)
    requires resolution > 0 && Trace(states, ops, resolution)
    requires j < |ops| && ops[j].Advancing? && e in ops[j].returned
    ensures e.expireAt <= ops[j].now
  {
    assert Takes(states[j], ops[j], resolution, states[j + 1]);
  }

  // The tick by which an event with tick t, scheduled with the cursor at c, is drained: its
  // own when that lies ahead, otherwise the next time its bucket comes round.
  function DueTick(c: int, t: int): (d: int)
    ensures c < d && t <= d && Bucket(d) == Bucket(t)
    ensures if t > c then d == t else d <= c + 4096
  {
    if t > c then t
    else
      NextRound(c, t);
      c + 1 + (t - c - 1) % BUCKETS
  }

  lemma NextRound(c: int, t: int)
    ensures (c + 1 + (t - c - 1) % BUCKETS) % BUCKETS == t % BUCKETS
  {
    var x := t - c - 1;
    assert x == x / BUCKETS * BUCKETS + x % BUCKETS;
    assert c + 1 + x % BUCKETS == t - x / BUCKETS * BUCKETS;
  }

  // Timeliness: unless a Clear drops it before, the first Advance that reaches the due tick
  // leaves the event nowhere in the wheel, however many rotations it jumps; so by then it has
  // been returned.
  lemma ReturnedOnTime<K(!new)>(states: seq<State<K>>, ops: seq<Op<K>>, resolution: nat, i: nat, j: nat, e: Event<K>)
    requires resolution > 0 && Trace(states, ops, resolution)
    requires i < j < |ops| && ops[i] == Scheduling(e) && e.expireAt > 0
    requires ops[j].Advancing? && ops[j].now / resolution >= DueTick(states[i].cursor, Tick(e, resolution))
    requires forall m :: i < m < j ==> !ops[m].Clearing?
    requires forall m :: i < m < j && ops[m].Advancing? ==>
             ops[m].now / resolution < DueTick(states[i].cursor, Tick(e, resolution))
    ensures states[j + 1].pending[e] == 0
    ensures Returned(ops[i + 1..j + 1], e) == states[i + 1].pending[e] + Scheduled(ops[i + 1..j + 1], e) >= 1
  {
    hide Tick, Bucket, Visited, Takes, DueTick, Returned, Scheduled, Dropped;
    var due := DueTick(states[i].cursor, Tick(e, resolution));
    CursorBefore(states, ops, resolution, i, j, due);
    AdvanceReturns(states[j], ops[j], resolution, states[j + 1], e, due);
    Conserved(states, ops, resolution, i + 1, j + 1, e);
    OneOp(states[i], ops[i], resolution, states[i + 1], e);
    NothingDropped(ops[i + 1..j + 1], e);
  }

  lemma {:induction false} NothingDropped<K>(ops: seq<Op<K>>, e: Event<K>)
    requires forall m :: 0 <= m < |ops| ==> !ops[m].Clearing?
    ensures Dropped(ops, e) == 0
  {
    if ops != [] { NothingDropped(ops[..|ops| - 1], e); }
  }

  lemma AdvanceReturns<K(!new)>(s: State<K>, op: Op<K>, resolution: nat, s': State<K>, e: Event<K>, due: int)
    requires resolution > 0 && Takes(s, op, resolution, s') && op.Advancing?
    requires s.cursor < due <= op.now / resolution && Tick(e, resolution) <= due &&
             Bucket(due) == Bucket(Tick(e, resolution))
    ensures s'.pending[e] == 0
  {
    hide Tick, Bucket, Visited;
    TickBounds(e, resolution, op.now);
    VisitedAt(due, s.cursor, op.now / resolution);
  }

  lemma VisitedAt(t: int, from: int, to: int)
    requires from < t <= to
    ensures Visited(Bucket(t), from, to)
  {
  }

  lemma {:induction false} CursorBefore<K(!new)>(states: seq<State<K>>, ops: seq<Op<K>>, resolution: nat, i: nat,
                                                 j: nat, due: int)
    requires resolution > 0 && Trace(states, ops, resolution) && i < j <= |ops|
    requires ops[i].Scheduling? && states[i].cursor < due
    requires forall m :: i < m < j ==> !ops[m].Clearing?
    requires forall m :: i < m < j && ops[m].Advancing? ==> ops[m].now / resolution < due
    ensures states[j].cursor < due
  {
    hide Tick, Bucket, Visited;
    assert Takes(states[j - 1], ops[j - 1], resolution, states[j]);
    if i + 1 < j {
      CursorBefore(states, ops, resolution, i, j - 1, due);
    }
  }

  // ----- the same runs, made on a wheel -----

  datatype Request<K> = ToSchedule(e: Event<K>) | ToAdvance(now: nat) | ToClear(now: nat)

  // The operation a request and the events returned to it amount to.
  ghost predicate Fits<K>(request: Request<K>, returned: seq<Event<K>>, op: Op<K>) {
    match request
    case ToSchedule(e) => op == Scheduling(e) && returned == []
    case ToAdvance(now) => op == Advancing(now, multiset(returned))
    case ToClear(now) => op.Clearing? && op.now == now && returned == []
  }

  lemma TraceOneMore<K(!new)>(states: seq<State<K>>, ops: seq<Op<K>>, resolution: nat, op: Op<K>, s: State<K>)
    requires resolution > 0 && Trace(states, ops, resolution) && Takes(states[|ops|], op, resolution, s)
    ensures Trace(states + [s], ops + [op], resolution)
  {
    hide Takes;
    forall i | 0 <= i < |ops| + 1
      ensures Takes((states + [s])[i], (ops + [op])[i], resolution, (states + [s])[i + 1])
    {
      if i < |ops| { TraceAt(states, ops, resolution, i); }
    }
  }

  method Serve<K(!new)>(w: Wheel<K>, request: Request<K>) returns (returned: seq<Event<K>>, ghost op: Op<K>)
    requires w.Valid()
    modifies w, w.buckets
    ensures w.Valid() && w.resolution > 0 && Fits(request, returned, op)
    ensures Takes(State(old(w.currentTick), old(w.pending)), op, w.resolution, State(w.currentTick, w.pending))
  {
    hide Wheel.Valid, Advances;
    w.Ticking();
    returned := [];
    match request {
      case ToSchedule(e) =>
        w.Schedule(e);
        op := Scheduling(e);
      case ToAdvance(now) =>
        returned := w.Advance(now);
        op := Advancing(now, multiset(returned));
      case ToClear(now) =>
        op := Clearing(now, w.pending);
        w.Clear(now);
    }
  }

  // Whatever is asked of a wheel is a run as above, from the state it was in to the one it is
  // left in; so nothing is lost, returned twice, early or late.
  method Replay<K(!new)>(w: Wheel<K>, requests: seq<Request<K>>)
    returns (returned: seq<seq<Event<K>>>, ghost states: seq<State<K>>, ghost ops: seq<Op<K>>)
    requires w.Valid()
    modifies w, w.buckets
    ensures w.Valid() && w.resolution > 0 && Trace(states, ops, w.resolution)
    ensures |returned| == |ops| == |requests|
    ensures forall i :: 0 <= i < |ops| ==> Fits(requests[i], returned[i], ops[i])
    ensures states[0] == State(old(w.currentTick), old(w.pending))
    ensures states[|ops|] == State(w.currentTick, w.pending)
    ensures forall e :: old(w.pending)[e] + Scheduled(ops, e) == Returned(ops, e) + Dropped(ops, e) + w.pending[e]
  {
    hide Wheel.Valid, Takes, Fits, Scheduled, Returned, Dropped, Trace;
    w.Ticking();
    returned, ops := [], [];
    states := [State(w.currentTick, w.pending)];
    NoTrace(states[0], w.resolution);
    for i := 0 to |requests|
      invariant w.Valid() && Trace(states, ops, w.resolution)
      invariant |returned| == |ops| == i && |states| == i + 1
      invariant forall j :: 0 <= j < i ==> Fits(requests[j], returned[j], ops[j])
      invariant states[0] == State(old(w.currentTick), old(w.pending))
      invariant states[i] == State(w.currentTick, w.pending)
    {
      ghost var op;
      var answer;
      answer, op := Serve(w, requests[i]);
      TraceOneMore(states, ops, w.resolution, op, State(w.currentTick, w.pending));
      returned, ops, states := returned + [answer], ops + [op], states + [State(w.currentTick, w.pending)];
    }
    forall e ensures old(w.pending)[e] + Scheduled(ops, e) == Returned(ops, e) + Dropped(ops, e) + w.pending[e] {
      Conserved(states, ops, w.resolution, 0, |ops|, e);
      assert ops[0..|ops|] == ops;
    }
  }

  lemma NoTrace<K(!new)>(s: State<K>, resolution: nat)
    requires resolution > 0
    ensures Trace([s], [], resolution)
  {
  }
}
