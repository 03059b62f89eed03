// The lock-free ring buffer and the flush loop that drains it.
//
// Every atomic load, compare-and-swap, plain write and publish of `Push` and `Pop`
// is one event, so a run is any interleaving of any number of producers with the
// single consumer goroutine.  Tickets are the values of `tail` won by a CAS.
module Ring {
  import opened Common

  // The `value` and `seq` (here `stamp`) of a node; `None` is the zeroed value.
  datatype Slot<T> = Slot(value: Option<T>, stamp: nat)

  // Program counter of one goroutine executing RingBuffer.Push(item).
  datatype Producer<T> =
    | Idle
    | Start(item: T)                 // about to load tail
    | GotTail(item: T, ticket: nat)  // tail loaded, about to load the slot's seq
    | SawFree(item: T, ticket: nat)  // seq == tail, about to CAS tail
    | Claimed(item: T, ticket: nat)  // CAS won, about to write the value
    | Wrote(item: T, ticket: nat)    // value written, about to publish seq

  // What the current flush was started for.
  datatype Mode = Batch | All | Sync(id: nat)

  // Program counter of the consumer goroutine (flushLoop and the functions it calls).
  datatype Consumer<T> =
    | Waiting                              // blocked in select
    | PopStart(mode: Mode)                 // about to load head
    | PopGotHead(mode: Mode, h: nat)       // about to load seq
    | PopAvailable(mode: Mode, h: nat)     // seq == head+1, about to CAS head
    | PopRead(mode: Mode, h: nat)          // about to read the value
    | PopClear(mode: Mode, h: nat, v: Option<T>)    // about to clear the value
    | PopRelease(mode: Mode, h: nat, v: Option<T>)  // about to store seq and append to the batch
    | Emit(mode: Mode)                     // batch complete, about to call flushFn
    | EmptyCheck(mode: Mode)               // flushAll: about to load tail in IsEmpty
    | EmptyHead(mode: Mode, t: nat)        // flushAll: tail loaded, about to load head

  // A pending FlushSync call: what had been acknowledged and claimed when it was made.
  datatype SyncCall = SyncCall(acked: set<nat>, claimed: nat)

  datatype State<T> = State(
    batchSize: nat,
    slots: seq<Slot<T>>,
    head: nat,
    tail: nat,
    producers: map<nat, Producer<T>>,
    consumer: Consumer<T>,
    batch: seq<Option<T>>,
    // history
    claims: seq<Option<T>>,    // items in the order their tail CAS succeeded
    acked: set<nat>,           // tickets whose Push has returned true
    flushed: seq<seq<Option<T>>>, // the batches given to flushFn, in order
    calls: map<nat, SyncCall>, // FlushSync calls made so far
    done: set<nat>             // FlushSync calls whose done channel is closed
  )

  datatype Event<T> =
    | BeginPush(p: nat, item: T)
    | LoadTail(p: nat)
    | LoadSeq(p: nat)
    | CasTail(p: nat)
    | WriteValue(p: nat)
    | Publish(p: nat)
    | CallFlushSync(id: nat)
    | BeginFlush(mode: Mode)
    | ConsumerStep

  function Cap<T>(s: State<T>): nat { |s.slots| }

  // tail & mask for a ring of `cap` slots: the remainder modulo cap (IndexIsRemainder).
  function Index(n: nat, cap: nat): (i: nat)
    requires cap > 0
    ensures i < cap
    decreases n
  {
    if n < cap then n else Index(n - cap, cap)
  }

  function At<T>(s: State<T>, n: nat): Slot<T>
    requires Cap(s) > 0
  {
    s.slots[Index(n, Cap(s))]
  }

  function Put<T>(s: State<T>, n: nat, slot: Slot<T>): State<T>
    requires Cap(s) > 0
  {
    s.(slots := s.slots[Index(n, Cap(s)) := slot])
  }

  function Initial<T>(cap: nat, batchSize: nat): State<T> {
    State(batchSize, seq(cap, i requires 0 <= i => Slot(None, i)), 0, 0, map[], Waiting, [], [], {}, [], map[], {})
  }

  function ProducerAt<T>(s: State<T>, p: nat): Producer<T> {
    if p in s.producers then s.producers[p] else Idle
  }

  predicate Enabled<T>(s: State<T>, e: Event<T>) {
    && Cap(s) > 0
    && match e
       case BeginPush(p, _) => ProducerAt(s, p).Idle?
       case LoadTail(p) => ProducerAt(s, p).Start?
       case LoadSeq(p) => ProducerAt(s, p).GotTail?
       case CasTail(p) => ProducerAt(s, p).SawFree?
       case WriteValue(p) => ProducerAt(s, p).Claimed?
       case Publish(p) => ProducerAt(s, p).Wrote?
       case CallFlushSync(id) => id !in s.calls
       case BeginFlush(mode) => s.consumer.Waiting? && (mode.Sync? ==> mode.id in s.calls && mode.id !in s.done)
       case ConsumerStep => !s.consumer.Waiting?
  }

  function Step<T>(s: State<T>, e: Event<T>): State<T>
    requires Enabled(s, e)
  {
    match e
    case BeginPush(p, item) => s.(producers := s.producers[p := Start(item)])
    case LoadTail(p) => s.(producers := s.producers[p := GotTail(s.producers[p].item, s.tail)])
    case LoadSeq(p) =>
      var GotTail(item, t) := s.producers[p];
      var seen := At(s, t).stamp;
      var next := if seen == t then SawFree(item, t)
                  else if seen < t then Idle      // full: Push returns false
                  else Start(item);               // another producer got there first
      s.(producers := s.producers[p := next])
    case CasTail(p) =>
      var SawFree(item, t) := s.producers[p];
      if s.tail == t then
        s.(tail := t + 1, claims := s.claims + [Some(item)], producers := s.producers[p := Claimed(item, t)])
      else
        s.(producers := s.producers[p := Start(item)])
    case WriteValue(p) =>
      var Claimed(item, t) := s.producers[p];
      Put(s, t, At(s, t).(value := Some(item))).(producers := s.producers[p := Wrote(item, t)])
    case Publish(p) =>
      var t := s.producers[p].ticket;
      Put(s, t, At(s, t).(stamp := t + 1)).(producers := s.producers[p := Idle], acked := s.acked + {t})
    case CallFlushSync(id) => s.(calls := s.calls[id := SyncCall(s.acked, s.tail)])
    case BeginFlush(mode) => s.(consumer := PopStart(mode), batch := [])
    case ConsumerStep => ConsumerNext(s)
  }

  function ConsumerNext<T>(s: State<T>): State<T>
    requires Cap(s) > 0 && !s.consumer.Waiting?
  {
    match s.consumer
    case PopStart(mode) => s.(consumer := PopGotHead(mode, s.head))
    case PopGotHead(mode, h) =>
      var seen := At(s, h).stamp;
      if seen == h + 1 then s.(consumer := PopAvailable(mode, h))
      else if seen == h then s.(consumer := Emit(mode))   // empty
      else s.(consumer := PopStart(mode))
    case PopAvailable(mode, h) =>
      if s.head == h then s.(head := h + 1, consumer := PopRead(mode, h))
      else s.(consumer := PopStart(mode))
    case PopRead(mode, h) => s.(consumer := PopClear(mode, h, At(s, h).value))
    case PopClear(mode, h, v) =>
      Put(s, h, At(s, h).(value := None)).(consumer := PopRelease(mode, h, v))
    case PopRelease(mode, h, v) =>
      var batch := s.batch + [v];
      Put(s, h, At(s, h).(stamp := h + Cap(s)))
      .(batch := batch, consumer := if |batch| >= s.batchSize then Emit(mode) else PopStart(mode))
    case Emit(mode) =>
      s.(flushed := if |s.batch| > 0 then s.flushed + [s.batch] else s.flushed,
         batch := [],
         consumer := if mode.Batch? then Waiting else EmptyCheck(mode))
    case EmptyCheck(mode) => s.(consumer := EmptyHead(mode, s.tail))
    case EmptyHead(mode, t) =>
      if t - s.head == 0 then
        s.(consumer := Waiting, done := if mode.Sync? then s.done + {mode.id} else s.done)
      else
        s.(consumer := PopStart(mode), batch := [])
  }

  // ----- the invariant -----

  // The number of slots already handed back to producers.
  function Released<T>(s: State<T>): int {
    if s.consumer.PopRead? || s.consumer.PopClear? || s.consumer.PopRelease? then s.head - 1 else s.head
  }

  ghost predicate Holds<T>(pr: Producer<T>, n: nat) {
    (pr.Claimed? || pr.Wrote?) && pr.ticket == n
  }

  ghost predicate Owned<T>(s: State<T>, n: nat) {
    exists p :: p in s.producers && Holds(s.producers[p], n)
  }

  // head and tail stay within one lap, and the history has one item per ticket.
  ghost predicate ShapeOk<T>(s: State<T>) {
    && Cap(s) >= 2
    && s.batchSize >= 1
    && s.tail == |s.claims|
    && 0 <= Released(s)
    && s.head <= s.tail <= Released(s) + Cap(s)
    && (forall k :: 0 <= k < |s.claims| ==> s.claims[k].Some?)
  }

  // The slot of ticket n, for n in the window of Cap(s) tickets from Released(s) on.
  ghost predicate SlotOk<T>(s: State<T>, n: nat)
    requires ShapeOk(s)
  {
    if n >= s.tail then At(s, n).stamp == n
    else if At(s, n).stamp == n + 1 then
      n in s.acked && ((s.consumer.PopRelease? && s.consumer.h == n) || At(s, n).value == s.claims[n])
    else
      At(s, n).stamp == n && n >= s.head && n !in s.acked && Owned(s, n)
  }

  ghost predicate SlotsOk<T>(s: State<T>)
    requires ShapeOk(s)
  {
    forall n :: Released(s) <= n < Released(s) + Cap(s) ==> SlotOk(s, n)
  }

  ghost predicate ProducerOk<T>(s: State<T>, pr: Producer<T>)
    requires ShapeOk(s)
  {
    match pr
    case GotTail(_, t) => t <= s.tail
    case SawFree(_, t) => t <= s.tail && t < Released(s) + Cap(s)
    case Claimed(item, t) => s.head <= t < s.tail && At(s, t).stamp == t && s.claims[t] == Some(item)
    case Wrote(item, t) => s.head <= t < s.tail && At(s, t) == Slot(Some(item), t) && s.claims[t] == Some(item)
    case _ => true
  }

  ghost predicate ProducersOk<T>(s: State<T>)
    requires ShapeOk(s)
  {
    forall p :: p in s.producers ==> ProducerOk(s, s.producers[p])
  }

  // No ticket is held by two producers.
  ghost predicate TicketsDistinct<T>(s: State<T>) {
    forall p, q :: p in s.producers && q in s.producers && p != q ==> !SameTicket(s.producers[p], s.producers[q])
  }

  predicate SameTicket<T>(a: Producer<T>, b: Producer<T>) {
    (a.Claimed? || a.Wrote?) && (b.Claimed? || b.Wrote?) && a.ticket == b.ticket
  }

  predicate Popping<T>(c: Consumer<T>) {
    c.PopStart? || c.PopGotHead? || c.PopAvailable? || c.PopRead? || c.PopClear? || c.PopRelease?
  }

  ghost predicate ConsumerOk<T>(s: State<T>)
    requires ShapeOk(s)
  {
    && (s.consumer.Waiting? || s.consumer.EmptyCheck? || s.consumer.EmptyHead? ==> s.batch == [])
    && (Popping(s.consumer) ==> |s.batch| < s.batchSize)
    && (!s.consumer.Waiting? && s.consumer.mode.Sync? ==> s.consumer.mode.id in s.calls)
    && match s.consumer
       case PopGotHead(_, h) => h == s.head
       case PopAvailable(_, h) => h == s.head && h < s.tail && At(s, h).stamp == h + 1
       case PopRead(_, h) => h + 1 == s.head <= s.tail && At(s, h).stamp == h + 1
       case PopClear(_, h, v) => h + 1 == s.head <= s.tail && At(s, h).stamp == h + 1 && v == s.claims[h]
       case PopRelease(_, h, v) => h + 1 == s.head <= s.tail && At(s, h).stamp == h + 1 && v == s.claims[h]
       case EmptyHead(mode, t) => s.head <= t <= s.tail && (mode.Sync? ==> s.calls[mode.id].claimed <= t)
       case _ => true
  }

  function Concat<T>(bs: seq<seq<T>>): seq<T> {
    if bs == [] then [] else Concat(bs[..|bs| - 1]) + bs[|bs| - 1]
  }

  // Everything popped so far, in batches of 1..batchSize items, is a prefix of the claims.
  ghost predicate FlowOk<T>(s: State<T>)
    requires ShapeOk(s)
  {
    && Concat(s.flushed) + s.batch == s.claims[..Released(s)]
    && |s.batch| <= s.batchSize
    && (forall k :: 0 <= k < |s.flushed| ==> 1 <= |s.flushed[k]| <= s.batchSize)
  }

  // A finished FlushSync call has had everything claimed before it flushed.
  ghost predicate CallsOk<T>(s: State<T>) {
    && (forall n :: n in s.acked ==> n < s.tail)
    && (forall id :: id in s.calls ==> s.calls[id].acked <= s.acked && s.calls[id].claimed <= s.tail)
    && (forall id, n :: id in s.calls && n in s.calls[id].acked ==> n < s.calls[id].claimed)
    && (forall id :: id in s.done ==> id in s.calls && s.calls[id].claimed <= |Concat(s.flushed)|)
  }

  ghost predicate Inv<T>(s: State<T>) {
    ShapeOk(s) && SlotsOk(s) && ProducersOk(s) && TicketsDistinct(s) && ConsumerOk(s) && FlowOk(s) && CallsOk(s)
  }

  // ----- ring indices -----

  lemma {:induction false} IndexIsRemainder(n: nat, cap: nat)
    requires cap > 0
    ensures Index(n, cap) == n % cap
  {
    if n >= cap {
      IndexIsRemainder(n - cap, cap);
      RemainderIs(n, (n - cap) / cap + 1, (n - cap) % cap, cap);
    }
  }

  // Consecutive tickets up to one lap apart use different slots; one lap apart, the same.
  lemma {:induction false} IndexOfWindow(a: nat, b: nat, cap: nat)
    requires cap > 0 && a < b <= a + cap
    ensures b < a + cap ==> Index(a, cap) != Index(b, cap)
    ensures b == a + cap ==> Index(a, cap) == Index(b, cap)
    decreases a
  {
    if a >= cap { IndexOfWindow(a - cap, b - cap, cap); }
  }

  lemma WindowInjective(lo: nat, cap: nat)
    requires cap > 0
    ensures forall a: nat, b: nat :: lo <= a < lo + cap && lo <= b < lo + cap && a != b ==>
            Index(a, cap) != Index(b, cap)
  {
    forall a: nat, b: nat | lo <= a < lo + cap && lo <= b < lo + cap && a != b ensures Index(a, cap) != Index(b, cap) {
      if a < b { IndexOfWindow(a, b, cap); } else { IndexOfWindow(b, a, cap); }
    }
  }

  // ----- every event preserves the invariant -----

  lemma InitialInv<T>(cap: nat, batchSize: nat)
    requires cap >= 2 && batchSize >= 1
    ensures Inv(Initial<T>(cap, batchSize))
  {
  }

  // A producer that found its slot free may claim it: with two or more slots a
  // ticket one lap ahead never sees its own number in an occupied slot.
  lemma FreeSlotIsInWindow<T>(s: State<T>, t: nat)
    requires Inv(s) && t <= s.tail && At(s, t).stamp == t
    ensures t < Released(s) + Cap(s)
  {
    var r: nat := Released(s);
    IndexOfWindow(r, r + Cap(s), Cap(s));
    assert SlotOk(s, r);
  }

  // Producer p moves without holding a ticket before or after.
  lemma ProducerMoves<T>(s: State<T>, p: nat, pr: Producer<T>, s': State<T>)
    requires Inv(s) && s' == s.(producers := s.producers[p := pr])
    requires !ProducerAt(s, p).Claimed? && !ProducerAt(s, p).Wrote? && !pr.Claimed? && !pr.Wrote?
    requires ProducerOk(s, pr)
    ensures Inv(s')
  {
    hide Index, Concat;
    assert ShapeOk(s') && ConsumerOk(s') && FlowOk(s') && CallsOk(s');
    assert SlotsOk(s') by {
      forall n | Released(s') <= n < Released(s') + Cap(s') ensures SlotOk(s', n) {
        assert SlotOk(s, n);
        if Owned(s, n) {
          var q :| q in s.producers && Holds(s.producers[q], n);
          assert Holds(s'.producers[q], n);
        }
      }
    }
    assert ProducersOk(s') by {
      forall q | q in s'.producers ensures ProducerOk(s', s'.producers[q]) {
        if q != p { assert ProducerOk(s, s.producers[q]); }
      }
    }
  }

  lemma QuietStepInv<T>(s: State<T>, e: Event<T>)
    requires Inv(s) && Enabled(s, e)
    requires e.BeginPush? || e.LoadTail? || e.LoadSeq?
    ensures Inv(Step(s, e))
  {
    var s' := Step(s, e);
    if e.LoadSeq? {
      assert ProducerOk(s, s.producers[e.p]);
      var t := s.producers[e.p].ticket;
      if At(s, t).stamp == t { FreeSlotIsInWindow(s, t); }
    }
    ProducerMoves(s, e.p, s'.producers[e.p], s');
  }

  lemma CasTailInv<T>(s: State<T>, e: Event<T>)
    requires Inv(s) && Enabled(s, e) && e.CasTail?
    ensures Inv(Step(s, e))
  {
    var s' := Step(s, e);
    var t := s.producers[e.p].ticket;
    assert ProducerOk(s, s.producers[e.p]);
    if s.tail != t {
      ProducerMoves(s, e.p, s'.producers[e.p], s');
      return;
    }
    assert SlotOk(s, t);
    assert ShapeOk(s');
    CasWinSlots(s, e.p, s');
    CasWinProducers(s, e.p, s');
    CasWinHistory(s, e.p, s');
  }

  lemma CasWinSlots<T>(s: State<T>, p: nat, s': State<T>)
    requires Inv(s) && Enabled(s, CasTail(p)) && s' == Step(s, CasTail(p)) && s.tail == s.producers[p].ticket
    requires ShapeOk(s')
    ensures SlotsOk(s')
  {
    hide Index, Concat;
    forall n | Released(s') <= n < Released(s') + Cap(s') ensures SlotOk(s', n) {
      assert SlotOk(s, n);
      if n == s.tail {
        assert Holds(s'.producers[p], n);
      } else if Owned(s, n) {
        var q :| q in s.producers && Holds(s.producers[q], n);
        assert Holds(s'.producers[q], n);
      }
    }
  }

  lemma CasWinHistory<T>(s: State<T>, p: nat, s': State<T>)
    requires Inv(s) && Enabled(s, CasTail(p)) && s' == Step(s, CasTail(p)) && s.tail == s.producers[p].ticket
    requires ShapeOk(s')
    ensures ConsumerOk(s') && FlowOk(s') && CallsOk(s')
  {
    assert s'.claims[..Released(s')] == s.claims[..Released(s)];
  }

  lemma CasWinProducers<T>(s: State<T>, p: nat, s': State<T>)
    requires Inv(s) && Enabled(s, CasTail(p)) && s' == Step(s, CasTail(p)) && s.tail == s.producers[p].ticket
    requires ShapeOk(s') && At(s, s.tail).stamp == s.tail
    ensures ProducersOk(s') && TicketsDistinct(s')
  {
    hide Index, Concat;
    forall q | q in s'.producers ensures ProducerOk(s', s'.producers[q]) {
      if q != p { assert ProducerOk(s, s.producers[q]); }
    }
    forall q, r | q in s'.producers && r in s'.producers && q != r
      ensures !SameTicket(s'.producers[q], s'.producers[r])
    {
      assert ProducerOk(s, s.producers[q]) && ProducerOk(s, s.producers[r]);
      assert !SameTicket(s.producers[q], s.producers[r]);
    }
  }

  // Producer p, the owner of ticket t, changes the slot of t and itself; it keeps
  // the ticket (write) or hands it over (publish).
  lemma OwnerWrites<T>(s: State<T>, p: nat, slot: Slot<T>, s': State<T>)
    requires Inv(s) && p in s.producers && (s.producers[p].Claimed? || s.producers[p].Wrote?)
    requires s'.slots == Put(s, s.producers[p].ticket, slot).slots
    ensures forall n :: Released(s) <= n < Released(s) + Cap(s) && n != s.producers[p].ticket ==> At(s', n) == At(s, n)
    ensures forall q :: q in s.producers && q != p && (s.producers[q].Claimed? || s.producers[q].Wrote?) ==>
              s.producers[q].ticket != s.producers[p].ticket &&
                At(s', s.producers[q].ticket) == At(s, s.producers[q].ticket)
    ensures s.head <= s.producers[p].ticket < s.tail
  {
    WindowInjective(Released(s), Cap(s));
    assert ProducerOk(s, s.producers[p]);
    forall q | q in s.producers && q != p && (s.producers[q].Claimed? || s.producers[q].Wrote?)
      ensures s.producers[q].ticket != s.producers[p].ticket &&
              At(s', s.producers[q].ticket) == At(s, s.producers[q].ticket)
    {
      assert !SameTicket(s.producers[p], s.producers[q]);
      assert ProducerOk(s, s.producers[q]);
    }
  }

  lemma WriteValueInv<T>(s: State<T>, e: Event<T>)
    requires Inv(s) && Enabled(s, e) && e.WriteValue?
    ensures Inv(Step(s, e))
  {
    hide Index, Concat;
    var s' := Step(s, e);
    OwnerWrites(s, e.p, At(s', s.producers[e.p].ticket), s');
    assert ProducerOk(s, s.producers[e.p]);
    assert SlotsOk(s') by {
      forall n | Released(s') <= n < Released(s') + Cap(s') ensures SlotOk(s', n) {
        assert SlotOk(s, n);
        if Owned(s, n) {
          var q :| q in s.producers && Holds(s.producers[q], n);
          assert Holds(s'.producers[q], n);
        }
      }
    }
    OthersKept(s, e.p, s');
    WriteValueHistory(s, e, s');
  }

  lemma WriteValueHistory<T>(s: State<T>, e: Event<T>, s': State<T>)
    requires Inv(s) && Enabled(s, e) && e.WriteValue? && s' == Step(s, e) && ShapeOk(s')
    requires forall n :: Released(s) <= n < Released(s) + Cap(s) && n != s.producers[e.p].ticket ==>
             At(s', n) == At(s, n)
    requires ProducerOk(s, s.producers[e.p])
    ensures ConsumerOk(s') && FlowOk(s') && CallsOk(s')
  {
    hide Index, Concat, SlotOk;
  }

  lemma OthersKept<T>(s: State<T>, p: nat, s': State<T>)
    requires Inv(s) && ShapeOk(s') && p in s'.producers
    requires s'.producers.Keys == s.producers.Keys + {p} && forall q :: q in s.producers && q != p ==>
             s'.producers[q] == s.producers[q]
    requires s'.tail == s.tail && s'.head == s.head && s'.claims == s.claims && Cap(s') == Cap(s) &&
             Released(s') == Released(s)
    requires forall q :: q in s.producers && q != p && (s.producers[q].Claimed? || s.producers[q].Wrote?) ==>
              At(s', s.producers[q].ticket) == At(s, s.producers[q].ticket)
    requires ProducerOk(s', s'.producers[p])
    requires p in s.producers && (SameTicket(s'.producers[p], s.producers[p]) || s'.producers[p].Idle?)
    ensures ProducersOk(s') && TicketsDistinct(s')
  {
    hide Index, Concat;
    forall q | q in s'.producers ensures ProducerOk(s', s'.producers[q]) {
      if q != p { assert ProducerOk(s, s.producers[q]); }
    }
    forall q, r | q in s'.producers && r in s'.producers && q != r
      ensures !SameTicket(s'.producers[q], s'.producers[r])
    {
      assert !SameTicket(s.producers[q], s.producers[r]);
    }
  }

  lemma PublishInv<T>(s: State<T>, e: Event<T>)
    requires Inv(s) && Enabled(s, e) && e.Publish?
    ensures Inv(Step(s, e))
  {
    var s' := Step(s, e);
    var t := s.producers[e.p].ticket;
    OwnerWrites(s, e.p, At(s', t), s');
    assert ProducerOk(s, s.producers[e.p]);
    assert ShapeOk(s');
    PublishSlots(s, e.p, s');
    OthersKept(s, e.p, s');
    PublishHistory(s, e.p, s');
  }

  lemma PublishSlots<T>(s: State<T>, p: nat, s': State<T>)
    requires Inv(s) && Enabled(s, Publish(p)) && s' == Step(s, Publish(p)) && ShapeOk(s')
    requires ProducerOk(s, s.producers[p])
    requires forall n :: Released(s) <= n < Released(s) + Cap(s) && n != s.producers[p].ticket ==> At(s', n) == At(s, n)
    ensures SlotsOk(s')
  {
    hide Index, Concat;
    forall n | Released(s') <= n < Released(s') + Cap(s') ensures SlotOk(s', n) {
      assert SlotOk(s, n);
      if n != s.producers[p].ticket && Owned(s, n) {
        var q :| q in s.producers && Holds(s.producers[q], n);
        assert Holds(s'.producers[q], n);
      }
    }
  }

  lemma PublishHistory<T>(s: State<T>, p: nat, s': State<T>)
    requires Inv(s) && Enabled(s, Publish(p)) && s' == Step(s, Publish(p)) && ShapeOk(s')
    requires ProducerOk(s, s.producers[p])
    requires forall n :: Released(s) <= n < Released(s) + Cap(s) && n != s.producers[p].ticket ==> At(s', n) == At(s, n)
    ensures ConsumerOk(s') && FlowOk(s') && CallsOk(s')
  {
  }

  lemma CallInv<T>(s: State<T>, e: Event<T>)
    requires Inv(s) && Enabled(s, e) && (e.CallFlushSync? || e.BeginFlush?)
    ensures Inv(Step(s, e))
  {
    hide Index;
    var s' := Step(s, e);
    assert ShapeOk(s');
    ConsumerMoves(s, s');
    assert ConsumerOk(s');
    assert FlowOk(s') && CallsOk(s');
  }

  // The consumer, or a caller of FlushSync, moves without touching slots or tickets.
  lemma ConsumerMoves<T>(s: State<T>, s': State<T>)
    requires Inv(s) && ShapeOk(s')
    requires s'.slots == s.slots && s'.tail == s.tail && s'.claims == s.claims && s'.acked == s.acked &&
             s'.producers == s.producers
    requires s'.head >= s.head && Released(s') == Released(s)
    requires s'.head > s.head ==> s'.head == s.head + 1 && At(s, s.head).stamp == s.head + 1
    requires s.consumer.PopRelease? ==> s'.consumer == s.consumer
    ensures SlotsOk(s') && ProducersOk(s') && TicketsDistinct(s')
  {
    hide Index, Concat;
    forall n | Released(s') <= n < Released(s') + Cap(s') ensures SlotOk(s', n) {
      assert SlotOk(s, n);
      if Owned(s, n) { assert Owned(s', n); }
    }
    forall p | p in s.producers ensures ProducerOk(s', s'.producers[p]) {
      assert ProducerOk(s, s.producers[p]);
    }
  }

  predicate TouchesSlot<T>(c: Consumer<T>) { c.PopClear? || c.PopRelease? }

  lemma ConsumerQuietInv<T>(s: State<T>)
    requires Inv(s) && !s.consumer.Waiting? && !TouchesSlot(s.consumer)
    ensures Inv(ConsumerNext(s))
  {
    hide Index, Concat;
    var s' := ConsumerNext(s);
    assert ShapeOk(s');
    ConsumerMoves(s, s');
    ConsumerQuietPc(s, s');
    ConsumerQuietHistory(s, s');
  }

  lemma ConsumerQuietPc<T>(s: State<T>, s': State<T>)
    requires ShapeOk(s) && SlotsOk(s) && ConsumerOk(s) && CallsOk(s)
    requires !s.consumer.Waiting? && !TouchesSlot(s.consumer) && s' == ConsumerNext(s) && ShapeOk(s')
    ensures ConsumerOk(s')
  {
    hide Index, Concat;
    if s.consumer.PopGotHead? || s.consumer.PopRead? {
      assert SlotOk(s, s.consumer.h);
    }
  }

  lemma ConsumerQuietHistory<T>(s: State<T>, s': State<T>)
    requires ShapeOk(s) && FlowOk(s) && ConsumerOk(s) && CallsOk(s)
    requires !s.consumer.Waiting? && !TouchesSlot(s.consumer) && s' == ConsumerNext(s) && ShapeOk(s')
    ensures FlowOk(s') && CallsOk(s')
  {
    hide *;
    if s.consumer.Emit? {
      EmitHistory(s, s');
    } else if s.consumer.EmptyHead? {
      EmptyHistory(s, s');
    } else {
      PopHistory(s, s');
    }
  }

  lemma EmitHistory<T>(s: State<T>, s': State<T>)
    requires ShapeOk(s) && FlowOk(s) && CallsOk(s) && s.consumer.Emit? && s' == ConsumerNext(s) && ShapeOk(s')
    ensures FlowOk(s') && CallsOk(s')
  {
    hide Index, Concat;
    EmitConcat(s, s');
  }

  lemma EmptyHistory<T>(s: State<T>, s': State<T>)
    requires ShapeOk(s) && FlowOk(s) && ConsumerOk(s) && CallsOk(s)
    requires s.consumer.EmptyHead? && s' == ConsumerNext(s) && ShapeOk(s')
    ensures FlowOk(s') && CallsOk(s')
  {
    hide Index, Concat;
    SyncDone(s, s');
  }

  lemma PopHistory<T>(s: State<T>, s': State<T>)
    requires ShapeOk(s) && FlowOk(s) && ConsumerOk(s) && CallsOk(s)
    requires !s.consumer.Waiting? && !TouchesSlot(s.consumer) && !s.consumer.Emit? && !s.consumer.EmptyHead?
    requires s' == ConsumerNext(s) && ShapeOk(s')
    ensures FlowOk(s') && CallsOk(s')
  {
    hide Index, Concat;
  }

  lemma SyncDone<T>(s: State<T>, s': State<T>)
    requires ShapeOk(s) && FlowOk(s) && ConsumerOk(s) && CallsOk(s)
    requires s.consumer.EmptyHead? && s' == ConsumerNext(s)
    ensures CallsOk(s')
  {
    assert |Concat(s.flushed) + s.batch| == s.head;
  }

  lemma EmitConcat<T>(s: State<T>, s': State<T>)
    requires s.consumer.Emit? && Cap(s) > 0 && s' == ConsumerNext(s)
    ensures Concat(s'.flushed) + s'.batch == Concat(s.flushed) + s.batch
    ensures |Concat(s.flushed)| <= |Concat(s'.flushed)|
  {
    if |s.batch| > 0 {
      assert s'.flushed[..|s'.flushed| - 1] == s.flushed;
    }
  }

  lemma ConsumerClearInv<T>(s: State<T>)
    requires Inv(s) && s.consumer.PopClear?
    ensures Inv(ConsumerNext(s))
  {
    var s' := ConsumerNext(s);
    WindowInjective(Released(s), Cap(s));
    assert ShapeOk(s');
    forall n | Released(s') <= n < Released(s') + Cap(s') ensures SlotOk(s', n) {
      assert SlotOk(s, n);
      if Owned(s, n) { assert Owned(s', n); }
    }
    forall p | p in s.producers ensures ProducerOk(s', s'.producers[p]) {
      assert ProducerOk(s, s.producers[p]);
    }
    assert ConsumerOk(s') && FlowOk(s') && CallsOk(s');
  }

  lemma ConsumerReleaseInv<T>(s: State<T>)
    requires Inv(s) && s.consumer.PopRelease?
    ensures Inv(ConsumerNext(s))
  {
    hide Index;
    var s' := ConsumerNext(s);
    var h := s.consumer.h;
    WindowInjective(Released(s), Cap(s));
    IndexOfWindow(h, h + Cap(s), Cap(s));
    assert ShapeOk(s');
    forall n | Released(s') <= n < Released(s') + Cap(s') ensures SlotOk(s', n) {
      if n < h + Cap(s) {
        assert SlotOk(s, n);
        if Owned(s, n) { assert Owned(s', n); }
      }
    }
    forall p | p in s.producers ensures ProducerOk(s', s'.producers[p]) {
      assert ProducerOk(s, s.producers[p]);
    }
    assert s.claims[..h + 1] == s.claims[..h] + [s.claims[h]];
    assert ConsumerOk(s') && FlowOk(s') && CallsOk(s');
  }

  lemma StepInv<T>(s: State<T>, e: Event<T>)
    requires Inv(s) && Enabled(s, e)
    ensures Inv(Step(s, e))
  {
    match e
    case CasTail(_) => CasTailInv(s, e);
    case WriteValue(_) => WriteValueInv(s, e);
    case Publish(_) => PublishInv(s, e);
    case CallFlushSync(_) => CallInv(s, e);
    case BeginFlush(_) => CallInv(s, e);
    case ConsumerStep =>
      match s.consumer {
        case PopClear(_, _, _) => ConsumerClearInv(s);
        case PopRelease(_, _, _) => ConsumerReleaseInv(s);
        case _ => ConsumerQuietInv(s);
      }
    case _ => QuietStepInv(s, e);
  }

  // ----- whole runs -----

  ghost predicate ValidRun<T>(s: State<T>, es: seq<Event<T>>)
    decreases |es|
  {
    es == [] || (Enabled(s, es[0]) && ValidRun(Step(s, es[0]), es[1..]))
  }

  function Exec<T>(s: State<T>, es: seq<Event<T>>): State<T>
    requires ValidRun(s, es)
    decreases |es|
  {
    if es == [] then s else Exec(Step(s, es[0]), es[1..])
  }

  // Tickets, acknowledgements, calls and flushed batches are only ever extended.
  ghost predicate Extends<T>(s: State<T>, s': State<T>) {
    && s.claims <= s'.claims
    && s.acked <= s'.acked
    && s.flushed <= s'.flushed
    && s.head <= s'.head
    && Cap(s) == Cap(s') && s.batchSize == s'.batchSize
    && (forall id :: id in s.calls ==> id in s'.calls && s'.calls[id] == s.calls[id])
  }

  lemma {:induction false} RunInv<T>(s: State<T>, es: seq<Event<T>>)
    requires Inv(s) && ValidRun(s, es)
    ensures Inv(Exec(s, es)) && Extends(s, Exec(s, es))
    decreases |es|
  {
    if es != [] {
      StepInv(s, es[0]);
      StepExtends(s, es[0]);
      RunInv(Step(s, es[0]), es[1..]);
    }
  }

  lemma StepExtends<T>(s: State<T>, e: Event<T>)
    requires Inv(s) && Enabled(s, e)
    ensures Extends(s, Step(s, e))
  {
    hide Index, Concat, SlotOk, ProducerOk;
  }

  // The queue property, for every interleaving: what has been popped is a prefix of
  // the items in claim order, each of them a value a producer wrote, and head and
  // tail stay within one lap of each other.
  lemma PoppedInClaimOrder<T>(cap: nat, batchSize: nat, es: seq<Event<T>>)
    requires cap >= 2 && batchSize >= 1 && ValidRun(Initial<T>(cap, batchSize), es)
    ensures var s := Exec(Initial<T>(cap, batchSize), es);
      && s.head <= s.tail <= s.head + cap
      && 0 <= Released(s) <= |s.claims| == s.tail
      && Concat(s.flushed) + s.batch == s.claims[..Released(s)]
      && (forall n :: 0 <= n < s.tail ==> s.claims[n].Some?)
      && (forall k :: 0 <= k < |s.flushed| ==> 1 <= |s.flushed[k]| <= batchSize)
  {
    InitialInv<T>(cap, batchSize);
    RunInv(Initial<T>(cap, batchSize), es);
  }

  // A Push that returns true owns exactly one ticket, and that ticket's item is its own.
  lemma AcknowledgedOnce<T>(cap: nat, batchSize: nat, es: seq<Event<T>>, p: nat)
    requires cap >= 2 && batchSize >= 1 && ValidRun(Initial<T>(cap, batchSize), es)
    requires Enabled(Exec(Initial<T>(cap, batchSize), es), Publish(p))
    ensures var s := Exec(Initial<T>(cap, batchSize), es);
      var pr := s.producers[p];
      && pr.ticket !in s.acked
      && Step(s, Publish(p)).acked == s.acked + {pr.ticket}
      && pr.ticket < |s.claims|
      && s.claims[pr.ticket] == Some(pr.item)
  {
    InitialInv<T>(cap, batchSize);
    RunInv(Initial<T>(cap, batchSize), es);
    var s := Exec(Initial<T>(cap, batchSize), es);
    assert ProducerOk(s, s.producers[p]);
    assert SlotOk(s, s.producers[p].ticket);
  }

  // FlushSync: when its done channel is closed, every item acknowledged before the
  // call sits in the flushed batches, at the position of its own ticket and so once.
  lemma FlushSyncDelivers<T>(cap: nat, batchSize: nat, before: seq<Event<T>>, id: nat, after: seq<Event<T>>, n: nat)
    requires cap >= 2 && batchSize >= 1
    requires ValidRun(Initial<T>(cap, batchSize), before)
    requires Enabled(Exec(Initial<T>(cap, batchSize), before), CallFlushSync(id))
    requires ValidRun(Step(Exec(Initial<T>(cap, batchSize), before), CallFlushSync(id)), after)
    requires id in Exec(Step(Exec(Initial<T>(cap, batchSize), before), CallFlushSync(id)), after).done
    requires n in Exec(Initial<T>(cap, batchSize), before).acked
    ensures var s := Exec(Initial<T>(cap, batchSize), before);
      var s' := Exec(Step(s, CallFlushSync(id)), after);
      && n < s.tail == |s.claims|
      && n < |Concat(s'.flushed)|
      && Concat(s'.flushed)[n] == s.claims[n]
  {
    InitialInv<T>(cap, batchSize);
    RunInv(Initial<T>(cap, batchSize), before);
    var s := Exec(Initial<T>(cap, batchSize), before);
    StepInv(s, CallFlushSync(id));
    RunInv(Step(s, CallFlushSync(id)), after);
    var s' := Exec(Step(s, CallFlushSync(id)), after);
    assert (Concat(s'.flushed) + s'.batch)[n] == s'.claims[..Released(s')][n];
  }

  // With one consumer the retry branches of Pop are never taken: the slot at head is
  // either empty or published, and the CAS on head succeeds.
  lemma ConsumerNeverRetries<T>(s: State<T>)
    requires Inv(s)
    ensures s.consumer.PopGotHead? ==>
            At(s, s.consumer.h).stamp == s.consumer.h || At(s, s.consumer.h).stamp == s.consumer.h + 1
    ensures s.consumer.PopAvailable? ==> s.head == s.consumer.h
  {
    if s.consumer.PopGotHead? { assert SlotOk(s, s.consumer.h); }
  }

  // A flush never hangs on a slot nobody will publish: a claimed, unpublished ticket
  // always has a producer on its way to publishing it.
  lemma UnpublishedHasOwner<T>(s: State<T>, n: nat)
    requires Inv(s) && s.head <= n < s.tail && n !in s.acked
    ensures exists p :: p in s.producers && Holds(s.producers[p], n)
    ensures forall p :: p in s.producers && Holds(s.producers[p], n) ==> s.claims[n] == Some(s.producers[p].item)
  {
    assert SlotOk(s, n);
    forall p | p in s.producers && Holds(s.producers[p], n) ensures s.claims[n] == Some(s.producers[p].item) {
      assert ProducerOk(s, s.producers[p]);
    }
  }

  // ----- what Push answers -----

  // The slot of a ticket that the ring has room for never carries an older number.
  lemma {:induction false} StampAtLeast<T>(s: State<T>, t: nat)
    requires Inv(s) && t < Released(s) + Cap(s)
    ensures At(s, t).stamp >= t
    ensures t < Released(s) ==> At(s, t).stamp > t
    decreases Released(s) - t
  {
    if t < Released(s) {
      IndexOfWindow(t, t + Cap(s), Cap(s));
      StampAtLeast(s, t + Cap(s));
    } else {
      assert SlotOk(s, t);
    }
  }

  // A push that looks at its slot gives up exactly when the ring is full, with as many tickets
  // claimed and not released as there are slots.  Otherwise it goes on with the same item, to
  // the CAS when the slot carries its ticket, and from the start when another took that ticket.
  lemma GivesUpExactlyWhenFull<T>(s: State<T>, p: nat)
    requires Inv(s) && Enabled(s, LoadSeq(p))
    ensures var t, pr := s.producers[p].ticket, Step(s, LoadSeq(p)).producers[p];
      && (pr.Idle? <==> Released(s) + Cap(s) <= t)
      && (pr.Idle? ==> t == s.tail == Released(s) + Cap(s))
      && (!pr.Idle? ==> pr == SawFree(s.producers[p].item, t) || pr == Start(s.producers[p].item))
      && (t == s.tail && !pr.Idle? ==> pr.SawFree?)
      && (pr.Start? ==> t < s.tail)
  {
    var t := s.producers[p].ticket;
    assert ProducerOk(s, s.producers[p]);
    if t < Released(s) + Cap(s) {
      StampAtLeast(s, t);
      if t == s.tail { assert SlotOk(s, t); }
    } else {
      FullStamp(s);
    }
  }

  // A push keeps its item to its end, and its end is one of two: it publishes a ticket that
  // holds the item and answers true, or it finds the ring full and answers false.
  lemma PushAnswers<T>(s: State<T>, e: Event<T>, p: nat)
    requires Inv(s) && Enabled(s, e) && !ProducerAt(s, p).Idle?
    ensures var s' := Step(s, e);
      if !ProducerAt(s', p).Idle? then ProducerAt(s', p).item == s.producers[p].item
      else
        || (e == Publish(p) && s'.acked == s.acked + {s.producers[p].ticket}
            && s.claims[s.producers[p].ticket] == Some(s.producers[p].item))
        || (e == LoadSeq(p) && s.tail == Released(s) + Cap(s) && s' == s.(producers := s'.producers))
  {
    hide Index, Concat;
    assert ProducerOk(s, s.producers[p]);
    if e == LoadSeq(p) { GivesUpExactlyWhenFull(s, p); }
  }

  // A CAS that loses sends the push back to its start, and changes nothing else.
  lemma LostCasRetries<T>(s: State<T>, p: nat)
    requires Enabled(s, CasTail(p)) && s.tail != s.producers[p].ticket
    ensures Step(s, CasTail(p)) == s.(producers := s.producers[p := Start(s.producers[p].item)])
  {
  }

  // The steps of a push up to its look at the slot, and from its CAS on.
  function Looks<T>(p: nat, x: T): seq<Event<T>> {
    [BeginPush(p, x)] + ([LoadTail(p)] + ([LoadSeq(p)] + []))
  }

  function Takes<T>(p: nat): seq<Event<T>> {
    [CasTail(p)] + ([WriteValue(p)] + ([Publish(p)] + []))
  }

  function PushRun<T>(p: nat, x: T): seq<Event<T>> {
    Looks(p, x) + Takes(p)
  }

  function Moved<T>(s: State<T>, p: nat, pr: Producer<T>): State<T> { s.(producers := s.producers[p := pr]) }

  lemma MovedTwice<T>(s: State<T>, p: nat, a: Producer<T>, b: Producer<T>)
    ensures Moved(Moved(s, p, a), p, b) == Moved(s, p, b)
    ensures Moved(s, p, a).producers[p] == a && Moved(s, p, a).tail == s.tail
    ensures Cap(Moved(s, p, a)) == Cap(s)
    ensures Cap(s) > 0 ==> forall n: nat :: At(Moved(s, p, a), n) == At(s, n)
  {
    assert s.producers[p := a][p := b] == s.producers[p := b];
  }

  // The producer's state after its look at slot t.
  function Seen<T>(s: State<T>, item: T, t: nat): Producer<T>
    requires Cap(s) > 0
  {
    if At(s, t).stamp == t then SawFree(item, t) else if At(s, t).stamp < t then Idle else Start(item)
  }

  lemma LookSteps<T>(s: State<T>, p: nat, x: T)
    requires Cap(s) > 0
    ensures ProducerAt(s, p).Idle? ==>
      Enabled(s, BeginPush(p, x)) && Step(s, BeginPush(p, x)) == Moved(s, p, Start(x))
    ensures ProducerAt(s, p) == Start(x) ==>
      Enabled(s, LoadTail(p)) && Step(s, LoadTail(p)) == Moved(s, p, GotTail(x, s.tail))
    ensures ProducerAt(s, p) == GotTail(x, s.tail) ==>
      Enabled(s, LoadSeq(p)) && Step(s, LoadSeq(p)) == Moved(s, p, Seen(s, x, s.tail))
  {
    hide Index;
  }

  lemma LookAlone<T>(s: State<T>, p: nat, x: T)
    requires Cap(s) > 0 && ProducerAt(s, p).Idle?
    ensures ValidRun(s, Looks(p, x)) && Exec(s, Looks(p, x)) == Moved(s, p, Seen(s, x, s.tail))
  {
    hide Index, Step, Moved, Enabled, Exec, ValidRun, At;
    var s1, s2 := Moved(s, p, Start(x)), Moved(s, p, GotTail(x, s.tail));
    MovedTwice(s, p, Start(x), GotTail(x, s.tail));
    MovedTwice(s, p, GotTail(x, s.tail), Seen(s, x, s.tail));
    LookSteps(s, p, x);
    StartsAt(s, p, Start(x));
    LookSteps(s1, p, x);
    StartsAt(s, p, GotTail(x, s.tail));
    LookSteps(s2, p, x);
    RunNil(Moved(s, p, Seen(s, x, s.tail)));
    RunCons(s2, LoadSeq(p), []);
    RunCons(s1, LoadTail(p), [LoadSeq(p)] + []);
    RunCons(s, BeginPush(p, x), [LoadTail(p)] + ([LoadSeq(p)] + []));
  }

  lemma StartsAt<T>(s: State<T>, p: nat, pr: Producer<T>)
    ensures ProducerAt(Moved(s, p, pr), p) == pr
  {
  }

  lemma RunNil<T>(s: State<T>)
    ensures ValidRun(s, []) && Exec(s, []) == s
  {
  }

  lemma TakeAlone<T>(s: State<T>, p: nat, x: T)
    requires Cap(s) > 0 && ProducerAt(s, p) == SawFree(x, s.tail)
    ensures ValidRun(s, Takes(p))
    ensures var s' := Exec(s, Takes(p));
      && s'.slots == s.slots[Index(s.tail, Cap(s)) := Slot(Some(x), s.tail + 1)]
      && s'.tail == s.tail + 1 && s'.head == s.head && s'.claims == s.claims + [Some(x)]
      && s'.acked == s.acked + {s.tail} && ProducerAt(s', p).Idle?
  {
    hide Concat, Index;
    var s4 := Step(s, CasTail(p));
    var s5 := Step(s4, WriteValue(p));
    RunCons(s5, Publish(p), []);
    RunCons(s4, WriteValue(p), [Publish(p)] + []);
    RunCons(s, CasTail(p), [WriteValue(p)] + ([Publish(p)] + []));
  }

  // A push undisturbed, with its slot free.
  lemma FinishPush<T>(s: State<T>, p: nat, x: T)
    requires Cap(s) > 0 && ProducerAt(s, p).Idle? && At(s, s.tail).stamp == s.tail
    ensures ValidRun(s, PushRun(p, x))
    ensures var s' := Exec(s, PushRun(p, x));
      && s'.slots == s.slots[Index(s.tail, Cap(s)) := Slot(Some(x), s.tail + 1)]
      && s'.tail == s.tail + 1 && s'.head == s.head && s'.claims == s.claims + [Some(x)]
      && s'.acked == s.acked + {s.tail} && ProducerAt(s', p).Idle?
  {
    hide Concat, Index, Exec, ValidRun, Looks, Takes;
    LookAlone(s, p, x);
    TakeAlone(Exec(s, Looks(p, x)), p, x);
    RunConcat(s, Looks(p, x), Takes(p));
  }

  // An undisturbed push of one goroutine.  With room it takes the next ticket for its item and
  // answers true; on a full ring it answers false and leaves everything as it was.
  lemma PushAlone<T>(s: State<T>, p: nat, x: T)
    requires Inv(s) && ProducerAt(s, p).Idle?
    ensures s.tail < Released(s) + Cap(s) ==>
      ValidRun(s, PushRun(p, x)) &&
      var s' := Exec(s, PushRun(p, x));
      s'.tail == s.tail + 1 && s'.claims == s.claims + [Some(x)] && s'.acked == s.acked + {s.tail} &&
      ProducerAt(s', p).Idle?
    ensures s.tail == Released(s) + Cap(s) ==>
      ValidRun(s, Looks(p, x)) && Exec(s, Looks(p, x)) == s.(producers := s.producers[p := Idle])
  {
    hide Concat, Index, Exec, ValidRun, Looks, Takes;
    if s.tail < Released(s) + Cap(s) {
      assert SlotOk(s, s.tail);
      FinishPush(s, p, x);
    } else if s.tail == Released(s) + Cap(s) {
      FullStamp(s);
      LookAlone(s, p, x);
    }
  }

  // On a full ring the slot of the next ticket still carries the number of one a lap earlier.
  lemma FullStamp<T>(s: State<T>)
    requires Inv(s) && s.tail == Released(s) + Cap(s)
    ensures At(s, s.tail).stamp < s.tail
  {
    var r: nat := Released(s);
    IndexOfWindow(r, r + Cap(s), Cap(s));
    assert SlotOk(s, r);
  }

  // What Flush takes: the consumer ends a batch only when it is full or when the slot at head
  // holds nothing published.
  lemma FlushStops<T>(s: State<T>)
    requires Inv(s) && Popping(s.consumer)
    ensures ConsumerNext(s).consumer.Emit? <==>
      || (s.consumer.PopRelease? && |s.batch| + 1 == s.batchSize)
      || (s.consumer.PopGotHead? && (s.head == s.tail || s.head !in s.acked))
  {
    hide Index, Concat;
    if s.consumer.PopGotHead? { assert SlotOk(s, s.consumer.h); }
  }

  lemma RunCons<T>(s: State<T>, e: Event<T>, es: seq<Event<T>>)
    requires Enabled(s, e) && ValidRun(Step(s, e), es)
    ensures ValidRun(s, [e] + es) && Exec(s, [e] + es) == Exec(Step(s, e), es)
  {
    assert ([e] + es)[1..] == es;
  }

  lemma {:induction false} RunConcat<T>(s: State<T>, a: seq<Event<T>>, b: seq<Event<T>>)
    requires ValidRun(s, a) && ValidRun(Exec(s, a), b)
    ensures ValidRun(s, a + b) && Exec(s, a + b) == Exec(Exec(s, a), b)
    decreases |a|
  {
    if a == [] {
      assert a + b == b;
    } else {
      RunConcat(Step(s, a[0]), a[1..], b);
      RunCons(s, a[0], a[1..] + b);
      assert a + b == [a[0]] + (a[1..] + b);
    }
  }

  // A ring of one slot whose slot carries the number of the next ticket.
  predicate OneSlotOpen<T>(s: State<T>) {
    |s.slots| == 1 && s.slots[0].stamp == s.tail && ProducerAt(s, 0).Idle?
  }

  lemma OneSlotPush<T>(s: State<T>, x: T)
    requires OneSlotOpen(s)
    ensures ValidRun(s, PushRun(0, x))
    ensures OneSlotOpen(Exec(s, PushRun(0, x))) && Exec(s, PushRun(0, x)).tail == s.tail + 1 &&
            Exec(s, PushRun(0, x)).head == s.head
  {
    FinishPush(s, 0, x);
  }

  // One slot is not enough: an occupied slot carries the number of the next ticket, so
  // Push keeps succeeding with nothing popped, and tail runs ahead of head without bound.
  lemma {:induction false} OneSlotOverruns<T>(x: T, batchSize: nat, k: nat) returns (es: seq<Event<T>>)
    ensures ValidRun(Initial<T>(1, batchSize), es)
    ensures OneSlotOpen(Exec(Initial<T>(1, batchSize), es))
    ensures Exec(Initial<T>(1, batchSize), es).tail == Exec(Initial<T>(1, batchSize), es).head + k
  {
    if k == 0 {
      es := [];
    } else {
      var prior := OneSlotOverruns(x, batchSize, k - 1);
      OneSlotPush(Exec(Initial<T>(1, batchSize), prior), x);
      RunConcat(Initial<T>(1, batchSize), prior, PushRun(0, x));
      es := prior + PushRun(0, x);
    }
  }
}
