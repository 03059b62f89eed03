// The expiration goroutine of the legacy driver: `run` sleeps on a timer and a wake
// channel while callers insert, move and remove deadlines under the mutex.
//
// One event is one critical section, channel operation or timer firing, so a run
// interleaves the loop with any number of callers; the gap between a caller's unlock
// and its signal is a state of its own.
module GcScheduler {
  import opened Common

  type Key = Str

  // The timer `run` waits on.  `Dead` covers a stopped timer and one whose tick was taken.
  datatype Timer = Dead | Armed(deadline: int) | Fired

  datatype Loop =
    | Top                    // about to lock and compute the next interval
    | Overdue                // about to read the clock in processExpiredKeys
    | Popping(seen: int)     // clock read, about to lock and pop
    | Blocked                // unlocked, in the select
    | Stopped

  // A goroutine inside GC.Expired.
  datatype Caller =
    | Computed(key: Key, expireAt: int)  // deadline computed, about to lock
    | WillSignal(key: Key)               // unlocked with shouldWake, about to signal

  datatype State = State(
    schedule: map<Key, int>,     // the heap together with its key map
    now: int,
    timer: Timer,
    token: bool,                 // one token in the wake channel
    loop: Loop,
    callers: map<nat, Caller>,
    poll: int                    // defaultPollInterval
  )

  datatype Event =
    | Tick(d: nat)
    | Fire
    | CallExpired(c: nat, key: Key, duration: int)
    | Schedule(c: nat, head: Key)
    | Signal(c: nat)
    | RemoveKey(key: Key)
    | Truncate
    | Arm(head: Key)
    | ReadClock
    | PopExpired
    | TakeToken
    | TakeTimer
    | Stop

  // The key at index 0 of the heap: some key with the least deadline.
  predicate IsHead(m: map<Key, int>, h: Key) {
    h in m && forall k :: k in m ==> m[h] <= m[k]
  }

  predicate Enabled(s: State, e: Event) {
    match e
    case Tick(_) => true
    case Fire => s.timer.Armed? && s.timer.deadline <= s.now
    case CallExpired(c, _, _) => c !in s.callers
    case Schedule(c, head) =>
      c in s.callers && s.callers[c].Computed?
      && IsHead(s.schedule[s.callers[c].key := s.callers[c].expireAt], head)
    case Signal(c) => c in s.callers && s.callers[c].WillSignal?
    case RemoveKey(_) => true
    case Truncate => true
    case Arm(head) => s.loop.Top? && (s.schedule == map[] || IsHead(s.schedule, head))
    case ReadClock => s.loop.Overdue?
    case PopExpired => s.loop.Popping?
    case TakeToken => s.loop.Blocked? && s.token
    case TakeTimer => s.loop.Blocked? && s.timer.Fired?
    case Stop => s.loop.Blocked?
  }

  function Step(s: State, e: Event): State
    requires Enabled(s, e)
  {
    match e
    case Tick(d) => s.(now := s.now + d)
    case Fire => s.(timer := Fired)
    case CallExpired(c, key, duration) =>
      if duration <= 0 then s
      else s.(callers := s.callers[c := Computed(key, s.now + duration)])
    case Schedule(c, head) =>
      var Computed(key, expireAt) := s.callers[c];
      s.(schedule := s.schedule[key := expireAt],
         callers := if head == key then s.callers[c := WillSignal(key)] else s.callers - {c})
    case Signal(c) => s.(token := true, callers := s.callers - {c})
    case RemoveKey(key) => s.(schedule := s.schedule - {key})
    case Truncate => s.(schedule := map[], timer := Dead)
    case Arm(head) =>
      if s.schedule == map[] then s.(timer := Armed(s.now + s.poll), loop := Blocked)
      else if s.schedule[head] - s.now <= 0 then s.(loop := Overdue)
      else s.(timer := Armed(s.now + (s.schedule[head] - s.now)), loop := Blocked)
    case ReadClock => s.(loop := Popping(s.now))
    case PopExpired => s.(schedule := Later(s.schedule, s.loop.seen), loop := Top)
    case TakeToken => s.(token := false, loop := Top)
    case TakeTimer => s.(timer := Dead, loop := Overdue)
    case Stop => s.(loop := Stopped)
  }

  // What PopExpired leaves: the deadlines after `now` (see ExpiryHeap.PopExpired).
  function Later(m: map<Key, int>, now: int): map<Key, int> {
    map k | k in m && m[k] > now :: m[k]
  }

  function Initial(now: int, poll: int): State {
    State(map[], now, Dead, false, Top, map[], poll)
  }

  ghost predicate ValidRun(s: State, es: seq<Event>)
    decreases |es|
  {
    es == [] || (Enabled(s, es[0]) && ValidRun(Step(s, es[0]), es[1..]))
  }

  function Exec(s: State, es: seq<Event>): State
    requires ValidRun(s, es)
    decreases |es|
  {
    if es == [] then s else Exec(Step(s, es[0]), es[1..])
  }

  // ----- no lost wake-up -----

  ghost predicate TimerCovers(s: State) {
    s.timer.Fired? || (s.timer.Armed? && forall k :: k in s.schedule ==> s.timer.deadline <= s.schedule[k])
  }

  ghost predicate SignalOnItsWay(s: State) {
    exists c :: c in s.callers && s.callers[c].WillSignal?
  }

  // A sleeping loop with something scheduled will be woken in time.
  ghost predicate NoLostWakeUp(s: State) {
    s.loop.Blocked? && s.schedule != map[] ==> TimerCovers(s) || s.token || SignalOnItsWay(s)
  }

  lemma StepKeepsWakeUp(s: State, e: Event)
    requires NoLostWakeUp(s) && Enabled(s, e)
    ensures NoLostWakeUp(Step(s, e))
  {
    var s' := Step(s, e);
    if s.loop.Blocked? && s'.loop.Blocked? {
      match e
      case Schedule(c, head) => ScheduleKeepsWakeUp(s, e);
      case CallExpired(c, key, duration) =>
        if SignalOnItsWay(s) {
          var d :| d in s.callers && s.callers[d].WillSignal?;
          assert s'.callers[d].WillSignal?;
        }
      case _ =>
    }
  }

  // The new deadline is either the earliest, and then its caller will signal, or some
  // other key, already covered before, still is the earliest.
  lemma ScheduleKeepsWakeUp(s: State, e: Event)
    requires NoLostWakeUp(s) && Enabled(s, e) && e.Schedule? && s.loop.Blocked?
    ensures NoLostWakeUp(Step(s, e))
  {
    var s' := Step(s, e);
    var key := s.callers[e.c].key;
    if e.head == key {
      assert s'.callers[e.c].WillSignal?;
    } else {
      assert e.head in s.schedule && s.schedule[e.head] == s'.schedule[e.head];
      if SignalOnItsWay(s) {
        var d :| d in s.callers && s.callers[d].WillSignal?;
        assert d in s'.callers && s'.callers[d].WillSignal?;
      }
    }
  }

  ghost predicate Inv(s: State) {
    NoLostWakeUp(s) && (s.loop.Popping? ==> s.loop.seen <= s.now)
  }

  lemma {:induction false} RunInv(s: State, es: seq<Event>)
    requires Inv(s) && ValidRun(s, es)
    ensures Inv(Exec(s, es))
    decreases |es|
  {
    if es != [] {
      StepKeepsWakeUp(s, es[0]);
      RunInv(Step(s, es[0]), es[1..]);
    }
  }

  // In every reachable state.
  lemma NeverMissesADeadline(now: int, poll: int, es: seq<Event>)
    requires ValidRun(Initial(now, poll), es)
    ensures NoLostWakeUp(Exec(Initial(now, poll), es))
  {
    RunInv(Initial(now, poll), es);
  }

  // ----- what the invariant is for: an overdue key can always be removed -----

  // Events that need neither the passage of time nor a new call.
  predicate Internal(e: Event) {
    e.Fire? || e.Signal? || e.Arm? || e.ReadClock? || e.PopExpired? || e.TakeToken? || e.TakeTimer?
  }

  ghost predicate InternalRun(s: State, es: seq<Event>) {
    ValidRun(s, es) && forall i :: 0 <= i < |es| ==> Internal(es[i])
  }

  lemma Prepend(s: State, e: Event, es: seq<Event>)
    requires Enabled(s, e) && Internal(e) && InternalRun(Step(s, e), es)
    ensures InternalRun(s, [e] + es) && Exec(s, [e] + es) == Exec(Step(s, e), es)
  {
    assert ([e] + es)[1..] == es;
  }

  lemma {:induction false} HeadExists(m: map<Key, int>) returns (h: Key)
    requires m != map[]
    ensures IsHead(m, h)
    decreases |m|
  {
    var k :| k in m;
    var rest := m - {k};
    if rest == map[] {
      h := k;
      assert m.Keys == rest.Keys + {k};
    } else {
      assert |rest| < |m| by { assert m.Keys == rest.Keys + {k}; }
      var r := HeadExists(rest);
      h := if m[k] <= m[r] then k else r;
      forall j | j in m ensures m[h] <= m[j] { if j != k { assert j in rest; } }
    }
  }

  ghost predicate SomethingOverdue(s: State) {
    exists k :: k in s.schedule && s.schedule[k] <= s.now
  }

  // From any reachable state that has not stopped, the loop can remove every overdue key
  // by internal events alone, and does so within five of them.
  lemma OverdueIsServed(s: State) returns (es: seq<Event>)
    requires Inv(s) && !s.loop.Stopped? && SomethingOverdue(s)
    ensures InternalRun(s, es) && |es| <= 5
    ensures !SomethingOverdue(Exec(s, es)) && Exec(s, es).now == s.now
    ensures forall k :: k in Exec(s, es).schedule <==> k in s.schedule && s.schedule[k] > s.now
  {
    match s.loop
    case Blocked =>
      if s.token {
        var rest := ServeFromTop(Step(s, TakeToken));
        Prepend(s, TakeToken, rest);
        es := [TakeToken] + rest;
      } else if s.timer.Fired? {
        var rest := ServeFromOverdue(Step(s, TakeTimer));
        Prepend(s, TakeTimer, rest);
        es := [TakeTimer] + rest;
      } else if TimerCovers(s) {
        var s1 := Step(s, Fire);
        var rest := ServeFromOverdue(Step(s1, TakeTimer));
        Prepend(s1, TakeTimer, rest);
        Prepend(s, Fire, [TakeTimer] + rest);
        es := [Fire] + ([TakeTimer] + rest);
      } else {
        var c :| c in s.callers && s.callers[c].WillSignal?;
        var s1 := Step(s, Signal(c));
        var rest := ServeFromTop(Step(s1, TakeToken));
        Prepend(s1, TakeToken, rest);
        Prepend(s, Signal(c), [TakeToken] + rest);
        es := [Signal(c)] + ([TakeToken] + rest);
      }
    case Top => es := ServeFromTop(s);
    case Overdue => es := ServeFromOverdue(s);
    case Popping(seen) =>
      var s1 := Step(s, PopExpired);
      if SomethingOverdue(s1) {
        var rest := ServeFromTop(s1);
        Prepend(s, PopExpired, rest);
        es := [PopExpired] + rest;
      } else {
        Prepend(s, PopExpired, []);
        es := [PopExpired] + [];
      }
  }

  lemma ServeFromOverdue(s: State) returns (es: seq<Event>)
    requires s.loop.Overdue?
    ensures InternalRun(s, es) && |es| <= 2 && Exec(s, es).now == s.now
    ensures Exec(s, es).schedule == Later(s.schedule, s.now)
  {
    var s1 := Step(s, ReadClock);
    Prepend(s1, PopExpired, []);
    Prepend(s, ReadClock, [PopExpired] + []);
    es := [ReadClock] + ([PopExpired] + []);
  }

  lemma ServeFromTop(s: State) returns (es: seq<Event>)
    requires s.loop.Top? && SomethingOverdue(s)
    ensures InternalRun(s, es) && |es| <= 3 && Exec(s, es).now == s.now
    ensures Exec(s, es).schedule == Later(s.schedule, s.now)
  {
    var h := HeadExists(s.schedule);
    var rest := ServeFromOverdue(Step(s, Arm(h)));
    Prepend(s, Arm(h), rest);
    es := [Arm(h)] + rest;
  }

  // The two together, over whole runs.
  lemma OverdueIsServedInEveryRun(now: int, poll: int, before: seq<Event>) returns (es: seq<Event>)
    requires ValidRun(Initial(now, poll), before)
    requires var s := Exec(Initial(now, poll), before); !s.loop.Stopped? && SomethingOverdue(s)
    ensures var s := Exec(Initial(now, poll), before);
      InternalRun(s, es) && |es| <= 5 && !SomethingOverdue(Exec(s, es))
      && forall k :: k in Exec(s, es).schedule <==> k in s.schedule && s.schedule[k] > s.now
  {
    RunInv(Initial(now, poll), before);
    es := OverdueIsServed(Exec(Initial(now, poll), before));
  }

  // ----- and it will be: internal runs end, and where they end nothing is overdue -----

  ghost function Signallers(s: State): set<nat> {
    set c | c in s.callers && s.callers[c].WillSignal?
  }

  // A bound on the number of internal events that can still happen.
  ghost function Potential(s: State): nat {
    6 * |Signallers(s)| + (if s.token then 5 else 0) + TimerRank(s) + LoopRank(s)
  }

  function TimerRank(s: State): nat {
    if s.timer.Fired? then 4 else if s.timer.Armed? && s.timer.deadline <= s.now then 5 else 0
  }

  ghost function LoopRank(s: State): nat {
    match s.loop
    case Top => if SomethingOverdue(s) then 4 else 1
    case Overdue => 3
    case Popping(seen) => if SomethingOverdue(s.(schedule := Later(s.schedule, seen))) then 5 else 2
    case _ => 0
  }

  lemma InternalCosts(s: State, e: Event)
    requires Enabled(s, e) && Internal(e) && s.poll > 0
    ensures Potential(Step(s, e)) < Potential(s)
  {
    var s' := Step(s, e);
    if e.Signal? {
      assert Signallers(s') == Signallers(s) - {e.c};
    } else {
      assert Signallers(s') == Signallers(s);
    }
    if e.Arm? && s.schedule != map[] && s.schedule[e.head] <= s.now { assert SomethingOverdue(s); }
  }

  lemma {:induction false} InternalRunsEnd(s: State, es: seq<Event>)
    requires InternalRun(s, es) && s.poll > 0
    ensures |es| <= Potential(s) && Exec(s, es).poll == s.poll
    decreases |es|
  {
    hide Potential;
    if es != [] {
      InternalCosts(s, es[0]);
      var rest := es[1..];
      assert forall i :: 0 <= i < |rest| ==> rest[i] == es[i + 1];
      InternalRunsEnd(Step(s, es[0]), rest);
    }
  }

  // An internal run lets no key go before its time and brings none in.
  lemma {:induction false} InternalKeeps(s: State, es: seq<Event>)
    requires Inv(s) && InternalRun(s, es)
    ensures var s' := Exec(s, es);
      && Inv(s') && s'.now == s.now
      && (s'.loop.Stopped? ==> s.loop.Stopped?)
      && (forall k :: k in s'.schedule ==> k in s.schedule && s'.schedule[k] == s.schedule[k])
      && (forall k :: k in s.schedule && s.schedule[k] > s.now ==> k in s'.schedule)
    decreases |es|
  {
    if es != [] {
      StepKeepsWakeUp(s, es[0]);
      var rest := es[1..];
      assert forall i :: 0 <= i < |rest| ==> rest[i] == es[i + 1];
      InternalKeeps(Step(s, es[0]), rest);
    }
  }

  ghost predicate Settled(s: State) {
    forall e :: Internal(e) ==> !Enabled(s, e)
  }

  lemma SomeEventLeft(s: State) returns (e: Event)
    requires Inv(s) && !s.loop.Stopped? && SomethingOverdue(s)
    ensures Internal(e) && Enabled(s, e)
  {
    var es := OverdueIsServed(s);
    e := es[0];
  }

  // Whatever order the scheduler chooses: an internal run goes on for no more events than the
  // potential, and when no internal event is left, exactly the overdue keys are gone.
  lemma OverdueAreAlwaysServed(s: State, es: seq<Event>)
    requires Inv(s) && s.poll > 0 && !s.loop.Stopped? && InternalRun(s, es)
    ensures |es| <= Potential(s)
    ensures Settled(Exec(s, es)) ==>
      forall k :: k in Exec(s, es).schedule <==> k in s.schedule && s.schedule[k] > s.now
  {
    hide Potential;
    InternalRunsEnd(s, es);
    InternalKeeps(s, es);
    var s' := Exec(s, es);
    if SomethingOverdue(s') { var _ := SomeEventLeft(s'); }
    assert Settled(s') ==> forall k :: k in s'.schedule ==> s'.schedule[k] > s'.now;
  }

  // ----- which deadline a key has, from the calls alone -----

  // The time that passes in a run.
  function Elapsed(es: seq<Event>): nat
    decreases |es|
  {
    if es == [] then 0 else (if es[0].Tick? then es[0].d else 0) + Elapsed(es[1..])
  }

  lemma {:induction false} ClockAfter(s: State, es: seq<Event>)
    requires ValidRun(s, es)
    ensures Exec(s, es).now == s.now + Elapsed(es)
    decreases |es|
  {
    if es != [] { ClockAfter(Step(s, es[0]), es[1..]); }
  }

  predicate Schedules(s: State, e: Event, k: Key)
    requires Enabled(s, e)
  {
    e.Schedule? && s.callers[e.c].key == k
  }

  ghost predicate NotScheduled(s: State, es: seq<Event>, k: Key)
    requires ValidRun(s, es)
    decreases |es|
  {
    es == [] || (!Schedules(s, es[0], k) && NotScheduled(Step(s, es[0]), es[1..], k))
  }

  predicate Removes(e: Event, k: Key) { e == RemoveKey(k) || e == Truncate }

  // A call to Expired keeps its key and its deadline until it gets the lock.
  lemma {:induction false} CallWaits(s: State, es: seq<Event>, c: nat, k: Key, t: int)
    requires ValidRun(s, es) && c in s.callers && s.callers[c] == Computed(k, t)
    requires forall i :: 0 <= i < |es| ==> !(es[i].Schedule? && es[i].c == c)
    ensures var s' := Exec(s, es); c in s'.callers && s'.callers[c] == Computed(k, t)
    decreases |es|
  {
    if es != [] {
      var rest := es[1..];
      assert forall i :: 0 <= i < |rest| ==> rest[i] == es[i + 1];
      CallWaits(Step(s, es[0]), rest, c, k, t);
    }
  }

  // A key that is out stays out until it is scheduled anew.
  lemma {:induction false} StaysOut(s: State, es: seq<Event>, k: Key)
    requires ValidRun(s, es) && NotScheduled(s, es, k) && k !in s.schedule
    ensures k !in Exec(s, es).schedule
    decreases |es|
  {
    if es != [] { StaysOut(Step(s, es[0]), es[1..], k); }
  }

  // A key that is in keeps its deadline, and stays in at least until then.
  lemma {:induction false} StaysIn(s: State, es: seq<Event>, k: Key)
    requires Inv(s) && ValidRun(s, es) && NotScheduled(s, es, k) && k in s.schedule
    requires forall i :: 0 <= i < |es| ==> !Removes(es[i], k)
    ensures var s' := Exec(s, es);
      && (k in s'.schedule ==> s'.schedule[k] == s.schedule[k])
      && (s'.now < s.schedule[k] ==> k in s'.schedule)
    decreases |es|
  {
    if es != [] {
      var s1, rest := Step(s, es[0]), es[1..];
      StepKeepsWakeUp(s, es[0]);
      assert forall i :: 0 <= i < |rest| ==> rest[i] == es[i + 1];
      if k in s1.schedule {
        StaysIn(s1, rest, k);
      } else {
        StaysOut(s1, rest, k);
        ClockAfter(s1, rest);
      }
    }
  }

  // Nothing is left to do and nothing is overdue.
  lemma AtRest(s: State)
    requires Inv(s) && !s.loop.Stopped? && Settled(s)
    ensures forall k :: k in s.schedule ==> s.now < s.schedule[k]
  {
    if SomethingOverdue(s) { var _ := SomeEventLeft(s); }
  }

  // What a call of Expired does, whatever runs beside it.  Made after the events `a`, with a
  // positive duration, it gives the key the time of the call plus the duration for its deadline.
  // Unless the key is scheduled anew or removed, it is in until that time, and once the clock
  // has reached it and nothing is left to do, it is out.
  lemma ExpiredDoes(now: int, poll: int, a: seq<Event>, c: nat, k: Key, d: int, b: seq<Event>, head: Key,
                    rest: seq<Event>)
    requires ValidRun(Initial(now, poll), a)
    requires Enabled(Exec(Initial(now, poll), a), CallExpired(c, k, d)) && d > 0
    requires ValidRun(Step(Exec(Initial(now, poll), a), CallExpired(c, k, d)), b)
    requires forall i :: 0 <= i < |b| ==> !(b[i].Schedule? && b[i].c == c)
    requires var s := Exec(Step(Exec(Initial(now, poll), a), CallExpired(c, k, d)), b);
      && Enabled(s, Schedule(c, head)) && ValidRun(Step(s, Schedule(c, head)), rest)
      && NotScheduled(Step(s, Schedule(c, head)), rest, k)
    requires forall i :: 0 <= i < |rest| ==> !Removes(rest[i], k)
    ensures var s := Exec(Step(Exec(Initial(now, poll), a), CallExpired(c, k, d)), b);
      var s' := Exec(Step(s, Schedule(c, head)), rest);
      var due := now + Elapsed(a) + d;
      && s'.now == now + Elapsed(a) + Elapsed(b) + Elapsed(rest)
      && (k in s'.schedule ==> s'.schedule[k] == due)
      && (s'.now < due ==> k in s'.schedule)
      && (due <= s'.now && Settled(s') && !s'.loop.Stopped? ==> k !in s'.schedule)
  {
    hide Exec, ValidRun, Settled, NotScheduled, NoLostWakeUp;
    var s1 := Exec(Initial(now, poll), a);
    RunInv(Initial(now, poll), a);
    ClockAfter(Initial(now, poll), a);
    var s2 := Step(s1, CallExpired(c, k, d));
    CallMade(s1, c, k, d);
    CallWaits(s2, b, c, k, s1.now + d);
    ClockAfter(s2, b);
    RunInv(s2, b);
    var s3 := Exec(s2, b);
    StepKeepsWakeUp(s3, Schedule(c, head));
    var s4 := Step(s3, Schedule(c, head));
    StaysIn(s4, rest, k);
    ClockAfter(s4, rest);
    RunInv(s4, rest);
    if Settled(Exec(s4, rest)) && !Exec(s4, rest).loop.Stopped? { AtRest(Exec(s4, rest)); }
  }

  lemma CallMade(s: State, c: nat, k: Key, d: int)
    requires Inv(s) && Enabled(s, CallExpired(c, k, d)) && d > 0
    ensures var s' := Step(s, CallExpired(c, k, d));
      Inv(s') && c in s'.callers && s'.callers[c] == Computed(k, s.now + d) && s'.now == s.now
  {
    StepKeepsWakeUp(s, CallExpired(c, k, d));
  }

  // A call without a positive duration does nothing.
  lemma NotPositive(s: State, c: nat, k: Key, d: int)
    requires Enabled(s, CallExpired(c, k, d)) && d <= 0
    ensures Step(s, CallExpired(c, k, d)) == s
  {
  }

  // RemoveKey and Truncate take a key out until it is scheduled anew, whoever calls them.
  lemma RemovedStaysOut(s: State, e: Event, k: Key, rest: seq<Event>)
    requires Enabled(s, e) && Removes(e, k) && ValidRun(Step(s, e), rest) && NotScheduled(Step(s, e), rest, k)
    ensures k !in Exec(Step(s, e), rest).schedule
    ensures forall j :: j != k && e.RemoveKey? ==> (j in s.schedule <==> j in Step(s, e).schedule)
  {
    StaysOut(Step(s, e), rest, k);
  }
}
