// The drain of the ring comes to an end: from every reachable state a pending FlushSync can
// be completed by the goroutines already under way, without a new push.
module RingProgress {
  import opened Ring

  // Every claimed ticket has been published.
  ghost predicate Quiet<T>(s: State<T>) {
    forall p :: p in s.producers ==> !s.producers[p].Claimed? && !s.producers[p].Wrote?
  }

  // How far the consumer is from its next successful pop or, with nothing left, from its end.
  function Rank<T>(s: State<T>): nat {
    var drained := s.head == s.tail;
    match s.consumer
    case Waiting => 0
    case PopRead(_, _) => 9
    case PopClear(_, _, _) => 8
    case PopRelease(_, _, _) => 7
    case PopStart(_) => if drained then 6 else 3
    case PopGotHead(_, _) => if drained then 5 else 2
    case PopAvailable(_, _) => 1
    case Emit(_) => if drained then 4 else 6
    case EmptyCheck(_) => if drained then 3 else 5
    case EmptyHead(_, _) => if drained then 2 else 4
  }

  // With every claim published, the slot at head is empty only when nothing is left.
  ghost predicate HeadSettled<T>(s: State<T>)
    requires Cap(s) > 0
  {
    s.consumer.PopGotHead? ==> At(s, s.consumer.h).stamp == if s.head == s.tail then s.consumer.h else s.consumer.h + 1
  }

  lemma QuietSettles<T>(s: State<T>)
    requires Inv(s) && Quiet(s)
    ensures HeadSettled(s)
  {
    hide Index, Concat;
    if s.consumer.PopGotHead? { assert SlotOk(s, s.consumer.h); }
  }

  // Each step of the consumer pops, or brings the next pop or the end nearer.
  lemma StepAdvances<T>(s: State<T>)
    requires ShapeOk(s) && ConsumerOk(s) && HeadSettled(s) && !s.consumer.Waiting?
    ensures var s' := ConsumerNext(s);
      s'.head > s.head || (s'.head == s.head && (s'.consumer.Waiting? || Rank(s') < Rank(s)))
  {
    hide Index, Concat;
  }

  // It leaves the rest alone, and a FlushSync that comes to its end is done.
  lemma StepKeeps<T>(s: State<T>)
    requires Cap(s) > 0 && !s.consumer.Waiting?
    ensures var s' := ConsumerNext(s);
      && s'.calls == s.calls && s.done <= s'.done && s'.tail == s.tail && s'.producers == s.producers
      && (s'.consumer.Waiting? && s.consumer.mode.Sync? ==> s.consumer.mode.id in s'.done)
      && (!s'.consumer.Waiting? ==> s'.consumer.mode == s.consumer.mode)
  {
    hide Index, Concat;
  }

  ghost predicate Drains<T>(s: State<T>, es: seq<Event<T>>) {
    ValidRun(s, es) && forall i :: 0 <= i < |es| ==> es[i].ConsumerStep?
  }

  // Left to itself the consumer finishes its flush.
  lemma {:induction false} FlushEnds<T>(s: State<T>) returns (es: seq<Event<T>>)
    requires Inv(s) && Quiet(s)
    ensures Drains(s, es)
    ensures var s' := Exec(s, es);
      && Inv(s') && Quiet(s') && s'.consumer.Waiting? && s'.calls == s.calls && s.done <= s'.done
      && (!s.consumer.Waiting? && s.consumer.mode.Sync? ==> s.consumer.mode.id in s'.done)
    decreases s.tail - s.head, Rank(s)
  {
    hide Index, Concat, SlotsOk, ProducersOk, FlowOk, ConsumerNext, Rank;
    es := [];
    if !s.consumer.Waiting? {
      QuietSettles(s);
      StepAdvances(s);
      StepKeeps(s);
      StepInv(s, ConsumerStep);
      var next := Step(s, ConsumerStep);
      if next.consumer.Waiting? {
        es := [ConsumerStep] + [];
        RunCons(s, ConsumerStep, []);
      } else {
        var rest := FlushEnds(next);
        RunCons(s, ConsumerStep, rest);
        es := [ConsumerStep] + rest;
      }
    }
  }

  // The producers that hold a ticket.
  ghost function Holders<T>(s: State<T>): set<nat> {
    set p | p in s.producers && (s.producers[p].Claimed? || s.producers[p].Wrote?)
  }

  // Events of pushes already begun, and of the consumer.
  predicate UnderWay<T>(e: Event<T>) {
    e.WriteValue? || e.Publish? || e.BeginFlush? || e.ConsumerStep?
  }

  ghost predicate OwnRun<T>(s: State<T>, es: seq<Event<T>>) {
    ValidRun(s, es) && forall i :: 0 <= i < |es| ==> UnderWay(es[i])
  }

  // The holders of tickets can publish them.
  lemma {:induction false} Settle<T>(s: State<T>) returns (es: seq<Event<T>>)
    requires Inv(s)
    ensures OwnRun(s, es)
    ensures var s' := Exec(s, es);
      Inv(s') && Quiet(s') && s'.consumer == s.consumer && s'.calls == s.calls && s'.done == s.done
    decreases |Holders(s)|, 1
  {
    hide Index, Concat, SlotsOk, ProducersOk, FlowOk, ConsumerOk;
    es := [];
    assert forall p :: p in s.producers && (s.producers[p].Claimed? || s.producers[p].Wrote?) ==> p in Holders(s);
    if Holders(s) != {} {
      var p :| p in Holders(s);
      if s.producers[p].Claimed? {
        StepInv(s, WriteValue(p));
        var s1 := Step(s, WriteValue(p));
        assert Holders(s1) == Holders(s);
        var rest := PublishFirst(s1, p);
        RunCons(s, WriteValue(p), rest);
        es := [WriteValue(p)] + rest;
      } else {
        es := PublishFirst(s, p);
      }
    }
  }

  lemma PublishFirst<T>(s: State<T>, p: nat) returns (es: seq<Event<T>>)
    requires Inv(s) && p in s.producers && s.producers[p].Wrote?
    ensures OwnRun(s, es)
    ensures var s' := Exec(s, es);
      Inv(s') && Quiet(s') && s'.consumer == s.consumer && s'.calls == s.calls && s'.done == s.done
    decreases |Holders(s)|, 0
  {
    hide Index, Concat, SlotsOk, ProducersOk, FlowOk, ConsumerOk;
    StepInv(s, Publish(p));
    var s1 := Step(s, Publish(p));
    assert Holders(s1) == Holders(s) - {p};
    var rest := Settle(s1);
    RunCons(s, Publish(p), rest);
    es := [Publish(p)] + rest;
  }

  // No FlushSync is stuck: pushes already begun and the consumer can complete it.
  lemma FlushSyncCanReturn<T>(s: State<T>, id: nat) returns (es: seq<Event<T>>)
    requires Inv(s) && id in s.calls
    ensures OwnRun(s, es) && id in Exec(s, es).done
  {
    hide Index, Concat, SlotsOk, ProducersOk, FlowOk, ConsumerOk;
    var settling := Settle(s);
    var s1 := Exec(s, settling);
    var ending := FlushEnds(s1);
    var s2 := Exec(s1, ending);
    RunConcat(s, settling, ending);
    es := settling + ending;
    if id !in s2.done {
      var e: Event<T> := BeginFlush(Sync(id));
      StepInv(s2, e);
      var s3 := Step(s2, e);
      var draining := FlushEnds(s3);
      RunCons(s2, e, draining);
      RunConcat(s, es, [e] + draining);
      es := es + ([e] + draining);
    }
  }

  // The same in every reachable state of a ring of two or more slots.
  lemma FlushSyncCanReturnInEveryRun<T>(cap: nat, batchSize: nat, before: seq<Event<T>>, id: nat)
    returns (es: seq<Event<T>>)
    requires cap >= 2 && batchSize >= 1 && ValidRun(Initial<T>(cap, batchSize), before)
    requires id in Exec(Initial<T>(cap, batchSize), before).calls
    ensures OwnRun(Exec(Initial<T>(cap, batchSize), before), es)
    ensures id in Exec(Exec(Initial<T>(cap, batchSize), before), es).done
  {
    InitialInv<T>(cap, batchSize);
    RunInv(Initial<T>(cap, batchSize), before);
    es := FlushSyncCanReturn(Exec(Initial<T>(cap, batchSize), before), id);
  }
}
