// A background sweep deletes an expired entry in three steps: from the store, then from the
// policy, then from the prefix tree.  It holds no lock that a set or a delete would wait for, so
// these run between the steps.  A run interleaves one sweep with any sets, deletes and clears,
// each of them a single event.
module SweepRace {

  type Key = nat

  datatype Item = Item(expireAt: int, cost: int)

  // Where the sweep is: between two items, or after one or two of the steps for a key.
  datatype Phase = Between | Taken(k: Key) | Untracked(k: Key)

  datatype State = State(store: map<Key, Item>, policy: map<Key, int>, tree: set<Key>, sweep: Phase, now: int)

  datatype Event =
    | Set(k: Key, item: Item, victims: set<Key>)
    | Delete(k: Key)
    | Clear
    | Take(k: Key)    // DeleteIfExpired finds the entry past its time
    | Untrack         // policy.Del
    | Unlist          // radixTree.Delete
    | Pass(now: int)  // the clock moves on

  const START: State := State(map[], map[], {}, Between, 0)

  // A newcomer's victims are keys the policy tracks; Clear waits for the sweep to end.
  predicate Enabled(s: State, e: Event) {
    match e
    case Set(k, _, victims) => victims <= s.policy.Keys && (k in s.store || k in s.policy ==> victims == {})
    case Delete(_) => true
    case Clear => s.sweep.Between?
    case Take(k) => s.sweep.Between? && k in s.store && 0 < s.store[k].expireAt < s.now
    case Untrack => s.sweep.Taken?
    case Unlist => s.sweep.Untracked?
    case Pass(now) => s.now <= now
  }

  function Step(s: State, e: Event): State
    requires Enabled(s, e)
  {
    match e
    case Set(k, item, victims) =>
      if k in s.store then
        // tryUpdateExisting: the policy hears of a changed cost, if it tracks the key.
        s.(store := s.store[k := item],
           policy := if item.cost != s.store[k].cost && k in s.policy then s.policy[k := item.cost] else s.policy)
      else
        // doSet: a victim that is not stored leaves the policy and nothing else.
        s.(store := (s.store - victims)[k := item],
           policy := (s.policy - victims)[k := item.cost],
           tree := s.tree - (victims * s.store.Keys) + {k})
    case Delete(k) =>
      if k in s.store then s.(store := s.store - {k}, policy := s.policy - {k}, tree := s.tree - {k}) else s
    case Clear => s.(store := map[], policy := map[], tree := {})
    case Take(k) => s.(store := s.store - {k}, sweep := Taken(k))
    case Untrack => s.(policy := s.policy - {s.sweep.k}, sweep := Untracked(s.sweep.k))
    case Unlist => s.(tree := s.tree - {s.sweep.k}, sweep := Between)
    case Pass(now) => s.(now := now)
  }

  ghost predicate ValidRun(es: seq<Event>)
    decreases |es|, 0
  {
    es == [] || (ValidRun(es[..|es| - 1]) && Enabled(Exec(es[..|es| - 1]), es[|es| - 1]))
  }

  function Exec(es: seq<Event>): State
    requires ValidRun(es)
    decreases |es|, 1
  {
    if es == [] then START else Step(Exec(es[..|es| - 1]), es[|es| - 1])
  }

  lemma OneMore(es: seq<Event>, e: Event)
    requires ValidRun(es) && Enabled(Exec(es), e)
    ensures ValidRun(es + [e]) && Exec(es + [e]) == Step(Exec(es), e)
  {
    assert (es + [e])[..|es|] == es;
  }

  lemma {:induction false} Prefix(es: seq<Event>, i: nat)
    requires ValidRun(es) && i <= |es|
    ensures ValidRun(es[..i])
  {
    if i < |es| {
      Prefix(es[..|es| - 1], i);
      assert es[..|es| - 1][..i] == es[..i];
    } else {
      assert es[..i] == es;
    }
  }

  // ----- sets that still stand -----

  predicate Removes(e: Event, k: Key) {
    match e
    case Set(_, _, victims) => k in victims
    case Delete(j) => j == k
    case Clear => true
    case Take(j) => j == k
    case _ => false
  }

  // The i-th event set k, and nothing has taken k out of the store since.
  ghost predicate Standing(es: seq<Event>, k: Key, i: nat) {
    i < |es| && es[i].Set? && es[i].k == k && forall m :: i < m < |es| ==> !Removes(es[m], k)
  }

  // Such a set was made with the sweep in this phase.
  ghost predicate MadeIn(es: seq<Event>, k: Key, phase: Phase)
    requires ValidRun(es)
  {
    exists i :: Standing(es, k, i) && PhaseAt(es, i) == phase
  }

  function PhaseAt(es: seq<Event>, i: nat): Phase
    requires ValidRun(es) && i < |es|
  {
    Prefix(es, i);
    Exec(es[..i]).sweep
  }

  lemma StandingNext(es: seq<Event>, e: Event, k: Key, i: nat)
    ensures Standing(es + [e], k, i) <==> (!Removes(e, k) && Standing(es, k, i)) || (i == |es| && e.Set? && e.k == k)
  {
    var es' := es + [e];
    assert es'[|es|] == e;
    assert forall m :: 0 <= m < |es| ==> es'[m] == es[m];
  }

  lemma MadeNext(es: seq<Event>, e: Event, k: Key, phase: Phase)
    requires ValidRun(es) && Enabled(Exec(es), e) && ValidRun(es + [e])
    ensures MadeIn(es + [e], k, phase) <==>
      (!Removes(e, k) && MadeIn(es, k, phase)) || (e.Set? && e.k == k && Exec(es).sweep == phase)
  {
    hide ValidRun, Exec;
    var es' := es + [e];
    forall i | 0 <= i < |es'|
      ensures Standing(es', k, i) <==> (!Removes(e, k) && Standing(es, k, i)) || (i == |es| && e.Set? && e.k == k)
      ensures PhaseAt(es', i) == if i < |es| then PhaseAt(es, i) else Exec(es).sweep
    {
      StandingNext(es, e, k, i);
      assert es'[..i] == if i < |es| then es[..i] else es;
    }
    if e.Set? && e.k == k && Exec(es).sweep == phase { assert Standing(es', k, |es|) && PhaseAt(es', |es|) == phase; }
    if !Removes(e, k) && MadeIn(es, k, phase) {
      var i :| Standing(es, k, i) && PhaseAt(es, i) == phase;
      assert Standing(es', k, i) && PhaseAt(es', i) == phase;
    }
  }

  // ----- what each book holds -----

  // A set of k that stands was made while the sweep was on k: before it untracked the key, or
  // before it took it off the list.
  ghost predicate BeforeUntrack(es: seq<Event>, k: Key)
    requires ValidRun(es)
  {
    MadeIn(es, k, Taken(k))
  }

  ghost predicate InGap(es: seq<Event>, k: Key)
    requires ValidRun(es)
  {
    MadeIn(es, k, Taken(k)) || MadeIn(es, k, Untracked(k))
  }

  predicate On(phase: Phase, k: Key) { phase == Taken(k) || phase == Untracked(k) }

  ghost predicate Books(es: seq<Event>, k: Key)
    requires ValidRun(es)
  {
    var s := Exec(es);
    && (InGap(es, k) ==> k in s.store)
    && (k in s.policy && k in s.store ==> s.policy[k] == s.store[k].cost)
    && (s.sweep == Taken(k) ==> (k in s.store ==> BeforeUntrack(es, k) && k in s.policy && k in s.tree))
    && (s.sweep == Untracked(k) ==>
          && (k in s.store ==> InGap(es, k) && k in s.tree)
          && (k in s.policy <==> k in s.store && !BeforeUntrack(es, k)))
    && (!On(s.sweep, k) ==>
          && (k in s.policy <==> k in s.store && !BeforeUntrack(es, k))
          && (k in s.tree <==> k in s.store && !InGap(es, k)))
  }

  lemma BooksNext(es: seq<Event>, e: Event, k: Key)
    requires ValidRun(es) && Enabled(Exec(es), e) && ValidRun(es + [e]) && Books(es, k)
    ensures Books(es + [e], k)
  {
    hide MadeIn, ValidRun, Exec;
    OneMore(es, e);
    MadeNext(es, e, k, Taken(k));
    MadeNext(es, e, k, Untracked(k));
  }

  lemma {:induction false} BooksKept(es: seq<Event>, k: Key)
    requires ValidRun(es)
    ensures Books(es, k)
    decreases |es|
  {
    if es != [] {
      var n := |es| - 1;
      BooksKept(es[..n], k);
      assert es[..n] + [es[n]] == es;
      BooksNext(es[..n], es[n], k);
    }
  }

  ghost predicate Agree(s: State) {
    && s.policy.Keys == s.store.Keys == s.tree
    && forall k :: k in s.store ==> s.policy[k] == s.store[k].cost
  }

  // The i-th event set k while the sweep was on k, and that set stands.
  ghost predicate SetInGap(es: seq<Event>, k: Key, i: nat)
    requires ValidRun(es)
  {
    Standing(es, k, i) && On(PhaseAt(es, i), k)
  }

  lemma GapOf(es: seq<Event>, k: Key)
    requires ValidRun(es)
    ensures InGap(es, k) <==> exists i: nat :: SetInGap(es, k, i)
  {
    hide ValidRun, Exec;
    if MadeIn(es, k, Taken(k)) {
      var i :| Standing(es, k, i) && PhaseAt(es, i) == Taken(k);
      assert SetInGap(es, k, i);
    }
    if MadeIn(es, k, Untracked(k)) {
      var i :| Standing(es, k, i) && PhaseAt(es, i) == Untracked(k);
      assert SetInGap(es, k, i);
    }
    if i: nat :| SetInGap(es, k, i) {
      assert MadeIn(es, k, PhaseAt(es, i));
    }
  }

  // With no item of a sweep in hand a key set in its gap is missing from the tree, and every
  // other is in all the books or in none.
  lemma GapMatters(es: seq<Event>, k: Key)
    requires ValidRun(es) && Exec(es).sweep.Between?
    ensures var s := Exec(es);
      if exists i: nat :: SetInGap(es, k, i) then k in s.store && k !in s.tree
      else (k in s.policy <==> k in s.store) && (k in s.tree <==> k in s.store) &&
           (k in s.store ==> s.policy[k] == s.store[k].cost)
  {
    hide ValidRun, Exec, SetInGap, MadeIn;
    BooksKept(es, k);
    GapOf(es, k);
  }

  // With no item of a sweep in hand the store, the policy and the tree agree if and only if no
  // set that still stands was made while the sweep was on its key.
  lemma AgreeExactly(es: seq<Event>)
    requires ValidRun(es) && Exec(es).sweep.Between?
    ensures Agree(Exec(es)) <==> forall k, i: nat :: !SetInGap(es, k, i)
  {
    hide ValidRun, Exec, SetInGap;
    var s := Exec(es);
    if k, i: nat :| SetInGap(es, k, i) {
      GapMatters(es, k);
      assert k in s.store.Keys && k !in s.tree;
    } else {
      forall k: Key
        ensures (k in s.policy <==> k in s.store) && (k in s.tree <==> k in s.store)
        ensures k in s.store ==> s.policy[k] == s.store[k].cost
      {
        GapMatters(es, k);
      }
    }
  }

  // ----- and the difference lasts -----

  lemma UntrackedNext(s: State, e: Event, k: Key)
    requires Enabled(s, e) && !On(s.sweep, k) && k in s.store && k !in s.policy
    requires e != Delete(k) && e != Take(k) && e != Clear
    ensures var s' := Step(s, e); k in s'.store && k !in s'.policy && !On(s'.sweep, k)
  {
  }

  // Stored and not tracked, a key stays so through sets of whatever key, and is nobody's victim:
  // only a delete, its own expiry or a clear takes it out.
  lemma {:induction false} UntrackedStays(es: seq<Event>, more: seq<Event>, k: Key)
    requires ValidRun(es) && ValidRun(es + more)
    requires !On(Exec(es).sweep, k) && k in Exec(es).store && k !in Exec(es).policy
    requires forall i :: 0 <= i < |more| ==> more[i] != Delete(k) && more[i] != Take(k) && more[i] != Clear
    ensures k in Exec(es + more).store && k !in Exec(es + more).policy && !On(Exec(es + more).sweep, k)
    decreases |more|
  {
    if more == [] {
      assert es + more == es;
    } else {
      var n := |more| - 1;
      assert (es + more)[..|es + more| - 1] == es + more[..n] && (es + more)[|es + more| - 1] == more[n];
      assert ValidRun(es + more[..n]) && Enabled(Exec(es + more[..n]), more[n]);
      UntrackedStays(es, more[..n], k);
      UntrackedNext(Exec(es + more[..n]), more[n], k);
    }
  }

  // It happens: a key that expires is set anew between the first two steps.
  lemma LossHappens() returns (es: seq<Event>)
    ensures ValidRun(es) && Exec(es).sweep.Between?
    ensures Exec(es).store == map[1 := Item(0, 1)] && Exec(es).policy == map[] && Exec(es).tree == {}
  {
    hide ValidRun, Exec;
    NothingYet();
    es := Then([], Set(1, Item(5, 1), {}));
    es := Then(es, Pass(6));
    es := Then(es, Take(1));
    es := Then(es, Set(1, Item(0, 1), {}));
    es := Then(es, Untrack);
    es := Then(es, Unlist);
  }

  lemma NothingYet()
    ensures ValidRun([]) && Exec([]) == START
  {
  }

  lemma Then(es: seq<Event>, e: Event) returns (es': seq<Event>)
    requires ValidRun(es) && Enabled(Exec(es), e)
    ensures ValidRun(es') && Exec(es') == Step(Exec(es), e)
  {
    OneMore(es, e);
    es' := es + [e];
  }
}
