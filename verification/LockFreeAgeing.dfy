// The lock-free TinyLFU counts accesses in one atomic integer; the call whose addition
// takes it to the threshold claims the ageing with a compare-and-swap to zero.  A run
// interleaves any number of Increment and IncrementBatch calls with Clear.
module LockFreeAgeing {

  // A call between its start and its end.
  datatype Call =
    | Adding(n: nat)     // about to add n to the counter
    | Holding(v: int)    // added; holds the counter's new value, about to test and CAS

  datatype State = State(
    counter: int,
    calls: map<nat, Call>,
    // history
    added: int,          // everything added so far
    claims: seq<int>,    // the counter values cleared by a successful CAS: one ageing each
    dropped: int         // what Clear threw away
  )

  datatype Event =
    | Begin(c: nat, n: nat)   // Increment: n == 1; IncrementBatch: the number of hashes
    | Add(c: nat)
    | Claim(c: nat)           // test against the threshold and, if reached, CAS to zero
    | Clear

  const INITIAL: State := State(0, map[], 0, [], 0)

  predicate Enabled(s: State, e: Event) {
    match e
    case Begin(c, _) => c !in s.calls
    case Add(c) => c in s.calls && s.calls[c].Adding?
    case Claim(c) => c in s.calls && s.calls[c].Holding?
    case Clear => true
  }

  function Step(s: State, e: Event, resetAt: int): State
    requires Enabled(s, e)
  {
    match e
    case Begin(c, n) => s.(calls := s.calls[c := Adding(n)])
    case Add(c) =>
      var v := s.counter + s.calls[c].n;
      s.(counter := v, calls := s.calls[c := Holding(v)], added := s.added + s.calls[c].n)
    case Claim(c) =>
      var v := s.calls[c].v;
      if v >= resetAt && s.counter == v then
        s.(counter := 0, calls := s.calls - {c}, claims := s.claims + [v])
      else s.(calls := s.calls - {c})
    case Clear => s.(counter := 0, dropped := s.dropped + s.counter)
  }

  ghost predicate ValidRun(s: State, es: seq<Event>, resetAt: int)
    decreases |es|
  {
    es == [] || (Enabled(s, es[0]) && ValidRun(Step(s, es[0], resetAt), es[1..], resetAt))
  }

  function Exec(s: State, es: seq<Event>, resetAt: int): State
    requires ValidRun(s, es, resetAt)
    decreases |es|
  {
    if es == [] then s else Exec(Step(s, es[0], resetAt), es[1..], resetAt)
  }

  function Total(claims: seq<int>): int {
    if claims == [] then 0 else Total(claims[..|claims| - 1]) + claims[|claims| - 1]
  }

  // A counter at the threshold is the exact value some call holds and has yet to claim.
  ghost predicate Claimable(s: State, resetAt: int) {
    s.counter >= resetAt ==> exists c :: c in s.calls && s.calls[c] == Holding(s.counter)
  }

  // Every addition is in the counter, in a claimed value, or was cleared.
  ghost predicate Accounted(s: State, resetAt: int) {
    && s.added == s.counter + Total(s.claims) + s.dropped
    && s.counter >= 0
    && s.dropped >= 0
    && forall i :: 0 <= i < |s.claims| ==> s.claims[i] >= resetAt
  }

  ghost predicate Inv(s: State, resetAt: int) {
    Claimable(s, resetAt) && Accounted(s, resetAt)
  }

  lemma StepInv(s: State, e: Event, resetAt: int)
    requires resetAt >= 1 && Inv(s, resetAt) && Enabled(s, e)
    ensures Inv(Step(s, e, resetAt), resetAt)
  {
    var s' := Step(s, e, resetAt);
    match e
    case Begin(c, n) =>
      if s.counter >= resetAt {
        var d :| d in s.calls && s.calls[d] == Holding(s.counter);
        assert s'.calls[d] == Holding(s'.counter);
      }
    case Add(c) => assert s'.calls[c] == Holding(s'.counter);
    case Claim(c) =>
      if s'.claims != s.claims {
        assert s'.claims[..|s'.claims| - 1] == s.claims;
      } else if s.counter >= resetAt {
        // The CAS failed, or the held value is below the threshold: the claimant is another.
        var d :| d in s.calls && s.calls[d] == Holding(s.counter);
        assert d != c && s'.calls[d] == Holding(s'.counter);
      }
    case Clear =>
  }

  lemma {:induction false} RunInv(s: State, es: seq<Event>, resetAt: int)
    requires resetAt >= 1 && Inv(s, resetAt) && ValidRun(s, es, resetAt)
    ensures Inv(Exec(s, es, resetAt), resetAt)
    decreases |es|
  {
    if es != [] {
      StepInv(s, es[0], resetAt);
      RunInv(Step(s, es[0], resetAt), es[1..], resetAt);
    }
  }

  // With no call in flight the counter is below the threshold.
  lemma QuietCounterIsLow(es: seq<Event>, resetAt: int)
    requires resetAt >= 1 && ValidRun(INITIAL, es, resetAt)
    requires Exec(INITIAL, es, resetAt).calls == map[]
    ensures 0 <= Exec(INITIAL, es, resetAt).counter < resetAt
  {
    RunInv(INITIAL, es, resetAt);
  }

  lemma {:induction false} TotalAtLeast(claims: seq<int>, least: int)
    requires forall i :: 0 <= i < |claims| ==> claims[i] >= least
    ensures Total(claims) >= |claims| * least
  {
    if claims != [] {
      TotalAtLeast(claims[..|claims| - 1], least);
      assert |claims| * least == (|claims| - 1) * least + least;
    }
  }

  // No ageing is forgotten and none is made up: once the calls are done, the ageings account
  // for all additions that no Clear threw away but a remainder below the threshold, and for at
  // least a full threshold each.
  lemma AgeingsMatchAdditions(es: seq<Event>, resetAt: int)
    requires resetAt >= 1 && ValidRun(INITIAL, es, resetAt)
    requires Exec(INITIAL, es, resetAt).calls == map[]
    ensures var s := Exec(INITIAL, es, resetAt);
      var counted := s.added - s.dropped;
      && counted - resetAt < Total(s.claims) <= counted
      && |s.claims| * resetAt <= counted
      && (counted >= resetAt ==> |s.claims| >= 1)
  {
    RunInv(INITIAL, es, resetAt);
    TotalAtLeast(Exec(INITIAL, es, resetAt).claims, resetAt);
  }

  // ----- what was added, from the calls alone -----

  // The size named by the last call that c began.
  function Named(es: seq<Event>, c: nat): nat {
    if es == [] then 0
    else
      var e := es[|es| - 1];
      if e.Begin? && e.c == c then e.n else Named(es[..|es| - 1], c)
  }

  // The sizes of the calls whose addition took place.
  function Additions(es: seq<Event>): nat {
    if es == [] then 0
    else
      var e := es[|es| - 1];
      Additions(es[..|es| - 1]) + (if e.Add? then Named(es[..|es| - 1], e.c) else 0)
  }

  lemma {:induction false} RunSplits(s: State, es: seq<Event>, resetAt: int)
    requires ValidRun(s, es, resetAt) && es != []
    ensures var n := |es| - 1;
      && ValidRun(s, es[..n], resetAt) && Enabled(Exec(s, es[..n], resetAt), es[n])
      && Exec(s, es, resetAt) == Step(Exec(s, es[..n], resetAt), es[n], resetAt)
    decreases |es|
  {
    var n := |es| - 1;
    if n > 0 {
      RunSplits(Step(s, es[0], resetAt), es[1..], resetAt);
      assert es[1..][..n - 1] == es[..n][1..];
    }
  }

  // Whatever the interleaving, the counter has been given the size of every call, a batch of n
  // accesses counting for n.
  lemma {:induction false} AddedIsNamed(es: seq<Event>, resetAt: int)
    requires ValidRun(INITIAL, es, resetAt)
    ensures var s := Exec(INITIAL, es, resetAt);
      && s.added == Additions(es)
      && forall c :: c in s.calls && s.calls[c].Adding? ==> s.calls[c].n == Named(es, c)
    decreases |es|
  {
    hide ValidRun, Exec;
    if es == [] {
      Nothing(resetAt);
    } else {
      var n := |es| - 1;
      RunSplits(INITIAL, es, resetAt);
      AddedIsNamed(es[..n], resetAt);
    }
  }

  lemma Nothing(resetAt: int)
    ensures ValidRun(INITIAL, [], resetAt) && Exec(INITIAL, [], resetAt) == INITIAL
  {
  }

  // In a run without Clear, once the calls are done: the ageings account for the sizes of all
  // calls but a remainder below the threshold.
  lemma AgeingsMatchCalls(es: seq<Event>, resetAt: int)
    requires resetAt >= 1 && ValidRun(INITIAL, es, resetAt) && Exec(INITIAL, es, resetAt).calls == map[]
    requires forall i :: 0 <= i < |es| ==> es[i] != Clear
    ensures var s := Exec(INITIAL, es, resetAt);
      && Additions(es) - resetAt < Total(s.claims) <= Additions(es)
      && |s.claims| * resetAt <= Additions(es)
      && (Additions(es) >= resetAt ==> s.claims != [])
  {
    AgeingsMatchAdditions(es, resetAt);
    AddedIsNamed(es, resetAt);
    NothingDropped(INITIAL, es, resetAt);
  }

  lemma {:induction false} NothingDropped(s: State, es: seq<Event>, resetAt: int)
    requires ValidRun(s, es, resetAt) && forall i :: 0 <= i < |es| ==> es[i] != Clear
    ensures Exec(s, es, resetAt).dropped == s.dropped
    decreases |es|
  {
    if es != [] {
      var rest := es[1..];
      assert forall i :: 0 <= i < |rest| ==> rest[i] == es[i + 1];
      NothingDropped(Step(s, es[0], resetAt), rest, resetAt);
    }
  }
}
