// TinyLFU admission: a sketch behind a doorkeeper, aged by halving, set against an exact
// count that knows no collisions.
module TinyLfu {
  import opened Common
  import opened Sketch
  import opened Bloom

  // ----- the collision-free reference -----

  // A set as doorkeeper and one saturating counter per key, aged at the same moments.
  datatype Exact = Exact(door: set<Hash>, counts: map<Hash, nat>, incrs: nat)

  const FRESH: Exact := Exact({}, map[], 0)

  function Count(s: Exact, k: Hash): nat { if k in s.counts then s.counts[k] else 0 }

  function Seen(s: Exact, k: Hash): Exact {
    if k in s.door then s.(counts := s.counts[k := Bump(Count(s, k))]) else s.(door := s.door + {k})
  }

  lemma SeenKeepsCount(s: Exact, k: Hash)
    ensures Seen(s, k).incrs == s.incrs
  {
  }

  function Aged(s: Exact): Exact {
    Exact({}, map k | k in s.counts :: s.counts[k] / 2, 0)
  }

  function ExactIncrement(s: Exact, k: Hash, resetAt: int): Exact {
    var t := Seen(s, k).(incrs := s.incrs + 1);
    if t.incrs >= resetAt then Aged(t) else t
  }

  function ExactEstimate(s: Exact, k: Hash): nat {
    Count(s, k) + (if k in s.door then 1 else 0)
  }

  function ExactRun(ks: seq<Hash>, resetAt: int): Exact {
    if ks == [] then FRESH else ExactIncrement(ExactRun(ks[..|ks| - 1], resetAt), ks[|ks| - 1], resetAt)
  }

  function Occurrences(ks: seq<Hash>, k: Hash): nat {
    if ks == [] then 0 else Occurrences(ks[..|ks| - 1], k) + (if ks[|ks| - 1] == k then 1 else 0)
  }

  // Until the first ageing the reference counts accesses, up to sixteen.
  lemma {:induction false} ExactCountsAccesses(ks: seq<Hash>, resetAt: int, k: Hash)
    requires |ks| < resetAt
    ensures ExactRun(ks, resetAt).incrs == |ks|
    ensures var n := Occurrences(ks, k); ExactEstimate(ExactRun(ks, resetAt), k) == if n <= 16 then n else 16
    ensures k in ExactRun(ks, resetAt).door <==> Occurrences(ks, k) > 0
  {
    if ks != [] {
      ExactCountsAccesses(ks[..|ks| - 1], resetAt, k);
    }
  }

  // Accesses one after another from any state.
  function ExactAfter(s: Exact, ks: seq<Hash>, resetAt: int): Exact {
    if ks == [] then s else ExactIncrement(ExactAfter(s, ks[..|ks| - 1], resetAt), ks[|ks| - 1], resetAt)
  }

  function SeenAll(s: Exact, ks: seq<Hash>): Exact {
    if ks == [] then s else Seen(SeenAll(s, ks[..|ks| - 1]), ks[|ks| - 1])
  }

  // Before any ageing the doorkeeper takes the first access and a counter up to fifteen more.
  lemma {:induction false} SeenAllCounts(ks: seq<Hash>, k: Hash)
    ensures var n := Occurrences(ks, k);
      && (k in SeenAll(FRESH, ks).door <==> n > 0)
      && Count(SeenAll(FRESH, ks), k) == (if n == 0 then 0 else if n <= 16 then n - 1 else 15)
      && SeenAll(FRESH, ks).incrs == 0
  {
    if ks != [] { SeenAllCounts(ks[..|ks| - 1], k); }
  }

  // The access that takes the count to the threshold ages: the doorkeeper's one is forgotten,
  // the rest halved, and counting starts again.
  lemma {:induction false} AgesAtThreshold(ks: seq<Hash>, k: Hash)
    requires ks != []
    ensures var n, s := Occurrences(ks, k), ExactRun(ks, |ks|);
      && ExactEstimate(s, k) == (if n == 0 then 0 else if n <= 16 then (n - 1) / 2 else 7)
      && s.incrs == 0 && s.door == {}
  {
    var m := |ks| - 1;
    RunIsAfter(ks, |ks|);
    AfterIsSeen(FRESH, ks[..m], |ks|);
    SeenAllCounts(ks, k);
  }

  // So does a batch, as a whole, however far beyond the threshold it goes.
  lemma BatchAges(ks: seq<Hash>, resetAt: int, k: Hash)
    ensures var n, s := Occurrences(ks, k), ExactBatch(FRESH, ks, resetAt);
      if |ks| < resetAt then
        ExactEstimate(s, k) == (if n <= 16 then n else 16) && s.incrs == |ks|
      else
        && ExactEstimate(s, k) == (if n == 0 then 0 else if n <= 16 then (n - 1) / 2 else 7)
        && s.incrs == 0 && s.door == {}
  {
    SeenAllCounts(ks, k);
  }

  lemma {:induction false} RunIsAfter(ks: seq<Hash>, resetAt: int)
    ensures ExactRun(ks, resetAt) == ExactAfter(FRESH, ks, resetAt)
  {
    if ks != [] { RunIsAfter(ks[..|ks| - 1], resetAt); }
  }

  // A batch counted as one, with the threshold tested once at its end.
  function ExactBatch(s: Exact, ks: seq<Hash>, resetAt: int): Exact {
    var t := SeenAll(s, ks).(incrs := s.incrs + |ks|);
    if t.incrs >= resetAt then Aged(t) else t
  }

  lemma {:induction false} AfterIsSeen(s: Exact, ks: seq<Hash>, resetAt: int)
    requires s.incrs + |ks| < resetAt
    ensures ExactAfter(s, ks, resetAt) == SeenAll(s, ks).(incrs := s.incrs + |ks|)
  {
    if ks != [] { AfterIsSeen(s, ks[..|ks| - 1], resetAt); }
  }

  lemma {:induction false} AfterCounts(s: Exact, ks: seq<Hash>, resetAt: int)
    requires s.incrs < resetAt && s.incrs + |ks| < 2 * resetAt
    ensures var n := s.incrs + |ks|; ExactAfter(s, ks, resetAt).incrs == if n < resetAt then n else n - resetAt
  {
    if ks != [] { AfterCounts(s, ks[..|ks| - 1], resetAt); }
  }

  // For batches below the threshold: the batch has the effect of its accesses one by one
  // exactly when none of them but the last takes the count to the threshold.
  lemma BatchIsLoop(s: Exact, ks: seq<Hash>, resetAt: int)
    requires s.incrs < resetAt && s.incrs + |ks| < 2 * resetAt
    ensures ExactBatch(s, ks, resetAt) == ExactAfter(s, ks, resetAt) <==> s.incrs + |ks| <= resetAt
  {
    if s.incrs + |ks| < resetAt {
      AfterIsSeen(s, ks, resetAt);
    } else {
      AfterCounts(s, ks, resetAt);
      if s.incrs + |ks| == resetAt { AfterIsSeen(s, ks[..|ks| - 1], resetAt); }
    }
  }

  // ----- the structure -----

  class TinyLFU {
    const freq: CmSketch
    const door: BloomFilter
    const resetAt: int
    var incrs: int
    ghost var exact: Exact
    ghost var used: set<Hash>  // every hash recorded since the structure was blank

    ghost predicate Shape() {
      freq.Valid() && door.Valid()
    }

    // No counter of a key is below its exact count, and no key has slipped the doorkeeper.
    ghost predicate Above(s: Exact)
      requires Shape()
      reads freq.rows, door.bits
    {
      && (forall k, r :: k in s.counts && 0 <= r < DEPTH ==> s.counts[k] <= freq.Counter(r, freq.Index(k, r)))
      && (forall k :: k in s.door ==> door.Has(k))
    }

    // No other hash recorded uses k's counter in row r, or k's i-th bit.
    ghost predicate OwnCounter(hs: set<Hash>, k: Hash, r: nat)
      requires Shape() && r < DEPTH
    {
      forall j :: j in hs && j != k ==> freq.Index(j, r) != freq.Index(k, r)
    }

    ghost predicate OwnBit(hs: set<Hash>, k: Hash, i: nat)
      requires Shape()
    {
      forall j, m :: j in hs && j != k && 0 <= m < NUM_HASH ==> Probe(j, m, door.numBits) != Probe(k, i, door.numBits)
    }

    ghost predicate ToldApart(hs: set<Hash>, k: Hash)
      requires Shape()
    {
      exists i :: 0 <= i < NUM_HASH && OwnBit(hs, k, i)
    }

    // A key with a bit of its own is in the doorkeeper only if it was put there, and a counter
    // of its own holds its exact count.
    ghost predicate Sharp(s: Exact, hs: set<Hash>)
      requires Shape()
      reads freq.rows, door.bits
    {
      && (forall k, i :: 0 <= i < NUM_HASH && OwnBit(hs, k, i) && door.ProbeSet(k, i) ==> k in s.door)
      && (forall k, r :: 0 <= r < DEPTH && ToldApart(hs, k) && OwnCounter(hs, k, r) ==>
            freq.Counter(r, freq.Index(k, r)) == Count(s, k))
    }

    ghost predicate Valid()
      reads this, freq.rows, door.bits
    {
      Shape() && exact.incrs == incrs && Above(exact) && Sharp(exact, used)
    }

    // A blank sketch and a blank doorkeeper.
    constructor (width: nat, seeds: seq<Hash>, words: nat, resetAt: int)
      requires width > 0 && |seeds| == DEPTH && words > 0
      ensures Valid() && this.resetAt == resetAt && exact == FRESH && used == {} && incrs == 0 && Blank()
      ensures freq.width == width && freq.seeds == seeds && door.numBits == 64 * words
      ensures fresh(freq) && fresh(freq.rows) && fresh(door) && fresh(door.bits)
    {
      var sketch := new CmSketch(width, seeds);
      var filter := new BloomFilter(words);
      freq := sketch;
      door := filter;
      this.resetAt := resetAt;
      incrs := 0;
      exact := FRESH;
      used := {};
      new;
      BlankIsSharp({});
    }

    lemma BlankIsSharp(hs: set<Hash>)
      requires Shape() && Blank()
      ensures Above(FRESH) && Sharp(FRESH, hs)
    {
      hide Mix, Probe, BitOf;
    }

    // One access, before any ageing: the key's bits are set, and its counters go up if its
    // bits were all set before.  `halve` says that ageing followed.
    twostate predicate Recorded(keyHash: Hash, halve: bool)
      requires Shape()
      reads freq.rows, door.bits
    {
      && (forall r, i :: 0 <= r < DEPTH && 0 <= i < 2 * freq.rows.Length1 ==>
            var up := old(door.Has(keyHash)) && i == freq.Index(keyHash, r);
            var v := if up then Bump(old(freq.Counter(r, i))) else old(freq.Counter(r, i));
            freq.Counter(r, i) == if halve then v / 2 else v)
      && (forall idx :: 0 <= idx < door.numBits ==>
            (door.Bit(idx) <==>
              && !halve
              && (old(door.Bit(idx)) || exists i :: 0 <= i < NUM_HASH && Probe(keyHash, i, door.numBits) == idx)))
    }

    ghost predicate Blank()
      requires Shape()
      reads freq.rows, door.bits
    {
      && (forall r, i :: 0 <= r < DEPTH && 0 <= i < 2 * freq.rows.Length1 ==> freq.Counter(r, i) == 0)
      && (forall idx :: 0 <= idx < door.numBits ==> !door.Bit(idx))
    }

    method Increment(keyHash: Hash)
      requires Valid()
      modifies this, freq.rows, door.bits
      ensures Valid() && exact == ExactIncrement(old(exact), keyHash, resetAt)
      ensures used == old(used) + {keyHash}
      ensures Recorded(keyHash, old(incrs) + 1 >= resetAt)
      ensures incrs == if old(incrs) + 1 >= resetAt then 0 else old(incrs) + 1
    {
      hide TinyLFU.Above, TinyLFU.Sharp, Mix, Probe, BitOf;
      Record(keyHash);
      ghost var seen := exact;
      exact := exact.(incrs := exact.incrs + 1);
      incrs := incrs + 1;
      OnlyCounted(seen, exact);
      if incrs >= resetAt {
        Reset();
      }
    }

    // How often a batch moves a counter that starts with the given bits in the doorkeeper: once
    // for each access that uses it and finds its own bits set by then.
    ghost function Uses(bits: set<nat>, keyHashes: seq<Hash>, r: nat, i: nat): nat
      requires Shape() && r < DEPTH
    {
      if keyHashes == [] then 0
      else
        var n := |keyHashes| - 1;
        var h := keyHashes[n];
        Uses(bits, keyHashes[..n], r, i) +
        (if freq.Index(h, r) == i && door.KeyBits(h) <= bits + door.BitsOf(keyHashes[..n]) then 1 else 0)
    }

    // A batch of accesses, and then, if `halve` says so, one ageing.
    twostate predicate RecordedAll(keyHashes: seq<Hash>, halve: bool)
      requires Shape()
      reads freq.rows, door.bits
    {
      && (forall r, i :: 0 <= r < DEPTH && 0 <= i < 2 * freq.rows.Length1 ==>
            var v := old(freq.Counter(r, i)) + Uses(old(door.Bits()), keyHashes, r, i);
            var capped := if v <= 15 then v else 15;
            freq.Counter(r, i) == if halve then capped / 2 else capped)
      && door.Bits() == (if halve then {} else old(door.Bits()) + door.BitsOf(keyHashes))
    }

    // A batch of accesses: counted one by one, tested against the threshold once.
    method IncrementBatch(keyHashes: seq<Hash>)
      requires Valid()
      modifies this, freq.rows, door.bits
      ensures Valid() && exact == ExactBatch(old(exact), keyHashes, resetAt)
      ensures RecordedAll(keyHashes, old(incrs) + |keyHashes| >= resetAt)
      ensures incrs == if old(incrs) + |keyHashes| >= resetAt then 0 else old(incrs) + |keyHashes|
    {
      hide TinyLFU.Above, TinyLFU.Sharp, TinyLFU.Recorded, Seen;
      RecordBatch(keyHashes);
      ghost var seen := exact;
      exact := exact.(incrs := exact.incrs + |keyHashes|);
      incrs := incrs + |keyHashes|;
      OnlyCounted(seen, exact);
      if incrs >= resetAt {
        Reset();
      }
    }

    method RecordBatch(keyHashes: seq<Hash>)
      requires Valid()
      modifies this`exact, this`used, freq.rows, door.bits
      ensures Valid() && exact == SeenAll(old(exact), keyHashes) && RecordedAll(keyHashes, false)
      ensures exact.incrs == old(exact.incrs)
    {
      hide TinyLFU.Above, TinyLFU.Sharp, TinyLFU.Recorded, TinyLFU.Uses, BloomFilter.KeyBits, BloomFilter.BitsOf,
           BloomFilter.Bits, Seen, Mix, Probe, BitOf;
      NothingUsed(door.Bits());
      for n := 0 to |keyHashes|
        invariant Valid() && exact == SeenAll(old(exact), keyHashes[..n]) && exact.incrs == old(exact.incrs)
        invariant RecordedAll(keyHashes[..n], false)
      {
        assert keyHashes[..n + 1][..n] == keyHashes[..n];
        UsesOneMore(old(door.Bits()), keyHashes, n);
        RecordNext(keyHashes[n]);
      }
      assert keyHashes[..|keyHashes|] == keyHashes;
    }

    lemma NothingUsed(bits: set<nat>)
      requires Shape()
      ensures forall r, i :: 0 <= r < DEPTH && 0 <= i ==> Uses(bits, [], r, i) == 0
      ensures bits + door.BitsOf([]) == bits
    {
    }

    lemma UsesOneMore(bits: set<nat>, keyHashes: seq<Hash>, n: nat)
      requires Shape() && n < |keyHashes|
      ensures forall r, i :: 0 <= r < DEPTH && 0 <= i ==>
                Uses(bits, keyHashes[..n + 1], r, i) == Uses(bits, keyHashes[..n], r, i) +
                (if freq.Index(keyHashes[n], r) == i && door.KeyBits(keyHashes[n]) <= bits + door.BitsOf(keyHashes[..n])
                 then 1 else 0)
      ensures bits + door.BitsOf(keyHashes[..n + 1]) == bits + door.BitsOf(keyHashes[..n]) + door.KeyBits(keyHashes[n])
    {
      hide Mix, Probe, BloomFilter.KeyBits;
      assert keyHashes[..n + 1][..n] == keyHashes[..n];
    }

    // The number of accesses does not bear on the sketch.
    lemma OnlyCounted(s: Exact, t: Exact)
      requires Shape() && t == s.(incrs := t.incrs)
      ensures Above(s) ==> Above(t)
      ensures Sharp(s, used) ==> Sharp(t, used)
    {
    }

    // The same, of the set of bits.
    method RecordNext(keyHash: Hash)
      requires Valid()
      modifies this`exact, this`used, freq.rows, door.bits
      ensures Valid() && exact == Seen(old(exact), keyHash) && exact.incrs == old(exact.incrs)
      ensures forall r, i :: 0 <= r < DEPTH && 0 <= i < 2 * freq.rows.Length1 ==>
                freq.Counter(r, i) == if i == freq.Index(keyHash, r) && door.KeyBits(keyHash) <= old(door.Bits())
                                      then Bump(old(freq.Counter(r, i))) else old(freq.Counter(r, i))
      ensures door.Bits() == old(door.Bits()) + door.KeyBits(keyHash)
    {
      hide TinyLFU.Above, TinyLFU.Sharp, Mix, Probe, BitOf;
      door.HasItsBits(keyHash);
      ghost var was, mine := door.Bits(), door.KeyBits(keyHash);
      Record(keyHash);
      forall idx | 0 <= idx < door.numBits ensures idx in door.Bits() <==> idx in was || idx in mine { }
      assert door.Bits() == was + mine;
    }

    // One access, recorded in the structure and in the reference.
    method Record(keyHash: Hash)
      requires Valid()
      modifies this`exact, this`used, freq.rows, door.bits
      ensures Valid() && exact == Seen(old(exact), keyHash) && exact.incrs == old(exact.incrs)
      ensures used == old(used) + {keyHash} && Recorded(keyHash, false)
    {
      hide Mix, Probe, BitOf;
      ghost var was, before := exact, used;
      RecordAccess(keyHash);
      exact := Seen(exact, keyHash);
      used := used + {keyHash};
      forall k, i | 0 <= i < NUM_HASH && OwnBit(used, k, i) && door.ProbeSet(k, i) ensures k in exact.door {
        assert OwnBit(before, k, i);
      }
      forall k, r | 0 <= r < DEPTH && ToldApart(used, k) && OwnCounter(used, k, r)
        ensures freq.Counter(r, freq.Index(k, r)) == Count(exact, k)
      {
        assert OwnCounter(before, k, r);
        var i :| 0 <= i < NUM_HASH && OwnBit(used, k, i);
        assert OwnBit(before, k, i);
        if k == keyHash {
          assert old(door.Has(k)) ==> old(door.ProbeSet(k, i));
          assert k in was.door ==> old(door.Has(k));
        }
      }
    }

    // Doorkeeper first, sketch only for keys already in it.  Either way the access keeps the
    // sketch above the reference.
    method RecordAccess(keyHash: Hash)
      requires Shape() && Above(exact)
      modifies freq.rows, door.bits
      ensures Above(Seen(exact, keyHash)) && Recorded(keyHash, false)
    {
      hide Mix, Probe, BitOf;
      var present := door.Add(keyHash);
      if present {
        freq.Increment(keyHash);
      }
      ghost var seen := Seen(exact, keyHash);
      forall k, r | k in seen.counts && 0 <= r < DEPTH
        ensures seen.counts[k] <= freq.Counter(r, freq.Index(k, r))
      {
        assert k in exact.counts ==> exact.counts[k] <= old(freq.Counter(r, freq.Index(k, r)));
        assert keyHash in exact.door ==> old(door.Has(keyHash));
      }
      forall k | k in seen.door && k != keyHash ensures door.Has(k) {
        assert old(door.Has(k));
        forall i | 0 <= i < NUM_HASH ensures door.ProbeSet(k, i) { assert old(door.ProbeSet(k, i)); }
      }
    }

    // Ageing: halve the sketch, empty the doorkeeper, start counting again.
    method Reset()
      requires Shape() && Above(exact) && Sharp(exact, used)
      modifies this`incrs, this`exact, freq.rows, door.bits
      ensures Valid() && exact == Aged(old(exact)) && incrs == 0
      ensures forall r, i :: 0 <= r < DEPTH && 0 <= i < 2 * freq.rows.Length1 ==>
              freq.Counter(r, i) == old(freq.Counter(r, i)) / 2
      ensures forall idx :: 0 <= idx < door.numBits ==> !door.Bit(idx)
    {
      freq.Reset();
      door.Reset();
      incrs := 0;
      exact := Aged(exact);
    }

    method Clear()
      requires Valid()
      modifies this, freq.rows, door.bits
      ensures Valid() && exact == FRESH && used == {} && incrs == 0 && Blank()
    {
      freq.Clear();
      door.Reset();
      incrs := 0;
      exact := FRESH;
      used := {};
      BlankIsSharp({});
    }

    // The estimate: the least of the key's counters, and one for being in the doorkeeper.
    ghost function EstimateOf(keyHash: Hash): nat
      requires Shape()
      reads freq.rows, door.bits
    {
      freq.Least(keyHash, DEPTH) + (if door.Has(keyHash) then 1 else 0)
    }

    // It is never below the exact one, despite shared counters and bits.
    lemma NeverUnderestimates(keyHash: Hash)
      requires Valid()
      ensures ExactEstimate(exact, keyHash) <= EstimateOf(keyHash) <= MAX_COUNT + 1
    {
      hide Mix;
    }

    // For a key with a bit and a counter of its own it is the exact one.
    lemma ExactWhenAlone(keyHash: Hash)
      requires Valid() && ToldApart(used, keyHash) && exists r :: 0 <= r < DEPTH && OwnCounter(used, keyHash, r)
      ensures EstimateOf(keyHash) == ExactEstimate(exact, keyHash)
    {
      hide Mix, Probe, BitOf;
      var r :| 0 <= r < DEPTH && OwnCounter(used, keyHash, r);
      var i :| 0 <= i < NUM_HASH && OwnBit(used, keyHash, i);
      if door.Has(keyHash) { assert door.ProbeSet(keyHash, i); }
      assert freq.Counter(r, freq.Index(keyHash, r)) == Count(exact, keyHash);
    }

    method Estimate(keyHash: Hash) returns (estimate: nat)
      requires Valid()
      ensures estimate == EstimateOf(keyHash)
    {
      estimate := freq.Estimate(keyHash);
      var present := door.Contains(keyHash);
      if present {
        estimate := estimate + 1;
      }
    }

    method Admit(incoming: Hash, victim: Hash) returns (admitted: bool)
      requires Valid()
      ensures admitted <==> EstimateOf(incoming) >= EstimateOf(victim)
    {
      var a := Estimate(incoming);
      var b := Estimate(victim);
      admitted := a >= b;
    }
  }
}
