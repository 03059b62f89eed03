// What the hashes of sketch and doorkeeper are worth: the sketch's finaliser loses nothing and
// reaches every counter, and the doorkeeper's probes are the seven of double hashing.
module Mixing {
  import opened Common
  import opened BitwiseXor
  import opened Sketch
  import opened Bloom
  import opened Cuckoo

  // ----- powers of two and exclusive or -----

  lemma {:induction false} PowAdds(a: nat, b: nat)
    ensures Pow2(a + b) == Pow2(a) * Pow2(b)
  {
    if a > 0 { PowAdds(a - 1, b); }
  }

  lemma Powers()
    ensures Pow2(33) == 0x2_0000_0000 && Pow2(64) == TWO64
  {
    PowersOne();
    hide Pow2;
    PowAdds(1, 1);
    PowAdds(2, 2);
    PowAdds(4, 4);
    PowAdds(8, 8);
    PowAdds(16, 16);
    PowAdds(32, 1);
    PowAdds(32, 32);
  }

  lemma PowersOne()
    ensures Pow2(1) == 2
  {
    assert Pow2(1) == 2 * Pow2(0);
  }

  lemma {:induction false} XorBound(a: nat, b: nat, k: nat)
    requires a < Pow2(k) && b < Pow2(k)
    ensures Xor(a, b) < Pow2(k)
  {
    if k > 0 { XorBound(a / 2, b / 2, k - 1); }
  }

  function Shift(a: nat, k: nat): nat {
    if k == 0 then a else Shift(a / 2, k - 1)
  }

  lemma {:induction false} XorShift(a: nat, b: nat, k: nat)
    ensures Shift(Xor(a, b), k) == Xor(Shift(a, k), Shift(b, k))
  {
    hide Xor;
    if k > 0 {
      XorHalves(a, b);
      XorShift(a / 2, b / 2, k - 1);
    }
  }

  lemma {:induction false} ShiftIsDiv(a: nat, k: nat)
    ensures Shift(a, k) == a / Pow2(k)
  {
    if k > 0 {
      ShiftIsDiv(a / 2, k - 1);
      DivTwice(a, Pow2(k - 1));
    }
  }

  lemma DivTwice(a: nat, p: nat)
    requires p > 0
    ensures a / 2 / p == a / (2 * p)
  {
    var q, r := a / 2 / p, a / 2 % p;
    assert a / 2 == q * p + r && q * (2 * p) == 2 * (q * p);
    QuotientIs(a, q, 2 * r + a % 2, 2 * p);
  }

  lemma QuotientIs(n: nat, q: nat, r: nat, m: nat)
    requires r < m && n == q * m + r
    ensures n / m == q
  {
    RemainderIs(n, q, r, m);
    var d := n / m - q;
    assert d * m == 0;
  }

  lemma {:induction false} XorZero(a: nat)
    ensures Xor(a, 0) == a
  {
    if a > 0 { XorZero(a / 2); }
  }

  // ----- the finaliser -----

  // a ^ (a >> 33), which undoes itself on 64 bits.
  function Fold(a: nat): nat { Xor(a, a / 0x2_0000_0000) }

  lemma FoldTwice(a: nat)
    requires a < TWO64
    ensures Fold(Fold(a)) == a && Fold(a) < TWO64
  {
    hide Xor;
    Powers();
    hide Pow2;
    var b := a / 0x2_0000_0000;
    XorBound(a, b, 64);
    XorShift(a, b, 33);
    ShiftIsDiv(a, 33);
    ShiftIsDiv(b, 33);
    ShiftIsDiv(Xor(a, b), 33);
    assert b / 0x2_0000_0000 == 0;
    XorZero(b);
    XorCancels(a, b);
  }

  // Multiplying by the inverse of an odd number takes a product back, modulo 2^64.
  lemma ProductBack(x: nat, c: nat, i: nat, q: nat)
    requires x < TWO64 && c * i == 1 + q * TWO64
    ensures x * c % TWO64 * i % TWO64 == x
  {
    var t, r := x * c / TWO64, x * c % TWO64;
    assert x * c == t * TWO64 + r;
    assert r * i == x * c * i - t * TWO64 * i;
    assert x * c * i == x * (c * i) == x * (1 + q * TWO64);
    assert x * (1 + q * TWO64) == x + x * q * TWO64;
    var n := x * q - t * i;
    assert r * i == n * TWO64 + x;
    assert n * TWO64 > -TWO64;
    RemainderIs(r * i, n, x, TWO64);
  }

  const C1: nat := 0xff51afd7ed558ccd
  const I1: nat := 0x4f74430c22a54005
  const C2: nat := 0xc4ceb9fe1a85ec53
  const I2: nat := 0x9cb4b2f8129337db

  lemma Inverses()
    ensures C1 * I1 == 1 + 5710046619856821070 * TWO64 && I1 * C1 == C1 * I1
    ensures C2 * I2 == 1 + 8680939279959119233 * TWO64 && I2 * C2 == C2 * I2
  {
  }

  function Unmix(m: nat, seed: Hash): nat {
    var b := Fold(Fold(m) * I2 % TWO64);
    Xor(Fold(b * I1 % TWO64), seed)
  }

  lemma MixFolds(keyHash: Hash, seed: Hash)
    ensures Mix(keyHash, seed) == Fold(Fold(Fold(Xor(keyHash, seed)) * C1 % TWO64) * C2 % TWO64)
  {
    hide Xor;
  }

  // The finaliser loses nothing: with the same seed, different hashes are mixed to different
  // numbers of 64 bits.
  lemma MixIsInjective(a: Hash, b: Hash, seed: Hash)
    ensures Mix(a, seed) == Mix(b, seed) <==> a == b
    ensures Mix(a, seed) < TWO64
  {
    hide Xor, Fold, Mix;
    UnmixMix(a, seed);
    UnmixMix(b, seed);
  }

  lemma UnmixMix(h: Hash, seed: Hash)
    ensures Unmix(Mix(h, seed), seed) == h && Mix(h, seed) < TWO64
  {
    hide Xor, Fold, Mix, Pow2;
    Powers();
    Inverses();
    MixFolds(h, seed);
    var a := Xor(h, seed);
    XorBound(h, seed, 64);
    FoldTwice(a);
    var b := Fold(a) * C1 % TWO64;
    ProductBack(Fold(a), C1, I1, 5710046619856821070);
    FoldTwice(b);
    var c := Fold(b) * C2 % TWO64;
    ProductBack(Fold(b), C2, I2, 8680939279959119233);
    FoldTwice(c);
    XorCancels(h, seed);
  }

  // And it reaches every number of 64 bits.
  lemma MixReaches(m: Hash, seed: Hash) returns (h: Hash)
    ensures Mix(h, seed) == m
  {
    hide Xor, Fold, Mix, Pow2;
    Powers();
    Inverses();
    FoldTwice(m);
    var x := Fold(m) * I2 % TWO64;
    ProductBack(Fold(m), I2, C2, 8680939279959119233);
    FoldTwice(x);
    var y := Fold(x) * I1 % TWO64;
    ProductBack(Fold(x), I1, C1, 5710046619856821070);
    FoldTwice(y);
    XorBound(Fold(y), seed, 64);
    h := Xor(Fold(y), seed);
    XorCancels(Fold(y), seed);
    MixFolds(h, seed);
  }

  // Every counter of a row is some hash's.
  lemma EveryCounterIsUsed(sketch: CmSketch, row: nat, i: Hash) returns (h: Hash)
    requires sketch.Valid() && row < DEPTH && i < sketch.width
    ensures sketch.Index(h, row) == i
  {
    hide Mix;
    h := MixReaches(i, sketch.seeds[row]);
    RemainderIs(i, 0, i, sketch.width);
  }

  // The estimate is the least of four counters.
  lemma LeastOfFour(sketch: CmSketch, h: Hash)
    requires sketch.Valid()
    ensures var v := sketch.Least(h, DEPTH);
      && (forall r: nat :: r < 4 ==> v <= sketch.Counter(r, sketch.Index(h, r)))
      && (exists r: nat :: r < 4 && v == sketch.Counter(r, sketch.Index(h, r)))
  {
    hide Mix;
    if sketch.Least(h, DEPTH) == MAX_COUNT {
      assert sketch.Least(h, DEPTH) == sketch.Counter(0, sketch.Index(h, 0));
    }
  }

  // ----- the doorkeeper -----

  // The seven probes of the key with these halves, the second hash being the halves exchanged.
  lemma SevenProbes(door: BloomFilter, hi: nat, lo: nat)
    requires door.Valid() && hi < 0x1_0000_0000 && lo < 0x1_0000_0000
    ensures var h, g, n := hi * 0x1_0000_0000 + lo, lo * 0x1_0000_0000 + hi, door.numBits;
      door.KeyBits(h) == {h % n, (h + g) % TWO64 % n, (h + 2 * g) % TWO64 % n, (h + 3 * g) % TWO64 % n,
                          (h + 4 * g) % TWO64 % n, (h + 5 * g) % TWO64 % n, (h + 6 * g) % TWO64 % n}
  {
    hide Probe, BloomFilter.KeyBits;
    var h, n := hi * 0x1_0000_0000 + lo, door.numBits;
    ProbeIs(hi, lo, n);
    forall x { SevenOnly(door, h, x); }
  }

  lemma ProbeIs(hi: nat, lo: nat, n: nat)
    requires n > 0 && hi < 0x1_0000_0000 && lo < 0x1_0000_0000
    ensures var h, g := hi * 0x1_0000_0000 + lo, lo * 0x1_0000_0000 + hi;
      && Probe(h, 0, n) == h % n && Probe(h, 1, n) == (h + g) % TWO64 % n && Probe(h, 2, n) == (h + 2 * g) % TWO64 % n
      && Probe(h, 3, n) == (h + 3 * g) % TWO64 % n && Probe(h, 4, n) == (h + 4 * g) % TWO64 % n
      && Probe(h, 5, n) == (h + 5 * g) % TWO64 % n && Probe(h, 6, n) == (h + 6 * g) % TWO64 % n
  {
    var h := hi * 0x1_0000_0000 + lo;
    assert h / 0x1_0000_0000 == hi && h % 0x1_0000_0000 == lo;
  }

  lemma SevenOnly(door: BloomFilter, h: Hash, x: nat)
    requires door.Valid()
    ensures x in door.KeyBits(h) <==>
      var n := door.numBits;
      x in {Probe(h, 0, n), Probe(h, 1, n), Probe(h, 2, n), Probe(h, 3, n), Probe(h, 4, n), Probe(h, 5, n),
            Probe(h, 6, n)}
  {
    hide Probe;
    var n := door.numBits;
    forall i | 0 <= i < 7 ensures Probe(h, i, n) in door.KeyBits(h) { }
  }

  // A doorkeeper that has seen one key does not take every other for it.
  method TellsApart(door: BloomFilter) returns (before: bool, same: bool, other: bool)
    requires door.Valid() && forall idx :: 0 <= idx < door.numBits ==> !door.Bit(idx)
    modifies door.bits
    ensures !before && same && !other
  {
    hide BitOf, Probe;
    SmallProbes(door.numBits);
    assert !door.ProbeSet(0, 0);
    before := door.Add(0);
    same := door.Contains(0);
    assert !door.ProbeSet(1, 0);
    other := door.Contains(1);
  }

  lemma SmallProbes(n: nat)
    requires n > 1
    ensures Probe(1, 0, n) == 1 && forall i :: 0 <= i < NUM_HASH ==> Probe(0, i, n) == 0
  {
  }

  // ----- the cuckoo filter's alternate buckets -----

  lemma SameRemainder(a: nat, b: nat, t: nat, m: nat)
    requires m > 0 && a % m == b % m
    ensures a * t % m == b * t % m
  {
    TimesRemainder(a, t, m);
    TimesRemainder(b, t, m);
  }

  lemma TimesRemainder(a: nat, t: nat, m: nat)
    requires m > 0
    ensures a * t % m == a % m * t % m
  {
    var p, r := a / m, a % m;
    assert a == p * m + r;
    Expand(p, m, r, t);
    AddsNothing(r * t, p * t, m);
  }

  lemma Expand(p: nat, m: nat, r: nat, t: nat)
    ensures (p * m + r) * t == r * t + p * t * m
  {
  }

  lemma AddsNothing(f: nat, n: nat, m: nat)
    requires m > 0
    ensures (f + n * m) % m == f % m
  {
    var p, r := f / m, f % m;
    assert f == p * m + r;
    RemainderIs(f + n * m, p + n, r, m);
  }

  const C3: nat := 0x5bd1e995
  const I3: nat := 0x39c9eb52e59b19bd

  // The multiplier being odd, a product has the same last k bits only for the same last k bits.
  lemma ProductsDiffer(f: nat, g: nat, k: nat)
    requires k <= 64
    ensures f * C3 % Pow2(k) == g * C3 % Pow2(k) <==> f % Pow2(k) == g % Pow2(k)
  {
    Powers();
    PowAdds(64 - k, k);
    var m, n := Pow2(k), Pow2(64 - k);
    hide Pow2;
    TakenBack(f, n, m);
    TakenBack(g, n, m);
    if f * C3 % m == g * C3 % m { SameRemainder(f * C3, g * C3, I3, m); }
    if f % m == g % m { SameRemainder(f, g, C3, m); }
  }

  lemma TakenBack(f: nat, n: nat, m: nat)
    requires m > 0 && n * m == TWO64
    ensures f * C3 * I3 % m == f % m
  {
    assert C3 * I3 == 1 + 347744570 * TWO64;
    Regroup(f, n, m);
    AddsNothing(f, f * 347744570 * n, m);
  }

  lemma Regroup(f: nat, n: nat, m: nat)
    requires n * m == TWO64
    ensures f * C3 * I3 == f + f * 347744570 * n * m
  {
    var x := f * 347744570;
    assert x * n * m == x * (n * m) == x * TWO64;
  }

  // From one bucket, fingerprints lead to the same alternate exactly when they agree in as many
  // of their last bits as there are bits in a bucket's number.
  lemma AlternatesSpread(i: nat, f: Fingerprint, g: Fingerprint, k: nat)
    requires i < Pow2(k) && k <= 64
    ensures IndexAlt(i, f, k) == IndexAlt(i, g, k) <==> Mask(f, k) == Mask(g, k)
  {
    hide Xor, Pow2;
    var a, b := f * C3, g * C3;
    XorMask(i, a, k);
    XorMask(i, b, k);
    ProductsDiffer(f, g, k);
    if Xor(Mask(i, k), Mask(a, k)) == Xor(Mask(i, k), Mask(b, k)) {
      XorBack(Mask(i, k), Mask(a, k));
      XorBack(Mask(i, k), Mask(b, k));
    }
  }

  lemma {:induction false} XorBack(a: nat, b: nat)
    ensures Xor(a, Xor(a, b)) == b
    decreases a + b
  {
    if a + b > 0 {
      XorBack(a / 2, b / 2);
      XorHalves(a, b);
      XorBackStep(a, b);
    }
  }

  lemma XorBackStep(a: nat, b: nat)
    requires Xor(a / 2, Xor(a / 2, b / 2)) == b / 2
    ensures Xor(a, Xor(a, b)) == b
  {
    hide Xor;
    var x := Xor(a, b);
    XorHalves(a, b);
    XorHalves(a, x);
    assert (a + x) % 2 == b % 2;
    SameNumber(Xor(a, x), b);
  }
}
