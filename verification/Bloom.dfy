// The Bloom filter used as TinyLFU's doorkeeper: seven probes into words of 64 bits.
module Bloom {
  import opened Common

  const NUM_HASH: int := 7

  // w & (1 << i) != 0, bit by bit on natural numbers.
  predicate BitOf(w: nat, i: nat) {
    if i == 0 then w % 2 == 1 else BitOf(w / 2, i - 1)
  }

  // w | (1 << i)
  function OrBit(w: nat, i: nat): nat {
    if i == 0 then (if w % 2 == 1 then w else w + 1) else 2 * OrBit(w / 2, i - 1) + w % 2
  }

  // Or-ing a mask of one bit sets that bit and no other.
  lemma {:induction false} OrSetsOneBit(w: nat, i: nat, j: nat)
    ensures BitOf(OrBit(w, i), j) <==> i == j || BitOf(w, j)
    decreases i
  {
    if i > 0 && j > 0 {
      OrSetsOneBit(w / 2, i - 1, j - 1);
      assert OrBit(w, i) / 2 == OrBit(w / 2, i - 1);
    }
  }

  lemma {:induction false} ZeroHasNoBits(i: nat)
    ensures !BitOf(0, i)
  {
    if i > 0 { ZeroHasNoBits(i - 1); }
  }

  // Double hashing: h1 + i*h2 modulo 2^64, where h2 is h1 with its halves exchanged.
  function Probe(keyHash: Hash, i: nat, numBits: nat): (idx: nat)
    requires numBits > 0
    ensures idx < numBits
  {
    var h2 := keyHash / 0x1_0000_0000 + keyHash % 0x1_0000_0000 * 0x1_0000_0000;
    (keyHash + i * h2) % TWO64 % numBits
  }

  class BloomFilter {
    const bits: array<nat>
    const numBits: nat

    ghost predicate Valid() {
      numBits > 0 && numBits == 64 * bits.Length
    }

    predicate Bit(idx: nat)
      requires idx < 64 * bits.Length
      reads bits
    {
      BitOf(bits[idx / 64], idx % 64)
    }

    predicate ProbeSet(keyHash: Hash, i: nat)
      requires Valid()
      reads bits
    {
      Bit(Probe(keyHash, i, numBits))
    }

    // What Contains answers.
    predicate Has(keyHash: Hash)
      requires Valid()
      reads bits
    {
      forall i :: 0 <= i < NUM_HASH ==> ProbeSet(keyHash, i)
    }

    // The bits a key is given, those of several keys, and those that are set.
    function KeyBits(keyHash: Hash): set<nat>
      requires numBits > 0
    {
      set i | 0 <= i < NUM_HASH :: Probe(keyHash, i, numBits)
    }

    function BitsOf(keyHashes: seq<Hash>): set<nat>
      requires numBits > 0
    {
      if keyHashes == [] then {} else BitsOf(keyHashes[..|keyHashes| - 1]) + KeyBits(keyHashes[|keyHashes| - 1])
    }

    ghost function Bits(): set<nat>
      requires Valid()
      reads bits
    {
      set idx | 0 <= idx < numBits && Bit(idx)
    }

    lemma HasItsBits(keyHash: Hash)
      requires Valid()
      ensures Has(keyHash) <==> KeyBits(keyHash) <= Bits()
    {
      hide Probe, BitOf;
      if KeyBits(keyHash) <= Bits() {
        forall i | 0 <= i < NUM_HASH ensures ProbeSet(keyHash, i) {
          assert Probe(keyHash, i, numBits) in KeyBits(keyHash);
        }
      } else {
        var idx :| idx in KeyBits(keyHash) && idx !in Bits();
        var i :| 0 <= i < NUM_HASH && Probe(keyHash, i, numBits) == idx;
        assert !ProbeSet(keyHash, i);
      }
    }

    constructor (words: nat)
      requires words > 0
      ensures Valid() && fresh(bits) && numBits == 64 * words && forall idx :: 0 <= idx < numBits ==> !Bit(idx)
    {
      bits := new nat[words](_ => 0);
      numBits := 64 * words;
      forall i: nat { ZeroHasNoBits(i); }
    }

    method Add(keyHash: Hash) returns (alreadyPresent: bool)
      requires Valid()
      modifies bits
      ensures alreadyPresent == old(Has(keyHash))
      ensures forall idx :: 0 <= idx < numBits ==>
                (Bit(idx) <==> old(Bit(idx)) || exists i :: 0 <= i < NUM_HASH && Probe(keyHash, i, numBits) == idx)
      ensures Has(keyHash)
    {
      hide Probe, BitOf;
      alreadyPresent := true;
      var i := 0;
      while i < NUM_HASH
        invariant 0 <= i <= NUM_HASH
        invariant forall idx :: 0 <= idx < numBits ==>
                    (Bit(idx) <==> old(Bit(idx)) || exists k :: 0 <= k < i && Probe(keyHash, k, numBits) == idx)
        invariant alreadyPresent ==> bits[..] == old(bits[..]) && forall k :: 0 <= k < i ==> old(ProbeSet(keyHash, k))
        invariant !alreadyPresent ==> exists k :: 0 <= k < i && !old(ProbeSet(keyHash, k))
      {
        var idx := Probe(keyHash, i, numBits);
        if !Bit(idx) {
          alreadyPresent := false;
          assert !old(ProbeSet(keyHash, i));
          SetBit(idx);
        }
        i := i + 1;
      }
      forall k | 0 <= k < NUM_HASH ensures ProbeSet(keyHash, k) { }
    }

    method SetBit(idx: nat)
      requires Valid() && idx < numBits
      modifies bits
      ensures forall j :: 0 <= j < numBits ==> (Bit(j) <==> old(Bit(j)) || j == idx)
    {
      hide BitOf, OrBit;
      var wordIdx, bitIdx := idx / 64, idx % 64;
      forall j | 0 <= j < 64 { OrSetsOneBit(bits[wordIdx], bitIdx, j); }
      bits[wordIdx] := OrBit(bits[wordIdx], bitIdx);
    }

    method Contains(keyHash: Hash) returns (found: bool)
      requires Valid()
      ensures found == Has(keyHash)
    {
      hide Probe, BitOf;
      var i := 0;
      while i < NUM_HASH
        invariant 0 <= i <= NUM_HASH
        invariant forall k :: 0 <= k < i ==> ProbeSet(keyHash, k)
      {
        if !Bit(Probe(keyHash, i, numBits)) {
          assert !ProbeSet(keyHash, i);
          return false;
        }
        i := i + 1;
      }
      found := true;
    }

    method Reset()
      requires Valid()
      modifies bits
      ensures forall idx :: 0 <= idx < numBits ==> !Bit(idx)
    {
      forall w | 0 <= w < bits.Length {
        bits[w] := 0;
      }
      forall i: nat { ZeroHasNoBits(i); }
    }
  }
}
