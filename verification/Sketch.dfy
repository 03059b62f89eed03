// The count-min sketch: four rows of 4-bit counters, two to a byte.
module Sketch {
  import opened Common
  import opened BitwiseXor

  const DEPTH: int := 4
  const MAX_COUNT: int := 15

  // The finaliser that spreads a hash over a row: shifts, exclusive ors and 64-bit products.
  function Mix(keyHash: Hash, seed: Hash): nat {
    var a := Xor(keyHash, seed);
    var b := Xor(a, a / 0x2_0000_0000) * 0xff51afd7ed558ccd % TWO64;
    var c := Xor(b, b / 0x2_0000_0000) * 0xc4ceb9fe1a85ec53 % TWO64;
    Xor(c, c / 0x2_0000_0000)
  }

  // The low or the high half of a byte.
  function Nibble(b: Byte, which: nat): (v: nat)
    ensures v <= MAX_COUNT
  {
    if which == 0 then b % 16 else b / 16
  }

  // A byte with one half replaced.
  function WithNibble(b: Byte, which: nat, v: nat): (r: Byte)
    requires v <= MAX_COUNT
    ensures forall w: nat :: w < 2 && which < 2 ==> Nibble(r, w) == if w == which then v else Nibble(b, w)
  {
    if which == 0 then b / 16 * 16 + v else b % 16 + v * 16
  }

  function Bump(v: nat): nat { if v < MAX_COUNT then v + 1 else v }

  class CmSketch {
    const rows: array2<Byte>
    const seeds: seq<Hash>
    const width: nat

    predicate Valid() {
      rows.Length0 == DEPTH && |seeds| == DEPTH && width > 0 && 2 * rows.Length1 >= width
    }

    // The counter a hash uses in a row: the mixed hash masked to the width, a power of two.
    function Index(keyHash: Hash, row: nat): (i: nat)
      requires row < |seeds| && width > 0
      ensures i < width
    {
      Mix(keyHash, seeds[row]) % width
    }

    // The value of a counter (getAt).
    function Counter(row: nat, idx: nat): (v: nat)
      requires row < rows.Length0 && idx < 2 * rows.Length1
      reads rows
      ensures v <= MAX_COUNT
    {
      Nibble(rows[row, idx / 2], idx % 2)
    }

    constructor (width: nat, seeds: seq<Hash>)
      requires width > 0 && |seeds| == DEPTH
      ensures Valid() && this.width == width && this.seeds == seeds && fresh(rows)
      ensures forall r, i :: 0 <= r < DEPTH && 0 <= i < 2 * rows.Length1 ==> Counter(r, i) == 0
    {
      this.width := width;
      this.seeds := seeds;
      rows := new Byte[DEPTH, (width + 1) / 2]((i, j) => 0);
    }

    // Saturating increment of one counter; its neighbour in the byte is untouched.
    method IncrementAt(row: nat, idx: nat)
      requires Valid() && row < DEPTH && idx < 2 * rows.Length1
      modifies rows
      ensures forall r, i :: 0 <= r < DEPTH && 0 <= i < 2 * rows.Length1 ==>
                Counter(r, i) == if r == row && i == idx then Bump(old(Counter(r, i))) else old(Counter(r, i))
    {
      var byteIdx, nibble := idx / 2, idx % 2;
      var b := rows[row, byteIdx];
      var val := Nibble(b, nibble);
      if val < MAX_COUNT {
        val := val + 1;
        rows[row, byteIdx] := WithNibble(b, nibble, val);
      }
    }

    method Increment(keyHash: Hash)
      requires Valid()
      modifies rows
      ensures forall r, i :: 0 <= r < DEPTH && 0 <= i < 2 * rows.Length1 ==>
                Counter(r, i) == if i == Index(keyHash, r) then Bump(old(Counter(r, i))) else old(Counter(r, i))
    {
      var row := 0;
      while row < DEPTH
        invariant 0 <= row <= DEPTH
        invariant forall r, i :: 0 <= r < DEPTH && 0 <= i < 2 * rows.Length1 ==>
                    Counter(r, i) == if r < row && i == Index(keyHash, r) then Bump(old(Counter(r, i)))
                      else old(Counter(r, i))
      {
        var idx := Index(keyHash, row);
        IncrementAt(row, idx);
        row := row + 1;
      }
    }

    // The least of the key's counters in the first `upto` rows.
    function Least(keyHash: Hash, upto: nat): (v: nat)
      requires Valid() && upto <= DEPTH
      reads rows
      ensures v <= MAX_COUNT
      ensures forall r :: 0 <= r < upto ==> v <= Counter(r, Index(keyHash, r))
      ensures v == MAX_COUNT || exists r :: 0 <= r < upto && v == Counter(r, Index(keyHash, r))
    {
      if upto == 0 then MAX_COUNT
      else
        var rest, last := Least(keyHash, upto - 1), Counter(upto - 1, Index(keyHash, upto - 1));
        if last < rest then last else rest
    }

    method Estimate(keyHash: Hash) returns (least: nat)
      requires Valid()
      ensures least == Least(keyHash, DEPTH)
    {
      hide Mix;
      least := MAX_COUNT;
      var row := 0;
      while row < DEPTH
        invariant 0 <= row <= DEPTH && least == Least(keyHash, row)
      {
        var val := Counter(row, Index(keyHash, row));
        if val < least {
          least := val;
        }
        row := row + 1;
      }
    }

    // Ageing: every counter is halved, in place, two at a time.
    method Reset()
      requires Valid()
      modifies rows
      ensures forall r, i :: 0 <= r < DEPTH && 0 <= i < 2 * rows.Length1 ==> Counter(r, i) == old(Counter(r, i)) / 2
    {
      var row := 0;
      while row < DEPTH
        invariant 0 <= row <= DEPTH
        invariant forall r, j :: 0 <= r < DEPTH && 0 <= j < rows.Length1 ==>
                    rows[r, j] == if r < row then Halved(old(rows[r, j])) else old(rows[r, j])
      {
        var j := 0;
        while j < rows.Length1
          invariant 0 <= j <= rows.Length1
          invariant forall r, i :: 0 <= r < DEPTH && 0 <= i < rows.Length1 ==>
                      rows[r, i] == if r < row || (r == row && i < j) then Halved(old(rows[r, i])) else old(rows[r, i])
        {
          rows[row, j] := Halved(rows[row, j]);
          j := j + 1;
        }
        row := row + 1;
      }
    }

    method Clear()
      requires Valid()
      modifies rows
      ensures forall r, i :: 0 <= r < DEPTH && 0 <= i < 2 * rows.Length1 ==> Counter(r, i) == 0
    {
      forall r, j | 0 <= r < rows.Length0 && 0 <= j < rows.Length1 {
        rows[r, j] := 0;
      }
    }
  }

  function Halved(b: Byte): (r: Byte)
    ensures Nibble(r, 0) == Nibble(b, 0) / 2 && Nibble(r, 1) == Nibble(b, 1) / 2
  {
    b % 16 / 2 + b / 16 / 2 * 16
  }
}
