// Records of the byte log: little-endian lengths, expiry and cost, then key and value.
module Codec {
  import opened Common

  const TWO32: int := 0x1_0000_0000
  const TWO63: int := 0x8000_0000_0000_0000
  const HEADER: int := 24

  type U32 = n: int | 0 <= n < 0x1_0000_0000
  type Int64 = n: int | -0x8000_0000_0000_0000 <= n < 0x8000_0000_0000_0000

  function PutU32(n: U32): (s: Str)
    ensures |s| == 4
  {
    [n % 256, n / 256 % 256, n / 65536 % 256, n / 16777216]
  }

  function GetU32(s: Str): (n: U32)
    requires |s| == 4
  {
    var b0: int, b1: int, b2: int, b3: int := s[0], s[1], s[2], s[3];
    b0 + 256 * b1 + 65536 * b2 + 16777216 * b3
  }

  lemma U32RoundTrip(n: U32)
    ensures GetU32(PutU32(n)) == n
  {
  }

  // A signed 64-bit number, stored as its two's complement.
  function PutInt64(x: Int64): (s: Str)
    ensures |s| == 8
  {
    var u := if x < 0 then x + TWO64 else x;
    PutU32(u % TWO32) + PutU32(u / TWO32)
  }

  function GetInt64(s: Str): (x: Int64)
    requires |s| == 8
  {
    var u := GetU32(s[..4]) + TWO32 * GetU32(s[4..]);
    if u >= TWO63 then u - TWO64 else u
  }

  lemma Int64RoundTrip(x: Int64)
    ensures GetInt64(PutInt64(x)) == x
  {
    var u := if x < 0 then x + TWO64 else x;
    U32RoundTrip(u % TWO32);
    U32RoundTrip(u / TWO32);
    var s := PutInt64(x);
    assert s[..4] == PutU32(u % TWO32) && s[4..] == PutU32(u / TWO32);
  }

  datatype Record = Record(key: Str, value: Str, expireAt: Int64, cost: Int64)

  // Keys and values whose lengths fit the header's fields.
  predicate Storable(r: Record) { |r.key| < TWO32 && |r.value| < TWO32 }

  function SizeOf(r: Record): nat { HEADER + |r.key| + |r.value| }

  function Header(r: Record): (s: Str)
    requires Storable(r)
    ensures |s| == HEADER
  {
    PutU32(|r.key|) + PutU32(|r.value|) + PutInt64(r.expireAt) + PutInt64(r.cost)
  }

  function Encode(r: Record): (s: Str)
    requires Storable(r)
    ensures |s| == SizeOf(r)
  {
    Header(r) + r.key + r.value
  }

  function KeyLen(s: Str): U32
    requires |s| >= HEADER
  {
    GetU32(s[0..4])
  }

  function ValueLen(s: Str): U32
    requires |s| >= HEADER
  {
    GetU32(s[4..8])
  }

  // Where the fields of a record lie: lengths of key and value in four bytes each, expiry and
  // cost in eight each, the lowest byte first and negative numbers in two's complement, then key
  // and value.
  lemma Layout(r: Record)
    requires Storable(r)
    ensures var s, k := Encode(r), |r.key|;
      && |s| == 24 + k + |r.value|
      && U32At(s, 0) == k && U32At(s, 4) == |r.value|
      && (U64At(s, 8) == r.expireAt || U64At(s, 8) == r.expireAt + 0x1_0000_0000_0000_0000)
      && (U64At(s, 16) == r.cost || U64At(s, 16) == r.cost + 0x1_0000_0000_0000_0000)
      && s[24..24 + k] == r.key && s[24 + k..] == r.value
  {
    hide PutU32, PutInt64;
    var s := Encode(r);
    assert s[0..4] == PutU32(|r.key|) && s[4..8] == PutU32(|r.value|);
    assert s[8..16] == PutInt64(r.expireAt) && s[16..24] == PutInt64(r.cost);
    LowestFirst(|r.key|);
    LowestFirst(|r.value|);
    LowestFirst64(r.expireAt);
    LowestFirst64(r.cost);
    Within(s, 0, 4);
    Within(s, 4, 4);
    Within(s, 8, 8);
    Within(s, 16, 8);
  }

  function U32At(s: Str, at: nat): nat
    requires at + 4 <= |s|
  {
    var b0: int, b1: int, b2: int, b3: int := s[at], s[at + 1], s[at + 2], s[at + 3];
    b0 + 0x100 * b1 + 0x1_0000 * b2 + 0x100_0000 * b3
  }

  function U64At(s: Str, at: nat): nat
    requires at + 8 <= |s|
  {
    U32At(s, at) + 0x1_0000_0000 * U32At(s, at + 4)
  }

  lemma Within(s: Str, at: nat, len: nat)
    requires at + len <= |s| && (len == 4 || len == 8)
    ensures U32At(s[at..at + len], 0) == U32At(s, at)
    ensures len == 8 ==> U64At(s[at..at + len], 0) == U64At(s, at)
  {
  }

  lemma LowestFirst(n: U32)
    ensures U32At(PutU32(n), 0) == n
  {
    U32RoundTrip(n);
  }

  lemma LowestFirst64(x: Int64)
    ensures U64At(PutInt64(x), 0) == if x < 0 then x + 0x1_0000_0000_0000_0000 else x
  {
    hide PutU32;
    var u := if x < 0 then x + TWO64 else x;
    var s := PutInt64(x);
    assert s[0..4] == PutU32(u % TWO32) && s[4..8] == PutU32(u / TWO32);
    LowestFirst(u % TWO32);
    LowestFirst(u / TWO32);
    Within(s, 0, 4);
    Within(s, 4, 4);
  }

  // Reading a record back from the front of a stretch of log.
  function Decode(s: Str): Option<Record> {
    if |s| < HEADER || |s| < HEADER + KeyLen(s) + ValueLen(s) then None
    else
      var k, v := KeyLen(s), ValueLen(s);
      Some(Record(s[HEADER..HEADER + k], s[HEADER + k..HEADER + k + v], GetInt64(s[8..16]), GetInt64(s[16..24])))
  }

  // Whatever follows it in the log, a record reads back as itself.
  lemma DecodeEncode(r: Record, rest: Str)
    requires Storable(r)
    ensures Decode(Encode(r) + rest) == Some(r)
    ensures KeyLen(Encode(r) + rest) == |r.key| && ValueLen(Encode(r) + rest) == |r.value|
  {
    hide PutU32, GetU32, PutInt64, GetInt64;
    var s := Encode(r) + rest;
    assert s[0..4] == PutU32(|r.key|) && s[4..8] == PutU32(|r.value|);
    assert s[8..16] == PutInt64(r.expireAt) && s[16..24] == PutInt64(r.cost);
    U32RoundTrip(|r.key|);
    U32RoundTrip(|r.value|);
    Int64RoundTrip(r.expireAt);
    Int64RoundTrip(r.cost);
    var k, v := |r.key|, |r.value|;
    assert s[HEADER..HEADER + k] == r.key && s[HEADER + k..HEADER + k + v] == r.value;
  }
}
