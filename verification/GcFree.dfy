// The GC-free store's shard: entries appended to a byte log, an index from hash to
// offset, tombstones, compaction and growth.
module GcFree {
  import opened Common
  import opened BitwiseXor
  import opened Codec

  // ----- the log as a sequence of bytes -----

  ghost predicate RegionIs(d: Str, off: nat, bytes: Str) {
    off + |bytes| <= |d| && d[off..off + |bytes|] == bytes
  }

  function Sizes(live: map<Hash, Record>): map<Hash, int> {
    map h | h in live :: SizeOf(live[h])
  }

  predicate Apart(a: nat, la: nat, b: nat, lb: nat) { a + la <= b || b + lb <= a }

  // Every live record sits whole in the log below the tail, apart from the others, and
  // `deleted` counts the other bytes below the tail.
  ghost predicate Log(d: Str, index: map<Hash, nat>, live: map<Hash, Record>, tail: nat, deleted: int) {
    && tail <= |d|
    && live.Keys <= index.Keys
    && (forall h :: h in live ==>
       Storable(live[h]) && index[h] + SizeOf(live[h]) <= tail && RegionIs(d, index[h], Encode(live[h])))
    && (forall g, h :: g in live && h in live && g != h ==> Apart(index[g], SizeOf(live[g]), index[h], SizeOf(live[h])))
    && tail == Sum(Sizes(live)) + deleted
    && deleted >= 0
  }

  // An entry already marked deleted but still in the index has a zero key length.
  ghost predicate Zeroed(d: Str, off: nat, tail: nat) {
    off + HEADER <= tail <= |d| && d[off..off + 4] == PutU32(0)
  }

  lemma ZeroedWider(d: Str, off: nat, tail: nat, limit: nat)
    requires Zeroed(d, off, tail) && tail <= limit <= |d|
    ensures Zeroed(d, off, limit)
  {
  }

  // An entry that compaction passes over: marked deleted, or said to reach past the buffer.
  ghost predicate Skipped(d: Str, off: nat) {
    off + HEADER <= |d| && (KeyLen(d[off..]) == 0 || off + HEADER + KeyLen(d[off..]) + ValueLen(d[off..]) > |d|)
  }

  // A record of `size` bytes whose header is whole and whose end is cut off by the buffer's.
  ghost predicate TornAt(d: Str, off: nat, size: nat) {
    off + HEADER <= |d| < off + size && size == HEADER + KeyLen(d[off..]) + ValueLen(d[off..])
  }

  lemma ZeroedIsSkipped(d: Str, off: nat, tail: nat)
    requires Zeroed(d, off, tail)
    ensures Skipped(d, off) && KeyLen(d[off..]) == 0
  {
    hide PutU32, GetU32;
    U32RoundTrip(0);
    assert d[off..][0..4] == d[off..off + 4];
  }

  // A header reads back without the rest of its record.
  lemma HeaderReads(d: Str, off: nat, r: Record)
    requires Storable(r) && off + HEADER <= |d| && d[off..off + HEADER] == Header(r)
    ensures KeyLen(d[off..]) == |r.key| && ValueLen(d[off..]) == |r.value|
  {
    hide PutU32, GetU32, PutInt64;
    U32RoundTrip(|r.key|);
    U32RoundTrip(|r.value|);
    var h := Header(r);
    assert h[0..4] == PutU32(|r.key|) && h[4..8] == PutU32(|r.value|);
    assert forall k :: 0 <= k < 8 ==> d[off..][k] == d[off..off + HEADER][k] == h[k];
    assert d[off..][0..4] == h[0..4] && d[off..][4..8] == h[4..8];
  }

  lemma ZeroedInPrefix(d: Str, e: Str, off: nat, tail: nat)
    requires Zeroed(d, off, tail) && tail <= |e| && e[..tail] == d[..tail]
    ensures Zeroed(e, off, tail)
  {
    assert e[off..off + 4] == e[..tail][off..off + 4];
    assert d[off..off + 4] == d[..tail][off..off + 4];
  }

  function NonEmptyKeys(live: map<Hash, Record>): map<Hash, Record> {
    map h | h in live && live[h].key != [] :: live[h]
  }

  lemma RegionReads(d: Str, off: nat, r: Record)
    requires Storable(r) && RegionIs(d, off, Encode(r))
    ensures off + SizeOf(r) <= |d|
    ensures KeyLen(d[off..]) == |r.key| && ValueLen(d[off..]) == |r.value| && Decode(d[off..]) == Some(r)
    ensures d[off..off + SizeOf(r)] == Encode(r)
  {
    hide Encode, Decode, KeyLen, ValueLen;
    var rest := d[off + SizeOf(r)..];
    assert d[off..] == Encode(r) + rest;
    DecodeEncode(r, rest);
  }

  // Overwriting a stretch apart from a region leaves the region as it is.
  lemma RegionKept(d: Str, e: Str, off: nat, bytes: Str, at: nat, len: nat)
    requires RegionIs(d, off, bytes) && |e| == |d| && Apart(off, |bytes|, at, len)
    requires forall k :: 0 <= k < |d| && !(at <= k < at + len) ==> e[k] == d[k]
    ensures RegionIs(e, off, bytes)
  {
  }

  lemma SizesRemove(live: map<Hash, Record>, h: Hash)
    requires h in live
    ensures Sum(Sizes(live - {h})) == Sum(Sizes(live)) - SizeOf(live[h])
  {
    hide Sum;
    SumRemove(Sizes(live), h);
    assert Sizes(live - {h}) == Sizes(live) - {h};
  }

  lemma SizesPut(live: map<Hash, Record>, h: Hash, r: Record)
    requires h !in live
    ensures Sum(Sizes(live[h := r])) == Sum(Sizes(live)) + SizeOf(r)
  {
    hide Sum;
    SumPut(Sizes(live), h, SizeOf(r));
    assert Sizes(live[h := r]) == Sizes(live)[h := SizeOf(r)];
  }

  lemma {:induction false} SizesMonotone(a: map<Hash, Record>, b: map<Hash, Record>)
    requires forall h :: h in a ==> h in b && a[h] == b[h]
    ensures Sum(Sizes(a)) <= Sum(Sizes(b))
    decreases |b|
  {
    hide Sum;
    if b == map[] {
      assert a == b;
    } else {
      var h :| h in b;
      assert b.Keys == (b - {h}).Keys + {h};
      SizesRemove(b, h);
      if h in a { SizesRemove(a, h); } else { assert a - {h} == a; }
      SizesMonotone(a - {h}, b - {h});
    }
  }

  // Marking a live entry deleted: its key length becomes zero and its bytes count as deleted.
  lemma Mark(d: Str, index: map<Hash, nat>, live: map<Hash, Record>, tail: nat, deleted: int, h: Hash, e: Str)
    requires Log(d, index, live, tail, deleted) && h in live
    requires |e| == |d| && e[index[h]..index[h] + 4] == PutU32(0)
    requires forall k :: 0 <= k < |d| && !(index[h] <= k < index[h] + 4) ==> e[k] == d[k]
    ensures Log(e, index, live - {h}, tail, deleted + SizeOf(live[h]))
    ensures Zeroed(e, index[h], tail)
  {
    hide Sum, Encode;
    SizesRemove(live, h);
    forall g | g in live && g != h ensures RegionIs(e, index[g], Encode(live[g])) {
      assert Apart(index[g], SizeOf(live[g]), index[h], SizeOf(live[h]));
      RegionKept(d, e, index[g], Encode(live[g]), index[h], 4);
    }
  }

  // Appending a record at the tail.
  lemma Append(d: Str, index: map<Hash, nat>, live: map<Hash, Record>, tail: nat, deleted: int, h: Hash, r: Record,
               e: Str)
    requires Log(d, index, live, tail, deleted) && h !in live && Storable(r)
    requires tail + SizeOf(r) <= |d| == |e| && e[tail..tail + SizeOf(r)] == Encode(r)
    requires forall k :: 0 <= k < |d| && !(tail <= k < tail + SizeOf(r)) ==> e[k] == d[k]
    ensures Log(e, index[h := tail], live[h := r], tail + SizeOf(r), deleted)
  {
    hide Sum, Encode;
    SizesPut(live, h, r);
    forall g | g in live ensures RegionIs(e, index[g], Encode(live[g])) {
      RegionKept(d, e, index[g], Encode(live[g]), tail, SizeOf(r));
    }
  }

  // A longer log with the same bytes below the tail.
  lemma Grown(d: Str, index: map<Hash, nat>, live: map<Hash, Record>, tail: nat, deleted: int, e: Str)
    requires Log(d, index, live, tail, deleted) && tail <= |e| && e[..tail] == d[..tail]
    ensures Log(e, index, live, tail, deleted)
  {
    hide Sum, Encode;
    forall g | g in live ensures RegionIs(e, index[g], Encode(live[g])) {
      assert forall k :: 0 <= k < tail ==> e[k] == e[..tail][k] == d[..tail][k] == d[k];
      assert e[index[g]..index[g] + SizeOf(live[g])] == d[index[g]..index[g] + SizeOf(live[g])];
    }
  }

  // The part of the log that has been copied so far.
  ghost predicate Kept(live: map<Hash, Record>, todo: set<Hash>, kept: map<Hash, Record>) {
    forall h :: (h in kept <==> h in live && h !in todo && live[h].key != []) && (h in kept ==> kept[h] == live[h])
  }

  lemma KeptFits(live: map<Hash, Record>, todo: set<Hash>, kept: map<Hash, Record>, h: Hash)
    requires Kept(live, todo, kept) && h in todo
    requires h in live && live[h].key != []
    ensures Sum(Sizes(kept)) + SizeOf(live[h]) <= Sum(Sizes(live))
    ensures Kept(live, todo - {h}, kept[h := live[h]])
  {
    SizesPut(kept, h, live[h]);
    SizesMonotone(kept[h := live[h]], live);
  }

  // ----- the shard -----

  // The first of size, 2*size, 4*size, ... that is enough.
  function Doubled(size: nat, needed: nat): (n: nat)
    requires size > 0
    ensures n >= needed && n >= size && (n == size || n < 2 * needed)
    decreases needed - size
  {
    if size >= needed then size else Doubled(2 * size, needed)
  }

  // The size is doubled as often as needed and no more often.
  lemma {:induction false} DoublesJustEnough(size: nat, needed: nat) returns (j: nat)
    requires size > 0
    ensures Doubled(size, needed) == Times(size, Pow2(j)) >= needed
    ensures j > 0 ==> Times(size, Pow2(j - 1)) < needed
    decreases needed - size
  {
    hide Times;
    if size >= needed {
      j := 0;
      assert Times(size, 1) == size by { TimesOne(size); }
    } else {
      var i := DoublesJustEnough(2 * size, needed);
      j := i + 1;
      TimesTwice(size, Pow2(i));
      if i > 0 { TimesTwice(size, Pow2(i - 1)); } else { TimesOne(size); }
    }
  }

  function Times(a: nat, b: nat): nat { a * b }

  lemma TimesOne(a: nat)
    ensures Times(a, 1) == a
  {
  }

  lemma TimesTwice(a: nat, p: nat)
    ensures Times(a, 2 * p) == Times(2 * a, p)
  {
  }

  // What Set does: it returns true, or it panics.
  datatype Outcome = Returned | Panicked

  // How much of a record a write leaves behind that panics for want of room: the header is
  // written field by field, the key as far as it goes.
  function Written(r: Record, room: nat): (n: nat)
    ensures room < HEADER + |r.key| ==> n <= room && n <= SizeOf(r)
  {
    if room < 4 then 0 else if room < 8 then 4 else if room < 16 then 8 else if room < HEADER then 16
    else if room < HEADER + |r.key| then room else SizeOf(r)
  }

  class Shard {
    var index: map<Hash, nat>
    var data: array<Byte>
    var tail: nat
    var deleted: nat
    // The whole records, and where they end; beyond that, once a write was cut off, the hash
    // whose record it cut.
    ghost var live: map<Hash, Record>
    ghost var solid: nat
    ghost var torn: Option<Hash>

    // Bytes counted as deleted that belong to a torn record no longer in the index.
    ghost function Lost(): int
      reads this
    {
      if torn.None? then tail - solid else 0
    }

    // The log is well formed for `live`; a torn record sits at its end; other indexed entries
    // are marked deleted.
    ghost predicate Consistent()
      reads this, data
    {
      && data.Length > 0
      && Log(data[..], index, live, solid, deleted - Lost())
      && (tail == solid || tail > data.Length)
      && (torn.Some? ==>
            && torn.value in index && torn.value !in live && index[torn.value] == solid
            && tail > solid && TornAt(data[..], solid, tail - solid))
      && forall h :: h in index && h !in live && torn != Some(h) ==> Zeroed(data[..], index[h], Limit())
    }

    ghost function Limit(): nat
      reads this
    {
      if tail == solid then tail else data.Length
    }

    // What every call finds and leaves, as long as none has panicked in growing.
    ghost predicate Usable()
      reads this, data
    {
      Consistent() && index.Keys == live.Keys + (if torn.Some? then {torn.value} else {})
    }

    // No write has been cut off since the last compaction.
    ghost predicate Valid()
      reads this, data
    {
      Usable() && tail == solid
    }

    constructor (size: nat)
      requires size > 0
      ensures Valid() && fresh(data) && live == map[] && torn == None && data.Length == size
      ensures tail == 0 && deleted == 0
    {
      index, live := map[], map[];
      data := new Byte[size](_ => 0);
      tail, deleted, solid, torn := 0, 0, 0, None;
      new;
      assert Sizes(live) == map[];
    }

    // Writes a run of bytes into the buffer; the bounds hold by the precondition.
    method CopyIn(at: nat, bytes: Str)
      requires at + |bytes| <= data.Length
      modifies data
      ensures data[at..at + |bytes|] == bytes
      ensures forall k :: 0 <= k < data.Length && !(at <= k < at + |bytes|) ==> data[k] == old(data[k])
    {
      forall k | 0 <= k < |bytes| {
        data[at + k] := bytes[k];
      }
    }

    // The size an indexed entry has by its header.
    ghost function EntrySize(h: Hash): int
      reads this
    {
      if h in live then SizeOf(live[h]) else if torn == Some(h) then tail - solid else 0
    }

    // The tombstone: read the old sizes, zero the key length, count the bytes as deleted.
    method MarkDeleted(h: Hash)
      requires Usable() && h in index
      modifies data, this`deleted, this`live, this`torn
      ensures Consistent() && live == old(live) - {h} && torn == (if old(torn) == Some(h) then None else old(torn))
      ensures deleted == old(deleted) + old(EntrySize(h))
    {
      hide Encode, KeyLen, ValueLen, Decode, Log, Sum, PutU32, TornAt, Zeroed;
      var offset := index[h];
      ghost var d := data[..];
      IndexedReads(h);
      LogHolds();
      assert data[offset..] == d[offset..];
      var keyLen, valueLen := KeyLen(data[offset..]), ValueLen(data[offset..]);
      CopyIn(offset, PutU32(0));
      deleted := deleted + HEADER + keyLen + valueLen;
      assert data[..][offset..offset + 4] == data[offset..offset + 4];
      if h in live {
        Mark(d, index, live, solid, old(deleted - Lost()), h, data[..]);
        MarkKeepsTorn(d, data[..], offset, solid, tail - solid);
        ZeroedWider(data[..], offset, solid, Limit());
      } else {
        MarkTorn(d, index, live, solid, old(deleted), data[..], tail - solid);
        torn := None;
        assert live - {h} == live;
      }
      live := live - {h};
    }

    // The header of an indexed entry says its size.
    lemma IndexedReads(h: Hash)
      requires Usable() && h in index
      ensures index[h] + HEADER <= data.Length
      ensures HEADER + KeyLen(data[..][index[h]..]) + ValueLen(data[..][index[h]..]) == EntrySize(h)
      ensures h in live ==> index[h] + SizeOf(live[h]) <= solid
    {
      hide Encode, KeyLen, ValueLen, Decode, Sum;
      if h in live { RegionReads(data[..], index[h], live[h]); }
    }

    method Get(h: Hash, key: Str, now: int) returns (r: Option<(Str, int)>)
      requires Usable()
      ensures r == if h in live && live[h].key == key && !(live[h].expireAt > 0 && now > live[h].expireAt)
                   then Some((live[h].value, live[h].expireAt)) else None
    {
      hide Encode, KeyLen, ValueLen, GetInt64, Sum;
      if h !in index { return None; }
      var offset := index[h];
      IndexedReads(h);
      if h in live { RegionReads(data[..], offset, live[h]); }
      assert data[..][offset..] == data[offset..];
      var entry := Decode(data[offset..]);
      if entry.None? { return None; }
      if entry.value.key != key { return None; }
      if entry.value.expireAt > 0 && now > entry.value.expireAt { return None; }
      r := Some((entry.value.value, entry.value.expireAt));
    }

    method Delete(h: Hash) returns (found: bool)
      requires Usable()
      modifies data, this`index, this`deleted, this`live, this`torn
      ensures Usable() && found == (h in old(index)) && live == old(live) - {h}
      ensures torn == if old(torn) == Some(h) then None else old(torn)
    {
      hide Log, Sum, Zeroed, TornAt;
      if h !in index { return false; }
      MarkDeleted(h);
      Unindex(data[..], index, live, solid, deleted - Lost(), h);
      index := index - {h};
      found := true;
    }

    // grow: double until the newcomer fits, then copy what lies below the tail; a tail past
    // the end of the buffer makes that copy panic.
    method Grow(needed: nat) returns (out: Outcome)
      requires Consistent()
      modifies this`data
      ensures Consistent() && (out.Panicked? <==> tail > old(data.Length))
      ensures out.Panicked? ==> data == old(data)
      ensures out.Returned? ==> fresh(data) && data.Length == Doubled(2 * old(data.Length), tail + needed)
    {
      hide Log, Sum, Zeroed, TornAt;
      var newSize := data.Length * 2;
      while newSize < tail + needed
        invariant newSize >= 2 * data.Length
        invariant Doubled(newSize, tail + needed) == Doubled(2 * data.Length, tail + needed)
        decreases tail + needed - newSize
      {
        newSize := newSize * 2;
      }
      if tail > data.Length { return Panicked; }
      Relocate(newSize);
      out := Returned;
    }

    // A longer buffer with the same bytes up to the tail.
    method Relocate(newSize: nat)
      requires Consistent() && tail <= data.Length <= newSize
      modifies this`data
      ensures Consistent() && fresh(data) && data.Length == newSize
    {
      hide Log, Sum, Zeroed, TornAt;
      ghost var d := data[..];
      var newData := new Byte[newSize](_ => 0);
      forall k | 0 <= k < tail { newData[k] := data[k]; }
      assert data[..] == d && newData[..][..tail] == d[..tail];
      Grown(d, index, live, solid, deleted - Lost(), newData[..]);
      forall h | h in index && h !in live ensures Zeroed(newData[..], index[h], tail) {
        ZeroedInPrefix(d, newData[..], index[h], tail);
      }
      data := newData;
    }

    // compact: copy the live entries, in whatever order the index yields them, into a fresh
    // buffer of the same length.  An entry with an empty key looks deleted and is dropped, and
    // so is one that a write past the buffer has torn.
    method Compact()
      requires Consistent()
      modifies this
      ensures Valid() && fresh(data) && data.Length == old(data.Length) && deleted == 0 && torn == None
      ensures live == NonEmptyKeys(old(live)) && tail == Sum(Sizes(live))
      ensures live == old(live) <==> forall h :: h in old(live) ==> old(live)[h].key != []
    {
      hide Encode, Sum, Log, Skipped, Kept, NonEmptyKeys, Shard.Consistent;
      var oldIndex, oldData := index, data;
      ghost var all, oldTail, oldDeleted, was := live, solid, deleted - Lost(), data[..];
      DeadAreSkipped();
      LogHolds();
      assert Log(was, oldIndex, all, oldTail, oldDeleted);
      assert forall h :: h in oldIndex && h !in all ==> Skipped(was, oldIndex[h]);
      var newData := new Byte[data.Length](_ => 0);
      Restart(newData);
      var todo := oldIndex.Keys;
      KeptNone(all, todo);
      while todo != {}
        invariant todo <= oldIndex.Keys && data == newData && fresh(newData) && newData.Length == oldData.Length
        invariant oldData[..] == was
        invariant Valid() && deleted == 0 && torn == None && Kept(all, todo, live)
        decreases |todo|
      {
        var h :| h in todo;
        CopyEntry(h, oldIndex[h], oldData, was, oldIndex, all, todo, oldTail, oldDeleted);
        todo := todo - {h};
      }
      KeptAll(all, live);
      TailCounts();
      KeepsAll(all);
    }

    // An empty log in a new buffer.
    method Restart(newData: array<Byte>)
      requires newData.Length > 0
      modifies this
      ensures Valid() && data == newData && live == map[] && torn == None && deleted == 0
    {
      index, live, tail, deleted, solid, torn := map[], map[], 0, 0, 0, None;
      EmptyLog(newData[..]);
      data := newData;
    }

    lemma TornHolds()
      requires Consistent()
      ensures tail == solid || tail > data.Length
      ensures torn.Some? ==> torn.value in index && torn.value !in live && tail > solid
    {
    }

    lemma LogHolds()
      requires Consistent()
      ensures data.Length > 0 && Log(data[..], index, live, solid, deleted - Lost())
      ensures live.Keys <= index.Keys && solid <= data.Length
    {
    }

    lemma DeadAreSkipped()
      requires Consistent()
      ensures forall h :: h in index && h !in live ==> Skipped(data[..], index[h])
    {
      hide KeyLen, ValueLen, Log;
      forall h | h in index && h !in live ensures Skipped(data[..], index[h]) {
        if torn != Some(h) { ZeroedIsSkipped(data[..], index[h], Limit()); }
      }
    }

    // One turn of compact's loop.
    method CopyEntry(h: Hash, offset: nat, oldData: array<Byte>, ghost was: Str, ghost oldIndex: map<Hash, nat>,
                     ghost all: map<Hash, Record>, ghost todo: set<Hash>, ghost oldTail: nat, ghost oldDeleted: int)
      requires Valid() && deleted == 0 && torn == None && data != oldData && data.Length == oldData.Length
      requires oldData[..] == was && Log(was, oldIndex, all, oldTail, oldDeleted)
      requires h in oldIndex && oldIndex[h] == offset && h in todo && Kept(all, todo, live)
      requires h !in all ==> Skipped(was, offset)
      modifies data, this`index, this`tail, this`live, this`solid
      ensures Valid() && torn == None && Kept(all, todo - {h}, live)
    {
      hide Encode, Sum, KeyLen, ValueLen, Decode, Log, Zeroed, TornAt, Skipped, Shard.Consistent;
      EntryReads(was, oldIndex, all, oldTail, oldDeleted, h, offset);
      if offset + HEADER > oldData.Length { return; }
      assert oldData[offset..] == was[offset..];
      var keyLen := KeyLen(oldData[offset..]);
      if keyLen == 0 { return; }
      var valueLen := ValueLen(oldData[offset..]);
      var entrySize := HEADER + keyLen + valueLen;
      if offset + entrySize > oldData.Length { return; }
      LogHolds();
      TornHolds();
      Room(was, oldIndex, all, oldTail, oldDeleted, data[..], index, live, tail, todo, h);
      assert oldData[offset..offset + entrySize] == was[offset..offset + entrySize];
      KeptFits(all, todo, live, h);
      WriteWhole(h, all[h], oldData[offset..offset + entrySize]);
    }

    // A record that fits, written at the tail.
    method WriteWhole(h: Hash, ghost r: Record, bytes: Str)
      requires Consistent() && tail == solid && index.Keys <= live.Keys + {h} && h !in live
      requires Storable(r) && bytes == Encode(r) && tail + |bytes| <= data.Length
      modifies data, this`tail, this`index, this`live, this`solid
      ensures Valid() && live == old(live)[h := r] && torn == None && tail == old(tail) + SizeOf(r)
    {
      hide Encode, Sum, Log, Zeroed, TornAt;
      ghost var d := data[..];
      LogHolds();
      CopyIn(tail, bytes);
      assert data[..][tail..tail + |bytes|] == data[tail..tail + |bytes|];
      Append(d, index, live, tail, deleted, h, r, data[..]);
      index := index[h := tail];
      tail := tail + |bytes|;
      solid := tail;
      live := live[h := r];
    }

    // ----- Set -----

    // The bytes deleted once an older entry of h has been marked.
    ghost function Marked(h: Hash): int
      reads this
    {
      deleted + EntrySize(h)
    }

    // There is no room at the tail, and over a quarter of the buffer is deleted.
    ghost predicate WillCompact(h: Hash, r: Record)
      reads this, data
    {
      tail + SizeOf(r) > data.Length && Marked(h) > data.Length / 4
    }

    // There is none and no more than a quarter is deleted, but the tail lies past the buffer.
    ghost predicate GrowFails(h: Hash, r: Record)
      reads this, data
    {
      tail > data.Length && Marked(h) <= data.Length / 4
    }

    // Where the tail is after compaction.
    ghost function Compacted(h: Hash): int
      reads this
    {
      Sum(Sizes(NonEmptyKeys(live - {h})))
    }

    // Set compacts, does not check again, and what is live leaves too little room.
    ghost predicate Overruns(h: Hash, r: Record)
      reads this, data
    {
      WillCompact(h, r) && Compacted(h) + SizeOf(r) > data.Length
    }

    // Not even header and key have room: the write panics.
    ghost predicate WriteFails(h: Hash, r: Record)
      reads this, data
    {
      WillCompact(h, r) && Compacted(h) + HEADER + |r.key| > data.Length
    }

    // Header and key have room and the value has not: it is cut off without a word.
    ghost predicate Truncates(h: Hash, r: Record)
      reads this, data
    {
      Overruns(h, r) && !WriteFails(h, r)
    }

    method Set(h: Hash, r: Record) returns (out: Outcome)
      requires Usable() && Storable(r)
      modifies this, data
      ensures Consistent() && (data == old(data) || fresh(data))
      ensures out.Panicked? <==> old(GrowFails(h, r)) || old(WriteFails(h, r))
      ensures old(GrowFails(h, r)) ==> live == old(live) - {h} && index == old(index) && tail == old(tail)
      ensures old(WriteFails(h, r)) ==> Valid() && live == NonEmptyKeys(old(live) - {h}) && deleted == 0
      ensures old(Truncates(h, r)) ==> Usable() && torn == Some(h) && h in index && h !in live && tail > data.Length
      ensures old(Truncates(h, r)) ==>
              live == NonEmptyKeys(old(live) - {h}) && deleted == 0 && tail - solid == SizeOf(r)
      ensures out.Returned? && !old(Truncates(h, r)) ==>
                && Valid()
                && live == (if old(WillCompact(h, r)) then NonEmptyKeys(old(live) - {h}) else old(live) - {h})[h := r]
                && deleted == (if old(WillCompact(h, r)) then 0 else old(Marked(h)))
      ensures data.Length ==
              if old(tail) + SizeOf(r) <= old(data.Length) || old(WillCompact(h, r)) || old(GrowFails(h, r))
              then old(data.Length) else Doubled(2 * old(data.Length), old(tail) + SizeOf(r))
    {
      hide Encode, Sum, Log, Zeroed, TornAt, NonEmptyKeys, Sizes, Doubled, Shard.Consistent;
      LogHolds();
      TornHolds();
      if h in index {
        MarkDeleted(h);
      } else {
        assert live - {h} == live;
      }
      out := MakeRoom(h, r);
      if out.Panicked? { return; }
      out := WriteEntry(h, r);
    }

    // Compact or grow when the tail leaves too little room; no second check follows.
    method MakeRoom(h: Hash, r: Record) returns (out: Outcome)
      requires Consistent() && h !in live && torn != Some(h)
      requires index.Keys <= live.Keys + {h} + (if torn.Some? then {torn.value} else {})
      modifies this
      ensures Consistent() && (data == old(data) || fresh(data))
      ensures out.Panicked? <==> old(tail) > old(data.Length) && old(deleted) <= old(data.Length) / 4
      ensures out.Panicked? ==> data == old(data) && index == old(index) && live == old(live) && tail == old(tail)
      ensures out.Returned? ==> tail == solid && torn == None && index.Keys <= live.Keys + {h} && h !in live
      ensures var full, compacts := old(tail) + SizeOf(r) > old(data.Length), old(deleted) > old(data.Length) / 4;
        && (full && compacts ==>
              && Valid() && deleted == 0 && data.Length == old(data.Length)
              && live == NonEmptyKeys(old(live)) && tail == Sum(Sizes(live)))
        && (out.Returned? && !(full && compacts) ==>
              && live == old(live) && deleted == old(deleted) && tail == old(tail) && tail + SizeOf(r) <= data.Length
              && data.Length == if full then Doubled(2 * old(data.Length), tail + SizeOf(r)) else old(data.Length))
    {
      hide Encode, Sum, Log, Zeroed, TornAt, Sizes, Doubled, Shard.Consistent;
      LogHolds();
      TornHolds();
      out := Returned;
      if tail + SizeOf(r) > data.Length {
        if deleted > data.Length / 4 {
          Compact();
        } else {
          out := Grow(SizeOf(r));
        }
      }
    }

    // Bytes written beyond the tail touch no record.
    method WriteBeyond(bytes: Str)
      requires Consistent() && tail == solid && tail + |bytes| <= data.Length
      modifies data
      ensures Consistent() && data[tail..tail + |bytes|] == bytes
    {
      hide Encode, Sum, Log, Zeroed, TornAt;
      ghost var d := data[..];
      CopyIn(tail, bytes);
      TailInLog(d, index, live, solid, deleted);
      assert data[..][..tail] == d[..tail];
      Grown(d, index, live, solid, deleted, data[..]);
      forall h | h in index && h !in live ensures Zeroed(data[..], index[h], tail) {
        ZeroedInPrefix(d, data[..], index[h], tail);
      }
    }

    // The write at the tail, field by field and without a check of its own; the index entry of
    // h, stale or absent, then points here.
    method WriteEntry(h: Hash, r: Record) returns (out: Outcome)
      requires Consistent() && tail == solid && index.Keys <= live.Keys + {h} && h !in live && Storable(r)
      modifies data, this`tail, this`index, this`live, this`solid, this`torn
      ensures Consistent() && (out.Panicked? <==> old(tail) + HEADER + |r.key| > data.Length)
      ensures out.Panicked? ==>
              index == old(index) && live == old(live) && tail == old(tail) && torn == None && solid == tail
      ensures out.Returned? && old(tail) + SizeOf(r) <= data.Length ==> Valid() && live == old(live)[h := r]
      ensures out.Returned? && old(tail) + SizeOf(r) > data.Length ==>
                Usable() && torn == Some(h) && live == old(live) && solid == old(tail) && tail == solid + SizeOf(r)
    {
      hide Encode, Sum, Log, Zeroed, TornAt, Written;
      LogHolds();
      var room: nat := data.Length - tail;
      if room < HEADER + |r.key| {
        WriteBeyond(Encode(r)[..Written(r, room)]);
        return Panicked;
      }
      if SizeOf(r) <= room {
        WriteWhole(h, r, Encode(r));
        return Returned;
      }
      WriteBeyond(Encode(r)[..room]);
      LogHolds();
      assert data[..][tail..tail + room] == data[tail..tail + room];
      Tears(data[..], tail, r, room);
      Reindexed(data[..], index, live, tail, deleted, h);
      torn := Some(h);
      index := index[h := tail];
      tail := tail + SizeOf(r);
      out := Returned;
    }

    // An entry of at most a quarter of the buffer is always stored.
    lemma QuarterNeverOverruns(h: Hash, r: Record)
      requires Valid() && SizeOf(r) <= data.Length / 4
      ensures !Overruns(h, r) && !WriteFails(h, r) && !GrowFails(h, r)
    {
      hide Encode, Sum;
      if h in live { SizesRemove(live, h); } else { assert live - {h} == live; }
      SizesMonotone(NonEmptyKeys(live - {h}), live - {h});
    }

    // After a write that was cut off, the next Set fails on every key whose entry is no more
    // than a quarter of the buffer, and on every new key.  A Set over a larger entry, the one cut
    // off included, compacts.
    lemma AfterTruncation(h: Hash, g: Hash, r: Record)
      requires Usable() && torn == Some(h) && deleted == 0
      ensures GrowFails(g, r) <==>
              (if g == h then tail - solid <= data.Length / 4 else g !in live || SizeOf(live[g]) <= data.Length / 4)
      ensures !GrowFails(g, r) ==> WillCompact(g, r)
    {
    }

    // What the tail counts.
    lemma TailCounts()
      requires Usable()
      ensures tail == Sum(Sizes(live)) + deleted + (if torn.Some? then tail - solid else 0)
    {
    }
  }

  // The effect of a tombstone on what lies behind it.
  lemma MarkKeepsTorn(d: Str, e: Str, at: nat, solid: nat, size: int)
    requires at + 4 <= solid <= |d| == |e|
    requires forall k :: 0 <= k < |d| && !(at <= k < at + 4) ==> e[k] == d[k]
    ensures size >= 0 && TornAt(d, solid, size) ==> TornAt(e, solid, size)
  {
    hide KeyLen, ValueLen;
    assert e[solid..] == d[solid..];
  }

  // A tombstone on the torn record.
  lemma MarkTorn(d: Str, index: map<Hash, nat>, live: map<Hash, Record>, solid: nat, deleted: int, e: Str, size: nat)
    requires Log(d, index, live, solid, deleted) && TornAt(d, solid, size)
    requires |e| == |d| && e[solid..solid + 4] == PutU32(0)
    requires forall k :: 0 <= k < |d| && !(solid <= k < solid + 4) ==> e[k] == d[k]
    ensures Log(e, index, live, solid, deleted) && Zeroed(e, solid, |e|)
  {
    hide KeyLen, ValueLen, Encode, Sum, PutU32;
    assert e[..solid] == d[..solid];
    Grown(d, index, live, solid, deleted, e);
  }

  // As much of a record as there is room for, when that is at least header and key.
  lemma Tears(d: Str, at: nat, r: Record, room: nat)
    requires Storable(r) && at + room == |d| && HEADER + |r.key| <= room < SizeOf(r) &&
             d[at..at + room] == Encode(r)[..room]
    ensures TornAt(d, at, SizeOf(r))
  {
    hide Header, KeyLen, ValueLen;
    assert d[at..at + HEADER] == d[at..at + room][..HEADER] == Encode(r)[..HEADER] == Header(r);
    HeaderReads(d, at, r);
  }

  lemma Reindexed(d: Str, index: map<Hash, nat>, live: map<Hash, Record>, tail: nat, deleted: int, h: Hash)
    requires Log(d, index, live, tail, deleted) && h !in live
    ensures Log(d, index[h := tail], live, tail, deleted)
  {
    hide Sum, Encode;
  }

  lemma KeptNone(all: map<Hash, Record>, todo: set<Hash>)
    requires all.Keys <= todo
    ensures Kept(all, todo, map[])
  {
  }

  lemma KeptAll(all: map<Hash, Record>, kept: map<Hash, Record>)
    requires Kept(all, {}, kept)
    ensures kept == NonEmptyKeys(all)
  {
  }

  // Compaction changes no lookup exactly when no live key is empty.
  lemma KeepsAll(live: map<Hash, Record>)
    ensures NonEmptyKeys(live) == live <==> forall h :: h in live ==> live[h].key != []
  {
    if NonEmptyKeys(live) == live {
      forall h | h in live ensures live[h].key != [] { assert h in NonEmptyKeys(live); }
    }
  }

  lemma TailInLog(d: Str, index: map<Hash, nat>, live: map<Hash, Record>, tail: nat, deleted: int)
    requires Log(d, index, live, tail, deleted)
    ensures tail <= |d| && live.Keys <= index.Keys
  {
  }

  lemma Unindex(d: Str, index: map<Hash, nat>, live: map<Hash, Record>, tail: nat, deleted: int, h: Hash)
    requires Log(d, index, live, tail, deleted) && h !in live
    ensures Log(d, index - {h}, live, tail, deleted)
  {
    hide Sum, Encode;
  }

  lemma EmptyLog(d: Str)
    ensures Log(d, map[], map[], 0, 0)
  {
    assert Sizes(map[]) == map[];
  }

  // What the header at an indexed offset says: the sizes of a live entry, or that there is
  // nothing to copy.
  lemma EntryReads(d: Str, index: map<Hash, nat>, live: map<Hash, Record>, tail: nat, deleted: int, h: Hash,
                   offset: nat)
    requires Log(d, index, live, tail, deleted) && h in index && index[h] == offset
    requires h !in live ==> Skipped(d, offset)
    ensures offset + HEADER <= |d|
    ensures h !in live ==>
            KeyLen(d[offset..]) == 0 || offset + HEADER + KeyLen(d[offset..]) + ValueLen(d[offset..]) > |d|
    ensures h in live ==>
      && offset + SizeOf(live[h]) <= |d| && Storable(live[h])
      && KeyLen(d[offset..]) == |live[h].key| && ValueLen(d[offset..]) == |live[h].value|
      && d[offset..offset + SizeOf(live[h])] == Encode(live[h])
  {
    hide Encode, Sum, KeyLen, ValueLen;
    if h in live { RegionReads(d, offset, live[h]); }
  }

  // Compaction never runs out of room: what is kept is no larger than what was live.
  lemma Room(od: Str, oldIndex: map<Hash, nat>, all: map<Hash, Record>, oldTail: nat, oldDeleted: int,
             d: Str, index: map<Hash, nat>, live: map<Hash, Record>, tail: nat, todo: set<Hash>, h: Hash)
    requires Log(od, oldIndex, all, oldTail, oldDeleted) && Log(d, index, live, tail, 0) && |d| == |od|
    requires Kept(all, todo, live) && h in todo && h in all && all[h].key != []
    ensures tail + SizeOf(all[h]) <= |d| && h !in live && Storable(all[h])
  {
    KeptFits(all, todo, live, h);
  }

  // ----- the overrun is real -----

  // A record of the given size with a key of one byte.
  function Sample(b: Byte, size: nat): (r: Record)
    requires HEADER + 1 <= size < TWO32
    ensures SizeOf(r) == size && Storable(r) && |r.key| == 1
  {
    Record([b], seq(size - HEADER - 1, i => 0), 0, 1)
  }

  // The sizes of one record, and of two.
  lemma FewSizes(g: Hash, a: Record, h: Hash, b: Record)
    requires g != h
    ensures Sum(Sizes(map[])) == 0
    ensures Sum(Sizes(map[g := a])) == SizeOf(a)
    ensures Sum(Sizes(map[g := a, h := b])) == SizeOf(a) + SizeOf(b)
  {
    hide Sum;
    var none: map<Hash, Record> := map[];
    assert Sizes(none) == map[];
    assert Sum(Sizes(none)) == 0 by { NoSizes(); }
    SizesPut(none, g, a);
    assert none[g := a] == map[g := a];
    SizesPut(map[g := a], h, b);
    assert map[g := a][h := b] == map[g := a, h := b];
  }

  lemma NoSizes()
    ensures Sum(Sizes(map[])) == 0
  {
    assert Sizes(map[]) == map[];
  }

  // Two records in a shard of the smallest size the store makes.
  method TwoRecords() returns (sh: Shard)
    ensures fresh(sh) && fresh(sh.data) && sh.Valid() && sh.torn == None && sh.data.Length == 4096
    ensures sh.live == map[1 := Sample(1, 1500), 2 := Sample(2, 1100)] && sh.tail == 2600 && sh.deleted == 0
  {
    hide Log, Sum, Encode, Zeroed, TornAt, Sample, Shard.Consistent;
    sh := new Shard(4096);
    var a, b := Sample(1, 1500), Sample(2, 1100);
    FewSizes(1, a, 2, b);
    var o1 := sh.Set(1, a);
    sh.TornHolds();
    sh.TailCounts();
    assert map[][1 := a] == map[1 := a];
    var o2 := sh.Set(2, b);
    sh.TornHolds();
    sh.TailCounts();
    assert map[1 := a][2 := b] == map[1 := a, 2 := b];
  }

  // What compaction leaves of them when the second is set anew.
  lemma OneLeft(sh: Shard)
    requires sh.live == map[1 := Sample(1, 1500), 2 := Sample(2, 1100)]
    ensures NonEmptyKeys(sh.live - {2}) == map[1 := Sample(1, 1500)] && sh.Compacted(2) == 1500
  {
    hide Sum;
    FewSizes(1, Sample(1, 1500), 2, Sample(2, 1100));
  }

  // The second set anew is cut off: Set answers true, the value cannot be read back, and the
  // next new key panics.
  method TruncationHappens() returns (sh: Shard, last: Outcome, read: Option<(Str, int)>, next: Outcome)
    ensures fresh(sh) && last == Returned && read == None && next == Panicked
    ensures sh.data.Length == 4096 && sh.tail == 4500 && 2 in sh.index
  {
    hide Log, Sum, Encode, Zeroed, TornAt, Sample, NonEmptyKeys, Shard.Consistent, Shard.Compacted;
    sh := TwoRecords();
    OneLeft(sh);
    var c := Sample(2, 3000);
    last := sh.Set(2, c);
    FewSizes(1, Sample(1, 1500), 2, c);
    sh.TailCounts();
    read := sh.Get(2, [2], 0);
    next := sh.Set(3, Sample(3, 100));
  }

  // Set anew with a key of 2900 bytes, which leaves no room for itself, it panics, and what
  // compaction kept of the two records is all there is.
  method WriteFailureHappens() returns (sh: Shard, r: Record, last: Outcome)
    ensures fresh(sh) && sh.Valid() && sh.data.Length == 4096
    ensures |r.key| == 2900 && last == Panicked
    ensures sh.live == map[1 := Sample(1, 1500)] && sh.tail == 1500
  {
    hide Log, Sum, Encode, Zeroed, TornAt, Sample, NonEmptyKeys, Shard.Consistent, Shard.Compacted;
    sh := TwoRecords();
    OneLeft(sh);
    r := Record(seq(2900, i => 0), [], 0, 1);
    last := sh.Set(2, r);
    sh.TornHolds();
    sh.TailCounts();
    FewSizes(1, Sample(1, 1500), 2, r);
  }
}
