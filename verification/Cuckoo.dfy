// The cuckoo filter: fingerprints of sixteen bits in buckets of four, each fingerprint at
// home in a pair of buckets, and relocation by kicks when both are full.
module Cuckoo {
  import opened Common
  import opened BitwiseXor

  const BUCKET: int := 4
  const MAX_KICKS: int := 500
  const OCCUPIED: int := 0x10000

  type Fingerprint = f: int | 0 <= f < 0x10000

  // fingerprint(keyHash): the top sixteen bits, made odd.
  function FingerprintOf(keyHash: Hash): (f: Fingerprint)
    ensures f % 2 == 1
  {
    var top := keyHash / 0x1_0000_0000_0000;
    if top % 2 == 0 then top + 1 else top
  }

  // Two keys have the same fingerprint exactly when their hashes have the same top fifteen bits.
  lemma FingerprintsAgree(a: Hash, b: Hash)
    ensures FingerprintOf(a) == FingerprintOf(b) <==> a / 0x2_0000_0000_0000 == b / 0x2_0000_0000_0000
  {
  }

  // The filter has 2^k buckets; masking with numBuckets-1 keeps k bits.
  function Index1(keyHash: Hash, k: nat): (i: nat)
    ensures i < Pow2(k)
  {
    Mask(keyHash, k)
  }

  function IndexAlt(i: nat, fp: Fingerprint, k: nat): (j: nat)
    ensures j < Pow2(k)
  {
    Mask(Xor(i, fp * 0x5bd1e995), k)
  }

  // The alternate bucket of the alternate bucket is the bucket itself, and with two or
  // more buckets the two are different for every fingerprint the filter makes.
  lemma AlternatesAreMutual(i: nat, fp: Fingerprint, k: nat)
    requires i < Pow2(k)
    ensures IndexAlt(IndexAlt(i, fp, k), fp, k) == i
    ensures k > 0 && fp % 2 == 1 ==> IndexAlt(i, fp, k) != i
  {
    AlternateIsMutual(i, fp * 0x5bd1e995, k);
  }

  // What a slot says about the keys in the filter: nothing, or a fingerprint together
  // with the pair of buckets it may sit in, named by the lower of the two.
  datatype Tag = Vacant | Tag(fp: Fingerprint, pair: nat)

  function TagAt(i: nat, fp: Fingerprint, k: nat): Tag {
    Tag(fp, if IndexAlt(i, fp, k) < i then IndexAlt(i, fp, k) else i)
  }

  function TagOf(keyHash: Hash, k: nat): Tag {
    TagAt(Index1(keyHash, k), FingerprintOf(keyHash), k)
  }

  lemma TagOfAlternate(i: nat, fp: Fingerprint, k: nat)
    requires i < Pow2(k)
    ensures TagAt(IndexAlt(i, fp, k), fp, k) == TagAt(i, fp, k)
  {
    hide IndexAlt, Pow2;
    AlternatesAreMutual(i, fp, k);
  }

  // Two buckets give a fingerprint the same tag exactly when they are the same or alternates.
  lemma TagsAgree(i: nat, j: nat, fp: Fingerprint, k: nat)
    requires i < Pow2(k) && j < Pow2(k)
    ensures TagAt(i, fp, k) == TagAt(j, fp, k) <==> i == j || j == IndexAlt(i, fp, k)
  {
    hide IndexAlt, Pow2;
    AlternatesAreMutual(i, fp, k);
    AlternatesAreMutual(j, fp, k);
  }

  // A stored word: zero, or the fingerprint with the occupied bit.
  predicate Word(w: int) { w == 0 || OCCUPIED <= w < 2 * OCCUPIED }

  function SlotTag(w: int, s: nat, k: nat): Tag
    requires Word(w)
  {
    if w == 0 then Vacant else TagAt(s / BUCKET, w % OCCUPIED, k)
  }

  predicate Words(ws: seq<int>) { forall s :: 0 <= s < |ws| ==> Word(ws[s]) }

  function Tags(ws: seq<int>, k: nat): (r: seq<Tag>)
    requires Words(ws)
    ensures |r| == |ws| && forall s :: 0 <= s < |ws| ==> r[s] == SlotTag(ws[s], s, k)
  {
    seq(|ws|, s requires 0 <= s < |ws| => SlotTag(ws[s], s, k))
  }

  // The filter's content: one tag per slot, in no particular order.
  function Stored(ws: seq<int>, k: nat): multiset<Tag>
    requires Words(ws)
  {
    multiset(Tags(ws, k))
  }

  lemma StoreOne(ws: seq<int>, s: nat, w: int, k: nat)
    requires Words(ws) && s < |ws| && Word(w)
    ensures Words(ws[s := w])
    ensures Stored(ws[s := w], k) == Stored(ws, k) - multiset{SlotTag(ws[s], s, k)} + multiset{SlotTag(w, s, k)}
    ensures SlotTag(ws[s], s, k) in Stored(ws, k)
  {
    hide TagAt;
    assert Tags(ws[s := w], k) == Tags(ws, k)[s := SlotTag(w, s, k)];
    assert Tags(ws, k)[s] in multiset(Tags(ws, k));
  }

  // A key's tag is stored exactly when one of its two buckets holds its fingerprint.
  lemma StoredMeansInBucket(ws: seq<int>, h: Hash, k: nat)
    requires Words(ws) && |ws| == BUCKET * Pow2(k)
    ensures TagOf(h, k) in Stored(ws, k) <==>
      InBucket(ws, Index1(h, k), FingerprintOf(h)) ||
        InBucket(ws, IndexAlt(Index1(h, k), FingerprintOf(h), k), FingerprintOf(h))
  {
    hide IndexAlt, Pow2, TagAt, FingerprintOf, Index1;
    var fp, i := FingerprintOf(h), Index1(h, k);
    assert TagOf(h, k) in Stored(ws, k) <==> TagOf(h, k) in Tags(ws, k);
    forall s | 0 <= s < |ws|
      ensures SlotTag(ws[s], s, k) == TagOf(h, k) <==>
        ws[s] != 0 && ws[s] % OCCUPIED == fp && (s / BUCKET == i || s / BUCKET == IndexAlt(i, fp, k))
    {
      TagAtIsTag(s / BUCKET, ws[s] % OCCUPIED, k);
      TagAtIsTag(i, fp, k);
      TagsAgree(i, s / BUCKET, fp, k);
    }
  }

  lemma TagAtIsTag(i: nat, fp: Fingerprint, k: nat)
    ensures TagAt(i, fp, k).Tag? && TagAt(i, fp, k).fp == fp
  {
  }

  predicate InBucket(ws: seq<int>, i: nat, fp: Fingerprint) {
    exists s :: 0 <= s < |ws| && s / BUCKET == i && ws[s] != 0 && ws[s] % OCCUPIED == fp
  }

  predicate BucketFull(ws: seq<int>, i: nat) {
    forall s :: 0 <= s < |ws| && s / BUCKET == i ==> ws[s] != 0
  }

  // The first vacant slot of bucket i, from its j-th slot on.
  function VacantFrom(ws: seq<int>, i: nat, j: nat): (r: Option<nat>)
    requires i * BUCKET + BUCKET <= |ws| && j <= BUCKET
    ensures r.Some? ==> i * BUCKET + j <= r.value < i * BUCKET + BUCKET && ws[r.value] == 0
    ensures r.None? ==> forall s :: i * BUCKET + j <= s < i * BUCKET + BUCKET ==> ws[s] != 0
    decreases BUCKET - j
  {
    if j == BUCKET then None else if ws[i * BUCKET + j] == 0 then Some(i * BUCKET + j) else VacantFrom(ws, i, j + 1)
  }

  datatype Walk = Walk(placed: bool, words: seq<int>)

  // The kicks from one on: the fingerprint in hand takes a slot of its bucket, the slot going
  // round with the number of the kick, and the one it drives out tries its alternate bucket.
  function KickWalk(ws: seq<int>, i: nat, fp: Fingerprint, kick: nat, k: nat): Walk
    requires |ws| == BUCKET * Pow2(k) && i < Pow2(k)
    decreases MAX_KICKS - kick
  {
    if kick >= MAX_KICKS then Walk(false, ws)
    else
      var s := i * BUCKET + kick % BUCKET;
      var driven, kicked := ws[s] % OCCUPIED, ws[s := fp + OCCUPIED];
      var alt := IndexAlt(i, driven, k);
      var room := VacantFrom(kicked, alt, 0);
      if room.Some? then Walk(true, kicked[room.value := driven + OCCUPIED])
      else KickWalk(kicked, alt, driven, kick + 1, k)
  }

  lemma WalkStep(ws: seq<int>, i: nat, fp: Fingerprint, kick: nat, k: nat)
    requires |ws| == BUCKET * Pow2(k) && i < Pow2(k) && kick < MAX_KICKS
    ensures var s := i * BUCKET + kick % BUCKET;
      var driven, kicked := ws[s] % OCCUPIED, ws[s := fp + OCCUPIED];
      var alt := IndexAlt(i, driven, k);
      var room := VacantFrom(kicked, alt, 0);
      KickWalk(ws, i, fp, kick, k) ==
        if room.Some? then Walk(true, kicked[room.value := driven + OCCUPIED])
          else KickWalk(kicked, alt, driven, kick + 1, k)
  {
    hide IndexAlt, VacantFrom, Pow2;
  }

  lemma WalkEnds(ws: seq<int>, i: nat, fp: Fingerprint, kick: nat, k: nat)
    requires |ws| == BUCKET * Pow2(k) && i < Pow2(k) && kick >= MAX_KICKS
    ensures KickWalk(ws, i, fp, kick, k) == Walk(false, ws)
  {
  }

  // Whether the filter has room for one more key: in one of its two buckets, or after kicks.
  predicate HasRoom(ws: seq<int>, h: Hash, k: nat)
    requires |ws| == BUCKET * Pow2(k)
  {
    var i, fp := Index1(h, k), FingerprintOf(h);
    || VacantFrom(ws, i, 0).Some?
    || VacantFrom(ws, IndexAlt(i, fp, k), 0).Some?
    || KickWalk(ws, i, fp, 0, k).placed
  }

  // The bucket reached after n kicks, the first of them having the given number.
  function Reached(ws: seq<int>, i: nat, fp: Fingerprint, kick: nat, n: nat, k: nat): nat
    requires |ws| == BUCKET * Pow2(k) && i < Pow2(k)
    decreases n
  {
    if n == 0 then i
    else
      var s := i * BUCKET + kick % BUCKET;
      var driven := ws[s] % OCCUPIED;
      Reached(ws[s := fp + OCCUPIED], IndexAlt(i, driven, k), driven, kick + 1, n - 1, k)
  }

  predicate RoomAt(ws: seq<int>, i: nat, fp: Fingerprint, kick: nat, n: nat, k: nat)
    requires |ws| == BUCKET * Pow2(k) && i < Pow2(k)
  {
    !BucketFull(ws, Reached(ws, i, fp, kick, n, k))
  }

  // A kick vacates no slot, so what lies ahead has room after it exactly when it had before.
  lemma RoomNext(ws: seq<int>, i: nat, fp: Fingerprint, kick: nat, n: nat, k: nat)
    requires |ws| == BUCKET * Pow2(k) && i < Pow2(k) && BucketFull(ws, i)
    ensures var s := i * BUCKET + kick % BUCKET;
      var driven := ws[s] % OCCUPIED;
      RoomAt(ws, i, fp, kick, n + 1, k) <==>
      RoomAt(ws[s := fp + OCCUPIED], IndexAlt(i, driven, k), driven, kick + 1, n, k)
  {
    hide IndexAlt, Pow2, BucketFull;
    var s := i * BUCKET + kick % BUCKET;
    FullAt(ws, i, kick % BUCKET);
    KickKeepsFull(ws, s, fp + OCCUPIED, Reached(ws, i, fp, kick, n + 1, k));
  }

  lemma KickKeepsFull(ws: seq<int>, s: nat, w: int, i: nat)
    requires s < |ws| && ws[s] != 0 && w != 0
    ensures BucketFull(ws[s := w], i) <==> BucketFull(ws, i)
  {
    var kicked := ws[s := w];
    assert forall t :: 0 <= t < |ws| ==> (kicked[t] != 0 <==> ws[t] != 0);
    if BucketFull(kicked, i) {
      forall t | 0 <= t < |ws| && t / BUCKET == i ensures ws[t] != 0 { assert kicked[t] != 0; }
    }
  }

  lemma VacantMeansRoom(ws: seq<int>, i: nat)
    requires i * BUCKET + BUCKET <= |ws|
    ensures VacantFrom(ws, i, 0).Some? <==> !BucketFull(ws, i)
  {
  }

  // The walk places the fingerprint in hand exactly when one of the buckets that at most 500
  // kicks lead to has a vacant slot to begin with.
  lemma {:induction false} WalkPlaces(ws: seq<int>, i: nat, fp: Fingerprint, kick: nat, k: nat)
    requires |ws| == BUCKET * Pow2(k) && i < Pow2(k) && kick <= 500 && BucketFull(ws, i)
    ensures KickWalk(ws, i, fp, kick, k).placed <==> exists n :: 1 <= n <= 500 - kick && RoomAt(ws, i, fp, kick, n, k)
    decreases 500 - kick
  {
    hide KickWalk, IndexAlt, VacantFrom, BucketFull, Pow2, RoomAt, Reached;
    if kick == 500 {
      WalkEnds(ws, i, fp, kick, k);
    } else {
      WalkStep(ws, i, fp, kick, k);
      var s := i * BUCKET + kick % BUCKET;
      var driven, kicked := ws[s] % OCCUPIED, ws[s := fp + OCCUPIED];
      var alt := IndexAlt(i, driven, k);
      VacantMeansRoom(kicked, alt);
      RoomNext(ws, i, fp, kick, 0, k);
      RoomHere(kicked, alt, driven, kick + 1, k);
      if BucketFull(kicked, alt) {
        WalkPlaces(kicked, alt, driven, kick + 1, k);
        if n: nat :| 1 <= n <= 500 - kick && RoomAt(ws, i, fp, kick, n, k) {
          RoomNext(ws, i, fp, kick, n - 1, k);
        }
        var next := kick + 1;
        if n: nat :| 1 <= n <= 500 - next && RoomAt(kicked, alt, driven, next, n, k) {
          RoomNext(ws, i, fp, kick, n, k);
        }
      }
    }
  }

  lemma RoomHere(ws: seq<int>, i: nat, fp: Fingerprint, kick: nat, k: nat)
    requires |ws| == BUCKET * Pow2(k) && i < Pow2(k)
    ensures RoomAt(ws, i, fp, kick, 0, k) <==> !BucketFull(ws, i)
  {
  }

  lemma FullAt(ws: seq<int>, i: nat, j: nat)
    requires BucketFull(ws, i) && i * BUCKET + BUCKET <= |ws| && j < BUCKET
    ensures ws[i * BUCKET + j] != 0
  {
  }

  // When an Add finds room: a slot is vacant in one of the key's two buckets, or in a bucket
  // that at most 500 kicks lead to.
  lemma RoomExactly(ws: seq<int>, h: Hash, k: nat)
    requires |ws| == BUCKET * Pow2(k)
    ensures var i, fp := Index1(h, k), FingerprintOf(h);
      HasRoom(ws, h, k) <==>
        !BucketFull(ws, i) || !BucketFull(ws, IndexAlt(i, fp, k)) ||
        exists n :: 1 <= n <= 500 && RoomAt(ws, i, fp, 0, n, k)
  {
    hide KickWalk, IndexAlt, VacantFrom, BucketFull, Pow2, RoomAt, Index1, FingerprintOf;
    var i, fp := Index1(h, k), FingerprintOf(h);
    VacantMeansRoom(ws, i);
    VacantMeansRoom(ws, IndexAlt(i, fp, k));
    if BucketFull(ws, i) { WalkPlaces(ws, i, fp, 0, k); }
  }

  // Every bucket is the first bucket of some hash.
  lemma EveryBucketIsHome(i: Hash, k: nat)
    requires i < Pow2(k)
    ensures Index1(i, k) == i
  {
    hide Pow2;
    MaskSmall(i, k);
  }

  // With one bucket the kicks come back to it every time: once it is full they find no room.
  lemma {:induction false} OneBucketWalk(ws: seq<int>, fp: Fingerprint, kick: nat)
    requires |ws| == BUCKET && BucketFull(ws, 0) && kick <= MAX_KICKS
    ensures !KickWalk(ws, 0, fp, kick, 0).placed
    decreases MAX_KICKS - kick
  {
    hide KickWalk, IndexAlt, VacantFrom;
    if kick == MAX_KICKS {
      WalkEnds(ws, 0, fp, kick, 0);
    } else {
      WalkStep(ws, 0, fp, kick, 0);
      var s := kick % BUCKET;
      OneBucketWalk(ws[s := fp + OCCUPIED], ws[s] % OCCUPIED, kick + 1);
    }
  }

  // So a filter of one bucket has room exactly while one of its four slots is vacant.
  lemma OneBucketRoom(ws: seq<int>, h: Hash)
    requires |ws| == BUCKET
    ensures HasRoom(ws, h, 0) <==> exists s :: 0 <= s < BUCKET && ws[s] == 0
  {
    hide KickWalk, FingerprintOf;
    if BucketFull(ws, 0) { OneBucketWalk(ws, FingerprintOf(h), 0); }
  }

  class CuckooFilter {
    const k: nat             // numBuckets == 2^k
    const words: array<int>  // buckets, laid end to end
    var count: int

    ghost predicate Valid()
      reads this, words
    {
      && words.Length == BUCKET * Pow2(k)
      && Words(words[..])
      && count == words.Length - Stored(words[..], k)[Vacant]
    }

    // The tags stored, vacant slots aside: the abstract value of the filter.
    ghost function Content(): multiset<Tag>
      requires Valid()
      reads this, words
    {
      Stored(words[..], k)
    }

    constructor (k: nat)
      ensures Valid() && this.k == k && fresh(words) && count == 0
      ensures Content() == multiset{}[Vacant := BUCKET * Pow2(k)]
    {
      this.k := k;
      words := new int[BUCKET * Pow2(k)](_ => 0);
      count := 0;
      new;
      AllVacant(words[..], k);
    }

    // insertToBucket: the first vacant slot of the bucket takes the fingerprint.
    method InsertToBucket(idx: nat, fp: Fingerprint) returns (ok: bool)
      requires words.Length == BUCKET * Pow2(k) && Words(words[..]) && idx < Pow2(k)
      modifies words
      ensures Words(words[..])
      ensures ok ==> Vacant in old(Stored(words[..], k))
      ensures ok ==> Stored(words[..], k) == old(Stored(words[..], k)) - multiset{Vacant} + multiset{TagAt(idx, fp, k)}
      ensures !ok ==> words[..] == old(words[..]) && BucketFull(words[..], idx)
      ensures idx * BUCKET + BUCKET <= words.Length && ok == VacantFrom(old(words[..]), idx, 0).Some?
      ensures ok ==> words[..] == old(words[..])[VacantFrom(old(words[..]), idx, 0).value := fp + OCCUPIED]
    {
      hide TagAt, Pow2, Stored, Words;
      var j := 0;
      while j < BUCKET
        invariant 0 <= j <= BUCKET
        invariant words[..] == old(words[..])
        invariant forall s :: idx * BUCKET <= s < idx * BUCKET + j ==> words[s] != 0
        invariant VacantFrom(words[..], idx, 0) == VacantFrom(words[..], idx, j)
      {
        var s := idx * BUCKET + j;
        if words[s] == 0 {
          Occupy(idx, s, fp);
          return true;
        }
        j := j + 1;
      }
      ok := false;
    }

    method Occupy(idx: nat, s: nat, fp: Fingerprint)
      requires words.Length == BUCKET * Pow2(k) && Words(words[..])
      requires s < words.Length && s / BUCKET == idx && words[s] == 0
      modifies words
      ensures Words(words[..]) && Vacant in old(Stored(words[..], k))
      ensures words[..] == old(words[..])[s := fp + OCCUPIED]
      ensures Stored(words[..], k) == old(Stored(words[..], k)) - multiset{Vacant} + multiset{TagAt(idx, fp, k)}
    {
      hide TagAt, Pow2;
      ghost var ws := words[..];
      StoreOne(ws, s, fp + OCCUPIED, k);
      words[s] := fp + OCCUPIED;
      assert words[..] == ws[s := fp + OCCUPIED];
    }

    // relocate: kick fingerprints to their alternate buckets until one finds room.  Each
    // kick moves one tag out of the table and back; a failed run leaves exactly one out.
    method Relocate(i1: nat, fp0: Fingerprint) returns (ok: bool)
      requires Valid() && i1 < Pow2(k) && BucketFull(words[..], i1)
      modifies words, this
      ensures Valid()
      ensures ok ==> Vacant in old(Content())
      ensures ok ==> Content() == old(Content()) - multiset{Vacant} + multiset{TagAt(i1, fp0, k)}
      ensures ok ==> count == old(count) + 1
      ensures !ok ==>
              exists lost: Tag :: lost != Vacant &&
                Content() + multiset{lost} == old(Content()) + multiset{TagAt(i1, fp0, k)}
      ensures !ok ==> count == old(count)
      ensures Walk(ok, words[..]) == KickWalk(old(words[..]), i1, fp0, 0, k)
    {
      hide TagAt, Pow2, IndexAlt, VacantFrom, Stored, KickWalk, BucketFull, Words;
      TagAtIsTag(i1, fp0, k);
      ghost var all := Content() + multiset{TagAt(i1, fp0, k)};
      var i: nat, fp: Fingerprint, kick: nat := i1, fp0, 0;
      while kick < MAX_KICKS
        invariant 0 <= kick <= MAX_KICKS && i < Pow2(k)
        invariant words.Length == BUCKET * Pow2(k) && Words(words[..]) && BucketFull(words[..], i)
        invariant Stored(words[..], k) + multiset{TagAt(i, fp, k)} == all
        invariant count == old(count)
        invariant KickWalk(words[..], i, fp, kick, k) == KickWalk(old(words[..]), i1, fp0, 0, k)
      {
        TagAtIsTag(i, fp, k);
        KicksEnd(old(Content()), Stored(words[..], k), TagAt(i1, fp0, k), TagAt(i, fp, k));
        var placed, alt, driven := Kick(i, fp, kick);
        if placed {
          count := count + 1;
          return true;
        }
        i, fp, kick := alt, driven, kick + 1;
      }
      TagAtIsTag(i, fp, k);
      KicksEnd(old(Content()), Stored(words[..], k), TagAt(i1, fp0, k), TagAt(i, fp, k));
      WalkEnds(words[..], i, fp, kick, k);
      ok := false;
    }

    // One kick and the attempt to place the fingerprint it drove out.
    method Kick(i: nat, fp: Fingerprint, kick: nat) returns (placed: bool, alt: nat, driven: Fingerprint)
      requires words.Length == BUCKET * Pow2(k) && Words(words[..]) && i < Pow2(k) && kick < MAX_KICKS
      requires BucketFull(words[..], i)
      modifies words
      ensures Words(words[..]) && alt < Pow2(k)
      ensures placed ==> Vacant in old(Stored(words[..], k))
      ensures placed ==>
              Stored(words[..], k) == old(Stored(words[..], k)) - multiset{Vacant} + multiset{TagAt(i, fp, k)}
      ensures !placed ==> BucketFull(words[..], alt)
      ensures !placed ==>
              Stored(words[..], k) + multiset{TagAt(alt, driven, k)} ==
                old(Stored(words[..], k)) + multiset{TagAt(i, fp, k)}
      ensures KickWalk(old(words[..]), i, fp, kick, k) ==
              if placed then Walk(true, words[..]) else KickWalk(words[..], alt, driven, kick + 1, k)
    {
      hide TagAt, Pow2, IndexAlt, VacantFrom, Stored, KickWalk, BucketFull, Words;
      WalkStep(words[..], i, fp, kick, k);
      driven := Swap(i, kick % BUCKET, fp);
      alt := IndexAlt(i, driven, k);
      TagOfAlternate(i, driven, k);
      TagAtIsTag(alt, driven, k);
      TagAtIsTag(i, fp, k);
      KicksEnd(old(Stored(words[..], k)), Stored(words[..], k), TagAt(i, fp, k), TagAt(alt, driven, k));
      placed := InsertToBucket(alt, driven);
    }

    // One kick: the slot gives up its fingerprint for the one in hand.
    method Swap(i: nat, j: nat, fp: Fingerprint) returns (oldFp: Fingerprint)
      requires words.Length == BUCKET * Pow2(k) && Words(words[..]) && i < Pow2(k) && j < BUCKET
      requires BucketFull(words[..], i)
      modifies words
      ensures Words(words[..]) && oldFp == old(words[..])[i * BUCKET + j] % OCCUPIED
      ensures words[..] == old(words[..])[i * BUCKET + j := fp + OCCUPIED]
      ensures Stored(words[..], k) + multiset{TagAt(i, oldFp, k)} ==
              old(Stored(words[..], k)) + multiset{TagAt(i, fp, k)}
    {
      hide TagAt, Pow2, Tags, Stored;
      var s := i * BUCKET + j;
      ghost var ws := words[..];
      oldFp := words[s] % OCCUPIED;
      assert ws[s] != 0 && s / BUCKET == i;
      StoreOne(ws, s, fp + OCCUPIED, k);
      Traded(Stored(ws, k), SlotTag(ws[s], s, k), TagAt(i, fp, k));
      words[s] := fp + OCCUPIED;
      assert words[..] == ws[s := fp + OCCUPIED];
    }

    // Add: false leaves the new tag in and exactly one tag out.
    method Add(keyHash: Hash) returns (ok: bool)
      requires Valid()
      modifies words, this
      ensures Valid()
      ensures ok ==> Vacant in old(Content()) && count == old(count) + 1
      ensures ok ==> Content() == old(Content()) - multiset{Vacant} + multiset{TagOf(keyHash, k)}
      ensures !ok ==> count == old(count)
      ensures ok <==> HasRoom(old(words[..]), keyHash, k)
      ensures !ok ==>
              exists lost: Tag :: lost != Vacant &&
                Content() + multiset{lost} == old(Content()) + multiset{TagOf(keyHash, k)}
    {
      hide TagAt, Pow2, IndexAlt, FingerprintOf, Index1;
      var fp := FingerprintOf(keyHash);
      var i1 := Index1(keyHash, k);
      var i2 := IndexAlt(i1, fp, k);
      TagAtIsTag(i1, fp, k);
      TagOfAlternate(i1, fp, k);
      ok := InsertToBucket(i1, fp);
      if ok {
        count := count + 1;
        return;
      }
      ok := InsertToBucket(i2, fp);
      if ok {
        count := count + 1;
        return;
      }
      ok := Relocate(i1, fp);
    }

    method BucketContains(idx: nat, fp: Fingerprint) returns (found: bool)
      requires Valid() && idx < Pow2(k)
      ensures found == InBucket(words[..], idx, fp)
    {
      hide Pow2;
      var j := 0;
      while j < BUCKET
        invariant 0 <= j <= BUCKET
        invariant forall s :: idx * BUCKET <= s < idx * BUCKET + j ==> words[s] == 0 || words[s] % OCCUPIED != fp
      {
        var val := words[idx * BUCKET + j];
        if val != 0 && val % OCCUPIED == fp {
          assert words[..][idx * BUCKET + j] == val;
          return true;
        }
        j := j + 1;
      }
      found := false;
    }

    // Contains answers exactly whether the key's tag is stored.
    method Contains(keyHash: Hash) returns (found: bool)
      requires Valid()
      ensures found <==> TagOf(keyHash, k) in Content()
    {
      hide TagAt, Pow2, IndexAlt, FingerprintOf, Index1;
      var fp := FingerprintOf(keyHash);
      var i1 := Index1(keyHash, k);
      StoredMeansInBucket(words[..], keyHash, k);
      found := BucketContains(i1, fp);
      if !found {
        found := BucketContains(IndexAlt(i1, fp, k), fp);
      }
    }

    method DeleteFromBucket(idx: nat, fp: Fingerprint) returns (found: bool)
      requires Valid() && idx < Pow2(k)
      modifies words
      ensures Words(words[..]) && found == InBucket(old(words[..]), idx, fp)
      ensures found ==> TagAt(idx, fp, k) in old(Content())
      ensures found ==> Stored(words[..], k) == old(Content()) - multiset{TagAt(idx, fp, k)} + multiset{Vacant}
      ensures !found ==> words[..] == old(words[..])
    {
      hide TagAt, Pow2;
      var j := 0;
      while j < BUCKET
        invariant 0 <= j <= BUCKET && words[..] == old(words[..])
        invariant forall s :: idx * BUCKET <= s < idx * BUCKET + j ==> words[s] == 0 || words[s] % OCCUPIED != fp
      {
        var s := idx * BUCKET + j;
        var val := words[s];
        if val != 0 && val % OCCUPIED == fp {
          ghost var ws := words[..];
          StoreOne(ws, s, 0, k);
          words[s] := 0;
          assert words[..] == ws[s := 0] && ws[s] == val;
          return true;
        }
        j := j + 1;
      }
      found := false;
    }

    method Delete(keyHash: Hash) returns (found: bool)
      requires Valid()
      modifies words, this
      ensures Valid() && found == (TagOf(keyHash, k) in old(Content()))
      ensures Content() == if found then old(Content()) - multiset{TagOf(keyHash, k)} + multiset{Vacant}
              else old(Content())
      ensures count == old(count) - (if found then 1 else 0)
    {
      hide TagAt, Pow2, IndexAlt, FingerprintOf, Index1;
      var fp := FingerprintOf(keyHash);
      var i1 := Index1(keyHash, k);
      StoredMeansInBucket(words[..], keyHash, k);
      TagOfAlternate(i1, fp, k);
      TagAtIsTag(i1, fp, k);
      found := DeleteFromBucket(i1, fp);
      if !found {
        found := DeleteFromBucket(IndexAlt(i1, fp, k), fp);
      }
      if found {
        count := count - 1;
      }
    }

    method Reset()
      requires Valid()
      modifies words, this
      ensures Valid() && count == 0 && Content() == multiset{}[Vacant := BUCKET * Pow2(k)]
    {
      forall s | 0 <= s < words.Length { words[s] := 0; }
      count := 0;
      AllVacant(words[..], k);
    }
  }

  // A filter of one bucket takes the first four keys, whatever they are, and gives up on every
  // further one.
  method FillOneBucket(hs: seq<Hash>) returns (f: CuckooFilter, answers: seq<bool>)
    ensures fresh(f) && f.Valid() && f.k == 0 && |answers| == |hs|
    ensures forall n :: 0 <= n < |hs| ==> (answers[n] <==> n < 4)
  {
    hide TagAt, FingerprintOf, Index1, IndexAlt, HasRoom, Stored;
    f := new CuckooFilter(0);
    answers := [];
    for n := 0 to |hs|
      invariant f.Valid() && f.k == 0 && fresh(f) && fresh(f.words) && |answers| == n
      invariant f.count == if n < BUCKET then n else BUCKET
      invariant forall m :: 0 <= m < n ==> (answers[m] <==> m < BUCKET)
    {
      OneBucketRoom(f.words[..], hs[n]);
      VacantSlot(f.words[..], 0);
      var ok := f.Add(hs[n]);
      answers := answers + [ok];
    }
  }

  lemma VacantSlot(ws: seq<int>, k: nat)
    requires Words(ws)
    ensures Vacant in Stored(ws, k) <==> exists s :: 0 <= s < |ws| && ws[s] == 0
  {
    hide TagAt;
    assert Vacant in Stored(ws, k) <==> Vacant in Tags(ws, k);
    forall s | 0 <= s < |ws| ensures Tags(ws, k)[s] == Vacant <==> ws[s] == 0 {
      if ws[s] != 0 { TagAtIsTag(s / BUCKET, ws[s] % OCCUPIED, k); }
    }
  }

  lemma Traded(a: multiset<Tag>, gone: Tag, put: Tag)
    requires gone in a
    ensures a - multiset{gone} + multiset{put} + multiset{gone} == a + multiset{put}
  {
  }

  // The tag in hand has taken the place of the newcomer's in the balance.
  lemma KicksEnd(start: multiset<Tag>, now: multiset<Tag>, newcomer: Tag, inHand: Tag)
    requires now + multiset{inHand} == start + multiset{newcomer} && newcomer != Vacant && inHand != Vacant
    ensures now[Vacant] == start[Vacant]
    ensures Vacant in now ==> now - multiset{Vacant} + multiset{inHand} == start - multiset{Vacant} + multiset{newcomer}
  {
    assert (now + multiset{inHand})[Vacant] == (start + multiset{newcomer})[Vacant];
    if Vacant in now {
      assert now - multiset{Vacant} + multiset{inHand} == (now + multiset{inHand}) - multiset{Vacant};
      assert start - multiset{Vacant} + multiset{newcomer} == (start + multiset{newcomer}) - multiset{Vacant};
    }
  }

  lemma AllVacant(ws: seq<int>, k: nat)
    requires forall s :: 0 <= s < |ws| ==> ws[s] == 0
    ensures Words(ws) && Stored(ws, k) == multiset{}[Vacant := |ws|]
  {
    VacantCount(Tags(ws, k));
  }

  lemma {:induction false} VacantCount(tags: seq<Tag>)
    requires forall s :: 0 <= s < |tags| ==> tags[s] == Vacant
    ensures multiset(tags) == multiset{}[Vacant := |tags|]
  {
    if tags != [] {
      VacantCount(tags[1..]);
      assert tags == [tags[0]] + tags[1..];
    }
  }

  // ----- runs in which every Add succeeded and only held keys were deleted -----

  datatype Op = Adding(h: Hash) | Removing(i: nat)  // Removing names a position in the list of held keys

  function NextHeld(held: seq<Hash>, op: Op): seq<Hash> {
    match op
    case Adding(h) => held + [h]
    case Removing(i) => if i < |held| then held[..i] + held[i + 1..] else held
  }

  // The content after one operation, as the postconditions of Add and Delete give it.
  function NextContent(content: multiset<Tag>, held: seq<Hash>, op: Op, k: nat): multiset<Tag> {
    match op
    case Adding(h) => content - multiset{Vacant} + multiset{TagOf(h, k)}
    case Removing(i) => if i < |held| then content - multiset{TagOf(held[i], k)} + multiset{Vacant} else content
  }

  predicate Succeeds(content: multiset<Tag>, held: seq<Hash>, op: Op) {
    match op
    case Adding(_) => Vacant in content
    case Removing(i) => i < |held|
  }

  function HeldAfter(held: seq<Hash>, ops: seq<Op>): seq<Hash>
    decreases |ops|
  {
    if ops == [] then held else HeldAfter(NextHeld(held, ops[0]), ops[1..])
  }

  function ContentAfter(content: multiset<Tag>, held: seq<Hash>, ops: seq<Op>, k: nat): multiset<Tag>
    decreases |ops|
  {
    if ops == [] then content
    else ContentAfter(NextContent(content, held, ops[0], k), NextHeld(held, ops[0]), ops[1..], k)
  }

  predicate AllSucceed(content: multiset<Tag>, held: seq<Hash>, ops: seq<Op>, k: nat)
    decreases |ops|
  {
    ops == [] ||
    (Succeeds(content, held, ops[0]) &&
     AllSucceed(NextContent(content, held, ops[0], k), NextHeld(held, ops[0]), ops[1..], k))
  }

  function TagsOf(held: seq<Hash>, k: nat): seq<Tag> {
    seq(|held|, i requires 0 <= i < |held| => TagOf(held[i], k))
  }

  // The content is one tag for each held key, and vacant slots.
  ghost predicate Balanced(content: multiset<Tag>, held: seq<Hash>, k: nat) {
    content == multiset(TagsOf(held, k)) + multiset{}[Vacant := content[Vacant]]
  }

  lemma {:induction false} RunBalanced(content: multiset<Tag>, held: seq<Hash>, ops: seq<Op>, k: nat)
    requires Balanced(content, held, k) && AllSucceed(content, held, ops, k)
    ensures Balanced(ContentAfter(content, held, ops, k), HeldAfter(held, ops), k)
    decreases |ops|
  {
    hide NextContent, NextHeld, Succeeds, Balanced;
    if ops != [] {
      BalancedNext(content, held, ops[0], k);
      RunBalanced(NextContent(content, held, ops[0], k), NextHeld(held, ops[0]), ops[1..], k);
    }
  }

  lemma BalancedNext(content: multiset<Tag>, held: seq<Hash>, op: Op, k: nat)
    requires Balanced(content, held, k) && Succeeds(content, held, op)
    ensures Balanced(NextContent(content, held, op, k), NextHeld(held, op), k)
  {
    hide TagOf, Balanced;
    match op
    case Adding(h) => BalancedAdd(content, held, h, k);
    case Removing(i) => BalancedRemove(content, held, i, k);
  }

  lemma TagOfIsTag(h: Hash, k: nat)
    ensures TagOf(h, k) != Vacant
  {
  }

  lemma BalancedAdd(content: multiset<Tag>, held: seq<Hash>, h: Hash, k: nat)
    requires Balanced(content, held, k) && Vacant in content
    ensures Balanced(content - multiset{Vacant} + multiset{TagOf(h, k)}, held + [h], k)
  {
    hide TagAt, Index1, FingerprintOf, TagOf;
    TagOfIsTag(h, k);
    assert TagsOf(held + [h], k) == TagsOf(held, k) + [TagOf(h, k)];
  }

  lemma BalancedRemove(content: multiset<Tag>, held: seq<Hash>, i: nat, k: nat)
    requires Balanced(content, held, k) && i < |held|
    ensures TagOf(held[i], k) in content
    ensures Balanced(content - multiset{TagOf(held[i], k)} + multiset{Vacant}, held[..i] + held[i + 1..], k)
  {
    hide TagAt, Index1, FingerprintOf, TagOf;
    TagOfIsTag(held[i], k);
    var tags := TagsOf(held, k);
    assert tags == tags[..i] + [tags[i]] + tags[i + 1..];
    assert TagsOf(held[..i] + held[i + 1..], k) == tags[..i] + tags[i + 1..];
    assert multiset(tags) == multiset(tags[..i] + tags[i + 1..]) + multiset{tags[i]};
  }

  // Every key held has its tag stored, and the slots not vacant are as many as the keys held.
  lemma HeldAreStored(content: multiset<Tag>, held: seq<Hash>, k: nat)
    requires Balanced(content, held, k)
    ensures forall i :: 0 <= i < |held| ==> TagOf(held[i], k) in content
    ensures |content| - content[Vacant] == |held|
  {
    hide TagOf;
    forall i | 0 <= i < |held| ensures TagOf(held[i], k) in content {
      assert TagsOf(held, k)[i] in multiset(TagsOf(held, k));
    }
    assert |multiset(TagsOf(held, k))| == |held|;
  }

  // A tag that is stored is that of a key held, so Contains says true only of a hash that has
  // its top fifteen bits in common with one that is held.
  lemma FoundMeansShared(content: multiset<Tag>, held: seq<Hash>, h: Hash, k: nat)
    requires Balanced(content, held, k)
    ensures TagOf(h, k) in content <==> exists i :: 0 <= i < |held| && TagOf(held[i], k) == TagOf(h, k)
    ensures TagOf(h, k) in content ==>
      exists i :: 0 <= i < |held| && held[i] / 0x2_0000_0000_0000 == h / 0x2_0000_0000_0000
  {
    hide FingerprintOf, Index1, TagAt;
    TagOfIsTag(h, k);
    assert TagOf(h, k) in content <==> TagOf(h, k) in multiset(TagsOf(held, k));
    if TagOf(h, k) in multiset(TagsOf(held, k)) {
      var i :| 0 <= i < |held| && TagsOf(held, k)[i] == TagOf(h, k);
      TagAtIsTag(Index1(h, k), FingerprintOf(h), k);
      TagAtIsTag(Index1(held[i], k), FingerprintOf(held[i]), k);
      FingerprintsAgree(held[i], h);
    }
    if i :| 0 <= i < |held| && TagOf(held[i], k) == TagOf(h, k) {
      assert TagsOf(held, k)[i] in multiset(TagsOf(held, k));
    }
  }

  lemma EmptyIsBalanced(slots: nat, k: nat)
    ensures Balanced(multiset{}[Vacant := slots], [], k)
  {
    assert TagsOf([], k) == [];
  }

  // No false negatives: starting from an empty filter, every held key's tag is stored, and
  // exactly as many slots are occupied as keys held.
  lemma HeldKeysAreFound(slots: nat, ops: seq<Op>, k: nat)
    requires AllSucceed(multiset{}[Vacant := slots], [], ops, k)
    ensures var content := ContentAfter(multiset{}[Vacant := slots], [], ops, k);
      && (forall i :: 0 <= i < |HeldAfter([], ops)| ==> TagOf(HeldAfter([], ops)[i], k) in content)
      && |content| - content[Vacant] == |HeldAfter([], ops)|
  {
    hide TagOf, HeldAfter, ContentAfter, AllSucceed, Balanced;
    EmptyIsBalanced(slots, k);
    RunBalanced(multiset{}[Vacant := slots], [], ops, k);
    HeldAreStored(ContentAfter(multiset{}[Vacant := slots], [], ops, k), HeldAfter([], ops), k);
  }

  // One operation of a run, made on a filter.
  method ReplayOne(f: CuckooFilter, held: seq<Hash>, op: Op) returns (ok: bool)
    requires f.Valid() && Balanced(f.Content(), held, f.k)
    modifies f, f.words
    ensures f.Valid()
    ensures ok ==> Succeeds(old(f.Content()), held, op)
    ensures op.Adding? ==> ok == HasRoom(old(f.words[..]), op.h, f.k)
    ensures op.Removing? ==> ok == (op.i < |held|)
    ensures ok ==> f.Content() == NextContent(old(f.Content()), held, op, f.k)
  {
    hide TagOf, Stored, Words, Pow2, Balanced;
    match op {
      case Adding(h) =>
        ok := f.Add(h);
      case Removing(i) =>
        ok := i < |held|;
        if ok {
          BalancedRemove(f.Content(), held, i, f.k);
          var found := f.Delete(held[i]);
        }
    }
  }

  // A run made on a filter: its content and the keys held follow the functions above.  It stops
  // short only at an Add that fails or a removal that names no held key.
  method Replay(f: CuckooFilter, held0: seq<Hash>, ops: seq<Op>) returns (ok: bool, held: seq<Hash>, rest: seq<Op>)
    requires f.Valid() && Balanced(f.Content(), held0, f.k)
    modifies f, f.words
    ensures f.Valid() && HeldAfter(held, rest) == HeldAfter(held0, ops)
    ensures !ok ==> rest != [] && (rest[0].Adding? || rest[0].i >= |held|)
    ensures ok ==> rest == [] && Balanced(f.Content(), held, f.k)
    ensures ok ==> AllSucceed(old(f.Content()), held0, ops, f.k) && held == HeldAfter(held0, ops)
    ensures ok ==> f.Content() == ContentAfter(old(f.Content()), held0, ops, f.k)
  {
    hide NextContent, NextHeld, Succeeds, Balanced, CuckooFilter.Content;
    ghost var start := f.Content();
    held, rest := held0, ops;
    while rest != []
      invariant f.Valid() && Balanced(f.Content(), held, f.k)
      invariant HeldAfter(held, rest) == HeldAfter(held0, ops)
      invariant ContentAfter(f.Content(), held, rest, f.k) == ContentAfter(start, held0, ops, f.k)
      invariant AllSucceed(f.Content(), held, rest, f.k) <==> AllSucceed(start, held0, ops, f.k)
      decreases |rest|
    {
      ghost var before := f.Content();
      var done := ReplayOne(f, held, rest[0]);
      if !done {
        return false, held, rest;
      }
      BalancedNext(before, held, rest[0], f.k);
      held, rest := NextHeld(held, rest[0]), rest[1..];
    }
    ok := true;
  }

  // What Contains answers for each of the keys.
  method AskAll(f: CuckooFilter, held: seq<Hash>) returns (answers: seq<bool>)
    requires f.Valid()
    ensures |answers| == |held|
    ensures forall i :: 0 <= i < |held| ==> (answers[i] <==> TagOf(held[i], f.k) in f.Content())
  {
    hide TagOf, CuckooFilter.Content, CuckooFilter.Valid;
    answers := [];
    for i := 0 to |held|
      invariant |answers| == i
      invariant forall j :: 0 <= j < i ==> (answers[j] <==> TagOf(held[j], f.k) in f.Content())
    {
      var found := f.Contains(held[i]);
      answers := answers + [found];
    }
  }

  // No false negatives, on the filter itself: made on a new filter, a run in which every Add
  // answers true and every removal names a held key ends with Contains true for every key
  // held, however far the kicks have moved them, and with as many fingerprints as keys.
  method ReplayFromEmpty(k: nat, ops: seq<Op>) returns (ok: bool, held: seq<Hash>, answers: seq<bool>, count: int)
    ensures ok ==> held == HeldAfter([], ops) && count == |held| == |answers|
    ensures ok ==> forall i :: 0 <= i < |answers| ==> answers[i]
  {
    hide TagOf, Balanced, Words;
    var f := new CuckooFilter(k);
    EmptyIsBalanced(BUCKET * Pow2(k), k);
    var rest;
    ok, held, rest := Replay(f, [], ops);
    answers, count := [], f.count;
    if ok {
      HeldAreStored(f.Content(), held, f.k);
      answers := AskAll(f, held);
    }
  }
}
