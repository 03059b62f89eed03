// The Swiss table: open addressing over groups of sixteen slots, one control byte per
// slot, tombstones and doubling.  Slot i of group g is slot g*16+i of one flat array.
module Swiss {
  import opened Common

  const GROUP: int := 16
  const EMPTY: Byte := 0x80
  const DELETED: Byte := 0xFE

  datatype Entry = Entry(keyHash: Hash, cost: int)

  function H2(keyHash: Hash): (b: Byte)
    ensures b < 0x80
  {
    keyHash % 0x80
  }

  // The group a key's probe sequence starts at: h1(keyHash) & mask.
  function Home(keyHash: Hash, groups: nat): (g: nat)
    requires groups > 0
    ensures g < groups
  {
    (keyHash / 0x80) % groups
  }

  // Control byte and home group are told by different bits: every pair of them is some hash's.
  lemma BitsApart(g: nat, b: nat, groups: nat)
    requires g < groups && b < 128
    ensures var h := 128 * g + b; h < TWO64 ==> H2(h) == b && Home(h, groups) == g
  {
    RemainderIs(g, 0, g, groups);
    assert (128 * g + b) / 128 == g;
  }

  // The group visited at a given probe: (home + probe) & mask (ProbeIsRemainder).
  function ProbeAt(home: nat, probe: nat, groups: nat): (g: nat)
    requires home < groups && probe < groups
    ensures g < groups
  {
    if home + probe < groups then home + probe else home + probe - groups
  }

  lemma ProbeIsRemainder(home: nat, probe: nat, groups: nat)
    requires home < groups && probe < groups
    ensures ProbeAt(home, probe, groups) == (home + probe) % groups
  {
    if home + probe < groups {
      RemainderIs(home + probe, 0, home + probe, groups);
    } else {
      RemainderIs(home + probe, 1, home + probe - groups, groups);
    }
  }

  // How many probes it takes to get from `home` to group g.
  function Distance(home: nat, g: nat, groups: nat): (d: nat)
    requires home < groups && g < groups
    ensures d < groups && ProbeAt(home, d, groups) == g
  {
    if home <= g then g - home else g + groups - home
  }

  // ----- the table as two sequences and the map they stand for -----

  predicate Full(c: Byte) { c < 0x80 }

  function Groups(ctrl: seq<Byte>): nat { |ctrl| / GROUP }

  predicate Shape(ctrl: seq<Byte>, es: seq<Entry>) {
    |ctrl| == |es| && |ctrl| % GROUP == 0 && |ctrl| > 0
  }

  predicate NoEmpty(ctrl: seq<Byte>, g: nat) {
    forall s :: 0 <= s < |ctrl| && s / GROUP == g ==> ctrl[s] != EMPTY
  }

  // A slot is empty, a tombstone, or holds an entry of the map under its own tag.
  ghost predicate SlotOk(ctrl: seq<Byte>, es: seq<Entry>, m: map<Hash, int>, s: nat)
    requires s < |ctrl| == |es|
  {
    if Full(ctrl[s]) then
      ctrl[s] == H2(es[s].keyHash) && es[s].keyHash in m && m[es[s].keyHash] == es[s].cost
    else ctrl[s] == EMPTY || ctrl[s] == DELETED
  }

  ghost predicate Slots(ctrl: seq<Byte>, es: seq<Entry>, m: map<Hash, int>)
    requires |ctrl| == |es|
  {
    forall s :: 0 <= s < |ctrl| ==> SlotOk(ctrl, es, m, s)
  }

  ghost predicate Holds(ctrl: seq<Byte>, es: seq<Entry>, s: nat, h: Hash)
    requires |ctrl| == |es|
  {
    s < |ctrl| && Full(ctrl[s]) && es[s].keyHash == h
  }

  ghost predicate Unique(ctrl: seq<Byte>, es: seq<Entry>)
    requires |ctrl| == |es|
  {
    forall s, t, h :: Holds(ctrl, es, s, h) && Holds(ctrl, es, t, h) ==> s == t
  }

  ghost predicate Complete(ctrl: seq<Byte>, es: seq<Entry>, m: map<Hash, int>)
    requires |ctrl| == |es|
  {
    forall h :: h in m ==> exists s :: Holds(ctrl, es, s, h)
  }

  // No group with an empty slot lies before a stored key on its probe path.
  ghost predicate Paths(ctrl: seq<Byte>, es: seq<Entry>)
    requires Shape(ctrl, es)
  {
    forall s, g ::
      0 <= s < |ctrl| && Full(ctrl[s]) && 0 <= g < Groups(ctrl) && Before(es[s].keyHash, g, s, Groups(ctrl)) ==>
        NoEmpty(ctrl, g)
  }

  predicate Before(h: Hash, g: nat, s: nat, groups: nat)
    requires g < groups && s / GROUP < groups
  {
    Distance(Home(h, groups), g, groups) < Distance(Home(h, groups), s / GROUP, groups)
  }

  ghost predicate Table(ctrl: seq<Byte>, es: seq<Entry>, m: map<Hash, int>) {
    Shape(ctrl, es) && Slots(ctrl, es, m) && Unique(ctrl, es) && Complete(ctrl, es, m) && Paths(ctrl, es)
  }

  // ----- one change at a time -----

  // A group with an empty slot ends the search.
  lemma StopAtEmpty(ctrl: seq<Byte>, es: seq<Entry>, m: map<Hash, int>, h: Hash, probe: nat)
    requires Table(ctrl, es, m) && probe < Groups(ctrl)
    requires !NoEmpty(ctrl, ProbeAt(Home(h, Groups(ctrl)), probe, Groups(ctrl)))
    requires forall s :: 0 <= s < |ctrl| && Distance(Home(h, Groups(ctrl)), s / GROUP, Groups(ctrl)) <= probe ==>
             !Holds(ctrl, es, s, h)
    ensures h !in m
  {
    var g := ProbeAt(Home(h, Groups(ctrl)), probe, Groups(ctrl));
    forall s: nat ensures !Holds(ctrl, es, s, h) {
      if s < |ctrl| {
        assert Distance(Home(h, Groups(ctrl)), s / GROUP, Groups(ctrl)) > probe ==> Before(h, g, s, Groups(ctrl));
      }
    }
  }

  // Writing a new key into the first slot on its path that is not full.
  lemma Place(ctrl: seq<Byte>, es: seq<Entry>, m: map<Hash, int>, s: nat, h: Hash, cost: int)
    requires Table(ctrl, es, m) && h !in m && s < |ctrl| && !Full(ctrl[s])
    requires forall g :: 0 <= g < Groups(ctrl) && Before(h, g, s, Groups(ctrl)) ==> NoEmpty(ctrl, g)
    ensures Table(ctrl[s := H2(h)], es[s := Entry(h, cost)], m[h := cost])
  {
    var c', e', m' := ctrl[s := H2(h)], es[s := Entry(h, cost)], m[h := cost];
    forall t | 0 <= t < |c'| ensures SlotOk(c', e', m', t) { assert SlotOk(ctrl, es, m, t); }
    assert Unique(c', e') by {
      forall t, u, x | Holds(c', e', t, x) && Holds(c', e', u, x) ensures t == u {
        if t != s { assert Holds(ctrl, es, t, x) && SlotOk(ctrl, es, m, t); }
        if u != s { assert Holds(ctrl, es, u, x) && SlotOk(ctrl, es, m, u); }
      }
    }
    forall x | x in m' ensures exists t :: Holds(c', e', t, x) {
      if x == h { assert Holds(c', e', s, h); }
      else { var t :| Holds(ctrl, es, t, x); assert Holds(c', e', t, x); }
    }
    forall g | 0 <= g < Groups(ctrl) && NoEmpty(ctrl, g) ensures NoEmpty(c', g) { }
  }

  lemma Overwrite(ctrl: seq<Byte>, es: seq<Entry>, m: map<Hash, int>, s: nat, cost: int)
    requires Table(ctrl, es, m) && s < |ctrl| && Full(ctrl[s])
    ensures Table(ctrl, es[s := es[s].(cost := cost)], m[es[s].keyHash := cost])
  {
    var e', m' := es[s := es[s].(cost := cost)], m[es[s].keyHash := cost];
    assert SlotOk(ctrl, es, m, s) && Holds(ctrl, es, s, es[s].keyHash);
    forall t | 0 <= t < |ctrl| ensures SlotOk(ctrl, e', m', t) {
      assert SlotOk(ctrl, es, m, t);
      if t != s && Full(ctrl[t]) { assert Holds(ctrl, es, t, es[t].keyHash); }
    }
    forall t, x | Holds(ctrl, e', t, x) ensures Holds(ctrl, es, t, x) { }
    forall x | x in m' ensures exists t :: Holds(ctrl, e', t, x) {
      var t :| Holds(ctrl, es, t, x);
      assert Holds(ctrl, e', t, x);
    }
  }

  // A tombstone keeps the paths through its group intact.
  lemma Bury(ctrl: seq<Byte>, es: seq<Entry>, m: map<Hash, int>, s: nat)
    requires Table(ctrl, es, m) && s < |ctrl| && Full(ctrl[s])
    ensures Table(ctrl[s := DELETED], es[s := Entry(0, 0)], m - {es[s].keyHash})
  {
    var c', e', m' := ctrl[s := DELETED], es[s := Entry(0, 0)], m - {es[s].keyHash};
    assert Holds(ctrl, es, s, es[s].keyHash);
    forall t | 0 <= t < |ctrl| ensures SlotOk(c', e', m', t) {
      assert SlotOk(ctrl, es, m, t);
      if t != s && Full(ctrl[t]) { assert Holds(ctrl, es, t, es[t].keyHash); }
    }
    forall t, x | Holds(c', e', t, x) ensures Holds(ctrl, es, t, x) { }
    forall x | x in m' ensures exists t :: Holds(c', e', t, x) {
      var t :| Holds(ctrl, es, t, x);
      assert Holds(c', e', t, x);
    }
    forall g | 0 <= g < Groups(ctrl) && NoEmpty(ctrl, g) ensures NoEmpty(c', g) { }
  }

  // With fewer keys than slots some slot is not full.
  lemma FreeSlot(ctrl: seq<Byte>, es: seq<Entry>, m: map<Hash, int>)
    requires Table(ctrl, es, m) && |m| < |ctrl|
    ensures exists s :: 0 <= s < |ctrl| && !Full(ctrl[s])
  {
    if forall s :: 0 <= s < |ctrl| ==> Full(ctrl[s]) {
      var hs := seq(|es|, i requires 0 <= i < |es| => es[i].keyHash);
      forall i | 0 <= i < |hs| ensures hs[i] in m.Keys { assert SlotOk(ctrl, es, m, i); }
      forall i, j | 0 <= i < j < |hs| ensures hs[i] != hs[j] {
        assert Holds(ctrl, es, i, hs[i]) && Holds(ctrl, es, j, hs[j]);
      }
      DistinctFit(hs, m.Keys);
    }
  }

  lemma {:induction false} DistinctFit(hs: seq<Hash>, all: set<Hash>)
    requires forall i, j :: 0 <= i < j < |hs| ==> hs[i] != hs[j]
    requires forall i :: 0 <= i < |hs| ==> hs[i] in all
    ensures |hs| <= |all|
  {
    if hs != [] {
      var n := |hs| - 1;
      DistinctFit(hs[..n], all - {hs[n]});
    }
  }

  // ----- the structure -----

  class SwissTable {
    var ctrl: array<Byte>      // groups, laid end to end
    var entries: array<Entry>
    var size: int
    var cap: int
    ghost var contents: map<Hash, int>

    ghost predicate Valid()
      reads this, ctrl, entries
    {
      && ctrl.Length == cap
      && Table(ctrl[..], entries[..], contents)
      && size == |contents|
      && 8 * size <= 7 * cap
    }

    // An empty table of `groups` groups.
    constructor (groups: nat)
      requires groups > 0
      ensures Valid() && fresh(ctrl) && fresh(entries)
      ensures contents == map[] && size == 0 && cap == groups * GROUP
    {
      ctrl := new Byte[groups * GROUP](_ => EMPTY);
      entries := new Entry[groups * GROUP](_ => Entry(0, 0));
      size := 0;
      cap := groups * GROUP;
      contents := map[];
    }

    // findLocked: the probe loop, group by group until one has an empty slot.
    method Find(keyHash: Hash) returns (idx: nat, found: bool)
      requires Valid()
      ensures found <==> keyHash in contents
      ensures found ==> Holds(ctrl[..], entries[..], idx, keyHash) && entries[idx].cost == contents[keyHash]
    {
      var numGroups := cap / GROUP;
      var groupIdx := Home(keyHash, numGroups);
      var h2Val := H2(keyHash);
      var probe := 0;
      while probe < numGroups
        invariant 0 <= probe <= numGroups
        invariant forall s :: 0 <= s < cap && Distance(groupIdx, s / GROUP, numGroups) < probe ==>
                    !Holds(ctrl[..], entries[..], s, keyHash)
      {
        var gIdx := ProbeAt(groupIdx, probe, numGroups);
        var hasEmpty := false;
        var i := 0;
        while i < GROUP
          invariant 0 <= i <= GROUP
          invariant forall s :: gIdx * GROUP <= s < gIdx * GROUP + i ==> !Holds(ctrl[..], entries[..], s, keyHash)
          invariant hasEmpty ==> !NoEmpty(ctrl[..], gIdx)
        {
          var slotIdx := gIdx * GROUP + i;
          var c := ctrl[slotIdx];
          if c == EMPTY {
            assert ctrl[..][slotIdx] == EMPTY && slotIdx / GROUP == gIdx;
            hasEmpty := true;
          } else if c == h2Val {
            if entries[slotIdx].keyHash == keyHash {
              assert SlotOk(ctrl[..], entries[..], contents, slotIdx);
              return slotIdx, true;
            }
          }
          assert SlotOk(ctrl[..], entries[..], contents, slotIdx);
          i := i + 1;
        }
        if hasEmpty {
          StopAtEmpty(ctrl[..], entries[..], contents, keyHash, probe);
          return 0, false;
        }
        probe := probe + 1;
      }
      return 0, false;
    }

    // insertNoLock, and the second half of Insert: the first slot on the probe path that is
    // empty or a tombstone takes the entry.  `placed` is false only if the loop falls
    // through, which the postcondition excludes.
    method InsertNoLock(keyHash: Hash, cost: int) returns (placed: bool)
      requires ctrl.Length == cap && Table(ctrl[..], entries[..], contents)
      requires keyHash !in contents && size == |contents| < cap
      modifies this`size, this`contents, ctrl, entries
      ensures Table(ctrl[..], entries[..], contents) && size == |contents|
      ensures placed && contents == old(contents)[keyHash := cost]
    {
      var numGroups := cap / GROUP;
      var groupIdx := Home(keyHash, numGroups);
      var h2Val := H2(keyHash);
      var probe := 0;
      while probe < numGroups
        invariant 0 <= probe <= numGroups
        invariant forall s :: 0 <= s < cap && Distance(groupIdx, s / GROUP, numGroups) < probe ==> Full(ctrl[s])
      {
        var gIdx := ProbeAt(groupIdx, probe, numGroups);
        var i := 0;
        while i < GROUP
          invariant 0 <= i <= GROUP
          invariant forall s :: gIdx * GROUP <= s < gIdx * GROUP + i ==> Full(ctrl[s])
        {
          var slotIdx := gIdx * GROUP + i;
          assert SlotOk(ctrl[..], entries[..], contents, slotIdx);
          if ctrl[slotIdx] == EMPTY || ctrl[slotIdx] == DELETED {
            FullGroupsBefore(ctrl[..], keyHash, slotIdx, probe);
            Place(ctrl[..], entries[..], contents, slotIdx, keyHash, cost);
            ghost var c, e := ctrl[..], entries[..];
            ctrl[slotIdx] := h2Val;
            entries[slotIdx] := Entry(keyHash, cost);
            assert ctrl[..] == c[slotIdx := h2Val] && entries[..] == e[slotIdx := Entry(keyHash, cost)];
            size := size + 1;
            contents := contents[keyHash := cost];
            return true;
          }
          i := i + 1;
        }
        probe := probe + 1;
      }
      FreeSlot(ctrl[..], entries[..], contents);
      placed := false;
    }

    lemma FullGroupsBefore(c: seq<Byte>, h: Hash, s: nat, probe: nat)
      requires |c| % GROUP == 0 && s < |c| && probe < Groups(c) &&
               s / GROUP == ProbeAt(Home(h, Groups(c)), probe, Groups(c))
      requires forall t :: 0 <= t < |c| && Distance(Home(h, Groups(c)), t / GROUP, Groups(c)) < probe ==> Full(c[t])
      ensures forall g :: 0 <= g < Groups(c) && Before(h, g, s, Groups(c)) ==> NoEmpty(c, g)
    {
    }

    // Insert: true when the key is new.
    method Insert(keyHash: Hash, cost: int) returns (isNew: bool)
      requires Valid()
      modifies this, ctrl, entries
      ensures Valid() && ((ctrl == old(ctrl) && entries == old(entries)) || (fresh(ctrl) && fresh(entries)))
      ensures contents == old(contents)[keyHash := cost]
      ensures isNew == (keyHash !in old(contents))
      ensures cap == if isNew && 8 * (old(size) + 1) > 7 * old(cap) then 2 * old(cap) else old(cap)
    {
      var idx, found := Find(keyHash);
      if found {
        Rewrite(idx, cost);
        return false;
      }
      if 8 * (size + 1) > 7 * cap {
        GrowLocked();
      }
      isNew := InsertNoLock(keyHash, cost);
    }

    method Rewrite(idx: nat, cost: int)
      requires Valid() && idx < cap && Full(ctrl[idx])
      modifies this`contents, entries
      ensures Valid() && contents == old(contents)[old(entries[idx]).keyHash := cost]
      ensures |contents| == |old(contents)|
    {
      ghost var e := entries[..];
      assert Holds(ctrl[..], e, idx, e[idx].keyHash) && SlotOk(ctrl[..], e, contents, idx);
      Overwrite(ctrl[..], e, contents, idx, cost);
      contents := contents[e[idx].keyHash := cost];
      assert contents.Keys == old(contents).Keys;
      entries[idx] := entries[idx].(cost := cost);
      assert entries[..] == e[idx := e[idx].(cost := cost)];
    }

    method Update(keyHash: Hash, cost: int) returns (found: bool)
      requires Valid()
      modifies this`contents, entries
      ensures Valid() && found == (keyHash in old(contents))
      ensures contents == if found then old(contents)[keyHash := cost] else old(contents)
    {
      var idx;
      idx, found := Find(keyHash);
      if found { Rewrite(idx, cost); }
    }

    method Get(keyHash: Hash) returns (r: Option<int>)
      requires Valid()
      ensures r == if keyHash in contents then Some(contents[keyHash]) else None
    {
      var idx, found := Find(keyHash);
      r := if found then Some(entries[idx].cost) else None;
    }

    // Delete leaves a tombstone.
    method Delete(keyHash: Hash) returns (r: Option<int>)
      requires Valid()
      modifies this`size, this`contents, ctrl, entries
      ensures Valid() && contents == old(contents) - {keyHash}
      ensures r == if keyHash in old(contents) then Some(old(contents)[keyHash]) else None
    {
      var idx, found := Find(keyHash);
      if !found { return None; }
      r := Some(entries[idx].cost);
      ghost var c, e := ctrl[..], entries[..];
      Bury(c, e, contents, idx);
      ctrl[idx] := DELETED;
      entries[idx] := Entry(0, 0);
      assert ctrl[..] == c[idx := DELETED] && entries[..] == e[idx := Entry(0, 0)];
      size := size - 1;
      contents := contents - {keyHash};
    }

    method Clear()
      requires Valid()
      modifies this, ctrl
      ensures Valid() && contents == map[] && size == 0 && cap == old(cap)
      ensures ctrl == old(ctrl) && fresh(entries)
    {
      forall s | 0 <= s < ctrl.Length { ctrl[s] := EMPTY; }
      entries := new Entry[cap](_ => Entry(0, 0));
      size := 0;
      contents := map[];
      EmptyTable(ctrl[..], entries[..]);
    }

    // Doubles the table and reinserts every entry.
    method GrowLocked()
      requires Valid()
      modifies this
      ensures Valid() && fresh(ctrl) && fresh(entries)
      ensures contents == old(contents) && cap == 2 * old(cap)
    {
      var oldCtrl, oldEntries := ctrl, entries;
      ghost var m := contents;
      var newCap := cap * 2;
      ctrl := new Byte[newCap](_ => EMPTY);
      entries := new Entry[newCap](_ => Entry(0, 0));
      cap := newCap;
      size := 0;
      contents := map[];
      EmptyTable(ctrl[..], entries[..]);
      Reinsert(oldCtrl, oldEntries, m);
    }

    // The reinsertion loop of growLocked.
    method Reinsert(oldCtrl: array<Byte>, oldEntries: array<Entry>, ghost m: map<Hash, int>)
      requires Table(oldCtrl[..], oldEntries[..], m) && |m| < cap
      requires ctrl.Length == cap && Table(ctrl[..], entries[..], contents) && contents == map[] && size == 0
      requires ctrl != oldCtrl && entries != oldEntries
      modifies this`size, this`contents, ctrl, entries
      ensures Table(ctrl[..], entries[..], contents) && size == |contents| && contents == m
    {
      ghost var oc, oe := oldCtrl[..], oldEntries[..];
      var s := 0;
      while s < oldCtrl.Length
        invariant 0 <= s <= oldCtrl.Length
        invariant Table(ctrl[..], entries[..], contents) && size == |contents|
        invariant Moved(oc, oe, m, s, contents)
      {
        hide Table, Moved;
        assert oldCtrl[..] == oc && oldEntries[..] == oe;
        MovedStep(oc, oe, m, s, contents);
        if oldCtrl[s] != EMPTY && oldCtrl[s] != DELETED {
          var entry := oldEntries[s];
          var _ := InsertNoLock(entry.keyHash, entry.cost);
        }
        s := s + 1;
      }
      MovedAll(oc, oe, m, contents);
    }
  }

  lemma EmptyTable(ctrl: seq<Byte>, es: seq<Entry>)
    requires Shape(ctrl, es) && forall s :: 0 <= s < |ctrl| ==> ctrl[s] == EMPTY
    ensures Table(ctrl, es, map[])
  {
  }

  // c holds exactly the entries of the first n slots of the old table.
  ghost predicate Moved(oc: seq<Byte>, oe: seq<Entry>, m: map<Hash, int>, n: nat, c: map<Hash, int>)
    requires |oc| == |oe|
  {
    && (forall h :: h in c ==> h in m && c[h] == m[h] && exists t: nat :: t < n && Holds(oc, oe, t, h))
    && (forall t: nat, h :: t < n && Holds(oc, oe, t, h) ==> h in c)
  }

  lemma MovedStep(oc: seq<Byte>, oe: seq<Entry>, m: map<Hash, int>, n: nat, c: map<Hash, int>)
    requires Table(oc, oe, m) && n < |oc| && Moved(oc, oe, m, n, c)
    ensures oc[n] != EMPTY && oc[n] != DELETED <==> Full(oc[n])
    ensures if Full(oc[n]) then oe[n].keyHash !in c && Moved(oc, oe, m, n + 1, c[oe[n].keyHash := oe[n].cost])
            else Moved(oc, oe, m, n + 1, c)
    ensures |c| <= |m|
  {
    assert SlotOk(oc, oe, m, n);
    Fits(c.Keys, m.Keys);
    if Full(oc[n]) {
      var h := oe[n].keyHash;
      var c' := c[h := oe[n].cost];
      assert Holds(oc, oe, n, h);
      assert forall t: nat :: Holds(oc, oe, t, h) ==> t == n;
      forall x | x in c' ensures x in m && c'[x] == m[x] && exists t: nat :: t < n + 1 && Holds(oc, oe, t, x) {
        if x != h { var t: nat :| t < n && Holds(oc, oe, t, x); assert t < n + 1; }
      }
    } else {
      forall x | x in c ensures exists t: nat :: t < n + 1 && Holds(oc, oe, t, x) {
        var t: nat :| t < n && Holds(oc, oe, t, x); assert t < n + 1;
      }
    }
  }

  lemma Fits(a: set<Hash>, b: set<Hash>)
    requires a <= b
    ensures |a| <= |b|
  {
    assert |b - a| == |b| - |a|;
  }

  lemma MovedAll(oc: seq<Byte>, oe: seq<Entry>, m: map<Hash, int>, c: map<Hash, int>)
    requires Table(oc, oe, m) && Moved(oc, oe, m, |oc|, c)
    ensures c == m
  {
    forall h | h in m ensures h in c {
      var s :| Holds(oc, oe, s, h);
    }
  }
}
