// The indexed min-heap of deadlines: a slice of items ordered by `expireAt`, each item
// knowing its own position, and a map from key to item.  The same structure serves the
// store (keys are hashes) and the legacy scheduler (keys are strings).
module ExpiryHeap {
  import opened Common

  // ----- heap order, on the sequence of deadlines -----

  function Parent(k: nat): nat
    requires k > 0
  {
    (k - 1) / 2
  }

  predicate OrderAt(t: seq<int>, k: nat)
    requires k < |t|
  {
    k > 0 ==> t[Parent(k)] <= t[k]
  }

  predicate Ordered(t: seq<int>) {
    forall k :: 0 < k < |t| ==> OrderAt(t, k)
  }

  // Only position x may be out of order with its parent, and x may be exchanged with
  // its parent: the children of x are in order with the parent of x.
  predicate OrderedAbove(t: seq<int>, x: nat) {
    && (forall k :: 0 < k < |t| && k != x ==> OrderAt(t, k))
    && GrandchildrenOk(t, x)
  }

  predicate GrandchildrenOk(t: seq<int>, x: nat) {
    forall c :: 0 < c < |t| && Parent(c) == x && x > 0 ==> t[Parent(x)] <= t[c]
  }

  // Position x may be out of order both with its parent and with its children.
  predicate OrderedAround(t: seq<int>, x: nat) {
    && (forall k :: 0 < k < |t| && Parent(k) != x && k != x ==> OrderAt(t, k))
    && GrandchildrenOk(t, x)
  }

  function Exchange<T>(s: seq<T>, i: nat, j: nat): (r: seq<T>)
    requires i < |s| && j < |s|
    ensures |r| == |s|
  {
    s[i := s[j]][j := s[i]]
  }

  lemma ExchangeWithin<T>(s: seq<T>, i: nat, j: nat, n: nat)
    requires i < n <= |s| && j < n
    ensures Exchange(s, i, j)[..n] == Exchange(s[..n], i, j) && Exchange(s, i, j)[n..] == s[n..]
  {
  }

  lemma ExchangePermutes<T>(s: seq<T>, i: nat, j: nat)
    requires i < |s| && j < |s|
    ensures multiset(Exchange(s, i, j)) == multiset(s)
  {
  }

  lemma UpStep(t: seq<int>, x: nat)
    requires 0 < x < |t| && OrderedAbove(t, x) && t[x] < t[Parent(x)]
    ensures OrderedAbove(Exchange(t, Parent(x), x), Parent(x))
  {
    var p := Parent(x);
    var r := Exchange(t, p, x);
    assert OrderAt(t, p);
    forall k | 0 < k < |r| && k != p ensures OrderAt(r, k) {
      if k != x { assert OrderAt(t, k); }
    }
    forall c | 0 < c < |r| && Parent(c) == p && p > 0 ensures r[Parent(p)] <= r[c] {
      assert c != x ==> OrderAt(t, c);
    }
  }

  lemma UpStops(t: seq<int>, x: nat)
    requires x < |t| && OrderedAbove(t, x) && (x > 0 ==> t[Parent(x)] <= t[x])
    ensures Ordered(t)
  {
    forall k | 0 < k < |t| ensures OrderAt(t, k) { }
  }

  // The smaller child c of x moves up: x's old subtree order is repaired one level down.
  lemma DownStep(t: seq<int>, x: nat, c: nat)
    requires x < |t| && 0 < c < |t| && Parent(c) == x && t[c] < t[x]
    requires forall d :: 0 < d < |t| && Parent(d) == x ==> t[c] <= t[d]
    requires OrderedAround(t, x)
    ensures var r := Exchange(t, x, c);
      && (forall k :: 0 < k < |r| && Parent(k) != c ==> OrderAt(r, k))
      && GrandchildrenOk(r, c)
  {
    var r := Exchange(t, x, c);
    forall k | 0 < k < |r| && Parent(k) != c ensures OrderAt(r, k) {
      if k != x && Parent(k) != x { assert OrderAt(t, k); }
    }
    forall d | 0 < d < |r| && Parent(d) == c ensures r[Parent(c)] <= r[d] {
      assert OrderAt(t, d);
    }
  }

  lemma OrderedAroundPrefix(t: seq<int>, x: nat, n: nat)
    requires OrderedAround(t, x) && x < n <= |t|
    ensures OrderedAround(t[..n], x)
  {
    forall k | 0 < k < n && Parent(k) != x && k != x ensures OrderAt(t[..n], k) { assert OrderAt(t, k); }
  }

  lemma Appended(t: seq<int>, r: seq<int>)
    requires Ordered(t) && |r| == |t| + 1 && r[..|t|] == t
    ensures OrderedAbove(r, |t|)
  {
    forall k | 0 < k < |r| && k != |t| ensures OrderAt(r, k) { assert OrderAt(t, k); }
  }

  lemma SameMembers<T>(a: seq<T>, b: seq<T>)
    requires multiset(a) == multiset(b)
    ensures forall x :: x in a <==> x in b
    ensures forall k :: 0 <= k < |a| ==> a[k] in b
  {
    forall x ensures x in a <==> x in b { assert x in a <==> x in multiset(a); }
  }

  lemma OneMemberLess<T>(a: seq<T>, b: seq<T>, y: T)
    requires multiset(a) == multiset(b) - multiset{y} && y !in a
    ensures forall x :: x in a <==> x in b && x != y
  {
    forall x ensures x in a <==> x in b && x != y {
      assert x in a <==> x in multiset(a);
      assert x in b <==> x in multiset(b);
    }
  }

  // x is in order with its children.
  predicate Settled(t: seq<int>, x: nat)
    requires x < |t|
  {
    forall d :: 0 < d < |t| && Parent(d) == x ==> t[x] <= t[d]
  }

  predicate ParentsOutside(t: seq<int>, x: nat) {
    forall k :: 0 < k < |t| && Parent(k) != x ==> OrderAt(t, k)
  }

  lemma DownStops(t: seq<int>, x: nat)
    requires x < |t| && OrderedAround(t, x) && Settled(t, x)
    ensures OrderedAbove(t, x)
    ensures ParentsOutside(t, x) ==> Ordered(t)
  {
    forall k | 0 < k < |t| && k != x ensures OrderAt(t, k) { }
  }

  // Position c is the smaller child of x, or x has no children.
  lemma SmallerChild(t: seq<int>, x: nat, c: nat)
    requires x < |t| && (c == 2 * x + 1 || c == 2 * x + 2)
    requires c < |t| && (2 * x + 1 < |t| ==> t[c] <= t[2 * x + 1]) && (2 * x + 2 < |t| ==> t[c] <= t[2 * x + 2])
    ensures Parent(c) == x && forall d :: 0 < d < |t| && Parent(d) == x ==> t[c] <= t[d]
  {
    forall d | 0 < d < |t| && Parent(d) == x ensures t[c] <= t[d] {
      assert d == 2 * x + 1 || d == 2 * x + 2;
    }
  }

  // Replacing the value at x, wherever it came from, leaves only x out of order.
  lemma Replaced(t: seq<int>, x: nat, v: int)
    requires Ordered(t) && x < |t|
    ensures OrderedAround(t[x := v], x)
  {
    var r := t[x := v];
    forall k | 0 < k < |r| && Parent(k) != x && k != x ensures OrderAt(r, k) { assert OrderAt(t, k); }
    forall c | 0 < c < |r| && Parent(c) == x && x > 0 ensures r[Parent(x)] <= r[c] {
      assert OrderAt(t, c) && OrderAt(t, x);
    }
  }

  lemma OrderedPrefix(t: seq<int>, n: nat)
    requires Ordered(t) && n <= |t|
    ensures Ordered(t[..n])
  {
    forall k | 0 < k < n ensures OrderAt(t[..n], k) { assert OrderAt(t, k); }
  }

  // The root of an ordered heap is a least element.
  lemma {:induction false} RootIsLeast(t: seq<int>, k: nat)
    requires Ordered(t) && k < |t|
    ensures t[0] <= t[k]
    decreases k
  {
    if k > 0 {
      assert OrderAt(t, k);
      RootIsLeast(t, Parent(k));
    }
  }

  // `expired` lists keys of `all` in the order of their deadlines, none twice, none later
  // than any key of `rest`, which holds all the others.
  ghost predicate Drained<K(!new)>(all: map<K, int>, expired: seq<K>, rest: map<K, int>) {
    && (forall k :: k in expired ==> k in all)
    && (forall k :: k in all <==> k in rest || k in expired)
    && (forall k :: k in rest ==> k !in expired && k in all && rest[k] == all[k])
    && (forall i, k :: 0 <= i < |expired| && k in rest ==> all[expired[i]] <= all[k])
    && (forall i, j :: 0 <= i < j < |expired| ==> expired[i] != expired[j] && all[expired[i]] <= all[expired[j]])
  }

  lemma DrainStep<K(!new)>(all: map<K, int>, expired: seq<K>, rest: map<K, int>, key: K)
    requires Drained(all, expired, rest) && key in rest && forall k :: k in rest ==> rest[key] <= rest[k]
    ensures Drained(all, expired + [key], rest - {key})
  {
  }

  // ----- the structure -----

  class Item<K> {
    const key: K
    var expireAt: int
    var index: int

    constructor (key: K, expireAt: int)
      ensures this.key == key && this.expireAt == expireAt
    {
      this.key := key;
      this.expireAt := expireAt;
      index := -1;
    }
  }

  ghost function Times<K>(items: seq<Item<K>>): (t: seq<int>)
    reads items
    ensures |t| == |items|
  {
    seq(|items|, i requires 0 <= i < |items| reads items => items[i].expireAt)
  }

  class Heap<K(==,!new)> {
    var items: seq<Item<K>>
    var keyIndex: map<K, Item<K>>

    // Every item knows its position; in particular no item occurs twice.
    ghost predicate Indexed()
      reads this, items
    {
      forall i :: 0 <= i < |items| ==> items[i].index == i
    }

    // The key map and the slice hold the same items.
    ghost predicate Keyed()
      reads this
    {
      && (forall k :: k in keyIndex ==> keyIndex[k] in items && keyIndex[k].key == k)
      && (forall x :: x in items ==> x.key in keyIndex && keyIndex[x.key] == x)
    }

    ghost predicate Valid()
      reads this, items
    {
      Indexed() && Keyed() && Ordered(Times(items))
    }

    // The abstract value: the deadline of each key.
    ghost function Deadlines(): map<K, int>
      reads this, items
      requires Keyed()
    {
      map k | k in keyIndex :: keyIndex[k].expireAt
    }

    constructor ()
      ensures Valid() && Deadlines() == map[] && items == []
    {
      items := [];
      keyIndex := map[];
    }

    method Swap(i: nat, j: nat)
      requires i < |items| && j < |items| && Indexed()
      modifies this`items, items`index
      ensures items == Exchange(old(items), i, j) && Indexed()
      ensures Times(items) == Exchange(old(Times(items)), i, j)
      ensures multiset(items) == multiset(old(items))
    {
      ExchangePermutes(items, i, j);
      items := items[i := items[j]][j := items[i]];
      items[i].index := i;
      items[j].index := j;
    }

    // container/heap's up, on the first n items.
    method Up(start: nat, n: nat)
      requires start < n <= |items| && Indexed() && OrderedAbove(Times(items)[..n], start)
      modifies this`items, items`index
      ensures |items| == |old(items)| && Indexed() && Ordered(Times(items)[..n])
      ensures multiset(items) == multiset(old(items)) && items[n..] == old(items)[n..]
    {
      var j: nat := start;
      while j > 0 && items[j].expireAt < items[Parent(j)].expireAt
        invariant j < n <= |items| == |old(items)|
        invariant Indexed() && OrderedAbove(Times(items)[..n], j)
        invariant multiset(items) == multiset(old(items)) && items[n..] == old(items)[n..]
      {
        SameMembers(items, old(items));
        j := Rise(j, n);
      }
      UpStops(Times(items)[..n], j);
    }

    // One iteration of up: exchange j with its parent.
    method Rise(j: nat, n: nat) returns (i: nat)
      requires 0 < j < n <= |items| && Indexed() && OrderedAbove(Times(items)[..n], j)
      requires items[j].expireAt < items[Parent(j)].expireAt
      modifies this`items, items`index
      ensures i == Parent(j) && |items| == |old(items)| && Indexed() && OrderedAbove(Times(items)[..n], i)
      ensures multiset(items) == multiset(old(items)) && items[n..] == old(items)[n..]
    {
      i := Parent(j);
      ghost var t := Times(items);
      UpStep(t[..n], j);
      Swap(i, j);
      assert Times(items)[..n] == Exchange(t[..n], i, j);
    }

    // container/heap's down, on the first n items.
    method Down(start: nat, n: nat) returns (moved: bool)
      requires start < n <= |items| && Indexed() && OrderedAround(Times(items)[..n], start)
      modifies this`items, items`index
      ensures |items| == |old(items)| && Indexed()
      ensures if moved then Ordered(Times(items)[..n]) else OrderedAbove(Times(items)[..n], start)
      ensures multiset(items) == multiset(old(items)) && items[n..] == old(items)[n..]
    {
      var i: nat := start;
      var sinking := true;
      while sinking
        invariant start <= i < n <= |items| == |old(items)|
        invariant Indexed() && OrderedAround(Times(items)[..n], i)
        invariant i > start ==> ParentsOutside(Times(items)[..n], i)
        invariant !sinking ==> Settled(Times(items)[..n], i)
        invariant multiset(items) == multiset(old(items)) && items[n..] == old(items)[n..]
        decreases n - i, sinking
      {
        assert forall k :: 0 <= k < |items| ==> items[k] in multiset(old(items));
        i, sinking := Sink(i, n);
      }
      DownStops(Times(items)[..n], i);
      moved := i > start;
    }

    // One iteration of down: exchange i with its smaller child if that is due earlier.
    method Sink(i: nat, n: nat) returns (j: nat, again: bool)
      requires i < n <= |items| && Indexed() && OrderedAround(Times(items)[..n], i)
      modifies this`items, items`index
      ensures |items| == |old(items)| && Indexed() && OrderedAround(Times(items)[..n], j)
      ensures multiset(items) == multiset(old(items)) && items[n..] == old(items)[n..]
      ensures if again then i < j < n && ParentsOutside(Times(items)[..n], j)
              else j == i && items == old(items) && Settled(Times(items)[..n], i)
    {
      hide Heap.Indexed, Exchange;
      if 2 * i + 1 >= n { return i, false; }
      ghost var t := Times(items)[..n];
      j := ChooseChild(i, n);
      if !(items[j].expireAt < items[i].expireAt) { return i, false; }
      DownStep(t, i, j);
      ExchangeWithin(items, i, j, n);
      ExchangeWithin(Times(items), i, j, n);
      Swap(i, j);
      again := true;
    }

    method ChooseChild(i: nat, n: nat) returns (j: nat)
      requires 2 * i + 1 < n <= |items|
      ensures i < j < n && Parent(j) == i
      ensures forall d :: 0 < d < n && Parent(d) == i ==> Times(items)[..n][j] <= Times(items)[..n][d]
    {
      j := 2 * i + 1;
      if j + 1 < n && items[j + 1].expireAt < items[j].expireAt {
        j := j + 1;
      }
      SmallerChild(Times(items)[..n], i, j);
    }

    // container/heap's Fix: the deadline at i has changed.
    method Fix(i: nat)
      requires i < |items| && Indexed() && OrderedAround(Times(items), i)
      modifies this`items, items`index
      ensures Indexed() && Ordered(Times(items)) && multiset(items) == multiset(old(items))
    {
      assert Times(items)[..|items|] == Times(items);
      assert forall k :: 0 <= k < |items| ==> items[k] in multiset(old(items));
      var moved := Down(i, |items|);
      assert Times(items)[..|items|] == Times(items);
      if !moved {
        assert forall k :: 0 <= k < |items| ==> items[k] in multiset(old(items));
        Up(i, |items|);
        assert Times(items)[..|items|] == Times(items);
      }
    }

    // container/heap's Remove (and, for i == 0, Pop) together with the slice's own Pop.
    method RemoveAt(i: nat) returns (item: Item<K>)
      requires i < |items| && Indexed() && Ordered(Times(items))
      modifies this`items, items`index
      ensures item == old(items)[i] && item.index == -1 && item !in items
      ensures Indexed() && Ordered(Times(items))
      ensures multiset(items) == multiset(old(items)) - multiset{item}
    {
      var n := |items| - 1;
      item := items[i];
      if i != n {
        Refill(i, n);
      } else {
        OrderedPrefix(Times(items), n);
      }
      SameMembers(items, old(items));
      DropLast(n, item);
    }

    // The last item takes the place of item i, which ends up last.
    method Refill(i: nat, n: nat)
      requires i < n && n + 1 == |items| && Indexed() && Ordered(Times(items))
      modifies this`items, items`index
      ensures |items| == n + 1 && Indexed() && Ordered(Times(items)[..n]) && items[n] == old(items)[i]
      ensures multiset(items) == multiset(old(items))
    {
      ghost var t := Times(items);
      Swap(i, n);
      Replaced(t, i, t[n]);
      OrderedAroundPrefix(t[i := t[n]], i, n);
      assert Times(items)[..n] == t[i := t[n]][..n];
      SameMembers(items, old(items));
      ghost var last := items[n];
      var moved := Down(i, n);
      assert items[n..][0] == last;
      if !moved {
        SameMembers(items, old(items));
        Up(i, n);
        assert items[n..][0] == last;
      }
    }

    // The slice's Pop: the item at the end leaves the slice.
    method DropLast(n: nat, ghost item: Item<K>)
      requires n + 1 == |items| && Indexed() && Ordered(Times(items)[..n]) && item == items[n]
      modifies this`items, items`index
      ensures item.index == -1 && item !in items && items == old(items)[..n]
      ensures Indexed() && Ordered(Times(items)) && multiset(items) == multiset(old(items)) - multiset{item}
    {
      assert items == items[..n] + [items[n]];
      items[n].index := -1;
      items := items[..n];
      assert Times(items) == old(Times(items)[..n]);
    }

    // Rearranging the slice leaves the key map in agreement with it.
    twostate lemma KeyedKept()
      requires old(Keyed()) && unchanged(`keyIndex)
      requires multiset(items) == multiset(old(items))
      ensures Keyed()
    {
      SameMembers(items, old(items));
    }

    lemma Position(item: Item<K>)
      requires Indexed() && item in items
      ensures 0 <= item.index < |items| && items[item.index] == item
    {
    }

    // Push: schedule, move or (for a deadline that is not positive) cancel.
    method Push(key: K, expireAt: int)
      requires Valid()
      modifies this, items
      ensures Valid() && forall x :: x in items && x !in old(items) ==> fresh(x)
      ensures Deadlines() == if expireAt <= 0 then old(Deadlines()) - {key} else old(Deadlines())[key := expireAt]
    {
      if expireAt <= 0 {
        var _ := Remove(key);
      } else if key in keyIndex {
        Move(key, expireAt);
        SameMembers(items, old(items));
      } else {
        Insert(key, expireAt);
      }
    }

    method Move(key: K, expireAt: int)
      requires Valid() && key in keyIndex
      modifies this, items
      ensures Valid() && multiset(items) == multiset(old(items))
      ensures Deadlines() == old(Deadlines())[key := expireAt]
    {
      var existing := keyIndex[key];
      Position(existing);
      ghost var t := Times(items);
      existing.expireAt := expireAt;
      assert Times(items) == t[existing.index := expireAt];
      Replaced(t, existing.index, expireAt);
      Fix(existing.index);
      KeyedKept();
    }

    method Insert(key: K, expireAt: int)
      requires Valid() && key !in keyIndex
      modifies this, items
      ensures Valid() && forall x :: x in items && x !in old(items) ==> fresh(x)
      ensures Deadlines() == old(Deadlines())[key := expireAt]
    {
      var item := new Item(key, expireAt);
      PushItem(item);
      keyIndex := keyIndex[key := item];
    }

    // container/heap's Push.
    method PushItem(item: Item<K>)
      requires Indexed() && Ordered(Times(items)) && item !in items
      modifies this`items, items`index, item`index
      ensures Indexed() && Ordered(Times(items))
      ensures forall x :: x in items <==> x in old(items) || x == item
    {
      var n := |items|;
      Append(item);
      ghost var before := items;
      Up(n, n + 1);
      assert Times(items)[..n + 1] == Times(items);
      SameMembers(items, before);
    }

    // The slice's Push: the new item goes last and learns its position.
    method Append(item: Item<K>)
      requires Indexed() && Ordered(Times(items)) && item !in items
      modifies this`items, item`index
      ensures items == old(items) + [item] && Indexed()
      ensures OrderedAbove(Times(items)[..|items|], |items| - 1)
    {
      ghost var t := Times(items);
      item.index := |items|;
      items := items + [item];
      Appended(t, Times(items));
      assert Times(items)[..|items|] == Times(items);
    }

    method Remove(key: K) returns (found: bool)
      requires Valid()
      modifies this, items
      ensures Valid() && found == (key in old(keyIndex))
      ensures forall x :: x in items ==> x in old(items)
      ensures Deadlines() == old(Deadlines()) - {key}
    {
      if key !in keyIndex { return false; }
      Position(keyIndex[key]);
      var item := RemoveAt(keyIndex[key].index);
      OneMemberLess(items, old(items), item);
      keyIndex := keyIndex - {key};
      found := true;
    }

    // The earliest deadline, or 0 when nothing is scheduled.
    method PeekExpireAt() returns (t: int)
      requires Valid()
      ensures Deadlines() == map[] ==> t == 0
      ensures Deadlines() != map[] ==> exists k :: k in Deadlines() && Deadlines()[k] == t
      ensures forall k :: k in Deadlines() ==> t <= Deadlines()[k]
    {
      if |items| == 0 { return 0; }
      HeadIsEarliest();
      t := items[0].expireAt;
    }

    lemma HeadIsEarliest()
      requires Valid() && |items| > 0
      ensures items[0].key in keyIndex && Deadlines()[items[0].key] == items[0].expireAt
      ensures forall k :: k in keyIndex ==> items[0].expireAt <= keyIndex[k].expireAt
    {
      assert items[0] in items;
      forall k | k in keyIndex ensures items[0].expireAt <= keyIndex[k].expireAt {
        Position(keyIndex[k]);
        RootIsLeast(Times(items), keyIndex[k].index);
      }
    }

    // Pop from a heap that is not empty: the key with the earliest deadline leaves.
    method TakeHead() returns (key: K, expireAt: int)
      requires Valid() && |items| > 0
      modifies this, items
      ensures Valid() && (forall n :: 0 <= n < |items| ==> items[n] in old(items)) && |items| < |old(items)|
      ensures key == old(items[0].key) && expireAt == old(items[0].expireAt)
      ensures key in old(Deadlines()) && old(Deadlines())[key] == expireAt
      ensures forall k :: k in old(Deadlines()) ==> expireAt <= old(Deadlines())[k]
      ensures Deadlines() == old(Deadlines()) - {key}
    {
      HeadIsEarliest();
      var item := RemoveAt(0);
      OneMemberLess(items, old(items), item);
      assert |multiset(items)| < |multiset(old(items))|;
      keyIndex := keyIndex - {item.key};
      key, expireAt := item.key, item.expireAt;
    }

    // Pop: an earliest deadline leaves, unless there is none.
    method Pop() returns (r: Option<(K, int)>)
      requires Valid()
      modifies this, items
      ensures Valid() && (r.None? <==> old(Deadlines()) == map[])
      ensures r.Some? ==> r.value.0 in old(Deadlines()) && old(Deadlines())[r.value.0] == r.value.1
      ensures r.Some? ==> forall k :: k in old(Deadlines()) ==> r.value.1 <= old(Deadlines())[k]
      ensures Deadlines() == if r.Some? then old(Deadlines()) - {r.value.0} else old(Deadlines())
    {
      assert forall k :: k in keyIndex ==> keyIndex[k] in items;
      if |items| == 0 { return None; }
      var key, expireAt := TakeHead();
      r := Some((key, expireAt));
    }

    // Every key due at `now`, in the order of their deadlines; the later ones stay.
    method PopExpired(now: int) returns (expired: seq<K>)
      requires Valid()
      modifies this, items
      ensures Valid()
      ensures forall k :: k in expired <==> k in old(Deadlines()) && old(Deadlines())[k] <= now
      ensures Drained(old(Deadlines()), expired, Deadlines())
      ensures Deadlines() == map k | k in old(Deadlines()) && old(Deadlines())[k] > now :: old(Deadlines())[k]
    {
      expired := [];
      ghost var all := Deadlines();
      while |items| > 0 && items[0].expireAt <= now
        invariant Valid() && forall n :: 0 <= n < |items| ==> items[n] in old(items)
        invariant Drained(all, expired, Deadlines())
        invariant forall k :: k in expired ==> all[k] <= now
        decreases |items|
      {
        ghost var rest := Deadlines();
        var key, _ := TakeHead();
        DrainStep(all, expired, rest, key);
        expired := expired + [key];
      }
      NothingDue(now);
    }

    lemma NothingDue(now: int)
      requires Valid() && (|items| == 0 || items[0].expireAt > now)
      ensures forall k :: k in Deadlines() ==> Deadlines()[k] > now
    {
      if |items| > 0 { HeadIsEarliest(); }
      assert forall k :: k in keyIndex ==> keyIndex[k] in items;
    }
  }
}
