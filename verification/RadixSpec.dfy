// The radix tree as a value: path-compressed nodes, and the functions `insertNode`,
// `deleteNode` and `Has` compute, with the finite map they stand for.
module RadixSpec {
  import opened Common

  // A node; `leaf` is the key hash of the key ending here, if there is one.
  datatype Trie = Trie(prefix: Str, children: map<Byte, Trie>, leaf: Option<Hash>)

  const EMPTY_ROOT: Trie := Trie([], map[], None)

  function CommonLen(a: Str, b: Str): (n: nat)
    ensures n <= |a| && n <= |b|
    ensures a[..n] == b[..n]
    ensures n < |a| && n < |b| ==> a[n] != b[n]
  {
    if a != [] && b != [] && a[0] == b[0] then
      var n := 1 + CommonLen(a[1..], b[1..]);
      assert a[..n] == [a[0]] + a[1..][..n - 1] && b[..n] == [b[0]] + b[1..][..n - 1];
      n
    else 0
  }

  lemma {:induction false} CommonLenUnique(a: Str, b: Str, n: nat)
    requires n <= |a| && n <= |b| && a[..n] == b[..n]
    requires n < |a| && n < |b| ==> a[n] != b[n]
    ensures n == CommonLen(a, b)
  {
    if n > 0 {
      assert a[0] == a[..n][0] == b[..n][0] == b[0];
      assert a[1..][..n - 1] == a[..n][1..] == b[..n][1..] == b[1..][..n - 1];
      CommonLenUnique(a[1..], b[1..], n - 1);
    }
  }

  lemma CommonLenWhole(p: Str, key: Str)
    ensures CommonLen(p, key) == |p| <==> IsPrefix(p, key)
  {
    if IsPrefix(p, key) { CommonLenUnique(p, key, |p|); }
  }

  // ----- the code, on values -----

  function Insert(n: Trie, key: Str, hash: Hash): Trie
    decreases |key|
  {
    if key == [] then n.(leaf := Some(hash))
    else
      var c := key[0];
      if c !in n.children then
        n.(children := n.children[c := Trie(key, map[], Some(hash))])
      else
        var child := n.children[c];
        var len := CommonLen(child.prefix, key);
        if len == |child.prefix| && len > 0 then
          n.(children := n.children[c := Insert(child, key[len..], hash)])
        else if len < |child.prefix| then
          n.(children := n.children[c := Split(child, len, key[len..], hash)])
        else n
  }

  // A child whose prefix parts from the key after `len` bytes.
  function Split(child: Trie, len: nat, remaining: Str, hash: Hash): Trie
    requires len < |child.prefix|
  {
    var lower := child.(prefix := child.prefix[len..]);
    if remaining == [] then
      Trie(child.prefix[..len], map[child.prefix[len] := lower], Some(hash))
    else
      Trie(child.prefix[..len], map[child.prefix[len] := lower][remaining[0] := Trie(remaining, map[], Some(hash))],
           None)
  }

  function Delete(n: Trie, key: Str): Trie
    decreases |key|
  {
    if key == [] then n.(leaf := None)
    else
      var c := key[0];
      if c !in n.children then n
      else
        var child := n.children[c];
        if child.prefix == [] || !IsPrefix(child.prefix, key) then n
        else CleanUp(n, c, Delete(child, key[|child.prefix|..]))
  }

  // Put `child` back under n: dropped when empty, merged with its only child when it
  // is no longer a leaf.
  function CleanUp(n: Trie, c: Byte, child: Trie): Trie {
    if child.leaf.None? && |child.children| == 0 then n.(children := n.children - {c})
    else if child.leaf.None? && |child.children| == 1 then
      var g := child.children[Only(child.children)];
      n.(children := n.children[c := g.(prefix := child.prefix + g.prefix)])
    else n.(children := n.children[c := child])
  }

  // The key of a one-entry map.
  function Only(m: map<Byte, Trie>): (c: Byte)
    requires |m| == 1
    ensures m.Keys == {c}
  {
    OneKey(m);
    var c :| c in m && m.Keys == {c};
    c
  }

  lemma OneKey(m: map<Byte, Trie>)
    requires |m| == 1
    ensures exists c :: c in m && m.Keys == {c}
    ensures forall c, d :: c in m && d in m ==> c == d
  {
    assert |m.Keys| == 1;
    var c :| c in m.Keys;
    assert m.Keys - {c} == {} by { assert |m.Keys - {c}| == 0; }
    assert m.Keys == {c};
  }

  function Lookup(n: Trie, key: Str): Option<Hash>
    decreases |key|, 1
  {
    if key == [] then n.leaf
    else if key[0] in n.children then LookupBelow(n.children[key[0]], key)
    else None
  }

  function LookupBelow(child: Trie, key: Str): Option<Hash>
    decreases |key|, 0
  {
    if child.prefix == [] || !IsPrefix(child.prefix, key) then None
    else Lookup(child, key[|child.prefix|..])
  }

  // ----- the compressed form -----

  // Children are filed under the first byte of their prefix, and every node below the
  // root ends a key or branches.
  ghost predicate Compressed(n: Trie) {
    forall c :: c in n.children ==>
      var child := n.children[c];
      && child.prefix != [] && child.prefix[0] == c
      && (child.leaf.Some? || |child.children| >= 2)
      && Compressed(child)
  }

  // ----- lookups -----

  lemma PrefixSplit(p: Str, l: nat, k: Str)
    requires l <= |p|
    ensures IsPrefix(p, k) <==> IsPrefix(p[..l], k) && IsPrefix(p[l..], k[l..])
    ensures IsPrefix(p, k) ==> k[l..][|p| - l..] == k[|p|..]
  {
    if IsPrefix(p[..l], k) && IsPrefix(p[l..], k[l..]) {
      assert p == p[..l] + p[l..] == k[..l] + k[l..][..|p| - l] == k[..|p|];
    }
    if IsPrefix(p, k) {
      assert k[..l] == k[..|p|][..l] && k[l..][..|p| - l] == k[..|p|][l..];
    }
  }

  // A key found below a child starts with the child's prefix; the rest is looked up there.
  lemma LookupChild(n: Trie, c: Byte, rest: Str)
    requires Compressed(n) && c in n.children
    ensures n.children[c].prefix != [] && (n.children[c].prefix + rest)[0] == c
    ensures Lookup(n, n.children[c].prefix + rest) == Lookup(n.children[c], rest)
  {
    var p := n.children[c].prefix;
    assert (p + rest)[|p|..] == rest && (p + rest)[..|p|] == p;
  }

  lemma {:induction false} LookupInsert(n: Trie, key: Str, hash: Hash, k: Str)
    requires Compressed(n)
    ensures Lookup(Insert(n, key, hash), k) == if k == key then Some(hash) else Lookup(n, k)
    decreases |key|, 2
  {
    if key != [] && k != [] && k[0] == key[0] {
      if key[0] !in n.children {
        LookupFresh(n, key, hash, k);
      } else {
        CommonLenWhole(n.children[key[0]].prefix, key);
        if IsPrefix(n.children[key[0]].prefix, key) {
          LookupDescend(n, key, hash, k);
        } else {
          LookupSplit(n, key, hash, k);
        }
      }
    }
  }

  lemma LookupFresh(n: Trie, key: Str, hash: Hash, k: Str)
    requires key != [] && key[0] !in n.children && k != [] && k[0] == key[0]
    ensures Lookup(Insert(n, key, hash), k) == if k == key then Some(hash) else Lookup(n, k)
  {
    LookupLone(key, hash, k);
  }

  // A leaf without children holds one key.
  lemma LookupLone(key: Str, hash: Hash, k: Str)
    requires key != []
    ensures LookupBelow(Trie(key, map[], Some(hash)), k) == if k == key then Some(hash) else None
  {
    if IsPrefix(key, k) {
      assert k == key + k[|key|..];
    }
  }

  // Exchanging one child affects only the keys filed under it.
  lemma LookupReplace(n: Trie, c: Byte, x: Trie, k: Str)
    ensures Lookup(n.(children := n.children[c := x]), k) ==
      if k != [] && k[0] == c then LookupBelow(x, k) else Lookup(n, k)
  {
  }

  lemma LookupDescend(n: Trie, key: Str, hash: Hash, k: Str)
    requires key != [] && key[0] in n.children && k != [] && k[0] == key[0]
    requires n.children[key[0]].prefix != [] && IsPrefix(n.children[key[0]].prefix, key)
    requires Compressed(n.children[key[0]])
    ensures Lookup(Insert(n, key, hash), k) == if k == key then Some(hash) else Lookup(n, k)
    decreases |key|, 1
  {
    var child := n.children[key[0]];
    CommonLenWhole(child.prefix, key);
    var lower := Insert(child, key[|child.prefix|..], hash);
    InsertDescends(n, key, hash);
    LookupReplace(n, key[0], lower, k);
    LookupBelowInsert(child, key, hash, k);
  }

  lemma InsertDescends(n: Trie, key: Str, hash: Hash)
    requires key != [] && key[0] in n.children
    requires n.children[key[0]].prefix != [] && IsPrefix(n.children[key[0]].prefix, key)
    ensures Insert(n, key, hash) ==
      n.(children := n.children[key[0] := Insert(n.children[key[0]], key[|n.children[key[0]].prefix|..], hash)])
  {
    CommonLenWhole(n.children[key[0]].prefix, key);
  }

  lemma LookupBelowInsert(child: Trie, key: Str, hash: Hash, k: Str)
    requires Compressed(child) && child.prefix != [] && IsPrefix(child.prefix, key)
    ensures LookupBelow(Insert(child, key[|child.prefix|..], hash), k) == if k == key then Some(hash)
            else LookupBelow(child, k)
    decreases |key|, 0
  {
    var len := |child.prefix|;
    InsertKeepsPrefix(child, key[len..], hash);
    if IsPrefix(child.prefix, k) {
      assert key == key[..len] + key[len..] && k == k[..len] + k[len..];
      LookupInsert(child, key[len..], hash, k[len..]);
    }
  }

  lemma InsertKeepsPrefix(n: Trie, key: Str, hash: Hash)
    ensures Insert(n, key, hash).prefix == n.prefix
  {
  }

  lemma LookupSplit(n: Trie, key: Str, hash: Hash, k: Str)
    requires Compressed(n) && key != [] && key[0] in n.children && k != [] && k[0] == key[0]
    requires !IsPrefix(n.children[key[0]].prefix, key)
    ensures Lookup(Insert(n, key, hash), k) == if k == key then Some(hash) else Lookup(n, k)
  {
    var child := n.children[key[0]];
    CommonLenWhole(child.prefix, key);
    var len := CommonLen(child.prefix, key);
    assert Insert(n, key, hash) == n.(children := n.children[key[0] := Split(child, len, key[len..], hash)]);
    CommonLenPositive(child.prefix, key);
    LookupBelowSplit(child, len, key, hash, k);
  }

  lemma CommonLenPositive(a: Str, b: Str)
    requires a != [] && b != [] && a[0] == b[0]
    ensures CommonLen(a, b) > 0
  {
  }

  lemma LookupBelowSplit(child: Trie, len: nat, key: Str, hash: Hash, k: Str)
    requires 0 < len < |child.prefix| && len <= |key| && key[..len] == child.prefix[..len]
    requires len < |key| ==> key[len] != child.prefix[len]
    ensures LookupBelow(Split(child, len, key[len..], hash), k) == if k == key then Some(hash)
            else LookupBelow(child, k)
  {
    PrefixSplit(child.prefix, len, k);
    assert key == key[..len] + key[len..];
    if IsPrefix(child.prefix[..len], k) {
      assert k == k[..len] + k[len..];
      LookupInSplit(child, len, key[len..], hash, k[len..]);
    }
  }

  lemma LookupInSplit(child: Trie, len: nat, remaining: Str, hash: Hash, rest: Str)
    requires len < |child.prefix| && (remaining != [] ==> remaining[0] != child.prefix[len])
    ensures Lookup(Split(child, len, remaining, hash), rest) ==
      if rest == remaining then Some(hash)
      else if IsPrefix(child.prefix[len..], rest) then Lookup(child, rest[|child.prefix| - len..])
      else None
  {
    var lower := child.(prefix := child.prefix[len..]);
    var t := Split(child, len, remaining, hash);
    if rest != [] && rest[0] == child.prefix[len] {
      assert Lookup(t, rest) == LookupBelow(lower, rest);
      assert forall k :: Lookup(lower, k) == Lookup(child, k);
    } else if rest != [] {
      assert !IsPrefix(child.prefix[len..], rest);
      if remaining != [] { LookupLone(remaining, hash, rest); }
    }
  }

  // ----- deletion -----

  lemma {:induction false} LookupDelete(n: Trie, key: Str, k: Str)
    requires Compressed(n)
    ensures Lookup(Delete(n, key), k) == if k == key then None else Lookup(n, k)
    decreases |key|
  {
    if key != [] && key[0] in n.children && IsPrefix(n.children[key[0]].prefix, key) {
      var child := n.children[key[0]];
      var len := |child.prefix|;
      var lower := Delete(child, key[len..]);
      DeleteKeepsPrefix(child, key[len..]);
      CompressedDelete(child, key[len..]);
      LookupCleanUp(n, key[0], lower, k);
      if IsPrefix(child.prefix, k) {
        LookupDelete(child, key[len..], k[len..]);
        assert key == key[..len] + key[len..] && k == k[..len] + k[len..];
      }
    }
  }

  lemma DeleteKeepsPrefix(n: Trie, key: Str)
    ensures Delete(n, key).prefix == n.prefix
  {
  }

  // Cleaning up a child changes the shape and no lookup.
  lemma LookupCleanUp(n: Trie, c: Byte, child: Trie, k: Str)
    requires Compressed(child) && child.prefix != [] && child.prefix[0] == c
    ensures Lookup(CleanUp(n, c, child), k) == if k != [] && k[0] == c then LookupBelow(child, k) else Lookup(n, k)
  {
    if child.leaf.None? && |child.children| == 0 {
    } else if child.leaf.None? && |child.children| == 1 {
      var d := Only(child.children);
      var g := child.children[d];
      var merged := g.(prefix := child.prefix + g.prefix);
      assert CleanUp(n, c, child) == n.(children := n.children[c := merged]);
      LookupReplace(n, c, merged, k);
      LookupMerged(child, d, k);
    } else {
      LookupReplace(n, c, child, k);
    }
  }

  lemma LookupMerged(child: Trie, d: Byte, k: Str)
    requires Compressed(child) && child.prefix != [] && child.leaf.None? && child.children.Keys == {d}
    ensures LookupBelow(child.children[d].(prefix := child.prefix + child.children[d].prefix), k) ==
            LookupBelow(child, k)
  {
    var g := child.children[d];
    var p := child.prefix + g.prefix;
    PrefixSplit(p, |child.prefix|, k);
    assert p[..|child.prefix|] == child.prefix && p[|child.prefix|..] == g.prefix;
    assert forall x :: Lookup(g.(prefix := p), x) == Lookup(g, x);
    if IsPrefix(child.prefix, k) {
      var rest := k[|child.prefix|..];
      if IsPrefix(g.prefix, rest) {
        assert rest[0] == g.prefix[0] == d;
        assert Lookup(child, rest) == LookupBelow(g, rest) == Lookup(g, k[|p|..]);
      } else {
        assert Lookup(child, rest) == None;
      }
    }
  }

  lemma {:induction false} CompressedDelete(n: Trie, key: Str)
    requires Compressed(n)
    ensures Compressed(Delete(n, key))
    decreases |key|
  {
    if key != [] && key[0] in n.children && IsPrefix(n.children[key[0]].prefix, key) {
      var child := n.children[key[0]];
      CompressedDelete(child, key[|child.prefix|..]);
      DeleteKeepsPrefix(child, key[|child.prefix|..]);
      CompressedCleanUp(n, key[0], Delete(child, key[|child.prefix|..]));
    }
  }

  lemma CompressedCleanUp(n: Trie, c: Byte, child: Trie)
    requires Compressed(n) && Compressed(child) && child.prefix != [] && child.prefix[0] == c
    ensures Compressed(CleanUp(n, c, child))
  {
    if child.leaf.None? && |child.children| == 1 {
      var g := child.children[Only(child.children)];
      var merged := g.(prefix := child.prefix + g.prefix);
      assert Compressed(merged);
    }
  }

  lemma {:induction false} CompressedInsert(n: Trie, key: Str, hash: Hash)
    requires Compressed(n)
    ensures Compressed(Insert(n, key, hash))
    ensures Insert(n, key, hash).leaf.None? ==> n.leaf.None? && |Insert(n, key, hash).children| >= |n.children|
    decreases |key|
  {
    if key != [] && key[0] in n.children {
      var child := n.children[key[0]];
      CommonLenWhole(child.prefix, key);
      CommonLenPositive(child.prefix, key);
      var len := CommonLen(child.prefix, key);
      if len == |child.prefix| {
        CompressedInsert(child, key[len..], hash);
        InsertKeepsPrefix(child, key[len..], hash);
        InsertDescends(n, key, hash);
        CompressedWith(n, key[0], Insert(child, key[len..], hash));
      } else {
        CompressedSplit(child, len, key[len..], hash);
        InsertSplits(n, key, hash);
        CompressedWith(n, key[0], Split(child, len, key[len..], hash));
      }
    } else if key != [] {
      CompressedWith(n, key[0], Trie(key, map[], Some(hash)));
    }
  }

  // Filing a fitting child keeps the compressed form.
  lemma CompressedWith(n: Trie, c: Byte, x: Trie)
    requires Compressed(n) && Compressed(x) && x.prefix != [] && x.prefix[0] == c && (x.leaf.Some? || |x.children| >= 2)
    ensures Compressed(n.(children := n.children[c := x])) && |n.children[c := x]| >= |n.children|
  {
    ReplaceKeepsCount(n.children, c, x);
  }

  lemma InsertSplits(n: Trie, key: Str, hash: Hash)
    requires key != [] && key[0] in n.children &&
             CommonLen(n.children[key[0]].prefix, key) < |n.children[key[0]].prefix|
    ensures var child := n.children[key[0]];
      var len := CommonLen(child.prefix, key);
      Insert(n, key, hash) == n.(children := n.children[key[0] := Split(child, len, key[len..], hash)])
  {
  }

  lemma ReplaceKeepsCount(m: map<Byte, Trie>, c: Byte, x: Trie)
    ensures |m[c := x]| >= |m|
    ensures c in m ==> |m[c := x]| == |m|
  {
    assert m[c := x].Keys == m.Keys + {c};
  }

  lemma CompressedSplit(child: Trie, len: nat, remaining: Str, hash: Hash)
    requires Compressed(child) && 0 < len < |child.prefix| && (child.leaf.Some? || |child.children| >= 2)
    requires remaining != [] ==> remaining[0] != child.prefix[len]
    ensures var t := Split(child, len, remaining, hash);
      Compressed(t) && (t.leaf.Some? || |t.children| >= 2) && t.prefix == child.prefix[..len]
  {
    var t := Split(child, len, remaining, hash);
    if remaining != [] {
      assert t.children.Keys == {child.prefix[len], remaining[0]};
    }
  }

  // ----- the shape is determined by the contents -----

  // Every node below the root leads to some key.
  lemma {:induction false} SomeKey(n: Trie) returns (key: Str)
    requires Compressed(n) && (n.leaf.Some? || |n.children| >= 1)
    ensures Lookup(n, key).Some?
    decreases n
  {
    if n.leaf.Some? {
      key := [];
    } else {
      assert n.children.Keys != {};
      var c :| c in n.children;
      var rest := SomeKey(n.children[c]);
      LookupChild(n, c, rest);
      key := n.children[c].prefix + rest;
    }
  }

  // Two keys of one node, both starting with p only if the node's whole path does.
  lemma PrefixIsForced(n: Trie, path: Str, p: Str)
    requires Compressed(n) && (n.leaf.Some? || |n.children| >= 2)
    requires forall k :: Lookup(n, k).Some? ==> IsPrefix(p, path + k)
    ensures IsPrefix(p, path)
  {
    if n.leaf.Some? {
      assert IsPrefix(p, path + []);
      assert path + [] == path;
    } else {
      var c, d := TwoKeys(n.children);
      var x := SomeKey(n.children[c]);
      var y := SomeKey(n.children[d]);
      LookupChild(n, c, x);
      LookupChild(n, d, y);
      ForkedPrefix(path, n.children[c].prefix + x, n.children[d].prefix + y, p);
    }
  }

  lemma ForkedPrefix(path: Str, x: Str, y: Str, p: Str)
    requires IsPrefix(p, path + x) && IsPrefix(p, path + y)
    requires x != [] && y != [] && x[0] != y[0]
    ensures IsPrefix(p, path)
  {
    CommonLenUnique(path + x, path + y, |path|);
    CommonLenLongest(p, path + x, path + y);
    assert (path + x)[..|p|] == path[..|p|];
  }

  lemma {:induction false} CommonLenLongest(p: Str, a: Str, b: Str)
    requires IsPrefix(p, a) && IsPrefix(p, b)
    ensures |p| <= CommonLen(a, b)
  {
    if p != [] {
      assert p[0] == a[..|p|][0] == b[..|p|][0];
      assert p[1..] == a[..|p|][1..] == a[1..][..|p| - 1] && p[1..] == b[..|p|][1..] == b[1..][..|p| - 1];
      CommonLenLongest(p[1..], a[1..], b[1..]);
    }
  }

  lemma TwoKeys(m: map<Byte, Trie>) returns (c: Byte, d: Byte)
    requires |m| >= 2
    ensures c in m && d in m && c != d
  {
    assert |m.Keys| >= 2;
    c :| c in m.Keys;
    assert |m.Keys - {c}| >= 1;
    d :| d in m.Keys - {c};
  }

  // Two compressed trees with the same contents are the same tree.
  lemma {:induction false} ShapeIsDetermined(a: Trie, b: Trie)
    requires Compressed(a) && Compressed(b) && a.prefix == b.prefix
    requires forall k :: Lookup(a, k) == Lookup(b, k)
    ensures a == b
    decreases a
  {
    assert Lookup(a, []) == Lookup(b, []);
    forall c | c in a.children ensures c in b.children && a.children[c].prefix == b.children[c].prefix {
      SameChild(a, b, c);
      SameChild(b, a, c);
    }
    forall c | c in b.children ensures c in a.children { SameChild(b, a, c); }
    forall c | c in a.children ensures a.children[c] == b.children[c] {
      forall k ensures Lookup(a.children[c], k) == Lookup(b.children[c], k) {
        LookupChild(a, c, k);
        LookupChild(b, c, k);
      }
      ShapeIsDetermined(a.children[c], b.children[c]);
    }
    assert a.children == b.children;
  }

  // With equal contents, a's child c exists in b too, under a prefix that a's extends.
  lemma SameChild(a: Trie, b: Trie, c: Byte)
    requires Compressed(a) && Compressed(b) && c in a.children
    requires forall k :: Lookup(a, k) == Lookup(b, k)
    ensures c in b.children && IsPrefix(b.children[c].prefix, a.children[c].prefix)
  {
    var child := a.children[c];
    AllKeysInOther(a, b, c);
    var x := SomeKey(child);
    PrefixIsForced(child, child.prefix, b.children[c].prefix);
  }

  lemma AllKeysInOther(a: Trie, b: Trie, c: Byte)
    requires Compressed(a) && Compressed(b) && c in a.children
    requires forall k :: Lookup(a, k) == Lookup(b, k)
    ensures forall k :: Lookup(a.children[c], k).Some? ==>
              c in b.children && IsPrefix(b.children[c].prefix, a.children[c].prefix + k)
  {
    forall k { OneKeyInOther(a, b, c, k); }
  }

  lemma OneKeyInOther(a: Trie, b: Trie, c: Byte, k: Str)
    requires Compressed(a) && Compressed(b) && c in a.children
    requires forall x :: Lookup(a, x) == Lookup(b, x)
    ensures Lookup(a.children[c], k).Some? ==>
              c in b.children && IsPrefix(b.children[c].prefix, a.children[c].prefix + k)
  {
    if Lookup(a.children[c], k).Some? {
      KeyInOther(a, b, c, k);
    }
  }

  lemma KeyInOther(a: Trie, b: Trie, c: Byte, k: Str)
    requires Compressed(a) && Compressed(b) && c in a.children && Lookup(a.children[c], k).Some?
    requires Lookup(a, a.children[c].prefix + k) == Lookup(b, a.children[c].prefix + k)
    ensures c in b.children && IsPrefix(b.children[c].prefix, a.children[c].prefix + k)
  {
    LookupChild(a, c, k);
    LookupPath(b, a.children[c].prefix + k);
  }

  lemma LookupPath(n: Trie, key: Str)
    requires Compressed(n) && key != [] && Lookup(n, key).Some?
    ensures key[0] in n.children && IsPrefix(n.children[key[0]].prefix, key)
    ensures Lookup(n, key) == Lookup(n.children[key[0]], key[|n.children[key[0]].prefix|..])
  {
  }

  // Inserting a fresh key and deleting it again restores the very same tree.
  lemma InsertThenDelete(n: Trie, key: Str, hash: Hash)
    requires Compressed(n) && Lookup(n, key).None?
    ensures Delete(Insert(n, key, hash), key) == n
  {
    var t := Insert(n, key, hash);
    CompressedInsert(n, key, hash);
    CompressedDelete(t, key);
    InsertKeepsPrefix(n, key, hash);
    DeleteKeepsPrefix(t, key);
    forall k ensures Lookup(Delete(t, key), k) == Lookup(n, k) {
      LookupDelete(t, key, k);
      LookupInsert(n, key, hash, k);
    }
    ShapeIsDetermined(Delete(t, key), n);
  }

  // ----- the set of keys -----

  function Keys(n: Trie): set<Str>
    decreases n
  {
    (if n.leaf.Some? then {[]} else {}) +
    (set c, k | c in n.children && k in Keys(n.children[c]) :: n.children[c].prefix + k)
  }

  lemma {:induction false} KeysAreLookups(n: Trie, key: Str)
    requires Compressed(n)
    ensures key in Keys(n) <==> Lookup(n, key).Some?
    decreases n, 1
  {
    if key in Keys(n) && key != [] {
      KeyLooksUp(n, key);
    }
    if key != [] && Lookup(n, key).Some? {
      LookupIsKey(n, key);
    }
  }

  lemma {:induction false} KeyLooksUp(n: Trie, key: Str)
    requires Compressed(n) && key != [] && key in Keys(n)
    ensures Lookup(n, key).Some?
    decreases n, 0
  {
    hide Lookup, LookupBelow;
    var c, k :| c in n.children && k in Keys(n.children[c]) && key == n.children[c].prefix + k;
    KeysAreLookups(n.children[c], k);
    LookupChild(n, c, k);
  }

  lemma {:induction false} LookupIsKey(n: Trie, key: Str)
    requires Compressed(n) && key != [] && Lookup(n, key).Some?
    ensures key in Keys(n)
    decreases n, 0
  {
    hide Lookup, LookupBelow;
    var c := key[0];
    LookupPath(n, key);
    var p := n.children[c].prefix;
    KeysAreLookups(n.children[c], key[|p|..]);
    assert key == p + key[|p|..];
  }

  // Keys follows Lookup.
  lemma KeysFromLookups(n: Trie, keys: set<Str>)
    requires Compressed(n) && forall k :: Lookup(n, k).Some? <==> k in keys
    ensures Keys(n) == keys
  {
    hide Keys, Lookup, Compressed;
    forall k ensures k in Keys(n) <==> k in keys { KeysAreLookups(n, k); }
  }

  lemma FoundAfterInsert(n: Trie, key: Str, hash: Hash, k: Str)
    requires Compressed(n)
    ensures Lookup(Insert(n, key, hash), k).Some? <==> k in Keys(n) || k == key
  {
    hide Keys, Lookup, Insert, Compressed;
    LookupInsert(n, key, hash, k);
    KeysAreLookups(n, k);
  }

  lemma KeysInsert(n: Trie, key: Str, hash: Hash)
    requires Compressed(n)
    ensures Keys(Insert(n, key, hash)) == Keys(n) + {key}
  {
    hide Keys, Lookup, Insert, Compressed;
    CompressedInsert(n, key, hash);
    forall k { FoundAfterInsert(n, key, hash, k); }
    KeysFromLookups(Insert(n, key, hash), Keys(n) + {key});
  }

  lemma KeysDelete(n: Trie, key: Str)
    requires Compressed(n)
    ensures Keys(Delete(n, key)) == Keys(n) - {key}
  {
    hide Keys, Lookup, Delete, Compressed;
    CompressedDelete(n, key);
    forall k ensures Lookup(Delete(n, key), k).Some? <==> k in Keys(n) - {key} {
      LookupDelete(n, key, k);
      KeysAreLookups(n, k);
    }
    KeysFromLookups(Delete(n, key), Keys(n) - {key});
  }

  // ----- the tree as a finite set of keys with hashes -----

  lemma InsertRefinesMap(n: Trie, key: Str, hash: Hash, t: Trie)
    requires Compressed(n) && t == Insert(n, key, hash)
    ensures Compressed(t) && t.prefix == n.prefix && Keys(t) == Keys(n) + {key}
    ensures |Keys(t)| == |Keys(n)| + (if key in Keys(n) then 0 else 1)
    ensures key in Keys(n) <==> Lookup(n, key).Some?
  {
    hide Keys, Lookup, Insert, Compressed;
    CompressedInsert(n, key, hash);
    InsertKeepsPrefix(n, key, hash);
    KeysInsert(n, key, hash);
    KeysAreLookups(n, key);
    OneMore(Keys(n), key);
  }

  lemma OneMore(keys: set<Str>, key: Str)
    ensures |keys + {key}| == |keys| + (if key in keys then 0 else 1)
  {
    if key in keys { assert keys + {key} == keys; }
  }

  lemma OneLess(keys: set<Str>, key: Str)
    ensures |keys - {key}| == |keys| - (if key in keys then 1 else 0)
  {
    if key !in keys { assert keys - {key} == keys; }
  }

  lemma DeleteRefinesMap(n: Trie, key: Str, t: Trie)
    requires Compressed(n) && t == Delete(n, key)
    ensures Compressed(t) && t.prefix == n.prefix && Keys(t) == Keys(n) - {key}
    ensures |Keys(t)| == |Keys(n)| - (if key in Keys(n) then 1 else 0)
    ensures key in Keys(n) <==> Lookup(n, key).Some?
  {
    hide Keys, Lookup, Delete, Compressed;
    CompressedDelete(n, key);
    DeleteKeepsPrefix(n, key);
    KeysDelete(n, key);
    KeysAreLookups(n, key);
    OneLess(Keys(n), key);
  }
}
