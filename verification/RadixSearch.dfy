// Prefix search in the radix tree: FindByPrefix and the recursive collectHashes.
module RadixSearch {
  import opened Common
  import opened RadixSpec
  import opened Radix

  // ----- what a search result is -----

  // Distinct keys of t, each with the hash stored for it.
  ghost predicate Listing(t: Trie, keys: seq<Str>, hashes: seq<Hash>) {
    && |keys| == |hashes|
    && (forall i :: 0 <= i < |keys| ==> Lookup(t, keys[i]) == Some(hashes[i]))
    && (forall i, j :: 0 <= i < j < |keys| ==> keys[i] != keys[j])
  }

  ghost predicate AllKeysIn(t: Trie, keys: seq<Str>) {
    forall k :: Lookup(t, k).Some? ==> k in keys
  }

  function Prefixed(p: Str, keys: seq<Str>): (r: seq<Str>)
    ensures |r| == |keys| && forall i :: 0 <= i < |r| ==> r[i] == p + keys[i]
  {
    seq(|keys|, i requires 0 <= i < |keys| => p + keys[i])
  }

  // The keys listed so far come from the node itself and from children no longer in `todo`.
  ghost predicate Covered(t: Trie, keys: seq<Str>, todo: set<Byte>) {
    && (forall i :: 0 <= i < |keys| ==> keys[i] == [] || keys[i][0] !in todo)
    && (forall k :: Lookup(t, k).Some? && (k == [] || k[0] !in todo) ==> k in keys)
  }

  // Listing a child's keys under its prefix extends the parent's listing.
  lemma ExtendListing(t: Trie, keys: seq<Str>, hashes: seq<Hash>, todo: set<Byte>, c: Byte, ck: seq<Str>, ch: seq<Hash>)
    requires Compressed(t) && Listing(t, keys, hashes) && c in todo && c in t.children
    requires forall i :: 0 <= i < |keys| ==> keys[i] == [] || keys[i][0] !in todo
    requires Listing(t.children[c], ck, ch)
    ensures Listing(t, keys + Prefixed(t.children[c].prefix, ck), hashes + ch)
    ensures forall k :: k in keys + Prefixed(t.children[c].prefix, ck) ==> k == [] || k[0] !in todo - {c}
  {
    hide Lookup, LookupBelow, Compressed;
    var p := t.children[c].prefix;
    var more := Prefixed(p, ck);
    forall i | 0 <= i < |ck| ensures Lookup(t, more[i]) == Some(ch[i]) && more[i] != [] && more[i][0] == c {
      LookupChild(t, c, ck[i]);
    }
    forall i, j | 0 <= i < j < |ck| ensures more[i] != more[j] {
      assert more[i][|p|..] == ck[i] && more[j][|p|..] == ck[j];
    }
  }

  lemma ExtendCovered(t: Trie, keys: seq<Str>, todo: set<Byte>, c: Byte, ck: seq<Str>, k: Str)
    requires Compressed(t) && c in todo && c in t.children
    requires Lookup(t, k).Some? && (k == [] || k[0] !in todo) ==> k in keys
    requires AllKeysIn(t.children[c], ck)
    requires Lookup(t, k).Some? && (k == [] || k[0] !in todo - {c})
    ensures k in keys + Prefixed(t.children[c].prefix, ck)
  {
    hide Lookup, LookupBelow, Compressed;
    var p := t.children[c].prefix;
    if k != [] && k[0] == c {
      LookupPath(t, k);
      assert k[|p|..] in ck;
      var i :| 0 <= i < |ck| && ck[i] == k[|p|..];
      assert Prefixed(p, ck)[i] == p + k[|p|..] == k;
    }
  }

  lemma Extend(t: Trie, keys: seq<Str>, hashes: seq<Hash>, todo: set<Byte>, c: Byte, ck: seq<Str>, ch: seq<Hash>)
    requires Compressed(t) && Listing(t, keys, hashes) && Covered(t, keys, todo) && c in todo && c in t.children
    requires Listing(t.children[c], ck, ch)
    ensures Listing(t, keys + Prefixed(t.children[c].prefix, ck), hashes + ch)
    ensures AllKeysIn(t.children[c], ck) ==> Covered(t, keys + Prefixed(t.children[c].prefix, ck), todo - {c})
  {
    hide Lookup, LookupBelow, Compressed;
    ExtendListing(t, keys, hashes, todo, c, ck, ch);
    var all := keys + Prefixed(t.children[c].prefix, ck);
    if AllKeysIn(t.children[c], ck) {
      forall k | Lookup(t, k).Some? && (k == [] || k[0] !in todo - {c}) ensures k in all {
        ExtendCovered(t, keys, todo, c, ck, k);
      }
      assert forall i :: 0 <= i < |all| ==> all[i] in all;
    }
  }

  lemma Start(t: Trie)
    ensures var keys: seq<Str> := if t.leaf.Some? then [[]] else [];
      && Listing(t, keys, if t.leaf.Some? then [t.leaf.value] else [])
      && Covered(t, keys, t.children.Keys)
  {
  }

  lemma Finish(t: Trie, keys: seq<Str>)
    requires Covered(t, keys, {})
    ensures AllKeysIn(t, keys)
  {
  }

  lemma CompressedChild(t: Trie, c: Byte)
    requires Compressed(t) && c in t.children
    ensures Compressed(t.children[c]) && t.children[c].prefix != [] && t.children[c].prefix[0] == c
  {
  }

  // collectHashes: appends hashes of distinct keys below n, stopping at the limit and
  // nowhere else.
  method CollectHashes(n: Node, results: seq<Hash>, limit: nat)
    returns (out: seq<Hash>, ghost keys: seq<Str>, ghost hashes: seq<Hash>)
    requires n.Valid() && Compressed(n.model) && |results| <= limit
    ensures out == results + hashes && |out| <= limit
    ensures Listing(n.model, keys, hashes)
    ensures |out| < limit ==> AllKeysIn(n.model, keys)
    decreases n.repr, 1
  {
    hide Compressed, Listing, Covered, AllKeysIn, Node.Valid;
    n.ValidThroughout();
    out, keys, hashes := results, [], [];
    Start(n.model);
    if |results| >= limit {
      NoListing(n.model);
      return;
    }
    if n.isLeaf {
      out, keys, hashes := out + [n.keyHash], [[]], [n.keyHash];
    }
    out, keys, hashes := CollectChildren(n, results, out, limit, keys, hashes);
  }

  // The loop over the children, in whatever order the map yields them.
  method CollectChildren(n: Node, ghost results: seq<Hash>, soFar: seq<Hash>, limit: nat, ghost k0: seq<Str>,
                         ghost h0: seq<Hash>)
    returns (out: seq<Hash>, ghost keys: seq<Str>, ghost hashes: seq<Hash>)
    requires n.Valid() && Compressed(n.model) && soFar == results + h0 && |soFar| <= limit
    requires Listing(n.model, k0, h0) && Covered(n.model, k0, n.model.children.Keys)
    ensures out == results + hashes && |out| <= limit
    ensures Listing(n.model, keys, hashes)
    ensures |out| < limit ==> AllKeysIn(n.model, keys)
    decreases n.repr, 0
  {
    hide Compressed, Listing, Covered, AllKeysIn, Node.Valid;
    n.ValidThroughout();
    out, keys, hashes := soFar, k0, h0;
    var todo := n.children.Keys;
    while todo != {}
      invariant todo <= n.children.Keys
      invariant out == results + hashes && |out| <= limit
      invariant Listing(n.model, keys, hashes) && Covered(n.model, keys, todo)
      decreases |todo|
    {
      var c :| c in todo;
      CompressedChild(n.model, c);
      ghost var ck, ch;
      out, ck, ch := CollectHashes(n.children[c], out, limit);
      Extend(n.model, keys, hashes, todo, c, ck, ch);
      keys, hashes := keys + Prefixed(n.model.children[c].prefix, ck), hashes + ch;
      if |out| >= limit { return; }
      todo := todo - {c};
    }
    Finish(n.model, keys);
  }

  lemma NoListing(t: Trie)
    ensures Listing(t, [], [])
  {
  }

  // ----- finding where a prefix leads -----

  // Node t sits under the path q, and q is on the way to every key starting with p.
  ghost predicate Leads(root: Trie, p: Str, q: Str, t: Trie) {
    && IsPrefix(p, q)
    && (forall k :: Lookup(root, q + k) == Lookup(t, k))
    && (forall k :: Lookup(root, k).Some? && IsPrefix(p, k) ==> IsPrefix(q, k))
  }

  ghost predicate Reaches(root: Trie, path: Str, t: Trie) {
    forall k :: Lookup(root, path + k) == Lookup(t, k)
  }

  lemma Descend(root: Trie, path: Str, t: Trie, c: Byte)
    requires Reaches(root, path, t) && Compressed(t) && c in t.children
    ensures Reaches(root, path + t.children[c].prefix, t.children[c])
  {
    hide Lookup, LookupBelow, Compressed;
    var p := t.children[c].prefix;
    forall k ensures Lookup(root, (path + p) + k) == Lookup(t.children[c], k) {
      LookupChild(t, c, k);
      assert (path + p) + k == path + (p + k);
    }
  }

  lemma CutPrefix(path: Str, rest: Str, k: Str)
    requires IsPrefix(path + rest, k)
    ensures |path| <= |k| && k == path + k[|path|..] && IsPrefix(rest, k[|path|..])
  {
    assert k[..|path|] == k[..|path + rest|][..|path|] == path;
    assert k[|path|..][..|rest|] == k[..|path + rest|][|path|..] == rest;
  }

  // A key below `path + rest` in the tree is found below `rest` in t.
  lemma KeyBelow(root: Trie, path: Str, t: Trie, rest: Str, k: Str)
    requires Reaches(root, path, t) && Compressed(t) && rest != []
    requires Lookup(root, k).Some? && IsPrefix(path + rest, k)
    ensures rest[0] in t.children
    ensures var p := t.children[rest[0]].prefix;
      IsPrefix(path + p, k) && CommonLen(p, rest) == (if |p| < |rest| then |p| else |rest|)
  {
    hide Lookup, LookupBelow, Compressed;
    var below := k[|path|..];
    CutPrefix(path, rest, k);
    LookupPath(t, below);
    var p := t.children[rest[0]].prefix;
    assert k[..|path + p|] == path + below[..|p|] == path + p;
    var n := if |p| < |rest| then |p| else |rest|;
    assert p[..n] == below[..n] == rest[..n];
    CommonLenUnique(p, rest, n);
  }

  // The loop of FindByPrefix: the node below which every key starting with `prefix` lies,
  // with the whole path to it, or nothing when there is no such key.
  method FindNode(root: Node, prefix: Str) returns (found: bool, n: Node, ghost path: Str)
    requires root.Valid() && Compressed(root.model)
    ensures n.Valid() && Compressed(n.model)
    ensures found ==> Leads(root.model, prefix, path, n.model)
    ensures !found ==> forall k :: Lookup(root.model, k).Some? ==> !IsPrefix(prefix, k)
  {
    hide Lookup, LookupBelow, Compressed, Reaches, Leads, CommonLen, Node.Valid;
    n := root;
    path := [];
    var remaining := prefix;
    Nowhere(root.model);
    while |remaining| > 0
      invariant n.Valid() && Compressed(n.model)
      invariant prefix == path + remaining && Reaches(root.model, path, n.model)
      decreases |remaining|
    {
      n.ValidThroughout();
      var c := remaining[0];
      ghost var t := n.model;
      if c !in n.children {
        NoKeyBelow(root.model, path, t, remaining);
        return false, n, path;
      }
      var child := n.children[c];
      child.ValidThroughout();
      var commonLen := CommonPrefixLen(child.prefix, remaining);
      if commonLen < |remaining| && commonLen < |child.prefix| {
        NoKeyBelow(root.model, path, t, remaining);
        return false, n, path;
      }
      CompressedChild(t, c);
      Descend(root.model, path, t, c);
      if commonLen >= |remaining| {
        InsideEdge(root.model, path, t, remaining);
        path := path + child.prefix;
        return true, child, path;
      }
      CommonLenPositive(child.prefix, remaining);
      path := path + child.prefix;
      n := child;
      remaining := remaining[commonLen..];
    }
    WholePath(root.model, path, n.model);
    found := true;
  }

  lemma WholePath(root: Trie, path: Str, t: Trie)
    requires Reaches(root, path, t)
    ensures Leads(root, path + [], path, t)
  {
    assert path + [] == path;
  }

  lemma NoKeyBelow(root: Trie, path: Str, t: Trie, rest: Str)
    requires Reaches(root, path, t) && Compressed(t) && rest != []
    requires rest[0] in t.children ==>
      CommonLen(t.children[rest[0]].prefix, rest) < |rest| &&
        CommonLen(t.children[rest[0]].prefix, rest) < |t.children[rest[0]].prefix|
    ensures forall k :: Lookup(root, k).Some? ==> !IsPrefix(path + rest, k)
  {
    hide Lookup, LookupBelow, Compressed;
    forall k | Lookup(root, k).Some? ensures !IsPrefix(path + rest, k) {
      if IsPrefix(path + rest, k) { KeyBelow(root, path, t, rest, k); }
    }
  }

  lemma Nowhere(root: Trie)
    ensures Reaches(root, [], root)
  {
    forall k: Str ensures Lookup(root, [] + k) == Lookup(root, k) { assert [] + k == k; }
  }

  // The prefix ends inside the edge to a child: the child's whole path is forced.
  lemma InsideEdge(root: Trie, path: Str, t: Trie, rest: Str)
    requires Reaches(root, path, t) && Compressed(t) && rest != [] && rest[0] in t.children
    requires CommonLen(t.children[rest[0]].prefix, rest) == |rest|
    requires Reaches(root, path + t.children[rest[0]].prefix, t.children[rest[0]])
    ensures Leads(root, path + rest, path + t.children[rest[0]].prefix, t.children[rest[0]])
  {
    hide Lookup, LookupBelow, Compressed;
    var p := t.children[rest[0]].prefix;
    assert (path + p)[..|path + rest|] == path + p[..|rest|] == path + rest;
    forall k | Lookup(root, k).Some? && IsPrefix(path + rest, k) ensures IsPrefix(path + p, k) {
      KeyBelow(root, path, t, rest, k);
    }
  }

  // ----- FindByPrefix -----

  function MatchingKeys(t: Trie, p: Str): set<Str> {
    set k | k in Keys(t) && IsPrefix(p, k)
  }

  // At most `limit` hashes, of distinct stored keys that start with p; fewer than `limit`
  // only when those are all there are.
  ghost predicate SearchResult(t: Trie, p: Str, limit: nat, keys: seq<Str>, hashes: seq<Hash>) {
    && Listing(t, keys, hashes)
    && (forall i :: 0 <= i < |keys| ==> IsPrefix(p, keys[i]))
    && |hashes| == (if |MatchingKeys(t, p)| < limit then |MatchingKeys(t, p)| else limit)
  }

  function Limit(limit: int): nat {
    if limit <= 0 then 100 else limit
  }

  method FindByPrefix(tree: Tree, prefix: Str, limit: int) returns (results: seq<Hash>)
    requires tree.Valid()
    ensures exists keys :: SearchResult(tree.root.model, prefix, Limit(limit), keys, results)
    ensures var n := |MatchingKeys(tree.root.model, prefix)|;
      && (limit > 0 ==> |results| == if n < limit then n else limit)
      && (limit <= 0 ==> |results| == if n < 100 then n else 100)
  {
    hide Lookup, LookupBelow, Compressed, Keys, Leads, Listing, AllKeysIn;
    var found, n, path := FindNode(tree.root, prefix);
    if !found {
      NoMatches(tree.root.model, prefix);
      NoListing(tree.root.model);
      assert SearchResult(tree.root.model, prefix, Limit(limit), [], []);
      return [];
    }
    ghost var below, hashes;
    results, below, hashes := CollectHashes(n, [], Limit(limit));
    assert results == hashes;
    ghost var keys := Prefixed(path, below);
    ListFromRoot(tree.root.model, prefix, path, n.model, below, hashes);
    CountMatches(tree.root.model, prefix, keys, hashes, Limit(limit));
  }

  lemma NoMatches(t: Trie, p: Str)
    requires Compressed(t) && forall k :: Lookup(t, k).Some? ==> !IsPrefix(p, k)
    ensures MatchingKeys(t, p) == {}
  {
    hide Lookup, LookupBelow, Compressed, Keys;
    forall k | k in Keys(t) ensures !IsPrefix(p, k) { KeysAreLookups(t, k); }
  }

  // A listing below a node, read from the root.
  lemma ListFromRoot(root: Trie, p: Str, path: Str, t: Trie, below: seq<Str>, hashes: seq<Hash>)
    requires Compressed(root) && Leads(root, p, path, t) && Listing(t, below, hashes)
    ensures Listing(root, Prefixed(path, below), hashes) && |below| == |hashes|
    ensures forall i :: 0 <= i < |below| ==> IsPrefix(p, Prefixed(path, below)[i])
    ensures AllKeysIn(t, below) ==> forall k :: k in MatchingKeys(root, p) ==> k in Prefixed(path, below)
  {
    hide Lookup, LookupBelow, Compressed, Keys;
    var keys := Prefixed(path, below);
    forall i | 0 <= i < |keys| ensures Lookup(root, keys[i]) == Some(hashes[i]) && IsPrefix(p, keys[i]) {
      assert keys[i] == path + below[i];
      assert keys[i][..|p|] == path[..|p|];
    }
    forall i, j | 0 <= i < j < |keys| ensures keys[i] != keys[j] {
      assert keys[i][|path|..] == below[i] && keys[j][|path|..] == below[j];
    }
    if AllKeysIn(t, below) {
      forall k | k in MatchingKeys(root, p) ensures k in keys {
        KeysAreLookups(root, k);
        assert k == path + k[|path|..];
        var i :| 0 <= i < |below| && below[i] == k[|path|..];
        assert keys[i] == k;
      }
    }
  }

  lemma CountMatches(t: Trie, p: Str, keys: seq<Str>, hashes: seq<Hash>, limit: nat)
    requires Compressed(t) && Listing(t, keys, hashes) && |keys| <= limit
    requires forall i :: 0 <= i < |keys| ==> IsPrefix(p, keys[i])
    requires |keys| < limit ==> forall k :: k in MatchingKeys(t, p) ==> k in keys
    ensures SearchResult(t, p, limit, keys, hashes)
  {
    hide Lookup, LookupBelow, Compressed, Keys;
    forall i | 0 <= i < |keys| ensures keys[i] in MatchingKeys(t, p) { KeysAreLookups(t, keys[i]); }
    DistinctCount(keys, MatchingKeys(t, p));
  }

  lemma {:induction false} DistinctCount(keys: seq<Str>, all: set<Str>)
    requires forall i, j :: 0 <= i < j < |keys| ==> keys[i] != keys[j]
    requires forall i :: 0 <= i < |keys| ==> keys[i] in all
    ensures |keys| <= |all|
    ensures (forall k :: k in all ==> k in keys) ==> |keys| == |all|
  {
    if keys == [] {
      assert (forall k :: k in all ==> k in keys) ==> all == {};
    } else {
      var last := keys[|keys| - 1];
      var rest := keys[..|keys| - 1];
      assert forall k :: k in keys <==> k in rest || k == last;
      DistinctCount(rest, all - {last});
    }
  }
}
