// The radix tree as it is built: nodes on the heap whose prefix, children and leaf flag
// are changed in place.  Each node carries the value it stands for (RadixSpec.Trie).
module Radix {
  import opened Common
  import opened RadixSpec

  class Node {
    var prefix: Str
    var children: map<Byte, Node>
    var isLeaf: bool
    var keyHash: Hash
    ghost var model: Trie
    ghost var repr: set<Node>

    ghost predicate Valid()
      reads this, repr
      decreases repr
    {
      && this in repr
      && model.prefix == prefix
      && model.leaf == (if isLeaf then Some(keyHash) else None)
      && model.children.Keys == children.Keys
      && (forall c :: c in children ==>
            && children[c] in repr && children[c].repr <= repr && this !in children[c].repr
            && children[c].Valid() && model.children[c] == children[c].model)
      && (forall c, d :: c in children && d in children && c != d ==> children[c].repr !! children[d].repr)
    }

    // Valid, whatever has become of the child filed under x; -1 excuses none.
    ghost predicate ValidApart(x: int)
      reads this, repr
    {
      && this in repr
      && model.prefix == prefix
      && model.leaf == (if isLeaf then Some(keyHash) else None)
      && model.children.Keys == children.Keys
      && (forall c :: c in children && c != x ==>
            && children[c] in repr && children[c].repr <= repr && this !in children[c].repr
            && children[c].Valid() && model.children[c] == children[c].model)
      && (forall c, d :: c in children && d in children && c != d && c != x && d != x ==>
         children[c].repr !! children[d].repr)
    }

    lemma ValidThroughout()
      ensures Valid() <==> ValidApart(-1)
    {
    }

    lemma ValidAside(x: int)
      requires Valid()
      ensures ValidApart(x)
    {
    }

    // Work confined to the subtree filed under c leaves the rest of this node valid.
    twostate lemma StillApart(c: Byte)
      requires old(Valid()) && c in old(children) && unchanged(this)
      requires forall o :: o in old(repr) && o !in old(children[c].repr) ==> unchanged(o)
      ensures ValidApart(c)
      ensures forall d :: d in children && d != c ==>
              children[d].repr == old(children[d].repr) && children[d].repr !! old(children[c].repr)
    {
      forall d | d in children && d != c
        ensures children[d].Valid() && children[d].repr == old(children[d].repr) &&
                children[d].model == old(children[d].model)
      {
        assert children[d] in old(children[d].repr);
        assert forall o :: o in old(children[d].repr) ==> unchanged(o);
      }
    }

    method SetLeaf(leaf: bool, hash: Hash)
      requires Valid()
      modifies this`isLeaf, this`keyHash, this`model
      ensures Valid() && model == old(model).(leaf := if leaf then Some(hash) else None)
    {
      hide Node.Valid;
      ValidThroughout();
      isLeaf := leaf;
      keyHash := hash;
      model := model.(leaf := if leaf then Some(hash) else None);
      ValidThroughout();
    }

    method SetPrefix(p: Str)
      requires Valid()
      modifies this`prefix, this`model
      ensures Valid() && prefix == p && model == old(model).(prefix := p)
    {
      prefix := p;
      model := model.(prefix := p);
    }

    method RemoveChild(c: Byte)
      requires Valid()
      modifies this`children, this`model
      ensures Valid() && model == old(model).(children := old(model).children - {c})
    {
      children := children - {c};
      model := model.(children := model.children - {c});
    }

    // File a subtree under c that shares nothing with this node and its other children.
    method SetChild(c: Byte, child: Node)
      requires ValidApart(c) && child in child.repr && child.Valid() && this !in child.repr
      requires forall d :: d in children && d != c ==> children[d].repr !! child.repr
      modifies this
      ensures Valid() && repr == old(repr) + child.repr
      ensures model == old(model).(children := old(model).children[c := child.model])
    {
      hide Node.Valid, Node.ValidApart;
      PutChild(c, child);
      Joined(c);
    }

    // The assignments of SetChild leave the child and the other children valid.
    method PutChild(c: Byte, child: Node)
      requires ValidApart(c) && child.Valid() && this !in child.repr
      requires forall d :: d in children && d != c ==> children[d].repr !! child.repr
      modifies this
      ensures ValidApart(c) && child.Valid() && children == old(children)[c := child] && repr == old(repr) + child.repr
      ensures model == old(model).(children := old(model).children[c := child.model])
      ensures forall d :: d in children && d != c ==> children[d].repr !! child.repr
    {
      hide Node.Valid;
      assert forall d :: d in children && d != c ==> child.repr !! children[d].repr;
      children := children[c := child];
      model := model.(children := model.children[c := child.model]);
      repr := repr + child.repr;
    }

    // With the child under c in order too, the whole node is.
    lemma Joined(c: Byte)
      requires c in children && ValidApart(c)
      requires children[c] in repr && children[c].repr <= repr && this !in children[c].repr
      requires children[c].Valid() && model.children[c] == children[c].model
      requires forall d :: d in children && d != c ==> children[d].repr !! children[c].repr
      ensures Valid()
    {
      hide Node.Valid;
      ValidThroughout();
    }

    constructor (prefix: Str, leaf: Option<Hash>)
      ensures Valid() && fresh(repr) && model == Trie(prefix, map[], leaf)
    {
      this.prefix := prefix;
      children := map[];
      isLeaf := leaf.Some?;
      keyHash := if leaf.Some? then leaf.value else 0;
      model := Trie(prefix, map[], leaf);
      repr := {this};
    }
  }

  method CommonPrefixLen(a: Str, b: Str) returns (n: nat)
    ensures n == CommonLen(a, b)
  {
    var maxLen := if |b| < |a| then |b| else |a|;
    n := 0;
    while n < maxLen
      invariant n <= maxLen && a[..n] == b[..n]
    {
      if a[n] != b[n] {
        break;
      }
      n := n + 1;
    }
    CommonLenUnique(a, b, n);
  }

  // insertNode: true when a new leaf was created.
  method InsertNode(n: Node, key: Str, hash: Hash) returns (isNew: bool)
    requires n.Valid() && Compressed(n.model)
    modifies n.repr
    ensures n.Valid() && fresh(n.repr - old(n.repr))
    ensures n.model == Insert(old(n.model), key, hash)
    ensures isNew == Lookup(old(n.model), key).None?
    decreases |key|, 1
  {
    hide Node.Valid, Compressed, Lookup, Insert;
    n.ValidThroughout();
    if |key| == 0 {
      InsertHere(n.model, key, hash);
      isNew := !n.isLeaf;
      n.SetLeaf(true, hash);
      return;
    }
    var c := key[0];
    if c !in n.children {
      InsertHere(n.model, key, hash);
      var added := new Node(key, Some(hash));
      n.ValidAside(c);
      n.SetChild(c, added);
      return true;
    }
    isNew := InsertExisting(n, key, hash);
  }

  // Insertion at the node itself.
  lemma InsertHere(n: Trie, key: Str, hash: Hash)
    ensures key == [] ==> Insert(n, key, hash) == n.(leaf := Some(hash)) && Lookup(n, key) == n.leaf
    ensures key != [] && key[0] !in n.children ==>
      Insert(n, key, hash) == n.(children := n.children[key[0] := Trie(key, map[], Some(hash))]) && Lookup(n, key).None?
  {
  }

  // insertNode, from the point where a child is filed under the key's first byte.
  method InsertExisting(n: Node, key: Str, hash: Hash) returns (isNew: bool)
    requires n.Valid() && Compressed(n.model) && key != [] && key[0] in n.children
    modifies n.repr
    ensures n.Valid() && fresh(n.repr - old(n.repr))
    ensures n.model == Insert(old(n.model), key, hash)
    ensures isNew == Lookup(old(n.model), key).None?
    decreases |key|, 0
  {
    InsertShape(n.model, key, hash);
    var child := n.children[key[0]];
    var commonLen := CommonPrefixLen(child.prefix, key);
    if commonLen == |child.prefix| {
      isNew := InsertBelow(n, key[0], key[commonLen..], hash);
    } else {
      SplitChild(n, key[0], commonLen, key[commonLen..], hash);
      isNew := true;
    }
  }

  method InsertBelow(n: Node, c: Byte, rest: Str, hash: Hash) returns (isNew: bool)
    requires n.Valid() && c in n.children && Compressed(n.model.children[c])
    modifies n.repr
    ensures n.Valid() && fresh(n.repr - old(n.repr))
    ensures n.model ==
            old(n.model).(children := old(n.model).children[c := Insert(old(n.model).children[c], rest, hash)])
    ensures isNew == Lookup(old(n.model).children[c], rest).None?
    decreases |rest|, 2
  {
    var child := n.children[c];
    isNew := InsertNode(child, rest, hash);
    n.StillApart(c);
    n.SetChild(c, child);
  }

  method SplitChild(n: Node, c: Byte, len: nat, remaining: Str, hash: Hash)
    requires n.Valid() && c in n.children && len < |n.model.children[c].prefix|
    requires remaining != [] ==> remaining[0] != n.model.children[c].prefix[len]
    modifies n.repr
    ensures n.Valid() && fresh(n.repr - old(n.repr))
    ensures n.model ==
            old(n.model).(children := old(n.model).children[c := Split(old(n.model).children[c], len, remaining, hash)])
  {
    var newChild := SplitNode(n.children[c], len, remaining, hash);
    n.StillApart(c);
    n.SetChild(c, newChild);
  }

  // What insertion does to the child on the key's path.
  lemma InsertShape(n: Trie, key: Str, hash: Hash)
    requires Compressed(n) && key != [] && key[0] in n.children
    ensures var child := n.children[key[0]];
      var len := CommonLen(child.prefix, key);
      && 0 < len
      && (len == |child.prefix| ==>
            Insert(n, key, hash) == n.(children := n.children[key[0] := Insert(child, key[len..], hash)])
            && Lookup(n, key) == Lookup(child, key[len..]))
      && (len < |child.prefix| ==>
            Insert(n, key, hash) == n.(children := n.children[key[0] := Split(child, len, key[len..], hash)])
            && Lookup(n, key).None?)
  {
    CommonLenPositive(n.children[key[0]].prefix, key);
    CommonLenWhole(n.children[key[0]].prefix, key);
  }

  // The split of insertNode: the old child and the new key hang below the common prefix.
  method SplitNode(child: Node, len: nat, remaining: Str, hash: Hash) returns (newChild: Node)
    requires child.Valid() && len < |child.prefix| && (remaining != [] ==> remaining[0] != child.prefix[len])
    modifies child
    ensures newChild.Valid() && newChild.model == Split(old(child.model), len, remaining, hash)
    ensures fresh(newChild.repr - old(child.repr))
  {
    hide Node.Valid;
    child.ValidThroughout();
    newChild := new Node(child.prefix[..len], None);
    child.SetPrefix(child.prefix[len..]);
    newChild.ValidAside(child.prefix[0] as int);
    newChild.SetChild(child.prefix[0], child);
    if |remaining| == 0 {
      newChild.SetLeaf(true, hash);
    } else {
      var added := new Node(remaining, Some(hash));
      newChild.ValidAside(remaining[0] as int);
      newChild.SetChild(remaining[0], added);
    }
  }

  // deleteNode: true when the key was present.
  method DeleteNode(n: Node, key: Str) returns (deleted: bool)
    requires n.Valid() && Compressed(n.model)
    modifies n.repr
    ensures n.Valid() && n.repr <= old(n.repr)
    ensures n.model == Delete(old(n.model), key)
    ensures deleted == Lookup(old(n.model), key).Some?
    decreases |key|, 1
  {
    if |key| == 0 {
      deleted := n.isLeaf;
      n.SetLeaf(false, 0);
      return;
    }
    var c := key[0];
    if c !in n.children { return false; }
    var child := n.children[c];
    var commonLen := CommonPrefixLen(child.prefix, key);
    CommonLenWhole(child.prefix, key);
    if commonLen < |child.prefix| { return false; }
    DeleteShape(n.model, key);
    deleted := DeleteBelow(n, c, key[commonLen..]);
  }

  lemma DeleteShape(n: Trie, key: Str)
    requires Compressed(n) && key != [] && key[0] in n.children && IsPrefix(n.children[key[0]].prefix, key)
    ensures var child := n.children[key[0]];
      && Delete(n, key) == CleanUp(n, key[0], Delete(child, key[|child.prefix|..]))
      && Lookup(n, key) == Lookup(child, key[|child.prefix|..])
  {
  }

  method DeleteBelow(n: Node, c: Byte, rest: Str) returns (deleted: bool)
    requires n.Valid() && c in n.children && Compressed(n.model.children[c])
    modifies n.repr
    ensures n.Valid() && n.repr <= old(n.repr)
    ensures n.model == CleanUp(old(n.model), c, Delete(old(n.model).children[c], rest))
    ensures deleted == Lookup(old(n.model).children[c], rest).Some?
    decreases |rest|, 2
  {
    var child := n.children[c];
    deleted := DeleteNode(child, rest);
    n.StillApart(c);
    n.SetChild(c, child);
    ghost var before := n.model;
    CleanUpChild(n, c);
    CleanUpTwice(old(n.model), c, before.children[c]);
  }

  lemma CleanUpTwice(n: Trie, c: Byte, child: Trie)
    ensures CleanUp(n.(children := n.children[c := child]), c, child) == CleanUp(n, c, child)
  {
    assert n.children[c := child] - {c} == n.children - {c};
    assert n.children[c := child][c := child] == n.children[c := child];
    if child.leaf.None? && |child.children| == 1 {
      var g := child.children[Only(child.children)];
      assert n.children[c := child][c := g.(prefix := child.prefix + g.prefix)] ==
             n.children[c := g.(prefix := child.prefix + g.prefix)];
    }
  }

  // The clean-up of deleteNode: drop an empty child, merge one that no longer branches.
  method CleanUpChild(n: Node, c: Byte)
    requires n.Valid() && c in n.children
    modifies n.repr
    ensures n.Valid() && n.repr <= old(n.repr)
    ensures n.model == CleanUp(old(n.model), c, old(n.model).children[c])
  {
    var child := n.children[c];
    assert |child.children| == |child.children.Keys| == |child.model.children.Keys| == |child.model.children|;
    if !child.isLeaf && |child.children| == 0 {
      n.RemoveChild(c);
    } else if !child.isLeaf && |child.children| == 1 {
      MergeChild(n, c);
    } else {
      assert n.model.children[c := child.model] == n.model.children;
    }
  }

  method MergeChild(n: Node, c: Byte)
    requires n.Valid() && c in n.children && |n.children[c].model.children| == 1
    modifies n.repr
    ensures n.Valid() && n.repr <= old(n.repr)
    ensures var child := old(n.model).children[c];
      var g := child.children[Only(child.children)];
      n.model == old(n.model).(children := old(n.model).children[c := g.(prefix := child.prefix + g.prefix)])
  {
    var child := n.children[c];
    OneKey(child.model.children);
    var d :| d in child.children;
    assert d == Only(child.model.children);
    var grandchild := child.children[d];
    grandchild.SetPrefix(child.prefix + grandchild.prefix);
    n.StillApart(c);
    n.SetChild(c, grandchild);
  }

  // The search loop of Has, from the root.
  method HasKey(root: Node, key: Str) returns (found: bool)
    requires root.Valid() && Compressed(root.model)
    ensures found == Lookup(root.model, key).Some?
  {
    var n := root;
    var remaining := key;
    while |remaining| > 0
      invariant n.Valid() && Compressed(n.model)
      invariant Lookup(n.model, remaining) == Lookup(root.model, key)
      decreases |remaining|
    {
      var c := remaining[0];
      if c !in n.children { return false; }
      var child := n.children[c];
      var commonLen := CommonPrefixLen(child.prefix, remaining);
      CommonLenWhole(child.prefix, remaining);
      if commonLen < |child.prefix| { return false; }
      assert Lookup(n.model, remaining) == Lookup(child.model, remaining[commonLen..]);
      if commonLen == |remaining| {
        assert remaining[commonLen..] == [];
        return child.isLeaf;
      }
      n := child;
      remaining := remaining[commonLen..];
    }
    found := n.isLeaf;
  }

  class Tree {
    var root: Node
    var size: int

    ghost predicate Valid()
      reads this, root, root.repr
    {
      && root.Valid() && Compressed(root.model) && root.model.prefix == []
      && size == |Keys(root.model)|
    }

    // The keys stored, and the hash stored with each.
    ghost function Stored(): set<Str>
      reads this, root
    {
      Keys(root.model)
    }

    lemma InShape()
      requires Valid()
      ensures Compressed(root.model)
    {
    }

    constructor ()
      ensures Valid() && fresh(root) && fresh(root.repr) && root.model == EMPTY_ROOT
    {
      root := new Node([], None);
      size := 0;
    }

    method InsertKey(key: Str, hash: Hash)
      requires Valid()
      modifies this, root.repr
      ensures Valid() && root == old(root) && fresh(root.repr - old(root.repr))
      ensures root.model == Insert(old(root.model), key, hash)
      ensures Stored() == old(Stored()) + {key}
      ensures size == old(size) + (if key in old(Stored()) then 0 else 1)
    {
      hide Keys, Compressed, Insert, Lookup;
      ghost var was := root.model;
      var isNew := InsertNode(root, key, hash);
      if isNew { size := size + 1; }
      InsertRefinesMap(was, key, hash, root.model);
    }

    method DeleteKey(key: Str) returns (deleted: bool)
      requires Valid()
      modifies this, root.repr
      ensures Valid() && root == old(root) && root.repr <= old(root.repr)
      ensures root.model == Delete(old(root.model), key)
      ensures Stored() == old(Stored()) - {key}
      ensures deleted == (key in old(Stored())) && size == old(size) - (if deleted then 1 else 0)
    {
      hide Keys, Compressed, Delete, Lookup;
      ghost var was := root.model;
      deleted := DeleteNode(root, key);
      if deleted { size := size - 1; }
      DeleteRefinesMap(was, key, root.model);
    }

    method Has(key: Str) returns (found: bool)
      requires Valid()
      ensures found == (key in Stored())
    {
      found := HasKey(root, key);
      KeysAreLookups(root.model, key);
    }

    method Clear()
      requires Valid()
      modifies this
      ensures Valid() && fresh(root) && fresh(root.repr) && root.model == EMPTY_ROOT && size == 0
    {
      root := new Node([], None);
      size := 0;
    }
  }
}
