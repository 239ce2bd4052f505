/**
 The B-tree memtable as the object it is: nodes whose key, value and child lists change in place.

 `Tree()` reads the value of a node off the heap; every method is proved against the function
 of `BTreeSpec` that says what it does to that value, and `BTreeMemTable` draws the conclusion
 for callers: each insertion is one map update and keeps every B-tree invariant.
 */
module BTree {
  import opened Wrappers
  import opened StringOrder
  import opened BTreeSpec

  class BTreeNode<V> {
    var leaf: bool
    var keys: seq<string>
    var values: seq<V>
    var children: seq<BTreeNode<V>>

    ghost var Repr: set<BTreeNode<V>>

    constructor (leaf: bool)
      ensures Valid() && fresh(Repr) && Repr == {this}
      ensures this.leaf == leaf && keys == [] && values == [] && children == []
    {
      this.leaf, keys, values, children := leaf, [], [], [];
      Repr := {this};
    }

    /** The nodes below this one form a tree: no node is reachable twice. */
    ghost predicate Valid()
      reads this, Repr
      ensures Valid() ==> this in Repr
      decreases Repr
    {
      && this in Repr
      && (forall c | c in children :: c in Repr && c.Repr <= Repr && this !in c.Repr && c.Valid())
      && (forall i, j | 0 <= i < j < |children| :: children[i].Repr !! children[j].Repr)
    }

    ghost function Tree(): (tr: Tree<V>)
      requires Valid()
      reads this, Repr
      ensures tr.leaf == leaf && tr.keys == keys && tr.vals == values && |tr.kids| == |children|
      ensures forall i | 0 <= i < |children| :: tr.kids[i] == children[i].Tree()
      decreases Repr
    {
      Node(leaf, keys, values,
           seq(|children|, i requires 0 <= i < |children| && children[i] in Repr && children[i].Repr <= Repr
                             requires this in Repr && this !in children[i].Repr && children[i].Valid()
                             reads this, Repr
                             => children[i].Tree()))
    }
  }

  /** What validity says about a node and its children, one level deep. */
  ghost predicate Owns<V>(n: BTreeNode<V>)
    reads n, n.children`Repr
  {
    && n in n.Repr
    && (forall i | 0 <= i < |n.children| ::
          n.children[i] in n.Repr && n.children[i].Repr <= n.Repr && n !in n.children[i].Repr)
    && (forall i, j | 0 <= i < j < |n.children| :: n.children[i].Repr !! n.children[j].Repr)
  }

  lemma Open<V>(n: BTreeNode<V>)
    requires n.Valid()
    ensures Owns(n) && forall i | 0 <= i < |n.children| :: n.children[i].Valid()
  {}

  lemma OpenTree<V>(n: BTreeNode<V>)
    requires n.Valid()
    ensures var tr := n.Tree();
            && tr.leaf == n.leaf && tr.keys == n.keys && tr.vals == n.values && |tr.kids| == |n.children|
            && forall i | 0 <= i < |n.children| :: n.children[i].Valid() && n.children[i].Tree() == tr.kids[i]
  {}

  lemma Assemble<V>(n: BTreeNode<V>)
    requires Owns(n) && forall i | 0 <= i < |n.children| :: n.children[i].Valid()
    ensures n.Valid()
  {}

  /** A node over valid children with disjoint footprints is valid, and its tree is made of theirs. */
  lemma AssembleAs<V>(n: BTreeNode<V>, kids: seq<Tree<V>>)
    requires Owns(n) && |kids| == |n.children|
    requires forall i | 0 <= i < |n.children| :: n.children[i].Valid() && n.children[i].Tree() == kids[i]
    ensures n.Valid() && n.Tree() == Node(n.leaf, n.keys, n.values, kids)
  {
    hide BTreeNode.Valid, BTreeNode.Tree;
    Assemble(n);
    assert n.Tree().kids == kids;
  }

  /** The footprints of a list of nodes. */
  ghost function Footprints<V>(cs: seq<BTreeNode<V>>): (fs: seq<set<BTreeNode<V>>>)
    reads cs
    ensures |fs| == |cs| && forall i | 0 <= i < |cs| :: fs[i] == cs[i].Repr
  {
    seq(|cs|, i requires 0 <= i < |cs| reads cs => cs[i].Repr)
  }

  ghost function Union<T>(fs: seq<set<T>>): (u: set<T>)
    ensures forall i | 0 <= i < |fs| :: fs[i] <= u
    ensures forall o | o in u :: exists i :: 0 <= i < |fs| && o in fs[i]
  {
    if fs == [] then {} else fs[0] + Union(fs[1..])
  }

  /** The footprints of a list cut in two: each part covers its own, and the parts are disjoint. */
  lemma UnionParts<T>(fs: seq<set<T>>, t: nat, whole: set<T>)
    requires t <= |fs| && forall i | 0 <= i < |fs| :: fs[i] <= whole
    requires forall i, j | 0 <= i < j < |fs| :: fs[i] !! fs[j]
    ensures forall i | 0 <= i < t :: fs[i] <= Union(fs[..t])
    ensures forall i | t <= i < |fs| :: fs[i] <= Union(fs[t..])
    ensures Union(fs[..t]) <= whole && Union(fs[t..]) <= whole && Union(fs[..t]) !! Union(fs[t..])
  {
    var A, B := Union(fs[..t]), Union(fs[t..]);
    forall i | 0 <= i < t ensures fs[i] <= A { assert fs[..t][i] == fs[i]; }
    forall i | t <= i < |fs| ensures fs[i] <= B { assert fs[t..][i - t] == fs[i]; }
    forall o | o in A ensures o in whole && o !in B {
      var i :| 0 <= i < t && o in fs[..t][i];
      assert forall j | 0 <= j < |fs[t..]| :: fs[i] !! fs[t..][j];
    }
    forall o | o in B ensures o in whole {
      var j :| 0 <= j < |fs[t..]| && o in fs[t..][j];
    }
  }

  /** A search for `key` continues from `a` to its child `b`. */
  ghost predicate Hop<V>(a: BTreeNode<V>, b: BTreeNode<V>, key: string)
    reads a
  {
    var i := Slot(a.keys, key);
    && !a.leaf && i < |a.children| && a.children[i] == b
    && (i < |a.keys| ==> a.keys[i] != key)
  }

  /** `path` leads from `path[0]` to the node whose own key list holds `key`. */
  ghost predicate LeadsTo<V>(path: seq<BTreeNode<V>>, key: string)
    reads path
  {
    && path != []
    && (forall d | 0 <= d < |path| - 1 :: Hop(path[d], path[d + 1], key))
    && var last := path[|path| - 1]; Slot(last.keys, key) < |last.keys| && last.keys[Slot(last.keys, key)] == key
  }

  /** Everything on a path from a valid node is valid and holds the end of the path. */
  lemma {:induction false} PathInside<V>(path: seq<BTreeNode<V>>, key: string, t: nat, h: nat)
    requires LeadsTo(path, key) && path[0].Valid() && Shape(path[0].Tree(), t, h)
    ensures forall d | 0 <= d < |path| ::
              path[d].Valid() && path[|path| - 1] in path[d].Repr && |path[d].values| == |path[d].keys|
    decreases |path|
  {
    if |path| > 1 {
      assert Hop(path[0], path[1], key) && path[1] in path[0].children;
      assert forall d | 0 <= d < |path| - 1 :: path[1..][d] == path[d + 1];
      PathInside(path[1..], key, t, h - 1);
      forall d | 0 < d < |path|
        ensures path[d].Valid() && path[|path| - 1] in path[d].Repr && |path[d].values| == |path[d].keys|
      {
        assert path[d] == path[1..][d - 1];
      }
    }
  }

  /** One level of the linear descent. */
  lemma LookupStep<V>(tr: Tree<V>, key: string, t: nat, h: nat)
    requires Shape(tr, t, h)
    ensures |tr.vals| == |tr.keys| && (tr.leaf <==> h == 0)
    ensures var i := Slot(tr.keys, key);
            if i < |tr.keys| && tr.keys[i] == key then Lookup(tr, key) == Some(tr.vals[i])
            else if tr.leaf then Lookup(tr, key) == None
            else i < |tr.kids| && Shape(tr.kids[i], t, h - 1) && |tr.kids[i].vals| == |tr.kids[i].keys|
                 && Lookup(tr, key) == Lookup(tr.kids[i], key)
  {
    if h > 0 { assert Shape(tr.kids[Slot(tr.keys, key)], t, h - 1); }
  }

  ghost function Trees<V>(path: seq<BTreeNode<V>>): (trees: seq<Tree<V>>)
    requires forall d | 0 <= d < |path| :: path[d].Valid()
    reads path, set d, o | 0 <= d < |path| && o in path[d].Repr :: o
    ensures |trees| == |path| && forall d | 0 <= d < |path| :: trees[d] == path[d].Tree()
  {
    if path == [] then [] else [path[0].Tree()] + Trees(path[1..])
  }

  /** All nodes below `p` but those under the child the search goes on in. */
  ghost function SideNodes<V>(p: BTreeNode<V>, key: string): set<BTreeNode<V>>
    reads p, p.children`Repr
  {
    set j, o | 0 <= j < |p.children| && j != Slot(p.keys, key) && o in p.children[j].Repr :: o
  }

  /** The node is that of `tr`, and so are all its children but the one the search goes on in. */
  ghost predicate Beside<V>(p: BTreeNode<V>, key: string, tr: Tree<V>)
    reads p, p.children`Repr, SideNodes(p, key)
  {
    && p.leaf == tr.leaf && p.keys == tr.keys && p.values == tr.vals && |p.children| == |tr.kids|
    && forall j | 0 <= j < |p.children| && j != Slot(p.keys, key) ::
         p.children[j] in p.children[j].Repr && p.children[j].Valid() && p.children[j].Tree() == tr.kids[j]
  }

  ghost predicate OnWay<V>(tr: Tree<V>, sub: Tree<V>, key: string) {
    var i := Slot(tr.keys, key);
    && |tr.vals| == |tr.keys| && |sub.vals| == |sub.keys|
    && !tr.leaf && i < |tr.kids| && tr.kids[i] == sub && (i < |tr.keys| ==> tr.keys[i] != key)
  }

  lemma PathParts<V>(path: seq<BTreeNode<V>>, key: string)
    ensures LeadsTo(path, key) <==>
              && path != []
              && (forall d | 0 <= d < |path| - 1 :: Hop(path[d], path[d + 1], key))
              && var keys := path[|path| - 1].keys; Slot(keys, key) < |keys| && keys[Slot(keys, key)] == key
  {}

  /** On a path from a valid node, the end lies in no side branch. */
  lemma PathBeside<V>(path: seq<BTreeNode<V>>, key: string, t: nat, h: nat, d: nat)
    requires LeadsTo(path, key) && path[0].Valid() && Shape(path[0].Tree(), t, h) && d < |path| - 1
    ensures path[d].Valid() && path[d + 1].Valid() && Owns(path[d])
    ensures Beside(path[d], key, path[d].Tree()) && OnWay(path[d].Tree(), path[d + 1].Tree(), key)
    ensures path[|path| - 1] != path[d] && path[|path| - 1] !in SideNodes(path[d], key)
  {
    hide Slot, Shape, BTreeNode.Valid, BTreeNode.Tree;
    PathInside(path, key, t, h);
    Open(path[d]);
    assert Hop(path[d], path[d + 1], key);
    forall j | 0 <= j < |path[d].children| { Open(path[d].children[j]); }
  }

  /** A change at the end of a path is a change of the tree at its start. */
  lemma {:induction false} Lifted<V>(path: seq<BTreeNode<V>>, key: string, v: V, trees: seq<Tree<V>>)
    requires LeadsTo(path, key) && |trees| == |path|
    requires forall d | 0 <= d < |path| - 1 ::
               Owns(path[d]) && Beside(path[d], key, trees[d]) && OnWay(trees[d], trees[d + 1], key)
    requires var n, tr := path[|path| - 1], trees[|path| - 1];
             n.Valid() && |tr.vals| == |tr.keys| && n.Tree() == UpdateTree(tr, key, v)
    ensures |trees[0].vals| == |trees[0].keys| && path[0].Valid() && path[0].Tree() == UpdateTree(trees[0], key, v)
    decreases |path|
  {
    hide Slot, UpdateTree, BTreeNode.Valid, BTreeNode.Tree;
    if |path| > 1 {
      var p, i := path[0], Slot(path[0].keys, key);
      assert Hop(path[0], path[1], key) && Beside(p, key, trees[0]) && OnWay(trees[0], trees[1], key);
      assert forall d | 0 <= d < |path| - 1 :: path[1..][d] == path[d + 1] && trees[1..][d] == trees[d + 1];
      Lifted(path[1..], key, v, trees[1..]);
      UpdateStep(trees[0], key, v);
      AssembleAs(p, trees[0].kids[i := UpdateTree(trees[1], key, v)]);
    }
  }

  class BTreeMemTable<V> {
    const t: nat
    var root: BTreeNode<V>
    var size: nat

    ghost var height: nat
    ghost var Repr: set<object>

    ghost predicate Valid()
      reads this, Repr
      ensures Valid() ==> this in Repr
    {
      && this in Repr && root in Repr && root.Repr <= Repr
      && t >= 2 && root.Valid()
      && RootShape(root.Tree(), t, height)
      && Sorted(Inorder(root.Tree()))
      && size == |Contents()|
    }

    /** The map the tree stands for. */
    ghost function Contents(): map<string, V>
      requires root.Valid()
      reads this, root, root.Repr
    {
      ToMap(Inorder(root.Tree()))
    }

    /** `_find_node_and_index`: a left-to-right scan in every node on the way down. */
    method FindNodeAndIndex(node: BTreeNode<V>, key: string, ghost h: nat)
      returns (n: BTreeNode?<V>, idx: int, ghost path: seq<BTreeNode<V>>)
      requires node.Valid() && Shape(node.Tree(), t, h)
      ensures n == null ==> idx == -1 && Lookup(node.Tree(), key) == None
      ensures n != null ==>
                && n in node.Repr
                && LeadsTo(path, key) && path[0] == node && path[|path| - 1] == n
                && idx == Slot(n.keys, key) && |n.values| == |n.keys|
                && Lookup(node.Tree(), key) == Some(n.values[idx])
      decreases h
    {
      hide Less, BTreeNode.Valid, BTreeNode.Tree, Inorder, Lookup, Shape;
      Open(node);
      LookupStep(node.Tree(), key, t, h);
      var i := 0;
      while i < |node.keys| && Less(node.keys[i], key)
        invariant i <= Slot(node.keys, key)
      {
        i := i + 1;
      }
      if i < |node.keys| && key == node.keys[i] {
        return node, i, [node];
      }
      if node.leaf {
        return null, -1, [];
      }
      n, idx, path := FindNodeAndIndex(node.children[i], key, h - 1);
      if n != null {
        assert Hop(node, path[0], key);
        path := [node] + path;
      }
    }

    /** `_search`: binary search in every node on the way down. */
    method SearchNode(node: BTreeNode<V>, key: string, ghost h: nat) returns (r: Option<V>)
      requires node.Valid() && Shape(node.Tree(), t, h) && Sorted(Inorder(node.Tree()))
      ensures r == Lookup(node.Tree(), key)
      decreases h
    {
      hide Less, BTreeNode.Valid, BTreeNode.Tree, Inorder, Sorted;
      Open(node);
      KeysSorted(node.Tree());
      var i := BisectLeft(node.keys, key);
      if i < |node.keys| && key == node.keys[i] {
        return Some(node.values[i]);
      }
      if node.leaf {
        return None;
      }
      KidSorted(node.Tree(), i);
      r := SearchNode(node.children[i], key, h - 1);
    }

    /** Overwriting the value found at the end of a path updates the whole tree under its start. */
    method Overwrite(node: BTreeNode<V>, key: string, v: V, n: BTreeNode<V>, idx: nat, ghost path: seq<BTreeNode<V>>,
                     ghost h: nat)
      requires node.Valid() && Shape(node.Tree(), t, h)
      requires LeadsTo(path, key) && path[0] == node && path[|path| - 1] == n
      requires idx == Slot(n.keys, key) && |n.values| == |n.keys|
      modifies n`values
      ensures node.Valid() && node.Tree() == UpdateTree(old(node.Tree()), key, v)
    {
      hide Inorder, Slot, Shape, UpdateTree, Beside, SideNodes, OnWay, Hop, LeadsTo, Trees, BTreeNode.Valid,
           BTreeNode.Tree;
      PathInside(path, key, t, h);
      PathParts(path, key);
      ghost var trees := Trees(path);
      ghost var last := |path| - 1;
      assert path[last] == n && path[last].Valid();
      Open(n);
      UpdateStep(n.Tree(), key, v);
      forall d | 0 <= d < |path| - 1
        ensures Owns(path[d]) && Beside(path[d], key, trees[d]) && OnWay(trees[d], trees[d + 1], key)
        ensures n != path[d] && n !in SideNodes(path[d], key) && Hop(path[d], path[d + 1], key)
      {
        PathBeside(path, key, t, h, d);
      }
      ghost var kids := n.Tree().kids;
      n.values := n.values[idx := v];
      AssembleAs(n, kids);
      forall d | 0 <= d < |path| - 1
        ensures Owns(path[d]) && Beside(path[d], key, trees[d]) && Hop(path[d], path[d + 1], key)
      {}
      PathParts(path, key);
      Lifted(path, key, v, trees);
    }

    /** First half of a split: a new node with the upper half of a full child. */
    method UpperHalf(fullChild: BTreeNode<V>, ghost fs: seq<set<BTreeNode<V>>>) returns (newChild: BTreeNode<V>)
      requires t >= 2 && fullChild.Valid() && |fullChild.keys| == |fullChild.values| == 2 * t - 1
      requires (!fullChild.leaf ==> |fullChild.children| == 2 * t) && fs == Footprints(fullChild.children)
      ensures newChild.Valid() && fresh(newChild)
      ensures newChild.Repr == {newChild} + if fullChild.leaf then {} else Union(fs[t..])
      ensures newChild.Tree() == RightHalf(fullChild.Tree(), t)
    {
      hide Union, Inorder, Weave, Shape, Slot, BTreeNode.Valid, BTreeNode.Tree;
      Open(fullChild);
      if !fullChild.leaf { UnionParts(fs, t, fullChild.Repr - {fullChild}); }
      newChild := new BTreeNode<V>(fullChild.leaf);
      newChild.keys := fullChild.keys[t..];
      newChild.values := fullChild.values[t..];
      if !fullChild.leaf {
        newChild.children := fullChild.children[t..];
        newChild.Repr := {newChild} + Union(fs[t..]);
      }
      Assemble(newChild);
      assert newChild.Tree().kids == RightHalf(fullChild.Tree(), t).kids;
    }

    /** Second half of a split: the full child keeps only its lower half. */
    method Truncate(fullChild: BTreeNode<V>, ghost fs: seq<set<BTreeNode<V>>>)
      requires t >= 2 && fullChild.Valid() && |fullChild.keys| == |fullChild.values| == 2 * t - 1
      requires (!fullChild.leaf ==> |fullChild.children| == 2 * t) && fs == Footprints(fullChild.children)
      modifies fullChild
      ensures fullChild.Valid() && fullChild.Repr <= old(fullChild.Repr)
      ensures !old(fullChild.leaf) ==> Union(fs[t..]) !! fullChild.Repr
      ensures fullChild.Tree() == LeftHalf(old(fullChild.Tree()), t)
    {
      hide Union, Inorder, Weave, Shape, Slot, BTreeNode.Valid, BTreeNode.Tree;
      Open(fullChild);
      OpenTree(fullChild);
      if !fullChild.leaf { UnionParts(fs, t, fullChild.Repr - {fullChild}); }
      ghost var tr := fullChild.Tree();
      if !fullChild.leaf {
        fullChild.children := fullChild.children[..t];
        fullChild.Repr := {fullChild} + Union(fs[..t]);
      }
      fullChild.keys := fullChild.keys[..t - 1];
      fullChild.values := fullChild.values[..t - 1];
      AssembleAs(fullChild, LeftHalf(tr, t).kids);
    }

    /** Both halves of a split: the full child keeps the lower half, a new node takes the upper. */
    method Halve(fullChild: BTreeNode<V>) returns (newChild: BTreeNode<V>)
      requires t >= 2 && fullChild.Valid() && |fullChild.keys| == |fullChild.values| == 2 * t - 1
      requires !fullChild.leaf ==> |fullChild.children| == 2 * t
      modifies fullChild
      ensures fullChild.Valid() && fullChild.Repr <= old(fullChild.Repr)
      ensures newChild.Valid() && fresh(newChild) && newChild.Repr <= old(fullChild.Repr) + {newChild}
      ensures fullChild.Repr !! newChild.Repr
      ensures fullChild.Tree() == LeftHalf(old(fullChild.Tree()), t)
      ensures newChild.Tree() == RightHalf(old(fullChild.Tree()), t)
    {
      hide Union, LeftHalf, RightHalf, BTreeNode.Valid, BTreeNode.Tree;
      Open(fullChild);
      ghost var fs := Footprints(fullChild.children);
      if !fullChild.leaf { UnionParts(fs, t, fullChild.Repr - {fullChild}); }
      newChild := UpperHalf(fullChild, fs);
      assert newChild.Repr <= fullChild.Repr + {newChild} && fullChild !in newChild.Repr;
      Truncate(fullChild, fs);
    }

    /** The parent's side of a split: the new sibling and the promoted median go in at `i`. */
    method Adopt(parent: BTreeNode<V>, i: nat, newChild: BTreeNode<V>, midKey: string, midValue: V,
                 ghost kids: seq<Tree<V>>)
      requires Owns(parent) && |kids| == |parent.children|
      requires forall j | 0 <= j < |parent.children| ::
                 parent.children[j].Valid() && parent.children[j].Tree() == kids[j]
      requires newChild.Valid() && parent !in newChild.Repr
      requires forall j | 0 <= j < |parent.children| :: parent.children[j].Repr !! newChild.Repr
      requires i < |parent.children| == |parent.keys| + 1 && |parent.values| == |parent.keys|
      modifies parent
      ensures parent.Valid() && parent.Repr == old(parent.Repr) + newChild.Repr
      ensures parent.Tree() == Node(old(parent.leaf),
                                    old(parent.keys[..i] + [midKey] + parent.keys[i..]),
                                    old(parent.values[..i] + [midValue] + parent.values[i..]),
                                    kids[..i + 1] + [old(newChild.Tree())] + kids[i + 1..])
    {
      hide Inorder, Weave, Sorted, Slot, Absent, Shape, BTreeNode.Valid, BTreeNode.Tree;
      parent.children := parent.children[..i + 1] + [newChild] + parent.children[i + 1..];
      parent.keys := parent.keys[..i] + [midKey] + parent.keys[i..];
      parent.values := parent.values[..i] + [midValue] + parent.values[i..];
      parent.Repr := parent.Repr + newChild.Repr;
      AssembleAs(parent, kids[..i + 1] + [newChild.Tree()] + kids[i + 1..]);
    }

    /** `_split_child`: the full child's upper half moves to a new sibling, its median up. */
    method SplitChild(parent: BTreeNode<V>, i: nat)
      requires t >= 2 && parent.Valid() && CanSplit(parent.Tree(), i, t)
      modifies parent, parent.children[i]
      ensures parent.Valid() && fresh(parent.Repr - old(parent.Repr))
      ensures parent.Tree() == SplitTree(old(parent.Tree()), i, t)
    {
      hide SplitTree, LeftHalf, RightHalf, BTreeNode.Valid, BTreeNode.Tree;
      Open(parent);
      SplitIs(parent.Tree(), i, t);
      ghost var tr := parent.Tree();
      var fullChild := parent.children[i];
      Open(fullChild);
      var midKey, midValue := fullChild.keys[t - 1], fullChild.values[t - 1];
      var newChild := Halve(fullChild);
      ghost var kids := tr.kids[i := LeftHalf(tr.kids[i], t)];
      forall j | 0 <= j < |parent.children|
        ensures parent.children[j].Valid() && parent.children[j].Tree() == kids[j]
        ensures parent.children[j].Repr !! newChild.Repr
      {}
      assert newChild.Repr - {newChild} <= parent.Repr;
      Adopt(parent, i, newChild, midKey, midValue, kids);
    }

    /** Chooses the child to descend into, splitting it first if it is full. */
    method PrepareChild(node: BTreeNode<V>, key: string, ghost h: nat) returns (i: nat)
      requires t >= 2 && h > 0 && node.Valid() && Shape(node.Tree(), t, h) && |node.keys| < 2 * t - 1
      requires SortedKeys(node.keys)
      modifies node.Repr
      ensures node.Valid() && fresh(node.Repr - old(node.Repr))
      ensures var tr := old(node.Tree());
              && |tr.kids| == |tr.keys| + 1
              && (|tr.kids[Slot(tr.keys, key)].keys| == 2 * t - 1 ==> CanSplit(tr, Slot(tr.keys, key), t))
              && node.Tree() == Prepared(tr, key, t) && i == Descend(tr, key, t)
    {
      hide Inorder, Weave, Sorted, Slot, Shape, BTreeNode.Valid, BTreeNode.Tree;
      Open(node);
      ghost var tr := node.Tree();
      PreparedShape(tr, key, t, h);
      i := BisectLeft(node.keys, key);
      if |node.children[i].keys| == 2 * t - 1 {
        SplitChild(node, i);
        if Less(node.keys[i], key) {
          i := i + 1;
        }
      }
    }

    method InsertIntoLeaf(node: BTreeNode<V>, key: string, value: V, ghost h: nat)
      requires t >= 2 && node.Valid() && node.leaf && Shape(node.Tree(), t, h) && |node.keys| < 2 * t - 1
      requires SortedKeys(node.keys)
      modifies node
      ensures node.Valid() && node.Repr == old(node.Repr)
      ensures node.Tree() == InsertTree(old(node.Tree()), key, value, t, h)
    {
      hide Inorder, Weave, Sorted, Slot, Absent, BTreeNode.Valid, BTreeNode.Tree;
      Open(node);
      assert node.Tree().kids == [];
      var i := BisectLeft(node.keys, key);
      node.keys := node.keys[..i] + [key] + node.keys[i..];
      node.values := node.values[..i] + [value] + node.values[i..];
      Assemble(node);
    }

    /** `_insert_non_full`: every full child met on the way down is split first. */
    method InsertNonFull(node: BTreeNode<V>, key: string, value: V, ghost h: nat)
      requires t >= 2 && node.Valid() && Shape(node.Tree(), t, h) && |node.keys| < 2 * t - 1
      requires Sorted(Inorder(node.Tree())) && Absent(Inorder(node.Tree()), key)
      modifies node.Repr
      ensures node.Valid() && fresh(node.Repr - old(node.Repr))
      ensures node.Tree() == InsertTree(old(node.Tree()), key, value, t, h)
      decreases h, 0
    {
      hide Inorder, Weave, Sorted, Slot, Absent, InsertTree, BTreeNode.Valid, BTreeNode.Tree;
      ghost var tr := node.Tree();
      KeysSorted(tr);
      if node.leaf {
        InsertIntoLeaf(node, key, value, h);
      } else {
        var i := PrepareChild(node, key, h);
        DescendReady(tr, key, t, h);
        InsertUnfold(tr, key, value, t, h);
        ghost var c := node.Tree().kids[i];
        InsertIntoChild(node, i, key, value, h, c, InsertTree(c, key, value, t, h - 1));
      }
    }

    method InsertIntoChild(node: BTreeNode<V>, i: nat, key: string, value: V, ghost h: nat,
                           ghost c: Tree<V>, ghost c': Tree<V>)
      requires t >= 2 && h > 0 && Shape(c, t, h - 1) && |c.keys| < 2 * t - 1
      requires c' == InsertTree(c, key, value, t, h - 1) && Sorted(Inorder(c)) && Absent(Inorder(c), key)
      requires node.Valid() && i < |node.children| && c == node.children[i].Tree()
      modifies node.Repr
      ensures node.Valid() && fresh(node.Repr - old(node.Repr))
      ensures node.Tree() == old(node.Tree()).(kids := old(node.Tree()).kids[i := c'])
      decreases h - 1, 1
    {
      hide Inorder, Weave, Sorted, Slot, Absent, InsertTree, Shape, BTreeNode.Valid, BTreeNode.Tree;
      Open(node);
      ghost var p := node.Tree();
      ghost var kids := p.kids[i := c'];
      InsertNonFull(node.children[i], key, value, h - 1);
      node.Repr := node.Repr + node.children[i].Repr;
      forall j | 0 <= j < |node.children|
        ensures node.children[j].Valid() && node.children[j].Tree() == kids[j]
      {}
      AssembleAs(node, kids);
    }

    constructor (t: nat)
      requires t >= 2
      ensures Valid() && fresh(Repr) && this.t == t
      ensures Contents() == map[] && size == 0
    {
      this.t := t;
      root := new BTreeNode<V>(true);
      size := 0;
      height := 0;
      new;
      Repr := {this} + root.Repr;
    }

    /** Inserts or overwrites; an empty key is refused (a `ValueError` in the source). */
    method Insert(key: string, value: V) returns (ok: bool)
      requires Valid()
      modifies Repr
      ensures Valid() && fresh(Repr - old(Repr))
      ensures ok <==> key != ""
      ensures Contents() == if ok then old(Contents())[key := value] else old(Contents())
    {
      hide Inorder, Weave, Slot, Sorted, ToMap, Lookup, UpdateTree, InsertTree, Absent, LeadsTo, BTreeNode.Valid,
           BTreeNode.Tree;
      if key == "" {
        return false;
      }
      ok := true;
      ghost var before := root.Tree();
      LookupCorrect(before, key, t, height);
      var node, idx, path := FindNodeAndIndex(root, key, height);
      if node != null {
        ghost var n := UpdateInorder(before, key, value, t, height);
        UpdateShape(before, key, value, t, height);
        UpdateToMap(Inorder(before), key, value, n);
        Overwrite(root, key, value, node, idx, path, height);
        return;
      }
      AddEntry(key, value);
    }

    /** The branch of `insert` for a key the tree does not hold. */
    method AddEntry(key: string, value: V)
      requires Valid() && key !in Contents()
      modifies Repr
      ensures Valid() && fresh(Repr - old(Repr))
      ensures Contents() == old(Contents())[key := value]
    {
      hide Inorder, Weave, Slot, Sorted, ToMap, Lookup, InsertTree, Absent, LeadsTo, BTreeNode.Valid, BTreeNode.Tree;
      AbsentFromMap(Inorder(root.Tree()), key);
      GrowIfFull();
      ghost var n := InsertInorder(root.Tree(), key, value, t, height);
      InsertToMap(Inorder(root.Tree()), key, value, n);
      InsertNonFull(root, key, value, height);
      Repr := Repr + root.Repr;
      size := size + 1;
    }

    /** A full root is split under a new one before anything is inserted. */
    method GrowIfFull()
      requires Valid()
      modifies Repr
      ensures Valid() && fresh(Repr - old(Repr)) && |root.keys| < 2 * t - 1
      ensures Inorder(root.Tree()) == old(Inorder(root.Tree())) && size == old(size)
    {
      hide Inorder, Weave, Slot, Sorted, ToMap, BTreeNode.Valid, BTreeNode.Tree;
      if |root.keys| == 2 * t - 1 {
        root := GrownRoot(root, height);
        height := height + 1;
        Repr := Repr + root.Repr;
      }
    }

    /** The one place the tree gets taller: a full root becomes the only child of a new one and is split. */
    method GrownRoot(top: BTreeNode<V>, ghost h: nat) returns (temp: BTreeNode<V>)
      requires t >= 2 && top.Valid() && Shape(top.Tree(), t, h) && |top.keys| == 2 * t - 1
      modifies top
      ensures temp.Valid() && fresh(temp.Repr - old(top.Repr))
      ensures RootShape(temp.Tree(), t, h + 1) && |temp.keys| == 1
      ensures Inorder(temp.Tree()) == old(Inorder(top.Tree()))
    {
      hide Inorder, Weave, Sorted, Slot, Absent, Shape, SplitTree, LeftHalf, RightHalf, BTreeNode.Valid, BTreeNode.Tree;
      FreshRoot(top.Tree(), t, h);
      Open(top);
      temp := new BTreeNode<V>(false);
      temp.children := [top];
      temp.Repr := {temp} + top.Repr;
      Assemble(temp);
      assert temp.Tree() == Node(false, [], [], [top.Tree()]);
      SplitChild(temp, 0);
    }

    /** `search`: the value under `key`; an empty key is refused. */
    method Search(key: string) returns (r: Result<Option<V>, ()>)
      requires Valid()
      ensures r == if key == "" then Err(()) else Ok(if key in Contents() then Some(Contents()[key]) else None)
    {
      if key == "" {
        return Err(());
      }
      LookupCorrect(root.Tree(), key, t, height);
      var v := SearchNode(root, key, height);
      r := Ok(v);
    }

    /** `contains`: whether `key` has an entry; an empty key is refused. */
    method Contains(key: string) returns (r: Result<bool, ()>)
      requires Valid()
      ensures r == if key == "" then Err(()) else Ok(key in Contents())
    {
      if key == "" {
        return Err(());
      }
      LookupCorrect(root.Tree(), key, t, height);
      var n, idx, path := FindNodeAndIndex(root, key, height);
      r := Ok(n != null);
    }

    /** `_in_order`: every subtree before its separating key, the last subtree last. */
    method InOrder(node: BTreeNode<V>, ghost h: nat) returns (es: seq<Entry<V>>)
      requires node.Valid() && Shape(node.Tree(), t, h)
      ensures es == Inorder(node.Tree())
      decreases h
    {
      hide Sorted, Slot, Weave, Lead, BTreeNode.Valid, BTreeNode.Tree;
      Open(node);
      es := [];
      ghost var tr := node.Tree();
      ghost var own := Pairs(tr.keys, tr.vals);
      if node.leaf {
        for i := 0 to |node.keys|
          invariant es == own[..i]
        {
          es := es + [(node.keys[i], node.values[i])];
        }
      } else {
        LeadStart(tr.kids, own);
        for i := 0 to |node.keys|
          invariant es == Lead(tr.kids[..i], own[..i])
        {
          var sub := InOrder(node.children[i], h - 1);
          LeadStep(tr.kids, own, i);
          es := es + sub + [(node.keys[i], node.values[i])];
        }
        var sub := InOrder(node.children[|node.children| - 1], h - 1);
        WeaveAround(tr.kids, own, |own|);
        es := es + sub;
      }
    }

    /** `in_order_traversal`: the map's entries in ascending key order, each key once. */
    method InOrderTraversal() returns (es: seq<Entry<V>>)
      requires Valid()
      ensures Sorted(es) && ToMap(es) == Contents() && |es| == size
      // of any two keys the earlier is the lower where they first differ
      ensures forall i, j | 0 <= i < j < |es| :: Below(es[i].0, es[j].0)
      // every entry of the table is listed, with its value, and no other
      ensures forall i | 0 <= i < |es| :: es[i].0 in Contents() && Contents()[es[i].0] == es[i].1
      ensures forall k | k in Contents() :: exists i :: 0 <= i < |es| && es[i].0 == k
    {
      es := InOrder(root, height);
      ToMapSorted(es);
      forall i, j | 0 <= i < j < |es| ensures Below(es[i].0, es[j].0) {
        LessIsBelow(es[i].0, es[j].0);
      }
    }

    method Clear()
      requires Valid()
      modifies this
      ensures Valid() && fresh(Repr - old(Repr))
      ensures Contents() == map[] && size == 0
    {
      root := new BTreeNode<V>(true);
      size := 0;
      height := 0;
      Repr := {this} + root.Repr;
    }
  }
}
