/**
 The B-tree memtable as a value.

 `Tree` is what a node object and everything below it amounts to. The functions here say what
 splitting a child and inserting below a non-full node do to that value; the lemmas say that
 neither disturbs the B-tree shape, and what each does to the in-order sequence of entries.
 */
module BTreeSpec {
  import opened Wrappers
  import opened StringOrder

  datatype Tree<V> = Node(leaf: bool, keys: seq<string>, vals: seq<V>, kids: seq<Tree<V>>)

  type Entry<V> = (string, V)

  function Min(a: nat, b: nat): nat { if a < b then a else b }

  /** Python's `zip` of a node's keys and values. */
  function Pairs<V>(keys: seq<string>, vals: seq<V>): (es: seq<Entry<V>>)
    ensures |es| == Min(|keys|, |vals|)
    ensures forall i | 0 <= i < |es| :: es[i] == (keys[i], vals[i])
  {
    seq(Min(|keys|, |vals|), i requires 0 <= i < Min(|keys|, |vals|) => (keys[i], vals[i]))
  }

  // ---------------------------------------------------------------------------------------
  // In-order contents

  function Inorder<V>(tr: Tree<V>): seq<Entry<V>>
    decreases tr, 1
  {
    if tr.leaf then Pairs(tr.keys, tr.vals) else Weave(tr.kids, Pairs(tr.keys, tr.vals))
  }

  /** The subtrees' contents with one separating entry between neighbours. */
  function Weave<V>(kids: seq<Tree<V>>, es: seq<Entry<V>>): seq<Entry<V>>
    decreases kids, 0
  {
    if kids == [] then []
    else if es == [] then Inorder(kids[0])
    else Inorder(kids[0]) + [es[0]] + Weave(kids[1..], es[1..])
  }

  /** Weaving where every subtree is followed by its separator. */
  function Lead<V>(kids: seq<Tree<V>>, es: seq<Entry<V>>): seq<Entry<V>>
    requires |kids| == |es|
    decreases kids
  {
    if kids == [] then [] else Inorder(kids[0]) + [es[0]] + Lead(kids[1..], es[1..])
  }

  /** Weaving where every subtree is preceded by its separator. */
  function Trail<V>(kids: seq<Tree<V>>, es: seq<Entry<V>>): seq<Entry<V>>
    requires |kids| == |es|
    decreases kids
  {
    if kids == [] then [] else [es[0]] + Weave(kids, es[1..])
  }

  /** A weave splits around any one subtree. */
  lemma {:induction false} WeaveAround<V>(kids: seq<Tree<V>>, es: seq<Entry<V>>, i: nat)
    requires |kids| == |es| + 1 && i < |kids|
    ensures Weave(kids, es) == Lead(kids[..i], es[..i]) + Inorder(kids[i]) + Trail(kids[i + 1..], es[i..])
    decreases i
  {
    hide Inorder;
    if i > 0 {
      WeaveAround(kids[1..], es[1..], i - 1);
      assert kids[1..][..i - 1] == kids[..i][1..] && es[1..][..i - 1] == es[..i][1..];
      assert kids[1..][i..] == kids[i + 1..] && es[1..][i - 1..] == es[i..];
      var first, L := Inorder(kids[0]) + [es[0]], Lead(kids[..i][1..], es[..i][1..]);
      assert Lead(kids[..i], es[..i]) == first + L;
      Regroup(first, L, Inorder(kids[i]), Trail(kids[i + 1..], es[i..]));
    } else {
      assert kids[..0] == [] && es[0..] == es;
    }
  }

  lemma Regroup<T>(a: seq<T>, b: seq<T>, c: seq<T>, d: seq<T>)
    ensures a + (b + c + d) == (a + b) + c + d
  {}

  /** A weave splits around any one separator. */
  lemma {:induction false} WeaveCut<V>(kids: seq<Tree<V>>, es: seq<Entry<V>>, j: nat)
    requires |kids| == |es| + 1 && j < |es|
    ensures Weave(kids, es) == Weave(kids[..j + 1], es[..j]) + [es[j]] + Weave(kids[j + 1..], es[j + 1..])
    decreases j
  {
    if j > 0 {
      WeaveCut(kids[1..], es[1..], j - 1);
      assert kids[1..][..j] == kids[..j + 1][1..] && es[1..][..j - 1] == es[..j][1..];
      assert kids[1..][j..] == kids[j + 1..] && es[1..][j..] == es[j + 1..];
    } else {
      assert Weave(kids[..1], es[..0]) == Inorder(kids[0]);
    }
  }

  /** The separator before a subtree ends what precedes it. */
  lemma {:induction false} LeadEnds<V>(kids: seq<Tree<V>>, es: seq<Entry<V>>)
    requires |kids| == |es| > 0
    ensures Lead(kids, es) != [] && Lead(kids, es)[|Lead(kids, es)| - 1] == es[|es| - 1]
    decreases kids
  {
    if |kids| > 1 {
      LeadEnds(kids[1..], es[1..]);
    } else {
      assert Lead(kids[1..], es[1..]) == [];
    }
  }

  lemma LeadStart<V>(kids: seq<Tree<V>>, es: seq<Entry<V>>)
    ensures Lead(kids[..0], es[..0]) == []
  {}

  /** Leading parts grow at the end. */
  lemma {:induction false} LeadStep<V>(kids: seq<Tree<V>>, es: seq<Entry<V>>, i: nat)
    requires i < |kids| && i < |es|
    ensures Lead(kids[..i + 1], es[..i + 1]) == Lead(kids[..i], es[..i]) + Inorder(kids[i]) + [es[i]]
    decreases i
  {
    if i > 0 {
      LeadStep(kids[1..], es[1..], i - 1);
      assert kids[..i + 1][1..] == kids[1..][..i] && es[..i + 1][1..] == es[1..][..i];
      assert kids[..i][1..] == kids[1..][..i - 1] && es[..i][1..] == es[1..][..i - 1];
    } else {
      assert Lead(kids[..1][1..], es[..1][1..]) == [];
    }
  }

  // ---------------------------------------------------------------------------------------
  // Shape

  /** Minimum degree `t`, height `h`: key counts, child counts and uniform leaf depth. */
  ghost predicate Shape<V>(tr: Tree<V>, t: nat, h: nat)
    decreases h
  {
    && |tr.vals| == |tr.keys| <= 2 * t - 1
    && (tr.leaf <==> h == 0)
    && (h == 0 ==> tr.kids == [])
    && (h > 0 ==> |tr.kids| == |tr.keys| + 1)
    && (h > 0 ==> forall i | 0 <= i < |tr.kids| :: Shape(tr.kids[i], t, h - 1) && |tr.kids[i].keys| >= t - 1)
  }

  /** A whole tree: additionally an internal root has a key. */
  ghost predicate RootShape<V>(tr: Tree<V>, t: nat, h: nat) {
    Shape(tr, t, h) && (h > 0 ==> |tr.keys| >= 1)
  }

  ghost predicate Sorted<V>(es: seq<Entry<V>>) {
    forall i, j | 0 <= i < j < |es| :: Less(es[i].0, es[j].0)
  }

  // ---------------------------------------------------------------------------------------
  // Splitting a full child

  function LeftHalf<V>(c: Tree<V>, t: nat): Tree<V>
    requires 1 <= t <= |c.keys| && t <= |c.vals| && (!c.leaf ==> t <= |c.kids|)
  {
    Node(c.leaf, c.keys[..t - 1], c.vals[..t - 1], if c.leaf then c.kids else c.kids[..t])
  }

  function RightHalf<V>(c: Tree<V>, t: nat): Tree<V>
    requires 1 <= t <= |c.keys| && t <= |c.vals| && (!c.leaf ==> t <= |c.kids|)
  {
    Node(c.leaf, c.keys[t..], c.vals[t..], if c.leaf then [] else c.kids[t..])
  }

  /** The node can have its `i`-th child split: the child is full and both are well formed. */
  ghost predicate CanSplit<V>(tr: Tree<V>, i: nat, t: nat) {
    && i < |tr.kids| && |tr.kids| == |tr.keys| + 1 && |tr.vals| == |tr.keys|
    && 1 <= t && |tr.kids[i].keys| == |tr.kids[i].vals| == 2 * t - 1
    && (!tr.kids[i].leaf ==> |tr.kids[i].kids| == 2 * t)
  }

  function SplitTree<V>(tr: Tree<V>, i: nat, t: nat): Tree<V>
    requires CanSplit(tr, i, t)
  {
    var c := tr.kids[i];
    Node(tr.leaf,
         tr.keys[..i] + [c.keys[t - 1]] + tr.keys[i..],
         tr.vals[..i] + [c.vals[t - 1]] + tr.vals[i..],
         tr.kids[..i] + [LeftHalf(c, t), RightHalf(c, t)] + tr.kids[i + 1..])
  }

  /** A split as a replacement of the child and an insertion behind it. */
  lemma SplitIs<V>(tr: Tree<V>, i: nat, t: nat)
    requires CanSplit(tr, i, t)
    ensures var c, l, r := tr.kids[i], LeftHalf(tr.kids[i], t), RightHalf(tr.kids[i], t);
            SplitTree(tr, i, t)
            == Node(tr.leaf, tr.keys[..i] + [c.keys[t - 1]] + tr.keys[i..],
                    tr.vals[..i] + [c.vals[t - 1]] + tr.vals[i..],
                    tr.kids[i := l][..i + 1] + [r] + tr.kids[i := l][i + 1..])
  {
    hide LeftHalf, RightHalf;
    var l, r := LeftHalf(tr.kids[i], t), RightHalf(tr.kids[i], t);
    assert tr.kids[i := l][..i + 1] + [r] + tr.kids[i := l][i + 1..] == tr.kids[..i] + [l, r] + tr.kids[i + 1..];
  }

  lemma HalvesInorder<V>(c: Tree<V>, t: nat)
    requires 1 <= t && |c.keys| == |c.vals| == 2 * t - 1 && (!c.leaf ==> |c.kids| == 2 * t)
    ensures Inorder(c) == Inorder(LeftHalf(c, t)) + [(c.keys[t - 1], c.vals[t - 1])] + Inorder(RightHalf(c, t))
  {
    var es := Pairs(c.keys, c.vals);
    assert Pairs(c.keys[..t - 1], c.vals[..t - 1]) == es[..t - 1];
    assert Pairs(c.keys[t..], c.vals[t..]) == es[t..];
    if c.leaf {
      assert es == es[..t - 1] + [es[t - 1]] + es[t..];
    } else {
      WeaveCut(c.kids, es, t - 1);
    }
  }

  /** Replacing one subtree by two halves around a separator leaves the weave as it was. */
  lemma {:induction false} WeaveSplit<V>(kids: seq<Tree<V>>, es: seq<Entry<V>>, i: nat, l: Tree<V>, m: Entry<V>,
                                         r: Tree<V>)
    requires |kids| == |es| + 1 && i < |kids|
    requires Inorder(kids[i]) == Inorder(l) + [m] + Inorder(r)
    ensures Weave(kids[..i] + [l, r] + kids[i + 1..], es[..i] + [m] + es[i..]) == Weave(kids, es)
    decreases i
  {
    var kids', es' := kids[..i] + [l, r] + kids[i + 1..], es[..i] + [m] + es[i..];
    if i > 0 {
      WeaveSplit(kids[1..], es[1..], i - 1, l, m, r);
      assert kids'[1..] == kids[1..][..i - 1] + [l, r] + kids[1..][i..];
      assert es'[1..] == es[1..][..i - 1] + [m] + es[1..][i - 1..];
    } else {
      assert kids'[1..] == [r] + kids[1..] && es'[1..] == es;
      assert ([r] + kids[1..])[1..] == kids[1..];
    }
  }

  /** Splitting a child does not move a single entry. */
  lemma SplitInorder<V>(tr: Tree<V>, i: nat, t: nat)
    requires CanSplit(tr, i, t) && !tr.leaf
    ensures Inorder(SplitTree(tr, i, t)) == Inorder(tr)
  {
    var c, s := tr.kids[i], SplitTree(tr, i, t);
    var es, m := Pairs(tr.keys, tr.vals), (c.keys[t - 1], c.vals[t - 1]);
    assert Pairs(s.keys, s.vals) == es[..i] + [m] + es[i..];
    HalvesInorder(c, t);
    WeaveSplit(tr.kids, es, i, LeftHalf(c, t), m, RightHalf(c, t));
  }

  lemma SplitShape<V>(tr: Tree<V>, i: nat, t: nat, h: nat)
    requires t >= 2 && h > 0 && Shape(tr, t, h) && |tr.keys| < 2 * t - 1
    requires i < |tr.kids| && |tr.kids[i].keys| == 2 * t - 1
    ensures CanSplit(tr, i, t)
    ensures Shape(SplitTree(tr, i, t), t, h)
  {
    var c := tr.kids[i];
    assert Shape(c, t, h - 1);
    var s := SplitTree(tr, i, t);
    assert Shape(LeftHalf(c, t), t, h - 1);
    assert Shape(RightHalf(c, t), t, h - 1);
    forall j | 0 <= j < |s.kids|
      ensures Shape(s.kids[j], t, h - 1) && |s.kids[j].keys| >= t - 1
    {
      if j < i {
        assert s.kids[j] == tr.kids[j];
      } else if j > i + 1 {
        assert s.kids[j] == tr.kids[j - 1];
      }
    }
  }

  // ---------------------------------------------------------------------------------------
  // Inserting below a non-full node

  /** The node insertion goes through, its chosen child made non-full first. */
  function Prepared<V>(tr: Tree<V>, k: string, t: nat): Tree<V>
    requires |tr.kids| == |tr.keys| + 1
    requires |tr.kids[Slot(tr.keys, k)].keys| == 2 * t - 1 ==> CanSplit(tr, Slot(tr.keys, k), t)
  {
    var i := Slot(tr.keys, k);
    if |tr.kids[i].keys| == 2 * t - 1 then SplitTree(tr, i, t) else tr
  }

  /** The child of the prepared node that insertion descends into. */
  function Descend<V>(tr: Tree<V>, k: string, t: nat): nat
    requires |tr.kids| == |tr.keys| + 1
    requires |tr.kids[Slot(tr.keys, k)].keys| == 2 * t - 1 ==> CanSplit(tr, Slot(tr.keys, k), t)
  {
    var i := Slot(tr.keys, k);
    if |tr.kids[i].keys| == 2 * t - 1 && Less(SplitTree(tr, i, t).keys[i], k) then i + 1 else i
  }

  lemma PreparedShape<V>(tr: Tree<V>, k: string, t: nat, h: nat)
    requires t >= 2 && h > 0 && Shape(tr, t, h) && |tr.keys| < 2 * t - 1
    ensures |tr.kids[Slot(tr.keys, k)].keys| == 2 * t - 1 ==> CanSplit(tr, Slot(tr.keys, k), t)
    ensures var p := Prepared(tr, k, t);
            Shape(p, t, h) && Descend(tr, k, t) < |p.kids| && |p.kids[Descend(tr, k, t)].keys| < 2 * t - 1
    ensures |tr.keys| <= |Prepared(tr, k, t).keys|
  {
    var i := Slot(tr.keys, k);
    assert Shape(tr.kids[i], t, h - 1);
    if |tr.kids[i].keys| == 2 * t - 1 {
      SplitShape(tr, i, t, h);
    }
  }

  function InsertTree<V>(tr: Tree<V>, k: string, v: V, t: nat, h: nat): (r: Tree<V>)
    requires t >= 2 && Shape(tr, t, h) && |tr.keys| < 2 * t - 1
    ensures Shape(r, t, h) && |tr.keys| <= |r.keys|
    decreases h
  {
    if tr.leaf then
      var i := Slot(tr.keys, k);
      Node(true, tr.keys[..i] + [k] + tr.keys[i..], tr.vals[..i] + [v] + tr.vals[i..], tr.kids)
    else
      PreparedShape(tr, k, t, h);
      var p := Prepared(tr, k, t);
      var j := Descend(tr, k, t);
      p.(kids := p.kids[j := InsertTree(p.kids[j], k, v, t, h - 1)])
  }

  /** Insertion below an internal node, one level unfolded. */
  lemma InsertUnfold<V>(tr: Tree<V>, k: string, v: V, t: nat, h: nat)
    requires t >= 2 && h > 0 && Shape(tr, t, h) && |tr.keys| < 2 * t - 1
    requires |tr.kids[Slot(tr.keys, k)].keys| == 2 * t - 1 ==> CanSplit(tr, Slot(tr.keys, k), t)
    ensures var p, j := Prepared(tr, k, t), Descend(tr, k, t);
            && j < |p.kids| && Shape(p.kids[j], t, h - 1) && |p.kids[j].keys| < 2 * t - 1
            && InsertTree(tr, k, v, t, h) == p.(kids := p.kids[j := InsertTree(p.kids[j], k, v, t, h - 1)])
  {
    PreparedShape(tr, k, t, h);
  }

  /** A full root put under a fresh empty one and split: one level taller, same entries. */
  lemma FreshRoot<V>(tr: Tree<V>, t: nat, h: nat)
    requires t >= 2 && Shape(tr, t, h) && |tr.keys| == 2 * t - 1
    ensures var r := Node(false, [], [], [tr]);
            && CanSplit(r, 0, t)
            && RootShape(SplitTree(r, 0, t), t, h + 1)
            && |SplitTree(r, 0, t).keys| == 1
            && Inorder(SplitTree(r, 0, t)) == Inorder(tr)
  {
    var r := Node(false, [], [], [tr]);
    assert Shape(r, t, h + 1);
    SplitShape(r, 0, t, h + 1);
    SplitInorder(r, 0, t);
    assert Pairs(r.keys, r.vals) == [];
  }

  /** Where `k` belongs among `es`: everything before is below it, everything after above. */
  ghost predicate Fits<V>(es: seq<Entry<V>>, k: string, n: nat) {
    && n <= |es|
    && (forall j | 0 <= j < n :: Less(es[j].0, k))
    && (forall j | n <= j < |es| :: Less(k, es[j].0))
  }

  ghost predicate Absent<V>(es: seq<Entry<V>>, k: string) {
    forall e | e in es :: e.0 != k
  }

  /** In a sorted tree without `k`, the child next to `Slot` is the only place `k` can go. */
  lemma SlotFits<V>(tr: Tree<V>, k: string, i: nat)
    requires !tr.leaf && |tr.vals| == |tr.keys| && |tr.kids| == |tr.keys| + 1 && i < |tr.kids|
    requires Sorted(Inorder(tr))
    requires i > 0 ==> Less(tr.keys[i - 1], k)
    requires i < |tr.keys| ==> Less(k, tr.keys[i])
    ensures forall e | e in Before(tr, i) :: Less(e.0, k)
    ensures forall e | e in After(tr, i) :: Less(k, e.0)
  {
    hide Less, Weave, Lead, Trail, Sorted;
    var es := Pairs(tr.keys, tr.vals);
    WeaveAround(tr.kids, es, i);
    var P, M, S := Lead(tr.kids[..i], es[..i]), Inorder(tr.kids[i]), Trail(tr.kids[i + 1..], es[i..]);
    if i > 0 {
      LeadEnds(tr.kids[..i], es[..i]);
      assert P + (M + S) == P + M + S;
      BelowEnd(P, M + S, k);
    } else {
      NoLead(tr.kids[..i], es[..i]);
    }
    TrailStart(tr.kids[i + 1..], es[i..]);
    if i < |es| {
      AboveStart(P + M, S, k);
    }
  }

  /** In a sorted sequence, what ends below `k` lies below `k`. */
  lemma BelowEnd<V>(P: seq<Entry<V>>, rest: seq<Entry<V>>, k: string)
    requires Sorted(P + rest) && P != [] && Less(P[|P| - 1].0, k)
    ensures forall e | e in P :: Less(e.0, k)
  {
    hide Less;
    var all := P + rest;
    forall a | 0 <= a < |P| - 1 ensures Less(P[a].0, k) {
      assert all[a] == P[a] && all[|P| - 1] == P[|P| - 1];
      Transitive(P[a].0, P[|P| - 1].0, k);
    }
  }

  /** And what starts above `k` lies above `k`. */
  lemma AboveStart<V>(front: seq<Entry<V>>, S: seq<Entry<V>>, k: string)
    requires Sorted(front + S) && S != [] && Less(k, S[0].0)
    ensures forall e | e in S :: Less(k, e.0)
  {
    hide Less;
    var all := front + S;
    forall a | 0 < a < |S| ensures Less(k, S[a].0) {
      assert all[|front|] == S[0] && all[|front| + a] == S[a];
      Transitive(k, S[0].0, S[a].0);
    }
  }

  lemma NoLead<V>(kids: seq<Tree<V>>, es: seq<Entry<V>>)
    requires |kids| == |es| == 0
    ensures Lead(kids, es) == []
  {}

  lemma TrailStart<V>(kids: seq<Tree<V>>, es: seq<Entry<V>>)
    requires |kids| == |es|
    ensures Trail(kids, es) == [] <==> es == []
    ensures es != [] ==> Trail(kids, es)[0] == es[0]
  {}

  /** The prepared child brackets `k`. */
  lemma DescendBrackets<V>(tr: Tree<V>, k: string, t: nat, h: nat)
    requires t >= 2 && h > 0 && Shape(tr, t, h) && |tr.keys| < 2 * t - 1
    requires Sorted(Inorder(tr)) && Absent(Inorder(tr), k)
    requires |tr.kids[Slot(tr.keys, k)].keys| == 2 * t - 1 ==> CanSplit(tr, Slot(tr.keys, k), t)
    ensures var p, j := Prepared(tr, k, t), Descend(tr, k, t);
            && Inorder(p) == Inorder(tr) && j < |p.kids|
            && (j > 0 ==> Less(p.keys[j - 1], k)) && (j < |p.keys| ==> Less(k, p.keys[j]))
  {
    var i, p, j := Slot(tr.keys, k), Prepared(tr, k, t), Descend(tr, k, t);
    PreparedShape(tr, k, t, h);
    if |tr.kids[i].keys| == 2 * t - 1 {
      SplitInorder(tr, i, t);
    }
    KeysSorted(p);
    if j < |p.keys| {
      KeyPresent(p, j);
      Trichotomy(p.keys[j], k);
      if j == i && i < |tr.keys| && p == tr {
        assert !Less(p.keys[j], k);
      } else if j == i + 1 {
        assert p.keys[j] == tr.keys[i];
      }
    }
  }

  /** The chosen child meets the conditions of the node it came from. */
  lemma DescendReady<V>(tr: Tree<V>, k: string, t: nat, h: nat)
    requires t >= 2 && h > 0 && Shape(tr, t, h) && |tr.keys| < 2 * t - 1
    requires Sorted(Inorder(tr)) && Absent(Inorder(tr), k)
    requires |tr.kids[Slot(tr.keys, k)].keys| == 2 * t - 1 ==> CanSplit(tr, Slot(tr.keys, k), t)
    ensures var p, j := Prepared(tr, k, t), Descend(tr, k, t);
            && |p.vals| == |p.keys| && |p.kids| == |p.keys| + 1 && !p.leaf && Inorder(p) == Inorder(tr) && j < |p.kids|
            && Shape(p.kids[j], t, h - 1) && |p.kids[j].keys| < 2 * t - 1
            && Sorted(Inorder(p.kids[j])) && Absent(Inorder(p.kids[j]), k)
            && (j > 0 ==> Less(p.keys[j - 1], k)) && (j < |p.keys| ==> Less(k, p.keys[j]))
  {
    PreparedShape(tr, k, t, h);
    DescendBrackets(tr, k, t, h);
    KidSorted(Prepared(tr, k, t), Descend(tr, k, t));
  }

  /** Every separator occurs in the in-order sequence. */
  lemma KeyPresent<V>(tr: Tree<V>, j: nat)
    requires |tr.vals| == |tr.keys| && (!tr.leaf ==> |tr.kids| == |tr.keys| + 1) && j < |tr.keys|
    ensures (tr.keys[j], tr.vals[j]) in Inorder(tr)
  {
    var es := Pairs(tr.keys, tr.vals);
    if tr.leaf {
      assert es[j] in Inorder(tr);
    } else {
      WeaveCut(tr.kids, es, j);
    }
  }

  /** A sorted in-order sequence makes every node's own keys sorted. */
  lemma KeysSorted<V>(tr: Tree<V>)
    requires |tr.vals| == |tr.keys| && (!tr.leaf ==> |tr.kids| == |tr.keys| + 1)
    requires Sorted(Inorder(tr))
    ensures SortedKeys(tr.keys)
  {
    hide Less;
    var es := Pairs(tr.keys, tr.vals);
    forall i, j | 0 <= i < j < |tr.keys| ensures Less(tr.keys[i], tr.keys[j]) {
      if tr.leaf {
        assert Inorder(tr)[i] == es[i] && Inorder(tr)[j] == es[j];
      } else {
        SeparatorsApart(tr.kids, es, i, j);
      }
    }
  }

  /** Two separators of a sorted weave are in order. */
  lemma SeparatorsApart<V>(kids: seq<Tree<V>>, es: seq<Entry<V>>, i: nat, j: nat)
    requires |kids| == |es| + 1 && i < j < |es| && Sorted(Weave(kids, es))
    ensures Less(es[i].0, es[j].0)
  {
    hide Less, Weave;
    WeaveCut(kids, es, i);
    WeaveCut(kids[i + 1..], es[i + 1..], j - i - 1);
    var all, A := Weave(kids, es), Weave(kids[..i + 1], es[..i]);
    var C := Weave(kids[i + 1..][..j - i], es[i + 1..][..j - i - 1]);
    assert all[|A|] == es[i] && all[|A| + 1 + |C|] == es[j];
  }

  /** A sorted in-order sequence makes every child's sequence sorted. */
  lemma KidSorted<V>(tr: Tree<V>, i: nat)
    requires !tr.leaf && |tr.vals| == |tr.keys| && |tr.kids| == |tr.keys| + 1 && i < |tr.kids|
    requires Sorted(Inorder(tr))
    ensures Sorted(Inorder(tr.kids[i]))
    ensures forall e | e in Inorder(tr.kids[i]) :: e in Inorder(tr)
  {
    hide Inorder, Less, Lead, Trail, Pairs;
    var es := Pairs(tr.keys, tr.vals);
    InorderAround(tr, i);
    var P, M := Lead(tr.kids[..i], es[..i]), Inorder(tr.kids[i]);
    var all := Inorder(tr);
    forall a | 0 <= a < |M| ensures |P| + a < |all| && all[|P| + a] == M[a] {}
    forall a, b | 0 <= a < b < |M| ensures Less(M[a].0, M[b].0) {
      assert Less(all[|P| + a].0, all[|P| + b].0);
    }
  }

  lemma InorderAround<V>(tr: Tree<V>, i: nat)
    requires !tr.leaf && |tr.vals| == |tr.keys| && |tr.kids| == |tr.keys| + 1 && i < |tr.kids|
    ensures var es := Pairs(tr.keys, tr.vals);
            Inorder(tr) == Lead(tr.kids[..i], es[..i]) + Inorder(tr.kids[i]) + Trail(tr.kids[i + 1..], es[i..])
  {
    hide Weave, Lead, Trail;
    WeaveAround(tr.kids, Pairs(tr.keys, tr.vals), i);
  }

  /** The leaf case of insertion. */
  lemma InsertLeaf<V>(tr: Tree<V>, k: string, v: V)
    requires tr.leaf && |tr.vals| == |tr.keys|
    requires Sorted(Inorder(tr)) && Absent(Inorder(tr), k)
    ensures var n := Slot(tr.keys, k); var es := Inorder(tr);
            && Fits(es, k, n)
            && Inorder(Node(true, tr.keys[..n] + [k] + tr.keys[n..], tr.vals[..n] + [v] + tr.vals[n..], tr.kids))
               == es[..n] + [(k, v)] + es[n..]
  {
    var n, es := Slot(tr.keys, k), Inorder(tr);
    KeysSorted(tr);
    forall j | n <= j < |es| ensures Less(k, es[j].0) {
      assert es[j] in es;
      SlotSplits(tr.keys, k, j);
    }
  }

  /** Inserting an absent key puts exactly one new entry at the place the order dictates. */
  lemma {:induction false} InsertInorder<V>(tr: Tree<V>, k: string, v: V, t: nat, h: nat) returns (n: nat)
    requires t >= 2 && Shape(tr, t, h) && |tr.keys| < 2 * t - 1
    requires Sorted(Inorder(tr)) && Absent(Inorder(tr), k)
    ensures Fits(Inorder(tr), k, n)
    ensures Inorder(InsertTree(tr, k, v, t, h)) == Inorder(tr)[..n] + [(k, v)] + Inorder(tr)[n..]
    decreases h
  {
    hide Inorder, Less, Absent, InsertTree, Prepared, Descend, Slot, Sorted, Fits;
    if tr.leaf {
      n := InsertIntoLeaf(tr, k, v, t, h);
    } else {
      PreparedShape(tr, k, t, h);
      InsertUnfold(tr, k, v, t, h);
      var p, j := Prepared(tr, k, t), Descend(tr, k, t);
      DescendReady(tr, k, t, h);
      var m := InsertInorder(p.kids[j], k, v, t, h - 1);
      n := InsertBelow(p, j, InsertTree(p.kids[j], k, v, t, h - 1), k, v, m);
    }
  }

  lemma InsertIntoLeaf<V>(tr: Tree<V>, k: string, v: V, t: nat, h: nat) returns (n: nat)
    requires t >= 2 && Shape(tr, t, h) && |tr.keys| < 2 * t - 1 && tr.leaf
    requires Sorted(Inorder(tr)) && Absent(Inorder(tr), k)
    ensures Fits(Inorder(tr), k, n)
    ensures Inorder(InsertTree(tr, k, v, t, h)) == Inorder(tr)[..n] + [(k, v)] + Inorder(tr)[n..]
  {
    hide Inorder, Less, Absent, Sorted;
    InsertLeaf(tr, k, v);
    n := Slot(tr.keys, k);
  }

  /** One new entry in a bracketing child is one new entry in the node. */
  lemma InsertBelow<V>(p: Tree<V>, j: nat, c: Tree<V>, k: string, v: V, m: nat) returns (n: nat)
    requires !p.leaf && |p.vals| == |p.keys| && |p.kids| == |p.keys| + 1 && j < |p.kids| && Sorted(Inorder(p))
    requires (j > 0 ==> Less(p.keys[j - 1], k)) && (j < |p.keys| ==> Less(k, p.keys[j]))
    requires Fits(Inorder(p.kids[j]), k, m)
    requires Inorder(c) == Inorder(p.kids[j])[..m] + [(k, v)] + Inorder(p.kids[j])[m..]
    ensures Fits(Inorder(p), k, n)
    ensures Inorder(p.(kids := p.kids[j := c])) == Inorder(p)[..n] + [(k, v)] + Inorder(p)[n..]
  {
    SlotFits(p, k, j);
    var P, M, S := Before(p, j), Inorder(p.kids[j]), After(p, j);
    Splice(P, M, S, k, v, m);
    ReplaceKid(p, j, c);
    n := |P| + m;
  }

  /** A fitting insertion in the middle part is a fitting insertion in the whole. */
  lemma Splice<V>(P: seq<Entry<V>>, M: seq<Entry<V>>, S: seq<Entry<V>>, k: string, v: V, m: nat)
    requires Fits(M, k, m)
    requires (forall e | e in P :: Less(e.0, k)) && (forall e | e in S :: Less(k, e.0))
    ensures Fits(P + M + S, k, |P| + m)
    ensures P + (M[..m] + [(k, v)] + M[m..]) + S
         == (P + M + S)[..|P| + m] + [(k, v)] + (P + M + S)[|P| + m..]
  {
    hide Less;
    var all := P + M + S;
    assert all[..|P| + m] == P + M[..m] && all[|P| + m..] == M[m..] + S;
    forall a | 0 <= a < |P| + m ensures Less(all[a].0, k) {
      assert all[a] == if a < |P| then P[a] else M[a - |P|];
    }
    forall a | |P| + m <= a < |all| ensures Less(k, all[a].0) {
      assert all[a] == if a < |P| + |M| then M[a - |P|] else S[a - |P| - |M|];
    }
  }

  /** What precedes and what follows child `i` in the in-order sequence. */
  function Before<V>(tr: Tree<V>, i: nat): seq<Entry<V>>
    requires |tr.vals| == |tr.keys| && |tr.kids| == |tr.keys| + 1 && i < |tr.kids|
  {
    Lead(tr.kids[..i], Pairs(tr.keys, tr.vals)[..i])
  }

  function After<V>(tr: Tree<V>, i: nat): seq<Entry<V>>
    requires |tr.vals| == |tr.keys| && |tr.kids| == |tr.keys| + 1 && i < |tr.kids|
  {
    Trail(tr.kids[i + 1..], Pairs(tr.keys, tr.vals)[i..])
  }

  /** Replacing one subtree touches only its own stretch of the in-order sequence. */
  lemma ReplaceKid<V>(p: Tree<V>, j: nat, c: Tree<V>)
    requires !p.leaf && |p.vals| == |p.keys| && |p.kids| == |p.keys| + 1 && j < |p.kids|
    ensures Inorder(p) == Before(p, j) + Inorder(p.kids[j]) + After(p, j)
    ensures Inorder(p.(kids := p.kids[j := c])) == Before(p, j) + Inorder(c) + After(p, j)
  {
    var es, kids' := Pairs(p.keys, p.vals), p.kids[j := c];
    WeaveAround(p.kids, es, j);
    WeaveAround(kids', es, j);
    assert kids'[..j] == p.kids[..j] && kids'[j + 1..] == p.kids[j + 1..];
  }

  // ---------------------------------------------------------------------------------------
  // The map a tree stands for

  function ToMap<V>(es: seq<Entry<V>>): map<string, V> {
    if es == [] then map[] else ToMap(es[..|es| - 1])[es[|es| - 1].0 := es[|es| - 1].1]
  }

  lemma ToMapStep<V>(es: seq<Entry<V>>)
    ensures ToMap(es) == if es == [] then map[] else ToMap(es[..|es| - 1])[es[|es| - 1].0 := es[|es| - 1].1]
  {}

  lemma {:induction false} ToMapKeys<V>(es: seq<Entry<V>>)
    ensures forall k :: k in ToMap(es) <==> exists i :: 0 <= i < |es| && es[i].0 == k
    decreases |es|
  {
    if es != [] {
      var front, last := es[..|es| - 1], es[|es| - 1];
      ToMapKeys(front);
      forall k ensures k in ToMap(es) <==> exists i :: 0 <= i < |es| && es[i].0 == k {
        if k in ToMap(front) {
          var i :| 0 <= i < |front| && front[i].0 == k;
          assert es[i].0 == k;
        } else if k == last.0 {
          assert es[|es| - 1].0 == k;
        }
      }
    }
  }

  /** A sorted sequence lists its map: one entry per key. */
  lemma {:induction false} ToMapSorted<V>(es: seq<Entry<V>>)
    requires Sorted(es)
    ensures |ToMap(es)| == |es|
    ensures forall k :: k in ToMap(es) <==> exists i :: 0 <= i < |es| && es[i].0 == k
    ensures forall i | 0 <= i < |es| :: es[i].0 in ToMap(es) && ToMap(es)[es[i].0] == es[i].1
    decreases |es|
  {
    hide Less, ToMap;
    ToMapKeys(es);
    ToMapStep(es);
    if es != [] {
      var front, last := es[..|es| - 1], es[|es| - 1];
      assert forall i | 0 <= i < |front| :: front[i] == es[i];
      ToMapSorted(front);
      forall i | 0 <= i < |front| ensures front[i].0 != last.0 {
        Trichotomy(last.0, last.0);
      }
      assert last.0 !in ToMap(front);
      forall i | 0 <= i < |es| ensures ToMap(es)[es[i].0] == es[i].1 {
        if i < |front| { assert es[i] == front[i]; }
      }
    }
  }

  /** A map agreeing with a sorted sequence entry by entry is its map. */
  lemma ListsMap<V>(es: seq<Entry<V>>, m: map<string, V>)
    requires Sorted(es)
    requires forall i | 0 <= i < |es| :: es[i].0 in m && m[es[i].0] == es[i].1
    requires forall k | k in m :: exists i :: 0 <= i < |es| && es[i].0 == k
    ensures ToMap(es) == m
  {
    hide Less, ToMap, Sorted;
    ToMapSorted(es);
    forall k | k in m ensures k in ToMap(es) && ToMap(es)[k] == m[k] {
      var i :| 0 <= i < |es| && es[i].0 == k;
    }
  }

  lemma InsertSorted<V>(es: seq<Entry<V>>, k: string, v: V, n: nat)
    requires Sorted(es) && Fits(es, k, n)
    ensures Sorted(es[..n] + [(k, v)] + es[n..])
  {
    hide Less;
    var es' := es[..n] + [(k, v)] + es[n..];
    forall i, j | 0 <= i < j < |es'| ensures Less(es'[i].0, es'[j].0) {
      assert es'[i] == if i < n then es[i] else if i == n then (k, v) else es[i - 1];
      assert es'[j] == if j < n then es[j] else if j == n then (k, v) else es[j - 1];
    }
  }

  /** A fitting insertion keeps the sequence sorted and is one map update. */
  lemma InsertToMap<V>(es: seq<Entry<V>>, k: string, v: V, n: nat)
    requires Sorted(es) && Fits(es, k, n)
    ensures var es' := es[..n] + [(k, v)] + es[n..]; Sorted(es') && ToMap(es') == ToMap(es)[k := v]
    ensures k !in ToMap(es)
  {
    hide Less, ToMap;
    var es' := es[..n] + [(k, v)] + es[n..];
    InsertSorted(es, k, v, n);
    ToMapSorted(es);
    Trichotomy(k, k);
    var m := ToMap(es)[k := v];
    forall i | 0 <= i < |es'| ensures es'[i].0 in m && m[es'[i].0] == es'[i].1 {
      assert es'[i] == if i < n then es[i] else if i == n then (k, v) else es[i - 1];
    }
    forall x | x in m ensures exists i :: 0 <= i < |es'| && es'[i].0 == x {
      if x == k {
        assert es'[n].0 == x;
      } else {
        var i :| 0 <= i < |es| && es[i].0 == x;
        assert es'[if i < n then i else i + 1] == es[i];
      }
    }
    ListsMap(es', m);
  }

  // ---------------------------------------------------------------------------------------
  // Lookup

  /** The recursion both `_search` and `_find_node_and_index` follow. */
  function Lookup<V>(tr: Tree<V>, k: string): Option<V>
    requires |tr.vals| == |tr.keys|
    decreases tr
  {
    var i := Slot(tr.keys, k);
    if i < |tr.keys| && tr.keys[i] == k then Some(tr.vals[i])
    else if tr.leaf || i >= |tr.kids| || |tr.kids[i].keys| != |tr.kids[i].vals| then None
    else Lookup(tr.kids[i], k)
  }

  /** The tree with the value stored under `k` replaced. */
  function UpdateTree<V>(tr: Tree<V>, k: string, v: V): Tree<V>
    requires |tr.vals| == |tr.keys|
    decreases tr
  {
    var i := Slot(tr.keys, k);
    if i < |tr.keys| && tr.keys[i] == k then tr.(vals := tr.vals[i := v])
    else if tr.leaf || i >= |tr.kids| || |tr.kids[i].keys| != |tr.kids[i].vals| then tr
    else tr.(kids := tr.kids[i := UpdateTree(tr.kids[i], k, v)])
  }

  /** The update of a tree one level deep: at the key, or in the child the search goes on in. */
  lemma UpdateStep<V>(tr: Tree<V>, k: string, v: V)
    requires |tr.vals| == |tr.keys|
    ensures var i := Slot(tr.keys, k);
            && (i < |tr.keys| && tr.keys[i] == k ==> UpdateTree(tr, k, v) == tr.(vals := tr.vals[i := v]))
            && (i < |tr.kids| && !tr.leaf && (i < |tr.keys| ==> tr.keys[i] != k) ==>
                  |tr.kids[i].keys| == |tr.kids[i].vals| ==>
                    UpdateTree(tr, k, v) == tr.(kids := tr.kids[i := UpdateTree(tr.kids[i], k, v)]))
  {
    hide Slot;
  }

  /** The number of node-to-child steps a lookup of `k` takes. */
  function Steps<V>(tr: Tree<V>, k: string): nat
    decreases tr
  {
    var i := Slot(tr.keys, k);
    if (i < |tr.keys| && tr.keys[i] == k) || tr.leaf || i >= |tr.kids| then 0
    else 1 + Steps(tr.kids[i], k)
  }

  /** A key that is in the sequence but is not one of the node's own lies in the `Slot` child. */
  lemma SlotChild<V>(tr: Tree<V>, k: string, h: nat, t: nat)
    requires h > 0 && Shape(tr, t, h) && Sorted(Inorder(tr))
    requires var i := Slot(tr.keys, k); i < |tr.keys| ==> tr.keys[i] != k
    ensures var i := Slot(tr.keys, k);
            && i < |tr.kids| && Sorted(Inorder(tr.kids[i]))
            && forall v :: (k, v) in Inorder(tr) <==> (k, v) in Inorder(tr.kids[i])
  {
    var i, es := Slot(tr.keys, k), Pairs(tr.keys, tr.vals);
    KeysSorted(tr);
    if i < |tr.keys| { SlotSplits(tr.keys, k, i); }
    SlotFits(tr, k, i);
    KidSorted(tr, i);
    WeaveAround(tr.kids, es, i);
    var P, S := Lead(tr.kids[..i], es[..i]), Trail(tr.kids[i + 1..], es[i..]);
    Trichotomy(k, k);
    forall v ensures (k, v) in Inorder(tr) <==> (k, v) in Inorder(tr.kids[i]) {
      assert (k, v) !in P && (k, v) !in S;
    }
  }

  lemma MemberInMap<V>(es: seq<Entry<V>>, k: string, v: V)
    requires Sorted(es)
    ensures (k, v) in es <==> k in ToMap(es) && ToMap(es)[k] == v
  {
    ToMapSorted(es);
  }

  lemma AbsentFromMap<V>(es: seq<Entry<V>>, k: string)
    requires Sorted(es)
    ensures k !in ToMap(es) <==> Absent(es, k)
  {
    ToMapSorted(es);
    forall e | e in es && e.0 == k ensures k in ToMap(es) {
      var i :| 0 <= i < |es| && es[i] == e;
    }
  }

  /** The top-down search finds exactly what the sorted traversal lists. */
  lemma {:induction false} LookupCorrect<V>(tr: Tree<V>, k: string, t: nat, h: nat)
    requires Shape(tr, t, h) && Sorted(Inorder(tr))
    ensures var m := ToMap(Inorder(tr)); Lookup(tr, k) == if k in m then Some(m[k]) else None
    decreases h
  {
    var i, m := Slot(tr.keys, k), ToMap(Inorder(tr));
    if i < |tr.keys| && tr.keys[i] == k {
      KeyPresent(tr, i);
      MemberInMap(Inorder(tr), k, tr.vals[i]);
    } else if tr.leaf {
      KeysSorted(tr);
      ToMapSorted(Inorder(tr));
      SlotMiss(tr.keys, k);
    } else {
      SlotChild(tr, k, h, t);
      LookupCorrect(tr.kids[i], k, t, h - 1);
      var m' := ToMap(Inorder(tr.kids[i]));
      if k in m { MemberInMap(Inorder(tr), k, m[k]); MemberInMap(Inorder(tr.kids[i]), k, m[k]); }
      if k in m' { MemberInMap(Inorder(tr), k, m'[k]); MemberInMap(Inorder(tr.kids[i]), k, m'[k]); }
    }
  }

  /** The two cases of an in-place update: at this node, or in the `Slot` child. */
  lemma UpdateHere<V>(tr: Tree<V>, i: nat, v: V) returns (n: nat)
    requires |tr.vals| == |tr.keys| && (!tr.leaf ==> |tr.kids| == |tr.keys| + 1) && i < |tr.keys|
    ensures n < |Inorder(tr)| && Inorder(tr)[n].0 == tr.keys[i]
    ensures Inorder(tr.(vals := tr.vals[i := v])) == Inorder(tr)[n := (tr.keys[i], v)]
  {
    var es, es' := Pairs(tr.keys, tr.vals), Pairs(tr.keys, tr.vals[i := v]);
    assert es' == es[i := (tr.keys[i], v)];
    if tr.leaf {
      n := i;
    } else {
      WeaveCut(tr.kids, es, i);
      WeaveCut(tr.kids, es', i);
      assert es'[..i] == es[..i] && es'[i + 1..] == es[i + 1..];
      n := |Weave(tr.kids[..i + 1], es[..i])|;
    }
  }

  lemma {:induction false} UpdateShape<V>(tr: Tree<V>, k: string, v: V, t: nat, h: nat)
    requires Shape(tr, t, h)
    ensures var u := UpdateTree(tr, k, v); Shape(u, t, h) && u.keys == tr.keys && u.leaf == tr.leaf
    decreases h
  {
    var i := Slot(tr.keys, k);
    if h > 0 && !(i < |tr.keys| && tr.keys[i] == k) {
      assert Shape(tr.kids[i], t, h - 1);
      UpdateShape(tr.kids[i], k, v, t, h - 1);
    }
  }

  /** Replacing a stored value changes one entry in place. */
  lemma {:induction false} UpdateInorder<V>(tr: Tree<V>, k: string, v: V, t: nat, h: nat) returns (n: nat)
    requires Shape(tr, t, h) && Lookup(tr, k).Some?
    ensures n < |Inorder(tr)| && Inorder(tr)[n].0 == k
    ensures Inorder(UpdateTree(tr, k, v)) == Inorder(tr)[n := (k, v)]
    decreases h
  {
    hide Inorder, Less;
    var i := Slot(tr.keys, k);
    if i < |tr.keys| && tr.keys[i] == k {
      n := UpdateHere(tr, i, v);
    } else {
      var m := UpdateInorder(tr.kids[i], k, v, t, h - 1);
      ReplaceKid(tr, i, UpdateTree(tr.kids[i], k, v));
      n := |Before(tr, i)| + m;
    }
  }

  /** An in-place replacement is one map update that adds no key. */
  lemma UpdateToMap<V>(es: seq<Entry<V>>, k: string, v: V, n: nat)
    requires Sorted(es) && n < |es| && es[n].0 == k
    ensures Sorted(es[n := (k, v)]) && k in ToMap(es)
    ensures ToMap(es[n := (k, v)]) == ToMap(es)[k := v]
  {
    hide Less, ToMap;
    var es' := es[n := (k, v)];
    assert forall i | 0 <= i < |es| :: es'[i].0 == es[i].0;
    ToMapSorted(es);
    var m := ToMap(es)[k := v];
    forall i | 0 <= i < |es| ensures es'[i].0 in m && m[es'[i].0] == es'[i].1 {
      Trichotomy(k, k);
    }
    forall x | x in m ensures exists i :: 0 <= i < |es'| && es'[i].0 == x {
      var i :| 0 <= i < |es| && es[i].0 == x;
      assert es'[i].0 == x;
    }
    ListsMap(es', m);
  }

  // ---------------------------------------------------------------------------------------
  // Height

  function Pow(b: nat, e: nat): nat { if e == 0 then 1 else b * Pow(b, e - 1) }

  /** `n` subtrees of at least `c` entries each, woven with separators. */
  lemma {:induction false} WeaveSize<V>(kids: seq<Tree<V>>, es: seq<Entry<V>>, c: nat)
    requires |kids| == |es| + 1
    requires forall i | 0 <= i < |kids| :: |Inorder(kids[i])| >= c
    ensures |Weave(kids, es)| >= |kids| * (c + 1) - 1
    decreases kids
  {
    if es != [] {
      assert forall i | 0 <= i < |kids| - 1 :: kids[1..][i] == kids[i + 1];
      WeaveSize(kids[1..], es[1..], c);
      assert |kids| * (c + 1) == (|kids| - 1) * (c + 1) + (c + 1);
    }
  }

  lemma MulMono(a: nat, b: nat, c: nat)
    requires a <= b
    ensures a * c <= b * c
  {}

  /** A non-root subtree of height `h` holds at least `t^(h+1) - 1` entries. */
  lemma {:induction false} SubtreeSize<V>(tr: Tree<V>, t: nat, h: nat)
    requires t >= 2 && Shape(tr, t, h) && |tr.keys| >= t - 1
    ensures |Inorder(tr)| >= Pow(t, h + 1) - 1
    decreases h
  {
    if h > 0 {
      forall i | 0 <= i < |tr.kids| ensures |Inorder(tr.kids[i])| >= Pow(t, h) - 1 {
        SubtreeSize(tr.kids[i], t, h - 1);
      }
      PowPositive(t, h);
      WeaveSize(tr.kids, Pairs(tr.keys, tr.vals), Pow(t, h) - 1);
      MulMono(t, |tr.kids|, Pow(t, h));
    } else {
      assert Pow(t, 1) == t * Pow(t, 0) == t;
    }
  }

  lemma {:induction false} PowPositive(b: nat, e: nat)
    requires b > 0
    ensures Pow(b, e) > 0
  {
    if e > 0 { PowPositive(b, e - 1); MulMono(1, b, Pow(b, e - 1)); }
  }

  /** A non-empty tree of height `h` holds at least `2 * t^h - 1` entries. */
  lemma HeightBound<V>(tr: Tree<V>, t: nat, h: nat)
    requires t >= 2 && RootShape(tr, t, h) && Inorder(tr) != []
    ensures |Inorder(tr)| >= 2 * Pow(t, h) - 1
  {
    if h > 0 {
      forall i | 0 <= i < |tr.kids| ensures |Inorder(tr.kids[i])| >= Pow(t, h) - 1 {
        SubtreeSize(tr.kids[i], t, h - 1);
      }
      PowPositive(t, h);
      WeaveSize(tr.kids, Pairs(tr.keys, tr.vals), Pow(t, h) - 1);
      MulMono(2, |tr.kids|, Pow(t, h));
    }
  }

  lemma {:induction false} PowMono(b: nat, e: nat, f: nat)
    requires b > 0 && e <= f
    ensures Pow(b, e) <= Pow(b, f)
    decreases f
  {
    if e < f { PowMono(b, e, f - 1); MulMono(1, b, Pow(b, f - 1)); }
  }

  lemma {:induction false} StepsAtMostHeight<V>(tr: Tree<V>, k: string, t: nat, h: nat)
    requires Shape(tr, t, h)
    ensures Steps(tr, k) <= h
    decreases h
  {
    var i := Slot(tr.keys, k);
    if h > 0 && !(i < |tr.keys| && tr.keys[i] == k) {
      StepsAtMostHeight(tr.kids[i], k, t, h - 1);
    }
  }

  /** Lookup recursion is at most `log_t((n + 1) / 2)` deep. */
  lemma LookupIsLogarithmic<V>(tr: Tree<V>, k: string, t: nat, h: nat)
    requires t >= 2 && RootShape(tr, t, h) && Inorder(tr) != []
    ensures 2 * Pow(t, Steps(tr, k)) <= |Inorder(tr)| + 1
  {
    StepsAtMostHeight(tr, k, t, h);
    PowMono(t, Steps(tr, k), h);
    HeightBound(tr, t, h);
  }
}
