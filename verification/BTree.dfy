/** The B-tree index with nodes edited in place. Each node carries as ghost state the tree it stands
    for, and every method is proved to make the change that the value-level function makes. */
module BTree {
  import Spec = BTreeSpec

  type Entry = Spec.Entry

  class Node {
    const leaf: bool
    var entries: seq<Entry>
    var children: seq<Node>
    ghost var tree: Spec.Tree
    ghost var Repr: set<Node>

    constructor (isLeaf: bool)
      ensures leaf == isLeaf && entries == [] && children == []
    {
      leaf := isLeaf;
      entries, children := [], [];
    }

    ghost predicate Valid()
      reads this, Repr
      decreases Repr
    {
      && this in Repr && tree.entries == entries && (leaf <==> children == []) && |tree.children| == |children|
      && (forall i :: 0 <= i < |children| ==>
            && children[i] in Repr && children[i].Repr <= Repr && this !in children[i].Repr
            && children[i].Valid() && children[i].tree == tree.children[i])
      && (forall i, j :: 0 <= i < j < |children| ==> children[i].Repr !! children[j].Repr)
    }
  }

  /** The nodes below some children. */
  ghost function Below(cs: seq<Node>): set<Node>
    reads cs
  {
    set i, n | 0 <= i < |cs| && n in cs[i].Repr :: n
  }

  /** Children that do not share nodes with each other or with their parent. */
  ghost predicate Apart(n: Node, cs: seq<Node>)
    reads cs, Below(cs)
  {
    && (forall i :: 0 <= i < |cs| ==> cs[i].Valid() && n !in cs[i].Repr)
    && (forall i, j :: 0 <= i < j < |cs| ==> cs[i].Repr !! cs[j].Repr)
  }

  /** A node over such children. */
  lemma NodeOver(n: Node)
    requires n.tree.entries == n.entries && (n.leaf <==> n.children == []) && |n.tree.children| == |n.children|
    requires n in n.Repr && Below(n.children) <= n.Repr && Apart(n, n.children)
    requires forall i :: 0 <= i < |n.children| ==> n.children[i].tree == n.tree.children[i]
    ensures n.Valid()
  {
  }

  lemma ChildrenApart(n: Node)
    requires n.Valid()
    ensures Apart(n, n.children) && Below(n.children) <= n.Repr
    ensures forall i :: 0 <= i < |n.children| ==> n.children[i].tree == n.tree.children[i]
  {
  }

  lemma ApartSlice(n: Node, cs: seq<Node>, a: nat, b: nat)
    requires Apart(n, cs) && a <= b <= |cs|
    ensures Apart(n, cs[a..b]) && Below(cs[a..b]) <= Below(cs) && n !in Below(cs[a..b])
  {
  }

  /** Different slices have no nodes in common. */
  lemma SlicesDisjoint(n: Node, cs: seq<Node>, a: nat)
    requires Apart(n, cs) && a <= |cs|
    ensures Below(cs[0..a]) !! Below(cs[a..|cs|])
  {
    var l, r := cs[0..a], cs[a..|cs|];
    forall i, j | 0 <= i < |l| && 0 <= j < |r|
      ensures l[i].Repr !! r[j].Repr
    {
      assert l[i] == cs[i] && r[j] == cs[a + j];
    }
  }

  class Database {
    const t: nat
    var root: Node
    ghost var height: nat

    ghost predicate Valid()
      reads this, root, root.Repr
    {
      root.Valid() && Spec.IsBTree(root.tree, t, height)
    }

    /** The entries of the index in the order a scan lists them. */
    ghost function Contents(): seq<Entry>
      requires Valid()
      reads this, root, root.Repr
    {
      Spec.InOrder(root.tree)
    }

    constructor (degree: nat)
      ensures Valid() && t == degree && Contents() == [] && fresh(root.Repr)
    {
      t := degree;
      var r := new Node(true);
      r.tree, r.Repr := Spec.Node([], []), {r};
      root := r;
      height := 0;
    }

    /** Appends the entries of `y` from `from` to `to` to those of `z`. */
    method CopyEntries(y: Node, z: Node, from: nat, to: nat)
      requires y != z && from <= to <= |y.entries|
      modifies z`entries
      ensures z.entries == old(z.entries) + y.entries[from..to]
    {
      var j := from;
      while j < to
        invariant from <= j <= to && z.entries == old(z.entries) + y.entries[from..j]
      {
        z.entries := z.entries + [y.entries[j]];
        j := j + 1;
      }
    }

    method CopyChildren(y: Node, z: Node, from: nat, to: nat)
      requires y != z && from <= to <= |y.children|
      modifies z`children
      ensures z.children == old(z.children) + y.children[from..to]
    {
      var j := from;
      while j < to
        invariant from <= j <= to && z.children == old(z.children) + y.children[from..j]
      {
        z.children := z.children + [y.children[j]];
        j := j + 1;
      }
    }

    /** Entries and children of the upper half move to the new node. */
    method MoveUpperHalf(y: Node, z: Node) returns (median: Entry)
      requires y != z && y.leaf == z.leaf && z.entries == [] && z.children == []
      requires |y.entries| == 2 * t - 1 && |y.children| == if y.leaf then 0 else 2 * t
      modifies y`entries, y`children, z`entries, z`children
      ensures y.entries == old(y.entries)[..t - 1] && z.entries == old(y.entries)[t..]
        && median == old(y.entries)[t - 1]
      ensures y.children == (if y.leaf then [] else old(y.children)[..t])
      ensures z.children == (if y.leaf then [] else old(y.children)[t..])
    {
      CopyEntries(y, z, t, 2 * t - 1);
      if !y.leaf {
        CopyChildren(y, z, t, 2 * t);
        y.children := y.children[..t];
      }
      median := y.entries[t - 1];
      y.entries := y.entries[..t - 1];
    }

    /** The full node `y` keeps the lower half; the upper half goes to a new node. */
    method Halve(y: Node) returns (z: Node, median: Entry)
      requires y.Valid() && Spec.CanSplit(y.tree, t)
      modifies y
      ensures fresh(z) && y.Valid() && z.Valid() && y.Repr !! z.Repr && z.Repr <= old(y.Repr) + {z}
        && y.Repr <= old(y.Repr)
      ensures y.tree == Spec.LeftHalf(old(y.tree), t) && z.tree == Spec.RightHalf(old(y.tree), t)
      ensures median == old(y.tree.entries[t - 1])
    {
      ghost var cs, tree, m := y.children, y.tree, if y.leaf then 0 else t;
      z, median := CutNode(y);
      RegroupBoth(y, z, cs, tree, Spec.LeftHalf(tree, t), Spec.RightHalf(tree, t), m);
    }

    /** The fields of both halves; what they stand for is not adjusted yet. */
    method CutNode(y: Node) returns (z: Node, median: Entry)
      requires y.Valid() && Spec.CanSplit(y.tree, t)
      modifies y`entries, y`children
      ensures fresh(z) && z.leaf == y.leaf && median == old(y.tree.entries[t - 1])
      ensures var cs, m := old(y.children), if y.leaf then 0 else t;
              && m <= |cs| == |y.tree.children| && y.children == cs[0..m] && z.children == cs[m..|cs|]
              && Apart(y, cs) && Apart(z, cs) && Below(cs) <= old(y.Repr) && y in old(y.Repr)
              && forall i :: 0 <= i < |cs| ==> cs[i].tree == y.tree.children[i]
      ensures y.entries == Spec.LeftHalf(y.tree, t).entries && z.entries == Spec.RightHalf(y.tree, t).entries
    {
      ghost var cs := y.children;
      ChildrenApart(y);
      ghost var below := Below(cs);
      z := new Node(y.leaf);
      median := MoveUpperHalf(y, z);
      assert Below(cs) == below;
    }

    ghost method RegroupBoth(y: Node, z: Node, cs: seq<Node>, tree: Spec.Tree, l: Spec.Tree, r: Spec.Tree, m: nat)
      requires y != z && Apart(y, cs) && Apart(z, cs) && m <= |cs| == |tree.children|
      requires y.children == cs[0..m] && z.children == cs[m..|cs|] && (y.leaf <==> y.children == [])
        && (z.leaf <==> z.children == [])
      requires y.entries == l.entries && tree.children[0..m] == l.children
      requires z.entries == r.entries && tree.children[m..|cs|] == r.children
      requires forall i :: 0 <= i < |cs| ==> cs[i].tree == tree.children[i]
      modifies y`tree, y`Repr, z`tree, z`Repr
      ensures y.Valid() && z.Valid() && y.Repr !! z.Repr && y.Repr <= {y} + Below(cs) && z.Repr <= {z} + Below(cs)
      ensures y.tree == l && z.tree == r
    {
      ghost var below, above := Below(cs[0..m]), Below(cs[m..|cs|]);
      y.tree, y.Repr := l, {y} + below;
      z.tree, z.Repr := r, {z} + above;
      assert forall i :: 0 <= i < |cs| ==>
        cs[i].Valid() && cs[i].Repr == old(cs[i].Repr) && cs[i].tree == tree.children[i];
      BothValid(y, z, cs, tree.children, m);
    }

    lemma BothValid(y: Node, z: Node, cs: seq<Node>, trees: seq<Spec.Tree>, m: nat)
      requires y != z && Apart(y, cs) && Apart(z, cs) && m <= |cs| == |trees|
      requires y.children == cs[0..m] && z.children == cs[m..|cs|] && (y.leaf <==> y.children == [])
        && (z.leaf <==> z.children == [])
      requires y.tree.entries == y.entries && y.tree.children == trees[0..m] && y.Repr == {y} + Below(y.children)
      requires z.tree.entries == z.entries && z.tree.children == trees[m..|cs|] && z.Repr == {z} + Below(z.children)
      requires forall i :: 0 <= i < |cs| ==> cs[i].tree == trees[i]
      ensures y.Valid() && z.Valid() && y.Repr !! z.Repr && y.Repr <= {y} + Below(cs) && z.Repr <= {z} + Below(cs)
    {
      StillApart(y, z, cs, m);
      NodeOverSlice(y, cs, trees, 0, m);
      NodeOverSlice(z, cs, trees, m, |cs|);
    }

    lemma StillApart(y: Node, z: Node, cs: seq<Node>, m: nat)
      requires y != z && Apart(y, cs) && Apart(z, cs) && m <= |cs|
      ensures ({y} + Below(cs[0..m])) !! ({z} + Below(cs[m..|cs|]))
    {
      ApartSlice(y, cs, m, |cs|);
      ApartSlice(z, cs, 0, m);
      SlicesDisjoint(y, cs, m);
    }

    /** A node over some of the children of another one. */
    lemma NodeOverSlice(n: Node, cs: seq<Node>, trees: seq<Spec.Tree>, a: nat, b: nat)
      requires Apart(n, cs) && a <= b <= |cs| == |trees| && n.children == cs[a..b] && n.Repr == {n} + Below(n.children)
      requires n.tree.entries == n.entries && n.tree.children == trees[a..b] && (n.leaf <==> n.children == [])
      requires forall i :: 0 <= i < |cs| ==> cs[i].tree == trees[i]
      ensures n.Valid() && n.Repr <= {n} + Below(cs)
    {
      ApartSlice(n, cs, a, b);
      assert forall i :: 0 <= i < |n.children| ==> n.children[i] == cs[a + i] && n.tree.children[i] == trees[a + i];
      NodeOver(n);
    }

    /** Splits child `i` of `x`, which is full; `x` itself never is. */
    method SplitChild(x: Node, i: nat)
      requires x.Valid() && i < |x.children| && |x.children| == |x.entries| + 1 && !Spec.Full(x.tree, t)
      requires Spec.CanSplit(x.tree.children[i], t)
      modifies x, x.children[i]
      ensures x.Valid() && fresh(x.Repr - old(x.Repr)) && x.tree == Spec.SplitChild(old(x.tree), i, t)
    {
      ghost var cs, tree := x.children, x.tree;
      ChildrenApart(x);
      var y := x.children[i];
      var z, median := Halve(y);
      assert forall j :: 0 <= j < |cs| && j != i ==>
        cs[j].Valid() && cs[j].tree == tree.children[j] && cs[j].Repr !! z.Repr;
      AttachSibling(x, i, y, z, median, tree);
    }

    /** The new sibling and the median go into the parent. */
    method AttachSibling(x: Node, i: nat, ghost y: Node, z: Node, median: Entry, ghost tree: Spec.Tree)
      requires i < |x.children| == |tree.children| && i <= |x.entries| && x.entries == tree.entries
        && x.children[i] == y
      requires Spec.CanSplit(tree.children[i], t) && median == tree.children[i].entries[t - 1]
      requires Apart(x, x.children) && z.Valid() && x !in z.Repr && x in x.Repr && Below(x.children) <= x.Repr
        && !x.leaf
      requires z.Repr <= x.Repr + {z}
      requires forall j :: 0 <= j < |x.children| ==> x.children[j].Repr !! z.Repr
      requires forall j :: 0 <= j < |x.children| && j != i ==> x.children[j].tree == tree.children[j]
      requires y.tree == Spec.LeftHalf(tree.children[i], t) && z.tree == Spec.RightHalf(tree.children[i], t)
      modifies x
      ensures x.Valid() && x.Repr == old(x.Repr) + {z} && x.tree == Spec.SplitChild(tree, i, t)
    {
      ghost var cs := x.children;
      x.children := x.children[..i + 1] + [z] + x.children[i + 1..];
      x.entries := Spec.InsertAt(x.entries, i, median);
      x.tree := Spec.SplitChild(tree, i, t);
      x.Repr := x.Repr + {z};
      assert Apart(x, cs);
      AfterSplit(x, cs, tree, i, y, z);
    }

    /** The new sibling is in its place among the children and in the tree of the parent. */
    ghost predicate Attached(x: Node, cs: seq<Node>, tree: Spec.Tree, i: nat, y: Node, z: Node)
      reads x, cs, z, Below(cs), z.Repr
    {
      && i < |cs| == |tree.children| && i <= |tree.entries| && Spec.CanSplit(tree.children[i], t) && cs[i] == y
      && x.children == cs[..i + 1] + [z] + cs[i + 1..] && x.tree == Spec.SplitChild(tree, i, t)
        && x.entries == x.tree.entries
      && Apart(x, cs) && z.Valid() && x !in z.Repr && x in x.Repr && Below(cs) <= x.Repr && z.Repr <= x.Repr && !x.leaf
      && (forall j :: 0 <= j < |cs| ==> cs[j].Repr !! z.Repr)
      && (forall j :: 0 <= j < |cs| && j != i ==> cs[j].tree == tree.children[j])
      && y.tree == Spec.LeftHalf(tree.children[i], t) && z.tree == Spec.RightHalf(tree.children[i], t)
    }

    lemma ChildAfter(x: Node, cs: seq<Node>, tree: Spec.Tree, i: nat, y: Node, z: Node, k: nat)
      requires Attached(x, cs, tree, i, y, z) && k < |x.children|
      ensures x.children[k] == if k <= i then cs[k] else if k == i + 1 then z else cs[k - 1]
      ensures |x.tree.children| == |x.children| && x.children[k].tree == x.tree.children[k]
      ensures x.children[k].Valid() && x !in x.children[k].Repr && x.children[k].Repr <= x.Repr
    {
      Spec.SplitHalves(tree, i, t);
    }

    lemma AfterSplit(x: Node, cs: seq<Node>, tree: Spec.Tree, i: nat, y: Node, z: Node)
      requires Attached(x, cs, tree, i, y, z)
      ensures x.Valid()
    {
      forall k | 0 <= k < |x.children|
        ensures x.children[k].Valid() && x !in x.children[k].Repr && x.children[k].Repr <= x.Repr
        ensures |x.tree.children| == |x.children| && x.children[k].tree == x.tree.children[k]
      {
        ChildAfter(x, cs, tree, i, y, z, k);
      }
      forall j, k | 0 <= j < k < |x.children|
        ensures x.children[j].Repr !! x.children[k].Repr
      {
        ChildAfter(x, cs, tree, i, y, z, j);
        ChildAfter(x, cs, tree, i, y, z, k);
      }
    }

    // ---------------------------------------------------------------- insertion

    /** The entries of a leaf while the gap for a new one is at index `i + 1`. */
    ghost predicate Shifting(now: seq<Entry>, s: seq<Entry>, i: int) {
      && -1 <= i < |s| && |now| == |s| + 1
      && now[..i + 1] == s[..i + 1] && now[i + 2..] == s[i + 1..]
    }

    lemma ShiftOne(now: seq<Entry>, s: seq<Entry>, i: int)
      requires Shifting(now, s, i) && i >= 0
      ensures now[i] == s[i] && Shifting(now[i + 1 := now[i]], s, i - 1)
    {
      assert now[i] == now[..i + 1][i];
      var next := now[i + 1 := now[i]];
      assert next[..i] == now[..i + 1][..i] == s[..i + 1][..i] == s[..i];
      assert next[i + 1..] == [s[i]] + now[i + 2..];
      assert s[i..] == [s[i]] + s[i + 1..];
    }

    lemma FillGap(now: seq<Entry>, s: seq<Entry>, i: int, e: Entry)
      requires Shifting(now, s, i)
      ensures now[i + 1 := e] == Spec.InsertAt(s, i + 1, e)
    {
      assert now[i + 1 := e] == now[..i + 1] + [e] + now[i + 2..];
    }

    /** Shifts the greater entries of a leaf up and puts the new one into the gap. */
    method InsertIntoLeaf(x: Node, e: Entry)
      modifies x`entries
      ensures x.entries == Spec.InsertAt(old(x.entries), Spec.Place(old(x.entries), e.key), e)
    {
      ghost var s := x.entries;
      var i := |x.entries| - 1;
      x.entries := x.entries + [e];
      while i >= 0 && e.key < x.entries[i].key
        invariant Shifting(x.entries, s, i)
        invariant forall k :: i < k < |s| ==> e.key < s[k].key
      {
        ShiftOne(x.entries, s, i);
        x.entries := x.entries[i + 1 := x.entries[i]];
        i := i - 1;
      }
      if i >= 0 { ShiftOne(x.entries, s, i); }
      FillGap(x.entries, s, i, e);
      x.entries := x.entries[i + 1 := e];
      PlaceIs(s, e.key, i + 1);
    }

    lemma {:induction false} PlaceIs(s: seq<Entry>, key: int, c: nat)
      requires c <= |s| && (c > 0 ==> s[c - 1].key <= key) && forall k :: c <= k < |s| ==> key < s[k].key
      ensures Spec.Place(s, key) == c
      decreases |s|
    {
      if c < |s| { PlaceIs(s[..|s| - 1], key, c); }
    }

    /** The child to descend into, looked for from the right. */
    method FindChild(x: Node, key: int) returns (c: nat)
      ensures c == Spec.Place(x.entries, key)
    {
      var i := |x.entries| - 1;
      while i >= 0 && key < x.entries[i].key
        invariant -1 <= i < |x.entries|
        invariant forall k :: i < k < |x.entries| ==> key < x.entries[k].key
      {
        i := i - 1;
      }
      PlaceIs(x.entries, key, i + 1);
      c := i + 1;
    }

    /** Insertion below a node with room for a median; a full child is split before it is entered. */
    method InsertNonFull(x: Node, e: Entry, ghost h: nat, ghost min: int)
      requires x.Valid() && Holds(x.tree, h, min) && Spec.Roomy(x.tree, t)
      modifies x.Repr
      ensures x.Valid() && fresh(x.Repr - old(x.Repr)) && Holds(x.tree, h, min)
      ensures Spec.Inserted(Spec.InOrder(old(x.tree)), Spec.InOrder(x.tree), e)
      decreases h, 1
    {
      if x.leaf {
        PutInLeaf(x, e, h, min);
        return;
      }
      var c := FindChild(x, e.key);
      c := SplitIfFull(x, c, e.key, h, min);
      InsertBelow(x, c, e, h, min);
    }

    /** The shape of a subtree, and its order. */
    ghost predicate Holds(x: Spec.Tree, h: nat, min: int) {
      Spec.Shape(x, t, h, min) && Spec.Proper(x) && Spec.Sorted(Spec.InOrder(x))
    }

    /** A full child is split before it is entered; the key decides on which side of the median to go on.
        The contents stay the same, and the key belongs between the separators of the chosen child. */
    method SplitIfFull(x: Node, c0: nat, key: int, ghost h: nat, ghost min: int) returns (c: nat)
      requires x.Valid() && h > 0 && Holds(x.tree, h, min) && Spec.Roomy(x.tree, t)
        && c0 == Spec.Place(x.entries, key)
      modifies x, x.Repr
      ensures x.Valid() && fresh(x.Repr - old(x.Repr)) && Holds(x.tree, h, min)
      ensures c < |x.children| && !Spec.Full(x.tree.children[c], t) && Spec.InOrder(x.tree) == Spec.InOrder(old(x.tree))
      ensures (c > 0 ==> x.entries[c - 1].key <= key) && (c < |x.entries| ==> key <= x.entries[c].key)
    {
      if |x.children[c0].entries| == 2 * t - 1 {
        c := SplitFull(x, c0, key, h, min);
      } else {
        c := c0;
      }
    }

    method SplitFull(x: Node, c0: nat, key: int, ghost h: nat, ghost min: int) returns (c: nat)
      requires x.Valid() && h > 0 && Holds(x.tree, h, min) && !Spec.Full(x.tree, t)
        && c0 == Spec.Place(x.entries, key)
      requires c0 < |x.children| && Spec.Full(x.tree.children[c0], t)
      modifies x, x.Repr
      ensures x.Valid() && fresh(x.Repr - old(x.Repr)) && Holds(x.tree, h, min)
      ensures c < |x.children| && !Spec.Full(x.tree.children[c], t) && Spec.InOrder(x.tree) == Spec.InOrder(old(x.tree))
      ensures (c > 0 ==> x.entries[c - 1].key <= key) && (c < |x.entries| ==> key <= x.entries[c].key)
    {
      SplitFacts(x.tree, c0, key, h, min);
      SplitChild(x, c0);
      c := if key > x.entries[c0].key then c0 + 1 else c0;
      assert c == Spec.SplitPlace(x.tree, c0, key);
    }

    lemma SplitFacts(x: Spec.Tree, c: nat, key: int, h: nat, min: int)
      requires h > 0 && Holds(x, h, min) && !Spec.Full(x, t) && c == Spec.Place(x.entries, key)
      requires c < |x.children| && Spec.Full(x.children[c], t)
      ensures Spec.CanSplit(x.children[c], t) && c < |Spec.SplitChild(x, c, t).entries|
      ensures var w := Spec.SplitChild(x, c, t);
              Holds(w, h, min) && Spec.InOrder(w) == Spec.InOrder(x) && Chosen(w, Spec.SplitPlace(w, c, key), key)
    {
      Spec.SplitReady(x, c, key, t, h, min);
    }

    /** Child `c` has room, and the key belongs between its separators. */
    ghost predicate Chosen(w: Spec.Tree, c: nat, key: int) {
      && c < |w.children| && !Spec.Full(w.children[c], t)
      && (0 < c <= |w.entries| ==> w.entries[c - 1].key <= key) && (c < |w.entries| ==> key <= w.entries[c].key)
    }

    method PutInLeaf(x: Node, e: Entry, ghost h: nat, ghost min: int)
      requires x.Valid() && x.leaf && Holds(x.tree, h, min) && !Spec.Full(x.tree, t)
      modifies x
      ensures x.Valid() && x.Repr == old(x.Repr) && Holds(x.tree, h, min)
      ensures Spec.Inserted(Spec.InOrder(old(x.tree)), Spec.InOrder(x.tree), e)
    {
      Spec.LeafInserts(x.entries, e);
      ghost var s := x.entries;
      InsertIntoLeaf(x, e);
      Spec.InsertedSorted(s, x.entries, e);
      x.tree := Spec.Node(x.entries, []);
    }

    /** The recursive call for child `c`, after which the parent stands for the changed tree. */
    method InsertBelow(x: Node, c: nat, e: Entry, ghost h: nat, ghost min: int)
      requires x.Valid() && h > 0 && Holds(x.tree, h, min) && c < |x.children|
        && !Spec.Full(x.tree.children[c], t)
      requires (c > 0 ==> x.entries[c - 1].key <= e.key) && (c < |x.entries| ==> e.key <= x.entries[c].key)
      modifies x.Repr
      ensures x.Valid() && fresh(x.Repr - old(x.Repr)) && Holds(x.tree, h, min)
      ensures Spec.Inserted(Spec.InOrder(old(x.tree)), Spec.InOrder(x.tree), e)
      decreases h, 0
    {
      ghost var tree := x.tree;
      ChildHolds(tree, c, h, min);
      ReplaceBelow(x, c, e, h);
      Spec.ChildInserts(tree, c, x.tree.children[c], e, t, h, min);
      Spec.InsertedSorted(Spec.InOrder(tree), Spec.InOrder(x.tree), e);
    }

    lemma ChildHolds(x: Spec.Tree, c: nat, h: nat, min: int)
      requires h > 0 && Holds(x, h, min) && c < |x.children|
      ensures Holds(x.children[c], h - 1, t - 1)
    {
      assert Spec.Shape(x.children[c], t, h - 1, t - 1);
      Spec.AroundChild(x, c);
    }

    method ReplaceBelow(x: Node, c: nat, e: Entry, ghost h: nat)
      requires x.Valid() && h > 0 && c < |x.children| && Holds(x.tree.children[c], h - 1, t - 1)
      requires !Spec.Full(x.tree.children[c], t)
      modifies x.Repr
      ensures x.Valid() && fresh(x.Repr - old(x.Repr)) && |x.tree.children| == |old(x.tree).children|
      ensures x.tree == Spec.Node(old(x.tree).entries, old(x.tree).children[c := x.tree.children[c]])
      ensures Holds(x.tree.children[c], h - 1, t - 1)
      ensures Spec.Inserted(Spec.InOrder(old(x.tree).children[c]), Spec.InOrder(x.tree.children[c]), e)
      decreases h, 0, 0
    {
      ghost var cs, tree := x.children, x.tree;
      ChildrenApart(x);
      var child := x.children[c];
      InsertNonFull(child, e, h - 1, t - 1);
      assert forall j :: 0 <= j < |cs| && j != c ==>
        cs[j].Valid() && cs[j].tree == tree.children[j] && cs[j].Repr !! child.Repr;
      assert Apart(x, cs);
      Adopt(x, c, Spec.Node(tree.entries, tree.children[c := child.tree]));
    }

    /** A parent whose child `c` changed stands for the changed tree. */
    ghost method Adopt(x: Node, c: nat, tree: Spec.Tree)
      requires c < |x.children| == |tree.children| && !x.leaf && x.entries == tree.entries && x in x.Repr
      requires Apart(x, x.children) && forall j :: 0 <= j < |x.children| ==> x.children[j].tree == tree.children[j]
      requires forall j :: 0 <= j < |x.children| && j != c ==> x.children[j].Repr <= x.Repr
      modifies x`tree, x`Repr
      ensures x.Valid() && x.tree == tree && x.Repr == old(x.Repr) + x.children[c].Repr
    {
      x.tree := tree;
      x.Repr := x.Repr + x.children[c].Repr;
      assert Apart(x, x.children);
      NodeOver(x);
    }

    /** Adds an entry; keys may repeat. The contents stay sorted and gain exactly this entry. */
    method Insert(key: int, row: string)
      requires Valid()
      modifies this, root, root.Repr
      ensures Valid() && fresh(root.Repr - old(root.Repr))
      ensures Spec.Inserted(old(Contents()), Contents(), Spec.Entry(key, row))
      ensures Spec.Sorted(Contents())
        && multiset(Contents()) == multiset(old(Contents())) + multiset{Spec.Entry(key, row)}
    {
      ghost var tree := root.tree;
      var e := Spec.Entry(key, row);
      MakeRoom();
      InsertNonFull(root, e, height, Spec.RootMin(height));
      Spec.InsertedSorted(Spec.InOrder(tree), Spec.InOrder(root.tree), e);
    }

    /** A full root is split below a new one before the descent begins. */
    method MakeRoom()
      requires Valid()
      modifies this, root, root.Repr
      ensures Valid() && Spec.Roomy(root.tree, t) && fresh(root.Repr - old(root.Repr)) && Contents() == old(Contents())
    {
      if |root.entries| == 2 * t - 1 {
        GrowRoot(height);
        height := height + 1;
      }
    }

    /** A full root gets a new root above it and is split. */
    method GrowRoot(ghost h: nat)
      requires root.Valid() && Holds(root.tree, h, Spec.RootMin(h)) && Spec.Full(root.tree, t)
      modifies this`root, root, root.Repr
      ensures root.Valid() && fresh(root.Repr - old(root.Repr)) && Spec.Roomy(root.tree, t)
      ensures Holds(root.tree, h + 1, 1) && Spec.InOrder(root.tree) == Spec.InOrder(old(root.tree))
    {
      ghost var x := root.tree;
      GrowFacts(x, h);
      SplitBelowNewRoot();
      assert root.tree == Spec.SplitChild(Spec.Node([], [x]), 0, t);
    }

    method SplitBelowNewRoot()
      requires root.Valid() && Spec.CanSplit(root.tree, t)
      modifies this`root, root, root.Repr
      ensures root.Valid() && fresh(root.Repr - old(root.Repr))
      ensures root.tree == Spec.SplitChild(Spec.Node([], [old(root.tree)]), 0, t)
    {
      NewRoot();
      SplitChild(root, 0);
    }

    lemma GrowFacts(x: Spec.Tree, h: nat)
      requires Holds(x, h, Spec.RootMin(h)) && Spec.Full(x, t)
      ensures Spec.CanSplit(x, t)
      ensures var w := Spec.SplitChild(Spec.Node([], [x]), 0, t);
              Holds(w, h + 1, 1) && Spec.InOrder(w) == Spec.InOrder(x) && Spec.Roomy(w, t)
    {
      Spec.RootSplit(x, t, h);
    }

    /** The root becomes the only child of a new one. */
    method NewRoot()
      requires root.Valid()
      modifies this`root
      ensures root.Valid() && fresh(root.Repr - old(root.Repr)) && root.tree == Spec.Node([], [old(root.tree)])
      ensures root.children == [old(root)] && root.entries == []
    {
      var s := new Node(false);
      s.children := [root];
      s.tree := Spec.Node([], [root.tree]);
      s.Repr := {s} + root.Repr;
      assert s.Valid();
      root := s;
    }

    // ---------------------------------------------------------------- reading

    method SearchNode(x: Node, key: int) returns (r: Spec.Option<Entry>)
      requires x.Valid() && Spec.Proper(x.tree)
      ensures r == Spec.Search(x.tree, key)
      decreases x.Repr
    {
      var i := 0;
      while i < |x.entries| && key > x.entries[i].key
        invariant i <= |x.entries|
        invariant Spec.FirstNotBelow(x.entries, key, 0) == Spec.FirstNotBelow(x.entries, key, i)
      {
        i := i + 1;
      }
      if i < |x.entries| && key == x.entries[i].key { return Spec.Some(x.entries[i]); }
      if x.leaf { return Spec.None; }
      r := SearchNode(x.children[i], key);
    }

    /** A row inserted under the key, if and only if there is one. */
    method Search(key: int) returns (r: Spec.Option<string>)
      requires Valid()
      ensures r.Some? <==> Spec.HasKey(Contents(), key)
      ensures r.Some? ==> Spec.Entry(key, r.value) in Contents()
    {
      Spec.SearchIsExact(root.tree, key);
      var e := SearchNode(root, key);
      r := if e.None? then Spec.None else Spec.Some(e.value.row);
    }

    /** Appends the in-order listing of a subtree to what is listed already. */
    method InOrder(x: Node, listed: seq<Entry>) returns (out: seq<Entry>)
      requires x.Valid() && Spec.Proper(x.tree)
      ensures out == listed + Spec.InOrder(x.tree)
      decreases x.Repr
    {
      out := listed;
      var i := 0;
      while i < |x.entries|
        invariant i <= |x.entries|
        invariant x.leaf ==> out == listed + x.entries[..i]
        invariant !x.leaf ==> out == listed + Spec.Prefix(x.tree, i)
      {
        if !x.leaf {
          ChildFacts(x, i);
          out := InOrder(x.children[i], out);
          PrefixStep(x.tree, i, listed);
        }
        out := out + [x.entries[i]];
        i := i + 1;
      }
      if !x.leaf {
        ChildFacts(x, i);
        LastStep(x.tree, listed);
        out := InOrder(x.children[i], out);
      } else {
        assert x.entries[..i] == x.entries;
      }
    }

    lemma LastStep(tree: Spec.Tree, listed: seq<Entry>)
      requires Spec.Proper(tree) && tree.children != []
      ensures var n := |tree.entries|;
              listed + Spec.Prefix(tree, n) + Spec.InOrder(tree.children[n]) == listed + Spec.InOrder(tree)
    {
      var n := |tree.entries|;
      var a, b := Spec.Prefix(tree, n), Spec.InOrder(tree.children[n]);
      assert listed + a + b == listed + (a + b);
    }

    lemma ChildFacts(x: Node, i: nat)
      requires x.Valid() && Spec.Proper(x.tree) && !x.leaf && i <= |x.entries|
      ensures |x.children| == |x.entries| + 1 && x.children[i].Valid() && x.children[i].Repr < x.Repr
      ensures x.children[i].tree == x.tree.children[i] && Spec.Proper(x.children[i].tree)
    {
    }

    lemma PrefixStep(tree: Spec.Tree, i: nat, listed: seq<Entry>)
      requires Spec.Proper(tree) && tree.children != [] && i < |tree.entries|
      ensures listed + Spec.Prefix(tree, i + 1)
        == listed + Spec.Prefix(tree, i) + Spec.InOrder(tree.children[i]) + [tree.entries[i]]
    {
    }

    method Scan() returns (out: seq<Entry>)
      requires Valid()
      ensures out == Contents() && Spec.Sorted(out)
    {
      out := InOrder(root, []);
    }
  }
}
