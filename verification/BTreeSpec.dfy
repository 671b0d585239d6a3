/** B-trees of any minimum degree as values: top-down insertion with preemptive splits, and what it
    keeps. Keys may occur more than once. */
module BTreeSpec {

  datatype Entry = Entry(key: int, row: string)

  /** A node with its entries and, unless it is a leaf, one child more than entries. */
  datatype Tree = Node(entries: seq<Entry>, children: seq<Tree>)

  // ------------------------------------------------------------------ contents

  /** Entries and children have matching numbers throughout. */
  predicate Proper(x: Tree) {
    x.children != [] ==> |x.children| == |x.entries| + 1 && forall i :: 0 <= i < |x.children| ==> Proper(x.children[i])
  }

  /** The in-order listing of what lies left of child `c`. */
  function Prefix(x: Tree, c: nat): seq<Entry>
    requires Proper(x) && x.children != [] && c <= |x.entries|
    decreases x, c
  {
    if c == 0 then [] else Prefix(x, c - 1) + InOrder(x.children[c - 1]) + [x.entries[c - 1]]
  }

  function InOrder(x: Tree): seq<Entry>
    requires Proper(x)
    decreases x, |x.entries| + 1
  {
    if x.children == [] then x.entries else Prefix(x, |x.entries|) + InOrder(x.children[|x.entries|])
  }

  /** The in-order listing of what lies right of child `c`. */
  function Suffix(x: Tree, c: nat): seq<Entry>
    requires Proper(x) && x.children != [] && c <= |x.entries|
    decreases |x.entries| - c
  {
    if c == |x.entries| then [] else [x.entries[c]] + InOrder(x.children[c + 1]) + Suffix(x, c + 1)
  }

  /** The listing cut at one child. */
  lemma {:induction false} CutAt(x: Tree, c: nat)
    requires Proper(x) && x.children != [] && c <= |x.entries|
    ensures InOrder(x) == Prefix(x, c) + InOrder(x.children[c]) + Suffix(x, c)
    decreases |x.entries| - c
  {
    if c < |x.entries| {
      CutAt(x, c + 1);
      var p, m, e, r, s := Prefix(x, c), InOrder(x.children[c]), [x.entries[c]], InOrder(x.children[c + 1]),
        Suffix(x, c + 1);
      assert (p + m + e) + r + s == p + m + (e + r + s);
    }
  }

  lemma {:induction false} SamePrefix(x: Tree, y: Tree, c: nat)
    requires Proper(x) && Proper(y) && x.children != [] && y.children != [] && c <= |x.entries| && c <= |y.entries|
    requires forall i :: 0 <= i < c ==> x.entries[i] == y.entries[i] && x.children[i] == y.children[i]
    ensures Prefix(x, c) == Prefix(y, c)
  {
    if c > 0 { SamePrefix(x, y, c - 1); }
  }

  /** Two nodes that agree right of child `c` and of child `d`. */
  lemma {:induction false} SameSuffix(x: Tree, c: nat, y: Tree, d: nat)
    requires Proper(x) && Proper(y) && x.children != [] && y.children != [] && c <= |x.entries| && d <= |y.entries|
    requires x.entries[c..] == y.entries[d..] && x.children[c + 1..] == y.children[d + 1..]
    ensures Suffix(x, c) == Suffix(y, d)
    decreases |x.entries| - c
  {
    assert |x.entries[c..]| == |y.entries[d..]|;
    if c < |x.entries| {
      assert x.entries[c] == x.entries[c..][0] == y.entries[d..][0] == y.entries[d];
      assert x.children[c + 1] == x.children[c + 1..][0] == y.children[d + 1..][0] == y.children[d + 1];
      assert x.entries[c + 1..] == x.entries[c..][1..] == y.entries[d..][1..] == y.entries[d + 1..];
      assert x.children[c + 2..] == x.children[c + 1..][1..] == y.children[d + 1..][1..] == y.children[d + 2..];
      SameSuffix(x, c + 1, y, d + 1);
    }
  }

  // ------------------------------------------------------------------ shape

  /** Every leaf lies `h` levels below, nodes hold between `min` and 2t - 1 entries at the top and
      between t - 1 and 2t - 1 below. For degree 0 the maximum wraps around to the largest size there is,
      so a node of it is never full. */
  predicate Shape(x: Tree, t: nat, h: nat, min: int)
    decreases h
  {
    && min <= |x.entries| && (t > 0 ==> |x.entries| <= 2 * t - 1)
    && if h == 0 then x.children == []
       else |x.children| == |x.entries| + 1 && forall i :: 0 <= i < |x.children| ==>
         Shape(x.children[i], t, h - 1, t - 1)
  }

  lemma {:induction false} ShapeIsProper(x: Tree, t: nat, h: nat, min: int)
    requires Shape(x, t, h, min)
    ensures Proper(x)
    decreases h
  {
    if h > 0 {
      forall i | 0 <= i < |x.children|
        ensures Proper(x.children[i])
      {
        ShapeIsProper(x.children[i], t, h - 1, t - 1);
      }
    }
  }

  function Pow(b: nat, n: nat): nat {
    if n == 0 then 1 else b * Pow(b, n - 1)
  }

  lemma OneMore(c: nat, p: nat)
    requires c > 0
    ensures c * p == (c - 1) * p + p
  {
  }

  lemma {:induction false} PrefixIsLong(x: Tree, t: nat, h: nat, min: int, c: nat)
    requires t >= 1 && h > 0 && Shape(x, t, h, min) && Proper(x) && c <= |x.entries|
    ensures |Prefix(x, c)| >= c * Pow(t, h)
    decreases h, c
  {
    if c > 0 {
      PrefixIsLong(x, t, h, min, c - 1);
      assert Shape(x.children[c - 1], t, h - 1, t - 1);
      SubtreeIsLarge(x.children[c - 1], t, h - 1);
      OneMore(c, Pow(t, h));
    }
  }

  /** A node below the root, `h` levels above the leaves, holds at least t ^ (h + 1) - 1 entries. */
  lemma {:induction false} SubtreeIsLarge(x: Tree, t: nat, h: nat)
    requires t >= 1 && Shape(x, t, h, t - 1) && Proper(x)
    ensures |InOrder(x)| >= Pow(t, h + 1) - 1
    decreases h, |x.entries| + 1
  {
    if h == 0 {
      assert Pow(t, 1) == t * Pow(t, 0);
    } else {
      PrefixIsLong(x, t, h, t - 1, |x.entries|);
      SubtreeIsLarge(x.children[|x.entries|], t, h - 1);
      AtLeast(|x.entries|, t - 1, Pow(t, h));
      OneMore(t, Pow(t, h));
    }
  }

  lemma AtLeast(a: nat, b: nat, f: nat)
    requires a >= b
    ensures a * f >= b * f
  {
  }

  /** A tree of height `h` holds at least 2 t ^ h - 1 entries, so its height is logarithmic. */
  lemma TreeIsLarge(x: Tree, t: nat, h: nat)
    requires t >= 1 && h >= 1 && Shape(x, t, h, 1)
    ensures Proper(x) && |InOrder(x)| >= 2 * Pow(t, h) - 1
  {
    ShapeIsProper(x, t, h, 1);
    PrefixIsLong(x, t, h, 1, |x.entries|);
    SubtreeIsLarge(x.children[|x.entries|], t, h - 1);
    AtLeast(|x.entries|, 1, Pow(t, h));
  }

  // ------------------------------------------------------------------ splitting

  function InsertAt<T>(s: seq<T>, i: nat, x: T): (r: seq<T>)
    requires i <= |s|
    ensures |r| == |s| + 1
  {
    s[..i] + [x] + s[i..]
  }

  predicate Full(x: Tree, t: nat) {
    |x.entries| == 2 * t - 1
  }

  /** An insertion can go on below the node: it has room for a median, or no child will need that. */
  predicate Roomy(x: Tree, t: nat) {
    !Full(x, t) || (x.children != [] && forall i :: 0 <= i < |x.children| ==> !Full(x.children[i], t))
  }

  /** A full node with its children. */
  predicate CanSplit(y: Tree, t: nat) {
    t >= 1 && Full(y, t) && (y.children != [] ==> |y.children| == 2 * t)
  }

  function LeftHalf(y: Tree, t: nat): Tree
    requires CanSplit(y, t)
  {
    Node(y.entries[..t - 1], if y.children == [] then [] else y.children[..t])
  }

  function RightHalf(y: Tree, t: nat): Tree
    requires CanSplit(y, t)
  {
    Node(y.entries[t..], if y.children == [] then [] else y.children[t..])
  }

  /** Child `i`, which is full, becomes two, with its median between them. */
  function SplitChild(x: Tree, i: nat, t: nat): Tree
    requires i <= |x.entries| && i < |x.children| && CanSplit(x.children[i], t)
  {
    var y := x.children[i];
    Node(InsertAt(x.entries, i, y.entries[t - 1]),
      x.children[..i] + [LeftHalf(y, t), RightHalf(y, t)] + x.children[i + 1..])
  }

  lemma HalvesProper(y: Tree, t: nat)
    requires Proper(y) && CanSplit(y, t)
    ensures Proper(LeftHalf(y, t)) && Proper(RightHalf(y, t))
  {
  }

  lemma Reassociate(a: seq<Entry>, b: seq<Entry>, c: seq<Entry>, d: seq<Entry>, e: seq<Entry>)
    ensures a + b + (c + d + e) == a + b + c + (d + e)
    ensures a + (b + c + d) + e == a + b + (c + d + e)
  {
  }

  lemma RightFromZero(r: Tree)
    requires Proper(r) && r.children != []
    ensures InOrder(r) == InOrder(r.children[0]) + Suffix(r, 0)
  {
    CutAt(r, 0);
    assert Prefix(r, 0) + InOrder(r.children[0]) == InOrder(r.children[0]);
  }

  /** The median separates the contents of the halves. */
  lemma HalvesInOrder(y: Tree, t: nat)
    requires Proper(y) && CanSplit(y, t)
    ensures Proper(LeftHalf(y, t)) && Proper(RightHalf(y, t))
    ensures InOrder(y) == InOrder(LeftHalf(y, t)) + [y.entries[t - 1]] + InOrder(RightHalf(y, t))
  {
    HalvesProper(y, t);
    if y.children == [] {
      assert y.entries == y.entries[..t - 1] + [y.entries[t - 1]] + y.entries[t..];
    } else {
      InnerHalvesInOrder(y, t);
    }
  }

  lemma LeftHalfInOrder(y: Tree, t: nat)
    requires Proper(y) && CanSplit(y, t) && y.children != [] && Proper(LeftHalf(y, t))
    ensures InOrder(LeftHalf(y, t)) == Prefix(y, t - 1) + InOrder(y.children[t - 1])
  {
    var l := LeftHalf(y, t);
    assert |l.entries| == t - 1 && l.children[t - 1] == y.children[t - 1];
    SamePrefix(y, l, t - 1);
  }

  lemma RightHalfInOrder(y: Tree, t: nat)
    requires Proper(y) && CanSplit(y, t) && y.children != [] && Proper(RightHalf(y, t))
    ensures InOrder(RightHalf(y, t)) == InOrder(y.children[t]) + Suffix(y, t)
  {
    var r := RightHalf(y, t);
    assert r.children[0] == y.children[t];
    RightFromZero(r);
    SameSuffix(y, t, r, 0);
  }

  lemma InnerHalvesInOrder(y: Tree, t: nat)
    requires Proper(y) && CanSplit(y, t) && y.children != []
    requires Proper(LeftHalf(y, t)) && Proper(RightHalf(y, t))
    ensures InOrder(y) == InOrder(LeftHalf(y, t)) + [y.entries[t - 1]] + InOrder(RightHalf(y, t))
  {
    CutAt(y, t - 1);
    LeftHalfInOrder(y, t);
    RightHalfInOrder(y, t);
    assert Suffix(y, t - 1) == [y.entries[t - 1]] + InOrder(y.children[t]) + Suffix(y, t);
    Reassociate(Prefix(y, t - 1), InOrder(y.children[t - 1]), [y.entries[t - 1]], InOrder(y.children[t]), Suffix(y, t));
  }

  lemma SplitProper(x: Tree, i: nat, t: nat)
    requires Proper(x) && i < |x.children| && CanSplit(x.children[i], t)
    ensures i <= |x.entries| && Proper(SplitChild(x, i, t))
  {
    HalvesProper(x.children[i], t);
  }

  /** A split moves entries between nodes but does not change the contents. */
  lemma SplitInOrder(x: Tree, i: nat, t: nat)
    requires Proper(x) && i < |x.children| && CanSplit(x.children[i], t)
    ensures i <= |x.entries| && Proper(SplitChild(x, i, t)) && InOrder(SplitChild(x, i, t)) == InOrder(x)
  {
    SplitProper(x, i, t);
    SplitParts(x, i, t);
    CutAt(x, i);
    CutAt(SplitChild(x, i, t), i);
    HalvesInOrder(x.children[i], t);
    var y := x.children[i];
    Reassociate(Prefix(x, i), InOrder(LeftHalf(y, t)), [y.entries[t - 1]], InOrder(RightHalf(y, t)), Suffix(x, i));
  }

  lemma SplitParts(x: Tree, i: nat, t: nat)
    requires Proper(x) && i < |x.children| && CanSplit(x.children[i], t) && i <= |x.entries|
      && Proper(SplitChild(x, i, t))
    requires Proper(RightHalf(x.children[i], t))
    ensures var w, y := SplitChild(x, i, t), x.children[i];
            Prefix(w, i) == Prefix(x, i) && Suffix(w, i) == [y.entries[t - 1]] + InOrder(RightHalf(y, t)) + Suffix(x, i)
  {
    var w := SplitChild(x, i, t);
    SamePrefix(x, w, i);
    assert w.entries[i + 1..] == x.entries[i..];
    assert w.children[i + 2..] == x.children[i + 1..];
    SameSuffix(x, i, w, i + 1);
  }

  lemma SplitShape(x: Tree, i: nat, t: nat, h: nat, min: int)
    requires t >= 1 && h > 0 && Shape(x, t, h, min) && |x.entries| < 2 * t - 1
    requires i < |x.children| && Full(x.children[i], t)
    ensures i <= |x.entries| && CanSplit(x.children[i], t)
    ensures Shape(SplitChild(x, i, t), t, h, min) && |SplitChild(x, i, t).entries| == |x.entries| + 1
    ensures !Full(LeftHalf(x.children[i], t), t) && !Full(RightHalf(x.children[i], t), t)
  {
    var y, w := x.children[i], SplitChild(x, i, t);
    assert Shape(y, t, h - 1, t - 1);
    assert Shape(LeftHalf(y, t), t, h - 1, t - 1) && Shape(RightHalf(y, t), t, h - 1, t - 1);
  }

  // ------------------------------------------------------------------ insertion

  /** The place of a new key among the entries of a node: behind the last one that is not greater. */
  function Place(es: seq<Entry>, key: int): (c: nat)
    ensures c <= |es|
    ensures c > 0 ==> es[c - 1].key <= key
    ensures c < |es| ==> key < es[c].key
  {
    if es == [] then 0 else if key < es[|es| - 1].key then Place(es[..|es| - 1], key) else |es|
  }

  /** Where the descent goes after a split at `c`: right of the median only when the key is greater. */
  function SplitPlace(x2: Tree, c: nat, key: int): nat
    requires c < |x2.entries|
  {
    if key > x2.entries[c].key then c + 1 else c
  }

  lemma SplitHalves(x: Tree, c: nat, t: nat)
    requires c <= |x.entries| && c < |x.children| && CanSplit(x.children[c], t)
    ensures var w, y := SplitChild(x, c, t), x.children[c];
            |w.children| == |x.children| + 1 && w.children[c] == LeftHalf(y, t) && w.children[c + 1] == RightHalf(y, t)
            && |w.entries| == |x.entries| + 1 && w.entries[c] == y.entries[t - 1]
            && (c > 0 ==> w.entries[c - 1] == x.entries[c - 1])
            && (c < |x.entries| ==> w.entries[c + 1] == x.entries[c])
  {
  }

  function RootMin(h: nat): int {
    if h == 0 then 0 else 1
  }

  // ------------------------------------------------------------------ order

  predicate Sorted(s: seq<Entry>) {
    forall i, j :: 0 <= i < j < |s| ==> s[i].key <= s[j].key
  }

  predicate AllAtMost(s: seq<Entry>, key: int) {
    forall i :: 0 <= i < |s| ==> s[i].key <= key
  }

  predicate AllAtLeast(s: seq<Entry>, key: int) {
    forall i :: 0 <= i < |s| ==> key <= s[i].key
  }

  /** `r` is `s` with `e` put between the keys that are not greater and those that are not smaller. */
  ghost predicate Inserted(s: seq<Entry>, r: seq<Entry>, e: Entry) {
    exists p :: InsertedAt(s, r, e, p)
  }

  ghost predicate InsertedAt(s: seq<Entry>, r: seq<Entry>, e: Entry, p: int) {
    0 <= p <= |s| && r == s[..p] + [e] + s[p..] && AllAtMost(s[..p], e.key) && AllAtLeast(s[p..], e.key)
  }

  lemma SortedConcat(a: seq<Entry>, b: seq<Entry>, key: int)
    requires Sorted(a) && Sorted(b) && AllAtMost(a, key) && AllAtLeast(b, key)
    ensures Sorted(a + b)
  {
    var s := a + b;
    forall i, j | 0 <= i < j < |s|
      ensures s[i].key <= s[j].key
    {
      if j < |a| {
        assert s[i] == a[i] && s[j] == a[j];
      } else if i < |a| {
        assert s[i] == a[i] && s[j] == b[j - |a|];
      } else {
        assert s[i] == b[i - |a|] && s[j] == b[j - |a|];
      }
    }
  }

  lemma SliceSorted(s: seq<Entry>, p: nat)
    requires Sorted(s) && p <= |s|
    ensures Sorted(s[..p]) && Sorted(s[p..])
  {
  }

  /** Such an insertion keeps a listing sorted and adds exactly the new entry. */
  lemma InsertedSorted(s: seq<Entry>, r: seq<Entry>, e: Entry)
    requires Sorted(s) && Inserted(s, r, e)
    ensures Sorted(r) && multiset(r) == multiset(s) + multiset{e}
  {
    var p :| InsertedAt(s, r, e, p);
    SliceSorted(s, p);
    SortedConcat(s[..p], [e], e.key);
    SortedConcat(s[..p] + [e], s[p..], e.key);
    assert s == s[..p] + s[p..];
  }

  lemma InsertedBetween(a: seq<Entry>, m: seq<Entry>, b: seq<Entry>, m2: seq<Entry>, e: Entry)
    requires Inserted(m, m2, e) && AllAtMost(a, e.key) && AllAtLeast(b, e.key)
    ensures Inserted(a + m + b, a + m2 + b, e)
  {
    var p :| InsertedAt(m, m2, e, p);
    var s, r, q := a + m + b, a + m2 + b, |a| + p;
    assert s[..q] == a + m[..p];
    assert s[q..] == m[p..] + b;
    assert r == s[..q] + [e] + s[q..];
    assert InsertedAt(s, r, e, q);
  }

  lemma SortedHalves(a: seq<Entry>, b: seq<Entry>)
    requires Sorted(a + b)
    ensures Sorted(a) && Sorted(b)
  {
    assert forall i :: 0 <= i < |a| ==> a[i] == (a + b)[i];
    assert forall i :: 0 <= i < |b| ==> b[i] == (a + b)[|a| + i];
  }

  lemma SortedParts(a: seq<Entry>, b: seq<Entry>, c: seq<Entry>)
    requires Sorted(a + b + c)
    ensures Sorted(a) && Sorted(b) && Sorted(c)
    ensures a != [] ==> AllAtMost(a, a[|a| - 1].key)
    ensures c != [] ==> AllAtLeast(c, c[0].key)
  {
    SortedHalves(a + b, c);
    SortedHalves(a, b);
  }

  /** What lies left of a child is at most the separator there, and what lies right at least the next. */
  lemma AroundChild(x: Tree, c: nat)
    requires Proper(x) && x.children != [] && c <= |x.entries| && Sorted(InOrder(x))
    ensures Sorted(InOrder(x.children[c]))
    ensures if c == 0 then Prefix(x, c) == [] else AllAtMost(Prefix(x, c), x.entries[c - 1].key)
    ensures if c == |x.entries| then Suffix(x, c) == [] else AllAtLeast(Suffix(x, c), x.entries[c].key)
  {
    CutAt(x, c);
    SortedParts(Prefix(x, c), InOrder(x.children[c]), Suffix(x, c));
  }

  /** Replacing one child. */
  lemma ReplaceChild(x: Tree, c: nat, d: Tree)
    requires Proper(x) && x.children != [] && c <= |x.entries| && Proper(d)
    ensures var w := Node(x.entries, x.children[c := d]);
            Proper(w) && InOrder(w) == Prefix(x, c) + InOrder(d) + Suffix(x, c)
  {
    var w := Node(x.entries, x.children[c := d]);
    assert forall i :: 0 <= i < |w.children| ==> Proper(w.children[i]);
    CutAt(w, c);
    SamePrefix(x, w, c);
    assert w.children[c + 1..] == x.children[c + 1..];
    SameSuffix(x, c, w, c);
  }

  /** A child with one more entry, between the separators, makes a node with one more entry. */
  lemma ChildInserts(x: Tree, c: nat, d: Tree, e: Entry, t: nat, h: nat, min: int)
    requires h > 0 && Shape(x, t, h, min) && Proper(x) && Sorted(InOrder(x)) && c < |x.children|
    requires (c > 0 ==> x.entries[c - 1].key <= e.key) && (c < |x.entries| ==> e.key <= x.entries[c].key)
    requires Shape(d, t, h - 1, t - 1) && Proper(d) && Inserted(InOrder(x.children[c]), InOrder(d), e)
    ensures var w := Node(x.entries, x.children[c := d]);
            Shape(w, t, h, min) && Proper(w) && Inserted(InOrder(x), InOrder(w), e)
  {
    AroundChild(x, c);
    ReplaceChild(x, c, d);
    CutAt(x, c);
    InsertedBetween(Prefix(x, c), InOrder(x.children[c]), Suffix(x, c), InOrder(d), e);
  }

  /** After the split of a full child, the descent goes between the right separators. */
  lemma SplitReady(x: Tree, c: nat, key: int, t: nat, h: nat, min: int)
    requires t >= 1 && h > 0 && Shape(x, t, h, min) && !Full(x, t) && Proper(x) && c == Place(x.entries, key)
    requires Full(x.children[c], t)
    ensures CanSplit(x.children[c], t) && c < |SplitChild(x, c, t).entries|
    ensures var w := SplitChild(x, c, t); var d := SplitPlace(w, c, key);
            && Shape(w, t, h, min) && Proper(w) && InOrder(w) == InOrder(x) && d < |w.children|
              && !Full(w.children[d], t)
            && (d > 0 ==> w.entries[d - 1].key <= key) && (d < |w.entries| ==> key <= w.entries[d].key)
  {
    SplitShape(x, c, t, h, min);
    SplitHalves(x, c, t);
    SplitInOrder(x, c, t);
  }

  lemma LeafInserts(s: seq<Entry>, e: Entry)
    requires Sorted(s)
    ensures Inserted(s, InsertAt(s, Place(s, e.key), e), e)
  {
    var c := Place(s, e.key);
    assert InsertedAt(s, InsertAt(s, c, e), e, c);
  }

  ghost predicate IsBTree(x: Tree, t: nat, h: nat) {
    Shape(x, t, h, RootMin(h)) && Proper(x) && Sorted(InOrder(x))
  }

  /** A full root below a new one, split. */
  lemma RootSplit(x: Tree, t: nat, h: nat)
    requires t >= 1 && Shape(x, t, h, RootMin(h)) && Proper(x) && Full(x, t)
    ensures CanSplit(x, t) && Shape(SplitChild(Node([], [x]), 0, t), t, h + 1, 1)
      && Roomy(SplitChild(Node([], [x]), 0, t), t)
    ensures Proper(SplitChild(Node([], [x]), 0, t)) && InOrder(SplitChild(Node([], [x]), 0, t)) == InOrder(x)
  {
    var s := Node([], [x]);
    assert s.children[0] == x;
    assert Shape(x, t, h, t - 1);
    assert Shape(s, t, h + 1, 0);
    SplitShape(s, 0, t, h + 1, 0);
    SplitHalves(s, 0, t);
    SplitInOrder(s, 0, t);
    CutAt(s, 0);
    assert Prefix(s, 0) + InOrder(x) + Suffix(s, 0) == InOrder(x);
  }

  // ------------------------------------------------------------------ search

  datatype Option<T> = None | Some(value: T)

  /** The first entry of a node that is not smaller than the key. */
  function FirstNotBelow(es: seq<Entry>, key: int, i: nat): (c: nat)
    requires i <= |es|
    ensures i <= c <= |es|
    ensures c < |es| ==> key <= es[c].key
    ensures c > i ==> es[c - 1].key < key
    decreases |es| - i
  {
    if i < |es| && key > es[i].key then FirstNotBelow(es, key, i + 1) else i
  }

  function Search(x: Tree, key: int): Option<Entry>
    requires Proper(x)
    decreases x
  {
    var i := FirstNotBelow(x.entries, key, 0);
    if i < |x.entries| && key == x.entries[i].key then Some(x.entries[i])
    else if x.children == [] then None
    else Search(x.children[i], key)
  }

  predicate HasKey(s: seq<Entry>, key: int) {
    exists i :: 0 <= i < |s| && s[i].key == key
  }

  lemma HasKeyConcat(a: seq<Entry>, b: seq<Entry>, c: seq<Entry>, key: int)
    ensures HasKey(a + b + c, key) <==> HasKey(a, key) || HasKey(b, key) || HasKey(c, key)
  {
    var s := a + b + c;
    if HasKey(a, key) {
      var i :| 0 <= i < |a| && a[i].key == key;
      assert s[i].key == key;
    }
    if HasKey(b, key) {
      var i :| 0 <= i < |b| && b[i].key == key;
      assert s[|a| + i].key == key;
    }
    if HasKey(c, key) {
      var i :| 0 <= i < |c| && c[i].key == key;
      assert s[|a| + |b| + i].key == key;
    }
  }

  /** A search finds an entry of the tree with the key, and fails only when there is none. */
  lemma {:induction false} SearchIsExact(x: Tree, key: int)
    requires Proper(x) && Sorted(InOrder(x))
    ensures Search(x, key).Some? <==> HasKey(InOrder(x), key)
    ensures Search(x, key).Some? ==> Search(x, key).value in InOrder(x) && Search(x, key).value.key == key
    decreases x
  {
    var i := FirstNotBelow(x.entries, key, 0);
    if x.children == [] {
      LeafSearch(x.entries, key);
    } else {
      CutAt(x, i);
      AroundChild(x, i);
      HasKeyConcat(Prefix(x, i), InOrder(x.children[i]), Suffix(x, i), key);
      if i < |x.entries| && key == x.entries[i].key {
        assert Suffix(x, i)[0] == x.entries[i];
      } else {
        SearchIsExact(x.children[i], key);
        NotAround(x, i, key);
      }
    }
  }

  lemma LeafSearch(s: seq<Entry>, key: int)
    requires Sorted(s)
    ensures var i := FirstNotBelow(s, key, 0);
            (i < |s| && s[i].key == key) <==> HasKey(s, key)
  {
    var i := FirstNotBelow(s, key, 0);
    if HasKey(s, key) {
      var j :| 0 <= j < |s| && s[j].key == key;
      assert i <= j;
    }
  }

  lemma NotAround(x: Tree, i: nat, key: int)
    requires Proper(x) && x.children != [] && Sorted(InOrder(x)) && i == FirstNotBelow(x.entries, key, 0)
    requires i < |x.entries| ==> key != x.entries[i].key
    ensures !HasKey(Prefix(x, i), key) && !HasKey(Suffix(x, i), key)
  {
    AroundChild(x, i);
  }
}
