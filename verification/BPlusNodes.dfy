/** The nodes of the B+ tree and what their fields must satisfy. Each node carries as ghost state its
    height above the leaves and the half-open interval of keys its subtree covers, so that the shape
    of the tree is a statement about each node and its direct neighbours. */
module BPlusNodes {

  const ORDER := 4
  const MIN64: int := -0x8000_0000_0000_0000
  const MAX64: int := 0x7fff_ffff_ffff_ffff
  const TOP: int := MAX64 + 1
  type Int64 = x: int | MIN64 <= x <= MAX64

  datatype RowId = RowId(page: int, slot: int)
  type Contents = map<Int64, RowId>

  class Node {
    const leaf: bool
    var keys: seq<Int64>
    var vals: seq<RowId>
    var children: seq<Node>
    var next: Node?
    ghost var lo: int
    ghost var hi: int
    ghost var level: int

    constructor (l: bool)
      ensures leaf == l && keys == [] && vals == [] && children == [] && next == null
    {
      leaf := l;
      keys, vals, children, next := [], [], [], null;
    }

    ghost function Read(): Fields
      reads this
    {
      Fields(leaf, keys, vals, children, next, lo, hi, level)
    }
  }

  datatype Fields = Fields(leaf: bool, keys: seq<Int64>, vals: seq<RowId>, children: seq<Node>, next: Node?,
                           lo: int, hi: int, level: int)
  type View = map<Node, Fields>

  // ------------------------------------------------------------------ one node

  predicate StrictlySorted(s: seq<int>) {
    forall i, j :: 0 <= i < j < |s| ==> s[i] < s[j]
  }

  /** The separators with the ends of the interval: child `i` covers the keys from cut `i` to cut `i + 1`. */
  function Cuts(f: Fields): seq<int> {
    [f.lo] + f.keys + [f.hi]
  }

  /** The content of a leaf: distinct ascending keys of its interval, and a row id for each. */
  ghost predicate LeafContent(f: Fields) {
    && f.leaf && f.level == 0 && f.children == [] && |f.vals| == |f.keys|
    && MIN64 <= f.lo < f.hi <= TOP && StrictlySorted(f.keys)
    && forall i :: 0 <= i < |f.keys| ==> f.lo <= f.keys[i] < f.hi
  }

  /** The chain leads to the leaf whose interval begins where this one ends. */
  ghost predicate ChainOk(v: View, f: Fields) {
    if f.next == null then f.hi == TOP
    else f.next in v && v[f.next].level == 0 && v[f.next].leaf && v[f.next].lo == f.hi
  }

  ghost predicate ChildOk(v: View, f: Fields, i: int)
    requires 0 <= i < |f.children| && |f.children| == |f.keys| + 1
  {
    var c := f.children[i];
    c in v && v[c].level == f.level - 1 && v[c].lo == Cuts(f)[i] && v[c].hi == Cuts(f)[i + 1]
  }

  ghost predicate InnerOk(v: View, f: Fields) {
    && !f.leaf && f.level > 0 && f.vals == [] && f.next == null
    && |f.children| == |f.keys| + 1
    && MIN64 <= f.lo && f.hi <= TOP && StrictlySorted(Cuts(f))
    && forall i :: 0 <= i < |f.children| ==> ChildOk(v, f, i)
  }

  ghost predicate NodeOk(v: View, n: Node)
    requires n in v
  {
    if v[n].leaf then LeafContent(v[n]) && ChainOk(v, v[n]) else InnerOk(v, v[n])
  }

  /** The fan-out of a node between two operations. */
  predicate Fits(f: Fields) {
    if f.leaf then |f.keys| < ORDER else 2 <= |f.children| <= ORDER
  }

  /** The leaf holds exactly the entries of its interval. */
  ghost predicate Agrees(f: Fields, m: Contents)
    requires |f.vals| == |f.keys|
  {
    && (forall i :: 0 <= i < |f.keys| ==> f.keys[i] in m && m[f.keys[i]] == f.vals[i])
    && (forall k :: k in m && f.lo <= k < f.hi ==> k in f.keys)
  }

  // ------------------------------------------------------------------ all nodes

  ghost predicate AllOk(v: View, level: int) {
    forall n :: n in v && v[n].level <= level ==> NodeOk(v, n)
  }

  ghost predicate AllFit(v: View, level: int, except: Node?) {
    forall n :: n in v && v[n].level <= level && n != except ==> Fits(v[n])
  }

  predicate Disjoint(a: Fields, b: Fields) {
    a.hi <= b.lo || b.hi <= a.lo
  }

  ghost predicate ApartFrom(v: View, m: Node, n: Node)
    requires m in v && n in v
  {
    m != n && v[m].level == v[n].level ==> Disjoint(v[m], v[n])
  }

  /** The intervals of different nodes of one level are disjoint. */
  ghost predicate Apart(v: View) {
    forall m, n :: m in v && n in v ==> ApartFrom(v, m, n)
  }

  ghost predicate LeafHolds(v: View, m: Contents, n: Node)
    requires n in v
  {
    v[n].leaf ==> v[n].level == 0 && |v[n].vals| == |v[n].keys| && Agrees(v[n], m)
  }

  ghost predicate Holds(v: View, m: Contents) {
    forall n :: n in v ==> LeafHolds(v, m, n)
  }

  /** All of it, up to one level; fan-out may be exceeded at one node. */
  ghost predicate Sound(v: View, level: int, except: Node?, m: Contents) {
    AllOk(v, level) && AllFit(v, level, except) && Apart(v) && Holds(v, m)
  }

  /** Between two operations a leaf holds at most three keys, and an inner node has two to four children. */
  lemma NodeSizes(v: View, level: int, m: Contents, n: Node)
    requires Sound(v, level, null, m) && n in v && v[n].level <= level
    ensures if v[n].leaf then |v[n].keys| <= 3 else 2 <= |v[n].children| <= 4
  {
    assert Fits(v[n]);
  }

  // ------------------------------------------------------------------ what an insertion below a node changes

  /** A node that was there before: only below the level of `c`, and at `c`, may its interval shrink. */
  ghost predicate Kept(v: View, w: View, c: Node, n: Node)
    requires c in v && n in v
  {
    && n in w && w[n].level == v[n].level && w[n].lo == v[n].lo && w[n].leaf == v[n].leaf
    && (v[n].level > v[c].level ==> w[n] == v[n])
    && (v[n].level == v[c].level && n != c ==> w[n].hi == v[n].hi)
  }

  ghost predicate Added(v: View, w: View, c: Node, right: Node?, n: Node)
    requires c in v && n in w
  {
    n !in v ==> w[n].level <= v[c].level && (w[n].level == v[c].level ==> n == right)
  }

  /** The interval of `c` is as it was, or `right` took over the part from `up` on. */
  ghost predicate CutAt(v: View, w: View, c: Node, right: Node?, up: int)
    requires c in v && c in w
  {
    if right == null then w[c].hi == v[c].hi
    else right in w && right !in v && w[right].level == v[c].level
         && v[c].lo < up < v[c].hi && w[c].hi == up && w[right].lo == up && w[right].hi == v[c].hi
  }

  ghost predicate Grown(v: View, w: View, c: Node, right: Node?, up: int) {
    && c in v && c in w
    && (forall n :: n in v ==> Kept(v, w, c, n))
    && (forall n :: n in w ==> Added(v, w, c, right, n))
    && CutAt(v, w, c, right, up)
  }

  // ------------------------------------------------------------------ neighbours

  /** Levels and left ends everywhere, and right ends below `level`, are the same. */
  ghost predicate SameBounds(v: View, w: View, level: int, n: Node)
    requires n in v
  {
    n in w && w[n].level == v[n].level && w[n].lo == v[n].lo && w[n].leaf == v[n].leaf
      && (v[n].level < level ==> w[n].hi == v[n].hi)
  }

  /** A node whose fields stay keeps its place as long as its neighbours keep theirs. */
  lemma NodeStaysOk(v: View, w: View, n: Node)
    requires n in v && n in w && w[n] == v[n] && NodeOk(v, n)
    requires forall m :: m in v ==> SameBounds(v, w, v[n].level, m)
    ensures NodeOk(w, n)
  {
    var f := v[n];
    if f.leaf {
      if f.next != null { assert SameBounds(v, w, f.level, f.next); }
    } else {
      forall i | 0 <= i < |f.children|
        ensures ChildOk(w, f, i)
      {
        assert ChildOk(v, f, i) && SameBounds(v, w, f.level, f.children[i]);
      }
    }
  }

  /** A node is the child of one node only, and there only once. */
  lemma OneParent(v: View, m: Node, i: int, n: Node, j: int)
    requires m in v && n in v && v[m].level == v[n].level && ApartFrom(v, m, n)
    requires InnerOk(v, v[m]) && InnerOk(v, v[n])
    requires 0 <= i < |v[m].children| && 0 <= j < |v[n].children| && v[m].children[i] == v[n].children[j]
    ensures m == n && i == j
  {
    assert ChildOk(v, v[m], i) && ChildOk(v, v[n], j);
    var a, b := Cuts(v[m]), Cuts(v[n]);
    assert a[0] <= a[i] < a[i + 1] <= a[|a| - 1];
    assert b[0] <= b[j] < b[j + 1] <= b[|b| - 1];
    assert a[i] == b[j] && a[i + 1] == b[j + 1];
  }

  /** The nodes one level above keep their place when something was inserted below another one. */
  lemma OtherParentsStayOk(v: View, w: View, p: Node, i: int, right: Node?, up: int, m: Node)
    requires p in v && m in v && m != p && v[m].level == v[p].level && ApartFrom(v, m, p)
    requires InnerOk(v, v[p]) && InnerOk(v, v[m]) && 0 <= i < |v[p].children|
    requires Grown(v, w, v[p].children[i], right, up)
    ensures m in w && NodeOk(w, m)
  {
    var c := v[p].children[i];
    assert ChildOk(v, v[p], i);
    assert Kept(v, w, c, m);
    forall j | 0 <= j < |v[m].children|
      ensures ChildOk(w, v[m], j)
    {
      assert ChildOk(v, v[m], j);
      if v[m].children[j] == c { OneParent(v, m, j, p, i); }
      assert Kept(v, w, c, v[m].children[j]);
    }
  }

  // ------------------------------------------------------------------ changes of a leaf

  /** Two contents that differ only on the keys of an interval. */
  ghost predicate SameOutside(m: Contents, m2: Contents, lo: int, hi: int) {
    forall k: Int64 :: k < lo || k >= hi ==> (k in m <==> k in m2) && (k in m ==> m[k] == m2[k])
  }

  lemma OtherLeafHolds(v: View, w: View, n: Node, m: Contents, m2: Contents, x: Node)
    requires n in v && x in v && x in w && x != n && v[n].leaf && v[x].leaf && w[x] == v[x]
    requires v[n].level == 0 == v[x].level && ApartFrom(v, x, n) && LeafHolds(v, m, x)
    requires SameOutside(m, m2, v[n].lo, v[n].hi) && LeafContent(v[x])
    ensures LeafHolds(w, m2, x)
  {
    var f := v[x];
    forall i | 0 <= i < |f.keys|
      ensures f.keys[i] in m2 && m2[f.keys[i]] == f.vals[i]
    {
    }
    forall k | k in m2 && f.lo <= k < f.hi
      ensures k in f.keys
    {
    }
  }

  /** A leaf gets new keys and row ids, and the contents change on its interval alone. */
  lemma LeafChange(v: View, n: Node, f: Fields, m: Contents, m2: Contents, level: int)
    requires Sound(v, level, null, m) && n in v && v[n].leaf && level >= 0
    requires f == v[n].(keys := f.keys, vals := f.vals) && LeafContent(f) && Agrees(f, m2)
    requires SameOutside(m, m2, f.lo, f.hi)
    ensures Sound(v[n := f], level, if Fits(f) then null else n, m2) && Grown(v, v[n := f], n, null, 0)
  {
    var w: View := v[n := f];
    assert LeafHolds(v, m, n) && NodeOk(v, n);
    forall x | x in w && w[x].level <= level
      ensures NodeOk(w, x)
    {
      if x != n { NodeStaysOk(v, w, x); }
    }
    forall x, y | x in w && y in w
      ensures ApartFrom(w, x, y)
    {
      assert ApartFrom(v, x, y);
    }
    forall x | x in w
      ensures LeafHolds(w, m2, x)
    {
      if x != n && v[x].leaf {
        assert LeafHolds(v, m, x) && ApartFrom(v, x, n) && NodeOk(v, x);
        OtherLeafHolds(v, w, n, m, m2, x);
      }
    }
  }

  /** `pos` is the place of `key` in the sorted keys of a leaf. */
  predicate LowerBoundAt(keys: seq<int>, key: int, pos: nat) {
    pos <= |keys| && (forall i :: 0 <= i < pos ==> keys[i] < key) && (forall i :: pos <= i < |keys| ==> key <= keys[i])
  }

  function Overwritten(f: Fields, pos: nat, rid: RowId): Fields
    requires pos < |f.vals|
  {
    f.(vals := f.vals[pos := rid])
  }

  function InsertAt<T>(s: seq<T>, i: nat, x: T): (r: seq<T>)
    requires i <= |s|
    ensures |r| == |s| + 1
  {
    s[..i] + [x] + s[i..]
  }

  function WithEntry(f: Fields, pos: nat, key: Int64, rid: RowId): Fields
    requires pos <= |f.keys| && pos <= |f.vals|
  {
    f.(keys := InsertAt(f.keys, pos, key), vals := InsertAt(f.vals, pos, rid))
  }

  function RemoveAt<T>(s: seq<T>, i: nat): (r: seq<T>)
    requires i < |s|
    ensures |r| == |s| - 1
  {
    s[..i] + s[i + 1..]
  }

  function WithoutEntry(f: Fields, pos: nat): Fields
    requires pos < |f.keys| && pos < |f.vals|
  {
    f.(keys := RemoveAt(f.keys, pos), vals := RemoveAt(f.vals, pos))
  }

  lemma OverwriteContent(f: Fields, m: Contents, pos: nat, rid: RowId)
    requires LeafContent(f) && Agrees(f, m) && pos < |f.keys|
    ensures LeafContent(Overwritten(f, pos, rid)) && Agrees(Overwritten(f, pos, rid), m[f.keys[pos] := rid])
  {
  }

  lemma InsertKeepsSorted(s: seq<int>, pos: nat, x: int)
    requires StrictlySorted(s) && LowerBoundAt(s, x, pos) && (pos < |s| ==> s[pos] != x)
    ensures StrictlySorted(InsertAt(s, pos, x))
  {
    var r := InsertAt(s, pos, x);
    forall i, j | 0 <= i < j < |r|
      ensures r[i] < r[j]
    {
      if i == pos { assert s[pos] <= s[j - 1]; }
    }
  }

  lemma WithEntryContent(f: Fields, pos: nat, key: Int64, rid: RowId)
    requires LeafContent(f) && LowerBoundAt(f.keys, key, pos) && key !in f.keys && f.lo <= key < f.hi
    ensures LeafContent(WithEntry(f, pos, key, rid))
  {
    InsertKeepsSorted(f.keys, pos, key);
    assert WithEntry(f, pos, key, rid).keys == InsertAt<int>(f.keys, pos, key);
  }

  lemma EntryKept(f: Fields, m: Contents, pos: nat, key: Int64, rid: RowId, i: nat)
    requires LeafContent(f) && Agrees(f, m) && pos <= |f.keys| && key !in f.keys && i <= |f.keys|
    ensures var g := WithEntry(f, pos, key, rid);
            g.keys[i] in m[key := rid] && m[key := rid][g.keys[i]] == g.vals[i]
  {
    var g := WithEntry(f, pos, key, rid);
    if i != pos {
      var a := if i < pos then i else i - 1;
      assert g.keys[i] == f.keys[a] && g.vals[i] == f.vals[a] && f.keys[a] in f.keys;
    }
  }

  lemma KeyKept(f: Fields, m: Contents, pos: nat, key: Int64, rid: RowId, k: Int64)
    requires LeafContent(f) && Agrees(f, m) && pos <= |f.keys| && k in m && f.lo <= k < f.hi
    ensures k in WithEntry(f, pos, key, rid).keys
  {
    KeyHasIndex(f, m, k);
    var i :| 0 <= i < |f.keys| && f.keys[i] == k;
    var g := InsertAt(f.keys, pos, key);
    assert g[if i < pos then i else i + 1] == k && k in g;
  }

  lemma WithEntryAgrees(f: Fields, m: Contents, pos: nat, key: Int64, rid: RowId)
    requires LeafContent(f) && Agrees(f, m) && pos <= |f.keys| && key !in f.keys && f.lo <= key < f.hi
    ensures Agrees(WithEntry(f, pos, key, rid), m[key := rid])
  {
    var g := WithEntry(f, pos, key, rid);
    forall i | 0 <= i < |g.keys|
      ensures g.keys[i] in m[key := rid] && m[key := rid][g.keys[i]] == g.vals[i]
    {
      EntryKept(f, m, pos, key, rid, i);
    }
    forall k | k in m[key := rid] && g.lo <= k < g.hi
      ensures k in g.keys
    {
      if k == key {
        assert g.keys[pos] == key;
      } else {
        KeyKept(f, m, pos, key, rid, k);
      }
    }
  }

  lemma WithoutEntryContent(f: Fields, pos: nat)
    requires LeafContent(f) && pos < |f.keys|
    ensures LeafContent(WithoutEntry(f, pos))
  {
  }

  lemma WithoutEntryAgrees(f: Fields, m: Contents, pos: nat)
    requires LeafContent(f) && Agrees(f, m) && pos < |f.keys|
    ensures Agrees(WithoutEntry(f, pos), m - {f.keys[pos]})
  {
    var g := WithoutEntry(f, pos);
    forall i | 0 <= i < |g.keys|
      ensures g.keys[i] in m - {f.keys[pos]} && m[g.keys[i]] == g.vals[i]
    {
      var a := if i < pos then i else i + 1;
      assert g.keys[i] == f.keys[a] && f.keys[a] != f.keys[pos];
    }
    forall k | k in m - {f.keys[pos]} && g.lo <= k < g.hi
      ensures k in g.keys
    {
      OtherKeyKept(f, m, pos, k);
    }
  }

  lemma OtherKeyKept(f: Fields, m: Contents, pos: nat, k: Int64)
    requires LeafContent(f) && Agrees(f, m) && pos < |f.keys| && k in m && k != f.keys[pos] && f.lo <= k < f.hi
    ensures k in WithoutEntry(f, pos).keys
  {
    KeyHasIndex(f, m, k);
    var i :| 0 <= i < |f.keys| && f.keys[i] == k;
    var g := RemoveAt(f.keys, pos);
    assert g[if i < pos then i else i - 1] == k && k in g;
  }

  lemma OverwriteLeaf(v: View, n: Node, m: Contents, pos: nat, rid: RowId)
    requires Sound(v, 0, null, m) && n in v && v[n].leaf && v[n].level == 0
    requires LeafContent(v[n]) && Agrees(v[n], m) && pos < |v[n].keys|
    ensures Sound(v[n := Overwritten(v[n], pos, rid)], 0, null, m[v[n].keys[pos] := rid])
    ensures Grown(v, v[n := Overwritten(v[n], pos, rid)], n, null, 0) && LeafContent(Overwritten(v[n], pos, rid))
    ensures |v[n].keys| < ORDER
  {
    OverwriteContent(v[n], m, pos, rid);
    LeafChange(v, n, Overwritten(v[n], pos, rid), m, m[v[n].keys[pos] := rid], 0);
  }

  lemma EnterLeaf(v: View, n: Node, m: Contents, pos: nat, key: Int64, rid: RowId)
    requires Sound(v, 0, null, m) && n in v && v[n].leaf && v[n].level == 0 && v[n].lo <= key < v[n].hi
    requires LeafContent(v[n]) && Agrees(v[n], m) && LowerBoundAt(v[n].keys, key, pos) && key !in v[n].keys
    ensures var g := WithEntry(v[n], pos, key, rid);
            Sound(v[n := g], 0, if |g.keys| < ORDER then null else n, m[key := rid]) && |g.keys| <= ORDER
            && Grown(v, v[n := g], n, null, 0) && LeafContent(g) && key !in m
  {
    WithEntryContent(v[n], pos, key, rid);
    WithEntryAgrees(v[n], m, pos, key, rid);
    LeafChange(v, n, WithEntry(v[n], pos, key, rid), m, m[key := rid], 0);
  }

  /** Removing an entry leaves the leaf in place, however empty. */
  lemma LeaveLeaf(v: View, n: Node, m: Contents, pos: nat, level: nat)
    requires Sound(v, level, null, m) && n in v && v[n].leaf
    requires LeafContent(v[n]) && Agrees(v[n], m) && pos < |v[n].keys|
    ensures Sound(v[n := WithoutEntry(v[n], pos)], level, null, m - {v[n].keys[pos]})
    ensures Grown(v, v[n := WithoutEntry(v[n], pos)], n, null, 0)
  {
    WithoutEntryContent(v[n], pos);
    WithoutEntryAgrees(v[n], m, pos);
    LeafChange(v, n, WithoutEntry(v[n], pos), m, m - {v[n].keys[pos]}, level);
  }

  // ------------------------------------------------------------------ splits

  /** Cutting the interval of `n` in two keeps the nodes of every level apart. */
  lemma CutKeepsApart(v: View, w: View, n: Node, right: Node, up: int)
    requires Apart(v) && n in v && right !in v && w.Keys == v.Keys + {right}
    requires forall x :: x in v && x != n ==> w[x] == v[x]
    requires w[n].level == v[n].level == w[right].level && w[n].lo == v[n].lo && w[right].hi == v[n].hi
    requires v[n].lo < up < v[n].hi && w[n].hi == up == w[right].lo
    ensures Apart(w)
  {
    forall x, y | x in w && y in w
      ensures ApartFrom(w, x, y)
    {
      assert ApartFrom(v, if x == right then n else x, if y == right then n else y);
    }
  }

  /** What a split changes. */
  lemma CutGrown(v: View, w: View, n: Node, right: Node, up: int)
    requires n in v && right !in v && w.Keys == v.Keys + {right}
    requires forall x :: x in v && x != n ==> w[x] == v[x]
    requires w[n].level == v[n].level == w[right].level && w[n].lo == v[n].lo && w[right].hi == v[n].hi
    requires w[n].leaf == v[n].leaf
    requires v[n].lo < up < v[n].hi && w[n].hi == up == w[right].lo
    ensures Grown(v, w, n, right, up)
  {
  }

  function LeftLeaf(f: Fields, mid: nat, right: Node): Fields
    requires mid < |f.keys| == |f.vals|
  {
    f.(keys := f.keys[..mid], vals := f.vals[..mid], next := right, hi := f.keys[mid])
  }

  function RightLeaf(f: Fields, mid: nat): Fields
    requires mid < |f.keys| == |f.vals|
  {
    f.(keys := f.keys[mid..], vals := f.vals[mid..], lo := f.keys[mid])
  }

  lemma LeftLeafContent(f: Fields, mid: nat, right: Node)
    requires LeafContent(f) && 0 < mid < |f.keys|
    ensures LeafContent(LeftLeaf(f, mid, right))
  {
    assert f.lo <= f.keys[0] < f.keys[mid];
  }

  lemma RightLeafContent(f: Fields, mid: nat)
    requires LeafContent(f) && 0 < mid < |f.keys|
    ensures LeafContent(RightLeaf(f, mid))
  {
    assert f.keys[mid] < f.hi;
  }

  lemma LeftLeafAgrees(f: Fields, m: Contents, mid: nat, right: Node)
    requires LeafContent(f) && Agrees(f, m) && 0 < mid < |f.keys|
    ensures Agrees(LeftLeaf(f, mid, right), m)
  {
    var l := LeftLeaf(f, mid, right);
    forall k | k in m && l.lo <= k < l.hi
      ensures k in l.keys
    {
      KeyHasIndex(f, m, k);
      var i :| 0 <= i < |f.keys| && f.keys[i] == k;
      assert i < mid && l.keys[i] == k;
    }
  }

  lemma KeyHasIndex(f: Fields, m: Contents, k: Int64)
    requires LeafContent(f) && Agrees(f, m) && k in m && f.lo <= k < f.hi
    ensures exists i :: 0 <= i < |f.keys| && f.keys[i] == k
  {
  }

  lemma RightLeafAgrees(f: Fields, m: Contents, mid: nat)
    requires LeafContent(f) && Agrees(f, m) && 0 < mid < |f.keys|
    ensures Agrees(RightLeaf(f, mid), m)
  {
    var r := RightLeaf(f, mid);
    assert f.lo <= f.keys[0] < f.keys[mid];
    forall k | k in m && r.lo <= k < r.hi
      ensures k in r.keys
    {
      KeyHasIndex(f, m, k);
      var i :| 0 <= i < |f.keys| && f.keys[i] == k;
      assert i >= mid && r.keys[i - mid] == k;
    }
  }

  /** The nodes after the upper half of an overfull leaf moved to a new one. */
  function CutLeaf(v: View, n: Node, right: Node): View
    requires n in v && |v[n].keys| == |v[n].vals| == ORDER
  {
    v[n := LeftLeaf(v[n], 2, right)][right := RightLeaf(v[n], 2)]
  }

  lemma SplitLeafHolds(v: View, n: Node, right: Node, m: Contents)
    requires Holds(v, m) && n in v && LeafContent(v[n]) && |v[n].keys| == ORDER && right !in v
    ensures Holds(CutLeaf(v, n, right), m)
  {
    var w: View := CutLeaf(v, n, right);
    assert LeafHolds(v, m, n);
    LeftLeafAgrees(v[n], m, 2, right);
    RightLeafAgrees(v[n], m, 2);
    forall x | x in w
      ensures LeafHolds(w, m, x)
    {
      if x != n && x != right { assert LeafHolds(v, m, x); }
    }
  }

  lemma CutLeafFacts(v: View, n: Node, right: Node)
    requires n in v && LeafContent(v[n]) && |v[n].keys| == ORDER && right !in v
    ensures var w, up := CutLeaf(v, n, right), v[n].keys[2];
            && w.Keys == v.Keys + {right} && (forall x :: x in v && x != n ==> w[x] == v[x])
            && w[n].level == v[n].level == w[right].level && w[n].lo == v[n].lo && w[right].hi == v[n].hi
            && w[n].leaf == v[n].leaf && v[n].lo < up < v[n].hi && w[n].hi == up == w[right].lo
            && |w[n].keys| == 2 == |w[right].keys| && w[right].leaf == v[n].leaf && n in w && right in w
  {
    var f := v[n];
    assert f.lo <= f.keys[0] < f.keys[2] < f.hi;
  }

  /** An overfull leaf gives the upper half of its entries to a new leaf, next in the chain. */
  lemma SplitLeaf(v: View, n: Node, right: Node, m: Contents)
    requires Sound(v, 0, n, m) && n in v && v[n].leaf && |v[n].keys| == ORDER && right !in v
    requires LeafContent(v[n])
    ensures var w := CutLeaf(v, n, right);
            Sound(w, 0, null, m) && Grown(v, w, n, right, v[n].keys[2])
  {
    var w, up := CutLeaf(v, n, right), v[n].keys[2];
    CutLeafFacts(v, n, right);
    SplitLeafHolds(v, n, right, m);
    CutKeepsApart(v, w, n, right, up);
    SplitLeafOk(v, n, right);
    CutGrown(v, w, n, right, up);
  }

  lemma SplitLeafOk(v: View, n: Node, right: Node)
    requires AllOk(v, 0) && n in v && LeafContent(v[n]) && |v[n].keys| == ORDER && right !in v
    ensures AllOk(CutLeaf(v, n, right), 0)
  {
    var w: View := CutLeaf(v, n, right);
    assert NodeOk(v, n);
    LeftLeafContent(v[n], 2, right);
    RightLeafContent(v[n], 2);
    forall x | x in w && w[x].level <= 0
      ensures NodeOk(w, x)
    {
      if x != n && x != right { NodeStaysOk(v, w, x); }
    }
  }

  /** The fields of a parent that took in the new right sibling of its child `i`. */
  function WithChild(f: Fields, i: nat, up: Int64, right: Node): Fields
    requires i <= |f.keys| && i < |f.children|
  {
    f.(keys := InsertAt(f.keys, i, up), children := InsertAt(f.children, i + 1, right))
  }

  lemma CutsWithChild(f: Fields, i: nat, up: Int64, right: Node)
    requires i < |f.children| == |f.keys| + 1 && StrictlySorted(Cuts(f)) && Cuts(f)[i] < up < Cuts(f)[i + 1]
    ensures Cuts(WithChild(f, i, up, right)) == InsertAt(Cuts(f), i + 1, up)
    ensures StrictlySorted(Cuts(WithChild(f, i, up, right)))
  {
    var a, b := Cuts(f), Cuts(WithChild(f, i, up, right));
    assert b == InsertAt(a, i + 1, up);
    forall x, y | 0 <= x < y < |b|
      ensures b[x] < b[y]
    {
      var p := if x <= i then x else x - 1;
      var q := if y <= i then y else y - 1;
      assert p < q ==> a[p] < a[q];
      assert p <= i ==> a[p] <= a[i];
      assert q > i ==> a[i + 1] <= a[q];
    }
  }

  /** The parent of a split child takes in the new sibling and is in order again. */
  lemma AddChild(v: View, w: View, p: Node, i: nat, right: Node, up: Int64)
    requires p in v && InnerOk(v, v[p]) && i < |v[p].children|
    requires Grown(v, w, v[p].children[i], right, up)
    ensures InnerOk(w, WithChild(v[p], i, up, right))
  {
    var f := v[p];
    var g := WithChild(f, i, up, right);
    var c := f.children[i];
    assert ChildOk(v, f, i);
    CutsWithChild(f, i, up, right);
    forall j | 0 <= j < |g.children|
      ensures ChildOk(w, g, j)
    {
      AddedChildOk(v, w, p, i, right, up, j);
    }
  }

  lemma AddedChildOk(v: View, w: View, p: Node, i: nat, right: Node, up: Int64, j: nat)
    requires p in v && InnerOk(v, v[p]) && i < |v[p].children| && j <= |v[p].children|
    requires Grown(v, w, v[p].children[i], right, up)
    ensures ChildOk(w, WithChild(v[p], i, up, right), j)
  {
    var f := v[p];
    var c := f.children[i];
    assert ChildOk(v, f, i);
    WithChildParts(f, i, up, right, j);
    if j != i + 1 {
      OldChildOk(v, w, p, i, right, up, if j <= i then j else j - 1);
    }
  }

  /** Child `j` of the parent after it took in a sibling, and the cuts around it. */
  lemma WithChildParts(f: Fields, i: nat, up: Int64, right: Node, j: nat)
    requires |f.children| == |f.keys| + 1 && i < |f.children| && j <= |f.children|
    ensures var g, a, b := WithChild(f, i, up, right), Cuts(f), Cuts(WithChild(f, i, up, right));
            && |b| == |a| + 1 == |g.children| + 1
            && g.children[j] == (if j <= i then f.children[j] else if j == i + 1 then right else f.children[j - 1])
            && b[j] == (if j <= i then a[j] else if j == i + 1 then up else a[j - 1])
            && b[j + 1] == if j < i then a[j + 1] else if j == i then up else a[j]
  {
    assert Cuts(WithChild(f, i, up, right)) == InsertAt(Cuts(f), i + 1, up);
  }

  /** What the old children of a parent are after one of them split. */
  lemma OldChildOk(v: View, w: View, p: Node, i: nat, right: Node, up: Int64, q: nat)
    requires p in v && InnerOk(v, v[p]) && i < |v[p].children| && q < |v[p].children|
    requires Grown(v, w, v[p].children[i], right, up)
    ensures var c := v[p].children[q];
            c in v && c in w && w[c].level == v[p].level - 1 && w[c].lo == Cuts(v[p])[q]
            && w[c].hi == (if q == i then up else Cuts(v[p])[q + 1])
  {
    var c := v[p].children[i];
    assert ChildOk(v, v[p], i) && ChildOk(v, v[p], q) && Kept(v, w, c, v[p].children[q]);
    if q != i && v[p].children[q] == c { OneParent(v, p, q, p, i); }
  }

  /** When the child did not split, its parent stays as it is. */
  lemma SameParent(v: View, w: View, p: Node, i: nat, up: int)
    requires p in v && InnerOk(v, v[p]) && i < |v[p].children|
    requires Grown(v, w, v[p].children[i], null, up)
    ensures p in w && NodeOk(w, p)
  {
    var f := v[p];
    var c := f.children[i];
    assert ChildOk(v, f, i) && Kept(v, w, c, p);
    forall j | 0 <= j < |f.children|
      ensures ChildOk(w, f, j)
    {
      assert ChildOk(v, f, j) && Kept(v, w, c, f.children[j]);
    }
  }

  function LeftInner(f: Fields, mid: nat): Fields
    requires mid < |f.keys| && |f.children| == |f.keys| + 1
  {
    f.(keys := f.keys[..mid], children := f.children[..mid + 1], hi := f.keys[mid])
  }

  function RightInner(f: Fields, mid: nat): Fields
    requires mid < |f.keys| && |f.children| == |f.keys| + 1
  {
    f.(keys := f.keys[mid + 1..], children := f.children[mid + 1..], lo := f.keys[mid])
  }

  lemma SplitInnerOk(v: View, f: Fields, mid: nat)
    requires InnerOk(v, f) && mid < |f.keys|
    ensures InnerOk(v, LeftInner(f, mid)) && InnerOk(v, RightInner(f, mid))
    ensures f.lo < f.keys[mid] < f.hi
  {
    var l, r := LeftInner(f, mid), RightInner(f, mid);
    var a := Cuts(f);
    assert Cuts(l) == a[..mid + 2];
    assert Cuts(r) == a[mid + 1..];
    assert a[0] < a[mid + 1] < a[|a| - 1];
    forall j | 0 <= j < |l.children|
      ensures ChildOk(v, l, j)
    {
      assert ChildOk(v, f, j);
    }
    forall j | 0 <= j < |r.children|
      ensures ChildOk(v, r, j)
    {
      assert ChildOk(v, f, j + mid + 1);
    }
  }

  // ------------------------------------------------------------------ one level of the insertion

  /** The views before and after the recursive call for child `i` of `p`. */
  ghost predicate Descended(v: View, w: View, p: Node, i: int, right: Node?, up: int, m: Contents, m2: Contents) {
    && p in v && !v[p].leaf && v[p].level > 0 && Sound(v, v[p].level, null, m)
    && InnerOk(v, v[p]) && 0 <= i < |v[p].children|
    && Grown(v, w, v[p].children[i], right, up) && Sound(w, v[p].level - 1, null, m2)
  }

  lemma ParentUnchanged(v: View, w: View, p: Node, i: int, right: Node?, up: int, m: Contents, m2: Contents)
    requires Descended(v, w, p, i, right, up, m, m2)
    ensures p in w && w[p] == v[p] && v[v[p].children[i]].level == v[p].level - 1
  {
    assert ChildOk(v, v[p], i) && Kept(v, w, v[p].children[i], p);
  }

  /** Everything but `p` itself is in order after the recursive call. */
  lemma OthersOk(v: View, w: View, p: Node, i: int, right: Node?, up: int, m: Contents, m2: Contents, n: Node)
    requires Descended(v, w, p, i, right, up, m, m2) && n in w && n != p && w[n].level <= v[p].level
    ensures NodeOk(w, n) && Fits(w[n])
  {
    var c := v[p].children[i];
    ParentUnchanged(v, w, p, i, right, up, m, m2);
    assert Added(v, w, c, right, n);
    if w[n].level == v[p].level {
      assert Kept(v, w, c, n) && NodeOk(v, n) && ApartFrom(v, n, p);
      assert LeafHolds(v, m, n);
      OtherParentsStayOk(v, w, p, i, right, up, n);
    }
  }

  /** What the whole step changes, as seen from one level above. */
  lemma GrownAbove(v: View, w: View, p: Node, i: int, right: Node?, up: int, m: Contents, m2: Contents)
    requires Descended(v, w, p, i, right, up, m, m2)
    ensures Grown(v, w, p, null, 0)
  {
    var c := v[p].children[i];
    ParentUnchanged(v, w, p, i, right, up, m, m2);
    forall n | n in v
      ensures Kept(v, w, p, n)
    {
      assert Kept(v, w, c, n);
    }
    forall n | n in w
      ensures Added(v, w, p, null, n)
    {
      assert Added(v, w, c, right, n);
    }
  }

  /** The child did not split. */
  lemma NoSplitBelow(v: View, w: View, p: Node, i: int, up: int, m: Contents, m2: Contents)
    requires Descended(v, w, p, i, null, up, m, m2)
    ensures Sound(w, v[p].level, null, m2) && Grown(v, w, p, null, 0)
  {
    ParentUnchanged(v, w, p, i, null, up, m, m2);
    GrownAbove(v, w, p, i, null, up, m, m2);
    SameParent(v, w, p, i, up);
    forall n | n in w && w[n].level <= v[p].level
      ensures NodeOk(w, n) && Fits(w[n])
    {
      if n != p { OthersOk(v, w, p, i, null, up, m, m2, n); }
    }
  }

  /** New keys and children of an inner node, same interval: nothing else is affected. */
  lemma PutInner(w: View, p: Node, g: Fields, level: int, m: Contents)
    requires p in w && !w[p].leaf && g == w[p].(keys := g.keys, children := g.children) && InnerOk(w, g)
    requires forall n :: n in w && n != p && w[n].level <= level ==> NodeOk(w, n) && Fits(w[n])
    requires Apart(w) && Holds(w, m)
    ensures Sound(w[p := g], level, p, m) && InnerOk(w[p := g], g)
  {
    var x := w[p := g];
    forall j | 0 <= j < |g.children|
      ensures ChildOk(x, g, j)
    {
      assert ChildOk(w, g, j);
    }
    forall n | n in x && x[n].level <= level
      ensures NodeOk(x, n)
    {
      if n != p { NodeStaysOk(w, x, n); }
    }
    forall a, b | a in x && b in x
      ensures ApartFrom(x, a, b)
    {
      assert ApartFrom(w, a, b);
    }
    forall n | n in x
      ensures LeafHolds(x, m, n)
    {
      assert LeafHolds(w, m, n);
    }
  }

  lemma GrownThenPut(v: View, w: View, p: Node, g: Fields)
    requires Grown(v, w, p, null, 0) && w[p] == v[p] && g == w[p].(keys := g.keys, children := g.children)
    ensures Grown(v, w[p := g], p, null, 0)
  {
    var x := w[p := g];
    forall n | n in v
      ensures Kept(v, x, p, n)
    {
      assert Kept(v, w, p, n);
    }
    forall n | n in x
      ensures Added(v, x, p, null, n)
    {
      assert Added(v, w, p, null, n);
    }
  }

  /** The child split, and the parent takes in the new sibling. */
  lemma SplitBelow(v: View, w: View, p: Node, i: int, right: Node, up: Int64, m: Contents, m2: Contents)
    requires Descended(v, w, p, i, right, up, m, m2)
    ensures p in w && w[p] == v[p]
    ensures var x := w[p := WithChild(v[p], i, up, right)];
            Sound(x, v[p].level, p, m2) && InnerOk(x, x[p]) && Grown(v, x, p, null, 0)
  {
    ParentUnchanged(v, w, p, i, right, up, m, m2);
    GrownAbove(v, w, p, i, right, up, m, m2);
    AddChild(v, w, p, i, right, up);
    forall n | n in w && n != p && w[n].level <= v[p].level
      ensures NodeOk(w, n) && Fits(w[n])
    {
      OthersOk(v, w, p, i, right, up, m, m2, n);
    }
    PutInner(w, p, WithChild(v[p], i, up, right), v[p].level, m2);
    GrownThenPut(v, w, p, WithChild(v[p], i, up, right));
  }

  lemma GrownThenCut(v: View, x: View, y: View, p: Node, right: Node, up: int)
    requires Grown(v, x, p, null, 0) && Grown(x, y, p, right, up)
    requires right !in v && x[p].lo == v[p].lo && x[p].level == v[p].level
    ensures Grown(v, y, p, right, up)
  {
    forall n | n in v
      ensures Kept(v, y, p, n)
    {
      assert Kept(v, x, p, n) && Kept(x, y, p, n);
    }
    forall n | n in y
      ensures Added(v, y, p, right, n)
    {
      assert Added(x, y, p, right, n);
      if n in x { assert Added(v, x, p, null, n) && Kept(x, y, p, n); }
    }
  }

  /** An overfull inner node gives its upper children to a new one and its middle separator to the
      level above. */
  lemma SplitInner(x: View, p: Node, right: Node, m: Contents)
    requires p in x && Sound(x, x[p].level, p, m) && InnerOk(x, x[p]) && |x[p].children| == ORDER + 1 && right !in x
    ensures var y := x[p := LeftInner(x[p], 2)][right := RightInner(x[p], 2)];
            Sound(y, x[p].level, null, m) && Grown(x, y, p, right, x[p].keys[2])
  {
    var f := x[p];
    var y := x[p := LeftInner(f, 2)][right := RightInner(f, 2)];
    SplitInnerOk(x, f, 2);
    CutKeepsApart(x, y, p, right, f.keys[2]);
    CutGrown(x, y, p, right, f.keys[2]);
    forall n | n in y && y[n].level <= f.level
      ensures NodeOk(y, n)
    {
      SplitInnerNode(x, y, p, right, n);
    }
    forall n | n in y
      ensures LeafHolds(y, m, n)
    {
      if n != p && n != right { assert LeafHolds(x, m, n); }
    }
  }

  lemma SplitInnerNode(x: View, y: View, p: Node, right: Node, n: Node)
    requires p in x && InnerOk(x, x[p]) && AllOk(x, x[p].level) && |x[p].children| == ORDER + 1 && right !in x
    requires y == x[p := LeftInner(x[p], 2)][right := RightInner(x[p], 2)]
    requires n in y && y[n].level <= x[p].level
    ensures NodeOk(y, n)
  {
    SplitInnerOk(x, x[p], 2);
    if n == p || n == right {
      forall j | 0 <= j < |y[n].children|
        ensures ChildOk(y, y[n], j)
      {
        assert ChildOk(x, y[n], j);
      }
    } else {
      NodeStaysOk(x, y, n);
    }
  }
}
