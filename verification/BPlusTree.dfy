/** The B+ tree index: pointer nodes edited in place, lazy deletion, range scans along the leaf chain.
    It refines a finite map from keys to row ids. */
module BPlusTree {
  import opened BPlusNodes

  /** The whole tree: one root that covers every key, above all other nodes. */
  ghost predicate IsTree(v: View, root: Node?, m: Contents) {
    if root == null then v == map[] && m == map[]
    else
      && root in v && v[root].lo == MIN64 && v[root].hi == TOP && v[root].level >= 0
      && (forall n :: n in v ==> v[n].level <= v[root].level)
      && Sound(v, v[root].level, null, m)
  }

  /** No node outgrew the root. */
  lemma LevelsBelowRoot(v: View, w: View, root: Node, m: Contents, right: Node?, up: int)
    requires IsTree(v, root, m) && Grown(v, w, root, right, up)
    ensures root in w && w[root].level == v[root].level && w[root].lo == MIN64 && w[root].leaf == v[root].leaf
    ensures forall n :: n in w ==> w[n].level <= v[root].level
  {
    assert Kept(v, w, root, root);
    forall n | n in w
      ensures w[n].level <= v[root].level
    {
      assert Added(v, w, root, right, n);
      if n in v { assert Kept(v, w, root, n); }
    }
  }

  lemma RootKept(v: View, w: View, root: Node, m: Contents, m2: Contents, up: int)
    requires IsTree(v, root, m) && Grown(v, w, root, null, up) && Sound(w, v[root].level, null, m2)
    ensures IsTree(w, root, m2)
  {
    LevelsBelowRoot(v, w, root, m, null, up);
  }

  function TopFields(up: Int64, left: Node, right: Node, level: int): Fields {
    Fields(false, [up], [], [left, right], null, MIN64, TOP, level)
  }

  /** A split root and its sibling become the children of a new root. */
  lemma NewRoot(v: View, w: View, root: Node, m: Contents, m2: Contents, right: Node, up: Int64, top: Node)
    requires IsTree(v, root, m) && Grown(v, w, root, right, up) && Sound(w, v[root].level, null, m2) && top !in w
    ensures IsTree(w[top := TopFields(up, root, right, v[root].level + 1)], top, m2)
  {
    LevelsBelowRoot(v, w, root, m, right, up);
    var level := v[root].level + 1;
    var f := TopFields(up, root, right, level);
    var x: View := w[top := f];
    TopIsOk(x, up, root, right, level);
    forall n | n in x && x[n].level <= level
      ensures NodeOk(x, n)
    {
      if n != top { NodeStaysOk(w, x, n); }
    }
    TopIsApart(w, top, f, m2);
  }

  lemma TopIsOk(x: View, up: Int64, left: Node, right: Node, level: int)
    requires left in x && right in x && x[left].level == level - 1 == x[right].level && level > 0 && MIN64 < up < TOP
    requires x[left].lo == MIN64 && x[left].hi == up == x[right].lo && x[right].hi == TOP
    ensures InnerOk(x, TopFields(up, left, right, level))
  {
    var f := TopFields(up, left, right, level);
    assert Cuts(f) == [MIN64, up, TOP];
    assert ChildOk(x, f, 0) && ChildOk(x, f, 1);
  }

  /** A node above all others is apart from them, and holds no entries itself. */
  lemma TopIsApart(w: View, top: Node, f: Fields, m: Contents)
    requires Apart(w) && Holds(w, m) && top !in w && !f.leaf && forall n :: n in w ==> w[n].level < f.level
    ensures Apart(w[top := f]) && Holds(w[top := f], m)
  {
    var x: View := w[top := f];
    forall a, b | a in x && b in x
      ensures ApartFrom(x, a, b)
    {
      if a != top && b != top { assert ApartFrom(w, a, b); }
    }
    forall n | n in x
      ensures LeafHolds(x, m, n)
    {
      if n != top { assert LeafHolds(w, m, n); }
    }
  }

  function FirstFields(key: Int64, rid: RowId): Fields {
    Fields(true, [key], [rid], [], null, MIN64, TOP, 0)
  }

  lemma SingleLeaf(n: Node, key: Int64, rid: RowId)
    ensures IsTree(map[n := FirstFields(key, rid)], n, map[key := rid])
  {
    var v := map[n := FirstFields(key, rid)];
    var m := map[key := rid];
    assert LeafContent(v[n]) && v[n].keys[0] == key;
    assert NodeOk(v, n) && LeafHolds(v, m, n) && Fits(v[n]);
  }

  // ------------------------------------------------------------------ range scans

  type Entry = (Int64, RowId)

  /** `out` lists, in ascending order of keys, the entries between `lo` and `hi` that lie below `upto`. */
  ghost predicate Lists(out: seq<Entry>, m: Contents, lo: int, hi: int, upto: int) {
    && (forall i, j :: 0 <= i < j < |out| ==> out[i].0 < out[j].0)
    && (forall i :: 0 <= i < |out| ==> Listed(out[i], m, lo, hi, upto))
    && (forall k :: k in m && lo <= k <= hi && k < upto ==> (k, m[k]) in out)
  }

  predicate Listed(e: Entry, m: Contents, lo: int, hi: int, upto: int) {
    e.0 in m && m[e.0] == e.1 && lo <= e.0 <= hi && e.0 < upto
  }

  /** Where the part of a leaf from index `i` on begins. */
  function PartFrom(f: Fields, i: nat): int {
    if i < |f.keys| then f.keys[i] else f.hi
  }

  /** The contents have no key between two neighbouring keys of a leaf. */
  lemma NothingBetween(f: Fields, m: Contents, i: nat, k: Int64)
    requires LeafContent(f) && Agrees(f, m) && k in m && f.lo <= k && i <= |f.keys|
    requires i > 0 ==> f.keys[i - 1] < k
    ensures k >= PartFrom(f, i)
  {
    if k < f.hi {
      KeyHasIndex(f, m, k);
      var j :| 0 <= j < |f.keys| && f.keys[j] == k;
      assert j >= i;
      assert f.keys[i] <= f.keys[j];
    }
  }

  /** Below index `i + 1` of the leaf there is nothing new but the key at `i`. */
  lemma OnlyNewKey(f: Fields, m: Contents, i: nat, k: Int64)
    requires LeafContent(f) && Agrees(f, m) && i < |f.keys| && k in m && f.lo <= k < PartFrom(f, i + 1)
    ensures k <= f.keys[i]
  {
    if k > f.keys[i] { NothingBetween(f, m, i + 1, k); }
  }

  /** Passing a key of a leaf that is below the range. */
  lemma SkipKey(out: seq<Entry>, f: Fields, m: Contents, lo: int, hi: int, i: nat)
    requires LeafContent(f) && Agrees(f, m) && i < |f.keys| && Lists(out, m, lo, hi, f.keys[i]) && f.keys[i] < lo
    ensures Lists(out, m, lo, hi, PartFrom(f, i + 1))
  {
    assert f.lo <= f.keys[i] < PartFrom(f, i + 1);
    forall k | k in m && f.lo <= k < PartFrom(f, i + 1)
      ensures k <= f.keys[i]
    {
      OnlyNewKey(f, m, i, k);
    }
  }

  lemma ExtendList(out: seq<Entry>, m: Contents, lo: int, hi: int, key: Int64, upto: int)
    requires Lists(out, m, lo, hi, key) && key in m && lo <= key <= hi && key < upto
    requires forall k :: k in m && key < k < upto ==> k > hi || k < lo
    ensures Lists(out + [(key, m[key])], m, lo, hi, upto)
  {
    var next := out + [(key, m[key])];
    forall i | 0 <= i < |next|
      ensures Listed(next[i], m, lo, hi, upto)
    {
      if i < |out| { assert Listed(out[i], m, lo, hi, key); }
    }
    forall k | k in m && lo <= k <= hi && k < upto
      ensures (k, m[k]) in next
    {
      if k == key {
        assert next[|out|] == (k, m[k]);
      } else {
        var j :| 0 <= j < |out| && out[j] == (k, m[k]);
        assert next[j] == (k, m[k]);
      }
    }
  }

  /** Passing a key of a leaf that is in the range. */
  lemma VisitKey(out: seq<Entry>, f: Fields, m: Contents, lo: int, hi: int, i: nat)
    requires LeafContent(f) && Agrees(f, m) && i < |f.keys| && Lists(out, m, lo, hi, f.keys[i])
    requires lo <= f.keys[i] <= hi
    ensures Lists(out + [(f.keys[i], f.vals[i])], m, lo, hi, PartFrom(f, i + 1))
  {
    assert f.lo <= f.keys[i] < PartFrom(f, i + 1);
    assert f.keys[i] in m && m[f.keys[i]] == f.vals[i];
    forall k | k in m && f.lo <= k < PartFrom(f, i + 1)
      ensures k <= f.keys[i]
    {
      OnlyNewKey(f, m, i, k);
    }
    ExtendList(out, m, lo, hi, f.keys[i], PartFrom(f, i + 1));
  }

  lemma EnterPart(out: seq<Entry>, f: Fields, m: Contents, lo: int, hi: int)
    requires LeafContent(f) && Agrees(f, m) && Lists(out, m, lo, hi, f.lo)
    ensures Lists(out, m, lo, hi, PartFrom(f, 0))
  {
    forall k | k in m && lo <= k <= hi && k < PartFrom(f, 0)
      ensures (k, m[k]) in out
    {
      if k >= f.lo { NothingBetween(f, m, 0, k); }
    }
  }

  class BPlusTree {
    var root: Node?
    var count: nat
    ghost var nodes: set<Node>
    ghost var entries: Contents

    ghost function Heap(): View
      reads this, nodes
    {
      map n | n in nodes :: n.Read()
    }

    ghost predicate Valid()
      reads this, nodes
    {
      IsTree(Heap(), root, entries) && count == |entries|
    }

    constructor ()
      ensures Valid() && entries == map[] && nodes == {}
    {
      root, count := null, 0;
      nodes, entries := {}, map[];
    }

    // ------------------------------------------------------------ descent

    /** The child of an inner node whose interval holds the key. */
    method Route(node: Node, key: Int64) returns (i: nat)
      requires !node.leaf && node in nodes && InnerOk(Heap(), node.Read()) && node.lo <= key < node.hi
      ensures i < |node.children| && Cuts(node.Read())[i] <= key < Cuts(node.Read())[i + 1]
    {
      ghost var a := Cuts(node.Read());
      i := 0;
      while i < |node.keys| && key >= node.keys[i]
        invariant i <= |node.keys| && a[i] <= key
      {
        assert a[i + 1] == node.keys[i];
        i := i + 1;
      }
      assert a[i + 1] == if i < |node.keys| then node.keys[i] else node.hi;
    }

    lemma ChildIn(v: View, p: Node, i: nat)
      requires p in v && InnerOk(v, v[p]) && i < |v[p].children|
      ensures ChildOk(v, v[p], i)
    {
    }

    /** The leaf whose interval holds the key. */
    method FindLeaf(key: Int64) returns (leaf: Node?)
      requires Valid()
      ensures leaf == null <==> root == null
      ensures leaf != null ==> leaf in nodes && leaf.leaf && leaf.lo <= key < leaf.hi
    {
      leaf := root;
      while leaf != null && !leaf.leaf
        invariant leaf == null <==> root == null
        invariant leaf != null ==> leaf in nodes && leaf.lo <= key < leaf.hi
        decreases if leaf == null then 0 else leaf.level
      {
        assert NodeOk(Heap(), leaf);
        var i := Route(leaf, key);
        ChildIn(Heap(), leaf, i);
        leaf := leaf.children[i];
      }
    }

    /** Binary search for the first key that is not below `key`. */
    static method LowerBound(keys: seq<Int64>, key: Int64) returns (pos: nat)
      requires StrictlySorted(keys)
      ensures LowerBoundAt(keys, key, pos)
      ensures key in keys <==> pos < |keys| && keys[pos] == key
    {
      pos := 0;
      var end := |keys|;
      while pos < end
        invariant pos <= end <= |keys|
        invariant forall i :: 0 <= i < pos ==> keys[i] < key
        invariant forall i :: end <= i < |keys| ==> key <= keys[i]
      {
        var mid := pos + (end - pos) / 2;
        if keys[mid] < key { pos := mid + 1; } else { end := mid; }
      }
    }

    method Search(key: Int64) returns (found: bool, rid: RowId)
      requires Valid()
      ensures found <==> key in entries
      ensures found ==> rid == entries[key]
    {
      rid := RowId(-1, -1);
      var leaf := FindLeaf(key);
      if leaf == null { return false, rid; }
      LeafFacts(Heap(), root, entries, leaf);
      var pos := LowerBound(leaf.keys, key);
      if pos < |leaf.keys| && leaf.keys[pos] == key {
        return true, leaf.vals[pos];
      }
      found := false;
    }

    lemma LeafFacts(v: View, r: Node?, m: Contents, n: Node)
      requires IsTree(v, r, m) && n in v && v[n].leaf
      ensures r != null && LeafContent(v[n]) && ChainOk(v, v[n]) && Agrees(v[n], m) && Fits(v[n])
    {
      assert NodeOk(v, n) && LeafHolds(v, m, n);
    }

    // ------------------------------------------------------------ insertion

    lemma HeapIs(w: View)
      requires w.Keys == nodes && forall n :: n in nodes ==> n.Read() == w[n]
      ensures Heap() == w
    {
    }

    /** One node of the heap gets new fields. */
    lemma HeapAfter(v: View, n: Node, f: Fields)
      requires nodes == v.Keys && n in nodes && n.Read() == f
      requires forall x :: x in nodes && x != n ==> x.Read() == v[x]
      ensures Heap() == v[n := f]
    {
    }

    lemma LeafAt(v: View, n: Node, m: Contents, key: Int64)
      requires Sound(v, 0, null, m) && n in v && v[n].leaf && v[n].lo <= key < v[n].hi
      ensures LeafContent(v[n]) && Agrees(v[n], m) && v[n].level == 0
      ensures key in m <==> key in v[n].keys
    {
      assert LeafHolds(v, m, n) && NodeOk(v, n);
    }

    /** Upsert into a leaf; the leaf may be overfull afterwards. */
    method PutInLeaf(node: Node, key: Int64, rid: RowId)
      requires node in nodes && node.leaf && node.level == 0 && node.lo <= key < node.hi
      requires Sound(Heap(), 0, null, entries)
      modifies node`keys, node`vals, this`count, this`entries
      ensures entries == old(entries)[key := rid]
      ensures count == old(count) + if key in old(entries) then 0 else 1
      ensures LeafContent(node.Read()) && |node.keys| <= ORDER
      ensures Sound(Heap(), 0, if |node.keys| < ORDER then null else node, entries)
      ensures Grown(old(Heap()), Heap(), node, null, 0)
    {
      LeafAt(Heap(), node, entries, key);
      var pos := LowerBound(node.keys, key);
      if pos < |node.keys| && node.keys[pos] == key {
        OverwriteAt(node, pos, key, rid);
      } else {
        EnterAt(node, pos, key, rid);
      }
    }

    method OverwriteAt(node: Node, pos: nat, key: Int64, rid: RowId)
      requires node in nodes && node.leaf && node.level == 0 && Sound(Heap(), 0, null, entries)
      requires LeafContent(node.Read()) && Agrees(node.Read(), entries) && pos < |node.keys| && node.keys[pos] == key
      modifies node`vals, this`entries
      ensures entries == old(entries)[key := rid] && key in old(entries)
      ensures LeafContent(node.Read()) && |node.keys| < ORDER && Sound(Heap(), 0, null, entries)
      ensures Grown(old(Heap()), Heap(), node, null, 0)
    {
      ghost var v := Heap();
      OverwriteLeaf(v, node, entries, pos, rid);
      node.vals := node.vals[pos := rid];
      entries := entries[key := rid];
      HeapAfter(v, node, Overwritten(v[node], pos, rid));
    }

    method EnterAt(node: Node, pos: nat, key: Int64, rid: RowId)
      requires node in nodes && node.leaf && node.level == 0 && node.lo <= key < node.hi
        && Sound(Heap(), 0, null, entries)
      requires LeafContent(node.Read()) && Agrees(node.Read(), entries)
      requires LowerBoundAt(node.keys, key, pos) && key !in node.keys && key !in entries
      modifies node`keys, node`vals, this`count, this`entries
      ensures entries == old(entries)[key := rid] && count == old(count) + 1
      ensures LeafContent(node.Read()) && |node.keys| <= ORDER
      ensures Sound(Heap(), 0, if |node.keys| < ORDER then null else node, entries)
      ensures Grown(old(Heap()), Heap(), node, null, 0)
    {
      ghost var v := Heap();
      EnterLeaf(v, node, entries, pos, key, rid);
      node.keys := InsertAt(node.keys, pos, key);
      node.vals := InsertAt(node.vals, pos, rid);
      entries := entries[key := rid];
      count := count + 1;
      HeapAfter(v, node, WithEntry(v[node], pos, key, rid));
    }

    lemma HeapAfterSplit(v: View, n: Node, f: Fields, right: Node, g: Fields)
      requires nodes == v.Keys + {right} && n in v && n.Read() == f && right.Read() == g && right !in v
      requires forall x :: x in v && x != n ==> x.Read() == v[x]
      ensures Heap() == v[n := f][right := g]
    {
    }

    /** The upper half of a leaf moves to a new sibling, which follows it in the chain. */
    method MoveUpperHalf(node: Node) returns (right: Node)
      requires node in nodes && node.leaf && node.level == 0 && node.children == []
      requires |node.keys| == |node.vals| == ORDER
      modifies node, this`nodes
      ensures nodes == old(nodes) + {right} && right !in old(nodes) && fresh(right)
      ensures Heap() == CutLeaf(old(Heap()), node, right)
      ensures |right.keys| > 0 && right.keys[0] == old(node.keys)[2]
    {
      ghost var v := Heap();
      right := new Node(true);
      var mid := |node.keys| / 2;
      right.keys := node.keys[mid..];
      right.vals := node.vals[mid..];
      node.keys := node.keys[..mid];
      node.vals := node.vals[..mid];
      right.next := node.next;
      node.next := right;
      right.lo, right.hi, right.level := right.keys[0], node.hi, 0;
      node.hi := right.keys[0];
      nodes := nodes + {right};
      HeapAfterSplit(v, node, LeftLeaf(v[node], 2, right), right, RightLeaf(v[node], 2));
    }

    /** The leaf part of a split: upper half to a new sibling, its first key copied up. */
    method SplitLeafNode(node: Node) returns (upKey: Int64, right: Node)
      requires node in nodes && node.leaf && |node.keys| == ORDER && LeafContent(node.Read())
      requires Sound(Heap(), 0, node, entries)
      modifies node, this`nodes
      ensures nodes == old(nodes) + {right} && right !in old(nodes) && fresh(right)
      ensures Sound(Heap(), 0, null, entries)
      ensures Grown(old(Heap()), Heap(), node, right, upKey)
    {
      ghost var v := Heap();
      right := MoveUpperHalf(node);
      upKey := right.keys[0];
      SplitLeaf(v, node, right, entries);
    }

    lemma HeapKeys()
      ensures Heap().Keys == nodes
    {
    }

    /** The upper children of an inner node move to a new sibling. */
    method MoveUpperChildren(node: Node) returns (upKey: Int64, right: Node)
      requires node in nodes && !node.leaf && node.vals == [] && node.next == null
      requires |node.children| == |node.keys| + 1 == ORDER + 1
      modifies node, this`nodes
      ensures nodes == old(nodes) + {right} && right !in old(nodes) && fresh(right) && upKey == old(node.keys)[2]
      ensures Heap() == old(Heap())[node := LeftInner(old(node.Read()), 2)][right := RightInner(old(node.Read()), 2)]
    {
      ghost var v := Heap();
      right := new Node(false);
      var mid := |node.keys| / 2;
      upKey := node.keys[mid];
      right.keys := node.keys[mid + 1..];
      right.children := node.children[mid + 1..];
      node.keys := node.keys[..mid];
      node.children := node.children[..mid + 1];
      right.lo, right.hi, right.level := upKey, node.hi, node.level;
      node.hi := upKey;
      nodes := nodes + {right};
      HeapAfterSplit(v, node, LeftInner(v[node], 2), right, RightInner(v[node], 2));
    }

    /** The inner part of a split: the middle separator moves up. */
    method SplitInnerNode(node: Node) returns (upKey: Int64, right: Node)
      requires node in nodes && !node.leaf && |node.children| == ORDER + 1 && InnerOk(Heap(), node.Read())
      requires Sound(Heap(), node.level, node, entries)
      modifies node, this`nodes
      ensures nodes == old(nodes) + {right} && right !in old(nodes) && fresh(right)
      ensures Sound(Heap(), old(node.level), null, entries)
      ensures Grown(old(Heap()), Heap(), node, right, upKey)
    {
      ghost var v := Heap();
      upKey, right := MoveUpperChildren(node);
      SplitInner(v, node, right, entries);
    }

    /** A parent takes in the new right sibling of its child `i`. */
    method TakeIn(node: Node, i: nat, up: Int64, right: Node)
      requires node in nodes && i <= |node.keys| && i < |node.children|
      modifies node`keys, node`children
      ensures Heap() == old(Heap())[node := WithChild(old(node.Read()), i, up, right)]
    {
      ghost var v := Heap();
      node.keys := InsertAt(node.keys, i, up);
      node.children := InsertAt(node.children, i + 1, right);
      HeapAfter(v, node, WithChild(v[node], i, up, right));
    }

    method InsertIntoLeaf(node: Node, key: Int64, rid: RowId) returns (split: bool, upKey: Int64, newRight: Node?)
      requires node in nodes && node.leaf && node.level == 0 && node.lo <= key < node.hi
        && Sound(Heap(), 0, null, entries)
      modifies node, this`nodes, this`count, this`entries
      ensures entries == old(entries)[key := rid]
      ensures count == old(count) + if key in old(entries) then 0 else 1
      ensures old(nodes) <= nodes && fresh(nodes - old(nodes))
      ensures Sound(Heap(), 0, null, entries)
      ensures Grown(old(Heap()), Heap(), node, newRight, upKey) && (split <==> newRight != null)
    {
      split, upKey, newRight := false, 0, null;
      ghost var v := Heap();
      PutInLeaf(node, key, rid);
      if |node.keys| < ORDER { return; }
      ghost var x := Heap();
      split := true;
      upKey, newRight := SplitLeafNode(node);
      GrownThenCut(v, x, Heap(), node, newRight, upKey);
    }

    /** The parent of a split child takes in the new sibling; it may be overfull afterwards. */
    method TakeInSibling(node: Node, i: nat, childUp: Int64, childRight: Node, ghost v: View, ghost m: Contents)
      requires node in nodes && !node.leaf && node in v
        && Descended(v, Heap(), node, i, childRight, childUp, m, entries)
      modifies node`keys, node`children
      ensures 2 <= |node.children| <= ORDER + 1 && InnerOk(Heap(), node.Read()) && node.level == v[node].level
      ensures Sound(Heap(), node.level, node, entries)
      ensures Grown(v, Heap(), node, null, 0)
    {
      SplitBelow(v, Heap(), node, i, childRight, childUp, m, entries);
      FewChildren(v, node, m);
      TakeIn(node, i, childUp, childRight);
    }

    /** The parent of a split child takes in the new sibling, and splits when it is overfull. */
    method TakeInSplit(node: Node, i: nat, childUp: Int64, childRight: Node, ghost v: View, ghost m: Contents)
      returns (split: bool, upKey: Int64, newRight: Node?)
      requires node in nodes && !node.leaf && node in v
        && Descended(v, Heap(), node, i, childRight, childUp, m, entries)
      modifies node, this`nodes
      ensures old(nodes) <= nodes && fresh(nodes - old(nodes))
      ensures Sound(Heap(), v[node].level, null, entries)
      ensures Grown(v, Heap(), node, newRight, upKey) && (split <==> newRight != null)
    {
      TakeInSibling(node, i, childUp, childRight, v, m);
      split, upKey, newRight := SplitOverfull(node, v);
    }

    method SplitOverfull(node: Node, ghost v: View) returns (split: bool, upKey: Int64, newRight: Node?)
      requires node in nodes && !node.leaf && node in v && 2 <= |node.children| <= ORDER + 1
      requires InnerOk(Heap(), node.Read()) && node.level == v[node].level
      requires Sound(Heap(), node.level, node, entries) && Grown(v, Heap(), node, null, 0)
      modifies node, this`nodes
      ensures old(nodes) <= nodes && fresh(nodes - old(nodes))
      ensures Sound(Heap(), v[node].level, null, entries)
      ensures Grown(v, Heap(), node, newRight, upKey) && (split <==> newRight != null)
    {
      split, upKey, newRight := false, 0, null;
      ghost var x := Heap();
      if |node.children| <= ORDER {
        Fitting(x, node, node.level, entries);
        return;
      }
      OldKeys(v, x, node);
      split := true;
      upKey, newRight := SplitInnerNode(node);
      GrownThenCut(v, x, Heap(), node, newRight, upKey);
    }

    lemma Fitting(x: View, n: Node, level: int, m: Contents)
      requires n in x && Sound(x, level, n, m) && !x[n].leaf && 2 <= |x[n].children| <= ORDER
      ensures Sound(x, level, null, m)
    {
    }

    lemma FewChildren(v: View, n: Node, m: Contents)
      requires n in v && Sound(v, v[n].level, null, m) && !v[n].leaf
      ensures 2 <= |v[n].children| <= ORDER
    {
      assert Fits(v[n]);
    }

    lemma OldKeys(v: View, x: View, n: Node)
      requires Grown(v, x, n, null, 0)
      ensures x[n].lo == v[n].lo && x[n].level == v[n].level && (forall k :: k in v ==> k in x)
    {
      assert Kept(v, x, n, n);
      forall k | k in v
        ensures k in x
      {
        assert Kept(v, x, n, k);
      }
    }

    /** Insertion below a node; when the node split, the new right sibling and its separator. */
    method InsertInto(node: Node, key: Int64, rid: RowId) returns (split: bool, upKey: Int64, newRight: Node?)
      requires node in nodes && node.level >= 0 && node.lo <= key < node.hi && Sound(Heap(), node.level, null, entries)
      modifies this`nodes, this`count, this`entries, nodes
      ensures entries == old(entries)[key := rid]
      ensures count == old(count) + if key in old(entries) then 0 else 1
      ensures old(nodes) <= nodes && fresh(nodes - old(nodes))
      ensures Sound(Heap(), old(node.level), null, entries)
      ensures Grown(old(Heap()), Heap(), node, newRight, upKey) && (split <==> newRight != null)
      decreases node.level, 1
    {
      assert NodeOk(Heap(), node);
      if node.leaf {
        split, upKey, newRight := InsertIntoLeaf(node, key, rid);
      } else {
        split, upKey, newRight := InsertIntoInner(node, key, rid);
      }
    }

    method InsertIntoInner(node: Node, key: Int64, rid: RowId) returns (split: bool, upKey: Int64, newRight: Node?)
      requires node in nodes && !node.leaf && InnerOk(Heap(), node.Read())
      requires node.lo <= key < node.hi && Sound(Heap(), node.level, null, entries)
      modifies this`nodes, this`count, this`entries, nodes
      ensures entries == old(entries)[key := rid]
      ensures count == old(count) + if key in old(entries) then 0 else 1
      ensures old(nodes) <= nodes && fresh(nodes - old(nodes))
      ensures Sound(Heap(), old(node.level), null, entries)
      ensures Grown(old(Heap()), Heap(), node, newRight, upKey) && (split <==> newRight != null)
      decreases node.level, 0
    {
      ghost var v, m := Heap(), entries;
      var i := Route(node, key);
      BeforeDescent(v, node, i, m);
      var childSplit, childUp, childRight := InsertInto(node.children[i], key, rid);
      assert fresh(nodes - old(nodes));
      AfterDescent(v, Heap(), node, i, childRight, childUp, m, entries);
      split, upKey, newRight := AfterChild(node, i, childUp, childRight, v, m);
    }

    /** What the parent has to do once the child is done. */
    method AfterChild(node: Node, i: nat, childUp: Int64, childRight: Node?, ghost v: View, ghost m: Contents)
      returns (split: bool, upKey: Int64, newRight: Node?)
      requires node in v && Descended(v, Heap(), node, i, childRight, childUp, m, entries)
      modifies node, this`nodes
      ensures old(nodes) <= nodes && fresh(nodes - old(nodes))
      ensures Sound(Heap(), v[node].level, null, entries)
      ensures Grown(v, Heap(), node, newRight, upKey) && (split <==> newRight != null)
    {
      split, upKey, newRight := false, 0, null;
      ParentUnchanged(v, Heap(), node, i, childRight, childUp, m, entries);
      if childRight == null {
        NoSplitBelow(v, Heap(), node, i, childUp, m, entries);
      } else {
        split, upKey, newRight := TakeInSplit(node, i, childUp, childRight, v, m);
      }
    }

    lemma BeforeDescent(v: View, p: Node, i: nat, m: Contents)
      requires p in v && InnerOk(v, v[p]) && i < |v[p].children| && Sound(v, v[p].level, null, m)
      ensures var c := v[p].children[i];
              c in v && v[c].level == v[p].level - 1 && v[c].lo == Cuts(v[p])[i] && v[c].hi == Cuts(v[p])[i + 1]
              && Sound(v, v[c].level, null, m)
    {
      assert ChildOk(v, v[p], i);
    }

    lemma AfterDescent(v: View, w: View, p: Node, i: nat, right: Node?, up: int, m: Contents, m2: Contents)
      requires p in v && InnerOk(v, v[p]) && i < |v[p].children| && Sound(v, v[p].level, null, m)
      requires var c := v[p].children[i];
               c in v && Grown(v, w, c, right, up) && v[c].level == v[p].level - 1 && Sound(w, v[c].level, null, m2)
      ensures Descended(v, w, p, i, right, up, m, m2)
    {
    }

    /** Upsert: the map gets the entry, whatever was there before. */
    method Insert(key: Int64, rid: RowId)
      requires Valid()
      modifies this, nodes
      ensures Valid() && entries == old(entries)[key := rid]
      ensures old(nodes) <= nodes && fresh(nodes - old(nodes))
    {
      HeapKeys();
      if root == null {
        PlantRoot(key, rid);
      } else {
        InsertBelowRoot(key, rid);
      }
    }

    method InsertBelowRoot(key: Int64, rid: RowId)
      requires root != null && IsTree(Heap(), root, entries)
      modifies this, nodes
      ensures IsTree(Heap(), root, entries) && entries == old(entries)[key := rid]
      ensures count == old(count) + if key in old(entries) then 0 else 1
      ensures old(nodes) <= nodes && fresh(nodes - old(nodes))
    {
      ghost var v, m := Heap(), entries;
      var split, upKey, newRight := InsertInto(root, key, rid);
      assert fresh(nodes - old(nodes));
      if split {
        GrowRoot(v, m, upKey, newRight);
      } else {
        RootKept(v, Heap(), root, m, entries, upKey);
      }
    }

    method PlantRoot(key: Int64, rid: RowId)
      requires nodes == {}
      modifies this
      ensures IsTree(Heap(), root, entries) && entries == map[key := rid] && count == 1 && fresh(nodes)
    {
      PlantLeaf(key, rid);
      count := 1;
      entries := map[key := rid];
      SingleLeaf(root, key, rid);
    }

    method PlantLeaf(key: Int64, rid: RowId)
      modifies this`root, this`nodes
      ensures root != null && fresh(root) && nodes == {root} && Heap() == map[root := FirstFields(key, rid)]
    {
      var leaf := new Node(true);
      leaf.keys := [key];
      leaf.vals := [rid];
      leaf.lo, leaf.hi, leaf.level := MIN64, TOP, 0;
      root, nodes := leaf, {leaf};
      HeapIs(map[leaf := FirstFields(key, rid)]);
    }

    method NewTop(upKey: Int64, left: Node, right: Node, ghost level: int)
      modifies this`root, this`nodes
      ensures root != null && fresh(root) && nodes == old(nodes) + {root} && root !in old(nodes)
      ensures Heap() == old(Heap())[root := TopFields(upKey, left, right, level)]
    {
      ghost var w := Heap();
      var top := new Node(false);
      top.keys := [upKey];
      top.children := [left, right];
      top.lo, top.hi, top.level := MIN64, TOP, level;
      nodes := nodes + {top};
      HeapIs(w[top := TopFields(upKey, left, right, level)]);
      root := top;
    }

    /** A split root gets a common parent with its sibling; the tree is one level taller. */
    method GrowRoot(ghost v: View, ghost m: Contents, upKey: Int64, newRight: Node)
      requires root != null && root in nodes && IsTree(v, root, m) && Grown(v, Heap(), root, newRight, upKey)
      requires Sound(Heap(), v[root].level, null, entries)
      modifies this`root, this`nodes
      ensures IsTree(Heap(), root, entries) && old(nodes) <= nodes && fresh(nodes - old(nodes))
    {
      ghost var w := Heap();
      var left := root;
      HeapKeys();
      NewTop(upKey, left, newRight, v[left].level + 1);
      NewRoot(v, w, left, m, entries, newRight, upKey, root);
    }

    // ------------------------------------------------------------ deletion and scans

    /** Lazy deletion: the entry goes, the leaf stays. */
    method Erase(key: Int64)
      requires Valid()
      modifies this`count, this`entries, nodes`keys, nodes`vals
      ensures Valid() && entries == old(entries) - {key} && nodes == old(nodes) && root == old(root)
    {
      var leaf := FindLeaf(key);
      if leaf == null { return; }
      LeafFacts(Heap(), root, entries, leaf);
      EraseIn(leaf, key);
    }

    method EraseIn(leaf: Node, key: Int64)
      requires Valid() && leaf in nodes && leaf.leaf && leaf.lo <= key < leaf.hi
      requires LeafContent(leaf.Read()) && Agrees(leaf.Read(), entries)
      modifies this`count, this`entries, leaf`keys, leaf`vals
      ensures Valid() && entries == old(entries) - {key}
    {
      KeysOfInterval(leaf.Read(), entries, key);
      var pos := LowerBound(leaf.keys, key);
      if pos < |leaf.keys| && leaf.keys[pos] == key { EraseAt(leaf, pos); }
    }

    method EraseAt(leaf: Node, pos: nat)
      requires Valid() && leaf in nodes && leaf.leaf && pos < |leaf.keys|
      requires LeafContent(leaf.Read()) && Agrees(leaf.Read(), entries)
      modifies this`count, this`entries, leaf`keys, leaf`vals
      ensures Valid() && entries == old(entries) - {old(leaf.keys)[pos]}
    {
      RemoveFacts(Heap(), root, entries, leaf, pos);
      RemoveFrom(leaf, pos);
    }

    lemma KeysOfInterval(f: Fields, m: Contents, key: Int64)
      requires LeafContent(f) && Agrees(f, m) && f.lo <= key < f.hi
      ensures key in m <==> key in f.keys
      ensures key !in m ==> m - {key} == m
    {
    }

    lemma RemoveFacts(v: View, r: Node?, m: Contents, n: Node, pos: nat)
      requires IsTree(v, r, m) && n in v && v[n].leaf && pos < |v[n].keys|
      requires LeafContent(v[n]) && Agrees(v[n], m)
      ensures IsTree(v[n := WithoutEntry(v[n], pos)], r, m - {v[n].keys[pos]})
      ensures v[n].keys[pos] in m && |m - {v[n].keys[pos]}| == |m| - 1
    {
      LeaveLeaf(v, n, m, pos, v[r].level);
      RootKept(v, v[n := WithoutEntry(v[n], pos)], r, m, m - {v[n].keys[pos]}, 0);
      RemoveKey(m, v[n].keys[pos]);
    }

    method RemoveFrom(leaf: Node, pos: nat)
      requires leaf in nodes && pos < |leaf.keys| && pos < |leaf.vals| && count > 0
      modifies this`count, this`entries, leaf`keys, leaf`vals
      ensures Heap() == old(Heap())[leaf := WithoutEntry(old(leaf.Read()), pos)]
      ensures entries == old(entries) - {old(leaf.keys)[pos]} && count == old(count) - 1
    {
      ghost var v := Heap();
      entries := entries - {leaf.keys[pos]};
      leaf.keys := RemoveAt(leaf.keys, pos);
      leaf.vals := RemoveAt(leaf.vals, pos);
      count := count - 1;
      HeapAfter(v, leaf, WithoutEntry(v[leaf], pos));
    }

    lemma RemoveKey(m: Contents, key: Int64)
      requires key in m
      ensures |m - {key}| == |m| - 1
    {
      assert m == (m - {key})[key := m[key]];
    }

    /** The entries between `lo` and `hi`, in the order the visitor is called with them. */
    method RangeScan(lo: Int64, hi: Int64) returns (out: seq<Entry>)
      requires Valid()
      ensures Lists(out, entries, lo, hi, TOP)
    {
      out := [];
      var leaf := FindLeaf(lo);
      while leaf != null
        invariant leaf != null ==> leaf in nodes && leaf.leaf && Lists(out, entries, lo, hi, leaf.lo)
        invariant leaf == null ==> Lists(out, entries, lo, hi, TOP)
        decreases if leaf == null then 0 else TOP - leaf.lo
      {
        LeafFacts(Heap(), root, entries, leaf);
        var done;
        out, done := ScanLeaf(leaf, lo, hi, out);
        if done { return; }
        leaf := leaf.next;
      }
    }

    /** The keys of one leaf; `done` when one of them lies above the range. */
    method ScanLeaf(leaf: Node, lo: Int64, hi: Int64, listed: seq<Entry>) returns (out: seq<Entry>, done: bool)
      requires leaf.leaf && LeafContent(leaf.Read()) && Agrees(leaf.Read(), entries)
        && Lists(listed, entries, lo, hi, leaf.lo)
      ensures Lists(out, entries, lo, hi, if done then TOP else leaf.hi)
    {
      out := listed;
      EnterPart(out, leaf.Read(), entries, lo, hi);
      var i := 0;
      while i < |leaf.keys|
        invariant i <= |leaf.keys| && Lists(out, entries, lo, hi, PartFrom(leaf.Read(), i))
      {
        if leaf.keys[i] > hi { return out, true; }
        if leaf.keys[i] < lo {
          SkipKey(out, leaf.Read(), entries, lo, hi, i);
        } else {
          VisitKey(out, leaf.Read(), entries, lo, hi, i);
          out := out + [(leaf.keys[i], leaf.vals[i])];
        }
        i := i + 1;
      }
      done := false;
    }
  }
}
