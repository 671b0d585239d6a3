/** The shape of the B+ tree as a whole, from the statements about single nodes: which leaves a subtree
    has, and that the chain visits them from left to right. */
module BPlusChain {
  import opened BPlusNodes
  import opened BPlusTree

  /** All nodes in order, whatever their level. */
  ghost predicate AllNodesOk(v: View) {
    forall n :: n in v ==> NodeOk(v, n)
  }

  /** The leaves below `n`, from left to right. */
  ghost function Leaves(v: View, n: Node): (s: seq<Node>)
    requires AllNodesOk(v) && n in v
    decreases v[n].level, |v[n].children| + 1
  {
    assert NodeOk(v, n);
    if v[n].leaf then [n] else LeavesFrom(v, n, 0)
  }

  /** The leaves below the children of `n` from the `i`-th on. */
  ghost function LeavesFrom(v: View, n: Node, i: nat): (s: seq<Node>)
    requires AllNodesOk(v) && n in v && !v[n].leaf && i <= |v[n].children|
    decreases v[n].level, |v[n].children| - i
  {
    assert NodeOk(v, n);
    if i == |v[n].children| then []
    else
      assert ChildOk(v, v[n], i);
      Leaves(v, v[n].children[i]) + LeavesFrom(v, n, i + 1)
  }

  /** The leaves met by following `next`. */
  ghost function Chain(v: View, n: Node?): (s: seq<Node>)
    requires AllNodesOk(v) && (n != null ==> n in v && v[n].leaf)
    decreases if n == null then 0 else TOP - v[n].lo
  {
    if n == null then []
    else
      assert NodeOk(v, n);
      assert v[n].next != null ==> NodeOk(v, v[n].next);
      [n] + Chain(v, v[n].next)
  }

  /** A run of leaves covers an interval without gaps: each one ends where the chain continues. */
  ghost predicate Covers(v: View, s: seq<Node>, lo: int, hi: int) {
    && |s| > 0
    && (forall i :: 0 <= i < |s| ==> s[i] in v && v[s[i]].leaf && v[s[i]].level == 0)
    && v[s[0]].lo == lo && v[s[|s| - 1]].hi == hi
    && forall i :: 0 <= i < |s| - 1 ==> v[s[i]].next == s[i + 1] && v[s[i]].hi == v[s[i + 1]].lo
  }

  /** The leaf where a leaf ends is the next one in the chain. */
  lemma NextIs(v: View, a: Node, b: Node)
    requires AllNodesOk(v) && Apart(v) && a in v && b in v && v[a].leaf && v[b].leaf && v[a].hi == v[b].lo
    ensures v[a].next == b
  {
    assert NodeOk(v, a) && NodeOk(v, b);
    if v[a].next != null {
      assert NodeOk(v, v[a].next) && ApartFrom(v, v[a].next, b);
    }
  }

  lemma CoversConcat(v: View, s: seq<Node>, t: seq<Node>, lo: int, mid: int, hi: int)
    requires AllNodesOk(v) && Apart(v) && Covers(v, s, lo, mid) && Covers(v, t, mid, hi)
    ensures Covers(v, s + t, lo, hi)
  {
    NextIs(v, s[|s| - 1], t[0]);
    var u := s + t;
    forall i | 0 <= i < |u| - 1
      ensures v[u[i]].next == u[i + 1] && v[u[i]].hi == v[u[i + 1]].lo
    {
    }
  }

  /** The leaves below a node cover its interval, and the chain runs through them in order. */
  lemma {:induction false} LeavesCover(v: View, n: Node)
    requires AllNodesOk(v) && Apart(v) && n in v
    ensures Covers(v, Leaves(v, n), v[n].lo, v[n].hi)
    decreases v[n].level, |v[n].children| + 1
  {
    assert NodeOk(v, n);
    if !v[n].leaf { LeavesFromCover(v, n, 0); }
  }

  lemma {:induction false} LeavesFromCover(v: View, n: Node, i: nat)
    requires AllNodesOk(v) && Apart(v) && n in v && !v[n].leaf && i < |v[n].children|
    ensures |Cuts(v[n])| == |v[n].children| + 1 && Covers(v, LeavesFrom(v, n, i), Cuts(v[n])[i], v[n].hi)
    decreases v[n].level, |v[n].children| - i
  {
    var f := v[n];
    assert NodeOk(v, n) && ChildOk(v, f, i);
    var c := f.children[i];
    LeavesCover(v, c);
    if i + 1 == |f.children| {
      assert LeavesFrom(v, n, i) == Leaves(v, c) + [];
      assert Leaves(v, c) + [] == Leaves(v, c);
    } else {
      LeavesFromCover(v, n, i + 1);
      CoversConcat(v, Leaves(v, c), LeavesFrom(v, n, i + 1), Cuts(f)[i], Cuts(f)[i + 1], f.hi);
    }
  }

  /** Following the chain from the first leaf of a run gives the run and then what follows it. */
  lemma {:induction false} ChainThrough(v: View, s: seq<Node>, lo: int, hi: int)
    requires AllNodesOk(v) && Covers(v, s, lo, hi)
    ensures var last := v[s[|s| - 1]].next;
            (last != null ==> last in v && v[last].leaf) && Chain(v, s[0]) == s + Chain(v, last)
    decreases |s|
  {
    assert NodeOk(v, s[0]);
    if |s| == 1 {
      assert s == [s[0]];
    } else {
      assert v[s[0]].next == s[1];
      var t := s[1..];
      assert Covers(v, t, v[s[1]].lo, hi);
      ChainThrough(v, t, v[s[1]].lo, hi);
      assert s == [s[0]] + t;
    }
  }

  /** In a covered interval every key has its leaf in the run. */
  lemma {:induction false} CoversKey(v: View, s: seq<Node>, lo: int, hi: int, k: int) returns (i: nat)
    requires Covers(v, s, lo, hi) && lo <= k < hi
    ensures i < |s| && v[s[i]].lo <= k < v[s[i]].hi
    decreases |s|
  {
    if k < v[s[0]].hi {
      i := 0;
    } else {
      assert |s| > 1;
      var t := s[1..];
      assert Covers(v, t, v[s[1]].lo, hi);
      var j := CoversKey(v, t, v[s[1]].lo, hi, k);
      i := j + 1;
    }
  }

  lemma {:induction false} CoversAscends(v: View, s: seq<Node>, lo: int, hi: int, i: nat, j: nat)
    requires AllNodesOk(v) && Covers(v, s, lo, hi) && i < j < |s|
    ensures v[s[i]].hi <= v[s[j]].lo && v[s[i]].lo < v[s[i]].hi
    decreases j
  {
    assert NodeOk(v, s[i]) && NodeOk(v, s[j - 1]);
    if i < j - 1 { CoversAscends(v, s, lo, hi, i, j - 1); }
  }

  lemma TreeNodesOk(v: View, root: Node, m: Contents)
    requires IsTree(v, root, m)
    ensures AllNodesOk(v) && Apart(v) && root in v
  {
  }

  /** The chain from the leftmost leaf is exactly the left-to-right sequence of the leaves of the tree:
      every leaf node occurs in it once, the intervals ascend, and together they cover every key. */
  lemma ChainIsLeafSequence(v: View, root: Node, m: Contents)
    requires IsTree(v, root, m)
    ensures AllNodesOk(v) && root in v
    ensures var s := Leaves(v, root);
            && |s| > 0 && s[0] in v && v[s[0]].leaf && Chain(v, s[0]) == s
            && s[|s| - 1] in v && v[s[0]].lo == MIN64 && v[s[|s| - 1]].hi == TOP
            && (forall n :: n in v && v[n].leaf ==> n in s)
            && (forall i, j :: 0 <= i < j < |s| ==> s[i] in v && s[j] in v && v[s[i]].hi <= v[s[j]].lo && s[i] != s[j])
  {
    TreeNodesOk(v, root, m);
    LeavesCover(v, root);
    var s := Leaves(v, root);
    ChainThrough(v, s, MIN64, TOP);
    NextBelowTop(v, s[|s| - 1]);
    forall n | n in v && v[n].leaf
      ensures n in s
    {
      assert NodeOk(v, n);
      var i := CoversKey(v, s, MIN64, TOP, v[n].lo);
      assert NodeOk(v, s[i]) && ApartFrom(v, n, s[i]);
    }
    forall i, j | 0 <= i < j < |s|
      ensures s[i] in v && s[j] in v && v[s[i]].hi <= v[s[j]].lo && s[i] != s[j]
    {
      CoversAscends(v, s, MIN64, TOP, i, j);
    }
  }

  lemma NextBelowTop(v: View, n: Node)
    requires AllNodesOk(v) && n in v && v[n].leaf
    ensures v[n].next != null ==> v[n].hi < TOP
  {
    assert NodeOk(v, n);
    if v[n].next != null { assert NodeOk(v, v[n].next); }
  }

  // ------------------------------------------------------------------ separators, depth and height

  lemma CoversBounds(v: View, s: seq<Node>, lo: int, hi: int, i: nat)
    requires AllNodesOk(v) && Covers(v, s, lo, hi) && i < |s|
    ensures lo <= v[s[i]].lo && v[s[i]].hi <= hi
  {
    assert NodeOk(v, s[0]) && NodeOk(v, s[|s| - 1]);
    if 0 < i { CoversAscends(v, s, lo, hi, 0, i); }
    if i < |s| - 1 { CoversAscends(v, s, lo, hi, i, |s| - 1); }
  }

  /** Separators bound their subtrees: every leaf below a node lies in the interval of the node. */
  lemma LeavesWithin(v: View, n: Node, x: Node)
    requires AllNodesOk(v) && Apart(v) && n in v && x in Leaves(v, n)
    ensures x in v && v[n].lo <= v[x].lo && v[x].hi <= v[n].hi
  {
    LeavesCover(v, n);
    var s := Leaves(v, n);
    var i :| 0 <= i < |s| && s[i] == x;
    CoversBounds(v, s, v[n].lo, v[n].hi, i);
  }

  function Pow2(n: nat): nat {
    if n == 0 then 1 else 2 * Pow2(n - 1)
  }

  /** A subtree whose root is `level` steps above the leaves has at least 2 ^ level of them. */
  lemma {:induction false} ManyLeaves(v: View, n: Node)
    requires AllNodesOk(v) && n in v && (forall x :: x in v ==> Fits(v[x]))
    ensures v[n].level >= 0 && |Leaves(v, n)| >= Pow2(v[n].level)
    decreases v[n].level, |v[n].children| + 1
  {
    assert NodeOk(v, n) && Fits(v[n]);
    if !v[n].leaf {
      ManyLeavesFrom(v, n, 0);
      assert |v[n].children| - 0 >= 2;
      TwiceAtLeast(|v[n].children|, Pow2(v[n].level - 1));
    }
  }

  lemma TwiceAtLeast(a: int, b: nat)
    requires a >= 2
    ensures a * b >= 2 * b
  {
  }

  lemma OneMore(a: int, b: nat)
    ensures a * b == (a - 1) * b + b
  {
  }

  lemma {:induction false} ManyLeavesFrom(v: View, n: Node, i: nat)
    requires AllNodesOk(v) && n in v && !v[n].leaf && i <= |v[n].children| && (forall x :: x in v ==> Fits(v[x]))
    ensures v[n].level > 0 && |LeavesFrom(v, n, i)| >= (|v[n].children| - i) * Pow2(v[n].level - 1)
    decreases v[n].level, |v[n].children| - i
  {
    assert NodeOk(v, n);
    if i < |v[n].children| {
      assert ChildOk(v, v[n], i);
      ManyLeaves(v, v[n].children[i]);
      ManyLeavesFrom(v, n, i + 1);
      OneMore(|v[n].children| - i, Pow2(v[n].level - 1));
    }
  }

  /** The height is logarithmic in the number of leaves. */
  lemma HeightIsLogarithmic(v: View, root: Node, m: Contents)
    requires IsTree(v, root, m)
    ensures AllNodesOk(v) && root in v && v[root].level >= 0 && |Leaves(v, root)| >= Pow2(v[root].level)
  {
    TreeNodesOk(v, root, m);
    forall x | x in v
      ensures Fits(v[x])
    {
      assert v[x].level <= v[root].level;
    }
    ManyLeaves(v, root);
  }

  lemma Ascending(out: seq<Entry>, m: Contents, lo: int, hi: int, i: nat, j: nat)
    requires Lists(out, m, lo, hi, TOP)
    ensures i < j < |out| ==> lo <= out[i].0 < out[j].0 <= hi
  {
    if i < j < |out| { assert Listed(out[i], m, lo, hi, TOP) && Listed(out[j], m, lo, hi, TOP); }
  }

  /** A scan of a single key, as index scans use it, lists its entry or nothing. */
  lemma PointScan(out: seq<Entry>, m: Contents, key: Int64)
    requires Lists(out, m, key, key, TOP)
    ensures out == if key in m then [(key, m[key])] else []
  {
    Ascending(out, m, key, key, 0, 1);
    if key in m { assert (key, m[key]) in out; }
    if out != [] { assert Listed(out[0], m, key, key, TOP); }
  }
}
