/** The pointer red-black tree. Each node carries, as ghost state, the open interval of keys its
    subtree may hold and its black height, so that the whole shape of the tree is a statement about
    each node and its direct neighbours, and about pairs of nodes. */
module RedBlack {
  import opened RedBlackSpec
  import opened SetFacts

  const INT_MIN: int := -0x8000_0000
  const INT_MAX: int := 0x7fff_ffff
  type Int32 = x: int | INT_MIN <= x <= INT_MAX

  const LOW: int := INT_MIN - 1
  const HIGH: int := INT_MAX + 1

  /** The interval of a subtree and the key at its root. */
  datatype Span = Span(lo: int, key: int, hi: int)

  predicate Inside(a: Span, b: Span) {
    (b.lo <= a.lo && a.hi <= b.key) || (b.key <= a.lo && a.hi <= b.hi)
  }

  /** Two different nodes: their intervals are disjoint or one lies in one half of the other, and when
      the key of `m` falls into the interval of `n`, then `n` has a child on that side. */
  predicate PairOk(m: Span, n: Span, hasLeft: bool, hasRight: bool) {
    && (m.hi <= n.lo || n.hi <= m.lo || Inside(m, n) || Inside(n, m))
    && (n.lo < m.key < n.hi ==> m.key != n.key && (m.key < n.key ==> hasLeft) && (m.key > n.key ==> hasRight))
  }

  predicate Proper(s: Span) {
    s.lo < s.key < s.hi
  }

  /** A new leaf in the empty half of `p` keeps every pair with `p` and any other node in order. */
  lemma LeafPair(x: Span, p: Span, n: Span, left: bool, pl: bool, pr: bool, nl: bool, nr: bool)
    requires Proper(x) && Proper(p) && Proper(n)
    requires if left then !pl && x.lo == p.lo && x.hi == p.key else !pr && x.lo == p.key && x.hi == p.hi
    requires PairOk(n, p, pl, pr) && PairOk(p, n, nl, nr)
    ensures PairOk(x, n, nl, nr) && PairOk(n, x, false, false)
  {
  }

  /** Rotating `c`, the child of `n`, above `n`: any other node stays in order with both. The flags are
      the children before the rotation: `inner` the grandchild that changes hands, `outer` the child
      of `n` that stays. */
  lemma RotatePair(m: Span, n: Span, c: Span, leftward: bool, ml: bool, mr: bool, outer: bool, inner: bool, far: bool)
    requires Proper(m) && Proper(n) && Proper(c)
    requires if leftward then c.lo == n.key && c.hi == n.hi else c.lo == n.lo && c.hi == n.key
    requires PairOk(m, n, if leftward then outer else true, if leftward then true else outer) && PairOk(n, m, ml, mr)
    requires PairOk(m, c, if leftward then inner else far, if leftward then far else inner) && PairOk(c, m, ml, mr)
    ensures var c2 := Span(n.lo, c.key, n.hi);
            var n2 := if leftward then Span(n.lo, n.key, c.key) else Span(c.key, n.key, n.hi);
            && PairOk(m, n2, if leftward then outer else inner, if leftward then inner else outer)
              && PairOk(n2, m, ml, mr)
            && PairOk(m, c2, if leftward then true else far, if leftward then far else true) && PairOk(c2, m, ml, mr)
  {
  }

  class Node {
    const key: Int32
    var red: bool
    var parent: Node?
    var left: Node?
    var right: Node?
    ghost var lo: int
    ghost var hi: int
    ghost var blacks: int

    constructor (value: Int32)
      ensures key == value && red && parent == null && left == null && right == null && blacks == 0
    {
      key := value;
      red, parent, left, right := true, null, null, null;
      blacks := 0;
    }

    ghost function Read(): Fields
      reads this
    {
      Fields(parent, left, right, red, blacks, Span(lo, key, hi))
    }
  }

  /** The fields of one node, and of all nodes of a tree. */
  datatype Fields = Fields(parent: Node?, left: Node?, right: Node?, red: bool, blacks: int, span: Span)
  type View = map<Node, Fields>

  // ------------------------------------------------------------------ the shape of a view

  /** The interval of a node, and its children with their halves of it. */
  ghost predicate Below(v: View, n: Node)
    requires n in v
  {
    var f := v[n];
    && Proper(f.span) && f.span.key == n.key && LOW <= f.span.lo && f.span.hi <= HIGH
    && (f.left != null ==>
        f.left in v && v[f.left].parent == n && v[f.left].span.lo == f.span.lo && v[f.left].span.hi == f.span.key)
    && (f.right != null ==>
        f.right in v && v[f.right].parent == n && v[f.right].span.lo == f.span.key && v[f.right].span.hi == f.span.hi)
  }

  /** The root is the only node without a parent, and every other one is a child of its parent. */
  ghost predicate Above(v: View, root: Node?, n: Node)
    requires n in v
  {
    var p := v[n].parent;
    if p == null then n == root else p in v && (v[p].left == n || v[p].right == n)
  }

  ghost predicate Linked(v: View, root: Node?, n: Node)
    requires n in v
  {
    Below(v, n) && Above(v, root, n)
  }

  ghost predicate Paired(v: View, m: Node, n: Node)
    requires m in v && n in v
  {
    m != n ==> PairOk(v[m].span, v[n].span, v[n].left != null, v[n].right != null)
  }

  ghost predicate Shape(v: View, root: Node?) {
    && (root == null ==> v == map[])
    && (root != null ==> root in v && v[root].parent == null && v[root].span.lo == LOW && v[root].span.hi == HIGH)
    && (forall n :: n in v ==> Linked(v, root, n))
    && (forall m, n :: m in v && n in v ==> Paired(v, m, n))
  }

  predicate Red(v: View, n: Node?) {
    n != null && n in v && v[n].red
  }

  function Blacks(v: View, n: Node?): int {
    if n != null && n in v then v[n].blacks else 0
  }

  /** Black heights add up at `n`, and `n` is not the red parent of a red child other than `z`. */
  ghost predicate Coloured(v: View, n: Node, z: Node?)
    requires n in v
  {
    var f := v[n];
    && f.blacks == Blacks(v, f.left) + (if f.red then 0 else 1)
    && Blacks(v, f.left) == Blacks(v, f.right) >= 0
    && (f.red && Red(v, f.left) ==> f.left == z)
    && (f.red && Red(v, f.right) ==> f.right == z)
  }

  ghost predicate Colours(v: View, root: Node?, z: Node?) {
    (Red(v, root) ==> root == z) && forall n :: n in v ==> Coloured(v, n, z)
  }

  ghost function KeySet(v: View): set<int> {
    set n | n in v :: v[n].span.key
  }

  /** When a search for `key` runs out at the missing child of `n`, no node has the key. */
  lemma NotFound(v: View, root: Node?, n: Node, key: int)
    requires Shape(v, root) && n in v && v[n].span.lo < key < v[n].span.hi && key != v[n].span.key
    requires if key < v[n].span.key then v[n].left == null else v[n].right == null
    ensures key !in KeySet(v)
  {
    forall m | m in v
      ensures v[m].span.key != key
    {
      assert Paired(v, m, n);
    }
  }

  // ------------------------------------------------------------------ rotations of a view

  /** The fields of `n` after `child` is rotated above its parent `node`. */
  function RotatedFields(v: View, node: Node, child: Node, leftward: bool, n: Node): Fields
    requires node in v && child in v && n in v
  {
    var f := v[n];
    if n == node then
      var span := if leftward then f.span.(hi := v[child].span.key) else f.span.(lo := v[child].span.key);
      if leftward then f.(right := v[child].left, parent := child, span := span)
      else f.(left := v[child].right, parent := child, span := span)
    else if n == child then
      var span := Span(v[node].span.lo, f.span.key, v[node].span.hi);
      if leftward then f.(left := node, parent := v[node].parent, span := span)
      else f.(right := node, parent := v[node].parent, span := span)
    else
      Fields(if n == (if leftward then v[child].left else v[child].right) then node else f.parent,
             if f.left == node then child else f.left,
             if f.right == node then child else f.right,
             f.red, f.blacks, f.span)
  }

  function Rotate(v: View, node: Node, child: Node, leftward: bool): View
    requires node in v && child in v
  {
    map n | n in v :: RotatedFields(v, node, child, leftward, n)
  }

  /** The fields of `n` after `child` took the place of `node` below its parent. */
  function ReplacedFields(v: View, node: Node, child: Node, n: Node): Fields
    requires node in v && n in v
  {
    var f := v[n];
    f.(parent := if n == child then v[node].parent else f.parent,
       left := if f.left == node then child else f.left,
       right := if f.right == node then child else f.right)
  }

  function Replaced(v: View, node: Node, child: Node): View
    requires node in v
  {
    map n | n in v :: ReplacedFields(v, node, child, n)
  }

  function AdoptedFields(v: View, node: Node, child: Node, leftward: bool, n: Node): Fields
    requires node in v && child in v && n in v
  {
    var inner := if leftward then v[child].left else v[child].right;
    if n == node then (if leftward then v[n].(right := inner) else v[n].(left := inner))
    else if n == inner then v[n].(parent := node) else v[n]
  }

  /** The three parts of a rotation: the inner grandchild changes parents, ... */
  function Adopted(v: View, node: Node, child: Node, leftward: bool): View
    requires node in v && child in v
  {
    map n | n in v :: AdoptedFields(v, node, child, leftward, n)
  }

  /** ... and, after `child` took the place of `node`, `node` becomes a child of `child`. */
  function Reversed(v: View, node: Node, child: Node, leftward: bool): View
    requires node in v && child in v
  {
    var f, c := v[node], v[child];
    var k := c.span.key;
    var span := if leftward then f.span.(hi := k) else f.span.(lo := k);
    var up := Span(f.span.lo, k, f.span.hi);
    v[child := if leftward then c.(left := node, span := up) else c.(right := node, span := up)]
     [node := f.(parent := child, span := span)]
  }

  /** `node` hangs in one slot of its parent, or at the root, and nowhere else. */
  ghost predicate OnlyParent(v: View, root: Node?, node: Node, child: Node) {
    && node in v
    && var p := v[node].parent;
    && (p == null <==> root == node)
    && (p != null ==> p in v && p != node && p != child && (v[p].left == node) != (v[p].right == node))
    && (forall n :: n in v && (v[n].left == node || v[n].right == node) ==> n == p)
  }

  /** What a rotation relies on: the nodes it touches are all different and point at each other. */
  ghost predicate RotationReady(v: View, root: Node?, node: Node, child: Node, leftward: bool) {
    && OnlyParent(v, root, node, child)
    && CanRotate(v, node, child, leftward) && child != node && v[child].parent == node
    && (v[child].left != null ==> v[child].left in v && v[child].left != node && v[child].left != child)
    && (v[child].right != null ==> v[child].right in v && v[child].right != node && v[child].right != child)
  }

  lemma ShapeAllowsRotation(v: View, root: Node?, node: Node, child: Node, leftward: bool)
    requires Shape(v, root) && CanRotate(v, node, child, leftward)
    ensures RotationReady(v, root, node, child, leftward)
  {
    assert Linked(v, root, node) && Linked(v, root, child);
    if v[child].left != null { assert Linked(v, root, v[child].left); }
    if v[child].right != null { assert Linked(v, root, v[child].right); }
    if v[node].parent != null { assert Linked(v, root, v[node].parent); }
    forall n | n in v && (v[n].left == node || v[n].right == node)
      ensures n == v[node].parent
    {
      assert Linked(v, root, n);
    }
  }

  lemma RotatedPart(v: View, root: Node?, node: Node, child: Node, leftward: bool, n: Node)
    requires OnlyParent(v, root, node, child) && node != child && child in v && n in v
    requires (if leftward then v[child].left else v[child].right) !in {node, child}
    requires child == if leftward then v[node].right else v[node].left
    ensures Reversed(Replaced(Adopted(v, node, child, leftward), node, child), node, child, leftward)[n]
         == RotatedFields(v, node, child, leftward, n)
  {
  }

  lemma RotationParts(v: View, root: Node?, node: Node, child: Node, leftward: bool)
    requires RotationReady(v, root, node, child, leftward)
    ensures OnlyParent(Adopted(v, node, child, leftward), root, node, child)
    ensures Reversed(Replaced(Adopted(v, node, child, leftward), node, child), node, child, leftward)
      == Rotate(v, node, child, leftward)
  {
    forall n | n in v
      ensures Reversed(Replaced(Adopted(v, node, child, leftward), node, child), node, child, leftward)[n]
           == RotatedFields(v, node, child, leftward, n)
    {
      RotatedPart(v, root, node, child, leftward, n);
    }
  }

  predicate CanRotate(v: View, node: Node, child: Node, leftward: bool) {
    node in v && child in v && child == if leftward then v[node].right else v[node].left
  }

  lemma RotatedAbovePivots(v: View, root: Node?, node: Node, child: Node, leftward: bool)
    requires Shape(v, root) && CanRotate(v, node, child, leftward)
    ensures var v2 := Rotate(v, node, child, leftward);
            Above(v2, if root == node then child else root, node)
              && Above(v2, if root == node then child else root, child)
  {
    assert Linked(v, root, node) && Linked(v, root, child);
    var above := v[node].parent;
    if above != null {
      assert Linked(v, root, above);
      assert above != child && above != node;
    }
  }

  lemma RotatedAboveOther(v: View, root: Node?, node: Node, child: Node, leftward: bool, n: Node)
    requires Shape(v, root) && CanRotate(v, node, child, leftward) && n in v && n != node && n != child
    ensures Above(Rotate(v, node, child, leftward), if root == node then child else root, n)
  {
    var inner := if leftward then v[child].left else v[child].right;
    assert Linked(v, root, n) && Linked(v, root, node) && Linked(v, root, child);
    if n != inner {
      var p := v[n].parent;
      assert p == child ==> n == if leftward then v[child].right else v[child].left;
    }
  }

  lemma RotatedBelowNode(v: View, root: Node?, node: Node, child: Node, leftward: bool)
    requires Shape(v, root) && CanRotate(v, node, child, leftward)
    ensures Below(Rotate(v, node, child, leftward), node)
  {
    assert Linked(v, root, node) && Linked(v, root, child);
    var outer := if leftward then v[node].left else v[node].right;
    var inner := if leftward then v[child].left else v[child].right;
    if outer != null { assert Linked(v, root, outer); }
    if inner != null { assert Linked(v, root, inner); }
  }

  lemma RotatedBelowChild(v: View, root: Node?, node: Node, child: Node, leftward: bool)
    requires Shape(v, root) && CanRotate(v, node, child, leftward)
    ensures Below(Rotate(v, node, child, leftward), child)
  {
    assert Linked(v, root, node) && Linked(v, root, child);
    var far := if leftward then v[child].right else v[child].left;
    if far != null { assert Linked(v, root, far); }
  }

  /** The child slot of a node that did not take part in the rotation. */
  lemma RotatedChild(v: View, root: Node?, node: Node, child: Node, leftward: bool, n: Node, l: Node)
    requires Shape(v, root) && CanRotate(v, node, child, leftward) && n in v && n != node && n != child
    requires l == v[n].left || l == v[n].right
    ensures l in v && v[l].parent == n && l != child
    ensures var v2 := Rotate(v, node, child, leftward);
            var l2 := if l == node then child else l;
            l2 in v2 && v2[l2].parent == n && v2[l2].span.lo == v[l].span.lo && v2[l2].span.hi == v[l].span.hi
  {
    assert Linked(v, root, node) && Linked(v, root, child) && Linked(v, root, n) && Linked(v, root, l);
  }

  lemma RotatedBelowOther(v: View, root: Node?, node: Node, child: Node, leftward: bool, n: Node)
    requires Shape(v, root) && CanRotate(v, node, child, leftward) && n in v && n != node && n != child
    ensures Below(Rotate(v, node, child, leftward), n)
  {
    assert Linked(v, root, n);
    if v[n].left != null { RotatedChild(v, root, node, child, leftward, n, v[n].left); }
    if v[n].right != null { RotatedChild(v, root, node, child, leftward, n, v[n].right); }
  }

  lemma RotatedSpans(v: View, node: Node, child: Node, leftward: bool, m: Node)
    requires CanRotate(v, node, child, leftward) && m in v && m != node && m != child
    requires Below(v, node) && Below(v, child) && Below(v, m)
    requires Paired(v, m, node) && Paired(v, node, m) && Paired(v, m, child) && Paired(v, child, m)
    ensures var n, c, ml, mr := v[node], v[child], v[m].left != null, v[m].right != null;
            var outer := if leftward then n.left != null else n.right != null;
            var inner := if leftward then c.left != null else c.right != null;
            var far := if leftward then c.right != null else c.left != null;
            var c2 := Span(n.span.lo, c.span.key, n.span.hi);
            var n2 := if leftward then Span(n.span.lo, n.span.key, c.span.key)
              else Span(c.span.key, n.span.key, n.span.hi);
            && PairOk(v[m].span, n2, if leftward then outer else inner, if leftward then inner else outer)
              && PairOk(n2, v[m].span, ml, mr)
            && PairOk(v[m].span, c2, if leftward then true else far, if leftward then far else true)
              && PairOk(c2, v[m].span, ml, mr)
  {
    RotatePair(v[m].span, v[node].span, v[child].span, leftward, v[m].left != null, v[m].right != null,
               if leftward then v[node].left != null else v[node].right != null,
               if leftward then v[child].left != null else v[child].right != null,
               if leftward then v[child].right != null else v[child].left != null);
  }

  lemma RotatedOther(v: View, node: Node, child: Node, leftward: bool, m: Node)
    requires CanRotate(v, node, child, leftward) && m in v && m != node && m != child
    requires Below(v, node) && Below(v, child) && Below(v, m)
    requires Paired(v, m, node) && Paired(v, node, m) && Paired(v, m, child) && Paired(v, child, m)
    ensures var v2 := Rotate(v, node, child, leftward);
            Paired(v2, m, node) && Paired(v2, node, m) && Paired(v2, m, child) && Paired(v2, child, m)
  {
    RotatedSpans(v, node, child, leftward, m);
    var v2 := Rotate(v, node, child, leftward);
    assert v2[m].span == v[m].span && (v2[m].left != null <==> v[m].left != null)
      && (v2[m].right != null <==> v[m].right != null);
  }

  lemma RotatedWithOther(v: View, root: Node?, node: Node, child: Node, leftward: bool, m: Node)
    requires Shape(v, root) && CanRotate(v, node, child, leftward) && m in v && m != node && m != child
    ensures var v2 := Rotate(v, node, child, leftward);
            Paired(v2, m, node) && Paired(v2, node, m) && Paired(v2, m, child) && Paired(v2, child, m)
  {
    ShapeIsBelow(v, root);
    assert Below(v, node) && Below(v, child) && Below(v, m);
    assert Paired(v, m, node) && Paired(v, node, m) && Paired(v, m, child) && Paired(v, child, m);
    RotatedOther(v, node, child, leftward, m);
  }

  lemma RotatedPairs(v: View, root: Node?, node: Node, child: Node, leftward: bool, m: Node, n: Node)
    requires Shape(v, root) && CanRotate(v, node, child, leftward) && m in v && n in v
    ensures Paired(Rotate(v, node, child, leftward), m, n)
  {
    if m != node && m != child {
      if n == node || n == child {
        RotatedWithOther(v, root, node, child, leftward, m);
      } else {
        assert Paired(v, m, n);
      }
    } else if n != node && n != child {
      RotatedWithOther(v, root, node, child, leftward, n);
    } else {
      assert Linked(v, root, node) && Linked(v, root, child);
    }
  }

  /** A rotation keeps search order, parent links and intervals, and every key. */
  lemma RotationKeepsShape(v: View, root: Node?, node: Node, child: Node, leftward: bool)
    requires Shape(v, root) && CanRotate(v, node, child, leftward)
    ensures Shape(Rotate(v, node, child, leftward), if root == node then child else root)
    ensures KeySet(Rotate(v, node, child, leftward)) == KeySet(v)
  {
    var v2 := Rotate(v, node, child, leftward);
    var root2 := if root == node then child else root;
    assert v2.Keys == v.Keys;
    assert Linked(v, root, node) && Linked(v, root, child) && Linked(v, root, root);
    forall n | n in v2
      ensures Linked(v2, root2, n)
    {
      RotatedAbovePivots(v, root, node, child, leftward);
      if n == node {
        RotatedBelowNode(v, root, node, child, leftward);
      } else if n == child {
        RotatedBelowChild(v, root, node, child, leftward);
      } else {
        RotatedBelowOther(v, root, node, child, leftward, n);
        RotatedAboveOther(v, root, node, child, leftward, n);
      }
    }
    forall m, n | m in v2 && n in v2
      ensures Paired(v2, m, n)
    {
      RotatedPairs(v, root, node, child, leftward, m, n);
    }
  }

  // ------------------------------------------------------------------ a new leaf

  function NewLeaf(p: Node?, span: Span): Fields {
    Fields(p, null, null, true, 0, span)
  }

  /** `x` becomes the missing left or right child of `p`. */
  function Attach(v: View, p: Node, x: Node, left: bool): View
    requires p in v && x !in v
  {
    var f := v[p];
    var span := if left then Span(f.span.lo, x.key, f.span.key) else Span(f.span.key, x.key, f.span.hi);
    v[p := if left then f.(left := x) else f.(right := x)][x := NewLeaf(p, span)]
  }

  predicate CanAttach(v: View, p: Node, x: Node, left: bool) {
    && p in v && x !in v
    && (if left then v[p].left == null && v[p].span.lo < x.key < v[p].span.key
        else v[p].right == null && v[p].span.key < x.key < v[p].span.hi)
  }

  lemma AttachedPairs(v: View, root: Node?, p: Node, x: Node, left: bool, n: Node)
    requires Shape(v, root) && CanAttach(v, p, x, left) && n in v
    ensures Paired(Attach(v, p, x, left), x, n) && Paired(Attach(v, p, x, left), n, x)
  {
    var v2 := Attach(v, p, x, left);
    assert Linked(v, root, p) && Linked(v, root, n);
    if n != p {
      assert Paired(v, n, p) && Paired(v, p, n);
      LeafPair(v2[x].span, v[p].span, v[n].span, left, v[p].left != null, v[p].right != null, v[n].left != null,
        v[n].right != null);
    }
  }

  lemma AttachedLinks(v: View, root: Node?, p: Node, x: Node, left: bool, n: Node)
    requires CanAttach(v, p, x, left) && Linked(v, root, p) && n in v && Linked(v, root, n)
    ensures Linked(Attach(v, p, x, left), root, n)
  {
  }

  lemma AttachKeepsShape(v: View, root: Node?, p: Node, x: Node, left: bool)
    requires Shape(v, root) && CanAttach(v, p, x, left)
    ensures Shape(Attach(v, p, x, left), root) && KeySet(Attach(v, p, x, left)) == KeySet(v) + {x.key}
  {
    var v2 := Attach(v, p, x, left);
    assert Linked(v, root, p);
    forall n | n in v2
      ensures Linked(v2, root, n)
    {
      if n != x { AttachedLinks(v, root, p, x, left, n); }
    }
    forall m, n | m in v2 && n in v2
      ensures Paired(v2, m, n)
    {
      if m == x && n != x {
        AttachedPairs(v, root, p, x, left, n);
      } else if n == x && m != x {
        AttachedPairs(v, root, p, x, left, m);
      } else if m != x {
        assert Paired(v, m, n);
      }
    }
    AttachedKeys(v, p, x, left);
  }

  lemma AttachedKeys(v: View, p: Node, x: Node, left: bool)
    requires CanAttach(v, p, x, left)
    ensures KeySet(Attach(v, p, x, left)) == KeySet(v) + {x.key}
  {
    var v2 := Attach(v, p, x, left);
    assert v2[x].span.key == x.key;
    forall n | n in v
      ensures v2[n].span.key == v[n].span.key && n in v2
    {
    }
  }

  lemma AttachedNode(v: View, p: Node, x: Node, left: bool, n: Node)
    requires CanAttach(v, p, x, left) && n in v && Below(v, n) && Coloured(v, n, null)
    ensures Coloured(Attach(v, p, x, left), n, x)
  {
  }

  lemma AttachKeepsColours(v: View, root: Node?, p: Node, x: Node, left: bool)
    requires Shape(v, root) && Colours(v, root, null) && CanAttach(v, p, x, left)
    ensures Colours(Attach(v, p, x, left), root, x)
  {
    var v2 := Attach(v, p, x, left);
    ShapeIsBelow(v, root);
    forall n | n in v
      ensures Coloured(v2, n, x)
    {
      assert Below(v, n) && Coloured(v, n, null);
      AttachedNode(v, p, x, left, n);
    }
  }

  // ------------------------------------------------------------------ restoring the colours

  /** Only colours and black heights differ. */
  ghost predicate SameLinks(v: View, w: View) {
    v.Keys == w.Keys && forall n :: n in v ==> w[n] == v[n].(red := w[n].red, blacks := w[n].blacks)
  }

  lemma SameLinksKeepShape(v: View, w: View, root: Node?)
    requires Shape(v, root) && SameLinks(v, w)
    ensures Shape(w, root) && KeySet(w) == KeySet(v)
  {
    forall n | n in w
      ensures Linked(w, root, n)
    {
      assert Linked(v, root, n);
    }
    forall m, n | m in w && n in w
      ensures Paired(w, m, n)
    {
      assert Paired(v, m, n);
    }
  }

  /** `n` gets a colour, and its black height moves by `delta`. */
  function Paint(v: View, n: Node, red: bool, delta: int): View
    requires n in v
  {
    v[n := v[n].(red := red, blacks := v[n].blacks + delta)]
  }

  /** The red-uncle case of the fix-up: parent and uncle turn black, the grandparent red. */
  function Recolour(v: View, p: Node, u: Node, g: Node): View
    requires p in v && u in v && g in v
  {
    Paint(Paint(Paint(v, p, false, 1), u, false, 1), g, true, 0)
  }

  /** `z` is red below the red `p`, whose parent is `g`; `left` tells on which side of `g`. */
  ghost predicate RedRed(v: View, root: Node?, z: Node, p: Node, g: Node, left: bool) {
    && Shape(v, root) && Colours(v, root, z)
    && z in v && p in v && g in v && v[z].red && v[p].red
    && v[z].parent == p && v[p].parent == g && p == (if left then v[g].left else v[g].right)
  }

  /** The grandparent of a violation exists and is black, and the three nodes are different. */
  lemma ViolationFacts(v: View, root: Node?, z: Node, p: Node, g: Node, left: bool)
    requires RedRed(v, root, z, p, g, left)
    ensures z != p && p != g && z != g && !v[g].red && root != z && root != p
  {
    assert Linked(v, root, z) && Linked(v, root, p) && Linked(v, root, g);
    assert Coloured(v, g, z);
  }

  lemma RecolouredNode(v: View, z: Node, p: Node, g: Node, u: Node, n: Node)
    requires p in v && g in v && u in v && n in v && p != u && p != g && u != g && z in v && v[z].parent == p
    requires v[p].red && v[u].red && !v[g].red && v[p].parent == g && v[u].parent == g
    requires (v[g].left == p && v[g].right == u) || (v[g].left == u && v[g].right == p)
    requires Below(v, n) && Coloured(v, n, z)
    ensures Coloured(Recolour(v, p, u, g), n, g)
  {
  }

  lemma RecolourKeepsShape(v: View, root: Node?, p: Node, u: Node, g: Node)
    requires Shape(v, root) && p in v && u in v && g in v
    ensures Shape(Recolour(v, p, u, g), root) && KeySet(Recolour(v, p, u, g)) == KeySet(v)
  {
    assert SameLinks(v, Recolour(v, p, u, g));
    SameLinksKeepShape(v, Recolour(v, p, u, g), root);
  }

  ghost predicate AllBelow(v: View) {
    forall n :: n in v ==> Below(v, n)
  }

  lemma ShapeIsBelow(v: View, root: Node?)
    requires Shape(v, root)
    ensures AllBelow(v)
  {
    forall n | n in v
      ensures Below(v, n)
    {
      assert Linked(v, root, n);
    }
  }

  lemma RecolouredColours(v: View, root: Node?, z: Node, p: Node, g: Node, u: Node)
    requires p in v && g in v && u in v && p != u && p != g && u != g && z in v && v[z].parent == p
    requires v[p].red && v[u].red && !v[g].red && v[p].parent == g && v[u].parent == g
    requires (v[g].left == p && v[g].right == u) || (v[g].left == u && v[g].right == p)
    requires AllBelow(v) && Colours(v, root, z) && root != z
    ensures Colours(Recolour(v, p, u, g), root, g)
  {
    forall n | n in v
      ensures Coloured(Recolour(v, p, u, g), n, g)
    {
      assert Below(v, n) && Coloured(v, n, z);
      RecolouredNode(v, z, p, g, u, n);
    }
  }

  /** The red-uncle case: the violation moves up to the grandparent. */
  lemma RecolourStep(v: View, root: Node?, z: Node, p: Node, g: Node, left: bool, u: Node)
    requires RedRed(v, root, z, p, g, left)
    requires u == (if left then v[g].right else v[g].left) && u in v && v[u].red
    ensures Colours(Recolour(v, p, u, g), root, g)
  {
    ViolationFacts(v, root, z, p, g, left);
    assert Linked(v, root, g) && Linked(v, root, p) && Linked(v, root, u);
    ShapeIsBelow(v, root);
    RecolouredColours(v, root, z, p, g, u);
  }

  lemma ZigZagNode(v: View, z: Node, p: Node, leftward: bool, n: Node)
    requires CanRotate(v, p, z, leftward) && p != z && v[p].red && v[z].red && v[z].parent == p && n in v
    requires Below(v, n) && Below(v, p) && Below(v, z)
    requires Coloured(v, n, z) && Coloured(v, p, z) && Coloured(v, z, z)
    ensures Coloured(Rotate(v, p, z, leftward), n, p)
  {
  }

  /** The inner-grandchild case: one rotation turns it into the outer one, with the roles of the
      violating node and its parent exchanged. */
  lemma ZigZagStep(v: View, root: Node?, z: Node, p: Node, g: Node, left: bool)
    requires RedRed(v, root, z, p, g, left) && z == (if left then v[p].right else v[p].left)
    ensures CanRotate(v, p, z, left) && RedRed(Rotate(v, p, z, left), root, p, z, g, left)
    ensures var w := Rotate(v, p, z, left);
            KeySet(w) == KeySet(v) && p == (if left then w[z].left else w[z].right)
            && (if left then w[g].right == v[g].right else w[g].left == v[g].left)
  {
    var w := Rotate(v, p, z, left);
    ViolationFacts(v, root, z, p, g, left);
    RotationKeepsShape(v, root, p, z, left);
    assert Linked(v, root, p) && Linked(v, root, z) && Linked(v, root, g);
    ShapeIsBelow(v, root);
    forall n | n in w
      ensures Coloured(w, n, p)
    {
      assert Below(v, n) && Coloured(v, n, z) && Coloured(v, p, z) && Coloured(v, z, z);
      ZigZagNode(v, z, p, left, n);
    }
  }

  function Repaint(v: View, p: Node, g: Node): View
    requires p in v && g in v
  {
    Paint(Paint(v, p, false, 1), g, true, -1)
  }

  lemma FinishNode(v: View, z: Node, p: Node, g: Node, left: bool, n: Node)
    requires z in v && p in v && g in v && n in v && z != p && p != g && z != g
    requires v[z].red && v[p].red && !v[g].red && v[z].parent == p && v[p].parent == g
    requires p == (if left then v[g].left else v[g].right) && z == (if left then v[p].left else v[p].right)
    requires !Red(v, if left then v[g].right else v[g].left)
    requires Below(v, n) && Below(v, p) && Below(v, g) && Below(v, z)
    requires Coloured(v, n, z) && Coloured(v, p, z) && Coloured(v, g, z)
    ensures Coloured(Rotate(Repaint(v, p, g), g, p, !left), n, null)
  {
    if n != p && n != g {
      FinishOther(v, z, p, g, left, n);
    }
  }

  lemma FinishOther(v: View, z: Node, p: Node, g: Node, left: bool, n: Node)
    requires z in v && p in v && g in v && n in v && z != p && p != g && z != g && n != p && n != g
    requires v[z].red && v[p].red && !v[g].red && v[z].parent == p && v[p].parent == g
    requires p == (if left then v[g].left else v[g].right) && z == (if left then v[p].left else v[p].right)
    requires !Red(v, if left then v[g].right else v[g].left)
    requires Below(v, n) && Below(v, p) && Below(v, g) && Below(v, z)
    requires Coloured(v, n, z) && Coloured(v, p, z) && Coloured(v, g, z)
    ensures Coloured(Rotate(Repaint(v, p, g), g, p, !left), n, null)
  {
  }

  /** The outer-grandchild case: repaint parent and grandparent, rotate, and no violation is left. */
  lemma FinishStep(v: View, root: Node?, z: Node, p: Node, g: Node, left: bool)
    requires RedRed(v, root, z, p, g, left) && z == (if left then v[p].left else v[p].right)
    requires !Red(v, if left then v[g].right else v[g].left)
    ensures var w := Rotate(Repaint(v, p, g), g, p, !left);
            var root2 := if root == g then p else root;
            Shape(w, root2) && Colours(w, root2, null) && KeySet(w) == KeySet(v)
  {
    var w := Rotate(Repaint(v, p, g), g, p, !left);
    var root2 := if root == g then p else root;
    ViolationFacts(v, root, z, p, g, left);
    FinishShape(v, root, p, g, left);
    assert Linked(v, root, p) && Linked(v, root, z) && Linked(v, root, g);
    ShapeIsBelow(v, root);
    forall n | n in w
      ensures Coloured(w, n, null)
    {
      assert Below(v, n) && Coloured(v, n, z) && Coloured(v, p, z) && Coloured(v, g, z);
      FinishNode(v, z, p, g, left, n);
    }
  }

  lemma FinishReady(v: View, root: Node?, p: Node, g: Node, left: bool)
    requires Shape(v, root) && p in v && g in v && p != g && p == (if left then v[g].left else v[g].right)
    ensures RotationReady(Repaint(v, p, g), root, g, p, !left)
  {
    assert SameLinks(v, Repaint(v, p, g));
    SameLinksKeepShape(v, Repaint(v, p, g), root);
    ShapeAllowsRotation(Repaint(v, p, g), root, g, p, !left);
  }

  lemma FinishShape(v: View, root: Node?, p: Node, g: Node, left: bool)
    requires Shape(v, root) && p in v && g in v && p != g && p == (if left then v[g].left else v[g].right)
    ensures var w := Rotate(Repaint(v, p, g), g, p, !left);
            Shape(w, if root == g then p else root) && KeySet(w) == KeySet(v)
  {
    assert SameLinks(v, Repaint(v, p, g));
    SameLinksKeepShape(v, Repaint(v, p, g), root);
    RotationKeepsShape(Repaint(v, p, g), root, g, p, !left);
  }

  /** The view after the last statement of the fix-up paints the root black. */
  function BlackRoot(v: View, root: Node): View
    requires root in v
  {
    Paint(v, root, false, if v[root].red then 1 else 0)
  }

  lemma BlackenRoot(v: View, root: Node, z: Node)
    requires Shape(v, root) && Colours(v, root, z) && z in v
    requires z == root || !Red(v, v[z].parent)
    ensures Shape(BlackRoot(v, root), root) && Colours(BlackRoot(v, root), root, null)
    ensures KeySet(BlackRoot(v, root)) == KeySet(v)
  {
    var w := BlackRoot(v, root);
    assert SameLinks(v, w);
    SameLinksKeepShape(v, w, root);
    forall n | n in w
      ensures Coloured(w, n, null)
    {
      BlackenedNode(v, root, z, n);
    }
  }

  lemma BlackenedNode(v: View, root: Node, z: Node, n: Node)
    requires Shape(v, root) && Colours(v, root, z) && z in v && n in v && root in v
    requires z == root || !Red(v, v[z].parent)
    ensures Coloured(BlackRoot(v, root), n, null)
  {
    assert Linked(v, root, n) && Linked(v, root, z) && Coloured(v, n, z);
    if v[n].left != null { assert Linked(v, root, v[n].left); }
    if v[n].right != null { assert Linked(v, root, v[n].right); }
  }

  // ------------------------------------------------------------------ the tree as a value

  /** The tree value below `n`. */
  ghost function TreeOf(v: View, n: Node?): Tree
    requires AllBelow(v) && (n != null ==> n in v)
    decreases if n != null then v[n].span.hi - v[n].span.lo else 0
  {
    if n == null then Leaf
    else
      assert Below(v, n);
      var f := v[n];
      assert f.left != null ==> Below(v, f.left);
      assert f.right != null ==> Below(v, f.right);
      Fork(TreeOf(v, f.left), f.span.key, f.red, TreeOf(v, f.right))
  }

  /** Every node whose key falls into the interval of `n` is below `n`. */
  lemma {:induction false} TreeHasKey(v: View, root: Node?, n: Node, m: Node)
    requires Shape(v, root) && AllBelow(v) && n in v && m in v && v[n].span.lo < v[m].span.key < v[n].span.hi
    ensures v[m].span.key in Keys(TreeOf(v, n))
    decreases v[n].span.hi - v[n].span.lo
  {
    assert Below(v, n) && Paired(v, m, n);
    if m != n {
      var c := if v[m].span.key < v[n].span.key then v[n].left else v[n].right;
      assert c != null && Below(v, c);
      TreeHasKey(v, root, c, m);
    }
  }

  lemma {:induction false} TreeKeysAreNodes(v: View, n: Node?)
    requires AllBelow(v) && (n != null ==> n in v)
    ensures forall k :: k in Keys(TreeOf(v, n)) ==> k in KeySet(v)
    decreases if n != null then v[n].span.hi - v[n].span.lo else 0
  {
    if n != null {
      assert Below(v, n);
      if v[n].left != null { assert Below(v, v[n].left); }
      if v[n].right != null { assert Below(v, v[n].right); }
      TreeKeysAreNodes(v, v[n].left);
      TreeKeysAreNodes(v, v[n].right);
    }
  }

  lemma {:induction false} TreeIsOrdered(v: View, n: Node?, low: int, high: int)
    requires AllBelow(v) && (n != null ==> n in v && v[n].span.lo == low && v[n].span.hi == high)
    ensures Ordered(TreeOf(v, n), low, high)
    decreases if n != null then v[n].span.hi - v[n].span.lo else 0
  {
    if n != null {
      assert Below(v, n);
      if v[n].left != null { assert Below(v, v[n].left); }
      if v[n].right != null { assert Below(v, v[n].right); }
      TreeIsOrdered(v, v[n].left, low, v[n].span.key);
      TreeIsOrdered(v, v[n].right, v[n].span.key, high);
    }
  }

  lemma {:induction false} TreeIsColoured(v: View, root: Node?, n: Node?)
    requires AllBelow(v) && Colours(v, root, null) && (n != null ==> n in v)
    ensures NoRedRed(TreeOf(v, n)) && BlackHeight(TreeOf(v, n), Blacks(v, n)) && Blacks(v, n) >= 0
    decreases if n != null then v[n].span.hi - v[n].span.lo else 0
  {
    if n != null {
      assert Below(v, n) && Coloured(v, n, null);
      if v[n].left != null { assert Below(v, v[n].left); }
      if v[n].right != null { assert Below(v, v[n].right); }
      TreeIsColoured(v, root, v[n].left);
      TreeIsColoured(v, root, v[n].right);
    }
  }

  lemma TreeHasAllKeys(v: View, root: Node?)
    requires Shape(v, root) && AllBelow(v)
    ensures root != null ==> root in v
    ensures forall k :: k in KeySet(v) ==> k in Keys(TreeOf(v, root))
  {
    forall m | m in v
      ensures v[m].span.key in Keys(TreeOf(v, root))
    {
      assert Below(v, m) && root != null;
      TreeHasKey(v, root, root, m);
    }
  }

  lemma SameKeys(v: View, root: Node?)
    requires Shape(v, root) && AllBelow(v) && (root != null ==> root in v)
    ensures Keys(TreeOf(v, root)) == KeySet(v)
  {
    TreeHasAllKeys(v, root);
    TreeKeysAreNodes(v, root);
    SameElements(Keys(TreeOf(v, root)), KeySet(v));
  }

  lemma ValueIsRedBlack(v: View, root: Node?)
    requires AllBelow(v) && Colours(v, root, null)
    requires root != null ==> root in v && v[root].span.lo == LOW && v[root].span.hi == HIGH
    ensures IsRedBlack(TreeOf(v, root), LOW, HIGH)
  {
    TreeIsOrdered(v, root, LOW, HIGH);
    TreeIsColoured(v, root, root);
    var n: nat := Blacks(v, root);
    assert BlackHeight(TreeOf(v, root), n);
  }

  /** The flat invariant is the textbook one: the tree below the root is a red-black tree that holds
      exactly the keys of the nodes, and its height is logarithmic in their number. */
  lemma TreeIsRedBlack(v: View, root: Node?)
    requires Shape(v, root) && Colours(v, root, null)
    ensures AllBelow(v) && IsRedBlack(TreeOf(v, root), LOW, HIGH) && Keys(TreeOf(v, root)) == KeySet(v)
    ensures Pow2(Height(TreeOf(v, root))) <= (|KeySet(v)| + 1) * (|KeySet(v)| + 1)
  {
    ShapeIsBelow(v, root);
    ValueIsRedBlack(v, root);
    SameKeys(v, root);
    LogarithmicInKeys(TreeOf(v, root));
  }

  lemma LogarithmicInKeys(t: Tree)
    requires IsRedBlack(t, LOW, HIGH)
    ensures Pow2(Height(t)) <= (|Keys(t)| + 1) * (|Keys(t)| + 1)
  {
    HeightIsLogarithmic(t, LOW, HIGH);
    SizeIsKeyCount(t, LOW, HIGH);
  }

  /** Narrowing the bounds of an ordered tree keeps it ordered exactly when its keys fit. */
  lemma {:induction false} OrderedWithin(t: Tree, low: int, high: int, a: int, b: int)
    requires Ordered(t, low, high) && low <= a && b <= high
    ensures Ordered(t, a, b) <==> forall k :: k in Keys(t) ==> a < k < b
  {
    if t.Fork? {
      KeysInBounds(t, low, high);
      KeysInBounds(t.left, low, t.key);
      KeysInBounds(t.right, t.key, high);
      assert t.key in Keys(t);
      if Ordered(t, a, b) { KeysInBounds(t, a, b); }
      if a < t.key < b {
        OrderedWithin(t.left, low, t.key, a, t.key);
        OrderedWithin(t.right, t.key, high, t.key, b);
        assert forall k :: k in Keys(t) ==> k in Keys(t.left) || k == t.key || k in Keys(t.right);
        assert forall k :: k in Keys(t.left) || k in Keys(t.right) ==> k in Keys(t);
      }
    }
  }

  /** The check of a red-black tree between the int limits fails exactly on the two extreme keys. */
  lemma CheckOfRedBlack(t: Tree)
    requires IsRedBlack(t, LOW, HIGH)
    ensures Check(t, INT_MIN, INT_MAX, 0, -1).0 <==> INT_MIN !in Keys(t) && INT_MAX !in Keys(t)
  {
    CheckAccepts(t, INT_MIN, INT_MAX, 0, -1);
    OrderedWithin(t, LOW, HIGH, INT_MIN, INT_MAX);
    KeysInBounds(t, LOW, HIGH);
  }

  // ------------------------------------------------------------------ the tree

  /** The check of a node, as its code goes through it. */
  lemma CheckOfFork(left: Tree, key: int, red: bool, right: Tree, low: int, high: int, blacks: int, expected: int)
    ensures var first := Check(left, low, key, if red then blacks else blacks + 1, expected);
            Check(Fork(left, key, red, right), low, high, blacks, expected) ==
              if key <= low || key >= high || (red && (IsRed(left) || IsRed(right))) then (false, expected)
              else if first.0 then Check(right, key, high, if red then blacks else blacks + 1, first.1)
              else first
  {
  }

  class RedBlackTree {
    var root: Node?
    ghost var nodes: set<Node>

    ghost function Heap(): View
      reads this, nodes
    {
      map n | n in nodes :: n.Read()
    }

    ghost predicate Valid()
      reads this, nodes
    {
      Shape(Heap(), root) && Colours(Heap(), root, null)
    }

    constructor ()
      ensures Valid() && KeySet(Heap()) == {} && nodes == {}
    {
      root := null;
      nodes := {};
    }

    static method ColorIsRed(node: Node?) returns (red: bool)
      ensures red <==> node != null && node.red
    {
      red := node != null && node.red;
    }

    method Contains(key: Int32) returns (found: bool)
      requires Valid()
      ensures found <==> key in KeySet(Heap())
    {
      ghost var v := Heap();
      var current := root;
      while current != null
        invariant current != null ==> current in nodes && v[current].span.lo < key < v[current].span.hi
        invariant current == null ==> key !in KeySet(v)
        decreases if current == null then 0 else v[current].span.hi - v[current].span.lo
      {
        assert Linked(v, root, current);
        if key == current.key {
          assert v[current].span.key == key;
          return true;
        }
        if (if key < current.key then current.left else current.right) == null { NotFound(v, root, current, key); }
        current := if key < current.key then current.left else current.right;
      }
      found := false;
    }

    lemma HeapIs(w: View)
      requires w.Keys == nodes && forall n :: n in nodes ==> n.Read() == w[n]
      ensures Heap() == w
    {
    }

    /** The two nodes of a rotation and the grandchild that changes parents are different. */
    ghost predicate TakesInner(node: Node, child: Node, inner: Node?)
      reads this
    {
      node in nodes && child in nodes && node != child && inner != node && inner != child
        && (inner != null ==> inner in nodes)
    }

    lemma PartsApart(v: View, r: Node?, node: Node, child: Node, leftward: bool)
      requires v.Keys == nodes && RotationReady(v, r, node, child, leftward)
      ensures TakesInner(node, child, if leftward then v[child].left else v[child].right)
    {
    }

    /** The inner grandchild becomes a child of `node`. */
    method AdoptLeftward(node: Node, child: Node)
      requires child == node.right && TakesInner(node, child, child.left)
      modifies node`right, nodes`parent
      ensures Heap() == Adopted(old(Heap()), node, child, true)
    {
      node.right := child.left;
      if child.left != null { child.left.parent := node; }
      HeapIs(Adopted(old(Heap()), node, child, true));
    }

    method AdoptRightward(node: Node, child: Node)
      requires child == node.left && TakesInner(node, child, child.right)
      modifies node`left, nodes`parent
      ensures Heap() == Adopted(old(Heap()), node, child, false)
    {
      node.left := child.right;
      if child.right != null { child.right.parent := node; }
      HeapIs(Adopted(old(Heap()), node, child, false));
    }

    /** `child` takes the place of `node` below the parent of `node`. */
    method TakePlace(node: Node, child: Node)
      requires child in nodes && OnlyParent(Heap(), root, node, child)
      modifies this`root, nodes`left, nodes`right, child`parent
      ensures Heap() == Replaced(old(Heap()), node, child)
      ensures root == if old(root) == node then child else old(root)
    {
      ghost var v := Heap();
      var p := node.parent;
      child.parent := p;
      if p == null {
        root := child;
      } else if node == p.left {
        p.left := child;
      } else {
        p.right := child;
      }
      HeapIs(Replaced(v, node, child));
    }

    /** `node` becomes a child of `child`, and the intervals change accordingly. */
    method Reverse(node: Node, child: Node, leftward: bool)
      requires node in nodes && child in nodes && node != child
      modifies node, child
      ensures Heap() == Reversed(old(Heap()), node, child, leftward)
    {
      if leftward { child.left := node; } else { child.right := node; }
      node.parent := child;
      child.lo, child.hi := node.lo, node.hi;
      if leftward { node.hi := child.key; } else { node.lo := child.key; }
      HeapIs(Reversed(old(Heap()), node, child, leftward));
    }

    method RotateLeft(node: Node)
      requires node.right != null && RotationReady(Heap(), root, node, node.right, true)
      modifies this`root, nodes
      ensures old(node.right) in nodes && Heap() == Rotate(old(Heap()), node, old(node.right), true)
      ensures root == if old(root) == node then old(node.right) else old(root)
    {
      var child := node.right;
      ghost var v := Heap();
      RotationParts(v, root, node, child, true);
      PartsApart(v, root, node, child, true);
      AdoptLeftward(node, child);
      TakePlace(node, child);
      Reverse(node, child, true);
      assert Heap() == Reversed(Replaced(Adopted(v, node, child, true), node, child), node, child, true);
    }

    method RotateRight(node: Node)
      requires node.left != null && RotationReady(Heap(), root, node, node.left, false)
      modifies this`root, nodes
      ensures old(node.left) in nodes && Heap() == Rotate(old(Heap()), node, old(node.left), false)
      ensures root == if old(root) == node then old(node.left) else old(root)
    {
      var child := node.left;
      ghost var v := Heap();
      RotationParts(v, root, node, child, false);
      PartsApart(v, root, node, child, false);
      AdoptRightward(node, child);
      TakePlace(node, child);
      Reverse(node, child, false);
      assert Heap() == Reversed(Replaced(Adopted(v, node, child, false), node, child), node, child, false);
    }

    // ---------------------------------------------------------------- insertion

    /** Adds the key unless it is there already. */
    method Insert(key: Int32)
      requires Valid()
      modifies this, nodes
      ensures Valid() && fresh(nodes - old(nodes))
      ensures KeySet(Heap()) == old(KeySet(Heap())) + {key as int}
      ensures key in old(KeySet(Heap())) ==> Heap() == old(Heap()) && root == old(root)
    {
      ghost var v := Heap();
      var found, parent := Descend(key);
      assert Heap() == v;
      if found { return; }
      var node := Link(parent, key);
      ghost var _ := FixAfterInsert(node);
    }

    /** The descent of `Insert`: stops at the key, or below the node that lacks the child in question. */
    method Descend(key: Int32) returns (found: bool, parent: Node?)
      requires Valid()
      ensures found <==> key in KeySet(Heap())
      ensures !found ==> FreeSlot(parent, key)
    {
      ghost var v := Heap();
      parent := null;
      var current := root;
      while current != null
        invariant parent == null ==> current == root
        invariant current != null ==> current in nodes && v[current].span.lo < key < v[current].span.hi
        invariant current == null ==> FreeSlot(parent, key) && key !in KeySet(v)
        decreases if current == null then 0 else v[current].span.hi - v[current].span.lo
      {
        assert Linked(v, root, current);
        parent := current;
        if key == current.key {
          assert v[current].span.key == key;
          return true, parent;
        }
        if (if key < current.key then current.left else current.right) == null { NotFound(v, root, current, key); }
        current := if key < current.key then current.left else current.right;
      }
      found := false;
    }

    method PlaceRoot(node: Node)
      requires nodes == {} && node.Read() == NewLeaf(null, node.Read().span) && root == null
      modifies this, node`lo, node`hi
      ensures nodes == {node} && root == node
      ensures Heap() == map[node := NewLeaf(null, Span(LOW, node.key, HIGH))]
    {
      node.lo, node.hi := LOW, HIGH;
      root := node;
      nodes := {node};
    }

    /** The new node goes into the empty slot of `parent` on its side. */
    method PlaceBelow(parent: Node, node: Node)
      requires parent in nodes && node !in nodes && node.Read() == NewLeaf(parent, node.Read().span)
      modifies this`nodes, node`lo, node`hi, parent`left, parent`right
      ensures nodes == old(nodes) + {node}
      ensures Heap() == Attach(old(Heap()), parent, node, node.key < old(parent.Read().span.key))
    {
      nodes := nodes + {node};
      if node.key < parent.key {
        node.lo, node.hi := parent.lo, parent.key;
        parent.left := node;
      } else {
        node.lo, node.hi := parent.key, parent.hi;
        parent.right := node;
      }
      HeapIs(Attach(old(Heap()), parent, node, node.key < parent.key));
    }

    /** Hangs a new red leaf below `parent`, or makes it the root. */
    method Link(parent: Node?, key: Int32) returns (node: Node)
      requires Valid() && FreeSlot(parent, key)
      modifies this, nodes
      ensures node in nodes && node.red && Shape(Heap(), root) && Colours(Heap(), root, node)
      ensures fresh(nodes - old(nodes)) && KeySet(Heap()) == old(KeySet(Heap())) + {key as int}
    {
      node := new Node(key);
      node.parent := parent;
      if parent == null {
        LinkRoot(node);
      } else {
        LinkBelow(parent, node);
      }
    }

    /** `key` belongs into an empty slot below `parent`, or into the empty tree. */
    ghost predicate FreeSlot(parent: Node?, key: int)
      reads this, nodes
    {
      if parent == null then root == null
      else parent in nodes && parent.lo < key < parent.hi && key != parent.key
           && (if key < parent.key then parent.left else parent.right) == null
    }

    method LinkRoot(node: Node)
      requires Valid() && root == null && node.Read() == NewLeaf(null, node.Read().span)
      modifies this, node`lo, node`hi
      ensures node in nodes && node.red && Shape(Heap(), root) && Colours(Heap(), root, node)
      ensures nodes == old(nodes) + {node} && KeySet(Heap()) == old(KeySet(Heap())) + {node.key as int}
    {
      EmptyHeap();
      PlaceRoot(node);
      SingleLeaf(Heap(), node);
    }

    method LinkBelow(parent: Node, node: Node)
      requires Valid() && FreeSlot(parent, node.key) && node !in nodes
        && node.Read() == NewLeaf(parent, node.Read().span)
      modifies this`nodes, node`lo, node`hi, parent`left, parent`right
      ensures node in nodes && node.red && Shape(Heap(), root) && Colours(Heap(), root, node)
      ensures nodes == old(nodes) + {node} && KeySet(Heap()) == old(KeySet(Heap())) + {node.key as int}
    {
      HeapKeys();
      LinkFacts(Heap(), root, parent, node, node.key < parent.key);
      PlaceBelow(parent, node);
    }

    lemma EmptyHeap()
      requires Valid() && root == null
      ensures nodes == {} && Heap() == map[] && KeySet(Heap()) == {}
    {
      assert nodes == Heap().Keys;
    }

    lemma HeapKeys()
      ensures Heap().Keys == nodes
    {
    }

    lemma SingleLeaf(v: View, x: Node)
      requires v == map[x := NewLeaf(null, Span(LOW, x.key, HIGH))]
      ensures Shape(v, x) && Colours(v, x, x) && KeySet(v) == {x.key as int}
    {
      assert x in v && v[x].span.key == x.key;
      assert forall n :: n in v ==> n == x;
    }

    lemma LinkFacts(v: View, r: Node?, p: Node, x: Node, left: bool)
      requires Shape(v, r) && Colours(v, r, null) && CanAttach(v, p, x, left)
      ensures Shape(Attach(v, p, x, left), r) && Colours(Attach(v, p, x, left), r, x)
      ensures KeySet(Attach(v, p, x, left)) == KeySet(v) + {x.key as int} && x.key !in KeySet(v)
    {
      AttachKeepsShape(v, r, p, x, left);
      AttachKeepsColours(v, r, p, x, left);
      NotFound(v, r, p, x.key);
    }

    method SetColor(n: Node, red: bool, ghost delta: int)
      requires n in nodes
      modifies n`red, n`blacks
      ensures Heap() == Paint(old(Heap()), n, red, delta)
    {
      n.red := red;
      n.blacks := n.blacks + delta;
      HeapIs(Paint(old(Heap()), n, red, delta));
    }

    /** A red node whose parent is red has a grandparent, on one of whose sides the parent hangs. */
    lemma FindViolation(v: View, r: Node?, z: Node)
      requires Shape(v, r) && Colours(v, r, z) && z in v && v[z].red && z != r && Red(v, v[z].parent)
      ensures var p := v[z].parent;
              p != null && p in v && var g := v[p].parent;
              g != null && g in v && RedRed(v, r, z, p, g, p == v[g].left)
              && (z == v[p].left || z == v[p].right) && (z == v[p].left ==> z != v[p].right)
      ensures var p := v[z].parent;
              var g := v[p].parent;
              v[g].span.hi - v[g].span.lo > v[z].span.hi - v[z].span.lo
    {
      assert Linked(v, r, z);
      var p := v[z].parent;
      assert Linked(v, r, p);
      var g := v[p].parent;
      assert Linked(v, r, g);
    }

    /** The cases with a black uncle: at most two rotations, after which nothing is violated. */
    method RotateOut(z: Node, ghost left: bool) returns (node: Node, ghost rotations: nat)
      requires z in nodes && z.parent in nodes && z.parent.parent in nodes
      requires RedRed(Heap(), root, z, z.parent, z.parent.parent, left) && left == (z.parent == z.parent.parent.left)
      requires z == z.parent.left || z == z.parent.right
      requires !Red(Heap(), if left then z.parent.parent.right else z.parent.parent.left)
      modifies this`root, nodes
      ensures Shape(Heap(), root) && Colours(Heap(), root, null) && KeySet(Heap()) == old(KeySet(Heap()))
      ensures node in nodes && node.red && 1 <= rotations <= 2
    {
      node := z;
      var parent := node.parent;
      var grandparent := parent.parent;
      rotations := 0;
      ghost var v := Heap();
      ViolationFacts(v, root, node, parent, grandparent, left);
      if parent == grandparent.left {
        if node == parent.right {
          ZigZagStep(v, root, node, parent, grandparent, true);
          ShapeAllowsRotation(v, root, parent, node, true);
          RotateLeft(parent);
          rotations := rotations + 1;
          node, parent := parent, node;
        }
        FinishLeft(node, parent, grandparent);
      } else {
        if node == parent.left {
          ZigZagStep(v, root, node, parent, grandparent, false);
          ShapeAllowsRotation(v, root, parent, node, false);
          RotateRight(parent);
          rotations := rotations + 1;
          node, parent := parent, node;
        }
        FinishRight(node, parent, grandparent);
      }
      rotations := rotations + 1;
    }

    lemma FinishFacts(v: View, r: Node?, z: Node, p: Node, g: Node, left: bool)
      requires RedRed(v, r, z, p, g, left) && z == (if left then v[p].left else v[p].right)
      requires !Red(v, if left then v[g].right else v[g].left)
      ensures p != g && RotationReady(Repaint(v, p, g), r, g, p, !left)
      ensures var w := Rotate(Repaint(v, p, g), g, p, !left);
              var r2 := if r == g then p else r;
              z in w && w[z].red && Shape(w, r2) && Colours(w, r2, null) && KeySet(w) == KeySet(v)
    {
      ViolationFacts(v, r, z, p, g, left);
      FinishStep(v, r, z, p, g, left);
      FinishReady(v, r, p, g, left);
    }

    method RepaintBoth(p: Node, g: Node)
      requires p in nodes && g in nodes && p != g
      modifies p`red, p`blacks, g`red, g`blacks
      ensures Heap() == Repaint(old(Heap()), p, g)
    {
      SetColor(p, false, 1);
      SetColor(g, true, -1);
    }

    method FinishLeft(node: Node, parent: Node, grandparent: Node)
      requires node in nodes && parent in nodes && grandparent in nodes
      requires RedRed(Heap(), root, node, parent, grandparent, true) && node == parent.left
        && !Red(Heap(), grandparent.right)
      modifies this`root, nodes
      ensures node.red
      ensures Shape(Heap(), root) && Colours(Heap(), root, null) && KeySet(Heap()) == old(KeySet(Heap()))
    {
      ghost var v, r := Heap(), root;
      FinishFacts(v, r, node, parent, grandparent, true);
      RepaintBoth(parent, grandparent);
      RotateRight(grandparent);
      assert Heap() == Rotate(Repaint(v, parent, grandparent), grandparent, parent, false)
        && root == if r == grandparent then parent else r;
    }

    method FinishRight(node: Node, parent: Node, grandparent: Node)
      requires node in nodes && parent in nodes && grandparent in nodes
      requires RedRed(Heap(), root, node, parent, grandparent, false) && node == parent.right
        && !Red(Heap(), grandparent.left)
      modifies this`root, nodes
      ensures node.red
      ensures Shape(Heap(), root) && Colours(Heap(), root, null) && KeySet(Heap()) == old(KeySet(Heap()))
    {
      ghost var v, r := Heap(), root;
      FinishFacts(v, r, node, parent, grandparent, false);
      RepaintBoth(parent, grandparent);
      RotateLeft(grandparent);
      assert Heap() == Rotate(Repaint(v, parent, grandparent), grandparent, parent, true)
        && root == if r == grandparent then parent else r;
    }

    /** The state between two turns of the fix-up loop. */
    ghost predicate Fixing(v: View, r: Node?, z: Node) {
      && r != null && r in v && z in v && v[z].red
      && Shape(v, r) && Colours(v, r, z)
      && (v[z].parent != null ==> v[z].parent in v)
    }

    /** Restores the red-black rules above a new red leaf; recolouring moves up the tree, and the first
        rotation case ends the loop. */
    method FixAfterInsert(z: Node) returns (ghost rotations: nat)
      requires z in nodes && z.red && Shape(Heap(), root) && Colours(Heap(), root, z)
      modifies this`root, nodes
      ensures Valid() && KeySet(Heap()) == old(KeySet(Heap()))
      ensures rotations <= 2
    {
      rotations := 0;
      var node := z;
      RootIsNotNull(Heap(), root, node);
      while node != root && node.parent != null && node.parent.red
        invariant node in nodes && root in nodes && Fixing(Heap(), root, node)
        invariant KeySet(Heap()) == old(KeySet(Heap()))
        invariant node != root && Red(Heap(), node.parent) ==> rotations == 0
        invariant rotations <= 2
        decreases Red(Heap(), node.parent), HIGH - LOW - (node.hi - node.lo)
      {
        node, rotations := FixTurn(node);
      }
      PaintRootBlack(node);
    }

    method PaintRootBlack(ghost z: Node)
      requires z in nodes && root in nodes && Shape(Heap(), root) && Colours(Heap(), root, z)
      requires z == root || !Red(Heap(), z.parent)
      modifies root`red, root`blacks
      ensures Shape(Heap(), root) && Colours(Heap(), root, null) && KeySet(Heap()) == old(KeySet(Heap()))
    {
      ghost var v := Heap();
      BlackenRoot(v, root, z);
      SetColor(root, false, if root.red then 1 else 0);
      assert Heap() == BlackRoot(v, root);
    }

    /** One turn of the fix-up loop. */
    method FixTurn(z: Node) returns (node: Node, ghost rotations: nat)
      requires z in nodes && Fixing(Heap(), root, z) && z != root && z.parent != null && z.parent.red
      modifies this`root, nodes
      ensures node in nodes && root in nodes && Fixing(Heap(), root, node) && KeySet(Heap()) == old(KeySet(Heap()))
      ensures rotations <= 2 && (rotations == 0 || !Red(Heap(), node.parent))
      ensures rotations == 0 ==> node.hi - node.lo > old(z.hi - z.lo)
    {
      var parent := z.parent;
      var grandparent := parent.parent;
      FindViolation(Heap(), root, z);
      ghost var left := parent == grandparent.left;
      var uncle := if parent == grandparent.left then grandparent.right else grandparent.left;
      if uncle != null && uncle.red {
        UncleInTree(Heap(), root, grandparent);
        MoveUp(z, parent, uncle, grandparent, left);
        node, rotations := grandparent, 0;
      } else {
        node, rotations := RotateOut(z, left);
        NothingViolated(Heap(), root, node);
      }
      RootIsNotNull(Heap(), root, node);
    }

    lemma UncleInTree(v: View, r: Node?, g: Node)
      requires Shape(v, r) && g in v
      ensures (v[g].left != null ==> v[g].left in v) && (v[g].right != null ==> v[g].right in v)
    {
      assert Linked(v, r, g);
    }

    /** The case with a red uncle. */
    method MoveUp(node: Node, parent: Node, uncle: Node, grandparent: Node, ghost left: bool)
      requires node in nodes && parent in nodes && grandparent in nodes && uncle in nodes && uncle.red
      requires RedRed(Heap(), root, node, parent, grandparent, left)
      requires uncle == if left then grandparent.right else grandparent.left
      modifies nodes`red, nodes`blacks
      ensures Shape(Heap(), root) && KeySet(Heap()) == old(KeySet(Heap())) && Colours(Heap(), root, grandparent)
      ensures grandparent.red
    {
      RecolourStep(Heap(), root, node, parent, grandparent, left, uncle);
      RecolourKeepsShape(Heap(), root, parent, uncle, grandparent);
      RecolourAll(parent, uncle, grandparent);
    }

    method RecolourAll(parent: Node, uncle: Node, grandparent: Node)
      requires parent in nodes && grandparent in nodes && uncle in nodes
      modifies nodes`red, nodes`blacks
      ensures Heap() == Recolour(old(Heap()), parent, uncle, grandparent)
      ensures grandparent.red
    {
      SetColor(parent, false, 1);
      SetColor(uncle, false, 1);
      SetColor(grandparent, true, 0);
    }

    lemma NothingViolated(v: View, r: Node?, z: Node)
      requires Shape(v, r) && Colours(v, r, null) && z in v && v[z].red
      ensures Colours(v, r, z) && !Red(v, v[z].parent)
    {
      forall n | n in v
        ensures Coloured(v, n, z)
      {
        assert Coloured(v, n, null) && Linked(v, r, n);
      }
      assert Linked(v, r, z);
      if v[z].parent != null { assert Coloured(v, v[z].parent, null); }
    }

    lemma RootIsNotNull(v: View, r: Node?, z: Node)
      requires Shape(v, r) && z in v
      ensures r != null && r in v && (v[z].parent != null ==> v[z].parent in v)
    {
      assert Linked(v, r, z);
    }

    // ---------------------------------------------------------------- validation

    /** The recursive check of the subtree at `node`; `expected` is passed on from leaf to leaf. */
    method Validate(node: Node?, low: int, high: int, blackCount: int, expectedBefore: int)
        returns (ok: bool, expected: int)
      requires AllBelow(Heap()) && (node != null ==> node in nodes)
      ensures (ok, expected) == Check(TreeOf(Heap(), node), low, high, blackCount, expectedBefore)
      decreases if node != null then node.hi - node.lo else 0, 1
    {
      if node == null {
        if expectedBefore == -1 { return true, blackCount; }
        return blackCount == expectedBefore, expectedBefore;
      }
      ok, expected := ValidateNode(node, low, high, blackCount, expectedBefore);
    }

    method ValidateNode(node: Node, low: int, high: int, blackCount: int, expectedBefore: int)
        returns (ok: bool, expected: int)
      requires AllBelow(Heap()) && node in nodes
      ensures (ok, expected) == Check(TreeOf(Heap(), node), low, high, blackCount, expectedBefore)
      decreases node.hi - node.lo, 0
    {
      ghost var v := Heap();
      ChildrenOf(v, node);
      CheckOfFork(TreeOf(v, node.left), node.key, node.red, TreeOf(v, node.right), low, high, blackCount,
        expectedBefore);
      expected := expectedBefore;
      if node.key <= low || node.key >= high { return false, expected; }
      var blacks := blackCount;
      if !node.red { blacks := blacks + 1; }
      if node.red {
        var redLeft := ColorIsRed(node.left);
        var redRight := ColorIsRed(node.right);
        if redLeft || redRight { return false, expected; }
      }
      ok, expected := Validate(node.left, low, node.key, blacks, expected);
      assert Heap() == v;
      if ok {
        ok, expected := Validate(node.right, node.key, high, blacks, expected);
        assert Heap() == v;
      }
    }

    lemma ChildrenOf(v: View, n: Node)
      requires AllBelow(v) && n in v
      ensures v[n].left != null
        ==> v[n].left in v && (TreeOf(v, v[n].left).Fork? && TreeOf(v, v[n].left).red == v[v[n].left].red)
      ensures v[n].right != null
        ==> v[n].right in v && (TreeOf(v, v[n].right).Fork? && TreeOf(v, v[n].right).red == v[v[n].right].red)
      ensures v[n].left != null ==> v[v[n].left].span.hi - v[v[n].left].span.lo < v[n].span.hi - v[n].span.lo
      ensures v[n].right != null ==> v[v[n].right].span.hi - v[v[n].right].span.lo < v[n].span.hi - v[n].span.lo
      ensures Proper(v[n].span) && TreeOf(v, n) == Fork(TreeOf(v, v[n].left), n.key, v[n].red, TreeOf(v, v[n].right))
    {
      assert Below(v, n);
    }

    /** The public check rejects a valid tree exactly when it holds one of the two extreme keys, which
        the open bounds handed to `Validate` exclude. */
    method IsValid() returns (ok: bool)
      requires Valid()
      ensures ok <==> INT_MIN !in KeySet(Heap()) && INT_MAX !in KeySet(Heap())
    {
      RootFacts(Heap(), root);
      if root == null {
        return true;
      }
      if root.red { return false; }
      ghost var expected: int;
      ok, expected := Validate(root, INT_MIN, INT_MAX, 0, -1);
    }

    lemma RootFacts(v: View, r: Node?)
      requires Shape(v, r) && Colours(v, r, null)
      ensures AllBelow(v) && (r == null ==> KeySet(v) == {}) && (r != null ==> r in v && !v[r].red)
      ensures Check(TreeOf(v, r), INT_MIN, INT_MAX, 0, -1).0 <==> INT_MIN !in KeySet(v) && INT_MAX !in KeySet(v)
    {
      TreeIsRedBlack(v, r);
      CheckOfRedBlack(TreeOf(v, r));
    }
  }

  /** A correct tree that the check rejects: one insertion of an extreme key into an empty tree. */
  method ExtremeKeyRejected(key: Int32) returns (tree: RedBlackTree, ok: bool)
    requires key == -2147483648 || key == 2147483647
    ensures fresh(tree) && tree.Valid() && KeySet(tree.Heap()) == {key as int} && !ok
  {
    tree := new RedBlackTree();
    tree.Insert(key);
    ok := tree.IsValid();
  }
}
