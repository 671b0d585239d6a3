/** Red-black trees as values: what the pointer tree stands for, and what its shape is worth. */
module RedBlackSpec {
  import opened SetFacts

  datatype Tree = Leaf | Fork(left: Tree, key: int, red: bool, right: Tree)

  function Keys(t: Tree): set<int> {
    match t
    case Leaf => {}
    case Fork(l, k, _, r) => Keys(l) + {k} + Keys(r)
  }

  function Size(t: Tree): nat {
    match t
    case Leaf => 0
    case Fork(l, _, _, r) => Size(l) + 1 + Size(r)
  }

  function Height(t: Tree): nat {
    match t
    case Leaf => 0
    case Fork(l, _, _, r) => 1 + if Height(l) > Height(r) then Height(l) else Height(r)
  }

  predicate IsRed(t: Tree) {
    t.Fork? && t.red
  }

  /** Search order, with every key strictly between the bounds. */
  predicate Ordered(t: Tree, low: int, high: int) {
    t.Fork? ==> low < t.key < high && Ordered(t.left, low, t.key) && Ordered(t.right, t.key, high)
  }

  predicate NoRedRed(t: Tree) {
    t.Fork? ==> (t.red ==> !IsRed(t.left) && !IsRed(t.right)) && NoRedRed(t.left) && NoRedRed(t.right)
  }

  /** Every path from the root of `t` to a leaf passes `n` black nodes. */
  predicate BlackHeight(t: Tree, n: int) {
    match t
    case Leaf => n == 0
    case Fork(l, _, red, r) => var m := if red then n else n - 1; BlackHeight(l, m) && BlackHeight(r, m)
  }

  ghost predicate IsRedBlack(t: Tree, low: int, high: int) {
    Ordered(t, low, high) && NoRedRed(t) && !IsRed(t) && exists n: nat :: BlackHeight(t, n)
  }

  function Pow2(n: nat): nat {
    if n == 0 then 1 else 2 * Pow2(n - 1)
  }

  lemma {:induction false} Pow2Monotone(m: nat, n: nat)
    requires m <= n
    ensures Pow2(m) <= Pow2(n)
  {
    if m < n { Pow2Monotone(m, n - 1); }
  }

  lemma {:induction false} BlackHeightBounds(t: Tree, n: nat)
    requires NoRedRed(t) && BlackHeight(t, n)
    ensures Size(t) + 1 >= Pow2(n)
    ensures Height(t) <= 2 * n + if IsRed(t) then 1 else 0
  {
    if t.Fork? {
      if t.red {
        BlackHeightBounds(t.left, n);
        BlackHeightBounds(t.right, n);
      } else {
        BlackHeightNonNegative(t.left, n - 1);
        BlackHeightBounds(t.left, n - 1);
        BlackHeightBounds(t.right, n - 1);
      }
    }
  }

  lemma {:induction false} BlackHeightNonNegative(t: Tree, n: int)
    requires BlackHeight(t, n)
    ensures n >= 0
  {
    if t.Fork? { BlackHeightNonNegative(t.left, if t.red then n else n - 1); }
  }

  lemma {:induction false} Pow2Double(n: nat)
    ensures Pow2(2 * n) == Pow2(n) * Pow2(n)
  {
    if n > 0 {
      Pow2Double(n - 1);
      assert Pow2(2 * n) == 2 * (2 * Pow2(2 * (n - 1)));
      assert Pow2(n) * Pow2(n) == (2 * Pow2(n - 1)) * (2 * Pow2(n - 1));
    }
  }

  lemma SquareMonotone(a: nat, b: nat)
    requires a <= b
    ensures a * a <= b * b
  {
    assert b * b == a * b + (b - a) * b;
    assert a * b == a * a + a * (b - a);
  }

  /** The height is at most 2 * log2(size + 1): 2 ^ height <= (size + 1) ^ 2. */
  lemma HeightIsLogarithmic(t: Tree, low: int, high: int)
    requires IsRedBlack(t, low, high)
    ensures Pow2(Height(t)) <= (Size(t) + 1) * (Size(t) + 1)
  {
    var n: nat :| BlackHeight(t, n);
    BlackHeightBounds(t, n);
    Pow2Monotone(Height(t), 2 * n);
    Pow2Double(n);
    SquareMonotone(Pow2(n), Size(t) + 1);
  }

  lemma {:induction false} KeysInBounds(t: Tree, low: int, high: int)
    requires Ordered(t, low, high)
    ensures forall k :: k in Keys(t) ==> low < k < high
  {
    if t.Fork? {
      KeysInBounds(t.left, low, t.key);
      KeysInBounds(t.right, t.key, high);
    }
  }

  lemma {:induction false} SizeIsKeyCount(t: Tree, low: int, high: int)
    requires Ordered(t, low, high)
    ensures |Keys(t)| == Size(t)
  {
    if t.Fork? {
      SizeIsKeyCount(t.left, low, t.key);
      SizeIsKeyCount(t.right, t.key, high);
      KeysInBounds(t.left, low, t.key);
      KeysInBounds(t.right, t.key, high);
      Disjoint(Keys(t.left), {t.key});
      Disjoint(Keys(t.left) + {t.key}, Keys(t.right));
    }
  }

  // ------------------------------------------------------------------ the validity checker

  /** The recursive checker: the verdict and the black height it expects of the remaining paths,
      -1 until the first leaf has been reached. */
  function Check(t: Tree, low: int, high: int, blacks: int, expected: int): (bool, int) {
    match t
    case Leaf => if expected == -1 then (true, blacks) else (blacks == expected, expected)
    case Fork(l, k, red, r) =>
      if k <= low || k >= high then (false, expected)
      else if red && (IsRed(l) || IsRed(r)) then (false, expected)
      else
        var b := if red then blacks else blacks + 1;
        var first := Check(l, low, k, b, expected);
        if first.0 then Check(r, k, high, b, first.1) else first
  }

  /** What the checker must find: any common number of black nodes while nothing is expected yet,
      and otherwise what is left of the expected number. */
  ghost predicate Balanced(t: Tree, blacks: int, expected: int) {
    if expected == -1 then exists n :: BlackHeight(t, n) else BlackHeight(t, expected - blacks)
  }

  /** The checker accepts exactly the ordered trees without red-red edges whose paths all have the
      same number of black nodes. */
  lemma {:induction false} CheckAccepts(t: Tree, low: int, high: int, blacks: nat, expected: int)
    requires expected >= -1
    ensures Check(t, low, high, blacks, expected).0
      <==> Ordered(t, low, high) && NoRedRed(t) && Balanced(t, blacks, expected)
    ensures Check(t, low, high, blacks, expected).1 >= -1
    ensures Check(t, low, high, blacks, expected).0 ==>
      var e := Check(t, low, high, blacks, expected).1;
      e >= 0 && BlackHeight(t, e - blacks) && (expected != -1 ==> e == expected)
  {
    match t {
      case Leaf =>
        assert BlackHeight(t, 0);
      case Fork(l, k, red, r) =>
        var b := if red then blacks else blacks + 1;
        var first := Check(l, low, k, b, expected);
        CheckAccepts(l, low, k, b, expected);
        CheckAccepts(r, k, high, b, first.1);
        if Balanced(t, blacks, expected) {
          BalancedFork(t, blacks, expected, first.0, first.1);
        }
        if Check(t, low, high, blacks, expected).0 {
          assert BlackHeight(t, Check(t, low, high, blacks, expected).1 - blacks);
        }
    }
  }

  /** In a balanced tree the left subtree is balanced, and the right one has what the left one found. */
  lemma BalancedFork(t: Tree, blacks: nat, expected: int, found: bool, e: int)
    requires t.Fork? && Balanced(t, blacks, expected)
    requires found ==> BlackHeight(t.left, e - (if t.red then blacks else blacks + 1))
    ensures Balanced(t.left, if t.red then blacks else blacks + 1, expected)
    ensures found ==> BlackHeight(t.right, e - (if t.red then blacks else blacks + 1))
  {
    var n :| BlackHeight(t, n) && (expected != -1 ==> n == expected - blacks);
    var m := if t.red then n else n - 1;
    assert BlackHeight(t.left, m) && BlackHeight(t.right, m);
    if found {
      BlackHeightUnique(t.left, m, e - (if t.red then blacks else blacks + 1));
    }
  }

  lemma {:induction false} BlackHeightUnique(t: Tree, m: int, n: int)
    requires BlackHeight(t, m) && BlackHeight(t, n)
    ensures m == n
  {
    if t.Fork? { BlackHeightUnique(t.left, if t.red then m else m - 1, if t.red then n else n - 1); }
  }
}
