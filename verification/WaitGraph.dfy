/** The waits-for graph of the lock manager: nodes are transaction ids, and an edge a -> b says that
    a's pending lock request was refused because of a lock held by b. */
module WaitGraph {
  import opened SetFacts

  type Graph = map<int, set<int>>

  /** The recorded successors of `n`; a transaction without an entry waits for nobody. */
  function Succ(g: Graph, n: int): set<int> {
    if n in g then g[n] else {}
  }

  ghost predicate IsPath(g: Graph, p: seq<int>) {
    |p| >= 1 && forall i :: 0 <= i < |p| - 1 ==> p[i + 1] in Succ(g, p[i])
  }

  /** There is a path of at least one edge from `a` to `b`. */
  ghost predicate Reaches(g: Graph, a: int, b: int) {
    exists p: seq<int> :: |p| >= 2 && p[0] == a && p[|p| - 1] == b && IsPath(g, p)
  }

  ghost predicate OnCycle(g: Graph, n: int) {
    Reaches(g, n, n)
  }

  ghost predicate Acyclic(g: Graph) {
    forall n :: !OnCycle(g, n)
  }

  lemma ReachesStep(g: Graph, a: int, b: int)
    requires b in Succ(g, a)
    ensures Reaches(g, a, b)
  {
    assert IsPath(g, [a, b]);
  }

  lemma ReachesTransitive(g: Graph, a: int, b: int, c: int)
    requires Reaches(g, a, b) && Reaches(g, b, c)
    ensures Reaches(g, a, c)
  {
    var p: seq<int> :| |p| >= 2 && p[0] == a && p[|p| - 1] == b && IsPath(g, p);
    var q: seq<int> :| |q| >= 2 && q[0] == b && q[|q| - 1] == c && IsPath(g, q);
    var r := p + q[1..];
    forall i | 0 <= i < |r| - 1
      ensures r[i + 1] in Succ(g, r[i])
    {
      if i + 1 < |p| {
        assert p[i + 1] in Succ(g, p[i]);
      } else {
        assert q[i - |p| + 2] in Succ(g, q[i - |p| + 1]);
      }
    }
    assert IsPath(g, r);
  }

  lemma ReachesMonotone(h: Graph, g: Graph, a: int, b: int)
    requires forall n :: Succ(h, n) <= Succ(g, n)
    requires Reaches(h, a, b)
    ensures Reaches(g, a, b)
  {
    var p: seq<int> :| |p| >= 2 && p[0] == a && p[|p| - 1] == b && IsPath(h, p);
    assert IsPath(g, p);
  }

  /** Dropping edges never creates a cycle. */
  lemma SubgraphAcyclic(g: Graph, h: Graph)
    requires Acyclic(g)
    requires forall n :: Succ(h, n) <= Succ(g, n)
    ensures Acyclic(h)
  {
    forall n
      ensures !OnCycle(h, n)
    {
      if Reaches(h, n, n) { ReachesMonotone(h, g, n, n); }
      assert !OnCycle(g, n);
    }
  }

  /** A cycle that survives replacing the edges of `n` either was there before or runs through `n`. */
  lemma CycleOldOrThrough(g: Graph, n: int, targets: set<int>, m: int)
    requires OnCycle(g[n := targets], m)
    ensures OnCycle(g, m) || OnCycle(g[n := targets], n)
  {
    var h := g[n := targets];
    var p: seq<int> :| |p| >= 2 && p[0] == m && p[|p| - 1] == m && IsPath(h, p);
    if i :| 0 <= i < |p| - 1 && p[i] == n {
      RotateCycle(h, p, i);
    } else {
      assert IsPath(g, p);
    }
  }

  /** Replacing the edges of one node keeps the graph acyclic as long as that node is on no cycle. */
  lemma ReplaceEdgesAcyclic(g: Graph, n: int, targets: set<int>)
    requires Acyclic(g)
    requires !OnCycle(g[n := targets], n)
    ensures Acyclic(g[n := targets])
  {
    var h := g[n := targets];
    forall m
      ensures !OnCycle(h, m)
    {
      if OnCycle(h, m) { CycleOldOrThrough(g, n, targets, m); }
    }
  }

  lemma RotateCycle(g: Graph, p: seq<int>, i: nat)
    requires |p| >= 2 && p[0] == p[|p| - 1] && IsPath(g, p) && i < |p| - 1
    ensures Reaches(g, p[i], p[i])
  {
    if i > 0 {
      var back := p[i..];
      assert IsPath(g, back);
      assert Reaches(g, p[i], p[0]);
      var front := p[..i + 1];
      assert IsPath(g, front);
      assert Reaches(g, p[0], p[i]);
      ReachesTransitive(g, p[i], p[0], p[i]);
    }
  }

  /** A set that contains the successors of `start`, is closed under successors and misses `start`
      proves that `start` is on no cycle. */
  lemma ClosedSetNoCycle(g: Graph, start: int, closed: set<int>)
    requires forall x :: x in Succ(g, start) ==> x in closed
    requires forall v, x :: v in closed && x in Succ(g, v) ==> x in closed
    requires start !in closed
    ensures !OnCycle(g, start)
  {
    if OnCycle(g, start) {
      var p: seq<int> :| |p| >= 2 && p[0] == start && p[|p| - 1] == start && IsPath(g, p);
      PathStaysInside(g, p, closed, |p| - 1);
    }
  }

  lemma {:induction false} PathStaysInside(g: Graph, p: seq<int>, closed: set<int>, i: nat)
    requires IsPath(g, p) && 1 <= i < |p|
    requires forall x :: x in Succ(g, p[0]) ==> x in closed
    requires forall v, x :: v in closed && x in Succ(g, v) ==> x in closed
    ensures p[i] in closed
  {
    if i > 1 {
      PathStaysInside(g, p, closed, i - 1);
    }
    var v, x := p[i - 1], p[i];
    assert p[i - 1 + 1] in Succ(g, v);
    assert x in Succ(g, v);
  }

  /** In an acyclic graph, if every node satisfying `blocked` has an edge and all its edges lead to
      nodes in `live`, then every blocked node reaches a live node that is not blocked. */
  lemma {:induction false} ChainEnds(g: Graph, blocked: set<int>, live: set<int>, n: int, seen: set<int>)
    requires Acyclic(g) && n in blocked && n in seen && seen <= blocked
    requires forall b :: b in blocked ==> Succ(g, b) != {}
    requires forall b, x :: b in blocked && x in Succ(g, b) ==> x in live
    requires forall v :: v in seen && v != n ==> Reaches(g, v, n)
    ensures exists r :: r in live && r !in blocked && Reaches(g, n, r)
    decreases |blocked - seen|
  {
    HasElement(Succ(g, n));
    var b :| b in Succ(g, n);
    ReachesStep(g, n, b);
    if b in blocked {
      if b in seen {
        assert !OnCycle(g, b);
        if b != n { ReachesTransitive(g, b, n, b); }
      } else {
        forall v | v in seen + {b} && v != b
          ensures Reaches(g, v, b)
        {
          if v != n { ReachesTransitive(g, v, n, b); }
        }
        assert blocked - seen == (blocked - (seen + {b})) + {b};
        ChainEnds(g, blocked, live, b, seen + {b});
        var r :| r in live && r !in blocked && Reaches(g, b, r);
        ReachesTransitive(g, n, b, r);
      }
    }
  }
}
