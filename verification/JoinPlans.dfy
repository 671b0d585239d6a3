/** The nested-loop join: which side is the inner one never changes the bag of rows a query returns. */
module JoinPlans {
  import opened WhereParser
  import opened QueryPlans

  /** A join query after resolution: the columns of the joined rows, the two join columns, the predicate
      and the projected columns. */
  datatype Query = Query(cols: seq<string>, p1: int, p2: int, where: Option<Expr>, idx: seq<int>)

  predicate QueryOk(q: Query) {
    0 <= q.p1 < |q.cols| && 0 <= q.p2 < |q.cols| && forall i :: 0 <= i < |q.idx| ==> 0 <= q.idx[i] < |q.cols|
  }

  predicate Joins(row: Row, p1: int, p2: int)
    requires 0 <= p1 < |row| && 0 <= p2 < |row|
  {
    Compare3(row[p1], row[p2]) == Some(0)
  }

  /** The matches of one outer row. */
  function MatchInner(o: Row, inner: seq<Row>, n: nat, p1: int, p2: int): (r: seq<Row>)
    requires RowsFit(inner, n) && 0 <= p1 < |o| + n && 0 <= p2 < |o| + n
    ensures RowsFit(r, |o| + n)
  {
    if inner == [] then []
    else (if Joins(o + inner[0], p1, p2) then [o + inner[0]] else []) + MatchInner(o, inner[1..], n, p1, p2)
  }

  function JoinRows(outer: seq<Row>, inner: seq<Row>, m: nat, n: nat, p1: int, p2: int): (r: seq<Row>)
    requires RowsFit(outer, m) && RowsFit(inner, n) && 0 <= p1 < m + n && 0 <= p2 < m + n
    ensures RowsFit(r, m + n)
  {
    if outer == [] then []
    else MatchInner(outer[0], inner, n, p1, p2) + JoinRows(outer[1..], inner, m, n, p1, p2)
  }

  function ProjectRow(row: Row, idx: seq<int>): Row
    requires forall i :: 0 <= i < |idx| ==> 0 <= idx[i] < |row|
  {
    if idx == [] then [] else [row[idx[0]]] + ProjectRow(row, idx[1..])
  }

  function ProjectRows(rows: seq<Row>, n: nat, idx: seq<int>): (r: seq<Row>)
    requires RowsFit(rows, n) && forall i :: 0 <= i < |idx| ==> 0 <= idx[i] < n
    ensures |r| == |rows|
  {
    if rows == [] then [] else [ProjectRow(rows[0], idx)] + ProjectRows(rows[1..], n, idx)
  }

  /** Join and filter, and then project. */
  function Matching(q: Query, outer: seq<Row>, inner: seq<Row>, m: nat, n: nat): (r: seq<Row>)
    requires QueryOk(q) && |q.cols| == m + n && RowsFit(outer, m) && RowsFit(inner, n)
    ensures RowsFit(r, m + n)
  {
    FilterRows(JoinRows(outer, inner, m, n, q.p1, q.p2), q.cols, q.where)
  }

  function Answer(q: Query, outer: seq<Row>, inner: seq<Row>, m: nat, n: nat): seq<Row>
    requires QueryOk(q) && |q.cols| == m + n && RowsFit(outer, m) && RowsFit(inner, n)
  {
    ProjectRows(Matching(q, outer, inner, m, n), m + n, q.idx)
  }

  function CountRow(rows: seq<Row>, x: Row): nat {
    if rows == [] then 0 else (if rows[0] == x then 1 else 0) + CountRow(rows[1..], x)
  }

  // ------------------------------------------------------------------ counting pairs

  /** A joined row contributes the output row `x`. */
  predicate Hit(q: Query, row: Row, x: Row)
    requires QueryOk(q) && |row| == |q.cols|
  {
    Joins(row, q.p1, q.p2) && (q.where.Some? ==> Satisfies(row, q.cols, q.where.value)) && ProjectRow(row, q.idx) == x
  }

  function Hits(q: Query, o: Row, inner: seq<Row>, n: nat, x: Row): nat
    requires QueryOk(q) && RowsFit(inner, n) && |o| + n == |q.cols|
  {
    if inner == [] then 0 else (if Hit(q, o + inner[0], x) then 1 else 0) + Hits(q, o, inner[1..], n, x)
  }

  function AllHits(q: Query, outer: seq<Row>, inner: seq<Row>, m: nat, n: nat, x: Row): nat
    requires QueryOk(q) && RowsFit(outer, m) && RowsFit(inner, n) && |q.cols| == m + n
  {
    if outer == [] then 0 else Hits(q, outer[0], inner, n, x) + AllHits(q, outer[1..], inner, m, n, x)
  }

  lemma {:induction false} CountConcat(a: seq<Row>, b: seq<Row>, x: Row)
    ensures CountRow(a + b, x) == CountRow(a, x) + CountRow(b, x)
  {
    if a == [] {
      assert a + b == b;
    } else {
      assert (a + b)[1..] == a[1..] + b;
      CountConcat(a[1..], b, x);
    }
  }

  lemma {:induction false} ProjectConcat(a: seq<Row>, b: seq<Row>, n: nat, idx: seq<int>)
    requires RowsFit(a, n) && RowsFit(b, n) && forall i :: 0 <= i < |idx| ==> 0 <= idx[i] < n
    ensures RowsFit(a + b, n) && ProjectRows(a + b, n, idx) == ProjectRows(a, n, idx) + ProjectRows(b, n, idx)
  {
    if a == [] {
      assert a + b == b;
    } else {
      assert (a + b)[1..] == a[1..] + b;
      ProjectConcat(a[1..], b, n, idx);
    }
  }

  /** What filter and projection leave of some joined rows. */
  function Rest(q: Query, rows: seq<Row>): seq<Row>
    requires QueryOk(q) && RowsFit(rows, |q.cols|)
  {
    ProjectRows(FilterRows(rows, q.cols, q.where), |q.cols|, q.idx)
  }

  lemma RestConcat(q: Query, a: seq<Row>, b: seq<Row>)
    requires QueryOk(q) && RowsFit(a, |q.cols|) && RowsFit(b, |q.cols|)
    ensures RowsFit(a + b, |q.cols|) && Rest(q, a + b) == Rest(q, a) + Rest(q, b)
  {
    FilterConcat(a, b, q.cols, q.where);
    ProjectConcat(FilterRows(a, q.cols, q.where), FilterRows(b, q.cols, q.where), |q.cols|, q.idx);
  }

  lemma RestSingle(q: Query, row: Row, x: Row)
    requires QueryOk(q) && |row| == |q.cols| && Joins(row, q.p1, q.p2)
    ensures RowsFit([row], |q.cols|) && CountRow(Rest(q, [row]), x) == if Hit(q, row, x) then 1 else 0
  {
    assert [row][1..] == [];
    assert FilterRows([], q.cols, q.where) == [];
    if q.where.None? || Satisfies(row, q.cols, q.where.value) {
      assert FilterRows([row], q.cols, q.where) == [row];
      assert ProjectRows([row], |q.cols|, q.idx) == [ProjectRow(row, q.idx)];
      assert [ProjectRow(row, q.idx)][1..] == [];
    }
  }

  lemma {:induction false} CountMatches(q: Query, o: Row, inner: seq<Row>, n: nat, x: Row)
    requires QueryOk(q) && RowsFit(inner, n) && |o| + n == |q.cols|
    ensures CountRow(Rest(q, MatchInner(o, inner, n, q.p1, q.p2)), x) == Hits(q, o, inner, n, x)
  {
    if inner != [] {
      CountMatches(q, o, inner[1..], n, x);
      var row := o + inner[0];
      if Joins(row, q.p1, q.p2) {
        var rest := MatchInner(o, inner[1..], n, q.p1, q.p2);
        RestConcat(q, [row], rest);
        RestSingle(q, row, x);
        CountConcat(Rest(q, [row]), Rest(q, rest), x);
      } else {
        assert [] + MatchInner(o, inner[1..], n, q.p1, q.p2) == MatchInner(o, inner[1..], n, q.p1, q.p2);
      }
    }
  }

  /** How often a row occurs in the answer is a count over pairs. */
  lemma {:induction false} AnswerCountsPairs(q: Query, outer: seq<Row>, inner: seq<Row>, m: nat, n: nat, x: Row)
    requires QueryOk(q) && RowsFit(outer, m) && RowsFit(inner, n) && |q.cols| == m + n
    ensures CountRow(Answer(q, outer, inner, m, n), x) == AllHits(q, outer, inner, m, n, x)
  {
    if outer != [] {
      AnswerCountsPairs(q, outer[1..], inner, m, n, x);
      CountMatches(q, outer[0], inner, n, x);
      var a, b := MatchInner(outer[0], inner, n, q.p1, q.p2), JoinRows(outer[1..], inner, m, n, q.p1, q.p2);
      RestConcat(q, a, b);
      CountConcat(Rest(q, a), Rest(q, b), x);
    }
  }

  // ------------------------------------------------------------------ swapping the sides

  /** Where column `i` of `a + b` stands in `b + a`. */
  function Swap(i: int, m: nat, n: nat): int {
    if i < m then i + n else i - m
  }

  lemma SwapResolves(a: seq<string>, b: seq<string>, name: string)
    requires Resolve(a + b, name).Found?
    ensures Resolve(b + a, name) == Found(Swap(Resolve(a + b, name).at, |a|, |b|))
  {
    ResolveIsUnique(a + b, name);
    var i := Resolve(a + b, name).at;
    var k := Swap(i, |a|, |b|);
    assert (b + a)[k] == (a + b)[i];
    forall j | 0 <= j < |b + a| && ColMatches((b + a)[j], name)
      ensures j == k
    {
      var j0 := Swap(j, |b|, |a|);
      assert (a + b)[j0] == (b + a)[j];
    }
    assert OnlyMatch(b + a, name, k);
    ResolvesTo(b + a, name, k);
  }

  /** Every column of the expression resolves. */
  predicate Resolves(e: Expr, cols: seq<string>) {
    match e
    case Cmp(col, _, _) => Resolve(cols, col).Found?
    case And(l, r) => Resolves(l, cols) && Resolves(r, cols)
    case Or(l, r) => Resolves(l, cols) && Resolves(r, cols)
  }

  lemma {:induction false} SwapSatisfies(a: seq<string>, b: seq<string>, l: Row, r: Row, e: Expr)
    requires |l| == |a| && |r| == |b| && Resolves(e, a + b)
    ensures Satisfies(l + r, a + b, e) == Satisfies(r + l, b + a, e)
  {
    match e
    case Cmp(col, _, _) =>
      SwapResolves(a, b, col);
      var i := Resolve(a + b, col).at;
      assert (l + r)[i] == (r + l)[Swap(i, |a|, |b|)];
    case And(x, y) =>
      SwapSatisfies(a, b, l, r, x);
      SwapSatisfies(a, b, l, r, y);
    case Or(x, y) =>
      SwapSatisfies(a, b, l, r, x);
      SwapSatisfies(a, b, l, r, y);
  }

  lemma {:induction false} SwapProjects(l: Row, r: Row, idx: seq<int>, jdx: seq<int>)
    requires |idx| == |jdx| && forall i :: 0 <= i < |idx| ==>
      0 <= idx[i] < |l| + |r| && jdx[i] == Swap(idx[i], |l|, |r|)
    ensures forall i :: 0 <= i < |jdx| ==> 0 <= jdx[i] < |l| + |r|
    ensures ProjectRow(l + r, idx) == ProjectRow(r + l, jdx)
  {
    if idx != [] { SwapProjects(l, r, idx[1..], jdx[1..]); }
  }

  /** The statement resolved against one order of the tables: join columns, predicate, projected names. */
  function ResolveNames(cols: seq<string>, names: seq<string>): (idx: seq<int>)
    requires forall i :: 0 <= i < |names| ==> Resolve(cols, names[i]).Found?
    ensures |idx| == |names| && forall i :: 0 <= i < |names| ==> idx[i] == Resolve(cols, names[i]).at
  {
    if names == [] then [] else [Resolve(cols, names[0]).at] + ResolveNames(cols, names[1..])
  }

  predicate StatementOk(cols: seq<string>, c1: string, c2: string, where: Option<Expr>, names: seq<string>) {
    && Resolve(cols, c1).Found? && Resolve(cols, c2).Found?
    && (where.Some? ==> Resolves(where.value, cols))
    && forall i :: 0 <= i < |names| ==> Resolve(cols, names[i]).Found?
  }

  function Plan(cols: seq<string>, c1: string, c2: string, where: Option<Expr>, names: seq<string>): (q: Query)
    requires StatementOk(cols, c1, c2, where, names)
    ensures QueryOk(q) && q.cols == cols
  {
    Query(cols, Resolve(cols, c1).at, Resolve(cols, c2).at, where, ResolveNames(cols, names))
  }

  lemma AnswerOfPlan(cols: seq<string>, c1: string, c2: string, where: Option<Expr>, names: seq<string>,
                     outer: seq<Row>, inner: seq<Row>, m: nat, n: nat)
    requires StatementOk(cols, c1, c2, where, names) && |cols| == m + n && RowsFit(outer, m) && RowsFit(inner, n)
    ensures forall k :: 0 <= k < |names| ==> Resolve(cols, names[k]).Found?
    ensures var q := Plan(cols, c1, c2, where, names);
            Answer(q, outer, inner, m, n)
              == ProjectRows(Matching(q, outer, inner, m, n), |cols|, ResolveNames(cols, names))
  {
    var q := Plan(cols, c1, c2, where, names);
    var rows := Matching(q, outer, inner, m, n);
    assert Answer(q, outer, inner, m, n) == ProjectRows(rows, m + n, q.idx);
    assert q.idx == ResolveNames(cols, names);
  }

  lemma SwapStatement(a: seq<string>, b: seq<string>, c1: string, c2: string, where: Option<Expr>, names: seq<string>)
    requires StatementOk(a + b, c1, c2, where, names)
    ensures StatementOk(b + a, c1, c2, where, names)
    ensures var q, q2 := Plan(a + b, c1, c2, where, names), Plan(b + a, c1, c2, where, names);
            && q2.p1 == Swap(q.p1, |a|, |b|) && q2.p2 == Swap(q.p2, |a|, |b|) && |q2.idx| == |q.idx|
            && forall i :: 0 <= i < |q.idx| ==> q2.idx[i] == Swap(q.idx[i], |a|, |b|)
  {
    SwapResolves(a, b, c1);
    SwapResolves(a, b, c2);
    if where.Some? { SwapResolvesAll(a, b, where.value); }
    forall i | 0 <= i < |names|
      ensures Resolve(b + a, names[i]) == Found(Swap(Resolve(a + b, names[i]).at, |a|, |b|))
    {
      SwapResolves(a, b, names[i]);
    }
  }

  lemma {:induction false} SwapResolvesAll(a: seq<string>, b: seq<string>, e: Expr)
    requires Resolves(e, a + b)
    ensures Resolves(e, b + a)
  {
    if e.Cmp? {
      SwapResolves(a, b, e.col);
    } else {
      SwapResolvesAll(a, b, e.left);
      SwapResolvesAll(a, b, e.right);
    }
  }

  /** Two queries that are each other's mirror image. */
  ghost predicate Mirrors(q: Query, q2: Query, a: seq<string>, b: seq<string>) {
    && QueryOk(q) && QueryOk(q2) && q.cols == a + b && q2.cols == b + a && q.where == q2.where
    && (q.where.Some? ==> Resolves(q.where.value, a + b))
    && q2.p1 == Swap(q.p1, |a|, |b|) && q2.p2 == Swap(q.p2, |a|, |b|) && |q2.idx| == |q.idx|
    && forall i :: 0 <= i < |q.idx| ==> q2.idx[i] == Swap(q.idx[i], |a|, |b|)
  }

  lemma SwapHit(q: Query, q2: Query, a: seq<string>, b: seq<string>, l: Row, r: Row, x: Row)
    requires Mirrors(q, q2, a, b) && |l| == |a| && |r| == |b|
    ensures Hit(q, l + r, x) == Hit(q2, r + l, x)
  {
    assert (l + r)[q.p1] == (r + l)[q2.p1] && (l + r)[q.p2] == (r + l)[q2.p2];
    if q.where.Some? { SwapSatisfies(a, b, l, r, q.where.value); }
    SwapProjects(l, r, q.idx, q2.idx);
  }

  /** One more row on the inner side. */
  lemma {:induction false} AddInner(q2: Query, outer: seq<Row>, l: Row, inner: seq<Row>, m: nat, n: nat, x: Row)
    requires QueryOk(q2) && RowsFit(outer, m) && RowsFit(inner, n) && |l| == n && |q2.cols| == m + n
    ensures RowsFit([l] + inner, n)
    ensures AllHits(q2, outer, [l] + inner, m, n, x)
      == Column(q2, outer, l, m, n, x) + AllHits(q2, outer, inner, m, n, x)
  {
    if outer != [] {
      AddInner(q2, outer[1..], l, inner, m, n, x);
      assert ([l] + inner)[1..] == inner;
    }
  }

  function Column(q2: Query, outer: seq<Row>, l: Row, m: nat, n: nat, x: Row): nat
    requires QueryOk(q2) && RowsFit(outer, m) && |l| == n && |q2.cols| == m + n
  {
    if outer == [] then 0 else (if Hit(q2, outer[0] + l, x) then 1 else 0) + Column(q2, outer[1..], l, m, n, x)
  }

  lemma {:induction false} RowIsColumn(q: Query, q2: Query, a: seq<string>, b: seq<string>, l: Row, rs: seq<Row>,
    x: Row)
    requires Mirrors(q, q2, a, b) && |l| == |a| && RowsFit(rs, |b|)
    ensures Hits(q, l, rs, |b|, x) == Column(q2, rs, l, |b|, |a|, x)
  {
    if rs != [] {
      SwapHit(q, q2, a, b, l, rs[0], x);
      RowIsColumn(q, q2, a, b, l, rs[1..], x);
    }
  }

  lemma {:induction false} NoInner(q2: Query, outer: seq<Row>, m: nat, n: nat, x: Row)
    requires QueryOk(q2) && RowsFit(outer, m) && |q2.cols| == m + n
    ensures AllHits(q2, outer, [], m, n, x) == 0
  {
    if outer != [] { NoInner(q2, outer[1..], m, n, x); }
  }

  lemma {:induction false} SwapAllHits(q: Query, q2: Query, a: seq<string>, b: seq<string>, ls: seq<Row>,
    rs: seq<Row>, x: Row)
    requires Mirrors(q, q2, a, b) && RowsFit(ls, |a|) && RowsFit(rs, |b|)
    ensures AllHits(q, ls, rs, |a|, |b|, x) == AllHits(q2, rs, ls, |b|, |a|, x)
  {
    if ls == [] {
      NoInner(q2, rs, |b|, |a|, x);
    } else {
      SwapAllHits(q, q2, a, b, ls[1..], rs, x);
      RowIsColumn(q, q2, a, b, ls[0], rs, x);
      AddInner(q2, rs, ls[0], ls[1..], |b|, |a|, x);
      assert ls == [ls[0]] + ls[1..];
    }
  }

  /** Whichever table is the inner one, a join projected by name returns every row equally often. */
  lemma JoinOrderDoesNotMatter(a: seq<string>, b: seq<string>, ls: seq<Row>, rs: seq<Row>,
                               c1: string, c2: string, where: Option<Expr>, names: seq<string>, x: Row)
    requires StatementOk(a + b, c1, c2, where, names) && RowsFit(ls, |a|) && RowsFit(rs, |b|)
    ensures StatementOk(b + a, c1, c2, where, names)
    ensures CountRow(Answer(Plan(a + b, c1, c2, where, names), ls, rs, |a|, |b|), x)
         == CountRow(Answer(Plan(b + a, c1, c2, where, names), rs, ls, |b|, |a|), x)
  {
    SwapStatement(a, b, c1, c2, where, names);
    var q, q2 := Plan(a + b, c1, c2, where, names), Plan(b + a, c1, c2, where, names);
    AnswerCountsPairs(q, ls, rs, |a|, |b|, x);
    AnswerCountsPairs(q2, rs, ls, |b|, |a|, x);
    SwapAllHits(q, q2, a, b, ls, rs, x);
  }

  lemma {:induction false} EmptyProjectionCounts(rows: seq<Row>, n: nat)
    requires RowsFit(rows, n)
    ensures CountRow(ProjectRows(rows, n, []), []) == |rows|
  {
    if rows != [] { EmptyProjectionCounts(rows[1..], n); }
  }

  lemma CountIsAnswer(q: Query, outer: seq<Row>, inner: seq<Row>, m: nat, n: nat)
    requires QueryOk(q) && |q.cols| == m + n && RowsFit(outer, m) && RowsFit(inner, n) && q.idx == []
    ensures |Matching(q, outer, inner, m, n)| == CountRow(Answer(q, outer, inner, m, n), [])
  {
    EmptyProjectionCounts(Matching(q, outer, inner, m, n), m + n);
  }

  /** COUNT(*) over a join does not depend on the order either. */
  lemma CountDoesNotDependOnOrder(a: seq<string>, b: seq<string>, ls: seq<Row>, rs: seq<Row>, c1: string, c2: string,
    where: Option<Expr>)
    requires StatementOk(a + b, c1, c2, where, []) && RowsFit(ls, |a|) && RowsFit(rs, |b|)
    ensures StatementOk(b + a, c1, c2, where, [])
    ensures |Matching(Plan(a + b, c1, c2, where, []), ls, rs, |a|, |b|)|
      == |Matching(Plan(b + a, c1, c2, where, []), rs, ls, |b|, |a|)|
  {
    JoinOrderDoesNotMatter(a, b, ls, rs, c1, c2, where, [], []);
    CountIsAnswer(Plan(a + b, c1, c2, where, []), ls, rs, |a|, |b|);
    CountIsAnswer(Plan(b + a, c1, c2, where, []), rs, ls, |b|, |a|);
  }
}
