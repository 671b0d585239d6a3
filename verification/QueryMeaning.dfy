/** What queries mean, in terms of the rows themselves: comparisons are those of numbers and texts, columns
    are found by their names, and no function of the executor is called. */
module QueryMeaning {
  import opened WhereParser
  import opened QueryPlans
  import opened JoinPlans

  // ------------------------------------------------------------------ values

  /** Lexicographic order: at the first position where the texts differ the smaller character decides, and
      a proper prefix comes first. */
  ghost predicate Precedes(a: string, b: string) {
    exists n :: DiffersAt(a, b, n)
  }

  predicate DiffersAt(a: string, b: string, n: int) {
    0 <= n <= |a| && n < |b| && a[..n] == b[..n] && (n == |a| || a[n] < b[n])
  }

  /** What a comparison says of two numbers, and of two texts. */
  predicate IntsCompare(a: int, op: Op, b: int) {
    match op
    case EQ => a == b
    case NE => a != b
    case LT => a < b
    case LE => a <= b
    case GT => a > b
    case GE => a >= b
  }

  ghost predicate TextsCompare(a: string, op: Op, b: string) {
    match op
    case EQ => a == b
    case NE => a != b
    case LT => Precedes(a, b)
    case LE => a == b || Precedes(a, b)
    case GT => Precedes(b, a)
    case GE => a == b || Precedes(b, a)
  }

  ghost predicate Compares(a: Value, op: Op, b: Value) {
    match (a, b)
    case (IntValue(x), IntValue(y)) => IntsCompare(x, op, y)
    case (TextValue(x), TextValue(y)) => TextsCompare(x, op, y)
    case _ => false
  }

  lemma {:induction false} TextOrder(a: string, b: string)
    ensures CompareText(a, b) < 0 <==> Precedes(a, b)
    ensures CompareText(a, b) > 0 <==> Precedes(b, a)
    ensures CompareText(a, b) == 0 <==> a == b
  {
    if a == [] || b == [] {
      if a == [] && b != [] { assert DiffersAt(a, b, 0); }
      if b == [] && a != [] { assert DiffersAt(b, a, 0); }
    } else if a[0] != b[0] {
      FirstDiffers(a, b);
    } else {
      TextOrder(a[1..], b[1..]);
      SameHead(a, b);
      SameHead(b, a);
      assert a == [a[0]] + a[1..] && b == [b[0]] + b[1..];
    }
  }

  lemma FirstDiffers(a: string, b: string)
    requires a != [] && b != [] && a[0] != b[0]
    ensures Precedes(a, b) <==> a[0] < b[0]
    ensures Precedes(b, a) <==> b[0] < a[0]
  {
    if a[0] < b[0] { assert DiffersAt(a, b, 0); }
    if b[0] < a[0] { assert DiffersAt(b, a, 0); }
    forall n | DiffersAt(a, b, n)
      ensures n == 0
    {
      HeadsAgree(a, b, n);
    }
    forall n | DiffersAt(b, a, n)
      ensures n == 0
    {
      HeadsAgree(b, a, n);
    }
  }

  lemma HeadsAgree(a: string, b: string, n: int)
    requires DiffersAt(a, b, n)
    ensures n > 0 ==> a[0] == b[0]
  {
    if n > 0 { assert a[..n][0] == b[..n][0]; }
  }

  lemma SameHead(a: string, b: string)
    requires a != [] && b != [] && a[0] == b[0]
    ensures Precedes(a, b) <==> Precedes(a[1..], b[1..])
  {
    if n :| DiffersAt(a, b, n) {
      assert a[1..][..n - 1] == a[..n][1..] == b[..n][1..] == b[1..][..n - 1];
      assert DiffersAt(a[1..], b[1..], n - 1);
    }
    if n :| DiffersAt(a[1..], b[1..], n) {
      assert a[..n + 1] == [a[0]] + a[1..][..n] == [b[0]] + b[1..][..n] == b[..n + 1];
      assert DiffersAt(a, b, n + 1);
    }
  }

  lemma CompareMeans(a: Value, op: Op, b: Value)
    requires SameType(a, b)
    ensures Compare3(a, b).Some? && (OpHolds(op, Compare3(a, b).value) <==> Compares(a, op, b))
  {
    if a.TextValue? { TextOrder(a.s, b.s); }
  }

  // ------------------------------------------------------------------ columns

  /** A name without a table. */
  predicate Plain(name: string) {
    '.' !in name
  }

  /** The column may be called so: by its table and its own name, or by the latter alone. */
  ghost predicate MayBeCalled(col: string, name: string) {
    name == col || (Plain(name) && exists table :: Plain(table) && col == table + "." + name)
  }

  /** The one column that may be called so. */
  ghost predicate Refers(cols: seq<string>, name: string, i: int) {
    && 0 <= i < |cols| && MayBeCalled(cols[i], name)
    && forall j :: 0 <= j < |cols| && MayBeCalled(cols[j], name) ==> j == i
  }

  ghost predicate IsQualified(col: string) {
    exists table, own :: Plain(table) && Plain(own) && col == table + "." + own
  }

  ghost predicate AllQualified(cols: seq<string>) {
    forall i :: 0 <= i < |cols| ==> IsQualified(cols[i])
  }

  lemma CalledMeans(col: string, name: string)
    requires IsQualified(col)
    ensures ColMatches(col, name) <==> MayBeCalled(col, name)
  {
    var table, own :| Plain(table) && Plain(own) && col == table + "." + own;
    TailOfQualified(table, own);
    if Plain(name) {
      if MayBeCalled(col, name) {
        var t :| Plain(t) && col == t + "." + name;
        TailOfQualified(t, name);
      }
    }
  }

  lemma ResolveMeans(cols: seq<string>, name: string)
    requires AllQualified(cols)
    ensures Resolve(cols, name).Found? <==> exists i :: Refers(cols, name, i)
    ensures forall i :: Refers(cols, name, i) <==> Resolve(cols, name) == Found(i)
  {
    ResolveIsUnique(cols, name);
    forall i
      ensures Refers(cols, name, i) <==> OnlyMatch(cols, name, i)
    {
      forall j | 0 <= j < |cols|
        ensures ColMatches(cols[j], name) <==> MayBeCalled(cols[j], name)
      {
        CalledMeans(cols[j], name);
      }
    }
    forall i | OnlyMatch(cols, name, i)
      ensures Resolve(cols, name) == Found(i)
    {
      ResolvesTo(cols, name, i);
    }
  }

  lemma TableIsQualified(t: Table)
    requires TableOk(t)
    ensures AllQualified(QualifiedCols(t))
  {
    forall i | 0 <= i < |t.names|
      ensures IsQualified(QualifiedCols(t)[i])
    {
      assert Plain(t.name) && Plain(t.names[i]);
    }
  }

  // ------------------------------------------------------------------ predicates

  /** What a WHERE expression says of a row. */
  ghost predicate Holds(e: Expr, cols: seq<string>, row: Row) {
    match e
    case And(l, r) => Holds(l, cols, row) && Holds(r, cols, row)
    case Or(l, r) => Holds(l, cols, row) || Holds(r, cols, row)
    case Cmp(name, op, val) => exists i :: Refers(cols, name, i) && i < |row| && Compares(row[i], op, val)
  }

  /** The executor's evaluation says just that of a typed row, and never throws. */
  lemma {:induction false} EvaluatesToMeaning(e: Expr, cols: seq<string>, ints: Types, row: Row)
    requires |cols| == |ints| && AllQualified(cols) && RowTyped(row, ints) && WellTyped(e, cols, ints)
    ensures EvalExpr(e, cols, row) == Some(Holds(e, cols, row))
    ensures Satisfies(row, cols, e) <==> Holds(e, cols, row)
  {
    match e
    case And(l, r) =>
      EvaluatesToMeaning(l, cols, ints, row);
      EvaluatesToMeaning(r, cols, ints, row);
    case Or(l, r) =>
      EvaluatesToMeaning(l, cols, ints, row);
      EvaluatesToMeaning(r, cols, ints, row);
    case Cmp(name, op, val) =>
      ResolveMeans(cols, name);
      var i := Resolve(cols, name).at;
      assert Refers(cols, name, i);
      CompareMeans(row[i], op, val);
  }

  /** In particular, for a column of numbers. */
  lemma NumbersCompare(name: string, op: Op, n: int, cols: seq<string>, ints: Types, row: Row, i: int)
    requires |cols| == |ints| && AllQualified(cols) && RowTyped(row, ints) && Refers(cols, name, i) && ints[i]
    ensures EvalExpr(Cmp(name, op, IntValue(n)), cols, row) == Some(IntsCompare(row[i].i, op, n))
  {
    ResolveMeans(cols, name);
    EvaluatesToMeaning(Cmp(name, op, IntValue(n)), cols, ints, row);
    assert forall j :: Refers(cols, name, j) ==> j == i;
  }

  ghost predicate Meets(where: Option<Expr>, cols: seq<string>, row: Row) {
    where.Some? ==> Holds(where.value, cols, row)
  }

  // ------------------------------------------------------------------ filter and projection

  /** The positions are those of exactly the rows that meet the condition, in order. */
  ghost predicate Picks(at: seq<int>, rows: seq<Row>, where: Option<Expr>, cols: seq<string>) {
    && (forall k :: 0 <= k < |at| ==> 0 <= at[k] < |rows|)
    && (forall j, k :: 0 <= j < k < |at| ==> at[j] < at[k])
    && forall i :: 0 <= i < |rows| ==> (i in at <==> Meets(where, cols, rows[i]))
  }

  /** Output column `c` is the column of the row that its name refers to. */
  ghost predicate Shows(x: Row, names: seq<string>, cols: seq<string>, row: Row) {
    |x| == |names| && forall c :: 0 <= c < |names| ==> ShowsColumn(x, names, cols, row, c)
  }

  ghost predicate ShowsColumn(x: Row, names: seq<string>, cols: seq<string>, row: Row, c: int)
    requires 0 <= c < |names| == |x|
  {
    exists i :: Refers(cols, names[c], i) && i < |row| && x[c] == row[i]
  }

  ghost predicate TypedRows(rows: seq<Row>, ints: Types) {
    forall i :: 0 <= i < |rows| ==> RowTyped(rows[i], ints)
  }

  ghost predicate CanFilter(rows: seq<Row>, where: Option<Expr>, cols: seq<string>, ints: Types) {
    |cols| == |ints| && AllQualified(cols) && TypedRows(rows, ints)
      && (where.Some? ==> WellTyped(where.value, cols, ints))
  }

  lemma MeetsIff(where: Option<Expr>, cols: seq<string>, ints: Types, rows: seq<Row>, i: int)
    requires CanFilter(rows, where, cols, ints) && 0 <= i < |rows|
    ensures |rows[i]| == |cols|
    ensures Meets(where, cols, rows[i]) <==> (where.Some? ==> Satisfies(rows[i], cols, where.value))
  {
    assert RowTyped(rows[i], ints);
    if where.Some? { EvaluatesToMeaning(where.value, cols, ints, rows[i]); }
  }

  predicate AtPositions(hit: seq<Row>, rows: seq<Row>, at: seq<int>) {
    |hit| == |at| && forall k :: 0 <= k < |at| ==> 0 <= at[k] < |rows| && hit[k] == rows[at[k]]
  }

  /** The filtered rows are those at the positions. */
  ghost predicate Filters(rows: seq<Row>, where: Option<Expr>, cols: seq<string>, at: seq<int>)
    requires RowsFit(rows, |cols|)
  {
    Picks(at, rows, where, cols) && AtPositions(FilterRows(rows, cols, where), rows, at)
  }

  /** Filtering picks exactly the rows that meet the condition, in order. */
  lemma {:induction false} FilterPicks(rows: seq<Row>, where: Option<Expr>, cols: seq<string>, ints: Types)
    returns (at: seq<int>)
    requires CanFilter(rows, where, cols, ints)
    ensures RowsFit(rows, |cols|) && Filters(rows, where, cols, at)
  {
    TypedRowsFit(rows, ints);
    if rows == [] {
      at := [];
    } else {
      assert forall i :: 0 <= i < |rows| - 1 ==> rows[1..][i] == rows[i + 1];
      var later := FilterPicks(rows[1..], where, cols, ints);
      at := FilterOneMore(rows, where, cols, ints, later);
    }
  }

  lemma FilterOneMore(rows: seq<Row>, where: Option<Expr>, cols: seq<string>, ints: Types, later: seq<int>)
    returns (at: seq<int>)
    requires CanFilter(rows, where, cols, ints) && rows != [] && RowsFit(rows, |cols|)
    requires Filters(rows[1..], where, cols, later)
    ensures Filters(rows, where, cols, at)
  {
    var hit := FilterRows(rows[1..], cols, where);
    FilterHead(rows, where, cols, ints);
    at := PickOneMore(rows, where, cols, later);
    if Meets(where, cols, rows[0]) {
      HeadAtPosition(rows, hit, later, at);
    } else {
      TailAtPositions(rows, hit, later, at);
    }
  }

  lemma FilterHead(rows: seq<Row>, where: Option<Expr>, cols: seq<string>, ints: Types)
    requires CanFilter(rows, where, cols, ints) && rows != [] && RowsFit(rows, |cols|)
    ensures var rest := FilterRows(rows[1..], cols, where);
            FilterRows(rows, cols, where) == if Meets(where, cols, rows[0]) then [rows[0]] + rest else rest
  {
    MeetsIff(where, cols, ints, rows, 0);
  }

  /** The rows at later positions, in the whole and in the rest. */
  lemma TailAtPositions(rows: seq<Row>, hit: seq<Row>, later: seq<int>, at: seq<int>)
    requires rows != [] && AtPositions(hit, rows[1..], later)
    requires |at| == |later| && forall k :: 0 <= k < |at| ==> at[k] == later[k] + 1
    ensures AtPositions(hit, rows, at)
  {
  }

  lemma HeadAtPosition(rows: seq<Row>, hit: seq<Row>, later: seq<int>, at: seq<int>)
    requires rows != [] && AtPositions(hit, rows[1..], later)
    requires |at| == |later| + 1 && at[0] == 0 && forall k :: 0 <= k < |later| ==> at[k + 1] == later[k] + 1
    ensures AtPositions([rows[0]] + hit, rows, at)
  {
    forall k | 0 <= k < |at|
      ensures 0 <= at[k] < |rows| && ([rows[0]] + hit)[k] == rows[at[k]]
    {
      if k > 0 { assert at[k] == later[k - 1] + 1 && hit[k - 1] == rows[1..][later[k - 1]]; }
    }
  }

  lemma PickOneMore(rows: seq<Row>, where: Option<Expr>, cols: seq<string>, later: seq<int>) returns (at: seq<int>)
    requires rows != [] && Picks(later, rows[1..], where, cols)
    ensures Picks(at, rows, where, cols)
    ensures if Meets(where, cols, rows[0]) then
              |at| == |later| + 1 && at[0] == 0 && forall k :: 0 <= k < |later| ==> at[k + 1] == later[k] + 1
            else |at| == |later| && forall k :: 0 <= k < |at| ==> at[k] == later[k] + 1
  {
    var shifted := seq(|later|, k requires 0 <= k < |later| => later[k] + 1);
    at := if Meets(where, cols, rows[0]) then [0] + shifted else shifted;
    forall i | 0 <= i < |rows|
      ensures i in at <==> Meets(where, cols, rows[i])
    {
      ShiftedIn(later, shifted, i);
      if i > 0 { assert rows[1..][i - 1] == rows[i]; }
    }
  }

  lemma ShiftedIn(later: seq<int>, shifted: seq<int>, i: int)
    requires |shifted| == |later| && forall k :: 0 <= k < |later| ==> shifted[k] == later[k] + 1
    ensures i in shifted <==> i - 1 in later
  {
    if i - 1 in later {
      var k :| 0 <= k < |later| && later[k] == i - 1;
      assert shifted[k] == i;
    }
  }

  lemma {:induction false} ProjectsTo(row: Row, names: seq<string>, cols: seq<string>)
    requires |row| == |cols| && AllQualified(cols)
    requires forall c :: 0 <= c < |names| ==> Resolve(cols, names[c]).Found?
    ensures Shows(ProjectRow(row, ResolveNames(cols, names)), names, cols, row)
  {
    if names != [] {
      assert forall c :: 0 <= c < |names| - 1 ==> names[1..][c] == names[c + 1];
      ProjectsTo(row, names[1..], cols);
      var at, rest := Resolve(cols, names[0]).at, ProjectRow(row, ResolveNames(cols, names[1..]));
      ResolveMeans(cols, names[0]);
      ShowsOneMore(rest, names, cols, row, at);
      assert ResolveNames(cols, names) == [at] + ResolveNames(cols, names[1..]);
      assert ProjectRow(row, ResolveNames(cols, names)) == [row[at]] + rest;
    }
  }

  lemma ShowsOneMore(rest: Row, names: seq<string>, cols: seq<string>, row: Row, at: int)
    requires names != [] && Shows(rest, names[1..], cols, row) && Refers(cols, names[0], at) && at < |row|
    ensures Shows([row[at]] + rest, names, cols, row)
  {
    var x := [row[at]] + rest;
    forall c | 0 <= c < |names|
      ensures ShowsColumn(x, names, cols, row, c)
    {
      if c > 0 { assert ShowsColumn(rest, names[1..], cols, row, c - 1); }
    }
  }

  /** A row shows one thing. */
  lemma ShowsOne(x: Row, y: Row, names: seq<string>, cols: seq<string>, row: Row)
    requires Shows(x, names, cols, row) && Shows(y, names, cols, row)
    ensures x == y
  {
    forall c | 0 <= c < |names|
      ensures x[c] == y[c]
    {
      assert ShowsColumn(x, names, cols, row, c) && ShowsColumn(y, names, cols, row, c);
    }
  }

  lemma {:induction false} ProjectAt(rows: seq<Row>, n: nat, idx: seq<int>, k: nat)
    requires RowsFit(rows, n) && (forall i :: 0 <= i < |idx| ==> 0 <= idx[i] < n) && k < |rows|
    ensures ProjectRows(rows, n, idx)[k] == ProjectRow(rows[k], idx)
  {
    if k > 0 { ProjectAt(rows[1..], n, idx, k - 1); }
  }

  // ------------------------------------------------------------------ pairs

  /** A join as it is written, against the columns of the joined rows. */
  datatype Statement = Statement(cols: seq<string>, c1: string, c2: string, where: Option<Expr>, names: seq<string>)

  predicate IsStatement(s: Statement) {
    StatementOk(s.cols, s.c1, s.c2, s.where, s.names)
  }

  function PlanOf(s: Statement): (q: Query)
    requires IsStatement(s)
    ensures QueryOk(q) && q.cols == s.cols
  {
    Plan(s.cols, s.c1, s.c2, s.where, s.names)
  }

  /** A pair of rows belongs to the join and shows `x`: the two join columns hold the same value, the pair
      meets the condition, and `x` are the columns selected. */
  ghost predicate PairShows(s: Statement, l: Row, r: Row, x: Row) {
    && (exists p1, p2 :: SameAt(l + r, s.cols, s.c1, s.c2, p1, p2))
    && Meets(s.where, s.cols, l + r) && Shows(x, s.names, s.cols, l + r)
  }

  ghost predicate SameAt(row: Row, cols: seq<string>, c1: string, c2: string, p1: int, p2: int) {
    Refers(cols, c1, p1) && Refers(cols, c2, p2) && p1 < |row| && p2 < |row| && row[p1] == row[p2]
  }

  lemma JoinsMeans(row: Row, cols: seq<string>, c1: string, c2: string)
    requires |row| == |cols| && AllQualified(cols) && Resolve(cols, c1).Found? && Resolve(cols, c2).Found?
    ensures Joins(row, Resolve(cols, c1).at, Resolve(cols, c2).at) <==>
      exists p1, p2 :: SameAt(row, cols, c1, c2, p1, p2)
  {
    var p1, p2 := Resolve(cols, c1).at, Resolve(cols, c2).at;
    ResolveMeans(cols, c1);
    ResolveMeans(cols, c2);
    EqualValues(row[p1], row[p2]);
    assert Refers(cols, c1, p1) && Refers(cols, c2, p2);
    if row[p1] == row[p2] { assert SameAt(row, cols, c1, c2, p1, p2); }
  }

  /** What is needed of two tables of rows to join them. */
  ghost predicate CanJoin(s: Statement, ls: seq<Row>, rs: seq<Row>, ia: Types, ib: Types) {
    && IsStatement(s) && |s.cols| == |ia| + |ib| && AllQualified(s.cols) && TypedRows(ls, ia) && TypedRows(rs, ib)
    && (s.where.Some? ==> WellTyped(s.where.value, s.cols, ia + ib))
  }

  lemma HitMeans(s: Statement, ls: seq<Row>, rs: seq<Row>, ia: Types, ib: Types, i: nat, j: nat, x: Row)
    requires CanJoin(s, ls, rs, ia, ib) && i < |ls| && j < |rs|
    ensures |ls[i]| == |ia| && |rs[j]| == |ib| && |ls[i] + rs[j]| == |s.cols|
    ensures Hit(PlanOf(s), ls[i] + rs[j], x) <==> PairShows(s, ls[i], rs[j], x)
  {
    assert RowTyped(ls[i], ia) && RowTyped(rs[j], ib);
    var row, q := ls[i] + rs[j], PlanOf(s);
    assert RowTyped(row, ia + ib);
    MeetsIff(s.where, s.cols, ia + ib, [row], 0);
    JoinsMeans(row, s.cols, s.c1, s.c2);
    ProjectsTo(row, s.names, s.cols);
    if Shows(x, s.names, s.cols, row) { ShowsOne(x, ProjectRow(row, q.idx), s.names, s.cols, row); }
  }

  /** The pairs of rows of two tables that show `x`. */
  ghost function Pairs(s: Statement, ls: seq<Row>, rs: seq<Row>, x: Row): set<(int, int)> {
    set i, j | 0 <= i < |ls| && 0 <= j < |rs| && PairShows(s, ls[i], rs[j], x) :: (i, j)
  }

  /** Those with left row `i` and one of the first `k` right rows. */
  ghost function PairsOf(s: Statement, ls: seq<Row>, i: nat, rs: seq<Row>, k: nat, x: Row): set<(int, int)>
    requires i < |ls| && k <= |rs|
  {
    set j | 0 <= j < k && PairShows(s, ls[i], rs[j], x) :: (i as int, j)
  }

  lemma PairsOfNext(s: Statement, ls: seq<Row>, i: nat, rs: seq<Row>, k: nat, x: Row)
    requires i < |ls| && k < |rs|
    ensures |PairsOf(s, ls, i, rs, k + 1, x)| == |PairsOf(s, ls, i, rs, k, x)| + if PairShows(s, ls[i], rs[k], x)
      then 1 else 0
  {
    var before, after := PairsOf(s, ls, i, rs, k, x), PairsOf(s, ls, i, rs, k + 1, x);
    var here := (i as int, k as int);
    if PairShows(s, ls[i], rs[k], x) {
      SetsAgree(after, before + {here});
    } else {
      SetsAgree(after, before);
    }
  }

  lemma SetsAgree(a: set<(int, int)>, b: set<(int, int)>)
    requires forall p :: p in a <==> p in b
    ensures a == b
  {
  }

  lemma PairsNext(s: Statement, ls: seq<Row>, i: nat, rs: seq<Row>, x: Row)
    requires i < |ls|
    ensures |Pairs(s, ls[..i + 1], rs, x)| == |Pairs(s, ls[..i], rs, x)| + |PairsOf(s, ls, i, rs, |rs|, x)|
  {
    var before, new_ := Pairs(s, ls[..i], rs, x), PairsOf(s, ls, i, rs, |rs|, x);
    assert Pairs(s, ls[..i + 1], rs, x) == before + new_;
    assert before !! new_;
  }

  lemma {:induction false} HitsConcat(q: Query, o: Row, a: seq<Row>, b: seq<Row>, n: nat, x: Row)
    requires QueryOk(q) && RowsFit(a, n) && RowsFit(b, n) && |o| + n == |q.cols|
    ensures RowsFit(a + b, n) && Hits(q, o, a + b, n, x) == Hits(q, o, a, n, x) + Hits(q, o, b, n, x)
  {
    if a == [] {
      assert a + b == b;
    } else {
      assert (a + b)[1..] == a[1..] + b;
      HitsConcat(q, o, a[1..], b, n, x);
    }
  }

  lemma {:induction false} AllHitsConcat(q: Query, a: seq<Row>, b: seq<Row>, inner: seq<Row>, m: nat, n: nat, x: Row)
    requires QueryOk(q) && RowsFit(a, m) && RowsFit(b, m) && RowsFit(inner, n) && |q.cols| == m + n
    ensures RowsFit(a + b, m)
    ensures AllHits(q, a + b, inner, m, n, x) == AllHits(q, a, inner, m, n, x) + AllHits(q, b, inner, m, n, x)
  {
    if a == [] {
      assert a + b == b;
    } else {
      assert (a + b)[1..] == a[1..] + b;
      AllHitsConcat(q, a[1..], b, inner, m, n, x);
    }
  }

  lemma HitsNext(q: Query, o: Row, rs: seq<Row>, k: nat, n: nat, x: Row)
    requires QueryOk(q) && RowsFit(rs, n) && |o| + n == |q.cols| && k < |rs|
    ensures Hits(q, o, rs[..k + 1], n, x) == Hits(q, o, rs[..k], n, x) + if Hit(q, o + rs[k], x) then 1 else 0
  {
    assert rs[..k + 1] == rs[..k] + [rs[k]];
    HitsConcat(q, o, rs[..k], [rs[k]], n, x);
    assert [rs[k]][1..] == [];
  }

  lemma AllHitsNext(q: Query, ls: seq<Row>, i: nat, rs: seq<Row>, m: nat, n: nat, x: Row)
    requires QueryOk(q) && RowsFit(ls, m) && RowsFit(rs, n) && |q.cols| == m + n && i < |ls|
    ensures AllHits(q, ls[..i + 1], rs, m, n, x) == AllHits(q, ls[..i], rs, m, n, x) + Hits(q, ls[i], rs, n, x)
  {
    assert ls[..i + 1] == ls[..i] + [ls[i]];
    AllHitsConcat(q, ls[..i], [ls[i]], rs, m, n, x);
    assert [ls[i]][1..] == [];
  }

  lemma TypedRowsFit(rows: seq<Row>, ints: Types)
    requires TypedRows(rows, ints)
    ensures RowsFit(rows, |ints|)
  {
    forall i | 0 <= i < |rows|
      ensures |rows[i]| == |ints|
    {
      assert RowTyped(rows[i], ints);
    }
  }

  lemma {:induction false} HitsCountPairs(s: Statement, ls: seq<Row>, i: nat, rs: seq<Row>, k: nat, ia: Types,
    ib: Types, x: Row)
    requires CanJoin(s, ls, rs, ia, ib) && i < |ls| && k <= |rs| && RowsFit(rs, |ib|) && |ls[i]| == |ia|
    ensures Hits(PlanOf(s), ls[i], rs[..k], |ib|, x) == |PairsOf(s, ls, i, rs, k, x)|
  {
    if k > 0 {
      HitsCountPairs(s, ls, i, rs, k - 1, ia, ib, x);
      OnePairMore(s, ls, i, rs, k - 1, ia, ib, x);
    } else {
      assert PairsOf(s, ls, i, rs, 0, x) == {};
    }
  }

  lemma OnePairMore(s: Statement, ls: seq<Row>, i: nat, rs: seq<Row>, k: nat, ia: Types, ib: Types, x: Row)
    requires CanJoin(s, ls, rs, ia, ib) && i < |ls| && k < |rs| && RowsFit(rs, |ib|) && |ls[i]| == |ia|
    ensures Hits(PlanOf(s), ls[i], rs[..k + 1], |ib|, x) - Hits(PlanOf(s), ls[i], rs[..k], |ib|, x)
      == |PairsOf(s, ls, i, rs, k + 1, x)| - |PairsOf(s, ls, i, rs, k, x)|
  {
    HitsNext(PlanOf(s), ls[i], rs, k, |ib|, x);
    HitMeans(s, ls, rs, ia, ib, i, k, x);
    PairsOfNext(s, ls, i, rs, k, x);
  }

  lemma {:induction false} AllHitsCountPairs(s: Statement, ls: seq<Row>, i: nat, rs: seq<Row>, ia: Types, ib: Types,
    x: Row)
    requires CanJoin(s, ls, rs, ia, ib) && i <= |ls| && RowsFit(ls, |ia|) && RowsFit(rs, |ib|)
    ensures AllHits(PlanOf(s), ls[..i], rs, |ia|, |ib|, x) == |Pairs(s, ls[..i], rs, x)|
  {
    if i > 0 {
      AllHitsCountPairs(s, ls, i - 1, rs, ia, ib, x);
      AllHitsNext(PlanOf(s), ls, i - 1, rs, |ia|, |ib|, x);
      HitsCountPairs(s, ls, i - 1, rs, |rs|, ia, ib, x);
      assert rs[..|rs|] == rs;
      PairsNext(s, ls, i - 1, rs, x);
    } else {
      assert Pairs(s, ls[..0], rs, x) == {};
    }
  }

  lemma {:induction false} CountIsMultiplicity(rows: seq<Row>, x: Row)
    ensures CountRow(rows, x) == multiset(rows)[x]
  {
    if rows != [] {
      CountIsMultiplicity(rows[1..], x);
      assert rows == [rows[0]] + rows[1..];
    }
  }

  /** How often a row occurs in the answer of a join is the number of pairs of rows that show it. */
  lemma JoinCountsPairs(s: Statement, ls: seq<Row>, rs: seq<Row>, ia: Types, ib: Types, x: Row)
    requires CanJoin(s, ls, rs, ia, ib)
    ensures RowsFit(ls, |ia|) && RowsFit(rs, |ib|)
    ensures multiset(Answer(PlanOf(s), ls, rs, |ia|, |ib|))[x] == |Pairs(s, ls, rs, x)|
  {
    TypedRowsFit(ls, ia);
    TypedRowsFit(rs, ib);
    AnswerCountsPairs(PlanOf(s), ls, rs, |ia|, |ib|, x);
    AllHitsCountPairs(s, ls, |ls|, rs, ia, ib, x);
    assert ls[..|ls|] == ls;
    CountIsMultiplicity(Answer(PlanOf(s), ls, rs, |ia|, |ib|), x);
  }
}
