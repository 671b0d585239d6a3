/** SELECT and DELETE as the executor runs them: plans are built from operators and drained. */
module SelectQueries {
  import opened WhereParser
  import opened QueryPlans
  import opened JoinPlans
  import opened QueryMeaning
  import opened Operators

  /** What is selected: all columns, the number of rows, or named columns. */
  datatype Shape = Star | Count | Names(names: seq<string>)

  predicate ShapeOk(shape: Shape, cols: seq<string>) {
    shape.Names? ==> forall i :: 0 <= i < |shape.names| ==> Resolve(cols, shape.names[i]).Found?
  }

  /** The result of a query over matching rows. */
  function Shaped(shape: Shape, rows: seq<Row>, cols: seq<string>): seq<Row>
    requires ShapeOk(shape, cols) && RowsFit(rows, |cols|)
  {
    match shape
    case Star => rows
    case Count => [[IntValue(|rows|)]]
    case Names(names) => ProjectRows(rows, |cols|, ResolveNames(cols, names))
  }

  predicate WhereOk(where: Option<Expr>, cols: seq<string>, ints: Types)
    requires |cols| == |ints|
  {
    where.Some? ==> WellTyped(where.value, cols, ints)
  }

  ghost predicate AllTyped(rows: seq<Row>, ints: Types) {
    forall i :: 0 <= i < |rows| ==> RowTyped(rows[i], ints)
  }

  lemma Evaluates(e: Expr, cols: seq<string>, ints: Types, rows: seq<Row>)
    requires |cols| == |ints| && WellTyped(e, cols, ints) && AllTyped(rows, ints)
    ensures EvaluatesOn(e, cols, rows)
  {
    forall i | 0 <= i < |rows|
      ensures HasValueOn(e, cols, rows, i)
    {
      WellTypedEvaluates(e, cols, ints, rows[i]);
    }
  }

  lemma {:induction false} NoFilter(rows: seq<Row>, cols: seq<string>)
    requires RowsFit(rows, |cols|)
    ensures FilterRows(rows, cols, None) == rows
  {
    if rows != [] { NoFilter(rows[1..], cols); }
  }

  /** The filter operator goes on top when there is a predicate. */
  method AddFilter(op0: Operator, where: Option<Expr>, ghost ints: Types) returns (op: Operator)
    requires op0.Built() && |op0.columns| == |ints| && WhereOk(where, op0.columns, ints) && AllTyped(op0.meaning, ints)
    ensures op.Built() && fresh(op.Repr - op0.Repr) && op.columns == op0.columns
    ensures RowsFit(op0.meaning, |op0.columns|) && op.meaning == FilterRows(op0.meaning, op0.columns, where)
  {
    if where.Some? {
      Evaluates(where.value, op0.columns, ints, op0.meaning);
      op := new Operator.FilterOf(op0, where.value);
    } else {
      NoFilter(op0.meaning, op0.columns);
      op := op0;
    }
  }

  /** The scan of one table with its filter, for either outcome of the cost comparison. */
  method BuildFiltered(t: Table, where: Option<Expr>, cheaper: bool) returns (op: Operator)
    requires TableOk(t) && WhereOk(where, QualifiedCols(t), t.ints)
    ensures op.Built() && fresh(op.Repr) && op.columns == QualifiedCols(t)
    ensures RowsFit(SeqRows(t.heap), |t.names|) && op.meaning == FilterRows(SeqRows(t.heap), QualifiedCols(t), where)
  {
    ScanChoiceDoesNotMatter(t, where, cheaper);
    var scan := ChosenScan(t, ChooseScan(t, where, cheaper));
    op := AddFilter(scan, where, t.ints);
  }

  /** The scan that was chosen. */
  method ChosenScan(t: Table, choice: Option<int>) returns (op: Operator)
    requires TableOk(t)
    ensures op.Built() && fresh(op.Repr) && op.columns == QualifiedCols(t) && AllTyped(op.meaning, t.ints)
    ensures op.meaning == match choice case Some(key) => IndexRows(t, key) case None => SeqRows(t.heap)
  {
    var scan: Scan;
    if choice.Some? {
      IndexRowsFit(t, choice.value);
      scan := new Scan.IndexScan(t, choice.value);
    } else {
      scan := new Scan.SeqScan(t);
    }
    op := new Operator.OfScan(scan);
  }

  method Finish(scan: Operator, shape: Shape) returns (op: Operator)
    requires scan.Built() && ShapeOk(shape, scan.columns)
    ensures op.Built() && fresh(op.Repr - scan.Repr)
    ensures RowsFit(scan.meaning, |scan.columns|) && op.meaning == Shaped(shape, scan.meaning, scan.columns)
  {
    if shape.Star? {
      op := scan;
    } else if shape.Count? {
      op := new Operator.CountOf(scan);
    } else {
      op := new Operator.ProjectOf(scan, shape.names);
    }
  }

  /** The result in terms of the rows at these positions: the rows themselves, their number, or what they
      show under the selected names. */
  ghost predicate ShowsPicked(shape: Shape, at: seq<int>, source: seq<Row>, cols: seq<string>, rows: seq<Row>)
    requires forall k :: 0 <= k < |at| ==> 0 <= at[k] < |source|
  {
    match shape
    case Star => |rows| == |at| && forall k :: 0 <= k < |at| ==> rows[k] == source[at[k]]
    case Count => rows == [[IntValue(|at|)]]
    case Names(names) => |rows| == |at| && forall k :: 0 <= k < |at| ==> Shows(rows[k], names, cols, source[at[k]])
  }

  /** The rows answer the query: they show exactly the rows of the source that meet the condition, in order. */
  ghost predicate Answers(shape: Shape, source: seq<Row>, where: Option<Expr>, cols: seq<string>, rows: seq<Row>) {
    exists at :: Picks(at, source, where, cols) && ShowsPicked(shape, at, source, cols, rows)
  }

  lemma TableCanFilter(t: Table, where: Option<Expr>)
    requires TableOk(t) && WhereOk(where, QualifiedCols(t), t.ints)
    ensures CanFilter(SeqRows(t.heap), where, QualifiedCols(t), t.ints)
  {
    TableIsQualified(t);
    forall i | 0 <= i < |t.heap|
      ensures RowTyped(SeqRows(t.heap)[i], t.ints)
    {
      assert SeqRows(t.heap)[i] == t.heap[i].1;
    }
  }

  lemma ShapedAnswers(t: Table, where: Option<Expr>, shape: Shape)
    requires TableOk(t) && WhereOk(where, QualifiedCols(t), t.ints) && ShapeOk(shape, QualifiedCols(t))
    ensures RowsFit(SeqRows(t.heap), |t.names|)
    ensures Answers(shape, SeqRows(t.heap), where, QualifiedCols(t),
                    Shaped(shape, FilterRows(SeqRows(t.heap), QualifiedCols(t), where), QualifiedCols(t)))
  {
    var source, cols := SeqRows(t.heap), QualifiedCols(t);
    TableCanFilter(t, where);
    var at := FilterPicks(source, where, cols, t.ints);
    var hit := FilterRows(source, cols, where);
    var rows := Shaped(shape, hit, cols);
    if shape.Names? {
      forall k | 0 <= k < |at|
        ensures Shows(rows[k], shape.names, cols, source[at[k]])
      {
        ProjectAt(hit, |cols|, ResolveNames(cols, shape.names), k);
        ProjectsTo(hit[k], shape.names, cols);
      }
    }
    assert ShowsPicked(shape, at, source, cols, rows);
  }

  /** A query over one table returns the rows of the table that meet the condition, in heap order, in
      the selected shape, whatever the cost model decided. */
  method SelectFrom(t: Table, where: Option<Expr>, shape: Shape, cheaper: bool) returns (rows: seq<Row>)
    requires TableOk(t) && WhereOk(where, QualifiedCols(t), t.ints) && ShapeOk(shape, QualifiedCols(t))
    ensures RowsFit(SeqRows(t.heap), |t.names|)
    ensures rows == Shaped(shape, FilterRows(SeqRows(t.heap), QualifiedCols(t), where), QualifiedCols(t))
    ensures Answers(shape, SeqRows(t.heap), where, QualifiedCols(t), rows)
  {
    ShapedAnswers(t, where, shape);
    var scan := BuildFiltered(t, where, cheaper);
    var op := Finish(scan, shape);
    rows := op.Drain();
  }

  // ------------------------------------------------------------------ joins

  predicate JoinOk(a: Table, b: Table, c1: string, c2: string, where: Option<Expr>, names: seq<string>)
    requires |a.names| == |a.ints| && |b.names| == |b.ints|
  {
    var cols, ints := QualifiedCols(a) + QualifiedCols(b), a.ints + b.ints;
    && StatementOk(cols, c1, c2, where, names) && WhereOk(where, cols, ints)
    && ints[Resolve(cols, c1).at] == ints[Resolve(cols, c2).at]
  }

  lemma {:induction false} TypedResolves(e: Expr, cols: seq<string>, ints: Types)
    requires |cols| == |ints| && WellTyped(e, cols, ints)
    ensures Resolves(e, cols)
  {
    if !e.Cmp? {
      TypedResolves(e.left, cols, ints);
      TypedResolves(e.right, cols, ints);
    }
  }

  lemma {:induction false} SwapTyped(a: seq<string>, b: seq<string>, ia: Types, ib: Types, e: Expr)
    requires |a| == |ia| && |b| == |ib| && WellTyped(e, a + b, ia + ib)
    ensures WellTyped(e, b + a, ib + ia)
  {
    if e.Cmp? {
      SwapResolves(a, b, e.col);
    } else {
      SwapTyped(a, b, ia, ib, e.left);
      SwapTyped(a, b, ia, ib, e.right);
    }
  }

  lemma SwapJoinOk(a: Table, b: Table, c1: string, c2: string, where: Option<Expr>, names: seq<string>)
    requires |a.names| == |a.ints| && |b.names| == |b.ints| && JoinOk(a, b, c1, c2, where, names)
    ensures JoinOk(b, a, c1, c2, where, names)
  {
    SwapStatement(QualifiedCols(a), QualifiedCols(b), c1, c2, where, names);
    if where.Some? { SwapTyped(QualifiedCols(a), QualifiedCols(b), a.ints, b.ints, where.value); }
  }

  lemma PairTyped(o: Row, r: Row, ia: Types, ib: Types, p1: int, p2: int)
    requires RowTyped(o, ia) && RowTyped(r, ib) && 0 <= p1 < |ia| + |ib| && 0 <= p2 < |ia| + |ib|
    ensures RowTyped(o + r, ia + ib)
    ensures (ia + ib)[p1] == (ia + ib)[p2] ==> SameType((o + r)[p1], (o + r)[p2])
  {
  }

  lemma {:induction false} MatchTyped(o: Row, inner: seq<Row>, ia: Types, ib: Types, p1: int, p2: int)
    requires RowTyped(o, ia) && AllTyped(inner, ib) && 0 <= p1 < |ia| + |ib| && 0 <= p2 < |ia| + |ib|
    ensures RowsFit(inner, |ib|) && AllTyped(MatchInner(o, inner, |ib|, p1, p2), ia + ib)
  {
    if inner != [] {
      MatchTyped(o, inner[1..], ia, ib, p1, p2);
      PairTyped(o, inner[0], ia, ib, p1, p2);
    }
  }

  lemma {:induction false} JoinRowsTyped(outer: seq<Row>, inner: seq<Row>, ia: Types, ib: Types, p1: int, p2: int)
    requires AllTyped(outer, ia) && AllTyped(inner, ib) && 0 <= p1 < |ia| + |ib| && 0 <= p2 < |ia| + |ib|
    ensures RowsFit(outer, |ia|) && RowsFit(inner, |ib|)
      && AllTyped(JoinRows(outer, inner, |ia|, |ib|, p1, p2), ia + ib)
  {
    if outer != [] {
      JoinRowsTyped(outer[1..], inner, ia, ib, p1, p2);
      MatchTyped(outer[0], inner, ia, ib, p1, p2);
    }
  }

  /** Joined rows of typed rows are typed, and their join columns can be compared. */
  lemma JoinTyped(outer: seq<Row>, inner: seq<Row>, ia: Types, ib: Types, p1: int, p2: int)
    requires AllTyped(outer, ia) && AllTyped(inner, ib)
    requires 0 <= p1 < |ia| + |ib| && 0 <= p2 < |ia| + |ib| && (ia + ib)[p1] == (ia + ib)[p2]
    ensures ComparableOn(outer, inner, |ia|, |ib|, p1, p2)
    ensures AllTyped(JoinRows(outer, inner, |ia|, |ib|, p1, p2), ia + ib)
  {
    JoinRowsTyped(outer, inner, ia, ib, p1, p2);
    forall i | 0 <= i < |outer|
      ensures ComparableWith(outer[i], inner, p1, p2)
    {
      forall j | 0 <= j < |inner|
        ensures ComparablePair(outer[i], inner[j], p1, p2)
      {
        PairTyped(outer[i], inner[j], ia, ib, p1, p2);
      }
    }
  }

  /** What a join over two tables relies on. */
  lemma JoinReady(outer: Table, inner: Table, c1: string, c2: string, where: Option<Expr>, names: seq<string>)
    requires TableOk(outer) && TableOk(inner) && JoinOk(outer, inner, c1, c2, where, names)
    ensures RowsFit(SeqRows(outer.heap), |outer.names|) && RowsFit(SeqRows(inner.heap), |inner.names|)
    ensures var cols := QualifiedCols(outer) + QualifiedCols(inner);
            && Resolve(cols, c1).Found? && Resolve(cols, c2).Found?
            && var p1, p2 := Resolve(cols, c1).at, Resolve(cols, c2).at;
               ComparableOn(SeqRows(outer.heap), SeqRows(inner.heap), |outer.names|, |inner.names|, p1, p2)
               && AllTyped(JoinRows(SeqRows(outer.heap), SeqRows(inner.heap), |outer.names|, |inner.names|, p1, p2),
                           outer.ints + inner.ints)
  {
    IndexRowsFit(outer, 0);
    IndexRowsFit(inner, 0);
    var cols := QualifiedCols(outer) + QualifiedCols(inner);
    JoinTyped(SeqRows(outer.heap), SeqRows(inner.heap), outer.ints, inner.ints, Resolve(cols, c1).at,
      Resolve(cols, c2).at);
  }

  /** The join operator over two sequential scans. */
  method BuildJoin(outer: Table, inner: Table, c1: string, c2: string, where: Option<Expr>, ghost names: seq<string>)
    returns (op: Operator)
    requires TableOk(outer) && TableOk(inner) && JoinOk(outer, inner, c1, c2, where, names)
    ensures op.Built() && fresh(op.Repr) && op.columns == QualifiedCols(outer) + QualifiedCols(inner)
    ensures RowsFit(SeqRows(outer.heap), |outer.names|) && RowsFit(SeqRows(inner.heap), |inner.names|)
    ensures op.meaning == JoinRows(SeqRows(outer.heap), SeqRows(inner.heap), |outer.names|, |inner.names|,
                                   Resolve(op.columns, c1).at, Resolve(op.columns, c2).at)
    ensures AllTyped(op.meaning, outer.ints + inner.ints)
  {
    JoinReady(outer, inner, c1, c2, where, names);
    var join := JoinScans(outer, inner, c1, c2);
    op := OverJoin(join);
  }

  method OverJoin(join: NestedLoopJoin) returns (op: Operator)
    requires join.Built()
    ensures op.Built() && fresh(op.Repr - {join, join.outer, join.inner})
    ensures op.columns == join.columns && op.meaning == join.meaning
  {
    op := new Operator.OfJoin(join);
  }

  method JoinScans(outer: Table, inner: Table, c1: string, c2: string) returns (join: NestedLoopJoin)
    requires TableOk(outer) && TableOk(inner)
    requires RowsFit(SeqRows(outer.heap), |outer.names|) && RowsFit(SeqRows(inner.heap), |inner.names|)
    requires var cols := QualifiedCols(outer) + QualifiedCols(inner);
             && Resolve(cols, c1).Found? && Resolve(cols, c2).Found?
             && ComparableOn(SeqRows(outer.heap), SeqRows(inner.heap), |outer.names|, |inner.names|,
                             Resolve(cols, c1).at, Resolve(cols, c2).at)
    ensures join.Built() && fresh(join) && fresh(join.outer) && fresh(join.inner)
    ensures join.columns == QualifiedCols(outer) + QualifiedCols(inner)
    ensures join.meaning == JoinRows(SeqRows(outer.heap), SeqRows(inner.heap), |outer.names|, |inner.names|,
                                     Resolve(join.columns, c1).at, Resolve(join.columns, c2).at)
  {
    var left := new Scan.SeqScan(outer);
    var right := new Scan.SeqScan(inner);
    join := new NestedLoopJoin(left, right, c1, c2);
  }

  /** Join and filter. */
  method BuildMatching(outer: Table, inner: Table, c1: string, c2: string, where: Option<Expr>,
    ghost names: seq<string>) returns (op: Operator)
    requires TableOk(outer) && TableOk(inner) && JoinOk(outer, inner, c1, c2, where, names)
    ensures op.Built() && fresh(op.Repr) && op.columns == QualifiedCols(outer) + QualifiedCols(inner)
    ensures RowsFit(SeqRows(outer.heap), |outer.names|) && RowsFit(SeqRows(inner.heap), |inner.names|)
    ensures op.meaning == Matching(Plan(QualifiedCols(outer) + QualifiedCols(inner), c1, c2, where, names),
                                   SeqRows(outer.heap), SeqRows(inner.heap), |outer.names|, |inner.names|)
  {
    var join := BuildJoin(outer, inner, c1, c2, where, names);
    op := AddFilter(join, where, outer.ints + inner.ints);
  }

  /** The list meaning of a join query with `outer` and `inner` in these roles. */
  function JoinAnswer(outer: Table, inner: Table, c1: string, c2: string, where: Option<Expr>,
    names: seq<string>): seq<Row>
    requires |outer.names| == |outer.ints| && |inner.names| == |inner.ints|
      && JoinOk(outer, inner, c1, c2, where, names)
    requires RowsFit(SeqRows(outer.heap), |outer.names|) && RowsFit(SeqRows(inner.heap), |inner.names|)
  {
    Answer(Plan(QualifiedCols(outer) + QualifiedCols(inner), c1, c2, where, names),
           SeqRows(outer.heap), SeqRows(inner.heap), |outer.names|, |inner.names|)
  }

  lemma AnswerIsProjection(outer: Table, inner: Table, c1: string, c2: string, where: Option<Expr>, names: seq<string>)
    requires |outer.names| == |outer.ints| && |inner.names| == |inner.ints|
      && JoinOk(outer, inner, c1, c2, where, names)
    requires RowsFit(SeqRows(outer.heap), |outer.names|) && RowsFit(SeqRows(inner.heap), |inner.names|)
    ensures var cols := QualifiedCols(outer) + QualifiedCols(inner);
            var matching := Matching(Plan(cols, c1, c2, where, names), SeqRows(outer.heap), SeqRows(inner.heap),
              |outer.names|, |inner.names|);
            && |cols| == |outer.names| + |inner.names|
              && (forall k :: 0 <= k < |names| ==> Resolve(cols, names[k]).Found?)
            && JoinAnswer(outer, inner, c1, c2, where, names)
              == ProjectRows(matching, |cols|, ResolveNames(cols, names))
  {
    AnswerOfPlan(QualifiedCols(outer) + QualifiedCols(inner), c1, c2, where, names, SeqRows(outer.heap),
      SeqRows(inner.heap),
                 |outer.names|, |inner.names|);
  }

  /** A join with `outer` and `inner` in these roles. */
  method RunJoin(outer: Table, inner: Table, c1: string, c2: string, where: Option<Expr>, names: seq<string>)
    returns (rows: seq<Row>)
    requires TableOk(outer) && TableOk(inner) && JoinOk(outer, inner, c1, c2, where, names)
    ensures RowsFit(SeqRows(outer.heap), |outer.names|) && RowsFit(SeqRows(inner.heap), |inner.names|)
    ensures rows == JoinAnswer(outer, inner, c1, c2, where, names)
  {
    var matching := BuildMatching(outer, inner, c1, c2, where, names);
    AnswerIsProjection(outer, inner, c1, c2, where, names);
    var op := new Operator.ProjectOf(matching, names);
    rows := op.Drain();
  }

  lemma JoinedColumns(t: Table, r: Table)
    requires TableOk(t) && TableOk(r)
    ensures AllQualified(QualifiedCols(t) + QualifiedCols(r))
    ensures TypedRows(SeqRows(t.heap), t.ints) && TypedRows(SeqRows(r.heap), r.ints)
  {
    TableIsQualified(t);
    TableIsQualified(r);
    TableCanFilter(t, None);
    TableCanFilter(r, None);
  }

  /** The statement as it was written. */
  function Written(t: Table, r: Table, c1: string, c2: string, where: Option<Expr>, names: seq<string>): Statement {
    Statement(QualifiedCols(t) + QualifiedCols(r), c1, c2, where, names)
  }

  lemma JoinAnswerPairs(t: Table, r: Table, c1: string, c2: string, where: Option<Expr>, names: seq<string>, x: Row)
    requires TableOk(t) && TableOk(r) && JoinOk(t, r, c1, c2, where, names)
    ensures RowsFit(SeqRows(t.heap), |t.names|) && RowsFit(SeqRows(r.heap), |r.names|)
    ensures CountRow(JoinAnswer(t, r, c1, c2, where, names), x)
      == |Pairs(Written(t, r, c1, c2, where, names), SeqRows(t.heap), SeqRows(r.heap), x)|
  {
    var s := Written(t, r, c1, c2, where, names);
    JoinedColumns(t, r);
    JoinCountsPairs(s, SeqRows(t.heap), SeqRows(r.heap), t.ints, r.ints, x);
    CountIsMultiplicity(JoinAnswer(t, r, c1, c2, where, names), x);
  }

  /** A join query: the smaller table becomes the inner one. Every row occurs in the result as often as
      there are pairs of rows that agree on the join columns, meet the condition and show it. */
  method SelectJoin(t: Table, r: Table, c1: string, c2: string, where: Option<Expr>, names: seq<string>)
    returns (rows: seq<Row>)
    requires TableOk(t) && TableOk(r) && JoinOk(t, r, c1, c2, where, names)
    ensures RowsFit(SeqRows(t.heap), |t.names|) && RowsFit(SeqRows(r.heap), |r.names|)
    ensures forall x :: CountRow(rows, x) == CountRow(JoinAnswer(t, r, c1, c2, where, names), x)
    ensures forall x ::
      multiset(rows)[x] == |Pairs(Written(t, r, c1, c2, where, names), SeqRows(t.heap), SeqRows(r.heap), x)|
  {
    IndexRowsFit(t, 0);
    IndexRowsFit(r, 0);
    if RightIsInner(t, r) {
      rows := RunJoin(t, r, c1, c2, where, names);
    } else {
      SwapJoinOk(t, r, c1, c2, where, names);
      rows := RunJoin(r, t, c1, c2, where, names);
      forall x
        ensures CountRow(rows, x) == CountRow(JoinAnswer(t, r, c1, c2, where, names), x)
      {
        JoinOrderDoesNotMatter(QualifiedCols(t), QualifiedCols(r), SeqRows(t.heap), SeqRows(r.heap), c1, c2, where,
          names, x);
      }
    }
    forall x
      ensures multiset(rows)[x] == |Pairs(Written(t, r, c1, c2, where, names), SeqRows(t.heap), SeqRows(r.heap), x)|
    {
      JoinAnswerPairs(t, r, c1, c2, where, names, x);
      CountIsMultiplicity(rows, x);
    }
  }

  // ------------------------------------------------------------------ deletion

  /** The keys of some rows, in order. */
  function KeysOf(rows: seq<Row>): (keys: seq<int>)
    requires forall i :: 0 <= i < |rows| ==> |rows[i]| > 0 && rows[i][0].IntValue?
    ensures |keys| == |rows| && forall i :: 0 <= i < |rows| ==> keys[i] == rows[i][0].i
  {
    seq(|rows|, i requires 0 <= i < |rows| => rows[i][0].i)
  }

  ghost predicate Keyed(rows: seq<Row>) {
    forall i :: 0 <= i < |rows| ==> |rows[i]| > 0 && rows[i][0].IntValue?
  }

  lemma {:induction false} FilterKeeps(rows: seq<Row>, cols: seq<string>, e: Option<Expr>, row: Row)
    requires RowsFit(rows, |cols|)
    ensures row in FilterRows(rows, cols, e) <==> row in rows && (e.Some? ==> Satisfies(row, cols, e.value))
  {
    if rows != [] {
      FilterKeeps(rows[1..], cols, e, row);
      assert row in rows <==> row == rows[0] || row in rows[1..];
    }
  }

  /** The keys DELETE collects, before it changes anything, for either outcome of the cost comparison. */
  method CollectKeys(t: Table, where: Option<Expr>, cheaper: bool) returns (keys: seq<int>)
    requires TableOk(t) && WhereOk(where, QualifiedCols(t), t.ints)
    ensures RowsFit(SeqRows(t.heap), |t.names|)
    ensures var hit := FilterRows(SeqRows(t.heap), QualifiedCols(t), where); Keyed(hit) && keys == KeysOf(hit)
  {
    IndexRowsFit(t, 0);
    var scan := BuildFiltered(t, where, cheaper);
    HitsAreKeyed(t, where);
    var rows := scan.Drain();
    keys := [];
    var i := 0;
    while i < |rows|
      invariant i <= |rows| && Keyed(rows) && keys == KeysOf(rows)[..i]
    {
      keys := keys + [rows[i][0].i];
      i := i + 1;
    }
  }

  lemma HitsAreKeyed(t: Table, where: Option<Expr>)
    requires TableOk(t) && RowsFit(SeqRows(t.heap), |t.names|)
    ensures Keyed(FilterRows(SeqRows(t.heap), QualifiedCols(t), where))
  {
    var hit: seq<Row> := FilterRows(SeqRows(t.heap), QualifiedCols(t), where);
    forall i | 0 <= i < |hit|
      ensures |hit[i]| > 0 && hit[i][0].IntValue?
    {
      assert hit[i] in hit;
      FilterKeeps(SeqRows(t.heap), QualifiedCols(t), where, hit[i]);
      var j :| 0 <= j < |SeqRows(t.heap)| && SeqRows(t.heap)[j] == hit[i];
      assert RowTyped(t.heap[j].1, t.ints);
    }
  }

  /** Deleting by the collected keys hits exactly the matching rows: the key of a row is collected if and
      only if the row satisfies the predicate. */
  lemma DeletedExactly(t: Table, where: Option<Expr>, i: nat)
    requires TableOk(t) && WhereOk(where, QualifiedCols(t), t.ints) && i < |t.heap|
    ensures RowsFit(SeqRows(t.heap), |t.names|) && Keyed(FilterRows(SeqRows(t.heap), QualifiedCols(t), where))
    ensures t.heap[i].1[0].i in KeysOf(FilterRows(SeqRows(t.heap), QualifiedCols(t), where))
        <==> (where.Some? ==> Satisfies(t.heap[i].1, QualifiedCols(t), where.value))
  {
    IndexRowsFit(t, 0);
    HitsAreKeyed(t, where);
    var rows, cols := SeqRows(t.heap), QualifiedCols(t);
    var hit := FilterRows(rows, cols, where);
    var row := t.heap[i].1;
    assert rows[i] == row;
    FilterKeeps(rows, cols, where, row);
    if row in hit {
      var k :| 0 <= k < |hit| && hit[k] == row;
      assert KeysOf(hit)[k] == row[0].i;
    }
    if row[0].i in KeysOf(hit) {
      var k :| 0 <= k < |hit| && KeysOf(hit)[k] == row[0].i;
      assert hit[k] in hit;
      FilterKeeps(rows, cols, where, hit[k]);
      var j :| 0 <= j < |rows| && rows[j] == hit[k];
      assert t.index[t.heap[j].1[0].i] == t.heap[j].0;
      assert j == i;
    }
  }

  // ------------------------------------------------------------------ the deletions themselves

  predicate DistinctlyKeyed(rows: seq<Row>)
    requires forall i :: 0 <= i < |rows| ==> |rows[i]| > 0 && rows[i][0].IntValue?
  {
    forall i, j :: 0 <= i < j < |rows| ==> rows[i][0].i != rows[j][0].i
  }

  lemma {:induction false} FilterKeepsDistinct(rows: seq<Row>, cols: seq<string>, e: Option<Expr>)
    requires RowsFit(rows, |cols|) && Keyed(rows) && DistinctlyKeyed(rows)
    ensures Keyed(FilterRows(rows, cols, e)) && DistinctlyKeyed(FilterRows(rows, cols, e))
  {
    if rows != [] {
      FilterKeepsDistinct(rows[1..], cols, e);
      var rest: seq<Row> := FilterRows(rows[1..], cols, e);
      forall j | 0 <= j < |rest|
        ensures rows[0][0].i != rest[j][0].i
      {
        assert rest[j] in rest;
        FilterKeeps(rows[1..], cols, e, rest[j]);
        var m :| 0 <= m < |rows[1..]| && rows[1..][m] == rest[j];
        assert rows[m + 1] == rest[j];
      }
    }
  }

  /** The rows of a table by key. */
  ghost function RowMap(t: Table): map<int, Row>
    requires TableOk(t)
  {
    map k | k in t.index :: RowAt(t, k)
  }

  ghost function RowAt(t: Table, k: int): Row
    requires TableOk(t) && k in t.index
  {
    var i :| InHeap(t, k, i);
    t.heap[i].1
  }

  predicate Matched(t: Table, where: Option<Expr>, row: Row)
    requires |row| == |t.names|
  {
    where.Some? ==> Satisfies(row, QualifiedCols(t), where.value)
  }

  /** The rows that a DELETE leaves. */
  ghost function Remaining(t: Table, where: Option<Expr>): map<int, Row>
    requires TableOk(t)
  {
    map k | k in RowMap(t) && |RowMap(t)[k]| == |t.names| && !Matched(t, where, RowMap(t)[k]) :: RowMap(t)[k]
  }

  lemma RowAtIs(t: Table, k: int, i: nat)
    requires TableOk(t) && i < |t.heap| && |t.heap[i].1| > 0 && t.heap[i].1[0] == IntValue(k)
    ensures k in RowMap(t) && RowMap(t)[k] == t.heap[i].1 && |t.heap[i].1| == |t.names|
  {
    assert RowTyped(t.heap[i].1, t.ints);
    var j :| InHeap(t, k, j) && RowAt(t, k) == t.heap[j].1;
    assert t.heap[i].0 == t.heap[j].0;
  }

  /** The collected keys are keys of the table, each once, and those of the matching rows. */
  lemma CollectedKeys(t: Table, where: Option<Expr>)
    requires TableOk(t) && WhereOk(where, QualifiedCols(t), t.ints)
    ensures RowsFit(SeqRows(t.heap), |t.names|) && Keyed(FilterRows(SeqRows(t.heap), QualifiedCols(t), where))
    ensures var hit := FilterRows(SeqRows(t.heap), QualifiedCols(t), where);
            && DistinctlyKeyed(hit)
            && forall k :: k in KeysOf(hit) <==>
                 k in RowMap(t) && |RowMap(t)[k]| == |t.names| && Matched(t, where, RowMap(t)[k])
  {
    IndexRowsFit(t, 0);
    var rows := SeqRows(t.heap);
    HeapIsDistinct(t);
    FilterKeepsDistinct(rows, QualifiedCols(t), where);
    var hit := FilterRows(rows, QualifiedCols(t), where);
    forall k
      ensures k in KeysOf(hit) <==> k in RowMap(t) && |RowMap(t)[k]| == |t.names| && Matched(t, where, RowMap(t)[k])
    {
      if k in KeysOf(hit) {
        var m :| 0 <= m < |hit| && KeysOf(hit)[m] == k;
        assert hit[m] in hit;
        FilterKeeps(rows, QualifiedCols(t), where, hit[m]);
        var i :| 0 <= i < |rows| && rows[i] == hit[m];
        RowAtIs(t, k, i);
      }
      if k in RowMap(t) {
        var i :| InHeap(t, k, i) && RowAt(t, k) == t.heap[i].1;
        DeletedExactly(t, where, i);
      }
    }
  }

  lemma HeapIsDistinct(t: Table)
    requires TableOk(t)
    ensures Keyed(SeqRows(t.heap)) && DistinctlyKeyed(SeqRows(t.heap))
  {
    var rows: seq<Row> := SeqRows(t.heap);
    forall i | 0 <= i < |rows|
      ensures |rows[i]| > 0 && rows[i][0].IntValue?
    {
      assert RowTyped(t.heap[i].1, t.ints);
    }
    forall i, j | 0 <= i < j < |rows|
      ensures rows[i][0].i != rows[j][0].i
    {
      assert t.index[t.heap[i].1[0].i] == t.heap[i].0 && t.index[t.heap[j].1[0].i] == t.heap[j].0;
    }
  }

  /** The rows whose keys were not collected remain. */
  lemma WhatRemains(t: Table, where: Option<Expr>, keys: seq<int>)
    requires TableOk(t)
    requires forall k :: k in keys <==> k in RowMap(t) && |RowMap(t)[k]| == |t.names| && Matched(t, where, RowMap(t)[k])
    ensures forall k :: k in Remaining(t, where) <==> k in RowMap(t) && k !in keys
  {
    forall k | k in RowMap(t)
      ensures |RowMap(t)[k]| == |t.names|
    {
      var i :| InHeap(t, k, i) && RowAt(t, k) == t.heap[i].1;
      assert RowTyped(t.heap[i].1, t.ints);
    }
  }

  /** What DELETE does, in terms of the rows of the heap: the key of a row remains if and only if the row does
      not meet the condition, and as many are collected as do. */
  lemma DeleteMeans(t: Table, where: Option<Expr>)
    requires TableOk(t) && WhereOk(where, QualifiedCols(t), t.ints)
    ensures forall i :: 0 <= i < |t.heap| ==>
      |t.heap[i].1| > 0 && t.heap[i].1[0].IntValue?
      && (t.heap[i].1[0].i in Remaining(t, where) <==> !Meets(where, QualifiedCols(t), t.heap[i].1))
    ensures RowsFit(SeqRows(t.heap), |t.names|)
    ensures exists at :: Picks(at, SeqRows(t.heap), where, QualifiedCols(t))
                      && |FilterRows(SeqRows(t.heap), QualifiedCols(t), where)| == |at|
  {
    TableCanFilter(t, where);
    var at := FilterPicks(SeqRows(t.heap), where, QualifiedCols(t), t.ints);
    forall i | 0 <= i < |t.heap|
      ensures |t.heap[i].1| > 0 && t.heap[i].1[0].IntValue?
      ensures t.heap[i].1[0].i in Remaining(t, where) <==> !Meets(where, QualifiedCols(t), t.heap[i].1)
    {
      assert RowTyped(t.heap[i].1, t.ints);
      RowAtIs(t, t.heap[i].1[0].i, i);
      assert SeqRows(t.heap)[i] == t.heap[i].1;
      MeetsIff(where, QualifiedCols(t), t.ints, SeqRows(t.heap), i);
    }
  }
}
