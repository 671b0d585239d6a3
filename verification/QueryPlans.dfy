/** Evaluation of WHERE expressions, the optimizer's choices, and the pull operators: each operator
    yields exactly its list meaning, and no choice of plan changes an answer. */
module QueryPlans {
  import opened WhereParser

  type Row = seq<Value>
  type RowId = int
  datatype Option<T> = None | Some(value: T)

  // ------------------------------------------------------------------ columns

  /** The name behind the first dot, or all of it. */
  function Tail(c: string): string {
    if '.' !in c then c else AfterDot(c)
  }

  function AfterDot(c: string): string {
    if c == "" then "" else if c[0] == '.' then c[1..] else AfterDot(c[1..])
  }

  predicate ColMatches(col: string, name: string) {
    if '.' in name then col == name else Tail(col) == name
  }

  datatype Resolution = Found(at: int) | Ambiguous | Unknown

  /** The columns from `i` on that a name may mean. */
  function Candidates(cols: seq<string>, name: string, i: nat): (s: seq<int>)
    requires i <= |cols|
    ensures forall k :: 0 <= k < |s| ==> i <= s[k] < |cols|
    decreases |cols| - i
  {
    if i == |cols| then []
    else if ColMatches(cols[i], name) then [i] + Candidates(cols, name, i + 1)
    else Candidates(cols, name, i + 1)
  }

  function Resolve(cols: seq<string>, name: string): (r: Resolution)
    ensures r.Found? ==> 0 <= r.at < |cols|
  {
    var s := Candidates(cols, name, 0);
    if |s| == 0 then Unknown else if |s| == 1 then Found(s[0]) else Ambiguous
  }

  method ResolveCol(cols: seq<string>, name: string) returns (r: Resolution)
    ensures r == Resolve(cols, name)
  {
    var qualified := '.' in name;
    var found := -1;
    var i := 0;
    while i < |cols|
      invariant i <= |cols| && -1 <= found < i
      invariant found == -1 ==> Candidates(cols, name, 0) == Candidates(cols, name, i)
      invariant found != -1 ==> Candidates(cols, name, 0) == [found] + Candidates(cols, name, i)
    {
      var match_ := if qualified then cols[i] == name else Tail(cols[i]) == name;
      if match_ {
        if found != -1 { return Ambiguous; }
        found := i;
      }
      i := i + 1;
    }
    r := if found == -1 then Unknown else Found(found);
  }

  /** `i` is the only column the name can mean. */
  ghost predicate OnlyMatch(cols: seq<string>, name: string, i: int) {
    0 <= i < |cols| && ColMatches(cols[i], name) && forall j :: 0 <= j < |cols| && ColMatches(cols[j], name) ==> j == i
  }

  lemma {:induction false} CandidateMatches(cols: seq<string>, name: string, i: nat, k: nat)
    requires i <= |cols| && k < |Candidates(cols, name, i)|
    ensures ColMatches(cols[Candidates(cols, name, i)[k]], name)
    decreases |cols| - i
  {
    if ColMatches(cols[i], name) {
      if k > 0 { CandidateMatches(cols, name, i + 1, k - 1); }
    } else {
      CandidateMatches(cols, name, i + 1, k);
    }
  }

  lemma {:induction false} MatchIsCandidate(cols: seq<string>, name: string, i: nat, j: nat) returns (k: nat)
    requires i <= j < |cols| && ColMatches(cols[j], name)
    ensures k < |Candidates(cols, name, i)| && Candidates(cols, name, i)[k] == j
    decreases |cols| - i
  {
    if i == j {
      k := 0;
    } else {
      k := MatchIsCandidate(cols, name, i + 1, j);
      if ColMatches(cols[i], name) { k := k + 1; }
    }
  }

  /** Resolution finds exactly the column that alone can be meant. */
  lemma ResolveIsUnique(cols: seq<string>, name: string)
    ensures Resolve(cols, name).Found? <==> exists i :: OnlyMatch(cols, name, i)
    ensures Resolve(cols, name).Found? ==> OnlyMatch(cols, name, Resolve(cols, name).at)
  {
    var s := Candidates(cols, name, 0);
    if |s| == 1 {
      CandidateMatches(cols, name, 0, 0);
      forall j | 0 <= j < |cols| && ColMatches(cols[j], name)
        ensures j == s[0]
      {
        var k := MatchIsCandidate(cols, name, 0, j);
      }
      assert OnlyMatch(cols, name, s[0]);
    }
    if exists i :: OnlyMatch(cols, name, i) {
      var i :| OnlyMatch(cols, name, i);
      OneCandidate(cols, name, i);
    }
  }

  lemma OneCandidate(cols: seq<string>, name: string, i: int)
    requires OnlyMatch(cols, name, i)
    ensures |Candidates(cols, name, 0)| == 1 && Candidates(cols, name, 0)[0] == i
  {
    var s := Candidates(cols, name, 0);
    var k := MatchIsCandidate(cols, name, 0, i);
    forall x | 0 <= x < |s|
      ensures s[x] == i
    {
      CandidateMatches(cols, name, 0, x);
    }
    CandidatesAscend(cols, name, 0);
  }

  lemma {:induction false} CandidatesAscend(cols: seq<string>, name: string, i: nat)
    requires i <= |cols|
    ensures |Candidates(cols, name, i)| > 1 ==> Candidates(cols, name, i)[0] < Candidates(cols, name, i)[1]
    decreases |cols| - i
  {
    if i < |cols| {
      CandidatesAscend(cols, name, i + 1);
      if ColMatches(cols[i], name) && |Candidates(cols, name, i + 1)| > 0 {
        assert Candidates(cols, name, i)[1] == Candidates(cols, name, i + 1)[0];
      }
    }
  }

  lemma ResolvesTo(cols: seq<string>, name: string, i: nat)
    requires OnlyMatch(cols, name, i)
    ensures Resolve(cols, name) == Found(i)
  {
    ResolveIsUnique(cols, name);
  }

  // ------------------------------------------------------------------ evaluation

  function CompareText(a: string, b: string): int {
    if a == [] then (if b == [] then 0 else -1)
    else if b == [] then 1
    else if a[0] < b[0] then -1 else if a[0] > b[0] then 1 else CompareText(a[1..], b[1..])
  }

  predicate SameType(a: Value, b: Value) {
    a.IntValue? == b.IntValue?
  }

  /** Three-way comparison; comparing across types throws. */
  function Compare3(a: Value, b: Value): Option<int> {
    if !SameType(a, b) then None
    else if a.IntValue? then Some(if a.i < b.i then -1 else if a.i > b.i then 1 else 0)
    else Some(CompareText(a.s, b.s))
  }

  lemma {:induction false} EqualTexts(a: string, b: string)
    ensures CompareText(a, b) == 0 <==> a == b
  {
    if a != [] && b != [] {
      EqualTexts(a[1..], b[1..]);
      assert a == [a[0]] + a[1..] && b == [b[0]] + b[1..];
    }
  }

  lemma EqualValues(a: Value, b: Value)
    ensures Compare3(a, b) == Some(0) <==> a == b
  {
    if a.TextValue? && b.TextValue? { EqualTexts(a.s, b.s); }
  }

  predicate OpHolds(op: Op, c: int) {
    match op
    case EQ => c == 0
    case NE => c != 0
    case LT => c < 0
    case LE => c <= 0
    case GT => c > 0
    case GE => c >= 0
  }

  /** The value of a WHERE expression on a row, with the short cuts of AND and OR; nothing when it
      throws. A missing expression holds. */
  function EvalExpr(e: Expr, cols: seq<string>, row: Row): Option<bool>
    requires |row| == |cols|
  {
    match e
    case And(l, r) =>
      (match EvalExpr(l, cols, row) case Some(true) => EvalExpr(r, cols, row) case other => other)
    case Or(l, r) =>
      (match EvalExpr(l, cols, row) case Some(false) => EvalExpr(r, cols, row) case other => other)
    case Cmp(col, op, val) =>
      match Resolve(cols, col)
      case Found(i) => (match Compare3(row[i], val) case None => None case Some(c) => Some(OpHolds(op, c)))
      case _ => None
  }

  /** The types of a table's columns. */
  type Types = seq<bool>

  predicate RowTyped(row: Row, ints: Types) {
    |row| == |ints| && forall i :: 0 <= i < |row| ==> row[i].IntValue? == ints[i]
  }

  /** Every column of the expression resolves, and its literal has the type of the column. */
  predicate WellTyped(e: Expr, cols: seq<string>, ints: Types)
    requires |cols| == |ints|
  {
    match e
    case And(l, r) => WellTyped(l, cols, ints) && WellTyped(r, cols, ints)
    case Or(l, r) => WellTyped(l, cols, ints) && WellTyped(r, cols, ints)
    case Cmp(col, _, val) =>
      match Resolve(cols, col)
      case Found(i) => ints[i] == val.IntValue?
      case _ => false
  }

  /** What an expression says about a row, once its columns are resolved. */
  predicate Satisfies(row: Row, cols: seq<string>, e: Expr)
    requires |row| == |cols|
  {
    match e
    case And(l, r) => Satisfies(row, cols, l) && Satisfies(row, cols, r)
    case Or(l, r) => Satisfies(row, cols, l) || Satisfies(row, cols, r)
    case Cmp(col, op, val) =>
      match Resolve(cols, col)
      case Found(i) => (match Compare3(row[i], val) case None => false case Some(c) => OpHolds(op, c))
      case _ => false
  }

  /** A well-typed expression never throws on a row of the table, and its value is what it says. */
  lemma {:induction false} WellTypedEvaluates(e: Expr, cols: seq<string>, ints: Types, row: Row)
    requires |cols| == |ints| && RowTyped(row, ints) && WellTyped(e, cols, ints)
    ensures EvalExpr(e, cols, row) == Some(Satisfies(row, cols, e))
  {
    if !e.Cmp? {
      WellTypedEvaluates(e.left, cols, ints, row);
      WellTypedEvaluates(e.right, cols, ints, row);
    }
  }

  // ------------------------------------------------------------------ tables

  /** A table as the executor sees it: the tuples a heap scan lists, and the index from keys to row ids. */
  datatype Table = Table(name: string, names: seq<string>, ints: Types, heap: seq<(RowId, Row)>, index: map<int, RowId>)

  function QualifiedCols(t: Table): (c: seq<string>)
    ensures |c| == |t.names|
  {
    seq(|t.names|, i requires 0 <= i < |t.names| => t.name + "." + t.names[i])
  }

  /** The tuple behind a row id. */
  function HeapGet(heap: seq<(RowId, Row)>, rid: RowId): Option<Row> {
    if heap == [] then None else if heap[0].0 == rid then Some(heap[0].1) else HeapGet(heap[1..], rid)
  }

  /** Rows have the declared types, column 0 is an integer key, and the index matches the heap. */
  ghost predicate TableOk(t: Table) {
    && |t.names| == |t.ints| > 0 && t.ints[0]
    && '.' !in t.name && (forall i :: 0 <= i < |t.names| ==> '.' !in t.names[i])
    && (forall i :: 0 <= i < |t.heap| ==> RowTyped(t.heap[i].1, t.ints))
    && (forall i, j :: 0 <= i < j < |t.heap| ==> t.heap[i].0 != t.heap[j].0)
    && (forall i :: 0 <= i < |t.heap| ==> t.heap[i].1[0].i in t.index && t.index[t.heap[i].1[0].i] == t.heap[i].0)
    && (forall k :: k in t.index ==> exists i :: InHeap(t, k, i))
  }

  ghost predicate InHeap(t: Table, k: int, i: int)
    requires k in t.index
  {
    0 <= i < |t.heap| && t.heap[i].0 == t.index[k] && |t.heap[i].1| > 0 && t.heap[i].1[0] == IntValue(k)
  }

  function SeqRows(heap: seq<(RowId, Row)>): (r: seq<Row>)
    ensures |r| == |heap| && forall i :: 0 <= i < |r| ==> r[i] == heap[i].1
  {
    seq(|heap|, i requires 0 <= i < |heap| => heap[i].1)
  }

  /** What an index scan of one key fetches. */
  function IndexRows(t: Table, key: int): seq<Row> {
    if key !in t.index then []
    else match HeapGet(t.heap, t.index[key])
      case None => []
      case Some(row) => [row]
  }

  predicate RowsFit(rows: seq<Row>, n: nat) {
    forall i :: 0 <= i < |rows| ==> |rows[i]| == n
  }

  function FilterRows(rows: seq<Row>, cols: seq<string>, e: Option<Expr>): (r: seq<Row>)
    requires RowsFit(rows, |cols|)
    ensures RowsFit(r, |cols|)
  {
    if rows == [] then []
    else if e.None? || Satisfies(rows[0], cols, e.value) then [rows[0]] + FilterRows(rows[1..], cols, e)
    else FilterRows(rows[1..], cols, e)
  }

  // ------------------------------------------------------------------ the optimizer

  /** A usable `key = constant` predicate, reached through ANDs only. */
  function FindPkEquality(e: Expr, pk: string): Option<int> {
    match e
    case Cmp(col, op, val) => if op == EQ && val.IntValue? && Tail(col) == pk then Some(val.i) else None
    case And(l, r) => (match FindPkEquality(l, pk) case Some(k) => Some(k) case None => FindPkEquality(r, pk))
    case Or(_, _) => None
  }

  /** The choice of scan. Costs are floating point; `cheaper` is how their comparison came out. */
  function ChooseScan(t: Table, where: Option<Expr>, cheaper: bool): Option<int>
    requires |t.names| > 0
  {
    if where.None? || !cheaper then None else FindPkEquality(where.value, t.names[0])
  }

  /** The smaller table becomes the inner one. */
  function RightIsInner(left: Table, right: Table): bool {
    |right.index| <= |left.index|
  }

  lemma {:induction false} TailOfQualified(table: string, name: string)
    requires '.' !in table
    ensures '.' in table + "." + name && Tail(table + "." + name) == name
    ensures AfterDot(table + "." + name) == name
  {
    var s := table + "." + name;
    assert s[|table|] == '.';
    if table == "" {
      assert s[1..] == name;
    } else {
      assert s[1..] == table[1..] + "." + name;
      TailOfQualified(table[1..], name);
    }
  }

  /** A column reference that resolves in a table's columns and whose tail is the name of column 0 means
      column 0. */
  lemma PkResolves(t: Table, col: string)
    requires TableOk(t) && Tail(col) == t.names[0] && Resolve(QualifiedCols(t), col).Found?
    ensures Resolve(QualifiedCols(t), col) == Found(0)
  {
    var cols := QualifiedCols(t);
    ResolveIsUnique(cols, col);
    var i := Resolve(cols, col).at;
    TailOfQualified(t.name, t.names[0]);
    TailOfQualified(t.name, t.names[i]);
    if '.' in col {
      assert col == cols[i] == t.name + "." + t.names[i];
      assert t.names[i] == t.names[0];
      assert ColMatches(cols[0], col);
    } else {
      assert Tail(cols[0]) == t.names[0] == col;
      assert ColMatches(cols[0], col);
    }
  }

  /** Whenever the optimizer finds a key, only the row with that key can satisfy the predicate. */
  lemma {:induction false} FoundKeyIsNecessary(t: Table, e: Expr, row: Row)
    requires TableOk(t) && RowTyped(row, t.ints) && WellTyped(e, QualifiedCols(t), t.ints)
    requires FindPkEquality(e, t.names[0]).Some? && Satisfies(row, QualifiedCols(t), e)
    ensures row[0] == IntValue(FindPkEquality(e, t.names[0]).value)
  {
    match e
    case Cmp(col, op, val) =>
      PkResolves(t, col);
      EqualValues(row[0], val);
    case And(l, r) =>
      if FindPkEquality(l, t.names[0]).Some? {
        FoundKeyIsNecessary(t, l, row);
      } else {
        FoundKeyIsNecessary(t, r, row);
      }
    case Or(_, _) => {}
  }

  // ------------------------------------------------------------------ index scan or sequential scan

  ghost predicate NoneSatisfies(rows: seq<Row>, cols: seq<string>, e: Expr) {
    RowsFit(rows, |cols|) && forall i :: 0 <= i < |rows| ==> !Satisfies(rows[i], cols, e)
  }

  lemma {:induction false} FilterNothing(rows: seq<Row>, cols: seq<string>, e: Expr)
    requires NoneSatisfies(rows, cols, e)
    ensures FilterRows(rows, cols, Some(e)) == []
  {
    if rows != [] {
      assert NoneSatisfies(rows[1..], cols, e) by {
        forall i | 0 <= i < |rows[1..]|
          ensures |rows[1..][i]| == |cols| && !Satisfies(rows[1..][i], cols, e)
        {
          assert rows[1..][i] == rows[i + 1];
        }
      }
      FilterNothing(rows[1..], cols, e);
    }
  }

  lemma {:induction false} FilterConcat(a: seq<Row>, b: seq<Row>, cols: seq<string>, e: Option<Expr>)
    requires RowsFit(a, |cols|) && RowsFit(b, |cols|)
    ensures RowsFit(a + b, |cols|) && FilterRows(a + b, cols, e) == FilterRows(a, cols, e) + FilterRows(b, cols, e)
  {
    if a == [] {
      assert a + b == b;
    } else {
      assert (a + b)[1..] == a[1..] + b;
      FilterConcat(a[1..], b, cols, e);
    }
  }

  lemma {:induction false} HeapGetAt(heap: seq<(RowId, Row)>, i: nat)
    requires i < |heap| && forall a, b :: 0 <= a < b < |heap| ==> heap[a].0 != heap[b].0
    ensures HeapGet(heap, heap[i].0) == Some(heap[i].1)
  {
    if i > 0 { HeapGetAt(heap[1..], i - 1); }
  }

  lemma IndexRowsFit(t: Table, key: int)
    requires TableOk(t)
    ensures RowsFit(IndexRows(t, key), |t.names|) && RowsFit(SeqRows(t.heap), |t.names|)
    ensures forall i :: 0 <= i < |IndexRows(t, key)| ==> RowTyped(IndexRows(t, key)[i], t.ints)
  {
    if key in t.index {
      var i :| InHeap(t, key, i);
      HeapGetAt(t.heap, i);
    }
  }

  /** An index scan with the predicate as residual filter yields the same rows, in the same order, as a
      sequential scan with the predicate as filter. */
  lemma IndexScanIsEnough(t: Table, e: Expr)
    requires TableOk(t) && WellTyped(e, QualifiedCols(t), t.ints) && FindPkEquality(e, t.names[0]).Some?
    ensures var key := FindPkEquality(e, t.names[0]).value;
            RowsFit(IndexRows(t, key), |t.names|) && RowsFit(SeqRows(t.heap), |t.names|)
            && FilterRows(IndexRows(t, key), QualifiedCols(t), Some(e))
              == FilterRows(SeqRows(t.heap), QualifiedCols(t), Some(e))
  {
    var key, cols, rows := FindPkEquality(e, t.names[0]).value, QualifiedCols(t), SeqRows(t.heap);
    IndexRowsFit(t, key);
    forall i | 0 <= i < |rows| && Satisfies(rows[i], cols, e)
      ensures rows[i][0] == IntValue(key)
    {
      FoundKeyIsNecessary(t, e, rows[i]);
    }
    if key in t.index {
      var i :| InHeap(t, key, i);
      HeapGetAt(t.heap, i);
      OneRowSatisfies(t, e, key, i);
    } else {
      FilterNothing(rows, cols, e);
    }
  }

  lemma OneRowSatisfies(t: Table, e: Expr, key: int, i: nat)
    requires TableOk(t) && key in t.index && InHeap(t, key, i)
    requires forall j :: 0 <= j < |t.heap| && Satisfies(SeqRows(t.heap)[j], QualifiedCols(t), e) ==>
      SeqRows(t.heap)[j][0] == IntValue(key)
    ensures RowsFit(SeqRows(t.heap), |t.names|)
    ensures FilterRows([t.heap[i].1], QualifiedCols(t), Some(e))
      == FilterRows(SeqRows(t.heap), QualifiedCols(t), Some(e))
  {
    var cols, rows := QualifiedCols(t), SeqRows(t.heap);
    var a, b := rows[..i], rows[i + 1..];
    forall j | 0 <= j < |rows| && j != i
      ensures !Satisfies(rows[j], cols, e)
    {
      assert t.index[t.heap[j].1[0].i] == t.heap[j].0;
    }
    assert rows == a + ([rows[i]] + b);
    FilterConcat(a, [rows[i]] + b, cols, Some(e));
    FilterConcat([rows[i]], b, cols, Some(e));
    FilterNothing(a, cols, e);
    FilterNothing(b, cols, e);
  }

  /** The scan part of a query, for either outcome of the cost comparison. */
  function ScanRows(t: Table, where: Option<Expr>, cheaper: bool): seq<Row>
    requires |t.names| > 0
  {
    match ChooseScan(t, where, cheaper)
    case Some(key) => IndexRows(t, key)
    case None => SeqRows(t.heap)
  }

  /** The cost model never changes an answer. */
  lemma ScanChoiceDoesNotMatter(t: Table, where: Option<Expr>, cheaper: bool)
    requires TableOk(t) && (where.Some? ==> WellTyped(where.value, QualifiedCols(t), t.ints))
    ensures RowsFit(ScanRows(t, where, cheaper), |t.names|) && RowsFit(SeqRows(t.heap), |t.names|)
    ensures FilterRows(ScanRows(t, where, cheaper), QualifiedCols(t), where)
      == FilterRows(SeqRows(t.heap), QualifiedCols(t), where)
  {
    if ChooseScan(t, where, cheaper).Some? {
      IndexScanIsEnough(t, where.value);
    } else {
      IndexRowsFit(t, 0);
    }
  }
}
