/** The pull operators as objects with cursors: draining an operator yields exactly its list meaning. */
module Operators {
  import opened WhereParser
  import opened QueryPlans
  import opened JoinPlans

  // ------------------------------------------------------------------ scans

  /** A sequential or an index scan; both read their rows into memory when they are opened. */
  class Scan {
    const table: Table
    const key: Option<int>
    const columns: seq<string>
    var rows: seq<Row>
    var i: nat
    /** The rows the scan yields, and those it has not yielded yet. */
    ghost const meaning: seq<Row>
    ghost var left: seq<Row>

    ghost predicate Built() {
      RowsFit(meaning, |columns|) && meaning == if key.None? then SeqRows(table.heap) else IndexRows(table, key.value)
    }

    ghost predicate Running()
      reads this
    {
      Built() && i <= |rows| && left == rows[i..]
    }

    constructor SeqScan(t: Table)
      requires TableOk(t)
      ensures Built() && columns == QualifiedCols(t) && meaning == SeqRows(t.heap)
    {
      table, key, columns, meaning := t, None, QualifiedCols(t), SeqRows(t.heap);
      new;
      IndexRowsFit(t, 0);
    }

    constructor IndexScan(t: Table, k: int)
      requires TableOk(t)
      ensures Built() && columns == QualifiedCols(t) && meaning == IndexRows(t, k)
    {
      table, key, columns, meaning := t, Some(k), QualifiedCols(t), IndexRows(t, k);
      new;
      IndexRowsFit(t, k);
    }

    method Open()
      requires Built()
      modifies this
      ensures Running() && left == meaning
    {
      rows, i := if key.None? then SeqRows(table.heap) else IndexRows(table, key.value), 0;
      left := meaning;
    }

    method Next() returns (ok: bool, row: Row)
      requires Running()
      modifies this
      ensures Running() && old(left) == (if ok then [row] + left else []) && (!ok ==> left == [])
    {
      if i >= |rows| { return false, []; }
      ok, row := true, rows[i];
      assert rows[i..] == [rows[i]] + rows[i + 1..];
      i, left := i + 1, left[1..];
    }
  }

  // ------------------------------------------------------------------ the nested-loop join

  predicate ComparablePair(o: Row, r: Row, p1: int, p2: int) {
    0 <= p1 < |o + r| && 0 <= p2 < |o + r| && SameType((o + r)[p1], (o + r)[p2])
  }

  /** The join columns of one outer row can be compared with every inner row. */
  ghost predicate ComparableWith(o: Row, inner: seq<Row>, p1: int, p2: int) {
    forall j :: 0 <= j < |inner| ==> ComparablePair(o, inner[j], p1, p2)
  }

  /** The join columns of any two rows have the same type. */
  ghost predicate ComparableOn(outer: seq<Row>, inner: seq<Row>, m: nat, n: nat, p1: int, p2: int) {
    && RowsFit(outer, m) && RowsFit(inner, n) && 0 <= p1 < m + n && 0 <= p2 < m + n
    && forall i :: 0 <= i < |outer| ==> ComparableWith(outer[i], inner, p1, p2)
  }

  /** The matches of the current outer row that are still to come. */
  function Pending(have: bool, cur: Row, inner: seq<Row>, n: nat, p1: int, p2: int): (r: seq<Row>)
    requires have ==> RowsFit(inner, n) && 0 <= p1 < |cur| + n && 0 <= p2 < |cur| + n
  {
    if have then MatchInner(cur, inner, n, p1, p2) else []
  }

  lemma MoveOne(out: seq<Row>, r: Row, rest: seq<Row>)
    ensures out + ([r] + rest) == out + [r] + rest
  {
  }

  class NestedLoopJoin {
    const outer: Scan
    const inner: Scan
    const columns: seq<string>
    const p1: int
    const p2: int
    var innerRows: seq<Row>
    var innerI: nat
    var curOuter: Row
    var haveOuter: bool
    ghost const meaning: seq<Row>
    ghost var left: seq<Row>

    ghost predicate Built() {
      && outer != inner && outer.Built() && inner.Built() && columns == outer.columns + inner.columns
      && ComparableOn(outer.meaning, inner.meaning, |outer.columns|, |inner.columns|, p1, p2)
      && meaning == JoinRows(outer.meaning, inner.meaning, |outer.columns|, |inner.columns|, p1, p2)
    }

    /** Where the cursors stand, in terms of the rows still to come. */
    ghost predicate Running()
      reads this, outer
    {
      && Built() && outer.Running() && innerI <= |innerRows|
      && ComparableOn(outer.left, innerRows, |outer.columns|, |inner.columns|, p1, p2)
      && (haveOuter ==> |curOuter| == |outer.columns| && ComparableWith(curOuter, innerRows, p1, p2))
      && left == Pending(haveOuter, curOuter, innerRows[innerI..], |inner.columns|, p1, p2)
                 + JoinRows(outer.left, innerRows, |outer.columns|, |inner.columns|, p1, p2)
    }

    constructor (l: Scan, r: Scan, c1: string, c2: string)
      requires l != r && l.Built() && r.Built()
      requires Resolve(l.columns + r.columns, c1).Found? && Resolve(l.columns + r.columns, c2).Found?
      requires var cols := l.columns + r.columns;
               ComparableOn(l.meaning, r.meaning, |l.columns|, |r.columns|, Resolve(cols, c1).at, Resolve(cols, c2).at)
      ensures Built() && outer == l && inner == r && columns == l.columns + r.columns
      ensures meaning == JoinRows(l.meaning, r.meaning, |l.columns|, |r.columns|, Resolve(columns, c1).at,
        Resolve(columns, c2).at)
    {
      var cols := l.columns + r.columns;
      var r1 := ResolveCol(cols, c1);
      var r2 := ResolveCol(cols, c2);
      outer, inner, columns, p1, p2 := l, r, cols, r1.at, r2.at;
      meaning := JoinRows(l.meaning, r.meaning, |l.columns|, |r.columns|, r1.at, r2.at);
    }

    /** The inner side is read into memory. */
    method Open()
      requires Built()
      modifies this, outer, inner
      ensures Running() && left == meaning
    {
      outer.Open();
      inner.Open();
      ReadInner();
      haveOuter, innerI, left := false, 0, meaning;
      assert [] + meaning == meaning;
    }

    method ReadInner()
      requires inner.Running()
      modifies this`innerRows, inner
      ensures innerRows == old(inner.left)
    {
      innerRows := [];
      ghost var all := inner.left;
      while true
        invariant inner.Running() && all == innerRows + inner.left
        decreases |inner.left|
      {
        var more, r := inner.Next();
        if !more { return; }
        MoveOne(innerRows, r, inner.left);
        innerRows := innerRows + [r];
      }
    }

    /** The next outer row becomes current, or there is none. */
    method PullOuter() returns (ok: bool)
      requires Running() && !haveOuter
      modifies this, outer
      ensures Running() && left == old(left)
      ensures ok ==> haveOuter && |outer.left| < old(|outer.left|)
      ensures !ok ==> left == []
    {
      ghost var before := outer.left;
      var r;
      ok, r := outer.Next();
      if ok {
        OuterHead(before, r, outer.left, innerRows, |outer.columns|, |inner.columns|, p1, p2);
        curOuter, haveOuter, innerI := r, true, 0;
        assert innerRows[0..] == innerRows;
      }
    }

    lemma OuterHead(all: seq<Row>, r: Row, rest: seq<Row>, rows: seq<Row>, m: nat, n: nat, a: int, b: int)
      requires all == [r] + rest && ComparableOn(all, rows, m, n, a, b)
      ensures ComparableOn(rest, rows, m, n, a, b) && |r| == m && ComparableWith(r, rows, a, b)
      ensures [] + JoinRows(all, rows, m, n, a, b) == MatchInner(r, rows, n, a, b) + JoinRows(rest, rows, m, n, a, b)
    {
      assert all[0] == r && all[1..] == rest;
      assert forall k :: 0 <= k < |rest| ==> rest[k] == all[k + 1];
    }

    /** The inner loop: the first match of the current outer row among the rest of the inner rows. */
    method FindMatch(ghost n: nat) returns (ok: bool, row: Row)
      requires RowsFit(innerRows, n) && innerI <= |innerRows| && ComparableWith(curOuter, innerRows, p1, p2)
      requires 0 <= p1 < |curOuter| + n && 0 <= p2 < |curOuter| + n
      modifies this`innerI
      ensures innerI <= |innerRows|
      ensures MatchInner(curOuter, innerRows[old(innerI)..], n, p1, p2)
           == if ok then [row] + MatchInner(curOuter, innerRows[innerI..], n, p1, p2) else []
    {
      ghost var all := MatchInner(curOuter, innerRows[innerI..], n, p1, p2);
      while innerI < |innerRows|
        invariant innerI <= |innerRows|
        invariant all == MatchInner(curOuter, innerRows[innerI..], n, p1, p2)
      {
        row := curOuter + innerRows[innerI];
        assert ComparablePair(curOuter, innerRows[innerI], p1, p2);
        assert Compare3(row[p1], row[p2]).Some?;
        MatchStep(curOuter, innerRows, innerI, n, p1, p2);
        innerI := innerI + 1;
        if Compare3(row[p1], row[p2]) == Some(0) { return true, row; }
      }
      assert innerRows[innerI..] == [];
      ok, row := false, [];
    }

    lemma MatchStep(o: Row, rows: seq<Row>, k: nat, n: nat, a: int, b: int)
      requires RowsFit(rows, n) && k < |rows| && 0 <= a < |o| + n && 0 <= b < |o| + n
      ensures var rest := MatchInner(o, rows[k + 1..], n, a, b);
              MatchInner(o, rows[k..], n, a, b) == if Joins(o + rows[k], a, b) then [o + rows[k]] + rest else rest
    {
      assert rows[k..][1..] == rows[k + 1..];
      var rest := MatchInner(o, rows[k + 1..], n, a, b);
      assert [] + rest == rest;
    }

    /** Yields the next match of the current outer row, or is done with it. */
    method MatchCurrent() returns (ok: bool, row: Row)
      requires Running() && haveOuter
      modifies this`innerI, this`left, this`haveOuter
      ensures Running() && (ok ==> old(left) == [row] + left) && (!ok ==> left == old(left) && !haveOuter)
    {
      ghost var n, later := |inner.columns|, JoinRows(outer.left, innerRows, |outer.columns|, |inner.columns|, p1, p2);
      ok, row := FindMatch(n);
      ghost var pending := Pending(ok, curOuter, innerRows[innerI..], n, p1, p2);
      TakeFirst(left, row, pending, later, ok);
      haveOuter := ok;
      left := pending + later;
    }

    lemma TakeFirst(all: seq<Row>, row: Row, pending: seq<Row>, later: seq<Row>, ok: bool)
      ensures all == [row] + pending + later ==> all == [row] + (pending + later)
      ensures all == [] + later && pending == [] ==> all == pending + later
    {
    }

    method Next() returns (ok: bool, row: Row)
      requires Running()
      modifies this, outer
      ensures Running() && old(left) == (if ok then [row] + left else []) && (!ok ==> left == [])
    {
      while true
        invariant Running() && left == old(left)
        decreases |outer.left|, haveOuter
      {
        if !haveOuter {
          var more := PullOuter();
          if !more { return false, []; }
        }
        ok, row := MatchCurrent();
        if ok { return; }
      }
    }
  }

  // ------------------------------------------------------------------ operators on top

  datatype Kind = FromScan | FromJoin | Filter | Project | CountStar

  /** The predicate has a value on row `i`. */
  ghost predicate HasValueOn(e: Expr, cols: seq<string>, rows: seq<Row>, i: int)
    requires 0 <= i < |rows|
  {
    |rows[i]| == |cols| && EvalExpr(e, cols, rows[i]) == Some(Satisfies(rows[i], cols, e))
  }

  ghost predicate EvaluatesOn(e: Expr, cols: seq<string>, rows: seq<Row>) {
    RowsFit(rows, |cols|) && forall i :: 0 <= i < |rows| ==> HasValueOn(e, cols, rows, i)
  }

  predicate IdxOk(idx: seq<int>, n: nat) {
    forall k :: 0 <= k < |idx| ==> 0 <= idx[k] < n
  }

  /** A scan or a join, or an operator that transforms the rows of the one below. */
  class Operator {
    const kind: Kind
    const columns: seq<string>
    const scan: Scan?
    const join: NestedLoopJoin?
    const child: Operator?
    const pred: Expr
    const idx: seq<int>
    var emitted: bool
    ghost const meaning: seq<Row>
    ghost var left: seq<Row>
    ghost const Repr: set<object>

    predicate IsSource() {
      kind == FromScan || kind == FromJoin
    }

    /** How the parts of the plan fit together. */
    ghost predicate Built()
      decreases Repr
    {
      && this in Repr && RowsFit(meaning, |columns|)
      && (kind == FromScan ==> scan != null && scan in Repr && scan.Built() && scan.meaning == meaning)
      && (kind == FromJoin ==>
            join != null && join in Repr && join.outer in Repr && join.inner in Repr && join.Built()
              && join.meaning == meaning)
      && (!IsSource() ==>
            child != null && child in Repr && child.Repr <= Repr && this !in child.Repr && child.Built()
            && RowsFit(child.meaning, |child.columns|))
      && (kind == Filter ==>
            columns == child.columns && EvaluatesOn(pred, columns, child.meaning)
            && meaning == FilterRows(child.meaning, columns, Some(pred)))
      && (kind == Project ==>
            IdxOk(idx, |child.columns|) && meaning == ProjectRows(child.meaning, |child.columns|, idx))
      && (kind == CountStar ==> meaning == [[IntValue(|child.meaning|)]])
    }

    /** Where the cursors stand, in terms of the rows still to come. */
    ghost predicate Running()
      reads Repr
      decreases Repr
    {
      && Built()
      && (kind == FromScan ==> scan.Running() && left == scan.left)
      && (kind == FromJoin ==> join.Running() && left == join.left)
      && (!IsSource() ==> child.Running() && RowsFit(child.left, |child.columns|))
      && (kind == Filter ==>
          EvaluatesOn(pred, columns, child.left) && left == FilterRows(child.left, columns, Some(pred)))
      && (kind == Project ==> left == ProjectRows(child.left, |child.columns|, idx))
      && (kind == CountStar ==> left == if emitted then [] else [[IntValue(|child.left|)]])
    }

    constructor OfScan(s: Scan)
      requires s.Built()
      ensures Built() && Repr == {this, s} && columns == s.columns && meaning == s.meaning
    {
      kind, columns, scan, join, child := FromScan, s.columns, s, null, null;
      meaning, Repr := s.meaning, {this, s};
    }

    constructor OfJoin(j: NestedLoopJoin)
      requires j.Built()
      ensures Built() && Repr == {this, j, j.outer, j.inner} && columns == j.columns && meaning == j.meaning
    {
      kind, columns, scan, join, child := FromJoin, j.columns, null, j, null;
      meaning, Repr := j.meaning, {this, j, j.outer, j.inner};
    }

    constructor FilterOf(c: Operator, e: Expr)
      requires c.Built() && EvaluatesOn(e, c.columns, c.meaning)
      ensures Built() && fresh(Repr - c.Repr) && columns == c.columns
      ensures meaning == FilterRows(c.meaning, c.columns, Some(e))
    {
      kind, columns, scan, join, child, pred := Filter, c.columns, null, null, c, e;
      meaning, Repr := FilterRows(c.meaning, c.columns, Some(e)), c.Repr + {this};
    }

    static method ResolveAll(cols: seq<string>, names: seq<string>) returns (found: seq<int>, labels: seq<string>)
      requires forall k :: 0 <= k < |names| ==> Resolve(cols, names[k]).Found?
      ensures found == ResolveNames(cols, names) && |labels| == |names|
    {
      found, labels := [], [];
      ghost var all := ResolveNames(cols, names);
      var k := 0;
      while k < |names|
        invariant k <= |names| && |labels| == k == |found|
        invariant forall j :: 0 <= j < k ==> found[j] == all[j]
      {
        var r := ResolveCol(cols, names[k]);
        assert r.at == all[k];
        found := found + [r.at];
        labels := labels + [cols[r.at]];
        k := k + 1;
      }
    }

    constructor ProjectOf(c: Operator, names: seq<string>)
      requires c.Built() && forall k :: 0 <= k < |names| ==> Resolve(c.columns, names[k]).Found?
      ensures Built() && fresh(Repr - c.Repr)
      ensures meaning == ProjectRows(c.meaning, |c.columns|, ResolveNames(c.columns, names))
    {
      var found, labels := ResolveAll(c.columns, names);
      ProjectedFit(c.meaning, |c.columns|, found);
      kind, columns, scan, join, child, idx := Project, labels, null, null, c, found;
      meaning, Repr := ProjectRows(c.meaning, |c.columns|, found), c.Repr + {this};
    }

    constructor CountOf(c: Operator)
      requires c.Built()
      ensures Built() && fresh(Repr - c.Repr) && meaning == [[IntValue(|c.meaning|)]]
    {
      kind, columns, scan, join, child := CountStar, ["count"], null, null, c;
      meaning, Repr := [[IntValue(|c.meaning|)]], c.Repr + {this};
    }

    /** Puts every cursor at the start. */
    method Open()
      requires Built()
      modifies Repr
      ensures Running() && left == meaning
      decreases Repr
    {
      if kind == FromScan {
        scan.Open();
      } else if kind == FromJoin {
        join.Open();
      } else {
        child.Open();
        emitted := false;
      }
      left := meaning;
    }

    /** The next row, if there is one; exactly the rows of the list meaning, in order. */
    method Next() returns (ok: bool, row: Row)
      requires Running()
      modifies Repr
      ensures Running() && old(left) == (if ok then [row] + left else []) && (!ok ==> left == [])
      decreases Repr, 2
    {
      match kind {
        case FromScan =>
          ok, row := scan.Next();
          left := scan.left;
        case FromJoin =>
          ok, row := join.Next();
          left := join.left;
        case Filter => ok, row := NextFiltered();
        case Project => ok, row := NextProjected();
        case CountStar => ok, row := NextCount();
      }
    }

    method NextFiltered() returns (ok: bool, row: Row)
      requires Running() && kind == Filter
      modifies Repr
      ensures Running() && old(left) == (if ok then [row] + left else []) && (!ok ==> left == [])
      decreases Repr, 1
    {
      while true
        invariant Running() && left == old(left)
        decreases |child.left|
      {
        ghost var before := child.left;
        var got;
        got, row := child.Next();
        if !got { return false, row; }
        FilterHead(before, row, child.left, columns, pred);
        if EvalExpr(pred, columns, row) == Some(true) {
          left := FilterRows(child.left, columns, Some(pred));
          return true, row;
        }
      }
    }

    method NextProjected() returns (ok: bool, row: Row)
      requires Running() && kind == Project
      modifies Repr
      ensures Running() && old(left) == (if ok then [row] + left else []) && (!ok ==> left == [])
      decreases Repr, 1
    {
      ghost var before := child.left;
      var got, r := child.Next();
      if !got { return false, []; }
      RowsFitHead(before, r, child.left, |child.columns|);
      row := ProjectOne(r, idx);
      left := ProjectRows(child.left, |child.columns|, idx);
      ok := true;
    }

    /** The projected columns of one row, collected in a loop. */
    static method ProjectOne(r: Row, cols: seq<int>) returns (row: Row)
      requires IdxOk(cols, |r|)
      ensures row == ProjectRow(r, cols)
    {
      row := [];
      var k := 0;
      while k < |cols|
        invariant k <= |cols| && row + ProjectRow(r, cols[k..]) == ProjectRow(r, cols)
      {
        row := row + [r[cols[k]]];
        assert cols[k..][1..] == cols[k + 1..];
        k := k + 1;
      }
    }

    method NextCount() returns (ok: bool, row: Row)
      requires Running() && kind == CountStar
      modifies Repr
      ensures Running() && old(left) == (if ok then [row] + left else []) && (!ok ==> left == [])
      decreases Repr, 1
    {
      if emitted { return false, []; }
      var n := CountChild();
      row := [IntValue(n)];
      emitted, left := true, [];
      ok := true;
    }

    /** Pulls the child dry and counts. */
    method CountChild() returns (n: nat)
      requires Built() && kind == CountStar && child.Running()
      modifies child.Repr
      ensures child.Running() && child.left == [] && n == old(|child.left|)
      decreases Repr, 0
    {
      n := 0;
      while true
        invariant child.Running() && n + |child.left| == old(|child.left|)
        decreases |child.left|
      {
        var got, r := child.Next();
        if !got { return; }
        n := n + 1;
      }
    }

    /** Opens a plan and pulls it dry. */
    method Drain() returns (out: seq<Row>)
      requires Built()
      modifies Repr
      ensures out == meaning
    {
      Open();
      out := [];
      while true
        invariant Running() && meaning == out + left
        decreases |left|
      {
        var more, r := Next();
        if !more { return; }
        MoveOne(out, r, left);
        out := out + [r];
      }
    }
  }

  lemma FilterHead(all: seq<Row>, row: Row, rest: seq<Row>, cols: seq<string>, e: Expr)
    requires all == [row] + rest && EvaluatesOn(e, cols, all)
    ensures EvaluatesOn(e, cols, rest) && |row| == |cols| && EvalExpr(e, cols, row) == Some(Satisfies(row, cols, e))
    ensures FilterRows(all, cols, Some(e))
      == (if Satisfies(row, cols, e) then [row] else []) + FilterRows(rest, cols, Some(e))
    ensures [] + FilterRows(rest, cols, Some(e)) == FilterRows(rest, cols, Some(e))
  {
    assert HasValueOn(e, cols, all, 0) && all[0] == row && all[1..] == rest;
    forall k | 0 <= k < |rest|
      ensures HasValueOn(e, cols, rest, k)
    {
      assert HasValueOn(e, cols, all, k + 1);
    }
  }

  lemma RowsFitHead(all: seq<Row>, row: Row, rest: seq<Row>, n: nat)
    requires all == [row] + rest && RowsFit(all, n)
    ensures |row| == n && RowsFit(rest, n) && all[1..] == rest && all[0] == row
  {
    assert all[0] == row && all[1..] == rest;
  }

  lemma {:induction false} ProjectedFit(rows: seq<Row>, n: nat, idx: seq<int>)
    requires RowsFit(rows, n) && IdxOk(idx, n)
    ensures RowsFit(ProjectRows(rows, n, idx), |idx|)
  {
    if rows != [] {
      ProjectedFit(rows[1..], n, idx);
      ProjectedLength(rows[0], idx);
    }
  }

  lemma {:induction false} ProjectedLength(row: Row, idx: seq<int>)
    requires IdxOk(idx, |row|)
    ensures |ProjectRow(row, idx)| == |idx|
  {
    if idx != [] { ProjectedLength(row, idx[1..]); }
  }
}
