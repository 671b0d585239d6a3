/** DELETE: the keys are collected first and then deleted one by one. Outside a transaction each of them is
    a committed transaction of its own, so the statement is not atomic. */
module DeleteStatement {
  import opened RecoveryLog
  import opened RecoveryProof
  import opened RecoveryOutcome
  import opened Session
  import Parser = WhereParser
  import Plans = QueryPlans
  import Queries = SelectQueries
  import Meaning = QueryMeaning

  predicate Distinct(keys: seq<int>) {
    forall i, j :: 0 <= i < j < |keys| ==> keys[i] != keys[j]
  }

  /** The keys of the table with these primary keys, as far as the `n`-th. */
  function TableKeys(table: string, keys: seq<int>, n: nat): set<Key>
    requires n <= |keys|
  {
    set j | 0 <= j < n :: Key(table, keys[j])
  }

  lemma OneKeyMore(db: Db, table: string, keys: seq<int>, n: nat)
    requires n < |keys|
    ensures db - TableKeys(table, keys, n) - {Key(table, keys[n])} == db - TableKeys(table, keys, n + 1)
  {
    assert TableKeys(table, keys, n + 1) == TableKeys(table, keys, n) + {Key(table, keys[n])};
  }

  lemma NotTakenYet(db: Db, table: string, keys: seq<int>, n: nat)
    requires Distinct(keys) && n < |keys| && Key(table, keys[n]) in db
    ensures Key(table, keys[n]) in db - TableKeys(table, keys, n)
  {
  }

  /** The ledger after the first `n` keys were deleted. */
  function AfterDeletes(l: Ledger, table: string, keys: seq<int>, n: nat): Ledger
    requires n <= |keys|
  {
    if n == 0 then l else AfterDelete(AfterDeletes(l, table, keys, n - 1), Key(table, keys[n - 1]))
  }

  predicate AllThere(db: Db, table: string, keys: seq<int>) {
    forall i :: 0 <= i < |keys| ==> Key(table, keys[i]) in db
  }

  /** The loop over the collected keys. */
  method DeleteKeys(db: Database, table: string, keys: seq<int>) returns (deleted: nat)
    requires db.Valid() && Distinct(keys) && AllThere(db.Contents(), table, keys)
    modifies db
    ensures db.Valid() && deleted == |keys|
    ensures db.Contents() == old(db.Contents()) - TableKeys(table, keys, |keys|)
    ensures db.Look() == AfterDeletes(old(db.Look()), table, keys, |keys|)
  {
    ghost var l := db.Look();
    deleted := 0;
    var i := 0;
    while i < |keys|
      invariant i == deleted <= |keys| && db.Valid() && db.Look() == AfterDeletes(l, table, keys, i)
    {
      StillThere(l, table, keys, i);
      var removed := db.DeleteByKey(table, keys[i]);
      if removed { deleted := deleted + 1; }
      i := i + 1;
    }
    DeletesKeep(l, table, keys, |keys|);
  }

  lemma StillThere(l: Ledger, table: string, keys: seq<int>, i: nat)
    requires Consistent(l) && i < |keys| && Distinct(keys) && AllThere(l.db, table, keys)
    ensures Key(table, keys[i]) in AfterDeletes(l, table, keys, i).db
  {
    DeletesKeep(l, table, keys, i);
    NotTakenYet(l.db, table, keys, i);
  }

  /** The scan found the rows that the session shows. */
  ghost predicate Scanned(t: Plans.Table, db: Db) {
    Plans.TableOk(t) && forall k :: k in Queries.RowMap(t) <==> Key(t.name, k) in Visible(db)
  }

  /** Row `i` of the heap is still there if and only if it does not meet the condition. */
  ghost predicate Keeps(db: Db, t: Plans.Table, where: Plans.Option<Parser.Expr>, i: int)
    requires 0 <= i < |t.heap|
  {
    |t.heap[i].1| > 0 && t.heap[i].1[0].IntValue?
    && (Key(t.name, t.heap[i].1[0].i) in Visible(db) <==> !Meaning.Meets(where, Plans.QualifiedCols(t), t.heap[i].1))
  }

  /** Afterwards the table shows exactly the rows that do not match, nothing else of the database changed,
      and the count is that of the rows that did match. */
  method RunDelete(db: Database, t: Plans.Table, where: Plans.Option<Parser.Expr>, cheaper: bool) returns (deleted: nat)
    requires db.Valid() && Scanned(t, db.Contents())
    requires Queries.WhereOk(where, Plans.QualifiedCols(t), t.ints)
    modifies db
    ensures db.Valid()
    ensures forall k :: Key(t.name, k) in Visible(db.Contents()) <==> k in Queries.Remaining(t, where)
    ensures forall k: Key :: k.table != t.name || k.pk !in Queries.RowMap(t) || k.pk in Queries.Remaining(t, where) ==>
      Lookup(db.Contents(), k) == old(Lookup(db.Contents(), k))
    ensures Plans.RowsFit(Plans.SeqRows(t.heap), |t.names|)
    ensures deleted == |Plans.FilterRows(Plans.SeqRows(t.heap), Plans.QualifiedCols(t), where)|
    ensures forall i :: 0 <= i < |t.heap| ==> Keeps(db.Contents(), t, where, i)
    ensures exists at :: Meaning.Picks(at, Plans.SeqRows(t.heap), where, Plans.QualifiedCols(t)) && deleted == |at|
  {
    var keys := Queries.CollectKeys(t, where, cheaper);
    Queries.CollectedKeys(t, where);
    Queries.WhatRemains(t, where, keys);
    ghost var before := db.Contents();
    CollectedThere(t, before, keys);
    deleted := DeleteKeys(db, t.name, keys);
    OthersRemain(before, t.name, keys);
    DeletedRows(t, where, db.Contents());
  }

  lemma DeletedRows(t: Plans.Table, where: Plans.Option<Parser.Expr>, db: Db)
    requires Plans.TableOk(t) && Queries.WhereOk(where, Plans.QualifiedCols(t), t.ints)
    requires forall k :: Key(t.name, k) in Visible(db) <==> k in Queries.Remaining(t, where)
    ensures forall i :: 0 <= i < |t.heap| ==> Keeps(db, t, where, i)
    ensures Plans.RowsFit(Plans.SeqRows(t.heap), |t.names|)
    ensures exists at :: Meaning.Picks(at, Plans.SeqRows(t.heap), where, Plans.QualifiedCols(t))
                      && |Plans.FilterRows(Plans.SeqRows(t.heap), Plans.QualifiedCols(t), where)| == |at|
  {
    Queries.DeleteMeans(t, where);
  }

  lemma CollectedThere(t: Plans.Table, db: Db, keys: seq<int>)
    requires Scanned(t, db) && forall k :: k in keys ==> k in Queries.RowMap(t)
    ensures AllThere(db, t.name, keys)
  {
    forall i | 0 <= i < |keys|
      ensures Key(t.name, keys[i]) in db
    {
      var k := keys[i];
      assert k in keys;
      assert Key(t.name, k) in Visible(db);
    }
  }

  lemma OthersRemain(db: Db, table: string, keys: seq<int>)
    ensures var left := db - TableKeys(table, keys, |keys|);
            forall k :: Lookup(left, k) == if k.table == table && k.pk in keys then None else Lookup(db, k)
  {
    forall k
      ensures k in TableKeys(table, keys, |keys|) <==> k.table == table && k.pk in keys
    {
      if k.table == table && k.pk in keys {
        var j :| 0 <= j < |keys| && keys[j] == k.pk;
        assert Key(table, keys[j]) == k;
      }
    }
  }

  // ------------------------------------------------------------------ a crash in the middle

  /** Deletions within a transaction leave its end open: until it commits, a crash takes all of them back. */
  lemma {:induction false} DeletesInTransaction(l: Ledger, table: string, keys: seq<int>, n: nat)
    requires Consistent(l) && l.current != INVALID_TXN && n <= |keys|
    ensures var m := AfterDeletes(l, table, keys, n); m.base == l.base && m.current == l.current && m.start == l.start
  {
    if n > 0 { DeletesInTransaction(l, table, keys, n - 1); }
  }

  /** What the first `n` deletions have made of the ledger. */
  ghost predicate Deleted(l: Ledger, m: Ledger, table: string, keys: seq<int>, n: nat)
    requires n <= |keys|
  {
    && Consistent(m) && m.db == l.db - TableKeys(table, keys, n) && m.start == l.start
    && (l.current == INVALID_TXN ==> m.current == INVALID_TXN && m.base == m.db && |m.log| == |l.log| + 3 * n)
  }

  lemma {:induction false} DeletesKeep(l: Ledger, table: string, keys: seq<int>, n: nat)
    requires Consistent(l) && n <= |keys| && Distinct(keys) && AllThere(l.db, table, keys)
    ensures Deleted(l, AfterDeletes(l, table, keys, n), table, keys, n)
  {
    if n > 0 {
      DeletesKeep(l, table, keys, n - 1);
      DeleteOneMore(l, AfterDeletes(l, table, keys, n - 1), table, keys, n - 1);
    }
  }

  lemma DeleteOneMore(l: Ledger, m: Ledger, table: string, keys: seq<int>, n: nat)
    requires n < |keys| && Distinct(keys) && AllThere(l.db, table, keys) && Deleted(l, m, table, keys, n)
    ensures Deleted(l, AfterDelete(m, Key(table, keys[n])), table, keys, n + 1)
  {
    var k := Key(table, keys[n]);
    NotTakenYet(l.db, table, keys, n);
    OneKeyMore(l.db, table, keys, n);
    DeleteEffect(m, k);
    AfterDeleteKeeps(m, k);
  }

  lemma StateAppend(log: seq<Record>, r: Record, start: Db)
    ensures StateAfter(log + [r], start) == Advance(StateAfter(log, start), r)
  {
    assert (log + [r])[..|log|] == log;
  }

  /** The rows to keep after the first `j` of the records of one deletion. */
  lemma WithinDeletion(l: Ledger, k: Key, j: nat)
    requires Consistent(l) && l.current == INVALID_TXN && k in l.db && j <= 3
    ensures StateAfter(l.log + DeleteRecords(0, l.next, k, l.db[k])[..j], l.start).base == if j == 3 then l.db - {k}
      else l.db
  {
    var recs := DeleteRecords(0, l.next, k, l.db[k]);
    StateAppend(l.log, recs[0], l.start);
    StateAppend(l.log + [recs[0]], recs[1], l.start);
    StateAppend(l.log + [recs[0]] + [recs[1]], recs[2], l.start);
    assert l.log + recs[..0] == l.log && l.log + recs[..1] == l.log + [recs[0]];
    assert l.log + recs[..2] == l.log + [recs[0]] + [recs[1]];
    assert l.log + recs[..3] == l.log + [recs[0]] + [recs[1]] + [recs[2]];
  }

  /** The log of one deletion, cut somewhere in its records or before them. */
  lemma OneDeletion(m: Ledger, k: Key, len: nat)
    requires Consistent(m) && m.current == INVALID_TXN && k in m.db && len <= |m.log| + 3
    ensures var m2 := AfterDelete(m, k);
            && |m2.log| == |m.log| + 3
            && (len <= |m.log| ==> m2.log[..len] == m.log[..len])
            && (len >= |m.log| ==> StateAfter(m2.log[..len], m.start).base == if len == |m.log| + 3 then m2.db
              else m.db)
  {
    var recs := DeleteRecords(0, m.next, k, m.db[k]);
    DeleteEffect(m, k);
    if len >= |m.log| {
      WithinDeletion(m, k, len - |m.log|);
      assert (m.log + recs)[..len] == m.log + recs[..len - |m.log|];
    }
  }

  /** The rows to keep when the log of `n` deletions ends after `w` of their records. */
  predicate KeepsThirds(l: Ledger, table: string, keys: seq<int>, n: nat, w: nat)
    requires n <= |keys| && w <= 3 * n
  {
    var log := AfterDeletes(l, table, keys, n).log;
    && |log| == |l.log| + 3 * n
    && StateAfter(log[..|l.log| + w], l.start).base == AfterDeletes(l, table, keys, w / 3).db
  }

  lemma {:induction false} BaseDuringDelete(l: Ledger, table: string, keys: seq<int>, n: nat, w: nat)
    requires Consistent(l) && l.current == INVALID_TXN && n <= |keys| && w <= 3 * n
    requires Distinct(keys) && AllThere(l.db, table, keys)
    ensures KeepsThirds(l, table, keys, n, w)
  {
    if n == 0 {
      assert l.log[..|l.log|] == l.log;
    } else {
      DeletesKeep(l, table, keys, n - 1);
      StillThere(l, table, keys, n - 1);
      if w <= 3 * (n - 1) {
        BaseDuringDelete(l, table, keys, n - 1, w);
        EarlierThird(l, table, keys, n, w);
      } else {
        LastThird(l, table, keys, n, w);
      }
    }
  }

  lemma EarlierThird(l: Ledger, table: string, keys: seq<int>, n: nat, w: nat)
    requires 0 < n <= |keys| && w <= 3 * (n - 1) && KeepsThirds(l, table, keys, n - 1, w)
    requires var m := AfterDeletes(l, table, keys, n - 1);
             Consistent(m) && m.current == INVALID_TXN && Key(table, keys[n - 1]) in m.db
    ensures KeepsThirds(l, table, keys, n, w)
  {
    OneDeletion(AfterDeletes(l, table, keys, n - 1), Key(table, keys[n - 1]), |l.log| + w);
  }

  lemma LastThird(l: Ledger, table: string, keys: seq<int>, n: nat, w: nat)
    requires 0 < n <= |keys| && 3 * (n - 1) < w <= 3 * n
    requires var m := AfterDeletes(l, table, keys, n - 1);
             && Consistent(m) && m.current == INVALID_TXN && Key(table, keys[n - 1]) in m.db
             && m.start == l.start && |m.log| == |l.log| + 3 * (n - 1)
    ensures KeepsThirds(l, table, keys, n, w)
  {
    assert w / 3 == if w == 3 * n then n else n - 1;
    OneDeletion(AfterDeletes(l, table, keys, n - 1), Key(table, keys[n - 1]), |l.log| + w);
  }

  /** Outside a transaction every deletion writes three records. A crash after the first `w` records of the
      statement were written leaves the first `w / 3` keys deleted, and no other. */
  lemma CrashInDelete(l: Ledger, table: string, keys: seq<int>, w: nat)
    requires Consistent(l) && l.current == INVALID_TXN && w <= 3 * |keys|
    requires Distinct(keys) && AllThere(l.db, table, keys)
    ensures var log := AfterDeletes(l, table, keys, |keys|).log;
            && |log| == |l.log| + 3 * |keys|
            && var written := log[..|l.log| + w];
               ApplyCommitted(written, CommittedTxns(written), l.start) == l.db - TableKeys(table, keys, w / 3)
  {
    DeletesKeep(l, table, keys, |keys|);
    DeletesKeep(l, table, keys, w / 3);
    BaseDuringDelete(l, table, keys, |keys|, w);
    BaseOfPrefix(AfterDeletes(l, table, keys, |keys|).log, l.start, |l.log| + w);
  }

  lemma BaseOfPrefix(log: seq<Record>, start: Db, n: nat)
    requires WellFormed(log, start) && n <= |log|
    ensures ApplyCommitted(log[..n], CommittedTxns(log[..n]), start) == StateAfter(log[..n], start).base
  {
    WellFormedPrefix(log, start, n);
    CommittedRowsAreBase(log[..n], start);
  }
}
