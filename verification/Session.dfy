/** The database session: statements change heap and index in place and log first; rollback replays
    the undo list backwards; opening a database rebuilds the index and recovers from the log. */
module Session {
  import RowCodec
  import Heap = HeapFile
  import Page = SlottedPage
  import opened RecoveryLog
  import opened RecoveryProof
  import opened RecoveryOutcome
  import opened SetFacts

  /** A tuple in the heap of `table`. Row ids are unique across tables because pages are. */
  datatype Stored = Stored(table: string, row: Row)

  datatype UndoEntry = UndoEntry(wasInsert: bool, key: Key, image: Row)

  datatype InsertResult = Inserted | DuplicateKey | TextTooLong | TupleTooLarge

  /** A live tuple; one of length zero counts as deleted. */
  predicate Storable(row: Row) {
    Small(row) && row.bytes != []
  }

  function KeyOf(s: Stored): Key {
    Key(s.table, s.row.pk)
  }

  /** The index leads to all live tuples of the heap under their keys, and to nothing else that is live.
      A row of which the heap kept no byte has an index entry and no tuple. */
  ghost predicate Matches(heap: map<int, Stored>, index: map<Key, int>) {
    && (forall k :: k in index && index[k] in heap ==> KeyOf(heap[index[k]]) == k)
    && (forall rid :: rid in heap ==>
      KeyOf(heap[rid]) in index && index[KeyOf(heap[rid])] == rid && Storable(heap[rid].row))
  }

  ghost predicate AllLive(heap: map<int, Stored>, index: map<Key, int>) {
    forall k :: k in index ==> index[k] in heap
  }

  /** What an index entry stands for. */
  function RowAt(heap: map<int, Stored>, index: map<Key, int>, k: Key): Row
    requires k in index
  {
    if index[k] in heap then heap[index[k]].row else Row(k.pk, [])
  }

  ghost function Rows(heap: map<int, Stored>, index: map<Key, int>): (db: Db) {
    map k | k in index :: RowAt(heap, index, k)
  }

  lemma ImageLimits(image: Row)
    ensures |image.bytes| <= 4088 ==> Fits(image)
    ensures 4089 <= |image.bytes| <= 65535 ==> !Fits(image)
  {
  }

  /** The session refuses exactly the images that the heap file refuses. */
  lemma FitsTheHeap(image: Row)
    ensures Fits(image) <==> Heap.FitsEmptyPage(|Kept(image).bytes|)
  {
  }

  /** No two tuples of the heap have the same key. */
  ghost predicate DistinctKeys(heap: map<int, Stored>) {
    forall a, b :: a in heap && b in heap && KeyOf(heap[a]) == KeyOf(heap[b]) ==> a == b
  }

  ghost function KeysOf(heap: map<int, Stored>): set<Key> {
    set rid | rid in heap :: KeyOf(heap[rid])
  }

  ghost function RidOf(heap: map<int, Stored>, k: Key): (rid: int)
    requires k in KeysOf(heap)
    ensures rid in heap && KeyOf(heap[rid]) == k
  {
    var rid :| rid in heap && KeyOf(heap[rid]) == k;
    rid
  }

  predicate ReadableTuple(schemas: Schemas, t: Stored) {
    Readable(schemas, KeyOf(t), t.row)
  }

  /** The rows of a heap, whatever index goes with it. */
  ghost function HeapRows(heap: map<int, Stored>): Db {
    map k | k in KeysOf(heap) :: heap[RidOf(heap, k)].row
  }

  /** What is to be seen of the rows is in the heap. */
  lemma RowsOfHeap(heap: map<int, Stored>, index: map<Key, int>)
    requires Matches(heap, index)
    ensures Visible(Rows(heap, index)) == HeapRows(heap)
    ensures AllLive(heap, index) ==> Rows(heap, index) == HeapRows(heap)
  {
    forall k | k in index && index[k] in heap
      ensures k in KeysOf(heap) && RidOf(heap, k) == index[k]
    {
      var at := index[k];
      assert at in heap && KeyOf(heap[at]) == k;
      assert k in KeysOf(heap);
      var rid := RidOf(heap, k);
      assert KeyOf(heap[rid]) in index && index[KeyOf(heap[rid])] == rid;
    }
    forall k | k in KeysOf(heap)
      ensures k in index && index[k] in heap
    {
      var rid := RidOf(heap, k);
      assert rid in heap;
    }
  }

  lemma RowsAreSmall(heap: map<int, Stored>, index: map<Key, int>)
    requires Matches(heap, index)
    ensures forall k :: k in Rows(heap, index) ==> Small(Rows(heap, index)[k]) && Rows(heap, index)[k].pk == k.pk
  {
    forall k | k in index
      ensures Small(Rows(heap, index)[k]) && Rows(heap, index)[k].pk == k.pk
    {
      var rid := index[k];
      assert rid in heap ==> KeyOf(heap[rid]) == k;
    }
  }

  /** A heap determines what an index that matches it holds of live tuples, so the index can never drift
      from a rebuilt one. */
  lemma MatchingIndexUnique(heap: map<int, Stored>, a: map<Key, int>, b: map<Key, int>)
    requires Matches(heap, a) && Matches(heap, b)
    ensures DistinctKeys(heap) && forall k :: k in KeysOf(heap) ==> k in a && k in b && a[k] == b[k]
    ensures AllLive(heap, a) && AllLive(heap, b) ==> a == b
  {
    if AllLive(heap, a) && AllLive(heap, b) {
      forall k | k in a
        ensures k in b && a[k] == b[k]
      {
        var rid := a[k];
        assert rid in heap && KeyOf(heap[rid]) == k;
      }
      forall k | k in b
        ensures k in a
      {
        var rid := b[k];
        assert rid in heap && KeyOf(heap[rid]) == k;
      }
    }
  }

  /** The rows after the newest entries of the undo list are taken back one by one. */
  function Rewind(undo: seq<UndoEntry>, db: Db): Db {
    if undo == [] then db
    else
      var u := undo[|undo| - 1];
      Rewind(undo[..|undo| - 1], if u.wasInsert then db - {u.key} else db[u.key := u.image])
  }

  predicate CanRewind(undo: seq<UndoEntry>, db: Db) {
    undo == [] ||
    var u := undo[|undo| - 1];
    (if u.wasInsert then u.key in db else u.key !in db && Small(u.image) && u.image.pk == u.key.pk)
    && CanRewind(undo[..|undo| - 1], if u.wasInsert then db - {u.key} else db[u.key := u.image])
  }

  /** Taking back entry `i`, the newest one left. */
  lemma RewindStep(undo: seq<UndoEntry>, i: nat, db: Db)
    requires i < |undo| && CanRewind(undo[..i + 1], db)
    ensures var u := undo[i];
            var db2 := if u.wasInsert then db - {u.key} else db[u.key := u.image];
            && (if u.wasInsert then u.key in db
                else u.key !in db && Fits(u.image) && Kept(u.image) == u.image && u.image.pk == u.key.pk)
            && CanRewind(undo[..i], db2) && Rewind(undo[..i + 1], db) == Rewind(undo[..i], db2)
  {
    assert undo[..i + 1][..i] == undo[..i];
  }

  /** The undo list leads from the current rows back to those at the begin of the transaction. */
  predicate UndoOk(undo: seq<UndoEntry>, db: Db, base: Db, tables: set<string>) {
    && CanRewind(undo, db) && Rewind(undo, db) == base
    && (forall i :: 0 <= i < |undo| ==> undo[i].key.table in tables)
  }

  lemma AppendUndo(undo: seq<UndoEntry>, db: Db, base: Db, tables: set<string>, u: UndoEntry, db2: Db)
    requires UndoOk(undo, db, base, tables) && u.key.table in tables
    requires if u.wasInsert then u.key !in db && u.key in db2 && db2 - {u.key} == db
             else u.key in db && db[u.key] == u.image && Small(u.image) && u.image.pk == u.key.pk && db2 == db - {u.key}
    ensures UndoOk(undo + [u], db2, base, tables)
  {
    assert (undo + [u])[..|undo|] == undo;
    if u.wasInsert {
      assert db2 - {u.key} == db;
    } else {
      assert db2[u.key := u.image] == db;
    }
  }

  predicate IndexKnown(index: map<Key, int>, tables: set<string>) {
    forall k :: k in index ==> k.table in tables
  }

  predicate OfTable(r: Record, tables: set<string>) {
    r.Insert? || r.Delete? ==> r.key.table in tables
  }

  /** The records that recovery looks at: operations on tables the catalog does not list are skipped. */
  function Known(log: seq<Record>, tables: set<string>): seq<Record> {
    if log == [] then []
    else
      var r := log[|log| - 1];
      var before := Known(log[..|log| - 1], tables);
      if OfTable(r, tables) then before + [r] else before
  }

  lemma KnownAppend(log: seq<Record>, i: nat, tables: set<string>)
    requires i < |log|
    ensures Known(log[..i + 1], tables) ==
      if OfTable(log[i], tables) then Known(log[..i], tables) + [log[i]] else Known(log[..i], tables)
  {
    assert log[..i + 1][..i] == log[..i];
  }

  lemma {:induction false} KnownFromFront(log: seq<Record>, tables: set<string>)
    requires log != []
    ensures Known(log, tables) ==
      if OfTable(log[0], tables) then [log[0]] + Known(log[1..], tables) else Known(log[1..], tables)
  {
    var n := |log| - 1;
    if n > 0 {
      KnownFromFront(log[..n], tables);
      assert log[..n][1..] == log[1..][..n - 1];
    }
  }

  lemma {:induction false} AllKnown(log: seq<Record>, tables: set<string>)
    requires forall i :: 0 <= i < |log| ==> OfTable(log[i], tables)
    ensures Known(log, tables) == log
  {
    if log != [] {
      AllKnown(log[..|log| - 1], tables);
    }
  }

  lemma {:induction false} KnownCommits(log: seq<Record>, tables: set<string>)
    ensures CommittedTxns(Known(log, tables)) == CommittedTxns(log)
  {
    if log != [] {
      var n := |log| - 1;
      KnownCommits(log[..n], tables);
      assert log == log[..n] + [log[n]];
      CommittedAppend(log[..n], log[n]);
      KnownAppend(log, n, tables);
      assert log[..n + 1] == log;
      CommittedAppend(Known(log[..n], tables), log[n]);
    }
  }

  lemma UndoPrepend(db: Db, log: seq<Record>, r: Record, committed: set<int>)
    ensures var later := Undo(db, log, committed);
            Undo(db, [r] + log, committed) == if r.tx in committed then later else UndoRecord(later, r)
    ensures UndoRefuses(db, [r] + log, committed) <==>
      UndoRefuses(db, log, committed)
      || (r.tx !in committed && r.Delete? && !Fits(r.image) && r.key !in Undo(db, log, committed))
  {
    assert ([r] + log)[1..] == log;
  }

  /** A pass that was ended early would have been ended on the whole log. */
  lemma {:induction false} LongerKnownRefuses(db: Db, log: seq<Record>, tables: set<string>, committed: set<int>,
    i: nat)
    requires i <= |log| && RedoRefuses(db, Known(log[..i], tables), committed)
    ensures RedoRefuses(db, Known(log, tables), committed)
    decreases |log| - i
  {
    if i < |log| {
      KnownAppend(log, i, tables);
      RedoAppend(db, Known(log[..i], tables), log[i], committed);
      LongerKnownRefuses(db, log, tables, committed, i + 1);
    } else {
      assert log[..i] == log;
    }
  }

  lemma {:induction false} EarlierKnownRefuses(db: Db, log: seq<Record>, tables: set<string>, committed: set<int>,
    i: nat)
    requires i <= |log| && UndoRefuses(db, Known(log[i..], tables), committed)
    ensures UndoRefuses(db, Known(log, tables), committed)
  {
    if i > 0 {
      assert log[i - 1..][1..] == log[i..] && log[i - 1..][0] == log[i - 1];
      KnownFromFront(log[i - 1..], tables);
      UndoPrepend(db, Known(log[i..], tables), log[i - 1], committed);
      EarlierKnownRefuses(db, log, tables, committed, i - 1);
    } else {
      assert log[0..] == log;
    }
  }

  /** The table is as pass 2 leaves it after the first `i` records. */
  predicate Redone(db: Db, c0: Db, log: seq<Record>, tables: set<string>, committed: set<int>, i: nat) {
    && i <= |log| && db == Redo(c0, Known(log[..i], tables), committed)
    && !RedoRefuses(c0, Known(log[..i], tables), committed)
  }

  predicate IsUsed(r: Record, tables: set<string>) {
    (r.Insert? || r.Delete?) && r.key.table in tables
  }

  lemma RedoNext(db: Db, c0: Db, log: seq<Record>, tables: set<string>, committed: set<int>, i: nat)
    requires i < |log| && Redone(db, c0, log, tables, committed, i)
    ensures var r := log[i];
            if r.tx in committed && IsUsed(r, tables) then
              if r.Insert? && !Fits(r.image) && r.key !in db then RedoRefuses(c0, Known(log, tables), committed)
              else Redone(RedoRecord(db, r), c0, log, tables, committed, i + 1)
            else Redone(db, c0, log, tables, committed, i + 1)
  {
    KnownAppend(log, i, tables);
    RedoAppend(c0, Known(log[..i], tables), log[i], committed);
    if RedoRefuses(c0, Known(log[..i + 1], tables), committed) {
      LongerKnownRefuses(c0, log, tables, committed, i + 1);
    }
  }

  lemma RedoDone(db: Db, c0: Db, log: seq<Record>, tables: set<string>, committed: set<int>)
    requires Redone(db, c0, log, tables, committed, |log|)
    ensures db == Redo(c0, Known(log, tables), committed) && !RedoRefuses(c0, Known(log, tables), committed)
  {
    assert log[..|log|] == log;
  }

  /** And as pass 3 leaves it after the records from `i` on. */
  predicate Undone(db: Db, c0: Db, log: seq<Record>, tables: set<string>, committed: set<int>, i: nat) {
    && i <= |log| && db == Undo(c0, Known(log[i..], tables), committed)
    && !UndoRefuses(c0, Known(log[i..], tables), committed)
  }

  lemma UndoNext(db: Db, c0: Db, log: seq<Record>, tables: set<string>, committed: set<int>, i: nat)
    requires i < |log| && Undone(db, c0, log, tables, committed, i + 1)
    ensures var r := log[i];
            if r.tx !in committed && IsUsed(r, tables) then
              if r.Delete? && !Fits(r.image) && r.key !in db then UndoRefuses(c0, Known(log, tables), committed)
              else Undone(UndoRecord(db, r), c0, log, tables, committed, i)
            else Undone(db, c0, log, tables, committed, i)
  {
    assert log[i..][1..] == log[i + 1..] && log[i..][0] == log[i];
    KnownFromFront(log[i..], tables);
    UndoPrepend(c0, Known(log[i + 1..], tables), log[i], committed);
    if UndoRefuses(c0, Known(log[i..], tables), committed) {
      EarlierKnownRefuses(c0, log, tables, committed, i);
    }
  }

  lemma UndoDone(db: Db, c0: Db, log: seq<Record>, tables: set<string>, committed: set<int>)
    requires Undone(db, c0, log, tables, committed, 0)
    ensures db == Undo(c0, Known(log, tables), committed) && !UndoRefuses(c0, Known(log, tables), committed)
  {
    assert log[0..] == log;
  }

  /** What a record of a known table carries. */
  ghost predicate RecordOk(schemas: Schemas, r: Record) {
    && (r.Insert? && r.key.table in schemas ==> ImageOk(schemas, r.key, r.image))
    && (r.Delete? && r.key.table in schemas ==> RowOk(schemas, r.key, r.image))
  }

  ghost predicate RecordsOk(schemas: Schemas, log: seq<Record>) {
    forall i :: 0 <= i < |log| ==> RecordOk(schemas, log[i])
  }

  /** The logs that a session on these tables leaves behind. */
  ghost predicate SessionLog(log: seq<Record>, start: Db, schemas: Schemas) {
    && WellFormed(log, start) && ImagesOk(schemas, log) && RowsOk(schemas, start)
    && forall i :: 0 <= i < |log| ==> OfTable(log[i], schemas.Keys)
  }

  lemma SessionRecordsOk(log: seq<Record>, start: Db, schemas: Schemas)
    requires SessionLog(log, start, schemas)
    ensures RecordsOk(schemas, log)
  {
    forall i | 0 <= i < |log| && log[i].Delete?
      ensures RowOk(schemas, log[i].key, log[i].image)
    {
      var k := log[i].key;
      WellFormedPrefix(log, start, i);
      StatesHaveOrigin(log[..i], start, k);
      OriginOfPrefix(log, i, start, k, log[i].image);
      OriginIsOk(schemas, log, start, k, log[i].image);
    }
  }

  lemma {:induction false} RedoRowsOk(schemas: Schemas, db: Db, log: seq<Record>, committed: set<int>)
    requires RowsOk(schemas, db) && RecordsOk(schemas, log)
    ensures RowsOk(schemas, Redo(db, Known(log, schemas.Keys), committed))
  {
    if log != [] {
      var n := |log| - 1;
      RedoRowsOk(schemas, db, log[..n], committed);
      KnownAppend(log, n, schemas.Keys);
      assert log[..n + 1] == log;
      if OfTable(log[n], schemas.Keys) {
        RedoAppend(db, Known(log[..n], schemas.Keys), log[n], committed);
        OneMoreOk(schemas, log[n]);
      }
    }
  }

  lemma OneMoreOk(schemas: Schemas, r: Record)
    requires RecordOk(schemas, r) && OfTable(r, schemas.Keys)
    ensures r.Insert? ==> RowOk(schemas, r.key, Kept(r.image))
    ensures r.Delete? ==> RowOk(schemas, r.key, Kept(r.image))
  {
    if r.Insert? { KeptIsOk(schemas, r.key, r.image); }
    if r.Delete? { assert Kept(r.image) == r.image; }
  }

  lemma {:induction false} UndoRowsOk(schemas: Schemas, db: Db, log: seq<Record>, committed: set<int>)
    requires RowsOk(schemas, db) && RecordsOk(schemas, log)
    ensures RowsOk(schemas, Undo(db, Known(log, schemas.Keys), committed))
  {
    if log != [] {
      assert RecordsOk(schemas, log[1..]) by {
        assert forall i :: 0 <= i < |log| - 1 ==> log[1..][i] == log[i + 1];
      }
      UndoRowsOk(schemas, db, log[1..], committed);
      KnownFromFront(log, schemas.Keys);
      if OfTable(log[0], schemas.Keys) {
        UndoPrepend(db, Known(log[1..], schemas.Keys), log[0], committed);
        OneMoreOk(schemas, log[0]);
      }
    }
  }

  /** Everything of a session but heap and index: log, undo list and the rows they speak of. */
  datatype Ledger = Ledger(log: seq<Record>, start: Db, schemas: Schemas, db: Db, base: Db,
                           current: int, next: int, undo: seq<UndoEntry>)

  /** A reader of the log who starts from the rows at its last reset sees this session. */
  predicate LogOk(l: Ledger) {
    var s := StateAfter(l.log, l.start);
    s.db == l.db && s.base == l.base && s.current == l.current && s.last < l.next
  }

  ghost predicate Consistent(l: Ledger) {
    && SessionLog(l.log, l.start, l.schemas) && LogOk(l) && 0 <= l.current < l.next
    && UndoOk(l.undo, l.db, l.base, l.schemas.Keys)
    && (l.current == INVALID_TXN ==> l.undo == [] && l.base == l.db)
  }

  /** Appending an allowed record keeps the log in step with the session. */
  lemma AppendRecord(l: Ledger, r: Record, l2: Ledger)
    requires Consistent(l) && OfTable(r, l.schemas.Keys) && Allowed(StateAfter(l.log, l.start), r)
    requires r.Insert? ==> ImageOk(l.schemas, r.key, r.image)
    requires l2.log == l.log + [r] && l2.start == l.start && l2.schemas == l.schemas
    ensures SessionLog(l2.log, l2.start, l2.schemas)
    ensures StateAfter(l2.log, l2.start) == Advance(StateAfter(l.log, l.start), r)
  {
    ExtendLog(l.log, r, l2.log, l.start);
    assert forall i :: 0 <= i < |l.log| ==> l2.log[i] == l.log[i];
  }

  function Begun(l: Ledger): Ledger {
    l.(log := l.log + [Begin(l.next)], current := l.next, next := l.next + 1, undo := [])
  }

  lemma BeginKeeps(l: Ledger)
    requires Consistent(l) && l.current == INVALID_TXN
    ensures Consistent(Begun(l))
  {
    AppendRecord(l, Begin(l.next), Begun(l));
  }

  function Committed(l: Ledger): Ledger {
    l.(log := l.log + [Commit(l.current)], current := INVALID_TXN, base := l.db, undo := [])
  }

  lemma CommitKeeps(l: Ledger)
    requires Consistent(l) && l.current != INVALID_TXN
    ensures Consistent(Committed(l))
  {
    AppendRecord(l, Commit(l.current), Committed(l));
  }

  function RolledBack(l: Ledger): Ledger {
    l.(log := l.log + [Abort(l.current)], current := INVALID_TXN, db := l.base, undo := [])
  }

  lemma RollbackKeeps(l: Ledger)
    requires Consistent(l) && l.current != INVALID_TXN
    ensures Consistent(RolledBack(l)) && CanRewind(l.undo, l.db) && Rewind(l.undo, l.db) == l.base
  {
    AppendRecord(l, Abort(l.current), RolledBack(l));
  }

  /** A logged insert, taken by the heap or refused. */
  function WithInsert(l: Ledger, k: Key, row: Row): Ledger {
    var logged := l.(log := l.log + [Insert(l.current, k, row)]);
    if Fits(row) then logged.(db := l.db[k := Kept(row)], undo := l.undo + [UndoEntry(true, k, row)]) else logged
  }

  lemma InsertKeeps(l: Ledger, k: Key, row: Row)
    requires Consistent(l) && l.current != INVALID_TXN && k !in l.db && ImageOk(l.schemas, k, row)
    ensures Consistent(WithInsert(l, k, row))
  {
    AppendRecord(l, Insert(l.current, k, row), WithInsert(l, k, row));
    if Fits(row) {
      AppendUndo(l.undo, l.db, l.base, l.schemas.Keys, UndoEntry(true, k, row), l.db[k := Kept(row)]);
    }
  }

  function WithDelete(l: Ledger, k: Key): Ledger
    requires k in l.db
  {
    l.(log := l.log + [Delete(l.current, k, l.db[k])], db := l.db - {k},
      undo := l.undo + [UndoEntry(false, k, l.db[k])])
  }

  lemma DeleteKeeps(l: Ledger, k: Key)
    requires Consistent(l) && l.current != INVALID_TXN && k in l.db && k.table in l.schemas
    requires Small(l.db[k]) && l.db[k].pk == k.pk
    ensures Consistent(WithDelete(l, k))
  {
    AppendRecord(l, Delete(l.current, k, l.db[k]), WithDelete(l, k));
    AppendUndo(l.undo, l.db, l.base, l.schemas.Keys, UndoEntry(false, k, l.db[k]), l.db - {k});
  }

  /** What scanning the tuples in this order leaves in the index: of two tuples with one key the later. */
  function IndexOf(tuples: map<int, Stored>, order: seq<int>): map<Key, int>
    requires forall i :: 0 <= i < |order| ==> order[i] in tuples
  {
    if order == [] then map[]
    else
      var last := order[|order| - 1];
      IndexOf(tuples, order[..|order| - 1])[KeyOf(tuples[last]) := last]
  }

  lemma {:induction false} LastTupleWins(tuples: map<int, Stored>, order: seq<int>, i: nat)
    requires (forall j :: 0 <= j < |order| ==> order[j] in tuples) && i < |order|
    requires forall j :: i < j < |order| ==> KeyOf(tuples[order[j]]) != KeyOf(tuples[order[i]])
    ensures var k := KeyOf(tuples[order[i]]);
            k in IndexOf(tuples, order) && IndexOf(tuples, order)[k] == order[i]
  {
    if i < |order| - 1 {
      LastTupleWins(tuples, order[..|order| - 1], i);
    }
  }

  lemma {:induction false} IndexEntries(tuples: map<int, Stored>, order: seq<int>)
    requires forall j :: 0 <= j < |order| ==> order[j] in tuples
    ensures forall k :: k in IndexOf(tuples, order) ==>
      IndexOf(tuples, order)[k] in tuples && KeyOf(tuples[IndexOf(tuples, order)[k]]) == k
    ensures forall j :: 0 <= j < |order| ==> KeyOf(tuples[order[j]]) in IndexOf(tuples, order)
    ensures AllLive(tuples, IndexOf(tuples, order))
  {
    if order != [] {
      IndexEntries(tuples, order[..|order| - 1]);
    }
  }

  /** An index rebuilt from a heap matches it if and only if no two tuples have the same key. */
  lemma RebuiltIndexMatches(tuples: map<int, Stored>, order: seq<int>)
    requires (forall j :: 0 <= j < |order| ==> order[j] in tuples) && (forall rid :: rid in tuples ==> rid in order)
    requires forall rid :: rid in tuples ==> Storable(tuples[rid].row)
    ensures Matches(tuples, IndexOf(tuples, order)) <==> DistinctKeys(tuples)
  {
    IndexEntries(tuples, order);
    var index := IndexOf(tuples, order);
    if Matches(tuples, index) {
      MatchingIndexUnique(tuples, index, index);
    }
    if DistinctKeys(tuples) {
      forall rid | rid in tuples
        ensures KeyOf(tuples[rid]) in index && index[KeyOf(tuples[rid])] == rid
      {
        var j :| 0 <= j < |order| && order[j] == rid;
      }
    }
  }

  function WithTxn(l: Ledger): Ledger {
    if l.current == INVALID_TXN then Begun(l) else l
  }

  /** The ledger after an INSERT with this result: outside a transaction it opens one, and ends it if all
      went well. */
  function AfterInsert(l: Ledger, r: InsertResult, k: Key, row: Row): Ledger {
    match r
    case DuplicateKey => l
    case TextTooLong => WithTxn(l)
    case TupleTooLarge => WithInsert(WithTxn(l), k, row)
    case Inserted =>
      var done := WithInsert(WithTxn(l), k, row);
      if l.current == INVALID_TXN then Committed(done) else done
  }

  /** And after a deletion of the row of `k`. */
  function AfterDelete(l: Ledger, k: Key): Ledger {
    if k !in l.db then l
    else
      var done := WithDelete(WithTxn(l), k);
      if l.current == INVALID_TXN then Committed(done) else done
  }

  /** What an INSERT writes to the log. */
  function InsertRecords(r: InsertResult, current: int, next: int, k: Key, row: Row): seq<Record> {
    var tx := if current == INVALID_TXN then next else current;
    var begin := if current == INVALID_TXN then [Begin(next)] else [];
    match r
    case DuplicateKey => []
    case TextTooLong => begin
    case TupleTooLarge => begin + [Insert(tx, k, row)]
    case Inserted => begin + [Insert(tx, k, row)] + if current == INVALID_TXN then [Commit(next)] else []
  }

  lemma InsertEffect(l: Ledger, r: InsertResult, k: Key, row: Row)
    requires Consistent(l) && (r.Inserted? ==> Fits(row)) && (r.TupleTooLarge? ==> !Fits(row))
    ensures var m := AfterInsert(l, r, k, row);
            && m.log == l.log + InsertRecords(r, l.current, l.next, k, row)
            && m.schemas == l.schemas && m.start == l.start
            && m.db == (if r.Inserted? then l.db[k := Kept(row)] else l.db)
            && (if l.current != INVALID_TXN then m.base == l.base && m.current == l.current
                else (m.current != INVALID_TXN <==> r.TextTooLong? || r.TupleTooLarge?)
                     && m.base == if r.Inserted? then m.db else l.base)
  {
  }

  function DeleteRecords(current: int, next: int, k: Key, before: Row): seq<Record> {
    if current == INVALID_TXN then [Begin(next), Delete(next, k, before), Commit(next)]
      else [Delete(current, k, before)]
  }

  lemma DeleteEffect(l: Ledger, k: Key)
    requires Consistent(l)
    ensures var m := AfterDelete(l, k);
            && m.log == l.log + (if k in l.db then DeleteRecords(l.current, l.next, k, l.db[k]) else [])
            && m.schemas == l.schemas && m.start == l.start && m.db == l.db - {k} && m.current == l.current
            && m.base == (if l.current == INVALID_TXN then m.db else l.base)
            && m.next == l.next + if k in l.db && l.current == INVALID_TXN then 1 else 0
  {
  }

  lemma AfterDeleteKeeps(l: Ledger, k: Key)
    requires Consistent(l)
    ensures Consistent(AfterDelete(l, k))
  {
    if k in l.db {
      TablesAreSmall(l.log, l.start);
      StatesHaveOrigin(l.log, l.start, k);
      OriginIsOk(l.schemas, l.log, l.start, k, l.db[k]);
      if l.current == INVALID_TXN { BeginKeeps(l); }
      DeleteKeeps(WithTxn(l), k);
      if l.current == INVALID_TXN { CommitKeeps(WithDelete(WithTxn(l), k)); }
    }
  }

  /** A new tuple under a row id never issued, or for a row of which nothing was kept just the entry. */
  lemma PutKeeps(heap: map<int, Stored>, index: map<Key, int>, k: Key, image: Row, rid: int)
    requires Matches(heap, index) && k !in index && image.pk == k.pk && Fits(image)
    requires rid !in heap && rid !in index.Values
    ensures var heap2 := if Kept(image).bytes == [] then heap else heap[rid := Stored(k.table, Kept(image))];
            Matches(heap2, index[k := rid]) && Rows(heap2, index[k := rid]) == Rows(heap, index)[k := Kept(image)]
  {
    assert forall x :: x in index ==> index[x] in index.Values;
  }

  class Database {
    var tables: Schemas
    var heap: map<int, Stored>
    var index: map<Key, int>
    var log: seq<Record>
    var currentTxn: int
    var nextTxn: int
    var autocommitStarted: bool
    var undo: seq<UndoEntry>

    /** The rows at the last reset of the log, and at the begin of the open transaction. */
    ghost var start: Db
    ghost var base: Db

    ghost predicate Valid()
      reads this
    {
      Matches(heap, index) && IndexKnown(index, tables.Keys) && Consistent(Look())
    }

    ghost function Look(): Ledger
      reads this
    {
      Ledger(log, start, tables, Contents(), base, currentTxn, nextTxn, undo)
    }

    ghost function Contents(): Db
      reads this
    {
      Rows(heap, index)
    }

    /** Opening the files, before the heap is looked at. */
    constructor (schemas: Schemas, tuples: map<int, Stored>, logged: seq<Record>)
      ensures index == map[] && heap == tuples && tables == schemas && log == logged
      ensures currentTxn == INVALID_TXN && nextTxn == 1 && undo == []
    {
      tables, heap, log, index := schemas, tuples, logged, map[];
      currentTxn, nextTxn, autocommitStarted, undo := INVALID_TXN, 1, false, [];
      start, base := map[], map[];
    }

    /** Every tuple is decoded and entered in the index under the key found in it. A tuple that does not
        decode ends it, and the opening of the database. */
    method RebuildIndex(order: seq<int>) returns (ok: bool)
      requires index == map[] && forall j :: 0 <= j < |order| ==> order[j] in heap
      requires forall rid :: rid in heap ==> RowOk(tables, KeyOf(heap[rid]), heap[rid].row)
      modifies this`index
      ensures ok <==> forall j :: 0 <= j < |order| ==> ReadableTuple(tables, heap[order[j]])
      ensures ok ==> index == IndexOf(heap, order)
    {
      ghost var schemas, tuples := tables, heap;
      var ix: map<Key, int> := map[];
      for i := 0 to |order|
        invariant tables == schemas && heap == tuples && ix == IndexOf(tuples, order[..i])
        invariant ReadableUpTo(schemas, tuples, order, i)
      {
        var tuple := heap[order[i]];
        ScanStep(schemas, tuples, order, i);
        var decoded := RowCodec.Deserialize(tables[tuple.table], tuple.row.bytes);
        if !decoded.Decoded? { return false; }
        ix := ix[Key(tuple.table, decoded.row[0].i) := order[i]];
      }
      assert order[..|order|] == order;
      index := ix;
      ok := true;
    }

    predicate ReadableUpTo(schemas: Schemas, tuples: map<int, Stored>, order: seq<int>, n: nat)
      requires n <= |order| && forall j :: 0 <= j < |order| ==> order[j] in tuples
    {
      forall j :: 0 <= j < n ==> ReadableTuple(schemas, tuples[order[j]])
    }

    lemma ScanStep(schemas: Schemas, tuples: map<int, Stored>, order: seq<int>, i: nat)
      requires i < |order| && forall j :: 0 <= j < |order| ==> order[j] in tuples
      requires forall rid :: rid in tuples ==> RowOk(schemas, KeyOf(tuples[rid]), tuples[rid].row)
      ensures DecodesAsStored(schemas, tuples[order[i]])
      ensures ReadableTuple(schemas, tuples[order[i]]) && ReadableUpTo(schemas, tuples, order, i)
        ==> ReadableUpTo(schemas, tuples, order, i + 1)
      ensures IndexOf(tuples, order[..i + 1]) == IndexOf(tuples, order[..i])[KeyOf(tuples[order[i]]) := order[i]]
    {
      var rid := order[i];
      assert rid in tuples && RowOk(schemas, KeyOf(tuples[rid]), tuples[rid].row);
      StoredDecodes(schemas, tuples[rid]);
      IndexNext(tuples, order, i);
    }

    lemma IndexNext(tuples: map<int, Stored>, order: seq<int>, i: nat)
      requires i < |order| && forall j :: 0 <= j < |order| ==> order[j] in tuples
      ensures IndexOf(tuples, order[..i + 1]) == IndexOf(tuples, order[..i])[KeyOf(tuples[order[i]]) := order[i]]
    {
      assert order[..i + 1][..i] == order[..i];
    }

    /** A tuple that decodes shows the key it was stored for. */
    predicate DecodesAsStored(schemas: Schemas, t: Stored) {
      t.table in schemas &&
      var d := RowCodec.DecodeFrom(schemas[t.table], t.row.bytes, 0);
      && (d.Decoded? <==> ReadableTuple(schemas, t))
      && (d.Decoded? ==> d.row != [] && d.row[0].IntValue? && d.row[0].i == t.row.pk)
    }

    lemma StoredDecodes(schemas: Schemas, t: Stored)
      requires RowOk(schemas, KeyOf(t), t.row)
      ensures DecodesAsStored(schemas, t)
    {
      RowCodec.DecodedKey(schemas[t.table], t.row.pk, t.row.bytes);
    }

    /** Put a row into heap and index; fails, changing nothing, when the heap refuses the tuple. Its
        length is passed on in 16 bits; if nothing is left of it, the new index entry leads to no live
        tuple. Row ids are never issued twice. */
    method PhysInsert(k: Key, image: Row) returns (ok: bool)
      requires Matches(heap, index) && k !in index && image.pk == k.pk
      modifies this`heap, this`index
      ensures Matches(heap, index) && (ok <==> Fits(image))
      ensures Contents() == if ok then old(Contents())[k := Kept(image)] else old(Contents())
      ensures index.Keys == if ok then old(index).Keys + {k} else old(index).Keys
      ensures ok ==> (index[k] in heap <==> Kept(image).bytes != [])
      ensures !ok ==> heap == old(heap) && index == old(index)
    {
      var len := |image.bytes| % 0x1_0000;
      if len + Page.HEADER_SIZE + Page.SLOT_SIZE > Page.PAGE_SIZE { return false; }
      ghost var bound := LargerThanAll(heap.Keys + index.Values);
      assert bound !in heap && bound !in index.Values;
      var rid: int :| rid !in heap && rid !in index.Values;
      PutKeeps(heap, index, k, image, rid);
      if len > 0 {
        heap := heap[rid := Stored(k.table, Row(image.pk, image.bytes[..len]))];
      }
      index := index[k := rid];
      ok := true;
    }

    method PhysDelete(k: Key)
      requires Matches(heap, index)
      modifies this`heap, this`index
      ensures Matches(heap, index)
      ensures Contents() == old(Contents()) - {k} && index.Keys == old(index).Keys - {k}
    {
      if k !in index { return; }
      heap := heap - {index[k]};
      index := index - {k};
    }

    method Begin() returns (ok: bool)
      requires Valid()
      modifies this`currentTxn, this`nextTxn, this`autocommitStarted, this`undo, this`log
      ensures Valid() && (ok <==> old(currentTxn) == INVALID_TXN)
      ensures Look() == if ok then Begun(old(Look())) else old(Look())
      ensures ok ==> base == Contents()
    {
      if currentTxn != INVALID_TXN { return false; }
      ghost var l := Look();
      BeginKeeps(l);
      currentTxn := nextTxn;
      nextTxn := nextTxn + 1;
      autocommitStarted := false;
      undo := [];
      log := log + [RecoveryLog.Begin(currentTxn)];
      assert Look() == l.(log := log, current := currentTxn, next := nextTxn, undo := undo) == Begun(l);
      ok := true;
    }

    method Commit() returns (ok: bool)
      requires Valid()
      modifies this`currentTxn, this`autocommitStarted, this`undo, this`log, this`base
      ensures Valid() && (ok <==> old(currentTxn) != INVALID_TXN)
      ensures Look() == if ok then Committed(old(Look())) else old(Look())
    {
      if currentTxn == INVALID_TXN { return false; }
      ghost var l := Look();
      CommitKeeps(l);
      log := log + [RecoveryLog.Commit(currentTxn)];
      currentTxn := INVALID_TXN;
      autocommitStarted := false;
      undo := [];
      base := Contents();
      assert Look() == l.(log := log, current := currentTxn, base := base, undo := undo) == Committed(l);
      ok := true;
    }

    /** Rollback restores exactly the rows held at begin, whatever was inserted and deleted since. */
    method Rollback() returns (ok: bool)
      requires Valid()
      modifies this
      ensures Valid() && (ok <==> old(currentTxn) != INVALID_TXN)
      ensures Look() == if ok then RolledBack(old(Look())) else old(Look())
      ensures ok ==> Contents() == old(base)
    {
      if currentTxn == INVALID_TXN { return false; }
      ghost var l := Look();
      RollbackKeeps(l);
      ReplayUndo();
      log := log + [RecoveryLog.Abort(currentTxn)];
      currentTxn := INVALID_TXN;
      autocommitStarted := false;
      undo := [];
      assert Look() == RolledBack(l);
      ok := true;
    }

    /** The inverse operations, newest first. */
    method ReplayUndo()
      requires Matches(heap, index) && CanRewind(undo, Contents())
      requires IndexKnown(index, tables.Keys) && forall i :: 0 <= i < |undo| ==> undo[i].key.table in tables
      modifies this`heap, this`index
      ensures Matches(heap, index) && Contents() == Rewind(undo, old(Contents())) && IndexKnown(index, tables.Keys)
    {
      ghost var c0 := Contents();
      assert undo[..|undo|] == undo;
      var i := |undo|;
      while i > 0
        invariant 0 <= i <= |undo| && Matches(heap, index) && IndexKnown(index, tables.Keys)
        invariant CanRewind(undo[..i], Contents()) && Rewind(undo[..i], Contents()) == Rewind(undo, c0)
      {
        i := i - 1;
        RewindStep(undo, i, Contents());
        if undo[i].key.table in tables {
          if undo[i].wasInsert {
            PhysDelete(undo[i].key);
          } else {
            var ok := PhysInsert(undo[i].key, undo[i].image);
          }
        }
      }
      assert undo[..0] == [];
    }

    /** Opens an implicit transaction when none is active. */
    method EnsureTxn() returns (implicit: bool)
      requires Valid()
      modifies this`currentTxn, this`nextTxn, this`autocommitStarted, this`undo, this`log
      ensures Valid() && currentTxn != INVALID_TXN && (implicit <==> old(currentTxn) == INVALID_TXN)
      ensures Look() == WithTxn(old(Look()))
    {
      if currentTxn != INVALID_TXN { return false; }
      var begun := Begin();
      autocommitStarted := true;
      implicit := true;
    }

    /** Log an insert of an absent key, apply it and remember its inverse. A refused insert stays in the
        log, and nothing else of it remains. */
    method LoggedInsert(k: Key, row: Row) returns (ok: bool)
      requires Valid() && k !in index && ImageOk(tables, k, row) && currentTxn != INVALID_TXN
      modifies this`log, this`heap, this`index, this`undo
      ensures Valid() && (ok <==> Fits(row)) && Look() == WithInsert(old(Look()), k, row)
    {
      ghost var l := Look();
      InsertKeeps(l, k, row);
      log := log + [RecoveryLog.Insert(currentTxn, k, row)];
      assert Look() == l.(log := log);
      ok := PhysInsert(k, row);
      assert Look() == l.(log := log, db := Contents());
      if ok { undo := undo + [UndoEntry(true, k, row)]; }
      assert Look() == l.(log := log, db := Contents(), undo := undo) == WithInsert(l, k, row);
    }

    /** Log a delete of a present key, apply it and remember its inverse. */
    method LoggedDelete(k: Key, before: Row)
      requires Valid() && k in index && RowAt(heap, index, k) == before && currentTxn != INVALID_TXN
      modifies this`log, this`heap, this`index, this`undo
      ensures Valid() && k in old(Contents()) && Look() == WithDelete(old(Look()), k)
    {
      ghost var l := Look();
      RowsAreSmall(heap, index);
      DeleteKeeps(l, k);
      log := log + [RecoveryLog.Delete(currentTxn, k, before)];
      PhysDelete(k);
      undo := undo + [UndoEntry(false, k, before)];
      assert Look() == WithDelete(l, k);
    }

    /** What the tables look like after an insert of a row that fits the columns. A duplicate changes
        nothing at all; a text too long for its length field is found only after a transaction was opened,
        a tuple too large for a page only after it was logged, too. */
    method InsertRow(table: string, values: seq<RowCodec.Value>) returns (r: InsertResult)
      requires Valid() && table in tables && RowCodec.IsSchema(tables[table]) && RowCodec.Typed(tables[table], values)
      modifies this
      ensures Valid() && tables == old(tables) && start == old(start)
      ensures var k, row := Key(table, values[0].i), Row(values[0].i, RowCodec.Fields(values));
              && r == (if k in old(Contents()) then DuplicateKey
                       else if !RowCodec.TextsFit(values) then TextTooLong
                       else if Fits(row) then Inserted else TupleTooLarge)
              && Contents() == (if r.Inserted? then old(Contents())[k := Kept(row)] else old(Contents()))
              && log == old(log) + InsertRecords(r, old(currentTxn), old(nextTxn), k, row)
      ensures Key(table, values[0].i) !in old(Contents()) && RowCodec.TextsFit(values) ==>
        var len := |RowCodec.Fields(values)|;
        (len <= 4088 ==> r == Inserted) && (4089 <= len <= 65535 ==> r == TupleTooLarge)
      ensures old(currentTxn) != INVALID_TXN ==> base == old(base) && currentTxn == old(currentTxn)
      ensures old(currentTxn) == INVALID_TXN ==>
        (currentTxn != INVALID_TXN <==> r.TextTooLong? || r.TupleTooLarge?)
        && base == if r.Inserted? then Contents() else old(base)
    {
      ghost var l := Look();
      ghost var row := Row(values[0].i, RowCodec.Fields(values));
      var k := Key(table, values[0].i);
      if k in index { return DuplicateKey; }
      var implicit := EnsureTxn();
      var image := RowCodec.Serialize(tables[table], values);
      if image.TextTooLong? {
        InsertEffect(l, TextTooLong, k, row);
        return TextTooLong;
      }
      assert RowCodec.EncodesRow(tables[table], values, k.pk, row.bytes);
      r := FinishInsert(k, Row(values[0].i, image.bytes), implicit, l);
      InsertEffect(l, r, k, row);
      ImageLimits(row);
    }

    /** The rest of an insertion, once a transaction is open. */
    method FinishInsert(k: Key, row: Row, implicit: bool, ghost l: Ledger) returns (r: InsertResult)
      requires Valid() && k !in index && ImageOk(tables, k, row) && currentTxn != INVALID_TXN
      requires Look() == WithTxn(l) && (implicit <==> l.current == INVALID_TXN)
      modifies this
      ensures Valid() && r == (if Fits(row) then Inserted else TupleTooLarge) && Look() == AfterInsert(l, r, k, row)
    {
      var ok := LoggedInsert(k, row);
      assert Look() == WithInsert(WithTxn(l), k, row);
      if !ok { return TupleTooLarge; }
      if implicit { var done := Commit(); }
      r := Inserted;
      assert Look() == AfterInsert(l, r, k, row);
    }

    /** Outside a transaction the deletion is a committed one of its own. */
    method DeleteByKey(table: string, pk: int) returns (removed: bool)
      requires Valid()
      modifies this
      ensures Valid() && (removed <==> Key(table, pk) in old(Contents()))
      ensures Look() == AfterDelete(old(Look()), Key(table, pk))
      ensures Contents() == old(Contents()) - {Key(table, pk)}
    {
      ghost var l := Look();
      var k := Key(table, pk);
      DeleteEffect(l, k);
      if k !in index { return false; }
      var before := RowAt(heap, index, k);
      var implicit := EnsureTxn();
      LoggedDelete(k, before);
      if implicit { var done := Commit(); }
      assert Look() == AfterDelete(l, k);
      removed := true;
    }

    /** Pass 1: the committed transactions and the next free id. */
    method ScanLog() returns (committed: set<int>, maxTxn: int)
      ensures committed == CommittedTxns(log)
      ensures maxTxn >= 0 && forall i :: 0 <= i < |log| ==> log[i].tx <= maxTxn
    {
      committed, maxTxn := {}, 0;
      for i := 0 to |log|
        invariant committed == CommittedTxns(log[..i])
        invariant maxTxn >= 0 && forall j :: 0 <= j < i ==> log[j].tx <= maxTxn
      {
        if log[i].tx > maxTxn { maxTxn := log[i].tx; }
        CommittedAppend(log[..i], log[i]);
        assert log[..i + 1] == log[..i] + [log[i]];
        if log[i].Commit? { committed := committed + {log[i].tx}; }
      }
      assert log[..|log|] == log;
    }

    /** Pass 2; an insert that the heap refuses ends it, and recovery, with an exception. */
    method RedoPass(committed: set<int>) returns (ok: bool)
      requires Matches(heap, index) && IndexKnown(index, tables.Keys) && RecordsOk(tables, log)
      modifies this`heap, this`index
      ensures Matches(heap, index) && IndexKnown(index, tables.Keys)
      ensures ok <==> !RedoRefuses(old(Contents()), Known(log, tables.Keys), committed)
      ensures ok ==> Contents() == Redo(old(Contents()), Known(log, tables.Keys), committed)
    {
      ghost var c0, names := Contents(), tables.Keys;
      for i := 0 to |log|
        invariant Matches(heap, index) && IndexKnown(index, tables.Keys)
        invariant Redone(Contents(), c0, log, names, committed, i)
      {
        var r := log[i];
        RedoNext(Contents(), c0, log, names, committed, i);
        if r.tx in committed && (r.Insert? || r.Delete?) && r.key.table in tables {
          ok := RedoOne(r);
          if !ok { return; }
        }
      }
      RedoDone(Contents(), c0, log, names, committed);
      ok := true;
    }

    /** Insert if absent, delete if present. */
    method RedoOne(r: Record) returns (ok: bool)
      requires Matches(heap, index) && IndexKnown(index, tables.Keys) && (r.Insert? || r.Delete?)
        && r.key.table in tables
      requires r.image.pk == r.key.pk
      modifies this`heap, this`index
      ensures Matches(heap, index) && IndexKnown(index, tables.Keys)
      ensures ok <==> !(r.Insert? && !Fits(r.image) && r.key !in old(Contents()))
      ensures Contents() == RedoRecord(old(Contents()), r)
    {
      ok := true;
      if r.Insert? {
        if r.key !in index { ok := PhysInsert(r.key, r.image); }
      } else if r.key in index {
        PhysDelete(r.key);
      }
    }

    /** Take back an insert if present, a delete if absent. */
    method UndoOne(r: Record) returns (ok: bool)
      requires Matches(heap, index) && IndexKnown(index, tables.Keys) && (r.Insert? || r.Delete?)
        && r.key.table in tables
      requires r.image.pk == r.key.pk
      modifies this`heap, this`index
      ensures Matches(heap, index) && IndexKnown(index, tables.Keys)
      ensures ok <==> !(r.Delete? && !Fits(r.image) && r.key !in old(Contents()))
      ensures ok ==> Contents() == UndoRecord(old(Contents()), r)
    {
      ok := true;
      if r.Insert? {
        if r.key in index { PhysDelete(r.key); }
      } else if r.key !in index {
        ok := PhysInsert(r.key, r.image);
      }
    }

    /** Pass 3, newest record first. */
    method UndoPass(committed: set<int>) returns (ok: bool)
      requires Matches(heap, index) && IndexKnown(index, tables.Keys) && RecordsOk(tables, log)
      modifies this`heap, this`index
      ensures Matches(heap, index) && IndexKnown(index, tables.Keys)
      ensures ok <==> !UndoRefuses(old(Contents()), Known(log, tables.Keys), committed)
      ensures ok ==> Contents() == Undo(old(Contents()), Known(log, tables.Keys), committed)
    {
      ghost var c0, names := Contents(), tables.Keys;
      var i := |log|;
      while i > 0
        invariant 0 <= i <= |log| && Matches(heap, index) && IndexKnown(index, tables.Keys)
        invariant Undone(Contents(), c0, log, names, committed, i)
      {
        i := i - 1;
        var r := log[i];
        UndoNext(Contents(), c0, log, names, committed, i);
        if r.tx !in committed && (r.Insert? || r.Delete?) && r.key.table in tables {
          ok := UndoOne(r);
          if !ok { return; }
        }
      }
      UndoDone(Contents(), c0, log, names, committed);
      ok := true;
    }

    /** Crash recovery; afterwards the log is empty and the session starts from the recovered rows. When
        it is refused, the log stays, and with it the reason. */
    method RecoverTables() returns (ok: bool)
      requires Matches(heap, index) && IndexKnown(index, tables.Keys) && RecordsOk(tables, log)
      requires currentTxn == INVALID_TXN && undo == [] && nextTxn == 1 && RowsOk(tables, Contents())
      modifies this
      ensures tables == old(tables)
      ensures ok <==> RecoveryLog.Recover(old(Contents()), Known(old(log), tables.Keys)).Recovered?
      ensures ok ==> Valid() && log == [] && start == Contents()
      ensures ok ==> forall i :: 0 <= i < |old(log)| ==> old(log)[i].tx < nextTxn
      ensures ok ==> Contents() == RecoveryLog.Recover(old(Contents()), Known(old(log), tables.Keys)).db
      ensures !ok ==> log == old(log)
    {
      ghost var c0, log0 := Contents(), log;
      if log != [] {
        var committed, maxTxn := ScanLog();
        OutcomeOfPasses(c0, log, tables.Keys, committed);
        RedoRowsOk(tables, c0, log, committed);
        UndoRowsOk(tables, Redo(c0, Known(log, tables.Keys), committed), log, committed);
        nextTxn := maxTxn + 1;
        ok := RedoPass(committed);
        if !ok { return; }
        ok := UndoPass(committed);
        if !ok { return; }
        log := [];
      }
      if log0 == [] { NothingToRecover(c0, tables.Keys); }
      StartAfresh();
      ok := true;
    }

    ghost method StartAfresh()
      requires Matches(heap, index) && IndexKnown(index, tables.Keys) && log == []
      requires currentTxn == INVALID_TXN && undo == [] && nextTxn > 0 && RowsOk(tables, Contents())
      modifies this`start, this`base
      ensures Valid() && start == Contents() == old(Contents())
    {
      start, base := Contents(), Contents();
      RowsAreSmall(heap, index);
      NewLedger(Look());
    }
  }

  lemma OutcomeOfPasses(db: Db, log: seq<Record>, tables: set<string>, committed: set<int>)
    requires committed == CommittedTxns(log)
    ensures var known := Known(log, tables);
            var out := Recover(db, known);
            && (out.Recovered? <==>
                !RedoRefuses(db, known, committed) && !UndoRefuses(Redo(db, known, committed), known, committed))
            && (out.Recovered? ==> out.db == Undo(Redo(db, known, committed), known, committed))
  {
    KnownCommits(log, tables);
  }

  lemma NothingToRecover(db: Db, tables: set<string>)
    ensures Recover(db, Known([], tables)) == Recovered(db)
  {
  }

  lemma NewLedger(l: Ledger)
    requires l.log == [] && l.start == l.db == l.base && AllSmall(l.db) && l.current == INVALID_TXN && l.next > 0
      && l.undo == []
    requires RowsOk(l.schemas, l.db)
    ensures Consistent(l)
  {
  }

  lemma CommittedAppend(log: seq<Record>, r: Record)
    ensures CommittedTxns(log + [r]) == CommittedTxns(log) + if r.Commit? then {r.tx} else {}
  {
    var both := log + [r];
    assert both[|log|] == r;
    assert forall i :: 0 <= i < |log| ==> both[i] == log[i];
    forall x | x in CommittedTxns(log)
      ensures x in CommittedTxns(both)
    {
      var i :| 0 <= i < |log| && log[i].Commit? && log[i].tx == x;
      assert both[i].Commit?;
    }
  }

  /** Opening a database after a crash, from a disk that holds, for each key, any state the key was in.
      It fails exactly on a cut tuple or an unplayable insert; otherwise the session shows the committed
      rows if and only if every key of the log passes the check. */
  method OpenAfterCrash(schemas: Schemas, tuples: map<int, Stored>, order: seq<int>, logged: seq<Record>,
    ghost begin: Db)
    returns (db: Database, ok: bool)
    requires (forall j :: 0 <= j < |order| ==> order[j] in tuples) && (forall rid :: rid in tuples ==> rid in order)
    requires DistinctKeys(tuples) && forall rid :: rid in tuples ==> Storable(tuples[rid].row)
    requires SessionLog(logged, begin, schemas) && DiskAfterCrash(HeapRows(tuples), logged, begin)
    ensures fresh(db) && db.tables == schemas
    ensures ok <==> Open(schemas, HeapRows(tuples), logged).Opened?
    ensures ok <==> !HoldsCut(schemas, HeapRows(tuples)) && !exists i :: Unplayable(HeapRows(tuples), logged, i)
    ensures ok ==> db.Valid() && db.log == [] && db.Contents() == Open(schemas, HeapRows(tuples), logged).db
    ensures ok ==> (Visible(db.Contents()) == Visible(ApplyCommitted(logged, CommittedTxns(logged), begin))
      <==> Recoverable(logged, begin))
    ensures !ok ==> db.log == logged
  {
    OpeningFacts(schemas, tuples, order, logged, begin);
    db, ok := OpenFiles(schemas, tuples, order, logged);
  }

  /** The constructor of a database as a whole: the scan of the heap, then recovery. */
  method OpenFiles(schemas: Schemas, tuples: map<int, Stored>, order: seq<int>, logged: seq<Record>)
    returns (db: Database, ok: bool)
    requires forall j :: 0 <= j < |order| ==> order[j] in tuples
    requires forall rid :: rid in tuples ==> RowOk(schemas, KeyOf(tuples[rid]), tuples[rid].row)
    requires Matches(tuples, IndexOf(tuples, order)) && IndexKnown(IndexOf(tuples, order), schemas.Keys)
    requires RecordsOk(schemas, logged) && RowsOk(schemas, Rows(tuples, IndexOf(tuples, order)))
    ensures fresh(db) && db.tables == schemas
    ensures var out := Recover(Rows(tuples, IndexOf(tuples, order)), Known(logged, schemas.Keys));
            && (ok <==> (forall j :: 0 <= j < |order| ==> ReadableTuple(schemas, tuples[order[j]])) && out.Recovered?)
            && (ok ==> db.Valid() && db.log == [] && db.Contents() == out.db)
    ensures !ok ==> db.log == logged
  {
    db := new Database(schemas, tuples, logged);
    ok := db.RebuildIndex(order);
    if ok { ok := db.RecoverTables(); }
  }

  lemma OpeningFacts(schemas: Schemas, tuples: map<int, Stored>, order: seq<int>, logged: seq<Record>, begin: Db)
    requires (forall j :: 0 <= j < |order| ==> order[j] in tuples) && (forall rid :: rid in tuples ==> rid in order)
    requires DistinctKeys(tuples) && forall rid :: rid in tuples ==> Storable(tuples[rid].row)
    requires SessionLog(logged, begin, schemas) && DiskAfterCrash(HeapRows(tuples), logged, begin)
    ensures forall rid :: rid in tuples ==> RowOk(schemas, KeyOf(tuples[rid]), tuples[rid].row)
    ensures (forall j :: 0 <= j < |order| ==> ReadableTuple(schemas, tuples[order[j]]))
        <==> !HoldsCut(schemas, HeapRows(tuples))
    ensures Matches(tuples, IndexOf(tuples, order)) && IndexKnown(IndexOf(tuples, order), schemas.Keys)
    ensures Rows(tuples, IndexOf(tuples, order)) == HeapRows(tuples) && RowsOk(schemas, HeapRows(tuples))
    ensures RecordsOk(schemas, logged) && Known(logged, schemas.Keys) == logged
    ensures var disk := HeapRows(tuples);
            var out := Open(schemas, disk, logged);
            && (out.Opened? <==> !HoldsCut(schemas, disk) && !exists i :: Unplayable(disk, logged, i))
            && (out.Opened? ==> (Shows(out, ApplyCommitted(logged, CommittedTxns(logged), begin))
              <==> Recoverable(logged, begin)))
  {
    DiskRowsOk(schemas, HeapRows(tuples), logged, begin);
    TuplesOk(schemas, tuples);
    OpenedIndex(schemas, tuples, order);
    OutcomeIff(schemas, HeapRows(tuples), logged, begin);
    AllKnown(logged, schemas.Keys);
    SessionRecordsOk(logged, begin, schemas);
  }

  lemma KeyLeadsTo(tuples: map<int, Stored>, rid: int)
    requires DistinctKeys(tuples) && rid in tuples
    ensures var k := KeyOf(tuples[rid]);
            k in KeysOf(tuples) && RidOf(tuples, k) == rid && k in HeapRows(tuples)
              && HeapRows(tuples)[k] == tuples[rid].row
  {
    var k := KeyOf(tuples[rid]);
    assert k in KeysOf(tuples);
    assert RidOf(tuples, k) in tuples;
  }

  /** The tuples are the rows. */
  lemma TuplesOk(schemas: Schemas, tuples: map<int, Stored>)
    requires DistinctKeys(tuples) && RowsOk(schemas, HeapRows(tuples))
    ensures forall rid :: rid in tuples ==> RowOk(schemas, KeyOf(tuples[rid]), tuples[rid].row)
  {
    forall rid | rid in tuples
      ensures RowOk(schemas, KeyOf(tuples[rid]), tuples[rid].row)
    {
      var k := KeyOf(tuples[rid]);
      KeyLeadsTo(tuples, rid);
      assert RowOk(schemas, k, HeapRows(tuples)[k]);
    }
  }

  lemma OpenedIndex(schemas: Schemas, tuples: map<int, Stored>, order: seq<int>)
    requires (forall j :: 0 <= j < |order| ==> order[j] in tuples) && (forall rid :: rid in tuples ==> rid in order)
    requires DistinctKeys(tuples) && forall rid :: rid in tuples ==> Storable(tuples[rid].row)
    requires forall rid :: rid in tuples ==> tuples[rid].table in schemas
    ensures var index := IndexOf(tuples, order);
            Matches(tuples, index) && IndexKnown(index, schemas.Keys) && Rows(tuples, index) == HeapRows(tuples)
    ensures (forall j :: 0 <= j < |order| ==> ReadableTuple(schemas, tuples[order[j]]))
        <==> !HoldsCut(schemas, HeapRows(tuples))
  {
    RebuiltIndexMatches(tuples, order);
    IndexEntries(tuples, order);
    var index := IndexOf(tuples, order);
    RowsOfHeap(tuples, index);
    forall k | k in index
      ensures k.table in schemas
    {
      var rid := index[k];
      assert rid in tuples && KeyOf(tuples[rid]) == k;
    }
    ScanReadsAll(schemas, tuples, order);
  }

  /** The scan gets through if and only if no row is cut. */
  lemma ScanReadsAll(schemas: Schemas, tuples: map<int, Stored>, order: seq<int>)
    requires (forall j :: 0 <= j < |order| ==> order[j] in tuples) && (forall rid :: rid in tuples ==> rid in order)
    requires DistinctKeys(tuples) && forall rid :: rid in tuples ==> Storable(tuples[rid].row)
    ensures (forall j :: 0 <= j < |order| ==> ReadableTuple(schemas, tuples[order[j]]))
        <==> !HoldsCut(schemas, HeapRows(tuples))
  {
    var rows := HeapRows(tuples);
    forall j | 0 <= j < |order|
      ensures var k := KeyOf(tuples[order[j]]); k in rows && rows[k] == tuples[order[j]].row && rows[k].bytes != []
    {
      var rid := order[j];
      assert rid in tuples;
      KeyLeadsTo(tuples, rid);
    }
    forall k | k in rows
      ensures exists j :: 0 <= j < |order| && KeyOf(tuples[order[j]]) == k
    {
      var rid := RidOf(tuples, k);
      var j :| 0 <= j < |order| && order[j] == rid;
    }
  }

  lemma OutcomeIff(schemas: Schemas, disk: Db, log: seq<Record>, start: Db)
    requires WellFormed(log, start) && DiskAfterCrash(disk, log, start)
    ensures var out := Open(schemas, disk, log);
            && (out.Opened? <==> !HoldsCut(schemas, disk) && !exists i :: Unplayable(disk, log, i))
            && (out.Opened? ==> (Shows(out, ApplyCommitted(log, CommittedTxns(log), start))
              <==> Recoverable(log, start)))
  {
    RefusedIff(schemas, disk, log, start);
    RecoveryExactIff(schemas, disk, log, start);
  }

  /** A crash of a session and the next start: the rows of the last commit or rollback come back, if
      and only if every key of the log passes the check, the disk holds no cut tuple and no insert of the
      log is unplayable. */
  method CrashAndReopen(db: Database, tuples: map<int, Stored>, order: seq<int>) returns (db2: Database, ok: bool)
    requires db.Valid()
    requires (forall j :: 0 <= j < |order| ==> order[j] in tuples) && (forall rid :: rid in tuples ==> rid in order)
    requires DistinctKeys(tuples) && forall rid :: rid in tuples ==> Storable(tuples[rid].row)
    requires DiskAfterCrash(HeapRows(tuples), db.log, db.start)
    ensures fresh(db2)
    ensures ok <==> !HoldsCut(db.tables, HeapRows(tuples)) && !exists i :: Unplayable(HeapRows(tuples), db.log, i)
    ensures ok ==>
      db2.Valid() && db2.log == [] && (Visible(db2.Contents()) == Visible(db.base) <==> Recoverable(db.log, db.start))
  {
    CommittedRowsAreBase(db.log, db.start);
    db2, ok := OpenAfterCrash(db.tables, tuples, order, db.log, db.start);
  }
}
