/** What opening a database after a crash does: scanning the heap may meet a tuple that was stored cut,
    recovery may be ended by an image that the heap refuses, or the tables are as they should be. */
module RecoveryOutcome {
  import RowCodec
  import opened RecoveryLog
  import opened RecoveryProof

  type Schemas = map<string, RowCodec.Schema>

  // ------------------------------------------------------------------ opening a database

  predicate Readable(schemas: Schemas, k: Key, row: Row) {
    k.table in schemas && RowCodec.Decodes(schemas[k.table], row.bytes, 0)
  }

  /** There is a live tuple that does not decode. */
  predicate HoldsCut(schemas: Schemas, db: Db) {
    exists k :: k in db && db[k].bytes != [] && !Readable(schemas, k, db[k])
  }

  /** `Damaged`: the scan that rebuilds the indexes, which comes before recovery, meets such a tuple. It
      ends in an exception or reads outside the tuple, which is undefined in C++. */
  datatype Opening = Opened(db: Db) | Damaged | TooLarge

  function Open(schemas: Schemas, disk: Db, log: seq<Record>): Opening {
    if HoldsCut(schemas, disk) then Damaged
    else
      match Recover(disk, log)
      case Recovered(db) => Opened(db)
      case Refused => TooLarge
  }

  // ------------------------------------------------------------------ where rows come from

  /** Rows are logged as encoded for their table. */
  ghost predicate ImagesOk(schemas: Schemas, log: seq<Record>) {
    forall i :: 0 <= i < |log| && log[i].Insert? ==> ImageOk(schemas, log[i].key, log[i].image)
  }

  ghost predicate ImageOk(schemas: Schemas, k: Key, image: Row) {
    k.table in schemas && image.pk == k.pk && RowCodec.Encodes(schemas[k.table], k.pk, image.bytes)
  }

  /** What the heap keeps of such an image. */
  ghost predicate RowOk(schemas: Schemas, k: Key, row: Row) {
    k.table in schemas && row.pk == k.pk && RowCodec.KeptOf(schemas[k.table], k.pk, row.bytes)
  }

  ghost predicate RowsOk(schemas: Schemas, db: Db) {
    forall k :: k in db ==> RowOk(schemas, k, db[k])
  }

  lemma KeptIsOk(schemas: Schemas, k: Key, image: Row)
    requires ImageOk(schemas, k, image)
    ensures RowOk(schemas, k, Kept(image))
    ensures Readable(schemas, k, Kept(image)) <==> |image.bytes| < 0x1_0000
  {
    RowCodec.KeptDecodes(schemas[k.table], k.pk, image.bytes);
    assert Kept(image).bytes == RowCodec.Cut(image.bytes);
  }

  /** The row was there at the start, or is what the heap kept of a logged image. */
  ghost predicate Origin(log: seq<Record>, start: Db, k: Key, row: Row) {
    (k in start && start[k] == row) || exists i :: Stores(log, i, k, row)
  }

  predicate Stores(log: seq<Record>, i: int, k: Key, row: Row) {
    0 <= i < |log| && log[i].Insert? && log[i].key == k && Fits(log[i].image) && row == Kept(log[i].image)
  }

  lemma OriginOfPrefix(log: seq<Record>, n: nat, start: Db, k: Key, row: Row)
    requires n <= |log| && Origin(log[..n], start, k, row)
    ensures Origin(log, start, k, row)
  {
    if i :| Stores(log[..n], i, k, row) { assert Stores(log, i, k, row); }
  }

  lemma {:induction false} StatesHaveOrigin(log: seq<Record>, start: Db, k: Key)
    ensures var s := StateAfter(log, start);
            && (k in s.db ==> Origin(log, start, k, s.db[k]))
            && (k in s.base ==> Origin(log, start, k, s.base[k]))
  {
    if log != [] {
      var n := |log| - 1;
      var s, r := StateAfter(log[..n], start), log[n];
      StatesHaveOrigin(log[..n], start, k);
      if k in s.db { OriginOfPrefix(log, n, start, k, s.db[k]); }
      if k in s.base { OriginOfPrefix(log, n, start, k, s.base[k]); }
      if r.Insert? && r.key == k && Fits(r.image) { assert Stores(log, n, k, Kept(r.image)); }
    }
  }

  lemma SeenHasOrigin(log: seq<Record>, start: Db, k: Key, row: Row)
    requires Seen(log, start, k, Some(row))
    ensures Origin(log, start, k, row)
  {
    var i :| 0 <= i <= |log| && Some(row) == Lookup(StateAfter(log[..i], start).db, k);
    StatesHaveOrigin(log[..i], start, k);
    OriginOfPrefix(log, i, start, k, row);
  }

  /** Every table a session had, and every disk after a crash, holds what was kept of encoded rows. */
  lemma OriginIsOk(schemas: Schemas, log: seq<Record>, start: Db, k: Key, row: Row)
    requires ImagesOk(schemas, log) && RowsOk(schemas, start) && Origin(log, start, k, row)
    ensures RowOk(schemas, k, row)
  {
    if i :| Stores(log, i, k, row) { KeptIsOk(schemas, k, log[i].image); }
  }

  lemma DiskRowsOk(schemas: Schemas, disk: Db, log: seq<Record>, start: Db)
    requires ImagesOk(schemas, log) && RowsOk(schemas, start) && DiskAfterCrash(disk, log, start)
    ensures RowsOk(schemas, disk)
  {
    forall k | k in disk
      ensures RowOk(schemas, k, disk[k])
    {
      assert SeenOnDisk(log, start, k, Lookup(disk, k));
      SeenHasOrigin(log, start, k, disk[k]);
      OriginIsOk(schemas, log, start, k, disk[k]);
    }
  }

  // ------------------------------------------------------------------ when recovery is refused

  lemma {:induction false} UndoNeverRefuses(db: Db, log: seq<Record>, committed: set<int>)
    requires SmallDeletes(log)
    ensures !UndoRefuses(db, log, committed)
  {
    if log != [] {
      assert SmallDeletes(log[1..]) by {
        assert forall i :: 0 <= i < |log[1..]| ==> log[1..][i] == log[i + 1];
      }
      UndoNeverRefuses(db, log[1..], committed);
    }
  }

  /** Pass 2 stops at record `i`, if it gets that far. */
  predicate StopsAt(db: Db, log: seq<Record>, committed: set<int>, i: int)
    requires 0 <= i < |log|
  {
    log[i].tx in committed && log[i].Insert? && !Fits(log[i].image) && log[i].key !in Redo(db, log[..i], committed)
  }

  lemma {:induction false} RedoStopsSomewhere(db: Db, log: seq<Record>, committed: set<int>)
    ensures RedoRefuses(db, log, committed) <==> exists i :: 0 <= i < |log| && StopsAt(db, log, committed, i)
  {
    if log != [] {
      var n := |log| - 1;
      var front := log[..n];
      RedoStopsSomewhere(db, front, committed);
      forall i | 0 <= i < n
        ensures StopsAt(db, log, committed, i) == StopsAt(db, front, committed, i)
      {
        assert front[..i] == log[..i];
      }
      assert StopsAt(db, log, committed, n) <==>
        log[n].tx in committed && log[n].Insert? && !Fits(log[n].image) && log[n].key !in Redo(db, front, committed);
      if i :| 0 <= i < n && StopsAt(db, front, committed, i) { assert StopsAt(db, log, committed, i); }
      if i :| 0 <= i < |log| && StopsAt(db, log, committed, i) {
        if i < n { assert StopsAt(db, front, committed, i); }
      }
    }
  }

  /** The table changed before record `i` by a transaction that committed. */
  predicate ChangedBefore(log: seq<Record>, committed: set<int>, k: Key, i: nat)
    requires i <= |log|
  {
    exists j :: 0 <= j < i && log[j].tx in committed && Changes(log[j], k)
  }

  /** A committed insert that was refused when it was made, at a key that the disk lacks or that an
      earlier winner changed. */
  predicate Unplayable(disk: Db, log: seq<Record>, i: int) {
    && 0 <= i < |log| && log[i].Insert? && !Fits(log[i].image) && log[i].tx in CommittedTxns(log)
    && (log[i].key !in disk || ChangedBefore(log, CommittedTxns(log), log[i].key, i))
  }

  lemma {:induction false} WinnersAreChanges(log: seq<Record>, committed: set<int>, k: Key)
    ensures Winners(log, committed, k) != [] <==> ChangedBefore(log, committed, k, |log|)
  {
    if log != [] {
      var n := |log| - 1;
      WinnersAreChanges(log[..n], committed, k);
      if j :| 0 <= j < n && log[..n][j].tx in committed && Changes(log[..n][j], k) {
        assert log[j].tx in committed && Changes(log[j], k);
      }
      if j :| 0 <= j < |log| && log[j].tx in committed && Changes(log[j], k) {
        if j < n { assert log[..n][j].tx in committed && Changes(log[..n][j], k); }
      }
    }
  }

  /** Once a winner changed the key, redo has the committed absence of a row, whatever the disk held. */
  lemma {:induction false} RedoneAbsence(v: Option<Row>, log: seq<Record>, committed: set<int>, start: Db, k: Key)
    requires Winners(log, committed, k) != []
    ensures Reference(log, committed, start, k) == None ==> RedoKey(v, log, committed, k) == None
  {
    var n := |log| - 1;
    if !(log[n].tx in committed && Changes(log[n], k)) {
      RedoneAbsence(v, log[..n], committed, start, k);
    }
  }

  lemma {:induction false} NoWinnersNoRedo(v: Option<Row>, log: seq<Record>, committed: set<int>, k: Key)
    requires Winners(log, committed, k) == []
    ensures RedoKey(v, log, committed, k) == v
  {
    if log != [] {
      NoWinnersNoRedo(v, log[..|log| - 1], committed, k);
    }
  }

  /** When an insert of a winner was logged, its key was absent from the committed rows. */
  lemma AbsentWhenLogged(log: seq<Record>, start: Db, i: nat)
    requires WellFormed(log, start) && i < |log| && log[i].Insert? && log[i].tx in CommittedTxns(log)
    ensures Reference(log[..i], CommittedTxns(log), start, log[i].key) == None
  {
    AgreesWithItself(log, start);
    WellFormedPrefix(log, start, i);
    assert Agrees(log[..i], CommittedTxns(log));
    ReferenceIsBase(log[..i], CommittedTxns(log), start, log[i].key);
  }

  lemma StopsIffUnplayable(disk: Db, log: seq<Record>, start: Db, i: nat)
    requires WellFormed(log, start) && i < |log|
    ensures StopsAt(disk, log, CommittedTxns(log), i) <==> Unplayable(disk, log, i)
  {
    var committed := CommittedTxns(log);
    if log[i].tx in committed && log[i].Insert? {
      var k := log[i].key;
      AbsentWhenLogged(log, start, i);
      RedoByKey(disk, log[..i], committed, k);
      WinnersAreChanges(log[..i], committed, k);
      assert ChangedBefore(log[..i], committed, k, i) <==> ChangedBefore(log, committed, k, i) by {
        assert forall j :: 0 <= j < i ==> log[..i][j] == log[j];
      }
      if Winners(log[..i], committed, k) != [] {
        RedoneAbsence(Lookup(disk, k), log[..i], committed, start, k);
      } else {
        NoWinnersNoRedo(Lookup(disk, k), log[..i], committed, k);
      }
    }
  }

  /** Recovery is ended by an exception if and only if some insert is unplayable. */
  lemma RecoverRefusedIff(disk: Db, log: seq<Record>, start: Db)
    requires WellFormed(log, start)
    ensures Recover(disk, log).Refused? <==> exists i :: Unplayable(disk, log, i)
  {
    var committed := CommittedTxns(log);
    DeletesAreSmall(log, start);
    UndoNeverRefuses(Redo(disk, log, committed), log, committed);
    RedoStopsSomewhere(disk, log, committed);
    forall i | 0 <= i < |log|
      ensures StopsAt(disk, log, committed, i) <==> Unplayable(disk, log, i)
    {
      StopsIffUnplayable(disk, log, start, i);
    }
  }

  /** Opening the database fails if and only if the disk holds a tuple that was stored cut, or the log
      holds a committed insert that does not fit, at a key that the disk lacks or that an earlier winner
      changed. */
  lemma RefusedIff(schemas: Schemas, disk: Db, log: seq<Record>, start: Db)
    requires WellFormed(log, start)
    ensures Open(schemas, disk, log).Opened? <==> !HoldsCut(schemas, disk) && !exists i :: Unplayable(disk, log, i)
    ensures Open(schemas, disk, log).Damaged? <==> HoldsCut(schemas, disk)
  {
    RecoverRefusedIff(disk, log, start);
  }

  /** A committed insert that does not fit. */
  predicate CommittedRefusal(log: seq<Record>, i: int) {
    0 <= i < |log| && log[i].Insert? && !Fits(log[i].image) && log[i].tx in CommittedTxns(log)
  }

  /** An insert, committed or not, of which the heap kept less than all but more than nothing. */
  predicate CutInsert(log: seq<Record>, i: int) {
    && 0 <= i < |log| && log[i].Insert? && Fits(log[i].image)
    && |log[i].image.bytes| >= 0x1_0000 && Kept(log[i].image).bytes != []
  }

  /** The logs after which a database can always be opened. */
  ghost predicate Safe(schemas: Schemas, log: seq<Record>, start: Db) {
    (forall i :: !CommittedRefusal(log, i)) && (forall i :: !CutInsert(log, i)) && !HoldsCut(schemas, start)
  }

  /** Some disk makes opening fail if and only if a transaction with a refused insert committed, or a row
      of 2^16 bytes or more was stored cut, by any transaction of this log or before it. */
  lemma SafeLogsIff(schemas: Schemas, log: seq<Record>, start: Db)
    requires WellFormed(log, start) && ImagesOk(schemas, log) && RowsOk(schemas, start)
    ensures (forall disk :: DiskAfterCrash(disk, log, start) ==> Open(schemas, disk, log).Opened?)
        <==> Safe(schemas, log, start)
  {
    if Safe(schemas, log, start) {
      forall disk | DiskAfterCrash(disk, log, start)
        ensures Open(schemas, disk, log).Opened?
      {
        SafeOpens(schemas, disk, log, start);
      }
    } else {
      var disk := UnsafeDisk(schemas, log, start);
    }
  }

  lemma SafeOpens(schemas: Schemas, disk: Db, log: seq<Record>, start: Db)
    requires WellFormed(log, start) && ImagesOk(schemas, log) && RowsOk(schemas, start)
    requires Safe(schemas, log, start) && DiskAfterCrash(disk, log, start)
    ensures Open(schemas, disk, log).Opened?
  {
    RefusedIff(schemas, disk, log, start);
    assert forall i :: Unplayable(disk, log, i) ==> CommittedRefusal(log, i);
    CutTuplesHaveCauses(schemas, disk, log, start);
  }

  /** A cut tuple on disk was written by an insert of this log or was there before. */
  lemma CutTuplesHaveCauses(schemas: Schemas, disk: Db, log: seq<Record>, start: Db)
    requires ImagesOk(schemas, log) && RowsOk(schemas, start) && DiskAfterCrash(disk, log, start)
    ensures HoldsCut(schemas, disk) ==> HoldsCut(schemas, start) || exists i :: CutInsert(log, i)
  {
    if k :| k in disk && disk[k].bytes != [] && !Readable(schemas, k, disk[k]) {
      assert SeenOnDisk(log, start, k, Lookup(disk, k));
      SeenHasOrigin(log, start, k, disk[k]);
      if i :| Stores(log, i, k, disk[k]) {
        KeptIsOk(schemas, k, log[i].image);
        assert CutInsert(log, i);
      }
    }
  }

  /** A disk that holds everything as at the start, but `k` in another of its states. */
  lemma OneKeyMoved(log: seq<Record>, start: Db, k: Key, v: Option<Row>) returns (disk: Db)
    requires Seen(log, start, k, v)
    ensures DiskAfterCrash(disk, log, start) && Lookup(disk, k) == OnDisk(v)
  {
    var rest := Visible(start) - {k};
    disk := if OnDisk(v).Some? then rest[k := v.value] else rest;
    forall x
      ensures SeenOnDisk(log, start, x, Lookup(disk, x))
    {
      VisibleLookup(start, x);
      assert log[..0] == [];
      assert Lookup(StateAfter(log[..0], start).db, x) == Lookup(start, x);
      assert Seen(log, start, x, Lookup(start, x));
    }
  }

  lemma UnsafeDisk(schemas: Schemas, log: seq<Record>, start: Db) returns (disk: Db)
    requires WellFormed(log, start) && ImagesOk(schemas, log) && RowsOk(schemas, start) && !Safe(schemas, log, start)
    ensures DiskAfterCrash(disk, log, start) && !Open(schemas, disk, log).Opened?
  {
    if i :| CommittedRefusal(log, i) {
      var k := log[i].key;
      WellFormedPrefix(log, start, i);
      assert Lookup(StateAfter(log[..i], start).db, k) == None;
      disk := OneKeyMoved(log, start, k, None);
      RefusedIff(schemas, disk, log, start);
      assert Unplayable(disk, log, i);
    } else if i :| CutInsert(log, i) {
      var k := log[i].key;
      WellFormedPrefix(log, start, i);
      assert Lookup(StateAfter(log[..i + 1], start).db, k) == Some(Kept(log[i].image));
      disk := OneKeyMoved(log, start, k, Some(Kept(log[i].image)));
      KeptIsOk(schemas, k, log[i].image);
      assert k in disk && disk[k] == Kept(log[i].image);
    } else {
      var k :| k in start && start[k].bytes != [] && !Readable(schemas, k, start[k]);
      assert log[..0] == [] && Lookup(StateAfter(log[..0], start).db, k) == Some(start[k]);
      disk := OneKeyMoved(log, start, k, Some(start[k]));
      assert k in disk && disk[k] == start[k];
    }
  }

  // ------------------------------------------------------------------ when recovery is exact

  /** The database was opened and queries show these rows. */
  predicate Shows(out: Opening, db: Db) {
    out.Opened? && Visible(out.db) == Visible(db)
  }

  /** Opening shows exactly the committed rows if and only if the disk holds no cut tuple, no insert is
      unplayable and every key of the log passes the check. */
  lemma RecoveryExactIff(schemas: Schemas, disk: Db, log: seq<Record>, start: Db)
    requires WellFormed(log, start) && DiskAfterCrash(disk, log, start)
    ensures Shows(Open(schemas, disk, log), ApplyCommitted(log, CommittedTxns(log), start))
        <==> !HoldsCut(schemas, disk) && Recoverable(log, start) && !exists i :: Unplayable(disk, log, i)
  {
    RefusedIff(schemas, disk, log, start);
    ReplayExactIff(disk, log, start);
  }

  /** When no change of any key by a winner follows a loser's operation on it, opening shows exactly the
      committed rows, or fails. */
  lemma RecoveryExact(schemas: Schemas, disk: Db, log: seq<Record>, start: Db)
    requires WellFormed(log, start) && DiskAfterCrash(disk, log, start)
    requires forall k :: NoCommitAfterLoser(log, CommittedTxns(log), k)
    ensures var out := Open(schemas, disk, log);
            if HoldsCut(schemas, disk) then out == Damaged
            else if exists i :: Unplayable(disk, log, i) then out == TooLarge
            else Shows(out, ApplyCommitted(log, CommittedTxns(log), start))
  {
    LosersLastIsRecoverable(log, start);
    RecoveryExactIff(schemas, disk, log, start);
    RefusedIff(schemas, disk, log, start);
  }

  /** A session that never rolled back loses no committed row. */
  lemma NoRollbackIsFine(schemas: Schemas, disk: Db, log: seq<Record>, start: Db)
    requires WellFormed(log, start) && DiskAfterCrash(disk, log, start)
    requires forall i :: 0 <= i < |log| ==> !log[i].Abort?
    ensures var out := Open(schemas, disk, log);
            if HoldsCut(schemas, disk) then out == Damaged
            else if exists i :: Unplayable(disk, log, i) then out == TooLarge
            else Shows(out, ApplyCommitted(log, CommittedTxns(log), start))
  {
    NoRollbackPutsLosersLast(log, start);
    RecoveryExact(schemas, disk, log, start);
  }

  // ------------------------------------------------------------------ logs on which it fails

  lemma OneInsert(k: Key, image: Row) returns (log: seq<Record>)
    ensures log == [Begin(1), Insert(1, k, image), Commit(1)] && WellFormed(log, map[])
    ensures StateAfter(log[..2], map[]).db == (if Fits(image) then map[k := Kept(image)] else map[])
    ensures CommittedTxns(log) == {1} && DiskAfterCrash(map[], log, map[])
  {
    var l1, l2 := [Begin(1)], [Begin(1), Insert(1, k, image)];
    log := [Begin(1), Insert(1, k, image), Commit(1)];
    ExtendLog([], Begin(1), l1, map[]);
    ExtendLog(l1, Insert(1, k, image), l2, map[]);
    ExtendLog(l2, Commit(1), log, map[]);
    assert log[..2] == l2 && log[..0] == [];
    StateOnDisk(log, map[], 0, map[]);
    assert log[2].Commit?;
  }

  /** An insert that was refused as too large, in a transaction that then committed, keeps the database
      from ever being opened again. */
  lemma CommittedRefusalLocksOut(schemas: Schemas, k: Key, big: Row)
    requires !Fits(big)
    ensures var log := [Begin(1), Insert(1, k, big), Commit(1)];
            WellFormed(log, map[]) && DiskAfterCrash(map[], log, map[]) && Open(schemas, map[], log) == TooLarge
  {
    var log := OneInsert(k, big);
    assert Unplayable(map[], log, 1);
    RefusedIff(schemas, map[], log, map[]);
  }

  /** A committed row of 2^16 bytes or more: once the cut tuple is on disk, the database cannot be opened.
      If it is not yet, opening succeeds one last time and stores it. */
  lemma CutInsertLocksOut(schemas: Schemas, k: Key, image: Row)
    requires ImageOk(schemas, k, image) && Fits(image) && |image.bytes| >= 0x1_0000 && Kept(image).bytes != []
    ensures var log := [Begin(1), Insert(1, k, image), Commit(1)];
            var stored := map[k := Kept(image)];
            && WellFormed(log, map[]) && DiskAfterCrash(stored, log, map[]) && DiskAfterCrash(map[], log, map[])
            && Open(schemas, stored, log) == Damaged
            && Open(schemas, map[], log) == Opened(stored)
            && DuringOpening(schemas, map[], log, k, Some(Kept(image)))
            && (forall disk :: DiskAfterCrash(disk, [], stored) ==> Open(schemas, disk, []) == Damaged)
  {
    var log := OneInsert(k, image);
    var stored := map[k := Kept(image)];
    KeptIsOk(schemas, k, image);
    assert HoldsCut(schemas, stored) by { assert stored[k] == Kept(image); }
    StateOnDisk(log, map[], 2, stored);
    RedoOneInsert(log, k, image);
    OnlyWinnersReplay(map[], log);
    RefusedIff(schemas, map[], log, map[]);
    assert log[..3] == log;
    assert OnDisk(Lookup(DuringRedo(map[], log, 3), k)) == Some(Kept(image));
    forall disk | DiskAfterCrash(disk, [], stored)
      ensures Open(schemas, disk, []) == Damaged
    {
      OpenWithoutLog(schemas, disk, stored);
    }
  }

  lemma RedoOneInsert(log: seq<Record>, k: Key, image: Row)
    requires log == [Begin(1), Insert(1, k, image), Commit(1)] && Fits(image)
    ensures Redo(map[], log, {1}) == map[k := Kept(image)] && !RedoRefuses(map[], log, {1})
  {
    assert log[..2][..1] == log[..1] && log[..1][..0] == [];
    assert Redo(map[], log[..1], {1}) == map[] && !RedoRefuses(map[], log[..1], {1});
    assert Redo(map[], log[..2], {1}) == map[k := Kept(image)] && !RedoRefuses(map[], log[..2], {1});
  }

  /** After a reset of the log the disk shows the rows at the start, and opening succeeds if and only if
      none of them is cut. */
  lemma OpenWithoutLog(schemas: Schemas, disk: Db, start: Db)
    requires DiskAfterCrash(disk, [], start)
    ensures disk == Visible(start)
    ensures Open(schemas, disk, []) == if HoldsCut(schemas, start) then Damaged else Opened(Visible(start))
  {
    forall x
      ensures Lookup(disk, x) == Lookup(Visible(start), x)
    {
      VisibleLookup(start, x);
      assert SeenOnDisk([], start, x, Lookup(disk, x));
    }
    SameLookups(disk, Visible(start));
    assert HoldsCut(schemas, Visible(start)) <==> HoldsCut(schemas, start) by {
      if k :| k in start && start[k].bytes != [] && !Readable(schemas, k, start[k]) { assert k in Visible(start); }
    }
  }

  lemma ExtendLog(log: seq<Record>, r: Record, log2: seq<Record>, start: Db)
    requires WellFormed(log, start) && Allowed(StateAfter(log, start), r) && log2 == log + [r]
    ensures WellFormed(log2, start) && StateAfter(log2, start) == Advance(StateAfter(log, start), r)
  {
    assert log2[..|log|] == log;
  }

  /** A rolled-back insert followed by a committed insert of the same key is lost, whatever the disk. */
  lemma RolledBackInsertLosesRow(disk: Db, k: Key, a: Row, b: Row)
    requires Small(a) && Small(b) && (disk == map[] || disk == map[k := a] || disk == map[k := b])
    ensures var log := [Begin(1), Insert(1, k, a), Abort(1), Begin(2), Insert(2, k, b), Commit(2)];
            WellFormed(log, map[]) && ApplyCommitted(log, CommittedTxns(log), map[]) == map[k := b]
              && Recover(disk, log) == Recovered(map[])
  {
    var log := [Begin(1), Insert(1, k, a), Abort(1), Begin(2), Insert(2, k, b), Commit(2)];
    var committed := CommittedTxns(log);
    assert log[5].Commit?;
    assert committed == {2};
    var l1, l2, l3 := [Begin(1)], [Begin(1), Insert(1, k, a)], [Begin(1), Insert(1, k, a), Abort(1)];
    var l4, l5 := l3 + [Begin(2)], l3 + [Begin(2), Insert(2, k, b)];
    ExtendLog([], Begin(1), l1, map[]);
    ExtendLog(l1, Insert(1, k, a), l2, map[]);
    ExtendLog(l2, Abort(1), l3, map[]);
    ExtendLog(l3, Begin(2), l4, map[]);
    ExtendLog(l4, Insert(2, k, b), l5, map[]);
    ExtendLog(l5, Commit(2), log, map[]);
    CommittedRowsAreBase(log, map[]);
    var e: Db := map[];
    forall x
      ensures Lookup(Replay(disk, log), x) == None
    {
      RecoverByKey(disk, log, x);
      RolledBackInsertUndone(RedoKey(Lookup(disk, x), log, committed, x), log, committed, k, a, b, x);
      if x != k { RedoSkipsKey(Lookup(disk, x), log, committed, x); }
    }
    SameLookups(Replay(disk, log), e);
    RecoverRefusedIff(disk, log, map[]);
  }

  lemma {:induction false} RedoSkipsKey(v: Option<Row>, log: seq<Record>, committed: set<int>, k: Key)
    requires forall i :: 0 <= i < |log| ==> !IsOp(log[i], k)
    ensures RedoKey(v, log, committed, k) == v
  {
    if log != [] {
      RedoSkipsKey(v, log[..|log| - 1], committed, k);
    }
  }

  lemma RolledBackInsertUndone(v: Option<Row>, log: seq<Record>, committed: set<int>, k: Key, a: Row, b: Row, x: Key)
    requires log == [Begin(1), Insert(1, k, a), Abort(1), Begin(2), Insert(2, k, b), Commit(2)] && committed == {2}
    ensures UndoKey(v, Losers(log, committed, x)) == if x == k then None else v
  {
    var p1, p2, p3, p4, p5 := log[..1], log[..2], log[..3], log[..4], log[..5];
    assert p1[..0] == [] && p2[..1] == p1 && p3[..2] == p2 && p4[..3] == p3 && p5[..4] == p4;
    assert Losers(p1, committed, x) == [];
    assert Losers(p2, committed, x) == if x == k then [Insert(1, k, a)] else [];
    assert Losers(p4, committed, x) == Losers(p3, committed, x) == Losers(p2, committed, x);
    assert Losers(log, committed, x) == Losers(p5, committed, x) == Losers(p4, committed, x);
  }

  // ------------------------------------------------------------------ a crash during recovery

  /** The tables during recovery: after the first `i` records were redone, or after that the last
      records down to number `i` were undone. */
  function DuringRedo(disk: Db, log: seq<Record>, i: nat): Db
    requires i <= |log|
  {
    Redo(disk, log[..i], CommittedTxns(log))
  }

  function DuringUndo(disk: Db, log: seq<Record>, i: nat): Db
    requires i <= |log|
  {
    Undo(Redo(disk, log, CommittedTxns(log)), log[i..], CommittedTxns(log))
  }

  lemma OpStatesSeen(log: seq<Record>, start: Db, k: Key, i: nat)
    requires WellFormed(log, start) && i < |log| && IsOp(log[i], k)
    ensures Seen(log, start, k, None)
    ensures Changes(log[i], k) ==> Seen(log, start, k, Some(Kept(log[i].image)))
  {
    WellFormedPrefix(log, start, i);
    TablesAreSmall(log[..i], start);
    WellFormedPrefix(log, start, i + 1);
    var before, after := Lookup(StateAfter(log[..i], start).db, k), Lookup(StateAfter(log[..i + 1], start).db, k);
    assert Seen(log, start, k, before) && Seen(log, start, k, after);
  }

  /** Recovery never moves a key to a state it was not in before the crash. */
  lemma {:induction false} RedoStaysSeen(disk: Db, log: seq<Record>, start: Db, k: Key, i: nat)
    requires WellFormed(log, start) && i <= |log| && SeenOnDisk(log, start, k, Lookup(disk, k))
    ensures SeenOnDisk(log, start, k, OnDisk(Lookup(DuringRedo(disk, log, i), k)))
  {
    if i > 0 {
      RedoStaysSeen(disk, log, start, k, i - 1);
      assert log[..i][..i - 1] == log[..i - 1] && log[..i][i - 1] == log[i - 1];
      if IsOp(log[i - 1], k) { OpStatesSeen(log, start, k, i - 1); }
    }
  }

  lemma {:induction false} UndoStaysSeen(disk: Db, log: seq<Record>, start: Db, k: Key, i: nat)
    requires WellFormed(log, start) && i <= |log| && SeenOnDisk(log, start, k, Lookup(disk, k))
    ensures SeenOnDisk(log, start, k, OnDisk(Lookup(DuringUndo(disk, log, i), k)))
    decreases |log| - i
  {
    if i < |log| {
      UndoStaysSeen(disk, log, start, k, i + 1);
      assert log[i..][1..] == log[i + 1..];
      if IsOp(log[i], k) { OpStatesSeen(log, start, k, i); }
    } else {
      RedoStaysSeen(disk, log, start, k, |log|);
      assert log[..|log|] == log;
    }
  }

  /** `v` is what the disk may show of `k` at some point of a run of recovery. A run that is refused ends
      where it is. */
  ghost predicate DuringRecovery(disk: Db, log: seq<Record>, k: Key, v: Option<Row>) {
    || (exists i :: 0 <= i <= |log| && !RedoRefuses(disk, log[..i], CommittedTxns(log))
                    && v == OnDisk(Lookup(DuringRedo(disk, log, i), k)))
    || (Recover(disk, log).Recovered?
         && exists i :: 0 <= i <= |log| && v == OnDisk(Lookup(DuringUndo(disk, log, i), k)))
  }

  /** The same before and during an attempt to open the database. */
  ghost predicate DuringOpening(schemas: Schemas, disk: Db, log: seq<Record>, k: Key, v: Option<Row>) {
    v == Lookup(disk, k) || (!HoldsCut(schemas, disk) && DuringRecovery(disk, log, k, v))
  }

  lemma StatesOfOpeningSeen(schemas: Schemas, disk: Db, log: seq<Record>, start: Db, k: Key, v: Option<Row>)
    requires WellFormed(log, start) && SeenOnDisk(log, start, k, Lookup(disk, k))
      && DuringOpening(schemas, disk, log, k, v)
    ensures SeenOnDisk(log, start, k, v)
  {
    if i :| 0 <= i <= |log| && v == OnDisk(Lookup(DuringRedo(disk, log, i), k)) {
      RedoStaysSeen(disk, log, start, k, i);
    }
    if i :| 0 <= i <= |log| && v == OnDisk(Lookup(DuringUndo(disk, log, i), k)) {
      UndoStaysSeen(disk, log, start, k, i);
    }
  }

  /** A crash during opening leaves each key on disk in any state of that attempt. The next attempt ends in
      the same tables, or fails; it fails when the first one did, and never when the log is safe. */
  lemma RecoveryRestarts(schemas: Schemas, disk: Db, disk2: Db, log: seq<Record>, start: Db)
    requires WellFormed(log, start) && DiskAfterCrash(disk, log, start)
    requires forall k :: DuringOpening(schemas, disk, log, k, Lookup(disk2, k))
    ensures DiskAfterCrash(disk2, log, start)
    ensures Open(schemas, disk2, log) == Open(schemas, disk, log) || !Open(schemas, disk2, log).Opened?
    ensures !Open(schemas, disk, log).Opened? ==> !Open(schemas, disk2, log).Opened?
    ensures ImagesOk(schemas, log) && RowsOk(schemas, start) && Safe(schemas, log, start) ==>
      Open(schemas, disk2, log) == Open(schemas, disk, log) && Open(schemas, disk, log).Opened?
  {
    forall k
      ensures SeenOnDisk(log, start, k, Lookup(disk2, k))
      ensures Lookup(Replay(disk2, log), k) == Lookup(Replay(disk, log), k)
    {
      StatesOfOpeningSeen(schemas, disk, log, start, k, Lookup(disk2, k));
      RecoveredValue(disk, log, start, k);
      RecoveredValue(disk2, log, start, k);
    }
    SameLookups(Replay(disk2, log), Replay(disk, log));
    if !Open(schemas, disk, log).Opened? { RefusalIsPermanent(schemas, disk, disk2, log, start); }
    if ImagesOk(schemas, log) && RowsOk(schemas, start) && Safe(schemas, log, start) {
      SafeOpens(schemas, disk, log, start);
      SafeOpens(schemas, disk2, log, start);
    }
  }

  lemma {:induction false} LongerLogRefuses(db: Db, log: seq<Record>, committed: set<int>, m: nat, i: nat)
    requires m <= i <= |log| && RedoRefuses(db, log[..m], committed)
    ensures RedoRefuses(db, log[..i], committed)
  {
    if m < i {
      LongerLogRefuses(db, log, committed, m, i - 1);
      assert log[..i][..i - 1] == log[..i - 1];
    }
  }

  /** A run that redo stops at a key nobody changed before leaves that key absent. */
  lemma StaysAbsent(disk: Db, log: seq<Record>, k: Key, m: nat, v: Option<Row>)
    requires m < |log| && k !in disk && log[m].Insert? && log[m].key == k && CommittedRefusal(log, m)
    requires !ChangedBefore(log, CommittedTxns(log), k, m)
    requires Recover(disk, log).Refused? && DuringRecovery(disk, log, k, v)
    ensures v == None
  {
    var committed := CommittedTxns(log);
    if i :|
      0 <= i <= |log| && !RedoRefuses(disk, log[..i], committed) && v == OnDisk(Lookup(DuringRedo(disk, log, i), k))
    {
      if i > m {
        UntouchedByRedo(disk, log, k, m, m);
        assert log[..m + 1][..m] == log[..m];
        assert RedoRefuses(disk, log[..m + 1], committed);
        LongerLogRefuses(disk, log, committed, m + 1, i);
      } else {
        UntouchedByRedo(disk, log, k, m, i);
      }
    }
  }

  lemma PrefixChanged(log: seq<Record>, committed: set<int>, k: Key, i: nat, m: nat)
    requires i <= m <= |log|
    ensures ChangedBefore(log[..i], committed, k, i) ==> ChangedBefore(log, committed, k, m)
  {
    assert forall j :: 0 <= j < i ==> log[..i][j] == log[j];
  }

  lemma UntouchedByRedo(disk: Db, log: seq<Record>, k: Key, m: nat, i: nat)
    requires i <= m <= |log| && !ChangedBefore(log, CommittedTxns(log), k, m)
    ensures Lookup(Redo(disk, log[..i], CommittedTxns(log)), k) == Lookup(disk, k)
  {
    var committed := CommittedTxns(log);
    WinnersAreChanges(log[..i], committed, k);
    PrefixChanged(log, committed, k, i, m);
    NoWinnersNoRedo(Lookup(disk, k), log[..i], committed, k);
    RedoByKey(disk, log[..i], committed, k);
  }

  /** Once an attempt to open the database failed, every later one does, whatever the failed one wrote
      to the disk. */
  lemma RefusalIsPermanent(schemas: Schemas, disk: Db, disk2: Db, log: seq<Record>, start: Db)
    requires WellFormed(log, start) && DiskAfterCrash(disk, log, start) && !Open(schemas, disk, log).Opened?
    requires forall k :: DuringOpening(schemas, disk, log, k, Lookup(disk2, k))
    ensures !Open(schemas, disk2, log).Opened?
  {
    RefusedIff(schemas, disk, log, start);
    RefusedIff(schemas, disk2, log, start);
    if HoldsCut(schemas, disk) {
      SameLookups(disk2, disk);
    } else {
      RecoverRefusedIff(disk, log, start);
      var m :| Unplayable(disk, log, m);
      var k := log[m].key;
      if !ChangedBefore(log, CommittedTxns(log), k, m) && Lookup(disk2, k) != Lookup(disk, k) {
        assert CommittedRefusal(log, m);
        StaysAbsent(disk, log, k, m, Lookup(disk2, k));
      }
      assert Unplayable(disk2, log, m);
    }
  }

  /** A restart can be refused although the first run was not: the first run found a row on disk at the
      key of the refused insert, and removed it before it crashed. */
  lemma RestartCanBeRefused(schemas: Schemas, k: Key, big: Row, row: Row)
    requires !Fits(big) && Small(row) && row.bytes != [] && Readable(schemas, k, row)
    ensures var log := [Begin(1), Insert(1, k, big), Insert(1, k, row), Delete(1, k, row), Commit(1)];
            && WellFormed(log, map[]) && DiskAfterCrash(map[k := row], log, map[])
            && Open(schemas, map[k := row], log) == Opened(map[])
            && (forall x :: DuringOpening(schemas, map[k := row], log, x, None))
            && Open(schemas, map[], log) == TooLarge
  {
    var log := RestartLog(k, big, row);
    var disk, none: Db := map[k := row], map[];
    assert Unplayable(none, log, 1);
    RefusedIff(schemas, none, log, none);
    RefusedIff(schemas, disk, log, none);
    RedoOfRestart(disk, log, k, big, row);
    assert forall i :: !Unplayable(disk, log, i) by {
      assert !ChangedBefore(log, CommittedTxns(log), k, 1);
    }
    OnlyWinnersReplay(disk, log);
    assert log[..5] == log;
    forall x
      ensures DuringOpening(schemas, disk, log, x, None)
    {
      assert OnDisk(Lookup(DuringRedo(disk, log, 5), x)) == None;
    }
  }

  lemma RestartLog(k: Key, big: Row, row: Row) returns (log: seq<Record>)
    requires !Fits(big) && Small(row) && row.bytes != []
    ensures log == [Begin(1), Insert(1, k, big), Insert(1, k, row), Delete(1, k, row), Commit(1)]
    ensures WellFormed(log, map[]) && DiskAfterCrash(map[k := row], log, map[]) && CommittedTxns(log) == {1}
  {
    var l1, l2 := [Begin(1)], [Begin(1), Insert(1, k, big)];
    var l3, l4 := l2 + [Insert(1, k, row)], l2 + [Insert(1, k, row), Delete(1, k, row)];
    var disk, none: Db := map[k := row], map[];
    log := [Begin(1), Insert(1, k, big), Insert(1, k, row), Delete(1, k, row), Commit(1)];
    assert Kept(row) == row;
    ExtendLog([], Begin(1), l1, none);
    ExtendLog(l1, Insert(1, k, big), l2, none);
    assert StateAfter(l2, none) == Sim(none, none, 1, 1);
    ExtendLog(l2, Insert(1, k, row), l3, none);
    assert StateAfter(l3, none) == Sim(disk, none, 1, 1);
    ExtendLog(l3, Delete(1, k, row), l4, none);
    ExtendLog(l4, Commit(1), log, none);
    assert log[..3] == l3;
    StateOnDisk(log, none, 3, disk);
    assert log[4].Commit?;
  }

  /** A disk may hold just the rows of one moment. */
  lemma StateOnDisk(log: seq<Record>, start: Db, i: nat, disk: Db)
    requires i <= |log| && disk == Visible(StateAfter(log[..i], start).db)
    ensures DiskAfterCrash(disk, log, start)
  {
    var db := StateAfter(log[..i], start).db;
    forall x
      ensures SeenOnDisk(log, start, x, Lookup(disk, x))
    {
      VisibleLookup(db, x);
      assert Seen(log, start, x, Lookup(db, x));
    }
  }

  lemma RedoOfRestart(disk: Db, log: seq<Record>, k: Key, big: Row, row: Row)
    requires !Fits(big) && Small(row) && disk == map[k := row]
    requires log == [Begin(1), Insert(1, k, big), Insert(1, k, row), Delete(1, k, row), Commit(1)]
      && CommittedTxns(log) == {1}
    ensures Redo(disk, log, {1}) == map[] && !RedoRefuses(disk, log, {1})
  {
    var l1, l2 := [Begin(1)], [Begin(1), Insert(1, k, big)];
    var l3, l4 := l2 + [Insert(1, k, row)], l2 + [Insert(1, k, row), Delete(1, k, row)];
    assert l1 == [] + [Begin(1)] && l2 == l1 + [Insert(1, k, big)];
    assert l4 == l3 + [Delete(1, k, row)] && log == l4 + [Commit(1)];
    assert Kept(row) == row;
    RedoAppend(disk, [], Begin(1), {1});
    RedoAppend(disk, l1, Insert(1, k, big), {1});
    RedoAppend(disk, l2, Insert(1, k, row), {1});
    RedoAppend(disk, l3, Delete(1, k, row), {1});
    RedoAppend(disk, l4, Commit(1), {1});
  }

  lemma {:induction false} NothingToUndo(db: Db, log: seq<Record>, committed: set<int>)
    requires forall i :: 0 <= i < |log| ==> log[i].tx in committed
    ensures Undo(db, log, committed) == db
  {
    if log != [] {
      NothingToUndo(db, log[1..], committed);
    }
  }

  lemma OnlyWinnersReplay(disk: Db, log: seq<Record>)
    requires forall i :: 0 <= i < |log| ==> log[i].tx in CommittedTxns(log)
    ensures Replay(disk, log) == Redo(disk, log, CommittedTxns(log))
  {
    NothingToUndo(Redo(disk, log, CommittedTxns(log)), log, CommittedTxns(log));
  }
}
