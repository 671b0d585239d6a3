/** The write-ahead log as a history: what a session may write, what a table held at each point, and
    what the redo and undo passes of recovery make of it. Tables are identified with maps from keys
    (table name and primary key) to row images. */
module RecoveryLog {
  import LogCodec
  import Page = SlottedPage

  datatype Option<+T> = None | Some(value: T)

  datatype Key = Key(table: string, pk: int)
  datatype Row = Row(pk: int, bytes: LogCodec.Bytes)

  datatype Record =
    | Begin(tx: int)
    | Insert(tx: int, key: Key, image: Row)
    | Delete(tx: int, key: Key, image: Row)
    | Commit(tx: int)
    | Abort(tx: int)

  type Db = map<Key, Row>

  const INVALID_TXN := 0

  // ------------------------------------------------------------------ how long an image may be

  /** What the heap stores of an image: its length is passed on in 16 bits. */
  function Kept(image: Row): (r: Row)
    ensures r == image <==> |image.bytes| < 0x1_0000
    ensures Fits(image) ==> Small(r)
  {
    Row(image.pk, image.bytes[..|image.bytes| % 0x1_0000])
  }

  /** The heap takes the image; any other is refused as too large. */
  predicate Fits(image: Row): (r: bool)
    ensures r <==> |image.bytes| % 0x1_0000 <= 4088
  {
    |image.bytes| % 0x1_0000 + Page.HEADER_SIZE + Page.SLOT_SIZE <= Page.PAGE_SIZE
  }

  /** A row of a table, which was taken once. */
  predicate Small(row: Row) {
    |row.bytes| + Page.HEADER_SIZE + Page.SLOT_SIZE <= Page.PAGE_SIZE
  }

  predicate AllSmall(db: Db) {
    forall k :: k in db ==> Small(db[k])
  }

  function Lookup(db: Db, k: Key): Option<Row> {
    if k in db then Some(db[k]) else None
  }

  predicate IsOp(r: Record, k: Key) {
    (r.Insert? || r.Delete?) && r.key == k
  }

  /** An operation that changed the tables: an insert that was logged and then refused did not. */
  predicate Changes(r: Record, k: Key) {
    IsOp(r, k) && (r.Insert? ==> Fits(r.image))
  }

  /** Pass 1 of recovery: the transactions with a COMMIT record. */
  function CommittedTxns(log: seq<Record>): set<int> {
    set i | 0 <= i < |log| && log[i].Commit? :: log[i].tx
  }

  // ------------------------------------------------------------------ what a session writes

  /** The tables, the tables as of the last point without an open transaction, the open transaction
      (0 for none) and the largest id used, all as seen by a reader of the log. */
  datatype Sim = Sim(db: Db, base: Db, current: int, last: int)

  predicate Allowed(s: Sim, r: Record) {
    match r
    case Begin(tx) => s.current == INVALID_TXN && tx > s.last
    case Insert(tx, k, image) => s.current != INVALID_TXN && tx == s.current && k !in s.db
    case Delete(tx, k, image) => s.current != INVALID_TXN && tx == s.current && k in s.db && s.db[k] == image
    case Commit(tx) => s.current != INVALID_TXN && tx == s.current
    case Abort(tx) => s.current != INVALID_TXN && tx == s.current
  }

  /** An insert is logged before the heap is asked, so a refused one leaves a record and nothing else. */
  function Advance(s: Sim, r: Record): Sim {
    match r
    case Begin(tx) => Sim(s.db, s.db, tx, tx)
    case Insert(tx, k, image) => if Fits(image) then s.(db := s.db[k := Kept(image)]) else s
    case Delete(tx, k, image) => s.(db := s.db - {k})
    case Commit(tx) => s.(base := s.db, current := INVALID_TXN)
    case Abort(tx) => s.(db := s.base, current := INVALID_TXN)
  }

  function StateAfter(log: seq<Record>, start: Db): Sim {
    if log == [] then Sim(start, start, INVALID_TXN, INVALID_TXN)
    else Advance(StateAfter(log[..|log| - 1], start), log[|log| - 1])
  }

  /** The logs a session can write after a reset that left the tables as `start`. */
  predicate WellFormed(log: seq<Record>, start: Db) {
    if log == [] then AllSmall(start)
    else WellFormed(log[..|log| - 1], start) && Allowed(StateAfter(log[..|log| - 1], start), log[|log| - 1])
  }

  /** What a disk can show of a row: a tuple of length zero counts as deleted. */
  function OnDisk(v: Option<Row>): Option<Row> {
    if v.Some? && v.value.bytes == [] then None else v
  }

  /** The rows that queries show and a disk can hold. */
  function Visible(db: Db): Db {
    map k | k in db && db[k].bytes != [] :: db[k]
  }

  lemma VisibleLookup(db: Db, k: Key)
    ensures Lookup(Visible(db), k) == OnDisk(Lookup(db, k))
  {
  }

  /** `v` is a state that key `k` was in at some point of the log, including right after a rollback. */
  ghost predicate Seen(log: seq<Record>, start: Db, k: Key, v: Option<Row>) {
    exists i :: 0 <= i <= |log| && v == Lookup(StateAfter(log[..i], start).db, k)
  }

  ghost predicate SeenOnDisk(log: seq<Record>, start: Db, k: Key, d: Option<Row>) {
    exists v :: Seen(log, start, k, v) && d == OnDisk(v)
  }

  /** A crash may leave on disk, independently for each key, any state the key was in. */
  ghost predicate DiskAfterCrash(disk: Db, log: seq<Record>, start: Db) {
    forall k :: SeenOnDisk(log, start, k, Lookup(disk, k))
  }

  /** The reference meaning of a log: the operations of the committed transactions, applied plainly. */
  function ApplyCommitted(log: seq<Record>, committed: set<int>, start: Db): Db {
    if log == [] then start
    else
      var r := log[|log| - 1];
      var before := ApplyCommitted(log[..|log| - 1], committed, start);
      if r.tx !in committed then before
      else match r
        case Insert(_, k, image) => if Fits(image) then before[k := Kept(image)] else before
        case Delete(_, k, _) => before - {k}
        case _ => before
  }

  // ------------------------------------------------------------------ recovery

  function RedoRecord(db: Db, r: Record): Db {
    match r
    case Insert(_, k, image) => if k in db || !Fits(image) then db else db[k := Kept(image)]
    case Delete(_, k, _) => if k in db then db - {k} else db
    case _ => db
  }

  function UndoRecord(db: Db, r: Record): Db {
    match r
    case Insert(_, k, _) => if k in db then db - {k} else db
    case Delete(_, k, image) => if k in db then db else db[k := Kept(image)]
    case _ => db
  }

  /** Pass 2, over the first records of the log, as long as no image is refused. */
  function Redo(db: Db, log: seq<Record>, committed: set<int>): Db {
    if log == [] then db
    else
      var r := log[|log| - 1];
      var before := Redo(db, log[..|log| - 1], committed);
      if r.tx in committed then RedoRecord(before, r) else before
  }

  /** Pass 3, over the last records of the log, newest first. */
  function Undo(db: Db, log: seq<Record>, committed: set<int>): Db {
    if log == [] then db
    else
      var later := Undo(db, log[1..], committed);
      if log[0].tx in committed then later else UndoRecord(later, log[0])
  }

  /** Pass 2 meets a committed insert that does not fit while its key is absent: the exception ends
      recovery and with it the attempt to open the database. */
  predicate RedoRefuses(db: Db, log: seq<Record>, committed: set<int>) {
    log != [] &&
    var front, r := log[..|log| - 1], log[|log| - 1];
    RedoRefuses(db, front, committed)
    || (r.tx in committed && r.Insert? && !Fits(r.image) && r.key !in Redo(db, front, committed))
  }

  /** Pass 3 meets a delete to take back whose image does not fit. */
  predicate UndoRefuses(db: Db, log: seq<Record>, committed: set<int>) {
    log != [] &&
    var r, rest := log[0], log[1..];
    UndoRefuses(db, rest, committed)
    || (r.tx !in committed && r.Delete? && !Fits(r.image) && r.key !in Undo(db, rest, committed))
  }

  /** The two passes over the whole log. */
  function Replay(db: Db, log: seq<Record>): Db {
    Undo(Redo(db, log, CommittedTxns(log)), log, CommittedTxns(log))
  }

  datatype Outcome = Recovered(db: Db) | Refused

  function Recover(db: Db, log: seq<Record>): Outcome {
    var committed := CommittedTxns(log);
    if RedoRefuses(db, log, committed) || UndoRefuses(Redo(db, log, committed), log, committed) then Refused
    else Recovered(Replay(db, log))
  }

  // ------------------------------------------------------------------ one key at a time

  function RedoKey(v: Option<Row>, log: seq<Record>, committed: set<int>, k: Key): Option<Row> {
    if log == [] then v
    else
      var r := log[|log| - 1];
      var before := RedoKey(v, log[..|log| - 1], committed, k);
      if r.tx !in committed || !Changes(r, k) then before
      else if r.Delete? then None
      else if before.None? then Some(Kept(r.image)) else before
  }

  /** The operations on `k` of transactions without a COMMIT record, in log order. */
  function Losers(log: seq<Record>, committed: set<int>, k: Key): seq<Record> {
    if log == [] then []
    else
      var r := log[|log| - 1];
      Losers(log[..|log| - 1], committed, k) + if r.tx !in committed && IsOp(r, k) then [r] else []
  }

  function UndoKey(v: Option<Row>, losers: seq<Record>): Option<Row> {
    if losers == [] then v
    else
      var later := UndoKey(v, losers[1..]);
      match losers[0]
      case Insert(_, _, _) => None
      case Delete(_, _, image) => if later.None? then Some(Kept(image)) else later
      case _ => later
  }

  lemma {:induction false} RedoByKey(db: Db, log: seq<Record>, committed: set<int>, k: Key)
    ensures Lookup(Redo(db, log, committed), k) == RedoKey(Lookup(db, k), log, committed, k)
  {
    if log != [] {
      RedoByKey(db, log[..|log| - 1], committed, k);
    }
  }

  lemma {:induction false} LosersFromFront(log: seq<Record>, committed: set<int>, k: Key)
    requires log != []
    ensures Losers(log, committed, k) ==
      (if log[0].tx !in committed && IsOp(log[0], k) then [log[0]] else []) + Losers(log[1..], committed, k)
  {
    if |log| > 1 {
      var n := |log| - 1;
      LosersFromFront(log[..n], committed, k);
      assert log[..n][1..] == log[1..][..n - 1];
    } else {
      assert log[..0] == [] && log[1..] == [];
    }
  }

  lemma {:induction false} UndoByKey(db: Db, log: seq<Record>, committed: set<int>, k: Key)
    ensures Lookup(Undo(db, log, committed), k) == UndoKey(Lookup(db, k), Losers(log, committed, k))
  {
    if log != [] {
      UndoByKey(db, log[1..], committed, k);
      LosersFromFront(log, committed, k);
      var rest := Losers(log[1..], committed, k);
      if log[0].tx !in committed && IsOp(log[0], k) {
        assert ([log[0]] + rest)[1..] == rest;
      } else {
        assert [] + rest == rest;
      }
    }
  }

  lemma RecoverByKey(db: Db, log: seq<Record>, k: Key)
    ensures Lookup(Replay(db, log), k) ==
      UndoKey(RedoKey(Lookup(db, k), log, CommittedTxns(log), k), Losers(log, CommittedTxns(log), k))
  {
    RedoByKey(db, log, CommittedTxns(log), k);
    UndoByKey(Redo(db, log, CommittedTxns(log)), log, CommittedTxns(log), k);
  }

  lemma {:induction false} LosersAreOps(log: seq<Record>, committed: set<int>, k: Key)
    ensures forall i :: 0 <= i < |Losers(log, committed, k)| ==> IsOp(Losers(log, committed, k)[i], k)
  {
    if log != [] {
      LosersAreOps(log[..|log| - 1], committed, k);
    }
  }

  predicate HasInsert(losers: seq<Record>) {
    exists i :: 0 <= i < |losers| && losers[i].Insert?
  }

  /** Undoing a loser insert forgets everything the table held before. */
  lemma {:induction false} UndoForgets(v: Option<Row>, w: Option<Row>, losers: seq<Record>)
    requires HasInsert(losers)
    ensures UndoKey(v, losers) == UndoKey(w, losers)
  {
    var i :| 0 <= i < |losers| && losers[i].Insert?;
    if i > 0 {
      assert losers[1..][i - 1].Insert?;
      UndoForgets(v, w, losers[1..]);
    }
  }

  /** Undoing only deletes of one image turns an absent row, or that row, into that row. */
  lemma {:induction false} UndoDeletes(v: Option<Row>, losers: seq<Record>, image: Row)
    requires forall i :: 0 <= i < |losers| ==> losers[i].Delete? && losers[i].image == image
    requires Small(image)
    requires v == Some(image) || (v == None && losers != [])
    ensures UndoKey(v, losers) == Some(image)
  {
    if |losers| > 1 {
      UndoDeletes(v, losers[1..], image);
    } else if losers != [] {
      assert losers[1..] == [];
    }
  }
}
