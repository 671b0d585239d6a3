/** What recovery leaves behind, for every log a session can write and every disk a crash can leave. */
module RecoveryProof {
  import opened RecoveryLog

  // ------------------------------------------------------------------ prefixes and committed sets

  lemma {:induction false} WellFormedPrefix(log: seq<Record>, start: Db, n: nat)
    requires WellFormed(log, start) && n <= |log|
    ensures WellFormed(log[..n], start)
    ensures n < |log| ==> Allowed(StateAfter(log[..n], start), log[n])
    ensures n < |log| ==> StateAfter(log[..n + 1], start) == Advance(StateAfter(log[..n], start), log[n])
    decreases |log| - n
  {
    if n < |log| {
      assert log[..n + 1][..n] == log[..n];
      if n + 1 < |log| {
        WellFormedPrefix(log, start, n + 1);
      } else {
        assert log[..n + 1] == log;
      }
    } else {
      assert log[..n] == log;
    }
  }

  lemma {:induction false} IdsGrow(log: seq<Record>, start: Db, n: nat)
    requires WellFormed(log, start) && n <= |log|
    ensures var s := StateAfter(log[..n], start);
            (s.current == INVALID_TXN || s.current == s.last) && s.last >= 0
    ensures StateAfter(log[..n], start).current == INVALID_TXN ==>
            StateAfter(log[..n], start).db == StateAfter(log[..n], start).base
  {
    if n > 0 {
      IdsGrow(log, start, n - 1);
      WellFormedPrefix(log, start, n - 1);
    }
  }

  /** A transaction that ended is never the open one again. */
  lemma {:induction false} EndedStaysEnded(log: seq<Record>, start: Db, i: nat, j: nat)
    requires WellFormed(log, start) && i < j <= |log| && (log[i].Commit? || log[i].Abort?)
    ensures StateAfter(log[..j], start).current != log[i].tx && StateAfter(log[..j], start).last >= log[i].tx > 0
  {
    WellFormedPrefix(log, start, j - 1);
    IdsGrow(log, start, j - 1);
    if i < j - 1 {
      EndedStaysEnded(log, start, i, j - 1);
    }
  }

  /** The tables of a session hold only rows that the heap once took. */
  lemma {:induction false} TablesAreSmall(log: seq<Record>, start: Db)
    requires WellFormed(log, start)
    ensures AllSmall(StateAfter(log, start).db) && AllSmall(StateAfter(log, start).base) && AllSmall(start)
  {
    if log != [] {
      TablesAreSmall(log[..|log| - 1], start);
    }
  }

  predicate SmallDeletes(ops: seq<Record>) {
    forall i :: 0 <= i < |ops| && ops[i].Delete? ==> Small(ops[i].image)
  }

  /** What a session logs as deleted was a row of a table. */
  lemma {:induction false} DeletesAreSmall(log: seq<Record>, start: Db)
    requires WellFormed(log, start)
    ensures SmallDeletes(log)
  {
    if log != [] {
      var n := |log| - 1;
      DeletesAreSmall(log[..n], start);
      TablesAreSmall(log[..n], start);
      assert log == log[..n] + [log[n]];
    }
  }

  lemma {:induction false} LosersAreSmall(log: seq<Record>, committed: set<int>, k: Key)
    requires SmallDeletes(log)
    ensures SmallDeletes(Losers(log, committed, k))
  {
    if log != [] {
      LosersAreSmall(log[..|log| - 1], committed, k);
    }
  }

  /** `committed` is right about every transaction that ended within `log`. */
  predicate Agrees(log: seq<Record>, committed: set<int>) {
    forall i :: 0 <= i < |log| ==>
      (log[i].Commit? ==> log[i].tx in committed) && (log[i].Abort? ==> log[i].tx !in committed)
  }

  lemma AgreesWithItself(log: seq<Record>, start: Db)
    requires WellFormed(log, start)
    ensures Agrees(log, CommittedTxns(log))
  {
    forall i | 0 <= i < |log| && log[i].Abort?
      ensures log[i].tx !in CommittedTxns(log)
    {
      forall j | 0 <= j < |log| && log[j].Commit?
        ensures log[j].tx != log[i].tx
      {
        WellFormedPrefix(log, start, i);
        WellFormedPrefix(log, start, j);
        if i < j {
          EndedStaysEnded(log, start, i, j);
        } else if j < i {
          EndedStaysEnded(log, start, j, i);
        }
      }
    }
  }

  /** The committed value of `k`. */
  function Reference(log: seq<Record>, committed: set<int>, start: Db, k: Key): Option<Row> {
    Lookup(ApplyCommitted(log, committed, start), k)
  }

  /** The reference value is what the session shows while the open transaction is going to commit,
      and the value at its begin otherwise. */
  lemma {:induction false} ReferenceIsBase(log: seq<Record>, committed: set<int>, start: Db, k: Key)
    requires WellFormed(log, start) && Agrees(log, committed)
    ensures var s := StateAfter(log, start);
            && (s.current == INVALID_TXN ==> s.db == s.base)
            && Reference(log, committed, start, k) == Shown(s, committed, k)
  {
    if log != [] {
      var n := |log| - 1;
      assert Agrees(log[..n], committed) by {
        assert forall i :: 0 <= i < n ==> log[..n][i] == log[i];
      }
      ReferenceIsBase(log[..n], committed, start, k);
      var s, r := StateAfter(log[..n], start), log[n];
      assert (r.Commit? ==> r.tx in committed) && (r.Abort? ==> r.tx !in committed);
      ShownAfterStep(s, r, committed, k);
    }
  }

  /** What is committed of `k` as seen by a reader who knows which transactions commit. */
  function Shown(s: Sim, committed: set<int>, k: Key): Option<Row> {
    Lookup(if s.current != INVALID_TXN && s.current in committed then s.db else s.base, k)
  }

  lemma ShownAfterStep(s: Sim, r: Record, committed: set<int>, k: Key)
    requires Allowed(s, r) && (s.current == INVALID_TXN ==> s.db == s.base)
    requires (r.Commit? ==> r.tx in committed) && (r.Abort? ==> r.tx !in committed)
    ensures var s2 := Advance(s, r);
            && (s2.current == INVALID_TXN ==> s2.db == s2.base)
            && Shown(s2, committed, k) ==
               if r.tx in committed && Changes(r, k) then (if r.Insert? then Some(Kept(r.image)) else None)
               else Shown(s, committed, k)
  {
  }

  // ------------------------------------------------------------------ committed operations of a key

  /** The changes of `k` by committed transactions, in log order. */
  function Winners(log: seq<Record>, committed: set<int>, k: Key): seq<Record> {
    if log == [] then []
    else
      var r := log[|log| - 1];
      Winners(log[..|log| - 1], committed, k) + if r.tx in committed && Changes(r, k) then [r] else []
  }

  predicate HasDelete(ops: seq<Record>) {
    exists i :: 0 <= i < |ops| && ops[i].Delete?
  }

  lemma HasDeleteAppend(a: seq<Record>, b: seq<Record>)
    ensures HasDelete(a + b) <==> HasDelete(a) || HasDelete(b)
  {
    if HasDelete(a) {
      var i :| 0 <= i < |a| && a[i].Delete?;
      assert (a + b)[i].Delete?;
    }
    if HasDelete(b) {
      var i :| 0 <= i < |b| && b[i].Delete?;
      assert (a + b)[|a| + i].Delete?;
    }
  }

  lemma HasInsertAppend(a: seq<Record>, b: seq<Record>)
    ensures HasInsert(a + b) <==> HasInsert(a) || HasInsert(b)
  {
    if HasInsert(a) {
      var i :| 0 <= i < |a| && a[i].Insert?;
      assert (a + b)[i].Insert?;
    }
    if HasInsert(b) {
      var i :| 0 <= i < |b| && b[i].Insert?;
      assert (a + b)[|a| + i].Insert?;
    }
  }

  lemma RedoAppend(db: Db, log: seq<Record>, r: Record, committed: set<int>)
    ensures var before := Redo(db, log, committed);
            Redo(db, log + [r], committed) == if r.tx in committed then RedoRecord(before, r) else before
    ensures RedoRefuses(db, log + [r], committed) <==>
      RedoRefuses(db, log, committed)
      || (r.tx in committed && r.Insert? && !Fits(r.image) && r.key !in Redo(db, log, committed))
  {
    assert (log + [r])[..|log|] == log;
  }

  lemma {:induction false} RedoFromStart(log: seq<Record>, committed: set<int>, start: Db, k: Key)
    requires WellFormed(log, start) && Agrees(log, committed)
    ensures RedoKey(Lookup(start, k), log, committed, k) == Reference(log, committed, start, k)
  {
    if log != [] {
      var n := |log| - 1;
      assert forall i :: 0 <= i < n ==> log[..n][i] == log[i];
      RedoFromStart(log[..n], committed, start, k);
      ReferenceIsBase(log[..n], committed, start, k);
    }
  }

  /** After a committed delete of `k` was redone, the state of the disk no longer matters. */
  lemma {:induction false} RedoForgets(v: Option<Row>, w: Option<Row>, log: seq<Record>, committed: set<int>, k: Key)
    requires HasDelete(Winners(log, committed, k))
    ensures RedoKey(v, log, committed, k) == RedoKey(w, log, committed, k)
  {
    var n := |log| - 1;
    var r := log[n];
    var before := Winners(log[..n], committed, k);
    HasDeleteAppend(before, if r.tx in committed && Changes(r, k) then [r] else []);
    if HasDelete(before) {
      RedoForgets(v, w, log[..n], committed, k);
    }
  }

  // ------------------------------------------------------------------ keys with few kinds of operations

  lemma SeenAppend(log: seq<Record>, start: Db, k: Key, v: Option<Row>)
    requires log != [] && Seen(log, start, k, v)
    ensures Seen(log[..|log| - 1], start, k, v) || v == Lookup(StateAfter(log, start).db, k)
  {
    var n := |log| - 1;
    var i :| 0 <= i <= |log| && v == Lookup(StateAfter(log[..i], start).db, k);
    if i <= n {
      assert log[..n][..i] == log[..i];
    } else {
      assert log[..i] == log;
    }
  }

  /** Without committed deletes and without loser inserts of `k`, every state the key was in is absent
      or the reference value ... */
  ghost predicate QuietStates(log: seq<Record>, committed: set<int>, start: Db, k: Key) {
    var a := Reference(log, committed, start, k);
    && (forall v :: Seen(log, start, k, v) ==> v == None || v == a)
    && (Winners(log, committed, k) == [] && Losers(log, committed, k) == [] ==> forall v :: Seen(log, start, k, v) ==>
      v == a)
  }

  /** ... every loser deleted the reference value ... */
  predicate QuietLosers(log: seq<Record>, committed: set<int>, start: Db, k: Key) {
    var a := Reference(log, committed, start, k);
    var losers := Losers(log, committed, k);
    && (losers != [] ==> a.Some?)
    && (forall i :: 0 <= i < |losers| ==> losers[i].Delete? && Some(losers[i].image) == a)
  }

  /** ... and redo reproduces the reference value, or does nothing when no operation committed. */
  ghost predicate QuietWinners(log: seq<Record>, committed: set<int>, start: Db, k: Key) {
    var a := Reference(log, committed, start, k);
    if Winners(log, committed, k) == [] then
      a == Lookup(start, k) && forall v :: RedoKey(v, log, committed, k) == v
    else
      a.Some? && RedoKey(None, log, committed, k) == a && RedoKey(a, log, committed, k) == a
  }

  ghost predicate Quiet(log: seq<Record>, committed: set<int>, start: Db, k: Key) {
    QuietStates(log, committed, start, k) && QuietLosers(log, committed, start, k)
      && QuietWinners(log, committed, start, k)
  }

  /** The premises of one induction step over a quiet log. */
  ghost predicate QuietPremise(log: seq<Record>, committed: set<int>, start: Db, k: Key) {
    && log != [] && WellFormed(log, start) && Agrees(log, committed)
    && Quiet(log[..|log| - 1], committed, start, k)
    && !HasDelete(Winners(log, committed, k)) && !HasInsert(Losers(log, committed, k))
  }

  lemma QuietStatesStep(log: seq<Record>, committed: set<int>, start: Db, k: Key)
    requires QuietPremise(log, committed, start, k)
    ensures QuietStates(log, committed, start, k)
  {
    forall v | Seen(log, start, k, v)
      ensures v == None || v == Reference(log, committed, start, k)
      ensures Winners(log, committed, k) == [] && Losers(log, committed, k) == []
        ==> v == Reference(log, committed, start, k)
    {
      QuietStateStep(log, committed, start, k, v);
    }
  }

  lemma QuietStateStep(log: seq<Record>, committed: set<int>, start: Db, k: Key, v: Option<Row>)
    requires QuietPremise(log, committed, start, k) && Seen(log, start, k, v)
    ensures v == None || v == Reference(log, committed, start, k)
    ensures Winners(log, committed, k) == [] && Losers(log, committed, k) == []
      ==> v == Reference(log, committed, start, k)
  {
    var p := log[..|log| - 1];
    assert forall i :: 0 <= i < |p| ==> p[i] == log[i];
    ReferenceIsBase(p, committed, start, k);
    ReferenceIsBase(log, committed, start, k);
    assert p[..|p|] == p;
    assert Seen(p, start, k, Lookup(StateAfter(p, start).db, k));
    BaseWasSeen(p, start, k);
    QuietNewOp(log, committed, start, k);
    SeenAppend(log, start, k, v);
  }

  lemma QuietStep(log: seq<Record>, committed: set<int>, start: Db, k: Key)
    requires QuietPremise(log, committed, start, k)
    ensures Quiet(log, committed, start, k)
  {
    QuietStatesStep(log, committed, start, k);
    QuietNewOp(log, committed, start, k);
  }

  /** The value of a key at the begin of the open transaction is one of its states. */
  lemma {:induction false} BaseWasSeen(log: seq<Record>, start: Db, k: Key)
    requires WellFormed(log, start)
    ensures Seen(log, start, k, Lookup(StateAfter(log, start).base, k))
  {
    if log == [] {
      assert log[..0] == [];
    } else {
      var n := |log| - 1;
      BaseWasSeen(log[..n], start, k);
      var i :| 0 <= i <= n && Lookup(StateAfter(log[..n], start).base, k)
        == Lookup(StateAfter(log[..n][..i], start).db, k);
      assert log[..n][..i] == log[..i];
      assert log[..n][..n] == log[..n] && log[..n + 1] == log;
      if log[n].Begin? {
        assert Lookup(StateAfter(log, start).base, k) == Lookup(StateAfter(log[..n], start).db, k);
      } else if log[n].Commit? {
        assert Lookup(StateAfter(log, start).base, k) == Lookup(StateAfter(log[..n + 1], start).db, k);
      }
    }
  }

  /** In a quiet log, a change of `k` by a winner is an insert of an absent row, the only one so far,
      and an operation of a loser is a delete of the reference row. */
  lemma QuietNewOp(log: seq<Record>, committed: set<int>, start: Db, k: Key)
    requires QuietPremise(log, committed, start, k)
    ensures var r := log[|log| - 1];
            var p := log[..|log| - 1];
            if r.tx in committed then
              Changes(r, k) ==> r.Insert? && Reference(p, committed, start, k) == None
                                && Winners(p, committed, k) == [] && Losers(p, committed, k) == []
            else IsOp(r, k) ==> r.Delete? && Reference(p, committed, start, k) == Some(r.image)
  {
    var n := |log| - 1;
    var r := log[n];
    var p := log[..n];
    assert forall i :: 0 <= i < n ==> p[i] == log[i];
    ReferenceIsBase(p, committed, start, k);
    HasDeleteAppend(Winners(p, committed, k), [r]);
    HasInsertAppend(Losers(p, committed, k), [r]);
    assert [r][0] == r;
    assert p[..n] == p;
    assert Seen(p, start, k, Lookup(StateAfter(p, start).db, k));
  }

  lemma {:induction false} QuietLogs(log: seq<Record>, committed: set<int>, start: Db, k: Key)
    requires WellFormed(log, start) && Agrees(log, committed)
    requires !HasDelete(Winners(log, committed, k)) && !HasInsert(Losers(log, committed, k))
    ensures Quiet(log, committed, start, k)
  {
    if log != [] {
      var n := |log| - 1;
      var r := log[n];
      assert forall i :: 0 <= i < n ==> log[..n][i] == log[i];
      HasDeleteAppend(Winners(log[..n], committed, k), if r.tx in committed && Changes(r, k) then [r] else []);
      HasInsertAppend(Losers(log[..n], committed, k), if r.tx !in committed && IsOp(r, k) then [r] else []);
      QuietLogs(log[..n], committed, start, k);
      QuietStep(log, committed, start, k);
    }
  }

  // ------------------------------------------------------------------ the outcome of recovery

  /** What recovery leaves of a key: the committed value with the losers undone; a key without operations
      stays as the disk shows it. */
  function Settled(log: seq<Record>, committed: set<int>, start: Db, k: Key): Option<Row> {
    var a := Reference(log, committed, start, k);
    if Winners(log, committed, k) == [] && Losers(log, committed, k) == [] then OnDisk(a)
    else UndoKey(a, Losers(log, committed, k))
  }

  /** For every disk a crash can leave, the outcome of both passes depends on the log alone. */
  lemma RecoveredValue(disk: Db, log: seq<Record>, start: Db, k: Key)
    requires WellFormed(log, start) && SeenOnDisk(log, start, k, Lookup(disk, k))
    ensures Lookup(Replay(disk, log), k) == Settled(log, CommittedTxns(log), start, k)
  {
    var committed := CommittedTxns(log);
    var losers := Losers(log, committed, k);
    var d := Lookup(disk, k);
    AgreesWithItself(log, start);
    RecoverByKey(disk, log, k);
    if HasInsert(losers) {
      UndoForgets(RedoKey(d, log, committed, k), Reference(log, committed, start, k), losers);
    } else if HasDelete(Winners(log, committed, k)) {
      RedoForgets(d, Lookup(start, k), log, committed, k);
      RedoFromStart(log, committed, start, k);
    } else {
      QuietLogs(log, committed, start, k);
      QuietValue(log, start, k, d);
    }
  }

  lemma QuietValue(log: seq<Record>, start: Db, k: Key, d: Option<Row>)
    requires WellFormed(log, start) && SeenOnDisk(log, start, k, d) && Quiet(log, CommittedTxns(log), start, k)
    ensures var committed := CommittedTxns(log);
            UndoKey(RedoKey(d, log, committed, k), Losers(log, committed, k)) == Settled(log, committed, start, k)
  {
    var committed := CommittedTxns(log);
    var losers := Losers(log, committed, k);
    var v :| Seen(log, start, k, v) && d == OnDisk(v);
    if Winners(log, committed, k) == [] && losers != [] {
      DeletesAreSmall(log, start);
      LosersAreSmall(log, committed, k);
      UndoDeletes(d, losers, losers[0].image);
      UndoDeletes(Reference(log, committed, start, k), losers, losers[0].image);
    }
  }

  /** The before-image in the delete just before the first insert. */
  function ImageBeforeInsert(losers: seq<Record>): Option<Row>
  {
    if |losers| < 2 || !losers[0].Delete? then None
    else if losers[1].Insert? then Some(losers[0].image)
    else ImageBeforeInsert(losers[1..])
  }

  function ImageOfLast(losers: seq<Record>): Option<Row>
    requires losers != []
  {
    var r := losers[|losers| - 1];
    if r.Delete? then Some(r.image) else None
  }

  /** The check on a key whose committed value is `a`: the first loser inserted it and nothing of it is to
      be seen; or the first loser deleted it, and it shows what the last image deleted before a loser
      inserted it again shows, or, if none did, it is present. */
  predicate KeyRecoverable(a: Option<Row>, losers: seq<Record>) {
    losers == []
    || (losers[0].Insert? && OnDisk(a) == None)
    || (losers[0].Delete? &&
        if HasInsert(losers) then OnDisk(a) == OnDisk(ImageBeforeInsert(losers))
        else a != None || OnDisk(ImageOfLast(losers)) == None)
  }

  lemma {:induction false} UndoAllDeletes(a: Option<Row>, losers: seq<Record>)
    requires losers != [] && (forall i :: 0 <= i < |losers| ==> losers[i].Delete?) && SmallDeletes(losers)
    ensures UndoKey(a, losers) == if a.Some? then a else ImageOfLast(losers)
  {
    if |losers| > 1 {
      UndoAllDeletes(a, losers[1..]);
    } else {
      assert losers[1..] == [];
    }
  }

  lemma {:induction false} UndoToFirstInsert(a: Option<Row>, losers: seq<Record>)
    requires losers != [] && losers[0].Delete? && HasInsert(losers) && SmallDeletes(losers)
    requires forall i :: 0 <= i < |losers| ==> losers[i].Delete? || losers[i].Insert?
    ensures UndoKey(a, losers) == ImageBeforeInsert(losers) && ImageBeforeInsert(losers).Some?
  {
    assert losers[1..][0] == losers[1];
    if losers[1].Delete? {
      var i :| 0 <= i < |losers| && losers[i].Insert?;
      assert losers[1..][i - 1].Insert?;
      UndoToFirstInsert(a, losers[1..]);
    }
  }

  lemma UndoKeepsIff(a: Option<Row>, losers: seq<Record>)
    requires (forall i :: 0 <= i < |losers| ==> losers[i].Delete? || losers[i].Insert?) && SmallDeletes(losers)
    ensures OnDisk(UndoKey(a, losers)) == OnDisk(a) <==> KeyRecoverable(a, losers)
  {
    if losers != [] && losers[0].Delete? {
      if HasInsert(losers) {
        UndoToFirstInsert(a, losers);
      } else {
        UndoAllDeletes(a, losers);
      }
    }
  }

  /** Every key of the log passes the check. */
  ghost predicate Recoverable(log: seq<Record>, start: Db) {
    forall k :: KeyRecoverable(Reference(log, CommittedTxns(log), start, k), Losers(log, CommittedTxns(log), k))
  }

  /** When both passes run to their end, they leave exactly the committed rows if and only if every key
      of the log passes the check. */
  lemma ReplayExactIff(disk: Db, log: seq<Record>, start: Db)
    requires WellFormed(log, start) && DiskAfterCrash(disk, log, start)
    ensures Visible(Replay(disk, log)) == Visible(ApplyCommitted(log, CommittedTxns(log), start))
      <==> Recoverable(log, start)
  {
    var committed := CommittedTxns(log);
    var found, expected := Replay(disk, log), ApplyCommitted(log, committed, start);
    DeletesAreSmall(log, start);
    forall k
      ensures Lookup(Visible(found), k) == Lookup(Visible(expected), k)
        <==> KeyRecoverable(Reference(log, committed, start, k), Losers(log, committed, k))
    {
      VisibleLookup(found, k);
      VisibleLookup(expected, k);
      RecoveredValue(disk, log, start, k);
      LosersAreOps(log, committed, k);
      LosersAreSmall(log, committed, k);
      UndoKeepsIff(Reference(log, committed, start, k), Losers(log, committed, k));
    }
    SameLookups(Visible(found), Visible(expected));
  }

  lemma SameLookups(a: Db, b: Db)
    ensures a == b <==> forall k :: Lookup(a, k) == Lookup(b, k)
  {
    if forall k :: Lookup(a, k) == Lookup(b, k) {
      forall k
        ensures k in a <==> k in b
        ensures k in a ==> a[k] == b[k]
      {
        assert Lookup(a, k) == Lookup(b, k);
      }
    }
  }

  /** The committed rows are the rows the session showed at the last commit or rollback, or at the
      begin of the transaction the crash cut short. */
  lemma CommittedRowsAreBase(log: seq<Record>, start: Db)
    requires WellFormed(log, start)
    ensures ApplyCommitted(log, CommittedTxns(log), start) == StateAfter(log, start).base
  {
    var committed := CommittedTxns(log);
    var s := StateAfter(log, start);
    AgreesWithItself(log, start);
    assert log[..|log|] == log;
    if s.current != INVALID_TXN && s.current in committed {
      var i :| 0 <= i < |log| && log[i].Commit? && log[i].tx == s.current;
      EndedStaysEnded(log, start, i, |log|);
    }
    forall k
      ensures Lookup(ApplyCommitted(log, committed, start), k) == Lookup(s.base, k)
    {
      ReferenceIsBase(log, committed, start, k);
    }
    SameLookups(ApplyCommitted(log, committed, start), s.base);
  }

  // ------------------------------------------------------------------ a simple sufficient condition

  /** No change of `k` by a committed transaction comes after an operation on `k` of a transaction
      without a COMMIT record. */
  ghost predicate NoCommitAfterLoser(log: seq<Record>, committed: set<int>, k: Key) {
    forall i, j :: 0 <= i < j < |log| && IsOp(log[i], k) && Changes(log[j], k) && log[j].tx in committed
      ==> log[i].tx in committed
  }

  /** The losers of `k` so far are deletes of the reference row up to the first insert. */
  predicate LosersStartAtReference(a: Option<Row>, losers: seq<Record>) {
    losers == []
    || (losers[0].Insert? && a == None)
    || (losers[0].Delete? && a != None
        && (if HasInsert(losers) then ImageBeforeInsert(losers) == a
            else forall i :: 0 <= i < |losers| ==> losers[i].Delete? && Some(losers[i].image) == a))
  }

  lemma {:induction false} ImageBeforeInsertAppend(losers: seq<Record>, r: Record)
    requires losers != [] && (forall i :: 0 <= i < |losers| ==> losers[i].Delete? || losers[i].Insert?)
    requires HasInsert(losers) || r.Insert?
    ensures losers[0].Delete? ==>
      ImageBeforeInsert(losers + [r]) == if HasInsert(losers) then ImageBeforeInsert(losers)
        else Some(losers[|losers| - 1].image)
  {
    if losers[0].Delete? && |losers| > 1 && losers[1].Delete? {
      assert (losers + [r])[1..] == losers[1..] + [r];
      if HasInsert(losers) {
        var i :| 0 <= i < |losers| && losers[i].Insert?;
        assert losers[1..][i - 1].Insert?;
      }
      ImageBeforeInsertAppend(losers[1..], r);
    }
  }

  lemma {:induction false} LosersHaveNoWinnerBefore(log: seq<Record>, committed: set<int>, k: Key)
    requires Losers(log, committed, k) != []
    ensures exists i :: 0 <= i < |log| && IsOp(log[i], k) && log[i].tx !in committed
  {
    var n := |log| - 1;
    if !(IsOp(log[n], k) && log[n].tx !in committed) {
      LosersHaveNoWinnerBefore(log[..n], committed, k);
      var i :| 0 <= i < n && IsOp(log[..n][i], k) && log[..n][i].tx !in committed;
      assert IsOp(log[i], k) && log[i].tx !in committed;
    }
  }

  /** What the open transaction, when it is a loser, shows of `k`. */
  ghost predicate LoserView(log: seq<Record>, committed: set<int>, start: Db, k: Key) {
    var s := StateAfter(log, start);
    var losers := Losers(log, committed, k);
    s.current != INVALID_TXN && s.current !in committed && !HasInsert(losers) ==>
      Lookup(s.db, k) == Lookup(s.base, k) || (losers != [] && Lookup(s.db, k) == None)
  }

  lemma AddLoser(a: Option<Row>, losers: seq<Record>, r: Record, shown: Option<Row>)
    requires LosersStartAtReference(a, losers)
    requires forall i :: 0 <= i < |losers| ==> losers[i].Delete? || losers[i].Insert?
    requires (r.Insert? && shown == None) || (r.Delete? && shown == Some(r.image))
    requires !HasInsert(losers) ==> shown == a || (losers != [] && shown == None)
    ensures LosersStartAtReference(a, losers + [r])
  {
    var all := losers + [r];
    HasInsertAppend(losers, [r]);
    assert [r][0] == r;
    assert HasInsert([r]) <==> r.Insert?;
    if losers != [] {
      assert all[0] == losers[0];
      if HasInsert(losers) || r.Insert? {
        ImageBeforeInsertAppend(losers, r);
      }
    }
  }

  lemma {:induction false} LosersComeLast(log: seq<Record>, committed: set<int>, start: Db, k: Key)
    requires WellFormed(log, start) && Agrees(log, committed) && NoCommitAfterLoser(log, committed, k)
    ensures LosersStartAtReference(Reference(log, committed, start, k), Losers(log, committed, k))
    ensures LoserView(log, committed, start, k)
  {
    if log != [] {
      var n := |log| - 1;
      var p := log[..n];
      var r := log[n];
      var losers := Losers(p, committed, k);
      assert forall i :: 0 <= i < n ==> p[i] == log[i];
      LosersComeLast(p, committed, start, k);
      ReferenceIsBase(p, committed, start, k);
      LosersAreOps(p, committed, k);
      if Changes(r, k) && r.tx in committed && losers != [] {
        LosersHaveNoWinnerBefore(p, committed, k);
      }
      HasInsertAppend(losers, if r.tx !in committed && IsOp(r, k) then [r] else []);
      assert [r][0] == r;
      assert HasInsert([r]) <==> r.Insert?;
      if IsOp(r, k) && r.tx !in committed {
        AddLoser(Reference(p, committed, start, k), losers, r, Lookup(StateAfter(p, start).db, k));
        assert Losers(log, committed, k) == losers + [r];
      } else {
        assert Losers(log, committed, k) == losers;
      }
    }
  }

  lemma StartsAtReferenceIsRecoverable(a: Option<Row>, losers: seq<Record>)
    requires LosersStartAtReference(a, losers)
    ensures KeyRecoverable(a, losers)
  {
  }

  /** When no change of a key by a winner follows a loser's operation on it, every key passes. */
  lemma LosersLastIsRecoverable(log: seq<Record>, start: Db)
    requires WellFormed(log, start)
    requires forall k :: NoCommitAfterLoser(log, CommittedTxns(log), k)
    ensures Recoverable(log, start)
  {
    AgreesWithItself(log, start);
    forall k
      ensures KeyRecoverable(Reference(log, CommittedTxns(log), start, k), Losers(log, CommittedTxns(log), k))
    {
      LosersComeLast(log, CommittedTxns(log), start, k);
      StartsAtReferenceIsRecoverable(Reference(log, CommittedTxns(log), start, k), Losers(log, CommittedTxns(log), k));
    }
  }

  // ------------------------------------------------------------------ sessions without rollback

  lemma OpenAfterStep(s: Sim, r: Record)
    requires Allowed(s, r) && !r.Begin?
    ensures r.tx == s.current && Advance(s, r).current == if r.Commit? || r.Abort? then INVALID_TXN else r.tx
  {
  }

  lemma {:induction false} OpsBelongToOpenOrEnded(log: seq<Record>, start: Db, i: nat, j: nat)
    requires WellFormed(log, start) && i < j <= |log| && (log[i].Insert? || log[i].Delete?)
    requires forall m :: 0 <= m < |log| ==> !log[m].Abort?
    ensures StateAfter(log[..j], start).current == log[i].tx || log[i].tx in CommittedTxns(log)
  {
    var s, s2, r := StateAfter(log[..j - 1], start), StateAfter(log[..j], start), log[j - 1];
    assert Allowed(s, r) && s2 == Advance(s, r) by {
      WellFormedPrefix(log, start, j - 1);
    }
    if i == j - 1 {
      OpenAfterStep(s, r);
    } else {
      OpsBelongToOpenOrEnded(log, start, i, j - 1);
      if r.Begin? {
        OpsWhileOpen(log, start, i);
        assert s.current == INVALID_TXN;
      } else {
        OpenAfterStep(s, r);
        if r.Commit? { assert r.tx in CommittedTxns(log); }
      }
    }
  }

  lemma OpsWhileOpen(log: seq<Record>, start: Db, i: nat)
    requires WellFormed(log, start) && i < |log| && (log[i].Insert? || log[i].Delete?)
    ensures log[i].tx != INVALID_TXN
  {
    WellFormedPrefix(log, start, i);
  }

  /** A session that never rolled back always meets the condition: its only loser is the transaction
      the crash cut short. */
  lemma NoRollbackPutsLosersLast(log: seq<Record>, start: Db)
    requires WellFormed(log, start)
    requires forall i :: 0 <= i < |log| ==> !log[i].Abort?
    ensures forall k :: NoCommitAfterLoser(log, CommittedTxns(log), k)
  {
    var committed := CommittedTxns(log);
    forall k, i, j | 0 <= i < j < |log| && IsOp(log[i], k) && Changes(log[j], k) && log[j].tx in committed
      ensures log[i].tx in committed
    {
      OpsBelongToOpenOrEnded(log, start, i, j);
      WellFormedPrefix(log, start, j);
    }
  }
}
