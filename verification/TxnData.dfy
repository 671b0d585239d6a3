/** Every action keeps the data part of the invariant: version lists, write buffers and the values
    that live transactions have read. */
module TxnData {
  import opened TxnEngine
  import opened TxnSystem

  // ------------------------------------------------------------------ version lists

  lemma {:induction false} VisibleAppend(vs: seq<Version>, v: Version, n: int)
    requires forall i, j :: 0 <= i < j < |vs + [v]| ==> (vs + [v])[i].commitTs < (vs + [v])[j].commitTs
    ensures VisibleAt(vs + [v], n) == if v.commitTs <= n then v.value else VisibleAt(vs, n)
  {
    if vs != [] {
      assert (vs + [v])[1..] == vs[1..] + [v];
      assert forall i, j :: 0 <= i < j < |vs[1..] + [v]| ==>
        (vs[1..] + [v])[i] == (vs + [v])[i + 1] && (vs[1..] + [v])[j] == (vs + [v])[j + 1];
      VisibleAppend(vs[1..], v, n);
      assert vs[0] == (vs + [v])[0];
      assert (vs + [v])[|vs|] == v;
    }
  }

  lemma LatestIsVisible(vs: seq<Version>, clock: nat)
    requires Ascending(vs, clock)
    ensures Latest(vs) == VisibleAt(vs, clock)
  {
    if vs != [] {
      var n := |vs| - 1;
      assert vs[..n] + [vs[n]] == vs;
      VisibleAppend(vs[..n], vs[n], clock);
    }
  }

  lemma {:induction false} DbAtPrefix(commits: seq<CommitRec>, c: CommitRec, initial: map<Key, int>, n: nat)
    requires n <= |commits|
    ensures DbAt(commits + [c], initial, n) == DbAt(commits, initial, n)
  {
    if n > 0 {
      DbAtPrefix(commits, c, initial, n - 1);
    }
  }

  /** Publishing a commit keeps the version list of every key in step with the sequence of databases. */
  lemma PublishKeepsHistory(vs: seq<Version>, commits: seq<CommitRec>, c: CommitRec, initial: map<Key, int>, k: Key)
    requires HistoryOk(vs, commits, initial, k)
    ensures HistoryOk(if k in Effects(c.ops) then vs + [Version(|commits| + 1, Effects(c.ops)[k])]
      else vs, commits + [c], initial, k)
  {
    var written := k in Effects(c.ops);
    var v := Version(|commits| + 1, if written then Effects(c.ops)[k] else 0);
    var vs2 := if written then vs + [v] else vs;
    var commits2 := commits + [c];
    forall n: nat | n <= |commits2|
      ensures VisibleAt(vs2, n) == Get(DbAt(commits2, initial, n), k)
    {
      VisibleAfterPublish(vs, commits, c, initial, k, n);
    }
    forall i | 0 <= i < |commits2| && k in Effects(commits2[i].ops)
      ensures vs2 != [] && vs2[|vs2| - 1].commitTs >= i + 1
    {
      if i < |commits| { assert commits2[i] == commits[i]; }
    }
    if !written && vs != [] && vs[|vs| - 1].commitTs > 0 {
      assert commits2[vs[|vs| - 1].commitTs - 1] == commits[vs[|vs| - 1].commitTs - 1];
    }
  }

  lemma VisibleAfterPublish(vs: seq<Version>, commits: seq<CommitRec>, c: CommitRec, initial: map<Key, int>, k: Key,
    n: nat)
    requires HistoryOk(vs, commits, initial, k) && n <= |commits| + 1
    ensures var vs2 := if k in Effects(c.ops) then vs + [Version(|commits| + 1, Effects(c.ops)[k])] else vs;
            VisibleAt(vs2, n) == Get(DbAt(commits + [c], initial, n), k)
  {
    if k in Effects(c.ops) { VisibleAppend(vs, Version(|commits| + 1, Effects(c.ops)[k]), n); }
    if n <= |commits| {
      DbAtPrefix(commits, c, initial, n);
    } else {
      DbAtPrefix(commits, c, initial, n - 1);
      VisiblePastEnd(vs, |commits|, n);
    }
  }

  lemma VisiblePastEnd(vs: seq<Version>, clock: nat, n: nat)
    requires Ascending(vs, clock) && clock <= n
    ensures VisibleAt(vs, n) == VisibleAt(vs, clock)
  {
    LatestIsVisible(vs, clock);
    LatestIsVisible(vs, n);
  }

  // ------------------------------------------------------------------ operations

  lemma {:induction false} ReplaysSame(ops: seq<Op>, db: map<Key, int>, db2: map<Key, int>)
    requires Replays(ops, db)
    requires forall i :: 0 <= i < |ops| && ops[i].R? ==> Get(db2, ops[i].key) == Get(db, ops[i].key)
    ensures Replays(ops, db2)
  {
    if ops != [] {
      ReplaysSame(ops[..|ops| - 1], db, db2);
    }
  }

  lemma {:induction false} EffectsHaveWrite(ops: seq<Op>, k: Key)
    requires k in Effects(ops)
    ensures exists i :: 0 <= i < |ops| && ops[i].W? && ops[i].key == k
  {
    var n := |ops| - 1;
    if !(ops[n].W? && ops[n].key == k) {
      EffectsHaveWrite(ops[..n], k);
      var i :| 0 <= i < |ops[..n]| && ops[..n][i].W? && ops[..n][i].key == k;
      assert ops[i].W? && ops[i].key == k;
    }
  }

  lemma BufferedKeysLocked(e: Engine, id: TxnId, ops: seq<Op>, k: Key)
    requires OpsLocked(e, id, ops) && k in Effects(ops)
    ensures k in At(e.heldX, id)
  {
    EffectsHaveWrite(ops, k);
  }

  lemma AppendOp(ops: seq<Op>, op: Op, db: map<Key, int>)
    requires Replays(ops, db)
    requires op.R? ==> op.value == Get(db + Effects(ops), op.key)
    ensures Replays(ops + [op], db)
    ensures Effects(ops + [op]) == if op.W? then Effects(ops)[op.key := op.value] else Effects(ops)
  {
    assert (ops + [op])[..|ops|] == ops;
  }

  // ------------------------------------------------------------------ steps that keep the commits

  /** The lock tables may only gain locks, and nothing else of the engine that data depends on moves. */
  ghost predicate MoreLocks(e: Engine, e2: Engine) {
    && e2.mode == e.mode && e2.clock == e.clock && e2.nextId == e.nextId
    && e2.history == e.history && e2.writes == e.writes
    && (forall x, k :: k in At(e.heldX, x) ==> k in At(e2.heldX, x))
    && (forall x, k :: k in At(e.heldX, x) + At(e.heldS, x) ==> k in At(e2.heldX, x) + At(e2.heldS, x))
  }

  lemma GrantHasMoreLocks(e: Engine, id: TxnId, key: Key, m: LockMode)
    ensures MoreLocks(e, Grant(e, id, key, m))
  {
  }

  lemma MoreLocksKeepsData(s: Sys, e2: Engine, id: TxnId, status: Status)
    requires DataInv(s) && MoreLocks(s.e, e2) && Live(s.txns, id)
    requires status.Running? || status.Victim? || (status.Waiting? && (status.request.ToRead? ==> s.e.mode.TwoPL?))
    ensures DataInv(s.(e := e2, txns := WithStatus(s.txns, id, status)))
  {
    var s2 := s.(e := e2, txns := WithStatus(s.txns, id, status));
    forall x | x in s2.txns
      ensures TxnDataOk(s2, x)
    {
      assert TxnDataOk(s, x);
    }
  }

  lemma ReadKeepsData(s: Sys, id: TxnId, key: Key, value: int)
    requires DataInv(s) && Live(s.txns, id)
    requires s.e.mode.TwoPL? ==> key in At(s.e.heldX, id) + At(s.e.heldS, id)
    requires value == Get(DbAt(s.commits, s.initial, Base(s, id)) + Effects(s.txns[id].ops), key)
    ensures DataInv(s.(txns := WithOp(s.txns, id, R(key, value))))
  {
    var s2 := s.(txns := WithOp(s.txns, id, R(key, value)));
    assert TxnDataOk(s, id);
    AppendOp(s.txns[id].ops, R(key, value), DbAt(s.commits, s.initial, Base(s, id)));
    assert TxnDataOk(s2, id);
    forall x | x in s2.txns
      ensures TxnDataOk(s2, x)
    {
      if x != id { OthersIgnoreOp(s, s2, id, R(key, value), x); }
    }
  }

  /** An operation of one transaction is nothing to another one. */
  lemma OthersIgnoreOp(s: Sys, s2: Sys, id: TxnId, op: Op, x: TxnId)
    requires DataInv(s) && id in s.txns && x in s.txns && x != id && s2.txns == WithOp(s.txns, id, op)
    requires s2.e == s.e.(writes := s2.e.writes) && s2.commits == s.commits && s2.initial == s.initial
    requires Buffer(s2.e, x) == Buffer(s.e, x) && (x in s2.e.writes <==> x in s.e.writes)
    ensures TxnDataOk(s2, x)
  {
    assert TxnDataOk(s, x);
    assert s2.txns[x] == s.txns[x];
  }

  lemma WriteKeepsData(s: Sys, id: TxnId, key: Key, value: int)
    requires DataInv(s) && Live(s.txns, id) && key in At(s.e.heldX, id)
    ensures DataInv(s.(e := FinishWrite(s.e, id, key, value, Granted), txns := WithOp(s.txns, id, W(key, value))))
  {
    var s2 := s.(e := FinishWrite(s.e, id, key, value, Granted), txns := WithOp(s.txns, id, W(key, value)));
    assert TxnDataOk(s, id);
    AppendOp(s.txns[id].ops, W(key, value), DbAt(s.commits, s.initial, Base(s, id)));
    assert TxnDataOk(s2, id);
    forall x | x in s2.txns
      ensures TxnDataOk(s2, x)
    {
      if x != id { OthersIgnoreOp(s, s2, id, W(key, value), x); }
    }
  }

  /** Dropping a transaction without publishing its writes. */
  lemma DropKeepsData(s: Sys, id: TxnId, status: Status)
    requires DataInv(s) && id in s.txns && (status.Ended? || status.Conflicted?)
    ensures DataInv(s.(e := Release(s.e.(writes := s.e.writes - {id}), id),
      txns := WakeAll(WithStatus(s.txns, id, status))))
  {
    var s2 := s.(e := Release(s.e.(writes := s.e.writes - {id}), id), txns := WakeAll(WithStatus(s.txns, id, status)));
    forall x | x in s2.txns
      ensures TxnDataOk(s2, x)
    {
      assert TxnDataOk(s, x);
      if x != id {
        assert s2.txns[x].ops == s.txns[x].ops && s2.txns[x].snapshot == s.txns[x].snapshot;
        assert Live(s2.txns, x) == Live(s.txns, x);
      }
    }
  }

  // ------------------------------------------------------------------ commit

  ghost function Published(s: Sys, id: TxnId): Sys
    requires id in s.txns
  {
    var buffer := Buffer(s.e, id);
    s.(e := Release(s.e.(clock := s.e.clock + 1, history := Install(s.e.history, buffer.Keys, buffer, s.e.clock + 1),
                         writes := s.e.writes - {id}), id),
       txns := WakeAll(WithStatus(s.txns, id, Ended)),
       commits := s.commits + [CommitRec(id, s.txns[id].snapshot, s.txns[id].ops)])
  }

  /** Under two-phase locking the committed writes touch nothing another live transaction has read. */
  lemma CommitMissesReaders(s: Sys, id: TxnId, x: TxnId)
    requires LockInv(s.e, s.txns) && DataInv(s) && s.e.mode.TwoPL?
    requires Live(s.txns, id) && Live(s.txns, x) && x != id
    ensures forall i :: 0 <= i < |s.txns[x].ops| && s.txns[x].ops[i].R? ==>
      s.txns[x].ops[i].key !in Effects(s.txns[id].ops)
  {
    assert TxnDataOk(s, id) && TxnDataOk(s, x);
    forall i | 0 <= i < |s.txns[x].ops| && s.txns[x].ops[i].R?
      ensures s.txns[x].ops[i].key !in Effects(s.txns[id].ops)
    {
      var k := s.txns[x].ops[i].key;
      assert LockOk(s.e, s.txns, x, k) && LockOk(s.e, s.txns, id, k);
      if k in Effects(s.txns[id].ops) { BufferedKeysLocked(s.e, id, s.txns[id].ops, k); }
    }
  }

  lemma PublishKeepsOther(s: Sys, id: TxnId, x: TxnId)
    requires LockInv(s.e, s.txns) && DataInv(s) && Live(s.txns, id) && x in s.txns && x != id
    ensures TxnDataOk(Published(s, id), x)
  {
    var s2 := Published(s, id);
    var c := CommitRec(id, s.txns[id].snapshot, s.txns[id].ops);
    assert TxnDataOk(s, x);
    assert s2.txns[x].ops == s.txns[x].ops && s2.txns[x].snapshot == s.txns[x].snapshot;
    assert Live(s2.txns, x) == Live(s.txns, x);
    if Live(s.txns, x) { StillReplays(s, id, x, c); }
  }

  /** What another live transaction has read is still what it would read. */
  lemma StillReplays(s: Sys, id: TxnId, x: TxnId, c: CommitRec)
    requires LockInv(s.e, s.txns) && DataInv(s) && Live(s.txns, id) && Live(s.txns, x) && x != id
    requires c == CommitRec(id, s.txns[id].snapshot, s.txns[id].ops)
    ensures var commits := s.commits + [c];
            Replays(s.txns[x].ops, DbAt(commits, s.initial, if s.e.mode.TwoPL? then |commits| else s.txns[x].snapshot))
  {
    assert TxnDataOk(s, x);
    DbAtPrefix(s.commits, c, s.initial, Base(s, x));
    if s.e.mode.TwoPL? {
      CommitMissesReaders(s, id, x);
      ReplaysSame(s.txns[x].ops, DbAt(s.commits, s.initial, |s.commits|),
        DbAt(s.commits + [c], s.initial, |s.commits| + 1));
    }
  }

  lemma PublishKeepsVersions(s: Sys, id: TxnId, k: Key)
    requires DataInv(s) && Live(s.txns, id)
    ensures HistoryOk(Versions(Published(s, id).e.history, k), Published(s, id).commits, s.initial, k)
  {
    assert TxnDataOk(s, id);
    PublishKeepsHistory(Versions(s.e.history, k), s.commits, CommitRec(id, s.txns[id].snapshot, s.txns[id].ops),
      s.initial, k);
  }

  lemma PublishKeepsData(s: Sys, id: TxnId)
    requires LockInv(s.e, s.txns) && DataInv(s) && Live(s.txns, id)
    ensures DataInv(Published(s, id))
  {
    var s2 := Published(s, id);
    assert s2.txns.Keys == s.txns.Keys;
    forall k
      ensures HistoryOk(Versions(s2.e.history, k), s2.commits, s2.initial, k)
    {
      PublishKeepsVersions(s, id, k);
    }
    forall x | x in s2.txns
      ensures 0 < x < s2.e.nextId && s2.txns[x].snapshot <= |s2.commits| && TxnDataOk(s2, x)
    {
      if x != id { PublishKeepsOther(s, id, x); }
    }
  }

  /** Some commit from number `start` on wrote a key that `ops` writes. */
  ghost predicate CommittedSince(commits: seq<CommitRec>, start: nat, ops: seq<Op>) {
    exists j, k :: start <= j < |commits| && k in Effects(ops) && k in Effects(commits[j].ops)
  }

  /** Validation fails exactly when a key of the write buffer was committed after the snapshot. */
  lemma ConflictIff(s: Sys, id: TxnId)
    requires DataInv(s) && Live(s.txns, id)
    ensures HasConflict(s.e, Handle(s, id)) <==>
      s.e.mode.MVCC? && CommittedSince(s.commits, s.txns[id].snapshot, s.txns[id].ops)
  {
    if HasConflict(s.e, Handle(s, id)) { ConflictHasCommit(s, id); }
    if s.e.mode.MVCC? && CommittedSince(s.commits, s.txns[id].snapshot, s.txns[id].ops) { CommitConflicts(s, id); }
  }

  lemma ConflictHasCommit(s: Sys, id: TxnId)
    requires DataInv(s) && Live(s.txns, id) && HasConflict(s.e, Handle(s, id))
    ensures CommittedSince(s.commits, s.txns[id].snapshot, s.txns[id].ops)
  {
    assert TxnDataOk(s, id);
    var k :| k in Buffer(s.e, id) && Overwritten(s.e, Handle(s, id), k);
    var vs := Versions(s.e.history, k);
    assert HistoryOk(vs, s.commits, s.initial, k);
    var j := vs[|vs| - 1].commitTs - 1;
    assert s.txns[id].snapshot <= j < |s.commits| && k in Effects(s.txns[id].ops) && k in Effects(s.commits[j].ops);
  }

  lemma CommitConflicts(s: Sys, id: TxnId)
    requires DataInv(s) && Live(s.txns, id) && s.e.mode.MVCC?
    requires CommittedSince(s.commits, s.txns[id].snapshot, s.txns[id].ops)
    ensures HasConflict(s.e, Handle(s, id))
  {
    assert TxnDataOk(s, id);
    var snapshot, ops := s.txns[id].snapshot, s.txns[id].ops;
    var j, k :| snapshot <= j < |s.commits| && k in Effects(ops) && k in Effects(s.commits[j].ops);
    assert HistoryOk(Versions(s.e.history, k), s.commits, s.initial, k);
    assert k in Buffer(s.e, id) && Overwritten(s.e, Handle(s, id), k);
  }

  lemma CommitOkPrefix(mode: Mode, commits: seq<CommitRec>, c: CommitRec, initial: map<Key, int>, i: nat)
    requires i < |commits| && CommitOk(mode, commits, initial, i)
    ensures CommitOk(mode, commits + [c], initial, i)
  {
    var commits2 := commits + [c];
    assert commits2[i] == commits[i];
    DbAtPrefix(commits, c, initial, if mode.TwoPL? then i else commits[i].snapshot);
    if mode.MVCC? {
      forall j, k | 0 <= j < i && k in Effects(commits2[i].ops) && k in Effects(commits2[j].ops)
        ensures j < commits2[i].snapshot
      {
        assert commits2[j] == commits[j];
      }
    }
  }

  lemma PublishKeepsCommits(s: Sys, id: TxnId)
    requires DataInv(s) && CommitInv(s.e.mode, s.commits, s.initial) && Live(s.txns, id)
    requires !HasConflict(s.e, Handle(s, id))
    ensures CommitInv(s.e.mode, Published(s, id).commits, s.initial)
  {
    var c := CommitRec(id, s.txns[id].snapshot, s.txns[id].ops);
    var commits2 := s.commits + [c];
    var n := |s.commits|;
    assert TxnDataOk(s, id);
    ConflictIff(s, id);
    DbAtPrefix(s.commits, c, s.initial, Base(s, id));
    forall i | 0 <= i < |commits2|
      ensures CommitOk(s.e.mode, commits2, s.initial, i)
    {
      if i < n {
        CommitOkPrefix(s.e.mode, s.commits, c, s.initial, i);
      } else if s.e.mode.MVCC? {
        assert FirstCommitterWins(commits2, i) by {
          forall j, k | 0 <= j < i && k in Effects(commits2[i].ops) && k in Effects(commits2[j].ops)
            ensures j < commits2[i].snapshot
          {
            assert commits2[j] == s.commits[j];
          }
        }
      }
    }
  }
}
