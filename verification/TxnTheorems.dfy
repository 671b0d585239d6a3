/** The invariant holds after every run, and what it means: serializability, snapshot isolation,
    first-committer-wins, and freedom from deadlock without false victims. */
module TxnTheorems {
  import opened WaitGraph
  import opened TxnEngine
  import opened TxnSystem
  import opened TxnData

  // ------------------------------------------------------------------ preservation

  lemma SameLocksKeepInv(e: Engine, e2: Engine, txns: map<TxnId, TxnRec>)
    requires LockInv(e, txns) && WaitInv(e, txns) && SameLocks(e, e2)
    ensures LockInv(e2, txns) && WaitInv(e2, txns)
  {
    forall x, k
      ensures LockOk(e2, txns, x, k)
    {
      assert LockOk(e, txns, x, k);
    }
    forall x | x in txns && txns[x].status.Waiting?
      ensures WaiterOk(e2, txns, x, txns[x].status.key, ModeOf(txns[x].status.request), txns[x].status.woken)
    {
      assert WaiterOk(e, txns, x, txns[x].status.key, ModeOf(txns[x].status.request), txns[x].status.woken);
    }
  }

  /** A transaction that neither was nor becomes a waiter changes nothing about locks and waits. */
  lemma QuietChangeKeepsInv(e: Engine, txns: map<TxnId, TxnRec>, txns2: map<TxnId, TxnRec>, id: TxnId)
    requires LockInv(e, txns) && WaitInv(e, txns) && SameButLive(txns, txns2, id)
    requires !txns[id].status.Waiting? && !txns2[id].status.Waiting?
    ensures LockInv(e, txns2) && WaitInv(e, txns2)
  {
    forall x, k
      ensures LockOk(e, txns2, x, k)
    {
      assert LockOk(e, txns, x, k);
    }
    forall x | x in txns2 && txns2[x].status.Waiting?
      ensures WaiterOk(e, txns2, x, txns2[x].status.key, ModeOf(txns2[x].status.request), txns2[x].status.woken)
    {
      assert WaiterOk(e, txns, x, txns[x].status.key, ModeOf(txns[x].status.request), txns[x].status.woken);
    }
  }

  lemma GrantStep(s: Sys, id: TxnId, key: Key, m: LockMode)
    requires Inv(s) && Live(s.txns, id) && !AlreadyHeld(s.e, id, key, m) && Blockers(s.e, id, key, m) == {}
    ensures Inv(s.(e := Grant(s.e, id, key, m), txns := WithStatus(s.txns, id, Running)))
  {
    var txns2 := WithStatus(s.txns, id, Running);
    GrantKeepsLocks(s.e, s.txns, txns2, id, key, m);
    GrantKeepsWaits(s.e, s.txns, txns2, id, key, m);
    GrantHasMoreLocks(s.e, id, key, m);
    MoreLocksKeepsData(s, Grant(s.e, id, key, m), id, Running);
  }

  lemma BlockStep(s: Sys, id: TxnId, key: Key, request: Request)
    requires Inv(s) && Live(s.txns, id) && !AlreadyHeld(s.e, id, key, ModeOf(request))
    requires request.ToRead? ==> s.e.mode.TwoPL?
    requires var blockers := Blockers(s.e, id, key, ModeOf(request));
             blockers != {} && !OnCycle(s.e.waits[id := blockers], id)
    ensures Inv(s.(e := s.e.(waits := s.e.waits[id := Blockers(s.e, id, key, ModeOf(request))]),
                   txns := WithStatus(s.txns, id, Waiting(key, request, false))))
  {
    var e2 := s.e.(waits := s.e.waits[id := Blockers(s.e, id, key, ModeOf(request))]);
    var txns2 := WithStatus(s.txns, id, Waiting(key, request, false));
    BlockKeepsWaits(s.e, s.txns, id, key, request);
    LocksIgnoreWaits(s.e, e2, s.txns, txns2, id);
    MoreLocksKeepsData(s, e2, id, Waiting(key, request, false));
  }

  lemma VictimStep(s: Sys, id: TxnId)
    requires Inv(s) && Live(s.txns, id)
    ensures Inv(s.(e := s.e.(waits := s.e.waits - {id}, deadlocks := s.e.deadlocks + 1),
      txns := WithStatus(s.txns, id, Victim)))
  {
    var e2 := s.e.(waits := s.e.waits - {id}, deadlocks := s.e.deadlocks + 1);
    var txns2 := WithStatus(s.txns, id, Victim);
    UnblockKeepsWaits(s.e, e2, s.txns, txns2, id);
    LocksIgnoreWaits(s.e, e2, s.txns, txns2, id);
    MoreLocksKeepsData(s, e2, id, Victim);
  }

  /** A granted two-phase-locking read of a key outside the write buffer returns the newest database. */
  lemma LatestIsCurrent(s: Sys, id: TxnId, key: Key)
    requires Inv(s) && Live(s.txns, id) && s.e.mode.TwoPL? && key !in Effects(s.txns[id].ops)
    ensures Latest(Versions(s.e.history, key))
      == Get(DbAt(s.commits, s.initial, Base(s, id)) + Effects(s.txns[id].ops), key)
  {
    var vs := Versions(s.e.history, key);
    assert HistoryOk(vs, s.commits, s.initial, key);
    LatestIsVisible(vs, |s.commits|);
  }

  /** Recording a read or write of a running transaction that has the lock it needs. */
  lemma FinishedReadKeepsInv(s: Sys, id: TxnId, key: Key, value: int)
    requires Inv(s) && id in s.txns && s.txns[id].status.Running?
    requires s.e.mode.TwoPL? ==> HoldsConflicting(s.e, id, key, Exclusive)
    requires value == Get(DbAt(s.commits, s.initial, Base(s, id)) + Effects(s.txns[id].ops), key)
    ensures Inv(s.(txns := WithOp(s.txns, id, R(key, value))))
  {
    ReadKeepsData(s, id, key, value);
    QuietChangeKeepsInv(s.e, s.txns, WithOp(s.txns, id, R(key, value)), id);
  }

  lemma FinishedWriteKeepsInv(s: Sys, id: TxnId, key: Key, value: int)
    requires Inv(s) && id in s.txns && s.txns[id].status.Running? && key in At(s.e.heldX, id)
    ensures Inv(s.(e := FinishWrite(s.e, id, key, value, Granted), txns := WithOp(s.txns, id, W(key, value))))
  {
    WriteKeepsData(s, id, key, value);
    QuietChangeKeepsInv(s.e, s.txns, WithOp(s.txns, id, W(key, value)), id);
    SameLocksKeepInv(s.e, FinishWrite(s.e, id, key, value, Granted), WithOp(s.txns, id, W(key, value)));
  }

  lemma GrantedReadStep(s: Sys, id: TxnId, key: Key)
    requires Inv(s) && Live(s.txns, id) && s.e.mode.TwoPL? && key !in Effects(s.txns[id].ops)
    requires !AlreadyHeld(s.e, id, key, Shared) && Blockers(s.e, id, key, Shared) == {}
    ensures Inv(s.(e := Grant(s.e, id, key, Shared),
      txns := WithOp(s.txns, id, R(key, Latest(Versions(s.e.history, key))))))
  {
    var s1 := s.(e := Grant(s.e, id, key, Shared), txns := WithStatus(s.txns, id, Running));
    var value := Latest(Versions(s.e.history, key));
    GrantStep(s, id, key, Shared);
    LatestIsCurrent(s1, id, key);
    FinishedReadKeepsInv(s1, id, key, value);
    OpAfterGrant(s, id, R(key, value));
    assert s1.(txns := WithOp(s1.txns, id, R(key, value)))
      == s.(e := Grant(s.e, id, key, Shared), txns := WithOp(s.txns, id, R(key, value)));
  }

  lemma OpAfterGrant(s: Sys, id: TxnId, op: Op)
    requires id in s.txns
    ensures WithOp(WithStatus(s.txns, id, Running), id, op) == WithOp(s.txns, id, op)
  {
  }

  lemma GrantedWriteStep(s: Sys, id: TxnId, key: Key, value: int)
    requires Inv(s) && Live(s.txns, id)
    requires !AlreadyHeld(s.e, id, key, Exclusive) && Blockers(s.e, id, key, Exclusive) == {}
    ensures Inv(s.(e := FinishWrite(Grant(s.e, id, key, Exclusive), id, key, value, Granted),
                   txns := WithOp(s.txns, id, W(key, value))))
  {
    var e1 := Grant(s.e, id, key, Exclusive);
    var s1 := s.(e := e1, txns := WithStatus(s.txns, id, Running));
    GrantStep(s, id, key, Exclusive);
    assert key in At(e1.heldX, id);
    FinishedWriteKeepsInv(s1, id, key, value);
    OpAfterGrant(s, id, W(key, value));
    assert s1.(e := FinishWrite(e1, id, key, value, Granted), txns := WithOp(s1.txns, id, W(key, value)))
      == s.(e := FinishWrite(e1, id, key, value, Granted), txns := WithOp(s.txns, id, W(key, value)));
  }

  lemma LockedReadKeepsInv(s: Sys, id: TxnId, key: Key)
    requires Inv(s) && Live(s.txns, id) && s.e.mode.TwoPL?
    requires !AlreadyHeld(s.e, id, key, Shared) && key !in Effects(s.txns[id].ops)
    ensures var r := LockTurn(s.e, id, key, Shared);
            Inv(AfterRead(s, id, key, r.0, FinishRead(s.e.history, key, r.1)))
  {
    var blockers := Blockers(s.e, id, key, Shared);
    ReadTurnOutcomes(s, id, key);
    if blockers == {} {
      GrantedReadStep(s, id, key);
    } else if OnCycle(s.e.waits[id := blockers], id) {
      VictimStep(s, id);
    } else {
      BlockStep(s, id, key, ToRead);
    }
  }

  lemma LockedWriteKeepsInv(s: Sys, id: TxnId, key: Key, value: int)
    requires Inv(s) && Live(s.txns, id) && !AlreadyHeld(s.e, id, key, Exclusive)
    ensures var r := LockTurn(s.e, id, key, Exclusive);
            Inv(AfterWrite(s, id, key, value, FinishWrite(r.0, id, key, value, r.1), r.1))
  {
    var blockers := Blockers(s.e, id, key, Exclusive);
    WriteTurnOutcomes(s, id, key, value);
    if blockers == {} {
      GrantedWriteStep(s, id, key, value);
    } else if OnCycle(s.e.waits[id := blockers], id) {
      VictimStep(s, id);
    } else {
      BlockStep(s, id, key, ToWrite(value));
    }
  }

  /** The three ways a turn of a writer can end. */
  lemma WriteTurnOutcomes(s: Sys, id: TxnId, key: Key, value: int)
    requires id in s.txns
    ensures var r := LockTurn(s.e, id, key, Exclusive);
            var blockers := Blockers(s.e, id, key, Exclusive);
            AfterWrite(s, id, key, value, FinishWrite(r.0, id, key, value, r.1), r.1) ==
              if blockers == {} then
                s.(e := FinishWrite(Grant(s.e, id, key, Exclusive), id, key, value, Granted),
                  txns := WithOp(s.txns, id, W(key, value)))
              else if OnCycle(s.e.waits[id := blockers], id) then
                s.(e := s.e.(waits := s.e.waits - {id}, deadlocks := s.e.deadlocks + 1),
                  txns := WithStatus(s.txns, id, Victim))
              else
                s.(e := s.e.(waits := s.e.waits[id := blockers]),
                  txns := WithStatus(s.txns, id, Waiting(key, ToWrite(value), false)))
  {
    var r := LockTurn(s.e, id, key, Exclusive);
    match r.1 {
      case Granted => assert FinishWrite(r.0, id, key, value, r.1) == FinishWrite(r.0, id, key, value, Granted);
      case Blocked => assert FinishWrite(r.0, id, key, value, r.1) == r.0;
      case Deadlock => assert FinishWrite(r.0, id, key, value, r.1) == r.0;
    }
  }

  /** The three ways a turn of a reader can end. */
  lemma ReadTurnOutcomes(s: Sys, id: TxnId, key: Key)
    requires id in s.txns
    ensures var r := LockTurn(s.e, id, key, Shared);
            var blockers := Blockers(s.e, id, key, Shared);
            AfterRead(s, id, key, r.0, FinishRead(s.e.history, key, r.1)) ==
              if blockers == {} then
                s.(e := Grant(s.e, id, key, Shared),
                  txns := WithOp(s.txns, id, R(key, Latest(Versions(s.e.history, key)))))
              else if OnCycle(s.e.waits[id := blockers], id) then
                s.(e := s.e.(waits := s.e.waits - {id}, deadlocks := s.e.deadlocks + 1),
                  txns := WithStatus(s.txns, id, Victim))
              else
                s.(e := s.e.(waits := s.e.waits[id := blockers]),
                  txns := WithStatus(s.txns, id, Waiting(key, ToRead, false)))
  {
  }

  lemma ReadStep(s: Sys, id: TxnId, key: Key)
    requires Inv(s) && Enabled(s, DoRead(id, key))
    ensures Inv(Apply(s, DoRead(id, key)))
  {
    var ops := s.txns[id].ops;
    assert TxnDataOk(s, id);
    if key in Effects(ops) {
      BufferedKeysLocked(s.e, id, ops, key);
      FinishedReadKeepsInv(s, id, key, Effects(ops)[key]);
    } else if s.e.mode.TwoPL? {
      if AlreadyHeld(s.e, id, key, Shared) {
        LatestIsCurrent(s, id, key);
        FinishedReadKeepsInv(s, id, key, Latest(Versions(s.e.history, key)));
      } else {
        LockedReadKeepsInv(s, id, key);
      }
    } else {
      assert HistoryOk(Versions(s.e.history, key), s.commits, s.initial, key);
      FinishedReadKeepsInv(s, id, key, VisibleAt(Versions(s.e.history, key), s.txns[id].snapshot));
    }
  }

  lemma WriteStep(s: Sys, id: TxnId, key: Key, value: int)
    requires Inv(s) && Enabled(s, DoWrite(id, key, value))
    ensures Inv(Apply(s, DoWrite(id, key, value)))
  {
    if AlreadyHeld(s.e, id, key, Exclusive) {
      FinishedWriteKeepsInv(s, id, key, value);
    } else {
      LockedWriteKeepsInv(s, id, key, value);
    }
  }

  lemma ResumeStep(s: Sys, id: TxnId)
    requires Inv(s) && Enabled(s, Resume(id))
    ensures Inv(Apply(s, Resume(id)))
  {
    var w := s.txns[id].status;
    var ops := s.txns[id].ops;
    assert TxnDataOk(s, id);
    assert WaiterOk(s.e, s.txns, id, w.key, ModeOf(w.request), w.woken);
    if w.request.ToRead? {
      if w.key in Effects(ops) { BufferedKeysLocked(s.e, id, ops, w.key); }
      LockedReadKeepsInv(s, id, w.key);
    } else {
      LockedWriteKeepsInv(s, id, w.key, w.request.value);
    }
  }

  /** Ending a transaction, from an engine that has the same lock tables as the current one. */
  lemma EndKeepsLocks(s: Sys, e: Engine, id: TxnId, status: Status)
    requires LockInv(s.e, s.txns) && WaitInv(s.e, s.txns) && SameLocks(s.e, e)
    requires id in s.txns && !s.txns[id].status.Waiting? && (status.Ended? || status.Conflicted?)
    ensures LockInv(Release(e, id), WakeAll(WithStatus(s.txns, id, status)))
    ensures WaitInv(Release(e, id), WakeAll(WithStatus(s.txns, id, status)))
  {
    SameLocksKeepInv(s.e, e, s.txns);
    ReleaseKeepsLocks(e, s.txns, id, status);
    ReleaseKeepsWaits(e, s.txns, id, status);
  }

  lemma AbortStep(s: Sys, id: TxnId, status: Status)
    requires Inv(s) && id in s.txns && !s.txns[id].status.Waiting? && (status.Ended? || status.Conflicted?)
    ensures Inv(s.(e := Abort(s.e, Handle(s, id)), txns := WakeAll(WithStatus(s.txns, id, status))))
  {
    EndKeepsLocks(s, s.e.(writes := s.e.writes - {id}), id, status);
    DropKeepsData(s, id, status);
  }

  lemma PublishStep(s: Sys, id: TxnId)
    requires Inv(s) && Enabled(s, DoCommit(id)) && !HasConflict(s.e, Handle(s, id))
    ensures Inv(Published(s, id))
  {
    var buffer := Buffer(s.e, id);
    EndKeepsLocks(s, s.e.(clock := s.e.clock + 1, history := Install(s.e.history, buffer.Keys, buffer, s.e.clock + 1),
                          writes := s.e.writes - {id}), id, Ended);
    PublishKeepsData(s, id);
    PublishKeepsCommits(s, id);
  }

  lemma CommitOutcomes(s: Sys, id: TxnId)
    requires Enabled(s, DoCommit(id))
    ensures HasConflict(s.e, Handle(s, id)) ==>
      Apply(s, DoCommit(id)) == s.(e := Abort(s.e, Handle(s, id)), txns := WakeAll(WithStatus(s.txns, id, Conflicted)))
    ensures !HasConflict(s.e, Handle(s, id)) ==> Apply(s, DoCommit(id)) == Published(s, id)
  {
  }

  lemma CommitStep(s: Sys, id: TxnId)
    requires Inv(s) && Enabled(s, DoCommit(id))
    ensures Inv(Apply(s, DoCommit(id)))
  {
    CommitOutcomes(s, id);
    if HasConflict(s.e, Handle(s, id)) {
      AbortStep(s, id, Conflicted);
    } else {
      PublishStep(s, id);
    }
  }

  lemma StartKeepsData(s: Sys)
    requires Inv(s)
    ensures DataInv(Apply(s, Start))
  {
    var s2 := Apply(s, Start);
    var newest := s.e.nextId;
    assert newest !in s.txns && newest !in s.e.writes;
    forall x | x in s2.txns
      ensures TxnDataOk(s2, x)
    {
      if x != newest { assert TxnDataOk(s, x); }
    }
  }

  lemma StartStep(s: Sys)
    requires Inv(s)
    ensures Inv(Apply(s, Start))
  {
    var s2 := Apply(s, Start);
    assert s.e.nextId !in s.txns;
    StartKeepsData(s);
    forall x, k
      ensures LockOk(s2.e, s2.txns, x, k)
    {
      assert LockOk(s.e, s.txns, x, k);
    }
    forall x | x in s2.txns && s2.txns[x].status.Waiting?
      ensures WaiterOk(s2.e, s2.txns, x, s2.txns[x].status.key, ModeOf(s2.txns[x].status.request),
        s2.txns[x].status.woken)
    {
      assert WaiterOk(s.e, s.txns, x, s.txns[x].status.key, ModeOf(s.txns[x].status.request), s.txns[x].status.woken);
    }
  }

  lemma StepKeepsInv(s: Sys, a: Action)
    requires Inv(s) && Enabled(s, a)
    ensures Inv(Apply(s, a))
  {
    match a
    case Start => StartStep(s);
    case DoRead(id, key) => ReadStep(s, id, key);
    case DoWrite(id, key, value) => WriteStep(s, id, key, value);
    case Resume(id) => ResumeStep(s, id);
    case DoCommit(id) => CommitStep(s, id);
    case DoAbort(id) => AbortStep(s, id, Ended);
  }

  lemma InitialInv(mode: Mode, initial: map<Key, int>)
    ensures Inv(InitialSys(mode, initial))
  {
    var s := InitialSys(mode, initial);
    forall n
      ensures !OnCycle(s.e.waits, n)
    {
      ClosedSetNoCycle(s.e.waits, n, {});
    }
  }

  lemma {:induction false} RunKeepsInv(s: Sys, actions: seq<Action>)
    requires Inv(s) && Legal(s, actions)
    ensures Inv(Run(s, actions)) && Run(s, actions).e.mode == s.e.mode && Run(s, actions).initial == s.initial
    decreases |actions|
  {
    if actions != [] {
      StepKeepsInv(s, actions[0]);
      RunKeepsInv(Apply(s, actions[0]), actions[1..]);
    }
  }

  /** The state after a run from a fresh engine. */
  ghost predicate Reachable(s: Sys, mode: Mode, initial: map<Key, int>) {
    exists actions :: Legal(InitialSys(mode, initial), actions) && s == Run(InitialSys(mode, initial), actions)
  }

  lemma ReachableInv(s: Sys, mode: Mode, initial: map<Key, int>)
    requires Reachable(s, mode, initial)
    ensures Inv(s) && s.e.mode == mode && s.initial == initial
  {
    InitialInv(mode, initial);
    var actions :| Legal(InitialSys(mode, initial), actions) && s == Run(InitialSys(mode, initial), actions);
    RunKeepsInv(InitialSys(mode, initial), actions);
  }

  // ------------------------------------------------------------------ serializability

  lemma {:induction false} EffectsConcat(a: seq<Op>, b: seq<Op>)
    ensures Effects(a + b) == Effects(a) + Effects(b)
  {
    if b == [] {
      assert a + b == a;
    } else {
      var n := |b| - 1;
      assert (a + b)[..|a + b| - 1] == a + b[..n];
      EffectsConcat(a, b[..n]);
    }
  }

  lemma OverlayAssociative(a: map<Key, int>, b: map<Key, int>, c: map<Key, int>)
    ensures (a + b) + c == a + (b + c)
  {
  }

  lemma {:induction false} ReplaysConcat(a: seq<Op>, b: seq<Op>, db: map<Key, int>)
    requires Replays(a, db) && Replays(b, db + Effects(a))
    ensures Replays(a + b, db)
  {
    if b == [] {
      assert a + b == a;
    } else {
      var n := |b| - 1;
      assert (a + b)[..|a + b| - 1] == a + b[..n];
      ReplaysConcat(a, b[..n], db);
      EffectsConcat(a, b[..n]);
      OverlayAssociative(db, Effects(a), Effects(b[..n]));
    }
  }

  /** The operations of the first `n` commits, one whole transaction after another. */
  function SerialOps(commits: seq<CommitRec>, n: nat): seq<Op>
    requires n <= |commits|
  {
    if n == 0 then [] else SerialOps(commits, n - 1) + commits[n - 1].ops
  }

  lemma {:induction false} SerialReplay(commits: seq<CommitRec>, initial: map<Key, int>, n: nat)
    requires n <= |commits| && CommitInv(TwoPL, commits, initial)
    ensures Replays(SerialOps(commits, n), initial)
    ensures initial + Effects(SerialOps(commits, n)) == DbAt(commits, initial, n)
  {
    if n > 0 {
      SerialReplay(commits, initial, n - 1);
      assert CommitOk(TwoPL, commits, initial, n - 1);
      ReplaysConcat(SerialOps(commits, n - 1), commits[n - 1].ops, initial);
      EffectsConcat(SerialOps(commits, n - 1), commits[n - 1].ops);
      OverlayAssociative(initial, Effects(SerialOps(commits, n - 1)), Effects(commits[n - 1].ops));
    }
  }

  /** Two-phase locking: the committed transactions, run one after another in commit order on a plain
      map, return exactly the values they read and leave exactly the newest versions. */
  lemma TwoPLSerializable(s: Sys, initial: map<Key, int>)
    requires Reachable(s, TwoPL, initial)
    ensures Replays(SerialOps(s.commits, |s.commits|), initial)
    ensures forall k :: Latest(Versions(s.e.history, k)) == Get(initial + Effects(SerialOps(s.commits, |s.commits|)), k)
  {
    ReachableInv(s, TwoPL, initial);
    SerialReplay(s.commits, initial, |s.commits|);
    forall k
      ensures Latest(Versions(s.e.history, k)) == Get(DbAt(s.commits, initial, |s.commits|), k)
    {
      assert HistoryOk(Versions(s.e.history, k), s.commits, initial, k);
      LatestIsVisible(Versions(s.e.history, k), |s.commits|);
    }
  }

  // ------------------------------------------------------------------ snapshot isolation

  lemma {:induction false} ReplayedValue(ops: seq<Op>, db: map<Key, int>, i: nat)
    requires Replays(ops, db) && i < |ops| && ops[i].R?
    ensures ops[i].value == Get(db + Effects(ops[..i]), ops[i].key)
  {
    var n := |ops| - 1;
    if i < n {
      ReplayedValue(ops[..n], db, i);
      assert ops[..n][..i] == ops[..i];
    }
  }

  /** `ops[i]` reads a key the transaction has not written before. */
  predicate OutsideRead(ops: seq<Op>, i: nat) {
    i < |ops| && ops[i].R? && ops[i].key !in Effects(ops[..i])
  }

  /** MVCC: every read of a key the transaction has not written, by a live or committed transaction,
      returns the key's value in the database after exactly `snapshot` commits. */
  lemma SnapshotReads(s: Sys, initial: map<Key, int>)
    requires Reachable(s, MVCC, initial)
    ensures forall id, i: nat :: Live(s.txns, id) && OutsideRead(s.txns[id].ops, i) ==>
        s.txns[id].snapshot <= |s.commits|
        && s.txns[id].ops[i].value == Get(DbAt(s.commits, initial, s.txns[id].snapshot), s.txns[id].ops[i].key)
    ensures forall c, i: nat :: 0 <= c < |s.commits| && OutsideRead(s.commits[c].ops, i) ==>
        s.commits[c].snapshot <= c
        && s.commits[c].ops[i].value == Get(DbAt(s.commits, initial, s.commits[c].snapshot), s.commits[c].ops[i].key)
  {
    ReachableInv(s, MVCC, initial);
    forall id, i: nat | Live(s.txns, id) && OutsideRead(s.txns[id].ops, i)
      ensures s.txns[id].snapshot <= |s.commits|
      ensures s.txns[id].ops[i].value == Get(DbAt(s.commits, initial, s.txns[id].snapshot), s.txns[id].ops[i].key)
    {
      assert TxnDataOk(s, id);
      ReplayedValue(s.txns[id].ops, DbAt(s.commits, initial, s.txns[id].snapshot), i);
    }
    forall c, i: nat | 0 <= c < |s.commits| && OutsideRead(s.commits[c].ops, i)
      ensures s.commits[c].snapshot <= c
      ensures s.commits[c].ops[i].value == Get(DbAt(s.commits, initial, s.commits[c].snapshot), s.commits[c].ops[i].key)
    {
      assert CommitOk(MVCC, s.commits, initial, c);
      ReplayedValue(s.commits[c].ops, DbAt(s.commits, initial, s.commits[c].snapshot), i);
    }
  }

  /** Later commits never change an earlier database, so a snapshot stays what it was. */
  lemma SnapshotsAreStable(s: Sys, a: Action, n: nat)
    requires Inv(s) && Enabled(s, a) && n <= |s.commits|
    ensures n <= |Apply(s, a).commits|
    ensures DbAt(Apply(s, a).commits, s.initial, n) == DbAt(s.commits, s.initial, n)
  {
    CommitsOnlyGrow(s, a);
    if a.DoCommit? && Apply(s, a).commits != s.commits {
      DbAtPrefix(s.commits, CommitRec(a.id, s.txns[a.id].snapshot, s.txns[a.id].ops), s.initial, n);
    }
  }

  lemma CommitsOnlyGrow(s: Sys, a: Action)
    requires Enabled(s, a)
    ensures Apply(s, a).commits == s.commits
      || (a.DoCommit? && Apply(s, a).commits == s.commits + [CommitRec(a.id, s.txns[a.id].snapshot, s.txns[a.id].ops)])
  {
  }

  // ------------------------------------------------------------------ lost updates

  /** Commit is refused with TxnConflict exactly in MVCC mode when a key the transaction wrote was
      committed by another one after its snapshot. */
  lemma ConflictExactly(s: Sys, mode: Mode, initial: map<Key, int>, id: TxnId)
    requires Reachable(s, mode, initial) && Enabled(s, DoCommit(id))
    ensures Apply(s, DoCommit(id)).txns[id].status.Conflicted? <==>
      mode.MVCC? && CommittedSince(s.commits, s.txns[id].snapshot, s.txns[id].ops)
  {
    ReachableInv(s, mode, initial);
    ConflictIff(s, id);
    ConflictedIff(s, id);
  }

  lemma ConflictedIff(s: Sys, id: TxnId)
    requires Enabled(s, DoCommit(id))
    ensures id in Apply(s, DoCommit(id)).txns
    ensures Apply(s, DoCommit(id)).txns[id].status.Conflicted? <==> HasConflict(s.e, Handle(s, id))
  {
    CommitOutcomes(s, id);
  }

  /** Two committed writers of one key never overlap: the later one began after the earlier one ended. */
  lemma WritersDoNotOverlap(s: Sys, initial: map<Key, int>, i: nat, j: nat, k: Key)
    requires Reachable(s, MVCC, initial) && i < j < |s.commits|
    requires k in Effects(s.commits[i].ops) && k in Effects(s.commits[j].ops)
    ensures i + 1 <= s.commits[j].snapshot <= j
  {
    ReachableInv(s, MVCC, initial);
    assert CommitOk(MVCC, s.commits, initial, j);
  }

  /** The transaction's final value for `k` is the value it first read from `k` plus `delta`. */
  ghost predicate Increments(ops: seq<Op>, k: Key, delta: int) {
    k in Effects(ops)
    && exists i: nat :: OutsideRead(ops, i) && ops[i].key == k && Effects(ops)[k] == ops[i].value + delta
  }

  function SumOfDeltas(commits: seq<CommitRec>, deltas: seq<int>, k: Key, n: nat): int
    requires n <= |commits| == |deltas|
  {
    if n == 0 then 0
    else SumOfDeltas(commits, deltas, k, n - 1) + if k in Effects(commits[n - 1].ops) then deltas[n - 1] else 0
  }

  lemma {:induction false} UntouchedKey(commits: seq<CommitRec>, initial: map<Key, int>, k: Key, m: nat, n: nat)
    requires m <= n <= |commits|
    requires forall j :: m <= j < n ==> k !in Effects(commits[j].ops)
    ensures Get(DbAt(commits, initial, n), k) == Get(DbAt(commits, initial, m), k)
  {
    if m < n {
      UntouchedKey(commits, initial, k, m, n - 1);
    }
  }

  lemma IncrementApplies(mode: Mode, commits: seq<CommitRec>, initial: map<Key, int>, k: Key, delta: int, n: nat)
    requires n < |commits| && CommitOk(mode, commits, initial, n) && Increments(commits[n].ops, k, delta)
    ensures Get(DbAt(commits, initial, n + 1), k) == Get(DbAt(commits, initial, n), k) + delta
  {
    var ops := commits[n].ops;
    var start := if mode.TwoPL? then n else commits[n].snapshot;
    var i: nat :| OutsideRead(ops, i) && ops[i].key == k && Effects(ops)[k] == ops[i].value + delta;
    ReplayedValue(ops, DbAt(commits, initial, start), i);
    UntouchedKey(commits, initial, k, start, n);
  }

  lemma {:induction false} DeltasAddUp(mode: Mode, commits: seq<CommitRec>, initial: map<Key, int>, deltas: seq<int>,
    k: Key, n: nat)
    requires n <= |commits| == |deltas| && CommitInv(mode, commits, initial)
    requires forall i :: 0 <= i < n && k in Effects(commits[i].ops) ==> Increments(commits[i].ops, k, deltas[i])
    ensures Get(DbAt(commits, initial, n), k) == Get(initial, k) + SumOfDeltas(commits, deltas, k, n)
  {
    if n > 0 {
      DeltasAddUp(mode, commits, initial, deltas, k, n - 1);
      if k in Effects(commits[n - 1].ops) {
        assert CommitOk(mode, commits, initial, n - 1);
        IncrementApplies(mode, commits, initial, k, deltas[n - 1], n - 1);
      }
    }
  }

  /** No lost updates, in both modes: when every committed writer of `k` adds its delta to the value it
      read, the newest version of `k` is the initial value plus the sum of all committed deltas. */
  lemma NoLostUpdates(s: Sys, mode: Mode, initial: map<Key, int>, deltas: seq<int>, k: Key)
    requires Reachable(s, mode, initial) && |deltas| == |s.commits|
    requires forall i :: 0 <= i < |s.commits| && k in Effects(s.commits[i].ops) ==>
      Increments(s.commits[i].ops, k, deltas[i])
    ensures Latest(Versions(s.e.history, k)) == Get(initial, k) + SumOfDeltas(s.commits, deltas, k, |s.commits|)
  {
    ReachableInv(s, mode, initial);
    DeltasAddUp(mode, s.commits, initial, deltas, k, |s.commits|);
    assert HistoryOk(Versions(s.e.history, k), s.commits, initial, k);
    LatestIsVisible(Versions(s.e.history, k), |s.commits|);
  }

  // ------------------------------------------------------------------ deadlock

  predicate Asleep(txns: map<TxnId, TxnRec>, id: TxnId) {
    id in txns && txns[id].status.Waiting? && !txns[id].status.woken
  }

  /** No reachable state is deadlocked: the recorded waits-for graph is acyclic, and following it from
      any sleeping transaction reaches a live one that is not asleep. */
  lemma NoDeadlock(s: Sys, mode: Mode, initial: map<Key, int>)
    requires Reachable(s, mode, initial)
    ensures Acyclic(s.e.waits)
    ensures forall id :: Asleep(s.txns, id) ==>
        exists r :: Reaches(s.e.waits, id, r) && Live(s.txns, r) && !Asleep(s.txns, r)
  {
    ReachableInv(s, mode, initial);
    var asleep := set x | x in s.txns && Asleep(s.txns, x);
    var live := set x | x in s.txns && Live(s.txns, x);
    forall b | b in asleep
      ensures Succ(s.e.waits, b) != {} && forall x :: x in Succ(s.e.waits, b) ==> x in live
    {
      assert WaiterOk(s.e, s.txns, b, s.txns[b].status.key, ModeOf(s.txns[b].status.request), s.txns[b].status.woken);
    }
    forall id | Asleep(s.txns, id)
      ensures exists r :: Reaches(s.e.waits, id, r) && Live(s.txns, r) && !Asleep(s.txns, r)
    {
      ChainEnds(s.e.waits, asleep, live, id, {id});
      var r :| r in live && r !in asleep && Reaches(s.e.waits, id, r);
      assert Live(s.txns, r) && !Asleep(s.txns, r);
    }
  }

  /** `w` holds a lock that refuses the request `a` has pending; for the requester itself the request
      is the one being made now. */
  ghost predicate ReallyBlockedBy(s: Sys, id: TxnId, key: Key, m: LockMode, a: TxnId, w: TxnId) {
    && Live(s.txns, a) && Live(s.txns, w)
    && if a == id then HoldsConflicting(s.e, w, key, m) else
       s.txns[a].status.Waiting? &&
         HoldsConflicting(s.e, w, s.txns[a].status.key, ModeOf(s.txns[a].status.request))
  }

  ghost predicate RealCycle(s: Sys, id: TxnId, key: Key, m: LockMode, p: seq<TxnId>) {
    |p| >= 2 && p[0] == id && p[|p| - 1] == id
    && forall i :: 0 <= i < |p| - 1 ==> ReallyBlockedBy(s, id, key, m, p[i], p[i + 1])
  }

  /** No false victims: DeadlockAbort is raised only for a transaction on a cycle of live transactions,
      each blocked by a lock that the next one really holds. */
  lemma VictimIsOnRealCycle(s: Sys, mode: Mode, initial: map<Key, int>, id: TxnId, key: Key, m: LockMode)
    requires Reachable(s, mode, initial) && Live(s.txns, id)
    requires LockTurn(s.e, id, key, m).1.Deadlock?
    ensures exists p: seq<TxnId> :: RealCycle(s, id, key, m, p)
  {
    ReachableInv(s, mode, initial);
    var g := s.e.waits[id := Blockers(s.e, id, key, m)];
    var p: seq<int> :| |p| >= 2 && p[0] == id && p[|p| - 1] == id && IsPath(g, p);
    forall i | 0 <= i < |p| - 1
      ensures ReallyBlockedBy(s, id, key, m, p[i], p[i + 1])
    {
      CycleEdgeIsReal(s, id, key, m, p, i);
    }
    assert RealCycle(s, id, key, m, p);
  }

  lemma CycleNodeIsLive(s: Sys, id: TxnId, key: Key, m: LockMode, p: seq<int>, i: nat)
    requires Inv(s) && Live(s.txns, id) && |p| >= 2 && p[|p| - 1] == id && i < |p|
    requires IsPath(s.e.waits[id := Blockers(s.e, id, key, m)], p)
    ensures Live(s.txns, p[i])
  {
    if i < |p| - 1 && p[i] != id {
      assert p[i + 1] in Succ(s.e.waits[id := Blockers(s.e, id, key, m)], p[i]);
      assert p[i] in s.e.waits;
    }
  }

  lemma CycleEdgeIsReal(s: Sys, id: TxnId, key: Key, m: LockMode, p: seq<int>, i: nat)
    requires Inv(s) && Live(s.txns, id) && |p| >= 2 && p[|p| - 1] == id && i < |p| - 1
    requires IsPath(s.e.waits[id := Blockers(s.e, id, key, m)], p)
    ensures ReallyBlockedBy(s, id, key, m, p[i], p[i + 1])
  {
    var a, w := p[i], p[i + 1];
    CycleNodeIsLive(s, id, key, m, p, i);
    CycleNodeIsLive(s, id, key, m, p, i + 1);
    assert w in Succ(s.e.waits[id := Blockers(s.e, id, key, m)], a);
    if a == id {
      assert LockOk(s.e, s.txns, w, key);
    } else {
      assert WaiterOk(s.e, s.txns, a, s.txns[a].status.key, ModeOf(s.txns[a].status.request), s.txns[a].status.woken);
    }
  }
}
