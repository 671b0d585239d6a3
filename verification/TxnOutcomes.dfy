/** What a caller gets from each call, said by the recorded operations of the transactions alone: who has
    to wait, who goes on, and what nobody else notices. */
module TxnOutcomes {
  import opened SetFacts
  import opened TxnEngine
  import opened TxnSystem
  import opened TxnData
  import opened TxnTheorems

  predicate HasWritten(ops: seq<Op>, key: Key) {
    exists i :: 0 <= i < |ops| && ops[i].W? && ops[i].key == key
  }

  predicate HasRead(ops: seq<Op>, key: Key) {
    exists i :: 0 <= i < |ops| && ops[i].R? && ops[i].key == key
  }

  /** Another transaction that has not ended wrote the key. */
  predicate WrittenByOther(txns: map<TxnId, TxnRec>, id: TxnId, key: Key) {
    exists x :: x in txns && x != id && Live(txns, x) && HasWritten(txns[x].ops, key)
  }

  predicate ReadByOther(txns: map<TxnId, TxnRec>, id: TxnId, key: Key) {
    exists x :: x in txns && x != id && Live(txns, x) && HasRead(txns[x].ops, key)
  }

  // ------------------------------------------------------------------ no lock without its operation

  /** Nobody holds more than its operations call for: an exclusive lock was taken for a write of the key, a
      shared one for a read of it, and under MVCC reads take none. */
  predicate Called(e: Engine, txns: map<TxnId, TxnRec>, x: TxnId, k: Key) {
    && (k in At(e.heldX, x) ==> x in txns && HasWritten(txns[x].ops, k))
    && (k in At(e.heldS, x) ==> x in txns && HasRead(txns[x].ops, k) && e.mode.TwoPL?)
  }

  ghost predicate Frugal(s: Sys) {
    forall x, k :: Called(s.e, s.txns, x, k)
  }

  /** `s2` has at most the locks of `s`, and at least its operations. */
  ghost predicate NoNewLocks(s: Sys, s2: Sys) {
    && s2.e.mode == s.e.mode
    && (forall x, k :: k in At(s2.e.heldX, x) ==> k in At(s.e.heldX, x))
    && (forall x, k :: k in At(s2.e.heldS, x) ==> k in At(s.e.heldS, x))
    && (forall x :: x in s.txns ==> x in s2.txns && s.txns[x].ops <= s2.txns[x].ops)
  }

  lemma NoNewLocksFrugal(s: Sys, s2: Sys)
    requires Frugal(s) && NoNewLocks(s, s2)
    ensures Frugal(s2)
  {
    forall x, k
      ensures Called(s2.e, s2.txns, x, k)
    {
      assert Called(s.e, s.txns, x, k);
      if x in s.txns { MoreOps(s.txns[x].ops, s2.txns[x].ops, k); }
    }
  }

  lemma MoreOps(a: seq<Op>, b: seq<Op>, k: Key)
    requires a <= b
    ensures HasWritten(a, k) ==> HasWritten(b, k)
    ensures HasRead(a, k) ==> HasRead(b, k)
  {
    assert forall i :: 0 <= i < |a| ==> a[i] == b[i];
  }

  lemma NewOp(ops: seq<Op>, op: Op, k: Key)
    ensures HasWritten(ops + [op], k) <==> HasWritten(ops, k) || (op.W? && op.key == k)
    ensures HasRead(ops + [op], k) <==> HasRead(ops, k) || (op.R? && op.key == k)
  {
    var all := ops + [op];
    MoreOps(ops, all, k);
    assert all[|ops|] == op;
    assert forall i :: 0 <= i < |ops| ==> all[i] == ops[i];
  }

  lemma GrantIsFrugal(s: Sys, id: TxnId, key: Key, op: Op, e2: Engine)
    requires Frugal(s) && id in s.txns && op.key == key && (op.R? ==> s.e.mode.TwoPL?)
    requires var g := Grant(s.e, id, key, if op.R? then Shared else Exclusive);
             e2.heldX == g.heldX && e2.heldS == g.heldS && e2.mode == g.mode
    ensures Frugal(s.(e := e2, txns := WithOp(s.txns, id, op)))
  {
    var txns2 := WithOp(s.txns, id, op);
    forall x, k
      ensures Called(e2, txns2, x, k)
    {
      assert Called(s.e, s.txns, x, k);
      NewOp(s.txns[id].ops, op, k);
    }
  }

  lemma ReadIsFrugal(s: Sys, id: TxnId, key: Key)
    requires Frugal(s) && Live(s.txns, id) && s.e.mode.TwoPL?
    ensures var r := LockTurn(s.e, id, key, Shared);
            Frugal(AfterRead(s, id, key, r.0, FinishRead(s.e.history, key, r.1)))
  {
    ReadTurnOutcomes(s, id, key);
    if Blockers(s.e, id, key, Shared) == {} {
      GrantIsFrugal(s, id, key, R(key, Latest(Versions(s.e.history, key))), Grant(s.e, id, key, Shared));
    } else {
      RefusalsAreFrugal(s, id, Waiting(key, ToRead, false), Blockers(s.e, id, key, Shared));
    }
  }

  lemma WriteIsFrugal(s: Sys, id: TxnId, key: Key, value: int)
    requires Frugal(s) && Live(s.txns, id)
    ensures var r := LockTurn(s.e, id, key, Exclusive);
            Frugal(AfterWrite(s, id, key, value, FinishWrite(r.0, id, key, value, r.1), r.1))
  {
    WriteTurnOutcomes(s, id, key, value);
    if Blockers(s.e, id, key, Exclusive) == {} {
      GrantIsFrugal(s, id, key, W(key, value), FinishWrite(Grant(s.e, id, key, Exclusive), id, key, value, Granted));
    } else {
      RefusalsAreFrugal(s, id, Waiting(key, ToWrite(value), false), Blockers(s.e, id, key, Exclusive));
    }
  }

  lemma RefusalsAreFrugal(s: Sys, id: TxnId, waiting: Status, blockers: set<TxnId>)
    requires Frugal(s) && id in s.txns
    ensures Frugal(s.(e := s.e.(waits := s.e.waits[id := blockers]), txns := WithStatus(s.txns, id, waiting)))
    ensures Frugal(s.(e := s.e.(waits := s.e.waits - {id}, deadlocks := s.e.deadlocks + 1),
      txns := WithStatus(s.txns, id, Victim)))
  {
    NoNewLocksFrugal(s,
      s.(e := s.e.(waits := s.e.waits[id := blockers]), txns := WithStatus(s.txns, id, waiting)));
    NoNewLocksFrugal(s,
      s.(e := s.e.(waits := s.e.waits - {id}, deadlocks := s.e.deadlocks + 1), txns := WithStatus(s.txns, id, Victim)));
  }

  lemma StartIsFrugal(s: Sys)
    requires Inv(s) && Frugal(s)
    ensures Frugal(Apply(s, Start))
  {
    assert s.e.nextId !in s.txns;
    NoNewLocksFrugal(s, Apply(s, Start));
  }

  lemma ReadStepIsFrugal(s: Sys, id: TxnId, key: Key)
    requires Inv(s) && Frugal(s) && Enabled(s, DoRead(id, key))
    ensures Frugal(Apply(s, DoRead(id, key)))
  {
    if key in Buffer(s.e, id) || s.e.mode.MVCC? || AlreadyHeld(s.e, id, key, Shared) {
      NoNewLocksFrugal(s, Apply(s, DoRead(id, key)));
    } else {
      ReadIsFrugal(s, id, key);
    }
  }

  lemma WriteStepIsFrugal(s: Sys, id: TxnId, key: Key, value: int)
    requires Inv(s) && Frugal(s) && Enabled(s, DoWrite(id, key, value))
    ensures Frugal(Apply(s, DoWrite(id, key, value)))
  {
    if AlreadyHeld(s.e, id, key, Exclusive) {
      NoNewLocksFrugal(s, Apply(s, DoWrite(id, key, value)));
    } else {
      WriteIsFrugal(s, id, key, value);
    }
  }

  lemma ResumeStepIsFrugal(s: Sys, id: TxnId)
    requires Inv(s) && Frugal(s) && Enabled(s, Resume(id))
    ensures Frugal(Apply(s, Resume(id)))
  {
    assert TxnDataOk(s, id);
    var w := s.txns[id].status;
    if w.request.ToRead? {
      ReadIsFrugal(s, id, w.key);
    } else {
      WriteIsFrugal(s, id, w.key, w.request.value);
    }
  }

  lemma EndIsFrugal(s: Sys, a: Action)
    requires Frugal(s) && Enabled(s, a) && (a.DoCommit? || a.DoAbort?)
    ensures Frugal(Apply(s, a))
  {
    if a.DoCommit? { CommitOutcomes(s, a.id); }
    NoNewLocksFrugal(s, Apply(s, a));
  }

  lemma StepIsFrugal(s: Sys, a: Action)
    requires Inv(s) && Frugal(s) && Enabled(s, a)
    ensures Frugal(Apply(s, a))
  {
    match a
    case Start => StartIsFrugal(s);
    case DoRead(id, key) => ReadStepIsFrugal(s, id, key);
    case DoWrite(id, key, value) => WriteStepIsFrugal(s, id, key, value);
    case Resume(id) => ResumeStepIsFrugal(s, id);
    case DoCommit(id) => EndIsFrugal(s, a);
    case DoAbort(id) => EndIsFrugal(s, a);
  }

  lemma {:induction false} RunIsFrugal(s: Sys, actions: seq<Action>)
    requires Inv(s) && Frugal(s) && Legal(s, actions)
    ensures Frugal(Run(s, actions))
    decreases |actions|
  {
    if actions != [] {
      StepKeepsInv(s, actions[0]);
      StepIsFrugal(s, actions[0]);
      RunIsFrugal(Apply(s, actions[0]), actions[1..]);
    }
  }

  lemma ReachableIsFrugal(s: Sys, mode: Mode, initial: map<Key, int>)
    requires Reachable(s, mode, initial)
    ensures Frugal(s)
  {
    InitialInv(mode, initial);
    var actions :| Legal(InitialSys(mode, initial), actions) && s == Run(InitialSys(mode, initial), actions);
    RunIsFrugal(InitialSys(mode, initial), actions);
  }

  // ------------------------------------------------------------------ who has to wait

  /** The transactions in the way of a read are those that wrote the key ... */
  lemma ReadBlockersIff(s: Sys, id: TxnId, key: Key)
    requires Inv(s) && Frugal(s)
    ensures Blockers(s.e, id, key, Shared) != {} <==> WrittenByOther(s.txns, id, key)
  {
    if Blockers(s.e, id, key, Shared) != {} {
      var x := s.e.xlock[key];
      assert LockOk(s.e, s.txns, x, key) && Called(s.e, s.txns, x, key);
    }
    if x :| x in s.txns && x != id && Live(s.txns, x) && HasWritten(s.txns[x].ops, key) {
      WritersHoldLock(s, x, key);
    }
  }

  lemma WritersHoldLock(s: Sys, x: TxnId, key: Key)
    requires Inv(s) && x in s.txns && Live(s.txns, x) && HasWritten(s.txns[x].ops, key)
    ensures key in At(s.e.heldX, x) && key in s.e.xlock && s.e.xlock[key] == x
  {
    assert TxnDataOk(s, x);
    assert LockOk(s.e, s.txns, x, key);
  }

  /** ... and in the way of a write those, too, that read it under two-phase locking. */
  lemma WriteBlockersIff(s: Sys, id: TxnId, key: Key)
    requires Inv(s) && Frugal(s)
    ensures Blockers(s.e, id, key, Exclusive) != {} <==>
      WrittenByOther(s.txns, id, key) || (s.e.mode.TwoPL? && ReadByOther(s.txns, id, key))
  {
    ReadBlockersIff(s, id, key);
    if At(s.e.slock, key) - {id} != {} {
      HasElement(At(s.e.slock, key) - {id});
      var x :| x in At(s.e.slock, key) - {id};
      assert LockOk(s.e, s.txns, x, key) && Called(s.e, s.txns, x, key);
    }
    if s.e.mode.TwoPL? && ReadByOther(s.txns, id, key) {
      var x :| x in s.txns && x != id && Live(s.txns, x) && HasRead(s.txns[x].ops, key);
      assert TxnDataOk(s, x);
      assert LockOk(s.e, s.txns, x, key);
      if key in At(s.e.heldX, x) {
        assert Called(s.e, s.txns, x, key);
      } else {
        assert x in At(s.e.slock, key) - {id};
      }
    }
  }

  /** Whoever holds a lock already has nobody in the way. */
  lemma HoldersPass(s: Sys, id: TxnId, key: Key, m: LockMode)
    requires Inv(s) && AlreadyHeld(s.e, id, key, m)
    ensures Blockers(s.e, id, key, m) == {}
  {
    assert LockOk(s.e, s.txns, id, key);
    if m.Exclusive? {
      forall x
        ensures x !in At(s.e.slock, key) - {id}
      {
        assert LockOk(s.e, s.txns, x, key);
      }
    }
  }

  // ------------------------------------------------------------------ what a call does

  /** Nothing is known of a call but this: transaction `id` now is `t`, and all else that is recorded of
      transactions and commits is as it was. */
  ghost predicate OnlyChanged(s: Sys, s2: Sys, id: TxnId, t: TxnRec) {
    && id in s.txns && s2.txns == s.txns[id := t] && s2.commits == s.commits && s2.initial == s.initial
  }

  /** The request was refused: the transaction sleeps on it, or it is told to abort. */
  ghost predicate Refused(s: Sys, s2: Sys, id: TxnId, key: Key, request: Request) {
    id in s.txns &&
    (OnlyChanged(s, s2, id, s.txns[id].(status := Waiting(key, request, false)))
     || OnlyChanged(s, s2, id, s.txns[id].(status := Victim)))
  }

  ghost predicate WasRead(s: Sys, s2: Sys, id: TxnId, key: Key) {
    id in s.txns &&
    exists v :: OnlyChanged(s, s2, id, TxnRec(Running, s.txns[id].snapshot, s.txns[id].ops + [R(key, v)]))
  }

  /** A read goes on at once, and is recorded, if and only if no other live transaction wrote the key; under
      MVCC it always does. */
  lemma ReadsWaitForWritersOnly(s: Sys, mode: Mode, initial: map<Key, int>, id: TxnId, key: Key)
    requires Reachable(s, mode, initial) && Enabled(s, DoRead(id, key))
    ensures var s2 := Apply(s, DoRead(id, key));
            if mode.MVCC? || !WrittenByOther(s.txns, id, key) then WasRead(s, s2, id, key)
            else Refused(s, s2, id, key, ToRead)
  {
    ReachableInv(s, mode, initial);
    ReachableIsFrugal(s, mode, initial);
    assert TxnDataOk(s, id);
    if mode.TwoPL? {
      ReadBlockersIff(s, id, key);
      if key in Effects(s.txns[id].ops) { BufferedKeysLocked(s.e, id, s.txns[id].ops, key); }
      if AlreadyHeld(s.e, id, key, Shared) { HoldersPass(s, id, key, Shared); }
    }
    ReadEnds(s, id, key);
  }

  lemma ReadTurnEnds(s: Sys, id: TxnId, key: Key)
    requires id in s.txns
    ensures var r := LockTurn(s.e, id, key, Shared);
            var s2 := AfterRead(s, id, key, r.0, FinishRead(s.e.history, key, r.1));
            if Blockers(s.e, id, key, Shared) == {} then WasRead(s, s2, id, key) else Refused(s, s2, id, key, ToRead)
  {
    ReadTurnOutcomes(s, id, key);
    if Blockers(s.e, id, key, Shared) == {} {
      RecordedRead(s, s.(e := Grant(s.e, id, key, Shared)), id, key, Latest(Versions(s.e.history, key)));
    }
  }

  lemma RecordedRead(s: Sys, s1: Sys, id: TxnId, key: Key, v: int)
    requires id in s.txns && s1 == s.(e := s1.e)
    ensures WasRead(s, s1.(txns := WithOp(s.txns, id, R(key, v))), id, key)
  {
    var s2 := s1.(txns := WithOp(s.txns, id, R(key, v)));
    assert OnlyChanged(s, s2, id, TxnRec(Running, s.txns[id].snapshot, s.txns[id].ops + [R(key, v)]));
  }

  lemma ReadEnds(s: Sys, id: TxnId, key: Key)
    requires Enabled(s, DoRead(id, key))
    ensures var s2 := Apply(s, DoRead(id, key));
            if key in Buffer(s.e, id) || s.e.mode.MVCC? || AlreadyHeld(s.e, id, key, Shared)
               || Blockers(s.e, id, key, Shared) == {} then WasRead(s, s2, id, key)
            else Refused(s, s2, id, key, ToRead)
  {
    if key in Buffer(s.e, id) || s.e.mode.MVCC? || AlreadyHeld(s.e, id, key, Shared) {
      var r := Read(s.e, Handle(s, id), key);
      RecordedRead(s, s.(e := r.0), id, key, r.1.value);
    } else {
      ReadTurnEnds(s, id, key);
    }
  }

  ghost predicate WasWritten(s: Sys, s2: Sys, id: TxnId, key: Key, value: int) {
    id in s.txns && OnlyChanged(s, s2, id, TxnRec(Running, s.txns[id].snapshot, s.txns[id].ops + [W(key, value)]))
  }

  /** A write goes on at once, and is recorded, if and only if no other live transaction wrote the key or,
      under two-phase locking, read it. */
  lemma WritesWaitForUsersOnly(s: Sys, mode: Mode, initial: map<Key, int>, id: TxnId, key: Key, value: int)
    requires Reachable(s, mode, initial) && Enabled(s, DoWrite(id, key, value))
    ensures var s2 := Apply(s, DoWrite(id, key, value));
            if WrittenByOther(s.txns, id, key) || (mode.TwoPL? && ReadByOther(s.txns, id, key)) then
              Refused(s, s2, id, key, ToWrite(value))
            else WasWritten(s, s2, id, key, value)
  {
    ReachableInv(s, mode, initial);
    ReachableIsFrugal(s, mode, initial);
    WriteBlockersIff(s, id, key);
    if AlreadyHeld(s.e, id, key, Exclusive) { HoldersPass(s, id, key, Exclusive); }
    WriteEnds(s, id, key, value);
  }

  lemma WriteTurnEnds(s: Sys, id: TxnId, key: Key, value: int)
    requires id in s.txns
    ensures var r := LockTurn(s.e, id, key, Exclusive);
            var s2 := AfterWrite(s, id, key, value, FinishWrite(r.0, id, key, value, r.1), r.1);
            if Blockers(s.e, id, key, Exclusive) == {} then WasWritten(s, s2, id, key, value)
            else Refused(s, s2, id, key, ToWrite(value))
  {
    WriteTurnOutcomes(s, id, key, value);
  }

  lemma WriteEnds(s: Sys, id: TxnId, key: Key, value: int)
    requires Enabled(s, DoWrite(id, key, value))
    ensures var s2 := Apply(s, DoWrite(id, key, value));
            if AlreadyHeld(s.e, id, key, Exclusive) || Blockers(s.e, id, key, Exclusive) == {} then
              WasWritten(s, s2, id, key, value)
            else Refused(s, s2, id, key, ToWrite(value))
  {
    if !AlreadyHeld(s.e, id, key, Exclusive) { WriteTurnEnds(s, id, key, value); }
  }

  /** A woken transaction gets what it waits for on the same terms. */
  lemma WokenOnTheSameTerms(s: Sys, mode: Mode, initial: map<Key, int>, id: TxnId)
    requires Reachable(s, mode, initial) && Enabled(s, Resume(id))
    ensures var s2 := Apply(s, Resume(id));
            var key, request := s.txns[id].status.key, s.txns[id].status.request;
            if WrittenByOther(s.txns, id, key) || (request.ToWrite? && mode.TwoPL? && ReadByOther(s.txns, id, key)) then
              Refused(s, s2, id, key, request)
            else if request.ToRead? then WasRead(s, s2, id, key)
            else WasWritten(s, s2, id, key, request.value)
  {
    ReachableInv(s, mode, initial);
    ReachableIsFrugal(s, mode, initial);
    ReadBlockersIff(s, id, s.txns[id].status.key);
    WriteBlockersIff(s, id, s.txns[id].status.key);
    ResumeEnds(s, id);
  }

  lemma ResumeEnds(s: Sys, id: TxnId)
    requires Enabled(s, Resume(id))
    ensures var s2 := Apply(s, Resume(id));
            var key, request := s.txns[id].status.key, s.txns[id].status.request;
            if Blockers(s.e, id, key, ModeOf(request)) != {} then Refused(s, s2, id, key, request)
            else if request.ToRead? then WasRead(s, s2, id, key)
            else WasWritten(s, s2, id, key, request.value)
  {
    var w := s.txns[id].status;
    if w.request.ToRead? {
      ReadTurnEnds(s, id, w.key);
    } else {
      WriteTurnEnds(s, id, w.key, w.request.value);
    }
  }

  /** A new transaction has an id of its own, no operations, and for its snapshot all commits so far. */
  lemma BeginsAfterAllCommits(s: Sys, mode: Mode, initial: map<Key, int>)
    requires Reachable(s, mode, initial)
    ensures var s2 := Apply(s, Start);
            exists id :: id !in s.txns && s2.txns == s.txns[id := TxnRec(Running, |s.commits|, [])]
                         && s2.commits == s.commits
  {
    ReachableInv(s, mode, initial);
    assert s.e.nextId !in s.txns;
  }

  /** The other transactions only notice that they may try again. */
  ghost predicate OthersWoken(s: Sys, s2: Sys, id: TxnId) {
    && s2.txns.Keys == s.txns.Keys
    && forall x :: x in s.txns && x != id ==>
        s2.txns[x] == if s.txns[x].status.Waiting? then s.txns[x].(status := s.txns[x].status.(woken := true))
                      else s.txns[x]
  }

  /** Under two-phase locking every commit is published, under MVCC every one but those that would
      overwrite a commit they did not see; a refused one publishes nothing. */
  lemma CommitsOrConflicts(s: Sys, mode: Mode, initial: map<Key, int>, id: TxnId)
    requires Reachable(s, mode, initial) && Enabled(s, DoCommit(id))
    ensures var s2 := Apply(s, DoCommit(id));
            var t := s.txns[id];
            && OthersWoken(s, s2, id)
            && if mode.MVCC? && CommittedSince(s.commits, t.snapshot, t.ops) then
                 s2.commits == s.commits && s2.txns[id] == t.(status := Conflicted)
               else
                 s2.commits == s.commits + [CommitRec(id, t.snapshot, t.ops)] && s2.txns[id] == t.(status := Ended)
  {
    ReachableInv(s, mode, initial);
    ConflictIff(s, id);
    CommitOutcomes(s, id);
    EndedWakes(s, id, if HasConflict(s.e, Handle(s, id)) then Conflicted else Ended);
  }

  lemma EndedWakes(s: Sys, id: TxnId, status: Status)
    requires id in s.txns && !status.Waiting?
    ensures var s2 := s.(txns := WakeAll(WithStatus(s.txns, id, status)));
            OthersWoken(s, s2, id) && s2.txns[id] == s.txns[id].(status := status)
  {
  }

  lemma AbortPublishesNothing(s: Sys, id: TxnId)
    requires Enabled(s, DoAbort(id))
    ensures var s2 := Apply(s, DoAbort(id));
            OthersWoken(s, s2, id) && s2.commits == s.commits && s2.txns[id] == s.txns[id].(status := Ended)
  {
  }

  // ------------------------------------------------------------------ who becomes a victim

  /** Transaction `w` is in the way of a request for the key. */
  predicate InTheWay(s: Sys, w: TxnId, key: Key, request: Request) {
    && w in s.txns && Live(s.txns, w)
    && (HasWritten(s.txns[w].ops, key) || (request.ToWrite? && s.e.mode.TwoPL? && HasRead(s.txns[w].ops, key)))
  }

  /** `w` is in the way of what `a` is waiting for; `id` waits for what it asks for now. */
  predicate Stops(s: Sys, id: TxnId, key: Key, request: Request, a: TxnId, w: TxnId) {
    if a == id then InTheWay(s, w, key, request)
    else a in s.txns && s.txns[a].status.Waiting? && InTheWay(s, w, s.txns[a].status.key, s.txns[a].status.request)
  }

  ghost predicate Deadlocked(s: Sys, id: TxnId, key: Key, request: Request, p: seq<TxnId>) {
    |p| >= 2 && p[0] == id && p[|p| - 1] == id
    && forall i :: 0 <= i < |p| - 1 ==> Stops(s, id, key, request, p[i], p[i + 1])
  }

  lemma ConflictingIsInTheWay(s: Sys, w: TxnId, key: Key, request: Request)
    requires Inv(s) && Frugal(s) && HoldsConflicting(s.e, w, key, ModeOf(request))
    ensures InTheWay(s, w, key, request)
  {
    assert LockOk(s.e, s.txns, w, key) && Called(s.e, s.txns, w, key);
  }

  lemma RefusedOnCycle(s: Sys, mode: Mode, initial: map<Key, int>, id: TxnId, key: Key, request: Request)
    requires Reachable(s, mode, initial) && Live(s.txns, id)
    requires LockTurn(s.e, id, key, ModeOf(request)).1.Deadlock?
    ensures exists p: seq<TxnId> :: Deadlocked(s, id, key, request, p)
  {
    ReachableInv(s, mode, initial);
    ReachableIsFrugal(s, mode, initial);
    VictimIsOnRealCycle(s, mode, initial, id, key, ModeOf(request));
    var p: seq<TxnId> :| RealCycle(s, id, key, ModeOf(request), p);
    forall i | 0 <= i < |p| - 1
      ensures Stops(s, id, key, request, p[i], p[i + 1])
    {
      assert ReallyBlockedBy(s, id, key, ModeOf(request), p[i], p[i + 1]);
      if p[i] == id {
        ConflictingIsInTheWay(s, p[i + 1], key, request);
      } else {
        ConflictingIsInTheWay(s, p[i + 1], s.txns[p[i]].status.key, s.txns[p[i]].status.request);
      }
    }
    assert Deadlocked(s, id, key, request, p);
  }

  /** The request that an action makes. */
  function RequestOf(s: Sys, a: Action): (Key, Request)
    requires Enabled(s, a) && (a.DoRead? || a.DoWrite? || a.Resume?)
  {
    match a
    case DoRead(_, key) => (key, ToRead)
    case DoWrite(_, key, value) => (key, ToWrite(value))
    case Resume(id) => (s.txns[id].status.key, s.txns[id].status.request)
  }

  /** Only a transaction on a cycle of transactions that really stop one another is told to abort; two
      transactions that only read never are. */
  lemma VictimsAreDeadlocked(s: Sys, mode: Mode, initial: map<Key, int>, a: Action)
    requires Reachable(s, mode, initial) && Enabled(s, a) && (a.DoRead? || a.DoWrite? || a.Resume?)
    requires Apply(s, a).txns[a.id].status.Victim?
    ensures var (key, request) := RequestOf(s, a);
            exists p: seq<TxnId> :: Deadlocked(s, a.id, key, request, p)
  {
    var (key, request) := RequestOf(s, a);
    VictimOfTurn(s, a);
    RefusedOnCycle(s, mode, initial, a.id, key, request);
  }

  lemma VictimOfTurn(s: Sys, a: Action)
    requires Enabled(s, a) && (a.DoRead? || a.DoWrite? || a.Resume?)
    requires Apply(s, a).txns[a.id].status.Victim?
    ensures LockTurn(s.e, a.id, RequestOf(s, a).0, ModeOf(RequestOf(s, a).1)).1.Deadlock?
  {
    match a
    case DoRead(id, key) => VictimOfRead(s, id, key);
    case DoWrite(id, key, value) => VictimOfWrite(s, id, key, value);
    case Resume(id) => VictimOfResume(s, id);
  }

  lemma VictimOfRead(s: Sys, id: TxnId, key: Key)
    requires Enabled(s, DoRead(id, key)) && Apply(s, DoRead(id, key)).txns[id].status.Victim?
    ensures LockTurn(s.e, id, key, Shared).1.Deadlock?
  {
  }

  lemma VictimOfWrite(s: Sys, id: TxnId, key: Key, value: int)
    requires Enabled(s, DoWrite(id, key, value)) && Apply(s, DoWrite(id, key, value)).txns[id].status.Victim?
    ensures LockTurn(s.e, id, key, Exclusive).1.Deadlock?
  {
  }

  lemma VictimOfResume(s: Sys, id: TxnId)
    requires Enabled(s, Resume(id)) && Apply(s, Resume(id)).txns[id].status.Victim?
    ensures LockTurn(s.e, id, s.txns[id].status.key, ModeOf(s.txns[id].status.request)).1.Deadlock?
  {
  }

  /** The counter of deadlocks goes up by one whenever a transaction is told to abort, and never else. */
  lemma DeadlocksAreCounted(s: Sys, mode: Mode, initial: map<Key, int>, a: Action)
    requires Reachable(s, mode, initial) && Enabled(s, a)
    ensures var s2 := Apply(s, a);
            var victim := (a.DoRead? || a.DoWrite? || a.Resume?) && a.id in s2.txns && s2.txns[a.id].status.Victim?;
            s2.e.deadlocks == s.e.deadlocks + if victim then 1 else 0
  {
    match a
    case Start => {}
    case DoRead(id, key) => CountedRead(s, id, key);
    case DoWrite(id, key, value) => CountedWrite(s, id, key, value);
    case Resume(id) => CountedResume(s, id);
    case DoCommit(id) => CommitOutcomes(s, id);
    case DoAbort(id) => {}
  }

  predicate Counted(s: Sys, s2: Sys, id: TxnId) {
    id in s2.txns && s2.e.deadlocks == s.e.deadlocks + if s2.txns[id].status.Victim? then 1 else 0
  }

  lemma CountedRead(s: Sys, id: TxnId, key: Key)
    requires Enabled(s, DoRead(id, key))
    ensures Counted(s, Apply(s, DoRead(id, key)), id)
  {
    if key !in Buffer(s.e, id) && s.e.mode.TwoPL? && !AlreadyHeld(s.e, id, key, Shared) {
      CountedReadTurn(s, id, key);
    }
  }

  lemma CountedWrite(s: Sys, id: TxnId, key: Key, value: int)
    requires Enabled(s, DoWrite(id, key, value))
    ensures Counted(s, Apply(s, DoWrite(id, key, value)), id)
  {
    if !AlreadyHeld(s.e, id, key, Exclusive) { CountedWriteTurn(s, id, key, value); }
  }

  lemma CountedWriteTurn(s: Sys, id: TxnId, key: Key, value: int)
    requires id in s.txns
    ensures var r := LockTurn(s.e, id, key, Exclusive);
            Counted(s, AfterWrite(s, id, key, value, FinishWrite(r.0, id, key, value, r.1), r.1), id)
  {
    WriteTurnOutcomes(s, id, key, value);
  }

  lemma CountedReadTurn(s: Sys, id: TxnId, key: Key)
    requires id in s.txns
    ensures var r := LockTurn(s.e, id, key, Shared);
            Counted(s, AfterRead(s, id, key, r.0, FinishRead(s.e.history, key, r.1)), id)
  {
    ReadTurnOutcomes(s, id, key);
  }

  lemma CountedResume(s: Sys, id: TxnId)
    requires Enabled(s, Resume(id))
    ensures Counted(s, Apply(s, Resume(id)), id)
  {
    var w := s.txns[id].status;
    if w.request.ToRead? {
      CountedReadTurn(s, id, w.key);
    } else {
      CountedWriteTurn(s, id, w.key, w.request.value);
    }
  }
}
