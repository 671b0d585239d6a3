/** Runs of the concurrency engine: every call under the mutex is one action, and the history of
    each transaction and of the commits is recorded beside the engine. */
module TxnSystem {
  import opened SetFacts
  import opened WaitGraph
  import opened TxnEngine

  /** One completed operation of a transaction, with the value it read or wrote. */
  datatype Op = R(key: Key, value: int) | W(key: Key, value: int)

  datatype Request = ToRead | ToWrite(value: int)

  /** `Victim`: DeadlockAbort was thrown and the client has not called abort yet.
      `Conflicted`: TxnConflict was thrown; the engine has already dropped the transaction. */
  datatype Status = Running | Waiting(key: Key, request: Request, woken: bool) | Victim | Conflicted | Ended

  datatype TxnRec = TxnRec(status: Status, snapshot: nat, ops: seq<Op>)
  datatype CommitRec = CommitRec(id: TxnId, snapshot: nat, ops: seq<Op>)

  datatype Sys = Sys(e: Engine, txns: map<TxnId, TxnRec>, commits: seq<CommitRec>, initial: map<Key, int>)

  datatype Action =
    | Start
    | DoRead(id: TxnId, key: Key)
    | DoWrite(id: TxnId, key: Key, value: int)
    | Resume(id: TxnId)
    | DoCommit(id: TxnId)
    | DoAbort(id: TxnId)

  function Get(db: map<Key, int>, key: Key): int {
    if key in db then db[key] else 0
  }

  /** The key/value pairs a sequence of operations leaves behind on an empty map. */
  function Effects(ops: seq<Op>): map<Key, int> {
    if ops == [] then map[]
    else
      var last := ops[|ops| - 1];
      var before := Effects(ops[..|ops| - 1]);
      if last.W? then before[last.key := last.value] else before
  }

  /** Running `ops` alone on the plain map `db` returns exactly the recorded read values. */
  predicate Replays(ops: seq<Op>, db: map<Key, int>) {
    ops == [] ||
    var last := ops[|ops| - 1];
    var before := ops[..|ops| - 1];
    Replays(before, db) && (last.R? ==> last.value == Get(db + Effects(before), last.key))
  }

  /** The database after the first `n` commits, applied one after another. */
  function DbAt(commits: seq<CommitRec>, initial: map<Key, int>, n: nat): map<Key, int>
    requires n <= |commits|
  {
    if n == 0 then initial
    else DbAt(commits, initial, n - 1) + Effects(commits[n - 1].ops)
  }

  predicate Live(txns: map<TxnId, TxnRec>, id: TxnId) {
    id in txns && (txns[id].status.Running? || txns[id].status.Waiting? || txns[id].status.Victim?)
  }

  function ModeOf(request: Request): LockMode {
    if request.ToRead? then Shared else Exclusive
  }

  function Handle(s: Sys, id: TxnId): Txn
    requires id in s.txns
  {
    Txn(id, s.txns[id].snapshot)
  }

  function WithStatus(txns: map<TxnId, TxnRec>, id: TxnId, status: Status): map<TxnId, TxnRec>
    requires id in txns
  {
    txns[id := txns[id].(status := status)]
  }

  function WithOp(txns: map<TxnId, TxnRec>, id: TxnId, op: Op): map<TxnId, TxnRec>
    requires id in txns
  {
    txns[id := txns[id].(status := Running, ops := txns[id].ops + [op])]
  }

  /** notify_all: every sleeping transaction becomes ready to retry. */
  function WakeAll(txns: map<TxnId, TxnRec>): map<TxnId, TxnRec> {
    map id | id in txns ::
      if txns[id].status.Waiting? then txns[id].(status := txns[id].status.(woken := true)) else txns[id]
  }

  predicate Enabled(s: Sys, a: Action) {
    match a
    case Start => true
    case DoRead(id, _) => id in s.txns && s.txns[id].status.Running?
    case DoWrite(id, _, _) => id in s.txns && s.txns[id].status.Running?
    case Resume(id) => id in s.txns && s.txns[id].status.Waiting?
    case DoCommit(id) => id in s.txns && s.txns[id].status.Running?
    case DoAbort(id) =>
      id in s.txns && (s.txns[id].status.Running? || s.txns[id].status.Victim? || s.txns[id].status.Conflicted?)
  }

  function AfterRead(s: Sys, id: TxnId, key: Key, e: Engine, r: ReadOutcome): (s2: Sys)
    requires id in s.txns
    ensures s2.e == e && s2.initial == s.initial
  {
    match r
    case Value(v) => s.(e := e, txns := WithOp(s.txns, id, R(key, v)))
    case ReadBlocked => s.(e := e, txns := WithStatus(s.txns, id, Waiting(key, ToRead, false)))
    case ReadDeadlock => s.(e := e, txns := WithStatus(s.txns, id, Victim))
  }

  function AfterWrite(s: Sys, id: TxnId, key: Key, value: int, e: Engine, o: Outcome): (s2: Sys)
    requires id in s.txns
    ensures s2.e == e && s2.initial == s.initial
  {
    match o
    case Granted => s.(e := e, txns := WithOp(s.txns, id, W(key, value)))
    case Blocked => s.(e := e, txns := WithStatus(s.txns, id, Waiting(key, ToWrite(value), false)))
    case Deadlock => s.(e := e, txns := WithStatus(s.txns, id, Victim))
  }

  ghost function Apply(s: Sys, a: Action): (s2: Sys)
    requires Enabled(s, a)
    ensures s2.e.mode == s.e.mode && s2.initial == s.initial
  {
    match a
    case Start =>
      s.(e := s.e.(nextId := s.e.nextId + 1), txns := s.txns[s.e.nextId := TxnRec(Running, s.e.clock, [])])
    case DoRead(id, key) =>
      var r := Read(s.e, Handle(s, id), key);
      AfterRead(s, id, key, r.0, r.1)
    case DoWrite(id, key, value) =>
      var r := Write(s.e, Handle(s, id), key, value);
      AfterWrite(s, id, key, value, r.0, r.1)
    case Resume(id) =>
      var w := s.txns[id].status;
      if w.request.ToRead? then
        var r := ResumeRead(s.e, Handle(s, id), w.key);
        AfterRead(s, id, w.key, r.0, r.1)
      else
        var r := ResumeWrite(s.e, Handle(s, id), w.key, w.request.value);
        AfterWrite(s, id, w.key, w.request.value, r.0, r.1)
    case DoCommit(id) =>
      var r := Commit(s.e, Handle(s, id));
      if r.1.Committed? then
        s.(e := r.0, txns := WakeAll(WithStatus(s.txns, id, Ended)),
           commits := s.commits + [CommitRec(id, s.txns[id].snapshot, s.txns[id].ops)])
      else s.(e := r.0, txns := WakeAll(WithStatus(s.txns, id, Conflicted)))
    case DoAbort(id) =>
      s.(e := Abort(s.e, Handle(s, id)), txns := WakeAll(WithStatus(s.txns, id, Ended)))
  }

  /** A fresh engine after `setInitial` was called once for each key of `initial`. */
  function InitialSys(mode: Mode, initial: map<Key, int>): Sys {
    var history := map k | k in initial :: [Version(0, initial[k])];
    Sys(Engine(mode, 0, 1, 0, history, map[], map[], map[], map[], map[], map[]), map[], [], initial)
  }

  /** Creating an engine and giving every key of `initial` its value, one call after another, leads to
      the state from which all runs start. */
  method Seed(mode: Mode, initial: map<Key, int>) returns (tm: TransactionManager)
    ensures fresh(tm) && tm.View() == InitialSys(mode, initial).e
  {
    tm := new TransactionManager(mode);
    var rest := initial.Keys;
    while rest != {}
      invariant rest <= initial.Keys && fresh(tm)
      invariant tm.View() == Engine(mode, 0, 1, 0, tm.history, map[], map[], map[], map[], map[], map[])
      invariant tm.history.Keys == initial.Keys - rest
      invariant forall k :: k in tm.history ==> tm.history[k] == [Version(0, initial[k])]
    {
      var k := PickFrom(rest);
      tm.SetInitial(k, initial[k]);
      rest := rest - {k};
    }
    ghost var history := InitialSys(mode, initial).e.history;
    assert tm.history.Keys == initial.Keys == history.Keys;
    assert forall k :: k in history ==> tm.history[k] == history[k];
    assert tm.history == history;
  }

  ghost predicate Legal(s: Sys, actions: seq<Action>)
    decreases |actions|
  {
    actions == [] || (Enabled(s, actions[0]) && Legal(Apply(s, actions[0]), actions[1..]))
  }

  ghost function Run(s: Sys, actions: seq<Action>): Sys
    requires Legal(s, actions)
    decreases |actions|
  {
    if actions == [] then s else Run(Apply(s, actions[0]), actions[1..])
  }

  // ------------------------------------------------------------------ invariants

  /** The lock tables agree about transaction `x` and key `k`: each lock is in both its tables, its
      holder is live, and an exclusive lock excludes every shared one. */
  predicate LockOk(e: Engine, txns: map<TxnId, TxnRec>, x: TxnId, k: Key) {
    && (k in At(e.heldX, x) <==> k in e.xlock && e.xlock[k] == x)
    && (k in At(e.heldS, x) <==> x in At(e.slock, k))
    && (k in At(e.heldX, x) || k in At(e.heldS, x) ==> Live(txns, x))
    && (k in e.xlock ==> x !in At(e.slock, k))
  }

  ghost predicate LockInv(e: Engine, txns: map<TxnId, TxnRec>) {
    forall x, k :: LockOk(e, txns, x, k)
  }

  predicate HoldsConflicting(e: Engine, id: TxnId, key: Key, m: LockMode) {
    key in At(e.heldX, id) || (m.Exclusive? && key in At(e.heldS, id))
  }

  /** What is recorded about a waiter: its edges are non-empty, never to itself, lead to known
      transactions, and every one of those that is still live holds a lock in its way. While the
      waiter has not been woken, all of them are live. */
  ghost predicate WaiterOk(e: Engine, txns: map<TxnId, TxnRec>, id: TxnId, key: Key, m: LockMode, woken: bool) {
    && !AlreadyHeld(e, id, key, m)
    && id in e.waits && e.waits[id] != {} && id !in e.waits[id]
    && (forall w :: w in e.waits[id] ==>
        && w in txns
        && (Live(txns, w) ==> HoldsConflicting(e, w, key, m))
        && (!woken ==> Live(txns, w)))
  }

  ghost predicate WaitInv(e: Engine, txns: map<TxnId, TxnRec>) {
    && (forall id :: id in e.waits ==> id in txns && txns[id].status.Waiting?)
    && (forall id :: id in txns && txns[id].status.Waiting? ==>
        WaiterOk(e, txns, id, txns[id].status.key, ModeOf(txns[id].status.request), txns[id].status.woken))
    && Acyclic(e.waits)
  }

  ghost predicate Ascending(vs: seq<Version>, clock: int) {
    && (forall i, j :: 0 <= i < j < |vs| ==> vs[i].commitTs < vs[j].commitTs)
    && (forall i :: 0 <= i < |vs| ==> 0 <= vs[i].commitTs <= clock)
  }

  /** The versions of a key are in timestamp order, reading them at any past time gives the
      database of that time, and the newest one is the last commit that wrote the key. */
  ghost predicate HistoryOk(vs: seq<Version>, commits: seq<CommitRec>, initial: map<Key, int>, k: Key) {
    && Ascending(vs, |commits|)
    && (forall n: nat :: n <= |commits| ==> VisibleAt(vs, n) == Get(DbAt(commits, initial, n), k))
    && (forall i :: 0 <= i < |commits| && k in Effects(commits[i].ops) ==> vs != [] && vs[|vs| - 1].commitTs >= i + 1)
    && (vs != [] && vs[|vs| - 1].commitTs > 0 ==> k in Effects(commits[vs[|vs| - 1].commitTs - 1].ops))
  }

  /** The number of commits whose database a live transaction's reads come from: all of them under
      two-phase locking, those before its snapshot under MVCC. */
  function Base(s: Sys, id: TxnId): nat
    requires id in s.txns
  {
    if s.e.mode.TwoPL? then |s.commits| else s.txns[id].snapshot
  }

  /** Every operation of a live transaction is still covered by a lock. */
  ghost predicate OpsLocked(e: Engine, id: TxnId, ops: seq<Op>) {
    forall i :: 0 <= i < |ops| ==>
      && (ops[i].W? ==> ops[i].key in At(e.heldX, id))
      && (ops[i].R? && e.mode.TwoPL? ==> ops[i].key in At(e.heldX, id) + At(e.heldS, id))
  }

  ghost predicate TxnDataOk(s: Sys, id: TxnId)
    requires id in s.txns && s.txns[id].snapshot <= |s.commits|
  {
    if Live(s.txns, id) then
      && Buffer(s.e, id) == Effects(s.txns[id].ops)
      && OpsLocked(s.e, id, s.txns[id].ops)
      && Replays(s.txns[id].ops, DbAt(s.commits, s.initial, Base(s, id)))
      && (s.txns[id].status.Waiting? && s.txns[id].status.request.ToRead? ==> s.e.mode.TwoPL?)
    else id !in s.e.writes
  }

  ghost predicate DataInv(s: Sys) {
    && s.e.clock == |s.commits| && 0 < s.e.nextId
    && (forall id :: id in s.txns ==> 0 < id < s.e.nextId && s.txns[id].snapshot <= |s.commits|)
    && (forall id :: id in s.e.writes ==> id in s.txns)
    && (forall k :: HistoryOk(Versions(s.e.history, k), s.commits, s.initial, k))
    && (forall id :: id in s.txns ==> TxnDataOk(s, id))
  }

  /** No other transaction committed one of the keys of the i-th commit between its snapshot and it. */
  ghost predicate FirstCommitterWins(commits: seq<CommitRec>, i: nat)
    requires i < |commits|
  {
    forall j, k :: 0 <= j < i && k in Effects(commits[i].ops) && k in Effects(commits[j].ops)
      ==> j < commits[i].snapshot
  }

  /** What is promised about the i-th commit. */
  ghost predicate CommitOk(mode: Mode, commits: seq<CommitRec>, initial: map<Key, int>, i: nat)
    requires i < |commits|
  {
    && commits[i].snapshot <= i
    && Replays(commits[i].ops, DbAt(commits, initial, if mode.TwoPL? then i else commits[i].snapshot))
    && (mode.MVCC? ==> FirstCommitterWins(commits, i))
  }

  ghost predicate CommitInv(mode: Mode, commits: seq<CommitRec>, initial: map<Key, int>) {
    forall i :: 0 <= i < |commits| ==> CommitOk(mode, commits, initial, i)
  }

  ghost predicate Inv(s: Sys) {
    LockInv(s.e, s.txns) && WaitInv(s.e, s.txns) && DataInv(s) && CommitInv(s.e.mode, s.commits, s.initial)
  }

  /** The lock and wait tables, the part of the engine LockInv and WaitInv look at, agree. */
  ghost predicate SameLocks(a: Engine, b: Engine) {
    a.xlock == b.xlock && a.slock == b.slock && a.heldX == b.heldX && a.heldS == b.heldS && a.waits == b.waits
  }

  // ------------------------------------------------------------------ locks and waits

  /** `txns2` is `txns` with new operations or a new live status for `id`; nothing else changes. */
  ghost predicate SameButLive(txns: map<TxnId, TxnRec>, txns2: map<TxnId, TxnRec>, id: TxnId) {
    && txns.Keys == txns2.Keys && Live(txns, id) && Live(txns2, id)
    && forall x :: x in txns && x != id ==> txns2[x] == txns[x]
  }

  lemma GrantKeepsLocks(e: Engine, txns: map<TxnId, TxnRec>, txns2: map<TxnId, TxnRec>, id: TxnId, key: Key,
    m: LockMode)
    requires LockInv(e, txns) && SameButLive(txns, txns2, id)
    requires Blockers(e, id, key, m) == {} && !AlreadyHeld(e, id, key, m)
    ensures LockInv(Grant(e, id, key, m), txns2)
  {
    var e2 := Grant(e, id, key, m);
    forall x, k
      ensures LockOk(e2, txns2, x, k)
    {
      assert LockOk(e, txns, x, k) && LockOk(e, txns, id, k);
      if m.Exclusive? {
        assert At(e.slock, key) - {id} == {};
      }
    }
  }

  lemma GrantKeepsWaits(e: Engine, txns: map<TxnId, TxnRec>, txns2: map<TxnId, TxnRec>, id: TxnId, key: Key,
    m: LockMode)
    requires WaitInv(e, txns) && SameButLive(txns, txns2, id) && txns2[id].status.Running?
    ensures WaitInv(Grant(e, id, key, m), txns2)
  {
    var e2 := Grant(e, id, key, m);
    SubgraphAcyclic(e.waits, e2.waits);
    forall x | x in txns2 && txns2[x].status.Waiting?
      ensures WaiterOk(e2, txns2, x, txns2[x].status.key, ModeOf(txns2[x].status.request), txns2[x].status.woken)
    {
      assert WaiterOk(e, txns, x, txns[x].status.key, ModeOf(txns[x].status.request), txns[x].status.woken);
    }
  }

  lemma BlockKeepsWaits(e: Engine, txns: map<TxnId, TxnRec>, id: TxnId, key: Key, request: Request)
    requires LockInv(e, txns) && WaitInv(e, txns) && Live(txns, id)
    requires !AlreadyHeld(e, id, key, ModeOf(request))
    requires Blockers(e, id, key, ModeOf(request)) != {}
    requires !OnCycle(e.waits[id := Blockers(e, id, key, ModeOf(request))], id)
    ensures WaitInv(e.(waits := e.waits[id := Blockers(e, id, key, ModeOf(request))]),
                    WithStatus(txns, id, Waiting(key, request, false)))
  {
    var m := ModeOf(request);
    var blockers := Blockers(e, id, key, m);
    var e2 := e.(waits := e.waits[id := blockers]);
    var txns2 := WithStatus(txns, id, Waiting(key, request, false));
    ReplaceEdgesAcyclic(e.waits, id, blockers);
    forall x | x in txns2 && txns2[x].status.Waiting?
      ensures WaiterOk(e2, txns2, x, txns2[x].status.key, ModeOf(txns2[x].status.request), txns2[x].status.woken)
    {
      if x != id {
        assert WaiterOk(e, txns, x, txns[x].status.key, ModeOf(txns[x].status.request), txns[x].status.woken);
      } else {
        forall w | w in blockers
          ensures Live(txns2, w) && HoldsConflicting(e2, w, key, m)
        {
          assert LockOk(e, txns, w, key);
        }
      }
    }
  }

  /** A running or waiting transaction gives up waiting: it runs on, or becomes a deadlock victim. */
  lemma UnblockKeepsWaits(e: Engine, e2: Engine, txns: map<TxnId, TxnRec>, txns2: map<TxnId, TxnRec>, id: TxnId)
    requires WaitInv(e, txns) && SameButLive(txns, txns2, id) && !txns2[id].status.Waiting?
    requires SameLocks(e.(waits := e.waits - {id}), e2)
    ensures WaitInv(e2, txns2)
  {
    SubgraphAcyclic(e.waits, e2.waits);
    forall x | x in txns2 && txns2[x].status.Waiting?
      ensures WaiterOk(e2, txns2, x, txns2[x].status.key, ModeOf(txns2[x].status.request), txns2[x].status.woken)
    {
      assert WaiterOk(e, txns, x, txns[x].status.key, ModeOf(txns[x].status.request), txns[x].status.woken);
    }
  }

  /** Changing only wait edges and the status of a live transaction keeps the lock tables consistent. */
  lemma LocksIgnoreWaits(e: Engine, e2: Engine, txns: map<TxnId, TxnRec>, txns2: map<TxnId, TxnRec>, id: TxnId)
    requires LockInv(e, txns) && SameButLive(txns, txns2, id)
    requires SameLocks(e.(waits := e2.waits), e2)
    ensures LockInv(e2, txns2)
  {
    forall x, k
      ensures LockOk(e2, txns2, x, k)
    {
      assert LockOk(e, txns, x, k);
    }
  }

  lemma ReleaseKeepsLocks(e: Engine, txns: map<TxnId, TxnRec>, id: TxnId, status: Status)
    requires LockInv(e, txns) && id in txns && (status.Ended? || status.Conflicted?)
    ensures LockInv(Release(e, id), WakeAll(WithStatus(txns, id, status)))
  {
    var e2 := Release(e, id);
    var txns2 := WakeAll(WithStatus(txns, id, status));
    forall x, k
      ensures LockOk(e2, txns2, x, k)
    {
      assert LockOk(e, txns, x, k) && LockOk(e, txns, id, k);
    }
  }

  lemma ReleaseKeepsWaits(e: Engine, txns: map<TxnId, TxnRec>, id: TxnId, status: Status)
    requires WaitInv(e, txns) && id in txns && !txns[id].status.Waiting? && (status.Ended? || status.Conflicted?)
    ensures WaitInv(Release(e, id), WakeAll(WithStatus(txns, id, status)))
  {
    var e2 := Release(e, id);
    var txns2 := WakeAll(WithStatus(txns, id, status));
    SubgraphAcyclic(e.waits, e2.waits);
    forall x | x in txns2 && txns2[x].status.Waiting?
      ensures WaiterOk(e2, txns2, x, txns2[x].status.key, ModeOf(txns2[x].status.request), txns2[x].status.woken)
    {
      assert WaiterOk(e, txns, x, txns[x].status.key, ModeOf(txns[x].status.request), txns[x].status.woken);
    }
  }
}
