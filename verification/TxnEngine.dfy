/** The lock and version manager of the concurrency engine. `Engine` is a snapshot of its fields, the
    functions on `Engine` specify one critical section each, and class `TransactionManager` is the
    imperative code that meets them. A call that would sleep on the condition variable returns
    `Blocked`; waking up is a separate `Resume...` call that repeats the lock test. */
module TxnEngine {
  import opened SetFacts
  import opened WaitGraph

  type Key = int
  type TxnId = int

  datatype Mode = MVCC | TwoPL
  datatype LockMode = Shared | Exclusive
  datatype Version = Version(commitTs: int, value: int)
  datatype Txn = Txn(id: TxnId, snapshot: int)

  datatype Outcome = Granted | Blocked | Deadlock
  datatype ReadOutcome = Value(value: int) | ReadBlocked | ReadDeadlock
  datatype CommitOutcome = Committed | Conflict

  datatype Engine = Engine(
    mode: Mode,
    clock: nat,
    nextId: nat,
    deadlocks: nat,
    history: map<Key, seq<Version>>,
    writes: map<TxnId, map<Key, int>>,
    xlock: map<Key, TxnId>,
    slock: map<Key, set<TxnId>>,
    heldX: map<TxnId, set<Key>>,
    heldS: map<TxnId, set<Key>>,
    waits: Graph)

  /** A missing entry of a set-valued table stands for the empty set. */
  function At<A, B>(m: map<A, set<B>>, a: A): set<B> {
    if a in m then m[a] else {}
  }

  function Versions(h: map<Key, seq<Version>>, key: Key): seq<Version> {
    if key in h then h[key] else []
  }

  function Buffer(e: Engine, id: TxnId): map<Key, int> {
    if id in e.writes then e.writes[id] else map[]
  }

  /** The value of the newest version with a timestamp of at most `ts`, scanning oldest first and
      stopping at the first version that is too new; 0 when there is none. */
  function VisibleAt(vs: seq<Version>, ts: int): int {
    if vs == [] || vs[0].commitTs > ts then 0
    else if |vs| > 1 && vs[1].commitTs <= ts then VisibleAt(vs[1..], ts)
    else vs[0].value
  }

  function Latest(vs: seq<Version>): int {
    if vs == [] then 0 else vs[|vs| - 1].value
  }

  /** The other transactions whose locks stand in the way of the request. */
  function Blockers(e: Engine, id: TxnId, key: Key, m: LockMode): set<TxnId> {
    (if key in e.xlock && e.xlock[key] != id then {e.xlock[key]} else {})
    + (if m.Exclusive? then At(e.slock, key) - {id} else {})
  }

  predicate AlreadyHeld(e: Engine, id: TxnId, key: Key, m: LockMode) {
    key in At(e.heldX, id) || (m.Shared? && key in At(e.heldS, id))
  }

  function Grant(e: Engine, id: TxnId, key: Key, m: LockMode): (r: Engine)
    ensures r.mode == e.mode
  {
    if m.Exclusive? then
      e.(waits := e.waits - {id},
         slock := e.slock[key := At(e.slock, key) - {id}],
         heldS := e.heldS[id := At(e.heldS, id) - {key}],
         xlock := e.xlock[key := id],
         heldX := e.heldX[id := At(e.heldX, id) + {key}])
    else
      e.(waits := e.waits - {id},
         slock := e.slock[key := At(e.slock, key) + {id}],
         heldS := e.heldS[id := At(e.heldS, id) + {key}])
  }

  /** One turn of the wait loop: grant, or record the blockers and either sleep or give up because
      the new edges close a cycle. */
  ghost function LockTurn(e: Engine, id: TxnId, key: Key, m: LockMode): (r: (Engine, Outcome))
    ensures r.0.mode == e.mode
  {
    var blockers := Blockers(e, id, key, m);
    if blockers == {} then (Grant(e, id, key, m), Granted)
    else if OnCycle(e.waits[id := blockers], id) then
      (e.(waits := e.waits - {id}, deadlocks := e.deadlocks + 1), Deadlock)
    else (e.(waits := e.waits[id := blockers]), Blocked)
  }

  ghost function Acquire(e: Engine, id: TxnId, key: Key, m: LockMode): (r: (Engine, Outcome))
    ensures r.0.mode == e.mode
  {
    if AlreadyHeld(e, id, key, m) then (e, Granted) else LockTurn(e, id, key, m)
  }

  function FinishRead(h: map<Key, seq<Version>>, key: Key, o: Outcome): ReadOutcome {
    match o
    case Granted => Value(Latest(Versions(h, key)))
    case Blocked => ReadBlocked
    case Deadlock => ReadDeadlock
  }

  ghost function Read(e: Engine, t: Txn, key: Key): (r: (Engine, ReadOutcome))
    ensures r.0.mode == e.mode
  {
    if key in Buffer(e, t.id) then (e, Value(Buffer(e, t.id)[key]))
    else if e.mode.TwoPL? then
      var r := Acquire(e, t.id, key, Shared);
      (r.0, FinishRead(e.history, key, r.1))
    else (e, Value(VisibleAt(Versions(e.history, key), t.snapshot)))
  }

  ghost function ResumeRead(e: Engine, t: Txn, key: Key): (r: (Engine, ReadOutcome))
    ensures r.0.mode == e.mode
  {
    var r := LockTurn(e, t.id, key, Shared);
    (r.0, FinishRead(e.history, key, r.1))
  }

  function FinishWrite(e: Engine, id: TxnId, key: Key, value: int, o: Outcome): (r: Engine)
    ensures r.mode == e.mode
  {
    if o.Granted? then e.(writes := e.writes[id := Buffer(e, id)[key := value]]) else e
  }

  ghost function Write(e: Engine, t: Txn, key: Key, value: int): (r: (Engine, Outcome))
    ensures r.0.mode == e.mode
  {
    var r := Acquire(e, t.id, key, Exclusive);
    (FinishWrite(r.0, t.id, key, value, r.1), r.1)
  }

  ghost function ResumeWrite(e: Engine, t: Txn, key: Key, value: int): (r: (Engine, Outcome))
    ensures r.0.mode == e.mode
  {
    var r := LockTurn(e, t.id, key, Exclusive);
    (FinishWrite(r.0, t.id, key, value, r.1), r.1)
  }

  /** The exclusive-lock table after `id` gives up its locks on `keys`. */
  function DropX(xlock: map<Key, TxnId>, keys: set<Key>, id: TxnId): (r: map<Key, TxnId>)
    ensures keys == {} ==> r == xlock
  {
    map k | k in xlock && !(k in keys && xlock[k] == id) :: xlock[k]
  }

  /** The shared-lock table after `id` gives up its locks on `keys`. */
  function DropS(slock: map<Key, set<TxnId>>, keys: set<Key>, id: TxnId): (r: map<Key, set<TxnId>>)
    ensures keys == {} ==> r == slock
  {
    map k | k in slock.Keys + keys :: if k in keys then At(slock, k) - {id} else At(slock, k)
  }

  function Release(e: Engine, id: TxnId): (r: Engine)
    ensures r.mode == e.mode
  {
    e.(xlock := DropX(e.xlock, At(e.heldX, id), id),
       slock := DropS(e.slock, At(e.heldS, id), id),
       heldX := e.heldX - {id},
       heldS := e.heldS - {id},
       waits := e.waits - {id})
  }

  /** A key this transaction wrote has a version committed after the transaction's snapshot. */
  predicate Overwritten(e: Engine, t: Txn, key: Key) {
    var vs := Versions(e.history, key);
    vs != [] && vs[|vs| - 1].commitTs > t.snapshot
  }

  ghost predicate HasConflict(e: Engine, t: Txn) {
    e.mode.MVCC? && exists key :: key in Buffer(e, t.id) && Overwritten(e, t, key)
  }

  /** The version lists after the buffered values of `keys` are installed with timestamp `ts`. */
  function Install(h: map<Key, seq<Version>>, keys: set<Key>, buffer: map<Key, int>, ts: int): (r: map<Key,
    seq<Version>>)
    requires keys <= buffer.Keys
    ensures keys == {} ==> r == h
  {
    map k | k in h.Keys + keys :: if k in keys then Versions(h, k) + [Version(ts, buffer[k])] else Versions(h, k)
  }

  ghost function Commit(e: Engine, t: Txn): (r: (Engine, CommitOutcome))
    ensures r.0.mode == e.mode
  {
    if HasConflict(e, t) then (Abort(e, t), Conflict)
    else
      var ts := e.clock + 1;
      var buffer := Buffer(e, t.id);
      (Release(e.(clock := ts, history := Install(e.history, buffer.Keys, buffer, ts), writes := e.writes - {t.id}),
        t.id),
       Committed)
  }

  function Abort(e: Engine, t: Txn): (r: Engine)
    ensures r.mode == e.mode
  {
    Release(e.(writes := e.writes - {t.id}), t.id)
  }

  method PushAll(stack: seq<int>, s: set<int>) returns (r: seq<int>)
    ensures |r| >= |stack| && r[..|stack|] == stack
    ensures forall x :: x in r[|stack|..] <==> x in s
  {
    r := stack;
    var rest := s;
    while rest != {}
      invariant rest <= s
      invariant |r| >= |stack| && r[..|stack|] == stack
      invariant forall x :: x in r[|stack|..] <==> x in s - rest
    {
      var x := PickFrom(rest);
      rest := rest - {x};
      assert (r + [x])[|stack|..] == r[|stack|..] + [x];
      r := r + [x];
    }
  }

  ghost function Targets(g: Graph): set<int> {
    set k, x | k in g && x in g[k] :: x
  }

  class TransactionManager {
    const mode: Mode
    var commitClock: nat
    var nextId: nat
    var deadlocks: nat
    var history: map<Key, seq<Version>>
    var writes: map<TxnId, map<Key, int>>
    var xlock: map<Key, TxnId>
    var slock: map<Key, set<TxnId>>
    var heldX: map<TxnId, set<Key>>
    var heldS: map<TxnId, set<Key>>
    var waits: Graph

    ghost function View(): Engine
      reads this
    {
      Engine(mode, commitClock, nextId, deadlocks, history, writes, xlock, slock, heldX, heldS, waits)
    }

    constructor (m: Mode)
      ensures View() == Engine(m, 0, 1, 0, map[], map[], map[], map[], map[], map[], map[])
    {
      mode := m;
      commitClock, nextId, deadlocks := 0, 1, 0;
      history, writes, xlock, slock := map[], map[], map[], map[];
      heldX, heldS, waits := map[], map[], map[];
    }

    method SetInitial(key: Key, value: int)
      modifies this`history
      ensures history == old(history)[key := Versions(old(history), key) + [Version(0, value)]]
    {
      history := history[key := Versions(history, key) + [Version(0, value)]];
    }

    method Begin() returns (t: Txn)
      modifies this`nextId
      ensures t == Txn(old(nextId), commitClock)
      ensures View() == old(View()).(nextId := old(nextId) + 1)
    {
      t := Txn(nextId, commitClock);
      nextId := nextId + 1;
    }

    method VisibleValue(t: Txn, key: Key) returns (val: int)
      ensures val == VisibleAt(Versions(history, key), t.snapshot)
    {
      if key !in history { return 0; }
      var vs := history[key];
      val := 0;
      var i := 0;
      while i < |vs|
        invariant 0 <= i <= |vs|
        invariant i == 0 ==> val == 0
        invariant i > 0 ==> vs[i - 1].commitTs <= t.snapshot && val == vs[i - 1].value
        invariant VisibleAt(vs, t.snapshot) == if i == 0 then VisibleAt(vs, t.snapshot)
          else VisibleAt(vs[i - 1..], t.snapshot)
      {
        if vs[i].commitTs <= t.snapshot {
          val := vs[i].value;
          if i > 0 { assert vs[i - 1..][1..] == vs[i..]; }
        } else {
          break;
        }
        i := i + 1;
      }
    }

    method CanGrant(txid: TxnId, key: Key, m: LockMode) returns (ok: bool, blockers: set<TxnId>)
      ensures blockers == Blockers(View(), txid, key, m)
      ensures ok <==> blockers == {}
    {
      blockers := {};
      if key in xlock && xlock[key] != txid { blockers := blockers + {xlock[key]}; }
      if m.Exclusive? && key in slock {
        var rest := slock[key];
        while rest != {}
          invariant rest <= slock[key]
          invariant blockers == (if key in xlock && xlock[key] != txid then {xlock[key]}
            else {}) + (slock[key] - rest - {txid})
        {
          var h := PickFrom(rest);
          if h != txid { blockers := blockers + {h}; }
          rest := rest - {h};
        }
      }
      ok := blockers == {};
    }

    /** Worklist search of the waits-for graph; it terminates and finds a cycle exactly when there is one. */
    method HasCycle(start: TxnId) returns (found: bool)
      ensures found <==> OnCycle(waits, start)
    {
      var visited: set<TxnId> := {};
      if start !in waits {
        ClosedSetNoCycle(waits, start, {});
        return false;
      }
      var stack := PushAll([], waits[start]);
      assert stack[0..] == stack;
      forall x | x in stack
        ensures Reaches(waits, start, x)
      {
        ReachesStep(waits, start, x);
      }
      while stack != []
        invariant start !in visited
        invariant forall x :: x in stack ==> Reaches(waits, start, x) && x in Targets(waits)
        invariant forall x :: x in visited ==> Reaches(waits, start, x) && x in Targets(waits)
        invariant forall x :: x in Succ(waits, start) ==> x in visited || x in stack
        invariant forall v, x :: v in visited && x in Succ(waits, v) ==> x in visited || x in stack
        decreases Targets(waits) - visited, |stack|
      {
        var cur := stack[|stack| - 1];
        var below := stack[..|stack| - 1];
        assert stack == below + [cur];
        if cur == start { return true; }
        if cur in visited {
          stack := below;
          continue;
        }
        visited := visited + {cur};
        stack := below;
        if cur in waits {
          stack := PushAll(below, waits[cur]);
          assert stack == below + stack[|below|..];
          forall x | x in waits[cur]
            ensures Reaches(waits, start, x)
          {
            ReachesStep(waits, cur, x);
            ReachesTransitive(waits, start, cur, x);
          }
        }
      }
      assert forall x :: x !in stack;
      ClosedSetNoCycle(waits, start, visited);
      found := false;
    }

    /** One turn of the loop in `acquire`, from the lock test to the point where the thread is granted
        the lock, throws, or goes to sleep. */
    method TurnOfWaitLoop(id: TxnId, key: Key, m: LockMode) returns (o: Outcome)
      modifies this`waits, this`deadlocks, this`slock, this`heldS, this`xlock, this`heldX
      ensures (View(), o) == LockTurn(old(View()), id, key, m)
    {
      var ok, blockers := CanGrant(id, key, m);
      if !ok {
        waits := waits[id := blockers];
        var cycle := HasCycle(id);
        if cycle {
          waits := waits - {id};
          assert waits == old(waits) - {id};
          deadlocks := deadlocks + 1;
          return Deadlock;
        }
        return Blocked;
      }
      waits := waits - {id};
      if m.Exclusive? {
        slock := slock[key := At(slock, key) - {id}];
        heldS := heldS[id := At(heldS, id) - {key}];
        xlock := xlock[key := id];
        heldX := heldX[id := At(heldX, id) + {key}];
      } else {
        slock := slock[key := At(slock, key) + {id}];
        heldS := heldS[id := At(heldS, id) + {key}];
      }
      o := Granted;
    }

    method AcquireLock(id: TxnId, key: Key, m: LockMode) returns (o: Outcome)
      modifies this`waits, this`deadlocks, this`slock, this`heldS, this`xlock, this`heldX
      ensures (View(), o) == Acquire(old(View()), id, key, m)
    {
      if key in At(heldX, id) { return Granted; }
      if m.Shared? && key in At(heldS, id) { return Granted; }
      o := TurnOfWaitLoop(id, key, m);
    }

    method ReadKey(t: Txn, key: Key) returns (r: ReadOutcome)
      modifies this`waits, this`deadlocks, this`slock, this`heldS, this`xlock, this`heldX
      ensures (View(), r) == Read(old(View()), t, key)
    {
      if t.id in writes && key in writes[t.id] { return Value(writes[t.id][key]); }
      if mode.TwoPL? {
        var o := AcquireLock(t.id, key, Shared);
        return FinishRead(history, key, o);
      }
      var v := VisibleValue(t, key);
      r := Value(v);
    }

    /** A reader woken from the condition variable. */
    method ResumeReadKey(t: Txn, key: Key) returns (r: ReadOutcome)
      modifies this`waits, this`deadlocks, this`slock, this`heldS, this`xlock, this`heldX
      ensures (View(), r) == ResumeRead(old(View()), t, key)
    {
      var o := TurnOfWaitLoop(t.id, key, Shared);
      r := FinishRead(history, key, o);
    }

    method WriteKey(t: Txn, key: Key, value: int) returns (o: Outcome)
      modifies this`waits, this`deadlocks, this`slock, this`heldS, this`xlock, this`heldX, this`writes
      ensures (View(), o) == Write(old(View()), t, key, value)
    {
      o := AcquireLock(t.id, key, Exclusive);
      if o.Granted? {
        writes := writes[t.id := (if t.id in writes then writes[t.id] else map[])[key := value]];
      }
    }

    /** A writer woken from the condition variable. */
    method ResumeWriteKey(t: Txn, key: Key, value: int) returns (o: Outcome)
      modifies this`waits, this`deadlocks, this`slock, this`heldS, this`xlock, this`heldX, this`writes
      ensures (View(), o) == ResumeWrite(old(View()), t, key, value)
    {
      o := TurnOfWaitLoop(t.id, key, Exclusive);
      if o.Granted? {
        writes := writes[t.id := (if t.id in writes then writes[t.id] else map[])[key := value]];
      }
    }

    method ReleaseExclusive(id: TxnId)
      modifies this`xlock
      ensures xlock == DropX(old(xlock), At(heldX, id), id)
    {
      var keys := At(heldX, id);
      var rest := keys;
      assert keys - rest == {};
      while rest != {}
        invariant rest <= keys
        invariant xlock == DropX(old(xlock), keys - rest, id)
      {
        var k := PickFrom(rest);
        if k in xlock && xlock[k] == id { xlock := xlock - {k}; }
        rest := rest - {k};
      }
      assert keys - rest == keys;
    }

    method ReleaseShared(id: TxnId)
      modifies this`slock
      ensures slock == DropS(old(slock), At(heldS, id), id)
    {
      var keys := At(heldS, id);
      var rest := keys;
      assert keys - rest == {};
      while rest != {}
        invariant rest <= keys
        invariant slock == DropS(old(slock), keys - rest, id)
      {
        var k := PickFrom(rest);
        slock := slock[k := At(slock, k) - {id}];
        rest := rest - {k};
      }
      assert keys - rest == keys;
    }

    method ReleaseAll(id: TxnId)
      modifies this`xlock, this`slock, this`heldX, this`heldS, this`waits
      ensures View() == Release(old(View()), id)
    {
      ReleaseExclusive(id);
      ReleaseShared(id);
      heldX := heldX - {id};
      heldS := heldS - {id};
      waits := waits - {id};
    }

    /** First-committer-wins validation over the write buffer. */
    method FindConflict(t: Txn, buffer: map<Key, int>) returns (conflict: bool)
      ensures conflict <==> exists k :: k in buffer && Overwritten(View(), t, k)
    {
      var rest := buffer.Keys;
      while rest != {}
        invariant rest <= buffer.Keys
        invariant forall k :: k in buffer && k !in rest ==> !Overwritten(View(), t, k)
      {
        var k := PickFrom(rest);
        if k in history && history[k] != [] && history[k][|history[k]| - 1].commitTs > t.snapshot {
          assert Overwritten(View(), t, k);
          return true;
        }
        rest := rest - {k};
      }
      conflict := false;
    }

    method InstallVersions(buffer: map<Key, int>, ts: int)
      modifies this`history
      ensures history == Install(old(history), buffer.Keys, buffer, ts)
    {
      var rest := buffer.Keys;
      assert buffer.Keys - rest == {};
      while rest != {}
        invariant rest <= buffer.Keys
        invariant history == Install(old(history), buffer.Keys - rest, buffer, ts)
      {
        var k := PickFrom(rest);
        history := history[k := Versions(history, k) + [Version(ts, buffer[k])]];
        rest := rest - {k};
      }
      assert buffer.Keys - rest == buffer.Keys;
    }

    method CommitTxn(t: Txn) returns (o: CommitOutcome)
      modifies this`commitClock, this`history, this`writes, this`xlock, this`slock, this`heldX, this`heldS, this`waits
      ensures (View(), o) == Commit(old(View()), t)
    {
      var buffer := if t.id in writes then writes[t.id] else map[];
      if mode.MVCC? {
        var conflict := FindConflict(t, buffer);
        if conflict {
          writes := writes - {t.id};
          ReleaseAll(t.id);
          return Conflict;
        }
      }
      commitClock := commitClock + 1;
      InstallVersions(buffer, commitClock);
      writes := writes - {t.id};
      ReleaseAll(t.id);
      o := Committed;
    }

    method AbortTxn(t: Txn)
      modifies this`writes, this`xlock, this`slock, this`heldX, this`heldS, this`waits
      ensures View() == Abort(old(View()), t)
    {
      writes := writes - {t.id};
      ReleaseAll(t.id);
    }
  }
}
