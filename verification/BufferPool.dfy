/** The clock-sweep page cache. What its clients see is the content of every page of the data file;
    which frame holds a page, and when it is written back, never shows. */
module BufferPool {
  import opened SlottedPage

  predicate IsPage(b: Bytes) {
    |b| == PAGE_SIZE
  }

  /** A page frame; the bytes are shared with whoever holds a pin. */
  class Frame {
    const data: array<Byte>
    var page: int
    var pin: nat
    var dirty: bool
    var refs: nat
    var valid: bool

    constructor ()
      ensures data.Length == PAGE_SIZE && fresh(data)
      ensures !valid && pin == 0 && !dirty && refs == 0
    {
      data := new Byte[PAGE_SIZE](_ => 0);
      page, pin, dirty, refs, valid := -1, 0, false, 0, false;
    }

    ghost function Read(): FrameState
      reads this, data
    {
      FrameState(page, pin, dirty, refs, valid, data[..])
    }
  }

  datatype FrameState = FrameState(page: int, pin: nat, dirty: bool, refs: nat, valid: bool, data: Bytes)

  /** The state of the pool: frames, page table and data file. */
  datatype Pool = Pool(frames: seq<FrameState>, table: map<int, nat>, disk: seq<Bytes>)

  // ------------------------------------------------------------------ what the pool stands for

  /** A cached page is in the frame the table names; a frame outside the table was lost to a failed
      read and stays pinned. Unless the client is writing to it, a frame holds the content of its page,
      and unless it is dirty, so does the data file. */
  ghost predicate FrameOk(p: Pool, view: seq<Bytes>, open: int, i: int)
    requires 0 <= i < |p.frames| && |view| == |p.disk|
  {
    var f := p.frames[i];
    && f.refs <= 1 && IsPage(f.data)
    && (f.valid ==>
          if f.page in p.table && p.table[f.page] == i then
            && 0 <= f.page < |view|
            && (f.page != open ==> f.data == view[f.page])
            && (!f.dirty ==> p.disk[f.page] == view[f.page])
          else f.pin > 0 && !f.dirty)
  }

  ghost predicate TableOk(p: Pool, id: int)
    requires id in p.table
  {
    p.table[id] < |p.frames| && p.frames[p.table[id]].valid && p.frames[p.table[id]].page == id
  }

  /** The pool holds the pages `view`, with one page possibly being written by its client. */
  ghost predicate Holds(p: Pool, view: seq<Bytes>, open: int) {
    && |view| == |p.disk|
    && (forall id :: 0 <= id < |view| ==> IsPage(view[id]) && IsPage(p.disk[id]))
    && (forall i :: 0 <= i < |p.frames| ==> FrameOk(p, view, open, i))
    && (forall id :: id in p.table ==> TableOk(p, id))
    && (forall id :: 0 <= id < |view| && id !in p.table ==> p.disk[id] == view[id])
  }

  /** A frame that the sweep may take. */
  predicate Evictable(f: FrameState) {
    !f.valid || f.pin == 0
  }

  predicate AllPinned(p: Pool) {
    forall i :: 0 <= i < |p.frames| ==> !Evictable(p.frames[i])
  }

  /** The pins held on a page. */
  function Pins(p: Pool, id: int): nat {
    if id in p.table && p.table[id] < |p.frames| then p.frames[p.table[id]].pin else 0
  }

  // ------------------------------------------------------------------ single steps

  function WithoutRefs(f: FrameState): FrameState {
    f.(refs := 0)
  }

  /** Only reference counters differ. */
  ghost predicate SameButRefs(p: Pool, q: Pool) {
    && |p.frames| == |q.frames| && p.table == q.table && p.disk == q.disk
    && forall i :: 0 <= i < |p.frames| ==> WithoutRefs(p.frames[i]) == WithoutRefs(q.frames[i]) && q.frames[i].refs <= 1
  }

  lemma RefsDoNotMatter(p: Pool, q: Pool, view: seq<Bytes>, open: int)
    requires Holds(p, view, open) && SameButRefs(p, q)
    ensures Holds(q, view, open) && (AllPinned(p) <==> AllPinned(q)) && forall id :: Pins(q, id) == Pins(p, id)
  {
    forall i | 0 <= i < |q.frames|
      ensures FrameOk(q, view, open, i)
    {
      assert FrameOk(p, view, open, i);
      assert WithoutRefs(p.frames[i]) == WithoutRefs(q.frames[i]);
    }
    forall id | id in q.table
      ensures TableOk(q, id)
    {
      assert TableOk(p, id);
      assert WithoutRefs(p.frames[p.table[id]]) == WithoutRefs(q.frames[p.table[id]]);
    }
    forall id
      ensures Pins(q, id) == Pins(p, id)
    {
      if id in p.table {
        assert TableOk(p, id);
        assert WithoutRefs(p.frames[p.table[id]]) == WithoutRefs(q.frames[p.table[id]]);
      }
    }
    assert forall i :: 0 <= i < |p.frames| ==> Evictable(p.frames[i]) == Evictable(WithoutRefs(p.frames[i]));
    assert forall i :: 0 <= i < |p.frames| ==> Evictable(q.frames[i]) == Evictable(WithoutRefs(q.frames[i]));
  }

  /** A frame is written back. */
  function Flushed(p: Pool, i: nat): Pool
    requires i < |p.frames|
  {
    var f := p.frames[i];
    if f.valid && f.dirty && 0 <= f.page < |p.disk| then
      p.(frames := p.frames[i := f.(dirty := false)], disk := p.disk[f.page := f.data])
    else p
  }

  lemma FlushKeeps(p: Pool, view: seq<Bytes>, open: int, i: nat)
    requires Holds(p, view, open) && i < |p.frames|
    requires p.frames[i].valid && p.frames[i].dirty ==> p.frames[i].page != open
    ensures Holds(Flushed(p, i), view, open) && (p.frames[i].valid ==> !Flushed(p, i).frames[i].dirty)
    ensures forall id :: Pins(Flushed(p, i), id) == Pins(p, id)
  {
    var q := Flushed(p, i);
    assert FrameOk(p, view, open, i);
    forall j | 0 <= j < |q.frames|
      ensures FrameOk(q, view, open, j)
    {
      assert FrameOk(p, view, open, j);
    }
    forall id | id in q.table
      ensures TableOk(q, id)
    {
      assert TableOk(p, id);
    }
  }

  /** A clean, unpinned frame gives up its page. */
  function Dropped(p: Pool, i: nat): Pool
    requires i < |p.frames|
  {
    var f := p.frames[i];
    p.(frames := p.frames[i := f.(valid := false)], table := p.table - {f.page})
  }

  lemma DropKeeps(p: Pool, view: seq<Bytes>, i: nat)
    requires Holds(p, view, -1) && i < |p.frames|
    requires p.frames[i].valid && p.frames[i].pin == 0 && !p.frames[i].dirty
    ensures Holds(Dropped(p, i), view, -1)
    ensures forall id :: Pins(Dropped(p, i), id) == Pins(p, id)
  {
    var q := Dropped(p, i);
    var page := p.frames[i].page;
    assert FrameOk(p, view, -1, i);
    forall j | 0 <= j < |q.frames|
      ensures FrameOk(q, view, -1, j)
    {
      assert FrameOk(p, view, -1, j);
      if j != i && p.frames[j].valid && p.frames[j].page in p.table && p.table[p.frames[j].page] == j {
        assert p.frames[j].page != page;
      }
    }
    forall id | id in q.table
      ensures TableOk(q, id)
    {
      assert TableOk(p, id);
    }
    forall id
      ensures Pins(q, id) == Pins(p, id)
    {
      if id in p.table { assert TableOk(p, id); }
    }
  }

  /** A free frame takes a page. */
  function Loaded(p: Pool, i: nat, id: int, data: Bytes): Pool
    requires i < |p.frames|
  {
    p.(frames := p.frames[i := FrameState(id, 1, false, 1, true, data)], table := p.table[id := i])
  }

  lemma LoadKeeps(p: Pool, view: seq<Bytes>, i: nat, id: int, data: Bytes)
    requires Holds(p, view, -1) && i < |p.frames| && !p.frames[i].valid && id !in p.table
    requires 0 <= id < |view| && data == p.disk[id]
    ensures Holds(Loaded(p, i, id, data), view, -1)
    ensures forall x :: Pins(Loaded(p, i, id, data), x) == Pins(p, x) + if x == id then 1 else 0
  {
    var q := Loaded(p, i, id, data);
    forall j | 0 <= j < |q.frames|
      ensures FrameOk(q, view, -1, j)
    {
      assert FrameOk(p, view, -1, j);
    }
    forall x | x in q.table
      ensures TableOk(q, x)
    {
      if x != id { assert TableOk(p, x); }
    }
    forall x
      ensures Pins(q, x) == Pins(p, x) + if x == id then 1 else 0
    {
      if x in p.table { assert TableOk(p, x); }
    }
  }

  /** A read of a page that does not exist fails after the frame was taken; the frame is lost. */
  function Lost(p: Pool, i: nat, id: int, data: Bytes): Pool
    requires i < |p.frames|
  {
    p.(frames := p.frames[i := FrameState(id, 1, false, 1, true, data)])
  }

  lemma LossKeeps(p: Pool, view: seq<Bytes>, i: nat, id: int, data: Bytes)
    requires Holds(p, view, -1) && i < |p.frames| && !p.frames[i].valid && IsPage(data) && id !in p.table
    ensures Holds(Lost(p, i, id, data), view, -1)
    ensures forall x :: Pins(Lost(p, i, id, data), x) == Pins(p, x)
  {
    var q := Lost(p, i, id, data);
    forall j | 0 <= j < |q.frames|
      ensures FrameOk(q, view, -1, j)
    {
      assert FrameOk(p, view, -1, j);
    }
    forall x | x in q.table
      ensures TableOk(q, x)
    {
      assert TableOk(p, x);
    }
    forall x
      ensures Pins(q, x) == Pins(p, x)
    {
      if x in p.table { assert TableOk(p, x); }
    }
  }

  /** One frame gets other pins, counters or dirt; its page and bytes stay. */
  lemma AdjustKeeps(p: Pool, view: seq<Bytes>, open: int, id: int, f: FrameState)
    requires Holds(p, view, open) && id in p.table && p.table[id] < |p.frames|
    requires f == p.frames[p.table[id]].(pin := f.pin, refs := f.refs, dirty := f.dirty) && f.refs <= 1
    requires p.frames[p.table[id]].dirty ==> f.dirty
    ensures var q := p.(frames := p.frames[p.table[id] := f]);
            Holds(q, view, open) && Pins(q, id) == f.pin && forall x :: x != id ==> Pins(q, x) == Pins(p, x)
  {
    var q := p.(frames := p.frames[p.table[id] := f]);
    assert TableOk(p, id);
    forall j | 0 <= j < |q.frames|
      ensures FrameOk(q, view, open, j)
    {
      assert FrameOk(p, view, open, j);
    }
    forall x | x in q.table
      ensures TableOk(q, x)
    {
      assert TableOk(p, x);
    }
    forall x | x != id
      ensures Pins(q, x) == Pins(p, x)
    {
      if x in p.table { assert TableOk(p, x); }
    }
  }

  /** Pinning a page that was pinned before takes no frame away from the sweep. */
  ghost predicate Touched(p: Pool, q: Pool, id: int) {
    Pins(p, id) > 0 ==> (AllPinned(q) <==> AllPinned(p))
  }

  /** Giving up the last pin of a page leaves its frame to the sweep. */
  ghost predicate Unpinned(p: Pool, q: Pool, id: int) {
    if Pins(q, id) > 0 then AllPinned(q) <==> AllPinned(p) else !AllPinned(q)
  }

  lemma AdjustPinned(p: Pool, view: seq<Bytes>, open: int, id: int, f: FrameState)
    requires Holds(p, view, open) && id in p.table && p.table[id] < |p.frames|
    requires f == p.frames[p.table[id]].(pin := f.pin, refs := f.refs, dirty := f.dirty)
    ensures var q := p.(frames := p.frames[p.table[id] := f]);
            && (f.pin > 0 && Pins(p, id) > 0 ==> (AllPinned(q) <==> AllPinned(p)))
            && (f.pin == 0 ==> !AllPinned(q))
  {
    assert TableOk(p, id);
    var i := p.table[id];
    var q := p.(frames := p.frames[i := f]);
    assert Evictable(q.frames[i]) <==> f.pin == 0;
    if AllPinned(q) && f.pin > 0 && Pins(p, id) > 0 {
      forall j | 0 <= j < |p.frames|
        ensures !Evictable(p.frames[j])
      {
        assert !Evictable(q.frames[j]);
      }
    }
  }

  /** A page pinned and released again: as many frames are left to the sweep as before, or one more. */
  lemma PinAndRelease(p: Pool, q: Pool, r: Pool, id: int)
    requires Touched(p, q, id) && Unpinned(q, r, id) && Pins(r, id) == Pins(p, id)
    ensures !AllPinned(p) ==> !AllPinned(r)
  {
  }

  /** The client is done writing: what it wrote is the content of the page, if the frame is dirty. */
  lemma CloseKeeps(p: Pool, view: seq<Bytes>, id: int)
    requires Holds(p, view, id) && id in p.table && p.table[id] < |p.frames| && 0 <= id < |view|
    requires p.frames[p.table[id]].dirty || p.frames[p.table[id]].data == view[id]
    ensures Holds(p, view[id := p.frames[p.table[id]].data], -1)
  {
    assert TableOk(p, id) && FrameOk(p, view, id, p.table[id]);
    var view2 := view[id := p.frames[p.table[id]].data];
    forall j | 0 <= j < |p.frames|
      ensures FrameOk(p, view2, -1, j)
    {
      assert FrameOk(p, view, id, j);
    }
  }

  /** The data file grows by a page of zeros. */
  function Grown(p: Pool): Pool {
    p.(disk := p.disk + [Zeros()])
  }

  function Zeros(): (b: Bytes)
    ensures IsPage(b) && forall i :: 0 <= i < |b| ==> b[i] == 0
  {
    seq(PAGE_SIZE, _ => 0)
  }

  lemma GrowKeeps(p: Pool, view: seq<Bytes>)
    requires Holds(p, view, -1)
    ensures Holds(Grown(p), view + [Zeros()], -1) && |view| !in p.table
  {
    var q, view2 := Grown(p), view + [Zeros()];
    forall id | id in p.table
      ensures id < |view|
    {
      assert TableOk(p, id) && FrameOk(p, view, -1, p.table[id]);
    }
    forall j | 0 <= j < |q.frames|
      ensures FrameOk(q, view2, -1, j)
    {
      assert FrameOk(p, view, -1, j);
    }
    forall id | id in q.table
      ensures TableOk(q, id)
    {
      assert TableOk(p, id);
    }
  }

  /** A client writes into the buffer of a cached page. */
  lemma WritingKeeps(p: Pool, view: seq<Bytes>, id: int, data: Bytes)
    requires Holds(p, view, -1) && id in p.table && p.table[id] < |p.frames| && IsPage(data)
    ensures var i := p.table[id];
            Holds(p.(frames := p.frames[i := p.frames[i].(data := data)]), view, id)
    ensures 0 <= id < |view|
  {
    var i := p.table[id];
    var q := p.(frames := p.frames[i := p.frames[i].(data := data)]);
    assert TableOk(p, id) && FrameOk(p, view, -1, i);
    forall j | 0 <= j < |q.frames|
      ensures FrameOk(q, view, id, j)
    {
      assert FrameOk(p, view, -1, j);
    }
    forall x | x in q.table
      ensures TableOk(q, x)
    {
      assert TableOk(p, x);
    }
  }

  /** What the table says about a cached page. */
  lemma CachedPage(p: Pool, view: seq<Bytes>, id: int)
    requires Holds(p, view, -1) && id in p.table
    ensures p.table[id] < |p.frames| && 0 <= id < |view| && p.frames[p.table[id]].data == view[id]
    ensures p.frames[p.table[id]].refs <= 1 && p.frames[p.table[id]].valid
  {
    assert TableOk(p, id) && FrameOk(p, view, -1, p.table[id]);
  }

  /** When no frame is dirty, the data file is up to date. */
  lemma CleanMeansSaved(p: Pool, view: seq<Bytes>)
    requires Holds(p, view, -1) && forall i :: 0 <= i < |p.frames| ==> !(p.frames[i].valid && p.frames[i].dirty)
    ensures p.disk == view
  {
    forall id | 0 <= id < |view|
      ensures p.disk[id] == view[id]
    {
      if id in p.table { assert TableOk(p, id) && FrameOk(p, view, -1, p.table[id]); }
    }
  }

  // ------------------------------------------------------------------ the sweep

  lemma RefsAreSmall(p: Pool, view: seq<Bytes>)
    requires Holds(p, view, -1)
    ensures SameButRefs(p, p)
  {
    forall i | 0 <= i < |p.frames|
      ensures p.frames[i].refs <= 1
    {
      assert FrameOk(p, view, -1, i);
    }
  }

  /** How far a frame lies ahead of where the sweep began. */
  function Dist(n: nat, start: nat, i: nat): nat
    requires start < n && i < n
  {
    if i >= start then i - start else i + n - start
  }

  /** A frame the hand passes loses its second chance. */
  function Counted(p: Pool, at: nat): Pool
    requires at < |p.frames|
  {
    if p.frames[at].pin == 0 then p.(frames := p.frames[at := p.frames[at].(refs := 0)]) else p
  }

  lemma CountingDoesNotMatter(p0: Pool, p: Pool, at: nat)
    requires SameButRefs(p0, p) && at < |p.frames|
    ensures SameButRefs(p0, Counted(p, at))
  {
  }

  function Next(n: nat, at: nat): nat
    requires at < n
  {
    if at + 1 == n then 0 else at + 1
  }

  lemma DistNext(n: nat, start: nat, at: nat)
    requires start < n && at < n
    ensures Dist(n, start, Next(n, at)) == if Dist(n, start, at) == n - 1 then 0 else Dist(n, start, at) + 1
    ensures Dist(n, start, at) < n
  {
  }

  lemma DistInjective(n: nat, start: nat, i: nat, at: nat)
    requires start < n && at < n && i < n
    ensures Dist(n, start, i) == Dist(n, start, at) ==> i == at
    ensures Dist(n, start, i) < n
  {
  }

  function Rounds(n: nat, start: nat, at: nat, rounds: nat): nat
    requires start < n && at < n
  {
    if Dist(n, start, at) == n - 1 then rounds + 1 else rounds
  }

  /** The hand may take the frame the first time it comes by: it is unused, or unpinned and has not been
      touched since the hand last passed. */
  predicate Ready(f: FrameState) {
    !f.valid || (f.pin == 0 && f.refs == 0)
  }

  /** Frame `i` after the hand has passed it. */
  function PassedBy(f: FrameState): FrameState {
    if f.valid && f.pin == 0 then f.(refs := 0) else f
  }

  /** Where a sweep stands, in its first round, its second, or a later one: what the hand has seen of the
      frames as they were, `p0`, and what it has done to them. */
  ghost predicate Swept(p0: Pool, p: Pool, start: nat, at: nat, rounds: nat, scanned: nat) {
    var n := |p0.frames|;
    && |p.frames| == n && start < n && at < n
    && (rounds == 0 ==> scanned == Dist(n, start, at)) && (rounds == 1 ==> scanned == n + Dist(n, start, at))
    && (forall i :: 0 <= i < n ==>
        p.frames[i] == if rounds >= 1 || Dist(n, start, i) < Dist(n, start, at) then PassedBy(p0.frames[i])
          else p0.frames[i])
    && (forall i :: 0 <= i < n && (rounds >= 1 || Dist(n, start, i) < Dist(n, start, at)) ==> !Ready(p0.frames[i]))
    && (forall i :: 0 <= i < n && (rounds >= 2 || (rounds == 1 && Dist(n, start, i) < Dist(n, start, at))) ==>
        !Evictable(p0.frames[i]))
  }

  /** The hand passes one frame that it cannot take. */
  lemma SweptStep(p0: Pool, p: Pool, start: nat, at: nat, rounds: nat, scanned: nat)
    requires Swept(p0, p, start, at, rounds, scanned) && !Ready(p.frames[at])
    ensures var n := |p0.frames|;
            Swept(p0, Counted(p, at), start, Next(n, at), Rounds(n, start, at, rounds), scanned + 1)
  {
    var n := |p0.frames|;
    DistNext(n, start, at);
    forall i | 0 <= i < n
      ensures Dist(n, start, i) < n && (Dist(n, start, i) == Dist(n, start, at) ==> i == at)
    {
      DistInjective(n, start, i, at);
    }
  }

  /** The frame that is to be taken when the hand stands at `start`: the first one ahead of the hand that is
      ready, or, when none is, the first one that is not pinned. */
  ghost predicate IsVictim(p0: Pool, start: nat, v: nat) {
    var n := |p0.frames|;
    && start < n && v < n && Evictable(p0.frames[v])
    && if Ready(p0.frames[v]) then
         forall i :: 0 <= i < n && Dist(n, start, i) < Dist(n, start, v) ==> !Ready(p0.frames[i])
       else (forall i :: 0 <= i < n ==> !Ready(p0.frames[i]))
            && forall i :: 0 <= i < n && Dist(n, start, i) < Dist(n, start, v) ==> !Evictable(p0.frames[i])
  }

  /** The frames the hand came by on its way have lost their second chance; the others still have theirs. */
  ghost predicate ChancesUsed(p0: Pool, p: Pool, start: nat, v: nat) {
    var n := |p0.frames|;
    && start < n && v < n && |p.frames| == n
    && forall i :: 0 <= i < n ==>
        p.frames[i] == if !Ready(p0.frames[v]) || Dist(n, start, i) < Dist(n, start, v) then PassedBy(p0.frames[i])
                       else p0.frames[i]
  }

  lemma VictimFound(p0: Pool, p: Pool, start: nat, at: nat, rounds: nat, scanned: nat)
    requires Swept(p0, p, start, at, rounds, scanned) && Ready(p.frames[at])
    ensures IsVictim(p0, start, at) && ChancesUsed(p0, p, start, at)
  {
  }

  /** A pinned page, or the error thrown: every frame pinned, or no such page. */
  datatype Fetched = Page(frame: Frame) | PoolFull | BadPage

  // ------------------------------------------------------------------ the cache

  class BufferPool {
    const frames: seq<Frame>
    var table: map<int, nat>
    var hand: nat
    var disk: seq<Bytes>
    ghost var view: seq<Bytes>

    ghost function Buffers(): set<object> {
      set f | f in frames :: f.data
    }

    ghost function Look(): Pool
      reads this, frames, Buffers()
    {
      Pool(seq(|frames|, i requires 0 <= i < |frames| reads this, frames, Buffers() => frames[i].Read()), table, disk)
    }

    /** No two frames are the same object or share their bytes. */
    ghost predicate Separate() {
      && |frames| > 0
      && (forall i, j :: 0 <= i < j < |frames| ==> frames[i] != frames[j] && frames[i].data != frames[j].data)
    }

    ghost predicate Valid()
      reads this, frames, Buffers()
    {
      Separate() && hand < |frames| && Holds(Look(), view, -1)
    }

    /** One frame changed, the table and the data file as given. */
    lemma LookAfter(p: Pool, i: nat, f: FrameState, t: map<int, nat>, d: seq<Bytes>)
      requires |p.frames| == |frames| && i < |frames| && frames[i].Read() == f && table == t && disk == d
      requires forall j :: 0 <= j < |frames| && j != i ==> frames[j].Read() == p.frames[j]
      ensures Look() == Pool(p.frames[i := f], t, d)
    {
    }

    method FlushFrame(f: Frame, ghost i: nat)
      requires Separate() && i < |frames| && f == frames[i] && (f.valid && f.dirty ==> 0 <= f.page < |disk|)
      modifies this`disk, f`dirty
      ensures Look() == Flushed(old(Look()), i)
    {
      ghost var p := Look();
      if f.valid && f.dirty {
        disk := disk[f.page := f.data[..]];
        f.dirty := false;
        LookAfter(p, i, p.frames[i].(dirty := false), table, disk);
      }
    }

    // ---------------------------------------------------------------- the clock

    /** Clock sweep: an invalid frame, or an unpinned one whose counter has run out. It gives up if and
        only if every frame is pinned, because counters never exceed one and two rounds suffice. */
    method EvictVictim() returns (ok: bool, idx: nat)
      requires Valid()
      modifies this`table, this`hand, this`disk, frames
      ensures Valid() && view == old(view)
      ensures ok <==> !old(AllPinned(Look()))
      ensures ok ==> idx < |frames| && !frames[idx].valid && IsVictim(old(Look()), old(hand), idx)
      ensures forall id :: id !in old(table) ==> id !in table
      ensures forall id :: Pins(Look(), id) == old(Pins(Look(), id))
    {
      ghost var p0 := Look();
      RefsAreSmall(p0, view);
      ok, idx := Sweep();
      RefsDoNotMatter(p0, Look(), view, -1);
      if ok && frames[idx].valid { Evict(frames[idx], idx); }
    }

    /** Moves the hand, counting down, until it has found a frame that can be taken. */
    method Sweep() returns (ok: bool, idx: nat)
      requires Separate() && hand < |frames| && SameButRefs(Look(), Look())
      modifies this`hand, frames`refs
      ensures hand < |frames| && SameButRefs(old(Look()), Look())
      ensures ok <==> !AllPinned(Look())
      ensures ok ==> idx < |frames| && (frames[idx].valid ==> frames[idx].pin == 0 && frames[idx].refs == 0)
      ensures ok ==> IsVictim(old(Look()), old(hand), idx) && ChancesUsed(old(Look()), Look(), old(hand), idx)
                     && hand == Next(|frames|, idx)
    {
      ghost var p0, start, rounds := Look(), hand, 0;
      var scanned := 0;
      var limit := |frames| * 4 + 1;
      while true
        invariant hand < |frames| && SameButRefs(p0, Look())
        invariant scanned <= limit && Swept(p0, Look(), start, hand, rounds, scanned)
        decreases limit - scanned
      {
        if !frames[hand].valid || (frames[hand].pin == 0 && frames[hand].refs == 0) {
          assert Evictable(Look().frames[hand]);
          VictimFound(p0, Look(), start, hand, rounds, scanned);
          idx := hand;
          Advance();
          return true, idx;
        }
        CountingDoesNotMatter(p0, Look(), hand);
        assert Look().frames[hand].refs <= 1;
        SweptStep(p0, Look(), start, hand, rounds, scanned);
        rounds := Rounds(|frames|, start, hand, rounds);
        PassFrame();
        scanned := scanned + 1;
        if scanned > limit {
          RoundsDone(p0, Look(), start, hand, rounds, scanned);
          return false, 0;
        }
      }
    }

    lemma RoundsDone(p0: Pool, p: Pool, start: nat, at: nat, rounds: nat, scanned: nat)
      requires Swept(p0, p, start, at, rounds, scanned) && scanned > 4 * |p.frames|
      ensures AllPinned(p)
    {
      DistNext(|p.frames|, start, at);
    }

    method Advance()
      requires hand < |frames|
      modifies this`hand
      ensures hand == Next(|frames|, old(hand)) && Look() == old(Look())
    {
      hand := (hand + 1) % |frames|;
      assert Look() == old(Look());
    }

    method PassFrame()
      requires Separate() && hand < |frames| && frames[hand].valid && (frames[hand].pin == 0 ==> frames[hand].refs == 1)
      modifies this`hand, frames`refs
      ensures hand == Next(|frames|, old(hand)) && Look() == Counted(old(Look()), old(hand))
    {
      ghost var p := Look();
      var f := frames[hand];
      if f.pin == 0 {
        f.refs := f.refs - 1;
        LookAfter(p, hand, p.frames[hand].(refs := 0), table, disk);
      }
      Advance();
    }

    /** The victim is written back if need be, and gives up its page. */
    method Evict(f: Frame, ghost i: nat)
      requires Valid() && i < |frames| && f == frames[i] && f.valid && f.pin == 0
      modifies this`table, this`disk, f`dirty, f`valid
      ensures Valid() && view == old(view) && !f.valid
      ensures forall id :: id !in old(table) ==> id !in table
      ensures forall id :: Pins(Look(), id) == old(Pins(Look(), id))
    {
      ghost var p := Look();
      assert FrameOk(p, view, -1, i);
      FlushKeeps(p, view, -1, i);
      FlushFrame(f, i);
      ghost var q := Look();
      DropKeeps(q, view, i);
      table := table - {f.page};
      f.valid := false;
      LookAfter(q, i, q.frames[i].(valid := false), table, disk);
    }

    // ---------------------------------------------------------------- the interface

    constructor (frameCount: nat, pages: seq<Bytes>)
      requires frameCount > 0 && forall i :: 0 <= i < |pages| ==> IsPage(pages[i])
      ensures Valid() && view == pages && |frames| == frameCount && fresh(frames) && fresh(Buffers())
      ensures forall id :: Pins(Look(), id) == 0
    {
      var fs: seq<Frame> := [];
      while |fs| < frameCount
        invariant |fs| <= frameCount && fresh(fs)
        invariant forall i :: 0 <= i < |fs| ==> fresh(fs[i].data) && fs[i].data.Length == PAGE_SIZE
        invariant forall i :: 0 <= i < |fs| ==> !fs[i].valid && fs[i].pin == 0 && !fs[i].dirty && fs[i].refs == 0
        invariant forall i, j :: 0 <= i < j < |fs| ==> fs[i] != fs[j] && fs[i].data != fs[j].data
      {
        var f := new Frame();
        fs := fs + [f];
      }
      frames := fs;
      table, hand, disk := map[], 0, pages;
      view := pages;
    }

    /** A cached page gets one more pin. */
    method Touch(f: Frame, ghost id: int)
      requires Valid() && id in table && table[id] < |frames| && f == frames[table[id]]
      modifies f`pin, f`refs
      ensures Valid() && 0 <= id < |view| && f.data[..] == view[id] && f.refs == 1
      ensures forall x :: Pins(Look(), x) == old(Pins(Look(), x)) + if x == id then 1 else 0
      ensures Touched(old(Look()), Look(), id)
    {
      ghost var p, i := Look(), table[id];
      CachedPage(p, view, id);
      f.pin := f.pin + 1;
      f.refs := 1;
      LookAfter(p, i, f.Read(), table, disk);
      AdjustKeeps(p, view, -1, id, f.Read());
      AdjustPinned(p, view, -1, id, f.Read());
    }

    /** Reads a page into a buffer. */
    method CopyPage(src: Bytes, dst: array<Byte>)
      requires IsPage(src) && dst.Length == PAGE_SIZE
      modifies dst
      ensures dst[..] == src
    {
      CopyIn(dst, 0, src);
      assert dst[0..PAGE_SIZE] == dst[..];
    }

    /** A free frame takes a page of the data file. */
    method Load(f: Frame, i: nat, id: int)
      requires Valid() && i < |frames| && f == frames[i] && !f.valid && id !in table && 0 <= id < |disk|
      modifies this`table, f, f.data
      ensures Valid() && id in table && table[id] == i && f.data[..] == view[id] && f.refs == 1
      ensures forall x :: Pins(Look(), x) == old(Pins(Look(), x)) + if x == id then 1 else 0
    {
      ghost var p := Look();
      assert FrameOk(p, view, -1, i);
      LoadKeeps(p, view, i, id, disk[id]);
      f.page, f.pin, f.dirty, f.refs, f.valid := id, 1, false, 1, true;
      CopyPage(disk[id], f.data);
      table := table[id := i];
      LookAfter(p, i, FrameState(id, 1, false, 1, true, disk[id]), table, disk);
    }

    /** The frame is taken for a page that does not exist: the failed read leaves it pinned for good. */
    method LoadBadPage(f: Frame, ghost i: nat, id: int)
      requires Valid() && i < |frames| && f == frames[i] && !f.valid && id !in table
      modifies f
      ensures Valid()
      ensures forall x :: Pins(Look(), x) == old(Pins(Look(), x))
    {
      ghost var p := Look();
      assert FrameOk(p, view, -1, i);
      LossKeeps(p, view, i, id, f.data[..]);
      f.page, f.pin, f.dirty, f.refs, f.valid := id, 1, false, 1, true;
      LookAfter(p, i, FrameState(id, 1, false, 1, true, f.data[..]), table, disk);
    }

    /** Pins a page: its frame holds the content of the page, whatever was evicted to make room. */
    method FetchPage(id: int) returns (r: Fetched)
      requires Valid()
      modifies this`table, this`hand, this`disk, frames, Buffers()
      ensures Valid() && view == old(view)
      ensures r.Page? <==> old(id in table || (!AllPinned(Look()) && 0 <= id < |view|))
      ensures r.PoolFull? ==> old(AllPinned(Look()) && id !in table)
      ensures r.Page? ==> 0 <= id < |view| && id in table && table[id] < |frames| && r.frame == frames[table[id]]
                          && r.frame.data[..] == view[id] && r.frame.refs == 1
      ensures forall x :: Pins(Look(), x) == old(Pins(Look(), x)) + if r.Page? && x == id then 1 else 0
      ensures r.Page? ==> Touched(old(Look()), Look(), id)
    {
      if id in table {
        CachedPage(Look(), view, id);
        var f := frames[table[id]];
        Touch(f, id);
        return Page(f);
      }
      var ok, idx := EvictVictim();
      if !ok { return PoolFull; }
      if id < 0 || id >= |disk| {
        LoadBadPage(frames[idx], idx, id);
        return BadPage;
      }
      Load(frames[idx], idx, id);
      r := Page(frames[idx]);
    }

    /** A new page of zeros at the end of the data file, pinned. */
    method NewPage() returns (id: int, r: Fetched)
      requires Valid()
      modifies this, frames, Buffers()
      ensures Valid() && id == old(|view|) && view == old(view) + [Zeros()]
      ensures !r.BadPage? && (r.PoolFull? <==> old(AllPinned(Look())))
      ensures r.Page? ==>
        id in table && table[id] < |frames| && r.frame == frames[table[id]] && r.frame.data[..] == Zeros()
        && r.frame.refs == 1
      ensures forall x :: Pins(Look(), x) == old(Pins(Look(), x)) + if r.Page? && x == id then 1 else 0
      ensures r.Page? ==> old(Pins(Look(), id)) == 0
    {
      ghost var p := Look();
      GrowKeeps(p, view);
      id := |disk|;
      disk := disk + [Zeros()];
      view := view + [Zeros()];
      assert Look() == Grown(p);
      var ok, idx := EvictVictim();
      if !ok { return id, PoolFull; }
      Load(frames[idx], idx, id);
      r := Page(frames[idx]);
    }

    /** Releases a pin. What the client wrote becomes the content of the page; it must have said so, now
        or before, unless it wrote nothing new. */
    method UnpinPage(id: int, dirty: bool)
      requires Separate() && hand < |frames| && Holds(Look(), view, if id in table then id else -1)
      requires id in table && table[id] < |frames| && 0 <= id < |view|
        ==> dirty || frames[table[id]].dirty || frames[table[id]].data[..] == view[id]
      modifies this`view, frames`dirty, frames`pin
      ensures Valid()
      ensures view == if id in table && table[id] < |frames| && 0 <= id < |view|
        then old(view)[id := frames[table[id]].data[..]] else old(view)
      ensures forall x :: Pins(Look(), x) == old(Pins(Look(), x)) - if x == id && old(Pins(Look(), x)) > 0 then 1 else 0
      ensures id in table ==> Unpinned(old(Look()), Look(), id)
    {
      if id !in table { return; }
      ghost var p, i := Look(), table[id];
      OpenPage(p, view, id);
      var f := frames[table[id]];
      if dirty { f.dirty := true; }
      if f.pin > 0 { f.pin := f.pin - 1; }
      LookAfter(p, i, f.Read(), table, disk);
      AdjustKeeps(p, view, id, id, f.Read());
      AdjustPinned(p, view, id, id, f.Read());
      ghost var q := Look();
      CloseKeeps(q, view, id);
      view := view[id := f.data[..]];
      assert Look() == q;
    }

    lemma OpenPage(p: Pool, v: seq<Bytes>, id: int)
      requires Holds(p, v, id) && id in p.table
      ensures p.table[id] < |p.frames| && 0 <= id < |v| && p.frames[p.table[id]].refs <= 1
    {
      assert TableOk(p, id) && FrameOk(p, v, id, p.table[id]);
    }

    /** Writes back every dirty frame; then the data file holds exactly what the pool stands for. */
    method FlushAll()
      requires Valid()
      modifies this`disk, frames`dirty
      ensures Valid() && view == old(view) && disk == view
      ensures forall x :: Pins(Look(), x) == old(Pins(Look(), x))
    {
      var i := 0;
      while i < |frames|
        invariant i <= |frames| && Valid()
        invariant forall j :: 0 <= j < i ==> !(frames[j].valid && frames[j].dirty)
        invariant forall x :: Pins(Look(), x) == old(Pins(Look(), x))
      {
        ghost var p := Look();
        assert FrameOk(p, view, -1, i);
        FlushKeeps(p, view, -1, i);
        FlushFrame(frames[i], i);
        assert forall j :: 0 <= j < |frames| && j != i ==> Look().frames[j] == p.frames[j];
        i := i + 1;
      }
      assert forall j :: 0 <= j < |frames| ==> Look().frames[j] == frames[j].Read();
      CleanMeansSaved(Look(), view);
    }
  }
}
