/** A table's heap: tuples spread first-fit over slotted pages that live in the buffer pool. Through
    all of it the heap refines a map from row ids to bytes. */
module HeapFile {
  import opened SlottedPage
  import opened BufferPool

  datatype RowId = RowId(page: int, slot: int)
  datatype Option<T> = None | Some(value: T)

  // ------------------------------------------------------------------ what the pages stand for

  ghost predicate AllLaid(view: seq<Bytes>) {
    forall id :: 0 <= id < |view| ==> Laid(view[id])
  }

  /** The live tuple behind a row id. */
  function Lookup(view: seq<Bytes>, rid: RowId): Option<Bytes>
    requires 0 <= rid.page < |view| ==> IsPage(view[rid.page])
  {
    if 0 <= rid.page < |view| && rid.slot in Tuples(view[rid.page]) then Some(Tuples(view[rid.page])[rid.slot])
      else None
  }

  /** Row ids that were handed out at some time, live or deleted. */
  predicate Issued(view: seq<Bytes>, rid: RowId)
    requires 0 <= rid.page < |view| ==> IsPage(view[rid.page])
  {
    0 <= rid.page < |view| && 0 <= rid.slot < NumSlots(view[rid.page])
  }

  /** Whether a tuple of `len` bytes fits: on a page of zeros, which is formatted first, always. */
  predicate FitsOn(b: Bytes, len: nat)
    requires IsPage(b)
  {
    FreePtr(b) == 0 || HasRoom(b, len)
  }

  predicate FitsEmptyPage(len: nat) {
    len + HEADER_SIZE + SLOT_SIZE <= PAGE_SIZE
  }

  /** A page before and after one tuple was put into its next slot. */
  ghost predicate PutOn(b: Bytes, c: Bytes, data: Bytes, slot: nat) {
    && Laid(b) && Laid(c) && slot == NumSlots(b) && NumSlots(c) == slot + 1
    && Tuples(c) == if data == [] then Tuples(b) else Tuples(b)[slot as int := data]
  }

  /** One tuple more, under a row id that was never issued; every other row id is as it was. */
  ghost predicate Added(view: seq<Bytes>, view2: seq<Bytes>, rid: RowId, data: Bytes) {
    && AllLaid(view) && AllLaid(view2)
    && !Issued(view, rid) && Issued(view2, rid)
    && Lookup(view2, rid) == (if data == [] then None else Some(data))
    && (forall r :: r != rid ==> Lookup(view2, r) == Lookup(view, r))
    && (forall r :: r != rid ==> Issued(view2, r) == Issued(view, r))
  }

  ghost predicate SameTuples(view: seq<Bytes>, view2: seq<Bytes>) {
    && AllLaid(view) && AllLaid(view2)
    && (forall r :: Lookup(view2, r) == Lookup(view, r))
    && (forall r :: Issued(view2, r) == Issued(view, r))
  }

  lemma PutAdds(view: seq<Bytes>, page: nat, c: Bytes, data: Bytes, slot: nat)
    requires AllLaid(view) && page < |view| && PutOn(view[page], c, data, slot)
    ensures Added(view, view[page := c], RowId(page, slot), data)
  {
    var b, view2, rid := view[page], view[page := c], RowId(page, slot);
    forall r | r != rid
      ensures Lookup(view2, r) == Lookup(view, r) && Issued(view2, r) == Issued(view, r)
    {
      if r.page == page { assert r.slot != slot; }
    }
  }

  lemma ZeroPageIsEmpty()
    ensures Laid(Zeros()) && NumSlots(Zeros()) == 0 && FreePtr(Zeros()) == 0 && Tuples(Zeros()) == map[]
  {
  }

  lemma GrowthAddsNothing(view: seq<Bytes>)
    requires AllLaid(view)
    ensures SameTuples(view, view + [Zeros()])
  {
    ZeroPageIsEmpty();
    var view2 := view + [Zeros()];
    forall r
      ensures Lookup(view2, r) == Lookup(view, r) && Issued(view2, r) == Issued(view, r)
    {
      if 0 <= r.page < |view| { assert view2[r.page] == view[r.page]; }
    }
  }

  /** One tuple less; its row id stays issued, so it is never handed out again. */
  ghost predicate Removed(view: seq<Bytes>, view2: seq<Bytes>, rid: RowId) {
    && AllLaid(view) && AllLaid(view2)
    && Lookup(view2, rid) == None
    && (forall r :: r != rid ==> Lookup(view2, r) == Lookup(view, r))
    && (forall r :: Issued(view2, r) == Issued(view, r))
  }

  ghost predicate TakenOff(b: Bytes, c: Bytes, slot: int) {
    Laid(b) && Laid(c) && NumSlots(c) == NumSlots(b) && Tuples(c) == Tuples(b) - {slot}
  }

  lemma TakeOffRemoves(view: seq<Bytes>, page: nat, c: Bytes, slot: int)
    requires AllLaid(view) && page < |view| && TakenOff(view[page], c, slot)
    ensures Removed(view, view[page := c], RowId(page, slot))
  {
  }

  // ------------------------------------------------------------------ scans

  type Entry = (RowId, Bytes)

  /** The live tuples of a page from slot `s` on. */
  function PageEntries(b: Bytes, page: int, s: nat): seq<Entry>
    requires IsPage(b) && s <= NumSlots(b)
    decreases NumSlots(b) - s
  {
    if s == NumSlots(b) then []
    else (if s in Tuples(b) then [(RowId(page, s), Tuples(b)[s])] else []) + PageEntries(b, page, s + 1)
  }

  /** The live tuples of the pages from the `i`-th on. */
  ghost function Entries(view: seq<Bytes>, pages: seq<int>, i: nat): seq<Entry>
    requires AllLaid(view) && i <= |pages| && forall j :: 0 <= j < |pages| ==> 0 <= pages[j] < |view|
    decreases |pages| - i
  {
    if i == |pages| then []
    else PageEntries(view[pages[i]], pages[i], 0) + Entries(view, pages, i + 1)
  }

  lemma InConcat(a: seq<Entry>, b: seq<Entry>, e: Entry)
    ensures e in a + b <==> e in a || e in b
  {
  }

  ghost predicate OnPage(b: Bytes, page: int, s: nat, e: Entry)
    requires IsPage(b)
  {
    e.0.page == page && s <= e.0.slot && e.0.slot in Tuples(b) && e.1 == Tuples(b)[e.0.slot]
  }

  lemma {:induction false} PageEntriesExact(b: Bytes, page: int, s: nat, e: Entry)
    requires IsPage(b) && s <= NumSlots(b)
    ensures e in PageEntries(b, page, s) <==> OnPage(b, page, s, e)
    decreases NumSlots(b) - s
  {
    if s < NumSlots(b) {
      PageEntriesExact(b, page, s + 1, e);
      var head := if s in Tuples(b) then [(RowId(page, s), Tuples(b)[s])] else [];
      InConcat(head, PageEntries(b, page, s + 1), e);
      assert e in head <==> OnPage(b, page, s, e) && e.0.slot == s;
    }
  }

  ghost predicate OnPages(pages: seq<int>, i: nat, page: int) {
    exists j :: i <= j < |pages| && pages[j] == page
  }

  lemma OnPagesStep(pages: seq<int>, i: nat, page: int)
    requires i < |pages|
    ensures OnPages(pages, i, page) <==> pages[i] == page || OnPages(pages, i + 1, page)
  {
  }

  /** From page `i` on, exactly the live tuples of the pages are listed. */
  ghost predicate Exact(view: seq<Bytes>, pages: seq<int>, i: nat, e: Entry)
    requires AllLaid(view) && i <= |pages| && forall j :: 0 <= j < |pages| ==> 0 <= pages[j] < |view|
  {
    e in Entries(view, pages, i) <==> OnPages(pages, i, e.0.page) && Lookup(view, e.0) == Some(e.1)
  }

  lemma {:induction false} EntriesExactFrom(view: seq<Bytes>, pages: seq<int>, i: nat, e: Entry)
    requires AllLaid(view) && i <= |pages| && forall j :: 0 <= j < |pages| ==> 0 <= pages[j] < |view|
    ensures Exact(view, pages, i, e)
    decreases |pages| - i
  {
    if i < |pages| {
      EntriesExactFrom(view, pages, i + 1, e);
      ExactStep(view, pages, i, e);
    }
  }

  lemma ExactStep(view: seq<Bytes>, pages: seq<int>, i: nat, e: Entry)
    requires AllLaid(view) && i < |pages| && forall j :: 0 <= j < |pages| ==> 0 <= pages[j] < |view|
    requires Exact(view, pages, i + 1, e)
    ensures Exact(view, pages, i, e)
  {
    EntriesStep(view, pages, i, e);
    OnPagesStep(pages, i, e.0.page);
  }

  lemma EntriesStep(view: seq<Bytes>, pages: seq<int>, i: nat, e: Entry)
    requires AllLaid(view) && i < |pages| && forall j :: 0 <= j < |pages| ==> 0 <= pages[j] < |view|
    ensures e in Entries(view, pages, i)
        <==> (e.0.page == pages[i] && Lookup(view, e.0) == Some(e.1)) || e in Entries(view, pages, i + 1)
  {
    EntriesOfPage(view, pages[i], e);
    InConcat(PageEntries(view[pages[i]], pages[i], 0), Entries(view, pages, i + 1), e);
  }

  lemma EntriesOfPage(view: seq<Bytes>, page: nat, e: Entry)
    requires AllLaid(view) && page < |view|
    ensures e in PageEntries(view[page], page, 0) <==> e.0.page == page && Lookup(view, e.0) == Some(e.1)
  {
    PageEntriesExact(view[page], page, 0, e);
    OnPageLookup(view, page, e);
  }

  lemma OnPageLookup(view: seq<Bytes>, page: nat, e: Entry)
    requires AllLaid(view) && page < |view|
    ensures OnPage(view[page], page, 0, e) <==> e.0.page == page && Lookup(view, e.0) == Some(e.1)
  {
  }

  /** A scan lists exactly the live tuples of the heap's pages. */
  lemma EntriesExact(view: seq<Bytes>, pages: seq<int>, rid: RowId, bytes: Bytes)
    requires AllLaid(view) && forall j :: 0 <= j < |pages| ==> 0 <= pages[j] < |view|
    ensures (rid, bytes) in Entries(view, pages, 0) <==> rid.page in pages && Lookup(view, rid) == Some(bytes)
  {
    EntriesExactFrom(view, pages, 0, (rid, bytes));
  }

  predicate DistinctIds(s: seq<Entry>) {
    forall i, j :: 0 <= i < j < |s| ==> s[i].0 != s[j].0
  }

  lemma {:induction false} PageEntriesDistinct(b: Bytes, page: int, s: nat)
    requires IsPage(b) && s <= NumSlots(b)
    ensures DistinctIds(PageEntries(b, page, s))
    decreases NumSlots(b) - s
  {
    if s < NumSlots(b) {
      PageEntriesDistinct(b, page, s + 1);
      var rest := PageEntries(b, page, s + 1);
      forall k | 0 <= k < |rest|
        ensures rest[k].0 != RowId(page, s)
      {
        assert rest[k] in rest;
        PageEntriesExact(b, page, s + 1, rest[k]);
      }
    }
  }

  predicate NoRepeats(pages: seq<int>) {
    forall j, k :: 0 <= j < k < |pages| ==> pages[j] != pages[k]
  }

  /** ... each of them once, as no page is listed twice. */
  lemma {:induction false} EntriesDistinct(view: seq<Bytes>, pages: seq<int>, i: nat)
    requires AllLaid(view) && i <= |pages| && forall j :: 0 <= j < |pages| ==> 0 <= pages[j] < |view|
    requires NoRepeats(pages)
    ensures DistinctIds(Entries(view, pages, i))
    decreases |pages| - i
  {
    if i < |pages| {
      var here, rest := PageEntries(view[pages[i]], pages[i], 0), Entries(view, pages, i + 1);
      PageEntriesDistinct(view[pages[i]], pages[i], 0);
      EntriesDistinct(view, pages, i + 1);
      forall a, b | 0 <= a < |here| && 0 <= b < |rest|
        ensures here[a].0 != rest[b].0
      {
        assert here[a] in here && rest[b] in rest;
        PageEntriesExact(view[pages[i]], pages[i], 0, here[a]);
        EntriesExactFrom(view, pages, i + 1, rest[b]);
      }
    }
  }

  // ------------------------------------------------------------------ the heap

  /** Pages are pinned as often as before, and a frame is still free if one was. */
  ghost predicate Kept(p: Pool, q: Pool) {
    (forall x :: Pins(q, x) == Pins(p, x)) && (!AllPinned(p) ==> !AllPinned(q))
  }

  lemma KeptTransitive(p: Pool, q: Pool, r: Pool)
    requires Kept(p, q) && Kept(q, r)
    ensures Kept(p, r)
  {
  }

  datatype Placed = Placed(slot: nat) | NoRoom | PoolExhausted
  datatype Inserted = Inserted(rid: RowId) | TooLarge | Failed
  datatype Found = Tuple(bytes: Bytes) | NoTuple | Error

  class HeapFile {
    const pool: BufferPool
    var pages: seq<int>

    ghost predicate Valid()
      reads this, pool, pool.frames, pool.Buffers()
    {
      && pool.Valid() && AllLaid(pool.view)
      && (forall i :: 0 <= i < |pages| ==> 0 <= pages[i] < |pool.view|) && NoRepeats(pages)
    }

    constructor (bp: BufferPool, existing: seq<int>)
      requires bp.Valid() && AllLaid(bp.view) && (forall i :: 0 <= i < |existing| ==> 0 <= existing[i] < |bp.view|)
      requires NoRepeats(existing)
      ensures Valid() && pool == bp && pages == existing
    {
      pool, pages := bp, existing;
      new;
      assert bp.Look() == old(bp.Look());
    }

    /** Writes into the buffer of a pinned page; the page is open until it is unpinned. */
    lemma AfterWriting(p: Pool, f: Frame, id: int)
      requires pool.Separate() && pool.hand < |pool.frames|
      requires Holds(p, pool.view, -1) && id in p.table && p.table[id] < |p.frames| == |pool.frames|
        && f == pool.frames[p.table[id]]
      requires pool.table == p.table && pool.disk == p.disk && IsPage(f.data[..])
      requires f.Read() == p.frames[p.table[id]].(data := f.data[..])
      requires forall j :: 0 <= j < |pool.frames| && j != p.table[id] ==> pool.frames[j].Read() == p.frames[j]
      ensures Holds(pool.Look(), pool.view, id) && 0 <= id < |pool.view| && pool.Look().table == p.table
      ensures forall x :: Pins(pool.Look(), x) == Pins(p, x)
      ensures AllPinned(pool.Look()) <==> AllPinned(p)
    {
      WritingKeeps(p, pool.view, id, f.data[..]);
      pool.LookAfter(p, p.table[id], f.Read(), p.table, p.disk);
      assert forall j :: 0 <= j < |p.frames| ==> Evictable(pool.Look().frames[j]) == Evictable(p.frames[j]);
    }

    /** The page part of an insertion: the bytes of one pinned page change. */
    method InsertIntoBuffer(a: array<Byte>, data: Bytes) returns (slot: int)
      requires a.Length == PAGE_SIZE && Laid(a[..]) && FitsEmptyPage(|data|)
      modifies a
      ensures slot >= 0 <==> old(FitsOn(a[..], |data|))
      ensures slot >= 0 ==> PutOn(old(a[..]), a[..], data, slot)
      ensures slot < 0 ==> a[..] == old(a[..])
    {
      var free := Read16(a, 2);
      if free == 0 { Init(a); }
      slot := InsertTuple(a, data);
    }

    /** The pool after a page was pinned: its frame shows the content of the page. */
    ghost predicate Pinned(f: Frame, pid: int)
      reads pool, pool.frames, pool.Buffers()
    {
      pool.Valid() && pid in pool.table && pool.table[pid] < |pool.frames| && f == pool.frames[pool.table[pid]]
    }

    /** The page is open: its buffer may differ from its content, everything else is in order. */
    ghost predicate Open(f: Frame, pid: int)
      reads pool, pool.frames, pool.Buffers()
    {
      pool.Separate() && pool.hand < |pool.frames| && Holds(pool.Look(), pool.view, pid) && 0 <= pid < |pool.view|
      && pid in pool.table && pool.table[pid] < |pool.frames| && f == pool.frames[pool.table[pid]]
    }

    method InsertPinned(f: Frame, pid: int, data: Bytes) returns (slot: int)
      requires Pinned(f, pid) && AllLaid(pool.view) && FitsEmptyPage(|data|)
      modifies f.data
      ensures Open(f, pid) && pool.view == old(pool.view)
      ensures slot >= 0 <==> FitsOn(pool.view[pid], |data|)
      ensures slot >= 0 ==> PutOn(pool.view[pid], f.data[..], data, slot)
      ensures slot < 0 ==> f.data[..] == pool.view[pid]
      ensures forall x :: Pins(pool.Look(), x) == old(Pins(pool.Look(), x))
      ensures AllPinned(pool.Look()) <==> old(AllPinned(pool.Look()))
    {
      ghost var p := pool.Look();
      CachedPage(p, pool.view, pid);
      assert f.Read() == p.frames[p.table[pid]];
      slot := InsertIntoBuffer(f.data, data);
      AfterWriting(p, f, pid);
    }

    /** The page of a pinned frame becomes what its buffer holds. */
    method PutPinned(f: Frame, pid: int, data: Bytes) returns (slot: int)
      requires Pinned(f, pid) && AllLaid(pool.view) && FitsEmptyPage(|data|) && Pins(pool.Look(), pid) > 0
      modifies pool`view, pool.frames`dirty, pool.frames`pin, f.data
      ensures pool.Valid() && 0 <= pid < |pool.view| == old(|pool.view|)
      ensures slot >= 0 <==> old(FitsOn(pool.view[pid], |data|))
      ensures slot >= 0 ==> PutOn(old(pool.view[pid]), pool.view[pid], data, slot)
      ensures slot >= 0 ==> pool.view == old(pool.view)[pid := pool.view[pid]]
      ensures slot < 0 ==> pool.view == old(pool.view)
      ensures forall x :: Pins(pool.Look(), x) == old(Pins(pool.Look(), x)) - if x == pid then 1 else 0
      ensures Unpinned(old(pool.Look()), pool.Look(), pid)
    {
      slot := InsertPinned(f, pid, data);
      pool.UnpinPage(pid, slot >= 0);
    }

    /** One page of the first-fit search: pin it, try, unpin. */
    method TryPage(pid: int, data: Bytes) returns (r: Placed)
      requires pool.Valid() && AllLaid(pool.view) && 0 <= pid < |pool.view| && FitsEmptyPage(|data|)
      modifies pool, pool.frames, pool.Buffers()
      ensures pool.Valid() && |pool.view| == old(|pool.view|)
      ensures r.Placed? ==>
        old(FitsOn(pool.view[pid], |data|)) && PutOn(old(pool.view[pid]), pool.view[pid], data, r.slot)
      ensures r.Placed? ==> pool.view == old(pool.view)[pid := pool.view[pid]]
      ensures !r.Placed? ==> pool.view == old(pool.view)
      ensures r.NoRoom? ==> !old(FitsOn(pool.view[pid], |data|))
      ensures r.PoolExhausted? ==> old(AllPinned(pool.Look()))
      ensures Kept(old(pool.Look()), pool.Look())
    {
      ghost var p0 := pool.Look();
      var fetched := pool.FetchPage(pid);
      if !fetched.Page? { return PoolExhausted; }
      ghost var p1 := pool.Look();
      var slot := PutPinned(fetched.frame, pid, data);
      PinAndRelease(p0, p1, pool.Look(), pid);
      r := if slot >= 0 then Placed(slot) else NoRoom;
    }

    /** A new page with the tuple on it. */
    method PutOnNewPage(data: Bytes) returns (pid: int, ok: bool)
      requires pool.Valid() && AllLaid(pool.view) && FitsEmptyPage(|data|)
      modifies pool, pool.frames, pool.Buffers()
      ensures pool.Valid() && pid == old(|pool.view|) && |pool.view| == pid + 1
      ensures ok ==> PutOn(Zeros(), pool.view[pid], data, 0) && pool.view == old(pool.view) + [pool.view[pid]]
      ensures !ok ==> pool.view == old(pool.view) + [Zeros()]
      ensures forall x :: Pins(pool.Look(), x) == old(Pins(pool.Look(), x))
      ensures if ok then !AllPinned(pool.Look()) else old(AllPinned(pool.Look()))
    {
      ghost var view := pool.view;
      ZeroPageIsEmpty();
      var fetched;
      pid, fetched := pool.NewPage();
      if !fetched.Page? { return pid, false; }
      GrownLaid(view);
      var slot := PutPinned(fetched.frame, pid, data);
      ok := true;
    }

    lemma GrownLaid(view: seq<Bytes>)
      requires AllLaid(view)
      ensures AllLaid(view + [Zeros()])
    {
      ZeroPageIsEmpty();
    }

    lemma NewPageAdds(view: seq<Bytes>, c: Bytes, data: Bytes)
      requires AllLaid(view) && PutOn(Zeros(), c, data, 0)
      ensures Added(view, view + [c], RowId(|view|, 0), data)
    {
      GrowthAddsNothing(view);
      var grown := view + [Zeros()];
      PutAdds(grown, |view|, c, data, 0);
      assert grown[|view| := c] == view + [c];
      AddedAfterGrowth(view, grown, view + [c], RowId(|view|, 0), data);
    }

    /** Grows the heap by a page and puts the tuple there. */
    method Extend(data: Bytes) returns (r: Inserted)
      requires Valid() && FitsEmptyPage(|data|)
      modifies this`pages, pool, pool.frames, pool.Buffers()
      ensures Valid()
      ensures r.Inserted? ==> Added(old(pool.view), pool.view, r.rid, data) && pages == old(pages) + [r.rid.page]
      ensures r.Inserted? ==> r.rid == RowId(old(|pool.view|), 0)
      ensures !r.Inserted? ==> r.Failed? && pages == old(pages) && SameTuples(old(pool.view), pool.view)
      ensures forall x :: Pins(pool.Look(), x) == old(Pins(pool.Look(), x))
      ensures if r.Inserted? then !AllPinned(pool.Look()) else old(AllPinned(pool.Look()))
    {
      ghost var view := pool.view;
      var pid, ok := PutOnNewPage(data);
      if ok {
        NewPageAdds(view, pool.view[pid], data);
        pages := pages + [pid];
        r := Inserted(RowId(pid, 0));
      } else {
        GrowthAddsNothing(view);
        r := Failed;
      }
    }

    lemma AddedAfterGrowth(view: seq<Bytes>, grown: seq<Bytes>, after: seq<Bytes>, rid: RowId, data: Bytes)
      requires SameTuples(view, grown) && Added(grown, after, rid, data)
      ensures Added(view, after, rid, data)
    {
    }

    /** First fit: the first page of the list with room takes the tuple; a new page only when none has. */
    method Insert(data: Bytes) returns (r: Inserted)
      requires Valid() && |data| < 0x1_0000
      modifies this`pages, pool, pool.frames, pool.Buffers()
      ensures Valid()
      ensures r.TooLarge? <==> !FitsEmptyPage(|data|)
      ensures r.Inserted? ==> Added(old(pool.view), pool.view, r.rid, data)
      ensures r.Inserted? ==> FirstFit(old(pool.view), old(pages), |data|, r.rid.page)
      ensures r.Inserted? ==> pages == if r.rid.page < old(|pool.view|) then old(pages) else old(pages) + [r.rid.page]
      ensures !r.Inserted? ==> pages == old(pages) && SameTuples(old(pool.view), pool.view)
      ensures r.Failed? ==> old(AllPinned(pool.Look()))
      ensures Kept(old(pool.Look()), pool.Look())
    {
      if |data| + HEADER_SIZE + SLOT_SIZE > PAGE_SIZE { return TooLarge; }
      ghost var view, p0 := pool.view, pool.Look();
      var i := 0;
      while i < |pages|
        invariant i <= |pages| && Valid() && pool.view == view && pages == old(pages)
        invariant forall j :: 0 <= j < i ==> !FitsOn(view[pages[j]], |data|)
        invariant Kept(p0, pool.Look())
      {
        ghost var p := pool.Look();
        var placed := TryPage(pages[i], data);
        KeptTransitive(p0, p, pool.Look());
        match placed {
          case Placed(slot) =>
            PutAdds(view, pages[i], pool.view[pages[i]], data, slot);
            return Inserted(RowId(pages[i], slot));
          case NoRoom =>
          case PoolExhausted =>
            return Failed;
        }
        i := i + 1;
      }
      ghost var p := pool.Look();
      r := Extend(data);
      KeptTransitive(p0, p, pool.Look());
    }

    /** The chosen page is the first of the list with room, or a new one when there is none. */
    ghost predicate FirstFit(view: seq<Bytes>, list: seq<int>, len: nat, page: int) {
      && (forall i :: 0 <= i < |list| ==> 0 <= list[i] < |view| && IsPage(view[list[i]]))
      && if page < |view| then
           exists i :: 0 <= i < |list| && list[i] == page && FitsOn(view[page], len)
                       && forall j :: 0 <= j < i ==> !FitsOn(view[list[j]], len)
         else forall j :: 0 <= j < |list| ==> !FitsOn(view[list[j]], len)
    }

    /** Whether a page can be pinned: it is cached, or it exists and a frame can be freed for it. */
    ghost predicate CanFetch(pid: int)
      reads pool, pool.frames, pool.Buffers()
    {
      pid in pool.table || (!AllPinned(pool.Look()) && 0 <= pid < |pool.view|)
    }

    /** The bytes behind a row id. */
    method Get(rid: RowId) returns (r: Found)
      requires pool.Valid() && AllLaid(pool.view)
      modifies pool, pool.frames, pool.Buffers()
      ensures pool.Valid() && pool.view == old(pool.view)
      ensures r.Tuple? ==> Lookup(pool.view, rid) == Some(r.bytes)
      ensures r.NoTuple? ==> Lookup(pool.view, rid) == None
      ensures r.Error? <==> rid.page != -1 && rid.slot >= 0 && !old(CanFetch(rid.page))
      ensures !old(AllPinned(pool.Look())) && !r.Error? ==> !AllPinned(pool.Look())
      ensures forall x :: Pins(pool.Look(), x) == old(Pins(pool.Look(), x))
    {
      if rid.page == -1 || rid.slot < 0 { return NoTuple; }
      ghost var p0 := pool.Look();
      var fetched := pool.FetchPage(rid.page);
      if !fetched.Page? { return Error; }
      ghost var p1 := pool.Look();
      var ok, bytes := GetPinned(fetched.frame, rid.page, rid.slot);
      PinAndRelease(p0, p1, pool.Look(), rid.page);
      r := if ok then Tuple(bytes) else NoTuple;
    }

    /** Reads a tuple of a pinned page and unpins it. */
    method GetPinned(f: Frame, pid: int, slot: int) returns (ok: bool, bytes: Bytes)
      requires Pinned(f, pid) && AllLaid(pool.view) && Pins(pool.Look(), pid) > 0
      requires 0 <= pid < |pool.view| && f.data[..] == pool.view[pid]
      modifies pool`view, pool.frames`dirty, pool.frames`pin
      ensures pool.Valid() && pool.view == old(pool.view) && 0 <= pid < |pool.view|
      ensures ok <==> slot in Tuples(pool.view[pid])
      ensures ok ==> bytes == Tuples(pool.view[pid])[slot]
      ensures forall x :: Pins(pool.Look(), x) == old(Pins(pool.Look(), x)) - if x == pid then 1 else 0
      ensures Unpinned(old(pool.Look()), pool.Look(), pid)
    {
      ghost var p := pool.Look();
      ok, bytes := GetTuple(f.data, slot);
      assert pool.Look() == p;
      Release(pid);
    }

    /** Unpins a page that was only read. */
    method Release(pid: int)
      requires pool.Valid() && pid in pool.table && Pins(pool.Look(), pid) > 0
      modifies pool`view, pool.frames`dirty, pool.frames`pin
      ensures pool.Valid() && pool.view == old(pool.view)
      ensures forall x :: Pins(pool.Look(), x) == old(Pins(pool.Look(), x)) - if x == pid then 1 else 0
      ensures Unpinned(old(pool.Look()), pool.Look(), pid)
    {
      CachedPage(pool.Look(), pool.view, pid);
      OpenUnchanged(pool.Look(), pool.view, pid);
      ghost var view := pool.view;
      pool.UnpinPage(pid, false);
      assert pool.view == view;
    }

    /** A page nobody wrote to counts as open, too. */
    lemma OpenUnchanged(p: Pool, v: seq<Bytes>, id: int)
      requires Holds(p, v, -1)
      ensures Holds(p, v, id)
    {
      forall i | 0 <= i < |p.frames|
        ensures FrameOk(p, v, id, i)
      {
        assert FrameOk(p, v, -1, i);
      }
    }

    method EraseInBuffer(f: Frame, pid: int, slot: int)
      requires Pinned(f, pid) && AllLaid(pool.view)
      modifies f.data
      ensures Open(f, pid) && pool.view == old(pool.view) && TakenOff(pool.view[pid], f.data[..], slot)
      ensures forall x :: Pins(pool.Look(), x) == old(Pins(pool.Look(), x))
      ensures AllPinned(pool.Look()) <==> old(AllPinned(pool.Look()))
    {
      ghost var p := pool.Look();
      CachedPage(p, pool.view, pid);
      assert f.Read() == p.frames[p.table[pid]];
      EraseTuple(f.data, slot);
      AfterWriting(p, f, pid);
    }

    /** The page of a pinned frame loses the tuple. */
    method ErasePinned(f: Frame, pid: int, slot: int)
      requires Pinned(f, pid) && AllLaid(pool.view) && Pins(pool.Look(), pid) > 0
      modifies pool`view, pool.frames`dirty, pool.frames`pin, f.data
      ensures pool.Valid() && 0 <= pid < |pool.view| == old(|pool.view|)
      ensures TakenOff(old(pool.view[pid]), pool.view[pid], slot) && pool.view == old(pool.view)[pid := pool.view[pid]]
      ensures forall x :: Pins(pool.Look(), x) == old(Pins(pool.Look(), x)) - if x == pid then 1 else 0
      ensures Unpinned(old(pool.Look()), pool.Look(), pid)
    {
      EraseInBuffer(f, pid, slot);
      pool.UnpinPage(pid, true);
    }

    /** Deletes the tuple behind a row id, if there is one. */
    method Erase(rid: RowId) returns (ok: bool)
      requires pool.Valid() && AllLaid(pool.view)
      modifies pool, pool.frames, pool.Buffers()
      ensures pool.Valid() && |pool.view| == old(|pool.view|)
      ensures ok ==> Removed(old(pool.view), pool.view, rid)
      ensures !ok ==> pool.view == old(pool.view)
      ensures ok <==> rid.page == -1 || rid.slot < 0 || old(CanFetch(rid.page))
      ensures !old(AllPinned(pool.Look())) && ok ==> !AllPinned(pool.Look())
      ensures forall x :: Pins(pool.Look(), x) == old(Pins(pool.Look(), x))
    {
      if rid.page == -1 || rid.slot < 0 { return true; }
      ghost var view, p0 := pool.view, pool.Look();
      var fetched := pool.FetchPage(rid.page);
      if !fetched.Page? { return false; }
      ghost var p1 := pool.Look();
      ErasePinned(fetched.frame, rid.page, rid.slot);
      PinAndRelease(p0, p1, pool.Look(), rid.page);
      TakeOffRemoves(view, rid.page, pool.view[rid.page], rid.slot);
      ok := true;
    }

    /** Lists the live tuples page by page, slot by slot; one page is pinned at a time. */
    method Scan() returns (ok: bool, out: seq<Entry>)
      requires Valid()
      modifies pool, pool.frames, pool.Buffers()
      ensures Valid() && pool.view == old(pool.view)
      ensures if ok then out == Entries(pool.view, pages, 0) && DistinctIds(out) else old(AllPinned(pool.Look()))
      ensures Kept(old(pool.Look()), pool.Look())
    {
      out := [];
      ghost var p0 := pool.Look();
      assert ListedUpTo(pool.view, pages, 0, out);
      var i := 0;
      while i < |pages|
        invariant i <= |pages| && Valid() && pool.view == old(pool.view)
        invariant ListedUpTo(pool.view, pages, i, out)
        invariant Kept(p0, pool.Look())
      {
        ok, out := ListPage(i, out, p0);
        if !ok { return; }
        i := i + 1;
      }
      AllListed(pool.view, pages, out);
      EntriesDistinct(pool.view, pages, 0);
      ok := true;
    }

    /** Appends the tuples of one page to what is listed already. */
    method ListPage(i: nat, listed: seq<Entry>, ghost p0: Pool) returns (ok: bool, out: seq<Entry>)
      requires Valid() && i < |pages| && Kept(p0, pool.Look()) && ListedUpTo(pool.view, pages, i, listed)
      modifies pool, pool.frames, pool.Buffers()
      ensures Valid() && pool.view == old(pool.view) && Kept(p0, pool.Look())
      ensures if ok then ListedUpTo(pool.view, pages, i + 1, out) else AllPinned(p0)
    {
      ghost var p := pool.Look();
      var entries;
      ok, entries := ScanPage(pages[i]);
      KeptTransitive(p0, p, pool.Look());
      out := listed + entries;
      if ok { ListedPage(listed, pool.view, pages, i); }
    }

    /** What is listed once the first `i` pages are read. */
    ghost predicate ListedUpTo(view: seq<Bytes>, list: seq<int>, i: nat, out: seq<Entry>) {
      && AllLaid(view) && i <= |list| && (forall j :: 0 <= j < |list| ==> 0 <= list[j] < |view|)
      && out + Entries(view, list, i) == Entries(view, list, 0)
    }

    lemma ListedPage(out: seq<Entry>, view: seq<Bytes>, list: seq<int>, i: nat)
      requires ListedUpTo(view, list, i, out) && i < |list|
      ensures ListedUpTo(view, list, i + 1, out + PageEntries(view[list[i]], list[i], 0))
    {
      var here, rest := PageEntries(view[list[i]], list[i], 0), Entries(view, list, i + 1);
      assert out + here + rest == out + (here + rest);
    }

    lemma AllListed(view: seq<Bytes>, list: seq<int>, out: seq<Entry>)
      requires ListedUpTo(view, list, |list|, out)
      ensures out == Entries(view, list, 0)
    {
    }

    method ScanPage(pid: int) returns (ok: bool, entries: seq<Entry>)
      requires pool.Valid() && AllLaid(pool.view) && 0 <= pid < |pool.view|
      modifies pool, pool.frames, pool.Buffers()
      ensures pool.Valid() && pool.view == old(pool.view)
      ensures ok ==> entries == PageEntries(pool.view[pid], pid, 0)
      ensures !ok ==> old(AllPinned(pool.Look()))
      ensures Kept(old(pool.Look()), pool.Look())
    {
      ghost var p0 := pool.Look();
      var fetched := pool.FetchPage(pid);
      if !fetched.Page? { return false, []; }
      ghost var p1 := pool.Look();
      entries := ScanPinned(fetched.frame, pid);
      PinAndRelease(p0, p1, pool.Look(), pid);
      assert Kept(p0, pool.Look());
      ok := true;
    }

    /** Lists the tuples of a pinned page and unpins it. */
    method ScanPinned(f: Frame, pid: int) returns (entries: seq<Entry>)
      requires Pinned(f, pid) && AllLaid(pool.view) && Pins(pool.Look(), pid) > 0
      requires 0 <= pid < |pool.view| && f.data[..] == pool.view[pid]
      modifies pool`view, pool.frames`dirty, pool.frames`pin
      ensures pool.Valid() && pool.view == old(pool.view) && 0 <= pid < |pool.view|
      ensures entries == PageEntries(pool.view[pid], pid, 0)
      ensures forall x :: Pins(pool.Look(), x) == old(Pins(pool.Look(), x)) - if x == pid then 1 else 0
      ensures Unpinned(old(pool.Look()), pool.Look(), pid)
    {
      ghost var p := pool.Look();
      entries := ReadEntries(f.data, pid);
      assert pool.Look() == p;
      Release(pid);
    }

    lemma ListedSlot(out: seq<Entry>, b: Bytes, pid: int, s: nat)
      requires IsPage(b) && s < NumSlots(b)
      ensures out + PageEntries(b, pid, s) ==
        (if s in Tuples(b) then out + [(RowId(pid, s), Tuples(b)[s])] else out) + PageEntries(b, pid, s + 1)
    {
      var tuples := Tuples(b);
      var head := if s in tuples then [(RowId(pid, s), tuples[s])] else [];
      Regroup(out, head, PageEntries(b, pid, s + 1));
      assert PageEntries(b, pid, s) == head + PageEntries(b, pid, s + 1);
    }

    lemma Regroup(out: seq<Entry>, head: seq<Entry>, rest: seq<Entry>)
      ensures out + (head + rest) == (out + head) + rest
      ensures head == [] ==> out + head == out
    {
    }

    method ReadEntries(a: array<Byte>, pid: int) returns (entries: seq<Entry>)
      requires a.Length == PAGE_SIZE && Laid(a[..])
      ensures entries == PageEntries(a[..], pid, 0)
    {
      entries := [];
      ghost var b := a[..];
      var n := Read16(a, 0);
      var s := 0;
      while s < n
        invariant s <= n == NumSlots(b) && a[..] == b
        invariant entries + PageEntries(b, pid, s) == PageEntries(b, pid, 0)
      {
        ListedSlot(entries, b, pid, s);
        var ok, bytes := GetTuple(a, s);
        if ok { entries := entries + [(RowId(pid, s), bytes)]; }
        s := s + 1;
      }
    }
  }
}
