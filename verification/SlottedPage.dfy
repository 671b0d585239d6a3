/** The slotted page: a byte buffer with a header, a slot directory that grows upwards and tuple bytes
    that grow downwards, edited in place. */
module SlottedPage {

  type Byte = x: int | 0 <= x < 256
  type Bytes = seq<Byte>

  const PAGE_SIZE := 4096
  const HEADER_SIZE := 4
  const SLOT_SIZE := 4

  // ------------------------------------------------------------------ reading a page

  function U16(b: Bytes, at: nat): (v: nat)
    requires at + 2 <= |b|
    ensures v < 0x1_0000
  {
    b[at] as int + 256 * (b[at + 1] as int)
  }

  function NumSlots(b: Bytes): nat
    requires |b| == PAGE_SIZE
  {
    U16(b, 0)
  }

  /** Where the tuple region begins; zero on a page that was never written. */
  function FreePtr(b: Bytes): nat
    requires |b| == PAGE_SIZE
  {
    U16(b, 2)
  }

  function SlotAt(s: nat): nat {
    HEADER_SIZE + SLOT_SIZE * s
  }

  predicate HasSlot(b: Bytes, s: nat) {
    |b| == PAGE_SIZE && s < NumSlots(b) && SlotAt(s) + SLOT_SIZE <= PAGE_SIZE
  }

  function Offset(b: Bytes, s: nat): nat
    requires HasSlot(b, s)
  {
    U16(b, SlotAt(s))
  }

  function Length(b: Bytes, s: nat): nat
    requires HasSlot(b, s)
  {
    U16(b, SlotAt(s) + 2)
  }

  predicate SlotOk(b: Bytes, s: nat) {
    HasSlot(b, s) && FreePtr(b) <= Offset(b, s) && Offset(b, s) + Length(b, s) <= PAGE_SIZE
  }

  /** The directory ends before the tuples begin, and every slot points into the tuple region. */
  predicate Formatted(b: Bytes) {
    && |b| == PAGE_SIZE
    && SlotAt(NumSlots(b)) <= FreePtr(b) <= PAGE_SIZE
    && forall s :: 0 <= s < NumSlots(b) ==> SlotOk(b, s)
  }

  /** A page of the data file: formatted, or still all zeros in its header. */
  predicate Laid(b: Bytes) {
    |b| == PAGE_SIZE && (Formatted(b) || (NumSlots(b) == 0 && FreePtr(b) == 0))
  }

  predicate IsLive(b: Bytes, s: int) {
    0 <= s && HasSlot(b, s) && Length(b, s) > 0 && SlotOk(b, s)
  }

  /** The bytes of a live tuple. */
  function TupleAt(b: Bytes, s: nat): Bytes
    requires IsLive(b, s)
  {
    b[Offset(b, s)..Offset(b, s) + Length(b, s)]
  }

  /** What a page stands for: its live tuples by slot. */
  function Tuples(b: Bytes): map<int, Bytes>
    requires |b| == PAGE_SIZE
  {
    map s | 0 <= s < NumSlots(b) && IsLive(b, s) :: TupleAt(b, s)
  }

  /** Room for one more tuple of `len` bytes and its slot. */
  predicate HasRoom(b: Bytes, len: nat)
    requires |b| == PAGE_SIZE
  {
    FreePtr(b) >= SlotAt(NumSlots(b)) + len + SLOT_SIZE
  }

  // ------------------------------------------------------------------ writing 16-bit fields

  method Write16(a: array<Byte>, at: nat, v: nat)
    requires at + 2 <= a.Length && v < 0x1_0000
    modifies a
    ensures U16(a[..], at) == v
    ensures forall k :: 0 <= k < a.Length && k != at && k != at + 1 ==> a[k] == old(a[k])
  {
    a[at] := v % 256;
    a[at + 1] := v / 256;
  }

  method Read16(a: array<Byte>, at: nat) returns (v: nat)
    requires at + 2 <= a.Length
    ensures v == U16(a[..], at)
  {
    v := a[at] as int + 256 * (a[at + 1] as int);
  }

  /** Copies the tuple into the page. */
  method CopyIn(a: array<Byte>, at: nat, src: Bytes)
    requires at + |src| <= a.Length
    modifies a
    ensures a[at..at + |src|] == src
    ensures forall k :: 0 <= k < a.Length && !(at <= k < at + |src|) ==> a[k] == old(a[k])
  {
    var i := 0;
    while i < |src|
      invariant i <= |src| && a[at..at + i] == src[..i]
      invariant forall k :: 0 <= k < a.Length && !(at <= k < at + i) ==> a[k] == old(a[k])
    {
      a[at + i] := src[i];
      i := i + 1;
    }
  }

  // ------------------------------------------------------------------ the operations

  /** Formats a page: no slots, and all of it free. */
  method Init(a: array<Byte>)
    requires a.Length == PAGE_SIZE
    modifies a
    ensures Formatted(a[..]) && NumSlots(a[..]) == 0 && FreePtr(a[..]) == PAGE_SIZE && Tuples(a[..]) == map[]
  {
    Write16(a, 0, 0);
    Write16(a, 2, PAGE_SIZE);
  }

  /** Free bytes, in 16-bit arithmetic; zero when the header makes no sense. */
  method FreeSpace(a: array<Byte>) returns (n: nat)
    requires a.Length == PAGE_SIZE
    ensures n == (var end := SlotAt(NumSlots(a[..])) % 0x1_0000; if FreePtr(a[..]) < end then 0
      else FreePtr(a[..]) - end)
  {
    var slots := Read16(a, 0);
    var free := Read16(a, 2);
    var end := (HEADER_SIZE + slots * SLOT_SIZE) % 0x1_0000;
    n := if free < end then 0 else free - end;
  }

  /** What an insertion leaves: header, one new directory entry and the tuple bytes are written, and
      nothing else. */
  ghost predicate Inserted(b: Bytes, c: Bytes, src: Bytes)
    requires Formatted(b) && HasRoom(b, |src|)
  {
    var n, off := NumSlots(b), FreePtr(b) - |src|;
    && |c| == PAGE_SIZE && NumSlots(c) == n + 1 && FreePtr(c) == off
    && U16(c, SlotAt(n)) == off && U16(c, SlotAt(n) + 2) == |src|
    && c[off..off + |src|] == src
    && (forall k :: HEADER_SIZE <= k < SlotAt(n) ==> c[k] == b[k])
    && (forall k :: FreePtr(b) <= k < PAGE_SIZE ==> c[k] == b[k])
  }

  lemma OldSlotStays(b: Bytes, c: Bytes, src: Bytes, s: nat)
    requires Formatted(b) && HasRoom(b, |src|) && Inserted(b, c, src) && s < NumSlots(b)
    ensures SlotOk(c, s) && Offset(c, s) == Offset(b, s) && Length(c, s) == Length(b, s)
    ensures IsLive(c, s) == IsLive(b, s) && (IsLive(b, s) ==> TupleAt(c, s) == TupleAt(b, s))
  {
    assert SlotOk(b, s);
    assert SlotAt(s) + 4 <= SlotAt(NumSlots(b));
  }

  lemma NewSlot(b: Bytes, c: Bytes, src: Bytes)
    requires Formatted(b) && HasRoom(b, |src|) && Inserted(b, c, src)
    ensures var n := NumSlots(b);
            SlotOk(c, n) && (IsLive(c, n) <==> src != []) && (src != [] ==> TupleAt(c, n) == src)
  {
  }

  lemma InsertKeepsFormat(b: Bytes, c: Bytes, src: Bytes)
    requires Formatted(b) && HasRoom(b, |src|) && Inserted(b, c, src)
    ensures Formatted(c)
  {
    NewSlot(b, c, src);
    forall s | 0 <= s < NumSlots(c)
      ensures SlotOk(c, s)
    {
      if s < NumSlots(b) { OldSlotStays(b, c, src, s); }
    }
  }

  /** An insertion adds one tuple in a slot that was never used; the bytes of all others stay. */
  lemma InsertAddsTuple(b: Bytes, c: Bytes, src: Bytes)
    requires Formatted(b) && HasRoom(b, |src|) && Inserted(b, c, src)
    ensures Formatted(c) && NumSlots(c) == NumSlots(b) + 1
    ensures Tuples(c) == if src == [] then Tuples(b) else Tuples(b)[NumSlots(b) := src]
  {
    var n := NumSlots(b);
    InsertKeepsFormat(b, c, src);
    var after := if src == [] then Tuples(b) else Tuples(b)[n := src];
    forall s: int
      ensures s in Tuples(c) <==> s in after
      ensures s in Tuples(c) ==> Tuples(c)[s] == after[s]
    {
      if s == n { NewSlot(b, c, src); }
      if 0 <= s < n { OldSlotStays(b, c, src, s); }
    }
  }

  /** Inserts a tuple; -1 when there is no room. */
  method InsertTuple(a: array<Byte>, src: Bytes) returns (slot: int)
    requires a.Length == PAGE_SIZE && Formatted(a[..])
    modifies a
    ensures slot == if old(HasRoom(a[..], |src|)) then old(NumSlots(a[..])) else -1
    ensures slot == -1 ==> a[..] == old(a[..])
    ensures slot >= 0 ==> Formatted(a[..]) && NumSlots(a[..]) == slot + 1
    ensures slot >= 0 ==> FreePtr(a[..]) == old(FreePtr(a[..])) - |src|
    ensures slot >= 0 ==> Tuples(a[..]) == if src == [] then old(Tuples(a[..])) else old(Tuples(a[..]))[slot := src]
  {
    ghost var b := a[..];
    var room := FreeSpace(a);
    if room < |src| + SLOT_SIZE { return -1; }
    var free := Read16(a, 2);
    if free < |src| { return -1; }
    var off := free - |src|;
    slot := Read16(a, 0);
    WriteTuple(a, slot, off, src);
    InsertAddsTuple(b, a[..], src);
  }

  /** The room of a page in bytes: each tuple takes its own and four for its slot. */
  lemma RoomInBytes(b: Bytes, len: nat)
    requires |b| == 4096
    ensures HasRoom(b, len) <==> 4 + 4 * (NumSlots(b) + 1) + len <= FreePtr(b)
  {
  }

  /** The layout at an example: one tuple of one byte on a fresh page. Number of slots, begin of the tuples,
      offset and length of the first slot; the tuple stands at the end. */
  method ExamplePage() returns (a: array<Byte>)
    ensures fresh(a) && a.Length == 4096 && a[..8] == [1, 0, 255, 15, 255, 15, 1, 0] && a[4095] == 7
  {
    a := new Byte[PAGE_SIZE](_ => 0);
    Init(a);
    var slot := InsertTuple(a, [7]);
    ghost var b := a[..];
    assert 0 in Tuples(b) && Tuples(b)[0] == [7];
    assert |TupleAt(b, 0)| == 1 && Length(b, 0) == 1 && Offset(b, 0) == 4095;
    assert b[4095] == TupleAt(b, 0)[0];
    assert b[..8] == [b[0], b[1], b[2], b[3], b[4], b[5], b[6], b[7]];
  }

  /** A page just formatted takes exactly the tuples of at most 4088 bytes. */
  method FreshPageTakes(src: Bytes) returns (taken: bool)
    ensures taken <==> |src| <= 4088
  {
    var a := new Byte[PAGE_SIZE](_ => 0);
    Init(a);
    var slot := InsertTuple(a, src);
    taken := slot >= 0;
  }

  method WriteTuple(a: array<Byte>, slot: nat, off: nat, src: Bytes)
    requires a.Length == PAGE_SIZE && Formatted(a[..]) && HasRoom(a[..], |src|)
    requires slot == NumSlots(a[..]) && off == FreePtr(a[..]) - |src|
    modifies a
    ensures Inserted(old(a[..]), a[..], src)
  {
    CopyIn(a, off, src);
    Write16(a, 2, off);
    Write16(a, SlotAt(slot), off);
    Write16(a, SlotAt(slot) + 2, |src|);
    Write16(a, 0, slot + 1);
    assert a[off..off + |src|] == src;
  }

  /** The bytes of a slot; nothing for a slot that is out of range or deleted. */
  method GetTuple(a: array<Byte>, slot: int) returns (ok: bool, bytes: Bytes)
    requires a.Length == PAGE_SIZE && Laid(a[..])
    ensures ok <==> slot in Tuples(a[..])
    ensures ok ==> bytes == Tuples(a[..])[slot]
  {
    bytes := [];
    var n := Read16(a, 0);
    if slot < 0 || slot >= n { return false, bytes; }
    assert SlotOk(a[..], slot);
    var off := Read16(a, SlotAt(slot));
    var len := Read16(a, SlotAt(slot) + 2);
    if len == 0 { return false, bytes; }
    return true, a[off..off + len];
  }

  /** What a deletion leaves: only the length of one slot is written. */
  ghost predicate Erased(b: Bytes, c: Bytes, slot: nat) {
    && HasSlot(b, slot) && |c| == PAGE_SIZE && U16(c, SlotAt(slot) + 2) == 0
    && forall k :: 0 <= k < PAGE_SIZE && k != SlotAt(slot) + 2 && k != SlotAt(slot) + 3 ==> c[k] == b[k]
  }

  lemma EraseSlot(b: Bytes, c: Bytes, slot: nat, s: nat)
    requires Formatted(b) && slot < NumSlots(b) && s < NumSlots(b) && Erased(b, c, slot)
    ensures NumSlots(c) == NumSlots(b) && FreePtr(c) == FreePtr(b)
    ensures SlotOk(c, s) && Offset(c, s) == Offset(b, s) && Length(c, s) == if s == slot then 0 else Length(b, s)
    ensures IsLive(c, s) == (s != slot && IsLive(b, s)) && (IsLive(c, s) ==> TupleAt(c, s) == TupleAt(b, s))
  {
    assert SlotOk(b, s);
    assert s < slot ==> SlotAt(s) + 4 <= SlotAt(slot);
    assert s > slot ==> SlotAt(slot) + 4 <= SlotAt(s);
    assert SlotAt(slot) + 4 <= SlotAt(NumSlots(b)) <= FreePtr(b);
  }

  /** A deletion removes one tuple and no slot. */
  lemma EraseRemovesTuple(b: Bytes, c: Bytes, slot: nat)
    requires Formatted(b) && slot < NumSlots(b) && Erased(b, c, slot)
    ensures Formatted(c) && NumSlots(c) == NumSlots(b) && Tuples(c) == Tuples(b) - {slot as int}
  {
    forall s | 0 <= s < NumSlots(b)
      ensures SlotOk(c, s) && IsLive(c, s) == (s != slot && IsLive(b, s))
        && (IsLive(c, s) ==> TupleAt(c, s) == TupleAt(b, s))
    {
      EraseSlot(b, c, slot, s);
    }
    EraseSlot(b, c, slot, slot);
  }

  method EraseTuple(a: array<Byte>, slot: int)
    requires a.Length == PAGE_SIZE && Laid(a[..])
    modifies a
    ensures Laid(a[..]) && NumSlots(a[..]) == old(NumSlots(a[..]))
    ensures Tuples(a[..]) == old(Tuples(a[..])) - {slot}
  {
    ghost var b := a[..];
    var n := Read16(a, 0);
    if slot < 0 || slot >= n {
      assert slot !in Tuples(b);
      return;
    }
    assert SlotOk(b, slot);
    var off := Read16(a, SlotAt(slot));
    Write16(a, SlotAt(slot), off);
    assert a[..] == b;
    Write16(a, SlotAt(slot) + 2, 0);
    EraseRemovesTuple(b, a[..], slot);
  }
}
