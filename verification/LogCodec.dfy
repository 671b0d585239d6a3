/** The bytes of the write-ahead log: length-prefixed records, appended and read back. A crash may
    leave any prefix of what was appended. */
module LogCodec {

  type Byte = x: int | 0 <= x < 256
  type Bytes = seq<Byte>

  const TWO16 := 0x1_0000
  const TWO32 := 0x1_0000_0000
  const TWO63 := 0x8000_0000_0000_0000
  const TWO64 := 0x1_0000_0000_0000_0000
  type Int64 = x: int | -TWO63 <= x < TWO63

  /** The fields of a record; `kind` is the byte of the enumeration. */
  datatype LogRecord = LogRecord(kind: Byte, txid: Int64, pk: Int64, table: Bytes, image: Bytes)

  // ------------------------------------------------------------------ fixed-width fields

  function Pow256(k: nat): nat {
    if k == 0 then 1 else 256 * Pow256(k - 1)
  }

  /** The low `k` bytes of a number, least significant first. */
  function Le(n: nat, k: nat): (b: Bytes)
    ensures |b| == k
  {
    if k == 0 then [] else [n % 256] + Le(n / 256, k - 1)
  }

  function FromLe(b: Bytes): nat {
    if b == [] then 0 else b[0] + 256 * FromLe(b[1..])
  }

  lemma {:induction false} LeRoundTrip(n: nat, k: nat)
    requires n < Pow256(k)
    ensures FromLe(Le(n, k)) == n
  {
    if k > 0 {
      LeRoundTrip(n / 256, k - 1);
      assert Le(n, k)[1..] == Le(n / 256, k - 1);
    }
  }

  lemma Widths()
    ensures Pow256(2) == TWO16 && Pow256(4) == TWO32 && Pow256(8) == TWO64
  {
    assert Pow256(2) == 256 * (256 * Pow256(0));
    assert Pow256(4) == 256 * (256 * Pow256(2));
    assert Pow256(6) == 256 * (256 * Pow256(4));
    assert Pow256(8) == 256 * (256 * Pow256(6));
  }

  function Unsigned(x: Int64): nat {
    if x < 0 then x + TWO64 else x
  }

  function Signed(n: nat): Int64
    requires n < TWO64
  {
    if n >= TWO63 then n - TWO64 else n
  }

  // ------------------------------------------------------------------ encoding

  /** The bytes of a record without its length: the lengths of table name and image are cut to 16 and 32
      bits, and only that many of their bytes are written. */
  function Body(r: LogRecord): (b: Bytes) {
    var t := |r.table| % TWO16;
    var i := |r.image| % TWO32;
    [r.kind] + Le(Unsigned(r.txid), 8) + Le(Unsigned(r.pk), 8) + Le(t, 2) + r.table[..t] + Le(i, 4) + r.image[..i]
  }

  function Encode(r: LogRecord): Bytes {
    Le(|Body(r)| % TWO32, 4) + Body(r)
  }

  function EncodeAll(rs: seq<LogRecord>): Bytes {
    if rs == [] then [] else Encode(rs[0]) + EncodeAll(rs[1..])
  }

  /** What the widths of the length fields allow. */
  predicate FieldsFit(r: LogRecord) {
    |r.table| < TWO16 && |r.image| < TWO32
  }

  predicate Fits(r: LogRecord) {
    FieldsFit(r) && |Body(r)| < TWO32
  }

  // ------------------------------------------------------------------ decoding

  datatype Decoded = Record(record: LogRecord) | OutOfBounds

  /** `substr`: at most `n` bytes from `off` on. */
  function Sub(b: Bytes, off: nat, n: nat): Bytes
    requires off <= |b|
  {
    b[off..if off + n <= |b| then off + n else |b|]
  }

  /** The fields read one after another; a field beyond the end of the body is undefined or throws. */
  function DecodeBody(b: Bytes): Decoded {
    if |b| < 19 then OutOfBounds
    else
      var tlen := FromLe(b[17..19]);
      if 19 + tlen + 4 > |b| then OutOfBounds
      else
        var off := 19 + tlen;
        var ilen := FromLe(b[off..off + 4]);
        FieldBounds(b);
        Record(LogRecord(b[0], Signed(FromLe(b[1..9])), Signed(FromLe(b[9..17])), Sub(b, 19, tlen),
          Sub(b, off + 4, ilen)))
  }

  lemma {:induction false} FromLeBound(b: Bytes)
    ensures FromLe(b) < Pow256(|b|)
  {
    if b != [] { FromLeBound(b[1..]); }
  }

  lemma FieldBounds(b: Bytes)
    requires |b| >= 19
    ensures FromLe(b[1..9]) < TWO64 && FromLe(b[9..17]) < TWO64
  {
    Widths();
    FromLeBound(b[1..9]);
    FromLeBound(b[9..17]);
  }

  /** Everything the reader makes of a file. */
  datatype Contents = Records(records: seq<LogRecord>) | Undefined

  /** The records read so far and what the rest of the file gives. */
  function Then(recs: seq<LogRecord>, rest: Contents): Contents {
    match rest
    case Undefined => Undefined
    case Records(rs) => Records(recs + rs)
  }

  function OneRecord(d: Decoded, rest: Contents): Contents {
    match d
    case OutOfBounds => Undefined
    case Record(r) => Then([r], rest)
  }

  function DecodeFile(file: Bytes): Contents
    decreases |file|
  {
    if |file| < 4 then Records([])
    else
      var total := FromLe(file[..4]);
      if |file| - 4 < total then Records([])
      else
        OneRecord(DecodeBody(file[4..4 + total]), DecodeFile(file[4 + total..]))
  }

  // ------------------------------------------------------------------ the log file

  class WriteAheadLog {
    var file: Bytes

    constructor ()
      ensures file == []
    {
      file := [];
    }

    /** The record is packed into a buffer field by field, then written behind its length. */
    method Append(rec: LogRecord)
      modifies this
      ensures file == old(file) + Encode(rec)
    {
      var body: Bytes := [rec.kind];
      body := body + Le(Unsigned(rec.txid), 8);
      body := body + Le(Unsigned(rec.pk), 8);
      var tlen := |rec.table| % TWO16;
      body := body + Le(tlen, 2);
      body := body + rec.table[..tlen];
      var ilen := |rec.image| % TWO32;
      body := body + Le(ilen, 4);
      body := body + rec.image[..ilen];
      assert body == Body(rec);
      var total := |body| % TWO32;
      file := file + Le(total, 4);
      file := file + body;
    }

    /** Reads record after record until the file ends, or ends in the middle of one. */
    method ReadAll() returns (r: Contents)
      ensures r == DecodeFile(file)
    {
      var recs: seq<LogRecord> := [];
      var pos := 0;
      assert file[0..] == file;
      while pos + 4 <= |file|
        invariant pos <= |file| && DecodeFile(file) == Then(recs, DecodeFile(file[pos..]))
        decreases |file| - pos
      {
        FileStep(file, pos);
        var total := FromLe(file[pos..pos + 4]);
        if |file| - pos - 4 < total {
          assert recs + [] == recs;
          return Records(recs);
        }
        var body := file[pos + 4..pos + 4 + total];
        match DecodeBody(body) {
          case OutOfBounds => return Undefined;
          case Record(rec) =>
            ThenThen(recs, [rec], DecodeFile(file[pos + 4 + total..]));
            recs := recs + [rec];
        }
        pos := pos + 4 + total;
      }
      assert recs + [] == recs;
      r := Records(recs);
    }
  }

  lemma ThenThen(a: seq<LogRecord>, b: seq<LogRecord>, c: Contents)
    ensures Then(a, Then(b, c)) == Then(a + b, c)
  {
    if c.Records? { assert a + (b + c.records) == a + b + c.records; }
  }

  /** One record of the file, read in place. */
  lemma FileStep(file: Bytes, pos: nat)
    requires pos + 4 <= |file|
    ensures var total := FromLe(file[pos..pos + 4]);
            DecodeFile(file[pos..]) ==
              if |file| - pos - 4 < total then Records([])
              else OneRecord(DecodeBody(file[pos + 4..pos + 4 + total]), DecodeFile(file[pos + 4 + total..]))
  {
    var rest := file[pos..];
    assert rest[..4] == file[pos..pos + 4];
    var total := FromLe(rest[..4]);
    if |rest| - 4 >= total {
      assert rest[4..4 + total] == file[pos + 4..pos + 4 + total];
      assert rest[4 + total..] == file[pos + 4 + total..];
    }
  }

  // ------------------------------------------------------------------ reading back what was appended

  lemma Middle(a: Bytes, b: Bytes, c: Bytes)
    ensures (a + b + c)[|a|..|a| + |b|] == b
  {
  }

  /** Where the fields of a body stand. */
  predicate FieldsAt(b: Bytes, kind: Byte, x: Bytes, p: Bytes, m: Bytes, t: Bytes, n: Bytes, i: Bytes) {
    var off := 19 + |t|;
    && |b| == off + 4 + |i| && b[0] == kind && b[1..9] == x && b[9..17] == p
    && b[17..19] == m && b[19..off] == t && b[off..off + 4] == n && b[off + 4..] == i
  }

  lemma BodyLayout(r: LogRecord)
    requires FieldsFit(r)
    ensures FieldsAt(Body(r), r.kind, Le(Unsigned(r.txid), 8), Le(Unsigned(r.pk), 8), Le(|r.table|, 2), r.table,
                     Le(|r.image|, 4), r.image)
  {
    BodyUncut(r);
    FieldLayout(r.kind, Le(Unsigned(r.txid), 8), Le(Unsigned(r.pk), 8), Le(|r.table|, 2), r.table, Le(|r.image|, 4),
      r.image);
  }

  /** The least significant byte comes first, and negative numbers are complements. */
  lemma ExampleFields()
    ensures Le(1, 2) == [1, 0] && Le(1, 4) == [1, 0, 0, 0] && Le(25, 4) == [25, 0, 0, 0]
    ensures Le(Unsigned(258), 8) == [2, 1, 0, 0, 0, 0, 0, 0]
    ensures Le(Unsigned(-1), 8) == [255, 255, 255, 255, 255, 255, 255, 255]
  {
    Twice255(0xffff, 2);
    Twice255(0xffff_ffff, 4);
    Twice255(0xffff_ffff_ffff, 6);
    Twice255(0xffff_ffff_ffff_ffff, 8);
  }

  lemma Twice255(n: nat, k: nat)
    requires k >= 2 && n % 0x1_0000 == 0xffff
    ensures Le(n, k) == [255, 255] + Le(n / 0x1_0000, k - 2)
  {
    assert n % 256 == 255 && n / 256 % 256 == 255 && n / 256 / 256 == n / 0x1_0000;
    assert Le(n, k) == [255] + Le(n / 256, k - 1);
    assert Le(n / 256, k - 1) == [255] + Le(n / 0x1_0000, k - 2);
  }

  /** For example: a length of 25, kind 1, transaction 258, key -1, table "t" and an image of one byte. */
  lemma ExampleRecord()
    ensures Encode(LogRecord(1, 258, -1, [116], [7])) ==
      [25, 0, 0, 0] + ([1] + [2, 1, 0, 0, 0, 0, 0, 0] + [255, 255, 255, 255, 255, 255, 255, 255]
                       + [1, 0] + [116] + [1, 0, 0, 0] + [7])
  {
    var r := LogRecord(1, 258, -1, [116], [7]);
    ExampleFields();
    BodyUncut(r);
    assert |r.table| == 1 && |r.image| == 1;
  }

  lemma BodyUncut(r: LogRecord)
    requires FieldsFit(r)
    ensures Body(r) ==
      [r.kind] + Le(Unsigned(r.txid), 8) + Le(Unsigned(r.pk), 8) + Le(|r.table|, 2) + r.table + Le(|r.image|,
        4) + r.image
  {
    FullPrefix(r.table, |r.table| % TWO16);
    FullPrefix(r.image, |r.image| % TWO32);
  }

  lemma FieldLayout(kind: Byte, x: Bytes, p: Bytes, m: Bytes, t: Bytes, n: Bytes, i: Bytes)
    requires |x| == 8 && |p| == 8 && |m| == 2 && |n| == 4
    ensures FieldsAt([kind] + x + p + m + t + n + i, kind, x, p, m, t, n, i)
  {
    var k := [kind];
    var b := k + x + p + m + t + n + i;
    assert b == k + x + p + m + (t + n + i);
    HeadLayout(k, x, p, m, t + n + i);
    TailLayout(k + x + p + m, t, n, i);
  }

  lemma HeadLayout(k: Bytes, x: Bytes, p: Bytes, m: Bytes, tail: Bytes)
    requires |k| == 1 && |x| == 8 && |p| == 8 && |m| == 2
    ensures var b := k + x + p + m + tail;
            b[0] == k[0] && b[1..9] == x && b[9..17] == p && b[17..19] == m
  {
    var b := k + x + p + m + tail;
    assert b == k + x + (p + m + tail);
    Middle(k, x, p + m + tail);
    assert b == (k + x) + p + (m + tail);
    Middle(k + x, p, m + tail);
    Middle(k + x + p, m, tail);
  }

  lemma TailLayout(head: Bytes, t: Bytes, n: Bytes, i: Bytes)
    requires |head| == 19 && |n| == 4
    ensures var b := head + t + n + i; var off := 19 + |t|;
            |b| == off + 4 + |i| && b[19..off] == t && b[off..off + 4] == n && b[off + 4..] == i
  {
    var b := head + t + n + i;
    assert b == head + t + (n + i);
    Middle(head, t, n + i);
    Middle(head + t, n, i);
  }

  /** Reading fields that stand where they should. */
  lemma DecodeFields(b: Bytes, r: LogRecord)
    requires FieldsFit(r)
    requires var off := 19 + |r.table|;
             && |b| == off + 4 + |r.image| && b[0] == r.kind
             && FromLe(b[1..9]) == Unsigned(r.txid) && FromLe(b[9..17]) == Unsigned(r.pk)
             && FromLe(b[17..19]) == |r.table| && b[19..off] == r.table
             && FromLe(b[off..off + 4]) == |r.image| && b[off + 4..] == r.image
    ensures DecodeBody(b) == Record(r)
  {
  }

  lemma BodyRoundTrip(r: LogRecord)
    requires FieldsFit(r)
    ensures DecodeBody(Body(r)) == Record(r)
  {
    BodyLayout(r);
    Widths();
    LeRoundTrip(Unsigned(r.txid), 8);
    LeRoundTrip(Unsigned(r.pk), 8);
    LeRoundTrip(|r.table|, 2);
    LeRoundTrip(|r.image|, 4);
    DecodeFields(Body(r), r);
  }

  lemma Slices(frame: Bytes, body: Bytes, rest: Bytes, n: nat)
    requires |frame| == 4 && n <= 4 + |body| + |rest|
    ensures var file := (frame + body + rest)[..n];
            && (n >= 4 ==> file[..4] == frame)
            && (n >= 4 + |body| ==> file[4..4 + |body|] == body && file[4 + |body|..] == rest[..n - (4 + |body|)])
  {
    var whole := frame + body + rest;
    if n >= 4 { assert whole[..n][..4] == whole[..4] == frame; }
    if n >= 4 + |body| {
      assert whole[..n][4..4 + |body|] == whole[4..4 + |body|] == body;
      assert whole[..n][4 + |body|..] == rest[..n - (4 + |body|)];
    }
  }

  /** A file that begins with a length and a body, cut within them or behind. */
  lemma CutFrame(frame: Bytes, body: Bytes, r: LogRecord, rest: Bytes, n: nat)
    requires |frame| == 4 && FromLe(frame) == |body| && DecodeBody(body) == Record(r)
    requires n <= 4 + |body| + |rest|
    ensures Cut(frame + body, r, rest, n)
  {
    Slices(frame, body, rest, n);
  }

  /** Cutting a file that begins with the bytes `a` of a record: the record is read if it is whole. */
  predicate Cut(a: Bytes, r: LogRecord, rest: Bytes, n: nat)
    requires n <= |a| + |rest|
  {
    DecodeFile((a + rest)[..n]) == if n < |a| then Records([]) else Then([r], DecodeFile(rest[..n - |a|]))
  }

  lemma EncodeFrame(r: LogRecord)
    requires Fits(r)
    ensures Encode(r) == Le(|Body(r)|, 4) + Body(r)
  {
    assert |Body(r)| % TWO32 == |Body(r)|;
  }

  /** A file that begins with a record, cut within it or behind it. */
  lemma CutRecord(r: LogRecord, rest: Bytes, n: nat)
    requires Fits(r) && n <= |Encode(r)| + |rest|
    ensures Cut(Encode(r), r, rest, n)
  {
    BodyRoundTrip(r);
    EncodeFrame(r);
    CutBody(Body(r), r, rest, n);
  }

  lemma CutBody(body: Bytes, r: LogRecord, rest: Bytes, n: nat)
    requires |body| < TWO32 && DecodeBody(body) == Record(r) && n <= 4 + |body| + |rest|
    ensures Cut(Le(|body|, 4) + body, r, rest, n)
  {
    Widths();
    LeRoundTrip(|body|, 4);
    CutFrame(Le(|body|, 4), body, r, rest, n);
  }

  /** How many records lie wholly within the first `n` bytes. */
  function Whole(rs: seq<LogRecord>, n: int): nat {
    if rs == [] || n < |Encode(rs[0])| then 0 else 1 + Whole(rs[1..], n - |Encode(rs[0])|)
  }

  lemma {:induction false} WholeIsMaximal(rs: seq<LogRecord>, n: nat)
    ensures Whole(rs, n) <= |rs| && |EncodeAll(rs[..Whole(rs, n)])| <= n
    ensures Whole(rs, n) < |rs| ==> |EncodeAll(rs[..Whole(rs, n) + 1])| > n
  {
    if rs != [] && n >= |Encode(rs[0])| {
      WholeIsMaximal(rs[1..], n - |Encode(rs[0])|);
      var k := Whole(rs, n);
      assert rs[..k][1..] == rs[1..][..k - 1];
      if k < |rs| { assert rs[..k + 1][1..] == rs[1..][..k]; }
    } else {
      assert rs[..0] == [];
      if rs != [] {
        assert rs[..1][1..] == [];
        assert EncodeAll(rs[..1]) == Encode(rs[0]) + EncodeAll(rs[..1][1..]);
      }
    }
  }

  /** A torn tail costs nothing but the torn record: on any prefix of the appended log, the reader
      returns exactly the records that lie wholly within it, in order. */
  lemma {:induction false} TornTail(rs: seq<LogRecord>, n: nat)
    requires (forall k :: 0 <= k < |rs| ==> Fits(rs[k])) && n <= |EncodeAll(rs)|
    ensures Whole(rs, n) <= |rs| && DecodeFile(EncodeAll(rs)[..n]) == Records(rs[..Whole(rs, n)])
    decreases |rs|
  {
    if rs != [] {
      CutRecord(rs[0], EncodeAll(rs[1..]), n);
      if n >= |Encode(rs[0])| {
        TornTail(rs[1..], n - |Encode(rs[0])|);
        TornStep(Encode(rs[0]), EncodeAll(rs[1..]), rs, n, Whole(rs, n));
      }
    }
  }

  lemma TornStep(a: Bytes, rest: Bytes, rs: seq<LogRecord>, n: nat, k: nat)
    requires rs != [] && |a| <= n <= |a| + |rest| && Cut(a, rs[0], rest, n)
    requires 0 < k <= |rs| && DecodeFile(rest[..n - |a|]) == Records(rs[1..][..k - 1])
    ensures DecodeFile((a + rest)[..n]) == Records(rs[..k])
  {
    OneMore(rs, k);
  }

  lemma OneMore(rs: seq<LogRecord>, k: nat)
    requires 0 < k <= |rs|
    ensures rs[..k] == [rs[0]] + rs[1..][..k - 1]
  {
  }

  lemma WholeLog(rs: seq<LogRecord>)
    requires forall k :: 0 <= k < |rs| ==> Fits(rs[k])
    ensures DecodeFile(EncodeAll(rs)) == Records(rs)
  {
    AllWhole(rs);
    TornTail(rs, |EncodeAll(rs)|);
    FullPrefix(EncodeAll(rs), |EncodeAll(rs)|);
    FullPrefix(rs, Whole(rs, |EncodeAll(rs)|));
  }

  lemma FullPrefix<T>(s: seq<T>, n: nat)
    requires n == |s|
    ensures s[..n] == s
  {
  }

  lemma {:induction false} AllWhole(rs: seq<LogRecord>)
    ensures Whole(rs, |EncodeAll(rs)|) == |rs|
  {
    if rs != [] { AllWhole(rs[1..]); }
  }

  /** A decoded record never exceeds the widths, nor its body. */
  lemma DecodedFits(b: Bytes)
    ensures DecodeBody(b).Record? ==> FieldsFit(DecodeBody(b).record) && |DecodeBody(b).record.image| <= |b|
  {
    if DecodeBody(b).Record? {
      Widths();
      FromLeBound(b[17..19]);
      var off := 19 + FromLe(b[17..19]);
      FromLeBound(b[off..off + 4]);
    }
  }

  /** The widths are exactly what it takes: a record comes back from the log if and only if its table
      name is shorter than 2^16 bytes, its image shorter than 2^32 and its whole body shorter than 2^32. */
  lemma ReadsBackIff(r: LogRecord)
    ensures DecodeFile(Encode(r)) == Records([r]) <==> Fits(r)
  {
    if Fits(r) { ReadsBack(r); }
    if DecodeFile(Encode(r)) == Records([r]) { OnlyIfFits(r); }
  }

  lemma ReadsBack(r: LogRecord)
    requires Fits(r)
    ensures DecodeFile(Encode(r)) == Records([r])
  {
    var file := Encode(r);
    CutRecord(r, [], |file|);
    assert (file + [])[..|file|] == file;
    assert [r] + [] == [r];
  }

  lemma OnlyIfFits(r: LogRecord)
    requires DecodeFile(Encode(r)) == Records([r])
    ensures Fits(r)
  {
    var total := |Body(r)| % TWO32;
    Widths();
    LeRoundTrip(total, 4);
    assert Encode(r)[..4] == Le(total, 4);
    var body := Encode(r)[4..4 + total];
    FirstDecoded(Encode(r), total, r);
    DecodedFits(body);
    ShortImage(r, total);
  }

  /** The first record of a file that decodes to exactly one record. */
  lemma FirstDecoded(file: Bytes, total: nat, r: LogRecord)
    requires |file| >= 4 && total == FromLe(file[..4]) && total <= |file| - 4 && DecodeFile(file) == Records([r])
    ensures DecodeBody(file[4..4 + total]) == Record(r)
  {
    FirstIs(DecodeBody(file[4..4 + total]), DecodeFile(file[4 + total..]), r);
  }

  lemma FirstIs(d: Decoded, rest: Contents, r: LogRecord)
    ensures OneRecord(d, rest) == Records([r]) ==> d == Record(r)
  {
    if d.Record? && rest.Records? {
      assert ([d.record] + rest.records)[0] == d.record;
      assert [r][0] == r;
    }
  }

  lemma ShortImage(r: LogRecord, total: nat)
    requires FieldsFit(r) && |r.image| <= total && total == |Body(r)| % TWO32
    ensures |Body(r)| < TWO32
  {
    BodyLayout(r);
    assert |Body(r)| < 2 * TWO32;
  }
}
