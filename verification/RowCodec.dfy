/** The bytes of a row: integers take eight bytes, texts two bytes of length and their own. The heap is
    told the length of the whole in 16 bits, so a row may be stored cut; a cut row never decodes. */
module RowCodec {
  import opened LogCodec

  datatype Type = INT | TEXT

  /** The types of the columns of a table; the first column is the primary key. */
  type Schema = seq<Type>

  datatype Value = IntValue(i: Int64) | TextValue(s: Bytes)

  predicate IsSchema(cols: Schema) {
    cols != [] && cols[0].INT?
  }

  /** What an INSERT statement is checked for before the row is handed on. */
  predicate Typed(cols: Schema, row: seq<Value>) {
    |row| == |cols| && forall i :: 0 <= i < |cols| ==> (row[i].IntValue? <==> cols[i].INT?)
  }

  predicate TextsFit(row: seq<Value>) {
    forall i :: 0 <= i < |row| && row[i].TextValue? ==> |row[i].s| < TWO16
  }

  // ------------------------------------------------------------------ encoding

  function Field(v: Value): (b: Bytes)
    ensures b != []
  {
    match v
    case IntValue(i) => Le(Unsigned(i), 8)
    case TextValue(s) => Le(|s| % TWO16, 2) + s
  }

  function Fields(row: seq<Value>): Bytes {
    if row == [] then [] else Field(row[0]) + Fields(row[1..])
  }

  lemma {:induction false} FieldsAppend(row: seq<Value>, i: nat)
    requires i < |row|
    ensures Fields(row[..i + 1]) == Fields(row[..i]) + Field(row[i])
  {
    if i > 0 {
      assert row[..i + 1][1..] == row[1..][..i] && row[..i][1..] == row[1..][..i - 1];
      FieldsAppend(row[1..], i - 1);
      Reassociate(Field(row[0]), Fields(row[1..][..i - 1]), Field(row[i]));
    } else {
      assert row[..1] == [row[0]] && row[..0] == [];
      assert Fields([row[0]]) == Field(row[0]) + [];
    }
  }

  lemma Reassociate(a: Bytes, b: Bytes, c: Bytes)
    ensures a + (b + c) == a + b + c
  {
  }

  datatype Encoding = Encoded(bytes: Bytes) | TextTooLong

  /** What is written of the first `i` columns. */
  predicate Written(row: seq<Value>, i: nat, out: Bytes) {
    i <= |row| && TextsFit(row[..i]) && out == Fields(row[..i])
  }

  /** One column after the other; a text that its length field cannot hold ends it with an exception. */
  method Serialize(cols: Schema, row: seq<Value>) returns (r: Encoding)
    requires Typed(cols, row)
    ensures r == if TextsFit(row) then Encoded(Fields(row)) else TextTooLong
  {
    var out: Bytes := [];
    var i := 0;
    while i < |cols|
      invariant i <= |cols| && Written(row, i, out)
    {
      var field: Bytes;
      if cols[i].INT? {
        field := Le(Unsigned(row[i].i), 8);
      } else {
        if |row[i].s| >= TWO16 { return TextTooLong; }
        field := Le(|row[i].s|, 2) + row[i].s;
      }
      WriteField(row, i, out, field);
      out := out + field;
      i := i + 1;
    }
    AllWritten(row, out);
    r := Encoded(out);
  }

  lemma WriteField(row: seq<Value>, i: nat, out: Bytes, field: Bytes)
    requires i < |row| && Written(row, i, out) && field == Field(row[i])
    requires row[i].TextValue? ==> |row[i].s| < TWO16
    ensures Written(row, i + 1, out + field)
  {
    FieldsAppend(row, i);
    TextsFitAppend(row, i);
  }

  lemma AllWritten(row: seq<Value>, out: Bytes)
    requires Written(row, |row|, out)
    ensures TextsFit(row) && out == Fields(row)
  {
    assert row[..|row|] == row;
  }

  lemma TextsFitAppend(row: seq<Value>, i: nat)
    requires i < |row|
    ensures TextsFit(row[..i + 1]) <==> TextsFit(row[..i]) && (row[i].TextValue? ==> |row[i].s| < TWO16)
    ensures TextsFit(row) ==> TextsFit(row[..i + 1])
  {
    assert forall j :: 0 <= j < i ==> row[..i + 1][j] == row[..i][j];
    assert row[..i + 1][i] == row[i];
  }

  // ------------------------------------------------------------------ decoding

  /** `OutOfRange` is the exception of `substr`; a copy from outside the bytes is undefined in C++. */
  datatype Decoding = Decoded(row: seq<Value>) | OutOfRange | ReadOutside

  /** A string may be read up to the zero behind its last byte. */
  function ReadAt(b: Bytes, off: nat, n: nat): nat
    requires off + n <= |b| + 1
  {
    FromLe((b + [0])[off..off + n])
  }

  lemma ReadBound(b: Bytes, off: nat)
    requires off + 8 <= |b| + 1
    ensures ReadAt(b, off, 8) < TWO64
  {
    Widths();
    FromLeBound((b + [0])[off..off + 8]);
  }

  function Prepend(v: Value, rest: Decoding): Decoding {
    match rest
    case Decoded(row) => Decoded([v] + row)
    case _ => rest
  }

  /** The columns from offset `off` on. A text that ends behind the last byte is silently shortened. */
  function DecodeFrom(cols: Schema, b: Bytes, off: nat): Decoding {
    if cols == [] then Decoded([])
    else if cols[0].INT? then
      if off + 8 > |b| + 1 then ReadOutside
      else
        ReadBound(b, off);
        Prepend(IntValue(Signed(ReadAt(b, off, 8))), DecodeFrom(cols[1..], b, off + 8))
    else if off + 2 > |b| + 1 then ReadOutside
    else if off + 2 > |b| then OutOfRange
    else
      var len := ReadAt(b, off, 2);
      Prepend(TextValue(Sub(b, off + 2, len)), DecodeFrom(cols[1..], b, off + 2 + len))
  }

  function Then(row: seq<Value>, rest: Decoding): Decoding {
    match rest
    case Decoded(more) => Decoded(row + more)
    case _ => rest
  }

  method Deserialize(cols: Schema, b: Bytes) returns (r: Decoding)
    ensures r == DecodeFrom(cols, b, 0)
  {
    var row: seq<Value> := [];
    var off: nat := 0;
    var i := 0;
    while i < |cols|
      invariant i <= |cols|
      invariant DecodeFrom(cols, b, 0) == Then(row, DecodeFrom(cols[i..], b, off))
    {
      assert cols[i..][1..] == cols[i + 1..];
      if cols[i].INT? {
        if off + 8 > |b| + 1 { return ReadOutside; }
        ReadBound(b, off);
        OneMore(row, IntValue(Signed(ReadAt(b, off, 8))), DecodeFrom(cols[i + 1..], b, off + 8));
        row := row + [IntValue(Signed(ReadAt(b, off, 8)))];
        off := off + 8;
      } else {
        if off + 2 > |b| + 1 { return ReadOutside; }
        var len := ReadAt(b, off, 2);
        off := off + 2;
        if off > |b| { return OutOfRange; }
        OneMore(row, TextValue(Sub(b, off, len)), DecodeFrom(cols[i + 1..], b, off + len));
        row := row + [TextValue(Sub(b, off, len))];
        off := off + len;
      }
      i := i + 1;
    }
    r := Decoded(row);
  }

  lemma OneMore(row: seq<Value>, v: Value, rest: Decoding)
    ensures Then(row, Prepend(v, rest)) == Then(row + [v], rest)
  {
    if rest.Decoded? { assert row + ([v] + rest.row) == row + [v] + rest.row; }
  }

  // ------------------------------------------------------------------ what comes back

  /** A fixed-width field that stands whole in the bytes is read as it was written. */
  lemma ReadBack(b: Bytes, off: nat, n: nat, w: nat)
    requires off + w <= |b| && b[off..off + w] == Le(n, w) && n < Pow256(w)
    ensures ReadAt(b, off, w) == n
  {
    assert (b + [0])[off..off + w] == b[off..off + w];
    LeRoundTrip(n, w);
  }

  lemma IntBack(b: Bytes, off: nat, i: Int64)
    requires off + 8 <= |b| && b[off..off + 8] == Le(Unsigned(i), 8)
    ensures ReadAt(b, off, 8) == Unsigned(i) && Signed(Unsigned(i)) == i
  {
    Widths();
    ReadBack(b, off, Unsigned(i), 8);
  }

  lemma LengthBack(b: Bytes, off: nat, len: nat)
    requires len < TWO16 && off + 2 <= |b| && b[off..off + 2] == Le(len, 2)
    ensures ReadAt(b, off, 2) == len
  {
    Widths();
    ReadBack(b, off, len, 2);
  }

  /** Where the first field of a suffix stands when the bytes hold all of it. */
  lemma FieldStands(pre: Bytes, field: Bytes, rest: Bytes, k: nat)
    requires |pre| + |field| <= k <= |pre| + |field| + |rest|
    ensures var b := (pre + (field + rest))[..k];
            |b| == k && b[|pre|..|pre| + |field|] == field && pre + (field + rest) == pre + field + rest
  {
    assert pre + (field + rest) == pre + field + rest;
  }

  /** The same of the first bytes of the field. */
  lemma HeadStands(pre: Bytes, head: Bytes, field: Bytes, rest: Bytes, k: nat)
    requires head <= field && |pre| + |head| <= k <= |pre| + |field| + |rest|
    ensures (pre + (field + rest))[..k][|pre|..|pre| + |head|] == head
  {
    assert (pre + (field + rest))[|pre|..|pre| + |head|] == field[..|head|];
  }

  lemma FirstBack(b: Bytes, off: nat, v: Value)
    requires off + |Field(v)| <= |b| && b[off..off + |Field(v)|] == Field(v)
    requires v.TextValue? ==> |v.s| < TWO16
    ensures v.IntValue? ==> ReadAt(b, off, 8) < TWO64 && Signed(ReadAt(b, off, 8)) == v.i
    ensures v.TextValue? ==> off + 2 <= |b| && ReadAt(b, off, 2) == |v.s| && Sub(b, off + 2, |v.s|) == v.s
  {
    if v.IntValue? {
      IntBack(b, off, v.i);
    } else {
      var f := Field(v);
      assert f[..2] == Le(|v.s|, 2) && f[2..] == v.s;
      assert b[off..off + 2] == b[off..off + |f|][..2];
      LengthBack(b, off, |v.s|);
      assert b[off + 2..off + |f|] == b[off..off + |f|][2..];
    }
  }

  /** A field that stands whole in the bytes is one step of decoding. */
  lemma DecodeFirst(cols: Schema, b: Bytes, off: nat, v: Value)
    requires cols != [] && (cols[0].INT? <==> v.IntValue?) && (v.TextValue? ==> |v.s| < TWO16)
    requires off + |Field(v)| <= |b| && b[off..off + |Field(v)|] == Field(v)
    ensures DecodeFrom(cols, b, off) == Prepend(v, DecodeFrom(cols[1..], b, off + |Field(v)|))
  {
    FirstBack(b, off, v);
  }

  lemma TailTyped(cols: Schema, row: seq<Value>)
    requires cols != [] && Typed(cols, row) && TextsFit(row)
    ensures Typed(cols[1..], row[1..]) && TextsFit(row[1..])
  {
    assert forall i :: 0 <= i < |row| - 1 ==> row[1..][i] == row[i + 1];
  }

  predicate DecodesTo(cols: Schema, b: Bytes, off: nat, row: seq<Value>) {
    DecodeFrom(cols, b, off) == Decoded(row)
  }

  /** Decoding gives back every row that was encoded and not cut. */
  lemma {:induction false} DecodeSuffix(cols: Schema, row: seq<Value>, pre: Bytes, b: Bytes)
    requires Typed(cols, row) && TextsFit(row) && b == pre + Fields(row)
    ensures DecodesTo(cols, b, |pre|, row)
  {
    if cols != [] {
      var next := pre + Field(row[0]);
      TailTyped(cols, row);
      FirstStands(row, pre, b, next);
      DecodeSuffix(cols[1..], row[1..], next, b);
      DecodeOneMore(cols, row, b, |pre|);
    }
  }

  lemma DecodeOneMore(cols: Schema, row: seq<Value>, b: Bytes, off: nat)
    requires cols != [] && Typed(cols, row) && TextsFit(row)
    requires off + |Field(row[0])| <= |b| && b[off..off + |Field(row[0])|] == Field(row[0])
    requires DecodesTo(cols[1..], b, off + |Field(row[0])|, row[1..])
    ensures DecodesTo(cols, b, off, row)
  {
    DecodeFirst(cols, b, off, row[0]);
    assert row == [row[0]] + row[1..];
  }

  lemma FirstStands(row: seq<Value>, pre: Bytes, b: Bytes, next: Bytes)
    requires row != [] && b == pre + Fields(row) && next == pre + Field(row[0])
    ensures b == next + Fields(row[1..]) && |next| == |pre| + |Field(row[0])| <= |b|
      && b[|pre|..|next|] == Field(row[0])
  {
    FieldStands(pre, Field(row[0]), Fields(row[1..]), |b|);
    FullPrefix(b, |b|);
  }

  lemma RoundTrip(cols: Schema, row: seq<Value>)
    requires Typed(cols, row) && TextsFit(row)
    ensures DecodeFrom(cols, Fields(row), 0) == Decoded(row)
  {
    DecodeSuffix(cols, row, [], [] + Fields(row));
    assert [] + Fields(row) == Fields(row);
  }

  predicate Decodes(cols: Schema, b: Bytes, off: nat) {
    DecodeFrom(cols, b, off).Decoded?
  }

  /** For example: the number 258 in eight bytes, and a text of two. */
  lemma ExampleRow()
    ensures Fields([IntValue(258), TextValue([97, 98])]) == [2, 1, 0, 0, 0, 0, 0, 0] + [2, 0] + [97, 98]
  {
    var row := [IntValue(258), TextValue([97, 98])];
    assert row[1..] == [TextValue([97, 98])] && row[1..][1..] == [];
    assert Le(258, 8) == [2, 1, 0, 0, 0, 0, 0, 0] && Le(2, 2) == [2, 0];
    assert Fields(row[1..]) == Field(TextValue([97, 98])) + [];
  }

  /** Behind the last byte nothing can be read. */
  lemma PastEnd(cols: Schema, b: Bytes, off: nat)
    requires cols != [] && off > |b|
    ensures !Decodes(cols, b, off)
  {
  }

  lemma LaterColumns(cols: Schema, b: Bytes, off: nat, v: Value)
    requires cols != [] && (cols[0].INT? <==> v.IntValue?) && (v.TextValue? ==> |v.s| < TWO16)
    requires off + |Field(v)| <= |b| && b[off..off + |Field(v)|] == Field(v)
    requires !Decodes(cols[1..], b, off + |Field(v)|)
    ensures !Decodes(cols, b, off)
  {
    DecodeFirst(cols, b, off, v);
  }

  /** A field that is cut, with columns behind it or nothing left of its own bytes, does not decode. */
  lemma CutField(cols: Schema, b: Bytes, off: nat, v: Value)
    requires cols != [] && (cols[0].INT? <==> v.IntValue?) && (v.TextValue? ==> |v.s| < TWO16)
    requires off <= |b| < off + |Field(v)|
    requires cols[1..] != [] || |b| < off + 2
    requires v.TextValue? && off + 2 <= |b| ==> b[off..off + 2] == Le(|v.s|, 2)
    ensures !Decodes(cols, b, off)
  {
    if v.IntValue? {
      if off + 8 <= |b| + 1 { PastEnd(cols[1..], b, off + 8); }
    } else if off + 2 <= |b| {
      LengthBack(b, off, |v.s|);
      PastEnd(cols[1..], b, off + 2 + |v.s|);
    }
  }

  /** From a column that stands in step with its encoding, the columns of a row that was cut by 2^16 bytes
      or more never decode: the last text is too short to hide the cut. */
  lemma {:induction false} CutSuffix(cols: Schema, row: seq<Value>, pre: Bytes, b: Bytes)
    requires Typed(cols, row) && TextsFit(row)
    requires |pre| <= |b| && |b| + TWO16 <= |pre| + |Fields(row)| && b == (pre + Fields(row))[..|b|]
    ensures !Decodes(cols, b, |pre|)
  {
    var field, rest := Field(row[0]), Fields(row[1..]);
    TailTyped(cols, row);
    if |pre| + |field| <= |b| {
      FieldStands(pre, field, rest, |b|);
      CutSuffix(cols[1..], row[1..], pre + field, b);
      LaterColumns(cols, b, |pre|, row[0]);
    } else {
      CutHere(cols, row, pre, b);
    }
  }

  lemma CutHere(cols: Schema, row: seq<Value>, pre: Bytes, b: Bytes)
    requires cols != [] && Typed(cols, row) && TextsFit(row)
    requires |pre| <= |b| < |pre| + |Field(row[0])| && |b| + TWO16 <= |pre| + |Fields(row)|
    requires b == (pre + Fields(row))[..|b|]
    ensures !Decodes(cols, b, |pre|)
  {
    if row[0].TextValue? && |pre| + 2 <= |b| { LengthStands(row, pre, b); }
    MoreColumns(cols, row, pre, b);
    CutField(cols, b, |pre|, row[0]);
  }

  lemma LengthStands(row: seq<Value>, pre: Bytes, b: Bytes)
    requires row != [] && row[0].TextValue? && |row[0].s| < TWO16
    requires |pre| + 2 <= |b| <= |pre| + |Fields(row)| && b == (pre + Fields(row))[..|b|]
    ensures b[|pre|..|pre| + 2] == Le(|row[0].s|, 2)
  {
    HeadStands(pre, Le(|row[0].s|, 2), Field(row[0]), Fields(row[1..]), |b|);
  }

  /** A text of the last column is too short to reach from before the cut to the end. */
  lemma MoreColumns(cols: Schema, row: seq<Value>, pre: Bytes, b: Bytes)
    requires cols != [] && Typed(cols, row) && TextsFit(row)
    requires |pre| <= |b| && |b| + TWO16 <= |pre| + |Fields(row)|
    ensures cols[1..] != [] || |b| < |pre| + 2
  {
    if |cols| == 1 {
      assert row[1..] == [];
      assert |Fields(row)| == |Field(row[0])|;
    }
  }

  /** What the heap keeps of an encoding. */
  function Cut(b: Bytes): Bytes {
    b[..|b| % TWO16]
  }

  /** A row that the heap kept decodes if and only if it was not cut, and then to what was encoded. */
  lemma DecodesIffWhole(cols: Schema, row: seq<Value>)
    requires IsSchema(cols) && Typed(cols, row) && TextsFit(row)
    ensures DecodeFrom(cols, Cut(Fields(row)), 0) == Decoded(row) <==> |Fields(row)| < TWO16
    ensures DecodeFrom(cols, Cut(Fields(row)), 0).Decoded? <==> |Fields(row)| < TWO16
  {
    var e := Fields(row);
    if |e| < TWO16 {
      FullPrefix(e, |e| % TWO16);
      RoundTrip(cols, row);
    } else {
      CutDoesNotDecode(cols, row, Cut(e));
    }
  }

  lemma CutDoesNotDecode(cols: Schema, row: seq<Value>, b: Bytes)
    requires IsSchema(cols) && Typed(cols, row) && TextsFit(row)
    requires |b| + TWO16 <= |Fields(row)| && b == Fields(row)[..|b|]
    ensures !Decodes(cols, b, 0)
  {
    assert [] + Fields(row) == Fields(row);
    CutSuffix(cols, row, [], b);
  }

  // ------------------------------------------------------------------ rows under their keys

  /** The encoding of a row with this primary key. */
  ghost predicate Encodes(cols: Schema, pk: int, image: Bytes) {
    exists row :: EncodesRow(cols, row, pk, image)
  }

  predicate EncodesRow(cols: Schema, row: seq<Value>, pk: int, image: Bytes) {
    IsSchema(cols) && Typed(cols, row) && TextsFit(row) && row[0].i == pk && image == Fields(row)
  }

  /** What the heap keeps of such a row. */
  ghost predicate KeptOf(cols: Schema, pk: int, bytes: Bytes) {
    exists image :: Encodes(cols, pk, image) && bytes == Cut(image)
  }

  /** A tuple of the heap decodes if and only if it holds the whole encoding, and then under its key. */
  lemma KeptDecodes(cols: Schema, pk: int, image: Bytes)
    requires Encodes(cols, pk, image)
    ensures var d := DecodeFrom(cols, Cut(image), 0);
            (d.Decoded? <==> |image| < TWO16) && (d.Decoded? ==> d.row != [] && d.row[0] == IntValue(pk))
  {
    var row :| EncodesRow(cols, row, pk, image);
    DecodesIffWhole(cols, row);
  }

  lemma DecodedKey(cols: Schema, pk: int, bytes: Bytes)
    requires KeptOf(cols, pk, bytes)
    ensures var d := DecodeFrom(cols, bytes, 0); d.Decoded? ==> d.row != [] && d.row[0] == IntValue(pk)
  {
    var image :| Encodes(cols, pk, image) && bytes == Cut(image);
    KeptDecodes(cols, pk, image);
  }
}
