/** Pages of heap tuples: line pointers, tuple headers (pg_heap.h), and what decode_tuple (pg_data.c) makes of a
    tuple laid out on a page. */
module HeapPage {
  import opened Base
  import opened Tuples
  import opened TupleDeform

  const PAGE_HEADER := 24       // sizeof(PageHeaderData), where the line pointers start
  const FIXED_HEADER := 23      // bytes of a tuple header before the null bitmap
  const HEADER_STRUCT := 24     // sizeof(HeapTupleHeaderData), which decode_tuple counts with

  /** The 16-bit little-endian load at byte offset `at`. */
  function Load16(b: seq<byte>, at: nat): (r: nat)
    requires at + 2 <= |b|
    ensures r < 0x1_0000
  {
    b[at] as int + 0x100 * (b[at + 1] as int)
  }

  function Store16(x: nat): (r: seq<byte>)
    requires x < 0x1_0000
    ensures |r| == 2
  {
    [(x % 0x100) as byte, (x / 0x100) as byte]
  }

  lemma Load16Stored(x: nat, b: seq<byte>, at: nat)
    requires x < 0x1_0000 && at + 2 <= |b| && b[at..at + 2] == Store16(x)
    ensures Load16(b, at) == x
  {
    assert b[at] == b[at..at + 2][0] && b[at + 1] == b[at..at + 2][1];
  }

  function MaxAlign(n: nat): (r: nat)
    ensures r % 8 == 0 && n <= r < n + 8
  {
    RoundsUp(n, 8);
    (n + 7) / 8 * 8
  }

  // ---------------------------------------------------------------- reading

  /** A line pointer; flags zero mark it unused. */
  datatype Item = Item(off: nat, flags: nat, len: nat) {
    predicate InRange() { off < 0x8000 && flags < 4 && len < 0x8000 }
  }

  function ItemAt(page: seq<byte>, i: nat): Item
    requires PAGE_HEADER + 4 * i + 4 <= |page|
  {
    var w := Load32(page, PAGE_HEADER + 4 * i);
    Item(w % 0x8000, w / 0x8000 % 4, w / 0x2_0000)
  }

  /** How many line pointers `pd_lower` leaves room for; none if it is too small. */
  function LineCount(page: seq<byte>): nat
    requires |page| >= PAGE_HEADER
  {
    var lower := Load16(page, 12);
    if lower < PAGE_HEADER then 0 else (lower - PAGE_HEADER) / 4
  }

  /** decode_tuple, visibility apart: the header fields of the tuple at `off`, unless it is refused as damaged. */
  function DecodeTuple(page: seq<byte>, off: nat, len: nat): (r: Option<HeapTuple>)
    requires off + FIXED_HEADER <= |page| && off + len <= |page|
    ensures r.Some? ==> BitmapCovers(r.value) && r.value.hoff <= r.value.len
  {
    var natts := Load16(page, off + 18) % 0x800;
    var hasNulls := Load16(page, off + 20) % 2 == 1;
    var hoff := page[off + 22] as int;
    var minHoff := MaxAlign(HEADER_STRUCT + if hasNulls then (natts + 7) / 8 else 0);
    if hoff < minHoff || hoff % 8 != 0 || hoff < 8 || hoff >= len then None
    else Some(HeapTuple(natts, hasNulls, page[off + FIXED_HEADER..off + hoff], hoff, len, page[off + hoff..]))
  }

  // ---------------------------------------------------------------- the writer's half

  /** A line pointer as it is written: fifteen bits of offset, two of flags, fifteen of length, from the lowest. */
  function LinePointer(item: Item): (r: seq<byte>)
    requires item.InRange()
    ensures |r| == 4
  {
    Store32(item.off + 0x8000 * item.flags + 0x2_0000 * item.len)
  }

  /** What was written as line pointer `i` is read as such. */
  lemma ItemRead(page: seq<byte>, i: nat, item: Item)
    requires item.InRange() && 28 + 4 * i <= |page| && page[24 + 4 * i..28 + 4 * i] == LinePointer(item)
    ensures ItemAt(page, i) == item
  {
    hide Load32, Store32;
    var w := item.off + 0x8000 * item.flags + 0x2_0000 * item.len;
    LoadStored(w, page, 24 + 4 * i);
    DivUnique(w, 0x8000, item.flags + 4 * item.len, item.off);
    DivUnique(item.flags + 4 * item.len, 4, item.len, item.flags);
    DivUnique(w, 0x2_0000, item.len, item.off + 0x8000 * item.flags);
  }

  /** The free space starts right behind the line pointers, at the offset written at byte 12. */
  lemma LinesRead(page: seq<byte>, n: nat)
    requires |page| >= 24 && 24 + 4 * n < 0x1_0000 && page[12..14] == Store16(24 + 4 * n)
    ensures LineCount(page) == n
  {
    hide Load16, Store16;
    Load16Stored(24 + 4 * n, page, 12);
  }

  ghost predicate AnyNull(row: seq<Field>) {
    exists k :: 0 <= k < |row| && row[k].NullField?
  }

  ghost function NullBits(row: seq<Field>): seq<byte> {
    if AnyNull(row) then Bitmap(row, 0) else []
  }

  ghost function HeaderSize(row: seq<Field>): nat {
    MaxAlign(FIXED_HEADER + |NullBits(row)|)
  }

  /** Rows whose header PostgreSQL can write. */
  ghost predicate Writable(row: seq<Field>, schema: seq<Column>) {
    RowFits(row, schema) && |row| < 0x800 && HeaderSize(row) < 0x100
  }

  /** What precedes the attribute count, and the flag bits that decoding does not look at. */
  datatype Stamp = Stamp(ids: seq<byte>, flags2: nat, flags: nat) {
    predicate Right() { |ids| == 18 && flags2 < 0x20 && flags < 0x8000 }
  }

  ghost function FixedHeader(stamp: Stamp, row: seq<Field>, schema: seq<Column>): (r: seq<byte>)
    requires stamp.Right() && Writable(row, schema)
    ensures |r| == FIXED_HEADER
  {
    stamp.ids + Store16(|row| + 0x800 * stamp.flags2)
    + Store16((if AnyNull(row) then 1 else 0) + 2 * stamp.flags) + [HeaderSize(row) as byte]
  }

  /** The tuple as PostgreSQL forms it: header, null bitmap if a null is there, padding, attributes. */
  ghost function TupleBytes(stamp: Stamp, row: seq<Field>, schema: seq<Column>): seq<byte>
    requires stamp.Right() && Writable(row, schema)
  {
    FixedHeader(stamp, row, schema) + (NullBits(row) + Zeros(HeaderSize(row) - FIXED_HEADER - |NullBits(row)|))
    + Form(schema, row, 0, 0)
  }

  /** Tuples that are formed correctly and refused all the same: those without any attribute data, and those
      whose null bitmap just fills the last word of the header. */
  ghost predicate Refused(row: seq<Field>, schema: seq<Column>)
    requires RowFits(row, schema)
  {
    Form(schema, row, 0, 0) == [] || (AnyNull(row) && (|row| + 7) / 8 % 8 == 1)
  }

  // ---------------------------------------------------------------- decoding what was written

  lemma {:induction false} BitmapSize(row: seq<Field>, i: nat)
    requires i <= |row| + 7
    ensures |Bitmap(row, i)| == (|row| + 7 - i) / 8
    decreases |row| + 7 - i
  {
    hide FlagByte;
    if i >= |row| {
    } else {
      BitmapSize(row, i + 8);
    }
  }

  /** The header that PostgreSQL writes is as long as decode_tuple demands, but for one bitmap size in eight. */
  lemma AlignGap(bitmap: nat)
    ensures MaxAlign(HEADER_STRUCT + bitmap) <= MaxAlign(FIXED_HEADER + bitmap) <==> bitmap % 8 != 1
    ensures MaxAlign(FIXED_HEADER + bitmap) >= FIXED_HEADER + bitmap && MaxAlign(FIXED_HEADER + bitmap) % 8 == 0
  {
    var q, r := bitmap / 8, bitmap % 8;
    DivUnique(FIXED_HEADER + bitmap + 7, 8, if r <= 1 then q + 3 else q + 4, if r <= 1 then r + 6 else r - 2);
    DivUnique(HEADER_STRUCT + bitmap + 7, 8, if r == 0 then q + 3 else q + 4, if r == 0 then 7 else r - 1);
  }

  /** The fields read from the fixed header. */
  lemma HeaderRead(page: seq<byte>, off: nat, stamp: Stamp, row: seq<Field>, schema: seq<Column>)
    requires stamp.Right() && Writable(row, schema)
    requires off + FIXED_HEADER <= |page| && page[off..off + FIXED_HEADER] == FixedHeader(stamp, row, schema)
    ensures Load16(page, off + 18) % 0x800 == |row|
    ensures Load16(page, off + 20) % 2 == 1 <==> AnyNull(row)
    ensures page[off + 22] as int == HeaderSize(row)
  {
    hide Load16, Store16, HeaderSize, AnyNull;
    var h := page[off..off + FIXED_HEADER];
    SubSlice(page, off, off + FIXED_HEADER, 18, 2);
    SubSlice(page, off, off + FIXED_HEADER, 20, 2);
    assert page[off + 22] == h[22];
    Load16Stored(|row| + 0x800 * stamp.flags2, page, off + 18);
    Load16Stored((if AnyNull(row) then 1 else 0) + 2 * stamp.flags, page, off + 20);
  }

  /** Three pieces of memory one after another. */
  lemma Pieces(m: seq<byte>, off: nat, a: seq<byte>, b: seq<byte>, c: seq<byte>)
    requires off + |a + b + c| <= |m| && m[off..off + |a + b + c|] == a + b + c
    ensures m[off..off + |a|] == a && m[off + |a|..off + |a| + |b|] == b
    ensures m[off + |a| + |b|..] == c + m[off + |a + b + c|..]
  {
    var s := m[off..off + |a + b + c|];
    SubSlice(m, off, off + |s|, 0, |a|);
    SubSlice(m, off, off + |s|, |a|, |b|);
    assert s[0..0 + |a|] == a && s[|a|..|a| + |b|] == b && s[|a| + |b|..] == c;
    assert m[off + |a| + |b|..] == s[|a| + |b|..] + m[off + |a + b + c|..];
  }

  /** A tuple that PostgreSQL has laid out anywhere on a page is decoded to its row, unless it is refused. */
  lemma RowDecodes(page: seq<byte>, off: nat, stamp: Stamp, row: seq<Field>, schema: seq<Column>)
    requires stamp.Right() && Writable(row, schema)
    requires var b := TupleBytes(stamp, row, schema); off + |b| <= |page| && page[off..off + |b|] == b
    ensures var b := TupleBytes(stamp, row, schema);
      var r := DecodeTuple(page, off, |b|);
      if Refused(row, schema) then r == None
      else r.Some? && FormedFrom(r.value, schema, row, page[off + |b|..])
  {
    hide Form, FixedHeader, Load16, MaxAlign, Bitmap, RowFits;
    var bits, form := NullBits(row), Form(schema, row, 0, 0);
    var h, rest := FixedHeader(stamp, row, schema), bits + Zeros(HeaderSize(row) - FIXED_HEADER - |bits|);
    Pieces(page, off, h, rest, form);
    HeaderRead(page, off, stamp, row, schema);
    AlignGap(|bits|);
    BitmapSize(row, 0);
    assert bits <= rest;
  }

  /** So no row of one to eight attributes with a null among them is ever decoded. */
  lemma FewAttributesWithNull(page: seq<byte>, off: nat, stamp: Stamp, row: seq<Field>, schema: seq<Column>)
    requires stamp.Right() && Writable(row, schema) && 1 <= |row| <= 8 && AnyNull(row)
    requires var b := TupleBytes(stamp, row, schema); off + |b| <= |page| && page[off..off + |b|] == b
    ensures DecodeTuple(page, off, |TupleBytes(stamp, row, schema)|) == None
  {
    hide TupleBytes, DecodeTuple, Form;
    RowDecodes(page, off, stamp, row, schema);
  }

  /** A decoded row is deformed to its values and null flags. */
  lemma RowRead(page: seq<byte>, off: nat, stamp: Stamp, row: seq<Field>, schema: seq<Column>)
    requires stamp.Right() && Writable(row, schema) && !Refused(row, schema) && forall c :: c in schema ==> c.Legal()
    requires var b := TupleBytes(stamp, row, schema); off + |b| <= |page| && page[off..off + |b|] == b
    ensures var r := DecodeTuple(page, off, |TupleBytes(stamp, row, schema)|);
      r.Some? && CanDeform(r.value, schema) && CellsRight(r.value.data, schema, row, Cells(r.value, schema, 0, 0), 0)
  {
    hide TupleBytes, FormedFrom, Refused, Readable, Cells, CellsRight, Writable;
    RowDecodes(page, off, stamp, row, schema);
    var b := TupleBytes(stamp, row, schema);
    DeformsWhatWasFormed(DecodeTuple(page, off, |b|).value, schema, row, page[off + |b|..]);
  }
}
