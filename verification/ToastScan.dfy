/** Filling the chunk cache from a toast table (pg_page.c scan_page, extract_tuple and extract_toast_chunk):
    tuples are deformed, their chunks extracted and added, in whatever order the pages hold them. */
module ToastScan {
  import opened Base
  import opened Varlenas
  import opened ToastCaches
  import opened Tuples
  import opened TupleDeform
  import opened HeapPage
  import opened StoredForms

  const OIDOID := 26
  const INT4OID := 23
  const BYTEAOID := 17

  /** build_pg_toast_schema: value id, chunk number, chunk data. */
  const TOAST_SCHEMA: seq<Column> :=
    [Column(1, OIDOID, 4, AlignInt), Column(1, INT4OID, 4, AlignInt), Column(1, BYTEAOID, -1, AlignInt)]

  const WORD: int := 0x1_0000_0000

  /** The cast to int32. */
  function Int32(x: int): int {
    if x % WORD < 0x8000_0000 then x % WORD else x % WORD - WORD
  }

  /** decode_value for the types of a toast table; a byte string is a pointer to where it stands. */
  function DecodeValue(m: seq<byte>, typid: int): Datum {
    if typid == OIDOID && |m| >= 4 then Word(Load32(m, 0))
    else if typid == INT4OID && |m| >= 4 then Word(Int32(Load32(m, 0)))
    else if typid == BYTEAOID then Memory(m)
    else ZERO
  }

  ghost predicate Scannable(t: HeapTuple) {
    CanDeform(t, TOAST_SCHEMA)
  }

  /** The datum of attribute `k`. */
  ghost function DatumAt(t: HeapTuple, k: nat): Datum
    requires Scannable(t) && k < 3
  {
    var c := Cells(t, TOAST_SCHEMA, 0, 0)[k];
    if c.NullCell? || c.off > |t.data| then ZERO else DecodeValue(t.data[c.off..], TOAST_SCHEMA[k].atttypid)
  }

  /** The chunk that three datums make; None if its data would be read from no memory of the tuple. */
  function ChunkFrom(id: Datum, seqno: Datum, data: Datum): Option<Chunk> {
    if id.Memory? || seqno.Memory? || data.Word? || !HeaderReadable(data.bytes, 0) then None
    else ChunkPayload(id.value % WORD, Int32(seqno.value), data.bytes)
  }

  /** The tuple holds the chunk `c`. */
  ghost predicate Yields(t: HeapTuple, c: Chunk) {
    Scannable(t) && ChunkFrom(DatumAt(t, 0), DatumAt(t, 1), DatumAt(t, 2)) == Some(c)
  }

  // ---------------------------------------------------------------- chunk tuples as they are laid out

  /** A chunk that a toast table can hold, its data stored as the field `f`, with a short or a long header. */
  ghost predicate StoredAs(c: Chunk, f: Field) {
    && c.id < WORD && -0x8000_0000 <= c.seqno < 0x8000_0000
    && (f == ShortVar(c.data) || f == LongVar(c.data)) && Storable(f)
  }

  ghost function RowOf(c: Chunk, f: Field): seq<Field>
    requires c.id < WORD
  {
    [Fixed(Store32(c.id)), Fixed(Store32(c.seqno % WORD)), f]
  }

  /** `t` is laid out for the chunk `c`, `tail` being memory behind it. */
  ghost predicate Lays(t: HeapTuple, c: Chunk, f: Field, tail: seq<byte>) {
    StoredAs(c, f) && t.hoff <= t.len && FormedFrom(t, TOAST_SCHEMA, RowOf(c, f), tail)
  }

  lemma SchemaLegal()
    ensures forall c :: c in TOAST_SCHEMA ==> c.Legal()
  {
  }

  /** A word shown by a cell is what is loaded from there. */
  lemma WordShown(m: seq<byte>, c: Cell, x: nat)
    requires x < WORD && Shows(m, c, Fixed(Store32(x)))
    ensures c.FieldAt? && c.off + 4 <= |m| && Load32(m[c.off..], 0) == x
  {
    hide Load32, Store32;
    assert m[c.off..][0..4] == m[c.off..c.off + 4];
    LoadStored(x, m[c.off..], 0);
  }

  /** A chunk's data attribute gives its payload. */
  lemma PayloadShown(m: seq<byte>, c: Cell, f: Field, id: nat, seqno: int, p: seq<byte>)
    requires (f == ShortVar(p) || f == LongVar(p)) && Storable(f) && Shows(m, c, f)
    ensures c.FieldAt? && c.off <= |m| && HeaderReadable(m[c.off..], 0)
    ensures ChunkPayload(id, seqno, m[c.off..]) == Some(Chunk(id, seqno, p))
  {
    hide Short, Plain, HeaderReadable, ChunkPayload;
    var v, w := m[c.off..], FieldBytes(f);
    assert v[..|w|] == w;
    assert v == w + v[|w|..];
    if f.ShortVar? {
      ShortExtracted(id, seqno, p, v[|w|..]);
    } else {
      LongExtracted(id, seqno, p, v[|w|..]);
    }
  }

  lemma CastsBack(x: int)
    requires -0x8000_0000 <= x < 0x8000_0000
    ensures Int32(Int32(x % WORD)) == x
  {
  }

  /** Deforming and extracting gives back the chunk a tuple was laid out for. */
  lemma LaysYields(t: HeapTuple, c: Chunk, f: Field, tail: seq<byte>)
    requires Lays(t, c, f, tail)
    ensures Yields(t, c)
  {
    hide FormedFrom, Readable, Cells, Shows, Load32, Store32, HeaderReadable, ChunkPayload, Int32;
    var row := RowOf(c, f);
    SchemaLegal();
    DeformsWhatWasFormed(t, TOAST_SCHEMA, row, tail);
    var cells := Cells(t, TOAST_SCHEMA, 0, 0);
    RowShown(t, row, tail, cells);
    WordShown(t.data, cells[0], c.id);
    WordShown(t.data, cells[1], c.seqno % WORD);
    CastsBack(c.seqno);
    PayloadShown(t.data, cells[2], f, c.id, c.seqno, c.data);
  }

  lemma RowShown(t: HeapTuple, row: seq<Field>, tail: seq<byte>, cells: seq<Cell>)
    requires FormedFrom(t, TOAST_SCHEMA, row, tail) && |row| == 3 == |cells|
    requires CellsRight(t.data, TOAST_SCHEMA, row, cells, 0)
    ensures forall k :: 0 <= k < 3 ==> Storable(row[k]) && Shows(t.data, cells[k], row[k])
  {
    hide Shows, Storable;
    forall k | 0 <= k < 3 ensures Storable(row[k]) && Shows(t.data, cells[k], row[k]) {
      assert FitsColumn(row[k], TOAST_SCHEMA[k]);
      assert CellRight(t.data, TOAST_SCHEMA, row, cells[k], 0 + k);
    }
  }

  // ---------------------------------------------------------------- chunk tuples on a page

  /** The tuple that `item` points to is the one PostgreSQL forms for the chunk. */
  ghost predicate TupleFor(page: seq<byte>, item: Item, c: Chunk, stamp: Stamp, f: Field) {
    && stamp.Right() && StoredAs(c, f) && Writable(RowOf(c, f), TOAST_SCHEMA)
    && var b := TupleBytes(stamp, RowOf(c, f), TOAST_SCHEMA);
      item.len == |b| && item.off + |b| <= |page| && page[item.off..item.off + |b|] == b
  }

  ghost predicate ItemLays(page: seq<byte>, item: Item, c: Chunk) {
    item.flags != 0 && exists stamp, f :: TupleFor(page, item, c, stamp, f)
  }

  lemma RowFitsSchema(c: Chunk, f: Field)
    requires StoredAs(c, f)
    ensures Writable(RowOf(c, f), TOAST_SCHEMA) && !AnyNull(RowOf(c, f)) && !Refused(RowOf(c, f), TOAST_SCHEMA)
  {
    hide Store32, Storable;
    var row := RowOf(c, f);
    assert NullBits(row) == [] && HeaderSize(row) == 24;
    assert FitsColumn(row[0], TOAST_SCHEMA[0]) && FitsColumn(row[1], TOAST_SCHEMA[1]) by { FixedFits(row[0], row[1]); }
    FormStep(TOAST_SCHEMA, row, 0, 0);
  }

  lemma FixedFits(a: Field, b: Field)
    requires a.Fixed? && b.Fixed? && |a.bytes| == 4 == |b.bytes|
    ensures FitsColumn(a, TOAST_SCHEMA[0]) && FitsColumn(b, TOAST_SCHEMA[1])
  {
  }

  /** Such a tuple is accepted, and yields its chunk. */
  lemma ItemYields(page: seq<byte>, item: Item, c: Chunk)
    requires ItemLays(page, item, c)
    ensures item.len > 0 && item.off + FIXED_HEADER <= |page| && item.off + item.len <= |page|
    ensures var t := DecodeTuple(page, item.off, item.len); t.Some? && Yields(t.value, c)
  {
    hide Writable, Refused, Tuples.Form, FormedFrom, Yields, DecodeTuple;
    var stamp, f :| TupleFor(page, item, c, stamp, f);
    var row := RowOf(c, f);
    RowFitsSchema(c, f);
    RowDecodes(page, item.off, stamp, row, TOAST_SCHEMA);
    var t := DecodeTuple(page, item.off, item.len).value;
    LaysYields(t, c, f, page[item.off + item.len..]);
  }

  /** Nothing is read from the item: it is unused or empty, or its tuple is refused. */
  predicate Skipped(page: seq<byte>, item: Item) {
    item.flags == 0 || item.len == 0
    || (item.off + FIXED_HEADER <= |page| && item.off + item.len <= |page|
        && DecodeTuple(page, item.off, item.len) == None)
  }

  /** A line pointer as written, and the chunk whose tuple it points to, if any. */
  datatype Line = Line(item: Item, chunk: Option<Chunk>)

  ghost predicate LineRight(page: seq<byte>, line: Line) {
    match line.chunk
    case None => Skipped(page, line.item)
    case Some(c) => ItemLays(page, line.item, c)
  }

  /** The page as it is written: the offset behind the line pointers, then the line pointers. */
  ghost predicate PageLays(page: seq<byte>, lines: seq<Line>) {
    && 24 + 4 * |lines| <= |page| && 24 + 4 * |lines| < 0x1_0000
    && page[12..14] == Store16(24 + 4 * |lines|)
    && forall i {:trigger lines[i]} :: 0 <= i < |lines| ==>
      && lines[i].item.InRange() && page[24 + 4 * i..28 + 4 * i] == LinePointer(lines[i].item)
      && LineRight(page, lines[i])
  }

  /** The chunks of a page, in the order of its line pointers. */
  ghost function PageChunks(lines: seq<Line>): seq<Chunk> {
    if lines == [] then [] else PageChunks(lines[..|lines| - 1]) + LineChunks(lines[|lines| - 1])
  }

  ghost function LineChunks(line: Line): seq<Chunk> {
    if line.chunk.Some? then [line.chunk.value] else []
  }

  /** The pages of a table, one after another. */
  ghost predicate TableLays(pages: seq<seq<byte>>, lines: seq<seq<Line>>) {
    |pages| == |lines| && forall k :: 0 <= k < |pages| ==> PageLays(pages[k], lines[k])
  }

  ghost function TableChunks(lines: seq<seq<Line>>): seq<Chunk> {
    if lines == [] then [] else TableChunks(lines[..|lines| - 1]) + PageChunks(lines[|lines| - 1])
  }

  // ---------------------------------------------------------------- the scan

  /** extract_toast_chunk */
  method ExtractToastChunk(slot: TupleSlot) returns (c: Option<Chunk>)
    requires slot.Valid() && slot.tup.Some? && slot.schema == TOAST_SCHEMA && slot.decode == DecodeValue
    modifies slot`nvalid, slot.values, slot.isNull
    ensures slot.Valid() && Scannable(slot.tup.value)
    ensures c == ChunkFrom(DatumAt(slot.tup.value, 0), DatumAt(slot.tup.value, 1), DatumAt(slot.tup.value, 2))
  {
    hide Readable, Cells, ChunkFrom, DecodeValue;
    var id := slot.GetAttr(0);
    var seqno := slot.GetAttr(1);
    var v := slot.GetAttr(2);
    c := ChunkFrom(id, seqno, v);
  }

  /** One accepted tuple: its chunk joins the cache. */
  method AddTuple(slot: TupleSlot, cache: ToastCache, t: HeapTuple, ghost chunk: Chunk)
    requires slot.Valid() && slot.nvalid == 0 && slot.schema == TOAST_SCHEMA && slot.decode == DecodeValue
    requires cache.Valid() && Yields(t, chunk)
    modifies slot, slot.values, slot.isNull, cache, cache.lists
    ensures slot.Valid() && cache.Valid() && cache.added == old(cache.added) + [chunk]
    ensures forall x :: x in cache.lists ==> x in old(cache.lists) || fresh(x)
  {
    hide ChunkFrom, CanDeform, DatumAt, TupleSlot.Valid, ToastCache.Valid;
    slot.Bind(t);
    var c := ExtractToastChunk(slot);
    cache.Add(c.value);
  }

  /** extract_tuple for a toast table. */
  method ExtractTuple(slot: TupleSlot, cache: ToastCache, page: seq<byte>, item: Item, ghost chunk: Option<Chunk>)
    returns (ok: bool)
    requires slot.Valid() && slot.nvalid == 0 && slot.schema == TOAST_SCHEMA && slot.decode == DecodeValue
    requires cache.Valid() && item.flags != 0 && LineRight(page, Line(item, chunk))
    modifies slot, slot.values, slot.isNull, cache, cache.lists
    ensures slot.Valid() && cache.Valid() && cache.added == old(cache.added) + LineChunks(Line(item, chunk))
    ensures forall x :: x in cache.lists ==> x in old(cache.lists) || fresh(x)
    ensures ok <==> chunk.Some?
  {
    hide DecodeTuple, Yields, ItemLays, TupleSlot.Valid, ToastCache.Valid;
    if chunk.Some? {
      ItemYields(page, item, chunk.value);
    }
    if item.len == 0 {
      return false;
    }
    var t := DecodeTuple(page, item.off, item.len);
    if t.None? {
      return false;
    }
    AddTuple(slot, cache, t.value, chunk.value);
    return true;
  }

  /** scan_page over a page of a toast table. */
  method ScanPage(slot: TupleSlot, cache: ToastCache, page: seq<byte>, ghost lines: seq<Line>)
    requires slot.Valid() && slot.schema == TOAST_SCHEMA && slot.decode == DecodeValue && cache.Valid()
    requires PageLays(page, lines)
    modifies slot, slot.values, slot.isNull, cache, cache.lists
    ensures slot.Valid() && cache.Valid() && cache.added == old(cache.added) + PageChunks(lines)
    ensures forall x :: x in cache.lists ==> x in old(cache.lists) || fresh(x)
  {
    hide ItemAt, LineCount, LineRight, TupleSlot.Valid, ToastCache.Valid;
    LinesRead(page, |lines|);
    for i := 0 to LineCount(page)
      invariant slot.Valid() && cache.Valid() && cache.added == old(cache.added) + PageChunks(lines[..i])
      invariant forall x :: x in cache.lists ==> x in old(cache.lists) || fresh(x)
    {
      slot.Reset();
      ItemRead(page, i, lines[i].item);
      var item := ItemAt(page, i);
      assert lines[i] == Line(item, lines[i].chunk) && lines[..i + 1][..i] == lines[..i];
      assert forall k :: 0 <= k < |cache.lists| ==> cache.lists[k] in old(cache.lists) || fresh(cache.lists[k]);
      if item.flags != 0 {
        var ok := ExtractTuple(slot, cache, page, item, lines[i].chunk);
      } else {
        UnusedEmpty(page, lines[i]);
      }
    }
    assert lines[..|lines|] == lines;
  }

  lemma UnusedEmpty(page: seq<byte>, line: Line)
    requires line.item.flags == 0 && LineRight(page, line)
    ensures LineChunks(line) == []
  {
  }

  /** load_table over the pages of a toast table: all chunks join the cache, in page order. */
  method ScanTable(slot: TupleSlot, cache: ToastCache, pages: seq<seq<byte>>, ghost lines: seq<seq<Line>>)
    requires slot.Valid() && slot.schema == TOAST_SCHEMA && slot.decode == DecodeValue && cache.Valid()
    requires TableLays(pages, lines)
    modifies slot, slot.values, slot.isNull, cache, cache.lists
    ensures slot.Valid() && cache.Valid() && cache.added == old(cache.added) + TableChunks(lines)
    ensures forall x :: x in cache.lists ==> x in old(cache.lists) || fresh(x)
  {
    hide PageLays, TupleSlot.Valid, ToastCache.Valid;
    for i := 0 to |pages|
      invariant slot.Valid() && cache.Valid() && cache.added == old(cache.added) + TableChunks(lines[..i])
      invariant forall x :: x in cache.lists ==> x in old(cache.lists) || fresh(x)
    {
      assert forall k :: 0 <= k < |cache.lists| ==> cache.lists[k] in old(cache.lists) || fresh(cache.lists[k]);
      ScanPage(slot, cache, pages[i], lines[i]);
      assert lines[..i + 1][..i] == lines[..i];
    }
    assert lines[..|pages|] == lines;
  }

  // ---------------------------------------------------------------- any order, among others

  lemma {:induction false} OfCount(cs: seq<Chunk>, id: nat, c: Chunk)
    ensures multiset(Of(cs, id))[c] == if c.id == id then multiset(cs)[c] else 0
    decreases |cs|
  {
    if cs == [] {
    } else {
      var init, last := cs[..|cs| - 1], cs[|cs| - 1];
      assert cs == init + [last];
      OfCount(init, id, c);
    }
  }

  /** The pieces of the value are among the chunks, numbered from zero, and all others are of other values. */
  ghost predicate Among(cs: seq<Chunk>, id: nat, pieces: seq<seq<byte>>, others: seq<Chunk>) {
    && pieces != []
    && multiset(cs) == multiset(Cut(id, pieces)) + multiset(others)
    && forall c :: c in others ==> c.id != id
  }

  /** However the pages order the chunks, scanning them has seen the value. */
  lemma AmongSeen(cs: seq<Chunk>, id: nat, pieces: seq<seq<byte>>, others: seq<Chunk>)
    requires Among(cs, id, pieces, others)
    ensures Seen(cs, id, pieces)
  {
    var cut := Cut(id, pieces);
    forall c: Chunk ensures multiset(Of(cs, id))[c] == multiset(cut)[c] {
      OfCount(cs, id, c);
      if c.id == id {
        assert c !in others;
      } else {
        assert c !in cut;
      }
    }
  }
}
