/** Stored values byte by byte.  Writers and readers of a format share its definitions elsewhere; here every
    byte is spelt out as PostgreSQL writes it. */
module KnownBytes {
  import opened Base
  import opened Varlenas
  import opened Tuples
  import HeapPage
  import ToastScan
  import ToastCaches
  import TupleDeform
  import Pglz
  import JsonbFormat
  import JsonbPack
  import JsonbRender
  import JsonReader

  // ---------------------------------------------------------------- words and varlena headers

  lemma WordBytes()
    ensures Store32(0x0A0B_0C0D) == [0x0D, 0x0C, 0x0B, 0x0A]
    ensures HeapPage.Store16(0x0A0B) == [0x0B, 0x0A]
  {
    DivUnique(0x0A0B_0C0D, 0x100, 0x0A_0B0C, 0x0D);
    DivUnique(0x0A_0B0C, 0x100, 0x0A0B, 0x0C);
    DivUnique(0x0A0B_0C0D, 0x1_0000, 0x0A0B, 0x0C0D);
    DivUnique(0x0A0B_0C0D, 0x100_0000, 0x0A, 0x0B_0C0D);
    DivUnique(0x0A0B, 0x100, 0x0A, 0x0B);
  }

  /** A long header counts itself, shifted over two kind bits; a short one does, over one. */
  lemma VarlenaBytes(x: byte)
    ensures Plain([x]) == [20, 0, 0, 0, x]
    ensures Short([x]) == [5, x]
  {
  }

  /** The compressed kind, and the size of the raw data. */
  lemma CompressedHeader(x: byte)
    ensures CompressedInline(0x0102, [x]) == [38, 0, 0, 0, 2, 1, 0, 0, x]
  {
  }

  /** A pointer names the sizes, the value and the toast table. */
  lemma PointerBytes()
    ensures ToastPointer(0x0102, 0x0304, 0x0506, 0x0708)
         == [1, 18, 2, 1, 0, 0, 4, 3, 0, 0, 6, 5, 0, 0, 8, 7, 0, 0]
  {
  }

  /** Pointers held in memory take eight bytes behind their tag, those on disk sixteen. */
  lemma PointerSizes(tail: seq<byte>)
    ensures VarSizeAny([1, 1] + tail, 0) == VarSizeAny([1, 2] + tail, 0) == VarSizeAny([1, 3] + tail, 0) == 10
    ensures VarSizeAny([1, 18] + tail, 0) == 18
    ensures forall tag: byte :: tag !in {1, 2, 3, 18} ==> VarSizeAny([1, tag] + tail, 0) == 2
  {
  }

  // ---------------------------------------------------------------- compressed data

  lemma TagBytes()
    ensures Pglz.TagAt([0x1E, 0x05], 0) == Some((0x105, 17, 2))
    ensures Pglz.TagAt([0x2F, 0x03, 0x07], 0) == Some((0x203, 25, 3))
    ensures Pglz.TagAt([0x2F, 0x03], 0) == None
  {
  }

  const RAW: seq<byte> := [49, 49, 50, 51, 52]
  const COMPRESSED: seq<byte> := [0x20, 49, 49, 50, 51, 52, 0x0D, 0x04]

  /** The example of the decompressor's comment: five literals "11234", then sixteen bytes from four back. */
  lemma CompressedBytes()
    ensures Pglz.Decompress(COMPRESSED, 21, true) == Pglz.Decoded(8, RAW + RAW[1..] + RAW[1..] + RAW[1..] + RAW[1..])
  {
    hide Pglz.Run;
    FiveLiterals();
    ExampleTag();
    Pglz.RunStep(COMPRESSED, 21, 6, 3, 1, RAW);
    var out := Pglz.CopyBack(RAW, 4, 16);
    Pglz.RunEnds(COMPRESSED, 21, 8, 2, 0, out);
    RepeatsFour(out);
  }

  lemma RepeatsFour(out: seq<byte>)
    requires out == Pglz.CopyBack(RAW, 4, 16)
    ensures out == RAW + RAW[1..] + RAW[1..] + RAW[1..] + RAW[1..]
  {
    hide Pglz.CopyBack;
    var t := RAW + RAW[1..] + RAW[1..] + RAW[1..] + RAW[1..];
    forall k | 5 <= k < 21 ensures t[k] == t[k - 4] {}
    for i := 0 to 21
      invariant forall k :: 0 <= k < i ==> out[k] == t[k]
    {
      Pglz.CopyBackRepeats(RAW, 4, 16, i);
    }
  }

  lemma ExampleTag()
    ensures Pglz.TagAt(COMPRESSED, 6) == Some((4, 16, 8))
  {
  }

  /** And back: the encoder's bytes for these tokens. */
  lemma EncodedBytes()
    ensures var ts := [Pglz.Literal(49), Pglz.Literal(49), Pglz.Literal(50), Pglz.Literal(51), Pglz.Literal(52),
                       Pglz.Match(4, 16)];
      Pglz.Encodable(ts, 0) && Pglz.Compressed(ts) == COMPRESSED
  {
    hide Pglz.Encode, Pglz.Control, Pglz.Encodable;
    var a, b, c, d, m := Pglz.Literal(49), Pglz.Literal(50), Pglz.Literal(51), Pglz.Literal(52), Pglz.Match(4, 16);
    EncodeEnd(2);
    EncodeStep(m, [], 5);
    EncodeStep(d, [m], 4);
    EncodeStep(c, [d, m], 3);
    EncodeStep(b, [c, d, m], 2);
    EncodeStep(a, [b, c, d, m], 1);
    EncodeStep(a, [a, b, c, d, m], 0);
    assert [m] == [m] + [] && [d, m] == [d] + [m] && [c, d, m] == [c] + [d, m];
    assert [b, c, d, m] == [b] + [c, d, m] && [a, b, c, d, m] == [a] + [b, c, d, m];
    assert [a, a, b, c, d, m] == [a] + [a, b, c, d, m];
    EncodeControl([a, a, b, c, d, m]);
  }

  lemma EncodeEnd(k: nat)
    ensures Pglz.Encode([], k) == [] && Pglz.Control([], k) == 0 && Pglz.Encodable([], 21)
  {
  }

  lemma EncodeControl(ts: seq<Pglz.Token>)
    requires ts != [] && Pglz.Encodable(ts, 0) && forall t :: t in ts ==> Pglz.Writable(t, 4095)
    ensures Pglz.Compressed(ts) == [Pglz.ControlByte(ts)] + Pglz.Encode(ts, 8)
  {
  }

  /** One item, `n` of the eight before it. */
  lemma EncodeStep(t: Pglz.Token, rest: seq<Pglz.Token>, n: nat)
    requires n < 8 && Pglz.Writable(t, n) && forall x :: x in rest ==> Pglz.Writable(x, 4095)
    ensures forall x :: x in [t] + rest ==> Pglz.Writable(x, 4095)
    ensures Pglz.Encode([t] + rest, 8 - n) == Pglz.TokenBytes(t) + Pglz.Encode(rest, 7 - n)
    ensures Pglz.Control([t] + rest, 8 - n) == (if t.Match? then 1 else 0) + 2 * Pglz.Control(rest, 7 - n)
    ensures Pglz.Encodable([t] + rest, n) == Pglz.Encodable(rest, n + Pglz.Width(t))
  {
    assert ([t] + rest)[1..] == rest && ([t] + rest)[0] == t;
  }

  lemma FiveLiterals()
    ensures Pglz.Run(COMPRESSED, 21, 0, 0, 0, []) == Pglz.Run(COMPRESSED, 21, 6, 3, 1, RAW)
  {
    hide Pglz.Run, Pglz.TagAt;
    Pglz.RunStep(COMPRESSED, 21, 0, 0, 0, []);
    forall k | 0 <= k < 5 ensures RAW[..k] + [COMPRESSED[k + 1]] == RAW[..k + 1] {}
    assert RAW[..0] == [] && RAW[..5] == RAW;
    Pglz.RunStep(COMPRESSED, 21, 1, 8, 32, RAW[..0]);
    Pglz.RunStep(COMPRESSED, 21, 2, 7, 16, RAW[..1]);
    Pglz.RunStep(COMPRESSED, 21, 3, 6, 8, RAW[..2]);
    Pglz.RunStep(COMPRESSED, 21, 4, 5, 4, RAW[..3]);
    Pglz.RunStep(COMPRESSED, 21, 5, 4, 2, RAW[..4]);
  }

  // ---------------------------------------------------------------- tuples and pages

  const INT4: Column := Column(1, 23, 4, AlignInt)
  const INT8: Column := Column(2, 20, 8, AlignDouble)

  /** Eighteen bytes that decoding does not look at. */
  ghost const STAMP: HeapPage.Stamp := HeapPage.Stamp(Zeros(18), 0, 0)

  /** Any int4 and int8: two attributes, no null, 24 bytes of header, the second attribute at offset 8. */
  lemma RowBytes(a: seq<byte>, b: seq<byte>)
    requires |a| == 4 && |b| == 8
    ensures var row, schema := [Fixed(a), Fixed(b)], [INT4, INT8];
      && HeapPage.Writable(row, schema)
      && HeapPage.TupleBytes(STAMP, row, schema) == Zeros(18) + [2, 0, 0, 0, 24, 0] + a + [0, 0, 0, 0] + b
  {
    var row, schema := [Fixed(a), Fixed(b)], [INT4, INT8];
    hide Form, Bitmap, VarSizeAny, HeapPage.FixedHeader, HeapPage.MaxAlign, HeapPage.TupleBytes;
    NothingForms(schema, row, 16);
    TupleDeform.FormStep(schema, row, 1, 4);
    TupleDeform.FormStep(schema, row, 0, 0);
    assert Zeros(4) == [0, 0, 0, 0];
    assert Form(schema, row, 0, 0) == a + [0, 0, 0, 0] + b;
    FullHeader(row, schema);
    TupleParts(row, schema, Zeros(18) + [2, 0, 0, 0, 24], [], a + [0, 0, 0, 0] + b);
  }

  /** A header of 24 bytes: the fixed ones, and one of bitmap or padding. */
  lemma TupleParts(row: seq<Field>, schema: seq<Column>, head: seq<byte>, bits: seq<byte>, data: seq<byte>)
    requires HeapPage.Writable(row, schema) && HeapPage.HeaderSize(row) == 24
    requires HeapPage.FixedHeader(STAMP, row, schema) == head && HeapPage.NullBits(row) == bits && |bits| <= 1
    requires Form(schema, row, 0, 0) == data
    ensures HeapPage.TupleBytes(STAMP, row, schema) == head + (if bits == [] then [0] else bits) + data
  {
    hide Form, Bitmap, HeapPage.NullBits, HeapPage.FixedHeader, HeapPage.HeaderSize, HeapPage.Writable;
    assert Zeros(1) == [0] && Zeros(0) == [];
  }

  lemma FullHeader(row: seq<Field>, schema: seq<Column>)
    requires RowFits(row, schema) && |row| == 2 && !row[0].NullField? && !row[1].NullField?
    ensures HeapPage.Writable(row, schema) && !HeapPage.AnyNull(row) && HeapPage.HeaderSize(row) == 24
    ensures HeapPage.FixedHeader(STAMP, row, schema) == Zeros(18) + [2, 0, 0, 0, 24]
  {
    hide Bitmap, RowFits;
  }

  /** With its second attribute null: a null flag, a bitmap byte with the lowest bit set, and no more data. */
  lemma NullRowBytes(a: seq<byte>)
    requires |a| == 4
    ensures var row, schema := [Fixed(a), NullField], [INT4, INT8];
      && HeapPage.Writable(row, schema)
      && HeapPage.TupleBytes(STAMP, row, schema) == Zeros(18) + [2, 0, 1, 0, 24, 1] + a
  {
    var row, schema := [Fixed(a), NullField], [INT4, INT8];
    hide Form, Bitmap, VarSizeAny, HeapPage.FixedHeader, HeapPage.MaxAlign, HeapPage.TupleBytes;
    NothingForms(schema, row, 4);
    TupleDeform.FormNull(schema, row, 1, 4);
    TupleDeform.FormStep(schema, row, 0, 0);
    assert Zeros(0) == [];
    assert Form(schema, row, 0, 0) == a;
    FirstOfTwo(row);
    NullHeader(row, schema);
    TupleParts(row, schema, Zeros(18) + [2, 0, 1, 0, 24], [1], a);
  }

  lemma NullHeader(row: seq<Field>, schema: seq<Column>)
    requires RowFits(row, schema) && |row| == 2 && row[1].NullField? && Bitmap(row, 0) == [1]
    ensures HeapPage.Writable(row, schema) && HeapPage.AnyNull(row) && HeapPage.HeaderSize(row) == 24
    ensures HeapPage.FixedHeader(STAMP, row, schema) == Zeros(18) + [2, 0, 1, 0, 24]
  {
    hide Bitmap, RowFits;
  }

  lemma FirstOfTwo(row: seq<Field>)
    requires |row| == 2 && !row[0].NullField? && row[1].NullField?
    ensures Bitmap(row, 0) == [1]
  {
    assert Flags(row, 5, 3) == 0;
    assert Flags(row, 2, 6) == 0;
    assert Bitmap(row, 8) == [];
  }

  const BOOL: Column := Column(1, 16, 1, AlignChar)
  const CSTRING: Column := Column(2, 2275, -2, AlignChar)
  const TEXT: Column := Column(1, 25, -1, AlignInt)

  /** A bool, a C string with its zero byte, padding, and an int4. */
  lemma StringBytes(a: seq<byte>)
    requires |a| == 4
    ensures var row, schema := [Fixed([1]), CString([65]), Fixed(a)], [BOOL, CSTRING, INT4];
      RowFits(row, schema) && Form(schema, row, 0, 0) == [1, 65, 0, 0] + a
  {
    hide Form, VarSizeAny;
    var row, schema := [Fixed([1]), CString([65]), Fixed(a)], [BOOL, CSTRING, INT4];
    NothingForms(schema, row, 8);
    TupleDeform.FormStep(schema, row, 2, 3);
    TupleDeform.FormStep(schema, row, 1, 1);
    TupleDeform.FormStep(schema, row, 0, 0);
    assert Zeros(0) == [] && Zeros(1) == [0];
  }

  /** A short datum stands where the one before it ends, a long one behind padding. */
  lemma TextFieldBytes()
    ensures var row, schema := [ShortVar([65]), ShortVar([66]), LongVar([67])], [TEXT, TEXT, TEXT];
      RowFits(row, schema) && Form(schema, row, 0, 0) == [5, 65, 5, 66, 20, 0, 0, 0, 67]
    ensures var row, schema := [ShortVar([65]), LongVar([67])], [TEXT, TEXT];
      RowFits(row, schema) && Form(schema, row, 0, 0) == [5, 65, 0, 0, 20, 0, 0, 0, 67]
  {
    hide Form, FieldBytes, Plain, Short;
    var row, two, schema := [ShortVar([65]), ShortVar([66]), LongVar([67])], [ShortVar([65]), LongVar([67])],
        [TEXT, TEXT, TEXT];
    TextFields();
    NothingForms(schema, row, 9);
    TupleDeform.FormStep(schema, row, 2, 4);
    TupleDeform.FormStep(schema, row, 1, 2);
    TupleDeform.FormStep(schema, row, 0, 0);
    assert Zeros(0) == [] && Zeros(2) == [0, 0];
    NothingForms([TEXT, TEXT], two, 9);
    TupleDeform.FormStep([TEXT, TEXT], two, 1, 2);
    TupleDeform.FormStep([TEXT, TEXT], two, 0, 0);
  }

  lemma TextFields()
    ensures FieldBytes(ShortVar([65])) == [5, 65] && FieldBytes(ShortVar([66])) == [5, 66]
    ensures FieldBytes(LongVar([67])) == [20, 0, 0, 0, 67]
  {
  }

  /** A tuple of 40 bytes at offset 8152, and the free space behind three line pointers. */
  lemma LineBytes()
    ensures HeapPage.LinePointer(HeapPage.Item(8152, 1, 40)) == [0xD8, 0x9F, 0x50, 0]
    ensures HeapPage.LinePointer(HeapPage.Item(32, 1, 34)) == [0x20, 0x80, 0x44, 0]
  {
  }

  /** The attributes of a chunk tuple: value id, chunk number, data. */
  lemma ChunkBytes()
    ensures ToastScan.TOAST_SCHEMA
         == [Column(1, 26, 4, AlignInt), Column(1, 23, 4, AlignInt), Column(1, 17, -1, AlignInt)]
    ensures var c := ToastCaches.Chunk(0x0102_0304, 2, [65]);
      Form(ToastScan.TOAST_SCHEMA, ToastScan.RowOf(c, ShortVar([65])), 0, 0) == [4, 3, 2, 1, 2, 0, 0, 0, 5, 65]
  {
    hide Form, FieldBytes, Plain, Store32, Short;
    var schema := ToastScan.TOAST_SCHEMA;
    var c := ToastCaches.Chunk(0x0102_0304, 2, [65]);
    var row := ToastScan.RowOf(c, ShortVar([65]));
    ChunkFields(row);
    assert ToastScan.StoredAs(c, ShortVar([65]));
    ToastScan.RowFitsSchema(c, ShortVar([65]));
    NothingForms(schema, row, 10);
    TupleDeform.FormStep(schema, row, 2, 8);
    TupleDeform.FormStep(schema, row, 1, 4);
    TupleDeform.FormStep(schema, row, 0, 0);
    assert Zeros(0) == [];
  }

  lemma NothingForms(schema: seq<Column>, row: seq<Field>, off: nat)
    requires RowFits(row, schema)
    ensures Form(schema, row, |row|, off) == []
  {
  }

  lemma ChunkFields(row: seq<Field>)
    requires row == [Fixed(Store32(0x0102_0304)), Fixed(Store32(2)), ShortVar([65])]
    ensures FieldBytes(row[0]) == [4, 3, 2, 1] && FieldBytes(row[1]) == [2, 0, 0, 0] && FieldBytes(row[2]) == [5, 65]
  {
  }

  const TUPLE_TAIL: seq<byte> := [3, 0, 0, 0, 24, 0, 4, 3, 2, 1, 2, 0, 0, 0, 5, 65]

  /** A page of one line pointer, the free space behind it, and one chunk tuple of 34 bytes at offset 32. */
  lemma PageBytes()
    ensures var page := Zeros(12) + [28, 0] + Zeros(10) + [32, 0x80, 0x44, 0] + Zeros(4) + (Zeros(18) + TUPLE_TAIL);
      ToastScan.PageLays(page, [ToastScan.Line(HeapPage.Item(32, 1, 34),
                                               Some(ToastCaches.Chunk(0x0102_0304, 2, [65])))])
  {
    hide HeapPage.TupleBytes, HeapPage.Writable, HeapPage.Store16, HeapPage.LinePointer, ToastScan.StoredAs;
    var c, f, item := ToastCaches.Chunk(0x0102_0304, 2, [65]), ShortVar([65]), HeapPage.Item(32, 1, 34);
    var page := Zeros(12) + [28, 0] + Zeros(10) + [32, 0x80, 0x44, 0] + Zeros(4) + (Zeros(18) + TUPLE_TAIL);
    PageParts(Zeros(12), [28, 0], Zeros(10), [32, 0x80, 0x44, 0], Zeros(4), Zeros(18) + TUPLE_TAIL);
    ChunkTuple();
    LineBytes();
    FreeSpaceBytes();
    assert ToastScan.TupleFor(page, item, c, STAMP, f);
  }

  lemma FreeSpaceBytes()
    ensures HeapPage.Store16(28) == [28, 0]
  {
  }

  lemma PageParts(a: seq<byte>, b: seq<byte>, c: seq<byte>, d: seq<byte>, e: seq<byte>, f: seq<byte>)
    requires |a| == 12 && |b| == 2 && |c| == 10 && |d| == 4 && |e| == 4 && |f| == 34
    ensures var page := a + b + c + d + e + f;
      |page| == 66 && page[12..14] == b && page[24..28] == d && page[32..66] == f
  {
  }

  lemma ChunkTuple()
    ensures var c, f := ToastCaches.Chunk(0x0102_0304, 2, [65]), ShortVar([65]);
      && ToastScan.StoredAs(c, f) && HeapPage.Writable(ToastScan.RowOf(c, f), ToastScan.TOAST_SCHEMA)
      && HeapPage.TupleBytes(STAMP, ToastScan.RowOf(c, f), ToastScan.TOAST_SCHEMA)
         == Zeros(18) + TUPLE_TAIL
  {
    hide Form, Store32, Bitmap;
    var c, f := ToastCaches.Chunk(0x0102_0304, 2, [65]), ShortVar([65]);
    ChunkBytes();
    ToastScan.RowFitsSchema(c, f);
    assert Zeros(1) == [0];
  }

  /** How the values of a chunk tuple are decoded: oid, int4, bytea. */
  lemma ValueBytes()
    ensures ToastScan.DecodeValue([0, 1, 0, 0x80], 26) == TupleDeform.Word(0x8000_0100)
    ensures ToastScan.DecodeValue([0xFE, 0xFF, 0xFF, 0xFF], 23) == TupleDeform.Word(-2)
    ensures ToastScan.DecodeValue([5, 65], 17) == TupleDeform.Memory([5, 65])
  {
  }

  // ---------------------------------------------------------------- JSONB

  /** Every 32nd entry holds an end offset. */
  const STRIDE: JsonbPack.Stride := i => i % 32 == 0

  /** A container of two children: header, two entries, and the data of both. */
  lemma TwoKids(j: JsonbFormat.Json, e: nat, e': nat, d: seq<byte>, d': seq<byte>)
    requires j.IsContainer() && |j.kids| == 2
    requires JsonbPack.EntryWord(j.kids, 0, STRIDE) == e && JsonbPack.EntryWord(j.kids, 1, STRIDE) == e'
    requires JsonbPack.KidBytes(j.kids[0], 0, STRIDE) == d && JsonbPack.KidBytes(j.kids[1], |d|, STRIDE) == d'
    ensures JsonbPack.Pack(j, STRIDE)
         == JsonbPack.Word(JsonbFormat.HeaderOf(j)) + (JsonbPack.Word(e) + JsonbPack.Word(e')) + (d + d')
  {
    hide JsonbPack.KidBytes, JsonbPack.Word, JsonbPack.EntryWord, JsonbFormat.KidLength, JsonbFormat.HeaderOf;
    assert JsonbPack.EntryBytes(j.kids, 0, STRIDE) == [] == JsonbPack.DataBytes(j.kids, 0, STRIDE);
    assert JsonbFormat.Offset(j.kids, 0) == 0;
    assert JsonbFormat.Offset(j.kids, 1) == |d|;
    assert JsonbPack.DataBytes(j.kids, 1, STRIDE) == d;
  }

  const A: JsonbFormat.Json := JsonbFormat.String([97])
  const EMPTY: JsonbFormat.Json := JsonbFormat.Array([], false)
  const NESTED: JsonbFormat.Json := JsonbFormat.Array([A, EMPTY], false)
  const PAIR: JsonbFormat.Json := JsonbFormat.Object([A, JsonbFormat.Bool(true)])

  /** ["a", []]: three bytes of padding in front of the inner array. */
  lemma ArrayBytes()
    ensures JsonbPack.Pack(NESTED, STRIDE)
         == [2, 0, 0, 0x40, 1, 0, 0, 0x80, 7, 0, 0, 0x50, 97, 0, 0, 0, 0, 0, 0, 0x40]
  {
    hide JsonbPack.Pack, JsonbPack.EntryWord, JsonbPack.KidBytes, JsonbPack.Word;
    NestedEntries();
    TwoKids(NESTED, 0x8000_0001, 0x5000_0007, [97], [0, 0, 0, 0, 0, 0, 0x40]);
    NestedWords();
    NestedHeader();
  }

  lemma NestedWords()
    ensures JsonbPack.Word(0x8000_0001) == [1, 0, 0, 0x80] && JsonbPack.Word(0x5000_0007) == [7, 0, 0, 0x50]
  {
  }

  lemma NestedHeader()
    ensures JsonbPack.Word(JsonbFormat.HeaderOf(NESTED)) == [2, 0, 0, 0x40]
  {
  }

  lemma NestedEntries()
    ensures JsonbPack.EntryWord(NESTED.kids, 0, STRIDE) == 0x8000_0001
    ensures JsonbPack.EntryWord(NESTED.kids, 1, STRIDE) == 0x5000_0007
    ensures JsonbPack.KidBytes(A, 0, STRIDE) == [97]
    ensures JsonbPack.KidBytes(EMPTY, 1, STRIDE) == [0, 0, 0, 0, 0, 0, 0x40]
  {
    assert JsonbFormat.Offset(NESTED.kids, 0) == 0;
    assert JsonbFormat.Offset(NESTED.kids, 1) == 1;
    assert JsonbPack.Pack(EMPTY, STRIDE) == [0, 0, 0, 0x40];
    assert Zeros(3) == [0, 0, 0];
  }

  /** {"a": true} */
  lemma ObjectBytes()
    ensures JsonbPack.Pack(PAIR, STRIDE) == [1, 0, 0, 0x20, 1, 0, 0, 0x80, 0, 0, 0, 0x30, 97]
  {
    hide JsonbPack.Pack, JsonbPack.EntryWord, JsonbPack.KidBytes;
    PairEntries();
    TwoKids(PAIR, 0x8000_0001, 0x3000_0000, [97], []);
  }

  lemma PairEntries()
    ensures JsonbPack.EntryWord(PAIR.kids, 0, STRIDE) == 0x8000_0001
    ensures JsonbPack.EntryWord(PAIR.kids, 1, STRIDE) == 0x3000_0000
    ensures JsonbPack.KidBytes(A, 0, STRIDE) == [97] && JsonbPack.KidBytes(JsonbFormat.Bool(true), 1, STRIDE) == []
  {
    assert JsonbFormat.Offset(PAIR.kids, 0) == 0;
    assert JsonbFormat.Offset(PAIR.kids, 1) == 1;
    assert JsonbFormat.TypeTag(PAIR.kids[1]) == 3;
  }

  /** [false, n], `n` being a number of two bytes */
  lemma NumberBytes(n: seq<byte>)
    requires |n| == 2
    ensures JsonbPack.Pack(JsonbFormat.Array([JsonbFormat.Bool(false), JsonbFormat.Numeric(n)], false), STRIDE)
         == [2, 0, 0, 0x40, 0, 0, 0, 0xA0, 2, 0, 0, 0x10] + n
  {
    hide JsonbPack.Pack, JsonbPack.EntryWord, JsonbPack.KidBytes;
    var j := JsonbFormat.Array([JsonbFormat.Bool(false), JsonbFormat.Numeric(n)], false);
    NumberEntries(j.kids, n);
    TwoKids(j, 0xA000_0000, 0x1000_0002, [], n);
  }

  lemma NumberEntries(kids: seq<JsonbFormat.Json>, n: seq<byte>)
    requires |n| == 2 && kids == [JsonbFormat.Bool(false), JsonbFormat.Numeric(n)]
    ensures JsonbPack.EntryWord(kids, 0, STRIDE) == 0xA000_0000 && JsonbPack.EntryWord(kids, 1, STRIDE) == 0x1000_0002
    ensures JsonbPack.KidBytes(kids[0], 0, STRIDE) == [] && JsonbPack.KidBytes(kids[1], 0, STRIDE) == n
  {
    assert JsonbFormat.Offset(kids, 0) == 0;
    assert JsonbFormat.Offset(kids, 1) == 0;
    assert JsonbFormat.TypeTag(kids[0]) == 2;
    assert Zeros(0) == [];
  }

  /** null */
  lemma ScalarBytes()
    ensures JsonbPack.Pack(JsonbFormat.Array([JsonbFormat.Null], true), STRIDE) == [1, 0, 0, 0x50, 0, 0, 0, 0xC0]
  {
  }

  /** ["a", []] and {"a": true} as texts */
  lemma TextBytes()
    ensures JsonbRender.Render(NESTED) == [91, 34, 97, 34, 44, 32, 91, 93, 93]
    ensures JsonbRender.Render(PAIR) == [123, 34, 97, 34, 58, 32, 116, 114, 117, 101, 125]
  {
    LetterText();
    assert JsonbRender.RenderElements(NESTED.kids, 2) == [];
    assert JsonbRender.RenderElements(EMPTY.kids, 0) == [];
    assert JsonbRender.RenderElements(NESTED.kids, 1) == [44, 32] + [91, 93] + [];
    assert JsonbRender.RenderPairs(PAIR.kids, 1) == [];
    assert JsonbRender.Render(PAIR.kids[1]) == [116, 114, 117, 101];
    assert JsonbRender.RenderPairs(PAIR.kids, 0)
        == [] + ([34, 97, 34] + [58, 32]) + ([116, 114, 117, 101] + []);
  }

  lemma LetterText()
    ensures JsonbRender.Render(A) == [34, 97, 34]
  {
    assert UntilZero([97]) == [97];
    assert JsonbRender.EscapeAll([97]) == [97] + JsonbRender.EscapeAll([]);
  }

  /** The characters that are escaped: by a letter, by four hexadecimal digits, or not at all. */
  lemma EscapedBytes()
    ensures JsonbRender.Escape(8) == [92, 98] && JsonbRender.Escape(9) == [92, 116]
    ensures JsonbRender.Escape(10) == [92, 110] && JsonbRender.Escape(12) == [92, 102]
    ensures JsonbRender.Escape(13) == [92, 114]
    ensures JsonbRender.Escape(34) == [92, 34] && JsonbRender.Escape(92) == [92, 92]
    ensures JsonbRender.Escape(31) == [92, 117, 48, 48, 49, 102]
  {
  }

  /** Which characters take a letter, which four digits, and which are not escaped. */
  lemma EscapedOrNot(c: byte)
    ensures |JsonbRender.Escape(c)| == 6 <==> c < 32 && c !in {8, 9, 10, 12, 13}
    ensures JsonbRender.Escape(c) == [c] <==> c >= 32 && c !in {34, 92}
  {
  }

  // ---------------------------------------------------------------- the reader of JSON text

  /** White space, escapes in either case of hexadecimal digits, and characters of two and three bytes. */
  lemma ReaderBytes(rest: seq<byte>)
    ensures JsonReader.SkipSpace([32, 9, 10, 13, 44]) == [44]
    ensures JsonReader.ReadChar([92, 47] + rest) == JsonReader.Got([47], rest)
    ensures JsonReader.ReadChar([92, 117, 48, 48, 69, 57] + rest) == JsonReader.Got([0xC3, 0xA9], rest)
  {
  }

  lemma ReaderBytesLonger(rest: seq<byte>)
    ensures JsonReader.ReadChar([92, 117, 50, 48, 97, 99] + rest) == JsonReader.Got([0xE2, 0x82, 0xAC], rest)
    ensures JsonReader.ReadChar([92, 117, 68, 56, 48, 48] + rest) == JsonReader.Bad
  {
  }
}
