/** Heap tuples: attribute layout (pg_heap.h) and the former that deform_tuple has to undo. */
module Tuples {
  import opened Base
  import opened Varlenas

  datatype Align = AlignChar | AlignShort | AlignInt | AlignDouble

  /** attlen: a fixed width, -1 for a varlena, -2 for a C string. */
  datatype Column = Column(attnum: int, atttypid: int, attlen: int, attalign: Align) {
    predicate Legal() { attnum > 0 && (attlen > 0 || attlen == -1 || attlen == -2) }
  }

  /** A decoded tuple header and the memory behind it; `len - hoff` bytes of `data` belong to the tuple. */
  datatype HeapTuple = HeapTuple(natts: nat, hasNulls: bool, bits: seq<byte>, hoff: nat, len: nat, data: seq<byte>)

  // ---------------------------------------------------------------- reading

  /** The boundary each alignment letter stands for. */
  function Boundary(a: Align): nat {
    match a
    case AlignChar => 1
    case AlignShort => 2
    case AlignInt => 4
    case AlignDouble => 8
  }

  /** att_align_nominal: the next multiple of the boundary. */
  function AlignNominal(off: nat, a: Align): (r: nat)
    ensures r % Boundary(a) == 0 && off <= r < off + Boundary(a)
  {
    RoundsUp(off, Boundary(a));
    match a
    case AlignChar => off
    case AlignShort => (off + 1) / 2 * 2
    case AlignInt => (off + 3) / 4 * 4
    case AlignDouble => (off + 7) / 8 * 8
  }

  /** Bit `k` of `x`. */
  predicate Bit(x: nat, k: nat) {
    if k == 0 then x % 2 == 1 else Bit(x / 2, k - 1)
  }

  /** att_isnull: the attribute's bit is clear. */
  predicate AttIsNull(i: nat, bits: seq<byte>)
    requires i / 8 < |bits|
  {
    !Bit(bits[i / 8] as int, i % 8)
  }

  /** The null flag as deform_tuple decides it. */
  predicate IsNullAt(t: HeapTuple, i: nat)
    requires i < t.natts && t.hasNulls ==> i / 8 < |t.bits|
  {
    i >= t.natts || (t.hasNulls && AttIsNull(i, t.bits))
  }

  /** strlen plus one, if the string ends inside the memory. */
  function StringSize(m: seq<byte>, at: nat): (r: Option<nat>)
    requires at <= |m|
    ensures r.Some? ==> at + r.value <= |m|
    decreases |m| - at
  {
    if at == |m| then None
    else if m[at] == 0 then Some(1)
    else match StringSize(m, at + 1) case None => None case Some(n) => Some(n + 1)
  }

  /** att_align_pointer for a varlena: a byte that is not zero starts a datum where it stands. */
  function AlignPointer(m: seq<byte>, off: nat, a: Align): (r: nat)
    requires off < |m|
    ensures off <= r
  {
    if NotPadByte(m[off]) then off else AlignNominal(off, a)
  }

  /** The size that att_addlength_pointer adds, if it can be told without leaving the memory. */
  function AttributeSize(m: seq<byte>, at: nat, attlen: int): Option<nat> {
    if attlen > 0 then Some(attlen)
    else if attlen == -1 then (if HeaderReadable(m, at) then Some(VarSizeAny(m, at)) else None)
    else if at <= |m| then StringSize(m, at)
    else None
  }

  /** Where the attribute that follows offset `off` starts and ends; None if finding out, or the attribute
      itself, runs past the memory. */
  function Locate(m: seq<byte>, col: Column, off: nat): (r: Option<(nat, nat)>)
    ensures r.Some? ==> off <= r.value.0 <= r.value.1 <= |m|
  {
    if col.attlen == -1 && off >= |m| then None
    else
      var start := if col.attlen == -1 then AlignPointer(m, off, col.attalign) else AlignNominal(off, col.attalign);
      match AttributeSize(m, start, col.attlen)
      case None => None
      case Some(n) => if start + n > |m| then None else Some((start, start + n))
  }

  /** One attribute of a deformed tuple. */
  datatype Cell = NullCell | FieldAt(off: nat)

  /** The null bitmap covers the tuple's attributes. */
  ghost predicate BitmapCovers(t: HeapTuple) {
    t.hasNulls ==> t.natts <= 8 * |t.bits|
  }

  /** Every attribute from `i` on can be located, the one before it ending at `off`. */
  ghost predicate Readable(t: HeapTuple, schema: seq<Column>, i: nat, off: nat)
    requires BitmapCovers(t) && i <= |schema| && forall c :: c in schema ==> c.Legal()
    decreases |schema| - i
  {
    i == |schema|
    || (if IsNullAt(t, i) then Readable(t, schema, i + 1, off)
        else
          var f := Locate(t.data, schema[i], off);
          f.Some? && Readable(t, schema, i + 1, f.value.1))
  }

  ghost function Cells(t: HeapTuple, schema: seq<Column>, i: nat, off: nat): (r: seq<Cell>)
    requires BitmapCovers(t) && i <= |schema| && forall c :: c in schema ==> c.Legal()
    requires Readable(t, schema, i, off)
    ensures |r| == |schema| - i
    decreases |schema| - i
  {
    if i == |schema| then []
    else if IsNullAt(t, i) then [NullCell] + Cells(t, schema, i + 1, off)
    else
      var f := Locate(t.data, schema[i], off).value;
      [FieldAt(f.0)] + Cells(t, schema, i + 1, f.1)
  }

  // ---------------------------------------------------------------- forming

  /** One attribute to be stored. */
  datatype Field =
    | NullField
    | Fixed(bytes: seq<byte>)
    | CString(text: seq<byte>)
    | ShortVar(p: seq<byte>)
    | LongVar(p: seq<byte>)
    | CompressedVar(rawsize: nat, comp: seq<byte>)
    | ExternalVar(rawsize: nat, extsize: nat, id: nat, relid: nat)

  ghost predicate Storable(f: Field) {
    match f
    case CString(text) => 0 !in text
    case ShortVar(p) => |p| < 127
    case LongVar(p) => |p| + 4 < PLAIN_MAX
    case CompressedVar(rawsize, comp) => rawsize < PLAIN_MAX && |comp| + 8 < PLAIN_MAX
    case ExternalVar(rawsize, extsize, id, relid) =>
      rawsize < 0x8000_0000 && extsize < PLAIN_MAX && id < 0x1_0000_0000 && relid < 0x1_0000_0000
    case _ => true
  }

  ghost predicate FitsColumn(f: Field, col: Column) {
    && Storable(f)
    && (f.Fixed? ==> col.attlen > 0 && |f.bytes| == col.attlen)
    && (f.CString? ==> col.attlen == -2)
    && (f.ShortVar? || f.LongVar? || f.CompressedVar? || f.ExternalVar? ==> col.attlen == -1)
  }

  ghost function FieldBytes(f: Field): seq<byte>
    requires Storable(f)
  {
    match f
    case NullField => []
    case Fixed(bytes) => bytes
    case CString(text) => text + [0]
    case ShortVar(p) => Short(p)
    case LongVar(p) => Plain(p)
    case CompressedVar(rawsize, comp) => CompressedInline(rawsize, comp)
    case ExternalVar(rawsize, extsize, id, relid) => ToastPointer(rawsize, extsize, id, relid)
  }

  /** Padding in front of a field; short and external varlenas are stored unaligned. */
  ghost function PadBytes(f: Field, col: Column, off: nat): nat {
    if f.ShortVar? || f.ExternalVar? then 0 else AlignNominal(off, col.attalign) - off
  }

  ghost predicate RowFits(row: seq<Field>, schema: seq<Column>) {
    |row| <= |schema| && forall k {:trigger row[k]} :: 0 <= k < |row| ==> FitsColumn(row[k], schema[k])
  }

  /** The data area from field `i` on, `off` bytes being laid out before it. */
  ghost function Form(schema: seq<Column>, row: seq<Field>, i: nat, off: nat): seq<byte>
    requires i <= |row| && RowFits(row, schema)
    decreases |row| - i
  {
    if i == |row| then []
    else if row[i].NullField? then Form(schema, row, i + 1, off)
    else
      var b := Zeros(PadBytes(row[i], schema[i], off)) + FieldBytes(row[i]);
      b + Form(schema, row, i + 1, off + |b|)
  }

  /** `n` flags in a byte, the first in the lowest bit. */
  ghost function Flags(row: seq<Field>, i: nat, n: nat): nat
    decreases n
  {
    if n == 0 then 0
    else (if i < |row| && !row[i].NullField? then 1 else 0) + 2 * Flags(row, i + 1, n - 1)
  }

  ghost function FlagByte(row: seq<Field>, i: nat): byte {
    assert Flags(row, i + 4, 4) < 16;
    assert Flags(row, i + 2, 6) < 64;
    Flags(row, i, 8) as byte
  }

  /** The null bitmap: a set bit for every attribute that is present. */
  ghost function Bitmap(row: seq<Field>, i: nat): seq<byte>
    decreases |row| - i
  {
    if i >= |row| then [] else [FlagByte(row, i)] + Bitmap(row, i + 8)
  }

  lemma {:induction false} FlagsBit(row: seq<Field>, i: nat, n: nat, k: nat)
    requires k < n
    ensures Bit(Flags(row, i, n), k) <==> i + k < |row| && !row[i + k].NullField?
    decreases n
  {
    if k == 0 {
    } else {
      FlagsBit(row, i + 1, n - 1, k - 1);
      assert Flags(row, i, n) / 2 == Flags(row, i + 1, n - 1);
    }
  }

  /** The bitmap tells each attribute's null flag. */
  lemma {:induction false} BitmapTells(row: seq<Field>, i: nat, k: nat)
    requires i <= k < |row| && i % 8 == 0
    ensures (k - i) / 8 < |Bitmap(row, i)|
    ensures Bit(Bitmap(row, i)[(k - i) / 8] as int, k % 8) <==> !row[k].NullField?
    decreases |row| - i
  {
    hide FlagByte, Bit, Bitmap;
    BitmapStep(row, i);
    if k < i + 8 {
      FlagByteBit(row, i, k);
      DivUnique(k - i, 8, 0, k - i);
      DivUnique(k, 8, i / 8, k - i);
    } else {
      NextEight(i, k);
      BitmapTells(row, i + 8, k);
    }
  }

  lemma NextEight(i: nat, k: nat)
    requires i + 8 <= k && i % 8 == 0
    ensures (i + 8) % 8 == 0 && (k - i) / 8 == (k - (i + 8)) / 8 + 1
  {
    var q, r := (k - (i + 8)) / 8, (k - (i + 8)) % 8;
    DivUnique(i + 8, 8, i / 8 + 1, 0);
    DivUnique(k - i, 8, q + 1, r);
  }

  lemma BitmapStep(row: seq<Field>, i: nat)
    requires i < |row|
    ensures Bitmap(row, i) == [FlagByte(row, i)] + Bitmap(row, i + 8)
  {
  }

  lemma FlagByteBit(row: seq<Field>, i: nat, k: nat)
    requires i <= k < i + 8
    ensures Bit(FlagByte(row, i) as int, k - i) <==> k < |row| && !row[k].NullField?
  {
    hide Flags, Bit;
    FlagsBit(row, i, 8, k - i);
  }

  lemma {:induction false} BitmapLength(row: seq<Field>, i: nat)
    ensures |row| - i <= 8 * |Bitmap(row, i)|
    decreases |row| - i
  {
    if i >= |row| {
    } else {
      BitmapLength(row, i + 8);
    }
  }

  // ---------------------------------------------------------------- a formed field is found again

  lemma StringFound(m: seq<byte>, at: nat, text: seq<byte>)
    requires at + |text| < |m| && m[at..at + |text|] == text && 0 !in text && m[at + |text|] == 0
    ensures StringSize(m, at) == Some(|text| + 1)
    decreases |text|
  {
    if text == [] {
    } else {
      assert m[at] == m[at..at + |text|][0] == text[0];
      assert text[0] in text;
      assert m[at + 1..at + 1 + |text[1..]|] == m[at..at + |text|][1..];
      StringFound(m, at + 1, text[1..]);
    }
  }

  /** VARSIZE_ANY of each varlena form is its length; only a long header can start with a zero byte. */
  lemma VarFound(m: seq<byte>, at: nat, f: Field)
    requires Storable(f) && !(f.NullField? || f.Fixed? || f.CString?)
    requires at + |FieldBytes(f)| <= |m| && m[at..at + |FieldBytes(f)|] == FieldBytes(f)
    ensures HeaderReadable(m, at) && VarSizeAny(m, at) == |FieldBytes(f)|
    ensures f.ShortVar? || f.ExternalVar? ==> NotPadByte(m[at])
  {
    hide Header4B, Header4BC, Load32, Store32;
    var b := FieldBytes(f);
    assert m[at] == m[at..at + |b|][0] == b[0];
    match f
    case ShortVar(p) => assert b[0] as int == 2 * |p| + 3;
    case ExternalVar(_, _, _, _) => assert m[at + 1] == m[at..at + |b|][1] == 18;
    case LongVar(p) =>
      assert m[at..at + 4] == m[at..at + |b|][..4] == Header4B(|p| + 4);
      Header4BRead(m, at, |p| + 4);
    case CompressedVar(_, comp) =>
      assert m[at..at + 4] == m[at..at + |b|][..4] == Header4BC(|comp| + 8);
      Header4BCRead(m, at, |comp| + 8);
  }

  lemma Pieces(m: seq<byte>, at: nat, a: seq<byte>, b: seq<byte>)
    requires at + |a + b| <= |m| && m[at..at + |a + b|] == a + b
    ensures m[at + |a|..at + |a| + |b|] == b
    ensures a != [] ==> m[at] == a[0]
  {
    var s := m[at..at + |a + b|];
    assert m[at + |a|..at + |a| + |b|] == s[|a|..] == b;
    assert a != [] ==> m[at] == s[0];
  }

  lemma StringFieldFound(m: seq<byte>, at: nat, text: seq<byte>)
    requires at + |text| + 1 <= |m| && m[at..at + |text| + 1] == text + [0] && 0 !in text
    ensures StringSize(m, at) == Some(|text| + 1)
  {
    var s := m[at..at + |text| + 1];
    assert m[at + |text|] == s[|text|] == 0;
    assert m[at..at + |text|] == s[..|text|] == text;
    StringFound(m, at, text);
  }

  /** The field behind its padding is located at its first byte and up to its last. */
  lemma FieldFound(m: seq<byte>, off: nat, f: Field, col: Column)
    requires col.Legal() && FitsColumn(f, col) && !f.NullField?
    requires var b := Zeros(PadBytes(f, col, off)) + FieldBytes(f);
      off + |b| <= |m| && m[off..off + |b|] == b
    ensures var start := off + PadBytes(f, col, off);
      && Locate(m, col, off) == Some((start, start + |FieldBytes(f)|))
      && m[start..start + |FieldBytes(f)|] == FieldBytes(f)
  {
    hide VarSizeAny, StringSize, HeaderReadable, AlignNominal, FieldBytes, Storable;
    var pad, w := Zeros(PadBytes(f, col, off)), FieldBytes(f);
    var start := off + |pad|;
    Pieces(m, off, pad, w);
    FieldShape(f);
    if f.CString? {
      StringFieldFound(m, start, f.text);
    } else if !f.Fixed? {
      VarFound(m, start, f);
    }
  }

  lemma FieldShape(f: Field)
    requires Storable(f)
    ensures f.Fixed? ==> FieldBytes(f) == f.bytes
    ensures f.CString? ==> FieldBytes(f) == f.text + [0] && 0 !in f.text
    ensures !(f.NullField? || f.Fixed?) ==> FieldBytes(f) != []
  {
  }
}
