/** deform_tuple and slot_getattr (pg_data.c), with reset_slot (pg_page.c). */
module TupleDeform {
  import opened Base
  import opened Tuples

  // ---------------------------------------------------------------- deforming what was formed

  /** A tuple laid out by the former: `row` may be shorter than the schema; `tail` is memory behind it. */
  ghost predicate FormedFrom(t: HeapTuple, schema: seq<Column>, row: seq<Field>, tail: seq<byte>)
  {
    && RowFits(row, schema)
    && t.natts == |row|
    && t.data == Form(schema, row, 0, 0) + tail
    && (if t.hasNulls then Bitmap(row, 0) <= t.bits else forall k :: 0 <= k < |row| ==> !row[k].NullField?)
  }

  lemma FormedNulls(t: HeapTuple, schema: seq<Column>, row: seq<Field>, tail: seq<byte>)
    requires FormedFrom(t, schema, row, tail)
    ensures BitmapCovers(t)
    ensures forall k :: 0 <= k < |schema| ==> (IsNullAt(t, k) <==> k >= |row| || row[k].NullField?)
  {
    hide Bit, Bitmap;
    BitmapLength(row, 0);
    forall k | 0 <= k < |schema| ensures IsNullAt(t, k) <==> k >= |row| || row[k].NullField? {
      if t.hasNulls && k < |row| {
        BitmapTells(row, 0, k);
        assert t.bits[k / 8] == Bitmap(row, 0)[k / 8];
      }
    }
  }

  /** Cell `c` shows field `f`: null, or its very bytes. */
  ghost predicate Shows(m: seq<byte>, c: Cell, f: Field)
    requires Storable(f)
  {
    if f.NullField? then c.NullCell?
    else c.FieldAt? && c.off + |FieldBytes(f)| <= |m| && m[c.off..c.off + |FieldBytes(f)|] == FieldBytes(f)
  }

  /** Cell `c` is right for attribute `k`: attributes beyond the row are null. */
  ghost predicate CellRight(m: seq<byte>, schema: seq<Column>, row: seq<Field>, c: Cell, k: nat)
    requires RowFits(row, schema)
  {
    if k >= |row| then c.NullCell? else Shows(m, c, row[k])
  }

  /** The cells `cs` are right for the attributes from `i` on. */
  ghost predicate CellsRight(m: seq<byte>, schema: seq<Column>, row: seq<Field>, cs: seq<Cell>, i: nat)
    requires RowFits(row, schema)
  {
    forall k {:trigger cs[k]} :: 0 <= k < |cs| ==> CellRight(m, schema, row, cs[k], i + k)
  }

  lemma CellsRightCons(m: seq<byte>, schema: seq<Column>, row: seq<Field>, c: Cell, cs: seq<Cell>, i: nat)
    requires RowFits(row, schema) && CellRight(m, schema, row, c, i) && CellsRight(m, schema, row, cs, i + 1)
    ensures CellsRight(m, schema, row, [c] + cs, i)
  {
    hide CellRight;
    var all := [c] + cs;
    forall k | 0 <= k < |all| ensures CellRight(m, schema, row, all[k], i + k) {
      if k > 0 { assert all[k] == cs[k - 1] && CellRight(m, schema, row, cs[k - 1], i + 1 + (k - 1)); }
    }
  }

  /** The cell of attribute `i`, and where the next attribute starts. */
  lemma CellStep(t: HeapTuple, schema: seq<Column>, i: nat, off: nat)
    requires BitmapCovers(t) && i < |schema| && (forall c :: c in schema ==> c.Legal())
    ensures schema[i].Legal()
    ensures IsNullAt(t, i) ==>
      && Readable(t, schema, i, off) == Readable(t, schema, i + 1, off)
      && (Readable(t, schema, i, off) ==> Cells(t, schema, i, off) == [NullCell] + Cells(t, schema, i + 1, off))
    ensures !IsNullAt(t, i) ==>
      var f := Locate(t.data, schema[i], off);
      && Readable(t, schema, i, off) == (f.Some? && Readable(t, schema, i + 1, f.value.1))
      && (Readable(t, schema, i, off) ==>
            Cells(t, schema, i, off) == [FieldAt(f.value.0)] + Cells(t, schema, i + 1, f.value.1))
  {
    hide Locate, IsNullAt;
    assert schema[i] in schema;
  }

  /** From attribute `i` on, the former's output is read back field by field. */
  lemma {:induction false} FormedCells(t: HeapTuple, schema: seq<Column>, row: seq<Field>, tail: seq<byte>,
      i: nat, off: nat)
    requires FormedFrom(t, schema, row, tail) && BitmapCovers(t) && forall c :: c in schema ==> c.Legal()
    requires i <= |schema| && off <= |t.data|
    requires i <= |row| ==> t.data[off..] == Form(schema, row, i, off) + tail
    ensures Readable(t, schema, i, off)
    ensures CellsRight(t.data, schema, row, Cells(t, schema, i, off), i)
    decreases |schema| - i
  {
    hide IsNullAt, Locate, CellsRight, BitmapCovers, Bitmap, Readable, Cells, Form, FieldBytes;
    if i == |schema| {
      NoCells(t, schema, row, off);
    } else {
      FormedNulls(t, schema, row, tail);
      CellStep(t, schema, i, off);
      FormNull(schema, row, i, off);
      if i >= |row| || row[i].NullField? {
        FormedCells(t, schema, row, tail, i + 1, off);
        CellsRightCons(t.data, schema, row, NullCell, Cells(t, schema, i + 1, off), i);
      } else {
        var start, end := FormedField(t, schema, row, tail, i, off);
        FormedCells(t, schema, row, tail, i + 1, end);
        CellsRightCons(t.data, schema, row, FieldAt(start), Cells(t, schema, i + 1, end), i);
      }
    }
  }

  /** A null field lays out nothing. */
  lemma FormNull(schema: seq<Column>, row: seq<Field>, i: nat, off: nat)
    requires RowFits(row, schema)
    ensures i < |row| && row[i].NullField? ==> Form(schema, row, i, off) == Form(schema, row, i + 1, off)
  {
  }

  lemma NoCells(t: HeapTuple, schema: seq<Column>, row: seq<Field>, off: nat)
    requires RowFits(row, schema) && BitmapCovers(t) && forall c :: c in schema ==> c.Legal()
    ensures Readable(t, schema, |schema|, off)
    ensures CellsRight(t.data, schema, row, Cells(t, schema, |schema|, off), |schema|)
  {
  }

  lemma FormedField(t: HeapTuple, schema: seq<Column>, row: seq<Field>, tail: seq<byte>, i: nat, off: nat)
    returns (start: nat, end: nat)
    requires RowFits(row, schema) && forall c :: c in schema ==> c.Legal()
    requires i < |row| && !row[i].NullField? && off <= |t.data|
    requires t.data[off..] == Form(schema, row, i, off) + tail
    ensures Locate(t.data, schema[i], off) == Some((start, end))
    ensures Shows(t.data, FieldAt(start), row[i])
    ensures end <= |t.data| && t.data[end..] == Form(schema, row, i + 1, end) + tail
  {
    hide FieldBytes, Locate, PadBytes, Storable, Form;
    assert schema[i] in schema;
    assert FitsColumn(row[i], schema[i]);
    var pad := PadBytes(row[i], schema[i], off);
    var b := Zeros(pad) + FieldBytes(row[i]);
    start, end := off + pad, off + |b|;
    FormStep(schema, row, i, off);
    FieldAndRest(t.data, off, b, Form(schema, row, i + 1, end), tail);
    FieldFound(t.data, off, row[i], schema[i]);
  }

  lemma FormStep(schema: seq<Column>, row: seq<Field>, i: nat, off: nat)
    requires RowFits(row, schema) && i < |row| && !row[i].NullField?
    ensures var b := Zeros(PadBytes(row[i], schema[i], off)) + FieldBytes(row[i]);
      Form(schema, row, i, off) == b + Form(schema, row, i + 1, off + |b|)
  {
    hide FieldBytes, PadBytes, Storable, FitsColumn;
  }

  /** Memory that goes on with `b + x + tail` at `off`. */
  lemma FieldAndRest(m: seq<byte>, off: nat, b: seq<byte>, x: seq<byte>, tail: seq<byte>)
    requires off <= |m| && m[off..] == b + x + tail
    ensures off + |b| <= |m| && m[off..off + |b|] == b && m[off + |b|..] == x + tail
  {
    var rest := m[off..];
    assert rest[..|b|] == b && rest[|b|..] == x + tail;
    assert m[off..off + |b|] == rest[..|b|];
    assert m[off + |b|..] == rest[|b|..];
  }

  /** Deforming the tuple that the former lays out gives back every value and null flag. */
  lemma DeformsWhatWasFormed(t: HeapTuple, schema: seq<Column>, row: seq<Field>, tail: seq<byte>)
    requires FormedFrom(t, schema, row, tail) && forall c :: c in schema ==> c.Legal()
    ensures BitmapCovers(t) && Readable(t, schema, 0, 0)
    ensures CellsRight(t.data, schema, row, Cells(t, schema, 0, 0), 0)
  {
    FormedNulls(t, schema, row, tail);
    assert t.data[0..] == t.data;
    FormedCells(t, schema, row, tail, 0, 0);
  }

  // ---------------------------------------------------------------- the slot

  /** A value, or a pointer: then the memory it points to. */
  datatype Datum = Word(value: int) | Memory(bytes: seq<byte>)

  const ZERO := Word(0)

  /** What memset with the byte 1 leaves in a datum. */
  const ONES := Word(0x0101_0101_0101_0101)

  /** The tuple can be deformed without reading past its memory. */
  ghost predicate CanDeform(t: HeapTuple, schema: seq<Column>) {
    && (forall c :: c in schema ==> c.Legal())
    && BitmapCovers(t) && Readable(t, schema, 0, 0)
    && t.hoff <= t.len
  }

  class TupleSlot {
    const schema: seq<Column>
    /** decode_value: a datum from the attribute's memory and its type. */
    const decode: (seq<byte>, int) -> Datum
    const values: array<Datum>
    const isNull: array<bool>
    /** The tuple bound to the slot, if any. */
    var tup: Option<HeapTuple>
    var nvalid: int

    /** A tuple bound can be deformed, and a positive nvalid means that it has been. */
    ghost predicate Valid()
      reads this, values, isNull
    {
      && values.Length == isNull.Length == |schema|
      && (forall c :: c in schema ==> c.Legal())
      && if tup.None? then nvalid == 0 else Deformable() && (nvalid > 0 ==> Deformed())
    }

    ghost predicate Deformable()
      reads this`tup
    {
      tup.Some? && CanDeform(tup.value, schema)
    }

    /** The datum that belongs to a cell. */
    ghost function DatumOf(c: Cell, col: Column): Datum
      requires tup.Some?
      reads this`tup
    {
      if c.NullCell? || c.off > |tup.value.data| then ZERO else decode(tup.value.data[c.off..], col.atttypid)
    }

    /** The cells of the tuple bound. */
    ghost function Row(): (r: seq<Cell>)
      requires Deformable()
      reads this`tup
      ensures |r| == |schema|
    {
      Cells(tup.value, schema, 0, 0)
    }

    ghost predicate Deformed()
      reads this, values, isNull
      requires values.Length == isNull.Length == |schema| && Deformable()
    {
      forall k :: 0 <= k < |schema| ==> Holds(k, Row()[k])
    }

    /** Attribute `k` of the slot holds cell `c`. */
    ghost predicate Holds(k: nat, c: Cell)
      reads this`tup, values, isNull
      requires values.Length == isNull.Length == |schema| && k < |schema| && tup.Some?
    {
      isNull[k] == c.NullCell? && values[k] == DatumOf(c, schema[k])
    }

    /** slot_bind_schema */
    constructor (schema: seq<Column>, decode: (seq<byte>, int) -> Datum)
      requires forall c :: c in schema ==> c.Legal()
      ensures Valid() && tup == None && nvalid == 0 && this.schema == schema && this.decode == decode
      ensures fresh(values) && fresh(isNull)
      ensures forall k :: 0 <= k < |schema| ==> values[k] == Word(0) && !isNull[k]
    {
      this.schema, this.decode, tup, nvalid := schema, decode, None, 0;
      values := new Datum[|schema|](_ => ZERO);
      isNull := new bool[|schema|](_ => false);
    }

    /** reset_slot; the tuple bound before is not looked at again. */
    method Reset()
      requires Valid()
      modifies this, values, isNull
      ensures Valid() && tup == None && nvalid == 0
      ensures forall k :: 0 <= k < |schema| ==> values[k] == Word(0x0101_0101_0101_0101) && isNull[k]
    {
      nvalid := 0;
      forall k | 0 <= k < |schema| { values[k] := ONES; }
      forall k | 0 <= k < |schema| { isNull[k] := true; }
      tup := None;
    }

    /** The part of decode_tuple that binds an accepted tuple to a slot just reset. */
    method Bind(t: HeapTuple)
      requires Valid() && nvalid == 0 && CanDeform(t, schema)
      modifies this`tup
      ensures Valid() && tup == Some(t)
    {
      tup := Some(t);
    }

    /** deform_tuple: fills every attribute; nvalid becomes the index of the last one that is not null, and stays
        as it is if there is none. */
    method Deform()
      requires Valid() && tup.Some?
      modifies this`nvalid, values, isNull
      ensures Valid() && Deformed()
      ensures forall k :: 0 <= k < |schema| && !isNull[k] ==> k <= nvalid < |schema| && !isNull[nvalid]
      ensures (forall k :: 0 <= k < |schema| ==> isNull[k]) ==> nvalid == old(nvalid)
    {
      hide Locate, AlignNominal, Cells, Readable, DatumOf;
      var off: nat := 0;
      var t := tup.value;
      ghost var all := Cells(t, schema, 0, 0);
      assert all[0..] == all;
      for i := 0 to |schema|
        invariant off <= |t.data| && Readable(t, schema, i, off) && Cells(t, schema, i, off) == all[i..]
        invariant forall k :: 0 <= k < i ==> Holds(k, all[k])
        invariant nvalid == old(nvalid) || (0 <= nvalid < i && !isNull[nvalid])
        invariant forall k :: 0 <= k < i && !isNull[k] ==> k <= nvalid < i && !isNull[nvalid]
      {
        CellStep(t, schema, i, off);
        assert all[i] == all[i..][0] && all[i + 1..] == all[i..][1..];
        isNull[i] := false;
        if i >= t.natts || (t.hasNulls && AttIsNull(i, t.bits)) {
          isNull[i] := true;
          values[i] := ZERO;
          DatumIs(NullCell, schema[i]);
        } else {
          nvalid := i;
          if t.hoff > t.len {
            break;
          }
          var start, end := Step(schema[i], off);
          values[i] := decode(t.data[start..], schema[i].atttypid);
          DatumIs(FieldAt(start), schema[i]);
          off := end;
        }
      }
    }

    lemma DatumIs(c: Cell, col: Column)
      requires tup.Some?
      ensures DatumOf(c, col)
           == if c.NullCell? || c.off > |tup.value.data| then Word(0) else decode(tup.value.data[c.off..], col.atttypid)
    {
    }

    /** The offset arithmetic of one turn of the loop. */
    method Step(col: Column, off: nat) returns (start: nat, end: nat)
      requires tup.Some? && Locate(tup.value.data, col, off).Some?
      ensures Locate(tup.value.data, col, off) == Some((start, end))
    {
      var m := tup.value.data;
      start := if col.attlen == -1 then AlignPointer(m, off, col.attalign) else AlignNominal(off, col.attalign);
      end := start + AttributeSize(m, start, col.attlen).value;
    }

    /** slot_getattr: the attribute a full deform gives, whatever was asked before. */
    method GetAttr(attnum: nat) returns (r: Datum)
      requires Valid() && tup.Some? && attnum < |schema|
      modifies this`nvalid, values, isNull
      ensures Valid() && Deformed()
      ensures r == DatumOf(Row()[attnum], schema[attnum])
      ensures isNull[attnum] == Row()[attnum].NullCell?
    {
      if attnum < nvalid {
        assert Holds(attnum, Row()[attnum]);
        return values[attnum];
      }
      Deform();
      assert Holds(attnum, Row()[attnum]);
      return values[attnum];
    }
  }
}
