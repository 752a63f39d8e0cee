/** A jsonb column from disk to text (the JSONBOID case of datum_to_string, pg_type.c): every layer below it at once. */
module JsonbDatum {
  import opened Base
  import opened Varlenas
  import opened ToastCaches
  import opened StringInfos
  import opened JsonbFormat
  import opened JsonbRender
  import Detoast
  import StoredForms
  import ToastScan
  import TupleDeform
  import JsonbPack
  import JsonbPrinter
  import JsonReader

  // ---------------------------------------------------------------- no text holds a zero byte

  lemma {:induction false} EscapeAllZeroFree(s: seq<byte>)
    requires 0 !in s
    ensures 0 !in EscapeAll(s)
  {
    if s == [] {
    } else {
      assert s[0] in s;
      assert 0 !in Escape(s[0]);
      EscapeAllZeroFree(s[1..]);
    }
  }

  lemma {:induction false} RenderZeroFree(j: Json)
    ensures 0 !in Render(j)
    decreases j, 1, 0
  {
    match j
    case Array(kids, _) => ElementsZeroFree(j, 0);
    case Object(kids) => PairsZeroFree(j, 0);
    case String(s) => EscapeAllZeroFree(UntilZero(s));
    case _ =>
  }

  lemma {:induction false} ElementsZeroFree(j: Json, i: nat)
    requires j.Array? && i <= |j.kids|
    ensures 0 !in RenderElements(j.kids, i)
    decreases j, 0, |j.kids| - i
  {
    hide Render, Separator;
    if i == |j.kids| {
    } else {
      assert 0 !in Separator(i == 0) by { SeparatorZeroFree(i == 0); }
      RenderZeroFree(j.kids[i]);
      ElementsZeroFree(j, i + 1);
    }
  }

  lemma {:induction false} PairsZeroFree(j: Json, i: nat)
    requires j.Object? && i <= |j.kids| / 2
    ensures 0 !in RenderPairs(j.kids, i)
    decreases j, 0, |j.kids| - i
  {
    hide Render, Separator;
    if i == |j.kids| / 2 {
    } else {
      SeparatorZeroFree(i == 0);
      RenderZeroFree(j.kids[i]);
      RenderZeroFree(j.kids[i + |j.kids| / 2]);
      PairsZeroFree(j, i + 1);
    }
  }

  lemma SeparatorZeroFree(first: bool)
    ensures 0 !in Separator(first) && 0 !in COLON_SPACE
  {
  }

  // ---------------------------------------------------------------- the whole way

  /** Cutting the datum back to `p` leaves the container behind the four header bytes. */
  lemma ContainerAt(r: Detoast.Result, p: seq<byte>)
    requires |p| + 4 < PLAIN_MAX && StoredForms.Carries(r, p)
    ensures r.Datum? && |r.bytes| >= 4 && VarSize4B(r.bytes, 0) == |p| + 4 && JsonbPack.At(r.bytes, 4, p)
  {
    var b := r.bytes;
    assert b[..|p| + 4] == Plain(p);
    assert b[0..4] == Plain(p)[..4] == Header4B(|p| + 4);
    Header4BRead(b, 0, |p| + 4);
    assert b[4..4 + |p|] == Plain(p)[4..];
  }

  /** Whatever form the document is stored in, the text printed is its rendering; and a reader gives the document
      back exactly when it holds no number and no zero byte. */
  method JsonbToText(cache: ToastCache, a: seq<byte>, past: nat -> byte,
                     ghost form: StoredForms.Form, ghost doc: Json, ghost off: JsonbPack.Stride)
    returns (r: Outcome, text: seq<byte>)
    requires cache.Valid() && HeaderReadable(a, 0)
    requires doc.IsContainer() && Document(doc) && Size(doc) < FIELD
    requires StoredForms.Stores(cache.added, a, JsonbPack.Pack(doc, off), form)
    modifies cache
    ensures cache.Valid() && cache.added == old(cache.added)
    ensures r.Pass? ==> text == Render(doc)
    ensures r.Pass? ==> (JsonReader.ReadDocument(text) == Some(doc)
                         <==> JsonReader.NumberFree(doc) && JsonReader.ZeroFree(doc))
    ensures |Render(doc)| + 64 < LIMIT ==> r.Pass?
  {
    hide StoredForms.Stores, StoredForms.Carries, JsonbPack.Pack, JsonbPack.At, Render, Packed, Document;
    hide Detoast.Fetchable;
    hide JsonReader.ReadDocument, JsonReader.NumberFree, JsonReader.ZeroFree, Detoast.IsDetoasted;
    ghost var payload := JsonbPack.Pack(doc, off);
    StoredForms.StoresFetchable(cache.added, a, payload, form);
    var datum := Detoast.DetoastAttr(cache, a, past);
    StoredForms.DetoastRestores(cache.added, a, payload, form, datum);
    ContainerAt(datum, payload);
    JsonbPack.PackIsPacked(datum.bytes, 4, doc, off);
    var out;
    r, out := JsonbPrinter.JsonbToCString(datum.bytes, 4, VarSize4B(datum.bytes, 0), doc);
    text := [];
    if r.Pass? {
      text := UntilZero(out.data[..]);
      RenderZeroFree(doc);
      UntilZeroIs(out.data[..], out.len);
      JsonReader.PrintedTextFaithful(doc);
    }
  }

  /** From pages to text.  The toast table is scanned first: its line pointers and tuples are written for
      `lines`, in any order and among the chunks `others` of other values.  Then the datum at `a` is printed. */
  method PagesToText(pages: seq<seq<byte>>, a: seq<byte>, past: nat -> byte,
                     ghost lines: seq<seq<ToastScan.Line>>, ghost others: seq<Chunk>,
                     ghost form: StoredForms.Form, ghost doc: Json, ghost off: JsonbPack.Stride)
    returns (r: Outcome, text: seq<byte>)
    requires ToastScan.TableLays(pages, lines)
    requires StoredForms.InChunks(form) ==> ToastScan.Among(ToastScan.TableChunks(lines), form.id, form.pieces, others)
    requires doc.IsContainer() && Document(doc) && Size(doc) < FIELD
    requires HeaderReadable(a, 0) && StoredForms.Written(a, JsonbPack.Pack(doc, off), form)
    ensures r.Pass? ==> text == Render(doc)
    ensures |Render(doc)| + 64 < LIMIT ==> r.Pass?
  {
    hide StoredForms.Written, ToastScan.TableLays, ToastScan.Among, JsonbPack.Pack, Render, Document, Size;
    hide JsonReader.ReadDocument, JsonReader.NumberFree, JsonReader.ZeroFree;
    var cache := new ToastCache();
    ToastScan.SchemaLegal();
    var slot := new TupleDeform.TupleSlot(ToastScan.TOAST_SCHEMA, ToastScan.DecodeValue);
    ToastScan.ScanTable(slot, cache, pages, lines);
    ghost var seen := ToastScan.TableChunks(lines);
    assert cache.added == seen;
    if StoredForms.InChunks(form) {
      ToastScan.AmongSeen(seen, form.id, form.pieces, others);
    }
    r, text := JsonbToText(cache, a, past, form, doc, off);
  }
}
