/** Every way a value is stored on disk, and that detoasting undoes it. */
module StoredForms {
  import opened Base
  import opened Varlenas
  import opened ToastCaches
  import opened Detoast
  import Pglz

  /** A plain datum of `p` stands at the start of the result. */
  ghost predicate Carries(r: Result, p: seq<byte>)
    requires |p| + 4 < PLAIN_MAX
  {
    r.Datum? && Plain(p) <= r.bytes
  }

  ghost function Flatten(pieces: seq<seq<byte>>): seq<byte> {
    if pieces == [] then [] else Flatten(pieces[..|pieces| - 1]) + pieces[|pieces| - 1]
  }

  /** The chunks a value's bytes are cut into, numbered from zero. */
  ghost function Cut(id: nat, pieces: seq<seq<byte>>): seq<Chunk> {
    seq(|pieces|, i requires 0 <= i < |pieces| => Chunk(id, i, pieces[i]))
  }

  /** The cache has seen exactly these chunks of the value, in some order among others. */
  ghost predicate Seen(added: seq<Chunk>, id: nat, pieces: seq<seq<byte>>) {
    pieces != [] && multiset(Of(added, id)) == multiset(Cut(id, pieces))
  }

  lemma {:induction false} CutNumbered(id: nat, pieces: seq<seq<byte>>, s: nat)
    requires s < |pieces|
    ensures Numbered(Cut(id, pieces), s) == Some(Chunk(id, s, pieces[s]))
  {
    assert Cut(id, pieces)[s] in Cut(id, pieces);
    NumberedUnique(Cut(id, pieces), Chunk(id, s, pieces[s]));
  }

  lemma {:induction false} CutJoined(id: nat, pieces: seq<seq<byte>>, n: nat)
    requires n <= |pieces|
    ensures AllPresent(Cut(id, pieces), n) && Joined(Cut(id, pieces), n) == Flatten(pieces[..n])
    decreases n
  {
    forall s | 0 <= s < n ensures Numbered(Cut(id, pieces), s).Some? { CutNumbered(id, pieces, s); }
    if n == 0 {
    } else {
      CutJoined(id, pieces, n - 1);
      CutNumbered(id, pieces, n - 1);
      assert pieces[..n][..n - 1] == pieces[..n - 1];
    }
  }

  /** Chunks in any order assemble to the bytes that were cut. */
  lemma SeenAssembles(added: seq<Chunk>, id: nat, pieces: seq<seq<byte>>)
    requires Seen(added, id, pieces)
    ensures Assembled(Of(added, id)) == Some(Flatten(pieces))
  {
    hide Of, Assembled, Flatten, Cut;
    var cs := Cut(id, pieces);
    CutAssembles(id, pieces);
    PermutedAssembles(cs, Of(added, id), id);
  }

  lemma CutAssembles(id: nat, pieces: seq<seq<byte>>)
    requires pieces != []
    ensures DistinctKeys(Cut(id, pieces)) && forall c :: c in Cut(id, pieces) ==> c.id == id
    ensures Assembled(Cut(id, pieces)) == Some(Flatten(pieces))
  {
    hide Flatten, Numbered, Joined;
    var cs := Cut(id, pieces);
    MaxSeqIs(cs);
    assert cs[|cs| - 1] in cs;
    assert MaxSeq(cs) == |pieces| - 1;
    CutJoined(id, pieces, |pieces|);
    assert pieces[..|pieces|] == pieces;
  }

  lemma PermutedAssembles(a: seq<Chunk>, b: seq<Chunk>, id: nat)
    requires DistinctKeys(a) && (forall c :: c in a ==> c.id == id) && multiset(a) == multiset(b)
    ensures Assembled(a) == Assembled(b)
  {
    hide Assembled, DistinctKeys;
    DistinctPermuted(a, b);
    forall c ensures c in a <==> c in b { assert c in multiset(a) <==> c in multiset(b); }
    AssembledSame(a, b, id);
  }

  lemma ShortDetoasts(added: seq<Chunk>, p: seq<byte>, tail: seq<byte>, r: Result)
    requires |p| < 127 && IsDetoasted(added, Short(p) + tail, r)
    ensures Carries(r, p)
  {
    var a := Short(p) + tail;
    assert a[0] as int == 2 * |p| + 3 && VarSize1B(a[0]) == |p| + 1;
    assert a[1..|p| + 1] == p;
  }

  lemma PlainDetoasts(added: seq<Chunk>, p: seq<byte>, tail: seq<byte>, r: Result)
    requires |p| + 4 < PLAIN_MAX && HeaderReadable(Plain(p) + tail, 0) && IsDetoasted(added, Plain(p) + tail, r)
    ensures Carries(r, p)
  {
    var a := Plain(p) + tail;
    assert a[0..4] == Header4B(|p| + 4);
    Header4BRead(a, 0, |p| + 4);
  }

  lemma CompressedFields(rawsize: nat, comp: seq<byte>, tail: seq<byte>)
    requires rawsize < PLAIN_MAX && |comp| + 8 < PLAIN_MAX
    ensures var a := CompressedInline(rawsize, comp) + tail;
      VarSize4B(a, 0) == |comp| + 8 && Is4BCompressed(a[0]) && Load32(a, 4) == rawsize && a[8..|comp| + 8] == comp
  {
    hide Load32, Store32, Header4BC;
    var a := CompressedInline(rawsize, comp) + tail;
    assert a[0..4] == Header4BC(|comp| + 8) && a[4..8] == Store32(rawsize);
    Header4BCRead(a, 0, |comp| + 8);
    LoadStored(rawsize, a, 4);
  }

  lemma CompressedDecompresses(ts: seq<Pglz.Token>, tail: seq<byte>, r: Result)
    requires Pglz.Encodable(ts, 0)
    requires |Pglz.Expand(ts, [])| + 4 < PLAIN_MAX && |Pglz.Compressed(ts)| + 8 < PLAIN_MAX
    requires IsDecompressed(CompressedInline(|Pglz.Expand(ts, [])|, Pglz.Compressed(ts)) + tail, r)
    ensures Carries(r, Pglz.Expand(ts, []))
  {
    var p, comp := Pglz.Expand(ts, []), Pglz.Compressed(ts);
    CompressedFields(|p|, comp, tail);
    Pglz.DecodeEncoded(ts);
  }

  /** Compressed inline: any token list of the payload, decoded back to it. */
  lemma InlineCompressedDetoasts(added: seq<Chunk>, ts: seq<Pglz.Token>, tail: seq<byte>, r: Result)
    requires Pglz.Encodable(ts, 0)
    requires |Pglz.Expand(ts, [])| + 4 < PLAIN_MAX && |Pglz.Compressed(ts)| + 8 < PLAIN_MAX
    requires var a := CompressedInline(|Pglz.Expand(ts, [])|, Pglz.Compressed(ts)) + tail;
      HeaderReadable(a, 0) && IsDetoasted(added, a, r)
    ensures Carries(r, Pglz.Expand(ts, []))
  {
    CompressedFields(|Pglz.Expand(ts, [])|, Pglz.Compressed(ts), tail);
    CompressedDecompresses(ts, tail, r);
  }

  lemma PointerFields(rawsize: nat, extsize: nat, id: nat, relid: nat, tail: seq<byte>)
    requires rawsize < 0x8000_0000 && extsize < PLAIN_MAX && id < 0x1_0000_0000 && relid < 0x1_0000_0000
    ensures var a := ToastPointer(rawsize, extsize, id, relid) + tail;
      a[0] == 1 && a[1] == 18 && Load32(a, 2) == rawsize && Load32(a, 6) == extsize && Load32(a, 10) == id
  {
    hide Load32, Store32;
    var a := ToastPointer(rawsize, extsize, id, relid) + tail;
    assert a[2..6] == Store32(rawsize) && a[6..10] == Store32(extsize) && a[10..14] == Store32(id);
    LoadStored(rawsize, a, 2);
    LoadStored(extsize, a, 6);
    LoadStored(id, a, 10);
  }

  /** External, not compressed. */
  lemma ExternalDetoasts(added: seq<Chunk>, id: nat, relid: nat, pieces: seq<seq<byte>>, tail: seq<byte>, r: Result)
    requires id < 0x1_0000_0000 && relid < 0x1_0000_0000 && Seen(added, id, pieces)
    requires |Flatten(pieces)| + 4 < PLAIN_MAX
    requires IsDetoasted(added, ToastPointer(|Flatten(pieces)| + 4, |Flatten(pieces)|, id, relid) + tail, r)
    ensures Carries(r, Flatten(pieces))
  {
    hide Load32, Store32, Header4B, Header4BC, Of, Assembled, Flatten, Fetched, ToastPointer;
    var p := Flatten(pieces);
    var a := ToastPointer(|p| + 4, |p|, id, relid) + tail;
    PointerFields(|p| + 4, |p|, id, relid, tail);
    SeenAssembles(added, id, pieces);
    FetchedPlain(added, a, p);
    FirstByte(|p| + 4);
  }

  lemma FetchedPlain(added: seq<Chunk>, a: seq<byte>, p: seq<byte>)
    requires IsToastPointer(a) && |p| + 4 < PLAIN_MAX
    requires Load32(a, 2) == |p| + 4 && Load32(a, 6) == |p| && Assembled(Of(added, Load32(a, 10))) == Some(p)
    ensures Fetched(added, a) == Datum(Plain(p))
  {
    hide Load32, Header4B, Header4BC, Of, Assembled;
    assert p[..|p|] == p;
    if p == [] {
      assert Header4B(4) + p == Header4B(4);
    }
  }

  /** External and compressed: the chunks hold the raw size word and the compressed bytes. */
  lemma ExternalCompressedDetoasts(added: seq<Chunk>, id: nat, relid: nat, pieces: seq<seq<byte>>, ts: seq<Pglz.Token>,
                                   tail: seq<byte>, r: Result)
    requires id < 0x1_0000_0000 && relid < 0x1_0000_0000 && Seen(added, id, pieces) && Pglz.Encodable(ts, 0)
    requires |Pglz.Expand(ts, [])| + 4 < PLAIN_MAX && |Pglz.Compressed(ts)| + 4 < |Pglz.Expand(ts, [])|
    requires var p, comp := Pglz.Expand(ts, []), Pglz.Compressed(ts);
      && Flatten(pieces) == Store32(|p|) + comp
      && var a := ToastPointer(|p| + 4, |comp| + 4, id, relid) + tail; IsDetoasted(added, a, r)
    ensures Carries(r, Pglz.Expand(ts, []))
  {
    hide Load32, Store32, Header4BC, Pglz.Expand, Pglz.Compressed, Of, Assembled, Flatten;
    var p, comp := Pglz.Expand(ts, []), Pglz.Compressed(ts);
    PointerFields(|p| + 4, |comp| + 4, id, relid, tail);
    SeenAssembles(added, id, pieces);
    var data := Flatten(pieces);
    assert data[..|comp| + 4] == data;
    var v := Header4BC(|comp| + 8) + data;
    assert v == CompressedInline(|p|, comp) + [];
    CompressedFields(|p|, comp, []);
    CompressedDecompresses(ts, [], r);
  }

  // ---------------------------------------------------------------- all forms at once

  /** How a payload is stored: with a short or a long header, or as compressed bytes, in the tuple or in chunks. */
  datatype Form =
    | AsShort
    | AsPlain
    | AsCompressed(ts: seq<Pglz.Token>)
    | AsExternal(id: nat, relid: nat, pieces: seq<seq<byte>>)
    | AsExternalCompressed(id: nat, relid: nat, pieces: seq<seq<byte>>, ts: seq<Pglz.Token>)

  ghost predicate Encodes(ts: seq<Pglz.Token>, p: seq<byte>) {
    Pglz.Encodable(ts, 0) && Pglz.Expand(ts, []) == p
  }

  ghost predicate Oids(id: nat, relid: nat) {
    id < 0x1_0000_0000 && relid < 0x1_0000_0000
  }

  ghost predicate InChunks(form: Form) {
    form.AsExternal? || form.AsExternalCompressed?
  }

  /** The memory at `a` stores the payload `p` in the given form, or a pointer to the chunks that do. */
  ghost predicate Written(a: seq<byte>, p: seq<byte>, form: Form) {
    && |p| + 4 < PLAIN_MAX
    && match form
       case AsShort => |p| < 127 && Short(p) <= a
       case AsPlain => Plain(p) <= a
       case AsCompressed(ts) =>
         Encodes(ts, p) && |Pglz.Compressed(ts)| + 8 < PLAIN_MAX && CompressedInline(|p|, Pglz.Compressed(ts)) <= a
       case AsExternal(id, relid, pieces) =>
         && Oids(id, relid) && Flatten(pieces) == p
         && ToastPointer(|p| + 4, |p|, id, relid) <= a
       case AsExternalCompressed(id, relid, pieces, ts) =>
         && Oids(id, relid) && Encodes(ts, p)
         && |Pglz.Compressed(ts)| + 4 < |p| && Flatten(pieces) == Store32(|p|) + Pglz.Compressed(ts)
         && ToastPointer(|p| + 4, |Pglz.Compressed(ts)| + 4, id, relid) <= a
  }

  /** Whatever fits the lengths of the format is written in each form, memory behind it or not. */
  lemma FormsWrite(p: seq<byte>, tail: seq<byte>, ts: seq<Pglz.Token>, id: nat, relid: nat, pieces: seq<seq<byte>>)
    requires id < 0x1_0000_0000 && relid < 0x1_0000_0000
    requires |p| < 0x3FFF_FFFC && Pglz.Encodable(ts, 0) && Pglz.Expand(ts, []) == p
    requires |Pglz.Compressed(ts)| < 0x3FFF_FFF8
    ensures Written(Plain(p) + tail, p, AsPlain)
    ensures |p| < 127 ==> Written(Short(p) + tail, p, AsShort)
    ensures Written(CompressedInline(|p|, Pglz.Compressed(ts)) + tail, p, AsCompressed(ts))
    ensures Flatten(pieces) == p ==>
      Written(ToastPointer(|p| + 4, |p|, id, relid) + tail, p, AsExternal(id, relid, pieces))
    ensures |Pglz.Compressed(ts)| + 4 < |p| && Flatten(pieces) == Store32(|p|) + Pglz.Compressed(ts) ==>
      Written(ToastPointer(|p| + 4, |Pglz.Compressed(ts)| + 4, id, relid) + tail, p,
              AsExternalCompressed(id, relid, pieces, ts))
  {
    hide Store32, Header4B, Header4BC, Pglz.Expand, Pglz.Compressed;
    hide Flatten, Short, Plain, CompressedInline, ToastPointer;
  }

  /** With the chunks seen, `a` stores the payload `p`. */
  ghost predicate Stores(added: seq<Chunk>, a: seq<byte>, p: seq<byte>, form: Form) {
    Written(a, p, form) && (InChunks(form) ==> Seen(added, form.id, form.pieces))
  }

  lemma SeenNonNegative(added: seq<Chunk>, id: nat, pieces: seq<seq<byte>>)
    requires Seen(added, id, pieces)
    ensures SeqsNonNegative(Of(added, id))
  {
    forall c | c in Of(added, id) ensures c.seqno >= 0 {
      assert c in multiset(Of(added, id));
      assert c in Cut(id, pieces);
    }
  }

  /** A pointer is told from every inline form by its first byte. */
  lemma InlineFirstByte(a: seq<byte>, p: seq<byte>, form: Form)
    requires Written(a, p, form) && !InChunks(form)
    ensures a != [] && a[0] != 1
  {
    hide Load32, Store32;
    match form
    case AsShort => assert a[0] == Short(p)[0];
    case AsPlain =>
      FirstByte(|p| + 4);
      assert a[0] == Header4B(|p| + 4)[0];
    case AsCompressed(ts) =>
      FirstByte(|Pglz.Compressed(ts)| + 8);
      assert a[0] == Header4BC(|Pglz.Compressed(ts)| + 8)[0];
  }

  /** Whatever is stored can be fetched. */
  lemma StoresFetchable(added: seq<Chunk>, a: seq<byte>, p: seq<byte>, form: Form)
    requires Stores(added, a, p, form)
    ensures Fetchable(added, a)
  {
    hide Load32, Store32, SeqsNonNegative, Of, Seen, ToastPointer, Flatten;
    if InChunks(form) {
      var extsize := if form.AsExternal? then |p| else |Pglz.Compressed(form.ts)| + 4;
      var pointer := ToastPointer(|p| + 4, extsize, form.id, form.relid);
      assert a == pointer + a[|pointer|..];
      PointerFields(|p| + 4, extsize, form.id, form.relid, a[|pointer|..]);
      SeenNonNegative(added, form.id, form.pieces);
    } else {
      InlineFirstByte(a, p, form);
    }
  }

  /** Whatever the form, detoasting gives back the payload behind a plain header. */
  lemma DetoastRestores(added: seq<Chunk>, a: seq<byte>, p: seq<byte>, form: Form, r: Result)
    requires HeaderReadable(a, 0) && Stores(added, a, p, form) && IsDetoasted(added, a, r)
    ensures Carries(r, p)
  {
    hide IsDetoasted, Short, Plain, CompressedInline, ToastPointer, Seen, Carries, Flatten;
    match form
    case AsShort =>
      assert a == Short(p) + a[|Short(p)|..];
      ShortDetoasts(added, p, a[|Short(p)|..], r);
    case AsPlain =>
      assert a == Plain(p) + a[|Plain(p)|..];
      PlainDetoasts(added, p, a[|Plain(p)|..], r);
    case AsCompressed(ts) =>
      var stored := CompressedInline(|p|, Pglz.Compressed(ts));
      assert a == stored + a[|stored|..];
      InlineCompressedDetoasts(added, ts, a[|stored|..], r);
    case AsExternal(id, relid, pieces) =>
      var pointer := ToastPointer(|p| + 4, |p|, id, relid);
      assert a == pointer + a[|pointer|..];
      ExternalDetoasts(added, id, relid, pieces, a[|pointer|..], r);
    case AsExternalCompressed(id, relid, pieces, ts) =>
      var pointer := ToastPointer(|p| + 4, |Pglz.Compressed(ts)| + 4, id, relid);
      assert a == pointer + a[|pointer|..];
      ExternalCompressedDetoasts(added, id, relid, pieces, ts, a[|pointer|..], r);
  }

  // ---------------------------------------------------------------- chunks from tuples

  /** the end of extract_toast_chunk: number and payload of a chunk tuple whose data attribute is the datum `v`. */
  function ChunkPayload(id: nat, seqno: int, v: seq<byte>): Option<Chunk>
    requires HeaderReadable(v, 0)
  {
    var hdr := if Is1B(v[0]) then 1 else 4;
    var len := VarSizeAny(v, 0) - if IsExternal(v[0]) then 2 else hdr;
    if len < 0 || hdr + len > |v| then None else Some(Chunk(id, seqno, v[hdr..hdr + len]))
  }

  /** A chunk's data attribute with a short header yields its payload. */
  lemma ShortExtracted(id: nat, seqno: int, p: seq<byte>, tail: seq<byte>)
    requires |p| < 127
    ensures HeaderReadable(Short(p) + tail, 0)
    ensures ChunkPayload(id, seqno, Short(p) + tail) == Some(Chunk(id, seqno, p))
  {
    hide Load32;
    var a := Short(p) + tail;
    assert a[0] as int == 2 * |p| + 3;
    DivUnique(2 * |p| + 3, 2, |p| + 1, 1);
    assert a[1..1 + |p|] == p;
  }

  /** So does one with a long header. */
  lemma LongExtracted(id: nat, seqno: int, p: seq<byte>, tail: seq<byte>)
    requires |p| + 4 < PLAIN_MAX
    ensures HeaderReadable(Plain(p) + tail, 0)
    ensures ChunkPayload(id, seqno, Plain(p) + tail) == Some(Chunk(id, seqno, p))
  {
    hide Load32, Header4B, VarSize4B;
    var a := Plain(p) + tail;
    assert a[0..4] == Header4B(|p| + 4);
    Header4BRead(a, 0, |p| + 4);
    assert a[4..4 + |p|] == p;
  }

  /** An on-disk pointer in its place gives the sixteen bytes behind its first one. */
  lemma PointerExtracted(id: nat, seqno: int, v: seq<byte>)
    requires |v| >= 18 && v[0] == 1 && v[1] == 18
    ensures ChunkPayload(id, seqno, v) == Some(Chunk(id, seqno, v[1..17]))
  {
  }
}
