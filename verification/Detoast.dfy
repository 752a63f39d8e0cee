/** Detoasting (pg_detoast.c, pg_detoast_datum in pg_integer.c): any stored form to a plain datum. */
module Detoast {
  import opened Base
  import opened Varlenas
  import opened ToastCaches
  import Pglz

  /** What a call returns: a datum's bytes, the null pointer, or nothing the C code defines (it reads past
      a buffer, copies from null, or follows an in-memory pointer that no file holds). */
  datatype Result = Datum(bytes: seq<byte>) | Null | Undefined

  const METHOD_PGLZ: int := 0

  // ---------------------------------------------------------------- meaning

  /** The header after pglz_decompress has failed: its -1 plus the header size. */
  const CORRUPT_HEADER: seq<byte> := Header4B(3)

  /** `r` is what decompressing the compressed datum `v` gives. */
  ghost predicate IsDecompressed(v: seq<byte>, r: Result)
  {
    if |v| < 8 || VarSize4B(v, 0) > |v| then r == Undefined
    else if Load32(v, 4) / 0x4000_0000 != METHOD_PGLZ then r == Null
    else
      var size, rawsize := VarSize4B(v, 0), Load32(v, 4) % 0x4000_0000;
      if size < 8 then IsCorrupt(r, [], rawsize)
      else match Pglz.Decompress(v[8..size], rawsize, true)
        case Decoded(_, out) => r == Datum(Header4B(|out| + 4) + out)
        case Corrupt(out) => IsCorrupt(r, out, rawsize)
  }

  /** A failed run leaves the header above, what was written before it failed, and memory never set. */
  ghost predicate IsCorrupt(r: Result, written: seq<byte>, rawsize: nat) {
    r.Datum? && |r.bytes| == rawsize + 4 && CORRUPT_HEADER + written <= r.bytes
  }

  ghost predicate IsToastPointer(a: seq<byte>) {
    |a| >= 18 && a[0] == 1 && a[1] == 18
  }

  /** No chunk of the value that a TOAST pointer names has a negative number: the C code would index outside
      its array. */
  ghost predicate Fetchable(added: seq<Chunk>, a: seq<byte>) {
    IsToastPointer(a) ==> SeqsNonNegative(Of(added, Load32(a, 10)))
  }

  /** `va_rawsize - VARHDRSZ` as the unsigned number it is compared as. */
  function LessHeader(rawsize: nat): (r: nat)
    ensures rawsize < 0x1_0000_0000 ==> r == if rawsize >= 4 then rawsize - 4 else rawsize + 0xFFFF_FFFC
  {
    (rawsize + 0xFFFF_FFFC) % 0x1_0000_0000
  }

  /** The datum fetched through a TOAST pointer, not yet decompressed. */
  ghost function Fetched(added: seq<Chunk>, a: seq<byte>): Result
    requires IsToastPointer(a)
  {
    var rawsize, extsize, id := Load32(a, 2), Load32(a, 6) % 0x4000_0000, Load32(a, 10);
    var header := if extsize < LessHeader(rawsize) then Header4BC(extsize + 4) else Header4B(extsize + 4);
    if extsize == 0 then Datum(header)
    else match Assembled(Of(added, id))
      case None => Undefined
      case Some(data) => if |data| < extsize then Undefined else Datum(header + data[..extsize])
  }

  /** `r` is what detoasting the datum at the start of `a` gives, with the chunks `added` in the cache. */
  ghost predicate IsDetoasted(added: seq<Chunk>, a: seq<byte>, r: Result)
    requires HeaderReadable(a, 0)
  {
    if a[0] == 1 && a[1] == 18 && |a| >= 18 then
      var f := Fetched(added, a);
      if f.Datum? && Is4BCompressed(f.bytes[0]) then IsDecompressed(f.bytes, r) else r == f
    else if a[0] == 1 then r == Undefined
    else if Is4BCompressed(a[0]) then IsDecompressed(a, r)
    else if Is1B(a[0]) then
      var n := VarSize1B(a[0]);
      r == if n > |a| then Undefined else Datum(Header4B(n + 3) + a[1..n])
    else r == Datum(a)
  }

  // ---------------------------------------------------------------- the C functions

  method PglzDecompressDatum(v: seq<byte>, past: nat -> byte) returns (r: Result)
    requires |v| >= 8 && VarSize4B(v, 0) <= |v| && Load32(v, 4) / 0x4000_0000 == METHOD_PGLZ
    ensures IsDecompressed(v, r)
  {
    var extsize := Load32(v, 4) % 0x4000_0000;
    var result := new byte[extsize + 4];
    if VarSize4B(v, 0) < 8 {
      // a negative source length: the decompressor reads nothing and reports an incomplete result
      r := SetHeader(result, -1);
      return;
    }
    var rawsize := Pglz.PglzDecompress(v[8..VarSize4B(v, 0)], past, result, 4, extsize, true);
    r := SetHeader(result, rawsize);
  }

  /** SET_VARSIZE on the result buffer. */
  method SetHeader(result: array<byte>, rawsize: int) returns (r: Result)
    requires -1 <= rawsize && rawsize + 4 <= result.Length && 4 <= result.Length
    modifies result
    ensures r.Datum? && r.bytes == Header4B(rawsize + 4) + old(result[4..])
  {
    var h := Header4B(rawsize + 4);
    ghost var data := result[4..];
    forall i | 0 <= i < 4 { result[i] := h[i]; }
    r := Datum(result[..]);
    assert result[..] == h + data;
  }

  method ToastDecompressDatum(v: seq<byte>, past: nat -> byte) returns (r: Result)
    requires |v| >= 8 && VarSize4B(v, 0) <= |v|
    ensures IsDecompressed(v, r)
  {
    var cmid := Load32(v, 4) / 0x4000_0000;
    if cmid == METHOD_PGLZ {
      r := PglzDecompressDatum(v, past);
    } else {
      r := Null;      // lz4 is not compiled in; other methods are refused
    }
  }

  method ToastFetchDatum(cache: ToastCache, a: seq<byte>) returns (r: Result)
    requires cache.Valid() && IsToastPointer(a) && Fetchable(cache.added, a)
    modifies cache
    ensures cache.Valid() && cache.added == old(cache.added)
    ensures r == Fetched(cache.added, a)
  {
    hide Load32, Assembled, Of, Header4B, Header4BC, LessHeader;
    var rawsize, attrsize := Load32(a, 2), Load32(a, 6) % 0x4000_0000;
    var header := if attrsize < LessHeader(rawsize) then Header4BC(attrsize + 4) else Header4B(attrsize + 4);
    if attrsize == 0 {
      return Datum(header);
    }
    var data := cache.FetchValue(Load32(a, 10));
    match data
    case None => r := Undefined;
    case Some(d) => r := if |d| < attrsize then Undefined else Datum(header + d[..attrsize]);
  }

  /** detoast_attr.  `a` is the datum's memory; what it is not compressed, external or short is returned as it is. */
  method DetoastAttr(cache: ToastCache, a: seq<byte>, past: nat -> byte) returns (r: Result)
    requires cache.Valid() && HeaderReadable(a, 0) && Fetchable(cache.added, a)
    modifies cache
    ensures cache.Valid() && cache.added == old(cache.added)
    ensures IsDetoasted(cache.added, a, r)
  {
    if IsExternal(a[0]) && a[1] == 18 {
      if |a| < 18 {
        return Undefined;
      }
      r := ToastFetchDatum(cache, a);
      if r.Datum? && Is4BCompressed(r.bytes[0]) {
        if |r.bytes| < 8 || VarSize4B(r.bytes, 0) > |r.bytes| {
          return Undefined;
        }
        r := ToastDecompressDatum(r.bytes, past);
      }
    } else if IsExternal(a[0]) {
      r := Undefined;       // indirect and expanded pointers exist in memory only
    } else if Is4BCompressed(a[0]) {
      if |a| < 8 || VarSize4B(a, 0) > |a| {
        return Undefined;
      }
      r := ToastDecompressDatum(a, past);
    } else if Is1B(a[0]) {
      var dataSize := VarSize1B(a[0]) - 1;
      r := if 1 + dataSize > |a| then Undefined else Datum(Header4B(dataSize + 4) + a[1..1 + dataSize]);
    } else {
      r := Datum(a);
    }
  }
}
