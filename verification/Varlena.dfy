/** Varlena headers (pg_varatt.h, little-endian branch).  A pointer is an offset into a byte sequence. */
module Varlenas {
  import opened Base

  // ---------------------------------------------------------------- reading headers

  predicate Is4B(h: byte) { h as int % 2 == 0 }
  predicate Is4BPlain(h: byte) { h as int % 4 == 0 }
  predicate Is4BCompressed(h: byte) { h as int % 4 == 2 }
  predicate Is1B(h: byte) { h as int % 2 == 1 }
  predicate IsExternal(h: byte) { h == 1 }
  predicate NotPadByte(h: byte) { h != 0 }

  const VARTAG_INDIRECT: int := 1
  const VARTAG_ONDISK: int := 18
  predicate TagIsExpanded(tag: int) { tag == 2 || tag == 3 }

  function VarTagSize(tag: int): nat {
    if tag == VARTAG_INDIRECT || TagIsExpanded(tag) then 8 else if tag == VARTAG_ONDISK then 16 else 0
  }

  function VarSize4B(m: seq<byte>, at: nat): nat
    requires at + 4 <= |m|
  {
    Load32(m, at) / 4
  }

  function VarSize1B(h: byte): nat { h as int / 2 }

  /** Enough bytes at `at` for VARSIZE_ANY to look at. */
  predicate HeaderReadable(m: seq<byte>, at: nat) {
    && at < |m|
    && (IsExternal(m[at]) ==> at + 2 <= |m|)
    && (Is4B(m[at]) ==> at + 4 <= |m|)
  }

  /** VARSIZE_ANY */
  function VarSizeAny(m: seq<byte>, at: nat): nat
    requires HeaderReadable(m, at)
  {
    if IsExternal(m[at]) then 2 + VarTagSize(m[at + 1] as int)
    else if Is1B(m[at]) then VarSize1B(m[at])
    else VarSize4B(m, at)
  }

  // ---------------------------------------------------------------- writing headers

  const PLAIN_MAX: nat := 0x4000_0000   // lengths fit thirty bits

  /** SET_VARSIZE_4B */
  function Header4B(len: nat): (r: seq<byte>)
    ensures |r| == 4
  {
    Store32((len % 0x4000_0000) * 4)
  }

  /** SET_VARSIZE_4B_C */
  function Header4BC(len: nat): (r: seq<byte>)
    ensures |r| == 4
  {
    Store32((len % 0x4000_0000) * 4 + 2)
  }

  /** SET_VARSIZE_1B */
  function Header1B(len: nat): byte
    requires len < 128
  {
    (len * 2 + 1) as byte
  }

  /** The first byte of a header word tells its kind. */
  lemma FirstByte(len: nat)
    requires len < PLAIN_MAX
    ensures Header4B(len)[0] as int % 4 == 0 && Header4BC(len)[0] as int % 4 == 2
    ensures Header4B(len)[0] == 0 <==> len % 64 == 0
    ensures Header4B(len) == Store32(len * 4) && Header4BC(len) == Store32(len * 4 + 2)
  {
    hide Store32;
    LowByte(len, 0);
    LowByte(len, 2);
  }

  /** The first byte of a stored word is its length modulo 64 behind two kind bits. */
  lemma LowByte(len: nat, bits: nat)
    requires len < PLAIN_MAX && bits < 4
    ensures len % 0x4000_0000 == len
    ensures Store32(len * 4 + bits)[0] as int == 4 * (len % 64) + bits
    ensures (4 * (len % 64) + bits) % 4 == bits
  {
    hide Store32;
    var q, m := len / 64, len % 64;
    DivUnique(len, 0x4000_0000, 0, len);
    StoreFirst(len * 4 + bits);
    DivUnique(len * 4 + bits, 0x100, q, 4 * m + bits);
    DivUnique(4 * m + bits, 4, m, bits);
  }

  lemma StoreFirst(x: nat)
    requires x < 0x1_0000_0000
    ensures Store32(x)[0] as int == x % 0x100
  {
  }

  lemma Header4BRead(m: seq<byte>, at: nat, len: nat)
    requires len < PLAIN_MAX && at + 4 <= |m| && m[at..at + 4] == Header4B(len)
    ensures VarSize4B(m, at) == len && Is4BPlain(m[at])
    ensures m[at] == 0 <==> len % 64 == 0
  {
    hide Load32, Store32, Header4B, Header4BC;
    FirstByte(len);
    LoadStored(len * 4, m, at);
    assert m[at] == m[at..at + 4][0];
  }

  lemma Header4BCRead(m: seq<byte>, at: nat, len: nat)
    requires len < PLAIN_MAX && at + 4 <= |m| && m[at..at + 4] == Header4BC(len)
    ensures VarSize4B(m, at) == len && Is4BCompressed(m[at])
  {
    hide Load32, Store32, Header4B, Header4BC;
    FirstByte(len);
    LoadStored(len * 4 + 2, m, at);
    assert m[at] == m[at..at + 4][0];
  }

  // ---------------------------------------------------------------- whole datums

  /** A four-byte header and the payload. */
  function Plain(p: seq<byte>): seq<byte>
    requires |p| + 4 < PLAIN_MAX
  {
    Header4B(|p| + 4) + p
  }

  /** A one-byte header and the payload. */
  function Short(p: seq<byte>): seq<byte>
    requires |p| < 127
  {
    [Header1B(|p| + 1)] + p
  }

  /** Compressed inline: header, raw size (method bits zero for pglz), compressed bytes. */
  function CompressedInline(rawsize: nat, comp: seq<byte>): seq<byte>
    requires rawsize < PLAIN_MAX && |comp| + 8 < PLAIN_MAX
  {
    Header4BC(|comp| + 8) + Store32(rawsize) + comp
  }

  /** A TOAST pointer to value `id`: the original size with header, the stored size, pglz or none. */
  function ToastPointer(rawsize: nat, extsize: nat, id: nat, relid: nat): (r: seq<byte>)
    requires rawsize < 0x8000_0000 && extsize < PLAIN_MAX && id < 0x1_0000_0000 && relid < 0x1_0000_0000
    ensures |r| == 18
  {
    [1, 18] + Store32(rawsize) + Store32(extsize) + Store32(id) + Store32(relid)
  }
}
