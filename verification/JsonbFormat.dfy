/** The packed JSONB container format (pg_string.h): documents, their layout, and entry arithmetic. */
module JsonbFormat {
  import opened Base

  /** A JSON document as the container format stores it.  The children of an object are its keys
      followed by its values, which is their order on disk; `rawScalar` marks the one-element pseudo
      array that wraps a scalar document. */
  datatype Json =
    | Null
    | Bool(b: bool)
    | String(s: seq<byte>)
    | Numeric(raw: seq<byte>)
    | Array(kids: seq<Json>, rawScalar: bool)
    | Object(kids: seq<Json>)
  {
    predicate IsContainer() { Array? || Object? }

    /** Elements of an array, pairs of an object. */
    function Count(): nat requires IsContainer() {
      if Array? then |kids| else |kids| / 2
    }
  }

  ghost predicate WellFormed(j: Json) {
    match j
    case Array(kids, raw) => !raw && forall k :: k in kids ==> WellFormed(k)
    case Object(kids) =>
      && |kids| % 2 == 0
      && (forall i :: 0 <= i < |kids| / 2 ==> kids[i].String?)
      && (forall k :: k in kids ==> WellFormed(k))
    case _ => true
  }

  /** A whole document: a well-formed container, or a raw scalar. */
  ghost predicate Document(j: Json) {
    if j.Array? && j.rawScalar then |j.kids| == 1 && !j.kids[0].IsContainer()
    else j.IsContainer() && WellFormed(j)
  }

  // ---------------------------------------------------------------- layout

  const FIELD: nat := 0x1000_0000      // one past the largest offset, length or count

  /** The next multiple of four. */
  function IntAlign(x: nat): (r: nat)
    ensures r % 4 == 0 && x <= r < x + 4
  {
    RoundsUp(x, 4);
    (x + 3) / 4 * 4
  }

  /** Bytes a child takes when the data before it ends at `at`, its own padding included. */
  function KidLength(j: Json, at: nat): nat
    decreases j
  {
    match j
    case String(s) => |s|
    case Numeric(raw) => IntAlign(at) - at + |raw|
    case Array(kids, _) => IntAlign(at) - at + 4 + 4 * |kids| + Offset(kids, |kids|)
    case Object(kids) => IntAlign(at) - at + 4 + 4 * |kids| + Offset(kids, |kids|)
    case _ => 0
  }

  /** Where the data of child `i` starts: the sum of the lengths before it. */
  function Offset(kids: seq<Json>, i: nat): nat
    requires i <= |kids|
    decreases kids, i
  {
    if i == 0 then 0 else Offset(kids, i - 1) + KidLength(kids[i - 1], Offset(kids, i - 1))
  }

  function Size(j: Json): nat
    requires j.IsContainer()
  {
    4 + 4 * |j.kids| + Offset(j.kids, |j.kids|)
  }

  function TypeTag(j: Json): nat {
    match j
    case String(_) => 0
    case Numeric(_) => 1
    case Bool(b) => if b then 3 else 2
    case Null => 4
    case _ => 5
  }

  /** A JEntry is right for child `i`: its type, and either its length or the offset of its end. */
  ghost predicate EntryFits(e: nat, kids: seq<Json>, i: nat)
    requires i < |kids|
  {
    && TypeField(e) == TypeTag(kids[i])
    && e % 0x1000_0000 == if HasOff(e) then Offset(kids, i + 1) else KidLength(kids[i], Offset(kids, i))
  }

  function TypeField(e: nat): nat { e / 0x1000_0000 % 8 }
  function HasOff(e: nat): (r: bool)
    ensures e < 0x1_0000_0000 ==> (r <==> e >= 0x8000_0000)
  {
    e / 0x8000_0000 == 1
  }

  function OffLenField(e: nat): (r: nat) ensures r < FIELD { e % 0x1000_0000 }

  function HeaderOf(j: Json): nat
    requires j.IsContainer()
  {
    if j.Array? then 0x4000_0000 + (if j.rawScalar then 0x1000_0000 else 0) + |j.kids|
    else 0x2000_0000 + |j.kids| / 2
  }

  /** Every entry of the container at `c` fits its child; each holds a length or an end offset as it likes. */
  ghost predicate EntriesFit(buf: seq<byte>, c: nat, j: Json)
    requires j.IsContainer()
  {
    && c + Size(j) <= |buf|
    && Size(j) < FIELD
    && forall i {:trigger EntryFits(Entry(buf, c, i), j.kids, i)} ::
         0 <= i < |j.kids| ==> EntryFits(Entry(buf, c, i), j.kids, i)
  }

  /** The container at `c` of `buf` packs `j`. */
  ghost predicate Packed(buf: seq<byte>, c: nat, j: Json)
    requires j.IsContainer()
    decreases j, 0, |j.kids|
  {
    && c + Size(j) <= |buf|
    && Load32(buf, c) == HeaderOf(j)
    && EntriesFit(buf, c, j)
    && (forall i {:trigger KidInPlace(buf, c, j, i)} :: 0 <= i < |j.kids| ==> KidInPlace(buf, c, j, i))
  }

  /** The data of child `i` lies at its offset behind the entries. */
  ghost predicate KidInPlace(buf: seq<byte>, c: nat, j: Json, i: nat)
    requires j.IsContainer() && i < |j.kids|
    decreases j, 0, i
  {
    KidPacked(buf, c + 4 + 4 * |j.kids|, Offset(j.kids, i), j.kids[i])
  }

  ghost predicate KidPacked(buf: seq<byte>, base: nat, at: nat, j: Json)
    decreases j, 1
  {
    match j
    case String(s) => base + at + |s| <= |buf| && buf[base + at..base + at + |s|] == s
    case Numeric(raw) =>
      && base + IntAlign(at) + |raw| <= |buf|
      && buf[base + IntAlign(at)..base + IntAlign(at) + |raw|] == raw
    case Array(_, _) => Packed(buf, base + IntAlign(at), j)
    case Object(_) => Packed(buf, base + IntAlign(at), j)
    case _ => true
  }

  /** `container->children[i]` */
  function Entry(buf: seq<byte>, c: nat, i: nat): (r: nat)
    requires c + 4 * i + 8 <= |buf|
    ensures r < 0x1_0000_0000
  {
    Load32(buf, c + 4 + 4 * i)
  }

  lemma {:induction false} OffsetGrows(kids: seq<Json>, i: nat, k: nat)
    requires i <= k <= |kids|
    ensures Offset(kids, i) <= Offset(kids, k)
    decreases k
  {
    if i == k {
    } else {
      OffsetGrows(kids, i, k - 1);
    }
  }

  /** What entry `i` of a packed container says about the offsets around child `i`. */
  lemma EntryMeaning(buf: seq<byte>, c: nat, j: Json, i: nat)
    requires j.IsContainer() && EntriesFit(buf, c, j) && i < |j.kids|
    ensures c + 4 * i + 8 <= |buf|
    ensures var e := Entry(buf, c, i);
      && Offset(j.kids, i) <= Offset(j.kids, i + 1) <= Size(j) < FIELD
      && OffLenField(e) == Offset(j.kids, i + 1) - if HasOff(e) then 0 else Offset(j.kids, i)
  {
    OffsetGrows(j.kids, i + 1, |j.kids|);
    var e := Entry(buf, c, i);
    assert EntryFits(e, j.kids, i);
  }

  /** What a packed container says about its child `i`. */
  lemma PackedKid(buf: seq<byte>, c: nat, j: Json, i: nat)
    requires j.IsContainer() && Packed(buf, c, j) && i < |j.kids|
    ensures EntriesFit(buf, c, j)
    ensures TypeField(Entry(buf, c, i)) == TypeTag(j.kids[i])
    ensures KidPacked(buf, c + 4 + 4 * |j.kids|, Offset(j.kids, i), j.kids[i])
  {
    assert EntryFits(Entry(buf, c, i), j.kids, i);
    assert KidInPlace(buf, c, j, i);
  }

  lemma PackedEntries(buf: seq<byte>, c: nat, j: Json)
    requires j.IsContainer() && Packed(buf, c, j)
    ensures EntriesFit(buf, c, j)
  {
  }

  lemma HeaderFields(j: Json)
    requires j.IsContainer() && |j.kids| < FIELD
    ensures HeaderOf(j) % 0x1000_0000 == j.Count()
    ensures HeaderOf(j) / 0x2000_0000 % 4 == if j.Array? then 2 else 1
    ensures j.Array? ==> (HeaderOf(j) / 0x1000_0000 % 2 == 1) == j.rawScalar
  {
  }

  // ---------------------------------------------------------------- offsets and lengths from entries

  /** getJsonbOffset: add up length fields backwards until an entry tells an end offset. */
  method GetJsonbOffset(buf: seq<byte>, c: nat, ghost j: Json, index: nat) returns (offset: nat)
    requires j.IsContainer() && EntriesFit(buf, c, j) && index <= |j.kids|
    ensures offset == Offset(j.kids, index)
  {
    hide EntriesFit, Offset, Entry, Size;
    OffsetFirst(j.kids);
    offset := 0;
    var i := index - 1;
    while i >= 0
      invariant -1 <= i < index
      invariant offset + Offset(j.kids, i + 1) == Offset(j.kids, index)
    {
      EntryMeaning(buf, c, j, i);
      EntryMeaning(buf, c, j, index - 1);
      var e := Entry(buf, c, i);
      offset := (offset + OffLenField(e)) % 0x1_0000_0000;
      if HasOff(e) {
        return;
      }
      i := i - 1;
    }
  }

  lemma OffsetFirst(kids: seq<Json>)
    ensures Offset(kids, 0) == 0
  {
  }

  /** getJsonbLength */
  method GetJsonbLength(buf: seq<byte>, c: nat, ghost j: Json, index: nat) returns (len: nat)
    requires j.IsContainer() && EntriesFit(buf, c, j) && index < |j.kids|
    ensures len == KidLength(j.kids[index], Offset(j.kids, index))
    ensures len == Offset(j.kids, index + 1) - Offset(j.kids, index)
  {
    var e := Entry(buf, c, index);
    EntryMeaning(buf, c, j, index);
    if HasOff(e) {
      var off := GetJsonbOffset(buf, c, j, index);
      len := OffLenField(e) - off;
    } else {
      len := OffLenField(e);
    }
  }

  /** JBE_ADVANCE_OFFSET: from the start of child `i` to the start of the next one. */
  method AdvanceOffset(buf: seq<byte>, c: nat, ghost j: Json, i: nat, offset: nat) returns (next: nat)
    requires j.IsContainer() && EntriesFit(buf, c, j) && i < |j.kids|
    requires offset == Offset(j.kids, i)
    ensures next == Offset(j.kids, i + 1)
  {
    var e := Entry(buf, c, i);
    EntryMeaning(buf, c, j, i);
    next := if HasOff(e) then OffLenField(e) else (offset + OffLenField(e)) % 0x1_0000_0000;
  }
}
