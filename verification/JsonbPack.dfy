/** The writer's half of the container format, so that the decoder's results hold of every document. */
module JsonbPack {
  import opened Base
  import opened JsonbFormat

  /** Which entries hold an end offset instead of a length; PostgreSQL takes every 32nd. */
  type Stride = nat -> bool

  ghost function EntryWord(kids: seq<Json>, i: nat, off: Stride): nat
    requires i < |kids|
  {
    0x1000_0000 * TypeTag(kids[i])
    + if off(i) then 0x8000_0000 + Offset(kids, i + 1) else KidLength(kids[i], Offset(kids, i))
  }

  ghost function Word(x: nat): (r: seq<byte>)
    ensures |r| == 4
  {
    Store32(x % 0x1_0000_0000)
  }

  /** The first `n` entries. */
  ghost function EntryBytes(kids: seq<Json>, n: nat, off: Stride): (r: seq<byte>)
    requires n <= |kids|
    ensures |r| == 4 * n
    decreases n
  {
    if n == 0 then [] else EntryBytes(kids, n - 1, off) + Word(EntryWord(kids, n - 1, off))
  }

  /** One child's data behind `at` bytes of earlier data. */
  ghost function KidBytes(j: Json, at: nat, off: Stride): (r: seq<byte>)
    ensures |r| == KidLength(j, at)
    decreases j, 1
  {
    match j
    case String(s) => s
    case Numeric(raw) => Zeros(IntAlign(at) - at) + raw
    case Array(_, _) => Zeros(IntAlign(at) - at) + Pack(j, off)
    case Object(_) => Zeros(IntAlign(at) - at) + Pack(j, off)
    case _ => []
  }

  /** The data of the first `n` children. */
  ghost function DataBytes(kids: seq<Json>, n: nat, off: Stride): (r: seq<byte>)
    requires n <= |kids|
    ensures |r| == Offset(kids, n)
    decreases kids, n
  {
    if n == 0 then [] else DataBytes(kids, n - 1, off) + KidBytes(kids[n - 1], Offset(kids, n - 1), off)
  }

  /** The container: header, entries, data. */
  ghost function Pack(j: Json, off: Stride): (r: seq<byte>)
    requires j.IsContainer()
    ensures |r| == Size(j)
    decreases j, 0
  {
    Word(HeaderOf(j)) + EntryBytes(j.kids, |j.kids|, off) + DataBytes(j.kids, |j.kids|, off)
  }

  /** `part` lies at `at` in `buf`. */
  ghost predicate At(buf: seq<byte>, at: nat, part: seq<byte>) {
    at + |part| <= |buf| && buf[at..at + |part|] == part
  }

  lemma AtSplit(buf: seq<byte>, at: nat, a: seq<byte>, b: seq<byte>)
    requires At(buf, at, a + b)
    ensures At(buf, at, a) && At(buf, at + |a|, b)
  {
    var s := buf[at..at + |a + b|];
    assert buf[at..at + |a|] == s[..|a|] && buf[at + |a|..at + |a| + |b|] == s[|a|..];
  }

  lemma {:induction false} EntryAt(buf: seq<byte>, at: nat, kids: seq<Json>, n: nat, i: nat, off: Stride)
    requires i < n <= |kids| && At(buf, at, EntryBytes(kids, n, off))
    ensures At(buf, at + 4 * i, Word(EntryWord(kids, i, off)))
    decreases n
  {
    AtSplit(buf, at, EntryBytes(kids, n - 1, off), Word(EntryWord(kids, n - 1, off)));
    if i == n - 1 {
    } else {
      EntryAt(buf, at, kids, n - 1, i, off);
    }
  }

  lemma {:induction false} DataAt(buf: seq<byte>, at: nat, kids: seq<Json>, n: nat, i: nat, off: Stride)
    requires i < n <= |kids| && At(buf, at, DataBytes(kids, n, off))
    ensures At(buf, at + Offset(kids, i), KidBytes(kids[i], Offset(kids, i), off))
    decreases n
  {
    AtSplit(buf, at, DataBytes(kids, n - 1, off), KidBytes(kids[n - 1], Offset(kids, n - 1), off));
    if i == n - 1 {
    } else {
      DataAt(buf, at, kids, n - 1, i, off);
    }
  }

  lemma WordAt(buf: seq<byte>, at: nat, x: nat)
    requires At(buf, at, Word(x)) && x < 0x1_0000_0000
    ensures Load32(buf, at) == x
  {
    LoadStored(x, buf, at);
  }

  lemma EntryWordFits(kids: seq<Json>, i: nat, off: Stride)
    requires i < |kids| && Offset(kids, i + 1) < FIELD
    ensures EntryWord(kids, i, off) < 0x1_0000_0000 && EntryFits(EntryWord(kids, i, off), kids, i)
  {
    hide KidLength;
    assert KidLength(kids[i], Offset(kids, i)) <= Offset(kids, i + 1);
  }

  /** The writer's bytes are a packed container, whichever entries hold offsets. */
  lemma {:induction false} PackIsPacked(buf: seq<byte>, c: nat, j: Json, off: Stride)
    requires j.IsContainer() && Size(j) < FIELD && At(buf, c, Pack(j, off))
    ensures Packed(buf, c, j)
    decreases j, 0, 0
  {
    hide KidPacked, EntryFits, EntryWord, KidLength, EntryBytes, DataBytes, At;
    var kids, n := j.kids, |j.kids|;
    AtSplit(buf, c, Word(HeaderOf(j)) + EntryBytes(kids, n, off), DataBytes(kids, n, off));
    AtSplit(buf, c, Word(HeaderOf(j)), EntryBytes(kids, n, off));
    WordAt(buf, c, HeaderOf(j));
    forall i | 0 <= i < n ensures EntryFits(Entry(buf, c, i), kids, i) {
      OffsetGrows(kids, i + 1, n);
      EntryAt(buf, c + 4, kids, n, i, off);
      EntryWordFits(kids, i, off);
      WordAt(buf, c + 4 + 4 * i, EntryWord(kids, i, off));
    }
    forall i | 0 <= i < n ensures KidInPlace(buf, c, j, i) {
      OffsetGrows(kids, i + 1, n);
      DataAt(buf, c + 4 + 4 * n, kids, n, i, off);
      KidAt(buf, c + 4 + 4 * n, Offset(kids, i), kids[i], off);
    }
  }

  lemma {:induction false} KidAt(buf: seq<byte>, base: nat, at: nat, j: Json, off: Stride)
    requires At(buf, base + at, KidBytes(j, at, off)) && KidLength(j, at) < FIELD
    ensures KidPacked(buf, base, at, j)
    decreases j, 1
  {
    hide Zeros, IntAlign, Packed, Pack, Size;
    match j
    case String(_) =>
    case Numeric(raw) => AtSplit(buf, base + at, Zeros(IntAlign(at) - at), raw);
    case Array(_, _) => ContainerAt(buf, base, at, j, off);
    case Object(_) => ContainerAt(buf, base, at, j, off);
    case _ =>
  }

  lemma {:induction false} ContainerAt(buf: seq<byte>, base: nat, at: nat, j: Json, off: Stride)
    requires j.IsContainer()
    requires At(buf, base + at, KidBytes(j, at, off)) && KidLength(j, at) < FIELD
    ensures Packed(buf, base + IntAlign(at), j)
    decreases j, 0, 1
  {
    hide Zeros, IntAlign, Packed, Pack, At;
    AtSplit(buf, base + at, Zeros(IntAlign(at) - at), Pack(j, off));
    PackIsPacked(buf, base + IntAlign(at), j, off);
  }
}
