/** The TOAST chunk cache: chunks in scan order, grouped by value id, and their assembly
    (pg_page.c toast_cache_add, pg_detoast.c toast_cache_get_list and toast_assemble). */
module ToastCaches {
  import opened Base

  datatype Chunk = Chunk(id: nat, seqno: int, data: seq<byte>)

  // ---------------------------------------------------------------- meaning

  /** The chunks of one value, in scan order. */
  ghost function Of(added: seq<Chunk>, id: nat): seq<Chunk> {
    if added == [] then []
    else
      var last := added[|added| - 1];
      if last.id == id then Of(added[..|added| - 1], id) + [last] else Of(added[..|added| - 1], id)
  }

  lemma {:induction false} OfMembers(added: seq<Chunk>, id: nat)
    ensures forall c :: c in Of(added, id) <==> c in added && c.id == id
    decreases |added|
  {
    if added == [] {
    } else {
      var init, last := added[..|added| - 1], added[|added| - 1];
      assert added == init + [last];
      OfMembers(init, id);
    }
  }

  /** The chunk numbered `s` that came last, if any. */
  ghost function Numbered(cs: seq<Chunk>, s: int): (r: Option<Chunk>)
    ensures r.Some? ==> r.value in cs && r.value.seqno == s
    ensures r.None? ==> forall c :: c in cs ==> c.seqno != s
  {
    if cs == [] then None
    else if cs[|cs| - 1].seqno == s then Some(cs[|cs| - 1])
    else
      assert forall c :: c in cs ==> c in cs[..|cs| - 1] || c == cs[|cs| - 1];
      Numbered(cs[..|cs| - 1], s)
  }

  ghost function MaxSeq(cs: seq<Chunk>): (m: int)
    ensures m >= -1
  {
    if cs == [] then -1
    else
      var m := MaxSeq(cs[..|cs| - 1]);
      if cs[|cs| - 1].seqno > m then cs[|cs| - 1].seqno else m
  }

  ghost predicate AllPresent(cs: seq<Chunk>, n: int) {
    forall s :: 0 <= s < n ==> Numbered(cs, s).Some?
  }

  /** The data of chunks 0 to n-1. */
  ghost function Joined(cs: seq<Chunk>, n: nat): seq<byte>
    requires AllPresent(cs, n)
  {
    if n == 0 then [] else Joined(cs, n - 1) + Numbered(cs, n - 1).value.data
  }

  /** The value: its chunks in number order, if none is missing. */
  ghost function Assembled(cs: seq<Chunk>): Option<seq<byte>> {
    if cs == [] || !AllPresent(cs, MaxSeq(cs) + 1) then None else Some(Joined(cs, MaxSeq(cs) + 1))
  }

  ghost predicate SeqsNonNegative(cs: seq<Chunk>) {
    forall c :: c in cs ==> c.seqno >= 0
  }

  // ---------------------------------------------------------------- order does not matter

  ghost predicate DistinctKeys(cs: seq<Chunk>) {
    forall i, j :: 0 <= i < j < |cs| ==> cs[i].id != cs[j].id || cs[i].seqno != cs[j].seqno
  }

  ghost predicate SameMembers(a: seq<Chunk>, b: seq<Chunk>) {
    forall c :: c in a <==> c in b
  }

  lemma NumberedUnique(cs: seq<Chunk>, c: Chunk)
    requires DistinctKeys(cs) && c in cs && (forall d :: d in cs ==> d.id == c.id)
    ensures Numbered(cs, c.seqno) == Some(c)
  {
    var d := Numbered(cs, c.seqno).value;
    var i :| 0 <= i < |cs| && cs[i] == c;
    var j :| 0 <= j < |cs| && cs[j] == d;
    assert cs[i].id == cs[j].id && cs[i].seqno == cs[j].seqno;
  }

  lemma {:induction false} MaxSeqIs(cs: seq<Chunk>)
    ensures forall c :: c in cs ==> c.seqno <= MaxSeq(cs)
    ensures MaxSeq(cs) >= 0 ==> exists c :: c in cs && c.seqno == MaxSeq(cs)
    decreases |cs|
  {
    if cs == [] {
    } else {
      var init, last := cs[..|cs| - 1], cs[|cs| - 1];
      MaxSeqIs(init);
      assert cs == init + [last];
      assert last in cs;
      if last.seqno <= MaxSeq(init) && MaxSeq(cs) >= 0 {
        var c :| c in init && c.seqno == MaxSeq(init);
        assert c in cs;
      }
    }
  }

  lemma MaxSeqSame(a: seq<Chunk>, b: seq<Chunk>)
    requires SameMembers(a, b)
    ensures MaxSeq(a) == MaxSeq(b)
  {
    MaxSeqIs(a);
    MaxSeqIs(b);
  }

  lemma NumberedSame(a: seq<Chunk>, b: seq<Chunk>, id: nat, s: int)
    requires DistinctKeys(a) && DistinctKeys(b) && SameMembers(a, b) && forall c :: c in a ==> c.id == id
    ensures Numbered(a, s) == Numbered(b, s)
  {
    if Numbered(a, s).Some? {
      NumberedUnique(b, Numbered(a, s).value);
    }
  }

  lemma {:induction false} JoinedSame(a: seq<Chunk>, b: seq<Chunk>, id: nat, n: nat)
    requires DistinctKeys(a) && DistinctKeys(b) && SameMembers(a, b) && forall c :: c in a ==> c.id == id
    requires AllPresent(a, n) && AllPresent(b, n)
    ensures Joined(a, n) == Joined(b, n)
    decreases n
  {
    hide Numbered, DistinctKeys, SameMembers;
    if n == 0 {
    } else {
      JoinedSame(a, b, id, n - 1);
      NumberedSame(a, b, id, n - 1);
    }
  }

  lemma AssembledSame(a: seq<Chunk>, b: seq<Chunk>, id: nat)
    requires DistinctKeys(a) && DistinctKeys(b) && SameMembers(a, b) && forall c :: c in a ==> c.id == id
    ensures Assembled(a) == Assembled(b)
  {
    MaxSeqSame(a, b);
    SameEmpty(a, b);
    forall s ensures Numbered(a, s) == Numbered(b, s) { NumberedSame(a, b, id, s); }
    if a != [] && AllPresent(a, MaxSeq(a) + 1) {
      JoinedSame(a, b, id, MaxSeq(a) + 1);
    }
  }

  lemma SameEmpty(a: seq<Chunk>, b: seq<Chunk>)
    requires SameMembers(a, b)
    ensures a == [] <==> b == []
  {
    assert a != [] ==> a[0] in a;
    assert b != [] ==> b[0] in b;
  }

  lemma {:induction false} OfDistinct(cs: seq<Chunk>, id: nat)
    requires DistinctKeys(cs)
    ensures DistinctKeys(Of(cs, id))
    decreases |cs|
  {
    if cs == [] {
    } else {
      var init, last := cs[..|cs| - 1], cs[|cs| - 1];
      OfDistinct(init, id);
      OfMembers(init, id);
      if last.id == id {
        forall c | c in Of(init, id) ensures c.seqno != last.seqno {
          var i :| 0 <= i < |init| && init[i] == c;
          assert cs[i] == c;
        }
      }
    }
  }

  /** Whatever the scan order, every value assembles to the same bytes. */
  lemma OrderIrrelevant(a: seq<Chunk>, b: seq<Chunk>, id: nat)
    requires multiset(a) == multiset(b) && DistinctKeys(a)
    ensures Assembled(Of(a, id)) == Assembled(Of(b, id))
  {
    forall c ensures c in a <==> c in b { assert c in multiset(a) <==> c in multiset(b); }
    DistinctPermuted(a, b);
    OfDistinct(a, id);
    OfDistinct(b, id);
    OfMembers(a, id);
    OfMembers(b, id);
    AssembledSame(Of(a, id), Of(b, id), id);
  }

  lemma LastFresh(cs: seq<Chunk>)
    requires cs != [] && DistinctKeys(cs)
    ensures cs[|cs| - 1] !in cs[..|cs| - 1]
  {
    var init := cs[..|cs| - 1];
    forall i | 0 <= i < |init| ensures init[i] != cs[|cs| - 1] {
      assert init[i] == cs[i];
    }
  }

  lemma {:induction false} OnceInDistinct(cs: seq<Chunk>, c: Chunk)
    requires DistinctKeys(cs)
    ensures multiset(cs)[c] <= 1
    decreases |cs|
  {
    if cs == [] {
    } else {
      var init, last := cs[..|cs| - 1], cs[|cs| - 1];
      assert cs == init + [last];
      OnceInDistinct(init, c);
      LastFresh(cs);
    }
  }

  /** Two equal entries count twice. */
  lemma CountedTwice(b: seq<Chunk>, i: nat, j: nat)
    requires i < j < |b|
    ensures b[i] == b[j] ==> multiset(b)[b[i]] >= 2
  {
    assert b == b[..j] + b[j..];
    assert b[..j][i] in b[..j] && b[j..][0] in b[j..];
  }

  lemma MembersDiffer(a: seq<Chunk>, x: Chunk, y: Chunk)
    requires DistinctKeys(a) && x in a && y in a
    ensures x != y ==> x.id != y.id || x.seqno != y.seqno
  {
    var k :| 0 <= k < |a| && a[k] == x;
    var l :| 0 <= l < |a| && a[l] == y;
  }

  lemma DistinctPermuted(a: seq<Chunk>, b: seq<Chunk>)
    requires multiset(a) == multiset(b) && DistinctKeys(a)
    ensures DistinctKeys(b)
  {
    forall i, j | 0 <= i < j < |b| ensures b[i].id != b[j].id || b[i].seqno != b[j].seqno {
      assert b[i] in multiset(a) && b[j] in multiset(a);
      OnceInDistinct(a, b[i]);
      CountedTwice(b, i, j);
      MembersDiffer(a, b[i], b[j]);
    }
  }

  // ---------------------------------------------------------------- the cache

  /** The chunks of one value id. */
  class ChunkList {
    var id: nat
    var chunks: seq<Chunk>
    var capacity: nat
    var maxSeq: int

    constructor (id: nat)
      ensures this.id == id && chunks == [] && capacity == 8 && maxSeq == -1
    {
      this.id, chunks, capacity, maxSeq := id, [], 8, -1;
    }

    /** The chunk goes to the end of the list. */
    method Push(chunk: Chunk)
      requires |chunks| <= capacity && 0 < capacity
      modifies this
      ensures id == old(id) && chunks == old(chunks) + [chunk] && |chunks| <= capacity && 0 < capacity
      ensures maxSeq == if chunk.seqno > old(maxSeq) then chunk.seqno else old(maxSeq)
      ensures capacity == if |chunks| <= old(capacity) then old(capacity) else 2 * old(capacity)
    {
      if |chunks| == capacity {
        capacity := capacity * 2;
      }
      chunks := chunks + [chunk];
      if chunk.seqno > maxSeq {
        maxSeq := chunk.seqno;
      }
    }

    /** toast_assemble: None for the null result. */
    method Assemble() returns (r: Option<seq<byte>>)
      requires SeqsNonNegative(chunks) && maxSeq == MaxSeq(chunks)
      ensures r == Assembled(chunks)
    {
      if |chunks| == 0 {
        return None;
      }
      hide Numbered;
      MaxSeqIs(chunks);
      assert chunks[0] in chunks;
      var map' := Spread();
      for i := 0 to maxSeq + 1
        invariant AllPresent(chunks, i)
      {
        if map'[i].None? {
          assert !AllPresent(chunks, maxSeq + 1) by { assert Numbered(chunks, i).None?; }
          return None;
        }
      }
      var total := 0;
      for i := 0 to maxSeq + 1
        invariant total == |Joined(chunks, i)|
      {
        total := total + |map'[i].value.data|;
      }
      var buf := CopyAll(map', total);
      r := Some(buf);
    }

    /** The chunks by their numbers; a number seen twice keeps the later chunk. */
    method Spread() returns (m: array<Option<Chunk>>)
      requires SeqsNonNegative(chunks) && maxSeq == MaxSeq(chunks) && chunks != []
      ensures fresh(m) && m.Length == maxSeq + 1
      ensures forall s :: 0 <= s <= maxSeq ==> m[s] == Numbered(chunks, s)
    {
      MaxSeqIs(chunks);
      assert chunks[0] in chunks;
      m := new Option<Chunk>[maxSeq + 1](_ => None);
      assert chunks[..0] == [];
      for i := 0 to |chunks|
        invariant forall s :: 0 <= s <= maxSeq ==> m[s] == Numbered(chunks[..i], s)
      {
        assert chunks[i] in chunks;
        assert chunks[..i + 1][..i] == chunks[..i];
        m[chunks[i].seqno] := Some(chunks[i]);
      }
      assert chunks[..|chunks|] == chunks;
    }

    /** The copy loop: chunk after chunk into a buffer of the right size. */
    method CopyAll(m: array<Option<Chunk>>, total: nat) returns (buf: seq<byte>)
      requires m.Length == maxSeq + 1 && AllPresent(chunks, maxSeq + 1)
      requires forall s :: 0 <= s <= maxSeq ==> m[s] == Numbered(chunks, s)
      requires total == |Joined(chunks, maxSeq + 1)|
      ensures buf == Joined(chunks, maxSeq + 1)
    {
      hide Numbered;
      var out := new byte[total];
      var pos := 0;
      assert out[..0] == [];
      for i := 0 to maxSeq + 1
        invariant pos == |Joined(chunks, i)| <= total && out[..pos] == Joined(chunks, i)
      {
        var data := m[i].value.data;
        JoinedGrows(chunks, i + 1, maxSeq + 1);
        forall k | 0 <= k < |data| {
          out[pos + k] := data[k];
        }
        assert out[..pos + |data|] == Joined(chunks, i) + data;
        pos := pos + |data|;
      }
      buf := out[..];
      assert out[..] == out[..pos];
    }
  }

  lemma {:induction false} JoinedGrows(cs: seq<Chunk>, m: nat, n: nat)
    requires m <= n && AllPresent(cs, n)
    ensures |Joined(cs, m)| <= |Joined(cs, n)|
    decreases n
  {
    if m == n {
    } else {
      JoinedGrows(cs, m, n - 1);
    }
  }

  lemma OfAdd(added: seq<Chunk>, c: Chunk, id: nat)
    ensures Of(added + [c], id) == if c.id == id then Of(added, id) + [c] else Of(added, id)
    ensures MaxSeq(Of(added, id) + [c]) == if c.seqno > MaxSeq(Of(added, id)) then c.seqno else MaxSeq(Of(added, id))
  {
    assert (added + [c])[..|added|] == added;
    assert (Of(added, id) + [c])[..|Of(added, id)|] == Of(added, id);
  }

  lemma {:induction false} NoneYet(added: seq<Chunk>, id: nat)
    requires forall c :: c in added ==> c.id != id
    ensures Of(added, id) == [] && MaxSeq([]) == -1
    decreases |added|
  {
    if added == [] {
    } else {
      assert added[|added| - 1] in added;
      NoneYet(added[..|added| - 1], id);
    }
  }

  class ToastCache {
    var lists: seq<ChunkList>
    var capacity: nat
    ghost var added: seq<Chunk>       // every chunk so far, in scan order
    ghost var index: map<nat, nat>    // where the list of an id stands

    /** Each list holds exactly the chunks of its id, and no id has two lists. */
    ghost predicate Valid()
      reads this, lists
    {
      && |lists| <= capacity && 0 < capacity
      && (forall k :: 0 <= k < |lists| ==> ListRight(lists[k], k))
      && (forall c :: c in added ==> c.id in index)
      && (forall id :: id in index ==> index[id] < |lists| && lists[index[id]].id == id)
    }

    ghost predicate ListRight(l: ChunkList, k: nat)
      reads this, l
    {
      && l.id in index && index[l.id] == k
      && l.chunks == Of(added, l.id)
      && l.maxSeq == MaxSeq(l.chunks)
      && |l.chunks| <= l.capacity && 0 < l.capacity
    }

    constructor ()
      ensures Valid() && added == [] && lists == [] && capacity == 16
    {
      lists, capacity, added, index := [], 16, [], map[];
    }

    /** toast_cache_get_list: the list of `id`, made if it is missing. */
    method GetList(id: nat) returns (l: ChunkList)
      requires Valid()
      modifies this
      ensures Valid() && added == old(added)
      ensures id in index && lists[index[id]] == l && l.id == id
      ensures old(lists) <= lists && |lists| == |old(lists)| + if id in old(index) then 0 else 1
      ensures capacity == if |lists| <= old(capacity) then old(capacity) else 2 * old(capacity)
      ensures forall x :: x in lists ==> x in old(lists) || fresh(x)
    {
      hide Of, MaxSeq;
      for i := 0 to |lists|
        invariant forall k :: 0 <= k < i ==> lists[k].id != id
      {
        if lists[i].id == id {
          assert ListRight(lists[i], i);
          return lists[i];
        }
      }
      if |lists| == capacity {
        capacity := capacity * 2;
      }
      l := new ChunkList(id);
      Append(l);
    }

    /** A new empty list at the end. */
    method Append(l: ChunkList)
      requires Valid() && l !in lists && l.id !in index && |lists| < capacity
      requires l.chunks == [] && l.maxSeq == -1 && l.capacity == 8
      modifies this`lists, this`index
      ensures Valid() && lists == old(lists) + [l] && index == old(index)[l.id := |old(lists)|]
    {
      hide Of, MaxSeq;
      NoneYet(added, l.id);
      index := index[l.id := |lists|];
      lists := lists + [l];
      forall k | 0 <= k < |lists| ensures ListRight(lists[k], k) {
        if k < |lists| - 1 { assert old(ListRight(lists[k], k)); }
      }
    }

    /** toast_cache_add */
    method Add(chunk: Chunk)
      requires Valid()
      modifies this, lists
      ensures Valid() && added == old(added) + [chunk]
      ensures forall x :: x in lists ==> x in old(lists) || fresh(x)
    {
      hide Of, MaxSeq;
      var l := GetList(chunk.id);
      assert ListRight(l, index[chunk.id]);
      assert l in lists && (l in old(lists) || fresh(l));
      l.Push(chunk);
      ghost var before := added;
      added := added + [chunk];
      forall k | 0 <= k < |lists| ensures ListRight(lists[k], k) {
        OfAdd(before, chunk, lists[k].id);
      }
    }

    /** fetch_toast_value: the assembled value, None for the null pointer.  A lookup that misses leaves an
        empty list behind and changes no value. */
    method FetchValue(id: nat) returns (r: Option<seq<byte>>)
      requires Valid() && SeqsNonNegative(Of(added, id))
      modifies this
      ensures Valid() && added == old(added)
      ensures r == Assembled(Of(added, id))
      ensures forall x :: x in lists ==> x in old(lists) || fresh(x)
    {
      var l := GetList(id);
      assert ListRight(l, index[id]);
      if |l.chunks| == 0 {
        return None;
      }
      r := l.Assemble();
    }
  }
}
