/** The schema builder (pg_page.c): columns gathered in catalogue order, then compacted and sorted in place. */
module SchemaBuilders {
  import opened Base

  datatype ColumnInfo = ColumnInfo(attname: Option<seq<byte>>, atttypid: int, attlen: int, attbyval: bool,
                                   attalign: byte, attnum: int)

  /** `natts` columns in use, and the array of all the builder's entries they start. */
  datatype Schema = Schema(natts: nat, cols: seq<ColumnInfo>)

  /** strdup keeps the name up to its first zero byte. */
  function Kept(col: ColumnInfo): (r: ColumnInfo)
    ensures r.(attname := None) == col.(attname := None) && (r.attname.Some? <==> col.attname.Some?)
    ensures col.attname.Some? ==> r.attname.value == UntilZero(col.attname.value)
  {
    match col.attname
    case Some(name) => col.(attname := Some(UntilZero(name)))
    case None => col
  }

  function Positive(s: seq<ColumnInfo>): seq<ColumnInfo> {
    if s == [] then []
    else Positive(s[..|s| - 1]) + if s[|s| - 1].attnum > 0 then [s[|s| - 1]] else []
  }

  predicate Sorted(s: seq<ColumnInfo>) {
    forall i, j :: 0 <= i < j < |s| ==> s[i].attnum <= s[j].attnum
  }

  /** `s` is what any correct qsort may make of `t`. */
  predicate SortOf(s: seq<ColumnInfo>, t: seq<ColumnInfo>) {
    Sorted(s) && multiset(s) == multiset(t)
  }

  predicate AttnumsDistinct(m: multiset<ColumnInfo>) {
    forall c, d {:trigger m[c], m[d]} :: c in m && d in m && c.attnum == d.attnum ==> c == d && m[c] == 1
  }

  // ---------------------------------------------------------------- the order of the catalogue scan

  lemma {:induction false} PositiveCount(s: seq<ColumnInfo>, c: ColumnInfo)
    ensures multiset(Positive(s))[c] == if c.attnum > 0 then multiset(s)[c] else 0
  {
    if s == [] {
    } else {
      var init, last := s[..|s| - 1], s[|s| - 1];
      assert s == init + [last];
      PositiveCount(init, c);
    }
  }

  /** The last column of a sorted sequence is the greatest of its columns. */
  lemma LastGreatest(s: seq<ColumnInfo>, c: ColumnInfo)
    requires Sorted(s) && c in multiset(s)
    ensures c.attnum <= s[|s| - 1].attnum
  {
    var i :| 0 <= i < |s| && s[i] == c;
  }

  lemma WithoutLast(s: seq<ColumnInfo>)
    requires s != []
    ensures multiset(s) == multiset(s[..|s| - 1]) + multiset{s[|s| - 1]}
  {
    assert s == s[..|s| - 1] + [s[|s| - 1]];
  }

  lemma DistinctLess(m: multiset<ColumnInfo>, c: ColumnInfo)
    requires AttnumsDistinct(m + multiset{c})
    ensures AttnumsDistinct(m)
  {
    forall x <- m, y <- m | x.attnum == y.attnum ensures x == y && m[x] == 1 {
      assert x in m + multiset{c} && y in m + multiset{c};
    }
  }

  lemma Cancel(a: multiset<ColumnInfo>, b: multiset<ColumnInfo>, c: ColumnInfo)
    requires a + multiset{c} == b + multiset{c}
    ensures a == b
  {
    assert a == a + multiset{c} - multiset{c};
    assert b == b + multiset{c} - multiset{c};
  }

  lemma SortedInit(s: seq<ColumnInfo>)
    requires s != [] && Sorted(s)
    ensures Sorted(s[..|s| - 1])
  {
  }

  lemma BothEmpty(s: seq<ColumnInfo>, t: seq<ColumnInfo>)
    requires multiset(s) == multiset(t)
    ensures s == [] <==> t == []
  {
    assert s != [] ==> s[0] in multiset(s);
    assert t != [] ==> t[0] in multiset(t);
  }

  lemma {:induction false} SortedUnique(s: seq<ColumnInfo>, t: seq<ColumnInfo>)
    requires Sorted(s) && Sorted(t) && multiset(s) == multiset(t) && AttnumsDistinct(multiset(s))
    ensures s == t
  {
    hide AttnumsDistinct, Sorted;
    BothEmpty(s, t);
    if s == [] {
    } else {
      var x, s', t' := s[|s| - 1], s[..|s| - 1], t[..|t| - 1];
      SameLast(multiset(s), s, t);
      WithoutLast(s);
      WithoutLast(t);
      Cancel(multiset(s'), multiset(t'), x);
      DistinctLess(multiset(s'), x);
      SortedInit(s);
      SortedInit(t);
      SortedUnique(s', t');
      assert s == s' + [x] && t == t' + [x];
    }
  }

  lemma SameLast(m: multiset<ColumnInfo>, s: seq<ColumnInfo>, t: seq<ColumnInfo>)
    requires Sorted(s) && Sorted(t) && multiset(s) == m == multiset(t) && AttnumsDistinct(m)
    requires s != [] && t != []
    ensures s[|s| - 1] == t[|t| - 1]
  {
    var x, y := s[|s| - 1], t[|t| - 1];
    assert x in m && y in m;
    LastGreatest(s, y);
    LastGreatest(t, x);
  }

  /** With distinct attnums, any order of the same columns gives the same schema columns. */
  lemma ScanOrderIrrelevant(xs: seq<ColumnInfo>, ys: seq<ColumnInfo>, s: seq<ColumnInfo>, t: seq<ColumnInfo>)
    requires multiset(xs) == multiset(ys) && AttnumsDistinct(multiset(Positive(xs)))
    requires SortOf(s, Positive(xs)) && SortOf(t, Positive(ys))
    ensures s == t
  {
    forall c: ColumnInfo ensures multiset(Positive(xs))[c] == multiset(Positive(ys))[c] {
      PositiveCount(xs, c);
      PositiveCount(ys, c);
    }
    assert multiset(Positive(xs)) == multiset(Positive(ys));
    SortedUnique(s, t);
  }

  lemma NothingSorted()
    ensures Positive([]) == [] && SortOf([], Positive([]))
  {
  }

  // ---------------------------------------------------------------- in place

  /** The compaction loop: the columns with positive attnum move to the front, in order. */
  method Compact(cols: array<ColumnInfo>, ncols: nat) returns (valid: nat)
    requires ncols <= cols.Length
    modifies cols
    ensures valid <= ncols && cols[..valid] == Positive(old(cols[..ncols]))
    ensures cols[valid..] == old(cols[valid..])
  {
    valid := 0;
    ghost var was := cols[..];
    for i := 0 to ncols
      invariant valid <= i
      invariant cols[..valid] == Positive(was[..i])
      invariant forall k :: valid <= k < cols.Length ==> cols[k] == was[k]
    {
      assert was[..i + 1][..i] == was[..i];
      if cols[i].attnum > 0 {
        cols[valid] := cols[i];
        valid := valid + 1;
      }
    }
    assert was[..ncols] == old(cols[..ncols]);
  }

  function Swapped(s: seq<ColumnInfo>, j: nat): (t: seq<ColumnInfo>)
    requires 0 < j < |s|
    ensures |t| == |s|
  {
    s[j - 1 := s[j]][j := s[j - 1]]
  }

  /** `s[..i+1]` is in order but for the column at `j`, which belongs at `j` or before. */
  predicate InOrderBut(s: seq<ColumnInfo>, i: nat, j: nat)
    requires j <= i < |s|
  {
    && (forall p, q :: 0 <= p < q <= i && p != j && q != j ==> s[p].attnum <= s[q].attnum)
    && (forall q :: j < q <= i ==> s[j].attnum <= s[q].attnum)
  }

  lemma SwapStep(s: seq<ColumnInfo>, i: nat, j: nat)
    requires 0 < j <= i < |s| && InOrderBut(s, i, j) && s[j - 1].attnum > s[j].attnum
    ensures InOrderBut(Swapped(s, j), i, j - 1)
  {
  }

  lemma SwapKeeps(s: seq<ColumnInfo>, j: nat)
    requires 0 < j < |s|
    ensures multiset(Swapped(s, j)) == multiset(s)
  {
  }

  /** The inner loop of the insertion sort that stands for qsort. */
  method Sink(a: array<ColumnInfo>, i: nat)
    requires i < a.Length && Sorted(a[..i])
    modifies a
    ensures Sorted(a[..i + 1])
    ensures multiset(a[..]) == multiset(old(a[..]))
    ensures a[i + 1..] == old(a[i + 1..])
  {
    hide InOrderBut, Sorted;
    var j := i;
    StartsInOrder(a[..], i);
    while j > 0 && a[j - 1].attnum > a[j].attnum
      invariant 0 <= j <= i
      invariant InOrderBut(a[..], i, j)
      invariant multiset(a[..]) == multiset(old(a[..]))
      invariant a[i + 1..] == old(a[i + 1..])
    {
      ghost var was := a[..];
      SwapStep(was, i, j);
      SwapKeeps(was, j);
      a[j - 1], a[j] := a[j], a[j - 1];
      assert a[..] == Swapped(was, j);
      j := j - 1;
    }
    EndsInOrder(a[..], i, j);
  }

  lemma StartsInOrder(s: seq<ColumnInfo>, i: nat)
    requires i < |s| && Sorted(s[..i])
    ensures InOrderBut(s, i, i)
  {
    forall p, q | 0 <= p < q <= i && p != i && q != i ensures s[p].attnum <= s[q].attnum {
      assert s[..i][p].attnum <= s[..i][q].attnum;
    }
  }

  lemma EndsInOrder(s: seq<ColumnInfo>, i: nat, j: nat)
    requires j <= i < |s| && InOrderBut(s, i, j) && (j > 0 ==> s[j - 1].attnum <= s[j].attnum)
    ensures Sorted(s[..i + 1])
  {
    forall p, q | 0 <= p < q <= i ensures s[p].attnum <= s[q].attnum {
      if q == j && p < j - 1 {
        assert s[p].attnum <= s[j - 1].attnum;
      }
    }
  }

  method Sort(a: array<ColumnInfo>, n: nat)
    requires n <= a.Length
    modifies a
    ensures SortOf(a[..n], old(a[..n]))
    ensures a[n..] == old(a[n..])
  {
    hide Sorted;
    assert Sorted(a[..0]) by { NoneSorted(); }
    for i := 0 to n
      invariant Sorted(a[..i])
      invariant multiset(a[..]) == multiset(old(a[..]))
      invariant a[n..] == old(a[n..])
    {
      ghost var rest := a[n..];
      ghost var tail := a[i + 1..];
      assert rest == tail[n - (i + 1)..];
      Sink(a, i);
      assert a[n..] == a[i + 1..][n - (i + 1)..];
    }
    PrefixMultiset(a[..], old(a[..]), n);
    assert a[..][..n] == a[..n] && old(a[..])[..n] == old(a[..n]);
  }

  lemma NoneSorted()
    ensures Sorted([])
  {
  }

  lemma PrefixMultiset(s: seq<ColumnInfo>, t: seq<ColumnInfo>, n: nat)
    requires n <= |s| == |t| && s[n..] == t[n..] && multiset(s) == multiset(t)
    ensures multiset(s[..n]) == multiset(t[..n])
  {
    assert s == s[..n] + s[n..] && t == t[..n] + t[n..];
    assert multiset(s[..n]) == multiset(s) - multiset(s[n..]);
    assert multiset(t[..n]) == multiset(t) - multiset(t[n..]);
  }

  // ---------------------------------------------------------------- the builder

  method Realloc(cols: array<ColumnInfo>, n: nat, cap: nat) returns (grown: array<ColumnInfo>)
    requires n <= cols.Length && n <= cap
    ensures fresh(grown) && grown.Length == cap && grown[..n] == cols[..n]
  {
    grown := new ColumnInfo[cap];
    forall k | 0 <= k < n { grown[k] := cols[k]; }
  }

  class SchemaBuilder {
    var cols: array?<ColumnInfo>
    var ncols: nat
    var cap: nat

    ghost predicate Valid()
      reads this
    {
      ncols <= cap && if cols == null then cap == 0 else cols.Length == cap && cap >= 8
    }

    ghost function Contents(): (s: seq<ColumnInfo>)
      requires Valid()
      reads this, cols
    {
      if cols == null then [] else cols[..ncols]
    }

    /** schema_builder_init */
    constructor ()
      ensures Valid() && Contents() == []
    {
      cols, ncols, cap := null, 0, 0;
    }

    /** schema_builder_add: one more column, whatever growth it takes. */
    method Add(col: ColumnInfo)
      requires Valid()
      modifies this, cols
      ensures Valid() && cols != null && (cols == old(cols) || fresh(cols))
      ensures Contents() == old(Contents()) + [Kept(col)]
      ensures cap == if old(cols) == null then 8 else if old(ncols == cap) then 2 * old(cap) else old(cap)
    {
      if cols == null {
        cap, ncols := 8, 0;
        cols := new ColumnInfo[cap];
      }
      if ncols >= cap {
        cap := cap * 2;
        cols := Realloc(cols, ncols, cap);
      }
      ghost var was := cols[..ncols];
      cols[ncols] := col;
      if col.attname.Some? {
        cols[ncols] := col.(attname := Some(UntilZero(col.attname.value)));
      }
      assert cols[..ncols] == was;
      assert cols[..ncols + 1] == was + [Kept(col)];
      ncols := ncols + 1;
    }

    /** schema_builder_finalize: the first `natts` columns of the schema are the added ones with positive
        attnum, sorted. */
    method Finalize() returns (schema: Schema)
      requires Valid()
      modifies cols
      ensures Valid() && |schema.cols| == ncols
      ensures schema.natts == |Positive(old(Contents()))| <= ncols
      ensures SortOf(schema.cols[..schema.natts], Positive(old(Contents())))
      ensures schema.cols[schema.natts..] == old(Contents())[schema.natts..]
    {
      hide SortOf, Positive;
      if cols == null {
        NothingSorted();
        return Schema(0, []);
      }
      ghost var was := cols[..];
      var valid := Compact(cols, ncols);
      ghost var compacted := cols[..];
      Sort(cols, valid);
      schema := Schema(valid, cols[..ncols]);
      Slices(cols[..], compacted, ncols, valid);
      Slices(compacted, was, ncols, valid);
    }
  }

  lemma Slices(s: seq<ColumnInfo>, t: seq<ColumnInfo>, n: nat, v: nat)
    requires v <= n <= |s| == |t| && s[v..] == t[v..]
    ensures s[..n][..v] == s[..v] && s[..n][v..] == t[..n][v..]
  {
    assert s[..n][v..] == s[v..][..n - v];
    assert t[..n][v..] == t[v..][..n - v];
  }
}
