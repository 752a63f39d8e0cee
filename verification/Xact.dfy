/** The transaction-status cache (pg_xact.c, pg_xact.h): hash chains of commit-log pages in front of the 2-bit log. */
module Xact {
  import opened Base

  const PAGE_SIZE := 8192
  const BUCKET_COUNT := 128

  type Xid = x: int | 0 <= x < 0x1_0000_0000
  type Page = p: seq<byte> | |p| == PAGE_SIZE witness Filled(0)

  /** The commit log on disk: the page for a segment and a page inside the segment. */
  type Log = (int, int) -> Page

  function Filled(b: byte): (p: seq<byte>)
    ensures |p| == PAGE_SIZE
  {
    seq(PAGE_SIZE, i => b)
  }

  // ---------------------------------------------------------------- addressing

  function PageNo(xid: Xid): nat { xid / 32768 }

  function Segment(xid: Xid): nat { PageNo(xid) / 32 }

  function PageInSegment(xid: Xid): nat { PageNo(xid) % 32 }

  function Slot(xid: Xid): (s: nat)
    ensures s < 4 * PAGE_SIZE
  {
    xid % 32768
  }

  /** `b >> 2 * index` */
  function Shifted(b: nat, index: nat): nat
    decreases index
  {
    if index == 0 then b else Shifted(b / 4, index - 1)
  }

  /** The two bits of `xid` on its page. */
  function StatusOn(page: Page, xid: Xid): int {
    Shifted(page[Slot(xid) / 4] as int, xid % 4) % 4
  }

  /** Segment, page in the segment and slot on the page are the digits of the transaction id. */
  lemma Addressed(xid: Xid)
    ensures PageInSegment(xid) < 32 && Slot(xid) < 32768
    ensures xid == (Segment(xid) * 32 + PageInSegment(xid)) * 32768 + Slot(xid)
  {
  }

  /** So no two transactions share a place in the log. */
  lemma OwnPlace(x: Xid, y: Xid)
    ensures Segment(x) == Segment(y) && PageInSegment(x) == PageInSegment(y) && Slot(x) == Slot(y) ==> x == y
  {
    hide Segment, PageInSegment, Slot;
    Addressed(x);
    Addressed(y);
  }

  /** A byte of a page holds the statuses of four transactions in a row, the first in its lowest bits. */
  lemma ByteOfFour(page: Page, first: Xid)
    requires first % 4 == 0 && first + 3 < 0x1_0000_0000
    ensures first % 32768 / 4 < |page| == 8192
    ensures page[first % 32768 / 4] as int
         == StatusOn(page, first) + 4 * StatusOn(page, first + 1) + 16 * StatusOn(page, first + 2)
            + 64 * StatusOn(page, first + 3)
  {
    hide Shifted;
    var b := page[first % 32768 / 4] as int;
    SameByte(first, 1);
    SameByte(first, 2);
    SameByte(first, 3);
    ShiftedSteps(b);
    FourFields(b);
  }

  lemma SameByte(first: Xid, k: nat)
    requires first % 4 == 0 && 0 <= k < 4 && first + k < 0x1_0000_0000
    ensures (first + k) % 4 == k && Slot(first + k) / 4 == Slot(first) / 4
  {
    var q, r := first / 32768, first % 32768;
    var c := r / 4;
    assert r == 4 * c;
    DivUnique(first + k, 32768, q, r + k);
    DivUnique(r + k, 4, c, k);
    DivUnique(first + k, 4, first / 4, k);
  }

  lemma FourFields(b: nat)
    requires b < 256
    ensures b == b % 4 + 4 * (b / 4 % 4) + 16 * (b / 4 / 4 % 4) + 64 * (b / 4 / 4 / 4 % 4)
  {
  }

  /** Transactions that the log is not asked about. */
  lemma NotInLog(log: Log)
    ensures Direct(log, 0) == 2 && Direct(log, 1) == 1 && Direct(log, 2) == 1
  {
  }

  predicate Normal(xid: Xid) { xid >= 3 }

  /** The reference: the status read straight from the log. */
  function Direct(log: Log, xid: Xid): int {
    if xid == 1 || xid == 2 then 1
    else if xid == 0 then 2
    else StatusOn(log(Segment(xid), PageInSegment(xid)), xid)
  }

  // ---------------------------------------------------------------- the writer's half of the 2-bit format

  /** The byte of four statuses, the lowest first. */
  function Packed(d0: nat, d1: nat, d2: nat, d3: nat): (r: nat)
    requires d0 < 4 && d1 < 4 && d2 < 4 && d3 < 4
    ensures r < 256
  {
    d0 + 4 * d1 + 16 * d2 + 64 * d3
  }

  lemma PackedFields(d0: nat, d1: nat, d2: nat, d3: nat)
    requires d0 < 4 && d1 < 4 && d2 < 4 && d3 < 4
    ensures var r := Packed(d0, d1, d2, d3);
      r % 4 == d0 && r / 4 % 4 == d1 && r / 4 / 4 % 4 == d2 && r / 4 / 4 / 4 % 4 == d3
  {
    var r := Packed(d0, d1, d2, d3);
    assert r / 4 == d1 + 4 * d2 + 16 * d3;
    assert r / 4 / 4 == d2 + 4 * d3;
  }

  /** Byte `b` with its field `index` set to `s`. */
  function SetBits(b: nat, index: nat, s: nat): (r: nat)
    requires b < 256 && index < 4 && s < 4
    ensures r < 256
  {
    Packed(if index == 0 then s else b % 4, if index == 1 then s else b / 4 % 4,
           if index == 2 then s else b / 4 / 4 % 4, if index == 3 then s else b / 4 / 4 / 4 % 4)
  }

  lemma FieldsSet(b: nat, index: nat, s: nat, k: nat)
    requires b < 256 && index < 4 && s < 4 && k < 4
    ensures Shifted(SetBits(b, index, s), k) % 4 == if k == index then s else Shifted(b, k) % 4
  {
    hide Packed, Shifted;
    PackedFields(if index == 0 then s else b % 4, if index == 1 then s else b / 4 % 4,
                 if index == 2 then s else b / 4 / 4 % 4, if index == 3 then s else b / 4 / 4 / 4 % 4);
    ShiftedSteps(b);
    ShiftedSteps(SetBits(b, index, s));
  }

  lemma ShiftedSteps(b: nat)
    ensures Shifted(b, 0) == b && Shifted(b, 1) == b / 4 && Shifted(b, 2) == b / 4 / 4 && Shifted(b, 3) == b / 4 / 4 / 4
  {
    assert Shifted(b, 2) == Shifted(b / 4, 1);
    assert Shifted(b, 3) == Shifted(b / 4, 2) == Shifted(b / 4 / 4, 1);
  }

  /** `page` with the status of `xid` set to `s`. */
  function Marked(page: Page, xid: Xid, s: nat): Page
    requires s < 4
  {
    page[Slot(xid) / 4 := SetBits(page[Slot(xid) / 4] as int, xid % 4, s) as byte]
  }

  lemma SlotParts(xid: Xid)
    ensures Slot(xid) == Slot(xid) / 4 * 4 + xid % 4
  {
    assert xid == xid / 32768 * 32768 + Slot(xid);
    assert xid % 4 == Slot(xid) % 4;
  }

  /** Setting one transaction's status is read back, and no other transaction of the page notices. */
  lemma MarkedIsRead(page: Page, xid: Xid, s: nat, other: Xid)
    requires s < 4
    ensures StatusOn(Marked(page, xid, s), other) == if Slot(other) == Slot(xid) then s else StatusOn(page, other)
  {
    hide SetBits, Shifted, Slot;
    SlotParts(xid);
    SlotParts(other);
    if Slot(other) / 4 == Slot(xid) / 4 {
      FieldsSet(page[Slot(xid) / 4] as int, xid % 4, s, other % 4);
    }
  }

  // ---------------------------------------------------------------- the cache as a map

  /** What the second part of the cache key is: the page in the segment, or (as pg_xact_lookup passes it) the slot. */
  datatype KeyKind = ByPage | BySlot

  type Key = (int, int)

  function KeyOf(kind: KeyKind, xid: Xid): Key {
    (Segment(xid), if kind.ByPage? then PageInSegment(xid) else Slot(xid))
  }

  function PageOf(log: Log, xid: Xid): Page {
    log(Segment(xid), PageInSegment(xid))
  }

  datatype Cache = Cache(pages: map<Key, Page>, count: int)

  const EMPTY := Cache(map[], 0)

  /** The answer of one lookup. */
  function Answer(log: Log, kind: KeyKind, cache: Cache, xid: Xid): int {
    if Normal(xid) && KeyOf(kind, xid) in cache.pages
    then StatusOn(cache.pages[KeyOf(kind, xid)], xid)
    else Direct(log, xid)
  }

  /** The cache after one lookup: a miss is added while there is room. */
  function Next(log: Log, kind: KeyKind, max: int, cache: Cache, xid: Xid): Cache {
    if !Normal(xid) || KeyOf(kind, xid) in cache.pages || cache.count >= max then cache
    else Cache(cache.pages[KeyOf(kind, xid) := PageOf(log, xid)], cache.count + 1)
  }

  function Answers(log: Log, kind: KeyKind, max: int, cache: Cache, xids: seq<Xid>): seq<int>
    decreases |xids|
  {
    if xids == [] then []
    else [Answer(log, kind, cache, xids[0])] + Answers(log, kind, max, Next(log, kind, max, cache, xids[0]), xids[1..])
  }

  function Directs(log: Log, xids: seq<Xid>): seq<int> {
    if xids == [] then [] else [Direct(log, xids[0])] + Directs(log, xids[1..])
  }

  // ---------------------------------------------------------------- keyed by page: always right

  ghost predicate Holds(log: Log, cache: Cache) {
    forall k <- cache.pages :: cache.pages[k] == log(k.0, k.1)
  }

  /** Keyed by the page in the segment, every run of lookups answers what the log says, full cache or not. */
  lemma {:induction false} PageKeyExact(log: Log, max: int, cache: Cache, xids: seq<Xid>)
    requires Holds(log, cache)
    ensures Answers(log, ByPage, max, cache, xids) == Directs(log, xids)
    decreases |xids|
  {
    if xids == [] {
    } else {
      PageKeyExact(log, max, Next(log, ByPage, max, cache, xids[0]), xids[1..]);
    }
  }

  // ---------------------------------------------------------------- keyed by slot: right without aliases

  /** Which page each cached key came from; it does not depend on what the log holds. */
  datatype Origins = Origins(pages: map<Key, nat>, count: int)

  function NextOrigins(max: int, o: Origins, xid: Xid): Origins {
    if !Normal(xid) || KeyOf(BySlot, xid) in o.pages || o.count >= max then o
    else Origins(o.pages[KeyOf(BySlot, xid) := PageInSegment(xid)], o.count + 1)
  }

  /** The lookup of `xid` finds a copy of a different page. */
  predicate Alias(o: Origins, xid: Xid) {
    Normal(xid) && KeyOf(BySlot, xid) in o.pages && o.pages[KeyOf(BySlot, xid)] != PageInSegment(xid)
  }

  predicate NoAlias(max: int, o: Origins, xids: seq<Xid>)
    decreases |xids|
  {
    xids == [] || (!Alias(o, xids[0]) && NoAlias(max, NextOrigins(max, o, xids[0]), xids[1..]))
  }

  /** `cache` holds, under each key, the page of `log` that `o` names. */
  ghost predicate Comes(log: Log, cache: Cache, o: Origins) {
    && cache.count == o.count
    && cache.pages.Keys == o.pages.Keys
    && forall k <- cache.pages :: cache.pages[k] == log(k.0, o.pages[k])
  }

  lemma ComesStep(log: Log, max: int, cache: Cache, o: Origins, xid: Xid)
    requires Comes(log, cache, o)
    ensures Comes(log, Next(log, BySlot, max, cache, xid), NextOrigins(max, o, xid))
    ensures !Alias(o, xid) ==> Answer(log, BySlot, cache, xid) == Direct(log, xid)
  {
  }

  lemma {:induction false} SlotKeyRight(log: Log, max: int, cache: Cache, o: Origins, xids: seq<Xid>)
    requires Comes(log, cache, o)
    requires NoAlias(max, o, xids)
    ensures Answers(log, BySlot, max, cache, xids) == Directs(log, xids)
    decreases |xids|
  {
    if xids == [] {
    } else {
      ComesStep(log, max, cache, o, xids[0]);
      SlotKeyRight(log, max, Next(log, BySlot, max, cache, xids[0]), NextOrigins(max, o, xids[0]), xids[1..]);
    }
  }

  /** A log whose page `page` of `segment` is all zero bits and whose other pages are all one bits. */
  function OneZeroPage(segment: int, page: int): Log {
    (s: int, p: int) =>
      var content: Page := if s == segment && p == page then Filled(0) else Filled(255);
      content
  }

  /** The first alias: the log that tells the two pages apart gets a wrong answer. */
  ghost function WrongLog(max: int, o: Origins, xids: seq<Xid>): Log
    requires !NoAlias(max, o, xids)
    decreases |xids|
  {
    if Alias(o, xids[0]) then OneZeroPage(Segment(xids[0]), o.pages[KeyOf(BySlot, xids[0])])
    else WrongLog(max, NextOrigins(max, o, xids[0]), xids[1..])
  }

  lemma FilledStatus(xid: Xid)
    ensures StatusOn(Filled(0), xid) == 0 && StatusOn(Filled(255), xid) == 3
  {
    hide Shifted;
    ShiftedSteps(0);
    ShiftedSteps(255);
  }

  lemma {:induction false} SlotKeyWrong(max: int, cache: Cache, o: Origins, xids: seq<Xid>)
    requires !NoAlias(max, o, xids)
    requires Comes(WrongLog(max, o, xids), cache, o)
    ensures var log := WrongLog(max, o, xids); Answers(log, BySlot, max, cache, xids) != Directs(log, xids)
    decreases |xids|
  {
    var log := WrongLog(max, o, xids);
    if Alias(o, xids[0]) {
      FilledStatus(xids[0]);
      assert Answers(log, BySlot, max, cache, xids)[0] == 0;
      assert Directs(log, xids)[0] == 3;
    } else {
      ComesStep(log, max, cache, o, xids[0]);
      SlotKeyWrong(max, Next(log, BySlot, max, cache, xids[0]), NextOrigins(max, o, xids[0]), xids[1..]);
      assert Answers(log, BySlot, max, cache, xids)[1..]
          == Answers(log, BySlot, max, Next(log, BySlot, max, cache, xids[0]), xids[1..]);
      assert Directs(log, xids)[1..] == Directs(log, xids[1..]);
    }
  }

  const NOTHING := Origins(map[], 0)

  /** Keyed by slot, a run of lookups is answered rightly for every log exactly when no lookup meets an alias. */
  lemma SlotKeyExact(max: int, xids: seq<Xid>)
    ensures NoAlias(max, NOTHING, xids)
        <==> forall log: Log :: Answers(log, BySlot, max, EMPTY, xids) == Directs(log, xids)
  {
    if NoAlias(max, NOTHING, xids) {
      forall log: Log ensures Answers(log, BySlot, max, EMPTY, xids) == Directs(log, xids) {
        SlotKeyRight(log, max, EMPTY, NOTHING, xids);
      }
    } else {
      SlotKeyWrong(max, EMPTY, NOTHING, xids);
    }
  }

  /** Two transactions of one segment that share a slot on different pages. */
  predicate Collide(x: Xid, y: Xid) {
    Normal(x) && Normal(y) && KeyOf(BySlot, x) == KeyOf(BySlot, y) && PageInSegment(x) != PageInSegment(y)
  }

  predicate NoneCollide(xids: seq<Xid>) {
    forall i, j :: 0 <= i < j < |xids| ==> !Collide(xids[i], xids[j])
  }

  lemma AliasStep(max: int, o: Origins, x: Xid, y: Xid)
    requires !Alias(o, x)
    ensures Alias(NextOrigins(max, o, x), y) ==> Alias(o, y) || Collide(x, y)
    ensures o.count < max && (Alias(o, y) || Collide(x, y)) ==> Alias(NextOrigins(max, o, x), y)
  {
  }

  predicate NoneAlias(o: Origins, xids: seq<Xid>) {
    forall k :: 0 <= k < |xids| ==> !Alias(o, xids[k])
  }

  lemma {:induction false} CollisionsDecide(max: int, o: Origins, xids: seq<Xid>)
    ensures NoneCollide(xids) && NoneAlias(o, xids) ==> NoAlias(max, o, xids)
    ensures o.count + |xids| <= max && NoAlias(max, o, xids) ==> NoneCollide(xids) && NoneAlias(o, xids)
    decreases |xids|
  {
    if xids == [] {
    } else if !Alias(o, xids[0]) {
      var rest, next := xids[1..], NextOrigins(max, o, xids[0]);
      CollisionsDecide(max, next, rest);
      forall k | 0 <= k < |rest|
        ensures Alias(next, rest[k]) ==> Alias(o, rest[k]) || Collide(xids[0], rest[k])
        ensures o.count < max && (Alias(o, rest[k]) || Collide(xids[0], rest[k])) ==> Alias(next, rest[k])
      {
        AliasStep(max, o, xids[0], rest[k]);
      }
      CollisionsOfFirst(xids);
      if NoneCollide(xids) && NoneAlias(o, xids) {
        assert forall k :: 0 <= k < |rest| ==> rest[k] == xids[k + 1];
      }
    }
  }

  lemma CollisionsOfFirst(xids: seq<Xid>)
    requires xids != []
    ensures NoneCollide(xids)
        <==> NoneCollide(xids[1..]) && forall k :: 0 <= k < |xids[1..]| ==> !Collide(xids[0], xids[1..][k])
  {
    var rest := xids[1..];
    assert forall k :: 0 <= k < |rest| ==> rest[k] == xids[k + 1];
    assert forall k :: 0 < k < |xids| ==> xids[k] == rest[k - 1];
  }

  /** With room for every lookup, the answers are right for every log exactly when no two lookups collide. */
  lemma SlotKeyPairs(max: int, xids: seq<Xid>)
    requires |xids| <= max
    ensures NoneCollide(xids)
        <==> forall log: Log :: Answers(log, BySlot, max, EMPTY, xids) == Directs(log, xids)
  {
    CollisionsDecide(max, NOTHING, xids);
    SlotKeyExact(max, xids);
    if NoAlias(max, NOTHING, xids) {
      assert NoneCollide(xids);
    }
  }

  /** However small the cache, lookups that never collide are answered rightly. */
  lemma SlotKeySafe(max: int, log: Log, xids: seq<Xid>)
    requires NoneCollide(xids)
    ensures Answers(log, BySlot, max, EMPTY, xids) == Directs(log, xids)
  {
    CollisionsDecide(max, NOTHING, xids);
    assert NoneAlias(NOTHING, xids);
    SlotKeyRight(log, max, EMPTY, NOTHING, xids);
  }

  /** Transactions 3 and 32771: the second is told the status of the first. */
  lemma SlotKeyExample(log: Log)
    requires StatusOn(log(0, 0), 3) == 1 && StatusOn(log(0, 1), 32771) == 2
    ensures Answers(log, BySlot, 1, EMPTY, [3, 32771]) == [1, 1]
    ensures Directs(log, [3, 32771]) == [1, 2]
    ensures Answers(log, ByPage, 1, EMPTY, [3, 32771]) == [1, 2]
  {
    var one, two: Xid := 3, 32771;
    assert Slot(two) == 3 && two % 4 == 3;
    Unfold(log, BySlot, one, two);
    Unfold(log, ByPage, one, two);
  }

  lemma Unfold(log: Log, kind: KeyKind, one: Xid, two: Xid)
    ensures Answers(log, kind, 1, EMPTY, [one, two])
         == [Answer(log, kind, EMPTY, one), Answer(log, kind, Next(log, kind, 1, EMPTY, one), two)]
    ensures Directs(log, [one, two]) == [Direct(log, one), Direct(log, two)]
  {
    hide Answer, Next, Direct;
    var rest: seq<Xid> := [two];
    assert [one, two][1..] == rest;
    assert rest[1..] == [];
    assert Directs(log, rest) == [Direct(log, two)];
    var cache := Next(log, kind, 1, EMPTY, one);
    assert Answers(log, kind, 1, cache, rest) == [Answer(log, kind, cache, two)];
  }

  // ---------------------------------------------------------------- the hash table

  /** A cached page in its bucket's chain; `below` is the chain after it. */
  class XactCache {
    const segno: int
    const pageindex: int
    const page: Page
    const next: XactCache?
    ghost const below: seq<XactCache>
    var hitCount: nat

    constructor (segno: int, pageindex: int, page: Page, next: XactCache?)
      requires next != null ==> next.Linked()
      ensures this.segno == segno && this.pageindex == pageindex && this.page == page && this.next == next
      ensures Linked() && hitCount == 1
    {
      this.segno, this.pageindex, this.page, this.next := segno, pageindex, page, next;
      below := if next == null then [] else [next] + next.below;
      hitCount := 1;
    }

    ghost predicate Linked()
      decreases |below|
    {
      if next == null then below == [] else |next.below| < |below| && below == [next] + next.below && next.Linked()
    }
  }

  ghost function Find(e: XactCache?, segno: int, pageindex: int): (found: XactCache?)
    requires e != null ==> e.Linked()
    decreases if e == null then 0 else 1 + |e.below|
  {
    if e == null then null
    else if e.segno == segno && e.pageindex == pageindex then e
    else Find(e.next, segno, pageindex)
  }

  function XactHash(segno: int, pageindex: int): (h: nat)
    ensures h < 0x1_0000_0000
  {
    (segno * 131 + pageindex) % 0x1_0000_0000
  }

  function Bucket(segno: int, pageindex: int): (b: nat)
    ensures b < BUCKET_COUNT
  {
    XactHash(segno, pageindex) % BUCKET_COUNT
  }

  /** The hash in plain numbers, its wrap-around and the number of buckets included. */
  lemma HashKnown()
    ensures XactHash(2, 5) == 267 && XactHash(131071, 4194304) == 21364605 && Bucket(2, 5) == 11
  {
  }

  class XactCtl {
    const maxPages: int
    var currentPages: int
    const buckets: array<XactCache?>
    ghost var entries: set<XactCache>
    ghost var pages: map<Key, Page>

    ghost predicate Chained()
      reads this, buckets
    {
      && buckets.Length == BUCKET_COUNT
      && (forall b :: 0 <= b < BUCKET_COUNT ==> InEntries(buckets[b]))
      && (forall e <- entries :: InEntries(e.next))
      && (forall e <- entries :: e.Linked())
    }

    ghost predicate InEntries(e: XactCache?)
      reads this
    {
      e != null ==> e in entries
    }

    /** The chain of the key's bucket finds just what `pages` holds under the key. */
    ghost predicate Finds(segno: int, pageindex: int)
      requires Chained()
      reads this, buckets
    {
      var e := Find(buckets[Bucket(segno, pageindex)], segno, pageindex);
      if e == null then (segno, pageindex) !in pages
      else (segno, pageindex) in pages && pages[(segno, pageindex)] == e.page
    }

    ghost predicate Valid()
      reads this, buckets
    {
      Chained() && forall s, i :: Finds(s, i)
    }

    ghost function State(): Cache
      reads this
    {
      Cache(pages, currentPages)
    }

    /** xact_cache_create */
    constructor (maxPages: int)
      ensures Valid() && State() == EMPTY && this.maxPages == maxPages
      ensures fresh(buckets) && entries == {}
    {
      this.maxPages, currentPages := maxPages, 0;
      buckets := new XactCache?[BUCKET_COUNT](i => null);
      entries, pages := {}, map[];
    }

    /** xact_cache_lookup: finds what the key maps to; only the hit count of the entry found changes. */
    method Lookup(segno: int, pageindex: int) returns (hit: XactCache?)
      requires Valid()
      modifies entries
      ensures Valid()
      ensures hit == null <==> (segno, pageindex) !in pages
      ensures hit != null ==> hit in entries && hit.page == pages[(segno, pageindex)]
      ensures hit != null ==> hit.hitCount == (old(hit.hitCount) + 1) % 0x1_0000_0000_0000_0000
      ensures forall e <- entries :: e != hit ==> e.hitCount == old(e.hitCount)
    {
      assert Finds(segno, pageindex);
      var bucket := Bucket(segno, pageindex);
      var cur := buckets[bucket];
      while cur != null
        invariant InEntries(cur)
        invariant Find(cur, segno, pageindex) == Find(buckets[bucket], segno, pageindex)
        decreases if cur == null then 0 else 1 + |cur.below|
      {
        if cur.segno == segno && cur.pageindex == pageindex {
          cur.hitCount := (cur.hitCount + 1) % 0x1_0000_0000_0000_0000;
          return cur;
        }
        cur := cur.next;
      }
      return null;
    }

    /** xact_cache_insert: the new page goes in front of its bucket's chain, unless the cache is full. */
    method Insert(segno: int, pageindex: int, page: Page) returns (entry: XactCache?)
      requires Valid()
      modifies this, buckets
      ensures Valid()
      ensures entry == null <==> old(currentPages) >= maxPages
      ensures State() == if entry == null then old(State())
                         else Cache(old(pages)[(segno, pageindex) := page], old(currentPages) + 1)
      ensures entry == null ==> entries == old(entries)
      ensures entry != null ==> fresh(entry) && entries == old(entries) + {entry}
      ensures entry != null ==> entry.page == page && entry.hitCount == 1
    {
      if currentPages >= maxPages {
        return null;
      }
      var bucket := Bucket(segno, pageindex);
      entry := new XactCache(segno, pageindex, page, buckets[bucket]);
      buckets[bucket] := entry;
      currentPages := currentPages + 1;
      entries := entries + {entry};
      pages := pages[(segno, pageindex) := page];
      forall s, i ensures Finds(s, i) {
        assert old(Finds(s, i));
      }
    }
  }

  /** pg_xact_lookup, for the commit log `log` and the given cache key. */
  method PgXactLookup(ctl: XactCtl, kind: KeyKind, log: Log, xid: Xid) returns (status: int)
    requires ctl.Valid()
    modifies ctl, ctl.buckets, ctl.entries
    ensures ctl.Valid()
    ensures status == Answer(log, kind, old(ctl.State()), xid)
    ensures ctl.State() == Next(log, kind, ctl.maxPages, old(ctl.State()), xid)
    ensures kind.ByPage? && Holds(log, old(ctl.State())) ==> status == Direct(log, xid) && Holds(log, ctl.State())
    ensures fresh(ctl.entries - old(ctl.entries))
  {
    if xid < 3 {
      if xid == 1 { return 1; }
      if xid == 2 { return 1; }
      return 2;
    }
    var pageno := xid / 32768;
    var segno := pageno / 32;
    var pageInSeg := pageno % 32;
    var slotno := xid % 32768;
    var byteno := xid % 32768 / 4;
    var key := if kind.ByPage? then pageInSeg else slotno;
    var entry := ctl.Lookup(segno, key);
    if entry != null {
      return Shifted(entry.page[byteno] as int, xid % 4) % 4;
    }
    var addr := log(segno, pageInSeg);
    var inserted := ctl.Insert(segno, key, addr);
    return Shifted(addr[byteno] as int, xid % 4) % 4;
  }
}
