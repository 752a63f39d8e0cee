/** The growable string buffer (pg_string_info.c and the append functions of pg_string.c). */
module StringInfos {
  import opened Base

  /** MaxAllocSize: no buffer grows past this many bytes. */
  const LIMIT: int := 0x3fff_ffff
  const INT_MAX: int := 0x7fff_ffff

  /** `cap` doubled until it reaches `needed`, and no further. */
  function Doubled(cap: nat, needed: nat): (r: nat)
    requires cap > 0
    ensures needed <= r && (r == cap || r < 2 * needed)
    decreases needed - cap
  {
    if cap >= needed then cap else Doubled(2 * cap, needed)
  }

  /** pvsnprintf's estimate for a text that does not fit, as the int that its caller makes of it. */
  function Room(n: nat): (r: int)
    requires n <= INT_MAX
    ensures -0x8000_0000 <= r < 0x8000_0000 && (r - (n + 1)) % 0x1_0000_0000 == 0
  {
    if n == INT_MAX then -INT_MAX - 1 else n + 1
  }

  class StringInfo {
    var data: array<byte>
    var len: int
    var maxlen: int
    var cursor: int

    /** A zero follows the text, and doubling `maxlen` once stays inside an int. */
    ghost predicate Valid()
      reads this, data
    {
      && data.Length == maxlen <= LIMIT
      && 0 <= len < maxlen
      && data[len] == 0
    }

    ghost function Contents(): seq<byte>
      reads this, data
      requires Valid()
    {
      data[..len]
    }

    constructor ()
      ensures Valid() && fresh(data) && Contents() == [] && maxlen == 1024 && cursor == 0
    {
      data := new byte[1024];
      maxlen := 1024;
      len, cursor := 0, 0;
      new;
      data[0] := 0;
    }

    method Reset()
      requires Valid()
      modifies this, data
      ensures Valid() && Contents() == [] && cursor == 0 && data == old(data) && maxlen == old(maxlen)
    {
      data[0] := 0;
      len, cursor := 0, 0;
    }

    /** Room for `needed` more bytes and the trailing zero; the text stays as it is. */
    method Enlarge(needed: int) returns (r: Outcome)
      requires Valid()
      modifies this
      ensures r == if 0 <= needed && len + needed < 0x3fff_ffff then Pass else Exit
      ensures Valid() && Contents() == old(Contents())
      ensures maxlen == if r.Exit? || len + needed < old(maxlen) then old(maxlen)
                        else Min(0x3fff_ffff, Doubled(2 * old(maxlen), len + needed + 1))
      ensures len == old(len) && cursor == old(cursor) && maxlen >= old(maxlen)
      ensures data == old(data) || fresh(data)
      ensures r.Pass? ==> len + needed < maxlen
      ensures r.Exit? ==> data == old(data)
    {
      if needed < 0 || needed >= LIMIT - len {
        return Exit;
      }
      var total := needed + len + 1;
      if total <= maxlen {
        return Pass;
      }
      var newlen := 2 * maxlen;
      while total > newlen
        invariant maxlen < newlen <= INT_MAX
        invariant Doubled(newlen, total) == Doubled(2 * maxlen, total)
        invariant newlen <= 2 * LIMIT
        decreases total - newlen
      {
        newlen := 2 * newlen;
      }
      if newlen > LIMIT {
        newlen := LIMIT;
      }
      Reallocate(newlen);
      return Pass;
    }

    /** realloc to a larger size. */
    method Reallocate(newlen: int)
      requires Valid() && maxlen <= newlen <= LIMIT
      modifies this
      ensures Valid() && Contents() == old(Contents()) && fresh(data)
      ensures maxlen == newlen && len == old(len) && cursor == old(cursor)
    {
      var bigger := new byte[newlen];
      forall i | 0 <= i < maxlen {
        bigger[i] := data[i];
      }
      assert bigger[..len] == data[..len];
      data, maxlen := bigger, newlen;
    }

    /** appendBinaryStringInfo */
    method AppendBinary(s: seq<byte>) returns (r: Outcome)
      requires Valid()
      modifies this, data
      ensures Valid() && (data == old(data) || fresh(data))
      ensures r == if old(len) + |s| < LIMIT then Pass else Exit
      ensures Contents() == old(Contents()) + if r.Pass? then s else []
    {
      r := Pass;
      :- Enlarge(|s|);
      Store(s);
    }

    /** memcpy behind the text, move `len`, put the zero back. */
    method Store(s: seq<byte>)
      requires Valid() && len + |s| < maxlen
      modifies this`len, data
      ensures Valid() && Contents() == old(Contents()) + s
    {
      forall i | 0 <= i < |s| {
        data[len + i] := s[i];
      }
      ghost var head := data[..len];
      len := len + |s|;
      data[len] := 0;
      assert data[..len] == head + s;
    }

    /** appendStringInfoCharMacro with appendStringInfoChar */
    method AppendChar(ch: byte) returns (r: Outcome)
      requires Valid()
      modifies this, data
      ensures Valid() && (data == old(data) || fresh(data))
      ensures r == if old(len) + 1 < LIMIT then Pass else Exit
      ensures Contents() == old(Contents()) + if r.Pass? then [ch] else []
    {
      if len + 1 >= maxlen {
        :- Enlarge(1);
      }
      Store([ch]);
      return Pass;
    }

    /** appendStringInfoVA.  `text` is what vsnprintf makes of the format and its arguments; with too
        little room it writes a cut copy, and the zero is restored.  Zero means success; the room to make is
        cast to an int, so a text of INT_MAX bytes asks for a negative one. */
    method AppendVA(text: seq<byte>) returns (needed: int)
      requires Valid() && |text| <= INT_MAX
      modifies this`len, data
      ensures Valid()
      ensures needed == if old(maxlen - len) < 16 then 32 else if |text| < old(maxlen - len) then 0 else Room(|text|)
      ensures Contents() == old(Contents()) + if needed == 0 then text else []
    {
      var avail := maxlen - len;
      if avail < 16 {
        return 32;
      }
      if |text| < avail {
        Store(text);
        return 0;
      }
      ghost var head := data[..len];
      forall i | 0 <= i < avail {
        data[len + i] := if i < avail - 1 then text[i] else 0;
      }
      data[len] := 0;
      assert data[..len] == head;
      return Room(|text|);
    }

    /** appendStringInfo: format, enlarge, try again; never more than three tries. */
    method AppendFormatted(text: seq<byte>) returns (r: Outcome, ghost tries: nat)
      requires Valid() && |text| <= INT_MAX
      modifies this, data
      ensures Valid() && (data == old(data) || fresh(data))
      ensures Contents() == old(Contents()) + if r.Pass? then text else []
      ensures r.Pass? ==> old(len) + |text| < LIMIT
      ensures r.Exit? ==> old(len) + |text| + 32 >= LIMIT
      ensures 1 <= tries <= 3
    {
      tries := 0;
      while true
        invariant Valid() && (data == old(data) || fresh(data))
        invariant Contents() == old(Contents()) && len == old(len)
        invariant tries <= 2
        invariant tries == 1 ==> maxlen - len > 32 || maxlen - len > |text| + 1
        invariant tries == 2 ==> maxlen - len > |text| + 1 && maxlen - len >= 16
        decreases 3 - tries
      {
        tries := tries + 1;
        var needed := AppendVA(text);
        if needed == 0 {
          return Pass, tries;
        }
        :- Enlarge(needed);
      }
    }
  }
}
