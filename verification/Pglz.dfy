/** The pglz decompressor (pg_lzcompress.c) against a token list expanded one byte at a time. */
module Pglz {
  import opened Base

  /** One item of the compressed stream: a byte to copy, or `len` bytes to repeat from `off` back. */
  datatype Token = Literal(b: byte) | Match(off: nat, len: nat)

  /** How a run over the compressed bytes ends: corrupt, or at source position `sp`; `out` is what it has written. */
  datatype Result = Corrupt(out: seq<byte>) | Decoded(sp: nat, out: seq<byte>)

  // ---------------------------------------------------------------- meaning of a token list

  /** `out` followed by `len` bytes, each equal to the one `off` places before it. */
  function CopyBack(out: seq<byte>, off: nat, len: nat): (r: seq<byte>)
    requires 1 <= off <= |out|
    ensures |r| == |out| + len
    decreases len
  {
    if len == 0 then out else CopyBack(out + [out[|out| - off]], off, len - 1)
  }

  /** What the format can write, with `n` bytes already produced. */
  ghost predicate Encodable(ts: seq<Token>, n: nat)
  {
    ts == [] || (Writable(ts[0], n) && Encodable(ts[1..], n + Width(ts[0])))
  }

  ghost predicate Writable(t: Token, n: nat) {
    t.Match? ==> 1 <= t.off <= Min(n, 4095) && 3 <= t.len <= 273
  }

  ghost function Width(t: Token): nat {
    if t.Match? then t.len else 1
  }

  ghost function Apply(t: Token, out: seq<byte>): (r: seq<byte>)
    requires Writable(t, |out|)
    ensures |r| == |out| + Width(t)
  {
    if t.Match? then CopyBack(out, t.off, t.len) else out + [t.b]
  }

  /** The tokens' bytes, one token after the other, each match one byte at a time. */
  ghost function Expand(ts: seq<Token>, out: seq<byte>): (r: seq<byte>)
    requires Encodable(ts, |out|)
    ensures |r| >= |out| && (ts != [] ==> |r| > |out|)
    decreases |ts|
  {
    if ts == [] then out else Expand(ts[1..], Apply(ts[0], out))
  }

  // ---------------------------------------------------------------- the encoder's side of the format

  ghost function TokenBytes(t: Token): (r: seq<byte>)
    requires Writable(t, 4095)
    ensures 1 <= |r| <= 3
  {
    match t
    case Literal(b) => [b]
    case Match(off, len) =>
      if len < 18 then [(off / 256 * 16 + len - 3) as byte, (off % 256) as byte]
      else [(off / 256 * 16 + 15) as byte, (off % 256) as byte, (len - 18) as byte]
  }

  ghost function Pow2(n: nat): (r: nat) ensures r > 0 {
    if n == 0 then 1 else 2 * Pow2(n - 1)
  }

  /** The control bits of the next `k` tokens, first token in the lowest bit, set for a match. */
  ghost function Control(ts: seq<Token>, k: nat): (r: nat)
    ensures r < Pow2(k)
  {
    if k == 0 then 0
    else if ts == [] then 0
    else (if ts[0].Match? then 1 else 0) + 2 * Control(ts[1..], k - 1)
  }

  ghost function ControlByte(ts: seq<Token>): byte {
    assert Pow2(8) == 256 by { assert Pow2(4) == 16; }
    Control(ts, 8) as byte
  }

  /** The encoder's output with room for `k` more tokens behind the last control byte. */
  ghost function Encode(ts: seq<Token>, k: nat): seq<byte>
    requires forall t :: t in ts ==> Writable(t, 4095)
    decreases |ts|, k == 0
  {
    if ts == [] then []
    else if k == 0 then [ControlByte(ts)] + Encode(ts, 8)
    else TokenBytes(ts[0]) + Encode(ts[1..], k - 1)
  }

  /** The compressed form of a token list. */
  ghost function Compressed(ts: seq<Token>): seq<byte>
    requires Encodable(ts, 0)
  {
    EncodableWritable(ts, 0);
    Encode(ts, 0)
  }

  lemma EncodableWritable(ts: seq<Token>, n: nat)
    requires Encodable(ts, n)
    ensures forall t :: t in ts ==> Writable(t, 4095)
  {
    if ts == [] {
    } else {
      EncodableWritable(ts[1..], n + Width(ts[0]));
      assert ts == [ts[0]] + ts[1..];
    }
  }

  // ---------------------------------------------------------------- the decoder as a function

  /** The match tag at `sp`, with the position after it, if it ends within the source. */
  function TagAt(src: seq<byte>, sp: nat): (r: Option<(nat, nat, nat)>)
    requires sp < |src|
    ensures r.Some? ==> sp + 2 <= r.value.2 <= |src| && r.value.0 <= 4095 && 3 <= r.value.1 <= 273
  {
    var len := src[sp] as int % 16 + 3;
    var next := if len == 18 then sp + 3 else sp + 2;
    if next > |src| then None
    else
      var off := src[sp] as int / 16 * 256 + src[sp + 1] as int;
      Some((off, if len == 18 then 18 + src[sp + 2] as int else len, next))
  }

  /** The decoder from source position `sp`, with `k` bits of the current control byte left in `ctrl`. */
  function Run(src: seq<byte>, rawsize: nat, sp: nat, k: nat, ctrl: nat, out: seq<byte>): (r: Result)
    requires sp <= |src| && |out| <= rawsize
    ensures |r.out| <= rawsize && (r.Decoded? ==> r.sp <= |src|)
    decreases |src| - sp
  {
    if sp == |src| || |out| == rawsize then Decoded(sp, out)
    else if k == 0 then Run(src, rawsize, sp + 1, 8, src[sp] as int, out)
    else if ctrl % 2 == 0 then Run(src, rawsize, sp + 1, k - 1, ctrl / 2, out + [src[sp]])
    else
      match TagAt(src, sp)
      case None => Corrupt(out)
      case Some((off, len, next)) =>
        if off == 0 || off > |out| then Corrupt(out)
        else Run(src, rawsize, next, k - 1, ctrl / 2, CopyBack(out, off, Min(len, rawsize - |out|)))
  }

  /** An accepted run stops at the end of the source or with the output full, a complete one at both. */
  function Decompress(src: seq<byte>, rawsize: nat, checkComplete: bool): (r: Result)
    ensures r.Decoded? ==> r.sp == |src| || |r.out| == rawsize
    ensures r.Decoded? && checkComplete ==> r.sp == |src| && |r.out| == rawsize
  {
    RunStops(src, rawsize, 0, 0, 0, []);
    var r := Run(src, rawsize, 0, 0, 0, []);
    if r.Decoded? && checkComplete && (|r.out| != rawsize || r.sp != |src|) then Corrupt(r.out) else r
  }

  lemma {:induction false} RunStops(src: seq<byte>, rawsize: nat, sp: nat, k: nat, ctrl: nat, out: seq<byte>)
    requires sp <= |src| && |out| <= rawsize
    ensures var r := Run(src, rawsize, sp, k, ctrl, out);
      r.Decoded? ==> r.sp == |src| || |r.out| == rawsize
    decreases |src| - sp, k == 0
  {
    hide Run, TagAt, CopyBack, Min;
    if sp == |src| || |out| == rawsize {
      RunEnds(src, rawsize, sp, k, ctrl, out);
    } else if k == 0 {
      RunStep(src, rawsize, sp, k, ctrl, out);
      RunStops(src, rawsize, sp + 1, 8, src[sp] as int, out);
    } else if ctrl % 2 == 0 {
      RunStep(src, rawsize, sp, k, ctrl, out);
      RunStops(src, rawsize, sp + 1, k - 1, ctrl / 2, out + [src[sp]]);
    } else {
      RunStep(src, rawsize, sp, k, ctrl, out);
      if TagAt(src, sp).Some? {
        var (off, len, next) := TagAt(src, sp).value;
        if 1 <= off <= |out| {
          RunStops(src, rawsize, next, k - 1, ctrl / 2, CopyBack(out, off, Min(len, rawsize - |out|)));
        }
      }
    }
  }

  /** One step of the decoder. */
  lemma RunStep(src: seq<byte>, rawsize: nat, sp: nat, k: nat, ctrl: nat, out: seq<byte>)
    requires sp < |src| && |out| < rawsize
    ensures k == 0 ==> Run(src, rawsize, sp, k, ctrl, out) == Run(src, rawsize, sp + 1, 8, src[sp] as int, out)
    ensures k > 0 && ctrl % 2 == 0 ==>
      Run(src, rawsize, sp, k, ctrl, out) == Run(src, rawsize, sp + 1, k - 1, ctrl / 2, out + [src[sp]])
    ensures k > 0 && ctrl % 2 == 1 ==>
      Run(src, rawsize, sp, k, ctrl, out) ==
        match TagAt(src, sp)
        case None => Corrupt(out)
        case Some((off, len, next)) =>
          if off == 0 || off > |out| then Corrupt(out)
          else Run(src, rawsize, next, k - 1, ctrl / 2, CopyBack(out, off, Min(len, rawsize - |out|)))
  {
    hide TagAt, CopyBack, Min;
  }

  lemma RunEnds(src: seq<byte>, rawsize: nat, sp: nat, k: nat, ctrl: nat, out: seq<byte>)
    requires sp <= |src| && |out| <= rawsize && (sp == |src| || |out| == rawsize)
    ensures Run(src, rawsize, sp, k, ctrl, out) == Decoded(sp, out)
  {
  }

  // ---------------------------------------------------------------- copying blocks is copying bytes

  lemma {:induction false} CopyBackSplit(out: seq<byte>, off: nat, m: nat, n: nat)
    requires 1 <= off <= |out|
    ensures CopyBack(out, off, m + n) == CopyBack(CopyBack(out, off, m), off, n)
    decreases m
  {
    if m == 0 {
    } else {
      CopyBackSplit(out + [out[|out| - off]], off, m - 1, n);
    }
  }

  /** A copy no longer than its offset is one block move. */
  lemma {:induction false} CopyBackBlock(out: seq<byte>, off: nat, n: nat)
    requires 1 <= off <= |out| && n <= off
    ensures CopyBack(out, off, n) == out + out[|out| - off..|out| - off + n]
    decreases n
  {
    if n == 0 {
    } else {
      CopyBackSplit(out, off, n - 1, 1);
      CopyBackBlock(out, off, n - 1);
      var mid := CopyBack(out, off, n - 1);
      assert CopyBack(mid, off, 1) == mid + [mid[|mid| - off]];
      assert mid[|mid| - off] == out[|out| - off + n - 1];
      assert out[|out| - off..|out| - off + n] == out[|out| - off..|out| - off + n - 1] + [out[|out| - off + n - 1]];
    }
  }

  lemma {:induction false} CopyBackExtends(out: seq<byte>, off: nat, n: nat)
    requires 1 <= off <= |out|
    ensures out <= CopyBack(out, off, n)
    decreases n
  {
    if n == 0 {
    } else {
      CopyBackExtends(out + [out[|out| - off]], off, n - 1);
    }
  }

  /** Every byte written is the one `off` places before it. */
  lemma {:induction false} CopyBackRepeats(out: seq<byte>, off: nat, n: nat, i: nat)
    requires 1 <= off <= |out| && i < |out| + n
    ensures CopyBack(out, off, n)[i] == if i < |out| then out[i] else CopyBack(out, off, n)[i - off]
    decreases n
  {
    if n == 0 {
    } else {
      var next := out + [out[|out| - off]];
      CopyBackExtends(next, off, n - 1);
      CopyBackRepeats(next, off, n - 1, i);
    }
  }

  lemma CopyBackLonger(out: seq<byte>, off: nat, m: nat, n: nat)
    requires 1 <= off <= |out| && m <= n
    ensures CopyBack(out, off, m) <= CopyBack(out, off, n)
  {
    CopyBackSplit(out, off, m, n - m);
    CopyBackExtends(CopyBack(out, off, m), off, n - m);
  }

  ghost predicate EndsTwice(out: seq<byte>, off: nat)
    requires 2 * off <= |out|
  {
    forall i :: |out| - off <= i < |out| ==> out[i] == out[i - off]
  }

  /** Once the last `off` bytes repeat, copying from `off` or from `2 * off` back is the same. */
  lemma {:induction false} CopyBackDouble(out: seq<byte>, off: nat, n: nat)
    requires 1 <= off && 2 * off <= |out| && EndsTwice(out, off)
    ensures CopyBack(out, off, n) == CopyBack(out, 2 * off, n)
    decreases n
  {
    if n == 0 {
    } else {
      assert out[|out| - off] == out[|out| - off - off];
      CopyBackDouble(out + [out[|out| - off]], off, n - 1);
    }
  }

  /** Copying one block and doubling the offset leaves the same copy to be done. */
  lemma DoublingStep(out: seq<byte>, out': seq<byte>, off: nat, n: nat)
    requires 1 <= off <= |out| && out' == CopyBack(out, off, off) && EndsTwice(out', off)
    ensures CopyBack(out, off, off + n) == CopyBack(out', 2 * off, n)
  {
    CopyBackSplit(out, off, off, n);
    CopyBackDouble(out', off, n);
  }

  // ---------------------------------------------------------------- decode after encode

  lemma TakeHead(src: seq<byte>, sp: nat, head: seq<byte>, tail: seq<byte>)
    requires sp <= |src| && src[sp..] == head + tail
    ensures sp + |head| <= |src| && src[sp + |head|..] == tail
    ensures forall i :: 0 <= i < |head| ==> src[sp + i] == head[i]
  {
    assert src[sp..sp + |head|] == src[sp..][..|head|];
    assert src[sp + |head|..] == src[sp..][|head|..];
    assert forall i :: 0 <= i < |head| ==> src[sp + i] == src[sp..][i];
  }

  /** One item: the decoder reads exactly the bytes of `t`. */
  lemma RunItem(src: seq<byte>, rawsize: nat, sp: nat, k: nat, ctrl: nat, t: Token, out: seq<byte>, tail: seq<byte>)
    requires Writable(t, |out|) && |out| + Width(t) <= rawsize && 0 < k
    requires sp <= |src| && src[sp..] == TokenBytes(t) + tail
    requires ctrl % 2 == if t.Match? then 1 else 0
    ensures sp + |TokenBytes(t)| <= |src| && src[sp + |TokenBytes(t)|..] == tail
    ensures Run(src, rawsize, sp, k, ctrl, out)
         == Run(src, rawsize, sp + |TokenBytes(t)|, k - 1, ctrl / 2, Apply(t, out))
  {
    hide Run, TagAt, CopyBack, TokenBytes;
    var w := TokenBytes(t);
    TakeHead(src, sp, w, tail);
    RunStep(src, rawsize, sp, k, ctrl, out);
    if t.Match? {
      TagRead(src, sp, t);
    } else {
      LiteralBytes(t);
      assert src[sp + 0] == w[0];
    }
  }

  lemma LiteralBytes(t: Token)
    requires t.Literal?
    ensures TokenBytes(t) == [t.b]
  {
  }

  lemma TagRead(src: seq<byte>, sp: nat, t: Token)
    requires t.Match? && Writable(t, 4095)
    requires var w := TokenBytes(t);
      sp + |w| <= |src| && forall i :: 0 <= i < |w| ==> src[sp + i] == w[i]
    ensures TagAt(src, sp) == Some((t.off, t.len, sp + |TokenBytes(t)|))
  {
    var w := TokenBytes(t);
    assert src[sp + 0] == w[0] && src[sp + 1] == w[1];
    if t.len >= 18 {
      assert src[sp + 2] == w[2];
      TagFields(t.off / 256, 15);
    } else {
      TagFields(t.off / 256, t.len - 3);
    }
  }

  /** High and low half of the first tag byte. */
  lemma TagFields(high: nat, low: nat)
    requires low < 16
    ensures (high * 16 + low) / 16 == high && (high * 16 + low) % 16 == low
  {
  }

  lemma {:induction false} RunTokens(src: seq<byte>, sp: nat, k: nat, ts: seq<Token>, out: seq<byte>)
    requires Encodable(ts, |out|) && forall t :: t in ts ==> Writable(t, 4095)
    requires sp <= |src| && src[sp..] == Encode(ts, k)
    ensures var full := Expand(ts, out);
      Run(src, |full|, sp, k, Control(ts, k), out) == Decoded(|src|, full)
    decreases |ts|, k == 0
  {
    hide Run, TokenBytes, CopyBack, Pow2;
    var full := Expand(ts, out);
    if ts == [] {
      RunEnds(src, |full|, sp, k, Control(ts, k), out);
    } else if k == 0 {
      RunStep(src, |full|, sp, k, 0, out);
      TakeHead(src, sp, [ControlByte(ts)], Encode(ts, 8));
      assert src[sp] == src[sp + 0] == ControlByte(ts);
      RunTokens(src, sp + 1, 8, ts, out);
    } else {
      RunItem(src, |full|, sp, k, Control(ts, k), ts[0], out, Encode(ts[1..], k - 1));
      assert Control(ts, k) / 2 == Control(ts[1..], k - 1);
      RunTokens(src, sp + |TokenBytes(ts[0])|, k - 1, ts[1..], Apply(ts[0], out));
    }
  }

  /** Decoding the encoding of any token list gives its byte-by-byte expansion, all input used. */
  lemma DecodeEncoded(ts: seq<Token>)
    requires Encodable(ts, 0)
    ensures var full := Expand(ts, []);
      Decompress(Compressed(ts), |full|, true) == Decoded(|Compressed(ts)|, full)
  {
    var src := Compressed(ts);
    assert src[0..] == src;
    EncodableWritable(ts, 0);
    RunTokens(src, 0, 0, ts, []);
  }

  // ---------------------------------------------------------------- slices

  lemma {:induction false} RunExtends(src: seq<byte>, rawsize: nat, sp: nat, k: nat, ctrl: nat, out: seq<byte>)
    requires sp <= |src| && |out| <= rawsize
    ensures out <= Run(src, rawsize, sp, k, ctrl, out).out
    decreases |src| - sp
  {
    if sp == |src| || |out| == rawsize {
    } else if k == 0 {
      RunExtends(src, rawsize, sp + 1, 8, src[sp] as int, out);
    } else if ctrl % 2 == 0 {
      RunExtends(src, rawsize, sp + 1, k - 1, ctrl / 2, out + [src[sp]]);
    } else if TagAt(src, sp).Some? {
      var (off, len, next) := TagAt(src, sp).value;
      if 1 <= off <= |out| {
        CopyBackExtends(out, off, Min(len, rawsize - |out|));
        RunExtends(src, rawsize, next, k - 1, ctrl / 2, CopyBack(out, off, Min(len, rawsize - |out|)));
      }
    }
  }

  lemma {:induction false} RunPrefix(src: seq<byte>, small: nat, large: nat, sp: nat, k: nat, ctrl: nat, out: seq<byte>)
    requires sp <= |src| && |out| <= small <= large
    requires Run(src, large, sp, k, ctrl, out).Decoded?
    ensures var r := Run(src, small, sp, k, ctrl, out);
      r.Decoded? && CutTo(Run(src, large, sp, k, ctrl, out).out, small, r.out)
    decreases |src| - sp
  {
    if sp == |src| || |out| == small {
      RunExtends(src, large, sp, k, ctrl, out);
    } else if k == 0 {
      RunPrefix(src, small, large, sp + 1, 8, src[sp] as int, out);
    } else if ctrl % 2 == 0 {
      RunPrefix(src, small, large, sp + 1, k - 1, ctrl / 2, out + [src[sp]]);
    } else {
      var (off, len, next) := TagAt(src, sp).value;
      var a, b := Min(len, small - |out|), Min(len, large - |out|);
      if a == b {
        RunPrefix(src, small, large, next, k - 1, ctrl / 2, CopyBack(out, off, a));
      } else {
        CopyBackLonger(out, off, a, b);
        RunExtends(src, large, next, k - 1, ctrl / 2, CopyBack(out, off, b));
        assert Run(src, small, next, k - 1, ctrl / 2, CopyBack(out, off, a)).out == CopyBack(out, off, a);
      }
    }
  }

  /** A smaller `rawsize` without the completeness test yields exactly the matching prefix. */
  lemma DecompressPrefix(src: seq<byte>, small: nat, large: nat, checkComplete: bool)
    requires small <= large
    requires Decompress(src, large, checkComplete).Decoded?
    ensures var r := Decompress(src, small, false);
      var full := Decompress(src, large, checkComplete).out;
      r.Decoded? && r.out == full[..Min(small, |full|)]
  {
    RunPrefix(src, small, large, 0, 0, 0, []);
  }

  // ---------------------------------------------------------------- what is accepted

  /** Whatever the decoder accepts is the expansion of some token list, cut at `rawsize`. */
  lemma {:induction false} RunReadsTokens(src: seq<byte>, rawsize: nat, sp: nat, k: nat, ctrl: nat, out: seq<byte>)
    returns (ts: seq<Token>)
    requires sp <= |src| && |out| <= rawsize
    requires Run(src, rawsize, sp, k, ctrl, out).Decoded?
    ensures Encodable(ts, |out|)
    ensures CutTo(Expand(ts, out), rawsize, Run(src, rawsize, sp, k, ctrl, out).out)
    decreases |src| - sp
  {
    hide Run, TagAt, CopyBack, Encodable, Expand;
    if sp == |src| || |out| == rawsize {
      ts := [];
      RunEnds(src, rawsize, sp, k, ctrl, out);
      NoTokens(out);
    } else if k == 0 {
      RunStep(src, rawsize, sp, k, ctrl, out);
      ts := RunReadsTokens(src, rawsize, sp + 1, 8, src[sp] as int, out);
    } else if ctrl % 2 == 0 {
      RunStep(src, rawsize, sp, k, ctrl, out);
      var rest := RunReadsTokens(src, rawsize, sp + 1, k - 1, ctrl / 2, out + [src[sp]]);
      ts := [Literal(src[sp])] + rest;
      LiteralFirst(src[sp], rest, out);
    } else {
      RunStep(src, rawsize, sp, k, ctrl, out);
      var (off, len, next) := TagAt(src, sp).value;
      var n := Min(len, rawsize - |out|);
      if n == len {
        var rest := RunReadsTokens(src, rawsize, next, k - 1, ctrl / 2, CopyBack(out, off, len));
        ts := [Match(off, len)] + rest;
        MatchFirst(off, len, rest, out);
      } else {
        ts := [Match(off, len)] + [];
        NoTokens(CopyBack(out, off, len));
        MatchFirst(off, len, [], out);
        CopyBackLonger(out, off, n, len);
        RunEnds(src, rawsize, next, k - 1, ctrl / 2, CopyBack(out, off, n));
      }
    }
  }

  lemma NoTokens(out: seq<byte>)
    ensures Encodable([], |out|) && Expand([], out) == out
  {
  }

  lemma LiteralFirst(c: byte, rest: seq<Token>, out: seq<byte>)
    requires Encodable(rest, |out| + 1)
    ensures Encodable([Literal(c)] + rest, |out|)
    ensures Expand([Literal(c)] + rest, out) == Expand(rest, out + [c])
  {
    assert ([Literal(c)] + rest)[1..] == rest;
  }

  lemma MatchFirst(off: nat, len: nat, rest: seq<Token>, out: seq<byte>)
    requires 1 <= off <= |out| && off <= 4095 && 3 <= len <= 273 && Encodable(rest, |out| + len)
    ensures Encodable([Match(off, len)] + rest, |out|)
    ensures Expand([Match(off, len)] + rest, out) == Expand(rest, CopyBack(out, off, len))
  {
    hide CopyBack;
    assert ([Match(off, len)] + rest)[1..] == rest;
  }

  lemma AcceptedIsTokens(src: seq<byte>, rawsize: nat, checkComplete: bool)
    requires Decompress(src, rawsize, checkComplete).Decoded?
    ensures exists ts ::
      Encodable(ts, 0)
      && Decompress(src, rawsize, checkComplete).out == Expand(ts, [])[..Min(rawsize, |Expand(ts, [])|)]
  {
    var ts := RunReadsTokens(src, rawsize, 0, 0, 0, []);
  }

  /** `r` is the first `n` bytes of `full`, or all of it. */
  ghost predicate CutTo(full: seq<byte>, n: nat, r: seq<byte>) {
    r <= full && |r| == Min(n, |full|)
  }

  // ---------------------------------------------------------------- the C loop

  /** memcpy inside one buffer; the regions must not overlap. */
  method CopyWithin(a: array<byte>, to: nat, from: nat, n: nat)
    requires from + n <= to && to + n <= a.Length
    modifies a
    ensures a[..to] == old(a[..to]) && a[to..to + n] == old(a[from..from + n]) && a[to + n..] == old(a[to + n..])
  {
    ghost var was := a[..];
    for i := 0 to n
      invariant a[..] == was[..to] + was[from..from + i] + was[to + i..]
    {
      CopyOneMore(was, to, from, i);
      ghost var now := a[..];
      a[to + i] := a[from + i];
      assert a[..] == now[to + i := was[from + i]];
    }
  }

  lemma CopyOneMore(was: seq<byte>, to: nat, from: nat, i: nat)
    requires from + i < to && to + i < |was|
    ensures var now := was[..to] + was[from..from + i] + was[to + i..];
      && now[from + i] == was[from + i]
      && now[to + i := was[from + i]] == was[..to] + was[from..from + i + 1] + was[to + (i + 1)..]
  {
  }

  /** `source[i]`, or whatever memory holds after the compressed bytes. */
  function Fetch(source: seq<byte>, past: nat -> byte, i: nat): byte {
    if i < |source| then source[i] else past(i - |source|)
  }

  /** Nothing before `base` nor from `dp` on has changed. */
  ghost predicate Around(now: seq<byte>, was: seq<byte>, base: nat, dp: nat) {
    base <= dp <= |now| == |was| && now[..base] == was[..base] && now[dp..] == was[dp..]
  }

  lemma AroundStart(was: seq<byte>, base: nat)
    requires base <= |was|
    ensures Around(was, was, base, base)
  {
  }

  lemma AroundMore(now: seq<byte>, before: seq<byte>, was: seq<byte>, base: nat, at: nat, dp: nat)
    requires Around(before, was, base, at) && at <= dp <= |now| == |before|
    requires now[..base] == before[..base] && now[dp..] == before[dp..]
    ensures Around(now, was, base, dp)
  {
    assert before[dp..] == before[at..][dp - at..];
    assert was[dp..] == was[at..][dp - at..];
  }

  lemma AroundParts(now: seq<byte>, was: seq<byte>, base: nat, dp: nat)
    requires Around(now, was, base, dp)
    ensures now == was[..base] + now[base..dp] + was[dp..]
  {
    assert now == now[..base] + now[base..dp] + now[dp..];
  }

  /** `pglz_decompress` into `dest[base..base + rawsize]`.  `past` is the memory behind the source: neither the
      result nor what is written depends on it, whether the input is accepted or not. */
  method PglzDecompress(source: seq<byte>, past: nat -> byte, dest: array<byte>, base: nat, rawsize: nat,
                        checkComplete: bool) returns (r: int)
    requires base + rawsize <= dest.Length
    modifies dest
    ensures var d := Decompress(source, rawsize, checkComplete);
      && r == (if d.Decoded? then |d.out| else -1)
      && dest[..] == old(dest[..base]) + d.out + old(dest[base + |d.out|..])
  {
    hide Run, Around;
    var sp, dp, destend := 0, base, base + rawsize;
    ghost var whole := Run(source, rawsize, 0, 0, 0, []);
    ghost var was := dest[..];
    assert dest[base..base] == [];
    AroundStart(was, base);
    while sp < |source| && dp < destend
      invariant sp <= |source| && base <= dp <= destend
      invariant Run(source, rawsize, sp, 0, 0, dest[base..dp]) == whole
      invariant Around(dest[..], was, base, dp)
      decreases |source| - sp
    {
      ghost var start := sp;
      RunStep(source, rawsize, sp, 0, 0, dest[base..dp]);
      var ctrl := Fetch(source, past, sp) as int;
      sp := sp + 1;
      var ctrlc := 0;
      while ctrlc < 8 && sp < |source| && dp < destend
        invariant start < sp <= |source| && base <= dp <= destend && 0 <= ctrlc <= 8 && 0 <= ctrl
        invariant Run(source, rawsize, sp, 8 - ctrlc, ctrl, dest[base..dp]) == whole
        invariant Around(dest[..], was, base, dp)
        decreases 8 - ctrlc
      {
        ghost var before, at := dest[..], dp;
        var ok;
        ok, sp, dp := DecodeItem(source, past, dest, base, rawsize, sp, dp, 8 - ctrlc, ctrl, whole);
        if !ok {
          AroundParts(before, was, base, at);
          return -1;
        }
        AroundMore(dest[..], before, was, base, at, dp);
        ctrl := ctrl / 2;
        ctrlc := ctrlc + 1;
      }
      if sp == |source| || dp == destend {
        RunEnds(source, rawsize, sp, 8 - ctrlc, ctrl, dest[base..dp]);
        RunEnds(source, rawsize, sp, 0, 0, dest[base..dp]);
      } else {
        ControlSpent(source, rawsize, sp, ctrl, dest[base..dp]);
      }
    }
    RunEnds(source, rawsize, sp, 0, 0, dest[base..dp]);
    AroundParts(dest[..], was, base, dp);
    if checkComplete && (dp != destend || sp != |source|) {
      return -1;
    }
    return dp - base;
  }

  /** One item behind a control bit: a match or a literal byte. */
  method DecodeItem(source: seq<byte>, past: nat -> byte, dest: array<byte>, base: nat, rawsize: nat,
                    sp: nat, dp: nat, k: nat, ctrl: nat, ghost whole: Result)
    returns (ok: bool, sp': nat, dp': nat)
    requires base + rawsize <= dest.Length && sp < |source| && base <= dp < base + rawsize && k > 0
    requires Run(source, rawsize, sp, k, ctrl, dest[base..dp]) == whole
    modifies dest
    ensures !ok ==> whole == Corrupt(old(dest[base..dp]))
    ensures ok ==> sp < sp' <= |source| && dp <= dp' <= base + rawsize
    ensures ok ==> Run(source, rawsize, sp', k - 1, ctrl / 2, dest[base..dp']) == whole
    ensures ok ==> dest[..base] == old(dest[..base]) && dest[dp'..] == old(dest[dp'..])
    ensures !ok ==> dest[..] == old(dest[..])
  {
    hide TagAt, CopyBack, Run;
    ok, sp', dp' := true, sp, dp;
    ghost var out := dest[base..dp];
    RunStep(source, rawsize, sp, k, ctrl, out);
    if ctrl % 2 == 1 {
      var off, len;
      off, len, sp' := ReadTag(source, past, sp);
      if sp' > |source| || off == 0 || off > dp - base {
        return false, sp', dp;
      }
      len := Min(len, base + rawsize - dp);
      dp' := CopyMatch(dest, base, dp, off, len);
    } else {
      dest[dp] := Fetch(source, past, sp);
      dp', sp' := dp + 1, sp + 1;
      assert dest[base..dp'] == out + [source[sp]];
      assert dest[dp'..] == old(dest[dp'..]);
    }
  }

  /** With all eight bits used, what is left of the control byte does not matter. */
  lemma ControlSpent(src: seq<byte>, rawsize: nat, sp: nat, ctrl: nat, out: seq<byte>)
    requires sp < |src| && |out| < rawsize
    ensures Run(src, rawsize, sp, 0, ctrl, out) == Run(src, rawsize, sp, 0, 0, out)
  {
    hide Run;
    RunStep(src, rawsize, sp, 0, ctrl, out);
    RunStep(src, rawsize, sp, 0, 0, out);
  }

  /** The two or three bytes of a match tag; `next` lies past the source iff one of them did. */
  method ReadTag(source: seq<byte>, past: nat -> byte, sp: nat) returns (off: nat, len: nat, next: nat)
    requires sp < |source|
    ensures sp < next
    ensures if next <= |source| then TagAt(source, sp) == Some((off, len, next)) else TagAt(source, sp) == None
  {
    len := Fetch(source, past, sp) as int % 16 + 3;
    off := Fetch(source, past, sp) as int / 16 * 256 + Fetch(source, past, sp + 1) as int;
    next := sp + 2;
    if len == 18 {
      len := len + Fetch(source, past, next) as int;
      next := next + 1;
    }
  }

  /** One memcpy of a match, from `off` bytes back. */
  method CopyBlock(dest: array<byte>, base: nat, dp: nat, off: nat, n: nat)
    requires base <= dp && dp + n <= dest.Length && 1 <= off <= dp - base && n <= off
    modifies dest
    ensures dest[base..dp + n] == CopyBack(old(dest[base..dp]), off, n)
    ensures n == off ==> 2 * off <= dp + n - base && EndsTwice(dest[base..dp + n], off)
    ensures dest[..base] == old(dest[..base]) && dest[dp + n..] == old(dest[dp + n..])
  {
    hide CopyBack;
    ghost var out := dest[base..dp];
    CopyBackBlock(out, off, n);
    CopyWithin(dest, dp, dp - off, n);
    Written(dest[..], old(dest[..]), base, dp, n);
    SubSlice(old(dest[..]), base, dp, |out| - off, n);
  }

  /** Memory that has changed from `dp` on only. */
  lemma Written(now: seq<byte>, was: seq<byte>, base: nat, dp: nat, n: nat)
    requires base <= dp && dp + n <= |now| == |was| && now[..dp] == was[..dp]
    ensures now[..base] == was[..base] && now[base..dp + n] == was[base..dp] + now[dp..dp + n]
  {
    assert now[..base] == now[..dp][..base] && was[..base] == was[..dp][..base];
    assert now[base..dp] == now[..dp][base..] && was[base..dp] == was[..dp][base..];
    assert now[base..dp + n] == now[base..dp] + now[dp..dp + n];
  }

  /** The copy of one match: blocks of `off` bytes, doubling `off` after each. */
  method CopyMatch(dest: array<byte>, base: nat, at: nat, offset: nat, length: nat) returns (dp: nat)
    requires base <= at && at + length <= dest.Length && 1 <= offset <= at - base
    modifies dest
    ensures dp == at + length
    ensures dest[base..dp] == CopyBack(old(dest[base..at]), offset, length)
    ensures dest[..base] == old(dest[..base]) && dest[dp..] == old(dest[dp..])
  {
    hide CopyBack, EndsTwice;
    dp := at;
    var off, len := offset, length;
    while off < len
      invariant at <= dp && 0 <= len && dp + len == at + length && 1 <= off <= dp - base
      invariant CopyBack(dest[base..dp], off, len) == CopyBack(old(dest[base..at]), offset, length)
      invariant dest[..base] == old(dest[..base]) && dest[dp..] == old(dest[dp..])
      decreases len
    {
      ghost var out, tail := dest[base..dp], dest[dp..];
      CopyBlock(dest, base, dp, off, off);
      len := len - off;
      dp := dp + off;
      DoublingStep(out, dest[base..dp], off, len);
      assert dest[dp..] == tail[off..];
      off := off + off;
    }
    ghost var tail := dest[dp..];
    CopyBlock(dest, base, dp, off, len);
    dp := dp + len;
    assert dest[dp..] == tail[len..];
  }
}
