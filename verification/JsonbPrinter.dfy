/** JsonbToCString (pg_string.c): the loop that drives the iterator and writes text. */
module JsonbPrinter {
  import opened Base
  import opened StringInfos
  import opened JsonbFormat
  import opened JsonbTokens
  import opened JsonbIterators
  import opened JsonbRender

  lemma EscapeAllSplit(s: seq<byte>, i: nat)
    requires i < |s|
    ensures EscapeAll(s[i..]) == Escape(s[i]) + EscapeAll(s[i + 1..])
  {
    assert s[i..][1..] == s[i + 1..];
  }

  /** escape_json; `str` is a C string, so its text ends before the first zero byte. */
  method EscapeJson(out: StringInfo, str: seq<byte>) returns (r: Outcome)
    requires out.Valid() && 0 !in str
    modifies out, out.data
    ensures out.Valid() && (out.data == old(out.data) || fresh(out.data))
    ensures r.Pass? ==> out.Contents() == old(out.Contents()) + Quoted(str)
    ensures r.Exit? ==> old(out.len) + |Quoted(str)| + 32 >= LIMIT
  {
    hide Escape, UntilZero, EscapeAll;
    ghost var start := out.Contents();
    QuotedClean(str);
    :- out.AppendChar(QUOTE);
    var p := 0;
    assert str[0..] == str;
    Regroup(start, [QUOTE], EscapeAll(str), [QUOTE]);
    while p < |str|
      invariant 0 <= p <= |str|
      invariant out.Valid() && (out.data == old(out.data) || fresh(out.data))
      invariant start + Quoted(str) == out.Contents() + (EscapeAll(str[p..]) + [QUOTE])
    {
      EscapeAllSplit(str, p);
      Regroup(out.Contents(), Escape(str[p]), EscapeAll(str[p + 1..]), [QUOTE]);
      :- PutEscaped(out, str[p]);
      p := p + 1;
    }
    EscapeNothing(str[p..]);
    r := out.AppendChar(QUOTE);
  }

  lemma Regroup(a: seq<byte>, b: seq<byte>, c: seq<byte>, d: seq<byte>)
    ensures a + (b + c + d) == a + b + (c + d)
  {
  }

  lemma EscapeNothing(s: seq<byte>)
    requires s == []
    ensures EscapeAll(s) + [QUOTE] == [QUOTE]
  {
  }

  lemma QuotedClean(s: seq<byte>)
    requires 0 !in s
    ensures Quoted(s) == [QUOTE] + EscapeAll(s) + [QUOTE]
  {
    assert s[..|s|] == s;
    UntilZeroIs(s, |s|);
  }

  /** The switch of escape_json for one character. */
  method PutEscaped(out: StringInfo, c: byte) returns (r: Outcome)
    requires out.Valid()
    modifies out, out.data
    ensures out.Valid() && (out.data == old(out.data) || fresh(out.data))
    ensures r.Pass? ==> out.Contents() == old(out.Contents()) + Escape(c)
    ensures r.Exit? ==> old(out.len) + |Escape(c)| + 32 >= LIMIT
  {
    if c == 8 {
      r := out.AppendBinary([BACKSLASH, 98]);
    } else if c == 12 {
      r := out.AppendBinary([BACKSLASH, 102]);
    } else if c == 10 {
      r := out.AppendBinary([BACKSLASH, 110]);
    } else if c == 13 {
      r := out.AppendBinary([BACKSLASH, 114]);
    } else if c == 9 {
      r := out.AppendBinary([BACKSLASH, 116]);
    } else if c == QUOTE {
      r := out.AppendBinary([BACKSLASH, QUOTE]);
    } else if c == BACKSLASH {
      r := out.AppendBinary([BACKSLASH, BACKSLASH]);
    } else if c < 32 {
      // the format "\\u%04x" applied to the character
      ghost var tries;
      r, tries := out.AppendFormatted([BACKSLASH, 117, 48, 48, HexDigit(c as int / 16), HexDigit(c as int % 16)]);
    } else {
      r := out.AppendChar(c);
    }
  }

  /** pnstrdup: at most `len` bytes, stopping at a zero. */
  method Pnstrdup(buf: seq<byte>, at: nat, len: nat) returns (s: seq<byte>)
    requires at + len <= |buf|
    ensures s == UntilZero(buf[at..at + len])
  {
    var n := 0;
    ghost var all := buf[at..at + len];
    while n < len && buf[at + n] != 0
      invariant 0 <= n <= len
      invariant 0 !in all[..n]
    {
      assert all[..n + 1] == all[..n] + [all[n]];
      n := n + 1;
    }
    s := buf[at..at + n];
    UntilZeroIs(all, n);
  }

  /** jsonb_put_escaped_value */
  method PutEscapedValue(out: StringInfo, buf: seq<byte>, v: JsonbValue, ghost j: Json) returns (r: Outcome)
    requires out.Valid() && ScalarIs(buf, v, j)
    modifies out, out.data
    ensures out.Valid() && (out.data == old(out.data) || fresh(out.data))
    ensures r.Pass? ==> out.Contents() == old(out.Contents()) + RenderScalar(j)
    ensures r.Exit? ==> old(out.len) + |RenderScalar(j)| + 32 >= LIMIT
  {
    r := Pass;
    match v
    case JvNull => r := out.AppendBinary(NULL_TEXT);
    case JvString(val, len) =>
      var s := Pnstrdup(buf, val, len);
      assert Quoted(s) == Quoted(j.s) by { UntilZeroOnce(j.s); }
      r := EscapeJson(out, s);
    case JvBool(b) => if b { r := out.AppendBinary(TRUE_TEXT); } else { r := out.AppendBinary(FALSE_TEXT); }
    case _ =>
  }

  /** What the printer's switch appends for a token, behind the separator. */
  method PutBody(out: StringInfo, buf: seq<byte>, t: TokenType, v: JsonbValue, raw: bool, ghost tok: Token)
    returns (r: Outcome)
    requires out.Valid() && Denotes(buf, t, v, tok)
    modifies out, out.data
    ensures out.Valid() && (out.data == old(out.data) || fresh(out.data))
    ensures r.Pass? ==> out.Contents() == old(out.Contents()) + Body(tok, raw)
    ensures r.Exit? ==> old(out.len) + |Body(tok, raw)| + 32 >= LIMIT
  {
    r := Pass;
    if t == WjbKey {
      r := PutEscapedValue(out, buf, v, tok.k);
      if r.Pass? { r := out.AppendBinary(COLON_SPACE); }
    } else if t == WjbElem || t == WjbValue {
      r := PutEscapedValue(out, buf, v, tok.v);
    } else if (t == WjbBeginArray && !v.rawScalar) || t == WjbBeginObject {
      r := out.AppendChar(if t == WjbBeginArray then 91 else 123);
    } else if (t == WjbEndArray && !raw) || t == WjbEndObject {
      r := out.AppendChar(if t == WjbEndArray then 93 else 125);
    }
  }

  /** What the printer's flags say about a token, and what they become. */
  lemma TokenShape(buf: seq<byte>, t: TokenType, v: JsonbValue, tok: Token, first: bool, raw: bool)
    requires Denotes(buf, t, v, tok)
    ensures t == WjbBeginArray ==> v.JvArray?
    ensures var opens := t == WjbBeginArray || t == WjbBeginObject;
      && Written(tok, Flags(first, raw))
         == (if !first && (opens || t == WjbKey || t == WjbElem) then COMMA_SPACE else []) + Body(tok, raw)
      && After(tok, Flags(first, raw)) == Flags(opens || t == WjbKey, raw || (t == WjbBeginArray && v.rawScalar))
      && Step(tok) == if opens then 1 else if t == WjbEndArray || t == WjbEndObject then -1 else 0
  {
    hide ScalarIs;
  }

  /** The printer's switch for one token: text, flags and level. */
  method PutToken(out: StringInfo, buf: seq<byte>, t: TokenType, v: JsonbValue, first: bool, raw: bool, level: int,
                  ghost tok: Token)
    returns (r: Outcome, first': bool, raw': bool, level': int)
    requires out.Valid() && Denotes(buf, t, v, tok)
    modifies out, out.data
    ensures out.Valid() && (out.data == old(out.data) || fresh(out.data))
    ensures r.Pass? ==> out.Contents() == old(out.Contents()) + Written(tok, Flags(first, raw))
    ensures r.Exit? ==> old(out.len) + |Written(tok, Flags(first, raw))| + 32 >= LIMIT
    ensures Flags(first', raw') == After(tok, Flags(first, raw)) && level' == level + Step(tok)
  {
    hide Body, Denotes, Written, After, Step, COMMA_SPACE;
    TokenShape(buf, t, v, tok, first, raw);
    var opens := t == WjbBeginArray || t == WjbBeginObject;
    first', raw' := opens || t == WjbKey, raw || (t == WjbBeginArray && v.rawScalar);
    level' := if opens then level + 1 else if t == WjbEndArray || t == WjbEndObject then level - 1 else level;
    r := Pass;
    if !first && (opens || t == WjbKey || t == WjbElem) {
      r := out.AppendBinary(COMMA_SPACE);
    }
    if r.Pass? {
      r := PutBody(out, buf, t, v, raw, tok);
    }
  }

  /** What is still to be printed: the token a key has left pending, then the iterator's. */
  ghost function Pending(redo: bool, tok: Token, rest: seq<Token>): seq<Token> {
    if redo then [tok] + rest else rest
  }

  /** One token printed: what is written and what is still to come make up `goal` as before. */
  method PrintOne(out: StringInfo, buf: seq<byte>, t: TokenType, v: JsonbValue, first: bool, raw: bool, level: int,
                  ghost tok: Token, ghost rest: seq<Token>, ghost goal: seq<byte>)
    returns (r: Outcome, first': bool, raw': bool, level': int)
    requires out.Valid() && Denotes(buf, t, v, tok)
    requires goal == out.Contents() + Text([tok] + rest, Flags(first, raw))
    modifies out, out.data
    ensures out.Valid() && (out.data == old(out.data) || fresh(out.data))
    ensures r.Pass? ==> goal == out.Contents() + Text(rest, Flags(first', raw'))
    ensures r.Exit? ==> |goal| + 32 >= LIMIT
    ensures level' == level + Step(tok)
  {
    ghost var before, f := out.Contents(), Flags(first, raw);
    assert ([tok] + rest)[1..] == rest;
    assert Text([tok] + rest, f) == Written(tok, f) + Text(rest, After(tok, f));
    r, first', raw', level' := PutToken(out, buf, t, v, first, raw, level, tok);
    JsonbRender.Assoc(before, Written(tok, f), Text(rest, After(tok, f)));
  }

  lemma TypeOf(buf: seq<byte>, t: TokenType, v: JsonbValue, tok: Token)
    requires Denotes(buf, t, v, tok)
    ensures (t == WjbKey) == tok.Key? && (t == WjbValue) == tok.Value?
  {
  }

  lemma AnsweredNext(tok: Token, rest: seq<Token>)
    requires KeysAnswered([tok] + rest)
    ensures KeysAnswered(rest) && (tok.Key? ==> rest != [] && Answers(rest[0]))
  {
    assert ([tok] + rest)[1..] == rest;
  }

  lemma TextLength(out: StringInfo)
    requires out.Valid()
    ensures |out.Contents()| == out.len
  {
  }

  lemma NothingLeft(buf: seq<byte>)
    ensures Rest(buf, null) == [] && Depth(null, []) == 0
  {
  }

  /** The variable `it` whose address the printer hands to JsonbIteratorNext. */
  class Cursor {
    var it: JsonbIterator?
    ghost var stack: seq<JsonbIterator>
    ghost var rest: seq<Token>        // the tokens still to come
    ghost var depth: int              // containers entered and not left
    ghost var Repr: set<JsonbIterator>

    ghost predicate Valid(buf: seq<byte>)
      reads this, Repr
    {
      && (forall x :: x in stack ==> x in Repr)
      && Chain(buf, it, stack)
      && rest == Rest(buf, it)
      && depth == Depth(it, stack)
    }

    constructor (buf: seq<byte>, c: nat, ghost doc: Json)
      requires doc.IsContainer() && Document(doc) && Packed(buf, c, doc)
      ensures Valid(buf) && fresh(Repr) && rest == Tokens(doc) && depth == 0
    {
      it := null;
      new;
      it := IteratorFromContainer(buf, c, null, doc);
      stack, rest, depth := [it], Tokens(doc), 0;
      Repr := {it};
    }

    method Next(buf: seq<byte>) returns (t: TokenType, v: JsonbValue, ghost tok: Token)
      requires Valid(buf)
      modifies this, Repr
      ensures Valid(buf) && fresh(Repr - old(Repr))
      ensures (t == WjbDone) == (old(rest) == [])
      ensures t == WjbDone ==> rest == [] && depth == old(depth) == 0 && it == null
      ensures t != WjbDone ==> old(rest) == [tok] + rest && Denotes(buf, t, v, tok) && depth == old(depth) + Step(tok)
    {
      hide JsonbIterator.Valid, Denotes, Step, Rest, Depth;
      NothingLeft(buf);
      it, t, v, stack, tok := JsonbIteratorNext(buf, it, stack);
      rest, depth := Rest(buf, it), Depth(it, stack);
      Repr := Repr + set x | x in stack;
    }
  }

  /** JsonbToCStringWorker with indent false: the rendering of the document is appended to `out`, and the
      nesting level is zero and no iterator left at the end.  It gives up only when the buffer limit is near. */
  method JsonbToCStringWorker(out: StringInfo, buf: seq<byte>, c: nat, estimatedLen: int, ghost doc: Json)
    returns (r: Outcome)
    requires out.Valid()
    requires doc.IsContainer() && Document(doc) && Packed(buf, c, doc)
    modifies out, out.data
    ensures out.Valid() && (out.data == old(out.data) || fresh(out.data))
    ensures r.Pass? ==> out.Contents() == old(out.Contents()) + Render(doc)
    ensures r.Exit? ==> old(out.len) + estimatedLen >= LIMIT || old(out.len) + |Render(doc)| + 64 >= LIMIT
  {
    DocumentPrints(doc);
    TokensAnswered(doc);
    :- out.Enlarge(if estimatedLen >= 0 then estimatedLen else 64);
    var it := new Cursor(buf, c, doc);
    var level :- PrintTokens(out, buf, it);
    assert level == 0;
    return Pass;
  }

  /** The printer's loop.  At its end the nesting level is zero, no iterator is left and no token to come. */
  method PrintTokens(out: StringInfo, buf: seq<byte>, it: Cursor) returns (r: Outcome, level: int)
    requires out.Valid() && it.Valid(buf) && it.depth == 0 && KeysAnswered(it.rest)
    modifies out, out.data, it, it.Repr
    ensures out.Valid() && (out.data == old(out.data) || fresh(out.data))
    ensures r.Pass? ==> out.Contents() == old(out.Contents()) + Text(old(it.rest), Flags(true, false))
    ensures r.Pass? ==> level == 0 && it.it == null && it.rest == [] && it.depth == 0
    ensures r.Exit? ==> old(out.len) + |Text(old(it.rest), Flags(true, false))| + 64 >= LIMIT
  {
    hide Cursor.Valid, StringInfo.Valid, StringInfo.Contents, Text, Denotes, Step, KeysAnswered, Answers;
    TextLength(out);
    ghost var goal := out.Contents() + Text(it.rest, Flags(true, false));
    var t, v, first, raw, redo := WjbDone, JvNull, true, false, false;
    level := 0;
    ghost var tok := EndArray;
    while true
      invariant out.Valid() && (out.data == old(out.data) || fresh(out.data))
      invariant it.Valid(buf) && fresh(it.Repr - old(it.Repr))
      invariant redo ==> Denotes(buf, t, v, tok) && t != WjbDone && Answers(tok)
      invariant KeysAnswered(Pending(redo, tok, it.rest))
      invariant goal == out.Contents() + Text(Pending(redo, tok, it.rest), Flags(first, raw))
      invariant level == it.depth - if redo then Step(tok) else 0
      decreases |it.rest| + if redo then 1 else 0
    {
      if !redo {
        t, v, tok := it.Next(buf);
        if t == WjbDone {
          NothingPrints(Flags(first, raw));
          return Pass, level;
        }
      }
      redo, t, v, first, raw, level, tok :- PrintTurn(out, buf, it, t, v, first, raw, level, tok, goal);
    }
  }

  /** One turn of the printer's loop: a token, and the value behind it if it is a key. */
  method PrintTurn(out: StringInfo, buf: seq<byte>, it: Cursor, t: TokenType, v: JsonbValue, first: bool, raw: bool,
                   level: int, ghost tok: Token, ghost goal: seq<byte>)
    returns (r: Outcome, redo: bool, t': TokenType, v': JsonbValue, first': bool, raw': bool, level': int,
             ghost tok': Token)
    requires out.Valid() && it.Valid(buf) && Denotes(buf, t, v, tok)
    requires KeysAnswered([tok] + it.rest)
    requires goal == out.Contents() + Text([tok] + it.rest, Flags(first, raw)) && level == it.depth - Step(tok)
    modifies out, out.data, it, it.Repr
    ensures out.Valid() && (out.data == old(out.data) || fresh(out.data))
    ensures it.Valid(buf) && fresh(it.Repr - old(it.Repr))
    ensures r.Exit? ==> |goal| + 32 >= LIMIT
    ensures redo ==> Denotes(buf, t', v', tok') && t' != WjbDone && Answers(tok')
    ensures r.Pass? ==> KeysAnswered(Pending(redo, tok', it.rest))
    ensures r.Pass? ==> goal == out.Contents() + Text(Pending(redo, tok', it.rest), Flags(first', raw'))
    ensures r.Pass? ==> level' == it.depth - if redo then Step(tok') else 0
    ensures |it.rest| + (if redo then 1 else 0) <= |old(it.rest)|
  {
    hide Cursor.Valid, StringInfo.Valid, StringInfo.Contents, Text, Denotes, Step, KeysAnswered, Answers;
    redo, t', v', tok' := false, t, v, tok;
    first', raw', level' :- PrintOne(out, buf, t, v, first, raw, level, tok, it.rest, goal);
    TypeOf(buf, t, v, tok);
    AnsweredNext(tok, it.rest);
    if t == WjbKey {
      redo, t', v', first', raw', level', tok' :- AfterKey(out, buf, it, first', raw', level', goal);
    }
    return Pass, redo, t', v', first', raw', level', tok';
  }

  /** The value behind a key: a scalar is printed at once, the start of a container goes round the loop. */
  method AfterKey(out: StringInfo, buf: seq<byte>, it: Cursor, first: bool, raw: bool, level: int,
                  ghost goal: seq<byte>)
    returns (r: Outcome, redo: bool, t: TokenType, v: JsonbValue, first': bool, raw': bool, level': int,
             ghost tok: Token)
    requires out.Valid() && it.Valid(buf)
    requires it.rest != [] && Answers(it.rest[0]) && KeysAnswered(it.rest)
    requires goal == out.Contents() + Text(it.rest, Flags(first, raw)) && level == it.depth
    modifies out, out.data, it, it.Repr
    ensures out.Valid() && (out.data == old(out.data) || fresh(out.data))
    ensures it.Valid(buf) && fresh(it.Repr - old(it.Repr))
    ensures r.Exit? ==> |goal| + 32 >= LIMIT
    ensures redo ==> Denotes(buf, t, v, tok) && t != WjbDone && Answers(tok)
    ensures r.Pass? ==> KeysAnswered(Pending(redo, tok, it.rest))
    ensures r.Pass? ==> goal == out.Contents() + Text(Pending(redo, tok, it.rest), Flags(first', raw'))
    ensures r.Pass? ==> level' == it.depth - if redo then Step(tok) else 0
    ensures |it.rest| < |old(it.rest)|
    ensures r.Pass? ==> (redo <==> !old(it.rest)[0].Value?)
  {
    hide Cursor.Valid, Text, Denotes, Step, KeysAnswered, Answers;
    t, v, tok := it.Next(buf);
    TypeOf(buf, t, v, tok);
    AnsweredNext(tok, it.rest);
    r, redo, first', raw', level' := Pass, true, first, raw, level;
    if t == WjbValue {
      r, first', raw', level' := PrintOne(out, buf, t, v, first, raw, level, tok, it.rest, goal);
      redo := false;
    }
  }

  /** JsonbToCString(NULL, ...): the text in a new buffer. */
  method JsonbToCString(buf: seq<byte>, c: nat, estimatedLen: int, ghost doc: Json)
    returns (r: Outcome, out: StringInfo)
    requires doc.IsContainer() && Document(doc) && Packed(buf, c, doc)
    ensures fresh(out) && out.Valid()
    ensures r.Pass? ==> out.Contents() == Render(doc)
    ensures estimatedLen < LIMIT && |Render(doc)| + 64 < LIMIT ==> r.Pass?
  {
    out := new StringInfo();
    r := JsonbToCStringWorker(out, buf, c, estimatedLen, doc);
  }
}
