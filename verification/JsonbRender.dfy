/** The text of a document, defined on the tree, and the printer's reading of the token stream. */
module JsonbRender {
  import opened Base
  import opened JsonbFormat
  import opened JsonbTokens

  const QUOTE: byte := 34
  const BACKSLASH: byte := 92
  const COMMA_SPACE: seq<byte> := [44, 32]
  const COLON_SPACE: seq<byte> := [58, 32]
  const NULL_TEXT: seq<byte> := [110, 117, 108, 108]
  const TRUE_TEXT: seq<byte> := [116, 114, 117, 101]
  const FALSE_TEXT: seq<byte> := [102, 97, 108, 115, 101]

  // ---------------------------------------------------------------- strings

  function HexDigit(n: int): byte
    requires 0 <= n < 16
  {
    if n < 10 then (48 + n) as byte else (87 + n) as byte
  }

  /** One byte of a string as escape_json writes it. */
  function Escape(c: byte): (r: seq<byte>)
    ensures 1 <= |r| <= 6
  {
    if c == 8 then [BACKSLASH, 98]
    else if c == 12 then [BACKSLASH, 102]
    else if c == 10 then [BACKSLASH, 110]
    else if c == 13 then [BACKSLASH, 114]
    else if c == 9 then [BACKSLASH, 116]
    else if c == QUOTE then [BACKSLASH, QUOTE]
    else if c == BACKSLASH then [BACKSLASH, BACKSLASH]
    else if c < 32 then [BACKSLASH, 117, 48, 48, HexDigit(c as int / 16), HexDigit(c as int % 16)]
    else [c]
  }

  function EscapeAll(s: seq<byte>): seq<byte> {
    if s == [] then [] else Escape(s[0]) + EscapeAll(s[1..])
  }

  function Quoted(s: seq<byte>): seq<byte> {
    [QUOTE] + EscapeAll(UntilZero(s)) + [QUOTE]
  }

  // ---------------------------------------------------------------- documents

  function Separator(first: bool): seq<byte> {
    if first then [] else COMMA_SPACE
  }

  function RenderScalar(j: Json): seq<byte> {
    match j
    case Null => NULL_TEXT
    case Bool(b) => if b then TRUE_TEXT else FALSE_TEXT
    case String(s) => Quoted(s)
    case _ => []                    // the numeric case of the printer writes nothing
  }

  function Render(j: Json): seq<byte>
    decreases j
  {
    match j
    case Array(kids, raw) =>
      if raw then RenderElements(kids, 0) else [91] + RenderElements(kids, 0) + [93]
    case Object(kids) => [123] + RenderPairs(kids, 0) + [125]
    case _ => RenderScalar(j)
  }

  function RenderElements(kids: seq<Json>, i: nat): seq<byte>
    requires i <= |kids|
    decreases kids, |kids| - i
  {
    if i == |kids| then []
    else Separator(i == 0) + Render(kids[i]) + RenderElements(kids, i + 1)
  }

  function RenderPairs(kids: seq<Json>, i: nat): seq<byte>
    requires i <= |kids| / 2
    decreases kids, |kids| / 2 - i
  {
    if i == |kids| / 2 then []
    else
      Separator(i == 0) + (Render(kids[i]) + COLON_SPACE)
      + (Render(kids[i + |kids| / 2]) + RenderPairs(kids, i + 1))
  }

  // ---------------------------------------------------------------- the printer over tokens

  /** The printer's `first` and `raw_scalar`. */
  datatype Flags = Flags(first: bool, raw: bool)

  /** What the printer writes for one token: perhaps a separator, then the token itself. */
  ghost function Written(t: Token, f: Flags): seq<byte> {
    Separator(f.first || !Separated(t)) + Body(t, f.raw)
  }

  ghost predicate Separated(t: Token) {
    t.BeginArray? || t.BeginObject? || t.Key? || t.Elem?
  }

  ghost function Body(t: Token, raw: bool): seq<byte> {
    match t
    case BeginArray(r) => if r then [] else [91]
    case BeginObject => [123]
    case EndArray => if raw then [] else [93]
    case EndObject => [125]
    case Key(k) => RenderScalar(k) + COLON_SPACE
    case Value(v) => RenderScalar(v)
    case Elem(v) => RenderScalar(v)
  }

  ghost function After(t: Token, f: Flags): Flags {
    Flags(t.BeginArray? || t.BeginObject? || t.Key?, f.raw || (t.BeginArray? && t.raw))
  }

  ghost function Text(ts: seq<Token>, f: Flags): seq<byte>
    decreases |ts|
  {
    if ts == [] then [] else Written(ts[0], f) + Text(ts[1..], After(ts[0], f))
  }

  ghost function Behind(ts: seq<Token>, f: Flags): Flags
    decreases |ts|
  {
    if ts == [] then f else Behind(ts[1..], After(ts[0], f))
  }

  /** From flags `f` the tokens print as `text` and leave the flags `f'`. */
  ghost predicate Prints(ts: seq<Token>, f: Flags, text: seq<byte>, f': Flags) {
    Text(ts, f) == text && Behind(ts, f) == f'
  }

  lemma Assoc(a: seq<byte>, b: seq<byte>, c: seq<byte>)
    ensures a + b + c == a + (b + c)
  {
  }

  lemma {:induction false} PrintsBoth(a: seq<Token>, b: seq<Token>, f: Flags, x: seq<byte>, g: Flags,
      y: seq<byte>, h: Flags)
    requires Prints(a, f, x, g) && Prints(b, g, y, h)
    ensures Prints(a + b, f, x + y, h)
    decreases |a|
  {
    if a == [] {
      assert a + b == b && x + y == y;
    } else {
      var f' := After(a[0], f);
      assert (a + b)[0] == a[0] && (a + b)[1..] == a[1..] + b;
      PrintsBoth(a[1..], b, f', Text(a[1..], f'), g, y, h);
      Assoc(Written(a[0], f), Text(a[1..], f'), y);
    }
  }

  lemma NothingPrints(f: Flags)
    ensures Prints([], f, [], f)
  {
  }

  lemma PrintsOne(t: Token, f: Flags)
    ensures Prints([t], f, Written(t, f), After(t, f))
  {
    assert [t][1..] == [];
  }

  const LATER: Flags := Flags(false, false)

  /** The printer turns the tokens of a nested container into its rendering. */
  lemma {:induction false} ContainerPrints(j: Json, first: bool)
    requires j.IsContainer() && WellFormed(j)
    ensures Prints(Tokens(j), Flags(first, false), Separator(first) + Render(j), LATER)
    decreases j, 1
  {
    if j.Array? {
      ElementsPrint(j.kids, 0);
      BracketsPrint(BeginArray(false), Elements(j.kids, 0), EndArray, first, RenderElements(j.kids, 0), |j.kids| == 0);
    } else {
      PairsPrint(j.kids, 0);
      BracketsPrint(BeginObject, Pairs(j.kids, 0), EndObject, first, RenderPairs(j.kids, 0), |j.kids| / 2 == 0);
    }
  }

  lemma BracketsPrint(open: Token, inner: seq<Token>, close: Token, first: bool, text: seq<byte>, empty: bool)
    requires (open == BeginArray(false) && close == EndArray) || (open == BeginObject && close == EndObject)
    requires Prints(inner, Flags(true, false), text, Flags(empty, false))
    ensures Prints([open] + inner + [close], Flags(first, false),
                   Separator(first) + ((if open.BeginObject? then [123] else [91]) + text
                                       + (if open.BeginObject? then [125] else [93])), LATER)
  {
    hide Prints, Written, After;
    var f, g, h := Flags(first, false), Flags(true, false), Flags(empty, false);
    BracketTokens(open, close, first, empty);
    PrintsOne(open, f);
    PrintsOne(close, h);
    var left := if open.BeginObject? then [123] else [91];
    PrintsBoth([open], inner, f, Separator(first) + left, g, text, h);
    PrintsBoth([open] + inner, [close], f, Separator(first) + left + text, h, Written(close, h), LATER);
    Assoc(Separator(first), left, text);
    Assoc(Separator(first), left + text, Written(close, h));
  }

  lemma BracketTokens(open: Token, close: Token, first: bool, empty: bool)
    requires (open == BeginArray(false) && close == EndArray) || (open == BeginObject && close == EndObject)
    ensures Written(open, Flags(first, false)) == Separator(first) + if open.BeginObject? then [123] else [91]
    ensures Written(close, Flags(empty, false)) == if open.BeginObject? then [125] else [93]
    ensures After(open, Flags(first, false)) == Flags(true, false) && After(close, Flags(empty, false)) == LATER
  {
  }

  lemma {:induction false} ElementsPrint(kids: seq<Json>, i: nat)
    requires i <= |kids| && forall k :: k in kids ==> WellFormed(k)
    ensures Prints(Elements(kids, i), Flags(i == 0, false), RenderElements(kids, i), Flags(|kids| == 0, false))
    decreases kids, |kids| - i
  {
    if i == |kids| {
    } else {
      var k, f := kids[i], Flags(i == 0, false);
      if k.IsContainer() { ContainerPrints(k, i == 0); } else { PrintsOne(Elem(k), f); }
      ElementsPrint(kids, i + 1);
      PrintsBoth(if k.IsContainer() then Tokens(k) else [Elem(k)], Elements(kids, i + 1), f,
                 Separator(i == 0) + Render(k), LATER, RenderElements(kids, i + 1), LATER);
    }
  }

  lemma {:induction false} PairsPrint(kids: seq<Json>, i: nat)
    requires i <= |kids| / 2 && forall k :: k in kids ==> WellFormed(k)
    requires forall m :: 0 <= m < |kids| / 2 ==> kids[m].String?
    ensures Prints(Pairs(kids, i), Flags(i == 0, false), RenderPairs(kids, i), Flags(|kids| / 2 == 0, false))
    decreases kids, |kids| / 2 - i
  {
    hide Prints, Render, WellFormed;
    if i == |kids| / 2 {
      NothingPrints(Flags(|kids| / 2 == 0, false));
    } else {
      PairsPrint(kids, i + 1);
      ValuePrints(kids[i + |kids| / 2]);
      PairPrints(kids[i], kids[i + |kids| / 2], i == 0, Pairs(kids, i + 1), RenderPairs(kids, i + 1));
    }
  }

  ghost function ValueTokens(v: Json): seq<Token> {
    if v.IsContainer() then Tokens(v) else [Value(v)]
  }

  lemma {:induction false} ValuePrints(v: Json)
    requires WellFormed(v)
    ensures Prints(ValueTokens(v), Flags(true, false), Render(v), LATER)
    decreases v, 2
  {
    assert Separator(true) + Render(v) == Render(v);
    if v.IsContainer() { ContainerPrints(v, true); } else { PrintsOne(Value(v), Flags(true, false)); }
  }

  lemma PairPrints(k: Json, v: Json, first: bool, rest: seq<Token>, text: seq<byte>)
    requires k.String?
    requires Prints(ValueTokens(v), Flags(true, false), Render(v), LATER) && Prints(rest, LATER, text, LATER)
    ensures Prints([Key(k)] + (ValueTokens(v) + rest), Flags(first, false),
                   Separator(first) + (Render(k) + COLON_SPACE) + (Render(v) + text), LATER)
  {
    var f, g := Flags(first, false), Flags(true, false);
    PrintsBoth(ValueTokens(v), rest, g, Render(v), LATER, text, LATER);
    PrintsOne(Key(k), f);
    PrintsBoth([Key(k)], ValueTokens(v) + rest, f, Written(Key(k), f), g, Render(v) + text, LATER);
  }

  /** The printer's text of a document's token stream is the document's rendering. */
  lemma DocumentPrints(j: Json)
    requires j.IsContainer() && Document(j)
    ensures Text(Tokens(j), Flags(true, false)) == Render(j)
  {
    if j.Array? && j.rawScalar {
      assert Elements(j.kids, 1) == [] && RenderElements(j.kids, 1) == [];
      RawPrints(Elem(j.kids[0]));
      assert Tokens(j) == [BeginArray(true), Elem(j.kids[0]), EndArray];
      assert Render(j) == RenderElements(j.kids, 0) == Separator(true) + Render(j.kids[0]) + []
          == RenderScalar(j.kids[0]);
    } else {
      ContainerPrints(j, true);
    }
  }

  lemma RawPrints(e: Token)
    requires e.Elem?
    ensures Text([BeginArray(true), e, EndArray], Flags(true, false)) == RenderScalar(e.v)
  {
    var f, g, h := Flags(true, false), Flags(true, true), Flags(false, true);
    RawTokens(e);
    PrintsRaw(e, f, g, h);
    assert [] + (Written(e, g) + []) == RenderScalar(e.v);
  }

  lemma RawTokens(e: Token)
    requires e.Elem?
    ensures var f, g, h := Flags(true, false), Flags(true, true), Flags(false, true);
      && Written(BeginArray(true), f) == [] && After(BeginArray(true), f) == g
      && Written(e, g) == RenderScalar(e.v) && After(e, g) == h
      && Written(EndArray, h) == [] && After(EndArray, h) == h
  {
  }

  lemma PrintsRaw(e: Token, f: Flags, g: Flags, h: Flags)
    requires Written(BeginArray(true), f) == [] && After(BeginArray(true), f) == g
    requires After(e, g) == h && Written(EndArray, h) == [] && After(EndArray, h) == h
    ensures Text([BeginArray(true), e, EndArray], f) == [] + (Written(e, g) + [])
  {
    hide Written, After, Text;
    PrintsOne(BeginArray(true), f);
    PrintsOne(e, g);
    PrintsOne(EndArray, h);
    PrintsBoth([e], [EndArray], g, Written(e, g), h, [], h);
    PrintsBoth([BeginArray(true)], [e] + [EndArray], f, [], g, Written(e, g) + [], h);
    assert [BeginArray(true), e, EndArray] == [BeginArray(true)] + ([e] + [EndArray]);
  }
}
