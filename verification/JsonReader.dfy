/** A reader for JSON text (RFC 8259 sections 2 to 7, numbers left out), and what it makes of printed documents. */
module JsonReader {
  import opened Base
  import opened JsonbFormat
  import opened JsonbRender

  datatype Read<+T> = Bad | Got(value: T, rest: seq<byte>)

  function SkipSpace(s: seq<byte>): (r: seq<byte>)
    ensures |r| <= |s|
  {
    if s != [] && s[0] in {32, 9, 10, 13} then SkipSpace(s[1..]) else s
  }

  // ---------------------------------------------------------------- strings

  function HexValue(c: byte): Option<nat> {
    if 48 <= c <= 57 then Some(c as int - 48)
    else if 97 <= c <= 102 then Some(c as int - 87)
    else if 65 <= c <= 70 then Some(c as int - 55)
    else None
  }

  function HexFour(s: seq<byte>): Option<nat>
    requires |s| >= 4
  {
    match (HexValue(s[0]), HexValue(s[1]), HexValue(s[2]), HexValue(s[3]))
    case (Some(a), Some(b), Some(c), Some(d)) => Some(4096 * a + 256 * b + 16 * c + d)
    case _ => None
  }

  /** UTF-8 for one code unit; surrogates have no encoding of their own. */
  function Utf8(u: nat): Option<seq<byte>> {
    if u < 0x80 then Some([u as byte])
    else if u < 0x800 then Some([(192 + u / 64) as byte, (128 + u % 64) as byte])
    else if u < 0xD800 || 0xE000 <= u < 0x1_0000 then
      Some([(224 + u / 4096) as byte, (128 + u / 64 % 64) as byte, (128 + u % 64) as byte])
    else None
  }

  /** The character a backslash and `c` stand for. */
  function ShortEscape(c: byte): Option<byte> {
    if c == 98 then Some(8) else if c == 102 then Some(12) else if c == 110 then Some(10)
    else if c == 114 then Some(13) else if c == 116 then Some(9)
    else if c == 34 || c == 92 || c == 47 then Some(c) else None
  }

  /** One character of a string, escaped or not: its bytes and the text behind it. */
  function ReadChar(s: seq<byte>): (r: Read<seq<byte>>)
    ensures r.Got? ==> |r.rest| < |s|
  {
    if s == [] || s[0] < 32 || s[0] == 34 then Bad
    else if s[0] != 92 then Got([s[0]], s[1..])
    else if |s| == 1 then Bad
    else if s[1] == 117 then
      if |s| < 6 then Bad
      else match HexFour(s[2..])
        case None => Bad
        case Some(u) =>
          match Utf8(u)
          case None => Bad
          case Some(b) => Got(b, s[6..])
    else match ShortEscape(s[1])
      case None => Bad
      case Some(c) => Got([c], s[2..])
  }

  /** The characters up to the closing quote. */
  function ReadChars(s: seq<byte>): (r: Read<seq<byte>>)
    ensures r.Got? ==> |r.rest| < |s|
    decreases |s|
  {
    if s != [] && s[0] == 34 then Got([], s[1..])
    else match ReadChar(s)
      case Bad => Bad
      case Got(c, rest) =>
        match ReadChars(rest)
        case Bad => Bad
        case Got(cs, rest') => Got(c + cs, rest')
  }

  // ---------------------------------------------------------------- values

  ghost predicate NumberFree(j: Json) {
    match j
    case Numeric(_) => false
    case Array(kids, _) => forall k :: k in kids ==> NumberFree(k)
    case Object(kids) => forall k :: k in kids ==> NumberFree(k)
    case _ => true
  }

  function ReadValue(text: seq<byte>): (r: Read<Json>)
    ensures r.Got? ==> |r.rest| < |text| && NumberFree(r.value)
    decreases |text|, 1
  {
    var s := SkipSpace(text);
    if s == [] then Bad
    else if s[0] == 91 then
      var t := SkipSpace(s[1..]);
      if t != [] && t[0] == 93 then Got(Array([], false), t[1..])
      else match ReadElements(s[1..])
        case Bad => Bad
        case Got(kids, rest) => Got(Array(kids, false), rest)
    else if s[0] == 123 then
      var t := SkipSpace(s[1..]);
      if t != [] && t[0] == 125 then Got(Object([]), t[1..])
      else match ReadMembers(s[1..])
        case Bad => Bad
        case Got((keys, vals), rest) => Got(Object(keys + vals), rest)
    else if s[0] == 34 then
      match ReadChars(s[1..])
      case Bad => Bad
      case Got(cs, rest) => Got(String(cs), rest)
    else if [110, 117, 108, 108] <= s then Got(Null, s[4..])
    else if [116, 114, 117, 101] <= s then Got(Bool(true), s[4..])
    else if [102, 97, 108, 115, 101] <= s then Got(Bool(false), s[5..])
    else Bad
  }

  /** One or more values and the closing bracket. */
  function ReadElements(text: seq<byte>): (r: Read<seq<Json>>)
    ensures r.Got? ==> |r.rest| < |text| && forall k :: k in r.value ==> NumberFree(k)
    decreases |text|, 2
  {
    match ReadValue(text)
    case Bad => Bad
    case Got(v, rest) =>
      var s := SkipSpace(rest);
      if s == [] then Bad
      else if s[0] == 93 then Got([v], s[1..])
      else if s[0] != 44 then Bad
      else match ReadElements(s[1..])
        case Bad => Bad
        case Got(vs, rest') => Got([v] + vs, rest')
  }

  /** One or more members and the closing brace. */
  function ReadMembers(text: seq<byte>): (r: Read<(seq<Json>, seq<Json>)>)
    ensures r.Got? ==> |r.rest| < |text| && forall k :: k in r.value.0 + r.value.1 ==> NumberFree(k)
    decreases |text|, 2
  {
    match ReadKey(text)
    case Bad => Bad
    case Got(k, afterKey) =>
      match ReadValue(afterKey)
      case Bad => Bad
      case Got(v, rest) =>
        var s := SkipSpace(rest);
        if s == [] then Bad
        else if s[0] == 125 then Got(([String(k)], [v]), s[1..])
        else if s[0] != 44 then Bad
        else match ReadMembers(s[1..])
          case Bad => Bad
          case Got((ks, vs), rest') => Got(([String(k)] + ks, [v] + vs), rest')
  }

  /** A string and the colon behind it. */
  function ReadKey(text: seq<byte>): (r: Read<seq<byte>>)
    ensures r.Got? ==> |r.rest| < |text|
  {
    var s := SkipSpace(text);
    if s == [] || s[0] != 34 then Bad
    else match ReadChars(s[1..])
      case Bad => Bad
      case Got(k, rest) =>
        var t := SkipSpace(rest);
        if t == [] || t[0] != 58 then Bad else Got(k, t[1..])
  }

  /** A whole text; a scalar stands for a raw scalar document. */
  function ReadDocument(text: seq<byte>): (r: Option<Json>)
    ensures r.Some? ==> NumberFree(r.value)
  {
    match ReadValue(text)
    case Bad => None
    case Got(v, rest) =>
      if SkipSpace(rest) != [] then None
      else Some(if v.IsContainer() then v else Array([v], true))
  }

  // ---------------------------------------------------------------- reading what was printed

  /** Every string cut at its first zero byte. */
  ghost function Truncated(j: Json): Json {
    match j
    case String(s) => String(UntilZero(s))
    case Array(kids, raw) => Array(TruncatedAll(kids), raw)
    case Object(kids) => Object(TruncatedAll(kids))
    case _ => j
  }

  ghost function TruncatedAll(js: seq<Json>): (r: seq<Json>)
    ensures |r| == |js| && forall i :: 0 <= i < |js| ==> r[i] == Truncated(js[i])
  {
    if js == [] then [] else [Truncated(js[0])] + TruncatedAll(js[1..])
  }

  lemma EscapeReads(c: byte, t: seq<byte>)
    ensures ReadChar(Escape(c) + t) == Got([c], t)
    ensures (Escape(c) + t)[0] != QUOTE
  {
    var e := Escape(c);
    var s := e + t;
    assert s[|e|..] == t;
    assert s[0] == e[0];
    if |e| == 6 {
      UnicodeReads(c, e, t);
    } else if |e| == 2 {
      assert s[1] == e[1];
    }
  }

  lemma HexReads(c: byte, s: seq<byte>)
    requires c < 32 && |s| >= 4 && s[0] == 48 == s[1]
    requires s[2] == HexDigit(c as int / 16) && s[3] == HexDigit(c as int % 16)
    ensures HexFour(s) == Some(c as int)
  {
  }

  lemma UnicodeReads(c: byte, e: seq<byte>, t: seq<byte>)
    requires c < 32 && e == [BACKSLASH, 117, 48, 48, HexDigit(c as int / 16), HexDigit(c as int % 16)]
    ensures ReadChar(e + t) == Got([c], t)
  {
    hide HexFour, HexDigit;
    var s := e + t;
    assert s[2..] == e[2..] + t;
    HexReads(c, s[2..]);
    assert s[6..] == t;
  }

  /** Unescaping undoes escape_json. */
  lemma {:induction false} EscapeAllReads(s: seq<byte>, t: seq<byte>)
    ensures ReadChars(EscapeAll(s) + [QUOTE] + t) == Got(s, t)
    decreases |s|
  {
    var text := EscapeAll(s) + [QUOTE] + t;
    if s == [] {
      assert text == [QUOTE] + t;
      assert text[1..] == t;
    } else {
      var tail := EscapeAll(s[1..]) + [QUOTE] + t;
      assert text == Escape(s[0]) + tail;
      EscapeReads(s[0], tail);
      EscapeAllReads(s[1..], t);
      assert [s[0]] + s[1..] == s;
    }
  }

  lemma QuotedReads(s: seq<byte>, t: seq<byte>)
    ensures Quoted(s) + t != [] && (Quoted(s) + t)[0] == QUOTE
    ensures ReadChars((Quoted(s) + t)[1..]) == Got(UntilZero(s), t)
  {
    hide UntilZero, EscapeAll, ReadChars;
    EscapeAllReads(UntilZero(s), t);
    assert (Quoted(s) + t)[1..] == EscapeAll(UntilZero(s)) + [QUOTE] + t;
  }

  lemma ScalarReads(j: Json, t: seq<byte>)
    requires !j.IsContainer() && NumberFree(j)
    ensures ReadValue(RenderScalar(j) + t) == Got(Truncated(j), t)
  {
    var s := RenderScalar(j) + t;
    if j.String? {
      QuotedReads(j.s, t);
    } else {
      var w := RenderScalar(j);
      assert s[..|w|] == w && s[|w|..] == t && s[0] == w[0];
    }
  }

  /** A value's text starts with none of the space and closing characters. */
  lemma RenderStarts(j: Json)
    requires NumberFree(j) && WellFormed(j)
    ensures forall t :: Starts(Render(j) + t)
  {
  }

  // One step of each reading function, its input split where the step splits it.

  lemma SpaceSkipped(s: seq<byte>)
    ensures SkipSpace([32] + s) == SkipSpace(s)
    ensures ReadValue([32] + s) == ReadValue(s)
    ensures ReadElements([32] + s) == ReadElements(s)
    ensures ReadKey([32] + s) == ReadKey(s)
    ensures ReadMembers([32] + s) == ReadMembers(s)
  {
    assert ([32] + s)[1..] == s;
  }

  predicate Starts(s: seq<byte>) {
    s != [] && s[0] in {34, 91, 102, 110, 116, 123}
  }

  lemma ArrayStep(inner: seq<byte>, ks: seq<Json>, t: seq<byte>)
    requires Starts(inner) && ReadElements(inner) == Got(ks, t)
    ensures ReadValue([91] + inner) == Got(Array(ks, false), t)
  {
    assert ([91] + inner)[1..] == inner;
  }

  lemma ObjectStep(inner: seq<byte>, ks: seq<Json>, vs: seq<Json>, t: seq<byte>)
    requires Starts(inner) && ReadMembers(inner) == Got((ks, vs), t)
    ensures ReadValue([123] + inner) == Got(Object(ks + vs), t)
  {
    assert ([123] + inner)[1..] == inner;
  }

  lemma EmptySteps(t: seq<byte>)
    ensures ReadValue([91, 93] + t) == Got(Array([], false), t)
    ensures ReadValue([123, 125] + t) == Got(Object([]), t)
  {
    assert ([91, 93] + t)[1..] == [93] + t && ([93] + t)[1..] == t;
    assert ([123, 125] + t)[1..] == [125] + t && ([125] + t)[1..] == t;
  }

  lemma ElementsStep(text: seq<byte>, v: Json, next: seq<byte>, vs: seq<Json>, t: seq<byte>)
    requires ReadValue(text) == Got(v, [44] + next) && ReadElements(next) == Got(vs, t)
    ensures ReadElements(text) == Got([v] + vs, t)
  {
    assert ([44] + next)[1..] == next;
  }

  lemma LastElementStep(text: seq<byte>, v: Json, t: seq<byte>)
    requires ReadValue(text) == Got(v, [93] + t)
    ensures ReadElements(text) == Got([v], t)
  {
    assert ([93] + t)[1..] == t;
  }

  lemma MembersStep(text: seq<byte>, k: seq<byte>, after: seq<byte>, v: Json, next: seq<byte>, ks: seq<Json>,
      vs: seq<Json>, t: seq<byte>)
    requires ReadKey(text) == Got(k, after) && ReadValue(after) == Got(v, [44] + next)
    requires ReadMembers(next) == Got((ks, vs), t)
    ensures ReadMembers(text) == Got(([String(k)] + ks, [v] + vs), t)
  {
    assert ([44] + next)[1..] == next;
  }

  lemma LastMemberStep(text: seq<byte>, k: seq<byte>, after: seq<byte>, v: Json, t: seq<byte>)
    requires ReadKey(text) == Got(k, after) && ReadValue(after) == Got(v, [125] + t)
    ensures ReadMembers(text) == Got(([String(k)], [v]), t)
  {
    assert ([125] + t)[1..] == t;
  }

  lemma KeyReads(k: Json, t: seq<byte>)
    requires k.String?
    ensures ReadKey(Render(k) + ([58] + t)) == Got(UntilZero(k.s), t)
  {
    QuotedReads(k.s, [58] + t);
    assert ([58] + t)[1..] == t;
  }

  // Regrouping of concatenated text.

  lemma BracketText(open: byte, inner: seq<byte>, close: byte, t: seq<byte>)
    ensures [open] + inner + [close] + t == [open] + (inner + ([close] + t))
  {
  }

  lemma NextText(a: seq<byte>, b: seq<byte>, c: seq<byte>)
    ensures COMMA_SPACE + a + b + c == [44] + ([32] + (a + (b + c)))
  {
    assert COMMA_SPACE == [44] + [32];
  }

  lemma MemberText(k: seq<byte>, v: seq<byte>, b: seq<byte>, c: seq<byte>)
    ensures (k + COLON_SPACE) + (v + b) + c == k + ([58] + ([32] + (v + (b + c))))
  {
    assert COLON_SPACE == [58] + [32];
  }

  // The induction over the tree.

  lemma {:induction false} ValueReads(j: Json, t: seq<byte>)
    requires WellFormed(j) && NumberFree(j)
    ensures ReadValue(Render(j) + t) == Got(Truncated(j), t)
    decreases j, 1
  {
    hide ReadValue, ReadElements, ReadMembers, TruncatedAll, UntilZero, RenderElements, RenderPairs;
    match j
    case Array(kids, _) => ArrayReads(kids, t);
    case Object(kids) => ObjectReads(kids, t);
    case _ => ScalarReads(j, t);
  }

  lemma {:induction false} ArrayReads(kids: seq<Json>, t: seq<byte>)
    requires forall k :: k in kids ==> WellFormed(k) && NumberFree(k)
    ensures ReadValue([91] + RenderElements(kids, 0) + [93] + t) == Got(Array(TruncatedAll(kids), false), t)
    decreases kids, |kids| + 1
  {
    hide ReadValue, ReadElements, TruncatedAll, Render, RenderElements;
    BracketText(91, RenderElements(kids, 0), 93, t);
    if kids == [] {
      EmptySteps(t);
      NoElements();
      assert [91] + ([] + ([93] + t)) == [91, 93] + t;
    } else {
      ElementsRead(kids, 0, t);
      RenderStarts(kids[0]);
      FirstElement(kids);
      FirstText(Render(kids[0]), RenderElements(kids, 1), [93] + t);
      ArrayStep(RenderElements(kids, 0) + ([93] + t), TruncatedAll(kids[0..]), t);
      assert kids[0..] == kids;
    }
  }

  lemma FirstElement(kids: seq<Json>)
    requires kids != []
    ensures RenderElements(kids, 0) == Separator(true) + Render(kids[0]) + RenderElements(kids, 1)
  {
  }

  lemma NoElements()
    ensures RenderElements([], 0) == [] && RenderPairs([], 0) == [] && TruncatedAll([]) == []
  {
  }

  lemma {:induction false} ObjectReads(kids: seq<Json>, t: seq<byte>)
    requires |kids| % 2 == 0 && forall k :: k in kids ==> WellFormed(k) && NumberFree(k)
    requires forall m :: 0 <= m < |kids| / 2 ==> kids[m].String?
    ensures ReadValue([123] + RenderPairs(kids, 0) + [125] + t) == Got(Object(TruncatedAll(kids)), t)
    decreases kids, |kids| + 1
  {
    hide ReadValue, ReadMembers, TruncatedAll, Render, RenderPairs;
    BracketText(123, RenderPairs(kids, 0), 125, t);
    if kids == [] {
      EmptySteps(t);
      NoElements();
      assert [123] + ([] + ([125] + t)) == [123, 125] + t;
    } else {
      var n := |kids| / 2;
      MembersRead(kids, 0, t);
      RenderStarts(kids[0]);
      FirstPair(kids);
      FirstMember(Render(kids[0]), Render(kids[n]) + RenderPairs(kids, 1));
      ObjectStep(RenderPairs(kids, 0) + ([125] + t), TruncatedAll(kids[0..n]), TruncatedAll(kids[n..]), t);
      TruncatedSplit(kids, n);
    }
  }

  lemma FirstPair(kids: seq<Json>)
    requires |kids| >= 2
    ensures RenderPairs(kids, 0) == Separator(true) + (Render(kids[0]) + COLON_SPACE)
                                    + (Render(kids[|kids| / 2]) + RenderPairs(kids, 1))
  {
  }

  lemma FirstText(a: seq<byte>, b: seq<byte>, c: seq<byte>)
    ensures Separator(true) + a + b + c == a + (b + c)
  {
  }

  lemma FirstMember(k: seq<byte>, b: seq<byte>)
    ensures Separator(true) + (k + COLON_SPACE) + b == k + COLON_SPACE + b
  {
  }

  lemma TruncatedSplit(js: seq<Json>, n: nat)
    requires n <= |js|
    ensures TruncatedAll(js[0..n]) + TruncatedAll(js[n..]) == TruncatedAll(js)
  {
    hide TruncatedAll, Truncated;
    var a, b, c := TruncatedAll(js[0..n]), TruncatedAll(js[n..]), TruncatedAll(js);
    forall i | 0 <= i < |js| ensures (a + b)[i] == c[i] {
      if i >= n {
        assert js[n..][i - n] == js[i];
        assert b[i - n] == Truncated(js[n..][i - n]);
      } else {
        assert a[i] == Truncated(js[0..n][i]);
      }
    }
  }

  lemma TruncatedTail(js: seq<Json>, i: nat)
    requires i < |js|
    ensures TruncatedAll(js[i..]) == [Truncated(js[i])] + TruncatedAll(js[i + 1..])
    ensures i + 1 == |js| ==> TruncatedAll(js[i..]) == [Truncated(js[i])]
  {
    assert js[i..][1..] == js[i + 1..];
  }

  lemma TruncatedFirst(js: seq<Json>, i: nat, n: nat)
    requires i < n <= |js|
    ensures TruncatedAll(js[i..n]) == [Truncated(js[i])] + TruncatedAll(js[i + 1..n])
    ensures i + 1 == n ==> TruncatedAll(js[i..n]) == [Truncated(js[i])]
  {
    assert js[i..n][1..] == js[i + 1..n];
  }

  /** From element `i` on, the separator in front of it already read. */
  lemma {:induction false} ElementsRead(kids: seq<Json>, i: nat, t: seq<byte>)
    requires i < |kids| && forall k :: k in kids ==> WellFormed(k) && NumberFree(k)
    ensures ReadElements(Render(kids[i]) + (RenderElements(kids, i + 1) + ([93] + t)))
         == Got(TruncatedAll(kids[i..]), t)
    decreases kids, |kids| - i
  {
    hide ReadValue, ReadElements, Render, TruncatedAll;
    var rest := RenderElements(kids, i + 1) + ([93] + t);
    ValueReads(kids[i], rest);
    TruncatedTail(kids, i);
    if i + 1 == |kids| {
      assert rest == [93] + t;
      LastElementStep(Render(kids[i]) + rest, Truncated(kids[i]), t);
    } else {
      ElementsRead(kids, i + 1, t);
      var next := Render(kids[i + 1]) + (RenderElements(kids, i + 2) + ([93] + t));
      NextText(Render(kids[i + 1]), RenderElements(kids, i + 2), [93] + t);
      SpaceSkipped(next);
      ElementsStep(Render(kids[i]) + rest, Truncated(kids[i]), [32] + next, TruncatedAll(kids[i + 1..]), t);
    }
  }

  lemma PairText(kids: seq<Json>, i: nat, end: seq<byte>) returns (next: seq<byte>)
    requires 0 < i < |kids| / 2
    ensures next == (Render(kids[i]) + COLON_SPACE) + (Render(kids[i + |kids| / 2]) + RenderPairs(kids, i + 1)) + end
    ensures RenderPairs(kids, i) + end == [44] + ([32] + next)
  {
    var k, b := Render(kids[i]) + COLON_SPACE, Render(kids[i + |kids| / 2]) + RenderPairs(kids, i + 1);
    NextText(k, b, end);
    assert k + (b + end) == k + b + end;
    next := k + b + end;
  }

  lemma NoPairs(kids: seq<Json>, end: seq<byte>)
    ensures RenderPairs(kids, |kids| / 2) + end == end
  {
  }

  /** From pair `i` on, likewise. */
  lemma {:induction false} MembersRead(kids: seq<Json>, i: nat, t: seq<byte>)
    requires i < |kids| / 2 && |kids| % 2 == 0 && forall k :: k in kids ==> WellFormed(k) && NumberFree(k)
    requires forall m :: 0 <= m < |kids| / 2 ==> kids[m].String?
    ensures var n := |kids| / 2;
      ReadMembers((Render(kids[i]) + COLON_SPACE) + (Render(kids[i + n]) + RenderPairs(kids, i + 1)) + ([125] + t))
      == Got((TruncatedAll(kids[i..n]), TruncatedAll(kids[i + n..])), t)
    decreases kids, |kids| / 2 - i
  {
    hide ReadValue, ReadMembers, ReadKey, Render, RenderPairs, TruncatedAll, UntilZero, WellFormed, NumberFree;
    var n := |kids| / 2;
    var k, v, more, end := kids[i], kids[i + n], RenderPairs(kids, i + 1), [125] + t;
    var text := (Render(k) + COLON_SPACE) + (Render(v) + more) + end;
    assert v in kids;
    ValueReads(v, more + end);
    var after := MemberHead(k, v, more, end);
    TruncatedFirst(kids, i, n);
    TruncatedTail(kids, i + n);
    assert kids[i + 1 + n..] == kids[i + n + 1..];
    if i + 1 == n {
      NoPairs(kids, end);
      LastMemberStep(text, UntilZero(k.s), after, Truncated(v), t);
    } else {
      MembersRead(kids, i + 1, t);
      var next := PairText(kids, i + 1, end);
      SpaceSkipped(next);
      MembersStep(text, UntilZero(k.s), after, Truncated(v), [32] + next,
                  TruncatedAll(kids[i + 1..n]), TruncatedAll(kids[i + 1 + n..]), t);
    }
  }

  /** The key and the value of a pair are read in front of the pairs behind it. */
  lemma MemberHead(k: Json, v: Json, more: seq<byte>, end: seq<byte>) returns (after: seq<byte>)
    requires k.String? && ReadValue(Render(v) + (more + end)) == Got(Truncated(v), more + end)
    ensures ReadKey((Render(k) + COLON_SPACE) + (Render(v) + more) + end) == Got(UntilZero(k.s), after)
    ensures ReadValue(after) == Got(Truncated(v), more + end)
  {
    hide ReadValue, ReadKey, Render, Truncated, UntilZero;
    after := [32] + (Render(v) + (more + end));
    MemberText(Render(k), Render(v), more, end);
    KeyReads(k, after);
    SpaceSkipped(Render(v) + (more + end));
  }

  /** Reading a printed number-free document gives it back, its strings cut at their first zero byte. */
  lemma DocumentReads(j: Json)
    requires j.IsContainer() && Document(j) && NumberFree(j)
    ensures ReadDocument(Render(j)) == Some(Truncated(j))
  {
    if j.Array? && j.rawScalar {
      var k := j.kids[0];
      assert k in j.kids && RenderElements(j.kids, 1) == [];
      ScalarReads(k, []);
      assert Render(k) == RenderScalar(k);
      assert Render(j) == RenderElements(j.kids, 0) == Separator(true) + Render(k) + [];
      assert Render(j) == RenderScalar(k) + [];
      assert TruncatedAll(j.kids) == [Truncated(k)];
    } else {
      ValueReads(j, []);
      assert Render(j) + [] == Render(j);
    }
  }

  /** No string holds a zero byte. */
  ghost predicate ZeroFree(j: Json) {
    match j
    case String(s) => 0 !in s
    case Array(kids, _) => forall k :: k in kids ==> ZeroFree(k)
    case Object(kids) => forall k :: k in kids ==> ZeroFree(k)
    case _ => true
  }

  lemma {:induction false} TruncatedSame(j: Json)
    ensures Truncated(j) == j <==> ZeroFree(j)
  {
    match j
    case String(s) => if 0 !in s { UntilZeroIs(s, |s|); }
    case Array(kids, _) => forall k | k in kids { TruncatedSame(k); } TruncatedAllSame(kids);
    case Object(kids) => forall k | k in kids { TruncatedSame(k); } TruncatedAllSame(kids);
    case _ =>
  }

  lemma {:induction false} TruncatedAllSame(js: seq<Json>)
    ensures TruncatedAll(js) == js <==> forall j :: j in js ==> Truncated(j) == j
    decreases |js|
  {
    if js == [] {
    } else {
      hide Truncated;
      var first, rest := js[0], js[1..];
      TruncatedAllSame(rest);
      assert js == [first] + rest && TruncatedAll(js) == [Truncated(first)] + TruncatedAll(rest);
      assert TruncatedAll(js)[1..] == TruncatedAll(rest);
    }
  }

  /** A reader gives the document back exactly when it holds no number and no zero byte. */
  lemma PrintedTextFaithful(j: Json)
    requires j.IsContainer() && Document(j)
    ensures ReadDocument(Render(j)) == Some(j) <==> NumberFree(j) && ZeroFree(j)
  {
    TruncatedSame(j);
    if NumberFree(j) { DocumentReads(j); }
  }
}
