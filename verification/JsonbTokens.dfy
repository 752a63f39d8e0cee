/** The token stream of a document, defined on the tree; what the iterator has to deliver. */
module JsonbTokens {
  import opened JsonbFormat

  datatype Token =
    | BeginArray(raw: bool)
    | EndArray
    | BeginObject
    | EndObject
    | Key(k: Json)
    | Value(v: Json)
    | Elem(v: Json)

  ghost function Tokens(j: Json): (r: seq<Token>)
    requires j.IsContainer()
    ensures |r| >= 2 && r[0] == if j.Array? then BeginArray(j.rawScalar) else BeginObject
    decreases j
  {
    if j.Array? then [BeginArray(j.rawScalar)] + Elements(j.kids, 0) + [EndArray]
    else [BeginObject] + Pairs(j.kids, 0) + [EndObject]
  }

  /** The elements of an array from index `i` on. */
  ghost function Elements(kids: seq<Json>, i: nat): seq<Token>
    requires i <= |kids|
    decreases kids, |kids| - i
  {
    if i == |kids| then []
    else (if kids[i].IsContainer() then Tokens(kids[i]) else [Elem(kids[i])]) + Elements(kids, i + 1)
  }

  /** The pairs of an object from pair `i` on. */
  ghost function Pairs(kids: seq<Json>, i: nat): seq<Token>
    requires i <= |kids| / 2
    decreases kids, |kids| / 2 - i, 1
  {
    if i == |kids| / 2 then [] else [Key(kids[i])] + FromValue(kids, i)
  }

  /** The same, the key of pair `i` already delivered. */
  ghost function FromValue(kids: seq<Json>, i: nat): seq<Token>
    requires i < |kids| / 2
    decreases kids, |kids| / 2 - i, 0
  {
    var v := kids[i + |kids| / 2];
    (if v.IsContainer() then Tokens(v) else [Value(v)]) + Pairs(kids, i + 1)
  }

  lemma FromValueSplit(kids: seq<Json>, i: nat)
    requires i < |kids| / 2
    ensures var v := kids[i + |kids| / 2];
      FromValue(kids, i) + [EndObject]
        == (if v.IsContainer() then Tokens(v) else [Value(v)]) + (Pairs(kids, i + 1) + [EndObject])
  {
  }

  /** How a token moves the nesting depth. */
  function Step(t: Token): int {
    match t
    case BeginArray(_) => 1
    case BeginObject => 1
    case EndArray => -1
    case EndObject => -1
    case _ => 0
  }

  /** The nesting depth after `ts`, started at `d`. */
  ghost function DepthAfter(ts: seq<Token>, d: int): int {
    if ts == [] then d else DepthAfter(ts[1..], d + Step(ts[0]))
  }

  /** On the way through `ts`, started at `d`, the depth stays at `floor` or above. */
  ghost predicate NeverBelow(ts: seq<Token>, d: int, floor: int) {
    ts == [] || (d + Step(ts[0]) >= floor && NeverBelow(ts[1..], d + Step(ts[0]), floor))
  }

  lemma {:induction false} DepthConcat(a: seq<Token>, b: seq<Token>, d: int, floor: int)
    ensures DepthAfter(a + b, d) == DepthAfter(b, DepthAfter(a, d))
    ensures NeverBelow(a + b, d, floor) == (NeverBelow(a, d, floor) && NeverBelow(b, DepthAfter(a, d), floor))
    decreases |a|
  {
    if a == [] {
      assert a + b == b;
    } else {
      assert (a + b)[1..] == a[1..] + b;
      DepthConcat(a[1..], b, d + Step(a[0]), floor);
    }
  }

  lemma {:induction false} NeverBelowLower(ts: seq<Token>, d: int, floor: int, floor': int)
    requires NeverBelow(ts, d, floor) && floor' <= floor
    ensures NeverBelow(ts, d, floor')
    decreases |ts|
  {
    if ts == [] {
    } else {
      NeverBelowLower(ts[1..], d + Step(ts[0]), floor, floor');
    }
  }

  /** The stream of a container is well bracketed: it returns to its depth, never going below it. */
  lemma {:induction false} TokensBracketed(j: Json, d: int)
    requires j.IsContainer()
    ensures DepthAfter(Tokens(j), d) == d && NeverBelow(Tokens(j), d, d)
    decreases j, 1
  {
    var inner := if j.Array? then Elements(j.kids, 0) else Pairs(j.kids, 0);
    var first, last := Tokens(j)[0], if j.Array? then EndArray else EndObject;
    if j.Array? { ElementsBracketed(j.kids, 0, d + 1); } else { PairsBracketed(j.kids, 0, d + 1); }
    NeverBelowLower(inner, d + 1, d + 1, d);
    DepthConcat(inner, [last], d + 1, d);
    DepthConcat([first], inner + [last], d, d);
    assert Tokens(j) == [first] + (inner + [last]);
    assert DepthAfter([first], d) == d + 1 && NeverBelow([first], d, d);
    assert DepthAfter([last], d + 1) == d && NeverBelow([last], d + 1, d);
  }

  lemma {:induction false} ElementsBracketed(kids: seq<Json>, i: nat, d: int)
    requires i <= |kids|
    ensures DepthAfter(Elements(kids, i), d) == d && NeverBelow(Elements(kids, i), d, d)
    decreases kids, |kids| - i
  {
    if i == |kids| {
    } else {
      if kids[i].IsContainer() { TokensBracketed(kids[i], d); }
      ElementsBracketed(kids, i + 1, d);
      DepthConcat(if kids[i].IsContainer() then Tokens(kids[i]) else [Elem(kids[i])], Elements(kids, i + 1), d, d);
      assert DepthAfter([Elem(kids[i])], d) == d && NeverBelow([Elem(kids[i])], d, d);
    }
  }

  lemma {:induction false} PairsBracketed(kids: seq<Json>, i: nat, d: int)
    requires i <= |kids| / 2
    ensures DepthAfter(Pairs(kids, i), d) == d && NeverBelow(Pairs(kids, i), d, d)
    decreases kids, |kids| / 2 - i
  {
    if i == |kids| / 2 {
    } else {
      var v := kids[i + |kids| / 2];
      if v.IsContainer() { TokensBracketed(v, d); }
      PairsBracketed(kids, i + 1, d);
      DepthConcat(if v.IsContainer() then Tokens(v) else [Value(v)], Pairs(kids, i + 1), d, d);
      assert DepthAfter([Value(v)], d) == d && NeverBelow([Value(v)], d, d);
      DepthConcat([Key(kids[i])], FromValue(kids, i), d, d);
      assert DepthAfter([Key(kids[i])], d) == d && NeverBelow([Key(kids[i])], d, d);
    }
  }

  // ---------------------------------------------------------------- keys and their values

  ghost predicate Answers(t: Token) {
    t.Value? || t.BeginArray? || t.BeginObject?
  }

  /** Every key is followed at once by its value, or by the start of it. */
  ghost predicate KeysAnswered(ts: seq<Token>) {
    ts == [] || ((ts[0].Key? ==> |ts| > 1 && Answers(ts[1])) && KeysAnswered(ts[1..]))
  }

  lemma {:induction false} KeysAnsweredConcat(a: seq<Token>, b: seq<Token>)
    requires KeysAnswered(a) && KeysAnswered(b)
    ensures KeysAnswered(a + b)
    decreases |a|
  {
    if a == [] {
      assert a + b == b;
    } else {
      assert (a + b)[1..] == a[1..] + b;
      KeysAnsweredConcat(a[1..], b);
    }
  }

  lemma {:induction false} TokensAnswered(j: Json)
    requires j.IsContainer()
    ensures KeysAnswered(Tokens(j))
    decreases j, 1
  {
    var inner := if j.Array? then Elements(j.kids, 0) else Pairs(j.kids, 0);
    var first, last := Tokens(j)[0], if j.Array? then EndArray else EndObject;
    if j.Array? { ElementsAnswered(j.kids, 0); } else { PairsAnswered(j.kids, 0); }
    assert KeysAnswered([first]) && KeysAnswered([last]);
    KeysAnsweredConcat([first], inner);
    KeysAnsweredConcat([first] + inner, [last]);
  }

  lemma {:induction false} ElementsAnswered(kids: seq<Json>, i: nat)
    requires i <= |kids|
    ensures KeysAnswered(Elements(kids, i))
    decreases kids, |kids| - i
  {
    if i == |kids| {
    } else {
      var head := if kids[i].IsContainer() then Tokens(kids[i]) else [Elem(kids[i])];
      if kids[i].IsContainer() { TokensAnswered(kids[i]); }
      ElementsAnswered(kids, i + 1);
      assert KeysAnswered(head);
      KeysAnsweredConcat(head, Elements(kids, i + 1));
    }
  }

  lemma {:induction false} PairsAnswered(kids: seq<Json>, i: nat)
    requires i <= |kids| / 2
    ensures KeysAnswered(Pairs(kids, i))
    decreases kids, |kids| / 2 - i
  {
    if i == |kids| / 2 {
    } else {
      var v := kids[i + |kids| / 2];
      var head := if v.IsContainer() then Tokens(v) else [Value(v)];
      if v.IsContainer() { TokensAnswered(v); }
      PairsAnswered(kids, i + 1);
      assert KeysAnswered(head);
      KeysAnsweredConcat(head, Pairs(kids, i + 1));
      assert FromValue(kids, i)[0] == head[0];
    }
  }
}
