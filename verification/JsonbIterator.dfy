/** JsonbIteratorNext and its helpers (pg_string.c): the explicit-stack walk over a packed document. */
module JsonbIterators {
  import opened Base
  import opened JsonbFormat
  import opened JsonbTokens

  datatype IterState = ArrayStart | ArrayElem | ObjectStart | ObjectKey | ObjectValue

  datatype TokenType =
    | WjbDone | WjbKey | WjbValue | WjbElem | WjbBeginArray | WjbEndArray | WjbBeginObject | WjbEndObject

  /** The C union; pointers are offsets into the document's bytes. */
  datatype JsonbValue =
    | JvNull
    | JvString(val: nat, len: nat)
    | JvNumeric(numeric: nat)
    | JvBool(boolean: bool)
    | JvArray(nElems: nat, rawScalar: bool)
    | JvObject(nPairs: nat)
    | JvBinary(data: nat, blen: nat)
  {
    predicate IsScalar() { JvNull? || JvString? || JvNumeric? || JvBool? }
  }

  /** `v` is the C form of the scalar `j`. */
  ghost predicate ScalarIs(buf: seq<byte>, v: JsonbValue, j: Json) {
    match j
    case Null => v == JvNull
    case Bool(b) => v == JvBool(b)
    case String(s) => v.JvString? && v.val + v.len <= |buf| && buf[v.val..v.val + v.len] == s
    case Numeric(raw) => v.JvNumeric? && v.numeric + |raw| <= |buf| && buf[v.numeric..v.numeric + |raw|] == raw
    case _ => false
  }

  /** `v` is the C form of a child: a scalar, or a reference to a whole container. */
  ghost predicate ValueIs(buf: seq<byte>, v: JsonbValue, j: Json) {
    if v.JvBinary? then j.IsContainer() && Document(j) && Packed(buf, v.data, j) && v.blen == Size(j)
    else ScalarIs(buf, v, j)
  }

  /** The returned pair (`t`, `v`) stands for the token `tok`. */
  ghost predicate Denotes(buf: seq<byte>, t: TokenType, v: JsonbValue, tok: Token) {
    match tok
    case BeginArray(raw) => t == WjbBeginArray && v.JvArray? && v.rawScalar == raw
    case EndArray => t == WjbEndArray
    case BeginObject => t == WjbBeginObject
    case EndObject => t == WjbEndObject
    case Key(k) => t == WjbKey && k.String? && ScalarIs(buf, v, k)
    case Value(j) => t == WjbValue && ScalarIs(buf, v, j)
    case Elem(j) => t == WjbElem && ScalarIs(buf, v, j)
  }

  lemma ChildValue(buf: seq<byte>, v: JsonbValue, kid: Json)
    requires ValueIs(buf, v, kid) && (v.JvBinary? || v.IsScalar())
    ensures v.JvBinary? == kid.IsContainer()
    ensures v.IsScalar() ==> Denotes(buf, WjbElem, v, Elem(kid)) && Denotes(buf, WjbValue, v, Value(kid))
    ensures Step(Elem(kid)) == 0 == Step(Value(kid))
  {
  }

  class JsonbIterator {
    var container: nat
    var nElems: nat
    var isScalar: bool
    var dataProper: nat
    var curIndex: nat
    var curDataOffset: nat
    var curValueOffset: nat
    var state: IterState
    var parent: JsonbIterator?
    ghost var tree: Json
    ghost var above: seq<Token>     // what the parents deliver once this iterator is done

    /** The iterator stands somewhere in the walk of `tree`, and its running offsets are right. */
    ghost predicate Valid(buf: seq<byte>)
      reads this
    {
      && tree.IsContainer() && Document(tree) && Packed(buf, container, tree)
      && nElems == tree.Count()
      && isScalar == (tree.Array? && tree.rawScalar)
      && dataProper == container + 4 + 4 * |tree.kids|
      && tree.Array? == (state.ArrayStart? || state.ArrayElem?)
      && (state.ArrayElem? ==> curIndex <= nElems && curDataOffset == Offset(tree.kids, curIndex))
      && (state.ObjectKey? || state.ObjectValue? ==>
            && curIndex <= nElems
            && curDataOffset == Offset(tree.kids, curIndex)
            && curValueOffset == Offset(tree.kids, curIndex + nElems))
      && (state.ObjectValue? ==> curIndex < nElems)
    }

    predicate AtStart()
      reads this
    {
      state.ArrayStart? || state.ObjectStart?
    }

    /** The tokens this iterator alone still has to deliver. */
    ghost function Remaining(buf: seq<byte>): seq<Token>
      reads this
      requires Valid(buf)
    {
      match state
      case ArrayElem => Elements(tree.kids, curIndex) + [EndArray]
      case ObjectKey => Pairs(tree.kids, curIndex) + [EndObject]
      case ObjectValue => FromValue(tree.kids, curIndex) + [EndObject]
      case _ => Tokens(tree)
    }

    /** JBI_ARRAY_START and JBI_OBJECT_START */
    method Begin(buf: seq<byte>) returns (t: TokenType, v: JsonbValue, ghost tok: Token)
      requires Valid(buf) && AtStart()
      modifies this
      ensures Valid(buf) && !AtStart() && tree == old(tree) && parent == old(parent) && above == old(above)
      ensures Denotes(buf, t, v, tok) && t != WjbDone && Step(tok) == 1
      ensures old(Remaining(buf)) == [tok] + Remaining(buf)
      ensures tree.Array? ==> curValueOffset == 0
    {
      curIndex, curDataOffset := 0, 0;
      if state.ArrayStart? {
        v := JvArray(nElems, isScalar);
        curValueOffset := 0;
        state := ArrayElem;
        t, tok := WjbBeginArray, BeginArray(tree.rawScalar);
      } else {
        v := JvObject(nElems);
        curValueOffset := GetJsonbOffset(buf, container, tree, nElems);
        state := ObjectKey;
        t, tok := WjbBeginObject, BeginObject;
      }
    }

    /** JBI_ARRAY_ELEM with an element left */
    method TakeElement(buf: seq<byte>) returns (v: JsonbValue, ghost kid: Json)
      requires Valid(buf) && state.ArrayElem? && curIndex < nElems
      modifies this
      ensures Valid(buf) && state.ArrayElem? && tree == old(tree) && parent == old(parent) && above == old(above)
      ensures ValueIs(buf, v, kid) && (v.JvBinary? || v.IsScalar())
      ensures old(Remaining(buf)) == (if kid.IsContainer() then Tokens(kid) else [Elem(kid)]) + Remaining(buf)
    {
      hide Packed, Document, ValueIs, KidLength, Offset;
      PackedEntries(buf, container, tree);
      v := Fill(buf, curIndex, curDataOffset);
      kid := tree.kids[curIndex];
      curDataOffset := AdvanceOffset(buf, container, tree, curIndex, curDataOffset);
      curIndex := curIndex + 1;
    }

    /** JBI_OBJECT_KEY with a pair left */
    method TakeKey(buf: seq<byte>) returns (v: JsonbValue, ghost tok: Token)
      requires Valid(buf) && state.ObjectKey? && curIndex < nElems
      modifies this
      ensures Valid(buf) && state.ObjectValue? && tree == old(tree) && parent == old(parent) && above == old(above)
      ensures Denotes(buf, WjbKey, v, tok) && Step(tok) == 0
      ensures old(Remaining(buf)) == [tok] + Remaining(buf)
    {
      v := Fill(buf, curIndex, curDataOffset);
      state := ObjectValue;
      tok := Key(tree.kids[curIndex]);
    }

    /** JBI_OBJECT_VALUE */
    method TakeValue(buf: seq<byte>) returns (v: JsonbValue, ghost kid: Json)
      requires Valid(buf) && state.ObjectValue?
      modifies this
      ensures Valid(buf) && state.ObjectKey? && tree == old(tree) && parent == old(parent) && above == old(above)
      ensures ValueIs(buf, v, kid) && (v.JvBinary? || v.IsScalar())
      ensures old(Remaining(buf)) == (if kid.IsContainer() then Tokens(kid) else [Value(kid)]) + Remaining(buf)
    {
      hide Packed, Document, ValueIs, KidLength, Offset;
      PackedEntries(buf, container, tree);
      ghost var i := curIndex;
      assert Remaining(buf) == FromValue(tree.kids, i) + [EndObject];
      FromValueSplit(tree.kids, i);
      state := ObjectKey;
      v := Fill(buf, curIndex + nElems, curValueOffset);
      kid := tree.kids[i + nElems];
      curDataOffset := AdvanceOffset(buf, container, tree, curIndex, curDataOffset);
      curValueOffset := AdvanceOffset(buf, container, tree, curIndex + nElems, curValueOffset);
      curIndex := curIndex + 1;
      assert Offset(tree.kids, curIndex + nElems) == Offset(tree.kids, i + nElems + 1);
      assert Remaining(buf) == Pairs(tree.kids, i + 1) + [EndObject];
    }

    method TakeChild(buf: seq<byte>) returns (t: TokenType, v: JsonbValue, ghost kid: Json, ghost tok: Token)
      requires Valid(buf) && (state.ObjectValue? || (state.ArrayElem? && curIndex < nElems))
      modifies this
      ensures Valid(buf) && !AtStart() && parent == old(parent) && above == old(above)
      ensures v.IsScalar() ==> Denotes(buf, t, v, tok) && t != WjbDone && Step(tok) == 0
      ensures !v.IsScalar() ==> v.JvBinary? && ValueIs(buf, v, kid)
      ensures old(Remaining(buf)) == (if v.IsScalar() then [tok] else Tokens(kid)) + Remaining(buf)
    {
      hide Valid, Remaining, ValueIs, Denotes, Step, Tokens;
      if state.ArrayElem? {
        v, kid := TakeElement(buf);
        t, tok := WjbElem, Elem(kid);
      } else {
        v, kid := TakeValue(buf);
        t, tok := WjbValue, Value(kid);
      }
      ChildValue(buf, v, kid);
    }

    method Fill(buf: seq<byte>, index: nat, offset: nat) returns (v: JsonbValue)
      requires tree.IsContainer() && Document(tree) && Packed(buf, container, tree) && index < |tree.kids|
      requires dataProper == container + 4 + 4 * |tree.kids| && offset == Offset(tree.kids, index)
      ensures ValueIs(buf, v, tree.kids[index]) && (v.JvBinary? || v.IsScalar())
    {
      PackedKid(buf, container, tree, index);
      CompoundKid(tree, index);
      v := FillJsonbValue(buf, container, tree, index, dataProper, offset);
    }
  }

  /** `stack` lists the parent chain from `it` upwards; all but the innermost have begun. */
  ghost predicate Chain(buf: seq<byte>, it: JsonbIterator?, stack: seq<JsonbIterator>)
    reads stack
  {
    if it == null then stack == []
    else
      && stack != [] && stack[0] == it
      && it !in stack[1..]
      && it.Valid(buf)
      && Chain(buf, it.parent, stack[1..])
      && it.above == Rest(buf, it.parent)
      && (it.parent != null ==> !it.parent.AtStart())
  }

  /** All tokens still to come. */
  ghost function Rest(buf: seq<byte>, it: JsonbIterator?): seq<Token>
    reads it
    requires it != null ==> it.Valid(buf)
  {
    if it == null then [] else it.Remaining(buf) + it.above
  }

  /** Containers entered and not left. */
  ghost function Depth(it: JsonbIterator?, stack: seq<JsonbIterator>): int
    reads it
  {
    if it != null && it.AtStart() then |stack| - 1 else |stack|
  }

  /** A fresh iterator in front of a chain that has begun. */
  lemma ChainPush(buf: seq<byte>, inner: JsonbIterator, it: JsonbIterator, stack: seq<JsonbIterator>)
    requires Chain(buf, it, stack) && !it.AtStart()
    requires inner.Valid(buf) && inner.parent == it && inner !in stack && inner.above == Rest(buf, it)
    ensures Chain(buf, inner, [inner] + stack)
  {
    assert ([inner] + stack)[1..] == stack;
  }

  lemma Assoc(a: seq<Token>, b: seq<Token>, c: seq<Token>)
    ensures a + b + c == a + (b + c)
  {
  }

  lemma CompoundKid(j: Json, i: nat)
    requires j.IsContainer() && Document(j) && i < |j.kids|
    ensures j.kids[i].IsContainer() ==> Document(j.kids[i])
  {
    if j.kids[i].IsContainer() {
      assert j.kids[i] in j.kids;
      assert WellFormed(j.kids[i]);
    }
  }

  /** fillJsonbValue: child `index` of the container at `c`. */
  method FillJsonbValue(buf: seq<byte>, c: nat, ghost j: Json, index: nat, base: nat, offset: nat)
    returns (v: JsonbValue)
    requires j.IsContainer() && EntriesFit(buf, c, j) && index < |j.kids|
    requires TypeField(Entry(buf, c, index)) == TypeTag(j.kids[index])
    requires KidPacked(buf, base, offset, j.kids[index]) && offset == Offset(j.kids, index)
    requires j.kids[index].IsContainer() ==> Document(j.kids[index])
    ensures ValueIs(buf, v, j.kids[index]) && (v.JvBinary? || v.IsScalar())
  {
    var tag := TypeField(Entry(buf, c, index));
    if tag == 4 {
      v := JvNull;
    } else if tag == 0 {
      var len := GetJsonbLength(buf, c, j, index);
      v := JvString(base + offset, len);
    } else if tag == 1 {
      v := JvNumeric(base + IntAlign(offset));
    } else if tag == 3 {
      v := JvBool(true);
    } else if tag == 2 {
      v := JvBool(false);
    } else {
      var len := GetJsonbLength(buf, c, j, index);
      v := JvBinary(base + IntAlign(offset), len - (IntAlign(offset) - offset));
    }
  }

  /** iteratorFromContainer.  The C code leaves `state` unset for a header that is neither an array's
      nor an object's; a packed document has no such header. */
  method IteratorFromContainer(buf: seq<byte>, c: nat, parent: JsonbIterator?, ghost j: Json)
    returns (it: JsonbIterator)
    requires j.IsContainer() && Document(j) && Packed(buf, c, j)
    requires parent != null ==> parent.Valid(buf)
    ensures fresh(it) && it.Valid(buf) && it.tree == j && it.parent == parent && it.AtStart()
    ensures it.above == Rest(buf, parent)
  {
    it := new JsonbIterator;
    it.tree := j;
    it.container := c;
    it.parent, it.above := parent, Rest(buf, parent);
    var header := Load32(buf, c);
    HeaderFields(j);
    it.nElems := header % 0x1000_0000;
    it.isScalar := false;
    if header / 0x2000_0000 % 4 == 2 {
      it.dataProper := c + 4 + it.nElems * 4;
      it.isScalar := header / 0x1000_0000 % 2 == 1;
      it.state := ArrayStart;
    } else {
      it.dataProper := c + 4 + it.nElems * 4 * 2;
      it.state := ObjectStart;
    }
  }

  /** One call has delivered `tok`: it was the first of the tokens still to come, the others remain, and
      the parent chain is as long as the nesting depth. */
  twostate predicate Delivered(buf: seq<byte>, it: JsonbIterator, stack: seq<JsonbIterator>,
                               new it': JsonbIterator?, new stack': seq<JsonbIterator>,
                               t: TokenType, v: JsonbValue, tok: Token)
    reads stack, stack'
    requires old(Chain(buf, it, stack))
  {
    && Chain(buf, it', stack')
    && (it' != null ==> !it'.AtStart())
    && t != WjbDone && Denotes(buf, t, v, tok)
    && old(Rest(buf, it)) == [tok] + Rest(buf, it')
    && Depth(it', stack') == old(Depth(it, stack)) + Step(tok)
  }

  /** JsonbIteratorNext (skipNested false): the next token, and the iterator to go on with. */
  method JsonbIteratorNext(buf: seq<byte>, it: JsonbIterator?, ghost stack: seq<JsonbIterator>)
    returns (it': JsonbIterator?, t: TokenType, v: JsonbValue, ghost stack': seq<JsonbIterator>, ghost tok: Token)
    requires Chain(buf, it, stack)
    modifies it
    ensures it == null ==> t == WjbDone && it' == null && stack' == []
    ensures it != null ==> Delivered(buf, it, stack, it', stack', t, v, tok)
    ensures forall x :: x in stack' ==> x in stack || fresh(x)
  {
    hide JsonbIterator.Valid, JsonbIterator.Remaining, Denotes;
    v, stack', tok := JvNull, stack, EndArray;
    if it == null {
      return null, WjbDone, v, stack', tok;
    }
    it' := it;
    if it.AtStart() {
      t, v, tok := it.Begin(buf);
      Assoc([tok], it.Remaining(buf), it.above);
    } else if !it.state.ObjectValue? && it.curIndex >= it.nElems {
      it', t, stack', tok := NextEnd(buf, it, stack);
    } else if it.state.ObjectKey? {
      v, tok := it.TakeKey(buf);
      Assoc([tok], it.Remaining(buf), it.above);
      t := WjbKey;
    } else {
      it', t, v, stack', tok := NextChild(buf, it, stack);
    }
  }

  /** The end of a container: freeAndGetParent. */
  method NextEnd(buf: seq<byte>, it: JsonbIterator, ghost stack: seq<JsonbIterator>)
    returns (it': JsonbIterator?, t: TokenType, ghost stack': seq<JsonbIterator>, ghost tok: Token)
    requires Chain(buf, it, stack)
    requires (it.state.ArrayElem? || it.state.ObjectKey?) && it.curIndex >= it.nElems
    ensures Delivered(buf, it, stack, it', stack', t, JvNull, tok)
    ensures stack' == stack[1..]
  {
    hide JsonbIterator.Valid, JsonbIterator.Remaining, Tokens;
    tok := if it.state.ArrayElem? then EndArray else EndObject;
    OnlyEnd(buf, it);
    t := if it.state.ArrayElem? then WjbEndArray else WjbEndObject;
    it', stack' := it.parent, stack[1..];
  }

  lemma OnlyEnd(buf: seq<byte>, it: JsonbIterator)
    requires it.Valid(buf) && (it.state.ArrayElem? || it.state.ObjectKey?) && it.curIndex >= it.nElems
    ensures it.Remaining(buf) == [if it.state.ArrayElem? then EndArray else EndObject]
  {
    hide Packed, Document;
  }

  /** Pushes an iterator over the container at `c`.  It is at its start, so the C `goto recurse` runs its
      first step. */
  method EnterChild(buf: seq<byte>, c: nat, it: JsonbIterator, ghost stack: seq<JsonbIterator>, ghost kid: Json)
    returns (inner: JsonbIterator, t: TokenType, v: JsonbValue, ghost stack': seq<JsonbIterator>, ghost tok: Token)
    requires Chain(buf, it, stack) && !it.AtStart()
    requires kid.IsContainer() && Document(kid) && Packed(buf, c, kid)
    ensures Chain(buf, inner, stack') && stack' == [inner] + stack && fresh(inner) && !inner.AtStart()
    ensures t != WjbDone && Denotes(buf, t, v, tok) && Step(tok) == 1
    ensures Tokens(kid) + Rest(buf, it) == [tok] + Rest(buf, inner)
  {
    hide JsonbIterator.Valid, JsonbIterator.Remaining, Tokens, Denotes, Step;
    inner := IteratorFromContainer(buf, c, it, kid);
    AllRemaining(buf, inner);
    t, v, tok := inner.Begin(buf);
    Assoc([tok], inner.Remaining(buf), inner.above);
    ChainPush(buf, inner, it, stack);
    stack' := [inner] + stack;
  }

  lemma AllRemaining(buf: seq<byte>, it: JsonbIterator)
    requires it.Valid(buf) && it.AtStart()
    ensures it.Remaining(buf) == Tokens(it.tree)
  {
  }

  /** An array element or an object value: returned if it is a scalar, else entered. */
  method NextChild(buf: seq<byte>, it: JsonbIterator, ghost stack: seq<JsonbIterator>)
    returns (it': JsonbIterator?, t: TokenType, v: JsonbValue, ghost stack': seq<JsonbIterator>, ghost tok: Token)
    requires Chain(buf, it, stack)
    requires it.state.ObjectValue? || (it.state.ArrayElem? && it.curIndex < it.nElems)
    modifies it
    ensures Delivered(buf, it, stack, it', stack', t, v, tok)
    ensures forall x :: x in stack' ==> x in stack || fresh(x)
  {
    hide JsonbIterator.Valid, JsonbIterator.Remaining, Denotes;
    ghost var kid;
    t, v, kid, tok := it.TakeChild(buf);
    Assoc(if v.IsScalar() then [tok] else Tokens(kid), it.Remaining(buf), it.above);
    it', stack' := it, stack;
    if !v.IsScalar() {
      it', t, v, stack', tok := EnterChild(buf, v.data, it, stack, kid);
    }
  }
}
