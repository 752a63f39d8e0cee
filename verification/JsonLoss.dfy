/** What the printed text tells apart and what it loses. */
module JsonLoss {
  import opened Base
  import opened JsonbFormat
  import opened JsonbRender
  import opened JsonReader

  /** The documents that the printer writes in full. */
  ghost predicate Clean(j: Json) {
    NumberFree(j) && ZeroFree(j)
  }

  /** Two clean documents with the same text are the same document. */
  lemma CleanTextsDiffer(j: Json, k: Json)
    requires j.IsContainer() && Document(j) && Clean(j) && k.IsContainer() && Document(k) && Clean(k)
    ensures Render(j) == Render(k) ==> j == k
  {
    hide Document, Render, ReadDocument;
    PrintedTextFaithful(j);
    PrintedTextFaithful(k);
  }

  // ---------------------------------------------------------------- what is lost

  /** The document with one more byte in every number and behind the zero of every string that has one. */
  ghost function Altered(j: Json): Json
    decreases j
  {
    match j
    case String(s) => if 0 in s then String(s + [0]) else j
    case Numeric(raw) => Numeric(raw + [0])
    case Array(kids, raw) => Array(AlteredAll(kids), raw)
    case Object(kids) => Object(AlteredAll(kids))
    case _ => j
  }

  ghost function AlteredAll(js: seq<Json>): (r: seq<Json>)
    ensures |r| == |js| && forall i :: 0 <= i < |js| ==> r[i] == Altered(js[i])
    decreases js
  {
    if js == [] then [] else [Altered(js[0])] + AlteredAll(js[1..])
  }

  lemma SameToZero(s: seq<byte>)
    requires 0 in s
    ensures UntilZero(s + [0]) == UntilZero(s)
  {
    var u := UntilZero(s);
    assert s[|u|] == 0 by { ShorterToZero(s); }
    assert (s + [0])[..|u|] == u;
    UntilZeroIs(s + [0], |u|);
  }

  lemma ShorterToZero(s: seq<byte>)
    requires 0 in s
    ensures |UntilZero(s)| < |s| && s[|UntilZero(s)|] == 0
  {
    assert UntilZero(s) != s;
  }

  /** No text shows the change. */
  lemma {:induction false} AlteredRenders(j: Json)
    ensures Render(Altered(j)) == Render(j)
    decreases j, 1, 0
  {
    hide RenderElements, RenderPairs;
    match j
    case String(s) => if 0 in s { SameToZero(s); }
    case Array(kids, _) => AlteredElements(j, 0);
    case Object(kids) => AlteredPairs(j, 0);
    case _ =>
  }

  lemma {:induction false} AlteredElements(j: Json, i: nat)
    requires j.Array? && i <= |j.kids|
    ensures RenderElements(AlteredAll(j.kids), i) == RenderElements(j.kids, i)
    decreases j, 0, |j.kids| - i
  {
    hide Render, Altered;
    if i == |j.kids| {
    } else {
      AlteredRenders(j.kids[i]);
      AlteredElements(j, i + 1);
    }
  }

  lemma {:induction false} AlteredPairs(j: Json, i: nat)
    requires j.Object? && i <= |j.kids| / 2
    ensures RenderPairs(AlteredAll(j.kids), i) == RenderPairs(j.kids, i)
    decreases j, 0, |j.kids| - i
  {
    hide Render, Altered, AlteredAll, RenderPairs, Separator;
    var kids, others := j.kids, AlteredAll(j.kids);
    var n := |kids| / 2;
    if i == n {
      PairsEnd(kids);
      PairsEnd(others);
    } else {
      AlteredRenders(kids[i]);
      AlteredRenders(kids[i + n]);
      AlteredPairs(j, i + 1);
      PairsStep(kids, i);
      PairsStep(others, i);
      assert others[i] == Altered(kids[i]) && others[i + n] == Altered(kids[i + n]);
    }
  }

  lemma PairsEnd(kids: seq<Json>)
    ensures RenderPairs(kids, |kids| / 2) == []
  {
  }

  lemma PairsStep(kids: seq<Json>, i: nat)
    requires i < |kids| / 2
    ensures RenderPairs(kids, i) == Separator(i == 0) + (Render(kids[i]) + COLON_SPACE)
                                    + (Render(kids[i + |kids| / 2]) + RenderPairs(kids, i + 1))
  {
  }

  lemma {:induction false} AlteredWellFormed(j: Json)
    requires WellFormed(j)
    ensures WellFormed(Altered(j))
    decreases j
  {
    if !j.IsContainer() {
    } else {
      forall k | k in AlteredAll(j.kids) ensures WellFormed(k) {
        var i :| 0 <= i < |j.kids| && AlteredAll(j.kids)[i] == k;
        assert j.kids[i] in j.kids;
        AlteredWellFormed(j.kids[i]);
      }
    }
  }

  lemma AlteredDocument(j: Json)
    requires j.IsContainer() && Document(j)
    ensures Altered(j).IsContainer() && Document(Altered(j))
  {
    if j.Array? && j.rawScalar {
      assert AlteredAll(j.kids)[0] == Altered(j.kids[0]);
    } else {
      AlteredWellFormed(j);
    }
  }

  /** Only clean documents stay as they are. */
  lemma {:induction false} AlteredSame(j: Json)
    ensures Altered(j) == j <==> Clean(j)
    decreases j
  {
    hide AlteredAll, Clean;
    match j
    case Array(kids, _) =>
      forall k | k in kids ensures Altered(k) == k <==> Clean(k) { AlteredSame(k); }
      AlteredAllSame(kids);
      CleanKids(j);
    case Object(kids) =>
      forall k | k in kids ensures Altered(k) == k <==> Clean(k) { AlteredSame(k); }
      AlteredAllSame(kids);
      CleanKids(j);
    case _ => AlteredScalar(j);
  }

  lemma AlteredScalar(j: Json)
    requires !j.IsContainer()
    ensures Altered(j) == j <==> Clean(j)
  {
    match j
    case String(s) => Longer(s);
    case Numeric(raw) => Longer(raw);
    case _ =>
  }

  lemma Longer(s: seq<byte>)
    ensures s + [0] != s
  {
    assert |s + [0]| == |s| + 1;
  }

  lemma CleanKids(j: Json)
    requires j.IsContainer()
    ensures Clean(j) <==> forall k :: k in j.kids ==> Clean(k)
  {
  }

  lemma {:induction false} AlteredAllSame(js: seq<Json>)
    ensures AlteredAll(js) == js <==> forall j :: j in js ==> Altered(j) == j
    decreases |js|
  {
    if js == [] {
    } else {
      hide Altered;
      var first, rest := js[0], js[1..];
      AlteredAllSame(rest);
      assert js == [first] + rest && AlteredAll(js) == [Altered(first)] + AlteredAll(rest);
      assert AlteredAll(js)[1..] == AlteredAll(rest) && AlteredAll(js)[0] == Altered(first);
    }
  }

  /** Every document with a number or a zero byte shares its text with a different document. */
  lemma TextShared(j: Json)
    requires j.IsContainer() && Document(j) && !Clean(j)
    ensures exists k: Json :: k != j && k.IsContainer() && Document(k) && Render(k) == Render(j)
  {
    hide Document, Render, Altered, Clean;
    AlteredDocument(j);
    AlteredRenders(j);
    AlteredSame(j);
  }
}
