/** The comment form of a variable annotation for a (possibly nested) unpacking
    target, as PEP 484 writes it in its "Type comments" section:
    `a, (b, c) = ...  # type: (T1, (T2, T3))`.

    `generateNestedTypeHint` serialises the target pattern into a string builder
    and records, for every typed leaf, its type and the range of that type's
    text inside the builder. The builder is an `AnnotationBuilder` object here;
    `NestedHint` is the value it appends, and the lemmas below say what that
    value is: the text, one type per leaf, and ranges that locate each leaf's
    text, in increasing order. */
module TypeHint {
  import opened Util
  import opened Psi

  /** The host's type evaluator, taken as given: the inferred type of a node
      (None when inference yields nothing), the text of a type hint, and whether
      a type can be written in PEP 484 syntax (`checkPep484Compatibility`). */
  datatype Oracle = Oracle(infer: NodeId -> Option<PyType>, hint: PyType -> string, compatible: PyType -> bool)

  /** `getInferredTypeOrObject`: the inferred type, or `object` when there is none. */
  function GetInferredTypeOrObject(o: Oracle, n: Node): (t: PyType)
    ensures o.infer(n.id).None? ==> t == ObjectType
    ensures o.infer(n.id).Some? ==> t == o.infer(n.id).value
  {
    o.infer(n.id).GetOr(ObjectType)
  }

  /** What the builder holds: the text, and one type and one range per typed leaf. */
  datatype Hint = Hint(text: string, types: seq<PyType>, ranges: seq<TextRange>)

  const NoHint := Hint("", [], [])

  /** The payload handed to the host's insertion utilities: a whole-text
      annotation with its single type (the two-argument `AnnotationInfo`), or a
      nested hint with its per-leaf types and ranges. */
  datatype AnnotationInfo = Whole(text: string, wholeType: PyType) | Nested(hint: Hint)

  /** What the builder appends when it serialises `n` while holding `base`
      characters; None when some leaf's type is not PEP 484 compatible. */
  function NestedHint(n: Node, o: Oracle, base: nat): (r: Option<Hint>)
    ensures r.Some? ==> |r.value.types| == |r.value.ranges|
    ensures !IsTypedElement(n.kind) ==> r == Some(NoHint)
    decreases n, |n.children| + 1
  {
    match n.kind
    case ParenthesizedExpr =>
      if |n.children| > 0 then NestedHint(n.children[0], o, base) else Some(NoHint)
    case TupleExpr =>
      (match ElementsHint(n, o, base + 1, |n.children|)
       case None => None
       case Some(h) => Some(Hint("(" + h.text + ")", h.types, h.ranges)))
    case _ =>
      if IsTypedElement(n.kind) then
        var t := GetInferredTypeOrObject(o, n);
        if !o.compatible(t) then None
        else Some(Hint(o.hint(t), [t], [RangeFrom(base, |o.hint(t)|)]))
      else Some(NoHint)
  }

  /** The first `k` elements of the tuple `n`, separated by `", "`. */
  function ElementsHint(n: Node, o: Oracle, base: nat, k: nat): (r: Option<Hint>)
    requires k <= |n.children|
    ensures r.Some? ==> |r.value.types| == |r.value.ranges|
    decreases n, k
  {
    if k == 0 then Some(NoHint)
    else match ElementsHint(n, o, base, k - 1)
      case None => None
      case Some(h) =>
        var sep := Separator(k);
        match NestedHint(n.children[k - 1], o, base + |h.text| + |sep|)
        case None => None
        case Some(e) => Some(Hint(h.text + sep + e.text, h.types + e.types, h.ranges + e.ranges))
  }

  // ---------------------------------------------------------------------------
  // Reference definitions: the typed leaves of a pattern and its text, written
  // without offsets.

  /** The typed leaves of a target pattern, left to right: parentheses are
      looked through, tuples are flattened, anything else untyped has none. */
  function Leaves(n: Node): seq<Node>
    decreases n, |n.children| + 1
  {
    match n.kind
    case ParenthesizedExpr => if |n.children| > 0 then Leaves(n.children[0]) else []
    case TupleExpr => ElementLeaves(n, |n.children|)
    case _ => if IsTypedElement(n.kind) then [n] else []
  }

  function ElementLeaves(n: Node, k: nat): seq<Node>
    requires k <= |n.children|
    decreases n, k
  {
    if k == 0 then [] else ElementLeaves(n, k - 1) + Leaves(n.children[k - 1])
  }

  /** The hint text: a tuple is `"("` + its element texts joined by `", "` +
      `")"`, a typed leaf is its type's hint text. */
  function HintText(n: Node, o: Oracle): string
    decreases n, |n.children| + 1
  {
    match n.kind
    case ParenthesizedExpr => if |n.children| > 0 then HintText(n.children[0], o) else ""
    case TupleExpr => "(" + Join(ElementTexts(n, o, |n.children|), ", ") + ")"
    case _ => if IsTypedElement(n.kind) then o.hint(GetInferredTypeOrObject(o, n)) else ""
  }

  function ElementTexts(n: Node, o: Oracle, k: nat): (r: seq<string>)
    requires k <= |n.children|
    ensures |r| == k
    decreases n, k
  {
    if k == 0 then [] else ElementTexts(n, o, k - 1) + [HintText(n.children[k - 1], o)]
  }

  /** The ranges of `h` locate its types' texts inside its text, offset by
      `base`, and come in strictly increasing, non-overlapping order. */
  ghost predicate Locates(h: Hint, base: nat, o: Oracle) {
    && |h.types| == |h.ranges|
    && Shows(h, base, o)
    && Increasing(h.ranges)
  }

  /** Each range lies inside the text and spans its type's hint. */
  ghost predicate Shows(h: Hint, base: nat, o: Oracle)
    requires |h.types| == |h.ranges|
  {
    forall i :: 0 <= i < |h.ranges| ==>
      && base <= h.ranges[i].start <= h.ranges[i].end <= base + |h.text|
      && h.text[h.ranges[i].start - base .. h.ranges[i].end - base] == o.hint(h.types[i])
  }

  /** Every range ends before the next one starts. */
  ghost predicate Increasing(rs: seq<TextRange>) {
    forall i, j :: 0 <= i < j < |rs| ==> rs[i].end < rs[j].start
  }

  /** The whole property of a successful serialisation. */
  ghost predicate Serialises(h: Hint, n: Node, o: Oracle, base: nat) {
    && h.text == HintText(n, o)
    && |h.types| == |Leaves(n)|
    && (forall i :: 0 <= i < |h.types| ==> h.types[i] == GetInferredTypeOrObject(o, Leaves(n)[i]))
    && Locates(h, base, o)
  }

  ghost predicate AllCompatible(leaves: seq<Node>, o: Oracle) {
    forall i :: 0 <= i < |leaves| ==> o.compatible(GetInferredTypeOrObject(o, leaves[i]))
  }

  lemma SliceLeft(a: string, b: string, i: nat, j: nat)
    requires i <= j <= |a|
    ensures (a + b)[i..j] == a[i..j]
  {
  }

  lemma SliceRight(a: string, b: string, i: nat, j: nat)
    requires |a| <= i <= j <= |a| + |b|
    ensures (a + b)[i..j] == b[i - |a|..j - |a|]
  {
  }

  lemma LocatesConcat(h: Hint, sep: string, e: Hint, base: nat, o: Oracle)
    requires Locates(h, base, o)
    requires Locates(e, base + |h.text| + |sep|, o)
    requires h.ranges != [] && e.ranges != [] ==> |sep| > 0
    ensures Locates(Hint(h.text + sep + e.text, h.types + e.types, h.ranges + e.ranges), base, o)
  {
    ShowsConcat(h, sep, e, base, o);
    IncreasingConcat(h, sep, e, base, o);
  }

  lemma ShowsConcat(h: Hint, sep: string, e: Hint, base: nat, o: Oracle)
    requires Locates(h, base, o)
    requires Locates(e, base + |h.text| + |sep|, o)
    ensures Shows(Hint(h.text + sep + e.text, h.types + e.types, h.ranges + e.ranges), base, o)
  {
    var H := Hint(h.text + sep + e.text, h.types + e.types, h.ranges + e.ranges);
    forall i | 0 <= i < |H.ranges|
      ensures base <= H.ranges[i].start <= H.ranges[i].end <= base + |H.text|
      ensures H.text[H.ranges[i].start - base .. H.ranges[i].end - base] == o.hint(H.types[i])
    {
      ShowsConcatAt(h, sep, e, base, o, i);
    }
  }

  lemma ShowsConcatAt(h: Hint, sep: string, e: Hint, base: nat, o: Oracle, i: nat)
    requires Locates(h, base, o)
    requires Locates(e, base + |h.text| + |sep|, o)
    requires i < |h.ranges| + |e.ranges|
    ensures var r := (h.ranges + e.ranges)[i]; var text := h.text + sep + e.text;
      && base <= r.start <= r.end <= base + |text|
      && text[r.start - base .. r.end - base] == o.hint((h.types + e.types)[i])
  {
    var n := |h.ranges|;
    if i < n {
      assert (h.ranges + e.ranges)[i] == h.ranges[i] && (h.types + e.types)[i] == h.types[i];
      LocatedLeft(h, sep, e, base, o, i);
    } else {
      assert (h.ranges + e.ranges)[i] == e.ranges[i - n] && (h.types + e.types)[i] == e.types[i - n];
      LocatedRight(h, sep, e, base, o, i - n);
    }
  }

  lemma IncreasingConcat(h: Hint, sep: string, e: Hint, base: nat, o: Oracle)
    requires Locates(h, base, o)
    requires Locates(e, base + |h.text| + |sep|, o)
    requires h.ranges != [] && e.ranges != [] ==> |sep| > 0
    ensures Increasing(h.ranges + e.ranges)
  {
    var rs := h.ranges + e.ranges;
    var n := |h.ranges|;
    forall i, j | 0 <= i < j < |rs| ensures rs[i].end < rs[j].start {
      if j < n {
        assert rs[i] == h.ranges[i] && rs[j] == h.ranges[j];
      } else if i >= n {
        assert rs[i] == e.ranges[i - n] && rs[j] == e.ranges[j - n];
      } else {
        assert rs[i] == h.ranges[i] && rs[j] == e.ranges[j - n];
      }
    }
  }

  lemma LocatedLeft(h: Hint, sep: string, e: Hint, base: nat, o: Oracle, i: nat)
    requires Locates(h, base, o)
    requires i < |h.ranges|
    ensures var r := h.ranges[i];
      && base <= r.start <= r.end <= base + |h.text + sep + e.text|
      && (h.text + sep + e.text)[r.start - base .. r.end - base] == o.hint(h.types[i])
  {
    var r := h.ranges[i];
    assert h.text + sep + e.text == h.text + (sep + e.text);
    SliceLeft(h.text, sep + e.text, r.start - base, r.end - base);
  }

  lemma LocatedRight(h: Hint, sep: string, e: Hint, base: nat, o: Oracle, j: nat)
    requires Locates(e, base + |h.text| + |sep|, o)
    requires j < |e.ranges|
    ensures var r := e.ranges[j];
      && base <= r.start <= r.end <= base + |h.text + sep + e.text|
      && (h.text + sep + e.text)[r.start - base .. r.end - base] == o.hint(e.types[j])
  {
    var r := e.ranges[j];
    SliceRight(h.text + sep, e.text, r.start - base, r.end - base);
  }

  lemma LocatesWrap(h: Hint, base: nat, o: Oracle)
    requires Locates(h, base + 1, o)
    ensures Locates(Hint("(" + h.text + ")", h.types, h.ranges), base, o)
  {
    var t := "(" + h.text + ")";
    forall i | 0 <= i < |h.ranges|
      ensures t[h.ranges[i].start - base .. h.ranges[i].end - base] == o.hint(h.types[i])
    {
      WrapAt(h.text, h.ranges[i].start - (base + 1), h.ranges[i].end - (base + 1));
    }
  }

  lemma WrapAt(s: string, i: nat, j: nat)
    requires i <= j <= |s|
    ensures ("(" + s + ")")[i + 1..j + 1] == s[i..j]
  {
    SliceRight("(", s + ")", i + 1, j + 1);
    SliceLeft(s, ")", i, j);
    assert "(" + s + ")" == "(" + (s + ")");
  }

  /** Serialising a pattern succeeds exactly when every typed leaf's type is
      PEP 484 compatible, and then yields the pattern's hint text, one type per
      leaf in order, and ranges that locate each leaf's hint in that text. */
  lemma {:induction false} NestedHintCorrect(n: Node, o: Oracle, base: nat)
    ensures NestedHint(n, o, base).Some? <==> AllCompatible(Leaves(n), o)
    ensures NestedHint(n, o, base).Some? ==> Serialises(NestedHint(n, o, base).value, n, o, base)
    decreases n, |n.children| + 2
  {
    if n.kind.ParenthesizedExpr? {
      if |n.children| > 0 {
        NestedHintCorrect(n.children[0], o, base);
      }
    } else if n.kind.TupleExpr? {
      TupleHintCorrect(n, o, base);
    } else {
      LeafHintCorrect(n, o, base);
    }
  }

  lemma {:induction false} TupleHintCorrect(n: Node, o: Oracle, base: nat)
    requires n.kind.TupleExpr?
    ensures NestedHint(n, o, base).Some? <==> AllCompatible(Leaves(n), o)
    ensures NestedHint(n, o, base).Some? ==> Serialises(NestedHint(n, o, base).value, n, o, base)
    decreases n, |n.children| + 1
  {
    ElementsHintCorrect(n, o, base + 1, |n.children|);
    var r := ElementsHint(n, o, base + 1, |n.children|);
    if r.Some? {
      LocatesWrap(r.value, base, o);
    }
  }

  lemma LeafHintCorrect(n: Node, o: Oracle, base: nat)
    requires !n.kind.TupleExpr? && !n.kind.ParenthesizedExpr?
    ensures NestedHint(n, o, base).Some? <==> AllCompatible(Leaves(n), o)
    ensures NestedHint(n, o, base).Some? ==> Serialises(NestedHint(n, o, base).value, n, o, base)
  {
    if IsTypedElement(n.kind) {
      var t := GetInferredTypeOrObject(o, n);
      assert Leaves(n) == [n];
      assert GetInferredTypeOrObject(o, Leaves(n)[0]) == t;
      if o.compatible(t) {
        var h := NestedHint(n, o, base).value;
        assert h.text[h.ranges[0].start - base .. h.ranges[0].end - base] == h.text;
      }
    }
  }

  function Separator(k: nat): string {
    if k > 1 then ", " else ""
  }

  /** What holds of the first `k` elements of a tuple once serialised. */
  ghost predicate ElementsOk(h: Hint, n: Node, o: Oracle, base: nat, k: nat)
    requires k <= |n.children|
  {
    && h.text == Join(ElementTexts(n, o, k), ", ")
    && |h.types| == |ElementLeaves(n, k)|
    && (forall i :: 0 <= i < |h.types| ==> h.types[i] == GetInferredTypeOrObject(o, ElementLeaves(n, k)[i]))
    && Locates(h, base, o)
    && (k == 0 ==> h == NoHint)
  }

  lemma {:induction false} ElementsHintCorrect(n: Node, o: Oracle, base: nat, k: nat)
    requires k <= |n.children|
    ensures ElementsHint(n, o, base, k).Some? <==> AllCompatible(ElementLeaves(n, k), o)
    ensures ElementsHint(n, o, base, k).Some? ==> ElementsOk(ElementsHint(n, o, base, k).value, n, o, base, k)
    decreases n, k
  {
    if k > 0 {
      ElementsHintCorrect(n, o, base, k - 1);
      var prev := ElementsHint(n, o, base, k - 1);
      if prev.Some? {
        var h := prev.value;
        NestedHintCorrect(n.children[k - 1], o, base + |h.text| + |Separator(k)|);
        ElementsExtend(n, o, base, k, h);
      } else {
        IncompatibleAppend(ElementLeaves(n, k - 1), Leaves(n.children[k - 1]), o);
      }
    }
  }

  /** The induction step of `ElementsHintCorrect` once the first `k - 1`
      elements have serialised into `h`. */
  lemma ElementsExtend(n: Node, o: Oracle, base: nat, k: nat, h: Hint)
    requires 0 < k <= |n.children|
    requires ElementsHint(n, o, base, k - 1) == Some(h)
    requires AllCompatible(ElementLeaves(n, k - 1), o) && ElementsOk(h, n, o, base, k - 1)
    requires var b := base + |h.text| + |Separator(k)|;
      && (NestedHint(n.children[k - 1], o, b).Some? <==> AllCompatible(Leaves(n.children[k - 1]), o))
      && (NestedHint(n.children[k - 1], o, b).Some? ==> Serialises(NestedHint(n.children[k - 1], o, b).value, n.children[k - 1], o, b))
    ensures ElementsHint(n, o, base, k).Some? <==> AllCompatible(ElementLeaves(n, k), o)
    ensures ElementsHint(n, o, base, k).Some? ==> ElementsOk(ElementsHint(n, o, base, k).value, n, o, base, k)
  {
    var before := ElementLeaves(n, k - 1);
    var mine := Leaves(n.children[k - 1]);
    assert ElementLeaves(n, k) == before + mine;
    var cur := NestedHint(n.children[k - 1], o, base + |h.text| + |Separator(k)|);
    if cur.Some? {
      ElementsHintStep(n, o, base, k, h, cur.value);
      ElementsAppend(n, o, base, k, h, cur.value);
      CompatibleAppend(before, mine, o);
    } else {
      IncompatibleAppend(before, mine, o);
    }
  }

  lemma IncompatibleAppend(a: seq<Node>, b: seq<Node>, o: Oracle)
    requires !AllCompatible(a, o) || !AllCompatible(b, o)
    ensures !AllCompatible(a + b, o)
  {
    if !AllCompatible(a, o) {
      var j :| 0 <= j < |a| && !o.compatible(GetInferredTypeOrObject(o, a[j]));
      assert (a + b)[j] == a[j];
    } else {
      var j :| 0 <= j < |b| && !o.compatible(GetInferredTypeOrObject(o, b[j]));
      assert (a + b)[|a| + j] == b[j];
    }
  }

  lemma CompatibleAppend(a: seq<Node>, b: seq<Node>, o: Oracle)
    requires AllCompatible(a, o) && AllCompatible(b, o)
    ensures AllCompatible(a + b, o)
  {
    forall i | 0 <= i < |a + b| ensures o.compatible(GetInferredTypeOrObject(o, (a + b)[i])) {
      if i >= |a| {
        assert (a + b)[i] == b[i - |a|];
      } else {
        assert (a + b)[i] == a[i];
      }
    }
  }

  /** Appending the `k`-th element's hint `e` to the first `k - 1` elements' hint `h`. */
  lemma ElementsAppend(n: Node, o: Oracle, base: nat, k: nat, h: Hint, e: Hint)
    requires 0 < k <= |n.children|
    requires ElementsOk(h, n, o, base, k - 1)
    requires Serialises(e, n.children[k - 1], o, base + |h.text| + |Separator(k)|)
    ensures ElementsOk(Hint(h.text + Separator(k) + e.text, h.types + e.types, h.ranges + e.ranges), n, o, base, k)
  {
    var sep := Separator(k);
    LocatesConcat(h, sep, e, base, o);
    ElementsText(n, o, k, h.text, e.text);
    ElementsTypes(n, o, k, h.types, e.types);
  }

  lemma ElementsText(n: Node, o: Oracle, k: nat, ht: string, et: string)
    requires 0 < k <= |n.children|
    requires ht == Join(ElementTexts(n, o, k - 1), ", ")
    requires et == HintText(n.children[k - 1], o)
    ensures ht + Separator(k) + et == Join(ElementTexts(n, o, k), ", ")
  {
    var ts := ElementTexts(n, o, k);
    assert ts[..k - 1] == ElementTexts(n, o, k - 1);
    if k == 1 {
      assert ht + Separator(k) + et == et;
    }
  }

  lemma ElementsTypes(n: Node, o: Oracle, k: nat, hts: seq<PyType>, ets: seq<PyType>)
    requires 0 < k <= |n.children|
    requires |hts| == |ElementLeaves(n, k - 1)|
    requires forall i :: 0 <= i < |hts| ==> hts[i] == GetInferredTypeOrObject(o, ElementLeaves(n, k - 1)[i])
    requires |ets| == |Leaves(n.children[k - 1])|
    requires forall i :: 0 <= i < |ets| ==> ets[i] == GetInferredTypeOrObject(o, Leaves(n.children[k - 1])[i])
    ensures |hts + ets| == |ElementLeaves(n, k)|
    ensures forall i :: 0 <= i < |hts + ets| ==> (hts + ets)[i] == GetInferredTypeOrObject(o, ElementLeaves(n, k)[i])
  {
    var before := ElementLeaves(n, k - 1);
    var mine := Leaves(n.children[k - 1]);
    assert ElementLeaves(n, k) == before + mine;
    forall i | 0 <= i < |hts + ets|
      ensures (hts + ets)[i] == GetInferredTypeOrObject(o, (before + mine)[i])
    {
      if i >= |hts| {
        assert (hts + ets)[i] == ets[i - |hts|] && (before + mine)[i] == mine[i - |hts|];
      } else {
        assert (hts + ets)[i] == hts[i] && (before + mine)[i] == before[i];
      }
    }
  }

  lemma ElementsHintStep(n: Node, o: Oracle, base: nat, k: nat, h: Hint, e: Hint)
    requires 0 < k <= |n.children|
    requires ElementsHint(n, o, base, k - 1) == Some(h)
    requires NestedHint(n.children[k - 1], o, base + |h.text| + |Separator(k)|) == Some(e)
    ensures ElementsHint(n, o, base, k) == Some(Hint(h.text + Separator(k) + e.text, h.types + e.types, h.ranges + e.ranges))
  {
  }

  lemma TupleHintWhole(n: Node, o: Oracle, base: nat)
    requires n.kind.TupleExpr?
    ensures NestedHint(n, o, base) ==
      match ElementsHint(n, o, base + 1, |n.children|)
      case None => None
      case Some(h) => Some(Hint("(" + h.text + ")", h.types, h.ranges))
  {
  }

  /** Once an element fails, the tuple fails. */
  lemma {:induction false} ElementsHintFails(n: Node, o: Oracle, base: nat, k: nat, m: nat)
    requires k <= m <= |n.children|
    requires ElementsHint(n, o, base, k).None?
    ensures ElementsHint(n, o, base, m).None?
    decreases m - k
  {
    if k < m {
      ElementsHintFails(n, o, base, k + 1, m);
    }
  }

  /** The string builder with the two lists `generateNestedTypeHint` fills. */
  class AnnotationBuilder {
    var text: string
    var types: seq<PyType>
    var typeRanges: seq<TextRange>

    constructor ()
      ensures text == [] && types == [] && typeRanges == []
    {
      text, types, typeRanges := [], [], [];
    }

    /** Appends the hint of `target`; false when some leaf's type is not PEP 484
        compatible (the host throws, and the caller abandons the whole builder). */
    method Generate(target: Node, o: Oracle) returns (ok: bool)
      modifies this
      ensures ok <==> NestedHint(target, o, |old(text)|).Some?
      ensures ok ==>
        && text == old(text) + NestedHint(target, o, |old(text)|).value.text
        && types == old(types) + NestedHint(target, o, |old(text)|).value.types
        && typeRanges == old(typeRanges) + NestedHint(target, o, |old(text)|).value.ranges
      decreases target, 2
    {
      if target.kind.ParenthesizedExpr? {
        if |target.children| > 0 {
          ok := Generate(target.children[0], o);
        } else {
          ok := true;
        }
      } else if target.kind.TupleExpr? {
        ok := GenerateTuple(target, o);
      } else if IsTypedElement(target.kind) {
        ok := AppendLeaf(target, o);
      } else {
        ok := true;
      }
    }

    /** `"("`, the elements separated by `", "`, `")"`. */
    method GenerateTuple(target: Node, o: Oracle) returns (ok: bool)
      requires target.kind.TupleExpr?
      modifies this
      ensures ok <==> NestedHint(target, o, |old(text)|).Some?
      ensures ok ==>
        && text == old(text) + NestedHint(target, o, |old(text)|).value.text
        && types == old(types) + NestedHint(target, o, |old(text)|).value.types
        && typeRanges == old(typeRanges) + NestedHint(target, o, |old(text)|).value.ranges
      decreases target, 1
    {
      ghost var base := |text| + 1;
      ghost var text0, types0, ranges0 := text, types, typeRanges;
      ghost var acc := NoHint;
      text := text + "(";
      var elements := target.children;
      var i := 0;
      while i < |elements|
        invariant i <= |elements|
        invariant ElementsHint(target, o, base, i) == Some(acc)
        invariant text == text0 + "(" + acc.text
        invariant types == types0 + acc.types
        invariant typeRanges == ranges0 + acc.ranges
      {
        ok, acc := AppendElement(target, o, i, text0, types0, ranges0, acc);
        if !ok {
          ElementsHintFails(target, o, base, i + 1, |elements|);
          TupleHintWhole(target, o, base - 1);
          return;
        }
        i := i + 1;
      }
      text := text + ")";
      TupleHintWhole(target, o, base - 1);
      assert text == text0 + ("(" + acc.text + ")");
      ok := true;
    }

    /** One pass of the element loop of `GenerateTuple`: the separator, then
        the hint of element `i`; `next` is the hint of the first `i + 1`
        elements. */
    method AppendElement(target: Node, o: Oracle, i: nat, ghost text0: string, ghost types0: seq<PyType>,
                         ghost ranges0: seq<TextRange>, ghost acc: Hint) returns (ok: bool, ghost next: Hint)
      requires target.kind.TupleExpr? && i < |target.children|
      requires ElementsHint(target, o, |text0| + 1, i) == Some(acc)
      requires text == text0 + "(" + acc.text && types == types0 + acc.types && typeRanges == ranges0 + acc.ranges
      modifies this
      ensures ok <==> ElementsHint(target, o, |text0| + 1, i + 1).Some?
      ensures ok ==>
        && ElementsHint(target, o, |text0| + 1, i + 1) == Some(next)
        && text == text0 + "(" + next.text && types == types0 + next.types && typeRanges == ranges0 + next.ranges
      decreases target, 0
    {
      ghost var base := |text0| + 1;
      ghost var sep := Separator(i + 1);
      if i > 0 {
        text := text + ", ";
      }
      assert text == text0 + "(" + (acc.text + sep);
      ok := Generate(target.children[i], o);
      ghost var cur := NestedHint(target.children[i], o, base + |acc.text| + |sep|);
      if !ok {
        assert ElementsHint(target, o, base, i + 1).None?;
        next := acc;
        return;
      }
      ghost var e := cur.value;
      ElementsHintStep(target, o, base, i + 1, acc, e);
      AppendAssoc(types0, acc.types, e.types);
      AppendAssoc(ranges0, acc.ranges, e.ranges);
      AppendAssoc(text0 + "(", acc.text + sep, e.text);
      next := Hint(acc.text + sep + e.text, acc.types + e.types, acc.ranges + e.ranges);
    }

    /** A typed leaf: its type and the range of its hint, then the hint itself. */
    method AppendLeaf(target: Node, o: Oracle) returns (ok: bool)
      requires IsTypedElement(target.kind) && !target.kind.TupleExpr? && !target.kind.ParenthesizedExpr?
      modifies this
      ensures ok <==> NestedHint(target, o, |old(text)|).Some?
      ensures ok ==>
        && text == old(text) + NestedHint(target, o, |old(text)|).value.text
        && types == old(types) + NestedHint(target, o, |old(text)|).value.types
        && typeRanges == old(typeRanges) + NestedHint(target, o, |old(text)|).value.ranges
    {
      var singleTargetType := GetInferredTypeOrObject(o, target);
      if !o.compatible(singleTargetType) {
        return false;
      }
      var singleTargetAnnotation := o.hint(singleTargetType);
      types := types + [singleTargetType];
      typeRanges := typeRanges + [RangeFrom(|text|, |singleTargetAnnotation|)];
      text := text + singleTargetAnnotation;
      ok := true;
    }
  }

  /** `findPrevParent` below the nearest binding statement: the outermost
      pattern on the path from the target to that statement. */
  function TopmostTarget(s: Site): (r: Node)
    requires BindingStatementIndex(s.ancestors).Some?
    ensures Linked(s) ==> r in s.ancestors[BindingStatementIndex(s.ancestors).value].children
    ensures BindingStatementIndex(s.ancestors).value == 0 ==> r == s.node
    ensures r == s.node || r in s.ancestors[..BindingStatementIndex(s.ancestors).value]
  {
    var k := BindingStatementIndex(s.ancestors).value;
    if k == 0 then s.node else s.ancestors[k - 1]
  }

  /** The annotation info of the type-comment path for a target, or None when a
      leaf is incompatible. */
  function TypeCommentInfo(s: Site, o: Oracle): Option<AnnotationInfo>
    requires BindingStatementIndex(s.ancestors).Some?
  {
    match NestedHint(TopmostTarget(s), o, 0)
    case None => None
    case Some(h) => Some(Nested(h))
  }

  /** `generateNestedTypeHint(target, context)`: serialises the outermost
      pattern of the target's binding statement into a fresh builder. */
  method GenerateNestedTypeHint(target: Site, o: Oracle) returns (info: Option<AnnotationInfo>)
    requires BindingStatementIndex(target.ancestors).Some?
    ensures info.None? <==> !AllCompatible(Leaves(TopmostTarget(target)), o)
    ensures info.Some? ==> info.value.Nested? && Serialises(info.value.hint, TopmostTarget(target), o, 0)
    ensures info == TypeCommentInfo(target, o)
  {
    var topmostTarget := TopmostTarget(target);
    var builder := new AnnotationBuilder();
    var ok := builder.Generate(topmostTarget, o);
    assert [] + builder.text == builder.text;
    if ok {
      assert Hint(builder.text, builder.types, builder.typeRanges) == NestedHint(topmostTarget, o, 0).value;
      info := Some(Nested(Hint(builder.text, builder.types, builder.typeRanges)));
    } else {
      info := None;
    }
    NestedHintCorrect(topmostTarget, o, 0);
  }
}
