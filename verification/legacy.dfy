/**
 * The renderer of the earlier variant (formattedJSON.js): no disclosure
 * triangles, no sorting, and strings rendered like any other literal but
 * with quote decorators. Same layout as `Current`: the functions are the
 * specification, the `Build...` methods the loops of the source.
 */
module Legacy {
  import opened Json
  import opened Dom

  /** `render(obj)`: dispatch on `_typeof`; the node carries the kind's
      name among its classes. */
  function Render(v: Json): (n: Node)
    ensures n.Element? && TypeOf(v) in n.classes
    decreases v, 2
  {
    match v
    case JArr(_) => ArrayNode(v)
    case JObj(_) => ObjectNode(v)
    case _ => AddClass(ValueNode(Literal(v), TypeOf(v) == "string"), TypeOf(v))
  }

  /** `renderArray(a)`: a plain container, no triangle, with a final
      separator. */
  function ArrayNode(v: Json): (n: Node)
    requires v.JArr?
    ensures n.Element? && n.classes == ["array"]
    ensures !HasDisclosure(n.children) && |n.children| > 0 && n.children[|n.children| - 1] == Separator()
    decreases v, 1
  {
    var list := Element(Ol, [], ArrayItems(v, |v.items|));
    Element(Div, ["array"], [Decorator("[")] + ListIfAny(list) + [Decorator("]"), Separator()])
  }

  /** The first `n` entries of the `<ol>`: one `<li>` per element, in
      index order. */
  function ArrayItems(v: Json, n: nat): seq<Node>
    requires v.JArr? && n <= |v.items|
    decreases v, 0
  {
    seq(n, i requires 0 <= i < n => Element(Li, [], [Render(v.items[i])]))
  }

  /** `renderObject(obj)`: a plain container, no triangle, with a final
      separator. */
  function ObjectNode(v: Json): (n: Node)
    requires v.JObj?
    ensures n.Element? && n.classes == ["object"]
    ensures !HasDisclosure(n.children) && |n.children| > 0 && n.children[|n.children| - 1] == Separator()
    decreases v, 1
  {
    var list := Element(Dl, [], Entries(v, |v.fields|));
    Element(Div, ["object"], [Decorator("{")] + ListIfAny(list) + [Decorator("}"), Separator()])
  }

  /** The entries for the first `n` keys in enumeration order: the `i`-th
      key's `<dt>` label at `2 * i`, its `<dd>` at `2 * i + 1`. */
  function Entries(v: Json, n: nat): seq<Node>
    requires v.JObj? && n <= |v.fields|
    decreases v, 0, 1
  {
    seq(2 * n, j requires 0 <= j < 2 * n =>
      if j % 2 == 0 then KeyLabel(v.fields[j / 2].0) else ValueCell(v, j / 2))
  }

  /** The `<dd>` of the `i`-th key: the render of the member `obj[key]`
      reads. */
  function ValueCell(v: Json, i: nat): Node
    requires v.JObj? && i < |v.fields|
    decreases v, 0, 0
  {
    var k := v.fields[i].0;
    assert k == Keys(v.fields)[i];
    Element(Dd, [], [Render(v.fields[IndexOf(v.fields, k)].1)])
  }

  /** `renderValue(l, quote)`: the literal, between quote decorators when
      `quote` is set, then the separator, all inside one span. */
  function ValueNode(l: string, quote: bool): (n: Node)
    ensures n.Element? && n.tag == Span && n.classes == ["value"]
    ensures TextOf(n) == (if quote then "\"" + l + "\"" else l) + ","
  {
    DecorationTexts("\"");
    TextOfAllFour(Decorator("\""), Text(l), Decorator("\""), Separator());
    TextOfAllTwo(Text(l), Separator());
    assert [Decorator("\""), Text(l), Decorator("\"")] + [Separator()]
        == [Decorator("\""), Text(l), Decorator("\""), Separator()];
    assert [Text(l)] + [Separator()] == [Text(l), Separator()];
    var val := if quote then [Decorator("\""), Text(l), Decorator("\"")] else [Text(l)];
    Element(Span, ["value"], val + [Separator()])
  }

  // ---------------------------------------------------------------------
  // The builder.

  /** `render(obj)` */
  method BuildNode(v: Json) returns (n: Node)
    ensures n == Render(v)
    decreases v, 1
  {
    match v {
      case JArr(_) =>
        n := BuildArray(v);
      case JObj(_) =>
        n := BuildObject(v);
      case _ =>
        var t := TypeOf(v);
        var el := ValueNode(Literal(v), t == "string");
        n := AddClass(el, t);
    }
  }

  /** `renderArray(a)`: one `<li>` appended to the list per element. */
  method BuildArray(v: Json) returns (n: Node)
    requires v.JArr?
    ensures n == ArrayNode(v)
    decreases v, 0
  {
    var a := v.items;
    var list: seq<Node> := [];
    for i := 0 to |a|
      invariant list == ArrayItems(v, i)
    {
      var child := BuildNode(a[i]);
      list := list + [Element(Li, [], [child])];
      ArrayItemsStep(v, i + 1);
    }
    n := Element(Div, ["array"], [Decorator("[")] + ListIfAny(Element(Ol, [], list)) + [Decorator("]"), Separator()]);
  }

  /** `renderObject(obj)`: for each key in enumeration order, a `<dt>` and
      a `<dd>` appended to the list. */
  method BuildObject(v: Json) returns (n: Node)
    requires v.JObj?
    ensures n == ObjectNode(v)
    decreases v, 0
  {
    var obj := v.fields;
    var list: seq<Node> := [];
    for i := 0 to |obj|
      invariant list == Entries(v, i)
    {
      var k := obj[i].0;
      assert k == Keys(obj)[i];
      var child := BuildNode(obj[IndexOf(obj, k)].1);
      list := list + [KeyLabel(k), Element(Dd, [], [child])];
      EntriesStep(v, i + 1);
    }
    n := Element(Div, ["object"], [Decorator("{")] + ListIfAny(Element(Dl, [], list)) + [Decorator("}"), Separator()]);
  }

  // ---------------------------------------------------------------------
  // What the rendering promises.

  /** The quote decorators surround the literal exactly when `quote` is
      set; the literal is always there and the separator always comes last,
      inside the value span. */
  lemma QuoteFlag(l: string, quote: bool)
    ensures var n := ValueNode(l, quote);
      && n.tag == Span && n.classes == ["value"]
      && (Decorator("\"") in n.children <==> quote)
      && Text(l) in n.children
      && |n.children| == (if quote then 4 else 2)
      && n.children[|n.children| - 1] == Separator()
      && (quote ==> n.children[0] == Decorator("\"") && n.children[1] == Text(l) && n.children[2] == Decorator("\""))
  {
    var n := ValueNode(l, quote);
    if !quote {
      assert n.children == [Text(l), Separator()];
    }
  }

  /** Every scalar, strings included, is a span with classes `value` and its
      kind, quoted exactly when it is a string. */
  lemma ScalarShape(v: Json)
    requires IsScalar(v)
    ensures Render(v).Element? && Render(v).tag == Span
    ensures Render(v).classes == ["value", TypeOf(v)]
    ensures v.JStr? ==> Render(v).children == [Decorator("\""), Text(v.s), Decorator("\""), Separator()]
    ensures !v.JStr? ==> Render(v).children == [Text(Literal(v)), Separator()]
  {
    QuoteFlag(Literal(v), v.JStr?);
  }

  /** Each element appends one `<li>` holding its render, as the loop of
      `renderArray` does. */
  lemma ArrayItemsStep(v: Json, n: nat)
    requires v.JArr? && 0 < n <= |v.items|
    ensures ArrayItems(v, n) == ArrayItems(v, n - 1) + [Element(Li, [], [Render(v.items[n - 1])])]
  {
    var before := ArrayItems(v, n - 1);
    var last := [Element(Li, [], [Render(v.items[n - 1])])];
    forall i | 0 <= i < n
      ensures ArrayItems(v, n)[i] == (before + last)[i]
    {
      if i < n - 1 {
        assert (before + last)[i] == before[i];
      }
    }
  }

  /** An array: class `array` only, no disclosure, then `[`, the list with
      one `<li>` per element in index order (left out when empty), `]`, `,`. */
  lemma ArrayShape(v: Json)
    requires v.JArr?
    ensures var n := Render(v);
      && n.Element? && n.tag == Div && n.classes == ["array"]
      && !HasDisclosure(n.children)
      && |n.children| == (if v.items == [] then 3 else 4)
      && n.children[0] == Decorator("[")
      && n.children[|n.children| - 2] == Decorator("]")
      && n.children[|n.children| - 1] == Separator()
      && (v.items != [] ==>
            var ol := n.children[1];
            && ol.Element? && ol.tag == Ol
            && |ol.children| == |v.items|
            && forall i :: 0 <= i < |v.items| ==> ol.children[i] == Element(Li, [], [Render(v.items[i])]))
  {
    var list := Element(Ol, [], ArrayItems(v, |v.items|));
    var n := ArrayNode(v);
    assert Render(v) == n;
    assert n.children == [Decorator("[")] + ListIfAny(list) + [Decorator("]"), Separator()];
    if v.items != [] {
      assert ListIfAny(list) == [list];
    } else {
      assert ListIfAny(list) == [];
    }
  }

  /** Each key appends its label and its `<dd>`, as the loop of
      `renderObject` does. */
  lemma EntriesStep(v: Json, n: nat)
    requires v.JObj? && 0 < n <= |v.fields|
    ensures Entries(v, n) == Entries(v, n - 1) + [KeyLabel(v.fields[n - 1].0), ValueCell(v, n - 1)]
  {
    var before := Entries(v, n - 1);
    var last := [KeyLabel(v.fields[n - 1].0), ValueCell(v, n - 1)];
    forall j | 0 <= j < 2 * n
      ensures Entries(v, n)[j] == (before + last)[j]
    {
      if j < 2 * n - 2 {
        assert (before + last)[j] == before[j];
      } else {
        Halves(n - 1);
      }
    }
  }

  /** With unique keys, the `i`-th label names the `i`-th member and the
      `<dd>` after it holds that member's render. */
  lemma EntriesAt(v: Json, n: nat)
    requires v.JObj? && n <= |v.fields|
    requires UniqueKeys(v.fields)
    ensures |Entries(v, n)| == 2 * n
    ensures forall i :: 0 <= i < n ==>
      && Entries(v, n)[2 * i] == KeyLabel(v.fields[i].0)
      && Entries(v, n)[2 * i + 1] == Element(Dd, [], [Render(v.fields[i].1)])
  {
    var entries := Entries(v, n);
    forall i | 0 <= i < n
      ensures entries[2 * i] == KeyLabel(v.fields[i].0)
      ensures entries[2 * i + 1] == Element(Dd, [], [Render(v.fields[i].1)])
    {
      Halves(i);
      LookupOwnKey(v.fields, i);
      assert entries[2 * i + 1] == ValueCell(v, i);
    }
  }

  /** An object: class `object` only, `{`, a `<dl>` whose children alternate
      a `<dt>` label `"key":` and a `<dd>` holding the render of that key's
      value, keys in enumeration order and never sorted; `}`, `,`. An empty
      object keeps `{`, `}` and `,` and has no `<dl>`. */
  lemma ObjectShape(v: Json)
    requires v.JObj? && UniqueKeys(v.fields)
    ensures var n := Render(v);
      && n.Element? && n.tag == Div && n.classes == ["object"]
      && !HasDisclosure(n.children)
      && (v.fields == [] ==> n.children == [Decorator("{"), Decorator("}"), Separator()])
      && (v.fields != [] ==>
            && |n.children| == 4
            && n.children[0] == Decorator("{")
            && n.children[2] == Decorator("}")
            && n.children[3] == Separator()
            && var dl := n.children[1];
            && dl.Element? && dl.tag == Dl
            && |dl.children| == 2 * |v.fields|
            && forall i :: 0 <= i < |v.fields| ==>
                 && dl.children[2 * i] == Element(Dt, [], [Decorator("\""), Text(v.fields[i].0), Decorator("\""), Delimiter()])
                 && dl.children[2 * i + 1] == Element(Dd, [], [Render(v.fields[i].1)]))
  {
    EntriesAt(v, |v.fields|);
  }

  /** No element of a tree is collapsible or holds a disclosure triangle. */
  predicate NothingCollapsible(n: Node)
  {
    match n
    case Text(_) => true
    case Element(_, classes, children) =>
      && !HasDisclosure(children)
      && "collapsible" !in classes
      && forall c :: c in children ==> NothingCollapsible(c)
  }

  lemma DecorationsPlain(l: string)
    ensures NothingCollapsible(Decorator(l))
    ensures NothingCollapsible(Separator())
    ensures NothingCollapsible(Delimiter())
  {
    assert forall c :: c in Decorator(l).children ==> c == Text(l);
    assert forall c :: c in Separator().children ==> c == Text(",");
    assert forall c :: c in Delimiter().children ==> c == Text(":");
  }

  lemma KeyLabelPlain(k: string)
    ensures NothingCollapsible(KeyLabel(k))
  {
    DecorationsPlain("\"");
    DecorationsPlain(k);
    var dt := KeyLabel(k);
    assert forall c :: c in dt.children ==> c == Decorator("\"") || c == Text(k) || c == Delimiter();
  }

  /** A container of decorations around a plain list is plain. */
  lemma ContainerPlain(classes: seq<string>, open: string, list: Node, close: string)
    requires "collapsible" !in classes
    requires list.Element? && list.tag != Span && NothingCollapsible(list)
    ensures NothingCollapsible(Element(Div, classes, [Decorator(open)] + ListIfAny(list) + [Decorator(close), Separator()]))
  {
    DecorationsPlain(open);
    DecorationsPlain(close);
    var children := [Decorator(open)] + ListIfAny(list) + [Decorator(close), Separator()];
    forall c | c in children ensures NothingCollapsible(c) && c != Disclosure() {
      if c in ListIfAny(list) {
        assert c == list;
      }
    }
  }

  /** The earlier variant has no collapsing at all: nothing it renders is
      collapsible or carries a disclosure triangle. */
  lemma {:induction false} RenderNothingCollapsible(v: Json)
    ensures NothingCollapsible(Render(v))
    decreases v, 2
  {
    match v {
      case JArr(items) =>
        ArrayItemsPlain(v, |items|);
        ContainerPlain(["array"], "[", Element(Ol, [], ArrayItems(v, |items|)), "]");
        assert Render(v) == ArrayNode(v);
      case JObj(fields) =>
        EntriesPlain(v, |fields|);
        ContainerPlain(["object"], "{", Element(Dl, [], Entries(v, |fields|)), "}");
        assert Render(v) == ObjectNode(v);
      case _ =>
        LeafPlain(v);
    }
  }

  lemma LeafPlain(v: Json)
    requires IsScalar(v)
    ensures NothingCollapsible(Render(v))
  {
    var n := ValueNode(Literal(v), v.JStr?);
    assert Render(v) == AddClass(n, TypeOf(v));
    DecorationsPlain("\"");
    DecorationsPlain("");
    assert forall c :: c in n.children ==> c == Text(Literal(v)) || c == Separator() || c == Decorator("\"");
  }

  lemma ArrayItemsPlain(v: Json, n: nat)
    requires v.JArr? && n <= |v.items|
    ensures forall c :: c in ArrayItems(v, n) ==> NothingCollapsible(c)
    ensures !HasDisclosure(ArrayItems(v, n))
    decreases v, 1
  {
    var items := ArrayItems(v, n);
    forall i | 0 <= i < n ensures NothingCollapsible(items[i]) && items[i] != Disclosure() {
      var child := Render(v.items[i]);
      RenderNothingCollapsible(v.items[i]);
      assert forall c :: c in items[i].children ==> c == child;
    }
  }

  lemma EntriesPlain(v: Json, n: nat)
    requires v.JObj? && n <= |v.fields|
    ensures forall c :: c in Entries(v, n) ==> NothingCollapsible(c)
    ensures !HasDisclosure(Entries(v, n))
    decreases v, 1, 1
  {
    var entries := Entries(v, n);
    forall j | 0 <= j < 2 * n ensures NothingCollapsible(entries[j]) && entries[j] != Disclosure() {
      if j % 2 == 0 {
        KeyLabelPlain(v.fields[j / 2].0);
      } else {
        CellPlain(v, j / 2);
      }
    }
  }

  lemma CellPlain(v: Json, i: nat)
    requires v.JObj? && i < |v.fields|
    ensures NothingCollapsible(ValueCell(v, i)) && ValueCell(v, i) != Disclosure()
    decreases v, 1, 0
  {
    var k := v.fields[i].0;
    assert k == Keys(v.fields)[i];
    var w := v.fields[IndexOf(v.fields, k)].1;
    RenderNothingCollapsible(w);
    var dd := Element(Dd, [], [Render(w)]);
    assert ValueCell(v, i) == dd;
    assert forall c :: c in dd.children ==> c == Render(w);
  }
}
