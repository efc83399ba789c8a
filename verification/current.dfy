/**
 * The renderer of the current variant (src/formattedJSON.js): collapsible
 * containers with disclosure triangles, optional key sorting and folding of
 * long strings. `Render` and its helpers are the specification; the
 * `Build...` methods are the loops of `render`, `renderArray` and
 * `renderObject`, each proved to produce exactly what the specification says.
 */
module Current {
  import opened Json
  import opened Dom
  import Order

  /** The user settings the renderer reads (`settings`). */
  datatype Policy = Policy(sortKeys: bool, foldStrings: bool, longStringLength: int, unescapeUnicode: bool)

  /** `render(obj)`: dispatch on `_typeof`; the node carries the kind's
      name among its classes. */
  function Render(v: Json, p: Policy): (n: Node)
    ensures n.Element? && TypeOf(v) in n.classes
    decreases v, 2
  {
    match v
    case JArr(_) => ArrayNode(v, p)
    case JObj(_) => ObjectNode(v, p)
    case JStr(s) => StringNode(s, p)
    case _ => AddClass(ValueNode(Literal(v)), TypeOf(v))
  }

  /** `renderArray(a)`: a collapsible container with its triangle and a
      final separator. */
  function ArrayNode(v: Json, p: Policy): (n: Node)
    requires v.JArr?
    ensures n.Element? && n.classes == ["array", "collapsible"]
    ensures HasDisclosure(n.children) && n.children[|n.children| - 1] == Separator()
    decreases v, 1
  {
    var list := Element(Ol, ["value"], ArrayItems(v, p, |v.items|));
    Element(Div, ["array", "collapsible"],
      [Disclosure(), Decorator("[")] + ListIfAny(list) + [Decorator("]"), Separator()])
  }

  /** The first `n` entries of the `<ol>`: one `<li>` per element, in
      index order. */
  function ArrayItems(v: Json, p: Policy, n: nat): seq<Node>
    requires v.JArr? && n <= |v.items|
    decreases v, 0
  {
    seq(n, i requires 0 <= i < n => Element(Li, [], [Render(v.items[i], p)]))
  }

  /** The order in which `renderObject` visits the keys. */
  function OrderKeys(fields: seq<(string, Json)>, sortKeys: bool): (keys: seq<string>)
    ensures |keys| == |fields|
    ensures multiset(keys) == multiset(Keys(fields))
    ensures forall k :: k in keys ==> k in Keys(fields)
  {
    if sortKeys then
      var sorted := Order.SortStrings(Keys(fields));
      Order.SortStringsSorted(Keys(fields));
      assert forall k :: k in sorted ==> k in multiset(sorted);
      assert |sorted| == |multiset(sorted)| == |multiset(Keys(fields))|;
      sorted
    else Keys(fields)
  }

  /** `renderObject(obj)`: a collapsible container with its triangle and
      a final separator. */
  function ObjectNode(v: Json, p: Policy): (n: Node)
    requires v.JObj?
    ensures n.Element? && n.classes == ["object", "collapsible"]
    ensures HasDisclosure(n.children) && n.children[|n.children| - 1] == Separator()
    decreases v, 1
  {
    var keys := OrderKeys(v.fields, p.sortKeys);
    var list := Element(Dl, ["value"], Entries(v, keys, p, |keys|));
    Element(Div, ["object", "collapsible"],
      [Disclosure(), Decorator("{")] + ListIfAny(list) + [Decorator("}"), Separator()])
  }

  /** The first `n` keys' entries of the `<dl>`: the `i`-th key's `<dt>`
      label at `2 * i`, its `<dd>` at `2 * i + 1`. */
  function Entries(v: Json, keys: seq<string>, p: Policy, n: nat): (r: seq<Node>)
    requires v.JObj? && n <= |keys|
    requires forall k :: k in keys ==> k in Keys(v.fields)
    decreases v, 0, 1
  {
    seq(2 * n, j requires 0 <= j < 2 * n =>
      if j % 2 == 0 then KeyLabel(keys[j / 2]) else ValueCell(v, keys[j / 2], p))
  }

  /** The `<dd>` of key `k`: the render of the member `obj[k]` reads. */
  function ValueCell(v: Json, k: string, p: Policy): Node
    requires v.JObj? && k in Keys(v.fields)
    decreases v, 0, 0
  {
    Element(Dd, [], [Render(v.fields[IndexOf(v.fields, k)].1, p)])
  }

  /** The class tokens `renderString` gives a string of length `len`. */
  function StringClasses(len: nat, p: Policy): (classes: seq<string>)
    ensures |classes| > 0 && classes[0] == "string"
    ensures "collapsible" in classes <==> len > p.longStringLength
    ensures "closed" in classes <==> len > p.longStringLength && p.foldStrings
  {
    var collapsible := len > p.longStringLength;
    var collapsed := collapsible && p.foldStrings;
    ["string"] + (if collapsible then ["collapsible"] else []) + (if collapsed then ["closed"] else [])
  }

  /** `renderString(obj)`: the triangle is there exactly when the string
      is longer than the threshold. */
  function StringNode(s: string, p: Policy): (n: Node)
    ensures n.Element? && n.classes == StringClasses(|s|, p)
    ensures HasDisclosure(n.children) <==> |s| > p.longStringLength
  {
    var collapsible := |s| > p.longStringLength;
    Element(Div, StringClasses(|s|, p),
      (if collapsible then [Disclosure()] else [])
      + [Decorator("\""), Element(Span, ["value"], [Text(s)]), Decorator("\""), Separator()])
  }

  /** `renderValue(l)`: a value span showing the literal and then `,`. */
  function ValueNode(l: string): (n: Node)
    ensures n.Element? && n.tag == Span && n.classes == ["value"]
    ensures TextOf(n) == l + ","
  {
    DecorationTexts("");
    TextOfAllTwo(Text(l), Separator());
    Element(Span, ["value"], [Text(l), Separator()])
  }

  // ---------------------------------------------------------------------
  // The builder: the loops of the source, proved against the specification.

  /** `render(obj)` */
  method BuildNode(v: Json, p: Policy) returns (n: Node)
    ensures n == Render(v, p)
    decreases v, 1
  {
    match v {
      case JArr(_) =>
        n := BuildArray(v, p);
      case JObj(_) =>
        n := BuildObject(v, p);
      case JStr(s) =>
        n := StringNode(s, p);
      case _ =>
        var el := ValueNode(Literal(v));
        n := AddClass(el, TypeOf(v));
    }
  }

  /** `renderArray(a)`: one `<li>` appended to the list per element. */
  method BuildArray(v: Json, p: Policy) returns (n: Node)
    requires v.JArr?
    ensures n == ArrayNode(v, p)
    decreases v, 0
  {
    var a := v.items;
    var list: seq<Node> := [];
    for i := 0 to |a|
      invariant list == ArrayItems(v, p, i)
    {
      var child := BuildNode(a[i], p);
      list := list + [Element(Li, [], [child])];
      ArrayItemsStep(v, p, i + 1);
    }
    n := Element(Div, ["array", "collapsible"],
      [Disclosure(), Decorator("[")] + ListIfAny(Element(Ol, ["value"], list)) + [Decorator("]"), Separator()]);
  }

  /** Gathers the keys into a fresh array in enumeration order and, when
      `sort_keys` is set, sorts that array in place. */
  method GatherKeys(fields: seq<(string, Json)>, sortKeys: bool) returns (keys: array<string>)
    ensures keys[..] == OrderKeys(fields, sortKeys)
  {
    keys := new string[|fields|];
    for i := 0 to |fields|
      invariant forall j :: 0 <= j < i ==> keys[j] == fields[j].0
    {
      keys[i] := fields[i].0;
    }
    assert keys[..] == Keys(fields);
    if sortKeys {
      Order.SortInPlace(keys);
      Order.SortStringsSorted(Keys(fields));
      Order.SortedUnique(keys[..], Order.SortStrings(Keys(fields)));
    }
  }

  /** `renderObject(obj)`: a `<dt>` and a `<dd>` appended per key. */
  method BuildObject(v: Json, p: Policy) returns (n: Node)
    requires v.JObj?
    ensures n == ObjectNode(v, p)
    decreases v, 0
  {
    var obj := v.fields;
    var keys := GatherKeys(obj, p.sortKeys);
    ghost var ks := keys[..];
    var list: seq<Node> := [];
    for i := 0 to keys.Length
      invariant keys[..] == ks
      invariant list == Entries(v, ks, p, i)
    {
      var k := keys[i];
      var child := BuildNode(obj[IndexOf(obj, k)].1, p);
      list := list + [KeyLabel(k), Element(Dd, [], [child])];
      EntriesStep(v, ks, p, i + 1);
    }
    n := Element(Div, ["object", "collapsible"],
      [Disclosure(), Decorator("{")] + ListIfAny(Element(Dl, ["value"], list)) + [Decorator("}"), Separator()]);
  }

  // ---------------------------------------------------------------------
  // What the rendering promises.

  /** Booleans, numbers and null: a span with classes `value` and the kind,
      the literal text followed by the separator inside it, no disclosure. */
  lemma ScalarShape(v: Json, p: Policy)
    requires IsScalar(v) && !v.JStr?
    ensures Render(v, p) == Element(Span, ["value", TypeOf(v)], [Text(Literal(v)), Separator()])
    ensures !HasDisclosure(Render(v, p).children)
    ensures "collapsible" !in Render(v, p).classes
  {
  }

  /** Each element appends one `<li>` holding its render, as the loop of
      `renderArray` does. */
  lemma ArrayItemsStep(v: Json, p: Policy, n: nat)
    requires v.JArr? && 0 < n <= |v.items|
    ensures ArrayItems(v, p, n) == ArrayItems(v, p, n - 1) + [Element(Li, [], [Render(v.items[n - 1], p)])]
  {
    var before := ArrayItems(v, p, n - 1);
    var last := [Element(Li, [], [Render(v.items[n - 1], p)])];
    forall i | 0 <= i < n
      ensures ArrayItems(v, p, n)[i] == (before + last)[i]
    {
      if i < n - 1 {
        assert (before + last)[i] == before[i];
      }
    }
  }

  /** An array: disclosure, `[`, the list with exactly one `<li>` per element
      in index order (left out when there are none), `]`, separator; classes
      `array collapsible` even when empty. */
  lemma ArrayShape(v: Json, p: Policy)
    requires v.JArr?
    ensures var n := Render(v, p);
      && n.tag == Div && n.classes == ["array", "collapsible"]
      && |n.children| == (if v.items == [] then 4 else 5)
      && n.children[0] == Disclosure() && n.children[1] == Decorator("[")
      && n.children[|n.children| - 2] == Decorator("]")
      && n.children[|n.children| - 1] == Separator()
      && (v.items != [] ==>
            var ol := n.children[2];
            && ol.Element? && ol.tag == Ol && ol.classes == ["value"]
            && |ol.children| == |v.items|
            && forall i :: 0 <= i < |v.items| ==> ol.children[i] == Element(Li, [], [Render(v.items[i], p)]))
  {
    var list := Element(Ol, ["value"], ArrayItems(v, p, |v.items|));
    var n := ArrayNode(v, p);
    assert Render(v, p) == n;
    assert n.children == [Disclosure(), Decorator("[")] + ListIfAny(list) + [Decorator("]"), Separator()];
    if v.items != [] {
      assert ListIfAny(list) == [list];
    } else {
      assert ListIfAny(list) == [];
    }
  }

  /** The keys are emitted in enumeration order unless `sort_keys` is set,
      then in ascending order; either way each member's key, and, as the
      keys of a parsed object are unique, each one exactly once. */
  lemma KeyOrder(fields: seq<(string, Json)>, sortKeys: bool)
    ensures !sortKeys ==> OrderKeys(fields, sortKeys) == Keys(fields)
    ensures sortKeys ==> Order.Sorted(OrderKeys(fields, sortKeys))
    ensures multiset(OrderKeys(fields, sortKeys)) == multiset(Keys(fields))
    ensures UniqueKeys(fields) ==> Order.Distinct(OrderKeys(fields, sortKeys))
  {
    Order.SortStringsSorted(Keys(fields));
    if UniqueKeys(fields) {
      Order.PermutationKeepsDistinct(OrderKeys(fields, sortKeys), Keys(fields));
    }
  }

  /** `{"b":2,"a":1}` lists its keys as b, a; sorted, as a, b. Keys that
      differ only in case are ordered by character code, capitals first. */
  lemma KeyOrderExamples()
    ensures OrderKeys([("b", JNum("2")), ("a", JNum("1"))], false) == ["b", "a"]
    ensures OrderKeys([("b", JNum("2")), ("a", JNum("1"))], true) == ["a", "b"]
    ensures OrderKeys([("b", JNull), ("B", JNull)], true) == ["B", "b"]
  {
    assert Order.LexLeq("a", "b");
    assert !Order.LexLeq("b", "a");
    assert !Order.LexLeq("b", "B");
  }

  /** Each key appends its label and its `<dd>`, as the loop of
      `renderObject` does. */
  lemma EntriesStep(v: Json, keys: seq<string>, p: Policy, n: nat)
    requires v.JObj? && 0 < n <= |keys|
    requires forall k :: k in keys ==> k in Keys(v.fields)
    ensures Entries(v, keys, p, n) == Entries(v, keys, p, n - 1)
      + [KeyLabel(keys[n - 1]), ValueCell(v, keys[n - 1], p)]
  {
    var before := Entries(v, keys, p, n - 1);
    var last := [KeyLabel(keys[n - 1]), ValueCell(v, keys[n - 1], p)];
    forall j | 0 <= j < 2 * n
      ensures Entries(v, keys, p, n)[j] == (before + last)[j]
    {
      if j < 2 * n - 2 {
        assert (before + last)[j] == before[j];
      } else {
        Halves(n - 1);
      }
    }
  }

  /** The `i`-th key's label sits at `2 * i`, its `<dd>` with the render of
      its value at `2 * i + 1`. */
  lemma EntriesAt(v: Json, keys: seq<string>, p: Policy, n: nat)
    requires v.JObj? && n <= |keys|
    requires forall k :: k in keys ==> k in Keys(v.fields)
    ensures |Entries(v, keys, p, n)| == 2 * n
    ensures forall i :: 0 <= i < n ==>
      && Entries(v, keys, p, n)[2 * i] == KeyLabel(keys[i])
      && Entries(v, keys, p, n)[2 * i + 1] == Element(Dd, [], [Render(v.fields[IndexOf(v.fields, keys[i])].1, p)])
  {
    var entries := Entries(v, keys, p, n);
    forall i | 0 <= i < n
      ensures entries[2 * i] == KeyLabel(keys[i])
      ensures entries[2 * i + 1] == Element(Dd, [], [Render(v.fields[IndexOf(v.fields, keys[i])].1, p)])
    {
      Halves(i);
      assert entries[2 * i + 1] == ValueCell(v, keys[i], p);
    }
  }

  /** An object: disclosure, `{`, a `<dl>` of 2 * |keys| children alternating
      a `<dt>` label `"key":` and a `<dd>` holding the render of the member
      `obj[key]` reads (left out when there are no keys), `}`, separator. */
  lemma ObjectShape(v: Json, p: Policy)
    requires v.JObj?
    ensures var n := Render(v, p);
      var keys := OrderKeys(v.fields, p.sortKeys);
      && n.tag == Div && n.classes == ["object", "collapsible"]
      && |n.children| == (if v.fields == [] then 4 else 5)
      && n.children[0] == Disclosure() && n.children[1] == Decorator("{")
      && n.children[|n.children| - 2] == Decorator("}")
      && n.children[|n.children| - 1] == Separator()
      && (v.fields != [] ==>
            var dl := n.children[2];
            && dl.Element? && dl.tag == Dl && dl.classes == ["value"]
            && |dl.children| == 2 * |v.fields|
            && forall i :: 0 <= i < |keys| ==>
                 && dl.children[2 * i] == Element(Dt, [], [Decorator("\""), Text(keys[i]), Decorator("\""), Delimiter()])
                 && dl.children[2 * i + 1] == Element(Dd, [], [Render(v.fields[IndexOf(v.fields, keys[i])].1, p)]))
  {
    var keys := OrderKeys(v.fields, p.sortKeys);
    var entries := Entries(v, keys, p, |keys|);
    EntriesAt(v, keys, p, |keys|);
    var list := Element(Dl, ["value"], entries);
    var n := ObjectNode(v, p);
    assert Render(v, p) == n;
    assert n.children == [Disclosure(), Decorator("{")] + ListIfAny(list) + [Decorator("}"), Separator()];
    if v.fields != [] {
      assert ListIfAny(list) == [list];
      assert n.children[2] == list;
    } else {
      assert ListIfAny(list) == [];
    }
  }

  /** A string is collapsible exactly when it is longer than the threshold,
      closed exactly when it is collapsible and folding is on; its classes
      are `string`, `collapsible`, `closed` in that order; the disclosure is
      present exactly when it is collapsible, the separator always. */
  lemma StringShape(s: string, p: Policy)
    ensures var n := Render(JStr(s), p);
      var collapsible := |s| > p.longStringLength;
      var closed := collapsible && p.foldStrings;
      && n.tag == Div
      && ("collapsible" in n.classes <==> collapsible)
      && ("closed" in n.classes <==> closed)
      && |n.classes| == 1 + (if collapsible then 1 else 0) + (if closed then 1 else 0)
      && n.classes[0] == "string"
      && (collapsible ==> n.classes[1] == "collapsible")
      && (closed ==> n.classes[2] == "closed")
      && (HasDisclosure(n.children) <==> collapsible)
      && (collapsible ==> n.children[0] == Disclosure())
      && Element(Span, ["value"], [Text(s)]) in n.children
      && n.children[|n.children| - 1] == Separator()
  {
    var n := Render(JStr(s), p);
    if |s| <= p.longStringLength {
      assert n.children == [Decorator("\""), Element(Span, ["value"], [Text(s)]), Decorator("\""), Separator()];
    }
  }

  /** Every element of a rendered tree has a disclosure triangle among its
      children exactly when it carries the `collapsible` class. */
  predicate DisclosureMarksCollapsible(n: Node)
  {
    match n
    case Text(_) => true
    case Element(_, classes, children) =>
      && (HasDisclosure(children) <==> "collapsible" in classes)
      && forall c :: c in children ==> DisclosureMarksCollapsible(c)
  }

  lemma DecorationsMarked(l: string)
    ensures DisclosureMarksCollapsible(Decorator(l))
    ensures DisclosureMarksCollapsible(Separator())
    ensures DisclosureMarksCollapsible(Disclosure())
    ensures DisclosureMarksCollapsible(Delimiter())
    ensures DisclosureMarksCollapsible(KeyLabel(l))
  {
    assert forall c :: c in Decorator(l).children ==> c == Text(l);
    assert forall c :: c in Separator().children ==> c == Text(",");
    assert forall c :: c in Delimiter().children ==> c == Text(":");
    var dt := KeyLabel(l);
    assert !HasDisclosure(dt.children);
    forall c | c in dt.children ensures DisclosureMarksCollapsible(c) {
      DecorationsMarkedLeaf(l);
    }
  }

  lemma DecorationsMarkedLeaf(l: string)
    ensures DisclosureMarksCollapsible(Decorator(l))
    ensures DisclosureMarksCollapsible(Delimiter())
    ensures DisclosureMarksCollapsible(Decorator("\""))
  {
    assert forall c :: c in Decorator(l).children ==> c == Text(l);
    assert forall c :: c in Decorator("\"").children ==> c == Text("\"");
    assert forall c :: c in Delimiter().children ==> c == Text(":");
  }

  /** A container with a disclosure, the list when it has children, and
      decorations around it is marked correctly when its list is. */
  lemma ContainerMarked(classes: seq<string>, open: string, list: Node, close: string)
    requires "collapsible" in classes
    requires list.Element? && "collapsible" !in list.classes && !HasDisclosure(list.children)
    requires forall c :: c in list.children ==> DisclosureMarksCollapsible(c)
    ensures DisclosureMarksCollapsible(
      Element(Div, classes, [Disclosure(), Decorator(open)] + ListIfAny(list) + [Decorator(close), Separator()]))
  {
    DecorationsMarkedLeaf(open);
    DecorationsMarkedLeaf(close);
    DecorationsMarked("");
    var children := [Disclosure(), Decorator(open)] + ListIfAny(list) + [Decorator(close), Separator()];
    assert children[0] == Disclosure();
    forall c | c in children ensures DisclosureMarksCollapsible(c) {
      if c in ListIfAny(list) {
        assert c == list;
      }
    }
  }

  /** The disclosure triangles of a rendered tree sit exactly in the
      collapsible nodes: containers always, strings when long, scalars never. */
  lemma {:induction false} RenderMarksCollapsible(v: Json, p: Policy)
    ensures DisclosureMarksCollapsible(Render(v, p))
    decreases v, 2
  {
    match v {
      case JArr(items) =>
        ArrayItemsMarked(v, p, |items|);
        ContainerMarked(["array", "collapsible"], "[", Element(Ol, ["value"], ArrayItems(v, p, |items|)), "]");
        assert Render(v, p) == ArrayNode(v, p);
      case JObj(fields) =>
        var keys := OrderKeys(fields, p.sortKeys);
        EntriesMarked(v, keys, p, |keys|);
        EntriesNoDisclosure(v, keys, p, |keys|);
        ContainerMarked(["object", "collapsible"], "{", Element(Dl, ["value"], Entries(v, keys, p, |keys|)), "}");
        assert Render(v, p) == ObjectNode(v, p);
      case JStr(s) =>
        StringMarked(s, p);
      case _ =>
        LeafMarked(v, p);
    }
  }

  lemma LeafMarked(v: Json, p: Policy)
    requires IsScalar(v) && !v.JStr?
    ensures DisclosureMarksCollapsible(Render(v, p))
  {
    var n := ValueNode(Literal(v));
    assert Render(v, p) == AddClass(n, TypeOf(v));
    DecorationsMarked("");
    assert forall c :: c in n.children ==> c == Text(Literal(v)) || c == Separator();
  }

  lemma StringMarked(s: string, p: Policy)
    ensures DisclosureMarksCollapsible(StringNode(s, p))
  {
    var n := StringNode(s, p);
    DecorationsMarked("");
    DecorationsMarkedLeaf("\"");
    var value := Element(Span, ["value"], [Text(s)]);
    assert DisclosureMarksCollapsible(value) by {
      assert forall c :: c in value.children ==> c == Text(s);
    }
    StringShape(s, p);
  }

  lemma ArrayItemsMarked(v: Json, p: Policy, n: nat)
    requires v.JArr? && n <= |v.items|
    ensures forall c :: c in ArrayItems(v, p, n) ==> DisclosureMarksCollapsible(c)
    decreases v, 1
  {
    var items := ArrayItems(v, p, n);
    forall i | 0 <= i < n ensures DisclosureMarksCollapsible(items[i]) {
      var child := Render(v.items[i], p);
      RenderMarksCollapsible(v.items[i], p);
      assert forall c :: c in items[i].children ==> c == child;
    }
  }

  lemma EntriesNoDisclosure(v: Json, keys: seq<string>, p: Policy, n: nat)
    requires v.JObj? && n <= |keys|
    requires forall k :: k in keys ==> k in Keys(v.fields)
    ensures !HasDisclosure(Entries(v, keys, p, n))
  {
    var entries := Entries(v, keys, p, n);
    forall j | 0 <= j < 2 * n ensures entries[j] != Disclosure() {
      if j % 2 == 1 {
        assert entries[j] == ValueCell(v, keys[j / 2], p);
      }
    }
  }

  lemma EntriesMarked(v: Json, keys: seq<string>, p: Policy, n: nat)
    requires v.JObj? && n <= |keys|
    requires forall k :: k in keys ==> k in Keys(v.fields)
    ensures forall c :: c in Entries(v, keys, p, n) ==> DisclosureMarksCollapsible(c)
    decreases v, 1, 1
  {
    var entries := Entries(v, keys, p, n);
    forall j | 0 <= j < 2 * n ensures DisclosureMarksCollapsible(entries[j]) {
      if j % 2 == 0 {
        DecorationsMarked(keys[j / 2]);
      } else {
        CellMarked(v, keys[j / 2], p);
      }
    }
  }

  lemma CellMarked(v: Json, k: string, p: Policy)
    requires v.JObj? && k in Keys(v.fields)
    ensures DisclosureMarksCollapsible(ValueCell(v, k, p))
    decreases v, 1, 0
  {
    var w := v.fields[IndexOf(v.fields, k)].1;
    RenderMarksCollapsible(w, p);
    var child := Render(w, p);
    var dd := Element(Dd, [], [child]);
    assert ValueCell(v, k, p) == dd;
    assert forall c :: c in dd.children ==> c == child;
  }
}
