/**
 * The text a rendered value shows (its `textContent`): each value's
 * literal text, strings and keys unescaped between quote decorators,
 * brackets and braces around containers, `:` after every key and `,` after
 * every value, keys in the order the renderer emits them. This is not JSON
 * text: a string holding a quote shows that quote as it is. Both variants
 * show exactly this text, so they differ only in structure and classes,
 * and in key order when `sort_keys` is set.
 */
module Shown {
  import opened Json
  import opened Dom
  import Current
  import Legacy

  /** Reference definition of the displayed text, keys sorted when `sortKeys`. */
  function Shown(v: Json, sortKeys: bool): string
    decreases v, 1
  {
    match v
    case JArr(items) => "[" + ShownItems(v, sortKeys, |items|) + "]" + ","
    case JObj(fields) =>
      var keys := Current.OrderKeys(fields, sortKeys);
      "{" + ShownEntries(v, keys, sortKeys, |keys|) + "}" + ","
    case JStr(s) => "\"" + s + "\"" + ","
    case _ => Literal(v) + ","
  }

  function ShownItems(v: Json, sortKeys: bool, n: nat): string
    requires v.JArr? && n <= |v.items|
    decreases v, 0, n
  {
    if n == 0 then "" else ShownItems(v, sortKeys, n - 1) + Shown(v.items[n - 1], sortKeys)
  }

  function ShownEntries(v: Json, keys: seq<string>, sortKeys: bool, n: nat): string
    requires v.JObj? && n <= |keys|
    requires forall k :: k in keys ==> k in Keys(v.fields)
    decreases v, 0, n
  {
    if n == 0 then ""
    else
      var k := keys[n - 1];
      ShownEntries(v, keys, sortKeys, n - 1) + "\"" + k + "\"" + ":" + Shown(v.fields[IndexOf(v.fields, k)].1, sortKeys)
  }

  /** The text of a container: opening decoration, list, closing
      decoration, separator (and an optional triangle showing nothing). */
  lemma ContainerText(triangle: seq<Node>, open: string, list: Node, close: string)
    requires triangle == [] || triangle == [Disclosure()]
    requires list.Element?
    ensures TextOfAll(triangle + [Decorator(open)] + ListIfAny(list) + [Decorator(close), Separator()])
         == open + TextOfAll(list.children) + close + ","
  {
    DecorationTexts(open);
    DecorationTexts(close);
    ListIfAnyText(list);
    var head := triangle + [Decorator(open)];
    var body := head + ListIfAny(list);
    TextOfAllTwo(Decorator(close), Separator());
    TextOfAllAppend(body, [Decorator(close), Separator()]);
    TextOfAllAppend(head, ListIfAny(list));
    TextOfAllAppend(triangle, [Decorator(open)]);
    TextOfAllOne(Decorator(open));
    if triangle != [] {
      TextOfAllOne(Disclosure());
    }
  }

  /** The current variant shows the value's text, keys in emitted order. */
  lemma {:induction false} CurrentShows(v: Json, p: Current.Policy)
    ensures TextOf(Current.Render(v, p)) == Shown(v, p.sortKeys)
    decreases v, 2
  {
    match v {
      case JArr(items) =>
        CurrentItemsShow(v, p, |items|);
        ContainerText([Disclosure()], "[", Element(Ol, ["value"], Current.ArrayItems(v, p, |items|)), "]");
        assert [Disclosure()] + [Decorator("[")] == [Disclosure(), Decorator("[")];
      case JObj(fields) =>
        var keys := Current.OrderKeys(fields, p.sortKeys);
        CurrentEntriesShow(v, keys, p, |keys|);
        ContainerText([Disclosure()], "{", Element(Dl, ["value"], Current.Entries(v, keys, p, |keys|)), "}");
        assert [Disclosure()] + [Decorator("{")] == [Disclosure(), Decorator("{")];
      case _ =>
        CurrentLeafShows(v, p);
    }
  }

  lemma CurrentLeafShows(v: Json, p: Current.Policy)
    requires IsScalar(v)
    ensures TextOf(Current.Render(v, p)) == Shown(v, p.sortKeys)
  {
    DecorationTexts("\"");
    if v.JStr? {
      var s := v.s;
      var tail := [Decorator("\""), Element(Span, ["value"], [Text(s)]), Decorator("\""), Separator()];
      TextOfAllOne(Text(s));
      TextOfAllFour(Decorator("\""), Element(Span, ["value"], [Text(s)]), Decorator("\""), Separator());
      if |s| > p.longStringLength {
        TextOfAllCons(Disclosure(), tail);
      } else {
        assert [] + tail == tail;
      }
    } else {
      TextOfAllTwo(Text(Literal(v)), Separator());
    }
  }

  lemma {:induction false} CurrentItemsShow(v: Json, p: Current.Policy, n: nat)
    requires v.JArr? && n <= |v.items|
    ensures TextOfAll(Current.ArrayItems(v, p, n)) == ShownItems(v, p.sortKeys, n)
    decreases v, 1, n
  {
    if n > 0 {
      Current.ArrayItemsStep(v, p, n);
      CurrentItemsShow(v, p, n - 1);
      CurrentShows(v.items[n - 1], p);
      var child := Current.Render(v.items[n - 1], p);
      TextOfAllOne(child);
      TextOfAllOne(Element(Li, [], [child]));
      TextOfAllAppend(Current.ArrayItems(v, p, n - 1), [Element(Li, [], [child])]);
    }
  }

  lemma {:induction false} CurrentEntriesShow(v: Json, keys: seq<string>, p: Current.Policy, n: nat)
    requires v.JObj? && n <= |keys|
    requires forall k :: k in keys ==> k in Keys(v.fields)
    ensures TextOfAll(Current.Entries(v, keys, p, n)) == ShownEntries(v, keys, p.sortKeys, n)
    decreases v, 1, n
  {
    if n > 0 {
      var k := keys[n - 1];
      Current.EntriesStep(v, keys, p, n);
      CurrentEntriesShow(v, keys, p, n - 1);
      CurrentCellShows(v, k, p);
      EntryStepText(Current.Entries(v, keys, p, n), Current.Entries(v, keys, p, n - 1), k, Current.ValueCell(v, k, p),
        ShownEntries(v, keys, p.sortKeys, n - 1), Shown(v.fields[IndexOf(v.fields, k)].1, p.sortKeys));
    }
  }

  lemma CurrentCellShows(v: Json, k: string, p: Current.Policy)
    requires v.JObj? && k in Keys(v.fields)
    ensures TextOf(Current.ValueCell(v, k, p)) == Shown(v.fields[IndexOf(v.fields, k)].1, p.sortKeys)
    decreases v, 1, 0
  {
    var w := v.fields[IndexOf(v.fields, k)].1;
    CurrentShows(w, p);
    TextOfAllOne(Current.Render(w, p));
  }

  /** One more entry pair extends the shown entries by `"key":` and the
      value's text. */
  lemma EntryStepText(whole: seq<Node>, before: seq<Node>, k: string, cell: Node, shownBefore: string, shownValue: string)
    requires whole == before + [KeyLabel(k), cell]
    requires TextOfAll(before) == shownBefore && TextOf(cell) == shownValue
    ensures TextOfAll(whole) == shownBefore + "\"" + k + "\"" + ":" + shownValue
  {
    EntryText(k, cell, before);
  }

  /** Appending a `<dt>` label and a `<dd>` appends `"key":` and the value's text. */
  lemma EntryText(k: string, cell: Node, before: seq<Node>)
    ensures TextOfAll(before + [KeyLabel(k), cell])
         == TextOfAll(before) + "\"" + k + "\"" + ":" + TextOf(cell)
  {
    DecorationTexts(k);
    TextOfAllTwo(KeyLabel(k), cell);
    TextOfAllAppend(before, [KeyLabel(k), cell]);
    var a, dt, c := TextOfAll(before), "\"" + k + "\"" + ":", TextOf(cell);
    assert a + (dt + c) == a + dt + c;
    assert a + dt == a + "\"" + k + "\"" + ":";
  }

  /** The earlier variant shows the value's text, keys in enumeration order. */
  lemma {:induction false} LegacyShows(v: Json)
    ensures TextOf(Legacy.Render(v)) == Shown(v, false)
    decreases v, 2
  {
    match v {
      case JArr(items) =>
        LegacyItemsShow(v, |items|);
        ContainerText([], "[", Element(Ol, [], Legacy.ArrayItems(v, |items|)), "]");
        assert [] + [Decorator("[")] == [Decorator("[")];
      case JObj(fields) =>
        LegacyEntriesShow(v, |fields|);
        ContainerText([], "{", Element(Dl, [], Legacy.Entries(v, |fields|)), "}");
        assert [] + [Decorator("{")] == [Decorator("{")];
      case _ =>
        LegacyLeafShows(v);
    }
  }

  lemma LegacyLeafShows(v: Json)
    requires IsScalar(v)
    ensures TextOf(Legacy.Render(v)) == Shown(v, false)
  {
    var l := Literal(v);
    DecorationTexts("\"");
    if v.JStr? {
      TextOfAllFour(Decorator("\""), Text(l), Decorator("\""), Separator());
      assert [Decorator("\""), Text(l), Decorator("\"")] + [Separator()]
          == [Decorator("\""), Text(l), Decorator("\""), Separator()];
    } else {
      TextOfAllTwo(Text(l), Separator());
      assert [Text(l)] + [Separator()] == [Text(l), Separator()];
    }
  }

  lemma {:induction false} LegacyItemsShow(v: Json, n: nat)
    requires v.JArr? && n <= |v.items|
    ensures TextOfAll(Legacy.ArrayItems(v, n)) == ShownItems(v, false, n)
    decreases v, 1, n
  {
    if n > 0 {
      Legacy.ArrayItemsStep(v, n);
      LegacyItemsShow(v, n - 1);
      LegacyShows(v.items[n - 1]);
      var child := Legacy.Render(v.items[n - 1]);
      TextOfAllOne(child);
      TextOfAllOne(Element(Li, [], [child]));
      TextOfAllAppend(Legacy.ArrayItems(v, n - 1), [Element(Li, [], [child])]);
    }
  }

  lemma {:induction false} LegacyEntriesShow(v: Json, n: nat)
    requires v.JObj? && n <= |v.fields|
    ensures TextOfAll(Legacy.Entries(v, n)) == ShownEntries(v, Keys(v.fields), false, n)
    decreases v, 1, n
  {
    if n > 0 {
      var keys, k := Keys(v.fields), v.fields[n - 1].0;
      Legacy.EntriesStep(v, n);
      LegacyEntriesShow(v, n - 1);
      LegacyCellShows(v, n - 1);
      assert keys[n - 1] == k;
      EntryStepText(Legacy.Entries(v, n), Legacy.Entries(v, n - 1), k, Legacy.ValueCell(v, n - 1),
        ShownEntries(v, keys, false, n - 1), Shown(v.fields[IndexOf(v.fields, k)].1, false));
    }
  }

  lemma LegacyCellShows(v: Json, i: nat)
    requires v.JObj? && i < |v.fields|
    ensures v.fields[i].0 in Keys(v.fields)
    ensures TextOf(Legacy.ValueCell(v, i)) == Shown(v.fields[IndexOf(v.fields, v.fields[i].0)].1, false)
    decreases v, 1, 0
  {
    var k := v.fields[i].0;
    assert k == Keys(v.fields)[i];
    var w := v.fields[IndexOf(v.fields, k)].1;
    LegacyShows(w);
    TextOfAllOne(Legacy.Render(w));
  }

  /** Without `sort_keys` the two variants show the same text. */
  lemma SameTextUnsorted(v: Json, p: Current.Policy)
    requires !p.sortKeys
    ensures TextOf(Current.Render(v, p)) == TextOf(Legacy.Render(v))
  {
    CurrentShows(v, p);
    LegacyShows(v);
  }
}
