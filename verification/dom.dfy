/**
 * The document nodes the renderer builds. `_html('<span class="x">y</span>')`
 * becomes a constructor, `_append(parent, nodes)` becomes concatenation of
 * children, and the empty markup string '' contributes no node at all.
 */
module Dom {

  datatype Tag = Div | Span | Ol | Li | Dl | Dt | Dd | Br

  /** An element with its class tokens (the `className` split on spaces)
      and children, or a text node. */
  datatype Node =
    | Element(tag: Tag, classes: seq<string>, children: seq<Node>)
    | Text(text: string)

  /** `<span class="decorator">s</span>` */
  function Decorator(s: string): Node
  {
    Element(Span, ["decorator"], [Text(s)])
  }

  /** `<span class="separator">,</span>` */
  function Separator(): Node
  {
    Element(Span, ["separator"], [Text(",")])
  }

  /** `<span class="disclosure"></span>` */
  function Disclosure(): Node
  {
    Element(Span, ["disclosure"], [])
  }

  /** `<span class="delimiter">:</span>` */
  function Delimiter(): Node
  {
    Element(Span, ["delimiter"], [Text(":")])
  }

  /** The `<dt/>` of an object member: the key between quote decorators,
      then the `:` delimiter. */
  function KeyLabel(k: string): Node
  {
    Element(Dt, [], [Decorator("\""), Text(k), Decorator("\""), Delimiter()])
  }

  /** The pair of a `<dl>` list holding entry `i`: `<dt>` at `2 * i`,
      `<dd>` at `2 * i + 1`. */
  lemma Halves(i: nat)
    ensures (2 * i) % 2 == 0 && (2 * i) / 2 == i
    ensures (2 * i + 1) % 2 == 1 && (2 * i + 1) / 2 == i
  {
  }

  /** `list.childNodes.length ? list : ''` handed to `_html`: the list
      element when it has children, and no node at all otherwise. */
  function ListIfAny(list: Node): (r: seq<Node>)
    requires list.Element?
    ensures |r| <= 1
    ensures r == [] <==> list.children == []
    ensures forall n :: n in r ==> n == list
  {
    if |list.children| > 0 then [list] else []
  }

  /** `el.className += " " + t`: one more class token at the end. */
  function AddClass(n: Node, t: string): (r: Node)
    requires n.Element?
    ensures r.Element? && r.tag == n.tag && r.children == n.children
    ensures r.classes == n.classes + [t]
  {
    n.(classes := n.classes + [t])
  }

  /** `textContent` of a node: its text nodes, concatenated in document order. */
  function TextOf(n: Node): string
  {
    match n
    case Text(s) => s
    case Element(_, _, cs) => TextOfAll(cs)
  }

  function TextOfAll(ns: seq<Node>): string
  {
    if ns == [] then "" else TextOf(ns[0]) + TextOfAll(ns[1..])
  }

  lemma {:induction false} TextOfAllAppend(a: seq<Node>, b: seq<Node>)
    ensures TextOfAll(a + b) == TextOfAll(a) + TextOfAll(b)
    decreases |a|
  {
    if a == [] {
      assert a + b == b;
    } else {
      assert (a + b)[0] == a[0] && (a + b)[1..] == a[1..] + b;
      TextOfAllAppend(a[1..], b);
    }
  }

  lemma TextOfAllCons(a: Node, rest: seq<Node>)
    ensures TextOfAll([a] + rest) == TextOf(a) + TextOfAll(rest)
  {
    assert ([a] + rest)[0] == a && ([a] + rest)[1..] == rest;
  }

  lemma TextOfAllOne(a: Node)
    ensures TextOfAll([a]) == TextOf(a)
  {
    assert [a][1..] == [];
  }

  lemma TextOfAllTwo(a: Node, b: Node)
    ensures TextOfAll([a, b]) == TextOf(a) + TextOf(b)
  {
    TextOfAllOne(b);
    assert [a, b][1..] == [b];
  }

  lemma TextOfAllFour(a: Node, b: Node, c: Node, d: Node)
    ensures TextOfAll([a, b, c, d]) == TextOf(a) + TextOf(b) + TextOf(c) + TextOf(d)
  {
    TextOfAllTwo(c, d);
    TextOfAllCons(b, [c, d]);
    TextOfAllCons(a, [b, c, d]);
    assert [a] + [b, c, d] == [a, b, c, d];
    assert [b] + [c, d] == [b, c, d];
    var ta, tb, tcd := TextOf(a), TextOf(b), TextOf(c) + TextOf(d);
    assert ta + (tb + tcd) == ta + tb + tcd;
  }

  /** The text each decoration shows. */
  lemma DecorationTexts(l: string)
    ensures TextOf(Decorator(l)) == l
    ensures TextOf(Separator()) == ","
    ensures TextOf(Disclosure()) == ""
    ensures TextOf(Delimiter()) == ":"
    ensures TextOf(KeyLabel(l)) == "\"" + l + "\"" + ":"
  {
    TextOfAllOne(Text(l));
    TextOfAllOne(Text(","));
    TextOfAllOne(Text(":"));
    TextOfAllOne(Text("\""));
    TextOfAllFour(Decorator("\""), Text(l), Decorator("\""), Delimiter());
  }

  /** A list left out of the markup shows the same (empty) text as its
      children would. */
  lemma ListIfAnyText(list: Node)
    requires list.Element?
    ensures TextOfAll(ListIfAny(list)) == TextOfAll(list.children)
  {
    if |list.children| > 0 {
      TextOfAllCons(list, []);
    }
  }

  // ---------------------------------------------------------------------
  // The `innerText` setter.

  /** `<br>` */
  function LineBreak(): Node
  {
    Element(Br, [], [])
  }

  predicate IsBreak(c: char)
  {
    c == '\n' || c == '\r'
  }

  /** A text node for the characters collected so far, if there are any. */
  function Flush(pending: string): seq<Node>
  {
    if pending == [] then [] else [Text(pending)]
  }

  /** The nodes the `innerText` setter creates for `s`, `pending` being the
      run of ordinary characters collected so far: each run of characters
      other than line feed and carriage return becomes one text node, and
      each line break (a carriage return followed by a line feed counting
      as one) becomes a `<br>`. */
  function InnerTextFrom(s: string, pending: string): (ns: seq<Node>)
    requires forall c :: c in pending ==> !IsBreak(c)
    ensures forall n :: n in ns ==> n == LineBreak() || (n.Text? && n.text != [] && forall c :: c in n.text ==> !IsBreak(c))
    decreases |s|
  {
    if s == [] then Flush(pending)
    else if IsBreak(s[0]) then
      var rest := if s[0] == '\r' && |s| > 1 && s[1] == '\n' then s[2..] else s[1..];
      Flush(pending) + [LineBreak()] + InnerTextFrom(rest, "")
    else InnerTextFrom(s[1..], pending + [s[0]])
  }

  /** `el.innerText = s`: the children `el` is given. Every child is a
      `<br>` or a non-empty text node without line breaks. */
  function InnerText(s: string): (ns: seq<Node>)
    ensures forall n :: n in ns ==> n == LineBreak() || (n.Text? && n.text != [] && forall c :: c in n.text ==> !IsBreak(c))
  {
    InnerTextFrom(s, "")
  }

  /** Reference definition: `s` with every carriage return, alone or
      before a line feed, turned into one line feed. */
  function Normalized(s: string): string
    decreases |s|
  {
    if s == [] then ""
    else if s[0] == '\r' then
      "\n" + Normalized(if |s| > 1 && s[1] == '\n' then s[2..] else s[1..])
    else [s[0]] + Normalized(s[1..])
  }

  /** Reference definition: `s` without its line feeds and carriage returns. */
  function WithoutBreaks(s: string): string
  {
    if s == [] then "" else (if IsBreak(s[0]) then "" else [s[0]]) + WithoutBreaks(s[1..])
  }

  /** The text read back from a run of text nodes and `<br>`s, a `<br>`
      reading as a line feed. */
  function ReadBack(ns: seq<Node>): string
  {
    if ns == [] then ""
    else (if ns[0] == LineBreak() then "\n" else TextOf(ns[0])) + ReadBack(ns[1..])
  }

  lemma {:induction false} ReadBackAppend(a: seq<Node>, b: seq<Node>)
    ensures ReadBack(a + b) == ReadBack(a) + ReadBack(b)
    decreases |a|
  {
    if a == [] {
      assert a + b == b;
    } else {
      assert (a + b)[0] == a[0] && (a + b)[1..] == a[1..] + b;
      ReadBackAppend(a[1..], b);
    }
  }

  lemma FlushTexts(pending: string)
    ensures ReadBack(Flush(pending)) == pending
    ensures TextOfAll(Flush(pending)) == pending
  {
    if pending != [] {
      TextOfAllOne(Text(pending));
      assert [Text(pending)][1..] == [];
    }
  }

  /** A break after the collected run reads back as the run and a line feed. */
  lemma BreakTexts(pending: string, tail: seq<Node>)
    ensures ReadBack(Flush(pending) + [LineBreak()] + tail) == pending + "\n" + ReadBack(tail)
    ensures TextOfAll(Flush(pending) + [LineBreak()] + tail) == pending + TextOfAll(tail)
  {
    FlushTexts(pending);
    ReadBackAppend(Flush(pending) + [LineBreak()], tail);
    ReadBackAppend(Flush(pending), [LineBreak()]);
    assert [LineBreak()][1..] == [];
    TextOfAllAppend(Flush(pending) + [LineBreak()], tail);
    TextOfAllAppend(Flush(pending), [LineBreak()]);
    TextOfAllOne(LineBreak());
  }

  lemma NormalizedBreak(s: string)
    requires s != [] && IsBreak(s[0])
    ensures Normalized(s) == "\n" + Normalized(if s[0] == '\r' && |s| > 1 && s[1] == '\n' then s[2..] else s[1..])
  {
  }

  /** An ordinary first character joins the collected run. */
  lemma PendingMore(s: string, pending: string) returns (more: string)
    requires forall c :: c in pending ==> !IsBreak(c)
    requires s != [] && !IsBreak(s[0])
    ensures more == pending + [s[0]]
    ensures forall c :: c in more ==> !IsBreak(c)
    ensures InnerTextFrom(s, pending) == InnerTextFrom(s[1..], more)
  {
    more := pending + [s[0]];
    forall c | c in more ensures !IsBreak(c) {
      if c !in pending {
        assert c == s[0];
      }
    }
  }

  lemma {:induction false} InnerTextFromReadBack(s: string, pending: string)
    requires forall c :: c in pending ==> !IsBreak(c)
    ensures ReadBack(InnerTextFrom(s, pending)) == pending + Normalized(s)
    decreases |s|
  {
    if s == [] {
      FlushTexts(pending);
    } else if IsBreak(s[0]) {
      var rest := if s[0] == '\r' && |s| > 1 && s[1] == '\n' then s[2..] else s[1..];
      InnerTextFromReadBack(rest, "");
      BreakReadBack(s, pending, rest);
    } else {
      var more := PendingMore(s, pending);
      InnerTextFromReadBack(s[1..], more);
      CharReadBack(s, pending, more);
    }
  }

  lemma BreakReadBack(s: string, pending: string, rest: string)
    requires forall c :: c in pending ==> !IsBreak(c)
    requires s != [] && IsBreak(s[0])
    requires rest == if s[0] == '\r' && |s| > 1 && s[1] == '\n' then s[2..] else s[1..]
    requires ReadBack(InnerTextFrom(rest, "")) == Normalized(rest)
    ensures ReadBack(InnerTextFrom(s, pending)) == pending + Normalized(s)
  {
    assert InnerTextFrom(s, pending) == Flush(pending) + [LineBreak()] + InnerTextFrom(rest, "");
    BreakTexts(pending, InnerTextFrom(rest, ""));
    NormalizedBreak(s);
  }

  lemma CharReadBack(s: string, pending: string, more: string)
    requires s != [] && !IsBreak(s[0]) && more == pending + [s[0]]
    requires forall c :: c in more ==> !IsBreak(c)
    requires InnerTextFrom(s, pending) == InnerTextFrom(s[1..], more)
    requires ReadBack(InnerTextFrom(s[1..], more)) == more + Normalized(s[1..])
    ensures ReadBack(InnerTextFrom(s, pending)) == pending + Normalized(s)
  {
    assert Normalized(s) == [s[0]] + Normalized(s[1..]);
    assert more + Normalized(s[1..]) == pending + ([s[0]] + Normalized(s[1..]));
  }

  /** Reading the children back gives the text with its line breaks
      normalized to line feeds: nothing but the kind of break is lost. */
  lemma InnerTextReadBack(s: string)
    ensures ReadBack(InnerText(s)) == Normalized(s)
  {
    InnerTextFromReadBack(s, "");
  }

  lemma {:induction false} InnerTextFromContent(s: string, pending: string)
    requires forall c :: c in pending ==> !IsBreak(c)
    ensures TextOfAll(InnerTextFrom(s, pending)) == pending + WithoutBreaks(s)
    decreases |s|
  {
    if s == [] {
      FlushTexts(pending);
    } else if IsBreak(s[0]) {
      var pair := s[0] == '\r' && |s| > 1 && s[1] == '\n';
      var rest := if pair then s[2..] else s[1..];
      InnerTextFromContent(rest, "");
      BreakTexts(pending, InnerTextFrom(rest, ""));
      if pair {
        assert s[1..][1..] == s[2..];
        assert WithoutBreaks(s[1..]) == WithoutBreaks(s[2..]);
      }
      assert WithoutBreaks(s) == WithoutBreaks(rest);
    } else {
      var more := PendingMore(s, pending);
      InnerTextFromContent(s[1..], more);
      assert WithoutBreaks(s) == [s[0]] + WithoutBreaks(s[1..]);
      assert more + WithoutBreaks(s[1..]) == pending + ([s[0]] + WithoutBreaks(s[1..]));
    }
  }

  /** The text content of the children is the text without its line breaks. */
  lemma InnerTextContent(s: string)
    ensures TextOfAll(InnerText(s)) == WithoutBreaks(s)
  {
    InnerTextFromContent(s, "");
  }

  lemma {:induction false} InnerTextFromOneLine(s: string, pending: string)
    requires forall c :: c in pending ==> !IsBreak(c)
    requires forall c :: c in s ==> !IsBreak(c)
    ensures InnerTextFrom(s, pending) == Flush(pending + s)
    decreases |s|
  {
    if s == [] {
      assert pending + s == pending;
    } else {
      assert s[0] in s;
      InnerTextFromOneLine(s[1..], pending + [s[0]]);
      assert pending + [s[0]] + s[1..] == pending + s;
    }
  }

  /** A single line becomes a single text node; empty text, no node. */
  lemma InnerTextOneLine(s: string)
    requires forall c :: c in s ==> !IsBreak(c)
    ensures s != [] ==> InnerText(s) == [Text(s)]
    ensures s == [] ==> InnerText(s) == []
  {
    InnerTextFromOneLine(s, "");
    assert "" + s == s;
  }

  /** Whether one of the children is a disclosure triangle. */
  predicate HasDisclosure(children: seq<Node>)
  {
    Disclosure() in children
  }
}
