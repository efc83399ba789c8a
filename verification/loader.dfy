/**
 * `init` of both variants: read the body's text, try to parse it, and only
 * when that succeeds replace the body's content with the rendered tree.
 * `JSON.parse` and `JSON.stringify` are foreign and are passed in.
 */
module Loader {
  import opened Json
  import opened Dom
  import Escapes
  import Current
  import Legacy

  /** The `try` block of the current `init`: the optional unicode
      round-trip through parse and stringify, the escape fix-up, then the
      parse itself; `None` when any parse throws. A body that does not
      parse as it is never reaches the second parse, and without the
      round-trip a body without backslashes is parsed as it is. */
  function ParseBody(raw: string, unescapeUnicode: bool,
                     parse: string -> Option<Json>, stringify: Json -> string): (r: Option<Json>)
    ensures unescapeUnicode && parse(raw).None? ==> r.None?
    ensures !unescapeUnicode && '\\' !in raw ==> r == parse(raw)
  {
    if unescapeUnicode then
      match parse(raw)
      case None => None
      case Some(v) => parse(Escapes.FixEscapes(stringify(v)))
    else parse(Escapes.FixEscapes(raw))
  }

  /** The document body. */
  class Body {
    var nodes: seq<Node>

    /** A page whose body is the raw text the browser loaded. */
    constructor (raw: string)
      ensures nodes == [Text(raw)]
      ensures TextContent() == raw
    {
      nodes := [Text(raw)];
      assert TextOfAll([Text(raw)]) == TextOf(Text(raw)) + TextOfAll([Text(raw)][1..]);
      assert [Text(raw)][1..] == [];
    }

    /** `document.body.textContent` */
    function TextContent(): string
      reads this
    {
      TextOfAll(nodes)
    }

    /** `init` of the earlier variant: on a parse failure return with the
        body untouched; otherwise empty the body and append `render(obj)`. */
    method InitLegacy(parse: string -> Option<Json>)
      modifies this
      ensures parse(old(TextContent())).None? ==> nodes == old(nodes)
      ensures parse(old(TextContent())).Some? ==> nodes == [Legacy.Render(parse(old(TextContent())).value)]
    {
      var obj := parse(TextContent());
      if obj.None? {
        return;
      }
      nodes := [];
      var n := Legacy.BuildNode(obj.value);
      nodes := nodes + [n];
    }

    /** `init` of the current variant, once the settings have arrived: on a
        parse failure return before `preparePage`, with the body untouched;
        otherwise keep the raw text, line by line, in a first holder and
        mount `render(obj)` in a second one. */
    method InitCurrent(p: Current.Policy, parse: string -> Option<Json>, stringify: Json -> string)
      modifies this
      ensures ParseBody(old(TextContent()), p.unescapeUnicode, parse, stringify).None? ==> nodes == old(nodes)
      ensures ParseBody(old(TextContent()), p.unescapeUnicode, parse, stringify).Some? ==>
        nodes == [Element(Div, [], InnerText(old(TextContent()))),
                  Element(Div, [], [Current.Render(ParseBody(old(TextContent()), p.unescapeUnicode, parse, stringify).value, p)])]
    {
      var s := TextContent();
      if p.unescapeUnicode {
        var u := parse(s);
        if u.None? {
          return;
        }
        s := stringify(u.value);
      }
      var obj := parse(Escapes.FixEscapes(s));
      assert obj == ParseBody(old(TextContent()), p.unescapeUnicode, parse, stringify);
      if obj.None? {
        return;
      }
      ghost var raw := TextContent();
      assert raw == old(TextContent());
      PreparePage();
      assert nodes[0] == Element(Div, [], InnerText(raw));
      var n := Current.BuildNode(obj.value, p);
      nodes := [nodes[0], Element(Div, [], nodes[1].children + [n])];
      assert nodes[1] == Element(Div, [], [n]);
    }

    /** `preparePage`: the body is emptied, two empty holders are added,
        and the raw text is set as the first holder's `innerText`, which
        splits it into lines separated by `<br>`s. Read back, the first
        holder gives the raw text with its line breaks normalized. */
    method PreparePage()
      modifies this
      ensures nodes == [Element(Div, [], InnerText(old(TextContent()))), Element(Div, [], [])]
      ensures ReadBack(nodes[0].children) == Normalized(old(TextContent()))
    {
      var json := TextContent();
      nodes := [];
      nodes := nodes + [Element(Div, [], []), Element(Div, [], [])];
      nodes := [Element(Div, [], InnerText(json)), nodes[1]];
      InnerTextReadBack(json);
    }
  }
}
