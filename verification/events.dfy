/**
 * `handleEvents`: every disclosure triangle gets a click handler that
 * toggles `closed` on the triangle's parent element. The page state the
 * handlers change is the `className` of those parents, held here in
 * document order of their triangles.
 */
module Events {
  import opened Dom
  import Text
  import Classes
  import Current
  import Legacy
  import Json

  /** The parent element of each `.disclosure` under `n`, in document order. */
  function Owners(n: Node): (r: seq<Node>)
    ensures forall o :: o in r ==> o.Element? && HasDisclosure(o.children)
    decreases n, 1
  {
    match n
    case Text(_) => []
    case Element(_, _, children) => OwnersIn(n, children)
  }

  function OwnersIn(parent: Node, cs: seq<Node>): (r: seq<Node>)
    requires parent.Element? && forall c :: c in cs ==> c in parent.children
    ensures forall o :: o in r ==> o.Element? && HasDisclosure(o.children)
    decreases parent, 0, |cs|
  {
    if cs == [] then []
    else
      assert cs[0] in parent.children;
      (if cs[0] == Disclosure() then [parent] else []) + Owners(cs[0]) + OwnersIn(parent, cs[1..])
  }

  /** Number of `.disclosure` elements in the tree under `n`, `n` included. */
  function Triangles(n: Node): nat
    decreases n, 1
  {
    match n
    case Text(_) => 0
    case Element(_, _, children) => (if n == Disclosure() then 1 else 0) + TrianglesIn(n, children)
  }

  function TrianglesIn(parent: Node, cs: seq<Node>): nat
    requires parent.Element? && forall c :: c in cs ==> c in parent.children
    decreases parent, 0, |cs|
  {
    if cs == [] then 0
    else
      assert cs[0] in parent.children;
      Triangles(cs[0]) + TrianglesIn(parent, cs[1..])
  }

  /** Every node of the tree under `n`, in document order. */
  function Nodes(n: Node): seq<Node>
    decreases n, 1
  {
    match n
    case Text(_) => [n]
    case Element(_, _, children) => [n] + NodesIn(n, children)
  }

  function NodesIn(parent: Node, cs: seq<Node>): seq<Node>
    requires parent.Element? && forall c :: c in cs ==> c in parent.children
    decreases parent, 0, |cs|
  {
    if cs == [] then []
    else
      assert cs[0] in parent.children;
      Nodes(cs[0]) + NodesIn(parent, cs[1..])
  }

  /** One handler per triangle: every triangle below the root has its
      parent collected, once for each triangle it holds. */
  lemma {:induction false} OwnersPerTriangle(n: Node)
    ensures |Owners(n)| + (if n == Disclosure() then 1 else 0) == Triangles(n)
    decreases n, 1
  {
    match n {
      case Text(_) =>
      case Element(_, _, children) =>
        OwnersInPerTriangle(n, children);
    }
  }

  lemma {:induction false} OwnersInPerTriangle(parent: Node, cs: seq<Node>)
    requires parent.Element? && forall c :: c in cs ==> c in parent.children
    ensures |OwnersIn(parent, cs)| == TrianglesIn(parent, cs)
    decreases parent, 0, |cs|
  {
    if cs != [] {
      assert cs[0] in parent.children;
      OwnersPerTriangle(cs[0]);
      OwnersInPerTriangle(parent, cs[1..]);
    }
  }

  /** Every element of the tree that holds a triangle gets a handler. */
  lemma {:induction false} OwnersComplete(n: Node)
    ensures forall e :: e in Nodes(n) && e.Element? && HasDisclosure(e.children) ==> e in Owners(n)
    decreases n, 1
  {
    match n {
      case Text(_) =>
      case Element(_, _, children) =>
        OwnersInComplete(n, children);
        if HasDisclosure(children) {
          OwnersInHoldParent(n, children);
        }
    }
  }

  lemma {:induction false} OwnersInComplete(parent: Node, cs: seq<Node>)
    requires parent.Element? && forall c :: c in cs ==> c in parent.children
    ensures forall e :: e in NodesIn(parent, cs) && e.Element? && HasDisclosure(e.children) ==> e in OwnersIn(parent, cs)
    decreases parent, 0, |cs|
  {
    if cs != [] {
      assert cs[0] in parent.children;
      OwnersComplete(cs[0]);
      OwnersInComplete(parent, cs[1..]);
    }
  }

  lemma {:induction false} OwnersInHoldParent(parent: Node, cs: seq<Node>)
    requires parent.Element? && forall c :: c in cs ==> c in parent.children
    requires Disclosure() in cs
    ensures parent in OwnersIn(parent, cs)
    decreases |cs|
  {
    if cs[0] != Disclosure() {
      assert Disclosure() in cs[1..] by {
        var k :| 0 <= k < |cs| && cs[k] == Disclosure();
        assert cs[1..][k - 1] == Disclosure();
      }
      OwnersInHoldParent(parent, cs[1..]);
    }
  }

  /** The `className` of an element: its tokens joined with spaces. */
  function ClassName(n: Node): string
    requires n.Element?
  {
    Text.Join(n.classes, " ")
  }

  /** The collapse state of a mounted tree. */
  class Page {
    /** `className` of the parent of each disclosure triangle. */
    var classNames: array<string>

    /** `handleEvents()` on a mounted tree: one handler per triangle, each
        bound to the triangle's parent. */
    constructor (root: Node)
      ensures fresh(classNames)
      ensures classNames.Length == |Owners(root)|
      ensures forall i :: 0 <= i < classNames.Length ==> classNames[i] == ClassName(Owners(root)[i])
    {
      var owners := Owners(root);
      classNames := new string[|owners|](i requires 0 <= i < |owners| => ClassName(owners[i]));
    }

    /** A click on the `i`-th triangle: `_toggleClass(parent, "closed")` on
        its parent, and on no other element. */
    method Click(i: nat)
      requires i < classNames.Length
      modifies classNames
      ensures classNames[i] == Classes.Toggle(old(classNames[i]), "closed")
      ensures forall j :: 0 <= j < classNames.Length && j != i ==> classNames[j] == old(classNames[j])
    {
      classNames[i] := Classes.Toggle(classNames[i], "closed");
    }
  }

  /** In a tree where triangles mark collapsible nodes, every element a click
      can reach is collapsible. */
  lemma {:induction false} OwnersAreCollapsible(n: Node)
    requires Current.DisclosureMarksCollapsible(n)
    ensures forall o :: o in Owners(n) ==> "collapsible" in o.classes
    decreases n, 1
  {
    match n {
      case Text(_) =>
      case Element(_, _, children) =>
        OwnersInAreCollapsible(n, children);
    }
  }

  lemma {:induction false} OwnersInAreCollapsible(parent: Node, cs: seq<Node>)
    requires parent.Element? && forall c :: c in cs ==> c in parent.children
    requires Current.DisclosureMarksCollapsible(parent)
    ensures forall o :: o in OwnersIn(parent, cs) ==> "collapsible" in o.classes
    decreases parent, 0, |cs|
  {
    if cs != [] {
      assert cs[0] in parent.children;
      OwnersAreCollapsible(cs[0]);
      OwnersInAreCollapsible(parent, cs[1..]);
    }
  }

  /** A click in the current variant only ever toggles a collapsible node. */
  lemma ClicksReachCollapsible(v: Json.Json, p: Current.Policy)
    ensures forall o :: o in Owners(Current.Render(v, p)) ==> "collapsible" in o.classes
  {
    Current.RenderMarksCollapsible(v, p);
    OwnersAreCollapsible(Current.Render(v, p));
  }

  /** `handleEvents` on a rendered tree binds one handler per triangle,
      and every element holding a triangle gets one. */
  lemma OneHandlerPerTriangle(v: Json.Json, p: Current.Policy)
    ensures |Owners(Current.Render(v, p))| == Triangles(Current.Render(v, p))
    ensures forall e :: e in Nodes(Current.Render(v, p)) && e.Element? && HasDisclosure(e.children) ==>
                e in Owners(Current.Render(v, p))
  {
    var n := Current.Render(v, p);
    assert n != Disclosure() by {
      assert Json.TypeOf(v) in n.classes && Json.TypeOf(v) != "disclosure";
    }
    OwnersPerTriangle(n);
    OwnersComplete(n);
  }

  lemma {:induction false} NoOwners(n: Node)
    requires Legacy.NothingCollapsible(n)
    ensures Owners(n) == []
    decreases n, 1
  {
    match n {
      case Text(_) =>
      case Element(_, _, children) =>
        NoOwnersIn(n, children);
    }
  }

  lemma {:induction false} NoOwnersIn(parent: Node, cs: seq<Node>)
    requires parent.Element? && forall c :: c in cs ==> c in parent.children
    requires Legacy.NothingCollapsible(parent)
    ensures OwnersIn(parent, cs) == []
    decreases parent, 0, |cs|
  {
    if cs != [] {
      assert cs[0] in parent.children;
      NoOwners(cs[0]);
      NoOwnersIn(parent, cs[1..]);
    }
  }

  /** The earlier variant has no triangles, so nothing can be clicked. */
  lemma LegacyHasNoTriangles(v: Json.Json)
    ensures Owners(Legacy.Render(v)) == []
  {
    Legacy.RenderNothingCollapsible(v);
    NoOwners(Legacy.Render(v));
  }
}
