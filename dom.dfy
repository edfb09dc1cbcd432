/** The document the engine walks, as an immutable value.
    Nodes live in a sequence and refer to each other by index; `Null` (-1)
    stands for a missing link. A link is only followed when it points
    backwards (parent, previous sibling) or forwards (next sibling, children)
    in document order, so every walk terminates; `Linked` states when the
    links form a proper tree. */
module Dom {
  import opened Chars

  const Null: int := -1
  const ElementNode: int := 1
  const TextNode: int := 3
  const DocumentNode: int := 9

  /** One DOM node with the properties the engine reads.
      `state` holds the names of the host-state pseudo-classes whose host
      condition holds for this element: "any-link" (`href` is set),
      "local-link", "disabled", "indeterminate", "checked" (`checked` or
      `selected`) and "focus" (the active, focusable element of a focused
      document). */
  datatype Node = Node(
    nodeType: int,
    nodeName: string,
    id: string,
    className: string,
    attributes: map<string, string>,
    lang: string,
    dir: string,
    state: set<string>,
    parent: int,
    previous: int,
    next: int,
    firstChild: int,
    lastChild: int)

  /** A document: its nodes in document order, the index of the
      `documentElement` and the fragment of the location (`location.hash`
      without its leading `#`). */
  datatype Tree = Tree(nodes: seq<Node>, documentElement: int, hash: string)

  const Blank := Node(0, "", "", "", map[], "", "", {}, Null, Null, Null, Null, Null)

  predicate IsNode(t: Tree, x: int)
  {
    0 <= x < |t.nodes|
  }

  predicate IsElement(t: Tree, x: int)
  {
    IsNode(t, x) && t.nodes[x].nodeType == ElementNode
  }

  /** The node at `x`, or a blank node for a missing link. */
  function At(t: Tree, x: int): (n: Node)
    ensures !IsNode(t, x) ==> n == Blank
  {
    if IsNode(t, x) then t.nodes[x] else Blank
  }

  /** `parentNode`: an earlier node, or `Null`. */
  function Parent(t: Tree, x: int): (p: int)
    ensures p == Null || (IsNode(t, p) && p < x)
  {
    var p := At(t, x).parent;
    if IsNode(t, x) && 0 <= p < x then p else Null
  }

  /** `previousSibling`: an earlier node, or `Null`. */
  function Previous(t: Tree, x: int): (p: int)
    ensures p == Null || (IsNode(t, p) && p < x)
  {
    var p := At(t, x).previous;
    if IsNode(t, x) && 0 <= p < x then p else Null
  }

  /** `nextSibling`: a later node, or `Null`. */
  function Next(t: Tree, x: int): (n: int)
    ensures n == Null || (IsNode(t, n) && x < n)
  {
    var n := At(t, x).next;
    if IsNode(t, x) && x < n < |t.nodes| then n else Null
  }

  /** `firstChild`: a later node, or `Null`. */
  function FirstChild(t: Tree, x: int): (c: int)
    ensures c == Null || (IsNode(t, c) && x < c)
  {
    var c := At(t, x).firstChild;
    if IsNode(t, x) && x < c < |t.nodes| then c else Null
  }

  /** `lastChild`: a later node, or `Null`. */
  function LastChild(t: Tree, x: int): (c: int)
    ensures c == Null || (IsNode(t, c) && x < c)
  {
    var c := At(t, x).lastChild;
    if IsNode(t, x) && x < c < |t.nodes| then c else Null
  }

  /** The first element met walking backwards from `x` itself. */
  function ElementAtOrBefore(t: Tree, x: int): (r: int)
    ensures r == Null || (IsElement(t, r) && r <= x)
    ensures IsElement(t, x) ==> r == x
    decreases x
  {
    if !IsNode(t, x) then Null
    else if IsElement(t, x) then x
    else ElementAtOrBefore(t, Previous(t, x))
  }

  /** The first element met walking forwards from `x` itself. */
  function ElementAtOrAfter(t: Tree, x: int): (r: int)
    ensures r == Null || (IsElement(t, r) && x <= r)
    ensures IsElement(t, x) ==> r == x
    decreases |t.nodes| - x
  {
    if !IsNode(t, x) then Null
    else if IsElement(t, x) then x
    else if Next(t, x) == Null then Null
    else ElementAtOrAfter(t, Next(t, x))
  }

  /** `previousElementSibling`. */
  function PreviousElement(t: Tree, x: int): (r: int)
    ensures r == Null || (IsElement(t, r) && r < x)
  {
    ElementAtOrBefore(t, Previous(t, x))
  }

  /** `nextElementSibling`. */
  function NextElement(t: Tree, x: int): (r: int)
    ensures r == Null || (IsElement(t, r) && x < r)
  {
    ElementAtOrAfter(t, Next(t, x))
  }

  /** The sibling chain that starts at `c` and follows `nextSibling`. */
  function ChainFrom(t: Tree, c: int): (s: seq<int>)
    ensures forall i :: 0 <= i < |s| ==> IsNode(t, s[i])
    ensures |s| > 0 <==> IsNode(t, c)
    ensures |s| > 0 ==> s[0] == c
    decreases |t.nodes| - c
  {
    if !IsNode(t, c) then []
    else if Next(t, c) == Null then [c]
    else [c] + ChainFrom(t, Next(t, c))
  }

  /** `childNodes`. */
  function ChildNodes(t: Tree, p: int): seq<int>
  {
    ChainFrom(t, FirstChild(t, p))
  }

  /** The element nodes of a list of nodes, in order. */
  function Elements(t: Tree, s: seq<int>): (r: seq<int>)
    ensures |r| <= |s|
    ensures forall x :: x in r <==> x in s && IsElement(t, x)
  {
    if s == [] then [] else (if IsElement(t, s[0]) then [s[0]] else []) + Elements(t, s[1..])
  }

  /** `children`: the element children of `p`. */
  function ElementChildren(t: Tree, p: int): seq<int>
  {
    Elements(t, ChildNodes(t, p))
  }

  /** The nodes strictly above `x`, nearest first. */
  function Ancestors(t: Tree, x: int): (s: seq<int>)
    ensures forall i :: 0 <= i < |s| ==> IsNode(t, s[i]) && s[i] < x
    decreases x
  {
    var p := Parent(t, x);
    if p == Null then [] else [p] + Ancestors(t, p)
  }

  /** `d` lies strictly inside `a`. */
  predicate IsDescendant(t: Tree, d: int, a: int)
  {
    a in Ancestors(t, d)
  }

  /** The links form a tree: sibling links are mutual, siblings share their
      parent, and a parent's first and last child are the ends of the
      chain of its children. */
  predicate Linked(t: Tree)
  {
    forall x :: 0 <= x < |t.nodes| ==> LinkedAt(t, x)
  }

  predicate LinkedAt(t: Tree, x: int)
    requires IsNode(t, x)
  {
    var n := t.nodes[x];
    (n.parent == Null || 0 <= n.parent < x)
    && (n.previous == Null || (0 <= n.previous < x && Next(t, n.previous) == x
                              && Parent(t, n.previous) == Parent(t, x)))
    && (n.next == Null || (x < n.next < |t.nodes| && Previous(t, n.next) == x))
    && (n.firstChild == Null || (x < n.firstChild < |t.nodes| && Parent(t, n.firstChild) == x
                                && Previous(t, n.firstChild) == Null))
    && (n.lastChild == Null || (x < n.lastChild < |t.nodes| && Parent(t, n.lastChild) == x
                               && Next(t, n.lastChild) == Null))
    && (n.parent != Null && n.previous == Null ==> FirstChild(t, n.parent) == x)
    && (n.parent != Null && n.next == Null ==> LastChild(t, n.parent) == x)
  }
}
