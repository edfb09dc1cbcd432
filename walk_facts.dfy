/** The right-to-left walk of `selectorMatch` against the meaning of
    combinators in Selectors Level 3 (section 8): a selector matches an
    element when there is a chain of elements, one per part, each matching
    its part and standing to the next in the relation its combinator
    names. The walk commits to the nearest candidate at every step, so it
    finds only chains it can reach that way: every match it reports is a
    chain, the chains of child and adjacent steps are all found, and a
    descendant step can miss one. */
module WalkFacts {
  import opened Chars
  import opened Syntax
  import opened Dom
  import opened Match

  /** The element matches the part. */
  predicate Hits(t: Tree, y: int, part: Part, nested: bool)
  {
    IsElement(t, y) && Test(t, y, part, nested)
  }

  /** `x` and the nodes above it, nearest first. */
  function UpFrom(t: Tree, x: int): seq<int>
  {
    if IsNode(t, x) then [x] + Ancestors(t, x) else []
  }

  /** `x` and the element siblings before it, nearest first. */
  function BackFrom(t: Tree, x: int): seq<int>
    decreases x
  {
    if IsElement(t, x) then [x] + BackFrom(t, PreviousElement(t, x)) else []
  }

  /** `a` stands before `c` in the relation `rel`: an ancestor, the parent,
      the previous element sibling, or some earlier element sibling. */
  predicate Related(t: Tree, rel: Relation, c: int, a: int)
  {
    match rel
    case Descendant => a in Ancestors(t, c)
    case Child => a == Parent(t, c)
    case Adjacent => a == PreviousElement(t, c)
    case Sibling => a in BackFrom(t, PreviousElement(t, c))
  }

  /** `xs` is a chain for the selector: one element per part, each
      matching its part and related to the next by the next part's
      combinator. */
  predicate Chained(t: Tree, sel: Selector, xs: seq<int>, nested: bool)
  {
    && |xs| == |sel.parts|
    && (forall j :: 0 <= j < |xs| ==> Hits(t, xs[j], sel.parts[j], nested))
    && (forall j :: 0 <= j < |xs| - 1 ==> Related(t, sel.parts[j + 1].relation, xs[j + 1], xs[j]))
  }

  // ---- the nearest-candidate steps -----------------------------------------

  /** No node of `s` matches the part. */
  predicate NoneHits(t: Tree, s: seq<int>, part: Part, nested: bool)
  {
    forall i :: 0 <= i < |s| ==> !Hits(t, s[i], part, nested)
  }

  /** `r` is the first node of `s` that matches the part. */
  predicate FirstHit(t: Tree, s: seq<int>, r: int, part: Part, nested: bool)
  {
    exists i :: 0 <= i < |s| && s[i] == r && Hits(t, r, part, nested) && NoneHits(t, s[..i], part, nested)
  }

  lemma NoneHitsCons(t: Tree, x: int, s: seq<int>, part: Part, nested: bool)
    ensures NoneHits(t, [x] + s, part, nested) <==> !Hits(t, x, part, nested) && NoneHits(t, s, part, nested)
  {
    if !Hits(t, x, part, nested) && NoneHits(t, s, part, nested) {
      forall i | 0 <= i < |[x] + s|
        ensures !Hits(t, ([x] + s)[i], part, nested)
      {
        if i > 0 {
          assert ([x] + s)[i] == s[i - 1];
        }
      }
    }
    if NoneHits(t, [x] + s, part, nested) {
      assert ([x] + s)[0] == x;
      forall i | 0 <= i < |s|
        ensures !Hits(t, s[i], part, nested)
      {
        assert s[i] == ([x] + s)[i + 1];
      }
    }
  }

  /** A first hit further down stays the first hit behind a node that does
      not match. */
  lemma FirstHitCons(t: Tree, x: int, s: seq<int>, r: int, part: Part, nested: bool)
    requires !Hits(t, x, part, nested) && FirstHit(t, s, r, part, nested)
    ensures FirstHit(t, [x] + s, r, part, nested)
  {
    var i :| 0 <= i < |s| && s[i] == r && Hits(t, r, part, nested) && NoneHits(t, s[..i], part, nested);
    assert ([x] + s)[..i + 1] == [x] + s[..i];
    NoneHitsCons(t, x, s[..i], part, nested);
    assert ([x] + s)[i + 1] == r;
  }

  /** The head of a sequence is its first hit when it matches. */
  lemma FirstHitHead(t: Tree, x: int, s: seq<int>, part: Part, nested: bool)
    requires Hits(t, x, part, nested)
    ensures FirstHit(t, [x] + s, x, part, nested)
  {
    assert ([x] + s)[..0] == [];
    assert ([x] + s)[0] == x;
  }

  /** The upward search returns the first node of `UpFrom(x)` that matches,
      and `Null` exactly when none does. */
  lemma {:induction false} AncestorHitNearest(t: Tree, x: int, part: Part, nested: bool)
    ensures AncestorHit(t, x, part, nested) == Null <==> NoneHits(t, UpFrom(t, x), part, nested)
    ensures AncestorHit(t, x, part, nested) != Null
            ==> FirstHit(t, UpFrom(t, x), AncestorHit(t, x, part, nested), part, nested)
    decreases x
  {
    if IsNode(t, x) {
      var p := Parent(t, x);
      assert UpFrom(t, x) == [x] + UpFrom(t, p);
      NoneHitsCons(t, x, UpFrom(t, p), part, nested);
      if Hits(t, x, part, nested) {
        FirstHitHead(t, x, UpFrom(t, p), part, nested);
      } else {
        AncestorHitNearest(t, p, part, nested);
        if AncestorHit(t, p, part, nested) != Null {
          FirstHitCons(t, x, UpFrom(t, p), AncestorHit(t, p, part, nested), part, nested);
        }
      }
    }
  }

  /** The backward search returns the first element of `BackFrom(x)` that
      matches, and `Null` exactly when none does. */
  lemma {:induction false} SiblingHitNearest(t: Tree, x: int, part: Part, nested: bool)
    ensures SiblingHit(t, x, part, nested) == Null <==> NoneHits(t, BackFrom(t, x), part, nested)
    ensures SiblingHit(t, x, part, nested) != Null
            ==> FirstHit(t, BackFrom(t, x), SiblingHit(t, x, part, nested), part, nested)
    decreases x
  {
    if IsElement(t, x) {
      var p := PreviousElement(t, x);
      assert BackFrom(t, x) == [x] + BackFrom(t, p);
      NoneHitsCons(t, x, BackFrom(t, p), part, nested);
      if Hits(t, x, part, nested) {
        FirstHitHead(t, x, BackFrom(t, p), part, nested);
      } else {
        SiblingHitNearest(t, p, part, nested);
        if SiblingHit(t, p, part, nested) != Null {
          FirstHitCons(t, x, BackFrom(t, p), SiblingHit(t, p, part, nested), part, nested);
        }
      }
    }
  }

  /** The ancestors of `c` are what the upward search starts from. */
  lemma AncestorsFromParent(t: Tree, c: int)
    ensures Ancestors(t, c) == UpFrom(t, Parent(t, c))
  {
  }

  /** A descendant step lands on the nearest matching ancestor, and finds
      nothing only when no ancestor matches. */
  lemma DescendantStepNearest(t: Tree, c: int, part: Part, nested: bool)
    ensures Locate(t, Descendant, c, part, nested) == Null <==> NoneHits(t, Ancestors(t, c), part, nested)
    ensures Locate(t, Descendant, c, part, nested) != Null
            ==> FirstHit(t, Ancestors(t, c), Locate(t, Descendant, c, part, nested), part, nested)
  {
    AncestorsFromParent(t, c);
    AncestorHitNearest(t, Parent(t, c), part, nested);
  }

  /** A general-sibling step lands on the nearest matching earlier element
      sibling, and finds nothing only when none matches. */
  lemma SiblingStepNearest(t: Tree, c: int, part: Part, nested: bool)
    ensures Locate(t, Sibling, c, part, nested) == Null
            <==> NoneHits(t, BackFrom(t, PreviousElement(t, c)), part, nested)
    ensures Locate(t, Sibling, c, part, nested) != Null
            ==> FirstHit(t, BackFrom(t, PreviousElement(t, c)), Locate(t, Sibling, c, part, nested), part, nested)
  {
    SiblingHitNearest(t, PreviousElement(t, c), part, nested);
  }

  /** Whatever a step finds matches the part and stands in the relation. */
  lemma StepRelated(t: Tree, rel: Relation, c: int, part: Part, nested: bool)
    ensures var x := Locate(t, rel, c, part, nested);
            x != Null ==> Hits(t, x, part, nested) && Related(t, rel, c, x)
  {
    match rel
    case Descendant => DescendantStepNearest(t, c, part, nested);
    case Child =>
    case Adjacent =>
    case Sibling => SiblingStepNearest(t, c, part, nested);
  }

  // ---- soundness and completeness of the walk ------------------------------

  /** The nodes the walk from part `k` at `c` visits, part 0 first. */
  function Visited(t: Tree, sel: Selector, k: nat, c: int, nested: bool): (ys: seq<int>)
    requires k < |sel.parts| && IsElement(t, c)
    decreases k
  {
    if k == 0 then [c]
    else
      var x := Locate(t, sel.parts[k].relation, c, sel.parts[k - 1], nested);
      if x == Null then [c] else Visited(t, sel, k - 1, x, nested) + [c]
  }

  /** A walk that gets through yields a chain of parts `0..k` ending at
      `c`. */
  lemma {:induction false} ClimbChained(t: Tree, sel: Selector, k: nat, c: int, nested: bool)
    requires k < |sel.parts| && IsElement(t, c)
    requires Climb(t, sel, k, c, nested) != Null
    ensures var ys := Visited(t, sel, k, c, nested);
            && |ys| == k + 1 && ys[k] == c && ys[0] == Climb(t, sel, k, c, nested)
            && (forall j :: 0 <= j < k ==> Hits(t, ys[j], sel.parts[j], nested))
            && (forall j :: 0 <= j < k ==> Related(t, sel.parts[j + 1].relation, ys[j + 1], ys[j]))
    decreases k
  {
    if k > 0 {
      var x := Locate(t, sel.parts[k].relation, c, sel.parts[k - 1], nested);
      assert x != Null && Climb(t, sel, k, c, nested) == Climb(t, sel, k - 1, x, nested);
      StepRelated(t, sel.parts[k].relation, c, sel.parts[k - 1], nested);
      ClimbChained(t, sel, k - 1, x, nested);
      var ys' := Visited(t, sel, k - 1, x, nested);
      var ys := ys' + [c];
      assert Visited(t, sel, k, c, nested) == ys;
      forall j | 0 <= j < k
        ensures Hits(t, ys[j], sel.parts[j], nested)
      {
        if j < k - 1 {
          assert ys[j] == ys'[j];
        } else {
          assert ys[j] == x;
        }
      }
      forall j | 0 <= j < k
        ensures Related(t, sel.parts[j + 1].relation, ys[j + 1], ys[j])
      {
        if j < k - 1 {
          assert ys[j] == ys'[j] && ys[j + 1] == ys'[j + 1];
        } else {
          assert ys[j] == x && ys[j + 1] == c;
        }
      }
    }
  }

  /** Soundness: when the walk reports a match at `e`, there is a chain of
      the selector's parts ending at `e`. */
  lemma WalkSound(t: Tree, sel: Selector, e: int, nested: bool)
    requires sel.parts != []
    requires MatchSel(t, sel, e, [], nested)
    ensures exists xs :: Chained(t, sel, xs, nested) && xs[|xs| - 1] == e
  {
    var last := |sel.parts| - 1;
    ClimbChained(t, sel, last, e, nested);
    var xs := Visited(t, sel, last, e, nested);
    assert Chained(t, sel, xs, nested);
  }

  /** Child and adjacent steps leave no choice: climbing from the last
      element of a chain reaches its first. */
  lemma {:induction false} ClimbComplete(t: Tree, sel: Selector, xs: seq<int>, k: nat, nested: bool)
    requires Chained(t, sel, xs, nested)
    requires forall j :: 0 < j < |sel.parts| ==> sel.parts[j].relation in {Child, Adjacent}
    requires k < |xs|
    ensures Climb(t, sel, k, xs[k], nested) == xs[0]
    decreases k
  {
    if k > 0 {
      assert Related(t, sel.parts[k].relation, xs[k], xs[k - 1]);
      assert Hits(t, xs[k - 1], sel.parts[k - 1], nested);
      assert sel.parts[k].relation in {Child, Adjacent};
      ClimbComplete(t, sel, xs, k - 1, nested);
    }
  }

  /** Completeness for selectors whose combinators are all `>` or `+`:
      every chain ending at `e` makes the walk report a match. */
  lemma WalkCompleteWithoutSearch(t: Tree, sel: Selector, xs: seq<int>, nested: bool)
    requires sel.parts != []
    requires forall j :: 0 < j < |sel.parts| ==> sel.parts[j].relation in {Child, Adjacent}
    requires Chained(t, sel, xs, nested)
    ensures MatchSel(t, sel, xs[|xs| - 1], [], nested)
  {
    ClimbComplete(t, sel, xs, |xs| - 1, nested);
  }

  // ---- the greedy descendant step ------------------------------------------

  function Elem(name: string, parent: int, child: int): Node
  {
    Node(ElementNode, name, "", "", map[], "", "", {}, parent, Null, Null, child, child)
  }

  /** The document `<A><B><B><C/></B></B></A>`. */
  function NestedB(): Tree
  {
    Tree([Elem("A", Null, 1), Elem("B", 0, 2), Elem("B", 1, 3), Elem("C", 2, Null)], 0, "")
  }

  function Tag(relation: Relation, name: string): Part
  {
    EmptyPart.(relation := relation, tagName := name)
  }

  /** `A > B C`. */
  function ChildThenDescendant(): Selector
  {
    Selector([Tag(Descendant, "A"), Tag(Child, "B"), Tag(Descendant, "C")], false, false, None, None)
  }

  /** In `<A><B><B><C/></B></B></A>` the element C has the chain A, outer B,
      C for `A > B C`, but the descendant step commits to the inner B,
      whose parent is not an A, and the walk reports no match. */
  lemma GreedyWalkMisses()
    ensures Linked(NestedB())
    ensures Chained(NestedB(), ChildThenDescendant(), [0, 1, 3], false)
    ensures !MatchSel(NestedB(), ChildThenDescendant(), 3, [], false)
  {
    NestedBChained();
    NestedBMissed();
  }

  /** The nested tree is well linked and holds the chain A, outer B, C. */
  lemma NestedBChained()
    ensures Linked(NestedB())
    ensures Chained(NestedB(), ChildThenDescendant(), [0, 1, 3], false)
  {
    NestedBHits();
  }

  /** The walk from C commits to the inner B and then finds no A above it. */
  lemma NestedBMissed()
    ensures !MatchSel(NestedB(), ChildThenDescendant(), 3, [], false)
  {
    var t := NestedB();
    var sel := ChildThenDescendant();
    NestedBHits();
    assert Ancestors(t, 3) == [2, 1, 0];
    assert AncestorHit(t, 2, sel.parts[1], false) == 2;
    assert Locate(t, Child, 2, sel.parts[0], false) == Null;
  }

  /** Which elements of the nested tree each part of `A > B C` accepts. */
  lemma NestedBHits()
    ensures var t, sel := NestedB(), ChildThenDescendant();
            && Hits(t, 0, sel.parts[0], false) && !Hits(t, 1, sel.parts[0], false)
            && Hits(t, 1, sel.parts[1], false) && Hits(t, 2, sel.parts[1], false)
            && Hits(t, 3, sel.parts[2], false)
  {
    assert Upper("A") == "A" && Upper("B") == "B" && Upper("C") == "C";
  }
}
