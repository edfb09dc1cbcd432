/** The matcher loops as the source runs them: `nthCheck`'s sibling walk,
    `selectorMatch`'s right-to-left walk over the parts of each selector,
    and `filterSelector`. Each method is proved to compute what the
    functions of module `Match` specify. */
module Engine {
  import opened Chars
  import opened Syntax
  import opened Dom
  import opened Match

  /** `nthCheck`: walks the parent's children from the first (`forward`) or
      the last, counting the ones the filter selects, until the element
      itself is counted. Where the source throws for an element without a
      parent, the model answers false. */
  method NthCheck(t: Tree, e: int, step: int, offset: int, forward: bool, filter: Counting, part: Part)
    returns (b: bool)
    ensures b == NthSpec(t, e, step, offset, forward, filter, part)
  {
    var p := Parent(t, e);
    if p == Null {
      return false;
    }
    var child := if forward then Dom.FirstChild(t, p) else Dom.LastChild(t, p);
    var count: nat := 0;
    while IsNode(t, child)
      invariant child == Null || IsNode(t, child)
      invariant NthWalk(t, e, child, count, step, offset, forward, filter, part)
                == NthSpec(t, e, step, offset, forward, filter, part)
      decreases if !IsNode(t, child) then 0 else if forward then |t.nodes| - child else child + 1
    {
      if Counted(t, child, filter, part) {
        count := count + 1;
        if child == e {
          return NthHolds(step, offset, count);
        }
      }
      child := if forward then Next(t, child) else Previous(t, child);
    }
    return false;
  }

  /** `selectorTest`: id, tag name, each class, each attribute with each
      of its tests, each use of each pseudo-class, and containment, in
      turn; the first failure decides. */
  method SelectorTest(t: Tree, e: int, part: Part, nested: bool) returns (b: bool)
    ensures b == Test(t, e, part, nested)
  {
    var n := At(t, e);
    if part.id.Some? && n.id != part.id.value {
      return false;
    }
    if part.tagName != "*" && Upper(n.nodeName) != part.tagName {
      return false;
    }
    b := HasClasses(part.classes, ClassList(n.className));
    if !b {
      return false;
    }
    b := AttrsPass(n.attributes, part.attrs);
    if !b {
      return false;
    }
    b := PseudosPass(t, e, part, nested);
    if !b {
      return false;
    }
    if part.contains.Some? && !SomeDescendant(t, e, part.contains.value, e + 1) {
      return false;
    }
    return true;
  }

  /** The class check of `selectorTest`: each class of the part is in the
      element's class list. */
  method HasClasses(classes: seq<string>, classList: seq<string>) returns (b: bool)
    ensures b <==> forall c :: c in classes ==> c in classList
  {
    var i := 0;
    while i < |classes|
      invariant 0 <= i <= |classes|
      invariant forall k :: 0 <= k < i ==> classes[k] in classList
    {
      var found := false;
      var c := 0;
      while c < |classList| && !found
        invariant 0 <= c <= |classList|
        invariant found <==> classes[i] in classList[..c]
      {
        if classList[c] == classes[i] {
          found := true;
        }
        c := c + 1;
      }
      if !found {
        assert classList[..c] == classList;
        assert classes[i] in classes;
        return false;
      }
      i := i + 1;
    }
    return true;
  }

  /** The attribute check of `selectorTest`: each named attribute is
      present and passes each of its tests. */
  method AttrsPass(attributes: map<string, string>, tests: map<string, seq<AttrMatcher>>) returns (b: bool)
    ensures b == AttrsHold(attributes, tests)
  {
    var names := tests.Keys;
    while names != {}
      invariant names <= tests.Keys
      invariant forall name :: name in tests && name !in names ==> NamedAttrHolds(attributes, name, tests[name])
      decreases |names|
    {
      var name :| name in names;
      if name !in attributes {
        return false;
      }
      var ms := tests[name];
      var j := 0;
      while j < |ms|
        invariant 0 <= j <= |ms|
        invariant forall k :: 0 <= k < j ==> AttrHolds(ms[k], attributes[name])
      {
        if !AttrHolds(ms[j], attributes[name]) {
          return false;
        }
        j := j + 1;
      }
      names := names - {name};
    }
    return true;
  }

  /** The pseudo-class check of `selectorTest`: each use of each
      pseudo-class holds. */
  method PseudosPass(t: Tree, e: int, part: Part, nested: bool) returns (b: bool)
    ensures b == PseudosHold(t, e, part, 0, nested)
  {
    var k := 0;
    while k < |part.pseudos|
      invariant 0 <= k <= |part.pseudos|
      invariant PseudosHold(t, e, part, k, nested) == PseudosHold(t, e, part, 0, nested)
    {
      var j := 0;
      while j < |part.pseudos[k].args|
        invariant 0 <= j <= |part.pseudos[k].args|
        invariant ArgsHold(t, e, part, k, j, nested) == ArgsHold(t, e, part, k, 0, nested)
      {
        if !Each(t, e, part, k, j, nested) {
          return false;
        }
        j := j + 1;
      }
      k := k + 1;
    }
    return true;
  }

  /** `selectorMatch`: the first selector of the collection that matches
      decides. */
  method SelectorMatch(t: Tree, c: Collection, e: int, origins: seq<int>, nested: bool) returns (b: bool)
    ensures b == MatchColl(t, c, e, origins, nested)
  {
    var i := 0;
    while i < |c|
      invariant 0 <= i <= |c|
      invariant MatchFrom(t, c, i, e, origins, nested) == MatchColl(t, c, e, origins, nested)
    {
      var m := MatchSelector(t, c[i], e, origins, nested);
      if m {
        return true;
      }
      i := i + 1;
    }
    return false;
  }

  /** The walk of one selector at `e`: from the last part down, and one
      step further to the origins when there are any. `lastRel` is the
      relation of the part matched last. */
  method MatchSelector(t: Tree, sel: Selector, e: int, origins: seq<int>, nested: bool) returns (matches: bool)
    ensures matches == MatchSel(t, sel, e, origins, nested)
  {
    var parts := sel.parts;
    var s := |parts|;
    matches := true;
    var lastRel: Option<Relation> := None;
    var element := e;
    var checkUntil := if origins != [] then -1 else 0;
    while s > checkUntil && matches
      invariant checkUntil <= s <= |parts|
      invariant lastRel.None? ==> element == e && (s == |parts| ==> matches) && (s == |parts| || parts == [])
      invariant lastRel.Some? ==> s < |parts| && (s >= 0 ==> lastRel.value == parts[s].relation)
      invariant matches && 0 <= s < |parts| ==>
                  IsElement(t, element) && MatchSel(t, sel, e, origins, nested) == Ahead(t, sel, s, element, origins, nested)
      invariant matches && s == -1 ==> MatchSel(t, sel, e, origins, nested)
      invariant !matches ==> !MatchSel(t, sel, e, origins, nested)
      decreases s + 1
    {
      s := s - 1;
      if s >= 0 {
        var part := parts[s];
        if lastRel.None? {
          matches := IsElement(t, element) && Test(t, element, part, nested);
        } else {
          element := Step(t, lastRel.value, element, part, nested);
          matches := element != Null;
        }
        lastRel := Some(part.relation);
      } else if lastRel.None? {
        matches := element in origins;
      } else {
        matches := StepToOrigin(t, lastRel.value, element, origins);
      }
    }
  }

  /** What remains to hold once part `k` has matched at `c`: the walk on
      to part 0 succeeds and, with origins, reaches one of them. */
  predicate Ahead(t: Tree, sel: Selector, k: nat, c: int, origins: seq<int>, nested: bool)
    requires k < |sel.parts| && IsElement(t, c)
  {
    var r := Climb(t, sel, k, c, nested);
    r != Null && (origins == [] || OriginStep(t, sel.parts[0].relation, r, origins))
  }

  /** One step of the walk: the loops of `selectorMatch` for the four
      relations. */
  method Step(t: Tree, rel: Relation, c: int, part: Part, nested: bool) returns (x: int)
    ensures x == Locate(t, rel, c, part, nested)
  {
    match rel
    case Descendant =>
      x := Parent(t, c);
      while IsNode(t, x) && !(IsElement(t, x) && Test(t, x, part, nested))
        invariant x == Null || IsNode(t, x)
        invariant AncestorHit(t, x, part, nested) == Locate(t, rel, c, part, nested)
        decreases x
      {
        x := Parent(t, x);
      }
    case Child =>
      x := Parent(t, c);
      if !(IsElement(t, x) && Test(t, x, part, nested)) {
        x := Null;
      }
    case Adjacent =>
      x := PreviousElement(t, c);
      if !(IsElement(t, x) && Test(t, x, part, nested)) {
        x := Null;
      }
    case Sibling =>
      x := PreviousElement(t, c);
      while IsElement(t, x) && !Test(t, x, part, nested)
        invariant x == Null || IsElement(t, x)
        invariant SiblingHit(t, x, part, nested) == Locate(t, rel, c, part, nested)
        decreases x
      {
        x := PreviousElement(t, x);
      }
  }

  /** The step in front of the first part, testing membership in the
      origins. */
  method StepToOrigin(t: Tree, rel: Relation, c: int, origins: seq<int>) returns (found: bool)
    ensures found == OriginStep(t, rel, c, origins)
  {
    var x: int;
    match rel
    case Descendant =>
      x := Parent(t, c);
      found := false;
      while IsNode(t, x) && !found
        invariant x == Null || IsNode(t, x)
        invariant found ==> OriginStep(t, rel, c, origins)
        invariant !found ==> AncestorIn(t, x, origins) == OriginStep(t, rel, c, origins)
        decreases x + (if found then 1 else 2)
      {
        found := InOrigins(x, origins);
        if !found {
          x := Parent(t, x);
        }
      }
    case Child =>
      x := Parent(t, c);
      found := false;
      if x != Null {
        found := InOrigins(x, origins);
      }
    case Adjacent =>
      x := PreviousElement(t, c);
      found := false;
      if x != Null {
        found := InOrigins(x, origins);
      }
    case Sibling =>
      x := PreviousElement(t, c);
      found := false;
      while IsElement(t, x) && !found
        invariant x == Null || IsElement(t, x)
        invariant found ==> OriginStep(t, rel, c, origins)
        invariant !found ==> SiblingIn(t, x, origins) == OriginStep(t, rel, c, origins)
        decreases x + (if found then 1 else 2)
      {
        found := InOrigins(x, origins);
        if !found {
          x := PreviousElement(t, x);
        }
      }
  }

  /** The membership loop over the origins. */
  method InOrigins(x: int, origins: seq<int>) returns (found: bool)
    ensures found <==> x in origins
  {
    found := false;
    var o := 0;
    while !found && o < |origins|
      invariant 0 <= o <= |origins|
      invariant found <==> x in origins[..o]
    {
      if x == origins[o] {
        found := true;
      }
      o := o + 1;
    }
  }

  /** `filterSelector`: the entries of the list that match, in order. */
  method FilterSelector(t: Tree, c: Collection, list: seq<int>, origins: seq<int>, nested: bool)
    returns (r: seq<int>)
    ensures r == Selecting(t, c, list, origins, nested)
  {
    r := [];
    var i := 0;
    while i < |list|
      invariant 0 <= i <= |list|
      invariant r == Selecting(t, c, list[..i], origins, nested)
    {
      var m := SelectorMatch(t, c, list[i], origins, nested);
      assert list[..i + 1] == list[..i] + [list[i]];
      SelectingAppend(t, c, list[..i], [list[i]], origins, nested);
      if m {
        r := r + [list[i]];
      }
      i := i + 1;
    }
    assert list[..|list|] == list;
  }
}
