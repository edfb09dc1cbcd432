/** The matcher as functions: `selectorTest` (one part against one
    element), the pseudo-class predicates, `nthCheck`, and the right-to-left
    walk of `selectorMatch`. `nested` stands for a pseudo-class token that
    contains "n": the match-family pseudo-classes then hold without a
    check, which keeps them from recursing into themselves. */
module Match {
  import opened Chars
  import opened Syntax
  import opened Dom
  import Scan

  // ---- classes and attributes ----------------------------------------------

  /** `s.split(/\s+/)`, continuing the word `word`. */
  function SplitFrom(s: string, word: string): (r: seq<string>)
    ensures |r| >= 1
    decreases |s|
  {
    if s == "" then [word]
    else if IsSpace(s[0]) then [word] + SplitFrom(s[Scan.SpaceEnd(s, 0)..], "")
    else SplitFrom(s[1..], word + [s[0]])
  }

  /** The element's class list: `className ? className.split(/\s+/) : []`. */
  function ClassList(className: string): seq<string>
  {
    if className == "" then [] else SplitFrom(className, "")
  }

  /** `^` under the `m` flag: the start of the value or of one of its lines. */
  predicate LineStartAt(x: string, i: int)
  {
    i == 0 || (0 < i <= |x| && IsLineTerminator(x[i - 1]))
  }

  /** `$` under the `m` flag: the end of the value or of one of its lines. */
  predicate LineEndAt(x: string, j: int)
  {
    j == |x| || (0 <= j < |x| && IsLineTerminator(x[j]))
  }

  /** `v` occurs in `x` at index `i`. */
  predicate OccursAt(v: string, x: string, i: int)
  {
    0 <= i && i + |v| <= |x| && x[i..i + |v|] == v
  }

  /** The expression's prefix `RxATList[type][0]` holds in front of index
      `i`: `^`, `(^| )` or nothing. */
  predicate BeforeHolds(cmp: Comparator, x: string, i: int)
  {
    match cmp
    case Equals => LineStartAt(x, i)
    case Prefix => LineStartAt(x, i)
    case Suffix => true
    case Substring => true
    case DashMatch => LineStartAt(x, i)
    case Word => LineStartAt(x, i) || OccursAt(" ", x, i - 1)
  }

  /** The expression's suffix `RxATList[type][1]` holds from index `j`:
      `$`, `(-|$)`, `( |$)` or nothing. */
  predicate AfterHolds(cmp: Comparator, x: string, j: int)
  {
    match cmp
    case Equals => LineEndAt(x, j)
    case Prefix => true
    case Suffix => LineEndAt(x, j)
    case Substring => true
    case DashMatch => OccursAt("-", x, j) || LineEndAt(x, j)
    case Word => OccursAt(" ", x, j) || LineEndAt(x, j)
  }

  /** The value as the expression sees it: lower-cased under the `i` flag. */
  function Fold(caseInsensitive: bool, s: string): (r: string)
    ensures |r| == |s|
  {
    if caseInsensitive then Lower(s) else s
  }

  /** The operand `v` occurs in `x` with the comparator's prefix in front of
      it and its suffix behind it. */
  predicate Anchored(cmp: Comparator, x: string, v: string)
  {
    exists i :: 0 <= i <= |x| && OccursAt(v, x, i) && BeforeHolds(cmp, x, i) && AfterHolds(cmp, x, i + |v|)
  }

  /** The attribute value passes one attribute test: the expression
      `RxATList[type][0] + operand + RxATList[type][1]` with the `m` flag
      (and `i` when the modifier is present), the operand read literally.
      This is the reading with `^` and `$` escaped; module `Findings`
      relates it to the expression as written. */
  predicate AttrHolds(m: AttrMatcher, value: string)
  {
    Anchored(m.cmp, Fold(m.caseInsensitive, value), Fold(m.caseInsensitive, m.operand))
  }

  /** The attribute `name` is present and passes all the tests `ms`. */
  predicate NamedAttrHolds(attributes: map<string, string>, name: string, ms: seq<AttrMatcher>)
  {
    name in attributes && forall i :: 0 <= i < |ms| ==> AttrHolds(ms[i], attributes[name])
  }

  /** Every named attribute is present and passes all its tests. */
  predicate AttrsHold(attributes: map<string, string>, tests: map<string, seq<AttrMatcher>>)
  {
    forall name :: name in tests ==> NamedAttrHolds(attributes, name, tests[name])
  }

  // ---- an+b ----------------------------------------------------------------

  /** JavaScript `%`: the remainder takes the sign of the dividend, and
      what it leaves is a multiple of the divisor (the quotient truncates
      toward zero). */
  function JsRem(x: int, d: int): (r: int)
    requires d != 0
    ensures x >= 0 ==> 0 <= r < (if d > 0 then d else -d)
    ensures x < 0 ==> -(if d > 0 then d else -d) < r <= 0
    ensures (x - r) % (if d > 0 then d else -d) == 0
  {
    var m := if d > 0 then d else -d;
    RemLeavesMultiple(x, m);
    if x >= 0 then x % m else -((-x) % m)
  }

  /** Taking away the remainder, of `x` or of `-x`, leaves a multiple of
      `m`. */
  lemma RemLeavesMultiple(x: int, m: int)
    requires m > 0
    ensures (x - x % m) % m == 0
    ensures (x + (-x) % m) % m == 0
  {
    var q, q' := x / m, (-x) / m;
    assert x - x % m == m * q;
    assert x + (-x) % m == m * -q';
    MultipleRem(q, m);
    MultipleRem(-q', m);
  }

  /** A multiple of `m` leaves no remainder. */
  lemma MultipleRem(k: int, m: int)
    requires m > 0
    ensures (m * k) % m == 0
  {
    var j := k - (m * k) / m;
    assert m * j == (m * k) % m;
    if j != 0 {
      MultipleBeyond(j, m);
    }
  }

  /** A non-zero multiple of `m` is at least `m` away from zero. */
  lemma {:induction false} MultipleBeyond(j: int, m: int)
    requires m > 0 && j != 0
    ensures m * j >= m || m * j <= -m
    decreases if j > 0 then j else -j
  {
    if j > 1 {
      MultipleBeyond(j - 1, m);
      assert m * j == m * (j - 1) + m;
    } else if j < -1 {
      MultipleBeyond(j + 1, m);
      assert m * j == m * (j + 1) - m;
    }
  }

  /** `nthCheck`'s test on the 1-based position `count` among the counted
      siblings. */
  predicate NthHolds(step: int, offset: int, count: int)
  {
    if step != 0 then JsRem(count - offset, step) == 0 else count == offset
  }

  /** Which siblings `nthCheck` counts. */
  datatype Counting = AllElements | SameName(name: string) | Matching

  // ---- the matcher ---------------------------------------------------------

  /** `selectorTest`: the element passes every check of the part. */
  predicate Test(t: Tree, e: int, part: Part, nested: bool)
    decreases part, if nested then 0 else 2, 5
  {
    var n := At(t, e);
    (part.id.None? || n.id == part.id.value)
    && (part.tagName == "*" || Upper(n.nodeName) == part.tagName)
    && (forall c :: c in part.classes ==> c in ClassList(n.className))
    && AttrsHold(n.attributes, part.attrs)
    && PseudosHold(t, e, part, 0, nested)
    && (part.contains.None? || SomeDescendant(t, e, part.contains.value, e + 1))
  }

  /** Every use of the pseudo-classes `part.pseudos[k..]` holds. */
  predicate PseudosHold(t: Tree, e: int, part: Part, k: nat, nested: bool)
    decreases part, if nested then 0 else 2, 4, |part.pseudos| - k
  {
    k >= |part.pseudos| || (ArgsHold(t, e, part, k, 0, nested) && PseudosHold(t, e, part, k + 1, nested))
  }

  /** The uses `part.pseudos[k].args[j..]` hold. */
  predicate ArgsHold(t: Tree, e: int, part: Part, k: nat, j: nat, nested: bool)
    requires k < |part.pseudos|
    decreases part, if nested then 0 else 2, 3, |part.pseudos[k].args| - j
  {
    j >= |part.pseudos[k].args| || (Each(t, e, part, k, j, nested) && ArgsHold(t, e, part, k, j + 1, nested))
  }

  function StepOf(arg: PseudoArg): int
  {
    if arg.Nth? then arg.step else 0
  }

  function OffsetOf(arg: PseudoArg): int
  {
    if arg.Nth? then arg.offset else 0
  }

  function TextOf(arg: PseudoArg): string
  {
    if arg.Text? then arg.text else ""
  }

  /** The `each` predicate of pseudo-class `part.pseudos[k].name` with its
      `j`-th argument. */
  predicate Each(t: Tree, e: int, part: Part, k: nat, j: nat, nested: bool)
    requires k < |part.pseudos| && j < |part.pseudos[k].args|
    decreases part, if nested then 0 else 2, 2
  {
    var entry := part.pseudos[k];
    var arg := entry.args[j];
    assert entry in part.pseudos;
    assert arg in entry.args;
    var n := At(t, e);
    var p := Parent(t, e);
    match entry.name
    case AnyLink => "any-link" in n.state
    case LocalLink => "local-link" in n.state
    case Disabled => "disabled" in n.state
    case Enabled => "disabled" !in n.state
    case Indeterminate => "indeterminate" in n.state
    case Checked => "checked" in n.state
    case Focus => "focus" in n.state
    case FirstChild => PreviousElement(t, e) == Null
    case LastChild => NextElement(t, e) == Null
    case OnlyChild => p != Null && |ElementChildren(t, p)| == 1
    case NthChild => NthSpec(t, e, StepOf(arg), OffsetOf(arg), true, AllElements, part)
    case NthLastChild => NthSpec(t, e, StepOf(arg), OffsetOf(arg), false, AllElements, part)
    case FirstOfType => !NameBefore(t, PreviousElement(t, e), n.nodeName)
    case LastOfType => !NameAfter(t, NextElement(t, e), n.nodeName)
    case OnlyOfType => false
    case NthOfType => NthSpec(t, e, StepOf(arg), OffsetOf(arg), true, SameName(n.nodeName), part)
    case NthLastOfType => NthSpec(t, e, StepOf(arg), OffsetOf(arg), false, SameName(n.nodeName), part)
    case FirstMatch => nested || !MatchBefore(t, PreviousElement(t, e), part)
    case LastMatch => nested || !MatchAfter(t, NextElement(t, e), part)
    case OnlyMatch => nested || (p != Null && CountMatching(t, ElementChildren(t, p), part) == 1)
    case NthMatch => nested || NthSpec(t, e, StepOf(arg), OffsetOf(arg), true, Matching, part)
    case NthLastMatch => nested || NthSpec(t, e, StepOf(arg), OffsetOf(arg), false, Matching, part)
    case Empty => NoContentFrom(t, Dom.FirstChild(t, e))
    case Not => !(arg.Nested? && MatchColl(t, arg.collection, e, [], false))
    case Matches => arg.Nested? && MatchColl(t, arg.collection, e, [], false)
    case Target => t.hash != "" && n.id == t.hash
    case Root => e == t.documentElement
    case Lang => LangFrom(t, e, TextOf(arg))
    case Dir => DirFrom(t, e, TextOf(arg))
  }

  /** `nthCheck`: counting the siblings the filter selects, from the
      parent's first child (`forward`) or last child, the element's
      position satisfies the formula. An element without a parent, for
      which the source throws, is answered false. */
  predicate NthSpec(t: Tree, e: int, step: int, offset: int, forward: bool, filter: Counting, part: Part)
    decreases part, if filter.Matching? then 1 else 0, 1
  {
    var p := Parent(t, e);
    p != Null && NthWalk(t, e, if forward then Dom.FirstChild(t, p) else Dom.LastChild(t, p), 0, step, offset, forward, filter, part)
  }

  /** `nthCheck`'s loop at sibling `c` with `count` siblings counted. */
  predicate NthWalk(t: Tree, e: int, c: int, count: nat, step: int, offset: int, forward: bool, filter: Counting, part: Part)
    decreases part, if filter.Matching? then 1 else 0, 0, (if forward then |t.nodes| - c else c) + 1
  {
    if !IsNode(t, c) then false
    else
      var counted := Counted(t, c, filter, part);
      var count' := if counted then count + 1 else count;
      if counted && c == e then NthHolds(step, offset, count')
      else
        var c' := if forward then Next(t, c) else Previous(t, c);
        c' != Null && NthWalk(t, e, c', count', step, offset, forward, filter, part)
  }

  /** The sibling is an element the filter selects. */
  predicate Counted(t: Tree, x: int, filter: Counting, part: Part)
    decreases part, if filter.Matching? then 1 else 0, 0, 0
  {
    IsElement(t, x) &&
    match filter
    case AllElements => true
    case SameName(name) => At(t, x).nodeName == name
    case Matching => Test(t, x, part, true)
  }

  /** Some element from `x` back along the previous element siblings
      matches the part (in nested mode). */
  predicate MatchBefore(t: Tree, x: int, part: Part)
    decreases part, 1, 0, x
  {
    IsElement(t, x) && (Test(t, x, part, true) || MatchBefore(t, PreviousElement(t, x), part))
  }

  /** Some element from `x` on along the next element siblings matches the
      part (in nested mode). */
  predicate MatchAfter(t: Tree, x: int, part: Part)
    decreases part, 1, 0, |t.nodes| - x
  {
    IsElement(t, x) && (Test(t, x, part, true) || (NextElement(t, x) != Null && MatchAfter(t, NextElement(t, x), part)))
  }

  /** How many of the elements `s` match the part (in nested mode). */
  function CountMatching(t: Tree, s: seq<int>, part: Part): (n: nat)
    ensures n <= |s|
    decreases part, 1, 0, |s|
  {
    if s == [] then 0
    else (if IsElement(t, s[0]) && Test(t, s[0], part, true) then 1 else 0) + CountMatching(t, s[1..], part)
  }

  /** `selectorMatch`: some selector of the collection matches. */
  predicate MatchColl(t: Tree, c: Collection, e: int, origins: seq<int>, nested: bool)
    decreases c, 1
  {
    MatchFrom(t, c, 0, e, origins, nested)
  }

  /** Some selector of `c[i..]` matches. */
  predicate MatchFrom(t: Tree, c: Collection, i: nat, e: int, origins: seq<int>, nested: bool)
    decreases c, 0, |c| - i
  {
    i < |c| && (MatchSel(t, c[i], e, origins, nested) || MatchFrom(t, c, i + 1, e, origins, nested))
  }

  /** One selector matches at `e`: the walk from the last part to the first
      succeeds and, with origins, the step in front of the first part
      reaches one of them. */
  predicate MatchSel(t: Tree, sel: Selector, e: int, origins: seq<int>, nested: bool)
    decreases sel, 3
  {
    if sel.parts == [] then origins == [] || e in origins
    else
      var c := WalkEnd(t, sel, e, nested);
      c != Null && (origins == [] || OriginStep(t, sel.parts[0].relation, c, origins))
  }

  /** Where the walk ends: the node matched by the first part, or `Null`
      when a step finds nothing. */
  function WalkEnd(t: Tree, sel: Selector, e: int, nested: bool): (c: int)
    requires sel.parts != []
    ensures c == Null || IsElement(t, c)
    decreases sel, 2
  {
    var last := |sel.parts| - 1;
    if IsElement(t, e) && Test(t, e, sel.parts[last], nested) then Climb(t, sel, last, e, nested) else Null
  }

  /** The walk from the node `c` matched by part `k` towards part 0. */
  function Climb(t: Tree, sel: Selector, k: nat, c: int, nested: bool): (r: int)
    requires k < |sel.parts| && IsElement(t, c)
    ensures r == Null || IsElement(t, r)
    decreases sel, 1, k
  {
    if k == 0 then c
    else
      var x := Locate(t, sel.parts[k].relation, c, sel.parts[k - 1], nested);
      if x == Null then Null else Climb(t, sel, k - 1, x, nested)
  }

  /** One step of the walk: the node the combinator `rel` leads to from `c`
      that matches `part`, or `Null`. The descendant and general-sibling
      steps take the nearest match and never come back to try another. */
  function Locate(t: Tree, rel: Relation, c: int, part: Part, nested: bool): (x: int)
    ensures x == Null || (IsElement(t, x) && Test(t, x, part, nested))
    decreases part, 4
  {
    match rel
    case Descendant => AncestorHit(t, Parent(t, c), part, nested)
    case Child =>
      var p := Parent(t, c);
      if IsElement(t, p) && Test(t, p, part, nested) then p else Null
    case Adjacent =>
      var p := PreviousElement(t, c);
      if IsElement(t, p) && Test(t, p, part, nested) then p else Null
    case Sibling => SiblingHit(t, PreviousElement(t, c), part, nested)
  }

  /** The nearest node from `x` up that is an element matching `part`. */
  function AncestorHit(t: Tree, x: int, part: Part, nested: bool): (r: int)
    ensures r == Null || (IsElement(t, r) && Test(t, r, part, nested))
    decreases part, 3, x
  {
    if !IsNode(t, x) then Null
    else if IsElement(t, x) && Test(t, x, part, nested) then x
    else AncestorHit(t, Parent(t, x), part, nested)
  }

  /** The nearest element from `x` back along the previous element
      siblings that matches `part`. */
  function SiblingHit(t: Tree, x: int, part: Part, nested: bool): (r: int)
    ensures r == Null || (IsElement(t, r) && Test(t, r, part, nested))
    decreases part, 3, x
  {
    if !IsElement(t, x) then Null
    else if Test(t, x, part, nested) then x
    else SiblingHit(t, PreviousElement(t, x), part, nested)
  }

  /** The step in front of the first part, to the origin elements. */
  predicate OriginStep(t: Tree, rel: Relation, c: int, origins: seq<int>)
  {
    match rel
    case Descendant => AncestorIn(t, Parent(t, c), origins)
    case Child => Parent(t, c) != Null && Parent(t, c) in origins
    case Adjacent => PreviousElement(t, c) != Null && PreviousElement(t, c) in origins
    case Sibling => SiblingIn(t, PreviousElement(t, c), origins)
  }

  /** Some node from `x` up is an origin. */
  predicate AncestorIn(t: Tree, x: int, origins: seq<int>)
    decreases x
  {
    IsNode(t, x) && (x in origins || AncestorIn(t, Parent(t, x), origins))
  }

  /** Some element from `x` back along the previous element siblings is an
      origin. */
  predicate SiblingIn(t: Tree, x: int, origins: seq<int>)
    decreases x
  {
    IsElement(t, x) && (x in origins || SiblingIn(t, PreviousElement(t, x), origins))
  }

  /** The `$` containment test: some element after `e` in document order,
      from index `i` on, lies inside `e` and matches `sel` with `e` as its
      origin. */
  predicate SomeDescendant(t: Tree, e: int, sel: Selector, i: int)
    decreases sel, 4, |t.nodes| - i
  {
    0 <= i < |t.nodes|
    && ((IsElement(t, i) && IsDescendant(t, i, e) && MatchSel(t, sel, i, [e], false))
        || SomeDescendant(t, e, sel, i + 1))
  }

  /** `filterSelector`'s result: the entries of `list` the collection
      matches, in order. */
  function Selecting(t: Tree, c: Collection, list: seq<int>, origins: seq<int>, nested: bool): (r: seq<int>)
    ensures forall x :: x in r <==> x in list && MatchColl(t, c, x, origins, nested)
  {
    if list == [] then []
    else (if MatchColl(t, c, list[0], origins, nested) then [list[0]] else [])
         + Selecting(t, c, list[1..], origins, nested)
  }

  /** Filtering distributes over concatenation, so the kept entries stay in
      input order. */
  lemma {:induction false} SelectingAppend(t: Tree, c: Collection, a: seq<int>, b: seq<int>, origins: seq<int>, nested: bool)
    ensures Selecting(t, c, a + b, origins, nested) == Selecting(t, c, a, origins, nested) + Selecting(t, c, b, origins, nested)
  {
    if a == [] {
      assert a + b == b;
    } else {
      assert (a + b)[1..] == a[1..] + b;
      SelectingAppend(t, c, a[1..], b, origins, nested);
    }
  }

  // ---- non-recursive pseudo-class helpers ----------------------------------

  /** Some element from `x` back along the previous element siblings has
      the node name `name`. */
  predicate NameBefore(t: Tree, x: int, name: string)
    decreases x
  {
    IsElement(t, x) && (At(t, x).nodeName == name || NameBefore(t, PreviousElement(t, x), name))
  }

  /** Some element from `x` on along the next element siblings has the node
      name `name`. */
  predicate NameAfter(t: Tree, x: int, name: string)
    decreases |t.nodes| - x
  {
    IsElement(t, x) && (At(t, x).nodeName == name || (NextElement(t, x) != Null && NameAfter(t, NextElement(t, x), name)))
  }

  /** `:empty` from child `x` on: no text node and no node whose name sorts
      after "@" (elements; comments are "#comment"). */
  predicate NoContentFrom(t: Tree, x: int)
    decreases |t.nodes| - x
  {
    !IsNode(t, x)
    || (At(t, x).nodeType != TextNode && !StrLess("@", At(t, x).nodeName)
        && (Next(t, x) == Null || NoContentFrom(t, Next(t, x))))
  }

  /** `:lang(v)`: the nearest node from `x` up with a language has
      language `v`. */
  predicate LangFrom(t: Tree, x: int, v: string)
    decreases x
  {
    IsNode(t, x) && (if At(t, x).lang != "" then At(t, x).lang == v else LangFrom(t, Parent(t, x), v))
  }

  /** `:dir(v)`: the nearest node from `x` up with a direction has
      direction `v`; with none, the direction is "ltr". */
  predicate DirFrom(t: Tree, x: int, v: string)
    decreases x
  {
    if !IsNode(t, x) then v == "ltr"
    else if At(t, x).dir != "" then At(t, x).dir == v
    else DirFrom(t, Parent(t, x), v)
  }
}
