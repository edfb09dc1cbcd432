/** The structural pseudo-classes against what they are meant to select:
    `:lang` and `:dir` read the nearest declaration up the tree, the
    `-of-type` tests look along the element siblings, `:empty` looks at
    every child node, `:not` and `:matches` ask whether some selector of
    their list matches, and `:only-match` counts what `filterSelector`
    keeps. */
module PseudoFacts {
  import opened Chars
  import opened Syntax
  import opened Dom
  import opened Match
  import opened WalkFacts
  import MatchFacts

  // ---- lang and dir ----------------------------------------------------------

  /** No node of `s` declares a language. */
  predicate NoLang(t: Tree, s: seq<int>)
  {
    forall j :: 0 <= j < |s| ==> At(t, s[j]).lang == ""
  }

  /** The first node of `s` that declares a language declares `v`. */
  predicate NearestLang(t: Tree, s: seq<int>, v: string)
  {
    exists i :: 0 <= i < |s| && v != "" && At(t, s[i]).lang == v && NoLang(t, s[..i])
  }

  /** Declarations of the nodes after an undeclared first node decide
      alone. */
  lemma NoLangCons(t: Tree, x: int, r: seq<int>)
    requires At(t, x).lang == ""
    ensures NoLang(t, [x] + r) <==> NoLang(t, r)
  {
    assert forall j :: 0 <= j < |r| ==> ([x] + r)[j + 1] == r[j];
  }

  /** The nearest declaration of `[x] + r` is `x`'s own, or, when `x`
      declares none, the nearest one of `r`. */
  lemma NearestLangCons(t: Tree, x: int, r: seq<int>, v: string)
    ensures NearestLang(t, [x] + r, v)
            <==> if At(t, x).lang != "" then At(t, x).lang == v else NearestLang(t, r, v)
  {
    if At(t, x).lang != "" {
      NearestLangDeclared(t, x, r, v);
    } else {
      NearestLangSkips(t, x, r, v);
      NearestLangFinds(t, x, r, v);
    }
  }

  lemma NearestLangDeclared(t: Tree, x: int, r: seq<int>, v: string)
    requires At(t, x).lang != ""
    ensures NearestLang(t, [x] + r, v) <==> At(t, x).lang == v
  {
    var s := [x] + r;
    assert s[0] == x && s[..0] == [];
    assert forall i :: 0 < i <= |s| ==> s[..i][0] == x;
  }

  lemma NearestLangSkips(t: Tree, x: int, r: seq<int>, v: string)
    requires At(t, x).lang == ""
    ensures NearestLang(t, r, v) ==> NearestLang(t, [x] + r, v)
  {
    var s := [x] + r;
    if NearestLang(t, r, v) {
      var i :| 0 <= i < |r| && v != "" && At(t, r[i]).lang == v && NoLang(t, r[..i]);
      assert s[i + 1] == r[i] && s[..i + 1] == [x] + r[..i];
      NoLangCons(t, x, r[..i]);
    }
  }

  lemma NearestLangFinds(t: Tree, x: int, r: seq<int>, v: string)
    requires At(t, x).lang == ""
    ensures NearestLang(t, [x] + r, v) ==> NearestLang(t, r, v)
  {
    var s := [x] + r;
    if NearestLang(t, s, v) {
      var i :| 0 <= i < |s| && v != "" && At(t, s[i]).lang == v && NoLang(t, s[..i]);
      assert s[0] == x;
      assert i != 0;
      assert s[i] == r[i - 1] && s[..i] == [x] + r[..i - 1];
      NoLangCons(t, x, r[..i - 1]);
    }
  }

  /** `:lang(v)` holds when the nearest node from the element up that
      declares a language declares `v`. */
  lemma {:induction false} LangNearest(t: Tree, x: int, v: string)
    ensures LangFrom(t, x, v) <==> NearestLang(t, UpFrom(t, x), v)
    decreases x
  {
    if IsNode(t, x) {
      AncestorsFromParent(t, x);
      LangNearest(t, Parent(t, x), v);
      NearestLangCons(t, x, UpFrom(t, Parent(t, x)), v);
    }
  }

  /** No node of `s` declares a direction. */
  predicate NoDir(t: Tree, s: seq<int>)
  {
    forall j :: 0 <= j < |s| ==> At(t, s[j]).dir == ""
  }

  /** Some node of `s` declares a direction, and the first that does
      declares `v`. */
  predicate DeclaredDir(t: Tree, s: seq<int>, v: string)
  {
    exists i :: 0 <= i < |s| && v != "" && At(t, s[i]).dir == v && NoDir(t, s[..i])
  }

  /** The first node of `s` that declares a direction declares `v`; with
      none, the direction is "ltr". */
  predicate NearestDir(t: Tree, s: seq<int>, v: string)
  {
    DeclaredDir(t, s, v) || (NoDir(t, s) && v == "ltr")
  }

  lemma NoDirCons(t: Tree, x: int, r: seq<int>)
    requires At(t, x).dir == ""
    ensures NoDir(t, [x] + r) <==> NoDir(t, r)
  {
    assert forall j :: 0 <= j < |r| ==> ([x] + r)[j + 1] == r[j];
  }

  /** The nearest direction of `[x] + r` is `x`'s own, or, when `x`
      declares none, the nearest one of `r`. */
  lemma NearestDirCons(t: Tree, x: int, r: seq<int>, v: string)
    ensures NearestDir(t, [x] + r, v)
            <==> if At(t, x).dir != "" then At(t, x).dir == v else NearestDir(t, r, v)
  {
    if At(t, x).dir != "" {
      DeclaredDirHead(t, x, r, v);
      assert !NoDir(t, [x] + r) by { assert ([x] + r)[0] == x; }
    } else {
      NoDirCons(t, x, r);
      DeclaredDirSkips(t, x, r, v);
      DeclaredDirFinds(t, x, r, v);
    }
  }

  lemma DeclaredDirHead(t: Tree, x: int, r: seq<int>, v: string)
    requires At(t, x).dir != ""
    ensures DeclaredDir(t, [x] + r, v) <==> At(t, x).dir == v
  {
    var s := [x] + r;
    assert s[0] == x && s[..0] == [];
    assert forall i :: 0 < i <= |s| ==> s[..i][0] == x;
  }

  lemma DeclaredDirSkips(t: Tree, x: int, r: seq<int>, v: string)
    requires At(t, x).dir == ""
    ensures DeclaredDir(t, r, v) ==> DeclaredDir(t, [x] + r, v)
  {
    var s := [x] + r;
    if DeclaredDir(t, r, v) {
      var i :| 0 <= i < |r| && v != "" && At(t, r[i]).dir == v && NoDir(t, r[..i]);
      assert s[i + 1] == r[i] && s[..i + 1] == [x] + r[..i];
      NoDirCons(t, x, r[..i]);
    }
  }

  lemma DeclaredDirFinds(t: Tree, x: int, r: seq<int>, v: string)
    requires At(t, x).dir == ""
    ensures DeclaredDir(t, [x] + r, v) ==> DeclaredDir(t, r, v)
  {
    var s := [x] + r;
    if DeclaredDir(t, s, v) {
      var i :| 0 <= i < |s| && v != "" && At(t, s[i]).dir == v && NoDir(t, s[..i]);
      assert s[0] == x;
      assert i != 0;
      assert s[i] == r[i - 1] && s[..i] == [x] + r[..i - 1];
      NoDirCons(t, x, r[..i - 1]);
    }
  }

  /** `:dir(v)` holds when the nearest declared direction from the element
      up is `v`, or none is declared and `v` is "ltr". */
  lemma {:induction false} DirNearest(t: Tree, x: int, v: string)
    ensures DirFrom(t, x, v) <==> NearestDir(t, UpFrom(t, x), v)
    decreases x
  {
    if IsNode(t, x) {
      AncestorsFromParent(t, x);
      DirNearest(t, Parent(t, x), v);
      NearestDirCons(t, x, UpFrom(t, Parent(t, x)), v);
    }
  }

  // ---- first-of-type and last-of-type ------------------------------------------

  /** `x` and the element siblings after it, nearest first. */
  function ForwardFrom(t: Tree, x: int): seq<int>
    decreases |t.nodes| - x
  {
    if !IsElement(t, x) then []
    else if NextElement(t, x) == Null then [x]
    else [x] + ForwardFrom(t, NextElement(t, x))
  }

  /** The backward search finds the name exactly when some element sibling
      from `x` back carries it. */
  lemma {:induction false} NameBeforeAny(t: Tree, x: int, name: string)
    ensures NameBefore(t, x, name) <==> exists y :: y in BackFrom(t, x) && At(t, y).nodeName == name
    decreases x
  {
    if IsElement(t, x) {
      NameBeforeAny(t, PreviousElement(t, x), name);
      assert BackFrom(t, x) == [x] + BackFrom(t, PreviousElement(t, x));
    }
  }

  /** The forward search finds the name exactly when some element sibling
      from `x` on carries it. */
  lemma {:induction false} NameAfterAny(t: Tree, x: int, name: string)
    ensures NameAfter(t, x, name) <==> exists y :: y in ForwardFrom(t, x) && At(t, y).nodeName == name
    decreases |t.nodes| - x
  {
    if IsElement(t, x) && NextElement(t, x) != Null {
      NameAfterAny(t, NextElement(t, x), name);
      assert ForwardFrom(t, x) == [x] + ForwardFrom(t, NextElement(t, x));
    }
  }

  /** `:first-of-type`: no earlier element sibling has the element's node
      name. */
  lemma FirstOfTypeHolds(t: Tree, e: int, name: string)
    ensures !NameBefore(t, PreviousElement(t, e), name)
            <==> forall y :: y in BackFrom(t, PreviousElement(t, e)) ==> At(t, y).nodeName != name
  {
    NameBeforeAny(t, PreviousElement(t, e), name);
  }

  /** `:last-of-type`: no later element sibling has the element's node
      name. */
  lemma LastOfTypeHolds(t: Tree, e: int, name: string)
    ensures !NameAfter(t, NextElement(t, e), name)
            <==> forall y :: y in ForwardFrom(t, NextElement(t, e)) ==> At(t, y).nodeName != name
  {
    NameAfterAny(t, NextElement(t, e), name);
  }

  // ---- empty -------------------------------------------------------------------

  /** A child node `:empty` tolerates: not text, and named no later than
      "@", which leaves comments and other `#`-named nodes. */
  predicate Contentless(n: Node)
  {
    n.nodeType != TextNode && !StrLess("@", n.nodeName)
  }

  /** The walk from `x` passes exactly when every node of the chain from
      `x` is contentless. */
  lemma {:induction false} NoContentAll(t: Tree, x: int)
    ensures NoContentFrom(t, x) <==> forall y :: y in ChainFrom(t, x) ==> Contentless(At(t, y))
    decreases |t.nodes| - x
  {
    if IsNode(t, x) && Next(t, x) != Null {
      NoContentAll(t, Next(t, x));
      assert ChainFrom(t, x) == [x] + ChainFrom(t, Next(t, x));
    }
  }

  /** `:empty`: every child node is contentless. */
  lemma EmptyHolds(t: Tree, e: int)
    ensures NoContentFrom(t, Dom.FirstChild(t, e)) <==> forall y :: y in ChildNodes(t, e) ==> Contentless(At(t, y))
  {
    NoContentAll(t, Dom.FirstChild(t, e));
  }

  // ---- not and matches ---------------------------------------------------------

  /** `:not(list)` holds when no selector of the list matches the element,
      and `:matches(list)` when some selector does. */
  lemma NotMatchesHold(t: Tree, e: int, c: Collection)
    ensures !MatchColl(t, c, e, [], false) <==> forall j :: 0 <= j < |c| ==> !MatchSel(t, c[j], e, [], false)
    ensures MatchColl(t, c, e, [], false) <==> exists j :: 0 <= j < |c| && MatchSel(t, c[j], e, [], false)
  {
    MatchFacts.MatchCollAny(t, c, e, [], false);
  }

  // ---- only-match ----------------------------------------------------------------

  /** The one-part collection `[[part]]` `:only-match` filters with. */
  function Alone(part: Part): Collection
  {
    [Selector([part], false, false, None, None)]
  }

  /** A one-part selector matches exactly the elements that pass the part. */
  lemma AloneMatches(t: Tree, part: Part, x: int)
    ensures MatchColl(t, Alone(part), x, [], true) <==> IsElement(t, x) && Test(t, x, part, true)
  {
    var sel := Alone(part)[0];
    MatchFacts.MatchCollAny(t, Alone(part), x, [], true);
    assert MatchColl(t, Alone(part), x, [], true) <==> MatchSel(t, sel, x, [], true);
    assert |sel.parts| - 1 == 0 && sel.parts[0] == part;
    if IsElement(t, x) && Test(t, x, part, true) {
      assert Climb(t, sel, 0, x, true) == x;
      assert WalkEnd(t, sel, x, true) == x;
      assert x != Null;
    }
  }

  /** Counting the matching elements is the length of what `filterSelector`
      keeps of the element list, in the nested mode the `n` token selects. */
  lemma {:induction false} CountIsFilterLength(t: Tree, s: seq<int>, part: Part)
    ensures CountMatching(t, s, part) == |Selecting(t, Alone(part), Elements(t, s), [], true)|
  {
    if s != [] {
      CountIsFilterLength(t, s[1..], part);
      AloneMatches(t, part, s[0]);
      var rest := Elements(t, s[1..]);
      if IsElement(t, s[0]) {
        var list := Elements(t, s);
        assert list == [s[0]] + rest;
        assert list[0] == s[0] && list[1..] == rest;
        assert Selecting(t, Alone(part), list, [], true)
               == (if MatchColl(t, Alone(part), s[0], [], true) then [s[0]] else [])
                  + Selecting(t, Alone(part), rest, [], true);
      } else {
        assert Elements(t, s) == rest;
        assert CountMatching(t, s, part) == CountMatching(t, s[1..], part);
      }
    }
  }

  /** `:only-match` outside a nested test: exactly one element child of the
      parent passes the part, as `filterSelector` over the filtered
      children counts them. */
  lemma OnlyMatchIsFilterCount(t: Tree, e: int, part: Part)
    requires Parent(t, e) != Null
    ensures CountMatching(t, ElementChildren(t, Parent(t, e)), part)
            == |Selecting(t, Alone(part), Elements(t, ElementChildren(t, Parent(t, e))), [], true)|
  {
    CountIsFilterLength(t, ElementChildren(t, Parent(t, e)), part);
  }
}
