/** What the attribute tests and the class list amount to on ordinary
    values: on a value without line breaks each comparator is the plain
    string predicate Selectors Level 3 (section 6.3) describes, and the
    class list is the inverse of joining class names with spaces. */
module AttrFacts {
  import opened Chars
  import opened Syntax
  import opened Match
  import Scan

  // ---- comparators on one line ---------------------------------------------

  /** No line terminator in `x`, so `^` and `$` only match at its ends. */
  predicate SingleLine(x: string)
  {
    forall i :: 0 <= i < |x| ==> !IsLineTerminator(x[i])
  }

  /** Folding keeps a value on one line. */
  lemma FoldSingleLine(caseInsensitive: bool, x: string)
    requires SingleLine(x)
    ensures SingleLine(Fold(caseInsensitive, x))
  {
  }

  /** On one line, `^` holds at the start only and `$` at the end only. */
  lemma AnchorsAtEnds(x: string, i: int)
    requires SingleLine(x) && 0 <= i <= |x|
    ensures LineStartAt(x, i) <==> i == 0
    ensures LineEndAt(x, i) <==> i == |x|
  {
  }

  /** The comparators of the attribute grammar as plain string predicates:
      `=` equality, `^=` prefix, `$=` suffix, `*=` substring, `|=` equal
      or followed by "-". */
  predicate PlainHolds(cmp: Comparator, x: string, v: string)
    requires cmp != Word
  {
    match cmp
    case Equals => x == v
    case Prefix => IsPrefix(v, x)
    case Suffix => IsSuffix(v, x)
    case Substring => IsInfix(v, x)
    case DashMatch => x == v || IsPrefix(v + "-", x)
  }

  lemma OccursAtStart(v: string, x: string)
    ensures OccursAt(v, x, 0) <==> IsPrefix(v, x)
  {
  }

  lemma OccursIsPrefixOfRest(v: string, x: string, i: int)
    requires 0 <= i <= |x|
    ensures OccursAt(v, x, i) <==> IsPrefix(v, x[i..])
  {
    if |v| <= |x| - i {
      assert x[i..][..|v|] == x[i..i + |v|];
    }
  }

  lemma EqualsOnOneLine(x: string, v: string)
    requires SingleLine(x)
    ensures Anchored(Equals, x, v) <==> x == v
  {
    if Anchored(Equals, x, v) {
      var i :| 0 <= i <= |x| && OccursAt(v, x, i) && BeforeHolds(Equals, x, i) && AfterHolds(Equals, x, i + |v|);
      AnchorsAtEnds(x, i);
      AnchorsAtEnds(x, i + |v|);
      assert x[0..|x|] == x;
    }
    if x == v {
      assert x[0..|v|] == x;
      assert OccursAt(v, x, 0) && BeforeHolds(Equals, x, 0) && AfterHolds(Equals, x, |v|);
    }
  }

  lemma PrefixOnOneLine(x: string, v: string)
    requires SingleLine(x)
    ensures Anchored(Prefix, x, v) <==> IsPrefix(v, x)
  {
    if Anchored(Prefix, x, v) {
      var i :| 0 <= i <= |x| && OccursAt(v, x, i) && BeforeHolds(Prefix, x, i) && AfterHolds(Prefix, x, i + |v|);
      AnchorsAtEnds(x, i);
    }
    if IsPrefix(v, x) {
      assert OccursAt(v, x, 0) && BeforeHolds(Prefix, x, 0) && AfterHolds(Prefix, x, |v|);
    }
  }

  lemma SuffixOnOneLine(x: string, v: string)
    requires SingleLine(x)
    ensures Anchored(Suffix, x, v) <==> IsSuffix(v, x)
  {
    if Anchored(Suffix, x, v) {
      var i :| 0 <= i <= |x| && OccursAt(v, x, i) && BeforeHolds(Suffix, x, i) && AfterHolds(Suffix, x, i + |v|);
      AnchorsAtEnds(x, i + |v|);
    }
    if IsSuffix(v, x) {
      var i := |x| - |v|;
      assert OccursAt(v, x, i) && BeforeHolds(Suffix, x, i) && AfterHolds(Suffix, x, i + |v|);
    }
  }

  lemma SubstringOnAnyValue(x: string, v: string)
    ensures Anchored(Substring, x, v) <==> IsInfix(v, x)
  {
    if Anchored(Substring, x, v) {
      var i :| 0 <= i <= |x| && OccursAt(v, x, i) && BeforeHolds(Substring, x, i) && AfterHolds(Substring, x, i + |v|);
      OccursIsPrefixOfRest(v, x, i);
    }
    if IsInfix(v, x) {
      var i :| 0 <= i <= |x| && IsPrefix(v, x[i..]);
      OccursIsPrefixOfRest(v, x, i);
      assert BeforeHolds(Substring, x, i) && AfterHolds(Substring, x, i + |v|);
    }
  }

  lemma DashMatchOnOneLine(x: string, v: string)
    requires SingleLine(x)
    ensures Anchored(DashMatch, x, v) <==> x == v || IsPrefix(v + "-", x)
  {
    if Anchored(DashMatch, x, v) {
      var i :| 0 <= i <= |x| && OccursAt(v, x, i) && BeforeHolds(DashMatch, x, i) && AfterHolds(DashMatch, x, i + |v|);
      AnchorsAtEnds(x, i);
      AnchorsAtEnds(x, i + |v|);
      if OccursAt("-", x, |v|) {
        assert x[..|v| + 1] == x[0..|v|] + x[|v|..|v| + 1];
      } else {
        assert x[0..|x|] == x;
      }
    }
    if x == v {
      assert x[0..|v|] == x;
      assert OccursAt(v, x, 0) && BeforeHolds(DashMatch, x, 0) && AfterHolds(DashMatch, x, |v|);
    } else if IsPrefix(v + "-", x) {
      assert x[0..|v|] == (v + "-")[..|v|];
      assert x[|v|..|v| + 1] == "-";
      assert OccursAt(v, x, 0) && BeforeHolds(DashMatch, x, 0) && AfterHolds(DashMatch, x, |v|);
    }
  }

  /** On a value without line breaks, every comparator the attribute
      grammar produces is its plain string predicate on the folded value
      and operand. */
  lemma AttrHoldsPlain(m: AttrMatcher, value: string)
    requires SingleLine(value) && m.cmp != Word
    ensures AttrHolds(m, value)
            <==> PlainHolds(m.cmp, Fold(m.caseInsensitive, value), Fold(m.caseInsensitive, m.operand))
  {
    var x := Fold(m.caseInsensitive, value);
    var v := Fold(m.caseInsensitive, m.operand);
    FoldSingleLine(m.caseInsensitive, value);
    match m.cmp
    case Equals => EqualsOnOneLine(x, v);
    case Prefix => PrefixOnOneLine(x, v);
    case Suffix => SuffixOnOneLine(x, v);
    case Substring => SubstringOnAnyValue(x, v);
    case DashMatch => DashMatchOnOneLine(x, v);
  }

  /** Under the `i` flag the test ignores the case of ASCII letters in the
      value. */
  lemma AttrHoldsIgnoresCase(m: AttrMatcher, value: string)
    requires m.caseInsensitive
    ensures AttrHolds(m, Lower(value)) <==> AttrHolds(m, value)
  {
    LowerIdempotent(value);
  }

  // ---- the class list ------------------------------------------------------

  /** A class name as the list holds it: non-empty, without white space. */
  predicate IsClassName(w: string)
  {
    w != "" && forall i :: 0 <= i < |w| ==> !IsSpace(w[i])
  }

  /** `names.join(" ")`. */
  function JoinSpaces(names: seq<string>): string
  {
    if names == [] then ""
    else if |names| == 1 then names[0]
    else names[0] + " " + JoinSpaces(names[1..])
  }

  lemma {:induction false} SplitWord(s: string, word: string)
    requires forall i :: 0 <= i < |s| ==> !IsSpace(s[i])
    ensures SplitFrom(s, word) == [word + s]
    decreases |s|
  {
    if s != "" {
      assert !IsSpace(s[0]);
      SplitWord(s[1..], word + [s[0]]);
      assert word + [s[0]] + s[1..] == word + s;
    } else {
      assert word + s == word;
    }
  }

  lemma {:induction false} SplitAtSpace(w: string, rest: string, word: string)
    requires forall i :: 0 <= i < |w| ==> !IsSpace(w[i])
    requires rest != "" && !IsSpace(rest[0])
    ensures SplitFrom(w + " " + rest, word) == [word + w] + SplitFrom(rest, "")
    decreases |w|
  {
    var s := w + " " + rest;
    if w == "" {
      assert s == " " + rest;
      assert Scan.SpaceEnd(s, 0) == 1 by {
        assert s[1] == rest[0];
        assert Scan.SpaceEnd(s, 1) == 1;
      }
      assert s[1..] == rest;
      assert word + w == word;
    } else {
      assert s[0] == w[0] && s[1..] == w[1..] + " " + rest;
      SplitAtSpace(w[1..], rest, word + [w[0]]);
      assert word + [w[0]] + w[1..] == word + w;
    }
  }

  /** Splitting the joined names gives the names back. */
  lemma {:induction false} SplitJoin(names: seq<string>)
    requires names != []
    requires forall k :: 0 <= k < |names| ==> IsClassName(names[k])
    ensures JoinSpaces(names) != "" && names[0] != "" && JoinSpaces(names)[0] == names[0][0]
    ensures SplitFrom(JoinSpaces(names), "") == names
  {
    if |names| == 1 {
      SplitWord(names[0], "");
      assert "" + names[0] == names[0];
    } else {
      var rest := JoinSpaces(names[1..]);
      SplitJoin(names[1..]);
      SplitAtSpace(names[0], rest, "");
      assert "" + names[0] == names[0];
      assert [names[0]] + names[1..] == names;
    }
  }

  /** The class list of a `className` made by joining class names with
      spaces is those names, in order. */
  lemma ClassListJoin(names: seq<string>)
    requires forall k :: 0 <= k < |names| ==> IsClassName(names[k])
    ensures ClassList(JoinSpaces(names)) == names
  {
    if names != [] {
      SplitJoin(names);
    }
  }
}
