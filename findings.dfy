/** `escapeForRx` escapes `.*+?|\()[]{}` but not `^` and `$`, so an
    attribute operand holding either character becomes an anchor inside the
    attribute expression rather than a literal character. The expression is
    modelled here as written and with the two characters escaped; the
    matcher (`Match.AttrHolds`) uses the literal reading. */
module Findings {
  import opened Chars
  import opened Syntax
  import opened Match

  // ---- escapeForRx ---------------------------------------------------------

  /** The characters `RxRxEscape` escapes. */
  const RxSpecials := ".*+?|\\()[]{}"

  /** `s` with a backslash in front of every character of `specials`. */
  function EscapeWith(specials: string, s: string): (e: string)
    ensures |e| >= |s|
  {
    if s == "" then ""
    else (if s[0] in specials then ['\\', s[0]] else [s[0]]) + EscapeWith(specials, s[1..])
  }

  /** `escapeForRx` as written. */
  function EscapeForRx(s: string): string
  {
    EscapeWith(RxSpecials, s)
  }

  /** `escapeForRx` with `^` and `$` escaped as well. */
  function EscapeForRxFixed(s: string): string
  {
    EscapeWith(RxSpecials + "^$", s)
  }

  /** One item of a pattern: a character matched literally, or the `^` and
      `$` anchors, which under the `m` flag hold at line boundaries. */
  datatype Token = Lit(c: char) | LineStart | LineEnd

  /** How a pattern in which no metacharacter but `^` and `$` is left bare
      is read: `\c` is the character `c`, `^` and `$` are anchors, and
      anything else stands for itself. */
  function Pattern(p: string): seq<Token>
    decreases |p|
  {
    if p == "" then []
    else if p[0] == '\\' && |p| > 1 then [Lit(p[1])] + Pattern(p[2..])
    else [if p[0] == '^' then LineStart else if p[0] == '$' then LineEnd else Lit(p[0])] + Pattern(p[1..])
  }

  /** The token an unescaped character of the operand turns into. */
  function Read(specials: string, c: char): Token
  {
    if c in specials then Lit(c)
    else if c == '^' then LineStart
    else if c == '$' then LineEnd
    else Lit(c)
  }

  function Literal(v: string): (r: seq<Token>)
    ensures |r| == |v| && forall k :: 0 <= k < |v| ==> r[k] == Lit(v[k])
  {
    if v == "" then [] else [Lit(v[0])] + Literal(v[1..])
  }

  /** Escaping and reading back gives each character's token, provided the
      backslash is among the escaped characters. */
  lemma {:induction false} PatternOfEscape(specials: string, s: string)
    requires '\\' in specials
    ensures |Pattern(EscapeWith(specials, s))| == |s|
    ensures forall k :: 0 <= k < |s| ==> Pattern(EscapeWith(specials, s))[k] == Read(specials, s[k])
  {
    if s != "" {
      var rest := EscapeWith(specials, s[1..]);
      PatternOfEscape(specials, s[1..]);
      if s[0] in specials {
        assert (['\\', s[0]] + rest)[2..] == rest;
      } else {
        assert ([s[0]] + rest)[1..] == rest;
      }
    }
  }

  /** The fixed escape leaves no anchor: the operand is read literally. */
  lemma FixedReadsLiterally(s: string)
    ensures Pattern(EscapeForRxFixed(s)) == Literal(s)
  {
    PatternOfEscape(RxSpecials + "^$", s);
  }

  /** The written escape turns `^` and `$` into anchors. */
  lemma AsWrittenReadsAnchors(s: string)
    ensures |Pattern(EscapeForRx(s))| == |s|
    ensures forall k :: 0 <= k < |s| ==>
              Pattern(EscapeForRx(s))[k] == (if s[k] == '^' then LineStart else if s[k] == '$' then LineEnd else Lit(s[k]))
  {
    PatternOfEscape(RxSpecials, s);
  }

  /** Where the tokens, matched from index `i` of `x`, end. */
  function MatchEnd(toks: seq<Token>, x: string, i: int): Option<int>
    decreases |toks|
  {
    if toks == [] then Some(i)
    else
      var holds := match toks[0]
        case Lit(c) => 0 <= i < |x| && x[i] == c
        case LineStart => LineStartAt(x, i)
        case LineEnd => LineEndAt(x, i);
      if !holds then None
      else MatchEnd(toks[1..], x, if toks[0].Lit? then i + 1 else i)
  }

  /** A literal pattern matches at `i` exactly where the text occurs. */
  lemma {:induction false} LiteralMatch(v: string, x: string, i: int)
    requires 0 <= i <= |x|
    ensures MatchEnd(Literal(v), x, i) == (if OccursAt(v, x, i) then Some(i + |v|) else None)
    decreases |v|
  {
    var toks := Literal(v);
    if v != "" {
      assert toks[0] == Lit(v[0]) && toks[1..] == Literal(v[1..]);
      if 0 <= i < |x| && x[i] == v[0] {
        assert MatchEnd(toks, x, i) == MatchEnd(Literal(v[1..]), x, i + 1);
        LiteralMatch(v[1..], x, i + 1);
        if i + |v| <= |x| {
          assert x[i..i + |v|] == [x[i]] + x[i + 1..i + |v|];
          assert v == [v[0]] + v[1..];
        }
      } else {
        assert MatchEnd(toks, x, i) == None;
      }
    }
  }

  /** The attribute expression `RxATList[type][0] + pattern +
      RxATList[type][1]` finds a match in `x`. */
  predicate RegexHolds(cmp: Comparator, x: string, toks: seq<Token>)
  {
    exists i :: 0 <= i <= |x| && BeforeHolds(cmp, x, i) && MatchEnd(toks, x, i).Some?
                && AfterHolds(cmp, x, MatchEnd(toks, x, i).value)
  }

  /** The attribute test as the source builds it. */
  predicate AttrHoldsAsWritten(m: AttrMatcher, value: string)
  {
    RegexHolds(m.cmp, Fold(m.caseInsensitive, value), Pattern(EscapeForRx(Fold(m.caseInsensitive, m.operand))))
  }

  /** The attribute test with the fixed escape. */
  predicate AttrHoldsFixed(m: AttrMatcher, value: string)
  {
    RegexHolds(m.cmp, Fold(m.caseInsensitive, value), Pattern(EscapeForRxFixed(Fold(m.caseInsensitive, m.operand))))
  }

  /** A literal pattern finds a match exactly where the text occurs with
      the comparator's anchors around it. */
  lemma LiteralRegex(cmp: Comparator, x: string, v: string)
    ensures RegexHolds(cmp, x, Literal(v)) <==> Anchored(cmp, x, v)
  {
    if RegexHolds(cmp, x, Literal(v)) {
      RegexIsAnchored(cmp, x, v);
    }
    if Anchored(cmp, x, v) {
      AnchoredIsRegex(cmp, x, v);
    }
  }

  lemma RegexIsAnchored(cmp: Comparator, x: string, v: string)
    requires RegexHolds(cmp, x, Literal(v))
    ensures Anchored(cmp, x, v)
  {
    var i :| 0 <= i <= |x| && BeforeHolds(cmp, x, i) && MatchEnd(Literal(v), x, i).Some?
             && AfterHolds(cmp, x, MatchEnd(Literal(v), x, i).value);
    LiteralMatch(v, x, i);
    assert OccursAt(v, x, i) && MatchEnd(Literal(v), x, i).value == i + |v|;
  }

  lemma AnchoredIsRegex(cmp: Comparator, x: string, v: string)
    requires Anchored(cmp, x, v)
    ensures RegexHolds(cmp, x, Literal(v))
  {
    var i :| 0 <= i <= |x| && OccursAt(v, x, i) && BeforeHolds(cmp, x, i) && AfterHolds(cmp, x, i + |v|);
    LiteralMatch(v, x, i);
    assert MatchEnd(Literal(v), x, i) == Some(i + |v|);
  }

  /** With the fixed escape, the expression is the literal reading `AttrHolds`
      the matcher uses. */
  lemma AttrHoldsFixedIsLiteral(m: AttrMatcher, value: string)
    ensures AttrHoldsFixed(m, value) <==> AttrHolds(m, value)
  {
    var v := Fold(m.caseInsensitive, m.operand);
    FixedReadsLiterally(v);
    LiteralRegex(m.cmp, Fold(m.caseInsensitive, value), v);
  }

  /** The written escape reads `a$b` as `a`, an end-of-line anchor and `b`. */
  lemma DollarTokens()
    ensures Pattern(EscapeForRx("a$b")) == [Lit('a'), LineEnd, Lit('b')]
  {
    AsWrittenReadsAnchors("a$b");
  }

  /** Those tokens match nowhere in `a$b`: the only line start is index 0,
      and index 1 is no line end. */
  lemma DollarNoMatch(i: int)
    requires 0 <= i <= 3 && LineStartAt("a$b", i)
    ensures MatchEnd([Lit('a'), LineEnd, Lit('b')], "a$b", i).None?
  {
    var x := "a$b";
    var toks := [Lit('a'), LineEnd, Lit('b')];
    assert i == 0;
    assert !LineEndAt(x, 1);
    assert toks[1..] == [LineEnd, Lit('b')];
    assert MatchEnd(toks, x, 0) == MatchEnd(toks[1..], x, 1);
  }

  /** `[a="a$b"]` does not match an element whose `a` is "a$b": the `$`
      becomes an end-of-line anchor between `a` and `b`. */
  lemma DollarOperandAsWritten()
    ensures AttrHolds(AttrMatcher(Equals, "a$b", false), "a$b")
    ensures !AttrHoldsAsWritten(AttrMatcher(Equals, "a$b", false), "a$b")
  {
    var x := "a$b";
    assert OccursAt(x, x, 0) && AfterHolds(Equals, x, 3);
    DollarTokens();
    forall i | 0 <= i <= |x| && BeforeHolds(Equals, x, i)
      ensures MatchEnd(Pattern(EscapeForRx(x)), x, i).None?
    {
      DollarNoMatch(i);
    }
  }

  /** Without `^` and `$` the written escape reads the operand literally. */
  lemma AsWrittenLiteralWithoutAnchors(s: string)
    requires '^' !in s && '$' !in s
    ensures Pattern(EscapeForRx(s)) == Literal(s)
  {
    assert forall k :: 0 <= k < |s| ==> s[k] in s;
    AsWrittenReadsAnchors(s);
  }

  /** The written attribute test and the literal one the matcher uses
      differ only on operands holding `^` or `$`. */
  lemma AsWrittenAgreesWithoutAnchors(m: AttrMatcher, value: string)
    requires '^' !in m.operand && '$' !in m.operand
    ensures AttrHoldsAsWritten(m, value) <==> AttrHolds(m, value)
  {
    var v := Fold(m.caseInsensitive, m.operand);
    assert forall k :: 0 <= k < |m.operand| ==> m.operand[k] in m.operand;
    assert forall c :: c in v ==> c != '^' && c != '$';
    AsWrittenLiteralWithoutAnchors(v);
    LiteralRegex(m.cmp, Fold(m.caseInsensitive, value), v);
  }

  /** `[a^="^x"]` matches an element whose `a` is "x" as written: the
      operand's `^` is one more start anchor. The literal reading refuses
      it. */
  lemma CaretOperandAsWritten()
    ensures !AttrHolds(AttrMatcher(Prefix, "^x", false), "x")
    ensures AttrHoldsAsWritten(AttrMatcher(Prefix, "^x", false), "x")
  {
    AsWrittenReadsAnchors("^x");
    var toks := Pattern(EscapeForRx("^x"));
    assert toks == [LineStart, Lit('x')];
    assert toks[1..] == [Lit('x')];
    assert MatchEnd(toks, "x", 0) == Some(1);
  }
}
