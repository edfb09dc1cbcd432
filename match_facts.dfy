/** What the matcher's definitions amount to: `an+b` as divisibility, the
    position `nthCheck` counts, and how a collection of selectors matches. */
module MatchFacts {
  import opened Chars
  import opened Syntax
  import opened Dom
  import opened Match
  import Scan

  // ---- an+b ------------------------------------------------------------------

  /** The `n`-th term of `an+b`. */
  function Term(a: int, n: int, b: int): int
  {
    a * n + b
  }

  lemma {:induction false} MulAtLeast(m: int, z: int)
    requires m > 0 && z >= 1
    ensures m * z >= m
    decreases z
  {
    if z > 1 {
      MulAtLeast(m, z - 1);
      assert m * z == m * (z - 1) + m;
    }
  }

  /** A multiple of `m` leaves no remainder. */
  lemma RemZeroOfMultiple(m: int, q: int)
    requires m > 0
    ensures (m * q) % m == 0
  {
    var x := m * q;
    var d := x / m;
    var r := x % m;
    assert x == m * d + r;
    var z := q - d;
    assert m * z == r by {
      assert m * z == m * q - m * d;
    }
    if z >= 1 {
      MulAtLeast(m, z);
    }
  }

  /** With a step, the test holds exactly at the terms of `an+b`, for every
      integer `n`, negative ones included. */
  lemma {:induction false} NthHoldsIff(a: int, b: int, k: int)
    requires a != 0
    ensures NthHolds(a, b, k) <==> exists n :: k == Term(a, n, b)
  {
    var m := if a > 0 then a else -a;
    var x := k - b;
    if NthHolds(a, b, k) {
      var q: int;
      if x >= 0 {
        assert x % m == 0;
        q := x / m;
        assert x == m * q;
      } else {
        assert (-x) % m == 0;
        q := -((-x) / m);
        assert -x == m * (-q);
      }
      var n := if a > 0 then q else -q;
      assert k == Term(a, n, b);
    }
    if n :| k == Term(a, n, b) {
      var q := if a > 0 then n else -n;
      assert x == m * q;
      if x >= 0 {
        RemZeroOfMultiple(m, q);
      } else {
        assert -x == m * (-q);
        RemZeroOfMultiple(m, -q);
      }
    }
  }

  /** Without a step, the test holds at position `b` only. */
  lemma NthHoldsNoStep(b: int, k: int)
    ensures NthHolds(0, b, k) <==> k == b
  {
  }

  /** "odd" and "even" select the odd and the even positions. */
  lemma NthHoldsOddEven(k: int)
    ensures NthHolds(2, 1, k) <==> k % 2 == 1
    ensures NthHolds(2, 0, k) <==> k % 2 == 0
  {
    NthHoldsIff(2, 1, k);
    NthHoldsIff(2, 0, k);
    if k % 2 == 1 {
      assert k == Term(2, k / 2, 1);
    }
    if k % 2 == 0 {
      assert k == Term(2, k / 2, 0);
    }
  }

  /** With no lower bound on `n`, `2n+3` also holds at position 1, which
      no `n >= 0` reaches. */
  lemma NthNegativeTerm()
    ensures NthHolds(2, 3, 1)
    ensures forall n: nat :: Term(2, n, 3) != 1
  {
  }

  // ---- the position nthCheck counts -----------------------------------------

  /** The sibling chain from `c`, following `nextSibling` (`forward`) or
      `previousSibling`. */
  function Chain(t: Tree, c: int, forward: bool): (s: seq<int>)
    ensures forall i :: 0 <= i < |s| ==> IsNode(t, s[i]) && (if forward then c <= s[i] else s[i] <= c)
    decreases (if forward then |t.nodes| - c else c) + 1
  {
    if !IsNode(t, c) then []
    else
      var c' := if forward then Next(t, c) else Previous(t, c);
      if c' == Null then [c] else [c] + Chain(t, c', forward)
  }

  /** The forward chain is `ChainFrom`. */
  lemma {:induction false} ChainForward(t: Tree, c: int)
    ensures Chain(t, c, true) == ChainFrom(t, c)
    decreases |t.nodes| - c
  {
    if IsNode(t, c) && Next(t, c) != Null {
      ChainForward(t, Next(t, c));
    }
  }

  /** The entries of `s` the filter counts, in order. */
  function Selected(t: Tree, s: seq<int>, filter: Counting, part: Part): (r: seq<int>)
    ensures forall x :: x in r ==> x in s
  {
    if s == [] then []
    else (if Counted(t, s[0], filter, part) then [s[0]] else []) + Selected(t, s[1..], filter, part)
  }

  /** Counting every element selects the elements. */
  lemma {:induction false} SelectedAll(t: Tree, s: seq<int>, part: Part)
    ensures Selected(t, s, AllElements, part) == Elements(t, s)
  {
    if s != [] {
      SelectedAll(t, s[1..], part);
    }
  }

  /** `e` is counted at some position `k` of `s`, and `count + k + 1`
      satisfies the formula. */
  predicate PositionAt(s: seq<int>, e: int, a: int, b: int, count: nat)
  {
    exists k :: 0 <= k < |s| && s[k] == e && NthHolds(a, b, count + k + 1)
  }

  /** The position argument on sequences alone: `s` starts with `c` when
      `c` is counted, and `c` does not occur in the rest `s'`. */
  lemma PositionStep(s: seq<int>, s': seq<int>, c: int, counted: bool, e: int, a: int, b: int, count: nat)
    requires s == (if counted then [c] else []) + s'
    requires c !in s'
    ensures var count' := if counted then count + 1 else count;
            PositionAt(s, e, a, b, count)
            <==> (if counted && c == e then NthHolds(a, b, count + 1)
                  else PositionAt(s', e, a, b, count'))
  {
    var count' := if counted then count + 1 else count;
    if counted && c == e {
      assert s[0] == e;
    } else if counted {
      assert s == [c] + s' && s[0] == c;
      if k :| 0 <= k < |s| && s[k] == e && NthHolds(a, b, count + k + 1) {
        assert k > 0 && s'[k - 1] == e;
        assert count' + (k - 1) + 1 == count + k + 1;
        assert 0 <= k - 1 < |s'| && s'[k - 1] == e && NthHolds(a, b, count' + (k - 1) + 1);
      }
      if k :| 0 <= k < |s'| && s'[k] == e && NthHolds(a, b, count' + k + 1) {
        assert s[k + 1] == e;
        assert count + (k + 1) + 1 == count' + k + 1;
        assert 0 <= k + 1 < |s| && s[k + 1] == e && NthHolds(a, b, count + (k + 1) + 1);
      }
    } else {
      assert s == s';
    }
  }

  /** One step along the chain: it starts at `c` and goes on from the next
      sibling in walk order, which never comes back to `c`. */
  lemma {:induction false} ChainStep(t: Tree, c: int, forward: bool, filter: Counting, part: Part)
    requires IsNode(t, c)
    ensures var c' := if forward then Next(t, c) else Previous(t, c);
            var rest := if c' == Null then [] else Chain(t, c', forward);
            && Selected(t, Chain(t, c, forward), filter, part)
               == (if Counted(t, c, filter, part) then [c] else []) + Selected(t, rest, filter, part)
            && c !in Selected(t, rest, filter, part)
  {
    var c' := if forward then Next(t, c) else Previous(t, c);
    var rest := if c' == Null then [] else Chain(t, c', forward);
    var chain := Chain(t, c, forward);
    assert chain == [c] + rest;
    assert chain[1..] == rest;
    assert c !in rest;
  }

  /** `nthCheck`'s loop from `c`, having counted `count`, succeeds exactly
      when the element is counted at position `k` of the chain and
      `count + k + 1` satisfies the formula. */
  lemma {:induction false} NthWalkPosition(t: Tree, e: int, c: int, count: nat, a: int, b: int,
                                           forward: bool, filter: Counting, part: Part)
    ensures var s := Selected(t, Chain(t, c, forward), filter, part);
            NthWalk(t, e, c, count, a, b, forward, filter, part) <==> PositionAt(s, e, a, b, count)
    decreases (if forward then |t.nodes| - c else c) + 1
  {
    if IsNode(t, c) {
      var c' := if forward then Next(t, c) else Previous(t, c);
      var rest := if c' == Null then [] else Chain(t, c', forward);
      var counted := Counted(t, c, filter, part);
      var count' := if counted then count + 1 else count;
      ChainStep(t, c, forward, filter, part);
      PositionStep(Selected(t, Chain(t, c, forward), filter, part), Selected(t, rest, filter, part),
                   c, counted, e, a, b, count);
      if c' != Null {
        NthWalkPosition(t, e, c', count', a, b, forward, filter, part);
      }
    }
  }

  /** `:nth-child(an+b)`: the element's 1-based position among its parent's
      element children satisfies the formula. */
  lemma NthChildPosition(t: Tree, e: int, a: int, b: int, part: Part)
    ensures var p := Parent(t, e);
            NthSpec(t, e, a, b, true, AllElements, part)
            <==> p != Null && exists k :: 0 <= k < |ElementChildren(t, p)| && ElementChildren(t, p)[k] == e
                                          && NthHolds(a, b, k + 1)
  {
    var p := Parent(t, e);
    if p != Null {
      var first := Dom.FirstChild(t, p);
      NthWalkPosition(t, e, first, 0, a, b, true, AllElements, part);
      ChainForward(t, first);
      assert ChildNodes(t, p) == Chain(t, first, true);
      SelectedAll(t, ChildNodes(t, p), part);
      assert ElementChildren(t, p) == Selected(t, Chain(t, first, true), AllElements, part);
    }
  }

  /** `:nth-of-type`, `:nth-match` and the backwards variants: the position
      among the siblings the filter counts, in walk order. */
  lemma NthPosition(t: Tree, e: int, a: int, b: int, forward: bool, filter: Counting, part: Part)
    ensures var p := Parent(t, e);
            var s := Selected(t, Chain(t, if forward then Dom.FirstChild(t, p) else Dom.LastChild(t, p), forward), filter, part);
            NthSpec(t, e, a, b, forward, filter, part)
            <==> p != Null && exists k :: 0 <= k < |s| && s[k] == e && NthHolds(a, b, k + 1)
  {
    var p := Parent(t, e);
    if p != Null {
      NthWalkPosition(t, e, if forward then Dom.FirstChild(t, p) else Dom.LastChild(t, p), 0, a, b, forward, filter, part);
    }
  }

  /** `:nth-child(1)` is the first element child. */
  lemma NthChildOne(t: Tree, e: int, part: Part)
    ensures var p := Parent(t, e);
            NthSpec(t, e, 0, 1, true, AllElements, part)
            <==> p != Null && ElementChildren(t, p) != [] && ElementChildren(t, p)[0] == e
  {
    NthChildPosition(t, e, 0, 1, part);
  }

  // ---- collections -------------------------------------------------------------

  /** `selectorMatch` tries the selectors in turn: some selector from `i`
      on matches. */
  lemma {:induction false} MatchFromAny(t: Tree, c: Collection, i: nat, e: int, origins: seq<int>, nested: bool)
    ensures MatchFrom(t, c, i, e, origins, nested) <==> exists j :: i <= j < |c| && MatchSel(t, c[j], e, origins, nested)
    decreases |c| - i
  {
    if i < |c| {
      MatchFromAny(t, c, i + 1, e, origins, nested);
    }
  }

  /** A collection matches exactly when one of its selectors does; the order
      only decides which selector is tried first. */
  lemma MatchCollAny(t: Tree, c: Collection, e: int, origins: seq<int>, nested: bool)
    ensures MatchColl(t, c, e, origins, nested) <==> exists j :: 0 <= j < |c| && MatchSel(t, c[j], e, origins, nested)
  {
    MatchFromAny(t, c, 0, e, origins, nested);
  }

  /** Origins only narrow the match: whatever matches relative to origins
      also matches on its own. */
  lemma MatchCollOrigins(t: Tree, c: Collection, e: int, origins: seq<int>, nested: bool)
    ensures MatchColl(t, c, e, origins, nested) ==> MatchColl(t, c, e, [], nested)
  {
    MatchCollAny(t, c, e, origins, nested);
    MatchCollAny(t, c, e, [], nested);
  }

  /** Joining two collections, as a comma does, matches what either does. */
  lemma MatchCollJoin(t: Tree, a: Collection, b: Collection, e: int, origins: seq<int>, nested: bool)
    ensures MatchColl(t, a + b, e, origins, nested)
            <==> MatchColl(t, a, e, origins, nested) || MatchColl(t, b, e, origins, nested)
  {
    MatchCollAny(t, a + b, e, origins, nested);
    MatchCollAny(t, a, e, origins, nested);
    MatchCollAny(t, b, e, origins, nested);
    if j :| 0 <= j < |b| && MatchSel(t, b[j], e, origins, nested) {
      assert (a + b)[|a| + j] == b[j];
    }
    if j :| 0 <= j < |a| && MatchSel(t, a[j], e, origins, nested) {
      assert (a + b)[j] == a[j];
    }
  }
}
