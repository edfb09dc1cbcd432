/** The list utilities: `filterElements` and `makeFlatAndUnique`. */
module Lists {
  import opened Dom

  // ---- filterElements --------------------------------------------------------

  /** `filterElements`: the entries of the list that are elements, in order. */
  method FilterElements(t: Tree, list: seq<int>) returns (r: seq<int>)
    ensures r == Elements(t, list)
  {
    r := [];
    var i := 0;
    while i < |list|
      invariant 0 <= i <= |list|
      invariant r == Elements(t, list[..i])
    {
      assert list[..i + 1] == list[..i] + [list[i]];
      ElementsAppend(t, list[..i], [list[i]]);
      if IsElement(t, list[i]) {
        r := r + [list[i]];
      }
      i := i + 1;
    }
    assert list[..|list|] == list;
  }

  /** Filtering distributes over concatenation, so the elements keep their
      input order. */
  lemma {:induction false} ElementsAppend(t: Tree, a: seq<int>, b: seq<int>)
    ensures Elements(t, a + b) == Elements(t, a) + Elements(t, b)
  {
    if a == [] {
      assert a + b == b;
    } else {
      assert (a + b)[1..] == a[1..] + b;
      ElementsAppend(t, a[1..], b);
    }
  }

  // ---- makeFlatAndUnique -----------------------------------------------------

  /** `x` occurs in one of the arrays after array `i`. */
  predicate InLater(x: int, args: seq<seq<int>>, i: nat)
  {
    exists g :: i < g < |args| && x in args[g]
  }

  /** The entries of `a` (array `i` of `args`) that no later array holds,
      in order. */
  function Fresh(a: seq<int>, args: seq<seq<int>>, i: nat): seq<int>
  {
    if a == [] then []
    else
      var last := a[|a| - 1];
      Fresh(a[..|a| - 1], args, i) + (if InLater(last, args, i) then [] else [last])
  }

  /** An entry of array `i` survives exactly when no later array holds it. */
  lemma {:induction false} FreshMembers(a: seq<int>, args: seq<seq<int>>, i: nat)
    ensures forall x :: x in Fresh(a, args, i) <==> x in a && !InLater(x, args, i)
  {
    if a != [] {
      var last := a[|a| - 1];
      assert a == a[..|a| - 1] + [last];
      FreshMembers(a[..|a| - 1], args, i);
    }
  }

  /** What the first `n` arrays contribute. */
  function FlatPrefix(args: seq<seq<int>>, n: nat): seq<int>
    requires n <= |args|
  {
    if n == 0 then [] else FlatPrefix(args, n - 1) + Fresh(args[n - 1], args, n - 1)
  }

  /** `makeFlatAndUnique`'s result: each array's entries in order, less
      those a later array also holds. */
  function FlatUnique(args: seq<seq<int>>): seq<int>
  {
    FlatPrefix(args, |args|)
  }

  /** `makeFlatAndUnique`: for each entry of each array, the search
      through the later arrays decides whether it is emitted. */
  method MakeFlatAndUnique(args: seq<seq<int>>) returns (result: seq<int>)
    ensures result == FlatUnique(args)
  {
    result := [];
    var i := 0;
    while i < |args|
      invariant 0 <= i <= |args|
      invariant result == FlatPrefix(args, i)
    {
      var arg := args[i];
      var j := 0;
      while j < |arg|
        invariant 0 <= j <= |arg|
        invariant result == FlatPrefix(args, i) + Fresh(arg[..j], args, i)
      {
        var toCompare := arg[j];
        var alreadyIn := InLaterSearch(toCompare, args, i);
        FreshExtend(arg, j, args, i);
        var added := if alreadyIn then [] else [toCompare];
        assert result + added == FlatPrefix(args, i) + Fresh(arg[..j + 1], args, i);
        result := result + added;
        j := j + 1;
      }
      assert arg[..j] == arg;
      assert FlatPrefix(args, i + 1) == FlatPrefix(args, i) + Fresh(args[i], args, i);
      i := i + 1;
    }
  }

  /** The entries up to `j` of an array extend by entry `j` unless a later
      array holds it. */
  lemma FreshExtend(a: seq<int>, j: nat, args: seq<seq<int>>, i: nat)
    requires j < |a|
    ensures Fresh(a[..j + 1], args, i) == Fresh(a[..j], args, i) + (if InLater(a[j], args, i) then [] else [a[j]])
  {
    var b := a[..j + 1];
    assert b[|b| - 1] == a[j] && b[..|b| - 1] == a[..j];
  }

  /** The search of `makeFlatAndUnique` through the arrays after array `i`. */
  method InLaterSearch(x: int, args: seq<seq<int>>, i: nat) returns (alreadyIn: bool)
    ensures alreadyIn == InLater(x, args, i)
  {
    alreadyIn := false;
    var g := i + 1;
    while !alreadyIn && g < |args|
      invariant !alreadyIn ==> i + 1 <= g <= |args| || |args| <= i + 1
      invariant alreadyIn <==> exists h :: i < h < g && h < |args| && x in args[h]
    {
      var compareArray := args[g];
      var k := 0;
      while !alreadyIn && k < |compareArray|
        invariant 0 <= k <= |compareArray|
        invariant alreadyIn <==> x in compareArray[..k]
      {
        if compareArray[k] == x {
          alreadyIn := true;
        }
        k := k + 1;
      }
      assert !alreadyIn ==> compareArray[..k] == compareArray;
      g := g + 1;
    }
  }

  /** An entry of array `i` has a last holder at or after `i`. */
  lemma {:induction false} LastHolder(x: int, args: seq<seq<int>>, i: nat)
    requires i < |args| && x in args[i]
    ensures exists h :: i <= h < |args| && x in args[h] && !InLater(x, args, h)
    decreases |args| - i
  {
    if InLater(x, args, i) {
      var g :| i < g < |args| && x in args[g];
      LastHolder(x, args, g);
    }
  }

  /** The first `n` arrays contribute exactly the entries whose last
      holder is among them. */
  lemma {:induction false} FlatPrefixMembers(args: seq<seq<int>>, n: nat, x: int)
    requires n <= |args|
    ensures x in FlatPrefix(args, n) <==> exists h :: 0 <= h < n && x in args[h] && !InLater(x, args, h)
  {
    if n > 0 {
      FlatPrefixMembers(args, n - 1, x);
      FreshMembers(args[n - 1], args, n - 1);
    }
  }

  /** Nothing is lost: the result holds exactly the entries of the arrays. */
  lemma FlatUniqueMembers(args: seq<seq<int>>, x: int)
    ensures x in FlatUnique(args) <==> exists i :: 0 <= i < |args| && x in args[i]
  {
    FlatPrefixMembers(args, |args|, x);
    if i :| 0 <= i < |args| && x in args[i] {
      LastHolder(x, args, i);
    }
  }

  predicate NoDuplicates(s: seq<int>)
  {
    forall a, b :: 0 <= a < b < |s| ==> s[a] != s[b]
  }

  lemma {:induction false} FreshNoDuplicates(a: seq<int>, args: seq<seq<int>>, i: nat)
    requires NoDuplicates(a)
    ensures NoDuplicates(Fresh(a, args, i))
  {
    if a != [] {
      var front := a[..|a| - 1];
      assert NoDuplicates(front);
      FreshNoDuplicates(front, args, i);
      FreshMembers(front, args, i);
      assert a[|a| - 1] !in front;
    }
  }

  lemma ConcatNoDuplicates(a: seq<int>, b: seq<int>)
    requires NoDuplicates(a) && NoDuplicates(b)
    requires forall x :: x in a ==> x !in b
    ensures NoDuplicates(a + b)
  {
    forall p, q | 0 <= p < q < |a + b|
      ensures (a + b)[p] != (a + b)[q]
    {
      if p < |a| && q >= |a| {
        assert (a + b)[p] in a && (a + b)[q] == b[q - |a|];
      }
    }
  }

  /** Arrays without repeated entries give a result without repeated
      entries: an entry appears once, from its last holder. */
  lemma {:induction false} FlatPrefixNoDuplicates(args: seq<seq<int>>, n: nat)
    requires n <= |args|
    requires forall i :: 0 <= i < |args| ==> NoDuplicates(args[i])
    ensures NoDuplicates(FlatPrefix(args, n))
  {
    if n > 0 {
      var p := FlatPrefix(args, n - 1);
      var f := Fresh(args[n - 1], args, n - 1);
      FlatPrefixNoDuplicates(args, n - 1);
      FreshNoDuplicates(args[n - 1], args, n - 1);
      FreshMembers(args[n - 1], args, n - 1);
      forall x | x in p
        ensures x !in f
      {
        FlatPrefixMembers(args, n - 1, x);
        var h :| 0 <= h < n - 1 && x in args[h] && !InLater(x, args, h);
        assert x !in args[n - 1];
      }
      ConcatNoDuplicates(p, f);
    }
  }

  lemma FlatUniqueNoDuplicates(args: seq<seq<int>>)
    requires forall i :: 0 <= i < |args| ==> NoDuplicates(args[i])
    ensures NoDuplicates(FlatUnique(args))
  {
    FlatPrefixNoDuplicates(args, |args|);
  }

  /** Arrays are not checked against themselves: a single array comes back
      unchanged, repeats included. */
  lemma {:induction false} FreshAlone(a: seq<int>, b: seq<int>)
    ensures Fresh(a, [b], 0) == a
  {
    if a != [] {
      FreshAlone(a[..|a| - 1], b);
      assert !InLater(a[|a| - 1], [b], 0);
      assert a == a[..|a| - 1] + [a[|a| - 1]];
    }
  }

  lemma FlatUniqueSingle(a: seq<int>)
    ensures FlatUnique([a]) == a
  {
    FreshAlone(a, a);
    assert FlatPrefix([a], 1) == FlatPrefix([a], 0) + Fresh(a, [a], 0);
  }
}
