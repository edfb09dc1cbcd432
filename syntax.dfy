/** The parsed form of a selector string: a collection of comma-separated
    selectors, each a sequence of parts joined by combinators. */
module Syntax {

  datatype Option<T> = None | Some(value: T)

  datatype Result<T, E> = Ok(value: T) | Err(error: E)

  /** The combinator in front of a part: "" (descendant), ">", "+", "~". */
  datatype Relation = Descendant | Child | Adjacent | Sibling

  /** How an attribute operand is compared: "=", "^=", "$=", "*=", "|=",
      and "~=" (a whitespace-separated word), which the attribute grammar
      never produces. */
  datatype Comparator = Equals | Prefix | Suffix | Substring | DashMatch | Word

  /** One attribute test: comparator, operand, and the `i` flag. */
  datatype AttrMatcher = AttrMatcher(cmp: Comparator, operand: string, caseInsensitive: bool)

  /** The registered pseudo-classes. */
  datatype PseudoName =
    | AnyLink | LocalLink
    | FirstChild | LastChild | OnlyChild | NthChild | NthLastChild
    | FirstOfType | LastOfType | OnlyOfType | NthOfType | NthLastOfType
    | FirstMatch | LastMatch | OnlyMatch | NthMatch | NthLastMatch
    | Disabled | Enabled | Indeterminate | Checked | Focus
    | Empty | Not | Matches
    | Target | Root | Lang | Dir

  /** The value one use of a pseudo-class was parsed into: the raw text in
      parentheses, an `an+b` formula, or a nested selector collection with
      its support tier (1 to 5). */
  datatype PseudoArg =
    | Text(text: string)
    | Nth(step: int, offset: int)
    | Nested(tier: int, collection: seq<Selector>)

  /** All uses of one pseudo-class in a part, in order of appearance. */
  datatype PseudoEntry = PseudoEntry(name: PseudoName, args: seq<PseudoArg>)

  /** One compound selector and the combinator that links it to the part
      before it. `lookupCount` counts the direct lookups (tag name, id,
      `name` attribute) the part offers; `contains` is the selector a `$`
      part's element must contain. */
  datatype Part = Part(
    relation: Relation,
    tagName: string,
    id: Option<string>,
    classes: seq<string>,
    attrs: map<string, seq<AttrMatcher>>,
    searchName: Option<string>,
    pseudos: seq<PseudoEntry>,
    contains: Option<Selector>,
    lookupCount: nat,
    preferNative: bool)

  /** A selector: its parts left to right, whether a native engine could
      run it in full, whether the native engine should be preferred, the
      index of the last part with an id, and the pseudo-class whose getter
      supplies the candidates. */
  datatype Selector = Selector(
    parts: seq<Part>,
    fullSupport: bool,
    useNative: bool,
    idPart: Option<nat>,
    getter: Option<PseudoName>)

  type Collection = seq<Selector>

  /** What a failed parse raises: a `SyntaxError` with its message, or the
      `TypeError` the source raises by dereferencing a missing value. */
  datatype ParseError = SyntaxError(message: string) | TypeError

  const EmptyPart := Part(Descendant, "*", None, [], map[], None, [], None, 0, false)

  /** The registry's name of each pseudo-class. */
  function NameOf(p: PseudoName): string
  {
    match p
    case AnyLink => "any-link"
    case LocalLink => "local-link"
    case FirstChild => "first-child"
    case LastChild => "last-child"
    case OnlyChild => "only-child"
    case NthChild => "nth-child"
    case NthLastChild => "nth-last-child"
    case FirstOfType => "first-of-type"
    case LastOfType => "last-of-type"
    case OnlyOfType => "only-of-type"
    case NthOfType => "nth-of-type"
    case NthLastOfType => "nth-last-of-type"
    case FirstMatch => "first-match"
    case LastMatch => "last-match"
    case OnlyMatch => "only-match"
    case NthMatch => "nth-match"
    case NthLastMatch => "nth-last-match"
    case Disabled => "disabled"
    case Enabled => "enabled"
    case Indeterminate => "indeterminate"
    case Checked => "checked"
    case Focus => "focus"
    case Empty => "empty"
    case Not => "not"
    case Matches => "matches"
    case Target => "target"
    case Root => "root"
    case Lang => "lang"
    case Dir => "dir"
  }

  /** The registry lookup: the pseudo-class registered under `name`. The
      names are kept in buckets by their first letter, which changes
      nothing about what is found and keeps each comparison short. */
  function Lookup(name: string): (r: Option<PseudoName>)
    ensures r.Some? ==> NameOf(r.value) == name
  {
    if name == "" then None else Find(name, Bucket(name[0]))
  }

  /** The registered pseudo-classes whose names start with `c`. */
  function Bucket(c: char): seq<PseudoName>
  {
    match c
    case 'a' => [AnyLink]
    case 'c' => [Checked]
    case 'd' => [Disabled, Dir]
    case 'e' => [Enabled, Empty]
    case 'f' => [FirstChild, FirstOfType, FirstMatch, Focus]
    case 'i' => [Indeterminate]
    case 'l' => [LocalLink, LastChild, LastOfType, LastMatch, Lang]
    case 'm' => [Matches]
    case 'n' => [NthChild, NthLastChild, NthOfType, NthLastOfType, NthMatch, NthLastMatch, Not]
    case 'o' => [OnlyChild, OnlyOfType, OnlyMatch]
    case 'r' => [Root]
    case 't' => [Target]
    case _ => []
  }

  /** The first entry of a bucket registered under `name`. */
  function Find(name: string, bucket: seq<PseudoName>): (r: Option<PseudoName>)
    ensures r.Some? ==> r.value in bucket && NameOf(r.value) == name
    ensures r.None? ==> forall p :: p in bucket ==> NameOf(p) != name
  {
    if bucket == [] then None
    else if NameOf(bucket[0]) == name then Some(bucket[0])
    else Find(name, bucket[1..])
  }

  /** No two entries of the bucket share a name. */
  predicate Distinct(bucket: seq<PseudoName>)
  {
    forall i, j :: 0 <= i < j < |bucket| ==> NameOf(bucket[i]) != NameOf(bucket[j])
  }

  /** In a bucket without repeated names, the entry at `k` is found under
      its own name. */
  lemma {:induction false} FindOwn(bucket: seq<PseudoName>, k: nat)
    requires k < |bucket| && Distinct(bucket)
    ensures Find(NameOf(bucket[k]), bucket) == Some(bucket[k])
  {
    if k > 0 {
      assert NameOf(bucket[0]) != NameOf(bucket[k]);
      assert bucket[1..][k - 1] == bucket[k];
      assert Distinct(bucket[1..]) by {
        forall i, j | 0 <= i < j < |bucket| - 1
          ensures NameOf(bucket[1..][i]) != NameOf(bucket[1..][j])
        {
          assert bucket[1..][i] == bucket[i + 1] && bucket[1..][j] == bucket[j + 1];
        }
      }
      FindOwn(bucket[1..], k - 1);
    }
  }

  /** Every bucket is free of repeated names. */
  lemma BucketDistinct(c: char)
    ensures Distinct(Bucket(c))
  {
    if c == 'n' {
      NthBucketDistinct();
    } else if c == 'l' {
      LBucketDistinct();
    }
  }

  lemma NthBucketDistinct()
    ensures Distinct(Bucket('n'))
  {
    var b := Bucket('n');
    forall i, j | 0 <= i < j < |b|
      ensures NameOf(b[i]) != NameOf(b[j])
    {
      var x, y := NameOf(b[i]), NameOf(b[j]);
      if |x| == |y| {
        if |x| == 9 {
          assert x[4] != y[4];
        } else {
          assert x[9] != y[9];
        }
      }
    }
  }

  lemma LBucketDistinct()
    ensures Distinct(Bucket('l'))
  {
  }

  /** Where a pseudo-class sits in its bucket. */
  function Slot(p: PseudoName): nat
  {
    match p
    case AnyLink | LocalLink | FirstChild | OnlyChild | NthChild | Disabled | Enabled | Indeterminate | Checked | Matches | Target | Root => 0
    case LastChild | NthLastChild | FirstOfType | OnlyOfType | Empty | Dir => 1
    case LastOfType | NthOfType | FirstMatch | OnlyMatch => 2
    case NthLastOfType | LastMatch | Focus => 3
    case NthMatch | Lang => 4
    case NthLastMatch => 5
    case Not => 6
  }

  /** Every pseudo-class sits in the bucket of its name's first letter. */
  lemma InOwnBucket(p: PseudoName)
    ensures NameOf(p) != "" && Slot(p) < |Bucket(NameOf(p)[0])| && Bucket(NameOf(p)[0])[Slot(p)] == p
  {
    if p.NthChild? || p.NthLastChild? || p.NthOfType? || p.NthLastOfType? || p.NthMatch? || p.NthLastMatch? || p.Not? {
      InNthBucket(p);
    } else if p.LocalLink? || p.LastChild? || p.LastOfType? || p.LastMatch? || p.Lang? {
      InLastBucket(p);
    } else if p.FirstChild? || p.FirstOfType? || p.FirstMatch? || p.Focus? || p.OnlyChild? || p.OnlyOfType? || p.OnlyMatch? {
      InFirstOnlyBucket(p);
    } else {
      InOtherBucket(p);
    }
  }

  lemma InNthBucket(p: PseudoName)
    requires p.NthChild? || p.NthLastChild? || p.NthOfType? || p.NthLastOfType? || p.NthMatch? || p.NthLastMatch? || p.Not?
    ensures NameOf(p) != "" && Slot(p) < |Bucket(NameOf(p)[0])| && Bucket(NameOf(p)[0])[Slot(p)] == p
  {
  }

  lemma InLastBucket(p: PseudoName)
    requires p.LocalLink? || p.LastChild? || p.LastOfType? || p.LastMatch? || p.Lang?
    ensures NameOf(p) != "" && Slot(p) < |Bucket(NameOf(p)[0])| && Bucket(NameOf(p)[0])[Slot(p)] == p
  {
  }

  lemma InFirstOnlyBucket(p: PseudoName)
    requires p.FirstChild? || p.FirstOfType? || p.FirstMatch? || p.Focus? || p.OnlyChild? || p.OnlyOfType? || p.OnlyMatch?
    ensures NameOf(p) != "" && Slot(p) < |Bucket(NameOf(p)[0])| && Bucket(NameOf(p)[0])[Slot(p)] == p
  {
  }

  lemma InOtherBucket(p: PseudoName)
    requires p.AnyLink? || p.Checked? || p.Disabled? || p.Dir? || p.Enabled? || p.Empty? || p.Indeterminate? || p.Matches? || p.Root? || p.Target?
    ensures NameOf(p) != "" && Slot(p) < |Bucket(NameOf(p)[0])| && Bucket(NameOf(p)[0])[Slot(p)] == p
  {
  }

  /** Every registered pseudo-class is found under its own name. */
  lemma LookupNameOf(p: PseudoName)
    ensures Lookup(NameOf(p)) == Some(p)
  {
    InOwnBucket(p);
    BucketDistinct(NameOf(p)[0]);
    FindOwn(Bucket(NameOf(p)[0]), Slot(p));
  }

  /** The pre-parser a pseudo-class's argument goes through. */
  datatype PreKind = PlainText | Formula | SelectorList

  function PreOf(p: PseudoName): PreKind
  {
    match p
    case NthChild | NthLastChild | NthOfType | NthLastOfType | NthMatch | NthLastMatch => Formula
    case Not | Matches => SelectorList
    case _ => PlainText
  }

  /** The pseudo-classes that carry a getter for candidate elements. */
  predicate HasGetter(p: PseudoName)
  {
    p == Focus || p == Matches || p == Target || p == Root
  }
}
