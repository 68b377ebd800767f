/**
  The duplicate census of src/lib/index-generator.ts: the numeric id found in
  a component's path, and `buildDuplicatesMap`, which in one pass over the
  components counts every sanitised name and, per raw category, lists the
  numeric ids of the components that carry each sanitised name.

  The two JavaScript `Map`s are modelled as Dafny maps that the loop
  reassigns; the inner maps and arrays of `categoryDuplicates` are values, so
  the aliasing of the arrays that `push` extends is not modelled.
 */
module Census {
  import opened Ascii
  import opened Seqs
  import opened ComponentUtils

  // ---------------------------------------------------------------------------
  // The numeric id: the first five digits in a row in the path, or nothing
  // ---------------------------------------------------------------------------

  predicate AllDigits(s: string) {
    forall i :: 0 <= i < |s| ==> IsDigit(s[i])
  }

  /** Five digits in a row start at position `i` of `s`. */
  predicate Window(s: string, i: int) {
    0 <= i && i + 5 <= |s| && AllDigits(s[i..i + 5])
  }

  /** The first run of five consecutive digits in `path`, or the empty
      string when there is none. */
  function NumericId(path: string): (id: string)
    ensures |id| == 0 || |id| == 5
    ensures AllDigits(id)
    decreases |path|
  {
    if |path| < 5 then ""
    else if AllDigits(path[..5]) then path[..5]
    else NumericId(path[1..])
  }

  /** The numeric id is empty exactly when the path holds no five digits in
      a row; otherwise it is the leftmost such run. */
  lemma {:induction false} NumericIdLeftmost(path: string)
    ensures NumericId(path) == [] <==> forall i :: !Window(path, i)
    ensures NumericId(path) != [] ==>
      exists i :: Window(path, i) && NumericId(path) == path[i..i + 5] && forall j :: 0 <= j < i ==> !Window(path, j)
    decreases |path|
  {
    if |path| < 5 {
    } else if AllDigits(path[..5]) {
      assert path[0..5] == path[..5];
      assert Window(path, 0);
    } else {
      var rest := path[1..];
      NumericIdLeftmost(rest);
      assert path[0..5] == path[..5];
      forall i
        ensures Window(rest, i) <==> Window(path, i + 1)
      {
        if 0 <= i && i + 5 <= |rest| {
          assert rest[i..i + 5] == path[i + 1..i + 6];
        }
      }
      if NumericId(rest) != [] {
        var i :| Window(rest, i) && NumericId(rest) == rest[i..i + 5] && forall j :: 0 <= j < i ==> !Window(rest, j);
        assert Window(path, i + 1);
        forall j | 0 <= j < i + 1
          ensures !Window(path, j)
        {
          if j > 0 {
            assert !Window(rest, j - 1);
          }
        }
      } else {
        forall i
          ensures !Window(path, i)
        {
          if i > 0 {
            assert !Window(rest, i - 1);
          }
        }
      }
    }
  }

  /** A run of digits at the front of a path is found, whatever follows. */
  lemma NumericIdOfPrefix(id: string, rest: string)
    requires |id| == 5 && AllDigits(id)
    ensures NumericId(id + rest) == id
  {
    assert (id + rest)[..5] == id;
  }

  /** A run of five digits after a stretch with no digit is the numeric id,
      whatever follows it. */
  lemma {:induction false} NumericIdAfter(prefix: string, id: string, rest: string)
    requires forall i :: 0 <= i < |prefix| ==> !IsDigit(prefix[i])
    requires |id| == 5 && AllDigits(id)
    ensures NumericId(prefix + id + rest) == id
    decreases |prefix|
  {
    if prefix == [] {
      assert prefix + id + rest == id + rest;
      NumericIdOfPrefix(id, rest);
    } else {
      var path := prefix + id + rest;
      assert path[..5][0] == prefix[0];
      assert path[1..] == prefix[1..] + id + rest;
      NumericIdAfter(prefix[1..], id, rest);
    }
  }

  /** A path with no digit at all has the empty numeric id. */
  lemma {:induction false} NumericIdNoDigits(path: string)
    requires forall i :: 0 <= i < |path| ==> !IsDigit(path[i])
    ensures NumericId(path) == []
    decreases |path|
  {
    if |path| >= 5 {
      assert !IsDigit(path[..5][0]);
      NumericIdNoDigits(path[1..]);
    }
  }

  // ---------------------------------------------------------------------------
  // buildDuplicatesMap
  // ---------------------------------------------------------------------------

  function HasName(n: string): ComponentInfo -> bool {
    (c: ComponentInfo) => SanitizeComponentName(c.name) == n
  }

  function HasCategoryAndName(k: string, n: string): ComponentInfo -> bool {
    (c: ComponentInfo) => c.category == k && SanitizeComponentName(c.name) == n
  }

  /** The number of components whose sanitised name is `n`. */
  function GlobalCount(components: seq<ComponentInfo>, n: string): nat {
    Count(components, HasName(n))
  }

  /** The numeric id of a component's path, as a function value. */
  function PathId(): ComponentInfo -> string {
    (c: ComponentInfo) => NumericId(c.path)
  }

  /** The numeric ids of the paths of `components`, in order. */
  function IdsOf(components: seq<ComponentInfo>): seq<string> {
    Map(components, PathId())
  }

  /** The numeric ids, in input order, of the components of raw category
      `k` whose sanitised name is `n`. */
  function CategoryIds(components: seq<ComponentInfo>, k: string, n: string): seq<string> {
    IdsOf(Filter(components, HasCategoryAndName(k, n)))
  }

  /** `global` and `byCategory` are the census of `components`: a name is a
      key of `global` exactly when some component carries it, and its value
      is how many do; the keys of `byCategory` are the raw categories that
      occur, a name is a key of a category's inner map exactly when a
      component of that category carries it, and its value lists their
      numeric ids. */
  ghost predicate IsCensus(components: seq<ComponentInfo>, global: map<string, nat>, byCategory: map<string, map<string, seq<string>>>) {
    && (forall n {:trigger GlobalCount(components, n)} :: n in global <==> GlobalCount(components, n) > 0)
    && (forall n {:trigger GlobalCount(components, n)} :: n in global ==> global[n] == GlobalCount(components, n))
    && (forall k :: k in byCategory <==> k in Categories(components))
    && (forall k, n {:trigger CategoryIds(components, k, n)} :: k in byCategory ==> (n in byCategory[k] <==> CategoryIds(components, k, n) != []))
    && (forall k, n {:trigger CategoryIds(components, k, n)} :: k in byCategory && n in byCategory[k] ==> byCategory[k][n] == CategoryIds(components, k, n))
  }

  lemma GlobalCountStep(components: seq<ComponentInfo>, c: ComponentInfo, n: string)
    ensures GlobalCount(components + [c], n) == GlobalCount(components, n) + if SanitizeComponentName(c.name) == n then 1 else 0
  {
    FilterAppend(components, [c], HasName(n));
  }

  lemma CategoryIdsStep(components: seq<ComponentInfo>, c: ComponentInfo, k: string, n: string)
    ensures CategoryIds(components + [c], k, n) ==
      CategoryIds(components, k, n) + if c.category == k && SanitizeComponentName(c.name) == n then [NumericId(c.path)] else []
  {
    var p := HasCategoryAndName(k, n);
    FilterAppend(components, [c], p);
    var front := Filter(components, p);
    if p(c) {
      assert Filter([c], p) == [c];
      MapAppend(front, c, PathId());
    } else {
      assert Filter([c], p) == [];
      assert front + [] == front;
    }
  }

  lemma CategoriesStep(components: seq<ComponentInfo>, c: ComponentInfo, k: string)
    ensures k in Categories(components + [c]) <==> k in Categories(components) || k == c.category
  {
    assert (components + [c])[..|components|] == components;
  }

  /** `buildDuplicatesMap`: for each component, bump the global count of its
      sanitised name, create its category's map and its name's array when
      first met, and push its numeric id. */
  method BuildDuplicatesMap(components: seq<ComponentInfo>)
    returns (global: map<string, nat>, byCategory: map<string, map<string, seq<string>>>)
    ensures IsCensus(components, global, byCategory)
  {
    global := map[];
    byCategory := map[];
    CensusOfNone(components[..0]);
    for i := 0 to |components|
      invariant IsCensus(components[..i], global, byCategory)
    {
      var component := components[i];
      var name := SanitizeComponentName(component.name);
      var category := component.category;
      var numericId := NumericId(component.path);

      var counted := global[name := (if name in global then global[name] else 0) + 1];

      var categoryMap := if category in byCategory then byCategory[category] else map[];
      var ids := if name in categoryMap then categoryMap[name] else [];
      var listed := byCategory[category := categoryMap[name := ids + [numericId]]];

      CensusStep(components[..i], component, global, byCategory, counted, listed);
      CensusOfPrefix(components, i, counted, listed);
      global, byCategory := counted, listed;
    }
    assert components[..|components|] == components;
  }

  /** No components, empty maps. */
  lemma CensusOfNone(none: seq<ComponentInfo>)
    requires none == []
    ensures IsCensus(none, map[], map[])
  {
    forall n
      ensures GlobalCount(none, n) == 0
    {
    }
    forall k, n
      ensures CategoryIds(none, k, n) == []
    {
    }
  }

  lemma CensusOfPrefix(components: seq<ComponentInfo>, i: nat, g: map<string, nat>, d: map<string, map<string, seq<string>>>)
    requires i < |components|
    requires IsCensus(components[..i] + [components[i]], g, d)
    ensures IsCensus(components[..i + 1], g, d)
  {
    assert components[..i + 1] == components[..i] + [components[i]];
  }

  /** One step of the loop keeps the census. */
  lemma CensusStep(
    components: seq<ComponentInfo>, c: ComponentInfo,
    g0: map<string, nat>, d0: map<string, map<string, seq<string>>>,
    g1: map<string, nat>, d1: map<string, map<string, seq<string>>>)
    requires IsCensus(components, g0, d0)
    requires var name := SanitizeComponentName(c.name);
      g1 == g0[name := (if name in g0 then g0[name] else 0) + 1]
    requires var name, k := SanitizeComponentName(c.name), c.category;
      var inner := if k in d0 then d0[k] else map[];
      var ids := if name in inner then inner[name] else [];
      d1 == d0[k := inner[name := ids + [NumericId(c.path)]]]
    ensures IsCensus(components + [c], g1, d1)
  {
    var cs := components + [c];
    forall n
      ensures (n in g1 <==> GlobalCount(cs, n) > 0) && (n in g1 ==> g1[n] == GlobalCount(cs, n))
    {
      GlobalCountStep(components, c, n);
    }
    forall k
      ensures k in d1 <==> k in Categories(cs)
    {
      CategoriesStep(components, c, k);
    }
    forall k, n | k in d1
      ensures (n in d1[k] <==> CategoryIds(cs, k, n) != []) && (n in d1[k] ==> d1[k][n] == CategoryIds(cs, k, n))
    {
      CategoryIdsStep(components, c, k, n);
      if k != c.category {
        assert d1[k] == d0[k];
      } else if k !in d0 {
        CategoriesCover(components, k);
        FilterDropsAll(components, HasCategoryAndName(k, n));
      }
    }
  }

  /** The census determines both maps: there is only one pair of maps that
      satisfies it. */
  lemma CensusUnique(
    components: seq<ComponentInfo>,
    g1: map<string, nat>, d1: map<string, map<string, seq<string>>>,
    g2: map<string, nat>, d2: map<string, map<string, seq<string>>>)
    requires IsCensus(components, g1, d1) && IsCensus(components, g2, d2)
    ensures g1 == g2 && d1 == d2
  {
    forall n
      ensures (n in g1 <==> n in g2) && (n in g1 ==> g1[n] == g2[n])
    {
      var count := GlobalCount(components, n);
    }
    assert g1.Keys == g2.Keys;
    assert d1.Keys == d2.Keys;
    forall k | k in d1
      ensures d1[k] == d2[k]
    {
      forall n
        ensures (n in d1[k] <==> n in d2[k]) && (n in d1[k] ==> d1[k][n] == d2[k][n])
      {
        var ids := CategoryIds(components, k, n);
      }
      assert d1[k].Keys == d2[k].Keys;
    }
  }

  /** The length of the id list of `n` in each of `keys`, summed. */
  function SumLengths(byCategory: map<string, map<string, seq<string>>>, keys: seq<string>, n: string): nat {
    if keys == [] then 0
    else
      var k := keys[0];
      (if k in byCategory && n in byCategory[k] then |byCategory[k][n]| else 0) + SumLengths(byCategory, keys[1..], n)
  }

  function HasAnyCategoryAndName(keys: seq<string>, n: string): ComponentInfo -> bool {
    (c: ComponentInfo) => c.category in keys && SanitizeComponentName(c.name) == n
  }

  lemma {:induction false} SumLengthsCount(
    components: seq<ComponentInfo>, g: map<string, nat>, d: map<string, map<string, seq<string>>>,
    keys: seq<string>, n: string)
    requires IsCensus(components, g, d)
    requires Distinct(keys)
    requires forall i :: 0 <= i < |keys| ==> keys[i] in d
    ensures SumLengths(d, keys, n) == Count(components, HasAnyCategoryAndName(keys, n))
  {
    if keys == [] {
      FilterDropsAll(components, HasAnyCategoryAndName(keys, n));
    } else {
      var k, rest := keys[0], keys[1..];
      CensusLength(components, g, d, k, n);
      SumLengthsCount(components, g, d, rest, n);
      FirstKeySplit(components, keys, n);
      CountDisjointUnion(components, HasCategoryAndName(k, n), HasAnyCategoryAndName(rest, n), HasAnyCategoryAndName(keys, n));
    }
  }

  /** The id list of a name in a category is as long as the number of
      components of that category carrying the name. */
  lemma CensusLength(components: seq<ComponentInfo>, g: map<string, nat>, d: map<string, map<string, seq<string>>>, k: string, n: string)
    requires IsCensus(components, g, d) && k in d
    ensures (if n in d[k] then |d[k][n]| else 0) == Count(components, HasCategoryAndName(k, n))
  {
    assert |CategoryIds(components, k, n)| == Count(components, HasCategoryAndName(k, n));
  }

  /** Belonging to one of distinct keys is belonging to the first or, apart
      from it, to one of the others. */
  lemma FirstKeySplit(components: seq<ComponentInfo>, keys: seq<string>, n: string)
    requires Distinct(keys) && keys != []
    ensures forall i :: 0 <= i < |components| ==>
      HasAnyCategoryAndName(keys, n)(components[i]) == (HasCategoryAndName(keys[0], n)(components[i]) || HasAnyCategoryAndName(keys[1..], n)(components[i]))
    ensures forall i :: 0 <= i < |components| ==>
      !(HasCategoryAndName(keys[0], n)(components[i]) && HasAnyCategoryAndName(keys[1..], n)(components[i]))
  {
    assert keys == [keys[0]] + keys[1..];
    assert keys[0] !in keys[1..];
  }

  /** The per-category id lists of a name add up to its global count. */
  lemma CensusSum(components: seq<ComponentInfo>, g: map<string, nat>, d: map<string, map<string, seq<string>>>, n: string)
    requires IsCensus(components, g, d)
    ensures SumLengths(d, Categories(components), n) == GlobalCount(components, n)
    ensures n in g ==> SumLengths(d, Categories(components), n) == g[n]
  {
    var keys := Categories(components);
    CategoriesDistinct(components);
    SumLengthsCount(components, g, d, keys, n);
    forall i | 0 <= i < |components|
      ensures HasAnyCategoryAndName(keys, n)(components[i]) == HasName(n)(components[i])
    {
      CategoriesCover(components, components[i].category);
    }
    FilterCongruent(components, HasAnyCategoryAndName(keys, n), HasName(n));
  }
}
