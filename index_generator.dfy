/**
  The layout of the generated index of src/lib/index-generator.ts: one import
  and one export per component, one export object per category with its
  label and its entries, and the default export that lists the category
  objects. The generated TypeScript text is represented by its structure:
  an import is `Plain` (`import { Name } from '...'`) or `Renamed`
  (`import { Name as Alias } from '...'`), and an object's entries are
  key/value pairs.
 */
module IndexGenerator {
  import opened Seqs
  import opened ComponentUtils
  import opened Census
  import opened Aliases
  import opened CategoryLabel

  // ---------------------------------------------------------------------------
  // Module paths
  // ---------------------------------------------------------------------------

  predicate EndsWithTsx(path: string) {
    |path| >= 4 && path[|path| - 4..] == ".tsx"
  }

  /** The relative module path: `./` and the file path without a trailing `.tsx`. */
  function ModulePath(path: string): string {
    "./" + if EndsWithTsx(path) then path[..|path| - 4] else path
  }

  /** Exactly one `.tsx` is removed from the end, and nothing else changes. */
  lemma ModulePathOfTsx(stem: string)
    ensures ModulePath(stem + ".tsx") == "./" + stem
  {
    assert (stem + ".tsx")[|stem|..] == ".tsx";
    assert (stem + ".tsx")[..|stem|] == stem;
  }

  /** The module path, with `.tsx` put back where it was removed, is the
      file path behind `./`. */
  lemma ModulePathRoundTrip(path: string)
    ensures var m := ModulePath(path);
      m[..2] == "./" && (if EndsWithTsx(path) then m[2..] + ".tsx" else m[2..]) == path
  {
    var m := ModulePath(path);
    assert m[2..] == if EndsWithTsx(path) then path[..|path| - 4] else path;
    if EndsWithTsx(path) {
      assert path == path[..|path| - 4] + path[|path| - 4..];
    }
  }

  // ---------------------------------------------------------------------------
  // First occurrence by sanitised name
  // ---------------------------------------------------------------------------

  function NameOf(c: ComponentInfo): string {
    SanitizeComponentName(c.name)
  }

  function NamesOf(components: seq<ComponentInfo>): set<string> {
    set i | 0 <= i < |components| :: NameOf(components[i])
  }

  /** The members whose sanitised name no earlier member carries, in order:
      the members that reach the category object. */
  function FirstByName(members: seq<ComponentInfo>): (kept: seq<ComponentInfo>)
    ensures |kept| <= |members|
    ensures forall c :: c in kept ==> c in members
  {
    if members == [] then []
    else
      var front := members[..|members| - 1];
      var last := members[|members| - 1];
      if NameOf(last) in NamesOf(front) then FirstByName(front) else FirstByName(front) + [last]
  }

  /** The names of a concatenation are the names of its halves. */
  lemma NamesOfAppend(a: seq<ComponentInfo>, b: seq<ComponentInfo>)
    ensures NamesOf(a + b) == NamesOf(a) + NamesOf(b)
  {
    forall n | n in NamesOf(a + b)
      ensures n in NamesOf(a) + NamesOf(b)
    {
      var i :| 0 <= i < |a + b| && NameOf((a + b)[i]) == n;
      if i < |a| {
        assert NameOf(a[i]) == n;
      } else {
        assert NameOf(b[i - |a|]) == n;
      }
    }
    forall n | n in NamesOf(a) + NamesOf(b)
      ensures n in NamesOf(a + b)
    {
      if n in NamesOf(a) {
        var i :| 0 <= i < |a| && NameOf(a[i]) == n;
        assert NameOf((a + b)[i]) == n;
      } else {
        var i :| 0 <= i < |b| && NameOf(b[i]) == n;
        assert NameOf((a + b)[|a| + i]) == n;
      }
    }
  }

  lemma NamesOfOne(c: ComponentInfo)
    ensures NamesOf([c]) == {NameOf(c)}
  {
    assert NameOf([c][0]) in NamesOf([c]);
  }

  /** No name appears twice among the kept members, and they carry every
      name of the group. */
  lemma {:induction false} FirstByNameNames(members: seq<ComponentInfo>)
    ensures forall i, j :: 0 <= i < j < |FirstByName(members)| ==> NameOf(FirstByName(members)[i]) != NameOf(FirstByName(members)[j])
    ensures NamesOf(FirstByName(members)) == NamesOf(members)
  {
    if members != [] {
      var front := members[..|members| - 1];
      var last := members[|members| - 1];
      FirstByNameNames(front);
      assert members == front + [last];
      NamesOfAppend(front, [last]);
      NamesOfOne(last);
      var kept := FirstByName(front);
      if NameOf(last) !in NamesOf(front) {
        NamesOfAppend(kept, [last]);
        forall i | 0 <= i < |kept|
          ensures NameOf(kept[i]) != NameOf(last)
        {
          assert NameOf(kept[i]) in NamesOf(kept);
        }
      }
    }
  }

  /** Member `i` is kept exactly when no earlier member has its name. */
  predicate FirstOfItsName(members: seq<ComponentInfo>, i: nat)
    requires i < |members|
  {
    forall j :: 0 <= j < i ==> NameOf(members[j]) != NameOf(members[i])
  }

  /** Being a first occurrence depends only on the members up to it. */
  lemma FirstOfItsNamePrefix(members: seq<ComponentInfo>, k: nat, i: nat)
    requires i < k <= |members|
    ensures FirstOfItsName(members[..k], i) <==> FirstOfItsName(members, i)
  {
    assert forall j :: 0 <= j <= i ==> members[..k][j] == members[j];
  }

  /** The last member is a first occurrence exactly when the members before
      it do not carry its name. */
  lemma LastIsFirst(members: seq<ComponentInfo>)
    requires members != []
    ensures FirstOfItsName(members, |members| - 1) <==> NameOf(members[|members| - 1]) !in NamesOf(members[..|members| - 1])
  {
    var n := |members| - 1;
    var front := members[..n];
    if NameOf(members[n]) in NamesOf(front) {
      var j :| 0 <= j < n && NameOf(front[j]) == NameOf(members[n]);
      assert NameOf(members[j]) == NameOf(members[n]);
    }
    if !FirstOfItsName(members, n) {
      var j :| 0 <= j < n && NameOf(members[j]) == NameOf(members[n]);
      assert NameOf(front[j]) in NamesOf(front);
    }
  }

  lemma {:induction false} FirstsAreKept(members: seq<ComponentInfo>, i: nat)
    requires i < |members| && FirstOfItsName(members, i)
    ensures members[i] in FirstByName(members)
    decreases |members|
  {
    var n := |members| - 1;
    var front := members[..n];
    if i < n {
      FirstOfItsNamePrefix(members, n, i);
      FirstsAreKept(front, i);
      assert front[i] == members[i];
    } else {
      LastIsFirst(members);
    }
  }

  lemma {:induction false} KeptAreFirsts(members: seq<ComponentInfo>, x: ComponentInfo)
    requires x in FirstByName(members)
    ensures exists i :: 0 <= i < |members| && members[i] == x && FirstOfItsName(members, i)
    decreases |members|
  {
    var n := |members| - 1;
    var front := members[..n];
    if x in FirstByName(front) {
      KeptAreFirsts(front, x);
      var i :| 0 <= i < |front| && front[i] == x && FirstOfItsName(front, i);
      FirstOfItsNamePrefix(members, n, i);
      assert members[i] == x;
    } else {
      LastIsFirst(members);
      assert members[n] == x && FirstOfItsName(members, n);
    }
  }

  /** A member reaches the category object exactly when it is the first
      member with its name. */
  lemma FirstByNameKeepsFirsts(members: seq<ComponentInfo>, x: ComponentInfo)
    ensures x in FirstByName(members) <==> exists i :: 0 <= i < |members| && members[i] == x && FirstOfItsName(members, i)
  {
    if x in FirstByName(members) {
      KeptAreFirsts(members, x);
    } else if exists i :: 0 <= i < |members| && members[i] == x && FirstOfItsName(members, i) {
      var i :| 0 <= i < |members| && members[i] == x && FirstOfItsName(members, i);
      FirstsAreKept(members, i);
    }
  }

  // ---------------------------------------------------------------------------
  // generateCategoryExports
  // ---------------------------------------------------------------------------

  /** One `key: value` line of a category object. */
  datatype Entry = Entry(key: string, value: string)

  /** A category object: its identifier, its label and its component entries. */
  datatype CategoryExport = CategoryExport(identifier: string, title: string, entries: seq<Entry>)

  /** The census maps hold the entries that getComponentAlias reads for
      `c`. */
  predicate CoveredBy(c: ComponentInfo, byCategory: map<string, map<string, seq<string>>>) {
    c.category in byCategory && NameOf(c) in byCategory[c.category]
  }

  /** ... and for every component of the list. */
  predicate Covers(components: seq<ComponentInfo>, byCategory: map<string, map<string, seq<string>>>) {
    forall c :: c in components ==> CoveredBy(c, byCategory)
  }

  /** The entry of a member, as a function value: its base name with its
      alias read from the census maps. */
  function EntryReader(
    components: seq<ComponentInfo>,
    global: map<string, nat>, byCategory: map<string, map<string, seq<string>>>): ComponentInfo --> Entry
  {
    c requires CoveredBy(c, byCategory) =>
      Entry(NameOf(c), ComponentAlias(NameOf(c), c.category, c.path, components, global, byCategory))
  }

  lemma CoversEach(members: seq<ComponentInfo>, byCategory: map<string, map<string, seq<string>>>)
    requires Covers(members, byCategory)
    ensures forall i :: 0 <= i < |members| ==> CoveredBy(members[i], byCategory)
  {
    forall i | 0 <= i < |members|
      ensures CoveredBy(members[i], byCategory)
    {
      assert members[i] in members;
    }
  }

  /** The entries of the members, in order. */
  function EntriesOf(
    members: seq<ComponentInfo>, components: seq<ComponentInfo>,
    global: map<string, nat>, byCategory: map<string, map<string, seq<string>>>): (entries: seq<Entry>)
    requires Covers(members, byCategory)
    ensures |entries| == |members|
  {
    CoversEach(members, byCategory);
    Map(members, EntryReader(components, global, byCategory))
  }

  lemma EntriesOfAppend(
    a: seq<ComponentInfo>, c: ComponentInfo, components: seq<ComponentInfo>,
    global: map<string, nat>, byCategory: map<string, map<string, seq<string>>>)
    requires Covers(a, byCategory) && CoveredBy(c, byCategory)
    ensures Covers(a + [c], byCategory)
    ensures EntriesOf(a + [c], components, global, byCategory) == EntriesOf(a, components, global, byCategory) + [EntryReader(components, global, byCategory)(c)]
  {
    CoversEach(a, byCategory);
    MapAppend(a, c, EntryReader(components, global, byCategory));
  }

  /** One more member: it is kept exactly when its name is new. */
  lemma FirstByNameStep(front: seq<ComponentInfo>, c: ComponentInfo)
    ensures FirstByName(front + [c]) == if NameOf(c) in NamesOf(front) then FirstByName(front) else FirstByName(front) + [c]
  {
    assert (front + [c])[..|front|] == front;
  }

  /** One more member of a prefix: it is kept exactly when its name is new,
      and it adds its name. */
  lemma PrefixStep(members: seq<ComponentInfo>, j: nat)
    requires j < |members|
    ensures FirstByName(members[..j + 1]) ==
      if NameOf(members[j]) in NamesOf(members[..j]) then FirstByName(members[..j]) else FirstByName(members[..j]) + [members[j]]
    ensures NamesOf(members[..j + 1]) == NamesOf(members[..j]) + {NameOf(members[j])}
  {
    assert members[..j + 1] == members[..j] + [members[j]];
    FirstByNameStep(members[..j], members[j]);
    NamesOfAppend(members[..j], [members[j]]);
    NamesOfOne(members[j]);
  }

  /** The first members by name are drawn from the members. */
  lemma FirstByNameCovered(members: seq<ComponentInfo>, byCategory: map<string, map<string, seq<string>>>)
    requires Covers(members, byCategory)
    ensures Covers(FirstByName(members), byCategory)
  {
  }

  /** The entries exported once the first `j` members have been visited. */
  function EntriesSoFar(
    members: seq<ComponentInfo>, j: nat, components: seq<ComponentInfo>,
    global: map<string, nat>, byCategory: map<string, map<string, seq<string>>>): seq<Entry>
    requires Covers(members, byCategory) && j <= |members|
  {
    assert Covers(members[..j], byCategory) by {
      assert forall c :: c in members[..j] ==> c in members;
    }
    FirstByNameCovered(members[..j], byCategory);
    EntriesOf(FirstByName(members[..j]), components, global, byCategory)
  }

  /** Visiting member `j`: it adds its name, and its entry when the name is
      new. */
  lemma EntriesSoFarStep(
    members: seq<ComponentInfo>, j: nat, components: seq<ComponentInfo>,
    global: map<string, nat>, byCategory: map<string, map<string, seq<string>>>)
    requires Covers(members, byCategory) && j < |members|
    ensures CoveredBy(members[j], byCategory)
    ensures NamesOf(members[..j + 1]) == NamesOf(members[..j]) + {NameOf(members[j])}
    ensures EntriesSoFar(members, j + 1, components, global, byCategory) ==
      if NameOf(members[j]) in NamesOf(members[..j]) then EntriesSoFar(members, j, components, global, byCategory)
      else EntriesSoFar(members, j, components, global, byCategory) + [EntryReader(components, global, byCategory)(members[j])]
  {
    assert members[j] in members;
    var kept := FirstByName(members[..j]);
    PrefixStep(members, j);
    assert Covers(members[..j], byCategory) by {
      assert forall c :: c in members[..j] ==> c in members;
    }
    FirstByNameCovered(members[..j], byCategory);
    EntriesOfAppend(kept, members[j], components, global, byCategory);
  }

  /** Once every member has been visited, the entries are those of the
      first members by name. */
  lemma EntriesSoFarAll(
    members: seq<ComponentInfo>, components: seq<ComponentInfo>,
    global: map<string, nat>, byCategory: map<string, map<string, seq<string>>>)
    requires Covers(members, byCategory)
    ensures Covers(FirstByName(members), byCategory)
    ensures EntriesSoFar(members, |members|, components, global, byCategory) == EntriesOf(FirstByName(members), components, global, byCategory)
  {
    assert members[..|members|] == members;
    FirstByNameCovered(members, byCategory);
  }

  /** The `components` object of one category: each member's alias under
      its base name, a later member whose base name is already exported
      being left out. */
  method CategoryEntries(
    members: seq<ComponentInfo>, components: seq<ComponentInfo>,
    global: map<string, nat>, byCategory: map<string, map<string, seq<string>>>)
    returns (entries: seq<Entry>)
    requires Covers(members, byCategory)
    ensures Covers(FirstByName(members), byCategory)
    ensures entries == EntriesOf(FirstByName(members), components, global, byCategory)
  {
    var exportedNames: set<string> := {};
    entries := [];
    for j := 0 to |members|
      invariant exportedNames == NamesOf(members[..j])
      invariant entries == EntriesSoFar(members, j, components, global, byCategory)
    {
      var comp := members[j];
      EntriesSoFarStep(members, j, components, global, byCategory);
      var baseName := SanitizeComponentName(comp.name);
      var alias := ComponentAlias(baseName, comp.category, comp.path, components, global, byCategory);
      if baseName !in exportedNames {
        exportedNames := exportedNames + {baseName};
        entries := entries + [Entry(baseName, alias)];
      }
    }
    EntriesSoFarAll(members, components, global, byCategory);
  }

  /** The members of a category, and so its first members by name, are
      covered when the whole list is. */
  lemma MembersCovered(components: seq<ComponentInfo>, category: string, byCategory: map<string, map<string, seq<string>>>)
    requires Covers(components, byCategory)
    ensures Covers(Members(components, category), byCategory)
    ensures Covers(FirstByName(Members(components, category)), byCategory)
  {
    forall c | c in Members(components, category)
      ensures CoveredBy(c, byCategory)
    {
      MembersExact(components, category, c);
    }
  }

  /** The object generated for one category from the census maps: named by
      the sanitised category, with its label and the entries of its first
      members by name. */
  function CategoryExportOf(
    components: seq<ComponentInfo>, category: string,
    global: map<string, nat>, byCategory: map<string, map<string, seq<string>>>): (e: CategoryExport)
    requires Covers(components, byCategory)
    ensures e.identifier == SanitizeCategoryName(category) && e.title == Label(category)
    ensures |e.entries| == |FirstByName(Members(components, category))|
  {
    MembersCovered(components, category, byCategory);
    CategoryExport(SanitizeCategoryName(category), Label(category),
      EntriesOf(FirstByName(Members(components, category)), components, global, byCategory))
  }

  /** `CategoryExportOf` as a function value, to be mapped over the
      categories. */
  function CategoryExporter(
    components: seq<ComponentInfo>,
    global: map<string, nat>, byCategory: map<string, map<string, seq<string>>>): string -> CategoryExport
    requires Covers(components, byCategory)
  {
    category => CategoryExportOf(components, category, global, byCategory)
  }

  /** One step of `generateCategoryExports`: the object built for the next
      category extends the exports of the categories before it. */
  lemma CategoryExportsStep(
    components: seq<ComponentInfo>, keys: seq<string>, i: nat,
    global: map<string, nat>, byCategory: map<string, map<string, seq<string>>>,
    entries: seq<Entry>)
    requires Covers(components, byCategory) && i < |keys|
    requires Covers(FirstByName(Members(components, keys[i])), byCategory)
    requires entries == EntriesOf(FirstByName(Members(components, keys[i])), components, global, byCategory)
    ensures Map(keys[..i + 1], CategoryExporter(components, global, byCategory))
      == Map(keys[..i], CategoryExporter(components, global, byCategory))
         + [CategoryExport(SanitizeCategoryName(keys[i]), Label(keys[i]), entries)]
  {
    MapSnoc(keys, i, CategoryExporter(components, global, byCategory));
  }

  /** The category objects read from the census maps: one per category,
      in the order in which the categories first appear. */
  function CategoryExportsOf(
    components: seq<ComponentInfo>,
    global: map<string, nat>, byCategory: map<string, map<string, seq<string>>>): (exports: seq<CategoryExport>)
    requires Covers(components, byCategory)
    ensures |exports| == |Categories(components)|
    ensures forall i :: 0 <= i < |exports| ==> exports[i] == CategoryExportOf(components, Categories(components)[i], global, byCategory)
  {
    Map(Categories(components), CategoryExporter(components, global, byCategory))
  }

  /** `generateCategoryExports` */
  method GenerateCategoryExports(
    components: seq<ComponentInfo>,
    global: map<string, nat>, byCategory: map<string, map<string, seq<string>>>)
    returns (exports: seq<CategoryExport>)
    requires Covers(components, byCategory)
    ensures exports == CategoryExportsOf(components, global, byCategory)
  {
    var keys, groups := GroupByCategory(components);
    exports := [];
    for i := 0 to |keys|
      invariant exports == Map(keys[..i], CategoryExporter(components, global, byCategory))
    {
      var category := keys[i];
      CategoriesCover(components, category);
      var comps := groups[category];
      var pascalCase := SanitizeCategoryName(category);
      var title := Label(category);
      MembersCovered(components, category, byCategory);
      var entries := CategoryEntries(comps, components, global, byCategory);
      CategoryExportsStep(components, keys, i, global, byCategory, entries);
      exports := exports + [CategoryExport(pascalCase, title, entries)];
    }
    assert keys[..|keys|] == keys;
  }

  // ---------------------------------------------------------------------------
  // generateDefaultExport
  // ---------------------------------------------------------------------------

  /** The default export: one entry per
      category, in order of first appearance, each naming the category
      object under its own identifier. */
  function DefaultExport(components: seq<ComponentInfo>): (entries: seq<Entry>)
    ensures |entries| == |Categories(components)|
    ensures forall i :: 0 <= i < |entries| ==> entries[i].key == entries[i].value
    ensures forall i :: 0 <= i < |entries| ==> entries[i].key == SanitizeCategoryName(Categories(components)[i])
  {
    var keys := Categories(components);
    seq(|keys|, i requires 0 <= i < |keys| => Entry(SanitizeCategoryName(keys[i]), SanitizeCategoryName(keys[i])))
  }

  /** The default export has as many entries as there are distinct
      categories. */
  lemma DefaultExportSize(components: seq<ComponentInfo>)
    ensures |DefaultExport(components)| == |set c | c in components :: c.category|
  {
    CategoriesCount(components);
  }

  // ---------------------------------------------------------------------------
  // generateIndexContent
  // ---------------------------------------------------------------------------

  /** One import line. */
  datatype Import =
    | Plain(name: string, from: string)                  // import { Name } from './path';
    | Renamed(name: string, alias: string, from: string) // import { Name as Alias } from './path';

  datatype Index = Index(
    imports: seq<Import>,          // one per component, in input order
    exports: seq<string>,          // export { Alias }; one per component
    categories: seq<CategoryExport>,
    defaults: seq<Entry>)

  /** The name an import brings into scope. */
  function Bound(imp: Import): string {
    match imp
    case Plain(name, _) => name
    case Renamed(_, alias, _) => alias
  }

  /** The import of `c`, given its alias: it brings the alias into scope,
      renaming exactly when the alias differs from the base name. */
  function ImportOf(c: ComponentInfo, alias: string): (imp: Import)
    ensures imp.name == NameOf(c) && Bound(imp) == alias && imp.from == ModulePath(c.path)
    ensures imp.Renamed? <==> alias != NameOf(c)
  {
    var name := SanitizeComponentName(c.name);
    if alias != name then Renamed(name, alias, ModulePath(c.path)) else Plain(name, ModulePath(c.path))
  }

  /** The entry of a member, with its alias taken from the component list,
      as a function value. */
  function AliasEntry(components: seq<ComponentInfo>): ComponentInfo -> Entry {
    c => Entry(NameOf(c), AliasOf(components, c))
  }

  /** The entries of members, with each alias taken from the component
      list. */
  function AliasEntries(members: seq<ComponentInfo>, components: seq<ComponentInfo>): (entries: seq<Entry>)
    ensures |entries| == |members|
    ensures forall i :: 0 <= i < |entries| ==> entries[i].key == NameOf(members[i]) && entries[i].key <= entries[i].value
  {
    Map(members, AliasEntry(components))
  }

  /** The object of a category, defined from the component list alone. */
  function CategorySpec(components: seq<ComponentInfo>, category: string): CategoryExport {
    CategoryExport(SanitizeCategoryName(category), Label(category),
      AliasEntries(FirstByName(Members(components, category)), components))
  }

  /** The keys of the entries of some members are the names of the
      members. */
  lemma AliasEntriesKeys(members: seq<ComponentInfo>, components: seq<ComponentInfo>)
    ensures var entries := AliasEntries(members, components);
      (set i | 0 <= i < |entries| :: entries[i].key) == NamesOf(members)
  {
    var entries := AliasEntries(members, components);
    forall n | n in NamesOf(members)
      ensures n in (set i | 0 <= i < |entries| :: entries[i].key)
    {
      var i :| 0 <= i < |members| && NameOf(members[i]) == n;
      assert entries[i].key == n;
    }
  }

  /** Each base name of a category is a key of its object exactly once, and
      each value is an alias that starts with its key. */
  lemma CategoryKeys(components: seq<ComponentInfo>, category: string)
    ensures var entries := CategorySpec(components, category).entries;
      && (forall i, j :: 0 <= i < j < |entries| ==> entries[i].key != entries[j].key)
      && (set i | 0 <= i < |entries| :: entries[i].key) == NamesOf(Members(components, category))
      && (forall i :: 0 <= i < |entries| ==> entries[i].key <= entries[i].value)
  {
    var kept := FirstByName(Members(components, category));
    FirstByNameNames(Members(components, category));
    AliasEntriesKeys(kept, components);
  }

  /** The census covers every component, and with it each category object
      read from the maps is the object defined by the list. */
  lemma CensusExport(
    components: seq<ComponentInfo>, global: map<string, nat>, byCategory: map<string, map<string, seq<string>>>,
    category: string)
    requires IsCensus(components, global, byCategory)
    ensures Covers(components, byCategory)
    ensures CategoryExportOf(components, category, global, byCategory) == CategorySpec(components, category)
  {
    forall c | c in components
      ensures CoveredBy(c, byCategory)
    {
      AliasMatchesCensus(components, global, byCategory, c);
    }
    var kept := FirstByName(Members(components, category));
    forall c | c in kept
      ensures c in components
    {
      MembersExact(components, category, c);
    }
    CensusEntries(components, global, byCategory, kept);
  }

  /** With the census maps, the entry of a component read from the maps is
      its entry defined by the list. */
  lemma EntryMatchesCensus(
    components: seq<ComponentInfo>, global: map<string, nat>, byCategory: map<string, map<string, seq<string>>>,
    c: ComponentInfo)
    requires IsCensus(components, global, byCategory) && c in components
    ensures CoveredBy(c, byCategory)
    ensures EntryReader(components, global, byCategory)(c) == AliasEntry(components)(c)
  {
    AliasMatchesCensus(components, global, byCategory, c);
  }

  /** With the census maps, the entries read from the maps are the entries
      defined by the list, for any members drawn from the list. */
  lemma CensusEntries(
    components: seq<ComponentInfo>, global: map<string, nat>, byCategory: map<string, map<string, seq<string>>>,
    kept: seq<ComponentInfo>)
    requires IsCensus(components, global, byCategory)
    requires forall c :: c in kept ==> c in components
    ensures Covers(kept, byCategory)
    ensures EntriesOf(kept, components, global, byCategory) == AliasEntries(kept, components)
  {
    forall i | 0 <= i < |kept|
      ensures CoveredBy(kept[i], byCategory)
      ensures EntryReader(components, global, byCategory)(kept[i]) == AliasEntry(components)(kept[i])
    {
      assert kept[i] in kept;
      EntryMatchesCensus(components, global, byCategory, kept[i]);
    }
    MapCongruent(kept, EntryReader(components, global, byCategory), AliasEntry(components));
  }

  // The whole file, defined from the component list alone.

  /** The alias of each component, as a function value. */
  function AliasFn(components: seq<ComponentInfo>): ComponentInfo -> string {
    c => AliasOf(components, c)
  }

  /** The import of each component under its alias, as a function value. */
  function ImportFn(components: seq<ComponentInfo>): ComponentInfo -> Import {
    c => ImportOf(c, AliasOf(components, c))
  }

  /** The object of each category, as a function value. */
  function CategoryFn(components: seq<ComponentInfo>): string -> CategoryExport {
    category => CategorySpec(components, category)
  }

  /** One import per component, in input order. */
  function ImportList(components: seq<ComponentInfo>): (imports: seq<Import>)
    ensures |imports| == |components|
    ensures forall i :: 0 <= i < |components| ==> imports[i] == ImportOf(components[i], AliasOf(components, components[i]))
  {
    Map(components, ImportFn(components))
  }

  /** One `export { Alias }` per component, in input order. */
  function AliasList(components: seq<ComponentInfo>): (aliases: seq<string>)
    ensures |aliases| == |components|
    ensures forall i :: 0 <= i < |components| ==> aliases[i] == AliasOf(components, components[i])
  {
    Map(components, AliasFn(components))
  }

  /** One object per category, in order of first appearance. */
  function CategoryList(components: seq<ComponentInfo>): (exports: seq<CategoryExport>)
    ensures |exports| == |Categories(components)|
    ensures forall i :: 0 <= i < |exports| ==> exports[i] == CategorySpec(components, Categories(components)[i])
  {
    Map(Categories(components), CategoryFn(components))
  }

  /** The generated index file. */
  function IndexOf(components: seq<ComponentInfo>): Index {
    Index(ImportList(components), AliasList(components), CategoryList(components), DefaultExport(components))
  }

  /** Entry `i` of the default export names the object that the index
      defines for category `i`, under that object's own identifier. */
  lemma DefaultExportNamesCategoryObjects(components: seq<ComponentInfo>)
    ensures |DefaultExport(components)| == |CategoryList(components)|
    ensures forall i :: 0 <= i < |DefaultExport(components)| ==>
      DefaultExport(components)[i].key == CategoryList(components)[i].identifier &&
      DefaultExport(components)[i].value == CategoryList(components)[i].identifier
  {
  }

  // Reading the aliases from the census maps.

  /** The alias of a component read from the census maps, as a function
      value. */
  function AliasReader(
    components: seq<ComponentInfo>,
    global: map<string, nat>, byCategory: map<string, map<string, seq<string>>>): ComponentInfo --> string
  {
    c requires CoveredBy(c, byCategory) =>
      ComponentAlias(NameOf(c), c.category, c.path, components, global, byCategory)
  }

  /** The import line of a component with its alias read from the census
      maps, as a function value. */
  function ImportReader(
    components: seq<ComponentInfo>,
    global: map<string, nat>, byCategory: map<string, map<string, seq<string>>>): ComponentInfo --> Import
  {
    c requires CoveredBy(c, byCategory) =>
      ImportOf(c, ComponentAlias(NameOf(c), c.category, c.path, components, global, byCategory))
  }

  /** With the census maps, every component is covered. */
  lemma CensusCovers(components: seq<ComponentInfo>, global: map<string, nat>, byCategory: map<string, map<string, seq<string>>>)
    requires IsCensus(components, global, byCategory)
    ensures Covers(components, byCategory)
    ensures forall i :: 0 <= i < |components| ==> CoveredBy(components[i], byCategory)
  {
    forall c | c in components
      ensures CoveredBy(c, byCategory)
    {
      AliasMatchesCensus(components, global, byCategory, c);
    }
  }

  /** With the census maps, the aliases read from the maps are the aliases
      defined by the list. */
  lemma CensusAliasList(components: seq<ComponentInfo>, global: map<string, nat>, byCategory: map<string, map<string, seq<string>>>)
    requires IsCensus(components, global, byCategory)
    ensures Covers(components, byCategory)
    ensures forall i :: 0 <= i < |components| ==> AliasReader(components, global, byCategory).requires(components[i])
    ensures Map(components, AliasReader(components, global, byCategory)) == AliasList(components)
  {
    forall i | 0 <= i < |components|
      ensures CoveredBy(components[i], byCategory)
      ensures AliasReader(components, global, byCategory)(components[i]) == AliasFn(components)(components[i])
    {
      AliasMatchesCensus(components, global, byCategory, components[i]);
    }
    CensusCovers(components, global, byCategory);
    MapCongruent(components, AliasReader(components, global, byCategory), AliasFn(components));
  }

  /** With the census maps, the import lines built from the maps are the
      import lines defined by the list. */
  lemma CensusImportList(components: seq<ComponentInfo>, global: map<string, nat>, byCategory: map<string, map<string, seq<string>>>)
    requires IsCensus(components, global, byCategory)
    ensures Covers(components, byCategory)
    ensures forall i :: 0 <= i < |components| ==> ImportReader(components, global, byCategory).requires(components[i])
    ensures Map(components, ImportReader(components, global, byCategory)) == ImportList(components)
  {
    forall i | 0 <= i < |components|
      ensures CoveredBy(components[i], byCategory)
      ensures ImportReader(components, global, byCategory)(components[i]) == ImportFn(components)(components[i])
    {
      AliasMatchesCensus(components, global, byCategory, components[i]);
    }
    CensusCovers(components, global, byCategory);
    MapCongruent(components, ImportReader(components, global, byCategory), ImportFn(components));
  }

  /** With the census maps, the category objects read from the maps are
      the objects defined by the list. */
  lemma CensusCategoryList(components: seq<ComponentInfo>, global: map<string, nat>, byCategory: map<string, map<string, seq<string>>>)
    requires IsCensus(components, global, byCategory)
    ensures Covers(components, byCategory)
    ensures CategoryExportsOf(components, global, byCategory) == CategoryList(components)
  {
    CensusCovers(components, global, byCategory);
    var keys := Categories(components);
    forall i | 0 <= i < |keys|
      ensures CategoryExporter(components, global, byCategory)(keys[i]) == CategoryFn(components)(keys[i])
    {
      CensusExport(components, global, byCategory, keys[i]);
    }
    MapCongruent(keys, CategoryExporter(components, global, byCategory), CategoryFn(components));
  }

  /** `generateIndexContent`: the census is built once; every component is
      imported under its alias, then exported, in input order; then come
      the category objects and the default export. */
  method GenerateIndexContent(components: seq<ComponentInfo>) returns (index: Index)
    ensures index == IndexOf(components)
  {
    var global, byCategory := BuildDuplicatesMap(components);
    CensusImportList(components, global, byCategory);
    CensusAliasList(components, global, byCategory);
    CensusCategoryList(components, global, byCategory);
    var imports := Map(components, ImportReader(components, global, byCategory));
    var aliases := Map(components, AliasReader(components, global, byCategory));
    var categoryExports := GenerateCategoryExports(components, global, byCategory);
    index := Index(imports, aliases, categoryExports, DefaultExport(components));
  }
}
