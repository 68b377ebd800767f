/**
  `getComponentAlias` of src/lib/index-generator.ts: the name under which a
  component is imported and exported. Five rules are tried in order and the
  first that applies decides the suffix appended to the sanitised name.

  `ComponentAlias` reads the two census maps as the source does;
  `AliasOf` states the same ladder over the component list alone, through
  the census functions, and `AliasMatchesCensus` shows that the two agree
  whenever the maps are the census of the list.
 */
module Aliases {
  import opened Ascii
  import opened Seqs
  import opened ComponentUtils
  import opened Census

  /** The rule of the ladder that decided an alias. */
  datatype Rule =
    | SameNameAndId      // rule 1: name + category label
    | NameIsCategory     // rule 2: name + numeric id
    | SameCategory       // rule 3: name + category label + numeric id
    | SameName           // rule 4: name + category label
    | Isolated           // rule 5: the bare name

  /** First match wins: `exactNumber` components share the name-and-id
      string, `exact` components have a category labelled like the name,
      `inCategory` components of the same category share the name, `global`
      components share it overall. */
  function Decide(exactNumber: nat, exact: nat, inCategory: nat, global: nat): (r: Rule)
    ensures r == Isolated <==> exactNumber <= 1 && exact <= 1 && inCategory <= 1 && global <= 1
  {
    if exactNumber > 1 then SameNameAndId
    else if exact > 1 then NameIsCategory
    else if inCategory > 1 then SameCategory
    else if global > 1 then SameName
    else Isolated
  }

  /** The alias a rule spells from the name, the category label and the
      numeric id. */
  function Spell(rule: Rule, name: string, categoryName: string, id: string): (alias: string)
    ensures name <= alias
  {
    match rule
    case SameNameAndId => name + categoryName
    case NameIsCategory => name + id
    case SameCategory => name + categoryName + id
    case SameName => name + categoryName
    case Isolated => name
  }

  /** The component's category identifier is spelled like `name`. */
  function LabelledAs(name: string): ComponentInfo -> bool {
    (c: ComponentInfo) => name == SanitizeCategoryName(c.category)
  }

  /** The component's identifier followed by its numeric id spells `key`. */
  function SameKey(key: string): ComponentInfo -> bool {
    (c: ComponentInfo) => SanitizeComponentName(c.name) + NumericId(c.path) == key
  }

  /** `getComponentAlias(name, category, path, components, globalDuplicates,
      categoryDuplicates)`. The `!` on the category's map and on the name's
      array are the source's demand that both exist; a name missing from
      the global map counts as no duplicate. */
  function ComponentAlias(
    name: string, category: string, path: string, components: seq<ComponentInfo>,
    global: map<string, nat>, byCategory: map<string, map<string, seq<string>>>): (alias: string)
    requires category in byCategory && name in byCategory[category]
    ensures name <= alias
  {
    var numericId := NumericId(path);
    var exactDuplicates := Count(components, LabelledAs(name));
    var exactNumberDuplicates := Count(components, SameKey(name + numericId));
    var inCategory := |byCategory[category][name]|;
    var globalCount := if name in global then global[name] else 0;
    Spell(Decide(exactNumberDuplicates, exactDuplicates, inCategory, globalCount), name, SanitizeCategoryName(category), numericId)
  }

  /** The rule that decides the alias of `c` among `components`, with every
      count taken from the list itself. */
  function RuleOf(components: seq<ComponentInfo>, c: ComponentInfo): Rule {
    var name, id := SanitizeComponentName(c.name), NumericId(c.path);
    Decide(
      Count(components, SameKey(name + id)),
      Count(components, LabelledAs(name)),
      |CategoryIds(components, c.category, name)|,
      GlobalCount(components, name))
  }

  /** The alias of `c` among `components`. */
  function AliasOf(components: seq<ComponentInfo>, c: ComponentInfo): string {
    Spell(RuleOf(components, c), SanitizeComponentName(c.name), SanitizeCategoryName(c.category), NumericId(c.path))
  }

  /** For a component of the list, the census maps hold the entries that
      the `!` assertions demand, and the alias read from the maps is the
      alias defined by the list. */
  lemma AliasMatchesCensus(
    components: seq<ComponentInfo>, global: map<string, nat>, byCategory: map<string, map<string, seq<string>>>,
    c: ComponentInfo)
    requires IsCensus(components, global, byCategory)
    requires c in components
    ensures c.category in byCategory && SanitizeComponentName(c.name) in byCategory[c.category]
    ensures ComponentAlias(SanitizeComponentName(c.name), c.category, c.path, components, global, byCategory) == AliasOf(components, c)
  {
    var name := SanitizeComponentName(c.name);
    var i :| 0 <= i < |components| && components[i] == c;
    CategoriesCover(components, c.category);
    FilterKeeps(components, HasCategoryAndName(c.category, name), i);
    FilterKeeps(components, HasName(name), i);
    var ids := CategoryIds(components, c.category, name);
    var count := GlobalCount(components, name);
  }

  /** Every count behind an alias depends on the multiset of components
      only: reordering the list leaves every alias unchanged. */
  lemma AliasPermutation(a: seq<ComponentInfo>, b: seq<ComponentInfo>, c: ComponentInfo)
    requires multiset(a) == multiset(b)
    ensures AliasOf(a, c) == AliasOf(b, c)
  {
    var name, id := SanitizeComponentName(c.name), NumericId(c.path);
    CountPermutation(a, b, SameKey(name + id));
    CountPermutation(a, b, LabelledAs(name));
    CountPermutation(a, b, HasCategoryAndName(c.category, name));
    CountPermutation(a, b, HasName(name));
  }

  /** Neither the category count nor, when every path has a numeric id,
      the name-and-id count can exceed the global count of the name. */
  lemma CountsBoundedByGlobal(components: seq<ComponentInfo>, c: ComponentInfo)
    requires forall i :: 0 <= i < |components| ==> |NumericId(components[i].path)| == 5
    requires |NumericId(c.path)| == 5
    ensures Count(components, SameKey(SanitizeComponentName(c.name) + NumericId(c.path))) <= GlobalCount(components, SanitizeComponentName(c.name))
    ensures |CategoryIds(components, c.category, SanitizeComponentName(c.name))| <= GlobalCount(components, SanitizeComponentName(c.name))
  {
    var name, id := SanitizeComponentName(c.name), NumericId(c.path);
    forall i | 0 <= i < |components|
      ensures SameKey(name + id)(components[i]) ==> HasName(name)(components[i])
    {
      var other := SanitizeComponentName(components[i].name);
      var otherId := NumericId(components[i].path);
      if other + otherId == name + id {
        assert other == (other + otherId)[..|other|] == (name + id)[..|name|] == name;
      }
    }
    CountMonotone(components, SameKey(name + id), HasName(name));
    CountMonotone(components, HasCategoryAndName(c.category, name), HasName(name));
  }

  /** A component whose sanitised name no other component carries, that no
      two categories are labelled like, keeps its bare name, provided every
      path carries a numeric id (as the generated icon files do). */
  lemma IsolatedGetsBareName(components: seq<ComponentInfo>, c: ComponentInfo)
    requires forall i :: 0 <= i < |components| ==> |NumericId(components[i].path)| == 5
    requires |NumericId(c.path)| == 5
    requires GlobalCount(components, SanitizeComponentName(c.name)) <= 1
    requires Count(components, LabelledAs(SanitizeComponentName(c.name))) <= 1
    ensures RuleOf(components, c) == Isolated
    ensures AliasOf(components, c) == SanitizeComponentName(c.name)
  {
    CountsBoundedByGlobal(components, c);
  }

  /** Two components of one category with the same name and the same
      numeric id are both decided by rule 1, so they get the same alias. */
  lemma SameIdTwinsShareAlias(components: seq<ComponentInfo>, i: nat, j: nat)
    requires i < |components| && j < |components| && i != j
    requires components[i].category == components[j].category
    requires SanitizeComponentName(components[i].name) == SanitizeComponentName(components[j].name)
    requires NumericId(components[i].path) == NumericId(components[j].path)
    ensures RuleOf(components, components[i]) == RuleOf(components, components[j]) == SameNameAndId
    ensures AliasOf(components, components[i]) == AliasOf(components, components[j])
  {
    var key := SanitizeComponentName(components[i].name) + NumericId(components[i].path);
    CountAtLeastTwo(components, SameKey(key), i, j);
  }

  /** Rule 3 is reached only when the component's same-category namesakes
      all have other numeric ids: an equal id would have fired rule 1. */
  lemma SameCategoryNeedsOtherIds(components: seq<ComponentInfo>, i: nat, j: nat)
    requires i < |components| && j < |components| && i != j
    requires components[i].category == components[j].category
    requires SanitizeComponentName(components[i].name) == SanitizeComponentName(components[j].name)
    requires RuleOf(components, components[i]) == SameCategory
    ensures NumericId(components[i].path) != NumericId(components[j].path)
  {
    if NumericId(components[i].path) == NumericId(components[j].path) {
      SameIdTwinsShareAlias(components, i, j);
    }
  }

  /** Aliases are not unique even for components with different numeric
      ids: `a` and `b` share a category and a name, and each has a namesake
      elsewhere with its own id, so rule 1 gives both name + label. */
  lemma DifferentIdsShareAlias(a: ComponentInfo, b: ComponentInfo, c: ComponentInfo, d: ComponentInfo)
    requires SanitizeComponentName(a.name) == SanitizeComponentName(b.name) == SanitizeComponentName(c.name) == SanitizeComponentName(d.name)
    requires NumericId(a.path) == NumericId(c.path) && NumericId(b.path) == NumericId(d.path)
    requires NumericId(a.path) != NumericId(b.path)
    requires a.category == b.category
    ensures a != b
    ensures AliasOf([a, b, c, d], a) == AliasOf([a, b, c, d], b)
  {
    var components := [a, b, c, d];
    var name := SanitizeComponentName(a.name);
    CountAtLeastTwo(components, SameKey(name + NumericId(a.path)), 0, 2);
    CountAtLeastTwo(components, SameKey(name + NumericId(b.path)), 1, 3);
  }

  /** Rule 1 compares the concatenated string, not the pair: a name that
      ends in five digits on a path without an id collides with the shorter
      name on a path whose id is those digits. */
  lemma NameAndIdConcatenate(a: ComponentInfo, b: ComponentInfo)
    requires NumericId(a.path) == []
    requires SanitizeComponentName(a.name) == SanitizeComponentName(b.name) + NumericId(b.path)
    ensures RuleOf([a, b], a) == RuleOf([a, b], b) == SameNameAndId
  {
    var key := SanitizeComponentName(a.name);
    assert key + NumericId(a.path) == key;
    CountAtLeastTwo([a, b], SameKey(key), 0, 1);
  }

  // ---------------------------------------------------------------------------
  // The ladder on two-component lists
  // ---------------------------------------------------------------------------

  /** Which of two components satisfy a test. */
  lemma CountOfTwo(a: ComponentInfo, b: ComponentInfo, p: ComponentInfo -> bool)
    ensures Count([a, b], p) == (if p(a) then 1 else 0) + (if p(b) then 1 else 0)
  {
    assert [a, b] == [a] + [b];
    FilterAppend([a], [b], p);
  }

  /** Rule 1 across categories: two components with one name and one
      numeric id are told apart by their category labels. */
  lemma SameNameAndIdAcrossCategories(a: ComponentInfo, b: ComponentInfo)
    requires SanitizeComponentName(a.name) == SanitizeComponentName(b.name)
    requires NumericId(a.path) == NumericId(b.path)
    ensures RuleOf([a, b], a) == RuleOf([a, b], b) == SameNameAndId
    ensures AliasOf([a, b], a) == SanitizeComponentName(a.name) + SanitizeCategoryName(a.category)
    ensures AliasOf([a, b], b) == SanitizeComponentName(b.name) + SanitizeCategoryName(b.category)
  {
    CountOfTwo(a, b, SameKey(SanitizeComponentName(a.name) + NumericId(a.path)));
  }

  /** Rule 3: two components of one category with one name but different
      numeric ids, in a category not labelled like the name, each get the
      category label and their own id. */
  lemma SameCategoryDifferentIds(a: ComponentInfo, b: ComponentInfo)
    requires a.category == b.category
    requires SanitizeComponentName(a.name) == SanitizeComponentName(b.name)
    requires NumericId(a.path) != NumericId(b.path)
    requires SanitizeCategoryName(a.category) != SanitizeComponentName(a.name)
    ensures RuleOf([a, b], a) == RuleOf([a, b], b) == SameCategory
    ensures AliasOf([a, b], a) == SanitizeComponentName(a.name) + SanitizeCategoryName(a.category) + NumericId(a.path)
    ensures AliasOf([a, b], b) == SanitizeComponentName(b.name) + SanitizeCategoryName(b.category) + NumericId(b.path)
  {
    var name := SanitizeComponentName(a.name);
    var ka, kb := name + NumericId(a.path), name + NumericId(b.path);
    assert ka[|name|..] == NumericId(a.path) && kb[|name|..] == NumericId(b.path);
    CountOfTwo(a, b, SameKey(ka));
    CountOfTwo(a, b, SameKey(kb));
    CountOfTwo(a, b, LabelledAs(name));
    CountOfTwo(a, b, HasCategoryAndName(a.category, name));
  }

  /** Rule 5: a component alone in the list keeps its bare name, whatever
      its category and path. */
  lemma AloneKeepsBareName(c: ComponentInfo)
    ensures RuleOf([c], c) == Isolated
    ensures AliasOf([c], c) == SanitizeComponentName(c.name)
  {
    var name := SanitizeComponentName(c.name);
    assert Count([c], SameKey(name + NumericId(c.path))) <= 1;
    assert Count([c], LabelledAs(name)) <= 1;
    assert |CategoryIds([c], c.category, name)| <= 1;
    assert GlobalCount([c], name) <= 1;
  }

  /** Rule 2 counts components, not categories: a component whose own
      category is labelled like its name is not enough, a second component
      in such a category is needed, and then the numeric id is appended. */
  lemma NameIsCategoryNeedsTwo(a: ComponentInfo, b: ComponentInfo)
    requires SanitizeCategoryName(a.category) == SanitizeComponentName(a.name)
    requires SanitizeCategoryName(b.category) == SanitizeComponentName(a.name)
    requires SanitizeComponentName(b.name) + NumericId(b.path) != SanitizeComponentName(a.name) + NumericId(a.path)
    ensures AliasOf([a], a) == SanitizeComponentName(a.name)
    ensures RuleOf([a, b], a) == NameIsCategory
    ensures AliasOf([a, b], a) == SanitizeComponentName(a.name) + NumericId(a.path)
  {
    AloneKeepsBareName(a);
    var name := SanitizeComponentName(a.name);
    CountOfTwo(a, b, SameKey(name + NumericId(a.path)));
    CountOfTwo(a, b, LabelledAs(name));
  }

  // ---------------------------------------------------------------------------
  // Worked examples of the ladder
  // ---------------------------------------------------------------------------

  lemma StorageIdentifier()
    ensures SanitizeComponentName("Storage") == "Storage"
  {
    SanitizeComponentNameKeepsAlnum("Storage");
  }

  lemma DiskIdentifier()
    ensures SanitizeComponentName("Disk") == "Disk"
  {
    SanitizeComponentNameKeepsAlnum("Disk");
  }

  lemma StorageLabel()
    ensures SanitizeCategoryName("Storage") == "Storage"
  {
    SanitizeCategoryNameKeepsCapitalWord("Storage");
  }

  /** An alphanumeric name followed by the label of a capitalised
      one-word category and an id. */
  lemma SpelledAlias(name: string, category: string, id: string, alias: string)
    requires AllAlnum(name) && LowerTail(category) && IsUpper(category[0])
    requires name + category + id == alias
    ensures SanitizeComponentName(name) + SanitizeCategoryName(category) + id == alias
  {
    SanitizeComponentNameKeepsAlnum(name);
    SanitizeCategoryNameKeepsCapitalWord(category);
  }

  lemma StorageComputeSpelling()
    ensures SanitizeComponentName("Storage") + SanitizeCategoryName("Compute") + "" == "StorageCompute"
  {
    SpelledAlias("Storage", "Compute", "", "StorageCompute");
  }

  lemma StorageStorageSpelling()
    ensures SanitizeComponentName("Storage") + SanitizeCategoryName("Storage") + "" == "StorageStorage"
  {
    SpelledAlias("Storage", "Storage", "", "StorageStorage");
  }

  lemma DiskStorage10001Spelling()
    ensures SanitizeComponentName("Disk") + SanitizeCategoryName("Storage") + "10001" == "DiskStorage10001"
  {
    SpelledAlias("Disk", "Storage", "10001", "DiskStorage10001");
  }

  lemma DiskStorage10002Spelling()
    ensures SanitizeComponentName("Disk") + SanitizeCategoryName("Storage") + "10002" == "DiskStorage10002"
  {
    SpelledAlias("Disk", "Storage", "10002", "DiskStorage10002");
  }

  lemma Storage10001Spelling()
    ensures SanitizeComponentName("Storage") + "10001" == "Storage10001"
  {
    StorageIdentifier();
  }

  /** The category `Storage` is not labelled like the name `Disk`. */
  lemma DiskIsNotStorage()
    ensures SanitizeCategoryName("Storage") != SanitizeComponentName("Disk")
  {
    DiskIdentifier();
    StorageLabel();
  }

  /** `Disk` with id 10002 and `Storage` with id 10001 have different keys. */
  lemma DiskKeyIsNotStorageKey()
    ensures SanitizeComponentName("Disk") + "10002" != SanitizeComponentName("Storage") + "10001"
  {
    DiskIdentifier();
    StorageIdentifier();
    assert |"Disk" + "10002"| != |"Storage" + "10001"|;
  }

  /** Two `Storage` icons with id 10001, one under `Compute` and one under
      `Storage`, become `StorageCompute` and `StorageStorage` (rule 1). */
  lemma StorageInTwoCategories(computePath: string, storagePath: string)
    requires NumericId(computePath) == NumericId(storagePath) == "10001"
    ensures
      var a := ComponentInfo("Storage", computePath, "Compute");
      var b := ComponentInfo("Storage", storagePath, "Storage");
      AliasOf([a, b], a) == "StorageCompute" && AliasOf([a, b], b) == "StorageStorage"
  {
    SameNameAndIdAcrossCategories(ComponentInfo("Storage", computePath, "Compute"), ComponentInfo("Storage", storagePath, "Storage"));
    StorageComputeSpelling();
    StorageStorageSpelling();
  }

  /** Two `Disk` icons of category `Storage` with ids 10001 and 10002 become
      `DiskStorage10001` and `DiskStorage10002` (rule 3). */
  lemma DisksOfOneCategory(firstPath: string, secondPath: string)
    requires NumericId(firstPath) == "10001" && NumericId(secondPath) == "10002"
    ensures
      var a := ComponentInfo("Disk", firstPath, "Storage");
      var b := ComponentInfo("Disk", secondPath, "Storage");
      AliasOf([a, b], a) == "DiskStorage10001" && AliasOf([a, b], b) == "DiskStorage10002"
  {
    DiskIsNotStorage();
    SameCategoryDifferentIds(ComponentInfo("Disk", firstPath, "Storage"), ComponentInfo("Disk", secondPath, "Storage"));
    DiskStorage10001Spelling();
    DiskStorage10002Spelling();
  }

  /** A lone `VirtualMachine` icon keeps its bare name (rule 5), whatever its
      path and category. */
  lemma LoneVirtualMachine(path: string, category: string)
    ensures
      var c := ComponentInfo("VirtualMachine", path, category);
      AliasOf([c], c) == "VirtualMachine"
  {
    SanitizeComponentNameKeepsAlnum("VirtualMachine");
    AloneKeepsBareName(ComponentInfo("VirtualMachine", path, category));
  }

  /** A `Storage` icon of category `Storage` keeps its bare name alone, but
      takes its numeric id once a `Disk` icon joins the same category. */
  lemma StorageBesideDisk(storagePath: string, diskPath: string)
    requires NumericId(storagePath) == "10001" && NumericId(diskPath) == "10002"
    ensures
      var a := ComponentInfo("Storage", storagePath, "Storage");
      var b := ComponentInfo("Disk", diskPath, "Storage");
      AliasOf([a], a) == "Storage" && AliasOf([a, b], a) == "Storage10001"
  {
    StorageIdentifier();
    StorageLabel();
    DiskKeyIsNotStorageKey();
    NameIsCategoryNeedsTwo(ComponentInfo("Storage", storagePath, "Storage"), ComponentInfo("Disk", diskPath, "Storage"));
    Storage10001Spelling();
  }
}
