# azure-react-icons: the naming layer, in Dafny

azure-react-icons turns the Azure icon set into React components and writes an
index module that imports every component, exports it under an alias meant to be unique,
groups the components into one object per category, and adds a default export
of those objects. This project models the part of the build that decides the
names:

- `src/lib/component-utils.ts`: the two sanitisers and the category grouping.
  - `sanitizeComponentName` spells `+` as `Plus` and drops everything that is
    not an ASCII letter or digit.
  - `sanitizeCategoryName` drops a leading number, splits the rest at runs of
    white space and `+`, capitalises each word, joins the words and drops
    everything that is not an ASCII letter or digit.
  - `groupByCategory` collects the components of each raw category, in input
    order.
- `src/lib/index-generator.ts`:
  - the census of duplicate names (`buildDuplicatesMap`);
  - the five-rule alias ladder (`getComponentAlias`);
  - the human-readable category label;
  - the per-category objects, which keep the first member of each base name;
  - the default export;
  - the assembled index.

Modules:

| module | file | models |
|---|---|---|
| `Ascii` | ascii.dfy | character classes, the JavaScript `\s` set, ASCII case mapping |
| `Seqs` | seqs.dfy | `filter`, counting, `map` and distinctness over sequences, with their algebra |
| `ComponentUtils` | component_utils.dfy | `sanitizeComponentName`, `sanitizeCategoryName`, `groupByCategory` |
| `Census` | census.dfy | the numeric id of a path and `buildDuplicatesMap` |
| `Aliases` | aliases.dfy | `getComponentAlias` |
| `CategoryLabel` | category_label.dfy | the label computed in `generateCategoryExports` |
| `IndexGenerator` | index_generator.dfy | `generateCategoryExports`, `generateDefaultExport`, `generateIndexContent` |

How each part is modelled:

- The sanitisers are chains of `replace`, `split`, `map` and `join`. They become
  functions, one per step.
- `groupByCategory`, `buildDuplicatesMap`, the de-duplicating loop of a
  category object, the loop over categories and `generateIndexContent` update
  accumulators step by step. They become methods with loops. Each method is
  proved against a specification function or predicate over the component
  list:
  - `Categories` and `Members` for the grouping;
  - `IsCensus` for the two maps;
  - `FirstByName` and `AliasOf` for the category entries;
  - `IndexOf` for the whole index.
- `ComponentAlias` reads the census maps, as the source does. `AliasOf`
  states the same ladder over the component list alone.
  `Aliases.AliasMatchesCensus` proves that the two agree whenever the maps
  are the census of the list.

Two behaviours of the code worth knowing:

- Aliases are not unique. `Aliases.DifferentIdsShareAlias` shows two
  components of one category, with different numeric ids, that receive the
  same alias. `Aliases.NameAndIdConcatenate` shows a collision that comes from
  concatenating the name and the id without a separator.
- The second rule (name plus numeric id) needs more than one component whose
  category is labelled like the name. One such component is not enough:
  `Aliases.NameIsCategoryNeedsTwo`.

## Model

| member | source | states |
|---|---|---|
| ComponentUtils.SanitizeComponentName | src/lib/component-utils.ts:16-20 | the identifier holds only ASCII letters and digits |
| ComponentUtils.SanitizeComponentNamePerCharacter | src/lib/component-utils.ts:17-19 | the two passes equal one character-by-character translation: `+` becomes `Plus`, a letter or digit stays, anything else vanishes |
| ComponentUtils.SanitizeComponentNameAppend | src/lib/component-utils.ts:17-19 | the sanitiser distributes over concatenation of names |
| ComponentUtils.SanitizeComponentNameKeepsAlnum | src/lib/component-utils.ts:16-20 | a name made only of letters and digits is its own identifier |
| ComponentUtils.SanitizeComponentNameIdempotent | src/lib/component-utils.ts:16-20 | sanitising twice gives the same identifier as sanitising once |
| ComponentUtils.SanitizeComponentNameEmpty | src/lib/component-utils.ts:16-20 | the identifier is empty exactly when the name has no `+`, letter or digit |
| ComponentUtils.SanitizeComponentNamePlus | src/lib/component-utils.ts:18 | a `+` between two alphanumeric runs is spelled `Plus` |
| ComponentUtils.SanitizeComponentNameGap | src/lib/component-utils.ts:19 | a run with no `+`, letter or digit between two parts vanishes |
| ComponentUtils.SanitizeComponentNameNoUpper | src/lib/component-utils.ts:16-20 | a name with no `+` and no upper-case letter gives an identifier with no upper-case letter: the sanitiser never capitalises |
| ComponentUtils.SanitizeComponentNameFourWords | src/lib/component-utils.ts:16-20 | four alphanumeric words between gaps are joined unchanged |
| ComponentUtils.SanitizeComponentNameSpellsPlus | src/lib/component-utils.test.ts:37 | `Icon+Name` becomes `IconPlusName` |
| ComponentUtils.SanitizeComponentNameDropsSymbols | src/lib/component-utils.test.ts:41 | `My@Icon#Name` becomes `MyIconName` |
| ComponentUtils.SanitizeComponentNameNothingKept | src/lib/component-utils.test.ts:44-54 | the empty name, `!@#$%^&*()` and five spaces all become the empty identifier |
| ComponentUtils.SanitizeComponentNameKeepsCase | src/lib/component-utils.test.ts:57 | as written, `   leading and trailing spaces   ` becomes `leadingandtrailingspaces`, not the `LeadingAndTrailingSpaces` the test expects |
| ComponentUtils.SanitizeWordsName | src/lib/component-utils.test.ts:56-58 | the corrected sanitiser, which capitalises each white-space separated word first, still yields only letters and digits |
| ComponentUtils.SanitizeWordsNameAgrees | src/lib/component-utils.ts:16-20 | on a name without white space whose first character is not a lower-case letter, the corrected sanitiser agrees with the code |
| ComponentUtils.SanitizeWordsNameMeetsTests | src/lib/component-utils.test.ts:36-42 | the corrected sanitiser gives `IconPlusName` and `MyIconName`, as the tests expect |
| ComponentUtils.SanitizeWordsNameNothingKept | src/lib/component-utils.test.ts:44-54 | the corrected sanitiser gives the empty identifier for the three empty-result tests |
| ComponentUtils.SanitizeWordsNameFourWords | src/lib/component-utils.test.ts:56-58 | the corrected sanitiser joins four words between runs of white space, each with its first letter upper-cased |
| ComponentUtils.SanitizeWordsNameSpacedPhrase | src/lib/component-utils.test.ts:57 | the corrected sanitiser turns `   leading and trailing spaces   ` into `LeadingAndTrailingSpaces` |
| ComponentUtils.StripLeadingDigits | src/lib/component-utils.ts:9 | the result is no longer than the input and does not start with a digit |
| ComponentUtils.StripLeadingDigitsSuffix | src/lib/component-utils.ts:9 | the result is a suffix of the input, and what was removed is all digits |
| ComponentUtils.WordsConcat | src/lib/component-utils.ts:10 | the words of the split, joined, are the input with every separator removed |
| ComponentUtils.WordsShape | src/lib/component-utils.ts:10 | no word holds a separator; only the first and last words can be empty |
| ComponentUtils.WordsSpaced | src/lib/component-utils.ts:10 | splitting words joined by non-empty separator runs gives the words back, plus one empty word when separators trail |
| ComponentUtils.PascalCase | src/lib/component-utils.ts:10-13 | the joined capitalised words hold only letters and digits |
| ComponentUtils.PascalCaseAppend | src/lib/component-utils.ts:10-13 | a word, a separator run of any length and the rest contribute their parts in order, so separator runs merge |
| ComponentUtils.SanitizeCategoryName | src/lib/component-utils.ts:7-14 | the identifier holds only ASCII letters and digits |
| ComponentUtils.CategoryNameLetters | src/lib/component-utils.ts:7-14 | ignoring case, the identifier is the letters and digits that follow the leading number |
| ComponentUtils.CategoryNameEmpty | src/lib/component-utils.ts:7-14 | the identifier is empty exactly when nothing after the leading number is a letter or digit |
| ComponentUtils.SanitizeCategoryNameSpaced | src/lib/component-utils.ts:7-14 | a numbered category of separated words becomes its capitalised words, joined, with non-alphanumerics dropped |
| ComponentUtils.SanitizeCategoryNameAlnumWords | src/lib/component-utils.ts:7-14 | for words of letters and digits, nothing is dropped: the identifier is the capitalised words, joined |
| ComponentUtils.SanitizeCategoryNameTwoWords | src/lib/component-utils.ts:7-14 | a number and two words with lower-case tails become the two words with upper-case initials, joined |
| ComponentUtils.SanitizeCategoryNameThreeWords | src/lib/component-utils.ts:7-14 | a number and three words become the capitalised words, joined, with non-alphanumerics dropped from the last |
| ComponentUtils.SanitizeCategoryNameFourWords | src/lib/component-utils.ts:7-14 | four alphanumeric words between runs of spaces become the capitalised words, joined |
| ComponentUtils.SanitizeCategoryNameOneWord | src/lib/component-utils.ts:11 | a single word keeps its upper-cased first character and lower-cases the rest |
| ComponentUtils.SanitizeCategoryNameKeepsCapitalWord | src/lib/component-utils.ts:7-14 | a capitalised alphanumeric word is its own identifier |
| ComponentUtils.SanitizeCategoryNameLowersInnerCapital | src/lib/component-utils.ts:11 | an identifier with an upper-case letter after its first character changes when sanitised again |
| ComponentUtils.SanitizeCategoryNameNotIdempotent | src/lib/component-utils.ts:7-14 | sanitising a two-word category twice differs from sanitising it once |
| ComponentUtils.SanitizeCategoryNameDropsNumber | src/lib/component-utils.test.ts:6 | `01 My Category` becomes `MyCategory` |
| ComponentUtils.SanitizeCategoryNameCapitalizesWords | src/lib/component-utils.test.ts:10 | `my test category!` becomes `MyTestCategory` |
| ComponentUtils.SanitizeCategoryNameMergesSpaces | src/lib/component-utils.test.ts:11 | `multiple   spaces` becomes `MultipleSpaces` |
| ComponentUtils.SanitizeCategoryNameNothingKept | src/lib/component-utils.test.ts:14-28 | the empty category, `!@#$%^&*()`, `123456` and five spaces all become the empty identifier |
| ComponentUtils.SanitizeCategoryNameSpacedPhrase | src/lib/component-utils.test.ts:31 | `   leading and trailing spaces   ` becomes `LeadingAndTrailingSpaces` |
| ComponentUtils.SanitizeCategoryNameOfAiCategory | src/test/generated-tests.spec.tsx:4-18 | `08 AI + Machine Learning` becomes `AiMachineLearning`, the name the generated module exports |
| ComponentUtils.GroupByCategory | src/lib/component-utils.ts:22-30 | the keys are the distinct categories in order of first appearance, and each key holds exactly the components of its category, in input order |
| ComponentUtils.GroupStep | src/lib/component-utils.ts:23-28 | creating a new category's array and pushing the next component keeps the record in step with the input read so far |
| ComponentUtils.CategoriesDistinct | src/lib/component-utils.ts:24-26 | no category is a key twice |
| ComponentUtils.CategoriesCover | src/lib/component-utils.ts:22-30 | a category is a key exactly when some component carries it |
| ComponentUtils.MembersExact | src/lib/component-utils.ts:27 | a component is in a key's array exactly when it is in the input with that category |
| ComponentUtils.MembersNonEmpty | src/lib/component-utils.ts:24-27 | no key holds an empty array |
| ComponentUtils.CategoriesCount | src/lib/component-utils.ts:22-30 | there are as many keys as distinct categories |
| ComponentUtils.GroupsPartition | src/lib/component-utils.ts:22-30 | the arrays, taken together, are a permutation of the input |
| ComponentUtils.GroupByCategoryExample | src/lib/component-utils.test.ts:62-84 | three components in two categories group as the test expects; the empty list has no keys |
| Census.NumericId | src/lib/index-generator.ts:14 | the id is empty or five digits |
| Census.NumericIdLeftmost | src/lib/index-generator.ts:14 | the id is empty exactly when the path has no five digits in a row; otherwise it is the leftmost such window |
| Census.NumericIdAfter | src/lib/index-generator.ts:43 | five digits after a digit-free prefix are the id, whatever follows |
| Census.NumericIdNoDigits | src/lib/index-generator.ts:14 | a path without digits has the empty id |
| Census.BuildDuplicatesMap | src/lib/index-generator.ts:33-58 | the global map counts the components of each sanitised name; the per-category map lists, for each category and name, the numeric ids of its components in input order |
| Census.CensusStep | src/lib/index-generator.ts:40-55 | one iteration of the loop keeps both maps the census of the components read so far |
| Census.CensusUnique | src/lib/index-generator.ts:33-58 | a component list has exactly one census |
| Census.CensusLength | src/lib/index-generator.ts:47-54 | the length of an id list is the number of components of that category and name |
| Census.CensusSum | src/lib/index-generator.ts:40-55 | for every name, the id lists of all categories together are as long as the global count |
| Aliases.Decide | src/lib/index-generator.ts:21-30 | the bare name is chosen exactly when none of the four counts exceeds one |
| Aliases.Spell | src/lib/index-generator.ts:21-30 | every alias starts with the sanitised name |
| Aliases.ComponentAlias | src/lib/index-generator.ts:3-31 | the alias read from the maps starts with the sanitised name |
| Aliases.AliasMatchesCensus | src/lib/index-generator.ts:3-31 | when the maps are the census, the entries the `!` assertions demand exist and the alias equals the alias defined from the list alone |
| Aliases.AliasPermutation | src/lib/index-generator.ts:11-19 | reordering the component list changes no alias |
| Aliases.CountsBoundedByGlobal | src/lib/index-generator.ts:11-19 | when every path has an id, the same-key count and the same-category count never exceed the global count |
| Aliases.IsolatedGetsBareName | src/lib/index-generator.ts:21-30 | when every component's path carries a five-digit id, a name held once, that no two categories are labelled like, gets the bare name |
| Aliases.SameIdTwinsShareAlias | src/lib/index-generator.ts:21-22 | two components of one category with the same name and id both take rule 1 and share an alias |
| Aliases.SameCategoryNeedsOtherIds | src/lib/index-generator.ts:25-26 | rule 3 only decides for a same-named component of the same category whose id differs |
| Aliases.DifferentIdsShareAlias | src/lib/index-generator.ts:17-22 | two components of one category with different ids can share an alias: aliases are not unique |
| Aliases.NameAndIdConcatenate | src/lib/index-generator.ts:17-19 | a name that ends in another component's id collides with it under rule 1 |
| Aliases.SameNameAndIdAcrossCategories | src/lib/index-generator.ts:21-22 | the same name and id in two categories gives each the name plus its category identifier |
| Aliases.SameCategoryDifferentIds | src/lib/index-generator.ts:25-26 | the same name in one category with different ids gives each the name, the category identifier and its id |
| Aliases.AloneKeepsBareName | src/lib/index-generator.ts:30 | a component on its own keeps its bare name |
| Aliases.NameIsCategoryNeedsTwo | src/lib/index-generator.ts:23-24 | one category labelled like the name does not trigger rule 2; two do |
| Aliases.StorageInTwoCategories | src/lib/index-generator.ts:21-22 | `Storage` in Compute and in Storage with one id become `StorageCompute` and `StorageStorage` |
| Aliases.DisksOfOneCategory | src/lib/index-generator.ts:25-26 | two `Disk` components of Storage with ids 10001 and 10002 become `DiskStorage10001` and `DiskStorage10002` |
| Aliases.LoneVirtualMachine | src/lib/index-generator.ts:30 | a lone `VirtualMachine` keeps its bare name |
| Aliases.StorageBesideDisk | src/lib/index-generator.ts:23-24 | `Storage` in category Storage keeps its name alone, and becomes `Storage10001` beside a second component of that category |
| CategoryLabel.StripNumberPrefix | src/lib/index-generator.ts:97 | the result is no longer than the input, and a category that does not start with a digit is unchanged |
| CategoryLabel.StripNumberPrefixSuffix | src/lib/index-generator.ts:97 | the result is a suffix of the category |
| CategoryLabel.StripNumberPrefixOf | src/lib/index-generator.ts:97 | a run of digits and the dashes and white space after it are removed, each as far as it goes |
| CategoryLabel.SplitOnPlus | src/lib/index-generator.ts:98 | no piece holds a `+` |
| CategoryLabel.JoinSplitOnPlus | src/lib/index-generator.ts:98 | joining the pieces with `+` gives the input back |
| CategoryLabel.SplitJoinOnPlus | src/lib/index-generator.ts:98 | splitting pieces without `+` that were joined with `+` gives the pieces back |
| CategoryLabel.SplitLabel | src/lib/index-generator.ts:98 | one part per piece between plus signs, each that piece with only white space removed, and only from a side that faces a plus sign; no part holds `+`; a part after a plus sign does not start with white space, and a part before one does not end with it |
| CategoryLabel.TrimPiece | src/lib/index-generator.ts:98 | the result is the piece with only white space removed, from its start only when a plus sign comes before it and from its end only when one comes after it; no white space is left on those sides; a piece without `+` stays without `+` |
| CategoryLabel.TrimmedAtUnique | src/lib/index-generator.ts:98 | such a trim is unique: a piece made of white space, a part and white space again trims to that part |
| CategoryLabel.Label | src/lib/index-generator.ts:96-100 | an upper-case letter after the label's first character only ever opens a part, right after `+ ` |
| CategoryLabel.CapitalsStartParts | src/lib/index-generator.ts:99-100 | in capitalised parts joined with ` + `, every upper-case letter after the first character follows `+ ` |
| CategoryLabel.SplitLabelJoin | src/lib/index-generator.ts:98-100 | splitting parts joined with ` + ` gives the parts back, when no part holds `+` and no side facing a plus sign is white space |
| CategoryLabel.SplitLabelAroundPlus | src/lib/index-generator.ts:98 | two parts without `+`, joined by ` + `, split back into the two parts with the spaces trimmed |
| CategoryLabel.SplitLabelSpaced | src/lib/index-generator.ts:98 | parts joined by plus signs with any run of white space on either side of each sign split back into the parts, when no part holds `+` and no side facing a plus sign is white space |
| CategoryLabel.SplitLabelAroundSpacedPlus | src/lib/index-generator.ts:98 | two such parts around a plus sign with any white space on each side (`A+B`, `A  +  B`, `A\t+B`) split into the two parts |
| CategoryLabel.LabelOfSpacedParts | src/lib/index-generator.ts:96-100 | a category of such parts around plus signs with any white space, not starting with a digit, is labelled by its parts capitalised and joined with ` + ` |
| CategoryLabel.LabelAroundSpacedPlus | src/lib/index-generator.ts:96-100 | two parts around a plus sign with any white space on each side are capitalised and joined with ` + ` |
| CategoryLabel.LabelOfParts | src/lib/index-generator.ts:96-100 | a category of any number of such parts, not starting with a digit, is labelled by its parts capitalised and joined with ` + ` |
| CategoryLabel.LabelOfNumberedParts | src/lib/index-generator.ts:96-100 | a number and dashes or white space in front of such parts go, and the parts are capitalised and joined with ` + ` |
| CategoryLabel.LabelOfOnePart | src/lib/index-generator.ts:96-100 | a category of one part without `+`, with or without a number, is labelled by that part capitalised (`01 Compute` by `Compute`) |
| CategoryLabel.LabelTwoParts | src/lib/index-generator.ts:96-100 | two parts around ` + ` are each capitalised and joined with ` + ` |
| CategoryLabel.LabelNumberedTwoParts | src/lib/index-generator.ts:96-100 | a numbered category loses its number, and its two parts are capitalised and joined with ` + ` |
| CategoryLabel.LabelTwoLowerParts | src/lib/index-generator.ts:99 | parts whose tails are already lower case only have their first characters upper-cased |
| CategoryLabel.LabelOfAiCategory | src/test/generated-tests.spec.tsx:68 | `08 AI + Machine Learning` is labelled `Ai + Machine learning` |
| IndexGenerator.ModulePathOfTsx | src/lib/index-generator.ts:65 | exactly one trailing `.tsx` is removed, behind `./` |
| IndexGenerator.ModulePathRoundTrip | src/lib/index-generator.ts:65 | the module path starts with `./`, and putting `.tsx` back where it was removed gives the file path |
| IndexGenerator.FirstByName | src/lib/index-generator.ts:102-112 | the kept members are members, and no more than there are |
| IndexGenerator.FirstByNameNames | src/lib/index-generator.ts:102-112 | the kept members have pairwise different base names, and together they have every base name of the category |
| IndexGenerator.FirstByNameKeepsFirsts | src/lib/index-generator.ts:106-109 | a member is kept exactly when no earlier member has its base name |
| IndexGenerator.CategoryEntries | src/lib/index-generator.ts:102-112 | the loop's entries are those of the first member of each base name, with aliases read from the maps |
| IndexGenerator.CategoryExportOf | src/lib/index-generator.ts:93-119 | a category object carries the category identifier, the label and one entry per kept member |
| IndexGenerator.CategoryExportsOf | src/lib/index-generator.ts:93-120 | one category object per key of the grouping, in key order |
| IndexGenerator.GenerateCategoryExports | src/lib/index-generator.ts:88-121 | the loop over the grouping produces exactly the category objects of the specification |
| IndexGenerator.DefaultExport | src/lib/index-generator.ts:123-132 | one entry per category, in key order; entry `i` has the identifier of category `i` as both key and value |
| IndexGenerator.DefaultExportNamesCategoryObjects | src/lib/index-generator.ts:123-132 | entry `i` of the default export names, as key and value, the identifier of the category object the index defines for category `i` |
| IndexGenerator.DefaultExportSize | src/lib/index-generator.ts:125 | the default export has as many entries as there are distinct categories |
| IndexGenerator.ImportOf | src/lib/index-generator.ts:63-70 | the import brings the alias into scope from the module path, renaming exactly when the alias differs from the base name |
| IndexGenerator.AliasEntries | src/lib/index-generator.ts:102-111 | each entry's key is its member's base name, and its value starts with the key |
| IndexGenerator.CategoryKeys | src/lib/index-generator.ts:102-112 | a category object's keys are pairwise different, are exactly the category's base names, and each value starts with its key |
| IndexGenerator.CensusExport | src/lib/index-generator.ts:88-121 | with the census maps, the category object read from the maps equals the one defined from the list alone |
| IndexGenerator.ImportList | src/lib/index-generator.ts:63-71 | one import per component, in input order, under the component's alias |
| IndexGenerator.AliasList | src/lib/index-generator.ts:73-80 | one export per component, in input order, of the component's alias |
| IndexGenerator.CategoryList | src/lib/index-generator.ts:82 | one category object per distinct category, in key order |
| IndexGenerator.CensusImportList | src/lib/index-generator.ts:63-71 | the imports built from the census maps are the imports defined from the list |
| IndexGenerator.CensusAliasList | src/lib/index-generator.ts:73-80 | the exports built from the census maps are the exports defined from the list |
| IndexGenerator.CensusCategoryList | src/lib/index-generator.ts:82 | the category objects built from the census maps are those defined from the list |
| IndexGenerator.GenerateIndexContent | src/lib/index-generator.ts:60-86 | the index holds the imports, the exports, the category objects and the default export that the list defines |

## Left out

- GenerateIndexContent: the index is the structure `Index` (imports, exports, category objects, default-export entries), not the text. Template layout, indentation, quoting and the `join` separators are not modelled.
- GroupByCategory: keys come in order of first appearance. JavaScript lists integer-like keys (such as `2024`) first, in ascending numeric order, so a category named by digits would move to the front.
- GroupByCategory: a category named like any `Object.prototype` property (`__proto__`, `constructor`, `toString`, `valueOf`, `hasOwnProperty`, `isPrototypeOf`, `propertyIsEnumerable`, `toLocaleString`, `__defineGetter__`, `__defineSetter__`, `__lookupGetter__`, `__lookupSetter__`) finds an inherited value in the plain accumulator object. That value is truthy and has no `push`, so the source throws a TypeError there. The model returns a group for such a category.
- GenerateCategoryExports: inherits the first-appearance key order of `GroupByCategory` for `Object.entries`.
- DefaultExport: inherits the first-appearance key order of `GroupByCategory` for `Object.keys`.
- SanitizeCategoryName: case mapping is ASCII only. JavaScript's `toUpperCase` and `toLowerCase` also map non-ASCII letters (`ſ` to `S`, `ß` to `SS`), which can then survive the ASCII filter.
- SanitizeCategoryName: `charAt(0)` and `slice(1)` work on UTF-16 code units, while the model's characters are Unicode scalar values. The two differ for a word that starts outside the Basic Multilingual Plane.
- CategoryLabel.LabelTwoParts: the label's capitalisation is ASCII only as well. A label keeps non-ASCII letters, and JavaScript would change their case (`éléments` to `Éléments`).
- Census.BuildDuplicatesMap: the insertion order of the JavaScript `Map`s is not kept. The source only looks entries up, so the order is never observed.
- Aliases.ComponentAlias: requires the entries that the source's `!` assertions demand. Without them the source would throw, and the model does not give that case a value. `Aliases.AliasMatchesCensus` proves that the entries exist for every component of the list.
- Downloading the icon set, reading the SVG files, optimising them, writing the component files and the index file (`src/build-icons.ts`, `src/download-and-extract-azure-icons.ts`, `src/lib/file-utils.ts`, `src/lib/svg-optimizer.ts`) are not part of this model. They are I/O around the naming layer.

## Findings

| source | as written | input that shows it | evidently intended | confidence | as-written member | corrected member |
|---|---|---|---|---|---|---|
| src/lib/component-utils.ts:16-20 | only spells `+` and drops non-alphanumerics; letters keep their case | `   leading and trailing spaces   ` gives `leadingandtrailingspaces` | capitalise each white-space separated word first, giving `LeadingAndTrailingSpaces` as src/lib/component-utils.test.ts:57 expects | not executed; the test may be the wrong party | ComponentUtils.SanitizeComponentNameKeepsCase | ComponentUtils.SanitizeWordsNameSpacedPhrase |

The corrected sanitiser `SanitizeWordsName` also meets the other five tests of
`sanitizeComponentName` (`SanitizeWordsNameMeetsTests` and
`SanitizeWordsNameNothingKept`). It agrees with the code on every name without
white space whose first character is not a lower-case letter
(`SanitizeWordsNameAgrees`). The component names come from a converter
(`svgToComponent`, src/build-icons.ts:55) that is not part of this model. The
census, the aliases and the index keep the sanitiser as written, on the
assumption that the names reaching them are such names, as the PascalCase
names the generated tests import are (`AIStudio`,
src/test/generated-tests.spec.tsx:4).
