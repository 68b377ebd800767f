/**
  The identifier sanitisers and the category grouping of
  src/lib/component-utils.ts.

  Both sanitisers are chains of `replace`, `split`, `map` and `join` and are
  modelled as functions, one per step of the chain. `groupByCategory` fills an
  accumulator record in place and is modelled as a method with a loop, proved
  against the functions `Categories` (the record's keys, in insertion order)
  and `Members` (the array stored under one key).
 */
module ComponentUtils {
  import opened Ascii
  import opened Seqs

  /** One generated icon component: its raw display name, the path of its
      generated file and its raw category. */
  datatype ComponentInfo = ComponentInfo(name: string, path: string, category: string)

  // ---------------------------------------------------------------------------
  // sanitizeComponentName
  // ---------------------------------------------------------------------------

  /** Every plus sign spelled as the word `Plus`. */
  function ReplacePlus(s: string): (r: string)
    ensures forall i :: 0 <= i < |r| ==> r[i] != '+'
  {
    if s == [] then [] else (if s[0] == '+' then "Plus" else [s[0]]) + ReplacePlus(s[1..])
  }

  /** Only the ASCII letters and digits, in order. */
  function StripNonAlnum(s: string): (r: string)
    ensures AllAlnum(r)
  {
    FilterAll(s, IsAlnum);
    Filter(s, IsAlnum)
  }

  /** The export identifier of a component name. */
  function SanitizeComponentName(name: string): (r: string)
    ensures AllAlnum(r)
  {
    StripNonAlnum(ReplacePlus(name))
  }

  /** What one character of a component name contributes to its identifier:
      `+` spells `Plus`, a letter or digit stays, anything else vanishes. */
  function NameChar(c: char): string {
    if c == '+' then "Plus" else if IsAlnum(c) then [c] else ""
  }

  /** The two-pass sanitiser is the one-pass, character-by-character
      translation given by NameChar. */
  lemma SanitizeComponentNamePerCharacter(s: string)
    requires s != []
    ensures SanitizeComponentName(s) == NameChar(s[0]) + SanitizeComponentName(s[1..])
  {
    var head := if s[0] == '+' then "Plus" else [s[0]];
    assert ReplacePlus(s) == head + ReplacePlus(s[1..]);
    FilterAppend(head, ReplacePlus(s[1..]), IsAlnum);
    if s[0] == '+' {
      FilterKeepsAll("Plus", IsAlnum);
    }
  }

  /** Sanitising distributes over concatenation of names. */
  lemma {:induction false} SanitizeComponentNameAppend(a: string, b: string)
    ensures SanitizeComponentName(a + b) == SanitizeComponentName(a) + SanitizeComponentName(b)
  {
    if a == [] {
      assert a + b == b;
    } else {
      assert (a + b)[0] == a[0] && (a + b)[1..] == a[1..] + b;
      SanitizeComponentNamePerCharacter(a + b);
      SanitizeComponentNamePerCharacter(a);
      SanitizeComponentNameAppend(a[1..], b);
    }
  }

  lemma {:induction false} ReplacePlusKeeps(s: string)
    requires forall i :: 0 <= i < |s| ==> s[i] != '+'
    ensures ReplacePlus(s) == s
  {
    if s != [] {
      ReplacePlusKeeps(s[1..]);
    }
  }

  /** A name that is already alphanumeric is its own identifier. */
  lemma SanitizeComponentNameKeepsAlnum(s: string)
    requires AllAlnum(s)
    ensures SanitizeComponentName(s) == s
  {
    ReplacePlusKeeps(s);
    FilterKeepsAll(s, IsAlnum);
  }

  /** Sanitising twice is sanitising once. */
  lemma SanitizeComponentNameIdempotent(s: string)
    ensures SanitizeComponentName(SanitizeComponentName(s)) == SanitizeComponentName(s)
  {
    SanitizeComponentNameKeepsAlnum(SanitizeComponentName(s));
  }

  /** The identifier is empty exactly when the name holds no `+`, no letter
      and no digit. */
  lemma SanitizeComponentNameEmpty(s: string)
    ensures SanitizeComponentName(s) == [] <==> forall i :: 0 <= i < |s| ==> s[i] != '+' && !IsAlnum(s[i])
  {
    if forall i :: 0 <= i < |s| ==> s[i] != '+' && !IsAlnum(s[i]) {
      ReplacePlusKeeps(s);
      FilterDropsAll(s, IsAlnum);
    } else {
      var i :| 0 <= i < |s| && (s[i] == '+' || IsAlnum(s[i]));
      assert s == s[..i] + s[i..];
      SanitizeComponentNameAppend(s[..i], s[i..]);
      SanitizeComponentNamePerCharacter(s[i..]);
    }
  }

  /** Between two alphanumeric runs, a `+` is spelled out. */
  lemma SanitizeComponentNamePlus(a: string, b: string)
    requires AllAlnum(a) && AllAlnum(b)
    ensures SanitizeComponentName(a + "+" + b) == a + "Plus" + b
  {
    assert a + "+" + b == a + ("+" + b);
    SanitizeComponentNameAppend(a, "+" + b);
    SanitizeComponentNameAppend("+", b);
    SanitizeComponentNameKeepsAlnum(a);
    SanitizeComponentNameKeepsAlnum(b);
    SanitizeComponentNamePerCharacter("+");
    assert "+"[1..] == "";
  }

  /** Between two alphanumeric runs, a run with no `+`, letter or digit
      vanishes. */
  lemma SanitizeComponentNameGap(a: string, gap: string, b: string)
    requires forall i :: 0 <= i < |gap| ==> gap[i] != '+' && !IsAlnum(gap[i])
    ensures SanitizeComponentName(a + gap + b) == SanitizeComponentName(a) + SanitizeComponentName(b)
  {
    SanitizeComponentNameAppend(a + gap, b);
    SanitizeComponentNameAppend(a, gap);
    SanitizeComponentNameEmpty(gap);
  }

  // The test values below are proved in small steps: each string literal is
  // a parameter pinned by a `requires`, and cutting it into words is a
  // lemma of its own, so that no proof has to unfold a long literal.

  /** `+` is spelled out (src/lib/component-utils.test.ts, line 37). */
  lemma SanitizeComponentNameSpellsPlus(name: string)
    requires name == "Icon+Name"
    ensures SanitizeComponentName(name) == "IconPlusName"
  {
    var a, b := "Icon", "Name";
    assert name == a + "+" + b;
    SanitizeComponentNamePlus(a, b);
  }

  /** `My@Icon#Name` cut into its words and symbols. */
  lemma SymbolsNameParts(name: string, my: string, icon: string, nm: string)
    requires name == "My@Icon#Name" && my == "My" && icon == "Icon" && nm == "Name"
    ensures name == my + "@" + (icon + "#" + nm)
    ensures AllAlnum(my) && AllAlnum(icon) && AllAlnum(nm) && Gap("@") && Gap("#")
  {
  }

  /** Other symbols vanish (line 41): `My@Icon#Name` becomes `MyIconName`. */
  lemma SanitizeComponentNameDropsSymbols(name: string)
    requires name == "My@Icon#Name"
    ensures SanitizeComponentName(name) == "MyIconName"
  {
    var my, icon, nm := "My", "Icon", "Name";
    SymbolsNameParts(name, my, icon, nm);
    SanitizeComponentNameWordThen(my, "@", icon + "#" + nm);
    SanitizeComponentNameWordThen(icon, "#", nm);
    SanitizeComponentNameKeepsAlnum(nm);
    SymbolsNameJoined(my, icon, nm);
  }

  /** The words of `My@Icon#Name`, joined. */
  lemma SymbolsNameJoined(my: string, icon: string, nm: string)
    requires my == "My" && icon == "Icon" && nm == "Name"
    ensures my + (icon + nm) == "MyIconName"
  {
  }

  /** Names with nothing to keep (lines 44-54). */
  lemma SanitizeComponentNameNothingKept(empty: string, symbols: string, spaces: string)
    requires empty == "" && symbols == "!@#$%^&*()" && spaces == "     "
    ensures SanitizeComponentName(empty) == ""
    ensures SanitizeComponentName(symbols) == ""
    ensures SanitizeComponentName(spaces) == ""
  {
    SanitizeComponentNameEmpty(empty);
    SanitizeComponentNameEmpty(symbols);
    SanitizeComponentNameEmpty(spaces);
  }

  /** Without a `+` in the name, the identifier holds no upper-case letter
      the name does not: the sanitiser never capitalises. */
  lemma {:induction false} SanitizeComponentNameNoUpper(s: string)
    requires forall i :: 0 <= i < |s| ==> s[i] != '+' && !IsUpper(s[i])
    ensures forall i :: 0 <= i < |SanitizeComponentName(s)| ==> !IsUpper(SanitizeComponentName(s)[i])
  {
    if s != [] {
      SanitizeComponentNamePerCharacter(s);
      SanitizeComponentNameNoUpper(s[1..]);
    }
  }

  /** Gaps with no `+`, letter or digit. */
  predicate Gap(g: string) {
    forall i :: 0 <= i < |g| ==> g[i] != '+' && !IsAlnum(g[i])
  }

  /** A leading gap vanishes. */
  lemma SanitizeComponentNameGapFirst(g: string, rest: string)
    requires Gap(g)
    ensures SanitizeComponentName(g + rest) == SanitizeComponentName(rest)
  {
    SanitizeComponentNameAppend(g, rest);
    SanitizeComponentNameEmpty(g);
  }

  /** A word of letters and digits and then a gap: the word is kept as it
      is and the gap vanishes. */
  lemma SanitizeComponentNameWordThen(w: string, g: string, rest: string)
    requires AllAlnum(w) && Gap(g)
    ensures SanitizeComponentName(w + g + rest) == w + SanitizeComponentName(rest)
  {
    SanitizeComponentNameAppend(w + g, rest);
    SanitizeComponentNameGap(w, g, []);
    SanitizeComponentNameKeepsAlnum(w);
    assert w + g == w + g + [];
  }

  /** Four alphanumeric words between gaps: the gaps vanish and the words
      are joined as they are. */
  lemma SanitizeComponentNameFourWords(lead: string, a: string, b: string, c: string, d: string, sep: string, trail: string)
    requires Gap(lead) && Gap(sep) && Gap(trail)
    requires AllAlnum(a) && AllAlnum(b) && AllAlnum(c) && AllAlnum(d)
    ensures SanitizeComponentName(lead + (a + sep + (b + sep + (c + sep + (d + trail))))) == a + b + c + d
  {
    var r3 := c + sep + (d + trail);
    var r2 := b + sep + r3;
    var r1 := a + sep + r2;
    SanitizeComponentNameWordThen(d, trail, []);
    assert d + trail == d + trail + [];
    SanitizeComponentNameWordThen(c, sep, d + trail);
    SanitizeComponentNameWordThen(b, sep, r3);
    SanitizeComponentNameWordThen(a, sep, r2);
    SanitizeComponentNameGapFirst(lead, r1);
    SanitizeComponentNameEmpty([]);
    assert a + (b + (c + (d + []))) == a + b + c + d;
  }

  /** The spaced phrase of src/lib/component-utils.test.ts, lines 31 and
      57, cut into its runs of spaces and its words. */
  lemma SpacedPhraseNested(phrase: string)
    requires phrase == "   leading and trailing spaces   "
    ensures phrase == "   " + ("leading" + " " + ("and" + " " + ("trailing" + " " + ("spaces" + "   "))))
  {
  }

  /** Spaces vanish but words are not capitalised: the spaced phrase of
      src/lib/component-utils.test.ts, line 57, becomes
      `leadingandtrailingspaces`, not the `LeadingAndTrailingSpaces` that the
      test expects. */
  lemma SanitizeComponentNameKeepsCase(name: string)
    requires name == "   leading and trailing spaces   "
    ensures SanitizeComponentName(name) == "leadingandtrailingspaces"
    ensures SanitizeComponentName(name) != "LeadingAndTrailingSpaces"
  {
    SpacedPhraseNested(name);
    SanitizeComponentNameFourWords("   ", "leading", "and", "trailing", "spaces", " ", "   ");
    assert "leading" + "and" + "trailing" + "spaces" == "leadingandtrailingspaces";
    assert "leadingandtrailingspaces"[0] != "LeadingAndTrailingSpaces"[0];
  }

  /** Upper-cases the first character of the name and every character that
      follows white space. */
  function UpperWordStarts(s: string): (r: string)
    ensures |r| == |s|
  {
    seq(|s|, i requires 0 <= i < |s| => if i == 0 || IsWhiteSpace(s[i - 1]) then ToUpper(s[i]) else s[i])
  }

  /** A run of white space. */
  predicate Blank(s: string) {
    forall i :: 0 <= i < |s| ==> IsWhiteSpace(s[i])
  }

  /** A non-empty word without white space. */
  predicate Solid(w: string) {
    w != [] && forall i :: 0 <= i < |w| ==> !IsWhiteSpace(w[i])
  }

  /** The word with its first character upper-cased. */
  function UpperFirst(w: string): string
    requires w != []
  {
    [ToUpper(w[0])] + w[1..]
  }

  /** After white space, the rest of the name is treated as a name of its
      own. */
  lemma UpperWordStartsAppend(x: string, y: string)
    requires x != [] && IsWhiteSpace(x[|x| - 1])
    ensures UpperWordStarts(x + y) == UpperWordStarts(x) + UpperWordStarts(y)
  {
    var l, r := UpperWordStarts(x + y), UpperWordStarts(x) + UpperWordStarts(y);
    forall i | 0 <= i < |x + y|
      ensures l[i] == r[i]
    {
      if i < |x| {
        assert (x + y)[i] == x[i];
        assert i == 0 || (x + y)[i - 1] == x[i - 1];
      } else {
        assert (x + y)[i] == y[i - |x|];
        assert i - |x| == 0 || (x + y)[i - 1] == y[i - |x| - 1];
      }
    }
  }

  /** White space is left as it is. */
  lemma UpperWordStartsSpaces(sp: string)
    requires Blank(sp)
    ensures UpperWordStarts(sp) == sp
  {
  }

  /** A word followed by white space: only the word's first character is
      upper-cased. */
  lemma UpperWordStartsWord(w: string, sp: string)
    requires Solid(w) && Blank(sp)
    ensures UpperWordStarts(w + sp) == UpperFirst(w) + sp
  {
  }

  /** The sanitiser the tests of src/lib/component-utils.test.ts, lines
      36-58, describe: the first letter of each white-space separated word
      is capitalised before `+` is spelled out and everything but letters
      and digits is dropped. */
  function SanitizeWordsName(name: string): (r: string)
    ensures AllAlnum(r)
  {
    SanitizeComponentName(UpperWordStarts(name))
  }

  /** A name without white space whose first character is not a lower-case
      letter is sanitised alike by both sanitisers: the correction changes
      nothing for such names. */
  lemma SanitizeWordsNameAgrees(name: string)
    requires forall i :: 0 <= i < |name| ==> !IsWhiteSpace(name[i])
    requires name == [] || !IsLower(name[0])
    ensures SanitizeWordsName(name) == SanitizeComponentName(name)
  {
    assert UpperWordStarts(name) == name;
  }

  /** The corrected sanitiser spells out `+` and drops other symbols, as
      src/lib/component-utils.test.ts, lines 37-42, expect and as the code
      does. */
  lemma SanitizeWordsNameMeetsTests(plus: string, symbols: string)
    requires plus == "Icon+Name" && symbols == "My@Icon#Name"
    ensures SanitizeWordsName(plus) == "IconPlusName"
    ensures SanitizeWordsName(symbols) == "MyIconName"
  {
    SanitizeWordsNameAgrees(plus);
    SanitizeComponentNameSpellsPlus(plus);
    SanitizeWordsNameAgrees(symbols);
    SanitizeComponentNameDropsSymbols(symbols);
  }

  /** The corrected sanitiser keeps nothing of a name without letters,
      digits or `+` (lines 44-54 of the same tests). */
  lemma SanitizeWordsNameNothingKept(empty: string, special: string, spaces: string)
    requires empty == "" && special == "!@#$%^&*()" && spaces == "     "
    ensures SanitizeWordsName(empty) == "" && SanitizeWordsName(special) == "" && SanitizeWordsName(spaces) == ""
  {
    SanitizeWordsNameAgrees(empty);
    SanitizeWordsNameAgrees(special);
    UpperWordStartsSpaces(spaces);
    SanitizeComponentNameNothingKept(empty, special, spaces);
  }

  /** Leading white space is kept and the text after it is capitalised as
      a name of its own. */
  lemma UpperWordStartsAfterBlank(sp: string, rest: string)
    requires sp != [] && Blank(sp)
    ensures UpperWordStarts(sp + rest) == sp + UpperWordStarts(rest)
  {
  }

  /** A word, white space and then more text: the word's first character
      is upper-cased and the text after the white space is capitalised as a
      name of its own. */
  lemma UpperWordStartsWordThen(w: string, sp: string, rest: string)
    requires Solid(w) && sp != [] && Blank(sp)
    ensures UpperWordStarts(w + sp + rest) == UpperFirst(w) + sp + UpperWordStarts(rest)
  {
    UpperWordStartsAppend(w + sp, rest);
    UpperWordStartsWord(w, sp);
  }

  /** Four words between runs of white space: the first character of
      each word is upper-cased. */
  lemma UpperWordStartsFourWords(lead: string, a: string, b: string, c: string, d: string, sep: string, trail: string)
    requires lead != [] && sep != []
    requires Blank(lead) && Blank(sep) && Blank(trail)
    requires Solid(a) && Solid(b) && Solid(c) && Solid(d)
    ensures UpperWordStarts(lead + (a + sep + (b + sep + (c + sep + (d + trail)))))
         == lead + (UpperFirst(a) + sep + (UpperFirst(b) + sep + (UpperFirst(c) + sep + (UpperFirst(d) + trail))))
  {
    var r3 := c + sep + (d + trail);
    var r2 := b + sep + r3;
    var r1 := a + sep + r2;
    UpperWordStartsWord(d, trail);
    UpperWordStartsWordThen(c, sep, d + trail);
    UpperWordStartsWordThen(b, sep, r3);
    UpperWordStartsWordThen(a, sep, r2);
    UpperWordStartsAfterBlank(lead, r1);
  }

  /** The words of the spaced phrase with their first letters upper-cased. */
  lemma UpperFirstPhraseWords(a: string, b: string, c: string, d: string)
    requires a == "leading" && b == "and" && c == "trailing" && d == "spaces"
    ensures UpperFirst(a) == "Leading" && UpperFirst(b) == "And"
    ensures UpperFirst(c) == "Trailing" && UpperFirst(d) == "Spaces"
  {
  }

  /** White space is a gap: it holds neither `+` nor letters or digits. */
  lemma BlankIsGap(sp: string)
    requires Blank(sp)
    ensures Gap(sp)
  {
  }

  /** Upper-casing the first letter of a word of letters and digits keeps
      it a word of letters and digits. */
  lemma UpperFirstAlnum(w: string)
    requires w != [] && AllAlnum(w)
    ensures Solid(w) && AllAlnum(UpperFirst(w))
  {
  }

  /** The corrected sanitiser on four words of letters and digits between
      runs of white space: the words are joined, each with its first letter
      upper-cased. */
  lemma SanitizeWordsNameFourWords(lead: string, a: string, b: string, c: string, d: string, sep: string, trail: string)
    requires lead != [] && sep != []
    requires Blank(lead) && Blank(sep) && Blank(trail)
    requires a != [] && b != [] && c != [] && d != []
    requires AllAlnum(a) && AllAlnum(b) && AllAlnum(c) && AllAlnum(d)
    ensures SanitizeWordsName(lead + (a + sep + (b + sep + (c + sep + (d + trail)))))
         == UpperFirst(a) + UpperFirst(b) + UpperFirst(c) + UpperFirst(d)
  {
    UpperFirstAlnum(a);
    UpperFirstAlnum(b);
    UpperFirstAlnum(c);
    UpperFirstAlnum(d);
    UpperWordStartsFourWords(lead, a, b, c, d, sep, trail);
    var a', b', c', d' := UpperFirst(a), UpperFirst(b), UpperFirst(c), UpperFirst(d);
    BlankIsGap(lead);
    BlankIsGap(sep);
    BlankIsGap(trail);
    SanitizeComponentNameFourWords(lead, a', b', c', d', sep, trail);
  }

  /** The runs of white space and the words of the spaced phrase. */
  lemma SpacedPhraseShape(lead: string, sep: string, a: string, b: string, c: string, d: string)
    requires lead == "   " && sep == " "
    requires a == "leading" && b == "and" && c == "trailing" && d == "spaces"
    ensures lead != [] && sep != [] && Blank(lead) && Blank(sep) && Spaces(lead) && Spaces(sep)
    ensures a != [] && b != [] && c != [] && d != []
    ensures AllAlnum(a) && AllAlnum(b) && AllAlnum(c) && AllAlnum(d)
  {
  }

  /** The corrected sanitiser turns the spaced phrase of
      src/lib/component-utils.test.ts, line 57, into the expected
      `LeadingAndTrailingSpaces`. */
  lemma SanitizeWordsNameSpacedPhrase(phrase: string)
    requires phrase == "   leading and trailing spaces   "
    ensures SanitizeWordsName(phrase) == "LeadingAndTrailingSpaces"
  {
    var lead, sep, a, b, c, d := "   ", " ", "leading", "and", "trailing", "spaces";
    SpacedPhraseNested(phrase);
    SpacedPhraseShape(lead, sep, a, b, c, d);
    SanitizeWordsNameFourWords(lead, a, b, c, d, sep, lead);
    UpperFirstPhraseWords(a, b, c, d);
    assert "Leading" + "And" + "Trailing" + "Spaces" == "LeadingAndTrailingSpaces";
  }

  // ---------------------------------------------------------------------------
  // sanitizeCategoryName
  // ---------------------------------------------------------------------------

  /** The string without the run of digits it starts with. */
  function StripLeadingDigits(s: string): (r: string)
    ensures |r| <= |s|
    ensures r == [] || !IsDigit(r[0])
  {
    if s != [] && IsDigit(s[0]) then StripLeadingDigits(s[1..]) else s
  }

  /** What `StripLeadingDigits` removes is a run of digits at the front, and
      what it keeps is the rest. */
  lemma {:induction false} StripLeadingDigitsSuffix(s: string)
    ensures var r := StripLeadingDigits(s);
      && r == s[|s| - |r|..]
      && forall i :: 0 <= i < |s| - |r| ==> IsDigit(s[i])
    decreases |s|
  {
    if s != [] && IsDigit(s[0]) {
      StripLeadingDigitsSuffix(s[1..]);
    }
  }

  /** `[\s+]` */
  predicate IsSeparator(c: char) { IsWhiteSpace(c) || c == '+' }

  predicate IsWordChar(c: char) { !IsSeparator(c) }

  /** The length of the longest prefix of `s` whose characters satisfy `p`. */
  function PrefixWhile(s: string, p: char -> bool): (n: nat)
    ensures n <= |s|
    ensures n == |s| || !p(s[n])
  {
    if s != [] && p(s[0]) then 1 + PrefixWhile(s[1..], p) else 0
  }

  /** Every character of the prefix measured by `PrefixWhile` satisfies `p`. */
  lemma {:induction false} PrefixWhileAll(s: string, p: char -> bool)
    ensures forall i :: 0 <= i < PrefixWhile(s, p) ==> p(s[i])
  {
    if s != [] && p(s[0]) {
      PrefixWhileAll(s[1..], p);
    }
  }

  lemma WordCharIgnoresCase(c: char)
    ensures IsWordChar(ToLower(c)) == IsWordChar(c)
  {
  }

  lemma AlnumIsWordChar(c: char)
    ensures IsAlnum(c) ==> IsWordChar(c)
  {
  }

  /** The split at runs of white space and plus signs: the maximal separator-free pieces of `s`, with an
      empty first (last) piece when `s` starts (ends) with a separator. */
  function Words(s: string): (ws: seq<string>)
    ensures |ws| >= 1
    decreases |s|
  {
    var n := PrefixWhile(s, IsWordChar);
    if n == |s| then [s]
    else
      var rest := s[n..];
      [s[..n]] + Words(rest[PrefixWhile(rest, IsSeparator)..])
  }

  /** Joining the words of the split gives back the input without its
      separators. */
  lemma {:induction false} WordsConcat(s: string)
    ensures Concat(Words(s)) == Filter(s, IsWordChar)
    decreases |s|
  {
    var n := PrefixWhile(s, IsWordChar);
    PrefixWhileAll(s, IsWordChar);
    if n == |s| {
      FilterKeepsAll(s, IsWordChar);
      assert Words(s) == [s];
      assert Concat([s]) == s + Concat([]);
    } else {
      var rest := s[n..];
      var m := PrefixWhile(rest, IsSeparator);
      var next := rest[m..];
      var ws := Words(s);
      assert ws == [s[..n]] + Words(next);
      assert s == s[..n] + rest[..m] + next;
      assert ws[0] == s[..n] && ws[1..] == Words(next);
      calc {
        Concat(ws);
        ws[0] + Concat(ws[1..]);
        s[..n] + Concat(Words(next));
        { WordsConcat(next); }
        s[..n] + Filter(next, IsWordChar);
        { PrefixWhileAll(rest, IsSeparator);
          FilterAcross(s[..n], rest[..m], next, IsWordChar); }
        Filter(s, IsWordChar);
      }
    }
  }

  /** No word of the split holds a separator, and only the first and the
      last word can be empty (when the input starts or ends with a
      separator). */
  lemma {:induction false} WordsShape(s: string)
    ensures forall k :: 0 <= k < |Words(s)| ==> NoSeparator(Words(s)[k])
    ensures forall k :: 0 < k < |Words(s)| - 1 ==> Words(s)[k] != []
    ensures s != [] && IsWordChar(s[0]) ==> Words(s)[0] != []
    decreases |s|
  {
    var n := PrefixWhile(s, IsWordChar);
    PrefixWhileAll(s, IsWordChar);
    if n == |s| {
      assert Words(s) == [s];
    } else {
      var rest := s[n..];
      var next := rest[PrefixWhile(rest, IsSeparator)..];
      WordsShape(next);
      var ws := Words(s);
      assert ws == [s[..n]] + Words(next);
      assert forall k :: 0 < k < |ws| ==> ws[k] == Words(next)[k - 1];
      assert next == [] || IsWordChar(next[0]);
    }
  }

  predicate NoSeparator(w: string) {
    forall i :: 0 <= i < |w| ==> IsWordChar(w[i])
  }

  /** Upper-cases the first character of a word and lower-cases the rest. */
  function Capitalize(w: string): (r: string)
    ensures |r| == |w|
  {
    if w == [] then [] else [ToUpper(w[0])] + LowerAll(w[1..])
  }

  /** A word whose tail is already lower case is capitalised in place. */
  lemma CapitalizeLowerTail(w: string)
    requires w != [] && forall i :: 1 <= i < |w| ==> !IsUpper(w[i])
    ensures Capitalize(w) == [ToUpper(w[0])] + w[1..]
  {
    assert LowerAll(w[1..]) == w[1..];
  }

  function CapitalizeEach(ws: seq<string>): (r: seq<string>)
    ensures |r| == |ws|
  {
    seq(|ws|, i requires 0 <= i < |ws| => Capitalize(ws[i]))
  }

  /** The words, each capitalised, joined, keeping only letters and digits. */
  function PascalCase(s: string): (r: string)
    ensures AllAlnum(r)
  {
    StripNonAlnum(Concat(CapitalizeEach(Words(s))))
  }

  /** The identifier of a raw category. */
  function SanitizeCategoryName(category: string): (r: string)
    ensures AllAlnum(r)
  {
    PascalCase(StripLeadingDigits(category))
  }

  /** Lower-casing commutes with a filter that ignores case. */
  lemma {:induction false} LowerAllFilter(s: string, p: char -> bool)
    requires forall i :: 0 <= i < |s| ==> p(ToLower(s[i])) == p(s[i])
    ensures LowerAll(Filter(s, p)) == Filter(LowerAll(s), p)
  {
    if s != [] {
      LowerAllFilter(s[1..], p);
      assert LowerAll(s) == [ToLower(s[0])] + LowerAll(s[1..]);
      var head := if p(s[0]) then [s[0]] else [];
      assert LowerAll(head + Filter(s[1..], p)) == LowerAll(head) + LowerAll(Filter(s[1..], p));
    }
  }

  lemma {:induction false} LowerAllConcatCapitalized(ws: seq<string>)
    ensures LowerAll(Concat(CapitalizeEach(ws))) == LowerAll(Concat(ws))
  {
    if ws != [] {
      var cs := CapitalizeEach(ws);
      assert cs[0] == Capitalize(ws[0]) && cs[1..] == CapitalizeEach(ws[1..]);
      LowerAllConcatCapitalized(ws[1..]);
      LowerAllAppend(cs[0], Concat(cs[1..]));
      LowerAllAppend(ws[0], Concat(ws[1..]));
    }
  }

  /** Up to case, the category identifier is exactly the letters and digits
      of the category after its leading number, in order: splitting and
      joining only remove separators, which are never letters or digits. */
  lemma CategoryNameLetters(category: string)
    ensures LowerAll(SanitizeCategoryName(category)) == StripNonAlnum(LowerAll(StripLeadingDigits(category)))
  {
    var t := StripLeadingDigits(category);
    var ws := Words(t);
    var joined := Concat(CapitalizeEach(ws));
    forall i | 0 <= i < |t| ensures IsWordChar(ToLower(t[i])) == IsWordChar(t[i]) {
      WordCharIgnoresCase(t[i]);
    }
    forall i | 0 <= i < |LowerAll(t)| ensures IsAlnum(LowerAll(t)[i]) == (IsWordChar(LowerAll(t)[i]) && IsAlnum(LowerAll(t)[i])) {
      AlnumIsWordChar(LowerAll(t)[i]);
    }
    calc {
      LowerAll(SanitizeCategoryName(category));
      LowerAll(Filter(joined, IsAlnum));
      { LowerAllFilter(joined, IsAlnum); }
      Filter(LowerAll(joined), IsAlnum);
      { LowerAllConcatCapitalized(ws); }
      Filter(LowerAll(Concat(ws)), IsAlnum);
      { WordsConcat(t); }
      Filter(LowerAll(Filter(t, IsWordChar)), IsAlnum);
      { LowerAllFilter(t, IsWordChar); }
      Filter(Filter(LowerAll(t), IsWordChar), IsAlnum);
      { FilterFilter(LowerAll(t), IsWordChar, IsAlnum, IsAlnum); }
      Filter(LowerAll(t), IsAlnum);
    }
  }

  /** The category identifier is empty exactly when nothing after the
      category's leading number is a letter or a digit. */
  lemma CategoryNameEmpty(category: string)
    ensures SanitizeCategoryName(category) == []
        <==> forall i :: 0 <= i < |StripLeadingDigits(category)| ==> !IsAlnum(StripLeadingDigits(category)[i])
  {
    var t := StripLeadingDigits(category);
    var lowered := LowerAll(t);
    CategoryNameLetters(category);
    assert |SanitizeCategoryName(category)| == |Filter(lowered, IsAlnum)|;
    if forall i :: 0 <= i < |t| ==> !IsAlnum(t[i]) {
      FilterDropsAll(lowered, IsAlnum);
    } else {
      var i :| 0 <= i < |t| && IsAlnum(t[i]);
      FilterKeeps(lowered, IsAlnum, i);
    }
  }

  lemma {:induction false} PrefixWhileAppend(a: string, b: string, p: char -> bool)
    requires forall i :: 0 <= i < |a| ==> p(a[i])
    requires b == [] || !p(b[0])
    ensures PrefixWhile(a + b, p) == |a|
  {
    if a != [] {
      assert (a + b)[1..] == a[1..] + b;
      PrefixWhileAppend(a[1..], b, p);
    }
  }

  /** A word followed by a run of separators splits off as the first word
      of the split. */
  lemma WordsAppend(a: string, sep: string, b: string)
    requires NoSeparator(a)
    requires sep != [] && forall i :: 0 <= i < |sep| ==> IsSeparator(sep[i])
    requires b == [] || IsWordChar(b[0])
    ensures Words(a + sep + b) == [a] + Words(b)
  {
    var s := a + sep + b;
    assert s == a + (sep + b);
    PrefixWhileAppend(a, sep + b, IsWordChar);
    assert s[..|a|] == a && s[|a|..] == sep + b;
    PrefixWhileAppend(sep, b, IsSeparator);
    assert (sep + b)[|sep|..] == b;
  }

  /** A separator-free string is its own single word. */
  lemma PascalCaseWord(a: string)
    requires NoSeparator(a)
    ensures PascalCase(a) == StripNonAlnum(Capitalize(a))
  {
    assert PrefixWhile(a, IsWordChar) == |a| by {
      PrefixWhileAppend(a, [], IsWordChar);
      assert a + [] == a;
    }
    assert Words(a) == [a];
    var caps := CapitalizeEach([a]);
    assert caps == [Capitalize(a)];
    assert Concat(caps) == Capitalize(a) + Concat(caps[1..]);
    assert caps[1..] == [];
    assert Concat(caps) == Capitalize(a);
    assert PascalCase(a) == StripNonAlnum(Concat(CapitalizeEach(Words(a))));
  }

  /** Joining after the split: a word, a run of separators (white space or
      `+`, however long) and the rest contribute their parts in order, so
      runs of separators merge and leading or trailing ones vanish. */
  lemma PascalCaseAppend(a: string, sep: string, b: string)
    requires NoSeparator(a)
    requires sep != [] && forall i :: 0 <= i < |sep| ==> IsSeparator(sep[i])
    requires b == [] || IsWordChar(b[0])
    ensures PascalCase(a + sep + b) == PascalCase(a) + PascalCase(b)
  {
    WordsAppend(a, sep, b);
    CapitalizeEachCons(a, Words(b));
    ConcatCons(Capitalize(a), CapitalizeEach(Words(b)));
    FilterAppend(Capitalize(a), Concat(CapitalizeEach(Words(b))), IsAlnum);
    PascalCaseWord(a);
  }

  lemma CapitalizeEachCons(w: string, ws: seq<string>)
    ensures CapitalizeEach([w] + ws) == [Capitalize(w)] + CapitalizeEach(ws)
  {
  }

  lemma ConcatCons(x: string, xs: seq<string>)
    ensures Concat([x] + xs) == x + Concat(xs)
  {
    assert ([x] + xs)[1..] == xs;
  }

  /** A letters-and-digits word whose tail is already lower case is
      capitalised in place. */
  lemma PascalCaseLowerWord(a: string)
    requires a != [] && AllAlnum(a)
    requires forall i :: 1 <= i < |a| ==> !IsUpper(a[i])
    ensures PascalCase(a) == [ToUpper(a[0])] + a[1..]
  {
    forall i | 0 <= i < |a| ensures IsWordChar(a[i]) {
      AlnumIsWordChar(a[i]);
    }
    PascalCaseWord(a);
    assert LowerAll(a[1..]) == a[1..];
    FilterKeepsAll(Capitalize(a), IsAlnum);
  }

  lemma {:induction false} StripLeadingDigitsAppend(d: string, s: string)
    requires forall i :: 0 <= i < |d| ==> IsDigit(d[i])
    requires s == [] || !IsDigit(s[0])
    ensures StripLeadingDigits(d + s) == s
  {
    if d != [] {
      assert (d + s)[1..] == d[1..] + s;
      StripLeadingDigitsAppend(d[1..], s);
    }
  }

  lemma PascalCaseEmpty()
    ensures PascalCase("") == ""
  {
    PascalCaseWord("");
  }

  /** A run of spaces and plus signs, possibly empty. */
  predicate Spaces(sep: string) {
    forall i :: 0 <= i < |sep| ==> sep[i] == ' ' || sep[i] == '+'
  }

  /** A word of letters and digits whose tail is already lower case. */
  predicate LowerTail(w: string) {
    w != [] && AllAlnum(w) && forall i :: 1 <= i < |w| ==> !IsUpper(w[i])
  }

  /** PascalCaseAppend for a letters-and-digits word and a run of spaces and
      plus signs. */
  lemma PascalCaseJoin(a: string, sep: string, b: string)
    requires AllAlnum(a)
    requires sep != [] && Spaces(sep)
    requires b == [] || IsAlnum(b[0])
    ensures PascalCase(a + sep + b) == PascalCase(a) + PascalCase(b)
  {
    forall i | 0 <= i < |a| ensures IsWordChar(a[i]) {
      AlnumIsWordChar(a[i]);
    }
    if b != [] {
      AlnumIsWordChar(b[0]);
    }
    PascalCaseAppend(a, sep, b);
  }

  /** Two lower-tailed words joined by a run of spaces and plus signs are
      each capitalised and joined. */
  lemma PascalCaseTwoWords(a: string, sep: string, b: string)
    requires LowerTail(a) && sep != [] && Spaces(sep) && LowerTail(b)
    ensures PascalCase(a + sep + b) == [ToUpper(a[0])] + a[1..] + [ToUpper(b[0])] + b[1..]
  {
    PascalCaseJoin(a, sep, b);
    PascalCaseLowerWord(a);
    PascalCaseLowerWord(b);
  }

  /** A numbered category of two words: the number and the separators go,
      each word is capitalised and the words are joined. */
  lemma SanitizeCategoryNameTwoWords(number: string, lead: string, a: string, sep: string, b: string)
    requires forall i :: 0 <= i < |number| ==> IsDigit(number[i])
    requires Spaces(lead) && LowerTail(a) && sep != [] && Spaces(sep) && LowerTail(b)
    requires lead != [] || !IsDigit(a[0])
    ensures SanitizeCategoryName(number + lead + a + sep + b) == [ToUpper(a[0])] + a[1..] + [ToUpper(b[0])] + b[1..]
  {
    var words := a + sep + b;
    assert number + lead + a + sep + b == number + lead + words;
    assert words[0] == a[0];
    StripNumberLead(number, lead, words);
    PascalCaseDropsLead(lead, words);
    PascalCaseTwoWords(a, sep, b);
  }

  /** The leading number goes; a run of spaces after it stays. */
  lemma StripNumberLead(number: string, lead: string, words: string)
    requires forall i :: 0 <= i < |number| ==> IsDigit(number[i])
    requires Spaces(lead) && words != []
    requires lead != [] || !IsDigit(words[0])
    ensures StripLeadingDigits(number + lead + words) == lead + words
  {
    assert number + lead + words == number + (lead + words);
    assert (lead + words)[0] == if lead != [] then lead[0] else words[0];
    StripLeadingDigitsAppend(number, lead + words);
  }

  /** Leading spaces and plus signs contribute nothing. */
  lemma PascalCaseDropsLead(lead: string, words: string)
    requires Spaces(lead)
    requires words == [] || IsAlnum(words[0])
    ensures PascalCase(lead + words) == PascalCase(words)
  {
    if lead != [] {
      assert lead + words == [] + lead + words;
      PascalCaseJoin([], lead, words);
      PascalCaseEmpty();
    } else {
      assert lead + words == words;
    }
  }

  /** A word of letters and digits is capitalised and nothing else. */
  lemma PascalCaseAlnumWord(w: string)
    requires AllAlnum(w)
    ensures PascalCase(w) == Capitalize(w)
  {
    forall i | 0 <= i < |w| ensures IsWordChar(w[i]) {
      AlnumIsWordChar(w[i]);
    }
    PascalCaseWord(w);
    assert AllAlnum(Capitalize(w)) by {
      forall i | 0 <= i < |w| ensures IsAlnum(Capitalize(w)[i]) {
        assert ToLower(Capitalize(w)[i]) == ToLower(w[i]);
      }
    }
    FilterKeepsAll(Capitalize(w), IsAlnum);
  }

  /** A single word is capitalised: its first character is upper-cased and
      every later one lower-cased. */
  lemma SanitizeCategoryNameOneWord(w: string)
    requires w != [] && AllAlnum(w) && !IsDigit(w[0])
    ensures SanitizeCategoryName(w) == [ToUpper(w[0])] + LowerAll(w[1..])
  {
    assert StripLeadingDigits(w) == w by {
      assert [] + w == w;
      StripLeadingDigitsAppend([], w);
    }
    PascalCaseAlnumWord(w);
  }

  /** A capitalised word of letters and digits is its own identifier. */
  lemma SanitizeCategoryNameKeepsCapitalWord(w: string)
    requires LowerTail(w) && IsUpper(w[0])
    ensures SanitizeCategoryName(w) == w
  {
    SanitizeCategoryNameOneWord(w);
    assert LowerAll(w[1..]) == w[1..];
  }

  /** An identifier with a capital after its first character is changed by
      sanitising it again. */
  lemma SanitizeCategoryNameLowersInnerCapital(x: string, k: nat)
    requires AllAlnum(x) && 0 < k < |x| && !IsDigit(x[0]) && IsUpper(x[k])
    ensures SanitizeCategoryName(x) != x
  {
    SanitizeCategoryNameOneWord(x);
    assert SanitizeCategoryName(x)[k] == ToLower(x[k]);
  }

  /** Where the capitals of two joined capitalised words sit. */
  lemma JoinedCapitals(a: string, b: string, y: string)
    requires a != [] && b != []
    requires y == [ToUpper(a[0])] + a[1..] + [ToUpper(b[0])] + b[1..]
    ensures 0 < |a| < |y| && y[0] == ToUpper(a[0]) && y[|a|] == ToUpper(b[0])
  {
  }

  /** Sanitising is not idempotent: a second pass sees the joined words as
      one word and lower-cases the capitals of all but the first. */
  lemma SanitizeCategoryNameNotIdempotent(a: string, sep: string, b: string)
    requires LowerTail(a) && !IsDigit(a[0]) && sep != [] && Spaces(sep) && LowerTail(b) && IsLower(b[0])
    ensures SanitizeCategoryName(SanitizeCategoryName(a + sep + b)) != SanitizeCategoryName(a + sep + b)
  {
    var words := a + sep + b;
    var x := SanitizeCategoryName(words);
    assert StripLeadingDigits(words) == words by {
      assert [] + words == words;
      StripLeadingDigitsAppend([], words);
    }
    PascalCaseTwoWords(a, sep, b);
    JoinedCapitals(a, b, x);
    SanitizeCategoryNameLowersInnerCapital(x, |a|);
  }

  // The test values below are proved in small steps: each string literal is
  // a parameter pinned by a `requires`, and cutting it into words is a
  // lemma of its own, so that no proof has to unfold a long literal.

  /** The leading number goes, and so does the space after it
      (src/lib/component-utils.test.ts, line 6): `01 My Category` becomes
      `MyCategory`. */
  lemma SanitizeCategoryNameDropsNumber(category: string)
    requires category == "01 My Category"
    ensures SanitizeCategoryName(category) == "MyCategory"
  {
    var number, space, a, b := "01", " ", "My", "Category";
    DropsNumberParts(category, number, space, a, b);
    DropsNumberJoined(a, b);
    SanitizeCategoryNameTwoWords(number, space, a, space, b);
  }

  /** `01 My Category` cut into its number, words and spaces. */
  lemma DropsNumberParts(category: string, number: string, space: string, a: string, b: string)
    requires category == "01 My Category" && number == "01" && space == " " && a == "My" && b == "Category"
    ensures category == number + space + a + space + b
    ensures forall i :: 0 <= i < |number| ==> IsDigit(number[i])
    ensures LowerTail(a) && LowerTail(b) && space != [] && Spaces(space)
  {
  }

  /** The words of `01 My Category`, each with its first letter upper-cased,
      joined. */
  lemma DropsNumberJoined(a: string, b: string)
    requires a == "My" && b == "Category"
    ensures [ToUpper(a[0])] + a[1..] + [ToUpper(b[0])] + b[1..] == "MyCategory"
  {
  }

  /** `multiple   spaces` cut into its words and spaces. */
  lemma MergesSpacesParts(category: string, a: string, spaces: string, b: string)
    requires category == "multiple   spaces" && a == "multiple" && spaces == "   " && b == "spaces"
    ensures category == [] + [] + a + spaces + b
    ensures LowerTail(a) && LowerTail(b) && spaces != [] && Spaces(spaces)
  {
  }

  /** The words of `multiple   spaces`, each with its first letter
      upper-cased, joined. */
  lemma MergesSpacesJoined(a: string, b: string)
    requires a == "multiple" && b == "spaces"
    ensures [ToUpper(a[0])] + a[1..] + [ToUpper(b[0])] + b[1..] == "MultipleSpaces"
  {
  }

  /** Runs of spaces merge and each word is capitalised (line 11):
      `multiple   spaces` becomes `MultipleSpaces`. */
  lemma SanitizeCategoryNameMergesSpaces(category: string)
    requires category == "multiple   spaces"
    ensures SanitizeCategoryName(category) == "MultipleSpaces"
  {
    var a, spaces, b := "multiple", "   ", "spaces";
    MergesSpacesParts(category, a, spaces, b);
    MergesSpacesJoined(a, b);
    SanitizeCategoryNameTwoWords([], [], a, spaces, b);
  }

  /** The four categories of lines 15, 19, 23 and 27 that leave nothing:
      the empty category, only punctuation, only a number, only spaces. */
  lemma SanitizeCategoryNameNothingKept(empty: string, symbols: string, number: string, spaces: string)
    requires empty == "" && symbols == "!@#$%^&*()" && number == "123456" && spaces == "     "
    ensures SanitizeCategoryName(empty) == ""
    ensures SanitizeCategoryName(symbols) == ""
    ensures SanitizeCategoryName(number) == ""
    ensures SanitizeCategoryName(spaces) == ""
  {
    PascalCaseEmpty();
    NothingAlnumKept(symbols);
    StripLeadingDigitsAppend(number, []);
    assert number + [] == number;
    NothingAlnumKept(spaces);
  }

  /** A category with no digit in front and no letter or digit anywhere
      leaves nothing. */
  lemma NothingAlnumKept(category: string)
    requires forall i :: 0 <= i < |category| ==> !IsAlnum(category[i])
    ensures SanitizeCategoryName(category) == ""
  {
    assert category == [] || !IsDigit(category[0]);
    assert StripLeadingDigits(category) == category;
    CategoryNameEmpty(category);
  }

  /** Words, each followed by its own run of separators:
      `ws[0] + seps[0] + ws[1] + seps[1] + …`. */
  function Spaced(ws: seq<string>, seps: seq<string>): string
    requires |seps| == |ws|
  {
    if ws == [] then [] else ws[0] + seps[0] + Spaced(ws[1..], seps[1..])
  }

  /** The shape `Spaced` is read with: non-empty separator-free words, each
      run of spaces and plus signs non-empty except possibly the last. */
  predicate WellSpaced(ws: seq<string>, seps: seq<string>) {
    && |seps| == |ws| > 0
    && (forall k :: 0 <= k < |ws| ==> ws[k] != [] && NoSeparator(ws[k]))
    && (forall k :: 0 <= k < |seps| ==> Spaces(seps[k]))
    && (forall k :: 0 <= k < |seps| - 1 ==> seps[k] != [])
  }

  /** A word on its own is its own split. */
  lemma WordsOfWord(w: string)
    requires NoSeparator(w)
    ensures Words(w) == [w]
  {
    PrefixWhileAppend(w, [], IsWordChar);
    assert w + [] == w;
  }

  /** Spaces and plus signs are separators. */
  lemma SpacesSeparate(sep: string)
    requires Spaces(sep)
    ensures forall i :: 0 <= i < |sep| ==> IsSeparator(sep[i])
  {
  }

  /** The empty last word that trailing separators leave behind. */
  function Trailer(sep: string): seq<string> {
    if sep == [] then [] else [[]]
  }

  /** Peeling the first word off a well-spaced string. */
  lemma WellSpacedTail(ws: seq<string>, seps: seq<string>)
    requires WellSpaced(ws, seps) && |ws| > 1
    ensures WellSpaced(ws[1..], seps[1..])
    ensures Spaced(ws, seps) == ws[0] + seps[0] + Spaced(ws[1..], seps[1..])
    ensures seps[0] != [] && Spaced(ws[1..], seps[1..])[0] == ws[1][0]
    ensures NoSeparator(ws[0]) && Spaces(seps[0]) && IsWordChar(Spaced(ws[1..], seps[1..])[0])
  {
    var tail := Spaced(ws[2..], seps[2..]);
    assert ws[1..][1..] == ws[2..] && seps[1..][1..] == seps[2..];
    assert Spaced(ws[1..], seps[1..]) == ws[1] + seps[1] + tail;
  }

  /** A single word followed by its run of separators. */
  lemma WordsSpacedOne(w: string, sep: string)
    requires w != [] && NoSeparator(w) && Spaces(sep)
    ensures Words(w + sep) == [w] + Trailer(sep)
  {
    if sep == [] {
      assert w + sep == w;
      WordsOfWord(w);
    } else {
      assert w + sep + [] == w + sep;
      WordsAppend(w, sep, []);
      WordsOfWord([]);
    }
  }

  /** The split recovers the words, with an empty last word when separators
      trail. */
  lemma {:induction false} WordsSpaced(ws: seq<string>, seps: seq<string>)
    requires WellSpaced(ws, seps)
    ensures Words(Spaced(ws, seps)) == ws + Trailer(seps[|ws| - 1])
  {
    if |ws| == 1 {
      WordsSpacedLast(ws, seps);
    } else {
      WellSpacedTail(ws, seps);
      WordsSpaced(ws[1..], seps[1..]);
      WordsSpacedStep(ws, seps);
    }
  }

  /** The last word of a well-spaced string and its run of separators. */
  lemma WordsSpacedLast(ws: seq<string>, seps: seq<string>)
    requires WellSpaced(ws, seps) && |ws| == 1
    ensures Words(Spaced(ws, seps)) == ws + Trailer(seps[0])
  {
    assert Spaced(ws, seps) == ws[0] + seps[0] + Spaced([], []);
    assert ws[0] + seps[0] + [] == ws[0] + seps[0];
    WordsSpacedOne(ws[0], seps[0]);
  }

  /** The first word of a well-spaced string splits off in front of the
      split of the rest. */
  lemma WordsSpacedStep(ws: seq<string>, seps: seq<string>)
    requires WellSpaced(ws, seps) && |ws| > 1
    requires Words(Spaced(ws[1..], seps[1..])) == ws[1..] + Trailer(seps[|ws| - 1])
    ensures Words(Spaced(ws, seps)) == ws + Trailer(seps[|ws| - 1])
  {
    var rest := Spaced(ws[1..], seps[1..]);
    var trailer := Trailer(seps[|ws| - 1]);
    WellSpacedTail(ws, seps);
    WordsSplitOff(ws[0], seps[0], rest);
    assert Words(Spaced(ws, seps)) == [ws[0]] + (ws[1..] + trailer);
    assert [ws[0]] + (ws[1..] + trailer) == ([ws[0]] + ws[1..]) + trailer;
    assert [ws[0]] + ws[1..] == ws;
  }

  /** A word and a non-empty run of spaces and plus signs in front of a
      word split off as the first word. */
  lemma WordsSplitOff(a: string, sep: string, rest: string)
    requires NoSeparator(a) && sep != [] && Spaces(sep)
    requires rest != [] && IsWordChar(rest[0])
    ensures Words(a + sep + rest) == [a] + Words(rest)
  {
    SpacesSeparate(sep);
    WordsAppend(a, sep, rest);
  }

  /** An empty last word contributes nothing to the joined words. */
  lemma {:induction false} ConcatCapitalizedEmptyLast(ws: seq<string>)
    ensures Concat(CapitalizeEach(ws + [[]])) == Concat(CapitalizeEach(ws))
  {
    if ws == [] {
      var none: seq<string> := [[]];
      assert CapitalizeEach(none) == none;
      assert Concat(none) == "" + Concat(none[1..]);
    } else {
      CapitalizeEachCons(ws[0], ws[1..] + [[]]);
      assert ws + [[]] == [ws[0]] + (ws[1..] + [[]]);
      ConcatCons(Capitalize(ws[0]), CapitalizeEach(ws[1..] + [[]]));
      ConcatCapitalizedEmptyLast(ws[1..]);
      assert ws == [ws[0]] + ws[1..];
      CapitalizeEachCons(ws[0], ws[1..]);
      ConcatCons(Capitalize(ws[0]), CapitalizeEach(ws[1..]));
    }
  }

  /** The words of a well-spaced string are capitalised and joined, and
      what is not a letter or a digit is dropped. */
  lemma PascalCaseSpaced(ws: seq<string>, seps: seq<string>)
    requires WellSpaced(ws, seps)
    ensures PascalCase(Spaced(ws, seps)) == StripNonAlnum(Concat(CapitalizeEach(ws)))
  {
    WordsSpaced(ws, seps);
    if seps[|ws| - 1] != [] {
      ConcatCapitalizedEmptyLast(ws);
    } else {
      assert ws + Trailer(seps[|ws| - 1]) == ws;
    }
  }

  /** A category made of a number, a run of spaces, and words separated by
      runs of spaces and plus signs: the words are capitalised and joined,
      and what is not a letter or a digit is dropped. */
  lemma SanitizeCategoryNameSpaced(number: string, lead: string, ws: seq<string>, seps: seq<string>)
    requires forall i :: 0 <= i < |number| ==> IsDigit(number[i])
    requires Spaces(lead) && WellSpaced(ws, seps) && IsAlnum(ws[0][0])
    requires lead != [] || !IsDigit(ws[0][0])
    ensures SanitizeCategoryName(number + lead + Spaced(ws, seps)) == StripNonAlnum(Concat(CapitalizeEach(ws)))
  {
    var words := Spaced(ws, seps);
    assert words == ws[0] + seps[0] + Spaced(ws[1..], seps[1..]);
    assert words[0] == ws[0][0];
    StripNumberLead(number, lead, words);
    PascalCaseDropsLead(lead, words);
    PascalCaseSpaced(ws, seps);
  }

  /** Capitalising keeps a word of letters and digits one. */
  lemma CapitalizeAlnum(w: string)
    requires AllAlnum(w)
    ensures AllAlnum(Capitalize(w))
  {
  }

  /** Joined capitalised words of letters and digits. */
  lemma {:induction false} ConcatCapitalizedAlnum(ws: seq<string>)
    requires forall k :: 0 <= k < |ws| ==> AllAlnum(ws[k])
    ensures AllAlnum(Concat(CapitalizeEach(ws)))
  {
    if ws != [] {
      CapitalizeEachCons(ws[0], ws[1..]);
      assert ws == [ws[0]] + ws[1..];
      ConcatCons(Capitalize(ws[0]), CapitalizeEach(ws[1..]));
      CapitalizeAlnum(ws[0]);
      ConcatCapitalizedAlnum(ws[1..]);
    }
  }

  /** With words of letters and digits only, nothing is dropped: the
      identifier is the capitalised words, joined. */
  lemma SanitizeCategoryNameAlnumWords(number: string, lead: string, ws: seq<string>, seps: seq<string>)
    requires forall i :: 0 <= i < |number| ==> IsDigit(number[i])
    requires Spaces(lead) && WellSpaced(ws, seps) && IsAlnum(ws[0][0])
    requires lead != [] || !IsDigit(ws[0][0])
    requires forall k :: 0 <= k < |ws| ==> AllAlnum(ws[k])
    ensures SanitizeCategoryName(number + lead + Spaced(ws, seps)) == Concat(CapitalizeEach(ws))
  {
    SanitizeCategoryNameSpaced(number, lead, ws, seps);
    ConcatCapitalizedAlnum(ws);
    FilterKeepsAll(Concat(CapitalizeEach(ws)), IsAlnum);
  }

  /** A number, a run of spaces and three words separated by runs of
      spaces and plus signs: the words are capitalised and joined, and what
      is not a letter or a digit is dropped from the last. */
  lemma SanitizeCategoryNameThreeWords(number: string, lead: string, a: string, s1: string, b: string, s2: string, c: string)
    requires forall i :: 0 <= i < |number| ==> IsDigit(number[i])
    requires a != [] && AllAlnum(a) && b != [] && AllAlnum(b)
    requires c != [] && NoSeparator(c) && IsAlnum(c[0])
    requires Spaces(lead) && (lead != [] || !IsDigit(a[0]))
    requires s1 != [] && Spaces(s1) && s2 != [] && Spaces(s2)
    ensures SanitizeCategoryName(number + lead + (a + s1 + (b + s2 + c)))
         == Capitalize(a) + Capitalize(b) + StripNonAlnum(Capitalize(c))
  {
    var r2 := b + s2 + c;
    var words := a + s1 + r2;
    assert words[0] == a[0] && r2[0] == b[0];
    StripNumberLead(number, lead, words);
    PascalCaseDropsLead(lead, words);
    PascalCaseJoin(a, s1, r2);
    PascalCaseJoin(b, s2, c);
    PascalCaseAlnumWord(a);
    PascalCaseAlnumWord(b);
    PascalCaseWord(c);
  }

  /** A word of letters and digits, a run of spaces and plus signs and
      then more words: the word is capitalised in front of the rest. */
  lemma PascalCaseAlnumThen(a: string, sep: string, rest: string)
    requires AllAlnum(a) && sep != [] && Spaces(sep)
    requires rest != [] && IsAlnum(rest[0])
    ensures PascalCase(a + sep + rest) == Capitalize(a) + PascalCase(rest)
  {
    PascalCaseJoin(a, sep, rest);
    PascalCaseAlnumWord(a);
  }

  /** A word of letters and digits and a trailing run of spaces and plus
      signs: the word is capitalised and the run vanishes. */
  lemma PascalCaseAlnumLast(d: string, trail: string)
    requires AllAlnum(d) && trail != [] && Spaces(trail)
    ensures PascalCase(d + trail) == Capitalize(d)
  {
    assert d + trail == d + trail + [];
    PascalCaseJoin(d, trail, []);
    PascalCaseEmpty();
    PascalCaseAlnumWord(d);
  }

  /** A category that starts with a run of spaces and then a letter or a
      digit: the spaces vanish. */
  lemma SanitizeCategoryNameAfterLead(lead: string, words: string)
    requires lead != [] && Spaces(lead)
    requires words != [] && IsAlnum(words[0])
    ensures SanitizeCategoryName(lead + words) == PascalCase(words)
  {
    PascalCaseDropsLead(lead, words);
    assert [] + lead + words == lead + words;
    StripNumberLead([], lead, words);
  }

  /** Four words of letters and digits separated by runs of spaces: the
      words are capitalised and joined. */
  lemma PascalCaseFourWords(a: string, b: string, c: string, d: string, sep: string, trail: string)
    requires sep != [] && Spaces(sep) && trail != [] && Spaces(trail)
    requires b != [] && c != [] && d != []
    requires AllAlnum(a) && AllAlnum(b) && AllAlnum(c) && AllAlnum(d)
    ensures PascalCase(a + sep + (b + sep + (c + sep + (d + trail))))
         == Capitalize(a) + (Capitalize(b) + (Capitalize(c) + Capitalize(d)))
  {
    var r4 := d + trail;
    var r3 := c + sep + r4;
    var r2 := b + sep + r3;
    PascalCaseAlnumLast(d, trail);
    assert r4[0] == d[0];
    PascalCaseAlnumThen(c, sep, r4);
    assert r3[0] == c[0];
    PascalCaseAlnumThen(b, sep, r3);
    assert r2[0] == b[0];
    PascalCaseAlnumThen(a, sep, r2);
  }

  /** Four words of letters and digits between runs of spaces: the words
      are capitalised and joined. */
  lemma SanitizeCategoryNameFourWords(lead: string, a: string, b: string, c: string, d: string, sep: string, trail: string)
    requires lead != [] && Spaces(lead) && sep != [] && Spaces(sep) && trail != [] && Spaces(trail)
    requires a != [] && b != [] && c != [] && d != []
    requires AllAlnum(a) && AllAlnum(b) && AllAlnum(c) && AllAlnum(d)
    ensures SanitizeCategoryName(lead + (a + sep + (b + sep + (c + sep + (d + trail)))))
         == Capitalize(a) + (Capitalize(b) + (Capitalize(c) + Capitalize(d)))
  {
    var words := a + sep + (b + sep + (c + sep + (d + trail)));
    PascalCaseFourWords(a, b, c, d, sep, trail);
    assert words[0] == a[0];
    SanitizeCategoryNameAfterLead(lead, words);
  }

  // The test values below are proved in small steps: each string literal is
  // a parameter pinned by a `requires`, and cutting it into words is a
  // lemma of its own, so that no proof has to unfold a long literal.

  /** The words of the spaced phrase, capitalised. */
  lemma CapitalizedPhraseWords(a: string, b: string, c: string, d: string)
    requires a == "leading" && b == "and" && c == "trailing" && d == "spaces"
    ensures Capitalize(a) + (Capitalize(b) + (Capitalize(c) + Capitalize(d))) == "LeadingAndTrailingSpaces"
  {
    CapitalizeLowerTail(a);
    CapitalizeLowerTail(b);
    CapitalizeLowerTail(c);
    CapitalizeLowerTail(d);
    UpperFirstPhraseWords(a, b, c, d);
    CapitalizedPhraseJoined("Leading", "And", "Trailing", "Spaces");
  }

  /** The capitalised words of the spaced phrase, joined. */
  lemma CapitalizedPhraseJoined(a: string, b: string, c: string, d: string)
    requires a == "Leading" && b == "And" && c == "Trailing" && d == "Spaces"
    ensures a + (b + (c + d)) == "LeadingAndTrailingSpaces"
  {
  }

  /** Leading and trailing spaces vanish and each word is capitalised
      (src/lib/component-utils.test.ts, line 31). */
  lemma SanitizeCategoryNameSpacedPhrase(category: string)
    requires category == "   leading and trailing spaces   "
    ensures SanitizeCategoryName(category) == "LeadingAndTrailingSpaces"
  {
    var lead, sep, a, b, c, d := "   ", " ", "leading", "and", "trailing", "spaces";
    SpacedPhraseNested(category);
    SpacedPhraseShape(lead, sep, a, b, c, d);
    SanitizeCategoryNameFourWords(lead, a, b, c, d, sep, lead);
    CapitalizedPhraseWords(a, b, c, d);
  }

  /** `my test category!` cut into its words and spaces. */
  lemma TestCategoryParts(category: string, a: string, b: string, c: string)
    requires category == "my test category!"
    requires a == "my" && b == "test" && c == "category!"
    ensures category == [] + [] + (a + " " + (b + " " + c))
  {
  }

  /** The words of `my test category!`. */
  lemma TestCategoryShape(a: string, b: string, c: string)
    requires a == "my" && b == "test" && c == "category!"
    ensures a != [] && AllAlnum(a) && b != [] && AllAlnum(b)
    ensures c != [] && NoSeparator(c) && IsAlnum(c[0]) && Spaces(" ")
  {
  }

  /** A word of letters and digits followed by characters that are
      neither: capitalising and dropping what is not a letter or a digit
      leaves the capitalised word. */
  lemma CapitalizeDropsTail(w: string, tail: string)
    requires w != [] && AllAlnum(w)
    requires forall i :: 0 <= i < |tail| ==> !IsAlnum(tail[i])
    ensures StripNonAlnum(Capitalize(w + tail)) == Capitalize(w)
  {
    CapitalizeAppend(w, tail);
    FilterAppend(Capitalize(w), LowerAll(tail), IsAlnum);
    CapitalizeAlnum(w);
    FilterKeepsAll(Capitalize(w), IsAlnum);
    FilterDropsAll(LowerAll(tail), IsAlnum);
  }

  /** Only the first character of a word is upper-cased, so what is
      appended to a non-empty word is only lower-cased. */
  lemma CapitalizeAppend(w: string, tail: string)
    requires w != []
    ensures Capitalize(w + tail) == Capitalize(w) + LowerAll(tail)
  {
    assert (w + tail)[0] == w[0];
    assert (w + tail)[1..] == w[1..] + tail;
    LowerAllAppend(w[1..], tail);
  }

  /** The words of `my test category!`, capitalised, with the `!`
      dropped. */
  lemma TestCategoryWords(a: string, b: string, c: string, word: string, bang: string)
    requires a == "my" && b == "test" && c == word + bang && word == "category" && bang == "!"
    ensures Capitalize(a) + Capitalize(b) + StripNonAlnum(Capitalize(c)) == "MyTestCategory"
  {
    CapitalizeLowerTail(a);
    CapitalizeLowerTail(b);
    CapitalizeLowerTail(word);
    CapitalizeDropsTail(word, bang);
    TestCategoryCapitals(a, b, word);
  }

  /** The capitalised words of `my test category!`, joined. */
  lemma TestCategoryCapitals(a: string, b: string, word: string)
    requires a == "my" && b == "test" && word == "category"
    ensures UpperFirst(a) + UpperFirst(b) + UpperFirst(word) == "MyTestCategory"
  {
  }

  /** Words are capitalised and the `!` is dropped (line 10):
      `my test category!` becomes `MyTestCategory`. */
  lemma SanitizeCategoryNameCapitalizesWords(category: string)
    requires category == "my test category!"
    ensures SanitizeCategoryName(category) == "MyTestCategory"
  {
    var a, b, c := "my", "test", "category!";
    TestCategoryParts(category, a, b, c);
    TestCategoryShape(a, b, c);
    TestCategoryWords(a, b, c, "category", "!");
    SanitizeCategoryNameThreeWords([], [], a, " ", b, " ", c);
  }

  /** `08 AI + Machine Learning` cut into its number, spaces, plus sign and
      words. */
  lemma AiCategoryParts(category: string, number: string, a: string, b: string, c: string)
    requires category == "08 AI + Machine Learning"
    requires number == "08" && a == "AI" && b == "Machine" && c == "Learning"
    ensures category == number + " " + (a + " + " + (b + " " + c))
  {
  }

  /** The number and the words of `08 AI + Machine Learning`. */
  lemma AiCategoryShape(number: string, a: string, b: string, c: string)
    requires number == "08" && a == "AI" && b == "Machine" && c == "Learning"
    ensures forall i :: 0 <= i < |number| ==> IsDigit(number[i])
    ensures a != [] && AllAlnum(a) && b != [] && AllAlnum(b) && AllAlnum(c)
    ensures c != [] && NoSeparator(c) && IsAlnum(c[0]) && Spaces(" ") && Spaces(" + ")
  {
  }

  /** The words of `08 AI + Machine Learning`, capitalised: `AI` loses its
      second capital. */
  lemma AiCategoryWords(a: string, b: string, c: string)
    requires a == "AI" && b == "Machine" && c == "Learning"
    ensures Capitalize(a) + Capitalize(b) + StripNonAlnum(Capitalize(c)) == "AiMachineLearning"
  {
    assert LowerAll(a[1..]) == "i";
    CapitalizeLowerTail(b);
    CapitalizeLowerTail(c);
    FilterKeepsAll(c, IsAlnum);
  }

  /** The number goes, `AI` loses its second capital and the words are
      joined: the identifier src/test/generated-tests.spec.tsx, lines 4
      and 14, imports. */
  lemma SanitizeCategoryNameOfAiCategory(category: string)
    requires category == "08 AI + Machine Learning"
    ensures SanitizeCategoryName(category) == "AiMachineLearning"
  {
    var number, a, b, c := "08", "AI", "Machine", "Learning";
    AiCategoryParts(category, number, a, b, c);
    AiCategoryShape(number, a, b, c);
    AiCategoryWords(a, b, c);
    SanitizeCategoryNameThreeWords(number, " ", a, " + ", b, " ", c);
  }

  // ---------------------------------------------------------------------------
  // groupByCategory
  // ---------------------------------------------------------------------------

  /** The distinct categories of `components` in order of first appearance:
      the keys of the record that groupByCategory builds, in insertion
      order. */
  function Categories(components: seq<ComponentInfo>): (keys: seq<string>)
    ensures |keys| <= |components|
  {
    if components == [] then []
    else
      var keys := Categories(components[..|components| - 1]);
      var k := components[|components| - 1].category;
      if k in keys then keys else keys + [k]
  }

  function InCategory(k: string): ComponentInfo -> bool {
    (c: ComponentInfo) => c.category == k
  }

  /** The array stored under key `k`: the components of category `k`, in
      input order. */
  function Members(components: seq<ComponentInfo>, k: string): seq<ComponentInfo> {
    Filter(components, InCategory(k))
  }

  /** `groupByCategory`: one pass over the components, creating the array of
      a category the first time the category is met and pushing each
      component onto the array of its category. */
  method GroupByCategory(components: seq<ComponentInfo>) returns (keys: seq<string>, groups: map<string, seq<ComponentInfo>>)
    ensures IsGrouping(components, keys, groups)
  {
    keys := [];
    groups := map[];
    for i := 0 to |components|
      invariant IsGrouping(components[..i], keys, groups)
    {
      ghost var keys0, groups0 := keys, groups;
      var c := components[i];
      if c.category !in groups {
        groups := groups[c.category := []];
        keys := keys + [c.category];
      }
      groups := groups[c.category := groups[c.category] + [c]];
      GroupStep(components[..i], c, keys0, groups0, keys, groups);
      assert components[..i + 1] == components[..i] + [c];
    }
    assert components[..|components|] == components;
  }

  /** `keys` and `groups` are the record that groupByCategory builds from
      `components`. */
  ghost predicate IsGrouping(components: seq<ComponentInfo>, keys: seq<string>, groups: map<string, seq<ComponentInfo>>) {
    && keys == Categories(components)
    && (forall k :: k in groups <==> k in keys)
    && (forall k :: k in groups ==> groups[k] == Members(components, k))
  }

  /** One step of groupByCategory: creating the array of a new category and
      pushing the next component onto the array of its category keeps the
      record in step with the input read so far. */
  lemma GroupStep(
    front: seq<ComponentInfo>, c: ComponentInfo,
    keys0: seq<string>, groups0: map<string, seq<ComponentInfo>>,
    keys1: seq<string>, groups1: map<string, seq<ComponentInfo>>)
    requires IsGrouping(front, keys0, groups0)
    requires keys1 == if c.category in groups0 then keys0 else keys0 + [c.category]
    requires groups1 == groups0[c.category := (if c.category in groups0 then groups0[c.category] else []) + [c]]
    ensures IsGrouping(front + [c], keys1, groups1)
  {
    var all := front + [c];
    assert all[..|all| - 1] == front;
    if c.category !in groups0 {
      CategoriesCover(front, c.category);
      FilterDropsAll(front, InCategory(c.category));
    }
    forall k | k in groups1
      ensures groups1[k] == Members(all, k)
    {
      FilterAppend(front, [c], InCategory(k));
    }
  }

  /** No category is listed twice. */
  lemma {:induction false} CategoriesDistinct(components: seq<ComponentInfo>)
    ensures Distinct(Categories(components))
  {
    if components != [] {
      CategoriesDistinct(components[..|components| - 1]);
    }
  }

  /** A category is listed exactly when some component has it. */
  lemma {:induction false} CategoriesCover(components: seq<ComponentInfo>, k: string)
    ensures k in Categories(components) <==> exists i :: 0 <= i < |components| && components[i].category == k
  {
    if components != [] {
      var front := components[..|components| - 1];
      CategoriesCover(front, k);
      if exists i :: 0 <= i < |front| && front[i].category == k {
        var i :| 0 <= i < |front| && front[i].category == k;
        assert components[i].category == k;
      }
      if exists i :: 0 <= i < |components| && components[i].category == k {
        var i :| 0 <= i < |components| && components[i].category == k;
        if i < |front| {
          assert front[i].category == k;
        }
      }
    }
  }

  /** A component is in the array of `k` exactly when it is one of the
      input components and its category is `k`. */
  lemma MembersExact(components: seq<ComponentInfo>, k: string, c: ComponentInfo)
    ensures c in Members(components, k) <==> c in components && c.category == k
  {
    if c in Members(components, k) {
      FilterMember(components, InCategory(k), c);
    }
    if c in components && c.category == k {
      var i :| 0 <= i < |components| && components[i] == c;
      FilterKeeps(components, InCategory(k), i);
    }
  }

  /** Every listed category has a non-empty array. */
  lemma MembersNonEmpty(components: seq<ComponentInfo>, k: string)
    requires k in Categories(components)
    ensures Members(components, k) != []
  {
    CategoriesCover(components, k);
    var i :| 0 <= i < |components| && components[i].category == k;
    FilterKeeps(components, InCategory(k), i);
  }

  /** There are as many keys as distinct categories. */
  lemma CategoriesCount(components: seq<ComponentInfo>)
    ensures |Categories(components)| == |set c | c in components :: c.category|
  {
    var keys := Categories(components);
    CategoriesDistinct(components);
    DistinctCardinality(keys);
    forall k
      ensures k in keys <==> k in (set c | c in components :: c.category)
    {
      CategoriesCover(components, k);
      if k in (set c | c in components :: c.category) {
        var c :| c in components && c.category == k;
        var i :| 0 <= i < |components| && components[i] == c;
      }
    }
    assert (set k | k in keys) == (set c | c in components :: c.category);
  }

  function InAny(keys: seq<string>): ComponentInfo -> bool {
    (c: ComponentInfo) => c.category in keys
  }

  /** The arrays of the keys, one after another. */
  function Grouped(components: seq<ComponentInfo>, keys: seq<string>): seq<ComponentInfo> {
    if keys == [] then [] else Members(components, keys[0]) + Grouped(components, keys[1..])
  }

  lemma {:induction false} GroupedFilter(components: seq<ComponentInfo>, keys: seq<string>)
    requires Distinct(keys)
    ensures multiset(Grouped(components, keys)) == multiset(Filter(components, InAny(keys)))
  {
    if keys == [] {
      FilterDropsAll(components, InAny(keys));
    } else {
      GroupedFilter(components, keys[1..]);
      forall i | 0 <= i < |components|
        ensures InAny(keys)(components[i]) == (InCategory(keys[0])(components[i]) || InAny(keys[1..])(components[i]))
      {
        assert keys == [keys[0]] + keys[1..];
      }
      FilterDisjointUnion(components, InCategory(keys[0]), InAny(keys[1..]), InAny(keys));
    }
  }

  /** The arrays of the record partition the input: every component lands in
      exactly one array, once. */
  lemma GroupsPartition(components: seq<ComponentInfo>)
    ensures multiset(Grouped(components, Categories(components))) == multiset(components)
  {
    var keys := Categories(components);
    CategoriesDistinct(components);
    GroupedFilter(components, keys);
    forall i | 0 <= i < |components|
      ensures InAny(keys)(components[i])
    {
      CategoriesCover(components, components[i].category);
    }
    FilterKeepsAll(components, InAny(keys));
  }

  /** The grouping of src/lib/component-utils.test.ts, lines 61-84: two
      categories in order of first appearance, the first holding the first
      and the third component; no input, no categories. */
  lemma GroupByCategoryExample()
    ensures var cs := [ComponentInfo("Icon1", "/path1", "Category1"), ComponentInfo("Icon2", "/path2", "Category2"), ComponentInfo("Icon3", "/path3", "Category1")];
      && Categories(cs) == ["Category1", "Category2"]
      && Members(cs, "Category1") == [cs[0], cs[2]]
      && Members(cs, "Category2") == [cs[1]]
    ensures Categories([]) == []
  {
    var k1, k2 := "Category1", "Category2";
    var components := [ComponentInfo("Icon1", "/path1", k1), ComponentInfo("Icon2", "/path2", k2), ComponentInfo("Icon3", "/path3", k1)];
    assert k1 != k2 by {
      assert k1[8] != k2[8];
    }
    var one, two := components[..1], components[..2];
    assert one[..0] == [];
    assert Categories(one) == [k1];
    assert two[..1] == one;
    assert Categories(two) == [k1, k2];
    assert components[..2] == two;
    var p1, p2 := InCategory(k1), InCategory(k2);
    assert p1(components[0]) && !p1(components[1]) && p1(components[2]);
    assert !p2(components[0]) && p2(components[1]) && !p2(components[2]);
    assert components == [components[0]] + [components[1]] + [components[2]];
    FilterAppend([components[0]] + [components[1]], [components[2]], p1);
    FilterAppend([components[0]], [components[1]], p1);
    FilterAppend([components[0]] + [components[1]], [components[2]], p2);
    FilterAppend([components[0]], [components[1]], p2);
  }
}
