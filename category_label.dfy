/**
  The human-readable label of a category, computed in generateCategoryExports
  of src/lib/index-generator.ts: a leading number and the dashes and spaces
  after it are removed, the rest is split at each `+` together with the
  white space around it, every part is capitalised and the parts are joined
  with ` + `.
 */
module CategoryLabel {
  import opened Ascii
  import opened ComponentUtils

  predicate IsDashOrSpace(c: char) { c == '-' || IsWhiteSpace(c) }

  predicate NotPlus(c: char) { c != '+' }

  // The category without its leading number and the dashes and white space
  // after it: only a string that starts with a digit loses anything.
  function StripNumberPrefix(s: string): (r: string)
    ensures |r| <= |s|
    ensures s == [] || !IsDigit(s[0]) ==> r == s
  {
    if s != [] && IsDigit(s[0]) then
      var rest := s[PrefixWhile(s, IsDigit)..];
      rest[PrefixWhile(rest, IsDashOrSpace)..]
    else s
  }

  /** The result is what follows the removed prefix. */
  lemma StripNumberPrefixSuffix(s: string)
    ensures var r := StripNumberPrefix(s); r == s[|s| - |r|..]
  {
    if s != [] && IsDigit(s[0]) {
      var n := PrefixWhile(s, IsDigit);
      var rest := s[n..];
      var m := PrefixWhile(rest, IsDashOrSpace);
      assert rest[m..] == s[n + m..];
    }
  }

  /** What the prefix regular expression removes: a non-empty run of digits
      followed by a run of dashes and white space, each as long as it
      goes. */
  lemma StripNumberPrefixOf(digits: string, seps: string, rest: string)
    requires digits != [] && forall i :: 0 <= i < |digits| ==> IsDigit(digits[i])
    requires forall i :: 0 <= i < |seps| ==> IsDashOrSpace(seps[i])
    requires rest == [] || !IsDashOrSpace(rest[0])
    requires seps != [] || rest == [] || !IsDigit(rest[0])
    ensures StripNumberPrefix(digits + seps + rest) == rest
  {
    var s := digits + seps + rest;
    assert s == digits + (seps + rest);
    PrefixWhileAppend(digits, seps + rest, IsDigit);
    assert s[|digits|..] == seps + rest;
    PrefixWhileAppend(seps, rest, IsDashOrSpace);
    assert (seps + rest)[|seps|..] == rest;
  }

  /** The number of white-space characters at the end of `s`. */
  function TrailingSpaces(s: string): (n: nat)
    ensures n <= |s|
    ensures forall i :: |s| - n <= i < |s| ==> IsWhiteSpace(s[i])
    ensures n == |s| || !IsWhiteSpace(s[|s| - n - 1])
  {
    if s == [] || !IsWhiteSpace(s[|s| - 1]) then 0 else 1 + TrailingSpaces(s[..|s| - 1])
  }

  /** The string without the white space it starts with. */
  function TrimStart(s: string): (r: string)
    ensures |r| <= |s| && forall j :: 0 <= j < |r| ==> r[j] == s[|s| - |r| + j]
    ensures forall j :: 0 <= j < |s| - |r| ==> IsWhiteSpace(s[j])
    ensures r == [] || !IsWhiteSpace(r[0])
  {
    PrefixWhileAll(s, IsWhiteSpace);
    s[PrefixWhile(s, IsWhiteSpace)..]
  }

  /** The string without the white space it ends with. */
  function TrimEnd(s: string): (r: string)
    ensures |r| <= |s| && forall j :: 0 <= j < |r| ==> r[j] == s[j]
    ensures forall j :: |r| <= j < |s| ==> IsWhiteSpace(s[j])
    ensures r == [] || !IsWhiteSpace(r[|r| - 1])
  {
    s[..|s| - TrailingSpaces(s)]
  }

  /** Splitting at every plus sign: the pieces between the plus signs. */
  function SplitOnPlus(s: string): (parts: seq<string>)
    ensures |parts| >= 1
    ensures forall i :: 0 <= i < |parts| ==> forall j :: 0 <= j < |parts[i]| ==> NotPlus(parts[i][j])
    decreases |s|
  {
    var n := PrefixWhile(s, NotPlus);
    PrefixWhileAll(s, NotPlus);
    if n == |s| then [s] else [s[..n]] + SplitOnPlus(s[n + 1..])
  }

  /** The parts with `sep` between each two of them. */
  function JoinWith(parts: seq<string>, sep: string): string {
    if parts == [] then []
    else if |parts| == 1 then parts[0]
    else parts[0] + sep + JoinWith(parts[1..], sep)
  }

  /** A piece without `+` in front of a plus sign is split off. */
  lemma SplitOnPlusAt(left: string, right: string)
    requires forall i :: 0 <= i < |left| ==> NotPlus(left[i])
    ensures SplitOnPlus(left + "+" + right) == [left] + SplitOnPlus(right)
  {
    var s := left + "+" + right;
    PrefixWhileAppend(left, "+" + right, NotPlus);
    assert s == left + ("+" + right);
    assert s[..|left|] == left;
    assert s[|left| + 1..] == right;
  }

  /** A string without `+` is one piece. */
  lemma SplitOnPlusNone(s: string)
    requires forall i :: 0 <= i < |s| ==> NotPlus(s[i])
    ensures SplitOnPlus(s) == [s]
  {
    PrefixWhileAppend(s, [], NotPlus);
    assert s + [] == s;
  }

  /** Joining the pieces with `+` gives back the string. */
  lemma {:induction false} JoinSplitOnPlus(s: string)
    ensures JoinWith(SplitOnPlus(s), "+") == s
    decreases |s|
  {
    var n := PrefixWhile(s, NotPlus);
    if n < |s| {
      JoinSplitOnPlus(s[n + 1..]);
      assert s == s[..n] + "+" + s[n + 1..];
    }
  }

  /** Splitting pieces that hold no `+`, joined with `+`, gives back the
      pieces. */
  lemma {:induction false} SplitJoinOnPlus(parts: seq<string>)
    requires parts != []
    requires forall i :: 0 <= i < |parts| ==> forall j :: 0 <= j < |parts[i]| ==> NotPlus(parts[i][j])
    ensures SplitOnPlus(JoinWith(parts, "+")) == parts
  {
    if |parts| == 1 {
      SplitOnPlusNone(parts[0]);
    } else {
      SplitJoinOnPlus(parts[1..]);
      SplitOnPlusAt(parts[0], JoinWith(parts[1..], "+"));
      assert parts == [parts[0]] + parts[1..];
    }
  }

  // The split at plus signs: the pieces between the plus signs, without the
  // white space next to a plus sign.
  function SplitLabel(s: string): (parts: seq<string>)
    ensures |parts| == |SplitOnPlus(s)|
    ensures forall i :: 0 <= i < |parts| ==> IsTrimOf(SplitOnPlus(s)[i], parts[i], 0 < i, i + 1 < |parts|)
    ensures forall i :: 0 <= i < |parts| ==> forall j :: 0 <= j < |parts[i]| ==> NotPlus(parts[i][j])
    ensures forall i :: 0 < i < |parts| && parts[i] != [] ==> !IsWhiteSpace(parts[i][0])
    ensures forall i :: 0 <= i < |parts| - 1 && parts[i] != [] ==> !IsWhiteSpace(parts[i][|parts[i]| - 1])
  {
    var raw := SplitOnPlus(s);
    var parts := TrimPieces(raw);
    assert forall i :: 0 <= i < |parts| ==> IsTrimOf(raw[i], parts[i], 0 < i, i + 1 < |parts|);
    parts
  }

  /** Every piece trimmed where a plus sign faces it. */
  function TrimPieces(raw: seq<string>): (parts: seq<string>)
    ensures |parts| == |raw|
    ensures forall i :: 0 <= i < |parts| ==> IsTrimOf(raw[i], parts[i], 0 < i, i + 1 < |parts|)
    ensures (forall i :: 0 <= i < |raw| ==> forall j :: 0 <= j < |raw[i]| ==> NotPlus(raw[i][j])) ==>
      forall i :: 0 <= i < |parts| ==> forall j :: 0 <= j < |parts[i]| ==> NotPlus(parts[i][j])
    ensures forall i :: 0 < i < |parts| && parts[i] != [] ==> !IsWhiteSpace(parts[i][0])
    ensures forall i :: 0 <= i < |parts| - 1 && parts[i] != [] ==> !IsWhiteSpace(parts[i][|parts[i]| - 1])
  {
    var parts := seq(|raw|, i requires 0 <= i < |raw| => TrimPiece(raw[i], 0 < i, i + 1 < |raw|));
    TrimEach(raw, parts);
    parts
  }

  /** The pieces trimmed one by one keep what each trim promises. */
  lemma TrimEach(raw: seq<string>, parts: seq<string>)
    requires |parts| == |raw|
    requires forall i :: 0 <= i < |raw| ==> parts[i] == TrimPiece(raw[i], 0 < i, i + 1 < |raw|)
    ensures forall i :: 0 <= i < |parts| ==> IsTrimOf(raw[i], parts[i], 0 < i, i + 1 < |parts|)
    ensures (forall i :: 0 <= i < |raw| ==> forall j :: 0 <= j < |raw[i]| ==> NotPlus(raw[i][j])) ==>
      forall i :: 0 <= i < |parts| ==> forall j :: 0 <= j < |parts[i]| ==> NotPlus(parts[i][j])
    ensures forall i :: 0 < i < |parts| && parts[i] != [] ==> !IsWhiteSpace(parts[i][0])
    ensures forall i :: 0 <= i < |parts| - 1 && parts[i] != [] ==> !IsWhiteSpace(parts[i][|parts[i]| - 1])
  {
  }

  /** One piece of the label split: white space goes from its start when a
      plus sign comes before it (`front`) and from its end when one comes
      after it (`back`). */
  function TrimPiece(piece: string, front: bool, back: bool): (r: string)
    ensures IsTrimOf(piece, r, front, back)
    ensures (forall j :: 0 <= j < |piece| ==> NotPlus(piece[j])) ==> forall j :: 0 <= j < |r| ==> NotPlus(r[j])
    ensures front && r != [] ==> !IsWhiteSpace(r[0])
    ensures back && r != [] ==> !IsWhiteSpace(r[|r| - 1])
  {
    var t := if back then TrimEnd(piece) else piece;
    var r := if front then TrimStart(t) else t;
    TrimStages(piece, t, r, front, back);
    r
  }

  /** The two stages of the trim, the end first, leave the piece between
      white space. */
  lemma TrimStages(piece: string, t: string, r: string, front: bool, back: bool)
    requires t == if back then TrimEnd(piece) else piece
    requires r == if front then TrimStart(t) else t
    ensures IsTrimOf(piece, r, front, back)
    ensures (forall j :: 0 <= j < |piece| ==> NotPlus(piece[j])) ==> forall j :: 0 <= j < |r| ==> NotPlus(r[j])
    ensures front && r != [] ==> !IsWhiteSpace(r[0])
    ensures back && r != [] ==> !IsWhiteSpace(r[|r| - 1])
  {
    EndStage(piece, t, back);
    StartStage(t, r, front);
    TrimmedCompose(piece, t, r, |t| - |r|, front, back);
    TrimmedAtFacts(piece, r, |t| - |r|, front, back);
  }

  /** The first stage of the trim: white space goes from the end only
      when `back`. */
  lemma EndStage(piece: string, t: string, back: bool)
    requires t == if back then TrimEnd(piece) else piece
    ensures TrimmedAt(piece, t, 0, false, back)
    ensures back && t != [] ==> !IsWhiteSpace(t[|t| - 1])
  {
    assert t == piece[0..|t|];
  }

  /** The second stage of the trim: white space goes from the start only
      when `front`, and the last character stays. */
  lemma StartStage(t: string, r: string, front: bool)
    requires r == if front then TrimStart(t) else t
    ensures TrimmedAt(t, r, |t| - |r|, front, false)
    ensures front && r != [] ==> !IsWhiteSpace(r[0])
    ensures r != [] ==> r[|r| - 1] == t[|t| - 1]
  {
    assert r == t[|t| - |r|..|t|];
  }

  /** Trimming the end and then the start trims both. */
  lemma TrimmedCompose(piece: string, t: string, r: string, a: int, front: bool, back: bool)
    requires TrimmedAt(piece, t, 0, false, back)
    requires TrimmedAt(t, r, a, front, false)
    ensures TrimmedAt(piece, r, a, front, back)
  {
    assert forall j :: 0 <= j < |r| ==> r[j] == t[a + j] == piece[a + j];
    assert r == piece[a..a + |r|];
  }

  /** A trim at a known place is a trim, and what it keeps comes from the
      piece: a piece without `+` trims to a string without `+`. */
  lemma TrimmedAtFacts(piece: string, r: string, a: int, front: bool, back: bool)
    requires TrimmedAt(piece, r, a, front, back)
    ensures IsTrimOf(piece, r, front, back)
    ensures (forall j :: 0 <= j < |piece| ==> NotPlus(piece[j])) ==> forall j :: 0 <= j < |r| ==> NotPlus(r[j])
  {
    assert forall j :: 0 <= j < |r| ==> r[j] == piece[a + j];
  }

  /** `r` is `piece` with only white space removed: from its start only
      when `front`, from its end only when `back`. */
  predicate IsTrimOf(piece: string, r: string, front: bool, back: bool) {
    exists a :: 0 <= a <= |piece| && TrimmedAt(piece, r, a, front, back)
  }

  /** `r` is the part of `piece` that starts at `a`, and only white space lies
      around it: in front of it only when `front`, behind it only when
      `back`. */
  predicate TrimmedAt(piece: string, r: string, a: int, front: bool, back: bool) {
    && 0 <= a && a + |r| <= |piece| && r == piece[a..a + |r|]
    && (forall j :: 0 <= j < a ==> IsWhiteSpace(piece[j]))
    && (forall j :: a + |r| <= j < |piece| ==> IsWhiteSpace(piece[j]))
    && (front || a == 0)
    && (back || a + |r| == |piece|)
  }

  /** The label of a raw category: only the first character of a part can
      be upper case, right after the ` + ` that joins it to the part before. */
  function Label(category: string): (r: string)
    ensures OpensParts(r)
  {
    var parts := SplitLabel(StripNumberPrefix(category));
    CapitalsStartParts(parts);
    JoinWith(CapitalizeEach(parts), " + ")
  }

  /** In capitalised parts joined with ` + `, an upper-case letter after the
      first character opens a part. */
  lemma {:induction false} CapitalsStartParts(parts: seq<string>)
    ensures OpensParts(JoinWith(CapitalizeEach(parts), " + "))
  {
    var caps := CapitalizeEach(parts);
    if |parts| == 1 {
      CapitalizeNoUpperTail(parts[0]);
    } else if |parts| > 1 {
      CapitalsStartParts(parts[1..]);
      assert CapitalizeEach(parts[1..]) == caps[1..];
      CapitalizeNoUpperTail(parts[0]);
      OpensPartsJoin(caps[0], JoinWith(caps[1..], " + "));
    }
  }

  /** Every upper-case letter after the first character follows `+ `. */
  predicate OpensParts(r: string) {
    forall i :: 0 < i < |r| && IsUpper(r[i]) ==> 2 <= i && r[i - 2] == '+' && r[i - 1] == ' '
  }

  /** A head with no upper-case letter after its first character, joined
      with ` + ` to a tail that keeps the property, keeps it. */
  lemma OpensPartsJoin(head: string, rest: string)
    requires forall i :: 0 < i < |head| ==> !IsUpper(head[i])
    requires OpensParts(rest)
    ensures OpensParts(head + " + " + rest)
  {
    var r := head + " + " + rest;
    forall i | 0 < i < |r|
      ensures IsUpper(r[i]) ==> 2 <= i && r[i - 2] == '+' && r[i - 1] == ' '
    {
      if i < |head| {
        assert r[i] == head[i];
      } else if i < |head| + 3 {
        assert r[i] == " + "[i - |head|];
      } else {
        var j := i - |head| - 3;
        assert r[i] == rest[j];
        if j == 0 {
          assert r[i - 2] == " + "[1] && r[i - 1] == " + "[2];
        } else if IsUpper(rest[j]) {
          assert r[i - 2] == rest[j - 2] && r[i - 1] == rest[j - 1];
        }
      }
    }
  }

  /** A capitalised word has no upper-case letter after its first
      character. */
  lemma CapitalizeNoUpperTail(w: string)
    ensures forall i :: 0 < i < |Capitalize(w)| ==> !IsUpper(Capitalize(w)[i])
  {
  }

  /** A part with a space before it (when `front`) and after it (when
      `back`). */
  function Pad(p: string, front: bool, back: bool): string {
    (if front then " " else "") + p + (if back then " " else "")
  }

  /** The pieces between the plus signs of parts joined with ` + `: every
      part but the first has a space before it, every part but the last a
      space after it (and the first one too when `front`). */
  function Padded(parts: seq<string>, front: bool): (pieces: seq<string>)
    ensures |pieces| == |parts|
  {
    seq(|parts|, i requires 0 <= i < |parts| => Pad(parts[i], front || 0 < i, i + 1 < |parts|))
  }

  /** Joining with ` + ` is joining the padded parts with `+`. */
  lemma {:induction false} JoinPadded(parts: seq<string>, front: bool)
    requires parts != []
    ensures (if front then " " else "") + JoinWith(parts, " + ") == JoinWith(Padded(parts, front), "+")
    decreases |parts|
  {
    var f := if front then " " else "";
    var pieces := Padded(parts, front);
    if |parts| == 1 {
      assert pieces == [f + parts[0] + ""];
      assert f + parts[0] + "" == f + parts[0];
    } else {
      JoinPadded(parts[1..], true);
      assert pieces[1..] == Padded(parts[1..], true);
      assert pieces[0] == f + parts[0] + " ";
      assert f + JoinWith(parts, " + ") == (f + parts[0] + " ") + "+" + (" " + JoinWith(parts[1..], " + "));
    }
  }

  /** Parts without `+` whose sides facing a plus sign are not white space:
      the label split of the parts joined with ` + ` gives them back. */
  lemma SplitLabelJoin(parts: seq<string>)
    requires parts != []
    requires forall k :: 0 <= k < |parts| ==> forall j :: 0 <= j < |parts[k]| ==> NotPlus(parts[k][j])
    requires forall k :: 0 < k < |parts| && parts[k] != [] ==> !IsWhiteSpace(parts[k][0])
    requires forall k :: 0 <= k < |parts| - 1 && parts[k] != [] ==> !IsWhiteSpace(parts[k][|parts[k]| - 1])
    ensures SplitLabel(JoinWith(parts, " + ")) == parts
  {
    var n := |parts|;
    var before := seq(n, i => if i == 0 then "" else " ");
    var after := seq(n, i => if i + 1 < n then " " else "");
    PaddedRuns(parts, before, after);
    SpaceRuns(n, before, after);
    SplitLabelSpaced(parts, before, after);
  }

  /** Parts joined with ` + ` are the parts with one space before each but
      the first and one space after each but the last, joined with `+`. */
  lemma PaddedRuns(parts: seq<string>, before: seq<string>, after: seq<string>)
    requires parts != []
    requires before == seq(|parts|, i => if i == 0 then "" else " ")
    requires after == seq(|parts|, i => if i + 1 < |parts| then " " else "")
    ensures JoinWith(Surround(parts, before, after), "+") == JoinWith(parts, " + ")
  {
    JoinPadded(parts, false);
    assert "" + JoinWith(parts, " + ") == JoinWith(parts, " + ");
    assert Padded(parts, false) == Surround(parts, before, after);
  }

  /** The runs around the parts of a ` + ` join are white space, and none
      comes before the first part or after the last. */
  lemma SpaceRuns(n: nat, before: seq<string>, after: seq<string>)
    requires 0 < n
    requires before == seq(n, i => if i == 0 then "" else " ")
    requires after == seq(n, i => if i + 1 < n then " " else "")
    ensures before[0] == [] && after[n - 1] == []
    ensures forall k :: 0 <= k < n ==> Blank(before[k]) && Blank(after[k])
  {
    SpaceIsBlank(" ");
    forall k | 0 <= k < n
      ensures Blank(before[k]) && Blank(after[k])
    {
      assert before[k] == "" || before[k] == " ";
      assert after[k] == "" || after[k] == " ";
    }
  }

  lemma SpaceIsBlank(sp: string)
    requires sp == " "
    ensures Blank(sp)
  {
  }

  /** Only one trim fits: a piece made of white space, a part whose sides
      that are trimmed are not white space, and white space again, trims to
      that part. */
  lemma TrimmedAtUnique(piece: string, r: string, a: int, w1: string, p: string, w2: string, front: bool, back: bool)
    requires TrimmedAt(piece, r, a, front, back)
    requires front && r != [] ==> !IsWhiteSpace(r[0])
    requires back && r != [] ==> !IsWhiteSpace(r[|r| - 1])
    requires piece == w1 + p + w2 && Blank(w1) && Blank(w2)
    requires (front || w1 == []) && (back || w2 == [])
    requires front && p != [] ==> !IsWhiteSpace(p[0])
    requires back && p != [] ==> !IsWhiteSpace(p[|p| - 1])
    ensures r == p
  {
    assert forall j :: 0 <= j < |w1| ==> piece[j] == w1[j];
    assert forall j :: 0 <= j < |w2| ==> piece[|w1| + |p| + j] == w2[j];
    assert r != [] ==> r[0] == piece[a] && r[|r| - 1] == piece[a + |r| - 1];
    if p == [] {
      assert forall j :: 0 <= j < |piece| ==> IsWhiteSpace(piece[j]);
    } else {
      assert piece[|w1|] == p[0] && piece[|w1| + |p| - 1] == p[|p| - 1];
      assert piece[|w1|..|w1| + |p|] == p;
    }
  }

  /** The pieces between the plus signs when each part has a run of white
      space before it and after it. */
  function Surround(parts: seq<string>, before: seq<string>, after: seq<string>): (pieces: seq<string>)
    requires |before| == |parts| && |after| == |parts|
    ensures |pieces| == |parts|
    ensures forall i :: 0 <= i < |parts| ==> pieces[i] == before[i] + parts[i] + after[i]
  {
    seq(|parts|, i requires 0 <= i < |parts| => before[i] + parts[i] + after[i])
  }

  /** Parts without `+` whose sides facing a plus sign are not white space,
      joined by a plus sign with any run of white space on either side of
      it: the label split gives the parts back. The runs between the parts
      are `after[k]` and `before[k + 1]`. */
  lemma SplitLabelSpaced(parts: seq<string>, before: seq<string>, after: seq<string>)
    requires parts != [] && |before| == |parts| && |after| == |parts|
    requires before[0] == [] && after[|parts| - 1] == []
    requires forall k :: 0 <= k < |parts| ==> Blank(before[k]) && Blank(after[k])
    requires forall k :: 0 <= k < |parts| ==> forall j :: 0 <= j < |parts[k]| ==> NotPlus(parts[k][j])
    requires forall k :: 0 < k < |parts| && parts[k] != [] ==> !IsWhiteSpace(parts[k][0])
    requires forall k :: 0 <= k < |parts| - 1 && parts[k] != [] ==> !IsWhiteSpace(parts[k][|parts[k]| - 1])
    ensures SplitLabel(JoinWith(Surround(parts, before, after), "+")) == parts
  {
    var pieces := Surround(parts, before, after);
    SurroundNoPlus(parts, before, after);
    SplitJoinOnPlus(pieces);
    SplitLabelOfSurround(JoinWith(pieces, "+"), parts, before, after);
  }

  /** A string whose pieces between the plus signs are the parts with white
      space around them: its label split is the parts. */
  lemma SplitLabelOfSurround(s: string, parts: seq<string>, before: seq<string>, after: seq<string>)
    requires parts != [] && |before| == |parts| && |after| == |parts|
    requires SplitOnPlus(s) == Surround(parts, before, after)
    requires before[0] == [] && after[|parts| - 1] == []
    requires forall k :: 0 <= k < |parts| ==> Blank(before[k]) && Blank(after[k])
    requires forall k :: 0 < k < |parts| && parts[k] != [] ==> !IsWhiteSpace(parts[k][0])
    requires forall k :: 0 <= k < |parts| - 1 && parts[k] != [] ==> !IsWhiteSpace(parts[k][|parts[k]| - 1])
    ensures SplitLabel(s) == parts
  {
    var pieces := Surround(parts, before, after);
    SplitLabelOfPieces(s, pieces);
    TrimsOfSurround(pieces, SplitLabel(s), parts, before, after);
  }

  /** Trims of parts with white space around them, each with no white space
      left on a side that faces a plus sign, are the parts. */
  lemma TrimsOfSurround(pieces: seq<string>, labels: seq<string>, parts: seq<string>, before: seq<string>, after: seq<string>)
    requires |pieces| == |parts| && |labels| == |parts| && |before| == |parts| && |after| == |parts|
    requires forall i :: 0 <= i < |labels| ==> IsTrimOf(pieces[i], labels[i], 0 < i, i + 1 < |labels|)
    requires forall i :: 0 < i < |labels| && labels[i] != [] ==> !IsWhiteSpace(labels[i][0])
    requires forall i :: 0 <= i < |labels| - 1 && labels[i] != [] ==> !IsWhiteSpace(labels[i][|labels[i]| - 1])
    requires forall k :: 0 <= k < |parts| ==> pieces[k] == before[k] + parts[k] + after[k]
    requires parts != [] ==> before[0] == [] && after[|parts| - 1] == []
    requires forall k :: 0 <= k < |parts| ==> Blank(before[k]) && Blank(after[k])
    requires forall k :: 0 < k < |parts| && parts[k] != [] ==> !IsWhiteSpace(parts[k][0])
    requires forall k :: 0 <= k < |parts| - 1 && parts[k] != [] ==> !IsWhiteSpace(parts[k][|parts[k]| - 1])
    ensures labels == parts
  {
    forall i | 0 <= i < |parts|
      ensures labels[i] == parts[i]
    {
      TrimOfSurrounded(pieces[i], labels[i], before[i], parts[i], after[i], 0 < i, i + 1 < |parts|);
    }
  }

  /** A string whose pieces between the plus signs are `pieces`: its label
      split trims each piece where a plus sign faces it. */
  lemma SplitLabelOfPieces(s: string, pieces: seq<string>)
    requires SplitOnPlus(s) == pieces
    ensures var labels := SplitLabel(s);
      && |labels| == |pieces|
      && (forall i :: 0 <= i < |labels| ==> IsTrimOf(pieces[i], labels[i], 0 < i, i + 1 < |labels|))
      && (forall i :: 0 < i < |labels| && labels[i] != [] ==> !IsWhiteSpace(labels[i][0]))
      && (forall i :: 0 <= i < |labels| - 1 && labels[i] != [] ==> !IsWhiteSpace(labels[i][|labels[i]| - 1]))
  {
  }

  /** A trim of a part with white space around it is the part. */
  lemma TrimOfSurrounded(piece: string, r: string, w1: string, p: string, w2: string, front: bool, back: bool)
    requires IsTrimOf(piece, r, front, back)
    requires front && r != [] ==> !IsWhiteSpace(r[0])
    requires back && r != [] ==> !IsWhiteSpace(r[|r| - 1])
    requires piece == w1 + p + w2 && Blank(w1) && Blank(w2)
    requires (front || w1 == []) && (back || w2 == [])
    requires front && p != [] ==> !IsWhiteSpace(p[0])
    requires back && p != [] ==> !IsWhiteSpace(p[|p| - 1])
    ensures r == p
  {
    var a :| 0 <= a <= |piece| && TrimmedAt(piece, r, a, front, back);
    TrimmedAtUnique(piece, r, a, w1, p, w2, front, back);
  }

  /** White space around the parts adds no plus sign. */
  lemma SurroundNoPlus(parts: seq<string>, before: seq<string>, after: seq<string>)
    requires |before| == |parts| && |after| == |parts|
    requires forall k :: 0 <= k < |parts| ==> Blank(before[k]) && Blank(after[k])
    requires forall k :: 0 <= k < |parts| ==> forall j :: 0 <= j < |parts[k]| ==> NotPlus(parts[k][j])
    ensures var pieces := Surround(parts, before, after);
      forall k :: 0 <= k < |pieces| ==> forall j :: 0 <= j < |pieces[k]| ==> NotPlus(pieces[k][j])
  {
    var pieces := Surround(parts, before, after);
    forall k, j | 0 <= k < |pieces| && 0 <= j < |pieces[k]|
      ensures NotPlus(pieces[k][j])
    {
      var x, y := before[k], after[k];
      if j < |x| {
        assert pieces[k][j] == x[j];
      } else if j < |x| + |parts[k]| {
        assert pieces[k][j] == parts[k][j - |x|];
      } else {
        assert pieces[k][j] == y[j - |x| - |parts[k]|];
      }
    }
  }

  /** The label of a category made of parts joined by plus signs with any
      white space around them, with no number in front: each part is
      capitalised and the parts are joined with ` + `. */
  lemma LabelOfSpacedParts(parts: seq<string>, before: seq<string>, after: seq<string>)
    requires parts != [] && |before| == |parts| && |after| == |parts|
    requires before[0] == [] && after[|parts| - 1] == []
    requires parts[0] != [] && !IsDigit(parts[0][0])
    requires forall k :: 0 <= k < |parts| ==> Blank(before[k]) && Blank(after[k])
    requires forall k :: 0 <= k < |parts| ==> forall j :: 0 <= j < |parts[k]| ==> NotPlus(parts[k][j])
    requires forall k :: 0 < k < |parts| && parts[k] != [] ==> !IsWhiteSpace(parts[k][0])
    requires forall k :: 0 <= k < |parts| - 1 && parts[k] != [] ==> !IsWhiteSpace(parts[k][|parts[k]| - 1])
    ensures Label(JoinWith(Surround(parts, before, after), "+")) == JoinWith(CapitalizeEach(parts), " + ")
  {
    var pieces := Surround(parts, before, after);
    assert pieces[0] == parts[0] + after[0];
    JoinWithHead(pieces, "+");
    SplitLabelSpaced(parts, before, after);
  }

  /** Two parts around a plus sign with any white space on each side of it:
      `A+B`, `A  +  B` and `A\t+B` all split into `A` and `B`. */
  lemma SplitLabelAroundSpacedPlus(a: string, w1: string, w2: string, b: string)
    requires a == [] || !IsWhiteSpace(a[|a| - 1])
    requires b == [] || !IsWhiteSpace(b[0])
    requires Blank(w1) && Blank(w2)
    requires forall i :: 0 <= i < |a| ==> NotPlus(a[i])
    requires forall i :: 0 <= i < |b| ==> NotPlus(b[i])
    ensures SplitLabel(a + w1 + "+" + w2 + b) == [a, b]
  {
    var parts, before, after := [a, b], ["", w2], [w1, ""];
    SpacedTwoShape(a, w1, w2, b);
    SplitLabelSpaced(parts, before, after);
  }

  /** A category of two parts around a plus sign with any white space on
      each side of it: `a+b`, `a  +  b` and `a\t+b` are all labelled by the
      two parts capitalised and joined with ` + `. */
  lemma LabelAroundSpacedPlus(a: string, w1: string, w2: string, b: string)
    requires a != [] && !IsDigit(a[0]) && !IsWhiteSpace(a[|a| - 1])
    requires b == [] || !IsWhiteSpace(b[0])
    requires Blank(w1) && Blank(w2)
    requires forall i :: 0 <= i < |a| ==> NotPlus(a[i])
    requires forall i :: 0 <= i < |b| ==> NotPlus(b[i])
    ensures Label(a + w1 + "+" + w2 + b) == Capitalize(a) + " + " + Capitalize(b)
  {
    SpacedTwoShape(a, w1, w2, b);
    JoinTwo(a, b);
    LabelOfSpacedParts([a, b], ["", w2], [w1, ""]);
  }

  /** Two parts with white space around the plus sign between them, as
      parts, runs before and runs after. */
  lemma SpacedTwoShape(a: string, w1: string, w2: string, b: string)
    requires a == [] || !IsWhiteSpace(a[|a| - 1])
    requires b == [] || !IsWhiteSpace(b[0])
    requires Blank(w1) && Blank(w2)
    requires forall i :: 0 <= i < |a| ==> NotPlus(a[i])
    requires forall i :: 0 <= i < |b| ==> NotPlus(b[i])
    ensures var parts, before, after := [a, b], ["", w2], [w1, ""];
      && JoinWith(Surround(parts, before, after), "+") == a + w1 + "+" + w2 + b
      && (forall k :: 0 <= k < |parts| ==> Blank(before[k]) && Blank(after[k]))
      && (forall k :: 0 <= k < |parts| ==> forall j :: 0 <= j < |parts[k]| ==> NotPlus(parts[k][j]))
      && (forall k :: 0 < k < |parts| && parts[k] != [] ==> !IsWhiteSpace(parts[k][0]))
      && (forall k :: 0 <= k < |parts| - 1 && parts[k] != [] ==> !IsWhiteSpace(parts[k][|parts[k]| - 1]))
  {
    var pieces := Surround([a, b], ["", w2], [w1, ""]);
    assert pieces[0] == a + w1 && pieces[1] == w2 + b;
    assert pieces[1..] == [w2 + b];
  }

  /** The first character of parts joined with a separator is the first
      character of the first part. */
  lemma JoinWithHead(parts: seq<string>, sep: string)
    requires parts != [] && parts[0] != []
    ensures JoinWith(parts, sep) != [] && JoinWith(parts, sep)[0] == parts[0][0]
  {
    if |parts| > 1 {
      assert JoinWith(parts, sep) == parts[0] + (sep + JoinWith(parts[1..], sep));
    }
  }

  /** The label of a category made of parts joined with ` + `, with no
      number in front: each part is capitalised and the parts are joined
      with ` + ` again. */
  lemma LabelOfParts(parts: seq<string>)
    requires parts != [] && parts[0] != [] && !IsDigit(parts[0][0])
    requires forall k :: 0 <= k < |parts| ==> forall j :: 0 <= j < |parts[k]| ==> NotPlus(parts[k][j])
    requires forall k :: 0 < k < |parts| && parts[k] != [] ==> !IsWhiteSpace(parts[k][0])
    requires forall k :: 0 <= k < |parts| - 1 && parts[k] != [] ==> !IsWhiteSpace(parts[k][|parts[k]| - 1])
    ensures Label(JoinWith(parts, " + ")) == JoinWith(CapitalizeEach(parts), " + ")
  {
    JoinWithHead(parts, " + ");
    SplitLabelJoin(parts);
  }

  /** The label of a numbered category made of parts joined with ` + `: the
      number and the dashes and white space after it go, each part is
      capitalised and the parts are joined with ` + ` again. */
  lemma LabelOfNumberedParts(digits: string, seps: string, parts: seq<string>)
    requires digits != [] && forall i :: 0 <= i < |digits| ==> IsDigit(digits[i])
    requires forall i :: 0 <= i < |seps| ==> IsDashOrSpace(seps[i])
    requires parts != [] && parts[0] != [] && !IsDashOrSpace(parts[0][0]) && (seps != [] || !IsDigit(parts[0][0]))
    requires forall k :: 0 <= k < |parts| ==> forall j :: 0 <= j < |parts[k]| ==> NotPlus(parts[k][j])
    requires forall k :: 0 < k < |parts| && parts[k] != [] ==> !IsWhiteSpace(parts[k][0])
    requires forall k :: 0 <= k < |parts| - 1 && parts[k] != [] ==> !IsWhiteSpace(parts[k][|parts[k]| - 1])
    ensures Label(digits + seps + JoinWith(parts, " + ")) == JoinWith(CapitalizeEach(parts), " + ")
  {
    JoinWithHead(parts, " + ");
    StripNumberPrefixOf(digits, seps, JoinWith(parts, " + "));
    SplitLabelJoin(parts);
  }

  /** A category of one part: its label is the part, capitalised. */
  lemma LabelOfOnePart(digits: string, seps: string, w: string)
    requires forall i :: 0 <= i < |digits| ==> IsDigit(digits[i])
    requires forall i :: 0 <= i < |seps| ==> IsDashOrSpace(seps[i])
    requires digits == [] ==> seps == []
    requires w != [] && !IsDashOrSpace(w[0]) && (seps != [] || !IsDigit(w[0]))
    requires forall j :: 0 <= j < |w| ==> NotPlus(w[j])
    ensures Label(digits + seps + w) == Capitalize(w)
  {
    assert JoinWith([w], " + ") == w;
    assert CapitalizeEach([w]) == [Capitalize(w)];
    if digits == [] {
      assert digits + seps + w == w;
      LabelOfParts([w]);
    } else {
      LabelOfNumberedParts(digits, seps, [w]);
    }
  }

  /** Two parts joined with ` + `, as a sequence of parts. */
  lemma JoinTwo(a: string, b: string)
    ensures JoinWith([a, b], " + ") == a + " + " + b
    ensures JoinWith(CapitalizeEach([a, b]), " + ") == Capitalize(a) + " + " + Capitalize(b)
  {
    assert [a, b][1..] == [b];
    var caps := CapitalizeEach([a, b]);
    assert caps == [Capitalize(a), Capitalize(b)];
    assert caps[1..] == [Capitalize(b)];
  }

  /** Two parts without `+` whose sides facing the plus sign are not white
      space meet the conditions of the general lemmas. */
  lemma TwoPartsShape(a: string, b: string)
    requires a != [] && !IsWhiteSpace(a[|a| - 1])
    requires b == [] || !IsWhiteSpace(b[0])
    requires forall i :: 0 <= i < |a| ==> NotPlus(a[i])
    requires forall i :: 0 <= i < |b| ==> NotPlus(b[i])
    ensures var parts := [a, b];
      && (forall k :: 0 <= k < |parts| ==> forall j :: 0 <= j < |parts[k]| ==> NotPlus(parts[k][j]))
      && (forall k :: 0 < k < |parts| && parts[k] != [] ==> !IsWhiteSpace(parts[k][0]))
      && (forall k :: 0 <= k < |parts| - 1 && parts[k] != [] ==> !IsWhiteSpace(parts[k][|parts[k]| - 1]))
  {
  }

  /** A plus sign with a space on each side between two parts splits the
      label into the two parts. */
  lemma SplitLabelAroundPlus(a: string, b: string)
    requires a != [] && !IsWhiteSpace(a[|a| - 1])
    requires b == [] || !IsWhiteSpace(b[0])
    requires forall i :: 0 <= i < |a| ==> NotPlus(a[i])
    requires forall i :: 0 <= i < |b| ==> NotPlus(b[i])
    ensures SplitLabel(a + " + " + b) == [a, b]
  {
    JoinTwo(a, b);
    TwoPartsShape(a, b);
    SplitLabelJoin([a, b]);
  }

  /** A category of two parts around a plus sign with a space on each side:
      no number prefix is removed, each part is capitalised and the parts
      are joined with ` + `. */
  lemma LabelTwoParts(a: string, b: string)
    requires a != [] && !IsDigit(a[0]) && !IsWhiteSpace(a[|a| - 1])
    requires b == [] || !IsWhiteSpace(b[0])
    requires forall i :: 0 <= i < |a| ==> NotPlus(a[i])
    requires forall i :: 0 <= i < |b| ==> NotPlus(b[i])
    ensures Label(a + " + " + b) == Capitalize(a) + " + " + Capitalize(b)
  {
    JoinTwo(a, b);
    TwoPartsShape(a, b);
    LabelOfParts([a, b]);
  }

  /** Two parts whose tails are already lower case: each part's first
      character is upper-cased in place. */
  lemma LabelTwoLowerParts(a: string, b: string)
    requires a != [] && !IsDigit(a[0]) && !IsWhiteSpace(a[|a| - 1])
    requires b != [] && !IsWhiteSpace(b[0])
    requires forall i :: 0 <= i < |a| ==> NotPlus(a[i]) && (i == 0 || !IsUpper(a[i]))
    requires forall i :: 0 <= i < |b| ==> NotPlus(b[i]) && (i == 0 || !IsUpper(b[i]))
    ensures Label(a + " + " + b) == ([ToUpper(a[0])] + a[1..]) + " + " + ([ToUpper(b[0])] + b[1..])
  {
    LabelTwoParts(a, b);
    CapitalizeLowerTail(a);
    CapitalizeLowerTail(b);
  }

  /** A numbered category of two parts around a plus sign with a space on
      each side: the number and the dashes and spaces after it go, each part
      is capitalised and the parts are joined with ` + `. */
  lemma LabelNumberedTwoParts(digits: string, seps: string, a: string, b: string)
    requires digits != [] && forall i :: 0 <= i < |digits| ==> IsDigit(digits[i])
    requires forall i :: 0 <= i < |seps| ==> IsDashOrSpace(seps[i])
    requires a != [] && !IsDashOrSpace(a[0]) && (seps != [] || !IsDigit(a[0]))
    requires !IsWhiteSpace(a[|a| - 1]) && (b == [] || !IsWhiteSpace(b[0]))
    requires forall i :: 0 <= i < |a| ==> NotPlus(a[i])
    requires forall i :: 0 <= i < |b| ==> NotPlus(b[i])
    ensures Label(digits + seps + (a + " + " + b)) == Capitalize(a) + " + " + Capitalize(b)
  {
    JoinTwo(a, b);
    TwoPartsShape(a, b);
    LabelOfNumberedParts(digits, seps, [a, b]);
  }

  // The test values below are proved in small steps: each string literal is
  // a parameter pinned by a `requires`, and cutting it into words is a
  // lemma of its own, so that no proof has to unfold a long literal.

  /** `08 AI + Machine Learning` cut into its number, space and parts. */
  lemma AiCategoryPieces(category: string, digits: string, a: string, b: string)
    requires category == "08 AI + Machine Learning"
    requires digits == "08" && a == "AI" && b == "Machine Learning"
    ensures category == digits + " " + (a + " + " + b)
  {
  }

  /** The parts of `08 AI + Machine Learning` have no plus sign and no
      white space at their ends. */
  lemma AiCategoryPartsShape(digits: string, a: string, b: string)
    requires digits == "08" && a == "AI" && b == "Machine Learning"
    ensures digits != [] && forall i :: 0 <= i < |digits| ==> IsDigit(digits[i])
    ensures forall i :: 0 <= i < |" "| ==> IsDashOrSpace(" "[i])
    ensures a != [] && !IsDashOrSpace(a[0]) && !IsWhiteSpace(a[|a| - 1])
    ensures b != [] && !IsWhiteSpace(b[0])
    ensures forall i :: 0 <= i < |a| ==> NotPlus(a[i])
    ensures forall i :: 0 <= i < |b| ==> NotPlus(b[i])
  {
  }

  /** `AI`, capitalised, is `Ai`. */
  lemma CapitalizedAi(a: string)
    requires a == "AI"
    ensures Capitalize(a) == "Ai"
  {
    assert LowerAll(a[1..]) == "i";
  }

  /** `Machine Learning` cut before its second word. */
  lemma MachineLearningParts(b: string, m: string, machine: string, learning: string)
    requires b == "Machine Learning" && m == "M" && machine == "achine " && learning == "Learning"
    ensures b == m + machine + learning
  {
  }

  /** `Machine Learning`, capitalised, is `Machine learning`. */
  lemma CapitalizedMachineLearning(b: string, m: string, machine: string, learning: string)
    requires b == m + machine + learning && |m| == 1
    requires machine == "achine " && learning == "Learning"
    ensures Capitalize(b) == [ToUpper(m[0])] + machine + "learning"
  {
    assert b[1..] == machine + learning;
    LowerAllAppend(machine, learning);
    assert LowerAll(machine) == machine;
    assert LowerAll(learning) == "learning";
  }

  /** The capitalised parts, joined with ` + `. */
  lemma AiLabelJoined(ai: string, m: string, machine: string)
    requires ai == "Ai" && m == "M" && machine == "achine "
    ensures ai + " + " + ([ToUpper(m[0])] + machine + "learning") == "Ai + Machine learning"
  {
  }

  /** The parts of `08 AI + Machine Learning`, capitalised: only the first
      letter of each part stays upper case. */
  lemma AiCategoryPartsCapitalized(a: string, b: string)
    requires a == "AI" && b == "Machine Learning"
    ensures Capitalize(a) + " + " + Capitalize(b) == "Ai + Machine learning"
  {
    CapitalizedAi(a);
    var m, machine, learning := "M", "achine ", "Learning";
    MachineLearningParts(b, m, machine, learning);
    CapitalizedMachineLearning(b, m, machine, learning);
    AiLabelJoined("Ai", m, machine);
  }

  /** The label of the `08 AI + Machine Learning` category
      (src/test/generated-tests.spec.tsx, line 68): the number goes and
      only the first letter of each part stays upper case. */
  lemma LabelOfAiCategory(category: string)
    requires category == "08 AI + Machine Learning"
    ensures Label(category) == "Ai + Machine learning"
  {
    var digits, a, b := "08", "AI", "Machine Learning";
    AiCategoryPieces(category, digits, a, b);
    AiCategoryPartsShape(digits, a, b);
    LabelNumberedTwoParts(digits, " ", a, b);
    AiCategoryPartsCapitalized(a, b);
  }
}
