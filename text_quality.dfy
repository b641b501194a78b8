/** The text-quality report for one column (`analyze_text_quality`): missing
    values, accented letters, special characters, values that differ only in
    case or surrounding whitespace, and whitespace issues. */
module TextQuality {
  import opened Text
  import opened Cells

  /** The Unicode tables the analysis consults: general category L (letters),
      `str.isnumeric`, canonical decomposition (NFD) and `str.lower`. */
  datatype UnicodeData = UnicodeData(
    isLetter: char -> bool,
    isNumeric: char -> bool,
    nfd: char -> string,
    lower: string -> string)

  /** Every ASCII character is its own canonical decomposition. */
  predicate AsciiStable(u: UnicodeData)
  {
    forall c: char :: c as int < 128 ==> u.nfd(c) == [c]
  }

  /** `.encode('ascii', 'ignore').decode('ascii')`: every non-ASCII character dropped. */
  function AsciiIgnore(s: string): (r: string)
    ensures forall i :: 0 <= i < |r| ==> r[i] as int < 128
    ensures (forall i :: 0 <= i < |s| ==> s[i] as int < 128) ==> r == s
  {
    if s == [] then [] else (if s[0] as int < 128 then [s[0]] else []) + AsciiIgnore(s[1..])
  }

  /** The accent test: a letter that differs from its decomposition with the
      non-ASCII parts removed. */
  predicate IsAccented(u: UnicodeData, c: char)
  {
    u.isLetter(c) && [c] != AsciiIgnore(u.nfd(c))
  }

  /** The accent test flags exactly the non-ASCII letters: an accented Latin
      letter, but equally any Greek, Cyrillic or CJK letter. */
  lemma AccentedIsNonAsciiLetter(u: UnicodeData, c: char)
    requires AsciiStable(u)
    ensures IsAccented(u, c) <==> u.isLetter(c) && c as int >= 128
  {
    var r := AsciiIgnore(u.nfd(c));
    assert |r| >= 1 ==> r[0] as int < 128;
    assert c as int < 128 ==> u.nfd(c) == [c];
  }

  /** `str.isalnum` for one character: a letter or a numeric character. */
  predicate IsAlnum(u: UnicodeData, c: char)
  {
    u.isLetter(c) || u.isNumeric(c)
  }

  /** The special-character test: not alphanumeric, not whitespace, and none of ".,!?". */
  predicate IsSpecialChar(u: UnicodeData, c: char)
  {
    !IsAlnum(u, c) && !IsSpace(c) && c !in ".,!?"
  }

  // ---------------------------------------------------------------------------
  // The values analysed.

  /** `int(series.isna().sum())`. */
  function MissingCount(series: seq<Cell>): nat
  {
    multiset(series)[Missing]
  }

  /** `series.dropna().astype(str)`: the text of every present cell, in order. */
  function TextValues(series: seq<Cell>): seq<string>
  {
    if series == [] then []
    else TextValues(series[..|series| - 1])
           + (if series[|series| - 1].Missing? then [] else [CellText(series[|series| - 1])])
  }

  /** Every cell is either counted missing or contributes one text value. */
  lemma {:induction false} TextValuesCount(series: seq<Cell>)
    ensures |TextValues(series)| + MissingCount(series) == |series|
  {
    if series != [] {
      var init := series[..|series| - 1];
      TextValuesCount(init);
      assert series == init + [series[|series| - 1]];
    }
  }

  /** The text values are the texts of the present cells. */
  lemma {:induction false} TextValuesSpec(series: seq<Cell>)
    ensures forall t :: t in TextValues(series) <==>
              exists i :: 0 <= i < |series| && !series[i].Missing? && CellText(series[i]) == t
  {
    if series != [] {
      var init := series[..|series| - 1];
      TextValuesSpec(init);
      assert forall i :: 0 <= i < |init| ==> series[i] == init[i];
    }
  }

  // ---------------------------------------------------------------------------
  // Accents and special characters.

  /** The accented characters of the column, with no regard to order or repeats. */
  function AccentedSet(u: UnicodeData, texts: seq<string>): set<char>
  {
    set t, c | t in texts && c in t && IsAccented(u, c) :: c
  }

  /** The special characters of the column. */
  function SpecialSet(u: UnicodeData, texts: seq<string>): set<char>
  {
    set t, c | t in texts && c in t && IsSpecialChar(u, c) :: c
  }

  /** The list `accented_chars` one text contributes, in character order. */
  function AccentedIn(u: UnicodeData, s: string): seq<char>
  {
    if s == [] then []
    else AccentedIn(u, s[..|s| - 1]) + (if IsAccented(u, s[|s| - 1]) then [s[|s| - 1]] else [])
  }

  /** The characters one text adds to `special_chars`: the `elif` branch, taken
      only for characters the accent test rejected. */
  function SpecialIn(u: UnicodeData, s: string): set<char>
  {
    if s == [] then {}
    else SpecialIn(u, s[..|s| - 1])
           + (if !IsAccented(u, s[|s| - 1]) && IsSpecialChar(u, s[|s| - 1]) then {s[|s| - 1]} else {})
  }

  function AccentedInAll(u: UnicodeData, texts: seq<string>): seq<char>
  {
    if texts == [] then [] else AccentedInAll(u, texts[..|texts| - 1]) + AccentedIn(u, texts[|texts| - 1])
  }

  function SpecialInAll(u: UnicodeData, texts: seq<string>): set<char>
  {
    if texts == [] then {} else SpecialInAll(u, texts[..|texts| - 1]) + SpecialIn(u, texts[|texts| - 1])
  }

  /** The character loops: the accented characters in the order found, repeats
      kept, and the set of special characters. */
  method ScanCharacters(u: UnicodeData, texts: seq<string>) returns (accentedChars: seq<char>, specialChars: set<char>)
    ensures accentedChars == AccentedInAll(u, texts)
    ensures specialChars == SpecialInAll(u, texts)
  {
    accentedChars := [];
    specialChars := {};
    for i := 0 to |texts|
      invariant accentedChars == AccentedInAll(u, texts[..i])
      invariant specialChars == SpecialInAll(u, texts[..i])
    {
      var text := texts[i];
      assert texts[..i + 1][..i] == texts[..i];
      for j := 0 to |text|
        invariant accentedChars == AccentedInAll(u, texts[..i]) + AccentedIn(u, text[..j])
        invariant specialChars == SpecialInAll(u, texts[..i]) + SpecialIn(u, text[..j])
      {
        var ch := text[j];
        assert text[..j + 1][..j] == text[..j];
        if IsAccented(u, ch) {
          accentedChars := accentedChars + [ch];
        } else if !IsAlnum(u, ch) && !IsSpace(ch) && ch !in ".,!?" {
          specialChars := specialChars + {ch};
        }
      }
      assert text[..|text|] == text;
    }
    assert texts[..|texts|] == texts;
  }

  lemma {:induction false} AccentedInSpec(u: UnicodeData, s: string)
    ensures forall c :: c in AccentedIn(u, s) <==> c in s && IsAccented(u, c)
  {
    if s != [] {
      AccentedInSpec(u, s[..|s| - 1]);
      assert s == s[..|s| - 1] + [s[|s| - 1]];
    }
  }

  /** An accented character is a letter, so never special: the `elif` costs nothing. */
  lemma {:induction false} SpecialInSpec(u: UnicodeData, s: string)
    ensures forall c :: c in SpecialIn(u, s) <==> c in s && IsSpecialChar(u, c)
  {
    if s != [] {
      SpecialInSpec(u, s[..|s| - 1]);
      assert s == s[..|s| - 1] + [s[|s| - 1]];
    }
  }

  lemma {:induction false} AccentedInAllSpec(u: UnicodeData, texts: seq<string>)
    ensures forall c :: c in AccentedInAll(u, texts) <==> c in AccentedSet(u, texts)
  {
    if texts != [] {
      var init := texts[..|texts| - 1];
      var last := texts[|texts| - 1];
      AccentedInAllSpec(u, init);
      AccentedInSpec(u, last);
      assert texts == init + [last];
      forall c | c in AccentedSet(u, texts)
        ensures c in AccentedInAll(u, texts)
      {
        var t :| t in texts && c in t && IsAccented(u, c);
        if t != last {
          assert t in init;
          assert c in AccentedSet(u, init);
        }
      }
    }
  }

  lemma {:induction false} SpecialInAllSpec(u: UnicodeData, texts: seq<string>)
    ensures SpecialInAll(u, texts) == SpecialSet(u, texts)
  {
    if texts != [] {
      var init := texts[..|texts| - 1];
      var last := texts[|texts| - 1];
      SpecialInAllSpec(u, init);
      SpecialInSpec(u, last);
      assert texts == init + [last];
      forall c | c in SpecialSet(u, texts)
        ensures c in SpecialInAll(u, texts)
      {
        var t :| t in texts && c in t && IsSpecialChar(u, c);
        if t != last {
          assert t in init;
          assert c in SpecialSet(u, init);
        }
      }
    }
  }

  /** The character loops compute the two sets of the report. */
  lemma ScanCharactersSets(u: UnicodeData, texts: seq<string>)
    ensures (set c | c in AccentedInAll(u, texts)) == AccentedSet(u, texts)
    ensures SpecialInAll(u, texts) == SpecialSet(u, texts)
  {
    AccentedInAllSpec(u, texts);
    SpecialInAllSpec(u, texts);
  }

  /** No character is reported both as an accent and as a special character. */
  lemma AccentsAndSpecialsDisjoint(u: UnicodeData, texts: seq<string>)
    ensures AccentedSet(u, texts) !! SpecialSet(u, texts)
  {
  }

  /** Under ASCII-stable tables the accents found are exactly the non-ASCII
      letters occurring in the column. */
  lemma AccentsAreNonAsciiLetters(u: UnicodeData, texts: seq<string>)
    requires AsciiStable(u)
    ensures forall c :: c in AccentedSet(u, texts) <==>
              (exists t :: t in texts && c in t) && u.isLetter(c) && c as int >= 128
  {
    forall c
      ensures IsAccented(u, c) <==> u.isLetter(c) && c as int >= 128
    {
      AccentedIsNonAsciiLetter(u, c);
    }
  }

  // ---------------------------------------------------------------------------
  // Case consistency.

  /** `text.lower().strip()`. */
  function NormKey(u: UnicodeData, t: string): string
  {
    Strip(u.lower(t))
  }

  /** One step of the grouping: append t to the list under k, opening it if new. */
  function AddToGroup(m: map<string, seq<string>>, k: string, t: string): map<string, seq<string>>
  {
    if k in m then m[k := m[k] + [t]] else m[k := [t]]
  }

  /** The dictionary `normalized_texts`: each normalized form mapped to the
      texts having it, in column order. */
  function GroupTexts(u: UnicodeData, texts: seq<string>): map<string, seq<string>>
  {
    if texts == [] then map[]
    else AddToGroup(GroupTexts(u, texts[..|texts| - 1]), NormKey(u, texts[|texts| - 1]), texts[|texts| - 1])
  }

  lemma GroupTextsStep(u: UnicodeData, texts: seq<string>, i: nat)
    requires i < |texts|
    ensures GroupTexts(u, texts[..i + 1]) == AddToGroup(GroupTexts(u, texts[..i]), NormKey(u, texts[i]), texts[i])
  {
    assert texts[..i + 1][..i] == texts[..i];
  }

  /** The texts of the column whose normalized form is k, in column order. */
  function TextsWithKey(u: UnicodeData, texts: seq<string>, k: string): seq<string>
  {
    if texts == [] then []
    else TextsWithKey(u, texts[..|texts| - 1], k)
           + (if NormKey(u, texts[|texts| - 1]) == k then [texts[|texts| - 1]] else [])
  }

  lemma {:induction false} TextsWithKeySpec(u: UnicodeData, texts: seq<string>, k: string)
    ensures forall t :: t in TextsWithKey(u, texts, k) <==> t in texts && NormKey(u, t) == k
  {
    if texts != [] {
      TextsWithKeySpec(u, texts[..|texts| - 1], k);
      assert texts == texts[..|texts| - 1] + [texts[|texts| - 1]];
    }
  }

  /** A normalized form is a key exactly when some text has it, and its list
      holds those texts in column order. */
  lemma {:induction false} GroupTextsSpec(u: UnicodeData, texts: seq<string>)
    ensures forall k :: k in GroupTexts(u, texts) <==> |TextsWithKey(u, texts, k)| > 0
    ensures forall k :: k in GroupTexts(u, texts) ==> GroupTexts(u, texts)[k] == TextsWithKey(u, texts, k)
  {
    if texts != [] {
      var init := texts[..|texts| - 1];
      var t := texts[|texts| - 1];
      GroupTextsSpec(u, init);
      forall k
        ensures TextsWithKey(u, texts, k)
                  == TextsWithKey(u, init, k) + (if NormKey(u, t) == k then [t] else [])
      {
      }
    }
  }

  /** The grouping loop. */
  method GroupByNormalizedText(u: UnicodeData, texts: seq<string>) returns (normalizedTexts: map<string, seq<string>>)
    ensures normalizedTexts == GroupTexts(u, texts)
  {
    normalizedTexts := map[];
    for i := 0 to |texts|
      invariant normalizedTexts == GroupTexts(u, texts[..i])
    {
      var text := texts[i];
      GroupTextsStep(u, texts, i);
      var normalized := NormKey(u, text);
      if normalized in normalizedTexts {
        normalizedTexts := normalizedTexts[normalized := normalizedTexts[normalized] + [text]];
      } else {
        normalizedTexts := normalizedTexts[normalized := [text]];
      }
    }
    assert texts[..|texts|] == texts;
  }

  function ElemSet<T>(s: seq<T>): set<T>
  {
    set x | x in s
  }

  /** `inconsistent_cases`: every group with more than one distinct text, mapped
      to its distinct texts. */
  function InconsistentGroups(groups: map<string, seq<string>>): map<string, set<string>>
  {
    map k | k in groups && |ElemSet(groups[k])| > 1 :: ElemSet(groups[k])
  }

  /** The loop over `normalized_texts.items()`. */
  method InconsistentCases(groups: map<string, seq<string>>) returns (inconsistentCases: map<string, set<string>>)
    ensures inconsistentCases == InconsistentGroups(groups)
  {
    inconsistentCases := map[];
    var keys := groups.Keys;
    ghost var done: set<string> := {};
    while keys != {}
      invariant keys + done == groups.Keys && keys !! done
      invariant inconsistentCases == map k | k in done && |ElemSet(groups[k])| > 1 :: ElemSet(groups[k])
      decreases keys
    {
      var normalized :| normalized in keys;
      var variations := groups[normalized];
      var distinct := set x | x in variations;
      if |distinct| > 1 {
        inconsistentCases := inconsistentCases[normalized := distinct];
      }
      keys := keys - {normalized};
      done := done + {normalized};
    }
  }

  /** The distinct texts of the column with normalized form k. */
  function CaseVariants(u: UnicodeData, texts: seq<string>, k: string): set<string>
  {
    set t | t in texts && NormKey(u, t) == k
  }

  /** The case-inconsistency entry, stated on the column: every normalized form
      shared by more than one distinct text, mapped to those texts. */
  function CaseInconsistency(u: UnicodeData, texts: seq<string>): map<string, set<string>>
  {
    map k | k in (set t | t in texts :: NormKey(u, t)) && |CaseVariants(u, texts, k)| > 1 :: CaseVariants(u, texts, k)
  }

  /** The keys of the grouping are the normalized forms that occur. */
  lemma GroupKeys(u: UnicodeData, texts: seq<string>)
    ensures GroupTexts(u, texts).Keys == set t | t in texts :: NormKey(u, t)
  {
    GroupTextsSpec(u, texts);
    forall k | k in (set t | t in texts :: NormKey(u, t))
      ensures k in GroupTexts(u, texts)
    {
      TextsWithKeySpec(u, texts, k);
      var t :| t in texts && NormKey(u, t) == k;
      assert t in TextsWithKey(u, texts, k);
    }
    forall k | k in GroupTexts(u, texts)
      ensures k in (set t | t in texts :: NormKey(u, t))
    {
      TextsWithKeySpec(u, texts, k);
      var w := TextsWithKey(u, texts, k);
      assert w[0] in w;
    }
  }

  /** The distinct texts under a key are the column's texts with that normalized form. */
  lemma GroupVariants(u: UnicodeData, texts: seq<string>, k: string)
    requires k in GroupTexts(u, texts)
    ensures ElemSet(GroupTexts(u, texts)[k]) == CaseVariants(u, texts, k)
  {
    GroupTextsSpec(u, texts);
    TextsWithKeySpec(u, texts, k);
  }

  /** The grouping loop followed by the selection loop computes the entry. */
  lemma GroupedInconsistency(u: UnicodeData, texts: seq<string>)
    ensures InconsistentGroups(GroupTexts(u, texts)) == CaseInconsistency(u, texts)
  {
    var groups := GroupTexts(u, texts);
    GroupKeys(u, texts);
    forall k | k in groups
      ensures ElemSet(groups[k]) == CaseVariants(u, texts, k)
    {
      GroupVariants(u, texts, k);
    }
  }

  lemma TwoElements<T>(s: set<T>)
    ensures |s| > 1 <==> exists x, y :: x in s && y in s && x != y
  {
    if |s| > 1 {
      var x :| x in s;
      assert |s - {x}| == |s| - 1;
      var y :| y in s - {x};
    }
    if exists x, y :: x in s && y in s && x != y {
      var x, y :| x in s && y in s && x != y;
      assert |s - {x}| == |s| - 1;
      assert y in s - {x};
    }
  }

  /** A normalized form is reported exactly when two different texts of the
      column share it, and it is reported with all texts that have it. */
  lemma CaseInconsistencySpec(u: UnicodeData, texts: seq<string>, k: string)
    ensures k in CaseInconsistency(u, texts) <==>
              exists t1, t2 :: t1 in texts && t2 in texts && t1 != t2 && NormKey(u, t1) == k && NormKey(u, t2) == k
    ensures k in CaseInconsistency(u, texts) ==>
              forall t :: t in CaseInconsistency(u, texts)[k] <==> t in texts && NormKey(u, t) == k
  {
    var v := CaseVariants(u, texts, k);
    TwoElements(v);
    if |v| > 1 {
      var x, y :| x in v && y in v && x != y;
      assert x in texts && NormKey(u, x) == k;
      assert y in texts && NormKey(u, y) == k;
      assert k in (set t | t in texts :: NormKey(u, t));
    } else {
      forall t1, t2 | t1 in texts && t2 in texts && NormKey(u, t1) == k && NormKey(u, t2) == k
        ensures t1 == t2
      {
        assert t1 in v && t2 in v;
      }
    }
  }

  // ---------------------------------------------------------------------------
  // Whitespace.

  datatype WhitespaceTag = LeadingTrailingSpaces | MultipleSpaces

  /** The tags the whitespace loop appends for one text. */
  function WhitespaceTagsOf(t: string): seq<WhitespaceTag>
  {
    (if t != Strip(t) then [LeadingTrailingSpaces] else [])
      + (if Contains(t, "  ") then [MultipleSpaces] else [])
  }

  /** The list `whitespace_issues`. */
  function WhitespaceIssueList(texts: seq<string>): seq<WhitespaceTag>
  {
    if texts == [] then [] else WhitespaceIssueList(texts[..|texts| - 1]) + WhitespaceTagsOf(texts[|texts| - 1])
  }

  /** The whitespace loop. */
  method WhitespaceIssues(texts: seq<string>) returns (whitespaceIssues: seq<WhitespaceTag>)
    ensures whitespaceIssues == WhitespaceIssueList(texts)
  {
    whitespaceIssues := [];
    for i := 0 to |texts|
      invariant whitespaceIssues == WhitespaceIssueList(texts[..i])
    {
      var text := texts[i];
      assert texts[..i + 1][..i] == texts[..i];
      if text != Strip(text) {
        whitespaceIssues := whitespaceIssues + [LeadingTrailingSpaces];
      }
      if Contains(text, "  ") {
        whitespaceIssues := whitespaceIssues + [MultipleSpaces];
      }
    }
    assert texts[..|texts|] == texts;
  }

  /** Some text of the column begins or ends with whitespace. */
  predicate SomeEdgeSpace(texts: seq<string>)
  {
    exists t :: t in texts && t != [] && (IsSpace(t[0]) || IsSpace(t[|t| - 1]))
  }

  /** The whitespace entry, stated on the column. */
  function WhitespaceSet(texts: seq<string>): set<WhitespaceTag>
  {
    (if SomeEdgeSpace(texts) then {LeadingTrailingSpaces} else {})
      + (if exists t :: t in texts && Contains(t, "  ") then {MultipleSpaces} else {})
  }

  lemma {:induction false} LeadingTagSpec(texts: seq<string>)
    ensures LeadingTrailingSpaces in WhitespaceIssueList(texts) <==> exists t :: t in texts && t != Strip(t)
  {
    if texts != [] {
      var init := texts[..|texts| - 1];
      var last := texts[|texts| - 1];
      LeadingTagSpec(init);
      assert LeadingTrailingSpaces in WhitespaceTagsOf(last) <==> last != Strip(last);
      assert forall t :: t in texts <==> t in init || t == last;
    }
  }

  lemma {:induction false} MultipleTagSpec(texts: seq<string>)
    ensures MultipleSpaces in WhitespaceIssueList(texts) <==> exists t :: t in texts && Contains(t, "  ")
  {
    if texts != [] {
      var init := texts[..|texts| - 1];
      var last := texts[|texts| - 1];
      MultipleTagSpec(init);
      assert MultipleSpaces in WhitespaceTagsOf(last) <==> Contains(last, "  ");
      assert forall t :: t in texts <==> t in init || t == last;
    }
  }

  /** `leading_trailing_spaces` is reported exactly when some text starts or ends
      with whitespace (of any kind `strip()` removes), and `multiple_spaces`
      exactly when some text holds two adjacent spaces. */
  lemma WhitespaceIssueListSpec(texts: seq<string>)
    ensures forall w :: w in WhitespaceIssueList(texts) <==> w in WhitespaceSet(texts)
  {
    var l := WhitespaceIssueList(texts);
    var s := WhitespaceSet(texts);
    LeadingTagSpec(texts);
    EdgeSpaceIffStripChanges(texts);
    assert LeadingTrailingSpaces in l <==> LeadingTrailingSpaces in s;
    MultipleTagSpec(texts);
    assert MultipleSpaces in l <==> MultipleSpaces in s;
    forall w
      ensures w in l <==> w in s
    {
      match w
      case LeadingTrailingSpaces =>
      case MultipleSpaces =>
    }
  }

  lemma EdgeSpaceIffStripChanges(texts: seq<string>)
    ensures SomeEdgeSpace(texts) <==> exists t :: t in texts && t != Strip(t)
  {
    forall t | t in texts
      ensures t != Strip(t) <==> t != [] && (IsSpace(t[0]) || IsSpace(t[|t| - 1]))
    {
      StripUnchanged(t);
    }
  }

  // ---------------------------------------------------------------------------
  // The report.

  /** The `text_issues` dictionary: each entry is present only when non-empty.
      The lists of the source become sets, their order being that of a set. */
  datatype TextIssues = TextIssues(
    accentsFound: Option<set<char>>,
    specialChars: Option<set<char>>,
    caseInconsistency: Option<map<string, set<string>>>,
    whitespaceIssues: Option<set<WhitespaceTag>>)

  datatype QualityReport = QualityReport(column: string, missingCount: nat, textIssues: TextIssues)

  function IfAny<T>(s: set<T>): Option<set<T>>
  {
    if s == {} then None else Some(s)
  }

  /** A column with no present value has no issue of any kind. */
  lemma EmptyColumnNoIssues(u: UnicodeData)
    ensures AccentedSet(u, []) == {} && SpecialSet(u, []) == {}
    ensures CaseInconsistency(u, []) == map[] && WhitespaceSet([]) == {}
  {
  }

  /** The report's entries from the lists the loops build. */
  lemma ReportEntries(u: UnicodeData, texts: seq<string>)
    ensures (set c | c in AccentedInAll(u, texts)) == AccentedSet(u, texts)
    ensures AccentedInAll(u, texts) == [] <==> AccentedSet(u, texts) == {}
    ensures SpecialInAll(u, texts) == SpecialSet(u, texts)
    ensures InconsistentGroups(GroupTexts(u, texts)) == CaseInconsistency(u, texts)
    ensures (set w | w in WhitespaceIssueList(texts)) == WhitespaceSet(texts)
    ensures WhitespaceIssueList(texts) == [] <==> WhitespaceSet(texts) == {}
  {
    ScanCharactersSets(u, texts);
    var a := AccentedInAll(u, texts);
    if a != [] {
      assert a[0] in AccentedSet(u, texts);
    }
    GroupedInconsistency(u, texts);
    WhitespaceIssueListSpec(texts);
    var l := WhitespaceIssueList(texts);
    if l != [] {
      assert l[0] in WhitespaceSet(texts);
    }
  }

  /** `analyze_text_quality`: the column name, the number of missing cells, and
      each issue entry present exactly when the column shows that issue, holding
      everything that shows it. */
  method AnalyzeTextQuality(u: UnicodeData, series: seq<Cell>, columnName: string) returns (analysis: QualityReport)
    ensures analysis.column == columnName
    ensures analysis.missingCount == MissingCount(series)
    ensures var texts := TextValues(series);
            var cases := CaseInconsistency(u, texts);
            analysis.textIssues == TextIssues(IfAny(AccentedSet(u, texts)), IfAny(SpecialSet(u, texts)),
                                              if cases == map[] then None else Some(cases),
                                              IfAny(WhitespaceSet(texts)))
  {
    var issues := TextIssues(None, None, None, None);
    analysis := QualityReport(columnName, MissingCount(series), issues);
    var textData := TextValues(series);
    if |textData| == 0 {
      EmptyColumnNoIssues(u);
      return;
    }
    ReportEntries(u, textData);
    var accentedChars, specialChars := ScanCharacters(u, textData);
    if accentedChars != [] {
      issues := issues.(accentsFound := Some(set c | c in accentedChars));
    }
    if specialChars != {} {
      issues := issues.(specialChars := Some(specialChars));
    }
    var normalizedTexts := GroupByNormalizedText(u, textData);
    var inconsistentCases := InconsistentCases(normalizedTexts);
    if inconsistentCases != map[] {
      issues := issues.(caseInconsistency := Some(inconsistentCases));
    }
    var whitespaceIssues := WhitespaceIssues(textData);
    if whitespaceIssues != [] {
      issues := issues.(whitespaceIssues := Some(set w | w in whitespaceIssues));
    }
    analysis := analysis.(textIssues := issues);
  }
}
