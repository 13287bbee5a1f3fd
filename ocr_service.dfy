/** OCRService: the post-processing of recognised text.  calculateMatchScore
    scores a search term against a catalog name, extractMonasteryInfo derives
    a suggested name, a suggested location and the monastery keywords from
    the text, and findMatchingMonasteries scores the catalog's hits for a
    name.  The catalog query itself is a parameter. */
module OCRService {

  import opened Wrappers
  import opened AsciiText
  import opened EditDistance

  // ----- calculateMatchScore -----

  /** The comparison form of a string: lower-cased, then trimmed. */
  function Normalize(s: string): string {
    Trim(ToLower(s))
  }

  function RealMax(x: real, y: real): real {
    if x >= y then x else y
  }

  /** calculateMatchScore: 100 for equal normalised strings, 80 when the
      catalog name contains the search term, 75 when the search term contains
      the catalog name, and otherwise 100 minus the edit distance as a
      percentage of the longer length, floored at 0.  The score always lies
      in [0, 100] and is 100 exactly for equal normalised strings. */
  function MatchScore(searchTerm: string, catalogName: string): (score: real)
    ensures 0.0 <= score <= 100.0
    ensures score == 100.0 <==> Normalize(searchTerm) == Normalize(catalogName)
  {
    ScoreOfForms(Normalize(searchTerm), Normalize(catalogName))
  }

  /** The tiers of calculateMatchScore, applied to the normalised forms. */
  function ScoreOfForms(s1: string, s2: string): (score: real)
    ensures 0.0 <= score <= 100.0
    ensures score == 100.0 <==> s1 == s2
  {
    if s1 == s2 then 100.0
    else if Contains(s2, s1) then 80.0
    else if Contains(s1, s2) then 75.0
    else
      assert s1 != [] && s2 != [] by { ContainsEmptyAndSelf(s1); ContainsEmptyAndSelf(s2); }
      var distance := Distance(s1, s2);
      var maxLen := Max(|s1|, |s2|);
      DistanceBounds(s1, s2);
      DistanceZeroIffEqual(s1, s2);
      RatioBounds(distance, maxLen);
      RealMax(0.0, 100.0 - (distance as real / maxLen as real) * 100.0)
  }

  /** d / m lies in (0, 1] when 0 < d <= m. */
  lemma RatioBounds(d: nat, m: nat)
    requires 0 < d <= m
    ensures 0.0 < d as real / m as real <= 1.0
  {
    var q := d as real / m as real;
    assert q * m as real == d as real;
  }

  /** The tiers are tried in order and the first one that applies decides. */
  lemma ScoreTiers(searchTerm: string, catalogName: string)
    ensures var s1, s2 := Normalize(searchTerm), Normalize(catalogName);
            (s1 != s2 && Contains(s2, s1) ==> MatchScore(searchTerm, catalogName) == 80.0) &&
            (s1 != s2 && !Contains(s2, s1) && Contains(s1, s2) ==> MatchScore(searchTerm, catalogName) == 75.0) &&
            (Contains(s2, s1) || Contains(s1, s2) ==> MatchScore(searchTerm, catalogName) >= 75.0)
  {
  }

  /** In the edit-distance tier both strings are non-empty, so the longer
      length is positive, and the floor at 0 never applies because the
      distance is at most the longer length: the score is exactly
      100 - (d / maxLen) * 100, which lies in [0, 100). */
  lemma ScoreByDistance(searchTerm: string, catalogName: string)
    requires !Contains(Normalize(catalogName), Normalize(searchTerm))
    requires !Contains(Normalize(searchTerm), Normalize(catalogName))
    ensures var s1, s2 := Normalize(searchTerm), Normalize(catalogName);
            var maxLen := Max(|s1|, |s2|);
            maxLen > 0 &&
            MatchScore(searchTerm, catalogName) ==
              100.0 - (Distance(s1, s2) as real / maxLen as real) * 100.0 &&
            MatchScore(searchTerm, catalogName) < 100.0
  {
    var s1, s2 := Normalize(searchTerm), Normalize(catalogName);
    ContainsEmptyAndSelf(s1);
    ContainsEmptyAndSelf(s2);
    DistanceBounds(s1, s2);
    DistanceZeroIffEqual(s1, s2);
    RatioBounds(Distance(s1, s2), Max(|s1|, |s2|));
  }

  /** A search term that is blank after trimming is contained in every name,
      so it scores 80 against every name that is not itself blank. */
  lemma BlankSearchTermScores80(searchTerm: string, catalogName: string)
    requires IsBlank(ToLower(searchTerm))
    requires !IsBlank(ToLower(catalogName))
    ensures MatchScore(searchTerm, catalogName) == 80.0
  {
    TrimFacts(ToLower(searchTerm));
    TrimFacts(ToLower(catalogName));
    ContainsEmptyAndSelf(Normalize(catalogName));
  }

  /** Normalising twice is normalising once. */
  lemma NormalizeIdempotent(s: string)
    ensures Normalize(Normalize(s)) == Normalize(s)
  {
    var n := Normalize(s);
    ToLowerIsLowerCase(s);
    TrimOfLowerCase(ToLower(s));
    ToLowerOfLowerCase(n);
    TrimIdempotent(ToLower(s));
  }

  /** The score ignores case and surrounding whitespace. */
  lemma ScoreOfNormalized(searchTerm: string, catalogName: string)
    ensures MatchScore(Normalize(searchTerm), Normalize(catalogName)) == MatchScore(searchTerm, catalogName)
  {
    NormalizeIdempotent(searchTerm);
    NormalizeIdempotent(catalogName);
  }

  // ----- extractMonasteryInfo -----

  const MonasteryKeywords: seq<string> :=
    ["gompa", "monastery", "lhakhang", "chorten", "lama", "temple",
     "buddhist", "dharma", "sangha", "stupa", "pagoda"]

  const LocationKeywords: seq<string> :=
    ["sikkim", "darjeeling", "west bengal", "himalayan", "mountain", "valley",
     "village", "district", "nepal", "bhutan", "tibet"]

  const UnknownName: string := "Unknown Monastery"
  const NoLocation: string := "Location not identified"

  datatype MonasteryInfo = MonasteryInfo(
    suggestedName: string,
    suggestedLocation: string,
    detectedKeywords: seq<string>,
    fullText: string)

  predicate Distinct(s: seq<string>) {
    forall i, j :: 0 <= i < j < |s| ==> s[i] != s[j]
  }

  /** The filter `line.trim().length > 0`: the pieces whose trimmed text is
      not empty, in order. */
  function NonBlank(pieces: seq<string>): seq<string> {
    if pieces == [] then []
    else if Trim(pieces[0]) == "" then NonBlank(pieces[1..])
    else [pieces[0]] + NonBlank(pieces[1..])
  }

  /** NonBlank keeps exactly the pieces that are not blank. */
  lemma {:induction false} NonBlankFacts(pieces: seq<string>)
    ensures forall k :: 0 <= k < |NonBlank(pieces)| ==> !IsBlank(NonBlank(pieces)[k])
    ensures forall l :: l in NonBlank(pieces) <==> l in pieces && !IsBlank(l)
  {
    if pieces != [] {
      NonBlankFacts(pieces[1..]);
      TrimFacts(pieces[0]);
      assert forall l :: l in pieces <==> l == pieces[0] || l in pieces[1..];
    }
  }

  /** NonBlank keeps a piece on its own exactly when it is not blank. */
  lemma NonBlankSingle(x: string)
    ensures NonBlank([x]) == if IsBlank(x) then [] else [x]
  {
    TrimFacts(x);
    assert [x][1..] == [];
  }

  /** NonBlank works piece by piece: the kept pieces stay in their order, with
      their repeats. */
  lemma {:induction false} NonBlankAppend(a: seq<string>, b: seq<string>)
    ensures NonBlank(a + b) == NonBlank(a) + NonBlank(b)
  {
    if a != [] {
      NonBlankAppend(a[1..], b);
      assert (a + b)[0] == a[0];
      assert (a + b)[1..] == a[1..] + b;
    } else {
      assert a + b == b;
    }
  }

  /** The lines the heuristics scan: text.split("\n") without the blank ones. */
  function Lines(text: string): seq<string> {
    NonBlank(SplitLines(text))
  }

  lemma LinesNonBlank(text: string)
    ensures AllNonBlank(Lines(text))
  {
    NonBlankFacts(SplitLines(text));
  }

  /** monasteryKeywords.some(kw => s.includes(kw)), and the same for any list. */
  predicate HasKeyword(s: string, keywords: seq<string>) {
    exists k :: k in keywords && Contains(s, k)
  }

  /** A line that may give the name: it contains a monastery keyword once
      lower-cased, or it consists of letters and whitespace only. */
  predicate IsNameLine(line: string) {
    HasKeyword(ToLower(line), MonasteryKeywords) || IsLettersAndSpaces(line)
  }

  /** A line that may give the location: it contains a location keyword once
      lower-cased. */
  predicate IsLocationLine(line: string) {
    HasKeyword(ToLower(line), LocationKeywords)
  }

  /** Line k is the first line that satisfies `p`. */
  predicate IsFirstWhere(lines: seq<string>, p: string -> bool, k: int) {
    0 <= k < |lines| && p(lines[k]) && forall j :: 0 <= j < k ==> !p(lines[j])
  }

  /** All lines are non-blank, as Lines guarantees. */
  predicate AllNonBlank(lines: seq<string>) {
    forall k :: 0 <= k < |lines| ==> !IsBlank(lines[k])
  }

  /** Scans the lines from the front for one that satisfies `p`. */
  function Scan(lines: seq<string>, p: string -> bool): string {
    if lines == [] then ""
    else if p(lines[0]) then Trim(lines[0])
    else Scan(lines[1..], p)
  }

  /** The trimmed first line that satisfies `p`, or "" when there is none.
      Like KeywordsIn, a name over the recursion for the contracts to use. */
  function FirstWhere(lines: seq<string>, p: string -> bool): string {
    Scan(lines, p)
  }

  /** Over non-blank lines, FirstWhere is "" exactly when no line satisfies
      `p`, and otherwise it is the trimmed text of the first line that does. */
  lemma {:induction false} FirstWhereFacts(lines: seq<string>, p: string -> bool)
    requires AllNonBlank(lines)
    ensures FirstWhere(lines, p) == "" <==> forall k :: 0 <= k < |lines| ==> !p(lines[k])
    ensures FirstWhere(lines, p) != "" ==>
              exists k :: IsFirstWhere(lines, p, k) && FirstWhere(lines, p) == Trim(lines[k])
  {
    if lines == [] {
    } else if p(lines[0]) {
      assert IsFirstWhere(lines, p, 0);
      TrimFacts(lines[0]);
    } else {
      FirstWhereFacts(lines[1..], p);
      var r := FirstWhere(lines[1..], p);
      assert forall k :: 1 <= k < |lines| ==> lines[k] == lines[1..][k - 1];
      if r != "" {
        var k :| IsFirstWhere(lines[1..], p, k) && r == Trim(lines[1..][k]);
        assert IsFirstWhere(lines, p, k + 1);
      }
    }
  }

  /** One step of the scan: line i decides if it qualifies, and is skipped
      otherwise; the text it would give is not empty. */
  lemma FirstWhereStep(lines: seq<string>, p: string -> bool, i: int)
    requires AllNonBlank(lines)
    requires 0 <= i < |lines|
    ensures FirstWhere(lines[i..], p) ==
            if p(lines[i]) then Trim(lines[i]) else FirstWhere(lines[i + 1..], p)
    ensures Trim(lines[i]) != ""
  {
    assert lines[i..][1..] == lines[i + 1..];
    TrimFacts(lines[i]);
  }

  /** The first qualifying line gives the result, whatever follows it. */
  lemma {:induction false} FirstWhereIsFirst(lines: seq<string>, p: string -> bool, k: int)
    requires IsFirstWhere(lines, p, k)
    ensures FirstWhere(lines, p) == Trim(lines[k])
  {
    if k > 0 {
      assert IsFirstWhere(lines[1..], p, k - 1);
      FirstWhereIsFirst(lines[1..], p, k - 1);
    }
  }

  /** Once a line has qualified, lines added after it change nothing. */
  lemma FirstWhereStable(lines: seq<string>, more: seq<string>, p: string -> bool)
    requires AllNonBlank(lines)
    requires FirstWhere(lines, p) != ""
    ensures FirstWhere(lines + more, p) == FirstWhere(lines, p)
  {
    FirstWhereFacts(lines, p);
    var k :| IsFirstWhere(lines, p, k) && FirstWhere(lines, p) == Trim(lines[k]);
    assert IsFirstWhere(lines + more, p, k);
    FirstWhereIsFirst(lines + more, p, k);
  }

  /** Collects, from the end of the list, the keywords that occur in `text`. */
  function Collect(text: string, keywords: seq<string>): seq<string> {
    if keywords == [] then []
    else
      var rest := Collect(text, keywords[..|keywords| - 1]);
      var last := keywords[|keywords| - 1];
      if Contains(text, last) then rest + [last] else rest
  }

  /** The keywords of the list that occur in `text`, in list order.  Contracts
      speak of KeywordsIn rather than of the recursion, so that the verifier
      unfolds it one step at a time. */
  function KeywordsIn(text: string, keywords: seq<string>): seq<string> {
    Collect(text, keywords)
  }

  /** KeywordsIn lists exactly the keywords that occur, and lists none twice
      when the list has no repetition. */
  lemma {:induction false} KeywordsInFacts(text: string, keywords: seq<string>)
    ensures forall k :: k in KeywordsIn(text, keywords) <==> k in keywords && Contains(text, k)
    ensures Distinct(keywords) ==> Distinct(KeywordsIn(text, keywords))
  {
    if keywords != [] {
      var init := keywords[..|keywords| - 1];
      var last := keywords[|keywords| - 1];
      KeywordsInFacts(text, init);
      assert forall k :: k in keywords <==> k in init || k == last;
      assert Distinct(keywords) ==> last !in init;
    }
  }

  /** KeywordsIn keeps the order of the list: whatever it lists earlier sits
      earlier in the list. */
  lemma {:induction false} KeywordsInListOrder(text: string, keywords: seq<string>, i: int, j: int)
    requires 0 <= i < j < |KeywordsIn(text, keywords)|
    ensures exists a, b :: 0 <= a < b < |keywords| &&
              keywords[a] == KeywordsIn(text, keywords)[i] && keywords[b] == KeywordsIn(text, keywords)[j]
  {
    var r := KeywordsIn(text, keywords);
    var init := keywords[..|keywords| - 1];
    var last := keywords[|keywords| - 1];
    var rest := KeywordsIn(text, init);
    if j < |rest| {
      assert r[i] == rest[i] && r[j] == rest[j];
      KeywordsInListOrder(text, init, i, j);
      var a, b :| 0 <= a < b < |init| && init[a] == rest[i] && init[b] == rest[j];
      assert keywords[a] == init[a] && keywords[b] == init[b];
    } else {
      KeywordsInFacts(text, init);
      assert r[j] == last && r[i] == rest[i];
      assert rest[i] in init;
      var a :| 0 <= a < |init| && init[a] == rest[i];
      assert keywords[a] == init[a];
      assert keywords[|keywords| - 1] == r[j];
    }
  }

  /** [...new Set(s)]: the elements of `s` with every repetition after the
      first occurrence dropped. */
  function Dedupe(s: seq<string>): seq<string> {
    if s == [] then []
    else
      var init := s[..|s| - 1];
      var last := s[|s| - 1];
      if last in init then Dedupe(init) else Dedupe(init) + [last]
  }

  /** Dedupe keeps every element, repeats none, and changes nothing in a
      sequence without repetitions. */
  lemma {:induction false} DedupeFacts(s: seq<string>)
    ensures forall x :: x in Dedupe(s) <==> x in s
    ensures Distinct(Dedupe(s))
    ensures Distinct(s) ==> Dedupe(s) == s
  {
    if s != [] {
      var init := s[..|s| - 1];
      var last := s[|s| - 1];
      DedupeFacts(init);
      assert s == init + [last];
      assert forall x :: x in s <==> x in init || x == last;
    }
  }

  lemma MonasteryKeywordsDistinct()
    ensures Distinct(MonasteryKeywords)
  {
  }

  /** The result of extractMonasteryInfo, as a value: the name and the location
      come from the first qualifying line and fall back to fixed texts, the
      keywords are the monastery keywords occurring in the lower-cased text,
      and the text itself is kept. */
  function InfoOf(text: string): MonasteryInfo {
    var lines := Lines(text);
    var name := FirstWhere(lines, IsNameLine);
    var location := FirstWhere(lines, IsLocationLine);
    MonasteryInfo(
      if name == "" then UnknownName else name,
      if location == "" then NoLocation else location,
      KeywordsIn(ToLower(text), MonasteryKeywords),
      text)
  }

  /** The record always carries a name and a location, its keywords are
      exactly the monastery keywords found in the lower-cased text, none twice,
      and the text is returned unchanged. */
  lemma InfoFacts(text: string)
    ensures InfoOf(text).fullText == text
    ensures InfoOf(text).suggestedName != "" && InfoOf(text).suggestedLocation != ""
    ensures forall k :: k in InfoOf(text).detectedKeywords <==> k in MonasteryKeywords && Contains(ToLower(text), k)
    ensures Distinct(InfoOf(text).detectedKeywords)
  {
    KeywordsInFacts(ToLower(text), MonasteryKeywords);
    MonasteryKeywordsDistinct();
  }

  /** The for-of loop over a keyword list that pushes every keyword `text`
      includes. */
  method PushFound(text: string, keywords: seq<string>) returns (found: seq<string>)
    ensures found == KeywordsIn(text, keywords)
  {
    found := [];
    for k := 0 to |keywords|
      invariant found == KeywordsIn(text, keywords[..k])
    {
      var keyword := keywords[k];
      assert keywords[..k + 1][..k] == keywords[..k];
      if Contains(text, keyword) {
        found := found + [keyword];
      }
    }
    assert keywords[..|keywords|] == keywords;
  }

  /** extractMonasteryInfo, loop by loop: the name loop stops at the first
      keyword line and otherwise keeps the first letters-only line, the
      location loop stops at the first location line, and the keyword loop
      appends the keywords found before duplicates are removed. */
  method ExtractMonasteryInfo(text: string) returns (info: MonasteryInfo)
    ensures info == InfoOf(text)
  {
    var textLower := ToLower(text);
    var suggestedName := "";
    var suggestedLocation := "";
    var detectedKeywords: seq<string> := [];
    var lines := Lines(text);
    LinesNonBlank(text);

    for i := 0 to |lines|
      invariant suggestedName == "" ==> FirstWhere(lines, IsNameLine) == FirstWhere(lines[i..], IsNameLine)
      invariant suggestedName != "" ==> suggestedName == FirstWhere(lines, IsNameLine)
    {
      var line := lines[i];
      var lowerLine := ToLower(line);
      var hasMonasteryKeyword := HasKeyword(lowerLine, MonasteryKeywords);
      FirstWhereStep(lines, IsNameLine, i);
      if hasMonasteryKeyword && suggestedName == "" {
        suggestedName := Trim(line);
        break;
      }
      if suggestedName == "" && IsLettersAndSpaces(line) {
        suggestedName := Trim(line);
      }
    }

    for i := 0 to |lines|
      invariant suggestedLocation == "" ==> FirstWhere(lines, IsLocationLine) == FirstWhere(lines[i..], IsLocationLine)
      invariant suggestedLocation != "" ==> suggestedLocation == FirstWhere(lines, IsLocationLine)
    {
      var line := lines[i];
      var lowerLine := ToLower(line);
      var hasLocationKeyword := HasKeyword(lowerLine, LocationKeywords);
      FirstWhereStep(lines, IsLocationLine, i);
      if hasLocationKeyword && suggestedLocation == "" {
        suggestedLocation := Trim(line);
        break;
      }
    }

    detectedKeywords := PushFound(textLower, MonasteryKeywords);
    MonasteryKeywordsDistinct();
    KeywordsInFacts(textLower, MonasteryKeywords);
    DedupeFacts(detectedKeywords);

    info := MonasteryInfo(
      if suggestedName == "" then UnknownName else suggestedName,
      if suggestedLocation == "" then NoLocation else suggestedLocation,
      Dedupe(detectedKeywords),
      text);
  }

  /** The suggested name is the trimmed first line that contains a monastery
      keyword or is letters and whitespace only; a later keyword line does
      not replace an earlier letters-only line. */
  lemma NameIsFirstNameLine(text: string, k: int)
    requires IsFirstWhere(Lines(text), IsNameLine, k)
    ensures InfoOf(text).suggestedName == Trim(Lines(text)[k])
  {
    FirstWhereIsFirst(Lines(text), IsNameLine, k);
    LinesNonBlank(text);
    TrimFacts(Lines(text)[k]);
  }

  /** Without a qualifying line the name is "Unknown Monastery". */
  lemma NameFallback(text: string)
    requires forall k :: 0 <= k < |Lines(text)| ==> !IsNameLine(Lines(text)[k])
    ensures InfoOf(text).suggestedName == UnknownName
  {
    LinesNonBlank(text);
    FirstWhereFacts(Lines(text), IsNameLine);
  }

  /** The suggested location is the trimmed first line containing a location
      keyword. */
  lemma LocationIsFirstLocationLine(text: string, k: int)
    requires IsFirstWhere(Lines(text), IsLocationLine, k)
    ensures InfoOf(text).suggestedLocation == Trim(Lines(text)[k])
  {
    FirstWhereIsFirst(Lines(text), IsLocationLine, k);
    LinesNonBlank(text);
    TrimFacts(Lines(text)[k]);
  }

  /** Without a location line the location is "Location not identified". */
  lemma LocationFallback(text: string)
    requires forall k :: 0 <= k < |Lines(text)| ==> !IsLocationLine(Lines(text)[k])
    ensures InfoOf(text).suggestedLocation == NoLocation
  {
    LinesNonBlank(text);
    FirstWhereFacts(Lines(text), IsLocationLine);
  }

  /** The empty text has no lines and no keyword: both fallbacks and []. */
  lemma EmptyTextInfo()
    ensures InfoOf("") == MonasteryInfo(UnknownName, NoLocation, [], "")
  {
    var r := InfoOf("");
    KeywordsInFacts("", MonasteryKeywords);
    if r.detectedKeywords != [] {
      var k := r.detectedKeywords[0];
      EmptyContainsOnlyEmpty(k);
    }
  }

  /** A letters-only first line is kept as the name whatever follows it, even
      a line with a monastery keyword: both branches of the name loop require
      the name to be still unset. */
  lemma LettersOnlyFirstLineWins(first: string, rest: string)
    requires '\n' !in first && !IsBlank(first) && IsLettersAndSpaces(first)
    ensures InfoOf(first + "\n" + rest).suggestedName == Trim(first)
  {
    var text := first + "\n" + rest;
    SplitLinesOfLine(first, rest);
    TrimFacts(first);
    assert ([first] + SplitLines(rest))[1..] == SplitLines(rest);
    assert Lines(text) == [first] + NonBlank(SplitLines(rest));
    assert IsFirstWhere(Lines(text), IsNameLine, 0);
    NameIsFirstNameLine(text, 0);
  }

  // ----- findMatchingMonasteries -----

  /** A record of the catalog, with the fields the query and the mapping use. */
  datatype MonasteryRecord = MonasteryRecord(
    id: string,
    name: string,
    location: string,
    district: string,
    alternateNames: seq<string>,
    keywords: seq<string>)

  datatype MatchCandidate = MatchCandidate(
    id: string,
    name: string,
    location: string,
    district: string,
    matchScore: real)

  /** The catalog: `find` stands for the query on name, alternate names and
      keywords built from the search name, before any limit; it may fail. */
  datatype Catalog = Catalog(find: string -> Result<seq<MonasteryRecord>, string>)

  /** The query's `.limit(5)`. */
  const QueryLimit: nat := 5

  function Limit(hits: seq<MonasteryRecord>, n: nat): (r: seq<MonasteryRecord>)
    ensures |r| <= n && |r| <= |hits|
    ensures |r| == n || |r| == |hits|
    ensures r == hits[..|r|]
  {
    if |hits| <= n then hits else hits[..n]
  }

  function ToCandidate(name: string, m: MonasteryRecord): MatchCandidate {
    MatchCandidate(m.id, m.name, m.location, m.district, MatchScore(name, m.name))
  }

  /** findMatchingMonasteries: [] for an empty name, a missing catalog or a
      failed query; otherwise one candidate per hit of the limited query, in
      the catalog's order (not sorted by score), each scored against the
      search name. */
  function FindMatchingMonasteries(name: string, model: Option<Catalog>): (r: seq<MatchCandidate>)
    ensures name == "" || model.None? ==> r == []
    ensures model.Some? && model.value.find(name).Failure? ==> r == []
    ensures model.Some? && name != "" && model.value.find(name).Success? ==>
              var hits := Limit(model.value.find(name).value, QueryLimit);
              |r| == |hits| &&
              forall i :: 0 <= i < |r| ==>
                r[i].id == hits[i].id && r[i].name == hits[i].name &&
                r[i].location == hits[i].location && r[i].district == hits[i].district &&
                r[i].matchScore == MatchScore(name, hits[i].name)
    ensures |r| <= QueryLimit
    ensures forall i :: 0 <= i < |r| ==> 0.0 <= r[i].matchScore <= 100.0
  {
    if name == "" || model.None? then []
    else
      match model.value.find(name)
      case Failure(_) => []
      case Success(found) =>
        var hits := Limit(found, QueryLimit);
        seq(|hits|, i requires 0 <= i < |hits| => ToCandidate(name, hits[i]))
  }
}
