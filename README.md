# SIH Project Sangha — OCR post-processing and admin route guard, in Dafny

This project models two parts of the Sangha monastery-documentation system and
proves properties about them.

- **OCR post-processing** (`backend/OCRService.js`). Once a scanned document has
  been recognised, its text is turned into suggestions:
  - `extractMonasteryInfo` picks a suggested monastery name and a suggested
    location from the lines of the text, lists the monastery keywords found in it,
    and keeps the text.
  - `findMatchingMonasteries` asks the monastery catalog for records like the
    suggested name and scores each hit with `calculateMatchScore`.
  - `calculateMatchScore` is a tiered similarity score. It gives 100 for equal
    strings, 80 or 75 when one contains the other, and otherwise a percentage
    derived from the Levenshtein edit distance, which `levenshteinDistance`
    computes with a dynamic-programming table.
- **Admin route guard** (`sih-website/middleware.ts`). For a request path and the
  optional `admin_token` cookie, `middleware` either lets the request through or
  redirects it to `/admin`. It skips framework and public paths, and it protects
  six admin sections and the paths below them.

The modules follow the source:

| module | file | contents |
|---|---|---|
| `Wrappers` | `wrappers.dfy` | `Option` and `Result` |
| `AsciiText` | `ascii_text.dfy` | the JavaScript string operations the code relies on, over ASCII: `toLowerCase`, `trim`, `includes`, `startsWith`, `split("\n")`, and the regular expression `/^[A-Za-z\s]+$/` |
| `EditDistance` | `edit_distance.dfy` | `levenshteinDistance` |
| `OCRService` | `ocr_service.dfy` | `calculateMatchScore`, `extractMonasteryInfo`, `findMatchingMonasteries` |
| `Middleware` | `middleware.dfy` | `PROTECTED_PREFIXES` and the decision of `middleware` |

### How the parts are modelled

- **`levenshteinDistance`** is a method. It fills a `array2<nat>` row by row,
  exactly as the source's nested loops do. Its loop invariants say that every cell
  filled so far equals `Cell`, the table recurrence. `Distance` is the bottom-right
  cell. Two lemmas show that `Distance` is the true Levenshtein distance:
  - `CheapestScript` builds an edit script, made of keep, substitute, insert and
    delete steps, that turns one string into the other at cost `Distance`;
  - `ScriptCostAtLeastDistance` shows that no script costs less.
- **`extractMonasteryInfo`** is a method with the source's loops:
  - the name loop, with its `break`;
  - the location loop, with its `break`;
  - the keyword loop, which is the helper method `PushFound`.

  It is proved equal to `InfoOf`, a function of the text. The lemmas about
  `InfoOf` state which line yields the name and which the location, the two
  fallbacks, and the exact keyword list.
- **`calculateMatchScore`** and **`findMatchingMonasteries`** are functions.
- **The catalog** is a value of type `Catalog`:
  - its function field `find` maps a search name to the records the query matches,
    or to a failure;
  - the query's `.limit(5)` is written out as `Limit`.
- **`middleware`** is the function `Decide` from a pathname and an
  `Option<string>` cookie value to `Next` or `Redirect(pathname)`.

### Where the source's comments and the code differ

The comment above the name loop (`backend/OCRService.js` line 91) says the name is
usually the first meaningful line with a monastery keyword, and the comment at line
103 calls the letters-only test an alternative for when no keyword is found. The
code does not do this. The letters-only branch sets `suggestedName` without
leaving the loop, and after that the keyword branch is guarded by
`suggestedName === ""` and can no longer fire (lines 98 and 104). So the first
line that contains a keyword or consists of letters and whitespace wins, even when
a later line has a keyword. The model follows the code.
`OCRService.LettersOnlyFirstLineWins` states the effect: a letters-only first line
is the name whatever lines follow.

## Model

The definitions that model source constructs directly (`InfoOf`, `Distance`,
`Normalize`, `Trim`, `Contains`, `Lines`, `NonBlank`, `HasKeyword`, `Dedupe`,
`IsSkipped`, `IsProtected`, `HasToken` and the like) carry no contract of their
own. Each is pinned down by the rows of the lemmas about it, which cite the
source lines it models.

| member | source | states |
|---|---|---|
| AsciiText.LowerChar | backend/OCRService.js:83 | The ASCII `toLowerCase` of one character. It never yields an upper-case letter, and it preserves whether the character is a letter and whether it is whitespace. |
| AsciiText.ToLower | backend/OCRService.js:83 | Lower-casing preserves the length of the string. |
| AsciiText.ToLowerAt | backend/OCRService.js:83 | Every character of the lower-cased string is the lower-cased character at the same position. |
| AsciiText.ToLowerIsLowerCase | backend/OCRService.js:180-181 | The result of lower-casing contains no upper-case letter. |
| AsciiText.ToLowerOfLowerCase | backend/OCRService.js:180-181 | Lower-casing a string without upper-case letters changes nothing. |
| AsciiText.ToLowerIdempotent | backend/OCRService.js:180-181 | Lower-casing twice is lower-casing once. |
| AsciiText.TrimStartFacts | backend/OCRService.js:89 | Removing leading whitespace leaves a suffix of the input. The part removed is whitespace, the result does not start with whitespace, and it is empty exactly when the input is blank. |
| AsciiText.TrimEndFacts | backend/OCRService.js:89 | Removing trailing whitespace leaves a prefix of the input. The part removed is whitespace, the result does not end with whitespace, and it is empty exactly when the input is blank. |
| AsciiText.TrimFacts | backend/OCRService.js:89 | `trim` yields a middle slice of the input with only whitespace outside it. The result has no whitespace at either end, and it is empty exactly when the input is blank. |
| AsciiText.TrimOfTrimmed | backend/OCRService.js:180-181 | Trimming a string that has no whitespace at its ends changes nothing. |
| AsciiText.TrimOfLowerCase | backend/OCRService.js:180-181 | Trimming keeps a lower-case string lower-case. |
| AsciiText.TrimIdempotent | backend/OCRService.js:180-181 | Trimming twice is trimming once. |
| AsciiText.ContainsIff | backend/OCRService.js:182-184 | `includes` holds exactly when the needle occurs at some position of the string. |
| AsciiText.ContainsEmptyAndSelf | backend/OCRService.js:182-184 | Every string includes the empty string and itself. |
| AsciiText.EmptyContainsOnlyEmpty | backend/OCRService.js:124 | The empty string includes only the empty string. |
| AsciiText.SplitLines | backend/OCRService.js:89 | `split("\n")` yields at least one piece, and no piece contains a line feed. |
| AsciiText.SplitJoin | backend/OCRService.js:89 | Joining the pieces with line feeds gives back the text, so the split loses nothing. |
| AsciiText.SplitLinesOfLine | backend/OCRService.js:89 | A piece without a line feed is a single line, and the line feed after it starts a new piece. |
| AsciiText.LettersAndSpacesOnlyIff | backend/OCRService.js:104 | The character class of `/^[A-Za-z\s]+$/` holds of the whole line exactly when every character is a letter or whitespace. `IsLettersAndSpaces` adds the non-emptiness that `+` demands. |
| EditDistance.Min3 | backend/OCRService.js:214-218 | `Math.min` of three values: at most each argument, and equal to one of them. |
| EditDistance.LevenshteinDistance | backend/OCRService.js:199-223 | The method sets the edges to `d[i][0] = i` and `d[0][j] = j` and fills the inner cells by the min(delete + 1, insert + 1, substitute + cost) recurrence. It returns the bottom-right cell, `Distance(s1, s2)`. |
| EditDistance.CellOfPrefixes | backend/OCRService.js:211-220 | Cell (i, j) depends only on the first i and first j characters. |
| EditDistance.DistanceStep | backend/OCRService.js:211-220 | The recurrence of the table holds for whole strings, read on their last characters. |
| EditDistance.CellSelf | backend/OCRService.js:204-222 | The diagonal of a string's table against itself is 0. |
| EditDistance.CellZeroIff | backend/OCRService.js:204-222 | A cell is 0 exactly when the two prefixes are equal. |
| EditDistance.DistanceZeroIffEqual | backend/OCRService.js:199-223 | The distance is 0 if and only if the strings are equal, so it is 0 for a string and itself. |
| EditDistance.DistanceFromEmpty | backend/OCRService.js:204-209 | The distance from or to the empty string is the other string's length. |
| EditDistance.CellSymmetric | backend/OCRService.js:204-222 | Swapping the strings transposes the table. |
| EditDistance.DistanceSymmetric | backend/OCRService.js:199-223 | The distance is symmetric. |
| EditDistance.CellBounds | backend/OCRService.js:204-222 | Cell (i, j) is at most max(i, j) and at least the difference of i and j. |
| EditDistance.DistanceBounds | backend/OCRService.js:199-223 | The distance is at most the longer length and at least the difference of the lengths. |
| EditDistance.CheapestScript | backend/OCRService.js:199-223 | Some edit script turns the first string into the second at a cost of exactly the distance. |
| EditDistance.ScriptCostAtLeastDistance | backend/OCRService.js:199-223 | Every script that turns the first string into the second costs at least the distance. With CheapestScript, this makes the distance the least edit cost. |
| OCRService.MatchScore | backend/OCRService.js:179-191 | The score lies in [0, 100]. It is 100 exactly when the lower-cased, trimmed strings are equal. |
| OCRService.ScoreOfForms | backend/OCRService.js:183-190 | On the normalised forms the tiers are tried in order. The result lies in [0, 100] and is 100 exactly for equal forms. |
| OCRService.ScoreTiers | backend/OCRService.js:183-185 | The first applicable tier decides. The score is 80 when the name contains the term, 75 when only the term contains the name, and at least 75 whenever either contains the other. |
| OCRService.ScoreByDistance | backend/OCRService.js:187-190 | In the edit-distance tier the longer length is positive and the floor at 0 never applies. The score is exactly 100 - (d / maxLen) * 100, and it is below 100. |
| OCRService.BlankSearchTermScores80 | backend/OCRService.js:180-183 | A search term that is blank after trimming scores 80 against every name that is not blank. |
| OCRService.NormalizeIdempotent | backend/OCRService.js:180-181 | Lower-casing and trimming a second time changes nothing. |
| OCRService.ScoreOfNormalized | backend/OCRService.js:180-181 | The score ignores case and surrounding whitespace: scoring the normalised inputs gives the same score. |
| OCRService.NonBlankFacts | backend/OCRService.js:89 | The line filter keeps exactly the pieces that are not blank, and each kept piece is non-blank. |
| OCRService.NonBlankSingle | backend/OCRService.js:89 | The filter keeps a single piece exactly when its trimmed text is not empty. |
| OCRService.NonBlankAppend | backend/OCRService.js:89 | The filter of a concatenation is the concatenation of the filters, so the kept pieces keep their order and their repeats. |
| OCRService.LinesNonBlank | backend/OCRService.js:89 | Every line the loops scan is non-blank. |
| OCRService.FirstWhereFacts | backend/OCRService.js:92-120 | Over non-blank lines, the scan is empty exactly when no line qualifies. Otherwise it is the trimmed text of the first line that qualifies, and that text is non-empty. |
| OCRService.FirstWhereStep | backend/OCRService.js:92-120 | One iteration of either loop: the line either qualifies and gives its trimmed text, or it is skipped. |
| OCRService.FirstWhereIsFirst | backend/OCRService.js:92-120 | The first qualifying line determines the result, whatever comes after it. |
| OCRService.FirstWhereStable | backend/OCRService.js:98-106 | Once a line has been chosen, lines after it do not change the choice. |
| OCRService.KeywordsInFacts | backend/OCRService.js:123-127 | A keyword is collected exactly when it is in the list and included in the text. A list without repetitions yields a result without repetitions. |
| OCRService.KeywordsInListOrder | backend/OCRService.js:123-127 | Collected keywords keep the order of the keyword list. |
| OCRService.DedupeFacts | backend/OCRService.js:132 | `[...new Set(s)]` keeps every element and none twice, and it leaves a sequence without repetitions unchanged. |
| OCRService.MonasteryKeywordsDistinct | backend/OCRService.js:55-67 | The eleven monastery keywords are pairwise distinct. |
| OCRService.PushFound | backend/OCRService.js:123-127 | The keyword loop pushes exactly the keywords the text includes, in list order. |
| OCRService.ExtractMonasteryInfo | backend/OCRService.js:54-135 | The method's name loop, location loop and keyword loop, with their `break`s, return exactly `InfoOf(text)`. |
| OCRService.InfoFacts | backend/OCRService.js:129-134 | The name and the location are never empty. The keywords are exactly the monastery keywords included in the lower-cased text, with none twice. `fullText` is the input. |
| OCRService.NameIsFirstNameLine | backend/OCRService.js:92-107 | The suggested name is the trimmed text of the first non-blank line that contains a monastery keyword once lower-cased, or that matches the letters-and-whitespace pattern. |
| OCRService.NameFallback | backend/OCRService.js:130 | When no line qualifies, the name is "Unknown Monastery". |
| OCRService.LocationIsFirstLocationLine | backend/OCRService.js:110-120 | The suggested location is the trimmed text of the first non-blank line that contains a location keyword once lower-cased. |
| OCRService.LocationFallback | backend/OCRService.js:131 | When no line has a location keyword, the location is "Location not identified". |
| OCRService.EmptyTextInfo | backend/OCRService.js:83-134 | The empty text yields both fallbacks, no keywords, and the empty text. |
| OCRService.LettersOnlyFirstLineWins | backend/OCRService.js:98-106 | A non-blank letters-only first line gives the name, whatever lines follow it, including lines with monastery keywords. |
| OCRService.Limit | backend/OCRService.js:158 | `.limit(n)` keeps the first n hits, or all of them when there are fewer, in order. |
| OCRService.FindMatchingMonasteries | backend/OCRService.js:143-171 | The result is [] for an empty name, a missing catalog or a failed query. Otherwise there is one candidate per hit of the limited query, in catalog order and not re-sorted, with the hit's id, name, location and district and score `MatchScore(name, hit.name)`. The result has at most 5 entries, and every score is in [0, 100]. |
| Middleware.Decide | sih-website/middleware.ts:6-29 | The decision is `Next` or `Redirect("/admin")`. It redirects exactly when the path is not skipped, is protected, and the token is missing or empty. |
| Middleware.ProtectedIsUnderAdmin | sih-website/middleware.ts:4 | Every protected path starts with "/admin/". |
| Middleware.ProtectedIsNotSkipped | sih-website/middleware.ts:4-16 | No protected path is on the skip list, so for protected paths only the token decides. |
| Middleware.SkippedPasses | sih-website/middleware.ts:10-12 | Paths starting with "/_next", "/static", "/public" or "/api/auth" pass, whatever the token. |
| Middleware.UnprotectedPasses | sih-website/middleware.ts:15-16 | Every path that is not protected passes. |
| Middleware.ProtectedNeedsToken | sih-website/middleware.ts:20-28 | On a protected path, a missing or empty token redirects with pathname exactly "/admin", and any other token passes. |
| Middleware.TokenValueIrrelevant | sih-website/middleware.ts:20-28 | Only the presence of a non-empty token matters, not its value. |
| Middleware.ProtectedExamples | sih-website/middleware.ts:4-15 | "/admin/dashboard" and "/admin/dashboard/stats" are protected. "/admin/dashboardx" and "/admin" are not. |
| Middleware.NotProtected | sih-website/middleware.ts:15 | A path that is under none of the six prefixes is not protected. |
| Middleware.RedirectDoesNotLoop | sih-website/middleware.ts:4-24 | The redirect target is neither skipped nor protected, so following a redirect never leads to another redirect. |

## Left out

- `extractTextFromImage` (backend/OCRService.js:12-46) is not modelled. It is file-system access, the Tesseract OCR engine and progress logging. On failure it returns `success = false`, `confidence = 0` and an empty text.
- The catalog query (backend/OCRService.js:150-158) is the abstract `Catalog.find`, with `.limit(5)` written out. Left out:
  - building the case-insensitive regular expression from the name, with whitespace runs replaced by `.*`;
  - the `$or` over name, alternate names and keywords;
  - the database itself.

  A `Failure` result stands for anything the query throws, for example a database error, or a name whose regular-expression characters make `RegExp` throw. Both end in the `catch` that returns [].
- `MonasteryRecord.name` is always a string. In the source a hit whose `name` is missing or not a string makes `calculateMatchScore` throw inside the `map` (backend/OCRService.js:160-165), and the `catch` returns [] (lines 167-169). The model assumes every record carries a string name and cannot reach that path.
- The `async`/`Promise` form of `findMatchingMonasteries` is not modelled; the model returns the values directly. Console logging is left out everywhere.
- OCRService.MatchScore: computes with exact real numbers, not IEEE doubles. The division and subtraction of the edit-distance tier are therefore not rounded as in JavaScript.
- AsciiText.ToLower: covers ASCII only. Left out:
  - Unicode case mapping in `toLowerCase`;
  - Unicode whitespace in `trim` and `\s`;
  - lengths counted in UTF-16 code units, which affect `maxLen`.
- EditDistance.LevenshteinDistance: the source's `d` is an array of rows that grows as it is filled. The model allocates a fixed (len1 + 1) x (len2 + 1) array. The values of the cells are the same.
- `Middleware.Decide` omits the `NextRequest`/`NextResponse` objects, the cookie API and the URL clone; only the decision they encode is kept. The `matcher` configuration (sih-website/middleware.ts:31-33) decides which paths reach `middleware` at all. It is not modelled, and `Decide` is defined for every path.
- `backend/auth.js`, `backend/server.js`, `backend/multerConfig.js` and `sih-website/next.config.ts` are not part of this model. They are Express routes, file-backed storage, upload configuration and build configuration.
