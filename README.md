# Product resolution pipeline of `analyzeUtils.js`, modelled in Dafny

The server takes a photo of retail products and resolves each product it shows against a
catalog of food products (rows with a product name `prdlstNm` and an image reference
`imgurl1`). Everything that decides the outcome lives in `utils/analyzeUtils.js`:

- a generative model lists the products it sees (`analyzeImageWithGemini`, retried);
- for each detection, the catalog names most similar to its Korean name are ranked
  (`findRoughlySimilarProducts`);
- the model narrows that list down (`refineWithGemini` and the filter that follows);
- candidates sharing a canonical image reference are merged (`cleanUrl`,
  `deduplicateByImageUrl`);
- the candidates are compared image by image until one is the same product
  (`isSameProductImage`), with a "best guess" fallback (`geminiSelectMostLikelyCandidate`)
  when none is;
- `analyzeFullImage` assembles one `{ inputName, match }` per detection.

Every external call becomes an oracle, a function-typed parameter keyed by what its prompt
depends on and, for retried calls, by the attempt number. `None` stands for a call that
threw. `JSON.parse` is an oracle `parse: string -> Option<Json>` over a small JSON
datatype. This lets the model state exactly what `.sameProduct === true`, `.selectedUrl`,
`names.한글`, `Object.entries` and `.includes` do with each kind of JSON value.

Modules, one per component:

- `Wrappers`: `Option` and `Result`.
- `Errors`: every way the whole call rejects.
- `Seqs`: subsequences, and the first index of a value.
- `Firsts`: keeping the first element of each key, stated positionally and by a running
  `seen` set.
- `Text`: ECMAScript `\s`, `trim`, `startsWith`, `includes`, and `replace` with a string
  pattern.
- `Json`: parsed values (an object keeps its members in text order, repeated keys
  included), truthiness, property reads and `Object.entries`.
- `Url`: `cleanUrl`.
- `Catalog`: the catalog index and the ranking.
- `Dedup`: deduplication.
- `Replies`: fence stripping, the verdict decode and the two retry loops.
- `Refine`: the refinement call and its filter.
- `Matching`: `compareImagesToFindExactMatch`.
- `Pipeline`: `analyzeFullImage`.

The loops of the source are methods with loop invariants:

- the `seen` set of the deduplication;
- the name list and name-to-row map of the ranking;
- `tryMatch`;
- the two retry loops;
- the per-detection map.

Each of these methods is proved equal to a specification function. The properties are
proved about those functions.

## Where the code and the system's description disagree

The model follows the code in every case below.

- `cleanUrl` is not idempotent. Each `.replace` with a string pattern rewrites only the
  first occurrence, so `"a.krrr"` cleans to `"https://a.krr"` and that cleans to
  `"https://a.kr"` (`Url.CleanUrlNotIdempotent`). It is idempotent whenever its result no
  longer contains a typo pattern (`Url.CleanUrlIdempotentUnlessTypo`).
- A reference that already has the `http://` scheme keeps it. `"http://hacccp.or.kr/2.jpg"`
  becomes `"http://haccp.or.kr/2.jpg"`, not an `https://` reference
  (`Url.CleanUrlKeepsHttp`).
- A null canonical reference is a key like any other, so only the first null-keyed candidate
  survives deduplication. The ranking already drops rows without an image reference, so in
  the pipeline no candidate has a null key.
- The refinement reply is parsed once, with no retry. The reply is also not required to be
  a list of strings:
  - an array reply keeps the candidates whose name is one of its string elements;
  - a string reply keeps every candidate whose name is a substring of it;
  - any other reply throws on the first candidate, and does not throw when there are no
    candidates.
- A verification request that throws (a failed image download, say) is not caught. It
  aborts the comparison rather than counting as "not the same product".
- The per-detection callbacks run under `Promise.all`, so one failing detection rejects the
  whole call. The model runs the detections in order and reports the first failure in
  detection order.
- The fallback selector is called even when the candidate list is empty.
- `analyzeImageWithGemini` with `maxRetries <= 0` makes no request and returns `undefined`.
  The pipeline always passes 3.
- The `imageUrl` of a match is computed but not part of the output.

## Model

| member | source | states |
|---|---|---|
| Url.CleanUrl | utils/analyzeUtils.js:16-29 | Absent or empty input gives null. Anything else gives a whitespace-free string that starts with `http://` or `https://`: the cleaned string itself when it had a scheme, otherwise `https://` followed by it. |
| Url.SchemePattern | utils/analyzeUtils.js:24 | Having a scheme is exactly the test `/^https?:\/\//`: at least seven characters, `http` first, then `://` or `s://`. |
| Url.Cleaned | utils/analyzeUtils.js:18-22 | The cleaned string has no whitespace. It is the typo-fixed string with all whitespace removed, so the final `trim` changes nothing. |
| Url.CleanUrlFixpoint | utils/analyzeUtils.js:16-29 | A reference with a scheme, no whitespace and neither typo pattern is its own canonical form. |
| Url.CleanUrlIdempotentUnlessTypo | utils/analyzeUtils.js:16-29 | Cleaning a cleaned reference changes nothing unless the result still contains a typo pattern. |
| Url.CleanUrlNotIdempotent | utils/analyzeUtils.js:19-20 | `"a.krrr"` cleans to `"https://a.krr"`, which cleans to `"https://a.kr"`: cleaning is not idempotent. |
| Url.CleanUrlKeepsHttp | utils/analyzeUtils.js:19-26 | A reference starting with `http://` gives a non-null result that still starts with `http://`. |
| Text.Trim | utils/analyzeUtils.js:22 | The result is a contiguous slice of the input. Everything before and after it is whitespace, and its first and last characters are not whitespace. |
| Text.RemoveSpaces | utils/analyzeUtils.js:21 | The result has no whitespace and keeps exactly the input's non-whitespace characters. An input without whitespace is unchanged. |
| Text.RemoveSpacesFilters | utils/analyzeUtils.js:21 | The result is a subsequence of the input, in input order, and every non-whitespace character keeps its number of occurrences. |
| Text.AsciiSpaces | utils/analyzeUtils.js:21-22 | Among ASCII characters, the whitespace that is removed and trimmed is exactly tab, line feed, vertical tab, form feed, carriage return and the space character. |
| Text.ReplaceFirst | utils/analyzeUtils.js:19-20 | Without an occurrence of the pattern the string is unchanged. Otherwise the first occurrence, and only it, is replaced, so the length changes by the difference of the two lengths. |
| Url.FixTypos | utils/analyzeUtils.js:19-20 | A string holding neither typo is unchanged. Each correction removes one character, so the result is at most two characters shorter. |
| Text.IndexOf | utils/analyzeUtils.js:19-20 | The position found is an occurrence of the pattern, and no occurrence lies before it. |
| Dedup.Dedup | utils/analyzeUtils.js:31-39 | The result is exactly the candidates at the positions where a canonical reference occurs for the first time, in input order. |
| Firsts.FirstOccurrencesPositions | utils/analyzeUtils.js:31-39 | The kept elements sit at increasing input positions, each the first of its key, and every such position is kept. |
| Dedup.DedupSpec | utils/analyzeUtils.js:31-39 | The result is a subsequence of the input with pairwise distinct canonical references. The first candidate of every reference is kept, so every reference of the input is still represented. |
| Dedup.DedupIdempotent | utils/analyzeUtils.js:31-39 | Deduplicating twice is deduplicating once. |
| Dedup.DeduplicateByImageUrl | utils/analyzeUtils.js:31-39 | The filter with its mutable `seen` set computes exactly the first-occurrence deduplication. |
| Catalog.LastNamed | utils/analyzeUtils.js:228-234 | Finds the last row carrying a given non-empty name. No later row carries it, and none is found only when no row carries it. |
| Catalog.CatalogNames | utils/analyzeUtils.js:228-234 | A name is listed exactly when some row carries it as a non-empty name. |
| Catalog.CatalogNamesInRowOrder | utils/analyzeUtils.js:228-234 | The names are those of the named rows, one entry per named row, in row order, duplicates included. |
| Catalog.CatalogIndex | utils/analyzeUtils.js:228-234 | The map has a key exactly for each listed name. Each name maps to the last row carrying it. |
| Catalog.Ratings | utils/analyzeUtils.js:236 | One rating per name, in name order, each given by the similarity measure. |
| Catalog.SortByRating | utils/analyzeUtils.js:238-239 | The sorted ratings are non-increasing and a permutation of the input. |
| Catalog.SortKeepsTies | utils/analyzeUtils.js:238-239 | The sort is stable: equally rated entries keep their input order. |
| Catalog.AttachRows | utils/analyzeUtils.js:241-245 | The kept entries are a subsequence of the ranked list. Each carries the mapped row of its name, and that row has an image reference. Every entry whose row has one is kept. |
| Seqs.FilterPositions | utils/analyzeUtils.js:245 | `Array.prototype.filter` position by position: result entry `k` is the input entry at position `pos[k]`, which passes the test; the positions increase, and every passing position is taken. |
| Catalog.AttachRowsIsFilter | utils/analyzeUtils.js:241-245 | Without their rows, the kept entries are the ranked list filtered by "the name maps to a row with an image reference". |
| Catalog.AttachRowsInOrder | utils/analyzeUtils.js:241-245 | Entry `k` is built from ranked position `pos[k]` and the row its name maps to; the positions increase and every eligible position is taken, so a name ranked twice is kept twice, in order. |
| Catalog.SimilarProducts | utils/analyzeUtils.js:224-246 | Rejects exactly when no catalog row has a name, because the similarity library refuses an empty list. |
| Catalog.SimilarProductsSpec | utils/analyzeUtils.js:224-246 | At most `topN` candidates, best rating first, equally rated candidates in catalog order. Each candidate's rating is the similarity of its name. Each carries the last catalog row with that name, and that row has an image reference. |
| Catalog.SimilarProductsFromTopRated | utils/analyzeUtils.js:224-246 | Candidate `k` is the entry at position `pos[k]` of the `topN` best-rated names; the positions increase and every one of those entries whose name has a row with an image reference is kept. |
| Catalog.FindRoughlySimilarProducts | utils/analyzeUtils.js:224-246 | The loop filling `names` and `nameToRowMap`, followed by the sort, slice, map and filter, computes `SimilarProducts`. |
| Replies.Unfence | utils/analyzeUtils.js:91-95 | What reaches `JSON.parse` is no longer than the reply and never starts or ends with whitespace. |
| Text.StartsWithConcat | utils/analyzeUtils.js:93 | `startsWith(prefix)` holds exactly when the string is the prefix followed by some string. The same test is made at lines 155, 199 and 262. |
| Text.DropPrefix | utils/analyzeUtils.js:94 | Removing an anchored prefix: when the string starts with it, the prefix followed by the result is the string; otherwise the string is unchanged. |
| Text.DropSuffix | utils/analyzeUtils.js:94 | Removing an anchored suffix: when the string ends with it, the result followed by the suffix is the string; otherwise the string is unchanged. |
| Text.DropPrefixOfConcat | utils/analyzeUtils.js:94 | Removing a prefix that was put in front of a string gives that string back. |
| Text.DropSuffixOfConcat | utils/analyzeUtils.js:94 | Removing a suffix that was put after a string gives that string back. |
| Replies.UnfencePlain | utils/analyzeUtils.js:152-157 | A reply that does not start with three backticks after trimming is only trimmed. |
| Replies.UnfenceJsonBlock | utils/analyzeUtils.js:155-157 | A fenced JSON block surrounded by whitespace yields its trimmed body. |
| Replies.BlankReplyFails | utils/analyzeUtils.js:90-97 | A blank reply never parses. |
| Replies.JsonParse | utils/analyzeUtils.js:97 | `JSON.parse` of the empty text always throws; any other text parses as the parser decides. |
| Replies.ExtractAttemptSucceeds | utils/analyzeUtils.js:88-98 | A single attempt succeeds only when the request returned a reply and the unfenced reply parses, and then yields the parsed value. A blank reply never succeeds. |
| Replies.IsSameProduct | utils/analyzeUtils.js:159-165 | The verdict is true exactly when the reply parses to an object whose last-listed `sameProduct` member is the JSON value `true`. A reply that does not parse gives false. |
| Json.LastWithKey | utils/analyzeUtils.js:97 | Finds a member listed with the key, with no later member listing it, and finds none exactly when no member lists it: a repeated key keeps its last value. |
| Json.Property | utils/analyzeUtils.js:204 | Reading a property throws exactly on `null`. It is found exactly on an object that lists the key, and then it is the value of the last member with that key. The same read is used at lines 161 and 314. |
| Json.OwnKeys | utils/analyzeUtils.js:313 | Each key of the object once, and every key the object lists. |
| Json.OwnKeysInTextOrder | utils/analyzeUtils.js:313 | Key `k` is the key of the first member listing it, and these members appear in increasing text order. |
| Json.OwnValues | utils/analyzeUtils.js:313 | One value per own key, in key order, each the value a property read of that key finds. |
| Json.FalsyValues | utils/analyzeUtils.js:291 | The falsy parsed values are exactly `null`, `false`, `0` and `""`; every array and object is truthy. |
| Replies.ExtractFrom | utils/analyzeUtils.js:85-106 | No attempt is made exactly when `maxRetries <= 0`. The loop gives up exactly when every remaining attempt fails. |
| Replies.AnalyzeImageWithGemini | utils/analyzeUtils.js:85-106 | Returns the first reply that parses, after failed earlier attempts. It throws exactly when all `maxRetries` attempts fail, and makes no attempt exactly when `maxRetries <= 0`. It never makes more than `maxRetries` attempts. |
| Replies.SelectAttempt | utils/analyzeUtils.js:198-204 | An attempt fails exactly when the request threw, the reply did not parse, or it parsed to `null`. |
| Replies.SelectFrom | utils/analyzeUtils.js:182-213 | The selection is exhausted exactly when every remaining attempt, up to the third, fails. |
| Replies.GeminiSelectMostLikelyCandidate | utils/analyzeUtils.js:182-213 | Makes one to three attempts and returns the `selectedUrl` of the first that succeeds, after failed earlier attempts. It returns null exactly when all three fail. |
| Refine.Targets | utils/analyzeUtils.js:258 | The prompt lists every candidate's name, in candidate order. |
| Refine.RefineWithGemini | utils/analyzeUtils.js:260-265 | A single request. It throws exactly when the request throws or its unfenced reply does not parse; otherwise it returns the parsed reply. |
| Refine.Includes | utils/analyzeUtils.js:316 | `includes` exists only on arrays and strings. On an array it tests membership of the name; on a string it searches for the name as a substring. |
| Refine.RefineFilter | utils/analyzeUtils.js:316 | Throws exactly when there are candidates and the reply is neither an array nor a string. Otherwise it keeps, in order, exactly the candidates whose name the reply includes; names the reply invents add nothing. |
| Refine.RefineFilterIsFilter | utils/analyzeUtils.js:316 | A successful refinement is `Array.prototype.filter` of the candidates by "the reply includes the name". |
| Refine.RefineFilterInOrder | utils/analyzeUtils.js:316 | Refined candidate `k` is candidate `pos[k]`, whose name the reply includes; the positions increase and every such candidate is kept, so a repeated candidate is kept as often as it occurs. |
| Matching.Keys | utils/analyzeUtils.js:179 | One canonical reference per candidate; `Matching.KeysAt` states that element `i` is the canonical reference of candidate `i`. |
| Matching.KeysAt | utils/analyzeUtils.js:272 | Element `i` of the reference list is `cleanUrl` of candidate `i`'s image reference. |
| Matching.Verdict | utils/analyzeUtils.js:273 | A comparison throws exactly when its request throws, and says "same product" exactly when the reply decodes to true. |
| Matching.FirstDecided | utils/analyzeUtils.js:271-280 | The position where `tryMatch` stops: every earlier verdict is "different product", and the verdict there is not. |
| Matching.ResolveSelection | utils/analyzeUtils.js:290-299 | The fallback picks a candidate exactly when the selection is a non-empty string equal to some candidate's canonical reference. It picks the first such candidate, with the selected string as its `imageUrl`. |
| Matching.Settle | utils/analyzeUtils.js:268-303 | The first candidate judged the same product wins, with its canonical reference. A comparison that throws before any match aborts. When every candidate was rejected, the fallback decides. |
| Matching.SettleDecided | utils/analyzeUtils.js:285-290 | Once a comparison decides, the selector's answer plays no part. |
| Matching.MatchIsCleanedRow | utils/analyzeUtils.js:272-277 | Any match is some candidate's row, paired with the canonical form of that row's own image reference. |
| Matching.TryMatch | utils/analyzeUtils.js:270-282 | The loop stops at the first decisive verdict: a match or an abort. Otherwise it returns null. It makes exactly one request per candidate up to that point and none after. |
| Matching.ExactMatch | utils/analyzeUtils.js:268-303 | The comparison fails only through a verification request that throws. Any match carries the row of one of the candidates. |
| Matching.CompareImagesToFindExactMatch | utils/analyzeUtils.js:268-303 | Computes `Settle` over the candidates' canonical references. The selector is called exactly when every candidate was rejected. |
| Pipeline.Entries | utils/analyzeUtils.js:313 | `Object.entries` throws exactly on null. An array gives its elements; an object gives one value per own key, each the value held under that key; a string gives one entry per character; a number or a boolean gives none. |
| Pipeline.LocalName | utils/analyzeUtils.js:314 | Succeeds exactly when the entry is an object whose last-listed `한글` member is a string, and gives that string. A null entry throws a TypeError; any other entry makes `findBestMatch` throw. |
| Pipeline.ResolveSpec | utils/analyzeUtils.js:313-325 | A result carries the detected names it was computed for. A null entry throws a TypeError, and a detection never fails with an extraction error. |
| Pipeline.ResolveDetection | utils/analyzeUtils.js:313-325 | The callback runs the stages in order and stops at the first that throws. A result carries the detected names it was computed for. |
| Pipeline.MatchedRowIsCatalogRow | utils/analyzeUtils.js:314-322 | A matched row is the last catalog row carrying its name, and it has both a name and an image reference. |
| Pipeline.All | utils/analyzeUtils.js:312-326 | All values in order when every detection succeeds; otherwise the first failure in detection order. |
| Pipeline.AllStopsAtFirstFailure | utils/analyzeUtils.js:312-326 | The first failing detection decides the rejection. |
| Pipeline.ResultsFollowDetections | utils/analyzeUtils.js:312-328 | A successful run has one result per detection, in the order of the extraction reply, each carrying its detection's names. |
| Pipeline.ResolveDetections | utils/analyzeUtils.js:312-326 | The loop over detections computes `All` of the per-detection outcomes. |
| Pipeline.AnalyzeSpec | utils/analyzeUtils.js:306-329 | Never returns undefined. It throws the extraction error exactly when all three extraction attempts fail, and the `Object.entries` error exactly when the reply parsed to `null`. A successful run has one result per entry of the product map, in order, each carrying that entry's names. |
| Pipeline.AnalyzeFullImage | utils/analyzeUtils.js:306-329 | Computes `AnalyzeSpec`: extraction with three attempts, then one resolution per entry of the product map. |

## Left out

- Reading the workbook (`XLSX.readFile`, `sheet_to_json`, lines 307-309) is left out. The
  catalog is given as its rows, and a cell is an optional string; non-string cells are not
  modelled.
- `prepareImageForGemini` (lines 41-59), meaning file reads, downloads and MIME lookup, is
  left out. A failed read or download in a comparison makes that comparison's oracle throw.
  The base image read that opens `geminiSelectMostLikelyCandidate` (line 169) is assumed to
  succeed.
- `extractProductNamesFromImage` (lines 218-222) only reads the image file and calls the
  extraction. It is part of `Pipeline.AnalyzeFullImage`, whose extraction oracle gives the
  reply of each attempt.
- The prompts and the model and REST clients (lines 12-14, 62-83, 114-150, 170-180,
  250-260) are left out. Each call is an oracle keyed by what its prompt depends on; the
  oracles are deterministic.
- `JSON.parse` is an oracle, except that the empty text never parses. Numbers are `real`.
- The similarity measure of `string-similarity` is an uninterpreted function to `real`.
  Its floating-point ratings and its internal algorithm are not modelled.
- The one-second wait between selection attempts (line 208) and the console logging are
  timing and output only.
- `Promise.all` concurrency (line 312) is not modelled. Detections run one after the other,
  and the rejection reported is the first failure in detection order; the real rejection is
  whichever fails first in time.
- Json.OwnKeys: ECMAScript lists integer-like keys ("0", "1", ...) first, in ascending
  numeric order. The model lists every key where the reply text first lists it.
- Catalog.SimilarProducts: `topN` is a natural number, so a negative or fractional `topN` is
  not modelled.
- Replies.UnfenceJsonBlock: stated for bodies that do not themselves open with three
  backticks. Such a body loses that fence too, as the second `replace` at line 94 shows.
