# Quiz-board ingestion, modelled in Dafny

This project models the board-ingestion pipeline of `app/lib/gameData.js`. The pipeline turns the text of a spreadsheet export into a fixed quiz board: six categories, five point values (100 to 500), and one clue or `null` per cell. It has four parts:

- **`parseCsvSimple`** (module `Csv`): a naive CSV reader.
  - Splits the text on `\r?\n` and drops empty lines.
  - Takes the header names from the first line.
  - Cuts every later line at each comma and zips the trimmed pieces against the headers.
- **`normalizeCategory` and `toPoints`** (module `Fields`): read a row's category and point value.
  - The category comes from one of three header spellings, the misspelled `Catagory` first.
  - The point value is kept only if `Number(...)` makes it finite.
- **`isYoutubeUrl` and `toYoutubeEmbed`** (module `Youtube`): the video-link test and the rewrite into embed form.
  - The two regular expressions are modelled as scans for their leftmost match.
- **`buildGameFromRows`** (module `Board`):
  - files every row with a category and finite points under (category, points), the first occurrence winning;
  - collects the distinct categories in first-seen order;
  - keeps the first six and pads with `Category k`;
  - builds the full `lookup` table.

The two parts that work by loops are methods whose `ensures` tie the result to a specification function: `Csv.ParseCsvSimple`, and `Board.BuildGameFromRows` with its passes `FileAll`, `CollectCategories` and `BuildLookup`. The properties are proved about those functions. The rest is functions and lemmas. The JavaScript string primitives (`split`, `trim`, `toLowerCase`, `includes`) are in module `Strings`, and `Option` is in module `Wrappers`.

This model follows `app/lib/gameData.js` as written; in particular it has:

- no quote-aware tokenizer, no byte-order-mark stripping, and no dropping of rows whose fields are all blank (every non-empty line is a row);
- no header aliases for the picture or video fields;
- no start-time offset and no `/live/` or `/shorts/` shapes in the embed rewrite;
- a category check on the raw value, trimmed only afterwards;
- points accepted as any finite number, not only 100..500;
- a result that is `{ categories, lookup }` without `pointValues`.

## Model

| member | source | states |
|---|---|---|
| Strings.Split | app/lib/gameData.js:13 | `split` on one character gives at least one piece, and no piece contains the separator |
| Strings.JoinSplit | app/lib/gameData.js:13 | gluing the pieces back with the separator gives the original text: `split` loses and adds nothing |
| Strings.SplitJoin | app/lib/gameData.js:13 | splitting separator-free pieces joined by the separator gives those pieces back |
| Strings.Trim | app/lib/gameData.js:16 | the trimmed text neither starts nor ends with white space |
| Strings.TrimChars | app/lib/gameData.js:16 | every character of the trimmed text comes from the original |
| Strings.TrimEmpty | app/lib/gameData.js:25 | trimming leaves nothing exactly when the text is all white space |
| Strings.TrimPadded | app/lib/gameData.js:16 | trimming removes exactly the white space around a core whose ends are not white space |
| Strings.TrimmedSelf | app/lib/gameData.js:16 | a text whose ends are not white space is its own trim |
| Strings.TrimIdempotent | app/lib/gameData.js:16 | trimming twice is trimming once |
| Strings.LowerIdempotent | app/lib/gameData.js:35 | lower-casing twice is lower-casing once |
| Strings.DecimalString | app/lib/gameData.js:97 | the decimal rendering of a number is a non-empty run of digits |
| Csv.SplitLines | app/lib/gameData.js:6 | splitting on `\r?\n` gives at least one line, none containing a line feed |
| Csv.NonEmpty | app/lib/gameData.js:6 | the filter keeps only non-empty strings, each from the input, and keeps every non-empty string of the input |
| Csv.NonEmptyAppend | app/lib/gameData.js:6 | filtering distributes over concatenation, so the kept strings stay in input order |
| Csv.NonEmptyLine | app/lib/gameData.js:6 | an empty line is dropped wherever it stands, and a non-empty line is kept in its place |
| Csv.Lines | app/lib/gameData.js:6 | the kept lines are non-empty and contain no line feed, and every non-empty line of the split is kept |
| Csv.SplitLinesJoin | app/lib/gameData.js:6 | lines written out with each line ending chosen on its own, `\n` or `\r\n`, split back into exactly those lines |
| Csv.LinesJoin | app/lib/gameData.js:6 | lines written out as a text read back as exactly the non-empty ones, in order, whatever mix of line endings it uses; when none is empty, as the lines themselves |
| Csv.LinesJoinUniform | app/lib/gameData.js:6 | the same for a text with one line ending throughout |
| Csv.MixedEndings | app/lib/gameData.js:6 | a text mixing `\r\n` and `\n` is cut at every line feed, dropping the carriage return before it |
| Csv.LastIndex | app/lib/gameData.js:15-17 | the position whose assignment to the row object sticks is the last header of that name |
| Csv.ZipRowSnoc | app/lib/gameData.js:15-17 | assigning one more header extends the row object by that header and its trimmed column |
| Csv.ParsedRow | app/lib/gameData.js:13-17 | a row's keys are exactly the header names; under a header not repeated further right stands the trimmed comma piece at that position, or `""` when the line is short; every value is trimmed and has no comma |
| Csv.ZipLine | app/lib/gameData.js:13-17 | the inner loop builds the row object that zips the headers with the line's comma pieces |
| Csv.ParseCsvSimple | app/lib/gameData.js:4-21 | no rows when the text has no non-empty line; otherwise one row per non-empty line after the first, in order, each the header names zipped with that line's comma pieces |
| Fields.FirstFilledIsFirst | app/lib/gameData.js:25 | the `\|\|` chain yields the value under the first key with a non-empty value, and `""` when there is none |
| Fields.NormalizeCategoryPriority | app/lib/gameData.js:23-26 | the category is the trimmed value of the first non-empty field among `Catagory`, `Category`, `category`, in that order, and `""` if none is non-empty |
| Fields.CategoryAliasesAgree | app/lib/gameData.js:25 | a row carrying only one of the three spellings gives the same category whichever spelling it is |
| Fields.BlankAliasShadows | app/lib/gameData.js:25 | a `Catagory` made only of white space wins the chain and leaves the row with an empty category |
| Fields.DigitsValueDecimal | app/lib/gameData.js:29 | reading a number's decimal digits back gives the number |
| Fields.InfiniteFromIsMidpoint | app/lib/gameData.js:29-30 | the overflow bound is 2^1024 - 2^970, exactly halfway between the largest finite double (2^53 - 1) * 2^971 and 2^1024, where round-half-to-even turns a numeral into an infinity |
| Fields.ParseNumberAccepts | app/lib/gameData.js:29-30 | the decimal-integer reading accepts a points text exactly when, after trimming, it is blank, or signed decimal digits whose magnitude is below the overflow bound |
| Fields.ParseNumberDigits | app/lib/gameData.js:29 | decimal digits parse to their value, or to an infinity at or above the overflow bound |
| Fields.ParseNumberSigned | app/lib/gameData.js:29 | digits after `+` or `-` parse to their value, negated after `-`, or to an infinity at or above the overflow bound |
| Fields.ParseNumberPadded | app/lib/gameData.js:29 | white space around the text does not change the number read |
| Fields.ParseNumberDecimal | app/lib/gameData.js:29 | a number's decimal text with white space around it parses back to the number below the overflow bound, and is not finite from it on |
| Fields.ParseNumberSignedDecimal | app/lib/gameData.js:29 | a number's decimal text after a sign, with white space around it, parses back to the number, negated after `-`, below the overflow bound, and is not finite from it on |
| Fields.BlankPointsAreZero | app/lib/gameData.js:29-30 | a blank `Points` value is the finite number 0 |
| Youtube.IsYoutubeUrlHosts | app/lib/gameData.js:33-37 | the test is false on `""` and otherwise true exactly when the lower-cased text contains `youtube.com` or `youtu.be` |
| Youtube.IsYoutubeUrlIgnoresCase | app/lib/gameData.js:35 | the test gives the same answer on the lower-cased text |
| Youtube.FindMatch | app/lib/gameData.js:45-49 | the position found is a match with no match before it; none is found only when there is no match at all |
| Youtube.RunEnd | app/lib/gameData.js:45 | the greedy `[^?&]+` run stops at the first `?` or `&` or at the end |
| Youtube.IdAt | app/lib/gameData.js:45-50 | the captured id is non-empty and free of `?` and `&` |
| Youtube.ToYoutubeEmbed | app/lib/gameData.js:39-56 | the result is the input, or the embed prefix followed by a non-empty id free of `?` and `&` |
| Youtube.EmbedUrlUnchanged | app/lib/gameData.js:42 | a URL containing `/embed/` comes back unchanged |
| Youtube.ShortLinkWins | app/lib/gameData.js:45-46 | otherwise the leftmost `youtu.be/` match gives the id, even with a `v=` parameter further left |
| Youtube.WatchParamFallback | app/lib/gameData.js:49-50 | without a short-link match, the leftmost `?v=`/`&v=` match gives the id |
| Youtube.NoMatchUnchanged | app/lib/gameData.js:52 | with neither pattern matching, the URL comes back unchanged |
| Youtube.EmbedPrefixed | app/lib/gameData.js:46 | a rewritten link contains `/embed/` |
| Youtube.ToYoutubeEmbedIdempotent | app/lib/gameData.js:42-50 | rewriting a rewritten link changes nothing |
| Youtube.RewriteHasNoQuery | app/lib/gameData.js:45-50 | a rewritten link contains `/embed/` and neither `?` nor `&` |
| Youtube.ShortLinkIsYoutube | app/lib/gameData.js:33-46 | a URL with a short-link match passes the YouTube test |
| Youtube.EmbedIsYoutube | app/lib/gameData.js:33-50 | a link in embed form passes the YouTube test |
| Youtube.ToYoutubeEmbedStaysYoutube | app/lib/gameData.js:33-56 | rewriting keeps a YouTube link a YouTube link |
| Board.Filings | app/lib/gameData.js:62-65 | one filing per row |
| Board.FilingsAt | app/lib/gameData.js:62-65 | the filing at position i is row i's filing |
| Board.FillsMeans | app/lib/gameData.js:63-65 | a row fills cell (c, p) exactly when its category is c, c is non-empty, and its points are finite and equal p |
| Board.IneligibleRowFiledAsNothing | app/lib/gameData.js:65 | a row without a category or without finite points files nothing |
| Board.FirstFiled | app/lib/gameData.js:74-85 | the filing found is one of the filings and belongs in the cell |
| Board.FirstFiledAppend | app/lib/gameData.js:74-85 | earlier filings decide the cell first; later ones count only when no earlier one matches |
| Board.FirstFiledSnoc | app/lib/gameData.js:74-85 | one more filing takes the cell only if the cell is still empty |
| Board.FirstFiledIsFirst | app/lib/gameData.js:74-85 | the cell is empty exactly when no filing belongs in it, and otherwise holds the first one that does |
| Board.FirstClueIsFirst | app/lib/gameData.js:62-86 | first occurrence wins: the cell is empty exactly when no row fills it, and otherwise holds the clue of the first row that does |
| Board.NothingIgnored | app/lib/gameData.js:65 | a row filed as nothing never changes any cell, wherever it stands |
| Board.FilledCell | app/lib/gameData.js:67-85 | a filled cell holds its own non-empty category and points and trimmed texts; it has an embed URL exactly when the clue passes the YouTube test, and then the URL is the rewritten clue |
| Board.Categories | app/lib/gameData.js:89-93 | one normalised category per row |
| Board.CategoriesAt | app/lib/gameData.js:89-93 | the category at position i is row i's normalised category |
| Board.FirstSeenStep | app/lib/gameData.js:89-93 | a category is appended unless it is empty or already listed |
| Board.FirstSeenFacts | app/lib/gameData.js:89-93 | the collected categories are exactly the non-empty ones, each once, in order of first occurrence |
| Board.Padded | app/lib/gameData.js:97 | padding a list of at most six names gives six |
| Board.PaddedFacts | app/lib/gameData.js:97 | padding keeps the names and fills each remaining 1-based slot k with `Category k` |
| Board.AxisOf | app/lib/gameData.js:96-97 | the axis has six names |
| Board.Axis | app/lib/gameData.js:96-97 | the axis of the rows has six names |
| Board.AxisFacts | app/lib/gameData.js:89-97 | the axis is the first (up to six) distinct categories in first-seen order, then `Category k` placeholders; no name is empty; the first-seen part has no repeats; later categories are not on it |
| Board.AxisIgnoresPoints | app/lib/gameData.js:89-93 | changing a row's `Points`, to a valid value or not, leaves the axis unchanged |
| Board.AxisMayRepeat | app/lib/gameData.js:96-97 | a category literally named `Category 2` meets the placeholder of slot 2, so the axis can repeat a name |
| Board.FileNothing | app/lib/gameData.js:65 | filing nothing leaves the map as it is |
| Board.FileKeepsFirst | app/lib/gameData.js:71-85 | filing one more row keeps every cell of the map equal to the first filing that belongs there |
| Board.Store | app/lib/gameData.js:71-85 | a clue is stored under its category and points unless that cell already holds one |
| Board.FileRow | app/lib/gameData.js:63-85 | one pass of the first loop files the row's clue, or nothing for an ineligible row |
| Board.FileAll | app/lib/gameData.js:62-86 | after the first loop, every cell of the map holds the clue of the first row that fills it |
| Board.CollectCategories | app/lib/gameData.js:89-93 | the second loop collects the distinct non-empty categories in first-seen order |
| Board.BuildLookup | app/lib/gameData.js:112-118 | `lookup` has an entry for every category, each entry has exactly the keys 100..500, and each cell is the map's cell or `null` |
| Board.BuildGameFromRows | app/lib/gameData.js:58-121 | the categories are the axis; `lookup` has exactly the axis categories as keys, each with exactly the keys 100..500, and each cell holds the clue of the first row with that category and those points, or `null` |

## Left out

- `loadGameData` (app/lib/gameData.js:123-129) is a network fetch followed by the two modelled calls. It is I/O only.
- `cluesByCategory` (app/lib/gameData.js:101-109) is computed but never returned or read, so nothing observable depends on it.
- The `try`/`catch` in `toYoutubeEmbed` only matters for non-string input. The model's inputs are always strings.
- Fields.ParseNumber: does not model the full semantics of JavaScript `Number()`. Fractions, exponents, hexadecimal, binary and octal literals, `Infinity` and numeric separators are read as not finite. Decimal integers with an optional sign and blank text (0) are read as `Number()` reads them, including the overflow to an infinity at 2^1024 - 2^970, except that `Number()` rounds magnitudes above 2^53 to the nearest double while the model keeps the exact integer. The rounding never makes a value finite or infinite, and it never turns a value into one of 100..500, the only points `lookup` reads, so no cell of the board depends on it.
- Strings.Lower: only ASCII letters are lower-cased. Full Unicode case mapping is not modelled, and the regular expressions' `i` flag is modelled the same way.
- Youtube.FindMatch: the general regular-expression engine is not modelled. The two patterns are written out as direct scans.
- Object keys behave like map keys. JavaScript's special keys such as `__proto__` are not modelled.
- Board.FileRow: the clue record is built before the duplicate check, where the source builds it inside that check. Building it has no side effect, so the stored value is the same.
- `Map` and plain-object key order is not modelled: `lookup` is a map, and the category order is carried by `categories`.
