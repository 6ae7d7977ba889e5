# CSV ingestion engine of the NLP-to-SQL server, in Dafny

This project models the CSV seeding routine of the MCP server
(`seed()` in `mcp-server/lib/seed.ts`) and the cell helpers it imports
(`isDateString`, `isNumericString`, `parseDate`, `parseValuation` in
`mcp-server/dist/lib/helpers.js`). It also proves what that code does. Given
the text of a CSV file, the engine:

1. splits the file into lines;
2. picks `;` or `,` as the delimiter by comparing mean separator counts over
   the first ten lines;
3. takes the first line whose field count is more than one and equal to the
   next line's as the header;
4. slugs the header labels and de-duplicates the slugs;
5. infers `date`, `numeric` or `text` for every column from up to 30
   non-blank samples;
6. recreates a table with one `DATE`/`NUMERIC`/`TEXT` column per slug;
7. coerces each parsed row and inserts it unless one of its values is null.

Modules, leaf first:

- `Text` (Text.dfy) holds the JavaScript string built-ins the code relies
  on: `\d` and `\s`, `trim`, `split` on one character, `toLowerCase`,
  `padStart`, `includes`, `parseInt` on digit strings and
  number-to-string. It also holds `IndexOf`, the position of the first
  occurrence of a character, which the `parseFloat` model uses to find the
  decimal point.
- `Numbers` (Numbers.dfy) holds exact decimals (`Decimal(mantissa, scale)`)
  and `parseFloat`. `parseFloat` is modelled on the only alphabet it is ever
  given, `[0-9.-]`, as the value of the longest prefix that is a decimal
  literal, or `None` for NaN.
- `Helpers` (Helpers.dfy) models the four helpers and proves how their
  cleanup chains behave.
- `SeedSteps` (SeedSteps.dfy) models the pure steps of `seed()`: lines, the
  delimiter, the header row, slugs, `Set` de-duplication, sampling and
  classification, the column definitions, the coercion of one cell,
  placeholders and the table name.
- `SeedRun` (SeedRun.dfy) models the stateful steps. `InferColumnTypes` is
  the loop that fills `columnTypes`. `Database` is the store the table is
  recreated in, a class whose `tables` map the methods update. `LoadRows`
  is the row loop with its skip-on-null `continue`. `Seed` is the whole run.
- `Examples` (Examples.dfy) proves concrete inputs and results: dates,
  amounts, sample columns and the cells of one row.

The model keeps these behaviours of the code, some of which a reader may
not expect:

- A label whose slug is empty (for example `%`) is still a column. Only
  labels that are blank after trimming are dropped (`SlugOfSymbol`,
  `HeaderSlugsMembers`).
- On the generic numeric path, a cell without a numeric prefix yields NaN,
  not null. The row is therefore not skipped (`CoerceNull`).
- `parseDate` swaps day and month only when the day field is between 1 and
  12 (`ParseDateFields`, `ParseDateZeroDay`).
- The "CSV file is empty" guard can never fire, because splitting always
  gives at least one line (`SplitLines`).
- The final log line reports the number of rows parsed, not the number
  inserted (`Seed`, `ReportedCount`).
- `columnTypes` is a plain object, so the slug `__proto__` (from a header
  such as `__PROTO__`) never gets an entry: the assignment sets the
  prototype, which ignores a string, and the lookup matches no case. Such a
  column is always `TEXT` and its cells are stored trimmed (`SetType`,
  `TypesOfKeys`, `ColumnDefsTyped`).
- An insert that the database rejects is not handled per row. The
  exception ends `seed()`. The model has no failing insert (see Left out).

## Model

| member | source | states |
|---|---|---|
| SeedSteps.SplitLines | mcp-server/lib/seed.ts:18-22 | `split(/\r?\n/)` gives one line per line feed plus one, none of them holding a line feed; every line a feed follows is its piece with a trailing carriage return removed when there is one and unchanged otherwise, and the last piece is kept as is; so the list is never empty and the empty-file branch is dead |
| SeedSteps.DetectDelimiter | mcp-server/lib/seed.ts:25-28 | the chosen delimiter is always `;` or `,` |
| SeedSteps.DelimiterByTotals | mcp-server/lib/seed.ts:25-28 | the delimiter is `;` exactly when the semicolon total over the first min(n,10) lines strictly exceeds the comma total, and `,` exactly otherwise (ties give the comma) |
| SeedSteps.Separators | mcp-server/lib/seed.ts:26-27 | `l.split(c).length - 1` is the number of occurrences of c in l |
| SeedSteps.Total | mcp-server/lib/seed.ts:26-27 | definition, no contract: the `reduce` sum of `Separators` over the sample; `TotalCounts` and `DelimiterByTotals` state what it decides |
| SeedSteps.TotalCounts | mcp-server/lib/seed.ts:26-27 | a separator total is zero exactly when no sampled line contains that separator |
| SeedSteps.SampleLines | mcp-server/lib/seed.ts:25 | the sample is the prefix of the lines of length min(n,10) |
| SeedSteps.FieldCounts | mcp-server/lib/seed.ts:31 | one count per line, each one more than the number of delimiters in that line |
| SeedSteps.FindTableStart | mcp-server/lib/seed.ts:32 | `findIndex` returns the least index at or after the start whose count is >1 and equal to the next, or "none" when no index qualifies |
| SeedSteps.HeaderIndex | mcp-server/lib/seed.ts:31-33 | the header index is the least i < n-1 with counts[i] > 1 and counts[i] == counts[i+1]; when no such i exists it is 0 |
| SeedSteps.UniformCountsHeaderZero | mcp-server/lib/seed.ts:31-33 | when every line has the same field count the header is line 0 |
| SeedSteps.Slug | mcp-server/lib/seed.ts:53 | a slug contains only `[a-z0-9_]` and no whitespace |
| Text.ToLower | mcp-server/lib/seed.ts:53 | definition, no contract: `toLowerCase` character by character; `ToLowerAscii`, `ToLowerAppend` and `ToLowerNoCapital` state its behaviour |
| Text.ToLowerAscii | mcp-server/lib/seed.ts:53 | on ASCII text the result has the same length, every capital `A`-`Z` becomes its small letter and every other character is kept, position by position |
| Text.ToLowerAppend | mcp-server/lib/seed.ts:53 | lower-casing distributes over concatenation |
| Text.ToLowerNoCapital | mcp-server/lib/seed.ts:53 | text without capitals is unchanged by lower-casing |
| Text.TrimAround | mcp-server/lib/seed.ts:53 | whitespace around text whose ends are not whitespace is exactly what `trim` removes |
| SeedSteps.CollapseWhitespace | mcp-server/lib/seed.ts:53 | definition, no contract: `.replace(/\s+/g, '_')`; `CollapseRun`, `CollapseSolidPrefix` and `CollapseKeepsSolid` state its behaviour |
| SeedSteps.CollapseRun | mcp-server/lib/seed.ts:53 | a maximal run of whitespace, of any length, becomes exactly one `_` and the text after it is collapsed on its own |
| SeedSteps.CollapseSolidPrefix | mcp-server/lib/seed.ts:53 | text without whitespace in front of the rest passes through the collapse unchanged |
| SeedSteps.CollapseKeepsSolid | mcp-server/lib/seed.ts:53 | text without whitespace is unchanged by the collapse |
| SeedSteps.KeepSlugChars | mcp-server/lib/seed.ts:53 | `.replace(/[^a-z0-9_]/g, '')` never lengthens the text |
| SeedSteps.KeepSlugCharsSlug | mcp-server/lib/seed.ts:53 | what remains is over `[a-z0-9_]` |
| SeedSteps.KeepSlugCharsKeeps | mcp-server/lib/seed.ts:53 | text over `[a-z0-9_]` is kept whole |
| SeedSteps.KeepSlugCharsAppend | mcp-server/lib/seed.ts:53 | the removal works character by character: it distributes over concatenation |
| SeedSteps.SlugTwoWords | mcp-server/lib/seed.ts:53 | two ASCII words with whitespace around and between them slug to the lower-cased words joined by one `_`, whatever the lengths of the whitespace runs |
| Examples.SlugValuation | mcp-server/lib/seed.ts:53 | "Valuation ($B)" slugs to `valuation_b` |
| Examples.SlugFirstName | mcp-server/lib/seed.ts:53 | "  First   Name " slugs to `first_name` |
| SeedSteps.SlugIdempotent | mcp-server/lib/seed.ts:53 | slugging a slug returns it unchanged |
| SeedSteps.SlugFixedPoint | mcp-server/lib/seed.ts:53 | every string over `[a-z0-9_]` is its own slug |
| SeedSteps.SlugOfSymbol | mcp-server/lib/seed.ts:50-53 | a non-blank label such as `%` slugs to the empty string and stays in the header mapping as `{ orig: "%", slug: "" }` |
| SeedSteps.HeaderSlugsMembers | mcp-server/lib/seed.ts:50-54 | a pair is in the header mapping exactly when its label is a key that is not blank after trimming and its slug is that label's slug |
| SeedSteps.HeaderSlugs | mcp-server/lib/seed.ts:50-54 | at most one pair per key |
| SeedSteps.HeaderSlugsAppend | mcp-server/lib/seed.ts:50-54 | the mapping of a concatenation of key lists is the concatenation of the mappings, in order |
| SeedSteps.HeaderSlugsSingle | mcp-server/lib/seed.ts:50-54 | one key gives no pair when it is blank and the pair of it and its slug otherwise |
| SeedSteps.Slugs | mcp-server/lib/seed.ts:55 | `headerSlugs.map(h => h.slug)` keeps length and order |
| SeedSteps.Dedup | mcp-server/lib/seed.ts:55 | definition, no contract: keep an element when no earlier one equals it; `DedupSpec` states what it computes |
| SeedSteps.DedupSpec | mcp-server/lib/seed.ts:55 | `Array.from(new Set(xs))` has no duplicates, the same elements as xs, and orders them by first occurrence in xs |
| SeedSteps.FirstIndex | mcp-server/lib/seed.ts:93 | the position of the first occurrence of an element |
| SeedSteps.FirstIndexPrefix | mcp-server/lib/seed.ts:55 | appending elements does not move a first occurrence |
| SeedSteps.Columns | mcp-server/lib/seed.ts:55 | `cols` has no duplicates and the same elements as the slug list |
| SeedSteps.Cell | mcp-server/lib/seed.ts:63-94 | definition, no contract: `r[orig]`, read as "" when the row has no such key (so the `''` fallback of line 63 and the blank test of line 95 both see a blank) |
| SeedSteps.NonBlankCells | mcp-server/lib/seed.ts:62-64 | at most one trimmed non-empty cell per row |
| SeedSteps.NonBlankCellsTrimmed | mcp-server/lib/seed.ts:62-64 | every sample is non-empty and not blank |
| SeedSteps.NonBlankCellsAppend | mcp-server/lib/seed.ts:62-64 | the samples of a concatenation of row lists are those of each part, in row order |
| SeedSteps.NonBlankCellsSingle | mcp-server/lib/seed.ts:62-64 | one row contributes its trimmed cell when that is not empty, and nothing otherwise |
| SeedSteps.Samples | mcp-server/lib/seed.ts:62-65 | at most 30 samples, the first ones of the non-blank trimmed cells, and all of them when there are fewer than 30 |
| SeedSteps.CountIf | mcp-server/lib/seed.ts:66-67 | a filter count never exceeds the sample count |
| SeedSteps.DatesAreNumeric | mcp-server/lib/seed.ts:66-67 | a column never has more date samples than numeric samples |
| SeedSteps.RatioAboveFourFifths | mcp-server/lib/seed.ts:68-70 | `count / len > 0.8` holds exactly when `5*count > 4*len` |
| SeedSteps.ClassifySpec | mcp-server/lib/seed.ts:66-74 | `date` iff there are samples and 5*dates > 4*len; `numeric` iff there are samples, not `date`, and 5*numerics > 4*len; no samples gives `text` |
| SeedSteps.Classify | mcp-server/lib/seed.ts:66-74 | definition, no contract: the `0.8` thresholds over date and numeric counts; `ClassifySpec` states them as integer conditions |
| SeedSteps.ClassifyColumn | mcp-server/lib/seed.ts:62-74 | definition, no contract: `Classify` of the column's samples; `Examples.ClassifyJoinedColumn` runs a row through it |
| Examples.ClassifyJoinedColumn | mcp-server/lib/seed.ts:62-74 | a single row whose `joined` cell is "5/1/23" makes `joined` a date column |
| SeedSteps.DateColumnsLookNumeric | mcp-server/lib/seed.ts:66-74 | every date column would also pass the numeric test, which is why date is checked first |
| SeedSteps.TypesOfKeys | mcp-server/lib/seed.ts:60-75 | `columnTypes` has one entry per slug other than `__proto__`, and no other |
| SeedSteps.TypesOf | mcp-server/lib/seed.ts:60-75 | definition, no contract: the header loop's writes in order, through `SetType`; `TypesOfKeys` and `LastHeaderWins` state the result |
| SeedSteps.LastHeaderWins | mcp-server/lib/seed.ts:61-75 | a slug has an entry iff it is not `__proto__`, and that entry is the classification of the last header with that slug |
| SeedSteps.SetType | mcp-server/lib/seed.ts:69-73 | writing a slug other than `__proto__` sets its entry and keeps every other one; writing `__proto__` changes nothing |
| SeedRun.InferColumnTypes | mcp-server/lib/seed.ts:60-75 | the loop computes exactly the overwrite-in-order map, whose keys are exactly the slugs other than `__proto__` |
| SeedRun.TypesOfStep | mcp-server/lib/seed.ts:61-75 | one more header writes one more entry, for its own slug |
| SeedSteps.ColumnDefs | mcp-server/lib/seed.ts:79-85 | one column definition per element of `cols`, in order, named by it |
| SeedSteps.TypeFor | mcp-server/lib/seed.ts:80-84 | definition, no contract: the `switch` on `columnTypes[c]`, where a missing entry falls to `default` |
| SeedSteps.SqlTypeOf | mcp-server/lib/seed.ts:80-84 | definition, no contract: `date` to DATE, `numeric` to NUMERIC, `text` to TEXT |
| SeedSteps.ColumnDefsTyped | mcp-server/lib/seed.ts:79-85 | column k is typed DATE, NUMERIC or TEXT by the classification of the last header carrying its slug, and a `__proto__` column is always TEXT |
| SeedSteps.CoerceNull | mcp-server/lib/seed.ts:95-113 | a cell is null iff it is blank or it is a valuation cell `parseValuation` rejects; the date and text paths never give null; the generic numeric path gives NaN, not null, iff the cell is not a numeric string |
| SeedSteps.CoerceDate | mcp-server/lib/seed.ts:98-99 | a date cell whose trimmed text is a date string is stored as an ISO date |
| SeedSteps.FirstOrig | mcp-server/lib/seed.ts:93 | `find` picks the label of a header carrying the slug with no earlier header carrying it |
| SeedSteps.CoerceRow | mcp-server/lib/seed.ts:92-115 | one value per column |
| SeedSteps.CoerceCell | mcp-server/lib/seed.ts:92-114 | definition, no contract: null for a blank cell, then by column type `parseDate` of the trimmed cell, `parseValuation` or the cleaned `parseFloat`, or the trimmed text; `CoerceNull` and `CoerceDate` state its results |
| SeedSteps.DuplicateSlugs | mcp-server/lib/seed.ts:61-99 | for the first header i and the last header j carrying a column's slug (the same header when only one carries it), the column takes its type from header j (text for `__proto__`) and its cell from header i |
| SeedSteps.Placeholders | mcp-server/lib/seed.ts:121 | placeholder i is `$` followed by the decimal digits of i+1 |
| SeedSteps.PlaceholdersDistinct | mcp-server/lib/seed.ts:121 | the placeholders are pairwise distinct |
| SeedSteps.StripTrailingSlashes | mcp-server/lib/seed.ts:16 | `basename` first ignores trailing `/`: the result is a prefix of the path that does not end in `/` |
| SeedSteps.StripOnlySlashes | mcp-server/lib/seed.ts:16 | what the strip drops is `/` characters only |
| SeedSteps.LastSegment | mcp-server/lib/seed.ts:16 | the last segment is a `/`-free suffix of the path, preceded by a `/` whenever it is not the whole path |
| SeedSteps.BaseName | mcp-server/lib/seed.ts:16 | the base name holds no `/` and is empty iff the path is empty or all `/` |
| SeedSteps.BaseNameIsLastSegment | mcp-server/lib/seed.ts:16 | the base name is the last segment of the path with its trailing `/` removed |
| SeedSteps.LastSegmentOfFile | mcp-server/lib/seed.ts:16 | the last segment of `dir/file` is `file` when `file` holds no `/` |
| SeedSteps.BaseNameOfFile | mcp-server/lib/seed.ts:16 | the base name of `dir/file` is `file`, for any directory part |
| SeedSteps.TableName | mcp-server/lib/seed.ts:16 | `path.basename(csvFile, '.csv')` case by case: `.csv` itself gives ""; a path shorter than `.csv` gives its plain base name; otherwise a base name longer than `.csv` ending in it loses exactly that suffix, an all-`/` path comes back whole, a base name that is a proper tail of `.csv` keeps the trailing `/`, and any other base name is returned as it is |
| SeedSteps.TableNameOfCsvFile | mcp-server/lib/seed.ts:16 | `dir/name.csv` gives the table `name` |
| SeedSteps.TableNameNoSlash | mcp-server/lib/seed.ts:16 | outside the all-`/` and `.csv`-tail cases the table name holds no `/` |
| SeedSteps.TableNameTrailingSlash | mcp-server/lib/seed.ts:16 | for a path of four or more characters not ending in `/`, whose base name is neither `.csv` nor a proper tail of it, one trailing `/` does not change the table name |
| Examples.TableNameOfPath | mcp-server/lib/seed.ts:16 | "data/unicorns.csv" names the table `unicorns` |
| Examples.TableNameSlashEnd | mcp-server/lib/seed.ts:16 | "data/unicorns.csv/" names the table `unicorns` too |
| Examples.TableNameBareSuffix | mcp-server/lib/seed.ts:16 | the path ".csv" names the table "" |
| SeedRun.CoerceRows | mcp-server/lib/seed.ts:91-115 | one value row per parsed row, in order |
| SeedRun.KeptStep | mcp-server/lib/seed.ts:117-125 | one more row is inserted iff none of its values is null, and is counted as skipped otherwise |
| SeedRun.Kept | mcp-server/lib/seed.ts:117-119 | definition, no contract: the value rows without a null, in order; `KeptShape`, `KeptAppend` and `KeptPlusSkipped` state it |
| SeedRun.Skipped | mcp-server/lib/seed.ts:117-119 | definition, no contract: the number of value rows with a null; `KeptPlusSkipped` ties it to `Kept` |
| SeedRun.KeptShape | mcp-server/lib/seed.ts:117-124 | every kept row keeps its length and holds no null |
| SeedRun.KeptPlusSkipped | mcp-server/lib/seed.ts:117-126 | every row is either inserted or skipped: inserted + skipped = rows read |
| SeedRun.KeptAppend | mcp-server/lib/seed.ts:91-126 | the rows kept from a concatenation are those kept from each part, in order |
| SeedRun.InsertedRowsShape | mcp-server/lib/seed.ts:117-124 | every inserted row has exactly one value per column and no null |
| SeedRun.InsertedRowsAppend | mcp-server/lib/seed.ts:91-126 | rows are inserted in source order |
| SeedRun.InsertedRowsSingle | mcp-server/lib/seed.ts:117-125 | a single row is inserted exactly when none of its values is null |
| SeedRun.ReportedCount | mcp-server/lib/seed.ts:128 | the reported count `rows.length` bounds the inserted count and equals it exactly when no row was skipped |
| SeedRun.Database.Recreate | mcp-server/lib/seed.ts:87-88 | DROP then CREATE leaves the named table empty with the given columns and every other table as it was |
| SeedRun.Database.Insert | mcp-server/lib/seed.ts:122-125 | an insert appends one row to the named table and changes nothing else |
| SeedRun.LoadRows | mcp-server/lib/seed.ts:91-126 | the row loop appends to the table exactly the null-free coerced rows, in order, and touches no other table |
| SeedRun.Seed | mcp-server/lib/seed.ts:15-129 | with no parsed row the database is untouched; otherwise the table named after the file holds exactly the column definitions and the null-free coerced rows, and the reported count is the number of parsed rows |
| SeedRun.SeedParsed | mcp-server/lib/seed.ts:45-129 | no parsed row leaves the database untouched; otherwise the table is replaced and the count of parsed rows reported |
| SeedRun.CreateAndLoad | mcp-server/lib/seed.ts:60-126 | the named table ends up with the inferred column definitions and exactly the null-free coerced rows; no other table changes |
| Helpers.MatchDmy | mcp-server/dist/lib/helpers.js:5 | a match yields well-formed groups (1-2 digit day and month, 2 or 4 digit year) whose slash-joined text is the input |
| Helpers.MatchDmyComplete | mcp-server/dist/lib/helpers.js:23-24 | every well-formed D/M/Y text matches with exactly its groups, so the match is an if-and-only-if with no range check |
| Helpers.IsIsoDate | mcp-server/dist/lib/helpers.js:4 | definition, no contract: `/^\d{4}-\d{2}-\d{2}$/` as four digits, a dash, two digits, a dash and two digits |
| Helpers.IsDateString | mcp-server/dist/lib/helpers.js:2-6 | definition, no contract: ISO or a D/M/Y match; `ParseDateYieldsIso` and `DateStringIsNumeric` state its consequences |
| Helpers.ParseDate | mcp-server/dist/lib/helpers.js:22-41 | non-matching input comes back unchanged; matching input becomes an ISO `dddd-dd-dd` string |
| Helpers.FormatDate | mcp-server/dist/lib/helpers.js:26-38 | the padded, possibly swapped, year-expanded groups always form an ISO `dddd-dd-dd` string |
| Helpers.ParseDateMatched | mcp-server/dist/lib/helpers.js:22-38 | a well-formed D/M/Y text is rewritten from exactly its own groups |
| Helpers.ParseDateFields | mcp-server/dist/lib/helpers.js:26-38 | the year is 2000+YY for a 2-digit year and unchanged for 4 digits; month and day are swapped iff month > 12 and 1 <= day <= 12 |
| Helpers.ParseDateYieldsIso | mcp-server/dist/lib/helpers.js:2-6 | every string `isDateString` accepts becomes an ISO date, and ISO input passes through unchanged |
| Helpers.FullYear | mcp-server/dist/lib/helpers.js:35-37 | a two-digit year becomes the four digits of 2000 + YY |
| Helpers.StripNonNumeric | mcp-server/dist/lib/helpers.js:10 | the strip leaves only digits, `.`, `,` and `-` |
| Helpers.DropPoint | mcp-server/dist/lib/helpers.js:11 | a `.` is removed exactly when the maximal digit run after it has at least three digits |
| Helpers.CleanNumeric | mcp-server/dist/lib/helpers.js:9-12 | the cleanup chain leaves only digits, `.` and `-` |
| Helpers.DropThousandsPoints | mcp-server/dist/lib/helpers.js:11 | removing points never lengthens the text; `DropPoint` states which point goes |
| Helpers.IsNumericString | mcp-server/dist/lib/helpers.js:8-15 | definition, no contract: `parseFloat` of the cleaned text is not NaN; `LeadingDigitIsNumeric` and the `Numeric*` lemmas state its cases |
| Helpers.CleanNumberChars | mcp-server/dist/lib/helpers.js:9-12 | turning non-breaking spaces into spaces does not change the result of the cleanup |
| Helpers.LeadingDigitIsNumeric | mcp-server/dist/lib/helpers.js:8-15 | a string starting with a digit is numeric |
| Helpers.DateStringIsNumeric | mcp-server/dist/lib/helpers.js:2-15 | every date string is also a numeric string |
| Helpers.NumericGroupedDecimalComma | mcp-server/dist/lib/helpers.js:8-14 | `a.ggg,b` (3+ digits after the point) reads as the number a·ggg.b, e.g. "1.234,56" is 1234.56 |
| Helpers.NumericShortFraction | mcp-server/dist/lib/helpers.js:8-14 | a point followed by fewer than three digits stays the decimal point |
| Helpers.NumericLongFractionIsGrouping | mcp-server/dist/lib/helpers.js:8-14 | a point followed by three or more digits is dropped: "1.234" reads as 1234 |
| Helpers.NumericUsGroupingMisread | mcp-server/dist/lib/helpers.js:8-14 | US grouping `a,ggg.b` reads as the prefix value a.ggg, e.g. "1,234.50" is 1.234 |
| Helpers.DisambiguateSeparators | mcp-server/dist/lib/helpers.js:52-59 | after the separator rule only digits, `.` and `-` remain |
| Helpers.ValuationText | mcp-server/dist/lib/helpers.js:49-59 | the string handed to `parseFloat` is over digits, `.` and `-` |
| Helpers.ValuationTextStripped | mcp-server/dist/lib/helpers.js:49-50 | the non-breaking-space replacement and the trim change nothing once non-number characters are stripped |
| Helpers.StripIgnoresTrim | mcp-server/dist/lib/helpers.js:49-50 | what `trim` removes the strip removes too |
| Helpers.StripIgnoresNbsp | mcp-server/dist/lib/helpers.js:49-50 | non-breaking spaces and spaces are both stripped |
| Helpers.ParseValuation | mcp-server/dist/lib/helpers.js:47-65 | null iff the cleaned string has no numeric prefix; otherwise the prefix value times 1e9 |
| Helpers.ValuationDecimalComma | mcp-server/dist/lib/helpers.js:56-64 | a lone comma is the decimal point: `a,b` gives a.b billion |
| Helpers.ValuationGroupedDecimalComma | mcp-server/dist/lib/helpers.js:52-64 | with both separators the points are dropped and the comma is the decimal point, whatever the group lengths |
| Helpers.ValuationUsGroupingMisread | mcp-server/dist/lib/helpers.js:52-64 | US grouping `a,g.b` is misread: the point is dropped and the comma becomes the decimal point, so "1,234.56" is 1.23456 billion |
| Helpers.ValuationDecimalPoint | mcp-server/dist/lib/helpers.js:56-64 | a lone point stays the decimal point, even before three digits |
| Numbers.ParseFloatLongestPrefix | mcp-server/dist/lib/helpers.js:13 | `parseFloat` is NaN iff no prefix is a decimal literal; otherwise it is the value of the longest literal prefix |
| Numbers.LongestLiteralPrefix | mcp-server/dist/lib/helpers.js:13 | the prefix found is a literal and no longer prefix is one |
| Numbers.IsLiteral | mcp-server/dist/lib/helpers.js:13 | definition, no contract: an optional `-`, then digits with at most one point and at least one digit |
| Numbers.LiteralValue | mcp-server/dist/lib/helpers.js:13 | definition, no contract: the exact decimal a literal denotes; `ParseFloatInteger` and `ParseFloatPointed` state values |
| Numbers.ParseFloat | mcp-server/dist/lib/helpers.js:13 | definition, no contract: the value of the longest literal prefix, or NaN; `ParseFloatLongestPrefix` states it |
| Numbers.ParseFloatInteger | mcp-server/dist/lib/helpers.js:13 | a digit run followed by something that neither continues it nor opens a fraction reads as that integer |
| Numbers.ParseFloatPointed | mcp-server/dist/lib/helpers.js:13 | `a.b` followed by a non-digit reads as the decimal a.b |
| Numbers.ParseFloatLeadingDigit | mcp-server/dist/lib/helpers.js:13 | a cleaned string starting with a digit always has a numeric prefix |
| Numbers.TimesBillion | mcp-server/dist/lib/helpers.js:64 | the product has exactly 1e9 times the value |
| Text.Split | mcp-server/lib/seed.ts:26 | `split(c)` gives count(c)+1 pieces, none containing c, whose join with c is the input |
| Text.Trim | mcp-server/lib/seed.ts:63 | `trim` returns the slice left after removing whitespace at both ends, and it starts and ends with non-whitespace |
| Text.BlankIffAllWhitespace | mcp-server/lib/seed.ts:95 | a cell is blank after trimming iff all its characters are whitespace |
| Text.PadStart2 | mcp-server/dist/lib/helpers.js:27-28 | padding to two characters keeps the digits' value and gives length 2 for shorter input |
| Text.NatToString | mcp-server/dist/lib/helpers.js:36 | `toString` gives decimal digits whose value is the number, with no leading zero unless it is the single digit `0` |
| Examples.ParseDateTwoDigitYear | mcp-server/dist/lib/helpers.js:22-41 | "5/1/23" becomes "2023-01-05" |
| Examples.ParseDateMonthFirst | mcp-server/dist/lib/helpers.js:30-34 | "2/13/2024" is swapped to "2024-02-13" |
| Examples.ParseDateDayFirst | mcp-server/dist/lib/helpers.js:30-34 | "13/2/2024" is not swapped and becomes "2024-02-13" |
| Examples.ParseDateZeroDay | mcp-server/dist/lib/helpers.js:32 | "0/13/2024" is not swapped (day 0) and becomes "2024-13-00" |
| Examples.ValuationUs | mcp-server/dist/lib/helpers.js:42-46 | "US$350,00" is 350 × 1e9 |
| Examples.NumericEuroValue | mcp-server/lib/seed.ts:106-111 | "1.234,56" on the generic numeric path is 1234.56 |
| Examples.ClassifyIsoDates | mcp-server/lib/seed.ts:66-69 | three ISO dates classify as `date` |
| Examples.ClassifyGroupedNumbers | mcp-server/lib/seed.ts:66-71 | "1,234.50", "980", "2,000" classify as `numeric` |
| Examples.CoerceJoined | mcp-server/lib/seed.ts:98-99 | "5/1/23" in a date column is stored as "2023-01-05" |
| Examples.CoerceAmount | mcp-server/lib/seed.ts:100-111 | "1.234,56" in the numeric column `amount` is 1234.56 |
| Examples.CoerceValuationColumn | mcp-server/lib/seed.ts:100-104 | "US$350,00" in the numeric column `valuation_b` goes through `parseValuation` and is 350 × 1e9 |
| Examples.CoerceValuation | mcp-server/lib/seed.ts:53-104 | a "Valuation ($B)" header slugs to `valuation_b`, so its numeric cell "US$350,00" goes through `parseValuation` and is 350 × 1e9 |
| Examples.CoerceName | mcp-server/lib/seed.ts:112-113 | "Acme" in a text column is stored as "Acme" |

## Left out

- File reading and the `csv-parser` stream (seed.ts lines 17 and 37-43) are not part of this model. `Seed` takes the file content and a function `readCsv` that stands for the parser. Given the delimiter and the number of lines to skip, `readCsv` returns the keys of the first row object, in order, and the parsed rows. How `Object.keys` orders integer-like keys is part of that function.
- Postgres is modelled as a map from table names to column definitions and row lists. The SQL text (quoted identifiers, `join(', ')`) is not built, and `pool.end()` is left out.
- `Seed`: does not model an insert or a DDL statement that the database rejects. In the code such an error escapes `seed()` and ends the process. In the model every statement succeeds.
- Cell: reads a key the row does not have as "". In the code a header that names a property every object inherits (`constructor`, `toString`, `valueOf` and the like), in a row whose object lacks that key, makes `r[orig]` a function; `.trim()` then throws and `seed()` ends. The row objects of `csv-parser` are not part of this model, so that abort is not modelled.
- TableName: follows the POSIX `path.basename`. On Windows Node's `path` is `path.win32`, which also splits at `\` and after a drive letter; that variant is not modelled. A path such as ".csv" names the table "", which Postgres rejects as an identifier; like every rejected statement (see the `Seed` line above), the model lets it succeed.
- The console log lines are left out, except the final count, which `Seed` returns as `Seeded(reported)`.
- CLI argument handling and `process.exit` (seed.ts lines 132-138) are left out.
- Floating point is not modelled. `parseFloat` yields an exact decimal instead of the nearest double, and `* 1_000_000_000` is an exact product. The generic numeric path's NaN is the value `NotANumber`.
- `parseFloat` is modelled only on the alphabet `[0-9.-]`. Every caller cleans its input to that alphabet first, so exponents, `Infinity` and leading whitespace cannot occur.
- `toLowerCase` is modelled only for the characters that can survive the later removal of everything outside `[a-z0-9_]`. These are the ASCII capitals, KELVIN SIGN and LATIN CAPITAL LETTER I WITH DOT ABOVE. Any other character's lower case is neither ASCII nor whitespace, so mapping it to itself yields the same slug.
- The other files of the repository are not part of this model: the MCP tool handlers and HTTP/SSE transport (mcp-server/index.ts), the Python LLM client and its prompts, and the thin Postgres adapter.
