# Dataset bias analysis, modelled in Dafny

This project models the bias-analysis engine of a dataset-auditing web
application. The modelled code is `analyzeDataBias` and the `detectBias`
dispatcher in `src/lib/biasDetection.js`.

`analyzeDataBias` takes a parsed CSV dataset: a list of rows, each mapping
column names to cell text. For each of three sensitive attributes it does
three things:

- It finds the attribute's column. This is the first header key of row 0,
  in `Object.keys` order, whose lower-cased name contains a keyword. Gender
  uses `gender` or `sex`, Age uses `age`, and Race/Ethnicity uses `race` or
  `ethnicity`.
- It computes a distribution:
  - Gender: category percentages of the lower-cased cells.
  - Race/Ethnicity: category percentages of the raw, case-sensitive cells.
  - Age: minimum, maximum, sum and count of the cells that `parseInt`
    accepts.
- It rates the attribute Low, Medium or High and writes a recommendation.

The report lists the findings in the order Gender, Age, Race/Ethnicity. It
also holds the worst tier as the overall risk, the number of rows and the
number of findings. `detectBias` analyses `csv` input, returns a fixed
placeholder report for `image` input, and rejects every other file type.

The JavaScript details this depends on are modelled, with the limits listed
under "Left out":

- `Object.keys` order: array-index keys first in ascending numeric order,
  then the other keys in insertion order.
- `parseInt` with no radix: JavaScript white space, one sign, a `0x` prefix,
  and the longest digit prefix. NaN is `None`.
- `toFixed(1)` of a percentage, written as a whole number of tenths.
- `JSON.stringify` of a distribution object.
- `Math.max()` and `Math.min()` of an empty list, which the source reaches
  in two edge cases:
  - A Gender or Race column whose cells are all empty gives an empty
    distribution. Its largest percentage is `-Infinity`, so it is rated Low.
  - An Age column in which no cell parses has range `-Infinity`, so it is
    rated High. Its recommendation then reads
    `Expand age range. Current range: Infinity--Infinity years`.

Modules:

- `Wrappers`: `Option` and `Result`.
- `Text`: ASCII lower-casing, substring search, and decimal digits.
- `JsNumber`: `parseInt`, percentages in tenths, and `toFixed(1)`.
- `JsObject`: `Object.keys` order.
- `Json`: writing and reading back string-valued JSON objects.
- `Dataset`: cells and rows.
- `Columns`: column lookup.
- `Counting`: the counting `forEach` loops.
- `Shares`: percentages and the largest share.
- `AgeStats`: the age pipeline.
- `Risk`: the tiers.
- `BiasReport`: findings, the report, and dispatch.
- `BiasExamples`: one dataset followed from its rows to its Gender finding.

The loops that mutate a dictionary or a list are written as methods:

- `CountCategories` is the counting loop.
- `SumValues` is the `reduce` to the total.
- `Percentages` fills the distribution key by key.
- `AnalyzeDataBias` pushes the findings and sets the overall risk.

Each method is proved equal to a specification function, and the lemmas are
proved about those functions.

One might expect the rounded percentages to add up to 100 ± 0.1. The code
does not guarantee that. Each rounded share can be off by up to half a tenth,
so the model proves only that the sum is within `n/2` tenths of 100% for
`n` categories (`Shares.SharesNearHundred`). Six equal categories give
100.2% (`Shares.SixWaySplit`). The model follows the code.

## Model

| member | source | states |
|---|---|---|
| Text.LowerFacts | src/lib/biasDetection.js:46 | lower-casing is idempotent, leaves lower-case text alone, and leaves no capital |
| Text.Contains | src/lib/biasDetection.js:40 | `includes` is true exactly when the keyword occurs at some position |
| Text.NatToStringRoundTrip | src/lib/biasDetection.js:97 | the decimal text written for a number reads back as that number |
| JsNumber.ParseInt | src/lib/biasDetection.js:78 | a number is read only when the first character after the leading white space is a digit, or a sign followed by a digit; a negative number needs a minus sign |
| JsNumber.ParseIntRoundTrip | src/lib/biasDetection.js:78 | `parseInt` reads back every integer that `String` writes |
| JsNumber.ParseIntReadsPrefix | src/lib/biasDetection.js:78 | `parseInt` reads an integer back from the front of a longer text that continues with a non-digit |
| JsNumber.ParseIntStopsAtSpace | src/lib/biasDetection.js:78 | "25 years" parses as the age 25 |
| JsNumber.ParseIntStopsAtPoint | src/lib/biasDetection.js:78 | "31.9" parses as 31, cut off rather than rounded |
| JsNumber.ParseIntRejectsText | src/lib/biasDetection.js:78 | "n/a" is NaN and is filtered out |
| JsNumber.ParseIntPrefixes | src/lib/biasDetection.js:78 | leading white space is skipped, and the empty string is NaN |
| JsNumber.ParseIntHex | src/lib/biasDetection.js:78 | "0x1A" parses as 26, and a bare "0x" is NaN |
| JsNumber.PercentTenths | src/lib/biasDetection.js:55 | the tenths written are the nearest tenth of `count/total*100`, a tie going up, and at most 100% when `count <= total` |
| JsNumber.Fixed1 | src/lib/biasDetection.js:55 | the `toFixed(1)` text has at least three characters, with the decimal point just before the last digit |
| JsNumber.Fixed1RoundTrip | src/lib/biasDetection.js:55-59 | `Number` of the `toFixed(1)` text gives back the same number of tenths |
| JsNumber.PercentExamples | src/lib/biasDetection.js:55 | 8 of 10 is "80.0", 1 of 3 is "33.3", 2 of 3 is "66.7", and 1 of 16 is "6.3" |
| JsObject.OwnKeyOrderShape | src/lib/biasDetection.js:39 | `Object.keys` lists every inserted key, sorted array indices first, then the other keys |
| JsObject.SortIndicesSorted | src/lib/biasDetection.js:54 | array-index keys come out in ascending order and as a permutation of the input |
| JsObject.OwnKeyOrderIdempotent | src/lib/biasDetection.js:54-56 | copying the counts into a distribution object key by key keeps the key order |
| JsObject.OwnKeyOrderWithoutIndices | src/lib/biasDetection.js:54 | without array-index keys, `Object.keys` is insertion order |
| JsObject.OwnKeyOrderExample | src/lib/biasDetection.js:54 | keys inserted as "female", "2", "male", "1" are listed as "1", "2", "female", "male" |
| Json.StringifyObject | src/lib/biasDetection.js:67 | the JSON text of a distribution object opens with `{` and closes with `}` |
| Json.QuoteRoundTrip | src/lib/biasDetection.js:67 | a quoted, escaped JSON string reads back as the original text, leaving what follows it |
| Json.StringifyRoundTrip | src/lib/biasDetection.js:67 | the JSON text of a distribution object parses back to its members, in order |
| Json.EscapePlain | src/lib/biasDetection.js:67 | text with no quote, backslash or control character is written unescaped |
| Dataset.Get | src/lib/biasDetection.js:46 | `row[col]` is undefined exactly when the row has no such column, and otherwise is a cell of the row |
| Dataset.GetCell | src/lib/biasDetection.js:46 | in a row with distinct column names, looking up a cell's column finds that cell |
| Columns.FirstMatching | src/lib/biasDetection.js:39-41 | `find` returns the first key whose lower-cased name contains a keyword, or nothing if none does |
| Columns.MatchesKeyword | src/lib/biasDetection.js:40 | a key matches when its lower-cased name contains one of the keywords at some position, as either `includes` test of the callback does |
| Columns.FindColumn | src/lib/biasDetection.js:39-41 | for each attribute's search (also lines 73-75 and 103-105), nothing is found exactly when there is no row or no key of row 0 matches; otherwise the chosen column is a key of row 0 that matches, and every earlier key does not |
| Columns.ColumnInHeaderOrder | src/lib/biasDetection.js:39-41 | for each of the three searches, the choice is the first match in header order, because array-index names never contain a keyword |
| Columns.SubstringMatches | src/lib/biasDetection.js:40 | the test here and on line 74 is a substring test: "Sex" and "Essex_branch" are Gender columns, "Language" is an Age column |
| Columns.NameIsNotGender | src/lib/biasDetection.js:40 | "Name" is not a Gender column |
| Counting.CellText | src/lib/biasDetection.js:46 | the cell text is missing exactly when the row has no such column; it keeps the cell's length and its emptiness; in the Gender loop it has no capital letter left, while the Race loop (line 110) keeps it raw |
| Counting.CountedValues | src/lib/biasDetection.js:45-50 | the counted values are non-empty, and there is at most one per row |
| Counting.CountedValuesFromRows | src/lib/biasDetection.js:45-50 | in the Gender loop and the Race loop (lines 109-114), a value is counted exactly when it is the non-empty cell text of some row |
| Counting.RawValuesFromRows | src/lib/biasDetection.js:109-113 | in the Race loop a value is counted exactly when it is the non-empty raw cell text of some row |
| Counting.NothingCounted | src/lib/biasDetection.js:47 | a column of missing or empty cells counts nothing |
| Counting.CaseHandling | src/lib/biasDetection.js:46 | Gender cells are lower-cased and Race cells (line 110) are not: "Male" and "male" are one gender, while "Asian" and "asian" are two races |
| Counting.TallyCounts | src/lib/biasDetection.js:48 | the count dictionary has each counted value as a key, with its number of occurrences |
| Counting.DistinctKeys | src/lib/biasDetection.js:48 | the order of first insertion lists each counted value exactly once |
| Counting.TotalIsCountedCells | src/lib/biasDetection.js:52 | the total over the keys in `Object.keys` order is the number of counted cells |
| Counting.SumPermutation | src/lib/biasDetection.js:52 | the total does not depend on the order of the keys |
| Counting.SumValues | src/lib/biasDetection.js:52 | the `reduce` loop (also line 116) computes the sum of the counts |
| Counting.CountCategories | src/lib/biasDetection.js:44-50 | the counting loop (also lines 108-114) builds the count dictionary and its insertion order |
| Shares.SharesOf | src/lib/biasDetection.js:54-56 | the distribution has one entry per key of the counts |
| Shares.SharesAt | src/lib/biasDetection.js:54-56 | entry `i` of a distribution is key `i` with its rounded percentage |
| Shares.Percentages | src/lib/biasDetection.js:53-56 | the key-by-key loop (also lines 117-120) builds that distribution |
| Shares.MaxTenths | src/lib/biasDetection.js:59 | the largest percentage is one of the percentages and bounds all of them; it is absent exactly when the distribution is empty |
| Shares.SharesNearHundred | src/lib/biasDetection.js:52-56 | the rounded percentages add up to 100% within half a tenth per category |
| Shares.SharesAtMostHundred | src/lib/biasDetection.js:55 | no percentage exceeds 100% |
| Shares.SixWaySplit | src/lib/biasDetection.js:55 | six equal categories add up to 100.2% |
| Shares.DistributionAt | src/lib/biasDetection.js:52-56 | the distribution follows `Object.keys` order and each entry is that value's rounded share |
| Shares.DistributionFacts | src/lib/biasDetection.js:44-56 | the distribution lists each counted value once and nothing else; it is empty exactly when nothing was counted; each share comes from the value's occurrences; the sum is near 100% |
| AgeStats.ParsedAges | src/lib/biasDetection.js:78 | the sample never has more ages than there are rows |
| AgeStats.MinOf | src/lib/biasDetection.js:80 | `Math.min` of a non-empty sample is in the sample and bounds it from below |
| AgeStats.MaxOf | src/lib/biasDetection.js:81 | `Math.max` of a non-empty sample is in the sample and bounds it from above |
| AgeStats.Summarize | src/lib/biasDetection.js:79-84 | the statistics exist exactly when some age parsed; then the minimum and the maximum are ages of the sample that bound every age, the range is not negative, and the count is the sample size |
| AgeStats.SummaryExamples | src/lib/biasDetection.js:78-84 | ages 25, 25, 25, 26 span 1 year, and ages 18 and 75 span 57 |
| AgeStats.ParsedAgeAt | src/lib/biasDetection.js:78 | the age of a row whose cell parses is in the sample |
| AgeStats.ParsedAgesComplete | src/lib/biasDetection.js:78 | every row's parsed age is in the sample |
| AgeStats.ParsedAgesFromRows | src/lib/biasDetection.js:78 | the sample holds exactly the ages of the cells that parse, and is empty exactly when none does |
| Risk.ShareTier | src/lib/biasDetection.js:60 | a tier above Low needs a largest percentage; when the medium threshold is at most the high one, the tier is Low exactly when there is no percentage or the largest is at most the medium threshold (line 123 uses the same rule) |
| Risk.RangeTier | src/lib/biasDetection.js:85 | the tier is Medium exactly when the range is at least the high threshold and below the medium one; with ordered thresholds it is Low exactly when the range reaches the medium threshold |
| Risk.AgeTier | src/lib/biasDetection.js:80-85 | Medium needs an age sample whose range lies between the thresholds; with ordered thresholds the tier is Low exactly when there is a sample whose range reaches the medium threshold, so no sample is never Low |
| Risk.ShareTierMonotone | src/lib/biasDetection.js:60 | a larger maximum percentage never gives a lower tier |
| Risk.AgeTierAntitone | src/lib/biasDetection.js:85 | a wider age range never gives a higher tier |
| Risk.GenderBoundaries | src/lib/biasDetection.js:60 | the Gender thresholds are strict: 75.0% is Medium and 60.0% is Low |
| Risk.RaceBoundaries | src/lib/biasDetection.js:123 | the Race thresholds are strict: 70.0% is Medium and 50.0% is Low |
| Risk.AgeBoundaries | src/lib/biasDetection.js:85 | the Age thresholds are strict: a 20-year range is Medium and a 40-year range is Low |
| Risk.AgeExamples | src/lib/biasDetection.js:78-85 | ages 25, 25, 25, 26 are High risk, and ages 18 and 75 are Low risk |
| BiasReport.Pairs | src/lib/biasDetection.js:55-67 | each distribution member is a category with a percentage text that reads back as its tenths |
| BiasReport.DetectBias | src/lib/biasDetection.js:4-11 | `csv` is analysed and `image` gets the placeholder report; any other type fails with "Unsupported file type"; every report is consistent |
| BiasReport.CategoricalDistribution | src/lib/biasDetection.js:44-56 | counting, totalling and filling the distribution gives the distribution of the counted cells |
| BiasReport.CategoricalFinding | src/lib/biasDetection.js:59-69 | the finding keeps the attribute and the distribution; with ordered thresholds it is High exactly when some share exceeds the high threshold; a non-Low recommendation starts with the alert, and when the alert and the balanced text start differently the risk is Low exactly when the recommendation is the balanced text (lines 122-132 for Race) |
| BiasReport.AgeFindingOf | src/lib/biasDetection.js:85-99 | the finding is the Age statistics; it is Low exactly when there is a sample spanning at least 40 years, Low exactly when the recommendation is "Age distribution is diverse", and otherwise the recommendation starts with the range alert |
| BiasReport.Findings | src/lib/biasDetection.js:36-133 | there are at most three findings |
| BiasReport.CountRisk | src/lib/biasDetection.js:136-137 | a filter count is at most the number of findings |
| BiasReport.OverallRisk | src/lib/biasDetection.js:139-141 | the overall risk is at least every finding's tier, is the tier of some finding when there is one, and is Low with none |
| BiasReport.AnalyzeDataBias | src/lib/biasDetection.js:33-150 | the imperative analysis returns the report of the dataset |
| BiasReport.RiskOfFindings | src/lib/biasDetection.js:136-141 | the two filter counts and the conditionals give the overall risk |
| BiasReport.CountRiskPositive | src/lib/biasDetection.js:136-137 | a filter count is positive exactly when some finding has that tier |
| BiasReport.OverallRiskIsWorst | src/lib/biasDetection.js:136-141 | the overall risk is High iff some finding is High, Medium iff none is High and some is Medium, and Low otherwise, including with no findings; it is at least every finding's tier |
| BiasReport.FindingsLayout | src/lib/biasDetection.js:62-133 | findings pushed in the order Gender, Age, Race appear in that order, each attribute at most once |
| BiasReport.ReportOrder | src/lib/biasDetection.js:143-149 | `totalRows` is the number of rows, there are at most three findings, and they come in the order Gender, Age, Race/Ethnicity |
| BiasReport.ReportPresence | src/lib/biasDetection.js:43-107 | an attribute has a finding exactly when its column is found |
| BiasReport.AnalyzeConsistent | src/lib/biasDetection.js:139-147 | the overall risk and `columnsAnalyzed` agree with the findings |
| BiasReport.ImageReport | src/lib/biasDetection.js:152-167 | the image report has one Image Analysis finding, Medium overall risk, the given timestamp, and is consistent |
| BiasReport.EmptyDataset | src/lib/biasDetection.js:39-149 | an empty dataset gives no findings, Low overall risk, and zero rows and columns |
| BiasReport.TierOfShares | src/lib/biasDetection.js:59-60 | High iff some share exceeds the high threshold; Medium iff none does and some exceeds the medium one; Low for an empty distribution |
| BiasReport.CategoricalFacts | src/lib/biasDetection.js:52-68 | facts shared by the Gender and Race findings: categories, shares, tier, and a recommendation that embeds JSON reading back to the distribution |
| BiasReport.GenderFacts | src/lib/biasDetection.js:43-69 | Gender categories are the distinct non-empty lower-cased cells, each once; High iff a share is above 75.0%; Low iff the text is "Distribution is balanced"; otherwise the alert embeds JSON that reads back to the distribution |
| BiasReport.RaceFacts | src/lib/biasDetection.js:107-132 | as for Gender, on the raw cells, with 70.0% and "Racial distribution is balanced" |
| BiasReport.AgeFacts | src/lib/biasDetection.js:77-99 | the Age statistics come from the parsing cells; High below 20 and Low from 40 years; Low iff "Age distribution is diverse"; otherwise the alert names the range: `parseInt` reads the minimum back just after the alert, and the maximum just after the hyphen that follows the minimum |
| BiasReport.SampleIffParsable | src/lib/biasDetection.js:78-81 | the age statistics exist exactly when some cell of the column parses |
| BiasReport.AgeRisk | src/lib/biasDetection.js:84-85 | with no parsed age the risk is High; otherwise High exactly below a 20-year range and Low exactly from a 40-year range |
| BiasReport.AgeAdvice | src/lib/biasDetection.js:96-98 | the Age recommendation is the fixed text exactly when the risk is Low; otherwise it starts with the alert, `parseInt` reads the minimum age right after it, and the maximum age right after the following hyphen |
| BiasReport.AgeRangeSplit | src/lib/biasDetection.js:97 | the alert text is the alert, the minimum, a hyphen, then the maximum followed by " years" |
| BiasReport.GenderColumnAllEmpty | src/lib/biasDetection.js:43-68 | a Gender column of empty cells still gives a finding: an empty distribution, Low, "Distribution is balanced" |
| BiasReport.NoParsableAge | src/lib/biasDetection.js:77-98 | an Age column with no parsable cell gives High and "Expand age range. Current range: Infinity--Infinity years" |
| BiasReport.NoSampleAdvice | src/lib/biasDetection.js:80-98 | an empty age sample is rated High and printed as the range "Infinity--Infinity" |
| BiasReport.GenderExampleHigh | src/lib/biasDetection.js:59-60 | a distribution of 80.0% and 20.0% is High |
| BiasReport.GenderExampleLow | src/lib/biasDetection.js:59-68 | a distribution of 60.0% and 40.0% is Low with the text "Distribution is balanced" |
| BiasExamples.MixedCaseColumn | src/lib/biasDetection.js:39-41 | a dataset whose only header is "gender" has that Gender column |
| BiasExamples.MixedCaseCounted | src/lib/biasDetection.js:45-50 | the cells "male", "Male", "male", "MALE", "female" are counted lower-cased, as four "male" and one "female" |
| BiasExamples.MixedCaseCounts | src/lib/biasDetection.js:48 | the counts are 4 for "male" and 1 for "female", inserted in that order |
| BiasExamples.MixedCaseKeys | src/lib/biasDetection.js:54 | `Object.keys` lists "male" then "female" |
| BiasExamples.MixedCaseDistribution | src/lib/biasDetection.js:52-56 | the distribution is 80.0% "male" and 20.0% "female" |
| BiasExamples.MixedCaseFinding | src/lib/biasDetection.js:43-69 | the Gender finding of those rows has that distribution and High risk |

## Left out

- CSV parsing with `Papa.parse` and the promise around it (`detectCSVBias`, src/lib/biasDetection.js:13-31): it is a foreign library with asynchronous callbacks. `DetectBias` takes the parsed rows as a parameter.
- The `file` argument of `detectImageBias`: the placeholder report ignores it. Its `{ analyzed: true }` distribution is the constant `ImagePlaceholder`.
- The timestamp `new Date().toISOString()`: it reads the clock. It is a parameter of `Analyze`, `AnalyzeDataBias` and `DetectBias`.
- The average age `avgAge.toFixed(1)` (line 90): it is floating-point. The summary keeps the sum and the count it is computed from.
- JsNumber.PercentTenths: the percentage is rounded once, from the exact ratio. The source computes `count / total * 100` in double precision before `toFixed(1)`, and a double-rounding difference at an exact `.x5` is not modelled.
- AgeStats.ParsedAges: `parseInt` is exact on integers of any size. Doubles lose precision beyond 2^53, and a spread of more than about 10^5 arguments into `Math.min`/`Math.max` throws. Neither is modelled.
- Text.Lower: only ASCII letters are lower-cased. `toLowerCase` also maps other Unicode letters, for example "É".
- Counting.Tally: a cell text such as `__proto__` or `constructor` is a plain key. In the source's `{}` these names touch inherited properties.
- BiasReport.Findings: its own contract bounds only the number of findings. Their order and presence are stated by `ReportOrder` and `ReportPresence`, which keeps the function cheap to unfold wherever it is used.
- `TypeName` gives the `type` strings of the findings. Findings carry the `Attribute` value itself.
- `generateCleanedDataset` and `exportToCSV` (src/lib/biasDetection.js:170-188): one is an identity stub and the other does DOM and Blob output.
- The Supabase client, the React pages and the components: they are UI, routing and remote storage.
