# Course Match clearing prices: a verified model of the data pipeline

This project models, in Dafny, the batch job that builds the course-price data of
the Wharton Course Match price explorer, together with the section-code helpers
the web front end uses. The batch job (`scripts/fetch-clearing-prices.ts`) works
through a fixed registry of 26 terms, Fall 2013 to Spring 2026. It does the
following:

- reads one clearing-price spreadsheet per term and keeps each row whose section
  code is four letters followed by six or seven digits, with the price rounded to
  a whole number;
- stamps every record with its term's position in the registry;
- groups the records by section, in order of first appearance;
- sorts each group by term with a stable sort;
- builds one course entry per section: price history, rounded mean, latest
  price, least-squares forecast for the next term, percentage change against the
  previous term, and trend;
- sorts the courses by latest price, highest first;
- derives the department list, the summary statistics and three top-10 lists
  (highest priced, largest predicted increases, "hidden gems").

The helpers in `src/lib/utils.ts` slice a section code into department, course
number and section number, and insert a space into a term label.

The modules follow that structure:

| module | models |
|---|---|
| `Wrappers`, `Text`, `Seqs`, `Lex`, `StableSort`, `ArraySort` | JavaScript building blocks: `Option`; trim and case mapping; filter, `new Set` and slice; the default string sort; the stable `Array.prototype.sort` (insertion sort, in place on an `array`) |
| `JsNumber` | `Math.round`, and `parseFloat` as a prefix parser in which NaN is `None` |
| `Utils` | `getCourseCode`, `parseSectionCode`, `formatTerm` |
| `Extract` | `parseXlsx`, from the decoded cell matrix onwards |
| `Forecast` | `predictNextPrice`: ordinary least squares over exact reals, with the fit's defining properties proved |
| `Report` | one course entry, the final order, departments, statistics and the three selections |
| `Pipeline` | `main`: the term index map, per-term collection, grouping, course building, final sort and the whole run |

The loops of the source are methods with loop invariants:

- the header scan;
- the row loop;
- the term-index `forEach`;
- the per-term collection loop;
- the grouping `forEach`;
- the per-section build;
- the in-place sort.

Each method is proved equal to a specification function. The properties are
proved about those functions.

In these places the model follows the code exactly:

- **Header matching.** The header scan keeps the LAST matching header, because the
  `forEach` has no `break`.
- **Negative prices.** A negative price cell gives a negative record price, since
  nothing clamps it. A one-record forecast returns that price unclamped.
- **NaN forecast.** When a section has two or more records and all of them are in
  the same term, the regression's denominator is 0 and the forecast is NaN. The model writes that as
  `None`.
- **Empty statistics.** With no courses, the statistics average is `0/0`, which is
  NaN. The model writes that as `None`.

## Model

| member | source | states |
|---|---|---|
| Utils.GetCourseCode | src/lib/utils.ts:30-33 | the course code is a prefix of the section with min(7, length) characters |
| Utils.ParseSectionCode | src/lib/utils.ts:17-28 | the three parts have the lengths of the slices [0,4), [4,7) and [7,10) clamped to the section's length, and together they form a prefix of the section |
| Utils.PartsRebuildSection | src/lib/utils.ts:22-27 | the parts concatenate back to the section if and only if it has at most ten characters |
| Utils.PartsMakeCourseCode | src/lib/utils.ts:24-25 | department followed by course number is exactly getCourseCode of the same section |
| Utils.ElevenCharacterSection | src/lib/utils.ts:26 | for an eleven-character section the section number is characters 7 to 9, and the parts are the section minus its last character |
| Utils.ElevenCharacterExample | src/lib/utils.ts:17-28 | "MGMT5010001" parses to ("MGMT", "501", "000"), and its course code is "MGMT501" |
| Utils.SectionNumberCollision | src/lib/utils.ts:26 | the distinct sections "MGMT6910001" and "MGMT6910002" parse to identical parts |
| Utils.ParseSectionCodeFull | src/lib/utils.ts:22-27 | corrected parse: department plus course number is the course code, and the section number is everything after it |
| Utils.FullPartsRebuildSection | src/lib/utils.ts:22-27 | the corrected parts rebuild every section, so different sections have different parts, and on sections of up to ten characters it agrees with parseSectionCode |
| Utils.FindFourDigits | src/lib/utils.ts:14 | returns the leftmost position where four digits start, or None when there is no such position |
| Utils.FormatTerm | src/lib/utils.ts:12-15 | a space is inserted before the first run of four digits; a term without such a run is unchanged |
| Utils.FormatTermUndo | src/lib/utils.ts:12-15 | the result is the term itself, or it has one space directly before four digits and removing that space gives the term back |
| Utils.FormatTermExamples | src/lib/utils.ts:12-15 | "Spring2026" becomes "Spring 2026" and "Fall" stays "Fall" |
| JsNumber.Round | scripts/fetch-clearing-prices.ts:120 | Math.round: the integer r with x - 0.5 < r <= x + 0.5, so halves round up |
| JsNumber.ParseFloatDigits | scripts/fetch-clearing-prices.ts:116 | parseFloat of a digit run followed by text that cannot continue a number is the run's value |
| JsNumber.ParseFloatDecimal | scripts/fetch-clearing-prices.ts:116 | parseFloat of "whole.frac" followed by such text is whole plus the fraction's value |
| JsNumber.ParseFloatNaN | scripts/fetch-clearing-prices.ts:116 | parseFloat of text whose first character is not blank, a sign, a digit, a point or an e is NaN |
| Extract.SectionColumn | scripts/fetch-clearing-prices.ts:92-102 | the last header mentioning "section" or "course", or column 0 when there is none |
| Extract.PriceColumn | scripts/fetch-clearing-prices.ts:93-103 | the last header mentioning "price" or "clearing", or the last column when there is none |
| Extract.DetectColumns | scripts/fetch-clearing-prices.ts:92-103 | the header loop returns exactly SectionColumn and PriceColumn |
| Extract.ExtractRow | scripts/fetch-clearing-prices.ts:107-123 | a row yields a record if and only if it is non-empty and its trimmed, upper-cased section passes the format check; the record carries that section, the rounded price, the term and termIndex 0 |
| Extract.ParseSheet | scripts/fetch-clearing-prices.ts:80-127 | an empty sheet gives no records; otherwise at most one record per data row, each with a valid section, the given term and termIndex 0 |
| Extract.ParseXlsx | scripts/fetch-clearing-prices.ts:80-127 | the row loop returns exactly ParseSheet of the sheet |
| Extract.FilterMapValid | scripts/fetch-clearing-prices.ts:113-123 | every record kept from any rows has a valid section, the given term and termIndex 0 |
| Extract.ParseSheetRowOrder | scripts/fetch-clearing-prices.ts:106-124 | record k comes from the k-th accepted data row, in sheet order, and every row that yields a record is accepted |
| Extract.PriceOfNumber | scripts/fetch-clearing-prices.ts:116-120 | a numeric cell is rounded by Math.round without any clamping, so 450, 449.5 and -20 become the prices 450, 450 and -20 |
| Extract.PriceOfDecimal | scripts/fetch-clearing-prices.ts:116-120 | the text "450.6" parses to 450.6 and becomes price 451 |
| Extract.PriceOfTrailingText | scripts/fetch-clearing-prices.ts:116-120 | the text "450abc" becomes price 450 |
| Extract.PriceOfNonNumeric | scripts/fetch-clearing-prices.ts:116-120 | the text "N/A" and a missing cell become price 0 |
| Extract.SectionExamples | scripts/fetch-clearing-prices.ts:113-114 | 4 letters and 6 or 7 digits pass; a 7-character code, 3 letters, and 8 digits fail |
| Forecast.MaxTermIndex | scripts/fetch-clearing-prices.ts:138 | the largest termIndex of a non-empty history, attained by one of its points |
| Forecast.PredictNextPrice | scripts/fetch-clearing-prices.ts:129-142 | no points give 0 and one point gives its price; for two or more, NaN exactly when all share one term; otherwise the result is the fitted line at the next term, rounded and floored at 0 |
| Forecast.DenominatorZero | scripts/fetch-clearing-prices.ts:135 | the regression denominator n·Σx² − (Σx)² is never negative, and is zero exactly when every point has the same term |
| Forecast.NormalEquations | scripts/fetch-clearing-prices.ts:135-136 | the fitted line's residuals sum to zero, and so do its term-weighted residuals |
| Forecast.LeastSquares | scripts/fetch-clearing-prices.ts:135-136 | no line has a smaller sum of squared errors than the fitted one |
| Forecast.NormalFitUnique | scripts/fetch-clearing-prices.ts:135-136 | only one line satisfies both normal equations |
| Forecast.FitOfLine | scripts/fetch-clearing-prices.ts:135-139 | when the points lie on a line, the fit returns that line's slope and intercept |
| Forecast.RisingExample | scripts/fetch-clearing-prices.ts:129-142 | prices 100, 200 and 300 in terms 0, 1 and 2 forecast 400 |
| Forecast.FallingExample | scripts/fetch-clearing-prices.ts:141 | prices 100, 50 and 0 in terms 0, 1 and 2 forecast 0, not -50 |
| Lex.LexTotal | scripts/fetch-clearing-prices.ts:229 | any two strings are comparable in the default sort order |
| Lex.LexAntisymmetric | scripts/fetch-clearing-prices.ts:229 | two strings each at most the other are equal |
| Lex.LexTransitive | scripts/fetch-clearing-prices.ts:229 | the default order is transitive |
| Lex.SortStrings | scripts/fetch-clearing-prices.ts:229 | the sorted strings are a permutation of the input |
| Lex.SortStringsSorted | scripts/fetch-clearing-prices.ts:229 | the sorted strings are in ascending order |
| StableSort.SortBy | scripts/fetch-clearing-prices.ts:186 | the sort keeps the length and is a permutation of its input |
| StableSort.SortBySorted | scripts/fetch-clearing-prices.ts:186 | the result is ordered by key |
| StableSort.SortByStable | scripts/fetch-clearing-prices.ts:186 | for every key, the elements with that key keep their input order (stability) |
| StableSort.SortedPrefixSmallest | scripts/fetch-clearing-prices.ts:275-276 | each element in the first n of the sorted result has a key no larger than any element left out |
| ArraySort.SortInPlace | scripts/fetch-clearing-prices.ts:186 | the array afterwards holds the stable sort of its old contents |
| Report.AverageBetween | scripts/fetch-clearing-prices.ts:196 | the rounded mean lies between any lower and upper bound of the prices |
| Report.TrendInWholeNumbers | scripts/fetch-clearing-prices.ts:205-210 | "up" exactly when the previous price is positive and the latest exceeds it by more than 10%; "down" exactly when it is more than 10% lower |
| Report.TrendExamples | scripts/fetch-clearing-prices.ts:205-210 | 500→550 is stable (10% is not above the threshold), 500→600 up, 500→400 down, 0→700 stable |
| Report.RoundToTenth | scripts/fetch-clearing-prices.ts:220 | the stored change is a whole number of tenths within 0.05 of the exact change, which leaves exactly one value, the one Math.round(10x)/10 gives |
| Report.RoundToTenthExamples | scripts/fetch-clearing-prices.ts:220 | 12.34 is stored as 12.3, and the ties 10.25 and -10.25 go up to 10.3 and -10.2 |
| Report.History | scripts/fetch-clearing-prices.ts:191-194 | one (term, price) entry per record, position by position |
| Report.CourseHistory | scripts/fetch-clearing-prices.ts:186-194 | the history follows the stable sort of the group by termIndex: a permutation, ascending by termIndex, with records of one term in collection order |
| Report.CourseLatest | scripts/fetch-clearing-prices.ts:197 | the latest price belongs to a record whose termIndex is the group's maximum |
| Report.CourseAverage | scripts/fetch-clearing-prices.ts:196 | the average price lies between any bounds of the group's prices |
| Report.CourseFields | scripts/fetch-clearing-prices.ts:188-221 | the entry's section is the key; course code and department are its 7- and 4-character prefixes; the forecast of two or more records is non-negative; the stored change (rounded to a tenth) and the trend both compare the latest price with the second-to-last price in term order |
| Report.FinalOrderSpec | scripts/fetch-clearing-prices.ts:225 | the final order is a permutation of the courses, non-increasing in latest price, with ties kept in their original order |
| Report.DepartmentsSpec | scripts/fetch-clearing-prices.ts:229 | a department is listed exactly when some course has it, and the list is strictly ascending (each appears once) |
| Report.StatsSpec | scripts/fetch-clearing-prices.ts:232-237 | the total is the number of courses; free plus high-demand courses is at most the total; departments are at most the total; the average is NaN exactly when there are no courses |
| Report.StatsAverage | scripts/fetch-clearing-prices.ts:235 | for a non-empty list, the average latest price lies between any bounds of the latest prices |
| Report.CountDisjoint | scripts/fetch-clearing-prices.ts:236-237 | no course is counted as both free and high-demand |
| Report.SelectionKept | scripts/fetch-clearing-prices.ts:273-276 | filter, sort, slice keeps min(n, matches) elements, all from the input and matching, in key order |
| Report.SelectionLeast | scripts/fetch-clearing-prices.ts:273-276 | nothing that matched but was cut by the slice has a smaller key than a kept element |
| Report.TopPricedSpec | scripts/fetch-clearing-prices.ts:268 | the top list has min(10, courses) entries, and no course left out has a higher latest price |
| Report.IncreasesSpec | scripts/fetch-clearing-prices.ts:273-276 | at most ten courses, each with a positive latest price and a higher forecast, ordered by predicted increase, largest first |
| Report.IncreasesLargest | scripts/fetch-clearing-prices.ts:273-276 | no qualifying course that was left out has a larger predicted increase than a listed one |
| Report.GemsSpec | scripts/fetch-clearing-prices.ts:285-288 | at most ten courses priced between 1 and 99 with at least three terms of history, in ascending average price |
| Report.GemsCheapest | scripts/fetch-clearing-prices.ts:285-288 | no qualifying course that was left out has a lower average than a listed one |
| Pipeline.TermIndexMapSpec | scripts/fetch-clearing-prices.ts:151-155 | the map's keys are exactly the terms, and each maps to its last position in the list |
| Pipeline.BuildTermIndexMap | scripts/fetch-clearing-prices.ts:151-155 | the forEach builds exactly TermIndexMap |
| Pipeline.TermsDistinct | scripts/fetch-clearing-prices.ts:36-63 | the registry lists 26 terms, none twice |
| Pipeline.RegistryIndices | scripts/fetch-clearing-prices.ts:153-164 | looking up each registry term, with the fallback to 0, gives its own position |
| Pipeline.Stamp | scripts/fetch-clearing-prices.ts:163-165 | every record is kept in place with only its termIndex replaced |
| Pipeline.StampTermIndex | scripts/fetch-clearing-prices.ts:163-165 | the forEach stamps exactly as Stamp does |
| Pipeline.FetchTerm | scripts/fetch-clearing-prices.ts:160-166 | a failed download contributes nothing; a sheet contributes its parsed and stamped records |
| Pipeline.Collect | scripts/fetch-clearing-prices.ts:158-169 | the per-term loop gathers exactly the term-ordered concatenation Collected |
| Pipeline.CollectedFrom | scripts/fetch-clearing-prices.ts:158-169 | every collected record has a valid section, and its termIndex names a downloaded term that is its own term |
| Pipeline.CollectedTerm | scripts/fetch-clearing-prices.ts:158-169 | every record parsed from a downloaded term is collected, stamped with that term's index |
| Pipeline.NoneCollected | scripts/fetch-clearing-prices.ts:160-161 | when no download succeeds nothing is collected |
| Pipeline.GroupNonEmpty | scripts/fetch-clearing-prices.ts:175-180 | a section that occurs has a non-empty group |
| Seqs.DistinctInFirstAppearanceOrder | scripts/fetch-clearing-prices.ts:175-180 | the de-duplicated sequence lists each element in order of its first occurrence, as a Map's keys and a Set's elements are ordered |
| Pipeline.GroupBySection | scripts/fetch-clearing-prices.ts:175-180 | the map's keys are the distinct sections in first-appearance order, and each maps to all its records in collection order |
| Pipeline.CoursesOf | scripts/fetch-clearing-prices.ts:185-223 | one course per distinct section, in key order, each built from that section's group |
| Pipeline.BuildSectionCourse | scripts/fetch-clearing-prices.ts:186-222 | sorting the group in place and building the entry gives CourseOf of the section |
| Pipeline.BuildCourses | scripts/fetch-clearing-prices.ts:183-223 | the Map forEach builds exactly CoursesOf |
| Pipeline.SortCourses | scripts/fetch-clearing-prices.ts:225 | the in-place sort gives exactly FinalOrder |
| Pipeline.Run | scripts/fetch-clearing-prices.ts:150-288 | the whole run yields RunOf of the downloaded sheets |
| Pipeline.OneCoursePerSection | scripts/fetch-clearing-prices.ts:175-225 | a section occurs in the records exactly when a final course has it; each course is built from its own section's records; no section has two courses |
| Pipeline.NothingFetched | scripts/fetch-clearing-prices.ts:158-237 | when every download fails there are no courses or departments, the total is 0 and the average is NaN |

## Findings

| source | as written | input that shows it | evidently intended | confidence | as-written member | corrected member |
|---|---|---|---|---|---|---|
| src/lib/utils.ts:26 | `sectionNum` is `section.slice(7, 10)`, yet section codes may have seven digits after the letters | "MGMT6910001" and "MGMT6910002", both in the bundled sample data, both give section number "000" | the section number is everything after the course code ("0001", "0002") | not executed; read from the code | Utils.SectionNumberCollision | Utils.ParseSectionCodeFull |

Nothing in the source files calls parseSectionCode; `src/types/course.ts:11` only
declares a `sectionNum` field. So Utils.ParseSectionCodeFull stands alone. Utils.FullPartsRebuildSection proves its
round trip.

## Left out

- **Downloads.** `downloadFile`, `fetch` and the network are not modelled. Each term's download is an input `Option<Sheet>`, where None is a failed download. The download URLs are not modelled either.
- **Workbook decoding.** `XLSX.read` and `sheet_to_json` are foreign code. The model starts from the first sheet's decoded cell matrix. A workbook that `XLSX.read` cannot read throws out of `main` and aborts the whole run, whereas a failed download only skips its term. The model's per-term input distinguishes only "downloaded sheet" from "failed download", so that abort is not represented.
- **Output and side effects.** The file writes, the console output and the `lastUpdated` timestamp are not modelled (they are I/O and the clock). The top-10 lists are modelled as values rather than as printed lines.
- **Numbers.** Prices, means and the regression are exact reals, not IEEE doubles, so rounding error in the floating-point sums is not captured.
- **simple-statistics.** The library's internals are replaced by the closed-form least-squares fit. The model captures its NaN case, where all points share one term, as None.
- JsNumber.ParseFloat: the `Infinity` literal and exponents that overflow to infinity are not modelled. Such text reads as NaN or as a finite value.
- **Non-text cells.** A numeric header or section cell is read as "". Its string form never contains the header keywords and never starts with four letters, so the outcome is the same.
- **Character semantics.** Case mapping covers ASCII only. Strings are sequences of characters rather than UTF-16 code units, and the default sort compares characters.
- **Front-end code.** `cn`, `formatPrice` and the React views, stores and pages are not part of this model.
