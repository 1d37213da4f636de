# sends — a verified model of the send-log reporter

`sends` reads the frontmatter of every `index.md` page of a static site.
Each page has a `date` and a list of free-text "send" strings such as
`Red V4` or `Blue 5.10+ flash`. The tool splits each send string into
color, grade and meta with one fixed pattern, and sorts all sends by a
numeric grade key, then by color. It then prints one of three reports:

- every send (list mode);
- a count per exact grade string, in first-seen order (count mode);
- the distinct non-empty dates of the sends with one exact grade, in date
  order (dates mode).

The model covers the logic of `main.go` in these modules:

- `Grades` (`grades.dfy`): the grade key `parseGrade` as `GradeKey` on
  exact reals. `strconv.ParseFloat` on the grade alphabet becomes the
  decimal-literal reader `ParseDecimal`. Lemmas state each band's value,
  the order inside the rope and boulder bands, the modifier trim order,
  the fallbacks, and the order between bands.
- `SendPattern` (`pattern.dfy`): the send pattern
  `(?P<color>[\w\s']*?\s?)(?P<grade>V?[\d.+?-]+)(?P<meta>\s?.*)`. A match
  is specified declaratively as a span of four indices (`IsMatch`), with
  the leftmost-first priority between matches (`Preferred`). `Locate` is
  proved to return the preferred match whenever there is one. `Split`
  reads off the three groups.
- `FrontmatterScan` (`frontmatter.dfy`): the delimiter loop of
  `extractFrontmatter`. It is a `while` loop with a counter and a flag,
  proved to return the lines strictly between the first two `---` lines.
- `Sends` (`sends.dfy`): the collection loops of the directory walk, the
  `SliceStable` comparator, and the in-place sort of the sends.
- `StableSort` (`sorting.dfy`): a stable in-place insertion sort on an
  `array`, generic in its less function. It is proved equal to a
  functional insertion sort, which is proved to return a sorted
  permutation that keeps every class of equivalent elements in order.
- `Report` (`report.dfy`): count mode, dates mode, the output lines, and
  `Run`, which dispatches on the mode after the shared sort.
- `Lex` (`lex.dfy`): byte-wise string order, Go's `<` on strings.

Two consequences of the code are easy to miss.

`parseGrade` trims a trailing `+` and then a trailing `-` (main.go:44-45,
70-71). So `V5-+` loses both signs and reads as V5 with a plus. `V5+-` loses
only the `-`; the `5+` that is left does not parse, and the grade sorts last
(`MinusThenPlusKey`, `PlusThenMinusKey`).

The dates comparator (main.go:246-254) is string order on every pair of
strings. The layout `2006-01-02` accepts only fixed-width digit fields, so
for two dates that both parse, chronological order is string order. When
either fails to parse, the comparator falls back to string order
(`DateOrderIsStrictWeakOrder`).

## Model

| member | source | states |
|---|---|---|
| Lex.StrLess | main.go:227 | Go's `<` on strings, character by character, is the lexicographic order: a common prefix, then a ends while b goes on, or a has the smaller character |
| Lex.StrLessIrreflexive | main.go:227 | no color sorts before itself |
| Lex.StrLessTransitive | main.go:227 | the color order is transitive |
| Lex.StrLessTotal | main.go:227 | of two different colors, one sorts before the other |
| Lex.StrLessAsymmetric | main.go:227 | two colors never sort before each other |
| Grades.DotSplitLiteral | main.go:47 | the parts before and after the first `.` are all digits and not both empty exactly when the string is an unsigned literal |
| Grades.ParseUnsigned | main.go:47 | reads a string exactly when it is digits with at most one `.` and at least one digit |
| Grades.ParseDecimal | main.go:92 | reads a string exactly when it is such a literal, optionally after one leading `+` or `-` |
| Grades.ParseUnsignedDot | main.go:47 | `ip.fp` reads as ip plus fp divided by 10 to the length of fp; either side may be empty, not both |
| Grades.ParseUnsignedDigits | main.go:47 | digits without a `.` read as their number, leading zeros included |
| Grades.ParseDecimalSign | main.go:92 | a leading `-` negates the literal's value, a leading `+` keeps it |
| Grades.LiteralEnd | main.go:47-50 | a literal never ends in a sign, so a sign left after trimming makes the parse fail |
| Grades.LiteralChars | main.go:35-37 | a literal holds no `?` and at least one digit |
| Grades.DecimalString | main.go:276 | the `%d` numeral of n: one or more digits, with no leading zero unless it is the single digit 0 |
| Grades.DecimalStringValue | main.go:276 | the decimal numeral of n reads back as n |
| Grades.ParseDecimalString | main.go:92 | ParseFloat reads the decimal numeral of n back as n |
| Grades.TrimModifier | main.go:44-45 | the part that is parsed is a prefix of the grade's remainder |
| Grades.TrimModifierCases | main.go:44-45 | after a remainder that does not itself end in a sign, a trailing `+`, `-` or `-+` is removed entirely, while `+-` loses only its `-` |
| Grades.BandKey | main.go:41-62 | a remainder that is not a literal once its modifier is trimmed gets the band's fallback key |
| Grades.GradeKey | main.go:33-98 | an unreadable grade (no `?`, and its parsed part is not a literal) gets 1000000; a `5.` grade whose trimmed remainder is not a literal gets 10000 |
| Grades.UnknownBand | main.go:35-37 | any grade containing `?` has key 10000, whatever its prefix |
| Grades.BandKeyOfLiteral | main.go:41-62 | a literal plus a modifier reads as base + its value, then +0.1, -0.1 or nothing |
| Grades.BoulderLiteralKey | main.go:40-62 | `V<lit>`, `V<lit>+`, `V<lit>-` have keys 100000 + the literal's value plus the modifier's adjustment |
| Grades.RopeLiteralKey | main.go:66-88 | `5.<lit>`, `5.<lit>+`, `5.<lit>-` have keys 20000 + the literal's value plus the modifier's adjustment |
| Grades.PointLiteralKey | main.go:91-97 | a literal that does not start with `5.` keeps its own value, negative or fractional |
| Grades.PointKey | main.go:91-97 | a plain numeral's key is its own value |
| Grades.RopeKey | main.go:66-88 | `5.n`, `5.n+`, `5.n-` have keys 20000 + n plus the modifier's adjustment |
| Grades.BoulderKey | main.go:40-62 | `Vn`, `Vn+`, `Vn-` have keys 100000 + n plus the modifier's adjustment |
| Grades.BoulderOrder | main.go:52-62 | boulder keys grow with n whatever the modifiers; for one n, `Vn-` < `Vn` < `Vn+` |
| Grades.RopeOrder | main.go:78-88 | rope keys grow with n whatever the modifiers; for one n, `5.n-` < `5.n` < `5.n+` |
| Grades.NoDigitIsLast | main.go:33-98 | a grade with neither a digit nor a `?` gets the last key, 1000000, with or without `V` |
| Grades.BandKeyMinusPlus | main.go:42-62 | in either band, a literal followed by `-+` loses both signs and reads as base + value + 0.1 |
| Grades.BandKeyPlusMinus | main.go:42-50 | in either band, a literal followed by `+-` keeps its `+` after trimming and gets the band's fallback key |
| Grades.MinusThenPlusKey | main.go:42-45 | `V<lit>-+` loses both signs and reads as the literal with a plus: 100000 + value + 0.1 |
| Grades.PlusThenMinusKey | main.go:42-50 | `V<lit>+-` keeps its `+` after trimming and fails to parse: key 1000000 |
| Grades.RopeMinusThenPlusKey | main.go:68-88 | `5.<lit>-+` loses both signs and reads as the literal with a plus: 20000 + value + 0.1 |
| Grades.RopePlusThenMinusKey | main.go:68-76 | `5.<lit>+-` keeps its `+` after trimming and fails to parse: key 10000 |
| Grades.BandsOrdered | main.go:31-98 | point below 10000 < `?` grade < rope below 5.80000 < boulder below V899999 < any unreadable grade |
| Grades.BandsOverlap | main.go:31-98 | without those bounds the bands cross: 25000 sorts above 5.9, and 5.90000 above V1 |
| Grades.DoublePlusExample | main.go:44-50 | `V4++` keeps `4+` after trimming and sorts last |
| Grades.TwoDotsExample | main.go:47-50 | `V1.2.3` does not parse and sorts last |
| Grades.RopePlusMinusExample | main.go:70-76 | `5.10+-` keeps `10+` after trimming and falls back to 10000 |
| Grades.RopeInnerSignExample | main.go:73-76 | `5.1-2` does not parse and falls back to 10000 |
| Grades.ParseHalfExample | main.go:92 | `0.5` reads as one half |
| Grades.BoulderFractionExample | main.go:47-62 | `V0.5` has key 100000.5 |
| Grades.RopeLeadingZeroExample | main.go:73-88 | `5.09` has key 20009, the same as `5.9` |
| Grades.NegativePointExample | main.go:92-97 | `-3` has key -3 |
| SendPattern.FirstGradeStart | main.go:181 | the first index at or after a position where a grade can begin, and none before it |
| SendPattern.ColorStart | main.go:181 | the start of the longest run of color characters ending at a position |
| SendPattern.GradeEnd | main.go:181 | the greedy grade end: a grade span, and no longer grade span exists |
| SendPattern.MetaEnd | main.go:181 | the greedy meta end: a meta span, and no longer meta span exists |
| SendPattern.LeftmostFirst | main.go:181 | the match made of the color run before the first grade start, the greedy grade and the greedy meta is preferred to every match |
| SendPattern.NoGradeNoMatch | main.go:181 | a string where no grade can begin has no match |
| SendPattern.Locate | main.go:181 | returns a match preferred to every other match, or none when no match exists |
| SendPattern.GradeSpanToken | main.go:181 | the grade group is a grade token: optional `V`, then at least one grade character |
| SendPattern.Split | main.go:200-206 | gives groups exactly when the string holds a grade character; they are the slices of the preferred match |
| StableSort.InsertionSortPermutes | main.go:221-228 | the sort returns a permutation of its input |
| StableSort.InsertionSortSorted | main.go:221-228 | under a strict weak order, the output is in order |
| StableSort.InsertionSortStable | main.go:221-228 | every class of equivalent elements keeps its original relative order |
| StableSort.StableSortUnique | main.go:221-228 | two sorted sequences that agree on every class of equivalent elements are equal |
| StableSort.StableSortIsInsertionSort | main.go:221-228 | any sorted result that keeps every class of the input in order is the insertion sort of the input |
| StableSort.InsertLast | main.go:221-228 | one step of the in-place sort: `a[..i+1]` becomes the old prefix with `a[i]` inserted, and the rest is unchanged |
| StableSort.InsertionSortInPlace | main.go:221-228 | the array ends up holding the functional insertion sort of its old contents |
| Sends.ParseSend | main.go:200-208 | at most one record; one exactly when the string holds a grade character, carrying the page's date and the pattern's groups |
| Sends.DocSends | main.go:199-209 | at most one record per send string, each carrying the page's date |
| Sends.AllSends | main.go:186-213 | every record is one of the records of some decoded page |
| Sends.DocSendsShape | main.go:199-208 | as many records as send strings with a grade character; each record carries the page date and the groups the pattern captured from one of the page's strings |
| Sends.DocSendsSnoc | main.go:199-209 | one more send string appends its own record, if it has one, after the page's earlier records |
| Sends.DocSendsAppend | main.go:199-209 | splitting a page's send strings anywhere splits its records at the same point, in order |
| Sends.DocSendsAt | main.go:199-209 | every send string with a grade character yields its record, placed right after the records of the graded strings before it |
| Sends.AllSendsSnoc | main.go:186-213 | one more decoded page appends its records after those of the pages walked before it |
| Sends.AllSendsAppend | main.go:186-213 | splitting the walk anywhere between pages splits the records at the same point, in order |
| Sends.AllSendsOne | main.go:191-209 | a single page gives exactly its own records, or none when its frontmatter failed to decode |
| Sends.CollectSends | main.go:183-213 | the walk's loops collect exactly the records of every decoded page, in walk order |
| Sends.CollectDocSends | main.go:199-209 | the inner loop collects exactly one page's records, in order |
| Sends.SendLess | main.go:221-228 | a lower grade key always sorts first, and a higher key never does |
| Sends.SendEquivalent | main.go:221-228 | two sends the sort must keep in order are exactly those with equal key and equal color |
| Sends.SendLessIsStrictWeakOrder | main.go:221-228 | the comparator is a strict weak order, as the sort requires |
| Sends.SortedSends | main.go:220-228 | the sorted sends are a permutation, ordered by key then color, and stable |
| Sends.SortSends | main.go:221-228 | the in-place sort leaves the stable sorted permutation of the old sends |
| FrontmatterScan.ExtractFrontmatterLines | main.go:107-127 | the lines between the first two `---` lines; to the end if only one; none if there is none |
| Report.FirstSeen | main.go:263-271 | first-seen order holds exactly the elements of its input |
| Report.FirstSeenDistinct | main.go:263-271 | first-seen order lists no grade twice |
| Report.FirstSeenOrdered | main.go:263-271 | grades appear in the order of their first occurrence in the sorted sends |
| Report.CountGrades | main.go:262-272 | counts hold exactly the grades present, each with its number of occurrences; gradeOrder is first-seen order |
| Report.CountsSumToTotal | main.go:262-277 | the printed counts add up to the number of sends |
| Report.CountLine | main.go:276 | the line is a field, a space, then the grade; the field is spaces then a numeral with no leading zero that reads back as the count, and is 7 columns wide unless the numeral is longer, when it is exactly the numeral |
| Report.CountLines | main.go:275-277 | one line per grade of the order, each with that grade's number of occurrences |
| Report.CountLinesSnoc | main.go:275-277 | one more grade in the order appends exactly its own count line |
| Report.CountReport | main.go:274-277 | one `%7d %s` line per distinct grade, in first-seen order, with its count |
| Report.MatchingDates | main.go:236-243 | at most one date per send, and never the empty date |
| Report.MatchingDatesSpec | main.go:236-243 | a date is collected exactly when some send has the exact grade and that non-empty date |
| Report.DistinctDates | main.go:232-243 | the collection loop keeps each matching non-empty date once, in first-seen order |
| Report.DateOrderIsStrictWeakOrder | main.go:246-254 | the dates comparator is string order, and that is a strict weak order |
| Report.SortedDistinctIncreasing | main.go:246-254 | sorting distinct dates gives a strictly increasing sequence |
| Report.StrictlyIncreasingUnique | main.go:246-254 | two strictly increasing sequences with the same dates are equal, so any sorting algorithm gives the same output |
| Report.SortDates | main.go:246-254 | the same dates come back, strictly increasing |
| Report.CollectDates | main.go:230-259 | dates mode outputs exactly the distinct non-empty dates of sends with the exact grade, strictly increasing |
| Report.SendLine | main.go:281 | color, grade and meta with no separator: cutting the line at their lengths gives back all three |
| Report.SendLineOfMatch | main.go:200-206 | the list line of a matched send string is the matched part of that string |
| Report.ListLines | main.go:280-282 | one line per send, in sorted order |
| Report.SelectMode | main.go:230-260 | a non-empty dates grade selects dates mode for that grade; otherwise the count flag selects count mode, else list mode |
| Report.Run | main.go:220-283 | after the shared stable sort: a dates grade selects dates mode, else the count flag selects count mode, else list mode; each mode's output as above |

## Left out

- Flag parsing, the usage text, the content-path check and the exit codes (main.go:144-178, 215-218) are process I/O and are not modelled. `Run` takes the count flag and the dates grade as parameters.
- The directory walk and the `index.md` file-name test (main.go:185-197) are file-system I/O. `Run` and `CollectSends` take the decoded pages as a sequence in walk order; a page whose extraction failed is `None` and contributes nothing.
- `os.Open` and the line scanner (main.go:101-113, 129-131) are I/O. `ExtractFrontmatterLines` takes the page's lines as already split. The scanner's trailing-`\r` removal and its line-length limit are not modelled.
- `yaml.Unmarshal` (main.go:133-138) is an external library: the decoded `Frontmatter` is an input. The YAML grammar is not part of this model.
- Printing (main.go:257-259, 275-277, 280-282) is I/O. The model produces the output lines, and `CountLine` writes out the `%7d` padding.
- Grades.GradeKey: computed on exact reals, not float64. Rounding of the ±0.1 adjustment is not modelled, nor ParseFloat's range error, which in the source makes a numeral too large for float64 fall back like a malformed grade.
- Grades.GradeKey: defined only on the grade alphabet (an optional `V`, then digits and `. + ? -`). That is every string the pattern can capture as a grade. ParseFloat's other syntax (exponents, `inf`, `nan`, hexadecimal) cannot occur there and is not modelled.
- SendPattern.Locate: the regular-expression engine is not modelled. The match it reports is specified by the leftmost-first priority order of Go's `regexp`: leftmost start, then the lazy color as short as possible, then the greedy grade and meta as long as possible. This order is stated, not derived from the engine.
- StableSort.InsertionSortInPlace: `sort.SliceStable` uses a different algorithm (insertion-sorted blocks merged in place), which is not modelled. The model sorts by insertion; `StableSortIsInsertionSort` shows that any result that is sorted and keeps every class in order equals it, so the output does not depend on the algorithm.
- Report.DateOrderIsStrictWeakOrder: `time.Parse` is not modelled. That it orders valid `2006-01-02` dates as their strings do is argued from the layout's fixed-width fields, not proved.
- Lex.StrLess: compares characters, while Go compares the UTF-8 bytes of strings. The two orders agree on valid UTF-8; strings with invalid UTF-8 are not modelled.
