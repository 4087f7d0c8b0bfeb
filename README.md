# EDN simulation: attractivity-weighted choices, in Dafny

EDN_simulation simulates the French national ranking examination's
post-exam assignment. Every candidate, ranked `1..N`, lists preference
requests for services. A service is a speciality at a city, and each
request is drawn at random in proportion to the service's attractivity.
This project models the three parts of that pipeline that have exact rules.

- **Choice engine** (`choice_randomizer.dfy`, module `ChoiceRandomizer`).
  - The service score is `3 * speciality + 2 * city * (1 - abilityToIgnoreCity)`.
  - The service table is a class whose three attractivity columns are added in place: the raw scores, their shares of the total, and the running sums of the shares.
  - A draw `u` picks the first row whose running sum reaches it; no such row gives `None`.
  - Each student gets one list of requests, ranked `1..n`.
  - The population is pre-allocated with placeholder lists, and each student's list is overwritten once.
  - The random draws are inputs: one sequence of reals per student.
- **Records** (`assignment.dfy`, module `Assignment`).
  - An assignment request is a value (`AssignmentRequest`).
  - A student is a class with a fixed rank and a request list that is reassigned in place.
  - Their `__str__`/`__repr__` texts are modelled character for character, with parsers that read them back. The one exception is a long request list inside a student's text, where numpy breaks lines and the model keeps spaces (see numpy printing under "Left out").
  - Decimal text of integers, as written by f-strings and read by `int()`, is in `decimal.dfy` (module `Decimal`).
- **Scraper post-processing** (`scraping.dfy`, module `Scraping`), on cell texts already taken out of the HTML page.
  - The places grid is a `citiLength x specLength` array of zeros, filled in row-major order. The model keeps Python's failure order: `int()` first, then the division, then the row lookup, and last the conversion of a too large integer to a float.
  - Speciality ids are the first three characters of each titled header cell. They are deduplicated in first-occurrence order (`np.unique`, then a reorder by first index), and `BMB` becomes `BM`.
  - Cities are deduplicated the same way, then three hospital groups are renamed to their cities.
  - Because both renames come after deduplication, a name can be listed twice. `SpecialityRenameCanRepeat` and `CitiesRenameCanRepeat` show this.

Weights, shares and running sums are `real`. A total score of zero, which
gives NaN in numpy, is excluded by a precondition. Where the documented
intent and the code differ, the code is modelled:
- A draw above every running sum yields `None`; it is not clamped to the last row.
- A request count of zero or less yields an empty list, not an error.
- A failing worker task is dropped silently. That student keeps its placeholder, and the model has no error path there.
- Nothing validates the input table.

`common.dfy` holds `Option`, `Result` and a string splitter used by the parsers.

## Model

| member | source | states |
|---|---|---|
| ChoiceRandomizer.CalculateCoef | choiceRandomizer.py:15-26 | with the weights 3 and 2 of lines 9-10: ignoring the city fully leaves `3 * spec`; not ignoring it at all gives `3 * spec + 2 * city`; nonnegative inputs with ignore at most 1 give a nonnegative score |
| ChoiceRandomizer.CalculateCoefMonotone | choiceRandomizer.py:26 | a better speciality and city never lower the score when ignore is at most 1, and a strictly better speciality strictly raises it |
| ChoiceRandomizer.DataFrame.GenerateAttractivityColumns | choiceRandomizer.py:28-40 | after the loop the raw column holds exactly the score of every row in row order; the share column is each score over their total; the cumsum column is the running sum of the shares; one entry per row in each |
| ChoiceRandomizer.RawColumn | choiceRandomizer.py:34-38 | one score per row; scores of rows with nonnegative attractivities and ignore at most 1 are all nonnegative |
| ChoiceRandomizer.Shares | choiceRandomizer.py:39 | one share per score; with a nonzero total the shares of a nonempty column sum to exactly 1 |
| ChoiceRandomizer.PrefixSums | choiceRandomizer.py:40 | one running sum per entry; the last one is the total |
| ChoiceRandomizer.SumOfScaled | choiceRandomizer.py:39 | dividing every entry by `t` divides the sum by `t` |
| ChoiceRandomizer.SharesInUnitInterval | choiceRandomizer.py:39 | with nonnegative scores and a nonzero total every share lies in [0, 1] |
| ChoiceRandomizer.ElementAtMostSum | choiceRandomizer.py:39 | a nonnegative score is never more than the total |
| ChoiceRandomizer.SumNonNegative | choiceRandomizer.py:39 | nonnegative scores have a nonnegative total |
| ChoiceRandomizer.PrefixSumsStep | choiceRandomizer.py:40 | the running sum at `k` is the one at `k - 1` plus entry `k`, and at 0 it is entry 0 |
| ChoiceRandomizer.SumOfPrefixMonotone | choiceRandomizer.py:40 | over nonnegative entries a longer prefix never sums to less |
| ChoiceRandomizer.PrefixSumsNonDecreasing | choiceRandomizer.py:40 | running sums of nonnegative shares never go down |
| ChoiceRandomizer.Cumsum | choiceRandomizer.py:39-40 | the cumsum column has one entry per row |
| ChoiceRandomizer.CumsumIsDistribution | choiceRandomizer.py:39-40 | for nonnegative weights with a nonzero total, the cumsum column never goes down and ends at exactly 1 |
| ChoiceRandomizer.SelectIndex | choiceRandomizer.py:53-55 | the first-match scan: no index exactly when every running sum is below the draw; otherwise the index reaches the draw and every earlier one is below it |
| ChoiceRandomizer.SelectRequest | choiceRandomizer.py:53-55 | no request exactly when every running sum is below the draw; otherwise the request carries the caller's index and the speciality and city of the first row whose running sum reaches the draw |
| ChoiceRandomizer.GenerateAnAssignmentRequest | choiceRandomizer.py:42-55 | the loop returns the request built from the first row whose running sum reaches the draw, with the caller's index; `None` exactly when no running sum reaches the draw |
| ChoiceRandomizer.SelectFirstRow | choiceRandomizer.py:53-54 | a draw no larger than the first running sum picks row 0 |
| ChoiceRandomizer.SelectMonotone | choiceRandomizer.py:53-54 | a smaller draw picks a row no later than a larger draw does |
| ChoiceRandomizer.SelectIffInInterval | choiceRandomizer.py:53-54 | over non-decreasing running sums, row `k` is picked exactly for draws above the previous running sum and at most its own; a tie goes to the earlier row |
| ChoiceRandomizer.SelectionFollowsAttractivity | choiceRandomizer.py:39-55 | for valid weights every draw of at most 1 picks a row; row `k` is picked on an interval whose width is its raw score over the total |
| ChoiceRandomizer.DrawYieldsRequest | choiceRandomizer.py:52-55 | for valid weights a draw of at most 1 always gives a request, carrying the caller's index and the speciality and city of some row |
| ChoiceRandomizer.GenerateStudentsRequest | choiceRandomizer.py:57-71 | the loop returns request `i + 1` drawn from draw `i`, for `i` below the count, and nothing for a count of zero or less |
| ChoiceRandomizer.StudentRequests | choiceRandomizer.py:67-71 | `max(n, 0)` entries, and every request in position `i` carries the index `i + 1` |
| ChoiceRandomizer.StudentRequestsComplete | choiceRandomizer.py:67-71 | for valid weights and draws in [0, 1] a student's list has `max(n, 0)` entries; entry `i` is a request with index `i + 1` naming a service of the table |
| ChoiceRandomizer.GenerateStudent | choiceRandomizer.py:73-81 | the student's request list is replaced by the drawn list, and its rank is untouched |
| ChoiceRandomizer.GenerateAllStudentRequest | choiceRandomizer.py:83-103 | `max(N, 0)` fresh, distinct students in list order with ranks `1..N`; each student's list is the one drawn from that student's own draws |
| Assignment.RequestStr | assignment.py:16-22 | the `str` text of a request starts with `Assignment request n°`, and when the speciality has no space it reads back to the same index, speciality and city (fields separated by ` : ` and ` at `) |
| Assignment.RequestRepr | assignment.py:24-30 | the `repr` text starts with `assignmentRequest(` and ends with `)` |
| Assignment.RequestReprRoundTrip | assignment.py:24-30 | when the speciality has no comma the `repr` text reads back to the same index, speciality and city (fields separated by `, ` and by a bare `,` before the city) |
| Assignment.ItemRepr | assignment.py:49 | the text numpy prints for one item of a request array is never empty |
| Assignment.ItemReprRoundTrip | assignment.py:49 | a missing request prints as `None` and a request as its `repr`; both read back to the item when the speciality has no comma |
| Assignment.JoinWords | assignment.py:49 | items joined by single spaces: empty exactly for no items; otherwise the text starts with the first item and ends with the last |
| Assignment.JoinItems | assignment.py:49 | the items of a request array joined by spaces: empty exactly for an empty array, starting with the first item's text and ending with the last one's |
| Assignment.RequestListText | assignment.py:49 | the array text is bracketed; the placeholder `np.zeros(1)` prints as `[0.]`, a drawn list as its joined items between the brackets |
| Assignment.Student.constructor | assignment.py:33-41 | rank and request list are stored unchanged |
| Assignment.Student.Str | assignment.py:43-49 | `str(student)` is `Student n°<rank> : <requests>` and reads back to the rank and the request list's text |
| Assignment.Student.Repr | assignment.py:51-57 | `repr(student)` is `Student(<rank>,<requests>)` and reads back to the rank and the request list's text |
| Assignment.StudentStrRoundTrip | assignment.py:49 | the rank and the list text are recovered from the `str` form whatever the list holds |
| Assignment.StudentReprRoundTrip | assignment.py:57 | the rank and the list text are recovered from the `repr` form whatever the list holds |
| Decimal.IntToString | assignment.py:22 | the f-string text of an integer is nonempty, has no space or comma, starts with `-` exactly for a negative number, and is all digits otherwise |
| Decimal.ParseInt | scraping.py:50 | `int()` accepts exactly a nonempty run of digits, optionally after one `+` or `-`; the value is nonnegative without a minus and nonpositive with one |
| Decimal.NatToString | assignment.py:22 | the decimal text of a natural number is nonempty, all digits, and has no leading zero |
| Decimal.ParseIntOfIntToString | assignment.py:22 | `int()` of the text an f-string writes for an integer gives back that integer |
| Scraping.GetPlaces | scraping.py:44-53 | a negative size fails; otherwise the first failing cell's error in Python's evaluation order (`int()`, division, row lookup, float conversion), or a fresh `citiLength x specLength` grid whose every cell holds the value of the text written there in row-major order, and 0 where no text landed |
| Scraping.CellError | scraping.py:50 | a text `int()` rejects fails as an invalid literal; any error names the cell; an overflow is raised only for an integer outside float range |
| Scraping.CellErrorNoneIff | scraping.py:50 | a cell is written without error exactly when its text is an integer within float range, the row width is positive and its position is inside the grid |
| Scraping.FirstFillError | scraping.py:49-51 | an error from the cells after a point names one of those cells |
| Scraping.FirstFillErrorIsFirst | scraping.py:49-51 | that error is the named cell's own error, and every cell before it is written without error |
| Scraping.FirstFillErrorNoneIff | scraping.py:49-51 | the fill from a cell on raises nothing exactly when no later cell raises anything |
| Scraping.PlacesOutcome | scraping.py:44-51 | the grid cannot be allocated exactly when a size is negative |
| Scraping.PlacesOutcomeIsFirstFailure | scraping.py:44-51 | any other error comes from the first cell that cannot be written, and every earlier cell is written |
| Scraping.GridValueRowMajor | scraping.py:45-51 | after the fill, cell `(row, col)` holds the value of text `row * specLength + col` when there is one, and 0 otherwise |
| Scraping.FillSucceedsIff | scraping.py:45-51 | the fill succeeds exactly when both sizes are nonnegative, every text is an integer within float range and there are at most `specLength * citiLength` texts |
| Scraping.FillStep | scraping.py:50-51 | writing text `i` sets cell `(i / specLength, i % specLength)` to its value and leaves every other cell as it was |
| Scraping.RowMajorPosition | scraping.py:50 | position `row * specLength + col` is cell `(i / specLength, i % specLength)` and no other |
| Scraping.RowOfCellBound | scraping.py:50 | the row `i / specLength` is inside the grid exactly when `i < specLength * citiLength` |
| Scraping.EveryTextLandsInItsCell | scraping.py:48-51 | after a successful fill text `k` sits in row `k / specLength`, column `k % specLength`, inside the grid |
| Scraping.Dedup | scraping.py:24-28 | no longer than its input, the same members, no repeats, and kept values in order of first occurrence |
| Scraping.FirstIndex | scraping.py:24 | the index `np.unique` reports: where the value occurs first |
| Scraping.Prefix3 | scraping.py:16 | the id is the first three characters of the title text, or all of a shorter one |
| Scraping.TitleIds | scraping.py:12-17 | at most one id per cell, each at most three characters long |
| Scraping.TitleDescriptions | scraping.py:19-22 | at most one description per cell, each the description of a titled cell that has one |
| Scraping.TitleDescriptionsMembers | scraping.py:12-22 | a description is collected exactly when some titled cell's link holds it: every titled cell with a description contributes it, and nothing else is listed |
| Scraping.SpecialityDescriptionsFromTitledCells | scraping.py:12-28 | the returned descriptions are exactly the descriptions of the titled cells that have one, each listed once |
| Scraping.RenameSpeciality | scraping.py:25 | only `BMB` is changed, into `BM`, and `BMB` never comes out |
| Scraping.RenameCity | scraping.py:38-40 | exactly `Ap-Hp`, `Hcl` and `Ap-Hm` are changed, into `Paris`, `Lyon` and `Marseille`, and none of the three names comes out |
| Scraping.TitleIdsMembers | scraping.py:12-17 | an id is collected exactly when it is the first three characters (or the whole of a shorter text) of some titled cell's text; untitled cells contribute nothing |
| Scraping.SpecialityIds | scraping.py:24-28 | one id for each distinct collected id |
| Scraping.SpecialityIdsFromTitledCells | scraping.py:12-28 | every titled cell's renamed id is listed, every listed id is the renamed id of a titled cell, and before renaming no id repeats |
| Scraping.SpecialityRenameCanRepeat | scraping.py:24-28 | a page with both `BMB` and `BM` yields `BM` twice |
| Scraping.GetSpecialities | scraping.py:8-28 | the loop collects the titled cells' ids and descriptions; ids are deduplicated then renamed, and descriptions are deduplicated |
| Scraping.CityList | scraping.py:36-42 | one city for each distinct cell text |
| Scraping.CityListFromCells | scraping.py:30-42 | every cell's renamed text is listed, and every listed city is the renamed text of some cell |
| Scraping.CitiesDistinctWithoutAliasClash | scraping.py:36-42 | when no two different texts rename to the same city, no city is listed twice |
| Scraping.CitiesRenameCanRepeat | scraping.py:36-42 | `Ap-Hp` next to `Paris` gives `Paris` twice |
| Scraping.GetCities | scraping.py:30-42 | the loop collects the cell texts in page order; the result is their deduplicated, renamed list, no longer than the input |

## Left out

- Random draws: `random.random()` and `random.seed()` are replaced by draws passed in as reals, one sequence per student. Nothing is claimed about how often a service is drawn.
- Thread pool: the `ThreadPoolExecutor` fan-out is a sequential loop over the pre-allocated students. Concurrency and the silently dropped task exceptions are not modelled.
- Floating point: scores, shares and running sums are exact reals. Rounding is not modelled, so a last running sum slightly below 1, and the resulting `None` for draws above it, are not captured.
- ChoiceRandomizer.DataFrame.GenerateAttractivityColumns: requires a nonzero total score (or an empty table). numpy would produce NaN or infinite shares there, which the model does not represent.
- pandas and numpy mechanics: the data frame is a sequence of row records, and pandas label lookup is taken as position. The cross merge that builds the table yields a 0-based range index, so these agree. Column assignment, `iterrows`, `np.array`, `np.unique` sorting and `argsort` are replaced by their results.
- numpy printing: a request list's text is the items' `repr` texts joined by spaces inside brackets. numpy's line wrapping of long arrays and its elision of very long ones are not modelled.
- Assignment.RequestStr: the round trip is stated only for specialities without a space, because with a space the text is ambiguous.
- Assignment.RequestReprRoundTrip: the round trip is stated only for specialities without a comma, for the same reason.
- `int()` parsing: only an optional sign followed by ASCII digits is accepted. Python also accepts surrounding spaces, `_` separators and non-ASCII digits; these are not modelled.
- Grid values are stored as exact reals of the parsed integers. Float precision for very large integers is not modelled; only the overflow of an integer too large for a float is.
- Scraping.GetPlaces: the `ValueError` that recent interpreters raise (Python 3.11 and later, and the security releases 3.10.7, 3.9.14, 3.8.14 and 3.7.14) for `int()` of a text longer than 4300 digits is not modelled, because that limit depends on the interpreter version and its configuration; such a text is read in full here.
- Scraping.CellErrorNoneIff: the same 4300-digit limit of `int()` is not part of the condition.
- Scraping.FillSucceedsIff: the same 4300-digit limit of `int()` is not part of the condition.
- HTML extraction: `find_all`, `get_text`, `str.title()` and the encoding-fix `.replace` calls are replaced by the extracted texts, passed as inputs. A header cell's text is the link's whole stripped text.
- `getCities` reads the module-level `table` rather than its parameter (scraping.py:32). The model takes the city cell texts as its argument.
- The `__main__` blocks are not modelled: JSON loading, column renames, the cross merge, timing and printing, the HTTP fetch, the DataFrame of places and `to_pickle`.
