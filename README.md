# Academy Award nominees by year: the aggregation pass

The page charts, for each Academy Awards ceremony, how many nominees there
were in total and how many fall into each of four ethnic-background groups.
The one piece of logic in it is the pass that runs when the CSV file has been
loaded: it walks the nominee rows once and builds `formattedData`, one
"ceremony" object per year, in the order in which the years first appear.
The first row of a year creates the object. Every later row of that year
finds the object with `find` and bumps its counters in place. The `groups`
constant names the four counters the chart stacks, with a label and a colour
for each.

The Dafny project models that pass at two levels:

- `wrappers.dfy` (module `Wrappers`): the `Option` type.
- `nominees.dfy` (module `Nominees`): the records and the `groups` constant as
  values, and the pass as pure functions. `NewSummary` is the object literal.
  `Bump` is the in-place update. `IndexOfYear` is the lookup. `Step` is one
  call of the `forEach` callback, and `Aggregate` is the whole pass.
- `reference.dfy` (module `Reference`): an independent description of the
  result, built by counting over the whole input. For each distinct year, in
  first-occurrence order, it counts the rows of the year and the rows of each
  code. The main theorem, `AggregateIsReference`, says the row-by-row pass
  builds exactly this table. The per-record facts follow from it.
- `ceremony.dfy` (module `Formatting`): the pass as the page runs it. A
  `Ceremony` class holds the record's properties as mutable fields. `Find`
  is the `find` loop, `FormatRow` is the callback, and `FormatData` is the
  `forEach` loop. Each is proved against the functions of `Nominees`.
- `intended.dfy` (module `Intended`): the corrected pass for the finding below,
  and the scenario that shows the difference.

The code is followed where it departs from what the chart evidently means.
A "black" row of a year already seen increments `nominees_afrodescendant`
(js/main.js:60), which is not the property `nominees_afro_descendant` the
record was created with (js/main.js:45). The chart evidently means such a row
to count as afro-descendant. It also means the four stacked counters to add up
to the year's total. As written, neither holds. `Aggregate` and
`FormatData` model the code as written: the stray property is
`StrayField.Undefined` until the first such increment and `StrayField.NaN`
afterwards (`undefined + 1` is NaN, and so is `NaN + 1`). Module `Intended`
proves what the corrected pass gives. Even corrected, a row whose code is none
of the four recognised ones adds to the total only, because the switch has no
default case. So the counters add up to the total only when every code is
recognised (`Intended.AggregateIntendedCounts`).

## Model

| member | source | states |
|---|---|---|
| `Nominees.NewSummary` | js/main.js:41-48 | The record created for a year's first row has that year and total 1. For a recognised code, that code's counter is 1 and the four counters sum to 1. For any other code all four are 0. The misspelled property does not exist yet. |
| `Nominees.Bump` | js/main.js:54-68 | A later row of the year adds 1 to the total. The codes "", "hispanic" and "asian" each add 1 to their own counter and leave the others alone. "black" leaves `nominees_afro_descendant` unchanged and makes the misspelled property NaN. An unrecognised code changes the total and nothing else. |
| `Nominees.IndexOfYear` | js/main.js:40 | The lookup finds nothing exactly when no record has the year. Otherwise it returns the first position holding that year. |
| `Nominees.Step` | js/main.js:39-69 | For an unseen year, one record, the new one, is appended at the end. For a seen year, the length is kept and exactly one record of that year is replaced by its update. Every record of another year is unchanged, and no record changes its year or position. |
| `Nominees.Aggregate` | js/main.js:36-70 | The table is empty exactly when the input is. It is never longer than the input, and no two records share a year. |
| `Nominees.GroupKeysNameCounters` | js/main.js:14-27 | The four legend keys are distinct, and each names one of the four counters a record is created with. Their values add up to the four-counter sum. The misspelled key is not among them. |
| `Reference.AggregateIsReference` | js/main.js:36-70 | The pass builds exactly one record per distinct year of the input, in first-occurrence order, each holding the counts the reference description gives. |
| `Reference.AggregateCoversYears` | js/main.js:40-49 | Every year of the input has a record. |
| `Reference.AggregateRecordCounts` | js/main.js:43-68 | Each record's year occurs in the input, and its total is the number of rows of that year, hence at least 1. `nominees_caucasian`, `nominees_hispanic` and `nominees_asian` count the year's rows with code "", "hispanic" and "asian". `nominees_afro_descendant` is 1 exactly when the year's first row is "black". The misspelled property is NaN exactly when a later row of the year is "black". |
| `Reference.AggregateCategoryShortfall` | js/main.js:54-68 | A record's total is its four counters, plus its rows with an unrecognised code, plus the "black" rows the misspelled property absorbed. |
| `Reference.AggregateFirstOccurrenceOrder` | js/main.js:49 | Records appear in the order in which their years first occur in the input. |
| `Reference.AggregateExtendYears` | js/main.js:49-53 | Scanning more rows never moves or removes a record: every earlier position keeps its year. |
| `Formatting.Ceremony.constructor` | js/main.js:41-48 | A new ceremony object holds the record `NewSummary` describes. |
| `Formatting.Ceremony.Count` | js/main.js:54-68 | Updating the object in place leaves it holding `Bump` of what it held. |
| `Formatting.Find` | js/main.js:40 | The scan returns null exactly when no ceremony has the year. Otherwise it returns the object at the first position with that year. |
| `Formatting.FormatRow` | js/main.js:39-69 | One callback leaves the list holding `Step` of what it held before. Objects stay distinct, and any object it adds is new. |
| `Formatting.FormatData` | js/main.js:36-70 | After the loop, the list holds exactly `Aggregate` of the rows, in distinct objects created by the pass. |
| `Intended.BumpIntended` | js/main.js:59-61 | Corrected update: every recognised code, "black" included, adds 1 to its own counter and to the four-counter sum. The misspelled property is never touched. |
| `Intended.AggregateIntended` | js/main.js:36-70 | The corrected table is empty exactly when the input is, and is never longer than it. |
| `Intended.AggregateIntendedIsCorrected` | js/main.js:36-70 | The corrected pass builds the as-written table with each `nominees_afro_descendant` replaced by the year's number of "black" rows, and with no misspelled property. |
| `Intended.AggregateIntendedCounts` | js/main.js:54-68 | In the corrected table, the total is the number of rows of the year. Each of the four counters is the number of the year's rows with its code. The total is the four counters plus the rows with an unrecognised code. |
| `Intended.AggregateIntendedSameYears` | js/main.js:40-53 | The correction changes no year and no position. |
| `Intended.ScenarioAsWritten` | js/main.js:59-61 | For rows (y1, ""), (y1, "black"), (y2, "asian"), the code as written gives y1 total 2, `nominees_afro_descendant` 0 and the misspelled property NaN. The four counters of y1 add up to 1. |
| `Intended.ScenarioIntended` | js/main.js:59-61 | For the same rows, the corrected pass gives y1 one afro-descendant nominee, and its four counters add up to its total of 2. |

## Left out

- Loading the CSV file with `d3.csv(...).then` (js/main.js:31) is asynchronous I/O. The parsed rows are the input sequence.
- `Number(d.year)` (js/main.js:39) is taken as already done: a year is an `int`. A year that does not parse becomes NaN, and because `NaN === NaN` is false, every such row would get a record of its own. That case is not modelled.
- The second `find` (js/main.js:52) compares the record's number with the raw year string using `==`. For a year that parses, this coerces the string the same way `Number` does, so it finds the same record. Both lookups are modelled as one lookup on the parsed year.
- `formattedData` is one array that `push` grows in place. In the model it is a sequence value that the callback returns. The ceremony objects in it are still updated in place.
- The value of the misspelled property is kept only as absent or NaN. The arithmetic that produces NaN is not modelled.
- The window-size setup (js/main.js:1-13), all of `createViz` (js/main.js:72-181) and the `console.log` calls are presentation and output. They depend on the browser and on the charting library, and involve floating point. `groups` is modelled as data, and the stacking that reads it is not modelled.

## Findings

| source | as written | input that shows it | evidently intended | confidence | as-written member | corrected member |
|---|---|---|---|---|---|---|
| js/main.js:60 | A later "black" row of a year increments `nominees_afrodescendant`, a property the record was never created with. That property becomes NaN, and `nominees_afro_descendant` keeps the value the first row gave it. | rows (1990, ""), (1990, "black"), (1991, "asian"): 1990 gets total 2 with `nominees_afro_descendant` 0, so its charted counters add up to 1 | Increment `nominees_afro_descendant`, so that it counts the year's "black" rows and the charted counters add up to the total whenever every code is recognised | high; not executed | `Intended.ScenarioAsWritten` | `Intended.AggregateIntendedCounts` |
