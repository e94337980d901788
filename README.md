# Attempt history: score parser and attempt table

A Dafny model of the attempt-history section of the Strata study dashboard
(`src/components/sections/AttemptHistory.jsx`). That section does two things:

- It scores an uploaded CSV of answers. The first line names the columns. Each
  following line counts as one answer when it has a `correct` cell, counts as correct
  when that cell reads `true` in any letter case, and adds its `time_taken` seconds when
  they parse. It is filed under its `topic` cell, or under `General` when the header
  has no `topic` column or the row is too short to reach it. The result has:
  - the counts;
  - the rounded percentage;
  - a time label such as `1m 40s`;
  - the strongest, the weakest and the most time-consuming topic.
- It builds the attempt table:
  - the service's attempts, or seven built-in sample attempts when the service returned
    none;
  - the uploaded attempt in front of them;
  - every row whose id is in the persisted deleted-id list hidden. Deleting an attempt
    adds its id to that list once, and drops the uploaded attempt when the id is its own.

Modules:

- `Text`: the JavaScript string operations the code relies on (`split`, `trim`,
  `toLowerCase`, `indexOf`, `replace` of the first match).
- `Numerals`: decimal numerals and `parseFloat` as whole seconds.
- `Duration`: the time label and its inverse.
- `Aggregation`: the column lookup and the row-by-row fold. `Aggregate` is the loop,
  proved equal to the fold `Run`.
- `TallyFacts`: what the fold keeps true.
  - The fold invariant `Consistent`:
    - the topic order lists each key once;
    - no bucket has more correct answers than answers;
    - the totals are the sums of the buckets.
  - Independent recursive counts.
  - Skipped blank lines and first-seen topic order.
- `Metrics`: `Math.round` of a ratio, the percentage, the per-topic accuracy and average
  time, and the ranking loop `RankTopics`.
- `Pipeline`: `ParseCsvAndScore`, the parser end to end.
- `Reconcile`: the rows, the uploaded row, the deleted-id filter and `handleDelete`.
- `Scenarios`: small files that show particular behaviours of the code.

The model follows the code, and in three places that gives a different result from
what the labels and field names lead one to expect:

- **The time label is `—` whenever the total is not positive.** The code tests
  `totalTimeSeconds > 0`, so a negative total also gets `—`, not only a zero total.
- **A file can have topics but no most time-consuming topic.** A topic whose average
  time is negative never beats the starting bound of -1 (`Scenarios.NegativeTimeHidesSlowest`).
  The strongest and weakest topics do always exist when there is a topic, and so does the
  most time-consuming one when no time is negative (`Metrics.SlowestExists`).
- **An empty topic cell makes a topic named by the empty string.** `General` stands only
  for a missing topic cell: the header has no `topic` column, or the row is too short
  to reach it (`Scenarios.EmptyTopicCell`).

## Model

| member | source | states |
|---|---|---|
| Text.Split | src/components/sections/AttemptHistory.jsx:170 | `split` gives at least one piece, and no piece holds the separator |
| Text.JoinSplit | src/components/sections/AttemptHistory.jsx:170 | joining the pieces of a split with the separator gives back the original text |
| Text.SplitJoin | src/components/sections/AttemptHistory.jsx:184 | splitting a join of separator-free pieces gives back those pieces |
| Text.TrimSpec | src/components/sections/AttemptHistory.jsx:171 | `trim` drops exactly the JavaScript white space and line terminators at both ends, leaving a result that neither starts nor ends with one |
| Text.TrimIdempotent | src/components/sections/AttemptHistory.jsx:184 | trimming a trimmed cell changes nothing |
| Text.BlankIffAllSpace | src/components/sections/AttemptHistory.jsx:182 | a line counts as blank exactly when every character is JavaScript white space |
| Text.LowerFixedPoints | src/components/sections/AttemptHistory.jsx:171 | the modelled lower-casing (ASCII letters and the Kelvin sign only) leaves a text alone exactly when it has no upper-case ASCII letter and no Kelvin sign |
| Text.ToLowerIdempotent | src/components/sections/AttemptHistory.jsx:171 | lower-casing twice is lower-casing once |
| Text.LowerIsTrue | src/components/sections/AttemptHistory.jsx:199 | a correctness cell counts as correct exactly when it spells `true` in any letter case (the Kelvin sign is not a `k`, so it cannot occur) |
| Text.IndexOf | src/components/sections/AttemptHistory.jsx:172-174 | `indexOf` is -1 exactly when the name is absent, and otherwise the first position holding it |
| Text.Find | src/components/sections/AttemptHistory.jsx:322 | the first position where a pattern occurs, or -1 when there is none |
| Text.RemoveFirst | src/components/sections/AttemptHistory.jsx:322 | `replace('.csv', '')` removes the first occurrence and nothing else, and leaves the text alone when there is none |
| Text.FindIs | src/components/sections/AttemptHistory.jsx:322 | a pattern found at a position, and at no earlier one, is found there |
| Numerals.ParseNatToString | src/components/sections/AttemptHistory.jsx:207 | the decimal numeral of a number parses back to that number |
| Numerals.NatToStringInjective | src/components/sections/AttemptHistory.jsx:307 | different numbers have different numerals |
| Numerals.ParseSeconds | src/components/sections/AttemptHistory.jsx:207-208 | the time cell is NaN exactly when no digit follows the optional sign |
| Numerals.ParseSecondsOfNumeral | src/components/sections/AttemptHistory.jsx:207 | a whole numeral, followed by nothing or by text that starts with neither a digit, `.`, `e` nor `E`, parses to its value |
| Numerals.FrontNumber | src/components/sections/AttemptHistory.jsx:207 | the digits at the front of a cell give a number exactly when the cell starts with a digit |
| Numerals.ParseSecondsOfNegative | src/components/sections/AttemptHistory.jsx:207 | a minus sign, a positive numeral and text that starts with neither a digit, `.`, `e` nor `E` parse to the negative number |
| Duration.FormatDurationRoundTrip | src/components/sections/AttemptHistory.jsx:218-230 | a positive total becomes hours, minutes and seconds parts, largest first, with no zero part and minutes and seconds below 60, and those parts read back to the total; a total that is not positive gives `—` |
| Duration.PartsAddUp | src/components/sections/AttemptHistory.jsx:218-229 | the parts are the hour, minute and second parts of the total, and they add up to it |
| Duration.PartsCanonical | src/components/sections/AttemptHistory.jsx:225-229 | the parts are in hour, minute, second order, each with a positive count and no space |
| Duration.Decompose | src/components/sections/AttemptHistory.jsx:218-220 | the floor divisions split a total that is not negative into hours that are not negative, minutes below 60 and seconds below 60 that add back up to it |
| Duration.PartsSum | src/components/sections/AttemptHistory.jsx:225-229 | hour, minute and second parts weigh 3600, 60 and 1 seconds each, and a zero count adds no part |
| Duration.PartsShape | src/components/sections/AttemptHistory.jsx:225-229 | minute and second counts below 60 give parts in hour, minute, second order with no space inside a part |
| Duration.NoTimeIffNotPositive | src/components/sections/AttemptHistory.jsx:223-224 | the label is `—` exactly when the total is not positive |
| Duration.HundredSeconds | src/components/sections/AttemptHistory.jsx:218-229 | 100 seconds is labelled `1m 40s` |
| Aggregation.CellsShape | src/components/sections/AttemptHistory.jsx:184 | a row has at least one cell; every cell is comma-free and already trimmed, so writing the cells back with commas reads back the same cells |
| Aggregation.CellsOfJoin | src/components/sections/AttemptHistory.jsx:184 | a row written from comma-free, already trimmed cells reads back as those cells |
| Aggregation.ResolveColumns | src/components/sections/AttemptHistory.jsx:171-174 | each of `correct`, `time_taken` and `topic` resolves to the first header cell that names it after trimming and lower-casing, or to -1 |
| Aggregation.OpenEffect | src/components/sections/AttemptHistory.jsx:191-193 | opening a topic keeps every record and the counters; a new topic gets a zero record appended to the key order, a known topic changes nothing |
| Aggregation.MarkEffect | src/components/sections/AttemptHistory.jsx:196-203 | an answer adds one to the topic's total and to the overall total, and one correct answer to both when the cell reads `true`; no other record, key or time changes |
| Aggregation.ClockEffect | src/components/sections/AttemptHistory.jsx:206-211 | a parsed time is added to the topic's time and to the running total, a missing one adds nothing; no other record, key or count changes |
| Aggregation.CountRow | src/components/sections/AttemptHistory.jsx:186-212 | one row's update is: open the topic's bucket, then count the answer, then add the time |
| Aggregation.Aggregate | src/components/sections/AttemptHistory.jsx:170-213 | the parse loop returns the columns of the first line and the fold of the lines after it |
| TallyFacts.OpenKeeps | src/components/sections/AttemptHistory.jsx:191-193 | opening a bucket keeps the fold invariant |
| TallyFacts.MarkKeeps | src/components/sections/AttemptHistory.jsx:196-203 | counting an answer keeps the fold invariant |
| TallyFacts.ClockKeeps | src/components/sections/AttemptHistory.jsx:206-212 | adding a time keeps the fold invariant |
| TallyFacts.StepKeeps | src/components/sections/AttemptHistory.jsx:181-213 | one iteration of the loop keeps the fold invariant |
| TallyFacts.RunConsistent | src/components/sections/AttemptHistory.jsx:176-213 | after any lines: topics listed once, each key listed, correct at most total in every bucket and overall, and the overall counts equal to the sum of the buckets |
| TallyFacts.CountsBounded | src/components/sections/AttemptHistory.jsx:196-203 | correct answers never exceed answers, overall and in every topic |
| TallyFacts.StepCounters | src/components/sections/AttemptHistory.jsx:181-213 | one line adds one answer when it has a correctness cell, one correct answer when that cell is `true`, and its parsed time |
| TallyFacts.RunCounts | src/components/sections/AttemptHistory.jsx:176-213 | the total is the number of non-blank lines with a correctness cell, the correct count the number of those that read `true`, and the time the sum of the parsed times |
| TallyFacts.UnparsedTimeAddsNothing | src/components/sections/AttemptHistory.jsx:206-211 | a row whose time is missing or NaN changes neither the total time nor any topic's time |
| TallyFacts.RowAlwaysHasBucket | src/components/sections/AttemptHistory.jsx:186-193 | every non-blank row leaves a bucket for its topic, even when it counts nothing |
| TallyFacts.BlankLineIgnored | src/components/sections/AttemptHistory.jsx:182 | inserting a blank line anywhere changes nothing |
| TallyFacts.FirstSeen | src/components/sections/AttemptHistory.jsx:240 | the first-seen order holds each topic once and no other |
| TallyFacts.RunOrder | src/components/sections/AttemptHistory.jsx:191-193 | the topic order is the order in which topics first occur in non-blank rows |
| TallyFacts.TopicKeys | src/components/sections/AttemptHistory.jsx:186-193 | a topic has a bucket exactly when some non-blank row names it |
| TallyFacts.RunTopicCounts | src/components/sections/AttemptHistory.jsx:186-212 | a topic's record holds the number of its rows with a correctness cell, the number of those reading `true`, and the sum of its times that parse; a topic without a record has no such row |
| Metrics.RoundDiv | src/components/sections/AttemptHistory.jsx:215 | `Math.round` of a ratio: the nearest integer, halves rounded up |
| Metrics.RoundDivUnique | src/components/sections/AttemptHistory.jsx:215 | only one integer meets that rounding bound |
| Metrics.Percent | src/components/sections/AttemptHistory.jsx:215 | the percentage is 0 with no answers, otherwise the rounded share of correct answers; it is at most 100 and exactly 100 when every answer is correct |
| Metrics.AverageTime | src/components/sections/AttemptHistory.jsx:242 | a topic's average time is 0 with no answers, otherwise the rounded time per answer, not negative for a time that is not negative |
| Pipeline.TopicEntries | src/components/sections/AttemptHistory.jsx:240-242 | the topic analysis reads one entry per topic, in the order of first occurrence in the rows, and each entry holds the answers, correct answers and time of that topic's own rows |
| Metrics.FirstMaxUnique | src/components/sections/AttemptHistory.jsx:244-247 | the first topic with the largest value is one topic |
| Metrics.FirstMinUnique | src/components/sections/AttemptHistory.jsx:248-251 | the first topic with the smallest value is one topic |
| Metrics.RaiseTo | src/components/sections/AttemptHistory.jsx:244-247 | a strict `>` update keeps the best pick the first topic with the largest value seen so far above the bound |
| Metrics.LowerTo | src/components/sections/AttemptHistory.jsx:248-251 | a strict `<` update keeps the pick the first topic with the smallest value seen so far below the bound |
| Metrics.RankTopics | src/components/sections/AttemptHistory.jsx:233-256 | the strongest pick is the first topic of largest accuracy, and null only when no accuracy is above -1. The weakest pick is the first topic of smallest accuracy, and null only when none is below 101. The slowest pick is the first topic of largest average time, and null only when none is above -1 |
| Metrics.PicksExist | src/components/sections/AttemptHistory.jsx:236-251 | with at least one topic there is a strongest and a weakest topic, with accuracies in 0..100 and the weakest at most the strongest; with none, both are null |
| Metrics.SlowestExists | src/components/sections/AttemptHistory.jsx:238-255 | when no topic time is negative, the most time-consuming topic exists exactly when there is a topic, with an average of at least 0 |
| Metrics.ThirdsRound | src/components/sections/AttemptHistory.jsx:215 | 1 of 3 rounds to 33 and 2 of 3 to 67 |
| Metrics.HalvesRoundUp | src/components/sections/AttemptHistory.jsx:242 | 2.5 rounds to 3 and -2.5 rounds to -2 |
| Pipeline.Tallied | src/components/sections/AttemptHistory.jsx:169-213 | the fold of a whole file keeps the fold invariant |
| Pipeline.ParseCsvAndScore | src/components/sections/AttemptHistory.jsx:169-269 | the score data: the fold's counts and time, the rounded percentage at most 100 with correct at most total, the formatted label, and the three ranked picks, with strongest and weakest present exactly when there is a topic, and the slowest too when no topic time is negative |
| Reconcile.RemoteRowLabels | src/components/sections/AttemptHistory.jsx:307-308 | a service row always has a name (`||` also replaces an empty test name), but its id is empty exactly when the test name is empty, or is missing with an empty date (`??` replaces only missing fields) |
| Reconcile.RowsShown | src/components/sections/AttemptHistory.jsx:304-315 | the service or built-in rows are never empty, each has a name, and none is marked as the uploaded attempt |
| Reconcile.DeleteUploadedRow | src/components/sections/AttemptHistory.jsx:321-371 | deleting the uploaded row by its own id drops the upload and leaves no row marked new; a file whose id is empty, such as `.csv`, cannot be deleted |
| Reconcile.AllRowsOneNew | src/components/sections/AttemptHistory.jsx:318-339 | only the first row is marked as the uploaded attempt, and it is exactly when there is an upload |
| Reconcile.Visible | src/components/sections/AttemptHistory.jsx:351-354 | the filter never adds rows |
| Reconcile.VisibleMembers | src/components/sections/AttemptHistory.jsx:351-354 | a row is shown exactly when it is in the list and its id is not deleted |
| Reconcile.VisibleConcat | src/components/sections/AttemptHistory.jsx:351-354 | the filter keeps the order of the rows it keeps |
| Reconcile.VisibleTwice | src/components/sections/AttemptHistory.jsx:351-354 | filtering by one list then another is filtering by both |
| Reconcile.VisibleIdempotent | src/components/sections/AttemptHistory.jsx:351-354 | filtering twice by the same list is filtering once |
| Reconcile.VisibleSameIds | src/components/sections/AttemptHistory.jsx:351-354 | only which ids are deleted matters, not their order or repetition |
| Reconcile.VisibleNone | src/components/sections/AttemptHistory.jsx:351-354 | with nothing deleted every row is shown |
| Reconcile.AddDeleted | src/components/sections/AttemptHistory.jsx:361 | the new deleted list holds the id, starts with the old list, and grows by at most one |
| Reconcile.AddDeletedDistinct | src/components/sections/AttemptHistory.jsx:361 | a deleted list without repeats stays without repeats |
| Reconcile.HandleDeleteIdempotent | src/components/sections/AttemptHistory.jsx:356-371 | deleting the same id twice is deleting it once |
| Reconcile.HandleDeleteKeepsEarlier | src/components/sections/AttemptHistory.jsx:356-361 | the old deleted list is kept as a prefix; a new id is appended, an id already there leaves the list as it was |
| Reconcile.DeleteHidesExactlyId | src/components/sections/AttemptHistory.jsx:356-371 | after deleting a non-empty id, the table is the earlier table without every row of that id, other rows kept in order; the uploaded attempt is dropped exactly when the id is its own |
| Reconcile.DeleteEmptyId | src/components/sections/AttemptHistory.jsx:357 | deleting an empty id changes nothing |
| Reconcile.EmptyIdStays | src/components/sections/AttemptHistory.jsx:357 | a row whose id is empty stays on screen whatever is deleted |
| Reconcile.ScreenShape | src/components/sections/AttemptHistory.jsx:318-354 | the table is the uploaded attempt, unless deleted, followed by the remaining service or built-in rows |
| Reconcile.LocalIdOfDoubledExtension | src/components/sections/AttemptHistory.jsx:322 | only the first `.csv` is removed: `a.csv.csv` gives the id `a.csv` |
| Reconcile.LocalIdOfInnerExtension | src/components/sections/AttemptHistory.jsx:322 | the first `.csv` is removed wherever it is: `data.csv.bak` gives the id `data.bak` |
| Reconcile.GeneratedIdsDistinct | src/components/sections/AttemptHistory.jsx:307 | different positions give different generated ids |
| Reconcile.FallbackIdsDistinct | src/components/sections/AttemptHistory.jsx:94-144 | the built-in attempts have distinct ids |
| Reconcile.FallbackWhenNoRows | src/components/sections/AttemptHistory.jsx:305-315 | no query data, a failed query, a missing array and an empty array all give the built-in attempts |
| Scenarios.NegativeTimeHidesSlowest | src/components/sections/AttemptHistory.jsx:238-255 | the file `topic,correct,time_taken` / `A,true,-5` has topic A with a total of -5 seconds, and no most time-consuming topic |
| Scenarios.EmptyTopicCell | src/components/sections/AttemptHistory.jsx:186-193 | the file `topic,correct` / `,true` files its answer under the empty topic |
| Scenarios.NoAnswersNoAverage | src/components/sections/AttemptHistory.jsx:196-215 | the file `topic,time_taken` / `A,30` counts no answer and 30 seconds, a percentage of 0 and an average time of 0 for A |

## Left out

- The rendering (JSX), the details modal, the upload form and its dialog state are not
  modelled; they hold no logic beyond what is above.
- Reading the file is not modelled: the `FileReader`, the `Promise` and
  `handleFileUpload`. `ParseCsvAndScore` takes the file text as its input.
- The `try`/`catch` around the parser is not modelled: on text input nothing inside it
  can throw. Its zeroed result would be the scores 0 of 0 with the label `—` and an
  empty topic analysis.
- Fetching from the history service (`useQuery`, `fetch`) is not modelled: its result
  is the input of `Reconcile.Rows`.
- The persistence of the deleted ids in `localStorage`, and the JSON encoding of those
  ids, are not modelled. `Reconcile.HandleDelete` works on the list in memory.
- The persistence of the uploaded attempt in `localStorage` under `uploadedTestData` is
  not modelled: reading it back when the page loads, with the reset to no upload when
  the stored JSON does not parse, storing it after an upload, and removing it when the
  uploaded row is deleted. `Reconcile.ViewState` holds the upload in memory, and
  `Reconcile.HandleDelete` drops it there.
- Dates are not modelled: `toLocaleDateString` is browser-dependent, so a record carries
  its formatted date as an input (`dateLabel`).
- Reconcile.RemoteRow: service scores and average times are whole numbers in the model.
  `Math.round` of a fractional value and non-finite numbers are not modelled.
  Reconcile.RemoteRowLabels states the labels for exact integers: JavaScript numbers
  are doubles, so a score above 2^53 is already rounded when it arrives, an infinite
  or NaN score prints as `Infinity%` or `NaN%`, and `${Math.round(...)}` prints a value
  of 10^21 or more in exponent form (`1e+21%`), none of which the model produces.
- Numerals.ParseSeconds: reads only whole seconds. It does not model `parseFloat`'s
  fractions, exponents, a leading `.` or `Infinity`, so a time such as `1.5` counts as 1.
  As a consequence the `0s` label, which the code gives to a positive total below one
  second (a single time cell `0.5`), cannot occur in the model: a positive whole total
  always has a non-zero part (`Duration.PartsNonEmpty`). Numbers are exact unbounded
  integers, while `parseFloat` gives a double: a numeral above 2^53 is rounded
  (`9007199254740993` reads as `9007199254740992`), sums of time cells round the same
  way, and a numeral of about 309 digits or more reads as `Infinity`; the model keeps
  every such value exact.
- Duration.FormatDurationRoundTrip: holds of exact integers. With doubles, a total of
  `Infinity` gives the label `Infinityh` (the minutes and seconds become NaN and are
  dropped), a total of NaN (an infinite positive and an infinite negative cell) gives
  `—`, a total above 2^53 loses its low seconds, and hours of 10^21 or more print in
  exponent form (`1e+21h`); the model's label always reads back to its total.
- Metrics.Percent: uses exact rational rounding, not floating-point `(c / t) * 100`.
  The two agree except where floating-point error moves a value across a half.
- Text.LowerFixedPoints, Text.ToLower: lower-cases ASCII letters and the Kelvin sign only, and keeps every
  other character as it is. JavaScript lower-cases further letters, and U+0130 (`İ`)
  even becomes two characters, `i` followed by U+0307 COMBINING DOT ABOVE; the model keeps
  U+0130 as one unchanged character. For the comparisons with `true`, `correct`,
  `time_taken` and `topic` the model is still exact: apart from the letters modelled,
  no character lower-cases to text made only of ASCII letters (the result for U+0130
  keeps its combining dot), and the characters the model leaves alone cannot equal an
  ASCII letter either. Text.LowerFixedPoints states the fixed points of this
  restricted lower-casing; those of `toLowerCase` are fewer (`É`, `Σ` and `Д` change).
- Keys of the topic object are visited in insertion order. Integer-like topic names,
  which JavaScript visits first in numeric order, are not modelled.
- Topic names that are inherited object properties, such as `constructor`, are not
  modelled: the code finds an existing value for them where the model opens a new bucket.
