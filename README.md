# Budget tracker back end: recurring-expense materializer

This project is a Dafny model of the core of a small budget-tracker back end
(an Express server over MongoDB through Mongoose), with proofs about it.

The centre of the core is the **recurring-expense materializer** in
`routes/predefinedExpenseRoutes.js`. It turns recurring templates into dated
expenses:

- **`POST /apply/:month`** works on one `YYYY-MM` month. For each selected
  template it derives a date in that month and then:
  - skips the template when an equal expense is already dated anywhere in that month;
  - otherwise saves a new expense.

  A failure on one template is recorded and the loop goes on.
- **`POST /apply/all`** first walks the calendar months from `startMonth` to
  an end month, capped at 25. It then runs the same loop for every month and
  keeps per-month and total counts. Here a duplicate is an expense on the
  exact derived date.

The model also covers:

- the three schemas (`models/Expense.js`, `models/PredefinedExpense.js`,
  `models/Salary.js`), as validity predicates and admission functions that
  fill in the defaults and apply the `trim` setters;
- the expense routes (listing with a month prefix filter, newest first, and
  create/read/update/delete by id);
- the salary routes (a table of one amount per month: list, read with a
  default of 0, upsert, update-if-present, delete).

## Layout

Each module follows one source file, and a few small modules hold the language pieces the handlers use.

- **Pure code** (schemas, listings, lookups) becomes functions with named results, plus lemmas.
- **Code that changes a store** becomes a class with `modifies` clauses:
  - `ExpenseRoutes.ExpenseCollection` has a `rows` sequence and a `nextId` counter;
  - `SalaryRoutes.SalaryTable` is a map from month to amount.
- **Each loop of the materializer** becomes a method with a `while` loop in
  `PredefinedExpenseHandlers`:
  - the month walk;
  - the loop over templates;
  - the loop over months.

  Each method is proved equal to a specification function in
  `PredefinedExpenseRoutes` (`Run`, `RunRange`, `MonthStrings`,
  `ApplyMonthSpec`, `ApplyAllSpec`). The properties the source promises are
  proved about those functions.

Modelling choices:

- **The database** is in memory:
  - the expense collection is a `Ledger`, its rows in insertion order and the next id;
  - `findOne` is an existence predicate;
  - `$regex: '^' + month` is a prefix test.
- **`createdAt`** is a creation counter, equal to the id the collection hands out.
- **Store failures** are a parameter `faults`: the positions of the templates (in `apply/all`, the month and template positions) whose store call throws. The handler catches these.
- **Validation.** Saving validates, so a candidate that fails the Expense schema is also caught and recorded.
- **The clock** is a parameter `now`: the UTC calendar month it falls in, and the milliseconds elapsed since that month's first instant.
- **The `type` field** is called `kind`, because `type` is a Dafny keyword.

Behaviours of the code that the model keeps, even where a comment or a first reading suggests otherwise:

- **Month cap.** The month list of `apply/all` can hold 25 months. The comment at `routes/predefinedExpenseRoutes.js:108` says "Max 24 months", but the check `months.length > 24` runs after the push (lines 102-108).
- **Errors in `apply/all`.** A store error counts as neither created nor skipped. It is only appended to `errors` (lines 153-159).
- **The current month.** `apply/all` refuses the current month as well as past ones (line 90). The first instant of the current month already lies before `now`, except at its very first millisecond.
- **Month validation.** `apply/:month` checks only the shape of the month (line 176), so `2025-13` is accepted.

## Model

| member | source | states |
|---|---|---|
| PredefinedExpenseHandlers.WalkMonths | routes/predefinedExpenseRoutes.js:94-109 | The `while (current <= maxEndDate)` loop, which pushes the formatted month and then steps with `setMonth`, produces exactly `MonthStrings(start, SpanLength(start, last))`. That is the consecutive months from start to the end month inclusive, cut off after 25. |
| PredefinedExpenseHandlers.WalkStopsAtSpan | routes/predefinedExpenseRoutes.js:100-108 | A walk that has passed the end month, or has pushed more than 24 months, has listed the whole span. |
| PredefinedExpenseHandlers.MaterializeOne | routes/predefinedExpenseRoutes.js:196-235 | The `try` block for one template against the live collection returns the outcome of `Step` and leaves the collection in the state `Step` gives. |
| PredefinedExpenseHandlers.ApplyMonth | routes/predefinedExpenseRoutes.js:172-246 | The handler returns the response of `ApplyMonthSpec` and leaves the collection in its final state. A valid collection stays valid. |
| PredefinedExpenseHandlers.CreateForMonth | routes/predefinedExpenseRoutes.js:193-236 | The loop over the selected templates yields the created expenses and the refusals of `Run` with the month-prefix check, each in template order, and the collection it leaves. |
| PredefinedExpenseHandlers.ApplyToMonth | routes/predefinedExpenseRoutes.js:118-162 | The inner loop of `apply/all` counts `created` and `skipped` and collects the errors as `Tally`/`FailuresOf` of `Run` with the exact-date check, and leaves the collection `Run` gives. |
| PredefinedExpenseHandlers.ApplyToMonths | routes/predefinedExpenseRoutes.js:111-163 | The outer loop yields the tallies, errors and collection of `RunRange`. `totalCreated` is the sum of the per-month `created` counts. |
| PredefinedExpenseHandlers.ApplyAll | routes/predefinedExpenseRoutes.js:67-169 | The handler returns the response of `ApplyAllSpec` and leaves the collection in its final state. A valid collection stays valid. |
| PredefinedExpenseRoutes.Select | routes/predefinedExpenseRoutes.js:73-80 | A template is selected iff:<br>• it is stored;<br>• it is active;<br>• when an id array is given, its id is in that array.<br>At most every stored template is selected. |
| PredefinedExpenseRoutes.SelectAppend | routes/predefinedExpenseRoutes.js:182-191 | Selection keeps store order: selecting from a concatenation concatenates the selections. |
| PredefinedExpenseRoutes.EmptyIdListSelectsNothing | routes/predefinedExpenseRoutes.js:182-187 | An empty id array is truthy and an array, so it selects no template. |
| PredefinedExpenseRoutes.DayOf | routes/predefinedExpenseRoutes.js:127 | `predefined.dayOfMonth \|\| 1`: a day of 0 falls back to 1 (definition; also used at line 216). |
| PredefinedExpenseRoutes.DerivedDate | routes/predefinedExpenseRoutes.js:128 | `${month}-${String(day).padStart(2, '0')}` (definition; also used at line 217). |
| PredefinedExpenseRoutes.DerivedDateParts | routes/predefinedExpenseRoutes.js:216-217 | The derived date is the month, a dash and the padded day. So it starts with the month. |
| PredefinedExpenseRoutes.DerivedDateShape | routes/predefinedExpenseRoutes.js:127-128 | For a shape-valid month and a day in 1..31, the derived date matches `^\d{4}-\d{2}-\d{2}$`, and its last two digits spell the day. |
| PredefinedExpenseRoutes.NoCalendarCheck | routes/predefinedExpenseRoutes.js:216-217 | Day 31 in `2025-02` gives `2025-02-31`, which has the date shape. No calendar check is made. |
| PredefinedExpenseRoutes.NegativeDayBreaksShape | routes/predefinedExpenseRoutes.js:216-217 | A negative day is printed with its sign, so the derived date fails the expense date shape. |
| PredefinedExpenseRoutes.Matches | routes/predefinedExpenseRoutes.js:130-136 | The duplicate test against one row: equal title, amount, category and type, and the exact derived date (`apply/all`) or a date beginning with the month (`apply/:month`, lines 199-205). Definition. |
| PredefinedExpenseRoutes.Exists | routes/predefinedExpenseRoutes.js:130-136 | `findOne` finds a match among the rows (definition; also lines 199-205). |
| PredefinedExpenseRoutes.Candidate | routes/predefinedExpenseRoutes.js:139-145 | The body of the new Expense: the template's title, amount, category and type with the derived date (definition; also lines 219-225). |
| PredefinedExpenseRoutes.SameDateImpliesSameMonth | routes/predefinedExpenseRoutes.js:130-136 | Whatever the exact-date check of `apply/all` finds, the month-prefix check of `apply/:month` also finds. |
| PredefinedExpenseRoutes.ChecksDiffer | routes/predefinedExpenseRoutes.js:199-205 | The converse fails. An equal expense on the 1st blocks `apply/:month` for a template due on the 5th, but not `apply/all`. |
| PredefinedExpenseRoutes.Step | routes/predefinedExpenseRoutes.js:196-235 | A created expense is appended under the next id, with the next creation stamp. Any other outcome leaves the collection unchanged. |
| PredefinedExpenseRoutes.StepCases | routes/predefinedExpenseRoutes.js:199-229 | A store failure is recorded as such. Otherwise:<br>• a template with a match is skipped;<br>• one without a match yields exactly one new expense iff its candidate passes validation, holding the validated candidate;<br>• else it fails validation. |
| PredefinedExpenseRoutes.StepKeepsValid | routes/predefinedExpenseRoutes.js:219-227 | One template keeps the collection valid: every row satisfies the schema, and the ids are distinct and below the next id. |
| PredefinedExpenseRoutes.CandidateAdmitted | routes/predefinedExpenseRoutes.js:219-225 | The Expense built from a valid template in a shape-valid month passes every Expense constraint. It is stored with the template's title, amount, category and type and the derived date. |
| PredefinedExpenseRoutes.MadeMatches | routes/predefinedExpenseRoutes.js:199-205 | An expense created from a template with a trimmed title matches that template under either check. |
| PredefinedExpenseRoutes.StepNotFailed | routes/predefinedExpenseRoutes.js:215-229 | Without a store failure, a valid template in a shape-valid month is made or skipped, never failed. |
| PredefinedExpenseRoutes.Run | routes/predefinedExpenseRoutes.js:196-236 | The loop yields one outcome per template. The collection afterwards is the old rows followed by exactly the created expenses, in order, with the id counter advanced by their number. |
| PredefinedExpenseRoutes.RunAt | routes/predefinedExpenseRoutes.js:196-236 | Outcome `i` is what template `i` does to the collection that the earlier templates left. |
| PredefinedExpenseRoutes.RunPrefixStep | routes/predefinedExpenseRoutes.js:196-236 | The loop over the first `i + 1` templates is the loop over the first `i`, followed by one step. |
| PredefinedExpenseRoutes.RunKeepsValid | routes/predefinedExpenseRoutes.js:196-236 | The loop keeps the collection valid. |
| PredefinedExpenseRoutes.RunNoFailures | routes/predefinedExpenseRoutes.js:196-236 | With valid templates, a shape-valid month and no store failure, no template fails. |
| PredefinedExpenseRoutes.StepCovers | routes/predefinedExpenseRoutes.js:199-229 | After a template is applied without a store failure, it is covered: a match exists, or its candidate can never pass validation. |
| PredefinedExpenseRoutes.CoveredGrows | routes/predefinedExpenseRoutes.js:199-205 | A covered template stays covered when rows are added. |
| PredefinedExpenseRoutes.RunCovers | routes/predefinedExpenseRoutes.js:196-236 | After a loop without store failures, every template of the loop is covered. |
| PredefinedExpenseRoutes.RunOnCovered | routes/predefinedExpenseRoutes.js:196-236 | A loop over covered templates creates nothing and leaves the collection as it was, whatever fails. |
| PredefinedExpenseRoutes.RefusalsOf | routes/predefinedExpenseRoutes.js:207-234 | The number of refusals plus the number of created expenses equals the number of templates. A duplicate is refused as "already exists", and a failure with its reason. |
| PredefinedExpenseRoutes.ApplyMonthSpec | routes/predefinedExpenseRoutes.js:172-246 | A month that is not `\d{4}-\d{2}` is refused with 400 and the collection is unchanged. Otherwise the response is a success:<br>• `created` plus `errors` number the selected templates;<br>• the collection gains exactly the created expenses. |
| PredefinedExpenseRoutes.ApplyMonthKeepsValid | routes/predefinedExpenseRoutes.js:196-236 | Applying a month keeps the expense collection valid. |
| PredefinedExpenseRoutes.ApplyMonthIdempotent | routes/predefinedExpenseRoutes.js:199-213 | After a first call without store failures, a second identical call creates nothing and leaves the collection unchanged, whatever fails in it. |
| PredefinedExpenseRoutes.ApplyMonthOnlyDuplicatesRefused | routes/predefinedExpenseRoutes.js:207-234 | With valid templates and no store failure, every entry of `errors` is an "already exists" refusal. |
| PredefinedExpenseRoutes.OnlySkipsRefused | routes/predefinedExpenseRoutes.js:207-213 | When no outcome is a failure, every refusal is a duplicate. |
| PredefinedExpenseRoutes.FailuresOfTagged | routes/predefinedExpenseRoutes.js:148-159 | The errors pushed for a month carry that month. Created plus skipped plus errors equals the number of templates. |
| PredefinedExpenseRoutes.FaultsAt | routes/predefinedExpenseRoutes.js:153-159 | A template fails in month `k` exactly when its position is paired with `k` among the faults. |
| PredefinedExpenseRoutes.SkipCount | routes/predefinedExpenseRoutes.js:150-152 | The number of templates counted as `skipped` (definition). |
| PredefinedExpenseRoutes.FailuresOf | routes/predefinedExpenseRoutes.js:153-159 | The `{ month, predefinedExpense, message }` records pushed for the failures of one month, in template order (definition). |
| PredefinedExpenseRoutes.Tally | routes/predefinedExpenseRoutes.js:119-123 | The `monthResults` entry: the month, its `created` count and its `skipped` count (definition; the counters are advanced at lines 148 and 151). |
| PredefinedExpenseRoutes.SumCreated | routes/predefinedExpenseRoutes.js:149 | `results.totalCreated`, the sum of the per-month `created` counts (definition). |
| PredefinedExpenseRoutes.ErrorsForAppend | routes/predefinedExpenseRoutes.js:154-158 | The errors counted for a month add up over a concatenation. |
| PredefinedExpenseRoutes.ErrorsForCount | routes/predefinedExpenseRoutes.js:154-158 | The count for a month is the full length when every error carries that month, and 0 when none does. |
| PredefinedExpenseRoutes.RunRange | routes/predefinedExpenseRoutes.js:118-163 | There is one tally per month, and `totalCreated` equals the number of rows added. The old rows stay a prefix of the collection, and the id counter advances by `totalCreated`. |
| PredefinedExpenseRoutes.RunRangeSnoc | routes/predefinedExpenseRoutes.js:118-163 | One more month continues from the collection that the earlier months left. It appends its tally and its errors. |
| PredefinedExpenseRoutes.RunRangeMonths | routes/predefinedExpenseRoutes.js:118-162 | Tally `k` of `monthsProcessed` is for month `k`: month order is kept. |
| PredefinedExpenseRoutes.RunRangeErrorMonths | routes/predefinedExpenseRoutes.js:153-158 | Every error is tagged with a month of the range. |
| PredefinedExpenseRoutes.RunRangeKeepsValid | routes/predefinedExpenseRoutes.js:118-163 | The range run keeps the collection valid. |
| PredefinedExpenseRoutes.RangeCountsAddUp | routes/predefinedExpenseRoutes.js:118-163 | For distinct months, each month's `created`, `skipped` and the errors tagged with it together number the selected templates. |
| PredefinedExpenseRoutes.CountsAddUpStep | routes/predefinedExpenseRoutes.js:118-163 | The induction step of the count: when the months before the last add up and the last month is new, month `k` adds up too. |
| PredefinedExpenseRoutes.RunRangeCovers | routes/predefinedExpenseRoutes.js:125-152 | After a range run without store failures, every selected template is covered in every month of the range. |
| PredefinedExpenseRoutes.RangeCoveredGrows | routes/predefinedExpenseRoutes.js:130-136 | Coverage in every month survives added rows. |
| PredefinedExpenseRoutes.RunRangeOnCovered | routes/predefinedExpenseRoutes.js:125-152 | A range run over templates covered in every month creates nothing and changes nothing. |
| PredefinedExpenseRoutes.MonthStrings | routes/predefinedExpenseRoutes.js:100-105 | Formats the `n` months from `start` on: a list of length `n`. |
| PredefinedExpenseRoutes.MonthStringsAt | routes/predefinedExpenseRoutes.js:100-105 | Entry `k` is the formatted month `k` steps after the start. |
| PredefinedExpenseRoutes.MonthStringsStep | routes/predefinedExpenseRoutes.js:105 | Entry `k + 1` is the formatted successor of month `k`. |
| PredefinedExpenseRoutes.MonthStringsConsecutive | routes/predefinedExpenseRoutes.js:100-105 | Each entry is the formatted successor of the one before it. |
| PredefinedExpenseRoutes.MonthStringsDistinct | routes/predefinedExpenseRoutes.js:100-105 | No two entries are equal. |
| PredefinedExpenseRoutes.PlannedMonths | routes/predefinedExpenseRoutes.js:94-109 | The `months` list never holds more than 25 entries. |
| PredefinedExpenseRoutes.PlannedMonthsStart | routes/predefinedExpenseRoutes.js:94-102 | For a real start month with a four-digit year, a non-empty list begins with `startMonth` itself. |
| PredefinedExpenseRoutes.PlannedMonthsConsecutive | routes/predefinedExpenseRoutes.js:100-105 | Each month is followed by its calendar successor, December by January of the next year, and no month is repeated. |
| PredefinedExpenseRoutes.RangeEnd | routes/predefinedExpenseRoutes.js:88-98 | The end of the walk: `endMonth`, or by default the current month two years ahead (definition). |
| PredefinedExpenseRoutes.PlannedMonthsAreSpan | routes/predefinedExpenseRoutes.js:94-109 | The `months` list is the formatted `MonthSpan` from the start month to the end of the range, entry by entry. |
| PredefinedExpenseRoutes.PlannedMonthsReachEnd | routes/predefinedExpenseRoutes.js:94-109 | An end of range at most 24 months after a real start month is the last month listed, whether `endMonth` names it or it is the default: the end is inclusive. |
| PredefinedExpenseRoutes.DefaultRangeReachesEnd | routes/predefinedExpenseRoutes.js:86-109 | Without `endMonth`, a start month the guard at line 90 accepts, up to the default end, yields months that run all the way to the current month two years ahead: the cap is never reached. |
| PredefinedExpenseRoutes.MonthShapeDeterminedByParse | routes/predefinedExpenseRoutes.js:82 | Two shape-valid month strings that spell the same year and month are equal. |
| PredefinedExpenseRoutes.DigitsInjective | routes/predefinedExpenseRoutes.js:82 | Two digit strings of the same length that denote the same number are equal. |
| PredefinedExpenseRoutes.ApplyAllSpec | routes/predefinedExpenseRoutes.js:67-169 | 400, with the collection unchanged, exactly when:<br>• `startMonth` is missing or not `\d{4}-\d{2}`; or<br>• a real start month begins before `now`.<br>Otherwise:<br>• `totalMonths` and the length of `monthsProcessed` equal the number of planned months;<br>• `totalCreated` is the sum of the per-month `created` counts;<br>• the collection gains exactly `totalCreated` rows after the old ones. |
| PredefinedExpenseRoutes.ApplyAllReportsPlannedMonths | routes/predefinedExpenseRoutes.js:111-163 | `monthsProcessed` lists the planned months in order, and every error is tagged with one of them. |
| PredefinedExpenseRoutes.ApplyAllKeepsValid | routes/predefinedExpenseRoutes.js:118-163 | `apply/all` keeps the expense collection valid. |
| PredefinedExpenseRoutes.ApplyAllCountsAddUp | routes/predefinedExpenseRoutes.js:118-163 | For every processed month, `created + skipped` plus the errors recorded for that month equals the number of selected templates. |
| PredefinedExpenseRoutes.CurrentMonthRefused | routes/predefinedExpenseRoutes.js:86-92 | Past the first millisecond of the current month, a `startMonth` naming the current month is refused with 400. |
| PredefinedExpenseRoutes.ApplyAllIdempotent | routes/predefinedExpenseRoutes.js:125-152 | After a range run without store failures, a second identical request creates nothing and leaves the collection as it was. |
| Calendar.FromIndex | routes/predefinedExpenseRoutes.js:105 | A month index names a real month with that index. |
| Calendar.MonthShape | routes/predefinedExpenseRoutes.js:82 | The test `/^\d{4}-\d{2}$/` (definition; also line 176 and `models/Salary.js:9`). |
| Calendar.DateShape | models/Expense.js:38 | The test `/^\d{4}-\d{2}-\d{2}$/` (definition). |
| Calendar.FirstInstantBefore | routes/predefinedExpenseRoutes.js:90 | `start < currentDate` for the first instant of the month (definition). |
| Calendar.ParseYearMonth | routes/predefinedExpenseRoutes.js:87-88 | `new Date(startMonth + '-01')` read as the year and month numbers the string spells (definition). |
| Calendar.SpanLength | routes/predefinedExpenseRoutes.js:100-108 | The number of months the walk pushes: none when the end precedes the start, otherwise up to the end inclusive but at most 25, the check running after the push (definition). |
| Calendar.MonthString | routes/predefinedExpenseRoutes.js:101 | `${getFullYear()}-${String(getMonth() + 1).padStart(2, '0')}` (definition). |
| Calendar.FromIndexOfIndex | routes/predefinedExpenseRoutes.js:105 | A real month is recovered from its index. |
| Calendar.Next | routes/predefinedExpenseRoutes.js:105 | `setMonth(getMonth() + 1)` gives a real month whose index is one more: December rolls over to January. |
| Calendar.MonthAfter | routes/predefinedExpenseRoutes.js:105 | The month `k` steps after `start` is real and lies `k` indices later. |
| Calendar.IndexInjective | routes/predefinedExpenseRoutes.js:105 | Real months with equal indices are equal. |
| Calendar.MonthAfterNext | routes/predefinedExpenseRoutes.js:105 | One step further is the calendar successor. |
| Calendar.MonthStringRoundTrip | routes/predefinedExpenseRoutes.js:101 | For a four-digit year, the formatted month is `YYYY-MM`-shaped and parses back to the same month. |
| Calendar.MonthStringInjective | routes/predefinedExpenseRoutes.js:101 | Different real months are formatted differently. |
| Calendar.CurrentMonthHasBegun | routes/predefinedExpenseRoutes.js:90 | The current month's first instant is before `now` iff `now` is past that instant. |
| Calendar.LaterMonthsNotBefore | routes/predefinedExpenseRoutes.js:90 | Later months are never before `now`, and earlier months always are. |
| Calendar.MonthSpan | routes/predefinedExpenseRoutes.js:94-109 | The months of the walk as (year, month) pairs: the span length, entry `k` being `k` steps after the start. |
| Calendar.MonthSpanSteps | routes/predefinedExpenseRoutes.js:94-109 | The span begins at the start, steps one calendar month at a time, and has at most 25 months. |
| Calendar.MonthSpanOrdered | routes/predefinedExpenseRoutes.js:100 | All months lie between the bounds, in strictly increasing order. |
| Calendar.MonthSpanBounds | routes/predefinedExpenseRoutes.js:100-108 | The span is empty iff the end precedes the start. It ends at the end month when that is at most 24 months away, and has 25 months otherwise. |
| Text.NatToString | routes/predefinedExpenseRoutes.js:128 | `String(n)` is a non-empty digit string with no leading zero that denotes `n`. |
| Text.NatToStringWidth | routes/predefinedExpenseRoutes.js:101 | One digit below 10, two below 100, four from 1000 to 9999. |
| Text.NatToStringInjective | routes/predefinedExpenseRoutes.js:101 | Different numbers have different numerals. |
| Text.IntToString | routes/predefinedExpenseRoutes.js:217 | `String(i)` begins with `-` iff `i` is negative. Otherwise it is the numeral of `i`. |
| Text.IntToStringInjective | routes/predefinedExpenseRoutes.js:101 | Different integers are printed differently. |
| Text.Pad2 | routes/predefinedExpenseRoutes.js:217 | `padStart(2, '0')` gives at least two characters. |
| Text.Pad2TwoDigits | routes/predefinedExpenseRoutes.js:217 | For 0..99 the result is exactly two digits that denote the number. |
| Text.DigitsValueBound | routes/predefinedExpenseRoutes.js:82 | `n` digits denote less than 10 to the `n`. |
| Text.FourDigitsBound | routes/predefinedExpenseRoutes.js:82 | Four digits denote at most 9999. |
| Text.TrimStart | models/Expense.js:8 | The result is a suffix that does not begin with white space, and everything removed before it is white space. |
| Text.TrimEnd | models/Expense.js:8 | The result is a prefix that does not end with white space, and everything removed after it is white space. |
| Text.Trim | models/Expense.js:8 | The result is leading white space removed, then trailing white space removed. It is no longer than the input, and neither its first nor its last character is white space. |
| Text.TrimRemovesOnlyWhitespace | models/Expense.js:8 | The result is a contiguous slice of the input with only white space before and after it. |
| Text.TrimIdempotent | models/Expense.js:8 | Trimming twice is trimming once. |
| Text.IsWhitespace | models/Expense.js:8 | The white space and line terminators `String.prototype.trim` removes (definition). |
| Text.Utf16Length | models/Expense.js:9 | The length `maxlength` compares: at least the number of characters and at most twice it. |
| Text.Utf16LengthAstral | models/PredefinedExpense.js:58 | A character beyond U+FFFF counts as two code units. |
| Text.StartsWith | routes/expenseRoutes.js:13 | the `$regex` made of `^` and the month: a prefix test (definition; also `routes/predefinedExpenseRoutes.js:200`). |
| Text.Less | routes/expenseRoutes.js:16 | The code-point order on strings that the date and month sorts compare with (definition; also `routes/salaryRoutes.js:8`). |
| Text.LessIrreflexive | routes/expenseRoutes.js:16 | No string sorts before itself. |
| Text.LessTransitive | routes/expenseRoutes.js:16 | The string order is transitive. |
| Text.LessTotal | routes/expenseRoutes.js:16 | Any two strings are equal or ordered. |
| Text.LessAsymmetric | routes/salaryRoutes.js:8 | Two strings are never each before the other. |
| Sorting.Insert | routes/salaryRoutes.js:8 | Insertion adds exactly the one element to the multiset. |
| Sorting.SortBy | routes/expenseRoutes.js:16 | Sorting is a permutation. |
| Sorting.InsertKeepsSorted | routes/salaryRoutes.js:8 | Insertion into a sorted list under a total preorder keeps it sorted. |
| Sorting.SortBySorted | routes/expenseRoutes.js:16 | The sorted list is ordered. |
| ExpenseModel.AdmitExpense | models/Expense.js:5-44 | A body is admitted iff it has:<br>• a title that trims to a non-empty string of at most 100 UTF-16 code units;<br>• an amount of at least 0;<br>• one of the 13 categories;<br>• a `\d{4}-\d{2}-\d{2}` date;<br>• type `expense` or `income`.<br>The stored record is that body with its title trimmed, and it satisfies the schema. |
| ExpenseModel.TitleOk | models/Expense.js:5-10 | A stored title: trimmed, non-empty and at most 100 UTF-16 code units (definition). |
| ExpenseModel.ExpenseValid | models/Expense.js:5-44 | Every field constraint of the schema (definition). |
| ExpenseModel.AdmitComplete | models/Expense.js:5-44 | A complete body with valid fields and a trimmed title is stored unchanged. |
| ExpenseModel.Patched | routes/expenseRoutes.js:53-57 | Each field the update names takes the body's value, the title trimmed; each field it omits keeps its old value. An update whose named fields pass their validators keeps a valid record valid, and an empty update changes nothing. |
| ExpenseModel.PatchOk | routes/expenseRoutes.js:53-57 | What `runValidators: true` checks on an update: each field the body names passes its validator, and omitted fields are not checked (definition). |
| ExpenseModel.PatchWithWholeBody | routes/expenseRoutes.js:53-57 | An update naming every field with values creation would admit passes the update validators and stores what creation would store, whatever the old record was. |
| PredefinedExpenseModel.AdmitTemplate | models/PredefinedExpense.js:3-64 | A body is admitted iff title, amount and category are present and the template with the defaults filled in and title and description trimmed passes the schema. An admitted template carries the given id and the trimmed title and description. The defaults are:<br>• type `expense`;<br>• `dayOfMonth` 1;<br>• `isActive` true;<br>• `isPredefined` false. |
| PredefinedExpenseModel.TemplateValid | models/PredefinedExpense.js:3-60 | Every field constraint of the schema, the description at most 500 UTF-16 code units (definition). |
| PredefinedExpenseModel.Filled | models/PredefinedExpense.js:11-59 | The defaults and the `trim` setters applied to a body (definition). |
| PredefinedExpenseModel.DefaultsAdmitted | models/PredefinedExpense.js:11-54 | A body with only a valid title, amount and category is admitted:<br>• as an active `expense`;<br>• on day 1;<br>• not predefined;<br>• with no description. |
| SalaryModel.SalaryValid | models/Salary.js:5-16 | A month matching `^\d{4}-\d{2}$` and an amount of at least 0 (definition). |
| SalaryModel.TableValid | models/Salary.js:3-21 | Every stored record is valid; the `unique` month index makes the table a map (definition). |
| SalaryModel.StoreKeepsTableValid | models/Salary.js:3-21 | Writing a valid record keeps a valid table valid; the month then holds that record's amount and every other month is untouched. |
| ExpenseRoutes.Saved | routes/expenseRoutes.js:37-47 | A body that passes validation is stored under a fresh id after every existing row. Otherwise 400, with the collection unchanged. |
| ExpenseRoutes.LedgerValid | models/Expense.js:3-49 | The collection invariant: every row satisfies the schema, and the ids are distinct and below the next id (definition). |
| ExpenseRoutes.SavedKeepsValid | routes/expenseRoutes.js:37-47 | Saving keeps the collection valid. |
| ExpenseRoutes.Find | routes/expenseRoutes.js:24-34 | Finds a stored row carrying the id, when there is one. It finds nothing iff no row has that id. |
| ExpenseRoutes.Without | routes/expenseRoutes.js:71-81 | Exactly the rows with other ids remain. |
| ExpenseRoutes.WithoutRemovesOne | routes/expenseRoutes.js:71-81 | With distinct ids, deleting a present id removes exactly one row, and an absent id removes none. |
| ExpenseRoutes.Replaced | routes/expenseRoutes.js:51-68 | The row with the id is patched in place, keeping its id and creation stamp. Every other row is unchanged. |
| ExpenseRoutes.WithoutKeepsValid | routes/expenseRoutes.js:71-81 | Deleting keeps the collection valid. |
| ExpenseRoutes.ReplacedKeepsValid | routes/expenseRoutes.js:51-68 | A validated update keeps the collection valid and contains the updated row. |
| ExpenseRoutes.WithoutKeepsDistinct | routes/expenseRoutes.js:71-81 | Deleting keeps ids distinct. |
| ExpenseRoutes.NewestFirst | routes/expenseRoutes.js:16 | `sort({ date: -1, createdAt: -1 })`: date descending, then creation descending (definition). |
| ExpenseRoutes.ExpenseCollection.Create | routes/expenseRoutes.js:37-47 | The POST handler answers and updates the collection as `Saved` does, and keeps a valid collection valid. |
| ExpenseRoutes.ExpenseCollection.Get | routes/expenseRoutes.js:24-34 | Success iff a row has the id, returning such a row. Otherwise 404. |
| ExpenseRoutes.ExpenseCollection.Update | routes/expenseRoutes.js:51-68 | 400, with nothing changed, when a named field fails its validator. Otherwise:<br>• 404, with nothing changed, for an unknown id;<br>• for a known id, only that row is patched and returned. |
| ExpenseRoutes.ExpenseCollection.Delete | routes/expenseRoutes.js:71-81 | 404, with nothing changed, for an unknown id. For a known id, exactly that row is removed and returned. |
| ExpenseRoutes.NewestFirstIsTotalPreorder | routes/expenseRoutes.js:16 | Date descending, then `createdAt` descending, is a total preorder. |
| ExpenseRoutes.MonthFilter | routes/expenseRoutes.js:12-14 | Exactly the rows whose date starts with the month, each as many times as it is stored; other rows not at all. |
| ExpenseRoutes.EmptyMonthKeepsAll | routes/expenseRoutes.js:8-14 | An empty month filters nothing out. |
| ExpenseRoutes.ListExpenses | routes/expenseRoutes.js:84-90 | The listing is a permutation of the filtered rows: exactly those whose date starts with the month, newest first. |
| ExpenseRoutes.ListAllIsPermutation | routes/expenseRoutes.js:6-17 | Without a month, the listing is a permutation of every stored expense. |
| SalaryRoutes.ParsedAmount | routes/salaryRoutes.js:44 | `parseFloat(amount) \|\| 0`: an unparsable amount becomes 0, and a number stays itself. |
| SalaryRoutes.Lookup | routes/salaryRoutes.js:16-30 | The stored amount for the month, or 0 when none is stored. A valid table and a shape-valid month give a valid record. |
| SalaryRoutes.Posted | routes/salaryRoutes.js:33-55 | Success iff the month is present and non-empty, the amount is present, the month is shape-valid and the parsed amount is at least 0. On failure: 400, with the table unchanged. On success the month holds the parsed amount, it is the only month added, and other months are unchanged. Validity is kept. |
| SalaryRoutes.Amended | routes/salaryRoutes.js:58-84 | The months stay the same.<br>• A missing or negative amount gives 400.<br>• An absent month gives 404.<br>• Otherwise the month holds the parsed amount and every other month is unchanged.<br>Validity is kept. |
| SalaryRoutes.Removed | routes/salaryRoutes.js:87-100 | Success iff the month is stored: that month alone is removed and returned. Otherwise 404, with nothing changed. |
| SalaryRoutes.LaterMonth | routes/salaryRoutes.js:8 | `sort({ month: -1 })`: month descending (definition). |
| SalaryRoutes.LaterMonthIsTotalPreorder | routes/salaryRoutes.js:8 | Month descending is a total preorder. |
| SalaryRoutes.StrictlyNewestFirst | routes/salaryRoutes.js:8 | A complete listing with one record per month is strictly descending by month. |
| SalaryRoutes.ListedStep | routes/salaryRoutes.js:8 | Inserting one more month's record keeps the listing invariant. |
| SalaryRoutes.SalaryTable.ListAll | routes/salaryRoutes.js:6-13 | Every stored record appears exactly once, in strictly descending month order. |
| SalaryRoutes.SalaryTable.Read | routes/salaryRoutes.js:16-30 | Reads as `Lookup` does. A valid table gives a valid record. Nothing is stored. |
| SalaryRoutes.SalaryTable.Post | routes/salaryRoutes.js:33-55 | The handler answers and updates the table as `Posted` does, and keeps it valid. |
| SalaryRoutes.SalaryTable.Put | routes/salaryRoutes.js:58-84 | The handler answers and updates the table as `Amended` does, and keeps it valid. |
| SalaryRoutes.SalaryTable.Delete | routes/salaryRoutes.js:87-100 | The handler answers and updates the table as `Removed` does, and keeps it valid. |
| SalaryRoutes.PostThenRead | routes/salaryRoutes.js:42-46 | A read after a successful upsert reports the stored record. |
| SalaryRoutes.PutThenRead | routes/salaryRoutes.js:67-77 | A read after a successful update reports the updated record. |
| SalaryRoutes.PostIdempotent | routes/salaryRoutes.js:42-46 | Upserting twice is upserting once. |
| SalaryRoutes.DeleteThenReadAndPut | routes/salaryRoutes.js:87-99 | After a delete, a read reports 0, and an update of that month is 404: there is no upsert. |
| SalaryRoutes.UnparsableAmountStoresZero | routes/salaryRoutes.js:44 | An unparsable amount for a valid month stores 0. |

## Left out

- **JavaScript `Date` and time zones.** Months are (year, month) pairs, and `now` is a parameter: its UTC month and the milliseconds elapsed in it. Two things are not modelled:
  - the server's local time zone, which `getMonth()` uses;
  - the year range of `Date`.
- **PredefinedExpenseHandlers.ApplyAll: requires `endMonth` to be empty or shape-valid.** A non-ISO `endMonth` goes to the engine's fallback date parser, which has no specification. A shape-valid `endMonth` or `startMonth` with a month number outside 1..12 is an Invalid Date. It is modelled as yielding no months, as in the source.
- **PredefinedExpenseRoutes.ApplyAllSpec** has the same requirement on `endMonth`, and on `now` a real calendar month.
- **PredefinedExpenseRoutes.PlannedMonthsStart** is stated for four-digit years only. For a year below 1000, `String(year)` has fewer than four digits, so the formatted month differs from `startMonth`.
- **Floating point.** Amounts and `dayOfMonth` are integers. `parseFloat` is reduced to the three cases of `AmountField`: missing, unparsable, or a number. NaN and fractional days are not modelled.
- **Store errors beyond the per-template faults.** Two are not modelled:
  - a failure of the template query, or of any other step outside the per-template `try`, which gives a 500;
  - ObjectId cast errors on the id routes, which also give a 500; ids are natural numbers.
- **Concurrency.** Every handler runs sequentially, so the race between two concurrent check-then-create passes is not modelled.
- **Unpaired surrogates.** Strings are sequences of Unicode scalar values, so a JavaScript string holding a lone UTF-16 surrogate has no counterpart; `Utf16Length` counts every other string as JavaScript does.
- **Regular expressions in listings.** The `$regex` month filter is a plain prefix test. A month query containing regular-expression metacharacters is not modelled.
- **`null` fields in update bodies** are not modelled: a body field is either absent or a value. Mongoose would put such a `null` into the `$set`, the update validators (`runValidators: true`, `routes/expenseRoutes.js:56`) would run `required` on it, and PUT would answer 400. Fields outside the schema are dropped by strict mode; the body types have no place for them.
- **Response shapes.** Messages, `console.log`, and the JSON layout beyond status and result lists are not modelled; for instance, `errors` is omitted when empty.
- **Timestamps.** `createdAt` and `updatedAt` are wall-clock times. Only `createdAt` is modelled, as a counter, and it serves as the listing's tie-break.
- **Other routes and files.** The plain template create/read/update/delete routes and the commented-out `GET /:month` block are not part of this model. `server.js` is not part of this model either: it is application wiring, CORS, database connection and health endpoints.
