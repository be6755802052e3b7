/**
 * The two materializing handlers as the source runs them: a month walk that
 * pushes formatted months until the end month or the cap, and loops that
 * look for a match, build the candidate and save it, one template at a time,
 * against the expense collection. Each method is proved to do what the
 * functions of `PredefinedExpenseRoutes` specify.
 */
module PredefinedExpenseHandlers {
  import opened Wrappers
  import opened Calendar
  import opened ExpenseModel
  import opened PredefinedExpenseModel
  import opened ExpenseRoutes
  import opened PredefinedExpenseRoutes
  import opened Http

  // ---------------------------------------------------------------- the month walk

  /**
   * `while (current <= maxEndDate)`: push the month, step to the next one, and
   * stop once more than 24 months are listed.
   */
  method WalkMonths(start: YearMonth, last: YearMonth) returns (months: seq<string>)
    requires ValidMonth(start) && ValidMonth(last)
    ensures months == MonthStrings(start, SpanLength(start, last))
  {
    months := [];
    var current := start;
    FromIndexOfIndex(start);
    while Index(current) <= Index(last)
      invariant current == MonthAfter(start, |months|)
      invariant months == MonthStrings(start, |months|)
      invariant |months| <= MonthCap && |months| <= SpanLength(start, last)
      decreases Index(last) - Index(current)
    {
      MonthAfterNext(start, |months|);
      months := months + [MonthString(current)];
      assert months == MonthStrings(start, |months|);
      current := Next(current);
      if |months| > MonthCap {
        break;
      }
    }
    WalkStopsAtSpan(start, last, |months|);
  }

  /** The walk stops after the whole span: past the end month, or at the cap. */
  lemma WalkStopsAtSpan(start: YearMonth, last: YearMonth, n: nat)
    requires n <= SpanLength(start, last)
    requires n > MonthCap || Index(start) + n > Index(last)
    ensures n == SpanLength(start, last)
  {
  }

  // ---------------------------------------------------------------- one template

  /** The `try` block for one template against the live collection. */
  method MaterializeOne(store: ExpenseCollection, check: DuplicateCheck, month: string, t: Template, faulty: bool)
    returns (o: Outcome)
    modifies store
    ensures o == Step(check, month, t, faulty, old(store.State())).0
    ensures store.State() == Step(check, month, t, faulty, old(store.State())).1
  {
    if faulty {
      return Failed(t.title, StoreUnavailable);
    }
    if Exists(check, month, t, store.rows) {
      return Skipped(t.title);
    }
    var r := store.Create(Candidate(t, month));
    o := if r.Success? then Made(r.value) else Failed(t.title, ValidationFailed);
  }

  // ---------------------------------------------------------------- POST /apply/:month

  /** `POST /apply/:month`: validate the month, then one pass over the selected templates. */
  method ApplyMonth(store: ExpenseCollection, templates: seq<Template>, month: string, ids: Option<seq<nat>>, faults: set<nat>)
    returns (r: Result<MonthReport, HttpError>)
    requires store.Valid()
    modifies store
    ensures store.Valid()
    ensures (r, store.State()) == ApplyMonthSpec(old(store.State()), templates, month, ids, faults)
  {
    if !MonthShape(month) {
      return Failure(BadRequest);
    }
    ghost var l0 := store.State();
    var sel := Select(templates, ids);
    var created, errors := CreateForMonth(store, sel, month, faults);
    r := Success(MonthReport(created, errors));
    ApplyMonthKeepsValid(l0, templates, month, ids, faults);
  }

  /** The loop of `apply/:month`: the created expenses and the refusals, each in template order. */
  method CreateForMonth(store: ExpenseCollection, sel: seq<Template>, month: string, faults: set<nat>)
    returns (created: seq<Expense>, errors: seq<Refusal>)
    modifies store
    ensures created == MadeOf(Run(SameMonth, month, sel, faults, old(store.State())).0)
    ensures errors == RefusalsOf(Run(SameMonth, month, sel, faults, old(store.State())).0)
    ensures store.State() == Run(SameMonth, month, sel, faults, old(store.State())).1
  {
    ghost var l0 := store.State();
    ghost var outs: seq<Outcome> := [];
    created, errors := [], [];
    var i := 0;
    while i < |sel|
      invariant 0 <= i <= |sel|
      invariant outs == Run(SameMonth, month, sel[..i], faults, l0).0
      invariant store.State() == Run(SameMonth, month, sel[..i], faults, l0).1
      invariant created == MadeOf(outs) && errors == RefusalsOf(outs)
    {
      var o := MaterializeOne(store, SameMonth, month, sel[i], i in faults);
      RunPrefixStep(SameMonth, month, sel, i, faults, l0);
      MadeOfSnoc(outs, o);
      RefusalsOfSnoc(outs, o);
      if o.Made? {
        created := created + [o.expense];
      } else if o.Skipped? {
        errors := errors + [Refusal(o.title, AlreadyExists)];
      } else {
        errors := errors + [Refusal(o.title, o.reason)];
      }
      outs := outs + [o];
      i := i + 1;
    }
    assert sel[..|sel|] == sel;
  }

  // ---------------------------------------------------------------- POST /apply/all

  /**
   * The inner loop of `apply/all` for one month: `created++` or `skipped++`
   * per template, and an error pushed for each caught failure.
   */
  method ApplyToMonth(store: ExpenseCollection, sel: seq<Template>, month: string, faults: set<nat>)
    returns (tally: MonthTally, failures: seq<RangeError>)
    modifies store
    ensures tally == Tally(month, Run(SameDate, month, sel, faults, old(store.State())).0)
    ensures failures == FailuresOf(month, Run(SameDate, month, sel, faults, old(store.State())).0)
    ensures store.State() == Run(SameDate, month, sel, faults, old(store.State())).1
  {
    ghost var l0 := store.State();
    ghost var outs: seq<Outcome> := [];
    var created, skipped := 0, 0;
    failures := [];
    var i := 0;
    while i < |sel|
      invariant 0 <= i <= |sel|
      invariant outs == Run(SameDate, month, sel[..i], faults, l0).0
      invariant store.State() == Run(SameDate, month, sel[..i], faults, l0).1
      invariant created == |MadeOf(outs)| && skipped == SkipCount(outs) && failures == FailuresOf(month, outs)
    {
      var o := MaterializeOne(store, SameDate, month, sel[i], i in faults);
      RunPrefixStep(SameDate, month, sel, i, faults, l0);
      MadeOfSnoc(outs, o);
      CountsSnoc(month, outs, o);
      if o.Made? {
        created := created + 1;
      } else if o.Skipped? {
        skipped := skipped + 1;
      } else {
        failures := failures + [RangeError(month, o.title, o.reason)];
      }
      outs := outs + [o];
      i := i + 1;
    }
    assert sel[..|sel|] == sel;
    tally := MonthTally(month, created, skipped);
  }

  /**
   * `POST /apply/all`: validate the start month and refuse one already begun,
   * walk the months, then run every month over the selected templates.
   */
  method ApplyAll(
    store: ExpenseCollection, templates: seq<Template>, now: Instant, startMonth: string, endMonth: string,
    ids: Option<seq<nat>>, faults: set<(nat, nat)>)
    returns (r: Result<RangeReport, HttpError>)
    requires store.Valid()
    requires ValidMonth(now.ym) && (endMonth == "" || MonthShape(endMonth))
    modifies store
    ensures store.Valid()
    ensures (r, store.State()) == ApplyAllSpec(old(store.State()), templates, now, startMonth, endMonth, ids, faults)
  {
    var sel := Select(templates, ids);
    if startMonth == "" || !MonthShape(startMonth) {
      return Failure(BadRequest);
    }
    var start := ParseYearMonth(startMonth);
    if ValidMonth(start) && FirstInstantBefore(start, now) {
      return Failure(BadRequest);
    }
    var last := if endMonth == "" then YearMonth(now.ym.year + 2, now.ym.month) else ParseYearMonth(endMonth);
    var months: seq<string> := [];
    if ValidMonth(start) && ValidMonth(last) {
      months := WalkMonths(start, last);
    }
    assert months == PlannedMonths(now, startMonth, endMonth);
    ghost var l0 := store.State();
    var tallies, errors, totalCreated := ApplyToMonths(store, sel, months, faults);
    r := Success(RangeReport(|months|, tallies, totalCreated, errors));
    ApplyAllKeepsValid(l0, templates, now, startMonth, endMonth, ids, faults);
  }

  /** The outer loop of `apply/all`: every month in turn over the same selected templates. */
  method ApplyToMonths(store: ExpenseCollection, sel: seq<Template>, months: seq<string>, faults: set<(nat, nat)>)
    returns (tallies: seq<MonthTally>, errors: seq<RangeError>, totalCreated: nat)
    modifies store
    ensures tallies == RunRange(sel, months, faults, old(store.State())).0
    ensures errors == RunRange(sel, months, faults, old(store.State())).1
    ensures store.State() == RunRange(sel, months, faults, old(store.State())).2
    ensures totalCreated == SumCreated(tallies)
  {
    ghost var l0 := store.State();
    tallies, errors, totalCreated := [], [], 0;
    var k := 0;
    while k < |months|
      invariant 0 <= k <= |months|
      invariant tallies == RunRange(sel, months[..k], faults, l0).0
      invariant errors == RunRange(sel, months[..k], faults, l0).1
      invariant store.State() == RunRange(sel, months[..k], faults, l0).2
      invariant totalCreated == SumCreated(tallies)
    {
      var tally, failures := ApplyToMonth(store, sel, months[k], FaultsAt(faults, k));
      RunRangeSnoc(sel, months, k, faults, l0);
      SumCreatedSnoc(tallies, tally);
      tallies := tallies + [tally];
      errors := errors + failures;
      totalCreated := totalCreated + tally.created;
      k := k + 1;
    }
    assert months[..|months|] == months;
  }
}
