/**
 * The recurring-expense materializer: `POST /apply/:month` turns the selected
 * active templates into expenses dated in one month, and `POST /apply/all`
 * does the same for every month of a planned range, keeping per-month counts.
 *
 * The functions here are the specification: `Step` is what one template does
 * to the expense collection, `Run` is the loop over the templates of one
 * month, `RunRange` the loop over the months. The handlers in
 * `PredefinedExpenseHandlers` perform the same loops step by step.
 */
module PredefinedExpenseRoutes {
  import opened Wrappers
  import opened Text
  import opened Calendar
  import opened ExpenseModel
  import opened PredefinedExpenseModel
  import opened ExpenseRoutes
  import opened Http

  // ---------------------------------------------------------------- selection

  /**
   * The templates a request applies: the active ones, in store order, further
   * restricted to the listed ids when `predefinedExpenseIds` is an array
   * (`Some`). An absent id list, or one that is not an array, is `None`. An
   * empty array is truthy, so it selects nothing.
   */
  function Select(templates: seq<Template>, ids: Option<seq<nat>>): (sel: seq<Template>)
    ensures forall t :: t in sel <==> t in templates && t.isActive && (ids.None? || t.id in ids.value)
    ensures |sel| <= |templates|
    decreases |templates|
  {
    if |templates| == 0 then []
    else
      var init, last := templates[..|templates| - 1], templates[|templates| - 1];
      assert templates == init + [last];
      var rest := Select(init, ids);
      if last.isActive && (ids.None? || last.id in ids.value) then rest + [last] else rest
  }

  /** Selection keeps store order: selecting from a concatenation concatenates the selections. */
  lemma {:induction false} SelectAppend(a: seq<Template>, b: seq<Template>, ids: Option<seq<nat>>)
    ensures Select(a + b, ids) == Select(a, ids) + Select(b, ids)
    decreases |b|
  {
    if |b| == 0 {
      assert a + b == a;
    } else {
      var init, last := b[..|b| - 1], b[|b| - 1];
      var keep := if last.isActive && (ids.None? || last.id in ids.value) then [last] else [];
      calc {
        Select(a + b, ids);
        { assert a + b == (a + init) + [last]; }
        Select((a + init) + [last], ids);
        { SelectSnoc(a + init, last, ids); }
        Select(a + init, ids) + keep;
        { SelectAppend(a, init, ids); }
        Select(a, ids) + Select(init, ids) + keep;
        { SelectSnoc(init, last, ids); assert b == init + [last]; }
        Select(a, ids) + Select(b, ids);
      }
    }
  }

  lemma SelectSnoc(s: seq<Template>, t: Template, ids: Option<seq<nat>>)
    ensures Select(s + [t], ids) == Select(s, ids) + if t.isActive && (ids.None? || t.id in ids.value) then [t] else []
  {
    assert (s + [t])[..|s|] == s;
  }

  /** An empty id array selects no template. */
  lemma EmptyIdListSelectsNothing(templates: seq<Template>)
    ensures Select(templates, Some([])) == []
  {
  }

  // ---------------------------------------------------------------- dates

  /** `predefined.dayOfMonth || 1`: a day of 0 becomes 1. */
  function DayOf(t: Template): int {
    if t.dayOfMonth == 0 then 1 else t.dayOfMonth
  }

  /** `${month}-${String(day).padStart(2, '0')}`: no calendar check is made. */
  function DerivedDate(month: string, day: int): string {
    month + "-" + Pad2(day)
  }

  /** The derived date is the month, a dash and the padded day, so it lies in that month. */
  lemma DerivedDateParts(month: string, day: int)
    ensures StartsWith(DerivedDate(month, day), month)
    ensures var date := DerivedDate(month, day);
            |date| == |month| + 1 + |Pad2(day)| && date[|month|] == '-' && date[|month| + 1..] == Pad2(day)
  {
    var date := DerivedDate(month, day);
    assert date[..|month|] == month;
  }

  /**
   * For a shape-valid month and a day between 1 and 31, the derived date has
   * the expense date shape and its last two digits spell the day.
   */
  lemma DerivedDateShape(month: string, day: int)
    requires MonthShape(month) && 1 <= day <= 31
    ensures DateShape(DerivedDate(month, day))
    ensures DigitsValue(DerivedDate(month, day)[8..]) == day
  {
    Pad2TwoDigits(day);
    var date := DerivedDate(month, day);
    assert date[..4] == month[..4];
    assert date[5..7] == month[5..];
    assert date[8..] == Pad2(day);
  }

  /** Day 31 in February gives the date `2025-02-31`: the shape is all that is checked. */
  lemma NoCalendarCheck()
    ensures DerivedDate("2025-02", 31) == "2025-02-31"
    ensures DateShape(DerivedDate("2025-02", 31))
  {
    assert NatToString(3) == "3";
    assert NatToString(31) == NatToString(3) + [DigitChar(1)];
    assert Pad2(31) == "31";
    DerivedDateShape("2025-02", 31);
  }

  /** A negative day is printed with its sign, so the date fails the expense date shape. */
  lemma NegativeDayBreaksShape(month: string, day: int)
    requires MonthShape(month) && day < 0
    ensures !DateShape(DerivedDate(month, day))
  {
    var date := DerivedDate(month, day);
    assert date[8] == Pad2(day)[0] == '-' || |date| != 10;
  }

  // ---------------------------------------------------------------- the existence check

  /**
   * `apply/:month` counts an expense dated anywhere in the month
   * (`date: { $regex: '^' + month }`); `apply/all` only one on the exact
   * derived date.
   */
  datatype DuplicateCheck = SameMonth | SameDate

  /** `new Expense({ title, amount, category, type, date })` for a template and a month. */
  function Candidate(t: Template, month: string): ExpenseBody {
    ExpenseBody(Some(t.title), Some(t.amount), Some(t.category), Some(DerivedDate(month, DayOf(t))), Some(t.kind))
  }

  /** The `findOne` filter: equal title, amount, category and type, and a date the check accepts. */
  predicate Matches(check: DuplicateCheck, month: string, t: Template, e: Expense) {
    && e.data.title == t.title
    && e.data.amount == t.amount
    && e.data.category == t.category
    && e.data.kind == t.kind
    && match check
       case SameMonth => StartsWith(e.data.date, month)
       case SameDate => e.data.date == DerivedDate(month, DayOf(t))
  }

  predicate Exists(check: DuplicateCheck, month: string, t: Template, rows: seq<Expense>) {
    exists e :: e in rows && Matches(check, month, t, e)
  }

  /** An expense on the derived date matches under both checks, so the month check finds whatever the date check finds. */
  lemma SameDateImpliesSameMonth(month: string, t: Template, rows: seq<Expense>)
    ensures Exists(SameDate, month, t, rows) ==> Exists(SameMonth, month, t, rows)
  {
    if Exists(SameDate, month, t, rows) {
      var e :| e in rows && Matches(SameDate, month, t, e);
      assert Matches(SameMonth, month, t, e);
    }
  }

  /** The converse fails: an expense earlier in the month blocks `apply/:month` but not `apply/all`. */
  lemma ChecksDiffer()
    ensures
      var t := Template(0, "Rent", true, 900, "Rent", "expense", 5, true, None);
      var e := Expense(0, 0, ExpenseData("Rent", 900, "Rent", "2025-03-01", "expense"));
      Exists(SameMonth, "2025-03", t, [e]) && !Exists(SameDate, "2025-03", t, [e])
  {
    var t := Template(0, "Rent", true, 900, "Rent", "expense", 5, true, None);
    var e := Expense(0, 0, ExpenseData("Rent", 900, "Rent", "2025-03-01", "expense"));
    assert Matches(SameMonth, "2025-03", t, e);
    assert Pad2(5) == "05";
    assert DerivedDate("2025-03", 5) == "2025-03-05";
  }

  // ---------------------------------------------------------------- one template

  /** Why a template produced no expense. */
  datatype Reason = AlreadyExists | ValidationFailed | StoreUnavailable

  /** What one template did: created an expense, found one already there, or failed. */
  datatype Outcome = Made(expense: Expense) | Skipped(title: string) | Failed(title: string, reason: Reason)

  /**
   * The body of the per-template `try`: a store failure (`faulty`) is caught
   * and recorded; an existing match skips the template; otherwise the
   * candidate is saved, which validates it.
   */
  function Step(check: DuplicateCheck, month: string, t: Template, faulty: bool, l: Ledger): (res: (Outcome, Ledger))
    ensures res.0.Made? ==>
              && res.1 == Ledger(l.rows + [res.0.expense], l.nextId + 1)
              && res.0.expense.id == l.nextId && res.0.expense.createdAt == l.nextId
    ensures !res.0.Made? ==> res.1 == l
  {
    if faulty then (Failed(t.title, StoreUnavailable), l)
    else if Exists(check, month, t, l.rows) then (Skipped(t.title), l)
    else
      var (r, l') := Saved(l, Candidate(t, month));
      if r.Success? then (Made(r.value), l') else (Failed(t.title, ValidationFailed), l)
  }

  /**
   * The cases of one template: a store failure is reported as such; else a
   * match present means a skip; else the template yields exactly one new
   * expense holding the validated candidate, unless validation refuses it.
   */
  lemma StepCases(check: DuplicateCheck, month: string, t: Template, faulty: bool, l: Ledger)
    ensures var res := Step(check, month, t, faulty, l);
      && (faulty ==> res == (Failed(t.title, StoreUnavailable), l))
      && (!faulty && Exists(check, month, t, l.rows) ==> res == (Skipped(t.title), l))
      && (res.0.Made? <==> !faulty && !Exists(check, month, t, l.rows) && AdmitExpense(Candidate(t, month)).Some?)
      && (!faulty && !Exists(check, month, t, l.rows) && !res.0.Made? ==> res == (Failed(t.title, ValidationFailed), l))
      && (res.0.Made? ==> res.0.expense.data == AdmitExpense(Candidate(t, month)).value)
  {
  }

  lemma StepKeepsValid(check: DuplicateCheck, month: string, t: Template, faulty: bool, l: Ledger)
    requires LedgerValid(l)
    ensures LedgerValid(Step(check, month, t, faulty, l).1)
  {
    if !faulty && !Exists(check, month, t, l.rows) {
      SavedKeepsValid(l, Candidate(t, month));
      var (r, l') := Saved(l, Candidate(t, month));
      assert Step(check, month, t, faulty, l).1 == if r.Success? then l' else l;
    }
  }

  /**
   * A valid template in a shape-valid month yields a candidate that passes
   * every Expense constraint: the template's own fields and the derived date.
   */
  lemma CandidateAdmitted(t: Template, month: string)
    requires TemplateValid(t) && MonthShape(month)
    ensures AdmitExpense(Candidate(t, month))
            == Some(ExpenseData(t.title, t.amount, t.category, DerivedDate(month, t.dayOfMonth), t.kind))
  {
    var date := DerivedDate(month, t.dayOfMonth);
    assert Candidate(t, month) == ExpenseBody(Some(t.title), Some(t.amount), Some(t.category), Some(date), Some(t.kind));
    DerivedDateShape(month, t.dayOfMonth);
    AdmitComplete(t.title, t.amount, t.category, date, t.kind);
  }

  /** A created expense matches its template under either check once the template's title is trimmed. */
  lemma MadeMatches(check: DuplicateCheck, month: string, t: Template, faulty: bool, l: Ledger)
    requires IsTrimmed(t.title)
    requires Step(check, month, t, faulty, l).0.Made?
    ensures Matches(check, month, t, Step(check, month, t, faulty, l).0.expense)
  {
    StepCases(check, month, t, faulty, l);
  }

  // ---------------------------------------------------------------- the templates of one month

  /** The expenses among the outcomes, in order. */
  function MadeOf(os: seq<Outcome>): seq<Expense>
    decreases |os|
  {
    if |os| == 0 then []
    else
      var last := os[|os| - 1];
      MadeOf(os[..|os| - 1]) + if last.Made? then [last.expense] else []
  }

  lemma MadeOfSnoc(os: seq<Outcome>, o: Outcome)
    ensures MadeOf(os + [o]) == MadeOf(os) + if o.Made? then [o.expense] else []
  {
    assert (os + [o])[..|os|] == os;
  }

  /**
   * The loop over the selected templates of one month, in order: outcome `i`
   * belongs to `ts[i]`, template `i` fails with a store error when `i` is in
   * `faults`, and each created expense is appended to the collection.
   */
  function Run(check: DuplicateCheck, month: string, ts: seq<Template>, faults: set<nat>, l: Ledger)
    : (res: (seq<Outcome>, Ledger))
    ensures |res.0| == |ts|
    ensures res.1.rows == l.rows + MadeOf(res.0)
    ensures res.1.nextId == l.nextId + |MadeOf(res.0)|
    decreases |ts|
  {
    if |ts| == 0 then ([], l)
    else
      var k := |ts| - 1;
      var (os, l1) := Run(check, month, ts[..k], faults, l);
      var (o, l2) := Step(check, month, ts[k], k in faults, l1);
      MadeOfSnoc(os, o);
      (os + [o], l2)
  }

  lemma {:induction false} RunKeepsValid(check: DuplicateCheck, month: string, ts: seq<Template>, faults: set<nat>, l: Ledger)
    requires LedgerValid(l)
    ensures LedgerValid(Run(check, month, ts, faults, l).1)
    decreases |ts|
  {
    if |ts| > 0 {
      var k := |ts| - 1;
      RunKeepsValid(check, month, ts[..k], faults, l);
      StepKeepsValid(check, month, ts[k], k in faults, Run(check, month, ts[..k], faults, l).1);
    }
  }

  /** Outcome `i` is what `Step` does to template `i` given the collection the earlier templates left. */
  lemma RunAt(check: DuplicateCheck, month: string, ts: seq<Template>, faults: set<nat>, l: Ledger, i: nat)
    requires i < |ts|
    ensures Run(check, month, ts, faults, l).0[i]
            == Step(check, month, ts[i], i in faults, Run(check, month, ts[..i], faults, l).1).0
  {
    RunPrefixAt(check, month, ts, |ts|, faults, l, i);
    assert ts[..|ts|] == ts;
  }

  lemma {:induction false} RunPrefixAt(check: DuplicateCheck, month: string, ts: seq<Template>, n: nat, faults: set<nat>, l: Ledger, i: nat)
    requires i < n <= |ts|
    ensures Run(check, month, ts[..n], faults, l).0[i]
            == Step(check, month, ts[i], i in faults, Run(check, month, ts[..i], faults, l).1).0
    decreases n
  {
    if i < n - 1 {
      RunPrefixKeeps(check, month, ts, n, faults, l, i);
      RunPrefixAt(check, month, ts, n - 1, faults, l, i);
    } else {
      RunPrefixLast(check, month, ts, n, faults, l);
    }
  }

  /** One more template leaves the earlier outcomes as they were. */
  lemma RunPrefixKeeps(check: DuplicateCheck, month: string, ts: seq<Template>, n: nat, faults: set<nat>, l: Ledger, i: nat)
    requires i < n - 1 && n <= |ts|
    ensures Run(check, month, ts[..n], faults, l).0[i] == Run(check, month, ts[..n - 1], faults, l).0[i]
  {
    RunPrefixStep(check, month, ts, n - 1, faults, l);
    var before := Run(check, month, ts[..n - 1], faults, l);
    SnocAt(before.0, Step(check, month, ts[n - 1], n - 1 in faults, before.1).0, i);
  }

  /** The last outcome of a prefix run is the step of its last template. */
  lemma RunPrefixLast(check: DuplicateCheck, month: string, ts: seq<Template>, n: nat, faults: set<nat>, l: Ledger)
    requires 0 < n <= |ts|
    ensures Run(check, month, ts[..n], faults, l).0[n - 1]
            == Step(check, month, ts[n - 1], n - 1 in faults, Run(check, month, ts[..n - 1], faults, l).1).0
  {
    RunPrefixStep(check, month, ts, n - 1, faults, l);
  }

  /** The loop over the first `i + 1` templates is the loop over the first `i` followed by one step. */
  lemma RunPrefixStep(check: DuplicateCheck, month: string, ts: seq<Template>, i: nat, faults: set<nat>, l: Ledger)
    requires i < |ts|
    ensures var before := Run(check, month, ts[..i], faults, l);
            var step := Step(check, month, ts[i], i in faults, before.1);
            Run(check, month, ts[..i + 1], faults, l) == (before.0 + [step.0], step.1)
  {
    var p := ts[..i + 1];
    assert p[..i] == ts[..i] && p[i] == ts[i];
  }

  /** With valid templates, a shape-valid month and no store failure, nothing fails: every template is made or skipped. */
  lemma RunNoFailures(check: DuplicateCheck, month: string, ts: seq<Template>, l: Ledger)
    requires MonthShape(month) && forall t :: t in ts ==> TemplateValid(t)
    ensures forall i :: 0 <= i < |ts| ==> !Run(check, month, ts, {}, l).0[i].Failed?
  {
    forall i | 0 <= i < |ts|
      ensures !Run(check, month, ts, {}, l).0[i].Failed?
    {
      RunAt(check, month, ts, {}, l, i);
      StepNotFailed(check, month, ts[i], Run(check, month, ts[..i], {}, l).1);
    }
  }

  /** Without a store failure, a valid template in a shape-valid month is made or skipped. */
  lemma StepNotFailed(check: DuplicateCheck, month: string, t: Template, l: Ledger)
    requires MonthShape(month) && TemplateValid(t)
    ensures !Step(check, month, t, false, l).0.Failed?
  {
    CandidateAdmitted(t, month);
    StepCases(check, month, t, false, l);
  }

  // ---------------------------------------------------------------- idempotence

  /** Applying `t` again changes nothing: a match exists, or the candidate can never pass validation. */
  predicate Covered(check: DuplicateCheck, month: string, t: Template, rows: seq<Expense>) {
    Exists(check, month, t, rows) || AdmitExpense(Candidate(t, month)).None?
  }

  lemma CoveredGrows(check: DuplicateCheck, month: string, t: Template, rows: seq<Expense>, more: seq<Expense>)
    requires Covered(check, month, t, rows)
    ensures Covered(check, month, t, rows + more)
  {
    if Exists(check, month, t, rows) {
      var e :| e in rows && Matches(check, month, t, e);
      assert e in rows + more;
    }
  }

  lemma AllCoveredGrows(check: DuplicateCheck, month: string, ts: seq<Template>, rows: seq<Expense>, more: seq<Expense>)
    requires forall t :: t in ts ==> Covered(check, month, t, rows)
    ensures forall t :: t in ts ==> Covered(check, month, t, rows + more)
  {
    forall t | t in ts
      ensures Covered(check, month, t, rows + more)
    {
      CoveredGrows(check, month, t, rows, more);
    }
  }

  lemma InLastOrInit<T>(s: seq<T>)
    requires |s| > 0
    ensures forall x :: x in s ==> x in s[..|s| - 1] || x == s[|s| - 1]
  {
    assert s == s[..|s| - 1] + [s[|s| - 1]];
  }

  /** A template applied without a store failure is covered afterwards. */
  lemma StepCovers(check: DuplicateCheck, month: string, t: Template, l: Ledger)
    requires IsTrimmed(t.title)
    ensures Covered(check, month, t, Step(check, month, t, false, l).1.rows)
  {
    var (o, l2) := Step(check, month, t, false, l);
    StepCases(check, month, t, false, l);
    if o.Made? {
      MadeMatches(check, month, t, false, l);
      assert o.expense in l2.rows;
    }
  }

  /** After a run without store failures, every template of the run is covered. */
  lemma {:induction false} RunCovers(check: DuplicateCheck, month: string, ts: seq<Template>, l: Ledger)
    requires forall t :: t in ts ==> IsTrimmed(t.title)
    ensures forall t :: t in ts ==> Covered(check, month, t, Run(check, month, ts, {}, l).1.rows)
    decreases |ts|
  {
    if |ts| > 0 {
      var k := |ts| - 1;
      var init := ts[..k];
      RunCovers(check, month, init, l);
      var (os, l1) := Run(check, month, init, {}, l);
      var (o, l2) := Step(check, month, ts[k], false, l1);
      assert Run(check, month, ts, {}, l) == (os + [o], l2);
      assert ts[k] in ts;
      StepCovers(check, month, ts[k], l1);
      var added := if o.Made? then [o.expense] else [];
      assert l2.rows == l1.rows + added;
      AllCoveredGrows(check, month, init, l1.rows, added);
      InLastOrInit(ts);
    }
  }

  /** A run over covered templates creates nothing and leaves the collection as it was, whatever fails. */
  lemma {:induction false} RunOnCovered(check: DuplicateCheck, month: string, ts: seq<Template>, faults: set<nat>, l: Ledger)
    requires forall t :: t in ts ==> Covered(check, month, t, l.rows)
    ensures MadeOf(Run(check, month, ts, faults, l).0) == []
    ensures Run(check, month, ts, faults, l).1 == l
    decreases |ts|
  {
    if |ts| > 0 {
      var k := |ts| - 1;
      RunOnCovered(check, month, ts[..k], faults, l);
      var (os, l1) := Run(check, month, ts[..k], faults, l);
      assert l1 == l;
      assert ts[k] in ts;
      var (o, l2) := Step(check, month, ts[k], k in faults, l);
      StepCases(check, month, ts[k], k in faults, l);
      assert !o.Made? && l2 == l;
      assert Run(check, month, ts, faults, l) == (os + [o], l2);
      MadeOfSnoc(os, o);
    }
  }

  // ---------------------------------------------------------------- POST /apply/:month

  /** An entry of `errors`: the template's title and why it produced nothing. */
  datatype Refusal = Refusal(title: string, reason: Reason)

  /** The 201 response: the created expenses and the errors (absent from the JSON when empty). */
  datatype MonthReport = MonthReport(created: seq<Expense>, errors: seq<Refusal>)

  /** A duplicate is reported as an error with the message "Expense already exists for this month". */
  function RefusalsOf(os: seq<Outcome>): (rs: seq<Refusal>)
    ensures |rs| + |MadeOf(os)| == |os|
    decreases |os|
  {
    if |os| == 0 then []
    else
      var init, last := os[..|os| - 1], os[|os| - 1];
      MadeOfSnoc(init, last);
      assert os == init + [last];
      RefusalsOf(init) + match last
        case Made(_) => []
        case Skipped(title) => [Refusal(title, AlreadyExists)]
        case Failed(title, why) => [Refusal(title, why)]
  }

  lemma RefusalsOfSnoc(os: seq<Outcome>, o: Outcome)
    ensures RefusalsOf(os + [o]) == RefusalsOf(os) + match o
      case Made(_) => []
      case Skipped(title) => [Refusal(title, AlreadyExists)]
      case Failed(title, why) => [Refusal(title, why)]
  {
    assert (os + [o])[..|os|] == os;
  }

  /**
   * `POST /apply/:month` on the collection `l` and the template store
   * `templates`: 400 for a month that is not `\d{4}-\d{2}`, before any store
   * access; otherwise one outcome per selected template, in order.
   */
  function ApplyMonthSpec(l: Ledger, templates: seq<Template>, month: string, ids: Option<seq<nat>>, faults: set<nat>)
    : (res: (Result<MonthReport, HttpError>, Ledger))
    ensures !MonthShape(month) ==> res == (Failure(BadRequest), l)
    ensures MonthShape(month) ==>
              && res.0.Success?
              && |res.0.value.created| + |res.0.value.errors| == |Select(templates, ids)|
              && res.1.rows == l.rows + res.0.value.created
              && res.1.nextId == l.nextId + |res.0.value.created|
  {
    if !MonthShape(month) then (Failure(BadRequest), l)
    else
      var (os, l') := Run(SameMonth, month, Select(templates, ids), faults, l);
      (Success(MonthReport(MadeOf(os), RefusalsOf(os))), l')
  }

  /** Applying a month keeps the expense collection valid. */
  lemma ApplyMonthKeepsValid(l: Ledger, templates: seq<Template>, month: string, ids: Option<seq<nat>>, faults: set<nat>)
    requires LedgerValid(l)
    ensures LedgerValid(ApplyMonthSpec(l, templates, month, ids, faults).1)
  {
    RunKeepsValid(SameMonth, month, Select(templates, ids), faults, l);
  }

  /**
   * Applying a month twice: after a first call without store failures, a
   * second identical call (whatever fails in it) creates nothing and leaves
   * the collection unchanged. Stored templates have trimmed titles.
   */
  lemma ApplyMonthIdempotent(
    l: Ledger, templates: seq<Template>, month: string, ids: Option<seq<nat>>, faults: set<nat>)
    requires forall t :: t in templates ==> IsTrimmed(t.title)
    ensures
      var (_, l1) := ApplyMonthSpec(l, templates, month, ids, {});
      var (r2, l2) := ApplyMonthSpec(l1, templates, month, ids, faults);
      l2 == l1 && (r2.Success? ==> r2.value.created == [])
  {
    if MonthShape(month) {
      var sel := Select(templates, ids);
      RunCovers(SameMonth, month, sel, l);
      RunOnCovered(SameMonth, month, sel, faults, Run(SameMonth, month, sel, {}, l).1);
    }
  }

  /** With valid templates and no store failure, the only errors a month reports are duplicates. */
  lemma ApplyMonthOnlyDuplicatesRefused(l: Ledger, templates: seq<Template>, month: string, ids: Option<seq<nat>>)
    requires forall t :: t in templates ==> TemplateValid(t)
    requires MonthShape(month)
    ensures forall r :: r in ApplyMonthSpec(l, templates, month, ids, {}).0.value.errors ==> r.reason == AlreadyExists
  {
    var sel := Select(templates, ids);
    RunNoFailures(SameMonth, month, sel, l);
    OnlySkipsRefused(Run(SameMonth, month, sel, {}, l).0);
  }

  lemma {:induction false} OnlySkipsRefused(os: seq<Outcome>)
    requires forall i :: 0 <= i < |os| ==> !os[i].Failed?
    ensures forall r :: r in RefusalsOf(os) ==> r.reason == AlreadyExists
    decreases |os|
  {
    if |os| > 0 {
      OnlySkipsRefused(os[..|os| - 1]);
    }
  }

  // ---------------------------------------------------------------- POST /apply/all

  /** An entry of `monthsProcessed`. */
  datatype MonthTally = MonthTally(month: string, created: nat, skipped: nat)

  /** An entry of `errors`: the month, the template's title and why it failed. */
  datatype RangeError = RangeError(month: string, title: string, reason: Reason)

  /** The 201 response of `apply/all`. */
  datatype RangeReport = RangeReport(totalMonths: nat, monthsProcessed: seq<MonthTally>, totalCreated: nat, errors: seq<RangeError>)

  function SkipCount(os: seq<Outcome>): nat
    decreases |os|
  {
    if |os| == 0 then 0 else SkipCount(os[..|os| - 1]) + if os[|os| - 1].Skipped? then 1 else 0
  }

  /** The caught failures of one month; a duplicate is a skip, not an error. */
  function FailuresOf(month: string, os: seq<Outcome>): seq<RangeError>
    decreases |os|
  {
    if |os| == 0 then []
    else
      var last := os[|os| - 1];
      FailuresOf(month, os[..|os| - 1]) + if last.Failed? then [RangeError(month, last.title, last.reason)] else []
  }

  /**
   * Every failure of a month is tagged with that month, and each outcome is
   * exactly one of created, skipped or failed.
   */
  lemma {:induction false} FailuresOfTagged(month: string, os: seq<Outcome>)
    ensures forall e :: e in FailuresOf(month, os) ==> e.month == month
    ensures |MadeOf(os)| + SkipCount(os) + |FailuresOf(month, os)| == |os|
    decreases |os|
  {
    if |os| > 0 {
      var init, last := os[..|os| - 1], os[|os| - 1];
      FailuresOfTagged(month, init);
      MadeOfSnoc(init, last);
      assert os == init + [last];
    }
  }

  lemma CountsSnoc(month: string, os: seq<Outcome>, o: Outcome)
    ensures SkipCount(os + [o]) == SkipCount(os) + if o.Skipped? then 1 else 0
    ensures FailuresOf(month, os + [o]) == FailuresOf(month, os) + if o.Failed? then [RangeError(month, o.title, o.reason)] else []
  {
    assert (os + [o])[..|os|] == os;
  }

  /** The template positions whose store calls fail in month `k` of the range. */
  function FaultsAt(faults: set<(nat, nat)>, k: nat): (f: set<nat>)
    ensures forall p :: p in f <==> (k, p) in faults
  {
    set pr | pr in faults && pr.0 == k :: pr.1
  }

  function SumCreated(tallies: seq<MonthTally>): nat
    decreases |tallies|
  {
    if |tallies| == 0 then 0 else SumCreated(tallies[..|tallies| - 1]) + tallies[|tallies| - 1].created
  }

  /** The errors recorded for `month`. */
  function ErrorsFor(es: seq<RangeError>, month: string): nat
    decreases |es|
  {
    if |es| == 0 then 0 else ErrorsFor(es[..|es| - 1], month) + if es[|es| - 1].month == month then 1 else 0
  }

  lemma {:induction false} ErrorsForAppend(a: seq<RangeError>, b: seq<RangeError>, month: string)
    ensures ErrorsFor(a + b, month) == ErrorsFor(a, month) + ErrorsFor(b, month)
    decreases |b|
  {
    if |b| == 0 {
      assert a + b == a;
    } else {
      ErrorsForAppend(a, b[..|b| - 1], month);
      assert (a + b)[..|a + b| - 1] == a + b[..|b| - 1];
    }
  }

  lemma {:induction false} ErrorsForCount(es: seq<RangeError>, month: string)
    ensures (forall e :: e in es ==> e.month == month) ==> ErrorsFor(es, month) == |es|
    ensures (forall e :: e in es ==> e.month != month) ==> ErrorsFor(es, month) == 0
    decreases |es|
  {
    if |es| > 0 {
      ErrorsForCount(es[..|es| - 1], month);
      assert es[|es| - 1] in es;
      assert forall e :: e in es[..|es| - 1] ==> e in es;
    }
  }

  /** The tally of one month: `created++` for a made expense, `skipped++` for a duplicate. */
  function Tally(month: string, os: seq<Outcome>): MonthTally {
    MonthTally(month, |MadeOf(os)|, SkipCount(os))
  }

  /**
   * The outer loop of `apply/all` over `months`, each month running the
   * exact-date loop over the same selected templates.
   */
  function RunRange(sel: seq<Template>, months: seq<string>, faults: set<(nat, nat)>, l: Ledger)
    : (res: (seq<MonthTally>, seq<RangeError>, Ledger))
    ensures |res.0| == |months|
    ensures |res.2.rows| == |l.rows| + SumCreated(res.0) && l.rows <= res.2.rows
    ensures res.2.nextId == l.nextId + SumCreated(res.0)
    decreases |months|
  {
    if |months| == 0 then ([], [], l)
    else
      var k := |months| - 1;
      var (tallies, errors, l1) := RunRange(sel, months[..k], faults, l);
      var (os, l2) := Run(SameDate, months[k], sel, FaultsAt(faults, k), l1);
      var tallies' := tallies + [Tally(months[k], os)];
      SumCreatedSnoc(tallies, Tally(months[k], os));
      (tallies', errors + FailuresOf(months[k], os), l2)
  }

  lemma SumCreatedSnoc(tallies: seq<MonthTally>, t: MonthTally)
    ensures SumCreated(tallies + [t]) == SumCreated(tallies) + t.created
  {
    assert (tallies + [t])[..|tallies|] == tallies;
  }

  /** One more month of the range run continues from the state the earlier months left. */
  lemma RunRangeSnoc(sel: seq<Template>, months: seq<string>, k: nat, faults: set<(nat, nat)>, l: Ledger)
    requires k < |months|
    ensures var before := RunRange(sel, months[..k], faults, l);
            var run := Run(SameDate, months[k], sel, FaultsAt(faults, k), before.2);
            RunRange(sel, months[..k + 1], faults, l)
            == (before.0 + [Tally(months[k], run.0)], before.1 + FailuresOf(months[k], run.0), run.1)
  {
    assert months[..k + 1][..k] == months[..k];
  }

  /** Tally `k` is the tally of month `k`. */
  lemma {:induction false} RunRangeMonths(sel: seq<Template>, months: seq<string>, faults: set<(nat, nat)>, l: Ledger)
    ensures forall k :: 0 <= k < |months| ==> RunRange(sel, months, faults, l).0[k].month == months[k]
    decreases |months|
  {
    if |months| > 0 {
      var k := |months| - 1;
      RunRangeMonths(sel, months[..k], faults, l);
      RunRangeSnoc(sel, months, k, faults, l);
      assert months[..k + 1] == months;
      var before := RunRange(sel, months[..k], faults, l);
      var tally := Tally(months[k], Run(SameDate, months[k], sel, FaultsAt(faults, k), before.2).0);
      forall i | 0 <= i < k
        ensures (before.0 + [tally])[i].month == months[i]
      {
        SnocAt(before.0, tally, i);
        assert months[..k][i] == months[i];
      }
    }
  }

  /** Every error is tagged with a month of the range. */
  lemma {:induction false} RunRangeErrorMonths(sel: seq<Template>, months: seq<string>, faults: set<(nat, nat)>, l: Ledger)
    ensures forall e :: e in RunRange(sel, months, faults, l).1 ==> e.month in months
    decreases |months|
  {
    if |months| > 0 {
      var k := |months| - 1;
      RunRangeErrorMonths(sel, months[..k], faults, l);
      var (tallies, errors, l1) := RunRange(sel, months[..k], faults, l);
      var (os, l2) := Run(SameDate, months[k], sel, FaultsAt(faults, k), l1);
      var fails := FailuresOf(months[k], os);
      FailuresOfTagged(months[k], os);
      assert RunRange(sel, months, faults, l).1 == errors + fails;
      assert months[k] in months;
      InitIncluded(months);
      TagsOfConcat(errors, fails, months);
    }
  }

  lemma InitIncluded<T>(s: seq<T>)
    requires |s| > 0
    ensures forall x :: x in s[..|s| - 1] ==> x in s
  {
  }

  lemma TagsOfConcat(a: seq<RangeError>, b: seq<RangeError>, months: seq<string>)
    requires forall e :: e in a ==> e.month in months
    requires forall e :: e in b ==> e.month in months
    ensures forall e :: e in a + b ==> e.month in months
  {
  }

  lemma {:induction false} RunRangeKeepsValid(sel: seq<Template>, months: seq<string>, faults: set<(nat, nat)>, l: Ledger)
    requires LedgerValid(l)
    ensures LedgerValid(RunRange(sel, months, faults, l).2)
    decreases |months|
  {
    if |months| > 0 {
      var k := |months| - 1;
      RunRangeKeepsValid(sel, months[..k], faults, l);
      RunKeepsValid(SameDate, months[k], sel, FaultsAt(faults, k), RunRange(sel, months[..k], faults, l).2);
    }
  }

  /**
   * For distinct months, what month `k` records adds up: its created, its
   * skipped and the errors tagged with it together number the selected
   * templates.
   */
  lemma {:induction false} RangeCountsAddUp(sel: seq<Template>, months: seq<string>, faults: set<(nat, nat)>, l: Ledger)
    requires forall i, j :: 0 <= i < j < |months| ==> months[i] != months[j]
    ensures var (tallies, errors, _) := RunRange(sel, months, faults, l);
            forall k :: 0 <= k < |months| ==>
              tallies[k].created + tallies[k].skipped + ErrorsFor(errors, months[k]) == |sel|
    decreases |months|
  {
    if |months| > 0 {
      var last := |months| - 1;
      var init := months[..last];
      RangeCountsAddUp(sel, init, faults, l);
      RunRangeErrorMonths(sel, init, faults, l);
      RunRangeSnoc(sel, months, last, faults, l);
      assert months[..last + 1] == months;
      var before := RunRange(sel, init, faults, l);
      var os := Run(SameDate, months[last], sel, FaultsAt(faults, last), before.2).0;
      LastNotInInit(months);
      forall k | 0 <= k < |months|
        ensures (before.0 + [Tally(months[last], os)])[k].created + (before.0 + [Tally(months[last], os)])[k].skipped
                + ErrorsFor(before.1 + FailuresOf(months[last], os), months[k]) == |sel|
      {
        CountsAddUpStep(sel, before.0, before.1, months, os, k);
      }
    }
  }

  /**
   * The step of the count: with the counts of all months but the last adding
   * up and the last month new, month `k` adds up too.
   */
  lemma CountsAddUpStep(sel: seq<Template>, tallies: seq<MonthTally>, errors: seq<RangeError>,
                        months: seq<string>, os: seq<Outcome>, k: nat)
    requires 0 <= k < |months| && |tallies| == |months| - 1 && |os| == |sel|
    requires months[|months| - 1] !in months[..|months| - 1]
    requires forall i :: 0 <= i < |months| - 1 ==>
               tallies[i].created + tallies[i].skipped + ErrorsFor(errors, months[..|months| - 1][i]) == |sel|
    requires forall e :: e in errors ==> e.month in months[..|months| - 1]
    ensures var m := months[|months| - 1];
            (tallies + [Tally(m, os)])[k].created + (tallies + [Tally(m, os)])[k].skipped
            + ErrorsFor(errors + FailuresOf(m, os), months[k]) == |sel|
  {
    var m := months[|months| - 1];
    var fails := FailuresOf(m, os);
    FailuresOfTagged(m, os);
    ErrorsForAppend(errors, fails, months[k]);
    ErrorsForCount(fails, months[k]);
    if k == |months| - 1 {
      ErrorsForCount(errors, m);
    } else {
      SnocAt(tallies, Tally(m, os), k);
      assert months[..|months| - 1][k] == months[k];
    }
  }

  /** In a list without repeats, the last element does not occur earlier. */
  lemma LastNotInInit<T>(s: seq<T>)
    requires |s| > 0 && forall i, j :: 0 <= i < j < |s| ==> s[i] != s[j]
    ensures s[|s| - 1] !in s[..|s| - 1]
  {
  }

  /** After a range run without store failures, every selected template is covered in every month of the range. */
  lemma {:induction false} RunRangeCovers(sel: seq<Template>, months: seq<string>, l: Ledger)
    requires forall t :: t in sel ==> IsTrimmed(t.title)
    ensures forall m, t :: m in months && t in sel ==> Covered(SameDate, m, t, RunRange(sel, months, {}, l).2.rows)
    decreases |months|
  {
    if |months| > 0 {
      var k := |months| - 1;
      RunRangeCovers(sel, months[..k], l);
      var (tallies, errors, l1) := RunRange(sel, months[..k], {}, l);
      assert FaultsAt({}, k) == {};
      var (os, l2) := Run(SameDate, months[k], sel, {}, l1);
      assert RunRange(sel, months, {}, l).2 == l2;
      RunCovers(SameDate, months[k], sel, l1);
      RangeCoveredGrows(sel, months[..k], l1.rows, MadeOf(os));
      RangeCoveredSnoc(sel, months, l2.rows);
    }
  }

  lemma RangeCoveredGrows(sel: seq<Template>, months: seq<string>, rows: seq<Expense>, more: seq<Expense>)
    requires forall m, t :: m in months && t in sel ==> Covered(SameDate, m, t, rows)
    ensures forall m, t :: m in months && t in sel ==> Covered(SameDate, m, t, rows + more)
  {
    forall m, t | m in months && t in sel
      ensures Covered(SameDate, m, t, rows + more)
    {
      CoveredGrows(SameDate, m, t, rows, more);
    }
  }

  lemma RangeCoveredSnoc(sel: seq<Template>, months: seq<string>, rows: seq<Expense>)
    requires |months| > 0
    requires forall m, t :: m in months[..|months| - 1] && t in sel ==> Covered(SameDate, m, t, rows)
    requires forall t :: t in sel ==> Covered(SameDate, months[|months| - 1], t, rows)
    ensures forall m, t :: m in months && t in sel ==> Covered(SameDate, m, t, rows)
  {
    InLastOrInit(months);
  }

  /** A range run over templates covered in every month creates nothing. */
  lemma {:induction false} RunRangeOnCovered(sel: seq<Template>, months: seq<string>, faults: set<(nat, nat)>, l: Ledger)
    requires forall m, t :: m in months && t in sel ==> Covered(SameDate, m, t, l.rows)
    ensures RunRange(sel, months, faults, l).2 == l
    ensures SumCreated(RunRange(sel, months, faults, l).0) == 0
    decreases |months|
  {
    if |months| > 0 {
      var k := |months| - 1;
      RunRangeOnCovered(sel, months[..k], faults, l);
      RunOnCovered(SameDate, months[k], sel, FaultsAt(faults, k), l);
    }
  }

  /** `${y}-${String(m).padStart(2, '0')}` for the `k` months from `start` on. */
  function MonthStrings(start: YearMonth, n: nat): (ms: seq<string>)
    ensures |ms| == n
  {
    if n == 0 then [] else MonthStrings(start, n - 1) + [MonthString(MonthAfter(start, n - 1))]
  }

  /** Entry `k` of the list is the month `k` steps after the start. */
  lemma {:induction false} MonthStringsAt(start: YearMonth, n: nat, k: nat)
    requires k < n
    ensures MonthStrings(start, n)[k] == MonthString(MonthAfter(start, k))
    decreases n
  {
    var init := MonthStrings(start, n - 1);
    assert MonthStrings(start, n) == init + [MonthString(MonthAfter(start, n - 1))];
    if k < n - 1 {
      MonthStringsAt(start, n - 1, k);
      SnocAt(init, MonthString(MonthAfter(start, n - 1)), k);
    }
  }

  lemma SnocAt<T>(s: seq<T>, x: T, k: nat)
    requires k < |s|
    ensures (s + [x])[k] == s[k]
  {
  }

  /** The last month of the range: `endMonth`, or by default the current month two years ahead. */
  function RangeEnd(now: Instant, endMonth: string): YearMonth
    requires endMonth == "" || MonthShape(endMonth)
  {
    if endMonth == "" then YearMonth(now.ym.year + 2, now.ym.month) else ParseYearMonth(endMonth)
  }

  /**
   * The `months` list: from `startMonth` up to and including the end month
   * (`endMonth`, or by default the current month two years ahead), at most
   * 25 of them. A start or end month number outside 1..12 is an Invalid Date,
   * against which no comparison holds, so the list is then empty.
   */
  function PlannedMonths(now: Instant, startMonth: string, endMonth: string): (months: seq<string>)
    requires ValidMonth(now.ym) && MonthShape(startMonth) && (endMonth == "" || MonthShape(endMonth))
    ensures |months| <= MonthCap + 1
  {
    var start := ParseYearMonth(startMonth);
    var last := RangeEnd(now, endMonth);
    if ValidMonth(start) && ValidMonth(last) then MonthStrings(start, SpanLength(start, last)) else []
  }

  /** For a four-digit year, the first planned month is the start month itself. */
  lemma PlannedMonthsStart(now: Instant, startMonth: string, endMonth: string)
    requires ValidMonth(now.ym) && MonthShape(startMonth) && (endMonth == "" || MonthShape(endMonth))
    requires ValidMonth(ParseYearMonth(startMonth)) && ParseYearMonth(startMonth).year >= 1000
    ensures var months := PlannedMonths(now, startMonth, endMonth);
            |months| > 0 ==> months[0] == startMonth
  {
    var start := ParseYearMonth(startMonth);
    var last := RangeEnd(now, endMonth);
    if |PlannedMonths(now, startMonth, endMonth)| > 0 {
      MonthStringsAt(start, SpanLength(start, last), 0);
      FromIndexOfIndex(start);
      FourDigitsBound(startMonth[..4]);
      MonthStringRoundTrip(start);
      MonthShapeDeterminedByParse(MonthString(start), startMonth);
    }
  }

  /**
   * The planned months are consecutive calendar months, December followed by
   * January, and no two of them are equal.
   */
  lemma PlannedMonthsConsecutive(now: Instant, startMonth: string, endMonth: string)
    requires ValidMonth(now.ym) && MonthShape(startMonth) && (endMonth == "" || MonthShape(endMonth))
    ensures
      var start := ParseYearMonth(startMonth);
      var months := PlannedMonths(now, startMonth, endMonth);
      && (forall k :: 0 <= k < |months| - 1 ==> months[k + 1] == MonthString(Next(MonthAfter(start, k))))
      && (forall i, j :: 0 <= i < j < |months| ==> months[i] != months[j])
  {
    var start := ParseYearMonth(startMonth);
    var last := RangeEnd(now, endMonth);
    if ValidMonth(start) && ValidMonth(last) {
      MonthStringsConsecutive(start, SpanLength(start, last));
      MonthStringsDistinct(start, SpanLength(start, last));
    }
  }

  lemma MonthStringsConsecutive(start: YearMonth, n: nat)
    ensures forall k :: 0 <= k < n - 1 ==> MonthStrings(start, n)[k + 1] == MonthString(Next(MonthAfter(start, k)))
  {
    forall k | 0 <= k < n - 1
      ensures MonthStrings(start, n)[k + 1] == MonthString(Next(MonthAfter(start, k)))
    {
      MonthStringsStep(start, n, k);
    }
  }

  lemma MonthStringsStep(start: YearMonth, n: nat, k: nat)
    requires k < n - 1
    ensures MonthStrings(start, n)[k + 1] == MonthString(Next(MonthAfter(start, k)))
  {
    MonthStringsAt(start, n, k + 1);
    MonthAfterNext(start, k);
  }

  lemma MonthStringsDistinct(start: YearMonth, n: nat)
    ensures forall i, j :: 0 <= i < j < n ==> MonthStrings(start, n)[i] != MonthStrings(start, n)[j]
  {
    forall i, j | 0 <= i < j < n
      ensures MonthStrings(start, n)[i] != MonthStrings(start, n)[j]
    {
      MonthStringsAt(start, n, i);
      MonthStringsAt(start, n, j);
      if MonthStrings(start, n)[i] == MonthStrings(start, n)[j] {
        MonthStringInjective(MonthAfter(start, i), MonthAfter(start, j));
      }
    }
  }

  /** The planned months, as strings, are the span of calendar months from the start to the end of the range. */
  lemma PlannedMonthsAreSpan(now: Instant, startMonth: string, endMonth: string)
    requires ValidMonth(now.ym) && MonthShape(startMonth) && (endMonth == "" || MonthShape(endMonth))
    requires ValidMonth(ParseYearMonth(startMonth)) && ValidMonth(RangeEnd(now, endMonth))
    ensures var months := PlannedMonths(now, startMonth, endMonth);
            var span := MonthSpan(ParseYearMonth(startMonth), RangeEnd(now, endMonth));
            |months| == |span| && forall k :: 0 <= k < |span| ==> months[k] == MonthString(span[k])
  {
    var start, last := ParseYearMonth(startMonth), RangeEnd(now, endMonth);
    var n := SpanLength(start, last);
    forall k | 0 <= k < n
      ensures MonthStrings(start, n)[k] == MonthString(MonthSpan(start, last)[k])
    {
      MonthStringsAt(start, n, k);
    }
  }

  /**
   * An end of range within 24 months of a real start month is the last
   * planned month, whether `endMonth` names it or it is the default two years
   * ahead of the current month.
   */
  lemma PlannedMonthsReachEnd(now: Instant, startMonth: string, endMonth: string)
    requires ValidMonth(now.ym) && MonthShape(startMonth) && (endMonth == "" || MonthShape(endMonth))
    requires ValidMonth(ParseYearMonth(startMonth)) && ValidMonth(RangeEnd(now, endMonth))
    requires 0 <= Index(RangeEnd(now, endMonth)) - Index(ParseYearMonth(startMonth)) <= MonthCap
    ensures var months := PlannedMonths(now, startMonth, endMonth);
            |months| > 0 && months[|months| - 1] == MonthString(RangeEnd(now, endMonth))
  {
    var start, last := ParseYearMonth(startMonth), RangeEnd(now, endMonth);
    PlannedMonthsAreSpan(now, startMonth, endMonth);
    MonthSpanBounds(start, last);
  }

  /**
   * Without `endMonth`, a start month the guard accepts (not begun before
   * `now`) and not past the default end leaves the 25-month cap unreached: the
   * planned months run all the way to the current month two years ahead.
   */
  lemma DefaultRangeReachesEnd(now: Instant, startMonth: string)
    requires ValidMonth(now.ym) && MonthShape(startMonth) && ValidMonth(ParseYearMonth(startMonth))
    requires !FirstInstantBefore(ParseYearMonth(startMonth), now)
    requires Index(ParseYearMonth(startMonth)) <= Index(now.ym) + 24
    ensures var months := PlannedMonths(now, startMonth, "");
            |months| > 0 && months[|months| - 1] == MonthString(YearMonth(now.ym.year + 2, now.ym.month))
  {
    LaterMonthsNotBefore(ParseYearMonth(startMonth), now);
    PlannedMonthsReachEnd(now, startMonth, "");
  }

  /** A shape-valid month string is determined by the numbers it spells. */
  lemma MonthShapeDeterminedByParse(a: string, b: string)
    requires MonthShape(a) && MonthShape(b) && ParseYearMonth(a) == ParseYearMonth(b)
    ensures a == b
  {
    DigitsInjective(a[..4], b[..4]);
    DigitsInjective(a[5..], b[5..]);
    assert a == a[..4] + "-" + a[5..];
    assert b == b[..4] + "-" + b[5..];
  }

  /** Two digit strings of the same length that denote the same number are equal. */
  lemma {:induction false} DigitsInjective(a: string, b: string)
    requires AllDigits(a) && AllDigits(b) && |a| == |b| && DigitsValue(a) == DigitsValue(b)
    ensures a == b
    decreases |a|
  {
    if |a| > 0 {
      var n := |a| - 1;
      LastDigit(DigitsValue(a[..n]), DigitValue(a[n]), DigitsValue(b[..n]), DigitValue(b[n]));
      DigitsInjective(a[..n], b[..n]);
      forall k | 0 <= k < |a|
        ensures a[k] == b[k]
      {
        if k < n {
          assert a[..n][k] == b[..n][k];
        } else {
          DigitValueInjective(a[n], b[n]);
        }
      }
    }
  }

  lemma DigitValueInjective(c: char, d: char)
    requires IsDigit(c) && IsDigit(d) && DigitValue(c) == DigitValue(d)
    ensures c == d
  {
  }

  /** A number's last decimal digit and the number before it are determined by the number. */
  lemma LastDigit(x: nat, d: nat, y: nat, e: nat)
    requires d < 10 && e < 10 && x * 10 + d == y * 10 + e
    ensures x == y && d == e
  {
  }

  /**
   * `POST /apply/all`: 400 for a missing or shape-invalid `startMonth`; 400
   * when the first instant of a real start month lies before `now`, which
   * the current month's does after its first millisecond; otherwise the
   * range run over the planned months.
   */
  function ApplyAllSpec(
    l: Ledger, templates: seq<Template>, now: Instant, startMonth: string, endMonth: string,
    ids: Option<seq<nat>>, faults: set<(nat, nat)>)
    : (res: (Result<RangeReport, HttpError>, Ledger))
    requires ValidMonth(now.ym) && (endMonth == "" || MonthShape(endMonth))
    ensures res.0.Failure? <==>
              !MonthShape(startMonth)
              || (ValidMonth(ParseYearMonth(startMonth)) && FirstInstantBefore(ParseYearMonth(startMonth), now))
    ensures res.0.Failure? ==> res == (Failure(BadRequest), l)
    ensures res.0.Success? ==>
              var report := res.0.value;
              && report.totalMonths == |PlannedMonths(now, startMonth, endMonth)| == |report.monthsProcessed|
              && report.totalCreated == SumCreated(report.monthsProcessed)
              && |res.1.rows| == |l.rows| + report.totalCreated && l.rows <= res.1.rows
  {
    if startMonth == "" || !MonthShape(startMonth) then (Failure(BadRequest), l)
    else if ValidMonth(ParseYearMonth(startMonth)) && FirstInstantBefore(ParseYearMonth(startMonth), now) then
      (Failure(BadRequest), l)
    else
      var months := PlannedMonths(now, startMonth, endMonth);
      var (tallies, errors, l') := RunRange(Select(templates, ids), months, faults, l);
      (Success(RangeReport(|months|, tallies, SumCreated(tallies), errors)), l')
  }

  /** The report lists the planned months in order, and tags every error with one of them. */
  lemma ApplyAllReportsPlannedMonths(
    l: Ledger, templates: seq<Template>, now: Instant, startMonth: string, endMonth: string,
    ids: Option<seq<nat>>, faults: set<(nat, nat)>)
    requires ValidMonth(now.ym) && (endMonth == "" || MonthShape(endMonth))
    requires ApplyAllSpec(l, templates, now, startMonth, endMonth, ids, faults).0.Success?
    ensures
      var report := ApplyAllSpec(l, templates, now, startMonth, endMonth, ids, faults).0.value;
      var months := PlannedMonths(now, startMonth, endMonth);
      && (forall k :: 0 <= k < |months| ==> report.monthsProcessed[k].month == months[k])
      && (forall e :: e in report.errors ==> e.month in months)
  {
    var months := PlannedMonths(now, startMonth, endMonth);
    RunRangeMonths(Select(templates, ids), months, faults, l);
    RunRangeErrorMonths(Select(templates, ids), months, faults, l);
  }

  /** Applying a range keeps the expense collection valid. */
  lemma ApplyAllKeepsValid(
    l: Ledger, templates: seq<Template>, now: Instant, startMonth: string, endMonth: string,
    ids: Option<seq<nat>>, faults: set<(nat, nat)>)
    requires ValidMonth(now.ym) && (endMonth == "" || MonthShape(endMonth))
    requires LedgerValid(l)
    ensures LedgerValid(ApplyAllSpec(l, templates, now, startMonth, endMonth, ids, faults).1)
  {
    if MonthShape(startMonth) {
      RunRangeKeepsValid(Select(templates, ids), PlannedMonths(now, startMonth, endMonth), faults, l);
    }
  }

  /** Every month string of the plan is distinct, so each month's counts add up to the number of selected templates. */
  lemma ApplyAllCountsAddUp(
    l: Ledger, templates: seq<Template>, now: Instant, startMonth: string, endMonth: string,
    ids: Option<seq<nat>>, faults: set<(nat, nat)>)
    requires ValidMonth(now.ym) && (endMonth == "" || MonthShape(endMonth))
    requires ApplyAllSpec(l, templates, now, startMonth, endMonth, ids, faults).0.Success?
    ensures
      var report := ApplyAllSpec(l, templates, now, startMonth, endMonth, ids, faults).0.value;
      forall k :: 0 <= k < |report.monthsProcessed| ==>
        report.monthsProcessed[k].created + report.monthsProcessed[k].skipped
        + ErrorsFor(report.errors, report.monthsProcessed[k].month) == |Select(templates, ids)|
  {
    var sel := Select(templates, ids);
    var months := PlannedMonths(now, startMonth, endMonth);
    PlannedMonthsConsecutive(now, startMonth, endMonth);
    RangeCountsAddUp(sel, months, faults, l);
    RunRangeMonths(sel, months, faults, l);
    var (tallies, errors, _) := RunRange(sel, months, faults, l);
    assert ApplyAllSpec(l, templates, now, startMonth, endMonth, ids, faults).0.value
           == RangeReport(|months|, tallies, SumCreated(tallies), errors);
  }

  /** The only future-dated month the start check lets through is the next month or later; the current month is refused. */
  lemma CurrentMonthRefused(l: Ledger, templates: seq<Template>, now: Instant, ids: Option<seq<nat>>, faults: set<(nat, nat)>)
    requires ValidMonth(now.ym) && 1000 <= now.ym.year <= 9999 && now.elapsed > 0
    ensures ApplyAllSpec(l, templates, now, MonthString(now.ym), "", ids, faults).0 == Failure(BadRequest)
  {
    MonthStringRoundTrip(now.ym);
  }

  /** After a range run without store failures, a second identical request creates nothing. */
  lemma ApplyAllIdempotent(
    l: Ledger, templates: seq<Template>, now: Instant, startMonth: string, endMonth: string,
    ids: Option<seq<nat>>, faults: set<(nat, nat)>)
    requires ValidMonth(now.ym) && (endMonth == "" || MonthShape(endMonth))
    requires forall t :: t in templates ==> IsTrimmed(t.title)
    ensures
      var (_, l1) := ApplyAllSpec(l, templates, now, startMonth, endMonth, ids, {});
      var (r2, l2) := ApplyAllSpec(l1, templates, now, startMonth, endMonth, ids, faults);
      l2 == l1 && (r2.Success? ==> r2.value.totalCreated == 0)
  {
    var (r1, l1) := ApplyAllSpec(l, templates, now, startMonth, endMonth, ids, {});
    if r1.Success? {
      var sel := Select(templates, ids);
      var months := PlannedMonths(now, startMonth, endMonth);
      RunRangeCovers(sel, months, l);
      RunRangeOnCovered(sel, months, faults, l1);
    }
  }
}
