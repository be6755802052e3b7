/**
 * The salary handlers over a table of one amount per month: list newest month
 * first, read a month (0 when none is stored), upsert, update an existing
 * month's amount, delete.
 */
module SalaryRoutes {
  import opened Wrappers
  import opened Text
  import opened Sorting
  import opened Calendar
  import opened SalaryModel
  import opened Http

  /** The `amount` of a request body: absent, not a number, or a number. */
  datatype AmountField = Missing | Unparsable | Number(value: int)

  /** `parseFloat(amount) || 0`: a value that does not parse becomes 0. */
  function ParsedAmount(a: AmountField): (v: int)
    requires !a.Missing?
    ensures a.Unparsable? ==> v == 0
    ensures a.Number? ==> v == a.value
  {
    if a.Number? then a.value else 0
  }

  /** GET /:month: the stored record, or the month with amount 0 when there is none; nothing is stored. */
  function Lookup(table: map<string, int>, month: string): (s: Salary)
    ensures s.month == month
    ensures s.amount == if month in table then table[month] else DefaultAmount
    ensures TableValid(table) && MonthShape(month) ==> SalaryValid(s)
  {
    Salary(month, if month in table then table[month] else DefaultAmount)
  }

  /**
   * POST /: 400 unless a non-empty month and an amount are given; then an
   * upsert whose validators check the month's shape and that the parsed
   * amount is not negative. On success the month holds the parsed amount,
   * whether or not it held one before.
   */
  function Posted(table: map<string, int>, month: Option<string>, amount: AmountField)
    : (res: (Result<Salary, HttpError>, map<string, int>))
    ensures res.0.Success? <==>
              && month.Some? && month.value != "" && !amount.Missing?
              && MonthShape(month.value) && ParsedAmount(amount) >= 0
    ensures res.0.Failure? ==> res.0 == Failure(BadRequest) && res.1 == table
    ensures res.0.Success? ==>
              && res.0.value == Salary(month.value, ParsedAmount(amount))
              && res.1.Keys == table.Keys + {month.value}
              && res.1[month.value] == ParsedAmount(amount)
              && (forall m :: m in table && m != month.value ==> res.1[m] == table[m])
    ensures TableValid(table) ==> TableValid(res.1)
  {
    if month.None? || month.value == "" || amount.Missing? then (Failure(BadRequest), table)
    else
      var s := Salary(month.value, ParsedAmount(amount));
      if SalaryValid(s) then
        StoreKeepsTableValid(table, s);
        (Success(s), table[month.value := s.amount])
      else (Failure(BadRequest), table)
  }

  /**
   * PUT /:month: 400 when the amount is absent or its parsed value negative
   * (validation runs before the lookup); 404 when the month holds nothing;
   * otherwise only that month's amount changes. No month is ever created.
   */
  function Amended(table: map<string, int>, month: string, amount: AmountField)
    : (res: (Result<Salary, HttpError>, map<string, int>))
    ensures res.1.Keys == table.Keys
    ensures amount.Missing? || ParsedAmount(amount) < 0 ==> res.0 == Failure(BadRequest) && res.1 == table
    ensures !amount.Missing? && ParsedAmount(amount) >= 0 && month !in table ==>
              res.0 == Failure(NotFound) && res.1 == table
    ensures !amount.Missing? && ParsedAmount(amount) >= 0 && month in table ==>
              && res.0 == Success(Salary(month, ParsedAmount(amount)))
              && res.1[month] == ParsedAmount(amount)
              && (forall m :: m in table && m != month ==> res.1[m] == table[m])
    ensures TableValid(table) ==> TableValid(res.1)
  {
    if amount.Missing? || ParsedAmount(amount) < 0 then (Failure(BadRequest), table)
    else if month !in table then (Failure(NotFound), table)
    else (Success(Salary(month, ParsedAmount(amount))), table[month := ParsedAmount(amount)])
  }

  /** DELETE /:month: 404 when the month holds nothing; otherwise that month alone is removed. */
  function Removed(table: map<string, int>, month: string): (res: (Result<Salary, HttpError>, map<string, int>))
    ensures res.0.Success? <==> month in table
    ensures res.0.Failure? ==> res.0 == Failure(NotFound) && res.1 == table
    ensures res.0.Success? ==> res.0.value == Salary(month, table[month]) && res.1.Keys == table.Keys - {month}
    ensures forall m :: m in res.1 ==> m != month && m in table && res.1[m] == table[m]
    ensures TableValid(table) ==> TableValid(res.1)
  {
    if month !in table then (Failure(NotFound), table)
    else (Success(Salary(month, table[month])), table - {month})
  }

  /** `sort({ month: -1 })`: `a` may be listed before `b` when its month is not smaller. */
  predicate LaterMonth(a: Salary, b: Salary) {
    !Less(a.month, b.month)
  }

  lemma LaterMonthIsTotalPreorder()
    ensures TotalPreorder(LaterMonth)
  {
    forall a: Salary, b: Salary
      ensures LaterMonth(a, b) || LaterMonth(b, a)
    {
      LessAsymmetric(a.month, b.month);
    }
    forall a: Salary, b: Salary, c: Salary | LaterMonth(a, b) && LaterMonth(b, c)
      ensures LaterMonth(a, c)
    {
      LessTotal(a.month, b.month);
      LessTotal(b.month, c.month);
      if Less(c.month, b.month) && Less(b.month, a.month) {
        LessTransitive(c.month, b.month, a.month);
      }
      if Less(a.month, c.month) {
        LessAsymmetric(a.month, c.month);
        if a.month == c.month {
          LessIrreflexive(a.month);
        }
      }
    }
  }

  /** An element that occurs at two positions occurs twice in the multiset. */
  lemma RepeatCounted<T>(s: seq<T>, i: nat, j: nat)
    requires i < j < |s| && s[i] == s[j]
    ensures multiset(s)[s[i]] >= 2
  {
    assert s == s[..j] + s[j..];
    assert s[i] in s[..j] && s[j] == s[j..][0];
    assert multiset(s) == multiset(s[..j]) + multiset(s[j..]);
  }

  /** A listing ordered by `LaterMonth` with no repeated record and one amount per month is strictly newest first. */
  lemma StrictlyNewestFirst(list: seq<Salary>, table: map<string, int>)
    requires Listed(list, {}, table)
    ensures forall i, j :: 0 <= i < j < |list| ==> Less(list[j].month, list[i].month)
  {
    forall i, j | 0 <= i < j < |list|
      ensures Less(list[j].month, list[i].month)
    {
      if list[i].month == list[j].month {
        assert list[i] == list[j];
        RepeatCounted(list, i, j);
        assert false;
      }
      LessTotal(list[i].month, list[j].month);
    }
  }

  /**
   * Partway through the listing: the records of the months no longer in
   * `left` are listed, each once, ordered by `LaterMonth`.
   */
  ghost predicate Listed(list: seq<Salary>, left: set<string>, table: map<string, int>) {
    && left <= table.Keys
    && (forall s :: s in list ==> s.month in table && s.month !in left && s.amount == table[s.month])
    && (forall m :: m in table && m !in left ==> Salary(m, table[m]) in list)
    && |list| + |left| == |table|
    && SortedBy(list, LaterMonth)
    && (forall s :: multiset(list)[s] <= 1)
  }

  /** Inserting the record of one more month keeps the listing invariant. */
  lemma ListedStep(list: seq<Salary>, left: set<string>, table: map<string, int>, m: string)
    requires Listed(list, left, table) && m in left
    ensures Listed(Insert(Salary(m, table[m]), list, LaterMonth), left - {m}, table)
  {
    LaterMonthIsTotalPreorder();
    InsertKeepsSorted(Salary(m, table[m]), list, LaterMonth);
    InsertedOnce(list, Salary(m, table[m]));
  }

  /** Inserting a record not yet listed adds exactly that record, once. */
  lemma InsertedOnce(list: seq<Salary>, s: Salary)
    requires s !in list && forall x :: multiset(list)[x] <= 1
    ensures var next := Insert(s, list, LaterMonth);
            && (forall x :: x in next <==> x in list || x == s)
            && (forall x :: multiset(next)[x] <= 1)
            && |next| == |list| + 1
  {
    var next := Insert(s, list, LaterMonth);
    assert multiset(next) == multiset(list) + multiset{s};
    forall x
      ensures x in next <==> x in list || x == s
    {
      assert x in next <==> x in multiset(next);
      assert x in list <==> x in multiset(list);
    }
    assert |next| == |multiset(next)|;
  }

  /** The salary collection: one amount per month, the month being the unique key. */
  class SalaryTable {
    var byMonth: map<string, int>

    predicate Valid()
      reads this
    {
      TableValid(byMonth)
    }

    constructor ()
      ensures Valid() && byMonth == map[]
    {
      byMonth := map[];
    }

    /** GET /: every stored record exactly once, months strictly descending. */
    method ListAll() returns (list: seq<Salary>)
      ensures forall s :: s in list <==> s.month in byMonth && s.amount == byMonth[s.month]
      ensures |list| == |byMonth|
      ensures forall i, j :: 0 <= i < j < |list| ==> Less(list[j].month, list[i].month)
    {
      var left := byMonth.Keys;
      list := [];
      while left != {}
        invariant Listed(list, left, byMonth)
        decreases left
      {
        var m :| m in left;
        ListedStep(list, left, byMonth, m);
        list := Insert(Salary(m, byMonth[m]), list, LaterMonth);
        left := left - {m};
      }
      StrictlyNewestFirst(list, byMonth);
    }

    /** GET /:month */
    function Read(month: string): (s: Salary)
      reads this
      ensures s == Lookup(byMonth, month)
      ensures Valid() && MonthShape(month) ==> SalaryValid(s)
    {
      Salary(month, if month in byMonth then byMonth[month] else DefaultAmount)
    }

    /** POST / */
    method Post(month: Option<string>, amount: AmountField) returns (r: Result<Salary, HttpError>)
      requires Valid()
      modifies this
      ensures Valid()
      ensures (r, byMonth) == Posted(old(byMonth), month, amount)
    {
      if month.None? || month.value == "" || amount.Missing? {
        return Failure(BadRequest);
      }
      var s := Salary(month.value, ParsedAmount(amount));
      if !MonthShape(s.month) || s.amount < 0 {
        return Failure(BadRequest);
      }
      byMonth := byMonth[s.month := s.amount];
      r := Success(s);
    }

    /** PUT /:month */
    method Put(month: string, amount: AmountField) returns (r: Result<Salary, HttpError>)
      requires Valid()
      modifies this
      ensures Valid()
      ensures (r, byMonth) == Amended(old(byMonth), month, amount)
    {
      if amount.Missing? || ParsedAmount(amount) < 0 {
        return Failure(BadRequest);
      }
      if month !in byMonth {
        return Failure(NotFound);
      }
      byMonth := byMonth[month := ParsedAmount(amount)];
      r := Success(Salary(month, byMonth[month]));
    }

    /** DELETE /:month */
    method Delete(month: string) returns (r: Result<Salary, HttpError>)
      requires Valid()
      modifies this
      ensures Valid()
      ensures (r, byMonth) == Removed(old(byMonth), month)
    {
      if month !in byMonth {
        return Failure(NotFound);
      }
      r := Success(Salary(month, byMonth[month]));
      byMonth := byMonth - {month};
    }
  }

  // ---------------------------------------------------------------- how the handlers combine

  /** A successful upsert is what a following read reports. */
  lemma PostThenRead(table: map<string, int>, month: Option<string>, amount: AmountField)
    requires Posted(table, month, amount).0.Success?
    ensures Lookup(Posted(table, month, amount).1, month.value) == Posted(table, month, amount).0.value
  {
  }

  /** A successful update is what a following read reports. */
  lemma PutThenRead(table: map<string, int>, month: string, amount: AmountField)
    requires Amended(table, month, amount).0.Success?
    ensures Lookup(Amended(table, month, amount).1, month) == Amended(table, month, amount).0.value
  {
  }

  /** Posting the same month and amount twice leaves the table as posting once. */
  lemma PostIdempotent(table: map<string, int>, month: Option<string>, amount: AmountField)
    ensures Posted(Posted(table, month, amount).1, month, amount) == Posted(table, month, amount)
  {
    var (r, t) := Posted(table, month, amount);
    if r.Success? {
      assert t[month.value := r.value.amount] == t;
    }
  }

  /** After a delete, a read reports the default amount, and an update of that month is not found. */
  lemma DeleteThenReadAndPut(table: map<string, int>, month: string, amount: AmountField)
    requires !amount.Missing? && ParsedAmount(amount) >= 0
    ensures Lookup(Removed(table, month).1, month) == Salary(month, DefaultAmount)
    ensures Amended(Removed(table, month).1, month, amount).0 == Failure(NotFound)
  {
  }

  /** An amount that does not parse is stored as 0, not refused. */
  lemma UnparsableAmountStoresZero(table: map<string, int>, month: string)
    requires MonthShape(month)
    ensures Posted(table, Some(month), Unparsable) == (Success(Salary(month, 0)), table[month := 0])
  {
  }
}
