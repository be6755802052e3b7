/**
 * The expense collection and its handlers: listing with an optional month
 * prefix filter, newest first, and create, read, update and delete by id with
 * 400 on a validation failure and 404 on an unknown id.
 */
module ExpenseRoutes {
  import opened Wrappers
  import opened Text
  import opened Sorting
  import opened ExpenseModel
  import opened Http

  /** The contents of the collection: its rows in insertion order and the next id to hand out. */
  datatype Ledger = Ledger(rows: seq<Expense>, nextId: nat)

  /** Every stored row satisfies the schema; ids are distinct and below `nextId`. */
  predicate LedgerValid(l: Ledger) {
    && (forall i :: 0 <= i < |l.rows| ==> l.rows[i].id < l.nextId && ExpenseValid(l.rows[i].data))
    && (forall i, j :: 0 <= i < j < |l.rows| ==> l.rows[i].id != l.rows[j].id)
  }

  predicate HasId(rows: seq<Expense>, id: nat) {
    exists e :: e in rows && e.id == id
  }

  /**
   * `new Expense(body).save()`: a body that passes validation is stored under
   * a fresh id, appended after every existing row; any other is refused with
   * 400 and the collection is left as it was.
   */
  function Saved(l: Ledger, b: ExpenseBody): (res: (Result<Expense, HttpError>, Ledger))
    ensures res.0.Success? <==> AdmitExpense(b).Some?
    ensures res.0.Success? ==>
              && res.0.value == Expense(l.nextId, l.nextId, AdmitExpense(b).value)
              && res.1 == Ledger(l.rows + [res.0.value], l.nextId + 1)
    ensures res.0.Failure? ==> res.0.error == BadRequest && res.1 == l
  {
    match AdmitExpense(b)
    case None => (Failure(BadRequest), l)
    case Some(d) =>
      var e := Expense(l.nextId, l.nextId, d);
      (Success(e), Ledger(l.rows + [e], l.nextId + 1))
  }

  /** Saving keeps the collection valid: the new row passed validation and its id is fresh. */
  lemma SavedKeepsValid(l: Ledger, b: ExpenseBody)
    requires LedgerValid(l)
    ensures LedgerValid(Saved(l, b).1)
  {
    var (r, l') := Saved(l, b);
    if r.Success? {
      var rows := l'.rows;
      assert rows == l.rows + [r.value];
      forall i | 0 <= i < |rows|
        ensures rows[i].id < l'.nextId && ExpenseValid(rows[i].data)
      {
        if i < |l.rows| {
          assert rows[i] == l.rows[i];
        }
      }
      forall i, j | 0 <= i < j < |rows|
        ensures rows[i].id != rows[j].id
      {
        assert rows[i] == l.rows[i];
        if j < |l.rows| {
          assert rows[j] == l.rows[j];
        }
      }
    }
  }

  /** `findById`: the row with that id, if there is one. */
  function Find(rows: seq<Expense>, id: nat): (r: Option<Expense>)
    ensures r.Some? ==> r.value in rows && r.value.id == id
    ensures r.None? <==> !HasId(rows, id)
    decreases |rows|
  {
    if |rows| == 0 then None
    else if rows[0].id == id then Some(rows[0])
    else
      assert forall e :: e in rows ==> e == rows[0] || e in rows[1..];
      Find(rows[1..], id)
  }

  /** The rows without the one that has id `id`; the others keep their order and contents. */
  function Without(rows: seq<Expense>, id: nat): (r: seq<Expense>)
    ensures forall e :: e in r <==> e in rows && e.id != id
    ensures |r| <= |rows|
    decreases |rows|
  {
    if |rows| == 0 then []
    else
      var rest := Without(rows[..|rows| - 1], id);
      var last := rows[|rows| - 1];
      assert rows == rows[..|rows| - 1] + [last];
      if last.id == id then rest else rest + [last]
  }

  /** With distinct ids, removing a present id removes exactly one row. */
  lemma {:induction false} WithoutRemovesOne(rows: seq<Expense>, id: nat)
    requires forall i, j :: 0 <= i < j < |rows| ==> rows[i].id != rows[j].id
    ensures |Without(rows, id)| == if HasId(rows, id) then |rows| - 1 else |rows|
    decreases |rows|
  {
    if |rows| > 0 {
      var init, last := rows[..|rows| - 1], rows[|rows| - 1];
      assert rows == init + [last];
      WithoutRemovesOne(init, id);
      if last.id == id {
        assert !HasId(init, id) by {
          forall e | e in init ensures e.id != id {
            var k :| 0 <= k < |init| && init[k] == e;
            assert rows[k] == e;
          }
        }
      } else if HasId(rows, id) {
        var e :| e in rows && e.id == id;
        assert e in init;
      }
    }
  }

  /** `findByIdAndUpdate`: the row with id `id` patched in place, every other row as it was. */
  function Replaced(rows: seq<Expense>, id: nat, b: ExpenseBody): (r: seq<Expense>)
    ensures |r| == |rows|
    ensures forall i :: 0 <= i < |rows| ==>
              r[i] == if rows[i].id == id then Expense(id, rows[i].createdAt, Patched(rows[i].data, b)) else rows[i]
  {
    seq(|rows|, i requires 0 <= i < |rows| =>
      if rows[i].id == id then Expense(id, rows[i].createdAt, Patched(rows[i].data, b)) else rows[i])
  }

  /** The collection the handlers work on. */
  class ExpenseCollection {
    var rows: seq<Expense>
    var nextId: nat

    function State(): Ledger
      reads this
    {
      Ledger(rows, nextId)
    }

    predicate Valid()
      reads this
    {
      LedgerValid(State())
    }

    constructor ()
      ensures Valid() && rows == [] && nextId == 0
    {
      rows, nextId := [], 0;
    }

    /** POST /: 201 with the stored expense, or 400 when validation fails. */
    method Create(b: ExpenseBody) returns (r: Result<Expense, HttpError>)
      modifies this
      ensures (r, State()) == Saved(old(State()), b)
      ensures old(Valid()) ==> Valid()
    {
      ghost var before := State();
      ghost var after := Saved(before, b).1;
      if Valid() {
        SavedKeepsValid(before, b);
      }
      var d := AdmitExpense(b);
      if d.None? {
        return Failure(BadRequest);
      }
      var e := Expense(nextId, nextId, d.value);
      rows, nextId := rows + [e], nextId + 1;
      r := Success(e);
      assert State() == after;
    }

    /** GET /:id: the expense with that id, or 404. */
    function Get(id: nat): (r: Result<Expense, HttpError>)
      reads this
      ensures r.Success? <==> HasId(rows, id)
      ensures r.Success? ==> r.value in rows && r.value.id == id
      ensures r.Failure? ==> r == Failure(NotFound)
    {
      match Find(rows, id)
      case None => Failure(NotFound)
      case Some(e) => Success(e)
    }

    /**
     * PUT /:id: validators run on the fields the body names, so an invalid
     * body is refused with 400 first; an unknown id gives 404; otherwise only
     * that row changes and the updated expense is returned.
     */
    method Update(id: nat, b: ExpenseBody) returns (r: Result<Expense, HttpError>)
      requires Valid()
      modifies this
      ensures Valid() && nextId == old(nextId)
      ensures !PatchOk(b) ==> r == Failure(BadRequest) && rows == old(rows)
      ensures PatchOk(b) && !HasId(old(rows), id) ==> r == Failure(NotFound) && rows == old(rows)
      ensures PatchOk(b) && HasId(old(rows), id) ==>
                && rows == Replaced(old(rows), id, b)
                && r.Success? && r.value in rows && r.value.id == id
    {
      if !PatchOk(b) {
        return Failure(BadRequest);
      }
      var found := Find(rows, id);
      if found.None? {
        return Failure(NotFound);
      }
      var k :| 0 <= k < |rows| && rows[k] == found.value;
      var updated := Expense(id, rows[k].createdAt, Patched(rows[k].data, b));
      ReplacedKeepsValid(State(), id, b, k);
      rows := Replaced(rows, id, b);
      r := Success(updated);
    }

    /** DELETE /:id: removes that expense only and returns it, or 404 when there is none. */
    method Delete(id: nat) returns (r: Result<Expense, HttpError>)
      requires Valid()
      modifies this
      ensures Valid() && nextId == old(nextId)
      ensures !HasId(old(rows), id) ==> r == Failure(NotFound) && rows == old(rows)
      ensures HasId(old(rows), id) ==>
                && rows == Without(old(rows), id)
                && |rows| == |old(rows)| - 1
                && r.Success? && r.value in old(rows) && r.value.id == id
    {
      var found := Find(rows, id);
      if found.None? {
        return Failure(NotFound);
      }
      WithoutRemovesOne(rows, id);
      WithoutKeepsValid(State(), id);
      rows := Without(rows, id);
      r := Success(found.value);
    }
  }

  /** Deleting a row keeps the collection valid. */
  lemma WithoutKeepsValid(l: Ledger, id: nat)
    requires LedgerValid(l)
    ensures LedgerValid(Ledger(Without(l.rows, id), l.nextId))
  {
    WithoutKeepsDistinct(l.rows, id);
    var r := Without(l.rows, id);
    forall i | 0 <= i < |r| ensures r[i].id < l.nextId && ExpenseValid(r[i].data) {
      assert r[i] in l.rows;
      var k :| 0 <= k < |l.rows| && l.rows[k] == r[i];
    }
  }

  /** An update that passes validation keeps the collection valid: ids are untouched and the patched row is valid. */
  lemma ReplacedKeepsValid(l: Ledger, id: nat, b: ExpenseBody, k: nat)
    requires LedgerValid(l) && PatchOk(b)
    requires k < |l.rows| && l.rows[k].id == id
    ensures LedgerValid(Ledger(Replaced(l.rows, id, b), l.nextId))
    ensures Expense(id, l.rows[k].createdAt, Patched(l.rows[k].data, b)) in Replaced(l.rows, id, b)
  {
    var r := Replaced(l.rows, id, b);
    assert forall i :: 0 <= i < |r| ==> r[i].id == l.rows[i].id;
  }

  /** Removing rows keeps the remaining ids distinct. */
  lemma {:induction false} WithoutKeepsDistinct(rows: seq<Expense>, id: nat)
    requires forall p, q :: 0 <= p < q < |rows| ==> rows[p].id != rows[q].id
    ensures forall p, q :: 0 <= p < q < |Without(rows, id)| ==> Without(rows, id)[p].id != Without(rows, id)[q].id
    decreases |rows|
  {
    if |rows| > 0 {
      var init, last := rows[..|rows| - 1], rows[|rows| - 1];
      WithoutKeepsDistinct(init, id);
      var rest := Without(init, id);
      if last.id != id {
        forall p | 0 <= p < |rest| ensures rest[p].id != last.id {
          assert rest[p] in init;
          var k :| 0 <= k < |init| && init[k] == rest[p];
          assert rows[k] == rest[p];
        }
      }
    }
  }

  // ---------------------------------------------------------------- listings

  /** `sort({ date: -1, createdAt: -1 })`: `a` may be listed before `b`. */
  predicate NewestFirst(a: Expense, b: Expense) {
    Less(b.data.date, a.data.date) || (a.data.date == b.data.date && a.createdAt >= b.createdAt)
  }

  lemma NewestFirstIsTotalPreorder()
    ensures TotalPreorder(NewestFirst)
  {
    forall a: Expense, b: Expense
      ensures NewestFirst(a, b) || NewestFirst(b, a)
    {
      LessTotal(a.data.date, b.data.date);
    }
    forall a: Expense, b: Expense, c: Expense | NewestFirst(a, b) && NewestFirst(b, c)
      ensures NewestFirst(a, c)
    {
      if Less(b.data.date, a.data.date) && Less(c.data.date, b.data.date) {
        LessTransitive(c.data.date, b.data.date, a.data.date);
      }
    }
  }

  /** `{ date: { $regex: '^' + month } }`: the rows, in order, whose date starts with `month`. */
  function MonthFilter(rows: seq<Expense>, month: string): (r: seq<Expense>)
    ensures forall e :: e in r <==> e in rows && StartsWith(e.data.date, month)
    ensures forall e :: multiset(r)[e] == if StartsWith(e.data.date, month) then multiset(rows)[e] else 0
    decreases |rows|
  {
    if |rows| == 0 then []
    else
      var rest := MonthFilter(rows[..|rows| - 1], month);
      var last := rows[|rows| - 1];
      assert rows == rows[..|rows| - 1] + [last];
      assert multiset(rows) == multiset(rows[..|rows| - 1]) + multiset{last};
      if StartsWith(last.data.date, month) then rest + [last] else rest
  }

  /** With no month every row passes the filter. */
  lemma {:induction false} EmptyMonthKeepsAll(rows: seq<Expense>)
    ensures MonthFilter(rows, "") == rows
    decreases |rows|
  {
    if |rows| > 0 {
      var init, last := rows[..|rows| - 1], rows[|rows| - 1];
      EmptyMonthKeepsAll(init);
      assert StartsWith(last.data.date, "");
      assert MonthFilter(rows, "") == MonthFilter(init, "") + [last];
      assert init + [last] == rows;
    }
  }

  /**
   * GET /?month= and GET /month/:month: exactly the expenses whose date starts
   * with `month` (all of them when `month` is empty, since `""` is a prefix of
   * every date and a missing query filters nothing), newest first.
   */
  function ListExpenses(rows: seq<Expense>, month: string): (r: seq<Expense>)
    ensures multiset(r) == multiset(MonthFilter(rows, month))
    ensures forall e :: e in r <==> e in rows && StartsWith(e.data.date, month)
    ensures SortedBy(r, NewestFirst)
  {
    NewestFirstIsTotalPreorder();
    SortBySorted(MonthFilter(rows, month), NewestFirst);
    var r := SortBy(MonthFilter(rows, month), NewestFirst);
    assert forall e :: e in r <==> e in multiset(r);
    r
  }

  /** Without a month the listing is every stored expense, newest first. */
  lemma ListAllIsPermutation(rows: seq<Expense>)
    ensures multiset(ListExpenses(rows, "")) == multiset(rows)
  {
    EmptyMonthKeepsAll(rows);
  }
}
