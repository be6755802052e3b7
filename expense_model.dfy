/**
 * The Expense schema: a concrete dated expense or income record. Its field
 * `type` is called `kind` here, `type` being a Dafny keyword.
 */
module ExpenseModel {
  import opened Wrappers
  import opened Text
  import opened Calendar

  /** The thirteen values the `category` enum allows; the template schema lists the same ones. */
  const Categories: seq<string> := [
    "Food", "Transport", "Shopping", "Bills", "Entertainment", "Healthcare",
    "Education", "Rent", "Loan", "RD", "Emi -Arya", "Emi -Amma", "Other"
  ]

  /** The values the `type` enum allows. */
  const Kinds: seq<string> := ["expense", "income"]

  const MaxTitleLength := 100

  /** The fields of an expense as stored. */
  datatype ExpenseData = ExpenseData(title: string, amount: int, category: string, date: string, kind: string)

  /** A stored expense: its id, its creation stamp (standing for `createdAt`) and its fields. */
  datatype Expense = Expense(id: nat, createdAt: nat, data: ExpenseData)

  /** A stored title: trimmed, present (not empty) and at most 100 UTF-16 code units long. */
  predicate TitleOk(title: string) {
    IsTrimmed(title) && 0 < |title| && Utf16Length(title) <= MaxTitleLength
  }

  /** Every constraint of the schema: title, non-negative amount, category, date shape, type. */
  predicate ExpenseValid(d: ExpenseData) {
    && TitleOk(d.title)
    && d.amount >= 0
    && d.category in Categories
    && DateShape(d.date)
    && d.kind in Kinds
  }

  /** A request body: each field may be missing. */
  datatype ExpenseBody = ExpenseBody(
    title: Option<string>, amount: Option<int>, category: Option<string>,
    date: Option<string>, kind: Option<string>)

  /** The checks validation applies to a title once the `trim` setter has run. */
  predicate TrimmedTitleOk(title: string) {
    0 < |Trim(title)| && Utf16Length(Trim(title)) <= MaxTitleLength
  }

  /**
   * `new Expense(body)` followed by validation: the record that saving stores,
   * or None when a required field is missing or a constraint fails.
   */
  function AdmitExpense(b: ExpenseBody): (r: Option<ExpenseData>)
    ensures r.Some? ==> ExpenseValid(r.value)
    ensures r.Some? <==>
              && b.title.Some? && TrimmedTitleOk(b.title.value)
              && b.amount.Some? && b.amount.value >= 0
              && b.category.Some? && b.category.value in Categories
              && b.date.Some? && DateShape(b.date.value)
              && b.kind.Some? && b.kind.value in Kinds
    ensures r.Some? ==>
              r.value == ExpenseData(Trim(b.title.value), b.amount.value, b.category.value, b.date.value, b.kind.value)
  {
    if b.title.Some? && b.amount.Some? && b.category.Some? && b.date.Some? && b.kind.Some? then
      var title := Trim(b.title.value);
      if 0 < |title| && Utf16Length(title) <= MaxTitleLength && b.amount.value >= 0 && b.category.value in Categories
         && DateShape(b.date.value) && b.kind.value in Kinds
      then
        Some(ExpenseData(title, b.amount.value, b.category.value, b.date.value, b.kind.value))
      else None
    else None
  }

  /** A body whose every field is present and valid, the title already trimmed, is admitted unchanged. */
  lemma AdmitComplete(title: string, amount: int, category: string, date: string, kind: string)
    requires TitleOk(title) && amount >= 0 && category in Categories && DateShape(date) && kind in Kinds
    ensures AdmitExpense(ExpenseBody(Some(title), Some(amount), Some(category), Some(date), Some(kind)))
            == Some(ExpenseData(title, amount, category, date, kind))
  {
  }

  /** Each field an update names passes its validator; the fields it omits are not checked. */
  predicate PatchOk(b: ExpenseBody) {
    && (b.title.Some? ==> TrimmedTitleOk(b.title.value))
    && (b.amount.Some? ==> b.amount.value >= 0)
    && (b.category.Some? ==> b.category.value in Categories)
    && (b.date.Some? ==> DateShape(b.date.value))
    && (b.kind.Some? ==> b.kind.value in Kinds)
  }

  /** The record after an update: the named fields replaced (the title trimmed), the others kept. */
  function Patched(d: ExpenseData, b: ExpenseBody): (r: ExpenseData)
    ensures ExpenseValid(d) && PatchOk(b) ==> ExpenseValid(r)
    ensures b == ExpenseBody(None, None, None, None, None) ==> r == d
    ensures r.title == (if b.title.Some? then Trim(b.title.value) else d.title)
    ensures r.amount == (if b.amount.Some? then b.amount.value else d.amount)
    ensures r.category == (if b.category.Some? then b.category.value else d.category)
    ensures r.date == (if b.date.Some? then b.date.value else d.date)
    ensures r.kind == (if b.kind.Some? then b.kind.value else d.kind)
  {
    ExpenseData(
      if b.title.Some? then Trim(b.title.value) else d.title,
      b.amount.GetOr(d.amount),
      b.category.GetOr(d.category),
      b.date.GetOr(d.date),
      b.kind.GetOr(d.kind))
  }

  /**
   * An update naming every field with valid values leaves nothing of the old
   * record: it stores what creating an expense from the same body stores.
   */
  lemma PatchWithWholeBody(d: ExpenseData, b: ExpenseBody)
    requires AdmitExpense(b).Some?
    ensures PatchOk(b)
    ensures Patched(d, b) == AdmitExpense(b).value
  {
  }
}
