/**
 * The PredefinedExpense schema: a recurring expense or income template, with
 * the defaults the schema fills in for `type`, `dayOfMonth`, `isActive` and
 * `isPredefined`.
 */
module PredefinedExpenseModel {
  import opened Wrappers
  import opened Text
  import opened ExpenseModel

  const DefaultKind := "expense"
  const DefaultDayOfMonth := 1
  const MaxDescriptionLength := 500

  /** A stored template. `description` is optional; `kind` stands for the field `type`. */
  datatype Template = Template(
    id: nat, title: string, isPredefined: bool, amount: int, category: string,
    kind: string, dayOfMonth: int, isActive: bool, description: Option<string>)

  /** Every constraint of the schema; the title, amount, category and type rules are those of an expense. */
  predicate TemplateValid(t: Template) {
    && TitleOk(t.title)
    && t.amount >= 0
    && t.category in Categories
    && t.kind in Kinds
    && 1 <= t.dayOfMonth <= 31
    && (t.description.Some? ==>
          IsTrimmed(t.description.value) && Utf16Length(t.description.value) <= MaxDescriptionLength)
  }

  /** A request body for a template: each field may be missing. */
  datatype TemplateBody = TemplateBody(
    title: Option<string>, isPredefined: Option<bool>, amount: Option<int>, category: Option<string>,
    kind: Option<string>, dayOfMonth: Option<int>, isActive: Option<bool>, description: Option<string>)

  /** The template a body makes once the defaults fill its missing optional fields and the setters trim. */
  function Filled(b: TemplateBody, id: nat): Template
    requires b.title.Some? && b.amount.Some? && b.category.Some?
  {
    Template(
      id, Trim(b.title.value), b.isPredefined.GetOr(false), b.amount.value, b.category.value,
      b.kind.GetOr(DefaultKind), b.dayOfMonth.GetOr(DefaultDayOfMonth), b.isActive.GetOr(true),
      if b.description.Some? then Some(Trim(b.description.value)) else None)
  }

  /**
   * `new PredefinedExpense(body)` followed by validation: defaults fill the
   * missing optional fields, the setters trim title and description, and the
   * result is the template stored under `id`, or None when validation fails.
   */
  function AdmitTemplate(b: TemplateBody, id: nat): (r: Option<Template>)
    ensures r.Some? ==> TemplateValid(r.value) && r.value.id == id
    ensures r.Some? <==> b.title.Some? && b.amount.Some? && b.category.Some? && TemplateValid(Filled(b, id))
    ensures r.Some? ==>
              && r.value.title == Trim(b.title.value)
              && r.value.amount == b.amount.value
              && r.value.category == b.category.value
              && r.value.kind == (if b.kind.Some? then b.kind.value else DefaultKind)
              && r.value.dayOfMonth == (if b.dayOfMonth.Some? then b.dayOfMonth.value else DefaultDayOfMonth)
              && r.value.isActive == (b.isActive.None? || b.isActive.value)
              && r.value.isPredefined == (b.isPredefined.Some? && b.isPredefined.value)
              && r.value.description == (if b.description.Some? then Some(Trim(b.description.value)) else None)
  {
    if b.title.Some? && b.amount.Some? && b.category.Some? then
      var t := Filled(b, id);
      if TemplateValid(t) then Some(t) else None
    else None
  }

  /**
   * The defaults satisfy the schema: a body giving only a valid title, amount
   * and category is admitted as an active `expense` on day 1 that is not
   * marked predefined and has no description.
   */
  lemma DefaultsAdmitted(title: string, amount: int, category: string, id: nat)
    requires TrimmedTitleOk(title) && amount >= 0 && category in Categories
    ensures AdmitTemplate(TemplateBody(Some(title), None, Some(amount), Some(category), None, None, None, None), id)
            == Some(Template(id, Trim(title), false, amount, category, "expense", 1, true, None))
  {
    var t := Template(id, Trim(title), false, amount, category, DefaultKind, DefaultDayOfMonth, true, None);
    assert DefaultKind == Kinds[0];
    assert TemplateValid(t);
  }
}
