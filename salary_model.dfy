/**
 * The Salary schema: one amount per month string. The `unique` index on
 * `month` is the reason the salary table is a map keyed by month.
 */
module SalaryModel {
  import opened Calendar

  /** The schema's default amount, which is also what a read of a month with no record reports. */
  const DefaultAmount := 0

  datatype Salary = Salary(month: string, amount: int)

  /** A month matching `^\d{4}-\d{2}$` and an amount of at least 0. */
  predicate SalaryValid(s: Salary) {
    MonthShape(s.month) && s.amount >= 0
  }

  /** The table-level invariant: every stored (month, amount) pair is a valid record. */
  predicate TableValid(table: map<string, int>) {
    forall m :: m in table ==> SalaryValid(Salary(m, table[m]))
  }

  /**
   * What the upsert and the amendment rely on: writing a record that passed
   * validation into a valid table keeps it valid, the month then holds that
   * record's amount and every other month is untouched.
   */
  lemma StoreKeepsTableValid(table: map<string, int>, s: Salary)
    requires SalaryValid(s)
    ensures TableValid(table) ==> TableValid(table[s.month := s.amount])
    ensures Salary(s.month, table[s.month := s.amount][s.month]) == s
    ensures forall m :: m in table && m != s.month ==> table[s.month := s.amount][m] == table[m]
  {
  }
}
