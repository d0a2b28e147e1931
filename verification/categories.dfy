/**
 * The two kinds of category a wallet holds. Each is a named running total;
 * the name (kept by the abstract base class in the source) never changes.
 * An expense category may also carry a budget limit.
 */
module Categories {
  import opened Wrappers
  import opened Seqs

  datatype ExpensesCategory = ExpensesCategory(name: string, expenses: real, limit: Option<real>)

  datatype IncomeCategory = IncomeCategory(name: string, income: real)

  /** The two-argument constructor: the initial amount, no limit. */
  function NewExpensesCategory(name: string, expenses: real): (c: ExpensesCategory)
    ensures c.name == name && c.expenses == expenses && c.limit.None?
    ensures !CheckLimitExceeded(c)
  {
    ExpensesCategory(name, expenses, None)
  }

  /** The three-argument constructor: the initial amount and the given limit. */
  function NewLimitedExpensesCategory(name: string, expenses: real, limit: real): (c: ExpensesCategory)
    ensures c.name == name && c.expenses == expenses && c.limit == Some(limit)
    ensures CheckLimitExceeded(c) <==> expenses > limit
  {
    ExpensesCategory(name, expenses, Some(limit))
  }

  /** Adds `amount` to the running total; the limit stays as it was. */
  function RegisterExpenses(c: ExpensesCategory, amount: real): (r: ExpensesCategory)
    ensures r.name == c.name && r.limit == c.limit
    ensures r.expenses - c.expenses == amount
  {
    c.(expenses := c.expenses + amount)
  }

  /** Replaces the limit; the running total stays as it was. */
  function SetLimit(c: ExpensesCategory, limit: real): (r: ExpensesCategory)
    ensures r.name == c.name && r.expenses == c.expenses
    ensures r.limit == Some(limit)
  {
    c.(limit := Some(limit))
  }

  /** A category is over budget only when it has a limit and its total is strictly above it. */
  predicate CheckLimitExceeded(c: ExpensesCategory): (b: bool)
    ensures c.limit.None? ==> !b
    ensures c.limit.Some? ==> (b <==> c.expenses > c.limit.value)
  {
    match c.limit
    case None => false
    case Some(l) => c.expenses > l
  }

  /** The remaining budget shown in the category's text: reported only when a limit is set. */
  function RemainingBudget(c: ExpensesCategory): (r: Option<real>)
    ensures r.Some? <==> c.limit.Some?
    ensures r.Some? ==> r.value + c.expenses == c.limit.value
  {
    match c.limit
    case None => None
    case Some(l) => Some(l - c.expenses)
  }

  /** Over budget exactly when the reported remaining budget is negative; a total equal to the limit is not. */
  lemma ExceededIffNegativeRemaining(c: ExpensesCategory)
    ensures CheckLimitExceeded(c) <==> RemainingBudget(c).Some? && RemainingBudget(c).value < 0.0
    ensures c.limit == Some(c.expenses) ==> !CheckLimitExceeded(c)
  {
  }

  /** With a non-negative amount, an expense registration never brings a category back under budget. */
  lemma RegisterKeepsExceeded(c: ExpensesCategory, amount: real)
    requires amount >= 0.0 && CheckLimitExceeded(c)
    ensures CheckLimitExceeded(RegisterExpenses(c, amount))
  {
  }

  /** Income constructor: the total starts at the initial amount. */
  function NewIncomeCategory(name: string, income: real): (c: IncomeCategory)
    ensures c.name == name && c.income == income
  {
    IncomeCategory(name, income)
  }

  /** Adds `amount` to the running total. */
  function RegisterIncome(c: IncomeCategory, amount: real): (r: IncomeCategory)
    ensures r.name == c.name
    ensures r.income - c.income == amount
  {
    c.(income := c.income + amount)
  }

  /** A sequence of income registrations, applied in order. */
  function RegisterIncomes(c: IncomeCategory, amounts: seq<real>): IncomeCategory
  {
    if |amounts| == 0 then c
    else RegisterIncome(RegisterIncomes(c, amounts[..|amounts| - 1]), amounts[|amounts| - 1])
  }

  /** After any registrations the total is the initial one plus the sum of the amounts, under the same name. */
  lemma {:induction false} RegisterIncomesTotal(c: IncomeCategory, amounts: seq<real>)
    ensures RegisterIncomes(c, amounts).income == c.income + Sum(amounts)
    ensures RegisterIncomes(c, amounts).name == c.name
  {
    if |amounts| > 0 {
      RegisterIncomesTotal(c, amounts[..|amounts| - 1]);
    }
  }

  predicate AllNonNegative(amounts: seq<real>) {
    forall i :: 0 <= i < |amounts| ==> amounts[i] >= 0.0
  }

  /** With non-negative amounts the total never decreases (the source itself does not check signs). */
  lemma {:induction false} RegisterIncomesMonotone(c: IncomeCategory, amounts: seq<real>)
    requires AllNonNegative(amounts)
    ensures RegisterIncomes(c, amounts).income >= c.income
  {
    if |amounts| > 0 {
      RegisterIncomesMonotone(c, amounts[..|amounts| - 1]);
    }
  }
}
