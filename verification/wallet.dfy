/**
 * A wallet: two lists of categories with unique names and a cached balance.
 * Every recording updates the matching category (creating it when absent)
 * and the balance together, so that balance == total income - total expenses.
 */
module Wallets {
  import opened Wrappers
  import opened Seqs
  import opened Categories

  datatype Wallet = Wallet(
    name: string,
    expensesCategories: seq<ExpensesCategory>,
    incomeCategories: seq<IncomeCategory>,
    balance: real)

  function ExpenseNames(cs: seq<ExpensesCategory>): (r: seq<string>)
    ensures |r| == |cs| && forall i :: 0 <= i < |cs| ==> r[i] == cs[i].name
  {
    seq(|cs|, i requires 0 <= i < |cs| => cs[i].name)
  }

  function ExpenseTotals(cs: seq<ExpensesCategory>): (r: seq<real>)
    ensures |r| == |cs| && forall i :: 0 <= i < |cs| ==> r[i] == cs[i].expenses
  {
    seq(|cs|, i requires 0 <= i < |cs| => cs[i].expenses)
  }

  function IncomeNames(cs: seq<IncomeCategory>): (r: seq<string>)
    ensures |r| == |cs| && forall i :: 0 <= i < |cs| ==> r[i] == cs[i].name
  {
    seq(|cs|, i requires 0 <= i < |cs| => cs[i].name)
  }

  function IncomeTotals(cs: seq<IncomeCategory>): (r: seq<real>)
    ensures |r| == |cs| && forall i :: 0 <= i < |cs| ==> r[i] == cs[i].income
  {
    seq(|cs|, i requires 0 <= i < |cs| => cs[i].income)
  }

  function TotalIncome(w: Wallet): real {
    Sum(IncomeTotals(w.incomeCategories))
  }

  function TotalExpenses(w: Wallet): real {
    Sum(ExpenseTotals(w.expensesCategories))
  }

  /** The cached balance agrees with the category totals. */
  predicate Balanced(w: Wallet) {
    w.balance == TotalIncome(w) - TotalExpenses(w)
  }

  /** Category names are unique within each list. */
  predicate NamesUnique(w: Wallet) {
    Unique(ExpenseNames(w.expensesCategories)) && Unique(IncomeNames(w.incomeCategories))
  }

  predicate WellFormed(w: Wallet) {
    Balanced(w) && NamesUnique(w)
  }

  /** The expense category a name lookup finds (the first one with that exact name). */
  function FindExpensesCategory(w: Wallet, name: string): (r: Option<ExpensesCategory>)
    ensures r.Some? <==> name in ExpenseNames(w.expensesCategories)
    ensures r.Some? ==> r.value.name == name && r.value in w.expensesCategories
  {
    match IndexOf(ExpenseNames(w.expensesCategories), name)
    case Some(i) => Some(w.expensesCategories[i])
    case None => None
  }

  /** The income category a name lookup finds (the first one with that exact name). */
  function FindIncomeCategory(w: Wallet, name: string): (r: Option<IncomeCategory>)
    ensures r.Some? <==> name in IncomeNames(w.incomeCategories)
    ensures r.Some? ==> r.value.name == name && r.value in w.incomeCategories
  {
    match IndexOf(IncomeNames(w.incomeCategories), name)
    case Some(i) => Some(w.incomeCategories[i])
    case None => None
  }

  /** The running total of the named expense category; zero when there is none. */
  function ExpensesIn(w: Wallet, name: string): real {
    match FindExpensesCategory(w, name)
    case Some(c) => c.expenses
    case None => 0.0
  }

  /** The running total of the named income category; zero when there is none. */
  function IncomeIn(w: Wallet, name: string): real {
    match FindIncomeCategory(w, name)
    case Some(c) => c.income
    case None => 0.0
  }

  /** A new wallet: balance zero, no categories. */
  function NewWallet(name: string): (w: Wallet)
    ensures w.name == name && w.balance == 0.0
    ensures |w.expensesCategories| == 0 && |w.incomeCategories| == 0
    ensures WellFormed(w)
  {
    Wallet(name, [], [], 0.0)
  }

  /** The wallet after an expense, with the two notices the source prints. */
  datatype ExpenseReceipt = ExpenseReceipt(wallet: Wallet, budgetExceeded: bool, negativeBalance: bool)

  /** The wallet after a limit change, with the budget notice the source prints. */
  datatype LimitReceipt = LimitReceipt(wallet: Wallet, budgetExceeded: bool)

  /**
   * Records an expense: the same-named category grows by `amount` (or one new
   * category is appended), and the balance drops by `amount` even when it goes
   * negative, which only raises a notice. The budget notice is checked only on
   * a category that already existed.
   */
  function RegisterExpenses(w: Wallet, category: string, amount: real): (r: ExpenseReceipt)
    ensures r.wallet.name == w.name && r.wallet.incomeCategories == w.incomeCategories
    ensures w.balance - r.wallet.balance == amount
    ensures r.negativeBalance <==> r.wallet.balance < 0.0
    ensures FindExpensesCategory(r.wallet, category)
      == Some(if FindExpensesCategory(w, category).Some?
              then Categories.RegisterExpenses(FindExpensesCategory(w, category).value, amount)
              else NewExpensesCategory(category, amount))
    ensures forall n :: n != category ==> FindExpensesCategory(r.wallet, n) == FindExpensesCategory(w, n)
    ensures r.budgetExceeded <==>
      FindExpensesCategory(w, category).Some? && CheckLimitExceeded(FindExpensesCategory(r.wallet, category).value)
    ensures ExpenseNames(r.wallet.expensesCategories)
      == if category in ExpenseNames(w.expensesCategories) then ExpenseNames(w.expensesCategories)
         else ExpenseNames(w.expensesCategories) + [category]
    ensures forall i :: 0 <= i < |w.expensesCategories| && w.expensesCategories[i].name != category ==>
      r.wallet.expensesCategories[i] == w.expensesCategories[i]
  {
    var names := ExpenseNames(w.expensesCategories);
    match IndexOf(names, category)
    case Some(i) =>
      var updated := Categories.RegisterExpenses(w.expensesCategories[i], amount);
      var cs := w.expensesCategories[i := updated];
      var w' := w.(expensesCategories := cs, balance := w.balance - amount);
      assert ExpenseNames(cs) == names;
      assert forall n :: IndexOf(ExpenseNames(cs), n) == IndexOf(names, n);
      ExpenseReceipt(w', CheckLimitExceeded(updated), w'.balance < 0.0)
    case None =>
      var cs := w.expensesCategories + [NewExpensesCategory(category, amount)];
      var w' := w.(expensesCategories := cs, balance := w.balance - amount);
      assert ExpenseNames(cs) == names + [category];
      assert forall n :: IndexOf(ExpenseNames(cs), n) == IndexOf(names + [category], n);
      IndexOfAppend(names, category, category);
      assert forall n :: n != category ==> IndexOf(names + [category], n) == IndexOf(names, n) by {
        forall n | n != category { IndexOfAppend(names, category, n); }
      }
      ExpenseReceipt(w', false, w'.balance < 0.0)
  }

  /**
   * Records income: the same-named category grows by `amount` (or one new
   * category is appended) and the balance rises by `amount`. Expense
   * categories are untouched.
   */
  function RegisterIncome(w: Wallet, category: string, amount: real): (r: Wallet)
    ensures r.name == w.name && r.expensesCategories == w.expensesCategories
    ensures r.balance - w.balance == amount
    ensures FindIncomeCategory(r, category)
      == Some(if FindIncomeCategory(w, category).Some?
              then Categories.RegisterIncome(FindIncomeCategory(w, category).value, amount)
              else NewIncomeCategory(category, amount))
    ensures forall n :: n != category ==> FindIncomeCategory(r, n) == FindIncomeCategory(w, n)
    ensures IncomeNames(r.incomeCategories)
      == if category in IncomeNames(w.incomeCategories) then IncomeNames(w.incomeCategories)
         else IncomeNames(w.incomeCategories) + [category]
    ensures forall i :: 0 <= i < |w.incomeCategories| && w.incomeCategories[i].name != category ==>
      r.incomeCategories[i] == w.incomeCategories[i]
  {
    var names := IncomeNames(w.incomeCategories);
    match IndexOf(names, category)
    case Some(i) =>
      var cs := w.incomeCategories[i := Categories.RegisterIncome(w.incomeCategories[i], amount)];
      assert IncomeNames(cs) == names;
      assert forall n :: IndexOf(IncomeNames(cs), n) == IndexOf(names, n);
      w.(incomeCategories := cs, balance := w.balance + amount)
    case None =>
      var cs := w.incomeCategories + [NewIncomeCategory(category, amount)];
      assert IncomeNames(cs) == names + [category];
      assert forall n :: IndexOf(IncomeNames(cs), n) == IndexOf(names + [category], n);
      IndexOfAppend(names, category, category);
      assert forall n :: n != category ==> IndexOf(names + [category], n) == IndexOf(names, n) by {
        forall n | n != category { IndexOfAppend(names, category, n); }
      }
      w.(incomeCategories := cs, balance := w.balance + amount)
  }

  /**
   * Sets the limit of an expense category, creating it with total zero when
   * absent. Neither the balance nor any total changes. The budget notice is
   * checked only on a category that already existed.
   */
  function SetLimitForCategory(w: Wallet, category: string, limit: real): (r: LimitReceipt)
    ensures r.wallet.name == w.name && r.wallet.incomeCategories == w.incomeCategories
    ensures r.wallet.balance == w.balance
    ensures FindExpensesCategory(r.wallet, category)
      == Some(if FindExpensesCategory(w, category).Some?
              then SetLimit(FindExpensesCategory(w, category).value, limit)
              else NewLimitedExpensesCategory(category, 0.0, limit))
    ensures forall n :: n != category ==> FindExpensesCategory(r.wallet, n) == FindExpensesCategory(w, n)
    ensures r.budgetExceeded <==>
      FindExpensesCategory(w, category).Some? && CheckLimitExceeded(FindExpensesCategory(r.wallet, category).value)
    ensures ExpenseNames(r.wallet.expensesCategories)
      == if category in ExpenseNames(w.expensesCategories) then ExpenseNames(w.expensesCategories)
         else ExpenseNames(w.expensesCategories) + [category]
    ensures forall i :: 0 <= i < |w.expensesCategories| && w.expensesCategories[i].name != category ==>
      r.wallet.expensesCategories[i] == w.expensesCategories[i]
  {
    var names := ExpenseNames(w.expensesCategories);
    match IndexOf(names, category)
    case Some(i) =>
      var updated := SetLimit(w.expensesCategories[i], limit);
      var cs := w.expensesCategories[i := updated];
      assert ExpenseNames(cs) == names;
      assert forall n :: IndexOf(ExpenseNames(cs), n) == IndexOf(names, n);
      LimitReceipt(w.(expensesCategories := cs), CheckLimitExceeded(updated))
    case None =>
      var cs := w.expensesCategories + [NewLimitedExpensesCategory(category, 0.0, limit)];
      assert ExpenseNames(cs) == names + [category];
      assert forall n :: IndexOf(ExpenseNames(cs), n) == IndexOf(names + [category], n);
      IndexOfAppend(names, category, category);
      assert forall n :: n != category ==> IndexOf(names + [category], n) == IndexOf(names, n) by {
        forall n | n != category { IndexOfAppend(names, category, n); }
      }
      LimitReceipt(w.(expensesCategories := cs), false)
  }

  /** Appending a name that is not yet present keeps the names unique. */
  lemma UniqueAfterUpdate(before: seq<string>, after: seq<string>, category: string)
    requires Unique(before)
    requires after == if category in before then before else before + [category]
    ensures Unique(after)
  {
  }

  /** An expense raises total expenses by exactly the amount and leaves total income alone. */
  lemma RegisterExpensesTotals(w: Wallet, category: string, amount: real)
    ensures TotalExpenses(RegisterExpenses(w, category, amount).wallet) == TotalExpenses(w) + amount
    ensures TotalIncome(RegisterExpenses(w, category, amount).wallet) == TotalIncome(w)
  {
    var r := RegisterExpenses(w, category, amount).wallet;
    var totals := ExpenseTotals(w.expensesCategories);
    match IndexOf(ExpenseNames(w.expensesCategories), category)
    case Some(i) =>
      assert r.expensesCategories == w.expensesCategories[i := Categories.RegisterExpenses(w.expensesCategories[i], amount)];
      assert ExpenseTotals(r.expensesCategories) == totals[i := totals[i] + amount];
      SumUpdate(totals, i, totals[i] + amount);
    case None =>
      assert ExpenseTotals(r.expensesCategories) == totals + [amount];
      SumAppend(totals, amount);
  }

  /** An expense raises total expenses by exactly the amount and keeps the wallet well-formed. */
  lemma RegisterExpensesInvariant(w: Wallet, category: string, amount: real)
    ensures TotalExpenses(RegisterExpenses(w, category, amount).wallet) == TotalExpenses(w) + amount
    ensures TotalIncome(RegisterExpenses(w, category, amount).wallet) == TotalIncome(w)
    ensures WellFormed(w) ==> WellFormed(RegisterExpenses(w, category, amount).wallet)
  {
    RegisterExpensesTotals(w, category, amount);
    if WellFormed(w) {
      var r := RegisterExpenses(w, category, amount).wallet;
      UniqueAfterUpdate(ExpenseNames(w.expensesCategories), ExpenseNames(r.expensesCategories), category);
    }
  }

  /** Income raises total income by exactly the amount and leaves total expenses alone. */
  lemma RegisterIncomeTotals(w: Wallet, category: string, amount: real)
    ensures TotalIncome(RegisterIncome(w, category, amount)) == TotalIncome(w) + amount
    ensures TotalExpenses(RegisterIncome(w, category, amount)) == TotalExpenses(w)
  {
    var r := RegisterIncome(w, category, amount);
    var totals := IncomeTotals(w.incomeCategories);
    match IndexOf(IncomeNames(w.incomeCategories), category)
    case Some(i) =>
      assert r.incomeCategories == w.incomeCategories[i := Categories.RegisterIncome(w.incomeCategories[i], amount)];
      assert IncomeTotals(r.incomeCategories) == totals[i := totals[i] + amount];
      SumUpdate(totals, i, totals[i] + amount);
    case None =>
      assert IncomeTotals(r.incomeCategories) == totals + [amount];
      SumAppend(totals, amount);
  }

  /** Income raises total income by exactly the amount and keeps the wallet well-formed. */
  lemma RegisterIncomeInvariant(w: Wallet, category: string, amount: real)
    ensures TotalIncome(RegisterIncome(w, category, amount)) == TotalIncome(w) + amount
    ensures TotalExpenses(RegisterIncome(w, category, amount)) == TotalExpenses(w)
    ensures WellFormed(w) ==> WellFormed(RegisterIncome(w, category, amount))
  {
    RegisterIncomeTotals(w, category, amount);
    if WellFormed(w) {
      var r := RegisterIncome(w, category, amount);
      UniqueAfterUpdate(IncomeNames(w.incomeCategories), IncomeNames(r.incomeCategories), category);
    }
  }

  /** Setting a limit leaves every expense total where it was, adding 0 for a new category. */
  lemma SetLimitTotals(w: Wallet, category: string, limit: real)
    ensures ExpenseTotals(SetLimitForCategory(w, category, limit).wallet.expensesCategories)
      == if category in ExpenseNames(w.expensesCategories) then ExpenseTotals(w.expensesCategories)
         else ExpenseTotals(w.expensesCategories) + [0.0]
    ensures TotalExpenses(SetLimitForCategory(w, category, limit).wallet) == TotalExpenses(w)
  {
    var r := SetLimitForCategory(w, category, limit).wallet;
    var totals := ExpenseTotals(w.expensesCategories);
    match IndexOf(ExpenseNames(w.expensesCategories), category)
    case Some(i) =>
      assert ExpenseTotals(r.expensesCategories) == totals;
    case None =>
      assert ExpenseTotals(r.expensesCategories) == totals + [0.0];
      SumAppend(totals, 0.0);
  }

  /** Setting a limit changes no total and keeps the wallet well-formed. */
  lemma SetLimitInvariant(w: Wallet, category: string, limit: real)
    ensures ExpenseTotals(SetLimitForCategory(w, category, limit).wallet.expensesCategories)
      == if category in ExpenseNames(w.expensesCategories) then ExpenseTotals(w.expensesCategories)
         else ExpenseTotals(w.expensesCategories) + [0.0]
    ensures TotalExpenses(SetLimitForCategory(w, category, limit).wallet) == TotalExpenses(w)
    ensures WellFormed(w) ==> WellFormed(SetLimitForCategory(w, category, limit).wallet)
  {
    SetLimitTotals(w, category, limit);
    if WellFormed(w) {
      var r := SetLimitForCategory(w, category, limit).wallet;
      UniqueAfterUpdate(ExpenseNames(w.expensesCategories), ExpenseNames(r.expensesCategories), category);
    }
  }

  /** One recording a session may apply to its active wallet. */
  datatype WalletOp =
    | IncomeOp(category: string, amount: real)
    | ExpenseOp(category: string, amount: real)
    | LimitOp(category: string, limit: real)

  function Apply(w: Wallet, op: WalletOp): Wallet {
    match op
    case IncomeOp(c, a) => RegisterIncome(w, c, a)
    case ExpenseOp(c, a) => RegisterExpenses(w, c, a).wallet
    case LimitOp(c, l) => SetLimitForCategory(w, c, l).wallet
  }

  /** Each recording keeps a well-formed wallet well-formed. */
  lemma ApplyKeepsWellFormed(w: Wallet, op: WalletOp)
    requires WellFormed(w)
    ensures WellFormed(Apply(w, op))
  {
    match op
    case IncomeOp(c, a) => RegisterIncomeInvariant(w, c, a);
    case ExpenseOp(c, a) => RegisterExpensesInvariant(w, c, a);
    case LimitOp(c, l) => SetLimitInvariant(w, c, l);
  }

  function ApplyAll(w: Wallet, ops: seq<WalletOp>): Wallet {
    if |ops| == 0 then w else Apply(ApplyAll(w, ops[..|ops| - 1]), ops[|ops| - 1])
  }

  /**
   * Starting from a new wallet, after any sequence of recordings the balance
   * equals total income minus total expenses and names stay unique.
   */
  lemma {:induction false} WellFormedThroughout(name: string, ops: seq<WalletOp>)
    ensures WellFormed(ApplyAll(NewWallet(name), ops))
    ensures ApplyAll(NewWallet(name), ops).balance
      == TotalIncome(ApplyAll(NewWallet(name), ops)) - TotalExpenses(ApplyAll(NewWallet(name), ops))
  {
    if |ops| > 0 {
      WellFormedThroughout(name, ops[..|ops| - 1]);
      ApplyKeepsWellFormed(ApplyAll(NewWallet(name), ops[..|ops| - 1]), ops[|ops| - 1]);
    }
  }
}
