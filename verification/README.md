# Personal finances: wallets, categories and the finance service session

A model of the domain core of a console application for personal finance.
Users register and log in. Each user keeps named wallets. A wallet records
income and expenses in named categories, and an expense category can have a
budget limit. Money can be transferred between wallets of one user or to a
wallet of another user.

The model is made of pure functions over immutable datatypes:

- `Categories` (`categories.dfy`): `ExpensesCategory` and `IncomeCategory`. Each is a named running total. An expense category may also have a limit. The category name lives in the abstract base class in the source; here it is a plain field.
- `Wallets` (`wallet.dfy`): a wallet holds two category lists with unique names and a cached balance. Recording income, recording an expense and setting a limit each create the category when it is absent. The invariant is `balance == total income - total expenses`.
- `Users` (`user.dfy`): a user has fixed credentials and an ordered list of wallets.
- `Ledger` (`ledger.dfy`): all wallets of all users, addressed by a `WalletRef`. A ref is the owner's position plus the wallet name, and it stands in for the Java reference held as the current wallet. This module also defines the total of all balances and the two legs of a transfer.
- `Finance` (`finance.dfy`): the service session, holding the user list, the current user and the current wallet. It has registration, login, wallet creation, wallet selection and wallet deletion, the three recording operations, and the two transfer rules. Printed messages become returned values: `TransferStatus`, `ExpenseNotices` and budget flags. The two "not defined" runtime exceptions become `Outcome.Fatal`, checked in the source's order.
- `Reports` (`reports.dfy`): the report filter. It picks categories by requested name, matching against each category's rendered text.
- `Seqs`, `Wrappers`: first-index lookup, uniqueness, sums and `Option`.
- `Scenarios` (`scenarios.dfy`): worked examples stated over concrete sessions.

Amounts are `real`. The source uses `double`, and it checks no signs, so
negative amounts are accepted here as well.

The session's current wallet is a `WalletRef`. Login does not reset the
current wallet (`FinanceService.java:68-77`), so after a login a wallet of the
previous user may still be current. The console loop always makes the user
select or create a wallet after login, but the service itself allows this
state. The model keeps it. `Ledger.Move` applies the credit and then the
debit one after the other. In the case above, a user-to-user transfer can
name the current wallet itself, and that wallet's balance then ends where it
started (`Ledger.MoveEffect`, `Finance.TransferBetweenUsersEffect`).

Three facts about the code that the model keeps:

- The code checks no amount for sign, so income and expense totals and balances can go negative.
- A category created by `setLimitForCategory` never raises the budget notice, even when its limit is below zero. Only a category that already existed is checked (`Wallet.java:100-108`).
- The report filter matches a requested name as a substring of the category's rendered text, not of its name. The Javadoc of `findCategoriesByName` says "whose names contain" (`FinanceService.java:347`), while the code tests `toString().contains(name)` (`FinanceService.java:361`). The model follows the code, so a name can match an amount's digits or a longer category name.

## Model

| member | source | states |
|---|---|---|
| Categories.NewExpensesCategory | src/main/java/org/example/models/ExpensesCategory.java:15-27 | the two-argument constructor gives the initial amount as total, no limit, and a category that is never over budget |
| Categories.NewLimitedExpensesCategory | src/main/java/org/example/models/ExpensesCategory.java:36-40 | the three-argument constructor gives the initial amount as total and the given limit; it is over budget iff the amount exceeds the limit |
| Categories.RegisterExpenses | src/main/java/org/example/models/ExpensesCategory.java:65-67 | the total grows by exactly the amount; name and limit unchanged |
| Categories.SetLimit | src/main/java/org/example/models/ExpensesCategory.java:56-58 | the limit is replaced; name and total unchanged |
| Categories.CheckLimitExceeded | src/main/java/org/example/models/ExpensesCategory.java:74-77 | false without a limit; with a limit, true exactly when the total is strictly above it |
| Categories.RemainingBudget | src/main/java/org/example/models/ExpensesCategory.java:85-89 | a remaining budget is reported iff a limit is set, and then it is limit minus total |
| Categories.ExceededIffNegativeRemaining | src/main/java/org/example/models/ExpensesCategory.java:74-77 | over budget iff the remaining budget is negative; no limit is never over budget; total equal to the limit is not over budget |
| Categories.RegisterKeepsExceeded | src/main/java/org/example/models/ExpensesCategory.java:65-77 | a non-negative expense never brings an over-budget category back under its limit |
| Categories.NewIncomeCategory | src/main/java/org/example/models/IncomeCategory.java:21-24 | the constructor sets the total to the initial amount under the given name |
| Categories.RegisterIncome | src/main/java/org/example/models/IncomeCategory.java:40-42 | the total grows by exactly the amount; the name is unchanged |
| Categories.RegisterIncomesTotal | src/main/java/org/example/models/IncomeCategory.java:40-42 | after any sequence of registrations the total is the initial total plus the sum of the amounts, and the name is unchanged |
| Categories.RegisterIncomesMonotone | src/main/java/org/example/models/IncomeCategory.java:40-42 | with non-negative amounts the total never decreases |
| Wallets.FindExpensesCategory | src/main/java/org/example/models/Wallet.java:134-139 | the lookup finds a category iff one has exactly that name, and what it finds is such a category of the wallet |
| Wallets.FindIncomeCategory | src/main/java/org/example/models/Wallet.java:147-152 | the lookup finds a category iff one has exactly that name, and what it finds is such a category of the wallet |
| Wallets.NewWallet | src/main/java/org/example/models/Wallet.java:21-32 | a new wallet has the given name, balance 0, no categories, and satisfies the invariant |
| Wallets.RegisterExpenses | src/main/java/org/example/models/Wallet.java:60-73 | the balance drops by exactly the amount (a negative result only raises a notice). The named category grows by the amount, or one is appended with that amount. Every other category keeps its value and position, and income is untouched. The budget notice fires iff the category already existed and is now over its limit |
| Wallets.RegisterIncome | src/main/java/org/example/models/Wallet.java:82-91 | the balance rises by exactly the amount. The named income category grows by it, or one is appended. Every other category keeps its value and position, and expense categories are untouched |
| Wallets.SetLimitForCategory | src/main/java/org/example/models/Wallet.java:100-108 | the balance and income are unchanged. The named category gets the limit, or is created with total 0 and that limit. Other categories are unchanged. The notice fires iff the category existed and is over its new limit |
| Wallets.RegisterExpensesInvariant | src/main/java/org/example/models/Wallet.java:60-73 | total expenses grow by exactly the amount, total income is unchanged, and balance consistency and name uniqueness are preserved |
| Wallets.RegisterIncomeInvariant | src/main/java/org/example/models/Wallet.java:82-91 | total income grows by exactly the amount, total expenses are unchanged, and balance consistency and name uniqueness are preserved |
| Wallets.SetLimitInvariant | src/main/java/org/example/models/Wallet.java:100-108 | no category total changes (a new category adds a zero), and balance consistency and name uniqueness are preserved |
| Wallets.WellFormedThroughout | src/main/java/org/example/models/Wallet.java:60-108 | from a new wallet, after any sequence of recordings, balance == total income - total expenses and names are unique |
| Users.NewUser | src/main/java/org/example/models/User.java:28-32 | a new user has the given login and password and no wallets |
| Users.AddWallet | src/main/java/org/example/models/User.java:57-59 | exactly one new empty wallet is appended with no duplicate check; existing wallets keep their contents and order; credentials unchanged |
| Users.FindWallet | src/main/java/org/example/models/User.java:67-69 | the position found holds a wallet with that name, and nothing is found iff no wallet has that name |
| Users.GetWallet | src/main/java/org/example/models/User.java:67-69 | the result is one of the user's wallets with exactly that name, and it is empty iff no wallet has that name |
| Users.DeleteWallet | src/main/java/org/example/models/User.java:85-87 | the first occurrence of the wallet is removed and the others keep their relative order (multiset minus that wallet); an absent wallet is a no-op; credentials unchanged |
| Users.DeleteFoundWallet | src/main/java/org/example/services/FinanceService.java:305-308 | deleting the wallet a name lookup found removes exactly that position from the list |
| Users.DeletedNameGone | src/main/java/org/example/services/FinanceService.java:305-308 | with unique wallet names, the deleted name is gone and the remaining names stay unique |
| Ledger.PutWalletTotal | src/main/java/org/example/services/FinanceService.java:203-217 | replacing one wallet changes the total of all balances by exactly that wallet's change |
| Ledger.MoveEffect | src/main/java/org/example/services/FinanceService.java:243-244 | `Ledger.Move` credits the target and then debits the source, as both transfer rules do (also lines 280-281). A transfer keeps the total of all balances. Between distinct wallets, the target is credited and the source debited under "Transfers" by exactly the sum, and no other wallet changes. A self-transfer leaves the balance where it was |
| Finance.Start | src/main/java/org/example/services/FinanceService.java:32-35 | the service starts over the loaded user list with no current user and no current wallet, a valid session |
| Finance.StartInvariant | src/main/java/org/example/services/FinanceService.java:32-35 | a service started over stored users with unique logins, unique wallet names per user and well-formed wallets (or over no users) satisfies the session invariant |
| Finance.RegisterUserIfNotExists | src/main/java/org/example/services/FinanceService.java:51-59 | refused (state unchanged) iff the login is taken; otherwise exactly one new user is appended and becomes current |
| Finance.LogInUserIfValid | src/main/java/org/example/services/FinanceService.java:68-77 | succeeds iff some user matches both login and password, and makes a matching user current; on failure nothing changes |
| Finance.AddWalletToUser | src/main/java/org/example/services/FinanceService.java:85-92 | fatal without a current user; refused (unchanged) iff the name is taken; otherwise one empty wallet is appended to the current user only |
| Finance.SetActiveWallet | src/main/java/org/example/services/FinanceService.java:111-122 | fatal without a current user; succeeds iff the current user has a wallet with that name, which then becomes current; otherwise nothing changes |
| Finance.RecordIncome | src/main/java/org/example/services/FinanceService.java:214-217 | fatal without a current wallet; only the current wallet changes, as the wallet's income rule says; the total of all balances rises by the amount |
| Finance.RecordExpenses | src/main/java/org/example/services/FinanceService.java:203-206 | fatal without a current wallet; only the current wallet changes, with the wallet's notices returned; the total of all balances drops by the amount |
| Finance.SetCategoryLimit | src/main/java/org/example/services/FinanceService.java:192-195 | fatal without a current wallet; only the current wallet changes, with the budget notice returned; the total of all balances is unchanged |
| Finance.ExecuteTransferBetweenWallets | src/main/java/org/example/services/FinanceService.java:226-251 | fatal checks first (user, then wallet). Refused with no change, in this order: target name equals the current wallet's, balance below the sum (equal suffices), target missing. Otherwise the sum moves to the named wallet of the current user |
| Finance.TransferBetweenWalletsEffect | src/main/java/org/example/services/FinanceService.java:241-246 | on success the source drops and the target rises by the sum, and both "Transfers" legs grow by it. The total of all balances and every other wallet are unchanged, and the invariant holds |
| Finance.FindUser | src/main/java/org/example/services/FinanceService.java:275-277 | the first user with that login, and nothing iff no user has it |
| Finance.ExecuteTransferBetweenUsers | src/main/java/org/example/services/FinanceService.java:261-288 | fatal checks first. Refused with no change, in this order: insufficient funds; both wallet name and login equal the current ones (same login with another wallet is allowed); target user or target wallet missing. Otherwise the sum moves to that wallet |
| Finance.TransferBetweenUsersEffect | src/main/java/org/example/services/FinanceService.java:279-283 | on success the total of all balances is unchanged and the invariant holds. When source and target differ, the sum moves between them and both "Transfers" legs grow by it; they always differ when the current wallet belongs to the current user. When they coincide (a stale current wallet), its balance ends where it started. No other wallet changes |
| Finance.DeleteWallet | src/main/java/org/example/services/FinanceService.java:296-314 | fatal checks first; refused (unchanged) iff the name is the current wallet's or absent; otherwise exactly that wallet is removed from the current user and nothing else changes |
| Finance.DeleteWalletEffect | src/main/java/org/example/services/FinanceService.java:296-314 | a successful deletion keeps the invariant and every user's credentials; the name is gone and the wallet's balance leaves the total |
| Finance.RegisterKeepsInvariant | src/main/java/org/example/services/FinanceService.java:51-59 | registration keeps logins unique and the session invariant |
| Finance.AddWalletKeepsInvariant | src/main/java/org/example/services/FinanceService.java:85-92 | adding a wallet keeps wallet names unique per user and the session invariant |
| Finance.RecordingKeepsInvariant | src/main/java/org/example/services/FinanceService.java:192-217 | income, expense and limit recording keep the session invariant |
| Finance.RunKeepsInvariant | src/main/java/org/example/services/FinanceService.java:51-314 | every sequence of service calls keeps the invariant: unique logins, unique wallet names per user, and every balance consistent with its categories. Existing users' credentials never change |
| Reports.FirstMatch | src/main/java/org/example/services/FinanceService.java:360-363 | the first category whose text contains the name; nothing iff no category's text contains it |
| Reports.FindCategoriesByName | src/main/java/org/example/services/FinanceService.java:357-366 | each requested name yields either its first matching category or a not-found notice, in request order. The results agree with the reference definitions `Selected` and `Unmatched` |
| Reports.ExpensesText | src/main/java/org/example/models/ExpensesCategory.java:85-90 | the text starts with the name; without a limit it is name and amount only; with a limit it contains the remaining budget |
| Reports.IncomeText | src/main/java/org/example/models/IncomeCategory.java:49-51 | the text starts with the category name |
| Reports.ExactNameNeverMissing | src/main/java/org/example/services/FinanceService.java:357-366 | a category whose text starts with the name is never reported missing, though an earlier containing category is chosen first |
| Reports.AmountTextMatches | src/main/java/org/example/services/FinanceService.java:361 | the match is on rendered text: a name occurring in the formatted amount selects the category |
| Scenarios.DuplicateRegistrationRefused | src/main/java/org/example/services/FinanceService.java:51-59 | registering "a" twice: the second call is refused and the user count stays 1 |
| Scenarios.TransferExample | src/main/java/org/example/services/FinanceService.java:226-251 | W1 = 100, W2 = 0: moving 40 gives 60 and 40 with "Transfers" legs of 40; moving 200 is refused and changes nothing |

## Left out

- Console controller, command constants and entry point (`FinanceController.java`, `ConsoleCommand.java`, `Main.java`): input parsing, retry loops, `System.exit`, and the `allcat` sentinel. This is I/O plumbing.
- Storage (`UserDataStorage.java`, `persistChanges`): file deletion and Java serialization. This is I/O plus a foreign library. The model's `Finance.Start` takes the loaded user list as a parameter.
- The `display*` methods, `displayBalance` and the report totals: these print text only.
- `%.2f` formatting and the platform line separator: the rendered text takes a formatting function `fmt` as a parameter and uses `"\n"`.
- IEEE `double` rounding, NaN and infinities: amounts are unbounded reals.
- Printed notices: they become returned values. The two notices printed by the debit leg of a transfer (budget exceeded for "Transfers", negative balance) are not returned by the transfer functions.
- `Finance.LogInUserIfValid`, `Users.GetWallet`: the source uses `findAny`, and the model takes the first match. These agree whenever logins and wallet names are unique, which `Finance.RunKeepsInvariant` shows is kept.
- `Users.DeleteWallet`: the source removes by reference identity, and the model removes the first wallet equal by value. Within one user, names are unique, so the two coincide.
- Every session operation requires `Finance.Valid`, meaning the current user and wallet designate existing entries. A Java reference cannot dangle, so this is a representation requirement, not a caller obligation of the source.
