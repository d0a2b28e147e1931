/** Worked examples, stated over concrete sessions. */
module Scenarios {
  import opened Wrappers
  import opened Wallets
  import opened Users
  import opened Ledger
  import opened Finance
  import Categories
  import opened Seqs

  /** A second registration under a taken login is refused and adds nobody. */
  lemma DuplicateRegistrationRefused(password: string)
    ensures var first := RegisterUserIfNotExists(Start([]), "a", "p").session;
      && |first.users| == 1
      && !RegisterUserIfNotExists(first, "a", password).answer
      && RegisterUserIfNotExists(first, "a", password).session == first
  {
    var first := RegisterUserIfNotExists(Start([]), "a", "p").session;
    assert Logins(first.users) == ["a"];
  }

  /** User "a" with wallet W1 holding 100 of income and an empty wallet W2, W1 selected. */
  function TwoWallets(): Session {
    var w1 := Wallet("W1", [], [Categories.IncomeCategory("Salary", 100.0)], 100.0);
    Session([User("a", "p", [w1, NewWallet("W2")])], Some(0), Some(WalletRef(0, "W1")))
  }

  lemma TwoWalletsLookups()
    ensures WalletNames(TwoWallets().users[0].wallets) == ["W1", "W2"]
    ensures FindWallet(TwoWallets().users[0], "W1") == Some(0)
    ensures FindWallet(TwoWallets().users[0], "W2") == Some(1)
  {
    var u := TwoWallets().users[0];
    assert WalletNames(u.wallets) == ["W1", "W2"];
    assert "W1" != "W2" by { assert "W1"[1] != "W2"[1]; }
    assert ["W1", "W2"][1..] == ["W2"];
  }

  lemma TwoWalletsInvariant()
    ensures Invariant(TwoWallets())
  {
    var s := TwoWallets();
    TwoWalletsLookups();
    assert Logins(s.users) == ["a"];
    var w1 := s.users[0].wallets[0];
    assert IncomeTotals(w1.incomeCategories) == [100.0];
    assert Sum([100.0]) == 100.0 by { assert [100.0][..0] == []; }
    assert WellFormed(w1);
    assert WellFormed(s.users[0].wallets[1]);
  }

  /**
   * Moving 40 from W1 (balance 100) to W2 (balance 0) leaves 60 and 40;
   * moving 200 is refused for insufficient funds and changes nothing.
   */
  lemma TransferExample()
    ensures Valid(TwoWallets())
    ensures var r := ExecuteTransferBetweenWallets(TwoWallets(), "W2", 40.0);
      && r.Done? && r.answer == Transferred
      && WalletAt(r.session.users, WalletRef(0, "W1")).balance == 60.0
      && WalletAt(r.session.users, WalletRef(0, "W2")).balance == 40.0
      && ExpensesIn(WalletAt(r.session.users, WalletRef(0, "W1")), TransfersCategory) == 40.0
      && IncomeIn(WalletAt(r.session.users, WalletRef(0, "W2")), TransfersCategory) == 40.0
    ensures var r := ExecuteTransferBetweenWallets(TwoWallets(), "W2", 200.0);
      r.Done? && r.answer == InsufficientFunds && r.session == TwoWallets()
  {
    var s := TwoWallets();
    TwoWalletsLookups();
    TwoWalletsInvariant();
    var w1 := WalletAt(s.users, WalletRef(0, "W1"));
    var w2 := WalletAt(s.users, WalletRef(0, "W2"));
    assert w1.balance == 100.0 && w2.balance == 0.0;
    assert ExpenseNames(w1.expensesCategories) == [];
    assert ExpensesIn(w1, TransfersCategory) == 0.0;
    assert IncomeNames(w2.incomeCategories) == [];
    assert IncomeIn(w2, TransfersCategory) == 0.0;
    TransferBetweenWalletsEffect(s, "W2", 40.0);
  }
}
