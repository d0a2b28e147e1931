/**
 * The session the finance service keeps: the list of users, the user logged
 * in and the wallet selected, and the operations that change them. Every
 * operation that needs a logged-in user or a selected wallet reports a fatal
 * fault when it is missing, in the order the service checks them.
 */
module Finance {
  import opened Wrappers
  import opened Seqs
  import opened Wallets
  import opened Users
  import opened Ledger

  /** `currentUser` is a position in `users`; `currentWallet` addresses a wallet of some user. */
  datatype Session = Session(users: seq<User>, currentUser: Option<nat>, currentWallet: Option<WalletRef>)

  /** The current user and current wallet designate existing entries. */
  predicate Valid(s: Session) {
    && (s.currentUser.Some? ==> s.currentUser.value < |s.users|)
    && (s.currentWallet.Some? ==> Resolves(s.users, s.currentWallet.value))
  }

  /** What every operation keeps: unique logins, unique wallet names per user, well-formed wallets. */
  predicate Invariant(s: Session) {
    && Valid(s)
    && Unique(Logins(s.users))
    && (forall o :: 0 <= o < |s.users| ==> Unique(WalletNames(s.users[o].wallets)))
    && AllWellFormed(s.users)
  }

  /** The service a session starts from: users loaded from storage, nobody logged in. */
  function Start(users: seq<User>): (s: Session)
    ensures Valid(s) && s.users == users && s.currentUser.None? && s.currentWallet.None?
  {
    Session(users, None, None)
  }

  /** The fatal conditions raised when no user is logged in or no wallet is selected. */
  datatype Fault = UserNotDefined | WalletNotSpecified

  datatype Outcome<A> = Done(session: Session, answer: A) | Fatal(fault: Fault)

  /** The notices printed while recording an expense. */
  datatype ExpenseNotices = ExpenseNotices(budgetExceeded: bool, negativeBalance: bool)

  /** Why a transfer was refused, or that it happened. */
  datatype TransferStatus = Transferred | SameWallet | InsufficientFunds | TargetMissing

  lemma ReshapeKeepsValid(s: Session, users: seq<User>)
    requires Valid(s) && SameShape(s.users, users)
    ensures Valid(s.(users := users))
  {
    if s.currentWallet.Some? {
      SameShapeResolves(s.users, users, s.currentWallet.value);
    }
  }

  /**
   * Registration: refused when the login is taken; otherwise exactly one user
   * is appended and becomes the current user.
   */
  function RegisterUserIfNotExists(s: Session, login: string, password: string): (r: Outcome<bool>)
    requires Valid(s)
    ensures r.Done? && Valid(r.session)
    ensures r.answer <==> login !in Logins(s.users)
    ensures !r.answer ==> r.session == s
    ensures r.answer ==>
      && r.session.users == s.users + [NewUser(login, password)]
      && r.session.currentUser == Some(|s.users|)
      && r.session.currentWallet == s.currentWallet
  {
    if login in Logins(s.users) then Done(s, false)
    else Done(s.(users := s.users + [NewUser(login, password)], currentUser := Some(|s.users|)), true)
  }

  function Credentials(users: seq<User>): (r: seq<(string, string)>)
    ensures |r| == |users| && forall o :: 0 <= o < |users| ==> r[o] == (users[o].login, users[o].password)
  {
    seq(|users|, o requires 0 <= o < |users| => (users[o].login, users[o].password))
  }

  /**
   * Login: succeeds exactly when some user has both that login and that
   * password, and then makes that user current; otherwise nothing changes.
   */
  function LogInUserIfValid(s: Session, login: string, password: string): (r: Outcome<bool>)
    requires Valid(s)
    ensures r.Done? && Valid(r.session)
    ensures r.answer <==> exists o :: 0 <= o < |s.users| && s.users[o].login == login && s.users[o].password == password
    ensures !r.answer ==> r.session == s
    ensures r.answer ==>
      && r.session.users == s.users && r.session.currentWallet == s.currentWallet
      && r.session.currentUser.Some?
      && s.users[r.session.currentUser.value].login == login
      && s.users[r.session.currentUser.value].password == password
  {
    match IndexOf(Credentials(s.users), (login, password))
    case Some(o) => Done(s.(currentUser := Some(o)), true)
    case None => Done(s, false)
  }

  /** Appending a wallet to one user keeps every address resolving to the same wallet. */
  lemma AddWalletKeepsRefs(users: seq<User>, o: nat, name: string, q: WalletRef)
    requires o < |users| && Resolves(users, q)
    ensures Resolves(users[o := AddWallet(users[o], name)], q)
    ensures WalletAt(users[o := AddWallet(users[o], name)], q) == WalletAt(users, q)
  {
    if q.owner == o {
      var names := WalletNames(users[o].wallets);
      IndexOfAppend(names, name, q.name);
    }
  }

  /**
   * Adding a wallet to the current user: refused on a duplicate name,
   * otherwise one empty wallet is appended to that user and nothing else changes.
   */
  function AddWalletToUser(s: Session, name: string): (r: Outcome<bool>)
    requires Valid(s)
    ensures r.Fatal? <==> s.currentUser.None?
    ensures r.Fatal? ==> r.fault == UserNotDefined
    ensures r.Done? ==>
      && Valid(r.session)
      && r.session.currentUser == s.currentUser && r.session.currentWallet == s.currentWallet
      && (r.answer <==> name !in WalletNames(s.users[s.currentUser.value].wallets))
      && (!r.answer ==> r.session == s)
    ensures r.Done? && r.answer ==>
      var cu := s.currentUser.value;
      && |r.session.users| == |s.users|
      && r.session.users[cu] == AddWallet(s.users[cu], name)
      && forall o :: 0 <= o < |s.users| && o != cu ==> r.session.users[o] == s.users[o]
  {
    if s.currentUser.None? then Fatal(UserNotDefined)
    else
      var cu := s.currentUser.value;
      if name in WalletNames(s.users[cu].wallets) then Done(s, false)
      else
        var users := s.users[cu := AddWallet(s.users[cu], name)];
        if s.currentWallet.Some? then AddWalletKeepsRefs(s.users, cu, name, s.currentWallet.value); Done(s.(users := users), true)
        else Done(s.(users := users), true)
  }

  /**
   * Selecting the active wallet: succeeds exactly when the current user has a
   * wallet with that name; on failure the selection stays as it was.
   */
  function SetActiveWallet(s: Session, name: string): (r: Outcome<bool>)
    requires Valid(s)
    ensures r.Fatal? <==> s.currentUser.None?
    ensures r.Fatal? ==> r.fault == UserNotDefined
    ensures r.Done? ==>
      && Valid(r.session)
      && r.session.users == s.users && r.session.currentUser == s.currentUser
      && (r.answer <==> name in WalletNames(s.users[s.currentUser.value].wallets))
      && (r.answer ==> r.session.currentWallet == Some(WalletRef(s.currentUser.value, name)))
      && (!r.answer ==> r.session == s)
  {
    if s.currentUser.None? then Fatal(UserNotDefined)
    else
      var cu := s.currentUser.value;
      match FindWallet(s.users[cu], name)
      case Some(_) => Done(s.(currentWallet := Some(WalletRef(cu, name))), true)
      case None => Done(s, false)
  }

  /** Records income in the selected wallet; every other wallet is left alone. */
  function RecordIncome(s: Session, category: string, amount: real): (r: Outcome<()>)
    requires Valid(s)
    ensures r.Fatal? <==> s.currentWallet.None?
    ensures r.Fatal? ==> r.fault == WalletNotSpecified
    ensures r.Done? ==>
      var cw := s.currentWallet.value;
      && Valid(r.session) && SameShape(s.users, r.session.users)
      && r.session.currentUser == s.currentUser && r.session.currentWallet == s.currentWallet
      && WalletAt(r.session.users, cw) == Wallets.RegisterIncome(WalletAt(s.users, cw), category, amount)
      && (forall q :: Resolves(s.users, q) && q != cw ==> WalletAt(r.session.users, q) == WalletAt(s.users, q))
      && TotalBalance(r.session.users) == TotalBalance(s.users) + amount
  {
    if s.currentWallet.None? then Fatal(WalletNotSpecified)
    else
      var cw := s.currentWallet.value;
      var w := Wallets.RegisterIncome(WalletAt(s.users, cw), category, amount);
      var users := PutWallet(s.users, cw, w);
      PutWalletTotal(s.users, cw, w);
      ReshapeKeepsValid(s, users);
      Done(s.(users := users), ())
  }

  /**
   * Records an expense in the selected wallet, returning the budget and
   * negative-balance notices; every other wallet is left alone.
   */
  function RecordExpenses(s: Session, category: string, amount: real): (r: Outcome<ExpenseNotices>)
    requires Valid(s)
    ensures r.Fatal? <==> s.currentWallet.None?
    ensures r.Fatal? ==> r.fault == WalletNotSpecified
    ensures r.Done? ==>
      var cw := s.currentWallet.value;
      var receipt := Wallets.RegisterExpenses(WalletAt(s.users, cw), category, amount);
      && Valid(r.session) && SameShape(s.users, r.session.users)
      && r.session.currentUser == s.currentUser && r.session.currentWallet == s.currentWallet
      && WalletAt(r.session.users, cw) == receipt.wallet
      && r.answer == ExpenseNotices(receipt.budgetExceeded, receipt.negativeBalance)
      && (forall q :: Resolves(s.users, q) && q != cw ==> WalletAt(r.session.users, q) == WalletAt(s.users, q))
      && TotalBalance(r.session.users) == TotalBalance(s.users) - amount
  {
    if s.currentWallet.None? then Fatal(WalletNotSpecified)
    else
      var cw := s.currentWallet.value;
      var receipt := Wallets.RegisterExpenses(WalletAt(s.users, cw), category, amount);
      var users := PutWallet(s.users, cw, receipt.wallet);
      PutWalletTotal(s.users, cw, receipt.wallet);
      ReshapeKeepsValid(s, users);
      Done(s.(users := users), ExpenseNotices(receipt.budgetExceeded, receipt.negativeBalance))
  }

  /** Sets a category limit in the selected wallet, returning the budget notice; no balance changes. */
  function SetCategoryLimit(s: Session, category: string, limit: real): (r: Outcome<bool>)
    requires Valid(s)
    ensures r.Fatal? <==> s.currentWallet.None?
    ensures r.Fatal? ==> r.fault == WalletNotSpecified
    ensures r.Done? ==>
      var cw := s.currentWallet.value;
      var receipt := SetLimitForCategory(WalletAt(s.users, cw), category, limit);
      && Valid(r.session) && SameShape(s.users, r.session.users)
      && r.session.currentUser == s.currentUser && r.session.currentWallet == s.currentWallet
      && WalletAt(r.session.users, cw) == receipt.wallet
      && r.answer == receipt.budgetExceeded
      && (forall q :: Resolves(s.users, q) && q != cw ==> WalletAt(r.session.users, q) == WalletAt(s.users, q))
      && TotalBalance(r.session.users) == TotalBalance(s.users)
  {
    if s.currentWallet.None? then Fatal(WalletNotSpecified)
    else
      var cw := s.currentWallet.value;
      var receipt := SetLimitForCategory(WalletAt(s.users, cw), category, limit);
      var users := PutWallet(s.users, cw, receipt.wallet);
      PutWalletKeepsTotal(s.users, cw, receipt.wallet);
      ReshapeKeepsValid(s, users);
      Done(s.(users := users), receipt.budgetExceeded)
  }

  /**
   * Transfer from the selected wallet to another wallet of the current user.
   * Checked in this order: the target is the selected wallet's name, the
   * balance is below the sum (equal is enough), the target does not exist.
   * Any refusal leaves the session unchanged.
   */
  function ExecuteTransferBetweenWallets(s: Session, target: string, sum: real): (r: Outcome<TransferStatus>)
    requires Valid(s)
    ensures s.currentUser.None? ==> r == Fatal(UserNotDefined)
    ensures s.currentUser.Some? && s.currentWallet.None? ==> r == Fatal(WalletNotSpecified)
    ensures s.currentUser.Some? && s.currentWallet.Some? ==>
      var cu := s.currentUser.value;
      var src := s.currentWallet.value;
      var balance := WalletAt(s.users, src).balance;
      && r.Done? && Valid(r.session)
      && (r.answer == SameWallet <==> target == src.name)
      && (r.answer == InsufficientFunds <==> target != src.name && balance < sum)
      && (r.answer == TargetMissing <==>
            target != src.name && balance >= sum && target !in WalletNames(s.users[cu].wallets))
      && (r.answer != Transferred ==> r.session == s)
      && (r.answer == Transferred ==>
            r.session == s.(users := Move(s.users, src, WalletRef(cu, target), sum)))
  {
    if s.currentUser.None? then Fatal(UserNotDefined)
    else if s.currentWallet.None? then Fatal(WalletNotSpecified)
    else
      var cu := s.currentUser.value;
      var src := s.currentWallet.value;
      if target == src.name then Done(s, SameWallet)
      else if WalletAt(s.users, src).balance < sum then Done(s, InsufficientFunds)
      else if FindWallet(s.users[cu], target).None? then Done(s, TargetMissing)
      else
        var users := Move(s.users, src, WalletRef(cu, target), sum);
        MoveEffect(s.users, src, WalletRef(cu, target), sum);
        ReshapeKeepsValid(s, users);
        Done(s.(users := users), Transferred)
  }

  /** Position of the first user with that login. */
  function FindUser(users: seq<User>, login: string): (r: Option<nat>)
    ensures r.Some? ==> r.value < |users| && users[r.value].login == login
    ensures r.Some? ==> forall j :: 0 <= j < r.value ==> users[j].login != login
    ensures r.None? <==> login !in Logins(users)
  {
    IndexOf(Logins(users), login)
  }

  /**
   * Transfer from the selected wallet to a wallet of any user. Checked in
   * this order: the balance is below the sum, both the wallet name and the
   * login match the current ones (a same-login transfer to another wallet is
   * allowed), the target user or the target wallet does not exist. Any
   * refusal leaves the session unchanged.
   */
  function ExecuteTransferBetweenUsers(s: Session, login: string, walletName: string, sum: real): (r: Outcome<TransferStatus>)
    requires Valid(s)
    ensures s.currentUser.None? ==> r == Fatal(UserNotDefined)
    ensures s.currentUser.Some? && s.currentWallet.None? ==> r == Fatal(WalletNotSpecified)
    ensures s.currentUser.Some? && s.currentWallet.Some? ==>
      var cu := s.currentUser.value;
      var src := s.currentWallet.value;
      var balance := WalletAt(s.users, src).balance;
      var isSelf := walletName == src.name && login == s.users[cu].login;
      var found := FindUser(s.users, login).Some?
                   && walletName in WalletNames(s.users[FindUser(s.users, login).value].wallets);
      && r.Done? && Valid(r.session)
      && (r.answer == InsufficientFunds <==> balance < sum)
      && (r.answer == SameWallet <==> balance >= sum && isSelf)
      && (r.answer == TargetMissing <==> balance >= sum && !isSelf && !found)
      && (r.answer != Transferred ==> r.session == s)
      && (r.answer == Transferred ==>
            r.session == s.(users := Move(s.users, src, WalletRef(FindUser(s.users, login).value, walletName), sum)))
  {
    if s.currentUser.None? then Fatal(UserNotDefined)
    else if s.currentWallet.None? then Fatal(WalletNotSpecified)
    else
      var cu := s.currentUser.value;
      var src := s.currentWallet.value;
      if WalletAt(s.users, src).balance < sum then Done(s, InsufficientFunds)
      else if walletName == src.name && login == s.users[cu].login then Done(s, SameWallet)
      else
        match FindUser(s.users, login)
        case None => Done(s, TargetMissing)
        case Some(tu) =>
          if FindWallet(s.users[tu], walletName).None? then Done(s, TargetMissing)
          else
            var users := Move(s.users, src, WalletRef(tu, walletName), sum);
            MoveEffect(s.users, src, WalletRef(tu, walletName), sum);
            ReshapeKeepsValid(s, users);
            Done(s.(users := users), Transferred)
  }

  /**
   * Deleting a wallet of the current user: refused for the selected wallet's
   * name and for a name the user does not have; otherwise exactly that
   * wallet is removed and the others keep their order.
   */
  function DeleteWallet(s: Session, name: string): (r: Outcome<bool>)
    requires Valid(s)
    ensures s.currentUser.None? ==> r == Fatal(UserNotDefined)
    ensures s.currentUser.Some? && s.currentWallet.None? ==> r == Fatal(WalletNotSpecified)
    ensures s.currentUser.Some? && s.currentWallet.Some? ==>
      var cu := s.currentUser.value;
      var ws := s.users[cu].wallets;
      && r.Done? && Valid(r.session)
      && (r.answer <==> name != s.currentWallet.value.name && name in WalletNames(ws))
      && (!r.answer ==> r.session == s)
      && (r.answer ==>
            var i := FindWallet(s.users[cu], name).value;
            && r.session.currentUser == s.currentUser && r.session.currentWallet == s.currentWallet
            && |r.session.users| == |s.users|
            && r.session.users[cu].login == s.users[cu].login
            && r.session.users[cu].password == s.users[cu].password
            && r.session.users[cu].wallets == ws[..i] + ws[i + 1..]
            && forall o :: 0 <= o < |s.users| && o != cu ==> r.session.users[o] == s.users[o])
  {
    if s.currentUser.None? then Fatal(UserNotDefined)
    else if s.currentWallet.None? then Fatal(WalletNotSpecified)
    else
      var cu := s.currentUser.value;
      var cw := s.currentWallet.value;
      if name == cw.name then Done(s, false)
      else
        match GetWallet(s.users[cu], name)
        case None => Done(s, false)
        case Some(w) =>
          var u := Users.DeleteWallet(s.users[cu], w);
          DeleteFoundWallet(s.users[cu], name);
          if cw.owner == cu then
            InAfterRemove(WalletNames(s.users[cu].wallets), FindWallet(s.users[cu], name).value, cw.name);
            Done(s.(users := s.users[cu := u]), true)
          else Done(s.(users := s.users[cu := u]), true)
  }

  /** Registration keeps logins unique: it appends a user only under a fresh login. */
  lemma {:induction false} RegisterKeepsInvariant(s: Session, login: string, password: string)
    requires Invariant(s)
    ensures Invariant(RegisterUserIfNotExists(s, login, password).session)
  {
    var r := RegisterUserIfNotExists(s, login, password).session;
    if login !in Logins(s.users) {
      assert Logins(r.users) == Logins(s.users) + [login];
      assert WalletNames(r.users[|s.users|].wallets) == [];
    }
  }

  /** Adding a wallet keeps its owner's wallet names unique and every wallet well-formed. */
  lemma {:induction false} AddWalletKeepsInvariant(s: Session, name: string)
    requires Invariant(s)
    ensures AddWalletToUser(s, name).Done? ==> Invariant(AddWalletToUser(s, name).session)
  {
    var r := AddWalletToUser(s, name);
    if r.Done? && r.answer {
      var cu := s.currentUser.value;
      var u := AddWallet(s.users[cu], name);
      assert r.session.users == s.users[cu := u];
      assert Logins(r.session.users) == Logins(s.users);
      assert WalletNames(u.wallets) == WalletNames(s.users[cu].wallets) + [name];
      assert u.wallets == s.users[cu].wallets + [NewWallet(name)];
    }
  }

  /** A session whose users changed only in wallet contents keeps the invariant if all wallets stay well-formed. */
  lemma ReshapeKeepsInvariant(s: Session, users: seq<User>)
    requires Invariant(s) && SameShape(s.users, users) && AllWellFormed(users)
    ensures Invariant(s.(users := users))
  {
    ReshapeKeepsValid(s, users);
    assert Logins(users) == Logins(s.users);
  }

  /** Recording income, an expense or a limit keeps the invariant. */
  lemma {:induction false} RecordingKeepsInvariant(s: Session, category: string, amount: real)
    requires Invariant(s)
    ensures RecordIncome(s, category, amount).Done? ==> Invariant(RecordIncome(s, category, amount).session)
    ensures RecordExpenses(s, category, amount).Done? ==> Invariant(RecordExpenses(s, category, amount).session)
    ensures SetCategoryLimit(s, category, amount).Done? ==> Invariant(SetCategoryLimit(s, category, amount).session)
  {
    if s.currentWallet.Some? {
      var cw := s.currentWallet.value;
      var w := WalletAt(s.users, cw);
      assert WellFormed(w);
      RegisterIncomeInvariant(w, category, amount);
      PutWalletWellFormed(s.users, cw, Wallets.RegisterIncome(w, category, amount));
      ReshapeKeepsInvariant(s, RecordIncome(s, category, amount).session.users);
      RegisterExpensesInvariant(w, category, amount);
      PutWalletWellFormed(s.users, cw, Wallets.RegisterExpenses(w, category, amount).wallet);
      ReshapeKeepsInvariant(s, RecordExpenses(s, category, amount).session.users);
      SetLimitInvariant(w, category, amount);
      PutWalletWellFormed(s.users, cw, SetLimitForCategory(w, category, amount).wallet);
      ReshapeKeepsInvariant(s, SetCategoryLimit(s, category, amount).session.users);
    }
  }

  /**
   * Moving a sum between two wallets of a session that keeps the invariant:
   * the invariant and the total hold, distinct wallets trade the sum under
   * "Transfers", a self-transfer ends at the same balance, and no other
   * wallet changes.
   */
  lemma MoveKeeps(s: Session, src: WalletRef, dst: WalletRef, sum: real)
    requires Invariant(s) && Resolves(s.users, src) && Resolves(s.users, dst)
    ensures var t := s.(users := Move(s.users, src, dst, sum));
      && Invariant(t)
      && TotalBalance(t.users) == TotalBalance(s.users)
      && (src != dst ==>
        && WalletAt(t.users, src).balance == WalletAt(s.users, src).balance - sum
        && WalletAt(t.users, dst).balance == WalletAt(s.users, dst).balance + sum
        && ExpensesIn(WalletAt(t.users, src), TransfersCategory) == ExpensesIn(WalletAt(s.users, src), TransfersCategory) + sum
        && IncomeIn(WalletAt(t.users, dst), TransfersCategory) == IncomeIn(WalletAt(s.users, dst), TransfersCategory) + sum)
      && (src == dst ==> WalletAt(t.users, src).balance == WalletAt(s.users, src).balance)
      && forall q :: Resolves(s.users, q) && q != src && q != dst ==> WalletAt(t.users, q) == WalletAt(s.users, q)
  {
    MoveEffect(s.users, src, dst, sum);
    if src != dst {
      MoveTransfers(s.users, src, dst, sum);
    }
    ReshapeKeepsInvariant(s, Move(s.users, src, dst, sum));
  }

  /**
   * A successful wallet-to-wallet transfer keeps the invariant and the total
   * of all balances; the selected wallet loses exactly the sum and the target
   * gains it, each leg added to its "Transfers" category; no other wallet changes.
   */
  lemma {:induction false} TransferBetweenWalletsEffect(s: Session, target: string, sum: real)
    requires Invariant(s)
    ensures var o := ExecuteTransferBetweenWallets(s, target, sum);
      o.Done? && o.answer == Transferred ==>
      var r := o.session;
      var src := s.currentWallet.value;
      var dst := WalletRef(s.currentUser.value, target);
      && Invariant(r)
      && TotalBalance(r.users) == TotalBalance(s.users)
      && WalletAt(r.users, src).balance == WalletAt(s.users, src).balance - sum
      && WalletAt(r.users, dst).balance == WalletAt(s.users, dst).balance + sum
      && ExpensesIn(WalletAt(r.users, src), TransfersCategory) == ExpensesIn(WalletAt(s.users, src), TransfersCategory) + sum
      && IncomeIn(WalletAt(r.users, dst), TransfersCategory) == IncomeIn(WalletAt(s.users, dst), TransfersCategory) + sum
      && forall q :: Resolves(s.users, q) && q != src && q != dst ==> WalletAt(r.users, q) == WalletAt(s.users, q)
  {
    var o := ExecuteTransferBetweenWallets(s, target, sum);
    if o.Done? && o.answer == Transferred {
      var src := s.currentWallet.value;
      var dst := WalletRef(s.currentUser.value, target);
      assert src != dst;
      MoveKeeps(s, src, dst, sum);
    }
  }

  /**
   * A successful user-to-user transfer keeps the invariant and the total of
   * all balances. Between distinct wallets the sum moves from one to the
   * other; they are distinct whenever the selected wallet belongs to the
   * logged-in user (as the console flow guarantees). A stale selected wallet
   * can be the target itself, and then its balance ends where it started.
   */
  lemma {:induction false} TransferBetweenUsersEffect(s: Session, login: string, walletName: string, sum: real)
    requires Invariant(s)
    ensures var o := ExecuteTransferBetweenUsers(s, login, walletName, sum);
      o.Done? && o.answer == Transferred ==>
      && Invariant(o.session)
      && TotalBalance(o.session.users) == TotalBalance(s.users)
    ensures var o := ExecuteTransferBetweenUsers(s, login, walletName, sum);
      o.Done? && o.answer == Transferred ==>
      var r := o.session;
      var src := s.currentWallet.value;
      var dst := WalletRef(FindUser(s.users, login).value, walletName);
      && (src.owner == s.currentUser.value ==> src != dst)
      && (src != dst ==>
        && WalletAt(r.users, src).balance == WalletAt(s.users, src).balance - sum
        && WalletAt(r.users, dst).balance == WalletAt(s.users, dst).balance + sum
        && ExpensesIn(WalletAt(r.users, src), TransfersCategory) == ExpensesIn(WalletAt(s.users, src), TransfersCategory) + sum
        && IncomeIn(WalletAt(r.users, dst), TransfersCategory) == IncomeIn(WalletAt(s.users, dst), TransfersCategory) + sum)
      && (src == dst ==> WalletAt(r.users, src).balance == WalletAt(s.users, src).balance)
      && forall q :: Resolves(s.users, q) && q != src && q != dst ==> WalletAt(r.users, q) == WalletAt(s.users, q)
  {
    var o := ExecuteTransferBetweenUsers(s, login, walletName, sum);
    if o.Done? && o.answer == Transferred {
      var src := s.currentWallet.value;
      var dst := WalletRef(FindUser(s.users, login).value, walletName);
      MoveKeeps(s, src, dst, sum);
    }
  }

  /** Deleting a wallet keeps the invariant; the deleted name is gone and its balance leaves the total. */
  lemma {:induction false} DeleteWalletEffect(s: Session, name: string)
    requires Invariant(s)
    ensures var o := DeleteWallet(s, name);
      o.Done? && o.answer ==>
      var r := o.session;
      var cu := s.currentUser.value;
      && Invariant(r)
      && name !in WalletNames(r.users[cu].wallets)
      && TotalBalance(r.users) == TotalBalance(s.users) - WalletAt(s.users, WalletRef(cu, name)).balance
      && KeepsCredentials(s, r)
  {
    var o := DeleteWallet(s, name);
    if o.Done? && o.answer {
      var cu := s.currentUser.value;
      var i := FindWallet(s.users[cu], name).value;
      assert o.session.users == DropWallet(s.users, cu, i);
      DropCurrentKeeps(s, o.session, name);
      assert WalletAt(s.users, WalletRef(cu, name)) == s.users[cu].wallets[i];
      DropWalletTotal(s.users, cu, i);
    }
  }

  /** The session after the current user's wallet `name` is dropped, current user and wallet kept. */
  lemma DropCurrentKeeps(s: Session, t: Session, name: string)
    requires Invariant(s) && Valid(t) && s.currentUser.Some?
    requires name in WalletNames(s.users[s.currentUser.value].wallets)
    requires t.currentUser == s.currentUser && t.currentWallet == s.currentWallet
    requires t.users == DropWallet(s.users, s.currentUser.value, FindWallet(s.users[s.currentUser.value], name).value)
    ensures Invariant(t)
    ensures name !in WalletNames(t.users[s.currentUser.value].wallets)
    ensures KeepsCredentials(s, t)
  {
    var cu := s.currentUser.value;
    var ws := s.users[cu].wallets;
    var i := FindWallet(s.users[cu], name).value;
    WalletNamesRemove(ws, i);
    RemovedIndexGone(WalletNames(ws), i);
    DropWalletWellFormed(s.users, cu, i);
    assert Logins(t.users) == Logins(s.users);
    forall o | 0 <= o < |t.users|
      ensures Unique(WalletNames(t.users[o].wallets))
    {
      if o != cu { assert t.users[o] == s.users[o]; }
    }
  }

  /** Users are never removed and their credentials never change. */
  predicate KeepsCredentials(s: Session, t: Session) {
    && |s.users| <= |t.users|
    && forall o :: 0 <= o < |s.users| ==>
         t.users[o].login == s.users[o].login && t.users[o].password == s.users[o].password
  }

  /** One call the console loop makes on the service. */
  datatype Command =
    | SignUp(login: string, password: string)
    | SignIn(login: string, password: string)
    | CreateWallet(name: string)
    | SelectWallet(name: string)
    | AddIncome(category: string, amount: real)
    | AddExpense(category: string, amount: real)
    | LimitCategory(category: string, limit: real)
    | WalletTransfer(target: string, sum: real)
    | UserTransfer(login: string, walletName: string, sum: real)
    | RemoveWallet(name: string)

  function SessionOf<A>(o: Outcome<A>): Option<Session> {
    match o
    case Done(t, _) => Some(t)
    case Fatal(_) => None
  }

  /** The session after one call, or nothing when the call raised a fault. */
  function Perform(s: Session, c: Command): Option<Session>
    requires Valid(s)
  {
    match c
    case SignUp(l, p) => SessionOf(RegisterUserIfNotExists(s, l, p))
    case SignIn(l, p) => SessionOf(LogInUserIfValid(s, l, p))
    case CreateWallet(n) => SessionOf(AddWalletToUser(s, n))
    case SelectWallet(n) => SessionOf(SetActiveWallet(s, n))
    case AddIncome(n, a) => SessionOf(RecordIncome(s, n, a))
    case AddExpense(n, a) => SessionOf(RecordExpenses(s, n, a))
    case LimitCategory(n, l) => SessionOf(SetCategoryLimit(s, n, l))
    case WalletTransfer(t, a) => SessionOf(ExecuteTransferBetweenWallets(s, t, a))
    case UserTransfer(l, w, a) => SessionOf(ExecuteTransferBetweenUsers(s, l, w, a))
    case RemoveWallet(n) => SessionOf(DeleteWallet(s, n))
  }

  /** Runs calls in order, stopping at the first fault. */
  function Run(s: Session, cmds: seq<Command>): Session
    requires Invariant(s)
    decreases |cmds|
  {
    if |cmds| == 0 then s
    else
      PerformEffect(s, cmds[0]);
      match Perform(s, cmds[0])
      case None => s
      case Some(t) => Run(t, cmds[1..])
  }

  /** A call that did not fault kept the invariant and every existing user's credentials. */
  predicate StepKeeps(s: Session, r: Option<Session>) {
    r.Some? ==> Invariant(r.value) && KeepsCredentials(s, r.value)
  }

  lemma SignUpKeeps(s: Session, l: string, p: string)
    requires Invariant(s)
    ensures StepKeeps(s, SessionOf(RegisterUserIfNotExists(s, l, p)))
  {
    RegisterKeepsInvariant(s, l, p);
  }

  lemma CreateWalletKeeps(s: Session, n: string)
    requires Invariant(s)
    ensures StepKeeps(s, SessionOf(AddWalletToUser(s, n)))
  {
    AddWalletKeepsInvariant(s, n);
  }

  lemma SameShapeKeeps(s: Session, t: Session)
    requires SameShape(s.users, t.users)
    ensures KeepsCredentials(s, t)
  {
  }

  lemma IncomeKeeps(s: Session, n: string, a: real)
    requires Invariant(s)
    ensures StepKeeps(s, SessionOf(RecordIncome(s, n, a)))
  {
    RecordingKeepsInvariant(s, n, a);
    var r := RecordIncome(s, n, a);
    if r.Done? { SameShapeKeeps(s, r.session); }
  }

  lemma ExpenseKeeps(s: Session, n: string, a: real)
    requires Invariant(s)
    ensures StepKeeps(s, SessionOf(RecordExpenses(s, n, a)))
  {
    RecordingKeepsInvariant(s, n, a);
    var r := RecordExpenses(s, n, a);
    if r.Done? { SameShapeKeeps(s, r.session); }
  }

  lemma LimitKeeps(s: Session, n: string, l: real)
    requires Invariant(s)
    ensures StepKeeps(s, SessionOf(SetCategoryLimit(s, n, l)))
  {
    RecordingKeepsInvariant(s, n, l);
    var r := SetCategoryLimit(s, n, l);
    if r.Done? { SameShapeKeeps(s, r.session); }
  }

  lemma WalletTransferKeeps(s: Session, t: string, a: real)
    requires Invariant(s)
    ensures StepKeeps(s, SessionOf(ExecuteTransferBetweenWallets(s, t, a)))
  {
    var r := ExecuteTransferBetweenWallets(s, t, a);
    TransferBetweenWalletsEffect(s, t, a);
    if r.Done? && r.answer == Transferred {
      MoveEffect(s.users, s.currentWallet.value, WalletRef(s.currentUser.value, t), a);
      SameShapeKeeps(s, r.session);
    }
  }

  lemma UserTransferKeeps(s: Session, l: string, w: string, a: real)
    requires Invariant(s)
    ensures StepKeeps(s, SessionOf(ExecuteTransferBetweenUsers(s, l, w, a)))
  {
    var r := ExecuteTransferBetweenUsers(s, l, w, a);
    TransferBetweenUsersEffect(s, l, w, a);
    if r.Done? && r.answer == Transferred {
      MoveEffect(s.users, s.currentWallet.value, WalletRef(FindUser(s.users, l).value, w), a);
      SameShapeKeeps(s, r.session);
    }
  }

  lemma RemoveWalletKeeps(s: Session, n: string)
    requires Invariant(s)
    ensures StepKeeps(s, SessionOf(DeleteWallet(s, n)))
  {
    var r := DeleteWallet(s, n);
    if r.Done? && r.answer {
      DeleteWalletEffect(s, n);
    } else if r.Done? {
      assert r.session == s;
    }
  }

  /** Every call keeps the invariant and every existing user's credentials. */
  lemma {:induction false} PerformEffect(s: Session, c: Command)
    requires Invariant(s)
    ensures StepKeeps(s, Perform(s, c))
  {
    match c
    case SignUp(l, p) => SignUpKeeps(s, l, p);
    case SignIn(l, p) =>
    case CreateWallet(n) => CreateWalletKeeps(s, n);
    case SelectWallet(n) =>
    case AddIncome(n, a) => IncomeKeeps(s, n, a);
    case AddExpense(n, a) => ExpenseKeeps(s, n, a);
    case LimitCategory(n, l) => LimitKeeps(s, n, l);
    case WalletTransfer(t, a) => WalletTransferKeeps(s, t, a);
    case UserTransfer(l, w, a) => UserTransferKeeps(s, l, w, a);
    case RemoveWallet(n) => RemoveWalletKeeps(s, n);
  }

  /**
   * A fresh service over stored users with unique logins, unique wallet
   * names per user and well-formed wallets satisfies the invariant; so does
   * one over no users at all.
   */
  lemma StartInvariant(users: seq<User>)
    requires Unique(Logins(users)) && AllWellFormed(users)
    requires forall o :: 0 <= o < |users| ==> Unique(WalletNames(users[o].wallets))
    ensures Invariant(Start(users))
    ensures Invariant(Start([]))
  {
  }

  /**
   * From any session that satisfies the invariant (a fresh one, by
   * StartInvariant), every sequence of calls keeps logins unique, wallet names
   * unique per user, every wallet's balance equal to its income minus its
   * expenses, and every existing user's credentials.
   */
  lemma {:induction false} RunKeepsInvariant(s: Session, cmds: seq<Command>)
    requires Invariant(s)
    ensures Invariant(Run(s, cmds))
    ensures KeepsCredentials(s, Run(s, cmds))
    decreases |cmds|
  {
    if |cmds| > 0 {
      PerformEffect(s, cmds[0]);
      match Perform(s, cmds[0])
      case None =>
      case Some(t) =>
        RunKeepsInvariant(t, cmds[1..]);
    }
  }
}
