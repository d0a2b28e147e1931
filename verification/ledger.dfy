/**
 * All wallets of all users, addressed by owner position and wallet name.
 * The session's "current wallet" is such an address: it stands for the Java
 * reference into the owner's wallet list. Users are only ever appended and
 * wallet names are never changed, so an address stays valid until its wallet
 * is deleted; the current wallet's address always stays valid, because
 * deletion refuses the current wallet's name.
 */
module Ledger {
  import opened Wrappers
  import opened Seqs
  import opened Wallets
  import opened Users

  /** The fixed category under which both legs of a transfer are recorded. */
  const TransfersCategory: string := "Transfers"

  datatype WalletRef = WalletRef(owner: nat, name: string)

  predicate Resolves(users: seq<User>, ref: WalletRef) {
    ref.owner < |users| && FindWallet(users[ref.owner], ref.name).Some?
  }

  /** The wallet an address designates: the owner's wallet with that name. */
  function WalletAt(users: seq<User>, ref: WalletRef): (w: Wallet)
    requires Resolves(users, ref)
    ensures w in users[ref.owner].wallets && w.name == ref.name
  {
    users[ref.owner].wallets[FindWallet(users[ref.owner], ref.name).value]
  }

  function Logins(users: seq<User>): (r: seq<string>)
    ensures |r| == |users| && forall o :: 0 <= o < |users| ==> r[o] == users[o].login
  {
    seq(|users|, o requires 0 <= o < |users| => users[o].login)
  }

  /** Same users with the same credentials and the same wallet names in the same order. */
  predicate SameShape(us: seq<User>, vs: seq<User>) {
    && |us| == |vs|
    && forall o :: 0 <= o < |us| ==>
         && us[o].login == vs[o].login
         && us[o].password == vs[o].password
         && WalletNames(us[o].wallets) == WalletNames(vs[o].wallets)
  }

  lemma SameShapeResolves(us: seq<User>, vs: seq<User>, ref: WalletRef)
    requires SameShape(us, vs)
    ensures Resolves(us, ref) <==> Resolves(vs, ref)
    ensures ref.owner < |us| ==> FindWallet(us[ref.owner], ref.name) == FindWallet(vs[ref.owner], ref.name)
  {
  }

  /** Every wallet of every user keeps its balance consistent and its category names unique. */
  predicate AllWellFormed(users: seq<User>) {
    forall o, i :: 0 <= o < |users| && 0 <= i < |users[o].wallets| ==> WellFormed(users[o].wallets[i])
  }

  function Balances(ws: seq<Wallet>): (r: seq<real>)
    ensures |r| == |ws| && forall i :: 0 <= i < |ws| ==> r[i] == ws[i].balance
  {
    seq(|ws|, i requires 0 <= i < |ws| => ws[i].balance)
  }

  function UserBalance(u: User): real {
    Sum(Balances(u.wallets))
  }

  function UserBalances(users: seq<User>): (r: seq<real>)
    ensures |r| == |users| && forall o :: 0 <= o < |users| ==> r[o] == UserBalance(users[o])
  {
    seq(|users|, o requires 0 <= o < |users| => UserBalance(users[o]))
  }

  /** All money held in all wallets of all users. */
  function TotalBalance(users: seq<User>): real {
    Sum(UserBalances(users))
  }

  /** Replaces the wallet at `ref` by `w`, which carries the same name. */
  function PutWallet(users: seq<User>, ref: WalletRef, w: Wallet): (r: seq<User>)
    requires Resolves(users, ref) && w.name == ref.name
    ensures SameShape(users, r)
    ensures Resolves(r, ref) && WalletAt(r, ref) == w
    ensures forall o :: 0 <= o < |users| && o != ref.owner ==> r[o] == users[o]
    ensures forall q :: Resolves(users, q) && q != ref ==> Resolves(r, q) && WalletAt(r, q) == WalletAt(users, q)
  {
    var u := users[ref.owner];
    var i := FindWallet(u, ref.name).value;
    var ws := u.wallets[i := w];
    assert WalletNames(ws) == WalletNames(u.wallets);
    users[ref.owner := u.(wallets := ws)]
  }

  /** Replacing a wallet by one with the same balance keeps the total. */
  lemma PutWalletKeepsTotal(users: seq<User>, ref: WalletRef, w: Wallet)
    requires Resolves(users, ref) && w.name == ref.name && w.balance == WalletAt(users, ref).balance
    ensures TotalBalance(PutWallet(users, ref, w)) == TotalBalance(users)
  {
    PutWalletTotal(users, ref, w);
  }

  /** Replacing one wallet changes the total by the change of that wallet's balance. */
  lemma PutWalletTotal(users: seq<User>, ref: WalletRef, w: Wallet)
    requires Resolves(users, ref) && w.name == ref.name
    ensures TotalBalance(PutWallet(users, ref, w)) == TotalBalance(users) - WalletAt(users, ref).balance + w.balance
  {
    var u := users[ref.owner];
    var i := FindWallet(u, ref.name).value;
    var ws := u.wallets[i := w];
    var u' := u.(wallets := ws);
    var r := PutWallet(users, ref, w);
    assert r == users[ref.owner := u'];
    assert UserBalance(u') == UserBalance(u) - u.wallets[i].balance + w.balance by {
      assert Balances(ws) == Balances(u.wallets)[i := w.balance];
      SumUpdate(Balances(u.wallets), i, w.balance);
    }
    assert UserBalances(r) == UserBalances(users)[ref.owner := UserBalance(u')];
    SumUpdate(UserBalances(users), ref.owner, UserBalance(u'));
  }

  /** Replacing one wallet by a well-formed one keeps every wallet well-formed. */
  lemma PutWalletWellFormed(users: seq<User>, ref: WalletRef, w: Wallet)
    requires Resolves(users, ref) && w.name == ref.name
    requires AllWellFormed(users) && WellFormed(w)
    ensures AllWellFormed(PutWallet(users, ref, w))
  {
    var u := users[ref.owner];
    var i := FindWallet(u, ref.name).value;
    var r := PutWallet(users, ref, w);
    assert r[ref.owner].wallets == u.wallets[i := w];
  }

  /** The users after dropping wallet `i` of user `o`. */
  function DropWallet(users: seq<User>, o: nat, i: nat): (r: seq<User>)
    requires o < |users| && i < |users[o].wallets|
    ensures |r| == |users| && r[o].login == users[o].login && r[o].password == users[o].password
    ensures r[o].wallets == users[o].wallets[..i] + users[o].wallets[i + 1..]
    ensures forall p :: 0 <= p < |users| && p != o ==> r[p] == users[p]
  {
    users[o := users[o].(wallets := users[o].wallets[..i] + users[o].wallets[i + 1..])]
  }

  /** Dropping a wallet takes exactly its balance out of the total. */
  lemma DropWalletTotal(users: seq<User>, o: nat, i: nat)
    requires o < |users| && i < |users[o].wallets|
    ensures TotalBalance(DropWallet(users, o, i)) == TotalBalance(users) - users[o].wallets[i].balance
  {
    var ws := users[o].wallets;
    var r := DropWallet(users, o, i);
    var u' := r[o];
    assert Balances(u'.wallets) == Balances(ws)[..i] + Balances(ws)[i + 1..];
    SumRemove(Balances(ws), i);
    assert UserBalances(r) == UserBalances(users)[o := UserBalance(u')];
    SumUpdate(UserBalances(users), o, UserBalance(u'));
  }

  /** The wallets left after a drop are all wallets from before, so they stay well-formed. */
  lemma DropWalletWellFormed(users: seq<User>, o: nat, i: nat)
    requires o < |users| && i < |users[o].wallets| && AllWellFormed(users)
    ensures AllWellFormed(DropWallet(users, o, i))
  {
    var ws := users[o].wallets;
    var r := DropWallet(users, o, i);
    forall p, j | 0 <= p < |r| && 0 <= j < |r[p].wallets|
      ensures WellFormed(r[p].wallets[j])
    {
      if p == o {
        if j < i { assert r[o].wallets[j] == ws[j]; }
        else { assert r[o].wallets[j] == ws[j + 1]; }
      }
    }
  }

  /** The incoming leg of a transfer: income under "Transfers" in the wallet at `ref`. */
  function Deposit(users: seq<User>, ref: WalletRef, amount: real): (r: seq<User>)
    requires Resolves(users, ref)
    ensures SameShape(users, r)
    ensures Resolves(r, ref) && WalletAt(r, ref) == Wallets.RegisterIncome(WalletAt(users, ref), TransfersCategory, amount)
    ensures forall q :: Resolves(users, q) && q != ref ==> Resolves(r, q) && WalletAt(r, q) == WalletAt(users, q)
  {
    PutWallet(users, ref, Wallets.RegisterIncome(WalletAt(users, ref), TransfersCategory, amount))
  }

  /** The outgoing leg of a transfer: an expense under "Transfers" in the wallet at `ref`. */
  function Withdraw(users: seq<User>, ref: WalletRef, amount: real): (r: seq<User>)
    requires Resolves(users, ref)
    ensures SameShape(users, r)
    ensures Resolves(r, ref)
    ensures WalletAt(r, ref) == Wallets.RegisterExpenses(WalletAt(users, ref), TransfersCategory, amount).wallet
    ensures forall q :: Resolves(users, q) && q != ref ==> Resolves(r, q) && WalletAt(r, q) == WalletAt(users, q)
  {
    PutWallet(users, ref, Wallets.RegisterExpenses(WalletAt(users, ref), TransfersCategory, amount).wallet)
  }

  /** A transfer of `amount` from `src` to `dst`: the target is credited first, then the source debited. */
  function Move(users: seq<User>, src: WalletRef, dst: WalletRef, amount: real): seq<User>
    requires Resolves(users, src) && Resolves(users, dst)
  {
    var credited := Deposit(users, dst, amount);
    SameShapeResolves(users, credited, src);
    Withdraw(credited, src, amount)
  }

  /** The legs of a transfer: shapes and untouched wallets are kept, and each leg applies the wallet rule. */
  lemma MoveLegs(users: seq<User>, src: WalletRef, dst: WalletRef, amount: real)
    requires Resolves(users, src) && Resolves(users, dst)
    ensures SameShape(users, Move(users, src, dst, amount))
    ensures src != dst ==>
      && WalletAt(Move(users, src, dst, amount), dst) == Wallets.RegisterIncome(WalletAt(users, dst), TransfersCategory, amount)
      && WalletAt(Move(users, src, dst, amount), src)
         == Wallets.RegisterExpenses(WalletAt(users, src), TransfersCategory, amount).wallet
    ensures src == dst ==>
      WalletAt(Move(users, src, dst, amount), src)
      == Wallets.RegisterExpenses(Wallets.RegisterIncome(WalletAt(users, src), TransfersCategory, amount), TransfersCategory, amount).wallet
    ensures forall q :: Resolves(users, q) && q != src && q != dst ==>
      Resolves(Move(users, src, dst, amount), q) && WalletAt(Move(users, src, dst, amount), q) == WalletAt(users, q)
  {
    var credited := Deposit(users, dst, amount);
    SameShapeResolves(users, credited, src);
    var source := Wallets.RegisterExpenses(WalletAt(credited, src), TransfersCategory, amount).wallet;
    var r := Move(users, src, dst, amount);
    assert r == PutWallet(credited, src, source);
    forall o | 0 <= o < |users|
      ensures users[o].login == r[o].login && users[o].password == r[o].password
      ensures WalletNames(users[o].wallets) == WalletNames(r[o].wallets)
    {
      assert WalletNames(users[o].wallets) == WalletNames(credited[o].wallets);
    }
  }

  /** A transfer moves money between wallets and so keeps the total of all balances. */
  lemma MoveTotal(users: seq<User>, src: WalletRef, dst: WalletRef, amount: real)
    requires Resolves(users, src) && Resolves(users, dst)
    ensures TotalBalance(Move(users, src, dst, amount)) == TotalBalance(users)
  {
    var credited := Deposit(users, dst, amount);
    SameShapeResolves(users, credited, src);
    var target := Wallets.RegisterIncome(WalletAt(users, dst), TransfersCategory, amount);
    PutWalletTotal(users, dst, target);
    assert TotalBalance(credited) == TotalBalance(users) + amount;
    var source := Wallets.RegisterExpenses(WalletAt(credited, src), TransfersCategory, amount).wallet;
    PutWalletTotal(credited, src, source);
    assert TotalBalance(PutWallet(credited, src, source)) == TotalBalance(credited) - amount;
  }

  /** Both legs keep every wallet well-formed. */
  lemma MoveWellFormed(users: seq<User>, src: WalletRef, dst: WalletRef, amount: real)
    requires Resolves(users, src) && Resolves(users, dst) && AllWellFormed(users)
    ensures AllWellFormed(Move(users, src, dst, amount))
  {
    var credited := Deposit(users, dst, amount);
    SameShapeResolves(users, credited, src);
    var target := Wallets.RegisterIncome(WalletAt(users, dst), TransfersCategory, amount);
    RegisterIncomeInvariant(WalletAt(users, dst), TransfersCategory, amount);
    assert WellFormed(WalletAt(users, dst));
    PutWalletWellFormed(users, dst, target);
    var source := Wallets.RegisterExpenses(WalletAt(credited, src), TransfersCategory, amount).wallet;
    RegisterExpensesInvariant(WalletAt(credited, src), TransfersCategory, amount);
    assert WellFormed(WalletAt(credited, src));
    PutWalletWellFormed(credited, src, source);
  }

  /** Between distinct wallets, each "Transfers" category grows by the amount. */
  lemma MoveTransfers(users: seq<User>, src: WalletRef, dst: WalletRef, amount: real)
    requires Resolves(users, src) && Resolves(users, dst) && src != dst
    ensures ExpensesIn(WalletAt(Move(users, src, dst, amount), src), TransfersCategory)
      == ExpensesIn(WalletAt(users, src), TransfersCategory) + amount
    ensures IncomeIn(WalletAt(Move(users, src, dst, amount), dst), TransfersCategory)
      == IncomeIn(WalletAt(users, dst), TransfersCategory) + amount
  {
    MoveLegs(users, src, dst, amount);
  }

  /**
   * A transfer keeps every credential and wallet name and the total of all
   * balances. Between two distinct wallets the source loses exactly the
   * amount and the target gains it, each leg recorded under "Transfers";
   * every other wallet is untouched. Should source and target be the same
   * wallet, its balance ends where it started.
   */
  lemma MoveEffect(users: seq<User>, src: WalletRef, dst: WalletRef, amount: real)
    requires Resolves(users, src) && Resolves(users, dst)
    ensures SameShape(users, Move(users, src, dst, amount))
    ensures TotalBalance(Move(users, src, dst, amount)) == TotalBalance(users)
    ensures AllWellFormed(users) ==> AllWellFormed(Move(users, src, dst, amount))
    ensures src != dst ==>
      && WalletAt(Move(users, src, dst, amount), dst) == Wallets.RegisterIncome(WalletAt(users, dst), TransfersCategory, amount)
      && WalletAt(Move(users, src, dst, amount), src)
         == Wallets.RegisterExpenses(WalletAt(users, src), TransfersCategory, amount).wallet
      && WalletAt(Move(users, src, dst, amount), src).balance == WalletAt(users, src).balance - amount
      && WalletAt(Move(users, src, dst, amount), dst).balance == WalletAt(users, dst).balance + amount
    ensures src == dst ==> WalletAt(Move(users, src, dst, amount), src).balance == WalletAt(users, src).balance
    ensures forall q :: Resolves(users, q) && q != src && q != dst ==>
      Resolves(Move(users, src, dst, amount), q) && WalletAt(Move(users, src, dst, amount), q) == WalletAt(users, q)
  {
    MoveLegs(users, src, dst, amount);
    MoveTotal(users, src, dst, amount);
    if AllWellFormed(users) {
      MoveWellFormed(users, src, dst, amount);
    }
  }
}
