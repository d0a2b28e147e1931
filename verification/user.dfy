/**
 * A user: fixed credentials and an ordered list of wallets. The user itself
 * does not check wallet names for duplicates; the session does.
 */
module Users {
  import opened Wrappers
  import opened Seqs
  import opened Wallets

  datatype User = User(login: string, password: string, wallets: seq<Wallet>)

  function WalletNames(ws: seq<Wallet>): (r: seq<string>)
    ensures |r| == |ws| && forall i :: 0 <= i < |ws| ==> r[i] == ws[i].name
  {
    seq(|ws|, i requires 0 <= i < |ws| => ws[i].name)
  }

  /** A new user holds the given credentials and no wallets. */
  function NewUser(login: string, password: string): (u: User)
    ensures u.login == login && u.password == password && |u.wallets| == 0
  {
    User(login, password, [])
  }

  /**
   * Appends one new, empty wallet under the given name, without any
   * duplicate check; earlier wallets keep their contents and order.
   */
  function AddWallet(u: User, name: string): (r: User)
    ensures r.login == u.login && r.password == u.password
    ensures |r.wallets| == |u.wallets| + 1 && r.wallets[..|u.wallets|] == u.wallets
    ensures r.wallets[|u.wallets|] == NewWallet(name)
    ensures WalletNames(r.wallets) == WalletNames(u.wallets) + [name]
  {
    u.(wallets := u.wallets + [NewWallet(name)])
  }

  /** Position of the wallet a lookup by name finds. */
  function FindWallet(u: User, name: string): (r: Option<nat>)
    ensures r.Some? ==> r.value < |u.wallets| && u.wallets[r.value].name == name
    ensures r.None? <==> forall i :: 0 <= i < |u.wallets| ==> u.wallets[i].name != name
  {
    IndexOf(WalletNames(u.wallets), name)
  }

  /** A wallet with exactly that name, or nothing when the user has none. */
  function GetWallet(u: User, name: string): (r: Option<Wallet>)
    ensures r.Some? ==> r.value in u.wallets && r.value.name == name
    ensures r.None? <==> forall w :: w in u.wallets ==> w.name != name
  {
    match FindWallet(u, name)
    case Some(i) => Some(u.wallets[i])
    case None => None
  }

  /**
   * Removes the first wallet equal to `w`; the others keep their relative
   * order. Removing a wallet the user does not hold changes nothing.
   */
  function DeleteWallet(u: User, w: Wallet): (r: User)
    ensures r.login == u.login && r.password == u.password
    ensures w !in u.wallets ==> r == u
    ensures w in u.wallets ==>
      exists i :: (0 <= i < |u.wallets| && u.wallets[i] == w && w !in u.wallets[..i]
                   && r.wallets == u.wallets[..i] + u.wallets[i + 1..])
    ensures multiset(r.wallets) == multiset(u.wallets) - multiset{w}
  {
    match IndexOf(u.wallets, w)
    case Some(i) =>
      assert u.wallets == u.wallets[..i] + [w] + u.wallets[i + 1..];
      u.(wallets := u.wallets[..i] + u.wallets[i + 1..])
    case None => u
  }

  lemma WalletNamesRemove(ws: seq<Wallet>, i: nat)
    requires i < |ws|
    ensures WalletNames(ws[..i] + ws[i + 1..]) == WalletNames(ws)[..i] + WalletNames(ws)[i + 1..]
  {
    var rest := ws[..i] + ws[i + 1..];
    var names := WalletNames(ws);
    assert forall j :: 0 <= j < i ==> WalletNames(rest)[j] == names[j];
    assert forall j :: i <= j < |rest| ==> WalletNames(rest)[j] == names[j + 1];
  }

  /** Deleting the wallet a lookup by name found removes exactly that position. */
  lemma DeleteFoundWallet(u: User, name: string)
    requires GetWallet(u, name).Some?
    ensures DeleteWallet(u, GetWallet(u, name).value).wallets
      == u.wallets[..FindWallet(u, name).value] + u.wallets[FindWallet(u, name).value + 1..]
    ensures WalletNames(DeleteWallet(u, GetWallet(u, name).value).wallets)
      == WalletNames(u.wallets)[..FindWallet(u, name).value] + WalletNames(u.wallets)[FindWallet(u, name).value + 1..]
  {
    var i := FindWallet(u, name).value;
    var w := u.wallets[i];
    assert IndexOf(u.wallets, w) == Some(i) by {
      assert forall j :: 0 <= j < i ==> u.wallets[j].name != name;
    }
    WalletNamesRemove(u.wallets, i);
  }

  /** With unique wallet names, the deleted name is gone and the rest stay unique. */
  lemma DeletedNameGone(u: User, name: string)
    requires Unique(WalletNames(u.wallets)) && GetWallet(u, name).Some?
    ensures name !in WalletNames(DeleteWallet(u, GetWallet(u, name).value).wallets)
    ensures Unique(WalletNames(DeleteWallet(u, GetWallet(u, name).value).wallets))
  {
    DeleteFoundWallet(u, name);
    RemovedIndexGone(WalletNames(u.wallets), FindWallet(u, name).value);
  }
}
