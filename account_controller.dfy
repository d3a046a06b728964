/** The account endpoints: open an account for the requester, list the
    requester's accounts, and report the derived balance of one of them. */
module AccountController {
  import opened Base
  import opened Ledger
  import opened Accounts
  import opened Store

  /** `createAccountController`: a new account owned by the requester, with
      the schema's defaults for everything else, appended to the collection. */
  function CreateAccount(db: Db, user: Id): (r: (Db, Account))
    ensures r.1.id == db.nextId && r.1.user == user && r.1.status == Active && r.1.currency == "INR"
    ensures r.0 == db.(accounts := db.accounts + [r.1], nextId := db.nextId + 1)
  {
    var created := NewAccount(db.nextId, RawAccount(Some(user), None, None));
    (db.(accounts := db.accounts + [created.value], nextId := db.nextId + 1), created.value)
  }

  /** `getUserAccountsController`: `find({ user })`, in natural order. */
  function UserAccounts(accounts: seq<Account>, user: Id): (r: seq<Account>)
    ensures forall a :: a in r ==> a in accounts && a.user == user
    ensures forall i :: 0 <= i < |accounts| && accounts[i].user == user ==> accounts[i] in r
  {
    FindAll(accounts, (a: Account) => a.user == user)
  }

  /** The two answers of the balance endpoint. */
  datatype BalanceReply =
    | BalanceOk(accountId: Id, balance: int)   // 200
    | AccountNotFound                          // 404

  /** `getAccountBalanceController`: the account must exist and belong to the
      requester (one `findOne` on both paths), and its balance is `getBalance`. */
  function AccountBalance(db: Db, user: Id, accountId: Id): (r: BalanceReply)
    ensures r.AccountNotFound? <==> forall a :: a in db.accounts ==> !(a.id == accountId && a.user == user)
    ensures r.BalanceOk? ==> r.accountId == accountId && r.balance == Balance(db.ledger, accountId)
  {
    match FindOne(db.accounts, (a: Account) => a.id == accountId && a.user == user)
    case None => AccountNotFound
    case Some(account) => BalanceOk(account.id, GetBalance(db.ledger, account.id))
  }

  /** Opening an account keeps the invariant and touches no existing account,
      transaction or ledger entry. */
  lemma CreateAccountKeepsWellFormed(db: Db, user: Id)
    requires WellFormed(db)
    ensures var (db', _) := CreateAccount(db, user);
            && WellFormed(db')
            && db'.ledger == db.ledger && db'.transactions == db.transactions
            && db'.accounts[..|db.accounts|] == db.accounts
  {
    var (db', account) := CreateAccount(db, user);
    assert AccountIds(db'.accounts) == AccountIds(db.accounts) + {account.id};
  }

  /** Opening an account adds exactly that account to the requester's list
      and leaves every other user's list as it was. */
  lemma CreateAccountListing(db: Db, user: Id, other: Id)
    ensures var (db', account) := CreateAccount(db, user);
            && UserAccounts(db'.accounts, user) == UserAccounts(db.accounts, user) + [account]
            && (other != user ==> UserAccounts(db'.accounts, other) == UserAccounts(db.accounts, other))
  {
    var (db', account) := CreateAccount(db, user);
    FindAllAppend(db.accounts, account, (a: Account) => a.user == user);
    FindAllAppend(db.accounts, account, (a: Account) => a.user == other);
  }

  /** A newly opened account is visible to its owner, with balance 0. */
  lemma NewAccountBalanceIsZero(db: Db, user: Id)
    requires WellFormed(db)
    ensures var (db', account) := CreateAccount(db, user);
            AccountBalance(db', user, account.id) == BalanceOk(account.id, 0)
  {
    var (db', account) := CreateAccount(db, user);
    forall e | e in db'.ledger ensures e.account != account.id {
      var a :| a in db.accounts && a.id == e.account;
    }
    assert account in db'.accounts;
  }
}
