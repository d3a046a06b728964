/** The database the controllers work on: the account, ledger and transaction
    collections, the lookups the controllers run against them, the state
    invariant, and the write that both transfer paths commit. */
module Store {
  import opened Base
  import opened Ledger
  import opened Accounts

  /** A transaction's status. The four named values are the ones the transfer
      controller compares a stored status against; the transaction schema is
      not part of this model, so any other stored value is kept as it is. */
  datatype TxStatus = Pending | Completed | Failed | Reversed | Unrecognised(name: OtherStatusName)

  /** A stored status spelling other than the four the controller compares
      against, so that each stored string has exactly one representation. */
  type OtherStatusName = name: string | name != "PENDING" && name != "COMPLETED" && name != "FAILED" && name != "REVERSED"
    witness "UNKNOWN"

  datatype Transaction = Transaction(id: Id, fromAccount: Id, toAccount: Id, amount: int,
                                     idempotencyKey: string, status: TxStatus)

  /** The committed contents of the three collections, each in natural order,
      and the next fresh document id. */
  datatype Db = Db(accounts: seq<Account>, ledger: seq<LedgerEntry>,
                   transactions: seq<Transaction>, nextId: Id)

  /** `accountModel.findOne({ _id: id })`. */
  function FindAccount(accounts: seq<Account>, id: Id): (r: Option<Account>)
    ensures r.Some? ==> r.value in accounts && r.value.id == id
    ensures r.None? <==> forall a :: a in accounts ==> a.id != id
  {
    FindOne(accounts, (a: Account) => a.id == id)
  }

  /** `accountModel.findOne({ user: user })`: the user's first account. */
  function FindAccountOf(accounts: seq<Account>, user: Id): (r: Option<Account>)
    ensures r.Some? ==> r.value in accounts && r.value.user == user
    ensures r.None? <==> forall a :: a in accounts ==> a.user != user
  {
    FindOne(accounts, (a: Account) => a.user == user)
  }

  /** `transactionModel.findOne({ idempotencyKey: key })`: the earliest
      transaction carrying the key. */
  function FindByKey(transactions: seq<Transaction>, key: string): (r: Option<Transaction>)
    ensures r.Some? ==> r.value in transactions && r.value.idempotencyKey == key
    ensures r.None? <==> forall t :: t in transactions ==> t.idempotencyKey != key
  {
    FindOne(transactions, (t: Transaction) => t.idempotencyKey == key)
  }

  /** Every transaction carrying the key, in natural order. */
  function WithKey(transactions: seq<Transaction>, key: string): (r: seq<Transaction>)
    ensures forall t :: t in r ==> t in transactions && t.idempotencyKey == key
    ensures r == [] <==> forall i :: 0 <= i < |transactions| ==> transactions[i].idempotencyKey != key
  {
    FindAll(transactions, (t: Transaction) => t.idempotencyKey == key)
  }

  lemma WithKeyAppend(transactions: seq<Transaction>, t: Transaction, key: string)
    ensures WithKey(transactions + [t], key) ==
            WithKey(transactions, key) + (if t.idempotencyKey == key then [t] else [])
  {
    FindAllAppend(transactions, t, (t: Transaction) => t.idempotencyKey == key);
  }

  /** Idempotency-key uniqueness: no two transaction rows share a key. */
  predicate KeysUnique(transactions: seq<Transaction>)
  {
    forall i, j :: 0 <= i < j < |transactions| ==>
      transactions[i].idempotencyKey != transactions[j].idempotencyKey
  }

  function AccountIds(accounts: seq<Account>): set<Id>
  {
    set a | a in accounts :: a.id
  }

  function TxIds(transactions: seq<Transaction>): set<Id>
  {
    set t | t in transactions :: t.id
  }

  /** The two ledger rows a completed transaction stands for. */
  function Legs(t: Transaction): seq<LedgerEntry>
  {
    [LedgerEntry(t.fromAccount, t.amount, t.id, Debit), LedgerEntry(t.toAccount, t.amount, t.id, Credit)]
  }

  /** The invariant every request preserves: ids are unique and below the
      id counter, every entry names an existing account and transaction,
      credits equal debits, and every COMPLETED transaction owns exactly its
      DEBIT and its CREDIT row. */
  ghost predicate WellFormed(db: Db)
  {
    && (forall i :: 0 <= i < |db.accounts| ==> db.accounts[i].id < db.nextId)
    && (forall i, j :: 0 <= i < j < |db.accounts| ==> db.accounts[i].id != db.accounts[j].id)
    && (forall i :: 0 <= i < |db.transactions| ==> db.transactions[i].id < db.nextId)
    && (forall i, j :: 0 <= i < j < |db.transactions| ==> db.transactions[i].id != db.transactions[j].id)
    && (forall e :: e in db.ledger ==> e.account in AccountIds(db.accounts) && e.transaction in TxIds(db.transactions))
    && Conserved(db.ledger)
    && (forall t :: t in db.transactions && t.status == Completed ==> TaggedWith(db.ledger, t.id) == Legs(t))
  }

  /** The committed effect of a successful transfer or funding: a DEBIT on
      `from`, a CREDIT on `to`, both for `amount` and tagged with a fresh
      transaction id, and that transaction stored as COMPLETED. */
  function Record(db: Db, from: Id, to: Id, amount: int, key: string): Db
  {
    var t := Transaction(db.nextId, from, to, amount, key, Completed);
    db.(ledger := db.ledger + Legs(t), transactions := db.transactions + [t], nextId := db.nextId + 1)
  }

  /** Every committed transfer adds the same amount to the CREDIT total and
      to the DEBIT total. */
  lemma RecordConserves(db: Db, from: Id, to: Id, amount: int, key: string)
    ensures Total(Record(db, from, to, amount, key).ledger, Credit) == Total(db.ledger, Credit) + amount
    ensures Total(Record(db, from, to, amount, key).ledger, Debit) == Total(db.ledger, Debit) + amount
    ensures Conserved(Record(db, from, to, amount, key).ledger) <==> Conserved(db.ledger)
  {
    var t := Transaction(db.nextId, from, to, amount, key, Completed);
    PairConserves(db.ledger, Legs(t)[0], Legs(t)[1]);
  }

  /** A committed transfer lowers `from`'s balance by the amount, raises
      `to`'s by the amount, and leaves every other account's balance alone
      (when `from == to` the two changes cancel). */
  lemma RecordMovesBalances(db: Db, from: Id, to: Id, amount: int, key: string, account: Id)
    ensures GetBalance(Record(db, from, to, amount, key).ledger, account) ==
            GetBalance(db.ledger, account)
            - (if account == from then amount else 0)
            + (if account == to then amount else 0)
  {
    var t := Transaction(db.nextId, from, to, amount, key, Completed);
    var d, c := Legs(t)[0], Legs(t)[1];
    assert db.ledger + Legs(t) == (db.ledger + [d]) + [c];
    BalanceAppend(db.ledger, d, account);
    BalanceAppend(db.ledger + [d], c, account);
  }

  /** Recording a transfer between two existing accounts keeps the invariant. */
  lemma RecordKeepsWellFormed(db: Db, from: Id, to: Id, amount: int, key: string)
    requires WellFormed(db)
    requires from in AccountIds(db.accounts) && to in AccountIds(db.accounts)
    ensures WellFormed(Record(db, from, to, amount, key))
  {
    RecordConserves(db, from, to, amount, key);
    RecordKeepsIds(db, from, to, amount, key);
    RecordKeepsReferences(db, from, to, amount, key);
    RecordKeepsLegs(db, from, to, amount, key);
  }

  lemma RecordKeepsIds(db: Db, from: Id, to: Id, amount: int, key: string)
    requires forall i :: 0 <= i < |db.accounts| ==> db.accounts[i].id < db.nextId
    requires forall i :: 0 <= i < |db.transactions| ==> db.transactions[i].id < db.nextId
    requires forall i, j :: 0 <= i < j < |db.transactions| ==> db.transactions[i].id != db.transactions[j].id
    ensures var r := Record(db, from, to, amount, key);
            && (forall i :: 0 <= i < |r.accounts| ==> r.accounts[i].id < r.nextId)
            && (forall i :: 0 <= i < |r.transactions| ==> r.transactions[i].id < r.nextId)
            && (forall i, j :: 0 <= i < j < |r.transactions| ==> r.transactions[i].id != r.transactions[j].id)
  {
  }

  lemma RecordKeepsReferences(db: Db, from: Id, to: Id, amount: int, key: string)
    requires forall e :: e in db.ledger ==> e.account in AccountIds(db.accounts) && e.transaction in TxIds(db.transactions)
    requires from in AccountIds(db.accounts) && to in AccountIds(db.accounts)
    ensures var r := Record(db, from, to, amount, key);
            forall e :: e in r.ledger ==> e.account in AccountIds(r.accounts) && e.transaction in TxIds(r.transactions)
  {
    var r := Record(db, from, to, amount, key);
    var t := r.transactions[|db.transactions|];
    assert t in r.transactions;
    assert forall u :: u in db.transactions ==> u in r.transactions;
  }

  lemma RecordKeepsLegs(db: Db, from: Id, to: Id, amount: int, key: string)
    requires forall i :: 0 <= i < |db.transactions| ==> db.transactions[i].id < db.nextId
    requires forall e :: e in db.ledger ==> e.transaction in TxIds(db.transactions)
    requires forall t :: t in db.transactions && t.status == Completed ==> TaggedWith(db.ledger, t.id) == Legs(t)
    ensures var r := Record(db, from, to, amount, key);
            forall t :: t in r.transactions && t.status == Completed ==> TaggedWith(r.ledger, t.id) == Legs(t)
  {
    var t := Transaction(db.nextId, from, to, amount, key, Completed);
    var r := Record(db, from, to, amount, key);
    assert r.transactions == db.transactions + [t];
    forall u | u in r.transactions && u.status == Completed
      ensures TaggedWith(r.ledger, u.id) == Legs(u)
    {
      TaggedWithLegs(db.ledger, t, u.id);
      if u == t {
        FreshIdUntagged(db.ledger, db.transactions, db.nextId);
      } else {
        assert u in db.transactions;
      }
    }
  }

  /** Appending a transaction's two rows adds them to that transaction's tagged
      rows and to no other's. */
  lemma TaggedWithLegs(ledger: seq<LedgerEntry>, t: Transaction, tx: Id)
    ensures TaggedWith(ledger + Legs(t), tx) == TaggedWith(ledger, tx) + (if tx == t.id then Legs(t) else [])
  {
    var d, c := Legs(t)[0], Legs(t)[1];
    assert ledger + Legs(t) == (ledger + [d]) + [c];
    TaggedWithAppend(ledger, d, tx);
    TaggedWithAppend(ledger + [d], c, tx);
  }

  /** Recording under a key no stored transaction carries makes the new
      COMPLETED transaction the only one with that key, and the one the key
      lookup finds. */
  lemma RecordFindsKey(db: Db, from: Id, to: Id, amount: int, key: string)
    requires FindByKey(db.transactions, key) == None
    ensures var r := Record(db, from, to, amount, key);
            var t := r.transactions[|db.transactions|];
            && t == Transaction(db.nextId, from, to, amount, key, Completed)
            && FindByKey(r.transactions, key) == Some(t)
            && WithKey(r.transactions, key) == [t]
  {
    var r := Record(db, from, to, amount, key);
    var t := Transaction(db.nextId, from, to, amount, key, Completed);
    assert r.transactions == db.transactions + [t];
    WithKeyAppend(db.transactions, t, key);
  }

  /** Recording under a key no stored transaction carries keeps keys unique. */
  lemma RecordKeepsKeysUnique(db: Db, from: Id, to: Id, amount: int, key: string)
    requires KeysUnique(db.transactions)
    requires FindByKey(db.transactions, key) == None
    ensures KeysUnique(Record(db, from, to, amount, key).transactions)
  {
    assert forall i :: 0 <= i < |db.transactions| ==> db.transactions[i] in db.transactions;
  }

  /** When every stored id is below the counter and every row names a
      stored transaction, the new transaction also owns exactly its two new
      rows. */
  lemma RecordFreshKey(db: Db, from: Id, to: Id, amount: int, key: string)
    requires forall i :: 0 <= i < |db.transactions| ==> db.transactions[i].id < db.nextId
    requires forall e :: e in db.ledger ==> e.transaction in TxIds(db.transactions)
    requires FindByKey(db.transactions, key) == None
    ensures var r := Record(db, from, to, amount, key);
            var t := r.transactions[|db.transactions|];
            && FindByKey(r.transactions, key) == Some(t)
            && WithKey(r.transactions, key) == [t]
            && TaggedWith(r.ledger, t.id) == Legs(t)
  {
    var t := Transaction(db.nextId, from, to, amount, key, Completed);
    RecordFindsKey(db, from, to, amount, key);
    TaggedWithLegs(db.ledger, t, t.id);
    FreshIdUntagged(db.ledger, db.transactions, db.nextId);
  }

  /** No row is tagged with an id at or beyond the counter. */
  lemma FreshIdUntagged(ledger: seq<LedgerEntry>, transactions: seq<Transaction>, nextId: Id)
    requires forall i :: 0 <= i < |transactions| ==> transactions[i].id < nextId
    requires forall e :: e in ledger ==> e.transaction in TxIds(transactions)
    ensures TaggedWith(ledger, nextId) == []
  {
    forall e | e in ledger ensures e.transaction != nextId {
      var v :| v in transactions && v.id == e.transaction;
    }
  }
}
