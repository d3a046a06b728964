/** The server as a whole: authenticated requests handled one after another
    against the shared database, and what holds of every history of them. */
module Engine {
  import opened Base
  import opened Ledger
  import opened Accounts
  import opened Store
  import AccountController
  import opened Transfers
  import TransferLaws

  /** One request that reached a controller, with its requester already
      established by the authentication middleware. */
  datatype Request =
    | OpenAccount(user: Id)
    | SendMoney(transfer: TransferRequest, fault: Fault)
    | FundAccount(requester: Id, funding: FundingRequest, fault: Fault)
    | ReadBalance(user: Id, accountId: Id)
    | ListAccounts(user: Id)

  /** The committed database after one request. */
  function Step(db: Db, request: Request): Db
  {
    match request
    case OpenAccount(user) => AccountController.CreateAccount(db, user).0
    case SendMoney(req, fault) => Transfer(db, req, fault).db
    case FundAccount(requester, req, fault) => Fund(db, requester, req, fault).db
    case ReadBalance(_, _) => db
    case ListAccounts(_) => db
  }

  /** The committed database after a sequence of requests, in order. */
  function Run(db: Db, requests: seq<Request>): Db
    decreases |requests|
  {
    if requests == [] then db else Run(Step(db, requests[0]), requests[1..])
  }

  /** Credits minus debits over the whole ledger. */
  function Net(db: Db): int
  {
    Total(db.ledger, Credit) - Total(db.ledger, Debit)
  }

  /** One request keeps the invariant. */
  lemma StepKeepsWellFormed(db: Db, request: Request)
    requires WellFormed(db)
    ensures WellFormed(Step(db, request))
  {
    match request
    case OpenAccount(user) => AccountController.CreateAccountKeepsWellFormed(db, user);
    case SendMoney(req, fault) => TransferLaws.TransferKeepsWellFormed(db, req, fault);
    case FundAccount(requester, req, fault) => TransferLaws.FundKeepsWellFormed(db, requester, req, fault);
    case ReadBalance(_, _) =>
    case ListAccounts(_) =>
  }

  /** One request neither creates nor destroys money, and only ever appends:
      to the accounts, to the ledger and to the transactions. */
  lemma StepOnlyAppends(db: Db, request: Request)
    ensures var db' := Step(db, request);
            && Net(db') == Net(db)
            && db.accounts <= db'.accounts && db.ledger <= db'.ledger && db.transactions <= db'.transactions
            && db.nextId <= db'.nextId
  {
    match request
    case OpenAccount(user) =>
    case SendMoney(req, fault) => TransferLaws.TransferConserves(db, req, fault);
    case FundAccount(requester, req, fault) => TransferLaws.FundConserves(db, requester, req, fault);
    case ReadBalance(_, _) =>
    case ListAccounts(_) =>
  }

  /** Every history of requests keeps the invariant: ids unique, references
      intact, credits equal to debits, every COMPLETED transaction owning
      exactly its two rows. */
  lemma {:induction false} RunKeepsWellFormed(db: Db, requests: seq<Request>)
    requires WellFormed(db)
    ensures WellFormed(Run(db, requests))
    decreases |requests|
  {
    if requests != [] {
      StepKeepsWellFormed(db, requests[0]);
      RunKeepsWellFormed(Step(db, requests[0]), requests[1..]);
    }
  }

  /** Every history conserves money, and no request ever rewrites or removes
      a committed account, ledger row or transaction. */
  lemma {:induction false} RunOnlyAppends(db: Db, requests: seq<Request>)
    ensures var db' := Run(db, requests);
            && Net(db') == Net(db)
            && db.accounts <= db'.accounts && db.ledger <= db'.ledger && db.transactions <= db'.transactions
    decreases |requests|
  {
    if requests != [] {
      StepOnlyAppends(db, requests[0]);
      RunOnlyAppends(Step(db, requests[0]), requests[1..]);
    }
  }

  /** A system account (owned by user 100) funds account 1 with 1000 under
      key "k0"; account 1 then sends 400 to account 2 under key "k1". */
  function FundThenSendHistory(): seq<Request>
  {
    [ FundAccount(100, FundingRequest(Some(1), Some(1000), Some("k0")), NoFault),
      SendMoney(TransferRequest(Some(1), Some(2), Some(400), Some("k1")), NoFault) ]
  }

  function ThreeAccounts(): Db
  {
    Db([Account(0, 100, Active, "INR"), Account(1, 1, Active, "INR"), Account(2, 2, Active, "INR")], [], [], 3)
  }

  /** The funding debits the system account and credits account 1. */
  lemma FundingStep()
    ensures Step(ThreeAccounts(), FundThenSendHistory()[0]) == Record(ThreeAccounts(), 0, 1, 1000, "k0")
  {
    var db0 := ThreeAccounts();
    assert FindAccountOf(db0.accounts, 100) == Some(db0.accounts[0]);
    assert FindAccount(db0.accounts, 1) == Some(db0.accounts[1]);
  }

  /** What the transfer reads after the funding: both accounts, no
      transaction under "k1", and 1000 on account 1. */
  lemma AfterFunding()
    ensures var db1 := Record(ThreeAccounts(), 0, 1, 1000, "k0");
            && FindAccount(db1.accounts, 1) == Some(Account(1, 1, Active, "INR"))
            && FindAccount(db1.accounts, 2) == Some(Account(2, 2, Active, "INR"))
            && FindByKey(db1.transactions, "k1") == None
            && Balance(db1.ledger, 1) == 1000
  {
    var db0 := ThreeAccounts();
    var db1 := Record(db0, 0, 1, 1000, "k0");
    RecordMovesBalances(db0, 0, 1, 1000, "k0", 1);
    assert GetBalance(db0.ledger, 1) == 0;
    assert "k0" != "k1" by { assert "k0"[1] != "k1"[1]; }
    assert db1.accounts[1].id == 1 && db1.accounts[2].id == 2;
  }

  /** The transfer then finds both accounts ACTIVE, the key unused and 1000
      available, and commits. */
  lemma SendingStep()
    ensures var db1 := Record(ThreeAccounts(), 0, 1, 1000, "k0");
            Step(db1, FundThenSendHistory()[1]) == Record(db1, 1, 2, 400, "k1")
  {
    var db1 := Record(ThreeAccounts(), 0, 1, 1000, "k0");
    var send := FundThenSendHistory()[1].transfer;
    AfterFunding();
    TransferLaws.SuccessWritesOnePair(db1, send, NoFault);
  }

  /** After the funding and the transfer, account 1 holds 600, account 2
      holds 400, the system account -1000, and the transaction under "k1"
      is COMPLETED and owns exactly two ledger rows. */
  lemma FundThenSend()
    ensures var db := Run(ThreeAccounts(), FundThenSendHistory());
            && GetBalance(db.ledger, 1) == 600
            && GetBalance(db.ledger, 2) == 400
            && GetBalance(db.ledger, 0) == -1000
            && FindByKey(db.transactions, "k1") == Some(Transaction(4, 1, 2, 400, "k1", Completed))
            && |TaggedWith(db.ledger, 4)| == 2
  {
    var db0 := ThreeAccounts();
    var history := FundThenSendHistory();
    var db1 := Record(db0, 0, 1, 1000, "k0");
    var db2 := Record(db1, 1, 2, 400, "k1");
    FundingStep();
    SendingStep();
    assert Run(db0, history) == db2 by {
      assert history[1..][1..] == [];
    }
    FinalBalance(0);
    FinalBalance(1);
    FinalBalance(2);
    FinalTransaction();
  }

  /** The balance of each account after both requests. */
  lemma FinalBalance(account: Id)
    ensures var db2 := Record(Record(ThreeAccounts(), 0, 1, 1000, "k0"), 1, 2, 400, "k1");
            GetBalance(db2.ledger, account) ==
              if account == 0 then -1000 else if account == 1 then 600 else if account == 2 then 400 else 0
  {
    var db0 := ThreeAccounts();
    var db1 := Record(db0, 0, 1, 1000, "k0");
    RecordMovesBalances(db0, 0, 1, 1000, "k0", account);
    RecordMovesBalances(db1, 1, 2, 400, "k1", account);
  }

  lemma FinalTransaction()
    ensures var db2 := Record(Record(ThreeAccounts(), 0, 1, 1000, "k0"), 1, 2, 400, "k1");
            && FindByKey(db2.transactions, "k1") == Some(Transaction(4, 1, 2, 400, "k1", Completed))
            && |TaggedWith(db2.ledger, 4)| == 2
  {
    var db1 := Record(ThreeAccounts(), 0, 1, 1000, "k0");
    var k1 := Transaction(4, 1, 2, 400, "k1", Completed);
    assert "k0" != "k1" by { assert "k0"[1] != "k1"[1]; }
    assert Record(db1, 1, 2, 400, "k1").transactions == [db1.transactions[0], k1];
    TaggedWithLegs(db1.ledger, k1, 4);
    assert TaggedWith(db1.ledger, 4) == [];
  }
}
