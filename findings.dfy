/** Three places where the transfer endpoints, as written, break a promise
    of the ledger engine (no transfer overdraws an account; a
    key names at most one transaction; the reply reports the committed
    transaction), each shown on a concrete input or for every input, and
    the corrected endpoints with the broken promise proved of them. */
module Findings {
  import opened Base
  import opened Ledger
  import opened Accounts
  import opened Store
  import opened Transfers
  import TransferLaws
  import AccountController
  import Engine

  /** Two ACTIVE accounts, 0 (owned by user 1) and 1 (owned by user 2), and
      an empty ledger. */
  function TwoAccounts(): Db
  {
    Db([Account(0, 1, Active, "INR"), Account(1, 2, Active, "INR")], [], [], 2)
  }

  /** As written: the request guard only rejects an amount of 0, and the
      balance check `balance < amount` holds for no negative amount, so a
      transfer of -500 from account 0 (balance 0) to account 1 (balance 0)
      is committed, and it takes 500 from the receiver, leaving it at -500. */
  lemma NegativeAmountReversesTransfer()
    ensures var r := Transfer(TwoAccounts(), TransferRequest(Some(0), Some(1), Some(-500), Some("n")), NoFault);
            && r.response.Created?
            && GetBalance(TwoAccounts().ledger, 1) == 0
            && GetBalance(r.db.ledger, 1) == -500
            && GetBalance(r.db.ledger, 0) == 500
  {
    var db := TwoAccounts();
    var req := TransferRequest(Some(0), Some(1), Some(-500), Some("n"));
    assert FindAccount(db.accounts, 0) == Some(db.accounts[0]);
    assert FindAccount(db.accounts, 1) == Some(db.accounts[1]);
    TransferLaws.SuccessWritesOnePair(db, req, NoFault);
    RecordMovesBalances(db, 0, 1, -500, "n", 0);
    RecordMovesBalances(db, 0, 1, -500, "n", 1);
  }

  /** As written: the funding path looks up no earlier transaction with the
      key, so the same funding request sent twice commits two transactions
      under one key and credits the receiver twice. */
  lemma FundingReplayDuplicates()
    ensures var req := FundingRequest(Some(1), Some(1000), Some("f"));
            var once := Fund(TwoAccounts(), 1, req, NoFault);
            var twice := Fund(once.db, 1, req, NoFault);
            && once.response.Created? && twice.response.Created?
            && |WithKey(twice.db.transactions, "f")| == 2
            && GetBalance(twice.db.ledger, 1) == 2000
  {
    var db := TwoAccounts();
    var req := FundingRequest(Some(1), Some(1000), Some("f"));
    assert FindAccountOf(db.accounts, 1) == Some(db.accounts[0]);
    assert FindAccount(db.accounts, 1) == Some(db.accounts[1]);
    var once := Record(db, 0, 1, 1000, "f");
    assert Fund(db, 1, req, NoFault).db == once;
    assert FindAccountOf(once.accounts, 1) == Some(once.accounts[0]);
    assert FindAccount(once.accounts, 1) == Some(once.accounts[1]);
    var twice := Record(once, 0, 1, 1000, "f");
    assert Fund(once, 1, req, NoFault).db == twice;
    WithKeyAppend(db.transactions, once.transactions[0], "f");
    WithKeyAppend(once.transactions, twice.transactions[1], "f");
    RecordMovesBalances(db, 0, 1, 1000, "f", 1);
    RecordMovesBalances(once, 0, 1, 1000, "f", 1);
  }

  /** As written: the 201 answer of a transfer carries the document `create`
      returned, which still says PENDING, while the row the session
      committed says COMPLETED. */
  lemma TransferRepliesPending(db: Db, req: TransferRequest, fault: Fault)
    requires Transfer(db, req, fault).response.Created?
    ensures var r := Transfer(db, req, fault);
            && r.response.transaction.status == Pending
            && r.db.transactions[|db.transactions|].status == Completed
            && r.response.transaction != r.db.transactions[|db.transactions|]
  {
  }

  /** The idempotency dispatch with every stored status handled: a status
      other than the four named ones is a dead key, answered like FAILED. */
  function IntendedReplay(prior: Option<Transaction>): (r: Option<Response>)
    ensures r.None? <==> prior.None?
    ensures prior.Some? && !prior.value.status.Unrecognised? ==> r == Replay(prior)
  {
    match prior
    case None => None
    case Some(t) => if t.status.Unrecognised? then Some(PriorFailed) else Replay(prior)
  }

  /** `createTransaction` corrected: a non-positive amount is an invalid
      request, any earlier use of the key short-circuits, and the 201 answer
      carries the committed COMPLETED row. */
  function IntendedTransfer(db: Db, req: TransferRequest, fault: Fault): (r: Outcome)
    ensures r.db == db || r.response.Created?
    ensures r.response.Created? ==>
              && FieldsPresent(req) && req.amount.value > 0 && fault == NoFault
              && FindAccount(db.accounts, req.fromAccount.value).Some?
              && FindAccount(db.accounts, req.toAccount.value).Some?
              && FindByKey(db.transactions, req.idempotencyKey.value).None?
              && GetBalance(db.ledger, req.fromAccount.value) >= req.amount.value
              && r.db == Record(db, req.fromAccount.value, req.toAccount.value,
                                req.amount.value, req.idempotencyKey.value)
              && r.response.transaction == r.db.transactions[|db.transactions|]
              && r.response.transaction.status == Completed
  {
    if !FieldsPresent(req) || req.amount.value <= 0 then Outcome(db, BadRequest(MissingFields))
    else
      var from := FindAccount(db.accounts, req.fromAccount.value);
      var to := FindAccount(db.accounts, req.toAccount.value);
      if from.None? || to.None? then Outcome(db, BadRequest(InvalidAccount))
      else
        var replay := IntendedReplay(FindByKey(db.transactions, req.idempotencyKey.value));
        if replay.Some? then Outcome(db, replay.value)
        else if from.value.status != Active || to.value.status != Active then
          Outcome(db, BadRequest(AccountsNotActive))
        else
          var balance := GetBalance(db.ledger, from.value.id);
          if balance < req.amount.value then
            Outcome(db, BadRequest(InsufficientBalance(balance, req.amount.value)))
          else if fault.FailsAt? then Outcome(db, BadRequest(RetryLater))
          else
            var db' := Record(db, req.fromAccount.value, req.toAccount.value,
                              req.amount.value, req.idempotencyKey.value);
            Outcome(db', Created(db'.transactions[|db.transactions|]))
  }

  /** Wherever the written guards already decide as corrected (a positive
      amount, no stored status outside the four), the corrected transfer
      commits exactly what `Transfers.Transfer` commits. */
  lemma IntendedTransferAgrees(db: Db, req: TransferRequest, fault: Fault)
    requires FieldsPresent(req) && req.amount.value > 0
    requires forall t :: t in db.transactions ==> !t.status.Unrecognised?
    ensures IntendedTransfer(db, req, fault).db == Transfer(db, req, fault).db
  {
    var prior := FindByKey(db.transactions, req.idempotencyKey.value);
    assert prior.Some? ==> !prior.value.status.Unrecognised?;
  }

  /** The corrected transfer never drives a balance below zero: an account
      that was not overdrawn is not overdrawn afterwards. */
  lemma IntendedTransferKeepsBalancesNonNegative(db: Db, req: TransferRequest, fault: Fault, account: Id)
    requires GetBalance(db.ledger, account) >= 0
    ensures GetBalance(IntendedTransfer(db, req, fault).db.ledger, account) >= 0
  {
    var r := IntendedTransfer(db, req, fault);
    if r.response.Created? {
      RecordMovesBalances(db, req.fromAccount.value, req.toAccount.value, req.amount.value,
                          req.idempotencyKey.value, account);
    }
  }

  /** Under the corrected transfer, a key never reaches a second row,
      whatever the stored statuses. */
  lemma IntendedTransferKeepsKeysUnique(db: Db, req: TransferRequest, fault: Fault)
    requires KeysUnique(db.transactions)
    ensures KeysUnique(IntendedTransfer(db, req, fault).db.transactions)
  {
    var r := IntendedTransfer(db, req, fault);
    if r.response.Created? {
      RecordKeepsKeysUnique(db, req.fromAccount.value, req.toAccount.value, req.amount.value, req.idempotencyKey.value);
    }
  }

  /** `createInitialFundsTransaction` corrected: a positive amount, and
      the same idempotency dispatch as the transfer before anything is
      written. */
  function IntendedFund(db: Db, requester: Id, req: FundingRequest, fault: Fault): (r: Outcome)
    ensures r.db == db || r.response.Created?
    ensures r.response.Created? ==>
              && FundingFieldsPresent(req) && req.amount.value > 0 && fault == NoFault
              && FindAccountOf(db.accounts, requester).Some?
              && FindByKey(db.transactions, req.idempotencyKey.value).None?
              && r.db == Record(db, FindAccountOf(db.accounts, requester).value.id,
                                req.toAccount.value, req.amount.value, req.idempotencyKey.value)
              && r.response.transaction == r.db.transactions[|db.transactions|]
  {
    if !FundingFieldsPresent(req) || req.amount.value <= 0 then Outcome(db, BadRequest(MissingFields))
    else if FindAccount(db.accounts, req.toAccount.value).None? then Outcome(db, BadRequest(InvalidAccount))
    else
      var system := FindAccountOf(db.accounts, requester);
      if system.None? then Outcome(db, BadRequest(SystemAccountNotFound))
      else
        var replay := IntendedReplay(FindByKey(db.transactions, req.idempotencyKey.value));
        if replay.Some? then Outcome(db, replay.value)
        else if fault.FailsAt? then Outcome(db, NoResponse)
        else
          var db' := Record(db, system.value.id, req.toAccount.value, req.amount.value, req.idempotencyKey.value);
          Outcome(db', Created(db'.transactions[|db.transactions|]))
  }

  /** The corrected funding is idempotent: sending the same request again
      after it succeeded is answered "already processed" with the stored
      row, and writes nothing. */
  lemma IntendedFundIsIdempotent(db: Db, requester: Id, req: FundingRequest, fault: Fault, retryFault: Fault)
    requires IntendedFund(db, requester, req, fault).response.Created?
    ensures var first := IntendedFund(db, requester, req, fault);
            IntendedFund(first.db, requester, req, retryFault) ==
              Outcome(first.db, AlreadyProcessed(first.response.transaction))
  {
    var first := IntendedFund(db, requester, req, fault).db;
    var system := FindAccountOf(db.accounts, requester).value;
    RecordFindsKey(db, system.id, req.toAccount.value, req.amount.value, req.idempotencyKey.value);
    var stored := first.transactions[|db.transactions|];
    assert IntendedReplay(FindByKey(first.transactions, req.idempotencyKey.value)) == Some(AlreadyProcessed(stored));
    assert first.accounts == db.accounts;
  }

  /** Under the corrected funding, a key never reaches a second row. */
  lemma IntendedFundKeepsKeysUnique(db: Db, requester: Id, req: FundingRequest, fault: Fault)
    requires KeysUnique(db.transactions)
    ensures KeysUnique(IntendedFund(db, requester, req, fault).db.transactions)
  {
    var r := IntendedFund(db, requester, req, fault);
    if r.response.Created? {
      RecordKeepsKeysUnique(db, FindAccountOf(db.accounts, requester).value.id, req.toAccount.value,
                            req.amount.value, req.idempotencyKey.value);
    }
  }

  /** The server with the corrected endpoints in place of the written ones. */
  function IntendedStep(db: Db, request: Engine.Request): Db
  {
    match request
    case OpenAccount(user) => AccountController.CreateAccount(db, user).0
    case SendMoney(req, fault) => IntendedTransfer(db, req, fault).db
    case FundAccount(requester, req, fault) => IntendedFund(db, requester, req, fault).db
    case ReadBalance(_, _) => db
    case ListAccounts(_) => db
  }

  function IntendedRun(db: Db, requests: seq<Engine.Request>): Db
    decreases |requests|
  {
    if requests == [] then db else IntendedRun(IntendedStep(db, requests[0]), requests[1..])
  }

  lemma IntendedStepKeepsInvariants(db: Db, request: Engine.Request)
    requires WellFormed(db) && KeysUnique(db.transactions)
    ensures WellFormed(IntendedStep(db, request)) && KeysUnique(IntendedStep(db, request).transactions)
  {
    match request
    case OpenAccount(user) => AccountController.CreateAccountKeepsWellFormed(db, user);
    case SendMoney(req, fault) =>
      var r := IntendedTransfer(db, req, fault);
      IntendedTransferKeepsKeysUnique(db, req, fault);
      if r.response.Created? {
        IntendedTransferKeepsWellFormed(db, req, fault);
      }
    case FundAccount(requester, req, fault) =>
      IntendedFundKeepsKeysUnique(db, requester, req, fault);
      IntendedFundKeepsWellFormed(db, requester, req, fault);
    case ReadBalance(_, _) =>
    case ListAccounts(_) =>
  }

  lemma IntendedTransferKeepsWellFormed(db: Db, req: TransferRequest, fault: Fault)
    requires WellFormed(db)
    ensures WellFormed(IntendedTransfer(db, req, fault).db)
  {
    if IntendedTransfer(db, req, fault).response.Created? {
      var from := FindAccount(db.accounts, req.fromAccount.value).value;
      var to := FindAccount(db.accounts, req.toAccount.value).value;
      assert from.id in AccountIds(db.accounts) && to.id in AccountIds(db.accounts);
      RecordKeepsWellFormed(db, req.fromAccount.value, req.toAccount.value, req.amount.value, req.idempotencyKey.value);
    }
  }

  lemma IntendedFundKeepsWellFormed(db: Db, requester: Id, req: FundingRequest, fault: Fault)
    requires WellFormed(db)
    ensures WellFormed(IntendedFund(db, requester, req, fault).db)
  {
    if IntendedFund(db, requester, req, fault).response.Created? {
      var system := FindAccountOf(db.accounts, requester).value;
      var to := FindAccount(db.accounts, req.toAccount.value).value;
      assert system.id in AccountIds(db.accounts) && to.id in AccountIds(db.accounts);
      RecordKeepsWellFormed(db, system.id, req.toAccount.value, req.amount.value, req.idempotencyKey.value);
    }
  }

  /** With the corrected endpoints, every history keeps the invariant and
      never gives an idempotency key a second transaction row: the
      uniqueness an idempotency key exists for, which the written funding
      path breaks. */
  lemma {:induction false} IntendedRunKeepsKeysUnique(db: Db, requests: seq<Engine.Request>)
    requires WellFormed(db) && KeysUnique(db.transactions)
    ensures WellFormed(IntendedRun(db, requests)) && KeysUnique(IntendedRun(db, requests).transactions)
    decreases |requests|
  {
    if requests != [] {
      IntendedStepKeepsInvariants(db, requests[0]);
      IntendedRunKeepsKeysUnique(IntendedStep(db, requests[0]), requests[1..]);
    }
  }
}
