/** What the two transfer endpoints guarantee: the guard order, the
    idempotency dispatch, all-or-nothing commits, conservation of money,
    the balance movements, and the state invariant. */
module TransferLaws {
  import opened Base
  import opened Ledger
  import opened Accounts
  import opened Store
  import opened Transfers

  /** Guard 1: a missing or falsy field is answered 400 and nothing is written. */
  lemma RejectsMissingFields(db: Db, req: TransferRequest, fault: Fault)
    requires !FieldsPresent(req)
    ensures Transfer(db, req, fault) == Outcome(db, BadRequest(MissingFields))
    ensures HttpStatus(Transfer(db, req, fault).response) == Some(400)
  {
  }

  /** Guard 2: an account id that names no account is answered 400 with
      nothing written, before the idempotency key is even looked up. */
  lemma RejectsUnknownAccount(db: Db, req: TransferRequest, fault: Fault)
    requires FieldsPresent(req)
    requires (forall a :: a in db.accounts ==> a.id != req.fromAccount.value) ||
             (forall a :: a in db.accounts ==> a.id != req.toAccount.value)
    ensures Transfer(db, req, fault) == Outcome(db, BadRequest(InvalidAccount))
  {
  }

  /** Guard 3: once both accounts exist, an earlier transaction with the same
      key decides the answer by its status alone and nothing is written, even
      when an account is no longer ACTIVE or the sender is short of funds. */
  lemma ReplayDecidesByStatus(db: Db, req: TransferRequest, fault: Fault, prior: Transaction)
    requires FieldsPresent(req)
    requires FindAccount(db.accounts, req.fromAccount.value).Some?
    requires FindAccount(db.accounts, req.toAccount.value).Some?
    requires FindByKey(db.transactions, req.idempotencyKey.value) == Some(prior)
    requires !prior.status.Unrecognised?
    ensures Transfer(db, req, fault).db == db
    ensures prior.status == Completed ==> Transfer(db, req, fault).response == AlreadyProcessed(prior)
    ensures prior.status == Pending ==> Transfer(db, req, fault).response == StillProcessing
    ensures prior.status == Failed ==> Transfer(db, req, fault).response == PriorFailed
    ensures prior.status == Reversed ==> Transfer(db, req, fault).response == PriorReversed
  {
  }

  /** Guard 4: without a usable prior transaction, a FROZEN or CLOSED
      endpoint is answered 400 before any balance is read. */
  lemma RejectsInactiveAccount(db: Db, req: TransferRequest, fault: Fault, from: Account, to: Account)
    requires FieldsPresent(req)
    requires FindAccount(db.accounts, req.fromAccount.value) == Some(from)
    requires FindAccount(db.accounts, req.toAccount.value) == Some(to)
    requires Replay(FindByKey(db.transactions, req.idempotencyKey.value)).None?
    requires from.status != Active || to.status != Active
    ensures Transfer(db, req, fault) == Outcome(db, BadRequest(AccountsNotActive))
  {
  }

  /** Guard 5: a sender whose derived balance is below the amount is answered
      400 with the balance and the amount in the reply, and nothing is written. */
  lemma RejectsInsufficientBalance(db: Db, req: TransferRequest, fault: Fault)
    requires FieldsPresent(req)
    requires FindAccount(db.accounts, req.fromAccount.value).Some?
    requires FindAccount(db.accounts, req.toAccount.value).Some?
    requires FindAccount(db.accounts, req.fromAccount.value).value.status == Active
    requires FindAccount(db.accounts, req.toAccount.value).value.status == Active
    requires Replay(FindByKey(db.transactions, req.idempotencyKey.value)).None?
    requires Balance(db.ledger, req.fromAccount.value) < req.amount.value
    ensures Transfer(db, req, fault) ==
            Outcome(db, BadRequest(InsufficientBalance(Balance(db.ledger, req.fromAccount.value), req.amount.value)))
  {
  }

  /** All guards pass: the session commits one COMPLETED transaction with the
      key and exactly one DEBIT on the sender and one CREDIT on the receiver,
      both for the amount and tagged with that transaction's id; or, when a
      step throws, the answer is 400 and nothing at all is committed. */
  lemma SuccessWritesOnePair(db: Db, req: TransferRequest, fault: Fault)
    requires FieldsPresent(req)
    requires FindAccount(db.accounts, req.fromAccount.value).Some?
    requires FindAccount(db.accounts, req.toAccount.value).Some?
    requires FindAccount(db.accounts, req.fromAccount.value).value.status == Active
    requires FindAccount(db.accounts, req.toAccount.value).value.status == Active
    requires Replay(FindByKey(db.transactions, req.idempotencyKey.value)).None?
    requires Balance(db.ledger, req.fromAccount.value) >= req.amount.value
    ensures var r := Transfer(db, req, fault);
            var t := Transaction(db.nextId, req.fromAccount.value, req.toAccount.value,
                                 req.amount.value, req.idempotencyKey.value, Completed);
            if fault == NoFault then
              && r.response.Created? && HttpStatus(r.response) == Some(201)
              && r.db.transactions == db.transactions + [t]
              && r.db.ledger == db.ledger + [LedgerEntry(req.fromAccount.value, req.amount.value, t.id, Debit),
                                             LedgerEntry(req.toAccount.value, req.amount.value, t.id, Credit)]
            else r == Outcome(db, BadRequest(RetryLater))
  {
  }

  /** Nothing rejects a transfer from an account to itself: once the guards
      pass it commits a COMPLETED transaction and a DEBIT/CREDIT pair on the
      one account, and no balance changes. */
  lemma SelfTransferIsAccepted(db: Db, req: TransferRequest, account: Id)
    requires FieldsPresent(req) && req.fromAccount.value == req.toAccount.value
    requires FindAccount(db.accounts, req.fromAccount.value).Some?
    requires FindAccount(db.accounts, req.fromAccount.value).value.status == Active
    requires Replay(FindByKey(db.transactions, req.idempotencyKey.value)).None?
    requires Balance(db.ledger, req.fromAccount.value) >= req.amount.value
    ensures var r := Transfer(db, req, NoFault);
            && r.response.Created?
            && |r.db.transactions| == |db.transactions| + 1 && |r.db.ledger| == |db.ledger| + 2
            && Balance(r.db.ledger, account) == Balance(db.ledger, account)
  {
    RecordMovesBalances(db, req.fromAccount.value, req.toAccount.value, req.amount.value,
                        req.idempotencyKey.value, account);
  }

  /** A stored status other than the four compared against matches no branch
      of the idempotency dispatch: the request goes on, and when it commits
      the key ends up on a second transaction row. */
  lemma UnrecognisedStatusFallsThrough(db: Db, req: TransferRequest, prior: Transaction)
    requires FieldsPresent(req)
    requires FindAccount(db.accounts, req.fromAccount.value).Some?
    requires FindAccount(db.accounts, req.toAccount.value).Some?
    requires FindAccount(db.accounts, req.fromAccount.value).value.status == Active
    requires FindAccount(db.accounts, req.toAccount.value).value.status == Active
    requires FindByKey(db.transactions, req.idempotencyKey.value) == Some(prior)
    requires prior.status.Unrecognised?
    requires Balance(db.ledger, req.fromAccount.value) >= req.amount.value
    ensures var r := Transfer(db, req, NoFault);
            && r.response.Created?
            && |WithKey(r.db.transactions, req.idempotencyKey.value)| >= 2
  {
    var key := req.idempotencyKey.value;
    var r := Transfer(db, req, NoFault);
    var t := Transaction(db.nextId, req.fromAccount.value, req.toAccount.value, req.amount.value, key, Completed);
    assert r.db.transactions == db.transactions + [t];
    WithKeyAppend(db.transactions, t, key);
    var i :| 0 <= i < |db.transactions| && db.transactions[i] == prior;
    assert WithKey(db.transactions, key) != [];
  }

  /** Any transfer adds the same amount to the whole ledger's CREDIT total as
      to its DEBIT total, so credits minus debits never changes. */
  lemma TransferConserves(db: Db, req: TransferRequest, fault: Fault)
    ensures var r := Transfer(db, req, fault);
            Total(r.db.ledger, Credit) - Total(r.db.ledger, Debit) == Total(db.ledger, Credit) - Total(db.ledger, Debit)
  {
    var r := Transfer(db, req, fault);
    if r.response.Created? {
      RecordConserves(db, req.fromAccount.value, req.toAccount.value, req.amount.value, req.idempotencyKey.value);
    }
  }

  /** A successful transfer lowers the sender's balance by the amount, raises
      the receiver's by the amount, and changes no other account's balance. */
  lemma TransferMovesBalances(db: Db, req: TransferRequest, fault: Fault, account: Id)
    ensures var r := Transfer(db, req, fault);
            Balance(r.db.ledger, account) ==
              if !r.response.Created? then Balance(db.ledger, account)
              else Balance(db.ledger, account)
                   - (if account == req.fromAccount.value then req.amount.value else 0)
                   + (if account == req.toAccount.value then req.amount.value else 0)
  {
    var r := Transfer(db, req, fault);
    if r.response.Created? {
      RecordMovesBalances(db, req.fromAccount.value, req.toAccount.value, req.amount.value,
                          req.idempotencyKey.value, account);
    }
  }

  lemma TransferKeepsWellFormed(db: Db, req: TransferRequest, fault: Fault)
    requires WellFormed(db)
    ensures WellFormed(Transfer(db, req, fault).db)
  {
    var r := Transfer(db, req, fault);
    if r.response.Created? {
      var from := FindAccount(db.accounts, req.fromAccount.value).value;
      var to := FindAccount(db.accounts, req.toAccount.value).value;
      assert from.id in AccountIds(db.accounts) && to.id in AccountIds(db.accounts);
      RecordKeepsWellFormed(db, req.fromAccount.value, req.toAccount.value, req.amount.value, req.idempotencyKey.value);
    }
  }

  /** Sending the same request again after it succeeded (with a key no
      earlier transaction carried) is answered "already processed" with the
      stored COMPLETED transaction and writes nothing: the key ends up on
      exactly one transaction row and one DEBIT/CREDIT pair. */
  lemma RetryIsAlreadyProcessed(db: Db, req: TransferRequest, fault: Fault, retryFault: Fault)
    requires WellFormed(db)
    requires Transfer(db, req, fault).response.Created?
    requires FindByKey(db.transactions, req.idempotencyKey.value) == None
    ensures var first := Transfer(db, req, fault).db;
            var stored := first.transactions[|db.transactions|];
            && stored.status == Completed && stored.idempotencyKey == req.idempotencyKey.value
            && Transfer(first, req, retryFault) == Outcome(first, AlreadyProcessed(stored))
            && WithKey(first.transactions, req.idempotencyKey.value) == [stored]
            && TaggedWith(first.ledger, stored.id) == Legs(stored)
  {
    var first := Transfer(db, req, fault).db;
    RecordFreshKey(db, req.fromAccount.value, req.toAccount.value, req.amount.value, req.idempotencyKey.value);
    assert FindAccount(first.accounts, req.fromAccount.value) == FindAccount(db.accounts, req.fromAccount.value);
    assert FindAccount(first.accounts, req.toAccount.value) == FindAccount(db.accounts, req.toAccount.value);
  }

  /** While no stored transaction has an unrecognised status, a transfer
      never gives a second row a key that is already in use. */
  lemma TransferKeepsKeysUnique(db: Db, req: TransferRequest, fault: Fault)
    requires KeysUnique(db.transactions)
    requires forall t :: t in db.transactions ==> !t.status.Unrecognised?
    ensures KeysUnique(Transfer(db, req, fault).db.transactions)
  {
    var r := Transfer(db, req, fault);
    if r.response.Created? {
      RecordKeepsKeysUnique(db, req.fromAccount.value, req.toAccount.value, req.amount.value, req.idempotencyKey.value);
    }
  }

  /** The funding path's answers: 400 for a missing field, an unknown
      receiver or a requester without an account; otherwise, whatever the
      balances, the account statuses or the earlier use of the key, a
      COMPLETED transaction whose DEBIT lands on the requester's first
      account and whose CREDIT lands on the receiver. */
  lemma FundingDecision(db: Db, requester: Id, req: FundingRequest, fault: Fault)
    ensures var r := Fund(db, requester, req, fault);
            && (!FundingFieldsPresent(req) ==> r == Outcome(db, BadRequest(MissingFields)))
            && (FundingFieldsPresent(req) && FindAccount(db.accounts, req.toAccount.value).None? ==>
                  r == Outcome(db, BadRequest(InvalidAccount)))
            && (FundingFieldsPresent(req) && FindAccount(db.accounts, req.toAccount.value).Some? &&
                FindAccountOf(db.accounts, requester).None? ==>
                  r == Outcome(db, BadRequest(SystemAccountNotFound)))
            && (FundingFieldsPresent(req) && FindAccount(db.accounts, req.toAccount.value).Some? &&
                FindAccountOf(db.accounts, requester).Some? ==>
                  if fault == NoFault then
                    && r.response.Created?
                    && r.db == Record(db, FindAccountOf(db.accounts, requester).value.id,
                                      req.toAccount.value, req.amount.value, req.idempotencyKey.value)
                  else r == Outcome(db, NoResponse))
  {
  }

  lemma FundConserves(db: Db, requester: Id, req: FundingRequest, fault: Fault)
    ensures var r := Fund(db, requester, req, fault);
            Total(r.db.ledger, Credit) - Total(r.db.ledger, Debit) == Total(db.ledger, Credit) - Total(db.ledger, Debit)
  {
    var r := Fund(db, requester, req, fault);
    if r.response.Created? {
      RecordConserves(db, FindAccountOf(db.accounts, requester).value.id, req.toAccount.value,
                      req.amount.value, req.idempotencyKey.value);
    }
  }

  /** A funding lowers the system account's balance by the amount and raises
      the receiver's by the amount; no other balance changes. */
  lemma FundMovesBalances(db: Db, requester: Id, req: FundingRequest, fault: Fault, account: Id)
    ensures var r := Fund(db, requester, req, fault);
            Balance(r.db.ledger, account) ==
              if !r.response.Created? then Balance(db.ledger, account)
              else Balance(db.ledger, account)
                   - (if account == FindAccountOf(db.accounts, requester).value.id then req.amount.value else 0)
                   + (if account == req.toAccount.value then req.amount.value else 0)
  {
    var r := Fund(db, requester, req, fault);
    if r.response.Created? {
      RecordMovesBalances(db, FindAccountOf(db.accounts, requester).value.id, req.toAccount.value,
                          req.amount.value, req.idempotencyKey.value, account);
    }
  }

  lemma FundKeepsWellFormed(db: Db, requester: Id, req: FundingRequest, fault: Fault)
    requires WellFormed(db)
    ensures WellFormed(Fund(db, requester, req, fault).db)
  {
    var r := Fund(db, requester, req, fault);
    if r.response.Created? {
      var system := FindAccountOf(db.accounts, requester).value;
      var to := FindAccount(db.accounts, req.toAccount.value).value;
      assert system.id in AccountIds(db.accounts) && to.id in AccountIds(db.accounts);
      RecordKeepsWellFormed(db, system.id, req.toAccount.value, req.amount.value, req.idempotencyKey.value);
    }
  }
}
