/** The controllers as the handlers run them: handlers that read the shared
    collections, return early on a failed guard, and otherwise write step
    by step inside a session whose writes become visible only at commit. */
module Bank {
  import opened Base
  import opened Ledger
  import opened Accounts
  import opened Store
  import AccountController
  import opened Transfers
  import TransferLaws

  /** Overwriting the last element of `s + [x]` with `y` gives `s + [y]`. */
  lemma ReplaceLast<T>(s: seq<T>, x: T, y: T)
    ensures (s + [x])[|s| := y] == s + [y]
  {
  }

  /** A fault that struck none of the session's steps is no fault. */
  lemma NoFaultRemains(fault: Fault)
    requires fault != FailsAt(InsertTransaction) && fault != FailsAt(WriteDebit) && fault != FailsAt(WriteCredit)
    requires fault != FailsAt(MarkCompleted) && fault != FailsAt(Commit)
    ensures fault == NoFault
  {
    if fault.FailsAt? {
      match fault.step
      case InsertTransaction => assert false;
      case WriteDebit => assert false;
      case WriteCredit => assert false;
      case MarkCompleted => assert false;
      case Commit => assert false;
    }
  }

  class Bank {
    var accounts: seq<Account>
    var ledger: seq<LedgerEntry>
    var transactions: seq<Transaction>
    var nextId: Id

    /** The committed state, as the specification functions see it. */
    function Snapshot(): Db
      reads this
    {
      Db(accounts, ledger, transactions, nextId)
    }

    ghost predicate Valid()
      reads this
    {
      WellFormed(Snapshot())
    }

    constructor (db: Db)
      requires WellFormed(db)
      ensures Valid() && Snapshot() == db
    {
      accounts, ledger, transactions, nextId := db.accounts, db.ledger, db.transactions, db.nextId;
    }

    /** `createAccountController`. */
    method CreateAccount(user: Id) returns (account: Account)
      modifies this
      ensures old(Valid()) ==> Valid()
      ensures account.user == user && account.status == Active && account.currency == "INR"
      ensures account.id == old(nextId)
      ensures accounts == old(accounts) + [account]
      ensures ledger == old(ledger) && transactions == old(transactions)
      ensures (Snapshot(), account) == AccountController.CreateAccount(old(Snapshot()), user)
    {
      if Valid() {
        AccountController.CreateAccountKeepsWellFormed(Snapshot(), user);
      }
      var created := NewAccount(nextId, RawAccount(Some(user), None, None));
      account := created.value;
      accounts := accounts + [account];
      nextId := nextId + 1;
    }

    /** `createTransaction`: the guards, then the session. */
    method CreateTransaction(req: TransferRequest, fault: Fault) returns (response: Response)
      modifies this
      ensures Snapshot() == Transfer(old(Snapshot()), req, fault).db
      ensures response == Transfer(old(Snapshot()), req, fault).response
      ensures old(Valid()) ==> Valid()
    {
      if Valid() {
        TransferLaws.TransferKeepsWellFormed(Snapshot(), req, fault);
      }
      var verdict := Screen(req);
      if verdict.Some? {
        return verdict.value;
      }
      response := TransferSession(req.fromAccount.value, req.toAccount.value, req.amount.value,
                                  req.idempotencyKey.value, fault);
    }

    /** `createTransaction`, steps 1-4: the guards, in the handler's order, each
        returning early with its answer. */
    method Screen(req: TransferRequest) returns (verdict: Option<Response>)
      ensures verdict == Screening(Snapshot(), req)
    {
      // 1. validate the request
      if !FieldsPresent(req) {
        return Some(BadRequest(MissingFields));
      }
      var fromId, toId, amount, key := req.fromAccount.value, req.toAccount.value, req.amount.value, req.idempotencyKey.value;
      var fromAccount := FindAccount(accounts, fromId);
      var toAccount := FindAccount(accounts, toId);
      if fromAccount.None? || toAccount.None? {
        return Some(BadRequest(InvalidAccount));
      }

      // 2. idempotency key
      var prior := FindByKey(transactions, key);
      if prior.Some? {
        if prior.value.status == Completed {
          return Some(AlreadyProcessed(prior.value));
        }
        if prior.value.status == Pending {
          return Some(StillProcessing);
        }
        if prior.value.status == Failed {
          return Some(PriorFailed);
        }
        if prior.value.status == Reversed {
          return Some(PriorReversed);
        }
      }

      // 3. account status
      if fromAccount.value.status != Active || toAccount.value.status != Active {
        return Some(BadRequest(AccountsNotActive));
      }

      // 4. sender balance, derived from the ledger
      var balance := GetBalance(ledger, fromAccount.value.id);
      if balance < amount {
        return Some(BadRequest(InsufficientBalance(balance, amount)));
      }
      assert Replay(prior).None?;
      verdict := None;
    }

    /** `createTransaction`, steps 5-9: the session. Its writes go to the
        session's view and become the committed state only when the commit
        succeeds; a throw lands in the `catch`, which answers 400 and commits
        nothing. The notification e-mail of step 10 is not part of this model. */
    method TransferSession(fromId: Id, toId: Id, amount: int, key: string, fault: Fault) returns (response: Response)
      modifies this
      ensures accounts == old(accounts)
      ensures fault == NoFault ==>
                && Snapshot() == Record(old(Snapshot()), fromId, toId, amount, key)
                && response == Created(Transaction(old(nextId), fromId, toId, amount, key, Pending))
      ensures fault != NoFault ==> Snapshot() == old(Snapshot()) && response == BadRequest(RetryLater)
    {
      var sessionTransactions, sessionLedger := transactions, ledger;
      var id := nextId;
      if fault == FailsAt(InsertTransaction) {
        return BadRequest(RetryLater);
      }
      var transaction := Transaction(id, fromId, toId, amount, key, Pending);
      sessionTransactions := sessionTransactions + [transaction];
      if fault == FailsAt(WriteDebit) {
        return BadRequest(RetryLater);
      }
      sessionLedger := sessionLedger + [LedgerEntry(fromId, amount, id, Debit)];
      if fault == FailsAt(WriteCredit) {
        return BadRequest(RetryLater);
      }
      sessionLedger := sessionLedger + [LedgerEntry(toId, amount, id, Credit)];
      if fault == FailsAt(MarkCompleted) {
        return BadRequest(RetryLater);
      }
      // findOneAndUpdate({ _id: id }, { status: COMPLETED }) addressed to the
      // row just inserted; the model updates that row, the last one staged
      sessionTransactions := sessionTransactions[|sessionTransactions| - 1 := transaction.(status := Completed)];
      if fault == FailsAt(Commit) {
        return BadRequest(RetryLater);
      }
      NoFaultRemains(fault);
      ReplaceLast(transactions, transaction, transaction.(status := Completed));
      transactions, ledger, nextId := sessionTransactions, sessionLedger, id + 1;
      response := Created(transaction);
    }

    /** `createInitialFundsTransaction`: the guards, then the session. */
    method CreateInitialFundsTransaction(requester: Id, req: FundingRequest, fault: Fault) returns (response: Response)
      modifies this
      ensures Snapshot() == Fund(old(Snapshot()), requester, req, fault).db
      ensures response == Fund(old(Snapshot()), requester, req, fault).response
      ensures old(Valid()) ==> Valid()
    {
      if Valid() {
        TransferLaws.FundKeepsWellFormed(Snapshot(), requester, req, fault);
      }

      if !FundingFieldsPresent(req) {
        return BadRequest(MissingFields);
      }
      var toId, amount, key := req.toAccount.value, req.amount.value, req.idempotencyKey.value;
      var toAccount := FindAccount(accounts, toId);
      if toAccount.None? {
        return BadRequest(InvalidAccount);
      }
      var fromAccount := FindAccountOf(accounts, requester);
      if fromAccount.None? {
        return BadRequest(SystemAccountNotFound);
      }
      response := FundingSession(fromAccount.value.id, toId, amount, key, fault);
    }

    /** The funding session. The transaction document is built in memory,
        takes its id at once, and is written only by the `save()` after both
        ledger rows, already COMPLETED. There is no `catch`: a throw leaves
        the session uncommitted, and the rejected handler is not answered. */
    method FundingSession(fromId: Id, toId: Id, amount: int, key: string, fault: Fault) returns (response: Response)
      modifies this
      ensures accounts == old(accounts)
      ensures fault == NoFault ==>
                && Snapshot() == Record(old(Snapshot()), fromId, toId, amount, key)
                && response == Created(Transaction(old(nextId), fromId, toId, amount, key, Completed))
      ensures fault != NoFault ==> Snapshot() == old(Snapshot()) && response == NoResponse
    {
      var sessionTransactions, sessionLedger := transactions, ledger;
      var id := nextId;
      var transaction := Transaction(id, fromId, toId, amount, key, Pending);
      if fault == FailsAt(WriteDebit) {
        return NoResponse;
      }
      sessionLedger := sessionLedger + [LedgerEntry(fromId, amount, id, Debit)];
      if fault == FailsAt(WriteCredit) {
        return NoResponse;
      }
      sessionLedger := sessionLedger + [LedgerEntry(toId, amount, id, Credit)];
      transaction := transaction.(status := Completed);
      if fault == FailsAt(InsertTransaction) || fault == FailsAt(MarkCompleted) {
        return NoResponse;
      }
      sessionTransactions := sessionTransactions + [transaction];
      if fault == FailsAt(Commit) {
        return NoResponse;
      }
      NoFaultRemains(fault);
      transactions, ledger, nextId := sessionTransactions, sessionLedger, id + 1;
      response := Created(transaction);
    }
  }
}
