/** The transfer endpoints, as functions from the committed database to the
    committed database and the response: `createTransaction` (a fixed
    pipeline of guards, then one atomic session) and
    `createInitialFundsTransaction` (the system funding write). */
module Transfers {
  import opened Base
  import opened Ledger
  import opened Accounts
  import opened Store

  /** The request body of a transfer. A field that is missing or falsy (an
      empty string) is `None`; the amount is kept as given, so 0 and negative
      numbers are representable. */
  datatype TransferRequest = TransferRequest(fromAccount: Option<Id>, toAccount: Option<Id>,
                                             amount: Option<int>, idempotencyKey: Option<string>)

  /** The request body of a system funding. */
  datatype FundingRequest = FundingRequest(toAccount: Option<Id>, amount: Option<int>,
                                           idempotencyKey: Option<string>)

  /** Why a request was answered 400. */
  datatype Rejection =
    | MissingFields                                    // a required field is missing or falsy
    | InvalidAccount                                   // an account id names no account
    | AccountsNotActive                                // an endpoint is FROZEN or CLOSED
    | InsufficientBalance(balance: int, requested: int)
    | RetryLater                                       // the session threw; nothing was committed
    | SystemAccountNotFound                            // the system user owns no account

  datatype Response =
    | Created(transaction: Transaction)           // 201
    | AlreadyProcessed(transaction: Transaction)  // 200, replay of a COMPLETED transaction
    | StillProcessing                             // 200, replay of a PENDING transaction
    | PriorFailed                                 // 500, replay of a FAILED transaction
    | PriorReversed                               // 500, replay of a REVERSED transaction
    | BadRequest(reason: Rejection)               // 400
    | NoResponse                                  // the handler threw and no framework handler answered

  /** The HTTP status code of a response, if one is sent. */
  function HttpStatus(r: Response): Option<nat>
  {
    match r
    case Created(_) => Some(201)
    case AlreadyProcessed(_) => Some(200)
    case StillProcessing => Some(200)
    case PriorFailed => Some(500)
    case PriorReversed => Some(500)
    case BadRequest(_) => Some(400)
    case NoResponse => None
  }

  /** The writes of the atomic session, any of which (or the commit) may throw. */
  datatype SessionStep = InsertTransaction | WriteDebit | WriteCredit | MarkCompleted | Commit

  /** Failures of the database during the session are outside the model's
      control; they are an input. */
  datatype Fault = NoFault | FailsAt(step: SessionStep)

  datatype Outcome = Outcome(db: Db, response: Response)

  /** Guard 1: `!fromAccount || !toAccount || !amount || !idempotencyKey`
      rejects a missing field, an empty key and an amount of 0, and nothing else. */
  predicate FieldsPresent(req: TransferRequest)
  {
    && req.fromAccount.Some? && req.toAccount.Some?
    && req.amount.Some? && req.amount.value != 0
    && req.idempotencyKey.Some? && req.idempotencyKey.value != ""
  }

  predicate FundingFieldsPresent(req: FundingRequest)
  {
    && req.toAccount.Some?
    && req.amount.Some? && req.amount.value != 0
    && req.idempotencyKey.Some? && req.idempotencyKey.value != ""
  }

  /** Guard 3: the idempotency dispatch on the stored status of an earlier
      transaction with the same key. A status other than the four compared
      against matches none of the branches and lets processing continue. */
  function Replay(prior: Option<Transaction>): (r: Option<Response>)
    ensures r.None? <==> prior.None? || prior.value.status.Unrecognised?
    ensures r.Some? ==> HttpStatus(r.value) ==
                        if prior.value.status in {Completed, Pending} then Some(200) else Some(500)
    ensures r.Some? && prior.value.status == Completed ==> r.value == AlreadyProcessed(prior.value)
  {
    match prior
    case None => None
    case Some(t) =>
      match t.status
      case Completed => Some(AlreadyProcessed(t))
      case Pending => Some(StillProcessing)
      case Failed => Some(PriorFailed)
      case Reversed => Some(PriorReversed)
      case Unrecognised(_) => None
  }

  /** The transaction document that `create` returns in step 5: it is what the
      201 response carries, and it still says PENDING, because the later
      `findOneAndUpdate` changes the stored row and not this copy. */
  function PendingDocument(db: Db, req: TransferRequest): Transaction
    requires FieldsPresent(req)
  {
    Transaction(db.nextId, req.fromAccount.value, req.toAccount.value, req.amount.value,
                req.idempotencyKey.value, Pending)
  }

  /** Steps 1-4 of `createTransaction`: the guards, in the handler's order. `None`
      lets the request through to the session; `Some` is the answer that
      stops it. */
  function Screening(db: Db, req: TransferRequest): (r: Option<Response>)
    ensures r.None? ==>
              && FieldsPresent(req)
              && FindAccount(db.accounts, req.fromAccount.value).Some?
              && FindAccount(db.accounts, req.toAccount.value).Some?
              && FindAccount(db.accounts, req.fromAccount.value).value.status == Active
              && FindAccount(db.accounts, req.toAccount.value).value.status == Active
              && Replay(FindByKey(db.transactions, req.idempotencyKey.value)).None?
              && GetBalance(db.ledger, req.fromAccount.value) >= req.amount.value
    ensures r.Some? ==> !r.value.Created? && !r.value.NoResponse?
  {
    if !FieldsPresent(req) then Some(BadRequest(MissingFields))
    else
      var from := FindAccount(db.accounts, req.fromAccount.value);
      var to := FindAccount(db.accounts, req.toAccount.value);
      if from.None? || to.None? then Some(BadRequest(InvalidAccount))
      else
        var replay := Replay(FindByKey(db.transactions, req.idempotencyKey.value));
        if replay.Some? then replay
        else if from.value.status != Active || to.value.status != Active then
          Some(BadRequest(AccountsNotActive))
        else
          var balance := GetBalance(db.ledger, from.value.id);
          if balance < req.amount.value then
            Some(BadRequest(InsufficientBalance(balance, req.amount.value)))
          else None
  }

  /** `createTransaction`: the guards, then the atomic session, which
      commits everything or, when any step throws, nothing. */
  function Transfer(db: Db, req: TransferRequest, fault: Fault): (r: Outcome)
    ensures r.db == db || r.response.Created?
    ensures r.response.Created? ==>
              && Screening(db, req).None? && fault == NoFault
              && FieldsPresent(req)
              && GetBalance(db.ledger, req.fromAccount.value) >= req.amount.value
              && r.response.transaction == PendingDocument(db, req)
              && r.db == Record(db, req.fromAccount.value, req.toAccount.value,
                                req.amount.value, req.idempotencyKey.value)
  {
    match Screening(db, req)
    case Some(answer) => Outcome(db, answer)
    case None =>
      if fault.FailsAt? then Outcome(db, BadRequest(RetryLater))
      else
        Outcome(Record(db, req.fromAccount.value, req.toAccount.value,
                       req.amount.value, req.idempotencyKey.value),
                Created(PendingDocument(db, req)))
  }

  /** `createInitialFundsTransaction`: no idempotency lookup, no status check
      and no balance check. The debit goes to the requester's account that the
      lookup finds first (insertion order in this model). The writes run in
      one session; the handler has no `catch`, so a throwing step leaves the
      session uncommitted, and a framework that does not catch a rejected
      async handler sends no response. In
      this path the transaction row is written once, by `save()`, already
      COMPLETED, so a failure at InsertTransaction or at MarkCompleted is the
      same failed `save()`. */
  function Fund(db: Db, requester: Id, req: FundingRequest, fault: Fault): (r: Outcome)
    ensures r.db == db || r.response.Created?
    ensures r.response.Created? ==>
              && FundingFieldsPresent(req) && fault == NoFault
              && FindAccountOf(db.accounts, requester).Some?
              && r.response.transaction.status == Completed
              && r.db == Record(db, FindAccountOf(db.accounts, requester).value.id,
                                req.toAccount.value, req.amount.value, req.idempotencyKey.value)
  {
    if !FundingFieldsPresent(req) then Outcome(db, BadRequest(MissingFields))
    else if FindAccount(db.accounts, req.toAccount.value).None? then Outcome(db, BadRequest(InvalidAccount))
    else
      var system := FindAccountOf(db.accounts, requester);
      if system.None? then Outcome(db, BadRequest(SystemAccountNotFound))
      else if fault.FailsAt? then Outcome(db, NoResponse)
      else
        var db' := Record(db, system.value.id, req.toAccount.value, req.amount.value, req.idempotencyKey.value);
        Outcome(db', Created(db'.transactions[|db.transactions|]))
  }
}
