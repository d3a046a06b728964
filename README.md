# Double-entry ledger engine

A Dafny model of the ledger engine of a small banking service. The model covers:

- accounts with an owner, a status (ACTIVE, FROZEN or CLOSED) and a currency;
- an append-only ledger of immutable CREDIT and DEBIT rows;
- transactions carrying a client-supplied idempotency key and a status;
- the two money-moving endpoints: the user transfer (`createTransaction`) and the system funding path (`createInitialFundsTransaction`);
- the three account endpoints: open, list and balance.

A balance is never stored. `getBalance` derives it from the ledger: it matches the account's rows, groups them, and returns total CREDIT minus total DEBIT, or 0 when there is no row.

The model is layered:

- `Base`, `Ledger`, `Accounts` and `Store` hold the collections, their schemas, the queries the controllers run, the state invariant `WellFormed` and `Record`. `Record` is the write a successful transfer commits: one COMPLETED transaction row, one DEBIT row and one CREDIT row.
- `Transfers` and `AccountController` give each endpoint as a function from the committed database to the committed database and the answer.
  - The transfer runs its guards in the handler's order: fields, accounts, idempotency key, account status, balance.
  - Session failures are an input, `Fault`: the step that throws. A throw commits nothing. The transfer then answers 400. The funding path has no `catch`; the model then sends no answer (see "Left out" on the web framework).
- `TransferLaws` proves what the endpoints guarantee. This covers each guard, all-or-nothing commits, conservation of money, balance movements, the invariant, and that a retry is "already processed".
- `Bank.Bank` is the same logic written as the handlers run it. It is a class over the three collections. Its handlers return early from each guard and stage the session's writes, which they publish only at the commit. Each handler is proved to end in exactly the state and answer of its specification function.
- `Engine` runs any sequence of requests and proves that every history keeps the invariant, conserves money and only appends.
- `Findings` holds the three discrepancies listed below. Each comes with the corrected endpoint and with the intended property proved of it.

## Model

| member | source | states |
|---|---|---|
| Base.FindOne | src/controllers/transaction.controller.js:35-41 | `findOne` returns a matching document and the first one in natural order; it returns nothing exactly when no document matches |
| Base.FindAll | src/controllers/account.controller.js:21 | `find` returns exactly the matching documents and never more than the collection holds; it is empty exactly when nothing matches |
| Base.FindAllAppend | src/controllers/account.controller.js:21 | a new document extends the `find` result by itself exactly when it matches |
| Ledger.ParseType | src/models/ledger.model.js:27-35 | the type enum accepts exactly "CREDIT" and "DEBIT", and reads them back to the same spelling |
| Ledger.ParseTypeName | src/models/ledger.model.js:27-35 | every entry type survives a write and a read unchanged |
| Ledger.ValidateEntry | src/models/ledger.model.js:4-36 | `create` accepts a row exactly when all four required paths are present and the type is in the enum; it stores the given values; otherwise it fails validation |
| Ledger.Apply | src/models/ledger.model.js:4-50 | each hooked update, delete or replace is refused with the immutability error; `save()` of an existing row changes nothing because every path is immutable; only a valid `create` adds a row, at the end |
| Ledger.OnlyAppends | src/models/ledger.model.js:39-50 | whatever writes are attempted, no earlier ledger row is ever changed, removed or reordered |
| Ledger.HookedWritesChangeNothing | src/models/ledger.model.js:43-50 | a sequence of hooked operations leaves the ledger exactly as it was |
| Ledger.PairConserves | src/controllers/transaction.controller.js:128-144 | a DEBIT and a CREDIT of one amount raise both whole-ledger totals by that amount, so credits still equal debits exactly when they did before |
| Ledger.TaggedWith | src/models/ledger.model.js:20-26 | the rows referring to one transaction are exactly the ledger rows with that reference: every returned row has it, every row with it is returned, and there are none when no row refers to it |
| Accounts.ParseStatus | src/models/account.model.js:12-19 | the status enum accepts exactly ACTIVE, FROZEN and CLOSED |
| Accounts.NewAccount | src/models/account.model.js:4-27 | `create` requires the owner; status defaults to ACTIVE and currency to "INR"; a given status in the enum and a given currency are stored as given; a status outside the enum or an empty currency fails validation |
| Accounts.Matching | src/models/account.model.js:35 | the `$match` stage keeps exactly the account's own rows |
| Accounts.GetBalance | src/models/account.model.js:32-74 | the aggregation's CREDIT minus DEBIT, with 0 for an account that has no rows, equals the fold of each row's effect over the ledger |
| Accounts.AggregationIsFold | src/models/account.model.js:34-72 | the grouped sums over the matched rows give the same number as the reference fold |
| Accounts.BalanceConcat | src/models/account.model.js:32-74 | the balance over two ledger pieces is the sum of their balances |
| Accounts.BalanceAppend | src/models/account.model.js:36-63 | a new CREDIT raises the balance by its amount; a new DEBIT lowers it; another account's row leaves it alone |
| Accounts.BalanceOfOwnEntries | src/models/account.model.js:35 | the balance depends on the account's own rows only |
| Accounts.OtherAccountsDoNotMatter | src/models/account.model.js:35 | two ledgers with the same rows for an account give it the same balance |
| Accounts.BalanceOrderIndependent | src/models/account.model.js:36-58 | the balance does not depend on the order of the rows: any permutation gives the same number |
| Store.FindAccount | src/controllers/transaction.controller.js:35-41 | the lookup by id finds an account with that id, or nothing exactly when no account has it |
| Store.FindAccountOf | src/controllers/transaction.controller.js:193-195 | the lookup by owner finds an account of that user, or nothing exactly when the user owns none |
| Store.FindByKey | src/controllers/transaction.controller.js:55-57 | the idempotency lookup finds a transaction with the key, or nothing exactly when no transaction carries it |
| Store.WithKey | src/controllers/transaction.controller.js:55-57 | all transactions carrying a key; empty exactly when none does |
| Store.WithKeyAppend | src/controllers/transaction.controller.js:120-126 | a new transaction joins the rows of its own key and of no other |
| Store.RecordConserves | src/controllers/transaction.controller.js:120-153 | a committed transfer raises the CREDIT total and the DEBIT total by the same amount |
| Store.RecordMovesBalances | src/controllers/transaction.controller.js:128-144 | a committed transfer lowers the sender's balance by the amount and raises the receiver's by the amount; no other balance changes |
| Store.RecordKeepsWellFormed | src/controllers/transaction.controller.js:120-153 | committing a transfer between two existing accounts keeps the invariant: unique ids, intact references, credits equal to debits, and each COMPLETED transaction owning exactly its DEBIT and CREDIT rows |
| Store.RecordKeepsIds | src/controllers/transaction.controller.js:120-126 | the new transaction's fresh id keeps transaction ids distinct and below the counter |
| Store.RecordKeepsReferences | src/controllers/transaction.controller.js:128-144 | the two new rows refer to existing accounts and to the new transaction |
| Store.RecordKeepsLegs | src/controllers/transaction.controller.js:128-150 | after the commit, every COMPLETED transaction, the new one included, owns exactly its two rows |
| Store.TaggedWithLegs | src/controllers/transaction.controller.js:128-144 | the two new rows are tagged with the new transaction's id and with no other |
| Store.RecordFindsKey | src/controllers/transaction.controller.js:55-57 | after a commit under an unused key, the key lookup finds the new COMPLETED row, and it is the only row with that key |
| Store.RecordKeepsKeysUnique | src/controllers/transaction.controller.js:120-126 | a commit under an unused key keeps keys unique |
| Store.RecordFreshKey | src/controllers/transaction.controller.js:120-150 | when ids are below the counter and every row names a stored transaction, a commit under an unused key is the one row the key lookup finds, and it owns exactly its two new rows |
| Store.FreshIdUntagged | src/controllers/transaction.controller.js:120-133 | no ledger row refers to an id the counter has not handed out yet |
| AccountController.CreateAccount | src/controllers/account.controller.js:4-17 | opening an account appends one ACTIVE "INR" account, owned by the requester and with a fresh id; nothing else changes |
| AccountController.UserAccounts | src/controllers/account.controller.js:19-26 | the list holds exactly the requester's accounts |
| AccountController.AccountBalance | src/controllers/account.controller.js:28-48 | the answer is 404 exactly when no account has that id and belongs to the requester; otherwise it gives the account's derived balance |
| AccountController.CreateAccountKeepsWellFormed | src/controllers/account.controller.js:4-17 | opening an account keeps the invariant and leaves every existing account, row and transaction in place |
| AccountController.CreateAccountListing | src/controllers/account.controller.js:4-26 | opening an account adds exactly that account to the owner's list; every other user's list is unchanged |
| AccountController.NewAccountBalanceIsZero | src/controllers/account.controller.js:28-48 | a newly opened account is found for its owner with balance 0 |
| Transfers.Replay | src/controllers/transaction.controller.js:59-85 | a stored COMPLETED transaction is answered 200 with itself and PENDING is answered 200; FAILED and REVERSED are answered 500; no prior transaction, or any other stored status, lets the request through |
| Transfers.Screening | src/controllers/transaction.controller.js:27-108 | a request passes the guards only when all fields are present and the amount is non-zero, both accounts exist and are ACTIVE, the key has no usable prior transaction, and the sender's derived balance covers the amount; a guard's answer is never a 201 |
| Transfers.Transfer | src/controllers/transaction.controller.js:22-172 | a transfer either writes nothing or commits exactly `Record` of the request; a 201 needs every guard passed (`Screening` lets the request through) and no fault, and carries the PENDING document |
| Transfers.Fund | src/controllers/transaction.controller.js:174-241 | a funding either writes nothing or commits `Record` from the requester's first account to the receiver; a 201 needs the fields, an account of the requester and no fault, and carries a COMPLETED row |
| TransferLaws.RejectsMissingFields | src/controllers/transaction.controller.js:27-33 | a missing or falsy field is answered 400 and nothing is written |
| TransferLaws.RejectsUnknownAccount | src/controllers/transaction.controller.js:35-47 | an unknown account id is answered 400 and nothing is written |
| TransferLaws.ReplayDecidesByStatus | src/controllers/transaction.controller.js:55-85 | once both accounts exist, a prior transaction with a named status decides the answer by that status alone, and nothing is written |
| TransferLaws.RejectsInactiveAccount | src/controllers/transaction.controller.js:91-95 | a FROZEN or CLOSED endpoint is answered 400 and nothing is written |
| TransferLaws.RejectsInsufficientBalance | src/controllers/transaction.controller.js:101-108 | a sender short of funds is answered 400 with its balance and the amount, and nothing is written |
| TransferLaws.SuccessWritesOnePair | src/controllers/transaction.controller.js:110-170 | once the guards pass, either one COMPLETED transaction and one DEBIT/CREDIT pair are committed with a 201, or the session throws and the answer is 400 with nothing committed |
| TransferLaws.TransferConserves | src/controllers/transaction.controller.js:22-172 | no transfer changes whole-ledger credits minus debits |
| TransferLaws.TransferMovesBalances | src/controllers/transaction.controller.js:22-172 | a successful transfer moves the amount from the sender's balance to the receiver's; no other balance changes; a failed one changes nothing |
| TransferLaws.TransferKeepsWellFormed | src/controllers/transaction.controller.js:22-172 | every transfer keeps the invariant |
| TransferLaws.RetryIsAlreadyProcessed | src/controllers/transaction.controller.js:55-66 | resending a successful request is answered "already processed" with the stored COMPLETED row, and writes nothing; the key is on one row, which owns one DEBIT/CREDIT pair |
| TransferLaws.TransferKeepsKeysUnique | src/controllers/transaction.controller.js:55-126 | while every stored status is one of the four named ones, a transfer never gives a second row a key already in use |
| TransferLaws.SelfTransferIsAccepted | src/controllers/transaction.controller.js:27-161 | no guard rejects a transfer from an account to itself: it commits a COMPLETED transaction and two ledger rows, and no balance changes |
| TransferLaws.UnrecognisedStatusFallsThrough | src/controllers/transaction.controller.js:55-85 | a prior transaction whose status is none of the four compared against does not stop the request; when it commits, the key is on a second row |
| TransferLaws.FundingDecision | src/controllers/transaction.controller.js:174-241 | a funding is answered 400 for a missing field, an unknown receiver or a requester without an account; otherwise it commits or sends nothing, whatever the balances, the statuses or earlier uses of the key |
| TransferLaws.FundConserves | src/controllers/transaction.controller.js:204-233 | no funding changes whole-ledger credits minus debits |
| TransferLaws.FundMovesBalances | src/controllers/transaction.controller.js:204-233 | a funding moves the amount from the requester's first account to the receiver; no other balance changes |
| TransferLaws.FundKeepsWellFormed | src/controllers/transaction.controller.js:174-241 | every funding keeps the invariant |
| Bank.Bank.CreateAccount | src/controllers/account.controller.js:4-17 | the handler appends the account and ends in exactly the state and the account that `AccountController.CreateAccount` gives; it keeps the invariant |
| Bank.Bank.CreateTransaction | src/controllers/transaction.controller.js:22-172 | the handler ends in exactly the state and answer that `Transfers.Transfer` gives for the state it started from; it keeps the invariant |
| Bank.Bank.Screen | src/controllers/transaction.controller.js:27-108 | the early-returning guards give exactly the `Transfers.Screening` verdict |
| Bank.Bank.TransferSession | src/controllers/transaction.controller.js:110-161 | the staged writes, including the in-place status update, publish exactly `Record` and answer 201 with the PENDING document; a throw at any step publishes nothing and answers 400 |
| Bank.Bank.CreateInitialFundsTransaction | src/controllers/transaction.controller.js:174-241 | the handler ends in exactly the state and answer that `Transfers.Fund` gives; it keeps the invariant |
| Bank.Bank.FundingSession | src/controllers/transaction.controller.js:204-238 | the ledger rows, then the `save()` of the COMPLETED document, publish exactly `Record`; a throw publishes nothing and sends no answer |
| Engine.StepKeepsWellFormed | src/controllers/transaction.controller.js:22-241 | every request keeps the invariant |
| Engine.StepOnlyAppends | src/controllers/transaction.controller.js:22-241 | every request conserves money and only appends accounts, rows and transactions |
| Engine.RunKeepsWellFormed | src/controllers/transaction.controller.js:22-241 | every history of requests keeps the invariant |
| Engine.RunOnlyAppends | src/controllers/transaction.controller.js:22-241 | every history conserves money and never rewrites or removes a committed document |
| Engine.FundingStep | src/controllers/transaction.controller.js:174-241 | funding 1000 to account 1 commits exactly that funding |
| Engine.AfterFunding | src/controllers/transaction.controller.js:35-108 | after the funding, account 1 holds 1000 and the key "k1" is unused |
| Engine.SendingStep | src/controllers/transaction.controller.js:22-172 | the transfer of 400 from account 1 to account 2 then passes every guard and commits |
| Engine.FundThenSend | src/controllers/transaction.controller.js:22-241 | funding 1000 and then sending 400 leaves 600 and 400 on the two accounts; the "k1" transaction is COMPLETED and owns exactly two rows |
| Engine.FinalBalance | src/models/account.model.js:32-74 | the derived balances after that history are -1000, 600 and 400 |
| Engine.FinalTransaction | src/controllers/transaction.controller.js:120-150 | the "k1" lookup finds the COMPLETED transaction, which owns two rows |
| Findings.NegativeAmountReversesTransfer | src/controllers/transaction.controller.js:29-33 | as written, a transfer of -500 between two empty accounts is committed and leaves the receiver at -500 |
| Findings.FundingReplayDuplicates | src/controllers/transaction.controller.js:174-233 | as written, the same funding request sent twice commits two transactions under one key and credits 2000 |
| Findings.TransferRepliesPending | src/controllers/transaction.controller.js:120-170 | as written, every 201 answer of a transfer carries a PENDING document, while the committed row is COMPLETED |
| Findings.IntendedReplay | src/controllers/transaction.controller.js:59-85 | the corrected dispatch answers every prior transaction; it agrees with the written one on the four named statuses |
| Findings.IntendedTransfer | src/controllers/transaction.controller.js:22-172 | the corrected transfer commits only a positive amount, between existing accounts, under an unused key, that the sender can cover; its 201 carries the committed COMPLETED row |
| Findings.IntendedTransferAgrees | src/controllers/transaction.controller.js:22-172 | for a positive amount with only named statuses stored, the corrected transfer commits exactly what the written one commits |
| Findings.IntendedTransferKeepsBalancesNonNegative | src/controllers/transaction.controller.js:101-108 | the corrected transfer never drives a non-negative balance below zero |
| Findings.IntendedTransferKeepsKeysUnique | src/controllers/transaction.controller.js:55-85 | the corrected transfer keeps keys unique whatever the stored statuses |
| Findings.IntendedFund | src/controllers/transaction.controller.js:174-241 | the corrected funding commits only a positive amount under an unused key |
| Findings.IntendedFundIsIdempotent | src/controllers/transaction.controller.js:174-241 | resending a successful corrected funding is answered "already processed" with the stored row, and writes nothing |
| Findings.IntendedFundKeepsKeysUnique | src/controllers/transaction.controller.js:174-241 | the corrected funding keeps keys unique |
| Findings.IntendedTransferKeepsWellFormed | src/controllers/transaction.controller.js:22-172 | the corrected transfer keeps the invariant |
| Findings.IntendedFundKeepsWellFormed | src/controllers/transaction.controller.js:174-241 | the corrected funding keeps the invariant |
| Findings.IntendedStepKeepsInvariants | src/controllers/transaction.controller.js:22-241 | with the corrected endpoints, every request keeps the invariant and unique keys |
| Findings.IntendedRunKeepsKeysUnique | src/controllers/transaction.controller.js:22-241 | with the corrected endpoints, every history keeps the invariant, and no idempotency key ever reaches a second transaction row |

## Left out

- Authentication is left out. The middleware and the user model are not part of this model. The requester is a given user id. As in `src/controllers/transaction.controller.js:22-108`, the transfer endpoint does not check that the requester owns `fromAccount`. The model does not check that the funding requester is a system user: the authentication middleware in front of that route does, and it is not part of this model.
- The notification e-mail after a transfer is left out (`src/controllers/transaction.controller.js:165`). It happens after the commit and changes no stored state. If it throws, the transfer stays committed but no 201 is sent; the model always answers 201 there.
- The 15-second delay between the two ledger writes is left out. Concurrency is left out too. Requests are handled one at a time, and each session is atomic. Interleavings, isolation levels and write conflicts are outside the model.
- The handlers do not abort or end the session in the `catch` or on an unhandled throw. The model keeps only the consequence: nothing uncommitted becomes visible.
- Amounts are mathematical integers. JavaScript numbers are left out: fractions, rounding, NaN, strings and other non-numeric bodies. The request guard is modelled for integers: `!amount` rejects 0 and nothing else.
- An id that cannot be cast to an ObjectId is left out. Mongoose throws in that case, and the handler has no guard for it. Ids are natural numbers, all drawn from one counter.
- `src/models/transaction.model.js` is not part of this model. Its status enum and its indexes are unknown. A stored status string other than "PENDING", "COMPLETED", "FAILED" and "REVERSED" is kept as `Unrecognised(name)`; its type excludes those four spellings, so each stored string has one representation. No unique index on the idempotency key and no bound on the amount are assumed.
- Schema timestamps and index declarations are left out. So are writes that carry no hook: `replaceOne`, `findOneAndRemove`, `findByIdAndRemove`, `bulkWrite` and direct driver access.
- `Store.WellFormed` asks nothing of amounts, account statuses or key uniqueness. Neither the handlers nor the account and ledger schemas enforce them; the transaction schema might, and it is not part of this model.
- TransferLaws.TransferKeepsKeysUnique holds only while every stored status is one of the four named ones. With any other stored status, the written dispatch lets a second row take the key (`src/controllers/transaction.controller.js:59-85`, `TransferLaws.UnrecognisedStatusFallsThrough`). This status set is unknown, so the case is stated as a law, not listed as a finding.
- Bank.Bank.CreateTransaction, Bank.Bank.CreateInitialFundsTransaction and Bank.Bank.CreateAccount promise the invariant only for a state that already had it (`old(Valid()) ==> Valid()`). The handlers have no precondition, so these methods can be called on any state.
- The funding path does run in a session (`src/controllers/transaction.controller.js:204-233`), and the model makes it atomic. Its writes therefore commit together or not at all.
- Unsorted queries are taken to return documents in insertion order. The database does not promise this: a query served by an index, such as the `{ user: 1, status: 1 }` index declared at `src/models/account.model.js:29`, returns documents in index order. The handlers leave two things open that the model fixes:
  - which of a user's several accounts `findOne({ user })` at `src/controllers/transaction.controller.js:193-195` picks. Store.FindAccountOf, Transfers.Fund, TransferLaws.FundingDecision and TransferLaws.FundMovesBalances debit the user's earliest account.
  - where a new account appears in the `find({ user })` listing at `src/controllers/account.controller.js:21`. AccountController.UserAccounts and AccountController.CreateAccountListing put it last. Under another order, only the set of listed accounts is fixed.
- Transfers.Fund, Bank.Bank.FundingSession and TransferLaws.FundingDecision answer a throwing funding session with `NoResponse`. This is what a web framework does when it does not catch a rejected async handler (Express 4). The framework's version is not part of this model. Express 5 passes the rejection to its error handler and answers 500. In both cases nothing is committed.

## Findings

| source | as written | input that shows it | evidently intended | confidence | as-written member | corrected member |
|---|---|---|---|---|---|---|
| src/controllers/transaction.controller.js:29-33 | only a zero amount is rejected; `balance < amount` at line 104 never holds for a negative amount. This assumes the transaction schema (`src/models/transaction.model.js`, not part of this model) sets no minimum on `amount`; with one, `create` at lines 120-126 throws and the answer is 400 | transfer -500 from account 0 (balance 0) to account 1 (balance 0): committed, and the receiver ends at -500 | the amount must be positive, so no transfer overdraws an account | medium (not executed) | Findings.NegativeAmountReversesTransfer | Findings.IntendedTransferKeepsBalancesNonNegative |
| src/controllers/transaction.controller.js:174-233 | the funding path never looks up the idempotency key. The duplicate row assumes the transaction schema (`src/models/transaction.model.js`, not part of this model) has no unique index on `idempotencyKey`; with one, the second `save()` at line 230 throws and nothing of the second request is committed | the same funding of 1000 under key "f" sent twice: two transactions carry "f" and the receiver holds 2000 | the key is checked first, as on the transfer path, so a retry is "already processed" | medium (not executed) | Findings.FundingReplayDuplicates | Findings.IntendedFundIsIdempotent |
| src/controllers/transaction.controller.js:120-170 | the 201 answer carries the document `create` returned, still PENDING; the status update changes only the stored row | any successful transfer | the answer carries the completed transaction | medium (not executed) | Findings.TransferRepliesPending | Findings.IntendedTransfer |

`Engine` and `Bank.Bank` model the endpoints as written. `Findings.IntendedRunKeepsKeysUnique` runs any history through the corrected endpoints. It proves that they keep the invariant and keep idempotency keys unique.
