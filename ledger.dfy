/** The ledger collection: the entry schema (four required, immutable fields),
    the hooks that refuse every update, delete and replace, and the
    whole-ledger CREDIT and DEBIT totals. */
module Ledger {
  import opened Base

  datatype EntryType = Credit | Debit

  /** One immutable ledger row: money moved into (CREDIT) or out of (DEBIT)
      one account on behalf of one transaction. Amounts are the request's
      number as given: the schema sets no lower bound. */
  datatype LedgerEntry = LedgerEntry(account: Id, amount: int, transaction: Id, kind: EntryType)

  /** The stored spelling of an entry type. */
  function TypeName(kind: EntryType): string
  {
    match kind
    case Credit => "CREDIT"
    case Debit => "DEBIT"
  }

  /** The `enum` validator of the `type` path: only the two spellings are accepted. */
  function ParseType(name: string): (r: Option<EntryType>)
    ensures r.Some? <==> name == "CREDIT" || name == "DEBIT"
    ensures r.Some? ==> TypeName(r.value) == name
  {
    if name == "CREDIT" then Some(Credit)
    else if name == "DEBIT" then Some(Debit)
    else None
  }

  /** Every stored type name reads back as the same type. */
  lemma ParseTypeName(kind: EntryType)
    ensures ParseType(TypeName(kind)) == Some(kind)
  {
  }

  /** A document handed to `create`, before schema validation: any path may be missing. */
  datatype RawEntry = RawEntry(account: Option<Id>, amount: Option<int>, transaction: Option<Id>, kind: Option<string>)

  datatype LedgerError =
    | ValidationFailed       // a required path is missing or the type is not in the enum
    | ImmutableViolation     // thrown by the modification hook
    | DocumentNotFound       // save() of a document that is not in the collection

  /** Schema validation on `create`: every path is required and the type must be
      CREDIT or DEBIT; a valid document is stored with exactly the given values. */
  function ValidateEntry(raw: RawEntry): (r: Result<LedgerEntry, LedgerError>)
    ensures r.Ok? <==> raw.account.Some? && raw.amount.Some? && raw.transaction.Some? &&
                       raw.kind.Some? && (raw.kind.value == "CREDIT" || raw.kind.value == "DEBIT")
    ensures r.Ok? ==> r.value.account == raw.account.value && r.value.amount == raw.amount.value &&
                      r.value.transaction == raw.transaction.value && TypeName(r.value.kind) == raw.kind.value
    ensures r.Err? ==> r.error == ValidationFailed
  {
    if raw.account.None? || raw.amount.None? || raw.transaction.None? || raw.kind.None? then
      Err(ValidationFailed)
    else
      match ParseType(raw.kind.value)
      case None => Err(ValidationFailed)
      case Some(k) => Ok(LedgerEntry(raw.account.value, raw.amount.value, raw.transaction.value, k))
  }

  /** The query operations that carry the `preventLedgerModification` pre-hook. */
  datatype HookedOp =
    | FindOneAndUpdate | UpdateOne | DeleteOne | Remove
    | DeleteMany | UpdateMany | FindOneAndDelete | FindOneAndReplace

  /** A write addressed to the ledger collection. */
  datatype LedgerOp =
    | Create(raw: RawEntry)
      /** `intended` is what the collection would hold had the operation gone through. */
    | Hooked(op: HookedOp, intended: seq<LedgerEntry>)
      /** `save()` of the document at `index` after assigning `edited`'s values to its paths. */
    | Save(index: nat, edited: LedgerEntry)

  datatype WriteResult = Written(ledger: seq<LedgerEntry>) | Refused(error: LedgerError)

  predicate IsPrefix(a: seq<LedgerEntry>, b: seq<LedgerEntry>)
  {
    |a| <= |b| && b[..|a|] == a
  }

  /** One write against the ledger. A hooked operation throws before touching
      anything, whatever it meant to do; `save()` of an existing entry changes
      nothing because all four paths are immutable; only `create` adds a row. */
  function Apply(ledger: seq<LedgerEntry>, op: LedgerOp): (r: WriteResult)
    ensures r.Written? ==> IsPrefix(ledger, r.ledger) && |r.ledger| <= |ledger| + 1
    ensures op.Hooked? ==> r == Refused(ImmutableViolation)
    ensures op.Save? ==> r.Written? ==> r.ledger == ledger
    ensures op.Create? ==> (r.Written? <==> ValidateEntry(op.raw).Ok?)
    ensures op.Create? && r.Written? ==> r.ledger == ledger + [ValidateEntry(op.raw).value]
  {
    match op
    case Create(raw) =>
      (match ValidateEntry(raw)
       case Ok(e) => Written(ledger + [e])
       case Err(err) => Refused(err))
    case Hooked(_, _) => Refused(ImmutableViolation)
    case Save(i, _) => if i < |ledger| then Written(ledger) else Refused(DocumentNotFound)
  }

  /** A sequence of writes, each applied to what the previous ones left; a
      refused write leaves the ledger as it was. */
  function ApplyAll(ledger: seq<LedgerEntry>, ops: seq<LedgerOp>): seq<LedgerEntry>
    decreases |ops|
  {
    if ops == [] then ledger
    else
      var next := match Apply(ledger, ops[0]) case Written(l) => l case Refused(_) => ledger;
      ApplyAll(next, ops[1..])
  }

  /** Whatever writes are attempted, every earlier ledger is a prefix of every
      later one: no entry is ever changed, removed or reordered. */
  lemma {:induction false} OnlyAppends(ledger: seq<LedgerEntry>, ops: seq<LedgerOp>)
    ensures IsPrefix(ledger, ApplyAll(ledger, ops))
    ensures forall i :: 0 <= i < |ledger| ==> ApplyAll(ledger, ops)[i] == ledger[i]
    decreases |ops|
  {
    if ops != [] {
      var next := match Apply(ledger, ops[0]) case Written(l) => l case Refused(_) => ledger;
      OnlyAppends(next, ops[1..]);
      var final := ApplyAll(next, ops[1..]);
      assert final[..|ledger|] == final[..|next|][..|ledger|];
    }
  }

  /** Only hooked operations: the ledger ends exactly as it started. */
  lemma {:induction false} HookedWritesChangeNothing(ledger: seq<LedgerEntry>, ops: seq<LedgerOp>)
    requires forall i :: 0 <= i < |ops| ==> ops[i].Hooked?
    ensures ApplyAll(ledger, ops) == ledger
    decreases |ops|
  {
    if ops != [] {
      HookedWritesChangeNothing(ledger, ops[1..]);
    }
  }

  /** Sum of the amounts of every entry of one type, over the whole ledger. */
  function Total(entries: seq<LedgerEntry>, kind: EntryType): int
    decreases |entries|
  {
    if entries == [] then 0
    else (if entries[0].kind == kind then entries[0].amount else 0) + Total(entries[1..], kind)
  }

  lemma {:induction false} TotalConcat(xs: seq<LedgerEntry>, ys: seq<LedgerEntry>, kind: EntryType)
    ensures Total(xs + ys, kind) == Total(xs, kind) + Total(ys, kind)
    decreases |xs|
  {
    if xs == [] {
      assert xs + ys == ys;
    } else {
      assert (xs + ys)[1..] == xs[1..] + ys;
      TotalConcat(xs[1..], ys, kind);
    }
  }

  /** The double-entry conservation law: all credits equal all debits. */
  predicate Conserved(entries: seq<LedgerEntry>)
  {
    Total(entries, Credit) == Total(entries, Debit)
  }

  /** Appending a DEBIT and a CREDIT of the same amount keeps the law. */
  lemma PairConserves(entries: seq<LedgerEntry>, debit: LedgerEntry, credit: LedgerEntry)
    requires debit.kind == Debit && credit.kind == Credit && debit.amount == credit.amount
    ensures Total(entries + [debit, credit], Credit) == Total(entries, Credit) + credit.amount
    ensures Total(entries + [debit, credit], Debit) == Total(entries, Debit) + debit.amount
    ensures Conserved(entries + [debit, credit]) <==> Conserved(entries)
  {
    TotalConcat(entries, [debit, credit], Credit);
    TotalConcat(entries, [debit, credit], Debit);
    assert [debit, credit][1..] == [credit];
    assert [credit][1..] == [];
    assert Total([credit], Credit) == credit.amount && Total([credit], Debit) == 0;
    assert Total([debit, credit], Credit) == credit.amount;
    assert Total([debit, credit], Debit) == debit.amount;
  }

  /** The entries tagged with one transaction id, in ledger order. */
  function TaggedWith(entries: seq<LedgerEntry>, tx: Id): (r: seq<LedgerEntry>)
    ensures forall e :: e in r ==> e in entries && e.transaction == tx
    ensures forall i :: 0 <= i < |entries| && entries[i].transaction == tx ==> entries[i] in r
    ensures (forall e :: e in entries ==> e.transaction != tx) ==> r == []
  {
    var r := FindAll(entries, (e: LedgerEntry) => e.transaction == tx);
    assert r != [] ==> r[0] in r;
    r
  }

  lemma TaggedWithAppend(entries: seq<LedgerEntry>, e: LedgerEntry, tx: Id)
    ensures TaggedWith(entries + [e], tx) == TaggedWith(entries, tx) + (if e.transaction == tx then [e] else [])
  {
    FindAllAppend(entries, e, (e: LedgerEntry) => e.transaction == tx);
  }
}
