/** The account collection: the account schema (owner, status enum with its
    ACTIVE default, currency with its "INR" default) and `getBalance`, the
    balance derived from the ledger and never stored. */
module Accounts {
  import opened Base
  import opened Ledger

  datatype Status = Active | Frozen | Closed

  datatype Account = Account(id: Id, user: Id, status: Status, currency: string)

  /** The `enum` validator of the `status` path. */
  function ParseStatus(name: string): (r: Option<Status>)
    ensures r.Some? <==> name == "ACTIVE" || name == "FROZEN" || name == "CLOSED"
    ensures r == Some(Active) <==> name == "ACTIVE"
  {
    if name == "ACTIVE" then Some(Active)
    else if name == "FROZEN" then Some(Frozen)
    else if name == "CLOSED" then Some(Closed)
    else None
  }

  /** A document handed to `create`, before defaults and validation. */
  datatype RawAccount = RawAccount(user: Option<Id>, status: Option<string>, currency: Option<string>)

  /** Schema defaults and validation on `create`: the owner is required, a
      missing status becomes ACTIVE and a missing currency "INR"; a status
      outside the enum, or an empty currency (which a required string path
      rejects), fails validation. */
  function NewAccount(id: Id, raw: RawAccount): (r: Option<Account>)
    ensures r.Some? <==> raw.user.Some? &&
                         (raw.status.None? || ParseStatus(raw.status.value).Some?) &&
                         (raw.currency.None? || raw.currency.value != "")
    ensures r.Some? ==> r.value.id == id && r.value.user == raw.user.value
    ensures r.Some? && raw.status.None? ==> r.value.status == Active
    ensures r.Some? && raw.status.Some? ==> ParseStatus(raw.status.value) == Some(r.value.status)
    ensures r.Some? && raw.currency.None? ==> r.value.currency == "INR"
    ensures r.Some? && raw.currency.Some? ==> r.value.currency == raw.currency.value
  {
    if raw.user.None? then None
    else
      var status := if raw.status.None? then Some(Active) else ParseStatus(raw.status.value);
      var currency := if raw.currency.None? then "INR" else raw.currency.value;
      if status.None? || currency == "" then None
      else Some(Account(id, raw.user.value, status.value, currency))
  }

  /** What one ledger entry does to one account's balance. */
  function Effect(e: LedgerEntry, account: Id): int
  {
    if e.account != account then 0
    else if e.kind == Credit then e.amount
    else -e.amount
  }

  /** The balance as a fold over the ledger: the reference definition that
      the aggregation of `getBalance` is proved against. */
  function Balance(entries: seq<LedgerEntry>, account: Id): int
    decreases |entries|
  {
    if entries == [] then 0 else Effect(entries[0], account) + Balance(entries[1..], account)
  }

  /** The `$match` stage: the account's own entries, in ledger order. */
  function Matching(entries: seq<LedgerEntry>, account: Id): (r: seq<LedgerEntry>)
    ensures forall e :: e in r ==> e in entries && e.account == account
    ensures forall i :: 0 <= i < |entries| && entries[i].account == account ==> entries[i] in r
  {
    FindAll(entries, (e: LedgerEntry) => e.account == account)
  }

  /** `getBalance`: match the account's entries, sum the CREDIT and the DEBIT
      amounts in one group, project credit minus debit; an account without
      entries produces no group, and then the answer is 0. */
  function GetBalance(entries: seq<LedgerEntry>, account: Id): (r: int)
    ensures r == Balance(entries, account)
    ensures (forall e :: e in entries ==> e.account != account) ==> r == 0
  {
    var matched := Matching(entries, account);
    AggregationIsFold(entries, account);
    if |matched| == 0 then 0
    else Total(matched, Credit) - Total(matched, Debit)
  }

  /** The group-and-subtract over the matched entries equals the fold. */
  lemma {:induction false} AggregationIsFold(entries: seq<LedgerEntry>, account: Id)
    ensures Total(Matching(entries, account), Credit) - Total(Matching(entries, account), Debit)
            == Balance(entries, account)
    decreases |entries|
  {
    if entries != [] {
      AggregationIsFold(entries[1..], account);
      var rest := Matching(entries[1..], account);
      if entries[0].account == account {
        assert Matching(entries, account) == [entries[0]] + rest;
        assert ([entries[0]] + rest)[1..] == rest;
      } else {
        assert Matching(entries, account) == rest;
      }
    }
  }

  lemma {:induction false} BalanceConcat(xs: seq<LedgerEntry>, ys: seq<LedgerEntry>, account: Id)
    ensures Balance(xs + ys, account) == Balance(xs, account) + Balance(ys, account)
    decreases |xs|
  {
    if xs == [] {
      assert xs + ys == ys;
    } else {
      assert (xs + ys)[1..] == xs[1..] + ys;
      BalanceConcat(xs[1..], ys, account);
    }
  }

  /** Appending a CREDIT of a raises the account's balance by a, a DEBIT of a
      lowers it by a, and an entry of another account leaves it alone. */
  lemma BalanceAppend(entries: seq<LedgerEntry>, e: LedgerEntry, account: Id)
    ensures GetBalance(entries + [e], account) ==
            GetBalance(entries, account) +
            (if e.account != account then 0 else if e.kind == Credit then e.amount else -e.amount)
  {
    BalanceConcat(entries, [e], account);
    assert Balance([e], account) == Effect(e, account) + Balance([], account);
  }

  /** The balance depends on the account's own entries only. */
  lemma {:induction false} BalanceOfOwnEntries(entries: seq<LedgerEntry>, account: Id)
    ensures GetBalance(entries, account) == GetBalance(Matching(entries, account), account)
    decreases |entries|
  {
    if entries != [] {
      BalanceOfOwnEntries(entries[1..], account);
      var rest := Matching(entries[1..], account);
      if entries[0].account == account {
        assert Matching(entries, account) == [entries[0]] + rest;
        assert ([entries[0]] + rest)[1..] == rest;
      } else {
        assert Matching(entries, account) == rest;
      }
      MatchingIdempotent(entries[1..], account);
    }
  }

  lemma {:induction false} MatchingIdempotent(entries: seq<LedgerEntry>, account: Id)
    ensures Matching(Matching(entries, account), account) == Matching(entries, account)
    decreases |entries|
  {
    var m := Matching(entries, account);
    if m != [] {
      assert m[0] in m;
      assert forall i :: 0 <= i < |m| ==> m[i] in m && m[i].account == account;
      AllMatching(m, account);
    }
  }

  lemma {:induction false} AllMatching(entries: seq<LedgerEntry>, account: Id)
    requires forall i :: 0 <= i < |entries| ==> entries[i].account == account
    ensures Matching(entries, account) == entries
    decreases |entries|
  {
    if entries != [] {
      AllMatching(entries[1..], account);
    }
  }

  /** Two ledgers that agree on an account's entries agree on its balance,
      whatever other accounts' entries they hold. */
  lemma OtherAccountsDoNotMatter(xs: seq<LedgerEntry>, ys: seq<LedgerEntry>, account: Id)
    requires Matching(xs, account) == Matching(ys, account)
    ensures GetBalance(xs, account) == GetBalance(ys, account)
  {
    BalanceOfOwnEntries(xs, account);
    BalanceOfOwnEntries(ys, account);
  }

  /** The balance does not depend on the order of the entries. */
  lemma {:induction false} BalanceOrderIndependent(xs: seq<LedgerEntry>, ys: seq<LedgerEntry>, account: Id)
    requires multiset(xs) == multiset(ys)
    ensures GetBalance(xs, account) == GetBalance(ys, account)
    decreases |xs|
  {
    if xs != [] {
      var e := xs[0];
      assert e in multiset(ys);
      var j :| 0 <= j < |ys| && ys[j] == e;
      var rest := ys[..j] + ys[j + 1..];
      assert ys == ys[..j] + [e] + ys[j + 1..];
      assert xs == [e] + xs[1..];
      assert multiset(ys) == multiset(ys[..j]) + multiset{e} + multiset(ys[j + 1..]);
      assert multiset(xs) == multiset{e} + multiset(xs[1..]);
      assert multiset(rest) == multiset(ys[..j]) + multiset(ys[j + 1..]);
      assert multiset(rest) == multiset(ys) - multiset{e};
      assert multiset(xs[1..]) == multiset(xs) - multiset{e};
      assert multiset(xs[1..]) == multiset(rest);
      BalanceOrderIndependent(xs[1..], rest, account);
      BalanceConcat(ys[..j] + [e], ys[j + 1..], account);
      BalanceConcat(ys[..j], [e], account);
      BalanceConcat(ys[..j], ys[j + 1..], account);
      BalanceConcat([e], xs[1..], account);
      assert Balance([e], account) == Effect(e, account) + Balance([], account);
    }
  }
}
