/**
  `transferMoney`: one funds movement between two accounts, run as a single
  database transaction.

  The steps run in the Go code's order: read the source account, check its
  balance, write the debited balance, read the destination (inside the same
  transaction, so it sees the debit), write the credited balance, insert the
  transaction record, commit. Every error path rolls the transaction back.
 */
module Transfer {
  import opened Wrappers
  import opened UnitOfWork
  import opened LedgerStore

  /** The driver calls of one transfer, in the order they are made. A fault
      set names the calls that fail if they are reached; only the first one
      reached has any effect. */
  datatype Step =
    | StartTx
    | LoadSource
    | DebitSource
    | LoadDestination
    | CreditDestination
    | InsertRecord
    | CommitTx

  datatype TransferError =
    | BeginFailed
    | SourceLookupFailed(cause: ReadError)
    | InsufficientFunds
    | DebitFailed
    | DestinationLookupFailed(cause: ReadError)
    | CreditFailed
    | RecordFailed
    | CommitFailed

  function TransferMoney(l: Ledger, from: nat, to: nat, amount: int, faults: set<Step>)
    : (o: Outcome<Ledger, TransferError>)
    // rollback: a failed transfer leaves nothing behind
    ensures o.RolledBack? ==> o.state == l
    // it commits exactly when no driver call fails, the source exists and
    // covers the amount, and the destination exists
    ensures o.Committed? <==>
      && faults == {}
      && from in l.balances
      && amount <= l.balances[from]
      && to in l.balances
    // on commit no account appears or disappears, and only the two named
    // accounts can change
    ensures o.Committed? ==> o.state.balances.Keys == l.balances.Keys
    ensures o.Committed? ==>
      forall k :: k in l.balances && k != from && k != to ==> o.state.balances[k] == l.balances[k]
    // on commit the source loses and the destination gains exactly `amount`
    ensures o.Committed? && from != to ==>
      && from in l.balances && to in l.balances
      && o.state.balances[from] == l.balances[from] - amount
      && o.state.balances[to] == l.balances[to] + amount
    // a committed self-transfer leaves every balance where it was
    ensures o.Committed? && from == to ==> o.state.balances == l.balances
    // on commit exactly one record is appended; earlier records stay as they were
    ensures o.Committed? ==>
      && |o.state.log| == |l.log| + 1
      && o.state.log[..|l.log|] == l.log
      && o.state.log[|l.log|] == TransactionRecord(from, to, amount)
  {
    if StartTx in faults then RolledBack(l, BeginFailed)
    else
      var tx := Begin(l);
      match GetAccount(tx.work, from, LoadSource in faults)
      case Failure(e) => Rollback(tx, SourceLookupFailed(e))
      case Success(source) =>
        if source.balance < amount then Rollback(tx, InsufficientFunds)
        else if DebitSource in faults then Rollback(tx, DebitFailed)
        else
          var tx := Write(tx, SetBalance(tx.work, from, source.balance - amount));
          match GetAccount(tx.work, to, LoadDestination in faults)
          case Failure(e) => Rollback(tx, DestinationLookupFailed(e))
          case Success(destination) =>
            if CreditDestination in faults then Rollback(tx, CreditFailed)
            else
              var tx := Write(tx, SetBalance(tx.work, to, destination.balance + amount));
              if InsertRecord in faults then Rollback(tx, RecordFailed)
              else
                var tx := Write(tx, Append(tx.work, TransactionRecord(from, to, amount)));
                if CommitTx in faults then Rollback(tx, CommitFailed)
                else
                  NoStepFails(faults);
                  Commit(tx)
  }

  /** A fault set that names none of the steps is empty. */
  lemma NoStepFails(faults: set<Step>)
    requires StartTx !in faults && LoadSource !in faults && DebitSource !in faults
    requires LoadDestination !in faults && CreditDestination !in faults
    requires InsertRecord !in faults && CommitTx !in faults
    ensures faults == {}
  {
    forall s: Step
      ensures s !in faults
    {
      match s
      case StartTx =>
      case LoadSource =>
      case DebitSource =>
      case LoadDestination =>
      case CreditDestination =>
      case InsertRecord =>
      case CommitTx =>
    }
  }

  /** A missing source account is reported before the balance is looked at,
      whatever the amount and the destination. */
  lemma MissingSourceReportedFirst(l: Ledger, from: nat, to: nat, amount: int, faults: set<Step>)
    requires StartTx !in faults && LoadSource !in faults
    requires from !in l.balances
    ensures TransferMoney(l, from, to, amount, faults) == RolledBack(l, SourceLookupFailed(NotFound))
  {
  }

  /** An underfunded source is refused before the destination is read, so a
      missing destination is never reported in that case. */
  lemma InsufficientFundsMasksDestination(l: Ledger, from: nat, to: nat, amount: int, faults: set<Step>)
    requires StartTx !in faults && LoadSource !in faults
    requires from in l.balances && l.balances[from] < amount
    ensures TransferMoney(l, from, to, amount, faults) == RolledBack(l, InsufficientFunds)
  {
  }

  /** A missing destination is only found after the source was debited; the
      rollback undoes that debit, so the ledger is the one before the call. */
  lemma MissingDestinationRolledBack(l: Ledger, from: nat, to: nat, amount: int, faults: set<Step>)
    requires StartTx !in faults && LoadSource !in faults
    requires DebitSource !in faults && LoadDestination !in faults
    requires from in l.balances && amount <= l.balances[from]
    requires to !in l.balances
    ensures TransferMoney(l, from, to, amount, faults) == RolledBack(l, DestinationLookupFailed(NotFound))
  {
  }

  /** A self-transfer is not refused: the destination is re-read after the
      debit, so the balance ends where it started, yet a record is still
      appended. */
  lemma SelfTransfer(l: Ledger, id: nat, amount: int)
    requires id in l.balances && amount <= l.balances[id]
    ensures TransferMoney(l, id, id, amount, {}) == Committed(Ledger(l.balances, l.log + [TransactionRecord(id, id, amount)]))
  {
  }

  /** Conservation: the sum of all balances is the same after every call,
      committed or rolled back. */
  lemma TransferConservesTotal(l: Ledger, from: nat, to: nat, amount: int, faults: set<Step>)
    ensures Total(TransferMoney(l, from, to, amount, faults).state.balances) == Total(l.balances)
  {
    var o := TransferMoney(l, from, to, amount, faults);
    if o.Committed? {
      var debited := SetBalance(l, from, l.balances[from] - amount);
      SetBalanceTotal(l, from, l.balances[from] - amount);
      SetBalanceTotal(debited, to, debited.balances[to] + amount);
      assert o.state.balances == SetBalance(debited, to, debited.balances[to] + amount).balances;
    }
  }

  /** The funds check is strict: a balance equal to the amount is enough and
      leaves the source at exactly zero. */
  lemma ExactBalanceEmptiesSource(l: Ledger, from: nat, to: nat)
    requires from in l.balances && to in l.balances && from != to
    ensures var o := TransferMoney(l, from, to, l.balances[from], {});
      o.Committed? && o.state.balances[from] == 0
  {
  }

  /** After a committed transfer the source is not overdrawn, unless it is a
      self-transfer of a negative amount (which moves nothing). */
  lemma SourceNotOverdrawn(l: Ledger, from: nat, to: nat, amount: int, faults: set<Step>)
    requires (var o := TransferMoney(l, from, to, amount, faults); o.Committed?)
    requires from != to || amount >= 0
    ensures from in TransferMoney(l, from, to, amount, faults).state.balances
    ensures TransferMoney(l, from, to, amount, faults).state.balances[from] >= 0
  {
  }

  /** With a non-negative amount, a ledger without negative balances keeps
      none after any call. */
  lemma NonNegativeBalancesPreserved(l: Ledger, from: nat, to: nat, amount: int, faults: set<Step>)
    requires amount >= 0
    requires forall k :: k in l.balances ==> l.balances[k] >= 0
    ensures var o := TransferMoney(l, from, to, amount, faults);
      forall k :: k in o.state.balances ==> o.state.balances[k] >= 0
  {
  }

  /** The amount is not required to be positive: a negative amount passes the
      funds check on the source and drives the destination below zero. */
  lemma NegativeAmountOverdrawsDestination()
    ensures var l := Ledger(map[1 := 0, 2 := 0], []);
      TransferMoney(l, 1, 2, -100, {})
        == Committed(Ledger(map[1 := 100, 2 := -100], [TransactionRecord(1, 2, -100)]))
  {
    assert map[1 := 0, 2 := 0][1 := 100][2 := -100] == map[1 := 100, 2 := -100];
    assert [] + [TransactionRecord(1, 2, -100)] == [TransactionRecord(1, 2, -100)];
  }

  /** A failed transfer leaves the state it started from, so repeating it
      fails the same way again. */
  lemma FailureIsRepeatable(l: Ledger, from: nat, to: nat, amount: int, faults: set<Step>)
    ensures var o := TransferMoney(l, from, to, amount, faults);
      o.RolledBack? ==> TransferMoney(o.state, from, to, amount, faults) == o
  {
  }

  /** The demonstration: accounts of 500.00 and 300.00; moving 100.00 leaves
      400.00 in each with one record; moving 500.00 back is refused and
      changes nothing. */
  lemma DemonstrationRun()
    ensures var l0 := Ledger(map[1 := 50000, 2 := 30000], []);
      var l1 := Ledger(map[1 := 40000, 2 := 40000], [TransactionRecord(1, 2, 10000)]);
      && TransferMoney(l0, 1, 2, 10000, {}) == Committed(l1)
      && TransferMoney(l1, 2, 1, 50000, {}) == RolledBack(l1, InsufficientFunds)
  {
    assert map[1 := 50000, 2 := 30000][1 := 40000][2 := 40000] == map[1 := 40000, 2 := 40000];
    assert [] + [TransactionRecord(1, 2, 10000)] == [TransactionRecord(1, 2, 10000)];
  }

  /** A further scenario: after the demonstration's first transfer, a
      transfer of 50.00 from an unknown account is refused and changes
      nothing. */
  lemma UnknownSourceScenario()
    ensures var l1 := Ledger(map[1 := 40000, 2 := 40000], [TransactionRecord(1, 2, 10000)]);
      TransferMoney(l1, 7, 1, 5000, {}) == RolledBack(l1, SourceLookupFailed(NotFound))
  {
  }
}
