/**
  The ledger store behind `transferMoney`: the `accounts` table (id and
  balance) and the append-only `transactions` table.

  Balances are whole cents: the columns are `decimal(10,2)`, so every stored
  value is an integer number of cents.
 */
module LedgerStore {
  import opened Wrappers

  /** A row of the `accounts` table. */
  datatype Account = Account(id: nat, balance: int)

  /** A row of the `transactions` table (its auto-increment id is the row's
      position in the log). */
  datatype TransactionRecord = TransactionRecord(fromAccountId: nat, toAccountId: nat, amount: int)

  /** Both tables: account id to balance, and the records in insertion order. */
  datatype Ledger = Ledger(balances: map<nat, int>, log: seq<TransactionRecord>)

  /** Why a lookup by primary key produced no row. */
  datatype ReadError = NotFound | StorageFault

  /** `First(&account, id)`: the row with that primary key, or an error when
      there is none or the driver call fails (`fails`). */
  function GetAccount(l: Ledger, id: nat, fails: bool): (r: Result<Account, ReadError>)
    ensures r.Success? <==> !fails && id in l.balances
    ensures r.Success? ==> r.value.id == id && r.value.balance == l.balances[id]
    ensures r.Failure? ==> (r.error == StorageFault <==> fails)
  {
    if fails then Failure(StorageFault)
    else if id !in l.balances then Failure(NotFound)
    else Success(Account(id, l.balances[id]))
  }

  /** `UPDATE accounts SET balance = b WHERE id = id`: a missing row is
      simply not matched. */
  function SetBalance(l: Ledger, id: nat, b: int): (r: Ledger)
    ensures r.log == l.log
    ensures r.balances.Keys == l.balances.Keys
    ensures id in l.balances ==> r.balances[id] == b
    ensures forall k :: k in l.balances && k != id ==> r.balances[k] == l.balances[k]
  {
    if id in l.balances then l.(balances := l.balances[id := b]) else l
  }

  /** `INSERT INTO transactions`. */
  function Append(l: Ledger, rec: TransactionRecord): (r: Ledger)
    ensures r.balances == l.balances
    ensures |r.log| == |l.log| + 1 && r.log[..|l.log|] == l.log && r.log[|l.log|] == rec
  {
    l.(log := l.log + [rec])
  }

  /** The sum of all balances. */
  ghost function Total(m: map<nat, int>): int
    decreases |m|
  {
    if m == map[] then 0
    else
      var k :| k in m;
      m[k] + Total(m - {k})
  }

  /** `Total` does not depend on which key it happens to pick first. */
  lemma {:induction false} TotalRemove(m: map<nat, int>, k: nat)
    requires k in m
    ensures Total(m) == m[k] + Total(m - {k})
    decreases |m|
  {
    var j :| j in m && Total(m) == m[j] + Total(m - {j});
    if j != k {
      assert k in m - {j};
      TotalRemove(m - {j}, k);
      assert j in m - {k};
      TotalRemove(m - {k}, j);
      assert m - {j} - {k} == m - {k} - {j};
    }
  }

  /** Overwriting one balance changes the total by exactly the difference. */
  lemma TotalUpdate(m: map<nat, int>, k: nat, v: int)
    requires k in m
    ensures Total(m[k := v]) == Total(m) - m[k] + v
  {
    TotalRemove(m, k);
    TotalRemove(m[k := v], k);
    assert m[k := v] - {k} == m - {k};
  }

  /** Writing a balance moves the ledger total by the change made to that
      account, and leaves it alone when the account does not exist. */
  lemma SetBalanceTotal(l: Ledger, id: nat, b: int)
    ensures id in l.balances ==>
      Total(SetBalance(l, id, b).balances) == Total(l.balances) - l.balances[id] + b
    ensures id !in l.balances ==> Total(SetBalance(l, id, b).balances) == Total(l.balances)
  {
    if id in l.balances {
      TotalUpdate(l.balances, id, b);
    }
  }
}
