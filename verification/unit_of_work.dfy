/**
  A database transaction over an abstract state `S`.

  `Begin` snapshots the committed state; writes go to the working copy only;
  `Rollback` makes the snapshot the visible state again and `Commit` makes the
  working copy visible. A caller only ever observes an `Outcome`.
 */
module UnitOfWork {

  /** An open transaction: `base` is the state it started from, `work` holds
      the writes made so far and not yet committed. */
  datatype Tx<S> = Tx(base: S, work: S)

  /** The end of a transaction, together with the state visible afterwards. */
  datatype Outcome<S, E> = Committed(state: S) | RolledBack(state: S, error: E)

  function Begin<S>(s: S): Tx<S> {
    Tx(s, s)
  }

  /** Replaces the working copy; the snapshot is left alone. */
  function Write<S>(tx: Tx<S>, work: S): Tx<S> {
    tx.(work := work)
  }

  function Rollback<S, E>(tx: Tx<S>, e: E): Outcome<S, E> {
    RolledBack(tx.base, e)
  }

  function Commit<S, E>(tx: Tx<S>): Outcome<S, E> {
    Committed(tx.work)
  }
}
