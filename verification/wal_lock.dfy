/**
 * The write lock of the write-ahead log and the ways a WAL operation can
 * panic. Shared by the log (log.rs), the write transaction (transaction.rs)
 * and the shared WAL (shared_wal.rs).
 */
module WalLocking {
  import opened Common

  /** Why a WAL operation panics instead of returning. */
  datatype Panic =
    | AlreadyCommitted    // `enter` on a committed transaction (`todo!`)
    | LockStolen          // the lock names another transaction
    | NotATransaction     // the lock names no transaction
    | AlreadySealed       // `insert_pages` or `seal` on a sealed log
    | NoSavepoint         // `insert_pages` on a transaction without savepoints
    | NoSuchSavepoint     // `reset` to a savepoint that does not exist
    | UpgradeOfWrite      // `upgrade` of a transaction that already writes (`todo!`)
    | SegmentsOutOfOrder  // sealed segments not ordered newest-first
    | FrameAfterSnapshot  // a page read from a frame newer than the snapshot
    | MissingData         // a read past the end of a file, unwrapped
    | ShortPage           // a page shorter than a frame's 4088 page bytes
    | NoEntries           // `merge_all` on a page with no recorded offset
    | PageZero            // page 0, whose file offset `(0 - 1) * 4096` underflows

  /** What a call that may panic produces. */
  datatype Outcome<+T> = Returned(value: T) | Panicked(panic: Panic)

  /**
   * The lock word shared by the WAL and its write transaction: the id of the
   * transaction holding the write lock, and the id of a reserved successor.
   */
  class WalLock {
    var txId: Option<nat>
    var reserved: Option<nat>

    constructor ()
      ensures txId == None && reserved == None
    {
      txId := None;
      reserved := None;
    }
  }

  /**
   * The guard of `WriteTransaction::enter`: None when the closure runs,
   * otherwise why it panics. A committed transaction panics first; then the
   * lock must name this very transaction.
   */
  function EnterGuard(isCommited: bool, id: nat, holder: Option<nat>): (r: Option<Panic>)
    ensures r == None <==> !isCommited && holder == Some(id)
    ensures isCommited ==> r == Some(AlreadyCommitted)
    ensures !isCommited && holder == None ==> r == Some(NotATransaction)
  {
    if isCommited then Some(AlreadyCommitted)
    else match holder
      case Some(h) => if h == id then None else Some(LockStolen)
      case None => Some(NotATransaction)
  }
}
