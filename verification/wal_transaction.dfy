/**
 * WAL transactions (libsql-wal/src/transaction.rs): a read transaction's
 * snapshot, and a write transaction's stack of savepoints with its frame and
 * offset counters. Each savepoint may carry an index from page number to a
 * 64-bit entry that splits into (frame number, offset).
 */
module WalTransaction {
  import opened Common
  import opened WalLocking
  import opened WalLog

  /** A read transaction: the newest frame it may see and the database size
      of its snapshot, its connection and how many pages it read. */
  datatype ReadTransaction = ReadTransaction(maxFrameNo: nat, dbSize: nat, connId: nat, pagesRead: nat)

  /** A savepoint: the counters when it was taken, and its page index if any. */
  datatype Savepoint = Savepoint(nextOffset: nat, nextFrameNo: nat, index: Option<map<nat, U64>>)

  /** The counters of a write transaction and its savepoint stack. */
  datatype Counters = Counters(savepoints: seq<Savepoint>, nextFrameNo: nat, nextOffset: nat)

  /** The state after taking a savepoint: one more, recording the current counters. */
  function AfterSavepoint(c: Counters): (r: Counters)
    ensures |r.savepoints| == |c.savepoints| + 1 && r.savepoints[..|c.savepoints|] == c.savepoints
    ensures r.nextFrameNo == c.nextFrameNo && r.nextOffset == c.nextOffset
    ensures r.savepoints[|c.savepoints|] == Savepoint(c.nextOffset, c.nextFrameNo, None)
  {
    c.(savepoints := c.savepoints + [Savepoint(c.nextOffset, c.nextFrameNo, None)])
  }

  /** The state after resetting to savepoint `id`: the savepoints up to and
      including `id`, with the counters it recorded. */
  function AfterReset(c: Counters, id: nat): (r: Counters)
    requires id < |c.savepoints|
    ensures r.savepoints == c.savepoints[..id + 1]
    ensures r.nextFrameNo == c.savepoints[id].nextFrameNo && r.nextOffset == c.savepoints[id].nextOffset
  {
    Counters(c.savepoints[..id + 1], c.savepoints[id].nextFrameNo, c.savepoints[id].nextOffset)
  }

  /** Taking a savepoint and later resetting to it restores the counters and
      the savepoint count of that moment, whatever happened in between to the
      counters, to later savepoints and to the savepoint's own index. */
  lemma ResetRestoresSavepoint(c: Counters, later: Counters)
    requires |later.savepoints| > |c.savepoints|
    requires later.savepoints[..|c.savepoints|] == c.savepoints
    requires later.savepoints[|c.savepoints|].nextFrameNo == c.nextFrameNo
    requires later.savepoints[|c.savepoints|].nextOffset == c.nextOffset
    ensures var r := AfterReset(later, |c.savepoints|);
      r.nextFrameNo == AfterSavepoint(c).nextFrameNo && r.nextOffset == AfterSavepoint(c).nextOffset &&
      |r.savepoints| == |AfterSavepoint(c).savepoints| && r.savepoints[..|c.savepoints|] == c.savepoints
  {
    var r := AfterReset(later, |c.savepoints|);
    assert r.savepoints[..|c.savepoints|] == later.savepoints[..|c.savepoints|];
  }

  /** The frame of `pageNo` in the newest savepoint whose index holds it,
      split into (frame number, offset). */
  function FindIn(savepoints: seq<Savepoint>, pageNo: nat): Option<(Offset, Offset)>
    decreases |savepoints|
  {
    if |savepoints| == 0 then None
    else
      var s := savepoints[|savepoints| - 1];
      if s.index.Some? && pageNo in s.index.value then Some(IndexEntrySplit(s.index.value[pageNo]))
      else FindIn(savepoints[..|savepoints| - 1], pageNo)
  }

  /** The index of savepoint `s` holds `pageNo`. */
  predicate Holds(s: Savepoint, pageNo: nat)
  {
    s.index.Some? && pageNo in s.index.value
  }

  /** The search finds nothing exactly when no savepoint holds the page. */
  lemma {:induction false} FindInNone(savepoints: seq<Savepoint>, pageNo: nat)
    ensures FindIn(savepoints, pageNo).None? <==> forall i :: 0 <= i < |savepoints| ==> !Holds(savepoints[i], pageNo)
    decreases |savepoints|
  {
    if |savepoints| > 0 {
      var init := savepoints[..|savepoints| - 1];
      assert forall i :: 0 <= i < |init| ==> init[i] == savepoints[i];
      FindInNone(init, pageNo);
    }
  }

  /** The search finds the entry of the newest savepoint holding the page. */
  lemma {:induction false} FindInNewest(savepoints: seq<Savepoint>, pageNo: nat, i: nat)
    requires i < |savepoints| && Holds(savepoints[i], pageNo)
    requires forall j :: i < j < |savepoints| ==> !Holds(savepoints[j], pageNo)
    ensures FindIn(savepoints, pageNo) == Some(IndexEntrySplit(savepoints[i].index.value[pageNo]))
    decreases |savepoints|
  {
    if i < |savepoints| - 1 {
      var init := savepoints[..|savepoints| - 1];
      assert forall j :: 0 <= j < |init| ==> init[j] == savepoints[j];
      FindInNewest(init, pageNo, i);
    }
  }

  /** The union of the savepoint indexes; a page takes its entry from the
      newest savepoint holding it. */
  function IndexUnion(savepoints: seq<Savepoint>): map<nat, U64>
    decreases |savepoints|
  {
    if |savepoints| == 0 then map[]
    else
      var s := savepoints[|savepoints| - 1];
      IndexUnion(savepoints[..|savepoints| - 1]) + (if s.index.Some? then s.index.value else map[])
  }

  /** Iterating the union and looking a page up newest-first agree: a page is
      in the union exactly when the lookup finds it, with the same entry. */
  lemma {:induction false} UnionAgreesWithFind(savepoints: seq<Savepoint>, pageNo: nat)
    ensures pageNo in IndexUnion(savepoints) <==> FindIn(savepoints, pageNo).Some?
    ensures pageNo in IndexUnion(savepoints) ==>
      FindIn(savepoints, pageNo) == Some(IndexEntrySplit(IndexUnion(savepoints)[pageNo]))
    decreases |savepoints|
  {
    if |savepoints| > 0 {
      UnionAgreesWithFind(savepoints[..|savepoints| - 1], pageNo);
    }
  }

  /** A write transaction as transaction.rs defines it: its id, the shared
      lock, the savepoint stack (each savepoint recording the counters when it
      was taken and an index of 64-bit entries), the counters of the next frame,
      whether it committed, and its read snapshot. `WalLog.WriteTransaction`
      is the same Rust struct in the narrower shape log.rs writes to. */
  class WriteTransaction {
    const id: nat
    const walLock: WalLock
    var savepoints: seq<Savepoint>
    var nextFrameNo: nat
    var nextOffset: nat
    var isCommited: bool
    var readTx: ReadTransaction

    constructor (id: nat, walLock: WalLock, savepoints: seq<Savepoint>, nextFrameNo: nat, nextOffset: nat,
                 readTx: ReadTransaction)
      ensures this.id == id && this.walLock == walLock && this.savepoints == savepoints
      ensures this.nextFrameNo == nextFrameNo && this.nextOffset == nextOffset
      ensures !isCommited && this.readTx == readTx
    {
      this.id := id;
      this.walLock := walLock;
      this.savepoints := savepoints;
      this.nextFrameNo := nextFrameNo;
      this.nextOffset := nextOffset;
      isCommited := false;
      this.readTx := readTx;
    }

    function State(): Counters
      reads this
    {
      Counters(savepoints, nextFrameNo, nextOffset)
    }

    /** Whether `enter` runs its closure (None) or why it panics. */
    function Enter(): (r: Option<Panic>)
      reads this, walLock
      ensures r == None <==> !isCommited && walLock.txId == Some(id)
    {
      EnterGuard(isCommited, id, walLock.txId)
    }

    /** Pushes a savepoint recording the current counters; returns its number. */
    method TakeSavepoint() returns (savepointId: nat)
      modifies this`savepoints
      ensures savepointId == |old(savepoints)|
      ensures State() == AfterSavepoint(old(State()))
    {
      savepointId := |savepoints|;
      savepoints := savepoints + [Savepoint(nextOffset, nextFrameNo, None)];
    }

    /** Drops every savepoint after `savepointId` and restores the counters it
        recorded; panics when there is no such savepoint. */
    method Reset(savepointId: nat) returns (r: Outcome<()>)
      modifies this`savepoints, this`nextFrameNo, this`nextOffset
      ensures savepointId >= |old(savepoints)| <==> r == Panicked(NoSuchSavepoint)
      ensures savepointId >= |old(savepoints)| ==> State() == old(State())
      ensures savepointId < |old(savepoints)| ==> r == Returned(()) && State() == AfterReset(old(State()), savepointId)
    {
      if savepointId >= |savepoints| {
        return Panicked(NoSuchSavepoint);
      }
      savepoints := savepoints[..savepointId + 1];
      nextFrameNo := savepoints[|savepoints| - 1].nextFrameNo;
      nextOffset := savepoints[|savepoints| - 1].nextOffset;
      return Returned(());
    }

    /** Looks `pageNo` up in the savepoint indexes, newest first. */
    method FindFrame(pageNo: nat) returns (r: Option<(Offset, Offset)>)
      ensures r == FindIn(savepoints, pageNo)
    {
      var i := |savepoints|;
      while i > 0
        invariant 0 <= i <= |savepoints| && savepoints[..|savepoints|] == savepoints
        invariant FindIn(savepoints, pageNo) == FindIn(savepoints[..i], pageNo)
      {
        assert savepoints[..i][..i - 1] == savepoints[..i - 1];
        var s := savepoints[i - 1];
        if s.index.Some? && pageNo in s.index.value {
          return Some(IndexEntrySplit(s.index.value[pageNo]));
        }
        i := i - 1;
      }
      assert savepoints[..0] == [];
      return None;
    }

    /** The pairs `index_iter` yields: each page once, with the entry of the
        newest savepoint holding it. */
    function IndexIter(): (r: map<nat, U64>)
      reads this
      ensures forall p :: p in r <==> FindIn(savepoints, p).Some?
      ensures forall p | p in r :: FindIn(savepoints, p) == Some(IndexEntrySplit(r[p]))
    {
      UnionAgreesWithFindAll(savepoints);
      IndexUnion(savepoints)
    }

    /** Gives up the write lock if this transaction still holds it, and
        returns the read snapshot. */
    method Downgrade() returns (r: ReadTransaction)
      modifies walLock`txId
      ensures old(walLock.txId) == Some(id) ==> walLock.txId == None
      ensures old(walLock.txId) != Some(id) ==> walLock.txId == old(walLock.txId)
      ensures r == readTx
    {
      if walLock.txId == Some(id) {
        walLock.txId := None;
      }
      return readTx;
    }
  }

  lemma UnionAgreesWithFindAll(savepoints: seq<Savepoint>)
    ensures forall p :: p in IndexUnion(savepoints) <==> FindIn(savepoints, p).Some?
    ensures forall p | p in IndexUnion(savepoints) ::
      FindIn(savepoints, p) == Some(IndexEntrySplit(IndexUnion(savepoints)[p]))
  {
    forall p
      ensures p in IndexUnion(savepoints) <==> FindIn(savepoints, p).Some?
      ensures p in IndexUnion(savepoints) ==> FindIn(savepoints, p) == Some(IndexEntrySplit(IndexUnion(savepoints)[p]))
    {
      UnionAgreesWithFind(savepoints, p);
    }
  }

  /** A transaction: writing, or only reading. */
  datatype Transaction = Write(w: WriteTransaction) | Read(r: ReadTransaction)

  /** The write transaction inside `tx`, if it writes. */
  function AsWriteMut(tx: Transaction): (r: Option<WriteTransaction>)
    ensures r.Some? <==> tx.Write?
    ensures r.Some? ==> r.value == tx.w
  {
    match tx
    case Write(w) => Some(w)
    case Read(_) => None
  }

  /** Marks a write transaction committed; a read transaction is left alone. */
  method Commit(tx: Transaction)
    modifies if tx.Write? then {tx.w} else {}
    ensures tx.Write? ==> tx.w.isCommited && tx.w.State() == old(tx.w.State()) && tx.w.readTx == old(tx.w.readTx)
  {
    match tx
    case Write(w) => w.isCommited := true;
    case Read(_) =>
  }
}
